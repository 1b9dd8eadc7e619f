/** The character classes and the state transition table of src/json_parser.c, and one step of
    the automaton as a function on parser states. Text is a string of bytes: characters of
    code 128 and above stand for the bytes that a signed char makes negative. */
module JsonTable {
  import opened Options

  datatype Class =
    | Space | White | LCurB | RCurB | LSqrB | RSqrB | Colon | Comma | Quote | BackS | Slash
    | Plus | Minus | Point | Zero | Digit | LowA | LowB | LowC | LowD | LowE | LowF | LowL
    | LowN | LowR | LowS | LowT | LowU | ABCDF | CapE | Etc | Star

  /** ascii_class; None is the universal error code. */
  function ClassOf(c: char): Option<Class> {
    if c == ' ' then Some(Space)
    else if c == '\t' || c == '\n' || c == '\r' then Some(White)
    else if c < ' ' || c as int >= 128 then None
    else if c == '{' then Some(LCurB)
    else if c == '}' then Some(RCurB)
    else if c == '[' then Some(LSqrB)
    else if c == ']' then Some(RSqrB)
    else if c == ':' then Some(Colon)
    else if c == ',' then Some(Comma)
    else if c == '"' then Some(Quote)
    else if c == '\\' then Some(BackS)
    else if c == '/' then Some(Slash)
    else if c == '*' then Some(Star)
    else if c == '+' then Some(Plus)
    else if c == '-' then Some(Minus)
    else if c == '.' then Some(Point)
    else if c == '0' then Some(Zero)
    else if '1' <= c <= '9' then Some(Digit)
    else if c == 'a' then Some(LowA)
    else if c == 'b' then Some(LowB)
    else if c == 'c' then Some(LowC)
    else if c == 'd' then Some(LowD)
    else if c == 'e' then Some(LowE)
    else if c == 'f' then Some(LowF)
    else if c == 'l' then Some(LowL)
    else if c == 'n' then Some(LowN)
    else if c == 'r' then Some(LowR)
    else if c == 's' then Some(LowS)
    else if c == 't' then Some(LowT)
    else if c == 'u' then Some(LowU)
    else if c == 'E' then Some(CapE)
    else if 'A' <= c <= 'F' then Some(ABCDF)
    else Some(Etc)
  }

  /** The states that are reachable when comments are not allowed. */
  datatype State =
    | GO | OK | OB | KE | CO | VA | AR | ST | ES | U1 | U2 | U3 | U4 | MI | ZE | IT | FR
    | E1 | E2 | E3 | T1 | T2 | T3 | F1 | F2 | F3 | F4 | N1 | N2 | N3 | FX | D1 | D2

  /** A table entry: an error, the next state, or an action. */
  datatype Entry =
    | Err
    | To(s: State)
    | CommentBegin | FalseBegin | TrueBegin | NullBegin | ByExponent | ByFraction | StringBegin
    | ByMinus | ByZero | ByDigit | Escape | UnicodeRead
    | DoColon | DoComma | StringEnd | ArrayBegin | ObjectBegin | ArrayEnd | ObjectEnd | EmptyObjectEnd

  predicate IsHexClass(c: Class) {
    c.Zero? || c.Digit? || c.LowA? || c.LowB? || c.LowC? || c.LowD? || c.LowE? || c.LowF? || c.ABCDF? || c.CapE?
  }

  predicate IsDigitClass(c: Class) { c.Zero? || c.Digit? }

  predicate IsWhiteClass(c: Class) { c.Space? || c.White? }

  /** The part of a row shared by every state that may end a value. */
  function EndOfValue(c: Class): Entry {
    if IsWhiteClass(c) then To(OK)
    else if c.RCurB? then ObjectEnd
    else if c.RSqrB? then ArrayEnd
    else if c.Comma? then DoComma
    else Err
  }

  /** The part of a row shared by the two states that may begin a value. */
  function BeginOfValue(c: Class): Entry {
    match c
    case LCurB => ObjectBegin
    case LSqrB => ArrayBegin
    case Quote => StringBegin
    case Slash => CommentBegin
    case Minus => ByMinus
    case Zero => ByZero
    case Digit => ByDigit
    case LowF => FalseBegin
    case LowN => NullBegin
    case LowT => TrueBegin
    case _ => Err
  }

  /** state_transition_table */
  function Table(s: State, c: Class): Entry {
    match s
    case GO => if IsWhiteClass(c) then To(GO) else if c.LCurB? then ObjectBegin else if c.LSqrB? then ArrayBegin
               else if c.Slash? then CommentBegin else Err
    case OK => if c.Slash? then CommentBegin else EndOfValue(c)
    case OB => if IsWhiteClass(c) then To(OB) else if c.RCurB? then EmptyObjectEnd else if c.Quote? then StringBegin
               else if c.Slash? then CommentBegin else Err
    case KE => if IsWhiteClass(c) then To(KE) else if c.Quote? then StringBegin
               else if c.Slash? then CommentBegin else Err
    case CO => if IsWhiteClass(c) then To(CO) else if c.Colon? then DoColon
               else if c.Slash? then CommentBegin else Err
    case VA => if IsWhiteClass(c) then To(VA) else BeginOfValue(c)
    case AR => if IsWhiteClass(c) then To(AR) else if c.RSqrB? then ArrayEnd else BeginOfValue(c)
    case ST => if c.White? then Err else if c.Quote? then StringEnd else if c.BackS? then Escape else To(ST)
    case ES => if c.Quote? || c.BackS? || c.Slash? || c.LowB? || c.LowF? || c.LowN? || c.LowR? || c.LowT? then To(ST)
               else if c.LowU? then To(U1) else Err
    case U1 => if IsHexClass(c) then To(U2) else Err
    case U2 => if IsHexClass(c) then To(U3) else Err
    case U3 => if IsHexClass(c) then To(U4) else Err
    case U4 => if IsHexClass(c) then UnicodeRead else Err
    case MI => if c.Zero? then To(ZE) else if c.Digit? then To(IT) else Err
    case ZE => if c.Point? then ByFraction else if c.Slash? then CommentBegin else EndOfValue(c)
    case IT => if IsDigitClass(c) then To(IT) else if c.Point? then ByFraction
               else if c.LowE? || c.CapE? then ByExponent
               else if c.Slash? then CommentBegin else EndOfValue(c)
    case FR => if IsDigitClass(c) then To(FR) else if c.LowE? || c.CapE? then To(E1)
               else if c.Slash? then CommentBegin else EndOfValue(c)
    case E1 => if c.Plus? || c.Minus? then To(E2) else if IsDigitClass(c) then To(E3) else Err
    case E2 => if IsDigitClass(c) then To(E3) else Err
    case E3 => if IsDigitClass(c) then To(E3) else EndOfValue(c)
    case T1 => if c.LowR? then To(T2) else Err
    case T2 => if c.LowU? then To(T3) else Err
    case T3 => if c.LowE? then To(OK) else if c.Slash? then CommentBegin else Err
    case F1 => if c.LowA? then To(F2) else Err
    case F2 => if c.LowL? then To(F3) else Err
    case F3 => if c.LowS? then To(F4) else Err
    case F4 => if c.LowE? then To(OK) else if c.Slash? then CommentBegin else Err
    case N1 => if c.LowU? then To(N2) else Err
    case N2 => if c.LowL? then To(N3) else Err
    case N3 => if c.LowL? then To(OK) else if c.Slash? then CommentBegin else Err
    case FX => if IsDigitClass(c) then To(FR) else if c.LowE? || c.CapE? then To(E1) else EndOfValue(c)
    case D1 => if c.BackS? then To(D2) else Err
    case D2 => if c.LowU? then To(U1) else Err
  }

  datatype Mode = InArray | Done | InKey | InObject

  datatype Type = NoType | TInteger | TFloat | TNull | TTrue | TFalse | TString

  /** What the parser reports to its callback. A float is reported by its text, since the
      conversion is strtod's. */
  datatype Event =
    | BeginArray | EndArray | BeginObject | EndObject
    | Integer(n: int) | Float(text: string) | Null | True | False | Str(s: string) | Key(k: string)

  const DEPTH := 15

  datatype Parser = Parser(
    state: State, typ: Type, escaped: bool, high: int, stack: seq<Mode>, buf: string, events: seq<Event>)

  const START := Parser(GO, NoType, false, 0, [Done], [], [])

  // ----- values of the parse buffer -----

  predicate IsWhite(c: char) { c == ' ' || c == '\t' || c == '\n' || c == '\r' }

  /** What sscanf and strtod look at: the buffer up to its first white space. */
  function Token(buf: string): string {
    if buf == [] || IsWhite(buf[0]) then [] else [buf[0]] + Token(buf[1..])
  }

  function DigitValue(c: char): int { c as int - '0' as int }

  function Natural(ds: string): int {
    if ds == [] then 0 else 10 * Natural(ds[..|ds| - 1]) + DigitValue(ds[|ds| - 1])
  }

  /** What sscanf with %lld stores for a number. The C standard leaves open what it stores for one that is outside
      64 bits; the nearest number inside is what strtoll gives. */
  function Stored(n: int): int {
    if n < -0x8000_0000_0000_0000 then -0x8000_0000_0000_0000
    else if n > 0x7fff_ffff_ffff_ffff then 0x7fff_ffff_ffff_ffff
    else n
  }

  function IntegerValue(t: string): int {
    Stored(if t != [] && t[0] == '-' then -Natural(t[1..]) else Natural(t))
  }

  /** The event that parse_parse_buffer sends, if any. */
  function Pending(typ: Type, buf: string): seq<Event> {
    match typ
    case NoType => []
    case TInteger => [Integer(IntegerValue(Token(buf)))]
    case TFloat => [Float(Token(buf))]
    case TNull => [Null]
    case TTrue => [True]
    case TFalse => [False]
    case TString => [Str(buf)]
  }

  // ----- escapes -----

  /** The character that a one-letter escape stands for. */
  function Unescape(c: char): Option<string> {
    match c
    case 'b' => Some(['\U{0008}'])
    case 'f' => Some(['\U{000C}'])
    case 'n' => Some("\n")
    case 'r' => Some("\r")
    case 't' => Some("\t")
    case '"' => Some("\"")
    case '\\' => Some("\\")
    case '/' => Some("/")
    case 'u' => Some("\\u")
    case _ => None
  }

  predicate IsHex(c: char) { '0' <= c <= '9' || 'a' <= c <= 'f' || 'A' <= c <= 'F' }

  function HexDigit(c: char): int {
    if c >= 'a' then c as int - 'a' as int + 10
    else if c >= 'A' then c as int - 'A' as int + 10
    else c as int - '0' as int
  }

  function HexValue(h: string): int
    requires |h| == 4
  {
    0x1000 * HexDigit(h[0]) + 0x100 * HexDigit(h[1]) + 0x10 * HexDigit(h[2]) + HexDigit(h[3])
  }

  predicate IsHighSurrogate(u: int) { 0xD800 <= u < 0xDC00 }
  predicate IsLowSurrogate(u: int) { 0xDC00 <= u < 0xE000 }

  function SurrogatePair(hi: int, lo: int): int { (hi - 0xD800) * 0x400 + (lo - 0xDC00) + 0x10000 }

  function Byte(n: int): char
    requires 0 <= n < 256
  {
    n as char
  }

  /** UTF-8, RFC 3629 section 3. */
  function Utf8(u: int): string
    requires 0 <= u < 0x110000
  {
    if u < 0x80 then [Byte(u)]
    else if u < 0x800 then [Byte(0xC0 + u / 64), Byte(0x80 + u % 64)]
    else if u < 0x10000 then [Byte(0xE0 + u / 4096), Byte(0x80 + u / 64 % 64), Byte(0x80 + u % 64)]
    else [Byte(0xF0 + u / 262144), Byte(0x80 + u / 4096 % 64), Byte(0x80 + u / 64 % 64), Byte(0x80 + u % 64)]
  }

  /** decode_unicode_char: the four hexadecimal digits that end the buffer. */
  function DecodeUnicode(p: Parser): Option<Parser> {
    var n := |p.buf|;
    if n < 6 || !(forall i :: n - 4 <= i < n ==> IsHex(p.buf[i])) then None
    else
      var u := HexValue(p.buf[n - 4..]);
      var rest := p.buf[..n - 6];
      if p.high != 0 then
        if IsHighSurrogate(p.high) && IsLowSurrogate(u)
        then Some(p.(buf := rest + Utf8(SurrogatePair(p.high, u)), high := 0))
        else None
      else if IsHighSurrogate(u) then Some(p.(buf := rest, high := u))
      else if IsLowSurrogate(u) then None
      else Some(p.(buf := rest + Utf8(u)))
  }

  // ----- one step -----

  /** add_char_to_parse_buffer */
  function AddChar(p: Parser, c: char, k: Class): Option<Parser> {
    if p.escaped then
      if p.buf == [] || Unescape(c).None? then None
      else Some(p.(escaped := false, buf := p.buf[..|p.buf| - 1] + Unescape(c).value))
    else if p.typ.NoType? && IsWhiteClass(k) then Some(p)
    else Some(p.(buf := p.buf + [c]))
  }

  function Push(p: Parser, m: Mode): Option<Parser> {
    if |p.stack| - 1 == DEPTH then None else Some(p.(stack := p.stack + [m]))
  }

  function Pop(p: Parser, m: Mode): Option<Parser> {
    if p.stack == [] || p.stack[|p.stack| - 1] != m then None else Some(p.(stack := p.stack[..|p.stack| - 1]))
  }

  function Emit(p: Parser, e: seq<Event>): Parser { p.(events := p.events + e) }

  function PopChar(p: Parser): Parser {
    if p.buf == [] then p else p.(buf := p.buf[..|p.buf| - 1])
  }

  /** parse_parse_buffer */
  function Flush(p: Parser): Parser { Emit(p, Pending(p.typ, p.buf)).(buf := []) }

  function Top(p: Parser): Option<Mode> {
    if p.stack == [] then None else Some(p.stack[|p.stack| - 1])
  }

  // The actions of JSON_parser_char, one function for each that does more than set the state.

  function OnUnicode(p: Parser): Option<Parser> {
    var q := DecodeUnicode(p);
    if q.None? then None else Some(q.value.(state := if q.value.high != 0 then D1 else ST))
  }

  function OnColon(p: Parser): Option<Parser> {
    var q := Pop(PopChar(p), InKey);
    if q.None? then None else Push(q.value.(state := VA), InObject)
  }

  function OnComma(p: Parser): Option<Parser> {
    var f := Flush(PopChar(p)).(typ := NoType);
    if Top(p) == Some(InObject) then
      var q := Pop(f, InObject);
      if q.None? then None else Push(q.value.(state := KE), InKey)
    else if Top(p) == Some(InArray) then Some(f.(state := VA))
    else None
  }

  function OnStringEnd(p: Parser): Option<Parser> {
    var q := PopChar(p);
    if Top(p) == Some(InKey) then Some(Emit(q, [Key(q.buf)]).(buf := [], typ := NoType, state := CO))
    else if Top(p) == Some(InArray) || Top(p) == Some(InObject) then Some(Flush(q).(typ := NoType, state := OK))
    else None
  }

  function OnBegin(p: Parser, e: Event, m: Mode, s: State): Option<Parser> {
    Push(Emit(PopChar(p), [e]).(state := s), m)
  }

  function OnEnd(p: Parser, e: Event, m: Mode): Option<Parser> {
    Pop(Emit(Flush(PopChar(p)), [e]).(typ := NoType, state := OK), m)
  }

  function OnEmptyObjectEnd(p: Parser): Option<Parser> {
    Pop(Emit(p.(buf := []), [EndObject]).(state := OK), InKey)
  }

  function Act(p: Parser, e: Entry): Option<Parser> {
    match e
    case Err => None
    case To(s) => Some(p.(state := s))
    case CommentBegin => None
    case FalseBegin => Some(p.(typ := TFalse, state := F1))
    case TrueBegin => Some(p.(typ := TTrue, state := T1))
    case NullBegin => Some(p.(typ := TNull, state := N1))
    case ByExponent => Some(p.(typ := TFloat, state := E1))
    case ByFraction => Some(p.(typ := TFloat, state := FX))
    case StringBegin => Some(p.(buf := [], typ := TString, state := ST))
    case ByMinus => Some(p.(typ := TInteger, state := MI))
    case ByZero => Some(p.(typ := TInteger, state := ZE))
    case ByDigit => Some(p.(typ := TInteger, state := IT))
    case Escape => Some(p.(escaped := true, state := ES))
    case UnicodeRead => OnUnicode(p)
    case DoColon => OnColon(p)
    case DoComma => OnComma(p)
    case StringEnd => OnStringEnd(p)
    case ArrayBegin => OnBegin(p, BeginArray, InArray, AR)
    case ObjectBegin => OnBegin(p, BeginObject, InKey, OB)
    case ArrayEnd => OnEnd(p, EndArray, InArray)
    case ObjectEnd => OnEnd(p, EndObject, InObject)
    case EmptyObjectEnd => OnEmptyObjectEnd(p)
  }

  /** JSON_parser_char: None when the character is rejected. */
  function Step(p: Parser, c: char): Option<Parser> {
    if ClassOf(c).None? then None
    else
      var k := ClassOf(c).value;
      var q := AddChar(p, c, k);
      if q.None? then None else Act(q.value, Table(p.state, k))
  }

  /** JSON_parser_char on every character in turn. */
  function Run(p: Parser, text: string): Option<Parser>
    decreases text
  {
    if text == [] then Some(p)
    else
      var q := Step(p, text[0]);
      if q.None? then None else Run(q.value, text[1..])
  }

  /** JSON_parser_done */
  predicate Finished(p: Option<Parser>) {
    p.Some? && (p.value.state.OK? || p.value.state.GO?) && Top(p.value) == Some(Done)
  }

  lemma {:induction false} RunConcat(p: Parser, a: string, b: string)
    ensures Run(p, a + b) == if Run(p, a).None? then None else Run(Run(p, a).value, b)
    decreases a
  {
    if a == [] {
      assert a + b == b;
    } else {
      assert (a + b)[0] == a[0] && (a + b)[1..] == a[1..] + b;
      var q := Step(p, a[0]);
      if q.Some? { RunConcat(q.value, a[1..], b); }
    }
  }
}
