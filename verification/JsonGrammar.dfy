/** The language of the table, written as syntax trees with their text, and what a text means. */
module JsonGrammar {
  import opened Options
  import opened JsonTable

  // ----- meaning -----

  /** A JSON value as the callback builds it. */
  datatype Tree =
    | IntTree(n: int) | FloatTree(text: string) | NullTree | TrueTree | FalseTree | StrTree(s: string)
    | ArrTree(kids: seq<Kid>) | ObjTree(kids: seq<Kid>)

  /** A child of a container: object children have a key, array children none. */
  datatype Kid = Kid(key: Option<string>, t: Tree)

  /** The callback events of a value. */
  function EventsOf(t: Tree): seq<Event>
    decreases t
  {
    match t
    case IntTree(n) => [Integer(n)]
    case FloatTree(text) => [Float(text)]
    case NullTree => [Null]
    case TrueTree => [True]
    case FalseTree => [False]
    case StrTree(s) => [Str(s)]
    case ArrTree(kids) => [BeginArray] + EventsOfKids(kids) + [EndArray]
    case ObjTree(kids) => [BeginObject] + EventsOfKids(kids) + [EndObject]
  }

  function EventsOfKids(kids: seq<Kid>): seq<Event>
    decreases kids
  {
    if kids == [] then []
    else
      assert kids[0].t < kids[0];
      KeyEvent(kids[0].key) + EventsOf(kids[0].t) + EventsOfKids(kids[1..])
  }

  function KeyEvent(key: Option<string>): seq<Event> {
    if key.Some? then [Key(key.value)] else []
  }

  // ----- strings -----

  datatype StrChar = Plain(c: char) | Esc(c: char) | Uni(h: string) | Pair(hi: string, lo: string)

  predicate IsHex4(h: string) { |h| == 4 && forall i :: 0 <= i < 4 ==> IsHex(h[i]) }

  predicate ValidChar(x: StrChar) {
    match x
    case Plain(c) => ' ' <= c && c as int < 128 && c != '"' && c != '\\'
    case Esc(c) => c != 'u' && Unescape(c).Some?
    case Uni(h) => IsHex4(h) && !IsHighSurrogate(HexValue(h)) && !IsLowSurrogate(HexValue(h))
    case Pair(hi, lo) => IsHex4(hi) && IsHex4(lo) && IsHighSurrogate(HexValue(hi)) && IsLowSurrogate(HexValue(lo))
  }

  function CharText(x: StrChar): string {
    match x
    case Plain(c) => [c]
    case Esc(c) => ['\\', c]
    case Uni(h) => "\\u" + h
    case Pair(hi, lo) => "\\u" + hi + "\\u" + lo
  }

  lemma {:induction false} HexRange(h: string)
    requires IsHex4(h)
    ensures 0 <= HexValue(h) < 0x10000
  {
    forall i | 0 <= i < 4 ensures 0 <= HexDigit(h[i]) < 16 {}
  }

  function CharValue(x: StrChar): string
    requires ValidChar(x)
  {
    match x
    case Plain(c) => [c]
    case Esc(c) => Unescape(c).value
    case Uni(h) => HexRange(h); Utf8(HexValue(h))
    case Pair(hi, lo) => Utf8(SurrogatePair(HexValue(hi), HexValue(lo)))
  }

  predicate ValidChars(cs: seq<StrChar>) { forall i :: 0 <= i < |cs| ==> ValidChar(cs[i]) }

  function CharsText(cs: seq<StrChar>): string {
    if cs == [] then [] else CharsText(cs[..|cs| - 1]) + CharText(cs[|cs| - 1])
  }

  function CharsValue(cs: seq<StrChar>): string
    requires ValidChars(cs)
  {
    if cs == [] then [] else CharsValue(cs[..|cs| - 1]) + CharValue(cs[|cs| - 1])
  }

  // ----- numbers -----

  datatype Exponent = Exponent(e: char, sign: string, digits: string)

  datatype Number = Number(neg: bool, whole: string, frac: Option<string>, exp: Option<Exponent>)

  predicate IsDigit(c: char) { '0' <= c <= '9' }

  predicate Digits(s: string) { forall i :: 0 <= i < |s| ==> IsDigit(s[i]) }

  /** "1." is a number of the table, "0e1" is not. */
  predicate ValidNumber(n: Number) {
    && n.whole != [] && Digits(n.whole) && (n.whole[0] == '0' ==> |n.whole| == 1)
    && (n.frac.Some? ==> Digits(n.frac.value))
    && (n.exp.Some? ==> ValidExponent(n.exp.value) && (n.whole != "0" || n.frac.Some?))
  }

  predicate ValidExponent(x: Exponent) {
    (x.e == 'e' || x.e == 'E') && (x.sign == "" || x.sign == "+" || x.sign == "-") && x.digits != [] && Digits(x.digits)
  }

  function NumberText(n: Number): string {
    WholeText(n) + (if n.frac.Some? then "." + n.frac.value else "")
    + (if n.exp.Some? then [n.exp.value.e] + n.exp.value.sign + n.exp.value.digits else "")
  }

  function WholeText(n: Number): string { (if n.neg then "-" else "") + n.whole }

  function NumberMeaning(n: Number): Tree {
    if n.frac.None? && n.exp.None? then IntTree(Stored(if n.neg then -Natural(n.whole) else Natural(n.whole)))
    else FloatTree(NumberText(n))
  }

  // ----- values -----

  datatype Value =
    | VNum(n: Number) | VStr(cs: seq<StrChar>) | VTrue | VFalse | VNull
    | VEmptyObj(ws: string) | VObj(ms: seq<Member>) | VEmptyArr(ws: string) | VArr(es: seq<Elem>)

  /** A member with the white space before the key, around the colon and after the value. */
  datatype Member = Member(ws0: string, key: seq<StrChar>, ws1: string, ws2: string, v: Value, ws3: string)

  datatype Elem = Elem(ws0: string, v: Value, ws1: string)

  predicate Ws(s: string) { forall i :: 0 <= i < |s| ==> IsWhite(s[i]) }

  predicate ValidValue(v: Value)
    decreases v
  {
    match v
    case VNum(n) => ValidNumber(n)
    case VStr(cs) => ValidChars(cs)
    case VTrue => true
    case VFalse => true
    case VNull => true
    case VEmptyObj(ws) => Ws(ws)
    case VObj(ms) => ms != [] && ValidMembers(ms)
    case VEmptyArr(ws) => Ws(ws)
    case VArr(es) => es != [] && ValidElems(es)
  }

  predicate ValidMembers(ms: seq<Member>)
    decreases ms
  {
    ms == [] ||
    (Ws(ms[0].ws0) && ValidChars(ms[0].key) && Ws(ms[0].ws1) && Ws(ms[0].ws2) && ValidValue(ms[0].v) && Ws(ms[0].ws3)
     && ValidMembers(ms[1..]))
  }

  predicate ValidElems(es: seq<Elem>)
    decreases es
  {
    es == [] || (Ws(es[0].ws0) && ValidValue(es[0].v) && Ws(es[0].ws1) && ValidElems(es[1..]))
  }

  function Text(v: Value): string
    decreases v
  {
    match v
    case VNum(n) => NumberText(n)
    case VStr(cs) => Quoted(cs)
    case VTrue => "true"
    case VFalse => "false"
    case VNull => "null"
    case VEmptyObj(ws) => "{" + ws + "}"
    case VObj(ms) => "{" + MembersText(ms) + "}"
    case VEmptyArr(ws) => "[" + ws + "]"
    case VArr(es) => "[" + ElemsText(es) + "]"
  }

  function Quoted(cs: seq<StrChar>): string { "\"" + CharsText(cs) + "\"" }

  function MembersText(ms: seq<Member>): string
    decreases ms
  {
    if ms == [] then []
    else
      var m := ms[0];
      (m.ws0 + Quoted(m.key) + m.ws1 + ":" + m.ws2) + Text(m.v) + m.ws3
      + (if |ms| == 1 then "" else "," + MembersText(ms[1..]))
  }

  function ElemsText(es: seq<Elem>): string
    decreases es
  {
    if es == [] then []
    else es[0].ws0 + Text(es[0].v) + es[0].ws1 + (if |es| == 1 then "" else "," + ElemsText(es[1..]))
  }

  function Meaning(v: Value): Tree
    requires ValidValue(v)
    decreases v
  {
    match v
    case VNum(n) => NumberMeaning(n)
    case VStr(cs) => StrTree(CharsValue(cs))
    case VTrue => TrueTree
    case VFalse => FalseTree
    case VNull => NullTree
    case VEmptyObj(_) => ObjTree([])
    case VObj(ms) => ObjTree(MembersMeaning(ms))
    case VEmptyArr(_) => ArrTree([])
    case VArr(es) => ArrTree(ElemsMeaning(es))
  }

  function MembersMeaning(ms: seq<Member>): seq<Kid>
    requires ValidMembers(ms)
    decreases ms
  {
    if ms == [] then []
    else [Kid(Some(CharsValue(ms[0].key)), Meaning(ms[0].v))] + MembersMeaning(ms[1..])
  }

  function ElemsMeaning(es: seq<Elem>): seq<Kid>
    requires ValidElems(es)
    decreases es
  {
    if es == [] then [] else [Kid(None, Meaning(es[0].v))] + ElemsMeaning(es[1..])
  }

  function Max(a: nat, b: nat): nat { if a < b then b else a }

  /** Nesting of containers. */
  function Depth(v: Value): nat
    decreases v
  {
    match v
    case VEmptyObj(_) => 1
    case VObj(ms) => 1 + MembersDepth(ms)
    case VEmptyArr(_) => 1
    case VArr(es) => 1 + ElemsDepth(es)
    case _ => 0
  }

  function MembersDepth(ms: seq<Member>): nat
    decreases ms
  {
    if ms == [] then 0 else Max(Depth(ms[0].v), MembersDepth(ms[1..]))
  }

  function ElemsDepth(es: seq<Elem>): nat
    decreases es
  {
    if es == [] then 0 else Max(Depth(es[0].v), ElemsDepth(es[1..]))
  }

  predicate IsContainer(v: Value) { v.VEmptyObj? || v.VObj? || v.VEmptyArr? || v.VArr? }

  /** A whole text: blank, or one container between white space. */
  datatype Doc = Blank(ws: string) | Doc(ws0: string, v: Value, ws1: string)

  predicate ValidDoc(d: Doc) {
    match d
    case Blank(ws) => Ws(ws)
    case Doc(ws0, v, ws1) => Ws(ws0) && Ws(ws1) && ValidValue(v) && IsContainer(v) && Depth(v) <= 15
  }

  function DocText(d: Doc): string {
    match d
    case Blank(ws) => ws
    case Doc(ws0, v, ws1) => ws0 + Text(v) + ws1
  }

  function DocMeaning(d: Doc): Option<Tree>
    requires ValidDoc(d)
  {
    match d
    case Blank(_) => None
    case Doc(_, v, _) => Some(Meaning(v))
  }

  function DocEvents(t: Option<Tree>): seq<Event> { if t.Some? then EventsOf(t.value) else [] }
}
