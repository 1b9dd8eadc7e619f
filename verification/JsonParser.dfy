/** The parser object of src/json_parser.c, and init_json_parser of src/json.c, which runs it. */
module JsonParsers {
  import opened Options
  import opened JsonTable
  import opened JsonGrammar
  import opened JsonBuild
  import opened JsonLayout
  import opened JsonContexts
  import opened JsonSteps
  import opened JsonAccept
  import opened JsonInvariants
  import opened JsonSound
  import opened JsonUnicode
  import Words

  const STACK_SIZE := 128
  const PARSE_BUFFER_SIZE := 3500

  // ----- what the callback may be sent -----

  /** After the first event there is a current node. */
  lemma {:induction false} CallbackCurrent(cx: Context, e: Event)
    requires Callable(cx, e)
    ensures JsonBuild.Callback(cx, e).current.Some?
  {}

  lemma {:induction false} FoldSnoc(es: seq<Event>, cx: Context, e: Event)
    requires Fold(NEW_CONTEXT, es) == Some(cx) && Callable(cx, e)
    ensures Fold(NEW_CONTEXT, es + [e]) == Some(JsonBuild.Callback(cx, e))
  {
    hide Fold;
    hide JsonBuild.Callback;
    FoldConcat(NEW_CONTEXT, es, [e]);
    FoldOne(cx, e);
  }

  // ----- the assertions of the source -----

  /** Which states and classes an entry of the table can come from. */
  predicate ComesFrom(e: Entry, s: State, k: Class) {
    match e
    case StringBegin => s.OB? || s.KE? || s.VA? || s.AR?
    case TrueBegin => s.VA? || s.AR?
    case FalseBegin => s.VA? || s.AR?
    case NullBegin => s.VA? || s.AR?
    case ArrayBegin => (s.GO? || s.VA? || s.AR?) && k.LSqrB?
    case ObjectBegin => (s.GO? || s.VA? || s.AR?) && k.LCurB?
    case ByExponent => s.IT?
    case ByFraction => (s.ZE? || s.IT?) && k.Point?
    case StringEnd => s.ST? && k.Quote?
    case Escape => s.ST?
    case UnicodeRead => s.U4? && IsHexClass(k)
    case DoColon => s.CO? && k.Colon?
    case DoComma => EndState(s) && k.Comma?
    case ArrayEnd => (EndState(s) || s.AR?) && k.RSqrB?
    case ObjectEnd => EndState(s) && k.RCurB?
    case EmptyObjectEnd => s.OB?
    case _ => true
  }

  lemma {:induction false} BetweenSources(s: State, k: Class)
    requires Between(s)
    ensures ComesFrom(Table(s, k), s, k)
  {}

  lemma {:induction false} EndSources(s: State, k: Class)
    requires EndState(s)
    ensures ComesFrom(Table(s, k), s, k)
  {}

  lemma {:induction false} OtherSources(s: State, k: Class)
    requires !Between(s) && !EndState(s)
    ensures ComesFrom(Table(s, k), s, k)
  {}

  lemma {:induction false} ActionSources(s: State, k: Class)
    ensures ComesFrom(Table(s, k), s, k)
  {
    hide Table;
    hide ComesFrom;
    if Between(s) {
      BetweenSources(s, k);
    } else if EndState(s) {
      EndSources(s, k);
    } else {
      OtherSources(s, k);
    }
  }

  /** What the source asserts when it performs e, and what keeps it inside its arrays. */
  predicate Asserted(p: Parser, e: Entry) {
    && p.stack != []
    && match e
       case StringBegin => p.typ.NoType?
       case TrueBegin => p.typ.NoType?
       case FalseBegin => p.typ.NoType?
       case NullBegin => p.typ.NoType?
       case ByExponent => !p.typ.TFalse? && !p.typ.TTrue? && !p.typ.TNull? && !p.typ.TString?
       case ByFraction => !p.typ.TFalse? && !p.typ.TTrue? && !p.typ.TNull? && !p.typ.TString?
                          && p.buf != [] && p.buf[|p.buf| - 1] == '.'
       case ArrayBegin => p.buf != [] && p.typ.NoType?
       case ObjectBegin => p.buf != [] && p.typ.NoType?
       case ArrayEnd => p.buf != [] && p.events != []
       case ObjectEnd => p.buf != [] && p.events != []
       case EmptyObjectEnd => p.events != []
       case StringEnd => p.buf != [] && p.typ.TString? && p.events != []
       case DoComma => p.buf != [] && !p.typ.TString? && p.events != []
       case DoColon => p.buf != [] && p.typ.NoType?
       case UnicodeRead => |p.buf| >= 6 && forall i :: |p.buf| - 4 <= i < |p.buf| ==> IsHex(p.buf[i])
       case _ => true
  }

  lemma {:induction false} AssertedParts(p: Parser, e: Entry)
    requires Asserted(p, e)
    ensures e.DoComma? || e.DoColon? || e.ArrayBegin? || e.ObjectBegin? || e.ArrayEnd? ==> p.buf != []
    ensures e.ObjectEnd? || e.StringEnd? ==> p.buf != []
    ensures e.DoComma? || e.ArrayEnd? || e.ObjectEnd? || e.EmptyObjectEnd? || e.StringEnd? ==> p.events != []
    ensures e.DoComma? ==> !p.typ.TString?
    ensures e.StringEnd? ==> p.typ.TString?
    ensures e.ArrayBegin? || e.ObjectBegin? || e.DoColon? ==> p.typ.NoType?
    ensures e.StringBegin? || e.TrueBegin? || e.FalseBegin? || e.NullBegin? ==> p.typ.NoType?
    ensures p.stack != []
  {}

  lemma {:induction false} ActRejects(p: Parser)
    ensures Act(p, Err) == None && Act(p, CommentBegin) == None
  {}

  lemma {:induction false} ClassFacts(c: char)
    requires ClassOf(c).Some?
    ensures var k := ClassOf(c).value;
            && (IsHexClass(k) ==> IsHex(c)) && (k.Point? ==> c == '.') && (IsWhite(c) <==> IsWhiteClass(k))
  {}

  /** None of the source's assertions can fail, and no null pointer is followed, in any run. */
  lemma {:induction false} AssertionsHold(p: Parser, c: char)
    requires Inv(p)
    ensures p.escaped ==> p.buf != []
    ensures ClassOf(c).Some? && AddChar(p, c, ClassOf(c).value).Some? ==>
              Asserted(AddChar(p, c, ClassOf(c).value).value, Table(p.state, ClassOf(c).value))
  {
    if ClassOf(c).Some? {
      var k := ClassOf(c).value;
      ActionSources(p.state, k);
      ClassFacts(c);
      hide Table;
      hide ClassOf;
      hide IsHex;
      hide Unescape;
      if p.escaped && Unescape(c).Some? { EscapesLead(p, c); }
    }
  }

  lemma {:induction false} EscapesLead(p: Parser, c: char)
    requires p.state.ES? && ClassOf(c).Some? && Unescape(c).Some?
    ensures Table(p.state, ClassOf(c).value).To?
  {
    EscapeRow(c);
  }

  lemma {:induction false} StepParts(p: Parser, c: char)
    ensures Step(p, c) ==
            if ClassOf(c).None? || JsonTable.AddChar(p, c, ClassOf(c).value).None? then None
            else Act(JsonTable.AddChar(p, c, ClassOf(c).value).value, Table(p.state, ClassOf(c).value))
    ensures Inv(p) && p.escaped ==> p.buf != []
    ensures ClassOf(c).Some? ==>
              var q := JsonTable.AddChar(p, c, ClassOf(c).value);
              q.Some? ==> q.value.high == p.high && q.value.state == p.state
    ensures Inv(p) && p.high != 0 ==> IsHighSurrogate(p.high)
  {
    hide ClassOf;
    hide Table;
    hide Act;
  }

  // ----- the order of the source's assignments -----

  lemma {:induction false} CommaEnd(p: Parser)
    ensures var f := Flush(PopChar(p));
            && Top(f) == Top(p)
            && (Top(p) == Some(InObject) ==>
                  var q := JsonTable.Pop(f, InObject);
                  && q.Some?
                  && OnComma(p) == if JsonTable.Push(q.value, InKey).None? then None
                                   else Some(JsonTable.Push(q.value, InKey).value.(typ := NoType, state := KE)))
            && (Top(p) == Some(InArray) ==> OnComma(p) == Some(f.(typ := NoType, state := VA)))
            && (Top(p) != Some(InObject) && Top(p) != Some(InArray) ==> OnComma(p) == None)
            && (Top(p).Some? ==> f.stack != [])
  {}

  lemma {:induction false} TopSome(p: Parser)
    requires p.stack != []
    ensures Top(p).Some?
  {}

  lemma {:induction false} StringEnds(p: Parser)
    ensures var q := PopChar(p);
            && Top(q) == Top(p) && (Top(p).Some? ==> q.stack != [])
            && (Top(p) == Some(InKey) ==>
                  OnStringEnd(p) == Some(Emit(q.(typ := NoType, state := CO), [Key(q.buf)]).(buf := [])))
            && (Top(p) == Some(InArray) || Top(p) == Some(InObject) ==>
                  OnStringEnd(p) == Some(Flush(q).(typ := NoType, state := OK)))
            && (Top(p) == None || Top(p) == Some(Done) ==> OnStringEnd(p) == None)
  {}

  lemma {:induction false} ContainerEnd(p: Parser, e: Event, m: Mode)
    ensures var q := JsonTable.Pop(Emit(Flush(PopChar(p)), [e]), m);
            OnEnd(p, e, m) == if q.None? then None else Some(q.value.(typ := NoType, state := OK))
  {}

  // ----- UTF-8 as the loop writes it -----

  /** 64 to the power of j, for the at most three trailing bytes. */
  function Power64(j: nat): (n: nat)
    requires j <= 3
    ensures n > 0
  {
    if j == 0 then 1 else if j == 1 then 64 else if j == 2 then 4096 else 262144
  }

  function LeadBits(trail: nat): nat
    requires trail <= 3
  {
    if trail == 0 then 0 else if trail == 1 then 0xC0 else if trail == 2 then 0xE0 else 0xF0
  }

  function TrailBytes(u: int): nat { if u < 0x80 then 0 else if u < 0x800 then 1 else if u < 0x10000 then 2 else 3 }

  /** The byte that the loop writes with j bytes to go. */
  function TrailByte(u: int, j: nat): char
    requires 0 <= u && 0 < j <= 3
  {
    Byte(0x80 + u / Power64(j - 1) % 64)
  }

  lemma {:induction false} LeadByte(u: int)
    requires 0 <= u < 0x110000
    ensures var trail := TrailBytes(u);
            0 <= u / Power64(trail) + LeadBits(trail) < 256
  {}

  lemma {:induction false} Utf8Bytes(u: int)
    requires 0 <= u < 0x110000
    ensures var trail := TrailBytes(u);
            && 0 <= u / Power64(trail) + LeadBits(trail) < 256
            && Utf8(u) == [Byte(u / Power64(trail) + LeadBits(trail))]
                          + (if trail == 3 then [TrailByte(u, 3)] else [])
                          + (if trail >= 2 then [TrailByte(u, 2)] else [])
                          + (if trail >= 1 then [TrailByte(u, 1)] else [])
  {
    LeadByte(u);
    hide Byte;
  }

  lemma {:induction false} Utf8Short(u: int)
    requires 0 <= u < 0x110000
    ensures |Utf8(u)| <= 4
  {}

  /** The parser without comments, with its depth limit of 15. */
  class JsonParser {
    var state: State
    var typ: Type
    var escaped: bool
    var high: int
    const stack: array<Mode>
    var top: int
    /** The characters in the parse buffer. The buffer holds a zero after them, too. */
    var buf: string
    var capacity: nat
    const context: JsonContext
    /** The calls of the callback so far. */
    ghost var events: seq<Event>

    ghost predicate Valid()
      reads this, stack, context, context.repr
    {
      && stack.Length == STACK_SIZE && -1 <= top <= DEPTH
      && |buf| + 1 <= capacity && PARSE_BUFFER_SIZE <= capacity
      && context.Valid()
      && Fold(NEW_CONTEXT, events) == Some(context.view)
      && (events != [] || context.view.keyUnder ==> context.view.current.Some?)
    }

    ghost function Abs(): (p: Parser)
      reads this, stack, context, context.repr
      requires Valid()
      ensures p.state == state && p.typ == typ && p.escaped == escaped && p.high == high && p.buf == buf
      ensures p.events == events
      ensures |p.stack| == top + 1
    {
      Parser(state, typ, escaped, high, stack[..top + 1], buf, events)
    }

    /** new_JSON_parser and JSON_parser_reset */
    constructor (cx: JsonContext)
      requires cx.Valid() && cx.view == NEW_CONTEXT
      ensures Valid() && Abs() == START && Inv(Abs()) && context == cx && fresh(stack)
      ensures capacity == 3500 && stack.Length == 128
    {
      state, typ, escaped, high := GO, NoType, false, 0;
      stack := new Mode[STACK_SIZE];
      top := -1;
      buf, capacity, events, context := [], PARSE_BUFFER_SIZE, [], cx;
      new;
      var _ := Push(Done);
    }

    method Push(m: Mode) returns (ok: bool)
      requires Valid()
      modifies this`top, stack
      ensures Valid() && ok == JsonTable.Push(old(Abs()), m).Some?
      ensures Abs() == if ok then JsonTable.Push(old(Abs()), m).value else old(Abs())
    {
      hide Fold;
      hide JsonContext.Valid;
      assert top <= DEPTH;
      if top == DEPTH {
        return false;
      }
      top := top + 1;
      stack[top] := m;
      return true;
    }

    method Pop(m: Mode) returns (ok: bool)
      requires Valid()
      modifies this`top
      ensures Valid() && ok == JsonTable.Pop(old(Abs()), m).Some?
      ensures Abs() == if ok then JsonTable.Pop(old(Abs()), m).value else old(Abs())
    {
      hide Fold;
      hide JsonContext.Valid;
      if top < 0 || stack[top] != m {
        return false;
      }
      top := top - 1;
      return true;
    }

    /** parse_buffer_pop_back_char */
    method PopBackChar()
      requires Valid() && buf != []
      modifies this`buf
      ensures Valid() && Abs() == PopChar(old(Abs()))
    {
      hide Fold;
      hide JsonContext.Valid;
      buf := buf[..|buf| - 1];
    }

    /** parse_buffer_clear */
    method ClearBuffer()
      requires Valid()
      modifies this`buf
      ensures Valid() && Abs() == old(Abs()).(buf := [])
    {
      hide Fold;
      hide JsonContext.Valid;
      buf := [];
    }

    /** A call of the callback. */
    method Report(e: Event)
      requires Valid() && (events != [] || e.BeginArray? || e.BeginObject?)
      modifies this`events, context, context.repr
      ensures Valid() && Abs() == Emit(old(Abs()), [e])
      ensures fresh(context.repr - old(context.repr))
    {
      hide *;
      ghost var cx := context.view;
      ReportCallable(e);
      context.Callback(e);
      FoldSnoc(events, cx, e);
      CallbackCurrent(cx, e);
      events := events + [e];
      ReportValid(e);
    }

    twostate lemma ReportValid(new e: Event)
      requires old(Valid()) && context.Valid()
      requires unchanged(this`state, this`typ, this`escaped, this`high, this`top, this`buf, this`capacity, stack)
      requires events == old(events) + [e] && Fold(NEW_CONTEXT, events) == Some(context.view)
      requires context.view.current.Some?
      ensures Valid() && Abs() == Emit(old(Abs()), [e])
    {}

    lemma ReportCallable(e: Event)
      requires Valid() && (events != [] || e.BeginArray? || e.BeginObject?)
      ensures context.Valid() && JsonBuild.Callable(context.view, e) && Fold(NEW_CONTEXT, events) == Some(context.view)
    {}

    /** parse_parse_buffer */
    method ParseParseBuffer()
      requires Valid() && (events != [] || typ.NoType?)
      modifies this`events, this`buf, context, context.repr
      ensures Valid() && Abs() == Flush(old(Abs())) && old(events) <= events
      ensures fresh(context.repr - old(context.repr))
    {
      hide Fold;
      hide JsonContext.Valid;
      hide Token;
      hide IntegerValue;
      match typ {
        case NoType =>
        case TInteger => Report(Integer(IntegerValue(Token(buf))));
        case TFloat => Report(Float(Token(buf)));
        case TNull => Report(Null);
        case TTrue => Report(True);
        case TFalse => Report(False);
        case TString => Report(Str(buf));
      }
      buf := [];
    }

    /** decode_unicode_char */
    method DecodeUnicodeChar() returns (ok: bool)
      requires Valid() && Asserted(Abs(), UnicodeRead) && (high != 0 ==> IsHighSurrogate(high))
      modifies this`buf, this`high
      ensures Valid() && ok == DecodeUnicode(old(Abs())).Some?
      ensures ok ==> Abs() == DecodeUnicode(old(Abs())).value
      ensures old(|buf|) >= 6 && IsHex4(old(buf[|buf| - 4..]))
      ensures ok ==> Replaced(old(buf), buf, old(high), high)
    {
      hide Fold;
      hide JsonContext.Valid;
      HexEnds();
      DecodedWell(Abs());
      hide Replaced;
      hide Utf8;
      hide HexValue;
      hide SurrogatePair;
      var n := |buf|;
      var uc := ReadHex(buf[n - 4..]);
      buf := buf[..n - 6];
      if high != 0 {
        if !IsLowSurrogate(uc) {
          return false;
        }
        uc := SurrogatePair(high, uc);
        high := 0;
      } else if IsHighSurrogate(uc) {
        high := uc;
        return true;
      } else if IsLowSurrogate(uc) {
        return false;
      }
      var bytes := WriteUtf8(uc);
      Utf8Short(uc);
      assert HasSpaceFor(|bytes|);
      buf := buf + bytes;
      return true;
    }

    /** The six characters of a unicode escape are replaced by the bytes of its code point: four whose bits are those of
        the two surrogates, and none for a high surrogate, which waits for the low one. */
    static predicate Replaced(before: string, after: string, high0: int, high1: int)
      requires |before| >= 6 && IsHex4(before[|before| - 4..])
    {
      var n, u := |before| - 6, HexValue(before[|before| - 4..]);
      && n <= |after| && after[..n] == before[..n]
      && if high0 != 0 then
           0xDC00 <= u < 0xE000 && |after| == n + 4 && high1 == 0 && after[n] as int / 8 == 30
           && IsTail(after[n + 1]) && IsTail(after[n + 2]) && IsTail(after[n + 3])
           && Bits(after[n..]) == 0x10000 + high0 % 1024 * 1024 + u % 1024
         else if 0xD800 <= u < 0xDC00 then |after| == n && high1 == u
         else !(0xDC00 <= u < 0xE000) && high1 == 0 && Decode(after[n..]) == Some(u)
    }

    lemma HexEnds()
      requires Valid() && Asserted(Abs(), UnicodeRead)
      ensures |buf| >= 6 && IsHex4(buf[|buf| - 4..])
    {}

    static lemma {:induction false} DecodedWell(p: Parser)
      requires |p.buf| >= 6 && IsHex4(p.buf[|p.buf| - 4..])
      ensures var q := DecodeUnicode(p); q.Some? ==> Replaced(p.buf, q.value.buf, p.high, q.value.high)
    {
      var n := |p.buf| - 6;
      var h := p.buf[n + 2..];
      var u := HexValue(h);
      HexRange(h);
      if DecodeUnicode(p).Some? {
        var after := DecodeUnicode(p).value.buf;
        if p.high != 0 {
          PairBits(p.high, u);
          assert after[n..] == Utf8(SurrogatePair(p.high, u));
        } else if !IsHighSurrogate(u) {
          Utf8Back(u);
          assert after[n..] == Utf8(u);
        }
      }
      hide Utf8;
      hide Bits;
      hide Decode;
      hide HexValue;
      hide SurrogatePair;
    }

    /** The value of four hexadecimal digits, most significant first. */
    static method ReadHex(h: string) returns (uc: int)
      requires IsHex4(h)
      ensures uc == HexValue(h) && 0 <= uc < 0x10000
    {
      uc := 0;
      var i := 0;
      while i < 4
        invariant 0 <= i <= 4
        invariant i == 0 ==> uc == 0
        invariant i == 1 ==> uc == 0x1000 * HexDigit(h[0])
        invariant i == 2 ==> uc == 0x1000 * HexDigit(h[0]) + 0x100 * HexDigit(h[1])
        invariant i == 3 ==> uc == 0x1000 * HexDigit(h[0]) + 0x100 * HexDigit(h[1]) + 0x10 * HexDigit(h[2])
        invariant i == 4 ==> uc == HexValue(h)
      {
        var x := h[i] as int;
        if h[i] >= 'a' {
          x := x - ('a' as int - 10);
        } else if h[i] >= 'A' {
          x := x - ('A' as int - 10);
        } else {
          x := x - '0' as int;
        }
        assert x < 16;
        uc := uc + x * (if i == 0 then 0x1000 else if i == 1 then 0x100 else if i == 2 then 0x10 else 1);
        i := i + 1;
      }
      HexRange(h);
    }

    static method WriteUtf8(uc: int) returns (bytes: string)
      requires 0 <= uc < 0x110000
      ensures bytes == Utf8(uc)
    {
      hide Utf8;
      hide Byte;
      var trail := if uc < 0x80 then 0 else if uc < 0x800 then 1 else if uc < 0x10000 then 2 else 3;
      Utf8Bytes(uc);
      bytes := [Byte(uc / Power64(trail) + LeadBits(trail))];
      var j := trail;
      while j > 0
        invariant 0 <= j <= trail == TrailBytes(uc)
        invariant bytes <= Utf8(uc) && |bytes| == trail - j + 1
      {
        bytes := bytes + [Byte(0x80 + uc / Power64(j - 1) % 64)];
        j := j - 1;
      }
    }

    /** parse_buffer_has_space_for: for so many characters and the zero after them */
    predicate HasSpaceFor(count: nat)
      reads this`buf, this`capacity
    {
      |buf| + count + 1 <= capacity
    }

    /** parse_buffer_reserve_for, with parse_buffer_grow */
    method ReserveFor(chars: nat)
      requires Valid()
      modifies this`capacity
      ensures Valid() && Abs() == old(Abs()) && HasSpaceFor(chars)
      ensures capacity == old(capacity) || capacity < 2 * (|buf| + chars + 1)
      ensures exists k :: capacity == old(capacity) * Words.Pow(2, k)
    {
      hide Fold;
      hide JsonContext.Valid;
      ghost var k := 0;
      while |buf| + chars + 1 > capacity
        invariant Valid() && Abs() == old(Abs())
        invariant capacity == old(capacity) * Words.Pow(2, k)
        invariant capacity == old(capacity) || capacity < 2 * (|buf| + chars + 1)
        decreases |buf| + chars + 1 - capacity
      {
        capacity := capacity * 2;
        Doubled(old(capacity), Words.Pow(2, k));
        k := k + 1;
      }
    }

    static lemma Doubled(a: nat, p: nat)
      ensures a * p * 2 == a * (2 * p)
    {}

    /** parse_buffer_push_back_char */
    method PushBackChar(c: char)
      requires Valid() && HasSpaceFor(1)
      modifies this`buf
      ensures Valid() && Abs() == old(Abs()).(buf := old(buf) + [c])
    {
      hide Fold;
      hide JsonContext.Valid;
      assert HasSpaceFor(1);
      buf := buf + [c];
    }

    /** add_char_to_parse_buffer */
    method AddChar(c: char, k: Class) returns (ok: bool)
      requires Valid() && (escaped ==> buf != [])
      modifies this`escaped, this`buf, this`capacity
      ensures Valid() && ok == JsonTable.AddChar(old(Abs()), c, k).Some?
      ensures ok ==> Abs() == JsonTable.AddChar(old(Abs()), c, k).value
    {
      hide Fold;
      hide JsonContext.Valid;
      ReserveFor(1);
      if escaped {
        ok := AddEscapedChar(c);
      } else {
        if typ != NoType || !IsWhiteClass(k) {
          PushBackChar(c);
        }
        ok := true;
      }
    }

    /** add_escaped_char_to_parse_buffer: the u of a unicode escape adds two characters in the space for one,
        after the backslash has been taken out. */
    method AddEscapedChar(c: char) returns (ok: bool)
      requires Valid() && buf != [] && HasSpaceFor(1)
      modifies this`escaped, this`buf
      ensures Valid() && ok == Unescape(c).Some?
      ensures ok ==> Abs() == old(Abs()).(escaped := false, buf := old(buf)[..|old(buf)| - 1] + Unescape(c).value)
    {
      hide Fold;
      hide JsonContext.Valid;
      escaped := false;
      PopBackChar();
      match c {
        case 'b' => PushBackChar('\U{0008}');
        case 'f' => PushBackChar('\U{000C}');
        case 'n' => PushBackChar('\n');
        case 'r' => PushBackChar('\r');
        case 't' => PushBackChar('\t');
        case '"' => PushBackChar('"');
        case '\\' => PushBackChar('\\');
        case '/' => PushBackChar('/');
        case 'u' =>
          PushBackChar('\\');
          PushBackChar('u');
        case _ => return false;
      }
      return true;
    }

    /** The mode that jc->stack[jc->top] holds. */
    method TopMode() returns (m: Mode)
      requires Valid() && Abs().stack != []
      ensures Top(Abs()) == Some(m)
    {
      m := stack[top];
    }

    method Enter(t: Type, s: State)
      requires Valid()
      modifies this`typ, this`state
      ensures Valid() && Abs() == old(Abs()).(typ := t, state := s)
    {
      hide Fold;
      hide JsonContext.Valid;
      typ, state := t, s;
    }

    // ----- the actions of JSON_parser_char -----

    method ReadUnicode() returns (ok: bool)
      requires Valid() && Asserted(Abs(), UnicodeRead) && (high != 0 ==> IsHighSurrogate(high))
      modifies this, stack, context, context.repr
      ensures Valid()
      ensures fresh(context.repr - old(context.repr))
      ensures ok == OnUnicode(old(Abs())).Some?
      ensures ok ==> Abs() == OnUnicode(old(Abs())).value
    {
      hide Fold;
      hide JsonContext.Valid;
      hide Pending;
      hide JsonParser.Valid;
      hide JsonParser.Abs;
      hide DecodeUnicode;
      ok := DecodeUnicodeChar();
      Enter(typ, if high != 0 then D1 else ST);
    }

    method ReadColon() returns (ok: bool)
      requires Valid() && buf != [] && typ == NoType
      modifies this, stack, context, context.repr
      ensures Valid()
      ensures fresh(context.repr - old(context.repr))
      ensures ok == OnColon(old(Abs())).Some?
      ensures ok ==> Abs() == OnColon(old(Abs())).value
    {
      hide Fold;
      hide JsonContext.Valid;
      hide Pending;
      hide JsonParser.Valid;
      hide JsonParser.Abs;
      PopBackChar();
      ok := Pop(InKey);
      if ok {
        ok := Push(InObject);
      }
      assert typ == NoType;
      Enter(typ, VA);
    }

    method ReadComma() returns (ok: bool)
      requires Valid() && buf != [] && typ != TString && events != [] && Abs().stack != []
      modifies this, stack, context, context.repr
      ensures Valid()
      ensures fresh(context.repr - old(context.repr))
      ensures ok == OnComma(old(Abs())).Some?
      ensures ok ==> Abs() == OnComma(old(Abs())).value
    {
      hide *;
      CommaEnd(Abs());
      TopSome(Abs());
      PopBackChar();
      ParseParseBuffer();
      assert typ != TString;
      var mode := TopMode();
      match mode {
        case InObject =>
          ok := Pop(InObject);
          if ok {
            ok := Push(InKey);
          }
          Enter(NoType, KE);
        case InArray =>
          Enter(NoType, VA);
          ok := true;
        case _ => ok := false;
      }
    }

    method EndString() returns (ok: bool)
      requires Valid() && buf != [] && typ == TString && events != [] && Abs().stack != []
      modifies this, stack, context, context.repr
      ensures Valid()
      ensures fresh(context.repr - old(context.repr))
      ensures ok == OnStringEnd(old(Abs())).Some?
      ensures ok ==> Abs() == OnStringEnd(old(Abs())).value
    {
      hide *;
      StringEnds(Abs());
      TopSome(Abs());
      PopBackChar();
      var mode := TopMode();
      match mode {
        case InKey =>
          assert typ == TString;
          Enter(NoType, CO);
          Report(Key(buf));
          ClearBuffer();
          ok := true;
        case Done => ok := false;
        case _ =>
          assert typ == TString;
          ParseParseBuffer();
          Enter(NoType, OK);
          ok := true;
      }
    }

    method BeginContainer(e: Event, m: Mode, s: State) returns (ok: bool)
      requires Valid() && buf != [] && typ == NoType && (e.BeginArray? || e.BeginObject?)
      modifies this, stack, context, context.repr
      ensures Valid()
      ensures fresh(context.repr - old(context.repr))
      ensures ok == OnBegin(old(Abs()), e, m, s).Some?
      ensures ok ==> Abs() == OnBegin(old(Abs()), e, m, s).value
    {
      hide Fold;
      hide JsonContext.Valid;
      hide Pending;
      hide JsonParser.Valid;
      hide JsonParser.Abs;
      PopBackChar();
      Report(e);
      ok := Push(m);
      assert typ == NoType;
      Enter(typ, s);
    }

    method EndContainer(e: Event, m: Mode) returns (ok: bool)
      requires Valid() && buf != [] && events != []
      modifies this, stack, context, context.repr
      ensures Valid()
      ensures fresh(context.repr - old(context.repr))
      ensures ok == OnEnd(old(Abs()), e, m).Some?
      ensures ok ==> Abs() == OnEnd(old(Abs()), e, m).value
    {
      hide *;
      ContainerEnd(Abs(), e, m);
      PopBackChar();
      ParseParseBuffer();
      Report(e);
      ok := Pop(m);
      Enter(NoType, OK);
    }

    method EndEmptyObject() returns (ok: bool)
      requires Valid() && events != []
      modifies this, stack, context, context.repr
      ensures Valid()
      ensures fresh(context.repr - old(context.repr))
      ensures ok == OnEmptyObjectEnd(old(Abs())).Some?
      ensures ok ==> Abs() == OnEmptyObjectEnd(old(Abs())).value
    {
      hide Fold;
      hide JsonContext.Valid;
      hide Pending;
      hide JsonParser.Valid;
      hide JsonParser.Abs;
      ClearBuffer();
      Report(EndObject);
      ok := Pop(InKey);
      Enter(typ, OK);
    }

    /** The switch of JSON_parser_char. */
    method Perform(e: Entry) returns (ok: bool)
      requires Valid() && Asserted(Abs(), e) && (high != 0 ==> IsHighSurrogate(high))
      modifies this, stack, context, context.repr
      ensures Valid()
      ensures fresh(context.repr - old(context.repr))
      ensures ok == Act(old(Abs()), e).Some?
      ensures ok ==> Abs() == Act(old(Abs()), e).value
    {
      hide *;
      AssertedParts(Abs(), e);
      ActActions(Abs());
      ActStates(Abs(), e);
      ActRejects(Abs());
      ok := true;
      match e {
        case Err => ok := false;
        case CommentBegin => ok := false;
        case To(s) => Enter(typ, s);
        case FalseBegin =>
          assert typ == NoType;
          Enter(TFalse, F1);
        case TrueBegin =>
          assert typ == NoType;
          Enter(TTrue, T1);
        case NullBegin =>
          assert typ == NoType;
          Enter(TNull, N1);
        case ByExponent => Enter(TFloat, E1);
        case ByFraction => Enter(TFloat, FX);
        case StringBegin =>
          ClearBuffer();
          assert typ == NoType;
          Enter(TString, ST);
        case ByMinus => Enter(TInteger, MI);
        case ByZero => Enter(TInteger, ZE);
        case ByDigit => Enter(TInteger, IT);
        case Escape =>
          SetEscaped();
          Enter(typ, ES);
        case UnicodeRead => ok := ReadUnicode();
        case DoColon => ok := ReadColon();
        case DoComma => ok := ReadComma();
        case StringEnd => ok := EndString();
        case ArrayBegin => ok := BeginContainer(BeginArray, InArray, AR);
        case ObjectBegin => ok := BeginContainer(BeginObject, InKey, OB);
        case ArrayEnd => ok := EndContainer(EndArray, InArray);
        case ObjectEnd => ok := EndContainer(EndObject, InObject);
        case EmptyObjectEnd => ok := EndEmptyObject();
      }
    }

    method SetEscaped()
      requires Valid()
      modifies this`escaped
      ensures Valid() && Abs() == old(Abs()).(escaped := true)
    {
      hide Fold;
      hide JsonContext.Valid;
      escaped := true;
    }

    /** JSON_parser_char */
    method Char(c: char) returns (ok: bool)
      requires Valid() && Inv(Abs())
      modifies this, stack, context, context.repr
      ensures Valid()
      ensures fresh(context.repr - old(context.repr))
      ensures ok == Step(old(Abs()), c).Some?
      ensures ok ==> Abs() == Step(old(Abs()), c).value && Inv(Abs())
    {
      hide *;
      AssertionsHold(Abs(), c);
      StepParts(Abs(), c);
      ghost var p := Abs();
      if ClassOf(c).None? {
        return false;
      }
      var k := ClassOf(c).value;
      ok := AddChar(c, k);
      if !ok {
        return;
      }
      ok := Perform(Table(state, k));
      if ok {
        InvStep(p, c);
      }
    }

    lemma ContextFolds()
      requires Valid()
      ensures context.Valid() && Fold(NEW_CONTEXT, Abs().events) == Some(context.view)
    {}

    /** JSON_parser_done */
    method Finish() returns (ok: bool)
      requires Valid()
      modifies this`top
      ensures ok == Finished(Some(old(Abs())))
    {
      if state == OK || state == GO {
        ok := Pop(Done);
      } else {
        ok := false;
      }
    }
  }

  // ----- whole texts -----

  /** What init_json_parser returns for the tree of a text. */
  ghost predicate HoldsTree(cx: JsonContext, root: JsonItem?, t: Option<Tree>)
    reads cx, cx.repr
  {
    && cx.Valid()
    && if t.None? then root == null
       else
         && Rep(cx.view.nodes, 0, None, t.value, 1)
         && cx.view.nodes[0].father.None? && cx.view.nodes[0].next.None?
         && root == cx.items[0]
  }

  lemma {:induction false} BuiltTree(d: Doc, es: seq<Event>, cx: Context)
    requires ValidDoc(d) && es == DocEvents(DocMeaning(d)) && Fold(NEW_CONTEXT, es) == Some(cx)
    ensures DocMeaning(d).None? ==> cx == NEW_CONTEXT
    ensures DocMeaning(d).Some? ==>
              cx.head == Some(0) && Rep(cx.nodes, 0, None, DocMeaning(d).value, 1)
              && cx.nodes != [] && cx.nodes[0].father.None? && cx.nodes[0].next.None?
  {
    hide Fold;
    hide Rep;
    if d.Blank? {
      FoldNothing(NEW_CONTEXT);
    } else {
      FoldRoot(Meaning(d.v));
      RepBound(cx.nodes, 0, None, Meaning(d.v), 1);
    }
  }

  lemma {:induction false} RejectedText(text: string)
    requires !Finished(Run(START, text))
    ensures forall d :: ValidDoc(d) ==> DocText(d) != text
  {
    hide *;
    ParsesExactly(text);
  }

  /** What the context of an accepted text holds. */
  ghost predicate TreeOf(cx: Context, t: Option<Tree>) {
    if t.None? then cx.head.None?
    else cx.head == Some(0) && Rep(cx.nodes, 0, None, t.value, 1) && cx.nodes[0].father.None? && cx.nodes[0].next.None?
  }

  lemma {:induction false} AcceptedText(text: string, cx: Context)
    requires Finished(Run(START, text)) && Fold(NEW_CONTEXT, Run(START, text).value.events) == Some(cx)
    ensures cx.head.Some? <==> exists d :: ValidDoc(d) && d.Doc? && DocText(d) == text
    ensures forall d :: ValidDoc(d) && DocText(d) == text ==> TreeOf(cx, DocMeaning(d))
  {
    hide Run;
    hide Fold;
    hide Rep;
    hide ValidDoc;
    hide DocText;
    ParsesExactly(text);
    forall d | ValidDoc(d) && DocText(d) == text
      ensures TreeOf(cx, DocMeaning(d)) && (d.Doc? <==> cx.head.Some?)
    {
      BuiltTree(d, Run(START, text).value.events, cx);
    }
    var d0 :| ValidDoc(d0) && DocText(d0) == text;
  }

  lemma {:induction false} HeadNull(cx: JsonContext)
    requires cx.Valid()
    ensures cx.head == null <==> cx.view.head.None?
  {}

  lemma {:induction false} NothingFinished()
    ensures !Finished(None)
  {}

  lemma {:induction false} HeadHolds(cx: JsonContext, t: Option<Tree>)
    requires cx.Valid() && TreeOf(cx.view, t)
    ensures HoldsTree(cx, cx.head, t)
  {
    hide Rep;
  }

  /** init_json_parser: the root of the text's parse tree, or null for a text that is blank or not in the language. */
  method InitJsonParser(text: string) returns (root: JsonItem?, ghost cx: JsonContext)
    requires '\0' !in text
    ensures fresh(cx)
    ensures root != null <==> exists d :: ValidDoc(d) && d.Doc? && DocText(d) == text
    ensures forall d :: ValidDoc(d) && DocText(d) == text ==> HoldsTree(cx, root, DocMeaning(d))
  {
    hide *;
    var jcx := new JsonContext();
    cx := jcx;
    var jc := new JsonParser(jcx);
    var i := 0;
    assert text[0..] == text;
    while i < |text|
      invariant 0 <= i <= |text|
      invariant jc.Valid() && Inv(jc.Abs()) && jc.context == jcx
      invariant fresh(jc) && fresh(jc.stack) && fresh(jcx) && fresh(jcx.repr)
      invariant Run(START, text) == Run(jc.Abs(), text[i..])
    {
      RunFirst(jc.Abs(), text[i..]);
      assert text[i..][1..] == text[i + 1..];
      var ok := jc.Char(text[i]);
      if !ok {
        NothingFinished();
        RejectedText(text);
        return null, cx;
      }
      i := i + 1;
    }
    RunNothing(jc.Abs());
    assert text[i..] == [];
    jc.ContextFolds();
    ghost var view := jcx.view;
    var ok := jc.Finish();
    if !ok {
      RejectedText(text);
      return null, cx;
    }
    AcceptedText(text, view);
    root := jcx.head;
    forall d | ValidDoc(d) && DocText(d) == text
      ensures HoldsTree(cx, root, DocMeaning(d))
    {
      HeadHolds(jcx, DocMeaning(d));
    }
    HeadNull(jcx);
  }
}
