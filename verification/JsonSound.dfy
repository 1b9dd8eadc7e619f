/** Every accepted text is a text of the grammar. */
module JsonSound {
  import opened Options
  import opened JsonTable
  import opened JsonGrammar
  import opened JsonSteps
  import opened JsonAccept

  /** The parser accepts the rest of the text. */
  ghost predicate Live(p: Parser, text: string) { Finished(Run(p, text)) }

  /** A parser that may not stop takes another character. */
  lemma {:induction false} LiveStep(p: Parser, text: string)
    requires Live(p, text)
    requires text == [] ==> !(p.state.OK? || p.state.GO?) || Top(p) != Some(Done)
    ensures text != [] && Step(p, text[0]).Some?
    ensures Run(p, text) == Run(Step(p, text[0]).value, text[1..]) && Live(Step(p, text[0]).value, text[1..])
    ensures text == [text[0]] + text[1..]
  {
    hide Step;
    if text == [] {
      RunNothing(p);
      assert false;
    }
    RunFirst(p, text);
  }

  // ----- white space -----

  lemma {:induction false} TakeWhite(s: State, stack: seq<Mode>, es: seq<Event>, text: string)
    returns (ws: string, rest: string)
    requires Between(s) && stack != [] && |stack| - 1 <= DEPTH
    ensures Ws(ws) && text == ws + rest && Run(At(s, stack, es), text) == Run(At(s, stack, es), rest)
    ensures rest == [] || !IsWhite(rest[0])
    decreases text
  {
    hide Step;
    hide Run;
    if text == [] || !IsWhite(text[0]) {
      return [], text;
    }
    assert BetweenEntry(s, text[0]) == To(s);
    BetweenStep(s, stack, es, text[0]);
    RunFirst(At(s, stack, es), text);
    var ws1, rest1 := TakeWhite(s, stack, es, text[1..]);
    ws, rest := [text[0]] + ws1, rest1;
    assert text == [text[0]] + text[1..];
  }

  lemma {:induction false} TakeWhiteAfter(q: Parser, stack: seq<Mode>, es: seq<Event>, text: string)
    returns (ws: string, r: Parser, rest: string)
    requires Ready(q, stack, es)
    ensures Ws(ws) && text == ws + rest && Ready(r, stack, es) && Run(q, text) == Run(r, rest)
    ensures rest == [] || !IsWhite(rest[0])
    ensures q.typ.NoType? ==> r == q
    ensures ws == [] ==> r == q
    ensures ws != [] ==> r.state.OK?
    decreases text
  {
    hide Step;
    hide Run;
    if text == [] || !IsWhite(text[0]) {
      return [], q, text;
    }
    WhiteStep(q, stack, es, text[0]);
    RunFirst(q, text);
    var ws1, r1, rest1 := TakeWhiteAfter(Step(q, text[0]).value, stack, es, text[1..]);
    ws, r, rest := [text[0]] + ws1, r1, rest1;
    assert text == [text[0]] + text[1..];
  }

  // ----- numbers -----

  /** A parser that has read the number n and may read more of it. */
  ghost predicate InNumber(p: Parser, n: Number, stack: seq<Mode>, es: seq<Event>) {
    ValidNumber(n) && p == Reading(NumberEnd(n), NumberType(n), stack, NumberText(n), es)
  }

  /** Another digit. */
  function Grow(n: Number, c: char): Number {
    if n.exp.Some? then n.(exp := Some(n.exp.value.(digits := n.exp.value.digits + [c])))
    else if n.frac.Some? then n.(frac := Some(n.frac.value + [c]))
    else n.(whole := n.whole + [c])
  }

  lemma {:induction false} GrowNumber(p: Parser, n: Number, stack: seq<Mode>, es: seq<Event>, c: char)
    requires InNumber(p, n, stack, es) && IsDigit(c) && !p.state.ZE?
    ensures Step(p, c).Some? && InNumber(Step(p, c).value, Grow(n, c), stack, es)
    ensures NumberText(Grow(n, c)) == NumberText(n) + [c]
  {
    hide Step;
    NumberStep(p, c);
    var m := Grow(n, c);
    if n.exp.Some? {
      assert NumberText(m) == NumberText(n) + [c];
    } else if n.frac.Some? {
      assert NumberText(m) == NumberText(n) + [c];
    } else {
      assert NumberText(m) == NumberText(n) + [c];
    }
  }

  lemma {:induction false} PointNumber(p: Parser, n: Number, stack: seq<Mode>, es: seq<Event>)
    requires InNumber(p, n, stack, es) && (p.state.ZE? || p.state.IT?)
    ensures n.frac.None? && n.exp.None?
    ensures Step(p, '.').Some? && InNumber(Step(p, '.').value, n.(frac := Some([])), stack, es)
    ensures NumberText(n.(frac := Some([]))) == NumberText(n) + ['.']
  {
    hide Step;
    NumberStep(p, '.');
    assert NumberText(n.(frac := Some([]))) == NumberText(n) + ['.'];
  }

  /** The parser is inside a container. */
  ghost predicate Inside(stack: seq<Mode>) {
    stack != [] && |stack| - 1 <= DEPTH && !stack[|stack| - 1].Done?
  }

  lemma {:induction false} AddExponent(n: Number, x: Exponent, stack: seq<Mode>, es: seq<Event>)
    requires ValidNumber(n) && n.exp.None? && (n.whole[0] != '0' || n.frac.Some?) && ValidExponent(x)
    ensures var m := n.(exp := Some(x));
            NumberText(m) == NumberText(n) + ExponentText(x)
            && InNumber(Reading(E3, TFloat, stack, NumberText(m), es), m, stack, es)
  {}

  lemma {:induction false} ExponentStart(p: Parser, n: Number, stack: seq<Mode>, es: seq<Event>)
    requires InNumber(p, n, stack, es) && (p.state.IT? || p.state.FX? || p.state.FR?)
    ensures ValidNumber(n) && n.exp.None? && (n.whole[0] != '0' || n.frac.Some?) && p.stack == stack
    ensures p.buf == NumberText(n)
    ensures !p.escaped && p.events == es && p.high == 0 && (p.typ.TInteger? || p.typ.TFloat?) && NumberState(p.state)
    ensures p.state.IT? || p.typ.TFloat?
  {}

  /** The sign and the first digit of an exponent. */
  lemma {:induction false} TakeSign(p: Parser, text: string) returns (sign: string, d: char, rest: string)
    requires p.state.E1? && !p.escaped && p.typ.TFloat? && Live(p, text)
    ensures (sign == "" || sign == "+" || sign == "-") && IsDigit(d) && text == sign + [d] + rest
    ensures var q := p.(buf := p.buf + (sign + [d]), state := E3);
            Run(p, text) == Run(q, rest) && Live(q, rest)
  {
    hide Step;
    hide Run;
    LiveStep(p, text);
    NumberStep(p, text[0]);
    if IsDigit(text[0]) {
      sign, d, rest := [], text[0], text[1..];
    } else {
      var p1 := p.(buf := p.buf + [text[0]], state := E2);
      LiveStep(p1, text[1..]);
      NumberStep(p1, text[1]);
      sign, d, rest := [text[0]], text[1], text[2..];
      assert p1.buf + [d] == p.buf + (sign + [d]);
    }
  }

  lemma {:induction false} ExponentMark(p: Parser, c: char)
    requires NumberState(p.state) && !p.escaped && (p.typ.TInteger? || p.typ.TFloat?) && (p.state.IT? || p.typ.TFloat?)
    requires (p.state.IT? || p.state.FX? || p.state.FR?) && (c == 'e' || c == 'E')
    ensures Step(p, c) == Some(p.(buf := p.buf + [c], state := E1, typ := TFloat))
  {
    hide Step;
    NumberStep(p, c);
  }

  /** An exponent up to the first of its digits. */
  lemma {:induction false} TakeExponentText(p: Parser, text: string) returns (x: Exponent, rest: string)
    requires NumberState(p.state) && !p.escaped && (p.typ.TInteger? || p.typ.TFloat?) && (p.state.IT? || p.typ.TFloat?)
    requires p.state.IT? || p.state.FX? || p.state.FR?
    requires Live(p, text) && text != [] && (text[0] == 'e' || text[0] == 'E')
    ensures ValidExponent(x) && text == ExponentText(x) + rest && |rest| < |text|
    ensures var q := p.(buf := p.buf + ExponentText(x), state := E3, typ := TFloat);
            Run(p, text) == Run(q, rest) && Live(q, rest)
  {
    hide Step;
    hide Run;
    hide Live;
    LiveStep(p, text);
    ExponentMark(p, text[0]);
    var p1 := p.(buf := p.buf + [text[0]], state := E1, typ := TFloat);
    var sign, d;
    sign, d, rest := TakeSign(p1, text[1..]);
    x := Exponent(text[0], sign, [d]);
    assert p1.buf + (sign + [d]) == p.buf + ExponentText(x);
    assert [text[0]] + (sign + [d] + rest) == ExponentText(x) + rest;
  }

  lemma {:induction false} TakeExponent(p: Parser, n: Number, stack: seq<Mode>, es: seq<Event>, text: string)
    returns (m: Number, q: Parser, rest: string)
    requires InNumber(p, n, stack, es) && (p.state.IT? || p.state.FX? || p.state.FR?)
    requires Live(p, text) && text != [] && (text[0] == 'e' || text[0] == 'E')
    ensures InNumber(q, m, stack, es) && q.state.E3? && Run(p, text) == Run(q, rest) && Live(q, rest)
    ensures NumberText(m) + rest == NumberText(n) + text && |rest| < |text|
  {
    hide Step;
    hide Run;
    hide NumberText;
    hide Live;
    hide InNumber;
    hide ValidNumber;
    hide ValidExponent;
    hide ExponentText;
    ExponentStart(p, n, stack, es);
    var x;
    x, rest := TakeExponentText(p, text);
    m := n.(exp := Some(x));
    q := p.(buf := p.buf + ExponentText(x), state := E3, typ := TFloat);
    AddExponent(n, x, stack, es);
    assert NumberText(n) + ExponentText(x) + rest == NumberText(n) + text;
  }

  lemma {:induction false} TakeNumber(p: Parser, n: Number, stack: seq<Mode>, es: seq<Event>, text: string)
    returns (m: Number, q: Parser, rest: string)
    requires InNumber(p, n, stack, es) && Live(p, text) && Inside(stack)
    ensures InNumber(q, m, stack, es) && Run(p, text) == Run(q, rest) && Live(q, rest)
    ensures NumberText(m) + rest == NumberText(n) + text && |rest| <= |text|
    ensures rest != [] && Delimiter(rest[0])
    decreases |text|
  {
    hide Step;
    hide Run;
    hide NumberText;
    LiveStep(p, text);
    var c := text[0];
    NumberStep(p, c);
    if NumberNext(p.state, c).None? {
      return n, p, text;
    }
    if c == '.' {
      PointNumber(p, n, stack, es);
      m, q, rest := TakeNumber(Step(p, c).value, n.(frac := Some([])), stack, es, text[1..]);
      assert NumberText(n) + ['.'] + text[1..] == NumberText(n) + text;
    } else if IsDigit(c) {
      GrowNumber(p, n, stack, es, c);
      m, q, rest := TakeNumber(Step(p, c).value, Grow(n, c), stack, es, text[1..]);
      assert NumberText(n) + [c] + text[1..] == NumberText(n) + text;
    } else {
      var m1, q1, rest1 := TakeExponent(p, n, stack, es, text);
      m, q, rest := TakeNumber(q1, m1, stack, es, rest1);
    }
  }

  /** The sign and the first digit of a number. */
  lemma {:induction false} TakeFirstDigit(s: State, stack: seq<Mode>, es: seq<Event>, text: string)
    returns (n: Number, q: Parser, rest: string)
    requires Begins(s, stack) && !s.GO? && Live(At(s, stack, es), text) && text != []
    requires (text[0] == '-' || IsDigit(text[0]))
    ensures InNumber(q, n, stack, es) && text == NumberText(n) + rest
    ensures Run(At(s, stack, es), text) == Run(q, rest) && Live(q, rest)
  {
    hide Step;
    hide Run;
    hide Live;
    var p := At(s, stack, es);
    BetweenStep(s, stack, es, text[0]);
    LiveStep(p, text);
    q, rest := Step(p, text[0]).value, text[1..];
    if text[0] == '-' {
      LiveStep(q, rest);
      NumberStep(q, rest[0]);
      n := Number(true, [rest[0]], None, None);
      q, rest := Step(q, rest[0]).value, rest[1..];
      assert NumberText(n) == ['-', text[1]];
    } else {
      n := Number(false, [text[0]], None, None);
      assert NumberText(n) == [text[0]];
    }
  }

  /** A number from its first character on. */
  lemma {:induction false} TakeNumberValue(s: State, stack: seq<Mode>, es: seq<Event>, text: string)
    returns (v: Value, q: Parser, rest: string)
    requires Begins(s, stack) && !s.GO? && Live(At(s, stack, es), text) && text != []
    requires (text[0] == '-' || IsDigit(text[0]))
    ensures ValidValue(v) && v.VNum? && text == Text(v) + rest && |rest| < |text|
    ensures Ready(q, stack, es + EventsOf(Meaning(v))) && Run(At(s, stack, es), text) == Run(q, rest) && Live(q, rest)
    ensures rest != [] && Delimiter(rest[0])
  {
    hide Step;
    hide Run;
    hide Live;
    var n, p1, rest1 := TakeFirstDigit(s, stack, es, text);
    var m;
    m, q, rest := TakeNumber(p1, n, stack, es, rest1);
    v := VNum(m);
    NumberReady(stack, es, m);
    assert |NumberText(m)| > 0;
  }

  // ----- literals -----

  lemma {:induction false} TakeLiteralTail(p: Parser, text: string) returns (rest: string)
    requires LiteralNext(p.state).Some? && !p.escaped && !p.typ.NoType? && Live(p, text)
    ensures text == LiteralTail(p.state) + rest
    ensures Run(p, text) == Run(p.(state := OK, buf := p.buf + LiteralTail(p.state)), rest)
    decreases LiteralRank(p.state)
  {
    hide *;
    LiteralUnfold(p.state);
    var (c, s') := LiteralNext(p.state).value;
    var q := p.(state := s', buf := p.buf + [c]);
    LiveStep(p, text);
    LiteralStep(p, text[0]);
    if s'.OK? {
      rest := text[1..];
    } else {
      rest := TakeLiteralTail(q, text[1..]);
    }
    assert q.buf + LiteralTail(s') == p.buf + LiteralTail(p.state);
    assert [c] + LiteralTail(s') + rest == [c] + (LiteralTail(s') + rest);
  }

  lemma {:induction false} TakeLiteralStart(s: State, stack: seq<Mode>, es: seq<Event>, text: string, v: Value)
    requires Begins(s, stack) && !s.GO? && Live(At(s, stack, es), text) && text != []
    requires (v.VTrue? || v.VFalse? || v.VNull?) && text[0] == Text(v)[0]
    ensures var p := Reading(LiteralStart(v), LiteralType(v), stack, [text[0]], es);
            Run(At(s, stack, es), text) == Run(p, text[1..]) && Live(p, text[1..])
  {
    hide Step;
    hide Run;
    hide Text;
    hide LiteralTail;
    hide LiteralNext;
    hide ValueEntry;
    hide Live;
    LiteralText(v);
    BetweenStep(s, stack, es, text[0]);
    LiveStep(At(s, stack, es), text);
  }

  lemma {:induction false} TakeLiteral(s: State, stack: seq<Mode>, es: seq<Event>, text: string, v: Value)
    returns (q: Parser, rest: string)
    requires Begins(s, stack) && !s.GO? && Live(At(s, stack, es), text) && text != []
    requires (v.VTrue? || v.VFalse? || v.VNull?) && text[0] == Text(v)[0]
    ensures ValidValue(v) && !IsContainer(v) && text == Text(v) + rest && |rest| < |text|
    ensures Ready(q, stack, es + EventsOf(Meaning(v))) && Run(At(s, stack, es), text) == Run(q, rest) && Live(q, rest)
    ensures q.state.OK?
  {
    hide *;
    LiteralText(v);
    TakeLiteralStart(s, stack, es, text, v);
    var p := Reading(LiteralStart(v), LiteralType(v), stack, [text[0]], es);
    LiteralFields(v, stack, [text[0]], es);
    rest := TakeLiteralTail(p, text[1..]);
    q := p.(state := OK, buf := p.buf + LiteralTail(p.state));
    LiteralReady(v, stack, es, q.buf);
    LiveRest(p, text[1..], q, rest);
    assert text == Text(v) + rest by {
      assert text == [text[0]] + text[1..];
      assert [text[0]] + (LiteralTail(p.state) + rest) == ([text[0]] + LiteralTail(p.state)) + rest;
    }
  }

  lemma {:induction false} LiteralFields(v: Value, stack: seq<Mode>, buf: string, es: seq<Event>)
    ensures var p := Reading(LiteralStart(v), LiteralType(v), stack, buf, es);
            p.state == LiteralStart(v) && p.buf == buf && !p.escaped && !p.typ.NoType?
            && forall b :: p.(state := OK, buf := b) == Reading(OK, LiteralType(v), stack, b, es)
  {}

  lemma {:induction false} LiteralNamed(c: char) returns (v: Value)
    requires c == 't' || c == 'f' || c == 'n'
    ensures (v.VTrue? || v.VFalse? || v.VNull?) && Text(v)[0] == c
    ensures Depth(v) == 0
  {
    v := if c == 't' then VTrue else if c == 'f' then VFalse else VNull;
  }

  // ----- strings -----

  /** Four hexadecimal digits, and the decoding they lead to. */
  lemma {:induction false} TakeHex(p: Parser, text: string) returns (h: string, rest: string)
    requires p.state.U1? && !p.escaped && p.typ.TString? && Live(p, text)
    ensures IsHex4(h) && text == h + rest
    ensures var q := OnUnicode(p.(buf := p.buf + h, state := U4));
            q.Some? && Run(p, text) == Run(q.value, rest) && Live(q.value, rest)
  {
    hide Step;
    hide Run;
    hide Live;
    hide OnUnicode;
    hide IsHex;
    LiveStep(p, text);
    HexStep(p, text[0]);
    var p1 := p.(buf := p.buf + [text[0]], state := U2);
    LiveStep(p1, text[1..]);
    HexStep(p1, text[1]);
    var p2 := p.(buf := p1.buf + [text[1]], state := U3);
    LiveStep(p2, text[2..]);
    HexStep(p2, text[2]);
    var p3 := p.(buf := p2.buf + [text[2]], state := U4);
    LiveStep(p3, text[3..]);
    HexStep(p3, text[3]);
    h, rest := text[..4], text[4..];
    assert p3.buf + [text[3]] == p.buf + h;
    assert text[3..][1..] == rest;
  }

  /** A backslash and the letter after it. */
  lemma {:induction false} TakeEscape(p: Parser, text: string) returns (c: char, q: Parser)
    requires p.state.ST? && !p.escaped && p.typ.TString? && Live(p, text) && text != [] && text[0] == '\\'
    ensures |text| >= 2 && c == text[1] && Unescape(c).Some?
    ensures q == p.(buf := p.buf + Unescape(c).value, state := if c == 'u' then U1 else ST)
    ensures Run(p, text) == Run(q, text[2..]) && Live(q, text[2..])
  {
    hide Step;
    hide Run;
    hide Live;
    hide Unescape;
    LiveStep(p, text);
    StringStep(p, '\\');
    var p1 := p.(buf := p.buf + ['\\'], escaped := true, state := ES);
    LiveStep(p1, text[1..]);
    c := text[1];
    EscapeStep(p1, c);
    q := Step(p1, c).value;
    assert p1.buf[..|p1.buf| - 1] == p.buf;
    assert text[1..][1..] == text[2..];
  }

  /** One character of a string. */
  lemma {:induction false} TakeChar(p: Parser, text: string) returns (x: StrChar, rest: string)
    requires p.state.ST? && !p.escaped && p.typ.TString? && p.high == 0 && Live(p, text) && text != [] && text[0] != '"'
    ensures ValidChar(x) && text == CharText(x) + rest && |rest| < |text|
    ensures var q := p.(buf := p.buf + CharValue(x)); Run(p, text) == Run(q, rest) && Live(q, rest)
  {
    hide Step;
    hide Run;
    hide Live;
    hide OnUnicode;
    hide Utf8;
    hide HexValue;
    hide SurrogatePair;
    hide IsHex;
    if text[0] != '\\' {
      LiveStep(p, text);
      StringStep(p, text[0]);
      return Plain(text[0]), text[1..];
    }
    var c, q := TakeEscape(p, text);
    if c != 'u' {
      x, rest := Esc(c), text[2..];
      assert text == ['\\', c] + rest;
      return;
    }
    var h, rest1 := TakeHex(q, text[2..]);
    assert q.buf == p.buf + "\\u" && text == "\\u" + h + rest1;
    DecodeHex(q.(buf := q.buf + h, state := U4), p.buf, h);
    if !IsHighSurrogate(HexValue(h)) {
      return Uni(h), rest1;
    }
    x, rest := TakePair(p, h, rest1);
    assert text == "\\u" + x.hi + "\\u" + x.lo + rest;
  }

  /** The low surrogate that must follow a high one. */
  lemma {:induction false} TakePair(p: Parser, h: string, text: string) returns (x: StrChar, rest: string)
    requires p.state.ST? && !p.escaped && p.typ.TString? && p.high == 0 && IsHex4(h) && IsHighSurrogate(HexValue(h))
    requires Live(p.(high := HexValue(h), state := D1), text)
    ensures x.Pair? && x.hi == h && ValidChar(x) && text == "\\u" + x.lo + rest
    ensures var q := p.(buf := p.buf + CharValue(x));
            Run(p.(high := HexValue(h), state := D1), text) == Run(q, rest) && Live(q, rest)
  {
    hide Step;
    hide Run;
    hide Live;
    hide OnUnicode;
    hide Utf8;
    hide HexValue;
    hide SurrogatePair;
    hide IsHex;
    var p0 := p.(high := HexValue(h), state := D1);
    LiveStep(p0, text);
    SecondStep(p0, text[0]);
    var p1 := p0.(buf := p.buf + ['\\'], state := D2);
    LiveStep(p1, text[1..]);
    SecondStep(p1, text[1]);
    var p2 := p0.(buf := p1.buf + ['u'], state := U1);
    assert text[1..][1..] == text[2..];
    var lo;
    lo, rest := TakeHex(p2, text[2..]);
    assert p2.buf + lo == p.buf + "\\u" + lo;
    DecodeHex(p2.(buf := p2.buf + lo, state := U4), p.buf, lo);
    x := Pair(h, lo);
    assert text == "\\u" + lo + rest;
  }

  lemma {:induction false} SnocChars(cs: seq<StrChar>, x: StrChar)
    requires ValidChars(cs) && ValidChar(x)
    ensures ValidChars(cs + [x]) && CharsText(cs + [x]) == CharsText(cs) + CharText(x)
    ensures CharsValue(cs + [x]) == CharsValue(cs) + CharValue(x)
  {
    hide CharText;
    hide CharValue;
    hide ValidChar;
    assert (cs + [x])[..|cs|] == cs;
  }

  /** The characters of a string up to its closing quote. */
  lemma {:induction false} TakeChars(cs: seq<StrChar>, stack: seq<Mode>, es: seq<Event>, text: string)
    returns (ds: seq<StrChar>, rest: string)
    requires ValidChars(cs) && Live(Reading(ST, TString, stack, CharsValue(cs), es), text)
    ensures ValidChars(ds) && CharsText(cs) + text == CharsText(ds) + "\"" + rest && |rest| < |text|
    ensures var q := Step(Reading(ST, TString, stack, CharsValue(ds), es), '"');
            q.Some? && Run(Reading(ST, TString, stack, CharsValue(cs), es), text) == Run(q.value, rest)
            && Live(q.value, rest)
    decreases |text|
  {
    hide Step;
    hide Run;
    hide Live;
    hide CharsText;
    hide CharsValue;
    hide CharText;
    hide CharValue;
    hide ValidChars;
    hide ValidChar;
    var p := Reading(ST, TString, stack, CharsValue(cs), es);
    LiveStep(p, text);
    if text[0] == '"' {
      ds, rest := cs, text[1..];
      assert CharsText(cs) + text == CharsText(ds) + "\"" + rest;
    } else {
      var x, rest1 := TakeChar(p, text);
      SnocChars(cs, x);
      ds, rest := TakeChars(cs + [x], stack, es, rest1);
      assert CharsText(cs) + text == CharsText(cs) + CharText(x) + rest1;
    }
  }

  /** A whole string, from its opening quote on. */
  lemma {:induction false} TakeQuoted(s: State, stack: seq<Mode>, es: seq<Event>, text: string)
    returns (cs: seq<StrChar>, rest: string)
    requires Between(s) && BetweenEntry(s, '"') == StringBegin && stack != [] && |stack| - 1 <= DEPTH
    requires Live(At(s, stack, es), text) && text != [] && text[0] == '"'
    ensures ValidChars(cs) && text == Quoted(cs) + rest && |rest| < |text|
    ensures var q := Step(Reading(ST, TString, stack, CharsValue(cs), es), '"');
            q.Some? && Run(At(s, stack, es), text) == Run(q.value, rest) && Live(q.value, rest)
  {
    hide *;
    QuoteOpens(s, stack, es);
    NoChars();
    RunFirst(At(s, stack, es), text);
    LiveRest(At(s, stack, es), text, Reading(ST, TString, stack, [], es), text[1..]);
    cs, rest := TakeChars([], stack, es, text[1..]);
    QuotedText(cs, rest);
    assert text == ['"'] + text[1..];
  }

  lemma {:induction false} QuoteOpens(s: State, stack: seq<Mode>, es: seq<Event>)
    requires Between(s) && BetweenEntry(s, '"') == StringBegin && stack != [] && |stack| - 1 <= DEPTH
    ensures Step(At(s, stack, es), '"') == Some(Reading(ST, TString, stack, [], es))
  {
    hide Step;
    BetweenStep(s, stack, es, '"');
  }

  lemma {:induction false} NoChars()
    ensures ValidChars([]) && CharsText([]) == [] && CharsValue([]) == []
  {}

  lemma {:induction false} QuotedText(cs: seq<StrChar>, rest: string)
    ensures Quoted(cs) + rest == ['"'] + (CharsText(cs) + "\"" + rest)
  {
  }

  lemma {:induction false} LiveRest(p: Parser, text: string, q: Parser, rest: string)
    requires Live(p, text) && Run(p, text) == Run(q, rest)
    ensures Live(q, rest)
  {}

  // ----- values -----

  /** After a value in a container only a comma or the right closing bracket can follow. */
  lemma {:induction false} AfterValue(r: Parser, stack: seq<Mode>, es: seq<Event>, text: string)
    requires Ready(r, stack, es) && stack != [] && |stack| - 1 <= DEPTH && Live(r, text)
    requires text == [] ==> Inside(stack)
    requires text != [] ==> !IsWhite(text[0]) && (r.state.OK? || Delimiter(text[0]))
    ensures text != [] && Step(r, text[0]).Some?
    ensures Run(r, text) == Run(Step(r, text[0]).value, text[1..]) && Live(Step(r, text[0]).value, text[1..])
    ensures text[0] == ',' || text[0] == ']' || text[0] == '}'
    ensures text[0] == ',' ==> stack[|stack| - 1].InArray? || stack[|stack| - 1].InObject?
    ensures text[0] == ']' ==> stack[|stack| - 1].InArray?
    ensures text[0] == '}' ==> stack[|stack| - 1].InObject?
  {
    hide Step;
    hide Run;
    hide Live;
    LiveStep(r, text);
    DelimiterStep(r, stack, es);
    if !Delimiter(text[0]) {
      StepNext(r, text[0]);
      EndRow(r.state, text[0]);
      ActStates(Pushed(r, text[0]), Next(r.state, text[0]));
    }
  }

  /** Where the text of a value may start. */
  ghost predicate ValueHere(s: State, stack: seq<Mode>, es: seq<Event>, text: string) {
    Begins(s, stack) && Live(At(s, stack, es), text) && text != [] && !IsWhite(text[0]) && (s.AR? ==> text[0] != ']')
  }

  /** What taking a value gives: its syntax, the parser after it, and the rest of the text. */
  ghost predicate TookValue(s: State, stack: seq<Mode>, es: seq<Event>, text: string, v: Value, q: Parser,
                            rest: string) {
    && ValidValue(v) && |stack| - 1 + Depth(v) <= DEPTH && (s.GO? ==> IsContainer(v))
    && text == Text(v) + rest && |rest| < |text|
    && Ready(q, stack, es + EventsOf(Meaning(v)))
    && Run(At(s, stack, es), text) == Run(q, rest) && Live(q, rest)
    && (q.state.OK? || (rest != [] && Delimiter(rest[0])))
    && (s.GO? ==> q.typ.NoType?)
  }

  lemma {:induction false} TakeScalar(s: State, stack: seq<Mode>, es: seq<Event>, text: string)
    returns (v: Value, q: Parser, rest: string)
    requires ValueHere(s, stack, es, text) && text[0] != '[' && text[0] != '{'
    ensures TookValue(s, stack, es, text, v, q, rest)
  {
    hide Step;
    hide Run;
    hide EventsOf;
    hide Meaning;
    var c := text[0];
    BetweenStep(s, stack, es, c);
    LiveStep(At(s, stack, es), text);
    if c == '"' {
      var cs;
      cs, rest := TakeQuoted(s, stack, es, text);
      v := VStr(cs);
      QuoteStep(stack, CharsValue(cs), es);
      q := At(OK, stack, es + [Str(CharsValue(cs))]);
      StringEvents(cs);
      ReadyAt(stack, es + [Str(CharsValue(cs))]);
    } else if c == '-' || IsDigit(c) {
      v, q, rest := TakeNumberValue(s, stack, es, text);
    } else {
      v := LiteralNamed(c);
      q, rest := TakeLiteral(s, stack, es, text, v);
    }
  }

  lemma {:induction false} StringEvents(cs: seq<StrChar>)
    requires ValidChars(cs)
    ensures ValidValue(VStr(cs)) && EventsOf(Meaning(VStr(cs))) == [Str(CharsValue(cs))]
    ensures Text(VStr(cs)) == Quoted(cs)
  {}

  lemma {:induction false} EmptyUnfold(ws: string, es: seq<Event>)
    requires Ws(ws)
    ensures ValidValue(VEmptyArr(ws)) && Depth(VEmptyArr(ws)) == 1 && Text(VEmptyArr(ws)) == "[" + ws + "]"
    ensures ValidValue(VEmptyObj(ws)) && Depth(VEmptyObj(ws)) == 1 && Text(VEmptyObj(ws)) == "{" + ws + "}"
    ensures es + [BeginArray] + [EndArray] == es + EventsOf(Meaning(VEmptyArr(ws)))
    ensures es + [BeginObject] + [EndObject] == es + EventsOf(Meaning(VEmptyObj(ws)))
  {}

  lemma {:induction false} ContainerDone(s: State, stack: seq<Mode>, es: seq<Event>, text: string, v: Value,
                                         rest: string)
    requires ValidValue(v) && IsContainer(v) && |stack| - 1 + Depth(v) <= DEPTH && text == Text(v) + rest
    requires |rest| < |text|
    requires Run(At(s, stack, es), text) == Run(At(OK, stack, es + EventsOf(Meaning(v))), rest)
    requires Live(At(s, stack, es), text)
    ensures TookValue(s, stack, es, text, v, At(OK, stack, es + EventsOf(Meaning(v))), rest)
  {
    hide Run;
    hide Step;
    hide Text;
    hide EventsOf;
    hide Meaning;
    hide ValidValue;
    ReadyAt(stack, es + EventsOf(Meaning(v)));
  }

  /** An array after its opening bracket. */
  lemma {:induction false} TakeArray(s: State, stack: seq<Mode>, es: seq<Event>, text: string)
    returns (v: Value, rest: string)
    requires ValueHere(s, stack, es, text) && text[0] == '['
    ensures ValidValue(v) && IsContainer(v) && |stack| - 1 + Depth(v) <= DEPTH && text == Text(v) + rest
    ensures |rest| < |text|
    ensures Run(At(s, stack, es), text) == Run(At(OK, stack, es + EventsOf(Meaning(v))), rest)
    decreases |text|, 0
  {
    hide Step;
    hide Run;
    hide EventsOf;
    hide EventsOfKids;
    hide Meaning;
    hide ElemsMeaning;
    hide Text;
    hide ElemsText;
    hide ValidValue;
    hide ValidElems;
    hide Depth;
    hide ElemsDepth;
    BetweenStep(s, stack, es, '[');
    LiveStep(At(s, stack, es), text);
    var stack1, es1 := stack + [InArray], es + [BeginArray];
    var ws, text1 := TakeWhite(AR, stack1, es1, text[1..]);
    LiveStep(At(AR, stack1, es1), text1);
    assert text == ['['] + (ws + text1);
    if text1[0] == ']' {
      BetweenStep(AR, stack1, es1, ']');
      assert stack1[..|stack1| - 1] == stack;
      v, rest := VEmptyArr(ws), text1[1..];
      EmptyUnfold(ws, es);
      assert text1 == [']'] + rest;
      assert text == "[" + ws + "]" + rest;
    } else {
      var elems;
      elems, rest := TakeElems(AR, stack1, es1, ws, text1);
      v := VArr(elems);
      assert stack1[..|stack1| - 1] == stack;
      ArrayIntro(elems);
      ArrayUnfold(elems, es);
      assert text == ['['] + (ElemsText(elems) + [']'] + rest);
      assert ['['] + (ElemsText(elems) + [']'] + rest) == (['['] + ElemsText(elems) + [']']) + rest;
    }
  }

  lemma {:induction false} ArrayIntro(elems: seq<Elem>)
    requires elems != [] && ValidElems(elems)
    ensures ValidValue(VArr(elems)) && IsContainer(VArr(elems))
  {}

  lemma {:induction false} NoElems()
    ensures ValidElems([]) && ElemsDepth([]) == 0 && ElemsMeaning([]) == [] && EventsOfKids([]) == []
  {}

  lemma {:induction false} ElemsCons(x: Elem, xs: seq<Elem>, es: seq<Event>)
    requires Ws(x.ws0) && ValidValue(x.v) && Ws(x.ws1) && ValidElems(xs)
    ensures var all := [x] + xs;
            var t := x.ws0 + Text(x.v) + x.ws1;
            && ValidElems(all) && ElemsDepth(all) == Max(Depth(x.v), ElemsDepth(xs))
            && ElemsText(all) == (if xs == [] then t else t + ([','] + ElemsText(xs)))
            && es + EventsOfKids(ElemsMeaning(all)) == es + EventsOf(Meaning(x.v)) + EventsOfKids(ElemsMeaning(xs))
  {
    var all := [x] + xs;
    assert all[1..] == xs;
    hide Text;
    hide Meaning;
    hide EventsOf;
    hide EventsOfKids;
    hide ElemsMeaning;
    hide ElemsText;
    hide ValidValue;
    hide Depth;
    assert ValidElems(all) && ElemsDepth(all) == Max(Depth(x.v), ElemsDepth(xs));
    hide ValidElems;
    ElemsUnfold(all, es);
  }

  /** One element up to the comma or the closing bracket after it. */
  lemma {:induction false} TakeElem(s: State, stack: seq<Mode>, es: seq<Event>, ws: string, text: string)
    returns (x: Elem, rest: string)
    requires ValueHere(s, stack, es, text) && !s.GO? && stack[|stack| - 1].InArray? && Ws(ws)
    ensures Ws(x.ws0) && ValidValue(x.v) && Ws(x.ws1) && |stack| - 1 + Depth(x.v) <= DEPTH
    ensures ws + text == x.ws0 + Text(x.v) + x.ws1 + rest
    ensures rest != [] && |rest| < |text| && (rest[0] == ',' || rest[0] == ']')
    ensures var es1 := es + EventsOf(Meaning(x.v));
            var q := if rest[0] == ',' then At(VA, stack, es1) else At(OK, stack[..|stack| - 1], es1 + [EndArray]);
            Run(At(s, stack, es), text) == Run(q, rest[1..]) && Live(q, rest[1..])
    decreases |text|, 2
  {
    hide Step;
    hide Run;
    hide Live;
    hide EventsOf;
    hide Meaning;
    hide Text;
    hide ValidValue;
    hide Depth;
    var v, q, text1 := TakeValue(s, stack, es, text);
    ghost var es1 := es + EventsOf(Meaning(v));
    var ws1, r, text2 := TakeWhiteAfter(q, stack, es1, text1);
    LiveRest(q, text1, r, text2);
    AfterValue(r, stack, es1, text2);
    DelimiterStep(r, stack, es1);
    x, rest := Elem(ws, v, ws1), text2;
    assert ws + text == ws + Text(v) + ws1 + text2;
  }

  /** The elements of an array, from the first one's text on, through the closing bracket. */
  lemma {:induction false} TakeElems(s: State, stack: seq<Mode>, es: seq<Event>, ws: string, text: string)
    returns (elems: seq<Elem>, rest: string)
    requires ValueHere(s, stack, es, text) && !s.GO? && stack[|stack| - 1].InArray? && Ws(ws)
    ensures elems != [] && ValidElems(elems) && |stack| - 1 + ElemsDepth(elems) <= DEPTH
    ensures ws + text == ElemsText(elems) + [']'] + rest && |rest| < |text|
    ensures Run(At(s, stack, es), text) ==
            Run(At(OK, stack[..|stack| - 1], es + EventsOfKids(ElemsMeaning(elems)) + [EndArray]), rest)
    decreases |text|, 3
  {
    hide Step;
    hide Run;
    hide EventsOf;
    hide EventsOfKids;
    hide Meaning;
    hide ElemsMeaning;
    hide Text;
    hide ElemsText;
    hide ValidValue;
    hide ValidElems;
    hide Depth;
    hide ElemsDepth;
    var x, text1 := TakeElem(s, stack, es, ws, text);
    ghost var es1 := es + EventsOf(Meaning(x.v));
    var t := x.ws0 + Text(x.v) + x.ws1;
    if text1[0] == ']' {
      elems, rest := [x], text1[1..];
      NoElems();
      ElemsCons(x, [], es);
      assert [x] + [] == elems;
      assert es1 + [] == es1;
      assert text1 == [']'] + rest;
    } else {
      var ws2, text2 := TakeWhite(VA, stack, es1, text1[1..]);
      LiveRest(At(VA, stack, es1), text1[1..], At(VA, stack, es1), text2);
      LiveStep(At(VA, stack, es1), text2);
      var xs;
      xs, rest := TakeElems(VA, stack, es1, ws2, text2);
      elems := [x] + xs;
      ElemsCons(x, xs, es);
      assert text1 == [','] + (ws2 + text2);
      assert t + ([','] + (ElemsText(xs) + [']'] + rest)) == (t + ([','] + ElemsText(xs))) + [']'] + rest;
    }
  }

  lemma {:induction false} ObjectIntro(ms: seq<Member>)
    requires ms != [] && ValidMembers(ms)
    ensures ValidValue(VObj(ms)) && IsContainer(VObj(ms))
  {}

  lemma {:induction false} NoMembers()
    ensures ValidMembers([]) && MembersDepth([]) == 0 && MembersMeaning([]) == [] && EventsOfKids([]) == []
  {}

  lemma {:induction false} MembersCons(x: Member, xs: seq<Member>, es: seq<Event>)
    requires Ws(x.ws0) && ValidChars(x.key) && Ws(x.ws1) && Ws(x.ws2) && ValidValue(x.v) && Ws(x.ws3)
    requires ValidMembers(xs)
    ensures var all := [x] + xs;
            var t := x.ws0 + Quoted(x.key) + x.ws1 + ":" + (x.ws2 + Text(x.v) + x.ws3);
            && ValidMembers(all) && MembersDepth(all) == Max(Depth(x.v), MembersDepth(xs))
            && MembersText(all) == (if xs == [] then t else t + ([','] + MembersText(xs)))
            && es + EventsOfKids(MembersMeaning(all)) ==
               es + [Key(CharsValue(x.key))] + EventsOf(Meaning(x.v)) + EventsOfKids(MembersMeaning(xs))
  {
    var all := [x] + xs;
    assert all[1..] == xs;
    hide Text;
    hide Meaning;
    hide EventsOf;
    hide EventsOfKids;
    hide MembersMeaning;
    hide MembersText;
    hide ValidValue;
    hide Depth;
    hide Quoted;
    hide CharsValue;
    hide ValidChars;
    assert ValidMembers(all) && MembersDepth(all) == Max(Depth(x.v), MembersDepth(xs));
    hide ValidMembers;
    MembersUnfold(all, es);
  }

  /** A key and its colon, with the white space up to the value. */
  lemma {:induction false} TakeKey(s: State, stack: seq<Mode>, es: seq<Event>, text: string)
    returns (cs: seq<StrChar>, ws1: string, ws2: string, rest: string)
    requires (s.OB? || s.KE?) && stack != [] && |stack| - 1 <= DEPTH && stack[|stack| - 1].InKey?
    requires Live(At(s, stack, es), text) && text != [] && text[0] == '"'
    ensures ValidChars(cs) && Ws(ws1) && Ws(ws2) && text == Quoted(cs) + ws1 + ":" + ws2 + rest && |rest| < |text|
    ensures var stack1, es1 := stack[..|stack| - 1] + [InObject], es + [Key(CharsValue(cs))];
            Run(At(s, stack, es), text) == Run(At(VA, stack1, es1), rest) && ValueHere(VA, stack1, es1, rest)
  {
    hide Step;
    hide Run;
    hide Quoted;
    hide CharsValue;
    hide ValidChars;
    var text1;
    cs, text1 := TakeQuoted(s, stack, es, text);
    QuoteStep(stack, CharsValue(cs), es);
    var es1 := es + [Key(CharsValue(cs))];
    var text2;
    ws1, text2 := TakeWhite(CO, stack, es1, text1);
    LiveStep(At(CO, stack, es1), text2);
    BetweenStep(CO, stack, es1, text2[0]);
    var stack1 := stack[..|stack| - 1] + [InObject];
    ws2, rest := TakeWhite(VA, stack1, es1, text2[1..]);
    LiveStep(At(VA, stack1, es1), rest);
    assert text2 == ":" + (ws2 + rest);
    assert Quoted(cs) + (ws1 + (":" + (ws2 + rest))) == Quoted(cs) + ws1 + ":" + ws2 + rest;
  }

  /** One member up to the comma or the closing brace after it. */
  lemma {:induction false} TakeMember(s: State, stack: seq<Mode>, es: seq<Event>, ws: string, text: string)
    returns (x: Member, rest: string)
    requires (s.OB? || s.KE?) && stack != [] && |stack| - 1 <= DEPTH && stack[|stack| - 1].InKey? && Ws(ws)
    requires Live(At(s, stack, es), text) && text != [] && text[0] == '"'
    ensures Ws(x.ws0) && ValidChars(x.key) && Ws(x.ws1) && Ws(x.ws2) && ValidValue(x.v) && Ws(x.ws3)
    ensures |stack| - 1 + Depth(x.v) <= DEPTH
    ensures ws + text == x.ws0 + Quoted(x.key) + x.ws1 + ":" + (x.ws2 + Text(x.v) + x.ws3) + rest
    ensures rest != [] && |rest| < |text| && (rest[0] == ',' || rest[0] == '}')
    ensures var es1 := es + [Key(CharsValue(x.key))] + EventsOf(Meaning(x.v));
            var q := if rest[0] == ',' then At(KE, stack, es1) else At(OK, stack[..|stack| - 1], es1 + [EndObject]);
            Run(At(s, stack, es), text) == Run(q, rest[1..]) && Live(q, rest[1..])
    decreases |text|, 2
  {
    hide Step;
    hide Run;
    hide Live;
    hide EventsOf;
    hide EventsOfKids;
    hide Meaning;
    hide Text;
    hide ValidValue;
    hide Depth;
    hide Quoted;
    hide CharsValue;
    hide ValidChars;
    var base := stack[..|stack| - 1];
    var stack1 := base + [InObject];
    var cs, ws1, ws2, text1 := TakeKey(s, stack, es, text);
    ghost var es0 := es + [Key(CharsValue(cs))];
    var v, q, text2 := TakeValue(VA, stack1, es0, text1);
    ghost var es1 := es0 + EventsOf(Meaning(v));
    var ws3, r, text3 := TakeWhiteAfter(q, stack1, es1, text2);
    LiveRest(q, text2, r, text3);
    AfterValue(r, stack1, es1, text3);
    DelimiterStep(r, stack1, es1);
    x, rest := Member(ws, cs, ws1, ws2, v, ws3), text3;
    assert stack1[..|stack1| - 1] == base && base + [InKey] == stack;
    assert ws + text == ws + Quoted(cs) + ws1 + ":" + (ws2 + Text(v) + ws3) + text3;
  }

  /** The members of an object, from the first key on, through the closing brace. */
  lemma {:induction false} TakeMembers(s: State, stack: seq<Mode>, es: seq<Event>, ws: string, text: string)
    returns (ms: seq<Member>, rest: string)
    requires (s.OB? || s.KE?) && stack != [] && |stack| - 1 <= DEPTH && stack[|stack| - 1].InKey? && Ws(ws)
    requires Live(At(s, stack, es), text) && text != [] && text[0] == '"'
    ensures ms != [] && ValidMembers(ms) && |stack| - 1 + MembersDepth(ms) <= DEPTH
    ensures ws + text == MembersText(ms) + ['}'] + rest && |rest| < |text|
    ensures Run(At(s, stack, es), text) ==
            Run(At(OK, stack[..|stack| - 1], es + EventsOfKids(MembersMeaning(ms)) + [EndObject]), rest)
    decreases |text|, 3
  {
    hide Step;
    hide Run;
    hide EventsOf;
    hide EventsOfKids;
    hide Meaning;
    hide MembersMeaning;
    hide Text;
    hide MembersText;
    hide ValidValue;
    hide ValidMembers;
    hide Depth;
    hide MembersDepth;
    hide Quoted;
    hide CharsValue;
    hide ValidChars;
    var x, text1 := TakeMember(s, stack, es, ws, text);
    ghost var es1 := es + [Key(CharsValue(x.key))] + EventsOf(Meaning(x.v));
    var t := x.ws0 + Quoted(x.key) + x.ws1 + ":" + (x.ws2 + Text(x.v) + x.ws3);
    if text1[0] == '}' {
      ms, rest := [x], text1[1..];
      NoMembers();
      MembersCons(x, [], es);
      assert [x] + [] == ms;
      assert es1 + [] == es1;
      assert text1 == ['}'] + rest;
    } else {
      var ws4, text2 := TakeWhite(KE, stack, es1, text1[1..]);
      LiveRest(At(KE, stack, es1), text1[1..], At(KE, stack, es1), text2);
      LiveStep(At(KE, stack, es1), text2);
      BetweenStep(KE, stack, es1, text2[0]);
      var xs;
      xs, rest := TakeMembers(KE, stack, es1, ws4, text2);
      ms := [x] + xs;
      MembersCons(x, xs, es);
      assert text1 == [','] + (ws4 + text2);
      assert t + ([','] + (MembersText(xs) + ['}'] + rest)) == (t + ([','] + MembersText(xs))) + ['}'] + rest;
    }
  }

  /** An object after its opening brace. */
  lemma {:induction false} TakeObject(s: State, stack: seq<Mode>, es: seq<Event>, text: string)
    returns (v: Value, rest: string)
    requires ValueHere(s, stack, es, text) && text[0] == '{'
    ensures ValidValue(v) && IsContainer(v) && |stack| - 1 + Depth(v) <= DEPTH && text == Text(v) + rest
    ensures |rest| < |text|
    ensures Run(At(s, stack, es), text) == Run(At(OK, stack, es + EventsOf(Meaning(v))), rest)
    decreases |text|, 0
  {
    hide Step;
    hide Run;
    hide EventsOf;
    hide EventsOfKids;
    hide Meaning;
    hide MembersMeaning;
    hide Text;
    hide MembersText;
    hide ValidValue;
    hide ValidMembers;
    hide Depth;
    hide MembersDepth;
    BetweenStep(s, stack, es, '{');
    LiveStep(At(s, stack, es), text);
    var stack1, es1 := stack + [InKey], es + [BeginObject];
    var ws, text1 := TakeWhite(OB, stack1, es1, text[1..]);
    LiveStep(At(OB, stack1, es1), text1);
    BetweenStep(OB, stack1, es1, text1[0]);
    assert text == ['{'] + (ws + text1);
    assert stack1[..|stack1| - 1] == stack;
    if text1[0] == '}' {
      v, rest := VEmptyObj(ws), text1[1..];
      EmptyUnfold(ws, es);
      assert text1 == ['}'] + rest;
      assert text == "{" + ws + "}" + rest;
    } else {
      var ms;
      ms, rest := TakeMembers(OB, stack1, es1, ws, text1);
      v := VObj(ms);
      ObjectIntro(ms);
      ObjectUnfold(ms, es);
      assert text == ['{'] + (MembersText(ms) + ['}'] + rest);
      assert ['{'] + (MembersText(ms) + ['}'] + rest) == (['{'] + MembersText(ms) + ['}']) + rest;
    }
  }

  /** Any value. */
  lemma {:induction false} TakeValue(s: State, stack: seq<Mode>, es: seq<Event>, text: string)
    returns (v: Value, q: Parser, rest: string)
    requires ValueHere(s, stack, es, text)
    ensures TookValue(s, stack, es, text, v, q, rest)
    decreases |text|, 1
  {
    hide Step;
    hide Run;
    hide TookValue;
    if text[0] == '[' {
      v, rest := TakeArray(s, stack, es, text);
      q := At(OK, stack, es + EventsOf(Meaning(v)));
      ContainerDone(s, stack, es, text, v, rest);
    } else if text[0] == '{' {
      v, rest := TakeObject(s, stack, es, text);
      q := At(OK, stack, es + EventsOf(Meaning(v)));
      ContainerDone(s, stack, es, text, v, rest);
    } else {
      v, q, rest := TakeScalar(s, stack, es, text);
    }
  }

  /** Every accepted text is a text of the grammar. */
  lemma {:induction false} TakeDoc(text: string) returns (d: Doc)
    requires Finished(Run(START, text))
    ensures ValidDoc(d) && DocText(d) == text
  {
    hide Step;
    hide Run;
    hide Text;
    hide ValidValue;
    hide Depth;
    assert START == At(GO, [Done], []);
    var ws0, text1 := TakeWhite(GO, [Done], [], text);
    if text1 == [] {
      assert ws0 + [] == ws0;
      return Blank(ws0);
    }
    var v, q, text2 := TakeValue(GO, [Done], [], text1);
    ghost var es := [] + EventsOf(Meaning(v));
    var ws1, r, text3 := TakeWhiteAfter(q, [Done], es, text2);
    LiveRest(q, text2, r, text3);
    if text3 != [] {
      AfterValue(r, [Done], es, text3);
      DelimiterStep(r, [Done], es);
      assert false;
    }
    d := Doc(ws0, v, ws1);
    assert ws0 + (Text(v) + (ws1 + [])) == ws0 + Text(v) + ws1;
  }

  // ----- whole texts -----

  /** The automaton accepts exactly the texts of the grammar. */
  lemma {:induction false} ParsesExactly(text: string)
    ensures Finished(Run(START, text)) <==> exists d :: ValidDoc(d) && DocText(d) == text
    ensures forall d :: ValidDoc(d) && DocText(d) == text ==> Run(START, text).value.events == DocEvents(DocMeaning(d))
  {
    hide Run;
    hide Step;
    hide ValidDoc;
    hide DocText;
    hide DocMeaning;
    hide DocEvents;
    if Finished(Run(START, text)) {
      var d := TakeDoc(text);
      assert ValidDoc(d) && DocText(d) == text;
    }
    forall d | ValidDoc(d) && DocText(d) == text
      ensures Finished(Run(START, text)) && Run(START, text).value.events == DocEvents(DocMeaning(d))
    {
      RunDoc(d);
    }
  }
}
