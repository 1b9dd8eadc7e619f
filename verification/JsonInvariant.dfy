/** What holds of the parser after every accepted prefix of every text. */
module JsonInvariants {
  import opened Options
  import opened JsonTable
  import opened JsonGrammar
  import opened JsonSteps
  import opened JsonAccept

  predicate InString(s: State) { s.ST? || s.ES? || s.U1? || s.U2? || s.U3? || s.U4? || s.D1? || s.D2? }

  predicate InLiteral(s: State) { LiteralNext(s).Some? }

  predicate NestedStack(stack: seq<Mode>) {
    stack != [] && |stack| - 1 <= DEPTH && stack[0] == Done && forall i :: 0 < i < |stack| ==> stack[i] != Done
  }

  /** The part of the buffer behind the backslash of a \u escape. */
  predicate EndsInHex(buf: string, n: nat) {
    |buf| >= n + 2 && forall i :: |buf| - n <= i < |buf| ==> IsHex(buf[i])
  }

  ghost predicate Inv(p: Parser) {
    && NestedStack(p.stack)
    && (p.state.GO? <==> p.events == [])
    && (|p.stack| == 1 ==> p.typ.NoType? && (p.state.GO? || p.state.OK?))
    && (p.high != 0 ==> IsHighSurrogate(p.high) && InString(p.state) && !p.state.ST? && !p.state.ES?)
    && (p.escaped <==> p.state.ES?)
    && if Between(p.state) then BetweenInv(p)
       else if InString(p.state) then StringInv(p)
       else ValueInv(p)
  }

  ghost predicate BetweenInv(p: Parser)
    requires p.stack != []
  {
    var top := p.stack[|p.stack| - 1];
    && p.typ.NoType? && p.buf == []
    && (p.state.GO? ==> p.stack == [Done])
    && (p.state.OB? || p.state.KE? || p.state.CO? ==> top.InKey?)
    && (p.state.VA? ==> top.InArray? || top.InObject?)
    && (p.state.AR? ==> top.InArray?)
  }

  ghost predicate StringInv(p: Parser) {
    && p.typ.TString?
    && (p.state.ES? || p.state.D2? ==> p.buf != [])
    && (p.state.U1? ==> EndsInHex(p.buf, 0)) && (p.state.U2? ==> EndsInHex(p.buf, 1))
    && (p.state.U3? ==> EndsInHex(p.buf, 2)) && (p.state.U4? ==> EndsInHex(p.buf, 3))
    && (p.state.D1? || p.state.D2? ==> p.high != 0)
  }

  ghost predicate ValueInv(p: Parser)
    requires p.stack != []
  {
    && !p.typ.TString? && (p.typ.NoType? <==> p.buf == []) && (p.typ.NoType? ==> p.state.OK?)
    && (p.state.MI? || p.state.ZE? || p.state.IT? ==> p.typ.TInteger?)
    && (p.state.FX? || p.state.FR? || p.state.E1? || p.state.E2? || p.state.E3? ==> p.typ.TFloat?)
    && (!p.typ.NoType? ==> var top := p.stack[|p.stack| - 1]; top.InArray? || top.InObject?)
  }

  lemma {:induction false} InvStart()
    ensures Inv(START)
  {}

  // ----- one step keeps the invariant -----

  /** Which entries a state between tokens has */
  predicate EntryOf(e: Entry, s: State) {
    match e
    case To(s1) => s1 == s
    case ObjectBegin => s.GO? || s.VA? || s.AR?
    case ArrayBegin => s.GO? || s.VA? || s.AR?
    case EmptyObjectEnd => s.OB?
    case ArrayEnd => s.AR?
    case DoColon => s.CO?
    case StringBegin => s.OB? || s.KE? || s.VA? || s.AR?
    case _ => s.VA? || s.AR? || e.Err?
  }

  lemma {:induction false} BetweenEntries(s: State, c: char)
    requires Between(s)
    ensures EntryOf(BetweenEntry(s, c), s)
  {}

  lemma {:induction false} InvOpened(p: Parser, e: Entry, c: char)
    requires Inv(p) && Between(p.state) && EntryOf(e, p.state) && (e.ObjectBegin? || e.ArrayBegin?)
    ensures var r := EntryResult(e, p.state, p.stack, p.events, c); r.Some? ==> Inv(r.value)
  {}

  lemma {:induction false} InvClosed(p: Parser, e: Entry, c: char)
    requires Inv(p) && Between(p.state) && EntryOf(e, p.state) && (e.EmptyObjectEnd? || e.ArrayEnd? || e.DoColon?)
    ensures var r := EntryResult(e, p.state, p.stack, p.events, c); r.Some? ==> Inv(r.value)
  {}

  lemma {:induction false} InvQuote(p: Parser, e: Entry, c: char)
    requires Inv(p) && Between(p.state) && EntryOf(e, p.state) && e.StringBegin?
    ensures var r := EntryResult(e, p.state, p.stack, p.events, c); r.Some? ==> Inv(r.value)
  {}

  lemma {:induction false} InvDigit(p: Parser, e: Entry, c: char)
    requires Inv(p) && Between(p.state) && EntryOf(e, p.state) && (e.ByMinus? || e.ByZero? || e.ByDigit?)
    ensures var r := EntryResult(e, p.state, p.stack, p.events, c); r.Some? ==> Inv(r.value)
  {}

  lemma {:induction false} InvLetter(p: Parser, e: Entry, c: char)
    requires Inv(p) && Between(p.state) && EntryOf(e, p.state) && (e.TrueBegin? || e.FalseBegin? || e.NullBegin?)
    ensures var r := EntryResult(e, p.state, p.stack, p.events, c); r.Some? ==> Inv(r.value)
  {}

  lemma {:induction false} InvSame(p: Parser)
    requires Inv(p) && Between(p.state)
    ensures p == At(p.state, p.stack, p.events) && p.stack != [] && |p.stack| - 1 <= DEPTH
  {}

  lemma {:induction false} InvBetween(p: Parser, c: char)
    requires Inv(p) && Between(p.state) && Step(p, c).Some?
    ensures Inv(Step(p, c).value)
  {
    hide Inv;
    hide Step;
    hide At;
    hide EntryOf;
    hide BetweenEntry;
    InvSame(p);
    BetweenStep(p.state, p.stack, p.events, c);
    BetweenEntries(p.state, c);
    BetweenKinds(p.state, c);
    var e := BetweenEntry(p.state, c);
    if e.ObjectBegin? || e.ArrayBegin? {
      InvOpened(p, e, c);
    } else if e.EmptyObjectEnd? || e.ArrayEnd? || e.DoColon? {
      InvClosed(p, e, c);
    } else if e.StringBegin? {
      InvQuote(p, e, c);
    } else if e.ByMinus? || e.ByZero? || e.ByDigit? {
      InvDigit(p, e, c);
    } else if !e.To? && !e.Err? {
      InvLetter(p, e, c);
    }
  }

  lemma {:induction false} InvNumber(p: Parser, c: char)
    requires Inv(p) && NumberState(p.state) && NumberNext(p.state, c).Some?
    ensures Step(p, c).Some? && Inv(Step(p, c).value)
  {
    hide Step;
    NumberStep(p, c);
  }

  lemma {:induction false} InvDelimiter(p: Parser, c: char)
    requires Inv(p) && EndState(p.state) && Delimiter(c) && Step(p, c).Some?
    ensures Inv(Step(p, c).value)
  {
    hide Step;
    ghost var es := p.events + Pending(p.typ, p.buf);
    assert Ready(p, p.stack, es);
    if IsWhite(c) {
      WhiteStep(p, p.stack, es, c);
      InvWhite(p, c);
    } else {
      DelimiterStep(p, p.stack, es);
    }
  }

  lemma {:induction false} InvWhite(p: Parser, c: char)
    requires Inv(p) && EndState(p.state) && IsWhite(c)
    ensures Step(p, c).Some? && Inv(Step(p, c).value)
  {
    hide Step;
    StepNext(p, c);
    EndRow(p.state, c);
    ActStates(Pushed(p, c), Next(p.state, c));
    hide Act;
    hide Next;
  }

  lemma {:induction false} InvLiteral(p: Parser, c: char)
    requires Inv(p) && InLiteral(p.state) && Step(p, c).Some?
    ensures Inv(Step(p, c).value)
  {
    hide Step;
    LiteralStep(p, c);
  }

  lemma {:induction false} InvString(p: Parser, c: char)
    requires Inv(p) && p.state.ST? && Step(p, c).Some?
    ensures Inv(Step(p, c).value)
  {
    hide Step;
    StringStep(p, c);
    assert (p.buf + [c])[..|p.buf|] == p.buf;
  }

  lemma {:induction false} InvEscape(p: Parser, c: char)
    requires Inv(p) && p.state.ES? && Step(p, c).Some?
    ensures Inv(Step(p, c).value)
  {
    hide Step;
    EscapeStep(p, c);
  }

  lemma {:induction false} InvSecond(p: Parser, c: char)
    requires Inv(p) && (p.state.D1? || p.state.D2?) && Step(p, c).Some?
    ensures Inv(Step(p, c).value)
  {
    hide Step;
    SecondStep(p, c);
  }

  lemma {:induction false} InvHex(p: Parser, c: char)
    requires Inv(p) && HexNext(p.state).Some? && Step(p, c).Some?
    ensures Inv(Step(p, c).value)
  {
    hide Step;
    hide IsHex;
    HexStep(p, c);
    hide DecodeUnicode;
    if p.state.U4? {
      UnicodeFields(p.(buf := p.buf + [c]));
    }
  }

  lemma {:induction false} UnicodeFields(p: Parser)
    requires DecodeUnicode(p).Some? && p.high != 0 ==> IsHighSurrogate(p.high)
    ensures DecodeUnicode(p).Some? ==>
              var q := DecodeUnicode(p).value;
              q == p.(buf := q.buf, high := q.high) && (q.high != 0 ==> IsHighSurrogate(q.high))
  {}

  /** Every accepted character keeps the invariant. */
  lemma {:induction false} InvStep(p: Parser, c: char)
    requires Inv(p) && Step(p, c).Some?
    ensures Inv(Step(p, c).value)
  {
    hide Step;
    hide Inv;
    InvSplit(p);
    if Between(p.state) {
      InvBetween(p, c);
    } else if NumberState(p.state) && NumberNext(p.state, c).Some? {
      InvNumber(p, c);
    } else if EndState(p.state) {
      InvEnd(p, c);
    } else if InLiteral(p.state) {
      InvLiteral(p, c);
    } else if p.state.ST? {
      InvString(p, c);
    } else if p.state.ES? {
      InvEscape(p, c);
    } else if HexNext(p.state).Some? {
      InvHex(p, c);
    } else if p.state.D1? || p.state.D2? {
      InvSecond(p, c);
    } else {
      NumberStep(p, c);
    }
  }

  lemma {:induction false} InvSplit(p: Parser)
    requires Inv(p)
    ensures NumberState(p.state) ==> !p.escaped && (p.typ.TInteger? || p.typ.TFloat?)
    ensures EndState(p.state) ==> !p.escaped
  {}

  lemma {:induction false} InvEnd(p: Parser, c: char)
    requires Inv(p) && EndState(p.state) && Step(p, c).Some? && (NumberState(p.state) ==> NumberNext(p.state, c).None?)
    ensures Inv(Step(p, c).value)
  {
    hide Step;
    hide Inv;
    InvSplit(p);
    if Delimiter(c) {
      InvDelimiter(p, c);
    } else if p.state.OK? {
      StepNext(p, c);
      EndRow(p.state, c);
      ActStates(Pushed(p, c), Next(p.state, c));
    } else {
      NumberStep(p, c);
    }
  }
}
