/** What one character does in each state of the automaton, in terms of characters. */
module JsonSteps {
  import opened Options
  import opened JsonTable
  import opened JsonGrammar

  // ----- runs -----

  lemma {:induction false} RunNothing(p: Parser)
    ensures Run(p, []) == Some(p)
  {}

  lemma {:induction false} RunFirst(p: Parser, text: string)
    requires text != []
    ensures Run(p, text) == var q := Step(p, text[0]); if q.None? then None else Run(q.value, text[1..])
  {}

  lemma {:induction false} RunSingle(p: Parser, c: char)
    ensures Run(p, [c]) == Step(p, c)
  {
    hide Step;
    RunFirst(p, [c]);
    var q := Step(p, c);
    if q.Some? { RunNothing(q.value); }
  }

  /** Reading a followed by b, when a leads to p. */
  lemma {:induction false} RunThen(p0: Parser, a: string, p: Parser, b: string)
    requires Run(p0, a) == Some(p)
    ensures Run(p0, a + b) == Run(p, b)
  {
    RunConcat(p0, a, b);
  }

  /** Reading c and then b, when c leads to p. */
  lemma {:induction false} RunChain(p0: Parser, c: char, p: Parser, b: string)
    requires Step(p0, c) == Some(p)
    ensures Run(p0, [c] + b) == Run(p, b)
  {
    hide Step;
    RunFirst(p0, [c] + b);
    assert ([c] + b)[1..] == b;
  }

  // ----- steps and table entries -----

  /** The table entry for a character. */
  function Next(s: State, c: char): Entry {
    if ClassOf(c).None? then Err else Table(s, ClassOf(c).value)
  }

  predicate Rejects(e: Entry) { e == Err || e == CommentBegin }

  function Pushed(p: Parser, c: char): Parser {
    if p.typ.NoType? && IsWhite(c) then p else p.(buf := p.buf + [c])
  }

  /** Every step outside an escape is the action of its table entry. */
  lemma {:induction false} StepNext(p: Parser, c: char)
    requires !p.escaped
    ensures Step(p, c) == Act(Pushed(p, c), Next(p.state, c))
  {
    if ClassOf(c).None? {
      hide ClassOf;
      hide Table;
      assert Act(Pushed(p, c), Err) == None;
    } else {
      assert IsWhite(c) <==> IsWhiteClass(ClassOf(c).value);
      hide ClassOf;
      hide Table;
      hide Act;
    }
  }

  lemma {:induction false} ActActions(p: Parser)
    ensures Act(p, DoComma) == OnComma(p) && Act(p, DoColon) == OnColon(p) && Act(p, StringEnd) == OnStringEnd(p)
    ensures Act(p, ArrayBegin) == OnBegin(p, BeginArray, InArray, AR)
    ensures Act(p, ObjectBegin) == OnBegin(p, BeginObject, InKey, OB)
    ensures Act(p, ArrayEnd) == OnEnd(p, EndArray, InArray)
    ensures Act(p, ObjectEnd) == OnEnd(p, EndObject, InObject)
    ensures Act(p, EmptyObjectEnd) == OnEmptyObjectEnd(p)
    ensures Act(p, UnicodeRead) == OnUnicode(p)
  {
    hide OnComma;
    hide OnColon;
    hide OnStringEnd;
    hide OnBegin;
    hide OnEnd;
    hide OnEmptyObjectEnd;
    hide OnUnicode;
  }

  lemma {:induction false} ActStates(p: Parser, e: Entry)
    ensures e.To? ==> Act(p, e) == Some(p.(state := e.s))
    ensures e == TrueBegin ==> Act(p, e) == Some(p.(typ := TTrue, state := T1))
    ensures e == FalseBegin ==> Act(p, e) == Some(p.(typ := TFalse, state := F1))
    ensures e == NullBegin ==> Act(p, e) == Some(p.(typ := TNull, state := N1))
    ensures e == StringBegin ==> Act(p, e) == Some(p.(buf := [], typ := TString, state := ST))
    ensures e == ByMinus ==> Act(p, e) == Some(p.(typ := TInteger, state := MI))
    ensures e == ByZero ==> Act(p, e) == Some(p.(typ := TInteger, state := ZE))
    ensures e == ByDigit ==> Act(p, e) == Some(p.(typ := TInteger, state := IT))
    ensures e == ByExponent ==> Act(p, e) == Some(p.(typ := TFloat, state := E1))
    ensures e == ByFraction ==> Act(p, e) == Some(p.(typ := TFloat, state := FX))
    ensures e == Escape ==> Act(p, e) == Some(p.(escaped := true, state := ES))
    ensures Rejects(e) ==> Act(p, e) == None
  {
    hide OnComma;
    hide OnColon;
    hide OnStringEnd;
    hide OnBegin;
    hide OnEnd;
    hide OnEmptyObjectEnd;
    hide OnUnicode;
  }

  // ----- classes -----

  lemma {:induction false} NumberClasses(c: char)
    ensures c == '0' <==> ClassOf(c) == Some(Zero)
    ensures IsDigit(c) && c != '0' <==> ClassOf(c) == Some(Digit)
    ensures c == 'e' <==> ClassOf(c) == Some(LowE)
    ensures c == 'E' <==> ClassOf(c) == Some(CapE)
    ensures c == '.' <==> ClassOf(c) == Some(Point)
    ensures c == '+' <==> ClassOf(c) == Some(Plus)
    ensures c == '-' <==> ClassOf(c) == Some(Minus)
  {}

  lemma {:induction false} DelimiterClasses(c: char)
    ensures IsWhite(c) <==> ClassOf(c) == Some(Space) || ClassOf(c) == Some(White)
    ensures c == ',' <==> ClassOf(c) == Some(Comma)
    ensures c == ']' <==> ClassOf(c) == Some(RSqrB)
    ensures c == '}' <==> ClassOf(c) == Some(RCurB)
    ensures c == '[' <==> ClassOf(c) == Some(LSqrB)
    ensures c == '{' <==> ClassOf(c) == Some(LCurB)
    ensures c == ':' <==> ClassOf(c) == Some(Colon)
    ensures c == '"' <==> ClassOf(c) == Some(Quote)
    ensures c == '\\' <==> ClassOf(c) == Some(BackS)
  {}

  lemma {:induction false} LetterClasses(c: char)
    ensures c == 'a' <==> ClassOf(c) == Some(LowA)
    ensures c == 'f' <==> ClassOf(c) == Some(LowF)
    ensures c == 'l' <==> ClassOf(c) == Some(LowL)
    ensures c == 'n' <==> ClassOf(c) == Some(LowN)
    ensures c == 'r' <==> ClassOf(c) == Some(LowR)
    ensures c == 's' <==> ClassOf(c) == Some(LowS)
    ensures c == 't' <==> ClassOf(c) == Some(LowT)
    ensures c == 'u' <==> ClassOf(c) == Some(LowU)
    ensures c == 'b' <==> ClassOf(c) == Some(LowB)
    ensures c == '/' <==> ClassOf(c) == Some(Slash)
  {}

  // ----- rows between tokens -----

  predicate Between(s: State) { s.GO? || s.OB? || s.KE? || s.CO? || s.VA? || s.AR? }

  /** The entry for the first character of a value, in states VA and AR. */
  function ValueEntry(c: char): Entry {
    if c == '{' then ObjectBegin
    else if c == '[' then ArrayBegin
    else if c == '"' then StringBegin
    else if c == '-' then ByMinus
    else if c == '0' then ByZero
    else if IsDigit(c) then ByDigit
    else if c == 'f' then FalseBegin
    else if c == 'n' then NullBegin
    else if c == 't' then TrueBegin
    else Err
  }

  function BetweenEntry(s: State, c: char): Entry
    requires Between(s)
  {
    if IsWhite(c) then To(s)
    else match s
      case GO => if c == '{' then ObjectBegin else if c == '[' then ArrayBegin else Err
      case OB => if c == '}' then EmptyObjectEnd else if c == '"' then StringBegin else Err
      case KE => if c == '"' then StringBegin else Err
      case CO => if c == ':' then DoColon else Err
      case VA => ValueEntry(c)
      case AR => if c == ']' then ArrayEnd else ValueEntry(c)
  }

  lemma {:induction false} BetweenRow(s: State, c: char)
    requires Between(s)
    ensures Next(s, c) == BetweenEntry(s, c) || (Rejects(Next(s, c)) && BetweenEntry(s, c) == Err)
  {
    if s.VA? || s.AR? { ValueRow(s, c); } else { MarkRow(s, c); }
  }

  lemma {:induction false} MarkRow(s: State, c: char)
    requires s.GO? || s.OB? || s.KE? || s.CO?
    ensures Next(s, c) == BetweenEntry(s, c) || (Rejects(Next(s, c)) && BetweenEntry(s, c) == Err)
  {
    hide ClassOf;
    DelimiterClasses(c);
    hide ValueEntry;
  }

  lemma {:induction false} ValueRow(s: State, c: char)
    requires s.VA? || s.AR?
    ensures Next(s, c) == BetweenEntry(s, c) || (Rejects(Next(s, c)) && BetweenEntry(s, c) == Err)
  {
    if s.VA? {
      FirstRow(VA, c);
    } else {
      hide Next;
      hide ClassOf;
      hide ValueEntry;
      ArrayRow(c);
      if c != ']' { FirstRow(AR, c); }
    }
  }

  lemma {:induction false} ArrayRow(c: char)
    ensures c == ']' ==> Next(AR, c) == ArrayEnd
  {
    hide ClassOf;
    DelimiterClasses(c);
  }

  /** Entries for all characters but the bracket that ends an array */
  lemma {:induction false} FirstRow(s: State, c: char)
    requires (s.VA? || s.AR?) && !(s.AR? && c == ']')
    ensures var e := if IsWhite(c) then To(s) else ValueEntry(c);
            Next(s, c) == e || (Rejects(Next(s, c)) && e == Err)
  {
    hide ClassOf;
    DelimiterClasses(c);
    NumberClasses(c);
    LetterClasses(c);
  }

  // ----- rows of numbers -----

  predicate NumberState(s: State) {
    s.MI? || s.ZE? || s.IT? || s.FX? || s.FR? || s.E1? || s.E2? || s.E3?
  }

  /** The next state of a number, by its next character. */
  function NumberNext(s: State, c: char): Option<State> {
    match s
    case MI => if c == '0' then Some(ZE) else if IsDigit(c) then Some(IT) else None
    case ZE => if c == '.' then Some(FX) else None
    case IT => if IsDigit(c) then Some(IT) else if c == '.' then Some(FX)
               else if c == 'e' || c == 'E' then Some(E1) else None
    case FX => if IsDigit(c) then Some(FR) else if c == 'e' || c == 'E' then Some(E1) else None
    case FR => if IsDigit(c) then Some(FR) else if c == 'e' || c == 'E' then Some(E1) else None
    case E1 => if c == '+' || c == '-' then Some(E2) else if IsDigit(c) then Some(E3) else None
    case E2 => if IsDigit(c) then Some(E3) else None
    case E3 => if IsDigit(c) then Some(E3) else None
    case _ => None
  }

  predicate EndState(s: State) { s.OK? || s.ZE? || s.IT? || s.FR? || s.FX? || s.E3? }

  predicate Delimiter(c: char) { IsWhite(c) || c == ',' || c == ']' || c == '}' }

  /** Grow the number, delimit it, or reject. */
  ghost predicate NumberEntry(s: State, c: char) {
    && (NumberNext(s, c).Some? ==>
          !IsWhite(c)
          && Next(s, c) == if s.IT? && (c == 'e' || c == 'E') then ByExponent
                           else if c == '.' then ByFraction else To(NumberNext(s, c).value))
    && (NumberNext(s, c).None? && !(EndState(s) && Delimiter(c)) ==> Rejects(Next(s, c)))
  }

  lemma {:induction false} WholeRow(s: State, c: char)
    requires s.MI? || s.ZE? || s.IT?
    ensures NumberEntry(s, c)
  {
    hide ClassOf;
    NumberClasses(c);
    DelimiterClasses(c);
  }

  lemma {:induction false} FractionRow(s: State, c: char)
    requires s.FX? || s.FR?
    ensures NumberEntry(s, c)
  {
    hide ClassOf;
    NumberClasses(c);
    DelimiterClasses(c);
  }

  lemma {:induction false} ExponentRow(s: State, c: char)
    requires s.E1? || s.E2? || s.E3?
    ensures NumberEntry(s, c)
  {
    hide ClassOf;
    NumberClasses(c);
    DelimiterClasses(c);
  }

  lemma {:induction false} NumberRow(s: State, c: char)
    requires NumberState(s)
    ensures NumberEntry(s, c)
  {
    hide NumberEntry;
    if s.MI? || s.ZE? || s.IT? {
      WholeRow(s, c);
    } else if s.FX? || s.FR? {
      FractionRow(s, c);
    } else {
      ExponentRow(s, c);
    }
  }

  ghost predicate EndEntry(s: State, c: char) {
    && (IsWhite(c) ==> Next(s, c) == To(OK))
    && (c == ',' ==> Next(s, c) == DoComma)
    && (c == ']' ==> Next(s, c) == ArrayEnd)
    && (c == '}' ==> Next(s, c) == ObjectEnd)
    && (s.OK? && !Delimiter(c) ==> Rejects(Next(s, c)))
  }

  lemma {:induction false} LastRow(s: State, c: char)
    requires s.OK? || s.E3?
    ensures EndEntry(s, c)
  {
    hide ClassOf;
    DelimiterClasses(c);
  }

  lemma {:induction false} DigitRow(s: State, c: char)
    requires s.ZE? || s.IT? || s.FR? || s.FX?
    ensures EndEntry(s, c)
  {
    hide ClassOf;
    DelimiterClasses(c);
  }

  lemma {:induction false} EndRow(s: State, c: char)
    requires EndState(s)
    ensures EndEntry(s, c)
  {
    hide EndEntry;
    if s.OK? || s.E3? { LastRow(s, c); } else { DigitRow(s, c); }
  }

  lemma {:induction false} NumberStep(p: Parser, c: char)
    requires NumberState(p.state) && !p.escaped && (p.typ.TInteger? || p.typ.TFloat?)
    ensures NumberNext(p.state, c).Some? ==>
              Step(p, c) == Some(p.(buf := p.buf + [c], state := NumberNext(p.state, c).value,
                                    typ := if c == '.' || (p.state.IT? && (c == 'e' || c == 'E')) then TFloat
                                           else p.typ))
    ensures NumberNext(p.state, c).None? && !(EndState(p.state) && Delimiter(c)) ==> Step(p, c) == None
  {
    StepNext(p, c);
    NumberRow(p.state, c);
    ActStates(p.(buf := p.buf + [c]), Next(p.state, c));
    hide Act;
    hide Step;
    hide Next;
  }

  // ----- rows of literals -----

  /** The only character that a literal state takes, and the state it leads to. */
  function LiteralNext(s: State): Option<(char, State)> {
    match s
    case T1 => Some(('r', T2))
    case T2 => Some(('u', T3))
    case T3 => Some(('e', OK))
    case F1 => Some(('a', F2))
    case F2 => Some(('l', F3))
    case F3 => Some(('s', F4))
    case F4 => Some(('e', OK))
    case N1 => Some(('u', N2))
    case N2 => Some(('l', N3))
    case N3 => Some(('l', OK))
    case _ => None
  }

  lemma {:induction false} LiteralRow(s: State, c: char)
    requires LiteralNext(s).Some?
    ensures if c == LiteralNext(s).value.0 then Next(s, c) == To(LiteralNext(s).value.1) else Rejects(Next(s, c))
  {
    hide ClassOf;
    LetterClasses(c);
    NumberClasses(c);
  }

  lemma {:induction false} LiteralStep(p: Parser, c: char)
    requires LiteralNext(p.state).Some? && !p.escaped && !p.typ.NoType?
    ensures Step(p, c) == if c == LiteralNext(p.state).value.0
                          then Some(p.(buf := p.buf + [c], state := LiteralNext(p.state).value.1)) else None
  {
    StepNext(p, c);
    LiteralRow(p.state, c);
    ActStates(p.(buf := p.buf + [c]), Next(p.state, c));
    hide Act;
    hide Step;
    hide Next;
  }

  // ----- rows of strings -----

  lemma {:induction false} StringRow(c: char)
    ensures Next(ST, c) == if c == '"' then StringEnd else if c == '\\' then Escape
                           else if ' ' <= c && c as int < 128 then To(ST) else Err
  {
    assert ClassOf(c).Some? <==> (' ' <= c && c as int < 128) || c == '\t' || c == '\n' || c == '\r';
    DelimiterClasses(c);
    assert ClassOf(c) == Some(White) <==> c == '\t' || c == '\n' || c == '\r';
    hide ClassOf;
  }

  lemma {:induction false} EscapeRow(c: char)
    ensures Unescape(c).Some? ==> Next(ES, c) == To(if c == 'u' then U1 else ST)
  {
    hide ClassOf;
    DelimiterClasses(c);
    LetterClasses(c);
  }

  lemma {:induction false} EscapeStep(p: Parser, c: char)
    requires p.escaped && p.state.ES? && p.buf != []
    ensures Step(p, c) == if Unescape(c).None? then None
                          else Some(p.(escaped := false, buf := p.buf[..|p.buf| - 1] + Unescape(c).value,
                                       state := if c == 'u' then U1 else ST))
  {
    EscapeRow(c);
    hide ClassOf;
    hide Table;
    if Unescape(c).Some? {
      ActStates(p.(escaped := false, buf := p.buf[..|p.buf| - 1] + Unescape(c).value), Next(ES, c));
      hide Act;
    }
  }

  function HexNext(s: State): Option<State> {
    match s
    case U1 => Some(U2)
    case U2 => Some(U3)
    case U3 => Some(U4)
    case U4 => Some(U4)
    case _ => None
  }

  lemma {:induction false} HexRow(s: State, c: char)
    requires HexNext(s).Some?
    ensures if IsHex(c) then Next(s, c) == (if s.U4? then UnicodeRead else To(HexNext(s).value))
            else Rejects(Next(s, c))
  {
    assert IsHex(c) <==> ClassOf(c).Some? && IsHexClass(ClassOf(c).value);
    hide ClassOf;
    hide IsHex;
  }

  lemma {:induction false} HexStep(p: Parser, c: char)
    requires HexNext(p.state).Some? && !p.escaped && !p.typ.NoType?
    ensures Step(p, c) == if !IsHex(c) then None
                          else if p.state.U4? then OnUnicode(p.(buf := p.buf + [c]))
                          else Some(p.(buf := p.buf + [c], state := HexNext(p.state).value))
  {
    StepNext(p, c);
    HexRow(p.state, c);
    ActStates(p.(buf := p.buf + [c]), Next(p.state, c));
    ActActions(p.(buf := p.buf + [c]));
    hide Act;
    hide Step;
    hide Next;
    hide OnUnicode;
    hide OnComma;
    hide OnColon;
    hide OnStringEnd;
    hide OnBegin;
    hide OnEnd;
    hide OnEmptyObjectEnd;
  }

  lemma {:induction false} SecondRow(c: char)
    ensures if c == '\\' then Next(D1, c) == To(D2) else Rejects(Next(D1, c))
    ensures if c == 'u' then Next(D2, c) == To(U1) else Rejects(Next(D2, c))
  {
    hide ClassOf;
    DelimiterClasses(c);
    LetterClasses(c);
  }

  lemma {:induction false} SecondStep(p: Parser, c: char)
    requires (p.state.D1? || p.state.D2?) && !p.escaped && !p.typ.NoType?
    ensures Step(p, c) == if c == (if p.state.D1? then '\\' else 'u')
                          then Some(p.(buf := p.buf + [c], state := if p.state.D1? then D2 else U1)) else None
  {
    StepNext(p, c);
    SecondRow(c);
    ActStates(p.(buf := p.buf + [c]), Next(p.state, c));
    hide Act;
    hide Step;
    hide Next;
  }

  lemma {:induction false} StringStep(p: Parser, c: char)
    requires p.state.ST? && !p.escaped && !p.typ.NoType?
    ensures Step(p, c) == if c == '"' then OnStringEnd(p.(buf := p.buf + [c]))
                          else if c == '\\' then Some(p.(buf := p.buf + [c], escaped := true, state := ES))
                          else if ' ' <= c && c as int < 128 then Some(p.(buf := p.buf + [c]))
                          else None
  {
    StepNext(p, c);
    StringRow(c);
    ActStates(p.(buf := p.buf + [c]), Next(p.state, c));
    ActActions(p.(buf := p.buf + [c]));
    hide Act;
    hide Step;
    hide Next;
    hide OnUnicode;
    hide OnComma;
    hide OnColon;
    hide OnStringEnd;
    hide OnBegin;
    hide OnEnd;
    hide OnEmptyObjectEnd;
  }
}
