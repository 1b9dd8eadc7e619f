/** Every text of the grammar is accepted, with exactly the events of its meaning. */
module JsonAccept {
  import opened Options
  import opened JsonTable
  import opened JsonGrammar
  import opened JsonSteps

  /** A parser between tokens. */
  function At(s: State, stack: seq<Mode>, es: seq<Event>): Parser {
    Parser(s, NoType, false, 0, stack, [], es)
  }

  /** A parser inside a token of type t. */
  function Reading(s: State, t: Type, stack: seq<Mode>, buf: string, es: seq<Event>): Parser {
    Parser(s, t, false, 0, stack, buf, es)
  }

  /** A parser that has read a value, perhaps with a number or a literal still in its buffer,
      and that will have reported the events es once the value is delimited. */
  ghost predicate Ready(q: Parser, stack: seq<Mode>, es: seq<Event>) {
    && q.stack == stack && !q.escaped && q.high == 0
    && q.events + Pending(q.typ, q.buf) == es
    && (q.typ.NoType? ==> q.state.OK? && q.buf == [])
    && !q.typ.TString?
    && EndState(q.state)
  }

  ghost predicate ReadyAfter(q: Option<Parser>, stack: seq<Mode>, es: seq<Event>) {
    q.Some? && Ready(q.value, stack, es)
  }

  /** Where a value may begin. */
  ghost predicate Begins(s: State, stack: seq<Mode>) {
    stack != [] && |stack| - 1 <= DEPTH &&
    match s
    case VA => stack[|stack| - 1].InArray? || stack[|stack| - 1].InObject?
    case AR => stack[|stack| - 1].InArray?
    case GO => stack == [Done]
    case _ => false
  }

  // ----- steps between tokens -----

  lemma {:induction false} OnBeginAt(s: State, stack: seq<Mode>, es: seq<Event>, c: char, e: Event, m: Mode, s': State)
    ensures OnBegin(At(s, stack, es).(buf := [c]), e, m, s') ==
            if |stack| - 1 == DEPTH then None else Some(At(s', stack + [m], es + [e]))
  {
    assert [c][..0] == [];
  }

  lemma {:induction false} OnEmptyEndAt(s: State, stack: seq<Mode>, es: seq<Event>, c: char)
    requires stack != []
    ensures var n := |stack| - 1;
            OnEmptyObjectEnd(At(s, stack, es).(buf := [c])) ==
            if stack[n].InKey? then Some(At(OK, stack[..n], es + [EndObject])) else None
  {}

  lemma {:induction false} OnColonAt(s: State, stack: seq<Mode>, es: seq<Event>, c: char)
    requires stack != [] && |stack| - 1 <= DEPTH
    ensures var n := |stack| - 1;
            OnColon(At(s, stack, es).(buf := [c])) ==
            if stack[n].InKey? then Some(At(VA, stack[..n] + [InObject], es)) else None
  {
    assert [c][..0] == [];
  }

  /** What a table entry does between tokens. */
  function EntryResult(e: Entry, s: State, stack: seq<Mode>, es: seq<Event>, c: char): Option<Parser>
    requires stack != []
  {
    var n := |stack| - 1;
    match e
    case To(_) => Some(At(s, stack, es))
    case ObjectBegin => if n == DEPTH then None else Some(At(OB, stack + [InKey], es + [BeginObject]))
    case ArrayBegin => if n == DEPTH then None else Some(At(AR, stack + [InArray], es + [BeginArray]))
    case EmptyObjectEnd => if stack[n].InKey? then Some(At(OK, stack[..n], es + [EndObject])) else None
    case ArrayEnd => if stack[n] == InArray then Some(At(OK, stack[..n], es + [EndArray])) else None
    case DoColon => if stack[n].InKey? then Some(At(VA, stack[..n] + [InObject], es)) else None
    case StringBegin => Some(Reading(ST, TString, stack, [], es))
    case ByMinus => Some(Reading(MI, TInteger, stack, [c], es))
    case ByZero => Some(Reading(ZE, TInteger, stack, [c], es))
    case ByDigit => Some(Reading(IT, TInteger, stack, [c], es))
    case TrueBegin => Some(Reading(T1, TTrue, stack, [c], es))
    case FalseBegin => Some(Reading(F1, TFalse, stack, [c], es))
    case NullBegin => Some(Reading(N1, TNull, stack, [c], es))
    case _ => None
  }

  /** What a character does between tokens. */
  function BetweenResult(s: State, stack: seq<Mode>, es: seq<Event>, c: char): Option<Parser>
    requires Between(s) && stack != []
  {
    EntryResult(BetweenEntry(s, c), s, stack, es, c)
  }

  lemma {:induction false} BetweenStep(s: State, stack: seq<Mode>, es: seq<Event>, c: char)
    requires Between(s) && stack != [] && |stack| - 1 <= DEPTH
    ensures Step(At(s, stack, es), c) == BetweenResult(s, stack, es, c)
  {
    hide Act;
    hide Step;
    hide Next;
    hide ValueEntry;
    hide EntryResult;
    var p := At(s, stack, es);
    var q := p.(buf := [c]);
    assert p.buf + [c] == [c];
    StepNext(p, c);
    BetweenRow(s, c);
    BetweenKinds(s, c);
    assert Pushed(p, c) == if IsWhite(c) then p else q;
    BetweenAct(BetweenEntry(s, c), s, stack, es, c);
    ActStates(q, Next(s, c));
    ActStates(q, BetweenEntry(s, c));
  }

  /** The entries there are between tokens. */
  predicate BetweenKind(e: Entry, s: State, c: char) {
    && (e.To? <==> IsWhite(c)) && (e.To? ==> e.s == s)
    && (e.To? || e.ObjectBegin? || e.ArrayBegin? || e.EmptyObjectEnd? || e.ArrayEnd? || e.DoColon? || e.StringBegin?
        || e.ByMinus? || e.ByZero? || e.ByDigit? || e.TrueBegin? || e.FalseBegin? || e.NullBegin? || e.Err?)
  }

  lemma {:induction false} BetweenKinds(s: State, c: char)
    requires Between(s)
    ensures BetweenKind(BetweenEntry(s, c), s, c)
  {}

  lemma {:induction false} BetweenAct(e: Entry, s: State, stack: seq<Mode>, es: seq<Event>, c: char)
    requires Between(s) && stack != [] && |stack| - 1 <= DEPTH && BetweenKind(e, s, c)
    ensures var p := At(s, stack, es);
            Act(if IsWhite(c) then p else p.(buf := [c]), e) == EntryResult(e, s, stack, es, c)
  {
    hide Act;
    hide OnBegin;
    hide OnColon;
    hide OnEmptyObjectEnd;
    hide OnEnd;
    hide OnComma;
    hide OnStringEnd;
    hide OnUnicode;
    var p := At(s, stack, es);
    var q := p.(buf := [c]);
    match e {
      case ObjectBegin =>
        ActActions(q);
        OnBeginAt(s, stack, es, c, BeginObject, InKey, OB);
      case ArrayBegin =>
        ActActions(q);
        OnBeginAt(s, stack, es, c, BeginArray, InArray, AR);
      case EmptyObjectEnd =>
        ActActions(q);
        OnEmptyEndAt(s, stack, es, c);
      case DoColon =>
        ActActions(q);
        OnColonAt(s, stack, es, c);
      case ArrayEnd =>
        ActActions(q);
        OnEndAt(s, stack, es, c);
      case _ =>
        ActStates(p, e);
        ActStates(q, e);
    }
  }

  lemma {:induction false} OnEndAt(s: State, stack: seq<Mode>, es: seq<Event>, c: char)
    requires stack != []
    ensures var n := |stack| - 1;
            OnEnd(At(s, stack, es).(buf := [c]), EndArray, InArray) ==
            if stack[n] == InArray then Some(At(OK, stack[..n], es + [EndArray])) else None
  {
    assert [c][..0] == [];
    assert es + [] == es;
  }

  // ----- steps after a value -----

  lemma {:induction false} TokenWhite(buf: string, c: char)
    requires IsWhite(c)
    ensures Token(buf + [c]) == Token(buf)
  {
    if buf != [] && !IsWhite(buf[0]) {
      assert (buf + [c])[1..] == buf[1..] + [c];
      TokenWhite(buf[1..], c);
    }
  }

  lemma {:induction false} TokenAll(buf: string)
    requires forall i :: 0 <= i < |buf| ==> !IsWhite(buf[i])
    ensures Token(buf) == buf
  {
    if buf != [] { TokenAll(buf[1..]); }
  }

  lemma {:induction false} WhiteStep(q: Parser, stack: seq<Mode>, es: seq<Event>, c: char)
    requires Ready(q, stack, es) && IsWhite(c)
    ensures ReadyAfter(Step(q, c), stack, es) && Step(q, c).value.state.OK?
    ensures q.typ.NoType? ==> Step(q, c) == Some(q)
  {
    StepNext(q, c);
    EndRow(q.state, c);
    ActStates(Pushed(q, c), To(OK));
    hide Act;
    hide Step;
    hide Next;
    TokenWhite(q.buf, c);
  }

  lemma {:induction false} OnCommaReady(q: Parser, stack: seq<Mode>, es: seq<Event>)
    requires Ready(q, stack, es) && stack != [] && |stack| - 1 <= DEPTH
    ensures var n := |stack| - 1;
            OnComma(q.(buf := q.buf + [','])) == if stack[n].InArray? then Some(At(VA, stack, es))
                                                 else if stack[n].InObject? then Some(At(KE, stack[..n] + [InKey], es))
                                                 else None
  {
    assert (q.buf + [','])[..|q.buf|] == q.buf;
  }

  lemma {:induction false} OnEndReady(q: Parser, stack: seq<Mode>, es: seq<Event>, c: char, e: Event, m: Mode)
    requires Ready(q, stack, es) && stack != []
    ensures var n := |stack| - 1;
            OnEnd(q.(buf := q.buf + [c]), e, m) == if stack[n] == m then Some(At(OK, stack[..n], es + [e])) else None
  {
    assert (q.buf + [c])[..|q.buf|] == q.buf;
  }

  /** The three delimiters after a value. */
  lemma {:induction false} DelimiterStep(q: Parser, stack: seq<Mode>, es: seq<Event>)
    requires Ready(q, stack, es) && stack != [] && |stack| - 1 <= DEPTH
    ensures var n := |stack| - 1;
            && Step(q, ',') == (if stack[n].InArray? then Some(At(VA, stack, es))
                                else if stack[n].InObject? then Some(At(KE, stack[..n] + [InKey], es))
                                else None)
            && Step(q, ']') == (if stack[n] == InArray then Some(At(OK, stack[..n], es + [EndArray])) else None)
            && Step(q, '}') == (if stack[n] == InObject then Some(At(OK, stack[..n], es + [EndObject])) else None)
  {
    OnCommaReady(q, stack, es);
    OnEndReady(q, stack, es, ']', EndArray, InArray);
    OnEndReady(q, stack, es, '}', EndObject, InObject);
    assert Pushed(q, ',') == q.(buf := q.buf + [',']) && Pushed(q, ']') == q.(buf := q.buf + [']'])
        && Pushed(q, '}') == q.(buf := q.buf + ['}']);
    assert EndState(q.state) && !q.escaped;
    hide *;
    StepNext(q, ',');
    StepNext(q, ']');
    StepNext(q, '}');
    EndRow(q.state, ',');
    EndRow(q.state, ']');
    EndRow(q.state, '}');
    ActActions(q.(buf := q.buf + [',']));
    ActActions(q.(buf := q.buf + [']']));
    ActActions(q.(buf := q.buf + ['}']));
  }

  lemma {:induction false} WhiteRun(q: Parser, stack: seq<Mode>, es: seq<Event>, ws: string)
    requires Ready(q, stack, es) && Ws(ws)
    ensures ReadyAfter(Run(q, ws), stack, es)
    ensures q.typ.NoType? ==> Run(q, ws) == Some(q)
    decreases ws
  {
    if ws == [] {
      RunNothing(q);
    } else {
      assert IsWhite(ws[0]) && Ws(ws[1..]);
      hide Step;
      hide Run;
      WhiteStep(q, stack, es, ws[0]);
      RunFirst(q, ws);
      WhiteRun(Step(q, ws[0]).value, stack, es, ws[1..]);
    }
  }

  /** White space between tokens changes nothing. */
  lemma {:induction false} SkipWhite(s: State, stack: seq<Mode>, es: seq<Event>, ws: string)
    requires Ws(ws) && Between(s) && stack != [] && |stack| - 1 <= DEPTH
    ensures Run(At(s, stack, es), ws) == Some(At(s, stack, es))
    decreases ws
  {
    if ws != [] {
      assert BetweenEntry(s, ws[0]) == To(s);
      hide Step;
      BetweenStep(s, stack, es, ws[0]);
      RunFirst(At(s, stack, es), ws);
      hide Run;
      SkipWhite(s, stack, es, ws[1..]);
    }
  }

  // ----- numbers -----

  lemma {:induction false} RunDigits(p: Parser, ds: string)
    requires Digits(ds) && !p.escaped && (p.typ.TInteger? || p.typ.TFloat?)
    requires p.state.IT? || p.state.FR? || p.state.E3?
    ensures Run(p, ds) == Some(p.(buf := p.buf + ds))
    decreases ds
  {
    hide Step;
    hide Run;
    if ds == [] {
      assert p.buf + ds == p.buf;
      RunNothing(p);
    } else {
      var q := p.(buf := p.buf + [ds[0]]);
      assert Digits(ds[1..]) && NumberState(p.state) && NumberNext(p.state, ds[0]) == Some(p.state);
      assert ds[0] != '.' && ds[0] != 'e' && ds[0] != 'E';
      hide *;
      NumberStep(p, ds[0]);
      RunFirst(p, ds);
      RunDigits(q, ds[1..]);
      assert q.buf + ds[1..] == p.buf + ds;
    }
  }

  /** Where the parser is after a number. */
  function NumberEnd(n: Number): State
    requires ValidNumber(n)
  {
    if n.exp.Some? then E3
    else if n.frac.Some? then (if n.frac.value == [] then FX else FR)
    else if n.whole[0] == '0' then ZE else IT
  }

  function NumberType(n: Number): Type { if n.frac.Some? || n.exp.Some? then TFloat else TInteger }

  /** The whole part. */
  lemma {:induction false} RunWhole(s: State, stack: seq<Mode>, es: seq<Event>, n: Number)
    requires Begins(s, stack) && !s.GO? && ValidNumber(n)
    ensures Run(At(s, stack, es), WholeText(n)) ==
            Some(Reading(if n.whole[0] == '0' then ZE else IT, TInteger, stack, WholeText(n), es))
  {
    var d, tail := n.whole[0], n.whole[1..];
    assert IsDigit(d) && Digits(tail) && n.whole == [d] + tail && (d == '0' ==> tail == []);
    var s' := if d == '0' then ZE else IT;
    var pre: string := if n.neg then ['-', d] else [d];
    assert WholeText(n) == pre + tail;
    var q := Reading(s', TInteger, stack, pre, es);
    hide Step;
    hide Run;
    RunSigned(s, stack, es, n.neg, d);
    RunThen(At(s, stack, es), pre, q, tail);
    if d == '0' {
      RunNothing(q);
      assert pre + tail == pre;
    } else {
      RunDigits(q, tail);
    }
  }

  lemma {:induction false} RunSigned(s: State, stack: seq<Mode>, es: seq<Event>, neg: bool, d: char)
    requires Begins(s, stack) && !s.GO? && IsDigit(d)
    ensures Run(At(s, stack, es), if neg then ['-', d] else [d]) ==
            Some(Reading(if d == '0' then ZE else IT, TInteger, stack, if neg then ['-', d] else [d], es))
  {
    hide Step;
    hide Run;
    var p := At(s, stack, es);
    BetweenStep(s, stack, es, if neg then '-' else d);
    if neg {
      var q := Reading(MI, TInteger, stack, ['-'], es);
      NumberStep(q, d);
      RunChain(p, '-', q, [d]);
      assert ['-'] + [d] == ['-', d];
      RunSingle(q, d);
    } else {
      RunSingle(p, d);
    }
  }

  /** A point and its digits. */
  lemma {:induction false} RunFraction(p: Parser, ds: string)
    requires (p.state.ZE? || p.state.IT?) && !p.escaped && p.typ.TInteger? && Digits(ds)
    ensures Run(p, "." + ds) == Some(p.(buf := p.buf + ("." + ds), typ := TFloat, state := if ds == [] then FX else FR))
  {
    hide Step;
    hide Run;
    var q := p.(buf := p.buf + ['.'], typ := TFloat, state := FX);
    NumberStep(p, '.');
    assert "." + ds == ['.'] + ds;
    RunChain(p, '.', q, ds);
    if ds == [] {
      RunNothing(q);
      assert p.buf + ['.'] == p.buf + ("." + ds);
    } else {
      var r := q.(buf := q.buf + [ds[0]], state := FR);
      NumberStep(q, ds[0]);
      assert ds == [ds[0]] + ds[1..];
      RunChain(q, ds[0], r, ds[1..]);
      RunDigits(r, ds[1..]);
      assert r.buf + ds[1..] == p.buf + ("." + ds);
    }
  }

  function ExponentText(x: Exponent): string { [x.e] + x.sign + x.digits }

  lemma {:induction false} RunExponent(p: Parser, x: Exponent)
    requires (p.state.IT? && p.typ.TInteger?) || ((p.state.FX? || p.state.FR?) && p.typ.TFloat?)
    requires !p.escaped && ValidExponent(x)
    ensures Run(p, ExponentText(x)) == Some(p.(buf := p.buf + ExponentText(x), typ := TFloat, state := E3))
  {
    hide Step;
    hide Run;
    var q := p.(buf := p.buf + [x.e], typ := TFloat, state := E1);
    NumberStep(p, x.e);
    assert ExponentText(x) == [x.e] + (x.sign + x.digits);
    RunChain(p, x.e, q, x.sign + x.digits);
    var r := q;
    if x.sign == [] {
      assert x.sign + x.digits == x.digits;
    } else {
      r := q.(buf := q.buf + x.sign, state := E2);
      NumberStep(q, x.sign[0]);
      assert x.sign == [x.sign[0]];
      RunChain(q, x.sign[0], r, x.digits);
    }
    hide Digits;
    RunExponentDigits(r, x.digits);
    assert r.buf + x.digits == p.buf + ExponentText(x);
  }

  lemma {:induction false} RunExponentDigits(r: Parser, ds: string)
    requires (r.state.E1? || r.state.E2?) && r.typ.TFloat? && !r.escaped && ds != [] && Digits(ds)
    ensures Run(r, ds) == Some(r.(buf := r.buf + ds, state := E3))
  {
    hide Step;
    hide Run;
    var t := r.(buf := r.buf + [ds[0]], state := E3);
    NumberStep(r, ds[0]);
    assert ds == [ds[0]] + ds[1..];
    RunChain(r, ds[0], t, ds[1..]);
    RunDigits(t, ds[1..]);
    assert t.buf + ds[1..] == r.buf + ds;
  }

  lemma {:induction false} RunNumber(s: State, stack: seq<Mode>, es: seq<Event>, n: Number)
    requires Begins(s, stack) && !s.GO? && ValidNumber(n)
    ensures Run(At(s, stack, es), NumberText(n)) ==
            Some(Reading(NumberEnd(n), NumberType(n), stack, NumberText(n), es))
  {
    hide Step;
    hide Run;
    var p := At(s, stack, es);
    RunWhole(s, stack, es, n);
    var q := Reading(if n.whole[0] == '0' then ZE else IT, TInteger, stack, WholeText(n), es);
    var t := WholeText(n);
    if n.frac.Some? {
      RunFraction(q, n.frac.value);
      RunThen(p, t, q, "." + n.frac.value);
      t := t + ("." + n.frac.value);
      q := q.(buf := t, typ := TFloat, state := if n.frac.value == [] then FX else FR);
    }
    if n.exp.Some? {
      RunExponent(q, n.exp.value);
      RunThen(p, t, q, ExponentText(n.exp.value));
      t := t + ExponentText(n.exp.value);
    }
    assert t == NumberText(n);
  }

  lemma {:induction false} NumberTextPlain(n: Number)
    requires ValidNumber(n)
    ensures forall i :: 0 <= i < |NumberText(n)| ==> !IsWhite(NumberText(n)[i])
  {}

  lemma {:induction false} NumberReady(stack: seq<Mode>, es: seq<Event>, n: Number)
    requires ValidNumber(n)
    ensures Ready(Reading(NumberEnd(n), NumberType(n), stack, NumberText(n), es), stack,
                  es + EventsOf(NumberMeaning(n)))
  {
    NumberPending(n);
    hide NumberText;
    hide NumberMeaning;
    hide EventsOf;
    hide Pending;
    hide ValidNumber;
  }

  lemma {:induction false} NumberPending(n: Number)
    requires ValidNumber(n)
    ensures Pending(NumberType(n), NumberText(n)) == EventsOf(NumberMeaning(n)) && NumberText(n) != []
  {
    NumberTextPlain(n);
    TokenAll(NumberText(n));
    hide Token;
    hide Natural;
    hide Stored;
    if n.frac.None? && n.exp.None? {
      WholeValue(n);
      hide WholeText;
      hide IntegerValue;
    }
  }

  lemma {:induction false} WholeValue(n: Number)
    requires ValidNumber(n) && n.frac.None? && n.exp.None?
    ensures NumberText(n) == WholeText(n)
    ensures IntegerValue(WholeText(n)) == Stored(if n.neg then -Natural(n.whole) else Natural(n.whole))
  {
    hide Natural;
    hide Stored;
    assert NumberText(n) == WholeText(n);
    if n.neg {
      assert WholeText(n)[1..] == n.whole;
    } else {
      assert IsDigit(n.whole[0]) && WholeText(n) == n.whole;
    }
  }

  // ----- literals -----

  function LiteralType(v: Value): Type { if v.VTrue? then TTrue else if v.VFalse? then TFalse else TNull }

  function LiteralStart(v: Value): State { if v.VTrue? then T1 else if v.VFalse? then F1 else N1 }

  /** The rest of a literal, from one of its states on. */
  function LiteralTail(s: State): string {
    match s
    case T1 => "rue"
    case T2 => "ue"
    case T3 => "e"
    case F1 => "alse"
    case F2 => "lse"
    case F3 => "se"
    case F4 => "e"
    case N1 => "ull"
    case N2 => "ll"
    case N3 => "l"
    case _ => ""
  }

  function LiteralRank(s: State): nat {
    if s.F1? then 4 else if s.T1? || s.F2? || s.N1? then 3 else if s.T2? || s.F3? || s.N2? then 2
    else if s.T3? || s.F4? || s.N3? then 1 else 0
  }

  lemma {:induction false} LiteralUnfold(s: State)
    requires LiteralNext(s).Some?
    ensures var (c, s') := LiteralNext(s).value;
            LiteralTail(s) == [c] + LiteralTail(s') && LiteralRank(s') < LiteralRank(s)
    ensures var (c, s') := LiteralNext(s).value; if s'.OK? then LiteralTail(s') == [] else LiteralNext(s').Some?
    ensures !s.OK? && !s.GO?
  {}

  lemma {:induction false} RunLiteralTail(p: Parser)
    requires LiteralNext(p.state).Some? && !p.escaped && !p.typ.NoType?
    ensures Run(p, LiteralTail(p.state)) == Some(p.(state := OK, buf := p.buf + LiteralTail(p.state)))
    decreases LiteralRank(p.state)
  {
    LiteralUnfold(p.state);
    var (c, s') := LiteralNext(p.state).value;
    var q := p.(state := s', buf := p.buf + [c]);
    hide Step;
    hide Run;
    LiteralStep(p, c);
    RunChain(p, c, q, LiteralTail(s'));
    if s'.OK? {
      RunNothing(q);
    } else {
      RunLiteralTail(q);
    }
    assert p.buf + ([c] + LiteralTail(s')) == q.buf + LiteralTail(s');
  }

  lemma {:induction false} LiteralText(v: Value)
    requires v.VTrue? || v.VFalse? || v.VNull?
    ensures |Text(v)| >= 1 && Text(v)[0] == (if v.VTrue? then 't' else if v.VFalse? then 'f' else 'n')
    ensures Text(v) == [Text(v)[0]] + LiteralTail(LiteralStart(v))
    ensures LiteralNext(LiteralStart(v)).Some? && ValidValue(v) && !IsContainer(v)
    ensures ValueEntry(Text(v)[0]) == if v.VTrue? then TrueBegin else if v.VFalse? then FalseBegin else NullBegin
    ensures !IsWhite(Text(v)[0]) && Text(v)[0] != ']'
  {}

  lemma {:induction false} LiteralReady(v: Value, stack: seq<Mode>, es: seq<Event>, buf: string)
    requires v.VTrue? || v.VFalse? || v.VNull?
    ensures Ready(Reading(OK, LiteralType(v), stack, buf, es), stack, es + EventsOf(Meaning(v)))
  {}

  lemma {:induction false} RunLiteral(s: State, stack: seq<Mode>, es: seq<Event>, v: Value)
    requires Begins(s, stack) && !s.GO? && (v.VTrue? || v.VFalse? || v.VNull?)
    ensures ReadyAfter(Run(At(s, stack, es), Text(v)), stack, es + EventsOf(Meaning(v)))
  {
    hide Step;
    hide Run;
    hide Text;
    hide LiteralTail;
    hide LiteralNext;
    hide ValueEntry;
    hide EventsOf;
    LiteralText(v);
    var c := Text(v)[0];
    var q := Reading(LiteralStart(v), LiteralType(v), stack, [c], es);
    BetweenStep(s, stack, es, c);
    RunChain(At(s, stack, es), c, q, LiteralTail(q.state));
    RunLiteralTail(q);
    LiteralReady(v, stack, es, [c] + LiteralTail(q.state));
  }

  // ----- strings -----

  lemma {:induction false} RunEscape(p: Parser, c: char)
    requires p.state.ST? && !p.escaped && p.typ.TString? && Unescape(c).Some?
    ensures Run(p, ['\\', c]) == Some(p.(buf := p.buf + Unescape(c).value, state := if c == 'u' then U1 else ST))
  {
    hide Step;
    hide Run;
    var q := p.(buf := p.buf + ['\\'], escaped := true, state := ES);
    StringStep(p, '\\');
    assert ['\\', c] == ['\\'] + [c];
    RunChain(p, '\\', q, [c]);
    EscapeStep(q, c);
    RunSingle(q, c);
    assert q.buf[..|q.buf| - 1] == p.buf;
  }

  /** Four hexadecimal digits. */
  lemma {:induction false} RunHex(p: Parser, h: string)
    requires p.state.U1? && !p.escaped && p.typ.TString? && IsHex4(h)
    ensures Run(p, h) == OnUnicode(p.(buf := p.buf + h, state := U4))
  {
    hide Step;
    hide Run;
    hide OnUnicode;
    var p1 := p.(buf := p.buf + [h[0]], state := U2);
    var p2 := p.(buf := p1.buf + [h[1]], state := U3);
    var p3 := p.(buf := p2.buf + [h[2]], state := U4);
    HexStep(p, h[0]);
    HexStep(p1, h[1]);
    HexStep(p2, h[2]);
    HexStep(p3, h[3]);
    assert h == [h[0]] + ([h[1]] + ([h[2]] + [h[3]]));
    RunChain(p, h[0], p1, [h[1]] + ([h[2]] + [h[3]]));
    RunChain(p1, h[1], p2, [h[2]] + [h[3]]);
    RunChain(p2, h[2], p3, [h[3]]);
    RunSingle(p3, h[3]);
    assert p3.buf + [h[3]] == p.buf + h;
  }

  /** The result of decoding a complete \u escape. */
  lemma {:induction false} DecodeHex(p: Parser, b: string, h: string)
    requires IsHex4(h) && p.buf == b + "\\u" + h
    ensures 0 <= HexValue(h) < 0x10000
    ensures var u := HexValue(h);
            OnUnicode(p) == if p.high != 0
                            then (if IsHighSurrogate(p.high) && IsLowSurrogate(u)
                                  then Some(p.(buf := b + Utf8(SurrogatePair(p.high, u)), high := 0, state := ST))
                                  else None)
                            else if IsHighSurrogate(u) then Some(p.(buf := b, high := u, state := D1))
                            else if IsLowSurrogate(u) then None
                            else Some(p.(buf := b + Utf8(u), state := ST))
  {
    HexRange(h);
    var n := |p.buf|;
    assert p.buf[n - 4..] == h && p.buf[..n - 6] == b;
    assert forall i :: n - 4 <= i < n ==> p.buf[i] == h[i - (n - 4)];
    hide Utf8;
  }

  lemma {:induction false} RunUnicode(p: Parser, h: string)
    requires p.state.ST? && !p.escaped && p.typ.TString? && p.high == 0 && IsHex4(h)
    ensures 0 <= HexValue(h) < 0x10000
    ensures var u := HexValue(h);
            Run(p, "\\u" + h) == if IsHighSurrogate(u) then Some(p.(high := u, state := D1))
                                 else if IsLowSurrogate(u) then None
                                 else Some(p.(buf := p.buf + Utf8(u)))
  {
    hide Step;
    hide Run;
    hide OnUnicode;
    hide Utf8;
    var q := p.(buf := p.buf + "\\u", state := U1);
    RunEscape(p, 'u');
    RunThen(p, ['\\', 'u'], q, h);
    assert ['\\', 'u'] + h == "\\u" + h;
    RunHex(q, h);
    DecodeHex(q.(buf := q.buf + h, state := U4), p.buf, h);
  }

  lemma {:induction false} RunSecond(p: Parser, h: string)
    requires p.state.D1? && !p.escaped && p.typ.TString? && IsHighSurrogate(p.high) && IsHex4(h)
    ensures var u := HexValue(h);
            Run(p, "\\u" + h) == if IsLowSurrogate(u)
                                 then Some(p.(buf := p.buf + Utf8(SurrogatePair(p.high, u)), high := 0, state := ST))
                                 else None
  {
    hide Step;
    hide Run;
    hide OnUnicode;
    hide Utf8;
    var q := p.(buf := p.buf + ['\\'], state := D2);
    var r := p.(buf := q.buf + ['u'], state := U1);
    SecondStep(p, '\\');
    SecondStep(q, 'u');
    assert "\\u" + h == ['\\'] + (['u'] + h);
    RunChain(p, '\\', q, ['u'] + h);
    RunChain(q, 'u', r, h);
    RunHex(r, h);
    assert r.buf + h == p.buf + "\\u" + h;
    DecodeHex(r.(buf := r.buf + h, state := U4), p.buf, h);
  }

  lemma {:induction false} RunChar(p: Parser, x: StrChar)
    requires p.state.ST? && !p.escaped && p.typ.TString? && p.high == 0 && ValidChar(x)
    ensures Run(p, CharText(x)) == Some(p.(buf := p.buf + CharValue(x)))
  {
    hide Step;
    hide Run;
    hide Utf8;
    match x
    case Plain(c) =>
      StringStep(p, c);
      RunSingle(p, c);
    case Esc(c) =>
      RunEscape(p, c);
    case Uni(h) =>
      RunUnicode(p, h);
    case Pair(hi, lo) =>
      RunUnicode(p, hi);
      var q := p.(high := HexValue(hi), state := D1);
      RunThen(p, "\\u" + hi, q, "\\u" + lo);
      assert "\\u" + hi + "\\u" + lo == ("\\u" + hi) + ("\\u" + lo);
      RunSecond(q, lo);
  }

  lemma {:induction false} RunChars(stack: seq<Mode>, es: seq<Event>, cs: seq<StrChar>)
    requires ValidChars(cs)
    ensures Run(Reading(ST, TString, stack, [], es), CharsText(cs))
            == Some(Reading(ST, TString, stack, CharsValue(cs), es))
    decreases cs
  {
    hide Step;
    hide Run;
    var p := Reading(ST, TString, stack, [], es);
    if cs == [] {
      RunNothing(p);
    } else {
      var n := |cs| - 1;
      var q := Reading(ST, TString, stack, CharsValue(cs[..n]), es);
      RunChars(stack, es, cs[..n]);
      RunThen(p, CharsText(cs[..n]), q, CharText(cs[n]));
      RunChar(q, cs[n]);
    }
  }

  /** The closing quote: a key or a value, by the mode on the stack. */
  lemma {:induction false} QuoteStep(stack: seq<Mode>, buf: string, es: seq<Event>)
    requires stack != []
    ensures var m := stack[|stack| - 1];
            Step(Reading(ST, TString, stack, buf, es), '"') ==
            if m.InKey? then Some(At(CO, stack, es + [Key(buf)]))
            else if m.InArray? || m.InObject? then Some(At(OK, stack, es + [Str(buf)]))
            else None
  {
    hide Step;
    StringStep(Reading(ST, TString, stack, buf, es), '"');
    assert (buf + ['"'])[..|buf|] == buf;
  }

  /** A whole string, from its opening quote on. */
  lemma {:induction false} RunQuoted(s: State, stack: seq<Mode>, es: seq<Event>, cs: seq<StrChar>)
    requires Between(s) && BetweenEntry(s, '"') == StringBegin && stack != [] && |stack| - 1 <= DEPTH && ValidChars(cs)
    ensures Run(At(s, stack, es), Quoted(cs)) == Step(Reading(ST, TString, stack, CharsValue(cs), es), '"')
  {
    hide Step;
    hide Run;
    var p := Reading(ST, TString, stack, [], es);
    BetweenStep(s, stack, es, '"');
    assert Quoted(cs) == ['"'] + (CharsText(cs) + ['"']);
    RunChain(At(s, stack, es), '"', p, CharsText(cs) + ['"']);
    RunChars(stack, es, cs);
    RunThen(p, CharsText(cs), Reading(ST, TString, stack, CharsValue(cs), es), ['"']);
    RunSingle(Reading(ST, TString, stack, CharsValue(cs), es), '"');
  }

  // ----- values -----

  lemma {:induction false} RunString(s: State, stack: seq<Mode>, es: seq<Event>, cs: seq<StrChar>)
    requires Begins(s, stack) && !s.GO? && ValidChars(cs)
    ensures Run(At(s, stack, es), Quoted(cs)) == Some(At(OK, stack, es + [Str(CharsValue(cs))]))
  {
    hide Step;
    hide Run;
    RunQuoted(s, stack, es, cs);
    QuoteStep(stack, CharsValue(cs), es);
  }

  /** A value between white space, in an array or after a colon. */
  lemma {:induction false} RunSpaced(s: State, stack: seq<Mode>, es: seq<Event>, ws0: string, t: string, ws1: string,
                                     es': seq<Event>)
    requires Begins(s, stack) && Ws(ws0) && Ws(ws1)
    requires ReadyAfter(Run(At(s, stack, es), t), stack, es')
    ensures ReadyAfter(Run(At(s, stack, es), ws0 + t + ws1), stack, es')
  {
    hide Step;
    hide Run;
    var p := At(s, stack, es);
    SkipWhite(s, stack, es, ws0);
    RunThen(p, ws0, p, t);
    var q := Run(p, t).value;
    RunThen(p, ws0 + t, q, ws1);
    WhiteRun(q, stack, es', ws1);
  }

  lemma {:induction false} ReadyAt(stack: seq<Mode>, es: seq<Event>)
    ensures Ready(At(OK, stack, es), stack, es)
  {
    assert es + [] == es;
  }

  lemma {:induction false} RunContainer(s: State, stack: seq<Mode>, es: seq<Event>, open: char, s': State, m: Mode,
                                        e: Event, body: string,
                     m': Mode, es': seq<Event>, close: char, e': Event)
    requires Begins(s, stack) && |stack| - 1 < DEPTH
    requires (open, s', m, e, m', close, e') == ('[', AR, InArray, BeginArray, InArray, ']', EndArray)
          || (open, s', m, e, m', close, e') == ('{', OB, InKey, BeginObject, InObject, '}', EndObject)
    requires ReadyAfter(Run(At(s', stack + [m], es + [e]), body), stack + [m'], es')
    ensures Run(At(s, stack, es), [open] + body + [close]) == Some(At(OK, stack, es' + [e']))
  {
    hide Step;
    hide Run;
    var p, q := At(s, stack, es), At(s', stack + [m], es + [e]);
    BetweenStep(s, stack, es, open);
    RunChain(p, open, q, body + [close]);
    assert [open] + body + [close] == [open] + (body + [close]);
    var r := Run(q, body).value;
    RunThen(q, body, r, [close]);
    DelimiterStep(r, stack + [m'], es');
    assert (stack + [m'])[..|stack|] == stack;
    RunSingle(r, close);
  }

  lemma {:induction false} RunEmptyArray(s: State, stack: seq<Mode>, es: seq<Event>, ws: string)
    requires Begins(s, stack) && |stack| - 1 < DEPTH && Ws(ws)
    ensures Run(At(s, stack, es), "[" + ws + "]") == Some(At(OK, stack, es + [BeginArray] + [EndArray]))
  {
    hide Step;
    hide Run;
    var p, q := At(s, stack, es), At(AR, stack + [InArray], es + [BeginArray]);
    BetweenStep(s, stack, es, '[');
    assert "[" + ws + "]" == ['['] + (ws + [']']);
    RunChain(p, '[', q, ws + [']']);
    SkipWhite(AR, stack + [InArray], es + [BeginArray], ws);
    RunThen(q, ws, q, [']']);
    BetweenStep(AR, stack + [InArray], es + [BeginArray], ']');
    RunSingle(q, ']');
    assert (stack + [InArray])[..|stack|] == stack;
  }

  lemma {:induction false} RunEmptyObject(s: State, stack: seq<Mode>, es: seq<Event>, ws: string)
    requires Begins(s, stack) && |stack| - 1 < DEPTH && Ws(ws)
    ensures Run(At(s, stack, es), "{" + ws + "}") == Some(At(OK, stack, es + [BeginObject] + [EndObject]))
  {
    hide Step;
    hide Run;
    var p, q := At(s, stack, es), At(OB, stack + [InKey], es + [BeginObject]);
    BetweenStep(s, stack, es, '{');
    assert "{" + ws + "}" == ['{'] + (ws + ['}']);
    RunChain(p, '{', q, ws + ['}']);
    SkipWhite(OB, stack + [InKey], es + [BeginObject], ws);
    RunThen(q, ws, q, ['}']);
    BetweenStep(OB, stack + [InKey], es + [BeginObject], '}');
    RunSingle(q, '}');
    assert (stack + [InKey])[..|stack|] == stack;
  }

  lemma {:induction false} ArrayUnfold(elems: seq<Elem>, es: seq<Event>)
    requires ValidValue(VArr(elems))
    ensures elems != [] && ValidElems(elems) && Depth(VArr(elems)) == 1 + ElemsDepth(elems)
    ensures Text(VArr(elems)) == ['['] + ElemsText(elems) + [']']
    ensures es + [BeginArray] + EventsOfKids(ElemsMeaning(elems)) + [EndArray] == es + EventsOf(Meaning(VArr(elems)))
  {
    hide ElemsText;
    hide EventsOfKids;
    hide ElemsMeaning;
  }

  lemma {:induction false} ObjectUnfold(ms: seq<Member>, es: seq<Event>)
    requires ValidValue(VObj(ms))
    ensures ms != [] && ValidMembers(ms) && Depth(VObj(ms)) == 1 + MembersDepth(ms)
    ensures Text(VObj(ms)) == ['{'] + MembersText(ms) + ['}']
    ensures es + [BeginObject] + EventsOfKids(MembersMeaning(ms)) + [EndObject] == es + EventsOf(Meaning(VObj(ms)))
  {
    hide MembersText;
    hide EventsOfKids;
    hide MembersMeaning;
  }

  /** The values that hold no other value. */
  lemma {:induction false} RunScalar(s: State, stack: seq<Mode>, es: seq<Event>, v: Value)
    requires Begins(s, stack) && (s.GO? ==> IsContainer(v)) && ValidValue(v) && |stack| - 1 + Depth(v) <= DEPTH
    requires !v.VArr? && !v.VObj?
    ensures ReadyAfter(Run(At(s, stack, es), Text(v)), stack, es + EventsOf(Meaning(v)))
    ensures IsContainer(v) ==> Run(At(s, stack, es), Text(v)) == Some(At(OK, stack, es + EventsOf(Meaning(v))))
  {
    hide Step;
    hide Run;
    ReadyAt(stack, es + EventsOf(Meaning(v)));
    match v
    case VNum(n) =>
      RunNumber(s, stack, es, n);
      NumberReady(stack, es, n);
    case VStr(cs) =>
      RunString(s, stack, es, cs);
    case VEmptyObj(ws) =>
      RunEmptyObject(s, stack, es, ws);
      assert es + [BeginObject] + [EndObject] == es + EventsOf(ObjTree([]));
    case VEmptyArr(ws) =>
      RunEmptyArray(s, stack, es, ws);
      assert es + [BeginArray] + [EndArray] == es + EventsOf(ArrTree([]));
    case _ =>
      RunLiteral(s, stack, es, v);
  }

  /** The text of a value is read, and its events reported once the value is delimited. */
  lemma {:induction false} RunValue(s: State, stack: seq<Mode>, es: seq<Event>, v: Value)
    requires Begins(s, stack) && (s.GO? ==> IsContainer(v)) && ValidValue(v) && |stack| - 1 + Depth(v) <= DEPTH
    ensures ReadyAfter(Run(At(s, stack, es), Text(v)), stack, es + EventsOf(Meaning(v)))
    ensures IsContainer(v) ==> Run(At(s, stack, es), Text(v)) == Some(At(OK, stack, es + EventsOf(Meaning(v))))
    decreases v, 1
  {
    hide Step;
    hide Run;
    hide Text;
    hide EventsOf;
    hide Meaning;
    hide Depth;
    hide ValidValue;
    hide ElemsText;
    hide MembersText;
    if v.VArr? {
      ArrayUnfold(v.es, es);
      ghost var k := EventsOfKids(ElemsMeaning(v.es));
      RunElems(AR, stack + [InArray], es + [BeginArray], v.es);
      RunContainer(s, stack, es, '[', AR, InArray, BeginArray, ElemsText(v.es), InArray, es + [BeginArray] + k, ']',
                   EndArray);
      ReadyAt(stack, es + EventsOf(Meaning(v)));
    } else if v.VObj? {
      ObjectUnfold(v.ms, es);
      ghost var k := EventsOfKids(MembersMeaning(v.ms));
      assert (stack + [InKey])[..|stack|] == stack;
      RunMembers(OB, stack + [InKey], es + [BeginObject], v.ms);
      RunContainer(s, stack, es, '{', OB, InKey, BeginObject, MembersText(v.ms), InObject, es + [BeginObject] + k, '}',
                   EndObject);
      ReadyAt(stack, es + EventsOf(Meaning(v)));
    } else {
      RunScalar(s, stack, es, v);
    }
  }

  lemma {:induction false} RunElems(s: State, stack: seq<Mode>, es: seq<Event>, elems: seq<Elem>)
    requires (s.VA? || s.AR?) && Begins(s, stack) && stack[|stack| - 1].InArray?
    requires elems != [] && ValidElems(elems) && |stack| - 1 + ElemsDepth(elems) <= DEPTH
    ensures ReadyAfter(Run(At(s, stack, es), ElemsText(elems)), stack, es + EventsOfKids(ElemsMeaning(elems)))
    decreases elems, 0
  {
    hide Step;
    hide Run;
    hide Text;
    hide Meaning;
    hide EventsOf;
    hide ElemsText;
    hide EventsOfKids;
    var x := elems[0];
    var p := At(s, stack, es);
    var t := x.ws0 + Text(x.v) + x.ws1;
    ghost var es1 := es + EventsOf(Meaning(x.v));
    RunValue(s, stack, es, x.v);
    RunSpaced(s, stack, es, x.ws0, Text(x.v), x.ws1, es1);
    ElemsUnfold(elems, es);
    if |elems| > 1 {
      var q := Run(p, t).value;
      DelimiterStep(q, stack, es1);
      RunThen(p, t, q, [','] + ElemsText(elems[1..]));
      RunChain(q, ',', At(VA, stack, es1), ElemsText(elems[1..]));
      RunElems(VA, stack, es1, elems[1..]);
    }
  }

  lemma {:induction false} ElemsUnfold(elems: seq<Elem>, es: seq<Event>)
    requires elems != [] && ValidElems(elems)
    ensures var x := elems[0];
            var t := x.ws0 + Text(x.v) + x.ws1;
            ElemsText(elems) == if |elems| == 1 then t else t + ([','] + ElemsText(elems[1..]))
    ensures es + EventsOfKids(ElemsMeaning(elems)) ==
            es + EventsOf(Meaning(elems[0].v)) + EventsOfKids(ElemsMeaning(elems[1..]))
    ensures |elems| == 1 ==> EventsOfKids(ElemsMeaning(elems[1..])) == []
  {
    hide Text;
    hide Meaning;
    hide EventsOf;
    var k := Kid(None, Meaning(elems[0].v));
    assert ElemsMeaning(elems) == [k] + ElemsMeaning(elems[1..]);
    KidsUnfold(k, ElemsMeaning(elems[1..]));
  }

  lemma {:induction false} KidsUnfold(k: Kid, ks: seq<Kid>)
    ensures EventsOfKids([k] + ks) == KeyEvent(k.key) + EventsOf(k.t) + EventsOfKids(ks)
  {
    hide EventsOf;
    assert ([k] + ks)[1..] == ks;
  }

  /** The key, the colon and the white space around them. */
  lemma {:induction false} RunKey(s: State, stack: seq<Mode>, es: seq<Event>, m: Member)
    requires (s.OB? || s.KE?) && stack != [] && |stack| - 1 <= DEPTH && stack[|stack| - 1].InKey?
    requires Ws(m.ws0) && ValidChars(m.key) && Ws(m.ws1)
    ensures Run(At(s, stack, es), m.ws0 + Quoted(m.key) + m.ws1 + ":") ==
            Some(At(VA, stack[..|stack| - 1] + [InObject], es + [Key(CharsValue(m.key))]))
  {
    hide Step;
    hide Run;
    var p := At(s, stack, es);
    var es1 := es + [Key(CharsValue(m.key))];
    var q := At(CO, stack, es1);
    SkipWhite(s, stack, es, m.ws0);
    RunThen(p, m.ws0, p, Quoted(m.key));
    RunQuoted(s, stack, es, m.key);
    QuoteStep(stack, CharsValue(m.key), es);
    RunThen(p, m.ws0 + Quoted(m.key), q, m.ws1);
    SkipWhite(CO, stack, es1, m.ws1);
    RunThen(p, m.ws0 + Quoted(m.key) + m.ws1, q, ":");
    BetweenStep(CO, stack, es1, ':');
    RunSingle(q, ':');
  }

  lemma {:induction false} RunMembers(s: State, stack: seq<Mode>, es: seq<Event>, ms: seq<Member>)
    requires (s.OB? || s.KE?) && stack != [] && |stack| - 1 <= DEPTH && stack[|stack| - 1].InKey?
    requires ms != [] && ValidMembers(ms) && |stack| - 1 + MembersDepth(ms) <= DEPTH
    ensures ReadyAfter(Run(At(s, stack, es), MembersText(ms)), stack[..|stack| - 1] + [InObject],
                       es + EventsOfKids(MembersMeaning(ms)))
    decreases ms, 0
  {
    hide Step;
    hide Run;
    hide Text;
    hide Meaning;
    hide EventsOf;
    hide Quoted;
    hide CharsValue;
    hide MembersText;
    hide EventsOfKids;
    var x := ms[0];
    var p := At(s, stack, es);
    var base := stack[..|stack| - 1];
    var stack' := base + [InObject];
    var pre := x.ws0 + Quoted(x.key) + x.ws1 + ":";
    var t := x.ws2 + Text(x.v) + x.ws3;
    ghost var es0 := es + [Key(CharsValue(x.key))];
    ghost var es1 := es0 + EventsOf(Meaning(x.v));
    RunKey(s, stack, es, x);
    var p1 := At(VA, stack', es0);
    RunValue(VA, stack', es0, x.v);
    RunSpaced(VA, stack', es0, x.ws2, Text(x.v), x.ws3, es1);
    RunThen(p, pre, p1, t);
    MembersUnfold(ms, es);
    if |ms| > 1 {
      var q := Run(p1, t).value;
      DelimiterStep(q, stack', es1);
      assert stack'[..|stack'| - 1] + [InKey] == stack;
      RunThen(p, pre + t, q, [','] + MembersText(ms[1..]));
      RunChain(q, ',', At(KE, stack, es1), MembersText(ms[1..]));
      RunMembers(KE, stack, es1, ms[1..]);
    }
  }

  lemma {:induction false} MembersUnfold(ms: seq<Member>, es: seq<Event>)
    requires ms != [] && ValidMembers(ms)
    ensures var x := ms[0];
            var pre := x.ws0 + Quoted(x.key) + x.ws1 + ":";
            var t := x.ws2 + Text(x.v) + x.ws3;
            MembersText(ms) == if |ms| == 1 then pre + t else pre + t + ([','] + MembersText(ms[1..]))
    ensures es + EventsOfKids(MembersMeaning(ms)) ==
            es + [Key(CharsValue(ms[0].key))] + EventsOf(Meaning(ms[0].v)) + EventsOfKids(MembersMeaning(ms[1..]))
    ensures |ms| == 1 ==> EventsOfKids(MembersMeaning(ms[1..])) == []
  {
    hide Text;
    hide Meaning;
    hide EventsOf;
    hide Quoted;
    hide CharsValue;
    var k := Kid(Some(CharsValue(ms[0].key)), Meaning(ms[0].v));
    assert MembersMeaning(ms) == [k] + MembersMeaning(ms[1..]);
    KidsUnfold(k, MembersMeaning(ms[1..]));
  }

  /** Every text of the grammar is accepted, and its events are those of its meaning. */
  lemma {:induction false} RunDoc(d: Doc)
    requires ValidDoc(d)
    ensures Finished(Run(START, DocText(d))) && Run(START, DocText(d)).value.events == DocEvents(DocMeaning(d))
  {
    hide Step;
    hide Run;
    assert START == At(GO, [Done], []);
    match d
    case Blank(ws) =>
      SkipWhite(GO, [Done], [], ws);
    case Doc(ws0, v, ws1) =>
      var es := EventsOf(Meaning(v));
      assert [] + es == es;
      RunValue(GO, [Done], [], v);
      SkipWhite(GO, [Done], [], ws0);
      RunThen(START, ws0, START, Text(v));
      RunThen(START, ws0 + Text(v), At(OK, [Done], es), ws1);
      ReadyAt([Done], es);
      WhiteRun(At(OK, [Done], es), [Done], es, ws1);
  }
}
