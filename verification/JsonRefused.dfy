/** The printed texts that the parser refuses: those with a string that it does not take back, or too deep. */
module JsonRefused {
  import opened Options
  import opened JsonTable
  import opened JsonGrammar
  import opened JsonSteps
  import opened JsonAccept
  import opened JsonLayout
  import opened JsonPrint
  import opened JsonRoundTrip

  // ----- strings -----

  /** The escaped form of a character that is not printable is refused within a string. */
  lemma {:induction false} CharRefused(stack: seq<Mode>, es: seq<Event>, buf: string, c: char)
    requires !PrintableChar(c)
    ensures Run(Reading(ST, TString, stack, buf, es), EscapeChar(c)) == None
  {
    hide Step;
    hide Run;
    var p := Reading(ST, TString, stack, buf, es);
    StringStep(p, EscapeChar(c)[0]);
    if c == '\'' {
      var q := p.(buf := p.buf + ['\\'], escaped := true, state := ES);
      assert EscapeChar(c) == ['\\'] + ['\''];
      RunChain(p, '\\', q, ['\'']);
      EscapeStep(q, '\'');
      RunSingle(q, '\'');
    } else {
      assert EscapeChar(c) == [c];
      RunSingle(p, c);
    }
  }

  lemma RunRefused(p: Parser, a: string, b: string)
    requires Run(p, a) == None
    ensures Run(p, a + b) == None
  {
    hide *;
    RunConcat(p, a, b);
  }

  lemma {:induction false} EscapedRefused(stack: seq<Mode>, es: seq<Event>, s: string)
    requires !PrintableString(s)
    ensures Run(Reading(ST, TString, stack, [], es), Escaped(s)) == None
  {
    var r, c := s[..|s| - 1], s[|s| - 1];
    var p := Reading(ST, TString, stack, [], es);
    assert s == r + [c];
    PrintableSnoc(r, c);
    hide Step;
    hide Run;
    hide PrintableChar;
    hide EscapeChar;
    if !PrintableString(r) {
      EscapedRefused(stack, es, r);
      RunRefused(p, Escaped(r), EscapeChar(c));
    } else {
      StringBack(r);
      RunChars(stack, es, CharsOf(r));
      CharRefused(stack, es, r, c);
      RunThen(p, Escaped(r), Reading(ST, TString, stack, r, es), EscapeChar(c));
    }
  }

  lemma {:induction false} StringRefused(s0: State, stack: seq<Mode>, es: seq<Event>, s: string)
    requires Begins(s0, stack) && !s0.GO? && !PrintableString(s)
    ensures Run(At(s0, stack, es), "\"" + Escaped(s) + "\"") == None
  {
    hide Step;
    hide Run;
    hide PrintableString;
    hide Escaped;
    var p := Reading(ST, TString, stack, [], es);
    BetweenStep(s0, stack, es, '"');
    EscapedRefused(stack, es, s);
    RunRefused(p, Escaped(s), "\"");
    RunChain(At(s0, stack, es), '"', p, Escaped(s) + "\"");
    assert "\"" + Escaped(s) + "\"" == ['"'] + (Escaped(s) + "\"");
  }

  // ----- trees -----

  /** A tree that is printable but for its strings. */
  predicate Solid(t: Tree)
    decreases t
  {
    match t
    case FloatTree(_) => false
    case IntTree(n) => Fits64(n)
    case ArrTree(kids) => kids != [] && SolidKids(kids, false)
    case ObjTree(kids) => kids != [] && SolidKids(kids, true)
    case _ => true
  }

  predicate SolidKids(kids: seq<Kid>, keyed: bool)
    decreases kids
  {
    kids == [] ||
    (assert kids[0].t < kids[0];
     && (if keyed then kids[0].key.Some? && PrintableKey(kids[0].key.value) else kids[0].key.None?)
     && Solid(kids[0].t) && SolidKids(kids[1..], keyed))
  }

  lemma {:induction false} SolidNoFloats(t: Tree)
    requires Solid(t)
    ensures NoFloats(t)
    decreases t, 1
  {
    if IsNode(t) { SolidNoFloatKids(t.kids, t.ObjTree?); }
  }

  lemma {:induction false} SolidNoFloatKids(kids: seq<Kid>, keyed: bool)
    requires SolidKids(kids, keyed)
    ensures NoFloatKids(kids)
    decreases kids, 0
  {
    if kids != [] {
      assert kids[0].t < kids[0];
      SolidNoFloats(kids[0].t);
      SolidNoFloatKids(kids[1..], keyed);
    }
  }

  /** What a solid tree lacks for its text to be read in a place with so many containers around it */
  predicate Bad(t: Tree, around: int) { !Printable(t) || around + TreeDepth(t) > DEPTH }

  predicate BadKids(kids: seq<Kid>, keyed: bool, around: int) {
    !PrintableKids(kids, keyed) || around + KidsDepth(kids) > DEPTH
  }

  lemma {:induction false} BadNode(t: Tree, around: int)
    requires Solid(t) && IsNode(t) && Bad(t, around)
    ensures BadKids(t.kids, t.ObjTree?, around + 1)
  {
    hide PrintableKids;
    hide KidsDepth;
  }

  lemma {:induction false} BadScalar(t: Tree, around: int)
    requires Solid(t) && !IsNode(t) && Bad(t, around) && around <= DEPTH
    ensures t.StrTree? && !PrintableString(t.s)
  {}

  lemma {:induction false} BadList(kids: seq<Kid>, keyed: bool, around: int)
    requires SolidKids(kids, keyed) && BadKids(kids, keyed, around) && kids != [] && around <= DEPTH
    ensures kids[0].t < kids[0] && Solid(kids[0].t) && SolidKids(kids[1..], keyed)
    ensures if keyed then kids[0].key.Some? && PrintableKey(kids[0].key.value) else kids[0].key.None?
    ensures Bad(kids[0].t, around) || (kids[1..] != [] && BadKids(kids[1..], keyed, around))
  {
    var rest := kids[1..];
    assert rest == [] ==> PrintableKids(rest, keyed) && KidsDepth(rest) == 0;
    assert PrintableKids(kids, keyed) <==> Printable(kids[0].t) && PrintableKids(rest, keyed);
    assert KidsDepth(kids) == Max(TreeDepth(kids[0].t), KidsDepth(rest));
    hide TreeDepth;
    hide Printable;
    hide Solid;
    hide PrintableKids;
    hide KidsDepth;
  }

  /** A value that is not bad leaves the parser ready, with events that do not matter here. */
  lemma {:induction false} GoodRun(s: State, stack: seq<Mode>, es: seq<Event>, t: Tree, one: int)
    returns (es': seq<Event>)
    requires Begins(s, stack) && !s.GO? && Solid(t) && !Bad(t, |stack| - 1) && Fits64(one)
    ensures NoFloats(t) && ReadyAfter(Run(At(s, stack, es), NodeText(Kid(None, t), one)), stack, es')
  {
    PrintableNoFloats(t);
    ValueBack(t, one);
    es' := es + EventsOf(Meaning(ValueOf(t, one)));
    hide NodeText;
    hide Text;
    hide Meaning;
    hide ValidValue;
    hide Run;
    hide Printable;
    hide Solid;
    hide TreeDepth;
    hide Depth;
    hide ValueOf;
    RunValue(s, stack, es, ValueOf(t, one));
  }

  /** The text of a bad tree is refused where a value may begin. */
  lemma {:induction false} TreeRefused(s: State, stack: seq<Mode>, es: seq<Event>, t: Tree, one: int)
    requires Begins(s, stack) && (s.GO? ==> IsNode(t)) && Solid(t) && Bad(t, |stack| - 1) && Fits64(one)
    ensures NoFloats(t) && Run(At(s, stack, es), NodeText(Kid(None, t), one)) == None
    decreases t, 1
  {
    SolidNoFloats(t);
    hide Run;
    hide Step;
    if !IsNode(t) {
      BadScalar(t, |stack| - 1);
      ScalarNode(t, one);
      StringRefused(s, stack, es, t.s);
    } else {
      BadNode(t, |stack| - 1);
      NodeAround(t, one);
      SolidNoFloatKids(t.kids, t.ObjTree?);
      if |stack| - 1 < DEPTH {
        ListRefused(if t.ArrTree? then AR else OB, stack + [ModeOf(t)], es + [BeginOf(t)], t.kids, t.ObjTree?, one);
      }
      hide Solid;
      hide Bad;
      hide BadKids;
      hide NodeText;
      hide ListText;
      OpenRefused(s, stack, es, t.ObjTree?, ListText(t.kids, BracketOf(t), one));
    }
  }

  function ModeOf(t: Tree): Mode { if t.ObjTree? then InKey else InArray }

  lemma {:induction false} OpenRefused(s: State, stack: seq<Mode>, es: seq<Event>, curly: bool, body: string)
    requires Begins(s, stack)
    requires |stack| - 1 < DEPTH ==>
               Run(At(if curly then OB else AR, stack + [if curly then InKey else InArray],
                      es + [if curly then BeginObject else BeginArray]), body) == None
    ensures Run(At(s, stack, es), (if curly then "{" else "[") + body) == None
  {
    hide Run;
    hide Step;
    var c := if curly then '{' else '[';
    BetweenStep(s, stack, es, c);
    var p := At(s, stack, es);
    if |stack| - 1 < DEPTH {
      RunChain(p, c, Step(p, c).value, body);
    } else {
      RunStop(p, c, body);
    }
  }

  lemma RunStop(p: Parser, c: char, body: string)
    requires Step(p, c) == None
    ensures Run(p, [c] + body) == None
  {
    hide Step;
    RunFirst(p, [c] + body);
  }

  /** Where the value of the first child begins, after its key */
  function InState(s: State, keyed: bool): State { if keyed then VA else s }

  function InStack(stack: seq<Mode>, keyed: bool): seq<Mode>
    requires stack != []
  {
    if keyed then stack[..|stack| - 1] + [InObject] else stack
  }

  function InEvents(es: seq<Event>, k: Kid): seq<Event> { if k.key.Some? then es + [Key(k.key.value)] else es }

  /** Where a list of children may begin */
  ghost predicate ListBegins(s: State, stack: seq<Mode>, keyed: bool) {
    && stack != [] && |stack| - 1 <= DEPTH
    && if keyed then (s.OB? || s.KE?) && stack[|stack| - 1].InKey? else (s.AR? || s.VA?) && stack[|stack| - 1].InArray?
  }

  lemma {:induction false} FirstChild(s: State, stack: seq<Mode>, es: seq<Event>, keyed: bool, k: Kid)
    requires ListBegins(s, stack, keyed)
    requires if keyed then k.key.Some? && PrintableKey(k.key.value) else k.key.None?
    ensures Begins(InState(s, keyed), InStack(stack, keyed)) && !InState(s, keyed).GO?
    ensures |InStack(stack, keyed)| == |stack|
    ensures Run(At(s, stack, es), KeyText(k.key)) == Some(At(InState(s, keyed), InStack(stack, keyed), InEvents(es, k)))
  {
    hide Step;
    if keyed {
      KeyRun(s, stack, es, k.key.value);
    } else {
      RunNothing(At(s, stack, es));
    }
  }

  /** The comma after a child leads to where the next one begins. */
  lemma {:induction false} NextChild(q: Parser, stack: seq<Mode>, es: seq<Event>, keyed: bool, s: State, rest: string)
    requires ListBegins(s, stack, keyed) && Ready(q, InStack(stack, keyed), es)
    ensures var s1 := if keyed then KE else VA;
            ListBegins(s1, stack, keyed) && Run(q, "," + rest) == Run(At(s1, stack, es), rest)
  {
    hide Run;
    hide Step;
    hide Ready;
    var inner := InStack(stack, keyed);
    assert (if keyed then inner[..|inner| - 1] + [InKey] else inner) == stack;
    DelimiterStep(q, inner, es);
    RunChain(q, ',', At(if keyed then KE else VA, stack, es), rest);
  }

  lemma {:induction false} ListRefused(s: State, stack: seq<Mode>, es: seq<Event>, kids: seq<Kid>, keyed: bool,
                                       one: int)
    requires ListBegins(s, stack, keyed) && Fits64(one)
    requires kids != [] && SolidKids(kids, keyed) && BadKids(kids, keyed, |stack| - 1)
    ensures NoFloatKids(kids) && Run(At(s, stack, es), ListText(kids, if keyed then Curly else Square, one)) == None
    decreases kids, 0
  {
    var b := if keyed then Curly else Square;
    var k, rest := kids[0], kids[1..];
    var mark := if |kids| > 1 then "," else Close(b);
    assert stack != [] && |stack| - 1 <= DEPTH;
    hide *;
    SolidNoFloatKids(kids, keyed);
    BadList(kids, keyed, |stack| - 1);
    ListCons(kids, b, one);
    FirstChild(s, stack, es, keyed, k);
    NodeTextKey(k.key, k.t, one);
    var t, key := NodeText(Kid(None, k.t), one), KeyText(k.key);
    var s1, stack1, es1 := InState(s, keyed), InStack(stack, keyed), InEvents(es, k);
    assert k == Kid(k.key, k.t);
    TextOfList(key, t, mark, ListText(rest, b, one));
    if Bad(k.t, |stack| - 1) {
      TreeRefused(s1, stack1, es1, k.t, one);
      PieceRefused(At(s, stack, es), key, At(s1, stack1, es1), t, mark + ListText(rest, b, one));
    } else {
      var es2 := GoodRun(s1, stack1, es1, k.t, one);
      var q := ReadyParser(Run(At(s1, stack1, es1), t), stack1, es2);
      NextChild(q, stack, es2, keyed, s, ListText(rest, b, one));
      ListRefused(if keyed then KE else VA, stack, es2, rest, keyed, one);
      PieceThen(At(s, stack, es), key, At(s1, stack1, es1), t, q, mark + ListText(rest, b, one));
    }
  }

  lemma ReadyParser(r: Option<Parser>, stack: seq<Mode>, es: seq<Event>) returns (q: Parser)
    requires ReadyAfter(r, stack, es)
    ensures r == Some(q) && Ready(q, stack, es)
  {
    q := r.value;
  }

  lemma TextOfList(key: string, t: string, mark: string, rest: string)
    ensures (key + t) + mark + rest == key + (t + (mark + rest))
  {}

  lemma PieceRefused(p: Parser, key: string, p1: Parser, t: string, rest: string)
    requires Run(p, key) == Some(p1) && Run(p1, t) == None
    ensures Run(p, key + (t + rest)) == None
  {
    hide *;
    RunRefused(p1, t, rest);
    RunThen(p, key, p1, t + rest);
  }

  lemma PieceThen(p: Parser, key: string, p1: Parser, t: string, q: Parser, rest: string)
    requires Run(p, key) == Some(p1) && Run(p1, t) == Some(q) && Run(q, rest) == None
    ensures Run(p, key + (t + rest)) == None
  {
    hide *;
    RunThen(p1, t, q, rest);
    RunThen(p, key, p1, t + rest);
  }

  lemma {:induction false} KeyRun(s: State, stack: seq<Mode>, es: seq<Event>, key: string)
    requires (s.OB? || s.KE?) && stack != [] && |stack| - 1 <= DEPTH && stack[|stack| - 1].InKey? && PrintableKey(key)
    ensures Run(At(s, stack, es), KeyText(Some(key)))
            == Some(At(VA, stack[..|stack| - 1] + [InObject], es + [Key(key)]))
  {
    MemberBack(key);
    var m := Member("", PlainOf(key), "", "", VNull, "");
    NoWhite();
    hide Run;
    hide PrintableKey;
    RunKey(s, stack, es, m);
    assert "" + Quoted(m.key) + "" + ":" == Quoted(m.key) + ":";
  }
}
