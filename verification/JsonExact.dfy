/** Exactly which trees come back when the parser reads what the printer has written. */
module JsonExact {
  import opened Options
  import opened JsonTable
  import opened JsonGrammar
  import opened JsonSteps
  import opened JsonAccept
  import opened JsonLayout
  import opened JsonPrint
  import opened JsonRoundTrip
  import opened JsonRefused
  import opened JsonSound
  import opened JsonTexts
  import opened JsonAligned

  // ----- a tree is known by its events -----

  predicate Starts(e: Event) { !e.EndArray? && !e.EndObject? && !e.Key? }

  lemma {:induction false} EventsStart(t: Tree)
    ensures EventsOf(t) != [] && Starts(EventsOf(t)[0])
  {}

  /** Two trees whose events begin two equal sequences are the same. */
  lemma {:induction false} EventsTell(a: Tree, b: Tree, r: seq<Event>, q: seq<Event>)
    requires EventsOf(a) + r == EventsOf(b) + q
    ensures a == b && r == q
    decreases a, 1
  {
    EventsStart(a);
    EventsStart(b);
    assert (EventsOf(a) + r)[0] == EventsOf(a)[0] == EventsOf(b)[0];
    if IsNode(a) {
      SameNode(a, b);
      NodeEvents(a, r);
      NodeEvents(b, q);
      hide EventsOf;
      KidsTell(a.kids, b.kids, [EndOf(a)] + r, [EndOf(a)] + q);
      assert ([EndOf(a)] + r)[1..] == r && ([EndOf(a)] + q)[1..] == q;
    } else {
      SameScalar(a, b);
      hide EventsOf;
      assert (EventsOf(a) + r)[1..] == r && (EventsOf(b) + q)[1..] == q;
    }
  }

  lemma {:induction false} NodeEvents(t: Tree, r: seq<Event>)
    requires IsNode(t)
    ensures (EventsOf(t) + r)[1..] == EventsOfKids(t.kids) + ([EndOf(t)] + r)
  {
    hide EventsOfKids;
  }

  lemma {:induction false} SameNode(a: Tree, b: Tree)
    requires IsNode(a) && EventsOf(a)[0] == EventsOf(b)[0]
    ensures if a.ArrTree? then b.ArrTree? else b.ObjTree?
  {}

  lemma {:induction false} SameScalar(a: Tree, b: Tree)
    requires !IsNode(a) && EventsOf(a) != [] && EventsOf(b) != [] && EventsOf(a)[0] == EventsOf(b)[0]
    ensures a == b && |EventsOf(a)| == 1
  {}

  /** The events of the children, up to the end of their container */
  lemma {:induction false} KidsTell(a: seq<Kid>, b: seq<Kid>, r: seq<Event>, q: seq<Event>)
    requires EventsOfKids(a) + r == EventsOfKids(b) + q
    requires r != [] && q != [] && Ends(r[0]) && Ends(q[0])
    ensures a == b && r == q
    decreases a, 0
  {
    if a == [] || b == [] {
      assert EventsOfKids([]) + r == r && EventsOfKids([]) + q == q;
      if a != [] {
        KidsFirst(a, r);
      }
      if b != [] {
        KidsFirst(b, q);
      }
    } else {
      var s := EventsOfKids(a) + r;
      assert a[0].t < a[0];
      KidsSplit(a, r);
      KidsSplit(b, q);
      KeyTells(a[0].key, b[0].key, EventsOf(a[0].t) + (EventsOfKids(a[1..]) + r),
               EventsOf(b[0].t) + (EventsOfKids(b[1..]) + q)) by {
        EventsStart(a[0].t);
        EventsStart(b[0].t);
      }
      EventsTell(a[0].t, b[0].t, EventsOfKids(a[1..]) + r, EventsOfKids(b[1..]) + q);
      KidsTell(a[1..], b[1..], r, q);
      assert a == [a[0]] + a[1..] && b == [b[0]] + b[1..];
    }
  }

  predicate Ends(e: Event) { e.EndArray? || e.EndObject? }

  lemma {:induction false} KidsFirst(a: seq<Kid>, r: seq<Event>)
    requires a != []
    ensures EventsOfKids(a) + r != [] && !Ends((EventsOfKids(a) + r)[0])
  {
    EventsStart(a[0].t);
    hide EventsOf;
  }

  lemma {:induction false} KidsSplit(a: seq<Kid>, r: seq<Event>)
    requires a != []
    ensures EventsOfKids(a) + r == KeyEvent(a[0].key) + (EventsOf(a[0].t) + (EventsOfKids(a[1..]) + r))
  {
    hide EventsOf;
  }

  lemma {:induction false} KeyTells(j: Option<string>, k: Option<string>, r: seq<Event>, q: seq<Event>)
    requires KeyEvent(j) + r == KeyEvent(k) + q && r != [] && q != [] && Starts(r[0]) && Starts(q[0])
    ensures j == k && r == q
  {
    var s := KeyEvent(j) + r;
    assert j.Some? ==> s[0] == Key(j.value) && s[1..] == r;
    assert k.Some? ==> s[0] == Key(k.value) && s[1..] == q;
    assert j.None? ==> s == r;
    assert k.None? ==> s == q;
  }

  lemma {:induction false} SameEvents(a: Tree, b: Tree)
    ensures EventsOf(a) == EventsOf(b) <==> a == b
  {
    if EventsOf(a) == EventsOf(b) {
      assert EventsOf(a) + [] == EventsOf(b) + [];
      EventsTell(a, b, [], []);
    }
  }

  // ----- what the printer shows -----

  /** No floats, integers of 64 bits, and keys in objects only, of characters that the printer does not have to
      escape */
  predicate Placed(t: Tree)
    decreases t
  {
    match t
    case FloatTree(_) => false
    case IntTree(n) => Fits64(n)
    case ArrTree(kids) => PlacedKids(kids, false)
    case ObjTree(kids) => PlacedKids(kids, true)
    case _ => true
  }

  predicate PlacedKids(kids: seq<Kid>, keyed: bool)
    decreases kids
  {
    kids == [] ||
    (assert kids[0].t < kids[0];
     && (if keyed then kids[0].key.Some? && PrintableKey(kids[0].key.value) else kids[0].key.None?)
     && Placed(kids[0].t) && PlacedKids(kids[1..], keyed))
  }

  /** The tree with the same text that has no empty containers: those are written as the number 0. */
  function Shown(t: Tree): Tree
    decreases t
  {
    match t
    case ArrTree(kids) => if kids == [] then IntTree(0) else ArrTree(ShownKids(kids))
    case ObjTree(kids) => if kids == [] then IntTree(0) else ObjTree(ShownKids(kids))
    case _ => t
  }

  function ShownKids(kids: seq<Kid>): (r: seq<Kid>)
    ensures |r| == |kids|
    decreases kids
  {
    if kids == [] then []
    else
      assert kids[0].t < kids[0];
      [Kid(kids[0].key, Shown(kids[0].t))] + ShownKids(kids[1..])
  }

  /** The shown tree is solid, has the same text, and is the tree itself only when that one is solid, too. */
  ghost predicate ShownWell(t: Tree, one: int) {
    && Solid(Shown(t)) && NoFloats(t) && NoFloats(Shown(t)) && (Solid(t) ==> Shown(t) == t)
    && forall key :: NodeText(Kid(key, Shown(t)), one) == NodeText(Kid(key, t), one)
  }

  ghost predicate ShownWellKids(kids: seq<Kid>, keyed: bool, one: int) {
    var shown := ShownKids(kids);
    && SolidKids(shown, keyed) && NoFloatKids(kids) && NoFloatKids(shown) && (SolidKids(kids, keyed) ==> shown == kids)
    && forall b :: ListText(shown, b, one) == ListText(kids, b, one)
  }

  lemma {:induction false} ShownIs(t: Tree, one: int)
    requires Placed(t)
    ensures ShownWell(t, one)
    decreases t, 1
  {
    if IsNode(t) && t.kids != [] {
      ShownKidsAre(t.kids, t.ObjTree?, one);
      hide ListText;
      ShownNode(t, one);
    } else {
      hide ListText;
      ShownScalar(t, one);
    }
  }

  lemma {:induction false} ShownScalar(t: Tree, one: int)
    requires Placed(t) && (IsNode(t) ==> t.kids == [])
    ensures ShownWell(t, one)
  {
    forall key
      ensures NoFloats(t) && NoFloats(Shown(t))
      ensures NodeText(Kid(key, Shown(t)), one) == NodeText(Kid(key, t), one)
    {
      assert ScalarText(IntTree(0), one) == "0";
    }
  }

  lemma {:induction false} ShownNode(t: Tree, one: int)
    requires Placed(t) && IsNode(t) && t.kids != [] && ShownWellKids(t.kids, t.ObjTree?, one)
    ensures ShownWell(t, one)
  {
    var u, b := Shown(t), BracketOf(t);
    assert u.kids == ShownKids(t.kids) && BracketOf(u) == b && IsNode(u);
    assert ListText(u.kids, b, one) == ListText(t.kids, b, one);
    hide ListText;
    hide ShownKids;
    hide SolidKids;
    hide NoFloatKids;
    hide PlacedKids;
  }

  lemma {:induction false} ShownKidsAre(kids: seq<Kid>, keyed: bool, one: int)
    requires PlacedKids(kids, keyed)
    ensures ShownWellKids(kids, keyed, one)
    decreases kids, 0
  {
    if kids != [] {
      assert kids[0].t < kids[0];
      ShownIs(kids[0].t, one);
      ShownKidsAre(kids[1..], keyed, one);
      ShownCons(kids, keyed, one);
    }
  }

  lemma {:induction false} ShownCons(kids: seq<Kid>, keyed: bool, one: int)
    requires kids != [] && PlacedKids(kids, keyed)
    requires ShownWell(kids[0].t, one) && ShownWellKids(kids[1..], keyed, one)
    ensures ShownWellKids(kids, keyed, one)
  {
    var shown := ShownKids(kids);
    var k := kids[0];
    assert shown[0] == Kid(k.key, Shown(k.t)) && shown[1..] == ShownKids(kids[1..]);
    assert kids == [k] + kids[1..] && k == Kid(k.key, k.t);
    hide Solid;
    hide Shown;
    hide NoFloats;
    hide NodeText;
    hide Placed;
    forall b ensures ListText(shown, b, one) == ListText(kids, b, one) {
      ListCons(kids, b, one);
      ListCons(shown, b, one);
      hide ListText;
      hide ShownKids;
    }
  }

  // ----- the whole tree -----

  /** Empty containers do not come back, and nothing that is read back has any. */
  lemma {:induction false} RereadShown(t: Tree, one: int)
    requires Placed(t) && Fits64(one)
    ensures Reread(Shown(t), one) == t <==> Solid(t) && (one == 0 || NoTrue(t))
  {
    ShownIs(t, one);
    RereadSolid(Shown(t), one);
    RereadSame(t, one);
    hide Reread;
    hide Solid;
    hide Shown;
  }

  /** Reading back keeps a tree solid. */
  lemma {:induction false} RereadSolid(t: Tree, one: int)
    requires Solid(t) && Fits64(one)
    ensures Solid(Reread(t, one))
    decreases t, 1
  {
    if IsNode(t) { RereadSolidKids(t.kids, t.ObjTree?, one); }
  }

  lemma {:induction false} RereadSolidKids(kids: seq<Kid>, keyed: bool, one: int)
    requires SolidKids(kids, keyed) && Fits64(one)
    ensures SolidKids(RereadKids(kids, one), keyed) && |RereadKids(kids, one)| == |kids|
    decreases kids, 0
  {
    if kids != [] {
      assert kids[0].t < kids[0];
      RereadSolid(kids[0].t, one);
      RereadSolidKids(kids[1..], keyed, one);
      hide Reread;
      hide Solid;
    }
  }

  lemma {:induction false} PrintableSolid(t: Tree)
    requires Printable(t)
    ensures Solid(t) && Placed(t)
    decreases t, 1
  {
    if IsNode(t) { PrintableSolidKids(t.kids, t.ObjTree?); }
  }

  lemma {:induction false} PrintableSolidKids(kids: seq<Kid>, keyed: bool)
    requires PrintableKids(kids, keyed)
    ensures SolidKids(kids, keyed) && PlacedKids(kids, keyed)
    decreases kids, 0
  {
    if kids != [] {
      assert kids[0].t < kids[0];
      PrintableSolid(kids[0].t);
      PrintableSolidKids(kids[1..], keyed);
      hide Solid;
      hide Placed;
      hide Printable;
    }
  }

  /** A text that does not begin with a bracket is refused at once. */
  lemma {:induction false} ScalarRefused(t: Tree, one: int)
    requires Solid(t) && !IsNode(t)
    ensures NoFloats(t) && Run(START, PrintText(t, one)) == None
  {
    SolidNoFloats(t);
    ScalarNode(t, one);
    ScalarFirst(t, one);
    var text := ScalarText(t, one);
    assert text == [text[0]] + text[1..] && START == At(GO, [Done], []);
    hide Run;
    hide Step;
    hide ScalarText;
    BetweenStep(GO, [Done], [], text[0]);
    RunStop(START, text[0], text[1..]);
  }

  /** The parser gives the tree back from its printed text. */
  ghost predicate ComesBack(t: Tree, one: int)
    requires NoFloats(t)
  {
    var r := Run(START, PrintText(t, one));
    Finished(r) && r.value.events == EventsOf(t)
  }

  lemma {:induction false} ReadBackPlaced(t: Tree, one: int)
    requires Placed(t) && Fits64(one)
    ensures NoFloats(t)
    ensures ComesBack(t, one) <==> IsNode(t) && Printable(t) && TreeDepth(t) <= 15 && (one == 0 || NoTrue(t))
  {
    hide Run;
    hide Reread;
    hide Shown;
    hide EventsOf;
    hide NoTrue;
    hide Placed;
    hide Solid;
    hide NoFloats;
    hide Printable;
    hide TreeDepth;
    ShownIs(t, one);
    var u := Shown(t);
    assert PrintText(u, one) == PrintText(t, one);
    if Printable(t) {
      PrintableSolid(t);
    }
    if !IsNode(u) {
      ScalarRefused(u, one);
    } else if Printable(u) && TreeDepth(u) <= 15 {
      PrintThenParse(u, one);
      SameEvents(Reread(u, one), t);
      RereadShown(t, one);
    } else {
      assert START == At(GO, [Done], []);
      TreeRefused(GO, [Done], [], u, one);
    }
  }

  lemma {:induction false} PlacedIs(t: Tree)
    ensures Placed(t) <==> NoFloats(t) && Ints64(t) && Keyed(t)
    decreases t, 1
  {
    if IsNode(t) { PlacedKidsAre(t.kids, t.ObjTree?); }
  }

  lemma {:induction false} PlacedKidsAre(kids: seq<Kid>, keyed: bool)
    ensures PlacedKids(kids, keyed) <==> NoFloatKids(kids) && Ints64Kids(kids) && KeyedKids(kids, keyed)
    decreases kids, 0
  {
    if kids != [] {
      assert kids[0].t < kids[0];
      PlacedIs(kids[0].t);
      PlacedKidsAre(kids[1..], keyed);
      hide Placed;
      hide NoFloats;
      hide Ints64;
      hide Keyed;
      hide PrintableKey;
    }
  }

  /** The syntax tree of a text that comes back */
  lemma {:induction false} BackDoc(t: Tree, one: int) returns (d: Doc)
    requires NoFloats(t) && ComesBack(t, one)
    ensures ValidDoc(d) && d.Doc? && DocText(d) == PrintText(t, one) && Meaning(d.v) == t
  {
    var text := PrintText(t, one);
    hide Run;
    hide PrintText;
    hide EventsOf;
    hide ValidDoc;
    hide DocText;
    ParsesExactly(text);
    d :| ValidDoc(d) && DocText(d) == text;
    EventsStart(t);
    BlankOrDoc(d, t);
  }

  lemma {:induction false} BlankOrDoc(d: Doc, t: Tree)
    requires ValidDoc(d) && DocEvents(DocMeaning(d)) == EventsOf(t) && EventsOf(t) != []
    ensures d.Doc? && Meaning(d.v) == t
  {
    if d.Doc? { SameEvents(Meaning(d.v), t); }
    hide EventsOf;
    hide Meaning;
  }

  lemma {:induction false} DocParts(d: Doc, t: Tree, one: int)
    requires ValidDoc(d) && d.Doc? && NoFloats(t) && DocText(d) == PrintText(t, one)
    ensures Ws(d.ws0) && Ws(d.ws1) && ValidValue(d.v)
    ensures d.ws0 + (Text(d.v) + d.ws1) == NodeText(Kid(None, t), one)
  {
    hide Text;
    hide NodeText;
    hide NoFloats;
    Reassociate(d.ws0, Text(d.v), d.ws1);
  }

  /** A tree that comes back has keys that are fit to be printed. */
  lemma {:induction false} BackKeyed(t: Tree, one: int)
    requires NoFloats(t) && ComesBack(t, one)
    ensures Keyed(t)
  {
    var d := BackDoc(t, one);
    hide *;
    DocParts(d, t, one);
    var node := NodeText(Kid(None, t), one);
    assert node + "" == node;
    TextFirst(d.v);
    FirstOf(Text(d.v), d.ws1);
    NodeFirst(t, one);
    FirstOf(node, "");
    WhiteNone(d.ws0, Text(d.v) + d.ws1, node);
    WhiteStops(d.ws1);
    ValueAligned(d.v, t, one, d.ws1, "");
  }

  lemma {:induction false} WhiteStops(ws: string)
    requires Ws(ws)
    ensures Stops(ws) && Stops("")
  {}

  /** A tree that the code can hold and that the printer writes without a float comes back from its printed text
      exactly when it is a container without empty containers, nested no deeper than the parser goes, with keys in
      objects only, of characters that the printer does not have to escape, with strings of characters that the parser
      takes back, and without a true node unless those hold 0, as the constructors leave them. */
  lemma {:induction false} ReadBackExactly(t: Tree, one: int)
    requires NoFloats(t) && Ints64(t) && Fits64(one)
    ensures ComesBack(t, one) <==> IsNode(t) && Printable(t) && TreeDepth(t) <= 15 && (one == 0 || NoTrue(t))
  {
    hide *;
    PlacedIs(t);
    if Keyed(t) {
      ReadBackPlaced(t, one);
    } else {
      if ComesBack(t, one) { BackKeyed(t, one); }
      if Printable(t) { PrintableSolid(t); }
    }
  }

  /** A string with a single quote is printed with an escape that the parser does not know. */
  lemma {:induction false} SingleQuoteLost(s: string)
    requires '\'' in s
    ensures var t := ArrTree([Kid(None, StrTree(s))]); NoFloats(t) && Run(START, PrintText(t, 0)) == None
  {
    var t := ArrTree([Kid(None, StrTree(s))]);
    assert !PrintableChar('\'');
    var kids := [Kid(None, StrTree(s))];
    assert kids[0].t == StrTree(s) && kids[1..] == [];
    assert Solid(t) && !PrintableKids(kids, false);
    assert START == At(GO, [Done], []);
    TreeRefused(GO, [Done], [], t, 0);
  }

  /** The printer writes keys as they are: one with a quote may read as two. */
  lemma {:induction false} KeyLost()
    ensures var t := ObjTree([Kid(Some("a\":0,\"b"), IntTree(0))]);
            var u := ObjTree([Kid(Some("a"), IntTree(0)), Kid(Some("b"), IntTree(0))]);
            NoFloats(t) && NoFloats(u) && t != u && PrintText(t, 0) == PrintText(u, 0)
  {
    var k, a, b := Kid(Some("a\":0,\"b"), IntTree(0)), Kid(Some("a"), IntTree(0)), Kid(Some("b"), IntTree(0));
    assert |[k]| == 1 && |[a, b]| == 2;
    assert [k][0] == k && [k][1..] == [] && [a, b][0] == a && [a, b][1..] == [b] && [b][0] == b && [b][1..] == [];
    assert ListText([k], Curly, 0) == "\"a\":0,\"b\":0}";
    assert ListText([b], Curly, 0) == "\"b\":0}" by { assert ListText([], Curly, 0) == ""; }
    assert NodeText(a, 0) == "\"a\":0";
    assert ListText([a, b], Curly, 0) == NodeText(a, 0) + "," + ListText([b], Curly, 0);
  }
}
