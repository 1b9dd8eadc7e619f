/** The events of a value make exactly the nodes of its parse tree. */
module JsonLayout {
  import opened Options
  import opened JsonTable
  import opened JsonGrammar
  import opened JsonBuild

  // ----- the nodes of a tree, in the order of their creation -----

  function Size(t: Tree): (n: nat)
    ensures n >= 1
    decreases t
  {
    if IsNode(t) then 1 + KidsSize(t.kids) else 1
  }

  function KidsSize(kids: seq<Kid>): nat
    decreases kids
  {
    if kids == [] then 0
    else
      assert kids[0].t < kids[0];
      Size(kids[0].t) + KidsSize(kids[1..])
  }

  predicate IsNode(t: Tree) { t.ArrTree? || t.ObjTree? }

  /** The fields of a node that hold its value; true is 1 for the callback and 0 for the constructors. */
  function Value(x: Item, t: Tree, one: int): Item {
    match t
    case IntTree(n) => x.(typ := TInteger, int_value := n)
    case FloatTree(text) => x.(typ := TFloat, float_value := text)
    case NullTree => x.(typ := TNull)
    case TrueTree => x.(typ := TTrue, int_value := one)
    case FalseTree => x.(typ := TFalse)
    case StrTree(s) => x.(typ := TString, str := Some(s))
    case ArrTree(_) => x.(childType := ArrChild)
    case ObjTree(_) => x.(childType := ObjChild)
  }

  function Root(t: Tree, key: Option<string>, base: nat, father: Option<nat>, next: Option<nat>): Item {
    Value(NEW_ITEM, t, 1).(key := key, father := father, next := next,
                           child := if IsNode(t) && t.kids != [] then Some(base + 1) else None)
  }

  function Layout(t: Tree, key: Option<string>, base: nat, father: Option<nat>, next: Option<nat>): (s: seq<Item>)
    ensures |s| == Size(t)
    decreases t, 1
  {
    [Root(t, key, base, father, next)] + (if IsNode(t) then LayoutKids(t.kids, base + 1, Some(base)) else [])
  }

  function LayoutKids(kids: seq<Kid>, base: nat, father: Option<nat>): (s: seq<Item>)
    ensures |s| == KidsSize(kids)
    decreases kids, 0
  {
    if kids == [] then []
    else
      assert kids[0].t < kids[0];
      var after := base + Size(kids[0].t);
      Layout(kids[0].t, kids[0].key, base, father, if |kids| == 1 then None else Some(after))
      + LayoutKids(kids[1..], after, father)
  }

  // ----- what the callback makes of the events -----

  /** json_callback on every event in turn; None when it would follow a null pointer. */
  function Fold(cx: Context, es: seq<Event>): Option<Context>
    decreases es
  {
    if es == [] then Some(cx)
    else if !Callable(cx, es[0]) then None
    else Fold(Callback(cx, es[0]), es[1..])
  }

  lemma {:induction false} FoldConcat(cx: Context, a: seq<Event>, b: seq<Event>)
    ensures Fold(cx, a + b) == if Fold(cx, a).None? then None else Fold(Fold(cx, a).value, b)
    decreases a
  {
    if a == [] {
      assert a + b == b;
    } else {
      assert (a + b)[0] == a[0] && (a + b)[1..] == a[1..] + b;
      if Callable(cx, a[0]) { FoldConcat(Callback(cx, a[0]), a[1..], b); }
    }
  }

  /** A context that waits for the next child of a container, or for the root. */
  ghost predicate Waiting(cx: Context) {
    && !cx.keyUnder
    && (cx.current.None? ==> cx.head.None? && cx.nodes == [] && !cx.startDepth)
    && (cx.current.Some? ==> Current(cx) && cx.head.Some?)
  }

  /** The context after one more value. */
  function After(cx: Context, key: Option<string>, t: Tree): Context
    requires cx.current.Some? ==> Current(cx)
  {
    var n := |cx.nodes|;
    Context(false, false, if cx.head.None? then Some(n) else cx.head, Some(n),
            Linked(cx) + Layout(t, key, n, FatherOfNext(cx), None))
  }

  /** A value may come here: an array or an object may also be the root, anything else needs a current node. */
  predicate Fits(cx: Context, key: Option<string>, t: Tree) {
    cx.current.Some? || (key.None? && IsNode(t))
  }

  lemma {:induction false} FoldOne(cx: Context, e: Event)
    requires Callable(cx, e)
    ensures Fold(cx, [e]) == Some(Callback(cx, e))
  {}

  /** The node made for a value, before its value is known. */
  function Made(cx: Context, key: Option<string>): Context
    requires cx.current.Some? ==> Current(cx)
  {
    var a := Append(cx);
    SetCur(a, Cur(a).(key := key))
  }

  /** The filled node is the root of the tree. */
  lemma {:induction false} ScalarNodes(cx: Context, key: Option<string>, t: Tree, e: Event)
    requires Waiting(cx) && cx.current.Some? && !IsNode(t) && EventsOf(t) == [e]
    ensures var m := Made(cx, key);
            Current(m) && Filled(Cur(m), e) == Root(t, key, |cx.nodes|, FatherOfNext(cx), None)
  {}

  lemma {:induction false} OneNode(cx: Context, key: Option<string>, t: Tree, x: Item)
    requires Waiting(cx) && cx.current.Some? && !IsNode(t) && x == Root(t, key, |cx.nodes|, FatherOfNext(cx), None)
    ensures var m := Made(cx, key); Current(m) && SetCur(m, x).nodes == After(cx, key, t).nodes
  {
    hide Root;
    assert Layout(t, key, |cx.nodes|, FatherOfNext(cx), None) == [x] + [];
  }

  /** A scalar event fills the node that has been made for its key, or a new one. */
  lemma {:induction false} FillsMade(cx: Context, key: Option<string>, t: Tree, e: Event)
    requires Waiting(cx) && cx.current.Some? && !IsNode(t) && EventsOf(t) == [e]
    ensures Callable(cx, e) && (key.Some? ==> Callable(cx, Key(key.value)) && Callable(Callback(cx, Key(key.value)), e))
    ensures var m := Made(cx, key);
            Current(m)
            && (if key.Some? then Callback(Callback(cx, Key(key.value)), e) else Callback(cx, e))
               == Context(false, false, cx.head, Some(|cx.nodes|), SetCur(m, Filled(Cur(m), e)).nodes)
  {
    assert |Linked(cx)| == |cx.nodes|;
    hide Filled;
    hide Linked;
    hide FatherOfNext;
    if key.None? {
      assert Made(cx, key).nodes == Append(cx).nodes;
    }
    assert !e.BeginArray? && !e.BeginObject? && !e.EndArray? && !e.EndObject? && !e.Key?;
  }

  lemma {:induction false} FoldTwo(cx: Context, d: Event, e: Event)
    requires Callable(cx, d) && Callable(Callback(cx, d), e)
    ensures Fold(cx, [d] + [e]) == Some(Callback(Callback(cx, d), e))
  {
    hide Callback;
    FoldOne(Callback(cx, d), e);
    assert ([d] + [e])[1..] == [e];
  }

  lemma {:induction false} FoldScalar(cx: Context, key: Option<string>, t: Tree, e: Event)
    requires Waiting(cx) && cx.current.Some? && !IsNode(t) && EventsOf(t) == [e]
    ensures Fold(cx, KeyEvent(key) + EventsOf(t)) == Some(After(cx, key, t))
  {
    FillsMade(cx, key, t, e);
    ScalarNodes(cx, key, t, e);
    OneNode(cx, key, t, Filled(Cur(Made(cx, key)), e));
    hide Fold;
    hide Callback;
    hide Made;
    hide Filled;
    hide SetCur;
    hide Layout;
    if key.Some? {
      FoldTwo(cx, Key(key.value), e);
    } else {
      FoldOne(cx, e);
      assert KeyEvent(key) + [e] == [e];
    }
  }

  /** A container that has just begun. */
  function Begun(cx: Context, key: Option<string>, t: Tree): Context
    requires cx.current.Some? ==> Current(cx)
  {
    var n := |cx.nodes|;
    Context(false, true, if cx.head.None? then Some(n) else cx.head, Some(n),
            Linked(cx) + [Root(t, key, n, FatherOfNext(cx), None).(child := None)])
  }

  function BeginOf(t: Tree): Event
    requires IsNode(t)
  {
    if t.ArrTree? then BeginArray else BeginObject
  }

  function EndOf(t: Tree): Event
    requires IsNode(t)
  {
    if t.ArrTree? then EndArray else EndObject
  }

  /** The node of the container, before it has children. */
  lemma {:induction false} BegunNodes(cx: Context, key: Option<string>, t: Tree)
    requires Waiting(cx) && IsNode(t) && Fits(cx, key, t)
    ensures var m, ct := Made(cx, key), if t.ArrTree? then ArrChild else ObjChild;
            Current(m) && SetCur(m, Cur(m).(childType := ct)).nodes == Begun(cx, key, t).nodes
  {
    assert |Linked(cx)| == |cx.nodes|;
    hide Linked;
    hide FatherOfNext;
    var ct := if t.ArrTree? then ArrChild else ObjChild;
    assert Cur(Made(cx, key)).(childType := ct) == Root(t, key, |cx.nodes|, FatherOfNext(cx), None).(child := None);
  }

  /** The opening event makes the node, or takes the one that has been made for the key. */
  lemma {:induction false} BeginsMade(cx: Context, key: Option<string>, t: Tree)
    requires Waiting(cx) && IsNode(t) && Fits(cx, key, t)
    ensures var e := BeginOf(t);
            Callable(cx, e) && (key.Some? ==> Callable(cx, Key(key.value)) && Callable(Callback(cx, Key(key.value)), e))
    ensures var m, ct := Made(cx, key), if t.ArrTree? then ArrChild else ObjChild;
            Current(m)
            && (if key.Some? then Callback(Callback(cx, Key(key.value)), BeginOf(t)) else Callback(cx, BeginOf(t)))
               == Context(false, true, if cx.head.None? then Some(|cx.nodes|) else cx.head, Some(|cx.nodes|),
                          SetCur(m, Cur(m).(childType := ct)).nodes)
  {
    assert |Linked(cx)| == |cx.nodes|;
    hide Linked;
    hide FatherOfNext;
    if key.None? {
      assert Made(cx, key).nodes == Append(cx).nodes;
    }
  }

  lemma {:induction false} FoldBegin(cx: Context, key: Option<string>, t: Tree)
    requires Waiting(cx) && IsNode(t) && Fits(cx, key, t)
    ensures Fold(cx, KeyEvent(key) + [BeginOf(t)]) == Some(Begun(cx, key, t))
  {
    BeginsMade(cx, key, t);
    BegunNodes(cx, key, t);
    hide Fold;
    hide Callback;
    hide Made;
    hide SetCur;
    hide Root;
    if key.Some? {
      FoldTwo(cx, Key(key.value), BeginOf(t));
    } else {
      FoldOne(cx, BeginOf(t));
      assert KeyEvent(key) + [BeginOf(t)] == [BeginOf(t)];
    }
  }

  function LastBase(kids: seq<Kid>, base: nat): (n: nat)
    requires kids != []
    ensures base <= n < base + KidsSize(kids)
    decreases kids
  {
    if |kids| == 1 then base
    else
      assert kids[0].t < kids[0];
      LastBase(kids[1..], base + Size(kids[0].t))
  }

  /** The context after some more children. */
  function AfterKids(cx: Context, kids: seq<Kid>): Context
    requires Current(cx) && kids != []
  {
    var n := |cx.nodes|;
    Context(false, false, cx.head, Some(LastBase(kids, n)), Linked(cx) + LayoutKids(kids, n, FatherOfNext(cx)))
  }

  lemma {:induction false} LayoutFather(t: Tree, key: Option<string>, base: nat, father: Option<nat>, next: Option<nat>)
    ensures Layout(t, key, base, father, next)[0].father == father
  {}

  lemma {:induction false} LastFather(kids: seq<Kid>, base: nat, father: Option<nat>)
    requires kids != []
    ensures LayoutKids(kids, base, father)[LastBase(kids, base) - base].father == father
    decreases kids
  {
    hide Layout;
    hide Size;
    var n := Size(kids[0].t);
    if |kids| == 1 {
      LayoutFather(kids[0].t, kids[0].key, base, father, None);
    } else {
      var rest := LayoutKids(kids[1..], base + n, father);
      LastFather(kids[1..], base + n, father);
      var i := LastBase(kids[1..], base + n) - (base + n);
      assert LayoutKids(kids, base, father)[n + i] == rest[i];
    }
  }

  /** Linking the next child to the one just made sets the next pointer of that one. */
  lemma {:induction false} LinkAfter(cx: Context, key: Option<string>, t: Tree)
    requires Waiting(cx) && cx.current.Some?
    ensures var a, n := After(cx, key, t), |cx.nodes|;
            && Waiting(a) && a.current == Some(n) && |a.nodes| == n + Size(t) && FatherOfNext(a) == FatherOfNext(cx)
            && Linked(a) == Linked(cx) + Layout(t, key, n, FatherOfNext(cx), Some(n + Size(t)))
  {
    hide LayoutKids;
    hide Size;
    var a, n, f := After(cx, key, t), |cx.nodes|, FatherOfNext(cx);
    LayoutFather(t, key, n, f, None);
    LayoutNext(t, key, n, f, Some(n + Size(t)));
    hide Layout;
    var l := Layout(t, key, n, f, None);
    assert a.nodes[n] == l[0];
    assert |Linked(cx)| == n;
    assert Linked(a) == Linked(cx) + l[0 := l[0].(next := Some(n + Size(t)))];
  }

  lemma {:induction false} LayoutNext(t: Tree, key: Option<string>, base: nat, father: Option<nat>, next: Option<nat>)
    ensures var l := Layout(t, key, base, father, None);
            Layout(t, key, base, father, next) == l[0 := l[0].(next := next)]
  {
    hide LayoutKids;
  }

  lemma {:induction false} KidsStep(cx: Context, kids: seq<Kid>)
    requires Waiting(cx) && cx.current.Some? && kids != []
    ensures var a := After(cx, kids[0].key, kids[0].t);
            && Waiting(a) && a.current.Some?
            && AfterKids(cx, kids) == if |kids| == 1 then a else AfterKids(a, kids[1..])
  {
    hide Layout;
    hide Linked;
    var k, n := kids[0], |cx.nodes|;
    var a := After(cx, k.key, k.t);
    LinkAfter(cx, k.key, k.t);
    if |kids| == 1 {
      assert kids[1..] == [];
      assert LayoutKids(kids, n, FatherOfNext(cx)) == Layout(k.t, k.key, n, FatherOfNext(cx), None);
    } else {
      assert AfterKids(cx, kids).nodes == AfterKids(a, kids[1..]).nodes;
    }
  }

  lemma {:induction false} FoldKids(cx: Context, kids: seq<Kid>)
    requires Waiting(cx) && cx.current.Some? && kids != []
    ensures Fold(cx, EventsOfKids(kids)) == Some(AfterKids(cx, kids))
    decreases kids, 0
  {
    hide Fold;
    hide AfterKids;
    hide After;
    var k, n := kids[0], |cx.nodes|;
    assert k.t < k;
    var a := After(cx, k.key, k.t);
    var first := KeyEvent(k.key) + EventsOf(k.t);
    FoldValue(cx, k.key, k.t);
    FoldConcat(cx, first, EventsOfKids(kids[1..]));
    KidsStep(cx, kids);
    if |kids| == 1 {
      assert kids[1..] == [];
      FoldNothing(a);
    } else {
      FoldKids(a, kids[1..]);
    }
  }

  lemma {:induction false} FoldNothing(cx: Context)
    ensures Fold(cx, []) == Some(cx)
  {}

  lemma {:induction false} EndCallback(cx: Context, e: Event)
    requires Current(cx) && !cx.keyUnder && cx.head.Some? && (e.EndArray? || e.EndObject?)
    ensures Callable(cx, e) && Fold(cx, [e]) == Some(EndNode(cx))
  {
    FoldOne(cx, e);
  }

  /** The closing bracket leads back to the container. */
  lemma {:induction false} FoldEndEmpty(cx: Context, key: Option<string>, t: Tree)
    requires Waiting(cx) && IsNode(t) && Fits(cx, key, t) && t.kids == []
    ensures Fold(Begun(cx, key, t), [EndOf(t)]) == Some(After(cx, key, t))
  {
    hide Fold;
    hide Callback;
    EndCallback(Begun(cx, key, t), EndOf(t));
    assert EndNode(Begun(cx, key, t)).nodes == After(cx, key, t).nodes;
  }

  lemma {:induction false} BegunLinked(cx: Context, key: Option<string>, t: Tree)
    requires Waiting(cx) && IsNode(t) && Fits(cx, key, t) && t.kids != []
    ensures var b, n := Begun(cx, key, t), |cx.nodes|;
            && Current(b) && FatherOfNext(b) == Some(n) && |b.nodes| == n + 1
            && Linked(b) == Linked(cx) + [Root(t, key, n, FatherOfNext(cx), None)]
  {}

  lemma {:induction false} FoldEnd(cx: Context, key: Option<string>, t: Tree)
    requires Waiting(cx) && IsNode(t) && Fits(cx, key, t) && t.kids != []
    ensures Current(Begun(cx, key, t))
    ensures Fold(AfterKids(Begun(cx, key, t), t.kids), [EndOf(t)]) == Some(After(cx, key, t))
  {
    hide Fold;
    hide Callback;
    hide LayoutKids;
    hide Linked;
    hide Root;
    hide LastBase;
    var b, n := Begun(cx, key, t), |cx.nodes|;
    BegunLinked(cx, key, t);
    var c := AfterKids(b, t.kids);
    LastFather(t.kids, n + 1, Some(n));
    assert Cur(c) == LayoutKids(t.kids, n + 1, Some(n))[LastBase(t.kids, n + 1) - (n + 1)];
    EndCallback(c, EndOf(t));
    assert c.nodes == After(cx, key, t).nodes;
  }

  lemma {:induction false} NodeEvents(key: Option<string>, t: Tree)
    requires IsNode(t)
    ensures KeyEvent(key) + EventsOf(t) == (KeyEvent(key) + [BeginOf(t)]) + (EventsOfKids(t.kids) + [EndOf(t)])
    ensures EventsOfKids([]) == []
  {}

  lemma {:induction false} ScalarEvents(t: Tree)
    requires !IsNode(t)
    ensures |EventsOf(t)| == 1 && EventsOf(t) == [EventsOf(t)[0]]
  {}

  lemma {:induction false} BegunWaits(cx: Context, key: Option<string>, t: Tree)
    requires Waiting(cx) && IsNode(t) && Fits(cx, key, t)
    ensures Waiting(Begun(cx, key, t)) && Current(Begun(cx, key, t))
  {}

  lemma {:induction false} FoldValue(cx: Context, key: Option<string>, t: Tree)
    requires Waiting(cx) && Fits(cx, key, t)
    ensures Fold(cx, KeyEvent(key) + EventsOf(t)) == Some(After(cx, key, t))
    decreases t, 1
  {
    hide *;
    if IsNode(t) {
      FoldNode(cx, key, t);
    } else {
      ScalarEvents(t);
      FitsScalar(cx, key, t);
      FoldScalar(cx, key, t, EventsOf(t)[0]);
    }
  }

  lemma {:induction false} FitsScalar(cx: Context, key: Option<string>, t: Tree)
    requires Fits(cx, key, t) && !IsNode(t)
    ensures cx.current.Some?
  {}

  lemma {:induction false} FoldNode(cx: Context, key: Option<string>, t: Tree)
    requires Waiting(cx) && Fits(cx, key, t) && IsNode(t)
    ensures Fold(cx, KeyEvent(key) + EventsOf(t)) == Some(After(cx, key, t))
    decreases t, 0
  {
    hide Fold;
    hide Linked;
    hide Layout;
    hide LayoutKids;
    hide Root;
    hide EventsOf;
    hide EventsOfKids;
    hide KeyEvent;
    hide Begun;
    hide AfterKids;
    hide After;
    var b := Begun(cx, key, t);
    var open, kids, close := KeyEvent(key) + [BeginOf(t)], EventsOfKids(t.kids), [EndOf(t)];
    NodeEvents(key, t);
    FoldBegin(cx, key, t);
    BegunWaits(cx, key, t);
    FoldConcat(cx, open, kids + close);
    FoldConcat(b, kids, close);
    if t.kids == [] {
      FoldNothing(b);
      FoldEndEmpty(cx, key, t);
    } else {
      FoldEnd(cx, key, t);
      FoldKids(b, t.kids);
    }
  }

  // ----- pointers that represent a tree -----

  /** The node holds the value of t: everything but its pointers and its key. */
  predicate Holds(x: Item, t: Tree, one: int) {
    var v := Value(NEW_ITEM, t, one);
    x.typ == v.typ && x.int_value == v.int_value && x.float_value == v.float_value && x.str == v.str
    && x.childType == v.childType
  }

  /** Node i with all that hangs below it is the tree t. */
  predicate Rep(nodes: seq<Item>, i: nat, key: Option<string>, t: Tree, one: int)
    decreases t, 1
  {
    i < |nodes| && nodes[i].key == key && Holds(nodes[i], t, one)
    && (if IsNode(t) then RepKids(nodes, nodes[i].child, t.kids, Some(i), one) else nodes[i].child.None?)
  }

  /** The next pointers from o on lead through exactly these children of the father. */
  predicate RepKids(nodes: seq<Item>, o: Option<nat>, kids: seq<Kid>, father: Option<nat>, one: int)
    decreases kids, 0
  {
    if kids == [] then o.None?
    else
      assert kids[0].t < kids[0];
      && o.Some? && o.value < |nodes| && nodes[o.value].father == father
      && Rep(nodes, o.value, kids[0].key, kids[0].t, one)
      && RepKids(nodes, nodes[o.value].next, kids[1..], father, one)
  }

  /** The nodes at base are those of the tree. */
  ghost predicate LaidOut(nodes: seq<Item>, base: nat, part: seq<Item>) {
    base + |part| <= |nodes| && nodes[base..base + |part|] == part
  }

  lemma {:induction false} LaidOutSplit(nodes: seq<Item>, base: nat, a: seq<Item>, b: seq<Item>)
    requires LaidOut(nodes, base, a + b)
    ensures LaidOut(nodes, base, a) && LaidOut(nodes, base + |a|, b)
  {
    var all := nodes[base..base + |a + b|];
    assert all[..|a|] == a && all[|a|..] == b;
    assert nodes[base..base + |a|] == all[..|a|];
    assert nodes[base + |a|..base + |a| + |b|] == all[|a|..];
  }

  lemma {:induction false} RootHolds(t: Tree, key: Option<string>, base: nat, father: Option<nat>, next: Option<nat>)
    ensures var r := Root(t, key, base, father, next);
            && Holds(r, t, 1) && r.key == key && r.father == father && r.next == next
            && r.child == if IsNode(t) && t.kids != [] then Some(base + 1) else None
  {}

  lemma {:induction false} LayoutRep(nodes: seq<Item>, t: Tree, key: Option<string>, base: nat, father: Option<nat>,
                                     next: Option<nat>)
    requires LaidOut(nodes, base, Layout(t, key, base, father, next))
    ensures Rep(nodes, base, key, t, 1) && nodes[base].father == father && nodes[base].next == next
    decreases t, 1
  {
    hide Root;
    hide Holds;
    hide LaidOut;
    hide LayoutKids;
    hide RepKids;
    RootHolds(t, key, base, father, next);
    var r := Root(t, key, base, father, next);
    if !IsNode(t) {
      assert Layout(t, key, base, father, next) == [r];
      LaidOutHead(nodes, base, r, []);
    } else {
      LaidOutHead(nodes, base, r, LayoutKids(t.kids, base + 1, Some(base)));
      LaidOutSplit(nodes, base, [r], LayoutKids(t.kids, base + 1, Some(base)));
      KidsRep(nodes, t.kids, base + 1, Some(base));
    }
  }

  lemma {:induction false} LaidOutHead(nodes: seq<Item>, base: nat, r: Item, rest: seq<Item>)
    requires LaidOut(nodes, base, [r] + rest) || (rest == [] && LaidOut(nodes, base, [r]))
    ensures base < |nodes| && nodes[base] == r
  {
    if rest == [] {
      assert [r] + rest == [r];
    }
    var part := [r] + rest;
    assert nodes[base..base + |part|][0] == part[0];
  }

  lemma {:induction false} KidsRep(nodes: seq<Item>, kids: seq<Kid>, base: nat, father: Option<nat>)
    requires LaidOut(nodes, base, LayoutKids(kids, base, father))
    ensures RepKids(nodes, if kids == [] then None else Some(base), kids, father, 1)
    decreases kids, 0
  {
    hide Rep;
    hide Layout;
    hide LaidOut;
    if kids != [] {
      var k := kids[0];
      assert k.t < k;
      var after := base + Size(k.t);
      var next := if |kids| == 1 then None else Some(after);
      var first := Layout(k.t, k.key, base, father, next);
      LaidOutSplit(nodes, base, first, LayoutKids(kids[1..], after, father));
      LayoutRep(nodes, k.t, k.key, base, father, next);
      KidsRep(nodes, kids[1..], after, father);
      assert Rep(nodes, base, k.key, k.t, 1);
      RepBound(nodes, base, k.key, k.t, 1);
    }
  }

  lemma {:induction false} RepBound(nodes: seq<Item>, i: nat, key: Option<string>, t: Tree, one: int)
    requires Rep(nodes, i, key, t, one)
    ensures i < |nodes| && nodes[i].key == key && Holds(nodes[i], t, one)
    ensures IsNode(t) ==> RepKids(nodes, nodes[i].child, t.kids, Some(i), one)
  {}

  /** Pointers represent at most one tree. */
  lemma {:induction false} RepUnique(nodes: seq<Item>, i: nat, k1: Option<string>, t1: Tree, k2: Option<string>,
                                     t2: Tree, one: int)
    requires Rep(nodes, i, k1, t1, one) && Rep(nodes, i, k2, t2, one)
    ensures k1 == k2 && t1 == t2
    decreases t1, 1
  {
    if IsNode(t1) && IsNode(t2) {
      KidsUnique(nodes, nodes[i].child, t1.kids, t2.kids, Some(i), one);
    }
  }

  lemma {:induction false} KidsUnique(nodes: seq<Item>, o: Option<nat>, ks1: seq<Kid>, ks2: seq<Kid>,
                                      father: Option<nat>, one: int)
    requires RepKids(nodes, o, ks1, father, one) && RepKids(nodes, o, ks2, father, one)
    ensures ks1 == ks2
    decreases ks1, 0
  {
    hide Rep;
    if ks1 != [] {
      assert ks1[0].t < ks1[0];
      RepUnique(nodes, o.value, ks1[0].key, ks1[0].t, ks2[0].key, ks2[0].t, one);
      KidsUnique(nodes, nodes[o.value].next, ks1[1..], ks2[1..], father, one);
      assert ks1 == [ks1[0]] + ks1[1..] && ks2 == [ks2[0]] + ks2[1..];
    }
  }

  /** From a fresh context, the events of a container make the tree and no other node. */
  lemma {:induction false} FoldRoot(t: Tree)
    requires IsNode(t)
    ensures var r := Fold(NEW_CONTEXT, EventsOf(t));
            && r.Some? && r.value.head == Some(0) && r.value.nodes == Layout(t, None, 0, None, None)
            && Rep(r.value.nodes, 0, None, t, 1) && r.value.nodes[0].father.None? && r.value.nodes[0].next.None?
  {
    hide Fold;
    hide Layout;
    hide Rep;
    FoldValue(NEW_CONTEXT, None, t);
    assert KeyEvent(None) + EventsOf(t) == EventsOf(t);
    var nodes := Layout(t, None, 0, None, None);
    assert [] + nodes == nodes;
    assert LaidOut(nodes, 0, nodes);
    LayoutRep(nodes, t, None, 0, None, None);
  }
}
