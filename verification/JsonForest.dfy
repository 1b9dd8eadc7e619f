/** The trees that the json_set_property_* functions of src/json.c grow: what one more child does to every tree. */
module JsonForests {
  import opened Options
  import opened JsonTable
  import opened JsonGrammar
  import opened JsonBuild
  import opened JsonLayout

  // ----- the pointers of a node to its first and its last child -----

  /** A node without father stands alone; one without next is the last child of its father. */
  predicate ChildOk(nodes: seq<Item>, lasts: seq<Option<nat>>, c: nat)
    requires c < |nodes| == |lasts|
  {
    var x := nodes[c];
    match x.father
    case None => x.next.None? && x.key.None?
    case Some(i) => i < |nodes| && (x.next.None? ==> lasts[i] == Some(c))
  }

  predicate LastOk(nodes: seq<Item>, lasts: seq<Option<nat>>, i: nat)
    requires i < |nodes| == |lasts|
  {
    match lasts[i]
    case None => nodes[i].child.None?
    case Some(l) => nodes[i].child.Some? && l < |nodes| && nodes[l].father == Some(i) && nodes[l].next.None?
  }

  ghost predicate Chained(nodes: seq<Item>, lasts: seq<Option<nat>>) {
    && |nodes| == |lasts|
    && (forall c :: 0 <= c < |nodes| ==> ChildOk(nodes, lasts, c))
    && (forall i :: 0 <= i < |nodes| ==> LastOk(nodes, lasts, i))
  }

  /** The fields of the new child c of the node at. */
  function Adopted(nodes: seq<Item>, at: nat, c: nat, key: Option<string>): seq<Item>
    requires c < |nodes|
  {
    nodes[c := nodes[c].(key := key, father := Some(at))]
  }

  /** The nodes after c has become the last child of the node at. */
  function Attached(nodes: seq<Item>, lasts: seq<Option<nat>>, at: nat, c: nat, key: Option<string>): (r: seq<Item>)
    requires at < |nodes| && c < |nodes| && Chained(nodes, lasts)
    ensures |r| == |nodes|
  {
    var a := Adopted(nodes, at, c, key);
    match lasts[at]
    case None => a[at := a[at].(child := Some(c))]
    case Some(l) => assert LastOk(nodes, lasts, at); a[l := a[l].(next := Some(c))]
  }

  /** A tree that stands alone and another node, to which it can be added. */
  predicate MayAttach(nodes: seq<Item>, at: nat, c: nat) {
    at < |nodes| && c < |nodes| && at != c && nodes[c].father.None? && nodes[at].childType != NullChild
  }

  /** One node afterwards. */
  lemma AttachedAt(nodes: seq<Item>, lasts: seq<Option<nat>>, at: nat, c: nat, key: Option<string>, j: nat)
    requires Chained(nodes, lasts) && MayAttach(nodes, at, c) && j < |nodes|
    ensures var x, r := nodes[j], Attached(nodes, lasts, at, c, key)[j];
            && r == x.(key := r.key, father := r.father, child := r.child, next := r.next)
            && r.key == (if j == c then key else x.key) && r.father == (if j == c then Some(at) else x.father)
            && r.child == (if j == at && x.child.None? then Some(c) else x.child)
            && r.next == (if x.father == Some(at) && x.next.None? then Some(c) else x.next)
  {
    assert ChildOk(nodes, lasts, j) && LastOk(nodes, lasts, at);
    if lasts[at].Some? {
      assert ChildOk(nodes, lasts, lasts[at].value);
    }
  }

  lemma AttachedChild(nodes: seq<Item>, lasts: seq<Option<nat>>, at: nat, c: nat, key: Option<string>, j: nat)
    requires Chained(nodes, lasts) && MayAttach(nodes, at, c) && j < |nodes|
    ensures ChildOk(Attached(nodes, lasts, at, c, key), lasts[at := Some(c)], j)
    ensures LastOk(Attached(nodes, lasts, at, c, key), lasts[at := Some(c)], j)
  {
    hide Attached;
    AttachedAt(nodes, lasts, at, c, key, j);
    AttachedAt(nodes, lasts, at, c, key, c);
    assert ChildOk(nodes, lasts, j) && LastOk(nodes, lasts, j) && ChildOk(nodes, lasts, c);
    if lasts[j].Some? {
      AttachedAt(nodes, lasts, at, c, key, lasts[j].value);
    }
  }

  lemma AttachedChained(nodes: seq<Item>, lasts: seq<Option<nat>>, at: nat, c: nat, key: Option<string>)
    requires Chained(nodes, lasts) && MayAttach(nodes, at, c)
    ensures Chained(Attached(nodes, lasts, at, c, key), lasts[at := Some(c)])
  {
    hide ChildOk;
    hide LastOk;
    var r := Attached(nodes, lasts, at, c, key);
    assert |r| == |nodes| == |lasts[at := Some(c)]|;
    hide Attached;
    var ends := lasts[at := Some(c)];
    forall j | 0 <= j < |nodes| ensures ChildOk(r, ends, j) && LastOk(r, ends, j) {
      AttachedChild(nodes, lasts, at, c, key, j);
    }
  }

  // ----- the trees -----

  function AddKid(t: Tree, kid: Kid): Tree
    requires IsNode(t)
  {
    if t.ArrTree? then ArrTree(t.kids + [kid]) else ObjTree(t.kids + [kid])
  }

  function WithKids(t: Tree, kids: seq<Kid>): Tree
    requires IsNode(t)
  {
    if t.ArrTree? then ArrTree(kids) else ObjTree(kids)
  }

  /** The tree at node i with one more child below the node at. */
  function Grown(nodes: seq<Item>, i: nat, t: Tree, at: nat, kid: Kid): Tree
    decreases t, 1
  {
    if !IsNode(t) || i >= |nodes| then t
    else WithKids(t, GrownKids(nodes, nodes[i].child, t.kids, at, kid) + (if i == at then [kid] else []))
  }

  function GrownKids(nodes: seq<Item>, o: Option<nat>, kids: seq<Kid>, at: nat, kid: Kid): seq<Kid>
    decreases kids, 0
  {
    if kids == [] || o.None? || o.value >= |nodes| then kids
    else
      assert kids[0].t < kids[0];
      [Kid(kids[0].key, Grown(nodes, o.value, kids[0].t, at, kid))]
      + GrownKids(nodes, nodes[o.value].next, kids[1..], at, kid)
  }

  /** The node at is the node i or below it. */
  predicate Within(nodes: seq<Item>, i: nat, t: Tree, at: nat)
    decreases t, 1
  {
    i == at || (IsNode(t) && i < |nodes| && WithinKids(nodes, nodes[i].child, t.kids, at))
  }

  predicate WithinKids(nodes: seq<Item>, o: Option<nat>, kids: seq<Kid>, at: nat)
    decreases kids, 0
  {
    kids != [] && o.Some? && o.value < |nodes|
    && (assert kids[0].t < kids[0];
        Within(nodes, o.value, kids[0].t, at) || WithinKids(nodes, nodes[o.value].next, kids[1..], at))
  }

  /** A tree in which the node does not occur stays as it is. */
  lemma {:induction false} GrownElsewhere(nodes: seq<Item>, i: nat, t: Tree, at: nat, kid: Kid)
    requires !Within(nodes, i, t, at)
    ensures Grown(nodes, i, t, at, kid) == t
    decreases t, 1
  {
    if IsNode(t) && i < |nodes| {
      GrownKidsElsewhere(nodes, nodes[i].child, t.kids, at, kid);
    }
  }

  lemma {:induction false} GrownKidsElsewhere(nodes: seq<Item>, o: Option<nat>, kids: seq<Kid>, at: nat, kid: Kid)
    requires !WithinKids(nodes, o, kids, at)
    ensures GrownKids(nodes, o, kids, at, kid) == kids
    decreases kids, 0
  {
    if kids != [] && o.Some? && o.value < |nodes| {
      assert kids[0].t < kids[0];
      GrownElsewhere(nodes, o.value, kids[0].t, at, kid);
      GrownKidsElsewhere(nodes, nodes[o.value].next, kids[1..], at, kid);
      hide Grown;
      hide GrownKids;
      assert kids == [kids[0]] + kids[1..] && kids[0] == Kid(kids[0].key, kids[0].t);
    }
  }

  /** A node below another one holds a smaller tree. */
  lemma {:induction false} WithinSmaller(nodes: seq<Item>, i: nat, key: Option<string>, t: Tree, at: nat, one: int)
    returns (k: Option<string>, u: Tree)
    requires Rep(nodes, i, key, t, one) && Within(nodes, i, t, at)
    ensures Rep(nodes, at, k, u, one) && Size(u) <= Size(t)
    decreases t, 1
  {
    if i == at {
      k, u := key, t;
    } else {
      k, u := KidsSmaller(nodes, nodes[i].child, t.kids, Some(i), at, one);
    }
  }

  lemma {:induction false} KidsSmaller(nodes: seq<Item>, o: Option<nat>, kids: seq<Kid>, father: Option<nat>, at: nat,
                                       one: int)
    returns (k: Option<string>, u: Tree)
    requires RepKids(nodes, o, kids, father, one) && WithinKids(nodes, o, kids, at)
    ensures Rep(nodes, at, k, u, one) && Size(u) <= KidsSize(kids)
    decreases kids, 0
  {
    assert kids[0].t < kids[0];
    if Within(nodes, o.value, kids[0].t, at) {
      k, u := WithinSmaller(nodes, o.value, kids[0].key, kids[0].t, at, one);
    } else {
      k, u := KidsSmaller(nodes, nodes[o.value].next, kids[1..], father, at, one);
    }
  }

  /** The node itself gets the child at the end, and nothing else below it changes. */
  lemma {:induction false} GrownHere(nodes: seq<Item>, at: nat, key: Option<string>, t: Tree, kid: Kid, one: int)
    requires Rep(nodes, at, key, t, one) && IsNode(t)
    ensures Grown(nodes, at, t, at, kid) == AddKid(t, kid)
  {
    RepBound(nodes, at, key, t, one);
    assert Size(t) == 1 + KidsSize(t.kids);
    if WithinKids(nodes, nodes[at].child, t.kids, at) {
      var k, u := KidsSmaller(nodes, nodes[at].child, t.kids, Some(at), at, one);
      RepUnique(nodes, at, key, t, k, u, one);
      assert false;
    }
    GrownKidsElsewhere(nodes, nodes[at].child, t.kids, at, kid);
  }

  // ----- every tree after a child has been added -----

  lemma {:induction false} RepOne(nodes: seq<Item>, more: seq<Item>, i: nat, t: Tree, u: Tree, one: int)
    requires i < |nodes| == |more| && Holds(nodes[i], t, one)
    requires more[i] == nodes[i].(key := more[i].key, father := more[i].father, child := more[i].child,
                                  next := more[i].next)
    requires IsNode(t) ==> u == WithKids(t, if IsNode(u) then u.kids else [])
    requires !IsNode(t) ==> u == t
    ensures Holds(more[i], u, one)
  {}

  ghost predicate Attaching(nodes: seq<Item>, lasts: seq<Option<nat>>, at: nat, c: nat, kid: Kid, more: seq<Item>) {
    Chained(nodes, lasts) && MayAttach(nodes, at, c) && more == Attached(nodes, lasts, at, c, kid.key)
  }

  lemma {:induction false} AttachingAt(nodes: seq<Item>, lasts: seq<Option<nat>>, at: nat, c: nat, kid: Kid,
                                       more: seq<Item>, j: nat)
    requires Attaching(nodes, lasts, at, c, kid, more) && j < |nodes|
    ensures |more| == |nodes|
    ensures var x, r := nodes[j], more[j];
            && r == x.(key := r.key, father := r.father, child := r.child, next := r.next)
            && r.key == (if j == c then kid.key else x.key) && r.father == (if j == c then Some(at) else x.father)
            && r.child == (if j == at && x.child.None? then Some(c) else x.child)
            && r.next == (if x.father == Some(at) && x.next.None? then Some(c) else x.next)
    ensures nodes[c].father.None? && nodes[c].next.None? && c < |nodes| && at != c && at < |nodes|
    ensures nodes[at].childType != NullChild
  {
    AttachedAt(nodes, lasts, at, c, kid.key, j);
    assert ChildOk(nodes, lasts, c);
  }

  /** A tree at another node, or one without the node that gets the child, is represented after it has grown. */
  lemma {:induction false} GrowRep(nodes: seq<Item>, lasts: seq<Option<nat>>, at: nat, c: nat, kid: Kid,
                                   more: seq<Item>, i: nat, key: Option<string>, t: Tree)
    requires Attaching(nodes, lasts, at, c, kid, more) && Rep(nodes, i, key, t, 0)
    requires Within(nodes, i, t, at) ==> i != c && Rep(more, c, kid.key, kid.t, 0)
    ensures Rep(more, i, if i == c then kid.key else key, Grown(nodes, i, t, at, kid), 0)
    decreases t, 1
  {
    hide Attaching;
    hide Holds;
    RepBound(nodes, i, key, t, 0);
    AttachingAt(nodes, lasts, at, c, kid, more, i);
    var u := Grown(nodes, i, t, at, kid);
    if IsNode(t) {
      GrowKids(nodes, lasts, at, c, kid, more, nodes[i].child, t.kids, i);
      NoChild(nodes, i, t);
    } else {
      ScalarType(nodes[i], t);
    }
    RepOne(nodes, more, i, t, u, 0);
  }

  lemma {:induction false} ScalarType(x: Item, t: Tree)
    requires Holds(x, t, 0)
    ensures IsNode(t) <==> x.childType != NullChild
  {}

  lemma {:induction false} NoChild(nodes: seq<Item>, i: nat, t: Tree)
    requires i < |nodes| && IsNode(t) && RepKids(nodes, nodes[i].child, t.kids, Some(i), 0)
    ensures nodes[i].child.None? <==> t.kids == []
  {}

  lemma {:induction false} GrowKids(nodes: seq<Item>, lasts: seq<Option<nat>>, at: nat, c: nat, kid: Kid,
                                    more: seq<Item>, o: Option<nat>, kids: seq<Kid>, father: nat)
    requires Attaching(nodes, lasts, at, c, kid, more) && RepKids(nodes, o, kids, Some(father), 0)
    requires father == at || WithinKids(nodes, o, kids, at) ==> Rep(more, c, kid.key, kid.t, 0)
    ensures RepKids(more, if kids == [] && father == at then Some(c) else o,
                    GrownKids(nodes, o, kids, at, kid) + (if father == at then [kid] else []), Some(father), 0)
    decreases kids, 0
  {
    hide Attaching;
    hide Rep;
    hide Grown;
    if kids != [] {
      var k := kids[0];
      assert k.t < k;
      RepBound(nodes, o.value, k.key, k.t, 0);
      AttachingAt(nodes, lasts, at, c, kid, more, o.value);
      assert o.value != c;
      GrowRep(nodes, lasts, at, c, kid, more, o.value, k.key, k.t);
      GrowKids(nodes, lasts, at, c, kid, more, nodes[o.value].next, kids[1..], father);
      RepKidsCons(more, o, Kid(k.key, Grown(nodes, o.value, k.t, at, kid)), Some(father),
                  GrownKids(nodes, nodes[o.value].next, kids[1..], at, kid) + (if father == at then [kid] else []));
      assert kids[1..] == [] <==> nodes[o.value].next.None?;
      GrownCons(nodes, o, kids, at, kid, if father == at then [kid] else []);
    } else if father == at {
      OnlyKid(nodes, lasts, at, c, kid, more);
      assert GrownKids(nodes, o, kids, at, kid) + [kid] == [kid];
    } else {
      assert GrownKids(nodes, o, kids, at, kid) + [] == [];
    }
  }

  lemma {:induction false} GrownCons(nodes: seq<Item>, o: Option<nat>, kids: seq<Kid>, at: nat, kid: Kid, e: seq<Kid>)
    requires kids != [] && o.Some? && o.value < |nodes|
    ensures GrownKids(nodes, o, kids, at, kid) + e
         == [Kid(kids[0].key, Grown(nodes, o.value, kids[0].t, at, kid))]
            + (GrownKids(nodes, nodes[o.value].next, kids[1..], at, kid) + e)
  {
    hide Grown;
    assert kids[0].t < kids[0];
  }

  lemma {:induction false} RepKidsCons(nodes: seq<Item>, o: Option<nat>, k: Kid, father: Option<nat>, rest: seq<Kid>)
    requires o.Some? && o.value < |nodes| && nodes[o.value].father == father && Rep(nodes, o.value, k.key, k.t, 0)
    requires RepKids(nodes, nodes[o.value].next, rest, father, 0)
    ensures RepKids(nodes, o, [k] + rest, father, 0)
  {
    hide Rep;
    assert ([k] + rest)[1..] == rest;
  }

  lemma {:induction false} OnlyKid(nodes: seq<Item>, lasts: seq<Option<nat>>, at: nat, c: nat, kid: Kid,
                                   more: seq<Item>)
    requires Attaching(nodes, lasts, at, c, kid, more) && Rep(more, c, kid.key, kid.t, 0)
    ensures RepKids(more, Some(c), [kid], Some(at), 0)
  {
    hide Attaching;
    assert c < |nodes| && |more| == |nodes| by {
      InRange(nodes, lasts, at, c, kid, more);
    }
    AttachingAt(nodes, lasts, at, c, kid, more, c);
    hide Rep;
    assert RepKids(more, None, [], Some(at), 0);
    RepKidsCons(more, Some(c), kid, Some(at), []);
    assert [kid] + [] == [kid];
  }

  lemma {:induction false} InRange(nodes: seq<Item>, lasts: seq<Option<nat>>, at: nat, c: nat, kid: Kid,
                                   more: seq<Item>)
    requires Attaching(nodes, lasts, at, c, kid, more)
    ensures c < |nodes| && |more| == |nodes|
  {}

  // ----- all the trees at once -----

  /** Every node holds its tree. */
  ghost predicate Holding(nodes: seq<Item>, trees: seq<Tree>) {
    |nodes| == |trees| && forall i :: 0 <= i < |nodes| ==> Rep(nodes, i, nodes[i].key, trees[i], 0)
  }

  function AllGrown(nodes: seq<Item>, trees: seq<Tree>, at: nat, kid: Kid): seq<Tree> {
    seq(|trees|, i requires 0 <= i < |trees| => Grown(nodes, i, trees[i], at, kid))
  }

  lemma {:induction false} AllStillHeld(nodes: seq<Item>, lasts: seq<Option<nat>>, trees: seq<Tree>, at: nat, c: nat,
                                        key: Option<string>)
    requires Chained(nodes, lasts) && MayAttach(nodes, at, c) && Holding(nodes, trees)
    requires !Within(nodes, c, trees[c], at)
    ensures Holding(Attached(nodes, lasts, at, c, key), AllGrown(nodes, trees, at, Kid(key, trees[c])))
  {
    var more := Attached(nodes, lasts, at, c, key);
    var kid := Kid(key, trees[c]);
    assert Attaching(nodes, lasts, at, c, kid, more) && |more| == |nodes|;
    hide Attaching;
    hide Attached;
    hide Chained;
    assert Rep(nodes, c, nodes[c].key, trees[c], 0);
    hide Rep;
    hide Grown;
    hide Within;
    GrowRep(nodes, lasts, at, c, kid, more, c, nodes[c].key, trees[c]);
    GrownElsewhere(nodes, c, trees[c], at, kid);
    assert Rep(more, c, key, trees[c], 0);
    forall i | 0 <= i < |nodes| ensures Rep(more, i, more[i].key, Grown(nodes, i, trees[i], at, kid), 0) {
      assert Rep(nodes, i, nodes[i].key, trees[i], 0);
      AttachingAt(nodes, lasts, at, c, kid, more, i);
      GrowRep(nodes, lasts, at, c, kid, more, i, nodes[i].key, trees[i]);
    }
  }

  /** Only the tree of the node and of those above it grow, that of the node itself by the child at its end. */
  lemma {:induction false} GrownMeans(nodes: seq<Item>, trees: seq<Tree>, at: nat, kid: Kid)
    requires Holding(nodes, trees) && at < |nodes| && IsNode(trees[at])
    ensures var grown := AllGrown(nodes, trees, at, kid);
            && |grown| == |trees| && grown[at] == AddKid(trees[at], kid)
            && forall i :: 0 <= i < |trees| && !Within(nodes, i, trees[i], at) ==> grown[i] == trees[i]
  {
    assert Rep(nodes, at, nodes[at].key, trees[at], 0);
    hide Rep;
    hide Grown;
    hide Within;
    GrownHere(nodes, at, nodes[at].key, trees[at], kid, 0);
    forall i | 0 <= i < |trees| && !Within(nodes, i, trees[i], at)
      ensures Grown(nodes, i, trees[i], at, kid) == trees[i]
    {
      GrownElsewhere(nodes, i, trees[i], at, kid);
    }
  }

  // ----- a new node -----

  lemma {:induction false} RepMore(nodes: seq<Item>, x: Item, i: nat, key: Option<string>, t: Tree)
    requires Rep(nodes, i, key, t, 0)
    ensures Rep(nodes + [x], i, key, t, 0)
    decreases t, 1
  {
    if IsNode(t) { RepKidsMore(nodes, x, nodes[i].child, t.kids, Some(i)); }
  }

  lemma {:induction false} RepKidsMore(nodes: seq<Item>, x: Item, o: Option<nat>, kids: seq<Kid>, father: Option<nat>)
    requires RepKids(nodes, o, kids, father, 0)
    ensures RepKids(nodes + [x], o, kids, father, 0)
    decreases kids, 0
  {
    hide Rep;
    if kids != [] {
      assert kids[0].t < kids[0];
      RepMore(nodes, x, o.value, kids[0].key, kids[0].t);
      RepBound(nodes, o.value, kids[0].key, kids[0].t, 0);
      RepKidsMore(nodes, x, nodes[o.value].next, kids[1..], father);
    }
  }

  lemma {:induction false} GrownMore(nodes: seq<Item>, x: Item, i: nat, key: Option<string>, t: Tree, at: nat, kid: Kid)
    requires Rep(nodes, i, key, t, 0)
    ensures Grown(nodes + [x], i, t, at, kid) == Grown(nodes, i, t, at, kid)
    decreases t, 1
  {
    if IsNode(t) { GrownKidsMore(nodes, x, nodes[i].child, t.kids, Some(i), at, kid); }
  }

  lemma {:induction false} GrownKidsMore(nodes: seq<Item>, x: Item, o: Option<nat>, kids: seq<Kid>, father: Option<nat>,
                                         at: nat, kid: Kid)
    requires RepKids(nodes, o, kids, father, 0)
    ensures GrownKids(nodes + [x], o, kids, at, kid) == GrownKids(nodes, o, kids, at, kid)
    decreases kids, 0
  {
    if kids != [] {
      assert kids[0].t < kids[0];
      GrownMore(nodes, x, o.value, kids[0].key, kids[0].t, at, kid);
      RepBound(nodes, o.value, kids[0].key, kids[0].t, 0);
      GrownKidsMore(nodes, x, nodes[o.value].next, kids[1..], father, at, kid);
      hide Grown;
      hide Rep;
    }
  }

  /** A value without children. */
  predicate Bare(t: Tree) { IsNode(t) ==> t.kids == [] }

  /** The node of such a value. */
  function Leaf(t: Tree): Item { JsonLayout.Value(NEW_ITEM, t, 0) }

  lemma {:induction false} OneMore(nodes: seq<Item>, lasts: seq<Option<nat>>, trees: seq<Tree>, t: Tree)
    requires Chained(nodes, lasts) && Holding(nodes, trees) && Bare(t)
    ensures Chained(nodes + [Leaf(t)], lasts + [None])
    ensures Holding(nodes + [Leaf(t)], trees + [t])
  {
    var x := Leaf(t);
    var more := nodes + [x];
    assert x.father.None? && x.next.None? && x.key.None? && x.child.None?;
    assert Rep(more, |nodes|, None, t, 0);
    hide Rep;
    hide Leaf;
    forall j | 0 <= j < |more|
      ensures ChildOk(more, lasts + [None], j) && LastOk(more, lasts + [None], j)
    {
      if j < |nodes| { assert ChildOk(nodes, lasts, j) && LastOk(nodes, lasts, j); }
    }
    forall j | 0 <= j < |more| ensures Rep(more, j, more[j].key, (trees + [t])[j], 0) {
      if j < |nodes| {
        assert Rep(nodes, j, nodes[j].key, trees[j], 0);
        RepMore(nodes, x, j, nodes[j].key, trees[j]);
      }
    }
  }

  /** A new leaf grows every tree as the nodes before it say. */
  lemma {:induction false} LeafGrown(nodes: seq<Item>, lasts: seq<Option<nat>>, trees: seq<Tree>, t: Tree, at: nat,
                                     key: Option<string>)
    requires Chained(nodes, lasts) && Holding(nodes, trees) && !IsNode(t) && at < |nodes|
    ensures AllGrown(nodes + [Leaf(t)], trees + [t], at, Kid(key, t))
         == AllGrown(nodes, trees, at, Kid(key, t)) + [t]
    ensures !Within(nodes + [Leaf(t)], |nodes|, t, at)
  {
    var x, kid := Leaf(t), Kid(key, t);
    var more := nodes + [x];
    assert Grown(more, |nodes|, t, at, kid) == t;
    forall i | 0 <= i < |nodes| ensures Grown(more, i, trees[i], at, kid) == Grown(nodes, i, trees[i], at, kid) {
      assert Rep(nodes, i, nodes[i].key, trees[i], 0);
      hide Rep;
      hide Grown;
      GrownMore(nodes, x, i, nodes[i].key, trees[i], at, kid);
    }
    hide Grown;
    hide Rep;
  }
}
