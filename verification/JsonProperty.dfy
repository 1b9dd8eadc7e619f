/** The functions of src/json.c that make trees: json_new_object, json_new_array and json_set_property_*. */
module JsonProperties {
  import opened Options
  import opened JsonTable
  import opened JsonGrammar
  import opened JsonBuild
  import opened JsonLayout
  import opened JsonContexts
  import opened JsonForests

  lemma LeafBare(t: Tree)
    requires !IsNode(t)
    ensures Bare(t) && Leaf(t).father.None?
  {}

  function Truth(value: int): Tree { if value != 0 then TrueTree else FalseTree }

  /** The nodes made so far, which the code leaves to its callers. */
  class JsonNodes {
    /** The nodes in the order of their creation, what they are as records, and the last child of each. */
    ghost var items: seq<JsonItem>
    ghost var nodes: seq<Item>
    ghost var lasts: seq<Option<nat>>
    /** The tree that each node holds. */
    ghost var trees: seq<Tree>

    ghost predicate LastsShown()
      reads this, items
    {
      |items| == |lasts| && forall i :: 0 <= i < |items| ==> Points(items, items[i].last, lasts[i])
    }

    ghost predicate Valid()
      reads this, items
    {
      && ShowAll(items, nodes) && LastsShown()
      && Chained(nodes, lasts) && Holding(nodes, trees)
    }

    constructor ()
      ensures Valid() && items == [] && trees == []
    {
      items, nodes, lasts, trees := [], [], [], [];
    }

    /** x, a node without pointers that holds a value, is one more node. */
    ghost method Register(x: JsonItem, t: Tree)
      requires Valid() && x !in items && Bare(t)
      requires Shows([], x, Leaf(t)) && x.last == null
      modifies this
      ensures Valid() && items == old(items) + [x] && nodes == old(nodes) + [Leaf(t)] && lasts == old(lasts) + [None]
      ensures trees == old(trees) + [t]
    {
      OneMore(nodes, lasts, trees, t);
      var more := items + [x];
      forall i | 0 <= i < |more| ensures Shows(more, more[i], (nodes + [Leaf(t)])[i]) {
        if i < |items| { assert Shows(items, items[i], nodes[i]); }
      }
      hide Leaf;
      items, nodes, lasts, trees := more, nodes + [Leaf(t)], lasts + [None], trees + [t];
    }

    /** json_new_object */
    method NewObject() returns (obj: JsonItem)
      requires Valid()
      modifies this
      ensures Valid() && fresh(obj) && items == old(items) + [obj] && trees == old(trees) + [ObjTree([])]
      ensures nodes == old(nodes) + [Leaf(ObjTree([]))]
    {
      obj := new JsonItem();
      obj.childType := ObjChild;
      Register(obj, ObjTree([]));
    }

    /** json_new_array */
    method NewArray() returns (obj: JsonItem)
      requires Valid()
      modifies this
      ensures Valid() && fresh(obj) && items == old(items) + [obj] && trees == old(trees) + [ArrTree([])]
      ensures nodes == old(nodes) + [Leaf(ArrTree([]))]
    {
      obj := new JsonItem();
      obj.childType := ArrChild;
      Register(obj, ArrTree([]));
    }

    /** The child points to its father and takes its key. */
    method Adopt(value: JsonItem, key: Option<string>, obj: JsonItem, ghost at: nat, ghost c: nat)
      requires ShowAll(items, nodes) && LastsShown()
      requires at < |items| && obj == items[at] && c < |items| && value == items[c]
      modifies value
      ensures c < |nodes| && ShowAll(items, Adopted(nodes, at, c, key)) && LastsShown()
    {
      hide ShowAll;
      ShowsAt(items, nodes, c);
      value.key, value.father := key, obj;
      OneChanged(items, nodes, c, nodes[c].(key := key, father := Some(at)));
    }

    /** What the pointers of obj say before the child is linked. */
    lemma LinkFields(obj: JsonItem, at: nat, c: nat, key: Option<string>)
      requires at < |items| && obj == items[at] && c < |nodes| && at != c && Chained(nodes, lasts) && LastsShown()
      requires ShowAll(items, Adopted(nodes, at, c, key))
      ensures |items| == |nodes| == |lasts| && Shows(items, obj, nodes[at])
      ensures obj.child == null <==> lasts[at].None?
      ensures lasts[at].Some? ==> obj.last != null && lasts[at].value < |items| && obj.last == items[lasts[at].value]
      ensures lasts[at].Some? ==> Shows(items, items[lasts[at].value], Adopted(nodes, at, c, key)[lasts[at].value])
    {
      ShowsAt(items, Adopted(nodes, at, c, key), at);
      assert LastOk(nodes, lasts, at);
      assert Points(items, items[at].last, lasts[at]);
      if lasts[at].Some? {
        ShowsAt(items, Adopted(nodes, at, c, key), lasts[at].value);
      }
    }

    /** The first child of obj, or the last one so far, leads to the new one. */
    method Link(obj: JsonItem, value: JsonItem, ghost at: nat, ghost c: nat, ghost key: Option<string>)
      requires at < |items| && obj == items[at] && c < |nodes| && at != c && Chained(nodes, lasts) && LastsShown()
      requires ShowAll(items, Adopted(nodes, at, c, key)) && c < |items| && value == items[c]
      modifies items
      ensures |nodes| == |items| && ShowAll(items, Attached(nodes, lasts, at, c, key)) && LastsShown()
    {
      LinkFields(obj, at, c, key);
      ghost var a := Adopted(nodes, at, c, key);
      hide ShowAll;
      hide Chained;
      if obj.child == null {
        obj.child := value;
        OneChanged(items, a, at, a[at].(child := Some(c)));
      } else {
        ghost var l := lasts[at].value;
        obj.last.next := value;
        OneChanged(items, a, l, a[l].(next := Some(c)));
      }
    }

    /** The new child is the last one. */
    method SetLast(obj: JsonItem, value: JsonItem, ghost at: nat, ghost c: nat, ghost now: seq<Item>)
      requires at < |items| && obj == items[at] && c < |items| && value == items[c]
      requires ShowAll(items, now) && LastsShown()
      modifies obj
      ensures ShowAll(items, now)
      ensures forall i :: 0 <= i < |items| ==> Points(items, items[i].last, lasts[at := Some(c)][i])
    {
      ShowsAt(items, now, at);
      assert forall i :: 0 <= i < |items| && i != at ==> items[i] != obj;
      obj.last := value;
      hide ShowAll;
      OneChanged(items, now, at, now[at]);
    }

    /** json_set_property_objN: the value, a tree of its own, is the last child of obj from now on. */
    method SetPropertyObj(obj: JsonItem, key: Option<string>, value: JsonItem, ghost at: nat, ghost c: nat)
      requires Valid() && at < |items| && obj == items[at] && c < |items| && value == items[c]
      requires |nodes| == |trees| == |items| && nodes[c].father.None? && IsNode(trees[at])
      requires !Within(nodes, c, trees[c], at)
      modifies this, items
      ensures Valid() && items == old(items) && nodes == Attached(old(nodes), old(lasts), at, c, key)
      ensures trees == AllGrown(old(nodes), old(trees), at, Kid(key, old(trees)[c]))
    {
      hide *;
      ghost var now, t := Attaches(at, c, key);
      Place(obj, value, key, at, c);
      Settle(at, c, now, t);
    }

    /** The three pointers and the key. */
    method Place(obj: JsonItem, value: JsonItem, key: Option<string>, ghost at: nat, ghost c: nat)
      requires at < |items| && obj == items[at] && c < |items| && value == items[c]
      requires Chained(nodes, lasts) && MayAttach(nodes, at, c) && ShowAll(items, nodes) && LastsShown()
      modifies items
      ensures |nodes| == |items| == |lasts| && ShowAll(items, Attached(nodes, lasts, at, c, key))
      ensures forall i :: 0 <= i < |items| ==> Points(items, items[i].last, lasts[at := Some(c)][i])
    {
      hide ShowAll;
      hide Chained;
      hide Attached;
      hide Adopted;
      hide Points;
      Adopt(value, key, obj, at, c);
      Link(obj, value, at, c, key);
      SetLast(obj, value, at, c, Attached(nodes, lasts, at, c, key));
    }

    lemma Attaches(at: nat, c: nat, key: Option<string>) returns (now: seq<Item>, t: seq<Tree>)
      requires Valid() && at < |items| && c < |items| && |nodes| == |trees| == |items|
      requires nodes[c].father.None? && IsNode(trees[at]) && !Within(nodes, c, trees[c], at)
      ensures Chained(nodes, lasts) && MayAttach(nodes, at, c) && ShowAll(items, nodes) && LastsShown()
      ensures now == Attached(nodes, lasts, at, c, key) && t == AllGrown(nodes, trees, at, Kid(key, trees[c]))
      ensures Chained(now, lasts[at := Some(c)]) && Holding(now, t)
    {
      TakesChild(at, c);
      AllStillHeld(nodes, lasts, trees, at, c, key);
      AttachedChained(nodes, lasts, at, c, key);
      now, t := Attached(nodes, lasts, at, c, key), AllGrown(nodes, trees, at, Kid(key, trees[c]));
    }

    ghost method Settle(at: nat, c: nat, now: seq<Item>, t: seq<Tree>)
      requires at < |items| && c < |items| && |items| == |lasts|
      requires ShowAll(items, now) && Chained(now, lasts[at := Some(c)]) && Holding(now, t)
      requires forall i :: 0 <= i < |items| ==> Points(items, items[i].last, lasts[at := Some(c)][i])
      modifies this
      ensures Valid() && items == old(items) && nodes == now && trees == t && lasts == old(lasts)[at := Some(c)]
    {
      hide ShowAll;
      hide Chained;
      hide Holding;
      nodes, lasts, trees := now, lasts[at := Some(c)], t;
    }

    lemma TakesChild(at: nat, c: nat)
      requires Valid() && at < |items| && c < |items| && |nodes| == |trees| == |items|
      requires nodes[c].father.None? && IsNode(trees[at]) && !Within(nodes, c, trees[c], at)
      ensures MayAttach(nodes, at, c) && |nodes| == |lasts|
    {
      assert Rep(nodes, at, nodes[at].key, trees[at], 0);
      RepBound(nodes, at, nodes[at].key, trees[at], 0);
      ScalarType(nodes[at], trees[at]);
    }

    lemma Sizes()
      requires Valid()
      ensures |items| == |nodes| == |lasts| == |trees|
    {}

    /** What each of the functions below ends with: x, a node that holds a value, becomes the last child of obj. */
    method AddLeaf(obj: JsonItem, key: Option<string>, x: JsonItem, ghost t: Tree, ghost at: nat)
      requires Valid() && at < |items| == |trees| && obj == items[at] && IsNode(trees[at])
      requires x !in items && !IsNode(t) && Shows([], x, Leaf(t)) && x.last == null
      modifies this, items, x
      ensures Valid() && items == old(items) + [x]
      ensures trees == AllGrown(old(nodes), old(trees), at, Kid(key, t)) + [t]
    {
      Sizes();
      LeafGrown(nodes, lasts, trees, t, at, key) by { Opened(); }
      hide *;
      ghost var n := |items|;
      LeafBare(t);
      Register(x, t);
      Sizes();
      SetPropertyObj(obj, key, x, at, n);
    }

    lemma Opened()
      requires Valid()
      ensures Chained(nodes, lasts) && Holding(nodes, trees)
    {}

    /** json_set_property_intN */
    method SetPropertyInt(obj: JsonItem, key: Option<string>, value: int, ghost at: nat) returns (x: JsonItem)
      requires Valid() && at < |items| == |trees| && obj == items[at] && IsNode(trees[at])
      modifies this, items
      ensures Valid() && fresh(x) && items == old(items) + [x]
      ensures trees == AllGrown(old(nodes), old(trees), at, Kid(key, IntTree(value))) + [IntTree(value)]
    {
      x := new JsonItem();
      x.int_value, x.typ := value, TInteger;
      AddLeaf(obj, key, x, IntTree(value), at);
    }

    /** json_set_property_floatN, with the number as its text */
    method SetPropertyFloat(obj: JsonItem, key: Option<string>, value: string, ghost at: nat) returns (x: JsonItem)
      requires Valid() && at < |items| == |trees| && obj == items[at] && IsNode(trees[at])
      modifies this, items
      ensures Valid() && fresh(x) && items == old(items) + [x]
      ensures trees == AllGrown(old(nodes), old(trees), at, Kid(key, FloatTree(value))) + [FloatTree(value)]
    {
      x := new JsonItem();
      x.float_value, x.typ := value, TFloat;
      AddLeaf(obj, key, x, FloatTree(value), at);
    }

    /** json_set_property_boolean: the type alone, and no number. */
    method SetPropertyBoolean(obj: JsonItem, key: Option<string>, value: int, ghost at: nat) returns (x: JsonItem)
      requires Valid() && at < |items| == |trees| && obj == items[at] && IsNode(trees[at])
      modifies this, items
      ensures Valid() && fresh(x) && items == old(items) + [x]
      ensures trees == AllGrown(old(nodes), old(trees), at, Kid(key, Truth(value))) + [Truth(value)]
    {
      x := new JsonItem();
      if value != 0 {
        x.typ := TTrue;
      } else {
        x.typ := TFalse;
      }
      AddLeaf(obj, key, x, Truth(value), at);
    }

    /** json_set_property_null */
    method SetPropertyNull(obj: JsonItem, key: Option<string>, ghost at: nat) returns (x: JsonItem)
      requires Valid() && at < |items| == |trees| && obj == items[at] && IsNode(trees[at])
      modifies this, items
      ensures Valid() && fresh(x) && items == old(items) + [x]
      ensures trees == AllGrown(old(nodes), old(trees), at, Kid(key, NullTree)) + [NullTree]
    {
      x := new JsonItem();
      x.typ := TNull;
      AddLeaf(obj, key, x, NullTree, at);
    }

    /** json_set_property_strN */
    method SetPropertyStr(obj: JsonItem, key: Option<string>, value: string, ghost at: nat) returns (x: JsonItem)
      requires Valid() && at < |items| == |trees| && obj == items[at] && IsNode(trees[at])
      modifies this, items
      ensures Valid() && fresh(x) && items == old(items) + [x]
      ensures trees == AllGrown(old(nodes), old(trees), at, Kid(key, StrTree(value))) + [StrTree(value)]
    {
      x := new JsonItem();
      x.str, x.typ := Some(value), TString;
      AddLeaf(obj, key, x, StrTree(value), at);
    }
  }
}
