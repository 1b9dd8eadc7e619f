/** json_item and json_context of src/json.c as objects, and json_callback on them. */
module JsonContexts {
  import opened Options
  import opened JsonTable
  import opened JsonBuild

  class JsonItem {
    var typ: Type
    var int_value: int
    var float_value: string
    var str: Option<string>
    var key: Option<string>
    var childType: ChildType
    var child: JsonItem?
    /** jchild.head, the last child: only the constructors of trees use it. */
    var last: JsonItem?
    var father: JsonItem?
    var next: JsonItem?

    /** init_json_item */
    constructor ()
      ensures typ == NoType && int_value == 0 && float_value == "" && str == None && key == None
      ensures childType == NullChild && child == null && last == null && father == null && next == null
    {
      typ, int_value, float_value, str, key := NoType, 0, "", None, None;
      childType, child, last, father, next := NullChild, null, null, null, null;
    }
  }

  /** The pointer p is node number o. */
  ghost predicate Points(items: seq<JsonItem>, p: JsonItem?, o: Option<nat>) {
    if o.None? then p == null else o.value < |items| && p == items[o.value]
  }

  /** The fields of x are those of the record r. */
  ghost predicate Shows(items: seq<JsonItem>, x: JsonItem, r: Item)
    reads x
  {
    && x.typ == r.typ && x.int_value == r.int_value && x.float_value == r.float_value && x.str == r.str
    && x.key == r.key
    && x.childType == r.childType
    && Points(items, x.child, r.child) && Points(items, x.father, r.father) && Points(items, x.next, r.next)
  }

  ghost predicate ShowAll(items: seq<JsonItem>, nodes: seq<Item>)
    reads items
  {
    && |items| == |nodes|
    && (forall i, j :: 0 <= i < j < |items| ==> items[i] != items[j])
    && (forall i :: 0 <= i < |items| ==> Shows(items, items[i], nodes[i]))
  }

  lemma ShowAllSnoc(items: seq<JsonItem>, nodes: seq<Item>, x: JsonItem)
    requires ShowAll(items, nodes) && x !in items && Shows([], x, NEW_ITEM)
    ensures ShowAll(items + [x], nodes + [NEW_ITEM])
  {
    var more := items + [x];
    forall i | 0 <= i < |more| ensures Shows(more, more[i], (nodes + [NEW_ITEM])[i]) {
      if i < |items| { assert Shows(items, items[i], nodes[i]); }
    }
  }

  lemma ShowAllSize(items: seq<JsonItem>, nodes: seq<Item>)
    requires ShowAll(items, nodes)
    ensures |nodes| == |items|
  {}

  lemma ShowsAt(items: seq<JsonItem>, nodes: seq<Item>, i: nat)
    requires ShowAll(items, nodes) && i < |items|
    ensures |nodes| == |items| && Shows(items, items[i], nodes[i])
  {}

  twostate predicate OthersUnchanged(items: seq<JsonItem>, x: JsonItem)
    reads items
  {
    forall y :: y in items && y != x ==> unchanged(y)
  }

  twostate lemma StillShows(items: seq<JsonItem>, new i: nat, new r: Item)
    requires i < |items| && unchanged(items[i]) && old(Shows(items, items[i], r))
    ensures Shows(items, items[i], r)
  {}

  /** Writing to one node changes one record. */
  twostate lemma OneChanged(items: seq<JsonItem>, new nodes: seq<Item>, new i: nat, new r: Item)
    requires i < |items| && old(ShowAll(items, nodes))
    requires OthersUnchanged(items, items[i])
    requires Shows(items, items[i], r)
    ensures ShowAll(items, nodes[i := r])
  {
    hide Shows;
    forall j | 0 <= j < |items| ensures Shows(items, items[j], nodes[i := r][j]) {
      if j != i {
        assert items[j] in items && items[j] != items[i];
        assert unchanged(items[j]);
        assert old(Shows(items, items[j], nodes[j]));
        StillShows(items, j, nodes[j]);
      }
    }
  }

  class JsonContext {
    var keyUnder: bool
    var startDepth: bool
    var head: JsonItem?
    var current: JsonItem?
    /** All nodes, in the order of their creation, and what they are as records. */
    ghost var items: seq<JsonItem>
    ghost var view: Context
    ghost var repr: set<JsonItem>

    ghost predicate Valid()
      reads this, repr
    {
      && (forall x :: x in items ==> x in repr)
      && ShowAll(items, view.nodes)
      && keyUnder == view.keyUnder && startDepth == view.startDepth
      && Points(items, head, view.head) && Points(items, current, view.current)
    }

    constructor ()
      ensures Valid() && view == NEW_CONTEXT && repr == {}
    {
      keyUnder, startDepth, head, current := false, false, null, null;
      items, view, repr := [], NEW_CONTEXT, {};
    }

    /** The current node points to the node about to be used. */
    method LinkCurrent(jval: JsonItem, ghost nodes: seq<Item>)
      requires Current(view) && ShowAll(items, nodes) && Points(items, current, view.current)
      requires |items| == |view.nodes| + 1 && nodes == view.nodes + [NEW_ITEM]
      requires items[|view.nodes|] == jval && startDepth == view.startDepth
      modifies current
      ensures ShowAll(items, Linked(view) + [NEW_ITEM])
    {
      ghost var n, c := |view.nodes|, view.current.value;
      ghost var r := if startDepth then nodes[c].(child := Some(n)) else nodes[c].(next := Some(n));
      ShowsAt(items, nodes, c);
      if startDepth {
        current.child := jval;
      } else {
        current.next := jval;
      }
      OneChanged(items, nodes, c, r);
      assert nodes[c := r] == Linked(view) + [NEW_ITEM];
    }

    /** The node after or below the current one gets its father. */
    method SetFather(jval: JsonItem)
      requires Current(view) && ShowAll(items, Linked(view) + [NEW_ITEM]) && Points(items, current, view.current)
      requires |items| == |view.nodes| + 1
      requires items[|view.nodes|] == jval && startDepth == view.startDepth
      modifies jval
      ensures ShowAll(items, Append(view).nodes)
    {
      hide ShowAll;
      ghost var n, c, nodes := |view.nodes|, view.current.value, Linked(view) + [NEW_ITEM];
      ShowsAt(items, nodes, c);
      ShowsAt(items, nodes, n);
      jval.father := if startDepth then current else current.father;
      ghost var x := NEW_ITEM.(father := FatherOfNext(view));
      OneChanged(items, nodes, n, x);
      assert nodes[n := x] == Append(view).nodes;
    }

    /** One more node, which nothing points to yet. */
    method AddItem() returns (jval: JsonItem)
      requires Valid()
      modifies this`items, this`repr
      ensures fresh(jval) && items == old(items) + [jval] && repr == old(repr) + {jval}
      ensures |items| == |view.nodes| + 1 && ShowAll(items, view.nodes + [NEW_ITEM])
      ensures (forall x :: x in items ==> x in repr)
      ensures keyUnder == view.keyUnder && startDepth == view.startDepth
      ensures Points(items, head, view.head) && Points(items, current, view.current)
    {
      hide ShowAll;
      jval := new JsonItem();
      assert Shows([], jval, NEW_ITEM);
      hide Shows;
      ShowAllSnoc(items, view.nodes, jval);
      ShowAllSize(items, view.nodes);
      items, repr := items + [jval], repr + {jval};
    }

    lemma Appended()
      requires view.current.Some? ==> Current(view)
      ensures var a := Append(view);
              && Current(a) && a.current == Some(|view.nodes|) && a.head == view.head
              && a.keyUnder == view.keyUnder && a.startDepth == view.startDepth
      ensures view.current.None? ==> Append(view).nodes == view.nodes + [NEW_ITEM]
    {}

    /** A new node after the current one, or below it. */
    method AppendItem()
      requires Valid() && (view.current.Some? ==> Current(view))
      modifies this, repr
      ensures Valid() && view == Append(old(view)) && Current(view)
      ensures fresh(repr - old(repr)) && current in repr && head == old(head)
    {
      hide ShowAll;
      hide Shows;
      var jval := AddItem();
      Appended();
      hide Append;
      if current != null {
        LinkCurrent(jval, view.nodes + [NEW_ITEM]);
        SetFather(jval);
      }
      current := jval;
      view := Append(view);
    }

    static method SetChildType(x: JsonItem, ct: ChildType, ghost items: seq<JsonItem>, ghost r: Item)
      requires Shows(items, x, r)
      modifies x
      ensures Shows(items, x, r.(childType := ct))
    {
      x.childType := ct;
    }

    static method SetKey(x: JsonItem, k: string, ghost items: seq<JsonItem>, ghost r: Item)
      requires Shows(items, x, r)
      modifies x
      ensures Shows(items, x, r.(key := Some(k)))
    {
      x.key := Some(k);
    }

    method Begin(ct: ChildType)
      requires Valid() && (view.current.Some? ==> Current(view)) && (view.keyUnder ==> Current(view))
      modifies this, repr
      ensures Valid() && view == BeginNode(old(view), ct) && head == old(head)
      ensures fresh(repr - old(repr))
    {
      hide ShowAll;
      hide Shows;
      if !keyUnder {
        AppendItem();
      }
      ghost var c := view.current.value;
      ghost var r := view.nodes[c].(childType := ct);
      ShowsAt(items, view.nodes, c);
      label Before:
      SetChildType(current, ct, items, view.nodes[c]);
      OneChanged@Before(items, view.nodes, c, r);
      startDepth, keyUnder := true, false;
      view := SetCur(view, r).(startDepth := true, keyUnder := false);
    }

    method End()
      requires Valid() && Current(view)
      modifies this
      ensures Valid() && view == EndNode(old(view)) && repr == old(repr) && head == old(head)
    {
      hide ShowAll;
      ShowsAt(items, view.nodes, view.current.value);
      if current.father != null && !startDepth {
        current := current.father;
      }
      startDepth, keyUnder := false, false;
      view := EndNode(view);
    }

    /** The fields that a scalar sets. */
    static method FillItem(x: JsonItem, e: Event, ghost items: seq<JsonItem>, ghost r: Item)
      requires Shows(items, x, r)
      requires !e.BeginObject? && !e.BeginArray? && !e.EndObject? && !e.EndArray? && !e.Key?
      modifies x
      ensures Shows(items, x, Filled(r, e))
    {
      match e {
        case Integer(n) => x.int_value, x.typ := n, TInteger;
        case Float(text) => x.float_value, x.typ := text, TFloat;
        case Null => x.int_value, x.typ := 0, TNull;
        case False => x.int_value, x.typ := 0, TFalse;
        case True => x.int_value, x.typ := 1, TTrue;
        case Str(s) => x.str, x.typ := Some(s), TString;
      }
    }

    method Fill(e: Event)
      requires Valid() && Current(view)
      requires !e.BeginObject? && !e.BeginArray? && !e.EndObject? && !e.EndArray? && !e.Key?
      modifies this, repr
      ensures Valid() && view == SetCur(old(view), Filled(Cur(old(view)), e)) && head == old(head) && repr == old(repr)
    {
      hide ShowAll;
      hide Shows;
      hide Filled;
      ghost var c := view.current.value;
      ShowsAt(items, view.nodes, c);
      FillItem(current, e, items, view.nodes[c]);
      OneChanged(items, view.nodes, c, Filled(view.nodes[c], e));
      view := SetCur(view, Filled(view.nodes[c], e));
    }

    method Scalar(e: Event)
      requires Valid() && Current(view)
      requires !e.BeginObject? && !e.BeginArray? && !e.EndObject? && !e.EndArray? && !e.Key?
      modifies this, repr
      ensures Valid() && Headed(view) == JsonBuild.Callback(old(view), e) && head == old(head)
      ensures fresh(repr - old(repr))
    {
      hide ShowAll;
      hide Filled;
      if !keyUnder {
        AppendItem();
        startDepth := false;
        view := view.(startDepth := false);
      }
      keyUnder := false;
      view := view.(keyUnder := false);
      Fill(e);
    }

    method KeyItem(k: string)
      requires Valid() && Current(view)
      modifies this, repr
      ensures Valid() && Headed(view) == JsonBuild.Callback(old(view), Key(k)) && head == old(head)
      ensures fresh(repr - old(repr))
    {
      hide ShowAll;
      hide Shows;
      AppendItem();
      ghost var c := view.current.value;
      ghost var r := Cur(view).(key := Some(k));
      ShowsAt(items, view.nodes, c);
      label Before:
      SetKey(current, k, items, view.nodes[c]);
      OneChanged@Before(items, view.nodes, c, r);
      startDepth, keyUnder := false, true;
      view := SetCur(view, r).(startDepth := false, keyUnder := true);
    }

    /** The event, all but the setting of the head. */
    method Handle(e: Event)
      requires Valid() && JsonBuild.Callable(view, e)
      modifies this, repr
      ensures Valid() && Headed(view) == JsonBuild.Callback(old(view), e) && head == old(head)
      ensures fresh(repr - old(repr))
    {
      hide ShowAll;
      hide Filled;
      hide BeginNode;
      hide EndNode;
      hide Append;
      match e {
        case BeginObject => Begin(ObjChild);
        case BeginArray => Begin(ArrChild);
        case EndObject => End();
        case EndArray => End();
        case Key(k) => KeyItem(k);
        case _ => Scalar(e);
      }
    }

    /** json_callback */
    method Callback(e: Event)
      requires Valid() && JsonBuild.Callable(view, e)
      modifies this, repr
      ensures Valid() && view == JsonBuild.Callback(old(view), e)
      ensures fresh(repr - old(repr))
    {
      hide ShowAll;
      hide JsonBuild.Callback;
      Handle(e);
      if head == null && current != null {
        head := current;
      }
      view := Headed(view);
    }
  }
}
