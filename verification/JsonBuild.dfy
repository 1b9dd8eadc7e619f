/** The tree that json_callback of src/json.c builds, as a function of the events it receives.
    A node is named by the order of its creation. */
module JsonBuild {
  import opened Options
  import opened JsonTable
  import opened JsonGrammar

  datatype ChildType = ObjChild | ArrChild | NullChild

  /** A json_item, with node numbers for its pointers. */
  datatype Item = Item(
    typ: Type, int_value: int, float_value: string, str: Option<string>, key: Option<string>,
    childType: ChildType, child: Option<nat>, father: Option<nat>, next: Option<nat>)

  /** init_json_item */
  const NEW_ITEM := Item(NoType, 0, "", None, None, NullChild, None, None, None)

  /** A json_context and the nodes made so far. */
  datatype Context = Context(keyUnder: bool, startDepth: bool, head: Option<nat>, current: Option<nat>,
                             nodes: seq<Item>)

  const NEW_CONTEXT := Context(false, false, None, None, [])

  predicate Current(cx: Context) { cx.current.Some? && cx.current.value < |cx.nodes| }

  function Cur(cx: Context): Item
    requires Current(cx)
  {
    cx.nodes[cx.current.value]
  }

  function SetCur(cx: Context, x: Item): (r: Context)
    requires Current(cx)
  {
    cx.(nodes := cx.nodes[cx.current.value := x])
  }

  /** The current node points to the node about to be made. */
  function Linked(cx: Context): seq<Item>
    requires cx.current.Some? ==> Current(cx)
  {
    if cx.current.None? then cx.nodes
    else if cx.startDepth then SetCur(cx, Cur(cx).(child := Some(|cx.nodes|))).nodes
    else SetCur(cx, Cur(cx).(next := Some(|cx.nodes|))).nodes
  }

  function FatherOfNext(cx: Context): Option<nat>
    requires cx.current.Some? ==> Current(cx)
  {
    if cx.current.None? then None else if cx.startDepth then cx.current else Cur(cx).father
  }

  /** A new node after the current one, or below it when a container has just begun. */
  function Append(cx: Context): Context
    requires cx.current.Some? ==> Current(cx)
  {
    cx.(nodes := Linked(cx) + [NEW_ITEM.(father := FatherOfNext(cx))], current := Some(|cx.nodes|))
  }

  /** The node that takes the next value: the one made for its key, or a new one. */
  function Target(cx: Context): Context
    requires cx.current.Some? ==> Current(cx)
    requires cx.keyUnder ==> Current(cx)
  {
    if cx.keyUnder then cx else Append(cx)
  }

  /** The fields that a scalar event sets. */
  function Filled(x: Item, e: Event): Item {
    match e
    case Integer(n) => x.(typ := TInteger, int_value := n)
    case Float(text) => x.(typ := TFloat, float_value := text)
    case Null => x.(typ := TNull, int_value := 0)
    case True => x.(typ := TTrue, int_value := 1)
    case False => x.(typ := TFalse, int_value := 0)
    case Str(s) => x.(typ := TString, str := Some(s))
    case _ => x
  }

  /** When json_callback follows no null pointer. */
  predicate Callable(cx: Context, e: Event) {
    (cx.current.Some? ==> Current(cx)) && (Current(cx) || e.BeginArray? || e.BeginObject?)
    && (cx.keyUnder ==> Current(cx))
  }

  function Headed(cx: Context): Context { if cx.head.None? then cx.(head := cx.current) else cx }

  function BeginNode(cx: Context, ct: ChildType): Context
    requires cx.current.Some? ==> Current(cx)
    requires cx.keyUnder ==> Current(cx)
  {
    var t := Target(cx);
    SetCur(t, Cur(t).(childType := ct)).(startDepth := true, keyUnder := false)
  }

  /** json_callback */
  function Callback(cx: Context, e: Event): Context
    requires Callable(cx, e)
  {
    Headed(
      match e
      case BeginObject => BeginNode(cx, ObjChild)
      case BeginArray => BeginNode(cx, ArrChild)
      case EndObject => EndNode(cx)
      case EndArray => EndNode(cx)
      case Key(k) =>
        var a := Append(cx);
        SetCur(a, Cur(a).(key := Some(k))).(startDepth := false, keyUnder := true)
      case _ =>
        var t := Target(cx);
        var u := if cx.keyUnder then t else t.(startDepth := false);
        SetCur(u, Filled(Cur(u), e)).(keyUnder := false))
  }

  function EndNode(cx: Context): Context
    requires Current(cx)
  {
    cx.(current := if Cur(cx).father.Some? && !cx.startDepth then Cur(cx).father else cx.current,
        startDepth := false, keyUnder := false)
  }
}
