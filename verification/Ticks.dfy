/** The timers of src/ticks.c: a list of differences that stands for a map from timer to the ticks it has left. */
module Ticks {
  import opened Options
  import Words

  class Timer {
    const need: nat
    const call: nat
    var delta: int
    var times: int
    var identifier: nat

    /** A timer as add_timeout sets it up. The function and its parameter are one number here. */
    constructor (need: nat, call: nat, identifier: nat)
      ensures this.need == need && this.call == call && this.identifier == identifier
      ensures delta == need && times == 1
    {
      this.need, this.call, this.identifier := need, call, identifier;
      delta, times := need, 1;
    }
  }

  datatype Cell = Cell(id: nat, need: nat, delta: int, times: int, call: nat)

  /** What a timer means: the ticks that are left, and what it does then. */
  datatype Entry = Entry(left: int, need: nat, times: int, call: nat)

  datatype Addition = Addition(msec: nat, times: int, call: nat)

  /** What a callback does: it may set the flag of the last call, and add timers. */
  datatype Reply = Reply(last: bool, added: seq<Addition>)

  type Callbacks = (nat, bool) -> Reply

  ghost predicate Waits(added: seq<Addition>) { forall k :: 0 <= k < |added| ==> added[k].msec >= 1 }

  /** Every timer waits for at least one tick. */
  ghost predicate Positive(reply: Callbacks) {
    forall id, last :: Waits(reply(id, last).added)
  }

  // ----- the map -----

  ghost function Left(cells: seq<Cell>, base: int): map<nat, Entry> {
    if cells == [] then map[]
    else var c := cells[0]; var l := base + c.delta; Left(cells[1..], l)[c.id := Entry(l, c.need, c.times, c.call)]
  }

  /** Differences are never negative, and no timer waits for nothing. */
  ghost predicate Rising(cells: seq<Cell>) {
    forall i :: 0 <= i < |cells| ==> cells[i].delta >= 0 && cells[i].need >= 1
  }

  ghost function Ids(cells: seq<Cell>): (ids: seq<nat>)
    ensures |ids| == |cells| && forall i :: 0 <= i < |cells| ==> ids[i] == cells[i].id
  {
    if cells == [] then [] else [cells[0].id] + Ids(cells[1..])
  }

  ghost predicate Distinct(s: seq<nat>) { forall i, j :: 0 <= i < j < |s| ==> s[i] != s[j] }

  ghost predicate Below(s: seq<nat>, n: nat) { forall i :: 0 <= i < |s| ==> s[i] < n }

  ghost predicate Unique(cells: seq<Cell>, n: nat) { Below(Ids(cells), n) && Distinct(Ids(cells)) }

  lemma {:induction false} LeftKeys(cells: seq<Cell>, base: int)
    ensures forall id :: id in Left(cells, base) <==> id in Ids(cells)
  {
    if cells != [] {
      LeftKeys(cells[1..], base + cells[0].delta);
    }
  }

  lemma {:induction false} LeftBound(cells: seq<Cell>, base: int, low: int)
    requires Rising(cells) && (cells != [] ==> base + cells[0].delta >= low)
    ensures forall id :: id in Left(cells, base) ==>
              Left(cells, base)[id].left >= low && Left(cells, base)[id].need >= 1
  {
    if cells != [] {
      LeftBound(cells[1..], base + cells[0].delta, low);
    }
  }

  /** add_timeout on the list */
  ghost function Insert(cells: seq<Cell>, c: Cell): seq<Cell> {
    if cells == [] then [c]
    else if c.delta <= cells[0].delta then [c, cells[0].(delta := cells[0].delta - c.delta)] + cells[1..]
    else [cells[0]] + Insert(cells[1..], c.(delta := c.delta - cells[0].delta))
  }

  /** One more entry, and no other entry changed */
  lemma {:induction false} InsertLeft(cells: seq<Cell>, c: Cell, base: int)
    requires c.id !in Ids(cells)
    ensures Left(Insert(cells, c), base) == Left(cells, base)[c.id := Entry(base + c.delta, c.need, c.times, c.call)]
  {
    var s := Insert(cells, c);
    if cells == [] {
      assert Left(s[1..], base + c.delta) == map[];
    } else if c.delta <= cells[0].delta {
      var h := cells[0].(delta := cells[0].delta - c.delta);
      assert s[1..] == [h] + cells[1..] && s[1..][1..] == cells[1..];
      assert Left(s[1..], base + c.delta) == Left(cells, base);
    } else {
      var d := c.(delta := c.delta - cells[0].delta);
      assert s[1..] == Insert(cells[1..], d) && c.id != cells[0].id && c.id !in Ids(cells[1..]);
      InsertLeft(cells[1..], d, base + cells[0].delta);
      hide Ids;
      hide Insert;
    }
  }

  /** Where add_timeout puts a timer */
  ghost function Position(cells: seq<Cell>, delta: int): (p: nat)
    ensures p <= |cells|
  {
    if cells == [] || delta <= cells[0].delta then 0 else 1 + Position(cells[1..], delta - cells[0].delta)
  }

  /** In how many ticks a timer of the list is due */
  ghost function DueIn(cells: seq<Cell>, i: nat): int
    requires i < |cells|
  {
    cells[0].delta + if i == 0 then 0 else DueIn(cells[1..], i - 1)
  }

  /** The new timer goes behind those that are due earlier, and before those that are due later or in the same tick. */
  lemma {:induction false} PositionIs(cells: seq<Cell>, delta: int)
    requires Rising(cells)
    ensures forall i :: 0 <= i < |cells| ==> (DueIn(cells, i) < delta <==> i < Position(cells, delta))
  {
    if cells != [] {
      PositionIs(cells[1..], delta - cells[0].delta);
      forall i | 0 <= i < |cells| ensures DueIn(cells, i) < delta <==> i < Position(cells, delta) {
        NotBefore(cells, i);
        if i > 0 {
          assert DueIn(cells, i) == cells[0].delta + DueIn(cells[1..], i - 1);
        }
      }
    }
  }

  lemma {:induction false} NotBefore(cells: seq<Cell>, i: nat)
    requires Rising(cells) && i < |cells|
    ensures DueIn(cells, i) >= cells[0].delta
  {
    if i > 0 {
      NotBefore(cells[1..], i - 1);
    }
  }

  lemma {:induction false} InsertIds(cells: seq<Cell>, c: Cell)
    ensures var p := Position(cells, c.delta);
            Ids(Insert(cells, c)) == Ids(cells)[..p] + [c.id] + Ids(cells)[p..]
  {
    if cells == [] || c.delta <= cells[0].delta {
      InsertIdsFirst(cells, c);
      assert Position(cells, c.delta) == 0;
      hide *;
    } else {
      var d := c.(delta := c.delta - cells[0].delta);
      var p := Position(cells[1..], d.delta);
      assert Insert(cells, c) == [cells[0]] + Insert(cells[1..], d) && Position(cells, c.delta) == p + 1;
      InsertIds(cells[1..], d);
      hide *;
      IdsFirst([cells[0]] + Insert(cells[1..], d));
      assert ([cells[0]] + Insert(cells[1..], d))[1..] == Insert(cells[1..], d);
      IdsFirst(cells);
      PutLater(Ids(cells[1..]), cells[0].id, p, c.id);
    }
  }

  lemma IdsFirst(cells: seq<Cell>)
    requires cells != []
    ensures Ids(cells) == [cells[0].id] + Ids(cells[1..])
  {}

  lemma InsertIdsFirst(cells: seq<Cell>, c: Cell)
    requires cells != [] ==> c.delta <= cells[0].delta
    ensures Ids(Insert(cells, c)) == [c.id] + Ids(cells)
  {
    var s := Insert(cells, c);
    IdsFirst(s);
    if cells != [] {
      IdsFirst(s[1..]);
      IdsFirst(cells);
      hide Ids;
      assert s[1..][1..] == cells[1..];
    }
  }

  lemma PutLater(ids: seq<nat>, first: nat, p: nat, x: nat)
    requires p <= |ids|
    ensures [first] + (ids[..p] + [x] + ids[p..]) == ([first] + ids)[..p + 1] + [x] + ([first] + ids)[p + 1..]
  {}

  lemma {:induction false} InsertRising(cells: seq<Cell>, c: Cell)
    requires Rising(cells) && c.delta >= 0 && c.need >= 1
    ensures Rising(Insert(cells, c))
    ensures Insert(cells, c)[0] == if cells != [] && cells[0].delta < c.delta then cells[0] else c
  {
    if cells != [] && c.delta > cells[0].delta {
      InsertRising(cells[1..], c.(delta := c.delta - cells[0].delta));
    }
  }

  lemma InsertUnique(cells: seq<Cell>, c: Cell, n: nat)
    requires Unique(cells, n) && c.id < n && c.id !in Ids(cells)
    ensures Unique(Insert(cells, c), n)
  {
    InsertIds(cells, c);
    hide Ids;
    PutUnique(Ids(cells), Position(cells, c.delta), c.id, n);
  }

  lemma PutUnique(ids: seq<nat>, p: nat, x: nat, n: nat)
    requires Below(ids, n) && Distinct(ids) && p <= |ids| && x < n && x !in ids
    ensures Below(ids[..p] + [x] + ids[p..], n) && Distinct(ids[..p] + [x] + ids[p..])
  {}

  // ----- one tick on the map -----

  ghost function Lowered(m: map<nat, Entry>): map<nat, Entry> {
    map id | id in m :: m[id].(left := m[id].left - 1)
  }

  /** The timers that a callback adds get the next identifiers. */
  ghost function WithAdded(m: map<nat, Entry>, n: nat, added: seq<Addition>): map<nat, Entry> {
    if added == [] then m
    else
      var k := |added| - 1;
      WithAdded(m, n, added[..k])[n + k := Entry(added[k].msec, added[k].msec, added[k].times, added[k].call)]
  }

  function CountDown(times: int): int { if times > 0 then times - 1 else times }

  predicate LastCall(times: int) { times == 1 }

  /** One timer fires: it goes, or it starts again. */
  ghost function Fire(m: map<nat, Entry>, n: nat, id: nat, reply: Callbacks): map<nat, Entry>
    requires id in m
  {
    var e := m[id];
    var r := reply(id, LastCall(e.times));
    var after := WithAdded(m, n, r.added);
    if r.last then after - {id} else after[id := Entry(e.need, e.need, CountDown(e.times), e.call)]
  }

  ghost function AddedBy(m: map<nat, Entry>, id: nat, reply: Callbacks): seq<Addition>
    requires id in m
  {
    reply(id, LastCall(m[id].times)).added
  }

  /** What the timers that fire add, in the order in which they fire */
  ghost function AllAdded(m: map<nat, Entry>, fired: seq<nat>, reply: Callbacks): seq<Addition>
    requires forall id :: id in fired ==> id in m
  {
    if fired == [] then []
    else AllAdded(m, fired[..|fired| - 1], reply) + AddedBy(m, fired[|fired| - 1], reply)
  }

  ghost predicate OthersCloser(m: map<nat, Entry>, fired: seq<nat>, m1: map<nat, Entry>) {
    forall id :: id in m && id !in fired ==> id in m1 && m1[id] == m[id].(left := m[id].left - 1)
  }

  ghost predicate FiredAgain(m: map<nat, Entry>, fired: seq<nat>, reply: Callbacks, m1: map<nat, Entry>) {
    forall id :: id in fired && id in m ==>
      if reply(id, LastCall(m[id].times)).last then id !in m1
      else id in m1 && m1[id] == Entry(m[id].need, m[id].need, CountDown(m[id].times), m[id].call)
  }

  ghost predicate AddedFrom(added: seq<Addition>, n: nat, m1: map<nat, Entry>) {
    forall k :: n <= k < n + |added| ==>
      k in m1 && m1[k] == Entry(added[k - n].msec, added[k - n].msec, added[k - n].times, added[k - n].call)
  }

  ghost predicate NoOthers(m: map<nat, Entry>, n: nat, n1: nat, m1: map<nat, Entry>) {
    forall id :: id in m1 ==> id in m || n <= id < n1
  }

  /** What a tick makes of a map when some timers fire: those start again or go, the others come one tick
      closer, and what the callbacks add gets the next identifiers. */
  ghost predicate Ticked(m: map<nat, Entry>, n: nat, fired: seq<nat>, reply: Callbacks, m1: map<nat, Entry>, n1: nat) {
    && Distinct(fired) && (forall id :: id in fired ==> id in m)
    && var added := AllAdded(m, fired, reply);
       && n1 == n + |added| && OthersCloser(m, fired, m1) && FiredAgain(m, fired, reply, m1)
       && AddedFrom(added, n, m1) && NoOthers(m, n, n1, m1)
  }

  lemma {:induction false} WithAddedIs(m: map<nat, Entry>, n: nat, added: seq<Addition>)
    requires forall id :: id in m ==> id < n
    ensures var w := WithAdded(m, n, added);
            && (forall id :: id in m ==> id in w && w[id] == m[id])
            && AddedFrom(added, n, w) && NoOthers(m, n, n + |added|, w)
  {
    if added != [] {
      WithAddedIs(m, n, added[..|added| - 1]);
    }
  }

  lemma TickedNone(m: map<nat, Entry>, n: nat, reply: Callbacks)
    ensures Ticked(m, n, [], reply, Lowered(m), n)
  {}

  lemma AddedAppend(a: seq<Addition>, b: seq<Addition>, n: nat, m1: map<nat, Entry>, w: map<nat, Entry>)
    requires AddedFrom(a, n, m1) && AddedFrom(b, n + |a|, w) && forall id :: id in m1 ==> id in w && w[id] == m1[id]
    ensures AddedFrom(a + b, n, w)
  {
    forall k | n <= k < n + |a + b|
      ensures k in w
      ensures w[k] == Entry((a + b)[k - n].msec, (a + b)[k - n].msec, (a + b)[k - n].times, (a + b)[k - n].call)
    {
      if k >= n + |a| {
        assert (a + b)[k - n] == b[k - (n + |a|)];
      }
    }
  }

  lemma FireCloser(m: map<nat, Entry>, fired: seq<nat>, m1: map<nat, Entry>, w: map<nat, Entry>, m2: map<nat, Entry>,
                   id: nat)
    requires OthersCloser(m, fired, m1) && forall i :: i in m1 ==> i in w && w[i] == m1[i]
    requires forall i :: i in w && i != id ==> i in m2 && m2[i] == w[i]
    ensures OthersCloser(m, fired + [id], m2)
  {
    forall i | i in m && i !in fired + [id] ensures i in m2 && m2[i] == m[i].(left := m[i].left - 1) {
      assert i !in fired && i != id;
    }
  }

  lemma FireAgain(m: map<nat, Entry>, fired: seq<nat>, reply: Callbacks, m1: map<nat, Entry>, w: map<nat, Entry>,
                  m2: map<nat, Entry>, id: nat)
    requires FiredAgain(m, fired, reply, m1) && forall i :: i in m1 ==> i in w && w[i] == m1[i]
    requires id !in fired && id in m && forall i :: i in w && i !in m1 ==> i !in m
    requires forall i :: i != id ==> (i in w <==> i in m2) && (i in w ==> m2[i] == w[i])
    requires FiredAgain(m, [id], reply, m2)
    ensures FiredAgain(m, fired + [id], reply, m2)
  {
    forall i | i in fired + [id] && i in m
      ensures if reply(i, LastCall(m[i].times)).last then i !in m2
              else i in m2 && m2[i] == Entry(m[i].need, m[i].need, CountDown(m[i].times), m[i].call)
    {
      if i == id {
        assert i in [id];
      } else {
        assert i in fired;
      }
    }
  }

  lemma FireIs(m: map<nat, Entry>, m1: map<nat, Entry>, n1: nat, id: nat, reply: Callbacks)
    requires id in m1 && id in m && m1[id] == m[id].(left := m[id].left - 1) && forall i :: i in m1 ==> i < n1
    ensures var w, m2 := WithAdded(m1, n1, AddedBy(m1, id, reply)), Fire(m1, n1, id, reply);
            && (forall i :: i != id ==> (i in w <==> i in m2) && (i in w ==> m2[i] == w[i]))
            && FiredAgain(m, [id], reply, m2) && AddedBy(m1, id, reply) == AddedBy(m, id, reply)
  {
    WithAddedIs(m1, n1, AddedBy(m1, id, reply));
    hide WithAdded;
  }

  lemma AllAddedOne(m: map<nat, Entry>, fired: seq<nat>, reply: Callbacks, id: nat)
    requires id in m && forall i :: i in fired ==> i in m
    ensures AllAdded(m, fired + [id], reply) == AllAdded(m, fired, reply) + AddedBy(m, id, reply)
  {
    assert (fired + [id])[..|fired|] == fired;
  }

  lemma TickedBelow(m: map<nat, Entry>, n: nat, fired: seq<nat>, reply: Callbacks, m1: map<nat, Entry>, n1: nat)
    requires Ticked(m, n, fired, reply, m1, n1) && forall i :: i in m ==> i < n
    ensures forall i :: i in m1 ==> i < n1
    ensures forall i :: i in m && i !in fired ==> i in m1 && m1[i] == m[i].(left := m[i].left - 1)
  {}

  lemma TickedOne(m: map<nat, Entry>, n: nat, fired: seq<nat>, reply: Callbacks, m1: map<nat, Entry>, n1: nat, id: nat)
    requires Ticked(m, n, fired, reply, m1, n1) && id in m1 && id in m && id !in fired
    requires forall i :: i in m ==> i < n
    ensures Ticked(m, n, fired + [id], reply, Fire(m1, n1, id, reply), n1 + |AddedBy(m1, id, reply)|)
  {
    hide WithAdded;
    hide AllAdded;
    hide AddedBy;
    hide Fire;
    hide OthersCloser;
    hide FiredAgain;
    hide Distinct;
    hide AddedFrom;
    TickedBelow(m, n, fired, reply, m1, n1);
    var a, b := AllAdded(m, fired, reply), AddedBy(m1, id, reply);
    FireIs(m, m1, n1, id, reply);
    AllAddedOne(m, fired, reply, id);
    WithAddedIs(m1, n1, b);
    var w, m2 := WithAdded(m1, n1, b), Fire(m1, n1, id, reply);
    AddedAppend(a, b, n, m1, w);
    AddedStill(a + b, n, w, m2, id);
    FireCloser(m, fired, m1, w, m2, id);
    FireAgain(m, fired, reply, m1, w, m2, id);
    AppendDistinct(fired, id);
    AllInAppend(m, fired, id);
  }

  lemma AllInAppend(m: map<nat, Entry>, s: seq<nat>, x: nat)
    requires x in m && forall i :: i in s ==> i in m
    ensures forall i :: i in s + [x] ==> i in m
  {}

  lemma AddedStill(added: seq<Addition>, n: nat, w: map<nat, Entry>, m2: map<nat, Entry>, id: nat)
    requires AddedFrom(added, n, w) && id < n && forall i :: i in w && i != id ==> i in m2 && m2[i] == w[i]
    ensures AddedFrom(added, n, m2)
  {}

  lemma AppendDistinct(s: seq<nat>, x: nat)
    requires Distinct(s) && x !in s
    ensures Distinct(s + [x])
  {}

  // ----- the list -----

  ghost function CellOf(t: Timer): Cell
    reads t
  {
    Cell(t.identifier, t.need, t.delta, t.times, t.call)
  }

  ghost function Cells(ts: seq<Timer>): (s: seq<Cell>)
    reads ts
    ensures |s| == |ts| && forall i :: 0 <= i < |ts| ==> s[i] == CellOf(ts[i])
  {
    seq(|ts|, i requires 0 <= i < |ts| reads ts => CellOf(ts[i]))
  }

  ghost predicate Different(ts: seq<Timer>) { forall i, j :: 0 <= i < j < |ts| ==> ts[i] != ts[j] }

  /** add_timeout has come to k, and the difference that is left is that of d. */
  ghost predicate Reached(cells: seq<Cell>, c: Cell, k: nat, d: Cell) {
    && k <= |cells| && d == c.(delta := d.delta)
    && Insert(cells, c) == cells[..k] + Insert(cells[k..], d)
    && Position(cells, c.delta) == k + Position(cells[k..], d.delta)
  }

  lemma ReachedFirst(cells: seq<Cell>, c: Cell)
    ensures Reached(cells, c, 0, c)
  {
    assert cells[0..] == cells;
  }

  lemma ReachedNext(cells: seq<Cell>, c: Cell, k: nat, d: Cell)
    requires Reached(cells, c, k, d) && k < |cells| && d.delta > cells[k].delta
    ensures Reached(cells, c, k + 1, d.(delta := d.delta - cells[k].delta))
  {
    assert cells[k..][1..] == cells[k + 1..];
    assert cells[..k] + ([cells[k]] + Insert(cells[k + 1..], d.(delta := d.delta - cells[k].delta)))
        == cells[..k + 1] + Insert(cells[k + 1..], d.(delta := d.delta - cells[k].delta));
  }

  ghost function Reduced(cells: seq<Cell>, k: nat, delta: int): seq<Cell>
    requires k <= |cells|
  {
    if k == |cells| then cells else cells[k := cells[k].(delta := cells[k].delta - delta)]
  }

  lemma PutBack<T>(s: seq<T>, k: nat, x: T, y: T)
    requires k < |s|
    ensures s[k := y][..k] + [x] + s[k := y][k..] == s[..k] + ([x, y] + s[k..][1..])
  {}

  lemma InsertFirst(cells: seq<Cell>, c: Cell)
    requires cells != [] ==> c.delta <= cells[0].delta
    ensures Position(cells, c.delta) == 0
    ensures Insert(cells, c) == if cells == [] then [c]
                                else [c, cells[0].(delta := cells[0].delta - c.delta)] + cells[1..]
  {}

  lemma ReachedLast(cells: seq<Cell>, c: Cell, k: nat, d: Cell)
    requires Reached(cells, c, k, d) && (k < |cells| ==> d.delta <= cells[k].delta)
    ensures Position(cells, c.delta) == k
    ensures var r := Reduced(cells, k, d.delta); Insert(cells, c) == r[..k] + [d] + r[k..]
  {
    ReachedIs(cells, c, k, d);
    ReducedIs(cells, k, d.delta);
    hide *;
    if k < |cells| {
      ReachedInside(cells, c, k, d);
    } else {
      ReachedEnd(cells, c, d);
    }
  }

  lemma ReachedInside(cells: seq<Cell>, c: Cell, k: nat, d: Cell)
    requires k < |cells| && Insert(cells, c) == cells[..k] + Insert(cells[k..], d) && d.delta <= cells[k].delta
    requires Position(cells, c.delta) == k + Position(cells[k..], d.delta)
    ensures Position(cells, c.delta) == k
    ensures var r := cells[k := cells[k].(delta := cells[k].delta - d.delta)];
            Insert(cells, c) == r[..k] + [d] + r[k..]
  {
    hide *;
    InsertFirst(cells[k..], d);
    Spliced(cells, k, d, Insert(cells[k..], d));
  }

  lemma ReachedEnd(cells: seq<Cell>, c: Cell, d: Cell)
    requires Insert(cells, c) == cells[..|cells|] + Insert(cells[|cells|..], d)
    requires Position(cells, c.delta) == |cells| + Position(cells[|cells|..], d.delta)
    ensures Position(cells, c.delta) == |cells| && Insert(cells, c) == cells[..|cells|] + [d] + cells[|cells|..]
  {
    hide *;
    AtEnd(cells, d);
    InsertFirst([], d);
  }

  lemma ReachedIs(cells: seq<Cell>, c: Cell, k: nat, d: Cell)
    requires Reached(cells, c, k, d)
    ensures k <= |cells| && Insert(cells, c) == cells[..k] + Insert(cells[k..], d)
    ensures Position(cells, c.delta) == k + Position(cells[k..], d.delta)
  {}

  lemma Spliced(cells: seq<Cell>, k: nat, d: Cell, s: seq<Cell>)
    requires k < |cells| && s == [d, cells[k..][0].(delta := cells[k..][0].delta - d.delta)] + cells[k..][1..]
    ensures var r := cells[k := cells[k].(delta := cells[k].delta - d.delta)];
            cells[..k] + s == r[..k] + [d] + r[k..]
  {
    PutBack(cells, k, d, cells[k].(delta := cells[k].delta - d.delta));
  }

  lemma ReducedIs(cells: seq<Cell>, k: nat, delta: int)
    requires k <= |cells|
    ensures Reduced(cells, k, delta)
         == if k == |cells| then cells else cells[k := cells[k].(delta := cells[k].delta - delta)]
  {}

  lemma AtEnd<T>(s: seq<T>, x: T)
    ensures s[|s|..] == [] && s[..|s|] + [x] + s[|s|..] == s[..|s|] + [x]
  {}

  /** The identifier and the count of a timer have no say in where it goes. */
  lemma {:induction false} InsertOther(cells: seq<Cell>, c: Cell, id: nat, times: int)
    ensures var p, s := Position(cells, c.delta), Insert(cells, c);
            p < |s| == |cells| + 1
            && Insert(cells, c.(id := id, times := times)) == s[p := s[p].(id := id, times := times)]
  {
    if cells != [] && c.delta > cells[0].delta {
      InsertOther(cells[1..], c.(delta := c.delta - cells[0].delta), id, times);
    }
  }

  class Timers {
    var timers: seq<Timer>
    var ntimers: nat

    constructor ()
      ensures Valid() && timers == [] && Waiting() == map[]
    {
      timers, ntimers := [], 0;
    }

    /** Holds in the middle of a tick, too */
    ghost predicate Sound()
      reads this, timers
    {
      Different(timers) && Rising(Cells(timers)) && Unique(Cells(timers), ntimers)
    }

    ghost predicate Valid()
      reads this, timers
    {
      Sound() && (timers != [] ==> timers[0].delta >= 1)
    }

    /** The ticks that each timer has left */
    ghost function Waiting(): map<nat, Entry>
      reads this, timers
    {
      Left(Cells(timers), 0)
    }

    /** The list part of add_timeout */
    method Put(t: Timer)
      requires Different(timers) && t !in timers
      modifies this`timers, timers, t
      ensures Cells(timers) == Insert(old(Cells(timers)), old(CellOf(t)))
      ensures var p := Position(old(Cells(timers)), old(t.delta)); timers == old(timers)[..p] + [t] + old(timers)[p..]
      ensures ntimers == old(ntimers) && unchanged(t`times) && unchanged(t`identifier)
    {
      ghost var cells, c := Cells(timers), CellOf(t);
      hide Reached;
      hide Insert;
      hide Position;
      hide Reduced;
      ReachedFirst(cells, c);
      var k := 0;
      while k < |timers| && t.delta > timers[k].delta
        invariant k <= |timers| && Cells(timers) == cells && Reached(cells, c, k, CellOf(t))
        invariant t.times == c.times && t.identifier == c.id
        modifies t
      {
        ReachedNext(cells, c, k, CellOf(t));
        t.delta := t.delta - timers[k].delta;
        k := k + 1;
      }
      ReachedLast(cells, c, k, CellOf(t));
      Lower(k, t.delta);
      Splice(k, t);
    }

    method Splice(k: nat, t: Timer)
      requires k <= |timers|
      modifies this`timers
      ensures timers == old(timers)[..k] + [t] + old(timers)[k..]
      ensures Cells(timers) == old(Cells(timers)[..k] + [CellOf(t)] + Cells(timers)[k..])
    {
      timers := timers[..k] + [t] + timers[k..];
    }

    /** What the timer after the new one has to wait becomes less. */
    method Lower(k: nat, delta: int)
      requires Different(timers) && k <= |timers|
      modifies timers
      ensures Cells(timers) == Reduced(old(Cells(timers)), k, delta)
    {
      if k < |timers| {
        timers[k].delta := timers[k].delta - delta;
      }
    }

    /** add_timeout */
    method AddTimeout(msec: nat, call: nat) returns (t: Timer)
      requires Sound()
      modifies this, timers
      ensures Different(timers) && fresh(t) && ntimers == old(ntimers) + 1 && t.identifier == old(ntimers)
      ensures Cells(timers) == Insert(old(Cells(timers)), Cell(old(ntimers), msec, msec, 1, call))
      ensures var p := Position(old(Cells(timers)), msec); timers == old(timers)[..p] + [t] + old(timers)[p..]
      ensures forall i :: 0 <= i < |timers| ==> timers[i] in old(timers) || fresh(timers[i])
    {
      hide Insert;
      hide Position;
      hide Rising;
      hide Unique;
      t := new Timer(msec, call, ntimers);
      PutDifferent(timers, Position(Cells(timers), msec), t);
      Put(t);
      ntimers := ntimers + 1;
      hide *;
    }

    lemma PutDifferent(ts: seq<Timer>, p: nat, t: Timer)
      requires Different(ts) && p <= |ts| && t !in ts
      ensures Different(ts[..p] + [t] + ts[p..])
      ensures forall u :: u in ts[..p] + [t] + ts[p..] ==> u in ts || u == t
    {}

    /** What add_periodical and process_tick write into a timer that add_timeout has made */
    method Label(t: Timer, ghost p: nat, identifier: nat, times: int)
      requires Different(timers) && p < |timers| && timers[p] == t
      modifies t`identifier, t`times
      ensures Cells(timers) == old(Cells(timers)[p := CellOf(t).(id := identifier, times := times)])
    {
      t.identifier := identifier;
      t.times := times;
    }

    lemma PutKept(cells: seq<Cell>, c: Cell, n: nat)
      requires Rising(cells) && Unique(cells, n) && c.id < n && c.id !in Ids(cells) && c.delta >= 1 && c.need >= 1
      ensures Rising(Insert(cells, c)) && Unique(Insert(cells, c), n)
      ensures Left(Insert(cells, c), 0) == Left(cells, 0)[c.id := Entry(c.delta, c.need, c.times, c.call)]
      ensures Insert(cells, c)[0] == if cells != [] && cells[0].delta < c.delta then cells[0] else c
    {
      InsertLeft(cells, c, 0);
      InsertRising(cells, c);
      InsertUnique(cells, c, n);
    }

    /** The list is sound again when a timer has been put in, and the map has one more entry. */
    twostate lemma Grown(new c: Cell, new t: Timer, new n: nat)
      requires old(Rising(Cells(timers)) && Unique(Cells(timers), n) && c.id !in Ids(Cells(timers)))
      requires c.id < n && ntimers == n && c.delta >= 1 && c.need >= 1
      requires Different(timers) && Cells(timers) == Insert(old(Cells(timers)), c)
      requires var p := Position(old(Cells(timers)), c.delta); timers == old(timers)[..p] + [t] + old(timers)[p..]
      ensures Sound() && Waiting() == old(Waiting())[c.id := Entry(c.delta, c.need, c.times, c.call)]
      ensures timers != [] && Cells(timers)[0] ==
                old(if timers != [] && timers[0].delta < c.delta then CellOf(timers[0]) else c)
      ensures old(timers != [] && timers[0].delta < c.delta) ==> timers[0] == old(timers[0])
    {
      var cells := old(Cells(timers));
      PutKept(cells, c, n);
      assert old(timers != [] && timers[0].delta < c.delta) ==> Position(cells, c.delta) > 0;
      hide Rising;
      hide Unique;
      hide Insert;
      hide Position;
      hide Left;
      hide Different;
    }

    /** add_periodical: one more timer, and no other timer changed. */
    method AddPeriodical(msec: nat, times: int, call: nat) returns (t: Timer)
      requires Sound() && msec >= 1
      modifies this, timers
      ensures Sound() && fresh(t) && ntimers == old(ntimers) + 1 && (old(Valid()) ==> Valid())
      ensures Waiting() == old(Waiting())[old(ntimers) := Entry(msec, msec, times, call)]
      ensures old(timers != [] && timers[0].delta < msec) ==>
                timers != [] && timers[0] == old(timers[0]) && CellOf(timers[0]) == old(CellOf(timers[0]))
      ensures forall i :: 0 <= i < |timers| ==> timers[i] in old(timers) || fresh(timers[i])
    {
      ghost var cells, c := Cells(timers), Cell(ntimers, msec, msec, times, call);
      NewId(cells, ntimers);
      hide Rising;
      hide Unique;
      hide Insert;
      hide Position;
      hide Left;
      hide Different;
      t := AddTimeout(msec, call);
      InsertOther(cells, Cell(c.id, msec, msec, 1, call), c.id, times);
      Label(t, Position(cells, msec), t.identifier, times);
      Grown(c, t, ntimers);
      hide *;
    }

    /** What a callback adds */
    method RunCallback(added: seq<Addition>)
      requires Sound() && timers != [] && timers[0].delta == 0 && Waits(added)
      modifies this, timers
      ensures Sound() && ntimers == old(ntimers) + |added|
      ensures Waiting() == WithAdded(old(Waiting()), old(ntimers), added)
      ensures timers != [] && timers[0] == old(timers[0]) && CellOf(timers[0]) == old(CellOf(timers[0]))
      ensures forall i :: 0 <= i < |timers| ==> timers[i] in old(timers) || fresh(timers[i])
    {
      hide Sound;
      hide Waiting;
      for k := 0 to |added|
        invariant Sound() && ntimers == old(ntimers) + k
        invariant Waiting() == WithAdded(old(Waiting()), old(ntimers), added[..k])
        invariant timers != [] && timers[0] == old(timers[0]) && CellOf(timers[0]) == old(CellOf(timers[0]))
        invariant forall i :: 0 <= i < |timers| ==> timers[i] in old(timers) || fresh(timers[i])
      {
        assert added[..k + 1][..k] == added[..k];
        var t := AddPeriodical(added[k].msec, added[k].times, added[k].call);
      }
      assert added[..|added|] == added;
    }

    /** The test of process_tick for the last call, which counts the call */
    method CountCall() returns (last: bool)
      requires Sound() && timers != []
      modifies timers
      ensures last == LastCall(old(timers[0].times)) && timers[0].times == CountDown(old(timers[0].times))
      ensures Sound() && old(timers[0].identifier) < ntimers && timers[0].identifier == old(timers[0].identifier)
      ensures timers[0].delta == old(timers[0].delta)
      ensures var c := old(CellOf(timers[0]));
              Waiting() == old(Waiting())[c.id := Entry(c.delta, c.need, timers[0].times, c.call)]
    {
      ghost var cells := Cells(timers);
      last := false;
      if timers[0].times > 0 {
        timers[0].times := timers[0].times - 1;
        last := timers[0].times == 0;
      }
      assert Cells(timers)[1..] == cells[1..];
      hide Left;
      LeftFirst(cells);
      LeftFirst(Cells(timers));
    }

    /** timers.timers = timers->next */
    method DropFirst()
      requires Sound() && timers != [] && timers[0].delta == 0
      modifies this`timers
      ensures Sound() && timers == old(timers)[1..] && ntimers == old(ntimers)
      ensures Waiting() == old(Waiting()) - {old(timers[0].identifier)}
      ensures old(timers[0].identifier) !in Ids(Cells(timers))
    {
      ghost var cells := Cells(timers);
      timers := timers[1..];
      assert Cells(timers) == cells[1..];
      DropKept(cells, ntimers);
      hide *;
    }

    /** One round of process_tick: the timer whose time has come fires. */
    method FireFirst(reply: Callbacks) returns (id: nat)
      requires Sound() && timers != [] && timers[0].delta == 0 && Positive(reply)
      modifies this, timers
      ensures Sound() && id == old(timers[0].identifier) && id in old(Waiting()) && id < old(ntimers)
      ensures Waiting() == Fire(old(Waiting()), old(ntimers), id, reply)
      ensures ntimers == old(ntimers) + |AddedBy(old(Waiting()), id, reply)|
      ensures forall i :: 0 <= i < |timers| ==> timers[i] in old(timers) || fresh(timers[i])
    {
      ghost var c, m, n := CellOf(timers[0]), Waiting(), ntimers;
      FirstEntry(Cells(timers));
      hide Sound;
      hide Waiting;
      hide Fire;
      hide WithAdded;
      hide Cells;
      hide Left;
      hide Different;
      hide AddedBy;
      var t := timers[0];
      id := t.identifier;
      var last := CountCall();
      var r := reply(id, last);
      FireSteps(m, n, id, reply, Entry(c.delta, c.need, t.times, c.call));
      RunCallback(r.added);
      DropFirst();
      if !r.last {
        Again(t, id);
      }
    }

    /** The timer that has fired is made anew. */
    method Again(t: Timer, id: nat)
      requires Sound() && t.identifier == id < ntimers && id !in Ids(Cells(timers)) && t.need >= 1 && t !in timers
      modifies this, timers
      ensures Sound() && ntimers == old(ntimers)
      ensures Waiting() == old(Waiting())[id := Entry(t.need, t.need, t.times, t.call)]
      ensures forall i :: 0 <= i < |timers| ==> timers[i] in old(timers) || fresh(timers[i])
    {
      ghost var cells, c := Cells(timers), Cell(ntimers, t.need, t.need, 1, t.call);
      InsertOther(cells, c, id, t.times);
      hide Rising;
      hide Unique;
      hide Insert;
      hide Position;
      hide Left;
      hide Different;
      hide Ids;
      var u := AddTimeout(t.need, t.call);
      ntimers := ntimers - 1;
      Label(u, Position(cells, t.need), t.identifier, t.times);
      Grown(c.(id := id, times := t.times), u, ntimers);
      hide *;
    }

    /** The test of the loop of process_tick, which takes one from the first timer */
    method CountTick() returns (due: bool)
      requires Valid()
      modifies timers
      ensures Sound() && Waiting() == Lowered(old(Waiting())) && unchanged(this)
      ensures due <==> timers != [] && timers[0].delta == 0
      ensures !due ==> Valid()
    {
      due := false;
      ghost var cells := Cells(timers);
      LeftLower(cells, 0);
      if timers != [] {
        timers[0].delta := timers[0].delta - 1;
        due := timers[0].delta <= 0;
        assert Cells(timers)[1..] == cells[1..];
      }
    }

    /** What the end of the loop of process_tick gives back to the next timer */
    method GiveBack()
      requires Sound()
      modifies timers
      ensures Valid() && old(Waiting()) == Lowered(Waiting()) && unchanged(this)
    {
      ghost var cells := Cells(timers);
      if timers != [] {
        timers[0].delta := timers[0].delta + 1;
        assert Cells(timers)[1..] == cells[1..];
      }
      LeftLower(Cells(timers), 0);
    }

    lemma Bounds()
      requires Sound()
      ensures forall id :: id in Waiting() ==> id < ntimers && Waiting()[id].left >= 0 && Waiting()[id].need >= 1
      ensures Valid() ==> forall id :: id in Waiting() ==> Waiting()[id].left >= 1
      ensures Started(Waiting(), ntimers)
    {
      LeftKeys(Cells(timers), 0);
      LeftBound(Cells(timers), 0, 0);
      if Valid() {
        LeftBound(Cells(timers), 0, 1);
      }
    }

    /** Some timers have fired in this tick, and due says whether the first one of the list is next. */
    ghost predicate InTick(m: map<nat, Entry>, n: nat, fired: seq<nat>, reply: Callbacks, due: bool)
      reads this, timers
    {
      && Sound() && Ticked(m, n, fired, reply, Waiting(), ntimers)
      && (due <==> timers != [] && timers[0].delta == 0) && (!due ==> Valid())
      && (forall id :: id in fired ==> m[id].left == 1)
    }

    lemma FirstLeft()
      requires timers != []
      ensures var id := timers[0].identifier; id in Waiting() && Waiting()[id].left == timers[0].delta
    {
      FirstEntry(Cells(timers));
    }

    /** One round of the loop of process_tick, and its next test */
    method NextRound(ghost m: map<nat, Entry>, ghost n: nat, fired: seq<nat>, reply: Callbacks)
      returns (id: nat, due: bool)
      requires InTick(m, n, fired, reply, true) && Started(m, n) && Positive(reply)
      modifies this, timers
      ensures InTick(m, n, fired + [id], reply, due) && id in m && m[id].left == 1 && id !in fired
      ensures forall i :: 0 <= i < |timers| ==> timers[i] in old(timers) || fresh(timers[i])
    {
      ghost var m1, n1 := Waiting(), ntimers;
      assert Sound() && Ticked(m, n, fired, reply, m1, n1) && timers != [] && timers[0].delta == 0;
      assert forall i :: i in fired ==> i in m && m[i].left == 1;
      FirstLeft();
      hide *;
      id := FireFirst(reply);
      DueNow(m, n, fired, reply, m1, n1, id);
      NeedBelow(m, n);
      TickedOne(m, n, fired, reply, m1, n1, id);
      due := NextTest();
      TickGoesOn(m, n, fired + [id], reply, due);
    }

    /** The end of a round of the loop of process_tick, and the test that follows */
    method NextTest() returns (due: bool)
      requires Sound()
      modifies timers
      ensures unchanged(this) && Sound() && Waiting() == old(Waiting())
      ensures (due <==> timers != [] && timers[0].delta == 0) && (!due ==> Valid())
    {
      hide *;
      GiveBack();
      due := CountTick();
    }

    lemma TickGoesOn(m: map<nat, Entry>, n: nat, fired: seq<nat>, reply: Callbacks, due: bool)
      requires Sound() && Ticked(m, n, fired, reply, Waiting(), ntimers)
      requires (due <==> timers != [] && timers[0].delta == 0) && (!due ==> Valid())
      requires forall id :: id in fired ==> id in m && m[id].left == 1
      ensures InTick(m, n, fired, reply, due)
    {}

    /** process_tick: every timer comes one tick closer, and exactly those whose time has come fire, once each. */
    method ProcessTick(reply: Callbacks) returns (fired: seq<nat>)
      requires Valid() && Positive(reply)
      modifies this, timers
      ensures Valid() && Ticked(old(Waiting()), old(ntimers), fired, reply, Waiting(), ntimers)
      ensures forall id :: id in fired <==> id in old(Waiting()) && old(Waiting())[id].left == 1
      ensures forall i :: 0 <= i < |timers| ==> timers[i] in old(timers) || fresh(timers[i])
    {
      ghost var m, n := Waiting(), ntimers;
      Bounds();
      fired := [];
      var due := CountTick();
      TickStarts(m, n, reply, due);
      hide *;
      while due
        invariant InTick(m, n, fired, reply, due)
        invariant forall i :: 0 <= i < |timers| ==> timers[i] in old(timers) || fresh(timers[i])
        decreases StillDue(m, fired)
      {
        var id;
        id, due := NextRound(m, n, fired, reply);
        OneLessDue(m, fired, id);
        fired := fired + [id];
      }
      TickEnds(m, n, fired, reply);
    }

    lemma TickStarts(m: map<nat, Entry>, n: nat, reply: Callbacks, due: bool)
      requires Sound() && Waiting() == Lowered(m) && ntimers == n
      requires (due <==> timers != [] && timers[0].delta == 0) && (!due ==> Valid())
      ensures InTick(m, n, [], reply, due)
    {
      TickedNone(m, n, reply);
      TickGoesOn(m, n, [], reply, due);
      hide *;
    }

    lemma TickEnds(m: map<nat, Entry>, n: nat, fired: seq<nat>, reply: Callbacks)
      requires InTick(m, n, fired, reply, false)
      ensures Valid() && Ticked(m, n, fired, reply, Waiting(), ntimers)
      ensures forall id :: id in fired <==> id in m && m[id].left == 1
    {
      Bounds();
      NoneDue(m, n, fired, reply, Waiting(), ntimers);
      hide Ticked;
      hide Sound;
    }

    /** get_first_timer_ms: the least that any timer has left */
    method GetFirstTimerMs() returns (ms: int)
      requires Valid()
      ensures if Waiting() == map[] then ms == -1
              else ms >= 1 && (forall id :: id in Waiting() ==> ms <= Waiting()[id].left)
                   && exists id :: id in Waiting() && Waiting()[id].left == ms
    {
      if timers == [] {
        return -1;
      }
      FirstLeft();
      LeftBound(Cells(timers), 0, timers[0].delta);
      return timers[0].delta;
    }

    /** Any number of ticks: a timer whose callback leaves the flag of the last call alone fires just when its
        entry says. */
    method Run(ticks: nat, reply: nat -> Callbacks) returns (log: seq<seq<nat>>)
      requires Valid() && forall j :: Positive(reply(j))
      modifies this, timers
      ensures Valid() && |log| == ticks && Recorded(old(Waiting()), reply, log, Waiting())
    {
      log := [];
      ghost var m := Waiting();
      Bounds();
      hide *;
      RecordedNone(m, reply, Waiting());
      while |log| < ticks
        invariant Valid() && |log| <= ticks && Started(m, ntimers) && Recorded(m, reply, log, Waiting())
        invariant forall i :: 0 <= i < |timers| ==> timers[i] in old(timers) || fresh(timers[i])
        decreases ticks - |log|
      {
        ghost var m0, n0 := Waiting(), ntimers;
        assert Positive(reply(|log|));
        Bounds();
        var fired := ProcessTick(reply(|log|));
        RecordedNext(m, reply, log, m0, n0, fired, Waiting(), ntimers);
        log := log + [fired];
      }
    }
  }

  /** The timers that are waiting now have come from a map in the ticks of the log, and fired in them as their
      entries say. */
  ghost predicate Recorded(m: map<nat, Entry>, reply: nat -> Callbacks, log: seq<seq<nat>>, now: map<nat, Entry>) {
    forall id :: id in m && Quiet(reply, id) ==> RecordedOne(m[id], id, log, now)
  }

  ghost predicate RecordedOne(e: Entry, id: nat, log: seq<seq<nat>>, now: map<nat, Entry>) {
    && Follows(now, id, After(e, |log|))
    && forall i :: 0 <= i < |log| ==> (id in log[i] <==> FiresAt(e, i + 1))
  }

  lemma RecordedNone(m: map<nat, Entry>, reply: nat -> Callbacks, now: map<nat, Entry>)
    requires now == m
    ensures Recorded(m, reply, [], now)
  {}

  lemma RecordedNext(m: map<nat, Entry>, reply: nat -> Callbacks, log: seq<seq<nat>>, m0: map<nat, Entry>, n0: nat,
                     fired: seq<nat>, m1: map<nat, Entry>, n1: nat)
    requires Recorded(m, reply, log, m0) && Started(m, n0) && Ticked(m0, n0, fired, reply(|log|), m1, n1)
    requires forall i :: i in fired <==> i in m0 && m0[i].left == 1
    requires forall i :: i in m0 ==> m0[i].left >= 1
    ensures Recorded(m, reply, log + [fired], m1) && Started(m, n1)
  {
    TickedMore(m0, n0, fired, reply(|log|), m1, n1);
    hide Ticked;
    hide Follows;
    hide FiresAt;
    forall id | id in m && Quiet(reply, id) ensures RecordedOne(m[id], id, log + [fired], m1) {
      FollowsNext(m0, n0, fired, reply(|log|), m1, n1, id, m[id], |log|);
    }
  }

  /** The callback of this timer never changes the flag of the last call. */
  ghost predicate Quiet(reply: nat -> Callbacks, id: nat) {
    forall j, last :: reply(j)(id, last).last == last
  }

  ghost predicate Follows(m: map<nat, Entry>, id: nat, e: Option<Entry>) {
    match e
    case None => id !in m
    case Some(f) => id in m && m[id] == f
  }

  lemma TickedMore(m: map<nat, Entry>, n: nat, fired: seq<nat>, reply: Callbacks, m1: map<nat, Entry>, n1: nat)
    requires Ticked(m, n, fired, reply, m1, n1)
    ensures n <= n1
  {}

  lemma FollowsNext(m: map<nat, Entry>, n: nat, fired: seq<nat>, reply: Callbacks, m1: map<nat, Entry>, n1: nat,
                    id: nat, e: Entry, ticks: nat)
    requires Ticked(m, n, fired, reply, m1, n1) && id < n && forall last :: reply(id, last).last == last
    requires forall i :: i in fired <==> i in m && m[i].left == 1
    requires forall i :: i in m ==> m[i].left >= 1
    requires Follows(m, id, After(e, ticks))
    ensures Follows(m1, id, After(e, ticks + 1)) && (id in fired <==> FiresAt(e, ticks + 1))
  {}

  lemma NeedBelow(m: map<nat, Entry>, n: nat)
    requires Started(m, n)
    ensures forall i :: i in m ==> i < n
  {}

  ghost function StillDue(m: map<nat, Entry>, fired: seq<nat>): set<nat> {
    set id | id in m && m[id].left == 1 && id !in fired
  }

  lemma OneLessDue(m: map<nat, Entry>, fired: seq<nat>, id: nat)
    requires id in m && m[id].left == 1 && id !in fired
    ensures StillDue(m, fired + [id]) < StillDue(m, fired)
  {
    assert id in StillDue(m, fired) && id !in StillDue(m, fired + [id]);
  }

  lemma {:induction false} LeftLower(cells: seq<Cell>, base: int)
    ensures Left(cells, base - 1) == Lowered(Left(cells, base))
  {
    if cells != [] {
      LeftLower(cells[1..], base + cells[0].delta);
    }
  }

  ghost predicate Started(m: map<nat, Entry>, n: nat) { forall id :: id in m ==> id < n && m[id].need >= 1 }

  lemma {:induction false} AddedPositive(m: map<nat, Entry>, fired: seq<nat>, reply: Callbacks)
    requires Positive(reply) && forall id :: id in fired ==> id in m
    ensures Waits(AllAdded(m, fired, reply))
  {
    if fired != [] {
      AddedPositive(m, fired[..|fired| - 1], reply);
    }
  }

  /** A timer that has nothing left during a tick was due at its start, and has not fired. */
  lemma DueNow(m: map<nat, Entry>, n: nat, fired: seq<nat>, reply: Callbacks, m1: map<nat, Entry>, n1: nat, id: nat)
    requires Ticked(m, n, fired, reply, m1, n1) && Started(m, n) && Positive(reply)
    requires id in m1 && m1[id].left == 0
    ensures id in m && m[id].left == 1 && id !in fired
  {
    AddedPositive(m, fired, reply);
    hide AllAdded;
  }

  lemma NoneDue(m: map<nat, Entry>, n: nat, fired: seq<nat>, reply: Callbacks, m1: map<nat, Entry>, n1: nat)
    requires Ticked(m, n, fired, reply, m1, n1) && forall id :: id in m1 ==> m1[id].left >= 1
    ensures forall id :: id in m && m[id].left == 1 ==> id in fired
    ensures forall id :: id in fired ==> id in m
  {}

  lemma FirstEntry(cells: seq<Cell>)
    requires cells != []
    ensures cells[0].id in Left(cells, 0)
    ensures var c := cells[0]; Left(cells, 0)[c.id] == Entry(c.delta, c.need, c.times, c.call)
  {}

  lemma LeftFirst(cells: seq<Cell>)
    requires cells != []
    ensures var c := cells[0];
            Left(cells, 0) == Left(cells[1..], c.delta)[c.id := Entry(c.delta, c.need, c.times, c.call)]
  {}

  lemma TailUnique(x: nat, s: seq<nat>, n: nat)
    requires Distinct([x] + s) && Below([x] + s, n)
    ensures Distinct(s) && Below(s, n) && x !in s
  {
    forall i, j | 0 <= i < j < |s| ensures s[i] != s[j] {
      assert ([x] + s)[i + 1] != ([x] + s)[j + 1];
    }
    forall i | 0 <= i < |s| ensures s[i] < n && s[i] != x {
      assert ([x] + s)[i + 1] == s[i] && ([x] + s)[0] == x;
    }
  }

  lemma Without<K, V>(m: map<K, V>, k: K, v: V)
    requires k !in m
    ensures m[k := v] - {k} == m
  {}

  lemma DropKept(cells: seq<Cell>, n: nat)
    requires Rising(cells) && Unique(cells, n) && cells != [] && cells[0].delta == 0
    ensures Rising(cells[1..]) && Unique(cells[1..], n) && cells[0].id !in Ids(cells[1..])
    ensures Left(cells[1..], 0) == Left(cells, 0) - {cells[0].id}
  {
    var c, l := cells[0], Left(cells[1..], 0);
    assert Ids(cells) == [c.id] + Ids(cells[1..]);
    TailUnique(c.id, Ids(cells[1..]), n);
    hide Ids;
    LeftKeys(cells[1..], 0);
    LeftFirst(cells);
    hide Left;
    Without(l, c.id, Entry(c.delta, c.need, c.times, c.call));
  }

  /** The count of a timer that fires has no say in what its callback adds. */
  lemma {:induction false} WithAddedOther(m: map<nat, Entry>, n: nat, added: seq<Addition>, id: nat, e: Entry)
    requires id < n
    ensures WithAdded(m[id := e], n, added) - {id} == WithAdded(m, n, added) - {id}
  {
    if added != [] {
      var k := |added| - 1;
      WithAddedOther(m, n, added[..k], id, e);
      PutBoth(WithAdded(m[id := e], n, added[..k]), WithAdded(m, n, added[..k]), id, n + k,
              Entry(added[k].msec, added[k].msec, added[k].times, added[k].call));
    }
  }

  lemma PutBoth<K, V>(a: map<K, V>, b: map<K, V>, id: K, k: K, v: V)
    requires a - {id} == b - {id}
    ensures a[k := v] - {id} == b[k := v] - {id}
  {
    forall i | i != id ensures (i in a <==> i in b) && (i in a ==> a[i] == b[i]) {
      assert i in a <==> i in a - {id};
      assert i in b <==> i in b - {id};
      assert i in a ==> (a - {id})[i] == (b - {id})[i];
    }
  }

  /** What the steps of one round of process_tick come to */
  lemma FireSteps(m: map<nat, Entry>, n: nat, id: nat, reply: Callbacks, e: Entry)
    requires id in m && id < n
    ensures var r := reply(id, LastCall(m[id].times));
            var w := WithAdded(m[id := e], n, r.added) - {id};
            Fire(m, n, id, reply) ==
            if r.last then w else w[id := Entry(m[id].need, m[id].need, CountDown(m[id].times), m[id].call)]
  {
    WithAddedOther(m, n, reply(id, LastCall(m[id].times)).added, id, e);
    hide WithAdded;
  }

  lemma NewId(cells: seq<Cell>, n: nat)
    requires Unique(cells, n)
    ensures Unique(cells, n + 1) && n !in Ids(cells)
  {}

  // ----- runs -----

  /** What one tick makes of one timer whose callback leaves the flag alone */
  function Next(e: Entry): Option<Entry> {
    if e.left > 1 then Some(e.(left := e.left - 1))
    else if LastCall(e.times) then None
    else Some(Entry(e.need, e.need, CountDown(e.times), e.call))
  }

  function After(e: Entry, ticks: nat): Option<Entry> {
    if ticks == 0 then Some(e)
    else match After(e, ticks - 1) { case None => None case Some(f) => Next(f) }
  }

  predicate FiresAt(e: Entry, tick: nat)
    requires 0 < tick
  {
    After(e, tick - 1).Some? && After(e, tick - 1).value.left == 1
  }

  /** How often a timer without a count has fired after t ticks, and what is left then */
  function Calls(e: Entry, t: nat): nat
    requires e.left >= 1 && e.need >= 1
  {
    if t < e.left then 0 else 1 + (t - e.left) / e.need
  }

  function Remaining(e: Entry, t: nat): int
    requires e.left >= 1 && e.need >= 1
  {
    if t < e.left then e.left - t else e.need - (t - e.left) % e.need
  }

  lemma OneTick(e: Entry, t: nat)
    requires e.left >= 1 && e.need >= 1 && t > 0
    ensures if Remaining(e, t - 1) == 1 then Calls(e, t) == Calls(e, t - 1) + 1 && Remaining(e, t) == e.need
            else Calls(e, t) == Calls(e, t - 1) && Remaining(e, t) == Remaining(e, t - 1) - 1
    ensures Remaining(e, t - 1) >= 1
  {
    if t > e.left {
      NextDivision(t - 1 - e.left, e.need);
    }
  }

  /** What t ticks make of a timer */
  lemma {:induction false} AfterIs(e: Entry, t: nat)
    requires e.left >= 1 && e.need >= 1
    ensures var f := Calls(e, t);
            After(e, t) == if e.times > 0 && f >= e.times then None
                           else Some(Entry(Remaining(e, t), e.need, if e.times > 0 then e.times - f else e.times,
                                           e.call))
  {
    if t > 0 {
      AfterIs(e, t - 1);
      hide Calls;
      hide Remaining;
      OneTick(e, t);
    }
  }

  /** When one tick is left, the calls so far say which tick is next. */
  lemma DueIs(e: Entry, t: nat)
    requires e.left >= 1 && e.need >= 1 && Remaining(e, t) == 1
    ensures t + 1 == e.left + Calls(e, t) * e.need
  {
    if t >= e.left {
      NextDivision(t - e.left, e.need);
      var q := (t - e.left) / e.need;
      assert (1 + q) * e.need == e.need * q + e.need;
    }
  }

  lemma IsDue(e: Entry, t: nat, i: nat)
    requires e.left >= 1 && e.need >= 1 && t + 1 == e.left + i * e.need
    ensures Remaining(e, t) == 1 && Calls(e, t) == i
  {
    if i > 0 {
      Multiple(i, e.need);
      assert i * e.need == e.need * (i - 1) + e.need;
      Words.Division(t - e.left, e.need, i - 1, e.need - 1);
    }
  }

  lemma NextDivision(x: nat, d: nat)
    requires d >= 1
    ensures if x % d == d - 1 then (x + 1) / d == x / d + 1 && (x + 1) % d == 0
            else (x + 1) / d == x / d && (x + 1) % d == x % d + 1
  {
    if x % d == d - 1 {
      assert x + 1 == d * (x / d + 1);
      Words.Division(x + 1, d, x / d + 1, 0);
    } else {
      Words.Division(x + 1, d, x / d, x % d + 1);
    }
  }

  /** A timer of n calls fires at its first time and then n - 1 times more, need ticks apart each time; a timer
      without a count does so for ever. */
  lemma FiresExactly(e: Entry, tick: nat)
    requires e.left >= 1 && e.need >= 1 && 0 < tick
    ensures FiresAt(e, tick) <==>
            exists i: nat :: tick == e.left + i * e.need && (e.times > 0 ==> i < e.times)
  {
    if FiresAt(e, tick) {
      FiresThen(e, tick);
    }
    if i: nat :| tick == e.left + i * e.need && (e.times > 0 ==> i < e.times) {
      ThenFires(e, tick, i);
    }
  }

  lemma FiresThen(e: Entry, tick: nat)
    requires e.left >= 1 && e.need >= 1 && 0 < tick && FiresAt(e, tick)
    ensures exists i: nat :: tick == e.left + i * e.need && (e.times > 0 ==> i < e.times)
  {
    AfterIs(e, tick - 1);
    hide Calls;
    hide Remaining;
    DueIs(e, tick - 1);
    assert tick == e.left + Calls(e, tick - 1) * e.need;
  }

  lemma ThenFires(e: Entry, tick: nat, i: nat)
    requires e.left >= 1 && e.need >= 1 && 0 < tick && tick == e.left + i * e.need && (e.times > 0 ==> i < e.times)
    ensures FiresAt(e, tick)
  {
    AfterIs(e, tick - 1);
    hide Calls;
    hide Remaining;
    IsDue(e, tick - 1, i);
  }

  lemma Multiple(i: nat, d: nat)
    requires i >= 1 && d >= 1
    ensures i * d >= d >= 1
  {
    assert (i - 1) * d >= 0;
  }
}
