/** Posting, fan-out, flushing and deletion in src/raw.c and src/users.c: when a shared message is freed, and what
    a flush puts on the wire. */
module RawQueues {
  import opened Bytes
  import opened RawPools

  class Subuser {
    const low: Pool
    const high: Pool
    var nraw: nat
    /** headers.sent */
    var headersSent: bool

    /** The pools as addsubuser sets them up. */
    constructor ()
      ensures Valid() && low.Queue() == [] && high.Queue() == [] && fresh(low) && fresh(high)
      ensures Held(low.slots) == multiset{} && Held(high.slots) == multiset{}
      ensures low.size == 32 && high.size == 8 && nraw == 0 && !headersSent
    {
      var l := new Pool(32);
      var h := new Pool(8);
      low, high, nraw, headersSent := l, h, 0, false;
    }

    ghost predicate Valid()
      reads this, low, high
    {
      && low.Valid() && high.Valid() && low != high && nraw == low.nraw + high.nraw
      && (forall r :: r in low.Queue() ==> r.priority == Low)
      && (forall r :: r in high.Queue() ==> r.priority == High)
    }
  }

  ghost function HeldBy(s: Subuser): multiset<Raw>
    reads s.low, s.high
  {
    Held(s.low.slots) + Held(s.high.slots)
  }

  ghost function PoolsOf(subs: seq<Subuser>): set<Pool> {
    (set s | s in subs :: s.low) + (set s | s in subs :: s.high)
  }

  /** All slots of all subusers. */
  ghost function Total(subs: seq<Subuser>): multiset<Raw>
    reads PoolsOf(subs)
  {
    if subs == [] then multiset{} else Total(subs[..|subs| - 1]) + HeldBy(subs[|subs| - 1])
  }

  /** Different subusers have different pools. */
  ghost predicate Apart(subs: seq<Subuser>) {
    && (forall i :: 0 <= i < |subs| ==> subs[i].low != subs[i].high)
    && (forall i, j :: 0 <= i < j < |subs| ==>
          subs[i] != subs[j] && subs[i].low != subs[j].low && subs[i].low != subs[j].high
          && subs[i].high != subs[j].low && subs[i].high != subs[j].high)
  }

  /** Only the pools of one subuser have changed. */
  twostate predicate OnlyPoolsOf(subs: seq<Subuser>, i: nat)
    requires i < |subs|
    reads PoolsOf(subs)
  {
    forall j :: 0 <= j < |subs| && j != i ==> unchanged(subs[j].low) && unchanged(subs[j].high)
  }

  twostate lemma {:induction false} TotalChanged(subs: seq<Subuser>, new i: nat)
    requires i < |subs| && OnlyPoolsOf(subs, i)
    ensures Total(subs) + old(HeldBy(subs[i])) == old(Total(subs)) + HeldBy(subs[i])
    decreases |subs|
  {
    var n := |subs| - 1;
    if i < n {
      TotalChanged(subs[..n], i);
      assert unchanged(subs[n].low) && unchanged(subs[n].high);
      SameHeld(subs[n]);
      hide HeldBy;
      WithLast(old(Total(subs[..n])), Total(subs[..n]), old(HeldBy(subs[i])), HeldBy(subs[i]), HeldBy(subs[n]));
    } else {
      TotalSame(subs[..n]);
      hide HeldBy;
      Exchange(Total(subs[..n]), old(HeldBy(subs[n])), HeldBy(subs[n]));
    }
  }

  twostate lemma SameHeld(s: Subuser)
    requires unchanged(s.low) && unchanged(s.high)
    ensures HeldBy(s) == old(HeldBy(s))
  {}

  twostate lemma {:induction false} TotalSame(subs: seq<Subuser>)
    requires forall j :: 0 <= j < |subs| ==> unchanged(subs[j].low) && unchanged(subs[j].high)
    ensures Total(subs) == old(Total(subs))
  {
    if subs != [] {
      TotalSame(subs[..|subs| - 1]);
      assert unchanged(subs[|subs| - 1].low) && unchanged(subs[|subs| - 1].high);
    }
  }

  // ----- reference counts -----

  function AtLeastOne(n: int): int { if n < 1 then 1 else n }

  /** A message with this count is in n slots: none when it is new, else max(1, count). */
  predicate CountOk(count: int, n: nat) { count >= 0 && (if n == 0 then count == 0 else n == AtLeastOne(count)) }

  ghost predicate RefOk(r: Raw, n: nat)
    reads r
  {
    CountOk(r.refcount, n)
  }

  /** Posting a counted copy keeps the count right exactly when the message is new or already counted; posting
      it as it is exactly when it is new. */
  lemma PostingIsExact(count: int, n: nat)
    requires CountOk(count, n)
    ensures CountOk(count + 1, n + 1) <==> n == 0 || count >= 1
    ensures CountOk(count, n + 1) <==> n == 0
  {}

  /** One slot and one count less: a message that is out of its last slot is no longer counted. */
  lemma OneFewer(count: int, n: nat)
    requires CountOk(count, n) && 0 < n
    ensures count - 1 <= 0 <==> n == 1
    ensures count - 1 > 0 ==> CountOk(count - 1, n - 1)
  {}

  /** Every message in a slot is live, and every live message is counted right. */
  ghost predicate RefsOk(live: set<Raw>, t: multiset<Raw>)
    reads live
  {
    (forall r :: r in t ==> r in live) && (forall r :: r in live ==> RefOk(r, t[r]))
  }

  lemma RefsForge(live: set<Raw>, t: multiset<Raw>, raw: Raw)
    requires RefsOk(live, t) && raw !in live && raw.refcount == 0
    ensures RefsOk(live + {raw}, t)
  {}

  lemma RefsPost(live: set<Raw>, t: multiset<Raw>, raw: Raw)
    requires RefsOk(live, t) && raw in live && raw !in t
    ensures RefsOk(live, t + multiset{raw})
  {}

  /** In pools that hold the messages t: one more slot for a message keeps all counts right exactly when the message
      is new. */
  lemma PostKeeps(live: set<Raw>, t: multiset<Raw>, raw: Raw)
    requires RefsOk(live, t) && raw in live
    ensures RefsOk(live, t + multiset{raw}) <==> raw !in t
  {
    var more := t + multiset{raw};
    PostingIsExact(raw.refcount, t[raw]);
    assert RefOk(raw, t[raw]);
    if RefsOk(live, more) { assert RefOk(raw, more[raw]); }
    if raw !in t {
      forall r | r in live ensures RefOk(r, more[r]) { assert RefOk(r, t[r]); }
    }
  }

  /** One more slot and one more count do so exactly when the message is new or already counted. */
  twostate lemma CopyKeeps(live: set<Raw>, t: multiset<Raw>, raw: Raw)
    requires old(RefsOk(live, t)) && raw in live && OnlyRaw(live, raw) && raw.refcount == old(raw.refcount) + 1
    ensures RefsOk(live, t + multiset{raw}) <==> raw !in t || old(raw.refcount) >= 1
  {
    var more := t + multiset{raw};
    PostingIsExact(old(raw.refcount), t[raw]);
    assert old(RefOk(raw, t[raw]));
    if RefsOk(live, more) { assert RefOk(raw, more[raw]); }
    if raw !in t || old(raw.refcount) >= 1 {
      forall r | r in live ensures RefOk(r, more[r]) {
        assert old(RefOk(r, t[r])) && (r != raw ==> unchanged(r));
      }
    }
  }

  twostate predicate OnlyRaw(live: set<Raw>, raw: Raw)
    reads live
  {
    forall r :: r in live && r != raw ==> unchanged(r)
  }

  /** post_raw_sub */
  method PostRawSub(raw: Raw, sub: Subuser)
    requires sub.Valid()
    modifies sub`nraw, sub.low, sub.high
    ensures sub.Valid() && HeldBy(sub) == old(HeldBy(sub)) + multiset{raw}
    ensures sub.low.Queue() == old(sub.low.Queue()) + if raw.priority == Low then [raw] else []
    ensures sub.high.Queue() == old(sub.high.Queue()) + if raw.priority == High then [raw] else []
  {
    ghost var l, h := Held(sub.low.slots), Held(sub.high.slots);
    if raw.priority == Low {
      sub.low.Post(raw);
      Exchange(l, multiset{raw}, h);
    } else {
      sub.high.Post(raw);
      Assoc(l, h, multiset{raw});
    }
    sub.nraw := sub.nraw + 1;
    assert sub.low.Queue() + [] == sub.low.Queue() && sub.high.Queue() + [] == sub.high.Queue();
  }

  class User {
    /** The list, newest first. */
    var subuser: seq<Subuser>
  }

  /** All subusers there are, and all messages that have been forged and not freed. */
  class Hub {
    ghost var subs: seq<Subuser>
    ghost var live: set<Raw>

    ghost predicate Valid()
      reads this, live, PoolsOf(subs)
    {
      Apart(subs) && RefsOk(live, Total(subs))
    }

    /** A message may be posted by copy_raw_z when it is new or already counted. One that was posted
        without a copy has to get its first count before. */
    ghost predicate MayShare(raw: Raw)
      reads this, raw, PoolsOf(subs)
    {
      raw in live && (raw.refcount >= 1 || raw !in Total(subs))
    }

    /** forge_raw */
    method Forge(data: seq<Byte>, priority: Priority) returns (raw: Raw)
      requires Valid()
      modifies this
      ensures Valid() && fresh(raw) && live == old(live) + {raw} && subs == old(subs) && raw !in Total(subs)
      ensures raw.data == data && raw.priority == priority && raw.refcount == 0
    {
      raw := new Raw(data, priority);
      StillOk();
      hide Total;
      hide RefsOk;
      ghost var t := Total(subs);
      RefsForge(live, t, raw);
      live := live + {raw};
      StillTotal();
    }

    twostate lemma StillTotal()
      requires unchanged(this`subs) && forall p :: p in PoolsOf(subs) ==> unchanged(p)
      ensures Total(subs) == old(Total(subs))
    {
      forall j | 0 <= j < |subs| ensures unchanged(subs[j].low) && unchanged(subs[j].high) {
        assert subs[j] in subs && subs[j].low in PoolsOf(subs) && subs[j].high in PoolsOf(subs);
      }
      TotalSame(subs);
    }

    twostate lemma StillOk()
      requires old(Valid()) && unchanged(this) && (forall p :: p in PoolsOf(subs) ==> unchanged(p))
      requires forall r :: r in live ==> unchanged(r)
      ensures Valid() && Total(subs) == old(Total(subs)) && forall r :: r in Total(subs) ==> r in live
    {
      StillTotal();
      hide Total;
      forall r | r in live ensures RefOk(r, Total(subs)[r]) {
        assert old(RefOk(r, Total(subs)[r])) && unchanged(r);
      }
    }

    /** A new message posted to one subuser only, without a copy. */
    method PostFresh(raw: Raw, ghost i: nat, sub: Subuser)
      requires Valid() && i < |subs| && sub == subs[i] && sub.Valid() && raw in live && raw !in Total(subs)
      modifies sub`nraw, sub.low, sub.high
      ensures Valid() && sub.Valid() && Total(subs) == old(Total(subs)) + multiset{raw}
      ensures sub.low.Queue() == old(sub.low.Queue()) + if raw.priority == Low then [raw] else []
      ensures sub.high.Queue() == old(sub.high.Queue()) + if raw.priority == High then [raw] else []
    {
      hide HeldBy;
      hide Total;
      hide RefsOk;
      RefsPost(live, Total(subs), raw);
      PostRawSub(raw, sub);
      Posted(i, raw);
    }

    lemma NotNegative(raw: Raw)
      requires Valid() && raw in live
      ensures raw.refcount >= 0
    {}

    /** copy_raw_z has counted one more holder. */
    twostate lemma Shared(raw: Raw)
      requires old(Valid() && MayShare(raw)) && unchanged(this)
      requires OnlyRaw(live, raw) && raw.refcount == old(raw.refcount) + 1
      ensures RefsOk(live, old(Total(subs)) + multiset{raw})
    {
      var t := old(Total(subs));
      hide Total;
      forall r | r in live ensures RefOk(r, (t + multiset{raw})[r]) {
        assert old(RefOk(r, t[r]));
        assert r != raw ==> unchanged(r);
      }
    }

    /** A message that is not the one given up is in as many slots as before. */
    twostate lemma OtherKept(raw: Raw, new r: Raw)
      requires old(Valid()) && old(Total(subs)) == Total(subs) + multiset{raw}
      requires OnlyRaw(old(live), raw) && r in old(live) && r != raw
      ensures RefOk(r, Total(subs)[r])
    {
      hide Total;
      hide Apart;
      OneLess(old(Total(subs)), Total(subs), raw, r);
      assert old(RefOk(r, Total(subs)[r])) && unchanged(r);
    }

    twostate lemma OneGone(raw: Raw)
      requires old(Valid()) && old(Total(subs)) == Total(subs) + multiset{raw}
      requires raw.refcount == old(raw.refcount) - 1
      ensures raw in old(live) && (raw.refcount <= 0 <==> raw !in Total(subs))
      ensures raw.refcount > 0 ==> RefOk(raw, Total(subs)[raw])
      ensures forall r :: r in Total(subs) ==> r in old(live)
    {
      hide Total;
      hide CountOk;
      hide Apart;
      OneLess(old(Total(subs)), Total(subs), raw, raw);
      assert raw in old(Total(subs)) && old(RefOk(raw, Total(subs)[raw]));
      OneFewer(old(raw.refcount), old(Total(subs))[raw]);
    }

    /** free_raw has taken one holder off: out of its last slot a message is freed, out of another one it is not. */
    twostate lemma Released(raw: Raw)
      requires old(Valid()) && unchanged(this`subs) && old(Total(subs)) == Total(subs) + multiset{raw}
      requires OnlyRaw(old(live), raw) && raw.refcount == old(raw.refcount) - 1
      requires live == if raw.refcount <= 0 then old(live) - {raw} else old(live)
      ensures raw in old(live) && (raw in live <==> raw in Total(subs)) && RefsOk(live, Total(subs))
    {
      hide Total;
      hide RefOk;
      hide Valid;
      hide OnlyRaw;
      OneGone(raw);
      forall r | r in live && r != raw ensures RefOk(r, Total(subs)[r]) {
        OtherKept(raw, r);
      }
    }

    /** post_raw_sub on a counted copy */
    method PostCopy(raw: Raw, ghost i: nat, sub: Subuser)
      requires Valid() && i < |subs| && sub == subs[i] && sub.Valid() && MayShare(raw)
      modifies sub`nraw, sub.low, sub.high, raw
      ensures Valid() && sub.Valid() && Total(subs) == old(Total(subs)) + multiset{raw}
      ensures MayShare(raw) && raw.refcount == old(raw.refcount) + 1
      ensures sub.low.Queue() == old(sub.low.Queue()) + if raw.priority == Low then [raw] else []
      ensures sub.high.Queue() == old(sub.high.Queue()) + if raw.priority == High then [raw] else []
    {
      hide HeldBy;
      hide Total;
      hide RefsOk;
      NotNegative(raw);
      raw.refcount := raw.refcount + 1;
      Shared(raw);
      PostRawSub(raw, sub);
      Posted(i, raw);
    }

    twostate lemma Cleared(new i: nat, raw: Raw)
      requires i < |subs| && Apart(subs) && unchanged(this`subs) && OnlyPoolsOf(subs, i)
      requires old(HeldBy(subs[i])) == HeldBy(subs[i]) + multiset{raw}
      ensures old(Total(subs)) == Total(subs) + multiset{raw}
    {
      TotalChanged(subs, i);
      hide HeldBy;
      hide Total;
      CancelOne(Total(subs), old(Total(subs)), HeldBy(subs[i]), multiset{raw});
    }

    twostate lemma SameSlots(new i: nat)
      requires old(Valid()) && unchanged(this) && i < |subs| && OnlyPoolsOf(subs, i)
      requires unchanged(subs[i].low`slots) && unchanged(subs[i].high`slots)
      requires forall r :: r in live ==> unchanged(r)
      ensures Valid() && Total(subs) == old(Total(subs))
    {
      TotalChanged(subs, i);
      hide Total;
      hide HeldBy;
      assert HeldBy(subs[i]) == old(HeldBy(subs[i])) by { SameHeldSlots(i); }
      CancelSame(Total(subs), old(Total(subs)), HeldBy(subs[i]));
      forall r | r in live ensures RefOk(r, Total(subs)[r]) {
        assert old(RefOk(r, Total(subs)[r])) && unchanged(r);
      }
    }

    twostate lemma SameHeldSlots(new i: nat)
      requires i < |subs| && unchanged(this`subs) && unchanged(subs[i].low`slots) && unchanged(subs[i].high`slots)
      ensures HeldBy(subs[i]) == old(HeldBy(subs[i]))
    {}

    twostate lemma Posted(new i: nat, raw: Raw)
      requires i < |subs| && Apart(subs) && unchanged(this) && OnlyPoolsOf(subs, i)
      requires HeldBy(subs[i]) == old(HeldBy(subs[i])) + multiset{raw}
      ensures Total(subs) == old(Total(subs)) + multiset{raw}
    {
      TotalChanged(subs, i);
      hide HeldBy;
      hide Total;
      var o := old(HeldBy(subs[i]));
      Cancel(Total(subs), o, old(Total(subs)), multiset{raw});
    }

    /** What posting adds to the queues of a subuser. */
    ghost predicate Got(s: Subuser, raw: Raw, low: seq<Raw>, high: seq<Raw>)
      requires s.Valid()
      reads s, s.low, s.high
    {
      && s.low.Queue() == low + (if raw.priority == Low then [raw] else [])
      && s.high.Queue() == high + (if raw.priority == High then [raw] else [])
    }

    lemma Different(s: Subuser, t: Subuser)
      requires Apart(subs) && s in subs && t in subs && s != t
      ensures s.low != t.low && s.low != t.high && s.high != t.low && s.high != t.high
    {
      var i :| 0 <= i < |subs| && subs[i] == s;
      var j :| 0 <= j < |subs| && subs[j] == t;
      assert i < j || j < i;
    }

    /** The first n of the list have got the message, the others have their queues as they were. */
    ghost predicate Reached(list: seq<Subuser>, n: nat, raw: Raw, lows: seq<seq<Raw>>, highs: seq<seq<Raw>>)
      requires Joined(list) && |lows| == |highs| == |list|
      reads this, subs, list, PoolsOf(subs), PoolsOf(list)
    {
      && (forall k :: 0 <= k < |list| && k < n ==> Got(list[k], raw, lows[k], highs[k]))
      && (forall k :: n <= k < |list| ==> list[k].low.Queue() == lows[k] && list[k].high.Queue() == highs[k])
    }

    /** One turn of the loop of post_raw. */
    method PostNext(raw: Raw, list: seq<Subuser>, n: nat, ghost lows: seq<seq<Raw>>, ghost highs: seq<seq<Raw>>)
      requires Valid() && MayShare(raw) && Joined(list) && n < |list|
      requires |lows| == |highs| == |list| && Reached(list, n, raw, lows, highs)
      modifies raw, list`nraw, PoolsOf(list)
      ensures Valid() && MayShare(raw) && Joined(list) && Reached(list, n + 1, raw, lows, highs)
      ensures raw.refcount == old(raw.refcount) + 1 && Total(subs) == old(Total(subs)) + multiset{raw}
    {
      hide RefsOk;
      hide Total;
      hide HeldBy;
      hide RefOk;
      var sub := list[n];
      ghost var i :| 0 <= i < |subs| && subs[i] == sub;
      OthersApart(list, n);
      hide Apart;
      hide Valid;
      hide MayShare;
      assert sub in list && sub.low in PoolsOf(list) && sub.high in PoolsOf(list);
      PostCopy(raw, i, sub);
    }

    lemma OthersApart(list: seq<Subuser>, n: nat)
      requires Valid() && Joined(list) && n < |list|
      ensures forall k :: 0 <= k < |list| && k != n ==>
                list[k] != list[n] && list[k].low != list[n].low && list[k].low != list[n].high
                && list[k].high != list[n].low && list[k].high != list[n].high
    {
      forall k | 0 <= k < |list| && k != n
        ensures list[k] != list[n] && list[k].low != list[n].low && list[k].low != list[n].high
        ensures list[k].high != list[n].low && list[k].high != list[n].high
      {
        Different(list[k], list[n]);
      }
    }

    /** post_raw: to every subuser of a user, counted once for each. */
    method PostRaw(raw: Raw, user: User)
      requires Valid() && MayShare(raw) && Joined(user.subuser)
      modifies raw, user.subuser`nraw, PoolsOf(user.subuser)
      ensures Valid() && Joined(user.subuser) && MayShare(raw) && raw.refcount == old(raw.refcount) + |user.subuser|
      ensures Total(subs) == old(Total(subs))[raw := old(Total(subs)[raw]) + |user.subuser|]
      ensures forall k :: 0 <= k < |user.subuser| ==>
                Got(user.subuser[k], raw, old(user.subuser[k].low.Queue()), old(user.subuser[k].high.Queue()))
    {
      hide RefsOk;
      hide Total;
      hide HeldBy;
      hide RefOk;
      hide Valid;
      var list := user.subuser;
      ghost var lows := seq(|list|, k requires 0 <= k < |list| && list[k].Valid() reads list, PoolsOf(list) =>
                              list[k].low.Queue());
      ghost var highs := seq(|list|, k requires 0 <= k < |list| && list[k].Valid() reads list, PoolsOf(list) =>
                               list[k].high.Queue());
      for n := 0 to |list|
        invariant Valid() && Joined(list) && MayShare(raw) && raw.refcount == old(raw.refcount) + n
        invariant Total(subs) == old(Total(subs))[raw := old(Total(subs)[raw]) + n]
        invariant Reached(list, n, raw, lows, highs)
      {
        PostNext(raw, list, n, lows, highs);
      }
    }

    /** free_raw, and the clearing of the slot, in any state: a message is freed while another slot still holds it
        exactly when its count is one or less although it is in two slots or more. */
    method FreeSlot(pool: Pool, k: nat, ghost i: nat)
      requires Apart(subs) && i < |subs| && (pool == subs[i].low || pool == subs[i].high)
      requires k < |pool.slots| && pool.slots[k] != null
      modifies this`live, pool`slots, pool.slots[k]
      ensures pool.slots == old(pool.slots)[k := null]
      ensures var raw := old(pool.slots[k]);
              && raw.refcount == old(raw.refcount) - 1 && old(Total(subs)) == Total(subs) + multiset{raw}
              && live == (if old(raw.refcount) <= 1 then old(live) - {raw} else old(live))
              && (raw in old(live) ==>
                    (raw !in live && raw in Total(subs) <==> old(raw.refcount) <= 1 && old(Total(subs))[raw] >= 2))
    {
      hide Total;
      hide HeldBy;
      hide Apart;
      var raw: Raw := pool.slots[k];
      raw.refcount := raw.refcount - 1;
      if raw.refcount <= 0 {
        live := live - {raw};
      }
      EmptySlot(pool, k, i);
      Cleared(i, raw);
      OneLess(old(Total(subs)), Total(subs), raw, raw);
    }

    /** free_raw, and the clearing of the slot: the message is freed exactly when no other slot holds it. */
    method Release(pool: Pool, k: nat, ghost i: nat)
      requires Valid() && i < |subs| && (pool == subs[i].low || pool == subs[i].high)
      requires k < |pool.slots| && pool.slots[k] != null
      modifies this`live, pool`slots, pool.slots[k]
      ensures Valid() && pool.slots == old(pool.slots)[k := null]
      ensures var raw := old(pool.slots[k]);
              && old(Total(subs)) == Total(subs) + multiset{raw}
              && live == (if raw in Total(subs) then old(live) else old(live) - {raw})
    {
      hide RefsOk;
      hide Total;
      hide Apart;
      ghost var raw: Raw := pool.slots[k];
      FreeSlot(pool, k, i);
      Released(raw);
    }

    /** A message that is posted twice without a copy is freed with the first of its slots, while the other still
        holds it. */
    method PostTwice(raw: Raw, ghost i: nat, sub: Subuser)
      requires Valid() && i < |subs| && sub == subs[i] && sub.Valid() && raw in live && raw !in Total(subs)
      modifies this`live, sub`nraw, sub.low, sub.high, raw
      ensures raw !in live && raw in Total(subs)
    {
      hide Total;
      hide HeldBy;
      hide Held;
      NewCount(raw);
      PostFresh(raw, i, sub);
      label Once:
      hide Valid;
      assert Apart(subs) by { Opened(); }
      PostRawSub(raw, sub);
      Posted@Once(i, raw);
      var pool := if raw.priority == Low then sub.low else sub.high;
      assert pool.Queue()[pool.nraw - 1] == raw;
      FreeSlot(pool, pool.nraw - 1, i);
    }

    lemma Opened()
      requires Valid()
      ensures Apart(subs)
    {}

    lemma NewCount(raw: Raw)
      requires Valid() && raw in live && raw !in Total(subs)
      ensures raw.refcount == 0
    {
      assert RefOk(raw, Total(subs)[raw]);
    }

    /** pool->raw = NULL */
    method EmptySlot(pool: Pool, k: nat, ghost i: nat)
      requires Apart(subs) && i < |subs| && (pool == subs[i].low || pool == subs[i].high)
      requires k < |pool.slots| && pool.slots[k] != null
      modifies pool`slots
      ensures pool.slots == old(pool.slots)[k := null] && OnlyPoolsOf(subs, i)
      ensures old(HeldBy(subs[i])) == HeldBy(subs[i]) + multiset{old(pool.slots[k])}
    {
      ghost var raw: Raw := pool.slots[k];
      ClearSlot(pool.slots, k);
      hide Held;
      pool.slots := pool.slots[k := null];
      Exchange(Held(subs[i].low.slots), multiset{raw}, Held(subs[i].high.slots));
      Assoc(Held(subs[i].low.slots), Held(subs[i].high.slots), multiset{raw});
    }

    /** Different subusers of this hub, with sound pools. */
    ghost predicate Joined(list: seq<Subuser>)
      reads this, subs, PoolsOf(subs)
    {
      && (forall i, j :: 0 <= i < j < |list| ==> list[i] != list[j])
      && (forall i :: 0 <= i < |list| ==> list[i] in subs && list[i].Valid())
    }
  }

  lemma OneLess<T>(t0: multiset<T>, t: multiset<T>, x: T, y: T)
    requires t0 == t + multiset{x}
    ensures t0[y] == t[y] + (if y == x then 1 else 0)
  {}

  lemma CancelOne<T>(t1: multiset<T>, t0: multiset<T>, w: multiset<T>, x: multiset<T>)
    requires t1 + (w + x) == t0 + w
    ensures t0 == t1 + x
  {
    assert t1 + (w + x) - w == t1 + x;
    assert t0 + w - w == t0;
  }

  lemma CancelSame<T>(t1: multiset<T>, t0: multiset<T>, w: multiset<T>)
    requires t1 + w == t0 + w
    ensures t1 == t0
  {
    assert t1 + w - w == t1 && t0 + w - w == t0;
  }

  lemma Cancel<T>(t1: multiset<T>, o: multiset<T>, t0: multiset<T>, x: multiset<T>)
    requires t1 + o == t0 + (o + x)
    ensures t1 == t0 + x
  {
    assert t1 + o - o == t1;
    assert t0 + (o + x) - o == t0 + x;
  }
}