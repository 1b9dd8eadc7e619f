/** The subusers of src/users.c: a new one inherits the queue of the last one, and a deleted one gives its slots up. */
module RawUsers {
  import opened RawPools
  import opened RawQueues
  import opened RawFlushes

  lemma {:induction false} TotalConcat(a: seq<Subuser>, b: seq<Subuser>)
    ensures Total(a + b) == Total(a) + Total(b)
    decreases |b|
  {
    if b == [] {
      assert a + b == a;
    } else {
      assert (a + b)[..|a + b| - 1] == a + b[..|b| - 1];
      TotalConcat(a, b[..|b| - 1]);
      Assoc(Total(a), Total(b[..|b| - 1]), HeldBy(b[|b| - 1]));
    }
    hide HeldBy;
  }

  lemma TotalOne(s: Subuser)
    ensures Total([s]) == HeldBy(s)
  {
    assert [s][..0] == [];
    hide HeldBy;
  }

  lemma {:induction false} TotalWithout(subs: seq<Subuser>, i: nat)
    requires i < |subs| && HeldBy(subs[i]) == multiset{}
    ensures Total(subs[..i] + subs[i + 1..]) == Total(subs)
  {
    assert subs == subs[..i] + [subs[i]] + subs[i + 1..];
    TotalConcat(subs[..i] + [subs[i]], subs[i + 1..]);
    TotalConcat(subs[..i], [subs[i]]);
    TotalConcat(subs[..i], subs[i + 1..]);
    TotalOne(subs[i]);
    hide Total;
    NoMore(Total(subs[..i]));
  }

  lemma ApartWithout(subs: seq<Subuser>, i: nat)
    requires Apart(subs) && i < |subs|
    ensures Apart(subs[..i] + subs[i + 1..]) && subs[i] !in subs[..i] + subs[i + 1..]
  {
    var r := subs[..i] + subs[i + 1..];
    assert forall j :: 0 <= j < |r| ==> r[j] == subs[if j < i then j else j + 1];
  }

  /** A slot that holds a message gives it up. */
  method GiveUp(hub: Hub, pool: Pool, k: nat, ghost i: nat, ghost live0: set<Raw>, ghost total0: multiset<Raw>)
    requires hub.Valid() && i < |hub.subs| && (pool == hub.subs[i].low || pool == hub.subs[i].high)
    requires k < |pool.slots| && Freed(live0, total0, hub.live, Total(hub.subs)) && hub.live <= live0
    modifies hub`live, pool`slots, live0
    ensures hub.Valid() && Freed(live0, total0, hub.live, Total(hub.subs)) && hub.live <= live0
    ensures pool.slots == old(pool.slots)[k := null]
  {
    hide *;
    if pool.slots[k] != null {
      ghost var live, total, raw: Raw := hub.live, Total(hub.subs), pool.slots[k];
      SlotLive(hub, i, pool == hub.subs[i].low, k);
      hub.Release(pool, k, i);
      FreedStep(live0, total0, live, total, raw, hub.live, Total(hub.subs));
      FreedLess(live0, total0, hub.live, Total(hub.subs));
    }
  }

  /** destroy_raw_pool: every message in a slot of the pool is given up. */
  method DestroyRawPool(hub: Hub, pool: Pool, ghost i: nat)
    requires hub.Valid() && i < |hub.subs| && (pool == hub.subs[i].low || pool == hub.subs[i].high)
    modifies hub`live, pool`slots, hub.live
    ensures hub.Valid() && Cleared(pool.slots) && hub.live <= old(hub.live)
    ensures Freed(old(hub.live), old(Total(hub.subs)), hub.live, Total(hub.subs))
  {
    ghost var live0, total0 := hub.live, Total(hub.subs);
    NothingFreed(live0, total0);
    hide Hub.Valid;
    hide Total;
    hide Freed;
    var k := 0;
    while k < |pool.slots|
      invariant 0 <= k <= |pool.slots| && hub.Valid() && hub.live <= live0
      invariant forall j :: 0 <= j < k ==> pool.slots[j] == null
      invariant Freed(live0, total0, hub.live, Total(hub.subs))
      decreases |pool.slots| - k
    {
      GiveUp(hub, pool, k, i, live0, total0);
      k := k + 1;
    }
  }

  lemma FreedLess(live0: set<Raw>, total0: multiset<Raw>, live: set<Raw>, total: multiset<Raw>)
    requires Freed(live0, total0, live, total)
    ensures live <= live0 && total <= total0
  {}

  lemma FreedTwice(live0: set<Raw>, total0: multiset<Raw>, live1: set<Raw>, total1: multiset<Raw>, live: set<Raw>,
                   total: multiset<Raw>)
    requires Freed(live0, total0, live1, total1) && Freed(live1, total1, live, total)
    ensures Freed(live0, total0, live, total)
  {
    forall r | r in live0 ensures r in live <==> r in total || r !in total0 {
      assert r in total ==> r in total1;
      assert r in total1 ==> r in total0;
    }
  }

  /** delsubuser, as far as the queues are concerned */
  method DelSubuser(hub: Hub, user: User, ghost i: nat)
    requires hub.Valid() && user.subuser != [] && i < |hub.subs| && hub.subs[i] == user.subuser[0]
    modifies hub, user, user.subuser[0].low`slots, user.subuser[0].high`slots, hub.live
    ensures hub.Valid() && user.subuser == old(user.subuser[1..])
    ensures hub.subs == old(hub.subs[..i] + hub.subs[i + 1..])
    ensures Freed(old(hub.live), old(Total(hub.subs)), hub.live, Total(hub.subs))
  {
    hide *;
    var del := user.subuser[0];
    user.subuser := user.subuser[1..];
    hub.StillOk();
    DestroyRawPool(hub, del.low, i);
    ghost var live1, total1 := hub.live, Total(hub.subs);
    DestroyRawPool(hub, del.high, i);
    FreedTwice(old(hub.live), old(Total(hub.subs)), live1, total1, hub.live, Total(hub.subs));
    RemoveFromList(hub, i);
  }

  /** The subuser is taken out of the list. */
  ghost method RemoveFromList(hub: Hub, i: nat)
    requires hub.Valid() && i < |hub.subs| && Cleared(hub.subs[i].low.slots) && Cleared(hub.subs[i].high.slots)
    modifies hub`subs
    ensures hub.Valid() && hub.subs == old(hub.subs[..i] + hub.subs[i + 1..]) && Total(hub.subs) == old(Total(hub.subs))
  {
    hide RefsOk;
    hide Total;
    hide Apart;
    hide Cleared;
    Removed(hub, i);
    hub.subs := hub.subs[..i] + hub.subs[i + 1..];
    TotalSame(hub.subs);
  }

  lemma Removed(hub: Hub, i: nat)
    requires hub.Valid() && i < |hub.subs| && Cleared(hub.subs[i].low.slots) && Cleared(hub.subs[i].high.slots)
    ensures var subs := hub.subs[..i] + hub.subs[i + 1..];
            Apart(subs) && Total(subs) == Total(hub.subs)
  {
    ClearedHeld(hub.subs[i].low.slots);
    ClearedHeld(hub.subs[i].high.slots);
    TotalWithout(hub.subs, i);
    ApartWithout(hub.subs, i);
  }

  lemma ApartWith(subs: seq<Subuser>, sub: Subuser)
    requires Apart(subs) && sub !in subs && sub.low != sub.high && sub.low !in PoolsOf(subs)
    requires sub.high !in PoolsOf(subs)
    ensures Apart(subs + [sub])
  {
    forall i | 0 <= i < |subs|
      ensures subs[i] != sub && subs[i].low != sub.low && subs[i].low != sub.high && subs[i].high != sub.low
      ensures subs[i].high != sub.high
    {
      assert subs[i] in subs && subs[i].low in PoolsOf(subs) && subs[i].high in PoolsOf(subs);
    }
  }

  lemma TotalWith(subs: seq<Subuser>, sub: Subuser)
    requires HeldBy(sub) == multiset{}
    ensures Total(subs + [sub]) == Total(subs)
  {
    TotalConcat(subs, [sub]);
    TotalOne(sub);
    hide Total;
    NoMore(Total(subs));
  }

  /** The subuser is put into the list. */
  ghost method PutIntoList(hub: Hub, sub: Subuser)
    requires hub.Valid() && sub !in hub.subs && sub.low !in PoolsOf(hub.subs) && sub.high !in PoolsOf(hub.subs)
    requires sub.low != sub.high && HeldBy(sub) == multiset{}
    modifies hub`subs
    ensures hub.Valid() && hub.subs == old(hub.subs) + [sub] && Total(hub.subs) == old(Total(hub.subs))
  {
    var t := Total(hub.subs);
    ApartWith(hub.subs, sub);
    TotalWith(hub.subs, sub);
    hub.subs := hub.subs + [sub];
    TotalSame(hub.subs);
    hide Total;
    hide HeldBy;
    forall r | r in hub.live ensures RefOk(r, t[r]) { assert old(RefOk(r, t[r])); }
  }

  /** A new subuser with empty pools. */
  method Register(hub: Hub) returns (sub: Subuser)
    requires hub.Valid()
    modifies hub`subs
    ensures hub.Valid() && fresh(sub) && fresh(sub.low) && fresh(sub.high) && sub.Valid()
    ensures sub.low.Queue() == [] && sub.high.Queue() == [] && !sub.headersSent
    ensures hub.subs == old(hub.subs) + [sub] && Total(hub.subs) == old(Total(hub.subs))
  {
    hide Total;
    hide RefsOk;
    hide Held;
    hide Apart;
    hide Hub.Valid;
    sub := new Subuser();
    NoMore(HeldBy(sub));
    hub.StillOk();
    PutIntoList(hub, sub);
  }

  /** The repair in addsubuser: a message that is queued once without a count gets its count. */
  method Repair(hub: Hub, raw: Raw)
    requires hub.Valid() && raw in Total(hub.subs)
    modifies raw
    ensures hub.Valid() && hub.MayShare(raw) && Total(hub.subs) == old(Total(hub.subs))
    ensures raw.refcount == AtLeastOne(old(raw.refcount))
  {
    ghost var t := Total(hub.subs);
    if raw.refcount == 0 {
      raw.refcount := 1;
    }
    TotalSame(hub.subs);
    hide Total;
    forall r | r in hub.live ensures RefOk(r, t[r]) {
      assert old(RefOk(r, t[r]));
      assert r != raw ==> unchanged(r);
    }
  }

  /** The copy of one message of the previous subuser */
  method Inherit(hub: Hub, raw: Raw, sub: Subuser, ghost i: nat)
    requires hub.Valid() && raw in Total(hub.subs) && i < |hub.subs| && hub.subs[i] == sub && sub.Valid()
    requires raw.priority == Low
    modifies raw, sub`nraw, sub.low, sub.high
    ensures hub.Valid() && sub.Valid() && Total(hub.subs) == old(Total(hub.subs)) + multiset{raw}
    ensures sub.low.Queue() == old(sub.low.Queue()) + [raw] && sub.high.Queue() == old(sub.high.Queue())
    ensures raw.refcount == AtLeastOne(old(raw.refcount)) + 1
  {
    hide Total;
    hide Hub.Valid;
    hide RefsOk;
    hide HeldBy;
    Repair(hub, raw);
    hub.PostCopy(raw, i, sub);
    assert sub.high.Queue() == old(sub.high.Queue()) + [];
  }

  lemma QueueLive(hub: Hub, i: nat, k: nat)
    requires hub.Valid() && i < |hub.subs| && hub.subs[i].low.Valid() && k < hub.subs[i].low.nraw
    ensures hub.subs[i].low.Queue()[k] in Total(hub.subs) && hub.subs[i].low.Queue()[k] in hub.live
  {
    var s := hub.subs[i].low.slots;
    ClearSlot(s, k);
    assert s[k] in Held(s);
    TotalMember(hub.subs, i, s[k]);
  }

  /** One turn of the copy loop of addsubuser */
  method CopyNext(hub: Hub, previous: Pool, k: nat, sub: Subuser, ghost i: nat, ghost n: nat)
    requires hub.Valid() && i < n < |hub.subs| && hub.subs[i].low == previous && hub.subs[n] == sub && sub.Valid()
    requires previous.Valid() && k < previous.nraw && sub.low.Queue() == previous.Queue()[..k] && sub.high.Queue() == []
    requires forall r :: r in previous.Queue() ==> r.priority == Low
    modifies sub`nraw, sub.low, sub.high, hub.live
    ensures hub.Valid() && sub.Valid() && previous.Valid() && previous.Queue() == old(previous.Queue())
    ensures sub.low.Queue() == previous.Queue()[..k + 1] && sub.high.Queue() == []
  {
    QueueLive(hub, i, k);
    DifferentPools(hub, i, n);
    assert previous.Queue()[k] in previous.Queue();
    hide Total;
    hide Hub.Valid;
    hide RefsOk;
    hide HeldBy;
    hide Apart;
    Inherit(hub, previous.slots[k], sub, n);
    assert previous.Queue()[..k] + [previous.Queue()[k]] == previous.Queue()[..k + 1];
  }

  lemma DifferentPools(hub: Hub, i: nat, n: nat)
    requires hub.Valid() && i < n < |hub.subs|
    ensures hub.subs[n].low != hub.subs[i].low && hub.subs[n].high != hub.subs[i].low
  {}

  /** The copy loop of addsubuser */
  method CopyQueue(hub: Hub, previous: Pool, sub: Subuser, ghost i: nat, ghost n: nat)
    requires hub.Valid() && i < n < |hub.subs| && hub.subs[i].low == previous && hub.subs[n] == sub && sub.Valid()
    requires previous.Valid() && sub.low.Queue() == [] && sub.high.Queue() == []
    requires forall r :: r in previous.Queue() ==> r.priority == Low
    modifies sub`nraw, sub.low, sub.high, hub.live
    ensures hub.Valid() && sub.Valid() && previous.Valid() && previous.Queue() == old(previous.Queue())
    ensures sub.low.Queue() == previous.Queue() && sub.high.Queue() == []
  {
    hide Hub.Valid;
    var k := 0;
    while previous.slots[k] != null
      invariant 0 <= k <= previous.nraw && previous.Valid() && previous.Queue() == old(previous.Queue())
      invariant hub.Valid() && sub.Valid() && sub.low.Queue() == previous.Queue()[..k] && sub.high.Queue() == []
      decreases previous.nraw - k
    {
      CopyNext(hub, previous, k, sub, i, n);
      k := k + 1;
    }
    assert previous.Queue()[..k] == previous.Queue();
  }

  /** addsubuser, as far as the queues are concerned: the low priority queue of the newest subuser is copied. */
  method AddSubuser(hub: Hub, user: User, ghost i: nat) returns (sub: Subuser)
    requires hub.Valid()
    requires user.subuser != [] ==> i < |hub.subs| && hub.subs[i] == user.subuser[0] && user.subuser[0].Valid()
    modifies hub`subs, user, hub.live
    ensures hub.Valid() && fresh(sub) && sub.Valid() && user.subuser == [sub] + old(user.subuser)
    ensures hub.subs == old(hub.subs) + [sub] && hub.live == old(hub.live)
    ensures sub.low.Queue() == old(if user.subuser == [] then [] else user.subuser[0].low.Queue())
    ensures sub.high.Queue() == [] && !sub.headersSent
  {
    hide Total;
    hide Hub.Valid;
    hide RefsOk;
    hide HeldBy;
    hide Apart;
    hide Held;
    var list := user.subuser;
    sub := Register(hub);
    label Registered:
    user.subuser := [sub] + list;
    hub.StillOk@Registered();
    if list != [] && list[0].low.nraw > 0 {
      CopyQueue(hub, list[0].low, sub, i, |hub.subs| - 1);
    }
  }

  lemma InWithout<T>(s: seq<T>, i: nat, x: T)
    requires i < |s| && x in s && x != s[i]
    ensures x in s[..i] + s[i + 1..]
  {
    assert s == s[..i] + [s[i]] + s[i + 1..];
  }

  /** The subusers of a user, all of them in the hub. */
  ghost predicate Listed(hub: Hub, user: User)
    reads hub, user
  {
    && (forall j, k :: 0 <= j < k < |user.subuser| ==> user.subuser[j] != user.subuser[k])
    && (forall s :: s in user.subuser ==> s in hub.subs)
  }

  /** One turn of the loop of clear_subusers */
  method DelNext(hub: Hub, user: User, ghost live0: set<Raw>, ghost total0: multiset<Raw>)
    requires hub.Valid() && Listed(hub, user) && user.subuser != []
    requires Freed(live0, total0, hub.live, Total(hub.subs)) && hub.live <= live0
    modifies hub, user, user.subuser[0].low, user.subuser[0].high, live0
    ensures hub.Valid() && Listed(hub, user) && user.subuser == old(user.subuser[1..])
    ensures Freed(live0, total0, hub.live, Total(hub.subs)) && hub.live <= live0
  {
    hide Total;
    hide Hub.Valid;
    hide Freed;
    assert user.subuser[0] in hub.subs;
    ghost var i :| 0 <= i < |hub.subs| && hub.subs[i] == user.subuser[0];
    ghost var subs, list, live1, total1 := hub.subs, user.subuser, hub.live, Total(hub.subs);
    DelSubuser(hub, user, i);
    forall s | s in user.subuser ensures s in hub.subs {
      assert s in list && s != list[0];
      InWithout(subs, i, s);
    }
    FreedTwice(live0, total0, live1, total1, hub.live, Total(hub.subs));
    FreedLess(live0, total0, hub.live, Total(hub.subs));
  }

  /** clear_subusers */
  method ClearSubusers(hub: Hub, user: User)
    requires hub.Valid() && Listed(hub, user)
    modifies hub, user, PoolsOf(user.subuser), hub.live
    ensures hub.Valid() && user.subuser == []
    ensures Freed(old(hub.live), old(Total(hub.subs)), hub.live, Total(hub.subs))
  {
    ghost var live0, total0, all, done := hub.live, Total(hub.subs), user.subuser, 0;
    NothingFreed(live0, total0);
    assert all[0..] == all;
    hide Total;
    hide Hub.Valid;
    hide Freed;
    while user.subuser != []
      invariant 0 <= done <= |all| && user.subuser == all[done..] && hub.Valid() && Listed(hub, user)
      invariant Freed(live0, total0, hub.live, Total(hub.subs)) && hub.live <= live0
      decreases |user.subuser|
    {
      assert all[done] in all && all[done].low in PoolsOf(all) && all[done].high in PoolsOf(all);
      DelNext(hub, user, live0, total0);
      done := done + 1;
    }
  }

  /** All subusers of some users. */
  ghost function SubsOf(users: seq<User>): set<Subuser>
    reads users
  {
    set u, s | u in users && s in u.subuser :: s
  }

  ghost function SubPoolsOf(users: seq<User>): set<Pool>
    reads users
  {
    set u, p | u in users && p in PoolsOf(u.subuser) :: p
  }

  /** How many subusers a message to these users reaches. */
  ghost function Fanout(users: seq<User>): nat
    reads users
  {
    if users == [] then 0 else Fanout(users[..|users| - 1]) + |users[|users| - 1].subuser|
  }

  /** How often a message to these users is posted to this subuser. */
  ghost function Times(users: seq<User>, s: Subuser): nat
    reads users
  {
    if users == [] then 0 else
      Times(users[..|users| - 1], s) + (if s in users[|users| - 1].subuser then 1 else 0)
  }

  /** Once, when no user is in the channel twice and no subuser belongs to two users. */
  lemma {:induction false} Once(users: seq<User>, s: Subuser, n: nat)
    requires n < |users| && s in users[n].subuser
    requires forall m :: 0 <= m < |users| && m != n ==> s !in users[m].subuser
    ensures Times(users, s) == 1
    decreases |users|
  {
    var k := |users| - 1;
    if n < k {
      Once(users[..k], s, n);
    } else {
      Never(users[..k], s);
    }
  }

  lemma {:induction false} Never(users: seq<User>, s: Subuser)
    requires forall u :: u in users ==> s !in u.subuser
    ensures Times(users, s) == 0
  {
    if users != [] {
      Never(users[..|users| - 1], s);
    }
  }

  /** What is queued for a subuser, oldest first. */
  datatype Queues = Queues(low: seq<Raw>, high: seq<Raw>)

  /** The queues after n postings of a message. */
  function After(q: Queues, raw: Raw, n: nat): Queues {
    match raw.priority
    case Low => q.(low := q.low + seq(n, _ => raw))
    case High => q.(high := q.high + seq(n, _ => raw))
  }

  lemma AfterOne(q: Queues, raw: Raw, n: nat)
    ensures After(q, raw, 0) == q && After(After(q, raw, n), raw, 1) == After(q, raw, n + 1)
  {
    assert q.low + seq(n, _ => raw) + seq(1, _ => raw) == q.low + seq(n + 1, _ => raw);
    assert q.high + seq(n, _ => raw) + seq(1, _ => raw) == q.high + seq(n + 1, _ => raw);
  }

  lemma GotIs(s: Subuser, raw: Raw, q: Queues)
    requires s.Valid()
    requires s.low.Queue() == q.low + (if raw.priority == Low then [raw] else [])
    requires s.high.Queue() == q.high + (if raw.priority == High then [raw] else [])
    ensures Queues(s.low.Queue(), s.high.Queue()) == After(q, raw, 1)
  {}

  ghost predicate AllJoined(hub: Hub, users: seq<User>)
    reads hub, users, hub.subs, PoolsOf(hub.subs)
  {
    forall u :: u in users ==> hub.Joined(u.subuser)
  }

  function PostedTo(q: map<Subuser, Queues>, raw: Raw, list: seq<Subuser>): map<Subuser, Queues> {
    map s | s in q :: if s in list then After(q[s], raw, 1) else q[s]
  }

  lemma BeforePost(hub: Hub, users: seq<User>, n: nat, q: map<Subuser, Queues>)
    requires hub.Valid() && n < |users| && AllJoined(hub, users) && q == QueuesOf(hub, users)
    ensures hub.Joined(users[n].subuser) && q.Keys == SubsOf(users)
    ensures forall u :: u in users ==> Several(u.subuser, hub.subs)
    ensures forall s :: s in users[n].subuser ==> s in q
    ensures forall s :: s in q ==> s.Valid() && q[s] == Queues(s.low.Queue(), s.high.Queue())
    ensures forall s :: s in q && s !in users[n].subuser ==>
              s.low !in PoolsOf(users[n].subuser) && s.high !in PoolsOf(users[n].subuser)
  {
    var list := users[n].subuser;
    assert users[n] in users;
    forall s | s in q
      ensures s.Valid()
      ensures s !in list ==> s.low !in PoolsOf(list) && s.high !in PoolsOf(list)
    {
      InLists(hub, users, s);
      forall t | t in list && s !in list
        ensures s.low != t.low && s.low != t.high
        ensures s.high != t.low && s.high != t.high
      {
        hub.Different(s, t);
      }
    }
  }

  /** Different subusers, all among these. */
  predicate Several(list: seq<Subuser>, subs: seq<Subuser>) {
    && (forall i, j :: 0 <= i < j < |list| ==> list[i] != list[j])
    && (forall i :: 0 <= i < |list| ==> list[i] in subs)
  }

  lemma AfterPost(hub: Hub, users: seq<User>, raw: Raw, list: seq<Subuser>, q: map<Subuser, Queues>)
    requires q.Keys == SubsOf(users) && hub.Joined(list)
    requires forall u :: u in users ==> Several(u.subuser, hub.subs)
    requires forall k :: 0 <= k < |list| ==> list[k] in q && hub.Got(list[k], raw, q[list[k]].low, q[list[k]].high)
    requires forall s :: s in q && s !in list ==>
               s.Valid() && q[s] == Queues(s.low.Queue(), s.high.Queue())
    ensures AllJoined(hub, users) && QueuesOf(hub, users) == PostedTo(q, raw, list)
  {
    forall u | u in users ensures hub.Joined(u.subuser) {
      forall s | s in u.subuser ensures s.Valid() {
        if s in list {
          var j :| 0 <= j < |list| && list[j] == s;
        } else {
          assert s in q;
        }
      }
    }
    forall s | s in q ensures QueuesOf(hub, users)[s] == PostedTo(q, raw, list)[s] {
      InLists(hub, users, s);
      if s in list {
        var k :| 0 <= k < |list| && list[k] == s;
        GotIs(s, raw, q[s]);
      }
    }
  }

  /** One turn of the loop of post_raw_channel: the subusers of the other users stay sound. */
  method PostToUser(hub: Hub, raw: Raw, users: seq<User>, n: nat, ghost q: map<Subuser, Queues>)
    requires hub.Valid() && hub.MayShare(raw) && n < |users| && AllJoined(hub, users)
    requires q == QueuesOf(hub, users)
    modifies raw, users[n].subuser`nraw, PoolsOf(users[n].subuser)
    ensures hub.Valid() && hub.MayShare(raw) && AllJoined(hub, users)
    ensures Total(hub.subs) == old(Total(hub.subs))[raw := old(Total(hub.subs)[raw]) + |users[n].subuser|]
    ensures raw.refcount == old(raw.refcount) + |users[n].subuser|
    ensures QueuesOf(hub, users) == PostedTo(q, raw, users[n].subuser)
  {
    hide *;
    ghost var list := users[n].subuser;
    BeforePost(hub, users, n, q);
    hub.PostRaw(raw, users[n]);
    AfterPost(hub, users, raw, list, q);
  }

  lemma InLists(hub: Hub, users: seq<User>, s: Subuser)
    requires AllJoined(hub, users) && s in SubsOf(users)
    ensures s in hub.subs && s.Valid()
  {
    var u :| u in users && s in u.subuser;
    var k :| 0 <= k < |u.subuser| && u.subuser[k] == s;
  }

  /** The queues of all subusers of these users. */
  ghost function QueuesOf(hub: Hub, users: seq<User>): (r: map<Subuser, Queues>)
    requires AllJoined(hub, users)
    reads hub, users, hub.subs, PoolsOf(hub.subs)
    ensures r.Keys == SubsOf(users)
  {
    map s | s in SubsOf(users) :: assert s.Valid() by { InLists(hub, users, s); } Queues(s.low.Queue(), s.high.Queue())
  }

  lemma InFanout(users: seq<User>, n: nat)
    requires n < |users|
    ensures forall s :: s in users[n].subuser ==> s in SubsOf(users)
    ensures forall p :: p in PoolsOf(users[n].subuser) ==> p in SubPoolsOf(users)
  {
    assert users[n] in users;
  }

  /** The queues after a message to the channel of these users. */
  ghost function PostedOn(q: map<Subuser, Queues>, raw: Raw, users: seq<User>): map<Subuser, Queues>
    reads users
  {
    map s | s in q :: After(q[s], raw, Times(users, s))
  }

  lemma PostedNone(q: map<Subuser, Queues>, raw: Raw, users: seq<User>)
    ensures PostedOn(q, raw, users[..0]) == q
  {
    forall s | s in q ensures After(q[s], raw, 0) == q[s] {
      AfterOne(q[s], raw, 0);
    }
  }

  lemma PostedNext(q: map<Subuser, Queues>, raw: Raw, users: seq<User>, n: nat)
    requires n < |users|
    ensures PostedTo(PostedOn(q, raw, users[..n]), raw, users[n].subuser) == PostedOn(q, raw, users[..n + 1])
  {
    assert users[..n + 1][..n] == users[..n];
    forall s | s in q
      ensures After(After(q[s], raw, Times(users[..n], s)), raw, 1) == After(q[s], raw, Times(users[..n], s) + 1)
    {
      AfterOne(q[s], raw, Times(users[..n], s));
    }
  }

  lemma FanoutFirst(users: seq<User>)
    ensures Fanout(users[..0]) == 0
  {}

  lemma FanoutNext(users: seq<User>, n: nat)
    requires n < |users|
    ensures users[n] in users && Fanout(users[..n + 1]) == Fanout(users[..n]) + |users[n].subuser|
  {
    assert users[..n + 1][..n] == users[..n];
  }

  /** post_raw_channel: to every subuser of every user of the channel, counted once for each. */
  method PostRawChannel(hub: Hub, raw: Raw, users: seq<User>)
    requires hub.Valid() && hub.MayShare(raw) && AllJoined(hub, users)
    modifies raw, SubsOf(users)`nraw, SubPoolsOf(users)
    ensures hub.Valid() && hub.MayShare(raw) && AllJoined(hub, users)
    ensures Total(hub.subs) == old(Total(hub.subs))[raw := old(Total(hub.subs)[raw]) + Fanout(users)]
    ensures raw.refcount == old(raw.refcount) + Fanout(users)
    ensures QueuesOf(hub, users) == PostedOn(old(QueuesOf(hub, users)), raw, users)
  {
    hide Total;
    hide Hub.Valid;
    hide AllJoined;
    hide QueuesOf;
    hide PostedOn;
    hide Fanout;
    ghost var q := QueuesOf(hub, users);
    PostedNone(q, raw, users);
    forall n | 0 <= n < |users|
      ensures forall s :: s in users[n].subuser ==> s in SubsOf(users)
      ensures forall p :: p in PoolsOf(users[n].subuser) ==> p in SubPoolsOf(users)
    {
      InFanout(users, n);
    }
    FanoutFirst(users);
    for n := 0 to |users|
      invariant hub.Valid() && hub.MayShare(raw) && AllJoined(hub, users)
      invariant Total(hub.subs) == old(Total(hub.subs))[raw := old(Total(hub.subs)[raw]) + Fanout(users[..n])]
      invariant raw.refcount == old(raw.refcount) + Fanout(users[..n])
      invariant QueuesOf(hub, users) == PostedOn(q, raw, users[..n])
    {
      FanoutNext(users, n);
      assert users[n].subuser == old(users[n].subuser);
      PostToUser(hub, raw, users, n, PostedOn(q, raw, users[..n]));
      PostedNext(q, raw, users, n);
    }
    assert users[..|users|] == users;
  }
}
