/** send_raws and raws_size of src/raw.c: what a flush puts on the wire, and the length it announces. */
module RawFlushes {
  import opened Bytes
  import opened RawPools
  import opened RawQueues

  // ----- what a flush sends -----

  function Reverse(s: seq<Raw>): seq<Raw> { if s == [] then [] else [s[|s| - 1]] + Reverse(s[..|s| - 1]) }

  /** The high priority messages newest first, then the low priority ones oldest first. */
  function Order(high: seq<Raw>, low: seq<Raw>): seq<Raw> { Reverse(high) + low }

  /** Every message with the comma or the bracket after it. */
  function Body(rs: seq<Raw>): seq<Byte> {
    if rs == [] then [] else rs[0].data + [if |rs| > 1 then COMMA else CLOSE] + Body(rs[1..])
  }

  function Emission(rs: seq<Raw>): seq<Byte> { [OPEN] + Body(rs) }

  /** What raws_size adds up. */
  function BodySize(rs: seq<Raw>): (n: nat)
    ensures n == |Body(rs)|
  {
    if rs == [] then 0 else |rs[0].data| + 1 + BodySize(rs[1..])
  }

  // ----- the walk over the slots -----

  /** The messages still to come when the walk is at slot k of the high pool, or of the low one. */
  function Rest(high: seq<Raw>, low: seq<Raw>, inLow: bool, k: int): seq<Raw>
    requires if inLow then 0 <= k <= |low| else 0 <= k < |high|
  {
    if inLow then low[k..] else Reverse(high[..k + 1]) + low
  }

  lemma {:induction false} RestStep(high: seq<Raw>, low: seq<Raw>, inLow: bool, k: int)
    requires if inLow then 0 <= k < |low| else 0 <= k < |high|
    ensures var r := Rest(high, low, inLow, k);
            && r != [] && r[0] == (if inLow then low[k] else high[k])
            && r[1..] == (if inLow then Rest(high, low, true, k + 1)
                          else if k > 0 then Rest(high, low, false, k - 1) else Rest(high, low, true, 0))
            && (|r| > 1 <==> if inLow then k + 1 < |low| else k > 0 || low != [])
  {
    if !inLow {
      ReverseSnoc(high, k);
      ReverseSize(high[..k]);
      hide Reverse;
      var r := Rest(high, low, inLow, k);
      assert r == [high[k]] + (Reverse(high[..k]) + low);
      if k == 0 { ReverseNothing(); }
    }
  }

  lemma {:induction false} ReverseSnoc(s: seq<Raw>, k: nat)
    requires k < |s|
    ensures Reverse(s[..k + 1]) == [s[k]] + Reverse(s[..k])
  {
    assert s[..k + 1][..k] == s[..k];
  }

  lemma {:induction false} ReverseNothing()
    ensures Reverse([]) == []
  {}

  lemma {:induction false} ReverseSize(s: seq<Raw>)
    ensures |Reverse(s)| == |s|
  {
    if s != [] { ReverseSize(s[..|s| - 1]); }
  }

  /** raws_size */
  method RawsSize(sub: Subuser) returns (size: nat)
    requires sub.Valid()
    ensures size == if sub.nraw == 0 then 0 else |Emission(Order(sub.high.Queue(), sub.low.Queue()))|
  {
    if sub.nraw == 0 {
      return 0;
    }
    ghost var high, low := sub.high.Queue(), sub.low.Queue();
    size := 1;
    var inLow, k := false, 0;
    if sub.high.nraw > 0 {
      k := sub.high.rawfoot - 1;
      assert high[..k + 1] == high;
    } else {
      inLow := true;
      assert Order(high, low) == low == low[0..];
    }
    assert Rest(high, low, inLow, k) == Order(high, low);
    while (if inLow then sub.low.slots[k] else sub.high.slots[k]) != null
      invariant if inLow then 0 <= k <= |low| else 0 <= k < |high|
      invariant size + BodySize(Rest(high, low, inLow, k)) == 1 + BodySize(Order(high, low))
      decreases |Rest(high, low, inLow, k)|
    {
      RestStep(high, low, inLow, k);
      var raw := if inLow then sub.low.slots[k] else sub.high.slots[k];
      size := size + |raw.data| + 1;
      k := if inLow then k + 1 else k - 1;
      if !inLow && (k < 0 || sub.high.slots[k] == null) {
        inLow, k := true, 0;
      }
    }
  }

  // ----- the announced length -----

  /** The bytes of payload_head after its first one; nothing when the size does not fit 32 bits. */
  function LengthHead(size: nat): seq<Byte> {
    if size <= 125 then [size]
    else if size <= 0xFFFF then [126, size / 256, size % 256]
    else if size <= 0xFFFF_FFFF then
      [127, 0, 0, 0, 0, size / 0x100_0000, size / 0x1_0000 % 256, size / 0x100 % 256, size % 256]
    else []
  }

  function Number(bytes: seq<Byte>): nat {
    if bytes == [] then 0 else 256 * Number(bytes[..|bytes| - 1]) + bytes[|bytes| - 1]
  }

  /** The payload length of an unmasked frame, and where its payload begins, by section 5.2 of RFC 6455. */
  function DecodeLength(frame: seq<Byte>): (r: (nat, nat))
    requires |frame| >= 2 && frame[1] < 128
    requires (frame[1] == 126 ==> |frame| >= 4) && (frame[1] == 127 ==> |frame| >= 10)
  {
    if frame[1] < 126 then (frame[1], 2)
    else if frame[1] == 126 then (Number(frame[2..4]), 4)
    else (Number(frame[2..10]), 10)
  }

  lemma {:induction false} NumberTwo(a: Byte, b: Byte)
    ensures Number([a, b]) == 256 * a + b
  {
    NumberSnoc([], a);
    NumberSnoc([a], b);
    assert [] + [a] == [a] && [a] + [b] == [a, b];
  }

  lemma {:induction false} NumberSnoc(s: seq<Byte>, b: Byte)
    ensures Number(s + [b]) == 256 * Number(s) + b
  {
    assert (s + [b])[..|s|] == s;
  }

  lemma {:induction false} NumberEight(a: Byte, b: Byte, c: Byte, d: Byte)
    ensures Number([0, 0, 0, 0, a, b, c, d]) == 0x100_0000 * a + 0x1_0000 * b + 0x100 * c + d
  {
    var z: seq<Byte> := [0, 0, 0, 0];
    assert Number(z) == 0 by {
      NumberSnoc([], 0);
      NumberSnoc([0], 0);
      NumberSnoc([0, 0], 0);
      NumberSnoc([0, 0, 0], 0);
      assert [] + [0] == [0] && [0] + [0] == [0, 0] && [0, 0] + [0] == [0, 0, 0] && [0, 0, 0] + [0] == z;
    }
    NumberSnoc(z, a);
    NumberSnoc(z + [a], b);
    NumberSnoc(z + [a] + [b], c);
    NumberSnoc(z + [a] + [b] + [c], d);
    assert z + [a] + [b] + [c] + [d] == [0, 0, 0, 0, a, b, c, d];
  }

  /** A receiver reads from the header exactly the announced size. */
  lemma {:induction false} HeadDecodes(first: Byte, size: nat, payload: seq<Byte>)
    requires size <= 0xFFFF_FFFF
    ensures var frame := [first] + LengthHead(size) + payload;
            && |frame| >= 2 && frame[1] < 128
            && (frame[1] == 126 ==> |frame| >= 4) && (frame[1] == 127 ==> |frame| >= 10)
            && DecodeLength(frame).0 == size && frame[DecodeLength(frame).1..] == payload
  {
    var frame := [first] + LengthHead(size) + payload;
    if size <= 125 {
    } else if size <= 0xFFFF {
      NumberTwo(size / 256, size % 256);
      assert frame[2..4] == [size / 256, size % 256];
    } else {
      FourBytes(size);
      NumberEight(size / 0x100_0000, size / 0x1_0000 % 256, size / 0x100 % 256, size % 256);
      assert frame[2..10] == LengthHead(size)[1..];
    }
  }

  // ----- send_raws -----

  /** The slots of the two pools during the walk: what has been sent is cleared. */
  ghost predicate Walked(hs: seq<Raw?>, ls: seq<Raw?>, high: seq<Raw>, low: seq<Raw>, inLow: bool, k: int) {
    && (if inLow then 0 <= k <= |low| else 0 <= k < |high|)
    && |ls| > |low| && |hs| > |high|
    && (forall j :: 0 <= j < |hs| ==> hs[j] == if !inLow && j <= k then high[j] else null)
    && (forall j :: 0 <= j < |ls| ==> ls[j] == if (!inLow || k <= j) && j < |low| then low[j] else null)
  }

  lemma {:induction false} WalkedNext(hs: seq<Raw?>, ls: seq<Raw?>, high: seq<Raw>, low: seq<Raw>, inLow: bool, k: int)
    requires Walked(hs, ls, high, low, inLow, k) && (inLow ==> k < |low|)
    ensures inLow ==> ls[k] == low[k] && Walked(hs, ls[k := null], high, low, true, k + 1)
    ensures !inLow ==> hs[k] == high[k]
    ensures !inLow && k > 0 ==> Walked(hs[k := null], ls, high, low, false, k - 1)
    ensures !inLow && k == 0 ==> Walked(hs[k := null], ls, high, low, true, 0)
    ensures inLow ==> (ls[k + 1] != null <==> k + 1 < |low|)
    ensures !inLow && k > 0 ==> hs[k - 1] != null
  {}

  /** One turn of the loop of send_raws: a message and its separator go out, and the slot is given up. */
  method SendOne(hub: Hub, sub: Subuser, inLow: bool, k: nat, ghost i: nat, ghost high: seq<Raw>, ghost low: seq<Raw>)
    returns (sent: seq<Byte>)
    requires hub.Valid() && i < |hub.subs| && hub.subs[i] == sub && sub.low != sub.high
    requires Walked(sub.high.slots, sub.low.slots, high, low, inLow, k) && (inLow ==> k < |low|)
             && sub.low.nraw == |low|
    modifies hub`live, sub.low`slots, sub.high`slots, if inLow then sub.low.slots[k] else sub.high.slots[k]
    ensures hub.Valid()
    ensures var r := Rest(high, low, inLow, k);
            && r != [] && Body(r) == sent + Body(r[1..])
            && old(Total(hub.subs)) == Total(hub.subs) + multiset{r[0]}
            && hub.live == (if r[0] in Total(hub.subs) then old(hub.live) else old(hub.live) - {r[0]})
    ensures sub.high.slots == if inLow then old(sub.high.slots) else old(sub.high.slots)[k := null]
    ensures sub.low.slots == if inLow then old(sub.low.slots)[k := null] else old(sub.low.slots)
  {
    WalkedNext(sub.high.slots, sub.low.slots, high, low, inLow, k);
    RestStep(high, low, inLow, k);
    BodyStep(Rest(high, low, inLow, k));
    hide Walked;
    hide Body;
    hide Rest;
    hide Total;
    hide HeldBy;
    hide Apart;
    hide RefsOk;
    hide Hub.Valid;
    var raw := if inLow then sub.low.slots[k] else sub.high.slots[k];
    sent := raw.data + [Separator(sub, inLow, k)];
    hub.Release(if inLow then sub.low else sub.high, k, i);
  }

  /** The comma, or the bracket after the last message. */
  function Separator(sub: Subuser, inLow: bool, k: nat): Byte
    requires inLow ==> k + 1 < |sub.low.slots|
    requires !inLow ==> k < |sub.high.slots|
    reads sub.low, sub.high
  {
    if (if inLow then sub.low.slots[k + 1] != null else k > 0 && sub.high.slots[k - 1] != null)
       || (!inLow && sub.low.nraw > 0)
    then COMMA else CLOSE
  }

  lemma {:induction false} BodyStep(rs: seq<Raw>)
    requires rs != []
    ensures Body(rs) == rs[0].data + [if |rs| > 1 then COMMA else CLOSE] + Body(rs[1..])
  {}

  lemma NothingHeld(sub: Subuser)
    requires sub.Valid() && sub.nraw == 0
    ensures sub.low.Queue() == [] && sub.high.Queue() == [] && HeldBy(sub) == multiset{}
  {
    assert sub.low.slots == Nulls(sub.low.size) && sub.high.slots == Nulls(sub.high.size);
    NullsHeld(sub.low.size);
    NullsHeld(sub.high.size);
  }

  lemma StartWalk(sub: Subuser, high: seq<Raw>, low: seq<Raw>, inLow: bool, k: int)
    requires sub.Valid() && high == sub.high.Queue() && low == sub.low.Queue() && sub.nraw > 0
    requires inLow == (sub.high.nraw == 0) && k == if inLow then 0 else sub.high.rawfoot - 1
    ensures Walked(sub.high.slots, sub.low.slots, high, low, inLow, k) && Rest(high, low, inLow, k) == Order(high, low)
    ensures sub.low.nraw == |low|
  {
    if inLow {
      assert high == [];
      ReverseNothing();
      assert Order(high, low) == low;
    } else {
      assert high[..k + 1] == high;
    }
  }

  /** Freed since: exactly the messages that were in a slot then and are in none now. */
  ghost predicate Freed(live0: set<Raw>, total0: multiset<Raw>, live: set<Raw>, total: multiset<Raw>) {
    && live <= live0 && total <= total0
    && forall r :: r in live0 ==> (r in live <==> r in total || r !in total0)
  }

  lemma FreedStep(live0: set<Raw>, total0: multiset<Raw>, live: set<Raw>, total: multiset<Raw>, x: Raw,
                  live': set<Raw>, total': multiset<Raw>)
    requires Freed(live0, total0, live, total) && total == total' + multiset{x}
    requires live' == if x in total' then live else live - {x}
    ensures Freed(live0, total0, live', total')
  {
    assert x in total;
    forall r | r in live0 ensures r in live' <==> r in total' || r !in total0 {
      if r != x { assert total'[r] == total[r]; }
    }
  }

  lemma {:induction false} TotalMember(subs: seq<Subuser>, i: nat, r: Raw)
    requires i < |subs| && r in HeldBy(subs[i])
    ensures r in Total(subs)
    decreases |subs|
  {
    if i < |subs| - 1 { TotalMember(subs[..|subs| - 1], i, r); }
    hide HeldBy;
  }

  lemma SlotLive(hub: Hub, i: nat, inLow: bool, k: nat)
    requires hub.Valid() && i < |hub.subs|
    requires var s := if inLow then hub.subs[i].low.slots else hub.subs[i].high.slots; k < |s| && s[k] != null
    ensures var s := if inLow then hub.subs[i].low.slots else hub.subs[i].high.slots; s[k] in hub.live
  {
    var s := if inLow then hub.subs[i].low.slots else hub.subs[i].high.slots;
    ClearSlot(s, k);
    assert s[k] in Held(s);
    TotalMember(hub.subs, i, s[k]);
  }

  /** No slot holds a message. */
  ghost predicate Cleared(slots: seq<Raw?>) { forall j :: 0 <= j < |slots| ==> slots[j] == null }

  lemma {:induction false} ClearedHeld(slots: seq<Raw?>)
    requires Cleared(slots)
    ensures Held(slots) == multiset{}
  {
    assert slots == Nulls(|slots|);
    NullsHeld(|slots|);
  }

  lemma {:induction false} WalkedBounds(hs: seq<Raw?>, ls: seq<Raw?>, high: seq<Raw>, low: seq<Raw>, inLow: bool,
                                        k: int)
    requires Walked(hs, ls, high, low, inLow, k)
    ensures if inLow then 0 <= k <= |low| && k < |ls| else 0 <= k < |high| && k < |hs|
    ensures (if inLow then ls[k] else hs[k]) == null ==> inLow && k == |low| && Cleared(hs) && Cleared(ls)
    ensures (if inLow then ls[k] else hs[k]) != null ==> (inLow ==> k < |low|)
    ensures !inLow && k > 0 ==> hs[k - 1] != null
  {}

  lemma {:induction false} NothingLeft(high: seq<Raw>, low: seq<Raw>)
    ensures Body(Rest(high, low, true, |low|)) == []
  {}

  /** The loop invariant of send_raws: the walk is at this slot, and what has been sent is the front of the body. */
  ghost predicate Sending(hub: Hub, sub: Subuser, i: nat, high: seq<Raw>, low: seq<Raw>, inLow: bool, k: int,
                          body: seq<Byte>,
                          live0: set<Raw>, total0: multiset<Raw>)
    reads hub, hub.live, PoolsOf(hub.subs), sub.low, sub.high
  {
    && hub.Valid() && i < |hub.subs| && hub.subs[i] == sub && sub.low != sub.high && sub.low.nraw == |low|
    && Walked(sub.high.slots, sub.low.slots, high, low, inLow, k)
    && Freed(live0, total0, hub.live, Total(hub.subs))
    && body + Body(Rest(high, low, inLow, k)) == Body(Order(high, low))
  }

  lemma SendingParts(hub: Hub, sub: Subuser, i: nat, high: seq<Raw>, low: seq<Raw>, inLow: bool, k: int,
                     body: seq<Byte>,
                     live0: set<Raw>, total0: multiset<Raw>)
    requires Sending(hub, sub, i, high, low, inLow, k, body, live0, total0)
    ensures hub.Valid() && i < |hub.subs| && hub.subs[i] == sub && sub.low != sub.high && sub.low.nraw == |low|
    ensures Walked(sub.high.slots, sub.low.slots, high, low, inLow, k) && hub.live <= live0
    ensures Freed(live0, total0, hub.live, Total(hub.subs))
    ensures if inLow then 0 <= k <= |low| && k < |sub.low.slots| else 0 <= k < |high| && k < |sub.high.slots|
    ensures body + Body(Rest(high, low, inLow, k)) == Body(Order(high, low))
  {
    hide Hub.Valid;
    WalkedBounds(sub.high.slots, sub.low.slots, high, low, inLow, k);
  }

  lemma SendingIntro(hub: Hub, sub: Subuser, i: nat, high: seq<Raw>, low: seq<Raw>, inLow: bool, k: int,
                     body: seq<Byte>,
                     live0: set<Raw>, total0: multiset<Raw>)
    requires hub.Valid() && i < |hub.subs| && hub.subs[i] == sub && sub.low != sub.high && sub.low.nraw == |low|
    requires Walked(sub.high.slots, sub.low.slots, high, low, inLow, k)
    requires Freed(live0, total0, hub.live, Total(hub.subs))
    requires body + Body(Rest(high, low, inLow, k)) == Body(Order(high, low))
    ensures Sending(hub, sub, i, high, low, inLow, k, body, live0, total0)
  {}

  /** One turn of the loop of send_raws, with the step to the next slot. */
  method Turn(hub: Hub, sub: Subuser, inLow: bool, k: int, body: seq<Byte>,
              ghost i: nat, ghost high: seq<Raw>, ghost low: seq<Raw>, ghost live0: set<Raw>,
              ghost total0: multiset<Raw>)
    returns (inLow': bool, k': int, body': seq<Byte>)
    requires Sending(hub, sub, i, high, low, inLow, k, body, live0, total0)
    requires (SendingParts(hub, sub, i, high, low, inLow, k, body, live0, total0);
              (if inLow then sub.low.slots[k] else sub.high.slots[k]) != null)
    modifies hub`live, sub.low`slots, sub.high`slots, live0
    ensures Sending(hub, sub, i, high, low, inLow', k', body', live0, total0)
    ensures (SendingParts(hub, sub, i, high, low, inLow', k', body', live0, total0);
             old(SendingParts(hub, sub, i, high, low, inLow, k, body, live0, total0);
                 |Rest(high, low, inLow, k)|) > |Rest(high, low, inLow', k')|)
    ensures |sub.low.slots| == old(|sub.low.slots|) && |sub.high.slots| == old(|sub.high.slots|)
  {
    hide *;
    SendingParts(hub, sub, i, high, low, inLow, k, body, live0, total0);
    WalkedBounds(sub.high.slots, sub.low.slots, high, low, inLow, k);
    RestStep(high, low, inLow, k);
    WalkedNext(sub.high.slots, sub.low.slots, high, low, inLow, k);
    SlotLive(hub, i, inLow, k);
    ghost var live, total, r := hub.live, Total(hub.subs), Rest(high, low, inLow, k);
    var more := SendOne(hub, sub, inLow, k, i, high, low);
    FreedStep(live0, total0, live, total, r[0], hub.live, Total(hub.subs));
    assert (body + more) + Body(r[1..]) == body + (more + Body(r[1..]));
    body' := body + more;
    if inLow {
      inLow', k' := true, k + 1;
    } else if k == 0 || sub.high.slots[k - 1] == null {
      inLow', k' := true, 0;
    } else {
      inLow', k' := false, k - 1;
    }
    SendingIntro(hub, sub, i, high, low, inLow', k', body', live0, total0);
  }

  /** The loop of send_raws */
  method SendAll(hub: Hub, sub: Subuser, ghost i: nat, ghost high: seq<Raw>, ghost low: seq<Raw>)
    returns (body: seq<Byte>)
    requires hub.Valid() && i < |hub.subs| && hub.subs[i] == sub && sub.Valid() && sub.nraw > 0
    requires high == sub.high.Queue() && low == sub.low.Queue()
    modifies hub`live, sub.low`slots, sub.high`slots, hub.live
    ensures hub.Valid() && body == Body(Order(high, low))
    ensures Freed(old(hub.live), old(Total(hub.subs)), hub.live, Total(hub.subs))
    ensures Cleared(sub.low.slots) && Cleared(sub.high.slots)
    ensures |sub.low.slots| == old(|sub.low.slots|) && |sub.high.slots| == old(|sub.high.slots|)
  {
    var inLow := sub.high.nraw == 0;
    var k := if inLow then 0 else sub.high.rawfoot - 1;
    ghost var live0, total0 := hub.live, Total(hub.subs);
    StartWalk(sub, high, low, inLow, k);
    body := [];
    assert [] + Body(Order(high, low)) == Body(Order(high, low));
    NothingFreed(live0, total0);
    SendingIntro(hub, sub, i, high, low, inLow, k, body, live0, total0);
    hide *;
    SendingParts(hub, sub, i, high, low, inLow, k, body, live0, total0);
    while (if inLow then sub.low.slots[k] else sub.high.slots[k]) != null
      invariant Sending(hub, sub, i, high, low, inLow, k, body, live0, total0)
      invariant |sub.low.slots| == old(|sub.low.slots|) && |sub.high.slots| == old(|sub.high.slots|)
      invariant if inLow then 0 <= k <= |low| && k < |sub.low.slots| else 0 <= k < |high| && k < |sub.high.slots|
      decreases |Rest(high, low, inLow, k)|
    {
      inLow, k, body := Turn(hub, sub, inLow, k, body, i, high, low, live0, total0);
      SendingParts(hub, sub, i, high, low, inLow, k, body, live0, total0);
    }
    SendingParts(hub, sub, i, high, low, inLow, k, body, live0, total0);
    WalkedBounds(sub.high.slots, sub.low.slots, high, low, inLow, k);
    NothingLeft(high, low);
    assert body + [] == body;
  }

  lemma NothingFreed(live: set<Raw>, total: multiset<Raw>)
    ensures Freed(live, total, live, total)
  {}

  /** The resets at the end of send_raws */
  method ResetCounts(hub: Hub, sub: Subuser, ghost i: nat)
    requires hub.Valid() && i < |hub.subs| && hub.subs[i] == sub
    requires Cleared(sub.low.slots) && Cleared(sub.high.slots)
    requires |sub.low.slots| == sub.low.size > 0 && |sub.high.slots| == sub.high.size > 0
    modifies sub`nraw, sub.low`nraw, sub.low`rawfoot, sub.high`nraw, sub.high`rawfoot
    ensures hub.Valid() && sub.Valid() && sub.low.Queue() == [] && sub.high.Queue() == [] && HeldBy(sub) == multiset{}
    ensures Total(hub.subs) == old(Total(hub.subs))
  {
    hide Hub.Valid;
    hide Total;
    hide RefsOk;
    hide Held;
    hide HeldBy;
    ApartAt(hub, i);
    sub.high.nraw, sub.low.nraw, sub.nraw := 0, 0, 0;
    sub.high.rawfoot, sub.low.rawfoot := 0, 0;
    hub.SameSlots(i);
    EmptyAgain(sub);
  }

  lemma ApartAt(hub: Hub, i: nat)
    requires hub.Valid() && i < |hub.subs|
    ensures hub.subs[i].low != hub.subs[i].high
    ensures forall j :: 0 <= j < |hub.subs| && j != i ==>
              hub.subs[j].low != hub.subs[i].low && hub.subs[j].low != hub.subs[i].high
              && hub.subs[j].high != hub.subs[i].low && hub.subs[j].high != hub.subs[i].high
  {}

  lemma EmptyAgain(sub: Subuser)
    requires Cleared(sub.low.slots) && Cleared(sub.high.slots) && sub.low != sub.high
    requires |sub.low.slots| == sub.low.size > 0 && |sub.high.slots| == sub.high.size > 0
    requires sub.nraw == sub.low.nraw == sub.high.nraw == sub.low.rawfoot == sub.high.rawfoot == 0
    ensures sub.Valid() && sub.low.Queue() == [] && sub.high.Queue() == [] && HeldBy(sub) == multiset{}
  {
    ClearedHeld(sub.low.slots);
    ClearedHeld(sub.high.slots);
    hide Held;
  }

  /** What a transport puts around the messages: headers before the first flush, padding, and a WebSocket frame. */
  datatype Transport = Transport(headers: seq<Byte>, left: seq<Byte>, right: seq<Byte>, framed: bool)

  /** All that a flush of this text puts on the wire */
  function Flushed(t: Transport, headersSent: bool, first: Byte, text: seq<Byte>): seq<Byte> {
    (if headersSent then [] else t.headers) + t.left + (if t.framed then [first] + LengthHead(|text|) else []) + text
    + t.right
  }

  /** A receiver finds, after the first byte, a length that counts all bytes behind the header, and these are the
      text. */
  ghost predicate ReadBy(frame: seq<Byte>, first: Byte, text: seq<Byte>) {
    && |frame| >= 2 && frame[0] == first && frame[1] < 128
    && (frame[1] == 126 ==> |frame| >= 4) && (frame[1] == 127 ==> |frame| >= 10)
    && var (len, from) := DecodeLength(frame);
       len == |frame| - from && frame[from..] == text
  }

  /** What a flush has put on the wire, said by what a receiver makes of it: the headers if they have not been sent
      before, the paddings, and between them the text of the messages, in a frame if the transport has one. */
  ghost predicate Received(sent: seq<Byte>, t: Transport, headersSent: bool, first: Byte, rs: seq<Raw>) {
    var n := (if headersSent then 0 else |t.headers|) + |t.left|;
    && n + |t.right| <= |sent| && sent[..n] == (if headersSent then [] else t.headers) + t.left
    && sent[|sent| - |t.right|..] == t.right
    && var frame := sent[n..|sent| - |t.right|];
       if !t.framed then frame == Emission(rs)
       else |Emission(rs)| <= 0xFFFF_FFFF ==> ReadBy(frame, first, Emission(rs))
  }

  lemma Middle(front: seq<Byte>, frame: seq<Byte>, back: seq<Byte>)
    ensures var s := front + frame + back;
            s[..|front|] == front && s[|s| - |back|..] == back && s[|front|..|s| - |back|] == frame
  {}

  lemma {:induction false} HeadRead(first: Byte, text: seq<Byte>)
    requires |text| <= 0xFFFF_FFFF
    ensures ReadBy([first] + LengthHead(|text|) + text, first, text)
  {
    HeadDecodes(first, |text|, text);
    hide LengthHead;
    hide DecodeLength;
    var frame := [first] + LengthHead(|text|) + text;
    assert frame[DecodeLength(frame).1..] == text;
  }

  lemma {:induction false} FlushReceived(t: Transport, headersSent: bool, first: Byte, rs: seq<Raw>)
    ensures Received(Flushed(t, headersSent, first, Emission(rs)), t, headersSent, first, rs)
  {
    hide *;
    var text := Emission(rs);
    var front := (if headersSent then [] else t.headers) + t.left;
    var frame := if t.framed then [first] + LengthHead(|text|) + text else text;
    if t.framed && |text| <= 0xFFFF_FFFF { HeadRead(first, text); }
    FlushedParts(t, headersSent, first, text);
    ReceivedFrom(front, frame, t, headersSent, first, rs);
  }

  lemma FlushedParts(t: Transport, headersSent: bool, first: Byte, text: seq<Byte>)
    ensures Flushed(t, headersSent, first, text)
         == ((if headersSent then [] else t.headers) + t.left)
            + (if t.framed then [first] + LengthHead(|text|) + text else text) + t.right
  {
    hide LengthHead;
  }

  lemma ReceivedFrom(front: seq<Byte>, frame: seq<Byte>, t: Transport, headersSent: bool, first: Byte, rs: seq<Raw>)
    requires front == (if headersSent then [] else t.headers) + t.left
    requires if !t.framed then frame == Emission(rs)
             else |Emission(rs)| <= 0xFFFF_FFFF ==> ReadBy(frame, first, Emission(rs))
    ensures Received(front + frame + t.right, t, headersSent, first, rs)
  {
    Middle(front, frame, t.right);
    hide Emission;
    hide ReadBy;
  }

  // ----- the text of a flush, message by message -----

  /** Where the message with this number begins */
  function StartOf(rs: seq<Raw>, k: nat): (n: nat)
    requires k <= |rs|
    ensures n >= 1
  {
    if k == 0 then 1 else StartOf(rs, k - 1) + |rs[k - 1].data| + 1
  }

  lemma {:induction false} StartFirst(rs: seq<Raw>, k: nat)
    requires 0 < k <= |rs|
    ensures StartOf(rs, k) == StartOf(rs[1..], k - 1) + |rs[0].data| + 1
  {
    if k > 1 { StartFirst(rs, k - 1); }
  }

  /** The text is a bracket, the messages with a comma between any two, and a bracket. */
  lemma {:induction false} MessageAt(rs: seq<Raw>, k: nat)
    requires k < |rs|
    ensures var text, from := Emission(rs), StartOf(rs, k);
            var end := from + |rs[k].data|;
            && text[0] == '[' as int && |text| == StartOf(rs, |rs|) && end < |text| && text[from..end] == rs[k].data
            && text[end] == (if k + 1 < |rs| then ',' else ']') as int
    decreases |rs|
  {
    hide *;
    var r := rs[1..];
    EmissionCons(rs);
    StartFirst(rs, |rs|);
    StartZero(rs);
    if k == 0 {
      FirstMessage(rs[0].data, if |rs| > 1 then COMMA else CLOSE, Body(r));
      if |rs| > 1 { MessageAt(r, 0); } else { StartZero(r); }
    } else {
      MessageAt(r, k - 1);
      StartFirst(rs, k);
      var from := StartOf(r, k - 1);
      Shifted([OPEN] + rs[0].data + [if |rs| > 1 then COMMA else CLOSE], OPEN, Body(r), from, from + |rs[k].data|);
    }
  }

  lemma StartZero(rs: seq<Raw>)
    ensures StartOf(rs, 0) == 1
  {}

  lemma EmissionCons(rs: seq<Raw>)
    requires rs != []
    ensures Emission(rs) == [OPEN] + rs[0].data + [if |rs| > 1 then COMMA else CLOSE] + Body(rs[1..])
    ensures Emission(rs[1..]) == [OPEN] + Body(rs[1..]) && (|rs| == 1 ==> Body(rs[1..]) == [])
    ensures OPEN == '[' as int && COMMA == ',' as int && CLOSE == ']' as int
  {
    if |rs| == 1 { assert rs[1..] == []; }
  }

  lemma FirstMessage(d: seq<Byte>, mark: Byte, b: seq<Byte>)
    ensures var text := [OPEN] + d + [mark] + b;
            text[0] == OPEN && text[1..1 + |d|] == d && text[1 + |d|] == mark && |text| == |d| + 2 + |b|
  {}

  lemma Shifted(x: seq<Byte>, o: Byte, b: seq<Byte>, from: nat, end: nat)
    requires 1 <= from <= end < |[o] + b|
    ensures (x + b)[|x| + from - 1..|x| + end - 1] == ([o] + b)[from..end]
    ensures (x + b)[|x| + end - 1] == ([o] + b)[end]
  {}

  /** First the high priority messages, from the last one back, and then the low priority ones. */
  lemma {:induction false} OrderAt(high: seq<Raw>, low: seq<Raw>, i: nat)
    requires i < |high| + |low|
    ensures |Order(high, low)| == |high| + |low|
    ensures Order(high, low)[i] == if i < |high| then high[|high| - 1 - i] else low[i - |high|]
  {
    ReverseAt(high, if i < |high| then i else 0);
  }

  lemma {:induction false} ReverseAt(s: seq<Raw>, i: nat)
    ensures |Reverse(s)| == |s| && (i < |s| ==> Reverse(s)[i] == s[|s| - 1 - i])
  {
    if s != [] {
      var last, front := s[|s| - 1], s[..|s| - 1];
      assert Reverse(s) == [last] + Reverse(front);
      hide Reverse;
      ReverseAt(front, if i > 0 then i - 1 else 0);
    }
  }

  /** send_raws. The loop sends the right padding behind the closing bracket, which is its last byte. */
  method SendRaws(hub: Hub, sub: Subuser, t: Transport, first: Byte, ghost i: nat) returns (sent: seq<Byte>)
    requires hub.Valid() && i < |hub.subs| && hub.subs[i] == sub && sub.Valid()
    modifies hub`live, sub, sub.low, sub.high, hub.live
    ensures hub.Valid() && sub.Valid() && sub.low.Queue() == [] && sub.high.Queue() == []
    ensures old(sub.nraw) == 0 ==> sent == [] && sub.headersSent == old(sub.headersSent)
    ensures old(sub.nraw) > 0 ==>
              sub.headersSent
              && sent == Flushed(t, old(sub.headersSent), first,
                                 Emission(Order(old(sub.high.Queue()), old(sub.low.Queue()))))
              && Received(sent, t, old(sub.headersSent), first, Order(old(sub.high.Queue()), old(sub.low.Queue())))
    ensures HeldBy(sub) == multiset{}
    ensures Freed(old(hub.live), old(Total(hub.subs)), hub.live, Total(hub.subs))
  {
    hide Hub.Valid;
    hide Total;
    hide RefsOk;
    hide Held;
    hide HeldBy;
    hide Subuser.Valid;
    hide Pool.Valid;
    hide Freed;
    hide Emission;
    hide Body;
    hide Order;
    hide LengthHead;
    hide Cleared;
    hide Received;
    hide Flushed;
    SubValid(sub);
    ghost var high, low, again := sub.high.Queue(), sub.low.Queue(), sub.headersSent;
    if sub.nraw == 0 {
      NothingHeld(sub);
      NothingFreed(hub.live, Total(hub.subs));
      return [];
    }
    sent := SendFront(sub, t);
    hub.StillOk();
    SubValid(sub);
    var size := RawsSize(sub);
    var body := SendAll(hub, sub, i, high, low);
    var head := if t.framed then [first] + LengthHead(size) else [];
    ghost var rs := Order(high, low);
    FlushIs(sent, head, body, t, again, first, rs);
    sent := sent + head + [OPEN] + body + t.right;
    FlushReceived(t, again, first, rs);
    ResetCounts(hub, sub, i);
  }

  /** The headers, if they have not been sent before, and the left padding */
  method SendFront(sub: Subuser, t: Transport) returns (sent: seq<Byte>)
    requires sub.Valid()
    modifies sub`headersSent
    ensures sub.Valid() && sub.headersSent && sent == (if old(sub.headersSent) then [] else t.headers) + t.left
    ensures sub.low.Queue() == old(sub.low.Queue()) && sub.high.Queue() == old(sub.high.Queue())
  {
    sent := [];
    if !sub.headersSent {
      sub.headersSent := true;
      sent := sent + t.headers;
    }
    sent := sent + t.left;
  }

  lemma SubValid(sub: Subuser)
    requires sub.Valid()
    ensures sub.low.Valid() && sub.high.Valid()
    ensures |sub.low.slots| == sub.low.size > 0 && |sub.high.slots| == sub.high.size > 0
  {}

  lemma FlushIs(front: seq<Byte>, head: seq<Byte>, body: seq<Byte>, t: Transport, again: bool, first: Byte,
                rs: seq<Raw>)
    requires front == (if again then [] else t.headers) + t.left && body == Body(rs)
    requires head == if t.framed then [first] + LengthHead(|Emission(rs)|) else []
    ensures front + head + [OPEN] + body + t.right == Flushed(t, again, first, Emission(rs))
  {
    hide Body;
    hide LengthHead;
  }
}
