/** Names in packets: dns_getdn of deps/udns-0.0.9/udns_parse.c, with the compression of section 4.1.4 of RFC 1035. */
module DnsPackets {
  import opened Bytes
  import opened Options
  import opened DnsNames

  const HEADER := 12
  const JUMPS := 100

  /** The target of a pointer */
  function Target(c: Byte, d: Byte): (t: nat)
    ensures t == (c as int * 256 + d) % 0x4000
  {
    c % 64 * 256 + d
  }

  function Prepend(read: seq<Label>, rest: Option<seq<Label>>): Option<seq<Label>> {
    match rest
    case None => None
    case Some(s) => Some(read + s)
  }

  /** The name at pos, if it can be had by following at most so many pointers. Any of the two high bits makes a
      pointer, and no pointer may lead into the header. */
  function Expansion(pkt: seq<Byte>, pos: nat, jumps: nat): (r: Option<seq<Label>>)
    ensures r.Some? ==> GoodLabels(r.value)
    decreases jumps, |pkt| - pos
  {
    if pos >= |pkt| then None
    else
      var c := pkt[pos];
      if c == 0 then Some([])
      else if c >= 64 then
        if pos + 1 >= |pkt| || jumps == 0 || Target(c, pkt[pos + 1]) < HEADER then None
        else Expansion(pkt, Target(c, pkt[pos + 1]), jumps - 1)
      else if pos + 1 + c > |pkt| then None
      else Prepend([pkt[pos + 1..pos + 1 + c]], Expansion(pkt, pos + 1 + c, jumps))
  }

  /** Section 4.1.4 of RFC 1035: labels, ended by a zero or by a pointer to where the rest stands, with the number
      of pointers in all */
  ghost predicate Expands(pkt: seq<Byte>, pos: nat, labels: seq<Label>, pointers: nat)
    decreases pointers, |labels|
  {
    && pos < |pkt|
    && ((pkt[pos] == 0 && labels == [] && pointers == 0)
        || (pkt[pos] >= 64 && pos + 1 < |pkt| && pointers > 0 && (pkt[pos] as int * 256 + pkt[pos + 1]) % 0x4000 >= 12
            && Expands(pkt, (pkt[pos] as int * 256 + pkt[pos + 1]) % 0x4000, labels, pointers - 1))
        || (1 <= pkt[pos] < 64 && labels != [] && pos + 1 + pkt[pos] <= |pkt|
            && labels[0] == pkt[pos + 1..pos + 1 + pkt[pos]]
            && Expands(pkt, pos + 1 + pkt[pos], labels[1..], pointers)))
  }

  lemma {:induction false} ExpandsThen(pkt: seq<Byte>, pos: nat, labels: seq<Label>, pointers: nat, jumps: nat)
    requires Expands(pkt, pos, labels, pointers) && pointers <= jumps
    ensures Expansion(pkt, pos, jumps) == Some(labels)
    decreases pointers, |labels|
  {
    if pkt[pos] >= 64 {
      ExpandsThen(pkt, Target(pkt[pos], pkt[pos + 1]), labels, pointers - 1, jumps - 1);
    } else if pkt[pos] > 0 {
      ExpandsThen(pkt, pos + 1 + pkt[pos], labels[1..], pointers, jumps);
      assert [labels[0]] + labels[1..] == labels;
    }
  }

  lemma {:induction false} ThenExpands(pkt: seq<Byte>, pos: nat, jumps: nat) returns (pointers: nat)
    requires Expansion(pkt, pos, jumps).Some?
    ensures pointers <= jumps && Expands(pkt, pos, Expansion(pkt, pos, jumps).value, pointers)
    decreases jumps, |pkt| - pos
  {
    if pkt[pos] == 0 {
      pointers := 0;
    } else if pkt[pos] >= 64 {
      pointers := ThenExpands(pkt, Target(pkt[pos], pkt[pos + 1]), jumps - 1);
      pointers := pointers + 1;
    } else {
      pointers := ThenExpands(pkt, pos + 1 + pkt[pos], jumps);
      var rest := Expansion(pkt, pos + 1 + pkt[pos], jumps).value;
      var l := pkt[pos + 1..pos + 1 + pkt[pos]];
      assert ([l] + rest)[1..] == rest;
    }
  }

  /** What dns_getdn is specified by is the expansion of the standard with at most so many pointers. */
  lemma ExpansionIs(pkt: seq<Byte>, pos: nat, jumps: nat, labels: seq<Label>)
    ensures Expansion(pkt, pos, jumps) == Some(labels) <==>
            exists pointers: nat :: pointers <= jumps && Expands(pkt, pos, labels, pointers)
  {
    if Expansion(pkt, pos, jumps) == Some(labels) {
      var pointers := ThenExpands(pkt, pos, jumps);
      assert pointers <= jumps && Expands(pkt, pos, labels, pointers);
    }
    hide *;
    forall pointers: nat | pointers <= jumps && Expands(pkt, pos, labels, pointers)
      ensures Expansion(pkt, pos, jumps) == Some(labels)
    {
      ExpandsThen(pkt, pos, labels, pointers, jumps);
    }
  }

  /** The name at this place of the packet, through at most 100 pointers */
  ghost predicate Stands(pkt: seq<Byte>, pos: nat, labels: seq<Label>) {
    exists pointers: nat :: pointers <= 100 && Expands(pkt, pos, labels, pointers)
  }

  /** The place behind a name, which ends with a zero or a pointer */
  ghost predicate EndsAt(pkt: seq<Byte>, pos: nat, end: nat)
    decreases |pkt| - pos
  {
    && pos < |pkt|
    && if pkt[pos] == 0 then end == pos + 1
       else if pkt[pos] >= 64 then end == pos + 2
       else EndsAt(pkt, pos + 1 + pkt[pos], end)
  }

  lemma {:induction false} AfterIs(pkt: seq<Byte>, pos: nat, jumps: nat)
    requires Expansion(pkt, pos, jumps).Some?
    ensures EndsAt(pkt, pos, After(pkt, pos))
    decreases |pkt| - pos
  {
    if 1 <= pkt[pos] < 64 {
      AfterIs(pkt, pos + 1 + pkt[pos], jumps);
    }
  }

  // ----- cycles -----

  /** Where so many labels and pointers lead, and how many of them are pointers */
  ghost function Walk(pkt: seq<Byte>, pos: nat, steps: nat): Option<(nat, nat)>
    decreases steps
  {
    if steps == 0 then Some((pos, 0))
    else if pos >= |pkt| || pkt[pos] == 0 then None
    else if pkt[pos] < 64 then Walk(pkt, pos + 1 + pkt[pos], steps - 1)
    else if pos + 1 >= |pkt| then None
    else match Walk(pkt, Target(pkt[pos], pkt[pos + 1]), steps - 1)
         case None => None
         case Some(w) => Some((w.0, w.1 + 1))
  }

  lemma {:induction false} WalkOn(pkt: seq<Byte>, pos: nat, steps: nat, jumps: nat)
    requires Walk(pkt, pos, steps).Some? && Expansion(pkt, pos, jumps).Some?
    ensures var w := Walk(pkt, pos, steps).value; w.1 <= jumps && Expansion(pkt, w.0, jumps - w.1).Some?
    decreases steps
  {
    if steps > 0 {
      if pkt[pos] < 64 {
        WalkOn(pkt, pos + 1 + pkt[pos], steps - 1, jumps);
      } else {
        WalkOn(pkt, Target(pkt[pos], pkt[pos + 1]), steps - 1, jumps - 1);
      }
    }
  }

  /** A name whose pointers lead back to it has no expansion, however many pointers are allowed. */
  lemma {:induction false} CycleRefused(pkt: seq<Byte>, pos: nat, steps: nat, jumps: nat)
    requires Walk(pkt, pos, steps).Some? && Walk(pkt, pos, steps).value.0 == pos && Walk(pkt, pos, steps).value.1 > 0
    ensures Expansion(pkt, pos, jumps) == None
    decreases jumps
  {
    if Expansion(pkt, pos, jumps).Some? {
      WalkOn(pkt, pos, steps, jumps);
      CycleRefused(pkt, pos, steps, jumps - Walk(pkt, pos, steps).value.1);
    }
  }

  // ----- dns_getdn -----

  /** Where the name ends in the packet: after its zero, or after its first pointer */
  function After(pkt: seq<Byte>, pos: nat): nat
    decreases |pkt| - pos
  {
    if pos >= |pkt| then pos
    else if pkt[pos] == 0 then pos + 1
    else if pkt[pos] >= 64 then pos + 2
    else After(pkt, pos + 1 + pkt[pos])
  }

  /** The state of the loop: labels that have been copied, and so many pointers that may still be followed */
  ghost predicate Copied(pkt: seq<Byte>, cur: nat, pp: nat, left: nat, read: seq<Label>) {
    GoodLabels(read) && Expansion(pkt, cur, JUMPS) == Prepend(read, Expansion(pkt, pp, left))
  }

  lemma CopiedFirst(pkt: seq<Byte>, cur: nat)
    ensures Copied(pkt, cur, cur, JUMPS, [])
  {
    if Expansion(pkt, cur, JUMPS).Some? {
      assert [] + Expansion(pkt, cur, JUMPS).value == Expansion(pkt, cur, JUMPS).value;
    }
  }

  lemma CopiedLabel(pkt: seq<Byte>, cur: nat, pp: nat, left: nat, read: seq<Label>)
    requires Copied(pkt, cur, pp, left, read) && pp < |pkt| && 1 <= pkt[pp] < 64 && pp + 1 + pkt[pp] <= |pkt|
    ensures Copied(pkt, cur, pp + 1 + pkt[pp], left, read + [pkt[pp + 1..pp + 1 + pkt[pp]]])
  {
    var l := pkt[pp + 1..pp + 1 + pkt[pp]];
    if Expansion(pkt, pp + 1 + pkt[pp], left).Some? {
      var s := Expansion(pkt, pp + 1 + pkt[pp], left).value;
      assert read + ([l] + s) == read + [l] + s;
    }
  }

  lemma CopiedPointer(pkt: seq<Byte>, cur: nat, pp: nat, left: nat, read: seq<Label>)
    requires Copied(pkt, cur, pp, left, read) && pp + 1 < |pkt| && pkt[pp] >= 64 && left > 0
    requires Target(pkt[pp], pkt[pp + 1]) >= HEADER
    ensures Copied(pkt, cur, Target(pkt[pp], pkt[pp + 1]), left - 1, read)
  {}

  lemma CopiedLast(pkt: seq<Byte>, cur: nat, pp: nat, left: nat, read: seq<Label>)
    requires Copied(pkt, cur, pp, left, read) && pp < |pkt| && pkt[pp] == 0
    ensures Expansion(pkt, cur, JUMPS) == Some(read)
  {
    assert read + [] == read;
  }

  lemma CopiedStuck(pkt: seq<Byte>, cur: nat, pp: nat, left: nat, read: seq<Label>)
    requires Copied(pkt, cur, pp, left, read) && Expansion(pkt, pp, left) == None
    ensures Expansion(pkt, cur, JUMPS) == None
  {}

  /** A label that has no room is part of every name that may still come out. */
  lemma CopiedTooMuch(pkt: seq<Byte>, cur: nat, pp: nat, left: nat, read: seq<Label>)
    requires Copied(pkt, cur, pp, left, read) && pp < |pkt| && 1 <= pkt[pp] < 64 && Expansion(pkt, cur, JUMPS).Some?
    ensures Short(read) && Short(Expansion(pkt, cur, JUMPS).value)
    ensures |Prefixed(Expansion(pkt, cur, JUMPS).value)| >= |Prefixed(read)| + 1 + pkt[pp]
  {
    var l := pkt[pp + 1..pp + 1 + pkt[pp]];
    var s := Expansion(pkt, pp + 1 + pkt[pp], left).value;
    assert read + ([l] + s) == read + [l] + s;
    PrefixedAppend(read + [l], s);
    PrefixedOne(read, l);
  }

  /** What dns_getdn answers. It has room for the terminating zero whenever the buffer has any size at all: the
      test for that zero looks at the start of the buffer. */
  ghost predicate Outcome(pkt: seq<Byte>, cur: nat, dnsiz: nat, r: int, after: nat) {
    match Expansion(pkt, cur, JUMPS)
    case None => after == cur && (r == -1 || (r == 0 && dnsiz < MAX_NAME))
    case Some(labels) =>
      if dnsiz > 0 && |Prefixed(labels)| <= Limit(dnsiz) then r == |Wire(labels)| && after == After(pkt, cur)
      else after == cur && r == Failed(dnsiz)
  }

  /** Where dns_getdn gives up */
  ghost predicate DeadEnd(pkt: seq<Byte>, pp: nat, left: nat) {
    || pp >= |pkt|
    || (pkt[pp] >= 64 && (pp + 1 >= |pkt| || left == 0 || Target(pkt[pp], pkt[pp + 1]) < HEADER))
    || (1 <= pkt[pp] < 64 && pp + 1 + pkt[pp] > |pkt|)
  }

  lemma Stuck(pkt: seq<Byte>, cur: nat, pp: nat, left: nat, read: seq<Label>, dnsiz: nat)
    requires Copied(pkt, cur, pp, left, read) && DeadEnd(pkt, pp, left)
    ensures Outcome(pkt, cur, dnsiz, -1, cur)
  {
    CopiedStuck(pkt, cur, pp, left, read);
  }

  lemma AfterStep(pkt: seq<Byte>, pp: nat)
    requires pp < |pkt|
    ensures pkt[pp] == 0 ==> After(pkt, pp) == pp + 1
    ensures pkt[pp] >= 64 ==> After(pkt, pp) == pp + 2
    ensures 1 <= pkt[pp] < 64 ==> After(pkt, pp) == After(pkt, pp + 1 + pkt[pp])
  {}

  lemma TooMuch(pkt: seq<Byte>, cur: nat, pp: nat, left: nat, read: seq<Label>, dnsiz: nat)
    requires Copied(pkt, cur, pp, left, read) && pp < |pkt| && 1 <= pkt[pp] < 64
    requires Short(read) && |Prefixed(read)| + 1 + pkt[pp] > Limit(dnsiz)
    ensures Outcome(pkt, cur, dnsiz, Failed(dnsiz), cur)
  {
    if Expansion(pkt, cur, JUMPS).Some? {
      CopiedTooMuch(pkt, cur, pp, left, read);
    }
  }

  lemma NoSize(pkt: seq<Byte>, cur: nat)
    ensures Outcome(pkt, cur, 0, 0, cur)
  {}

  lemma Done(pkt: seq<Byte>, cur: nat, pp: nat, left: nat, read: seq<Label>, dnsiz: nat)
    requires Copied(pkt, cur, pp, left, read) && pp < |pkt| && pkt[pp] == 0
    requires Short(read) && |Prefixed(read)| <= Limit(dnsiz) && dnsiz > 0
    ensures Expansion(pkt, cur, JUMPS) == Some(read) && Outcome(pkt, cur, dnsiz, |Prefixed(read)| + 1, After(pkt, cur))
  {
    CopiedLast(pkt, cur, pp, left, read);
  }

  /** So much of the name is in the buffer. */
  ghost predicate Stored(dn: array<Byte>, read: seq<Label>, dp: nat)
    reads dn
  {
    Short(read) && dp == |Prefixed(read)| <= dn.Length && dn[..dp] == Prefixed(read)
  }

  lemma StoredIs(dn: array<Byte>, read: seq<Label>, dp: nat)
    requires Stored(dn, read, dp)
    ensures Short(read) && dp == |Prefixed(read)| && |Wire(read)| == dp + 1
  {}

  lemma StoredNone(dn: array<Byte>)
    ensures Stored(dn, [], 0)
  {}

  /** The copy of one label */
  method Store(pkt: seq<Byte>, at: nat, c: Byte, dn: array<Byte>, dp: nat, ghost read: seq<Label>)
    requires 1 <= c < 64 && at + c <= |pkt| && Stored(dn, read, dp) && dp + 1 + c <= dn.Length
    modifies dn
    ensures Stored(dn, read + [pkt[at..at + c]], dp + 1 + c)
    ensures dn[dp + 1 + c..] == old(dn[dp + 1 + c..])
  {
    PrefixedOne(read, pkt[at..at + c]);
    hide Prefixed;
    dn[dp] := c;
    forall j | 0 <= j < c {
      dn[dp + 1 + j] := pkt[at + j];
    }
    assert dn[..dp + 1 + c] == dn[..dp] + [c] + pkt[at..at + c];
  }

  method StoreZero(dn: array<Byte>, dp: nat, ghost read: seq<Label>)
    requires Stored(dn, read, dp) && dp < dn.Length
    modifies dn
    ensures dn[..dp + 1] == Wire(read) && dn[dp + 1..] == old(dn[dp + 1..])
  {
    dn[dp] := 0;
  }

  /** So many pointers may still be followed. */
  function LeftOf(jump: nat, loop: nat): int { if jump == 0 then JUMPS else loop - 1 }

  /** What dns_getdn does with a pointer */
  method Follow(pkt: seq<Byte>, pp: nat, jump: nat, loop: nat) returns (ok: bool, target: nat, jump1: nat, loop1: nat)
    requires pp < |pkt| && pkt[pp] >= 64 && 1 <= loop && (jump == 0 ==> loop == JUMPS)
    ensures if ok then !DeadEnd(pkt, pp, LeftOf(jump, loop)) && target == Target(pkt[pp], pkt[pp + 1])
                       && LeftOf(jump1, loop1) == LeftOf(jump, loop) - 1 >= 0 && loop1 >= 1
                       && jump1 == (if jump == 0 then pp + 2 else jump)
            else DeadEnd(pkt, pp, LeftOf(jump, loop))
  {
    ok, target, jump1, loop1 := false, 0, jump, loop;
    if pp + 1 >= |pkt| {
      return;
    }
    if jump == 0 {
      jump1 := pp + 2;
    } else {
      loop1 := loop - 1;
      if loop1 == 0 {
        return;
      }
    }
    target := Target(pkt[pp], pkt[pp + 1]);
    ok := target >= HEADER;
  }

  /** The state of the loop of dns_getdn */
  ghost predicate Going(pkt: seq<Byte>, cur: nat, pp: nat, jump: nat, loop: nat, read: seq<Label>) {
    && 1 <= loop && (jump == 0 ==> loop == JUMPS) && Copied(pkt, cur, pp, LeftOf(jump, loop), read)
    && After(pkt, cur) == if jump == 0 then After(pkt, pp) else jump
  }

  lemma GoingFirst(pkt: seq<Byte>, cur: nat)
    ensures Going(pkt, cur, cur, 0, JUMPS, [])
  {
    CopiedFirst(pkt, cur);
  }

  lemma GoingPointer(pkt: seq<Byte>, cur: nat, pp: nat, jump: nat, loop: nat, read: seq<Label>, jump1: nat, loop1: nat)
    requires Going(pkt, cur, pp, jump, loop, read) && pp < |pkt| && pkt[pp] >= 64
    requires !DeadEnd(pkt, pp, LeftOf(jump, loop)) && LeftOf(jump1, loop1) == LeftOf(jump, loop) - 1 >= 0 && loop1 >= 1
    requires jump1 == if jump == 0 then pp + 2 else jump
    ensures Going(pkt, cur, Target(pkt[pp], pkt[pp + 1]), jump1, loop1, read)
  {
    AfterStep(pkt, pp);
    hide Copied;
    hide After;
    CopiedPointer(pkt, cur, pp, LeftOf(jump, loop), read);
  }

  lemma GoingLabel(pkt: seq<Byte>, cur: nat, pp: nat, jump: nat, loop: nat, read: seq<Label>)
    requires Going(pkt, cur, pp, jump, loop, read) && pp < |pkt| && 1 <= pkt[pp] < 64 && pp + 1 + pkt[pp] <= |pkt|
    ensures Going(pkt, cur, pp + 1 + pkt[pp], jump, loop, read + [pkt[pp + 1..pp + 1 + pkt[pp]]])
  {
    AfterStep(pkt, pp);
    hide Copied;
    hide After;
    CopiedLabel(pkt, cur, pp, LeftOf(jump, loop), read);
  }

  lemma GoingStuck(pkt: seq<Byte>, cur: nat, pp: nat, jump: nat, loop: nat, read: seq<Label>, dnsiz: nat)
    requires Going(pkt, cur, pp, jump, loop, read) && DeadEnd(pkt, pp, LeftOf(jump, loop))
    ensures Outcome(pkt, cur, dnsiz, -1, cur)
  {
    Stuck(pkt, cur, pp, LeftOf(jump, loop), read, dnsiz);
  }

  lemma GoingTooMuch(pkt: seq<Byte>, cur: nat, pp: nat, jump: nat, loop: nat, read: seq<Label>, dnsiz: nat)
    requires Going(pkt, cur, pp, jump, loop, read) && pp < |pkt| && 1 <= pkt[pp] < 64
    requires Short(read) && |Prefixed(read)| + 1 + pkt[pp] > Limit(dnsiz)
    ensures Outcome(pkt, cur, dnsiz, Failed(dnsiz), cur)
  {
    TooMuch(pkt, cur, pp, LeftOf(jump, loop), read, dnsiz);
  }

  lemma GoingDone(pkt: seq<Byte>, cur: nat, pp: nat, jump: nat, loop: nat, read: seq<Label>, dnsiz: nat)
    requires Going(pkt, cur, pp, jump, loop, read) && pp < |pkt| && pkt[pp] == 0
    requires Short(read) && |Prefixed(read)| <= Limit(dnsiz)
    ensures dnsiz > 0 ==> Expansion(pkt, cur, JUMPS) == Some(read)
    ensures if dnsiz == 0 then Outcome(pkt, cur, dnsiz, Failed(dnsiz), cur)
            else Outcome(pkt, cur, dnsiz, |Prefixed(read)| + 1, if jump != 0 then jump else pp + 1)
  {
    if dnsiz == 0 {
      NoSize(pkt, cur);
    } else {
      AfterStep(pkt, pp);
      Done(pkt, cur, pp, LeftOf(jump, loop), read, dnsiz);
    }
  }

  /** The buffer has the size that is given, and one byte more if the labels of the name fill that size. */
  ghost predicate Enough(pkt: seq<Byte>, cur: nat, dnsiz: nat, len: nat) {
    len >= Limit(dnsiz)
    && (len == Limit(dnsiz) && dnsiz > 0 ==>
          Expansion(pkt, cur, JUMPS).None? || |Prefixed(Expansion(pkt, cur, JUMPS).value)| != Limit(dnsiz))
  }

  lemma EnoughForZero(pkt: seq<Byte>, cur: nat, dnsiz: nat, len: nat, read: seq<Label>)
    requires Enough(pkt, cur, dnsiz, len) && Expansion(pkt, cur, JUMPS) == Some(read) && dnsiz > 0
    requires Short(read) && |Prefixed(read)| <= Limit(dnsiz)
    ensures |Prefixed(read)| < len
  {}

  lemma EnoughIs(pkt: seq<Byte>, cur: nat, dnsiz: nat, len: nat)
    requires Enough(pkt, cur, dnsiz, len)
    ensures len >= Limit(dnsiz) && (Limit(dnsiz) == 0 <==> dnsiz == 0)
  {}

  /** What dns_getdn does with a label */
  method TakeLabel(pkt: seq<Byte>, ghost cur: nat, pp: nat, ghost jump: nat, ghost loop: nat, dn: array<Byte>, dp: nat,
                   dnsiz: nat, ghost read: seq<Label>)
    returns (ok: bool, r: int)
    requires Going(pkt, cur, pp, jump, loop, read) && Stored(dn, read, dp) && dp <= Limit(dnsiz) <= dn.Length
    requires pp < |pkt| && 1 <= pkt[pp] < 64
    modifies dn
    ensures ok ==> pp + 1 + pkt[pp] <= |pkt| && dp + 1 + pkt[pp] <= Limit(dnsiz)
    ensures ok ==> dn[dp + 1 + pkt[pp]..] == old(dn[dp + 1 + pkt[pp]..])
    ensures ok ==> Going(pkt, cur, pp + 1 + pkt[pp], jump, loop, read + [pkt[pp + 1..pp + 1 + pkt[pp]]])
    ensures ok ==> Stored(dn, read + [pkt[pp + 1..pp + 1 + pkt[pp]]], dp + 1 + pkt[pp])
    ensures !ok ==> r <= 0 && Outcome(pkt, cur, dnsiz, r, cur)
  {
    hide Going;
    hide Outcome;
    hide Prefixed;
    hide Stored;
    var c := pkt[pp];
    StoredIs(dn, read, dp);
    if pp + 1 + c > |pkt| {
      GoingStuck(pkt, cur, pp, jump, loop, read, dnsiz);
      return false, -1;
    }
    if dp + c + 1 > Limit(dnsiz) {
      GoingTooMuch(pkt, cur, pp, jump, loop, read, dnsiz);
      return false, Failed(dnsiz);
    }
    GoingLabel(pkt, cur, pp, jump, loop, read);
    Store(pkt, pp + 1, c, dn, dp, read);
    return true, 0;
  }

  /** What dns_getdn does with the zero at the end of a name */
  method TakeZero(pkt: seq<Byte>, cur: nat, pp: nat, jump: nat, ghost loop: nat, dn: array<Byte>, dp: nat, dnsiz: nat,
                  ghost read: seq<Label>)
    returns (r: int, after: nat)
    requires Going(pkt, cur, pp, jump, loop, read) && Stored(dn, read, dp) && dp <= Limit(dnsiz)
    requires pp < |pkt| && pkt[pp] == 0 && Enough(pkt, cur, dnsiz, dn.Length)
    modifies dn
    ensures r > 0 ==> r == dp + 1 <= dn.Length && dn[r..] == old(dn[r..])
    ensures Outcome(pkt, cur, dnsiz, r, after)
    ensures r > 0 ==> Answered(pkt, cur, dn, r)
  {
    hide Going;
    hide Outcome;
    hide Prefixed;
    hide Stored;
    hide Enough;
    hide Limit;
    StoredIs(dn, read, dp);
    GoingDone(pkt, cur, pp, jump, loop, read, dnsiz);
    EnoughIs(pkt, cur, dnsiz, dn.Length);
    if Limit(dnsiz) == 0 {
      return Failed(dnsiz), cur;
    }
    EnoughForZero(pkt, cur, dnsiz, dn.Length, read);
    StoreZero(dn, dp, read);
    return dp + 1, if jump != 0 then jump else pp + 1;
  }

  /** The name is in the buffer. */
  ghost predicate Answered(pkt: seq<Byte>, cur: nat, dn: array<Byte>, r: nat)
    reads dn
  {
    r <= dn.Length && Expansion(pkt, cur, JUMPS).Some? && dn[..r] == Wire(Expansion(pkt, cur, JUMPS).value)
  }

  lemma GoingIs(pkt: seq<Byte>, cur: nat, pp: nat, jump: nat, loop: nat, read: seq<Label>)
    requires Going(pkt, cur, pp, jump, loop, read)
    ensures 1 <= loop && (jump == 0 ==> loop == JUMPS) && LeftOf(jump, loop) >= 0
    ensures pp >= |pkt| ==> DeadEnd(pkt, pp, LeftOf(jump, loop))
  {}

  lemma SameBehind(s: seq<Byte>, t: seq<Byte>, k: nat, n: nat)
    requires |s| == |t| && k <= |s| && s[k..] == t[k..]
    ensures k + n <= |s| ==> s[k + n..] == t[k + n..]
  {
    if k + n <= |s| {
      assert s[k..][n..] == s[k + n..] && t[k..][n..] == t[k + n..];
    }
  }

  /** What dns_getdn answers: the size of the name and the place behind it if it fits, and otherwise a failure, which
      is 0 when a larger buffer could do. */
  ghost predicate Tells(pkt: seq<Byte>, cur: nat, dnsiz: nat, r: int, after: nat) {
    && (forall labels :: Stands(pkt, cur, labels) ==>
          Short(labels) &&
          if 0 < dnsiz && |Prefixed(labels)| <= dnsiz && |Prefixed(labels)| <= 255 then
            r == |Prefixed(labels)| + 1 && EndsAt(pkt, cur, after)
          else
            r == (if dnsiz >= 255 then -1 else 0) && after == cur)
    && ((forall labels :: !Stands(pkt, cur, labels)) ==> after == cur && (r == -1 || (r == 0 && dnsiz < 255)))
  }

  lemma OutcomeTells(pkt: seq<Byte>, cur: nat, dnsiz: nat, r: int, after: nat)
    requires Outcome(pkt, cur, dnsiz, r, after)
    ensures Tells(pkt, cur, dnsiz, r, after)
  {
    var e := Expansion(pkt, cur, JUMPS);
    forall labels ensures e == Some(labels) <==> Stands(pkt, cur, labels) {
      StandsIs(pkt, cur, labels);
    }
    if e.Some? {
      AfterIs(pkt, cur, JUMPS);
      assert Stands(pkt, cur, e.value);
      ShortIs(e.value);
    }
    hide Expansion, Stands, Expands, EndsAt, After, Prefixed;
  }

  lemma StandsIs(pkt: seq<Byte>, pos: nat, labels: seq<Label>)
    ensures Expansion(pkt, pos, JUMPS) == Some(labels) <==> Stands(pkt, pos, labels)
  {
    ExpansionIs(pkt, pos, JUMPS, labels);
    if Expansion(pkt, pos, JUMPS) == Some(labels) {
      var pointers: nat :| pointers <= JUMPS && Expands(pkt, pos, labels, pointers);
      assert pointers <= 100 && Expands(pkt, pos, labels, pointers);
    }
    if Stands(pkt, pos, labels) {
      var pointers: nat :| pointers <= 100 && Expands(pkt, pos, labels, pointers);
      ExpandsThen(pkt, pos, labels, pointers, JUMPS);
    }
  }

  lemma ShortIs(labels: seq<Label>)
    requires GoodLabels(labels)
    ensures Short(labels)
  {}

  lemma AnsweredTells(pkt: seq<Byte>, cur: nat, dn: array<Byte>, r: nat)
    requires Answered(pkt, cur, dn, r)
    ensures exists labels :: Stands(pkt, cur, labels) && Short(labels) && r <= dn.Length && dn[..r] == Wire(labels)
  {
    var labels := Expansion(pkt, cur, JUMPS).value;
    StandsIs(pkt, cur, labels);
    ShortIs(labels);
  }

  /** dns_getdn. It stays within a buffer of the size that is given unless the labels of the name fill that size: then
      it writes the zero behind it. Bytes behind the name keep their values. The test for labels over 63 bytes is left
      out, since the bits that such a length has make it a pointer. */
  method GetDn(pkt: seq<Byte>, cur: nat, dn: array<Byte>, dnsiz: nat) returns (r: int, after: nat)
    requires Enough(pkt, cur, dnsiz, dn.Length)
    modifies dn
    ensures Outcome(pkt, cur, dnsiz, r, after) && Tells(pkt, cur, dnsiz, r, after)
    ensures r > 0 ==> Answered(pkt, cur, dn, r) && r <= dn.Length && dn[r..] == old(dn[r..])
    ensures r > 0 ==> exists labels :: Stands(pkt, cur, labels) && Short(labels) && dn[..r] == Wire(labels)
  {
    var pp: nat, dp: nat, jump: nat, loop: nat := cur, 0, 0, JUMPS;
    ghost var read: seq<Label> := [];
    hide *;
    GoingFirst(pkt, cur);
    StoredNone(dn);
    ghost var before := dn[..];
    EnoughIs(pkt, cur, dnsiz, dn.Length);
    while true
      invariant Going(pkt, cur, pp, jump, loop, read) && Stored(dn, read, dp) && dp <= Limit(dnsiz)
      invariant dn[..][dp..] == before[dp..]
      decreases LeftOf(jump, loop), |pkt| - pp
    {
      GoingIs(pkt, cur, pp, jump, loop, read);
      if pp >= |pkt| {
        GoingStuck(pkt, cur, pp, jump, loop, read, dnsiz);
        OutcomeTells(pkt, cur, dnsiz, -1, cur);
        return -1, cur;
      }
      var c := pkt[pp];
      if c == 0 {
        SameBehind(dn[..], before, dp, 1);
        r, after := TakeZero(pkt, cur, pp, jump, loop, dn, dp, dnsiz, read);
        OutcomeTells(pkt, cur, dnsiz, r, after);
        if r > 0 {
          AnsweredTells(pkt, cur, dn, r);
        }
        return;
      }
      if c >= 64 {
        var ok, target, jump1, loop1 := Follow(pkt, pp, jump, loop);
        if !ok {
          GoingStuck(pkt, cur, pp, jump, loop, read, dnsiz);
          OutcomeTells(pkt, cur, dnsiz, -1, cur);
          return -1, cur;
        }
        GoingPointer(pkt, cur, pp, jump, loop, read, jump1, loop1);
        pp, jump, loop := target, jump1, loop1;
      } else {
        SameBehind(dn[..], before, dp, 1 + c);
        var ok, failed := TakeLabel(pkt, cur, pp, jump, loop, dn, dp, dnsiz, read);
        if !ok {
          OutcomeTells(pkt, cur, dnsiz, failed, cur);
          return failed, cur;
        }
        read := read + [pkt[pp + 1..pp + 1 + c]];
        dp := dp + 1 + c;
        pp := pp + 1 + c;
      }
    }
  }

  /** The result is within the size that was given exactly when the labels leave room for the zero. */
  lemma WithinSize(pkt: seq<Byte>, cur: nat, dnsiz: nat, r: int, after: nat)
    requires Outcome(pkt, cur, dnsiz, r, after) && r > 0
    ensures r <= Limit(dnsiz) <==> |Prefixed(Expansion(pkt, cur, JUMPS).value)| != Limit(dnsiz)
  {}

  /** A name without pointers expands to itself. */
  lemma {:induction false} PlainExpands(pkt: seq<Byte>, before: seq<Byte>, labels: seq<Label>, jumps: nat)
    requires GoodLabels(labels) && Short(labels) && before + Wire(labels) <= pkt
    ensures Expansion(pkt, |before|, jumps) == Some(labels)
    decreases |labels|
  {
    if labels == [] {
      assert pkt[|before|] == (before + Wire(labels))[|before|];
    } else {
      var l, rest := labels[0], labels[1..];
      WireFirst(before, labels);
      LabelBetween(pkt, before, l, Wire(rest));
      PlainExpands(pkt, before + [|l|] + l, rest, jumps);
      hide Wire;
      hide Prefixed;
      hide GoodLabels;
      hide Short;
      assert [l] + rest == labels;
    }
  }

  lemma WireFirst(before: seq<Byte>, labels: seq<Label>)
    requires Short(labels) && labels != []
    ensures Short(labels[1..])
    ensures before + Wire(labels) == before + [|labels[0]|] + labels[0] + Wire(labels[1..])
    ensures before + Wire(labels) == before + ([|labels[0]|] + labels[0] + Wire(labels[1..]))
  {}

  /** Whenever the labels of a name fill the size that was given, which is 255 for every caller that uses the buffers
      of the library, the result is one more than that size, and a buffer of that size is not enough. */
  lemma OnePastTheEnd(pkt: seq<Byte>, before: seq<Byte>, labels: seq<Label>, r: int, after: nat)
    requires GoodLabels(labels) && Short(labels) && before + Wire(labels) <= pkt
    requires |Prefixed(labels)| == MAX_NAME && Outcome(pkt, |before|, MAX_NAME, r, after)
    ensures r == MAX_NAME + 1 && !Enough(pkt, |before|, MAX_NAME, MAX_NAME)
  {
    PlainExpands(pkt, before, labels, JUMPS);
  }

  /** There are such names: three labels of 63 bytes and one of 62. */
  lemma FullName() returns (labels: seq<Label>)
    ensures GoodLabels(labels) && Short(labels) && |Prefixed(labels)| == MAX_NAME && !ValidName(labels)
  {
    var l: Label, m: Label := seq(63, _ => 97), seq(62, _ => 97);
    labels := [l, l, l, m];
    FourLabels(l, l, l, m);
    hide Prefixed;
  }

  lemma FourLabels(a: Label, b: Label, c: Label, d: Label)
    requires 1 <= |a| < 256 && 1 <= |b| < 256 && 1 <= |c| < 256 && 1 <= |d| < 256
    ensures Short([a, b, c, d]) && |Prefixed([a, b, c, d])| == 4 + |a| + |b| + |c| + |d|
  {
    TwoLabels(a, b);
    hide Prefixed;
    hide Short;
    assert [a, b] + [c] == [a, b, c] && [a, b, c] + [d] == [a, b, c, d];
    OneLonger([a, b], c);
    OneLonger([a, b, c], d);
  }

  lemma TwoLabels(a: Label, b: Label)
    requires 1 <= |a| < 256 && 1 <= |b| < 256
    ensures Short([a, b]) && |Prefixed([a, b])| == 2 + |a| + |b|
  {
    assert Short([]) && Prefixed([]) == [] && [] + [a] == [a] && [a] + [b] == [a, b];
    hide Prefixed;
    hide Short;
    OneLonger([], a);
    OneLonger([a], b);
  }

  lemma OneLonger(labels: seq<Label>, l: Label)
    requires Short(labels) && 1 <= |l| < 256
    ensures Short(labels + [l]) && |Prefixed(labels + [l])| == |Prefixed(labels)| + 1 + |l|
  {
    PrefixedOne(labels, l);
  }
}
