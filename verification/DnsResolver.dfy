/** The active queries of a resolver context of deps/udns-0.0.9/udns_resolver.c: submission, sending, replies,
    timeouts and cancelling. The doubly linked list is a sequence. */
module DnsResolvers {
  import opened Bytes
  import opened Options
  import opened DnsQueries
  import opened DnsRules
  import Words

  class Query {
    const orig: Name
    const typcls: seq<nat>
    var id: nat
    var nxtsrch: nat
    var asIsDone: bool
    var seenNodata: bool
    var try: nat
    var servi: nat
    var servwait: set<nat>
    var servskip: set<nat>
    var servnEDNS0: set<nat>
    var deadline: int
    var dn: Name
    /** The calls of dns_send_this for this query so far. */
    ghost var sent: nat

    function View(): Progress
      reads this
    {
      Progress(nxtsrch, asIsDone, seenNodata, try, servi, servwait, servskip, servnEDNS0, deadline, dn)
    }

    /** The memory that calloc clears, and the name. */
    constructor (orig: Name, typcls: seq<nat>)
      ensures this.orig == orig && this.typcls == typcls && sent == 0
      ensures View() == Progress(0, false, false, 0, 0, {}, {}, {}, 0, orig + ROOT)
    {
      this.orig, this.typcls, id := orig, typcls, 0;
      nxtsrch, asIsDone, seenNodata, try, servi := 0, false, false, 0, 0;
      servwait, servskip, servnEDNS0, deadline, dn := {}, {}, {}, 0, orig + ROOT;
      sent := 0;
    }
  }

  // ----- lists of queries -----

  ghost predicate NoDuplicates<T>(s: seq<T>) { forall i, j :: 0 <= i < j < |s| ==> s[i] != s[j] }

  ghost predicate Sorted(s: seq<Query>)
    reads s
  {
    forall i, j :: 0 <= i < j < |s| ==> s[i].deadline <= s[j].deadline
  }

  function Index<T(==)>(s: seq<T>, x: T): (i: nat)
    requires x in s
    ensures i < |s| && s[i] == x && forall j :: 0 <= j < i ==> s[j] != x
  {
    if s[0] == x then 0 else 1 + Index(s[1..], x)
  }

  function Without<T(==)>(s: seq<T>, x: T): (r: seq<T>)
    requires x in s
    ensures |r| == |s| - 1
  {
    s[..Index(s, x)] + s[Index(s, x) + 1..]
  }

  lemma WithoutAt<T>(s: seq<T>, x: T, i: nat)
    requires x in s && i < |Without(s, x)|
    ensures Without(s, x)[i] == s[if i < Index(s, x) then i else i + 1]
  {}

  lemma WithoutMembers<T>(s: seq<T>, x: T)
    requires x in s && NoDuplicates(s)
    ensures NoDuplicates(Without(s, x)) && x !in Without(s, x)
    ensures forall y :: y in s <==> y == x || y in Without(s, x)
  {
    hide Without;
    var k, r := Index(s, x), Without(s, x);
    forall i | 0 <= i < |r| ensures r[i] == s[if i < k then i else i + 1] && r[i] != x && r[i] in s {
      WithoutAt(s, x, i);
    }
    forall i, j | 0 <= i < j < |r| ensures r[i] != r[j] {
      WithoutAt(s, x, i);
      WithoutAt(s, x, j);
    }
    forall y | y in s && y != x ensures y in r {
      var i := Index(s, y);
      WithoutAt(s, x, if i < k then i else i - 1);
    }
  }

  /** The sequence without x, if x is there. */
  function Rest<T(==)>(s: seq<T>, x: T): seq<T> { if x in s then Without(s, x) else s }

  lemma RestInserted<T>(s: seq<T>, k: nat, x: T)
    requires k <= |s| && x !in s
    ensures Rest(s[..k] + [x] + s[k..], x) == s && Rest(s, x) == s
  {
    var r := s[..k] + [x] + s[k..];
    hide Index;
    assert r[k] == x && r[..k] == s[..k] && r[k + 1..] == s[k..];
    forall i | 0 <= i < k ensures r[i] != x { assert s[i] in s; }
    assert Index(r, x) == k;
  }

  /** The elements of a set in the order of the sequence */
  function Among<T(==)>(s: seq<T>, keep: set<T>): seq<T> {
    if s == [] then []
    else Among(s[..|s| - 1], keep) + if s[|s| - 1] in keep then [s[|s| - 1]] else []
  }

  lemma {:induction false} AmongConcat<T>(a: seq<T>, b: seq<T>, keep: set<T>)
    ensures Among(a + b, keep) == Among(a, keep) + Among(b, keep)
  {
    if b == [] {
      assert a + b == a;
    } else {
      AmongConcat(a, b[..|b| - 1], keep);
      assert (a + b)[..|a + b| - 1] == a + b[..|b| - 1];
    }
  }

  lemma {:induction false} AmongNone<T>(x: T, keep: set<T>)
    requires x !in keep
    ensures Among([x], keep) == []
  {
    assert [x][..0] == [];
  }

  lemma {:induction false} AmongRest<T>(s: seq<T>, x: T, keep: set<T>)
    requires x !in keep
    ensures Among(Rest(s, x), keep) == Among(s, keep)
  {
    hide Among;
    if x in s {
      var a, b := Around(s, x);
      hide *;
      AmongNone(x, keep);
      AmongConcat(a, [x] + b, keep);
      AmongConcat([x], b, keep);
      AmongConcat(a, b, keep);
    }
  }

  lemma Around<T>(s: seq<T>, x: T) returns (a: seq<T>, b: seq<T>)
    requires x in s
    ensures s == a + ([x] + b) && Rest(s, x) == a + b
  {
    var k := Index(s, x);
    hide Index;
    a, b := s[..k], s[k + 1..];
  }

  lemma WithoutSorted(s: seq<Query>, x: Query)
    requires x in s && Sorted(s)
    ensures Sorted(Without(s, x))
  {
    var k, r := Index(s, x), Without(s, x);
    assert forall i :: 0 <= i < |r| ==> r[i] == s[if i < k then i else i + 1];
  }

  // ----- the resolver -----

  /** The query is well formed and within its budget of sends. */
  ghost predicate QueryOk(cfg: Config, q: Query)
    reads q
  {
    && ValidProgress(cfg, q.View()) && |q.orig| < MAXDN
    && q.sent + Left(cfg, q.orig, q.View()) <= Bound(cfg)
  }

  /** Every submitted query is active, or has had its callback run, or was cancelled, and only one of these. */
  ghost predicate Partition(active: seq<Query>, called: seq<Query>, cancelled: set<Query>, submitted: set<Query>) {
    && NoDuplicates(active) && NoDuplicates(called)
    && (forall q :: q in submitted ==> q in active || q in called || q in cancelled)
    && (forall q :: q in active ==> q in submitted && q !in called && q !in cancelled)
    && (forall q :: q in called ==> q in submitted && q !in cancelled)
    && cancelled <= submitted
  }

  lemma {:induction false} OnceInSequence(s: seq<Query>, q: Query)
    requires NoDuplicates(s) && q in s
    ensures multiset(s)[q] == 1
  {
    var r, x := s[..|s| - 1], s[|s| - 1];
    assert s == r + [x];
    if x == q {
      assert q !in r;
    } else {
      OnceInSequence(r, q);
    }
  }

  lemma PartitionCall(active: seq<Query>, called: seq<Query>, cancelled: set<Query>, submitted: set<Query>, q: Query)
    requires Partition(active, called, cancelled, submitted) && q in active
    ensures Partition(Without(active, q), called + [q], cancelled, submitted)
    ensures forall p :: p in Without(active, q) ==> p in active && p != q
  {
    WithoutMembers(active, q);
  }

  lemma PartitionCancel(active: seq<Query>, called: seq<Query>, cancelled: set<Query>, submitted: set<Query>, q: Query)
    requires Partition(active, called, cancelled, submitted) && q in active
    ensures Partition(Without(active, q), called, cancelled + {q}, submitted)
    ensures forall p :: p in Without(active, q) ==> p in active && p != q
  {
    WithoutMembers(active, q);
  }

  lemma InsertFresh<T>(rest: seq<T>, k: nat, q: T)
    requires NoDuplicates(rest) && q !in rest && k <= |rest|
    ensures NoDuplicates(rest[..k] + [q] + rest[k..])
    ensures forall p :: p in rest[..k] + [q] + rest[k..] <==> p == q || p in rest
  {
    var s := rest[..k] + [q] + rest[k..];
    assert rest == rest[..k] + rest[k..];
    forall i, j | 0 <= i < j < |s| ensures s[i] != s[j] {
      if i != k { assert s[i] == rest[if i < k then i else i - 1]; }
      if j != k { assert s[j] == rest[if j < k then j else j - 1]; }
    }
  }

  lemma PartitionMove(active: seq<Query>, called: seq<Query>, cancelled: set<Query>, submitted: set<Query>, q: Query,
                      k: nat)
    requires Partition(active, called, cancelled, submitted) && q in active && k < |active|
    ensures var rest := Without(active, q);
            Partition(rest[..k] + [q] + rest[k..], called, cancelled, submitted)
    ensures var rest := Without(active, q);
            |rest[..k] + [q] + rest[k..]| == |active| && forall p :: p in rest[..k] + [q] + rest[k..] <==> p in active
  {
    var rest := Without(active, q);
    WithoutMembers(active, q);
    InsertFresh(rest, k, q);
    hide NoDuplicates;
    hide Without;
  }

  // ----- what is left to do -----

  ghost function Weight(cfg: Config, q: Query): nat
    reads q
  {
    if ValidProgress(cfg, q.View()) then 1 + Left(cfg, q.orig, q.View()) else 0
  }

  /** All sends that the queries of a list may still make, and their ends. */
  ghost function Total(cfg: Config, s: seq<Query>): nat
    reads s
  {
    if s == [] then 0 else Total(cfg, s[..|s| - 1]) + Weight(cfg, s[|s| - 1])
  }

  lemma {:induction false} TotalConcat(cfg: Config, a: seq<Query>, b: seq<Query>)
    ensures Total(cfg, a + b) == Total(cfg, a) + Total(cfg, b)
    decreases b
  {
    if b == [] {
      assert a + b == a;
    } else {
      assert (a + b)[..|a + b| - 1] == a + b[..|b| - 1];
      TotalConcat(cfg, a, b[..|b| - 1]);
    }
  }

  lemma {:induction false} TotalInsert(cfg: Config, s: seq<Query>, k: nat, q: Query)
    requires k <= |s|
    ensures Total(cfg, s[..k] + [q] + s[k..]) == Total(cfg, s) + Weight(cfg, q)
  {
    TotalConcat(cfg, s[..k] + [q], s[k..]);
    TotalConcat(cfg, s[..k], [q]);
    TotalConcat(cfg, s[..k], s[k..]);
    assert s[..k] + s[k..] == s;
    assert [q][..0] == [];
    hide Weight;
  }

  lemma {:induction false} TotalWithout(cfg: Config, s: seq<Query>, q: Query)
    requires q in s
    ensures Total(cfg, s) == Total(cfg, Without(s, q)) + Weight(cfg, q)
  {
    var k, r := Index(s, q), Without(s, q);
    assert s == r[..k] + [q] + r[k..];
    TotalInsert(cfg, r, k, q);
  }

  /** q is in its place by its deadline, behind the queries with the same deadline. */
  ghost predicate Placed(rest: seq<Query>, k: nat, q: Query)
    reads rest, q
  {
    && k <= |rest|
    && (forall i :: 0 <= i < k ==> rest[i].deadline <= q.deadline)
    && (forall i :: k <= i < |rest| ==> rest[i].deadline > q.deadline)
  }

  lemma PlacedSorted(rest: seq<Query>, k: nat, q: Query)
    requires Sorted(rest) && Placed(rest, k, q)
    ensures Sorted(rest[..k] + [q] + rest[k..])
  {
    var s := rest[..k] + [q] + rest[k..];
    assert forall i :: 0 <= i < |s| ==> s[i] == if i < k then rest[i] else if i == k then q else rest[i - 1];
  }

  lemma PlacedBefore(rest: seq<Query>, k: nat, q: Query)
    requires Sorted(rest) && k <= |rest| && (k > 0 ==> rest[k - 1].deadline <= q.deadline)
    requires forall j :: k <= j < |rest| ==> rest[j].deadline > q.deadline
    ensures Placed(rest, k, q)
  {}

  class Resolver {
    const cfg: Config
    var nextid: nat
    var active: seq<Query>
    var nactive: nat
    var qstatus: int
    ghost var submitted: set<Query>
    ghost var cancelled: set<Query>
    /** The queries whose callback has run, in order. */
    ghost var called: seq<Query>

    ghost predicate Valid()
      reads this, submitted, active
    {
      && ValidConfig(cfg) && nactive == |active|
      && Partition(active, called, cancelled, submitted)
      && Sorted(active)
      && (forall q :: q in active ==> QueryOk(cfg, q))
      && (forall q :: q in submitted ==> q.sent <= Bound(cfg))
    }

    constructor (cfg: Config)
      requires ValidConfig(cfg)
      ensures Valid() && active == [] && submitted == {} && this.cfg == cfg
    {
      this.cfg, nextid, active, nactive, qstatus := cfg, 0, [], 0, 0;
      submitted, cancelled, called := {}, {}, [];
    }

    /** dns_find_serv */
    method FindServer(q: Query) returns (found: bool)
      requires q.servi <= cfg.nserv
      modifies q`servi
      ensures q.servi == FindServ(cfg, old(q.servi), q.servskip) && found == (q.servi < cfg.nserv)
    {
      while q.servi < cfg.nserv
        invariant old(q.servi) <= q.servi <= cfg.nserv
        invariant FindServ(cfg, q.servi, q.servskip) == FindServ(cfg, old(q.servi), q.servskip)
      {
        if q.servi !in q.servskip {
          return true;
        }
        q.servi := q.servi + 1;
      }
      return false;
    }

    /** dns_newid: a 16-bit number from a 32-bit counter */
    method NewId(q: Query)
      modifies this`nextid, q
      ensures q.View() == Fresh(old(q.View())) && q.id == old(nextid) % 0x1_0000 && q.sent == old(q.sent)
      ensures nextid == (old(nextid) + 1) % 0x1_0000_0000
    {
      q.id := nextid % 0x1_0000;
      nextid := (nextid + 1) % 0x1_0000_0000;
      q.try, q.servi := 0, 0;
      q.servwait, q.servskip, q.servnEDNS0 := {}, {}, {};
    }

    /** dns_next_srch */
    method NextSrch(q: Query) returns (found: bool)
      modifies this`nextid, q
      ensures found == NextSearch(cfg, q.orig, old(q.View())).Some? && q.sent == old(q.sent)
      ensures found ==> q.View() == NextSearch(cfg, q.orig, old(q.View())).value
      ensures !found ==> q.View() == old(q.View()).(nxtsrch := q.nxtsrch)
      ensures q.id == if found then old(nextid) % 0x1_0000 else old(q.id)
    {
      while true
        invariant NextUsable(cfg, q.nxtsrch, |q.orig|, q.asIsDone)
                  == NextUsable(cfg, old(q.nxtsrch), |q.orig|, q.asIsDone)
        invariant q.View() == old(q.View()).(nxtsrch := q.nxtsrch) && q.sent == old(q.sent)
        invariant q.id == old(q.id) && nextid == old(nextid)
        decreases |cfg.search| + 1 - q.nxtsrch
      {
        if q.nxtsrch > |cfg.search| {
          return false;
        }
        var element := Element(cfg, q.nxtsrch);
        if |element| + |q.orig| <= MAXDN && (element != ROOT || !q.asIsDone) {
          break;
        }
        q.nxtsrch := q.nxtsrch + 1;
      }
      q.dn := q.orig + Element(cfg, q.nxtsrch);
      if Element(cfg, q.nxtsrch) == ROOT {
        q.asIsDone := true;
      }
      q.nxtsrch := q.nxtsrch + 1;
      NewId(q);
      return true;
    }

    /** The part of dns_submit_dn that sets up the query. */
    method NewQuery(orig: Name, typcls: seq<nat>, nosrch: bool, labels: nat) returns (q: Query)
      requires ValidConfig(cfg) && |orig| < MAXDN
      modifies this`nextid
      ensures fresh(q) && q.View() == Submitted(cfg, orig, nosrch, labels) && q.orig == orig && q.typcls == typcls
      ensures q.sent == 0 && QueryOk(cfg, q) && q.deadline == 0 && q.id == old(nextid) % 0x1_0000
    {
      hide NextUsable;
      hide Left;
      hide Bound;
      hide ValidProgress;
      q := new Query(orig, typcls);
      LeftSubmitted(cfg, orig, nosrch, labels);
      if nosrch || labels > cfg.ndots {
        q.nxtsrch := if nosrch then |cfg.search| else 0;
        q.asIsDone := true;
        NewId(q);
      } else {
        q.nxtsrch := 0;
        var found := NextSrch(q);
        assert found;
      }
    }

    /** dns_submit_dn: at the head of the list with deadline 0, to be sent by the next dns_timeouts. */
    method Submit(orig: Name, typcls: seq<nat>, nosrch: bool, labels: nat) returns (q: Query)
      requires Valid() && |orig| < MAXDN
      modifies this
      ensures Valid() && fresh(q) && active == [q] + old(active) && submitted == old(submitted) + {q}
      ensures q.View() == Submitted(cfg, orig, nosrch, labels) && q.orig == orig && q.typcls == typcls && q.sent == 0
      ensures called == old(called) && cancelled == old(cancelled) && q.id == old(nextid) % 0x1_0000
    {
      hide QueryOk;
      hide ValidConfig;
      hide Submitted;
      hide Bound;
      q := NewQuery(orig, typcls, nosrch, labels);
      DeadlinesPositive();
      active := [q] + active;
      nactive := nactive + 1;
      submitted := submitted + {q};
    }

    lemma DeadlinesPositive()
      requires Valid()
      ensures forall q :: q in active ==> q.deadline >= 0
    {}

    /** dns_end_query: the only place where a callback runs. */
    method EndQuery(q: Query, status: int)
      requires ValidBut(q) && q in active
      modifies this`active, this`nactive, this`qstatus, this`called
      ensures Valid() && active == Without(old(active), q) && called == old(called) + [q] && qstatus == status
      ensures Total(cfg, active) == old(Total(cfg, Without(active, q))) && q !in active
    {
      assert nactive > 0;
      qstatus := status;
      PartitionCall(active, called, cancelled, submitted, q);
      nactive := nactive - 1;
      active := Without(active, q);
      called := called + [q];
    }

    /** All but what is said of the query q, which is about to be ended or sent. */
    ghost predicate ValidBut(q: Query)
      reads this, submitted, active
    {
      && ValidConfig(cfg) && nactive == |active|
      && Partition(active, called, cancelled, submitted)
      && q in active && Sorted(Without(active, q))
      && (forall p :: p in active && p != q ==> QueryOk(cfg, p))
      && (forall p :: p in submitted ==> p.sent <= Bound(cfg))
    }

    /** sendto; whether it succeeds is up to the network. */
    static method SendTo() returns (ok: bool)
    {
      ok := *;
    }

    /** sendto, until it succeeds or has failed ten times; its answers are recorded. */
    static method SendRepeatedly() returns (ok: bool, ghost answers: seq<bool>)
      ensures Attempts(ok, answers)
    {
      var tries := 10;
      ok := SendTo();
      answers := [ok];
      while !ok && tries > 1
        invariant 1 <= tries <= 10 && |answers| == 11 - tries && answers[|answers| - 1] == ok
        invariant forall i :: 0 <= i < |answers| - 1 ==> !answers[i]
        decreases tries
      {
        tries := tries - 1;
        ok := SendTo();
        answers := answers + [ok];
      }
    }

    /** The first success ends it, or the tenth failure. */
    static ghost predicate Attempts(ok: bool, answers: seq<bool>) {
      && 1 <= |answers| <= 10 && answers[|answers| - 1] == ok && (forall i :: 0 <= i < |answers| - 1 ==> !answers[i])
      && (!ok ==> |answers| == 10)
    }

    /** qlist_remove, and the insertion from the tail in dns_send_this */
    method Requeue(q: Query) returns (ghost k: nat)
      requires ValidBut(q) && QueryOk(cfg, q)
      modifies this`active
      ensures Valid()
      ensures var rest := Without(old(active), q);
              && k <= |rest| && Placed(rest, k, q) && active == rest[..k] + [q] + rest[k..]
              && Total(cfg, active) == old(Total(cfg, rest)) + Weight(cfg, q) && q in active
    {
      hide QueryOk;
      hide Weight;
      hide ValidConfig;
      hide Bound;
      hide Partition;
      hide Sorted;
      hide Placed;
      hide Without;
      hide Total;
      var rest := Without(active, q);
      var i := |rest|;
      while i > 0 && rest[i - 1].deadline > q.deadline
        invariant 0 <= i <= |rest|
        invariant forall j :: i <= j < |rest| ==> rest[j].deadline > q.deadline
      {
        i := i - 1;
      }
      k := i;
      PlacedBefore(rest, k, q);
      PartitionMove(active, called, cancelled, submitted, q, k);
      PlacedSorted(rest, k, q);
      TotalInsert(cfg, rest, k, q);
      active := rest[..i] + [q] + rest[i..];
    }

    /** The query may make one more send. */
    ghost predicate MaySend(q: Query)
      reads this, submitted, active, q
    {
      && ValidBut(q) && ValidProgress(cfg, q.View()) && |q.orig| < MAXDN
      && q.sent + 1 + Left(cfg, q.orig, q.View()) <= Bound(cfg)
    }

    /** What dns_send_this notes after a successful sendto. */
    method Await(q: Query, server: nat, now: int)
      requires q.servi <= cfg.nserv
      modifies q`servwait, q`servi, q`deadline
      ensures q.View() == Sent(cfg, old(q.View()), server, now)
    {
      q.servwait := q.servwait + {server};
      var more := FindServer(q);
      q.deadline := now + if more then 1 else Backoff(cfg, q.try);
    }

    /** dns_send_this: up to ten attempts, then the query fails; else it waits for its new deadline. */
    method SendThis(q: Query, server: nat, now: int) returns (ok: bool, ghost k: nat, ghost answers: seq<bool>)
      requires MaySend(q) && server < cfg.nserv && now >= 0
      modifies this`active, this`nactive, this`qstatus, this`called, q
      ensures Valid() && q.sent == old(q.sent) + 1 && ok == (q in active) && q.id == old(q.id)
      ensures ok ==> q.View() == Sent(cfg, old(q.View()), server, now) && called == old(called)
      ensures ok ==> var rest := Without(old(active), q); Placed(rest, k, q) && active == rest[..k] + [q] + rest[k..]
      ensures !ok ==> active == Without(old(active), q) && called == old(called) + [q] && qstatus == E_TEMPFAIL
      ensures Total(cfg, active) <= old(Total(cfg, Without(active, q)) + Weight(cfg, q))
      ensures !ok ==> Total(cfg, active) == old(Total(cfg, Without(active, q)))
      ensures Rest(active, q) == Without(old(active), q) && Attempts(ok, answers)
    {
      hide Attempts;
      hide Left;
      hide Bound;
      hide Partition;
      hide Placed;
      hide ValidConfig;
      hide ValidProgress;
      hide Sent;
      hide Without;
      hide Sorted;
      hide NoDuplicates;
      hide Total;
      hide ValidBut;
      hide Valid;
      hide MaySend;
      MaySendParts(q);
      LeftSent(cfg, q.orig, q.View(), server, now);
      ButWithout(q);
      ServiBound(q);
      q.sent := q.sent + 1;
      ok, answers := SendRepeatedly();
      k := 0;
      if ok {
        Await(q, server, now);
      }
      TouchedBut(q);
      TouchedTotal(q);
      ghost var rest := Without(active, q);
      RestInserted(rest, 0, q);
      if ok {
        k := Requeue(q);
        RestInserted(rest, k, q);
      } else {
        EndQuery(q, E_TEMPFAIL);
      }
    }

    lemma MaySendParts(q: Query)
      requires MaySend(q)
      ensures ValidConfig(cfg) && ValidBut(q) && ValidProgress(cfg, q.View()) && |q.orig| < MAXDN && q in submitted
      ensures q.sent + 1 + Left(cfg, q.orig, q.View()) <= Bound(cfg)
    {}

    lemma ServiBound(q: Query)
      requires ValidProgress(cfg, q.View())
      ensures q.servi <= cfg.nserv
    {}

    /** The choice of dns_send for the query q. */
    method ChooseServer(q: Query) returns (found: bool)
      requires ValidConfig(cfg) && ValidProgress(cfg, q.View())
      modifies q`servi, q`try
      ensures found <==> Choose(cfg, old(q.View())).Ask?
      ensures found ==>
                q.servi < cfg.nserv && Choose(cfg, old(q.View())) == Ask(q.servi, q.View().(servi := q.servi + 1))
    {
      found := FindServer(q);
      if !found {
        q.servi := 0;
        q.try := q.try + 1;
        if q.try >= cfg.ntries {
          return false;
        }
        found := FindServer(q);
      }
    }

    lemma ButWithout(q: Query)
      requires ValidBut(q)
      ensures q !in Without(active, q) && Total(cfg, active) == Total(cfg, Without(active, q)) + Weight(cfg, q)
    {
      WithoutMembers(active, q);
      TotalWithout(cfg, active, q);
    }

    /** The query is in the list, within its budget, or about to be put in its place. */
    ghost predicate Pending(q: Query)
      reads this, submitted, active, q
    {
      ValidBut(q) && QueryOk(cfg, q)
    }

    /** dns_send: ask the next server, or end the query when there is none left. */
    method Send(q: Query, now: int)
      requires Pending(q) && now >= 0
      modifies this`active, this`nactive, this`qstatus, this`called, q
      ensures Valid() && old(q.sent) <= q.sent <= old(q.sent) + 1 && q.id == old(q.id)
      ensures q in active ==>
                var c := Choose(cfg, old(q.View()));
                c.Ask? && q.View() == Sent(cfg, c.p, c.server, now) && called == old(called)
                && q.sent == old(q.sent) + 1
      ensures q !in active ==>
                active == Without(old(active), q) && called == old(called) + [q] && qstatus == E_TEMPFAIL
      ensures Choose(cfg, old(q.View())).GiveUp? ==> q !in active && q.sent == old(q.sent)
      ensures Choose(cfg, old(q.View())).Ask? ==> q.sent == old(q.sent) + 1
      ensures Total(cfg, active) < old(Total(cfg, active)) && Rest(active, q) == Without(old(active), q)
    {
      hide Left;
      hide Bound;
      hide Partition;
      hide Without;
      hide NoDuplicates;
      hide FindServ;
      hide Sorted;
      hide Total;
      ButWithout(q);
      PendingParts(q);
      LeftChoose(cfg, q.orig, q.View());
      var found := ChooseServer(q);
      if !found {
        TouchedBut(q);
        TouchedTotal(q);
        EndQuery(q, E_TEMPFAIL);
      } else {
        var server := q.servi;
        q.servi := q.servi + 1;
        TouchedBut(q);
        TouchedTotal(q);
        var ok, k, answers := SendThis(q, server, now);
      }
    }

    lemma ValidPending(q: Query)
      requires Valid() && q in active
      ensures Pending(q)
    {
      WithoutSorted(active, q);
    }

    /** The active queries whose deadline has not come */
    ghost function Later(now: int): set<Query>
      reads this, active
    {
      set q | q in active && q.deadline > now
    }

    /** dns_timeouts, when no callback submits: send or end every expired query. The others stay as they are, in
        their order. */
    method Timeouts(maxwait: int, now: int) returns (wait: int)
      requires Valid() && now >= 0
      modifies this`active, this`nactive, this`qstatus, this`called, submitted
      ensures Valid() && old(called) <= called && forall q :: q in active ==> q.deadline > now
      ensures Among(active, old(Later(now))) == Among(old(active), old(Later(now)))
      ensures forall q :: q in old(Later(now)) ==> q in active && unchanged(q)
      ensures forall q :: q in old(active) && old(q.deadline) <= now ==>
                Served(q in active, q in called, q.View(), q.sent, old(q.View()), old(q.sent), now)
      ensures active == [] ==> wait == maxwait
      ensures active != [] ==>
                var w := active[0].deadline - now;
                wait == (if maxwait < 0 || maxwait > w then w else maxwait)
                && forall q :: q in active ==> wait <= q.deadline - now
      ensures Total(cfg, active) <= old(Total(cfg, active))
      ensures old(active != [] && active[0].deadline <= now) ==> Total(cfg, active) < old(Total(cfg, active))
    {
      hide *;
      ghost var later, expired := Later(now), Expired(now);
      ghost var views, sents := ViewsOf(expired), SentsOf(expired);
      ghost var a0, c0, t0 := active, called, Total(cfg, active);
      LaterIs(now);
      forall q | q in expired
        ensures ServedOrSame(q in active, q in called, q.View(), q.sent, views[q], sents[q], now)
      {
        SameServed(q, views[q], sents[q], now);
      }
      RoundsFirst(later, expired, now);
      forall q | q in later ensures q in active { InLater(q, now); }
      wait := maxwait;
      while active != []
        invariant Rounds(later, expired, now, a0, c0, t0) && wait == maxwait
        invariant forall q :: q in expired ==>
                    ServedOrSame(q in active, q in called, q.View(), q.sent, views[q], sents[q], now)
        invariant forall q :: q in later ==> q in old(active) && unchanged(q)
        invariant Total(cfg, active) < t0 || (active == old(active) && forall q :: q in old(active) ==> unchanged(q))
        decreases Total(cfg, active)
      {
        RoundsParts(later, expired, now, a0, c0, t0);
        var q := active[0];
        if q.deadline > now {
          var w := q.deadline - now;
          if wait < 0 || wait > w {
            wait := w;
          }
          break;
        }
        ghost var p1, n1, called1 := q.View(), q.sent, called;
        ServedAt(q, views[q], sents[q], now);
        SendExpired(q, now, later);
        RoundsFrom(later, expired, now, a0, c0, t0);
        ServedThen(q, p1, n1, views[q], sents[q], now);
        forall r | r in expired && r != q
          ensures ServedOrSame(r in active, r in called, r.View(), r.sent, views[r], sents[r], now)
        {
          ServedMore(r in active, r in called1, r in called, r.View(), r.sent, views[r], sents[r], now);
        }
      }
      RoundsParts(later, expired, now, a0, c0, t0);
      forall q | q in expired ensures Served(q in active, q in called, q.View(), q.sent, views[q], sents[q], now) {
        ServedDone(q, views[q], sents[q], now);
      }
    }

    ghost function Expired(now: int): set<Query>
      reads this, active
    {
      set q | q in active && q.deadline <= now
    }

    static ghost function ViewsOf(qs: set<Query>): map<Query, Progress>
      reads qs
    {
      map q | q in qs :: q.View()
    }

    static ghost function SentsOf(qs: set<Query>): map<Query, nat>
      reads qs
    {
      map q | q in qs :: q.sent
    }

    lemma InLater(q: Query, now: int)
      requires q in Later(now)
      ensures q in active && q.deadline > now
    {}

    lemma LaterIs(now: int)
      ensures forall q :: q in Later(now) <==> q in active && q.deadline > now
      ensures forall q :: q in Expired(now) <==> q in active && q.deadline <= now
      ensures forall q :: q in Expired(now) ==>
                var e := Expired(now);
                q in ViewsOf(e) && q in SentsOf(e) && ViewsOf(e)[q] == q.View() && SentsOf(e)[q] == q.sent
                && q.View().deadline == q.deadline
    {}

    /** The invariant of the rounds: the lists and the measure before were these. */
    ghost predicate Rounds(later: set<Query>, expired: set<Query>, now: int, a0: seq<Query>, c0: seq<Query>, t0: nat)
      reads this, submitted, active, later
    {
      && Valid() && c0 <= called && Total(cfg, active) <= t0 && Among(active, later) == Among(a0, later)
      && (forall q :: q in later ==> q in active && q.deadline > now)
      && (forall q :: q in active ==> q in expired || q in later)
    }

    lemma RoundsFirst(later: set<Query>, expired: set<Query>, now: int)
      requires Valid() && forall q :: q in later <==> q in active && q.deadline > now
      requires forall q :: q in expired <==> q in active && q.deadline <= now
      ensures Rounds(later, expired, now, active, called, Total(cfg, active))
    {
      hide Valid;
      hide Total;
      hide Among;
    }

    lemma RoundsParts(later: set<Query>, expired: set<Query>, now: int, a0: seq<Query>, c0: seq<Query>, t0: nat)
      requires Rounds(later, expired, now, a0, c0, t0)
      ensures Valid() && c0 <= called && Total(cfg, active) <= t0 && Among(active, later) == Among(a0, later)
      ensures forall q :: q in later ==> q in active && q.deadline > now
      ensures forall q :: q in active ==> q in expired || q in later
      ensures forall q :: q in active ==> q in submitted && active[0].deadline <= q.deadline
    {
      hide Total;
      hide Among;
      hide QueryOk;
      hide ValidConfig;
      hide NoDuplicates;
    }

    lemma RoundsFrom(later: set<Query>, expired: set<Query>, now: int, a0: seq<Query>, c0: seq<Query>, t0: nat)
      requires Valid() && c0 <= called && Total(cfg, active) <= t0 && Among(active, later) == Among(a0, later)
      requires forall q :: q in later ==> q in active && q.deadline > now
      requires forall q :: q in active ==> q in expired || q in later
      ensures Rounds(later, expired, now, a0, c0, t0)
    {
      hide Valid;
      hide Total;
      hide Among;
    }

    lemma SameServed(q: Query, p: Progress, n: nat, now: int)
      requires q in active && q.View() == p && q.sent == n
      ensures ServedOrSame(q in active, q in called, q.View(), q.sent, p, n, now)
    {
      hide Served;
    }

    lemma ServedAt(q: Query, p: Progress, n: nat, now: int)
      requires ServedOrSame(q in active, q in called, q.View(), q.sent, p, n, now) && q in active && q.deadline <= now
      ensures (q.View() == p && q.sent == n) || (n < q.sent && !GivenUp(p) && !NeverZero())
    {
      ServedBefore(q in active, q in called, q.View(), q.sent, p, n, now);
    }

    lemma ServedMore(alive: bool, done0: bool, done: bool, v: Progress, k: nat, p: Progress, n: nat, now: int)
      requires ServedOrSame(alive, done0, v, k, p, n, now) && (done0 ==> done)
      ensures ServedOrSame(alive, done, v, k, p, n, now)
    {
      hide GivenUp;
      hide NeverZero;
      hide TurnAwaits;
    }

    lemma ServedThen(q: Query, p1: Progress, n1: nat, p: Progress, n: nat, now: int)
      requires SentOnce(q in active, q in called, q.View(), q.sent, p1, n1, now)
      requires (p1 == p && n1 == n) || (n < n1 && !GivenUp(p) && !NeverZero())
      ensures ServedOrSame(q in active, q in called, q.View(), q.sent, p, n, now)
    {
      ServedNow(q in active, q in called, q.View(), q.sent, p1, n1, p, n, now);
    }

    lemma ServedDone(q: Query, p: Progress, n: nat, now: int)
      requires ServedOrSame(q in active, q in called, q.View(), q.sent, p, n, now) && p.deadline <= now
      requires q in active ==> q.deadline > now
      ensures Served(q in active, q in called, q.View(), q.sent, p, n, now)
    {
      hide Served;
    }

    /** The timeout does not vanish in 32 bits. */
    ghost predicate NeverZero() {
      forall t: nat :: t < cfg.ntries ==> cfg.timeout * Words.Pow(2, t) % 0x1_0000_0000 != 0
    }

    /** No server is left to ask. */
    ghost predicate GivenUp(p: Progress) {
      NoServer(cfg, p.servi, p.servskip) && (p.try + 1 >= cfg.ntries || NoServer(cfg, 0, p.servskip))
    }

    /** A query in the state v waits for the first server that was left in the state p. */
    ghost predicate TurnAwaits(v: Progress, p: Progress, now: int) {
      || (exists s: nat :: FirstServer(cfg, p.servi, p.servskip, s) && Awaits(v, p, s, s + 1, now))
      || (NoServer(cfg, p.servi, p.servskip) && p.try + 1 < cfg.ntries
            && exists s: nat :: FirstServer(cfg, 0, p.servskip, s) && Awaits(v, p.(try := p.try + 1), s, s + 1, now))
    }

    /** What has become of an expired query that was in the state p after n sends: it has been sent to the next server,
        and once only, unless its new deadline has come, too; or it is over, because no server was left or because it
        could not be sent. It is active or not, its callback has run or not, and it is in the state v after k sends. */
    ghost predicate Served(alive: bool, done: bool, v: Progress, k: nat, p: Progress, n: nat, now: int) {
      && (alive ==> n < k && (k == n + 1 ==> TurnAwaits(v, p, now)))
      && (!alive ==> done && (GivenUp(p) || n < k))
      && (GivenUp(p) ==> !alive && k == n)
      && (NeverZero() ==> k <= n + 1 && (alive ==> v.deadline > now))
    }

    ghost predicate ServedOrSame(alive: bool, done: bool, v: Progress, k: nat, p: Progress, n: nat, now: int) {
      (alive && v == p && k == n) || Served(alive, done, v, k, p, n, now)
    }

    /** What a send of an expired query does */
    ghost predicate SentOnce(alive: bool, done: bool, v: Progress, k: nat, p: Progress, n: nat, now: int) {
      && (alive ==> k == n + 1 && TurnAwaits(v, p, now) && (NeverZero() ==> v.deadline > now))
      && (!alive ==> done && k == (if GivenUp(p) then n else n + 1))
      && (GivenUp(p) ==> !alive)
    }

    lemma ServedNow(alive: bool, done: bool, v: Progress, k: nat, p1: Progress, n1: nat, p: Progress, n: nat, now: int)
      requires SentOnce(alive, done, v, k, p1, n1, now)
      requires (p1 == p && n1 == n) || (n < n1 && !GivenUp(p) && !NeverZero())
      ensures ServedOrSame(alive, done, v, k, p, n, now)
    {
      hide GivenUp;
      hide NeverZero;
      hide TurnAwaits;
    }

    lemma ServedBefore(alive: bool, done: bool, v: Progress, k: nat, p: Progress, n: nat, now: int)
      requires ServedOrSame(alive, done, v, k, p, n, now) && alive && v.deadline <= now
      ensures (v == p && k == n) || (n < k && !GivenUp(p) && !NeverZero())
    {
      hide GivenUp;
      hide NeverZero;
      hide TurnAwaits;
    }

    lemma SentTurns(q: Query, p: Progress, n: nat, now: int, active0: seq<Query>, called0: seq<Query>)
      requires ValidProgress(cfg, p) && q in active0
      requires q in active ==>
                 var c := Choose(cfg, p);
                 c.Ask? && q.View() == Sent(cfg, c.p, c.server, now) && called == called0 && q.sent == n + 1
      requires q !in active ==> active == Without(active0, q) && called == called0 + [q] && qstatus == -1
      requires if Choose(cfg, p).GiveUp? then q !in active && q.sent == n else q.sent == n + 1
      ensures SentOnce(q in active, q in called, q.View(), q.sent, p, n, now)
    {
      hide *;
      ServiLimit(p);
      ChooseMeans(cfg, p);
      FindMeans(cfg, p.servi, p.servskip);
      FindMeans(cfg, 0, p.servskip);
      GivenUpIs(p);
      var s, t := FindServ(cfg, p.servi, p.servskip), FindServ(cfg, 0, p.servskip);
      if q in active {
        if s < cfg.nserv {
          SentMeans(cfg, p.(servi := s + 1), s, now);
          TurnOne(q, p, p, s, now);
        } else if p.try + 1 < cfg.ntries && t < cfg.nserv {
          SentMeans(cfg, p.(servi := t + 1, try := p.try + 1), t, now);
          TurnTwo(q, p, t, now);
        }
        LaterNow(q.View(), p, now);
        ViewDeadline(q);
      }
      OnceFrom(q in active, q in called, q.View(), q.sent, p, n, now);
    }

    lemma ServiLimit(p: Progress)
      requires ValidProgress(cfg, p)
      ensures p.servi <= cfg.nserv && p.try < cfg.ntries
    {}

    lemma GivenUpIs(p: Progress)
      ensures GivenUp(p) <==>
              NoServer(cfg, p.servi, p.servskip) && (p.try + 1 >= cfg.ntries || NoServer(cfg, 0, p.servskip))
    {}

    lemma TurnOne(q: Query, p: Progress, p1: Progress, s: nat, now: int)
      requires p1 == p && FirstServer(cfg, p.servi, p.servskip, s)
      requires q.View() == Sent(cfg, p.(servi := s + 1), s, now) && s < cfg.nserv
      ensures TurnAwaits(q.View(), p, now)
    {
      SentMeans(cfg, p.(servi := s + 1), s, now);
      assert Awaits(q.View(), p, s, s + 1, now);
      hide Awaits;
      hide FirstServer;
    }

    lemma TurnTwo(q: Query, p: Progress, s: nat, now: int)
      requires NoServer(cfg, p.servi, p.servskip) && p.try + 1 < cfg.ntries && FirstServer(cfg, 0, p.servskip, s)
      requires q.View() == Sent(cfg, p.(servi := s + 1, try := p.try + 1), s, now) && s < cfg.nserv
      ensures TurnAwaits(q.View(), p, now)
    {
      SentMeans(cfg, p.(servi := s + 1, try := p.try + 1), s, now);
      assert Awaits(q.View(), p.(try := p.try + 1), s, s + 1, now);
      hide Awaits;
      hide FirstServer;
      hide NoServer;
    }

    lemma ViewDeadline(q: Query)
      ensures q.View().deadline == q.deadline
    {}

    lemma LaterNow(v: Progress, p: Progress, now: int)
      requires TurnAwaits(v, p, now) && p.try < cfg.ntries
      ensures NeverZero() ==> v.deadline > now
    {
      if NeverZero() {
        forall t: nat | t < cfg.ntries ensures cfg.timeout * Words.Pow(2, t) % 0x1_0000_0000 >= 1 {}
      }
      hide FirstServer;
      hide NoServer;
    }

    lemma OnceFrom(alive: bool, done: bool, v: Progress, k: nat, p: Progress, n: nat, now: int)
      requires alive ==> k == n + 1 && TurnAwaits(v, p, now) && (NeverZero() ==> v.deadline > now)
      requires !alive ==> done && k == if GivenUp(p) then n else n + 1
      requires GivenUp(p) ==> !alive
      ensures SentOnce(alive, done, v, k, p, n, now)
    {
      hide TurnAwaits;
      hide NeverZero;
      hide GivenUp;
    }

    /** One round of dns_timeouts, for a query whose deadline has come */
    method SendExpired(q: Query, now: int, ghost later: set<Query>)
      requires Valid() && now >= 0 && q in active && q !in later && forall p :: p in later ==> p in active
      modifies this`active, this`nactive, this`qstatus, this`called, q
      ensures Valid() && old(called) <= called && Total(cfg, active) < old(Total(cfg, active))
      ensures Among(active, later) == Among(old(active), later) && forall p :: p in later ==> p in active
      ensures SentOnce(q in active, q in called, q.View(), q.sent, old(q.View()), old(q.sent), now)
      ensures forall p :: p != q ==> (p in active <==> p in old(active))
    {
      hide SentOnce;
      hide Valid;
      hide QueryOk;
      hide Among;
      hide Rest;
      hide Without;
      hide Total;
      hide Choose;
      hide Sent;
      hide Pending;
      hide NoDuplicates;
      ValidPending(q);
      AmongRest(active, q, later);
      ghost var before, c0, p, n := active, called, q.View(), q.sent;
      ActiveDistinct();
      RestIn(before, q);
      PendingParts(q);
      Send(q, now);
      AmongRest(active, q, later);
      StillThere(before, active, q, later);
      SentTurns(q, p, n, now, before, c0);
    }

    lemma ActiveDistinct()
      requires Valid()
      ensures NoDuplicates(active)
    {}

    lemma RestIn(s: seq<Query>, q: Query)
      requires q in s
      ensures Rest(s, q) == Without(s, q)
    {}

    lemma StillThere(before: seq<Query>, after: seq<Query>, q: Query, later: set<Query>)
      requires q in before && NoDuplicates(before) && Rest(after, q) == Without(before, q)
      requires q !in later && forall p :: p in later ==> p in before
      ensures Rest(before, q) == Without(before, q) && forall p :: p in later ==> p in after
      ensures forall p :: p != q ==> (p in after <==> p in before)
    {
      WithoutMembers(before, q);
      hide NoDuplicates;
      RestMembers(after, q);
    }

    lemma RestMembers(s: seq<Query>, q: Query)
      ensures forall p :: p != q ==> (p in s <==> p in Rest(s, q))
    {
      if q in s {
        var a, b := Around(s, q);
        hide *;
        forall p | p != q ensures p in s <==> p in Rest(s, q) {
          assert p in s <==> p in a || p in b;
        }
      }
    }

    lemma ActiveSubmitted(q: Query)
      requires Valid() && q in active
      ensures q in submitted
    {}

    /** The search of dns_ioevent for the query with the number of a reply. */
    method FindById(id: nat) returns (q: Query?)
      ensures q == null <==> forall p :: p in active ==> p.id != id
      ensures q != null ==> q in active && q.id == id && forall i :: 0 <= i < Index(active, q) ==> active[i].id != id
    {
      var i := 0;
      while i < |active|
        invariant 0 <= i <= |active|
        invariant forall j :: 0 <= j < i ==> active[j].id != id
      {
        if active[i].id == id {
          assert Index(active, active[i]) <= i;
          return active[i];
        }
        i := i + 1;
      }
      return null;
    }

    lemma PendingParts(q: Query)
      requires Pending(q)
      ensures ValidConfig(cfg) && ValidProgress(cfg, q.View()) && q in active && q in submitted && ValidBut(q)
      ensures q.sent + Left(cfg, q.orig, q.View()) <= Bound(cfg) && Weight(cfg, q) > 0
    {}

    /** Only fields of q have changed. */
    twostate predicate OnlyTouched(q: Query)
      reads this, submitted, q
    {
      && unchanged(this`active, this`nactive, this`called, this`cancelled, this`submitted)
      && (forall p :: p in submitted && p != q ==> unchanged(p))
    }

    twostate lemma TouchedBut(q: Query)
      requires old(ValidBut(q)) && q in submitted && OnlyTouched(q) && q.sent <= Bound(cfg)
      ensures ValidBut(q)
    {
      WithoutMembers(active, q);
      ghost var rest := Without(active, q);
      assert forall p :: p in rest ==> p in active && p != q;
      assert forall p :: p in active ==> p in submitted;
      forall i | 0 <= i < |rest| ensures rest[i].deadline == old(rest[i].deadline) {
        assert rest[i] in submitted && rest[i] != q;
        assert unchanged(rest[i]);
      }
      forall p | p in active && p != q ensures QueryOk(cfg, p) { assert old(QueryOk(cfg, p)); }
    }

    twostate lemma TouchedTotal(q: Query)
      requires old(ValidBut(q)) && q in submitted && OnlyTouched(q)
      ensures Total(cfg, Without(active, q)) == old(Total(cfg, Without(active, q)))
    {
      WithoutMembers(active, q);
      ghost var rest := Without(active, q);
      forall i | 0 <= i < |rest| ensures unchanged(rest[i]) {
        assert rest[i] in active && rest[i] != q;
        assert rest[i] in submitted;
      }
      TotalSame(rest);
    }

    twostate lemma {:induction false} TotalSame(s: seq<Query>)
      requires forall i :: 0 <= i < |s| ==> unchanged(s[i])
      ensures Total(cfg, s) == old(Total(cfg, s))
    {
      if s != [] {
        TotalSame(s[..|s| - 1]);
        assert unchanged(s[|s| - 1]);
      }
    }

    twostate lemma TouchedPending(q: Query)
      requires old(Pending(q)) && q in submitted && OnlyTouched(q) && q.sent == old(q.sent)
      requires ValidProgress(cfg, q.View()) && Left(cfg, q.orig, q.View()) <= old(Left(cfg, q.orig, q.View()))
      ensures Pending(q)
    {
      TouchedBut(q);
      hide ValidBut;
    }

    /** The next name of the search, or the end of the query with this status. */
    method SearchOn(q: Query, nodata: bool, status: int, now: int)
      requires Pending(q) && now >= 0
      modifies this`nextid, this`active, this`nactive, this`qstatus, this`called, q
      ensures Valid() && q.sent <= old(q.sent) + 1
      ensures Searched(q, old(q.View()), nodata, status, old(active), old(called), old(nextid), now)
    {
      hide Left;
      hide Bound;
      hide Partition;
      hide Sorted;
      hide Without;
      hide NoDuplicates;
      hide Weight;
      hide Total;
      hide Choose;
      hide Sent;
      hide NextSearch;
      hide ValidProgress;
      hide ValidConfig;
      hide ValidBut;
      hide Pending;
      hide Valid;
      hide QueryOk;
      hide Fresh;
      PendingParts(q);
      LeftNextSearch(cfg, q.orig, q.View());
      var found := NextSrch(q);
      if found {
        if nodata {
          LeftMasks(cfg, q.orig, q.View(), 0);
          q.seenNodata := true;
        }
        TouchedPending(q);
        Send(q, now);
      } else {
        TouchedBut(q);
        EndQuery(q, status);
      }
    }

    /** What a verdict of OnReply means for the query and the list. */
    ghost predicate Obeyed(q: Query, v: Verdict, now: int, p0: Progress, active0: seq<Query>, called0: seq<Query>)
      requires q in active0
      requires v.SendNext? ==> v.p.servi <= cfg.nserv
      requires v.SendAgain? ==> v.p.servi <= cfg.nserv
      reads this, q
    {
      var gone := active == Without(active0, q) && called == called0 + [q];
      match v
      case Drop => q.View() == p0 && active == active0 && called == called0
      case Finish(status) => gone && qstatus == status
      case Wait(p) => q.View() == p && active == active0 && called == called0
      case SendNext(p) =>
        var c := Choose(cfg, p);
        if q in active
        then c.Ask? && c.p.servi <= cfg.nserv && q.View() == Sent(cfg, c.p, c.server, now) && called == called0
        else gone && qstatus == E_TEMPFAIL
      case SendAgain(p, server) =>
        if q in active then q.View() == Sent(cfg, p, server, now) && called == called0
        else gone && qstatus == E_TEMPFAIL
    }

    // ----- what a reply does, said without OnReply; p is the query before, active0 and called0 the lists before -----

    /** The callback has run with this status. */
    ghost predicate Over(q: Query, status: int, active0: seq<Query>, called0: seq<Query>)
      reads this
    {
      q in active0 && active == Without(active0, q) && called == called0 + [q] && qstatus == status
    }

    /** The query has been sent to this server and waits for it, too; the next server is looked for from a number on. */
    ghost predicate Waits(q: Query, p: Progress, server: nat, from: nat, now: int, called0: seq<Query>)
      reads this, q
    {
      q in active && called == called0 && Awaits(q.View(), p, server, from, now)
    }

    ghost predicate Awaits(v: Progress, p: Progress, server: nat, from: nat, now: int) {
      && server < cfg.nserv && v.servwait == p.servwait + {server}
      && Seconds(cfg, from, p.servskip, p.try, v.deadline - now)
      && v.try == p.try && v.servskip == p.servskip && v.servnEDNS0 == p.servnEDNS0 && v.dn == p.dn
      && v.nxtsrch == p.nxtsrch && v.asIsDone == p.asIsDone && v.seenNodata == p.seenNodata
    }

    /** The same, or sendto has failed ten times. */
    ghost predicate SentOrOver(q: Query, p: Progress, server: nat, from: nat, now: int, active0: seq<Query>,
                               called0: seq<Query>)
      reads this, q
    {
      if q in active then Waits(q, p, server, from, now, called0) else Over(q, -1, active0, called0)
    }

    /** The query goes on with the first suffix that fits, under a new number, and asks the first server; or it is over
        because none fits. */
    ghost predicate Named(q: Query, p: Progress, nodata: bool, status: int, active0: seq<Query>, called0: seq<Query>,
                          nextid0: nat, now: int)
      reads this, q
    {
      if NoneFitting(cfg, q.orig, p.asIsDone, p.nxtsrch) then Over(q, status, active0, called0)
      else
        exists i: nat :: FirstFitting(cfg, q.orig, p.asIsDone, p.nxtsrch, i)
          && SentOrOver(q, Progress(i + 1, p.asIsDone || Suffix(cfg, i) == [0], p.seenNodata || nodata, 0, 0, {}, {},
                                    {}, p.deadline, q.orig + Suffix(cfg, i)), 0, 1, now, active0, called0)
          && (q in active ==> q.id == nextid0 % 0x1_0000)
    }

    /** The query asks the first server that is left in this try, or in the next one; or it is over. */
    ghost predicate Turned(q: Query, p: Progress, active0: seq<Query>, called0: seq<Query>, now: int)
      reads this, q
    {
      || (exists s: nat :: FirstServer(cfg, p.servi, p.servskip, s)
            && SentOrOver(q, p, s, s + 1, now, active0, called0))
      || (NoServer(cfg, p.servi, p.servskip) && p.try + 1 < cfg.ntries
            && exists s: nat :: FirstServer(cfg, 0, p.servskip, s)
                 && SentOrOver(q, p.(try := p.try + 1), s, s + 1, now, active0, called0))
      || (NoServer(cfg, p.servi, p.servskip) && (p.try + 1 >= cfg.ntries || NoServer(cfg, 0, p.servskip))
            && Over(q, -1, active0, called0))
    }

    /** What the rcode of a reply does, after its server has been taken out of those that are awaited: 0 no error, 3 no
        such domain, 1 format error, 4 not implemented. */
    ghost predicate Coded(q: Query, p: Progress, active0: seq<Query>, called0: seq<Query>, nextid0: nat, r: Reply,
                          now: int)
      reads this, q
    {
      if r.rcode == 0 && !r.tc && r.numan > 0 then Over(q, r.answer, active0, called0)
      else if r.rcode == 0 && !r.tc then Named(q, p, true, -4, active0, called0, nextid0, now)
      else if r.rcode == 3 then
        Named(q, p, false, if p.seenNodata then -4 else -3, active0, called0, nextid0, now)
      else if r.rcode in {1, 4} && cfg.udpbuf > 512 && r.server !in p.servnEDNS0 then
        SentOrOver(q, p.(servnEDNS0 := p.servnEDNS0 + {r.server}), r.server, p.servi, now, active0, called0)
      else if p.servwait == {} then
        Turned(q, p.(servskip := p.servskip + {r.server}), active0, called0, now)
      else
        q.View() == p.(servskip := p.servskip + {r.server}) && active == active0 && called == called0
    }

    ghost predicate SameName(a: Name, b: Name) {
      |a| == |b| && forall i :: 0 <= i < |a| ==>
        a[i] == b[i] || (65 <= a[i] <= 90 && b[i] == a[i] + 32) || (65 <= b[i] <= 90 && a[i] == b[i] + 32)
    }

    /** A reply from a server that is awaited, with the question of the query, or a format error without a question. */
    ghost predicate Heard(q: Query, p: Progress, r: Reply)
      reads q
    {
      && r.server in p.servwait
      && if r.question.Some? then SameName(r.question.value.dn, p.dn) && r.question.value.typcls == q.typcls
         else r.rcode == 1
    }

    /** What a reply does: nothing, unless it is heard. */
    ghost predicate Treated(q: Query, p: Progress, active0: seq<Query>, called0: seq<Query>, nextid0: nat, r: Reply,
                            now: int)
      reads this, q
    {
      if Heard(q, p, r) then
        Coded(q, p.(servwait := p.servwait - {r.server}), active0, called0, nextid0, r, now)
      else q.View() == p && active == active0 && called == called0
    }

    lemma HeardIs(q: Query, p: Progress, r: Reply)
      ensures Heard(q, p, r) <==> Matches(q.orig, q.typcls, p, r)
    {
      if r.question.Some? {
        var a, b := r.question.value.dn, p.dn;
        forall i | 0 <= i < |a| == |b|
          ensures Lower(a[i]) == Lower(b[i]) <==>
                  a[i] == b[i] || (65 <= a[i] <= 90 && b[i] == a[i] + 32) || (65 <= b[i] <= 90 && a[i] == b[i] + 32)
        {}
        hide Lower;
      }
    }

    lemma BothParts(q: Query, p: Progress, active0: seq<Query>, called0: seq<Query>, nextid0: nat, r: Reply, now: int)
      requires q in active0 && ValidConfig(cfg) && ValidProgress(cfg, p) && r.server < cfg.nserv
      requires CodedBoth(q, p, active0, called0, nextid0, r, now)
      ensures Coded(q, p, active0, called0, nextid0, r, now)
      ensures (LeftRcode(cfg, q.orig, p, r); Obeyed(q, OnRcode(cfg, q.orig, p, r), now, p, active0, called0))
    {}

    lemma Dropped(q: Query, p: Progress, active0: seq<Query>, called0: seq<Query>, now: int)
      requires q in active0 && q.View() == p && active == active0 && called == called0
      ensures Obeyed(q, Drop, now, p, active0, called0)
    {}

    /** Only a reply that is dropped needs the state before. */
    lemma ObeyedSince(q: Query, v: Verdict, now: int, p1: Progress, p: Progress, active0: seq<Query>,
                      called0: seq<Query>)
      requires q in active0 && !v.Drop?
      requires v.SendNext? ==> v.p.servi <= cfg.nserv
      requires v.SendAgain? ==> v.p.servi <= cfg.nserv
      requires Obeyed(q, v, now, p1, active0, called0)
      ensures Obeyed(q, v, now, p, active0, called0)
    {
      hide Sent;
      hide Choose;
    }

    lemma NotHeard(q: Query, p: Progress, active0: seq<Query>, called0: seq<Query>, nextid0: nat, r: Reply, now: int)
      requires !Heard(q, p, r) && q.View() == p && active == active0 && called == called0
      ensures Treated(q, p, active0, called0, nextid0, r, now)
    {
      hide Heard;
      hide Coded;
    }

    lemma TreatedFrom(q: Query, p: Progress, active0: seq<Query>, called0: seq<Query>, nextid0: nat, r: Reply, now: int)
      requires Heard(q, p, r)
      requires Coded(q, p.(servwait := p.servwait - {r.server}), active0, called0, nextid0, r, now)
      ensures Treated(q, p, active0, called0, nextid0, r, now)
    {
      hide Heard;
      hide Coded;
    }

    lemma SentWaits(q: Query, p: Progress, s: nat, now: int, active0: seq<Query>, called0: seq<Query>)
      requires p.servi <= cfg.nserv && s < cfg.nserv
      requires q in active ==> q.View() == Sent(cfg, p, s, now) && called == called0
      requires q !in active ==> Over(q, -1, active0, called0)
      ensures SentOrOver(q, p, s, p.servi, now, active0, called0)
    {
      SentMeans(cfg, p, s, now);
      hide Sent;
      hide Seconds;
      hide NoServer;
      hide FirstServer;
    }

    /** The server that Choose takes is the first one left. */
    lemma ChosenTurns(q: Query, p: Progress, now: int, active0: seq<Query>, called0: seq<Query>)
      requires p.servi <= cfg.nserv
      requires q in active ==>
                 var c := Choose(cfg, p);
                 c.Ask? && c.p.servi <= cfg.nserv && q.View() == Sent(cfg, c.p, c.server, now) && called == called0
      requires q !in active ==> Over(q, -1, active0, called0)
      ensures Turned(q, p, active0, called0, now)
    {
      hide *;
      ChooseMeans(cfg, p);
      FindMeans(cfg, p.servi, p.servskip);
      FindMeans(cfg, 0, p.servskip);
      var s, t := FindServ(cfg, p.servi, p.servskip), FindServ(cfg, 0, p.servskip);
      if s < cfg.nserv {
        SentWaits(q, p.(servi := s + 1), s, now, active0, called0);
        TurnsNow(q, p, s, active0, called0, now);
      } else if p.try + 1 < cfg.ntries && t < cfg.nserv {
        SentWaits(q, p.(servi := t + 1, try := p.try + 1), t, now, active0, called0);
        TurnsNext(q, p, t, active0, called0, now);
      } else {
        TurnsOut(q, p, active0, called0, now);
      }
    }

    lemma TurnsNow(q: Query, p: Progress, s: nat, active0: seq<Query>, called0: seq<Query>, now: int)
      requires FirstServer(cfg, p.servi, p.servskip, s)
      requires SentOrOver(q, p.(servi := s + 1), s, s + 1, now, active0, called0)
      ensures Turned(q, p, active0, called0, now)
    {
      WaitsFrom(q, p, p.(servi := s + 1), s, s + 1, now, active0, called0);
      hide SentOrOver;
      hide FirstServer;
    }

    lemma TurnsNext(q: Query, p: Progress, s: nat, active0: seq<Query>, called0: seq<Query>, now: int)
      requires NoServer(cfg, p.servi, p.servskip) && p.try + 1 < cfg.ntries && FirstServer(cfg, 0, p.servskip, s)
      requires SentOrOver(q, p.(servi := s + 1, try := p.try + 1), s, s + 1, now, active0, called0)
      ensures Turned(q, p, active0, called0, now)
    {
      WaitsFrom(q, p.(try := p.try + 1), p.(servi := s + 1, try := p.try + 1), s, s + 1, now, active0, called0);
      hide SentOrOver;
      hide FirstServer;
      hide NoServer;
    }

    lemma TurnsOut(q: Query, p: Progress, active0: seq<Query>, called0: seq<Query>, now: int)
      requires NoServer(cfg, p.servi, p.servskip) && (p.try + 1 >= cfg.ntries || NoServer(cfg, 0, p.servskip))
      requires Over(q, -1, active0, called0)
      ensures Turned(q, p, active0, called0, now)
    {
      hide NoServer;
      hide Over;
    }

    lemma WaitsFrom(q: Query, p: Progress, p1: Progress, s: nat, from: nat, now: int, active0: seq<Query>,
                    called0: seq<Query>)
      requires p1 == p.(servi := p1.servi) && SentOrOver(q, p1, s, from, now, active0, called0)
      ensures SentOrOver(q, p, s, from, now, active0, called0)
    {
      hide Seconds;
      hide Over;
    }

    /** What SearchOn does */
    ghost predicate Searched(q: Query, p: Progress, nodata: bool, status: int, active0: seq<Query>, called0: seq<Query>,
                             nextid0: nat, now: int)
      reads this, q
    {
      var next := NextSearch(cfg, q.orig, p);
      if next.None? then Over(q, status, active0, called0)
      else
        var n := if nodata then next.value.(seenNodata := true) else next.value;
        n.servi <= cfg.nserv
        && if q in active
           then
             var c := Choose(cfg, n);
             c.Ask? && c.p.servi <= cfg.nserv && q.View() == Sent(cfg, c.p, c.server, now)
             && called == called0 && q.id == nextid0 % 0x1_0000
           else Over(q, -1, active0, called0)
    }

    /** What OnCode promises, both ways of saying it */
    ghost predicate CodedBoth(q: Query, p: Progress, active0: seq<Query>, called0: seq<Query>, nextid0: nat, r: Reply,
                              now: int)
      requires q in active0 && ValidConfig(cfg) && ValidProgress(cfg, p) && r.server < cfg.nserv
      reads this, q
    {
      && Coded(q, p, active0, called0, nextid0, r, now)
      && (LeftRcode(cfg, q.orig, p, r); Obeyed(q, OnRcode(cfg, q.orig, p, r), now, p, active0, called0))
    }

    lemma CodedSearch(q: Query, p: Progress, nodata: bool, status: int, active0: seq<Query>, called0: seq<Query>,
                      nextid0: nat, r: Reply, now: int)
      requires q in active0 && ValidConfig(cfg) && ValidProgress(cfg, p) && r.server < cfg.nserv
      requires Searched(q, p, nodata, status, active0, called0, nextid0, now)
      requires if nodata then r.rcode == 0 && !r.tc && r.numan == 0 && status == -4
               else r.rcode == 3 && status == if p.seenNodata then -4 else -3
      ensures CodedBoth(q, p, active0, called0, nextid0, r, now)
    {
      SearchNames(q, p, nodata, status, active0, called0, nextid0, now);
      LeftRcode(cfg, q.orig, p, r);
      hide Named;
      hide Without;
      hide NextSearch;
      hide Choose;
      hide Sent;
      hide SentOrOver;
      hide Turned;
      hide ValidProgress;
      hide Left;
    }

    lemma CodedAnswer(q: Query, p: Progress, active0: seq<Query>, called0: seq<Query>, nextid0: nat, r: Reply, now: int)
      requires q in active0 && ValidConfig(cfg) && ValidProgress(cfg, p) && r.server < cfg.nserv
      requires r.rcode == 0 && !r.tc && r.numan > 0 && Over(q, r.answer, active0, called0)
      ensures CodedBoth(q, p, active0, called0, nextid0, r, now)
    {
      LeftRcode(cfg, q.orig, p, r);
      hide Without;
      hide NextSearch;
      hide ValidProgress;
      hide Left;
    }

    lemma CodedAgain(q: Query, p: Progress, active0: seq<Query>, called0: seq<Query>, nextid0: nat, r: Reply, now: int)
      requires q in active0 && ValidConfig(cfg) && ValidProgress(cfg, p) && r.server < cfg.nserv
      requires r.rcode in {1, 4} && cfg.udpbuf > 512 && r.server !in p.servnEDNS0
      requires var p1 := p.(servnEDNS0 := p.servnEDNS0 + {r.server});
               p1.servi <= cfg.nserv
               && (q in active ==> q.View() == Sent(cfg, p1, r.server, now) && called == called0)
      requires q !in active ==> Over(q, -1, active0, called0)
      ensures CodedBoth(q, p, active0, called0, nextid0, r, now)
    {
      SentWaits(q, p.(servnEDNS0 := p.servnEDNS0 + {r.server}), r.server, now, active0, called0);
      LeftRcode(cfg, q.orig, p, r);
      hide Without;
      hide NextSearch;
      hide Sent;
      hide SentOrOver;
      hide ValidProgress;
      hide Left;
    }

    lemma CodedSkip(q: Query, p: Progress, active0: seq<Query>, called0: seq<Query>, nextid0: nat, r: Reply, now: int)
      requires q in active0 && ValidConfig(cfg) && ValidProgress(cfg, p) && r.server < cfg.nserv
      requires !(r.rcode == 0 && !r.tc) && r.rcode != 3
      requires !(r.rcode in {1, 4} && cfg.udpbuf > 512 && r.server !in p.servnEDNS0)
      requires Skipped(q, p.(servskip := p.servskip + {r.server}), p, active0, called0, now)
      ensures CodedBoth(q, p, active0, called0, nextid0, r, now)
    {
      LeftRcode(cfg, q.orig, p, r);
      hide Without;
      hide NextSearch;
      hide Sent;
      hide Choose;
      hide SentOrOver;
      hide Turned;
      hide ValidProgress;
      hide Left;
    }

    /** What SkipServer does */
    ghost predicate Skipped(q: Query, p: Progress, p0: Progress, active0: seq<Query>, called0: seq<Query>, now: int)
      reads this, q
    {
      && q in active0 && p.servi <= cfg.nserv
      && Obeyed(q, if p.servwait == {} then SendNext(p) else Wait(p), now, p0, active0, called0)
      && (p.servwait == {} ==> Turned(q, p, active0, called0, now))
      && (p.servwait != {} ==> q.View() == p && active == active0 && called == called0)
    }

    lemma SearchNames(q: Query, p: Progress, nodata: bool, status: int, active0: seq<Query>, called0: seq<Query>,
                      nextid0: nat, now: int)
      requires 0 < cfg.nserv && Searched(q, p, nodata, status, active0, called0, nextid0, now)
      ensures Named(q, p, nodata, status, active0, called0, nextid0, now)
    {
      NextMeans(cfg, q.orig, p);
      var next := NextSearch(cfg, q.orig, p);
      hide NextSearch;
      hide FirstFitting;
      hide NoneFitting;
      hide Choose;
      hide Sent;
      hide Over;
      hide SentOrOver;
      if next.Some? {
        var i: nat :| FirstFitting(cfg, q.orig, p.asIsDone, p.nxtsrch, i);
        var n := if nodata then next.value.(seenNodata := true) else next.value;
        ChooseMeans(cfg, n);
        assert FirstServer(cfg, 0, {}, 0);
        SentWaits(q, n.(servi := 1), 0, now, active0, called0);
        WaitsFrom(q, n, n.(servi := 1), 0, 1, now, active0, called0);
      }
    }

    lemma MatchesServer(q: Query, r: Reply)
      requires ValidProgress(cfg, q.View()) && Matches(q.orig, q.typcls, q.View(), r)
      ensures r.server < cfg.nserv
    {}

    twostate lemma TouchedValid(q: Query)
      requires old(Valid()) && q in active && OnlyTouched(q) && q.deadline == old(q.deadline) && Pending(q)
      ensures Valid()
    {
      forall i | 0 <= i < |active| ensures active[i].deadline == old(active[i].deadline) {
        assert active[i] in submitted;
        assert active[i] != q ==> unchanged(active[i]);
      }
    }

    lemma MaySendAgain(q: Query, before: nat)
      requires Pending(q) && q.sent + before <= Bound(cfg) && Left(cfg, q.orig, q.View()) < before
      ensures MaySend(q)
    {}

    /** The treatment of the rcode, for a reply from a server that was asked. */
    method OnCode(q: Query, r: Reply, now: int)
      requires Valid() && q in active && now >= 0 && r.server < cfg.nserv
      modifies this`nextid, this`active, this`nactive, this`qstatus, this`called, q
      ensures Valid() && q.sent <= old(q.sent) + 1
      ensures ValidConfig(cfg) && old(ValidProgress(cfg, q.View()))
      ensures CodedBoth(q, old(q.View()), old(active), old(called), old(nextid), r, now)
    {
      hide CodedBoth;
      hide Searched;
      hide Skipped;
      hide OnRcode;
      ghost var p, a0, c0, id0 := q.View(), active, called, nextid;
      hide Left;
      hide Bound;
      hide Partition;
      hide Sorted;
      hide Without;
      hide NoDuplicates;
      hide Weight;
      hide Total;
      hide Choose;
      hide Sent;
      hide NextSearch;
      hide ValidProgress;
      hide ValidConfig;
      hide ValidBut;
      hide Pending;
      hide MaySend;
      hide Valid;
      hide QueryOk;
      hide Fresh;
      ValidPending(q);
      PendingParts(q);
      LeftRcode(cfg, q.orig, q.View(), r);
      if r.rcode == NOERROR && !r.tc {
        if r.numan == 0 {
          SearchOn(q, true, E_NODATA, now);
          CodedSearch(q, p, true, -4, a0, c0, id0, r, now);
        } else {
          EndQuery(q, r.answer);
          CodedAnswer(q, p, a0, c0, id0, r, now);
        }
      } else if r.rcode == NXDOMAIN {
        SearchOn(q, false, if q.seenNodata then E_NODATA else E_NXDOMAIN, now);
        CodedSearch(q, p, false, if p.seenNodata then -4 else -3, a0, c0, id0, r, now);
      } else if (r.rcode == FORMERR || r.rcode == NOTIMPL) && cfg.udpbuf > MAXPACKET && r.server !in q.servnEDNS0 {
        q.servnEDNS0 := q.servnEDNS0 + {r.server};
        TouchedPending(q);
        MaySendAgain(q, old(Left(cfg, q.orig, q.View())));
        ServiBound(q);
        var ok, k, answers := SendThis(q, r.server, now);
        CodedAgain(q, p, a0, c0, id0, r, now);
      } else {
        SkipServer(q, r.server, now);
        CodedSkip(q, p, a0, c0, id0, r, now);
      }
    }

    /** The server is not asked again; the next one is, unless others may still reply. */
    method SkipServer(q: Query, server: nat, now: int)
      requires Valid() && q in active && now >= 0 && server < cfg.nserv
      modifies this`active, this`nactive, this`qstatus, this`called, q
      ensures Valid() && q.sent <= old(q.sent) + 1
      ensures ValidConfig(cfg) && old(ValidProgress(cfg, q.View()))
      ensures Skipped(q, old(q.View()).(servskip := old(q.servskip) + {server}), old(q.View()), old(active),
                      old(called), now)
    {
      hide Turned;
      ghost var a0, c0 := active, called;
      hide Left;
      hide Bound;
      hide Partition;
      hide Sorted;
      hide Without;
      hide NoDuplicates;
      hide Weight;
      hide Total;
      hide Choose;
      hide Sent;
      hide NextSearch;
      hide ValidProgress;
      hide ValidConfig;
      hide ValidBut;
      hide Pending;
      hide MaySend;
      hide Valid;
      hide QueryOk;
      hide Fresh;
      ValidPending(q);
      PendingParts(q);
      ServiBound(q);
      LeftMasks(cfg, q.orig, q.View(), server);
      q.servskip := q.servskip + {server};
      TouchedPending(q);
      if q.servwait == {} {
        PendingParts(q);
        LeftChoose(cfg, q.orig, q.View());
        ChosenServi(q.View());
        ghost var p := q.View();
        Send(q, now);
        ChosenTurns(q, p, now, a0, c0);
      } else {
        TouchedValid(q);
      }
    }

    lemma ChosenServi(p: Progress)
      requires p.servi <= cfg.nserv
      ensures Choose(cfg, p).Ask? ==> Choose(cfg, p).p.servi <= cfg.nserv
    {}

    lemma NotDropped(orig: Name, p: Progress, r: Reply)
      ensures !OnRcode(cfg, orig, p, r).Drop?
    {
      hide NextSearch;
    }

    /** The part of dns_ioevent after the query has been found. */
    method Process(q: Query, r: Reply, now: int)
      requires Valid() && q in active && now >= 0
      modifies this`nextid, this`active, this`nactive, this`qstatus, this`called, q
      ensures Valid() && q.sent <= old(q.sent) + 1
      ensures ValidConfig(cfg) && old(ValidProgress(cfg, q.View()))
      ensures (LeftReply(cfg, q.orig, q.typcls, old(q.View()), r);
               Obeyed(q, OnReply(cfg, q.orig, q.typcls, old(q.View()), r), now, old(q.View()), old(active),
                      old(called)))
      ensures Treated(q, old(q.View()), old(active), old(called), old(nextid), r, now)
    {
      hide Coded;
      hide Heard;
      hide Treated;
      hide Obeyed;
      hide CodedBoth;
      HeardIs(q, q.View(), r);
      ghost var p, a0, c0, id0 := q.View(), active, called, nextid;
      hide Left;
      hide Bound;
      hide Partition;
      hide Sorted;
      hide Without;
      hide NoDuplicates;
      hide Weight;
      hide Total;
      hide Choose;
      hide Sent;
      hide NextSearch;
      hide ValidProgress;
      hide ValidConfig;
      hide ValidBut;
      hide Pending;
      hide MaySend;
      hide Valid;
      hide QueryOk;
      hide Fresh;
      hide Matches;
      hide OnRcode;
      hide LeftAllows;
      ValidPending(q);
      PendingParts(q);
      LeftReply(cfg, q.orig, q.typcls, q.View(), r);
      if !Matches(q.orig, q.typcls, q.View(), r) {
        NotHeard(q, p, a0, c0, id0, r, now);
        Dropped(q, p, a0, c0, now);
        return;
      }
      MatchesServer(q, r);
      LeftMasks(cfg, q.orig, q.View(), r.server);
      q.servwait := q.servwait - {r.server};
      TouchedPending(q);
      TouchedValid(q);
      NotDropped(q.orig, q.View(), r);
      ghost var p1 := p.(servwait := p.servwait - {r.server});
      assert q.View() == p1 && active == a0 && called == c0 && nextid == id0;
      LeftRcode(cfg, q.orig, p1, r);
      OnCode(q, r, now);
      BothParts(q, p1, a0, c0, id0, r, now);
      HeardIs(q, p, r);
      TreatedFrom(q, p, a0, c0, id0, r, now);
      ObeyedSince(q, OnRcode(cfg, q.orig, p1, r), now, p1, p, a0, c0);
    }

    /** dns_ioevent for one packet with a sound header. */
    method Receive(r: Reply, now: int) returns (ghost hit: Query?)
      requires Valid() && now >= 0
      modifies this`nextid, this`active, this`nactive, this`qstatus, this`called, submitted
      ensures Valid()
      ensures hit == null <==> forall p :: p in old(active) ==> old(p.id) != r.id
      ensures hit == null ==> active == old(active) && called == old(called) && forall p :: p in submitted ==>
                unchanged(p)
      ensures hit != null ==>
                && hit in old(active) && old(hit.id) == r.id
                && (forall i :: 0 <= i < Index(old(active), hit) ==> old(active[i].id) != r.id)
                && ValidConfig(cfg) && old(ValidProgress(cfg, hit.View()))
                && (LeftReply(cfg, hit.orig, hit.typcls, old(hit.View()), r);
                    Obeyed(hit, OnReply(cfg, hit.orig, hit.typcls, old(hit.View()), r), now, old(hit.View()),
                           old(active), old(called)))
                && Treated(hit, old(hit.View()), old(active), old(called), old(nextid), r, now)
                && forall p :: p in submitted && p != hit ==> unchanged(p)
    {
      var q := FindById(r.id);
      hit := q;
      if q != null {
        ActiveSubmitted(q);
        Process(q, r, now);
      }
    }

    /** Once nothing is active, every query that was not cancelled has had its callback run exactly once, after
        at most (S + 1) * nserv * (ntries + 1) sends. */
    lemma ExactlyOnce(q: Query)
      requires Valid() && active == [] && q in submitted && q !in cancelled
      ensures multiset(called)[q] == 1 && q.sent <= Bound(cfg)
    {
      OnceInSequence(called, q);
    }

    /** With a silent network, going from deadline to deadline ends every query. */
    method RunDown()
      requires Valid()
      modifies this`active, this`nactive, this`qstatus, this`called, submitted
      ensures Valid() && active == [] && old(called) <= called
      ensures forall q :: q in submitted && q !in cancelled ==> multiset(called)[q] == 1 && q.sent <= Bound(cfg)
    {
      while active != []
        invariant Valid() && old(called) <= called
        decreases Total(cfg, active)
      {
        DeadlinesPositive();
        var wait := Timeouts(-1, active[0].deadline);
      }
      forall q | q in submitted && q !in cancelled ensures multiset(called)[q] == 1 && q.sent <= Bound(cfg) {
        ExactlyOnce(q);
      }
    }

    /** dns_cancel: out of the list, and no callback. */
    method Cancel(q: Query)
      requires Valid() && q in active
      modifies this`active, this`nactive, this`cancelled
      ensures Valid() && active == Without(old(active), q) && cancelled == old(cancelled) + {q}
    {
      PartitionCancel(active, called, cancelled, submitted, q);
      WithoutSorted(active, q);
      active := Without(active, q);
      nactive := nactive - 1;
      cancelled := cancelled + {q};
    }
  }
}
