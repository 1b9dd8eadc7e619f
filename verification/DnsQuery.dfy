/** One query of the stub resolver of deps/udns-0.0.9/udns_resolver.c: what it still may do, and how its
    fields change. Bit masks over servers are sets of server numbers. */
module DnsQueries {
  import opened Bytes
  import opened Options
  import Words

  /** A domain name in wire form, up to and with its final zero byte. */
  type Name = seq<Byte>

  const ROOT: Name := [0]

  const MAXDN := 255
  const MAXPACKET := 512
  const MAXSERV := 6

  const E_TEMPFAIL := -1
  const E_NXDOMAIN := -3
  const E_NODATA := -4

  /** The settings of a context; they cannot change while it has active queries. */
  datatype Config = Config(nserv: nat, ntries: nat, timeout: nat, ndots: nat, udpbuf: nat, search: seq<Name>)

  predicate ValidConfig(cfg: Config) {
    && 1 <= cfg.nserv <= MAXSERV && 1 <= cfg.ntries && 1 <= cfg.timeout && MAXPACKET <= cfg.udpbuf
    && forall i :: 0 <= i < |cfg.search| ==> cfg.search[i] != []
  }

  /** The fields of a query that change during its life. */
  datatype Progress = Progress(
    nxtsrch: nat, asIsDone: bool, seenNodata: bool,
    try: nat, servi: nat, servwait: set<nat>, servskip: set<nat>, servnEDNS0: set<nat>,
    deadline: int, dn: Name)

  // ----- the search list -----

  /** An element of the search list; the list ends with the root. */
  function Element(cfg: Config, i: nat): Name { if i < |cfg.search| then cfg.search[i] else ROOT }

  /** The element can follow a name of this length, and is not the root again. */
  predicate Usable(cfg: Config, i: nat, origdnl0: nat, asIsDone: bool) {
    |Element(cfg, i)| + origdnl0 <= MAXDN && !(Element(cfg, i) == ROOT && asIsDone)
  }

  /** The first usable element at or after i. */
  function NextUsable(cfg: Config, i: nat, origdnl0: nat, asIsDone: bool): (r: Option<nat>)
    ensures r.Some? ==> i <= r.value <= |cfg.search| && Usable(cfg, r.value, origdnl0, asIsDone)
    ensures forall k :: i <= k <= |cfg.search| && (r.Some? ==> k < r.value) ==> !Usable(cfg, k, origdnl0, asIsDone)
    decreases |cfg.search| + 1 - i
  {
    if i > |cfg.search| then None
    else if Usable(cfg, i, origdnl0, asIsDone) then Some(i)
    else NextUsable(cfg, i + 1, origdnl0, asIsDone)
  }

  /** dns_newid, all but the number itself */
  function Fresh(p: Progress): Progress { p.(try := 0, servi := 0, servwait := {}, servskip := {}, servnEDNS0 := {}) }

  /** dns_next_srch */
  function NextSearch(cfg: Config, orig: Name, p: Progress): Option<Progress> {
    var i := NextUsable(cfg, p.nxtsrch, |orig|, p.asIsDone);
    if i.None? then None
    else Some(Fresh(p.(dn := orig + Element(cfg, i.value), asIsDone := p.asIsDone || Element(cfg, i.value) == ROOT,
                       nxtsrch := i.value + 1)))
  }

  // ----- servers and tries -----

  /** dns_find_serv: the first server at or after servi that is not to be skipped, or nserv. */
  function FindServ(cfg: Config, servi: nat, skip: set<nat>): (r: nat)
    requires servi <= cfg.nserv
    ensures servi <= r <= cfg.nserv && (r < cfg.nserv ==> r !in skip)
    ensures forall k :: servi <= k < r ==> k in skip
    decreases cfg.nserv - servi
  {
    if servi == cfg.nserv || servi !in skip then servi else FindServ(cfg, servi + 1, skip)
  }

  datatype Choice = Ask(server: nat, p: Progress) | GiveUp

  /** dns_send up to its call of dns_send_this: the server to ask, if the query may still ask one. */
  function Choose(cfg: Config, p: Progress): (c: Choice)
    requires p.servi <= cfg.nserv
    ensures c.Ask? ==> c.server < cfg.nserv && c.server !in p.servskip && c.p.servi == c.server + 1
  {
    var s := FindServ(cfg, p.servi, p.servskip);
    if s < cfg.nserv then Ask(s, p.(servi := s + 1))
    else
      var again := FindServ(cfg, 0, p.servskip);
      if p.try + 1 >= cfg.ntries || again == cfg.nserv then GiveUp
      else Ask(again, p.(servi := again + 1, try := p.try + 1))
  }

  /** timeout << try, in 32 bits. C leaves the shift open from the 33rd try on, where this is 0 seconds. */
  function Backoff(cfg: Config, try: nat): nat { cfg.timeout * Words.Pow(2, try) % 0x1_0000_0000 }

  /** The fields after a successful sendto to this server. */
  function Sent(cfg: Config, p: Progress, server: nat, now: int): Progress
    requires p.servi <= cfg.nserv
  {
    var s := FindServ(cfg, p.servi, p.servskip);
    p.(servwait := p.servwait + {server}, servi := s,
       deadline := now + (if s < cfg.nserv then 1 else Backoff(cfg, p.try)))
  }

  // ----- how often a query can still be sent -----

  /** The elements of the search list that next_srch can still use. */
  function Elements(cfg: Config, i: nat, origdnl0: nat, asIsDone: bool): nat
    decreases |cfg.search| + 1 - i
  {
    if i > |cfg.search| then 0
    else if Usable(cfg, i, origdnl0, asIsDone)
    then 1 + Elements(cfg, i + 1, origdnl0, asIsDone || Element(cfg, i) == ROOT)
    else Elements(cfg, i + 1, origdnl0, asIsDone)
  }

  function Times(a: nat, b: nat): (c: nat) { a * b }

  /** The sends that one name allows: every server once a try, and once more without EDNS0. */
  function PerName(cfg: Config): nat { Times(cfg.nserv, cfg.ntries + 1) }

  predicate OnlyServers(cfg: Config, mask: set<nat>) { forall s :: s in mask ==> s < cfg.nserv }

  ghost predicate ValidProgress(cfg: Config, p: Progress) {
    && p.try < cfg.ntries && p.servi <= cfg.nserv && p.deadline >= 0
    && OnlyServers(cfg, p.servwait) && OnlyServers(cfg, p.servskip) && OnlyServers(cfg, p.servnEDNS0)
  }

  function Servers(n: nat): (s: set<nat>)
    ensures |s| == n && forall i: nat :: i in s <==> i < n
  {
    if n == 0 then {} else Servers(n - 1) + {n - 1}
  }

  lemma {:induction false} EDNS0Count(cfg: Config, s: set<nat>)
    requires OnlyServers(cfg, s)
    ensures |s| <= cfg.nserv
  {
    SubsetSize(s, Servers(cfg.nserv));
  }

  lemma {:induction false} SubsetSize(a: set<nat>, b: set<nat>)
    requires a <= b
    ensures |a| <= |b|
    decreases b
  {
    if a != {} {
      var x :| x in a;
      SubsetSize(a - {x}, b - {x});
    }
  }

  /** The sends left: for the names left, the tries left, the servers left in this try, and the servers
      that have not yet refused EDNS0. */
  ghost function Left(cfg: Config, orig: Name, p: Progress): (n: nat)
    requires ValidProgress(cfg, p)
  {
    EDNS0Count(cfg, p.servnEDNS0);
    Times(Elements(cfg, p.nxtsrch, |orig|, p.asIsDone), PerName(cfg))
    + Times(cfg.ntries - 1 - p.try, cfg.nserv) + (cfg.nserv - p.servi) + (cfg.nserv - |p.servnEDNS0|)
  }

  lemma {:induction false} ElementsNext(cfg: Config, i: nat, origdnl0: nat, asIsDone: bool)
    ensures var r := NextUsable(cfg, i, origdnl0, asIsDone);
            Elements(cfg, i, origdnl0, asIsDone) ==
            if r.None? then 0
            else 1 + Elements(cfg, r.value + 1, origdnl0, asIsDone || Element(cfg, r.value) == ROOT)
    decreases |cfg.search| + 1 - i
  {
    if i <= |cfg.search| && !Usable(cfg, i, origdnl0, asIsDone) {
      ElementsNext(cfg, i + 1, origdnl0, asIsDone);
    }
  }

  lemma {:induction false} ElementsBound(cfg: Config, i: nat, origdnl0: nat, asIsDone: bool)
    requires i <= |cfg.search| + 1
    ensures Elements(cfg, i, origdnl0, asIsDone) <= |cfg.search| + 1 - i
    ensures asIsDone && i <= |cfg.search| ==> Elements(cfg, i, origdnl0, asIsDone) <= |cfg.search| - i
    decreases |cfg.search| + 1 - i
  {
    if i <= |cfg.search| {
      ElementsBound(cfg, i + 1, origdnl0, asIsDone);
      ElementsBound(cfg, i + 1, origdnl0, asIsDone || Element(cfg, i) == ROOT);
    }
  }

  /** A new name costs one element and allows the sends of one name. */
  lemma {:induction false} LeftNextSearch(cfg: Config, orig: Name, p: Progress)
    requires ValidConfig(cfg) && ValidProgress(cfg, p)
    ensures var q := NextSearch(cfg, orig, p);
            q.Some? ==> ValidProgress(cfg, q.value) && Left(cfg, orig, q.value) <= Left(cfg, orig, p)
                        && q.value.try == 0 && q.value.servi == 0 && q.value.servskip == {}
  {
    ElementsNext(cfg, p.nxtsrch, |orig|, p.asIsDone);
    var e := Elements(cfg, p.nxtsrch, |orig|, p.asIsDone);
    var q := NextSearch(cfg, orig, p);
    EDNS0Count(cfg, p.servnEDNS0);
    hide Times;
    hide Elements;
    if q.Some? {
      NewName(e, cfg.nserv, cfg.ntries);
    }
  }

  lemma {:induction false} NewName(e: nat, nserv: nat, ntries: nat)
    requires e >= 1 && ntries >= 1
    ensures Times(e - 1, Times(nserv, ntries + 1)) + Times(ntries - 1, nserv) + nserv + nserv
            == Times(e, Times(nserv, ntries + 1))
  {
    var n := nserv * (ntries + 1);
    assert n == (ntries - 1) * nserv + nserv + nserv;
    assert e * n == (e - 1) * n + n;
  }

  lemma {:induction false} OneTry(a: nat, b: nat)
    requires a >= 1
    ensures Times(a, b) == Times(a - 1, b) + b
  {}

  /** Asking one more server uses up at least one send. */
  lemma {:induction false} LeftChoose(cfg: Config, orig: Name, p: Progress)
    requires ValidConfig(cfg) && ValidProgress(cfg, p)
    ensures var c := Choose(cfg, p);
            c.Ask? ==> c.server < cfg.nserv && c.server !in p.servskip
                       && ValidProgress(cfg, c.p) && Left(cfg, orig, c.p) < Left(cfg, orig, p)
  {
    var c := Choose(cfg, p);
    if c.Ask? && c.p.try == p.try + 1 {
      OneTry(cfg.ntries - 1 - p.try, cfg.nserv);
    }
    hide Times;
  }

  /** Asking a server again without EDNS0 uses up one send. */
  lemma {:induction false} LeftEDNS0(cfg: Config, orig: Name, p: Progress, server: nat)
    requires ValidConfig(cfg) && ValidProgress(cfg, p) && server < cfg.nserv && server !in p.servnEDNS0
    ensures var q := p.(servnEDNS0 := p.servnEDNS0 + {server});
            ValidProgress(cfg, q) && Left(cfg, orig, q) < Left(cfg, orig, p)
  {
    var q := p.(servnEDNS0 := p.servnEDNS0 + {server});
    assert |q.servnEDNS0| == |p.servnEDNS0| + 1;
  }

  /** What sendto changes uses up nothing. */
  lemma {:induction false} LeftSent(cfg: Config, orig: Name, p: Progress, server: nat, now: int)
    requires ValidConfig(cfg) && ValidProgress(cfg, p) && server < cfg.nserv && now >= 0
    ensures var q := Sent(cfg, p, server, now);
            && ValidProgress(cfg, q) && Left(cfg, orig, q) <= Left(cfg, orig, p)
            && q.servwait != {} && q.deadline >= now
  {}

  /** (S + 1) * nserv * (ntries + 1) */
  function Bound(cfg: Config): nat { Times(|cfg.search| + 1, PerName(cfg)) }

  // ----- submission -----

  predicate SearchFirst(cfg: Config, nosrch: bool, labels: nat) { !nosrch && labels <= cfg.ndots }

  /** The fields that dns_submit_dn sets. */
  function Submitted(cfg: Config, orig: Name, nosrch: bool, labels: nat): Progress {
    var empty := Progress(0, false, false, 0, 0, {}, {}, {}, 0, orig + ROOT);
    if SearchFirst(cfg, nosrch, labels) then
      var q := NextSearch(cfg, orig, empty);
      if q.Some? then q.value else empty
    else empty.(nxtsrch := if nosrch then |cfg.search| else 0, asIsDone := true)
  }

  /** A submitted query can be sent at most Bound(cfg) times. The search always finds a first name, since the
      root is an element. */
  lemma {:induction false} LeftSubmitted(cfg: Config, orig: Name, nosrch: bool, labels: nat)
    requires ValidConfig(cfg) && |orig| < MAXDN
    ensures var p := Submitted(cfg, orig, nosrch, labels);
            ValidProgress(cfg, p) && Left(cfg, orig, p) <= Bound(cfg)
    ensures SearchFirst(cfg, nosrch, labels) ==>
              NextSearch(cfg, orig, Progress(0, false, false, 0, 0, {}, {}, {}, 0, orig + ROOT)).Some?
  {
    var S := |cfg.search|;
    var p := Submitted(cfg, orig, nosrch, labels);
    if SearchFirst(cfg, nosrch, labels) {
      var i := NextUsable(cfg, 0, |orig|, false);
      assert Usable(cfg, S, |orig|, false);
      ElementsNext(cfg, 0, |orig|, false);
      ElementsBound(cfg, 0, |orig|, false);
    } else {
      ElementsBound(cfg, p.nxtsrch, |orig|, true);
    }
    var e := Elements(cfg, p.nxtsrch, |orig|, p.asIsDone) + 1;
    assert e <= S + 1;
    hide Times;
    NewName(e, cfg.nserv, cfg.ntries);
    TimesMono(e, S + 1, PerName(cfg));
  }

  lemma {:induction false} TimesMono(a: nat, b: nat, c: nat)
    requires a <= b
    ensures Times(a, c) <= Times(b, c)
  {}

  // ----- replies -----

  datatype Question = Question(dn: Name, typcls: seq<nat>)

  /** A packet with a sound header: its question if it repeats one, the number of the server it came from
      (nserv for a stranger), and the status of its answer if it has one. */
  datatype Reply = Reply(id: nat, question: Option<Question>, server: nat, rcode: nat, tc: bool, numan: nat,
                         answer: int)

  const NOERROR := 0
  const FORMERR := 1
  const NXDOMAIN := 3
  const NOTIMPL := 4

  /** What a reply to this query leads to. */
  datatype Verdict =
    | Drop
    | Finish(status: int)
    | SendNext(p: Progress)
    | SendAgain(p: Progress, server: nat)
    | Wait(p: Progress)

  /** The packet answers this query: the same name and type, or no question and a FORMERR; and the server was asked. */
  predicate Matches(orig: Name, typcls: seq<nat>, p: Progress, r: Reply) {
    (if r.question.Some? then EqualNames(r.question.value.dn, p.dn) && r.question.value.typcls == typcls
     else r.rcode == FORMERR)
    && r.server in p.servwait
  }

  /** dns_dnequal */
  predicate EqualNames(a: Name, b: Name) { |a| == |b| && forall i :: 0 <= i < |a| ==> Lower(a[i]) == Lower(b[i]) }

  /** The part of dns_ioevent after the query has been found. */
  function OnReply(cfg: Config, orig: Name, typcls: seq<nat>, p: Progress, r: Reply): Verdict {
    if !Matches(orig, typcls, p, r) then Drop
    else OnRcode(cfg, orig, p.(servwait := p.servwait - {r.server}), r)
  }

  /** The rest, when the reply is for this query and from a server that was asked. */
  function OnRcode(cfg: Config, orig: Name, q: Progress, r: Reply): Verdict {
    var skip := q.(servskip := q.servskip + {r.server});
    var failed := if skip.servwait == {} then SendNext(skip) else Wait(skip);
    if r.rcode == NOERROR then
      if r.tc then failed
      else if r.numan == 0 then
        var next := NextSearch(cfg, orig, q);
        if next.Some? then SendNext(next.value.(seenNodata := true)) else Finish(E_NODATA)
      else Finish(r.answer)
    else if r.rcode == NXDOMAIN then
      var next := NextSearch(cfg, orig, q);
      if next.Some? then SendNext(next.value) else Finish(if q.seenNodata then E_NODATA else E_NXDOMAIN)
    else if (r.rcode == FORMERR || r.rcode == NOTIMPL) && cfg.udpbuf > MAXPACKET && r.server !in q.servnEDNS0 then
      SendAgain(q.(servnEDNS0 := q.servnEDNS0 + {r.server}), r.server)
    else failed
  }

  lemma {:induction false} LeftMasks(cfg: Config, orig: Name, p: Progress, server: nat)
    requires ValidConfig(cfg) && ValidProgress(cfg, p) && server < cfg.nserv
    ensures var q := p.(servwait := p.servwait - {server});
            ValidProgress(cfg, q) && Left(cfg, orig, q) == Left(cfg, orig, p)
    ensures var q := p.(servskip := p.servskip + {server});
            ValidProgress(cfg, q) && Left(cfg, orig, q) == Left(cfg, orig, p)
    ensures var q := p.(seenNodata := true);
            ValidProgress(cfg, q) && Left(cfg, orig, q) == Left(cfg, orig, p)
  {}

  ghost predicate LeftAllows(cfg: Config, orig: Name, left: nat, v: Verdict) {
    match v
    case SendNext(q) => ValidProgress(cfg, q) && Left(cfg, orig, q) <= left
    case SendAgain(q, s) => ValidProgress(cfg, q) && s < cfg.nserv && Left(cfg, orig, q) < left
    case Wait(q) => ValidProgress(cfg, q) && Left(cfg, orig, q) <= left && q.servwait != {}
    case _ => true
  }

  lemma {:induction false} LeftRcode(cfg: Config, orig: Name, q: Progress, r: Reply)
    requires ValidConfig(cfg) && ValidProgress(cfg, q) && r.server < cfg.nserv
    ensures LeftAllows(cfg, orig, Left(cfg, orig, q), OnRcode(cfg, orig, q, r))
  {
    hide Times;
    hide Elements;
    hide NextSearch;
    LeftNextSearch(cfg, orig, q);
    var skip := q.(servskip := q.servskip + {r.server});
    assert ValidProgress(cfg, skip) && Left(cfg, orig, skip) == Left(cfg, orig, q);
    var next := NextSearch(cfg, orig, q);
    if next.Some? {
      var seen := next.value.(seenNodata := true);
      assert ValidProgress(cfg, seen) && Left(cfg, orig, seen) == Left(cfg, orig, next.value);
    }
    if r.server !in q.servnEDNS0 {
      LeftEDNS0(cfg, orig, q, r.server);
    }
  }

  /** No reply gives a query more sends, and asking the same server again has been paid for. */
  lemma {:induction false} LeftReply(cfg: Config, orig: Name, typcls: seq<nat>, p: Progress, r: Reply)
    requires ValidConfig(cfg) && ValidProgress(cfg, p)
    ensures LeftAllows(cfg, orig, Left(cfg, orig, p), OnReply(cfg, orig, typcls, p, r))
  {
    hide OnRcode;
    hide Left;
    if Matches(orig, typcls, p, r) {
      LeftMasks(cfg, orig, p, r.server);
      LeftRcode(cfg, orig, p.(servwait := p.servwait - {r.server}), r);
    }
  }
}
