/** The rules of the resolver for one query, said without the functions that compute them. */
module DnsRules {
  import opened Bytes
  import opened Options
  import Words
  import opened DnsQueries

  // ----- servers -----

  /** The first server from a number on that is not to be skipped */
  ghost predicate FirstServer(cfg: Config, from: nat, skip: set<nat>, s: nat) {
    from <= s < cfg.nserv && s !in skip && forall k :: from <= k < s ==> k in skip
  }

  ghost predicate NoServer(cfg: Config, from: nat, skip: set<nat>) { forall k :: from <= k < cfg.nserv ==> k in skip }

  /** The seconds that a query waits: one while there is another server to ask in this try, else the timeout, which
      doubles with every try */
  ghost predicate Seconds(cfg: Config, from: nat, skip: set<nat>, try: nat, n: int) {
    n == if NoServer(cfg, from, skip) then cfg.timeout * Words.Pow(2, try) % 0x1_0000_0000 else 1
  }

  lemma FindMeans(cfg: Config, from: nat, skip: set<nat>)
    requires from <= cfg.nserv
    ensures var s := FindServ(cfg, from, skip);
            if s < cfg.nserv then FirstServer(cfg, from, skip, s) && !NoServer(cfg, from, skip)
            else NoServer(cfg, from, skip)
    ensures forall s: nat :: FirstServer(cfg, from, skip, s) ==> s == FindServ(cfg, from, skip)
  {}

  /** Servers are asked in turn; after the last one the next try begins with the first. */
  lemma ChooseMeans(cfg: Config, p: Progress)
    requires p.servi <= cfg.nserv
    ensures forall s: nat :: FirstServer(cfg, p.servi, p.servskip, s) ==> Choose(cfg, p) == Ask(s, p.(servi := s + 1))
    ensures NoServer(cfg, p.servi, p.servskip) && p.try + 1 < cfg.ntries ==>
              forall s: nat :: FirstServer(cfg, 0, p.servskip, s) ==>
                Choose(cfg, p) == Ask(s, p.(servi := s + 1, try := p.try + 1))
    ensures NoServer(cfg, p.servi, p.servskip) && (p.try + 1 >= cfg.ntries || NoServer(cfg, 0, p.servskip)) ==>
              Choose(cfg, p) == GiveUp
  {
    FindMeans(cfg, p.servi, p.servskip);
    FindMeans(cfg, 0, p.servskip);
    hide FindServ;
    hide FirstServer;
    hide NoServer;
  }

  /** Sending notes the server and the deadline, and nothing else but where to look for the next server. */
  lemma SentMeans(cfg: Config, p: Progress, server: nat, now: int)
    requires p.servi <= cfg.nserv
    ensures var q := Sent(cfg, p, server, now);
            && q == p.(servwait := p.servwait + {server}, servi := q.servi, deadline := q.deadline)
            && Seconds(cfg, p.servi, p.servskip, p.try, q.deadline - now)
            && (if NoServer(cfg, p.servi, p.servskip) then q.servi == cfg.nserv
                else FirstServer(cfg, p.servi, p.servskip, q.servi))
  {
    FindMeans(cfg, p.servi, p.servskip);
    hide FindServ;
    hide FirstServer;
    hide NoServer;
  }

  // ----- names -----

  /** The suffix with this number: one of the search list, or the root behind it */
  function Suffix(cfg: Config, i: nat): Name { if i < |cfg.search| then cfg.search[i] else [0] }

  /** The suffix makes a name of at most 255 bytes, and is not the root a second time. */
  ghost predicate Fitting(cfg: Config, orig: Name, rootDone: bool, i: nat) {
    i <= |cfg.search| && |orig| + |Suffix(cfg, i)| <= 255 && (rootDone ==> Suffix(cfg, i) != [0])
  }

  ghost predicate FirstFitting(cfg: Config, orig: Name, rootDone: bool, from: nat, i: nat) {
    from <= i && Fitting(cfg, orig, rootDone, i) && forall k :: from <= k < i ==> !Fitting(cfg, orig, rootDone, k)
  }

  ghost predicate NoneFitting(cfg: Config, orig: Name, rootDone: bool, from: nat) {
    forall k :: from <= k <= |cfg.search| ==> !Fitting(cfg, orig, rootDone, k)
  }

  /** The search goes on with the first suffix that fits, as a query that nobody has been asked yet. */
  lemma NextMeans(cfg: Config, orig: Name, p: Progress)
    ensures NoneFitting(cfg, orig, p.asIsDone, p.nxtsrch) <==> NextSearch(cfg, orig, p) == None
    ensures forall i: nat :: FirstFitting(cfg, orig, p.asIsDone, p.nxtsrch, i) ==>
              NextSearch(cfg, orig, p)
              == Some(Progress(i + 1, p.asIsDone || Suffix(cfg, i) == [0], p.seenNodata, 0, 0, {}, {}, {}, p.deadline,
                               orig + Suffix(cfg, i)))
    ensures NextSearch(cfg, orig, p).Some? ==>
              exists i: nat :: FirstFitting(cfg, orig, p.asIsDone, p.nxtsrch, i)
  {
    forall k: nat
      ensures Fitting(cfg, orig, p.asIsDone, k) <==> k <= |cfg.search| && Usable(cfg, k, |orig|, p.asIsDone)
    {}
    hide Fitting;
    hide Usable;
    var r := NextUsable(cfg, p.nxtsrch, |orig|, p.asIsDone);
    if r.Some? { assert FirstFitting(cfg, orig, p.asIsDone, p.nxtsrch, r.value); }
  }

  /** A query begins with the name as it is if no search is wanted or the name has more labels than ndots, and with the
      first suffix otherwise. The whole search list comes after the name as it is, without the root. */
  lemma SubmittedMeans(cfg: Config, orig: Name, nosrch: bool, labels: nat)
    requires |orig| < 255
    ensures var q := Submitted(cfg, orig, nosrch, labels);
            && !q.seenNodata && q.try == 0 && q.servi == 0 && q.servwait == {} && q.servskip == {} && q.servnEDNS0 == {}
            && q.deadline == 0
            && (nosrch ==> q.dn == orig + [0] && q.asIsDone && q.nxtsrch == |cfg.search|)
            && (!nosrch && labels > cfg.ndots ==> q.dn == orig + [0] && q.asIsDone && q.nxtsrch == 0)
            && (!nosrch && labels <= cfg.ndots ==>
                  exists i: nat :: FirstFitting(cfg, orig, false, 0, i) && q.dn == orig + Suffix(cfg, i)
                              && q.asIsDone == (Suffix(cfg, i) == [0]) && q.nxtsrch == i + 1)
  {
    var empty := Progress(0, false, false, 0, 0, {}, {}, {}, 0, orig + ROOT);
    NextMeans(cfg, orig, empty);
    assert Fitting(cfg, orig, false, |cfg.search|);
    hide FirstFitting;
    hide NextSearch;
  }

  // ----- a query that nobody answers -----

  /** The state after so many sends without a reply, if the query may be sent so often */
  ghost function Repeated(cfg: Config, p: Progress, k: nat): Option<Progress>
    requires p.servi <= cfg.nserv
    ensures Repeated(cfg, p, k).Some? ==> Repeated(cfg, p, k).value.servi <= cfg.nserv
  {
    if k == 0 then Some(p)
    else match Repeated(cfg, p, k - 1)
         case None => None
         case Some(q) =>
           match Choose(cfg, q)
           case GiveUp => None
           case Ask(s, q1) => Some(Sent(cfg, q1, s, 0))
  }

  /** One send of a query without servers to skip */
  lemma {:induction false} OneSend(cfg: Config, q: Progress)
    requires q.servi <= cfg.nserv && q.servskip == {} && 0 < cfg.nserv
    ensures match Choose(cfg, q)
            case GiveUp => q.servi == cfg.nserv && q.try + 1 >= cfg.ntries
            case Ask(s, q1) =>
              var r := Sent(cfg, q1, s, 0);
              && (if q.servi < cfg.nserv then s == q.servi && r.try == q.try
                  else q.try + 1 < cfg.ntries && s == 0 && r.try == q.try + 1)
              && r.servi == s + 1 && r.servskip == {} && r.servwait == q.servwait + {s}
              && r.deadline == if s + 1 < cfg.nserv then 1 else cfg.timeout * Words.Pow(2, r.try) % 0x1_0000_0000
  {
    ChooseMeans(cfg, q);
    hide Choose;
    hide Sent;
    if q.servi < cfg.nserv {
      assert FirstServer(cfg, q.servi, {}, q.servi);
      NextTurn(cfg, q.(servi := q.servi + 1), q.servi);
    } else {
      assert FirstServer(cfg, 0, {}, 0) && NoServer(cfg, q.servi, {});
      NextTurn(cfg, q.(servi := 1, try := q.try + 1), 0);
    }
  }

  lemma {:induction false} NextTurn(cfg: Config, p: Progress, s: nat)
    requires p.servi == s + 1 <= cfg.nserv && p.servskip == {}
    ensures var r := Sent(cfg, p, s, 0);
            && r == p.(servwait := p.servwait + {s}, deadline := r.deadline)
            && r.deadline == if s + 1 < cfg.nserv then 1 else cfg.timeout * Words.Pow(2, p.try) % 0x1_0000_0000
  {
    SentMeans(cfg, p, s, 0);
    if s + 1 < cfg.nserv { assert FirstServer(cfg, s + 1, {}, s + 1); }
    hide Sent;
  }

  /** Where a query that nobody answers is after k sends: try t, and s servers of it asked */
  ghost predicate At(cfg: Config, q: Progress, k: nat, t: nat, s: nat) {
    && k == t * cfg.nserv + s && s <= cfg.nserv && q.try == t && q.servi == s && q.servskip == {}
    && (forall i: nat :: i in q.servwait <==> i < if t == 0 then s else cfg.nserv)
    && (s > 0 ==>
          q.deadline == if s < cfg.nserv then 1 else cfg.timeout * Words.Pow(2, t) % 0x1_0000_0000)
  }

  lemma {:induction false} NextProduct(t: nat, n: nat)
    ensures (t + 1) * n == t * n + n
  {}

  lemma {:induction false} AtNext(cfg: Config, q: Progress, k: nat, t: nat, s: nat)
    requires At(cfg, q, k, t, s) && 0 < cfg.nserv && q.servi <= cfg.nserv
    ensures match Choose(cfg, q)
            case GiveUp => s == cfg.nserv && t + 1 >= cfg.ntries
            case Ask(a, q1) =>
              var r := Sent(cfg, q1, a, 0);
              if s < cfg.nserv then At(cfg, r, k + 1, t, s + 1) else t + 1 < cfg.ntries && At(cfg, r, k + 1, t + 1, 1)
  {
    OneSend(cfg, q);
    NextProduct(t, cfg.nserv);
    hide Choose;
    hide Sent;
  }

  /** The try and the server of a send, when nserv servers are asked in turn */
  function Tries(k: nat, nserv: nat): nat
    requires 0 < nserv
  {
    k / nserv
  }

  function Turn(k: nat, nserv: nat): nat
    requires 0 < nserv
  {
    k % nserv
  }

  /** A query that nobody answers is sent to every server in turn, ntries times, and then given up: the send with number
      k (from 0 on) goes to server k % nserv in try k / nserv. */
  lemma {:induction false} SilentQuery(cfg: Config, p: Progress, k: nat)
    requires p.try == 0 && p.servi == 0 && p.servwait == {} && p.servskip == {} && 0 < cfg.nserv && 0 < cfg.ntries
    ensures Repeated(cfg, p, k).Some? <==> k <= cfg.ntries * cfg.nserv
    ensures k > 0 && Repeated(cfg, p, k).Some? ==>
              At(cfg, Repeated(cfg, p, k).value, k, Tries(k - 1, cfg.nserv), Turn(k - 1, cfg.nserv) + 1)
  {
    hide At;
    hide Choose;
    hide Sent;
    var n, r := cfg.nserv, Repeated(cfg, p, if k == 0 then 0 else k - 1);
    Words.MulMono(1, cfg.ntries, n);
    if k == 1 {
      AtStart(cfg, p);
      AtNext(cfg, p, 0, 0, 0);
      FirstTurn(n);
    } else if k > 1 {
      SilentQuery(cfg, p, k - 1);
      if r.Some? {
        Turns(k, n, cfg.ntries);
        var t, s := Tries(k - 2, n), Turn(k - 2, n) + 1;
        AtParts(cfg, r.value, k - 1, t, s);
        AtNext(cfg, r.value, k - 1, t, s);
      }
    }
  }

  lemma {:induction false} AtStart(cfg: Config, p: Progress)
    requires p.try == 0 && p.servi == 0 && p.servwait == {} && p.servskip == {}
    ensures At(cfg, p, 0, 0, 0)
  {
    assert 0 * cfg.nserv == 0;
  }

  lemma {:induction false} AtParts(cfg: Config, q: Progress, k: nat, t: nat, s: nat)
    requires At(cfg, q, k, t, s)
    ensures q.servi == s <= cfg.nserv
  {}

  lemma FirstTurn(n: nat)
    requires 0 < n
    ensures 0 / n == 0 && 0 % n == 0
  {}

  lemma DivMod(x: nat, n: nat)
    requires 0 < n
    ensures x == x / n * n + x % n && x % n < n && x / n >= 0
  {}

  lemma Commute(a: nat, b: nat)
    ensures a * b == b * a
  {}

  /** The turns of servers, in numbers */
  lemma {:induction false} Turns(k: nat, n: nat, tries: nat)
    requires 1 < k && 0 < n && 0 < tries
    ensures var t, s := (k - 2) / n, (k - 2) % n + 1;
            && k - 1 == t * n + s
            && (if s < n then (k - 1) / n == t && (k - 1) % n == s else (k - 1) / n == t + 1 && (k - 1) % n == 0)
            && (k - 1 <= tries * n ==> (k <= tries * n <==> s < n || t + 1 < tries))
  {
    hide *;
    var t, s := (k - 2) / n, (k - 2) % n + 1;
    var m, m1, m2, all := t * n, (t + 1) * n, (t + 2) * n, tries * n;
    DivMod(k - 2, n);
    NextProduct(t, n);
    NextProduct(t + 1, n);
    if s < n {
      Commute(t, n);
      Words.Division(k - 1, n, t, s);
    } else {
      Commute(t + 1, n);
      Words.Division(k - 1, n, t + 1, 0);
    }
    if t < tries { Words.MulMono(t + 1, tries, n); } else { Words.MulMono(tries, t, n); }
    if t + 1 < tries { Words.MulMono(t + 2, tries, n); } else { Words.MulMono(tries, t + 1, n); }
    TurnsEnd(k, n, tries, t, s, m, m1, m2, all);
  }

  lemma TurnsEnd(k: nat, n: nat, tries: nat, t: nat, s: nat, m: nat, m1: nat, m2: nat, all: nat)
    requires 1 <= s <= n && k - 1 == m + s && m1 == m + n && m2 == m1 + n
    requires if t < tries then m1 <= all else all <= m
    requires if t + 1 < tries then m2 <= all else all <= m1
    ensures k - 1 <= all ==> (k <= all <==> s < n || t + 1 < tries)
  {}
}
