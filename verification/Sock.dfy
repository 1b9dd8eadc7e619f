/** The output queue of a socket in src/sock.c: what is written at once, what is queued, and when the socket is
    shut down. */
module Socks {
  import opened Bytes

  /** What write may do with a buffer that is not empty. */
  datatype Outcome = Wrote(n: nat) | WouldBlock | Failure

  /** Room for so many bytes, rounded up to a multiple of 2048 */
  function RoundUp(n: nat): (r: nat)
    ensures n <= r < n + 2048 && r % 2048 == 0
  {
    (n + 0x07ff) / 0x800 * 0x800
  }

  /** How many bytes the calls of write have taken in all. */
  function Taken(a: seq<Outcome>): (n: nat)
  {
    if a == [] then 0 else Taken(a[..|a| - 1]) + (if a[|a| - 1].Wrote? then a[|a| - 1].n else 0)
  }

  /** The answers of write to a sender of so many bytes that goes on until all are taken or a call takes none. */
  ghost predicate Answers(a: seq<Outcome>, size: nat) {
    && (forall i | 0 <= i < |a| - 1 :: a[i].Wrote?)
    && (forall i | 0 <= i < |a| && a[i].Wrote? :: a[i].n > 0)
    && (if a != [] && !a[|a| - 1].Wrote? then Taken(a) < size else Taken(a) == size)
  }

  ghost predicate Blocked(a: seq<Outcome>) {
    a != [] && a[|a| - 1].WouldBlock?
  }

  ghost predicate Failed(a: seq<Outcome>) {
    a != [] && a[|a| - 1].Failure?
  }

  /** The answers so far of a sender that goes on. */
  ghost predicate Going(a: seq<Outcome>, taken: nat) {
    && (forall i | 0 <= i < |a| :: a[i].Wrote? && a[i].n > 0)
    && Taken(a) == taken
  }

  /** What had gone out before, and then the first t of these bytes. */
  ghost predicate Upto(now: seq<Byte>, sent0: seq<Byte>, all: seq<Byte>, t: nat) {
    t <= |all| && now == sent0 + all[..t]
  }

  lemma NoneOut(sent0: seq<Byte>, all: seq<Byte>)
    ensures Upto(sent0, sent0, all, 0) && all[0..] == all
  {}

  lemma MoreOut(now: seq<Byte>, next: seq<Byte>, sent0: seq<Byte>, all: seq<Byte>, t: nat, k: nat)
    requires Upto(now, sent0, all, t) && t + k <= |all| && next == now + all[t..][..k]
    ensures Upto(next, sent0, all, t + k)
  {
    assert all[..t + k] == all[..t] + all[t..][..k];
  }

  /** The bytes that went out and those that wait are all bytes. */
  lemma Gathered(now: seq<Byte>, sent0: seq<Byte>, queue0: seq<Byte>, all: seq<Byte>, t: nat)
    requires Upto(now, sent0, all, t) && (t > 0 ==> queue0 == [])
    ensures now + (queue0 + all[t..]) == sent0 + queue0 + all
    ensures t == |all| ==> now == sent0 + all && now + queue0 == sent0 + queue0 + all && all[t..] == []
  {
    if t == 0 {
      assert all[t..] == all && all[..t] == [];
    } else {
      assert all[..t] + all[t..] == all;
    }
  }

  lemma NotAsked()
    ensures Taken([]) == 0 && Going([], 0) && Answers([], 0) && !Blocked([]) && !Failed([])
  {}

  lemma Asked(a: seq<Outcome>, taken: nat, r: Outcome, size: nat)
    requires Going(a, taken) && taken < size && (r.Wrote? ==> 0 < r.n <= size - taken)
    ensures Taken(a + [r]) == taken + (if r.Wrote? then r.n else 0)
    ensures r.Wrote? ==> Going(a + [r], taken + r.n)
    ensures !r.Wrote? ==> Answers(a + [r], size)
    ensures Blocked(a + [r]) == r.WouldBlock? && Failed(a + [r]) == r.Failure?
  {
    var b := a + [r];
    assert b[..|b| - 1] == a && b[|b| - 1] == r;
  }

  lemma AllAnswered(a: seq<Outcome>, size: nat)
    requires Going(a, size)
    ensures Taken(a) == size && Answers(a, size) && !Blocked(a) && !Failed(a)
  {}

  /** What may happen to a socket after its last message: it can be written, or something more is sent. */
  datatype Later = CanWrite | Send(bin: seq<Byte>)

  class BufOut {
    const sock: nat
    var buf: array?<Byte>
    var buflen: nat
    var allocsize: nat
    var burnAfterWriting: nat

    /** What has gone out on the wire, and all that was ever given to sendbin */
    ghost var sent: seq<Byte>
    ghost var given: seq<Byte>
    /** A write has failed for another reason than that it would block. */
    ghost var failed: bool
    /** shutdown has been called, and it has been called with bytes in the queue. */
    ghost var shut: bool
    ghost var cutOff: bool

    constructor (sock: nat)
      ensures Valid() && Closing() && this.sock == sock && Queue() == [] && sent == given == []
      ensures burnAfterWriting == 0 && !failed && !shut && !cutOff
    {
      this.sock := sock;
      buf, buflen, allocsize, burnAfterWriting := null, 0, 0, 0;
      sent, given, failed, shut, cutOff := [], [], false, false, false;
    }

    ghost function Queue(): seq<Byte>
      requires buf != null ==> buflen <= buf.Length
      reads this`buf, this`buflen, buf
    {
      if buf == null then [] else buf[..buflen]
    }

    /** No byte is lost, repeated or moved as long as no write fails. */
    ghost predicate Valid()
      reads this, buf
    {
      && (buf == null ==> buflen == 0)
      && (buf != null ==> buf.Length == allocsize && 0 < buflen <= allocsize)
      && (!failed ==> sent + Queue() == given)
    }

    lemma Opened()
      requires Valid()
      ensures (buf == null ==> buflen == 0) && (buf != null ==> buf.Length == allocsize && 0 < buflen <= allocsize)
      ensures (buf == null <==> Queue() == []) && (!failed ==> sent + Queue() == given)
    {}

    lemma Closed(sent0: seq<Byte>, queue0: seq<Byte>, given0: seq<Byte>, bin: seq<Byte>)
      requires (buf == null ==> buflen == 0) && (buf != null ==> buf.Length == allocsize && 0 < buflen <= allocsize)
      requires !failed ==> sent0 + queue0 == given0
      requires !failed ==> sent + Queue() == sent0 + queue0 + bin && given == given0 + bin
      ensures Valid()
    {}

    /** A socket that is to be closed after writing has something to write, or has been shut down. */
    ghost predicate Closing()
      reads this
    {
      burnAfterWriting != 0 ==> buf != null || shut
    }

    /** The room for the queue is the smallest multiple of 2048 that it needed when it was last too small. */
    ghost predicate Roomy(buf0: array?<Byte>, allocsize0: nat)
      reads this
    {
      buf != null ==>
        if buf0 != null && buflen <= allocsize0 then
          buf == buf0 && allocsize == allocsize0
        else
          allocsize % 2048 == 0 && allocsize - 2048 < buflen <= allocsize
    }

    /** write */
    method Write(data: seq<Byte>) returns (r: Outcome)
      requires data != []
      modifies this`sent, this`failed
      ensures r.Wrote? ==> 0 < r.n <= |data| && sent == old(sent) + data[..r.n] && failed == old(failed)
      ensures !r.Wrote? ==> sent == old(sent) && failed == (old(failed) || r.Failure?)
    {
      var n: int := *;
      if 0 < n <= |data| {
        sent := sent + data[..n];
        return Wrote(n);
      }
      var blocking: bool := *;
      failed := failed || !blocking;
      return if blocking then WouldBlock else Failure;
    }

    /** shutdown */
    method Shutdown()
      requires buf != null ==> buflen <= buf.Length
      modifies this`shut, this`cutOff
      ensures shut && cutOff == (old(cutOff) || Queue() != [])
    {
      shut := true;
      cutOff := cutOff || Queue() != [];
    }

    /** The queueing in sendbin */
    method Enqueue(bin: seq<Byte>, burn: bool)
      requires bin != []
      requires buf == null ==> buflen == 0
      requires buf != null ==> buf.Length == allocsize && 0 < buflen <= allocsize
      modifies this`buf, this`buflen, this`allocsize, this`burnAfterWriting, buf
      ensures buf != null && buf.Length == allocsize && 0 < buflen <= allocsize
      ensures Queue() == old(Queue()) + bin && unchanged(this`sent, this`given, this`failed, this`shut, this`cutOff)
      ensures burnAfterWriting == (if burn then 1 else old(burnAfterWriting)) && Roomy(old(buf), old(allocsize))
      ensures buf == old(buf) || fresh(buf)
    {
      var was := buflen;
      if buf == null {
        allocsize := RoundUp(|bin|);
        buf := new Byte[allocsize];
        buflen := |bin|;
      } else {
        buflen := buflen + |bin|;
        if buflen > allocsize {
          allocsize := RoundUp(buflen);
          Realloc(was, allocsize);
        }
      }
      forall i | 0 <= i < |bin| {
        buf[was + i] := bin[i];
      }
      assert Queue() == old(Queue()) + bin;
      hide Queue;
      if burn {
        burnAfterWriting := 1;
      }
    }

    /** xrealloc: the first bytes stay. */
    method Realloc(n: nat, size: nat)
      requires buf != null && n <= buf.Length && n <= size
      modifies this`buf
      ensures buf != null && fresh(buf) && buf.Length == size && buf[..n] == old(buf[..n])
    {
      var b := new Byte[size];
      forall i | 0 <= i < n {
        b[i] := buf[i];
      }
      buf := b;
    }

    /** sendbin: the bytes go out, or wait behind those that wait already; the buffer is written while the kernel
        takes bytes and nothing waits. A call that puts bytes in the queue and asks for it marks the socket to be
        shut down when the queue is empty; one with nothing left to send shuts it down at once. */
    method SendBin(bin: seq<Byte>, burn: bool) returns (finish: int, ghost a: seq<Outcome>)
      requires Valid()
      modifies this, buf
      ensures Valid() && (old(Closing()) ==> Closing()) && given == old(given) + (if sock == 0 then [] else bin)
      ensures Roomy(old(buf), old(allocsize)) && (buf == old(buf) || fresh(buf))
      ensures SendsBin(old(sent), old(Queue()), old(burnAfterWriting), if sock == 0 then [] else bin, burn, a,
                finish)
      ensures failed == (old(failed) || Failed(a))
      ensures shut == (old(shut) || (finish == 1 && burn))
      ensures cutOff == (old(cutOff) || (old(buf) != null && burn && (bin == [] || sock == 0)))
    {
      hide Answers, Going, Taken, Blocked, Failed, SendsBin, Queue, Valid, Upto;
      NotAsked();
      Opened();
      a := [];
      if sock != 0 {
        ghost var queued := Queue();
        given := given + bin;
        NoneOut(sent, bin);
        var t := 0;
        while t < |bin|
          invariant 0 <= t <= |bin| && buf == old(buf) && buflen == old(buflen) && allocsize == old(allocsize)
          invariant t > 0 ==> buf == null
          invariant failed == old(failed) && Queue() == queued
          invariant Upto(sent, old(sent), bin, t) && given == old(given) + bin
          invariant unchanged(this`shut, this`cutOff, this`burnAfterWriting) && (buf != null ==> unchanged(buf))
          invariant Going(a, t) && (t == 0 ==> a == [])
        {
          var n := WouldBlock;
          ghost var now := sent;
          if buf == null {
            n := Write(bin[t..]);
            Asked(a, t, n, |bin|);
            a := a + [n];
          }
          match n {
            case Wrote(k) =>
              MoreOut(now, sent, old(sent), bin, t, k);
              t := t + k;
            case WouldBlock =>
              Enqueue(bin[t..], burn);
              Gathered(sent, old(sent), queued, bin, t);
              Closed(old(sent), queued, old(given), bin);
              Waiting(old(sent), queued, old(burnAfterWriting), bin, burn, a, t);
              return 0, a;
            case Failure =>
              Closed(old(sent), queued, old(given), bin);
              CutShort(old(sent), old(burnAfterWriting), bin, burn, a);
              return 0, a;
          }
        }
        Gathered(sent, old(sent), queued, bin, t);
        AllAnswered(a, t);
      }
      if burn {
        Shutdown();
      }
      Closed(old(sent), old(Queue()), old(given), if sock == 0 then [] else bin);
      AllOut(old(sent), old(Queue()), old(burnAfterWriting), if sock == 0 then [] else bin, burn, a);
      return 1, a;
    }

    /** What a call of sendbin has done with these bytes, with the kernel's answers to it: the first bytes went
        out, and the others are in the queue unless a write failed. */
    ghost predicate SendsBin(sent0: seq<Byte>, queue0: seq<Byte>, burn0: nat, bin: seq<Byte>, burn: bool,
                             a: seq<Outcome>, finish: int)
      requires buf != null ==> buflen <= buf.Length
      reads this, buf
    {
      if bin == [] then
        finish == 1 && a == [] && sent == sent0 && Queue() == queue0 && burnAfterWriting == burn0
      else if queue0 != [] then
        finish == 0 && a == [] && sent == sent0 && Queue() == queue0 + bin &&
        burnAfterWriting == (if burn then 1 else burn0)
      else
        Answers(a, |bin|) && sent == sent0 + bin[..Taken(a)] &&
        if Blocked(a) then
          finish == 0 && Queue() == bin[Taken(a)..] && burnAfterWriting == (if burn then 1 else burn0)
        else
          finish == (if Failed(a) then 0 else 1) && Queue() == [] && burnAfterWriting == burn0
    }

    lemma Waiting(sent0: seq<Byte>, queue0: seq<Byte>, burn0: nat, bin: seq<Byte>, burn: bool, a: seq<Outcome>,
                  t: nat)
      requires buf != null && buflen <= buf.Length
      requires t < |bin| && Upto(sent, sent0, bin, t) && Queue() == queue0 + bin[t..] && Taken(a) == t
      requires if queue0 != [] then a == [] else Answers(a, |bin|) && Blocked(a)
      requires burnAfterWriting == if burn then 1 else burn0
      ensures SendsBin(sent0, queue0, burn0, bin, burn, a, 0)
    {
      assert bin[0..] == bin;
    }

    lemma CutShort(sent0: seq<Byte>, burn0: nat, bin: seq<Byte>, burn: bool, a: seq<Outcome>)
      requires bin != [] && buf == null && Answers(a, |bin|) && Failed(a)
      requires Upto(sent, sent0, bin, Taken(a)) && burnAfterWriting == burn0
      ensures SendsBin(sent0, [], burn0, bin, burn, a, 0)
    {}

    lemma AllOut(sent0: seq<Byte>, queue0: seq<Byte>, burn0: nat, bin: seq<Byte>, burn: bool, a: seq<Outcome>)
      requires buf != null ==> buflen <= buf.Length
      requires sent == sent0 + bin && Queue() == queue0 && burnAfterWriting == burn0
      requires if bin == [] then a == [] else
                 queue0 == [] && Answers(a, |bin|) && Taken(a) == |bin| && !Blocked(a) && !Failed(a)
      ensures SendsBin(sent0, queue0, burn0, bin, burn, a, 1)
    {
      assert bin[..|bin|] == bin;
    }

    /** sendqueue: what waits goes out in order, as far as the kernel takes it. */
    method SendQueue() returns (done: int, ghost a: seq<Outcome>)
      requires Valid()
      modifies this, buf
      ensures Valid() && given == old(given) && shut == old(shut) && cutOff == old(cutOff)
      ensures burnAfterWriting == old(burnAfterWriting)
      ensures (done == 1 <==> buf == null) && (buf == null || buf == old(buf))
      ensures SendsQueue(old(sent), old(Queue()), a)
      ensures failed == (old(failed) || Failed(a))
    {
      hide Answers, Going, Taken, Blocked, Failed, SendsQueue, Queue, Valid, Upto;
      NotAsked();
      Opened();
      a := [];
      ghost var all := Queue();
      NoneOut(sent, all);
      if buf == null {
        Sent(sent, all, a, 0);
        return 1, a;
      }
      Rest(0);
      var t := 0;
      while t < buflen
        invariant 0 <= t <= buflen && unchanged(this`buf, this`buflen, this`allocsize)
        invariant unchanged(this`given, this`shut, this`cutOff)
        invariant unchanged(this`burnAfterWriting, buf) && failed == old(failed)
        invariant Upto(sent, old(sent), all, t) && Going(a, t)
      {
        Rest(t);
        ghost var now := sent;
        var n := Write(buf[t..buflen]);
        Asked(a, t, n, |all|);
        a := a + [n];
        match n {
          case Wrote(k) =>
            MoreOut(now, sent, old(sent), all, t, k);
            t := t + k;
          case WouldBlock =>
            if t > 0 {
              MoveDown(t);
            }
            Gathered(sent, old(sent), [], all, t);
            Closed(old(sent), all, old(given), []);
            Sent(old(sent), all, a, t);
            return 0, a;
          case Failure =>
            Closed(old(sent), all, old(given), []);
            Sent(old(sent), all, a, t);
            return 0, a;
        }
      }
      Gathered(sent, old(sent), [], all, t);
      AllAnswered(a, t);
      buflen := 0;
      buf := null;
      Emptied();
      Closed(old(sent), all, old(given), []);
      Sent(old(sent), all, a, t);
      return 1, a;
    }

    lemma Rest(t: nat)
      requires buf != null && t <= buflen <= buf.Length
      ensures |Queue()| == buflen && buf[t..buflen] == Queue()[t..] && Queue()[0..] == Queue()
    {}

    lemma Emptied()
      requires buf == null
      ensures Queue() == []
    {}

    lemma Sent(sent0: seq<Byte>, queue0: seq<Byte>, a: seq<Outcome>, t: nat)
      requires buf != null ==> buflen <= buf.Length
      requires Upto(sent, sent0, queue0, t) && Answers(a, |queue0|) && Taken(a) == t
      requires Queue() == if Failed(a) then queue0 else queue0[t..]
      ensures SendsQueue(sent0, queue0, a)
    {}

    /** What a call of sendqueue has done, with the kernel's answers to it: the bytes that were taken leave the
        queue, unless a write failed, after which all of them are in it still. */
    ghost predicate SendsQueue(sent0: seq<Byte>, queue0: seq<Byte>, a: seq<Outcome>)
      requires buf != null ==> buflen <= buf.Length
      reads this, buf
    {
      && Answers(a, |queue0|)
      && sent == sent0 + queue0[..Taken(a)]
      && Queue() == if Failed(a) then queue0 else queue0[Taken(a)..]
    }

    /** memmove, to the front of the buffer, and the new length */
    method MoveDown(t: nat)
      requires buf != null && t < buflen <= buf.Length
      modifies this`buflen, buf
      ensures buflen == old(buflen) - t && unchanged(this`buf) && Queue() == old(Queue()[t..])
    {
      forall i | 0 <= i < buflen - t {
        buf[i] := buf[i + t];
      }
      buflen := buflen - t;
    }

    /** safe_shutdown: at once, or when the queue is empty. */
    method SafeShutdown()
      requires Valid()
      modifies this`shut, this`cutOff, this`burnAfterWriting
      ensures Valid() && cutOff == old(cutOff) && (old(Closing()) ==> Closing())
      ensures shut == (old(shut) || Queue() == [])
      ensures burnAfterWriting == if Queue() == [] then old(burnAfterWriting) else 2
    {
      if buf == null {
        Shutdown();
      } else {
        burnAfterWriting := 2;
      }
    }

    /** What the loop of events does for a socket that can be written: a socket that waits for its queue to be
        written is shut down as soon as the queue is empty, and no other. */
    method Writable() returns (ghost a: seq<Outcome>)
      requires Valid()
      modifies this, buf
      ensures Valid() && (old(Closing()) ==> Closing()) && given == old(given) && cutOff == old(cutOff)
      ensures burnAfterWriting == old(burnAfterWriting) && (buf == null || buf == old(buf))
      ensures SendsQueue(old(sent), old(Queue()), a)
      ensures failed == (old(failed) || Failed(a))
      ensures shut == (old(shut) || (old(Queue()) != [] && Queue() == [] && burnAfterWriting != 0))
    {
      if buf != null {
        var done;
        done, a := SendQueue();
        if done == 1 && burnAfterWriting != 0 {
          Shutdown();
        }
      } else {
        a := [];
        NotAsked();
      }
    }

    /** A message that is to be the last: when some of it has to wait, the socket is shut down by the call that
        empties the queue and no earlier one, whatever is written and sent after the message. */
    method LastMessage(bin: seq<Byte>, later: seq<Later>) returns (finish: int, queued: bool, emptied: bool)
      requires Valid() && sock != 0 && bin != [] && !shut
      modifies this, buf
      ensures Valid()
      ensures !failed ==> queued == (finish == 0)
      ensures finish == 1 ==> shut
      ensures queued ==> burnAfterWriting == 1 && shut == emptied
      ensures queued && !emptied ==> Queue() != []
      ensures cutOff == old(cutOff)
    {
      ghost var a;
      finish, a := SendBin(bin, true);
      queued, emptied := buf != null, false;
      for i := 0 to |later|
        invariant Valid() && cutOff == old(cutOff) && (buf == null || buf == old(buf) || fresh(buf))
        invariant (!failed ==> queued == (finish == 0))
        invariant finish == 1 ==> shut
        invariant queued ==> burnAfterWriting == 1 && shut == emptied && (emptied || Queue() != [])
      {
        match later[i] {
          case CanWrite => var _ := Writable();
          case Send(b) => var _, _ := SendBin(b, false);
        }
        emptied := emptied || buf == null;
      }
    }
  }
}
