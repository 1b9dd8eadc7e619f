/** The message queues of src/raw.c and src/users.c: messages shared by reference count between slot pools. */
module RawPools {
  import opened Bytes

  const OPEN: Byte := 91
  const COMMA: Byte := 44
  const CLOSE: Byte := 93

  datatype Priority = Low | High

  class Raw {
    const data: seq<Byte>
    const priority: Priority
    var refcount: int

    /** forge_raw, as far as the queues are concerned */
    constructor (data: seq<Byte>, priority: Priority)
      ensures this.data == data && this.priority == priority && refcount == 0
    {
      this.data, this.priority, refcount := data, priority, 0;
    }
  }

  /** struct _raw_pool_user, with its linked slots as a sequence and the foot as an index. */
  class Pool {
    var slots: seq<Raw?>
    var nraw: nat
    var size: nat
    var rawfoot: nat

    /** The first nraw slots are taken, the foot is the next one, and there always is one. */
    ghost predicate Valid()
      reads this
    {
      && |slots| == size && nraw < size && rawfoot == nraw
      && forall i :: 0 <= i < size ==> (slots[i] != null <==> i < nraw)
    }

    ghost predicate Empty()
      reads this
    {
      |slots| == size && 0 < size && forall i :: 0 <= i < size ==> slots[i] == null
    }

    /** What is queued, oldest first. */
    ghost function Queue(): (q: seq<Raw>)
      requires Valid()
      reads this
      ensures |q| == nraw
    {
      seq(nraw, i requires 0 <= i < nraw reads this requires Valid() => slots[i])
    }

    /** init_raw_pool */
    constructor (n: nat)
      requires 0 < n
      ensures Valid() && Empty() && nraw == 0 && size == n && Held(slots) == multiset{}
    {
      NullsHeld(n);
      slots, nraw, size, rawfoot := Nulls(n), 0, n, 0;
    }

    /** The queueing part of post_raw_sub, with expend_raw_pool */
    method Post(raw: Raw)
      requires Valid()
      modifies this
      ensures Valid() && Queue() == old(Queue()) + [raw]
      ensures Held(slots) == old(Held(slots)) + multiset{raw}
      ensures size == old(size) + if old(nraw) + 1 == old(size) then 16 else 0
    {
      hide Held;
      nraw := nraw + 1;
      if nraw == size {
        size := size + 16;
        NullsHeld(16);
        HeldConcat(slots, Nulls(16));
        NoMore(Held(slots));
        slots := slots + Nulls(16);
      }
      FillSlot(slots, rawfoot, raw);
      slots := slots[rawfoot := raw];
      rawfoot := rawfoot + 1;
    }
  }

  ghost function One(x: Raw?): multiset<Raw> { if x == null then multiset{} else multiset{x} }

  /** The messages that some slots hold, as often as they hold them. */
  ghost function Held(slots: seq<Raw?>): multiset<Raw> {
    if slots == [] then multiset{} else Held(slots[..|slots| - 1]) + One(slots[|slots| - 1])
  }

  lemma {:induction false} HeldUpdate(s: seq<Raw?>, i: nat, x: Raw?)
    requires i < |s|
    ensures Held(s[i := x]) + One(s[i]) == Held(s) + One(x)
    decreases |s|
  {
    var t := s[i := x];
    var n := |s| - 1;
    HeldLast(s);
    HeldLast(t);
    hide *;
    if i == n {
      assert t[..n] == s[..n];
      Exchange(Held(s[..n]), One(s[i]), One(x));
    } else {
      HeldUpdate(s[..n], i, x);
      assert t[..n] == s[..n][i := x];
      WithLast(Held(s[..n]), Held(t[..n]), One(s[i]), One(x), One(s[n]));
    }
  }

  lemma LastOfBoth(a: seq<Raw?>, b: seq<Raw?>)
    requires b != []
    ensures (a + b)[..|a + b| - 1] == a + b[..|b| - 1] && (a + b)[|a + b| - 1] == b[|b| - 1]
  {}

  lemma HeldLast(s: seq<Raw?>)
    requires s != []
    ensures Held(s) == Held(s[..|s| - 1]) + One(s[|s| - 1])
  {}

  lemma {:induction false} HeldConcat(a: seq<Raw?>, b: seq<Raw?>)
    ensures Held(a + b) == Held(a) + Held(b)
    decreases |b|
  {
    if b == [] {
      assert a + b == a;
    } else {
      var m := |b| - 1;
      HeldLast(b);
      HeldLast(a + b);
      HeldConcat(a, b[..m]);
      hide *;
      LastOfBoth(a, b);
      Assoc(Held(a), Held(b[..|b| - 1]), One(b[|b| - 1]));
    }
  }

  lemma WithLast<T>(t0: multiset<T>, t1: multiset<T>, o: multiset<T>, w: multiset<T>, l: multiset<T>)
    requires t1 + o == t0 + w
    ensures t1 + l + o == t0 + l + w
  {
    assert t1 + l + o == t1 + o + l;
    assert t0 + l + w == t0 + w + l;
  }

  lemma Exchange<T>(t: multiset<T>, o: multiset<T>, w: multiset<T>)
    ensures t + w + o == t + o + w
  {}

  lemma Assoc<T>(a: multiset<T>, b: multiset<T>, c: multiset<T>)
    ensures a + b + c == a + (b + c)
  {}

  lemma NoMore<T>(a: multiset<T>)
    ensures a + multiset{} == a
  {}

  lemma FillSlot(s: seq<Raw?>, i: nat, x: Raw)
    requires i < |s| && s[i] == null
    ensures Held(s[i := x]) == Held(s) + multiset{x}
  {
    HeldUpdate(s, i, x);
    hide Held;
    NoMore(Held(s[i := x]));
  }

  lemma ClearSlot(s: seq<Raw?>, i: nat)
    requires i < |s| && s[i] != null
    ensures Held(s) == Held(s[i := null]) + multiset{s[i]}
  {
    HeldUpdate(s, i, null);
    hide Held;
    NoMore(Held(s));
  }

  function Nulls(n: nat): seq<Raw?> { seq(n, _ => null) }

  lemma {:induction false} NullsHeld(n: nat)
    ensures Held(Nulls(n)) == multiset{}
  {
    if n > 0 {
      NullsHeld(n - 1);
      assert Nulls(n)[..n - 1] == Nulls(n - 1);
    }
  }
}
