/** Little-endian numbers made of 32-bit words, the arithmetic that the big-integer
    kernel of deps/js/src/dtoa.c is proved against. */
module Words {

  const BASE: int := 0x1_0000_0000

  type Word = w: int | 0 <= w < 0x1_0000_0000

  function Pow(b: nat, n: nat): nat {
    if n == 0 then 1 else b * Pow(b, n - 1)
  }

  /** The number that a word sequence denotes, least significant word first. */
  function Val(s: seq<Word>): nat
    decreases |s|
  {
    if |s| == 0 then 0
    else
      var n := |s| - 1;
      MulNat(s[n], Pow(BASE, n));
      Val(s[..n]) + s[n] * Pow(BASE, n)
  }

  /** No leading zero word, except that a single word may be zero. */
  ghost predicate Normal(s: seq<Word>) {
    |s| > 1 ==> s[|s| - 1] != 0
  }

  // ----- arithmetic steps -----

  lemma MulNat(a: nat, b: nat)
    ensures a * b >= 0
  {}

  lemma MulMono(a: nat, b: nat, c: nat)
    requires a <= b
    ensures a * c <= b * c
  {}

  /** Quotient and remainder are known by their sum. */
  lemma Division(x: nat, d: nat, q: nat, r: nat)
    requires 0 <= r < d && x == d * q + r
    ensures x / d == q && x % d == r
  {
    var p := x / d;
    Apart(p, q, d);
    Apart(q, p, d);
  }

  lemma Apart(p: nat, q: nat, d: nat)
    requires d >= 1
    ensures p < q ==> d * q >= d * p + d
  {
    if p < q {
      assert d * q == d * p + d * (q - p);
      assert (q - p - 1) * d >= 0;
    }
  }

  lemma PowPositive(b: nat, n: nat)
    requires b > 0
    ensures Pow(b, n) > 0
  {
    if n > 0 { PowPositive(b, n - 1); }
  }

  lemma {:induction false} PowAdd(b: nat, m: nat, n: nat)
    ensures Pow(b, m + n) == Pow(b, m) * Pow(b, n)
  {
    if m == 0 {
    } else {
      PowAdd(b, m - 1, n);
      var p, q := Pow(b, m - 1), Pow(b, n);
      assert Pow(b, m + n) == b * (p * q);
      assert b * (p * q) == (b * p) * q;
    }
  }

  lemma {:induction false} PowMul(b: nat, m: nat, n: nat)
    ensures Pow(Pow(b, m), n) == Pow(b, m * n)
  {
    if n == 0 {
      assert m * n == 0;
    } else {
      PowMul(b, m, n - 1);
      PowAdd(b, m, m * (n - 1));
      assert m + m * (n - 1) == m * n;
    }
  }

  /** Bit k of a number */
  function Bit(n: nat, k: nat): nat {
    PowPositive(2, k);
    n / Pow(2, k) % 2
  }

  lemma {:induction false} HalfFirst(n: nat, p: nat)
    requires 0 < p
    ensures n / (2 * p) == n / 2 / p
  {
    var a := n / 2;
    var q, r := a / p, a % p;
    assert a == p * q + r;
    assert n == 2 * a + n % 2;
    assert n == (2 * p) * q + (2 * r + n % 2);
    Division(n, 2 * p, q, 2 * r + n % 2);
  }

  lemma {:induction false} BitHalf(n: nat, k: nat)
    ensures Bit(n, 0) == n % 2 && Bit(n, k + 1) == Bit(n / 2, k)
  {
    PowPositive(2, k);
    assert Pow(2, k + 1) == 2 * Pow(2, k) && Pow(2, 0) == 1;
    HalfFirst(n, Pow(2, k));
  }

  /** The bits of a number that is put together from two */
  lemma {:induction false} JoinedBits(a: nat, c: nat, j: nat, k: nat)
    requires c < Pow(2, j)
    ensures a * Pow(2, j) + c >= 0
    ensures Bit(a * Pow(2, j) + c, k) == if k < j then Bit(c, k) else Bit(a, k - j)
    decreases j
  {
    MulNat(a, Pow(2, j));
    if j > 0 {
      var p := Pow(2, j - 1);
      var x := a * Pow(2, j) + c;
      assert a * Pow(2, j) == 2 * (a * p);
      assert x / 2 == a * p + c / 2 && x % 2 == c % 2;
      if k > 0 {
        BitHalf(x, k - 1);
        BitHalf(c, k - 1);
        JoinedBits(a, c / 2, j - 1, k - 1);
      } else {
        BitHalf(x, 0);
        BitHalf(c, 0);
      }
    } else {
      assert Pow(2, 0) == 1;
    }
    hide Bit;
  }

  /** The bits of w bits from the middle of a number */
  lemma PartBits(n: nat, d: nat, w: nat, k: nat)
    requires k < w
    ensures Pow(2, d) > 0 && Pow(2, w) > 0
    ensures Bit(n / Pow(2, d) % Pow(2, w), k) == Bit(n, d + k)
  {
    hide *;
    PowPositive(2, d);
    PowPositive(2, w);
    var p, q := Pow(2, d), Pow(2, w);
    var h := n / p;
    assert n == h * p + n % p && h == h / q * q + h % q;
    JoinedBits(h, n % p, d, d + k);
    JoinedBits(h / q, h % q, w, k);
  }

  lemma ValSnoc(s: seq<Word>, w: Word)
    ensures Val(s + [w]) == Val(s) + w * Pow(BASE, |s|)
  {
    assert (s + [w])[..|s|] == s;
  }

  lemma {:induction false} ValBound(s: seq<Word>)
    ensures Val(s) < Pow(BASE, |s|)
  {
    if |s| > 0 {
      var n := |s| - 1;
      ValBound(s[..n]);
      var p, top: int := Pow(BASE, n), s[n];
      MulMono(top + 1, BASE, p);
      assert (top + 1) * p == top * p + p;
    }
  }

  /** Words above position n that are all zero do not count. */
  lemma {:induction false} ValZeroTail(s: seq<Word>, n: nat)
    requires n <= |s|
    requires forall i :: n <= i < |s| ==> s[i] == 0
    ensures Val(s) == Val(s[..n])
    decreases |s|
  {
    if n == |s| {
      assert s[..n] == s;
    } else {
      var m := |s| - 1;
      ValZeroTail(s[..m], n);
      assert s[..m][..n] == s[..n];
    }
  }

  /** The top word brackets the number. */
  lemma ValTop(s: seq<Word>)
    requires |s| > 0
    ensures var p, top: int := Pow(BASE, |s| - 1), s[|s| - 1];
            top * p <= Val(s) < (top + 1) * p
  {
    var n := |s| - 1;
    ValBound(s[..n]);
    var p, top: int := Pow(BASE, n), s[n];
    assert (top + 1) * p == top * p + p;
  }

  /** A longer normal number is larger. */
  lemma ValLonger(a: seq<Word>, b: seq<Word>)
    requires |a| < |b| && b[|b| - 1] != 0
    ensures Val(a) < Val(b)
  {
    ValBound(a);
    ValTop(b);
    PowMonotone(BASE, |a|, |b| - 1);
    var p := Pow(BASE, |b| - 1);
    MulMono(1, b[|b| - 1], p);
  }

  lemma {:induction false} PowMonotone(b: nat, m: nat, n: nat)
    requires b > 0 && m <= n
    ensures Pow(b, m) <= Pow(b, n)
    decreases n - m
  {
    if m < n {
      PowMonotone(b, m, n - 1);
      MulMono(1, b, Pow(b, n - 1));
    }
  }

  /** Equal above position i, smaller at i: smaller. */
  lemma {:induction false} ValFirstDifference(a: seq<Word>, b: seq<Word>, i: nat)
    requires |a| == |b| && i < |a| && a[i] < b[i]
    requires forall j :: i < j < |a| ==> a[j] == b[j]
    ensures Val(a) < Val(b)
    decreases |a|
  {
    var n := |a| - 1;
    if i == n {
      ValTop(a);
      ValTop(b);
      var top: int := a[n];
      MulMono(top + 1, b[n], Pow(BASE, n));
    } else {
      ValFirstDifference(a[..n], b[..n], i);
    }
  }

  /** Carry split of a double word. */
  lemma CarrySplit(y: nat, p: nat)
    ensures (y % BASE) * p + (y / BASE) * (BASE * p) == y * p
  {
    var lo, hi := y % BASE, y / BASE;
    assert y == hi * BASE + lo;
    assert hi * (BASE * p) == (hi * BASE) * p;
    assert (hi * BASE + lo) * p == (hi * BASE) * p + lo * p;
  }
}
