/** The arbitrary-precision integer kernel of deps/js/src/dtoa.c, in the configuration with
    64-bit intermediates (ULLong) and 32-bit words (Pack_32). */
module Bigints {
  import opened Words

  const DOUBLE: int := BASE * BASE

  /** A number held in a buffer of 2^k words, of which the first wds are in use. */
  class Bigint {
    const k: nat
    const x: array<Word>
    var sign: int
    var wds: nat

    ghost predicate Valid()
      reads this
    {
      x.Length == Pow(2, k) && wds <= x.Length
    }

    ghost function Digits(): seq<Word>
      requires Valid()
      reads this, x
    {
      x[..wds]
    }

    ghost function Value(): nat
      requires Valid()
      reads this, x
    {
      Val(Digits())
    }

    constructor (size: nat)
      ensures Valid() && k == size && fresh(x) && sign == 0 && wds == 0
    {
      PowPositive(2, size);
      k := size;
      var len := ShiftOne(size);
      x := new Word[len](_ => 0);
      sign := 0;
      wds := 0;
    }
  }

  /** 1 << k, the capacity that Balloc gives to size class k. */
  method ShiftOne(k: nat) returns (r: nat)
    ensures r == Pow(2, k)
  {
    r := 1;
    for i := 0 to k
      invariant r == Pow(2, i)
    {
      r := 2 * r;
    }
  }

  // ----- multadd -----

  lemma MultAddStep(pre: nat, spre: nat, xi: nat, m: nat, a: nat, carry: nat, p: nat)
    requires pre + carry * p == spre * m + a
    ensures var y := xi * m + carry;
            pre + (y % BASE) * p + (y / BASE) * (BASE * p) == (spre + xi * p) * m + a
  {
    var y := xi * m + carry;
    CarrySplit(y, p);
    assert y * p == (xi * m) * p + carry * p;
    assert (xi * m) * p == (xi * p) * m;
    assert (spre + xi * p) * m == spre * m + (xi * p) * m;
  }

  /** x * m + carry fits in 64 bits and its high half fits in 32. */
  lemma DoubleWordBound(x: Word, m: Word, c: Word, carry: Word)
    ensures x * m + c + carry < DOUBLE
    ensures (x * m + c + carry) / BASE < BASE
  {
    var x', m': int := x, m;
    MulMono(x', BASE - 1, m');
    MulMono(m', BASE - 1, BASE - 1);
    assert x' * m' <= (BASE - 1) * (BASE - 1);
  }

  /** The low and high words of x * m + c + carry, the 64-bit step of every product loop. */
  function LowWord(x: Word, m: Word, c: Word, carry: Word): Word {
    (x * m + c + carry) % BASE
  }

  function HighWord(x: Word, m: Word, c: Word, carry: Word): Word {
    DoubleWordBound(x, m, c, carry);
    (x * m + c + carry) / BASE
  }

  lemma NormalByValue(s: seq<Word>)
    requires |s| > 0 ==> Val(s) >= Pow(BASE, |s| - 1)
    ensures |s| > 0 ==> s[|s| - 1] != 0
    ensures Normal(s)
  {
    if |s| > 0 { ValTop(s); }
  }

  lemma ValueOfNormal(s: seq<Word>)
    requires |s| > 0 && s[|s| - 1] != 0
    ensures Val(s) >= Pow(BASE, |s| - 1)
  {
    ValTop(s);
    var top: int := s[|s| - 1];
    MulMono(1, top, Pow(BASE, |s| - 1));
  }

  /** What the word loop of multadd has done to a prefix s, now r. */
  ghost predicate MultAdded(r: seq<Word>, carry: Word, s: seq<Word>, m: Word, a: Word) {
    Val(r) + carry * Pow(BASE, |s|) == Val(s) * m + a
  }

  lemma MultAddedStep(r: seq<Word>, carry: Word, s: seq<Word>, m: Word, a: Word, xi: Word)
    requires MultAdded(r, carry, s, m, a) && |r| == |s|
    ensures MultAdded(r + [LowWord(xi, m, 0, carry)], HighWord(xi, m, 0, carry), s + [xi], m, a)
  {
    var y := xi * m + carry;
    MultAddStep(Val(r), Val(s), xi, m, a, carry, Pow(BASE, |s|));
    ValSnoc(r, y % BASE);
    ValSnoc(s, xi);
  }

  /** The word loop of multadd: the first n words times m plus a, with the carry that is left. */
  method MultAddWords(x: array<Word>, n: nat, m: Word, a: Word) returns (carry: Word)
    requires n <= x.Length
    modifies x
    ensures MultAdded(x[..n], carry, old(x[..n]), m, a)
    ensures forall j :: n <= j < x.Length ==> x[j] == old(x[j])
  {
    ghost var s := x[..];
    carry := a;
    var i := 0;
    assert MultAdded(x[..0], a, s[..0], m, a);
    hide *;
    while i < n
      invariant 0 <= i <= n
      invariant forall j :: i <= j < x.Length ==> x[j] == s[j]
      invariant MultAdded(x[..i], carry, s[..i], m, a)
    {
      ghost var pre := x[..i];
      MultAddedStep(pre, carry, s[..i], m, a, x[i]);
      assert s[..i + 1] == s[..i] + [x[i]];
      var lo, hi := LowWord(x[i], m, 0, carry), HighWord(x[i], m, 0, carry);
      x[i], carry := lo, hi;
      assert x[..i + 1] == pre + [lo];
      i := i + 1;
    }
    assert s[..n] == old(x[..n]);
  }

  /** Multiply by m and add a, in place, growing the buffer when the last carry needs a word. */
  method MultAdd(b: Bigint, m: int, a: int) returns (r: Bigint)
    requires b.Valid() && b.wds >= 1
    requires 0 <= m < 0x8000_0000 && 0 <= a < 0x8000_0000
    modifies b, b.x
    ensures r.Valid() && r.Value() == old(b.Value()) * m + a
    ensures r.wds == old(b.wds) || r.wds == old(b.wds) + 1
    ensures r == b || (fresh(r) && fresh(r.x))
    ensures r.sign == old(b.sign)
    ensures m >= 1 && Normal(old(b.Digits())) ==> Normal(r.Digits())
  {
    ghost var s := b.Digits();
    var wds := b.wds;
    var carry := MultAddWords(b.x, wds, m, a);
    r := b;
    if carry != 0 {
      if wds >= b.x.Length {
        r := new Bigint(b.k + 1);
        Copy(r, b);
      }
      AppendWord(r, carry);
    } else if m >= 1 && Normal(s) && wds > 1 {
      ValueOfNormal(s);
      MulMono(1, m, Val(s));
      NormalByValue(r.Digits());
    }
  }

  method AppendWord(b: Bigint, w: Word)
    requires b.Valid() && b.wds < b.x.Length && w != 0
    modifies b, b.x
    ensures b.Valid() && b.wds == old(b.wds) + 1 && b.sign == old(b.sign)
    ensures b.Value() == old(b.Value()) + w * Pow(BASE, old(b.wds))
    ensures Normal(b.Digits())
  {
    hide Val;
    hide Pow;
    ghost var pre := b.Digits();
    ValSnoc(pre, w);
    b.x[b.wds] := w;
    b.wds := b.wds + 1;
    assert b.Digits() == pre + [w];
  }

  /** Bcopy: sign, word count and words. */
  method Copy(dst: Bigint, src: Bigint)
    requires dst.Valid() && src.Valid() && dst != src && dst.x != src.x
    requires src.wds <= dst.x.Length
    modifies dst, dst.x
    ensures dst.Valid() && dst.sign == src.sign && dst.wds == src.wds && dst.Digits() == src.Digits()
  {
    dst.sign := src.sign;
    dst.wds := src.wds;
    for i := 0 to src.wds
      invariant dst.Valid() && dst.sign == src.sign && dst.wds == src.wds
      invariant dst.x[..i] == src.x[..i]
    {
      dst.x[i] := src.x[i];
    }
  }

  // ----- mult -----

  lemma MultStep(pre: nat, cpre: nat, apre: nat, xi: nat, y: nat, ci: nat, carry: nat, pj: nat, pi: nat)
    requires pre + carry * (pi * pj) == cpre + y * apre * pj
    ensures var z := xi * y + ci + carry;
            var p := pi * pj;
            pre + (z % BASE) * p + (z / BASE) * (BASE * p) == (cpre + ci * p) + y * (apre + xi * pi) * pj
  {
    var z := xi * y + ci + carry;
    var p := pi * pj;
    CarrySplit(z, p);
    assert z * p == (xi * y) * p + ci * p + carry * p;
    assert (xi * y) * p == (y * (xi * pi)) * pj;
    assert y * (apre + xi * pi) == y * apre + y * (xi * pi);
    assert (y * apre + y * (xi * pi)) * pj == y * apre * pj + y * (xi * pi) * pj;
  }

  /** What the inner loop of mult has done after i words. */
  ghost predicate AddedMultiple(c: seq<Word>, carry: Word, s: seq<Word>, t: seq<Word>, j: nat, y: Word) {
    Val(c) + carry * Pow(BASE, |t| + j) == Val(s) + y * Val(t) * Pow(BASE, j)
  }

  lemma AddMultipleStart(s: seq<Word>, j: nat, y: Word)
    ensures AddedMultiple(s, 0, s, [], j, y)
  {}

  lemma AddMultipleStep(c: seq<Word>, carry: Word, s: seq<Word>, t: seq<Word>, j: nat, y: Word, ci: Word, xi: Word)
    requires AddedMultiple(c, carry, s, t, j, y) && |c| == |s| == |t| + j
    ensures AddedMultiple(c + [LowWord(xi, y, ci, carry)], HighWord(xi, y, ci, carry), s + [ci], t + [xi], j, y)
  {
    var z := xi * y + ci + carry;
    PowAdd(BASE, |t|, j);
    MultStep(Val(c), Val(s), Val(t), xi, y, ci, carry, Pow(BASE, j), Pow(BASE, |t|));
    ValSnoc(c, z % BASE);
    ValSnoc(s, ci);
    ValSnoc(t, xi);
  }

  lemma AddMultipleDone(c: seq<Word>, carry: Word, s: seq<Word>, t: seq<Word>, j: nat, y: Word)
    requires AddedMultiple(c, carry, s, t, j, y) && |c| == |s| == |t| + j
    ensures Val(c + [carry]) == Val(s) + y * Val(t) * Pow(BASE, j)
  {
    assert Val(c) + carry * Pow(BASE, |t| + j) == Val(s) + y * Val(t) * Pow(BASE, j);
    hide *;
    ValSnoc(c, carry);
  }

  /** The inner loop of mult: adds y times the first n words of a to c, starting at position j. */
  method AddMultiple(c: array<Word>, j: nat, a: array<Word>, n: nat, y: Word)
    requires a != c && n <= a.Length && j + n < c.Length
    modifies c
    ensures Val(c[..j + n + 1]) == old(Val(c[..j + n])) + y * Val(a[..n]) * Pow(BASE, j)
    ensures forall i :: j + n < i < c.Length ==> c[i] == old(c[i])
  {
    hide *;
    ghost var s := c[..];
    var carry: Word := 0;
    var i := 0;
    AddMultipleStart(s[..j], j, y);
    assert c[..j] == s[..j] && a[..0] == [];
    while i < n
      invariant 0 <= i <= n
      invariant forall l :: j + i <= l < c.Length ==> c[l] == s[l]
      invariant AddedMultiple(c[..j + i], carry, s[..j + i], a[..i], j, y)
    {
      ghost var pre := c[..j + i];
      AddMultipleStep(pre, carry, s[..j + i], a[..i], j, y, c[j + i], a[i]);
      assert s[..j + i + 1] == s[..j + i] + [c[j + i]] && a[..i + 1] == a[..i] + [a[i]];
      var lo, hi := LowWord(a[i], y, c[j + i], carry), HighWord(a[i], y, c[j + i], carry);
      c[j + i], carry := lo, hi;
      assert c[..j + i + 1] == pre + [lo];
      i := i + 1;
    }
    AddMultipleDone(c[..j + n], carry, s[..j + n], a[..n], j, y);
    ghost var pre := c[..j + n];
    c[j + n] := carry;
    assert c[..j + n + 1] == pre + [carry];
  }

  /** The outer loop of mult after the words t of the second factor. */
  ghost predicate Multiplied(c: seq<Word>, a: seq<Word>, t: seq<Word>) {
    Val(c) == Val(a) * Val(t)
  }

  lemma MultipliedStep(c: seq<Word>, c1: seq<Word>, a: seq<Word>, t: seq<Word>, y: Word)
    requires Multiplied(c, a, t) && Val(c1) == Val(c) + y * Val(a) * Pow(BASE, |t|)
    ensures Multiplied(c1, a, t + [y])
  {
    hide Val;
    hide Pow;
    ValSnoc(t, y);
    ProductStep(Val(c), Val(c1), Val(a), Val(t), y, Pow(BASE, |t|));
  }

  lemma ProductStep(c: nat, c1: nat, a: nat, t: nat, y: nat, p: nat)
    requires c == a * t && c1 == c + y * a * p
    ensures c1 == a * (t + y * p)
  {
    assert a * (t + y * p) == a * t + a * (y * p);
    assert a * (y * p) == y * a * p;
  }

  lemma MultipliedByNothing(c: seq<Word>, a: seq<Word>)
    requires forall i :: 0 <= i < |c| ==> c[i] == 0
    ensures Multiplied(c, a, [])
  {
    ValZeroTail(c, 0);
    assert c[..0] == [];
  }

  lemma MultipliedByZero(c: seq<Word>, a: seq<Word>, t: seq<Word>)
    requires Multiplied(c, a, t)
    ensures Multiplied(c + [0], a, t + [0])
  {
    ValSnoc(c, 0);
    ValSnoc(t, 0);
  }

  /** The outer loop of mult: the product of two word arrays, into a zeroed array. */
  method MultWords(c: array<Word>, a: array<Word>, wa: nat, b: array<Word>, wb: nat)
    requires a != c && b != c && wa <= a.Length && wb <= b.Length && wa + wb <= c.Length
    requires forall i :: 0 <= i < wa + wb ==> c[i] == 0
    modifies c
    ensures Multiplied(c[..wa + wb], a[..wa], b[..wb])
  {
    var j := 0;
    MultipliedByNothing(c[..wa], a[..wa]);
    assert b[..0] == [];
    hide *;
    while j < wb
      invariant 0 <= j <= wb
      invariant forall i :: wa + j <= i < wa + wb ==> c[i] == 0
      invariant Multiplied(c[..wa + j], a[..wa], b[..j])
    {
      var y := b[j];
      ghost var pre := c[..wa + j];
      assert b[..j + 1] == b[..j] + [y];
      if y != 0 {
        assert c[..j + wa] == pre;
        AddMultiple(c, j, a, wa, y);
        assert c[..j + wa + 1] == c[..wa + (j + 1)];
        MultipliedStep(pre, c[..wa + (j + 1)], a[..wa], b[..j], y);
      } else {
        assert c[..wa + (j + 1)] == pre + [0];
        MultipliedByZero(pre, a[..wa], b[..j]);
      }
      j := j + 1;
    }
  }

  /** mult: the product, in a new number; zero has no words at all. */
  method Mult(a0: Bigint, b0: Bigint) returns (c: Bigint)
    requires a0.Valid() && b0.Valid()
    ensures fresh(c) && fresh(c.x) && c.Valid() && c.sign == 0
    ensures c.Value() == a0.Value() * b0.Value()
    ensures c.wds > 0 ==> c.x[c.wds - 1] != 0
  {
    var a, b := a0, b0;
    if a.wds < b.wds {
      a, b := b, a;
    }
    var wc := a.wds + b.wds;
    c := new Bigint(if wc > a.x.Length then a.k + 1 else a.k);
    assert c.x.Length >= wc;
    Clear(c.x, wc);
    MultWords(c.x, a.x, a.wds, b.x, b.wds);
    assert Multiplied(c.x[..wc], a.Digits(), b.Digits());
    Trim(c, wc);
    assert a.Value() * b.Value() == b.Value() * a.Value();
  }

  method Clear(x: array<Word>, n: nat)
    requires n <= x.Length
    modifies x
    ensures forall j :: 0 <= j < n ==> x[j] == 0
    ensures forall j :: n <= j < x.Length ==> x[j] == old(x[j])
  {
    for i := 0 to n
      invariant forall j :: 0 <= j < i ==> x[j] == 0
      invariant forall j :: n <= j < x.Length ==> x[j] == old(x[j])
    {
      x[i] := 0;
    }
  }

  /** The loop that drops zero words from the top of the first n. */
  method Trim(c: Bigint, n: nat)
    requires c.Valid() && n <= c.x.Length
    modifies c
    ensures c.Valid() && c.wds <= n && c.sign == old(c.sign)
    ensures c.Value() == Val(c.x[..n])
    ensures c.wds > 0 ==> c.x[c.wds - 1] != 0
  {
    var wc := n;
    ghost var s := c.x[..n];
    while wc > 0 && c.x[wc - 1] == 0
      invariant 0 <= wc <= n && forall i :: wc <= i < n ==> s[i] == 0
    {
      wc := wc - 1;
    }
    ValZeroTail(s, wc);
    assert s[..wc] == c.x[..wc];
    c.wds := wc;
  }

  // ----- cmp and diff -----

  /** cmp: first the word counts, then the highest word that differs. */
  method Cmp(a: Bigint, b: Bigint) returns (r: int)
    requires a.Valid() && b.Valid() && Normal(a.Digits()) && Normal(b.Digits())
    requires b.wds >= 1 && (a.wds == 0 ==> b.x[0] != 0 || b.wds > 1)
    ensures (r < 0 <==> a.Value() < b.Value()) && (r > 0 <==> a.Value() > b.Value())
  {
    ghost var s, t := a.Digits(), b.Digits();
    r := a.wds - b.wds;
    if r != 0 {
      CmpByLength(s, t);
      return;
    }
    var j := b.wds;
    while j > 0
      invariant 0 <= j <= b.wds
      invariant forall i :: j <= i < b.wds ==> s[i] == t[i]
    {
      j := j - 1;
      if a.x[j] != b.x[j] {
        if s[j] < t[j] { ValFirstDifference(s, t, j); } else { ValFirstDifference(t, s, j); }
        return if a.x[j] < b.x[j] then -1 else 1;
      }
    }
    assert s == t;
    return 0;
  }

  lemma CmpByLength(s: seq<Word>, t: seq<Word>)
    requires Normal(s) && Normal(t) && |s| != |t| && |t| >= 1 && (|s| == 0 ==> t[0] != 0 || |t| > 1)
    ensures |s| < |t| <==> Val(s) < Val(t)
    ensures |s| > |t| <==> Val(s) > Val(t)
  {
    if |s| < |t| { ValLonger(s, t); } else { ValLonger(t, s); }
  }

  lemma BorrowStep(r0: int, a0: int, s0: int, ai: int, si: int, q: int, lo: int,
                   carry: int, carry1: int, borrow: int, borrow1: int, w: int, p: int)
    requires r0 == a0 - q * s0 + (borrow + carry) * p
    requires si * q + carry == carry1 * BASE + lo
    requires w == ai - lo - borrow + borrow1 * BASE
    ensures r0 + w * p == (a0 + ai * p) - q * (s0 + si * p) + (borrow1 + carry1) * (BASE * p)
  {
    assert lo == si * q + carry - carry1 * BASE;
    assert w * p == (ai - si * q - carry + carry1 * BASE - borrow + borrow1 * BASE) * p;
    assert w * p == ai * p - (si * q) * p - carry * p + (carry1 * BASE) * p - borrow * p + (borrow1 * BASE) * p;
    assert (si * q) * p == q * (si * p);
    assert q * (s0 + si * p) == q * s0 + q * (si * p);
    assert (borrow1 + carry1) * (BASE * p) == (borrow1 * BASE) * p + (carry1 * BASE) * p;
    assert (borrow + carry) * p == borrow * p + carry * p;
  }

  /** One word of a subtraction in 64-bit wrap-around arithmetic: the low half of the
      difference and the borrow taken from bit 32. */
  method SubWord(a: Word, lo: Word, borrow: int) returns (w: Word, borrow1: int)
    requires 0 <= borrow <= 1
    ensures 0 <= borrow1 <= 1 && w == a - lo - borrow + borrow1 * BASE
  {
    var y := (a - lo - borrow) % DOUBLE;
    borrow1 := (y / BASE) % 2;
    w := y % BASE;
    if a - lo - borrow < 0 {
      assert y == a - lo - borrow + DOUBLE;
      assert y / BASE == BASE - 1;
    } else {
      assert y == a - lo - borrow;
    }
  }

  /** What the subtraction loops have done to the prefix u, with q times t taken away. */
  ghost predicate Subtracted(r: seq<Word>, borrow: int, carry: int, u: seq<Word>, t: seq<Word>, q: Word) {
    Val(r) == Val(u) - q * Val(t) + (borrow + carry) * Pow(BASE, |u|)
  }

  lemma SubtractedStep(r: seq<Word>, borrow: int, carry: Word, u: seq<Word>, t: seq<Word>, q: Word,
                       ui: Word, ti: Word, borrow1: int, w: Word)
    requires |r| == |u| == |t| && Subtracted(r, borrow, carry, u, t, q)
    requires w == ui - LowWord(ti, q, 0, carry) - borrow + borrow1 * BASE
    ensures Subtracted(r + [w], borrow1, HighWord(ti, q, 0, carry), u + [ui], t + [ti], q)
  {
    var ys := ti * q + carry;
    BorrowStep(Val(r), Val(u), Val(t), ui, ti, q, ys % BASE, carry, ys / BASE, borrow, borrow1, w, Pow(BASE, |u|));
    ValSnoc(r, w);
    ValSnoc(u, ui);
    ValSnoc(t, ti);
  }

  lemma SubtractedDone(r: seq<Word>, borrow: int, carry: int, u: seq<Word>, t: seq<Word>, q: Word)
    requires |r| == |u| && 0 <= borrow && 0 <= carry && Subtracted(r, borrow, carry, u, t, q)
    requires q * Val(t) <= Val(u)
    ensures Val(r) == Val(u) - q * Val(t)
  {
    ValBound(r);
    NothingLeft(Val(r), Val(u) - q * Val(t), borrow + carry, Pow(BASE, |u|));
  }

  lemma NothingLeft(v: nat, d: nat, c: nat, p: nat)
    requires v == d + c * p && v < p
    ensures v == d
  {
    if c > 0 { MulMono(1, c, p); }
  }

  /** The subtraction loops: x := x - q * s over n words, given that the result is not negative. */
  method SubtractMultiple(x: array<Word>, s: array<Word>, n: nat, q: Word)
    requires x != s && n <= x.Length && n <= s.Length
    requires q * Val(s[..n]) <= Val(x[..n])
    modifies x
    ensures Val(x[..n]) == old(Val(x[..n])) - q * Val(s[..n])
    ensures forall j :: n <= j < x.Length ==> x[j] == old(x[j])
  {
    ghost var u := x[..];
    var borrow, carry: Word := 0, 0;
    var i := 0;
    assert Subtracted(x[..0], 0, 0, u[..0], s[..0], q);
    hide *;
    while i < n
      invariant 0 <= i <= n && 0 <= borrow <= 1
      invariant forall j :: i <= j < x.Length ==> x[j] == u[j]
      invariant Subtracted(x[..i], borrow, carry, u[..i], s[..i], q)
    {
      ghost var pre, borrow0, carry0 := x[..i], borrow, carry;
      var lo, hi := LowWord(s[i], q, 0, carry), HighWord(s[i], q, 0, carry);
      var w;
      w, borrow := SubWord(x[i], lo, borrow);
      SubtractedStep(pre, borrow0, carry0, u[..i], s[..i], q, x[i], s[i], borrow, w);
      assert u[..i + 1] == u[..i] + [x[i]] && s[..i + 1] == s[..i] + [s[i]];
      x[i], carry := w, hi;
      assert x[..i + 1] == pre + [w];
      i := i + 1;
    }
    assert u[..n] == old(x[..n]);
    SubtractedDone(x[..n], borrow, carry, u[..n], s[..n], q);
  }

  /** diff: |a - b|, with sign 1 exactly when a < b. The source's first loop runs over both
      numbers and its second over the words only a has; those words subtract zero here. */
  method Diff(a0: Bigint, b0: Bigint) returns (c: Bigint)
    requires a0.Valid() && b0.Valid() && a0.wds >= 1 && b0.wds >= 1
    requires Normal(a0.Digits()) && Normal(b0.Digits())
    ensures fresh(c) && fresh(c.x) && c.Valid() && Normal(c.Digits()) && c.wds >= 1
    ensures c.sign == if a0.Value() < b0.Value() then 1 else 0
    ensures c.Value() == if a0.Value() < b0.Value() then b0.Value() - a0.Value() else a0.Value() - b0.Value()
  {
    hide Val;
    hide Pow;
    var i := Cmp(a0, b0);
    if i == 0 {
      c := SingleWord(0, 0);
      return;
    }
    var a, b := a0, b0;
    if i < 0 {
      a, b := b0, a0;
    }
    if b.wds > a.wds { CmpByLength(a.Digits(), b.Digits()); }
    c := new Bigint(a.k);
    c.sign := if i < 0 then 1 else 0;
    ghost var va, vb := a.Value(), b.Value();
    DiffWords(c.x, a.x, a.wds, b.x, b.wds);
    assert Val(c.x[..a.wds]) == va - vb;
    Trim(c, a.wds);
    if c.wds == 0 { ValEmpty(c.Digits()); }
  }

  ghost function ZeroExtend(s: seq<Word>, n: nat): (t: seq<Word>)
    requires |s| <= n
    ensures |t| == n && Val(t) == Val(s) && (forall i :: 0 <= i < n ==> t[i] == if i < |s| then s[i] else 0)
  {
    var t := s + seq(n - |s|, i => 0 as Word);
    ValZeroTail(t, |s|);
    assert t[..|s|] == s;
    t
  }

  lemma DiffStep(r: seq<Word>, borrow: int, u: seq<Word>, t: seq<Word>, ui: Word, ti: Word, borrow1: int, w: Word)
    requires |r| == |u| == |t| && Subtracted(r, borrow, 0, u, t, 1)
    requires w == ui - ti - borrow + borrow1 * BASE
    ensures Subtracted(r + [w], borrow1, 0, u + [ui], t + [ti], 1)
  {
    assert LowWord(ti, 1, 0, 0) == ti && HighWord(ti, 1, 0, 0) == 0;
    hide *;
    SubtractedStep(r, borrow, 0, u, t, 1, ui, ti, borrow1, w);
  }

  /** The two loops of diff: c := a - b, word by word with a borrow. */
  method DiffWords(c: array<Word>, a: array<Word>, wa: nat, b: array<Word>, wb: nat)
    requires c != a && c != b && wb <= wa <= a.Length && wb <= b.Length && wa <= c.Length
    requires Val(b[..wb]) <= Val(a[..wa])
    modifies c
    ensures Val(c[..wa]) == Val(a[..wa]) - Val(b[..wb])
  {
    var borrow, i := 0, 0;
    ghost var t := ZeroExtend(b[..wb], wa);
    assert Subtracted(c[..0], 0, 0, a[..0], t[..0], 1);
    hide *;
    while i < wa
      invariant 0 <= i <= wa && 0 <= borrow <= 1
      invariant Subtracted(c[..i], borrow, 0, a[..i], t[..i], 1)
    {
      ghost var pre, borrow0 := c[..i], borrow;
      var w;
      var sub := if i < wb then b[i] else 0;
      w, borrow := SubWord(a[i], sub, borrow);
      DiffStep(pre, borrow0, a[..i], t[..i], a[i], sub, borrow, w);
      assert a[..i + 1] == a[..i] + [a[i]] && t[..i + 1] == t[..i] + [sub];
      c[i] := w;
      assert c[..i + 1] == pre + [w];
      i := i + 1;
    }
    assert t[..wa] == t;
    SubtractedDone(c[..wa], borrow, 0, a[..wa], t, 1);
  }

  lemma ValEmpty(s: seq<Word>)
    requires |s| == 0
    ensures Val(s) == 0
  {}

  // ----- lshift -----

  lemma ShiftStep(r: nat, s: nat, z: nat, xi: nat, p: nat, lo: nat, hi: nat)
    requires lo > 0 && hi > 0 && lo * hi == BASE
    requires r + z * p == s * lo
    ensures r + ((xi * lo) % BASE + z) * p + (xi / hi) * (BASE * p) == (s + xi * p) * lo
  {
    ShiftSplit(xi, lo, hi);
    var y := (xi * lo) % BASE;
    assert (y + z) * p == y * p + z * p;
    assert (xi * lo) * p == y * p + ((xi / hi) * BASE) * p;
    assert ((xi / hi) * BASE) * p == (xi / hi) * (BASE * p);
    assert (s + xi * p) * lo == s * lo + (xi * p) * lo;
    assert (xi * p) * lo == (xi * lo) * p;
  }

  /** x << k keeps the low bits, x >> (32 - k) the high ones; the low k bits of x << k are free. */
  lemma ShiftSplit(x: nat, lo: nat, hi: nat)
    requires lo > 0 && hi > 0 && lo * hi == BASE
    ensures x * lo == (x / hi) * BASE + (x * lo) % BASE
    ensures (x * lo) % BASE == (x % hi) * lo
    ensures (x * lo) % BASE + lo <= BASE
  {
    var q, r := x / hi, x % hi;
    assert x == q * hi + r;
    assert x * lo == (q * hi) * lo + r * lo;
    assert (q * hi) * lo == q * BASE by { assert (q * hi) * lo == q * (hi * lo); }
    MulMono(r + 1, hi, lo);
    assert (r + 1) * lo == r * lo + lo;
    RemainderUnique(x * lo, BASE, q, r * lo);
  }

  lemma RemainderUnique(x: nat, d: nat, q: nat, r: nat)
    requires x == q * d + r && r < d
    ensures x / d == q && x % d == r
  {
    assert x == (x / d) * d + x % d;
    if x / d < q { MulMono(x / d + 1, q, d); }
    if x / d > q { MulMono(q + 1, x / d, d); }
  }

  /** What the shift loop has done to the words s, with the bits z still to be placed. */
  ghost predicate Shifted(r: seq<Word>, z: Word, s: seq<Word>, lo: nat) {
    Val(r) + z * Pow(BASE, |s|) == Val(s) * lo
  }

  lemma ShiftedStep(r: seq<Word>, z: Word, s: seq<Word>, lo: nat, hi: nat, xi: Word)
    requires lo > 0 && hi > 0 && lo * hi == BASE && z < lo
    requires |r| == |s| && Shifted(r, z, s, lo)
    ensures (xi * lo) % BASE + z < BASE && xi / hi < lo && xi / hi < BASE
    ensures Shifted(r + [(xi * lo) % BASE + z], xi / hi, s + [xi], lo)
  {
    ShiftSplit(xi, lo, hi);
    HighBits(xi, lo, hi);
    ShiftStep(Val(r), Val(s), z, xi, Pow(BASE, |s|), lo, hi);
    ValSnoc(r, (xi * lo) % BASE + z);
    ValSnoc(s, xi);
  }

  lemma HighBits(x: Word, lo: nat, hi: nat)
    requires lo > 0 && hi > 0 && lo * hi == BASE
    ensures x / hi < lo && x / hi < BASE
  {
    var q, x': int := x / hi, x;
    assert x' == q * hi + x' % hi;
    if q >= lo { MulMono(lo, q, hi); }
    MulMono(1, hi, lo);
  }

  /** The shift loop of lshift: dst[n + i] := src[i] << k | z. The two operands of the "or" have
      no bit in common (z < lo and src[i] << k is a multiple of lo), so it is their sum. */
  method ShiftWords(dst: array<Word>, n: nat, src: array<Word>, wds: nat, lo: nat, hi: nat) returns (z: Word)
    requires dst != src && n + wds <= dst.Length && wds <= src.Length
    requires lo > 0 && hi > 0 && lo * hi == BASE
    modifies dst
    ensures Shifted(dst[n..n + wds], z, src[..wds], lo)
    ensures forall j :: 0 <= j < n ==> dst[j] == old(dst[j])
  {
    z := 0;
    var i := 0;
    assert dst[n..n + 0] == [] == src[..0];
    hide *;
    while i < wds
      invariant 0 <= i <= wds && z < lo
      invariant Shifted(dst[n..n + i], z, src[..i], lo)
      invariant forall j :: 0 <= j < n ==> dst[j] == old(dst[j])
    {
      ghost var pre := dst[n..n + i];
      ShiftedStep(pre, z, src[..i], lo, hi, src[i]);
      assert src[..i + 1] == src[..i] + [src[i]];
      var w: Word := (src[i] * lo) % BASE + z;
      dst[n + i] := w;
      z := src[i] / hi;
      assert dst[n..n + (i + 1)] == pre + [w];
      i := i + 1;
    }
  }

  lemma {:induction false} ValConcat(s: seq<Word>, t: seq<Word>)
    ensures Val(s + t) == Val(s) + Pow(BASE, |s|) * Val(t)
    decreases |t|
  {
    if |t| == 0 {
      assert s + t == s;
    } else {
      var m := |t| - 1;
      assert s + t == (s + t[..m]) + [t[m]] && t == t[..m] + [t[m]];
      ValConcat(s, t[..m]);
      ValSnoc(s + t[..m], t[m]);
      ValSnoc(t[..m], t[m]);
      PowAdd(BASE, |s|, m);
      Reassociate(Pow(BASE, |s|), Val(t[..m]), t[m], Pow(BASE, m));
    }
  }

  lemma Reassociate(p: nat, v: nat, w: nat, r: nat)
    ensures p * (v + w * r) == p * v + w * (p * r)
  {
    assert p * (v + w * r) == p * v + p * (w * r);
  }

  lemma TwoToThe32()
    ensures Pow(2, 32) == BASE
  {
    PowAdd(2, 16, 16);
    PowAdd(2, 8, 8);
    PowAdd(2, 4, 4);
    assert Pow(2, 4) == 16;
  }

  /** The value after placing n zero words, the shifted words and the leftover bits. */
  lemma ShiftValue(n: nat, r: seq<Word>, z: Word, s: seq<Word>, k: nat, out: seq<Word>)
    requires |r| == |s| && Shifted(r, z, s, Pow(2, k))
    requires out == seq(n, i => 0 as Word) + (r + [z])
    ensures Val(out) == Val(s) * Pow(2, 32 * n + k)
  {
    var zeros := seq(n, i => 0 as Word);
    ValZeroTail(zeros, 0);
    assert zeros[..0] == [];
    ValConcat(zeros, r + [z]);
    assert Val(r + [z]) == Val(s) * Pow(2, k) by { ValSnoc(r, z); }
    assert Pow(2, 32 * n + k) == Pow(BASE, n) * Pow(2, k) by { PowShift(n, k); }
    hide *;
    Rearrange(Pow(BASE, n), Val(s), Pow(2, k));
  }

  lemma PowShift(n: nat, k: nat)
    ensures Pow(2, 32 * n + k) == Pow(BASE, n) * Pow(2, k)
  {
    TwoToThe32();
    PowMul(2, 32, n);
    PowAdd(2, 32 * n, k);
  }

  lemma Rearrange(p: nat, v: nat, q: nat)
    ensures p * (v * q) == v * (p * q)
  {}

  /** The smallest size class from k on whose 2^k words hold n1; len is 2^k. */
  method SizeClass(n1: nat, k: nat, len: nat) returns (k1: nat)
    requires len == Pow(2, k)
    ensures Pow(2, k1) >= n1
  {
    k1 := k;
    PowPositive(2, k);
    var i := len;
    while n1 > i
      invariant i == Pow(2, k1) > 0
    {
      i, k1 := 2 * i, k1 + 1;
    }
  }

  lemma ShiftFactors(k: nat)
    requires k <= 32
    ensures Pow(2, k) > 0 && Pow(2, 32 - k) > 0 && Pow(2, k) * Pow(2, 32 - k) == BASE
  {
    TwoToThe32();
    PowAdd(2, k, 32 - k);
    PowPositive(2, k);
    PowPositive(2, 32 - k);
  }

  /** lshift: b * 2^k in a new number. */
  method LShift(b: Bigint, k: nat) returns (b1: Bigint)
    requires b.Valid() && b.wds >= 1
    ensures fresh(b1) && fresh(b1.x) && b1.Valid() && b1.sign == 0
    ensures b1.Value() == b.Value() * Pow(2, k)
    ensures b.x[b.wds - 1] != 0 ==> b1.wds >= 1 && b1.x[b1.wds - 1] != 0
  {
    hide Val;
    hide Pow;
    hide Shifted;
    var n := k / 32;
    var n1 := n + b.wds + 1;
    var k1 := SizeClass(n1, b.k, b.x.Length);
    b1 := new Bigint(k1);
    Clear(b1.x, n);
    var lo := ShiftOne(k % 32);
    var hi := ShiftOne(32 - k % 32);
    ShiftFactors(k % 32);
    var z := ShiftWords(b1.x, n, b.x, b.wds, lo, hi);
    ghost var r := b1.x[n..n + b.wds];
    b1.x[n1 - 1] := z;
    ghost var out := b1.x[..n1];
    assert out == seq(n, i => 0 as Word) + (r + [z]);
    ShiftValue(n, r, z, b.Digits(), k % 32, out);
    assert 32 * n + k % 32 == k;
    b1.wds := if z != 0 then n1 else n1 - 1;
    assert b1.Digits() == if z != 0 then out else out[..|out| - 1];
    ShiftTop(out, b1.Digits(), b.Digits(), k, z);
  }

  /** Dropping a zero top word keeps the value, and a nonzero top word stays nonzero. */
  lemma ShiftTop(out: seq<Word>, r: seq<Word>, s: seq<Word>, k: nat, z: Word)
    requires |s| >= 1 && |out| == k / 32 + |s| + 1 && out[|out| - 1] == z
    requires r == if z != 0 then out else out[..|out| - 1]
    requires Val(out) == Val(s) * Pow(2, k)
    ensures Val(r) == Val(out)
    ensures s[|s| - 1] != 0 ==> r[|r| - 1] != 0
  {
    hide *;
    if z == 0 {
      ValZeroTail(out, |out| - 1);
      if s[|s| - 1] != 0 {
        ShiftSize(s, k);
        NormalByValue(r);
      }
    }
  }

  lemma ShiftSize(s: seq<Word>, k: nat)
    requires |s| >= 1 && s[|s| - 1] != 0
    ensures Val(s) * Pow(2, k) >= Pow(BASE, |s| - 1 + k / 32)
  {
    var n := k / 32;
    assert Val(s) >= Pow(BASE, |s| - 1) by { ValueOfNormal(s); }
    assert Pow(2, k) >= Pow(BASE, n) by {
      PowShift(n, 0);
      PowMonotone(2, 32 * n, k);
    }
    PowAdd(BASE, |s| - 1, n);
    hide *;
    ProductMonotone(Pow(BASE, |s| - 1), Val(s), Pow(BASE, n), Pow(2, k));
  }

  lemma ProductMonotone(a: nat, b: nat, c: nat, d: nat)
    requires a <= b && c <= d
    ensures a * c <= b * d
  {
    MulMono(a, b, c);
    MulMono(c, d, b);
  }

  // ----- quorem -----

  /** quorem wants the top word of the divisor in [2^27, 2^28). */
  ghost predicate Divisor(s: seq<Word>) {
    |s| >= 1 && 0x800_0000 <= s[|s| - 1] < 0x1000_0000
  }

  /** The quotient estimate from the top words. */
  function Guess(bt: nat, st: nat): nat { bt / (st + 1) }

  /** The estimate is never above the true quotient and at most one below it. */
  lemma QuotientEstimate(b: seq<Word>, s: seq<Word>)
    requires |b| == |s| >= 1 && s[|s| - 1] >= 10 && Val(b) < 10 * Val(s)
    ensures var q := Guess(b[|b| - 1], s[|s| - 1]);
            q * Val(s) <= Val(b) < (q + 2) * Val(s) && q <= 9
  {
    var p: nat, bt: int, st: int := Pow(BASE, |s| - 1), b[|b| - 1], s[|s| - 1];
    hide *;
    ValTop(b);
    ValTop(s);
    EstimateBounds(Val(b), Val(s), bt, st, p);
  }

  lemma EstimateBounds(vb: nat, vs: nat, bt: nat, st: nat, p: nat)
    requires bt * p <= vb < (bt + 1) * p && st * p <= vs < (st + 1) * p
    requires st >= 10 && vb < 10 * vs
    ensures var q := Guess(bt, st); q * vs <= vb < (q + 2) * vs && q <= 9
  {
    var q := Guess(bt, st);
    EstimateTop(bt, st, q);
    EstimateBelow(vb, vs, bt, st + 1, p, q);
    if q >= 10 { MulMono(10, q, vs); }
    EstimateRoom(bt, st, q);
    EstimateAbove(vb, vs, bt, st, p, q + 2);
  }

  lemma EstimateBelow(vb: nat, vs: nat, bt: nat, st1: nat, p: nat, q: nat)
    requires bt * p <= vb && vs < st1 * p && q * st1 <= bt
    ensures q * vs <= vb
  {
    MulMono(vs, st1 * p, q);
    MulMono(q * st1, bt, p);
    assert (st1 * p) * q == (q * st1) * p;
  }

  lemma EstimateTop(bt: nat, st: nat, q: nat)
    requires q == Guess(bt, st)
    ensures q * (st + 1) <= bt < (q + 1) * (st + 1)
  {}

  lemma EstimateRoom(bt: nat, st: nat, q: nat)
    requires bt < (q + 1) * (st + 1) && q + 1 <= st
    ensures bt + 1 <= (q + 2) * st
  {
    assert (q + 1) * (st + 1) == (q + 1) * st + q + 1;
    assert (q + 2) * st == (q + 1) * st + st;
  }

  lemma EstimateAbove(vb: nat, vs: nat, bt: nat, st: nat, p: nat, q: nat)
    requires vb < (bt + 1) * p && st * p <= vs && bt + 1 <= q * st
    ensures vb < q * vs
  {
    MulMono(bt + 1, q * st, p);
    MulMono(st * p, vs, q);
    assert (q * st) * p == (st * p) * q;
  }

  /** A dividend below ten times the divisor has no more words than it. */
  lemma DividendLength(b: seq<Word>, s: seq<Word>)
    requires Divisor(s) && Normal(b) && Val(b) < 10 * Val(s)
    ensures |b| <= |s|
  {
    assert Val(b) < Pow(BASE, |s|) by { TenTimes(s); }
    if |b| > |s| {
      assert Val(b) >= Pow(BASE, |b| - 1) by { ValueOfNormal(b); }
      PowMonotone(BASE, |s|, |b| - 1);
    }
  }

  lemma TenTimes(s: seq<Word>)
    requires Divisor(s)
    ensures 10 * Val(s) < Pow(BASE, |s|)
  {
    ValTop(s);
    assert Pow(BASE, |s|) == BASE * Pow(BASE, |s| - 1);
    hide *;
    TenTimesBound(Val(s), s[|s| - 1], Pow(BASE, |s| - 1));
  }

  lemma TenTimesBound(v: nat, top: nat, p: nat)
    requires v < (top + 1) * p && top < 0x1000_0000
    ensures 10 * v < BASE * p
  {
    MulMono(top + 1, 0x1000_0000, p);
  }

  /** After a subtraction: give up the top word when it became zero, and any zeros below it,
      but never word 0. */
  method TrimRemainder(b: Bigint, top: nat)
    requires b.Valid() && b.wds == top + 1
    modifies b
    ensures b.Valid() && Normal(b.Digits()) && b.sign == old(b.sign)
    ensures b.Value() == Val(b.x[..top + 1])
    ensures b.wds <= top + 1 && (b.wds >= 1 || b.x[0] == 0)
  {
    if b.x[top] == 0 {
      var n, e := top, top - 1;
      while e > 0 && b.x[e] == 0
        invariant -1 <= e == n - 1
        invariant forall i :: n <= i <= top ==> b.x[i] == 0
      {
        e, n := e - 1, n - 1;
      }
      b.wds := n;
      ghost var s := b.x[..top + 1];
      ValZeroTail(s, n);
      assert s[..n] == b.x[..n];
    }
  }

  lemma DivisionUnique(b: nat, s: nat, q: nat, r: nat)
    requires s > 0 && b == q * s + r && r < s
    ensures q == b / s && r == b % s
  {
    RemainderUnique(b, s, q, r);
  }

  /** The one-word quotient estimate. */
  method Estimate(b: Bigint, S: Bigint) returns (q: int)
    requires b.Valid() && S.Valid() && b.wds == S.wds
    requires Divisor(S.Digits()) && b.Value() < 10 * S.Value()
    ensures q * S.Value() <= b.Value() < (q + 2) * S.Value() && 0 <= q <= 9
  {
    ghost var s, t := b.Digits(), S.Digits();
    QuotientEstimate(s, t);
    q := Guess(b.x[b.wds - 1], S.x[b.wds - 1]);
  }

  /** quorem: divides b by S in place, returning the one-digit quotient and leaving the remainder. */
  method QuoRem(b: Bigint, S: Bigint) returns (q: int)
    requires b != S && b.x != S.x && b.Valid() && S.Valid()
    requires Normal(b.Digits()) && Divisor(S.Digits()) && b.Value() < 10 * S.Value()
    modifies b, b.x
    ensures b.Valid() && Normal(b.Digits()) && b.sign == old(b.sign)
    ensures S.Value() > 0 && q == old(b.Value()) / S.Value() && b.Value() == old(b.Value()) % S.Value()
    ensures 0 <= q <= 9 && b.wds <= S.wds
    ensures old(b.wds) >= 1 ==> b.wds >= 1 || b.x[0] == 0
  {
    hide Val;
    hide Pow;
    ghost var v, vs := b.Value(), S.Value();
    var n := S.wds;
    DividendLength(b.Digits(), S.Digits());
    DivisorPositive(S.Digits());
    if b.wds < n {
      ValLonger(b.Digits(), S.Digits());
      QuotientDone(v, vs, 0, v);
      return 0;
    }
    q := Estimate(b, S);
    if q != 0 {
      TakeAway(b, S, q);
    }
    assert b.Value() == v - q * vs;
    EstimateLeft(v, vs, q);
    var c := Cmp(b, S);
    if c >= 0 {
      EnoughWords(b.Digits(), S.Digits());
      TakeAway(b, S, 1);
      EstimateLeft(v, vs, q);
      q := q + 1;
    }
    QuotientDone(v, vs, q, b.Value());
  }

  lemma DivisorPositive(s: seq<Word>)
    requires Divisor(s)
    ensures Val(s) > 0
  {
    ValueOfNormal(s);
    PowPositive(BASE, |s| - 1);
  }

  lemma EstimateLeft(v: nat, s: nat, q: nat)
    requires q * s <= v < (q + 2) * s
    ensures v - q * s < 2 * s && (q + 1) * s == q * s + s && 1 * s == s && 0 * s == 0
  {}

  lemma EnoughWords(b: seq<Word>, s: seq<Word>)
    requires Divisor(s) && |b| <= |s| && Val(b) >= Val(s)
    ensures |b| == |s|
  {
    if |b| < |s| { ValLonger(b, s); }
  }

  lemma QuotientDone(v: nat, s: nat, q: nat, r: nat)
    requires s > 0 && r == v - q * s && r < s && v < 10 * s
    ensures q == v / s && r == v % s && q <= 9
  {
    DivisionUnique(v, s, q, r);
    if q >= 10 { MulMono(10, q, s); }
  }

  /** One subtraction loop of quorem with the trimming that follows it. */
  method TakeAway(b: Bigint, S: Bigint, q: Word)
    requires b != S && b.x != S.x && b.Valid() && S.Valid() && b.wds == S.wds >= 1
    requires q * S.Value() <= b.Value()
    modifies b, b.x
    ensures b.Valid() && Normal(b.Digits()) && b.sign == old(b.sign) && b.wds <= S.wds
    ensures b.Value() == old(b.Value()) - q * S.Value()
    ensures b.wds >= 1 || b.x[0] == 0
  {
    SubtractMultiple(b.x, S.x, S.wds, q);
    TrimRemainder(b, S.wds - 1);
  }

  // ----- pow5mult -----

  /** The list p5s of powers of five that pow5mult extends on demand. */
  class PowersOfFive {
    var p5s: seq<Bigint>

    ghost predicate Valid()
      reads this, p5s, set i | 0 <= i < |p5s| :: p5s[i].x
    {
      forall i :: 0 <= i < |p5s| ==> p5s[i].Valid() && p5s[i].Value() == Pow(5, Pow(2, i + 2))
    }

    ghost predicate Owns(b: Bigint)
      reads this, p5s
    {
      b in p5s || exists i :: 0 <= i < |p5s| && p5s[i].x == b.x
    }

    constructor ()
      ensures Valid() && p5s == []
    {
      p5s := [];
    }

    /** The i-th cached power, computed by squaring the one before it when it is missing. */
    method Extend(i: nat)
      requires Valid() && i <= |p5s|
      modifies this
      ensures Valid() && i < |p5s| && old(p5s) <= p5s
      ensures forall j :: old(|p5s|) <= j < |p5s| ==> fresh(p5s[j]) && fresh(p5s[j].x)
    {
      if i == |p5s| {
        var p51;
        if i == 0 {
          p51 := SingleWord(1, 625);
          assert Pow(5, 4) == 625;
          assert Pow(2, 2) == 4;
        } else {
          p51 := Mult(p5s[i - 1], p5s[i - 1]);
          PowSquare(i + 1);
        }
        p5s := p5s + [p51];
      }
    }
  }

  lemma PowSquare(i: nat)
    ensures Pow(5, Pow(2, i)) * Pow(5, Pow(2, i)) == Pow(5, Pow(2, i + 1))
  {
    PowAdd(5, Pow(2, i), Pow(2, i));
  }

  /** A one-word number in a buffer of size class k, as i2b (k = 1) and diff (k = 0) make it. */
  method SingleWord(k: nat, w: Word) returns (b: Bigint)
    ensures fresh(b) && fresh(b.x) && b.Valid() && b.Value() == w && b.wds == 1 && b.sign == 0
  {
    PowPositive(2, k);
    b := new Bigint(k);
    b.x[0] := w;
    b.wds := 1;
    assert b.Digits() == [] + [w];
    ValSnoc([], w);
  }

  const P05: seq<int> := [5, 25, 125]

  /** pow5mult: b * 5^k, by the low two bits of k and then the binary digits of k / 4. */
  method Pow5Mult(st: PowersOfFive, b: Bigint, k: nat) returns (r: Bigint)
    requires st.Valid() && b.Valid() && b.wds >= 1 && !st.Owns(b)
    modifies st, b, b.x
    ensures st.Valid() && old(st.p5s) <= st.p5s
    ensures r.Valid() && r.Value() == old(b.Value()) * Pow(5, k)
    ensures Normal(old(b.Digits())) ==> Normal(r.Digits())
    ensures r == b || (fresh(r) && fresh(r.x))
  {
    ghost var v := b.Value();
    r := b;
    var i := k % 4;
    if i != 0 {
      r := MultAdd(b, P05[i - 1], 0);
    }
    SmallPower(i);
    assert r.Value() == v * Pow(5, i);
    if k / 4 == 0 {
      return;
    }
    r := ChainMult(st, r, k / 4);
    PowersJoin(v, i, k / 4);
  }

  lemma SmallPower(i: nat)
    requires i < 4
    ensures Pow(5, i) == if i == 0 then 1 else P05[i - 1]
  {
    assert Pow(5, 3) == 125;
    assert Pow(5, 2) == 25;
    assert Pow(5, 1) == 5;
  }

  lemma PowersJoin(v: nat, i: nat, k: nat)
    ensures v * Pow(5, i) * Pow(5, 4 * k) == v * Pow(5, i + 4 * k)
  {
    PowAdd(5, i, 4 * k);
  }

  /** The main loop of pow5mult: b * 5^(4k). */
  method ChainMult(st: PowersOfFive, b: Bigint, k0: nat) returns (r: Bigint)
    requires st.Valid() && b.Valid() && k0 > 0
    modifies st
    ensures st.Valid() && old(st.p5s) <= st.p5s
    ensures r.Valid() && r.Value() == b.Value() * Pow(5, 4 * k0)
    ensures Normal(b.Digits()) ==> Normal(r.Digits())
    ensures r == b || (fresh(r) && fresh(r.x))
  {
    hide Val;
    hide Pow;
    var k, j := k0, 0;
    r := b;
    st.Extend(0);
    ChainStart(b.Value(), k0);
    while true
      invariant st.Valid() && old(st.p5s) <= st.p5s && j < |st.p5s| && k > 0
      invariant r.Valid() && (r == b || (fresh(r) && fresh(r.x))) && (Normal(b.Digits()) ==> Normal(r.Digits()))
      invariant r.Value() * Pow(Pow(5, Pow(2, j + 2)), k) == b.Value() * Pow(5, 4 * k0)
      decreases k
    {
      ChainStep(r.Value(), Pow(5, Pow(2, j + 2)), k);
      if k % 2 == 1 {
        r := Mult(r, st.p5s[j]);
      }
      k := k / 2;
      PowSquare(j + 2);
      if k == 0 {
        ChainEnd(Pow(5, Pow(2, j + 3)));
        break;
      }
      st.Extend(j + 1);
      j := j + 1;
    }
  }

  lemma ChainStart(v: nat, k: nat)
    ensures v * Pow(Pow(5, Pow(2, 2)), k) == v * Pow(5, 4 * k)
  {
    assert Pow(2, 2) == 4;
    PowMul(5, 4, k);
  }

  lemma ChainEnd(p: nat)
    ensures Pow(p, 0) == 1
  {}

  /** One binary digit of the exponent: square the base, keep the product. */
  lemma ChainStep(v: nat, p: nat, k: nat)
    requires k > 0
    ensures v * Pow(p, k) == (if k % 2 == 1 then v * p else v) * Pow(p * p, k / 2)
  {
    hide *;
    PowHalf(p, k);
    Regroup(v, p, Pow(p * p, k / 2));
  }

  lemma Regroup(v: nat, p: nat, h: nat)
    ensures v * (p * h) == (v * p) * h
  {}

  lemma PowHalf(p: nat, k: nat)
    requires k > 0
    ensures Pow(p, k) == if k % 2 == 1 then p * Pow(p * p, k / 2) else Pow(p * p, k / 2)
  {
    assert Pow(p, 2) == p * p by { assert Pow(p, 1) == p; }
    assert Pow(p, k) == p * Pow(p, k - 1);
    hide *;
    PowMul(p, 2, k / 2);
    assert k == 2 * (k / 2) + k % 2;
  }

  // ----- decimal digits -----

  /** The number that decimal digits denote, most significant first. */
  function FromDigits(ds: seq<int>): int {
    if ds == [] then 0 else 10 * FromDigits(ds[..|ds| - 1]) + ds[|ds| - 1]
  }

  /** The digit loop of dtoa: at most ilim decimal digits of b / S, stopping early only when
      nothing remains. */
  method GenerateDigits(b: Bigint, S: Bigint, ilim: nat) returns (ds: seq<int>, r: Bigint)
    requires b != S && b.x != S.x && b.Valid() && S.Valid() && b.wds >= 1 && ilim >= 1
    requires Normal(b.Digits()) && Divisor(S.Digits()) && b.Value() < 10 * S.Value()
    modifies b, b.x
    ensures r.Valid() && S.Valid() && S.Value() == old(S.Value()) && 1 <= |ds| <= ilim
    ensures forall i :: 0 <= i < |ds| ==> 0 <= ds[i] <= 9
    ensures old(b.Value()) * Pow(10, |ds| - 1) == FromDigits(ds) * S.Value() + r.Value()
    ensures r.Value() < S.Value() && (|ds| < ilim ==> r.Value() == 0)
  {
    hide Val;
    hide Pow;
    hide FromDigits;
    ghost var v, vs := b.Value(), S.Value();
    ds, r := [], b;
    DigitStart(v);
    while true
      invariant r.Valid() && S.Valid() && r != S && r.x != S.x && r.wds >= 1
      invariant r == b || (fresh(r) && fresh(r.x))
      invariant S.Digits() == old(S.Digits()) && Normal(r.Digits()) && r.Value() < 10 * vs
      invariant |ds| < ilim && forall i :: 0 <= i < |ds| ==> 0 <= ds[i] <= 9
      invariant v * Pow(10, |ds|) == 10 * (FromDigits(ds) * vs) + r.Value()
      decreases ilim - |ds|
    {
      ghost var before := r.Value();
      var q := QuoRem(r, S);
      DigitStep(v, vs, ds, before, q, r.Value());
      ds := ds + [q];
      var zero := r.x[0] == 0 && r.wds <= 1;
      ZeroTest(r, zero);
      if zero || |ds| >= ilim {
        return;
      }
      r := MultAdd(r, 10, 0);
    }
  }

  lemma DigitStart(v: nat)
    ensures Pow(10, 0) == 1 && FromDigits([]) == 0
  {}

  lemma ZeroTest(b: Bigint, zero: bool)
    requires b.Valid() && Normal(b.Digits()) && (b.wds >= 1 || (b.x.Length > 0 && b.x[0] == 0))
    requires b.x.Length > 0 && zero == (b.x[0] == 0 && b.wds <= 1)
    ensures zero <==> b.Value() == 0
    ensures !zero ==> b.wds >= 1
  {
    if b.wds > 1 {
      ValueOfNormal(b.Digits());
      PowPositive(BASE, b.wds - 1);
    } else if b.wds == 1 {
      assert b.Digits() == [] + [b.x[0]];
      ValSnoc([], b.x[0]);
    }
  }

  lemma DigitStep(v: nat, s: nat, ds: seq<int>, before: nat, q: int, after: nat)
    requires s > 0 && v * Pow(10, |ds|) == 10 * (FromDigits(ds) * s) + before
    requires q == before / s && after == before % s
    ensures v * Pow(10, |ds|) == FromDigits(ds + [q]) * s + after
    ensures v * Pow(10, |ds| + 1) == 10 * (FromDigits(ds + [q]) * s) + 10 * after
    ensures after < s
  {
    FromDigitsSnoc(ds, q);
    hide *;
    DigitSum(FromDigits(ds), s, before, q, after);
    TenfoldProduct(v, Pow(10, |ds|));
  }

  lemma FromDigitsSnoc(ds: seq<int>, q: int)
    ensures FromDigits(ds + [q]) == 10 * FromDigits(ds) + q && Pow(10, |ds| + 1) == 10 * Pow(10, |ds|)
  {
    assert (ds + [q])[..|ds|] == ds;
  }

  lemma TenfoldProduct(v: nat, p: nat)
    ensures v * (10 * p) == 10 * (v * p)
  {}

  lemma DigitSum(d: int, s: nat, before: nat, q: int, after: nat)
    requires s > 0 && q == before / s && after == before % s
    ensures 10 * (d * s) + before == (10 * d + q) * s + after && after < s
  {
    assert before == q * s + after;
    assert (10 * d + q) * s == 10 * (d * s) + q * s;
  }

  // ----- the shift that prepares a division -----

  /** hi0bits: the number of leading zero bits of a word, by halving the range. */
  method Hi0Bits(x0: Word) returns (k: nat)
    ensures x0 == 0 ==> k == 32
    ensures x0 != 0 ==> k <= 31 && 0x8000_0000 <= x0 * Pow(2, k) < BASE
  {
    BitPowers();
    hide Pow;
    var x: int := x0;
    k := 0;
    if x < 0x1_0000 { k, x := 16, x * 0x1_0000; }
    if x < 0x100_0000 { ScaleBits(x0, k, 8); k, x := k + 8, x * 0x100; }
    if x < 0x1000_0000 { ScaleBits(x0, k, 4); k, x := k + 4, x * 0x10; }
    if x < 0x4000_0000 { ScaleBits(x0, k, 2); k, x := k + 2, x * 4; }
    if x < 0x8000_0000 {
      ScaleBits(x0, k, 1);
      k := k + 1;
      if x < 0x4000_0000 { return 32; }
    }
  }

  lemma ScaleBits(x: nat, k: nat, n: nat)
    ensures x * Pow(2, k + n) == (x * Pow(2, k)) * Pow(2, n)
  {
    PowAdd(2, k, n);
    hide *;
    assert x * (Pow(2, k) * Pow(2, n)) == (x * Pow(2, k)) * Pow(2, n);
  }

  lemma BitPowers()
    ensures Pow(2, 0) == 1 && Pow(2, 1) == 2 && Pow(2, 2) == 4 && Pow(2, 4) == 16
    ensures Pow(2, 8) == 0x100 && Pow(2, 16) == 0x1_0000
  {
    assert Pow(2, 4) == 16;
    PowAdd(2, 4, 4);
    PowAdd(2, 8, 8);
  }

  /** How far dtoa shifts a divisor of nb significant top-word bits that is due a shift of s2. */
  function Alignment(nb: nat, s2: nat): (i: nat)
    ensures (nb + s2 + i) % 32 == 28
  {
    var r := (nb + s2) % 32;
    var i := if r != 0 then 32 - r else 0;
    if i > 4 then i - 4 else if i < 4 then i + 28 else 0
  }

  /** A shift that puts the leading bit at position 27 of a word makes a divisor for quorem. */
  lemma AlignedDivisor(s: seq<Word>, nb: nat, k: nat, r: seq<Word>)
    requires |s| >= 1 && 1 <= nb <= 32 && Pow(2, nb - 1) <= s[|s| - 1] as int < Pow(2, nb)
    requires (nb + k) % 32 == 28
    requires Val(r) == Val(s) * Pow(2, k) && |r| >= 1 && r[|r| - 1] != 0
    ensures Divisor(r)
  {
    hide *;
    var n := 32 * (|s| - 1) + nb;
    SignificantBits(s, nb);
    PowAdd(2, n - 1, k);
    PowAdd(2, n, k);
    PowPositive(2, k);
    ScaleBetween(Pow(2, n - 1), Val(s), Pow(2, n), Pow(2, k));
    var w := |s| - 1 + (nb + k) / 32;
    assert n + k == 32 * w + 28 && n - 1 + k == 32 * w + 27;
    TopWord(r, w);
  }

  lemma ScaleBetween(a: nat, b: nat, c: nat, k: nat)
    requires a <= b < c && k > 0
    ensures a * k <= b * k < c * k
  {
    MulMono(a, b, k);
    MulMono(b + 1, c, k);
  }

  lemma SignificantBits(s: seq<Word>, nb: nat)
    requires |s| >= 1 && 1 <= nb <= 32 && Pow(2, nb - 1) <= s[|s| - 1] as int < Pow(2, nb)
    ensures Pow(2, 32 * (|s| - 1) + nb - 1) <= Val(s) < Pow(2, 32 * (|s| - 1) + nb)
  {
    var n, top: int := |s| - 1, s[|s| - 1];
    PowShift(n, nb - 1);
    PowShift(n, nb);
    var p: nat := Pow(BASE, n);
    hide *;
    ValTop(s);
    MulMono(Pow(2, nb - 1), top, p);
    MulMono(top + 1, Pow(2, nb), p);
  }

  lemma TopWord(r: seq<Word>, n: nat)
    requires |r| >= 1 && r[|r| - 1] != 0
    requires Pow(2, 32 * n + 27) <= Val(r) < Pow(2, 32 * n + 28)
    ensures Divisor(r)
  {
    PowShift(n, 27);
    PowShift(n, 28);
    BitPowers();
    assert Pow(2, 27) == 0x800_0000 && Pow(2, 28) == 0x1000_0000 by {
      PowAdd(2, 16, 8);
      PowAdd(2, 24, 2);
      PowAdd(2, 26, 1);
      PowAdd(2, 27, 1);
    }
    var p: nat := Pow(BASE, n);
    WordCount(r, n, p);
    ValTop(r);
    var top: int := r[n];
    hide *;
    TopBetween(Val(r), top, p);
  }

  lemma WordCount(r: seq<Word>, n: nat, p: nat)
    requires |r| >= 1 && r[|r| - 1] != 0 && p == Pow(BASE, n)
    requires p <= Val(r) < BASE * p
    ensures |r| == n + 1
  {
    assert Pow(BASE, n + 1) == BASE * p;
    assert Pow(BASE, |r| - 1) <= Val(r) by { ValueOfNormal(r); }
    ValBound(r);
    if |r| <= n { PowMonotone(BASE, |r|, n); }
    if |r| > n + 1 { PowMonotone(BASE, n + 1, |r| - 1); }
  }

  lemma TopBetween(v: nat, top: nat, p: nat)
    requires top * p <= v < (top + 1) * p && 0x800_0000 * p <= v < 0x1000_0000 * p
    ensures 0x800_0000 <= top < 0x1000_0000
  {
    if top < 0x800_0000 { MulMono(top + 1, 0x800_0000, p); }
    if top >= 0x1000_0000 { MulMono(0x1000_0000, top, p); }
  }

  /** The preparation of dtoa: dividend and divisor are shifted further by the same amount,
      so the quotient is that of b * 2^b2 and S * 2^s2, and S becomes a divisor for quorem. */
  method PrepareDivision(b: Bigint, S: Bigint, b2: nat, s2: nat) returns (b': Bigint, S': Bigint, i: nat)
    requires b.Valid() && S.Valid() && b.wds >= 1 && S.wds >= 1 && b != S && b.x != S.x
    requires S.x[S.wds - 1] != 0 && b.x[b.wds - 1] != 0
    ensures b'.Valid() && S'.Valid() && b'.Value() == b.Value() * Pow(2, b2 + i)
    ensures S'.Value() == S.Value() * Pow(2, s2 + i) && Divisor(S'.Digits())
    ensures Normal(b'.Digits()) && b'.wds >= 1 && b' != S' && b'.x != S'.x
  {
    hide Val;
    hide Pow;
    var z := Hi0Bits(S.x[S.wds - 1]);
    var nb := 32 - z;
    LeadingBits(S.x[S.wds - 1], z);
    i := Alignment(nb, s2);
    b', S' := b, S;
    ShiftByZero(b.Value());
    ShiftByZero(S.Value());
    if b2 + i > 0 {
      b' := LShift(b, b2 + i);
    }
    if s2 + i > 0 {
      S' := LShift(S, s2 + i);
    }
    AlignedDivisor(S.Digits(), nb, s2 + i, S'.Digits());
  }

  lemma ShiftByZero(v: nat)
    ensures v * Pow(2, 0) == v
  {}

  lemma LeadingBits(x: Word, z: nat)
    requires x != 0 && z <= 31 && 0x8000_0000 <= x * Pow(2, z) < BASE
    ensures Pow(2, 31 - z) <= x as int < Pow(2, 32 - z)
  {
    ShiftFactors(z);
    var q, p := Pow(2, 31 - z), Pow(2, z);
    assert Pow(2, 32 - z) == 2 * q;
    hide *;
    HalfProduct(p, q);
    FactorBetween(x, q, p);
  }

  lemma HalfProduct(p: nat, q: nat)
    requires p * (2 * q) == 0x1_0000_0000
    ensures p * q == 0x8000_0000
  {
    assert p * (2 * q) == 2 * (p * q);
  }

  lemma FactorBetween(x: nat, q: nat, p: nat)
    requires p * q == 0x8000_0000 && 0x8000_0000 <= x * p < 0x1_0000_0000
    ensures q <= x < 2 * q
  {
    if x < q { MulMono(x + 1, q, p); }
    if x >= 2 * q { MulMono(2 * q, x, p); }
  }
}
