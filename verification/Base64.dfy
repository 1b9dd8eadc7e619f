/** The base 64 coding of src/base64.c, against section 4 of RFC 4648. */
module Base64 {
  import opened Bytes
  import opened Options
  import Words

  type Sextet = n: nat | n < 64

  /** The alphabet: table 1 of RFC 4648 */
  function Letter(v: Sextet): (c: Byte)
    ensures c != 0 && c != PAD
  {
    if v < 26 then 65 + v else if v < 52 then 97 + (v - 26) else if v < 62 then 48 + (v - 52)
    else if v == 62 then 43 else 47
  }

  const PAD: Byte := 61

  /** map2, with None for 0xff and for what is outside the table */
  function Index(c: Byte): Option<Sextet> {
    if c == 43 then Some(62) else if c == 47 then Some(63)
    else if 48 <= c <= 57 then Some(c - 48 + 52)
    else if 65 <= c <= 90 then Some(c - 65)
    else if 97 <= c <= 122 then Some(c - 97 + 26)
    else None
  }

  const ALPHABET: string := CAPITALS + SMALL + "0123456789+/"

  /** The letters are those of the table, in its order, and nothing else is one. */
  lemma AlphabetIs(c: Byte, v: Sextet)
    ensures |ALPHABET| == 64 && Letter(v) == ALPHABET[v] as int && PAD == '=' as int
    ensures Index(c) == Some(v) <==> c == ALPHABET[v] as int
    ensures Index(c).Some? ==> Letter(Index(c).value) == c
  {
    TableIs(v);
    hide ALPHABET;
  }

  lemma TableIs(v: Sextet)
    ensures |ALPHABET| == 64 && ALPHABET[v] as int == Letter(v)
  {
    var digits := "0123456789+/";
    assert ALPHABET == CAPITALS + SMALL + digits;
    if v < 26 {
      Alphabets(v);
    } else if v < 52 {
      Alphabets(v - 26);
    } else {
      assert digits[v - 52] as int == Letter(v);
    }
    hide ALPHABET, CAPITALS, SMALL;
  }

  lemma IndexOfLetter(v: Sextet)
    ensures Index(Letter(v)) == Some(v)
  {}

  // ----- the encoding of the standard -----

  /** How many characters carry bits of n bytes */
  function Count(n: nat): (k: nat)
    ensures 6 * k - 6 < 8 * n <= 6 * k
  {
    (8 * n + 5) / 6
  }

  function At(src: seq<Byte>, i: nat): Byte { if i < |src| then src[i] else 0 }

  /** Six bits of the input, from bit 6j on, with zeros after its end */
  function SextetAt(src: seq<Byte>, j: nat): (v: Sextet) {
    var g := j / 4 * 3;
    if j % 4 == 0 then At(src, g) / 4
    else if j % 4 == 1 then At(src, g) % 4 * 16 + At(src, g + 1) / 16
    else if j % 4 == 2 then At(src, g + 1) % 16 * 4 + At(src, g + 2) / 64
    else At(src, g + 2) % 64
  }

  lemma Powers()
    ensures Words.Pow(2, 0) == 1 && Words.Pow(2, 2) == 4 && Words.Pow(2, 4) == 16 && Words.Pow(2, 6) == 64
    ensures Words.Pow(2, 8) == 256 && Words.Pow(2, 10) == 1024
  {
    assert Words.Pow(2, 1) == 2 && Words.Pow(2, 3) == 8 && Words.Pow(2, 5) == 32 && Words.Pow(2, 7) == 128;
    assert Words.Pow(2, 9) == 512;
  }

  /** The bits of six bits from two bytes, d bits before their end */
  lemma WindowBits(x: Byte, y: Byte, d: nat, v: Sextet, m: nat)
    requires Words.Pow(2, d) > 0 && v == (x * 256 + y) / Words.Pow(2, d) % 64 && m < 6
    ensures Words.Bit(v, 5 - m) == if d + 5 - m < 8 then Words.Bit(y, d + 5 - m) else Words.Bit(x, d - m - 3)
  {
    Powers();
    hide *;
    Words.PartBits(x * 256 + y, d, 6, 5 - m);
    Words.JoinedBits(x, y, 8, d + 5 - m);
  }

  lemma Windows(x: Byte, y: Byte)
    ensures x / 4 == (x * 256 + y) / 1024 % 64 && x % 4 * 16 + y / 16 == (x * 256 + y) / 16 % 64
    ensures x % 16 * 4 + y / 64 == (x * 256 + y) / 64 % 64 && y % 64 == (x * 256 + y) / 1 % 64
  {
    SixBits(x * 256 + y, 1024, 0, x / 4, x % 4 * 256 + y);
    SixBits(x * 256 + y, 16, x / 4, x % 4 * 16 + y / 16, y % 16);
    SixBits(x * 256 + y, 64, x / 16, x % 16 * 4 + y / 64, y % 64);
    SixBits(x * 256 + y, 1, 4 * x + y / 64, y % 64, 0);
  }

  /** The bits of the input, most significant first, are those of its characters. */
  lemma SextetBits(src: seq<Byte>, j: nat, m: nat)
    requires m < 6
    ensures Words.Bit(SextetAt(src, j), 5 - m) == Words.Bit(At(src, (6 * j + m) / 8), 7 - (6 * j + m) % 8)
  {
    var i := if j % 4 < 2 then j / 4 * 3 else j / 4 * 3 + 1;
    var d := if j % 4 == 0 then 10 else if j % 4 == 1 then 4 else if j % 4 == 2 then 6 else 0;
    PlaceOf(j, m, i, d);
    WindowOf(src, j, i, d);
    hide *;
    WindowBits(At(src, i), At(src, i + 1), d, SextetAt(src, j), m);
  }

  /** Which bit of the two bytes in which a character lies is bit m of it */
  lemma PlaceOf(j: nat, m: nat, i: nat, d: nat)
    requires m < 6 && i == if j % 4 < 2 then j / 4 * 3 else j / 4 * 3 + 1
    requires d == if j % 4 == 0 then 10 else if j % 4 == 1 then 4 else if j % 4 == 2 then 6 else 0
    ensures var b := 6 * j + m;
            if d + 5 - m < 8 then b / 8 == i + 1 && 7 - b % 8 == d + 5 - m else b / 8 == i && 7 - b % 8 == d - m - 3
  {
    var r := j % 4;
    var n := 6 * r + m;
    assert 6 * j + m == 8 * (j / 4 * 3) + n;
    assert n / 8 == (if r == 0 || (r == 1 && m < 2) then 0 else if r == 3 || (r == 2 && m >= 4) then 2 else 1);
  }

  lemma WindowOf(src: seq<Byte>, j: nat, i: nat, d: nat)
    requires i == if j % 4 < 2 then j / 4 * 3 else j / 4 * 3 + 1
    requires d == if j % 4 == 0 then 10 else if j % 4 == 1 then 4 else if j % 4 == 2 then 6 else 0
    ensures Words.Pow(2, d) > 0
    ensures SextetAt(src, j) == (At(src, i) * 256 + At(src, i + 1)) / Words.Pow(2, d) % 64
  {
    Powers();
    Windows(At(src, i), At(src, i + 1));
    hide At, Words.Pow;
  }

  /** Section 4: a letter for every six bits, and padding up to a multiple of four */
  ghost predicate IsEncoding(src: seq<Byte>, s: seq<Byte>) {
    && |s| == (|src| + 2) / 3 * 4
    && forall j :: 0 <= j < |s| ==> s[j] == if j < Count(|src|) then Letter(SextetAt(src, j)) else PAD
  }

  /** Test vectors of section 10: f, fo and foo */
  lemma Vectors()
    ensures IsEncoding([102], [90, 103, 61, 61]) && IsEncoding([102, 111], [90, 109, 56, 61])
    ensures IsEncoding([102, 111, 111], [90, 109, 57, 118])
  {
    assert SextetAt([102], 0) == 25 && SextetAt([102], 1) == 32;
    assert SextetAt([102, 111], 0) == 25 && SextetAt([102, 111], 1) == 38 && SextetAt([102, 111], 2) == 60;
    assert SextetAt([102, 111, 111], 0) == 25 && SextetAt([102, 111, 111], 1) == 38;
    assert SextetAt([102, 111, 111], 2) == 61 && SextetAt([102, 111, 111], 3) == 47;
  }

  // ----- encoding -----

  /** The bits that a byte leaves for the next characters, after i bytes */
  function Pending(i: nat): nat { if i == 0 then 0 else if i % 3 == 1 then 2 else if i % 3 == 2 then 4 else 6 }

  /** b64[(i_bits << 6 >> i_shift) & 0x3f] on 32-bit unsigned numbers, for the shifts that occur */
  function Shifted(bits: nat, shift: nat): (v: Sextet)
    requires shift in {2, 4, 6, 8, 10, 12, 14}
  {
    var x := bits * 64 % 0x1_0000_0000;
    (if shift == 2 then x / 4 else if shift == 4 then x / 16 else if shift == 6 then x / 64
     else if shift == 8 then x / 256 else if shift == 10 then x / 1024 else if shift == 12 then x / 4096
     else x / 16384) % 64
  }

  /** What the accumulator holds after i bytes: at its end the bits that are not out */
  ghost predicate Holds(bits: nat, src: seq<Byte>, i: nat) {
    bits < 0x1_0000_0000 && (0 < i <= |src| ==> bits % 256 == src[i - 1])
  }

  function Take(bits: nat, b: Byte): nat { (bits * 256 + b) % 0x1_0000_0000 }

  lemma TakeHolds(bits: nat, src: seq<Byte>, i: nat)
    requires Holds(bits, src, i) && i < |src|
    ensures Holds(Take(bits, src[i]), src, i + 1) && LastTwo(src, i, Take(bits, src[i]))
  {
    TakeBytes(bits, src[i]);
    var p: Byte := bits % 256;
    assert TwoBytes(Take(bits, src[i]), p, src[i]);
  }

  lemma TakeBytes(bits: nat, b: Byte)
    ensures Take(bits, b) % 0x1_0000 == bits % 256 * 256 + b && Take(bits, b) % 256 == b
  {
    var x := bits * 256 + b;
    ModMod(x, 0x1_0000, 0x1_0000);
    ModMod(x, 0x100_0000, 256);
    var h := bits / 256;
    assert x == 0x1_0000 * h + (bits % 256 * 256 + b);
    Words.Division(x, 0x1_0000, h, bits % 256 * 256 + b);
    Words.Division(x, 256, bits, b);
  }

  /** A remainder of a remainder */
  lemma ModMod(x: nat, k: nat, m: nat)
    requires k > 0 && m > 0
    ensures k * m > 0 && x % (k * m) % m == x % m
  {
    var d := k * m;
    Words.MulMono(1, k, m);
    var q, r := x / d, x % d;
    Regroup(k, m, q, r / m);
    Words.Division(x, m, k * q + r / m, r % m);
  }

  lemma Regroup(k: nat, m: nat, q: nat, h: nat)
    ensures k * m * q + m * h == m * (k * q + h)
  {
    assert k * m * q == m * (k * q);
  }

  /** The shifted number, in the bytes that it is made of */
  lemma ShiftedParts(bits: nat, p: Byte, b: Byte) returns (h: nat)
    requires bits % 0x1_0000 == p * 256 + b
    ensures h < 1024 && bits * 64 % 0x1_0000_0000 == 0x40_0000 * h + 0x4000 * p + 0x40 * b
  {
    var q := bits / 0x1_0000;
    h := q % 1024;
    var r := q / 1024;
    assert bits == 0x1_0000 * (1024 * r + h) + p * 256 + b;
    assert bits * 64 == 0x1_0000_0000 * r + (0x40_0000 * h + 0x4000 * p + 0x40 * b);
  }

  /** Six bits of a number that is split around them */
  lemma SixBits(x: nat, d: nat, high: nat, v: Sextet, low: nat)
    requires d > 0 && low < d && x == d * (64 * high + v) + low
    ensures x / d % 64 == v
  {
    Words.Division(x, d, 64 * high + v, low);
  }

  /** What comes out for each shift, when the last two bytes are p and b */
  lemma ShiftedIs(bits: nat, p: Byte, b: Byte)
    requires bits % 0x1_0000 == p * 256 + b
    ensures Shifted(bits, 2) == b % 4 * 16 && Shifted(bits, 4) == b % 16 * 4 && Shifted(bits, 6) == b % 64
    ensures Shifted(bits, 8) == b / 4 && Shifted(bits, 10) == p % 4 * 16 + b / 16
    ensures Shifted(bits, 12) == p % 16 * 4 + b / 64 && Shifted(bits, 14) == p % 64
  {
    var h := ShiftedParts(bits, p, b);
    var x := 0x40_0000 * h + 0x4000 * p + 0x40 * b;
    hide *;
    SixBits(x, 4, 0x4000 * h + 0x40 * p + b / 4, b % 4 * 16, 0);
    SixBits(x, 16, 0x1000 * h + 0x10 * p + b / 16, b % 16 * 4, 0);
    SixBits(x, 64, 0x400 * h + 4 * p + b / 64, b % 64, 0);
    SixBits(x, 256, 0x100 * h + p, b / 4, b % 4 * 64);
    SixBits(x, 1024, 0x40 * h + p / 4, p % 4 * 16 + b / 16, b % 16 * 64);
    SixBits(x, 4096, 0x10 * h + p / 16, p % 16 * 4 + b / 64, b % 64 * 64);
    SixBits(x, 16384, 4 * h + p / 64, p % 64, b * 64);
    ShiftedUnfold(bits, x);
  }

  lemma ShiftedUnfold(bits: nat, x: nat)
    requires bits * 64 % 0x1_0000_0000 == x
    ensures Shifted(bits, 2) == x / 4 % 64 && Shifted(bits, 4) == x / 16 % 64 && Shifted(bits, 6) == x / 64 % 64
    ensures Shifted(bits, 8) == x / 256 % 64 && Shifted(bits, 10) == x / 1024 % 64
    ensures Shifted(bits, 12) == x / 4096 % 64 && Shifted(bits, 14) == x / 16384 % 64
  {}

  // ----- which character comes next -----

  lemma SextetOf(src: seq<Byte>, g: nat)
    ensures SextetAt(src, 4 * g) == At(src, 3 * g) / 4
    ensures SextetAt(src, 4 * g + 1) == At(src, 3 * g) % 4 * 16 + At(src, 3 * g + 1) / 16
    ensures SextetAt(src, 4 * g + 2) == At(src, 3 * g + 1) % 16 * 4 + At(src, 3 * g + 2) / 64
    ensures SextetAt(src, 4 * g + 3) == At(src, 3 * g + 2) % 64
  {}

  /** The accumulator holds character j at this shift. */
  ghost predicate Next(src: seq<Byte>, bits: nat, shift: int, j: nat) {
    shift in {2, 4, 6, 8, 10, 12, 14} && Shifted(bits, shift) == SextetAt(src, j)
  }

  /** The two last bytes, with 0 before the first */
  ghost predicate LastTwo(src: seq<Byte>, i: nat, bits: nat) {
    i < |src| && exists p: Byte :: TwoBytes(bits, p, src[i]) && (i > 0 ==> p == src[i - 1])
  }

  ghost predicate TwoBytes(bits: nat, p: nat, b: nat) { bits % 0x1_0000 == p * 256 + b }

  lemma NextFirst(src: seq<Byte>, g: nat, bits: nat)
    requires LastTwo(src, 3 * g, bits)
    ensures g > 0 ==> Next(src, bits, 14, 4 * g - 1)
    ensures Next(src, bits, 8, 4 * g)
    ensures 3 * g + 1 == |src| ==> Next(src, bits, 2, 4 * g + 1)
  {
    var i := 3 * g;
    var p: Byte :| TwoBytes(bits, p, src[i]) && (i > 0 ==> p == src[i - 1]);
    ShiftedIs(bits, p, src[i]);
    SextetOf(src, g);
    if g > 0 {
      SextetOf(src, g - 1);
    }
    hide Shifted;
    hide SextetAt;
    hide TwoBytes;
  }

  lemma NextSecond(src: seq<Byte>, g: nat, bits: nat)
    requires LastTwo(src, 3 * g + 1, bits)
    ensures Next(src, bits, 10, 4 * g + 1)
    ensures 3 * g + 2 == |src| ==> Next(src, bits, 4, 4 * g + 2)
  {
    var i := 3 * g + 1;
    var p: Byte :| TwoBytes(bits, p, src[i]) && (i > 0 ==> p == src[i - 1]);
    ShiftedIs(bits, p, src[i]);
    SextetOf(src, g);
    hide Shifted;
    hide SextetAt;
    hide TwoBytes;
  }

  lemma NextThird(src: seq<Byte>, g: nat, bits: nat)
    requires LastTwo(src, 3 * g + 2, bits)
    ensures Next(src, bits, 12, 4 * g + 2) && Next(src, bits, 6, 4 * g + 3)
  {
    var i := 3 * g + 2;
    var p: Byte :| TwoBytes(bits, p, src[i]) && (i > 0 ==> p == src[i - 1]);
    ShiftedIs(bits, p, src[i]);
    SextetOf(src, g);
    hide Shifted;
    hide SextetAt;
    hide TwoBytes;
  }

  /** Of the bits that have come in, those that have not gone out are the shift. */
  lemma NextIs(src: seq<Byte>, i: nat, bits: nat, shift: int, j: nat)
    requires LastTwo(src, i, bits) && 6 * j + shift == 8 * (i + 1)
    requires 6 < shift <= 14 || (i + 1 == |src| && 0 < shift <= 6)
    requires i == 0 ==> shift <= 8
    ensures Next(src, bits, shift, j)
  {
    var g := i / 3;
    var r := i - 3 * g;
    assert 0 <= r < 3 && 6 * (j - 4 * g) == 8 * (r + 1) - shift;
    hide *;
    if r == 0 {
      NextFirst(src, g, bits);
      assert j == 4 * g - 1 || j == 4 * g || j == 4 * g + 1;
    } else if r == 1 {
      NextSecond(src, g, bits);
      assert j == 4 * g + 1 || j == 4 * g + 2;
    } else {
      NextThird(src, g, bits);
      assert j == 4 * g + 2 || j == 4 * g + 3;
    }
  }

  // ----- encoding -----

  /** The first j characters are in the buffer. */
  ghost predicate Written(src: seq<Byte>, ret: array<Byte>, j: nat)
    reads ret
  {
    j <= ret.Length && forall l :: 0 <= l < j ==> ret[l] == Letter(SextetAt(src, l))
  }

  /** The characters that one more byte completes */
  method Emit(src: seq<Byte>, ret: array<Byte>, j: nat, bits: nat, shift: int, i: nat)
    returns (dst: nat, left: int)
    requires LastTwo(src, i, bits) && 6 * j + shift == 8 * (i + 1) && 6 < shift <= 14 && (i == 0 ==> shift <= 8)
    requires Written(src, ret, j) && 4 * |src| + 36 <= 3 * ret.Length + 2
    modifies ret
    ensures Written(src, ret, dst) && 6 * dst + left == 8 * (i + 1)
    ensures if i + 1 == |src| then -6 < left <= 0 else 0 < left <= 6
  {
    dst, left := j, shift;
    var remaining := |src| - (i + 1);
    var more := true;
    while more
      invariant 6 * dst + left == 8 * (i + 1) && -6 < left <= 14 && (i == 0 ==> left <= 8)
      invariant Written(src, ret, dst)
      invariant (more <==> left > 6 || (remaining == 0 && left > 0)) && (remaining > 0 ==> left > 0)
      decreases left + 6
    {
      NextIs(src, i, bits, left, dst);
      ret[dst] := Letter(Shifted(bits, left));
      dst := dst + 1;
      left := left - 6;
      more := left > 6 || (remaining == 0 && left > 0);
    }
  }

  /** base64_encode: the encoding of the standard, and a zero, in the space that is allocated. */
  method Base64Encode(src: seq<Byte>) returns (ret: array<Byte>, n: nat)
    ensures fresh(ret) && ret.Length == |src| * 4 / 3 + 12
    ensures n < ret.Length && IsEncoding(src, ret[..n]) && ret[n] == 0
  {
    ret := new Byte[|src| * 4 / 3 + 12];
    n := 0;
    var bits, shift := 0, 0;
    var i := 0;
    while i < |src|
      invariant 0 <= i <= |src| && fresh(ret) && Holds(bits, src, i) && Written(src, ret, n)
      invariant 6 * n + shift == 8 * i
      invariant if i == 0 then shift == 0 else if i == |src| then -6 < shift <= 0 else 0 < shift <= 6
    {
      TakeHolds(bits, src, i);
      bits := Take(bits, src[i]);
      n, shift := Emit(src, ret, n, bits, shift + 8, i);
      i := i + 1;
    }
    n := PadOut(src, ret, n);
    ret[n] := 0;
  }

  /** Padding up to a multiple of four */
  method PadOut(src: seq<Byte>, ret: array<Byte>, n0: nat) returns (n: nat)
    requires n0 == Count(|src|) && ret.Length == |src| * 4 / 3 + 12 && Written(src, ret, n0)
    modifies ret
    ensures n < ret.Length && IsEncoding(src, ret[..n])
  {
    hide Letter;
    hide SextetAt;
    ghost var end := (|src| + 2) / 3 * 4;
    PadEnds(|src|);
    hide Count;
    n := n0;
    while n % 4 != 0
      invariant Count(|src|) <= n <= end
      invariant forall l :: 0 <= l < n ==> ret[l] == if l < Count(|src|) then Letter(SextetAt(src, l)) else PAD
      decreases end - n
    {
      ret[n] := PAD;
      n := n + 1;
    }
  }

  lemma PadEnds(k: nat)
    ensures var end := (k + 2) / 3 * 4; end % 4 == 0 && Count(k) <= end < k * 4 / 3 + 12 && end < Count(k) + 4
  {
    var g, r := k / 3, k % 3;
    assert k == 3 * g + r;
    hide *;
    var end := if r == 0 then 4 * g else 4 * g + 4;
    assert (k + 2) / 3 == if r == 0 then g else g + 1;
    assert k * 4 / 3 >= 4 * g;
  }

  // ----- decoding -----

  /** What comes before the padding, or before a zero */
  function Body(s: seq<Byte>, i: nat): (k: nat)
    requires i <= |s|
    ensures i <= k <= |s| && (k < |s| ==> s[k] == 0 || s[k] == PAD)
    ensures forall j :: i <= j < k ==> s[j] != 0 && s[j] != PAD
    decreases |s| - i
  {
    if i == |s| || s[i] == 0 || s[i] == PAD then i else Body(s, i + 1)
  }

  ghost predicate AllLetters(s: seq<Byte>, k: nat)
    requires k <= |s|
  {
    forall j :: 0 <= j < k ==> Index(s[j]).Some?
  }

  function ValueAt(s: seq<Byte>, j: nat): Sextet { if j < |s| && Index(s[j]).Some? then Index(s[j]).value else 0 }

  /** How many bytes k characters make: one for each but the first of every four */
  function Made(k: nat): (n: nat)
    ensures 8 * n <= 6 * k < 8 * n + 8
  {
    k - (k + 3) / 4
  }

  /** The eight bits that two characters make, from the start, the middle or the end of the first one on */
  function Pick(u: Sextet, v: Sextet, r: nat): (b: Byte) {
    (if r == 0 then (u * 64 + v) / 16 else if r == 1 then (u * 64 + v) / 4 else u * 64 + v) % 256
  }

  /** Byte l of what characters mean: eight bits, from bit 8l on */
  function ByteAt(s: seq<Byte>, l: nat): (b: Byte) {
    var i := l / 3 * 4 + l % 3;
    Pick(ValueAt(s, i), ValueAt(s, i + 1), l % 3)
  }

  /** The bits of the characters, most significant first, are those of the bytes they mean. */
  lemma ByteBits(s: seq<Byte>, l: nat, m: nat)
    requires m < 8
    ensures Words.Bit(ByteAt(s, l), 7 - m) == Words.Bit(ValueAt(s, (8 * l + m) / 6), 5 - (8 * l + m) % 6)
  {
    var i := l / 3 * 4 + l % 3;
    var u, v := ValueAt(s, i), ValueAt(s, i + 1);
    assert ByteAt(s, l) == Pick(u, v, l % 3);
    hide *;
    PickBits(u, v, l % 3, m);
    CharacterOf(l, m, i, 2 * (l % 3) + m);
  }

  lemma CharacterOf(l: nat, m: nat, i: nat, k: nat)
    requires m < 8 && i == l / 3 * 4 + l % 3 && k == 2 * (l % 3) + m
    ensures if k < 6 then (8 * l + m) / 6 == i && (8 * l + m) % 6 == k
            else (8 * l + m) / 6 == i + 1 && (8 * l + m) % 6 == k - 6
  {
    assert 8 * l + m == 6 * i + k;
  }

  lemma PickBits(u: Sextet, v: Sextet, r: nat, m: nat)
    requires r < 3 && m < 8
    ensures var k := 2 * r + m;
            Words.Bit(Pick(u, v, r), 7 - m) == if k < 6 then Words.Bit(u, 5 - k) else Words.Bit(v, 11 - k)
  {
    var n := u * 64 + v;
    Powers();
    assert Pick(u, v, r) == n / Words.Pow(2, 4 - 2 * r) % Words.Pow(2, 8);
    hide *;
    Words.PartBits(n, 4 - 2 * r, 8, 7 - m);
    Words.JoinedBits(u, v, 6, 11 - 2 * r - m);
  }

  /** v >> (6 - 2 * (i & 3)), as a byte */
  function ByteOf(v: nat, i: nat): (b: Byte)
    requires i % 4 != 0
  {
    (if i % 4 == 1 then v / 16 else if i % 4 == 2 then v / 4 else v) % 256
  }

  lemma LastByte(v: nat, x: Sextet, y: Sextet, i: nat)
    requires v % 0x1000 == x * 64 + y && i % 4 != 0
    ensures ByteOf(v, i) == Pick(x, y, i % 4 - 1)
  {
    var h := v / 0x1000;
    PickIs(h, x, y);
    PickIs(0, x, y);
    assert v == 0x1000 * h + (x * 64 + y);
  }

  lemma PickIs(h: nat, x: Sextet, y: Sextet)
    ensures var v := 0x1000 * h + (x * 64 + y);
            && v / 16 % 256 == 4 * x + y / 16 && v / 4 % 256 == x % 16 * 16 + y / 4 && v % 256 == x % 4 * 64 + y
  {
    var v := 0x1000 * h + (x * 64 + y);
    EightBits(v, 16, h, 4 * x + y / 16, y % 16);
    EightBits(v, 4, 4 * h + x / 16, x % 16 * 16 + y / 4, y % 4);
    EightBits(v, 1, 16 * h + x / 4, x % 4 * 64 + y, 0);
  }

  /** Eight bits of a number that is split around them */
  lemma EightBits(x: nat, d: nat, high: nat, v: Byte, low: nat)
    requires d > 0 && low < d && x == d * (256 * high + v) + low
    ensures x / d % 256 == v
  {
    Words.Division(x, d, 256 * high + v, low);
  }

  /** The accumulator ends in the values of the last two characters. */
  ghost predicate Ends(v: nat, s: seq<Byte>, i: nat) {
    && v < 0x1_0000_0000 && (i > 0 ==> v % 64 == ValueAt(s, i - 1))
    && (i > 1 ==> v % 0x1000 == ValueAt(s, i - 2) * 64 + ValueAt(s, i - 1))
  }

  function Push(v: nat, x: Sextet): nat { (v * 64 + x) % 0x1_0000_0000 }

  lemma PushEnds(v: nat, s: seq<Byte>, i: nat)
    requires Ends(v, s, i)
    ensures Ends(Push(v, ValueAt(s, i)), s, i + 1)
  {
    var y := ValueAt(s, i);
    hide ValueAt;
    PushValue(v, y);
  }

  lemma PushValue(v: nat, y: Sextet)
    ensures Push(v, y) % 64 == y && Push(v, y) % 0x1000 == v % 64 * 64 + y
  {
    var x, h := v * 64 + y, v / 64;
    ModMod(x, 0x400_0000, 64);
    ModMod(x, 0x10_0000, 0x1000);
    assert x == 0x1000 * h + (v % 64 * 64 + y);
    Words.Division(x, 64, v, y);
    Words.Division(x, 0x1000, h, v % 64 * 64 + y);
  }

  /** Where the byte that character i completes comes */
  lemma MadeNext(i: nat)
    ensures Made(i + 1) == Made(i) + if i % 4 == 0 then 0 else 1
    ensures i % 4 != 0 ==> Made(i) / 3 * 4 + Made(i) % 3 == i - 1 && Made(i) % 3 == i % 4 - 1
  {
    var g := i / 4;
    assert i == 4 * g + i % 4;
    if i % 4 != 0 {
      assert Made(i) == 3 * g + (i % 4 - 1);
    }
  }

  lemma DecodeFirst(out: array<Byte>, s: seq<Byte>)
    ensures Made(0) == 0 && Ends(0, s, 0) && AllLetters(s, 0) && Decoded(out, s, 0)
  {}

  lemma BodyNext(s: seq<Byte>, i: nat)
    requires i < |s| && s[i] != 0 && s[i] != PAD
    ensures PAD == 61 && Body(s, i) == Body(s, i + 1) && (Index(s[i]).None? ==> !AllLetters(s, Body(s, i)))
  {}

  lemma BodyLast(s: seq<Byte>, i: nat)
    requires i == |s| || (i < |s| && (s[i] == 0 || s[i] == PAD))
    ensures Body(s, i) == i
  {}

  /** One more character, and the byte that it completes */
  lemma DecodeNext(v: nat, s: seq<Byte>, i: nat)
    requires Ends(v, s, i) && i < |s| && Index(s[i]).Some? && AllLetters(s, i)
    ensures var w := Push(v, Index(s[i]).value);
            Ends(w, s, i + 1) && (i % 4 != 0 ==> ByteOf(w, i) == ByteAt(s, Made(i)))
    ensures Made(i + 1) == Made(i) + (if i % 4 == 0 then 0 else 1) && AllLetters(s, i + 1)
  {
    PushEnds(v, s, i);
    MadeNext(i);
    assert ValueAt(s, i) == Index(s[i]).value;
    if i % 4 != 0 {
      var w := Push(v, Index(s[i]).value);
      assert w % 0x1000 == ValueAt(s, i - 1) * 64 + ValueAt(s, i);
      LastByte(w, ValueAt(s, i - 1), ValueAt(s, i), i);
      hide Made, ByteOf, Pick, Push, ValueAt, Ends;
    }
  }

  /** The first n bytes of the buffer are those that the characters mean. */
  ghost predicate Decoded(out: array<Byte>, s: seq<Byte>, n: nat)
    reads out
  {
    n <= out.Length && forall l :: 0 <= l < n ==> out[l] == ByteAt(s, l)
  }

  method PutByte(out: array<Byte>, dst: nat, b: Byte, ghost s: seq<Byte>) returns (after: nat)
    requires dst < out.Length && Decoded(out, s, dst) && b == ByteAt(s, dst)
    modifies out
    ensures after == dst + 1 && Decoded(out, s, after)
    ensures forall l :: after <= l < out.Length ==> out[l] == old(out[l])
  {
    out[dst] := b;
    return dst + 1;
  }

  /** base64_decode: the bytes that the characters before the padding mean, as far as there is room; -1 when one of
      the characters is none of the alphabet. */
  method Base64Decode(out: array<Byte>, s: seq<Byte>, outLength: nat) returns (n: int)
    requires outLength <= out.Length
    modifies out
    ensures !AllLetters(s, Body(s, 0)) ==> n == -1
    ensures AllLetters(s, Body(s, 0)) ==>
              var all := Made(Body(s, 0));
              && n == (if all <= outLength then all else outLength)
              && Decoded(out, s, n)
    ensures forall l :: (if n == -1 then outLength else n) <= l < out.Length ==> out[l] == old(out[l])
  {
    var v, dst := 0, 0;
    var i := 0;
    hide *;
    DecodeFirst(out, s);
    while i < |s| && s[i] != 0 && s[i] != PAD
      invariant 0 <= i <= |s| && Body(s, 0) == Body(s, i) && AllLetters(s, i) && Ends(v, s, i)
      invariant dst == if Made(i) <= outLength then Made(i) else outLength
      invariant Decoded(out, s, dst)
      invariant forall l :: dst <= l < out.Length ==> out[l] == old(out[l])
    {
      BodyNext(s, i);
      if Index(s[i]).None? {
        return -1;
      }
      DecodeNext(v, s, i);
      v := Push(v, Index(s[i]).value);
      if i % 4 != 0 {
        if dst < outLength {
          dst := PutByte(out, dst, ByteOf(v, i), s);
        }
      }
      i := i + 1;
    }
    BodyLast(s, i);
    return dst;
  }

  // ----- the round trip -----

  /** Decoding the encoding of any bytes gives the bytes. */
  lemma EncodeThenDecode(src: seq<Byte>, s: seq<Byte>)
    requires IsEncoding(src, s)
    ensures AllLetters(s, Body(s, 0)) && Made(Body(s, 0)) == |src|
    ensures forall l :: 0 <= l < |src| ==> ByteAt(s, l) == src[l]
  {
    var c := Count(|src|);
    forall j | 0 <= j < c ensures Index(s[j]) == Some(SextetAt(src, j)) && ValueAt(s, j) == SextetAt(src, j) {
      IndexOfLetter(SextetAt(src, j));
    }
    BodyIs(src, s);
    forall l | 0 <= l < |src| ensures ByteAt(s, l) == src[l] {
      ByteBack(src, s, l);
    }
  }

  lemma BodyIs(src: seq<Byte>, s: seq<Byte>)
    requires IsEncoding(src, s)
    ensures Body(s, 0) == Count(|src|) && Made(Count(|src|)) == |src|
  {
    var c, k := Count(|src|), Body(s, 0);
    var g, r := |src| / 3, |src| % 3;
    assert |src| == 3 * g + r && c == 4 * g + (if r == 0 then 0 else r + 1);
    assert forall j :: 0 <= j < c ==> s[j] == Letter(SextetAt(src, j)) && s[j] != 0 && s[j] != PAD;
    assert c < |s| ==> s[c] == PAD;
  }

  lemma ByteAtOf(s: seq<Byte>, g: nat)
    ensures ByteAt(s, 3 * g) == Pick(ValueAt(s, 4 * g), ValueAt(s, 4 * g + 1), 0)
    ensures ByteAt(s, 3 * g + 1) == Pick(ValueAt(s, 4 * g + 1), ValueAt(s, 4 * g + 2), 1)
    ensures ByteAt(s, 3 * g + 2) == Pick(ValueAt(s, 4 * g + 2), ValueAt(s, 4 * g + 3), 2)
  {
    hide ValueAt;
    hide Pick;
    Words.Division(3 * g, 3, g, 0);
    Words.Division(3 * g + 1, 3, g, 1);
    Words.Division(3 * g + 2, 3, g, 2);
  }

  ghost predicate Same(src: seq<Byte>, s: seq<Byte>, j: nat) { ValueAt(s, j) == SextetAt(src, j) }

  lemma ThreeBack(src: seq<Byte>, s: seq<Byte>, g: nat)
    ensures Same(src, s, 4 * g) && Same(src, s, 4 * g + 1) ==> ByteAt(s, 3 * g) == At(src, 3 * g)
    ensures Same(src, s, 4 * g + 1) && Same(src, s, 4 * g + 2) ==> ByteAt(s, 3 * g + 1) == At(src, 3 * g + 1)
    ensures Same(src, s, 4 * g + 2) && Same(src, s, 4 * g + 3) ==> ByteAt(s, 3 * g + 2) == At(src, 3 * g + 2)
  {
    hide ByteAt;
    hide ValueAt;
    hide SextetAt;
    hide Pick;
    hide At;
    ByteAtOf(s, g);
    SextetOf(src, g);
    Split(At(src, 3 * g), At(src, 3 * g + 1), At(src, 3 * g + 2));
  }

  lemma InCount(n: nat, l: nat) returns (g: nat, r: nat)
    requires l < n
    ensures l == 3 * g + r && r < 3 && 4 * g + r + 1 < Count(n)
  {
    g, r := l / 3, l % 3;
  }

  lemma ByteBack(src: seq<Byte>, s: seq<Byte>, l: nat)
    requires l < |src| && Count(|src|) <= |s|
    requires forall j :: 0 <= j < Count(|src|) ==> ValueAt(s, j) == SextetAt(src, j)
    ensures ByteAt(s, l) == src[l]
  {
    hide ByteAt;
    hide ValueAt;
    hide SextetAt;
    hide Count;
    var g, r := InCount(|src|, l);
    ThreeBack(src, s, g);
    var i := 4 * g + r;
    assert Same(src, s, i) && Same(src, s, i + 1);
    hide Same;
    if r == 0 {
      assert i == 4 * g && l == 3 * g;
    } else if r == 1 {
      assert i == 4 * g + 1 && l == 3 * g + 1;
    } else {
      assert i == 4 * g + 2 && l == 3 * g + 2;
    }
  }

  /** Three bytes out of four times six bits */
  lemma Split(a: Byte, b: Byte, c: Byte)
    ensures Pick(a / 4, a % 4 * 16 + b / 16, 0) == a
    ensures Pick(a % 4 * 16 + b / 16, b % 16 * 4 + c / 64, 1) == b
    ensures Pick(b % 16 * 4 + c / 64, c % 64, 2) == c
  {
    EightBits(a / 4 * 64 + (a % 4 * 16 + b / 16), 16, 0, a, b / 16);
    EightBits((a % 4 * 16 + b / 16) * 64 + (b % 16 * 4 + c / 64), 4, a % 4, b, c / 64);
    EightBits((b % 16 * 4 + c / 64) * 64 + c % 64, 1, b % 16, c, 0);
  }
}
