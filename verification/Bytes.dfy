/** Bytes, and the number that four of them make. */
module Bytes {
  type Byte = n: nat | n < 256

  /** tolower on the letters of ASCII */
  function Lower(b: Byte): Byte { if 65 <= b <= 90 then b + 32 else b }

  const CAPITALS: string := "ABCDEFGHIJKLMNOPQRSTUVWXYZ"
  const SMALL: string := "abcdefghijklmnopqrstuvwxyz"

  /** Two characters that strcasecmp does not tell apart: the same, or the two forms of one letter */
  predicate SameLetter(a: Byte, b: Byte) {
    a == b || exists k :: 0 <= k < 26 && {a as char, b as char} == {CAPITALS[k], SMALL[k]}
  }

  /** Lower changes the capital letters into the small ones, and nothing else. */
  lemma LowerIs(b: Byte)
    ensures forall k :: 0 <= k < 26 ==> (b as char == CAPITALS[k] ==> Lower(b) as char == SMALL[k])
    ensures (forall k :: 0 <= k < 26 ==> b as char != CAPITALS[k]) ==> Lower(b) == b
  {
    forall k | 0 <= k < 26 ensures CAPITALS[k] as int == 65 + k && SMALL[k] as int == 97 + k {
      Alphabets(k);
    }
    if 65 <= b <= 90 {
      assert b as char == CAPITALS[b - 65];
    }
  }

  lemma Alphabets(k: nat)
    requires k < 26
    ensures CAPITALS[k] as int == 65 + k && SMALL[k] as int == 97 + k
  {}

  lemma SameLower(a: Byte, b: Byte)
    ensures Lower(a) == Lower(b) <==> SameLetter(a, b)
  {
    forall k | 0 <= k < 26 ensures CAPITALS[k] as int == 65 + k && SMALL[k] as int == 97 + k {
      Alphabets(k);
    }
    if a != b && Lower(a) == Lower(b) {
      var k := Lower(a) - 97;
      assert {a as char, b as char} == {CAPITALS[k], SMALL[k]};
    }
    if k :| 0 <= k < 26 && {a as char, b as char} == {CAPITALS[k], SMALL[k]} {
      assert a as char in {CAPITALS[k], SMALL[k]} && b as char in {CAPITALS[k], SMALL[k]};
    }
  }

  lemma {:induction false} FourBytes(n: nat)
    ensures 0x100_0000 * (n / 0x100_0000) + 0x1_0000 * (n / 0x1_0000 % 256) + 0x100 * (n / 0x100 % 256) + n % 256 == n
  {
    var a, b, c := n / 0x100, n / 0x1_0000, n / 0x100_0000;
    assert n == 256 * a + n % 256;
    assert b == a / 256 && a == 256 * b + a % 256;
    assert c == b / 256 && b == 256 * c + b % 256;
  }
}
