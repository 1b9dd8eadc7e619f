/** Escapes in strings, said without the functions that read them: a table of section 7 of RFC 8259, hexadecimal digits
    as places in an alphabet, code units of UTF-16, and a decoder for UTF-8. */
module JsonUnicode {
  import opened Options
  import opened JsonTable
  import opened JsonGrammar

  // ----- UTF-8, read back -----

  /** The last bits of a byte that continues a character */
  function Tail(c: char): int { c as int - 0x80 }

  predicate IsTail(c: char) { 0x80 <= c as int < 0xC0 }

  /** The code point that some bytes encode, by the table of section 3 of RFC 3629 and in the shortest form */
  function Decode(s: string): Option<int> {
    if |s| == 1 && s[0] as int < 0x80 then Some(s[0] as int)
    else if |s| == 2 && 0xC2 <= s[0] as int < 0xE0 && IsTail(s[1]) then
      Some((s[0] as int - 0xC0) * 64 + Tail(s[1]))
    else if |s| == 3 && 0xE0 <= s[0] as int < 0xF0 && IsTail(s[1]) && IsTail(s[2])
            && (s[0] as int - 0xE0) * 4096 + Tail(s[1]) * 64 >= 0x800 then
      Some((s[0] as int - 0xE0) * 4096 + Tail(s[1]) * 64 + Tail(s[2]))
    else if |s| == 4 && 0xF0 <= s[0] as int < 0xF5 && IsTail(s[1]) && IsTail(s[2]) && IsTail(s[3])
            && 0x10000 <= (s[0] as int - 0xF0) * 262144 + Tail(s[1]) * 4096 < 0x110000 then
      Some((s[0] as int - 0xF0) * 262144 + Tail(s[1]) * 4096 + Tail(s[2]) * 64 + Tail(s[3]))
    else None
  }

  lemma {:induction false} ByteIs(n: int)
    requires 0 <= n < 256
    ensures Byte(n) as int == n
  {}

  lemma {:induction false} SplitOnce(n: int, d: int)
    requires 0 <= n && d > 0
    ensures n == n / d * d + n % d && 0 <= n % d < d
  {}

  lemma {:induction false} SplitThree(u: int)
    requires 0 <= u
    ensures u == u / 4096 * 4096 + u / 64 % 64 * 64 + u % 64
    ensures u == u / 262144 * 262144 + u / 4096 % 64 * 4096 + u / 64 % 64 * 64 + u % 64
  {
    var a, b, c := u / 64, u / 4096, u / 262144;
    assert b == a / 64 && c == b / 64;
    assert u == a * 64 + u % 64 && a == b * 64 + a % 64 && b == c * 64 + b % 64;
  }

  /** Every code point is encoded so that it can be read back. */
  lemma {:induction false} Utf8Back(u: int)
    requires 0 <= u < 0x110000
    ensures Decode(Utf8(u)) == Some(u)
  {
    SplitThree(u);
    SplitOnce(u, 64);
  }

  // ----- hexadecimal digits -----

  const LOWER := "0123456789abcdef"
  const UPPER := "0123456789ABCDEF"

  /** The digit with this value, in one of the two alphabets */
  function DigitOf(n: int, upper: bool): char
    requires 0 <= n < 16
  {
    (if upper then UPPER else LOWER)[n]
  }

  lemma {:induction false} HexMeans(c: char)
    ensures IsHex(c) <==> c in LOWER || c in UPPER
  {
    assert LOWER == ['0', '1', '2', '3', '4', '5', '6', '7', '8', '9', 'a', 'b', 'c', 'd', 'e', 'f'];
    assert UPPER == ['0', '1', '2', '3', '4', '5', '6', '7', '8', '9', 'A', 'B', 'C', 'D', 'E', 'F'];
  }

  /** Four digits, most significant first */
  function Hex(n: int, upper: bool): string
    requires 0 <= n < 0x10000
  {
    [DigitOf(n / 4096, upper), DigitOf(n / 256 % 16, upper), DigitOf(n / 16 % 16, upper), DigitOf(n % 16, upper)]
  }

  lemma {:induction false} DigitBack(n: int, upper: bool)
    requires 0 <= n < 16
    ensures IsHex(DigitOf(n, upper)) && HexDigit(DigitOf(n, upper)) == n
  {}

  lemma {:induction false} SplitFour(n: int)
    requires 0 <= n < 0x10000
    ensures n == n / 4096 * 4096 + n / 256 % 16 * 256 + n / 16 % 16 * 16 + n % 16 && n / 4096 < 16
  {
    var a, b, c := n / 16, n / 256, n / 4096;
    assert b == a / 16 && c == b / 16;
    assert n == a * 16 + n % 16 && a == b * 16 + a % 16 && b == c * 16 + b % 16;
  }

  /** The digits of a number are read as that number, in both alphabets. */
  lemma {:induction false} HexBack(n: int, upper: bool)
    requires 0 <= n < 0x10000
    ensures IsHex4(Hex(n, upper)) && HexValue(Hex(n, upper)) == n
  {
    SplitFour(n);
    DigitBack(n / 4096, upper);
    DigitBack(n / 256 % 16, upper);
    DigitBack(n / 16 % 16, upper);
    DigitBack(n % 16, upper);
    hide DigitOf;
    hide IsHex;
    hide HexDigit;
  }

  // ----- escapes -----

  const LETTERS := "\"\\/bfnrt"
  const MEANINGS := [0x22, 0x5C, 0x2F, 0x08, 0x0C, 0x0A, 0x0D, 0x09]

  /** The escapes of one letter are those of section 7 of RFC 8259. */
  lemma {:induction false} LetterMeans(c: char)
    ensures ValidChar(Esc(c)) <==> c in LETTERS
    ensures forall i :: 0 <= i < |LETTERS| && LETTERS[i] == c ==>
              |CharValue(Esc(c))| == 1 && CharValue(Esc(c))[0] as int == MEANINGS[i]
  {
    assert LETTERS == ['"', '\\', '/', 'b', 'f', 'n', 'r', 't'];
  }

  /** The code units of UTF-16 (section 7 of RFC 8259) as escapes: one, or a pair of surrogates */
  function EscapeOf(u: int, upper: bool): StrChar
    requires 0 <= u < 0x110000
  {
    if u < 0x10000 then Uni(Hex(u, upper))
    else Pair(Hex(0xD800 + (u - 0x10000) / 1024, upper), Hex(0xDC00 + (u - 0x10000) % 1024, upper))
  }

  lemma {:induction false} UniValue(h: string)
    requires IsHex4(h) && !IsHighSurrogate(HexValue(h)) && !IsLowSurrogate(HexValue(h)) && 0 <= HexValue(h) < 0x10000
    ensures ValidChar(Uni(h)) && CharValue(Uni(h)) == Utf8(HexValue(h))
  {
    hide Utf8;
    hide HexValue;
  }

  lemma {:induction false} PairValue(hi: string, lo: string)
    requires IsHex4(hi) && IsHex4(lo) && IsHighSurrogate(HexValue(hi)) && IsLowSurrogate(HexValue(lo))
    requires 0 <= SurrogatePair(HexValue(hi), HexValue(lo)) < 0x110000
    ensures ValidChar(Pair(hi, lo))
    ensures CharValue(Pair(hi, lo)) == Utf8(SurrogatePair(HexValue(hi), HexValue(lo)))
  {
    hide Utf8;
    hide HexValue;
    hide SurrogatePair;
  }

  /** Every code point that is no surrogate, written as an escape, is read as bytes that encode it. */
  lemma {:induction false} EscapeRead(u: int, upper: bool)
    requires 0 <= u < 0xD800 || 0xE000 <= u < 0x110000
    ensures ValidChar(EscapeOf(u, upper)) && Decode(CharValue(EscapeOf(u, upper))) == Some(u)
  {
    hide Hex;
    hide Utf8;
    hide Decode;
    hide HexValue;
    hide CharValue;
    hide ValidChar;
    Utf8Back(u);
    if u < 0x10000 {
      HexBack(u, upper);
      UniValue(Hex(u, upper));
    } else {
      var h, l := 0xD800 + (u - 0x10000) / 1024, 0xDC00 + (u - 0x10000) % 1024;
      PairBack(u);
      hide SurrogatePair;
      HexBack(h, upper);
      HexBack(l, upper);
      PairValue(Hex(h, upper), Hex(l, upper));
    }
  }

  lemma {:induction false} PairBack(u: int)
    requires 0x10000 <= u < 0x110000
    ensures SurrogatePair(0xD800 + (u - 0x10000) / 1024, 0xDC00 + (u - 0x10000) % 1024) == u
  {
    SplitOnce(u - 0x10000, 1024);
  }

  /** The bits of four bytes: three of the first, six of each other */
  function Bits(b: string): int
    requires |b| == 4
  {
    b[0] as int % 8 * 262144 + b[1] as int % 64 * 4096 + b[2] as int % 64 * 64 + b[3] as int % 64
  }

  lemma {:induction false} FirstBits(n: int)
    requires 0 <= n < 8
    ensures Byte(0xF0 + n) as int % 8 == n && Byte(0xF0 + n) as int / 8 == 30
  {}

  lemma {:induction false} TailBits(n: int)
    requires 0 <= n < 64
    ensures IsTail(Byte(0x80 + n)) && Byte(0x80 + n) as int % 64 == n
  {}

  lemma {:induction false} FourBits(u: int)
    requires 0x10000 <= u < 0x110000
    ensures var b := Utf8(u);
            |b| == 4 && b[0] as int / 8 == 30 && IsTail(b[1]) && IsTail(b[2]) && IsTail(b[3]) && Bits(b) == u
  {
    SplitThree(u);
    var p, q, r, t := u / 262144, u / 4096 % 64, u / 64 % 64, u % 64;
    assert Utf8(u) == [Byte(0xF0 + p), Byte(0x80 + q), Byte(0x80 + r), Byte(0x80 + t)];
    hide Byte;
    hide IsTail;
    FirstBits(p);
    TailBits(q);
    TailBits(r);
    TailBits(t);
  }

  /** The bits that the four bytes of a pair of surrogates hold: ten of each, and 2^16 */
  lemma {:induction false} PairBits(hi: int, lo: int)
    requires 0xD800 <= hi < 0xDC00 && 0xDC00 <= lo < 0xE000
    ensures 0x10000 <= SurrogatePair(hi, lo) < 0x110000
    ensures var b := Utf8(SurrogatePair(hi, lo));
            && |b| == 4 && b[0] as int / 8 == 30 && IsTail(b[1]) && IsTail(b[2]) && IsTail(b[3])
            && Bits(b) == 0x10000 + hi % 1024 * 1024 + lo % 1024
  {
    hide Utf8;
    hide Bits;
    FourBits(SurrogatePair(hi, lo));
  }

  // ----- white space -----

  /** Section 2 of RFC 8259 */
  lemma {:induction false} WhiteMeans(c: char)
    ensures IsWhite(c) <==> c as int in {0x20, 0x09, 0x0A, 0x0D}
  {}
}
