/** WebSocket frames as section 5.2 of RFC 6455 lays them out, masked as in section 5.3. */
module WebSocketFrames {
  import opened Bytes
  import Words

  // ----- exclusive or -----

  function XorBits(x: nat, y: nat): nat {
    if x == 0 && y == 0 then 0 else 2 * XorBits(x / 2, y / 2) + (x + y) % 2
  }

  lemma {:induction false} XorBound(x: nat, y: nat, k: nat)
    requires x < Words.Pow(2, k) && y < Words.Pow(2, k)
    ensures XorBits(x, y) < Words.Pow(2, k)
    decreases k
  {
    if x != 0 || y != 0 {
      XorBound(x / 2, y / 2, k - 1);
    }
  }

  lemma {:induction false} Parity(z: nat, x: nat, y: nat)
    requires z % 2 == (x + y) % 2
    ensures (z + y) % 2 == x % 2
  {}

  lemma {:induction false} Halves(h: nat, x: nat, y: nat)
    ensures (2 * h + (x + y) % 2) / 2 == h && (2 * h + (x + y) % 2) % 2 == (x + y) % 2
  {}

  lemma {:induction false} XorTwice(x: nat, y: nat)
    ensures XorBits(XorBits(x, y), y) == x
    decreases x + y
  {
    if y == 0 {
      XorZero(x);
    } else {
      XorTwice(x / 2, y / 2);
      var h := XorBits(x / 2, y / 2);
      var z := XorBits(x, y);
      assert z == 2 * h + (x + y) % 2;
      Halves(h, x, y);
      Parity(z, x, y);
      assert XorBits(z, y) == 2 * XorBits(z / 2, y / 2) + (z + y) % 2;
      assert x == 2 * (x / 2) + x % 2;
    }
  }

  lemma {:induction false} XorZero(x: nat)
    ensures XorBits(x, 0) == x
  {
    if x > 0 { XorZero(x / 2); }
  }

  /** Every bit of the result is set exactly when one of the two bits is, and not the other. */
  lemma {:induction false} XorBit(x: nat, y: nat, k: nat)
    ensures Words.Bit(XorBits(x, y), k) == 1 <==> Words.Bit(x, k) != Words.Bit(y, k)
    ensures Words.Bit(x, k) in {0, 1} && Words.Bit(y, k) in {0, 1}
    decreases k
  {
    hide *;
    var z := XorBits(x, y);
    XorStep(x, y);
    if k == 0 {
      Words.BitHalf(x, 0);
      Words.BitHalf(y, 0);
      Words.BitHalf(z, 0);
    } else {
      Words.BitHalf(x, k - 1);
      Words.BitHalf(y, k - 1);
      Words.BitHalf(z, k - 1);
      XorBit(x / 2, y / 2, k - 1);
    }
  }

  lemma {:induction false} XorStep(x: nat, y: nat)
    ensures XorBits(x, y) / 2 == XorBits(x / 2, y / 2) && XorBits(x, y) % 2 == (x + y) % 2
  {
    var h := XorBits(x / 2, y / 2);
    assert XorBits(0, 0) == 0;
    assert XorBits(x, y) == 2 * h + (x + y) % 2;
    hide XorBits;
    Halves(h, x, y);
  }

  function Xor(x: Byte, y: Byte): Byte {
    ByteBound(x, y);
    XorBits(x, y)
  }

  lemma {:induction false} ByteBound(x: Byte, y: Byte)
    ensures XorBits(x, y) < 256
  {
    assert Words.Pow(2, 4) == 16 && Words.Pow(2, 8) == 256 by {
      assert Words.Pow(2, 2) == 4;
      assert Words.Pow(2, 6) == 64;
    }
    XorBound(x, y, 8);
  }

  // ----- frames -----

  datatype LengthForm = Bits7 | Bits16 | Bits64

  datatype Frame = Frame(start: Byte, form: LengthForm, key: seq<Byte>, payload: seq<Byte>)

  const CLOSE := 8
  const PING := 9
  const PONG := 10

  function Opcode(f: Frame): nat { f.start % 16 }

  /** A masked frame with a payload, no close frame, and no ping longer than a control frame may be. */
  predicate ValidFrame(f: Frame) {
    && |f.key| == 4 && f.payload != []
    && |f.payload| < (match f.form case Bits7 => 126 case Bits16 => 0x1_0000 case Bits64 => 0x1_0000_0000)
    && Opcode(f) != CLOSE && (Opcode(f) == PING ==> |f.payload| <= 125)
  }

  function LengthCode(f: Frame): nat
    requires ValidFrame(f)
  {
    match f.form case Bits7 => |f.payload| case Bits16 => 126 case Bits64 => 127
  }

  /** The length in the bytes that follow, most significant first. */
  function LengthBytes(f: Frame): seq<Byte>
    requires ValidFrame(f)
  {
    var n := |f.payload|;
    match f.form
    case Bits7 => []
    case Bits16 => [n / 256, n % 256]
    case Bits64 => [0, 0, 0, 0, n / 0x100_0000, n / 0x1_0000 % 256, n / 0x100 % 256, n % 256]
  }

  function Number16(hi: nat, lo: nat): nat { 256 * hi + lo }

  function Number32(a: nat, b: nat, c: nat, d: nat): nat { 0x100_0000 * a + 0x1_0000 * b + 0x100 * c + d }

  lemma {:induction false} LengthBack(f: Frame)
    requires ValidFrame(f)
    ensures f.form.Bits16? ==> Number16(LengthBytes(f)[0], LengthBytes(f)[1]) == |f.payload|
    ensures var l := LengthBytes(f); f.form.Bits64? ==> Number32(l[4], l[5], l[6], l[7]) == |f.payload|
  {
    FourBytes(|f.payload|);
    hide Number32;
  }

  function Masked(payload: seq<Byte>, key: seq<Byte>): seq<Byte>
    requires |key| == 4
  {
    seq(|payload|, i requires 0 <= i < |payload| => Xor(payload[i], key[i % 4]))
  }

  function Encode(f: Frame): seq<Byte>
    requires ValidFrame(f)
  {
    [f.start, 128 + LengthCode(f)] + LengthBytes(f) + f.key + Masked(f.payload, f.key)
  }

  /** The number of bytes before the key. */
  function HeaderSize(f: Frame): nat { match f.form case Bits7 => 2 case Bits16 => 4 case Bits64 => 10 }

  lemma {:induction false} EncodeAt(f: Frame, pos: nat)
    requires ValidFrame(f)
    ensures |Encode(f)| == HeaderSize(f) + 4 + |f.payload|
    ensures pos < |Encode(f)| ==>
              Encode(f)[pos] ==
              if pos == 0 then f.start
              else if pos == 1 then 128 + LengthCode(f)
              else if pos < HeaderSize(f) then LengthBytes(f)[pos - 2]
              else if pos < HeaderSize(f) + 4 then f.key[pos - HeaderSize(f)]
              else Xor(f.payload[pos - HeaderSize(f) - 4], f.key[(pos - HeaderSize(f) - 4) % 4])
  {}

  ghost predicate ValidFrames(fs: seq<Frame>) { forall i :: 0 <= i < |fs| ==> ValidFrame(fs[i]) }

  /** The stream of some frames. */
  function Wire(fs: seq<Frame>): seq<Byte>
    requires ValidFrames(fs)
  {
    if fs == [] then [] else Wire(fs[..|fs| - 1]) + Encode(fs[|fs| - 1])
  }

  // ----- what the server makes of them -----

  datatype Delivery = Message(payload: seq<Byte>) | Pong(payload: seq<Byte>)

  function DeliveryOf(f: Frame): seq<Delivery> {
    if Opcode(f) == PING then [Pong(f.payload)] else if Opcode(f) == PONG then [] else [Message(f.payload)]
  }

  function Deliveries(fs: seq<Frame>): seq<Delivery> {
    if fs == [] then [] else Deliveries(fs[..|fs| - 1]) + DeliveryOf(fs[|fs| - 1])
  }

  lemma {:induction false} WireAt(fs: seq<Frame>, k: nat, pos: nat)
    requires ValidFrames(fs) && k < |fs|
    ensures |Wire(fs[..k + 1])| == |Wire(fs[..k])| + |Encode(fs[k])| <= |Wire(fs)|
    ensures pos < |Encode(fs[k])| ==> Wire(fs)[|Wire(fs[..k])| + pos] == Encode(fs[k])[pos]
    decreases |fs|
  {
    hide *;
    var n := |fs| - 1;
    var r := fs[..n];
    assert ValidFrames(r) && ValidFrame(fs[n]) by { ValidPrefix(fs); }
    WireLast(fs);
    if k == n {
      assert fs[..k + 1] == fs && fs[..k] == r;
    } else {
      assert fs[..k + 1] == r[..k + 1] && fs[..k] == r[..k] && r[k] == fs[k];
      WireAt(r, k, pos);
    }
  }

  lemma {:induction false} ValidPrefix(fs: seq<Frame>)
    requires ValidFrames(fs) && fs != []
    ensures ValidFrames(fs[..|fs| - 1]) && ValidFrame(fs[|fs| - 1])
  {
    hide ValidFrame;
  }

  lemma {:induction false} WireLast(fs: seq<Frame>)
    requires ValidFrames(fs) && fs != []
    ensures ValidFrames(fs[..|fs| - 1]) && ValidFrame(fs[|fs| - 1])
    ensures Wire(fs) == Wire(fs[..|fs| - 1]) + Encode(fs[|fs| - 1])
  {
    hide ValidFrame;
    hide Encode;
  }

  lemma {:induction false} WireMonotone(fs: seq<Frame>, k: nat)
    requires ValidFrames(fs) && k <= |fs|
    ensures |Wire(fs[..k])| <= |Wire(fs)| && (k == |fs| ==> Wire(fs[..k]) == Wire(fs))
    ensures k < |fs| ==> |Wire(fs[..k])| < |Wire(fs)|
  {
    if k < |fs| {
      WireAt(fs, k, 0);
      EncodeAt(fs[k], 0);
    } else {
      assert fs[..k] == fs;
    }
  }

  lemma {:induction false} DeliveriesNext(fs: seq<Frame>, k: nat)
    requires k < |fs|
    ensures Deliveries(fs[..k + 1]) == Deliveries(fs[..k]) + DeliveryOf(fs[k])
  {
    assert fs[..k + 1][..k] == fs[..k];
  }

  // ----- the layout of a frame, byte by byte -----

  /** The number that some bytes make, most significant first */
  function BigEndian(s: seq<Byte>, from: nat, n: nat): nat
    requires from + n <= |s|
  {
    if n == 0 then 0 else BigEndian(s, from, n - 1) * 256 + s[from + n - 1]
  }

  /** The length that section 5.2 of RFC 6455 reads from the start of a frame, and the number of bytes before the key */
  function LengthOf(s: seq<Byte>): (r: (nat, nat))
    requires |s| >= 10 && s[1] >= 128
  {
    if s[1] == 254 then (BigEndian(s, 2, 2), 4)
    else if s[1] == 255 then (BigEndian(s, 2, 8), 10)
    else (s[1] - 128, 2)
  }

  /** A frame on the wire: the first byte, the mask bit with the length, the key, and the payload with every bit turned
      where the key has one. Text goes to the application, a ping is answered, a pong is dropped. */
  lemma {:induction false} FrameShape(f: Frame, rest: seq<Byte>)
    requires ValidFrame(f) && |rest| >= 10
    ensures var s := Encode(f) + rest;
            var (len, n) := LengthOf(s);
            && s[0] == f.start && len == |f.payload| && |Encode(f)| == n + 4 + len && s[n..n + 4] == f.key
            && forall i, k: nat :: 0 <= i < len ==>
                 (Words.Bit(s[n + 4 + i], k) == 1 <==> Words.Bit(f.payload[i], k) != Words.Bit(f.key[i % 4], k))
    ensures DeliveryOf(f) == if f.start % 16 == 9 then [Pong(f.payload)] else if f.start % 16 == 10 then []
                             else [Message(f.payload)]
  {
    var s := Encode(f) + rest;
    var n := HeaderSize(f);
    EncodeAt(f, 0);
    assert forall j :: 0 <= j < |Encode(f)| ==> s[j] == Encode(f)[j];
    HeaderShape(f, s);
    forall i, k: nat | 0 <= i < |f.payload|
      ensures Words.Bit(s[n + 4 + i], k) == 1 <==> Words.Bit(f.payload[i], k) != Words.Bit(f.key[i % 4], k)
    {
      EncodeAt(f, n + 4 + i);
      XorBit(f.payload[i], f.key[i % 4], k);
    }
    hide *;
  }

  lemma {:induction false} HeaderShape(f: Frame, s: seq<Byte>)
    requires ValidFrame(f) && |s| >= |Encode(f)| + 10 && s[..|Encode(f)|] == Encode(f)
    ensures s[0] == f.start && s[1] >= 128 && LengthOf(s) == (|f.payload|, HeaderSize(f))
    ensures |Encode(f)| == HeaderSize(f) + 4 + |f.payload| && s[HeaderSize(f)..HeaderSize(f) + 4] == f.key
  {
    LengthBack(f);
    var e, b := Encode(f), LengthBytes(f);
    var head := [f.start, 128 + LengthCode(f)];
    var n := HeaderSize(f);
    assert e == head + b + f.key + Masked(f.payload, f.key) && |head + b| == n;
    hide Masked;
    hide Encode;
    HeaderBytes(s, e, head, b, f.key, Masked(f.payload, f.key));
    if f.form.Bits16? {
      BigTwo(s);
    } else if f.form.Bits64? {
      BigEight(s);
    }
  }

  lemma HeaderBytes(s: seq<Byte>, e: seq<Byte>, head: seq<Byte>, b: seq<Byte>, key: seq<Byte>, rest: seq<Byte>)
    requires |head| == 2 && |key| == 4 && e == head + b + key + rest && |e| <= |s| && s[..|e|] == e
    ensures s[0] == head[0] && s[1] == head[1] && s[2 + |b|..2 + |b| + 4] == key
    ensures forall j :: 0 <= j < |b| ==> s[2 + j] == b[j]
  {
    assert forall j :: 0 <= j < |e| ==> s[j] == e[j];
    assert e[2 + |b|..2 + |b| + 4] == key;
    assert forall j :: 0 <= j < 4 ==> s[2 + |b| + j] == e[2 + |b| + j] == key[j];
  }

  lemma BigTwo(s: seq<Byte>)
    requires |s| >= 4
    ensures BigEndian(s, 2, 2) == Number16(s[2], s[3])
  {
    assert BigEndian(s, 2, 1) == s[2];
  }

  lemma BigEight(s: seq<Byte>)
    requires |s| >= 10 && s[2] == s[3] == s[4] == s[5] == 0
    ensures BigEndian(s, 2, 8) == Number32(s[6], s[7], s[8], s[9])
  {
    BigNext(s, 2, 0);
    BigNext(s, 2, 1);
    BigNext(s, 2, 2);
    BigNext(s, 2, 3);
    BigNext(s, 2, 4);
    BigNext(s, 2, 5);
    BigNext(s, 2, 6);
    BigNext(s, 2, 7);
    hide BigEndian;
  }

  lemma BigNext(s: seq<Byte>, from: nat, n: nat)
    requires from + n + 1 <= |s|
    ensures BigEndian(s, from, 0) == 0 && BigEndian(s, from, n + 1) == BigEndian(s, from, n) * 256 + s[from + n]
  {
  }
}
