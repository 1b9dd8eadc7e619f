/** The first test of section 7.3 of RFC 3174, the digest of the text abc, step by step. */
module Sha1Vectors {
  import opened Sha1Spec

  /** Its one block after padding */
  function Block(): (b: seq<Byte>)
    ensures |b| == 64
  {
    [97, 98, 99, 128] + Zeros(59) + [24]
  }

  lemma Padded(text: seq<Byte>)
    requires text == [97, 98, 99]
    ensures Pad(text) == Block()
  {
    Length();
    hide LengthBytes;
    assert Zeros(59) == Zeros(52) + Zeros(7);
  }

  lemma Length()
    ensures LengthBytes(3) == Zeros(7) + [24]
  {
    Small(1);
    Small(2);
    Small(3);
    Small(4);
    Small(5);
    Small(6);
    Small(7);
    Octet24();
    hide Octet;
  }

  lemma Octet24()
    ensures Octet(24, 0) == 24
  {
    assert Power256(0) == 1;
  }

  lemma {:induction false} Large(k: nat)
    requires k >= 1
    ensures Power256(k) >= 256
  {
    if k > 1 {
      Large(k - 1);
    }
  }

  lemma Small(k: nat)
    requires k >= 1
    ensures Octet(24, k) == 0
  {
    Large(k);
    Quotient(24, Power256(k));
  }

  lemma Quotient(n: nat, d: nat)
    requires n < d
    ensures n / d == 0
  {}

  /** A word of the schedule of a block */
  function V(b: seq<Byte>, t: nat): Word
    requires |b| == 64
  {
    W(b, t)
  }

  lemma Ends(b: seq<Byte>)
    requires b == Block()
    ensures V(b, 0) == 0x6162_6380 && V(b, 15) == 24
  {
    assert b[0] == 97 && b[1] == 98 && b[2] == 99 && b[3] == 128;
    assert b[60] == 0 && b[61] == 0 && b[62] == 0 && b[63] == 24;
  }

  lemma Zero(b: seq<Byte>, t: nat)
    requires b == Block() && 1 <= t < 15
    ensures V(b, t) == 0
  {
    assert b[4 * t] == 0 && b[4 * t + 1] == 0 && b[4 * t + 2] == 0 && b[4 * t + 3] == 0;
  }

  /** A word of the schedule, from four before it */
  function Mixed(a: Word, b: Word, c: Word, d: Word): Word {
    var x := a ^ b ^ c ^ d;
    (x << 1) | (x >> 31)
  }

  lemma Mixes(a: Word, b: Word, c: Word, d: Word)
    ensures Rotate(Xor(Xor(Xor(a, b), c), d), 1) == Mixed(a, b, c, d)
  {}

  lemma Later(b: seq<Byte>, t: nat)
    requires |b| == 64 && 16 <= t < 80
    ensures V(b, t) == Mixed(V(b, t - 3), V(b, t - 8), V(b, t - 14), V(b, t - 16))
  {
    Mixes(V(b, t - 3), V(b, t - 8), V(b, t - 14), V(b, t - 16));
  }

  lemma Words20(b: seq<Byte>)
    requires b == Block()
    ensures V(b, 0) == 0x6162_6380 && V(b, 1) == 0 && V(b, 2) == 0 && V(b, 3) == 0
    ensures V(b, 4) == 0 && V(b, 5) == 0 && V(b, 6) == 0 && V(b, 7) == 0
    ensures V(b, 8) == 0 && V(b, 9) == 0 && V(b, 10) == 0 && V(b, 11) == 0
    ensures V(b, 12) == 0 && V(b, 13) == 0 && V(b, 14) == 0 && V(b, 15) == 0x0000_0018
    ensures V(b, 16) == 0xC2C4_C700 && V(b, 17) == 0 && V(b, 18) == 0x0000_0030 && V(b, 19) == 0x8589_8E01
  {
    Ends(b);
    Zero(b, 1); Zero(b, 2); Zero(b, 3); Zero(b, 4); Zero(b, 5);
    Zero(b, 6); Zero(b, 7); Zero(b, 8); Zero(b, 9); Zero(b, 10);
    Zero(b, 11); Zero(b, 12); Zero(b, 13); Zero(b, 14);
    hide V;
    Later(b, 16); Later(b, 17); Later(b, 18); Later(b, 19);
  }

  lemma Words40(b: seq<Byte>)
    requires b == Block()
    ensures V(b, 20) == 0 && V(b, 21) == 0x0000_0060 && V(b, 22) == 0x0B13_1C03 && V(b, 23) == 0x0000_0030
    ensures V(b, 24) == 0x8589_8EC1 && V(b, 25) == 0x1626_3806 && V(b, 26) == 0 && V(b, 27) == 0x0000_0180
    ensures V(b, 28) == 0x2C4C_700C && V(b, 29) == 0x0000_00F0 && V(b, 30) == 0x93AF_B507 && V(b, 31) == 0x5898_E048
    ensures V(b, 32) == 0x8E9A_9202 && V(b, 33) == 0x0000_0600 && V(b, 34) == 0xB131_C0F0 && V(b, 35) == 0x1626_3BC6
    ensures V(b, 36) == 0x4EBE_D41E && V(b, 37) == 0x6263_80A1 && V(b, 38) == 0x1626_3806 && V(b, 39) == 0x0000_18C0
  {
    Words20(b);
    hide V;
    Later(b, 20); Later(b, 21); Later(b, 22); Later(b, 23); Later(b, 24);
    Later(b, 25); Later(b, 26); Later(b, 27); Later(b, 28); Later(b, 29);
    Later(b, 30); Later(b, 31); Later(b, 32); Later(b, 33); Later(b, 34);
    Later(b, 35); Later(b, 36); Later(b, 37); Later(b, 38); Later(b, 39);
  }

  lemma Words60(b: seq<Byte>)
    requires b == Block()
    ensures V(b, 40) == 0xD2E1_38C4 && V(b, 41) == 0x0000_0F00 && V(b, 42) == 0x3AFB_5079 && V(b, 43) == 0x898E_04E5
    ensures V(b, 44) == 0xE2BA_3C2B && V(b, 45) == 0x0000_60C0 && V(b, 46) == 0x053A_37CD && V(b, 47) == 0x7445_8547
    ensures V(b, 48) == 0xDA94_15ED && V(b, 49) == 0x2638_0A16 && V(b, 50) == 0x6263_83A1 && V(b, 51) == 0x4EBF_54DE
    ensures V(b, 52) == 0x3835_B44B && V(b, 53) == 0x0000_F600 && V(b, 54) == 0x1E84_C7A3 && V(b, 55) == 0x98E0_4D98
    ensures V(b, 56) == 0x651D_16A0 && V(b, 57) == 0x6265_8CA1 && V(b, 58) == 0x4585_44D6 && V(b, 59) == 0x4458_4CB7
  {
    Words40(b);
    hide V;
    Later(b, 40); Later(b, 41); Later(b, 42); Later(b, 43); Later(b, 44);
    Later(b, 45); Later(b, 46); Later(b, 47); Later(b, 48); Later(b, 49);
    Later(b, 50); Later(b, 51); Later(b, 52); Later(b, 53); Later(b, 54);
    Later(b, 55); Later(b, 56); Later(b, 57); Later(b, 58); Later(b, 59);
  }

  lemma Words80(b: seq<Byte>)
    requires b == Block()
    ensures V(b, 60) == 0x7BA0_6619 && V(b, 61) == 0x6380_AEA2 && V(b, 62) == 0x0AE5_5269 && V(b, 63) == 0x627B_49A1
    ensures V(b, 64) == 0x7CD4_5C9D && V(b, 65) == 0x000F_0000 && V(b, 66) == 0xFB50_753A && V(b, 67) == 0xEC67_65E8
    ensures V(b, 68) == 0xBA3C_2BE2 && V(b, 69) == 0x0060_C000 && V(b, 70) == 0x3A37_CD05 && V(b, 71) == 0x4585_46F4
    ensures V(b, 72) == 0xB859_9DD6 && V(b, 73) == 0x380A_1A26 && V(b, 74) == 0x01E0_2203 && V(b, 75) == 0xE7CC_3456
    ensures V(b, 76) == 0xE6E6_0B69 && V(b, 77) == 0x00F6_0A00 && V(b, 78) == 0x5795_EF4F && V(b, 79) == 0x822E_0879
  {
    Words60(b);
    hide V;
    Later(b, 60); Later(b, 61); Later(b, 62); Later(b, 63); Later(b, 64);
    Later(b, 65); Later(b, 66); Later(b, 67); Later(b, 68); Later(b, 69);
    Later(b, 70); Later(b, 71); Later(b, 72); Later(b, 73); Later(b, 74);
    Later(b, 75); Later(b, 76); Later(b, 77); Later(b, 78); Later(b, 79);
  }

  /** The registers after t rounds */
  function S(b: seq<Byte>, t: nat): Registers
    requires |b| == 64
  {
    Rounds(b, START, t)
  }

  lemma Starts(b: seq<Byte>)
    requires |b| == 64
    ensures S(b, 0) == Registers(0x6745_2301, 0xEFCD_AB89, 0x98BA_DCFE, 0x1032_5476, 0xC3D2_E1F0)
  {}

  function Five(x: Word): Word { (x << 5) | (x >> 27) }

  function Thirty(x: Word): Word { (x << 30) | (x >> 2) }

  lemma Rotates(x: Word)
    ensures Rotate(x, 5) == Five(x) && Rotate(x, 30) == Thirty(x)
  {}

  /** A round, given what F and K are in it */
  function Turn(r: Registers, f: Word, k: Word, w: Word): Registers {
    Registers(Add(Add(Add(Add(Five(r.a), f), r.e), w), k), r.a, Thirty(r.b), r.c, r.d)
  }

  lemma Turns(b: seq<Byte>, t: nat)
    requires |b| == 64 && t < 80
    ensures var r := S(b, t);
            S(b, t + 1) == Turn(r, F(t, r.b, r.c, r.d), K(t), V(b, t))
  {
    hide Add, Rotate, Five, Thirty, F, K, W;
    Rotates(S(b, t).a);
    Rotates(S(b, t).b);
  }

  function Choose(x: Word, y: Word, z: Word): Word { Or(And(x, y), And(Not(x), z)) }

  function Parity(x: Word, y: Word, z: Word): Word { x ^ y ^ z }

  function Majority(x: Word, y: Word, z: Word): Word { Or(Or(And(x, y), And(x, z)), And(y, z)) }

  lemma ChooseIs(t: nat, x: Word, y: Word, z: Word)
    requires t < 20
    ensures F(t, x, y, z) == Choose(x, y, z)
  {
    hide And, Or, Xor, Not;
  }

  lemma Xors(x: Word, y: Word, z: Word)
    ensures Xor(Xor(x, y), z) == Parity(x, y, z)
  {
    hide Xor;
    XorIs(x, y);
    XorLast(Xor(x, y), x, y, z);
  }

  lemma XorIs(x: Word, y: Word)
    ensures Xor(x, y) == x ^ y
  {}

  lemma XorLast(u: Word, x: Word, y: Word, z: Word)
    requires u == x ^ y
    ensures Xor(u, z) == Parity(x, y, z)
  {}

  lemma ParityIs(t: nat, x: Word, y: Word, z: Word)
    requires 20 <= t < 40 || 60 <= t < 80
    ensures F(t, x, y, z) == Parity(x, y, z)
  {
    hide And, Or, Xor, Not, Parity;
    Xors(x, y, z);
  }

  lemma MajorityIs(t: nat, x: Word, y: Word, z: Word)
    requires 40 <= t < 60
    ensures F(t, x, y, z) == Majority(x, y, z)
  {
    hide And, Or, Xor, Not;
  }

  lemma FirstRound(b: seq<Byte>, t: nat)
    requires |b| == 64 && t < 20
    ensures var r := S(b, t);
            S(b, t + 1) == Turn(r, Choose(r.b, r.c, r.d), 0x5A82_7999, V(b, t))
  {
    hide F, Choose, Turn, S, V;
    Turns(b, t);
    ChooseIs(t, S(b, t).b, S(b, t).c, S(b, t).d);
  }

  lemma SecondRound(b: seq<Byte>, t: nat)
    requires |b| == 64 && 20 <= t < 40
    ensures var r := S(b, t);
            S(b, t + 1) == Turn(r, Parity(r.b, r.c, r.d), 0x6ED9_EBA1, V(b, t))
  {
    hide F, Parity, Turn, S, V;
    Turns(b, t);
    ParityIs(t, S(b, t).b, S(b, t).c, S(b, t).d);
  }

  lemma ThirdRound(b: seq<Byte>, t: nat)
    requires |b| == 64 && 40 <= t < 60
    ensures var r := S(b, t);
            S(b, t + 1) == Turn(r, Majority(r.b, r.c, r.d), 0x8F1B_BCDC, V(b, t))
  {
    hide F, Majority, Turn, S, V;
    Turns(b, t);
    MajorityIs(t, S(b, t).b, S(b, t).c, S(b, t).d);
  }

  lemma FourthRound(b: seq<Byte>, t: nat)
    requires |b| == 64 && 60 <= t < 80
    ensures var r := S(b, t);
            S(b, t + 1) == Turn(r, Parity(r.b, r.c, r.d), 0xCA62_C1D6, V(b, t))
  {
    hide F, Parity, Turn, S, V;
    Turns(b, t);
    ParityIs(t, S(b, t).b, S(b, t).c, S(b, t).d);
  }

  lemma Rounds10(b: seq<Byte>)
    requires b == Block()
    ensures S(b, 10) == Registers(0x8351_F929, 0x4B6A_E328, 0x27A3_01F5, 0x664F_8C30, 0x0FF1_F290)
  {
    Words20(b);
    Starts(b);
    hide V;
    hide S;
    FirstRound(b, 0); FirstRound(b, 1); FirstRound(b, 2); FirstRound(b, 3); FirstRound(b, 4);
    FirstRound(b, 5); FirstRound(b, 6); FirstRound(b, 7); FirstRound(b, 8); FirstRound(b, 9);
  }

  lemma Rounds20(b: seq<Byte>)
    requires b == Block()
    ensures S(b, 20) == Registers(0xFD9E_1D7D, 0xDC64_901D, 0x20AA_99CA, 0xD3A4_9608, 0xC82F_758B)
  {
    Words20(b);
    Rounds10(b);
    hide V;
    hide S;
    FirstRound(b, 10); FirstRound(b, 11); FirstRound(b, 12); FirstRound(b, 13); FirstRound(b, 14);
    FirstRound(b, 15); FirstRound(b, 16); FirstRound(b, 17); FirstRound(b, 18); FirstRound(b, 19);
  }

  lemma Rounds30(b: seq<Byte>)
    requires b == Block()
    ensures S(b, 30) == Registers(0xC5FB_AF5D, 0x8370_B52E, 0xD2AA_1365, 0x6F8D_7EF5, 0x1210_4EE9)
  {
    Words40(b);
    Rounds20(b);
    hide V;
    hide S;
    SecondRound(b, 20); SecondRound(b, 21); SecondRound(b, 22); SecondRound(b, 23); SecondRound(b, 24);
    SecondRound(b, 25); SecondRound(b, 26); SecondRound(b, 27); SecondRound(b, 28); SecondRound(b, 29);
  }

  lemma Rounds40(b: seq<Byte>)
    requires b == Block()
    ensures S(b, 40) == Registers(0x32DE_1CBA, 0x4C98_6405, 0xF718_E5CF, 0x03D4_47F6, 0xF72E_EC32)
  {
    Words40(b);
    Rounds30(b);
    hide V;
    hide S;
    SecondRound(b, 30); SecondRound(b, 31); SecondRound(b, 32); SecondRound(b, 33); SecondRound(b, 34);
    SecondRound(b, 35); SecondRound(b, 36); SecondRound(b, 37); SecondRound(b, 38); SecondRound(b, 39);
  }

  lemma Rounds50(b: seq<Byte>)
    requires b == Block()
    ensures S(b, 50) == Registers(0x1207_31C5, 0xBAF3_9337, 0xAFAB_40B2, 0x2806_E11B, 0x8714_787C)
  {
    Words60(b);
    Rounds40(b);
    hide V;
    hide S;
    ThirdRound(b, 40); ThirdRound(b, 41); ThirdRound(b, 42); ThirdRound(b, 43); ThirdRound(b, 44);
    ThirdRound(b, 45); ThirdRound(b, 46); ThirdRound(b, 47); ThirdRound(b, 48); ThirdRound(b, 49);
  }

  lemma Rounds60(b: seq<Byte>)
    requires b == Block()
    ensures S(b, 60) == Registers(0x3F52_DE5A, 0x09D7_85FD, 0x3498_BFD4, 0xF211_824F, 0xD799_15AB)
  {
    Words60(b);
    Rounds50(b);
    hide V;
    hide S;
    ThirdRound(b, 50); ThirdRound(b, 51); ThirdRound(b, 52); ThirdRound(b, 53); ThirdRound(b, 54);
    ThirdRound(b, 55); ThirdRound(b, 56); ThirdRound(b, 57); ThirdRound(b, 58); ThirdRound(b, 59);
  }

  lemma Rounds70(b: seq<Byte>)
    requires b == Block()
    ensures S(b, 70) == Registers(0x3F25_88C2, 0x4970_93C0, 0xDE37_534A, 0x030F_7CAD, 0x4405_957E)
  {
    Words80(b);
    Rounds60(b);
    hide V;
    hide S;
    FourthRound(b, 60); FourthRound(b, 61); FourthRound(b, 62); FourthRound(b, 63); FourthRound(b, 64);
    FourthRound(b, 65); FourthRound(b, 66); FourthRound(b, 67); FourthRound(b, 68); FourthRound(b, 69);
  }

  lemma Rounds80(b: seq<Byte>)
    requires b == Block()
    ensures S(b, 80) == Registers(0x4254_1B35, 0x5738_D5E1, 0x2183_4873, 0x681E_6DF6, 0xD8FD_F6AD)
  {
    Words80(b);
    Rounds70(b);
    hide V;
    hide S;
    FourthRound(b, 70); FourthRound(b, 71); FourthRound(b, 72); FourthRound(b, 73); FourthRound(b, 74);
    FourthRound(b, 75); FourthRound(b, 76); FourthRound(b, 77); FourthRound(b, 78); FourthRound(b, 79);
  }

  lemma Compressed(b: seq<Byte>)
    requires b == Block()
    ensures Compress(START, b) == Registers(0xA999_3E36, 0x4706_816A, 0xBA3E_2571, 0x7850_C26C, 0x9CD0_D89D)
  {
    Rounds80(b);
    var r := S(b, 80);
    hide S;
    hide Rounds;
  }

  lemma DigestBytes()
    ensures BytesOf(0xA999_3E36) == [0xA9, 0x99, 0x3E, 0x36]
    ensures BytesOf(0x4706_816A) == [0x47, 0x06, 0x81, 0x6A]
    ensures BytesOf(0xBA3E_2571) == [0xBA, 0x3E, 0x25, 0x71]
    ensures BytesOf(0x7850_C26C) == [0x78, 0x50, 0xC2, 0x6C]
    ensures BytesOf(0x9CD0_D89D) == [0x9C, 0xD0, 0xD8, 0x9D]
  {}

  /** The digest of abc */
  lemma DigestOfAbc(text: seq<Byte>)
    requires text == [97, 98, 99]
    ensures Digest(text)
         == [0xA9, 0x99, 0x3E, 0x36, 0x47, 0x06, 0x81, 0x6A, 0xBA, 0x3E,
             0x25, 0x71, 0x78, 0x50, 0xC2, 0x6C, 0x9C, 0xD0, 0xD8, 0x9D]
  {
    var b := Pad(text);
    assert b == Block() by {
      Padded(text);
    }
    OneBlock(b);
    Compressed(b);
    DigestBytes();
    DigestIs(text);
    hide *;
  }

  lemma DigestIs(text: seq<Byte>)
    ensures var h := Blocks(Pad(text));
            Digest(text) == BytesOf(h.a) + BytesOf(h.b) + BytesOf(h.c) + BytesOf(h.d) + BytesOf(h.e)
  {}

  lemma OneBlock(b: seq<Byte>)
    requires |b| == 64
    ensures Blocks(b) == Compress(START, b)
  {
    assert b[..0] == [] && b[0..] == b;
    hide Compress;
  }
}
