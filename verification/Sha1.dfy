/** src/sha1.c, on unsigned longs of 64 bits. */
module Sha1 {
  import opened Sha1Spec

  // ----- words wider than 32 bits -----

  /** An unsigned long, as its two halves. */
  datatype Wide = Wide(hi: Word, lo: Word)

  function WidePlus(x: Wide, y: Wide): Wide {
    Wide(Add(Add(x.hi, y.hi), Carry(x.lo, y.lo)), Add(x.lo, y.lo))
  }

  function Carry(x: Word, y: Word): Word { if x + y < x then 1 else 0 }

  function WideXor(x: Wide, y: Wide): Wide { Wide(Xor(x.hi, y.hi), Xor(x.lo, y.lo)) }

  function WideAnd(x: Wide, y: Wide): Wide { Wide(And(x.hi, y.hi), And(x.lo, y.lo)) }

  function WideOr(x: Wide, y: Wide): Wide { Wide(Or(x.hi, y.hi), Or(x.lo, y.lo)) }

  function WideLeft(x: Wide, n: nat): Wide
    requires 0 < n < 32
  {
    Wide(Or(Left(x.hi, n), Right(x.lo, 32 - n)), Left(x.lo, n))
  }

  /** (x & 0xFFFFFFFF) >> n */
  function LowRight(x: Wide, n: nat): Wide
    requires n < 32
  {
    Wide(0, Right(x.lo, n))
  }

  /** The macro S */
  function S(x: Wide, n: nat): (r: Wide)
    requires 0 < n < 32
    ensures r.lo == Rotate(x.lo, n)
  {
    WideOr(WideLeft(x, n), LowRight(x, 32 - n))
  }

  /** The macro F of each group of twenty steps */
  function FWide(t: nat, x: Wide, y: Wide, z: Wide): (r: Wide)
    ensures r.lo == F(t, x.lo, y.lo, z.lo)
  {
    FLow(t, x, y, z);
    if t < 20 then WideXor(z, WideAnd(x, WideXor(y, z)))
    else if t < 40 then WideXor(WideXor(x, y), z)
    else if t < 60 then WideOr(WideAnd(x, y), WideAnd(z, WideOr(x, y)))
    else WideXor(WideXor(x, y), z)
  }

  lemma Choice(x: Word, y: Word, z: Word)
    ensures Xor(z, And(x, Xor(y, z))) == Or(And(x, y), And(Not(x), z))
  {
    calc {
      Xor(z, And(x, Xor(y, z)));
      Xor(z, And(x, y ^ z));
      Xor(z, x & (y ^ z));
      z ^ (x & (y ^ z));
      { ChoiceBits(x, y, z); }
      (x & y) | (!x & z);
      Or(x & y, !x & z);
      Or(And(x, y), And(Not(x), z));
    }
  }

  lemma ChoiceBits(x: Word, y: Word, z: Word)
    ensures z ^ (x & (y ^ z)) == (x & y) | (!x & z)
  {}

  lemma Majority(x: Word, y: Word, z: Word)
    ensures Or(And(x, y), And(z, Or(x, y))) == Or(Or(And(x, y), And(x, z)), And(y, z))
  {
    calc {
      Or(And(x, y), And(z, Or(x, y)));
      Or(x & y, And(z, x | y));
      (x & y) | (z & (x | y));
      { MajorityBits(x, y, z); }
      (x & y) | (x & z) | (y & z);
      Or((x & y) | (x & z), y & z);
      Or(Or(x & y, x & z), y & z);
      Or(Or(And(x, y), And(x, z)), And(y, z));
    }
  }

  lemma MajorityBits(x: Word, y: Word, z: Word)
    ensures (x & y) | (z & (x | y)) == (x & y) | (x & z) | (y & z)
  {}

  /** The source's forms of the two functions of three words, on the low halves. */
  lemma FLow(t: nat, x: Wide, y: Wide, z: Wide)
    ensures Xor(z.lo, And(x.lo, Xor(y.lo, z.lo))) == Or(And(x.lo, y.lo), And(Not(x.lo), z.lo))
    ensures Or(And(x.lo, y.lo), And(z.lo, Or(x.lo, y.lo))) == Or(Or(And(x.lo, y.lo), And(x.lo, z.lo)), And(y.lo, z.lo))
  {
    hide And;
    hide Or;
    hide Xor;
    hide Not;
    Choice(x.lo, y.lo, z.lo);
    Majority(x.lo, y.lo, z.lo);
  }

  /** GET_UINT32_BE */
  function GetWord(data: seq<Byte>, i: nat): Wide
    requires 4 * i + 4 <= |data|
  {
    Wide(0, WordOf(data, i))
  }

  // ----- one block -----

  /** The register that plays the role of a (0) to e (4) in step t: the roles move back by one in every step. */
  function Role(t: nat, role: nat): (i: nat)
    requires t <= 80 && role < 5
    ensures i < 5
  {
    var i := (80 - t) % 5 + role;
    if i < 5 then i else i - 5
  }

  ghost predicate Plays(regs: seq<Wide>, t: nat, r: Registers)
    requires t <= 80
  {
    && |regs| == 5
    && regs[Role(t, 0)].lo == r.a && regs[Role(t, 1)].lo == r.b && regs[Role(t, 2)].lo == r.c
    && regs[Role(t, 3)].lo == r.d && regs[Role(t, 4)].lo == r.e
  }

  lemma {:induction false} RolesMove(t: nat)
    requires t < 80
    ensures Role(t + 1, 0) == Role(t, 4) && Role(t + 1, 1) == Role(t, 0) && Role(t + 1, 2) == Role(t, 1)
    ensures Role(t + 1, 3) == Role(t, 2) && Role(t + 1, 4) == Role(t, 3)
    ensures Role(t, 0) != Role(t, 1) && Role(t, 0) != Role(t, 2) && Role(t, 0) != Role(t, 3) && Role(t, 0) != Role(t, 4)
    ensures Role(t, 1) != Role(t, 2) && Role(t, 1) != Role(t, 3) && Role(t, 1) != Role(t, 4)
    ensures Role(t, 2) != Role(t, 3) && Role(t, 2) != Role(t, 4) && Role(t, 3) != Role(t, 4)
  {
    var m := (80 - t) % 5;
    assert (79 - t) % 5 == if m == 0 then 4 else m - 1;
    assert m == 0 || m == 1 || m == 2 || m == 3 || m == 4;
  }

  /** The number of the word of the schedule that slot i of the ring holds before step t. */
  function SlotOf(t: nat, i: nat): nat
    requires i < 16
  {
    if t <= 16 then i else if i < t % 16 then t - t % 16 + i else t - 16 - t % 16 + i
  }

  ghost predicate Ring(w: seq<Wide>, block: seq<Byte>, t: nat)
    requires |block| == 64
  {
    |w| == 16 && forall i :: 0 <= i < 16 ==> w[i].lo == W(block, SlotOf(t, i))
  }

  lemma {:induction false} SlotBack(t: nat, d: nat)
    requires 16 <= t && 0 < d <= 16
    ensures SlotOf(t, (t - d) % 16) == t - d
  {}

  lemma {:induction false} SlotMoves(t: nat, i: nat)
    requires 16 <= t && i < 16
    ensures SlotOf(t + 1, i) == if i == t % 16 then t else SlotOf(t, i)
  {
    var u := t % 16;
    assert (t + 1) % 16 == if u == 15 then 0 else u + 1;
  }

  /** The macro R: the next word of the schedule replaces the oldest. */
  method Schedule(w: array<Wide>, t: nat, ghost block: seq<Byte>)
    requires |block| == 64 && w.Length == 16 && 16 <= t && Ring(w[..], block, t)
    modifies w
    ensures Ring(w[..], block, t + 1) && w[t % 16].lo == W(block, t)
  {
    hide S;
    hide WideXor;
    hide SlotOf;
    hide Rotate;
    hide Xor;
    SlotBack(t, 3);
    SlotBack(t, 8);
    SlotBack(t, 14);
    SlotBack(t, 16);
    Sixteen(t);
    ghost var before := w[..];
    var temp := WideXor(WideXor(WideXor(w[(t - 3) % 16], w[(t - 8) % 16]), w[(t - 14) % 16]), w[t % 16]);
    XorLow(w[(t - 3) % 16], w[(t - 8) % 16], w[(t - 14) % 16], w[t % 16]);
    w[t % 16] := S(temp, 1);
    forall i | 0 <= i < 16 ensures w[i].lo == W(block, SlotOf(t + 1, i)) {
      SlotMoves(t, i);
      assert i != t % 16 ==> w[i] == before[i];
    }
  }

  lemma {:induction false} Sixteen(t: nat)
    requires t >= 16
    ensures (t - 16) % 16 == t % 16
  {}

  lemma XorLow(a: Wide, b: Wide, c: Wide, d: Wide)
    ensures WideXor(WideXor(WideXor(a, b), c), d).lo == Xor(Xor(Xor(a.lo, b.lo), c.lo), d.lo)
  {
    hide Xor;
  }

  lemma SumOrder(e: Word, s: Word, f: Word, k: Word, x: Word)
    ensures Add(e, Add(Add(Add(s, f), k), x)) == Add(Add(Add(Add(s, f), e), x), k)
  {
    calc {
      Add(e, Add(Add(Add(s, f), k), x));
      Add(e, Add(Add(s + f, k), x));
      Add(e, Add(s + f + k, x));
      Add(e, s + f + k + x);
      e + (s + f + k + x);
      { SumBits(e, s, f, k, x); }
      s + f + e + x + k;
      Add(s + f + e + x, k);
      Add(Add(s + f + e, x), k);
      Add(Add(Add(s + f, e), x), k);
      Add(Add(Add(Add(s, f), e), x), k);
    }
  }

  lemma SumBits(e: Word, s: Word, f: Word, k: Word, x: Word)
    ensures e + (s + f + k + x) == s + f + e + x + k
  {}

  function WideK(t: nat): Wide { Wide(0, K(t)) }

  /** What the macro P adds to register e. */
  function Increment(t: nat, e: Wide, a: Wide, b: Wide, c: Wide, d: Wide, x: Wide): (r: Wide)
    ensures r.lo == Add(Add(Add(Add(Rotate(a.lo, 5), F(t, b.lo, c.lo, d.lo)), e.lo), x.lo), K(t))
  {
    SumOrder(e.lo, S(a, 5).lo, FWide(t, b, c, d).lo, K(t), x.lo);
    WidePlus(e, WidePlus(WidePlus(WidePlus(S(a, 5), FWide(t, b, c, d)), WideK(t)), x))
  }

  /** The macro P */
  method Step(regs: array<Wide>, t: nat, x: Wide, ghost block: seq<Byte>, ghost r: Registers)
    requires |block| == 64 && regs.Length == 5 && t < 80 && Plays(regs[..], t, r) && x.lo == W(block, t)
    modifies regs
    ensures Plays(regs[..], t + 1, Round(block, r, t))
  {
    RolesMove(t);
    hide Role;
    hide Rotate;
    hide F;
    hide W;
    hide Add;
    hide K;
    hide S;
    hide Increment;
    var a, b, c, d, e := Role(t, 0), Role(t, 1), Role(t, 2), Role(t, 3), Role(t, 4);
    regs[e] := Increment(t, regs[e], regs[a], regs[b], regs[c], regs[d], x);
    regs[b] := S(regs[b], 30);
  }

  function LowOf(state: seq<Wide>): Registers
    requires |state| == 5
  {
    Registers(state[0].lo, state[1].lo, state[2].lo, state[3].lo, state[4].lo)
  }

  lemma {:induction false} FirstRing(w: seq<Wide>, block: seq<Byte>)
    requires |block| == 64 && |w| == 16 && forall i :: 0 <= i < 16 ==> w[i] == GetWord(block, i)
    ensures Ring(w, block, 0) && forall t: nat :: t <= 16 ==> Ring(w, block, t)
  {
    forall i | 0 <= i < 16 ensures w[i].lo == W(block, i) {}
  }

  lemma {:induction false} RolesAround(state: seq<Wide>)
    requires |state| == 5
    ensures Plays(state, 0, LowOf(state))
    ensures forall r :: Plays(state, 80, r) ==> r == LowOf(state)
  {}

  lemma {:induction false} RoundsStep(block: seq<Byte>, h: Registers, t: nat)
    requires |block| == 64
    ensures Rounds(block, h, 0) == h && Rounds(block, h, t + 1) == Round(block, Rounds(block, h, t), t)
  {
    hide Round;
  }

  lemma {:induction false} FirstWord(block: seq<Byte>, t: nat)
    requires |block| == 64 && t < 16
    ensures GetWord(block, t).lo == W(block, t) && t % 16 == t
  {}

  lemma {:induction false} CompressIs(h: Registers, block: seq<Byte>)
    requires |block| == 64
    ensures var r := Rounds(block, h, 80);
            Compress(h, block) == Registers(Add(h.a, r.a), Add(h.b, r.b), Add(h.c, r.c), Add(h.d, r.d), Add(h.e, r.e))
  {
    hide Rounds;
  }

  /** The sums at the end of sha1_process */
  method AddState(state: array<Wide>, regs: array<Wide>)
    requires state.Length == 5 && regs.Length == 5 && state != regs
    modifies state
    ensures var h, r := LowOf(old(state[..])), LowOf(regs[..]);
            LowOf(state[..]) == Registers(Add(h.a, r.a), Add(h.b, r.b), Add(h.c, r.c), Add(h.d, r.d), Add(h.e, r.e))
  {
    hide Add;
    state[0] := WidePlus(state[0], regs[0]);
    state[1] := WidePlus(state[1], regs[1]);
    state[2] := WidePlus(state[2], regs[2]);
    state[3] := WidePlus(state[3], regs[3]);
    state[4] := WidePlus(state[4], regs[4]);
  }

  /** sha1_process: the 80 unrolled steps as a loop. */
  method Process(state: array<Wide>, data: seq<Byte>)
    requires state.Length == 5 && |data| == 64
    modifies state
    ensures LowOf(state[..]) == Compress(LowOf(old(state[..])), data)
  {
    hide *;
    var w := new Wide[16](i requires 0 <= i < 16 => GetWord(data, i));
    var regs := new Wide[5](i requires 0 <= i < 5 reads state => state[i]);
    assert regs[..] == state[..];
    FirstRing(w[..], data);
    RolesAround(state[..]);
    ghost var h := LowOf(state[..]);
    var t := 0;
    RoundsStep(data, h, 0);
    while t < 80
      invariant 0 <= t <= 80 && state[..] == old(state[..])
      invariant t <= 16 ==> forall i :: 0 <= i < 16 ==> w[i] == GetWord(data, i)
      invariant Ring(w[..], data, t)
      invariant Plays(regs[..], t, Rounds(data, h, t))
    {
      if t >= 16 {
        Schedule(w, t, data);
      } else {
        FirstRing(w[..], data);
        FirstWord(data, t);
      }
      Step(regs, t, w[t % 16], data, Rounds(data, h, t));
      RoundsStep(data, h, t);
      t := t + 1;
    }
    RolesAround(regs[..]);
    AddState(state, regs);
    CompressIs(h, data);
  }

  // ----- the stream -----

  lemma {:induction false} NextBlock(text: seq<Byte>, p: nat)
    requires p % 64 == 0 && p + 64 <= |text|
    ensures (p + 64) % 64 == 0
    ensures Blocks(text[..p + 64]) == Compress(Blocks(text[..p]), text[p..p + 64])
  {
    assert text[..p + 64][..p] == text[..p] && text[..p + 64][p..] == text[p..p + 64];
    hide Compress;
  }

  const WRAP := 0x1_0000_0000

  class Sha1Context {
    /** The low 32 bits of the number of bytes, and the overflows. */
    var total0: nat
    var total1: nat
    const state: array<Wide>
    const buffer: array<Byte>
    /** All bytes so far, and how many of them have been processed. */
    ghost var msg: seq<Byte>
    ghost var done: nat

    ghost predicate Valid()
      reads this, state, buffer
    {
      && state.Length == 5 && buffer.Length == 64
      && total0 < WRAP && total1 * WRAP + total0 == |msg|
      && done % 64 == 0 && done <= |msg| < done + 64
      && buffer[..|msg| - done] == msg[done..]
      && LowOf(state[..]) == Blocks(msg[..done])
    }

    /** sha1_starts */
    constructor ()
      ensures Valid() && msg == [] && fresh(state) && fresh(buffer)
    {
      total0, total1 := 0, 0;
      state := new Wide[5][Wide(0, 0x6745_2301), Wide(0, 0xEFCD_AB89), Wide(0, 0x98BA_DCFE), Wide(0, 0x1032_5476),
                           Wide(0, 0xC3D2_E1F0)];
      buffer := new Byte[64];
      msg, done := [], 0;
    }

    /** The buffer that was filled up is the next block. */
    static lemma FirstBlock(text: seq<Byte>, to: nat, was: seq<Byte>, input: seq<Byte>, block: seq<Byte>)
      requires |was| <= 64 && 64 <= |was| + |input| && to <= |text| && text[to..] == was + input
      requires block == was + input[..64 - |was|]
      ensures to + 64 <= |text| && text[to..to + 64] == block
    {
      assert text[to..to + 64] == text[to..][..64];
    }

    /** memcpy into the buffer */
    method Fill(left: nat, input: seq<Byte>)
      requires buffer.Length == 64 && left + |input| <= 64
      modifies buffer
      ensures buffer[..left + |input|] == old(buffer[..left]) + input
    {
      var i := 0;
      while i < |input|
        invariant 0 <= i <= |input|
        invariant buffer[..left] == old(buffer[..left]) && buffer[left..left + i] == input[..i]
      {
        buffer[left + i] := input[i];
        i := i + 1;
      }
      assert buffer[..left + |input|] == buffer[..left] + buffer[left..left + |input|];
    }

    /** The counters in sha1_update */
    method Count(length: nat)
      requires total0 < WRAP && length < WRAP
      modifies this`total0, this`total1
      ensures total0 < WRAP && total1 * WRAP + total0 == old(total1 * WRAP + total0) + length
    {
      AddLength(total0, total1, length);
      total0 := (total0 + length) % WRAP;
      if total0 < length {
        total1 := total1 + 1;
      }
    }

    /** The blocks in sha1_update: what is in the buffer with the input, block by block. */
    method Absorb(start: nat, input: seq<Byte>, ghost text: seq<Byte>, ghost from: nat) returns (ghost to: nat)
      requires state.Length == 5 && buffer.Length == 64 && start < 64 && from % 64 == 0
      requires from + start + |input| == |text| && text[from..] == buffer[..start] + input
      requires LowOf(state[..]) == Blocks(text[..from])
      modifies state, buffer
      ensures to % 64 == 0 && to <= |text| < to + 64 && buffer[..|text| - to] == text[to..]
      ensures LowOf(state[..]) == Blocks(text[..to])
    {
      hide *;
      var left, rest := start, input;
      to := from;
      if left > 0 && |rest| >= 64 - left {
        ghost var was := buffer[..left];
        Fill(left, input[..64 - left]);
        assert buffer[..] == buffer[..64];
        FirstBlock(text, to, was, input, buffer[..]);
        NextBlock(text, to);
        Process(state, buffer[..]);
        rest, to, left := input[64 - left..], to + 64, 0;
      }
      while |rest| >= 64
        invariant left + |rest| >= 64 ==> left == 0
        invariant left < 64 && to % 64 == 0 && to + left + |rest| == |text| && text[to..] == buffer[..left] + rest
        invariant LowOf(state[..]) == Blocks(text[..to])
      {
        assert text[to..to + 64] == rest[..64];
        NextBlock(text, to);
        Process(state, rest[..64]);
        rest, to := rest[64..], to + 64;
      }
      if |rest| > 0 {
        Fill(left, rest);
      }
    }

    /** sha1_update */
    method Update(input: seq<Byte>)
      requires Valid() && |input| < WRAP
      modifies this, state, buffer
      ensures Valid() && msg == old(msg) + input
    {
      hide *;
      UnfoldValid();
      if |input| == 0 {
        assert msg + input == msg;
        return;
      }
      CountLeft(total0, total1, |msg|, done);
      var left := total0 % 64;
      Count(|input|);
      ghost var text := msg + input;
      assert text[..done] == msg[..done] && text[done..] == buffer[..left] + input;
      done := Absorb(left, input, text, done);
      msg := text;
      FoldValid();
    }

    /** sha1_finish */
    method Finish() returns (digest: seq<Byte>)
      requires Valid()
      modifies this, state, buffer
      ensures digest == Digest(old(msg))
    {
      hide *;
      UnfoldValid();
      ghost var text := msg;
      var high := total0 / 0x2000_0000 + total1 * 8;
      var low := total0 * 8;
      var msglen := PutWord(high) + PutWord(low);
      LengthParts(total0, total1);
      CountLeft(total0, total1, |msg|, done);
      var last := total0 % 64;
      var padn := if last < 56 then 56 - last else 120 - last;
      PadIs(text, padn, |text| - done);
      PaddingSize(padn);
      Update(Padding(padn));
      Update(msglen);
      UnfoldValid();
      assert msg == Pad(text);
      Multiples(done, |msg|);
      assert msg[..done] == msg;
      digest := StateBytes(state[..]);
      DigestIs(text, state[..]);
    }

    lemma UnfoldValid()
      requires Valid()
      ensures state.Length == 5 && buffer.Length == 64 && total0 < WRAP && total1 * WRAP + total0 == |msg|
      ensures done % 64 == 0 && done <= |msg| < done + 64 && buffer[..|msg| - done] == msg[done..]
      ensures LowOf(state[..]) == Blocks(msg[..done])
    {}

    lemma FoldValid()
      requires state.Length == 5 && buffer.Length == 64 && total0 < WRAP && total1 * WRAP + total0 == |msg|
      requires done % 64 == 0 && done <= |msg| < done + 64 && buffer[..|msg| - done] == msg[done..]
      requires LowOf(state[..]) == Blocks(msg[..done])
      ensures Valid()
    {}
  }

  lemma {:induction false} CountLeft(t0: nat, t1: nat, n: nat, done: nat)
    requires t1 * WRAP + t0 == n && done % 64 == 0 && done <= n < done + 64
    ensures t0 % 64 == n - done
  {
    assert done == 64 * (done / 64);
    assert t0 == 64 * (done / 64 - t1 * 0x400_0000) + (n - done);
  }

  /** The two counters after an update. */
  lemma {:induction false} AddLength(t0: nat, t1: nat, k: nat)
    requires t0 < WRAP && k < WRAP
    ensures var u0 := (t0 + k) % WRAP;
            u0 < WRAP && (if u0 < k then t1 + 1 else t1) * WRAP + u0 == t1 * WRAP + t0 + k
  {}

  /** PUT_UINT32_BE of a number that may be wider */
  function PutWord(n: nat): seq<Byte> { [Octet(n, 3), Octet(n, 2), Octet(n, 1), Octet(n, 0)] }

  /** The first bytes of sha1_padding */
  function Padding(n: nat): seq<Byte>
    requires 0 < n
  {
    [0x80] + Zeros(n - 1)
  }

  function StateBytes(state: seq<Wide>): seq<Byte>
    requires |state| == 5
  {
    BytesOf(state[0].lo) + BytesOf(state[1].lo) + BytesOf(state[2].lo) + BytesOf(state[3].lo) + BytesOf(state[4].lo)
  }

  lemma {:induction false} Powers256()
    ensures Power256(0) == 1 && Power256(1) == 256 && Power256(2) == 65536 && Power256(3) == 16777216
    ensures Power256(4) == WRAP && Power256(5) == 256 * WRAP && Power256(6) == 65536 * WRAP
    ensures Power256(7) == 16777216 * WRAP
  {
    assert Power256(4) == 256 * Power256(3);
    assert Power256(5) == 256 * Power256(4);
  }

  lemma {:induction false} MulGap(d: nat, p: nat, q: nat)
    requires p < q
    ensures d * q >= d * p + d
  {
    assert d * q == d * p + d * (q - p);
    assert d * (q - p) == d + d * (q - p - 1);
  }

  lemma {:induction false} QuotientIs(n: nat, d: nat, q: nat, r: nat)
    requires r < d && n == d * q + r
    ensures n / d == q
  {
    var p := n / d;
    assert n == d * p + n % d && 0 <= n % d < d;
    if p < q { MulGap(d, p, q); }
    if q < p { MulGap(d, q, p); }
  }

  /** The bytes of a number of two words are the bytes of its words. */
  lemma {:induction false} OctetHigh(high: nat, l: nat, k: nat)
    requires l < WRAP && k < 4
    ensures Octet(high * WRAP + l, 4 + k) == Octet(high, k)
  {
    Powers256();
    var n := high * WRAP + l;
    assert n / WRAP == high;
    assert n / (256 * WRAP) == n / WRAP / 256;
    assert n / (65536 * WRAP) == n / WRAP / 65536;
    assert n / (16777216 * WRAP) == n / WRAP / 16777216;
    assert k == 0 || k == 1 || k == 2 || k == 3;
  }

  lemma {:induction false} OctetLow(high: nat, l: nat, k: nat)
    requires k < 4
    ensures Octet(high * WRAP + l, k) == Octet(l, k)
  {
    Powers256();
    var m := if k == 0 then 0x100_0000 else if k == 1 then 0x1_0000 else if k == 2 then 0x100 else 1;
    assert WRAP == 256 * m * Power256(k);
    LowPart(high * m, l, Power256(k));
    assert high * WRAP == 256 * (high * m) * Power256(k);
  }

  lemma {:induction false} LowPart(h: nat, l: nat, p: nat)
    requires p > 0
    ensures (256 * h * p + l) / p % 256 == l / p % 256
  {
    var q, r := l / p, l % p;
    assert 256 * h * p + l == p * (256 * h + q) + r;
    QuotientIs(256 * h * p + l, p, 256 * h + q, r);
  }

  lemma {:induction false} LengthWords(t0: nat, t1: nat) returns (high: nat, l: nat)
    ensures high == t0 / 0x2000_0000 + t1 * 8 && l < WRAP
    ensures 8 * (t1 * WRAP + t0) == high * WRAP + l && t0 * 8 == t0 / 0x2000_0000 * WRAP + l
  {
    high, l := t0 / 0x2000_0000 + t1 * 8, t0 % 0x2000_0000 * 8;
  }

  /** The two words of the length are the number of bits, whatever the counters hold. */
  lemma {:induction false} LengthParts(t0: nat, t1: nat)
    ensures PutWord(t0 / 0x2000_0000 + t1 * 8) + PutWord(t0 * 8) == LengthBytes(t1 * WRAP + t0)
  {
    var high, l := LengthWords(t0, t1);
    hide Octet;
    forall k | 0 <= k < 4
      ensures Octet(8 * (t1 * WRAP + t0), 4 + k) == Octet(high, k)
      ensures Octet(8 * (t1 * WRAP + t0), k) == Octet(t0 * 8, k)
    {
      OctetHigh(high, l, k);
      OctetLow(high, l, k);
      OctetLow(t0 / 0x2000_0000, l, k);
    }
  }

  lemma {:induction false} PadIs(text: seq<Byte>, padn: nat, last: nat)
    requires last < 64 && (|text| - last) % 64 == 0 && last <= |text|
    requires padn == if last < 56 then 56 - last else 120 - last
    ensures Pad(text) == text + Padding(padn) + LengthBytes(|text|)
  {
    assert |text| % 64 == last;
    assert (119 - last) % 64 == padn - 1;
    assert text + [0x80] + Zeros(padn - 1) == text + ([0x80] + Zeros(padn - 1));
  }

  lemma {:induction false} PaddingSize(padn: nat)
    requires 0 < padn <= 64
    ensures |Padding(padn)| == padn < WRAP
    ensures forall n, m :: |PutWord(n) + PutWord(m)| < WRAP
  {}

  lemma {:induction false} Multiples(done: nat, n: nat)
    requires done % 64 == 0 && done <= n < done + 64 && n % 64 == 0
    ensures done == n
  {}

  lemma {:induction false} DigestIs(text: seq<Byte>, state: seq<Wide>)
    requires |state| == 5 && LowOf(state) == Blocks(Pad(text))
    ensures StateBytes(state) == Digest(text)
  {
    hide Blocks;
    hide Pad;
    hide BytesOf;
  }

  // ----- whole messages -----

  function Concat(parts: seq<seq<Byte>>): seq<Byte> {
    if parts == [] then [] else Concat(parts[..|parts| - 1]) + parts[|parts| - 1]
  }

  /** sha1_csum */
  method Checksum(input: seq<Byte>) returns (digest: seq<Byte>)
    requires |input| < WRAP
    ensures digest == Digest(input)
  {
    hide *;
    var ctx := new Sha1Context();
    ctx.Update(input);
    assert [] + input == input;
    digest := ctx.Finish();
  }

  /** However a message is cut into updates, the digest is that of the whole. */
  method ChecksumOfParts(parts: seq<seq<Byte>>) returns (digest: seq<Byte>)
    requires forall i :: 0 <= i < |parts| ==> |parts[i]| < WRAP
    ensures digest == Digest(Concat(parts))
  {
    hide Digest;
    hide Blocks;
    var ctx := new Sha1Context();
    for i := 0 to |parts|
      invariant ctx.Valid() && fresh(ctx) && fresh(ctx.state) && fresh(ctx.buffer) && ctx.msg == Concat(parts[..i])
    {
      assert parts[..i + 1][..i] == parts[..i];
      ctx.Update(parts[i]);
    }
    assert parts[..|parts|] == parts;
    digest := ctx.Finish();
  }
}
