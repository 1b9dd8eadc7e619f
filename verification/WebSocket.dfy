/** process_websocket_frame of src/http.c: the frame parser of a WebSocket connection, one byte at a time, on the
    read buffer of its socket. */
module WebSockets {
  import opened Bytes
  import opened WebSocketFrames

  datatype Step = StepKey | StepStart | StepLength | StepShortLength | StepExtendedLength | StepData

  const MAXBUFFER := 502400

  /** The last n bytes. */
  function Tail(s: seq<Byte>, n: nat): seq<Byte>
    requires n <= |s|
  {
    s[|s| - n..]
  }

  method SetByte(data: array<Byte>, ghost from: nat, at: nat, ghost end: nat, b: Byte)
    requires from <= at < end <= data.Length
    modifies data
    ensures data[from..at + 1] == old(data[from..at]) + [b]
    ensures data[at + 1..end] == old(data[at + 1..end])
  {
    data[at] := b;
  }

  class WebSocket {
    // the read buffer; one byte more than its size is allocated
    var data: array<Byte>
    var size: nat
    var length: nat
    // the state of the parser
    var offset: nat
    var step: Step
    const key: array<Byte>
    var keyPos: nat
    var start: Byte
    /** The bytes of a length while it is being read; the source keeps them in the memory of extended_length. */
    const lengthBytes: array<Byte>
    var extendedLength: nat
    var dataPos: nat
    var dataInkey: nat
    var framePos: int
    /** The calls of onready, and the pongs. */
    var delivered: seq<Delivery>

    /** All frames that the client will send, how many have been delivered, and the position in their stream
        of the first byte of the buffer. */
    ghost const frames: seq<Frame>
    ghost var done: nat
    ghost var base: nat

    ghost predicate Allocated()
      reads this
    {
      && key.Length == 4 && lengthBytes.Length == 8 && data.Length == size + 1 && 0 < size && length <= size
      && key != lengthBytes && key != data && lengthBytes != data
    }

    /** parser_init_stream, with the step that the handshake sets */
    constructor (size: nat, ghost frames: seq<Frame>)
      requires 0 < size && ValidFrames(frames)
      ensures Valid() && offset == 0 && length == 0 && base == 0 && this.frames == frames && this.size == size
      ensures fresh(key) && fresh(lengthBytes) && fresh(data)
    {
      data, key, lengthBytes := new Byte[size + 1](_ => 0), new Byte[4](_ => 0), new Byte[8](_ => 0);
      this.size, length, offset, step, keyPos, start := size, 0, 0, StepStart, 0, 0;
      extendedLength, dataPos, dataInkey, framePos, delivered := 0, 0, 0, 0, [];
      this.frames, done, base := frames, 0, 0;
      new;
      if frames != [] { EncodeAt(frames[0], 0); }
    }

    /** The parser has read the first pos bytes of the frame f, the last of them just before the offset. */
    ghost predicate InFrame(f: Frame, pos: nat)
      requires ValidFrame(f) && Allocated()
      reads this, key, lengthBytes, data
    {
      var h := HeaderSize(f);
      && framePos == pos && pos <= offset <= length && pos < |Encode(f)|
      && (pos >= 1 ==> start == f.start)
      && (pos < h ==> keyPos == 0 && dataPos == 0)
      && (pos == 0 ==> step == StepStart)
      && (pos == 1 ==> step == StepLength)
      && (2 <= pos < h ==>
            && step == (if f.form.Bits16? then StepShortLength else StepExtendedLength)
            && lengthBytes[..pos - 2] == LengthBytes(f)[..pos - 2])
      && (h <= pos < h + 4 ==>
            && step == StepKey && keyPos == pos - h && dataPos == 0
            && extendedLength == |f.payload| && key[..pos - h] == f.key[..pos - h])
      && (h + 4 <= pos ==>
            var n := pos - h - 4;
            && step == StepData && key[..] == f.key && dataInkey == n && extendedLength == |f.payload| - n
            && (if n == 0 then dataPos == 0
                else n <= offset && dataPos == offset - n && Tail(data[..offset], n) == f.payload[..n]))
    }

    method OnStart(b: Byte, ghost f: Frame)
      requires ValidFrame(f) && Allocated() && InFrame(f, 0) && offset < length && b == Encode(f)[0]
      modifies this`start, this`step, this`offset, this`framePos
      ensures Allocated() && InFrame(f, 1) && offset == old(offset) + 1
    {
      hide Encode;
      EncodeAt(f, 0);
      start := b;
      step := StepLength;
      offset, framePos := offset + 1, framePos + 1;
    }

    method OnLength(b: Byte, ghost f: Frame)
      requires ValidFrame(f) && Allocated() && InFrame(f, 1) && offset < length && b == Encode(f)[1]
      modifies this`extendedLength, this`step, this`offset, this`framePos
      ensures Allocated() && InFrame(f, 2) && offset == old(offset) + 1
    {
      hide Encode;
      EncodeAt(f, 1);
      assert b >= 128;
      match b % 128 {
        case 126 => step := StepShortLength;
        case 127 => step := StepExtendedLength;
        case n =>
          extendedLength := n;
          step := StepKey;
      }
      offset, framePos := offset + 1, framePos + 1;
    }

    method OnShortLength(b: Byte, ghost f: Frame, ghost pos: nat)
      requires ValidFrame(f) && Allocated() && InFrame(f, pos) && offset < length && b == Encode(f)[pos]
      requires step.StepShortLength?
      modifies this`extendedLength, this`step, this`offset, this`framePos, lengthBytes
      ensures Allocated() && InFrame(f, pos + 1) && offset == old(offset) + 1
    {
      hide Encode;
      EncodeAt(f, pos);
      lengthBytes[framePos - 2] := b;
      if framePos == 3 {
        LengthBack(f);
        extendedLength := Number16(lengthBytes[0], lengthBytes[1]);
        step := StepKey;
      }
      offset, framePos := offset + 1, framePos + 1;
    }

    method OnExtendedLength(b: Byte, ghost f: Frame, ghost pos: nat)
      requires ValidFrame(f) && Allocated() && InFrame(f, pos) && offset < length && b == Encode(f)[pos]
      requires step.StepExtendedLength?
      modifies this`extendedLength, this`step, this`offset, this`framePos, lengthBytes
      ensures Allocated() && InFrame(f, pos + 1) && offset == old(offset) + 1
    {
      hide Encode;
      EncodeAt(f, pos);
      lengthBytes[framePos - 2] := b;
      if framePos == 9 {
        // the low 32 bits, most significant first
        LengthBack(f);
        assert lengthBytes[..8] == LengthBytes(f)[..8];
        extendedLength := Number32(lengthBytes[4], lengthBytes[5], lengthBytes[6], lengthBytes[7]);
        step := StepKey;
      }
      offset, framePos := offset + 1, framePos + 1;
    }

    method OnKey(b: Byte, ghost f: Frame, ghost pos: nat)
      requires ValidFrame(f) && Allocated() && InFrame(f, pos) && offset < length && b == Encode(f)[pos]
      requires step.StepKey?
      modifies this`keyPos, this`step, this`dataInkey, this`offset, this`framePos, key
      ensures Allocated() && InFrame(f, pos + 1) && offset == old(offset) + 1
    {
      hide Encode;
      hide LengthBytes;
      EncodeAt(f, pos);
      key[keyPos] := b;
      keyPos := keyPos + 1;
      if keyPos == 4 {
        step := StepData;
        dataInkey := 0;
      }
      offset, framePos := offset + 1, framePos + 1;
    }

    /** What is known before a byte of the payload is unmasked. */
    lemma Masked(f: Frame, pos: nat)
      requires ValidFrame(f) && Allocated() && InFrame(f, pos) && offset < length && data[offset] == Encode(f)[pos]
      requires step.StepData?
      ensures var n := pos - HeaderSize(f) - 4;
              && 0 <= n < |f.payload| && n <= offset && 0 < offset
              && extendedLength == |f.payload| - n && dataInkey == n
              && Xor(data[offset], key[n % 4]) == f.payload[n]
              && (if n == 0 then dataPos == 0
                  else 0 < dataPos == offset - n && data[dataPos..offset] == f.payload[..n])
              && f.payload[..n + 1] == f.payload[..n] + [f.payload[n]]
    {
      hide Encode;
      hide LengthBytes;
      hide LengthCode;
      hide XorBits;
      EncodeAt(f, pos);
      var n := pos - HeaderSize(f) - 4;
      XorTwice(f.payload[n], f.key[n % 4]);
      if n > 0 { assert data[dataPos..offset] == Tail(data[..offset], n); }
    }

    /** The first byte of the payload marks where it begins. */
    method Mark(ghost payload: seq<Byte>)
      requires Allocated() && dataInkey <= |payload| && dataInkey <= offset < length && 0 < offset
      requires if dataInkey == 0 then dataPos == 0
               else 0 < dataPos == offset - dataInkey && data[dataPos..offset] == payload[..dataInkey]
      modifies this`dataPos
      ensures Allocated() && 0 < dataPos == offset - dataInkey && data[dataPos..offset] == payload[..dataInkey]
    {
      if dataPos == 0 {
        dataPos := offset;
      }
    }

    /** The part of the data step that every byte goes through. */
    method Unmask(ghost f: Frame, ghost pos: nat)
      requires ValidFrame(f) && Allocated() && InFrame(f, pos) && offset < length && data[offset] == Encode(f)[pos]
      requires step.StepData?
      modifies this`dataPos, this`dataInkey, this`extendedLength, data
      ensures Allocated()
      ensures var n := pos + 1 - HeaderSize(f) - 4;
              && 0 < n <= |f.payload| && n <= offset + 1 && extendedLength == |f.payload| - n && dataInkey == n
              && dataPos + n == offset + 1 && dataPos > 0 && data[dataPos..offset + 1] == f.payload[..n]
      ensures data[offset + 1..length] == old(data[offset + 1..length])
    {
      Masked(f, pos);
      hide InFrame;
      hide Encode;
      hide Xor;
      hide ValidFrame;
      hide HeaderSize;
      hide Wire;
      hide Deliveries;
      hide AtStart;
      hide Valid;
      Mark(f.payload);
      XorHere(f.payload);
    }

    /** *pData ^= key, and the counters */
    method XorHere(ghost payload: seq<Byte>)
      requires Allocated() && dataInkey < |payload| && 0 < extendedLength && dataInkey <= offset < length
      requires 0 < dataPos == offset - dataInkey && data[dataPos..offset] == payload[..dataInkey]
      requires Xor(data[offset], key[dataInkey % 4]) == payload[dataInkey]
      requires payload[..dataInkey + 1] == payload[..dataInkey] + [payload[dataInkey]]
      modifies this`dataInkey, this`extendedLength, data
      ensures Allocated() && dataInkey == old(dataInkey) + 1 && extendedLength == old(extendedLength) - 1
      ensures data[dataPos..offset + 1] == payload[..dataInkey]
      ensures data[offset + 1..length] == old(data[offset + 1..length])
    {
      hide Xor;
      SetByte(data, dataPos, offset, length, Xor(data[offset], key[dataInkey % 4]));
      dataInkey := dataInkey + 1;
      extendedLength := extendedLength - 1;
    }

    /** A byte within the payload */
    method OnInnerData(ghost f: Frame, ghost pos: nat)
      requires ValidFrame(f) && Allocated() && framePos == pos && pos <= offset < length && step.StepData?
      requires start == f.start && key[..] == f.key
      requires var n := pos + 1 - HeaderSize(f) - 4;
               && 0 < n < |f.payload| && n <= offset + 1 && extendedLength == |f.payload| - n && dataInkey == n
               && dataPos + n == offset + 1 && data[dataPos..offset + 1] == f.payload[..n]
      modifies this`offset, this`framePos
      ensures Allocated() && InFrame(f, pos + 1) && offset == old(offset) + 1 <= length
    {
      offset, framePos := offset + 1, framePos + 1;
      StillData(f, pos + 1);
    }

    /** A byte of the payload; after the last one the frame ends. */
    method OnData(ghost f: Frame, ghost pos: nat) returns (ended: bool, stop: bool)
      requires ValidFrame(f) && Allocated() && InFrame(f, pos) && offset < length && data[offset] == Encode(f)[pos]
      requires step.StepData?
      modifies this`dataPos, this`extendedLength, this`offset, this`framePos, this`step, this`keyPos, this`length,
               this`base, this`done, this`delivered, this`dataInkey, data
      ensures Allocated() && data == old(data) && offset <= length && (ended <==> pos + 1 == |Encode(f)|)
      ensures data[offset..length] == old(data[offset + 1..length])
      ensures base + offset == old(base + offset) + 1 && base + length == old(base + length)
      ensures ended ==> AtStart() && done == old(done) + 1 && delivered == old(delivered) + DeliveryOf(f)
      ensures ended ==> (stop <==> offset == length)
      ensures !ended ==> InFrame(f, pos + 1) && done == old(done) && delivered == old(delivered) && !stop
    {
      DataParts(f, pos);
      hide Encode;
      hide DeliveryOf;
      hide InFrame;
      hide ValidFrame;
      hide HeaderSize;
      Unmask(f, pos);
      if extendedLength == 0 {
        stop := EndFrame(f);
        StartBounds();
        ended := true;
      } else {
        OnInnerData(f, pos);
        ended, stop := false, false;
      }
    }

    lemma DataParts(f: Frame, pos: nat)
      requires Allocated() && ValidFrame(f) && InFrame(f, pos) && step.StepData?
      ensures start == f.start && key[..] == f.key && framePos == pos && pos >= HeaderSize(f) + 4
      ensures pos <= offset <= length && |Encode(f)| == HeaderSize(f) + 4 + |f.payload|
    {
      EncodeAt(f, pos);
      hide Encode;
      hide LengthBytes;
    }

    lemma StillData(f: Frame, pos: nat)
      requires Allocated() && ValidFrame(f) && framePos == pos && pos <= offset <= length
      requires start == f.start && key[..] == f.key && step.StepData?
      requires var n := pos - HeaderSize(f) - 4;
               && 0 < n < |f.payload| && n <= offset && extendedLength == |f.payload| - n && dataInkey == n
               && dataPos == offset - n && data[dataPos..offset] == f.payload[..n]
      ensures InFrame(f, pos)
    {
      EncodeAt(f, pos);
      hide Encode;
      hide LengthBytes;
      assert Tail(data[..offset], pos - HeaderSize(f) - 4) == data[dataPos..offset];
    }

    /** Between two frames. */
    ghost predicate AtStart()
      reads this
    {
      step == StepStart && framePos == 0 && keyPos == 0 && dataPos == 0 && offset <= length
    }

    /** The switch on the opcode at the end of a frame. */
    method Deliver(from: nat, ghost f: Frame)
      requires ValidFrame(f) && Allocated() && offset < length && start == f.start
      requires from <= offset && data[from..offset + 1] == f.payload
      modifies this`delivered, data
      ensures delivered == old(delivered) + DeliveryOf(f) && data[..] == old(data[..])
    {
      match start % 16 {
        case 9 =>
          delivered := delivered + [Pong(data[from..offset + 1])];
        case 10 =>
        case _ =>
          var saved := data[offset + 1];
          data[offset + 1] := 0;
          delivered := delivered + [Message(data[from..offset + 1])];
          data[offset + 1] := saved;
      }
    }

    /** The end of a frame: the payload goes to the application, a ping is answered. */
    method EndFrame(ghost f: Frame) returns (stop: bool)
      requires ValidFrame(f) && Allocated() && offset < length && start == f.start && extendedLength == 0
      requires dataPos <= offset && dataPos + |f.payload| == offset + 1 && data[dataPos..offset + 1] == f.payload
      modifies this`dataPos, this`extendedLength, this`offset, this`framePos, this`step, this`keyPos, this`length,
               this`base, this`done, this`delivered, data
      ensures Allocated() && AtStart() && data == old(data)
      ensures done == old(done) + 1 && delivered == old(delivered) + DeliveryOf(f)
      ensures base + offset == old(base + offset) + 1 && base + length == old(base + length)
      ensures data[offset..length] == old(data[offset + 1..length])
      ensures stop <==> offset == length
    {
      hide DeliveryOf;
      hide Encode;
      hide ValidFrame;
      var from := dataPos;
      step, framePos, dataPos, keyPos := StepStart, -1, 0, 0;
      ghost var after := data[offset + 1..length];
      assert after == data[..][offset + 1..length];
      Deliver(from, f);
      assert data[offset + 1..length] == data[..][offset + 1..length];
      done := done + 1;
      stop := NextOrReset();
    }

    /** After a frame: the buffer starts anew when all of it has been read. */
    method NextOrReset() returns (stop: bool)
      requires Allocated() && offset < length && step == StepStart && framePos == -1 && dataPos == 0 && keyPos == 0
      modifies this`base, this`offset, this`length, this`framePos, this`keyPos
      ensures Allocated() && AtStart() && (stop <==> offset == length)
      ensures base + offset == old(base + offset) + 1 && base + length == old(base + length)
      ensures data[offset..length] == old(data[offset + 1..length])
    {
      if offset + 1 == length {
        base := base + length;
        offset, length, framePos, keyPos := 0, 0, 0, 0;
        return true;
      }
      offset, framePos := offset + 1, framePos + 1;
      return false;
    }

    /** The buffer holds what the parser has not read yet, and all frames that have been read are delivered. */
    ghost predicate Valid()
      reads this, key, lengthBytes, data
    {
      && Allocated() && ValidFrames(frames) && done <= |frames| && offset <= length
      && delivered == Deliveries(frames[..done])
      && base + length <= |Wire(frames)|
      && data[offset..length] == Wire(frames)[base + offset..base + length]
      && |Wire(frames[..done])| <= base + offset
      && var pos := base + offset - |Wire(frames[..done])|;
         if done < |frames| then InFrame(frames[done], pos) else pos == 0 && AtStart()
    }

    /** The frame that is being read, and how much of it has been read. */
    lemma Here() returns (f: Frame, pos: nat)
      requires Valid() && offset < length
      ensures done < |frames| && f == frames[done] && ValidFrame(f) && Allocated() && InFrame(f, pos)
      ensures base + offset == |Wire(frames[..done])| + pos && pos < |Encode(f)| && data[offset] == Encode(f)[pos]
      ensures framePos == pos && (pos == 0 <==> step.StepStart?) && (pos == 1 <==> step.StepLength?)
      ensures !step.StepData? ==> pos + 1 < |Encode(f)|
    {
      hide InFrame;
      hide Wire;
      hide Deliveries;
      hide AtStart;
      hide Encode;
      WireMonotone(frames, done);
      assert data[offset] == data[offset..length][0];
      f, pos := frames[done], base + offset - |Wire(frames[..done])|;
      Where(f, pos);
      WireAt(frames, done, pos);
    }

    lemma Where(f: Frame, pos: nat)
      requires Allocated() && ValidFrame(f) && InFrame(f, pos)
      ensures framePos == pos && (pos == 0 <==> step.StepStart?) && (pos == 1 <==> step.StepLength?)
      ensures pos < |Encode(f)| && (!step.StepData? ==> pos + 1 < |Encode(f)|)
    {
      EncodeAt(f, pos);
      hide Encode;
      hide LengthBytes;
    }

    lemma Rest()
      requires Valid() && offset < length
      ensures data[offset + 1..length] == Wire(frames)[base + offset + 1..base + length]
      ensures delivered == Deliveries(frames[..done]) && base + length <= |Wire(frames)| && ValidFrames(frames)
    {
      assert data[offset + 1..length] == data[offset..length][1..];
    }

    /** After one more byte of the same frame. */
    lemma Further(pos: nat)
      requires Allocated() && ValidFrames(frames) && done < |frames| && InFrame(frames[done], pos)
      requires delivered == Deliveries(frames[..done]) && base + length <= |Wire(frames)|
      requires data[offset..length] == Wire(frames)[base + offset..base + length]
      requires base + offset == |Wire(frames[..done])| + pos
      ensures Valid()
    {
      hide InFrame;
      hide Wire;
      hide Deliveries;
      hide Encode;
      hide AtStart;
      InBuffer(frames[done], pos);
    }

    lemma InBuffer(f: Frame, pos: nat)
      requires Allocated() && ValidFrame(f) && InFrame(f, pos)
      ensures offset <= length
    {}

    lemma StartBounds()
      requires AtStart()
      ensures offset <= length
    {}

    lemma StartFrame(f: Frame)
      requires Allocated() && AtStart() && ValidFrame(f)
      ensures InFrame(f, 0)
    {
      EncodeAt(f, 0);
    }

    /** After the last byte of a frame. */
    lemma Ended(k: nat)
      requires Allocated() && AtStart() && ValidFrames(frames) && done == k + 1 <= |frames|
      requires delivered == Deliveries(frames[..k]) + DeliveryOf(frames[k]) && base + length <= |Wire(frames)|
      requires data[offset..length] == Wire(frames)[base + offset..base + length]
      requires base + offset == |Wire(frames[..k])| + |Encode(frames[k])|
      ensures Valid()
    {
      hide InFrame;
      hide Wire;
      hide Deliveries;
      hide DeliveryOf;
      hide Encode;
      hide AtStart;
      DeliveriesNext(frames, k);
      WireAt(frames, k, 0);
      StartBounds();
      if done < |frames| { StartFrame(frames[done]); }
    }

    /** One turn of the loop of process_websocket_frame. */
    method NextByte() returns (stop: bool)
      requires Valid() && offset < length
      modifies this`dataPos, this`extendedLength, this`offset, this`framePos, this`step, this`keyPos, this`length,
               this`base, this`done, this`delivered, this`dataInkey, this`start,
               key, lengthBytes, data
      ensures Valid() && data == old(data) && base + length == old(base + length)
      ensures base + offset == old(base + offset) + 1
      ensures stop ==> offset == length
    {
      hide Valid;
      hide InFrame;
      hide AtStart;
      hide Encode;
      hide Wire;
      hide Deliveries;
      hide DeliveryOf;
      hide ValidFrame;
      ghost var f, pos := Here();
      ghost var k := done;
      var b := data[offset];
      stop := false;
      Rest();
      match step {
        case StepStart => OnStart(b, f);
        case StepLength => OnLength(b, f);
        case StepShortLength => OnShortLength(b, f, pos);
        case StepExtendedLength => OnExtendedLength(b, f, pos);
        case StepKey => OnKey(b, f, pos);
        case StepData =>
          var ended;
          ended, stop := OnData(f, pos);
          if ended {
            Ended(k);
            return;
          }
      }
      Further(pos + 1);
    }

    /** process_websocket_frame */
    method ProcessFrame()
      requires Valid()
      modifies this`dataPos, this`extendedLength, this`offset, this`framePos, this`step, this`keyPos, this`length,
               this`base, this`done, this`delivered, this`dataInkey, this`start,
               key, lengthBytes, data
      ensures Valid() && offset == length && data == old(data) && base + length == old(base + length)
    {
      hide Valid;
      hide InFrame;
      hide Wire;
      ValidBounds();
      while offset < length
        invariant Valid() && offset <= length && data == old(data) && base + length == old(base + length)
        decreases base + length - (base + offset)
      {
        var stop := NextByte();
        if stop {
          break;
        }
        ValidBounds();
      }
    }

    lemma ValidBounds()
      requires Valid()
      ensures offset <= length <= size && Allocated() && base + length <= |Wire(frames)| && ValidFrames(frames)
    {}

    /** The parser does not look at what lies behind the offset. */
    twostate lemma SameFrame(new f: Frame, new pos: nat)
      requires ValidFrame(f) && Allocated() && old(Allocated()) && old(InFrame(f, pos)) && old(length) <= length
      requires unchanged(this`offset, this`step, this`keyPos, this`start, this`extendedLength, this`dataPos)
      requires unchanged(this`dataInkey, this`framePos)
      requires key[..] == old(key[..]) && lengthBytes[..] == old(lengthBytes[..])
      requires data[..offset] == old(data[..offset])
      ensures InFrame(f, pos)
    {}

    /** memcpy behind what the buffer holds */
    method Copy(chunk: seq<Byte>)
      requires Allocated() && |chunk| <= size - length
      modifies data
      ensures data[..length] == old(data[..length]) && data[length..length + |chunk|] == chunk
      ensures key[..] == old(key[..]) && lengthBytes[..] == old(lengthBytes[..])
    {
      var i := 0;
      while i < |chunk|
        invariant 0 <= i <= |chunk|
        invariant data[..length] == old(data[..length]) && data[length..length + i] == chunk[..i]
        invariant key[..] == old(key[..]) && lengthBytes[..] == old(lengthBytes[..])
      {
        data[length + i] := chunk[i];
        i := i + 1;
      }
    }

    /** The bytes of a read. */
    method Fill(chunk: seq<Byte>)
      requires Valid() && offset == length && |chunk| <= size - length && base + length + |chunk| <= |Wire(frames)|
      requires chunk == Wire(frames)[base + length..base + length + |chunk|]
      modifies this`length, data
      ensures Valid() && length == old(length) + |chunk|
    {
      hide Wire;
      hide Deliveries;
      hide Encode;
      hide InFrame;
      Copy(chunk);
      length := length + |chunk|;
      if done < |frames| { SameFrame(frames[done], base + offset - |Wire(frames[..done])|); }
    }

    /** xrealloc to twice the size */
    method Grow()
      requires Valid()
      modifies this`size, this`data
      ensures Valid() && size == 2 * old(size) && fresh(data)
    {
      hide Wire;
      hide Deliveries;
      hide Encode;
      hide InFrame;
      var more := Enlarged();
      assert more[..offset] == data[..offset] && more[offset..length] == data[offset..length];
      size, data := 2 * size, more;
      if done < |frames| { SameFrame(frames[done], base + offset - |Wire(frames[..done])|); }
    }

    method Enlarged() returns (more: array<Byte>)
      requires Allocated()
      ensures fresh(more) && more.Length == 2 * size + 1 && forall i :: 0 <= i <= size ==> more[i] == data[i]
    {
      more := new Byte[2 * size + 1](_ => 0);
      var i := 0;
      while i <= size
        invariant 0 <= i <= size + 1 && forall j :: 0 <= j < i ==> more[j] == data[j]
      {
        more[i] := data[i];
        i := i + 1;
      }
    }

    /** One read of the socket: at most what fits into the buffer, which doubles when it is full; then
        process_websocket, which shuts the socket down when the buffer holds too much. */
    method Read(chunk: seq<Byte>) returns (shut: bool)
      requires Valid() && offset == length && 0 < |chunk| <= size - length
      requires base + length + |chunk| <= |Wire(frames)|
      requires chunk == Wire(frames)[base + length..base + length + |chunk|]
      modifies this, key, lengthBytes, data
      ensures Valid() && base + length == old(base + length) + |chunk| && (data == old(data) || fresh(data))
      ensures size == (if old(length) + |chunk| == old(size) then 2 else 1) * old(size)
      ensures shut <==> old(length) + |chunk| > 502400
      ensures if shut then delivered == old(delivered) else offset == length
    {
      hide Valid;
      hide Wire;
      ValidBounds();
      Fill(chunk);
      if length == size {
        Grow();
      }
      ValidBounds();
      if length > MAXBUFFER {
        return true;
      }
      ProcessFrame();
      return false;
    }

    /** Once the whole stream has been read, every frame has been delivered, in order and once. */
    lemma AllDelivered()
      requires Valid() && offset == length && base + length == |Wire(frames)|
      ensures delivered == Deliveries(frames)
    {
      WireMonotone(frames, done);
      if done < |frames| {
        WireAt(frames, done, 0);
      } else {
        assert frames[..done] == frames;
      }
    }
  }
}
