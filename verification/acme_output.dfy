/**
 * The byte side of GifAcmeEncoder's output(): codes are or-ed into a bit
 * accumulator above the bits already there, whole bytes go into a packet,
 * and a packet is written with its length byte once it holds 254 bytes
 * (char_out, flush_char). At the end code the last partial byte and the
 * last packet follow.
 */
module AcmeOutput {
  import opened JavaInt
  import opened Bits
  import opened Wrappers

  /** char_out flushes a packet once it holds this many bytes. */
  const PacketSize: nat := 254

  /** cur_accum, cur_bits, the packet accum[0..a_count) and what has been written. */
  datatype Packer = Packer(accum: int, bits: int, packet: seq<Byte>, out: seq<Byte>)

  const Empty: Packer := Packer(0, 0, [], [])

  /** flush_char: a non-empty packet goes out behind its length. */
  function FlushChar(p: Packer): (r: Packer)
    requires |p.packet| <= PacketSize
    ensures r.packet == [] && r.accum == p.accum && r.bits == p.bits
    ensures |p.packet| > 0 ==> r.out == p.out + [|p.packet|] + p.packet
    ensures |p.packet| == 0 ==> r.out == p.out
  {
    if |p.packet| > 0 then p.(out := p.out + [|p.packet|] + p.packet, packet := []) else p
  }

  /** char_out: append a byte; a full packet is flushed. */
  function CharOut(p: Packer, b: Byte): (r: Packer)
    requires |p.packet| < PacketSize
    ensures |r.packet| < PacketSize && p.out <= r.out
  {
    var q := p.(packet := p.packet + [b]);
    if |q.packet| >= PacketSize then FlushChar(q) else q
  }

  /** The loop of output that hands whole bytes of the accumulator to char_out. */
  function Drain(p: Packer): (r: Packer)
    requires |p.packet| < PacketSize
    ensures |r.packet| < PacketSize && p.out <= r.out
    ensures r.bits == (if p.bits >= 8 then p.bits % 8 else p.bits)
    decreases p.bits
  {
    if p.bits >= 8 then
      Drain(CharOut(p, p.accum % 256).(accum := p.accum / 256, bits := p.bits - 8))
    else
      p
  }

  /**
   * output's bit handling for one code: keep the accumulator's valid bits
   * (masks[cur_bits]), or the code in above them, and drain whole bytes.
   * Or-ing a shifted value onto bits below the shift is addition.
   */
  function PutCode(p: Packer, code: int, width: nat): (r: Packer)
    requires 0 <= p.bits < 8 && |p.packet| < PacketSize
    ensures 0 <= r.bits < 8 && |r.packet| < PacketSize && p.out <= r.out
  {
    var kept := p.accum % Pow2(p.bits);
    var acc := if p.bits > 0 then kept + code * Pow2(p.bits) else code;
    Drain(p.(accum := acc, bits := p.bits + width))
  }

  /** At the end code: the remaining bits go out as a last byte, then the packet. */
  function Finish(p: Packer): (r: Packer)
    requires |p.packet| < PacketSize
    ensures r.packet == [] && p.out <= r.out && r.bits <= 0
    decreases p.bits
  {
    if p.bits > 0 then
      Finish(CharOut(p, p.accum % 256).(accum := p.accum / 256, bits := p.bits - 8))
    else
      FlushChar(p)
  }

  /**
   * output for each code in turn, finishing at the end code. A code after
   * an end code that left the bit count negative fails: output indexes
   * `masks` with it.
   */
  function Emit(p: Packer, codes: seq<Code>, eof: int): (r: Option<Packer>)
    requires p.bits < 8 && |p.packet| < PacketSize
    ensures r.Some? ==> p.out <= r.value.out
    decreases |codes|
  {
    if |codes| == 0 then Some(p)
    else if p.bits < 0 then None
    else
      var q := PutCode(p, codes[0].value, codes[0].width);
      Emit(if codes[0].value == eof then Finish(q) else q, codes[1..], eof)
  }

  // ----- what the stream holds -----

  /**
   * `data` is every byte handed to char_out so far: the full packets
   * written and the packet being filled.
   */
  ghost predicate Packets(p: Packer, data: seq<Byte>)
  {
    var k := |data| - |data| % PacketSize;
    p.packet == data[k..] && p.out == Frame(data[..k], PacketSize)
  }

  /** ... and the accumulator holds the bits after them, so that `bits` is everything output. */
  ghost predicate Holds(p: Packer, data: seq<Byte>, bits: seq<bool>)
  {
    Packets(p, data) && 0 <= p.bits < 8 && 0 <= p.accum < Pow2(p.bits)
    && BytesBits(data) + BitsOf(p.accum, p.bits) == bits
  }

  lemma EmptyHolds()
    ensures Holds(Empty, [], [])
  {
  }

  lemma CharOutPackets(p: Packer, data: seq<Byte>, b: Byte)
    requires Packets(p, data) && |p.packet| < PacketSize
    ensures Packets(CharOut(p, b), data + [b])
  {
    var k := |data| - |data| % PacketSize;
    var d2 := data + [b];
    assert d2[..k] == data[..k];
    if |p.packet| + 1 < PacketSize {
      assert |d2| % PacketSize == |data| % PacketSize + 1;
      assert d2[k..] == data[k..] + [b];
    } else {
      assert |d2| % PacketSize == 0;
      assert d2[..|d2|] == data[..k] + (p.packet + [b]);
      FrameAppend(data[..k], p.packet + [b], PacketSize);
      FrameShort(p.packet + [b], PacketSize);
    }
  }

  lemma FlushPackets(p: Packer, data: seq<Byte>)
    requires Packets(p, data) && |p.packet| < PacketSize
    ensures FlushChar(p).out == Frame(data, PacketSize)
  {
    var k := |data| - |data| % PacketSize;
    assert data == data[..k] + p.packet;
    FrameAppend(data[..k], p.packet, PacketSize);
    if |p.packet| > 0 {
      FrameShort(p.packet, PacketSize);
    } else {
      assert data[..k] == data;
    }
  }

  /** The accumulator without its low byte fits in the remaining bits. */
  lemma AccumHigh(a: int, n: nat)
    requires n >= 8 && 0 <= a < Pow2(n)
    ensures 0 <= a / 256 < Pow2(n - 8)
  {
    Pow2Byte();
    Pow2Add(8, n - 8);
    assert Pow2(n) == 256 * Pow2(n - 8);
    DivUnique(a, 256, a / 256, a % 256);
  }

  lemma ByteOfAccum(a: int, n: nat)
    requires n >= 8 && 0 <= a < Pow2(n)
    ensures 0 <= a / 256 < Pow2(n - 8)
    ensures BitsOf(a, n) == ByteBits(a % 256) + BitsOf(a / 256, n - 8)
  {
    AccumHigh(a, n);
    Pow2Byte();
    BitsOfCut(a, 8, n);
    BitsOfMod(a, 8);
  }

  /** One byte out of the accumulator goes to char_out. */
  lemma DrainOne(p: Packer, data: seq<Byte>) returns (q: Packer, data': seq<Byte>)
    requires Packets(p, data) && |p.packet| < PacketSize
    requires p.bits >= 8 && 0 <= p.accum < Pow2(p.bits)
    ensures Packets(q, data') && |q.packet| < PacketSize && Drain(q) == Drain(p)
    ensures q.bits == p.bits - 8 && q.accum == p.accum / 256 && data' == data + [p.accum % 256]
  {
    var b := p.accum % 256;
    CharOutPackets(p, data, b);
    q := CharOut(p, b).(accum := p.accum / 256, bits := p.bits - 8);
    data' := data + [b];
  }

  /** ... and the bits it stood for move from the accumulator to the bytes. */
  lemma AccumByte(data: seq<Byte>, a: int, n: nat)
    requires n >= 8 && 0 <= a < Pow2(n)
    ensures 0 <= a / 256 < Pow2(n - 8)
    ensures BytesBits(data + [a % 256]) + BitsOf(a / 256, n - 8) == BytesBits(data) + BitsOf(a, n)
  {
    var b := a % 256;
    ByteOfAccum(a, n);
    AppendByte(data, b);
    AppendAssoc(BytesBits(data), ByteBits(b), BitsOf(a / 256, n - 8));
  }

  lemma {:induction false} DrainHolds(p: Packer, data: seq<Byte>) returns (data': seq<Byte>)
    requires Packets(p, data) && |p.packet| < PacketSize
    requires p.bits >= 0 && 0 <= p.accum < Pow2(p.bits)
    ensures Holds(Drain(p), data', BytesBits(data) + BitsOf(p.accum, p.bits))
    decreases p.bits
  {
    if p.bits >= 8 {
      var q, data1 := DrainOne(p, data);
      AccumByte(data, p.accum, p.bits);
      data' := DrainHolds(q, data1);
    } else {
      data' := data;
      assert Drain(p) == p;
    }
  }

  /** Or-ing a code above `n` valid bits appends its bits to theirs. */
  lemma JoinCode(a: int, n: nat, code: int, width: nat)
    requires 0 <= a < Pow2(n) && 0 <= code < Pow2(width)
    ensures 0 <= a + code * Pow2(n) < Pow2(n + width)
    ensures BitsOf(a + code * Pow2(n), n + width) == BitsOf(a, n) + BitsOf(code, width)
  {
    BitsOfJoin(a, n, code, width);
    ShiftBound(a, Pow2(n), code, Pow2(width));
    Pow2Add(n, width);
  }

  /** The accumulator with a code's bits placed above its valid ones. */
  function Joined(p: Packer, code: int, width: nat): Packer
    requires p.bits >= 0
  {
    p.(accum := p.accum + code * Pow2(p.bits), bits := p.bits + width)
  }

  /** With the accumulator holding only valid bits, masking is the identity and or-ing is addition. */
  lemma PutCodeDrain(p: Packer, code: int, width: nat)
    requires 0 <= p.bits < 8 && |p.packet| < PacketSize && 0 <= p.accum < Pow2(p.bits)
    ensures PutCode(p, code, width) == Drain(Joined(p, code, width))
  {
    DivUnique(p.accum, Pow2(p.bits), 0, p.accum);
  }

  /** Joining a code keeps the stream and appends the code's bits. */
  lemma JoinedHolds(p: Packer, data: seq<Byte>, bits: seq<bool>, code: int, width: nat)
    requires Holds(p, data, bits) && 0 <= code < Pow2(width)
    ensures Packets(Joined(p, code, width), data) && 0 <= Joined(p, code, width).accum < Pow2(p.bits + width)
    ensures BytesBits(data) + BitsOf(Joined(p, code, width).accum, p.bits + width) == bits + BitsOf(code, width)
  {
    JoinCode(p.accum, p.bits, code, width);
    AppendAssoc(BytesBits(data), BitsOf(p.accum, p.bits), BitsOf(code, width));
  }

  lemma PutCodeHolds(p: Packer, data: seq<Byte>, bits: seq<bool>, code: int, width: nat)
    returns (data': seq<Byte>)
    requires Holds(p, data, bits) && |p.packet| < PacketSize && 0 <= code < Pow2(width)
    ensures Holds(PutCode(p, code, width), data', bits + BitsOf(code, width))
  {
    var q := Joined(p, code, width);
    JoinedHolds(p, data, bits, code, width);
    data' := DrainHolds(q, data);
    PutCodeDrain(p, code, width);
  }

  lemma FinishFrames(p: Packer, data: seq<Byte>, bits: seq<bool>)
    requires Holds(p, data, bits) && |p.packet| < PacketSize
    ensures Finish(p).out == Frame(ToBytes(bits), PacketSize)
  {
    if p.bits > 0 {
      var b := p.accum % 256;
      assert b == p.accum && ToBytes(bits) == data + [b] by {
        Pow2Monotone(p.bits, 8);
        Pow2Byte();
        LastByte(p.accum, p.bits);
        ToBytesBytesBits(data, BitsOf(p.accum, p.bits));
      }
      CharOutPackets(p, data, b);
      var q := CharOut(p, b).(accum := p.accum / 256, bits := p.bits - 8);
      assert Finish(p) == FlushChar(q);
      FlushPackets(q, data + [b]);
    } else {
      assert ToBytes(bits) == data by {
        assert bits == BytesBits(data) + [];
        ToBytesBytesBits(data, []);
        assert data + [] == data;
      }
      assert Finish(p) == FlushChar(p);
      FlushPackets(p, data);
    }
  }

  /**
   * Emitting codes that fit their widths, the end code last, writes the
   * packed bytes cut into packets of 254 — whatever bits came before.
   */
  lemma {:induction false} EmitFrames(p: Packer, data: seq<Byte>, bits: seq<bool>, codes: seq<Code>, eof: int)
    requires Holds(p, data, bits) && |p.packet| < PacketSize && Fits(codes) && Terminated(codes, eof)
    ensures Emit(p, codes, eof).Some?
    ensures Emit(p, codes, eof).value.out == Frame(ToBytes(bits + Pack(codes)), PacketSize)
    decreases |codes|
  {
    var c := codes[0];
    var bits1 := bits + BitsOf(c.value, c.width);
    assert bits + Pack(codes) == bits1 + Pack(codes[1..]) by {
      assert Pack(codes) == BitsOf(c.value, c.width) + Pack(codes[1..]);
      AppendAssoc(bits, BitsOf(c.value, c.width), Pack(codes[1..]));
    }
    var data1 := PutCodeHolds(p, data, bits, c.value, c.width);
    var q := PutCode(p, c.value, c.width);
    if c.value == eof {
      assert bits1 + Pack(codes[1..]) == bits1 by {
        assert |codes| == 1;
        assert Pack(codes[1..]) == [];
        AppendEmpty(bits1);
      }
      assert Emit(p, codes, eof) == Some(Finish(q));
      FinishFrames(q, data1, bits1);
    } else {
      assert Fits(codes[1..]) by {
        forall i | 0 <= i < |codes[1..]| ensures 0 <= codes[1..][i].value < Pow2(codes[1..][i].width) {
          assert codes[1..][i] == codes[i + 1];
        }
      }
      assert Emit(p, codes, eof) == Emit(q, codes[1..], eof);
      EmitFrames(q, data1, bits1, codes[1..], eof);
    }
  }

  /** From a fresh packer: the image data sub-blocks of a GIF file. */
  lemma EmitFromEmpty(codes: seq<Code>, eof: int)
    requires Fits(codes) && Terminated(codes, eof)
    ensures Emit(Empty, codes, eof).Some?
    ensures Emit(Empty, codes, eof).value.out == Frame(PackBytes(codes), PacketSize)
  {
    var none: seq<bool> := [];
    assert Holds(Empty, [], none) by {
      EmptyHolds();
    }
    EmitFrames(Empty, [], none, codes, eof);
    assert none + Pack(codes) == Pack(codes) by {
      AppendEmpty(Pack(codes));
    }
  }
}
