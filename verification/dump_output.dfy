/**
 * The dump GifEncoder's BitFile: codes are or-ed into a 256-byte buffer
 * least significant bit first; once 255 whole bytes are buffered they go
 * out as one sub-block behind the length byte 255, and flush writes the
 * rest, the partial last byte included, as a last shorter sub-block.
 */
module DumpOutput {
  import opened JavaInt
  import opened Bits

  /** The length of a full sub-block (writeBits' nBytes). */
  const BlockSize: nat := 255

  /**
   * buffer_[0..streamIndex_], bitsLeft_, and what has been written to the
   * stream. The last buffered byte is the one being filled; its low
   * 8 - bitsLeft bits are in use.
   */
  datatype BitFile = BitFile(buffer: seq<Byte>, bitsLeft: int, out: seq<Byte>)

  /** streamIndex_. */
  function Index(f: BitFile): int
  {
    |f.buffer| - 1
  }

  /**
   * The states BitFile reaches: the index within the 256-byte buffer, at
   * most 8 bits left, no bits above the used ones in the byte being
   * filled, and an index past the last full block only while that byte is
   * still empty.
   */
  ghost predicate Valid(f: BitFile)
  {
    1 <= |f.buffer| <= 256 && 0 <= f.bitsLeft <= 8
    && f.buffer[Index(f)] < Pow2(8 - f.bitsLeft)
    && (|f.buffer| == 256 ==> f.bitsLeft == 8)
  }

  /** The constructor: an empty buffer and nothing written. */
  const Empty: BitFile := BitFile([0], 8, [])

  /** `b | (v & ((1 << k) - 1)) << used`: the low `k` bits of `v` placed above the `used` bits of `b`. */
  function PutBits(b: Byte, used: nat, v: int, k: nat): (r: Byte)
    requires used + k <= 8 && b < Pow2(used)
    ensures r < Pow2(used + k)
  {
    PlaceBound(b, used, v % Pow2(k), k);
    b + (v % Pow2(k)) * Pow2(used)
  }

  lemma PlaceBound(b: int, used: nat, x: int, k: nat)
    requires used + k <= 8 && 0 <= b < Pow2(used) && 0 <= x < Pow2(k)
    ensures 0 <= b + x * Pow2(used) < Pow2(used + k) <= 256
  {
    var p, q := Pow2(used), Pow2(k);
    ShiftBound(b, p, x, q);
    Pow2Add(used, k);
    assert q * p == Pow2(used + k);
    Pow2Monotone(used + k, 8);
    Pow2Byte();
  }

  /** The block writeBits sends before going on: 255 full bytes, and the buffer starts over. */
  function FullBlock(f: BitFile): (r: BitFile)
    requires Valid(f) && Index(f) >= 254
    ensures Valid(r) && Index(r) == 0 && f.out <= r.out
  {
    BitFile([0], 8, f.out + [BlockSize] + f.buffer[..BlockSize])
  }

  /** The low `n` bits of `v` placed in the byte being filled, which keeps room for them. */
  function PlaceLow(g: BitFile, v: int, n: nat): (r: BitFile)
    requires Valid(g) && Index(g) <= 254 && n <= g.bitsLeft
    ensures Valid(r) && Index(r) == Index(g) && r.bitsLeft == g.bitsLeft - n && r.out == g.out
  {
    var i := Index(g);
    g.(buffer := g.buffer[i := PutBits(g.buffer[i], 8 - g.bitsLeft, v, n)], bitsLeft := g.bitsLeft - n)
  }

  /** The byte being filled topped up with the low bits of `v`, and a fresh byte after it. */
  function PlaceFull(g: BitFile, v: int): (r: BitFile)
    requires Valid(g) && Index(g) <= 254
    ensures Valid(r) && Index(r) == Index(g) + 1 && r.bitsLeft == 8 && r.out == g.out
  {
    var i := Index(g);
    g.(buffer := g.buffer[i := PutBits(g.buffer[i], 8 - g.bitsLeft, v, g.bitsLeft)] + [0], bitsLeft := 8)
  }

  /** A full block is due when 255 whole bytes are buffered. */
  predicate Due(f: BitFile)
  {
    (Index(f) == 254 && f.bitsLeft == 0) || Index(f) > 254
  }

  /** The state after sending the block that is due, if any. */
  function Prepared(f: BitFile): (g: BitFile)
    requires Valid(f)
    ensures Valid(g) && Index(g) <= 254 && f.out <= g.out
  {
    if Due(f) then FullBlock(f) else f
  }

  /**
   * writeBits: one pass of its loop sends a full block first if the buffer
   * holds 255 whole bytes, then either places all remaining bits in the
   * byte being filled or fills it and moves to the next byte, shifting the
   * bits written out of `bits`.
   */
  function WriteBits(f: BitFile, bits: int, nBits: nat): (r: BitFile)
    requires Valid(f)
    ensures Valid(r) && Index(r) <= 254 && f.out <= r.out
    decreases 2 * nBits + (if f.bitsLeft == 0 then 1 else 0)
  {
    var g := Prepared(f);
    if nBits <= g.bitsLeft then PlaceLow(g, bits, nBits)
    else WriteBits(PlaceFull(g, bits), bits / Pow2(g.bitsLeft), nBits - g.bitsLeft)
  }

  /** flush: the buffered bytes, the partial last one included, as one sub-block. */
  function Flush(f: BitFile): (r: BitFile)
    requires Valid(f)
    ensures f.out <= r.out
  {
    var n := Index(f) + (if f.bitsLeft == 8 then 0 else 1);
    if n > 0 then BitFile([0], 8, f.out + [n] + f.buffer[..n]) else f
  }

  /** writeBits for each code in turn. */
  function WriteCodes(f: BitFile, codes: seq<Code>): (r: BitFile)
    requires Valid(f)
    ensures Valid(r) && f.out <= r.out && (Index(f) <= 254 ==> Index(r) <= 254)
    decreases |codes|
  {
    if |codes| == 0 then f else WriteCodes(WriteBits(f, codes[0].value, codes[0].width), codes[1..])
  }

  /** What writeLzwCompressed sends through a fresh BitFile: the codes, then flush. */
  function Written(codes: seq<Code>): seq<Byte>
  {
    Flush(WriteCodes(Empty, codes)).out
  }

  // ----- what the stream holds -----

  /**
   * `data` is every whole byte so far: the full blocks written and the
   * whole bytes in the buffer.
   */
  ghost predicate Blocks(f: BitFile, data: seq<Byte>)
  {
    var k := |data| - Index(f);
    0 <= k && k % BlockSize == 0 && 0 <= Index(f) < |f.buffer|
    && f.out == Frame(data[..k], BlockSize) && f.buffer[..Index(f)] == data[k..]
  }

  /** The bits in use in the byte being filled. */
  function Pending(f: BitFile): (r: seq<bool>)
    requires Valid(f)
    ensures |r| == 8 - f.bitsLeft
  {
    BitsOf(f.buffer[Index(f)], 8 - f.bitsLeft)
  }

  /** ... and the byte being filled holds the bits after them, so that `bits` is everything written. */
  ghost predicate Holds(f: BitFile, data: seq<Byte>, bits: seq<bool>)
  {
    Valid(f) && Blocks(f, data) && bits == BytesBits(data) + Pending(f)
  }

  lemma EmptyHolds()
    ensures Holds(Empty, [], [])
  {
  }

  lemma WholeBlocksMore(k: nat)
    requires k % BlockSize == 0
    ensures (k + BlockSize) % BlockSize == 0
  {
    DivUnique(k + BlockSize, BlockSize, k / BlockSize + 1, 0);
  }

  /** The whole bytes once a full block is due: with the byte just filled when it is the 255th. */
  function Whole(f: BitFile, data: seq<Byte>): seq<Byte>
    requires Valid(f)
  {
    if Index(f) == 254 then data + [f.buffer[Index(f)]] else data
  }

  /** Sending a full block moves its bytes from the buffer to the frame. */
  lemma FullBlockBlocks(f: BitFile, data: seq<Byte>)
    requires Valid(f) && Blocks(f, data) && ((Index(f) == 254 && f.bitsLeft == 0) || Index(f) > 254)
    ensures Blocks(FullBlock(f), Whole(f, data))
  {
    var i := Index(f);
    var k := |data| - i;
    var data' := Whole(f, data);
    assert data'[..k] == data[..k];
    assert f.buffer[..BlockSize] == data'[k..] by {
      if i == 254 {
        assert f.buffer[..BlockSize] == f.buffer[..i] + [f.buffer[i]];
      }
    }
    assert data' == data[..k] + f.buffer[..BlockSize];
    FrameAppend(data[..k], f.buffer[..BlockSize], BlockSize);
    FrameShort(f.buffer[..BlockSize], BlockSize);
    WholeBlocksMore(k);
    assert data'[..|data'|] == data';
  }

  /** ... and the bits are those of the whole bytes. */
  lemma FullBlockBits(f: BitFile, data: seq<Byte>)
    requires Valid(f) && ((Index(f) == 254 && f.bitsLeft == 0) || Index(f) > 254)
    ensures BytesBits(Whole(f, data)) + Pending(FullBlock(f)) == BytesBits(data) + Pending(f)
  {
    if Index(f) == 254 {
      AppendByte(data, f.buffer[Index(f)]);
    }
    assert Pending(FullBlock(f)) == [];
    AppendEmpty(BytesBits(Whole(f, data)));
  }

  lemma FullBlockHolds(f: BitFile, data: seq<Byte>, bits: seq<bool>)
    requires Holds(f, data, bits) && ((Index(f) == 254 && f.bitsLeft == 0) || Index(f) > 254)
    ensures Holds(FullBlock(f), Whole(f, data), bits)
  {
    FullBlockBlocks(f, data);
    FullBlockBits(f, data);
  }

  /** The placed bits follow the bits already in the byte. */
  lemma PutBitsBits(b: Byte, used: nat, v: int, k: nat)
    requires used + k <= 8 && b < Pow2(used)
    ensures BitsOf(PutBits(b, used, v, k), used + k) == BitsOf(b, used) + BitsOf(v, k)
  {
    var x := v % Pow2(k);
    assert PutBits(b, used, v, k) == b + x * Pow2(used);
    BitsOfJoin(b, used, x, k);
    BitsOfMod(v, k);
  }

  /** Placing bits changes only the byte being filled. */
  lemma PlaceLowBlocks(g: BitFile, data: seq<Byte>, v: int, n: nat)
    requires Valid(g) && Blocks(g, data) && Index(g) <= 254 && n <= g.bitsLeft
    ensures Blocks(PlaceLow(g, v, n), data)
  {
    var i := Index(g);
    assert PlaceLow(g, v, n).buffer[..i] == g.buffer[..i];
  }

  /** The byte being filled gains the low `n` bits of `v` after the bits it held. */
  lemma PlaceLowByte(g: BitFile, v: int, n: nat)
    requires Valid(g) && Index(g) <= 254 && n <= g.bitsLeft
    ensures Pending(PlaceLow(g, v, n)) == Pending(g) + BitsOf(v, n)
  {
    var used := 8 - g.bitsLeft;
    var r := PlaceLow(g, v, n);
    var b := PutBits(g.buffer[Index(g)], used, v, n);
    assert r.buffer[Index(r)] == b && 8 - r.bitsLeft == used + n;
    assert Pending(r) == BitsOf(b, used + n);
    assert Pending(g) == BitsOf(g.buffer[Index(g)], used);
    PutBitsBits(g.buffer[Index(g)], used, v, n);
  }

  /** Placing the low `n` bits of `v` in the byte being filled appends them. */
  lemma PlaceLowHolds(g: BitFile, data: seq<Byte>, bits: seq<bool>, v: int, n: nat)
    requires Holds(g, data, bits) && Index(g) <= 254 && n <= g.bitsLeft
    ensures Holds(PlaceLow(g, v, n), data, bits + BitsOf(v, n))
  {
    PlaceLowBlocks(g, data, v, n);
    PlaceLowByte(g, v, n);
    AppendAssoc(BytesBits(data), Pending(g), BitsOf(v, n));
  }

  /** Topping up the byte moves it, now whole, behind the buffered bytes. */
  lemma PlaceFullBlocks(g: BitFile, data: seq<Byte>, v: int)
    requires Valid(g) && Blocks(g, data) && Index(g) <= 254
    ensures Blocks(PlaceFull(g, v), data + [PlaceFull(g, v).buffer[Index(g)]])
  {
    var i := Index(g);
    var h := PlaceFull(g, v);
    var b := h.buffer[i];
    var k := |data| - i;
    assert h.buffer[..i + 1] == g.buffer[..i] + [b];
    assert (data + [b])[k..] == data[k..] + [b];
    assert (data + [b])[..k] == data[..k];
  }

  /** The whole byte holds the bits it held and then the low bits of `v`. */
  lemma PlaceFullByte(g: BitFile, v: int)
    requires Valid(g) && Index(g) <= 254
    ensures BitsOf(PlaceFull(g, v).buffer[Index(g)], 8) == Pending(g) + BitsOf(v, g.bitsLeft)
    ensures Pending(PlaceFull(g, v)) == []
  {
    var used := 8 - g.bitsLeft;
    var r := PlaceFull(g, v);
    var b := PutBits(g.buffer[Index(g)], used, v, g.bitsLeft);
    assert r.buffer[Index(g)] == b && used + g.bitsLeft == 8;
    assert Pending(g) == BitsOf(g.buffer[Index(g)], used);
    PutBitsBits(g.buffer[Index(g)], used, v, g.bitsLeft);
  }

  /** Topping up the byte with the low bits of `v` makes it a whole byte and starts an empty one. */
  lemma PlaceFullHolds(g: BitFile, data: seq<Byte>, bits: seq<bool>, v: int)
    requires Holds(g, data, bits) && Index(g) <= 254
    ensures Holds(PlaceFull(g, v), data + [PlaceFull(g, v).buffer[Index(g)]], bits + BitsOf(v, g.bitsLeft))
  {
    var h := PlaceFull(g, v);
    var b := h.buffer[Index(g)];
    PlaceFullBlocks(g, data, v);
    PlaceFullByte(g, v);
    AppendByte(data, b);
    AppendAssoc(BytesBits(data), Pending(g), BitsOf(v, g.bitsLeft));
    AppendEmpty(BytesBits(data + [b]));
  }

  lemma PreparedHolds(f: BitFile, data: seq<Byte>, bits: seq<bool>) returns (data': seq<Byte>)
    requires Holds(f, data, bits)
    ensures Holds(Prepared(f), data', bits)
  {
    if Due(f) {
      FullBlockHolds(f, data, bits);
      data' := Whole(f, data);
    } else {
      data' := data;
    }
  }

  /** The bits of `v` are its low `k` bits followed by the bits of `v / 2^k`. */
  lemma AppendSplit(bits: seq<bool>, v: int, k: nat, n: nat)
    requires k <= n
    ensures (bits + BitsOf(v, k)) + BitsOf(v / Pow2(k), n - k) == bits + BitsOf(v, n)
  {
    BitsOfCut(v, k, n);
    AppendAssoc(bits, BitsOf(v, k), BitsOf(v / Pow2(k), n - k));
  }

  /** When the bits fit in the byte being filled, writeBits places them there. */
  lemma WriteBitsLow(f: BitFile, data: seq<Byte>, bits: seq<bool>, v: int, n: nat)
    requires Valid(f) && n <= Prepared(f).bitsLeft
    requires Holds(PlaceLow(Prepared(f), v, n), data, bits + BitsOf(v, n))
    ensures Holds(WriteBits(f, v, n), data, bits + BitsOf(v, n))
  {
    assert WriteBits(f, v, n) == PlaceLow(Prepared(f), v, n);
  }

  /** Otherwise it tops up the byte and writes the rest of the bits after it. */
  lemma WriteBitsStep(f: BitFile, v: int, n: nat)
    requires Valid(f) && n > Prepared(f).bitsLeft
    ensures WriteBits(f, v, n)
      == WriteBits(PlaceFull(Prepared(f), v), v / Pow2(Prepared(f).bitsLeft), n - Prepared(f).bitsLeft)
  {
  }

  lemma WriteBitsFull(f: BitFile, data: seq<Byte>, bits: seq<bool>, v: int, n: nat)
    requires Valid(f) && n > Prepared(f).bitsLeft
    requires var left := Prepared(f).bitsLeft;
      Holds(WriteBits(PlaceFull(Prepared(f), v), v / Pow2(left), n - left), data,
        (bits + BitsOf(v, left)) + BitsOf(v / Pow2(left), n - left))
    ensures Holds(WriteBits(f, v, n), data, bits + BitsOf(v, n))
  {
    var left := Prepared(f).bitsLeft;
    WriteBitsStep(f, v, n);
    AppendSplit(bits, v, left, n);
  }

  /** writeBits appends the low `nBits` bits of `bits`, two's complement for a negative value. */
  lemma {:induction false} WriteBitsHolds(f: BitFile, data: seq<Byte>, bits: seq<bool>, v: int, n: nat)
    returns (data': seq<Byte>)
    requires Holds(f, data, bits)
    ensures Holds(WriteBits(f, v, n), data', bits + BitsOf(v, n))
    decreases 2 * n + (if f.bitsLeft == 0 then 1 else 0)
  {
    var g := Prepared(f);
    var data1 := PreparedHolds(f, data, bits);
    if n <= g.bitsLeft {
      PlaceLowHolds(g, data1, bits, v, n);
      WriteBitsLow(f, data1, bits, v, n);
      data' := data1;
    } else {
      var left := g.bitsLeft;
      var h := PlaceFull(g, v);
      PlaceFullHolds(g, data1, bits, v);
      data' := WriteBitsHolds(h, data1 + [h.buffer[Index(g)]], bits + BitsOf(v, left), v / Pow2(left), n - left);
      WriteBitsFull(f, data', bits, v, n);
    }
  }

  /** The bytes flush sends beyond the whole ones: the partial byte, if it holds any bit. */
  function Partial(f: BitFile): seq<Byte>
    requires Valid(f)
  {
    if f.bitsLeft == 8 then [] else [f.buffer[Index(f)]]
  }

  /** The bits written, padded with zeros to whole bytes, are the whole bytes and the partial one. */
  lemma FlushBytes(f: BitFile, data: seq<Byte>, bits: seq<bool>)
    requires Holds(f, data, bits)
    ensures ToBytes(bits) == data + Partial(f)
  {
    var b := f.buffer[Index(f)];
    var used := 8 - f.bitsLeft;
    if used == 0 {
      assert bits == BytesBits(data) + [];
      ToBytesBytesBits(data, []);
    } else {
      LastByte(b, used);
      ToBytesBytesBits(data, BitsOf(b, used));
    }
  }

  /** flush sends the buffered bytes as the last sub-block behind the full ones. */
  lemma FlushOut(f: BitFile, data: seq<Byte>)
    requires Valid(f) && Blocks(f, data) && Index(f) <= 254
    ensures Flush(f).out == Frame(data + Partial(f), BlockSize)
  {
    var i := Index(f);
    var k := |data| - i;
    var n := i + (if f.bitsLeft == 8 then 0 else 1);
    var rest := f.buffer[..n];
    assert rest == f.buffer[..i] + Partial(f);
    assert data == data[..k] + f.buffer[..i];
    AppendAssoc(data[..k], f.buffer[..i], Partial(f));
    FrameAppend(data[..k], rest, BlockSize);
    if n > 0 {
      FrameShort(rest, BlockSize);
    } else {
      AppendEmpty(data[..k]);
    }
  }

  /** flush writes the whole bytes and the partial last one as the last sub-block. */
  lemma FlushFrames(f: BitFile, data: seq<Byte>, bits: seq<bool>)
    requires Holds(f, data, bits) && Index(f) <= 254
    ensures Flush(f).out == Frame(ToBytes(bits), BlockSize)
  {
    FlushBytes(f, data, bits);
    FlushOut(f, data);
  }

  lemma {:induction false} WriteCodesHolds(f: BitFile, data: seq<Byte>, bits: seq<bool>, codes: seq<Code>)
    returns (data': seq<Byte>)
    requires Holds(f, data, bits)
    ensures Holds(WriteCodes(f, codes), data', bits + Pack(codes))
    decreases |codes|
  {
    if |codes| == 0 {
      data' := data;
      assert bits + Pack(codes) == bits;
    } else {
      var c := codes[0];
      var data1 := WriteBitsHolds(f, data, bits, c.value, c.width);
      var bits1 := bits + BitsOf(c.value, c.width);
      data' := WriteCodesHolds(WriteBits(f, c.value, c.width), data1, bits1, codes[1..]);
      assert bits1 + Pack(codes[1..]) == bits + Pack(codes) by {
        assert Pack(codes) == BitsOf(c.value, c.width) + Pack(codes[1..]);
        AppendAssoc(bits, BitsOf(c.value, c.width), Pack(codes[1..]));
      }
    }
  }

  /**
   * Whatever the codes, a fresh BitFile writes their bits packed into
   * bytes and cut into sub-blocks of 255, the last one shorter.
   */
  lemma WrittenFrames(codes: seq<Code>)
    ensures Written(codes) == Frame(PackBytes(codes), BlockSize)
  {
    var none: seq<bool> := [];
    EmptyHolds();
    var data := WriteCodesHolds(Empty, [], none, codes);
    assert none + Pack(codes) == Pack(codes);
    FlushFrames(WriteCodes(Empty, codes), data, Pack(codes));
  }
}
