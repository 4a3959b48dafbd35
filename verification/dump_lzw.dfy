/**
 * The LZW compressor of the dump GifEncoder (writeLzwCompressed and its
 * LzwStringTable). The open-addressing hash table of (prefix, byte) pairs
 * is modelled by a map with the same contents. The roots that clearTable
 * enters are counted but not stored: findCharString answers a lookup with
 * the empty prefix before it consults the table, and every other lookup
 * names a prefix code, which a root entry never matches.
 *
 * The compressor as written ends with the end-of-information code at the
 * width in force before the last data code was counted; CompressFixed
 * widens first, as the decoder does, and is the one the rest of the model
 * uses.
 */
module DumpLzw {
  import opened JavaInt
  import opened Wrappers
  import opened Bits
  import A = AcmeLzw
  import D = LzwDecode
  import R = AcmeRoundTrip

  /** MAXSTR: the table holds at most 4096 strings. */
  const MaxStrings: int := 4096
  /** What addCharString answers once the table is full. */
  const NoRoom: int := 0xFFFF
  /** Codes are at most twelve bits wide. */
  const MaxBits: nat := 12

  /** The strings entered since the last clear, and nStrings_. */
  datatype Table = Table(strings: map<(int, int), int>, count: int)

  /** clearTable: the roots, the clear code and the end code are counted. */
  function Clear(cs: nat): (t: Table)
  {
    Table(map[], Pow2(cs) + 2)
  }

  /**
   * findCharString: with the empty prefix (-1) the answer is the byte
   * itself, sign-extended; otherwise the code of the extended string, or
   * -1 if the table does not hold it.
   */
  function Find(t: Table, prefix: int, c: Byte): int
  {
    if prefix == -1 then SignedByte(c)
    else if (prefix, c) in t.strings then t.strings[(prefix, c)]
    else -1
  }

  /** addCharString: the new string's code, or NoRoom (table unchanged) once it is full. */
  function Add(t: Table, prefix: int, c: Byte): (Table, int)
  {
    if t.count >= MaxStrings then (t, NoRoom)
    else (Table(t.strings[(prefix, c) := t.count], t.count + 1), t.count)
  }

  /** The loop's variables: the table, prefix, numbits, limit, and the codes written so far. */
  datatype Lzw = Lzw(table: Table, prefix: int, numbits: nat, limit: int, codes: seq<Code>)

  function ClearCode(cs: nat): nat
  {
    Pow2(cs)
  }

  function EndCode(cs: nat): nat
  {
    Pow2(cs) + 1
  }

  /** Before the loop: empty prefix, initial width, the clear code written. */
  function Start(cs: nat): (st: Lzw)
  {
    Lzw(Clear(cs), -1, cs + 1, Pow2(cs + 1) - 1, [Code(ClearCode(cs), cs + 1)])
  }

  /**
   * One pass of the loop for byte `c`: extend the prefix if the table knows
   * the string; otherwise write the prefix, enter the extended string, and
   * widen when its code passes the limit; past twelve bits write the clear
   * code at twelve bits and clear the table instead. Then `c` starts the
   * next string.
   */
  function Step(st: Lzw, cs: nat, c: Byte): (r: Lzw)
  {
    var index := Find(st.table, st.prefix, c);
    if index != -1 then st.(prefix := index)
    else
      var written := st.codes + [Code(st.prefix, st.numbits)];
      var (t, code) := Add(st.table, st.prefix, c);
      if code > st.limit then
        var n := st.numbits + 1;
        if n > MaxBits then
          Lzw(Clear(cs), c, cs + 1, Pow2(cs + 1) - 1, written + [Code(ClearCode(cs), n - 1)])
        else
          Lzw(t, c, n, Pow2(n) - 1, written)
      else
        Lzw(t, c, st.numbits, st.limit, written)
  }

  function Run(st: Lzw, cs: nat, pixels: seq<Byte>): (r: Lzw)
    ensures st.codes <= r.codes
    decreases |pixels|
  {
    if |pixels| == 0 then st else Run(Step(st, cs, pixels[0]), cs, pixels[1..])
  }

  /** Run over a non-empty input: one step, then the rest. */
  lemma RunCons(st: Lzw, cs: nat, pixels: seq<Byte>)
    requires |pixels| > 0
    ensures Run(st, cs, pixels) == Run(Step(st, cs, pixels[0]), cs, pixels[1..])
  {
  }

  /** After the loop, as written: the prefix (if any) and the end code, both at the current width. */
  function Finish(st: Lzw, cs: nat): (codes: seq<Code>)
    ensures |codes| >= 1 && codes[|codes| - 1] == Code(EndCode(cs), st.numbits)
  {
    st.codes + (if st.prefix != -1 then [Code(st.prefix, st.numbits)] else []) + [Code(EndCode(cs), st.numbits)]
  }

  /**
   * The width a decoder reads the end code with: one more than the current
   * width once the last prefix has been counted and the next code no
   * longer fits, as compress's output does for every code.
   */
  function EndWidth(st: Lzw): (w: nat)
    ensures w == st.numbits || w == st.numbits + 1
  {
    if st.prefix != -1 && st.table.count > st.limit && st.numbits < MaxBits then st.numbits + 1 else st.numbits
  }

  function FinishFixed(st: Lzw, cs: nat): (codes: seq<Code>)
    ensures |codes| >= 1 && codes[|codes| - 1] == Code(EndCode(cs), EndWidth(st))
  {
    st.codes + (if st.prefix != -1 then [Code(st.prefix, st.numbits)] else []) + [Code(EndCode(cs), EndWidth(st))]
  }

  /** writeLzwCompressed's codes, as written. */
  function Compress(pixels: seq<Byte>, cs: nat): (codes: seq<Code>)
    ensures |codes| >= 2 && codes[0] == Code(ClearCode(cs), cs + 1)
    ensures codes[|codes| - 1].value == EndCode(cs)
  {
    var st := Run(Start(cs), cs, pixels);
    Finish(st, cs)
  }

  /** writeLzwCompressed's codes with the end code widened like every other code. */
  function CompressFixed(pixels: seq<Byte>, cs: nat): (codes: seq<Code>)
    ensures |codes| >= 2 && codes[0] == Code(ClearCode(cs), cs + 1)
    ensures codes[|codes| - 1].value == EndCode(cs)
  {
    var st := Run(Start(cs), cs, pixels);
    FinishFixed(st, cs)
  }

  /** The two differ at most in the width of the end code. */
  lemma CompressDiffers(pixels: seq<Byte>, cs: nat)
    ensures var st := Run(Start(cs), cs, pixels);
      var fixed := CompressFixed(pixels, cs);
      Compress(pixels, cs) == fixed[..|fixed| - 1] + [Code(EndCode(cs), st.numbits)]
      && fixed[|fixed| - 1] == Code(EndCode(cs), EndWidth(st))
  {
    var st := Run(Start(cs), cs, pixels);
    var body := st.codes + (if st.prefix != -1 then [Code(st.prefix, st.numbits)] else []);
    assert CompressFixed(pixels, cs)[..|body|] == body;
  }

  // ----- the dump compressor runs in step with the Acme one -----

  /**
   * The dump compressor's state mirrors the Acme one's: the same strings
   * and codes, the next free code is nStrings_, the match is the prefix,
   * and the limit is the largest code of the width except at twelve bits,
   * where Acme's maxcode is one larger.
   */
  ghost predicate Sim(st: Lzw, e: A.Compressor)
  {
    st.table.strings == e.dict && st.table.count == e.freeEnt && st.prefix == e.ent
    && st.numbits == e.nBits && st.codes == e.codes && !e.clearFlg
    && st.limit == (if e.nBits == MaxBits then Pow2(MaxBits) - 1 else e.maxcode)
  }

  lemma StepSim(st: Lzw, e: A.Compressor, cs: nat, c: Byte)
    requires 2 <= cs <= 8 && Sim(st, e) && A.WidthInv(e, cs + 1) && c < Pow2(cs)
    ensures Sim(Step(st, cs, c), A.Step(e, c, cs + 1))
  {
    var ic := cs + 1;
    A.ClearOf(cs);
    assert Pow2(MaxBits) == 4096;
    if (e.ent, c) in e.dict {
      assert Find(st.table, st.prefix, c) == e.dict[(e.ent, c)];
    } else {
      assert Find(st.table, st.prefix, c) == -1;
      var written := st.codes + [Code(st.prefix, st.numbits)];
      var e1 := A.Output(e, e.ent, ic).(ent := c);
      assert e1.codes == written;
      if e.freeEnt < A.MaxMaxCode {
        var (t, code) := Add(st.table, st.prefix, c);
        assert code == e.freeEnt && t.count == e.freeEnt + 1 && t.strings == e.dict[(e.ent, c) := e.freeEnt];
        if e.nBits < MaxBits {
          assert (code > st.limit) == (e.freeEnt > e.maxcode);
        } else {
          assert code <= st.limit;
        }
      } else {
        assert e.nBits == MaxBits by {
          if e.nBits < MaxBits {
            Pow2Monotone(e.nBits, 11);
          }
        }
        assert Step(st, cs, c) == Lzw(Clear(cs), c, ic, Pow2(ic) - 1, written + [Code(ClearCode(cs), MaxBits)]);
      }
    }
  }

  lemma {:induction false} RunSim(st: Lzw, e: A.Compressor, cs: nat, pixels: seq<Byte>)
    requires 2 <= cs <= 8 && Sim(st, e) && A.WidthInv(e, cs + 1)
    requires forall i :: 0 <= i < |pixels| ==> pixels[i] < Pow2(cs)
    ensures Sim(Run(st, cs, pixels), A.Run(e, pixels, cs + 1)) && A.WidthInv(A.Run(e, pixels, cs + 1), cs + 1)
    decreases |pixels|
  {
    if |pixels| > 0 {
      var st1, e1 := SimStep(st, e, cs, pixels);
      TailBelow(pixels, Pow2(cs));
      RunSim(st1, e1, cs, pixels[1..]);
    }
  }

  /** One byte of both runs: the simulation and the width invariant hold after it, and the rest of each run follows. */
  lemma SimStep(st: Lzw, e: A.Compressor, cs: nat, pixels: seq<Byte>) returns (st1: Lzw, e1: A.Compressor)
    requires 2 <= cs <= 8 && Sim(st, e) && A.WidthInv(e, cs + 1) && |pixels| > 0 && pixels[0] < Pow2(cs)
    ensures Sim(st1, e1) && A.WidthInv(e1, cs + 1)
    ensures Run(st, cs, pixels) == Run(st1, cs, pixels[1..])
    ensures A.Run(e, pixels, cs + 1) == A.Run(e1, pixels[1..], cs + 1)
  {
    st1, e1 := StepBoth(st, e, cs, pixels[0]);
    RunCons(st, cs, pixels);
    A.RunCons(e, pixels, cs + 1);
  }

  /** One byte: the simulation and the width invariant survive it. */
  lemma StepBoth(st: Lzw, e: A.Compressor, cs: nat, c: Byte) returns (st1: Lzw, e1: A.Compressor)
    requires 2 <= cs <= 8 && Sim(st, e) && A.WidthInv(e, cs + 1) && c < Pow2(cs)
    ensures st1 == Step(st, cs, c) && e1 == A.Step(e, c, cs + 1)
    ensures Sim(st1, e1) && A.WidthInv(e1, cs + 1)
  {
    st1, e1 := Step(st, cs, c), A.Step(e, c, cs + 1);
    A.ClearOf(cs);
    StepSim(st, e, cs, c);
    A.StepWidthInv(e, c, cs + 1);
  }

  /** A bound every byte meets, the bytes after the first meet too. */
  lemma TailBelow(pixels: seq<Byte>, bound: int)
    requires |pixels| > 0 && forall i :: 0 <= i < |pixels| ==> pixels[i] < bound
    ensures forall i :: 0 <= i < |pixels[1..]| ==> pixels[1..][i] < bound
  {
  }

  /** After the first byte, which the empty prefix turns into the match. */
  lemma BeginSim(pixels: seq<Byte>, cs: nat)
    requires 2 <= cs <= 8 && |pixels| > 0 && pixels[0] < 128 && pixels[0] < Pow2(cs)
    ensures Sim(Step(Start(cs), cs, pixels[0]), A.Begin(pixels, cs + 1))
  {
    R.ClearFits(cs);
    Pow2Monotone(cs + 1, 9);
    assert Pow2(9) == 512;
    A.ClearOf(cs);
  }

  /**
   * With the end code widened, the dump compressor writes exactly the codes
   * the Acme one does, for a non-empty image whose first byte is not
   * negative as a Java byte.
   */
  lemma {:induction false} CompressFixedIsAcme(pixels: seq<Byte>, cs: nat)
    requires 2 <= cs <= 8 && |pixels| > 0 && pixels[0] < 128
    requires forall i :: 0 <= i < |pixels| ==> pixels[i] < Pow2(cs)
    ensures CompressFixed(pixels, cs) == A.Compress(pixels, cs + 1)
  {
    var ic := cs + 1;
    BeginSim(pixels, cs);
    A.BeginWidthInv(pixels, ic) by {
      A.ClearOf(cs);
    }
    var st0 := Step(Start(cs), cs, pixels[0]);
    assert Run(Start(cs), cs, pixels) == Run(st0, cs, pixels[1..]);
    RunSim(st0, A.Begin(pixels, ic), cs, pixels[1..]);
    var st := Run(st0, cs, pixels[1..]);
    var e := A.Run(A.Begin(pixels, ic), pixels[1..], ic);
    var e1 := A.Output(e, e.ent, ic);
    assert st.prefix != -1;
    assert e1.nBits == EndWidth(st) by {
      assert Pow2(MaxBits) == 4096;
    }
    assert A.EofCode(ic) == EndCode(cs);
  }

  /**
   * The corrected compressor's codes decode to the image: every code is
   * read with the width it was written with, and the end code ends it.
   */
  lemma CompressFixedDecodes(pixels: seq<Byte>, cs: nat)
    requires 2 <= cs <= 8 && |pixels| > 0 && pixels[0] < 128
    requires forall i :: 0 <= i < |pixels| ==> pixels[i] < Pow2(cs)
    ensures D.DecodeCodes(D.Start(cs), cs, CompressFixed(pixels, cs)) == Some(pixels)
    ensures Fits(CompressFixed(pixels, cs))
    ensures var codes := CompressFixed(pixels, cs);
      forall i :: 0 <= i < |codes| - 1 ==> codes[i].value != EndCode(cs)
  {
    CompressFixedIsAcme(pixels, cs);
    R.CompressDecodes(pixels, cs);
    A.ClearOf(cs);
    A.CompressFits(pixels, cs + 1);
  }

  // ----- the end code as written -----

  /**
   * Whenever the last data code makes the decoder widen, the end code as
   * written is one bit short of what the decoder reads, and the codes do
   * not decode.
   */
  lemma EndCodeShort(pixels: seq<Byte>, cs: nat)
    requires 2 <= cs <= 8 && |pixels| > 0 && pixels[0] < 128
    requires forall i :: 0 <= i < |pixels| ==> pixels[i] < Pow2(cs)
    requires var st := Run(Start(cs), cs, pixels); EndWidth(st) != st.numbits
    ensures D.DecodeCodes(D.Start(cs), cs, Compress(pixels, cs)) == None
  {
    var st := Run(Start(cs), cs, pixels);
    var fixed := CompressFixed(pixels, cs);
    var k := |fixed| - 1;
    CompressDiffers(pixels, cs);
    CompressFixedDecodes(pixels, cs);
    D.DecodeLast(D.Start(cs), cs, fixed);
    var d := D.Feed(D.Start(cs), cs, fixed[..k]).value;
    D.DecodeAfterFeed(D.Start(cs), cs, fixed[..k], [Code(EndCode(cs), st.numbits)]);
    assert d.width == EndWidth(st);
  }

  /** The codes as written for the bytes 0, 1, 2 with code size 2. */
  lemma SmallImage()
    ensures var pixels: seq<Byte> := [0, 1, 2];
      Compress(pixels, 2) == [Code(4, 3), Code(0, 3), Code(1, 3), Code(2, 3), Code(5, 3)]
      && CompressFixed(pixels, 2) == [Code(4, 3), Code(0, 3), Code(1, 3), Code(2, 3), Code(5, 4)]
  {
    var pixels: seq<Byte> := [0, 1, 2];
    assert Pow2(2) == 4 && Pow2(3) == 8;
    var s0 := Start(2);
    var s1 := Step(s0, 2, 0);
    assert s1 == s0.(prefix := 0);
    var s2 := Step(s1, 2, 1);
    assert s2 == Lzw(Table(map[(0, 1) := 6], 7), 1, 3, 7, [Code(4, 3), Code(0, 3)]);
    var s3 := Step(s2, 2, 2);
    assert s3 == Lzw(Table(map[(0, 1) := 6, (1, 2) := 7], 8), 2, 3, 7, [Code(4, 3), Code(0, 3), Code(1, 3)]);
    assert Run(s0, 2, pixels) == s3 by {
      assert pixels[1..][1..] == [2];
    }
  }

  /**
   * For the bytes 0, 1, 2 with code size 2 the written end code is three
   * bits wide where the decoder, having entered code 7, reads four.
   */
  lemma SmallImageEndShort()
    ensures D.DecodeCodes(D.Start(2), 2, Compress([0, 1, 2], 2)) == None
  {
    var pixels: seq<Byte> := [0, 1, 2];
    SmallImage();
    assert Pow2(2) == 4;
    EndCodeShort(pixels, 2);
  }

  /**
   * When the codes as written fill whole bytes there is no zero padding bit
   * to complete the short end code, and the image data does not decode.
   */
  lemma EndCodeShortBytes(pixels: seq<Byte>, cs: nat)
    requires 2 <= cs <= 8 && |pixels| > 0 && pixels[0] < 128
    requires forall i :: 0 <= i < |pixels| ==> pixels[i] < Pow2(cs)
    requires var st := Run(Start(cs), cs, pixels); EndWidth(st) != st.numbits
    requires |Pack(Compress(pixels, cs))| % 8 == 0
    ensures D.DecodeBits(D.Start(cs), cs, BytesBits(PackBytes(Compress(pixels, cs)))) == None
  {
    var st := Run(Start(cs), cs, pixels);
    var fixed := CompressFixed(pixels, cs);
    var k := |fixed| - 1;
    var front := fixed[..k];
    var end := Code(EndCode(cs), st.numbits);
    var codes := Compress(pixels, cs);
    CompressDiffers(pixels, cs);
    CompressFixedDecodes(pixels, cs);
    D.DecodeLast(D.Start(cs), cs, fixed);
    var d := D.Feed(D.Start(cs), cs, front).value;
    var bits := Pack(codes);
    assert BytesBits(PackBytes(codes)) == bits by {
      assert PackBytes(codes) == ToBytes(bits);
      WholeBytes(bits);
    }
    assert bits == Pack(front) + BitsOf(end.value, end.width) by {
      assert codes == front + [end];
      PackAppend(front, [end]);
      PackOne(end);
    }
    assert Fits(front) by {
      forall i | 0 <= i < |front| ensures 0 <= front[i].value < Pow2(front[i].width) {
        assert front[i] == fixed[i];
      }
    }
    D.DecodeBitsFeed(D.Start(cs), cs, front, BitsOf(end.value, end.width));
    assert d.width == st.numbits + 1;
  }

  /** Eleven bytes over four colours, every pair of neighbours different. */
  const Aligned: seq<Byte> := [0, 1, 2, 3, 0, 2, 1, 3, 1, 0, 3]

  const AlignedCodes: seq<Code> := [Code(4, 3), Code(0, 3), Code(1, 3), Code(2, 3), Code(3, 4), Code(0, 4),
    Code(2, 4), Code(1, 4), Code(3, 4), Code(1, 4), Code(0, 4), Code(3, 4), Code(5, 4)]

  /** The state after the first five bytes: the width has grown to four bits. */
  const AlignedMid: Lzw := Lzw(Table(map[(0, 1) := 6, (1, 2) := 7, (2, 3) := 8, (3, 0) := 9], 10), 0, 4, 15, [Code(4, 3), Code(0, 3), Code(1, 3), Code(2, 3), Code(3, 4)])

  /** The state after all eleven: codes 6 to 15 entered, and the next one no longer fits four bits. */
  const AlignedEnd: Lzw := Lzw(Table(map[(0, 1) := 6, (1, 2) := 7, (2, 3) := 8, (3, 0) := 9, (0, 2) := 10, (2, 1) := 11, (1, 3) := 12, (3, 1) := 13, (1, 0) := 14, (0, 3) := 15], 16), 3, 4, 15, [Code(4, 3), Code(0, 3), Code(1, 3), Code(2, 3), Code(3, 4), Code(0, 4), Code(2, 4), Code(1, 4), Code(3, 4), Code(1, 4), Code(0, 4)])

  lemma AlignedFront()
    ensures Run(Start(2), 2, Aligned) == Run(AlignedMid, 2, Aligned[5..])
  {
    assert Pow2(2) == 4 && Pow2(3) == 8 && Pow2(4) == 16;
    var pixels := Aligned;
    var s0 := Start(2);
    var s1 := Step(s0, 2, 0);
    assert s1 == Lzw(Table(map[], 6), 0, 3, 7, [Code(4, 3)]);
    var s2 := Step(s1, 2, 1);
    assert s2 == Lzw(Table(map[(0, 1) := 6], 7), 1, 3, 7, [Code(4, 3), Code(0, 3)]);
    var s3 := Step(s2, 2, 2);
    assert s3 == Lzw(Table(map[(0, 1) := 6, (1, 2) := 7], 8), 2, 3, 7, [Code(4, 3), Code(0, 3), Code(1, 3)]);
    var s4 := Step(s3, 2, 3);
    assert s4 == Lzw(Table(map[(0, 1) := 6, (1, 2) := 7, (2, 3) := 8], 9), 3, 4, 15, [Code(4, 3), Code(0, 3), Code(1, 3), Code(2, 3)]);
    var s5 := Step(s4, 2, 0);
    assert s5 == Lzw(Table(map[(0, 1) := 6, (1, 2) := 7, (2, 3) := 8, (3, 0) := 9], 10), 0, 4, 15, [Code(4, 3), Code(0, 3), Code(1, 3), Code(2, 3), Code(3, 4)]);
    assert Run(s0, 2, pixels[0..]) == Run(s5, 2, pixels[5..]) by {
      assert Run(s0, 2, pixels[0..]) == Run(s1, 2, pixels[1..]);
      assert Run(s1, 2, pixels[1..]) == Run(s2, 2, pixels[2..]);
      assert Run(s2, 2, pixels[2..]) == Run(s3, 2, pixels[3..]);
      assert Run(s3, 2, pixels[3..]) == Run(s4, 2, pixels[4..]);
      assert Run(s4, 2, pixels[4..]) == Run(s5, 2, pixels[5..]);
    }
    assert s5 == AlignedMid;
    assert pixels[0..] == pixels;
  }

  const AlignedLate: Lzw := Lzw(Table(map[(0, 1) := 6, (1, 2) := 7, (2, 3) := 8, (3, 0) := 9, (0, 2) := 10, (2, 1) := 11, (1, 3) := 12], 13), 3, 4, 15, [Code(4, 3), Code(0, 3), Code(1, 3), Code(2, 3), Code(3, 4), Code(0, 4), Code(2, 4), Code(1, 4)])

  lemma AlignedMiddle()
    ensures Run(AlignedMid, 2, Aligned[5..]) == Run(AlignedLate, 2, Aligned[8..])
  {
    assert Pow2(4) == 16;
    var pixels := Aligned;
    var s5 := AlignedMid;
    var s6 := Step(s5, 2, 2);
    assert s6 == Lzw(Table(map[(0, 1) := 6, (1, 2) := 7, (2, 3) := 8, (3, 0) := 9, (0, 2) := 10], 11), 2, 4, 15, [Code(4, 3), Code(0, 3), Code(1, 3), Code(2, 3), Code(3, 4), Code(0, 4)]);
    var s7 := Step(s6, 2, 1);
    assert s7 == Lzw(Table(map[(0, 1) := 6, (1, 2) := 7, (2, 3) := 8, (3, 0) := 9, (0, 2) := 10, (2, 1) := 11], 12), 1, 4, 15, [Code(4, 3), Code(0, 3), Code(1, 3), Code(2, 3), Code(3, 4), Code(0, 4), Code(2, 4)]);
    var s8 := Step(s7, 2, 3);
    assert s8 == Lzw(Table(map[(0, 1) := 6, (1, 2) := 7, (2, 3) := 8, (3, 0) := 9, (0, 2) := 10, (2, 1) := 11, (1, 3) := 12], 13), 3, 4, 15, [Code(4, 3), Code(0, 3), Code(1, 3), Code(2, 3), Code(3, 4), Code(0, 4), Code(2, 4), Code(1, 4)]);
    assert Run(s5, 2, pixels[5..]) == Run(s8, 2, pixels[8..]) by {
      assert Run(s5, 2, pixels[5..]) == Run(s6, 2, pixels[6..]);
      assert Run(s6, 2, pixels[6..]) == Run(s7, 2, pixels[7..]);
      assert Run(s7, 2, pixels[7..]) == Run(s8, 2, pixels[8..]);
    }
    assert s8 == AlignedLate;
  }

  lemma AlignedBack()
    ensures Run(AlignedLate, 2, Aligned[8..]) == AlignedEnd
  {
    assert Pow2(4) == 16;
    var pixels := Aligned;
    var s8 := AlignedLate;
    var s9 := Step(s8, 2, 1);
    assert s9 == Lzw(Table(map[(0, 1) := 6, (1, 2) := 7, (2, 3) := 8, (3, 0) := 9, (0, 2) := 10, (2, 1) := 11, (1, 3) := 12, (3, 1) := 13], 14), 1, 4, 15, [Code(4, 3), Code(0, 3), Code(1, 3), Code(2, 3), Code(3, 4), Code(0, 4), Code(2, 4), Code(1, 4), Code(3, 4)]);
    var s10 := Step(s9, 2, 0);
    assert s10 == Lzw(Table(map[(0, 1) := 6, (1, 2) := 7, (2, 3) := 8, (3, 0) := 9, (0, 2) := 10, (2, 1) := 11, (1, 3) := 12, (3, 1) := 13, (1, 0) := 14], 15), 0, 4, 15, [Code(4, 3), Code(0, 3), Code(1, 3), Code(2, 3), Code(3, 4), Code(0, 4), Code(2, 4), Code(1, 4), Code(3, 4), Code(1, 4)]);
    var s11 := Step(s10, 2, 3);
    assert s11 == Lzw(Table(map[(0, 1) := 6, (1, 2) := 7, (2, 3) := 8, (3, 0) := 9, (0, 2) := 10, (2, 1) := 11, (1, 3) := 12, (3, 1) := 13, (1, 0) := 14, (0, 3) := 15], 16), 3, 4, 15, [Code(4, 3), Code(0, 3), Code(1, 3), Code(2, 3), Code(3, 4), Code(0, 4), Code(2, 4), Code(1, 4), Code(3, 4), Code(1, 4), Code(0, 4)]);
    assert Run(s8, 2, pixels[8..]) == Run(s11, 2, pixels[11..]) by {
      assert Run(s8, 2, pixels[8..]) == Run(s9, 2, pixels[9..]);
      assert Run(s9, 2, pixels[9..]) == Run(s10, 2, pixels[10..]);
      assert Run(s10, 2, pixels[10..]) == Run(s11, 2, pixels[11..]);
    }
    assert s11 == AlignedEnd;
    assert pixels[11..] == [];
  }

  lemma AlignedState()
    ensures Run(Start(2), 2, Aligned) == AlignedEnd
  {
    AlignedFront();
    AlignedMiddle();
    AlignedBack();
  }

  /** After the loop: the last string's code 3 and the end code, both in four bits. */
  lemma AlignedFinish()
    ensures Finish(AlignedEnd, 2) == AlignedCodes
  {
    assert Pow2(2) == 4;
    assert Finish(AlignedEnd, 2) == AlignedEnd.codes + [Code(3, 4)] + [Code(5, 4)];
  }

  /** Every byte is a new string: ten strings are entered, the last as code 15 of a four-bit width. */
  lemma AlignedRun()
    ensures Compress(Aligned, 2) == AlignedCodes
    ensures var st := Run(Start(2), 2, Aligned); st.numbits == 4 && EndWidth(st) == 5
  {
    AlignedState();
    AlignedFinish();
    assert Pow2(4) == 16;
  }

  lemma AlignedLength(codes: seq<Code>)
    requires codes == AlignedCodes
    ensures |Pack(codes)| % 8 == 0
  {
    assert |Pack(AlignedCodes)| == 48;
  }

  /**
   * For those bytes with code size 2 the thirteen codes take 48 bits, the
   * last data code makes the decoder widen to five bits, and the four-bit
   * end code is the last thing in the data: the image data as written
   * does not decode.
   */
  lemma AlignedImage()
    ensures D.DecodeBits(D.Start(2), 2, BytesBits(PackBytes(Compress(Aligned, 2)))) == None
  {
    assert forall i :: 0 <= i < |Aligned| ==> Aligned[i] < Pow2(2) by {
      assert Pow2(2) == 4;
    }
    AlignedRun();
    AlignedLength(Compress(Aligned, 2));
    EndCodeShortBytes(Aligned, 2);
  }
}
