/**
 * The LZW compressor of GifAcmeEncoder (compress, output's width logic and
 * cl_block). The open-addressing hash table of (prefix code, pixel) pairs
 * is modelled by a map with the same contents; the bits the codes become
 * are the business of AcmeOutput.
 */
module AcmeLzw {
  import opened JavaInt
  import opened Bits

  /** maxbits: codes are at most twelve bits wide. */
  const MaxBits: nat := 12
  /** maxmaxcode: no code may be assigned from here on. */
  const MaxMaxCode: int := 4096

  /**
   * The compressor's variables: the string table (htab/codetab), the next
   * free code, the code of the string matched so far, the current code
   * width and its largest code, the pending clear flag, and the codes
   * output so far with the width each was output with.
   */
  datatype Compressor = Compressor(
    dict: map<(int, int), int>,
    freeEnt: int,
    ent: int,
    nBits: nat,
    maxcode: int,
    clearFlg: bool,
    codes: seq<Code>)

  /** MAXCODE. */
  function MaxCode(nBits: nat): int
  {
    Pow2(nBits) - 1
  }

  function ClearCode(initBits: nat): nat
    requires initBits >= 1
  {
    Pow2(initBits - 1)
  }

  function EofCode(initBits: nat): nat
    requires initBits >= 1
  {
    ClearCode(initBits) + 1
  }

  /**
   * output's code bookkeeping: the code goes out at the current width; then
   * a pending clear restores the initial width, and otherwise the width
   * grows by one once the next free code exceeds the largest code.
   */
  function Output(st: Compressor, code: int, initBits: nat): (r: Compressor)
    ensures r.codes == st.codes + [Code(code, st.nBits)]
    ensures r.dict == st.dict && r.freeEnt == st.freeEnt && r.ent == st.ent && !r.clearFlg
    ensures st.clearFlg ==> r.nBits == initBits
    ensures !st.clearFlg ==> r.nBits == st.nBits || (r.nBits == st.nBits + 1 && st.freeEnt > st.maxcode)
  {
    var st1 := st.(codes := st.codes + [Code(code, st.nBits)]);
    if st1.freeEnt > st1.maxcode || st1.clearFlg then
      if st1.clearFlg then
        st1.(nBits := initBits, maxcode := MaxCode(initBits), clearFlg := false)
      else
        var n := st1.nBits + 1;
        st1.(nBits := n, maxcode := if n == MaxBits then MaxMaxCode else MaxCode(n))
    else
      st1
  }

  /** cl_block: forget every string, output the clear code, and reset the width after it. */
  function ClBlock(st: Compressor, initBits: nat): (r: Compressor)
    requires initBits >= 1
    ensures r.dict == map[] && r.freeEnt == ClearCode(initBits) + 2
    ensures r.codes == st.codes + [Code(ClearCode(initBits), st.nBits)] && r.nBits == initBits
  {
    Output(st.(dict := map[], freeEnt := ClearCode(initBits) + 2, clearFlg := true), ClearCode(initBits), initBits)
  }

  /**
   * One pass of compress's loop for pixel `c`: extend the match if the
   * table knows it; otherwise output the match, start a new one at `c` and
   * either give the extended string the next free code or, with the table
   * full, clear it.
   */
  function Step(st: Compressor, c: int, initBits: nat): (r: Compressor)
    requires initBits >= 1
    ensures r.ent == c || ((st.ent, c) in st.dict && r.ent == st.dict[(st.ent, c)])
    ensures (st.ent, c) in st.dict ==> r.codes == st.codes
    ensures (st.ent, c) !in st.dict ==> |r.codes| > |st.codes| && r.codes[|st.codes|].value == st.ent
  {
    if (st.ent, c) in st.dict then
      st.(ent := st.dict[(st.ent, c)])
    else
      var st1 := Output(st, st.ent, initBits).(ent := c);
      if st1.freeEnt < MaxMaxCode then
        st1.(dict := st1.dict[(st.ent, c) := st1.freeEnt], freeEnt := st1.freeEnt + 1)
      else
        ClBlock(st1, initBits)
  }

  /** The loop over the remaining pixels. */
  function Run(st: Compressor, pixels: seq<int>, initBits: nat): (r: Compressor)
    requires initBits >= 1
    ensures st.codes <= r.codes
    decreases |pixels|
  {
    if |pixels| == 0 then st else Run(Step(st, pixels[0], initBits), pixels[1..], initBits)
  }

  /** Run over a non-empty input: one step, then the rest. */
  lemma RunCons(st: Compressor, pixels: seq<int>, initBits: nat)
    requires initBits >= 1 && |pixels| > 0
    ensures Run(st, pixels, initBits) == Run(Step(st, pixels[0], initBits), pixels[1..], initBits)
  {
  }

  /** The state before the loop, with the clear code output. */
  function Begin(pixels: seq<int>, initBits: nat): (r: Compressor)
    requires initBits >= 1
    ensures r.codes == [Code(ClearCode(initBits), initBits)] && r.dict == map[]
  {
    var clear := ClearCode(initBits);
    var ent := if |pixels| == 0 then -1 else pixels[0];
    Output(Compressor(map[], clear + 2, ent, initBits, MaxCode(initBits), false, []), clear, initBits)
  }

  /**
   * compress: the codes for `pixels`, starting with the clear code and
   * ending with the code of the last match and the end code. An empty
   * image has no first pixel, so the end-of-input marker -1 goes out as
   * its only data code.
   */
  function Compress(pixels: seq<int>, initBits: nat): (codes: seq<Code>)
    requires initBits >= 1
    ensures |codes| >= 3 && codes[0] == Code(ClearCode(initBits), initBits)
    ensures codes[|codes| - 1].value == EofCode(initBits)
    ensures |pixels| == 0 ==> codes[1].value == -1
  {
    var st := Run(Begin(pixels, initBits), if |pixels| == 0 then [] else pixels[1..], initBits);
    Output(Output(st, st.ent, initBits), EofCode(initBits), initBits).codes
  }

  /** For a non-empty image: the codes of the run over the pixels after the first, its last match, and the end code. */
  lemma CompressParts(pixels: seq<int>, initBits: nat)
    requires initBits >= 1 && |pixels| > 0
    ensures var st := Run(Begin(pixels, initBits), pixels[1..], initBits);
      var e1 := Output(st, st.ent, initBits);
      Compress(pixels, initBits) == Output(e1, EofCode(initBits), initBits).codes
      && Compress(pixels, initBits) == e1.codes + [Code(EofCode(initBits), e1.nBits)]
  {
  }

  // ----- the width invariant -----

  /**
   * Between two pixels: the width lies between the initial one and twelve,
   * its largest code matches it, every assigned code and the current match
   * lie below the next free code, which the width can still express, and
   * every code output so far fits the width it was output with.
   */
  ghost predicate WidthInv(st: Compressor, initBits: nat)
  {
    3 <= initBits <= 9
    && initBits <= st.nBits <= MaxBits
    && st.maxcode == (if st.nBits == MaxBits then MaxMaxCode else MaxCode(st.nBits))
    && !st.clearFlg
    && ClearCode(initBits) + 2 <= st.freeEnt <= MaxMaxCode
    && (st.nBits < MaxBits ==> st.freeEnt <= Pow2(st.nBits))
    && 0 <= st.ent < st.freeEnt
    && (forall key | key in st.dict :: 0 <= st.dict[key] < st.freeEnt)
    && Fits(st.codes) && WidthsWithin(st.codes, initBits)
  }

  ghost predicate WidthsWithin(codes: seq<Code>, initBits: nat)
  {
    forall i :: 0 <= i < |codes| ==> initBits <= codes[i].width <= MaxBits
  }

  lemma FitsAppend(codes: seq<Code>, c: Code, initBits: nat)
    requires Fits(codes) && 0 <= c.value < Pow2(c.width)
    requires WidthsWithin(codes, initBits) && initBits <= c.width <= MaxBits
    ensures Fits(codes + [c]) && WidthsWithin(codes + [c], initBits)
  {
  }

  /** The clear code of a code size one above `cs` is 2^cs. */
  lemma ClearOf(cs: nat)
    ensures ClearCode(cs + 1) == Pow2(cs)
  {
  }

  lemma ClearFitsInit(initBits: nat)
    requires 3 <= initBits
    ensures ClearCode(initBits) + 2 <= Pow2(initBits)
    ensures 2 * ClearCode(initBits) == Pow2(initBits)
  {
    Pow2Monotone(1, initBits - 1);
  }

  lemma {:induction false} BeginWidthInv(pixels: seq<int>, initBits: nat)
    requires 3 <= initBits <= 9 && |pixels| > 0
    requires 0 <= pixels[0] < ClearCode(initBits)
    ensures WidthInv(Begin(pixels, initBits), initBits)
    ensures var st := Begin(pixels, initBits);
      st.nBits == initBits && st.ent == pixels[0] && st.freeEnt == ClearCode(initBits) + 2
  {
    ClearFitsInit(initBits);
    Pow2Monotone(initBits - 1, 8);
    Pow2Byte();
    var st := Begin(pixels, initBits);
    FitsAppend([], Code(ClearCode(initBits), initBits), initBits);
  }

  /** Outputting the match keeps everything but the match in order. */
  lemma OutputEntWidth(st: Compressor, initBits: nat)
    requires WidthInv(st, initBits)
    ensures var r := Output(st, st.ent, initBits);
      Fits(r.codes) && WidthsWithin(r.codes, initBits) && initBits <= r.nBits <= MaxBits && !r.clearFlg
      && r.maxcode == (if r.nBits == MaxBits then MaxMaxCode else MaxCode(r.nBits))
      && (r.nBits < MaxBits ==> st.freeEnt < Pow2(r.nBits))
      && (r.nBits == MaxBits ==> st.freeEnt <= MaxMaxCode)
      && (st.freeEnt >= 2048 ==> r.nBits == MaxBits)
  {
    var r := Output(st, st.ent, initBits);
    Pow2Monotone(st.nBits, MaxBits);
    assert Pow2(MaxBits) == 4096;
    FitsAppend(st.codes, Code(st.ent, st.nBits), initBits);
    if r.nBits == st.nBits + 1 {
      assert Pow2(r.nBits) == 2 * Pow2(st.nBits);
    }
    if r.nBits < MaxBits {
      Pow2Monotone(r.nBits, 11);
      assert Pow2(11) == 2048;
    }
  }

  lemma {:induction false} StepWidthInv(st: Compressor, c: int, initBits: nat)
    requires WidthInv(st, initBits) && 0 <= c < ClearCode(initBits)
    ensures WidthInv(Step(st, c, initBits), initBits)
  {
    if (st.ent, c) in st.dict {
      assert Step(st, c, initBits) == st.(ent := st.dict[(st.ent, c)]);
    } else {
      OutputEntWidth(st, initBits);
      ClearFitsInit(initBits);
      var st1 := Output(st, st.ent, initBits).(ent := c);
      if st1.freeEnt < MaxMaxCode {
        var r := st1.(dict := st1.dict[(st.ent, c) := st1.freeEnt], freeEnt := st1.freeEnt + 1);
        assert Step(st, c, initBits) == r;
        assert forall key | key in r.dict :: 0 <= r.dict[key] < r.freeEnt;
      } else {
        ClearWidthInv(st1, initBits);
      }
    }
  }

  lemma ClearWidthInv(st: Compressor, initBits: nat)
    requires 3 <= initBits <= 9 && st.nBits == MaxBits && 0 <= st.ent < ClearCode(initBits)
    requires Fits(st.codes) && WidthsWithin(st.codes, initBits)
    ensures WidthInv(ClBlock(st, initBits), initBits)
  {
    ClearFitsInit(initBits);
    Pow2Monotone(initBits, MaxBits);
    Pow2Monotone(initBits - 1, 8);
    Pow2Byte();
    FitsAppend(st.codes, Code(ClearCode(initBits), st.nBits), initBits);
  }

  lemma {:induction false} RunWidthInv(st: Compressor, pixels: seq<int>, initBits: nat)
    requires WidthInv(st, initBits)
    requires forall i :: 0 <= i < |pixels| ==> 0 <= pixels[i] < ClearCode(initBits)
    ensures WidthInv(Run(st, pixels, initBits), initBits)
    decreases |pixels|
  {
    if |pixels| > 0 {
      StepWidthInv(st, pixels[0], initBits);
      RunWidthInv(Step(st, pixels[0], initBits), pixels[1..], initBits);
    }
  }

  /**
   * For a non-empty image whose pixels are below the clear code, every code
   * compress outputs fits the width it is output with, and widths stay
   * between the initial width and twelve bits.
   */
  lemma CompressFits(pixels: seq<int>, initBits: nat)
    requires 3 <= initBits <= 9 && |pixels| > 0
    requires forall i :: 0 <= i < |pixels| ==> 0 <= pixels[i] < ClearCode(initBits)
    ensures Fits(Compress(pixels, initBits))
    ensures WidthsWithin(Compress(pixels, initBits), initBits)
  {
    BeginWidthInv(pixels, initBits);
    var st := Run(Begin(pixels, initBits), pixels[1..], initBits);
    RunWidthInv(Begin(pixels, initBits), pixels[1..], initBits);
    OutputEntWidth(st, initBits);
    var st2 := Output(st, st.ent, initBits);
    Pow2Monotone(initBits, st2.nBits);
    ClearFitsInit(initBits);
    FitsAppend(st2.codes, Code(EofCode(initBits), st2.nBits), initBits);
  }
}
