/**
 * GifAcmeEncoder's LZW codes decode back to the pixels they were made
 * from. The proof runs the compressor and the reference decoder side by
 * side: the decoder always knows every string the compressor has given a
 * code except the last one, whose final symbol it learns from the next
 * code it reads.
 */
module AcmeRoundTrip {
  import opened JavaInt
  import opened Wrappers
  import opened Bits
  import D = LzwDecode
  import A = AcmeLzw

  /** The string a code stands for in the decoder's table, roots included. */
  ghost function TableStr(d: D.Decoder, cs: nat, k: int): seq<int>
  {
    if 0 <= k < Pow2(cs) then [k] else if k in d.table then d.table[k] else []
  }

  /**
   * The string a code stands for in the compressor's table: the decoder's
   * view plus the entry made after the previous code, which the decoder
   * has yet to complete; `pc` is that entry's last symbol.
   */
  ghost function EncStr(d: D.Decoder, cs: nat, pc: int, k: int): seq<int>
  {
    if 0 <= k < Pow2(cs) || k in d.table then TableStr(d, cs, k)
    else if d.prev >= 0 && k == d.next then TableStr(d, cs, d.prev) + [pc]
    else []
  }

  /** A root, or a code assigned below `bound`. */
  ghost predicate Valid(k: int, cs: nat, bound: int)
  {
    (0 <= k < Pow2(cs)) || (Pow2(cs) + 2 <= k < bound)
  }

  /** The decoder's table holds exactly the codes from the first free one up to `next`, none empty. */
  ghost predicate TableShape(d: D.Decoder, cs: nat)
  {
    (forall k :: k in d.table <==> Pow2(cs) + 2 <= k < d.next)
    && (forall k | k in d.table :: |d.table[k]| >= 1)
  }

  /**
   * Between two pixels, with `done` the pixels read so far: the decoder
   * is what the codes output so far decode to, at the same width; either
   * nothing has been output since the last clear, or the decoder's
   * previous code has the compressor's last entry pending; every table
   * entry of the compressor extends its prefix by its symbol; and the
   * decoder's output followed by the current match is `done`.
   */
  ghost predicate Inv(e: A.Compressor, d: D.Decoder, cs: nat, pc: int, done: seq<int>)
  {
    2 <= cs <= 8
    && A.WidthInv(e, cs + 1)
    && D.Feed(D.Start(cs), cs, e.codes) == Some(d)
    && e.nBits == d.width
    && TableShape(d, cs)
    && (if d.prev < 0 then
          d.prev == -1 && e.freeEnt == Pow2(cs) + 2 && d.next == Pow2(cs) + 2
          && e.dict == map[] && 0 <= e.ent < Pow2(cs)
        else
          Valid(d.prev, cs, d.next) && d.next < A.MaxMaxCode && e.freeEnt == d.next + 1
          && (d.prev, pc) in e.dict && e.dict[(d.prev, pc)] == d.next
          && Valid(e.ent, cs, e.freeEnt)
          && |EncStr(d, cs, pc, e.ent)| >= 1 && EncStr(d, cs, pc, e.ent)[0] == pc)
    && (forall key | key in e.dict ::
          Valid(key.0, cs, e.freeEnt) && e.dict[key] >= Pow2(cs) + 2
          && EncStr(d, cs, pc, e.dict[key]) == EncStr(d, cs, pc, key.0) + [key.1])
    && d.out + EncStr(d, cs, pc, e.ent) == done
  }

  /** What reading the current match does to the decoder. */
  ghost predicate AfterRead(e: A.Compressor, d: D.Decoder, d1: D.Decoder, cs: nat, pc: int)
  {
    D.Accept(d, cs, e.ent) == Some(d1)
    && d1.out == d.out + EncStr(d, cs, pc, e.ent)
    && d1.width == A.Output(e, e.ent, cs + 1).nBits
    && d1.next == e.freeEnt && d1.prev == e.ent
    && TableShape(d1, cs)
    && (forall k | Valid(k, cs, e.freeEnt) :: TableStr(d1, cs, k) == EncStr(d, cs, pc, k))
  }

  lemma ClearFits(cs: nat)
    requires 2 <= cs <= 8
    ensures Pow2(cs) + 2 <= Pow2(cs + 1) && Pow2(cs) <= 256
  {
    Pow2Monotone(1, cs);
    Pow2Monotone(cs, 8);
    Pow2Byte();
  }

  /** The compressor widens exactly when the decoder does. */
  lemma WidthsAgree(e: A.Compressor, d: D.Decoder, cs: nat)
    requires A.WidthInv(e, cs + 1) && e.nBits == d.width && d.next == e.freeEnt
    ensures A.Output(e, e.ent, cs + 1).nBits == D.Grow(d).width
  {
  }

  /** The decoder reads the current match back as its string. */
  lemma ReadEnt(e: A.Compressor, d: D.Decoder, cs: nat, pc: int, done: seq<int>)
    returns (d1: D.Decoder)
    requires Inv(e, d, cs, pc, done)
    ensures AfterRead(e, d, d1, cs, pc)
  {
    if d.prev < 0 {
      d1 := ReadFirst(e, d, cs, pc, done);
    } else {
      d1 := ReadNext(e, d, cs, pc, done);
    }
  }

  /** The first code after a clear is a root, which the decoder outputs as it is. */
  lemma ReadFirst(e: A.Compressor, d: D.Decoder, cs: nat, pc: int, done: seq<int>)
    returns (d1: D.Decoder)
    requires Inv(e, d, cs, pc, done) && d.prev < 0
    ensures AfterRead(e, d, d1, cs, pc)
  {
    ClearFits(cs);
    var ent := e.ent;
    d1 := D.Grow(d.(prev := ent, out := d.out + [ent]));
    assert D.Accept(d, cs, ent) == Some(d1);
    WidthsAgree(e, d.(prev := ent, out := d.out + [ent]), cs);
    assert forall k | Valid(k, cs, e.freeEnt) :: TableStr(d1, cs, k) == EncStr(d, cs, pc, k);
  }

  /** A later code completes the pending entry with its string's first symbol. */
  lemma ReadNext(e: A.Compressor, d: D.Decoder, cs: nat, pc: int, done: seq<int>)
    returns (d1: D.Decoder)
    requires Inv(e, d, cs, pc, done) && d.prev >= 0
    ensures AfterRead(e, d, d1, cs, pc)
  {
    var d0 := NextAccept(e, d, cs, pc, done);
    NextTable(e, d, cs, pc, done, d0);
    d1 := D.Grow(d0);
    WidthsAgree(e, d0, cs);
    assert d1.table == d0.table;
  }

  /** The decoder after the current match, before it widens: the pending entry completed and the match output. */
  ghost function Completed(e: A.Compressor, d: D.Decoder, cs: nat, pc: int): D.Decoder
  {
    d.(table := d.table[d.next := TableStr(d, cs, d.prev) + [pc]], next := d.next + 1, prev := e.ent,
       out := d.out + EncStr(d, cs, pc, e.ent))
  }

  /** The decoder accepts the current match's code, looking up or completing its string. */
  lemma NextAccept(e: A.Compressor, d: D.Decoder, cs: nat, pc: int, done: seq<int>)
    returns (d0: D.Decoder)
    requires Inv(e, d, cs, pc, done) && d.prev >= 0
    ensures d0 == Completed(e, d, cs, pc)
    ensures D.Accept(d, cs, e.ent) == Some(D.Grow(d0))
  {
    ClearFits(cs);
    var ent := e.ent;
    var p := TableStr(d, cs, d.prev);
    var s := EncStr(d, cs, pc, ent);
    assert D.Lookup(d, cs, d.prev) == Some(p);
    if ent == d.next {
      assert s == p + [pc];
      assert D.Lookup(d, cs, ent) == None;
    } else {
      assert D.Lookup(d, cs, ent) == Some(s);
    }
    d0 := Completed(e, d, cs, pc);
  }

  /** Completing the pending entry makes the decoder's table the compressor's. */
  lemma NextTable(e: A.Compressor, d: D.Decoder, cs: nat, pc: int, done: seq<int>, d0: D.Decoder)
    requires Inv(e, d, cs, pc, done) && d.prev >= 0 && d0 == Completed(e, d, cs, pc)
    ensures TableShape(d0, cs)
    ensures forall k | Valid(k, cs, e.freeEnt) :: TableStr(d0, cs, k) == EncStr(d, cs, pc, k)
  {
    ClearFits(cs);
    forall k | Valid(k, cs, e.freeEnt)
      ensures TableStr(d0, cs, k) == EncStr(d, cs, pc, k)
    {
      if k == d.next {
        assert TableStr(d0, cs, k) == TableStr(d, cs, d.prev) + [pc];
      }
    }
  }

  /** The decoder state Inv is set up with: the clear code read, nothing else. */
  lemma BeginInv(pixels: seq<int>, cs: nat)
    requires 2 <= cs <= 8 && |pixels| > 0
    requires forall i :: 0 <= i < |pixels| ==> 0 <= pixels[i] < Pow2(cs)
    ensures Inv(A.Begin(pixels, cs + 1), D.Start(cs), cs, 0, pixels[..1])
  {
    A.ClearOf(cs);
    A.BeginWidthInv(pixels, cs + 1);
    BeginFeed(pixels, cs);
    InvStart(A.Begin(pixels, cs + 1), D.Start(cs), cs);
    assert [pixels[0]] == pixels[..1];
  }

  /** A compressor with an empty table beside a decoder that has read only the clear code: the invariant, the match its only symbol. */
  lemma InvStart(e: A.Compressor, d: D.Decoder, cs: nat)
    requires 2 <= cs <= 8 && A.WidthInv(e, cs + 1) && D.Feed(D.Start(cs), cs, e.codes) == Some(d)
    requires d == D.Start(cs) && e.nBits == cs + 1
    requires e.freeEnt == Pow2(cs) + 2 && e.dict == map[] && 0 <= e.ent < Pow2(cs)
    ensures Inv(e, d, cs, 0, [e.ent])
  {
    assert TableShape(d, cs);
    assert EncStr(d, cs, 0, e.ent) == [e.ent];
  }

  /** The clear code alone leaves the decoder as it starts. */
  lemma BeginFeed(pixels: seq<int>, cs: nat)
    requires 2 <= cs <= 8
    ensures A.Begin(pixels, cs + 1).codes == [Code(Pow2(cs), cs + 1)]
    ensures D.Feed(D.Start(cs), cs, A.Begin(pixels, cs + 1).codes) == Some(D.Start(cs))
  {
    var d := D.Start(cs);
    assert D.Accept(d, cs, Pow2(cs)) == Some(d);
    assert D.Feed(d, cs, []) == Some(d);
  }

  /** A pixel that extends the match: nothing is output. */
  lemma HitInv(e: A.Compressor, d: D.Decoder, cs: nat, pc: int, done: seq<int>, c: int)
    requires Inv(e, d, cs, pc, done) && 0 <= c < Pow2(cs) && (e.ent, c) in e.dict
    ensures Inv(A.Step(e, c, cs + 1), d, cs, pc, done + [c])
  {
    A.StepWidthInv(e, c, cs + 1);
    var k := e.dict[(e.ent, c)];
    assert A.Step(e, c, cs + 1) == e.(ent := k);
  }

  /** A pixel that ends the match while the table has room: the match is output and a new entry made. */
  lemma {:induction false} AddInv(e: A.Compressor, d: D.Decoder, cs: nat, pc: int, done: seq<int>, c: int)
    returns (d1: D.Decoder)
    requires Inv(e, d, cs, pc, done) && 0 <= c < Pow2(cs) && (e.ent, c) !in e.dict
    requires e.freeEnt < A.MaxMaxCode
    ensures Inv(A.Step(e, c, cs + 1), d1, cs, c, done + [c])
  {
    d1 := ReadEnt(e, d, cs, pc, done);
    var e2 := AddStep(e, cs, c);
    AddDict(e, d, cs, pc, done, c, d1, e2);
    AddIntro(e, d, cs, pc, done, c, d1, e2);
  }

  /** The compressor after a new entry: the match output, the entry made, and the new match the pixel. */
  lemma AddStep(e: A.Compressor, cs: nat, c: int) returns (e2: A.Compressor)
    requires 2 <= cs <= 8 && A.WidthInv(e, cs + 1) && 0 <= c < Pow2(cs) && (e.ent, c) !in e.dict
    requires e.freeEnt < A.MaxMaxCode
    ensures e2 == A.Step(e, c, cs + 1) && A.WidthInv(e2, cs + 1)
    ensures e2.ent == c && e2.dict == e.dict[(e.ent, c) := e.freeEnt] && e2.freeEnt == e.freeEnt + 1
    ensures e2.codes == e.codes + [Code(e.ent, e.nBits)] && e2.nBits == A.Output(e, e.ent, cs + 1).nBits
  {
    A.ClearOf(cs);
    A.StepWidthInv(e, c, cs + 1);
    e2 := A.Step(e, c, cs + 1);
  }

  /** The facts a new entry leaves, gathered into the invariant. */
  lemma AddIntro(e: A.Compressor, d: D.Decoder, cs: nat, pc: int, done: seq<int>, c: int, d1: D.Decoder, e2: A.Compressor)
    requires Inv(e, d, cs, pc, done) && 0 <= c < Pow2(cs) && (e.ent, c) !in e.dict
    requires e.freeEnt < A.MaxMaxCode && AfterRead(e, d, d1, cs, pc)
    requires A.WidthInv(e2, cs + 1)
    requires e2.ent == c && e2.dict == e.dict[(e.ent, c) := e.freeEnt] && e2.freeEnt == e.freeEnt + 1
    requires e2.codes == e.codes + [Code(e.ent, e.nBits)] && e2.nBits == A.Output(e, e.ent, cs + 1).nBits
    requires forall key | key in e2.dict ::
      Valid(key.0, cs, e2.freeEnt) && e2.dict[key] >= Pow2(cs) + 2
      && EncStr(d1, cs, c, e2.dict[key]) == EncStr(d1, cs, c, key.0) + [key.1]
    ensures Inv(e2, d1, cs, c, done + [c])
  {
    ClearFits(cs);
    assert D.Feed(D.Start(cs), cs, e2.codes) == Some(d1) by {
      D.FeedAppend(D.Start(cs), cs, e.codes, [Code(e.ent, e.nBits)]);
    }
    assert EncStr(d1, cs, c, c) == [c];
  }

  /** After a new entry: every entry of the compressor still extends its prefix by its symbol. */
  lemma AddDict(e: A.Compressor, d: D.Decoder, cs: nat, pc: int, done: seq<int>, c: int, d1: D.Decoder, e2: A.Compressor)
    requires Inv(e, d, cs, pc, done) && 0 <= c < Pow2(cs) && (e.ent, c) !in e.dict
    requires e.freeEnt < A.MaxMaxCode && AfterRead(e, d, d1, cs, pc)
    requires e2.dict == e.dict[(e.ent, c) := e.freeEnt] && e2.freeEnt == e.freeEnt + 1
    ensures forall key | key in e2.dict ::
      Valid(key.0, cs, e2.freeEnt) && e2.dict[key] >= Pow2(cs) + 2
      && EncStr(d1, cs, c, e2.dict[key]) == EncStr(d1, cs, c, key.0) + [key.1]
  {
    ClearFits(cs);
    forall key | key in e2.dict
      ensures Valid(key.0, cs, e2.freeEnt) && e2.dict[key] >= Pow2(cs) + 2
      ensures EncStr(d1, cs, c, e2.dict[key]) == EncStr(d1, cs, c, key.0) + [key.1]
    {
      if key == (e.ent, c) {
        assert EncStr(d1, cs, c, d1.next) == TableStr(d1, cs, e.ent) + [c];
      } else {
        assert key in e.dict;
      }
    }
  }

  /** A pixel that ends the match with the table full: the match and a clear code are output. */
  lemma {:induction false} ClearInv(e: A.Compressor, d: D.Decoder, cs: nat, pc: int, done: seq<int>, c: int)
    returns (d2: D.Decoder)
    requires Inv(e, d, cs, pc, done) && 0 <= c < Pow2(cs) && (e.ent, c) !in e.dict
    requires e.freeEnt >= A.MaxMaxCode
    ensures Inv(A.Step(e, c, cs + 1), d2, cs, 0, done + [c])
  {
    ClearFits(cs);
    A.StepWidthInv(e, c, cs + 1);
    var d1 := ReadEnt(e, d, cs, pc, done);
    A.OutputEntWidth(e, cs + 1);
    var e1 := A.Output(e, e.ent, cs + 1).(ent := c);
    var e2 := A.ClBlock(e1, cs + 1);
    assert A.Step(e, c, cs + 1) == e2;
    d2 := D.Cleared(cs, d1.out);
    assert D.Accept(d1, cs, Pow2(cs)) == Some(d2);
    assert D.Feed(d1, cs, [Code(Pow2(cs), e1.nBits)]) == Some(d2);
    assert D.Feed(D.Start(cs), cs, e2.codes) == Some(d2) by {
      D.FeedAppend(D.Start(cs), cs, e.codes, [Code(e.ent, e.nBits)]);
      assert e2.codes == e.codes + [Code(e.ent, e.nBits)] + [Code(Pow2(cs), e1.nBits)];
      D.FeedAppend(D.Start(cs), cs, e.codes + [Code(e.ent, e.nBits)], [Code(Pow2(cs), e1.nBits)]);
    }
  }

  lemma StepInv(e: A.Compressor, d: D.Decoder, cs: nat, pc: int, done: seq<int>, c: int)
    returns (d': D.Decoder, pc': int)
    requires Inv(e, d, cs, pc, done) && 0 <= c < Pow2(cs)
    ensures Inv(A.Step(e, c, cs + 1), d', cs, pc', done + [c])
  {
    if (e.ent, c) in e.dict {
      HitInv(e, d, cs, pc, done, c);
      d', pc' := d, pc;
    } else if e.freeEnt < A.MaxMaxCode {
      d' := AddInv(e, d, cs, pc, done, c);
      pc' := c;
    } else {
      d' := ClearInv(e, d, cs, pc, done, c);
      pc' := 0;
    }
  }

  lemma {:induction false} RunInv(e: A.Compressor, d: D.Decoder, cs: nat, pc: int, done: seq<int>, rest: seq<int>)
    returns (d': D.Decoder, pc': int)
    requires Inv(e, d, cs, pc, done)
    requires forall i :: 0 <= i < |rest| ==> 0 <= rest[i] < Pow2(cs)
    ensures Inv(A.Run(e, rest, cs + 1), d', cs, pc', done + rest)
    decreases |rest|
  {
    if |rest| == 0 {
      d', pc' := d, pc;
      assert done + rest == done;
    } else {
      A.RunCons(e, rest, cs + 1);
      ShiftFirst(done, rest);
      var e1 := A.Step(e, rest[0], cs + 1);
      RootsTail(rest, cs);
      var d1, pc1 := StepInv(e, d, cs, pc, done, rest[0]);
      d', pc' := RunInv(e1, d1, cs, pc1, done + [rest[0]], rest[1..]);
    }
  }

  /** Pixels below the clear code: so are those after the first. */
  lemma RootsTail(rest: seq<int>, cs: nat)
    requires |rest| > 0 && forall i :: 0 <= i < |rest| ==> 0 <= rest[i] < Pow2(cs)
    ensures forall i :: 0 <= i < |rest[1..]| ==> 0 <= rest[1..][i] < Pow2(cs)
  {
  }

  /** After the last pixel: the match and the end code decode to everything read. */
  lemma FinishDecodes(e: A.Compressor, d: D.Decoder, cs: nat, pc: int, done: seq<int>)
    requires Inv(e, d, cs, pc, done)
    ensures var e1 := A.Output(e, e.ent, cs + 1);
      D.DecodeCodes(D.Start(cs), cs, A.Output(e1, A.EofCode(cs + 1), cs + 1).codes) == Some(done)
    ensures var codes := A.Output(e, e.ent, cs + 1).codes;
      forall i :: 0 <= i < |codes| ==> codes[i].value != A.EofCode(cs + 1)
  {
    var d1 := ReadEnt(e, d, cs, pc, done);
    var e1 := A.Output(e, e.ent, cs + 1);
    var tail := [Code(e.ent, e.nBits), Code(A.EofCode(cs + 1), e1.nBits)];
    assert A.Output(e1, A.EofCode(cs + 1), cs + 1).codes == e.codes + tail;
    D.DecodeAfterFeed(D.Start(cs), cs, e.codes, tail);
    assert tail[1..] == [Code(A.EofCode(cs + 1), e1.nBits)];
    assert D.DecodeCodes(d1, cs, tail[1..]) == Some(d1.out);
    D.FeedNoEnd(D.Start(cs), cs, e.codes);
    assert e1.codes == e.codes + [Code(e.ent, e.nBits)];
  }

  /** From any state of the invariant, compress's remaining codes finish the decoding. */
  lemma RunFinish(e: A.Compressor, d: D.Decoder, cs: nat, pc: int, done: seq<int>, rest: seq<int>)
    requires Inv(e, d, cs, pc, done)
    requires forall i :: 0 <= i < |rest| ==> 0 <= rest[i] < Pow2(cs)
    ensures var st := A.Run(e, rest, cs + 1);
      var e1 := A.Output(st, st.ent, cs + 1);
      D.DecodeCodes(D.Start(cs), cs, A.Output(e1, A.EofCode(cs + 1), cs + 1).codes) == Some(done + rest)
      && forall i :: 0 <= i < |e1.codes| ==> e1.codes[i].value != A.EofCode(cs + 1)
  {
    var d', pc' := RunInv(e, d, cs, pc, done, rest);
    FinishDecodes(A.Run(e, rest, cs + 1), d', cs, pc', done + rest);
  }

  /**
   * For a non-empty image whose pixels lie below the clear code (code size
   * 2 to 8, as GIFEncode chooses), the reference decoder turns compress's
   * codes back into the pixels.
   */
  lemma CompressDecodes(pixels: seq<int>, cs: nat)
    requires 2 <= cs <= 8 && |pixels| > 0
    requires forall i :: 0 <= i < |pixels| ==> 0 <= pixels[i] < Pow2(cs)
    ensures D.DecodeCodes(D.Start(cs), cs, A.Compress(pixels, cs + 1)) == Some(pixels)
    ensures Terminated(A.Compress(pixels, cs + 1), A.EofCode(cs + 1))
  {
    BeginFinish(pixels, cs);
    A.CompressParts(pixels, cs + 1);
  }

  /** Compress's codes end with the end code, and only there. */
  lemma CompressTerminated(pixels: seq<int>, cs: nat)
    requires 2 <= cs <= 8 && |pixels| > 0
    requires forall i :: 0 <= i < |pixels| ==> 0 <= pixels[i] < Pow2(cs)
    ensures Terminated(A.Compress(pixels, cs + 1), A.EofCode(cs + 1))
  {
    CompressDecodes(pixels, cs);
  }

  /** The run over the pixels after the first, from the state after the first. */
  lemma BeginFinish(pixels: seq<int>, cs: nat)
    requires 2 <= cs <= 8 && |pixels| > 0
    requires forall i :: 0 <= i < |pixels| ==> 0 <= pixels[i] < Pow2(cs)
    ensures var st := A.Run(A.Begin(pixels, cs + 1), pixels[1..], cs + 1);
      var e1 := A.Output(st, st.ent, cs + 1);
      D.DecodeCodes(D.Start(cs), cs, A.Output(e1, A.EofCode(cs + 1), cs + 1).codes) == Some(pixels)
      && forall i :: 0 <= i < |e1.codes| ==> e1.codes[i].value != A.EofCode(cs + 1)
  {
    BeginInv(pixels, cs);
    TakeDrop(pixels, 1);
    RunFinish(A.Begin(pixels, cs + 1), D.Start(cs), cs, 0, pixels[..1], pixels[1..]);
  }
}
