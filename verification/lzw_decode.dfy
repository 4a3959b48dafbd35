/**
 * A GIF LZW decoder, written from the variable-length-code rules of
 * Appendix F of the GIF89a specification. The library has no decoder of
 * its own (it reads GIFs through the platform); this one is the reference
 * the two encoders are proved against.
 */
module LzwDecode {
  import opened JavaInt
  import opened Wrappers
  import opened Bits

  /** Codes never grow wider than twelve bits. */
  const MaxWidth: nat := 12
  /** The number of codes twelve bits can name; a full table gets no more entries. */
  const TableLimit: int := 4096

  /**
   * The decoder between two codes: the entries made since the last clear
   * code (roots are implicit), the code the next entry gets, the width of
   * the next code, the last data code read since the clear code (-1 if
   * none) and the symbols written so far.
   */
  datatype Decoder = Decoder(
    table: map<int, seq<int>>,
    next: int,
    width: nat,
    prev: int,
    out: seq<int>)

  function ClearCode(codeSize: nat): nat
  {
    Pow2(codeSize)
  }

  function EndCode(codeSize: nat): nat
  {
    Pow2(codeSize) + 1
  }

  /** The first code after the clear and end codes. */
  function FirstFree(codeSize: nat): nat
  {
    Pow2(codeSize) + 2
  }

  /** The state after a clear code: no entries, the initial width, `out` kept. */
  function Cleared(codeSize: nat, out: seq<int>): (d: Decoder)
    ensures d.width == codeSize + 1 && d.next == FirstFree(codeSize)
    ensures d.table == map[] && d.prev == -1 && d.out == out
  {
    Decoder(map[], FirstFree(codeSize), codeSize + 1, -1, out)
  }

  function Start(codeSize: nat): Decoder
  {
    Cleared(codeSize, [])
  }

  /** The symbols a code stands for, if it stands for any yet. */
  function Lookup(d: Decoder, codeSize: nat, code: int): (r: Option<seq<int>>)
    ensures 0 <= code < Pow2(codeSize) ==> r == Some([code])
    ensures code == ClearCode(codeSize) || code == EndCode(codeSize) ==> r == None || code in d.table
  {
    if 0 <= code < Pow2(codeSize) then Some([code])
    else if code in d.table then Some(d.table[code])
    else None
  }

  /** One bit wider once the next entry no longer fits the width. */
  function Grow(d: Decoder): (r: Decoder)
    ensures r.width == d.width || (r.width == d.width + 1 <= MaxWidth)
    ensures r.width == d.width < MaxWidth ==> d.next < Pow2(d.width)
    ensures r.(width := d.width) == d
  {
    if d.next >= Pow2(d.width) && d.width < MaxWidth then d.(width := d.width + 1) else d
  }

  /**
   * Reads one code other than the end code. The first data code after a
   * clear must be a root; every later one adds the entry "previous string
   * plus the first symbol of this one", where the code just about to be
   * defined stands for the previous string plus its own first symbol.
   */
  function Accept(d: Decoder, codeSize: nat, code: int): (r: Option<Decoder>)
    ensures d.width >= 1 && r.Some? ==> r.value.width >= 1
    ensures r.Some? ==> d.out <= r.value.out
  {
    if code == ClearCode(codeSize) then Some(Cleared(codeSize, d.out))
    else if d.prev < 0 then
      if 0 <= code < Pow2(codeSize) then Some(Grow(d.(prev := code, out := d.out + [code])))
      else None
    else
      var p := Lookup(d, codeSize, d.prev);
      var s := match Lookup(d, codeSize, code)
        case Some(x) => Some(x)
        case None => if code == d.next && p.Some? && |p.value| > 0 then Some(p.value + [p.value[0]]) else None;
      if p.None? || s.None? || |s.value| == 0 then None
      else
        var full := d.next >= TableLimit;
        Some(Grow(d.(
          table := if full then d.table else d.table[d.next := p.value + [s.value[0]]],
          next := if full then d.next else d.next + 1,
          prev := code,
          out := d.out + s.value)))
  }

  /** Reads codes none of which is the end code, each of the width the decoder expects. */
  function Feed(d: Decoder, codeSize: nat, codes: seq<Code>): Option<Decoder>
    decreases |codes|
  {
    if |codes| == 0 then Some(d)
    else if codes[0].width != d.width || codes[0].value == EndCode(codeSize) then None
    else match Accept(d, codeSize, codes[0].value)
      case None => None
      case Some(d') => Feed(d', codeSize, codes[1..])
  }

  /** Decodes codes up to the end code; None if one is undefined, of the wrong width, or the end is missing. */
  function DecodeCodes(d: Decoder, codeSize: nat, codes: seq<Code>): Option<seq<int>>
    decreases |codes|
  {
    if |codes| == 0 || codes[0].width != d.width then None
    else if codes[0].value == EndCode(codeSize) then Some(d.out)
    else match Accept(d, codeSize, codes[0].value)
      case None => None
      case Some(d') => DecodeCodes(d', codeSize, codes[1..])
  }

  /** The same, reading each code as the next `width` bits of a bit stream. */
  function DecodeBits(d: Decoder, codeSize: nat, bits: seq<bool>): Option<seq<int>>
    decreases |bits|
  {
    if d.width == 0 || |bits| < d.width then None
    else
      var code := ValueOf(bits[..d.width]);
      if code == EndCode(codeSize) then Some(d.out)
      else match Accept(d, codeSize, code)
        case None => None
        case Some(d') => DecodeBits(d', codeSize, bits[d.width..])
  }

  /**
   * Decodes the image data of a GIF image: the minimum code size byte,
   * then sub-blocks up to the empty one.
   */
  function DecodeImageData(data: seq<Byte>): Option<seq<int>>
  {
    if |data| == 0 || data[0] < 2 || data[0] > 8 then None
    else match Unframe(data[1..])
      case None => None
      case Some((bytes, _)) => DecodeBits(Start(data[0]), data[0], BytesBits(bytes))
  }

  lemma {:induction false} FeedAppend(d: Decoder, codeSize: nat, a: seq<Code>, b: seq<Code>)
    ensures Feed(d, codeSize, a + b) ==
      match Feed(d, codeSize, a) case None => None case Some(d') => Feed(d', codeSize, b)
    decreases |a|
  {
    if |a| > 0 {
      assert (a + b)[0] == a[0] && (a + b)[1..] == a[1..] + b;
      match Accept(d, codeSize, a[0].value)
      case None =>
      case Some(d') => FeedAppend(d', codeSize, a[1..], b);
    } else {
      assert a + b == b;
    }
  }

  /** Codes the decoder reads without stopping hold no end code. */
  lemma {:induction false} FeedNoEnd(d: Decoder, codeSize: nat, codes: seq<Code>)
    requires Feed(d, codeSize, codes).Some?
    ensures forall i :: 0 <= i < |codes| ==> codes[i].value != EndCode(codeSize)
    decreases |codes|
  {
    if |codes| > 0 {
      FeedNoEnd(Accept(d, codeSize, codes[0].value).value, codeSize, codes[1..]);
      forall i | 1 <= i < |codes| ensures codes[i].value != EndCode(codeSize) {
        assert codes[i] == codes[1..][i - 1];
      }
    }
  }

  /** Codes fed and then decoded are decoded as one stream. */
  lemma {:induction false} DecodeAfterFeed(d: Decoder, codeSize: nat, a: seq<Code>, b: seq<Code>)
    requires Feed(d, codeSize, a).Some?
    ensures DecodeCodes(d, codeSize, a + b) == DecodeCodes(Feed(d, codeSize, a).value, codeSize, b)
    decreases |a|
  {
    if |a| > 0 {
      assert (a + b)[0] == a[0] && (a + b)[1..] == a[1..] + b;
      DecodeAfterFeed(Accept(d, codeSize, a[0].value).value, codeSize, a[1..], b);
    } else {
      assert a + b == b;
    }
  }

  /**
   * A stream that decodes with no end code before its last code ends with
   * the end code, and the decoder reaches that code expecting its width.
   */
  lemma {:induction false} DecodeLast(d: Decoder, codeSize: nat, codes: seq<Code>)
    requires |codes| > 0 && DecodeCodes(d, codeSize, codes).Some?
    requires forall i :: 0 <= i < |codes| - 1 ==> codes[i].value != EndCode(codeSize)
    ensures codes[|codes| - 1].value == EndCode(codeSize)
    ensures Feed(d, codeSize, codes[..|codes| - 1]).Some?
    ensures Feed(d, codeSize, codes[..|codes| - 1]).value.width == codes[|codes| - 1].width
    decreases |codes|
  {
    if |codes| == 1 {
      assert codes[..0] == [];
    } else {
      var d' := Accept(d, codeSize, codes[0].value).value;
      var rest := codes[1..];
      assert forall i :: 0 <= i < |rest| - 1 ==> rest[i].value != EndCode(codeSize) by {
        forall i | 0 <= i < |rest| - 1 ensures rest[i].value != EndCode(codeSize) {
          assert rest[i] == codes[i + 1];
        }
      }
      DecodeLast(d', codeSize, rest);
      var front := codes[..|codes| - 1];
      assert front[0] == codes[0] && front[1..] == rest[..|rest| - 1];
    }
  }

  /** The first `w` bits of packed codes are the first code, of width `w`, and the rest follow. */
  lemma ReadFirst(codes: seq<Code>, tail: seq<bool>, w: nat)
    requires |codes| > 0 && Fits(codes) && codes[0].width == w
    ensures var bits := Pack(codes) + tail;
      |bits| >= w && ValueOf(bits[..w]) == codes[0].value && bits[w..] == Pack(codes[1..]) + tail
    ensures Fits(codes[1..])
  {
    var c := codes[0];
    var bits := Pack(codes) + tail;
    var rest := Pack(codes[1..]) + tail;
    assert bits == BitsOf(c.value, c.width) + rest by {
      AppendAssoc(BitsOf(c.value, c.width), Pack(codes[1..]), tail);
    }
    assert bits[..w] == BitsOf(c.value, c.width) && bits[w..] == rest;
    assert ValueOf(BitsOf(c.value, c.width)) == c.value by {
      ValueOfBitsOf(c.value, c.width);
      DivUnique(c.value, Pow2(c.width), 0, c.value);
    }
    forall i | 0 <= i < |codes[1..]| ensures 0 <= codes[1..][i].value < Pow2(codes[1..][i].width) {
      assert codes[1..][i] == codes[i + 1];
    }
  }

  /** Reading the bits of codes that fit their widths reads the codes back. */
  lemma {:induction false} DecodeBitsPack(d: Decoder, codeSize: nat, codes: seq<Code>, tail: seq<bool>)
    requires d.width >= 1 && Fits(codes)
    requires DecodeCodes(d, codeSize, codes).Some?
    ensures DecodeBits(d, codeSize, Pack(codes) + tail) == DecodeCodes(d, codeSize, codes)
    decreases |codes|
  {
    ReadFirst(codes, tail, d.width);
    var c := codes[0];
    if c.value != EndCode(codeSize) {
      DecodeBitsPack(Accept(d, codeSize, c.value).value, codeSize, codes[1..], tail);
    }
  }

  /** Reading the bits of codes the decoder takes without stopping leaves it where feeding the codes does. */
  lemma {:induction false} DecodeBitsFeed(d: Decoder, codeSize: nat, codes: seq<Code>, tail: seq<bool>)
    requires d.width >= 1 && Fits(codes)
    requires Feed(d, codeSize, codes).Some?
    ensures DecodeBits(d, codeSize, Pack(codes) + tail) == DecodeBits(Feed(d, codeSize, codes).value, codeSize, tail)
    decreases |codes|
  {
    if |codes| == 0 {
      assert Pack(codes) + tail == tail;
    } else {
      ReadFirst(codes, tail, d.width);
      DecodeBitsFeed(Accept(d, codeSize, codes[0].value).value, codeSize, codes[1..], tail);
    }
  }
}
