/**
 * The pieces of the GIF file format (GIF89a specification, CompuServe
 * 1990) that both encoders write, and a reader for the files they write:
 * the header (section 17), the logical screen descriptor (section 18), the
 * global colour table (section 19), the graphic control extension (section
 * 23), the image descriptor (section 20), the image data (section 22) and
 * the trailer (section 27). The reader is the reference the encoders are
 * proved against; the library itself reads GIFs through the platform.
 */
module GifFormat {
  import opened JavaInt
  import opened Wrappers
  import opened Bits
  import LzwDecode

  datatype Rgb = Rgb(red: Byte, green: Byte, blue: Byte)

  const Black: Rgb := Rgb(0, 0, 0)

  /** "GIF87a" and "GIF89a" in ASCII. */
  const Gif87a: seq<Byte> := [0x47, 0x49, 0x46, 0x38, 0x37, 0x61]
  const Gif89a: seq<Byte> := [0x47, 0x49, 0x46, 0x38, 0x39, 0x61]

  /** '!', the label of a graphic control extension, ',' and ';'. */
  const ExtensionIntroducer: Byte := 0x21
  const GraphicControlLabel: Byte := 0xF9
  const ImageSeparator: Byte := 0x2C
  const Trailer: Byte := 0x3B

  /** The palette cut or padded with black to `n` entries, as a colour table of `n` entries holds it. */
  function Padded(colors: seq<Rgb>, n: nat): (r: seq<Rgb>)
    ensures |r| == n
    ensures forall i :: 0 <= i < n ==> r[i] == (if i < |colors| then colors[i] else Black)
  {
    seq(n, i requires 0 <= i < n => if i < |colors| then colors[i] else Black)
  }

  /** Colour table entries are red, green, blue. */
  function TableBytes(colors: seq<Rgb>): (r: seq<Byte>)
    ensures |r| == 3 * |colors|
  {
    if |colors| == 0 then [] else [colors[0].red, colors[0].green, colors[0].blue] + TableBytes(colors[1..])
  }

  /** Reading a colour table: three bytes per entry. */
  function TableOf(bytes: seq<Byte>): (r: seq<Rgb>)
    ensures |r| == |bytes| / 3
    decreases |bytes|
  {
    if |bytes| < 3 then [] else [Rgb(bytes[0], bytes[1], bytes[2])] + TableOf(bytes[3..])
  }

  lemma {:induction false} TableOfBytes(colors: seq<Rgb>)
    ensures TableOf(TableBytes(colors)) == colors
    decreases |colors|
  {
    if |colors| > 0 {
      var t := TableBytes(colors);
      assert t[3..] == TableBytes(colors[1..]);
      TableOfBytes(colors[1..]);
      assert colors == [colors[0]] + colors[1..];
    }
  }

  /** A 16-bit little-endian value. */
  function WordAt(s: seq<Byte>, i: nat): (v: int)
    requires i + 2 <= |s|
    ensures 0 <= v < 65536
  {
    s[i] as int + 256 * (s[i + 1] as int)
  }

  /** What a reader learns from a single-image file. */
  datatype Picture = Picture(
    width: int,
    height: int,
    colors: seq<Rgb>,
    transparent: Option<Byte>,
    pixels: seq<int>)

  /**
   * Reads a file with a global colour table and one image without local
   * colour table or interlacing; None for anything else or anything
   * malformed. Bytes after the trailer are not looked at.
   */
  function Read(s: seq<Byte>): (r: Option<Picture>)
    ensures r.Some? ==> |r.value.colors| in {2, 4, 8, 16, 32, 64, 128, 256}
  {
    if |s| < 13 || (s[..6] != Gif87a && s[..6] != Gif89a) || s[10] < 0x80 then None
    else
      var n := TableSize(s[10]);
      if |s| < 13 + 3 * n then None
      else
        match ReadBlocks(s[13 + 3 * n..], None)
        case None => None
        case Some((t, pixels)) => Some(Picture(WordAt(s, 6), WordAt(s, 8), TableOf(s[13..13 + 3 * n]), t, pixels))
  }

  /** The size of the global colour table the screen descriptor's flags announce. */
  function TableSize(flags: Byte): (n: nat)
    ensures n in {2, 4, 8, 16, 32, 64, 128, 256}
  {
    var k := flags % 8 + 1;
    assert Pow2(1) == 2 && Pow2(2) == 4 && Pow2(3) == 8 && Pow2(4) == 16;
    assert Pow2(5) == 32 && Pow2(6) == 64 && Pow2(7) == 128 && Pow2(8) == 256;
    Pow2(k)
  }

  /**
   * Extensions up to the image: a graphic control extension whose flags
   * set the transparency bit names the transparent index; others are
   * skipped. Then the image, then the trailer.
   */
  function ReadBlocks(s: seq<Byte>, transparent: Option<Byte>): Option<(Option<Byte>, seq<int>)>
    decreases |s|
  {
    if |s| < 2 then None
    else if s[0] == ExtensionIntroducer then
      match Unframe(s[2..])
      case None => None
      case Some((data, used)) =>
        var t := if s[1] == GraphicControlLabel && |data| == 4 && data[0] % 2 == 1 then Some(data[3]) else transparent;
        ReadBlocks(s[2 + used..], t)
    else if s[0] == ImageSeparator then
      match ReadImage(s)
      case None => None
      case Some(pixels) => Some((transparent, pixels))
    else None
  }

  /** An image descriptor without local table or interlacing, the image data, and the trailer. */
  function ReadImage(s: seq<Byte>): Option<seq<int>>
  {
    if |s| < 12 || s[0] != ImageSeparator || s[9] != 0 || s[10] < 2 || s[10] > 8 then None
    else match Unframe(s[11..])
      case None => None
      case Some((bytes, used)) =>
        if 11 + used < |s| && s[11 + used] == Trailer then
          LzwDecode.DecodeBits(LzwDecode.Start(s[10]), s[10], BytesBits(bytes))
        else None
  }

  /** The graphic control extension the Acme encoder writes for a transparent index. */
  function ControlExtension(t: Byte): (r: seq<Byte>)
    ensures |r| == 8 && r[0] == ExtensionIntroducer
  {
    [ExtensionIntroducer, GraphicControlLabel, 4, 1, 0, 0, t, 0]
  }

  /** The image descriptor at the origin, flags all zero. */
  function Descriptor(width: int, height: int): (r: seq<Byte>)
    ensures |r| == 10 && r[0] == ImageSeparator && r[9] == 0
  {
    [ImageSeparator] + Word(0) + Word(0) + Word(width) + Word(height) + [0]
  }

  /** The header and logical screen descriptor: size, flags, background 0 and aspect 0. */
  function Screen(signature: seq<Byte>, width: int, height: int, flags: Byte): (r: seq<Byte>)
    requires |signature| == 6
    ensures |r| == 13 && r[..6] == signature && r[10] == flags
    ensures WordAt(r, 6) == width % 65536 && WordAt(r, 8) == height % 65536
  {
    signature + Word(width) + Word(height) + [flags, 0, 0]
  }

  // ----- reading back what the writers write -----

  /** Codes packed into bytes decode from the bytes' bits as from the codes: the padding is never read. */
  lemma PackedDecodes(codes: seq<Code>, codeSize: nat, pixels: seq<int>)
    requires Fits(codes)
    requires LzwDecode.DecodeCodes(LzwDecode.Start(codeSize), codeSize, codes) == Some(pixels)
    ensures LzwDecode.DecodeBits(LzwDecode.Start(codeSize), codeSize, BytesBits(PackBytes(codes))) == Some(pixels)
  {
    BytesBitsToBytes(Pack(codes));
    LzwDecode.DecodeBitsPack(LzwDecode.Start(codeSize), codeSize, codes, BitsOf(0, Padding(|Pack(codes)|)));
  }

  /** Reading an image written as descriptor, code size, blocks, terminator and trailer. */
  lemma ReadWrittenImage(width: int, height: int, codeSize: Byte, data: seq<Byte>, size: nat, rest: seq<Byte>)
    requires 2 <= codeSize <= 8 && 1 <= size <= 255
    ensures ReadImage(Descriptor(width, height) + [codeSize] + Frame(data, size) + [0] + [Trailer] + rest)
      == LzwDecode.DecodeBits(LzwDecode.Start(codeSize), codeSize, BytesBits(data))
  {
    var f := Frame(data, size);
    var s := Descriptor(width, height) + [codeSize] + f + [0] + [Trailer] + rest;
    assert s[11..] == f + [0] + ([Trailer] + rest);
    UnframeFrame(data, size, [Trailer] + rest);
    assert s[11 + |f| + 1] == Trailer;
  }

  /** Reading the graphic control extension gives its index. */
  lemma ReadControlExtension(t: Byte, body: seq<Byte>, other: Option<Byte>)
    ensures ReadBlocks(ControlExtension(t) + body, other) == ReadBlocks(body, Some(t))
  {
    var s := ControlExtension(t) + body;
    assert s[2..] == Frame([1, 0, 0, t], 254) + [0] + body;
    UnframeFrame([1, 0, 0, t], 254, body);
    assert s[2 + 6..] == body;
  }

  /** Reading a file laid out as screen, colour table and the rest. */
  lemma ReadWritten(signature: seq<Byte>, width: int, height: int, bpp: nat, colors: seq<Rgb>, body: seq<Byte>)
    requires signature == Gif87a || signature == Gif89a
    requires 1 <= bpp <= 8 && |colors| == Pow2(bpp)
    ensures Read(Screen(signature, width, height, 0xF0 + bpp - 1) + TableBytes(colors) + body)
      == match ReadBlocks(body, None)
         case None => None
         case Some((t, pixels)) => Some(Picture(width % 65536, height % 65536, colors, t, pixels))
  {
    var head := Screen(signature, width, height, 0xF0 + bpp - 1);
    var s := head + TableBytes(colors) + body;
    var n := Pow2(bpp);
    assert s[..6] == signature && s[10] == 0xF0 + bpp - 1 && |s| >= 13 + 3 * n by {
      assert s[..13] == head;
    }
    assert TableSize(s[10]) == n by {
      assert s[10] % 8 + 1 == bpp;
    }
    assert TableOf(s[13..13 + 3 * n]) == colors by {
      assert s[13..13 + 3 * n] == TableBytes(colors);
      TableOfBytes(colors);
    }
    assert s[13 + 3 * n..] == body;
    assert WordAt(s, 6) == width % 65536 && WordAt(s, 8) == height % 65536 by {
      assert s[6] == head[6] && s[7] == head[7] && s[8] == head[8] && s[9] == head[9];
    }
    match ReadBlocks(body, None)
    case None =>
    case Some((t, pixels)) =>
      assert Read(s) == Some(Picture(width % 65536, height % 65536, colors, t, pixels));
  }

  /** Reading a file whose body is a single image. */
  lemma ReadWrittenSingle(signature: seq<Byte>, width: int, height: int, bpp: nat, colors: seq<Rgb>, body: seq<Byte>)
    requires signature == Gif87a || signature == Gif89a
    requires 1 <= bpp <= 8 && |colors| == Pow2(bpp)
    requires |body| >= 2 && body[0] == ImageSeparator
    ensures Read(Screen(signature, width, height, 0xF0 + bpp - 1) + TableBytes(colors) + body)
      == match ReadImage(body)
         case None => None
         case Some(pixels) => Some(Picture(width % 65536, height % 65536, colors, None, pixels))
  {
    ReadWritten(signature, width, height, bpp, colors, body);
  }
}
