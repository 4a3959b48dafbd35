/**
 * GifAcmeEncoder as a whole: the constructor's check that the image is
 * indexed, write's choice of bits per pixel and padded colour table, and
 * GIFEncode's file layout around the compressed image data.
 */
module GifAcme {
  import opened JavaInt
  import opened Wrappers
  import opened Bits
  import opened GifFormat
  import A = AcmeLzw
  import O = AcmeOutput
  import D = LzwDecode
  import R = AcmeRoundTrip

  /**
   * What the encoder takes from the image: its size, whether its colour
   * model is an IndexColorModel, that model's palette and transparent
   * pixel (-1 for none), and the raster's pixel indices in raster order.
   */
  datatype Source = Source(
    width: int,
    height: int,
    indexed: bool,
    colors: seq<Rgb>,
    transparent: int,
    pixels: seq<int>)

  datatype Error =
    | NotIndexed            // "GIF Encoder: Image must be 8-bit"
    | PaletteOverflow       // write copies more colours than a 256-entry table holds
    | MaskOutOfBounds       // output indexes masks with a negative bit count after an end code

  /** write: one, two, four or eight bits, the fewest of those whose table holds every colour. */
  function BitsPerPixel(numColors: int): (bpp: nat)
    ensures bpp in {1, 2, 4, 8}
    ensures numColors <= 256 ==> numColors <= Pow2(bpp)
    ensures forall b | b in {1, 2, 4} && b < bpp :: numColors > Pow2(b)
  {
    if numColors <= 2 then 1
    else if numColors <= 4 then 2
    else if numColors <= 16 then 4
    else 8
  }

  /** GIFEncode: the initial code size is the bits per pixel, but at least two. */
  function InitCodeSize(bpp: nat): (cs: nat)
    ensures cs >= 2 && cs >= bpp && (bpp >= 2 ==> cs == bpp) && (bpp <= 8 ==> cs <= 8)
  {
    if bpp <= 1 then 2 else bpp
  }

  /** The image data: the compressed codes packed into 254-byte sub-blocks. */
  function ImageData(pixels: seq<int>, codeSize: nat): Option<seq<Byte>>
  {
    match O.Emit(O.Empty, A.Compress(pixels, codeSize + 1), A.EofCode(codeSize + 1))
    case None => None
    case Some(p) => Some(p.out)
  }

  /** The graphic control extension, present only for a transparent pixel. */
  function Transparency(transparent: int): (r: seq<Byte>)
    ensures transparent == -1 <==> r == []
  {
    if transparent != -1 then ControlExtension(LowByte(transparent)) else []
  }

  /**
   * GIFEncode's layout: header "GIF89a", screen descriptor announcing a
   * global colour table of 2^bpp entries, the colour table, the optional
   * transparency extension, the image descriptor, the code size, the image
   * data, the empty block and the trailer.
   */
  function Layout(src: Source, bpp: nat, cs: Byte, data: seq<Byte>): (r: seq<Byte>)
    requires 1 <= bpp <= 8
    ensures |r| > 13 && r[..6] == Gif89a && r[|r| - 1] == Trailer
  {
    Screen(Gif89a, src.width, src.height, 0xF0 + bpp - 1)
      + TableBytes(Padded(src.colors, Pow2(bpp)))
      + (Transparency(src.transparent) + ImageBlock(src.width, src.height, cs, data))
  }

  lemma LayoutParts(src: Source, bpp: nat, cs: Byte, data: seq<Byte>)
    requires 1 <= bpp <= 8
    ensures Layout(src, bpp, cs, data) == Screen(Gif89a, src.width, src.height, 0xF0 + bpp - 1)
      + TableBytes(Padded(src.colors, Pow2(bpp)))
      + (Transparency(src.transparent) + ImageBlock(src.width, src.height, cs, data))
  {
  }

  /** The image descriptor, the code size, the image data, the empty block and the trailer. */
  function ImageBlock(width: int, height: int, cs: Byte, data: seq<Byte>): (r: seq<Byte>)
    ensures |r| == 13 + |data| && r[0] == ImageSeparator && r[|r| - 1] == Trailer
  {
    Descriptor(width, height) + [cs] + data + [0] + [Trailer]
  }

  /** write then GIFEncode, with the errors the Java code raises on the way. */
  function Encode(src: Source): (r: Result<seq<Byte>, Error>)
    ensures !src.indexed ==> r == Failure(NotIndexed)
    ensures src.indexed && |src.colors| > 256 ==> r == Failure(PaletteOverflow)
    ensures r.Success? ==> |r.value| > 13 && r.value[..6] == Gif89a && r.value[|r.value| - 1] == Trailer
  {
    if !src.indexed then Failure(NotIndexed)
    else
      var bpp := BitsPerPixel(|src.colors|);
      if |src.colors| > Pow2(bpp) then Failure(PaletteOverflow)
      else
        var cs := InitCodeSize(bpp);
        match ImageData(src.pixels, cs)
        case None => Failure(MaskOutOfBounds)
        case Some(data) => Success(Layout(src, bpp, cs, data))
  }

  // ----- the file reads back -----

  /** An image a reader can get back: indexed, at most 256 colours, and every pixel names one of them. */
  ghost predicate Encodable(src: Source)
  {
    src.indexed && |src.colors| <= 256 && |src.pixels| > 0
    && forall i :: 0 <= i < |src.pixels| ==> 0 <= src.pixels[i] < |src.colors|
  }

  /** The picture a reader sees in the file written for `src`. */
  function Expected(src: Source): Picture
  {
    var bpp := BitsPerPixel(|src.colors|);
    Picture(src.width % 65536, src.height % 65536, Padded(src.colors, Pow2(bpp)),
      if src.transparent == -1 then None else Some(LowByte(src.transparent)),
      src.pixels)
  }

  /** The compressor's codes, packed into 254-byte sub-blocks, are the image data. */
  lemma ImageDataFrames(pixels: seq<int>, cs: nat)
    requires 2 <= cs <= 8 && |pixels| > 0
    requires forall i :: 0 <= i < |pixels| ==> 0 <= pixels[i] < Pow2(cs)
    ensures ImageData(pixels, cs).Some?
    ensures ImageData(pixels, cs).value == Frame(PackBytes(A.Compress(pixels, cs + 1)), O.PacketSize)
  {
    var codes := A.Compress(pixels, cs + 1);
    assert Fits(codes) && Terminated(codes, A.EofCode(cs + 1)) by {
      A.ClearOf(cs);
      A.CompressFits(pixels, cs + 1);
      R.CompressTerminated(pixels, cs);
    }
    O.EmitFromEmpty(codes, A.EofCode(cs + 1));
  }

  /** The compressor's codes decode to the pixels from the packed bytes' bits, the padding never read. */
  lemma CompressBytesDecode(pixels: seq<int>, cs: nat)
    requires 2 <= cs <= 8 && |pixels| > 0
    requires forall i :: 0 <= i < |pixels| ==> 0 <= pixels[i] < Pow2(cs)
    ensures D.DecodeBits(D.Start(cs), cs, BytesBits(PackBytes(A.Compress(pixels, cs + 1)))) == Some(pixels)
  {
    var codes := A.Compress(pixels, cs + 1);
    A.ClearOf(cs);
    A.CompressFits(pixels, cs + 1);
    R.CompressDecodes(pixels, cs);
    PackedDecodes(codes, cs, pixels);
  }

  /** The image data decodes to the pixels. */
  lemma ImageDataDecodes(pixels: seq<int>, cs: nat)
    requires 2 <= cs <= 8 && |pixels| > 0
    requires forall i :: 0 <= i < |pixels| ==> 0 <= pixels[i] < Pow2(cs)
    ensures ImageData(pixels, cs).Some?
    ensures ImageData(pixels, cs).value == Frame(PackBytes(A.Compress(pixels, cs + 1)), O.PacketSize)
    ensures D.DecodeBits(D.Start(cs), cs, BytesBits(PackBytes(A.Compress(pixels, cs + 1)))) == Some(pixels)
  {
    ImageDataFrames(pixels, cs);
    CompressBytesDecode(pixels, cs);
  }

  /**
   * A GIF reader recovers from the written file the size (as 16-bit
   * words), the colour table padded with black to 2^bpp entries, the
   * transparent index and every pixel, in raster order.
   */
  lemma EncodeReads(src: Source)
    requires Encodable(src)
    ensures Encode(src).Success?
    ensures Read(Encode(src).value) == Some(Expected(src))
  {
    var bpp, cs, data := EncodeLayout(src);
    var image := ImageBlock(src.width, src.height, cs, data);
    var body := Transparency(src.transparent) + image;
    var t := if src.transparent == -1 then None else Some(LowByte(src.transparent));
    BodyReads(src.transparent, image, src.pixels);
    var colors := Padded(src.colors, Pow2(bpp));
    var file := Layout(src, bpp, cs, data);
    assert file == Screen(Gif89a, src.width, src.height, 0xF0 + bpp - 1) + TableBytes(colors) + body by {
      LayoutParts(src, bpp, cs, data);
    }
    var picture := Picture(src.width % 65536, src.height % 65536, colors, t, src.pixels);
    assert Read(file) == Some(picture) by {
      ReadWritten(Gif89a, src.width, src.height, bpp, colors, body);
    }
    assert Expected(src) == picture;
  }

  /** The encoder succeeds on an encodable image, and its image block reads back as the pixels. */
  lemma EncodeLayout(src: Source) returns (bpp: nat, cs: Byte, data: seq<Byte>)
    requires Encodable(src)
    ensures bpp == BitsPerPixel(|src.colors|) && 1 <= bpp <= 8
    ensures Encode(src) == Success(Layout(src, bpp, cs, data))
    ensures ReadImage(ImageBlock(src.width, src.height, cs, data)) == Some(src.pixels)
  {
    bpp := BitsPerPixel(|src.colors|);
    cs := InitCodeSize(bpp);
    assert forall i :: 0 <= i < |src.pixels| ==> 0 <= src.pixels[i] < Pow2(cs) by {
      Pow2Byte();
      Pow2Monotone(bpp, cs);
    }
    ImageDataDecodes(src.pixels, cs);
    data := ImageData(src.pixels, cs).value;
    var bytes := PackBytes(A.Compress(src.pixels, cs + 1));
    var image := ImageBlock(src.width, src.height, cs, data);
    assert ReadImage(image) == Some(src.pixels) by {
      ReadWrittenImage(src.width, src.height, cs, bytes, O.PacketSize, []);
      assert image + [] == image;
    }
  }

  /** The optional transparency extension and the image block read back as the transparent index and the pixels. */
  lemma BodyReads(transparent: int, image: seq<Byte>, pixels: seq<int>)
    requires |image| >= 2 && image[0] == ImageSeparator && ReadImage(image) == Some(pixels)
    ensures var t := if transparent == -1 then None else Some(LowByte(transparent));
      ReadBlocks(Transparency(transparent) + image, None) == Some((t, pixels))
  {
    var t := if transparent == -1 then None else Some(LowByte(transparent));
    assert ReadBlocks(image, t) == Some((t, pixels)) by {
      assert image[0] != ExtensionIntroducer;
    }
    if transparent != -1 {
      ReadControlExtension(LowByte(transparent), image, None);
    } else {
      assert Transparency(transparent) + image == image;
    }
  }
}
