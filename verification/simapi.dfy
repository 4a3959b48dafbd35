/**
 * The integer decisions of Simapi (the reference implementation): where crop
 * cuts, where the background-filling resize places the scaled image, when
 * resize leaves an image alone, how getImageType turns a file name into a
 * writer format name, and the checks write makes before writing.
 */
module Simapi {
  import opened JavaInt
  import opened Wrappers

  // The position codes.
  const PosCenter: int := 0
  const PosDownLeft: int := 1
  const PosDownRight: int := 2
  const PosStraightDown: int := 3
  const PosStraightLeft: int := 4
  const PosStraightRight: int := 5
  const PosStraightUp: int := 6
  const PosUpLeft: int := 7
  const PosUpRight: int := 8

  // ----- the position table -----

  /**
   * The switch shared by crop and the background-filling resize: the
   * origin of a rectangle placed with `roomX` by `roomY` pixels to spare
   * (negative when it does not fit). Unknown codes centre it.
   */
  function Origin(position: int, roomX: int, roomY: int): (r: (int, int))
    ensures r == (Offset(Horizontal(position), roomX), Offset(Vertical(position), roomY))
  {
    if position == PosDownLeft then (0, roomY)
    else if position == PosDownRight then (roomX, roomY)
    else if position == PosStraightDown then (JavaDiv(roomX, 2), roomY)
    else if position == PosStraightLeft then (0, JavaDiv(roomY, 2))
    else if position == PosStraightRight then (roomX, JavaDiv(roomY, 2))
    else if position == PosStraightUp then (JavaDiv(roomX, 2), 0)
    else if position == PosUpLeft then (0, 0)
    else if position == PosUpRight then (roomX, 0)
    else (JavaDiv(roomX, 2), JavaDiv(roomY, 2))
  }

  /** How a position aligns the rectangle along one axis. */
  datatype Align = Start | Middle | End

  function Horizontal(position: int): Align
  {
    if position in {PosDownLeft, PosStraightLeft, PosUpLeft} then Start
    else if position in {PosDownRight, PosStraightRight, PosUpRight} then End
    else Middle
  }

  function Vertical(position: int): Align
  {
    if position in {PosStraightUp, PosUpLeft, PosUpRight} then Start
    else if position in {PosDownLeft, PosDownRight, PosStraightDown} then End
    else Middle
  }

  /** The offset along one axis with `room` pixels to spare. */
  function Offset(a: Align, room: int): int
  {
    match a
    case Start => 0
    case End => room
    case Middle => JavaDiv(room, 2)
  }

  /**
   * With room to spare, the rectangle keeps to the start, to the end, or
   * sits in the middle with the odd pixel of margin after it.
   */
  lemma OffsetMargins(a: Align, room: int)
    requires room >= 0
    ensures var before, after := Offset(a, room), room - Offset(a, room);
      0 <= before && 0 <= after
      && (a == Start ==> before == 0)
      && (a == End ==> after == 0)
      && (a == Middle ==> before <= after <= before + 1)
  {
  }

  /** Without room the rectangle sticks out on at least one side, whatever the alignment. */
  lemma OffsetOverhangs(a: Align, room: int)
    requires room < 0
    ensures Offset(a, room) < 0 || Offset(a, room) > room
  {
  }

  // ----- crop -----

  /**
   * What crop returns: the image itself, the sub-image at (x, y) of the
   * target size, or getSubimage's RasterFormatException, for a region that
   * reaches outside the image or has no width or no height.
   */
  datatype Cropped = Unchanged | Region(x: int, y: int, width: int, height: int) | SubimageRefused

  predicate Inside(imageWidth: int, imageHeight: int, x: int, y: int, width: int, height: int)
  {
    0 <= x && 0 <= y && 0 <= width && 0 <= height && x + width <= imageWidth && y + height <= imageHeight
  }

  /**
   * crop: an image of the target size comes back as it is; otherwise the
   * region at the position's origin over the spare room, which getSubimage
   * refuses when it reaches outside the image or is empty (the child
   * raster's constructor rejects a zero or negative width or height).
   */
  function Crop(imageWidth: int, imageHeight: int, width: int, height: int, position: int): (r: Cropped)
    ensures r.Unchanged? <==> imageWidth == width && imageHeight == height
    ensures r.Region? ==> (r.width == width && r.height == height && 0 < width && 0 < height
      && Inside(imageWidth, imageHeight, r.x, r.y, width, height)
      && (r.x, r.y) == Origin(position, imageWidth - width, imageHeight - height))
  {
    if imageWidth == width && imageHeight == height then Unchanged
    else
      var o := Origin(position, imageWidth - width, imageHeight - height);
      if 0 < width && 0 < height && Inside(imageWidth, imageHeight, o.0, o.1, width, height) then Region(o.0, o.1, width, height)
      else SubimageRefused
  }

  /**
   * crop (and SimapiImpl's identical copy) succeeds exactly when the target
   * has a width and a height and is no larger than the image, for every
   * position code. The image, a BufferedImage, always has both.
   */
  lemma CropInside(imageWidth: int, imageHeight: int, width: int, height: int, position: int)
    requires 0 < imageWidth && 0 < imageHeight
    ensures !Crop(imageWidth, imageHeight, width, height, position).SubimageRefused?
      <==> 0 < width <= imageWidth && 0 < height <= imageHeight
  {
    var rx, ry := imageWidth - width, imageHeight - height;
    if width <= 0 || height <= 0 {
    } else if rx < 0 {
      OffsetOverhangs(Horizontal(position), rx);
    } else if ry < 0 {
      OffsetOverhangs(Vertical(position), ry);
    } else {
      OffsetMargins(Horizontal(position), rx);
      OffsetMargins(Vertical(position), ry);
    }
  }

  // ----- resize -----

  /** resize(image, width, height, bestfit, blowup): when the image comes back unscaled. */
  function ResizeKeeps(imageWidth: int, imageHeight: int, width: int, height: int, blowup: bool): (keep: bool)
    ensures imageWidth == width && imageHeight == height ==> keep
    ensures blowup ==> (keep <==> imageWidth == width && imageHeight == height)
  {
    (imageWidth == width && imageHeight == height)
      || (!blowup && imageWidth < width && imageHeight < height)
  }

  /** The blowup flag the shorter resize overloads pass on: they all enlarge. */
  const DefaultBlowup: bool := true

  /**
   * The size the scaling step hands on: the image's own when resize keeps
   * it, otherwise `scaled`, the size the floating-point scale produces.
   */
  function ScaledSize(imageWidth: int, imageHeight: int, width: int, height: int, blowup: bool, scaled: (int, int)): (int, int)
  {
    if ResizeKeeps(imageWidth, imageHeight, width, height, blowup) then (imageWidth, imageHeight) else scaled
  }

  // ----- resize onto a background -----

  /** A colour as the code sees it: the COLOR_TRANSPARENT constant itself, or any other colour object. */
  datatype Color = TransparentConstant | Paint(argb: int)

  /** What the background-filling resize returns: the scaled image, or a canvas with the scaled image drawn at (x, y). */
  datatype Placed = AsScaled | Canvas(fill: Option<Color>, x: int, y: int)

  /**
   * The colour the canvas is filled with, if any: the transparent constant
   * is replaced when the colour model has no alpha, and is never painted.
   */
  function Fill(background: Color, hasAlpha: bool, replacement: Color): (r: Option<Color>)
    ensures r == None <==> background == TransparentConstant && (hasAlpha || replacement == TransparentConstant)
    ensures r.Some? ==> (r.value != TransparentConstant
      && (background != TransparentConstant ==> r.value == background))
  {
    var c := if !hasAlpha && background == TransparentConstant then replacement else background;
    if c != TransparentConstant then Some(c) else None
  }

  /**
   * resize(image, width, height, background, position, blowup), given the
   * size the best-fit scale gave the image: no canvas when it already
   * matches, otherwise the position table over the room left around it.
   */
  function Place(scaledWidth: int, scaledHeight: int, width: int, height: int, position: int,
    background: Color, hasAlpha: bool, replacement: Color): (r: Placed)
    ensures r.AsScaled? <==> scaledWidth == width && scaledHeight == height
    ensures r.Canvas? ==> (r.fill == Fill(background, hasAlpha, replacement)
      && (r.x, r.y) == Origin(position, width - scaledWidth, height - scaledHeight))
  {
    if scaledWidth == width && scaledHeight == height then AsScaled
    else
      var o := Origin(position, width - scaledWidth, height - scaledHeight);
      Canvas(Fill(background, hasAlpha, replacement), o.0, o.1)
  }

  /** An image that fits the canvas is drawn entirely on it, against the edges its position names. */
  lemma PlaceInside(scaledWidth: int, scaledHeight: int, width: int, height: int, position: int,
    background: Color, hasAlpha: bool, replacement: Color)
    requires 0 <= scaledWidth <= width && 0 <= scaledHeight <= height
    requires scaledWidth != width || scaledHeight != height
    ensures var r := Place(scaledWidth, scaledHeight, width, height, position, background, hasAlpha, replacement);
      r.Canvas? && Inside(width, height, r.x, r.y, scaledWidth, scaledHeight)
      && (Horizontal(position) == Start ==> r.x == 0)
      && (Horizontal(position) == End ==> r.x + scaledWidth == width)
      && (Vertical(position) == Start ==> r.y == 0)
      && (Vertical(position) == End ==> r.y + scaledHeight == height)
  {
    OffsetMargins(Horizontal(position), width - scaledWidth);
    OffsetMargins(Vertical(position), height - scaledHeight);
  }

  // ----- getImageType -----

  /** The first index at or after i that is not blank (above U+0020), or the end. */
  function Leading(s: string, i: nat): (k: nat)
    requires i <= |s|
    ensures i <= k <= |s|
    ensures forall j :: i <= j < k ==> s[j] <= ' '
    ensures k < |s| ==> s[k] > ' '
    decreases |s| - i
  {
    if i < |s| && s[i] <= ' ' then Leading(s, i + 1) else i
  }

  /** The end of s[lo..e] once its trailing blanks are dropped. */
  function Ending(s: string, lo: nat, e: nat): (k: nat)
    requires lo <= e <= |s|
    ensures lo <= k <= e
    ensures forall j :: k <= j < e ==> s[j] <= ' '
    ensures k > lo ==> s[k - 1] > ' '
    decreases e
  {
    if e > lo && s[e - 1] <= ' ' then Ending(s, lo, e - 1) else e
  }

  /** Java's trim: the part of s between its leading and its trailing characters up to U+0020. */
  function Trim(s: string): (r: string)
    ensures r != [] ==> r[0] > ' ' && r[|r| - 1] > ' '
    ensures Leading(s, 0) + |r| <= |s|
    ensures forall i :: 0 <= i < |r| ==> r[i] == s[Leading(s, 0) + i]
    ensures forall j :: Leading(s, 0) + |r| <= j < |s| ==> s[j] <= ' '
  {
    var st := Leading(s, 0);
    var en := Ending(s, st, |s|);
    s[st..en]
  }

  /** A string with nothing to trim is its own trim. */
  lemma TrimTrimmed(s: string)
    requires s != [] ==> s[0] > ' ' && s[|s| - 1] > ' '
    ensures Trim(s) == s
  {
    assert Leading(s, 0) == 0;
    assert Ending(s, 0, |s|) == |s|;
  }

  /** Upper case for the ASCII letters; every other character is left alone. */
  function UpperChar(c: char): (r: char)
    ensures ('a' <= c <= 'z') == (r != c)
    ensures (r <= ' ') == (c <= ' ')
    ensures r != '.' || c == '.'
  {
    if 'a' <= c <= 'z' then (c as int - 32) as char else c
  }

  function Upper(s: string): (r: string)
    ensures |r| == |s|
    ensures forall i :: 0 <= i < |s| ==> r[i] == UpperChar(s[i])
  {
    seq(|s|, i requires 0 <= i < |s| => UpperChar(s[i]))
  }

  /** A string without a dot. */
  predicate NoDot(s: string)
  {
    forall i :: 0 <= i < |s| ==> s[i] != '.'
  }

  /** lastIndexOf('.'): the last dot's index, or -1 when there is none. */
  function LastDot(s: string): (r: int)
    ensures -1 <= r < |s|
    ensures r >= 0 ==> s[r] == '.'
    ensures forall i :: r < i < |s| ==> s[i] != '.'
  {
    if s == [] then -1
    else if s[|s| - 1] == '.' then |s| - 1
    else LastDot(s[..|s| - 1])
  }

  /** The text after the last dot, or the whole name when it has none. */
  function Suffix(s: string): (r: string)
    ensures NoDot(r)
    ensures |r| <= |s| && r == s[|s| - |r|..]
    ensures |r| < |s| ==> s[|s| - |r| - 1] == '.'
  {
    var pos := LastDot(s);
    var r := if pos < 0 then s else s[pos + 1..];
    assert forall i :: 0 <= i < |r| ==> r[i] == s[|s| - |r| + i];
    r
  }

  /** A dot-free name stays dot-free through trim and upper-casing. */
  lemma NoDotTrimUpper(s: string)
    requires NoDot(s)
    ensures NoDot(Trim(s)) && NoDot(Upper(Trim(s)))
  {
    var t := Trim(s);
    assert forall i :: 0 <= i < |t| ==> t[i] == s[Leading(s, 0) + i];
  }

  /** A dot-free name is its own suffix. */
  lemma SuffixOfNoDot(t: string)
    requires NoDot(t)
    ensures Suffix(t) == t
  {
  }

  /** The canonical names getImageType maps suffixes onto. */
  const Jpeg: string := "JPEG"
  const Gif: string := "GIF"
  const Png: string := "PNG"
  const Tiff: string := "TIFF"
  const Bmp: string := "BMP"
  const Pnm: string := "PNM"

  /** The canonical name for an upper-cased suffix; anything unknown stays as it is. */
  function Canonical(t: string): string
  {
    if t == Jpeg || t == "JPG" then Jpeg
    else if t == Gif then Gif
    else if t == Png then Png
    else if t == Tiff || t == "TIF" then Tiff
    else if t == Bmp then Bmp
    else if t == Pnm || t == "PBM" || t == "PGM" || t == "PPM" then Pnm
    else t
  }

  /** The canonical names, as plain upper-case letters. */
  lemma CanonicalNames()
    ensures forall t | t in {Jpeg, Gif, Png, Tiff, Bmp, Pnm} ::
      t != [] && NoDot(t) && Upper(t) == t && t[0] > ' ' && t[|t| - 1] > ' '
  {
  }

  /** A canonical name is its own canonical form; every other result is the name itself. */
  lemma CanonicalFixed(t: string)
    ensures Canonical(t) == t || Canonical(t) in {Jpeg, Gif, Png, Tiff, Bmp, Pnm}
    ensures Canonical(Canonical(t)) == Canonical(t)
  {
  }

  /**
   * getImageType: the suffix, trimmed and upper-cased, under its canonical
   * name, provided a writer is registered for that name. `hasWriter` stands
   * for the ImageIO registry.
   */
  function ImageType(filename: Option<string>, hasWriter: string -> bool): (r: Option<string>)
    ensures filename == None ==> r == None
    ensures r.Some? ==> hasWriter(r.value) && NoDot(r.value)
  {
    match filename
    case None => None
    case Some(name) =>
      var t := Canonical(Upper(Trim(Suffix(name))));
      NoDotTrimUpper(Suffix(name));
      CanonicalFixed(Upper(Trim(Suffix(name))));
      CanonicalNames();
      if hasWriter(t) then Some(t) else None
  }

  /** An upper-cased, trimmed string without a dot, already in canonical form. */
  ghost predicate Normal(t: string)
  {
    NoDot(t) && Trim(t) == t && Upper(t) == t && Canonical(t) == t
  }

  /** Upper-casing twice is upper-casing once. */
  lemma UpperTwice(s: string)
    ensures Upper(Upper(s)) == Upper(s)
  {
  }

  /** The upper-cased trim of a name has nothing left to trim. */
  lemma UpperTrimmed(s: string)
    ensures Trim(Upper(Trim(s))) == Upper(Trim(s))
  {
    var t := Trim(s);
    var u := Upper(t);
    if u != [] {
      assert u[0] > ' ' && u[|u| - 1] > ' ';
    }
    TrimTrimmed(u);
  }

  /** Every name getImageType returns is normal. */
  lemma ImageTypeNormal(name: string, hasWriter: string -> bool)
    requires ImageType(Some(name), hasWriter).Some?
    ensures Normal(ImageType(Some(name), hasWriter).value)
  {
    var u := Upper(Trim(Suffix(name)));
    var t := Canonical(u);
    CanonicalFixed(u);
    CanonicalNames();
    if t == u {
      UpperTrimmed(Suffix(name));
      UpperTwice(Trim(Suffix(name)));
    } else {
      TrimTrimmed(t);
    }
  }

  /** getImageType is idempotent: a name it returns maps to itself. */
  lemma ImageTypeIdempotent(name: string, hasWriter: string -> bool)
    requires ImageType(Some(name), hasWriter).Some?
    ensures var t := ImageType(Some(name), hasWriter).value;
      ImageType(Some(t), hasWriter) == Some(t)
  {
    var t := ImageType(Some(name), hasWriter).value;
    ImageTypeNormal(name, hasWriter);
    SuffixOfNoDot(t);
  }

  // ----- write -----

  datatype WriteError =
    | NoOutput          // "output == null!"
    | NoImage           // "image == null!"
    | NoFormat          // "formatName == null!"
    | NoStream          // "Can't create output stream!"
    | NoWriter          // "no writers found for format ..."

  /** What write hands to the image writer: the format, whether the image was flattened onto an opaque background, and whether the compression quality was set. */
  datatype WriteJob = WriteJob(format: string, flattened: bool, compressed: bool)

  /** The formats whose writers cannot hold an alpha channel. */
  const AlphaFree: set<string> := {Jpeg, Tiff, Bmp}

  /**
   * write(image, output, formatName): the null checks in order, the stream,
   * the format resolved through getImageType, alpha flattened for formats
   * that cannot carry it, and the compression quality set only where the
   * writer supports it.
   */
  function Write(hasOutput: bool, hasImage: bool, formatName: Option<string>, streamCreated: bool,
    hasAlpha: bool, hasWriter: string -> bool, canCompress: string -> bool): (r: Result<WriteJob, WriteError>)
    ensures !hasOutput ==> r == Failure(NoOutput)
    ensures hasOutput && !hasImage ==> r == Failure(NoImage)
    ensures hasOutput && hasImage && formatName == None ==> r == Failure(NoFormat)
    ensures r.Success? <==> hasOutput && hasImage && streamCreated && ImageType(formatName, hasWriter).Some?
    ensures r.Success? ==> (r.value.format == ImageType(formatName, hasWriter).value
      && (r.value.flattened <==> hasAlpha && r.value.format in AlphaFree)
      && r.value.compressed == canCompress(r.value.format))
  {
    if !hasOutput then Failure(NoOutput)
    else if !hasImage then Failure(NoImage)
    else if formatName == None then Failure(NoFormat)
    else if !streamCreated then Failure(NoStream)
    else match ImageType(formatName, hasWriter)
      case None => Failure(NoWriter)
      case Some(format) =>
        Success(WriteJob(format, hasAlpha && format in AlphaFree, canCompress(format)))
  }
}

/**
 * SimapiImpl, the second implementation: its own getImageType, resize
 * overloads that default to not enlarging, a background resize that always
 * paints, and a write that takes the format name as given.
 */
module SimapiImpl {
  import opened Wrappers
  import S = Simapi

  /** equalsIgnoreCase for ASCII: same length, and each pair of characters equal up to case. */
  ghost predicate EqualsIgnoreCase(a: string, b: string)
  {
    |a| == |b| && forall i :: 0 <= i < |a| ==> S.UpperChar(a[i]) == S.UpperChar(b[i])
  }

  /** Two strings are equal ignoring case exactly when their upper-case forms are equal. */
  lemma IgnoreCaseUpper(a: string, b: string)
    ensures EqualsIgnoreCase(a, b) <==> S.Upper(a) == S.Upper(b)
  {
    if S.Upper(a) == S.Upper(b) {
      assert |a| == |b|;
      forall i | 0 <= i < |a|
        ensures S.UpperChar(a[i]) == S.UpperChar(b[i])
      {
        assert S.Upper(a)[i] == S.Upper(b)[i];
      }
    }
    if EqualsIgnoreCase(a, b) {
      assert S.Upper(a) == S.Upper(b);
    }
  }

  /**
   * getImageType's mapping, written against the upper-cased suffix: the
   * known suffixes under their canonical names, except that "pnm" is not
   * among them, and anything else exactly as written.
   */
  function Mapped(t: string): string
  {
    var u := S.Upper(t);
    if u == "JPG" || u == "JPEG" then S.Jpeg
    else if u == "TIF" || u == "TIFF" then S.Tiff
    else if u == "PBM" || u == "PGM" || u == "PPM" then S.Pnm
    else if u == "PNG" then S.Png
    else if u == "BMP" then S.Bmp
    else if u == "GIF" then S.Gif
    else t
  }

  /** getImageType: no null check, no trim, and the writer lookup gated on the mapped name. */
  function ImageType(filename: string, hasWriter: string -> bool): (r: Option<string>)
    ensures r.Some? ==> hasWriter(r.value) && S.NoDot(r.value)
  {
    var t := Mapped(S.Suffix(filename));
    S.CanonicalNames();
    if hasWriter(t) then Some(t) else None
  }

  /** Upper-casing keeps the characters up to U+0020 where they are. */
  lemma UpperKeepsBlank(s: string, i: int)
    requires 0 <= i < |s|
    ensures (S.Upper(s)[i] <= ' ') == (s[i] <= ' ')
  {
  }

  /**
   * The two implementations agree on every name whose suffix is, in any
   * case and without surrounding blanks, one of the suffixes both know.
   */
  lemma ImageTypesAgree(name: string, hasWriter: string -> bool)
    requires S.Upper(S.Suffix(name)) in {"JPG", "JPEG", "TIF", "TIFF", "PBM", "PGM", "PPM", "PNG", "BMP", "GIF"}
    ensures S.ImageType(Some(name), hasWriter) == ImageType(name, hasWriter)
  {
    var s := S.Suffix(name);
    var u := S.Upper(s);
    assert u != [] && u[0] > ' ' && u[|u| - 1] > ' ';
    UpperKeepsBlank(s, 0);
    UpperKeepsBlank(s, |s| - 1);
    S.TrimTrimmed(s);
    MappedCanonical(s, u);
  }

  /** On the suffixes both know, the mapping here and the canonical name there coincide. */
  lemma MappedCanonical(s: string, u: string)
    requires u == S.Upper(s)
    requires u in {"JPG", "JPEG", "TIF", "TIFF", "PBM", "PGM", "PPM", "PNG", "BMP", "GIF"}
    ensures S.Canonical(u) == Mapped(s)
  {
  }

  /** The suffix of a name whose last dot is at p. */
  lemma SuffixAt(s: string, p: int)
    requires 0 <= p < |s| && s[p] == '.'
    requires forall i :: p < i < |s| ==> s[i] != '.'
    ensures S.Suffix(s) == s[p + 1..]
  {
    var q := S.LastDot(s);
    assert q == p;
  }

  /** Upper-casing, character by character. */
  lemma UpperOf(s: string, u: string)
    requires |s| == |u| && forall i :: 0 <= i < |s| ==> S.UpperChar(s[i]) == u[i]
    ensures S.Upper(s) == u
  {
  }

  /** "photo.pnm": the reference implementation asks for a "PNM" writer, this one for "pnm". */
  lemma PnmNotNormalised(hasWriter: string -> bool)
    ensures S.ImageType(Some("photo.pnm"), hasWriter) == if hasWriter("PNM") then Some("PNM") else None
    ensures ImageType("photo.pnm", hasWriter) == if hasWriter("pnm") then Some("pnm") else None
  {
    SuffixAt("photo.pnm", 5);
    assert "photo.pnm"[6..] == "pnm";
    PnmReference();
    PnmHere();
  }

  lemma PnmReference()
    ensures S.Canonical(S.Upper(S.Trim("pnm"))) == "PNM"
  {
    S.TrimTrimmed("pnm");
    UpperOf("pnm", "PNM");
  }

  lemma PnmHere()
    ensures Mapped("pnm") == "pnm"
  {
    UpperOf("pnm", "PNM");
  }

  /** A suffix with a trailing blank: the reference implementation trims it, this one keeps it. */
  lemma BlankNotTrimmed(hasWriter: string -> bool)
    ensures S.ImageType(Some("a.gif "), hasWriter) == if hasWriter("GIF") then Some("GIF") else None
    ensures ImageType("a.gif ", hasWriter) == if hasWriter("gif ") then Some("gif ") else None
  {
    SuffixAt("a.gif ", 1);
    assert "a.gif "[2..] == "gif ";
    BlankReference();
    BlankHere();
  }

  lemma BlankReference()
    ensures S.Canonical(S.Upper(S.Trim("gif "))) == "GIF"
  {
    assert S.Leading("gif ", 0) == 0;
    assert S.Ending("gif ", 0, 4) == 3;
    assert S.Trim("gif ") == "gif";
    UpperOf("gif", "GIF");
  }

  lemma BlankHere()
    ensures Mapped("gif ") == "gif "
  {
    UpperOf("gif ", "GIF ");
  }

  // ----- resize -----

  /** The blowup flag the shorter resize overloads pass on here: they never enlarge. */
  const DefaultBlowup: bool := false

  /**
   * resize(image, width, height) and resize(image, width, height, bestfit):
   * the two implementations disagree about keeping the image exactly when it
   * is strictly smaller than the target in both directions.
   */
  lemma DefaultsDiffer(imageWidth: int, imageHeight: int, width: int, height: int)
    ensures S.ResizeKeeps(imageWidth, imageHeight, width, height, S.DefaultBlowup)
        != S.ResizeKeeps(imageWidth, imageHeight, width, height, DefaultBlowup)
      <==> imageWidth < width && imageHeight < height
  {
  }

  /**
   * resize(image, width, height, background, position): best fit without
   * enlarging, then, unless the result matches, a canvas always filled with
   * the background as given and the image at the position's origin.
   */
  function Place(scaledWidth: int, scaledHeight: int, width: int, height: int, position: int, background: S.Color): (r: S.Placed)
    ensures r.AsScaled? <==> scaledWidth == width && scaledHeight == height
    ensures r.Canvas? ==> r.fill == Some(background)
  {
    if scaledWidth == width && scaledHeight == height then S.AsScaled
    else
      var o := S.Origin(position, width - scaledWidth, height - scaledHeight);
      S.Canvas(Some(background), o.0, o.1)
  }

  /**
   * Given the same scaled image, both background resizes put it at the
   * same origin; they differ only in the fill, which here paints even the
   * transparent constant. The scaled images themselves can differ: see
   * BackgroundResizes.
   */
  lemma PlaceAgrees(scaledWidth: int, scaledHeight: int, width: int, height: int, position: int,
    background: S.Color, hasAlpha: bool, replacement: S.Color)
    ensures var mine := Place(scaledWidth, scaledHeight, width, height, position, background);
      var theirs := S.Place(scaledWidth, scaledHeight, width, height, position, background, hasAlpha, replacement);
      mine.AsScaled? == theirs.AsScaled?
      && (mine.Canvas? ==> (mine.x == theirs.x && mine.y == theirs.y
        && (mine.fill == theirs.fill <==> background != S.TransparentConstant)))
  {
  }

  /**
   * The two five-argument background resizes from one image: Simapi's
   * scales with blowup, this one without. `scaled` is the size the
   * best-fit scale produces. Unless the image is strictly smaller than the
   * target both ways, they place it identically. When it is, Simapi's
   * enlarges it and places the scaled size, while this one keeps the
   * image's own size and places it over the larger room.
   */
  lemma BackgroundResizes(imageWidth: int, imageHeight: int, width: int, height: int, scaled: (int, int),
    position: int, background: S.Color, hasAlpha: bool, replacement: S.Color)
    ensures var s := S.ScaledSize(imageWidth, imageHeight, width, height, S.DefaultBlowup, scaled);
      var k := S.ScaledSize(imageWidth, imageHeight, width, height, DefaultBlowup, scaled);
      var theirs := S.Place(s.0, s.1, width, height, position, background, hasAlpha, replacement);
      var mine := Place(k.0, k.1, width, height, position, background);
      && (!(imageWidth < width && imageHeight < height) ==>
            mine.AsScaled? == theirs.AsScaled? && (mine.Canvas? ==> (mine.x, mine.y) == (theirs.x, theirs.y)))
      && (imageWidth < width && imageHeight < height ==>
            && mine.Canvas? && (mine.x, mine.y) == S.Origin(position, width - imageWidth, height - imageHeight)
            && theirs == S.Place(scaled.0, scaled.1, width, height, position, background, hasAlpha, replacement))
  {
    var s := S.ScaledSize(imageWidth, imageHeight, width, height, S.DefaultBlowup, scaled);
    var k := S.ScaledSize(imageWidth, imageHeight, width, height, DefaultBlowup, scaled);
    if !(imageWidth < width && imageHeight < height) {
      assert s == k;
      PlaceAgrees(k.0, k.1, width, height, position, background, hasAlpha, replacement);
    }
  }

  // ----- write -----

  datatype WriteError = NoOutput | NoImage | NoFormat | NoStream | NoWriter | CompressionUnsupported

  /**
   * write(image, output, formatName, quality): the same null checks, the
   * writer looked up under the name as given, no flattening, and the
   * compression mode set unconditionally, which a writer without
   * compression refuses.
   */
  function Write(hasOutput: bool, hasImage: bool, formatName: Option<string>, streamCreated: bool,
    hasWriter: string -> bool, canCompress: string -> bool): (r: Result<S.WriteJob, WriteError>)
    ensures !hasOutput ==> r == Failure(NoOutput)
    ensures hasOutput && !hasImage ==> r == Failure(NoImage)
    ensures hasOutput && hasImage && formatName == None ==> r == Failure(NoFormat)
    ensures r.Success? <==> (hasOutput && hasImage && streamCreated && formatName.Some?
      && hasWriter(formatName.value) && canCompress(formatName.value))
    ensures r.Success? ==> r.value == S.WriteJob(formatName.value, false, true)
  {
    if !hasOutput then Failure(NoOutput)
    else if !hasImage then Failure(NoImage)
    else if formatName == None then Failure(NoFormat)
    else if !streamCreated then Failure(NoStream)
    else if !hasWriter(formatName.value) then Failure(NoWriter)
    else if !canCompress(formatName.value) then Failure(CompressionUnsupported)
    else Success(S.WriteJob(formatName.value, false, true))
  }
}
