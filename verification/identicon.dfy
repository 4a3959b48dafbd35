/**
 * IdentIcon: how the hash bytes are overridden and decoded into patch
 * parameters and a colour, the reserved-colour rule, the patch tables,
 * drawPatch's normalisation, and the sixteen patches renderIcon draws on a
 * four-by-four grid. The MD5 digest arrives as bytes; the drawing itself
 * (Graphics2D, shapes, brighter and darker) is kept symbolic.
 */
module IdentIcon {
  import opened JavaInt
  import opened Wrappers
  import opened Bits

  // ----- the patch tables -----

  /** The vertex grid is five by five; vertices are numbered row by row from the top left. */
  const Grid: int := 5

  /** The thirty-two patch shapes, by vertex; entry 15 repeats entry 0 (an inverted square). */
  const PatchTypes: seq<seq<int>> := [
    [0, 4, 24, 20], [0, 4, 20], [2, 24, 20], [0, 2, 20, 22],
    [2, 14, 22, 10], [0, 14, 24, 22], [2, 24, 22, 13, 11, 22, 20], [0, 14, 22],
    [6, 8, 18, 16], [4, 20, 10, 12, 2], [0, 2, 12, 10], [10, 14, 22],
    [20, 12, 24], [10, 2, 12], [0, 2, 10], [0, 4, 24, 20],
    [0, 4, 10], [20, 24, 10], [0, 20, 3], [1, 4, 24],
    [0, 1, 14, 21, 20], [10, 0, 2, 22, 24, 14], [5, 9, 22], [10, 2, 22, 14],
    [0, 20, 4, 24], [0, 7, 4, 13, 24, 17, 20, 11], [0, 3, 24], [0, 15, 24],
    [0, 2, 19], [0, 10, 23], [0, 2, 18, 10], [0, 8, 16]]

  /** PATCH_FLAGS: only the repeated square is drawn inverted by default. */
  const PatchFlags: seq<int> := [
    0, 0, 0, 0, 0, 0, 0, 0, 0, 0, 0, 0, 0, 0, 0, 1,
    0, 0, 0, 0, 0, 0, 0, 0, 0, 0, 0, 0, 0, 0, 0, 0]

  /** The patch types allowed in the middle, indexed by the low four bits of the first hash byte. */
  const CenterTypes: seq<int> := [0, 4, 8, 15, 1, 5, 7, 21, 23, 24, 25, 31, 6, 12, 11, 30]

  /** The grid cell (column, row) a vertex number denotes. */
  function Cell(v: int): (int, int)
  {
    (v % Grid, v / Grid)
  }

  /**
   * Every vertex of every patch lies in 0..24, so it names a cell of the
   * five-by-five grid, and no shape uses the move-to marker -1.
   */
  lemma VerticesOnGrid(p: int, k: int)
    requires 0 <= p < |PatchTypes| && 0 <= k < |PatchTypes[p]|
    ensures 0 <= PatchTypes[p][k] < Grid * Grid
    ensures var c := Cell(PatchTypes[p][k]);
      (0 <= c.0 < Grid && 0 <= c.1 < Grid && PatchTypes[p][k] == c.1 * Grid + c.0)
  {
    if p < 8 {
      LowPatches(p, k);
    } else if p < 16 {
      MiddlePatches(p, k);
    } else if p < 24 {
      UpperPatches(p, k);
    } else {
      TopPatches(p, k);
    }
  }

  lemma LowPatches(p: int, k: int)
    requires 0 <= p < 8 && 0 <= k < |PatchTypes[p]|
    ensures 0 <= PatchTypes[p][k] < 25
  {
  }

  lemma MiddlePatches(p: int, k: int)
    requires 8 <= p < 16 && 0 <= k < |PatchTypes[p]|
    ensures 0 <= PatchTypes[p][k] < 25
  {
  }

  lemma UpperPatches(p: int, k: int)
    requires 16 <= p < 24 && 0 <= k < |PatchTypes[p]|
    ensures 0 <= PatchTypes[p][k] < 25
  {
  }

  lemma TopPatches(p: int, k: int)
    requires 24 <= p < 32 && 0 <= k < |PatchTypes[p]|
    ensures 0 <= PatchTypes[p][k] < 25
  {
  }

  /** The flagged patch is exactly the repeated square, and the middle table names sixteen distinct patches. */
  lemma TableFacts()
    ensures |PatchTypes| == 32 && PatchTypes[15] == PatchTypes[0]
    ensures forall p :: 0 <= p < 32 ==> (PatchFlags[p] == 1 <==> p == 15)
    ensures forall i, j :: 0 <= i < j < 16 ==> CenterTypes[i] != CenterTypes[j]
    ensures forall i :: 0 <= i < 16 ==> 0 <= CenterTypes[i] < 32
  {
  }

  // ----- the hash -----

  /** hash(): the digest with byte 6 cleared, so the reserved colour is off by default. */
  function Hashed(digest: seq<Byte>): (h: seq<Byte>)
    requires |digest| > 6
    ensures |h| == |digest| && h[6] == 0
    ensures forall i :: 0 <= i < |h| && i != 6 ==> h[i] == digest[i]
  {
    digest[6 := 0]
  }

  /** render(input, allowProtected, size): byte 6 says whether the reserved colour may be used. */
  function RenderHash(digest: seq<Byte>, allowProtected: bool): (h: seq<Byte>)
    requires |digest| > 6
    ensures |h| == |digest| && h[6] == (if allowProtected then 1 else 0)
    ensures forall i :: 0 <= i < |h| && i != 6 ==> h[i] == digest[i]
  {
    Hashed(digest)[6 := if allowProtected then 1 else 0]
  }

  /** render(input, red, green, blue): bytes 2, 3 and 4 carry the low bytes of blue, green and red. */
  function ColouredHash(digest: seq<Byte>, red: int, green: int, blue: int): (h: seq<Byte>)
    requires |digest| > 6
    ensures |h| == |digest| && h[6] == 0
    ensures h[2] == LowByte(blue) && h[3] == LowByte(green) && h[4] == LowByte(red)
    ensures forall i :: 0 <= i < |h| && !(i in {2, 3, 4, 6}) ==> h[i] == digest[i]
  {
    Hashed(digest)[2 := LowByte(blue)][3 := LowByte(green)][4 := LowByte(red)]
  }

  /** A patch as renderIcon chooses it: its type, whether it is inverted, and its quarter turns. */
  datatype Patch = Patch(kind: int, invert: bool, turn: int)

  /** What renderIcon reads from the hash. */
  datatype Params = Params(
    middle: Patch, corner: Patch, side: Patch,
    red: Byte, green: Byte, blue: Byte,
    allowProtected: bool)

  /**
   * A corner or side byte: the type in bits 0-4, the inversion in bit 5, the
   * turn in bits 6-7 (the masks and shifts written as remainders and
   * quotients of the unsigned byte).
   */
  function Field(b: Byte): (p: Patch)
    ensures 0 <= p.kind < 32 && 0 <= p.turn < 4
  {
    Patch(b % 32, (b / 32) % 2 == 1, b / 64)
  }

  /** The byte a corner or side patch came from. */
  function FieldByte(p: Patch): int
  {
    p.kind + (if p.invert then 32 else 0) + 64 * p.turn
  }

  /** The three fields of a byte determine it, and every choice of fields has a byte. */
  lemma FieldRoundTrip(b: Byte, p: Patch)
    requires 0 <= p.kind < 32 && 0 <= p.turn < 4
    ensures FieldByte(Field(b)) == b
    ensures 0 <= FieldByte(p) < 256 && Field(FieldByte(p)) == p
  {
  }

  /** renderIcon's reading of the hash. */
  function Decode(hash: seq<Byte>): (r: Params)
    requires |hash| > 6
    ensures r.middle.kind in CenterTypes && r.middle.turn == 0 && r.middle.invert == ((hash[0] / 32) % 2 == 1)
    ensures FieldByte(r.corner) == hash[1] && FieldByte(r.side) == hash[5]
    ensures (r.red, r.green, r.blue) == (hash[4], hash[3], hash[2])
    ensures r.allowProtected <==> 0 < hash[6] < 128
  {
    Params(
      Patch(CenterTypes[hash[0] % 16], (hash[0] / 32) % 2 == 1, 0),
      Field(hash[1]), Field(hash[5]),
      hash[4], hash[3], hash[2],
      SignedByte(hash[6]) > 0)
  }

  /** The middle type determines the low four bits of the first byte, and nothing else of it matters but bit 5. */
  lemma MiddleDetermines(h: seq<Byte>, g: seq<Byte>)
    requires |h| > 6 && |g| > 6
    ensures Decode(h).middle == Decode(g).middle <==> h[0] % 16 == g[0] % 16 && (h[0] / 32) % 2 == (g[0] / 32) % 2
  {
    TableFacts();
  }

  /** Icons rendered through hash() never may use the reserved colour; render(input, allowProtected, size) decides it. */
  lemma RenderDecodes(digest: seq<Byte>, allowProtected: bool)
    requires |digest| > 6
    ensures !Decode(Hashed(digest)).allowProtected
    ensures Decode(RenderHash(digest, allowProtected))
      == Decode(Hashed(digest)).(allowProtected := allowProtected)
  {
  }

  /** render(input, red, green, blue) changes only the colour, to the given components' low bytes, and never allows the reserved colour. */
  lemma ColouredDecodes(digest: seq<Byte>, red: int, green: int, blue: int)
    requires |digest| > 6
    ensures Decode(ColouredHash(digest, red, green, blue))
      == Decode(Hashed(digest)).(red := LowByte(red), green := LowByte(green), blue := LowByte(blue))
    ensures !Decode(ColouredHash(digest, red, green, blue)).allowProtected
  {
  }

  // ----- drawPatch -----

  /** The patch, turn and inversion drawPatch actually draws. */
  datatype Drawn = Drawn(patch: int, turn: int, invert: bool)

  /**
   * drawPatch: the patch number taken modulo the table size, the turn
   * modulo four, and the inversion toggled for the flagged patch.
   */
  function Normalise(patch: int, turn: int, invert: bool): (d: Drawn)
    requires patch >= 0 && turn >= 0
    ensures 0 <= d.patch < |PatchTypes| && 0 <= d.turn < 4
    ensures (patch - d.patch) % 32 == 0 && (turn - d.turn) % 4 == 0
    ensures d.invert <==> (invert != (d.patch == 15))
  {
    var p := patch % 32;
    Drawn(p, turn % 4, if PatchFlags[p] == 1 then !invert else invert)
  }

  /** Normalising twice changes nothing further, except that the flagged patch toggles back. */
  lemma NormaliseTwice(patch: int, turn: int, invert: bool)
    requires patch >= 0 && turn >= 0
    ensures var d := Normalise(patch, turn, invert);
      var e := Normalise(d.patch, d.turn, d.invert);
      e.patch == d.patch && e.turn == d.turn && (e.invert <==> (d.patch == 15) != d.invert)
  {
    var d := Normalise(patch, turn, invert);
    assert d.patch % 32 == d.patch && d.turn % 4 == d.turn;
  }

  // ----- colours -----

  /** A java.awt.Color, by its four components. */
  datatype Color = Color(red: Byte, green: Byte, blue: Byte, alpha: Byte)

  /** new Color(red, green, blue): opaque. */
  function Opaque(red: Byte, green: Byte, blue: Byte): Color
  {
    Color(red, green, blue, 255)
  }

  /**
   * getComplementaryColor: the RGB bits flipped, which takes each 8-bit
   * component x to 255 - x, and new Color(int) makes the result opaque.
   */
  function Complement(c: Color): (r: Color)
    ensures r.alpha == 255
    ensures r.red + c.red == 255 && r.green + c.green == 255 && r.blue + c.blue == 255
  {
    Color(255 - c.red, 255 - c.green, 255 - c.blue, 255)
  }

  /** On opaque colours the complement is an involution, and it never fixes a colour. */
  lemma ComplementTwice(c: Color)
    requires c.alpha == 255
    ensures Complement(Complement(c)) == c
    ensures Complement(c) != c
  {
  }

  /** The square of getColorDistance, on the RGB components. */
  function SquaredDistance(a: Color, b: Color): int
  {
    (a.red - b.red) * (a.red - b.red)
      + (a.green - b.green) * (a.green - b.green)
      + (a.blue - b.blue) * (a.blue - b.blue)
  }

  /** Distances are never negative, and zero exactly between colours of the same RGB. */
  lemma DistanceZero(a: Color, b: Color)
    ensures SquaredDistance(a, b) >= 0
    ensures SquaredDistance(a, b) == 0 <==> (a.red, a.green, a.blue) == (b.red, b.green, b.blue)
  {
    Square(a.red - b.red);
    Square(a.green - b.green);
    Square(a.blue - b.blue);
  }

  lemma Square(x: int)
    ensures x * x >= 0 && (x * x == 0 <==> x == 0)
  {
    if x < 0 {
      MulLe(0, -x, -x);
    } else if x > 0 {
      MulLe(1, x, x);
    }
  }

  /** getColorDistance(a, b) < limit, compared through the squares. */
  predicate Near(a: Color, b: Color, limit: nat)
  {
    SquaredDistance(a, b) < limit * limit
  }

  /** A colour as renderIcon hands it to drawPatch: a plain colour, or brighter(), darker() or the complement of one. */
  datatype Paint = Solid(color: Color) | Brighter(of: Paint) | Darker(of: Paint) | Complemented(of: Paint)

  /** The complement of a paint; of a plain colour, exactly. */
  function ComplementOf(p: Paint): (r: Paint)
    ensures p.Solid? ==> (r.Solid? && r.color.alpha == 255 && r.color.red == 255 - p.color.red
      && r.color.green == 255 - p.color.green && r.color.blue == 255 - p.color.blue)
  {
    if p.Solid? then Solid(Complement(p.color)) else Complemented(p)
  }

  /** The colours renderIcon settles on before drawing. */
  datatype Colours = Colours(middle: Paint, fill: Paint, sideInvert: bool, cornerInvert: bool)

  /**
   * The reserved-colour rule. Without a reserved colour the hash colour is
   * used. With one, an icon that may not use it swaps a colour within 96 of
   * it for the complement; an icon that may use it takes it for the middle,
   * its brighter() for the rest, and drops the side and corner inversions.
   */
  function ChooseColours(p: Params, reserved: Option<Color>): (c: Colours)
    ensures reserved == None ==> c == Colours(Solid(Opaque(p.red, p.green, p.blue)),
      Solid(Opaque(p.red, p.green, p.blue)), p.side.invert, p.corner.invert)
    ensures reserved.Some? && p.allowProtected ==> (c.middle == Solid(reserved.value)
      && c.fill == Brighter(Solid(reserved.value)) && !c.sideInvert && !c.cornerInvert)
    ensures reserved.Some? && !p.allowProtected ==> (c.middle == c.fill && c.middle.Solid?
      && c.sideInvert == p.side.invert && c.cornerInvert == p.corner.invert
      && (c.middle.color == Opaque(p.red, p.green, p.blue)
        || c.middle.color == Complement(Opaque(p.red, p.green, p.blue))))
  {
    var fill := Opaque(p.red, p.green, p.blue);
    match reserved
    case None => Colours(Solid(fill), Solid(fill), p.side.invert, p.corner.invert)
    case Some(r) =>
      if !p.allowProtected then
        var f := if Near(fill, r, 96) then Complement(fill) else fill;
        Colours(Solid(f), Solid(f), p.side.invert, p.corner.invert)
      else
        Colours(Solid(r), Brighter(Solid(r)), false, false)
  }

  /**
   * The complement does not always move a colour away. With a mid-grey
   * reserved colour, an icon that may not use it can still get exactly its
   * RGB: the hash colour (128, 128, 128) is within 96 of (127, 127, 127) and
   * its complement is (127, 127, 127).
   */
  lemma ComplementHitsReserved()
    ensures var p := Params(Patch(0, false, 0), Patch(0, false, 0), Patch(0, false, 0), 128, 128, 128, false);
      var r := Opaque(127, 127, 127);
      (!p.allowProtected && ChooseColours(p, Some(r)).middle == Solid(r))
  {
    var r := Opaque(127, 127, 127);
    assert Near(Opaque(128, 128, 128), r, 96);
    assert Complement(Opaque(128, 128, 128)) == r;
  }

  /** The corner of the RGB cube farthest from a colour. */
  function Farthest(r: Color): (f: Color)
    ensures f.alpha == 255 && !Near(f, r, 96)
  {
    var f := Opaque(if r.red < 128 then 255 else 0, if r.green < 128 then 255 else 0, if r.blue < 128 then 255 else 0);
    FarChannel(f.red - r.red);
    FarChannel(f.green - r.green);
    FarChannel(f.blue - r.blue);
    f
  }

  lemma FarChannel(d: int)
    requires d >= 128 || d <= -128
    ensures d * d >= 128 * 128
  {
    if d >= 128 {
      MulLe(128, d, 128);
      MulLe(128, d, d);
    } else {
      MulLe(128, -d, 128);
      MulLe(128, -d, -d);
    }
  }

  /**
   * The rule as its documentation promises it: a colour within 96 of the
   * reserved one is replaced by its complement when that is far enough, and
   * otherwise by the farthest corner of the colour cube.
   */
  function ChooseColoursFixed(p: Params, reserved: Option<Color>): (c: Colours)
    ensures reserved.Some? && !p.allowProtected ==> (c.middle == c.fill && c.middle.Solid?
      && !Near(c.middle.color, reserved.value, 96)
      && c.sideInvert == p.side.invert && c.cornerInvert == p.corner.invert)
    ensures reserved.Some? && !p.allowProtected && !Near(Opaque(p.red, p.green, p.blue), reserved.value, 96)
      ==> c == ChooseColours(p, reserved)
    ensures reserved == None || p.allowProtected ==> c == ChooseColours(p, reserved)
  {
    var fill := Opaque(p.red, p.green, p.blue);
    match reserved
    case Some(r) =>
      if p.allowProtected then ChooseColours(p, reserved)
      else
        var f := if !Near(fill, r, 96) then fill
          else if !Near(Complement(fill), r, 96) then Complement(fill)
          else Farthest(r);
        Colours(Solid(f), Solid(f), p.side.invert, p.corner.invert)
    case None => ChooseColours(p, reserved)
  }

  // ----- renderIcon's sixteen patches -----

  /** One drawPatch call: the grid cell, the patch, its turn and inversion, and the colours. */
  datatype Draw = Draw(col: int, row: int, patch: int, turn: int, invert: bool, paint: Paint, stroke: Option<Paint>)

  /** The four middle cells, then the eight side cells clockwise from the top, then the corners clockwise from the top left. */
  const Cells: seq<(int, int)> := [
    (1, 1), (2, 1), (2, 2), (1, 2),
    (1, 0), (2, 0), (3, 1), (3, 2), (2, 3), (1, 3), (0, 2), (0, 1),
    (0, 0), (3, 0), (3, 3), (0, 3)]

  /** How far each call's turn is advanced from its group's first: the side turn moves on every second call. */
  const TurnSteps: seq<int> := [0, 1, 2, 3, 0, 1, 1, 2, 2, 3, 3, 4, 0, 1, 2, 3]

  /**
   * renderIcon's drawing calls, in order. `strokeNeeded` stands for the
   * float test that the fill is within 32 of the background.
   */
  function Layout(p: Params, c: Colours, strokeNeeded: bool): (ds: seq<Draw>)
    ensures |ds| == 16
    ensures forall i :: 0 <= i < 16 ==> (ds[i].col, ds[i].row) == Cells[i]
    ensures forall i :: 0 <= i < 16 ==> ds[i].stroke == (if strokeNeeded then Some(ComplementOf(c.fill)) else None)
    ensures forall i :: 4 <= i < 16 ==> !ds[i].invert
  {
    seq(16, i requires 0 <= i < 16 => DrawAt(p, c, strokeNeeded, i))
  }

  /** The i-th drawing call: middle cells first, then the sides, then the corners. */
  function DrawAt(p: Params, c: Colours, strokeNeeded: bool, i: int): Draw
    requires 0 <= i < 16
  {
    var stroke := if strokeNeeded then Some(ComplementOf(c.fill)) else None;
    if i < 4 then Draw(Cells[i].0, Cells[i].1, p.middle.kind, TurnSteps[i], p.middle.invert, c.middle, stroke)
    else if i < 12 then
      Draw(Cells[i].0, Cells[i].1, p.side.kind, p.side.turn + TurnSteps[i], false,
        if c.sideInvert then Darker(c.fill) else c.fill, stroke)
    else
      Draw(Cells[i].0, Cells[i].1, p.corner.kind, p.corner.turn + TurnSteps[i], false,
        if c.cornerInvert then Brighter(c.fill) else c.fill, stroke)
  }

  /** renderIcon: decode the hash, settle the colours, and lay out the patches. */
  function RenderIcon(hash: seq<Byte>, reserved: Option<Color>, strokeNeeded: Paint -> bool): (ds: seq<Draw>)
    requires |hash| > 6
    ensures |ds| == 16
  {
    var p := Decode(hash);
    var c := ChooseColours(p, reserved);
    Layout(p, c, strokeNeeded(c.fill))
  }

  /** renderIcon with the reserved-colour rule as documented. */
  function RenderIconFixed(hash: seq<Byte>, reserved: Option<Color>, strokeNeeded: Paint -> bool): (ds: seq<Draw>)
    requires |hash| > 6
    ensures |ds| == 16
  {
    var p := Decode(hash);
    var c := ChooseColoursFixed(p, reserved);
    Layout(p, c, strokeNeeded(c.fill))
  }

  /**
   * As written, an icon that may not use the reserved colour is painted
   * within 96 of it exactly when both the hash colour and its complement
   * are within 96 of it.
   */
  lemma ChooseColoursNearReserved(p: Params, r: Color)
    requires !p.allowProtected
    ensures ChooseColours(p, Some(r)).middle.Solid?
    ensures Near(ChooseColours(p, Some(r)).middle.color, r, 96)
      <==> Near(Opaque(p.red, p.green, p.blue), r, 96) && Near(Complement(Opaque(p.red, p.green, p.blue)), r, 96)
  {
  }

  /**
   * A hash whose colour bytes are 128 and whose sixth byte is 0 draws the
   * reserved mid-grey (127, 127, 127) in the middle of the icon.
   */
  lemma RenderDrawsReserved(strokeNeeded: Paint -> bool)
    ensures var hash: seq<Byte> := [0, 0, 128, 128, 128, 0, 0];
      RenderIcon(hash, Some(Opaque(127, 127, 127)), strokeNeeded)[0].paint == Solid(Opaque(127, 127, 127))
  {
    var hash: seq<Byte> := [0, 0, 128, 128, 128, 0, 0];
    var p := Decode(hash);
    assert (p.red, p.green, p.blue) == (128, 128, 128) && !p.allowProtected;
    assert Near(Opaque(128, 128, 128), Opaque(127, 127, 127), 96);
    assert Complement(Opaque(128, 128, 128)) == Opaque(127, 127, 127);
  }

  /**
   * With the documented rule, an icon that may not use the reserved colour
   * is painted, in every cell, a colour at least 96 from it or a brighter()
   * or darker() of that colour.
   */
  lemma RenderFixedAvoidsReserved(hash: seq<Byte>, r: Color, strokeNeeded: Paint -> bool, i: int)
    requires |hash| > 6 && !Decode(hash).allowProtected && 0 <= i < 16
    ensures var ds := RenderIconFixed(hash, Some(r), strokeNeeded);
      var f := ChooseColoursFixed(Decode(hash), Some(r)).fill;
      (f.Solid? && !Near(f.color, r, 96)
       && (ds[i].paint == f || ds[i].paint == Darker(f) || ds[i].paint == Brighter(f))
       && (i < 4 ==> ds[i].paint == f))
  {
    var p := Decode(hash);
    var c := ChooseColoursFixed(p, Some(r));
    assert RenderIconFixed(hash, Some(r), strokeNeeded)[i] == DrawAt(p, c, strokeNeeded(c.fill), i);
  }

  /** The sixteen calls cover the four-by-four grid, each cell once. */
  lemma CellsCoverGrid()
    ensures forall i, j :: 0 <= i < j < 16 ==> Cells[i] != Cells[j]
    ensures forall x, y :: 0 <= x < 4 && 0 <= y < 4 ==> (x, y) in Cells
  {
  }

  /** A quarter turn clockwise of the four-by-four grid. */
  function Rotate(cell: (int, int)): (int, int)
  {
    (3 - cell.1, cell.0)
  }

  /** The call whose cell is the quarter turn of call i's cell. */
  const Rotated: seq<int> := [1, 2, 3, 0, 6, 7, 8, 9, 10, 11, 4, 5, 13, 14, 15, 12]

  /**
   * Every identicon has four-fold rotational symmetry: the call at the
   * quarter turn of a call's cell draws the same patch in the same colours,
   * turned one quarter further.
   */
  lemma RenderSymmetric(hash: seq<Byte>, reserved: Option<Color>, strokeNeeded: Paint -> bool, i: int)
    requires |hash| > 6 && 0 <= i < 16
    ensures var ds := RenderIcon(hash, reserved, strokeNeeded);
      var d, e := ds[i], ds[Rotated[i]];
      (d.patch >= 0 && d.turn >= 0 && e.patch >= 0 && e.turn >= 0
      && (e.col, e.row) == Rotate((d.col, d.row))
      && Normalise(e.patch, e.turn, e.invert).patch == Normalise(d.patch, d.turn, d.invert).patch
      && Normalise(e.patch, e.turn, e.invert).invert == Normalise(d.patch, d.turn, d.invert).invert
      && Normalise(e.patch, e.turn, e.invert).turn == (Normalise(d.patch, d.turn, d.invert).turn + 1) % 4
      && e.paint == d.paint && e.stroke == d.stroke)
  {
    TableFacts();
    var p := Decode(hash);
    var c := ChooseColours(p, reserved);
    RotatedCells(i);
    DrawSymmetric(p, c, strokeNeeded(c.fill), i);
  }

  /** The symmetry for one call of the layout. */
  lemma DrawSymmetric(p: Params, c: Colours, strokeNeeded: bool, i: int)
    requires 0 <= i < 16 && p.middle.kind >= 0 && p.side.kind >= 0 && p.corner.kind >= 0
    requires p.side.turn >= 0 && p.corner.turn >= 0
    ensures 0 <= Rotated[i] < 16
    ensures var d, e := DrawAt(p, c, strokeNeeded, i), DrawAt(p, c, strokeNeeded, Rotated[i]);
      (d.patch >= 0 && d.turn >= 0 && e.patch >= 0 && e.turn >= 0
      && (e.col, e.row) == Rotate((d.col, d.row))
      && Normalise(e.patch, e.turn, e.invert).patch == Normalise(d.patch, d.turn, d.invert).patch
      && Normalise(e.patch, e.turn, e.invert).invert == Normalise(d.patch, d.turn, d.invert).invert
      && Normalise(e.patch, e.turn, e.invert).turn == (Normalise(d.patch, d.turn, d.invert).turn + 1) % 4
      && e.paint == d.paint && e.stroke == d.stroke)
  {
    RotatedCells(i);
    TurnStep(i);
    var d, e := DrawAt(p, c, strokeNeeded, i), DrawAt(p, c, strokeNeeded, Rotated[i]);
    assert e.turn - d.turn == TurnSteps[Rotated[i]] - TurnSteps[i];
    TurnMod(d.turn, e.turn);
  }

  /** A turn one more, up to whole turns, is one quarter further after taking it modulo four. */
  lemma TurnMod(a: int, b: int)
    requires a >= 0 && b >= 0 && (b - a - 1) % 4 == 0
    ensures b % 4 == (a % 4 + 1) % 4
  {
  }

  lemma RotatedCells(i: int)
    requires 0 <= i < 16
    ensures 0 <= Rotated[i] < 16 && Cells[Rotated[i]] == Rotate(Cells[i])
    ensures (i < 4) == (Rotated[i] < 4) && (i < 12) == (Rotated[i] < 12)
  {
  }

  lemma TurnStep(i: int)
    requires 0 <= i < 16
    ensures 0 <= TurnSteps[i] && 0 <= Rotated[i] < 16
    ensures (i < 4) == (Rotated[i] < 4) && (i < 12) == (Rotated[i] < 12)
    ensures (TurnSteps[Rotated[i]] - TurnSteps[i] - 1) % 4 == 0
  {
  }
}
