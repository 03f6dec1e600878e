/**
 The value types of the colour-reduction core (domain.py): a validated RGB
 colour with its tuple, hex and luminosity views, a non-empty colour palette
 with its stable luminosity order, and an image as a rectangular pixel grid.
 The exceptions the source raises become the `Error` values of a `Result`.
 */
module Domain {
  import opened Sequences
  import StableSort

  /** Which wrapper a `ColorProcessingException` was raised by; each has its own message prefix. */
  datatype Stage =
    | Analysis        // "Color analysis failed: ..."
    | AutoReduction   // "Auto reduction failed: ..."
    | ManualReduction // "Manual reduction failed: ..."

  datatype Error =
    | InvalidColor                             // ValueError: a channel outside 0-255
    | EmptyPalette                             // ValueError: a palette with no colours
    | LibraryFailure(reason: string)           // raised inside the clustering or resampling library
    | ColorProcessing(stage: Stage, cause: Error)

  datatype Result<+T> = Ok(value: T) | Err(error: Error)

  datatype Option<+T> = None | Some(value: T)

  /** A plain integer triple, as Python's `(r, g, b)` tuples. */
  type Triple = (int, int, int)

  // ---------------------------------------------------------------- colours

  predicate InChannelRange(x: int) {
    0 <= x <= 255
  }

  datatype RGBColor = RGBColor(r: int, g: int, b: int)

  /** An `RGBColor` that passed construction: every channel lies in 0..255. */
  type Color = c: RGBColor | InChannelRange(c.r) && InChannelRange(c.g) && InChannelRange(c.b)
    witness RGBColor(0, 0, 0)

  const Black: Color := RGBColor(0, 0, 0)
  const White: Color := RGBColor(255, 255, 255)

  /** `RGBColor(r, g, b)`: the dataclass constructor with its range validation. */
  function MakeColor(r: int, g: int, b: int): (res: Result<Color>)
    ensures res.Ok? <==> InChannelRange(r) && InChannelRange(g) && InChannelRange(b)
    ensures res.Ok? ==> res.value.r == r && res.value.g == g && res.value.b == b
    ensures res.Err? ==> res.error == InvalidColor
  {
    if InChannelRange(r) && InChannelRange(g) && InChannelRange(b) then Ok(RGBColor(r, g, b))
    else Err(InvalidColor)
  }

  /** The `tuple` property. */
  function Tuple(c: Color): (t: Triple)
    ensures InChannelRange(t.0) && InChannelRange(t.1) && InChannelRange(t.2)
  {
    (c.r, c.g, c.b)
  }

  /** The `tuple` of every colour of a list, as `[color.tuple for color in colors]`. */
  function Tuples(cs: seq<Color>): seq<Triple> {
    seq(|cs|, i requires 0 <= i < |cs| => Tuple(cs[i]))
  }

  /** `RGBColor.from_tuple`: the inverse of `Tuple`, failing on out-of-range triples. */
  function FromTuple(t: Triple): (res: Result<Color>)
    ensures res.Ok? <==> InChannelRange(t.0) && InChannelRange(t.1) && InChannelRange(t.2)
    ensures res.Ok? ==> Tuple(res.value) == t
    ensures res.Err? ==> res.error == InvalidColor
  {
    MakeColor(t.0, t.1, t.2)
  }

  lemma FromTupleOfTuple(c: Color)
    ensures FromTuple(Tuple(c)) == Ok(c)
  {
  }

  lemma TupleInjective(a: Color, b: Color)
    ensures Tuple(a) == Tuple(b) <==> a == b
  {
  }

  // ---------------------------------------------------------------- hex

  const HexDigits := "0123456789abcdef"

  predicate IsLowerHexDigit(ch: char) {
    ('0' <= ch <= '9') || ('a' <= ch <= 'f')
  }

  function HexDigit(d: int): (ch: char)
    requires 0 <= d < 16
    ensures IsLowerHexDigit(ch)
  {
    HexDigits[d]
  }

  /** The value of a hex digit, or -1 for any other character. */
  function DigitValue(ch: char): int {
    if '0' <= ch <= '9' then ch as int - '0' as int
    else if 'a' <= ch <= 'f' then ch as int - 'a' as int + 10
    else -1
  }

  lemma DigitValueOfHexDigit(d: int)
    requires 0 <= d < 16
    ensures DigitValue(HexDigit(d)) == d
  {
  }

  /** Python's `format(x, '02x')` for a channel value. */
  function Hex2(x: int): (s: string)
    requires InChannelRange(x)
    ensures |s| == 2 && IsLowerHexDigit(s[0]) && IsLowerHexDigit(s[1])
    ensures DigitValue(s[0]) * 16 + DigitValue(s[1]) == x
  {
    DigitValueOfHexDigit(x / 16);
    DigitValueOfHexDigit(x % 16);
    [HexDigit(x / 16), HexDigit(x % 16)]
  }

  /** The `hex` property: `#rrggbb` in lower case. */
  function Hex(c: Color): (s: string)
    ensures |s| == 7 && s[0] == '#'
    ensures forall i :: 1 <= i < 7 ==> IsLowerHexDigit(s[i])
    ensures ParseHex(s) == Some(c)
  {
    var hr, hg, hb := Hex2(c.r), Hex2(c.g), Hex2(c.b);
    var s := ['#', hr[0], hr[1], hg[0], hg[1], hb[0], hb[1]];
    assert Byte(s, 1) == c.r && Byte(s, 3) == c.g && Byte(s, 5) == c.b;
    s
  }

  function Byte(s: string, i: nat): int
    requires i + 1 < |s|
  {
    DigitValue(s[i]) * 16 + DigitValue(s[i + 1])
  }

  /** Reads a `#rrggbb` string back into a colour; the inverse of `Hex`. */
  function ParseHex(s: string): Option<Color> {
    if |s| == 7 && s[0] == '#' && forall i :: 1 <= i < 7 ==> IsLowerHexDigit(s[i]) then
      var r := Byte(s, 1);
      var g := Byte(s, 3);
      var b := Byte(s, 5);
      assert InChannelRange(r) && InChannelRange(g) && InChannelRange(b);
      Some(RGBColor(r, g, b))
    else None
  }

  /** Distinct colours have distinct hex strings. */
  lemma HexInjective(a: Color, b: Color)
    ensures Hex(a) == Hex(b) <==> a == b
  {
    if Hex(a) == Hex(b) {
      assert ParseHex(Hex(a)) == Some(a) && ParseHex(Hex(b)) == Some(b);
    }
  }

  // ---------------------------------------------------------------- luminosity

  const MaxLuminosity := 10000 * 255

  /**
   The `luminosity` property, scaled to an integer: 2126 r + 7152 g + 722 b is
   the float 0.2126 r/255 + 0.7152 g/255 + 0.0722 b/255 multiplied by
   10000 * 255, so both order colours the same way (up to float rounding).
   */
  function Luminosity(c: Color): (l: int)
    ensures 0 <= l <= MaxLuminosity
    ensures l == 0 <==> c == Black
    ensures l == MaxLuminosity <==> c == White
  {
    2126 * c.r + 7152 * c.g + 722 * c.b
  }

  /** Raising any channel never makes a colour darker. */
  lemma LuminosityMonotone(a: Color, b: Color)
    requires a.r <= b.r && a.g <= b.g && a.b <= b.b
    ensures Luminosity(a) <= Luminosity(b)
  {
  }

  lemma BlackDarkestWhiteBrightest(c: Color)
    ensures Luminosity(Black) <= Luminosity(c) <= Luminosity(White)
  {
  }

  // ---------------------------------------------------------------- palettes

  datatype ColorPalette = ColorPalette(colors: seq<Color>)

  /** A `ColorPalette` that passed construction: it holds at least one colour. */
  type Palette = p: ColorPalette | |p.colors| > 0 witness ColorPalette([RGBColor(0, 0, 0)])

  /** `ColorPalette(colors)`: the dataclass constructor with its emptiness check. */
  function MakePalette(colors: seq<Color>): (res: Result<Palette>)
    ensures res.Ok? <==> |colors| > 0
    ensures res.Ok? ==> res.value.colors == colors
    ensures res.Err? ==> res.error == EmptyPalette
  {
    if |colors| == 0 then Err(EmptyPalette) else Ok(ColorPalette(colors))
  }

  /** `len(palette)`. */
  function Len(p: Palette): (n: nat)
    ensures n >= 1
  {
    |p.colors|
  }

  /**
   The `sorted_by_luminosity` property: the same colours, darkest first, colours
   of equal luminosity in their original order (Python's `sorted` is stable).
   */
  function SortedByLuminosity(p: Palette): (q: Palette)
    ensures multiset(q.colors) == multiset(p.colors)
    ensures StableSort.IsStableSortOf(q.colors, p.colors, Luminosity)
  {
    StableSort.SortByIsStableSort(p.colors, Luminosity);
    ColorPalette(StableSort.SortBy(p.colors, Luminosity))
  }

  lemma SortedByLuminosityIdempotent(p: Palette)
    ensures SortedByLuminosity(SortedByLuminosity(p)) == SortedByLuminosity(p)
  {
    StableSort.SortByIdempotent(p.colors, Luminosity);
  }

  lemma SortedByLuminositySingleton(p: Palette)
    requires Len(p) == 1
    ensures SortedByLuminosity(p) == p
  {
  }

  // ---------------------------------------------------------------- images

  /** Every row of the grid has `width` pixels. */
  predicate Rectangular(rows: seq<seq<Color>>, width: nat) {
    forall i :: 0 <= i < |rows| ==> |rows[i]| == width
  }

  /**
   The pixel array of an image: `height x width` RGB pixels. The width is kept
   explicitly, as numpy keeps the shape of an array with no rows.
   */
  datatype RawImage = RawImage(width: nat, rows: seq<seq<Color>>)

  type Image = im: RawImage | Rectangular(im.rows, im.width) witness RawImage(0, [])

  function Height(im: Image): nat {
    |im.rows|
  }

  /** The `dimensions` property: `pixels.shape[:2]`, that is (height, width). */
  function Dimensions(im: Image): (nat, nat) {
    (|im.rows|, im.width)
  }

  /** `pixels.reshape(-1, 3)`: the pixels in row-major order. */
  function Flatten(rows: seq<seq<Color>>): (flat: seq<Color>)
    ensures forall c :: c in flat <==> exists i :: 0 <= i < |rows| && c in rows[i]
  {
    if |rows| == 0 then []
    else
      var tail := Flatten(rows[1..]);
      assert forall i :: 1 <= i < |rows| ==> rows[i] == rows[1..][i - 1];
      rows[0] + tail
  }

  /** `flat.reshape(height, width, 3)`: the inverse of `Flatten` on rectangular grids. */
  function Reshape(flat: seq<Color>, height: nat, width: nat): (rows: seq<seq<Color>>)
    requires |flat| == height * width
    ensures |rows| == height && Rectangular(rows, width)
    ensures forall i, j :: 0 <= i < height && 0 <= j < width ==>
              RowMajor(i, j, width) < |flat| && rows[i][j] == flat[RowMajor(i, j, width)]
  {
    var rows := seq(height, i requires 0 <= i < height => Row(flat, i, height, width));
    forall i, j | 0 <= i < height && 0 <= j < width
      ensures RowMajor(i, j, width) < |flat| && rows[i][j] == flat[RowMajor(i, j, width)]
    {
      var row := Row(flat, i, height, width);
      assert rows[i] == row;
      assert row[j] == flat[RowMajor(i, j, width)];
    }
    rows
  }

  /** Row `i` of the grid: the `width` pixels from position `i * width` of the row-major order. */
  function Row(flat: seq<Color>, i: nat, height: nat, width: nat): (row: seq<Color>)
    requires |flat| == height * width && i < height
    ensures |row| == width
    ensures forall j :: 0 <= j < width ==> RowMajor(i, j, width) < |flat| && row[j] == flat[RowMajor(i, j, width)]
  {
    RowFits(i, height, width);
    flat[RowMajor(i, 0, width)..RowMajor(i, 0, width) + width]
  }

  /** Row `i` of a `height x width` grid ends within the row-major order. */
  lemma RowFits(i: nat, height: nat, width: nat)
    requires i < height
    ensures RowMajor(i, 0, width) + width <= height * width
  {
    assert i * width + width == (i + 1) * width;
    assert (i + 1) * width <= height * width;
  }

  /** The position of pixel (i, j) in the row-major order. */
  function RowMajor(i: nat, j: nat, width: nat): nat {
    i * width + j
  }

  lemma RowMajorStep(i: nat, j: nat, width: nat)
    requires i > 0
    ensures RowMajor(i, j, width) == width + RowMajor(i - 1, j, width)
  {
  }

  /** Flattening keeps every pixel at its row-major position. */
  lemma {:induction false} FlattenIndex(rows: seq<seq<Color>>, width: nat)
    requires Rectangular(rows, width)
    ensures |Flatten(rows)| == |rows| * width
    ensures forall i, j :: 0 <= i < |rows| && 0 <= j < width ==>
              RowMajor(i, j, width) < |Flatten(rows)| && Flatten(rows)[RowMajor(i, j, width)] == rows[i][j]
  {
    if |rows| > 0 {
      var tail := Flatten(rows[1..]);
      FlattenIndex(rows[1..], width);
      assert Flatten(rows) == rows[0] + tail;
      assert |rows| * width == width + (|rows| - 1) * width;
      forall i, j | 0 <= i < |rows| && 0 <= j < width
        ensures RowMajor(i, j, width) < |Flatten(rows)| && Flatten(rows)[RowMajor(i, j, width)] == rows[i][j]
      {
        if i == 0 {
          assert RowMajor(i, j, width) == j;
        } else {
          RowMajorStep(i, j, width);
          assert rows[1..][i - 1] == rows[i];
          assert tail[RowMajor(i - 1, j, width)] == rows[i][j];
        }
      }
    }
  }

  /** Reshaping the flattened pixels gives back the grid. */
  lemma ReshapeFlatten(rows: seq<seq<Color>>, width: nat)
    requires Rectangular(rows, width)
    ensures |Flatten(rows)| == |rows| * width
    ensures Reshape(Flatten(rows), |rows|, width) == rows
  {
    FlattenIndex(rows, width);
    var back := Reshape(Flatten(rows), |rows|, width);
    forall i | 0 <= i < |rows|
      ensures back[i] == rows[i]
    {
    }
  }

  /** The `total_pixels` property: height times width of the pixel grid. */
  function TotalPixels(im: Image): (n: nat)
    ensures n == |Flatten(im.rows)|
  {
    FlattenIndex(im.rows, im.width);
    |im.rows| * im.width
  }
}
