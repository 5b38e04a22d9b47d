/** `tiff_to_nc.py`: decode each downloaded GeoTIFF's colours into
    millimetres through its embedded legend, blank the yellow no-data band,
    attach pixel-centre coordinates, and write a `.nc` beside it unless one
    is already there. */
module TiffToNc {
  import opened Text
  import opened DataDir

  /** Why a raster cannot be decoded: its ESCALA tag is missing or
      unparseable, its legend is empty, or an entry has fewer than three
      colour components. */
  datatype DecodeError = NoLegend | EmptyLegend | ShortColour

  datatype Result<T> = Ok(value: T) | Err(error: DecodeError)

  // ---------------------------------------------------------------------
  // Palette
  // ---------------------------------------------------------------------

  /** The no-data band: strong red, strong green, hardly any blue. */
  predicate IsYellow(p: Pixel)
  {
    p.r >= 200 && p.g >= 180 && p.b <= 50
  }

  /** The three thresholds are inclusive and each one matters on its own. */
  lemma YellowBandEdges()
    ensures IsYellow(Pixel(200, 180, 50))
    ensures !IsYellow(Pixel(199, 255, 0))
    ensures !IsYellow(Pixel(255, 179, 0))
    ensures !IsYellow(Pixel(255, 255, 51))
  {
  }

  /** Python's `int(x)` on a float: truncation toward zero. */
  function TruncInt(x: real): (n: int)
    ensures 0.0 <= x ==> n as real <= x < n as real + 1.0
    ensures x < 0.0 ==> n as real - 1.0 < x <= n as real
  {
    if x >= 0.0 then x.Floor else -((-x).Floor)
  }

  /** `tuple(int(x) for x in item["RGBA"][:3])` */
  function RgbTuple(item: LegendItem): (t: seq<int>)
    ensures |t| == if |item.rgba| < 3 then |item.rgba| else 3
    ensures forall k :: 0 <= k < |t| ==> t[k] == TruncInt(item.rgba[k])
  {
    var n := if |item.rgba| < 3 then |item.rgba| else 3;
    seq(n, k requires 0 <= k < n => TruncInt(item.rgba[k]))
  }

  /** The colour of a legend entry with at least three components: its
      `RgbTuple` read as a pixel, the row the palette array holds. */
  function EntryColour(item: LegendItem): (colour: Pixel)
    requires |item.rgba| >= 3
    ensures [colour.r, colour.g, colour.b] == RgbTuple(item)
  {
    Pixel(TruncInt(item.rgba[0]), TruncInt(item.rgba[1]), TruncInt(item.rgba[2]))
  }

  /** The representative millimetre value of a legend entry: the lower bound
      of an open-ended range, otherwise the midpoint of the range. */
  function EntryValue(item: LegendItem): (v: real)
    ensures item.hi.None? ==> v == item.lo
    ensures item.hi.Some? ==> v - item.lo == item.hi.value - v
    ensures item.hi.Some? && item.lo <= item.hi.value ==> item.lo <= v <= item.hi.value
  {
    match item.hi
    case None => item.lo
    case Some(hi) => (item.lo + hi) / 2.0
  }

  /** Colours and values side by side, as `paleta` and `val_mm`. */
  datatype Palette = Palette(colors: seq<Pixel>, values: seq<real>)

  /** A palette a nearest-colour query can be run against. */
  predicate ValidPalette(pal: Palette)
  {
    |pal.colors| == |pal.values| > 0
  }

  /** The palette of a legend, or why none can be built. */
  function PaletteOf(items: seq<LegendItem>): (r: Result<Palette>)
    ensures r.Ok? ==> ValidPalette(r.value)
    ensures r.Ok? ==> |r.value.colors| == |items| && |r.value.values| == |items|
  {
    if |items| == 0 then Err(EmptyLegend)
    else if exists i :: 0 <= i < |items| && |items[i].rgba| < 3 then Err(ShortColour)
    else
      Ok(Palette(seq(|items|, i requires 0 <= i < |items| => EntryColour(items[i])),
                 seq(|items|, i requires 0 <= i < |items| => EntryValue(items[i]))))
  }

  /** The palette loop: one colour and one value appended per legend entry,
      then the array conversion and tree construction, which fail on an
      empty legend or on a colour with fewer than three components. */
  method BuildPalette(items: seq<LegendItem>) returns (r: Result<Palette>)
    ensures r == PaletteOf(items)
    ensures r.Ok? <==> |items| > 0 && forall i :: 0 <= i < |items| ==> |items[i].rgba| >= 3
    ensures r.Ok? ==>
      |r.value.colors| == |items| && |r.value.values| == |items| &&
      forall i :: 0 <= i < |items| ==>
        r.value.colors[i] == EntryColour(items[i]) && r.value.values[i] == EntryValue(items[i])
  {
    var paleta: seq<seq<int>> := [];
    var valMm: seq<real> := [];
    var i := 0;
    while i < |items|
      invariant 0 <= i <= |items|
      invariant |paleta| == i && |valMm| == i
      invariant forall j :: 0 <= j < i ==> paleta[j] == RgbTuple(items[j]) && valMm[j] == EntryValue(items[j])
    {
      paleta := paleta + [RgbTuple(items[i])];
      valMm := valMm + [EntryValue(items[i])];
      i := i + 1;
    }
    if |paleta| == 0 {
      return Err(EmptyLegend);
    }
    if exists j :: 0 <= j < |paleta| && |paleta[j]| != 3 {
      ghost var j :| 0 <= j < |paleta| && |paleta[j]| != 3;
      assert |items[j].rgba| < 3;
      return Err(ShortColour);
    }
    var colors := seq(|paleta|, j requires 0 <= j < |paleta| => Pixel(paleta[j][0], paleta[j][1], paleta[j][2]));
    assert forall j :: 0 <= j < |items| ==> |items[j].rgba| >= 3 by {
      forall j | 0 <= j < |items| ensures |items[j].rgba| >= 3 {
        assert |paleta[j]| == 3;
      }
    }
    assert colors == seq(|items|, j requires 0 <= j < |items| => EntryColour(items[j]));
    assert valMm == seq(|items|, j requires 0 <= j < |items| => EntryValue(items[j]));
    r := Ok(Palette(colors, valMm));
  }

  // ---------------------------------------------------------------------
  // Nearest-colour classification and the yellow override
  // ---------------------------------------------------------------------

  /** Squared Euclidean distance in RGB space (same minimiser as the
      distance itself). */
  function Dist2(p: Pixel, q: Pixel): int
  {
    (p.r - q.r) * (p.r - q.r) + (p.g - q.g) * (p.g - q.g) + (p.b - q.b) * (p.b - q.b)
  }

  lemma SquarePositive(x: int)
    ensures x * x >= 0
    ensures x != 0 ==> x * x > 0
  {
    if x < 0 {
      assert x * x == (-x) * (-x);
    }
  }

  /** The distance is zero exactly between equal colours. */
  lemma Dist2Zero(p: Pixel, q: Pixel)
    ensures Dist2(p, q) >= 0
    ensures Dist2(p, q) == 0 <==> p == q
  {
    SquarePositive(p.r - q.r);
    SquarePositive(p.g - q.g);
    SquarePositive(p.b - q.b);
  }

  /** The answer of `tree.query` for one pixel: an index of a palette colour
      at minimal distance (among equally near colours this model takes the
      lowest index). */
  function NearestIndex(colors: seq<Pixel>, p: Pixel): (k: nat)
    requires |colors| > 0
    ensures k < |colors|
    ensures forall j :: 0 <= j < |colors| ==> Dist2(colors[k], p) <= Dist2(colors[j], p)
    decreases |colors|
  {
    if |colors| == 1 then 0
    else
      var k := NearestIndex(colors[..|colors| - 1], p);
      if Dist2(colors[|colors| - 1], p) < Dist2(colors[k], p) then |colors| - 1 else k
  }

  /** A pixel that equals some palette colour is matched to an entry of
      exactly that colour. */
  lemma {:induction false} ExactColourMatch(colors: seq<Pixel>, p: Pixel, j: nat)
    requires j < |colors| && colors[j] == p
    ensures colors[NearestIndex(colors, p)] == p
  {
    var k := NearestIndex(colors, p);
    Dist2Zero(p, p);
    Dist2Zero(colors[k], p);
  }

  /** `val_mm[idx]` over the flattened pixels. */
  function ClassifyFlat(pal: Palette, flat: seq<Pixel>): (d: seq<Cell>)
    requires ValidPalette(pal)
    ensures |d| == |flat|
  {
    seq(|flat|, i requires 0 <= i < |flat| => Some(pal.values[NearestIndex(pal.colors, flat[i])]))
  }

  /** The flat values after the yellow pixels are set to NaN. */
  function Masked(d: seq<Cell>, flat: seq<Pixel>): (m: seq<Cell>)
    requires |d| == |flat|
    ensures |m| == |d|
  {
    seq(|d|, i requires 0 <= i < |d| => if IsYellow(flat[i]) then None else d[i])
  }

  /** `data_mm_flat[yellow_mask] = np.nan`, in place. */
  method MaskYellow(data: array<Cell>, flat: seq<Pixel>)
    requires data.Length == |flat|
    modifies data
    ensures data[..] == Masked(old(data[..]), flat)
  {
    var i := 0;
    while i < data.Length
      invariant 0 <= i <= data.Length
      invariant forall j :: 0 <= j < i ==> data[j] == if IsYellow(flat[j]) then None else old(data[j])
      invariant forall j :: i <= j < data.Length ==> data[j] == old(data[j])
    {
      if IsYellow(flat[i]) {
        data[i] := None;
      }
      i := i + 1;
    }
  }

  // ---------------------------------------------------------------------
  // Row-major flattening and reshaping
  // ---------------------------------------------------------------------

  /** Peeling one row off a `rows` by `cols` block. */
  lemma MulStep(rows: nat, cols: nat)
    requires rows > 0
    ensures rows * cols == (rows - 1) * cols + cols
  {
  }

  /** Row r, column c of a `rows` by `cols` block lies inside it. */
  lemma {:induction false} RowMajorBound(rows: nat, cols: nat, r: nat, c: nat)
    requires r < rows && c < cols
    ensures r * cols + c < rows * cols
    decreases rows
  {
    MulStep(rows, cols);
    if r < rows - 1 {
      RowMajorBound(rows - 1, cols, r, c);
    }
  }

  /** `reshape(-1, ...)`: the rows one after another. */
  function Flatten<T>(g: seq<seq<T>>): seq<T>
    decreases |g|
  {
    if |g| == 0 then [] else g[0] + Flatten(g[1..])
  }

  lemma {:induction false} FlattenLength<T>(g: seq<seq<T>>, rows: nat, cols: nat)
    requires IsRect(g, rows, cols)
    ensures |Flatten(g)| == rows * cols
    decreases rows
  {
    if rows > 0 {
      FlattenLength(g[1..], rows - 1, cols);
      MulStep(rows, cols);
    }
  }

  /** Flattening puts cell (r, c) at position r*cols + c. */
  lemma {:induction false} FlattenIndex<T>(g: seq<seq<T>>, rows: nat, cols: nat, r: nat, c: nat)
    requires IsRect(g, rows, cols) && r < rows && c < cols
    ensures |Flatten(g)| == rows * cols
    ensures r * cols + c < rows * cols
    ensures Flatten(g)[r * cols + c] == g[r][c]
    decreases rows
  {
    FlattenLength(g, rows, cols);
    RowMajorBound(rows, cols, r, c);
    if r > 0 {
      FlattenIndex(g[1..], rows - 1, cols, r - 1, c);
      MulStep(r, cols);
    }
  }

  /** `reshape(R.shape)`: consecutive runs of `cols` entries become rows. */
  function Reshape<T>(flat: seq<T>, rows: nat, cols: nat): (g: seq<seq<T>>)
    requires |flat| == rows * cols
    ensures IsRect(g, rows, cols)
    decreases rows
  {
    if rows == 0 then []
    else
      MulStep(rows, cols);
      [flat[..cols]] + Reshape(flat[cols..], rows - 1, cols)
  }

  /** Reshaping takes cell (r, c) from position r*cols + c. */
  lemma {:induction false} ReshapeIndex<T>(flat: seq<T>, rows: nat, cols: nat, r: nat, c: nat)
    requires |flat| == rows * cols && r < rows && c < cols
    ensures r * cols + c < |flat|
    ensures Reshape(flat, rows, cols)[r][c] == flat[r * cols + c]
    decreases rows
  {
    MulStep(rows, cols);
    RowMajorBound(rows, cols, r, c);
    if r > 0 {
      ReshapeIndex(flat[cols..], rows - 1, cols, r - 1, c);
      MulStep(r, cols);
    }
  }

  /** Reshaping a flattened grid gives the grid back. */
  lemma ReshapeFlatten<T>(g: seq<seq<T>>, rows: nat, cols: nat)
    requires IsRect(g, rows, cols)
    ensures |Flatten(g)| == rows * cols
    ensures Reshape(Flatten(g), rows, cols) == g
  {
    FlattenLength(g, rows, cols);
    var h := Reshape(Flatten(g), rows, cols);
    forall r | 0 <= r < rows ensures h[r] == g[r] {
      forall c | 0 <= c < cols ensures h[r][c] == g[r][c] {
        ReshapeIndex(Flatten(g), rows, cols, r, c);
        FlattenIndex(g, rows, cols, r, c);
      }
    }
  }

  // ---------------------------------------------------------------------
  // Pixel-centre coordinates
  // ---------------------------------------------------------------------

  /** `rasterio.transform.xy(transform, row, col, offset="center")[0]` */
  function CentreX(t: Affine, row: nat, col: nat): real
  {
    t.a * (col as real + 0.5) + t.b * (row as real + 0.5) + t.c
  }

  /** `rasterio.transform.xy(transform, row, col, offset="center")[1]` */
  function CentreY(t: Affine, row: nat, col: nat): real
  {
    t.d * (col as real + 0.5) + t.e * (row as real + 0.5) + t.f
  }

  /** `lon`: the x of each column's centre, read along row 0. */
  function LonAxis(t: Affine, cols: nat): seq<real>
  {
    seq(cols, (c: int) requires 0 <= c => CentreX(t, 0, c))
  }

  /** `lat`: the y of each row's centre, read along column 0. */
  function LatAxis(t: Affine, rows: nat): seq<real>
  {
    seq(rows, (r: int) requires 0 <= r => CentreY(t, r, 0))
  }

  /** An axis sampled at pixel centres: entry i is `origin + (i + 1/2) * step`. */
  predicate CentredAxis(axis: seq<real>, n: nat, origin: real, step: real)
  {
    |axis| == n && forall i :: 0 <= i < n ==> axis[i] == origin + (i as real + 0.5) * step
  }

  /** Scaling a positive distance keeps the sign of the scale. */
  lemma ScaleSign(step: real, d: real)
    requires d > 0.0
    ensures step > 0.0 ==> step * d > 0.0
    ensures step < 0.0 ==> step * d < 0.0
  {
  }

  /** A centred axis advances by exactly one step per pixel, so it is
      strictly monotonic whenever the step is non-zero. */
  lemma CentredAxisSpacing(axis: seq<real>, n: nat, origin: real, step: real)
    requires CentredAxis(axis, n, origin, step)
    ensures forall i :: 0 <= i < n - 1 ==> axis[i + 1] - axis[i] == step
    ensures step > 0.0 ==> forall i, j :: 0 <= i < j < n ==> axis[i] < axis[j]
    ensures step < 0.0 ==> forall i, j :: 0 <= i < j < n ==> axis[i] > axis[j]
  {
    forall i, j | 0 <= i < j < n
      ensures axis[j] - axis[i] == step * (j - i) as real
      ensures step > 0.0 ==> axis[i] < axis[j]
      ensures step < 0.0 ==> axis[i] > axis[j]
    {
      assert axis[j] - axis[i] == (j as real + 0.5) * step - (i as real + 0.5) * step;
      ScaleSign(step, (j - i) as real);
    }
  }

  /** `lon` has one entry per column, at the column's centre: column width
      `a`, origin the x of the left edge of row 0. */
  lemma LonAxisCentred(t: Affine, cols: nat)
    ensures CentredAxis(LonAxis(t, cols), cols, t.b * 0.5 + t.c, t.a)
  {
  }

  /** `lat` has one entry per row, at the row's centre: row height `e`,
      origin the y of the top edge of column 0. */
  lemma LatAxisCentred(t: Affine, rows: nat)
    ensures CentredAxis(LatAxis(t, rows), rows, t.d * 0.5 + t.f, t.e)
  {
  }

  // ---------------------------------------------------------------------
  // The instant builder
  // ---------------------------------------------------------------------

  /** The palette embedded in a raster, or why there is none. */
  function PaletteOfRaster(raster: Raster): (r: Result<Palette>)
    ensures r.Ok? ==> ValidPalette(r.value)
  {
    match raster.legend
    case None => Err(NoLegend)
    case Some(items) => PaletteOf(items)
  }

  /** The dataset written for one raster: classify the flattened pixels,
      blank the yellow ones, reshape, and attach the coordinate axes. */
  function InstantOf(raster: Raster): Result<Instant>
    requires RectRaster(raster)
  {
    match PaletteOfRaster(raster)
    case Err(e) => Err(e)
    case Ok(pal) =>
      var rows, cols := |raster.pixels|, Width(raster.pixels);
      var flat := Flatten(raster.pixels);
      FlattenLength(raster.pixels, rows, cols);
      Ok(Instant(Reshape(Masked(ClassifyFlat(pal, flat), flat), rows, cols),
                 LatAxis(raster.transform, rows), LonAxis(raster.transform, cols)))
  }

  /** A raster decodes exactly when its palette does; the grid has the
      raster's rows and columns and the axes one entry per row and per
      column. */
  lemma InstantShape(raster: Raster)
    requires RectRaster(raster)
    ensures InstantOf(raster).Ok? <==> PaletteOfRaster(raster).Ok?
    ensures InstantOf(raster).Ok? ==>
      var inst := InstantOf(raster).value;
      IsRect(inst.precip, |raster.pixels|, Width(raster.pixels)) &&
      |inst.lat| == |raster.pixels| && |inst.lon| == Width(raster.pixels)
  {
  }

  /** The value of cell (r, c) of a decoded raster, read through the
      flattening and the reshaping. */
  lemma {:induction false} InstantCell(raster: Raster, pal: Palette, r: nat, c: nat)
    requires RectRaster(raster) && PaletteOfRaster(raster) == Ok(pal)
    requires r < |raster.pixels| && c < Width(raster.pixels)
    ensures InstantOf(raster).Ok?
    ensures |InstantOf(raster).value.precip| == |raster.pixels|
    ensures |InstantOf(raster).value.precip[r]| == Width(raster.pixels)
    ensures InstantOf(raster).value.precip[r][c] ==
      if IsYellow(raster.pixels[r][c]) then None
      else Some(pal.values[NearestIndex(pal.colors, raster.pixels[r][c])])
  {
    var rows, cols := |raster.pixels|, Width(raster.pixels);
    var flat := Flatten(raster.pixels);
    FlattenIndex(raster.pixels, rows, cols, r, c);
    var m := Masked(ClassifyFlat(pal, flat), flat);
    ReshapeIndex(m, rows, cols, r, c);
  }

  /** Every yellow pixel is missing, whatever colour it is nearest to. */
  lemma YellowIsMissing(raster: Raster, r: nat, c: nat)
    requires RectRaster(raster) && InstantOf(raster).Ok?
    requires r < |raster.pixels| && c < Width(raster.pixels)
    requires IsYellow(raster.pixels[r][c])
    ensures |InstantOf(raster).value.precip| == |raster.pixels|
    ensures |InstantOf(raster).value.precip[r]| == Width(raster.pixels)
    ensures InstantOf(raster).value.precip[r][c].None?
  {
    InstantCell(raster, PaletteOfRaster(raster).value, r, c);
  }

  /** Every other pixel carries the value of a palette entry at minimal
      colour distance from it, never NaN. */
  lemma NonYellowIsNearest(raster: Raster, r: nat, c: nat)
    requires RectRaster(raster) && InstantOf(raster).Ok?
    requires r < |raster.pixels| && c < Width(raster.pixels)
    requires !IsYellow(raster.pixels[r][c])
    ensures |InstantOf(raster).value.precip| == |raster.pixels|
    ensures |InstantOf(raster).value.precip[r]| == Width(raster.pixels)
    ensures
      var pal := PaletteOfRaster(raster).value;
      var p := raster.pixels[r][c];
      exists k :: 0 <= k < |pal.colors| &&
        InstantOf(raster).value.precip[r][c] == Some(pal.values[k]) &&
        forall j :: 0 <= j < |pal.colors| ==> Dist2(pal.colors[k], p) <= Dist2(pal.colors[j], p)
  {
    var pal := PaletteOfRaster(raster).value;
    InstantCell(raster, pal, r, c);
    var k := NearestIndex(pal.colors, raster.pixels[r][c]);
    assert InstantOf(raster).value.precip[r][c] == Some(pal.values[k]);
  }

  /** A non-yellow pixel that equals a palette colour gets the value of an
      entry of exactly that colour. */
  lemma ExactColourKeepsValue(raster: Raster, r: nat, c: nat, j: nat)
    requires RectRaster(raster) && InstantOf(raster).Ok?
    requires r < |raster.pixels| && c < Width(raster.pixels)
    requires !IsYellow(raster.pixels[r][c])
    requires j < |PaletteOfRaster(raster).value.colors|
    requires PaletteOfRaster(raster).value.colors[j] == raster.pixels[r][c]
    ensures |InstantOf(raster).value.precip| == |raster.pixels|
    ensures |InstantOf(raster).value.precip[r]| == Width(raster.pixels)
    ensures
      var pal := PaletteOfRaster(raster).value;
      exists k :: 0 <= k < |pal.colors| && pal.colors[k] == raster.pixels[r][c] &&
        InstantOf(raster).value.precip[r][c] == Some(pal.values[k])
  {
    var pal := PaletteOfRaster(raster).value;
    InstantCell(raster, pal, r, c);
    var k := NearestIndex(pal.colors, raster.pixels[r][c]);
    ExactColourMatch(pal.colors, raster.pixels[r][c], j);
    assert pal.colors[k] == raster.pixels[r][c];
  }

  /** The body of the `with rasterio.open(...)` block for one file. */
  method BuildInstant(raster: Raster) returns (r: Result<Instant>)
    requires RectRaster(raster)
    ensures r == InstantOf(raster)
  {
    if raster.legend.None? {
      return Err(NoLegend);
    }
    var pal := BuildPalette(raster.legend.value);
    if pal.Err? {
      return Err(pal.error);
    }
    var palette := pal.value;
    var rows, cols := |raster.pixels|, Width(raster.pixels);
    var flat := Flatten(raster.pixels);
    FlattenLength(raster.pixels, rows, cols);
    var classified := ClassifyFlat(palette, flat);
    var data := new Cell[|flat|](i requires 0 <= i < |flat| => classified[i]);
    assert data[..] == classified;
    MaskYellow(data, flat);
    var precip := Reshape(data[..], rows, cols);
    r := Ok(Instant(precip, LatAxis(raster.transform, rows), LonAxis(raster.transform, cols)));
  }

  // ---------------------------------------------------------------------
  // The skip-if-exists loop over the listing
  // ---------------------------------------------------------------------

  /** `tiff_file.with_suffix(".nc")` */
  function NcName(tiff: string): (nc: string)
    ensures EndsWith(nc, ".nc")
  {
    WithSuffix(tiff, ".nc")
  }

  /** The listing names files of the store whose bands are rectangular. */
  predicate Listed(s: Store, tiffs: seq<string>)
  {
    forall i :: 0 <= i < |tiffs| ==> tiffs[i] in s.tiffs && RectRaster(s.tiffs[tiffs[i]])
  }

  /** One run over the listing: the new store, and whether the run got to
      the end (a raster that cannot be decoded raises and ends the run,
      keeping what was written before it). */
  function TiffPass(s: Store, tiffs: seq<string>): (Store, bool)
    requires Listed(s, tiffs)
    decreases |tiffs|
  {
    if |tiffs| == 0 then (s, true)
    else
      var nc := NcName(tiffs[0]);
      if Exists(s, nc) then TiffPass(s, tiffs[1..])
      else
        match InstantOf(s.tiffs[tiffs[0]])
        case Err(_) => (s, false)
        case Ok(inst) => TiffPass(s.(ncs := s.ncs[nc := SixHour(inst)]), tiffs[1..])
  }

  /** The loop of the script over its sorted listing. */
  method ConvertTiffs(s: Store, tiffs: seq<string>) returns (s': Store, completed: bool)
    requires Listed(s, tiffs)
    ensures (s', completed) == TiffPass(s, tiffs)
  {
    s' := s;
    var i := 0;
    while i < |tiffs|
      invariant 0 <= i <= |tiffs|
      invariant s'.tiffs == s.tiffs
      invariant Listed(s', tiffs[i..])
      invariant TiffPass(s', tiffs[i..]) == TiffPass(s, tiffs)
    {
      var tiff := tiffs[i];
      var nc := NcName(tiff);
      assert tiffs[i..][1..] == tiffs[i + 1..];
      if Exists(s', nc) {
        i := i + 1;
        continue;
      }
      var inst := BuildInstant(s'.tiffs[tiff]);
      if inst.Err? {
        return s', false;
      }
      s' := s'.(ncs := s'.ncs[nc := SixHour(inst.value)]);
      i := i + 1;
    }
    completed := true;
  }

  /** A run never touches a `.tif` nor an existing `.nc`; every `.nc` it
      adds belongs to a listed tiff and holds that tiff's decoded instant. */
  lemma {:induction false} TiffPassFrame(s: Store, tiffs: seq<string>)
    requires Listed(s, tiffs)
    ensures TiffPass(s, tiffs).0.tiffs == s.tiffs
    ensures forall n :: n in s.ncs ==> n in TiffPass(s, tiffs).0.ncs && TiffPass(s, tiffs).0.ncs[n] == s.ncs[n]
    ensures forall n :: n in TiffPass(s, tiffs).0.ncs && n !in s.ncs ==>
      exists i :: 0 <= i < |tiffs| && n == NcName(tiffs[i]) && InstantOf(s.tiffs[tiffs[i]]).Ok? &&
        TiffPass(s, tiffs).0.ncs[n] == SixHour(InstantOf(s.tiffs[tiffs[i]]).value)
    decreases |tiffs|
  {
    if |tiffs| > 0 {
      var nc := NcName(tiffs[0]);
      var rest := tiffs[1..];
      if Exists(s, nc) {
        TiffPassFrame(s, rest);
        forall n | n in TiffPass(s, tiffs).0.ncs && n !in s.ncs
          ensures exists i :: (0 <= i < |tiffs| && n == NcName(tiffs[i]) && InstantOf(s.tiffs[tiffs[i]]).Ok? &&
            TiffPass(s, tiffs).0.ncs[n] == SixHour(InstantOf(s.tiffs[tiffs[i]]).value))
        {
          var i :| 0 <= i < |rest| && n == NcName(rest[i]) && InstantOf(s.tiffs[rest[i]]).Ok? &&
            TiffPass(s, rest).0.ncs[n] == SixHour(InstantOf(s.tiffs[rest[i]]).value);
          assert rest[i] == tiffs[i + 1];
        }
      } else if InstantOf(s.tiffs[tiffs[0]]).Ok? {
        var inst := InstantOf(s.tiffs[tiffs[0]]).value;
        var s1 := s.(ncs := s.ncs[nc := SixHour(inst)]);
        TiffPassFrame(s1, rest);
        forall n | n in TiffPass(s, tiffs).0.ncs && n !in s.ncs
          ensures exists i :: (0 <= i < |tiffs| && n == NcName(tiffs[i]) && InstantOf(s.tiffs[tiffs[i]]).Ok? &&
            TiffPass(s, tiffs).0.ncs[n] == SixHour(InstantOf(s.tiffs[tiffs[i]]).value))
        {
          if n == nc {
            assert TiffPass(s, tiffs).0.ncs[n] == SixHour(inst);
          } else {
            var i :| 0 <= i < |rest| && n == NcName(rest[i]) && InstantOf(s1.tiffs[rest[i]]).Ok? &&
              TiffPass(s1, rest).0.ncs[n] == SixHour(InstantOf(s1.tiffs[rest[i]]).value);
            assert rest[i] == tiffs[i + 1];
          }
        }
      }
    }
  }

  /** A run that reaches the end leaves a `.nc` beside every listed tiff. */
  lemma {:induction false} TiffPassCovers(s: Store, tiffs: seq<string>)
    requires Listed(s, tiffs)
    requires TiffPass(s, tiffs).1
    ensures forall i :: 0 <= i < |tiffs| ==> Exists(TiffPass(s, tiffs).0, NcName(tiffs[i]))
    decreases |tiffs|
  {
    if |tiffs| > 0 {
      var nc := NcName(tiffs[0]);
      var rest := tiffs[1..];
      var s1 := if Exists(s, nc) then s else s.(ncs := s.ncs[nc := SixHour(InstantOf(s.tiffs[tiffs[0]]).value)]);
      assert TiffPass(s, tiffs) == TiffPass(s1, rest);
      TiffPassCovers(s1, rest);
      TiffPassFrame(s1, rest);
      assert Exists(s1, nc);
      forall i | 1 <= i < |tiffs| ensures Exists(TiffPass(s, tiffs).0, NcName(tiffs[i])) {
        assert tiffs[i] == rest[i - 1];
      }
    }
  }

  /** When every listed tiff already has its `.nc`, a run writes nothing. */
  lemma {:induction false} TiffPassNoop(s: Store, tiffs: seq<string>)
    requires Listed(s, tiffs)
    requires forall i :: 0 <= i < |tiffs| ==> Exists(s, NcName(tiffs[i]))
    ensures TiffPass(s, tiffs) == (s, true)
    decreases |tiffs|
  {
    if |tiffs| > 0 {
      assert Exists(s, NcName(tiffs[0]));
      TiffPassNoop(s, tiffs[1..]);
    }
  }

  /** Running the script a second time over the same listing changes
      nothing. */
  lemma TiffPassIdempotent(s: Store, tiffs: seq<string>)
    requires Listed(s, tiffs)
    requires TiffPass(s, tiffs).1
    ensures Listed(TiffPass(s, tiffs).0, tiffs)
    ensures TiffPass(TiffPass(s, tiffs).0, tiffs) == (TiffPass(s, tiffs).0, true)
  {
    TiffPassFrame(s, tiffs);
    TiffPassCovers(s, tiffs);
    TiffPassNoop(TiffPass(s, tiffs).0, tiffs);
  }

  /** Running the script a second time over the same listing gives what the
      first run gave, whether or not the first run got to the end: the run
      stops again at the same undecodable raster, and every `.nc` the first
      run wrote is skipped. */
  lemma {:induction false} TiffPassRerun(s: Store, tiffs: seq<string>)
    requires Listed(s, tiffs)
    ensures Listed(TiffPass(s, tiffs).0, tiffs)
    ensures TiffPass(TiffPass(s, tiffs).0, tiffs) == TiffPass(s, tiffs)
    decreases |tiffs|
  {
    if |tiffs| > 0 {
      var nc := NcName(tiffs[0]);
      var rest := tiffs[1..];
      if Exists(s, nc) {
        TiffPassRerun(s, rest);
        TiffPassFrame(s, rest);
        assert Exists(TiffPass(s, tiffs).0, nc);
      } else if InstantOf(s.tiffs[tiffs[0]]).Ok? {
        var s1 := s.(ncs := s.ncs[nc := SixHour(InstantOf(s.tiffs[tiffs[0]]).value)]);
        TiffPassRerun(s1, rest);
        TiffPassFrame(s1, rest);
        assert Exists(TiffPass(s, tiffs).0, nc);
      }
    }
  }
}
