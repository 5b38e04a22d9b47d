/** The entities the three scripts share: the raster a download saves, the
    six-hour and 24-hour grids, and the `data` directory they all live in.
    Precipitation values are exact reals; `None` stands for NaN. */
module DataDir {

  datatype Option<T> = None | Some(value: T)

  /** One pixel of the three colour bands (bands 1, 2, 3 of the GeoTIFF). */
  datatype Pixel = Pixel(r: int, g: int, b: int)

  /** One entry of the "Lista RGBA" list in the ESCALA tag, already parsed:
      its RGBA components and its two "Valores" bounds; an upper bound
      written as the empty string is `None`. */
  datatype LegendItem = LegendItem(rgba: seq<real>, lo: real, hi: Option<real>)

  /** A pixel-to-geographic affine transform, x = a*col + b*row + c and
      y = d*col + e*row + f, as rasterio stores it. */
  datatype Affine = Affine(a: real, b: real, c: real, d: real, e: real, f: real)

  /** A downloaded GeoTIFF: its pixels by row and column, its legend (`None`
      when the ESCALA tag is missing or cannot be parsed) and its transform. */
  datatype Raster = Raster(pixels: seq<seq<Pixel>>, legend: Option<seq<LegendItem>>, transform: Affine)

  /** A grid cell in millimetres; `None` is NaN. */
  type Cell = Option<real>

  /** A grid of cells by row (latitude) and column (longitude). */
  type Grid = seq<seq<Cell>>

  /** A six-hour `precipitation_mm` grid with its pixel-centre coordinates. */
  datatype Instant = Instant(precip: Grid, lat: seq<real>, lon: seq<real>)

  /** What a `.nc` file holds: a six-hour instant, or a 24-hour total with
      the coordinates it keeps from its inputs. */
  datatype NcFile = SixHour(instant: Instant) | Daily(precip24h: Grid, lat: seq<real>, lon: seq<real>)

  /** The `data` directory: the `.tif` files and the `.nc` files, by name. */
  datatype Store = Store(tiffs: map<string, Raster>, ncs: map<string, NcFile>)

  /** `(DATA_DIR / name).exists()` */
  predicate Exists(s: Store, name: string)
  {
    name in s.tiffs || name in s.ncs
  }

  /** Number of columns of a grid, read from its first row. */
  function Width<T>(g: seq<seq<T>>): nat
  {
    if |g| == 0 then 0 else |g[0]|
  }

  /** `g` has `rows` rows of `cols` entries each. */
  predicate IsRect<T>(g: seq<seq<T>>, rows: nat, cols: nat)
  {
    |g| == rows && forall r :: 0 <= r < rows ==> |g[r]| == cols
  }

  /** The three bands of a GeoTIFF have one shape, so its pixel grid is
      rectangular. */
  predicate RectRaster(raster: Raster)
  {
    IsRect(raster.pixels, |raster.pixels|, Width(raster.pixels))
  }
}
