/**
  * The image-to-ASCII rasterizer: the filename check, the size checks, the
  * aspect-ratio geometry, nearest-pixel sampling, gray-level quantization against
  * a fixed 70-character gradient, and the row-by-row assembly of the text.
  *
  * The decoded image is an `array2` indexed `[x, y]` whose first dimension is the
  * width and whose second is the height (origin (0, 0)); the conversion of a pixel
  * to its gray level is the parameter `toGray`. The source computes the geometry and
  * the sampling in float32; here they are exact `real` arithmetic, and Go's
  * float-to-int conversion is truncation toward zero (`Trunc`).
  */
module Asciify {
  import opened Wrappers
  import opened GoStrings

  /** The palette, densest glyph first and a space last (written in runs of ten). */
  const Gradient: string :=
    "$@B%8&WM#*" + "oahkbdpqwm" + "ZO0QLCJUYX" + "zcvunxrjft" + "/\\|()1{}[]" + "?-_+~<>i!l" + "I;:,\"^`'. "

  /** The accepted filename suffixes, compared after lower-casing. */
  const Extensions: seq<string> := [".png", ".jpg", ".jpeg"]

  /** An 8-bit gray level: 0 is black, 255 is white. */
  type Gray = y: int | 0 <= y < 256

  /** Why Asciify returned an error; each error comes with an empty text. */
  datatype Failure =
    | UnsupportedType   // the suffix is not .png, .jpg or .jpeg
    | ZeroMaxSize       // maxWidth or maxHeight is zero
    | OpenOrDecode      // the file could not be opened or decoded
    | EmptyImage        // the decoded image has no columns or no rows
    | ZeroOutputSize    // the planned output width or height is zero

  /** The planned output size, before truncation to whole characters. */
  datatype Plan = Plan(outWidth: real, outHeight: real)

  // ---------------------------------------------------------------------------
  // Filename check

  /** The lower-cased suffix from the last '.' on is one of the accepted ones. */
  predicate HasImageExtension(filename: string)
    requires '.' in filename
  {
    ToLower(filename[LastIndex(filename, '.')..]) in Extensions
  }

  /**
    * A name ending in a '.'-led suffix with no further '.' is accepted exactly when
    * that suffix, lower-cased, is one of the accepted ones; the stem does not matter.
    */
  lemma ExtensionAfterStem(stem: string, ext: string)
    requires |ext| > 0 && ext[0] == '.' && '.' !in ext[1..]
    ensures '.' in stem + ext
    ensures HasImageExtension(stem + ext) <==> ToLower(ext) in Extensions
  {
    assert (stem + ext)[|stem|] == '.';
    LastIndexOfTail(stem, ext, '.');
    assert (stem + ext)[|stem|..] == ext;
  }

  /** The suffix check ignores case. */
  lemma UpperCaseExtension(stem: string)
    ensures '.' in stem + ".JPEG" && HasImageExtension(stem + ".JPEG")
  {
    ExtensionAfterStem(stem, ".JPEG");
    assert ToLower(".JPEG") == ".jpeg";
  }

  /** Only the last suffix counts: a name ending in ".png.txt" is refused. */
  lemma OnlyLastSuffixCounts(stem: string)
    ensures '.' in stem + ".png.txt" && !HasImageExtension(stem + ".png.txt")
  {
    ExtensionAfterStem(stem + ".png", ".txt");
    assert stem + ".png" + ".txt" == stem + ".png.txt";
    assert ToLower(".txt") == ".txt";
  }

  // ---------------------------------------------------------------------------
  // Geometry

  /**
    * The output size for a `maxWidth` x `maxHeight` box and an image of
    * `inWidth` x `inHeight` pixels: the longer side of the image takes its box
    * bound and the other side is scaled to keep the image's proportions; a square
    * image takes the box as it is.
    */
  function Fit(maxWidth: int, maxHeight: int, inWidth: nat, inHeight: nat): (p: Plan)
    requires inWidth >= 1 && inHeight >= 1
    ensures inWidth > inHeight ==> p.outWidth == maxWidth as real
    ensures inHeight > inWidth ==> p.outHeight == maxHeight as real
    ensures inWidth != inHeight ==>
      p.outWidth * inHeight as real == p.outHeight * inWidth as real
    ensures inWidth == inHeight ==> p == Plan(maxWidth as real, maxHeight as real)
  {
    var w, h := maxWidth as real, maxHeight as real;
    if inWidth > inHeight then Plan(w, w / inWidth as real * inHeight as real)
    else if inHeight > inWidth then Plan(h / inHeight as real * inWidth as real, h)
    else Plan(w, h)
  }

  /** With non-zero bounds the planned size is never zero, so the zero-size check after planning cannot fire. */
  lemma FitNonZero(maxWidth: int, maxHeight: int, inWidth: nat, inHeight: nat)
    requires inWidth >= 1 && inHeight >= 1
    requires maxWidth != 0 && maxHeight != 0
    ensures Fit(maxWidth, maxHeight, inWidth, inHeight).outWidth != 0.0
    ensures Fit(maxWidth, maxHeight, inWidth, inHeight).outHeight != 0.0
  {
    var p := Fit(maxWidth, maxHeight, inWidth, inHeight);
    if inWidth > inHeight {
      assert p.outHeight * inWidth as real == maxWidth as real * inHeight as real;
    } else if inHeight > inWidth {
      assert p.outWidth * inHeight as real == maxHeight as real * inWidth as real;
    }
  }

  /** Go's int(f): truncation toward zero. */
  function Trunc(r: real): (i: int)
    ensures 0.0 <= r ==> 0 <= i && i as real <= r < i as real + 1.0
    ensures r < 0.0 ==> i <= 0 && i as real - 1.0 < r <= i as real
  {
    if r >= 0.0 then r.Floor else -((-r).Floor)
  }

  /** A loop `for i := 0; i < n; i++` runs this many times. */
  function Count(n: int): nat
  {
    if n < 0 then 0 else n
  }

  /** The number of characters per row. */
  function Cols(p: Plan): nat
  {
    Count(Trunc(p.outWidth))
  }

  /** The number of rows. */
  function Rows(p: Plan): nat
  {
    Count(Trunc(p.outHeight))
  }

  /**
    * For a positive bound on the image's longer side, that side gets exactly the
    * bound in characters and the other side strictly fewer.
    */
  lemma LongerSideTakesBound(maxWidth: int, maxHeight: int, inWidth: nat, inHeight: nat)
    requires inWidth >= 1 && inHeight >= 1
    ensures inWidth > inHeight && maxWidth > 0 ==>
      Cols(Fit(maxWidth, maxHeight, inWidth, inHeight)) == maxWidth &&
      Rows(Fit(maxWidth, maxHeight, inWidth, inHeight)) < maxWidth
    ensures inHeight > inWidth && maxHeight > 0 ==>
      Rows(Fit(maxWidth, maxHeight, inWidth, inHeight)) == maxHeight &&
      Cols(Fit(maxWidth, maxHeight, inWidth, inHeight)) < maxHeight
  {
    var p := Fit(maxWidth, maxHeight, inWidth, inHeight);
    if inWidth > inHeight && maxWidth > 0 {
      ProportionBelow(p.outHeight, maxWidth as real, inHeight as real, inWidth as real);
    }
    if inHeight > inWidth && maxHeight > 0 {
      ProportionBelow(p.outWidth, maxHeight as real, inWidth as real, inHeight as real);
    }
  }

  /**
    * A wide image fills the box width and gets as many rows as its proportions give,
    * whatever `maxHeight` is: 100 x 99 pixels in a 60 x 30 box give 59 rows.
    */
  lemma WideImageIgnoresMaxHeight()
    ensures Fit(60, 30, 100, 99) == Plan(60.0, 59.4)
    ensures Cols(Fit(60, 30, 100, 99)) == 60 && Rows(Fit(60, 30, 100, 99)) == 59
  {
    var p := Fit(60, 30, 100, 99);
    assert p.outHeight * 100.0 == 60.0 * 99.0;
  }

  /** A very wide image can plan fewer than one row: it then renders as no rows at all. */
  lemma ThinImageHasNoRows()
    ensures Fit(60, 30, 1000, 1).outHeight == 0.06
    ensures Rows(Fit(60, 30, 1000, 1)) == 0
  {
    var p := Fit(60, 30, 1000, 1);
    assert p.outHeight * 1000.0 == 60.0;
  }

  // ---------------------------------------------------------------------------
  // Sampling

  /**
    * The source coordinate sampled for output coordinate `i` along an axis with
    * `size` pixels planned at `out` characters.
    */
  function Sample(i: nat, out: real, size: nat): (s: int)
    requires i < Trunc(out) && size >= 1
    ensures 0 <= s < size
  {
    var q := i as real / out;
    QuotientBelowOne(i as real, out);
    ScaleLe(0.0, q, size as real);
    ScaleLt(q, 1.0, size as real);
    var r := q * size as real;
    assert 0.0 <= r < size as real;
    Trunc(r)
  }

  /** Sampling never moves backwards: a later cell never samples an earlier pixel. */
  lemma SampleMonotone(i: nat, j: nat, out: real, size: nat)
    requires i <= j < Trunc(out) && size >= 1
    ensures Sample(i, out, size) <= Sample(j, out, size)
  {
    var qi, qj := i as real / out, j as real / out;
    QuotientMonotone(i as real, j as real, out);
    ScaleLe(qi, qj, size as real);
    TruncMonotone(qi * size as real, qj * size as real);
  }

  // ---------------------------------------------------------------------------
  // Quantization

  /** The gradient index of gray level `y`: the source's `y * (70 / 256)` truncated. */
  function Level(y: Gray): (i: nat)
    ensures i < |Gradient|
  {
    y * |Gradient| / 256
  }

  /**
    * The source computes the index as float32(y) * (70 / 256), truncated. 70/256
    * is 35/128, a float32 value, and the product needs at most 14 bits, so the
    * float32 result is this exact real; its truncation is `Level`.
    */
  lemma LevelIsScaledGray(y: Gray)
    ensures Level(y) == Trunc(y as real * (|Gradient| as real / 256.0))
    ensures Level(y) == y * 35 / 128
  {
    assert |Gradient| == 70;
    var r := y as real * (70.0 / 256.0);
    var i := Level(y);
    assert i * 256 <= y * 70 < (i + 1) * 256;
    assert i as real <= r < i as real + 1.0;
  }

  /** Darker pixels never map to sparser glyphs. */
  lemma LevelMonotone(y1: Gray, y2: Gray)
    requires y1 <= y2
    ensures Level(y1) <= Level(y2)
  {
    assert |Gradient| == 70;
    assert y1 * 70 <= y2 * 70;
  }

  /** Black maps to the densest glyph '$' and white to the last one, a space. */
  lemma LevelEnds()
    ensures Level(0) == 0 && Gradient[Level(0)] == '$'
    ensures Level(255) == |Gradient| - 1 && Gradient[Level(255)] == ' '
  {
    assert |Gradient| == 70;
    assert Level(0) == 0 * 70 / 256 == 0;
    assert Level(255) == 255 * 70 / 256 == 69;
  }

  // ---------------------------------------------------------------------------
  // Rendering

  /** The glyph for output cell (x, y): the gradient entry of the sampled pixel's gray level. */
  function Cell<Color>(img: array2<Color>, toGray: Color -> Gray, p: Plan, x: nat, y: nat): (c: char)
    reads img
    requires img.Length0 >= 1 && img.Length1 >= 1
    requires x < Trunc(p.outWidth) && y < Trunc(p.outHeight)
    ensures c in Gradient
  {
    var sx := Sample(x, p.outWidth, img.Length0);
    var sy := Sample(y, p.outHeight, img.Length1);
    Gradient[Level(toGray(img[sx, sy]))]
  }

  /** The first `n` glyphs of row `y`. */
  function Cells<Color>(img: array2<Color>, toGray: Color -> Gray, p: Plan, y: nat, n: nat): (r: string)
    reads img
    requires img.Length0 >= 1 && img.Length1 >= 1
    requires n <= Cols(p) && y < Rows(p)
  {
    seq(n, x reads img requires 0 <= x < n => Cell(img, toGray, p, x, y))
  }

  /** Row `y` of the output: one glyph per column, then a newline. */
  function Row<Color>(img: array2<Color>, toGray: Color -> Gray, p: Plan, y: nat): (r: string)
    reads img
    requires img.Length0 >= 1 && img.Length1 >= 1
    requires y < Rows(p)
  {
    Cells(img, toGray, p, y, Cols(p)) + "\n"
  }

  lemma CellsStep<Color>(img: array2<Color>, toGray: Color -> Gray, p: Plan, y: nat, n: nat)
    requires img.Length0 >= 1 && img.Length1 >= 1
    requires n < Cols(p) && y < Rows(p)
    ensures Cells(img, toGray, p, y, n + 1) == Cells(img, toGray, p, y, n) + [Cell(img, toGray, p, n, y)]
  {
  }

  /** The first `n` rows of the output, in order. */
  function Rendering<Color>(img: array2<Color>, toGray: Color -> Gray, p: Plan, n: nat): (text: string)
    reads img
    requires img.Length0 >= 1 && img.Length1 >= 1
    requires n <= Rows(p)
    ensures |text| == n * (Cols(p) + 1)
  {
    if n == 0 then ""
    else
      MulSucc(n - 1, Cols(p) + 1);
      Rendering(img, toGray, p, n - 1) + Row(img, toGray, p, n - 1)
  }

  /**
    * In a rendering of `n` rows, row `y` occupies positions y * (Cols + 1) up to
    * (y + 1) * (Cols + 1): its glyphs for cells (0, y) .. (Cols - 1, y), then '\n'.
    */
  lemma {:induction false} RenderingRow<Color>(img: array2<Color>, toGray: Color -> Gray, p: Plan, n: nat, y: nat)
    requires img.Length0 >= 1 && img.Length1 >= 1
    requires y < n <= Rows(p)
    ensures (y + 1) * (Cols(p) + 1) <= |Rendering(img, toGray, p, n)|
    ensures Rendering(img, toGray, p, n)[y * (Cols(p) + 1)..(y + 1) * (Cols(p) + 1)] == Row(img, toGray, p, y)
  {
    var w := Cols(p) + 1;
    var prev := Rendering(img, toGray, p, n - 1);
    var text := Rendering(img, toGray, p, n);
    var row := Row(img, toGray, p, n - 1);
    assert text == prev + row;
    assert |prev| == (n - 1) * w;
    if y == n - 1 {
      assert y * w == |prev| && (y + 1) * w == |text|;
      assert text[|prev|..] == row;
    } else {
      RenderingRow(img, toGray, p, n - 1, y);
      MulMonotone(y + 1, n - 1, w);
      MulSucc(y, w);
      assert text[y * w..(y + 1) * w] == prev[y * w..(y + 1) * w];
    }
  }


  /** Each character of the output is the glyph of its cell, or '\n' at the end of a row. */
  lemma RenderingAt<Color>(img: array2<Color>, toGray: Color -> Gray, p: Plan, y: nat, x: nat)
    requires img.Length0 >= 1 && img.Length1 >= 1
    requires y < Rows(p) && x <= Cols(p)
    ensures y * (Cols(p) + 1) + x < |Rendering(img, toGray, p, Rows(p))|
    ensures Rendering(img, toGray, p, Rows(p))[y * (Cols(p) + 1) + x] ==
      if x == Cols(p) then '\n' else Cell(img, toGray, p, x, y)
  {
    var w := Cols(p) + 1;
    RenderingRow(img, toGray, p, Rows(p), y);
    MulSucc(y, w);
    var text := Rendering(img, toGray, p, Rows(p));
    var row := Row(img, toGray, p, y);
    SliceAt(text, y * w, w, x, row);
    if x < Cols(p) {
      assert row[x] == Cells(img, toGray, p, y, Cols(p))[x];
    }
  }

  /**
    * Only a zero bound is refused: a square image with a negative width bound and a
    * positive height bound renders as `maxHeight` empty rows.
    */
  lemma NegativeWidthGivesEmptyRows<Color>(img: array2<Color>, toGray: Color -> Gray, maxWidth: int, maxHeight: int, k: nat)
    requires img.Length0 >= 1 && img.Length0 == img.Length1
    requires maxWidth < 0 < maxHeight
    ensures var p := Fit(maxWidth, maxHeight, img.Length0, img.Length1);
      |Rendering(img, toGray, p, Rows(p))| == maxHeight &&
      (k < maxHeight ==> Rendering(img, toGray, p, Rows(p))[k] == '\n')
  {
    var p := Fit(maxWidth, maxHeight, img.Length0, img.Length1);
    assert Cols(p) == 0 && Rows(p) == maxHeight;
    if k < maxHeight {
      RenderingAt(img, toGray, p, k, 0);
    }
  }

  /** A completely black image renders every cell as '$'; a completely white one as ' '. */
  lemma UniformImage<Color>(img: array2<Color>, toGray: Color -> Gray, p: Plan, level: Gray, y: nat, x: nat)
    requires img.Length0 >= 1 && img.Length1 >= 1
    requires forall i, j :: 0 <= i < img.Length0 && 0 <= j < img.Length1 ==> toGray(img[i, j]) == level
    requires level == 0 || level == 255
    requires y < Rows(p) && x < Cols(p)
    ensures Cell(img, toGray, p, x, y) == if level == 0 then '$' else ' '
  {
    LevelEnds();
  }

  // ---------------------------------------------------------------------------
  // The rasterizer

  /**
    * Asciify: check the filename suffix and the box, take the decoded image (`None`
    * when opening or decoding the file failed), plan the output size and write the
    * rows one glyph at a time, each row ending in a newline. Every error comes with
    * an empty text.
    */
  method Asciify<Color>(filename: string, maxWidth: int, maxHeight: int,
                        decoded: Option<array2<Color>>, toGray: Color -> Gray)
    returns (text: string, err: Option<Failure>)
    requires '.' in filename
    ensures err.Some? ==> text == ""
    ensures !HasImageExtension(filename) ==> err == Some(UnsupportedType)
    ensures HasImageExtension(filename) && (maxWidth == 0 || maxHeight == 0) ==> err == Some(ZeroMaxSize)
    ensures HasImageExtension(filename) && maxWidth != 0 && maxHeight != 0 && decoded.None? ==>
      err == Some(OpenOrDecode)
    ensures HasImageExtension(filename) && maxWidth != 0 && maxHeight != 0 && decoded.Some? ==>
      var img := decoded.value;
      if img.Length0 == 0 || img.Length1 == 0 then err == Some(EmptyImage)
      else
        var p := Fit(maxWidth, maxHeight, img.Length0, img.Length1);
        err == None && text == Rendering(img, toGray, p, Rows(p))
  {
    if !HasImageExtension(filename) {
      return "", Some(UnsupportedType);
    }
    if maxWidth == 0 || maxHeight == 0 {
      return "", Some(ZeroMaxSize);
    }
    if decoded.None? {
      return "", Some(OpenOrDecode);
    }
    var img := decoded.value;
    var inWidth, inHeight := img.Length0, img.Length1;
    if inWidth < 1 || inHeight < 1 {
      return "", Some(EmptyImage);
    }
    var p := Fit(maxWidth, maxHeight, inWidth, inHeight);
    var outWidth, outHeight := p.outWidth, p.outHeight;
    FitNonZero(maxWidth, maxHeight, inWidth, inHeight);
    if outWidth == 0.0 || outHeight == 0.0 {
      return "", Some(ZeroOutputSize);
    }

    text, err := "", None;
    var xMax, yMax := Trunc(outWidth), Trunc(outHeight);
    var y := 0;
    while y < yMax
      invariant 0 <= y <= Rows(p)
      invariant text == Rendering(img, toGray, p, y)
    {
      var x := 0;
      while x < xMax
        invariant 0 <= x <= Cols(p)
        invariant text == Rendering(img, toGray, p, y) + Cells(img, toGray, p, y, x)
      {
        var sx := Sample(x, outWidth, inWidth);
        var sy := Sample(y, outHeight, inHeight);
        text := text + [Gradient[Level(toGray(img[sx, sy]))]];
        CellsStep(img, toGray, p, y, x);
        x := x + 1;
      }
      assert x == Cols(p);
      assert Rendering(img, toGray, p, y + 1) == Rendering(img, toGray, p, y) + Row(img, toGray, p, y);
      text := text + "\n";
      y := y + 1;
    }
  }

  // ---------------------------------------------------------------------------
  // Arithmetic steps, each stated on its own so that its proof sees only its facts

  /** The `x`-th character of a slice of length `w` starting at `lo`. */
  lemma SliceAt(text: string, lo: nat, w: nat, x: nat, row: string)
    requires lo + w <= |text| && x < w && text[lo..lo + w] == row
    ensures text[lo + x] == row[x]
  {
  }

  lemma MulSucc(a: nat, w: nat)
    ensures (a + 1) * w == a * w + w
  {
  }

  lemma MulMonotone(a: nat, b: nat, w: nat)
    requires a <= b
    ensures a * w <= b * w
  {
  }

  lemma ScaleLe(a: real, b: real, c: real)
    requires a <= b && 0.0 <= c
    ensures a * c <= b * c
  {
  }

  lemma ScaleLt(a: real, b: real, c: real)
    requires a < b && 0.0 < c
    ensures a * c < b * c
  {
  }

  /** A non-negative amount below `b`, divided by `b`, lies in [0, 1). */
  lemma QuotientBelowOne(a: real, b: real)
    requires 0.0 <= a < b
    ensures 0.0 <= a / b < 1.0
  {
    var q := a / b;
    assert q * b == a;
    if q >= 1.0 {
      ScaleLe(1.0, q, b);
    }
  }

  /** Division by a positive number keeps the order. */
  lemma QuotientMonotone(a: real, a2: real, b: real)
    requires 0.0 <= a <= a2 && 0.0 < b
    ensures 0.0 <= a / b <= a2 / b
  {
    var q, q2 := a / b, a2 / b;
    assert q * b == a && q2 * b == a2;
    if q > q2 {
      ScaleLt(q2, q, b);
    }
    if q < 0.0 {
      ScaleLt(q, 0.0, b);
    }
  }

  /** If a * w == m * h with 0 < m and 0 <= h < w, then a < m. */
  lemma ProportionBelow(a: real, m: real, h: real, w: real)
    requires a * w == m * h && 0.0 < m && 0.0 <= h < w
    ensures a < m
  {
    if a >= m {
      ScaleLe(m, a, w);
      ScaleLt(h, w, m);
    }
  }

  lemma TruncMonotone(a: real, b: real)
    requires 0.0 <= a <= b
    ensures Trunc(a) <= Trunc(b)
  {
  }
}
