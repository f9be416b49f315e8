/**
 * `resizeImage` of images_resizer.go: the output canvas is allocated at
 * floor(W*f) x floor(H*f); every source pixel (j, i) is visited row by row,
 * its clamped 2x2 neighbourhood is averaged and the result is stored at
 * (floor(j*f), floor(i*f)). Writes outside the canvas are dropped and a later
 * write to a cell replaces an earlier one.
 *
 * The factor f is the rational num/den with 0 < num < den, and the source's
 * `int(float64(k) * factor)` is the exact floor (k * num) / den.
 */
module Resizer {
  import opened Wrappers
  import opened Sampler

  /**
   * A decoded source image as a grid of 16-bit samples, `pix[y][x]`,
   * with its bounds starting at (0, 0).
   */
  datatype Image16 = Image16(width: nat, height: nat, pix: seq<seq<Color16>>)
  {
    ghost predicate Valid()
    {
      |pix| == height && forall y :: 0 <= y < height ==> |pix[y]| == width
    }

    /**
     * `img.At`: the pixel at p. Outside the bounds the result depends on the
     * decoded image type; `resizeImage` never reads there
     * (NeighbourhoodInBounds), so a zero colour stands in for it.
     */
    function At(p: (int, int)): Color16
      requires Valid()
    {
      if 0 <= p.0 < width && 0 <= p.1 < height then pix[p.1][p.0] else Color16(0, 0, 0, 0)
    }
  }

  /** `int(float64(k) * factor)` for factor == num / den. */
  function Scale(k: nat, num: nat, den: nat): nat
    requires den > 0
  {
    k * num / den
  }

  /** The forward map is the floor of k * num / den. */
  lemma ScaleIsFloor(k: nat, num: nat, den: nat)
    requires den > 0
    ensures Scale(k, num, den) * den <= k * num < (Scale(k, num, den) + 1) * den
  {
    assert k * num == (k * num / den) * den + k * num % den;
  }

  /** The colour `resizeImage` computes when it visits source pixel (j, i). */
  function Sample(img: Image16, j: int, i: int): Color8
    requires img.Valid()
  {
    var w, h := img.width, img.height;
    Average2x2(img.At(Clamp(j, i, w, h)), img.At(Clamp(j + 1, i, w, h)),
               img.At(Clamp(j, i + 1, w, h)), img.At(Clamp(j + 1, i + 1, w, h)))
  }

  /** The last k < n that the forward map sends to x, if there is one. */
  function LastPreimage(x: nat, n: nat, num: nat, den: nat): (r: Option<nat>)
    requires den > 0
    ensures r.Some? ==> r.value < n && Scale(r.value, num, den) == x
    ensures r.Some? ==> forall k :: r.value < k < n ==> Scale(k, num, den) != x
    ensures r.None? ==> forall k :: 0 <= k < n ==> Scale(k, num, den) != x
  {
    if n == 0 then None
    else if Scale(n - 1, num, den) == x then Some(n - 1)
    else LastPreimage(x, n - 1, num, den)
  }

  /**
   * Output cell (x, y) once the rows 0..rows-1 have been visited: the
   * sample of the last visited source pixel that maps to it, or the zero
   * colour if none does.
   */
  function CellAfterRows(img: Image16, num: nat, den: nat, rows: nat, x: nat, y: nat): Color8
    requires img.Valid() && den > 0
  {
    match (LastPreimage(x, img.width, num, den), LastPreimage(y, rows, num, den))
    case (Some(j), Some(i)) => Sample(img, j, i)
    case _ => Transparent
  }

  /** Output cell (x, y) of the finished image. */
  function ResizedPixel(img: Image16, num: nat, den: nat, x: nat, y: nat): Color8
    requires img.Valid() && den > 0
  {
    CellAfterRows(img, num, den, img.height, x, y)
  }

  /** Output cell (x, y) while row i is being visited and its columns 0..cols-1 are done. */
  function CellInRow(img: Image16, num: nat, den: nat, i: nat, cols: nat, x: nat, y: nat): Color8
    requires img.Valid() && den > 0
  {
    var last := LastPreimage(x, cols, num, den);
    if y == Scale(i, num, den) && last.Some? then Sample(img, last.value, i)
    else CellAfterRows(img, num, den, i, x, y)
  }

  /** Visiting (j, i) changes only the cell it maps to, which then holds Sample(img, j, i). */
  lemma CellInRowStep(img: Image16, num: nat, den: nat, i: nat, j: nat, x: nat, y: nat)
    requires img.Valid() && den > 0
    ensures CellInRow(img, num, den, i, j + 1, x, y) ==
              if x == Scale(j, num, den) && y == Scale(i, num, den) then Sample(img, j, i)
              else CellInRow(img, num, den, i, j, x, y)
  {
  }

  /** Once row i has been visited in full, the cells are those after rows 0..i. */
  lemma CellInRowDone(img: Image16, num: nat, den: nat, i: nat, x: nat, y: nat)
    requires img.Valid() && den > 0 && i < img.height
    ensures CellInRow(img, num, den, i, img.width, x, y) == CellAfterRows(img, num, den, i + 1, x, y)
  {
  }

  /**
   * `resizeImage`: the new canvas has the scaled dimensions (height first:
   * `out[y, x]`) and every cell holds the sample of the last source pixel,
   * in row-major order, that the forward map sends to it.
   */
  method ResizeImage(img: Image16, num: nat, den: nat) returns (out: array2<Color8>)
    requires img.Valid() && 0 < num < den
    ensures fresh(out)
    ensures out.Length0 == Scale(img.height, num, den) && out.Length1 == Scale(img.width, num, den)
    ensures forall y, x :: 0 <= y < out.Length0 && 0 <= x < out.Length1 ==>
              out[y, x] == ResizedPixel(img, num, den, x, y)
  {
    var outW, outH := Scale(img.width, num, den), Scale(img.height, num, den);
    out := new Color8[outH, outW]((_, _) => Transparent);
    var i := 0;
    while i < img.height
      invariant 0 <= i <= img.height
      invariant forall y, x :: 0 <= y < outH && 0 <= x < outW ==>
                  out[y, x] == CellAfterRows(img, num, den, i, x, y)
    {
      ResizeRow(img, num, den, i, out);
      i := i + 1;
    }
  }

  /** The inner `for j` loop of `resizeImage`: visits row i of the source. */
  method ResizeRow(img: Image16, num: nat, den: nat, i: nat, out: array2<Color8>)
    requires img.Valid() && 0 < num < den && i < img.height
    requires out.Length0 == Scale(img.height, num, den) && out.Length1 == Scale(img.width, num, den)
    requires forall y, x :: 0 <= y < out.Length0 && 0 <= x < out.Length1 ==>
               out[y, x] == CellAfterRows(img, num, den, i, x, y)
    modifies out
    ensures forall y, x :: 0 <= y < out.Length0 && 0 <= x < out.Length1 ==>
              out[y, x] == CellAfterRows(img, num, den, i + 1, x, y)
  {
    var w, h := img.width, img.height;
    var outW, outH := out.Length1, out.Length0;
    var j := 0;
    while j < w
      invariant 0 <= j <= w
      invariant forall y, x :: 0 <= y < outH && 0 <= x < outW ==>
                  out[y, x] == CellInRow(img, num, den, i, j, x, y)
    {
      var x, y := Scale(j, num, den), Scale(i, num, den);
      var c := Average2x2(img.At(Clamp(j, i, w, h)), img.At(Clamp(j + 1, i, w, h)),
                          img.At(Clamp(j, i + 1, w, h)), img.At(Clamp(j + 1, i + 1, w, h)));
      // image.RGBA.Set ignores a point outside the canvas.
      if x < outW && y < outH {
        out[y, x] := c;
      }
      forall y', x' | 0 <= y' < outH && 0 <= x' < outW
        ensures out[y', x'] == CellInRow(img, num, den, i, j + 1, x', y')
      {
        CellInRowStep(img, num, den, i, j, x', y');
      }
      j := j + 1;
    }
    forall y', x' | 0 <= y' < outH && 0 <= x' < outW
      ensures out[y', x'] == CellAfterRows(img, num, den, i + 1, x', y')
    {
      CellInRowDone(img, num, den, i, x', y');
    }
  }

  lemma MulAtLeast(m: int, d: int)
    requires m >= 1 && d > 0
    ensures m * d >= d
  {
    assert m * d == (m - 1) * d + d;
  }

  /** Euclidean division is determined by the quotient-remainder decomposition. */
  lemma DivUnique(a: int, d: int, q: int, r: int)
    requires d > 0 && a == q * d + r && 0 <= r < d
    ensures a / d == q
  {
    var q', r' := a / d, a % d;
    assert a == q' * d + r';
    assert (q - q') * d == r' - r;
    if q - q' >= 1 {
      MulAtLeast(q - q', d);
    } else if q' - q >= 1 {
      MulAtLeast(q' - q, d);
    }
  }

  /** Moving one source pixel along moves the forward map by zero or one cells. */
  lemma ScaleStep(k: nat, num: nat, den: nat)
    requires 0 < num < den
    ensures Scale(k, num, den) <= Scale(k + 1, num, den) <= Scale(k, num, den) + 1
  {
    var a, q := k * num, k * num / den;
    var r := a - q * den;
    assert a == q * den + a % den;
    assert (k + 1) * num == a + num;
    if r + num < den {
      DivUnique(a + num, den, q, r + num);
    } else {
      DivUnique(a + num, den, q + 1, r + num - den);
    }
  }

  /** The forward map is monotone. */
  lemma {:induction false} ScaleMonotone(j: nat, k: nat, num: nat, den: nat)
    requires 0 < num < den && j <= k
    ensures Scale(j, num, den) <= Scale(k, num, den)
    decreases k - j
  {
    if j < k {
      ScaleStep(j, num, den);
      ScaleMonotone(j + 1, k, num, den);
    }
  }

  /** The scaled size of an axis is smaller than the axis whenever the axis is non-empty. */
  lemma {:induction false} ScaleShrinks(n: nat, num: nat, den: nat)
    requires 0 < num < den
    ensures Scale(n, num, den) <= n
    ensures n > 0 ==> Scale(n, num, den) < n
  {
    if n > 0 {
      assert n * num < n * den;
    }
  }

  /**
   * No cell of the canvas is left unwritten: every x below the scaled size
   * is the image of some source coordinate below the axis length.
   */
  lemma {:induction false} EveryCellReached(x: nat, n: nat, num: nat, den: nat)
    requires 0 < num < den && x < Scale(n, num, den)
    ensures LastPreimage(x, n, num, den).Some?
  {
    if n > 0 && Scale(n - 1, num, den) != x {
      ScaleStep(n - 1, num, den);
      EveryCellReached(x, n - 1, num, den);
    }
  }

  /**
   * Every forward-mapped coordinate lands at most one cell past the canvas:
   * a write is dropped only at x == floor(W*f) (or y == floor(H*f)).
   */
  lemma ForwardMapBound(j: nat, n: nat, num: nat, den: nat)
    requires 0 < num < den && j < n
    ensures Scale(j, num, den) <= Scale(n, num, den)
  {
    ScaleMonotone(j, n, num, den);
  }

  /** For W == 3 and f == 1/2 the last column maps to x == 1, the canvas width: that write is dropped. */
  lemma DroppedWriteExample()
    ensures Scale(3, 1, 2) == 1 && Scale(2, 1, 2) == 1
  {
  }

  /** With f == 1/2 a 4x4 image becomes 2x2 and a 2x2 image becomes 1x1. */
  lemma HalfSizeExample()
    ensures Scale(4, 1, 2) == 2 && Scale(2, 1, 2) == 1
  {
  }

  /** All four samples of (j, i) are read inside the source bounds, also in the last row and column. */
  lemma NeighbourhoodInBounds(w: int, h: int, j: int, i: int)
    requires 0 <= j < w && 0 <= i < h
    ensures var p := Clamp(j, i, w, h); 0 <= p.0 < w && 0 <= p.1 < h
    ensures var p := Clamp(j + 1, i, w, h); 0 <= p.0 < w && 0 <= p.1 < h
    ensures var p := Clamp(j, i + 1, w, h); 0 <= p.0 < w && 0 <= p.1 < h
    ensures var p := Clamp(j + 1, i + 1, w, h); 0 <= p.0 < w && 0 <= p.1 < h
  {
  }

  /**
   * The sample of (j, i) is the average of the pixels (j, i), (j+1, i),
   * (j, i+1), (j+1, i+1), where a coordinate one past the last column or row
   * is replaced by the last one.
   */
  lemma SampleReadsPixels(img: Image16, j: nat, i: nat)
    requires img.Valid() && j < img.width && i < img.height
    ensures var j', i' := if j + 1 < img.width then j + 1 else j, if i + 1 < img.height then i + 1 else i;
      Sample(img, j, i) ==
        Average2x2(img.pix[i][j], img.pix[i][j'], img.pix[i'][j], img.pix[i'][j'])
  {
    NeighbourhoodInBounds(img.width, img.height, j, i);
  }

  /** A source image of one solid colour resizes to a canvas of that colour, every cell of it. */
  lemma SolidStaysSolid(img: Image16, num: nat, den: nat, c: Color8, x: nat, y: nat)
    requires img.Valid() && 0 < num < den
    requires forall i, j :: 0 <= i < img.height && 0 <= j < img.width ==> img.pix[i][j] == Widen(c)
    requires x < Scale(img.width, num, den) && y < Scale(img.height, num, den)
    ensures ResizedPixel(img, num, den, x, y) == c
  {
    EveryCellReached(x, img.width, num, den);
    EveryCellReached(y, img.height, num, den);
    var j, i := LastPreimage(x, img.width, num, den).value, LastPreimage(y, img.height, num, den).value;
    SampleReadsPixels(img, j, i);
    AverageOfSolid(c);
  }

  /** Row-major order: a pixel in an earlier or equal row and column comes no later. */
  lemma RowMajorOrder(w: nat, j: nat, i: nat, J: nat, I: nat)
    requires j <= J && i <= I
    ensures i * w + j <= I * w + J
  {
    assert (I - i) * w >= 0;
  }

  /**
   * Later writes win: the cell that source pixel (j, i) maps to holds the
   * sample of a source pixel (J, I) that maps to the same cell and comes no
   * earlier than (j, i) in row-major order.
   */
  lemma LastWriteWins(img: Image16, num: nat, den: nat, j: nat, i: nat)
    requires img.Valid() && 0 < num < den && j < img.width && i < img.height
    ensures var x, y := Scale(j, num, den), Scale(i, num, den);
      var lx, ly := LastPreimage(x, img.width, num, den), LastPreimage(y, img.height, num, den);
      lx.Some? && ly.Some? &&
      i * img.width + j <= ly.value * img.width + lx.value &&
      ResizedPixel(img, num, den, x, y) == Sample(img, lx.value, ly.value)
  {
    var x, y := Scale(j, num, den), Scale(i, num, den);
    var lx, ly := LastPreimage(x, img.width, num, den), LastPreimage(y, img.height, num, den);
    assert lx.Some? && ly.Some?;
    RowMajorOrder(img.width, j, i, lx.value, ly.value);
  }
}
