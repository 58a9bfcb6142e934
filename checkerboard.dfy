/**
 * The checkerboard texture that the texture sample generates on the CPU before
 * uploading it: an RGBA8 image, `width * 4` bytes per row, whose pixels are
 * black or white by the parity of their cell column and cell row.
 */
module Checkerboard {
  import opened Common

  /** The byte pitches and cell sizes the generator derives from the dimensions. */
  datatype Layout = Layout(rowPitch: nat, cellPitch: nat, cellHeight: nat, textureSize: nat)
  {
    /** Every divisor the generator uses is non-zero. */
    predicate Nonzero() { 0 < rowPitch && 0 < cellPitch && 0 < cellHeight }
  }

  /**
   * Four bytes (R, G, B, A) per pixel; a cell is an eighth of a row wide; the
   * cell height is an eighth of the WIDTH, not of the height.
   */
  function LayoutOf(width: nat, height: nat): Layout {
    var rowPitch := width * 4;
    Layout(rowPitch, rowPitch / 8, width / 8, rowPitch * height)
  }

  /**
   * The dimensions the generator can handle: both cell sizes non-zero, and the
   * image size representable as a 32-bit UINT, so that no product wraps around.
   */
  predicate ValidDimensions(width: nat, height: nat) {
    8 <= width && width * 4 * height < UIntLimit
  }

  /** What the layout of valid dimensions guarantees to the generator's loop. */
  lemma LayoutFacts(width: nat, height: nat)
    requires ValidDimensions(width, height)
    ensures var l := LayoutOf(width, height);
      && l.Nonzero()
      && l.cellPitch < l.rowPitch && l.cellHeight < width
      && l.textureSize == 4 * (width * height)
      && l.textureSize % 4 == 0 && l.rowPitch % 4 == 0
      && l.textureSize < UIntLimit
  {
    // The products and divisions spelled out keep the solver's search short.
    var rowPitch := width * 4;
    assert rowPitch * height == 4 * (width * height);
    DivModOf(rowPitch, width, 0, 4);
    DivModOf(4 * (width * height), width * height, 0, 4);
    DivModOf(rowPitch, width / 2, (width % 2) * 4, 8);
    DivModOf(width, width / 8, width % 8, 8);
  }

  /** Whether the pixel whose first byte is at offset `n` belongs to a black cell. */
  predicate IsBlack(l: Layout, n: nat)
    requires l.Nonzero()
  {
    var x := n % l.rowPitch;
    var y := n / l.rowPitch;
    (x / l.cellPitch) % 2 == (y / l.cellHeight) % 2
  }

  /** The byte the generator leaves at offset `k`: channel `k % 4` of a black or white, opaque pixel. */
  function TexelByte(l: Layout, k: nat): UInt8
    requires l.Nonzero()
  {
    if k % 4 == 3 then 0xff
    else if IsBlack(l, k - k % 4) then 0x00
    else 0xff
  }

  /** Whether the four bytes at `n` form an opaque pixel that is pure black or pure white. */
  predicate OpaqueBlackOrWhite(image: seq<UInt8>, n: nat)
    requires n + 3 < |image|
  {
    && image[n + 3] == 0xff
    && image[n] == image[n + 1] == image[n + 2]
    && (image[n] == 0x00 || image[n] == 0xff)
  }

  /**
   * Fills a new image of `width * 4 * height` bytes with the checkerboard, one
   * pixel of four bytes per step.
   */
  method MakeTextureData(width: nat, height: nat) returns (image: array<UInt8>)
    requires ValidDimensions(width, height)
    ensures fresh(image)
    ensures image.Length == LayoutOf(width, height).textureSize == width * 4 * height
    ensures forall k :: 0 <= k < image.Length ==> image[k] == TexelByte(LayoutOf(width, height), k)
  {
    LayoutFacts(width, height);
    ghost var l := LayoutOf(width, height);
    var rowPitch := width * 4;
    var cellPitch := rowPitch / 8;   // rowPitch >> 3
    var cellHeight := width / 8;     // textureWidth >> 3
    var textureSize := rowPitch * height;
    assert l == Layout(rowPitch, cellPitch, cellHeight, textureSize);
    image := new UInt8[textureSize];
    var n := 0;
    while n < textureSize
      invariant n % 4 == 0 && n <= textureSize
      invariant forall k :: 0 <= k < n ==> image[k] == TexelByte(l, k)
    {
      var x := n % rowPitch;
      var y := n / rowPitch;
      var i := x / cellPitch;
      var j := y / cellHeight;
      TexelPixel(l, n);
      NextPixelFits(n, textureSize);
      if i % 2 == j % 2 {
        image[n], image[n + 1], image[n + 2], image[n + 3] := 0x00, 0x00, 0x00, 0xff;
      } else {
        image[n], image[n + 1], image[n + 2], image[n + 3] := 0xff, 0xff, 0xff, 0xff;
      }
      n := n + 4;
    }
  }

  /**
   * Every pixel of a generated image is opaque and either pure black or pure
   * white, and it is black exactly when its cell column and cell row share parity.
   */
  lemma GeneratedPixels(l: Layout, image: seq<UInt8>)
    requires l.Nonzero() && |image| % 4 == 0
    requires forall k :: 0 <= k < |image| ==> image[k] == TexelByte(l, k)
    ensures forall n :: 0 <= n < |image| && n % 4 == 0 ==>
              n + 3 < |image| && OpaqueBlackOrWhite(image, n) &&
              (image[n] == 0x00 <==> IsBlack(l, n))
  {
    forall n | 0 <= n < |image| && n % 4 == 0
      ensures n + 3 < |image| && OpaqueBlackOrWhite(image, n)
      ensures image[n] == 0x00 <==> IsBlack(l, n)
    {
      NextPixelFits(n, |image|);
      TexelPixel(l, n);
    }
  }

  /** Stepping by one pixel from a pixel boundary below `size` stays on a boundary within `size`. */
  lemma NextPixelFits(n: nat, size: nat)
    requires n % 4 == 0 && size % 4 == 0 && n < size
    ensures n + 4 <= size && (n + 4) % 4 == 0
  {
  }

  /** The four bytes the generator assigns to one pixel. */
  lemma TexelPixel(l: Layout, n: nat)
    requires l.Nonzero() && n % 4 == 0
    ensures TexelByte(l, n + 3) == 0xff
    ensures TexelByte(l, n) == TexelByte(l, n + 1) == TexelByte(l, n + 2)
    ensures TexelByte(l, n) == (if IsBlack(l, n) then 0x00 else 0xff)
  {
    // Without the three divisions spelled out the solver's search is several times as costly.
    var q := n / 4;
    DivModOf(n + 1, q, 1, 4);
    DivModOf(n + 2, q, 2, 4);
    DivModOf(n + 3, q, 3, 4);
  }

  /**
   * In pixel coordinates: the pixel in column `px` and row `py` lies inside the
   * image, and it is black exactly when its cell column (4 * px bytes divided by
   * the cell pitch) and its cell row (py divided by the cell height) have the
   * same parity.
   */
  lemma PixelColour(width: nat, height: nat, px: nat, py: nat)
    requires ValidDimensions(width, height) && px < width && py < height
    ensures var l := LayoutOf(width, height);
      && 4 * (py * width + px) + 3 < l.textureSize
      && (IsBlack(l, 4 * (py * width + px)) <==>
          (4 * px / l.cellPitch) % 2 == (py / l.cellHeight) % 2)
  {
    var l := LayoutOf(width, height);
    var n := 4 * (py * width + px);
    assert n == py * l.rowPitch + 4 * px;
    RowMajor(n, py, 4 * px, l.rowPitch, height);
  }

  /** Offset `n` of column `x` in row `y` of a buffer of `rows` rows of `rp` bytes. */
  lemma RowMajor(n: nat, y: nat, x: nat, rp: nat, rows: nat)
    requires n == y * rp + x && x < rp && y < rows
    ensures n / rp == y && n % rp == x
    ensures n + (rp - x) <= rp * rows
  {
    DivModOf(n, y, x, rp);
    MulLeft(y + 1, rows, rp);
    assert (y + 1) * rp == y * rp + rp;
  }

  /** Moving right by one cell, within the same row, flips the colour. */
  lemma NextCellAcrossFlips(l: Layout, n: nat)
    requires l.Nonzero()
    requires n % l.rowPitch + l.cellPitch < l.rowPitch
    ensures IsBlack(l, n) <==> !IsBlack(l, n + l.cellPitch)
  {
    var x, y := n % l.rowPitch, n / l.rowPitch;
    DivModOf(n + l.cellPitch, y, x + l.cellPitch, l.rowPitch);
    ParityFlips(x, l.cellPitch);
  }

  /** Moving down by one cell height, within the same column, flips the colour. */
  lemma NextCellDownFlips(l: Layout, n: nat)
    requires l.Nonzero()
    ensures IsBlack(l, n) <==> !IsBlack(l, n + l.rowPitch * l.cellHeight)
  {
    ShiftRows(n, l.rowPitch, l.cellHeight);
    ParityFlips(n / l.rowPitch, l.cellHeight);
  }

  /** Adding `k` whole rows of `rp` bytes keeps the column and advances the row by `k`. */
  lemma ShiftRows(n: nat, rp: nat, k: nat)
    requires 0 < rp
    ensures (n + rp * k) % rp == n % rp
    ensures (n + rp * k) / rp == n / rp + k
  {
    var x, y := n % rp, n / rp;
    assert n + rp * k == (y + k) * rp + x;
    DivModOf(n + rp * k, y + k, x, rp);
  }

  /** Adding one block of `d` moves to the next block, of the other parity. */
  lemma ParityFlips(a: nat, d: nat)
    requires 0 < d
    ensures (a + d) / d == a / d + 1
    ensures ((a + d) / d) % 2 != (a / d) % 2
  {
    var q, r := a / d, a % d;
    assert (q + 1) * d == q * d + d;
    DivModOf(a + d, q + 1, r, d);
  }
}
