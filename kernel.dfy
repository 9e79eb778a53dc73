/** The kernel's frame-buffer writer: put_px, which bounds-checks a pixel,
    locates its 32-bit word at y * pixels_per_scanline + x and stores the
    packed colour there, and the clear-screen loops at the start of kmain. */
module Kernel {
  import opened Words
  import opened BootInfoAbi

  /** Byte k (0 = least significant) of a 32-bit word. */
  function ByteOf(c: bv32, k: nat): bv32
    requires k < 4
  {
    if k == 0 then c & 0xFF
    else if k == 1 then (c >> 8) & 0xFF
    else if k == 2 then (c >> 16) & 0xFF
    else c >> 24
  }

  /** The colour word put_px stores, from the 8-bit channels:
      r << 16 | g << 8 | b when pixel_format is 0, b << 16 | g << 8 | r otherwise. */
  function PackColour(format: u32, r: bv8, g: bv8, b: bv8): (c: bv32)
    ensures format == PIXEL_RGB ==>
              ByteOf(c, 2) == r as bv32 && ByteOf(c, 1) == g as bv32 && ByteOf(c, 0) == b as bv32
    ensures format != PIXEL_RGB ==>
              ByteOf(c, 2) == b as bv32 && ByteOf(c, 1) == g as bv32 && ByteOf(c, 0) == r as bv32
    ensures ByteOf(c, 3) == 0 && c < 0x100_0000
  {
    if format == PIXEL_RGB then (r as bv32 << 16) | (g as bv32 << 8) | b as bv32
    else (b as bv32 << 16) | (g as bv32 << 8) | r as bv32
  }

  /** A word as it lies in the frame buffer on x86-64: least significant byte first. */
  function WordBytes(c: bv32): seq<bv32> {
    [ByteOf(c, 0), ByteOf(c, 1), ByteOf(c, 2), ByteOf(c, 3)]
  }

  /** The byte order of a stored pixel: blue, green, red, 0 for tag 0 and
      red, green, blue, 0 for any other tag. */
  lemma PixelBytes(format: u32, r: bv8, g: bv8, b: bv8)
    ensures format == PIXEL_RGB ==> WordBytes(PackColour(format, r, g, b)) == [b as bv32, g as bv32, r as bv32, 0]
    ensures format != PIXEL_RGB ==> WordBytes(PackColour(format, r, g, b)) == [r as bv32, g as bv32, b as bv32, 0]
  {
  }

  /** Index of the word of pixel (x, y). */
  function PixelIndex(bi: BootInfo, x: nat, y: nat): nat {
    y * bi.pixelsPerScanline + x
  }

  /** What the kernel relies on about the frame buffer of fbWords words: a
      scanline is at least a row of pixels, the rows fit in the buffer, and
      the word offsets fit the 32-bit arithmetic put_px computes them with. */
  predicate FramebufferFits(fbWords: nat, bi: BootInfo) {
    bi.width <= bi.pixelsPerScanline &&
    bi.height * bi.pixelsPerScanline <= fbWords &&
    bi.height * bi.pixelsPerScanline <= 0x1_0000_0000
  }

  /** Word j holds a visible pixel: its row is below height and its column below width. */
  predicate IsPixel(bi: BootInfo, j: nat) {
    bi.pixelsPerScanline > 0 && j / bi.pixelsPerScanline < bi.height && j % bi.pixelsPerScanline < bi.width
  }

  /** A visible pixel's word lies in the first height scanlines, at row y and column x. */
  lemma PixelIndexDecodes(bi: BootInfo, x: nat, y: nat)
    requires x < bi.width <= bi.pixelsPerScanline && y < bi.height
    ensures PixelIndex(bi, x, y) < bi.height * bi.pixelsPerScanline
    ensures PixelIndex(bi, x, y) / bi.pixelsPerScanline == y
    ensures PixelIndex(bi, x, y) % bi.pixelsPerScanline == x
  {
    var s := bi.pixelsPerScanline;
    assert y * s + x < (y + 1) * s <= bi.height * s;
    LinearDivMod(y * s + x, s, y, x);
  }

  /** Division by s recovers the quotient and remainder of q * s + r. */
  lemma LinearDivMod(n: nat, s: nat, q: nat, r: nat)
    requires 0 <= r < s && n == q * s + r
    ensures n / s == q && n % s == r
  {
    var q', r' := n / s, n % s;
    assert (q' - q) * s == r - r';
    MulSign(q' - q, s);
  }

  lemma MulSign(d: int, s: int)
    requires s > 0
    ensures d >= 1 ==> d * s >= s
    ensures d <= -1 ==> d * s <= -s
  {
    if d >= 1 {
      assert d * s == (d - 1) * s + s;
    } else if d <= -1 {
      assert d * s == (d + 1) * s - s;
    }
  }

  /** The visible pixels are exactly the words y * pixels_per_scanline + x with
      x < width and y < height. */
  lemma IsPixelIff(bi: BootInfo, j: nat)
    requires bi.width <= bi.pixelsPerScanline
    ensures IsPixel(bi, j) <==>
              exists x: nat, y: nat {:trigger PixelIndex(bi, x, y)} ::
                x < bi.width && y < bi.height && j == PixelIndex(bi, x, y)
  {
    if IsPixel(bi, j) {
      var s := bi.pixelsPerScanline;
      var x, y := j % s, j / s;
      assert j == PixelIndex(bi, x, y);
    }
    if exists x: nat, y: nat {:trigger PixelIndex(bi, x, y)} ::
         x < bi.width && y < bi.height && j == PixelIndex(bi, x, y) {
      var x: nat, y: nat :| x < bi.width && y < bi.height && j == PixelIndex(bi, x, y);
      PixelIndexDecodes(bi, x, y);
    }
  }

  /** For a visible pixel of a frame buffer that fits, the 32-bit offset
      computation of put_px does not wrap. */
  lemma OffsetDoesNotWrap(bi: BootInfo, x: nat, y: nat)
    requires FramebufferFits(0x1_0000_0000, bi) && x < bi.width && y < bi.height
    ensures ((y * bi.pixelsPerScanline) % 0x1_0000_0000 + x) % 0x1_0000_0000 == PixelIndex(bi, x, y)
    ensures PixelIndex(bi, x, y) < bi.height * bi.pixelsPerScanline
  {
    PixelIndexDecodes(bi, x, y);
    assert y * bi.pixelsPerScanline <= PixelIndex(bi, x, y) < 0x1_0000_0000;
  }

  /** put_px: a pixel outside width x height is ignored; otherwise exactly the
      word at y * pixels_per_scanline + x becomes the packed colour. */
  method PutPx(fb: array<bv32>, bi: BootInfo, x: u32, y: u32, r: bv8, g: bv8, b: bv8)
    requires FramebufferFits(fb.Length, bi)
    modifies fb
    ensures !(x < bi.width && y < bi.height) ==> fb[..] == old(fb[..])
    ensures x < bi.width && y < bi.height ==>
              PixelIndex(bi, x, y) < bi.height * bi.pixelsPerScanline <= fb.Length &&
              fb[..] == old(fb[..])[PixelIndex(bi, x, y) := PackColour(bi.pixelFormat, r, g, b)]
  {
    if x >= bi.width || y >= bi.height {
      return;
    }
    // uint32_t arithmetic: the product and the sum wrap at 2^32.
    var offset := ((y * bi.pixelsPerScanline) % 0x1_0000_0000 + x) % 0x1_0000_0000;
    OffsetDoesNotWrap(bi, x, y);
    var col := PackColour(bi.pixelFormat, r, g, b);
    fb[offset] := col;
  }

  /** Word j is a visible pixel that comes before pixel (x, y) in scan order. */
  predicate ClearedBefore(bi: BootInfo, j: nat, x: nat, y: nat) {
    IsPixel(bi, j) && j < PixelIndex(bi, x, y)
  }

  /** Clearing pixel (x, y) extends the cleared region by exactly its word. */
  lemma ClearedStep(bi: BootInfo, j: nat, x: nat, y: nat)
    requires x < bi.width <= bi.pixelsPerScanline && y < bi.height
    ensures ClearedBefore(bi, j, x + 1, y) <==> ClearedBefore(bi, j, x, y) || j == PixelIndex(bi, x, y)
  {
    PixelIndexDecodes(bi, x, y);
  }

  /** A finished row is the same region as the start of the next one, and the
      start of row height is every visible pixel. */
  lemma ClearedRows(bi: BootInfo, j: nat, y: nat)
    requires bi.width <= bi.pixelsPerScanline
    ensures ClearedBefore(bi, j, bi.width, y) <==> ClearedBefore(bi, j, 0, y + 1)
    ensures ClearedBefore(bi, j, 0, bi.height) <==> IsPixel(bi, j)
  {
    if IsPixel(bi, j) {
      var s := bi.pixelsPerScanline;
      var row, col := j / s, j % s;
      assert j == row * s + col;
      assert (row - y) * s == row * s - y * s;
      MulSign(row - y, s);
      assert (bi.height - row) * s == bi.height * s - row * s;
      MulSign(bi.height - row, s);
    }
  }

  /** The clear-screen loops of kmain: every visible pixel becomes 0 and no
      other word of the frame buffer changes. */
  method ClearScreen(fb: array<bv32>, bi: BootInfo)
    requires FramebufferFits(fb.Length, bi)
    modifies fb
    ensures forall j :: 0 <= j < fb.Length ==> fb[j] == if IsPixel(bi, j) then 0 else old(fb[j])
  {
    var y: u32 := 0;
    while y < bi.height
      invariant y <= bi.height
      invariant forall j :: 0 <= j < fb.Length ==>
                  fb[j] == if ClearedBefore(bi, j, 0, y) then 0 else old(fb[j])
    {
      var x: u32 := 0;
      while x < bi.width
        invariant x <= bi.width
        invariant forall j :: 0 <= j < fb.Length ==>
                    fb[j] == if ClearedBefore(bi, j, x, y) then 0 else old(fb[j])
      {
        ghost var before := fb[..];
        PutPx(fb, bi, x, y, 0, 0, 0);
        forall j | 0 <= j < fb.Length
          ensures fb[j] == if ClearedBefore(bi, j, x + 1, y) then 0 else old(fb[j])
        {
          ClearedStep(bi, j, x, y);
          assert fb[j] == if j == PixelIndex(bi, x, y) then 0 else before[j];
        }
        x := x + 1;
      }
      forall j | 0 <= j < fb.Length
        ensures fb[j] == if ClearedBefore(bi, j, 0, y + 1) then 0 else old(fb[j])
      {
        ClearedRows(bi, j, y);
      }
      y := y + 1;
    }
    forall j | 0 <= j < fb.Length
      ensures fb[j] == if IsPixel(bi, j) then 0 else old(fb[j])
    {
      ClearedRows(bi, j, y);
    }
  }
}
