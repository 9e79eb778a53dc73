/** The handoff record shared by the loader and the kernel. Both halves
    declare the same struct (field order framebuffer, width, height,
    pixels_per_scanline, pixel_format); here it is one datatype used by both,
    with its x86-64 memory layout so that what one side stores the other reads. */
module BootInfoAbi {
  import opened Words

  /** pixel_format tags: 0 = RGB, 1 = BGR. */
  const PIXEL_RGB: u32 := 0
  const PIXEL_BGR: u32 := 1

  /** sizeof(BootInfo): an 8-byte pointer followed by four 32-bit fields. */
  const BOOTINFO_SIZE: nat := 24

  // Byte offsets of the fields.
  const BI_FRAMEBUFFER: nat := 0
  const BI_WIDTH: nat := 8
  const BI_HEIGHT: nat := 12
  const BI_PIXELS_PER_SCANLINE: nat := 16
  const BI_PIXEL_FORMAT: nat := 20

  datatype BootInfo = BootInfo(
    framebuffer: u64,
    width: u32,
    height: u32,
    pixelsPerScanline: u32,
    pixelFormat: u32)

  /** The two values the record documents for pixel_format. */
  predicate DocumentedFormat(bi: BootInfo) {
    bi.pixelFormat == PIXEL_RGB || bi.pixelFormat == PIXEL_BGR
  }

  /** The record as stored in memory by the loader. */
  function EncodeBootInfo(bi: BootInfo): (b: seq<byte>)
    ensures |b| == BOOTINFO_SIZE
  {
    Pow256Widths();
    ToLE(bi.framebuffer, 8) + ToLE(bi.width, 4) + ToLE(bi.height, 4) +
    ToLE(bi.pixelsPerScanline, 4) + ToLE(bi.pixelFormat, 4)
  }

  /** The record as read from memory by the kernel. */
  function DecodeBootInfo(b: seq<byte>): BootInfo
    requires |b| >= BOOTINFO_SIZE
  {
    Pow256Widths();
    BootInfo(LE(b[BI_FRAMEBUFFER..BI_FRAMEBUFFER + 8]),
             LE(b[BI_WIDTH..BI_WIDTH + 4]),
             LE(b[BI_HEIGHT..BI_HEIGHT + 4]),
             LE(b[BI_PIXELS_PER_SCANLINE..BI_PIXELS_PER_SCANLINE + 4]),
             LE(b[BI_PIXEL_FORMAT..BI_PIXEL_FORMAT + 4]))
  }

  /** What the loader stores is what the kernel reads. */
  lemma DecodeEncodeBootInfo(bi: BootInfo)
    ensures DecodeBootInfo(EncodeBootInfo(bi)) == bi
  {
    Pow256Widths();
    var b := EncodeBootInfo(bi);
    var p1 := ToLE(bi.framebuffer, 8) + ToLE(bi.width, 4);
    var p2 := p1 + ToLE(bi.height, 4);
    var p3 := p2 + ToLE(bi.pixelsPerScanline, 4);
    assert b[..|b|] == p3 + ToLE(bi.pixelFormat, 4);
    Peel(b, p3, ToLE(bi.pixelFormat, 4));
    Peel(b, p2, ToLE(bi.pixelsPerScanline, 4));
    Peel(b, p1, ToLE(bi.height, 4));
    Peel(b, ToLE(bi.framebuffer, 8), ToLE(bi.width, 4));
    Peel(b, [], ToLE(bi.framebuffer, 8));
    LEOfToLE(bi.framebuffer, 8); LEOfToLE(bi.width, 4); LEOfToLE(bi.height, 4);
    LEOfToLE(bi.pixelsPerScanline, 4); LEOfToLE(bi.pixelFormat, 4);
  }

  /** The five fields fill the 24 bytes with no padding: every 24-byte string is
      the layout of exactly one record. */
  lemma EncodeDecodeBootInfo(b: seq<byte>)
    requires |b| == BOOTINFO_SIZE
    ensures EncodeBootInfo(DecodeBootInfo(b)) == b
  {
    Pow256Widths();
    ToLEOfLE(b[0..8]); ToLEOfLE(b[8..12]); ToLEOfLE(b[12..16]);
    ToLEOfLE(b[16..20]); ToLEOfLE(b[20..24]);
    Join(b, 0, 8, 12);
    Join(b, 0, 12, 16);
    Join(b, 0, 16, 20);
    Join(b, 0, 20, 24);
    assert b == b[0..24];
  }
}
