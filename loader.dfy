/** The handoff path of efi_main: choosing a graphics mode, filling the
    BootInfo record, exiting boot services with the current memory-map key,
    and the order in which efi_main runs these steps around load_elf. */
module Loader {
  import opened Words
  import opened Elf
  import opened Uefi
  import opened BootInfoAbi
  import opened ElfLoader
  import Kernel

  /** What QueryMode answered for one mode number. */
  datatype QueryResult = QueryFailed | Queried(info: ModeInfo)

  /** A mode the loader accepts: queried successfully, at least 640x480. */
  predicate Acceptable(q: QueryResult) {
    q.Queried? && q.info.horizontalResolution >= 640 && q.info.verticalResolution >= 480
  }

  /** best is the last acceptable mode number, or 0 when no mode is acceptable. */
  ghost predicate IsBestMode(queries: seq<QueryResult>, best: nat) {
    && ((exists i :: 0 <= i < |queries| && Acceptable(queries[i])) ==>
          best < |queries| && Acceptable(queries[best]) &&
          forall j :: best < j < |queries| ==> !Acceptable(queries[j]))
    && ((forall i :: 0 <= i < |queries| ==> !Acceptable(queries[i])) ==> best == 0)
  }

  /** The mode-selection loop over the answers of QueryMode for 0 <= i < MaxMode. */
  method SelectMode(queries: seq<QueryResult>) returns (best: u32)
    requires |queries| < 0x1_0000_0000
    ensures IsBestMode(queries, best)
  {
    best := 0;
    ghost var found := false;
    var i: u32 := 0;
    while i < |queries| as u32
      invariant i <= |queries|
      invariant found <==> exists j :: 0 <= j < i && Acceptable(queries[j])
      invariant found ==> best < i && Acceptable(queries[best])
      invariant forall j :: best < j < i ==> !Acceptable(queries[j])
      invariant !found ==> best == 0
    {
      if queries[i].Queried? {
        if queries[i].info.horizontalResolution >= 640 && queries[i].info.verticalResolution >= 480 {
          best := i;
          found := true;
        }
      }
      i := i + 1;
    }
  }

  /** The rule pins the selected mode down: two results that both satisfy it are equal. */
  lemma BestModeUnique(queries: seq<QueryResult>, b1: nat, b2: nat)
    requires IsBestMode(queries, b1) && IsBestMode(queries, b2)
    ensures b1 == b2
  {
  }

  /** The pixel_format tag for a GOP pixel format. */
  function FormatTag(f: PixelFormat): (tag: u32)
    ensures tag == PIXEL_RGB || tag == PIXEL_BGR
    ensures tag == PIXEL_RGB <==> f == PixelRedGreenBlueReserved8BitPerColor
  {
    if f == PixelRedGreenBlueReserved8BitPerColor then PIXEL_RGB else PIXEL_BGR
  }

  /** The BootInfo the loader fills from the current graphics mode. */
  function MakeBootInfo(mode: GopMode): (bi: BootInfo)
    ensures DocumentedFormat(bi)
  {
    BootInfo(mode.frameBufferBase,
             mode.info.horizontalResolution,
             mode.info.verticalResolution,
             mode.info.pixelsPerScanLine,
             FormatTag(mode.info.pixelFormat))
  }

  /** What the kernel reads from the record the loader stores describes the
      current mode: the geometry verbatim, and tag 0 exactly for the
      red-green-blue byte order. */
  lemma HandoffDescribesMode(mode: GopMode)
    ensures var bi := DecodeBootInfo(EncodeBootInfo(MakeBootInfo(mode)));
      && bi.framebuffer == mode.frameBufferBase
      && bi.width == mode.info.horizontalResolution
      && bi.height == mode.info.verticalResolution
      && bi.pixelsPerScanline == mode.info.pixelsPerScanLine
      && (bi.pixelFormat == PIXEL_RGB <==> mode.info.pixelFormat == PixelRedGreenBlueReserved8BitPerColor)
      && DocumentedFormat(bi)
  {
    DecodeEncodeBootInfo(MakeBootInfo(mode));
  }

  /** The colours the kernel stores through the tag the loader hands over.
      A PixelRedGreenBlueReserved8BitPerColor buffer holds red, green, blue,
      reserved in byte order, and a PixelBlueGreenRedReserved8BitPerColor one
      blue, green, red, reserved; put_px stores the opposite order in both. */
  lemma HandoffColourOrder(mode: GopMode, r: bv8, g: bv8, b: bv8)
    ensures var px := Kernel.WordBytes(Kernel.PackColour(MakeBootInfo(mode).pixelFormat, r, g, b));
      && (mode.info.pixelFormat == PixelRedGreenBlueReserved8BitPerColor ==> px == [b as bv32, g as bv32, r as bv32, 0])
      && (mode.info.pixelFormat == PixelBlueGreenRedReserved8BitPerColor ==> px == [r as bv32, g as bv32, b as bv32, 0])
  {
    Kernel.PixelBytes(MakeBootInfo(mode).pixelFormat, r, g, b);
  }

  /** What load_file produced: its status and the bytes read. */
  datatype FileRead = FileRead(status: Status, contents: seq<byte>)

  /** How efi_main ends: by jumping to the kernel entry with the BootInfo, or by
      returning a status to the firmware. */
  datatype Exit = Jumped(entry: u64, bootInfo: BootInfo) | Returned(status: Status)

  /** The image handed to load_elf meets what load_elf relies on. */
  predicate KernelReadable(kernel: FileRead) {
    kernel.status == Success ==>
      |kernel.contents| >= 4 && (HasMagic(kernel.contents) ==> LoadableImage(kernel.contents))
  }

  /** Step 5 of efi_main: size the memory map, allocate a buffer for it, read
      the map key and exit boot services with that key. `mapChangesByItself`
      says whether the firmware alters its map between the last GetMemoryMap
      and ExitBootServices. */
  method ExitWithMapKey(fw: Firmware, mapChangesByItself: bool) returns (st: Status)
    requires fw.phase.Boot?
    modifies fw`poolFree, fw`phase
    ensures st == Success <==> !mapChangesByItself
    ensures st == Success ==> fw.phase == Bare
    ensures st != Success ==> st == InvalidParameter && fw.phase.Boot?
  {
    var mmapSize, mapKey, descSize := fw.GetMemoryMap();
    mmapSize := mmapSize + descSize * 8;
    var ignored := fw.AllocatePool(mmapSize);
    mmapSize, mapKey, descSize := fw.GetMemoryMap();
    if mapChangesByItself {
      fw.ChangeMapByItself();
    }
    st := fw.ExitBootServices(mapKey);
  }

  /** efi_main after LocateProtocol: select a mode, read and load the kernel,
      allocate and fill BootInfo, snapshot the memory map and exit boot
      services with its key, then jump. `mode` is the GOP mode current after
      SetMode(best); `kernel` is load_file's result; `mapChangesByItself` says
      whether the firmware alters its memory map between the last
      GetMemoryMap and ExitBootServices. */
  method EfiMain(fw: Firmware, queries: seq<QueryResult>, mode: GopMode, kernel: FileRead,
                 mapChangesByItself: bool)
    returns (exit: Exit, best: u32)
    requires fw.Valid() && fw.phase.Boot?
    requires |queries| < 0x1_0000_0000
    requires KernelReadable(kernel)
    modifies fw, fw.mem
    ensures IsBestMode(queries, best)
    ensures kernel.status != Success ==> exit == Returned(kernel.status) && fw.phase == old(fw.phase)
    ensures kernel.status == Success ==>
      var loaded := LoadElfSpec(kernel.contents, old(fw.State()));
      && (loaded.status != Success ==> exit == Returned(loaded.status))
      && (loaded.status == Success && old(fw.poolFree) < BOOTINFO_SIZE ==> exit == Returned(OutOfResources))
      && (loaded.status == Success && BOOTINFO_SIZE <= old(fw.poolFree) ==>
            (exit.Jumped? <==> !mapChangesByItself) &&
            (mapChangesByItself ==> exit == Returned(InvalidParameter)))
    ensures exit.Jumped? ==>
      && kernel.status == Success && HasMagic(kernel.contents)
      && exit.entry == DecodeEhdr(kernel.contents).entry
      && exit.bootInfo == MakeBootInfo(mode)
      && fw.phase == Bare
    ensures exit.Jumped? ==>
      var loaded := LoadElfSpec(kernel.contents, old(fw.State()));
      fw.mem[..] == loaded.m.mem && fw.reserved == loaded.m.reserved
    ensures exit.Returned? ==> exit.status != Success && fw.phase.Boot?
  {
    best := SelectMode(queries);
    // gop->SetMode(gop, best) is a firmware call; `mode` is its result.
    if kernel.status != Success {
      return Returned(kernel.status), best;
    }
    var st, entry := LoadElf(fw, kernel.contents);
    if st != Success {
      return Returned(st), best;
    }
    st := fw.AllocatePool(BOOTINFO_SIZE);
    if st != Success {
      return Returned(st), best;
    }
    var bi := MakeBootInfo(mode);
    st := ExitWithMapKey(fw, mapChangesByItself);
    if st != Success {
      return Returned(st), best;
    }
    return Jumped(entry, bi), best;
  }
}
