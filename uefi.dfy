/** The firmware as the loader sees it: physical memory, the boot-services
    page allocator (AllocatePages with AllocateAddress and AllocatePool,
    UEFI 2.x section 7.2), the memory-map key that GetMemoryMap reports and
    ExitBootServices checks (sections 7.2 and 7.4), and the graphics mode
    information of the Graphics Output Protocol (section 12.9). */
module Uefi {
  import opened Words

  const PAGE_SIZE: nat := 0x1000

  /** Physical addresses are 64-bit. */
  const ADDRESS_SPACE: nat := 0x1_0000_0000_0000_0000

  /** The EFI_STATUS values the core produces or passes on. */
  datatype Status = Success | LoadError | InvalidParameter | OutOfResources | NotFound | DeviceError

  /** EFI_GRAPHICS_PIXEL_FORMAT. */
  datatype PixelFormat =
    | PixelRedGreenBlueReserved8BitPerColor
    | PixelBlueGreenRedReserved8BitPerColor
    | PixelBitMask
    | PixelBltOnly

  /** The part of EFI_GRAPHICS_OUTPUT_MODE_INFORMATION the loader reads. */
  datatype ModeInfo = ModeInfo(
    horizontalResolution: u32,
    verticalResolution: u32,
    pixelFormat: PixelFormat,
    pixelsPerScanLine: u32)

  /** The current mode of the Graphics Output Protocol: its frame buffer and information. */
  datatype GopMode = GopMode(frameBufferBase: u64, info: ModeInfo)

  /** Boot services are running, with the current memory-map key, or have been exited. */
  datatype Phase = Boot(key: nat) | Bare

  /** Any change to the memory map (an allocation, or the firmware's own
      activity) gives the map a new key. */
  function MapChange(p: Phase): (q: Phase)
    requires p.Boot?
  {
    Boot(p.key + 1)
  }

  /** ExitBootServices(key): succeeds, and ends boot services, only with the current key. */
  function ExitServices(p: Phase, key: nat): (Status, Phase)
    requires p.Boot?
  {
    if key == p.key then (Success, Bare) else (InvalidParameter, p)
  }

  /** The key read from the map right before exiting is accepted. */
  lemma ExitWithCurrentKey(p: Phase)
    requires p.Boot?
    ensures ExitServices(p, p.key) == (Success, Bare)
  {
  }

  /** A key read before a change of the map is refused, and nothing changes. */
  lemma StaleKeyRefused(p: Phase)
    requires p.Boot?
    ensures ExitServices(MapChange(p), p.key) == (InvalidParameter, MapChange(p))
  {
  }

  /** The state the segment loader acts on: memory, reserved page frames, phase. */
  datatype Machine = Machine(mem: seq<byte>, reserved: set<nat>, phase: Phase)

  datatype Outcome = Outcome(status: Status, m: Machine)

  /** The page frame holding address a. */
  function PageOf(a: nat): nat {
    a / PAGE_SIZE
  }

  /** The n consecutive page frames from frame lo. */
  function Frames(lo: nat, n: nat): (r: set<nat>)
    ensures forall p :: p in r <==> lo <= p < lo + n
    decreases n
  {
    if n == 0 then {} else {lo} + Frames(lo + 1, n - 1)
  }

  /** The page frames of `pages` pages starting at addr. */
  function PagesOf(addr: nat, pages: nat): set<nat> {
    Frames(PageOf(addr), pages)
  }

  /** Whether AllocatePages(AllocateAddress, pages, addr) can be satisfied:
      addr is page aligned, the range lies in memory, and no page of it is taken. */
  predicate CanAllocate(memSize: nat, reserved: set<nat>, addr: nat, pages: nat) {
    addr % PAGE_SIZE == 0 && addr + pages * PAGE_SIZE <= memSize && PagesOf(addr, pages) !! reserved
  }

  /** AllocatePages at a fixed address: either the pages become reserved and the
      map changes, or the request is refused with EFI_NOT_FOUND and nothing changes. */
  function AllocatePagesAt(m: Machine, addr: nat, pages: nat): Outcome
    requires m.phase.Boot?
  {
    if CanAllocate(|m.mem|, m.reserved, addr, pages)
    then Outcome(Success, m.(reserved := m.reserved + PagesOf(addr, pages), phase := MapChange(m.phase)))
    else Outcome(NotFound, m)
  }

  /** Every address of an allocated range lies in one of its page frames. */
  lemma AddressInPages(addr: nat, pages: nat, a: nat)
    requires addr % PAGE_SIZE == 0 && addr <= a < addr + pages * PAGE_SIZE
    ensures PageOf(a) in PagesOf(addr, pages)
  {
    var base := addr / PAGE_SIZE;
    assert addr == PAGE_SIZE * base;
    var q, r := a / PAGE_SIZE, a % PAGE_SIZE;
    assert a == PAGE_SIZE * q + r && 0 <= r < PAGE_SIZE;
    assert PAGE_SIZE * base <= PAGE_SIZE * q + r < PAGE_SIZE * (base + pages);
    assert base <= q < base + pages;
  }

  /** Memory after CopyMem(dst, src, |src|). */
  function Overwrite(mem: seq<byte>, dst: nat, src: seq<byte>): (r: seq<byte>)
    requires dst + |src| <= |mem|
    ensures |r| == |mem|
    ensures forall j :: 0 <= j < |r| ==> r[j] == if dst <= j < dst + |src| then src[j - dst] else mem[j]
  {
    mem[..dst] + src + mem[dst + |src|..]
  }

  /** Memory after SetMem(dst, n, v). */
  function Fill(mem: seq<byte>, dst: nat, n: nat, v: byte): (r: seq<byte>)
    requires dst + n <= |mem|
    ensures |r| == |mem|
    ensures forall j :: 0 <= j < |r| ==> r[j] == if dst <= j < dst + n then v else mem[j]
  {
    mem[..dst] + seq(n, _ => v) + mem[dst + n..]
  }

  class Firmware {
    /** Physical memory: the byte at address a is mem[a]. */
    var mem: array<byte>
    /** Page frames already allocated. */
    var reserved: set<nat>
    /** Bytes the pool allocator can still hand out. */
    var poolFree: nat
    var phase: Phase
    /** Size of the memory map and of one descriptor, as GetMemoryMap reports them. */
    var mapSize: nat
    var descriptorSize: nat

    ghost predicate Valid()
      reads this
    {
      mem.Length <= ADDRESS_SPACE
    }

    ghost function State(): Machine
      reads this, mem
    {
      Machine(mem[..], reserved, phase)
    }

    constructor (memory: array<byte>, pool: nat, key: nat, mapBytes: nat, descBytes: nat)
      requires memory.Length <= ADDRESS_SPACE
      ensures Valid() && mem == memory && reserved == {} && poolFree == pool && phase == Boot(key)
      ensures mapSize == mapBytes && descriptorSize == descBytes
    {
      mem := memory;
      reserved := {};
      poolFree := pool;
      phase := Boot(key);
      mapSize := mapBytes;
      descriptorSize := descBytes;
    }

    method AllocatePages(addr: u64, pages: nat) returns (st: Status)
      requires Valid() && phase.Boot?
      modifies this`reserved, this`phase
      ensures Outcome(st, State()) == AllocatePagesAt(old(State()), addr, pages)
    {
      if CanAllocate(mem.Length, reserved, addr, pages) {
        reserved := reserved + PagesOf(addr, pages);
        phase := MapChange(phase);
        st := Success;
      } else {
        st := NotFound;
      }
    }

    method AllocatePool(size: nat) returns (st: Status)
      requires phase.Boot?
      modifies this`poolFree, this`phase
      ensures st == Success <==> size <= old(poolFree)
      ensures st == Success ==> poolFree == old(poolFree) - size && phase == MapChange(old(phase))
      ensures st != Success ==> st == OutOfResources && poolFree == old(poolFree) && phase == old(phase)
    {
      if size <= poolFree {
        poolFree := poolFree - size;
        phase := MapChange(phase);
        st := Success;
      } else {
        st := OutOfResources;
      }
    }

    /** GetMemoryMap: the map's size, the current key and the descriptor size. */
    method GetMemoryMap() returns (size: nat, key: nat, descSize: nat)
      requires phase.Boot?
      ensures size == mapSize && key == phase.key && descSize == descriptorSize
    {
      size, key, descSize := mapSize, phase.key, descriptorSize;
    }

    method ExitBootServices(key: nat) returns (st: Status)
      requires phase.Boot?
      modifies this`phase
      ensures (st, phase) == ExitServices(old(phase), key)
    {
      if key == phase.key {
        st, phase := Success, Bare;
      } else {
        st := InvalidParameter;
      }
    }

    /** The firmware changing its own memory map (a timer event allocating, say). */
    method ChangeMapByItself()
      requires phase.Boot?
      modifies this`phase
      ensures phase == MapChange(old(phase))
    {
      phase := MapChange(phase);
    }

    /** CopyMem(dst, src + off, n). */
    method CopyMem(dst: nat, src: seq<byte>, off: nat, n: nat)
      requires off + n <= |src| && dst + n <= mem.Length
      modifies mem
      ensures mem[..] == Overwrite(old(mem[..]), dst, src[off..off + n])
    {
      var i := 0;
      while i < n
        invariant 0 <= i <= n
        invariant forall j :: 0 <= j < mem.Length ==>
                    mem[j] == if dst <= j < dst + i then src[off + j - dst] else old(mem[j])
      {
        mem[dst + i] := src[off + i];
        i := i + 1;
      }
      assert mem[..] == Overwrite(old(mem[..]), dst, src[off..off + n]);
    }

    /** SetMem(dst, n, v). */
    method SetMem(dst: nat, n: nat, v: byte)
      requires dst + n <= mem.Length
      modifies mem
      ensures mem[..] == Fill(old(mem[..]), dst, n, v)
    {
      var i := 0;
      while i < n
        invariant 0 <= i <= n
        invariant forall j :: 0 <= j < mem.Length ==>
                    mem[j] == if dst <= j < dst + i then v else old(mem[j])
      {
        mem[dst + i] := v;
        i := i + 1;
      }
      assert mem[..] == Fill(old(mem[..]), dst, n, v);
    }
  }
}
