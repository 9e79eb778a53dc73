# A verified model of a minimal UEFI bootloader and its kernel's frame-buffer writer

The system is a two-stage x86-64 boot path. A UEFI application:
- picks a graphics mode;
- reads `kernel.elf` from the EFI system partition;
- loads its `PT_LOAD` segments at their physical addresses with `AllocatePages(AllocateAddress, …)`, `CopyMem` and `SetMem`;
- fills a small `BootInfo` record describing the frame buffer;
- exits boot services with the memory-map key of its last `GetMemoryMap` call;
- jumps to the ELF entry point.

The kernel clears the visible screen through `put_px`, which bounds-checks a pixel, finds its 32-bit word at `y * pixels_per_scanline + x`, and stores the colour packed as `r << 16 | g << 8 | b` for tag 0, or `b << 16 | g << 8 | r` otherwise.

The model has seven modules, one file each:

- `Words` (`words.dfy`): fixed-width unsigned integers and their little-endian byte strings. The encoding and decoding are proved inverse both ways.
- `Elf` (`elf.dfy`): the identification magic, `PT_LOAD`, and the `Elf64_Ehdr` and `Elf64_Phdr` layouts at their fixed offsets. Decoding and encoding are proved inverse both ways for each header: every field sits at its struct offset and the fields cover the header with no gaps.
- `BootInfoAbi` (`bootinfo.dfy`): the `BootInfo` record the loader and the kernel both declare. It is one datatype with one 24-byte layout, so what the loader stores is what the kernel reads.
- `Uefi` (`uefi.dfy`): the firmware as the loader sees it, as the class `Firmware`:
  - physical memory is an `array` of bytes;
  - the set of allocated page frames;
  - a pool budget;
  - the memory-map key, which every change to the map advances;
  - the boot-services phase, which `ExitBootServices` ends only when given the current key;
  - `CopyMem` and `SetMem` loops, each proved against a function on the memory's contents.
- `ElfLoader` (`elf_loader.dfy`): `load_elf`.
  - `LoadElfSpec` is its specification, a function of the image and the machine state. It folds the per-header step `LoadSegment` over the header table: a failed allocation ends the walk, and a non-`PT_LOAD` header is skipped.
  - `LoadElf` is the loop on the `Firmware` object and is proved to compute exactly `LoadElfSpec`.
  - Lemmas about the specification: every loaded segment holds its file bytes followed by zeros, on pages it reserved; later segments do not overwrite it; bytes outside all segments keep their values; exactly the requested pages are reserved; a refused allocation returns its status with no later header processed.
- `Loader` (`loader.dfy`): the rest of `efi_main`.
  - the mode-selection loop: the last mode of at least 640×480, else 0;
  - the `BootInfo` it fills, with `pixel_format` 0 exactly for `PixelRedGreenBlueReserved8BitPerColor`;
  - the order of calls around `load_elf`: the kernel is entered only after boot services have been exited successfully, with the right entry and record.
- `Kernel` (`kernel.dfy`): `put_px` and the clear-screen loops of `kmain` on a frame buffer of 32-bit words.
  - `put_px` writes exactly one word, or nothing out of bounds.
  - The loops make every visible pixel zero and leave every other word alone.
  - `Kernel.PixelBytes` states how the packed colour lies in memory: bytes blue, green, red, 0 for tag 0, and red, green, blue, 0 for tag 1.
  - `Loader.HandoffColourOrder` joins this with the loader's tag: a red-green-blue-reserved mode gets tag 0 and so blue, green, red, 0, the reverse of its byte order. The model keeps both files as written.

When `load_elf`'s requirements hold, `LoadElf` follows the statement order of `bootloader/bootloader.c`. `load_elf` does not check those requirements: that the header table and the segments' file bytes lie inside the image, that `p_filesz <= p_memsz`, and that `p_memsz + 0xfff` does not overflow. The model states them as preconditions (`ElfLoader.SegmentSane`, `ElfLoader.LoadableImage`). In particular, `load_elf` does not reject a header with `p_filesz > p_memsz`; for such a header its `SetMem` length wraps around. The model keeps the code's behaviour, adds no such check, and requires `p_filesz <= p_memsz` instead.

## Model

| member | source | states |
|---|---|---|
| Elf.DecodeEncodeEhdr | bootloader/elf.h:17-32 | reading back a laid-out `Elf64_Ehdr` gives every field back, so the offsets used for decoding are those of the struct |
| Elf.EncodeDecodeEhdr | bootloader/elf.h:17-32 | the fourteen fields cover all 64 header bytes without gaps: any 64 bytes are the layout of the header decoded from them |
| Elf.DecodeEncodePhdr | bootloader/elf.h:34-43 | reading back a laid-out `Elf64_Phdr` gives every field back |
| Elf.EncodeDecodePhdr | bootloader/elf.h:34-43 | the eight fields cover all 56 program-header bytes without gaps |
| Elf.MagicIsIdentPrefix | bootloader/bootloader.c:67-70 | the magic check holds exactly when the first four identification bytes are 0x7f 'E' 'L' 'F' |
| Elf.EncodedMagic | bootloader/elf.h:5-13 | a laid-out header passes the magic check exactly when `e_ident[EI_MAG0..EI_MAG3]` are `ELFMAG0..ELFMAG3` |
| BootInfoAbi.EncodeBootInfo | kernel/bootinfo.h:4-10 | the record occupies 24 bytes: an 8-byte pointer and four 32-bit fields |
| BootInfoAbi.DecodeEncodeBootInfo | kernel/bootinfo.h:4-10 | what the loader stores is what the kernel reads, field for field |
| BootInfoAbi.EncodeDecodeBootInfo | bootloader/bootloader.c:7-13 | the five fields fill the 24 bytes with no padding: any 24 bytes are the layout of exactly one record |
| Uefi.ExitWithCurrentKey | bootloader/bootloader.c:138-139 | `ExitBootServices` with the key of the map as it stands succeeds and ends boot services |
| Uefi.StaleKeyRefused | bootloader/bootloader.c:135-140 | a key read before a change of the memory map is refused with `EFI_INVALID_PARAMETER` and boot services stay up |
| Uefi.AddressInPages | bootloader/bootloader.c:76-79 | every address of an aligned allocation of `pages` pages lies in one of the page frames it reserves |
| Uefi.Overwrite | bootloader/bootloader.c:81 | memory after copying `src` to `dst`: the bytes at `dst..dst+|src|` are `src`, all others unchanged, length unchanged |
| Uefi.Fill | bootloader/bootloader.c:82 | memory after setting `n` bytes at `dst` to `v`: those bytes are `v`, all others unchanged |
| Uefi.Firmware.AllocatePages | bootloader/bootloader.c:78-80 | at a page-aligned, in-memory, wholly free range the pages become reserved and the map key advances; otherwise `EFI_NOT_FOUND` and nothing changes |
| Uefi.Firmware.AllocatePool | bootloader/bootloader.c:121-123 | succeeds exactly when the pool has `size` bytes left, taking them and advancing the map key; otherwise `EFI_OUT_OF_RESOURCES` and nothing changes |
| Uefi.Firmware.GetMemoryMap | bootloader/bootloader.c:135 | reports the map's size, the current map key and the descriptor size, changing nothing |
| Uefi.Firmware.ExitBootServices | bootloader/bootloader.c:139-140 | succeeds and ends boot services exactly when given the current key; otherwise `EFI_INVALID_PARAMETER` with the phase unchanged |
| Uefi.Firmware.CopyMem | bootloader/bootloader.c:81 | the loop leaves memory equal to `Overwrite` of the old memory with the `n` source bytes from `off` |
| Uefi.Firmware.SetMem | bootloader/bootloader.c:82 | the loop leaves memory equal to `Fill` of the old memory |
| ElfLoader.HeadersIgnorePhentsize | bootloader/bootloader.c:73-74 | two images that differ only in the `e_phentsize` bytes, with the table after the file header, have the same program header table |
| ElfLoader.HeadersUpToIgnorePhentsize | bootloader/bootloader.c:73-74 | the same holds for every prefix of the table |
| ElfLoader.PageCount | bootloader/bootloader.c:76 | `(p_memsz + 0xfff) / 0x1000` is the fewest whole pages holding `p_memsz` bytes |
| ElfLoader.ReadPhdr | bootloader/bootloader.c:73-74 | the header read at `e_phoff + k * sizeof(Elf64_Phdr)` is the k-th of the table (`HeadersIgnorePhentsize`: the walk does not depend on `e_phentsize`) |
| ElfLoader.LoadSegmentEffect | bootloader/bootloader.c:75-82 | a non-`PT_LOAD` header changes nothing; a `PT_LOAD` header either is refused with nothing changed, or reserves exactly its pages, advances the key, holds the file bytes then zeros at `p_paddr`, and changes no byte outside its segment |
| ElfLoader.FailureSticks | bootloader/bootloader.c:80 | once an allocation fails, later headers do not change the outcome |
| ElfLoader.RefusalStopsLoading | bootloader/bootloader.c:78-80 | a refused allocation for header k ends the load with `EFI_NOT_FOUND` and the state the first k headers left |
| ElfLoader.LoadedSegmentsIntact | bootloader/bootloader.c:74-83 | after a successful walk every `PT_LOAD` segment holds its image, page-aligned on reserved pages: no later segment overwrote it |
| ElfLoader.OnlySegmentsChange | bootloader/bootloader.c:74-83 | after a successful walk every byte outside all segments has its old value |
| ElfLoader.AllocationsPerformed | bootloader/bootloader.c:74-80 | after a successful walk the reserved frames grew by exactly the requested pages, and the map key advanced once per `PT_LOAD` header |
| ElfLoader.PlaceSegment | bootloader/bootloader.c:76-82 | the method's effect on the firmware is exactly `LoadSegment` on its state |
| ElfLoader.LoadElf | bootloader/bootloader.c:64-86 | computes `LoadElfSpec` on the firmware: `EFI_LOAD_ERROR` with nothing changed without the magic; on success it returns `e_entry` |
| Loader.SelectMode | bootloader/bootloader.c:98-106 | the selected mode is the last one whose query succeeded at no less than 640×480, or 0 when there is none |
| Loader.BestModeUnique | bootloader/bootloader.c:98-106 | that rule determines a single mode number |
| Loader.FormatTag | bootloader/bootloader.c:128-129 | the tag is 0 or 1, and 0 exactly for `PixelRedGreenBlueReserved8BitPerColor` |
| Loader.MakeBootInfo | bootloader/bootloader.c:124-129 | the record carries one of the two documented `pixel_format` values |
| Loader.HandoffDescribesMode | bootloader/bootloader.c:124-129 | what the kernel reads back is the current mode's frame buffer, resolution and scanline length, and tag 0 exactly for the red-green-blue format |
| Loader.HandoffColourOrder | bootloader/bootloader.c:128-129 | through the tag the loader hands over, the kernel stores blue, green, red, 0 for a red-green-blue-reserved mode and red, green, blue, 0 for a blue-green-red-reserved mode: the reverse of each mode's byte order |
| Loader.ExitWithMapKey | bootloader/bootloader.c:131-140 | sizing the map, allocating its buffer, reading the key and calling `ExitBootServices` ends boot services exactly when the firmware does not change the map after the last `GetMemoryMap`; otherwise `EFI_INVALID_PARAMETER` with boot services still up |
| Loader.EfiMain | bootloader/bootloader.c:98-144 | a kernel read or load failure is returned as is. With the kernel loaded, `efi_main` fails with `EFI_OUT_OF_RESOURCES` when the pool cannot hold `BootInfo`, and otherwise jumps exactly when the map does not change after the last `GetMemoryMap` (in the model that call always reports the current key; see Left out). A jump goes to `e_entry` with the mode's `BootInfo` after boot services have ended, with the memory and reserved pages `LoadElfSpec` produced; every return is an error status with boot services still up |
| Kernel.PackColour | kernel/kernel.c:12-14 | for tag 0 the word's bytes 2, 1, 0 are r, g, b; for any other tag they are b, g, r; the top byte is zero, so the word is below 2^24 |
| Kernel.PixelBytes | kernel/kernel.c:12-15 | the stored word lies in memory as blue, green, red, 0 for tag 0 and red, green, blue, 0 for other tags |
| Kernel.PixelIndexDecodes | kernel/kernel.c:11 | the word of a visible pixel lies in the first height scanlines, at row y and column x |
| Kernel.IsPixelIff | kernel/kernel.c:44-46 | the visible words are exactly `y * pixels_per_scanline + x` with `x < width` and `y < height` |
| Kernel.OffsetDoesNotWrap | kernel/kernel.c:11 | for a visible pixel the 32-bit product and sum computing the offset do not wrap |
| Kernel.PutPx | kernel/kernel.c:6-16 | out of bounds the frame buffer is unchanged; in bounds only the word at `y * pixels_per_scanline + x` changes, to the packed colour |
| Kernel.ClearedStep | kernel/kernel.c:45-46 | clearing pixel (x, y) adds exactly its word to the cleared region |
| Kernel.ClearedRows | kernel/kernel.c:44-46 | a finished row is the start of the next row's region, and after the last row the region is every visible pixel |
| Kernel.ClearScreen | kernel/kernel.c:44-46 | after the loops every visible pixel is 0 and every other word has its old value |

## Left out

- `load_file` (bootloader/bootloader.c:19-61) goes through the firmware's file-system protocols. It is the parameter `kernel` of `Loader.EfiMain`: a status and the bytes read.
- `InitializeLib`, `LocateProtocol`, `QueryMode` and `SetMode` are firmware calls, and so is `Print` (bootloader/bootloader.c:91-96, 102, 107, 112, 117).
  - The answers of `QueryMode` are the sequence `queries`.
  - The mode current after `SetMode` is the parameter `mode`.
  - Messages and the `LocateProtocol` failure path are not modelled.
- Some control transfers are not modelled: the call through the entry point (bootloader/bootloader.c:143-144), the final `for(;;)` (:147), and the kernel's `hlt` loop (kernel/kernel.c:51). A jump is the terminal value `Jumped(entry, bootInfo)`.
- `draw_heart` (kernel/kernel.c:20-38) computes with floating point.
- The memory map holds no descriptors. `GetMemoryMap` reports its size, key and descriptor size. The too-small-buffer error is not modelled; the source ignores the status of that call and of the second `AllocatePool`.
- Uefi.Firmware.GetMemoryMap: never fails in the model and always reports the current key. In the source the `AllocatePool` at bootloader/bootloader.c:137 is unchecked. If it fails, `mem_map` stays NULL, the call at :138 is refused and writes no key, and :139 passes whatever :135 left in `map_key`. So the "exactly when the map does not change" of `Loader.ExitWithMapKey` and `Loader.EfiMain` holds only when that allocation succeeds or :135 already wrote the current key.
- Pool allocations are a byte budget, not address ranges in memory. `BootInfo` is handed to the kernel as a value; its 24-byte layout is `BootInfoAbi.EncodeBootInfo`.
- The page allocator is deterministic: a request succeeds exactly when the range is aligned, lies in memory and is free. Memory types (`EfiLoaderData`) are not modelled, and physical memory is at most 2^64 bytes.
- ElfLoader.LoadElf: requires at least the four magic bytes and, once the magic matches, `LoadableImage`. `load_elf` checks neither. `LoadableImage` asks every `PT_LOAD` header to be sane, including headers after one whose allocation is refused, which `load_elf` never reads because it returns at bootloader/bootloader.c:80. What it does when they fail (out-of-bounds reads, or a negative `SetMem` length wrapping around) is not modelled.
- `p_vaddr`, `p_flags`, `p_align`, `e_phentsize` and the other header fields are decoded but not used, as in `load_elf`.
- Kernel.PutPx: the frame buffer is an array parameter rather than the cast of `bi->framebuffer`. It requires `FramebufferFits`: `pixels_per_scanline >= width`, and `height * pixels_per_scanline` words fit both in the buffer and in 32 bits. `put_px` does not check these.
- Kernel.ClearScreen: requires `FramebufferFits`, as `PutPx` does.
