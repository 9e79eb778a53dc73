/** load_elf: checks the ELF identification magic, walks the program header
    table, and for every PT_LOAD segment allocates its pages at exactly
    p_paddr, copies p_filesz bytes from the image and zero-fills the rest of
    p_memsz; on success it hands back e_entry.

    The specification is LoadElfSpec, a function of the image and the machine
    state; LoadElf is the loop that computes it on the firmware object. */
module ElfLoader {
  import opened Words
  import opened Elf
  import opened Uefi

  /** (p_memsz + 0xfff) / 0x1000: the fewest pages that hold p_memsz bytes. */
  function PageCount(memsz: nat): (n: nat)
    ensures n * PAGE_SIZE >= memsz
    ensures n == 0 || (n - 1) * PAGE_SIZE < memsz
  {
    (memsz + 0xfff) / 0x1000
  }

  /** Where the k-th program header starts: e_phoff advanced k times by sizeof(Elf64_Phdr).
      e_phentsize is not consulted. */
  function PhdrOffset(eh: Ehdr, k: nat): nat {
    eh.phoff + k * PHDR_SIZE
  }

  /** The file header and the whole program header table lie inside the image. */
  predicate TableInImage(elf: seq<byte>) {
    |elf| >= EHDR_SIZE && PhdrOffset(DecodeEhdr(elf), DecodeEhdr(elf).phnum) <= |elf|
  }

  /** The k-th program header of the table. */
  function PhdrAt(elf: seq<byte>, k: nat): Phdr
    requires TableInImage(elf) && k < DecodeEhdr(elf).phnum
  {
    var off := PhdrOffset(DecodeEhdr(elf), k);
    DecodePhdr(elf[off..off + PHDR_SIZE])
  }

  /** The first n program headers, in table order. */
  function HeadersUpTo(elf: seq<byte>, n: nat): (phs: seq<Phdr>)
    requires TableInImage(elf) && n <= DecodeEhdr(elf).phnum
    ensures |phs| == n
  {
    if n == 0 then [] else HeadersUpTo(elf, n - 1) + [PhdrAt(elf, n - 1)]
  }

  /** The program header table. */
  function Headers(elf: seq<byte>): (phs: seq<Phdr>)
    requires TableInImage(elf)
    ensures |phs| == DecodeEhdr(elf).phnum
  {
    HeadersUpTo(elf, DecodeEhdr(elf).phnum)
  }

  lemma {:induction false} HeadersUpToIndex(elf: seq<byte>, n: nat, k: nat)
    requires TableInImage(elf) && k < n <= DecodeEhdr(elf).phnum
    ensures HeadersUpTo(elf, n)[k] == PhdrAt(elf, k)
    decreases n
  {
    if k < n - 1 {
      HeadersUpToIndex(elf, n - 1, k);
    }
  }

  /** Two images that differ at most in the e_phentsize bytes of the file
      header, with the table after the file header: the loader walks the same
      table in both, since it steps by sizeof(Elf64_Phdr), never by e_phentsize. */
  predicate SameButPhentsize(elf: seq<byte>, elf': seq<byte>) {
    |elf'| == |elf| >= EHDR_SIZE &&
    forall i :: 0 <= i < |elf| && !(E_PHENTSIZE <= i < E_PHNUM) ==> elf'[i] == elf[i]
  }

  lemma HeadersIgnorePhentsize(elf: seq<byte>, elf': seq<byte>)
    requires SameButPhentsize(elf, elf') && TableInImage(elf) && DecodeEhdr(elf).phoff >= EHDR_SIZE
    ensures TableInImage(elf') && Headers(elf') == Headers(elf)
  {
    SliceOutsidePhentsize(elf, elf', E_PHOFF, E_PHOFF + 8);
    SliceOutsidePhentsize(elf, elf', E_PHNUM, E_PHNUM + 2);
    var eh, eh' := DecodeEhdr(elf), DecodeEhdr(elf');
    assert eh'.phoff == eh.phoff && eh'.phnum == eh.phnum;
    HeadersUpToIgnorePhentsize(elf, elf', eh.phnum);
  }

  lemma {:induction false} HeadersUpToIgnorePhentsize(elf: seq<byte>, elf': seq<byte>, n: nat)
    requires SameButPhentsize(elf, elf') && TableInImage(elf) && TableInImage(elf')
    requires DecodeEhdr(elf).phoff >= EHDR_SIZE
    requires DecodeEhdr(elf').phoff == DecodeEhdr(elf).phoff
    requires n <= DecodeEhdr(elf).phnum == DecodeEhdr(elf').phnum
    ensures HeadersUpTo(elf', n) == HeadersUpTo(elf, n)
    decreases n
  {
    if n > 0 {
      HeadersUpToIgnorePhentsize(elf, elf', n - 1);
      PhdrAtIgnorePhentsize(elf, elf', n - 1);
    }
  }

  lemma PhdrAtIgnorePhentsize(elf: seq<byte>, elf': seq<byte>, k: nat)
    requires SameButPhentsize(elf, elf') && TableInImage(elf) && TableInImage(elf')
    requires DecodeEhdr(elf).phoff >= EHDR_SIZE
    requires DecodeEhdr(elf').phoff == DecodeEhdr(elf).phoff
    requires k < DecodeEhdr(elf).phnum == DecodeEhdr(elf').phnum
    ensures PhdrAt(elf', k) == PhdrAt(elf, k)
  {
    var eh := DecodeEhdr(elf);
    var off := PhdrOffset(eh, k);
    assert off + PHDR_SIZE == PhdrOffset(eh, k + 1) <= PhdrOffset(eh, eh.phnum);
    SliceOutsidePhentsize(elf, elf', off, off + PHDR_SIZE);
  }

  lemma SliceOutsidePhentsize(elf: seq<byte>, elf': seq<byte>, i: nat, j: nat)
    requires SameButPhentsize(elf, elf') && (j <= E_PHENTSIZE || E_PHNUM <= i) && i <= j <= |elf|
    ensures elf'[i..j] == elf[i..j]
  {
    assert forall k :: i <= k < j ==> elf'[k] == elf[k];
  }

  /** What load_elf relies on, without checking, for a PT_LOAD header: its file
      bytes are inside the image, p_filesz <= p_memsz (so the zero-fill length
      does not wrap), and p_memsz + 0xfff does not overflow. */
  predicate SegmentSane(elf: seq<byte>, ph: Phdr) {
    ph.ptype == PT_LOAD ==>
      ph.offset + ph.filesz <= |elf| && ph.filesz <= ph.memsz && ph.memsz + 0xfff < ADDRESS_SPACE
  }

  predicate SaneTable(elf: seq<byte>, phs: seq<Phdr>) {
    forall k :: 0 <= k < |phs| ==> SegmentSane(elf, phs[k])
  }

  /** What load_elf relies on for an image whose magic matches. */
  predicate LoadableImage(elf: seq<byte>) {
    TableInImage(elf) && SaneTable(elf, Headers(elf))
  }

  /** Address a belongs to the memory image of segment ph. */
  predicate InSegment(ph: Phdr, a: nat) {
    ph.ptype == PT_LOAD && ph.paddr <= a < ph.paddr + ph.memsz
  }

  /** The memory image of a loadable segment: [p_paddr, p_paddr + p_filesz) holds
      the file bytes [p_offset, p_offset + p_filesz), and the rest up to p_memsz is zero. */
  ghost predicate SegmentImage(mem: seq<byte>, elf: seq<byte>, ph: Phdr) {
    && ph.offset + ph.filesz <= |elf|
    && ph.filesz <= ph.memsz
    && ph.paddr + ph.memsz <= |mem|
    && mem[ph.paddr..ph.paddr + ph.filesz] == elf[ph.offset..ph.offset + ph.filesz]
    && forall a :: ph.paddr + ph.filesz <= a < ph.paddr + ph.memsz ==> mem[a] == 0
  }

  /** A loaded segment: its image is in memory, at a page-aligned address,
      on pages that are reserved. */
  ghost predicate Placed(m: Machine, elf: seq<byte>, ph: Phdr) {
    SegmentImage(m.mem, elf, ph) && ph.paddr % PAGE_SIZE == 0 &&
    PagesOf(ph.paddr, PageCount(ph.memsz)) <= m.reserved
  }

  /** One pass of the loop body for header ph. */
  function LoadSegment(elf: seq<byte>, ph: Phdr, m: Machine): (o: Outcome)
    requires SegmentSane(elf, ph) && m.phase.Boot? && |m.mem| <= ADDRESS_SPACE
    ensures o.m.phase.Boot? && |o.m.mem| == |m.mem|
  {
    if ph.ptype != PT_LOAD then Outcome(Success, m)
    else
      var alloc := AllocatePagesAt(m, ph.paddr, PageCount(ph.memsz));
      if alloc.status != Success then alloc
      else
        var copied := Overwrite(alloc.m.mem, ph.paddr, elf[ph.offset..ph.offset + ph.filesz]);
        Outcome(Success, alloc.m.(mem := Fill(copied, ph.paddr + ph.filesz, ph.memsz - ph.filesz, 0)))
  }

  /** The outcome after the first n headers of table phs, stopping at the first refusal. */
  function LoadUpTo(elf: seq<byte>, phs: seq<Phdr>, n: nat, m0: Machine): (o: Outcome)
    requires SaneTable(elf, phs) && n <= |phs|
    requires m0.phase.Boot? && |m0.mem| <= ADDRESS_SPACE
    ensures o.m.phase.Boot? && |o.m.mem| == |m0.mem|
    decreases n
  {
    if n == 0 then Outcome(Success, m0)
    else
      var prev := LoadUpTo(elf, phs, n - 1, m0);
      if prev.status != Success then prev else LoadSegment(elf, phs[n - 1], prev.m)
  }

  /** load_elf as a function of the image and the machine state. */
  function LoadElfSpec(elf: seq<byte>, m0: Machine): Outcome
    requires |elf| >= 4 && (HasMagic(elf) ==> LoadableImage(elf))
    requires m0.phase.Boot? && |m0.mem| <= ADDRESS_SPACE
  {
    if !HasMagic(elf) then Outcome(LoadError, m0)
    else LoadUpTo(elf, Headers(elf), |Headers(elf)|, m0)
  }

  /** Number of PT_LOAD headers among the first n. */
  function LoadCount(phs: seq<Phdr>, n: nat): nat
    requires n <= |phs|
  {
    if n == 0 then 0
    else LoadCount(phs, n - 1) + (if phs[n - 1].ptype == PT_LOAD then 1 else 0)
  }

  /** The page frames requested for the PT_LOAD headers among the first n. */
  function RequestedPages(phs: seq<Phdr>, n: nat): set<nat>
    requires n <= |phs|
  {
    if n == 0 then {}
    else
      var ph := phs[n - 1];
      RequestedPages(phs, n - 1) + (if ph.ptype == PT_LOAD then PagesOf(ph.paddr, PageCount(ph.memsz)) else {})
  }

  /** Address a lies in none of the segments of the first n headers. */
  predicate Untouched(phs: seq<Phdr>, n: nat, a: nat)
    requires n <= |phs|
  {
    forall k :: 0 <= k < n ==> !InSegment(phs[k], a)
  }

  /** The effect of one header: a non-PT_LOAD header changes nothing; a PT_LOAD
      header asks for exactly PageCount(p_memsz) pages at p_paddr; if refused,
      nothing changes and the status is the allocator's; if granted, the pages
      are reserved, the map key moves on, the segment's image is in memory and no
      byte outside [p_paddr, p_paddr + p_memsz) changes. */
  lemma LoadSegmentEffect(elf: seq<byte>, ph: Phdr, m: Machine)
    requires SegmentSane(elf, ph) && m.phase.Boot? && |m.mem| <= ADDRESS_SPACE
    ensures var o := LoadSegment(elf, ph, m);
      && (ph.ptype != PT_LOAD ==> o == Outcome(Success, m))
      && (ph.ptype == PT_LOAD ==>
            && (o.status == Success <==> CanAllocate(|m.mem|, m.reserved, ph.paddr, PageCount(ph.memsz)))
            && (o.status != Success ==> o == Outcome(NotFound, m))
            && (o.status == Success ==>
                  && o.m.reserved == m.reserved + PagesOf(ph.paddr, PageCount(ph.memsz))
                  && o.m.phase == MapChange(m.phase)
                  && SegmentImage(o.m.mem, elf, ph)
                  && forall a :: 0 <= a < |m.mem| && !InSegment(ph, a) ==> o.m.mem[a] == m.mem[a]))
  {
    var o := LoadSegment(elf, ph, m);
    if ph.ptype == PT_LOAD && o.status == Success {
      var src := elf[ph.offset..ph.offset + ph.filesz];
      var copied := Overwrite(m.mem, ph.paddr, src);
      assert o.m.mem == Fill(copied, ph.paddr + ph.filesz, ph.memsz - ph.filesz, 0);
      forall j | 0 <= j < ph.filesz
        ensures o.m.mem[ph.paddr..ph.paddr + ph.filesz][j] == src[j]
      {
        assert copied[ph.paddr + j] == src[j];
      }
    }
  }

  /** A refused allocation ends the walk: the outcome at that point is the final one. */
  lemma {:induction false} FailureSticks(elf: seq<byte>, phs: seq<Phdr>, k: nat, n: nat, m0: Machine)
    requires SaneTable(elf, phs) && k <= n <= |phs|
    requires m0.phase.Boot? && |m0.mem| <= ADDRESS_SPACE
    requires LoadUpTo(elf, phs, k, m0).status != Success
    ensures LoadUpTo(elf, phs, n, m0) == LoadUpTo(elf, phs, k, m0)
    decreases n
  {
    if n > k {
      FailureSticks(elf, phs, k, n - 1, m0);
    }
  }

  /** If the allocation for the k-th header is refused, the walk ends with the
      allocator's status and the state the first k headers left: no later header
      is processed. */
  lemma RefusalStopsLoading(elf: seq<byte>, phs: seq<Phdr>, k: nat, m0: Machine)
    requires SaneTable(elf, phs) && k < |phs|
    requires m0.phase.Boot? && |m0.mem| <= ADDRESS_SPACE
    requires LoadUpTo(elf, phs, k, m0).status == Success
    requires phs[k].ptype == PT_LOAD
    requires !CanAllocate(|m0.mem|, LoadUpTo(elf, phs, k, m0).m.reserved, phs[k].paddr, PageCount(phs[k].memsz))
    ensures LoadUpTo(elf, phs, |phs|, m0) == Outcome(NotFound, LoadUpTo(elf, phs, k, m0).m)
  {
    var prev := LoadUpTo(elf, phs, k, m0);
    LoadSegmentEffect(elf, phs[k], prev.m);
    assert LoadUpTo(elf, phs, k + 1, m0) == Outcome(NotFound, prev.m);
    FailureSticks(elf, phs, k + 1, |phs|, m0);
  }

  /** Every address of an aligned segment lies on one of the pages requested for it. */
  lemma SegmentOnItsPages(ph: Phdr, a: nat)
    ensures InSegment(ph, a) && ph.paddr % PAGE_SIZE == 0 ==>
              PageOf(a) in PagesOf(ph.paddr, PageCount(ph.memsz))
  {
    if InSegment(ph, a) && ph.paddr % PAGE_SIZE == 0 {
      AddressInPages(ph.paddr, PageCount(ph.memsz), a);
    }
  }

  lemma SegmentImageFrame(mem: seq<byte>, mem': seq<byte>, elf: seq<byte>, ph: Phdr)
    requires SegmentImage(mem, elf, ph) && |mem'| == |mem|
    requires forall a :: 0 <= a < |mem| && InSegment(ph, a) ==> mem'[a] == mem[a]
    requires ph.ptype == PT_LOAD
    ensures SegmentImage(mem', elf, ph)
  {
    forall a | ph.paddr <= a < ph.paddr + ph.filesz
      ensures mem'[a] == mem[a]
    {
      assert InSegment(ph, a);
    }
    assert mem'[ph.paddr..ph.paddr + ph.filesz] == mem[ph.paddr..ph.paddr + ph.filesz];
    forall a | ph.paddr + ph.filesz <= a < ph.paddr + ph.memsz
      ensures mem'[a] == 0
    {
      assert InSegment(ph, a);
    }
  }

  /** A later granted segment cannot overlap an earlier one, because it is
      placed on pages that were still free. */
  lemma StepKeepsPlaced(elf: seq<byte>, ph: Phdr, q: Phdr, m: Machine)
    requires ph.ptype == PT_LOAD && Placed(m, elf, ph)
    requires SegmentSane(elf, q) && m.phase.Boot? && |m.mem| <= ADDRESS_SPACE
    requires LoadSegment(elf, q, m).status == Success
    ensures Placed(LoadSegment(elf, q, m).m, elf, ph)
  {
    LoadSegmentEffect(elf, q, m);
    var m' := LoadSegment(elf, q, m).m;
    if q.ptype == PT_LOAD {
      forall a | 0 <= a < |m.mem| && InSegment(ph, a)
        ensures m'.mem[a] == m.mem[a]
      {
        SegmentOnItsPages(ph, a);
        SegmentOnItsPages(q, a);
      }
      SegmentImageFrame(m.mem, m'.mem, elf, ph);
    }
  }

  /** After the first n headers have loaded, every PT_LOAD segment among them
      holds its image, on reserved pages: later segments did not overwrite it. */
  lemma {:induction false} LoadedSegmentsIntact(elf: seq<byte>, phs: seq<Phdr>, n: nat, m0: Machine)
    requires SaneTable(elf, phs) && n <= |phs|
    requires m0.phase.Boot? && |m0.mem| <= ADDRESS_SPACE
    requires LoadUpTo(elf, phs, n, m0).status == Success
    ensures forall k :: 0 <= k < n && phs[k].ptype == PT_LOAD ==>
              Placed(LoadUpTo(elf, phs, n, m0).m, elf, phs[k])
    decreases n
  {
    if n > 0 {
      var prev := LoadUpTo(elf, phs, n - 1, m0);
      assert prev.status == Success;
      LoadedSegmentsIntact(elf, phs, n - 1, m0);
      LoadSegmentEffect(elf, phs[n - 1], prev.m);
      forall k | 0 <= k < n && phs[k].ptype == PT_LOAD
        ensures Placed(LoadUpTo(elf, phs, n, m0).m, elf, phs[k])
      {
        if k < n - 1 {
          StepKeepsPlaced(elf, phs[k], phs[n - 1], prev.m);
        }
      }
    }
  }

  /** After the first n headers have loaded, a byte outside all their segments
      still has its old value. */
  lemma {:induction false} OnlySegmentsChange(elf: seq<byte>, phs: seq<Phdr>, n: nat, m0: Machine)
    requires SaneTable(elf, phs) && n <= |phs|
    requires m0.phase.Boot? && |m0.mem| <= ADDRESS_SPACE
    requires LoadUpTo(elf, phs, n, m0).status == Success
    ensures forall a :: 0 <= a < |m0.mem| && Untouched(phs, n, a) ==>
              LoadUpTo(elf, phs, n, m0).m.mem[a] == m0.mem[a]
    decreases n
  {
    if n > 0 {
      var prev := LoadUpTo(elf, phs, n - 1, m0);
      assert prev.status == Success;
      OnlySegmentsChange(elf, phs, n - 1, m0);
      LoadSegmentEffect(elf, phs[n - 1], prev.m);
      forall a | 0 <= a < |m0.mem| && Untouched(phs, n, a)
        ensures LoadUpTo(elf, phs, n, m0).m.mem[a] == m0.mem[a]
      {
        assert !InSegment(phs[n - 1], a);
        assert Untouched(phs, n - 1, a);
      }
    }
  }

  /** After the first n headers have loaded, exactly their PT_LOAD requests were
      granted: the reserved frames grew by those pages and the map key moved on
      once per PT_LOAD header, so at most once per header. */
  lemma {:induction false} AllocationsPerformed(elf: seq<byte>, phs: seq<Phdr>, n: nat, m0: Machine)
    requires SaneTable(elf, phs) && n <= |phs|
    requires m0.phase.Boot? && |m0.mem| <= ADDRESS_SPACE
    requires LoadUpTo(elf, phs, n, m0).status == Success
    ensures LoadUpTo(elf, phs, n, m0).m.reserved == m0.reserved + RequestedPages(phs, n)
    ensures LoadUpTo(elf, phs, n, m0).m.phase.key == m0.phase.key + LoadCount(phs, n)
    ensures LoadCount(phs, n) <= n
    decreases n
  {
    if n > 0 {
      var prev := LoadUpTo(elf, phs, n - 1, m0);
      assert prev.status == Success;
      AllocationsPerformed(elf, phs, n - 1, m0);
      LoadSegmentEffect(elf, phs[n - 1], prev.m);
    }
  }

  /** Reads the k-th program header at e_phoff + k * sizeof(Elf64_Phdr): it is the k-th of the table. */
  method ReadPhdr(elf: seq<byte>, ghost k: nat, off: nat) returns (ph: Phdr)
    requires TableInImage(elf) && k < DecodeEhdr(elf).phnum
    requires off == PhdrOffset(DecodeEhdr(elf), k)
    ensures ph == Headers(elf)[k]
  {
    HeadersUpToIndex(elf, DecodeEhdr(elf).phnum, k);
    ph := DecodePhdr(elf[off..off + PHDR_SIZE]);
  }

  /** The body of the loop for one PT_LOAD header: AllocatePages at p_paddr,
      then CopyMem of the file bytes and SetMem of the zero tail. */
  method PlaceSegment(fw: Firmware, elf: seq<byte>, ph: Phdr) returns (st: Status)
    requires fw.Valid() && fw.phase.Boot?
    requires ph.ptype == PT_LOAD && SegmentSane(elf, ph)
    modifies fw`reserved, fw`phase, fw.mem
    ensures fw.Valid() && fw.phase.Boot?
    ensures Outcome(st, fw.State()) == LoadSegment(elf, ph, old(fw.State()))
  {
    ghost var before := fw.State();
    var pages := (ph.memsz + 0xfff) / 0x1000;
    assert pages == PageCount(ph.memsz);
    var seg := ph.paddr;
    st := fw.AllocatePages(seg, pages);
    ghost var alloc := AllocatePagesAt(before, seg, pages);
    if st != Success {
      return;
    }
    ghost var granted := fw.State();
    assert granted == alloc.m;
    assert seg + ph.memsz <= fw.mem.Length;
    fw.CopyMem(seg, elf, ph.offset, ph.filesz);
    ghost var copied := fw.mem[..];
    fw.SetMem(seg + ph.filesz, ph.memsz - ph.filesz, 0);
    assert fw.State() == alloc.m.(mem := Fill(copied, seg + ph.filesz, ph.memsz - ph.filesz, 0));
  }

  /** load_elf on the firmware object: the method the bootloader runs. */
  method LoadElf(fw: Firmware, elf: seq<byte>) returns (st: Status, entry: u64)
    requires fw.Valid() && fw.phase.Boot?
    requires |elf| >= 4 && (HasMagic(elf) ==> LoadableImage(elf))
    modifies fw`reserved, fw`phase, fw.mem
    ensures fw.Valid() && fw.phase.Boot?
    ensures Outcome(st, fw.State()) == LoadElfSpec(elf, old(fw.State()))
    ensures !HasMagic(elf) ==> st == LoadError && fw.State() == old(fw.State())
    ensures st == Success ==> HasMagic(elf) && entry == DecodeEhdr(elf).entry
  {
    if !HasMagic(elf) {
      return LoadError, 0;
    }
    var eh := DecodeEhdr(elf);
    ghost var m0 := fw.State();
    ghost var phs := Headers(elf);
    var off: nat := eh.phoff;
    var i: u16 := 0;
    while i < eh.phnum
      invariant i <= eh.phnum
      invariant off == PhdrOffset(eh, i)
      invariant fw.Valid() && fw.phase.Boot? && fw.mem.Length == |m0.mem|
      invariant LoadUpTo(elf, phs, i, m0) == Outcome(Success, fw.State())
    {
      var ph := ReadPhdr(elf, i, off);
      if ph.ptype != PT_LOAD {
        i, off := i + 1, off + PHDR_SIZE;
        continue;
      }
      st := PlaceSegment(fw, elf, ph);
      if st != Success {
        FailureSticks(elf, phs, i as nat + 1, |phs|, m0);
        return st, 0;
      }
      i, off := i + 1, off + PHDR_SIZE;
    }
    return Success, eh.entry;
  }
}
