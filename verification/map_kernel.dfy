/** map_kernel (loader/src/main.rs) as it runs. */
module KernelLoader {
  import opened Bits
  import opened VirtualAddress
  import opened PhysicalMemory
  import opened Collections
  import opened FrameAllocation
  import opened PageTables
  import opened Mapper
  import opened PagingCode
  import opened KernelImage
  import opened KernelSteps
  import opened KernelPromise
  import opened KernelPages

  const MAX_MAPPED: nat := 100

  /** The ghost state `k` describes the machine, the allocator and the list of mapped pages. */
  ghost predicate Synced(m: Machine, a: FrameAllocator, mapped: array<MappedEntry>, count: nat, c: Ctx, k: K)
    reads m, a, mapped
  {
    count <= mapped.Length && k.vm == VmOf(m, a) && k.mapped == mapped[..count] && KInv(c, k)
  }

  /** What holds as long as only frames known to lie outside the image were handed out. */
  ghost predicate Tracked(m: Machine, a: FrameAllocator, mapped: array<MappedEntry>, count: nat, c: Ctx, k: K)
    reads m, a, mapped
  {
    a.next <= c.limit ==> Synced(m, a, mapped, count, c, k)
  }

  /** The page at virtual address `v` is recorded with, and mapped to, the file page `f`. */
  ghost predicate PageShown(c: Ctx, k: K, v: nat, f: nat) {
    exists n :: 0 <= n < |k.mapped| && k.mapped[n].frame == f && Indices(k.mapped[n].page) == Indices(v) &&
                Walk(k.vm.mem, c.root, Indices(v)) == Some(f)
  }

  lemma PageShownKept(c: Ctx, k: K, k': K, v: nat, f: nat)
    requires Keeps(c, k, k') && PageShown(c, k, v, f)
    ensures PageShown(c, k', v, f)
  {
    var n :| 0 <= n < |k.mapped| && k.mapped[n].frame == f && Indices(k.mapped[n].page) == Indices(v) &&
             Walk(k.vm.mem, c.root, Indices(v)) == Some(f);
    assert k'.mapped[n] == k.mapped[n];
  }

  /** More frames were asked for than there are. */
  ghost predicate Exhausted(a: FrameAllocator)
    reads a
  {
    a.next > |UsableFrames(a.memoryMap)|
  }

  // ---- Pages of the file -----------------------------------------------------------------------

  /** Maps one page of the file and records it; false is a panic. */
  method MapOneFilePage(m: Machine, a: FrameAllocator, l4: nat, virt: U64, phys: U64,
                        mapped: array<MappedEntry>, count: nat, ghost c: Ctx, ghost k: K)
    returns (ok: bool, ghost k': K)
    requires Reachable(m, a, 0) && l4 == c.root && mapped.Length == MAX_MAPPED && count <= MAX_MAPPED
    requires Tracked(m, a, mapped, count, c, k) && phys % 4096 == 0 && InImage(c, phys)
    modifies m, a, mapped
    ensures Reachable(m, a, 0) && old(a.next) <= a.next
    ensures ok ==> count < MAX_MAPPED
    ensures ok && a.next <= c.limit ==>
              Synced(m, a, mapped, count + 1, c, k') && Keeps(c, k, k') && PageShown(c, k', virt, phys) &&
              Spares(c, k, k') && k'.mapped == k.mapped + [MappedEntry(virt, phys)] && k'.zero == k.zero &&
              OnlyMoved(c, k, k', Indices(virt))
    ensures !ok && a.next <= c.limit ==>
              Exhausted(a) || count == MAX_MAPPED || virt % 4096 != 0 || Walk(k.vm.mem, c.root, Indices(virt)).Some?
  {
    hide Indices, New, MapAddress, Inv, Reachable, UsableFrames, OnlyMoved, Walk, Spares;
    k' := k;
    RequestOnlyTakesFrames(VmOf(m, a), l4, virt, phys, CheckFrameIsFree);
    if a.next <= c.limit {
      RefusedOnlyIf(k.vm, l4, k.paths, virt, phys, CheckFrameIsFree);
    }
    var r := MapPage(m, a, l4, virt, phys);
    if !r.Mapped? || count >= MAX_MAPPED {
      return false, k;
    }
    mapped[count] := MappedEntry(virt, phys);
    if a.next <= c.limit {
      k' := MapFilePage(c, k, virt, phys);
      assert k'.mapped[|k.mapped|] == MappedEntry(virt, phys);
      assert mapped[..count + 1] == old(mapped[..count]) + [MappedEntry(virt, phys)];
    }
    ok := true;
  }

  lemma FilePageOfByte(c: Ctx, s: Segment, o: nat, i: nat)
    requires c.kernel % 4096 == 0 && s.offset % 4096 == o
    ensures FrameBase(FileAddress(c, s, i)) == c.kernel + s.offset - o + (o + i) / 4096 * 4096
  {
    PageSplit(c.kernel, s.offset + i);
  }

  /** All `n` pages of the file part are shown. */
  ghost predicate PagesShown(c: Ctx, k: K, va: nat, pa: nat, n: nat) {
    forall t: nat :: t < n ==> PageShown(c, k, va + t * 4096, pa + t * 4096)
  }

  /** Page numbers of the file part. */
  lemma PageCount(o: nat, fileSize: nat, i: nat)
    requires fileSize > 0 && (i < fileSize || (i == fileSize && (o + i) % 4096 != 0))
    ensures (o + i) / 4096 < 1 + (fileSize - 1 + o) / 4096
  {
  }

  lemma ShownByte(c: Ctx, k: K, s: Segment, o: nat, n: nat, i: nat)
    requires c.kernel % 4096 == 0 && s.offset % 4096 == o && Base(s) % 4096 == o
    requires PagesShown(c, k, Base(s) - o, c.kernel + s.offset - o, n) && (o + i) / 4096 < n
    ensures PageShown(c, k, Base(s) + i, FrameBase(FileAddress(c, s, i)))
  {
    hide Indices, New, FrameBase;
    var t := (o + i) / 4096;
    PageOfByte(Base(s), o, i);
    FilePageOfByte(c, s, o, i);
    assert PageShown(c, k, Base(s) - o + t * 4096, c.kernel + s.offset - o + t * 4096);
  }

  lemma ShownIsBacked(c: Ctx, k: K, v: nat, b: nat)
    requires PageShown(c, k, v, FrameBase(b))
    ensures Backed(c, k, Indices(v), b)
  {
  }

  lemma FilePartShown(c: Ctx, k: K, s: Segment, o: nat)
    requires c.kernel % 4096 == 0 && s.offset % 4096 == o && Base(s) % 4096 == o && s.fileSize > 0
    requires PagesShown(c, k, Base(s) - o, c.kernel + s.offset - o, 1 + (s.fileSize - 1 + o) / 4096)
    ensures FileKept(c, k, s)
    ensures HasBoundary(s) ==> PageShown(c, k, Base(s) + s.fileSize, FrameBase(End(c, s)))
  {
    hide Indices, New, FrameBase, PageShown, Backed;
    var n := 1 + (s.fileSize - 1 + o) / 4096;
    forall i: nat | i < s.fileSize ensures FileByte(c, k, s, i) {
      PageCount(o, s.fileSize, i);
      ShownByte(c, k, s, o, n, i);
      ShownIsBacked(c, k, Base(s) + i, FileAddress(c, s, i));
    }
    if HasBoundary(s) {
      OffsetCongruent(s.offset, o, s.fileSize);
      PageCount(o, s.fileSize, s.fileSize);
      ShownByte(c, k, s, o, n, s.fileSize);
    }
  }

  lemma ShownSignExtended(c: Ctx, k: K, v: U64, f: nat)
    requires PageShown(c, k, New(v), f)
    ensures PageShown(c, k, v, f)
  {
    hide Indices, New;
    IndicesOfNew(v);
  }

  lemma NoPagesShown(c: Ctx, k: K, va: nat, pa: nat)
    ensures PagesShown(c, k, va, pa, 0)
  {
  }

  lemma KeepsItself(c: Ctx, k: K)
    ensures Keeps(c, k, k)
  {
  }

  lemma PagesShownKept(c: Ctx, k: K, k': K, va: nat, pa: nat, n: nat)
    requires PagesShown(c, k, va, pa, n) && Keeps(c, k, k')
    requires PageShown(c, k', va + n * 4096, pa + n * 4096)
    ensures PagesShown(c, k', va, pa, n + 1)
  {
    hide Indices, New;
    forall t: nat | t < n + 1 ensures PageShown(c, k', va + t * 4096, pa + t * 4096) {
      if t < n {
        PageShownKept(c, k, k', va + t * 4096, pa + t * 4096);
      }
    }
  }

  /** A file page of the segment lies in the image. */
  lemma FilePageInImage(c: Ctx, s: Segment, o: nat, t: nat)
    requires c.kernel % 4096 == 0 && c.size % 4096 == 0 && s.offset % 4096 == o
    requires s.offset + s.fileSize <= c.size && s.fileSize > 0 && t < 1 + (s.fileSize - 1 + o) / 4096
    ensures (c.kernel + s.offset - o + t * 4096) % 4096 == 0 && InImage(c, c.kernel + s.offset - o + t * 4096)
  {
  }

  /** The addresses of the run do not overflow and its pages are free. */
  ghost predicate RunFree(c: Ctx, k: K, va: nat, n: nat) {
    FreeFrom(c, k, va, 0, n) && Apart(va, n) && forall i :: 0 <= i < n ==> va + i * 4096 < TWO_64
  }

  /** The loop over the pages of the file part. */
  method MapRun(m: Machine, a: FrameAllocator, l4: nat, s: Segment, va: U64, pa: U64, n: nat,
                mapped: array<MappedEntry>, count0: nat, ghost c: Ctx, ghost k: K)
    returns (ok: bool, count: nat, ghost k': K)
    requires Reachable(m, a, 0) && l4 == c.root && mapped.Length == MAX_MAPPED && count0 <= MAX_MAPPED
    requires c.kernel % 4096 == 0 && c.size % 4096 == 0 && c.kernel + c.size <= TWO_52
    requires s.ty.Load? && s.fileSize > 0 && s.offset + s.fileSize <= c.size && Base(s) % 4096 == s.offset % 4096
    requires va == Base(s) - s.offset % 4096 && pa == c.kernel + s.offset - s.offset % 4096
    requires n == 1 + (s.fileSize - 1 + s.offset % 4096) / 4096
    requires Tracked(m, a, mapped, count0, c, k)
    modifies m, a, mapped
    ensures Reachable(m, a, 0) && old(a.next) <= a.next
    ensures ok ==> count == count0 + n <= MAX_MAPPED
    ensures !ok && a.next <= c.limit && RunFree(c, k, va, n) && count0 + n <= MAX_MAPPED ==> Exhausted(a)
    ensures ok && a.next <= c.limit ==>
              Synced(m, a, mapped, count, c, k') && Keeps(c, k, k') && PagesShown(c, k', va, pa, n) && Confined(c, k, k', s) && k'.zero == k.zero
  {
    hide Indices, New, And, KInv, Keeps, PageShown, PagesShown, FileKept, Reachable, Synced, Walk, Spares, Confined, FilePageOf;
    hide FreeFrom, Apart, OnlyMoved, Exhausted, PageAt, UsableFrames;
    count, k' := count0, k;
    ghost var o := s.offset % 4096;
    ghost var free := RunFree(c, k, va, n);
    var i := 0;
    NoPagesShown(c, k, va, pa);
    KeepsItself(c, k);
    ConfinedItself(c, k, s);
    while i < n
      invariant 0 <= i <= n && count == count0 + i <= MAX_MAPPED
      invariant Reachable(m, a, 0) && old(a.next) <= a.next
      invariant Tracked(m, a, mapped, count, c, k')
      invariant a.next <= c.limit ==> Keeps(c, k, k') && PagesShown(c, k', va, pa, i) && Confined(c, k, k', s) && k'.zero == k.zero
      invariant a.next <= c.limit && free ==> FreeFrom(c, k', va, i, n)
    {
      FilePageInImage(c, s, o, i);
      if a.next <= c.limit && free {
        NextIsFree(c, k', va, i, n);
      }
      var virt := Offset(va, i * 4096);
      if virt.Err? {
        return false, count, k';
      }
      ghost var k1 := k';
      IndicesOfNew(va + i * 4096);
      PageAtMeaning(va, i);
      ok, k' := MapOneFilePage(m, a, l4, virt.value, pa + i * 4096, mapped, count, c, k1);
      if !ok {
        return false, count, k';
      }
      count := count + 1;
      if a.next <= c.limit {
        FilePageStep(c, k, k1, k', s, o, i, n, virt.value, free);
      }
      i := i + 1;
    }
    ok := true;
  }

  /** The page part of map_kernel for one segment: all pages of the file part, or the one page of
      the start address if there is none. */
  method MapFilePages(m: Machine, a: FrameAllocator, l4: nat, s: Segment, virtStart: U64, physStart: U64,
                      mapped: array<MappedEntry>, count0: nat, ghost c: Ctx, ghost k: K)
    returns (ok: bool, count: nat, ghost k': K)
    requires Reachable(m, a, 0) && l4 == c.root && mapped.Length == MAX_MAPPED && count0 <= MAX_MAPPED
    requires c.kernel % 4096 == 0 && c.size % 4096 == 0 && c.kernel + c.size <= TWO_52
    requires s.ty.Load? && SegmentFits(c, s)
    requires virtStart == Base(s) && physStart == c.kernel + s.offset
    requires Tracked(m, a, mapped, count0, c, k)
    modifies m, a, mapped
    ensures Reachable(m, a, 0) && old(a.next) <= a.next
    ensures ok ==> count == count0 + FilePages(s) <= MAX_MAPPED
    ensures !ok && a.next <= c.limit && Roomy(s) && FreeFor(k.vm.mem, c.root, s) && count0 + FilePages(s) <= MAX_MAPPED ==> Exhausted(a)
    ensures ok && a.next <= c.limit ==>
              Synced(m, a, mapped, count, c, k') && Keeps(c, k, k') && FileKept(c, k', s) && Confined(c, k, k', s) && k'.zero == k.zero &&
              (HasBoundary(s) || s.fileSize == 0 ==> PageShown(c, k', Base(s) + s.fileSize, FrameBase(End(c, s))))
  {
    hide Indices, New, And, KInv, Keeps, PageShown, PagesShown, FileKept, Reachable, Synced, Walk, Spares, Confined, FilePageOf;
    hide Roomy, FreeFor, FreeFrom, Apart, OnlyMoved, Exhausted, PageAt, UsableFrames;
    count, k' := count0, k;
    ghost var o := s.offset % 4096;
    SegmentStart(c, s);
    ghost var free := Roomy(s) && FreeFor(k.vm.mem, c.root, s);
    if free {
      FilePagesFree(c, k, s);
      RoomyPages(s);
    }
    var va := AlignDown(virtStart);
    var pa := AlignDownU64(physStart);
    if s.fileSize != 0 {
      ok, count, k' := MapRun(m, a, l4, s, va, pa, 1 + (s.fileSize - 1 + virtStart - va) / 4096, mapped, count0, c, k);
      if !ok {
        return false, count, k';
      }
      if a.next <= c.limit {
        FilePartShown(c, k', s, o);
      }
    } else {
      FilePageInImageEmpty(c, s, o);
      if free {
        NextIsFree(c, k, va, 0, 1);
      }
      PageAtMeaning(va, 0);
      ok, k' := MapOneFilePage(m, a, l4, va, pa, mapped, count, c, k);
      if !ok {
        return false, count, k';
      }
      count := count + 1;
      if a.next <= c.limit {
        EmptyPartShown(c, k', s, o);
        FilePageNumber(s, o, 0, va);
        EntryConfined(c, k, k', s, MappedEntry(va, pa));
      }
    }
    ok := true;
  }

  /** One turn of the loop over the file pages. */
  lemma FilePageStep(c: Ctx, k: K, k1: K, k': K, s: Segment, o: nat, i: nat, n: nat, virt: U64, free: bool)
    requires s.ty.Load? && Base(s) % 4096 == o && s.offset >= o && (i == 0 || i * 4096 <= s.fileSize - 1 + o)
    requires Base(s) - o + i * 4096 < TWO_64 && virt == New(Base(s) - o + i * 4096)
    requires Keeps(c, k, k1) && PagesShown(c, k1, Base(s) - o, c.kernel + s.offset - o, i) && Confined(c, k, k1, s)
    requires Keeps(c, k1, k') && PageShown(c, k', virt, c.kernel + s.offset - o + i * 4096) && Spares(c, k1, k')
    requires k'.mapped == k1.mapped + [MappedEntry(virt, c.kernel + s.offset - o + i * 4096)] && k'.zero == k1.zero
    requires free ==> FreeFrom(c, k1, Base(s) - o, i, n) && Apart(Base(s) - o, n) && OnlyMoved(c, k1, k', Indices(virt))
    ensures Keeps(c, k, k') && PagesShown(c, k', Base(s) - o, c.kernel + s.offset - o, i + 1) && Confined(c, k, k', s)
    ensures free ==> FreeFrom(c, k', Base(s) - o, i + 1, n)
  {
    hide Indices, New, Keeps, PageShown, PagesShown, Spares, Confined, FilePageOf, FreeFrom, Apart, OnlyMoved, PageAt, Walk;
    var va, pa := Base(s) - o, c.kernel + s.offset - o;
    ShownSignExtended(c, k', va + i * 4096, pa + i * 4096);
    PagesShownKept(c, k1, k', va, pa, i);
    KeepsTransitive(c, k, k1, k');
    IndicesOfNew(va + i * 4096);
    FilePageNumber(s, o, i, virt);
    EntryConfined(c, k1, k', s, MappedEntry(virt, pa + i * 4096));
    ConfinedTransitive(c, k, k1, k', s);
    if free {
      PageAtMeaning(va, i);
      NextAreFree(c, k1, k', va, i, n);
    }
  }

  lemma NextIsFree(c: Ctx, k: K, start: nat, i: nat, n: nat)
    requires FreeFrom(c, k, start, i, n) && i < n
    ensures Walk(k.vm.mem, c.root, PageAt(start, i)).None?
  {
  }

  lemma PageAtMeaning(start: nat, t: nat)
    ensures PageAt(start, t) == Indices(start + t * 4096)
  {
  }

  /** The addresses of the file pages do not overflow. */
  lemma RoomyPages(s: Segment)
    requires s.ty.Load? && Roomy(s)
    ensures forall i :: 0 <= i < FilePages(s) ==> Base(s) - Base(s) % 4096 + i * 4096 < TWO_64
  {
    hide New, NewChecked;
    forall i | 0 <= i < FilePages(s) ensures Base(s) - Base(s) % 4096 + i * 4096 < TWO_64 {
      RoomyAddress(s, FirstByte(Base(s) % 4096, i));
    }
  }

  lemma SegmentStart(c: Ctx, s: Segment)
    requires s.ty.Load? && SegmentFits(c, s) && c.kernel % 4096 == 0 && c.kernel + s.offset < TWO_64
    ensures Base(s) % 4096 == s.offset % 4096
    ensures AlignDown(Base(s)) == Base(s) - s.offset % 4096
    ensures AlignDownU64(c.kernel + s.offset) == c.kernel + s.offset - s.offset % 4096
  {
    hide New, And, Indices, AlignDown, AlignDownU64, Canonical;
    IndicesOfNew(s.vaddr);
    NewSignExtends(s.vaddr);
    AlignDownMeaning(Base(s));
    AlignDownMeaning(c.kernel + s.offset);
    PageSplit(c.kernel, s.offset);
  }

  lemma FilePageInImageEmpty(c: Ctx, s: Segment, o: nat)
    requires c.kernel % 4096 == 0 && c.size % 4096 == 0 && s.offset % 4096 == o && s.offset < c.size
    ensures (c.kernel + s.offset - o) % 4096 == 0 && InImage(c, c.kernel + s.offset - o)
  {
  }

  lemma EmptyPartShown(c: Ctx, k: K, s: Segment, o: nat)
    requires c.kernel % 4096 == 0 && s.offset % 4096 == o && Base(s) % 4096 == o && s.fileSize == 0
    requires PageShown(c, k, Base(s) - o, c.kernel + s.offset - o)
    ensures FileKept(c, k, s) && PageShown(c, k, Base(s) + s.fileSize, FrameBase(End(c, s)))
  {
    hide Indices, New;
    PageOfByte(Base(s), o, 0);
    FilePageOfByte(c, s, o, 0);
  }

  // ---- The page where the file bytes end -------------------------------------------------------

  /** The copy: file bytes up to `end`, zeros behind. */
  lemma FilledCopy(c: Ctx, m: Memory, frame: nat, g: nat, d: nat)
    requires Intact(c, m) && c.kernel % 4096 == 0 && c.size % 4096 == 0
    requires frame % 4096 == 0 && InImage(c, frame) && g + 4096 <= |m| && d <= 4096
    ensures var m' := Store(Store(m, g, Bytes(m, frame, d)), g + d, Zeros(4096 - d));
            OnlyPageChanged(m, m', g) && CutContent(c, m', g, frame, frame + d)
  {
    hide Store, Bytes, Zeros;
    var m' := Store(Store(m, g, Bytes(m, frame, d)), g + d, Zeros(4096 - d));
    assert OnlyPageChanged(m, m', g) by {
      forall a: nat | !(g <= a < g + 4096) ensures ByteAt(m', a) == ByteAt(m, a) {
        StoredTwice(m, frame, g, d, a);
      }
    }
    forall a: nat | g <= a < g + 4096
      ensures ByteAt(m', a) == if frame + (a - g) < frame + d then ByteAt(c.image, frame + (a - g)) else 0
    {
      StoredTwice(m, frame, g, d, a);
      WholePageInImage(c, frame, a - g);
    }
  }

  lemma StoredTwice(m: Memory, frame: nat, g: nat, d: nat, a: nat)
    requires g + 4096 <= |m| && d <= 4096
    ensures var m' := Store(Store(m, g, Bytes(m, frame, d)), g + d, Zeros(4096 - d));
            && |m'| == |m|
            && ByteAt(m', a) ==
               if g <= a < g + d then ByteAt(m, frame + (a - g)) else if g + d <= a < g + 4096 then 0 else ByteAt(m, a)
  {
    hide Store, Bytes, Zeros;
  }

  lemma RemappedIntact(c: Ctx, k: K, frame: nat, g: nat, n: nat, vm': Vm, paths': Paths)
    requires KInv(c, k) && Remapped(c, k, frame, g, n, vm', paths')
    ensures Intact(c, vm'.mem) && |vm'.mem| == |k.vm.mem|
  {
    hide Shape, Indices, Walk, EntryOk, ZeroOk;
    assert ImagePlace(c, vm');
    TablesOutsideImage(c, vm', paths');
    IntactKept(c, k.vm.mem, vm'.mem, paths');
  }

  /** After the cut the page where the file bytes end shows the copy. */
  lemma CutPageIsCopied(c: Ctx, k: K, k': K, v: nat, end: nat)
    requires CutStep(c, k, k', FrameBase(end), end) && PageShown(c, k, v, FrameBase(end))
    ensures Copied(c, k', Indices(v), FrameBase(end))
  {
    hide Indices, Walk, FrameBase;
    var f := FrameBase(end);
    var n :| 0 <= n < |k.mapped| && k.mapped[n].frame == f && Indices(k.mapped[n].page) == Indices(v) &&
             Walk(k.vm.mem, c.root, Indices(v)) == Some(f);
    assert k'.mapped[n] == k.mapped[n];
  }

  /** The loop that moves every recorded page of the file page to the new frame. */
  method RemapPages(m: Machine, a: FrameAllocator, l4: nat, frameToCopy: nat, frame: U64,
                    mapped: array<MappedEntry>, count: nat, ghost c: Ctx, ghost k: K)
    returns (ok: bool, ghost paths: Paths)
    requires Reachable(m, a, 0) && l4 == c.root && mapped.Length == MAX_MAPPED && count <= MAX_MAPPED && frame < TWO_52
    requires Tracked(m, a, mapped, count, c, k)
    modifies m, a
    ensures Reachable(m, a, 0) && old(a.next) <= a.next
    ensures ok && a.next <= c.limit ==> Remapped(c, k, frameToCopy, frame, count, VmOf(m, a), paths)
    ensures !ok && a.next <= c.limit && frame % 4096 == 0 ==> Exhausted(a)
  {
    hide Indices, KInv, Remapped, Reachable, MapAddress, VmOf, UsableFrames, Exhausted;
    paths := k.paths;
    if a.next <= c.limit {
      RemapNone(c, k, frameToCopy, frame);
    }
    var i := 0;
    while i < count
      invariant 0 <= i <= count
      invariant Reachable(m, a, 0) && old(a.next) <= a.next
      invariant a.next <= c.limit ==> Remapped(c, k, frameToCopy, frame, i, VmOf(m, a), paths)
    {
      ghost var vm := VmOf(m, a);
      ghost var next := a.next;
      if mapped[i].frame == frameToCopy {
        NextOfRequest(m, a, l4, mapped[i].page, frame);
        if a.next <= c.limit {
          RemapRefused(c, k, frameToCopy, frame, i, vm, paths);
        }
        var r := RemapPage(m, a, l4, mapped[i].page, frame);
        OutOfFrames(m, a);
        NextOf(m, a);
        if !r.Mapped? {
          return false, paths;
        }
        if a.next <= c.limit {
          paths := RemapOne(c, k, frameToCopy, frame, i, vm, paths);
        }
      } else if a.next <= c.limit {
        RemapSkip(c, k, frameToCopy, frame, i, vm, paths);
      }
      i := i + 1;
    }
    ok := true;
  }

  lemma OutOfFrames(m: Machine, a: FrameAllocator)
    ensures Exhausted(a) <==> VmOf(m, a).next > |VmOf(m, a).frames|
  {
  }

  /** Moving a recorded page is refused only for lack of frames. */
  lemma RemapRefused(c: Ctx, k: K, frame: nat, g: U64, n: nat, vm: Vm, paths: Paths)
    requires KInv(c, k) && Remapped(c, k, frame, g, n, vm, paths) && n < |k.mapped|
    ensures var (vm', r) := MapAddress(vm, c.root, k.mapped[n].page, g, Remapping);
            vm'.frames == vm.frames && (r.Mapped? || vm'.next > |vm.frames| || g % 4096 != 0)
  {
    hide MapAddress, Inv, Indices, Walk;
    assert EntryOk(c, k, k.mapped[n]);
    RefusedOnlyIf(vm, c.root, paths, k.mapped[n].page, g, Remapping);
  }

  lemma NextOf(m: Machine, a: FrameAllocator)
    ensures VmOf(m, a).next == a.next
  {
  }

  lemma NextOfRequest(m: Machine, a: FrameAllocator, l4: nat, virt: U64, phys: U64)
    ensures a.next <= MapAddress(VmOf(m, a), l4, virt, phys, Remapping).0.next
  {
    hide MapAddress;
    RequestOnlyTakesFrames(VmOf(m, a), l4, virt, phys, Remapping);
  }

  /** A new frame takes the place of the page where the file bytes end; `d` of its bytes are file
      bytes.  False is a panic. */
  method ReplaceBoundaryPage(m: Machine, a: FrameAllocator, l4: nat, s: Segment, physEnd: U64, d: nat,
                             mapped: array<MappedEntry>, count: nat, ghost c: Ctx, ghost k: K)
    returns (ok: bool, ghost k': K)
    requires Reachable(m, a, 0) && l4 == c.root && mapped.Length == MAX_MAPPED && count <= MAX_MAPPED
    requires c.kernel % 4096 == 0 && c.size % 4096 == 0
    requires physEnd == End(c, s) && d == physEnd % 4096 && InImage(c, FrameBase(physEnd))
    requires Tracked(m, a, mapped, count, c, k)
    requires a.next <= c.limit ==> PageShown(c, k, Base(s) + s.fileSize, FrameBase(End(c, s)))
    modifies m, a
    ensures Reachable(m, a, 0) && old(a.next) <= a.next
    ensures ok && a.next <= c.limit ==>
              Synced(m, a, mapped, count, c, k') && CutStep(c, k, k', FrameBase(End(c, s)), End(c, s)) &&
              Copied(c, k', Indices(Base(s) + s.fileSize), FrameBase(End(c, s))) &&
              Spares(c, k, k') && k'.mapped == k.mapped && k'.zero == k.zero
    ensures !ok && a.next <= c.limit ==> Exhausted(a)
  {
    hide Copying, Zeroed, Store, Bytes, Zeros, Walk;
    hide Indices, KInv, New, Remapped, Copied, PageShown, CutStep, AlignDownU64, UsableFrames, And, Spares;
    k' := k;
    AlignDownMeaning(physEnd);
    var frameToCopy := AlignDownU64(physEnd);
    assert frameToCopy == FrameBase(physEnd);
    var frame := a.AllocateFrame();
    if frame.None? {
      return false, k;
    }
    var g := frame.value;
    FrameTaken(m, a, g);
    ghost var k1 := k.(vm := VmOf(m, a));
    if a.next <= c.limit {
      TakeFrameFacts(c, k, k1, g);
    }
    ghost var paths;
    ok, paths := RemapPages(m, a, l4, frameToCopy, g, mapped, count, c, k1);
    if !ok {
      return false, k;
    }
    ghost var vm2 := VmOf(m, a);
    m.CopyBytes(frameToCopy, g, d);
    m.WriteZeros(g + d, 4096 - d);
    if a.next <= c.limit {
      k' := FinishCut(c, k, k1, s, frameToCopy, d, g, vm2, paths, m.ram);
    }
  }

  lemma FrameTaken(m: Machine, a: FrameAllocator, g: nat)
    requires Reachable(m, a, 0) && a.next > 0 && Nth(UsableFrames(a.memoryMap), a.next - 1) == Some(g)
    ensures g < TWO_52 && g + 4096 <= |m.ram| && g % 4096 == 0
  {
    assert TablePlace(m.ram, UsableFrames(a.memoryMap)[a.next - 1]);
  }

  /** Taking a frame changes nothing but the allocator's counter. */
  lemma TakeFrameFacts(c: Ctx, k: K, k1: K, g: nat)
    requires KInv(c, k) && k1 == k.(vm := k.vm.(next := k.vm.next + 1)) && Nth(k.vm.frames, k.vm.next) == Some(g)
    requires k1.vm.next <= c.limit
    ensures KInv(c, k1) && OwnFrame(k1, g) && Unreferenced(c, k1, g)
  {
    hide KInv, OwnFrame, Unreferenced, Extends;
    TakeFrame(c, k);
  }

  lemma CutFromSameMemory(c: Ctx, k: K, k1: K, k': K, frame: nat, end: nat)
    requires CutStep(c, k1, k', frame, end) && k1 == k.(vm := k1.vm) && k1.vm.mem == k.vm.mem
    ensures CutStep(c, k, k', frame, end)
  {
    hide Indices, Walk;
  }

  lemma SparesFromSameMemory(c: Ctx, k: K, k1: K, k': K)
    requires Spares(c, k1, k') && k1 == k.(vm := k1.vm) && k1.vm.mem == k.vm.mem
    ensures Spares(c, k, k')
  {
    hide Indices, Walk, Recorded;
  }

  lemma FinishCut(c: Ctx, k: K, k1: K, s: Segment, frame: nat, d: nat, g: nat, vm2: Vm, paths: Paths, ram: Memory)
    returns (k': K)
    requires KInv(c, k1) && OwnFrame(k1, g) && Unreferenced(c, k1, g) && c.kernel % 4096 == 0 && c.size % 4096 == 0
    requires k1 == k.(vm := k1.vm) && k1.vm.mem == k.vm.mem
    requires Remapped(c, k1, frame, g, |k.mapped|, vm2, paths)
    requires frame == FrameBase(End(c, s)) && frame + d == End(c, s) && InImage(c, frame) && d <= 4096 && g + 4096 <= |k.vm.mem|
    requires frame % 4096 == 0
    requires ram == Store(Store(vm2.mem, g, Bytes(vm2.mem, frame, d)), g + d, Zeros(4096 - d))
    requires PageShown(c, k, Base(s) + s.fileSize, frame)
    ensures k'.vm == vm2.(mem := ram) && k'.mapped == k.mapped && KInv(c, k')
    ensures CutStep(c, k, k', frame, End(c, s)) && Copied(c, k', Indices(Base(s) + s.fileSize), frame)
    ensures k'.cut == k.cut[frame := End(c, s)] && k'.zero == k.zero && Spares(c, k, k')
  {
    hide Indices, New, OwnFrame, Unreferenced, Spares, Remapped, Copied, PageShown, KInv, Walk, FrameBase, End, CutStep;
    hide Intact, OnlyPageChanged, CutContent, Store, Bytes, Zeros;
    RemappedIntact(c, k1, frame, g, |k.mapped|, vm2, paths);
    FilledCopy(c, vm2.mem, frame, g, d);
    k' := CopyInPlace(c, k, k1, s, frame, g, vm2, paths, ram);
  }

  lemma CopyInPlace(c: Ctx, k: K, k1: K, s: Segment, frame: nat, g: nat, vm2: Vm, paths: Paths, ram: Memory)
    returns (k': K)
    requires KInv(c, k1) && OwnFrame(k1, g) && Unreferenced(c, k1, g) && k1 == k.(vm := k1.vm) && k1.vm.mem == k.vm.mem
    requires Remapped(c, k1, frame, g, |k.mapped|, vm2, paths) && frame == FrameBase(End(c, s)) && InImage(c, frame)
    requires OnlyPageChanged(vm2.mem, ram, g) && CutContent(c, ram, g, frame, End(c, s))
    requires PageShown(c, k, Base(s) + s.fileSize, frame)
    ensures k'.vm == vm2.(mem := ram) && k'.mapped == k.mapped && KInv(c, k')
    ensures CutStep(c, k, k', frame, End(c, s)) && Copied(c, k', Indices(Base(s) + s.fileSize), frame)
    ensures k'.cut == k.cut[frame := End(c, s)] && k'.zero == k.zero && Spares(c, k, k')
  {
    hide Indices, New, OwnFrame, Unreferenced, Spares, Remapped, Copied, PageShown, KInv, Walk, FrameBase, End, CutStep;
    hide OnlyPageChanged, CutContent;
    k' := CutKeepsK(c, k1, frame, End(c, s), g, vm2, paths, ram);
    CutFromSameMemory(c, k, k1, k', frame, End(c, s));
    SparesFromSameMemory(c, k, k1, k');
    CutPageIsCopied(c, k, k', Base(s) + s.fileSize, End(c, s));
  }

  // ---- Zero pages --------------------------------------------------------------------------------

  ghost predicate ZerosShown(k: K, z: nat, n: nat) {
    forall t: nat :: t < n ==> Indices(z + t * 4096) in k.zero
  }

  lemma ZerosShownKept(c: Ctx, k: K, k': K, z: nat, n: nat)
    requires ZerosShown(k, z, n) && Keeps(c, k, k') && Indices(z + n * 4096) in k'.zero
    ensures ZerosShown(k', z, n + 1)
  {
    hide Indices;
    forall t: nat | t < n + 1 ensures Indices(z + t * 4096) in k'.zero {
    }
  }

  /** The page is not mapped into the file. */
  ghost predicate NotInFile(c: Ctx, k: K, p: seq<nat>) {
    forall f :: Walk(k.vm.mem, c.root, p) == Some(f) ==> !InImage(c, f)
  }

  /** The zero pages that came after `k` are among the `n` pages from `start`. */
  ghost predicate ZerosFrom(k: K, k': K, start: nat, n: nat) {
    k'.mapped == k.mapped && forall p :: p in k'.zero ==> p in k.zero || exists t: nat :: t < n && p == Indices(start + t * 4096)
  }

  lemma ZerosFromNext(k: K, k1: K, k': K, start: nat, n: nat)
    requires ZerosFrom(k, k1, start, n) && k'.mapped == k1.mapped && k'.zero == k1.zero + {Indices(start + n * 4096)}
    ensures ZerosFrom(k, k', start, n + 1)
  {
    hide Indices;
    forall p | p in k'.zero && p !in k.zero ensures exists t: nat :: t < n + 1 && p == Indices(start + t * 4096) {
      if p in k1.zero {
        var t: nat :| t < n && p == Indices(start + t * 4096);
        assert t < n + 1;
      }
    }
  }

  /** Maps one fresh page and clears it; false is a panic. */
  method AddOneZeroPage(m: Machine, a: FrameAllocator, l4: nat, virt: U64,
                        mapped: array<MappedEntry>, count: nat, ghost c: Ctx, ghost k: K)
    returns (ok: bool, ghost k': K)
    requires Reachable(m, a, 0) && l4 == c.root && Tracked(m, a, mapped, count, c, k)
    modifies m, a
    ensures Reachable(m, a, 0) && old(a.next) <= a.next
    ensures ok && a.next <= c.limit ==>
              Synced(m, a, mapped, count, c, k') && Keeps(c, k, k') && Spares(c, k, k') && NotInFile(c, k, Indices(virt)) &&
              k'.mapped == k.mapped && k'.zero == k.zero + {Indices(virt)} && OnlyMoved(c, k, k', Indices(virt))
    ensures !ok && a.next <= c.limit ==> Exhausted(a) || virt % 4096 != 0 || Walk(k.vm.mem, c.root, Indices(virt)).Some?
  {
    hide Indices, KInv, Keeps, MapAddress, UsableFrames, Spares, OnlyMoved, Walk, Zeroed;
    k' := k;
    var frame := a.AllocateFrame();
    if frame.None? {
      return false, k;
    }
    var g := frame.value;
    FrameTaken(m, a, g);
    RequestOnlyTakesFrames(VmOf(m, a), l4, virt, g, CheckFrameIsFree);
    if a.next <= c.limit {
      ZeroRequest(c, k, virt, g);
    }
    var r := MapPage(m, a, l4, virt, g);
    if !r.Mapped? {
      return false, k;
    }
    m.WriteZeros(g, 4096);
    if a.next <= c.limit {
      k' := AddZeroPage(c, k, virt);
    }
    ok := true;
  }

  lemma ZeroRequest(c: Ctx, k: K, virt: U64, g: U64)
    requires KInv(c, k) && Nth(k.vm.frames, k.vm.next) == Some(g) && k.vm.next + 1 <= c.limit && g % 4096 == 0
    ensures var vm1 := k.vm.(next := k.vm.next + 1);
            var (vm', r) := MapAddress(vm1, c.root, virt, g, CheckFrameIsFree);
            r.Mapped? || vm'.next > |k.vm.frames| || virt % 4096 != 0 || Walk(k.vm.mem, c.root, Indices(virt)).Some?
  {
    hide KInv, MapAddress, Walk, Indices, OwnFrame, Unreferenced;
    TakeFrame(c, k);
    var k1 := k.(vm := k.vm.(next := k.vm.next + 1));
    TreeOfK(c, k1);
    RefusedOnlyIf(k1.vm, c.root, k.paths, virt, g, CheckFrameIsFree);
  }

  /** A run of `n` free pages from `start` on, without overflow. */
  ghost predicate RunToCome(c: Ctx, k: K, start: nat, n: nat) {
    start % 4096 == 0 && (n > 0 ==> start + (n - 1) * 4096 < TWO_64) && FreeFrom(c, k, start, 0, n) && Apart(start, n)
  }

  /** `n` fresh zero pages from virtual address `start`. */
  method AddZeroPages(m: Machine, a: FrameAllocator, l4: nat, start: U64, n: nat,
                      mapped: array<MappedEntry>, count: nat, ghost c: Ctx, ghost k: K)
    returns (ok: bool, ghost k': K)
    requires Reachable(m, a, 0) && l4 == c.root && n * 4096 < TWO_64 + 4096 && Tracked(m, a, mapped, count, c, k)
    modifies m, a
    ensures Reachable(m, a, 0) && old(a.next) <= a.next
    ensures ok && a.next <= c.limit ==>
              Synced(m, a, mapped, count, c, k') && Keeps(c, k, k') && ZerosShown(k', start, n) &&
              Spares(c, k, k') && ZerosFrom(k, k', start, n) && (n > 0 ==> NotInFile(c, k, Indices(start)))
    ensures !ok && a.next <= c.limit && RunToCome(c, k, start, n) ==> Exhausted(a)
  {
    hide Indices, New, Synced, Keeps, Reachable, Spares, NotInFile, ZerosFrom, FreeFrom, Apart, OnlyMoved, Exhausted, PageAt, Walk;
    ghost var free := RunToCome(c, k, start, n);
    k' := k;
    KeepsItself(c, k);
    SparesItself(c, k);
    assert ZerosFrom(k, k, start, 0) by { NoZerosYet(k, start); }
    var i := 0;
    while i < n
      invariant 0 <= i <= n
      invariant Reachable(m, a, 0) && old(a.next) <= a.next
      invariant a.next <= c.limit ==> Synced(m, a, mapped, count, c, k') && Keeps(c, k, k') && ZerosShown(k', start, i)
      invariant a.next <= c.limit ==> Spares(c, k, k') && ZerosFrom(k, k', start, i)
      invariant a.next <= c.limit ==> if i == 0 then k' == k else NotInFile(c, k, Indices(start))
      invariant a.next <= c.limit && free ==> FreeFrom(c, k', start, i, n)
    {
      var virt := Offset(start, i * 4096);
      if virt.Err? {
        return false, k';
      }
      ghost var k1 := k';
      IndicesOfNew(start + i * 4096);
      PageAtMeaning(start, i);
      if a.next <= c.limit && free {
        NextIsFree(c, k1, start, i, n);
      }
      ok, k' := AddOneZeroPage(m, a, l4, virt.value, mapped, count, c, k1);
      if !ok {
        return false, k';
      }
      if a.next <= c.limit {
        if free {
          NextAreFree(c, k1, k', start, i, n);
        }
        ZerosShownKept(c, k1, k', start, i);
        KeepsTransitive(c, k, k1, k');
        SparesTransitive(c, k, k1, k');
        ZerosFromNext(k, k1, k', start, i);
      }
      i := i + 1;
    }
    ok := true;
  }

  lemma NoZerosYet(k: K, start: nat)
    ensures ZerosFrom(k, k, start, 0)
  {
  }

  lemma BoundaryExtent(s: Segment, i: nat)
    requires s.ty.Load? && s.fileSize <= i && s.fileSize < s.memSize
    ensures AtBoundary(s, i) <==> (s.offset + s.fileSize) % 4096 != 0 && i - s.fileSize < 4096 - (s.offset + s.fileSize) % 4096
  {
    PageCarry(s.offset + s.fileSize, i - s.fileSize);
  }

  lemma PageCarry(e: nat, k: nat)
    ensures (e + k) / 4096 == e / 4096 <==> k < 4096 - e % 4096
  {
  }

  /** The byte `i` lies in zero page number `(i - first) / 4096`, where `first` is the first byte past the boundary page. */
  lemma ZeroPageOfByte(k: K, s: Segment, z: nat, first: nat, n: nat, i: nat)
    requires ZerosShown(k, z, n) && first <= i && (i - first) / 4096 < n
    requires z % TWO_48 == (Base(s) + first) % TWO_48 && (Base(s) + first) % 4096 == 0
    ensures ZeroByte(k, s, i)
  {
    hide Indices, New;
    var t, x := (i - first) / 4096, (i - first) % 4096;
    var page := Base(s) + first + t * 4096;
    CongruentAddresses(z, Base(s) + first, t * 4096);
    PagesOn(Base(s) + first, t);
    assert Base(s) + i == page + x;
    IndicesWithinPage(page, x);
    assert Indices(z + t * 4096) in k.zero;
  }

  lemma PagesOn(b: nat, t: nat)
    requires b % 4096 == 0
    ensures (b + t * 4096) % 4096 == 0
  {
  }

  /** The zero pages cover every zero byte past the boundary page. */
  lemma BssCovered(c: Ctx, k: K, s: Segment, z: nat, d: nat)
    requires s.ty.Load? && s.fileSize < s.memSize
    requires d == if (s.offset + s.fileSize) % 4096 == 0 then 4096 else (s.offset + s.fileSize) % 4096
    requires (Base(s) + s.fileSize) % 4096 == (s.offset + s.fileSize) % 4096
    requires HasBoundary(s) ==> Copied(c, k, Indices(Base(s) + s.fileSize), FrameBase(End(c, s)))
    requires s.memSize - s.fileSize > 4096 - d ==>
               z % TWO_48 == (Base(s) + s.fileSize + (4096 - d)) % TWO_48 &&
               ZerosShown(k, z, 1 + (s.memSize - s.fileSize - (4096 - d)) / 4096)
    ensures BssKept(c, k, s)
  {
    hide Indices, New, Copied, FrameBase, ZerosShown, ZeroByte;
    var first := s.fileSize + (4096 - d);
    forall i: nat | s.fileSize <= i < s.memSize && !AtBoundary(s, i) ensures ZeroByte(k, s, i) {
      BoundaryExtent(s, i);
      NextPageStart(Base(s) + s.fileSize, d);
      ZeroPageOfByte(k, s, z, first, 1 + (s.memSize - first) / 4096, i);
    }
  }

  lemma NextPageStart(b: nat, d: nat)
    requires d == if b % 4096 == 0 then 4096 else b % 4096
    ensures (b + (4096 - d)) % 4096 == 0
  {
  }

  lemma BoundaryInImage(c: Ctx, s: Segment)
    requires c.kernel % 4096 == 0 && c.size % 4096 == 0 && s.offset + s.fileSize <= c.size
    requires (s.offset + s.fileSize) % 4096 != 0
    ensures InImage(c, FrameBase(End(c, s)))
  {
    PageSplit(c.kernel, s.offset + s.fileSize);
  }

  /** Where the zero bytes start, as the code computes it. */
  lemma ZeroStart(c: Ctx, s: Segment, d: nat)
    requires s.ty.Load? && SegmentFits(c, s) && c.kernel % 4096 == 0 && Base(s) + s.fileSize < TWO_64
    requires d == if (s.offset + s.fileSize) % 4096 == 0 then 4096 else (s.offset + s.fileSize) % 4096
    ensures (Base(s) + s.fileSize) % 4096 == (s.offset + s.fileSize) % 4096 == End(c, s) % 4096
    ensures And(New(Base(s) + s.fileSize), 0xfff) == (s.offset + s.fileSize) % 4096
    ensures var z := New(Base(s) + s.fileSize) + (4096 - d);
            z < TWO_64 ==> New(z) % TWO_48 == (Base(s) + s.fileSize + (4096 - d)) % TWO_48
  {
    hide New, And, Indices;
    VirtualByte(s, s.fileSize);
    var v := Base(s) + s.fileSize;
    IndicesOfNew(v);
    PowersOfTwo();
    AndOnes(New(v), 12);
    PageSplit(c.kernel, s.offset + s.fileSize);
    NewSignExtends(v);
    SumsCongruent(New(v), v, 4096 - d);
    if New(v) + (4096 - d) < TWO_64 {
      NewSignExtends(New(v) + (4096 - d));
    }
  }

  /** The zero pages from `z` are pages of the segment. */
  lemma ZerosConfined(c: Ctx, k: K, k': K, s: Segment, z: nat, first: nat, n: nat)
    requires Spares(c, k, k') && ZerosFrom(k, k', z, n) && s.ty.Load? && s.fileSize < s.memSize
    requires z % TWO_48 == (Base(s) + first) % TWO_48 && (Base(s) + first) % 4096 == 0
    requires s.fileSize <= first && (n > 0 ==> first + (n - 1) * 4096 <= s.memSize)
    ensures Confined(c, k, k', s)
  {
    hide Indices, New, Spares;
    forall p | p in k'.zero && p !in k.zero ensures ZeroPageOf(s, p) {
      var t: nat :| t < n && p == Indices(z + t * 4096);
      CongruentAddresses(z, Base(s) + first, t * 4096);
      BytePage(s, first + t * 4096);
      assert s.fileSize <= first + t * 4096 <= s.memSize;
    }
  }

  /** If the zero bytes of a segment without file bytes begin with a page, that page is taken. */
  lemma BareStartIsTaken(c: Ctx, k: K, s: Segment, start: nat)
    requires BareStart(s) && SegmentFits(c, s) && c.kernel % 4096 == 0 && c.size % 4096 == 0
    requires PageShown(c, k, Base(s) + s.fileSize, FrameBase(End(c, s))) && start % TWO_48 == Base(s) % TWO_48
    ensures !NotInFile(c, k, Indices(start))
  {
    hide Indices, New;
    CongruentAddresses(start, Base(s), 0);
    PageSplit(c.kernel, s.offset);
    assert InImage(c, FrameBase(End(c, s)));
  }

  /** The zero part of map_kernel for one segment.  `k1` is the state after the boundary page. */
  method MapZeroPart(m: Machine, a: FrameAllocator, l4: nat, s: Segment, virtStart: U64, physEnd: U64,
                     mapped: array<MappedEntry>, count: nat, ghost c: Ctx, ghost k: K)
    returns (ok: bool, ghost k1: K, ghost k': K)
    requires Reachable(m, a, 0) && l4 == c.root && mapped.Length == MAX_MAPPED && count <= MAX_MAPPED
    requires c.kernel % 4096 == 0 && c.size % 4096 == 0
    requires s.ty.Load? && SegmentFits(c, s) && s.memSize > s.fileSize
    requires virtStart == Base(s) && physEnd == End(c, s)
    requires Tracked(m, a, mapped, count, c, k)
    requires a.next <= c.limit && (HasBoundary(s) || s.fileSize == 0) ==> PageShown(c, k, Base(s) + s.fileSize, FrameBase(End(c, s)))
    modifies m, a
    ensures Reachable(m, a, 0) && old(a.next) <= a.next
    ensures ok && a.next <= c.limit ==> Confined(c, k, k', s) && !BareStart(s)
    ensures !ok && a.next <= c.limit && Roomy(s) && ZeroFree(c, k, s) ==> Exhausted(a)
    ensures ok && a.next <= c.limit ==>
              Synced(m, a, mapped, count, c, k') && Keeps(c, k1, k') && BssKept(c, k', s) &&
              if HasBoundary(s) then CutStep(c, k, k1, FrameBase(End(c, s)), End(c, s)) else k1 == k
  {
    hide Indices, New, And, Synced, Keeps, Reachable, CutStep, Copied, PageShown, BssKept, FrameBase, ZerosShown;
    hide Spares, Confined, NotInFile, ZerosFrom, Roomy, ZeroFree, RunToCome, Exhausted, KInv;
    k1, k' := k, k;
    SparesItself(c, k);
    ghost var free := Roomy(s) && ZeroFree(c, k, s);
    if a.next <= c.limit {
      SyncedIsInv(m, a, mapped, count, c, k);
    }
    if free {
      RoomyAddress(s, s.fileSize);
      RoomyAddress(s, s.memSize);
    }
    ghost var n := 0;
    var zeroStart := Offset(virtStart, s.fileSize);
    var zeroEnd := Offset(virtStart, s.memSize);
    if zeroStart.Err? || zeroEnd.Err? {
      return false, k1, k';
    }
    ghost var dd := if (s.offset + s.fileSize) % 4096 == 0 then 4096 else (s.offset + s.fileSize) % 4096;
    ZeroStart(c, s, dd);
    var d: nat := And(zeroStart.value, 0xfff);
    if d != 0 {
      BoundaryInImage(c, s);
      ok, k1 := ReplaceBoundaryPage(m, a, l4, s, physEnd, d, mapped, count, c, k);
      if !ok {
        return false, k1, k';
      }
    } else {
      d := 4096;
    }
    k' := k1;
    KeepsItself(c, k1);
    SparesItself(c, k1);
    NoZerosYet(k1, 0);
    if a.next <= c.limit && free {
      ZeroRunToCome(c, k, k1, s, d);
    }
    ghost var z := 0;
    if s.memSize - s.fileSize > 4096 - d {
      var start := Offset(zeroStart.value, 4096 - d);
      if start.Err? {
        return false, k1, k';
      }
      var bytes := s.memSize - s.fileSize - (4096 - d);
      ok, k' := AddZeroPages(m, a, l4, start.value, 1 + bytes / 4096, mapped, count, c, k1);
      if !ok {
        return false, k1, k';
      }
      z, n := start.value, 1 + bytes / 4096;
    }
    if a.next <= c.limit {
      if HasBoundary(s) {
        CopiedKept(c, k1, k', Indices(Base(s) + s.fileSize), FrameBase(End(c, s)));
      }
      BssCovered(c, k', s, z, d);
      ZeroPartConfined(c, k, k1, k', s, z, d, n);
    }
    ok := true;
  }

  /** After the boundary page the zero pages are still to come. */
  lemma ZeroRunToCome(c: Ctx, k: K, k1: K, s: Segment, d: nat)
    requires s.ty.Load? && Roomy(s) && s.fileSize < s.memSize && ZeroFree(c, k, s)
    requires d == if (Base(s) + s.fileSize) % 4096 == 0 then 4096 else (Base(s) + s.fileSize) % 4096
    requires k1 == k || (KInv(c, k) && Spares(c, k, k1) && k1.mapped == k.mapped && k1.zero == k.zero)
    ensures s.memSize - s.fileSize > 4096 - d ==>
              var z := Base(s) + s.fileSize + (4096 - d);
              var n := 1 + (s.memSize - s.fileSize - (4096 - d)) / 4096;
              z < TWO_64 && New(z) == z && RunToCome(c, k1, z, n)
  {
    hide KInv, Spares, New, Roomy, ZeroFree, FreeFrom, Apart;
    if k1 != k {
      ZeroPagesFreeAfterCut(c, k, k1, s);
    }
    if s.memSize - s.fileSize > 4096 - d {
      var first := s.fileSize + (4096 - d);
      var n := 1 + (s.memSize - first) / 4096;
      RoomyAddress(s, first);
      RoomyAddress(s, s.memSize);
      NextPageStart(Base(s) + s.fileSize, d);
      ZeroRunFree(c, k1, s, first, n);
    }
  }

  lemma ZeroPartConfined(c: Ctx, k: K, k1: K, k': K, s: Segment, z: nat, d: nat, n: nat)
    requires s.ty.Load? && SegmentFits(c, s) && s.fileSize < s.memSize && c.kernel % 4096 == 0 && c.size % 4096 == 0
    requires d == if (s.offset + s.fileSize) % 4096 == 0 then 4096 else (s.offset + s.fileSize) % 4096
    requires (Base(s) + s.fileSize) % 4096 == (s.offset + s.fileSize) % 4096
    requires Spares(c, k, k1) && k1.mapped == k.mapped && k1.zero == k.zero && (!HasBoundary(s) ==> k1 == k)
    requires Spares(c, k1, k') && ZerosFrom(k1, k', z, n)
    requires n > 0 ==> s.memSize - s.fileSize > 4096 - d && n == 1 + (s.memSize - s.fileSize - (4096 - d)) / 4096
    requires n > 0 ==> z % TWO_48 == (Base(s) + s.fileSize + (4096 - d)) % TWO_48 && NotInFile(c, k1, Indices(z))
    requires n == 0 ==> s.memSize - s.fileSize <= 4096 - d && z == 0
    requires HasBoundary(s) || s.fileSize == 0 ==> PageShown(c, k, Base(s) + s.fileSize, FrameBase(End(c, s)))
    ensures Confined(c, k, k', s) && !BareStart(s)
  {
    hide Indices, New, Spares, PageShown, NotInFile, FrameBase, Walk;
    SparesTransitive(c, k, k1, k');
    var first := s.fileSize + (4096 - d);
    if n > 0 {
      NextPageStart(Base(s) + s.fileSize, d);
      assert ZerosFrom(k, k', z, n) by { ZerosFromEarlier(k, k1, k', z, n); }
      ZerosConfined(c, k, k', s, z, first, n);
    } else {
      assert Confined(c, k, k', s) by { ZerosFromEarlier(k, k1, k', z, n); NoZerosConfined(c, k, k', s, z); }
    }
    if BareStart(s) {
      assert n > 0 && first == 0;
      BareStartIsTaken(c, k, s, z);
    }
  }

  lemma ZerosFromEarlier(k: K, k1: K, k': K, z: nat, n: nat)
    requires ZerosFrom(k1, k', z, n) && k1.mapped == k.mapped && k1.zero == k.zero
    ensures ZerosFrom(k, k', z, n)
  {
    hide Indices;
  }

  lemma NoZerosConfined(c: Ctx, k: K, k': K, s: Segment, z: nat)
    requires Spares(c, k, k') && ZerosFrom(k, k', z, 0)
    ensures Confined(c, k, k', s)
  {
    hide Indices, Spares;
  }

  // ---- All segments ------------------------------------------------------------------------------

  ghost predicate AllPromised(c: Ctx, k: K, segs: seq<Segment>, n: nat) {
    && CutsFrom(c, k.cut, segs, n)
    && forall q :: 0 <= q < n && q < |segs| ==> Promised(c, k, segs[q])
  }

  lemma PromisesKept(c: Ctx, k: K, k': K, segs: seq<Segment>, n: nat)
    requires Keeps(c, k, k') && AllPromised(c, k, segs, n)
    ensures AllPromised(c, k', segs, n)
  {
    hide FileKept, BssKept, CutsFrom;
    forall q | 0 <= q < n && q < |segs| ensures Promised(c, k', segs[q]) {
      assert Promised(c, k, segs[q]);
      PromiseKept(c, k, k', segs[q]);
    }
    assert k'.cut == k.cut;
  }

  /** The replaced boundary page of segment `n` breaks no promise made for an earlier segment. */
  lemma PromisesKeptByCut(c: Ctx, k: K, k': K, segs: seq<Segment>, n: nat)
    requires n < |segs| && HasBoundary(segs[n]) && Ascending(segs) && AllPromised(c, k, segs, n)
    requires CutStep(c, k, k', FrameBase(End(c, segs[n])), End(c, segs[n]))
    ensures CutsFrom(c, k'.cut, segs, n + 1)
    ensures forall q :: 0 <= q < n ==> Promised(c, k', segs[q])
  {
    hide FileKept, BssKept, CutsFrom, FrameBase, Indices, Walk;
    var e := End(c, segs[n]);
    CutsAfterCut(c, k.cut, segs, n);
    forall q | 0 <= q < n ensures Promised(c, k', segs[q]) {
      assert Promised(c, k, segs[q]);
      if segs[q].ty.Load? {
        FileKeptAfterCut(c, k, k', segs[q], e);
        BssKeptAfterCut(c, k, k', segs[q], FrameBase(e), e);
      }
    }
  }

  lemma CutsWithoutBoundary(c: Ctx, cut: map<nat, nat>, segs: seq<Segment>, n: nat)
    requires CutsFrom(c, cut, segs, n) && n < |segs| && !HasBoundary(segs[n])
    ensures CutsFrom(c, cut, segs, n + 1)
  {
    hide FrameBase, HasBoundary, End;
    forall f | f in cut
      ensures exists j :: 0 <= j < n + 1 && HasBoundary(segs[j]) && FrameBase(End(c, segs[j])) == f && End(c, segs[j]) == cut[f]
    {
      var j :| 0 <= j < n && HasBoundary(segs[j]) && FrameBase(End(c, segs[j])) == f && End(c, segs[j]) == cut[f];
    }
  }

  /** Promises after segment `n` has been mapped: `k1` has its file pages, `k2` its boundary page,
      `k'` its zero pages. */
  lemma SegmentPromised(c: Ctx, k: K, k1: K, k2: K, k': K, segs: seq<Segment>, n: nat)
    requires n < |segs| && segs[n].ty.Load? && Ascending(segs)
    requires AllPromised(c, k, segs, n) && Keeps(c, k, k1) && FileKept(c, k1, segs[n])
    requires if HasBoundary(segs[n]) then CutStep(c, k1, k2, FrameBase(End(c, segs[n])), End(c, segs[n])) else k2 == k1
    requires Keeps(c, k2, k') && BssKept(c, k', segs[n])
    ensures AllPromised(c, k', segs, n + 1)
  {
    hide FileKept, BssKept, CutsFrom, FrameBase, CutStep, Keeps, HasBoundary, End;
    PromisesKept(c, k, k1, segs, n);
    if HasBoundary(segs[n]) {
      PromisesKeptByCut(c, k1, k2, segs, n);
      FileKeptAfterCut(c, k1, k2, segs[n], End(c, segs[n]));
    } else {
      CutsWithoutBoundary(c, k1.cut, segs, n);
    }
    SameCut(c, k2, k');
    forall q | 0 <= q < n + 1 ensures Promised(c, k', segs[q]) {
      if q < n {
        assert Promised(c, k2, segs[q]);
      }
      PromiseKept(c, k2, k', segs[q]);
    }
  }

  lemma SameCut(c: Ctx, k: K, k': K)
    requires Keeps(c, k, k')
    ensures k'.cut == k.cut
  {
  }

  /** Nothing is promised for a segment that is not loadable. */
  lemma SkippedSegment(c: Ctx, k: K, segs: seq<Segment>, n: nat)
    requires n < |segs| && !segs[n].ty.Load? && AllPromised(c, k, segs, n)
    ensures AllPromised(c, k, segs, n + 1)
  {
    hide FileKept, BssKept, CutsFrom;
    CutsWithoutBoundary(c, k.cut, segs, n);
  }

  /** A segment that can be loaded in state `k`, with `count` file pages recorded, given frames. */
  ghost predicate SegmentLoadable(c: Ctx, k: K, s: Segment, count: nat) {
    Roomy(s) && !BareStart(s) && FreeFor(k.vm.mem, c.root, s) && count + FilePages(s) <= MAX_MAPPED
  }

  lemma RoomyIsChecked(s: Segment)
    requires s.ty.Load? && Roomy(s)
    ensures NewChecked(s.vaddr).Ok?
  {
  }

  lemma SyncedIsInv(m: Machine, a: FrameAllocator, mapped: array<MappedEntry>, count: nat, c: Ctx, k: K)
    requires Synced(m, a, mapped, count, c, k)
    ensures KInv(c, k)
  {
  }

  /** One loadable segment; false is a panic. */
  method MapSegment(m: Machine, a: FrameAllocator, l4: nat, kernel: nat, segs: seq<Segment>, n: nat,
                    mapped: array<MappedEntry>, count0: nat, ghost c: Ctx, ghost k: K)
    returns (ok: bool, count: nat, ghost k': K)
    requires Reachable(m, a, 0) && l4 == c.root && mapped.Length == MAX_MAPPED && count0 <= MAX_MAPPED
    requires c.kernel == kernel && c.kernel % 4096 == 0 && c.size % 4096 == 0 && c.kernel + c.size <= TWO_52
    requires n < |segs| && segs[n].ty.Load? && GoodFile(c, segs)
    requires Tracked(m, a, mapped, count0, c, k) && (a.next <= c.limit ==> AllPromised(c, k, segs, n))
    modifies m, a, mapped
    ensures Reachable(m, a, 0) && old(a.next) <= a.next
    ensures ok ==> count == count0 + FilePages(segs[n]) <= MAX_MAPPED
    ensures !ok && a.next <= c.limit && SegmentLoadable(c, k, segs[n], count0) ==> Exhausted(a)
    ensures ok && a.next <= c.limit ==> Synced(m, a, mapped, count, c, k') && AllPromised(c, k', segs, n + 1)
    ensures ok && a.next <= c.limit ==> Confined(c, k, k', segs[n]) && !BareStart(segs[n])
    ensures ok ==> NewChecked(segs[n].vaddr).Ok?
  {
    hide Confined, Roomy, FreeFor, ZeroFree, Exhausted, BareStart, FilePages, NewChecked, KInv;
    hide Indices, New, And, Synced, Keeps, Reachable, CutStep, BssKept, FileKept, AllPromised, Ascending, PageShown, FrameBase;
    count, k' := count0, k;
    var s := segs[n];
    assert SegmentFits(c, s);
    if a.next <= c.limit {
      SyncedIsInv(m, a, mapped, count0, c, k);
    }
    var physStart := kernel + s.offset;
    var physEnd := physStart + s.fileSize;
    var virtStart := NewChecked(s.vaddr);
    if Roomy(s) {
      RoomyIsChecked(s);
    }
    if virtStart.Err? {
      return false, count, k';
    }
    NewCheckedMeaning(s.vaddr);
    ghost var k1;
    ok, count, k1 := MapFilePages(m, a, l4, s, virtStart.value, physStart, mapped, count0, c, k);
    if !ok {
      return false, count, k';
    }
    ghost var k2 := k1;
    k' := k1;
    if s.memSize > s.fileSize {
      if a.next <= c.limit && Roomy(s) && !BareStart(s) && FreeFor(k.vm.mem, c.root, s) {
        ZeroPagesStayFree(c, k, k1, s);
      }
      ok, k2, k' := MapZeroPart(m, a, l4, s, virtStart.value, physEnd, mapped, count, c, k1);
      if !ok {
        return false, count, k';
      }
    } else {
      KeepsItself(c, k1);
      NoZeroPart(c, k1, s);
    }
    if a.next <= c.limit {
      SegmentPromised(c, k, k1, k2, k', segs, n);
      if s.memSize > s.fileSize {
        ConfinedTransitive(c, k, k1, k', s);
      }
    }
  }

  lemma NoZeroPart(c: Ctx, k: K, s: Segment)
    requires s.memSize <= s.fileSize
    ensures BssKept(c, k, s) && !HasBoundary(s) && !BareStart(s)
  {
  }

  /** The state before the first segment. */
  lemma NothingPromised(c: Ctx, vm: Vm, paths: Paths, segs: seq<Segment>)
    requires Inv(vm, c.root, paths) && ImagePlace(c, vm) && vm.next <= c.limit && Intact(c, vm.mem)
    ensures KInv(c, K(vm, paths, [], map[], {})) && AllPromised(c, K(vm, paths, [], map[], {}), segs, 0)
  {
    hide Inv, ImagePlace, Intact;
  }

  /** Every byte of every loadable segment reads, through the tables, as LoadedByte says. */
  ghost predicate Loaded(c: Ctx, m: Memory, segs: seq<Segment>) {
    forall q, i: nat :: 0 <= q < |segs| && segs[q].ty.Load? && (i < segs[q].fileSize || i < segs[q].memSize) ==>
      ReadVirtual(m, c.root, segs[q].vaddr + i) == Some(LoadedByte(c, segs, q, i))
  }

  /** Every byte reads as the ELF file defines it. */
  ghost predicate FileInPlace(c: Ctx, m: Memory, segs: seq<Segment>) {
    forall q, i: nat :: 0 <= q < |segs| && segs[q].ty.Load? && (i < segs[q].fileSize || i < segs[q].memSize) ==>
      ReadVirtual(m, c.root, segs[q].vaddr + i) == Some(ElfByte(c, segs[q], i))
  }

  lemma InPlaceIffGapsAreZero(c: Ctx, m: Memory, segs: seq<Segment>)
    requires Loaded(c, m, segs)
    ensures FileInPlace(c, m, segs) <==> GapsAreZero(c, segs)
  {
    hide ReadVirtual, LoadedByte, ElfByte, GapsAreZero;
    MeaningPreservedIffGapsAreZero(c, segs);
    if FileInPlace(c, m, segs) {
      forall q, i: nat | 0 <= q < |segs| && segs[q].ty.Load? && (i < segs[q].fileSize || i < segs[q].memSize)
        ensures LoadedByte(c, segs, q, i) == ElfByte(c, segs[q], i)
      {
        assert ReadVirtual(m, c.root, segs[q].vaddr + i) == Some(ElfByte(c, segs[q], i));
      }
    }
  }

  lemma PromisesMeanLoaded(c: Ctx, k: K, segs: seq<Segment>)
    requires KInv(c, k) && GoodFile(c, segs) && AllPromised(c, k, segs, |segs|)
    ensures Loaded(c, k.vm.mem, segs)
  {
    hide ReadVirtual, Promised, CutsFrom, Ascending, EntryOk, ZeroOk, Inv, LoadedByte;
    assert Shown(c, k);
    forall q, i: nat | 0 <= q < |segs| && segs[q].ty.Load? && (i < segs[q].fileSize || i < segs[q].memSize)
      ensures ReadVirtual(k.vm.mem, c.root, segs[q].vaddr + i) == Some(LoadedByte(c, segs, q, i))
    {
      FinalByte(c, k, segs, q, i);
    }
  }

  /** map_kernel.  False is a panic.  When it returns, and only frames known to lie outside the
      image were handed out, every byte of every segment is as LoadedByte says, which is what the
      file defines exactly if its gaps are zero; the tables are a tree; and pages outside the
      segments translate as before.  A loadable file makes it panic only for want of frames. */
  method MapKernel(m: Machine, a: FrameAllocator, l4: nat, kernel: nat, segs: seq<Segment>, ghost c: Ctx, ghost paths: Paths)
    returns (ok: bool, ghost paths': Paths)
    requires Reachable(m, a, 0) && l4 == c.root && kernel == c.kernel && ImagePlace(c, VmOf(m, a)) && GoodFile(c, segs)
    requires a.next <= c.limit ==> Inv(VmOf(m, a), l4, paths) && Intact(c, m.ram)
    modifies m, a
    ensures Reachable(m, a, 0) && old(a.next) <= a.next
    ensures ok && a.next <= c.limit ==> Loaded(c, m.ram, segs) && Inv(VmOf(m, a), l4, paths')
    ensures ok && a.next <= c.limit ==> (FileInPlace(c, m.ram, segs) <==> GapsAreZero(c, segs))
    ensures ok && a.next <= c.limit ==> OutsideKept(old(m.ram), m.ram, l4, segs)
    ensures ok ==> TotalPages(segs, |segs|) <= 100
    ensures ok ==> forall q :: 0 <= q < |segs| ==> !segs[q].ty.Tls? && (segs[q].ty.Load? ==> NewChecked(segs[q].vaddr).Ok?)
    ensures ok && a.next <= c.limit ==> forall q :: 0 <= q < |segs| ==> !BareStart(segs[q])
    ensures !ok && a.next <= c.limit && Loadable(old(m.ram), l4, segs) ==> Exhausted(a)
  {
    hide Indices, New, Reachable, AllPromised, GoodFile, Inv, KInv, GapsAreZero, ImagePlace, Loaded, FileInPlace, Intact;
    hide Spares, Traced, Confined, BareStart, NewChecked, OutsideKept, Roomy, FreeFor, Exhausted, FilePages, PagesApart, UsableFrames;
    ghost var good := Loadable(m.ram, l4, segs);
    var mapped := new MappedEntry[MAX_MAPPED](_ => MappedEntry(0, 0));
    var count: nat := 0;
    ghost var k := K(VmOf(m, a), paths, [], map[], {});
    ghost var k0 := k;
    if a.next <= c.limit {
      NothingPromised(c, VmOf(m, a), paths, segs);
    }
    NothingTraced(c, k, segs);
    ImageAligned(c, VmOf(m, a));
    var n := 0;
    while n < |segs|
      invariant 0 <= n <= |segs| && count == TotalPages(segs, n) <= MAX_MAPPED
      invariant Reachable(m, a, 0) && old(a.next) <= a.next && fresh(mapped)
      invariant a.next <= c.limit && good ==> forall q :: n <= q < |segs| ==> FreeFor(k.vm.mem, l4, segs[q])
      invariant Tracked(m, a, mapped, count, c, k)
      invariant a.next <= c.limit ==> AllPromised(c, k, segs, n) && Spares(c, k0, k) && Traced(k, segs)
      invariant forall q :: 0 <= q < n ==> !segs[q].ty.Tls? && (segs[q].ty.Load? ==> NewChecked(segs[q].vaddr).Ok?)
      invariant a.next <= c.limit ==> forall q :: 0 <= q < n ==> !BareStart(segs[q])
    {
      match segs[n].ty {
        case Load =>
          ghost var k1 := k;
          TotalGrows(segs, n + 1, |segs|);
          ok, count, k := MapSegment(m, a, l4, kernel, segs, n, mapped, count, c, k1);
          if !ok {
            return false, paths;
          }
          if a.next <= c.limit {
            assert KInv(c, k1);
            ConfinedSpares(c, k1, k, segs[n]);
            SparesTransitive(c, k0, k1, k);
            SegmentTraced(c, k1, k, segs, n);
            if good {
              LaterSegmentsFree(c, k1, k, segs, n);
            }
          }
        case Tls =>
          return false, paths;
        case Other =>
          NotLoaded(segs[n]);
          if a.next <= c.limit {
            SkippedSegment(c, k, segs, n);
          }
      }
      n := n + 1;
    }
    paths' := k.paths;
    if a.next <= c.limit {
      PromisesMeanLoaded(c, k, segs);
      InPlaceIffGapsAreZero(c, m.ram, segs);
      TreeOfK(c, k);
      TracedKeepsOutside(c, k0, k, segs);
    }
    ok := true;
  }

  lemma LaterSegmentsFree(c: Ctx, k: K, k': K, segs: seq<Segment>, n: nat)
    requires n < |segs| && KInv(c, k) && Confined(c, k, k', segs[n]) && PagesApart(segs)
    requires forall q :: n <= q < |segs| ==> FreeFor(k.vm.mem, c.root, segs[q])
    ensures forall q :: n + 1 <= q < |segs| ==> FreeFor(k'.vm.mem, c.root, segs[q])
  {
    hide KInv, Confined, FreeFor, SegmentPage;
    forall q | n + 1 <= q < |segs| ensures FreeFor(k'.vm.mem, c.root, segs[q]) {
      OtherSegmentStaysFree(c, k, k', segs[n], segs[q]);
    }
  }

  lemma NothingTraced(c: Ctx, k: K, segs: seq<Segment>)
    requires k.mapped == [] && k.zero == {}
    ensures Spares(c, k, k) && Traced(k, segs)
  {
    SparesItself(c, k);
  }

  lemma ConfinedSpares(c: Ctx, k: K, k': K, s: Segment)
    requires Confined(c, k, k', s)
    ensures Spares(c, k, k')
  {
  }

  lemma NotLoaded(s: Segment)
    requires !s.ty.Load?
    ensures !BareStart(s) && FilePages(s) == 0
  {
  }

  lemma ImageAligned(c: Ctx, vm: Vm)
    requires ImagePlace(c, vm)
    ensures c.kernel % 4096 == 0 && c.size % 4096 == 0 && c.kernel + c.size <= TWO_52
  {
  }

  lemma TreeOfK(c: Ctx, k: K)
    requires KInv(c, k)
    ensures Inv(k.vm, c.root, k.paths)
  {
  }
}
