/** The regions of the address space set up with the mapper: the linear window onto physical
    memory (setup_mappings in loader/src/main.rs) and the kernel heap (src/allocator.rs). */
module AddressSpace {
  import opened Bits
  import opened VirtualAddress
  import opened PhysicalMemory
  import opened Collections
  import opened FrameAllocation
  import opened PageTables
  import opened Mapper
  import opened PagingCode
  import opened PagingRuns
  import opened KernelImage
  import opened KernelSteps
  import opened KernelPromise
  import opened KernelPages
  import opened KernelLoader

  // ---- One more page, none moved ----------------------------------------------------------------

  /** A successful request that insists on a free page: exactly this page is new. */
  lemma FreshPage(vm: Vm, root: nat, paths: Paths, virt: U64, phys: U64) returns (paths': Paths)
    requires Inv(vm, root, paths) && phys < TWO_52
    requires MapAddress(vm, root, virt, phys, CheckFrameIsFree).1.Mapped?
    ensures var vm' := MapAddress(vm, root, virt, phys, CheckFrameIsFree).0;
            && Inv(vm', root, paths') && Grown(vm, paths, vm', paths') && OnlyTablesChanged(vm.mem, vm'.mem, paths')
            && OnePageMoved(vm.mem, vm'.mem, root, Indices(virt), phys)
            && Translate(vm'.mem, root, virt) == Some(phys)
            && (Translate(vm.mem, root, virt).None? || Translate(vm.mem, root, virt) == Some(phys))
  {
    hide MapAddress, Inv, Indices, Grown, Walk;
    paths' := MapAddressMeaning(vm, root, paths, virt, phys, CheckFrameIsFree);
    FitsIn52Bits(phys);
  }

  // ---- The linear window -------------------------------------------------------------------------

  /** Every frame below `limit` is visible at the fixed distance. */
  ghost predicate Window(m: Memory, root: nat, limit: nat) {
    forall p: nat :: p % 4096 == 0 && p < limit ==> Translate(m, root, p + VIRT_MAPPING_OFFSET) == Some(p)
  }

  /** One of the first `n` pages of the window has the walk `path`. */
  ghost predicate InWindow(path: seq<nat>, n: nat) {
    exists i: nat :: i < n && path == Indices(i * 4096 + VIRT_MAPPING_OFFSET)
  }

  /** The window's pages and no others were added. */
  ghost predicate OnlyWindowAdded(m: Memory, m': Memory, root: nat, n: nat) {
    forall path :: |path| == 4 && ValidPath(path) && !InWindow(path, n) ==> Walk(m', root, path) == Walk(m, root, path)
  }

  lemma WindowGrows(m0: Memory, m: Memory, m': Memory, root: nat, n: nat)
    requires Window(m, root, n * 4096) && OnlyWindowAdded(m0, m, root, n)
    requires OnePageMoved(m, m', root, Indices(n * 4096 + VIRT_MAPPING_OFFSET), n * 4096) && n * 4096 < TWO_52
    requires Walk(m, root, Indices(n * 4096 + VIRT_MAPPING_OFFSET)).None? ||
             Walk(m, root, Indices(n * 4096 + VIRT_MAPPING_OFFSET)) == Some(n * 4096)
    ensures Window(m', root, (n + 1) * 4096) && OnlyWindowAdded(m0, m', root, n + 1)
  {
    hide Indices, Walk, OnePageMoved, InWindow;
    forall p: nat | p % 4096 == 0 && p < (n + 1) * 4096 ensures Translate(m', root, p + VIRT_MAPPING_OFFSET) == Some(p) {
      WindowPageStays(m, m', root, n, p);
    }
    forall path | |path| == 4 && ValidPath(path) && !InWindow(path, n + 1) ensures Walk(m', root, path) == Walk(m0, root, path) {
      OtherPageStays(m, m', root, n, path);
      NotInWindow(path, n);
    }
  }

  lemma WindowPageStays(m: Memory, m': Memory, root: nat, n: nat, p: nat)
    requires Window(m, root, n * 4096) && n * 4096 < TWO_52
    requires OnePageMoved(m, m', root, Indices(n * 4096 + VIRT_MAPPING_OFFSET), n * 4096)
    requires Walk(m, root, Indices(n * 4096 + VIRT_MAPPING_OFFSET)).None? ||
             Walk(m, root, Indices(n * 4096 + VIRT_MAPPING_OFFSET)) == Some(n * 4096)
    requires p % 4096 == 0 && p < (n + 1) * 4096
    ensures Translate(m', root, p + VIRT_MAPPING_OFFSET) == Some(p)
  {
    hide Indices, Walk;
    FitsIn52Bits(n * 4096);
    IndicesValid(p + VIRT_MAPPING_OFFSET);
    if p < n * 4096 {
      assert Translate(m, root, p + VIRT_MAPPING_OFFSET) == Some(p);
    } else {
      assert p == n * 4096;
    }
  }

  lemma OtherPageStays(m: Memory, m': Memory, root: nat, n: nat, path: seq<nat>)
    requires OnePageMoved(m, m', root, Indices(n * 4096 + VIRT_MAPPING_OFFSET), n * 4096)
    requires |path| == 4 && ValidPath(path) && !InWindow(path, n + 1)
    ensures Walk(m', root, path) == Walk(m, root, path)
  {
    hide Indices, Walk;
    assert path != Indices(n * 4096 + VIRT_MAPPING_OFFSET);
  }

  lemma NotInWindow(path: seq<nat>, n: nat)
    requires !InWindow(path, n + 1)
    ensures !InWindow(path, n)
  {
    hide Indices;
  }

  /** A page of the window was mapped elsewhere before, or the window is so long that its addresses
      repeat. */
  ghost predicate WindowBlocked(m: Memory, root: nat, n: nat) {
    n > WINDOW_PAGES || exists i: nat :: i < n && TakenElsewhere(m, root, i)
  }

  ghost predicate TakenElsewhere(m: Memory, root: nat, i: nat) {
    var t := Translate(m, root, i * 4096 + VIRT_MAPPING_OFFSET);
    t.Some? && t.value != i * 4096
  }

  /** Addresses repeat after 2^48 bytes. */
  const WINDOW_PAGES: nat := 0x10_0000_0000

  lemma WindowPagesDiffer(i: nat, j: nat)
    requires i < j < WINDOW_PAGES
    ensures Indices(i * 4096 + VIRT_MAPPING_OFFSET) != Indices(j * 4096 + VIRT_MAPPING_OFFSET)
  {
    hide Indices;
    IndexDigits(i * 4096 + VIRT_MAPPING_OFFSET);
    IndexDigits(j * 4096 + VIRT_MAPPING_OFFSET);
    PageNumbersDiffer(i, j);
  }

  lemma PageNumbersDiffer(i: nat, j: nat)
    requires i < j < WINDOW_PAGES
    ensures (i * 4096 + VIRT_MAPPING_OFFSET) % TWO_48 != (j * 4096 + VIRT_MAPPING_OFFSET) % TWO_48
    ensures (i * 4096 + VIRT_MAPPING_OFFSET) % 4096 == 0 && (j * 4096 + VIRT_MAPPING_OFFSET) % 4096 == 0
  {
  }

  /** The next page of the window has not been touched so far. */
  lemma NextPageUntouched(m0: Memory, m: Memory, root: nat, i: nat)
    requires OnlyWindowAdded(m0, m, root, i) && i < WINDOW_PAGES
    ensures TakenElsewhere(m, root, i) <==> TakenElsewhere(m0, root, i)
  {
    hide Indices, Walk;
    var path := Indices(i * 4096 + VIRT_MAPPING_OFFSET);
    IndicesValid(i * 4096 + VIRT_MAPPING_OFFSET);
    if InWindow(path, i) {
      var k: nat :| k < i && path == Indices(k * 4096 + VIRT_MAPPING_OFFSET);
      WindowPagesDiffer(k, i);
    }
  }

  /** The page after the longest possible window is the first page of it again. */
  lemma WindowRepeats(m: Memory, root: nat)
    requires Window(m, root, WINDOW_PAGES * 4096)
    ensures TakenElsewhere(m, root, WINDOW_PAGES)
  {
    hide Indices, Walk;
    IndicesOfLow(WINDOW_PAGES * 4096 + VIRT_MAPPING_OFFSET);
    IndicesOfLow(VIRT_MAPPING_OFFSET);
    assert (WINDOW_PAGES * 4096 + VIRT_MAPPING_OFFSET) % TWO_48 == VIRT_MAPPING_OFFSET % TWO_48;
    assert Translate(m, root, 0 + VIRT_MAPPING_OFFSET) == Some(0);
  }

  /** The first loop of setup_mappings; false is a panic.  It comes to an end unless frames run out
      or the window is blocked, and never if it is blocked. */
  method MapAllMemory(m: Machine, a: FrameAllocator, l4: nat, lastFrameAddr: nat, ghost paths: Paths)
    returns (ok: bool, ghost paths': Paths)
    requires Reachable(m, a, 0) && Inv(VmOf(m, a), l4, paths) && lastFrameAddr <= TWO_52
    modifies m, a
    ensures Reachable(m, a, 0) && old(a.next) <= a.next
    ensures ok ==> Inv(VmOf(m, a), l4, paths') && OnlyTablesChanged(old(m.ram), m.ram, paths')
    ensures ok ==> Window(m.ram, l4, FrameBase(lastFrameAddr))
    ensures ok ==> OnlyWindowAdded(old(m.ram), m.ram, l4, lastFrameAddr / 4096)
    ensures ok ==> !WindowBlocked(old(m.ram), l4, lastFrameAddr / 4096)
    ensures !ok ==> a.next > |UsableFrames(a.memoryMap)| || WindowBlocked(old(m.ram), l4, lastFrameAddr / 4096)
  {
    hide Indices, New, Inv, MapAddress, Reachable, Window, OnlyWindowAdded, OnePageMoved, Grown, Walk, UsableFrames, OnlyTablesChanged;
    hide TakenElsewhere;
    paths' := paths;
    NoWindow(m.ram, l4);
    ghost var vm0 := VmOf(m, a);
    GrownItself(vm0, paths);
    var i := 0;
    while i < lastFrameAddr / 4096
      invariant 0 <= i <= lastFrameAddr / 4096 && i <= WINDOW_PAGES
      invariant Reachable(m, a, 0) && Inv(VmOf(m, a), l4, paths') && old(a.next) <= a.next
      invariant Window(m.ram, l4, i * 4096) && OnlyWindowAdded(old(m.ram), m.ram, l4, i)
      invariant Grown(vm0, paths, VmOf(m, a), paths') && OnlyTablesChanged(old(m.ram), m.ram, paths')
      invariant forall k: nat :: k < i ==> !TakenElsewhere(old(m.ram), l4, k)
    {
      var phys := i * 4096;
      var virt := New(phys + VIRT_MAPPING_OFFSET);
      ghost var vm := VmOf(m, a);
      WindowRequest(vm, l4, paths', i);
      if i < WINDOW_PAGES {
        NextPageUntouched(old(m.ram), m.ram, l4, i);
      } else {
        WindowRepeats(m.ram, l4);
      }
      var r := MapPage(m, a, l4, virt, phys);
      if !r.Mapped? {
        return false, paths';
      }
      ghost var paths1 := FreshPage(vm, l4, paths', virt, phys);
      IndicesOfNew(phys + VIRT_MAPPING_OFFSET);
      WindowGrows(old(m.ram), vm.mem, m.ram, l4, i);
      TablesGrow(vm0, paths, vm, paths', VmOf(m, a), paths1);
      paths' := paths1;
      i := i + 1;
    }
    ok := true;
  }

  /** What a request for page `i` of the window is answered. */
  lemma WindowRequest(vm: Vm, root: nat, paths: Paths, i: nat)
    requires Inv(vm, root, paths) && i * 4096 < TWO_52
    ensures var (vm', r) := MapAddress(vm, root, New(i * 4096 + VIRT_MAPPING_OFFSET), i * 4096, CheckFrameIsFree);
            && vm.next <= vm'.next
            && if TakenElsewhere(vm.mem, root, i) then !r.Mapped? else r.Mapped? || vm'.next > |vm.frames|
  {
    hide MapAddress, Inv, Indices, New, Grown, Walk, OnlyTablesChanged;
    var v := i * 4096 + VIRT_MAPPING_OFFSET;
    var virt := New(v);
    IndicesOfNew(v);
    RequestOnlyTakesFrames(vm, root, virt, i * 4096, CheckFrameIsFree);
    var _ := MapAddressMeaning(vm, root, paths, virt, i * 4096, CheckFrameIsFree);
  }

  lemma GrownItself(vm: Vm, paths: Paths)
    ensures Grown(vm, paths, vm, paths) && OnlyTablesChanged(vm.mem, vm.mem, paths)
  {
  }

  lemma TablesGrow(vm0: Vm, paths0: Paths, vm: Vm, paths: Paths, vm': Vm, paths': Paths)
    requires Grown(vm0, paths0, vm, paths) && Grown(vm, paths, vm', paths')
    requires OnlyTablesChanged(vm0.mem, vm.mem, paths) && OnlyTablesChanged(vm.mem, vm'.mem, paths')
    ensures Grown(vm0, paths0, vm', paths') && OnlyTablesChanged(vm0.mem, vm'.mem, paths') && vm.next <= vm'.next
  {
    GrownTransitive(vm0, paths0, vm, paths, vm', paths');
    TablesChangedTransitive(vm0.mem, vm.mem, vm'.mem, paths, paths');
  }

  lemma NoWindow(m: Memory, root: nat)
    ensures Window(m, root, 0) && OnlyWindowAdded(m, m, root, 0)
  {
  }

  /** A request that may not remap a page of the window leaves the window as it is, whatever it answers. */
  lemma RequestKeepsWindow(vm: Vm, root: nat, paths: Paths, limit: nat, q: Request) returns (paths': Paths)
    requires Inv(vm, root, paths) && Window(vm.mem, root, limit) && limit <= TWO_52 && SparesWindow(q, limit)
    ensures Inv(MapAddress(vm, root, q.virt, q.phys, q.mode).0, root, paths')
    ensures Window(MapAddress(vm, root, q.virt, q.phys, q.mode).0.mem, root, limit)
  {
    hide MapAddress, Inv, Indices, Grown, Walk, OnlyTablesChanged;
    paths' := MapAddressMeaning(vm, root, paths, q.virt, q.phys, q.mode);
    var m', r := MapAddress(vm, root, q.virt, q.phys, q.mode).0.mem, MapAddress(vm, root, q.virt, q.phys, q.mode).1;
    forall p: nat | p % 4096 == 0 && p < limit ensures Translate(m', root, p + VIRT_MAPPING_OFFSET) == Some(p) {
      IndicesValid(p + VIRT_MAPPING_OFFSET);
      assert Translate(vm.mem, root, p + VIRT_MAPPING_OFFSET) == Some(p);
      FitsIn52Bits(p);
    }
  }

  ghost predicate SparesWindow(q: Request, limit: nat) {
    q.mode.Remapping? ==> forall p: nat :: p % 4096 == 0 && p < limit ==> Indices(q.virt) != Indices(p + VIRT_MAPPING_OFFSET)
  }

  /** So does a whole run. */
  lemma {:induction false} RunKeepsWindow(vm: Vm, root: nat, paths: Paths, limit: nat, rs: seq<Request>)
    requires Inv(vm, root, paths) && Window(vm.mem, root, limit) && limit <= TWO_52
    requires forall k :: 0 <= k < |rs| ==> SparesWindow(rs[k], limit)
    ensures Window(Run(vm, root, rs).0.mem, root, limit)
    decreases |rs|
  {
    hide MapAddress, Inv, Window, SparesWindow;
    if rs != [] {
      var paths1 := RequestKeepsWindow(vm, root, paths, limit, rs[0]);
      var vm1, r := MapAddress(vm, root, rs[0].virt, rs[0].phys, rs[0].mode).0, MapAddress(vm, root, rs[0].virt, rs[0].phys, rs[0].mode).1;
      if !r.Panicked? {
        RunKeepsWindow(vm1, root, paths1, limit, rs[1..]);
      }
    }
  }

  /** Code that runs under these tables reaches byte `x` of every frame below the limit, a page table
      or not, through the pointer it computes, frame + offset + x. */
  lemma PointersReachFrames(m: Memory, root: nat, limit: nat, f: nat, x: nat)
    requires Window(m, root, limit) && f % 4096 == 0 && f < limit && x < 4096
    ensures Translate(m, root, f + VIRT_MAPPING_OFFSET + x) == Some(f)
    ensures (f + VIRT_MAPPING_OFFSET + x) % 4096 == x
  {
    hide Indices, Walk;
    IndicesWithinPage(f + VIRT_MAPPING_OFFSET, x);
    assert Translate(m, root, f + VIRT_MAPPING_OFFSET) == Some(f);
  }

  // ---- Which frames the window shows ------------------------------------------------------------------

  /** Built in empty tables, the window shows exactly the frames below its limit. */
  lemma WindowShowsExactly(m: Memory, m': Memory, root: nat, limit: nat, p: nat)
    requires Represents(m, root, map[]) && Window(m', root, limit) && OnlyWindowAdded(m, m', root, limit / 4096) && limit % 4096 == 0
    requires p % 4096 == 0 && p + 0x180_0000_0000 < 0x8000_0000_0000
    ensures Translate(m', root, p + 0x180_0000_0000) == if p < limit then Some(p) else None
  {
    hide Indices, Walk;
    if p >= limit {
      var v := p + VIRT_MAPPING_OFFSET;
      var path := Indices(v);
      IndicesValid(v);
      if InWindow(path, limit / 4096) {
        var i: nat :| i < limit / 4096 && path == Indices(i * 4096 + VIRT_MAPPING_OFFSET);
        DistinctPagesDistinctPaths(v, i * 4096 + VIRT_MAPPING_OFFSET);
      }
      assert Translate(m, root, v) == None;
    }
  }

  lemma FrameNumber(r: MemoryRegion, k: nat)
    requires k < r.pageCount
    ensures FrameOf(r, r.addr + 4096 * k)
  {
    assert r.addr + 4096 * k == r.addr + PAGE_SIZE * k;
  }

  /** All of a region lies below the limit. */
  predicate RegionBelow(r: MemoryRegion, limit: nat) {
    r.pageCount == 0 || r.addr + 4096 * r.pageCount <= limit
  }

  /** Each of the frames is visible. */
  ghost predicate AllVisible(m: Memory, root: nat, frames: seq<nat>) {
    forall f: nat :: f in frames ==> Visible(m, root, f)
  }

  ghost predicate AllBelow(frames: seq<nat>, limit: nat) {
    forall f: nat :: f in frames ==> f < limit
  }

  ghost predicate Visible(m: Memory, root: nat, f: nat) {
    Translate(m, root, f + VIRT_MAPPING_OFFSET) == Some(f)
  }

  /** The window shows every frame that the allocator may hand out exactly if every free region lies
      below the limit. */
  lemma UsableFramesVisibleExactly(m: Memory, m': Memory, root: nat, limit: nat, regions: seq<MemoryRegion>)
    requires Represents(m, root, map[]) && Window(m', root, limit) && OnlyWindowAdded(m, m', root, limit / 4096) && limit % 4096 == 0
    requires WellFormedMap(regions)
    requires forall f: nat :: f in UsableFrames(regions) ==> f + VIRT_MAPPING_OFFSET < 0x8000_0000_0000
    ensures AllVisible(m', root, UsableFrames(regions)) <==> forall r :: r in regions && r.ty.Free? ==> RegionBelow(r, limit)
  {
    hide Indices, Walk, Window, OnlyWindowAdded, Represents, UsableFrames, FrameOf;
    UsableFramesDistinct(regions);
    forall f: nat | f in UsableFrames(regions) ensures Visible(m', root, f) <==> f < limit {
      WindowShowsExactly(m, m', root, limit, f);
    }
    assert AllVisible(m', root, UsableFrames(regions)) <==> AllBelow(UsableFrames(regions), limit);
    BelowMeansRegionsBelow(regions, limit);
  }

  /** Every usable frame is below the limit exactly if every free region is. */
  lemma BelowMeansRegionsBelow(regions: seq<MemoryRegion>, limit: nat)
    requires WellFormedMap(regions) && limit % 4096 == 0
    ensures AllBelow(UsableFrames(regions), limit) <==> (forall r :: r in regions && r.ty.Free? ==> RegionBelow(r, limit))
  {
    hide UsableFrames;
    if AllBelow(UsableFrames(regions), limit) {
      forall r | r in regions && r.ty.Free? ensures RegionBelow(r, limit) {
        if r.pageCount > 0 {
          var last := r.addr + 4096 * (r.pageCount - 1);
          FrameNumber(r, r.pageCount - 1);
          UsableFramesExact(regions, last);
          assert last < limit;
        }
      }
    }
    if forall r :: r in regions && r.ty.Free? ==> RegionBelow(r, limit) {
      forall f: nat | f in UsableFrames(regions) ensures f < limit {
        UsableFramesExact(regions, f);
        var r :| r in regions && r.ty.Free? && FrameOf(r, f);
        assert RegionBelow(r, limit);
        FrameInRegion(r, f);
      }
    }
  }

  lemma FrameInRegion(r: MemoryRegion, f: nat)
    requires FrameOf(r, f)
    ensures r.pageCount > 0 && f < r.addr + 4096 * r.pageCount
  {
  }

  /** The last region does not end at address zero, where the limit would wrap around. */
  predicate HasLastFrame(regions: seq<MemoryRegion>) {
    regions != [] && regions[|regions| - 1].addr + regions[|regions| - 1].pageCount * 4096 >= 4096
  }

  /** The limit as the loader computes it: the address of the last frame of the last region. */
  function LastFrameAddr(regions: seq<MemoryRegion>): nat
    requires HasLastFrame(regions)
  {
    regions[|regions| - 1].addr + (regions[|regions| - 1].pageCount - 1) * 4096
  }

  /** With the limit of the loader all frames are visible exactly if the last region is not free, or
      empty, and every free region ends no later than the last frame of the last region begins. */
  lemma LoaderWindowShowsAllExactly(m: Memory, m': Memory, root: nat, regions: seq<MemoryRegion>)
    requires HasLastFrame(regions) && WellFormedMap(regions)
    requires forall f: nat :: f in UsableFrames(regions) ==> f + VIRT_MAPPING_OFFSET < 0x8000_0000_0000
    requires var limit := LastFrameAddr(regions);
             Represents(m, root, map[]) && Window(m', root, limit) && OnlyWindowAdded(m, m', root, limit / 4096)
    ensures AllVisible(m', root, UsableFrames(regions)) <==>
              && (regions[|regions| - 1].ty.Free? ==> regions[|regions| - 1].pageCount == 0)
              && forall i :: 0 <= i < |regions| - 1 && regions[i].ty.Free? ==> RegionBelow(regions[i], LastFrameAddr(regions))
  {
    hide Indices, Walk, UsableFrames, Window, OnlyWindowAdded, Represents, AllVisible;
    var limit := LastFrameAddr(regions);
    UsableFramesVisibleExactly(m, m', root, limit, regions);
    var last := regions[|regions| - 1];
    assert last in regions && (RegionBelow(last, limit) <==> last.pageCount == 0);
  }

  /** A free last region: its last frame is not in the window although it may be handed out. */
  lemma LastFrameStaysOutside(m: Memory, m': Memory, root: nat, regions: seq<MemoryRegion>)
    requires HasLastFrame(regions) && WellFormedMap(regions)
    requires regions[|regions| - 1].ty.Free? && regions[|regions| - 1].pageCount > 0
    requires LastFrameAddr(regions) + VIRT_MAPPING_OFFSET < 0x8000_0000_0000
    requires var limit := LastFrameAddr(regions);
             Represents(m, root, map[]) && Window(m', root, limit) && OnlyWindowAdded(m, m', root, limit / 4096)
    ensures var limit := LastFrameAddr(regions);
            limit in UsableFrames(regions) && Translate(m', root, limit + VIRT_MAPPING_OFFSET) == None
  {
    hide Indices, Walk, UsableFrames, Window, OnlyWindowAdded, Represents;
    var last := LastFrameAddr(regions);
    WindowShowsExactly(m, m', root, last, last);
    UsableFramesExact(regions, last);
    FrameNumber(regions[|regions| - 1], regions[|regions| - 1].pageCount - 1);
  }

  /** A free region listed before a lower last one: none of it is in the window. */
  lemma HigherRegionStaysOutside(m: Memory, m': Memory, root: nat)
    requires Represents(m, root, map[]) && Window(m', root, 0x10_0000) && OnlyWindowAdded(m, m', root, 0x100)
    ensures var regions := [MemoryRegion(Free, 0x20_0000, 1), MemoryRegion(Reserved, 0x10_0000, 1)];
            && WellFormedMap(regions) && LastFrameAddr(regions) == 0x10_0000
            && 0x20_0000 in UsableFrames(regions) && Translate(m', root, 0x20_0000 + VIRT_MAPPING_OFFSET) == None
  {
    hide Indices, Walk, UsableFrames, Window, OnlyWindowAdded, Represents;
    var r := MemoryRegion(Free, 0x20_0000, 1);
    var regions := [r, MemoryRegion(Reserved, 0x10_0000, 1)];
    WindowShowsExactly(m, m', root, 0x10_0000, 0x20_0000);
    UsableFramesExact(regions, 0x20_0000);
    FrameNumber(r, 0);
    assert r in regions;
  }

  // ---- The window and the kernel image ------------------------------------------------------------------

  /** No page of the window is a page of the file. */
  ghost predicate FileSparesWindow(segs: seq<Segment>, limit: nat) {
    forall p: nat :: p % 4096 == 0 && p < limit ==> !FilePage(segs, Indices(p + VIRT_MAPPING_OFFSET))
  }

  /** Loading the kernel leaves the window in place if its file pages lie elsewhere. */
  lemma KernelKeepsWindow(m: Memory, m': Memory, root: nat, segs: seq<Segment>, limit: nat)
    requires Window(m, root, limit) && OutsideKept(m, m', root, segs) && FileSparesWindow(segs, limit)
    ensures Window(m', root, limit)
  {
    hide Indices, Walk, FilePage, ZeroPage;
    forall p: nat | p % 4096 == 0 && p < limit ensures Translate(m', root, p + VIRT_MAPPING_OFFSET) == Some(p) {
      IndicesValid(p + VIRT_MAPPING_OFFSET);
      assert Translate(m, root, p + VIRT_MAPPING_OFFSET) == Some(p);
    }
  }

  /** No page of the file, zero pages included, is one of the first `n` pages of the window. */
  ghost predicate SegmentsSpareWindow(segs: seq<Segment>, n: nat) {
    forall q, p :: 0 <= q < |segs| && SegmentPage(segs[q], p) ==> !InWindow(p, n)
  }

  /** A file that could be loaded before the window was made still can. */
  lemma LoadableAfterWindow(m: Memory, m': Memory, root: nat, segs: seq<Segment>, n: nat)
    requires Loadable(m, root, segs) && OnlyWindowAdded(m, m', root, n) && SegmentsSpareWindow(segs, n)
    ensures Loadable(m', root, segs)
  {
    hide Indices, Walk, SegmentPage, InWindow, Roomy, BareStart, PagesApart, TotalPages;
    forall q | 0 <= q < |segs| ensures FreeFor(m', root, segs[q]) {
      forall p | SegmentPage(segs[q], p) ensures Walk(m', root, p).None? {
        SegmentPageValid(segs[q], p);
        assert FreeFor(m, root, segs[q]);
      }
    }
  }

  lemma SameFramesSamePlace(c: Ctx, vm: Vm, vm': Vm)
    requires ImagePlace(c, vm) && vm'.frames == vm.frames
    ensures ImagePlace(c, vm')
  {
  }

  /** Building tables leaves the image as it is. */
  lemma ImageAfterWindow(c: Ctx, vm: Vm, vm': Vm, paths': Paths)
    requires Intact(c, vm.mem) && ImagePlace(c, vm) && vm'.frames == vm.frames && vm'.next <= c.limit
    requires Inv(vm', c.root, paths') && OnlyTablesChanged(vm.mem, vm'.mem, paths')
    ensures Intact(c, vm'.mem)
  {
    hide Inv, Intact, OnlyTablesChanged;
    SameFramesSamePlace(c, vm, vm');
    TablesOutsideImage(c, vm', paths');
    IntactKept(c, vm.mem, vm'.mem, paths');
  }

  /** setup_mappings as far as the kernel: the window, then the image.  False is a panic.  When it
      returns, having used only frames outside the image, the image is loaded, and the window is
      there for the kernel to use if no file page lies in it.  It panics only for want of frames, or
      if the window is blocked, or if the file is not loadable or has a page in the window. */
  method SetupMappings(m: Machine, a: FrameAllocator, l4: nat, lastFrameAddr: nat, kernel: nat, segs: seq<Segment>,
                       ghost c: Ctx, ghost paths: Paths)
    returns (ok: bool, ghost paths': Paths)
    requires Reachable(m, a, 0) && Inv(VmOf(m, a), l4, paths) && lastFrameAddr <= TWO_52
    requires l4 == c.root && kernel == c.kernel && Intact(c, m.ram) && ImagePlace(c, VmOf(m, a)) && a.next <= c.limit && GoodFile(c, segs)
    modifies m, a
    ensures ok && a.next <= c.limit ==> Inv(VmOf(m, a), l4, paths') && Loaded(c, m.ram, segs)
    ensures ok && a.next <= c.limit ==> (FileInPlace(c, m.ram, segs) <==> GapsAreZero(c, segs))
    ensures ok && a.next <= c.limit && FileSparesWindow(segs, FrameBase(lastFrameAddr)) ==> Window(m.ram, l4, FrameBase(lastFrameAddr))
    ensures !ok && a.next <= c.limit ==>
              Exhausted(a) || WindowBlocked(old(m.ram), l4, lastFrameAddr / 4096) ||
              !Loadable(old(m.ram), l4, segs) || !SegmentsSpareWindow(segs, lastFrameAddr / 4096)
  {
    hide Indices, New, Inv, Reachable, Window, OnlyWindowAdded, GoodFile, Intact, ImagePlace, Loaded, FileInPlace, GapsAreZero;
    hide Loadable, SegmentsSpareWindow, OutsideKept, FileSparesWindow, OnlyTablesChanged, UsableFrames, WindowBlocked;
    ghost var before := VmOf(m, a);
    ok, paths' := MapAllMemory(m, a, l4, lastFrameAddr, paths);
    if !ok {
      return;
    }
    if a.next <= c.limit {
      ImageAfterWindow(c, before, VmOf(m, a), paths');
    }
    SameFramesSamePlace(c, before, VmOf(m, a));
    ghost var shown := m.ram;
    if Loadable(before.mem, l4, segs) && SegmentsSpareWindow(segs, lastFrameAddr / 4096) {
      LoadableAfterWindow(before.mem, shown, l4, segs, lastFrameAddr / 4096);
    }
    ok, paths' := MapKernel(m, a, l4, kernel, segs, c, paths');
    if ok && a.next <= c.limit && FileSparesWindow(segs, FrameBase(lastFrameAddr)) {
      KernelKeepsWindow(shown, m.ram, l4, segs, FrameBase(lastFrameAddr));
    }
  }

  // ---- The kernel heap ---------------------------------------------------------------------------

  const HEAP_START: nat := 0x7777_7777_0000
  const HEAP_SIZE: nat := 300 * 1024

  /** The heap's pages so far: each backed by a frame handed out since `vm0`, no two by the same,
      none by a frame that holds a page table, and every other page as before. */
  ghost predicate HeapBacked(vm0: Vm, vm: Vm, root: nat, paths: Paths, backing: seq<nat>) {
    && Distinct(backing)
    && (forall j :: 0 <= j < |backing| ==>
          Translate(vm.mem, root, HEAP_START + 4096 * j) == Some(backing[j]) &&
          HandedOut(vm, backing[j]) && !HandedOut(vm0, backing[j]) && backing[j] !in paths)
    && (forall p :: |p| == 4 && ValidPath(p) && !InHeap(p, |backing|) ==> Walk(vm.mem, root, p) == Walk(vm0.mem, root, p))
  }

  /** The pages from the start of the heap on are those. */
  ghost predicate HeapAt(m: Memory, root: nat, backing: seq<nat>) {
    forall j :: 0 <= j < |backing| ==> Translate(m, root, 0x7777_7777_0000 + 4096 * j) == Some(backing[j])
  }

  lemma BackedFromStart(vm0: Vm, vm: Vm, root: nat, paths: Paths, backing: seq<nat>)
    requires HeapBacked(vm0, vm, root, paths, backing)
    ensures HeapAt(vm.mem, root, backing)
  {
    hide Translate, HandedOut, Distinct;
  }

  ghost predicate InHeap(p: seq<nat>, n: nat) {
    exists j: nat :: j < n && p == Indices(HEAP_START + 4096 * j)
  }

  lemma HeapPagesDiffer(i: nat, j: nat)
    requires i < j <= 75
    ensures Indices(HEAP_START + 4096 * i) != Indices(HEAP_START + 4096 * j)
  {
    hide Indices;
    DistinctPagesDistinctPaths(HEAP_START + 4096 * i, HEAP_START + 4096 * j);
  }

  lemma HandedOutLater(vm: Vm, vm': Vm, f: nat)
    requires vm'.frames == vm.frames && vm.next <= vm'.next && HandedOut(vm, f)
    ensures HandedOut(vm', f)
  {
  }

  lemma TakeFrameInv(vm: Vm, root: nat, paths: Paths)
    requires Inv(vm, root, paths) && vm.next < |vm.frames|
    ensures var vm1 := vm.(next := vm.next + 1);
            Inv(vm1, root, paths) && HandedOut(vm1, vm.frames[vm.next]) && !HandedOut(vm, vm.frames[vm.next]) && vm.frames[vm.next] !in paths
  {
    hide Shape;
    FreshFrame(vm, root, paths);
    var vm1 := vm.(next := vm.next + 1);
    assert vm1.frames[vm.next] == vm.frames[vm.next];
    forall t | t in paths ensures HandedOut(vm1, t) {
      HandedOutLater(vm, vm1, t);
    }
  }

  lemma HeapPagesStay(vm0: Vm, vm: Vm, root: nat, paths: Paths, backing: seq<nat>, vm2: Vm, g: nat)
    requires HeapBacked(vm0, vm, root, paths, backing) && |backing| < 75 && g < TWO_52
    requires OnePageMoved(vm.mem, vm2.mem, root, Indices(HEAP_START + 4096 * |backing|), g)
    ensures forall j :: 0 <= j < |backing| ==> Translate(vm2.mem, root, HEAP_START + 4096 * j) == Some(backing[j])
    ensures Translate(vm2.mem, root, HEAP_START + 4096 * |backing|) == Some(g)
  {
    hide Indices, Walk, HandedOut, InHeap;
    var n := |backing|;
    FitsIn52Bits(g);
    IndicesValid(HEAP_START + 4096 * n);
    forall j | 0 <= j < n ensures Translate(vm2.mem, root, HEAP_START + 4096 * j) == Some(backing[j]) {
      HeapPagesDiffer(j, n);
      IndicesValid(HEAP_START + 4096 * j);
    }
  }

  lemma OthersStay(vm0: Vm, vm: Vm, root: nat, paths: Paths, backing: seq<nat>, vm2: Vm, g: nat)
    requires HeapBacked(vm0, vm, root, paths, backing)
    requires OnePageMoved(vm.mem, vm2.mem, root, Indices(HEAP_START + 4096 * |backing|), g)
    ensures forall p :: |p| == 4 && ValidPath(p) && !InHeap(p, |backing| + 1) ==> Walk(vm2.mem, root, p) == Walk(vm0.mem, root, p)
  {
    hide Indices, Walk, HandedOut, Translate;
    var n := |backing|;
    forall p | |p| == 4 && ValidPath(p) && !InHeap(p, n + 1) ensures Walk(vm2.mem, root, p) == Walk(vm0.mem, root, p) {
      assert p != Indices(HEAP_START + 4096 * n);
      OutsideHeap(p, n);
    }
  }


  /** One turn of init_heap's loop: a frame is taken, then the next page is mapped to it. */
  lemma HeapGrows(vm0: Vm, vm: Vm, root: nat, paths: Paths, backing: seq<nat>, vm1: Vm, vm2: Vm, paths2: Paths, g: nat)
    requires HeapBacked(vm0, vm, root, paths, backing) && |backing| < 75
    requires vm0.frames == vm.frames && vm0.next <= vm.next && vm1 == vm.(next := vm.next + 1)
    requires HandedOut(vm1, g) && !HandedOut(vm, g) && g !in paths && g < TWO_52
    requires Grown(vm1, paths, vm2, paths2)
    requires OnePageMoved(vm1.mem, vm2.mem, root, Indices(HEAP_START + 4096 * |backing|), g)
    ensures HeapBacked(vm0, vm2, root, paths2, backing + [g])
  {
    hide Indices, Walk, Translate, HandedOut, OnePageMoved, Grown, InHeap;
    HeapFramesStay(vm0, vm, root, paths, backing, vm1, vm2, paths2, g);
    HeapPagesStay(vm0, vm, root, paths, backing, vm2, g);
    OthersStay(vm0, vm, root, paths, backing, vm2, g);
  }

  lemma OutsideHeap(p: seq<nat>, n: nat)
    requires !InHeap(p, n + 1)
    ensures !InHeap(p, n)
  {
    hide Indices;
  }

  lemma HeapFramesStay(vm0: Vm, vm: Vm, root: nat, paths: Paths, backing: seq<nat>, vm1: Vm, vm2: Vm, paths2: Paths, g: nat)
    requires HeapBacked(vm0, vm, root, paths, backing)
    requires vm0.frames == vm.frames && vm0.next <= vm.next && vm1 == vm.(next := vm.next + 1)
    requires HandedOut(vm1, g) && !HandedOut(vm, g) && g !in paths && Grown(vm1, paths, vm2, paths2)
    ensures Distinct(backing + [g]) && HandedOut(vm2, g) && !HandedOut(vm0, g) && g !in paths2
    ensures forall j :: 0 <= j < |backing| ==> HandedOut(vm2, backing[j]) && backing[j] !in paths2
  {
    hide Indices, Walk;
    HandedOutLater(vm1, vm2, g);
    if HandedOut(vm0, g) {
      HandedOutLater(vm0, vm, g);
    }
    forall j | 0 <= j < |backing| ensures HandedOut(vm2, backing[j]) && backing[j] !in paths2 && backing[j] != g {
      HandedOutLater(vm, vm1, backing[j]);
      HandedOutLater(vm1, vm2, backing[j]);
    }
  }

  lemma HeapStart()
    ensures HEAP_START % 4096 == 0 && HEAP_SIZE == 75 * 4096 && HEAP_START + HEAP_SIZE < 0x8000_0000_0000
  {
  }

  /** New is the identity on low addresses. */
  lemma NewOfLowHalf(v: U64)
    requires v < 0x8000_0000_0000
    ensures New(v) == v
  {
    NewSignExtends(v);
  }

  /** One of the heap's pages is mapped. */
  ghost predicate HeapTaken(m: Memory, root: nat) {
    exists j: nat :: j < 75 && Translate(m, root, HEAP_START + 4096 * j).Some?
  }

  /** The pages backed were free before, or mapped to that very frame. */
  ghost predicate WereFree(m: Memory, root: nat, backing: seq<nat>) {
    forall j: nat :: j < |backing| ==>
      var t := Translate(m, root, HEAP_START + 4096 * j); t.None? || t == Some(backing[j])
  }

  /** The next page of the heap is as it was at the start. */
  lemma NextHeapPageUntouched(vm0: Vm, vm: Vm, root: nat, paths: Paths, backing: seq<nat>)
    requires HeapBacked(vm0, vm, root, paths, backing) && |backing| < 75
    ensures Translate(vm.mem, root, HEAP_START + 4096 * |backing|) == Translate(vm0.mem, root, HEAP_START + 4096 * |backing|)
  {
    hide Indices, Walk;
    var n := |backing|;
    IndicesValid(HEAP_START + 4096 * n);
    if InHeap(Indices(HEAP_START + 4096 * n), n) {
      var j: nat :| j < n && Indices(HEAP_START + 4096 * n) == Indices(HEAP_START + 4096 * j);
      HeapPagesDiffer(j, n);
    }
  }

  /** What the request for a page of the heap is answered, and that it leaves the window alone. */
  lemma HeapRequest(vm: Vm, root: nat, paths: Paths, limit: nat, heap: U64, g: U64)
    requires Inv(vm, root, paths) && Window(vm.mem, root, limit) && limit <= TWO_52 && heap % 4096 == 0 && g % 4096 == 0
    ensures var (vm', r) := MapAddress(vm, root, heap, g, CheckFrameIsFree);
            && Window(vm'.mem, root, limit)
            && (r.Mapped? || vm'.next > |vm.frames| || Translate(vm.mem, root, heap).Some?)
  {
    hide MapAddress, Inv, Indices, New, Grown, Walk, OnlyTablesChanged, Window;
    var _ := RequestKeepsWindow(vm, root, paths, limit, Request(heap, g, CheckFrameIsFree));
    var _ := MapAddressMeaning(vm, root, paths, heap, g, CheckFrameIsFree);
  }

  /** init_heap up to the hand-over to the block allocator; false is a panic.  The kernel reaches
      memory through the window, so every frame it may be given must be there; the window stays, and
      the heap comes to be unless frames run out or one of its pages is mapped already. */
  method InitHeap(m: Machine, a: FrameAllocator, pageTable: nat, ghost paths: Paths, ghost limit: nat)
    returns (ok: bool, ghost backing: seq<nat>, ghost paths': Paths)
    requires m.window == VIRT_MAPPING_OFFSET && Reachable(m, a, VIRT_MAPPING_OFFSET) && VIRT_MAPPING_OFFSET <= pageTable
    requires Inv(VmOf(m, a), pageTable - VIRT_MAPPING_OFFSET, paths)
    requires Window(m.ram, pageTable - VIRT_MAPPING_OFFSET, limit) && limit <= TWO_52 && AllBelow(UsableFrames(a.memoryMap), limit)
    modifies m, a
    ensures Window(m.ram, pageTable - VIRT_MAPPING_OFFSET, limit)
    ensures AllVisible(m.ram, pageTable - VIRT_MAPPING_OFFSET, UsableFrames(a.memoryMap))
    ensures ok ==> |backing| * 4096 == 300 * 1024 && Inv(VmOf(m, a), pageTable - VIRT_MAPPING_OFFSET, paths')
    ensures ok ==> HeapBacked(old(VmOf(m, a)), VmOf(m, a), pageTable - VIRT_MAPPING_OFFSET, paths', backing)
    ensures ok ==> HeapAt(m.ram, pageTable - VIRT_MAPPING_OFFSET, backing)
    ensures ok ==> WereFree(old(m.ram), pageTable - VIRT_MAPPING_OFFSET, backing)
    ensures !ok ==> a.next > |UsableFrames(a.memoryMap)| || HeapTaken(old(m.ram), pageTable - VIRT_MAPPING_OFFSET)
  {
    hide Indices, New, Inv, MapAddress, TablePlace, HeapBacked, OnePageMoved, UsableFrames, Grown, Window, Walk, OnlyTablesChanged;
    hide AllVisible, AllBelow, HeapAt;
    ghost var root := pageTable - VIRT_MAPPING_OFFSET;
    ghost var vm0 := VmOf(m, a);
    backing, paths' := [], paths;
    HeapStart();
    NewOfLowHalf(HEAP_START);
    NewOfLowHalf(HEAP_START + HEAP_SIZE);
    EmptyHeap(vm0, root, paths);
    FramesVisible(vm0, root, limit);
    var heap := New(HEAP_START);
    var heapEnd := Offset(heap, HEAP_SIZE);
    while heap < heapEnd.value
      invariant heap == HEAP_START + 4096 * |backing| && |backing| <= 75
      invariant Reachable(m, a, VIRT_MAPPING_OFFSET) && Inv(VmOf(m, a), root, paths')
      invariant VmOf(m, a).frames == vm0.frames && vm0.next <= VmOf(m, a).next
      invariant HeapBacked(vm0, VmOf(m, a), root, paths', backing) && WereFree(vm0.mem, root, backing)
      invariant Window(m.ram, root, limit) && AllVisible(m.ram, root, vm0.frames)
      decreases heapEnd.value - heap
    {
      ghost var vm := VmOf(m, a);
      var frame := a.AllocateFrame();
      if frame.None? {
        return false, backing, paths';
      }
      ghost var vm1 := VmOf(m, a);
      TakeFrameInv(vm, root, paths');
      ReachableFrame(m, a, frame.value);
      NextHeapPageUntouched(vm0, vm, root, paths', backing);
      HeapRequest(vm1, root, paths', limit, heap, frame.value);
      var r := MapPageWithOffset(m, a, pageTable, heap, frame.value, VIRT_MAPPING_OFFSET);
      FramesVisible(VmOf(m, a), root, limit);
      if !r.Mapped? {
        return false, backing, paths';
      }
      ghost var vm2 := VmOf(m, a);
      ghost var paths2 := FreshPage(vm1, root, paths', heap, frame.value);
      HeapGrows(vm0, vm, root, paths', backing, vm1, vm2, paths2, frame.value);
      SameFrames(vm1, paths', vm2, paths2);
      backing, paths' := backing + [frame.value], paths2;
      NewOfLowHalf(heap + 4096);
      heap := Offset(heap, 4096).value;
    }
    BackedFromStart(vm0, VmOf(m, a), root, paths', backing);
    ok := true;
  }

  /** Every frame below the limit of the window is visible. */
  lemma FramesVisible(vm: Vm, root: nat, limit: nat)
    requires Framed(vm) && Window(vm.mem, root, limit) && AllBelow(vm.frames, limit)
    ensures AllVisible(vm.mem, root, vm.frames)
  {
    hide Indices, Walk, Translate;
    forall f: nat | f in vm.frames ensures Visible(vm.mem, root, f) {
      var k :| 0 <= k < |vm.frames| && vm.frames[k] == f;
      assert TablePlace(vm.mem, vm.frames[k]);
    }
  }

  lemma SameFrames(vm: Vm, paths: Paths, vm': Vm, paths': Paths)
    requires Grown(vm, paths, vm', paths')
    ensures vm'.frames == vm.frames && vm.next <= vm'.next
  {
  }

  lemma EmptyHeap(vm: Vm, root: nat, paths: Paths)
    ensures HeapBacked(vm, vm, root, paths, [])
  {
  }

  lemma ReachableFrame(m: Machine, a: FrameAllocator, g: nat)
    requires Reachable(m, a, VIRT_MAPPING_OFFSET) && a.next > 0 && Nth(UsableFrames(a.memoryMap), a.next - 1) == Some(g)
    ensures g < TWO_52 && g % 4096 == 0
  {
    assert TablePlace(m.ram, UsableFrames(a.memoryMap)[a.next - 1]);
  }
}
