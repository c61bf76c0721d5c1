/** The three kinds of steps of map_kernel: mapping a page of the file, replacing a file page by a
    copy whose tail is zero, and adding a zero page.  Each keeps the loader's state. */
module KernelSteps {
  import opened Bits
  import opened VirtualAddress
  import opened PhysicalMemory
  import opened Collections
  import opened FrameAllocation
  import opened PageTables
  import opened Mapper
  import opened KernelImage

  /** Recorded pages and zero pages stay; more may come. */
  ghost predicate Keeps(c: Ctx, k: K, k': K) {
    && |k.mapped| <= |k'.mapped| && k'.mapped[..|k.mapped|] == k.mapped
    && k'.cut == k.cut && k.zero <= k'.zero
    && forall n :: 0 <= n < |k.mapped| ==>
         Walk(k'.vm.mem, c.root, Indices(k.mapped[n].page)) == Walk(k.vm.mem, c.root, Indices(k.mapped[n].page))
  }

  lemma KeepsTransitive(c: Ctx, k: K, k1: K, k2: K)
    requires Keeps(c, k, k1) && Keeps(c, k1, k2)
    ensures Keeps(c, k, k2)
  {
    forall n | 0 <= n < |k.mapped|
      ensures Walk(k2.vm.mem, c.root, Indices(k.mapped[n].page)) == Walk(k.vm.mem, c.root, Indices(k.mapped[n].page))
    {
      assert k1.mapped[n] == k.mapped[n];
    }
    assert k2.mapped[..|k.mapped|] == k2.mapped[..|k1.mapped|][..|k.mapped|];
  }

  lemma ExtendKeeps(c: Ctx, k: K, vm': Vm, paths': Paths)
    requires KInv(c, k) && Extends(c, k.vm, k.paths, vm', paths')
    ensures Keeps(c, k, k.(vm := vm', paths := paths'))
  {
    hide Indices, Shape, CutContent, Distinct, TablePlace;
    forall n | 0 <= n < |k.mapped|
      ensures Walk(vm'.mem, c.root, Indices(k.mapped[n].page)) == Walk(k.vm.mem, c.root, Indices(k.mapped[n].page))
    {
      assert EntryOk(c, k, k.mapped[n]);
      ExtendKeepsEntry(c, k, vm', paths', k.mapped[n]);
    }
  }

  lemma SameWalksKeeps(c: Ctx, k: K, k': K)
    requires k'.mapped == k.mapped && k'.cut == k.cut && k.zero <= k'.zero
    requires SameTranslations(k.vm.mem, k'.vm.mem, c.root)
    ensures Keeps(c, k, k')
  {
    forall n | 0 <= n < |k.mapped|
      ensures Walk(k'.vm.mem, c.root, Indices(k.mapped[n].page)) == Walk(k.vm.mem, c.root, Indices(k.mapped[n].page))
    {
      IndicesValid(k.mapped[n].page);
    }
  }

  // ---- Pages that are not the loader's business ----------------------------------------------

  ghost predicate Recorded(mapped: seq<MappedEntry>, p: seq<nat>) {
    exists n :: 0 <= n < |mapped| && Indices(mapped[n].page) == p
  }

  /** A page that is not recorded walks as before if it was mapped, and also if it was not, unless it
      is one of the zero pages. */
  ghost predicate Spares(c: Ctx, k: K, k': K) {
    && |k.mapped| <= |k'.mapped| && k'.mapped[..|k.mapped|] == k.mapped && k.zero <= k'.zero
    && forall p :: |p| == 4 && ValidPath(p) && !Recorded(k'.mapped, p) && (Walk(k.vm.mem, c.root, p).Some? || p !in k'.zero) ==>
         Walk(k'.vm.mem, c.root, p) == Walk(k.vm.mem, c.root, p)
  }

  /** Every page but `target` walks as before. */
  ghost predicate OnlyMoved(c: Ctx, k: K, k': K, target: seq<nat>) {
    forall p :: |p| == 4 && ValidPath(p) && p != target ==> Walk(k'.vm.mem, c.root, p) == Walk(k.vm.mem, c.root, p)
  }

  lemma RecordedStays(mapped: seq<MappedEntry>, mapped': seq<MappedEntry>, p: seq<nat>)
    requires |mapped| <= |mapped'| && mapped'[..|mapped|] == mapped && Recorded(mapped, p)
    ensures Recorded(mapped', p)
  {
    hide Indices;
    var n :| 0 <= n < |mapped| && Indices(mapped[n].page) == p;
    assert mapped'[n] == mapped[n];
  }

  lemma SparesTransitive(c: Ctx, k: K, k1: K, k2: K)
    requires Spares(c, k, k1) && Spares(c, k1, k2)
    ensures Spares(c, k, k2)
  {
    hide Recorded, Walk;
    assert k2.mapped[..|k.mapped|] == k2.mapped[..|k1.mapped|][..|k.mapped|];
    forall p | |p| == 4 && ValidPath(p) && !Recorded(k2.mapped, p) && (Walk(k.vm.mem, c.root, p).Some? || p !in k2.zero)
      ensures Walk(k2.vm.mem, c.root, p) == Walk(k.vm.mem, c.root, p)
    {
      if Recorded(k1.mapped, p) {
        RecordedStays(k1.mapped, k2.mapped, p);
      }
    }
  }

  lemma SparesItself(c: Ctx, k: K)
    ensures Spares(c, k, k)
  {
  }

  /** One page moved, and it is recorded or a zero page. */
  lemma MoveSpares(c: Ctx, k: K, k': K, virt: U64, phys: nat)
    requires |k.mapped| <= |k'.mapped| && k'.mapped[..|k.mapped|] == k.mapped && k.zero <= k'.zero && phys < TWO_52
    requires OnePageMoved(k.vm.mem, k'.vm.mem, c.root, Indices(virt), phys)
    requires Walk(k.vm.mem, c.root, Indices(virt)).None? || Walk(k.vm.mem, c.root, Indices(virt)) == Some(phys)
    requires Recorded(k'.mapped, Indices(virt)) || Indices(virt) in k'.zero
    ensures Spares(c, k, k')
  {
    hide Indices, Walk, Recorded;
    FitsIn52Bits(phys);
  }

  // ---- A page of the file --------------------------------------------------------------------

  lemma MapFilePage(c: Ctx, k: K, virt: U64, phys: U64) returns (k': K)
    requires KInv(c, k) && phys % 4096 == 0 && InImage(c, phys)
    requires MapAddress(k.vm, c.root, virt, phys, CheckFrameIsFree).1.Mapped?
    requires MapAddress(k.vm, c.root, virt, phys, CheckFrameIsFree).0.next <= c.limit
    ensures k'.vm == MapAddress(k.vm, c.root, virt, phys, CheckFrameIsFree).0
    ensures k'.mapped == k.mapped + [MappedEntry(virt, phys)] && k'.cut == k.cut && k'.zero == k.zero
    ensures KInv(c, k') && Keeps(c, k, k') && Spares(c, k, k') && OnlyMoved(c, k, k', Indices(virt))
    ensures Walk(k'.vm.mem, c.root, Indices(virt)) == Some(phys)
  {
    var paths' := MapExtends(c, k.vm, k.paths, virt, phys);
    var vm' := MapAddress(k.vm, c.root, virt, phys, CheckFrameIsFree).0;
    var k1 := k.(vm := vm', paths := paths');
    ExtendKeepsK(c, k, vm', paths');
    ExtendKeeps(c, k, vm', paths');
    k' := k1.(mapped := k1.mapped + [MappedEntry(virt, phys)]);
    AddEntry(c, k1, MappedEntry(virt, phys));
    assert k'.mapped[..|k.mapped|] == k.mapped;
    assert k'.mapped[|k.mapped|] == MappedEntry(virt, phys);
    MoveSpares(c, k, k', virt, phys);
  }

  // ---- A zero page ---------------------------------------------------------------------------

  /** Allocate a frame, map a page to it, fill it with zeros. */
  lemma AddZeroPage(c: Ctx, k: K, virt: U64) returns (k': K)
    requires KInv(c, k) && k.vm.next < |k.vm.frames|
    requires var g := k.vm.frames[k.vm.next];
             var (vm2, r) := MapAddress(k.vm.(next := k.vm.next + 1), c.root, virt, g, CheckFrameIsFree);
             r.Mapped? && vm2.next <= c.limit
    ensures var g := k.vm.frames[k.vm.next];
            var vm2 := MapAddress(k.vm.(next := k.vm.next + 1), c.root, virt, g, CheckFrameIsFree).0;
            k'.vm == vm2.(mem := Store(vm2.mem, g, Zeros(4096)))
    ensures k'.mapped == k.mapped && k'.cut == k.cut && k'.zero == k.zero + {Indices(virt)}
    ensures KInv(c, k') && Keeps(c, k, k') && Spares(c, k, k') && OnlyMoved(c, k, k', Indices(virt))
    ensures forall f :: Walk(k.vm.mem, c.root, Indices(virt)) == Some(f) ==> !InImage(c, f)
  {
    var g := k.vm.frames[k.vm.next];
    var vm1 := k.vm.(next := k.vm.next + 1);
    var vm2 := MapAddress(vm1, c.root, virt, g, CheckFrameIsFree).0;
    RequestOnlyTakesFrames(vm1, c.root, virt, g, CheckFrameIsFree);
    TakeFrame(c, k);
    var k1 := k.(vm := vm1);
    ExtendKeeps(c, k, vm1, k.paths);
    OwnFrameFacts(c, vm1, g);
    var paths2 := MapExtends(c, vm1, k.paths, virt, g);
    var k2 := k1.(vm := vm2, paths := paths2);
    ExtendKeepsK(c, k1, vm2, paths2);
    ExtendKeeps(c, k1, vm2, paths2);
    UnreferencedKept(c, k1, k2, g);
    OwnFrameKept(vm1, k.paths, vm2, paths2, g);
    k' := FillZero(c, k2, virt, g);
    KeepsTransitive(c, k, k1, k2);
    KeepsTransitive(c, k, k2, k');
    ZeroPageSpares(c, k, vm2, k', virt, g);
  }

  lemma ZeroPageSpares(c: Ctx, k: K, vm2: Vm, k': K, virt: U64, g: nat)
    requires OnePageMoved(k.vm.mem, vm2.mem, c.root, Indices(virt), g) && SameTranslations(vm2.mem, k'.vm.mem, c.root) && g < TWO_52
    requires Walk(k.vm.mem, c.root, Indices(virt)).None? || Walk(k.vm.mem, c.root, Indices(virt)) == Some(g)
    requires k'.mapped == k.mapped && k'.zero == k.zero + {Indices(virt)}
    ensures Spares(c, k, k') && OnlyMoved(c, k, k', Indices(virt))
  {
    hide Indices, Walk;
    MoveSpares(c, k, k', virt, g);
  }

  lemma RequestOnlyTakesFrames(vm: Vm, root: nat, virt: U64, phys: U64, mode: MappingMode)
    ensures vm.next <= MapAddress(vm, root, virt, phys, mode).0.next
    ensures MapAddress(vm, root, virt, phys, mode).0.frames == vm.frames
  {
    if virt % 4096 == 0 && phys % 4096 == 0 {
      DescendOnlyTakes(vm, root, Indices(virt)[..3]);
    }
  }

  lemma {:induction false} DescendOnlyTakes(vm: Vm, t: nat, p: seq<nat>)
    ensures vm.next <= Descend(vm, t, p).0.next && Descend(vm, t, p).0.frames == vm.frames
    decreases |p|
  {
    if p != [] {
      var (vm1, c) := CreateNextTable(vm, t, p[0]);
      if c.Some? {
        DescendOnlyTakes(vm1, c.value, p[1..]);
      }
    }
  }

  lemma UnreferencedKept(c: Ctx, k: K, k': K, g: nat)
    requires KInv(c, k) && Unreferenced(c, k, g) && Extends(c, k.vm, k.paths, k'.vm, k'.paths)
    requires k'.mapped == k.mapped && k'.zero == k.zero
    ensures Unreferenced(c, k', g)
  {
    forall n | 0 <= n < |k.mapped| ensures Walk(k'.vm.mem, c.root, Indices(k.mapped[n].page)) != Some(g) {
      assert EntryOk(c, k, k.mapped[n]);
      IndicesValid(k.mapped[n].page);
    }
    forall p | p in k.zero ensures Walk(k'.vm.mem, c.root, p) != Some(g) {
      assert ZeroOk(c, k, p);
    }
  }

  lemma FillZero(c: Ctx, k: K, virt: U64, g: nat) returns (k': K)
    requires KInv(c, k) && OwnFrame(k, g) && Unreferenced(c, k, g)
    requires Walk(k.vm.mem, c.root, Indices(virt)) == Some(g)
    ensures k' == k.(vm := k.vm.(mem := Store(k.vm.mem, g, Zeros(4096))), zero := k.zero + {Indices(virt)})
    ensures KInv(c, k') && Keeps(c, k, k') && SameTranslations(k.vm.mem, k'.vm.mem, c.root)
  {
    hide Indices, Shape, CutContent, TablePlace;
    var m' := Store(k.vm.mem, g, Zeros(4096));
    OwnFrameFacts(c, k.vm, g);
    var k1 := k.(vm := k.vm.(mem := m'));
    DataWriteKeepsK(c, k, m', g);
    IndicesValid(virt);
    k' := k1.(zero := k.zero + {Indices(virt)});
    OwnFrameOfWrite(k, m', g);
    forall p | p in k'.zero ensures ZeroOk(c, k', p) {
      if p in k.zero {
        assert ZeroOk(c, k1, p);
      }
    }
    forall n | 0 <= n < |k.mapped| ensures EntryOk(c, k', k.mapped[n]) {
      assert EntryOk(c, k1, k.mapped[n]);
    }
    SameWalksKeeps(c, k, k');
  }

  // ---- A copy with a zero tail ----------------------------------------------------------------

  /** One of the first `n` recorded pages has the walk `p` and the file page `frame`. */
  ghost predicate Hit(mapped: seq<MappedEntry>, frame: nat, n: nat, p: seq<nat>) {
    exists i :: 0 <= i < |mapped| && i < n && mapped[i].frame == frame && Indices(mapped[i].page) == p
  }

  /** After the remapping loop has seen `n` recorded pages. */
  ghost predicate Remapped(c: Ctx, k: K, frame: nat, g: nat, n: nat, vm': Vm, paths': Paths) {
    && Inv(vm', c.root, paths') && Grown(k.vm, k.paths, vm', paths') && vm'.next <= c.limit
    && OnlyTablesChanged(k.vm.mem, vm'.mem, paths')
    && forall p :: |p| == 4 && ValidPath(p) ==>
         Walk(vm'.mem, c.root, p) == if Hit(k.mapped, frame, n, p) then Some(g) else Walk(k.vm.mem, c.root, p)
  }

  lemma RemapNone(c: Ctx, k: K, frame: nat, g: nat)
    requires KInv(c, k)
    ensures Remapped(c, k, frame, g, 0, k.vm, k.paths)
  {
  }

  lemma RemapSkip(c: Ctx, k: K, frame: nat, g: nat, n: nat, vm': Vm, paths': Paths)
    requires Remapped(c, k, frame, g, n, vm', paths') && n < |k.mapped| && k.mapped[n].frame != frame
    ensures Remapped(c, k, frame, g, n + 1, vm', paths')
  {
    forall p ensures Hit(k.mapped, frame, n + 1, p) <==> Hit(k.mapped, frame, n, p) {
    }
  }

  lemma HitNext(mapped: seq<MappedEntry>, frame: nat, n: nat, p: seq<nat>)
    requires n < |mapped| && mapped[n].frame == frame
    ensures Hit(mapped, frame, n + 1, p) <==> Hit(mapped, frame, n, p) || p == Indices(mapped[n].page)
  {
  }

  lemma RemapOne(c: Ctx, k: K, frame: nat, g: nat, n: nat, vm1: Vm, paths1: Paths) returns (paths2: Paths)
    requires Remapped(c, k, frame, g, n, vm1, paths1) && n < |k.mapped| && k.mapped[n].frame == frame
    requires g < TWO_52
    requires MapAddress(vm1, c.root, k.mapped[n].page, g, Remapping).1.Mapped?
    requires MapAddress(vm1, c.root, k.mapped[n].page, g, Remapping).0.next <= c.limit
    ensures Remapped(c, k, frame, g, n + 1, MapAddress(vm1, c.root, k.mapped[n].page, g, Remapping).0, paths2)
  {
    hide Indices, Inv, MapAddress;
    var virt := k.mapped[n].page;
    paths2 := MapAddressMeaning(vm1, c.root, paths1, virt, g, Remapping);
    var vm2 := MapAddress(vm1, c.root, virt, g, Remapping).0;
    FitsIn52Bits(g);
    GrownTransitive(k.vm, k.paths, vm1, paths1, vm2, paths2);
    TablesChangedTransitive(k.vm.mem, vm1.mem, vm2.mem, paths1, paths2);
    forall p | |p| == 4 && ValidPath(p)
      ensures Walk(vm2.mem, c.root, p) == if Hit(k.mapped, frame, n + 1, p) then Some(g) else Walk(k.vm.mem, c.root, p)
    {
      HitNext(k.mapped, frame, n, p);
    }
  }

  lemma GrownTransitive(vm: Vm, p: Paths, vm1: Vm, p1: Paths, vm2: Vm, p2: Paths)
    requires Grown(vm, p, vm1, p1) && Grown(vm1, p1, vm2, p2)
    ensures Grown(vm, p, vm2, p2)
  {
    forall t | t in p2 && t !in p ensures HandedOut(vm2, t) && !HandedOut(vm, t) {
      if t in p1 {
        var i :| 0 <= i < |vm1.frames| && i < vm1.next && vm1.frames[i] == t;
        assert vm2.frames[i] == t;
      }
    }
  }

  lemma TablesChangedTransitive(m: Memory, m1: Memory, m2: Memory, p1: Paths, p2: Paths)
    requires OnlyTablesChanged(m, m1, p1) && OnlyTablesChanged(m1, m2, p2) && forall t :: t in p1 ==> t in p2
    ensures OnlyTablesChanged(m, m2, p2)
  {
  }

  /** A recorded page of the file page moves away from it; any other stays. */
  ghost predicate CutEntry(c: Ctx, k: K, k': K, frame: nat, e: MappedEntry) {
    if e.frame == frame then Walk(k'.vm.mem, c.root, Indices(e.page)) != Some(frame)
    else Walk(k'.vm.mem, c.root, Indices(e.page)) == Walk(k.vm.mem, c.root, Indices(e.page))
  }

  /** What the replacement does to the recorded pages: those of the file page move to the copy. */
  ghost predicate CutStep(c: Ctx, k: K, k': K, frame: nat, end: nat) {
    && k'.mapped == k.mapped && k'.zero == k.zero && k'.cut == k.cut[frame := end]
    && forall n :: 0 <= n < |k.mapped| ==> CutEntry(c, k, k', frame, k.mapped[n])
  }

  /** All recorded pages of `frame` were remapped to `g`, and `g` was filled. */
  lemma CutKeepsK(c: Ctx, k: K, frame: nat, end: nat, g: nat, vm2: Vm, paths2: Paths, m': Memory) returns (k': K)
    requires KInv(c, k) && OwnFrame(k, g) && Unreferenced(c, k, g)
    requires Remapped(c, k, frame, g, |k.mapped|, vm2, paths2)
    requires OnlyPageChanged(vm2.mem, m', g) && CutContent(c, m', g, frame, end) && InImage(c, frame)
    ensures k' == K(vm2.(mem := m'), paths2, k.mapped, k.cut[frame := end], k.zero)
    ensures KInv(c, k') && CutStep(c, k, k', frame, end) && Spares(c, k, k')
  {
    k' := CutStateHolds(c, k, frame, end, g, vm2, paths2, m');
    forall n | 0 <= n < |k.mapped| ensures EntryOk(c, k', k.mapped[n]) && CutEntry(c, k, k', frame, k.mapped[n]) {
      if k.mapped[n].frame == frame {
        CutHitsEntry(c, k, frame, end, g, k', n);
      } else {
        CutSparesEntry(c, k, frame, end, g, k', n);
      }
    }
    forall p | p in k.zero ensures ZeroOk(c, k', p) {
      CutSparesZero(c, k, frame, end, g, k', p);
    }
    CutSparesOthers(c, k, frame, end, g, k');
  }

  lemma CutSparesOthers(c: Ctx, k: K, frame: nat, end: nat, g: nat, k': K)
    requires CutState(c, k, frame, end, g, k') && k'.zero == k.zero
    ensures Spares(c, k, k')
  {
    hide Indices, Walk, CutContent, Framed, ImagePlace, Grown, OneFramePerPage;
    forall p | |p| == 4 && ValidPath(p) && !Recorded(k'.mapped, p) ensures Walk(k'.vm.mem, c.root, p) == Walk(k.vm.mem, c.root, p) {
      assert !Hit(k.mapped, frame, |k.mapped|, p);
    }
  }

  /** The pieces of the final state that the entries need. */
  ghost predicate CutState(c: Ctx, k: K, frame: nat, end: nat, g: nat, k': K) {
    && OneFramePerPage(k.mapped) && k'.mapped == k.mapped && k'.cut == k.cut[frame := end]
    && Framed(k.vm) && ImagePlace(c, k.vm) && k.vm.next <= c.limit
    && Grown(k.vm, k.paths, k'.vm, k'.paths)
    && HandedOut(k.vm, g) && g !in k.paths && CutContent(c, k'.vm.mem, g, frame, end)
    && (forall a: nat :: FrameBase(a) !in k'.paths && !(g <= a < g + 4096) ==> ByteAt(k'.vm.mem, a) == ByteAt(k.vm.mem, a))
    && (forall p :: |p| == 4 && ValidPath(p) ==>
          Walk(k'.vm.mem, c.root, p) == if Hit(k.mapped, frame, |k.mapped|, p) then Some(g) else Walk(k.vm.mem, c.root, p))
  }

  lemma CutStateHolds(c: Ctx, k: K, frame: nat, end: nat, g: nat, vm2: Vm, paths2: Paths, m': Memory) returns (k': K)
    requires KInv(c, k) && OwnFrame(k, g)
    requires Remapped(c, k, frame, g, |k.mapped|, vm2, paths2)
    requires OnlyPageChanged(vm2.mem, m', g) && CutContent(c, m', g, frame, end)
    ensures k' == K(vm2.(mem := m'), paths2, k.mapped, k.cut[frame := end], k.zero)
    ensures CutState(c, k, frame, end, g, k')
    ensures Inv(k'.vm, c.root, k'.paths) && ImagePlace(c, k'.vm) && k'.vm.next <= c.limit && Intact(c, k'.vm.mem)
  {
    k' := K(vm2.(mem := m'), paths2, k.mapped, k.cut[frame := end], k.zero);
    OwnFrameFacts(c, k.vm, g);
    OwnFrameKept(k.vm, k.paths, vm2, paths2, g);
    DataWriteKeepsInv(vm2, c.root, paths2, m', g);
    assert ImagePlace(c, vm2);
    TablesOutsideImage(c, vm2, paths2);
    IntactKept(c, k.vm.mem, vm2.mem, paths2);
    IntactApart(c, vm2.mem, m', g);
    GrownDespiteWrite(k.vm, k.paths, vm2, paths2, m');
  }

  lemma GrownDespiteWrite(vm: Vm, p: Paths, vm1: Vm, p1: Paths, m': Memory)
    requires Grown(vm, p, vm1, p1)
    ensures Grown(vm, p, vm1.(mem := m'), p1)
  {
    forall t | t in p1 && t !in p ensures HandedOut(vm1.(mem := m'), t) {
      var i :| 0 <= i < |vm1.frames| && i < vm1.next && vm1.frames[i] == t;
    }
  }

  lemma CutHitsEntry(c: Ctx, k: K, frame: nat, end: nat, g: nat, k': K, n: nat)
    requires CutState(c, k, frame, end, g, k') && n < |k.mapped| && k.mapped[n].frame == frame && EntryOk(c, k, k.mapped[n])
    ensures EntryOk(c, k', k.mapped[n]) && CutEntry(c, k, k', frame, k.mapped[n])
  {
    IndicesValid(k.mapped[n].page);
    assert Hit(k.mapped, frame, |k.mapped|, Indices(k.mapped[n].page));
    OwnFrameKept(k.vm, k.paths, k'.vm, k'.paths, g);
    OwnFrameFacts(c, k.vm, g);
  }

  lemma SparedPage(c: Ctx, k: K, frame: nat, end: nat, g: nat, k': K, h: nat)
    requires CutState(c, k, frame, end, g, k') && OwnFrame(k, h) && h != g
    ensures OwnFrame(k', h) && SamePageBytes(k.vm.mem, k'.vm.mem, h)
  {
    OwnFrameFacts(c, k.vm, h);
    OwnFrameFacts(c, k.vm, g);
    OwnFrameKept(k.vm, k.paths, k'.vm, k'.paths, h);
    forall a: nat | h <= a < h + 4096 ensures ByteAt(k'.vm.mem, a) == ByteAt(k.vm.mem, a) {
      FrameOfByte(h, a);
      if g <= a < g + 4096 {
        FrameOfByte(g, a);
      }
    }
  }

  lemma CutSparesEntry(c: Ctx, k: K, frame: nat, end: nat, g: nat, k': K, n: nat)
    requires CutState(c, k, frame, end, g, k') && n < |k.mapped| && k.mapped[n].frame != frame && EntryOk(c, k, k.mapped[n])
    requires Walk(k.vm.mem, c.root, Indices(k.mapped[n].page)) != Some(g)
    ensures EntryOk(c, k', k.mapped[n]) && CutEntry(c, k, k', frame, k.mapped[n])
  {
    var e := k.mapped[n];
    IndicesValid(e.page);
    assert !Hit(k.mapped, frame, |k.mapped|, Indices(e.page));
    var h := Walk(k.vm.mem, c.root, Indices(e.page)).value;
    if h != e.frame {
      SparedPage(c, k, frame, end, g, k', h);
      CutContentKept(c, k.vm.mem, k'.vm.mem, h, e.frame, k.cut[e.frame]);
    }
  }

  lemma CutSparesZero(c: Ctx, k: K, frame: nat, end: nat, g: nat, k': K, p: seq<nat>)
    requires CutState(c, k, frame, end, g, k') && ZeroOk(c, k, p) && Walk(k.vm.mem, c.root, p) != Some(g)
    ensures ZeroOk(c, k', p)
  {
    assert !Hit(k.mapped, frame, |k.mapped|, p);
    SparedPage(c, k, frame, end, g, k', Walk(k.vm.mem, c.root, p).value);
  }
}
