/** Loading the kernel image (map_kernel in loader/src/main.rs): what the loader promises for each
    loadable segment of the ELF file, and the state its steps keep.  Sizes follow chapter 5 of the
    System V ABI: `fileSize` bytes come from the file, the rest up to `memSize` is zero. */
module KernelImage {
  import opened Bits
  import opened VirtualAddress
  import opened PhysicalMemory
  import opened Collections
  import opened FrameAllocation
  import opened PageTables
  import opened Mapper

  datatype SegmentType = Load | Tls | Other

  datatype Segment = Segment(ty: SegmentType, offset: U64, vaddr: U64, fileSize: U64, memSize: U64)

  datatype MappedEntry = MappedEntry(page: U64, frame: nat)

  /** The file in memory: `size` bytes from `kernel`, with the contents `image` at the start.
      The first `limit` usable frames are known to lie outside it. */
  datatype Ctx = Ctx(root: nat, kernel: nat, size: nat, image: Memory, limit: nat)

  ghost predicate InImage(c: Ctx, a: nat) { c.kernel <= a < c.kernel + c.size }

  ghost predicate ImagePlace(c: Ctx, vm: Vm) {
    && c.kernel % 4096 == 0 && c.size % 4096 == 0 && c.kernel + c.size <= TWO_52
    && forall k :: 0 <= k < |vm.frames| && k < c.limit ==> !InImage(c, vm.frames[k])
  }

  ghost predicate Intact(c: Ctx, m: Memory) {
    forall a: nat :: InImage(c, a) ==> ByteAt(m, a) == ByteAt(c.image, a)
  }

  /** The loader's state: memory and tables, the list `mapped_frames`, the file pages that were
      replaced by a copy, each with the address up to which it was copied, and the fresh zero pages. */
  datatype K = K(vm: Vm, paths: Paths, mapped: seq<MappedEntry>, cut: map<nat, nat>, zero: set<seq<nat>>)

  /** A frame handed out for data. */
  ghost predicate OwnFrame(k: K, g: nat) { HandedOut(k.vm, g) && g !in k.paths }

  /** The page at `g` is the file page `frame` up to the file address `end` and zero from there. */
  ghost predicate CutContent(c: Ctx, m: Memory, g: nat, frame: nat, end: nat) {
    forall a: nat :: g <= a < g + 4096 ==>
      ByteAt(m, a) == if frame + (a - g) < end then ByteAt(c.image, frame + (a - g)) else 0
  }

  ghost predicate ZeroContent(m: Memory, g: nat) {
    forall a: nat :: g <= a < g + 4096 ==> ByteAt(m, a) == 0
  }

  /** A recorded page is mapped to its file page, or to a cut copy of it. */
  ghost predicate EntryOk(c: Ctx, k: K, e: MappedEntry) {
    && e.page % 4096 == 0 && e.frame % 4096 == 0 && InImage(c, e.frame)
    && match Walk(k.vm.mem, c.root, Indices(e.page)) {
         case None => false
         case Some(g) =>
           g == e.frame || (OwnFrame(k, g) && e.frame in k.cut && CutContent(c, k.vm.mem, g, e.frame, k.cut[e.frame]))
       }
  }

  ghost predicate ZeroOk(c: Ctx, k: K, p: seq<nat>) {
    && |p| == 4 && ValidPath(p)
    && (match Walk(k.vm.mem, c.root, p) {
          case None => false
          case Some(g) => OwnFrame(k, g) && ZeroContent(k.vm.mem, g)
        })
    && forall n :: 0 <= n < |k.mapped| ==> Indices(k.mapped[n].page) != p
  }

  ghost predicate OneFramePerPage(mapped: seq<MappedEntry>) {
    forall n, n' :: 0 <= n < |mapped| && 0 <= n' < |mapped| && Indices(mapped[n].page) == Indices(mapped[n'].page) ==>
      mapped[n].frame == mapped[n'].frame
  }

  ghost predicate KInv(c: Ctx, k: K) {
    && Inv(k.vm, c.root, k.paths) && ImagePlace(c, k.vm) && k.vm.next <= c.limit && Intact(c, k.vm.mem)
    && (forall n :: 0 <= n < |k.mapped| ==> EntryOk(c, k, k.mapped[n]))
    && OneFramePerPage(k.mapped)
    && (forall p :: p in k.zero ==> ZeroOk(c, k, p))
  }

  // ---- Steps that leave every mapped page where it is --------------------------------------

  ghost predicate Extends(c: Ctx, vm: Vm, paths: Paths, vm': Vm, paths': Paths) {
    && Inv(vm', c.root, paths') && Grown(vm, paths, vm', paths') && vm'.next <= c.limit
    && OnlyTablesChanged(vm.mem, vm'.mem, paths')
    && forall p :: |p| == 4 && ValidPath(p) && Walk(vm.mem, c.root, p).Some? ==>
         Walk(vm'.mem, c.root, p) == Walk(vm.mem, c.root, p)
  }

  lemma OwnFrameFacts(c: Ctx, vm: Vm, g: nat)
    requires Framed(vm) && ImagePlace(c, vm) && vm.next <= c.limit && HandedOut(vm, g)
    ensures TablePlace(vm.mem, g) && !InImage(c, g)
  {
  }

  ghost predicate SamePageBytes(m: Memory, m': Memory, g: nat) {
    forall a: nat :: g <= a < g + 4096 ==> ByteAt(m', a) == ByteAt(m, a)
  }

  lemma DataPageKept(m: Memory, m': Memory, paths: Paths, g: nat)
    requires OnlyTablesChanged(m, m', paths) && g !in paths && g % 4096 == 0
    ensures SamePageBytes(m, m', g)
  {
    forall a: nat | g <= a < g + 4096 ensures ByteAt(m', a) == ByteAt(m, a) {
      FrameOfByte(g, a);
    }
  }

  lemma FrameOfByte(g: nat, a: nat)
    requires g % 4096 == 0 && g <= a < g + 4096
    ensures FrameBase(a) == g
  {
  }

  lemma OwnFrameKept(vm: Vm, paths: Paths, vm': Vm, paths': Paths, g: nat)
    requires Grown(vm, paths, vm', paths') && HandedOut(vm, g) && g !in paths
    ensures HandedOut(vm', g) && g !in paths'
  {
  }

  lemma TablesOutsideImage(c: Ctx, vm: Vm, paths: Paths)
    requires Inv(vm, c.root, paths) && ImagePlace(c, vm) && vm.next <= c.limit
    ensures forall t :: t in paths ==> !InImage(c, t)
  {
    forall t | t in paths ensures !InImage(c, t) {
      OwnFrameFacts(c, vm, t);
    }
  }

  lemma IntactKept(c: Ctx, m: Memory, m': Memory, paths: Paths)
    requires Intact(c, m) && c.kernel % 4096 == 0 && c.size % 4096 == 0
    requires OnlyTablesChanged(m, m', paths) && forall t :: t in paths ==> !InImage(c, t)
    ensures Intact(c, m')
  {
    forall a: nat | InImage(c, a) ensures ByteAt(m', a) == ByteAt(c.image, a) {
      ImageInPages(c, a);
    }
  }

  lemma ImageInPages(c: Ctx, a: nat)
    requires c.kernel % 4096 == 0 && c.size % 4096 == 0 && InImage(c, a)
    ensures InImage(c, FrameBase(a))
  {
  }

  lemma ExtendKeepsK(c: Ctx, k: K, vm': Vm, paths': Paths)
    requires KInv(c, k) && Extends(c, k.vm, k.paths, vm', paths')
    ensures KInv(c, k.(vm := vm', paths := paths'))
  {
    var k' := k.(vm := vm', paths := paths');
    assert ImagePlace(c, vm');
    TablesOutsideImage(c, vm', paths');
    IntactKept(c, k.vm.mem, vm'.mem, paths');
    forall n | 0 <= n < |k.mapped| ensures EntryOk(c, k', k.mapped[n]) {
      ExtendKeepsEntry(c, k, vm', paths', k.mapped[n]);
    }
    forall p | p in k.zero ensures ZeroOk(c, k', p) {
      ExtendKeepsZero(c, k, vm', paths', p);
    }
  }

  lemma ExtendKeepsEntry(c: Ctx, k: K, vm': Vm, paths': Paths, e: MappedEntry)
    requires Framed(k.vm) && ImagePlace(c, k.vm) && k.vm.next <= c.limit
    requires Extends(c, k.vm, k.paths, vm', paths') && EntryOk(c, k, e)
    ensures EntryOk(c, k.(vm := vm', paths := paths'), e)
    ensures Walk(vm'.mem, c.root, Indices(e.page)) == Walk(k.vm.mem, c.root, Indices(e.page))
  {
    IndicesValid(e.page);
    var g := Walk(k.vm.mem, c.root, Indices(e.page)).value;
    if g != e.frame {
      OwnFrameFacts(c, k.vm, g);
      OwnFrameKept(k.vm, k.paths, vm', paths', g);
      DataPageKept(k.vm.mem, vm'.mem, paths', g);
      CutContentKept(c, k.vm.mem, vm'.mem, g, e.frame, k.cut[e.frame]);
    }
  }

  lemma CutContentKept(c: Ctx, m: Memory, m': Memory, g: nat, frame: nat, end: nat)
    requires CutContent(c, m, g, frame, end) && SamePageBytes(m, m', g)
    ensures CutContent(c, m', g, frame, end)
  {
  }

  lemma ExtendKeepsZero(c: Ctx, k: K, vm': Vm, paths': Paths, p: seq<nat>)
    requires Framed(k.vm) && ImagePlace(c, k.vm) && k.vm.next <= c.limit
    requires Extends(c, k.vm, k.paths, vm', paths') && ZeroOk(c, k, p)
    ensures ZeroOk(c, k.(vm := vm', paths := paths'), p)
  {
    var g := Walk(k.vm.mem, c.root, p).value;
    OwnFrameFacts(c, k.vm, g);
    OwnFrameKept(k.vm, k.paths, vm', paths', g);
    DataPageKept(k.vm.mem, vm'.mem, paths', g);
  }

  /** A successful mapping that insists on a free page moves nothing that was mapped. */
  lemma MapExtends(c: Ctx, vm: Vm, paths: Paths, virt: U64, phys: U64) returns (paths': Paths)
    requires Inv(vm, c.root, paths) && phys < TWO_52
    ensures var (vm', r) := MapAddress(vm, c.root, virt, phys, CheckFrameIsFree);
            r.Mapped? && vm'.next <= c.limit ==>
              Extends(c, vm, paths, vm', paths') && Translate(vm'.mem, c.root, virt) == Some(phys)
              && (Translate(vm.mem, c.root, virt).None? || Translate(vm.mem, c.root, virt) == Some(phys))
              && OnePageMoved(vm.mem, vm'.mem, c.root, Indices(virt), phys)
  {
    paths' := MapAddressMeaning(vm, c.root, paths, virt, phys, CheckFrameIsFree);
    FitsIn52Bits(phys);
    var vm', r := MapAddress(vm, c.root, virt, phys, CheckFrameIsFree).0, MapAddress(vm, c.root, virt, phys, CheckFrameIsFree).1;
    if r.Mapped? {
      MovedOnlyFree(vm.mem, vm'.mem, c.root, Indices(virt), phys);
    }
  }

  lemma MovedOnlyFree(m: Memory, m': Memory, root: nat, target: seq<nat>, phys: nat)
    requires OnePageMoved(m, m', root, target, phys) && phys % TWO_52 == phys
    requires Walk(m, root, target).None? || Walk(m, root, target) == Some(phys)
    ensures forall p :: |p| == 4 && ValidPath(p) && Walk(m, root, p).Some? ==> Walk(m', root, p) == Walk(m, root, p)
  {
  }

  /** Recording a page that is mapped to a page of the file. */
  lemma AddEntry(c: Ctx, k: K, e: MappedEntry)
    requires KInv(c, k) && e.page % 4096 == 0 && e.frame % 4096 == 0 && InImage(c, e.frame)
    requires Walk(k.vm.mem, c.root, Indices(e.page)) == Some(e.frame)
    ensures KInv(c, k.(mapped := k.mapped + [e]))
  {
    var k' := k.(mapped := k.mapped + [e]);
    forall n | 0 <= n < |k'.mapped| ensures EntryOk(c, k', k'.mapped[n]) {
      if n < |k.mapped| {
        assert EntryOk(c, k, k.mapped[n]);
      }
    }
    forall n | 0 <= n < |k.mapped| && Indices(k.mapped[n].page) == Indices(e.page) ensures k.mapped[n].frame == e.frame {
      FilePageOfEntry(c, k, k.mapped[n], e.frame);
    }
    OneFrameAppend(k.mapped, e);
    forall p | p in k.zero ensures ZeroOk(c, k', p) {
      ZeroElsewhere(c, k, p, e);
    }
  }

  lemma OneFrameAppend(mapped: seq<MappedEntry>, e: MappedEntry)
    requires OneFramePerPage(mapped)
    requires forall n :: 0 <= n < |mapped| && Indices(mapped[n].page) == Indices(e.page) ==> mapped[n].frame == e.frame
    ensures OneFramePerPage(mapped + [e])
  {
  }

  /** A recorded page that is mapped into the image is mapped to its own file page. */
  lemma FilePageOfEntry(c: Ctx, k: K, e: MappedEntry, frame: nat)
    requires Framed(k.vm) && ImagePlace(c, k.vm) && k.vm.next <= c.limit && EntryOk(c, k, e)
    requires Walk(k.vm.mem, c.root, Indices(e.page)) == Some(frame) && InImage(c, frame)
    ensures e.frame == frame
  {
    if e.frame != frame {
      OwnFrameFacts(c, k.vm, frame);
    }
  }

  lemma ZeroElsewhere(c: Ctx, k: K, p: seq<nat>, e: MappedEntry)
    requires Framed(k.vm) && ImagePlace(c, k.vm) && k.vm.next <= c.limit && ZeroOk(c, k, p)
    requires Walk(k.vm.mem, c.root, Indices(e.page)) == Some(e.frame) && InImage(c, e.frame)
    ensures ZeroOk(c, k.(mapped := k.mapped + [e]), p)
  {
    OwnFrameFacts(c, k.vm, Walk(k.vm.mem, c.root, p).value);
  }

  // ---- Writing data into a frame of one's own ----------------------------------------------

  /** Only bytes of the page at `g` differ. */
  ghost predicate OnlyPageChanged(m: Memory, m': Memory, g: nat) {
    |m'| == |m| && forall a: nat :: !(g <= a < g + 4096) ==> ByteAt(m', a) == ByteAt(m, a)
  }

  lemma DataWriteKeepsEntries(m: Memory, m': Memory, g: nat, t: nat, i: nat)
    requires OnlyPageChanged(m, m', g) && t % 4096 == 0 && g % 4096 == 0 && t != g && i < 512
    ensures Entry(m', t, i) == Entry(m, t, i)
  {
    assert t + 4096 <= g || g + 4096 <= t;
    ReadLocal(m, m', t + 8 * i, 8);
  }

  ghost predicate SameTables(m: Memory, m': Memory, paths: Paths) {
    |m'| == |m| && forall t, i: nat :: t in paths && i < 512 ==> Entry(m', t, i) == Entry(m, t, i)
  }

  lemma {:induction false} SameTablesSameWalks(m: Memory, m': Memory, root: nat, paths: Paths, u: nat, s: seq<nat>)
    requires Shape(m, root, paths) && SameTables(m, m', paths)
    requires u in paths && ValidPath(s) && |paths[u]| + |s| <= 4
    ensures Walk(m', u, s) == Walk(m, u, s)
    decreases |s|
  {
    if s != [] && IsPresent(Entry(m, u, s[0])) {
      var c := EntryAddr(Entry(m, u, s[0]));
      if |paths[u]| < 3 {
        SameTablesSameWalks(m, m', root, paths, c, s[1..]);
      } else {
        assert s[1..] == [];
      }
    }
  }

  /** Tables and translations do not notice data writes. */
  lemma DataWriteKeepsInv(vm: Vm, root: nat, paths: Paths, m': Memory, g: nat)
    requires Inv(vm, root, paths) && OnlyPageChanged(vm.mem, m', g) && g % 4096 == 0 && g !in paths
    ensures Inv(vm.(mem := m'), root, paths) && SameTranslations(vm.mem, m', root)
  {
    forall t, i: nat | t in paths && i < 512 ensures Entry(m', t, i) == Entry(vm.mem, t, i) {
      DataWriteKeepsEntries(vm.mem, m', g, t, i);
    }
    forall p | |p| <= 4 && ValidPath(p) ensures Walk(m', root, p) == Walk(vm.mem, root, p) {
      SameTablesSameWalks(vm.mem, m', root, paths, root, p);
    }
    SameTablesSameShape(vm.mem, m', root, paths);
    forall t | t in paths ensures HandedOut(vm.(mem := m'), t) {
      assert HandedOut(vm, t);
    }
  }

  lemma SameTablesSameShape(m: Memory, m': Memory, root: nat, paths: Paths)
    requires Shape(m, root, paths) && SameTables(m, m', paths)
    requires forall p :: |p| <= 4 && ValidPath(p) ==> Walk(m', root, p) == Walk(m, root, p)
    ensures Shape(m', root, paths)
  {
    forall t, i | t in paths && 0 <= i < 512 && |paths[t]| < 3 && IsPresent(Entry(m', t, i))
      ensures EntryAddr(Entry(m', t, i)) in paths && paths[EntryAddr(Entry(m', t, i))] == paths[t] + [i]
    {
      assert Entry(m', t, i) == Entry(m, t, i);
    }
  }

  /** A data write into a frame no recorded or zero page is mapped to. */
  lemma DataWriteKeepsK(c: Ctx, k: K, m': Memory, g: nat)
    requires KInv(c, k) && OnlyPageChanged(k.vm.mem, m', g) && OwnFrame(k, g)
    requires forall n :: 0 <= n < |k.mapped| ==> Walk(k.vm.mem, c.root, Indices(k.mapped[n].page)) != Some(g)
    requires forall p :: p in k.zero ==> Walk(k.vm.mem, c.root, p) != Some(g)
    ensures KInv(c, k.(vm := k.vm.(mem := m'))) && SameTranslations(k.vm.mem, m', c.root)
  {
    var vm' := k.vm.(mem := m');
    var k' := k.(vm := vm');
    OwnFrameFacts(c, k.vm, g);
    DataWriteKeepsInv(k.vm, c.root, k.paths, m', g);
    IntactApart(c, k.vm.mem, m', g);
    forall n | 0 <= n < |k.mapped| ensures EntryOk(c, k', k.mapped[n]) {
      DataWriteKeepsEntry(c, k, m', g, k.mapped[n]);
    }
    forall p | p in k.zero ensures ZeroOk(c, k', p) {
      DataWriteKeepsZero(c, k, m', g, p);
    }
  }

  lemma IntactApart(c: Ctx, m: Memory, m': Memory, g: nat)
    requires Intact(c, m) && OnlyPageChanged(m, m', g) && g % 4096 == 0 && !InImage(c, g)
    requires c.kernel % 4096 == 0 && c.size % 4096 == 0
    ensures Intact(c, m')
  {
    forall a: nat | InImage(c, a) ensures ByteAt(m', a) == ByteAt(c.image, a) {
      if g <= a < g + 4096 {
        FrameOfByte(g, a);
        ImageInPages(c, a);
      }
    }
  }

  lemma OwnFrameOfWrite(k: K, m': Memory, g: nat)
    requires OwnFrame(k, g)
    ensures OwnFrame(k.(vm := k.vm.(mem := m')), g)
  {
    var i :| 0 <= i < |k.vm.frames| && i < k.vm.next && k.vm.frames[i] == g;
  }

  lemma OtherPageKept(m: Memory, m': Memory, g: nat, h: nat)
    requires OnlyPageChanged(m, m', g) && g % 4096 == 0 && h % 4096 == 0 && g != h
    ensures SamePageBytes(m, m', h)
  {
    forall a: nat | h <= a < h + 4096 ensures ByteAt(m', a) == ByteAt(m, a) {
      FrameOfByte(h, a);
      if g <= a < g + 4096 {
        FrameOfByte(g, a);
      }
    }
  }

  lemma DataWriteKeepsEntry(c: Ctx, k: K, m': Memory, g: nat, e: MappedEntry)
    requires Framed(k.vm) && ImagePlace(c, k.vm) && k.vm.next <= c.limit && EntryOk(c, k, e)
    requires OnlyPageChanged(k.vm.mem, m', g) && g % 4096 == 0 && SameTranslations(k.vm.mem, m', c.root)
    requires Walk(k.vm.mem, c.root, Indices(e.page)) != Some(g)
    ensures EntryOk(c, k.(vm := k.vm.(mem := m')), e)
  {
    IndicesValid(e.page);
    var h := Walk(k.vm.mem, c.root, Indices(e.page)).value;
    if h != e.frame {
      OwnFrameFacts(c, k.vm, h);
      OwnFrameOfWrite(k, m', h);
      OtherPageKept(k.vm.mem, m', g, h);
      CutContentKept(c, k.vm.mem, m', h, e.frame, k.cut[e.frame]);
    }
  }

  lemma DataWriteKeepsZero(c: Ctx, k: K, m': Memory, g: nat, p: seq<nat>)
    requires Framed(k.vm) && ImagePlace(c, k.vm) && k.vm.next <= c.limit && ZeroOk(c, k, p)
    requires OnlyPageChanged(k.vm.mem, m', g) && g % 4096 == 0 && SameTranslations(k.vm.mem, m', c.root)
    requires Walk(k.vm.mem, c.root, p) != Some(g)
    ensures ZeroOk(c, k.(vm := k.vm.(mem := m')), p)
  {
    var h := Walk(k.vm.mem, c.root, p).value;
    OwnFrameFacts(c, k.vm, h);
    OwnFrameOfWrite(k, m', h);
    OtherPageKept(k.vm.mem, m', g, h);
  }

  // ---- A fresh frame -------------------------------------------------------------------------

  /** The frame about to be handed out is not yet behind any recorded or zero page. */
  ghost predicate Unreferenced(c: Ctx, k: K, g: nat) {
    && (forall n :: 0 <= n < |k.mapped| ==> Walk(k.vm.mem, c.root, Indices(k.mapped[n].page)) != Some(g))
    && (forall p :: p in k.zero ==> Walk(k.vm.mem, c.root, p) != Some(g))
  }

  lemma TakeFrame(c: Ctx, k: K)
    requires KInv(c, k) && k.vm.next < |k.vm.frames| && k.vm.next + 1 <= c.limit
    ensures var g := k.vm.frames[k.vm.next];
            var k' := k.(vm := k.vm.(next := k.vm.next + 1));
            KInv(c, k') && OwnFrame(k', g) && Unreferenced(c, k', g) && Extends(c, k.vm, k.paths, k'.vm, k.paths)
  {
    var g := k.vm.frames[k.vm.next];
    var vm' := k.vm.(next := k.vm.next + 1);
    FreshFrame(k.vm, c.root, k.paths);
    forall t | HandedOut(k.vm, t) ensures HandedOut(vm', t) {
    }
    assert Inv(vm', c.root, k.paths);
    assert Extends(c, k.vm, k.paths, vm', k.paths);
    ExtendKeepsK(c, k, vm', k.paths);
    assert HandedOut(vm', g) by { assert vm'.frames[k.vm.next] == g; }
    NotReferencedYet(c, k, g);
  }

  lemma NotReferencedYet(c: Ctx, k: K, g: nat)
    requires KInv(c, k) && !HandedOut(k.vm, g) && !InImage(c, g)
    ensures Unreferenced(c, k, g)
  {
    forall n | 0 <= n < |k.mapped| ensures Walk(k.vm.mem, c.root, Indices(k.mapped[n].page)) != Some(g) {
      assert EntryOk(c, k, k.mapped[n]);
    }
    forall p | p in k.zero ensures Walk(k.vm.mem, c.root, p) != Some(g) {
      assert ZeroOk(c, k, p);
    }
  }
}
