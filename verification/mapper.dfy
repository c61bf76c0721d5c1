/** Mapping pages (create_next_table, map_address_impl and its wrappers in
    shared_lib/src/page_table.rs): the functions computed, and what they keep. */
module Mapper {
  import opened Bits
  import opened VirtualAddress
  import opened PhysicalMemory
  import opened Collections
  import opened FrameAllocation
  import opened PageTables

  /** Memory together with the allocator that hands out frames from it. */
  datatype Vm = Vm(mem: Memory, frames: seq<nat>, next: nat)

  datatype MappingMode = CheckFrameIsFree | Remapping

  datatype MapError = VirtUnaligned | PhysUnaligned | AlreadyMapped

  /** Panicked: the frame allocator ran out inside `expect`. */
  datatype MapResult = Mapped | Failed(error: MapError) | Panicked

  function AllocateTable(vm: Vm): (Vm, Option<nat>) {
    match Nth(vm.frames, vm.next)
    case None => (vm.(next := vm.next + 1), None)
    case Some(f) => (Vm(ClearTable(vm.mem, f), vm.frames, vm.next + 1), Some(f))
  }

  function CreateNextTable(vm: Vm, table: nat, i: nat): (Vm, Option<nat>) {
    var e := Entry(vm.mem, table, i);
    if IsPresent(e) then (vm, Some(EntryAddr(e)))
    else
      var (vm1, f) := AllocateTable(vm);
      if f.None? then (vm1, None)
      else (vm1.(mem := Write64(vm1.mem, table + 8 * i, EntryFor(f.value))), f)
  }

  /** CreateNextTable along a path. */
  function Descend(vm: Vm, table: nat, path: seq<nat>): (Vm, Option<nat>)
    decreases |path|
  {
    if path == [] then (vm, Some(table))
    else
      var (vm1, t) := CreateNextTable(vm, table, path[0]);
      if t.None? then (vm1, None) else Descend(vm1, t.value, path[1..])
  }

  function SetLeaf(vm: Vm, table: nat, i: nat, phys: nat, mode: MappingMode): (Vm, MapResult) {
    var e := Entry(vm.mem, table, i);
    if IsPresent(e) && EntryAddr(e) == phys then (vm, Mapped)
    else if IsPresent(e) && mode.CheckFrameIsFree? then (vm, Failed(AlreadyMapped))
    else (vm.(mem := Write64(vm.mem, table + 8 * i, EntryFor(phys))), Mapped)
  }

  /** Creates the tables on the way to the last index of `target` and fills that entry. */
  function MapPath(vm: Vm, root: nat, target: seq<nat>, phys: nat, mode: MappingMode): (Vm, MapResult)
    requires |target| == 4
  {
    var (vm1, t) := Descend(vm, root, target[..3]);
    if t.None? then (vm1, Panicked) else SetLeaf(vm1, t.value, target[3], phys, mode)
  }

  function MapAddress(vm: Vm, root: nat, virt: U64, phys: U64, mode: MappingMode): (Vm, MapResult) {
    if virt % 4096 != 0 then (vm, Failed(VirtUnaligned))
    else if phys % 4096 != 0 then (vm, Failed(PhysUnaligned))
    else MapPath(vm, root, Indices(virt), phys, mode)
  }

  // ---- The invariant ---------------------------------------------------------------------

  /** Frames are whole, aligned, distinct pieces of memory below 2^52. */
  ghost predicate Framed(vm: Vm) {
    Distinct(vm.frames) && forall k :: 0 <= k < |vm.frames| ==> TablePlace(vm.mem, vm.frames[k])
  }

  ghost predicate HandedOut(vm: Vm, f: nat) {
    exists k :: 0 <= k < |vm.frames| && k < vm.next && vm.frames[k] == f
  }

  /** The tables form a tree, and all their frames have been handed out. */
  ghost predicate Inv(vm: Vm, root: nat, paths: Paths) {
    Framed(vm) && Shape(vm.mem, root, paths) && forall t :: t in paths ==> HandedOut(vm, t)
  }

  /** The page a byte of memory lies in. */
  function FrameBase(a: nat): nat { a / 4096 * 4096 }

  /** Bytes outside the given tables are as before. */
  ghost predicate OnlyTablesChanged(m: Memory, m': Memory, paths: Paths) {
    |m'| == |m| && forall a: nat :: FrameBase(a) !in paths ==> ByteAt(m', a) == ByteAt(m, a)
  }

  ghost predicate SameTranslations(m: Memory, m': Memory, root: nat) {
    forall p :: |p| == 4 && ValidPath(p) ==> Walk(m', root, p) == Walk(m, root, p)
  }

  /** Later tables extend earlier ones, and the new ones are frames handed out in between. */
  ghost predicate Grown(vm: Vm, paths: Paths, vm': Vm, paths': Paths) {
    && vm'.frames == vm.frames && vm.next <= vm'.next
    && (forall t :: t in paths ==> t in paths' && paths'[t] == paths[t])
    && (forall t :: t in paths' && t !in paths ==> HandedOut(vm', t) && !HandedOut(vm, t))
  }

  /** What every step that may only add tables achieves. */
  ghost predicate QuietStep(vm: Vm, paths: Paths, vm': Vm, paths': Paths, root: nat) {
    && Inv(vm', root, paths') && Grown(vm, paths, vm', paths')
    && OnlyTablesChanged(vm.mem, vm'.mem, paths') && SameTranslations(vm.mem, vm'.mem, root)
  }

  lemma QuietStepTransitive(vm: Vm, p: Paths, vm1: Vm, p1: Paths, vm2: Vm, p2: Paths, root: nat)
    requires QuietStep(vm, p, vm1, p1, root) && QuietStep(vm1, p1, vm2, p2, root)
    ensures QuietStep(vm, p, vm2, p2, root)
  {
    forall t | t in p2 && t !in p ensures HandedOut(vm2, t) && !HandedOut(vm, t) {
    }
  }

  // ---- Creating tables ---------------------------------------------------------------------

  lemma CreateKeepsInv(vm: Vm, root: nat, paths: Paths, t: nat, i: nat) returns (paths': Paths)
    requires Inv(vm, root, paths) && t in paths && |paths[t]| < 3 && i < 512
    ensures QuietStep(vm, paths, CreateNextTable(vm, t, i).0, paths', root)
    ensures var r := CreateNextTable(vm, t, i).1;
            r.Some? ==> r.value in paths' && paths'[r.value] == paths[t] + [i]
  {
    if IsPresent(Entry(vm.mem, t, i)) {
      paths' := paths;
    } else if vm.next >= |vm.frames| {
      paths' := paths;
    } else {
      paths' := LinkStep(vm, root, paths, t, i);
    }
  }

  lemma FreshFrame(vm: Vm, root: nat, paths: Paths)
    requires Inv(vm, root, paths) && vm.next < |vm.frames|
    ensures vm.frames[vm.next] !in paths && !HandedOut(vm, vm.frames[vm.next])
  {
  }

  lemma LinkStep(vm: Vm, root: nat, paths: Paths, t: nat, i: nat) returns (paths': Paths)
    requires Inv(vm, root, paths) && t in paths && |paths[t]| < 3 && i < 512
    requires !IsPresent(Entry(vm.mem, t, i)) && vm.next < |vm.frames|
    ensures var (vm', r) := CreateNextTable(vm, t, i);
            && QuietStep(vm, paths, vm', paths', root)
            && r.Some? && r.value in paths' && paths'[r.value] == paths[t] + [i]
  {
    var f := vm.frames[vm.next];
    FreshFrame(vm, root, paths);
    var m' := Write64(ClearTable(vm.mem, f), t + 8 * i, EntryFor(f));
    LinkEntries(vm.mem, t, i, f);
    assert CanLink(vm.mem, m', root, paths, t, i, f);
    ShapeAfterLink(vm.mem, m', root, paths, t, i, f);
    paths' := paths[f := paths[t] + [i]];
    LinkKeepsTranslations(vm.mem, m', root, paths, t, i, f);
    LinkTouchesTables(vm.mem, t, i, f, paths');
    var vm' := CreateNextTable(vm, t, i).0;
    assert vm' == Vm(m', vm.frames, vm.next + 1);
    forall u | HandedOut(vm, u) ensures HandedOut(vm', u) {
    }
    assert HandedOut(vm', f) by { assert vm'.frames[vm.next] == f; }
  }

  lemma LinkKeepsTranslations(m: Memory, m': Memory, root: nat, paths: Paths, t: nat, i: nat, f: nat)
    requires CanLink(m, m', root, paths, t, i, f)
    ensures SameTranslations(m, m', root)
  {
    forall p | |p| == 4 && ValidPath(p) ensures Walk(m', root, p) == Walk(m, root, p) {
      WalkAfterLink(m, m', root, paths, t, i, f, root, p);
    }
  }

  lemma LinkTouchesTables(m: Memory, t: nat, i: nat, f: nat, paths: Paths)
    requires TablePlace(m, t) && TablePlace(m, f) && i < 512 && t in paths && f in paths
    ensures OnlyTablesChanged(m, Write64(ClearTable(m, f), t + 8 * i, EntryFor(f)), paths)
  {
    forall a: nat | FrameBase(a) !in paths
      ensures ByteAt(Write64(ClearTable(m, f), t + 8 * i, EntryFor(f)), a) == ByteAt(m, a)
    {
      OutsideFrame(a, t);
      OutsideFrame(a, f);
    }
  }

  lemma OutsideFrame(a: nat, f: nat)
    requires f % 4096 == 0 && FrameBase(a) != f
    ensures a < f || f + 4096 <= a
  {
  }

  lemma {:induction false} DescendKeepsInv(vm: Vm, root: nat, paths: Paths, t: nat, p: seq<nat>) returns (paths': Paths)
    requires Inv(vm, root, paths) && t in paths && ValidPath(p) && |paths[t]| + |p| <= 3
    ensures QuietStep(vm, paths, Descend(vm, t, p).0, paths', root)
    ensures var r := Descend(vm, t, p).1;
            r.Some? ==> r.value in paths' && paths'[r.value] == paths[t] + p
    decreases |p|
  {
    if p == [] {
      paths' := paths;
    } else {
      var paths1 := CreateKeepsInv(vm, root, paths, t, p[0]);
      var (vm1, c) := CreateNextTable(vm, t, p[0]);
      if c.None? {
        paths' := paths1;
      } else {
        paths' := DescendKeepsInv(vm1, root, paths1, c.value, p[1..]);
        QuietStepTransitive(vm, paths, vm1, paths1, Descend(vm, t, p).0, paths', root);
        ShiftHead(paths[t], p);
      }
    }
  }

  // ---- Mapping one page --------------------------------------------------------------------

  function Translate(m: Memory, root: nat, virt: nat): Option<nat> {
    Walk(m, root, Indices(virt))
  }

  /** The answer to an aligned mapping request, from what the page translates to at present. */
  function Answer(current: Option<nat>, phys: nat, mode: MappingMode): MapResult {
    if current.Some? && current.value != phys && mode.CheckFrameIsFree? then Failed(AlreadyMapped) else Mapped
  }

  /** Exactly the walk `target` changed, to `phys` as far as an entry can hold it. */
  ghost predicate OnePageMoved(m: Memory, m': Memory, root: nat, target: seq<nat>, phys: nat) {
    forall p :: |p| == 4 && ValidPath(p) ==>
      Walk(m', root, p) == if p == target then Some(phys % TWO_52) else Walk(m, root, p)
  }

  ghost predicate Moved(m: Memory, m': Memory, root: nat, target: seq<nat>, phys: nat, r: MapResult) {
    if r.Mapped? then OnePageMoved(m, m', root, target, phys) else SameTranslations(m, m', root)
  }

  ghost predicate LeafStep(vm: Vm, paths: Paths, vm': Vm, root: nat, target: seq<nat>, phys: nat, mode: MappingMode, r: MapResult) {
    && Inv(vm', root, paths) && vm'.frames == vm.frames && vm'.next == vm.next
    && OnlyTablesChanged(vm.mem, vm'.mem, paths)
    && r == Answer(Walk(vm.mem, root, target), phys, mode)
    && Moved(vm.mem, vm'.mem, root, target, phys, r)
  }

  lemma LeafWalk(m: Memory, root: nat, paths: Paths, t: nat, i: nat)
    requires Shape(m, root, paths) && t in paths
    ensures Walk(m, root, paths[t] + [i]) ==
            if IsPresent(Entry(m, t, i)) then Some(EntryAddr(Entry(m, t, i))) else None
  {
    WalkAppend(m, root, paths[t], [i]);
    assert Walk(m, EntryAddr(Entry(m, t, i)), [i][1..]) == Some(EntryAddr(Entry(m, t, i)));
  }

  lemma SetLeafKeepsInv(vm: Vm, root: nat, paths: Paths, t: nat, i: nat, phys: U64, mode: MappingMode)
    requires Inv(vm, root, paths) && t in paths && |paths[t]| == 3 && i < 512 && phys % 4096 == 0
    ensures LeafStep(vm, paths, SetLeaf(vm, t, i, phys, mode).0, root, paths[t] + [i], phys, mode, SetLeaf(vm, t, i, phys, mode).1)
  {
    var target := paths[t] + [i];
    LeafWalk(vm.mem, root, paths, t, i);
    var e := Entry(vm.mem, t, i);
    if IsPresent(e) && (EntryAddr(e) == phys || mode.CheckFrameIsFree?) {
      LeafLeftAlone(vm, root, paths, target, phys, mode, EntryAddr(e));
    } else {
      LeafWritten(vm, root, paths, t, i, phys);
    }
  }

  lemma LeafLeftAlone(vm: Vm, root: nat, paths: Paths, target: seq<nat>, phys: nat, mode: MappingMode, current: nat)
    requires Inv(vm, root, paths) && Walk(vm.mem, root, target) == Some(current) && current < TWO_52
    requires current == phys || mode.CheckFrameIsFree?
    ensures LeafStep(vm, paths, vm, root, target, phys, mode, Answer(Some(current), phys, mode))
  {
    if current == phys {
      FitsIn52Bits(phys);
      assert OnePageMoved(vm.mem, vm.mem, root, target, phys);
    } else {
      assert SameTranslations(vm.mem, vm.mem, root);
    }
    assert OnlyTablesChanged(vm.mem, vm.mem, paths);
  }

  lemma LeafWritten(vm: Vm, root: nat, paths: Paths, t: nat, i: nat, phys: U64)
    requires Inv(vm, root, paths) && t in paths && |paths[t]| == 3 && i < 512 && phys % 4096 == 0
    ensures var vm' := vm.(mem := Write64(vm.mem, t + 8 * i, EntryFor(phys)));
            && Inv(vm', root, paths)
            && OnlyTablesChanged(vm.mem, vm'.mem, paths)
            && OnePageMoved(vm.mem, vm'.mem, root, paths[t] + [i], phys)
  {
    var m' := Write64(vm.mem, t + 8 * i, EntryFor(phys));
    EntryRoundTrip(phys);
    WriteOverwrites(vm.mem, t, i, EntryFor(phys));
    ShapeAfterSet(vm.mem, m', root, paths, t, i, EntryFor(phys));
    forall p | |p| == 4 && ValidPath(p)
      ensures Walk(m', root, p) == if p == paths[t] + [i] then Some(phys % TWO_52) else Walk(vm.mem, root, p)
    {
      WalkAfterSet(vm.mem, m', root, paths, t, i, EntryFor(phys), root, p);
      assert [] + p == p;
    }
    forall a: nat | FrameBase(a) !in paths ensures ByteAt(m', a) == ByteAt(vm.mem, a) {
      OutsideFrame(a, t);
    }
    var vm' := vm.(mem := m');
    forall u | u in paths ensures HandedOut(vm', u) {
      assert HandedOut(vm, u);
    }
  }

  /** Everything one aligned request does: the tree is kept, at most this page moves, and it moves
      exactly on success; a failure or a panic leaves every translation as it was even if tables
      were created on the way.  A panic means the allocator is out of frames. */
  ghost predicate MapStep(vm: Vm, paths: Paths, vm': Vm, paths': Paths, root: nat, target: seq<nat>, phys: nat,
                          mode: MappingMode, r: MapResult) {
    && Inv(vm', root, paths') && Grown(vm, paths, vm', paths')
    && OnlyTablesChanged(vm.mem, vm'.mem, paths')
    && (r == Answer(Walk(vm.mem, root, target), phys, mode) || (r.Panicked? && vm'.next > |vm.frames|))
    && Moved(vm.mem, vm'.mem, root, target, phys, r)
  }

  lemma MapPathMeaning(vm: Vm, root: nat, paths: Paths, target: seq<nat>, phys: U64, mode: MappingMode)
    returns (paths': Paths)
    requires Inv(vm, root, paths) && |target| == 4 && ValidPath(target) && phys % 4096 == 0
    ensures MapStep(vm, paths, MapPath(vm, root, target, phys, mode).0, paths', root, target, phys, mode,
                    MapPath(vm, root, target, phys, mode).1)
  {
    hide Descend, SetLeaf, QuietStep, LeafStep;
    var p := target[..3];
    paths' := DescendKeepsInv(vm, root, paths, root, p);
    var (vm1, t) := Descend(vm, root, p);
    if t.None? {
      PanicMeansExhausted(vm, root, p);
    } else {
      assert paths'[t.value] == p by { assert [] + p == p; }
      assert p + [target[3]] == target;
      SetLeafKeepsInv(vm1, root, paths', t.value, target[3], phys, mode);
      var (vm2, r) := SetLeaf(vm1, t.value, target[3], phys, mode);
      QuietThenLeaf(vm, paths, vm1, paths', root, target, phys, mode, vm2, r);
    }
  }

  lemma {:induction false} PanicMeansExhausted(vm: Vm, t: nat, p: seq<nat>)
    requires Descend(vm, t, p).1.None?
    ensures Descend(vm, t, p).0.next > |vm.frames|
    decreases |p|
  {
    var (vm1, c) := CreateNextTable(vm, t, p[0]);
    if c.Some? {
      PanicMeansExhausted(vm1, c.value, p[1..]);
    }
  }

  lemma QuietThenLeaf(vm: Vm, paths: Paths, vm1: Vm, paths': Paths, root: nat, target: seq<nat>, phys: nat,
                      mode: MappingMode, vm2: Vm, r: MapResult)
    requires |target| == 4 && ValidPath(target)
    requires QuietStep(vm, paths, vm1, paths', root)
    requires LeafStep(vm1, paths', vm2, root, target, phys, mode, r)
    ensures MapStep(vm, paths, vm2, paths', root, target, phys, mode, r)
  {
    forall u | u in paths' && u !in paths ensures HandedOut(vm2, u) && !HandedOut(vm, u) {
      assert HandedOut(vm1, u);
    }
    assert Walk(vm.mem, root, target) == Walk(vm1.mem, root, target);
  }

  // ---- Requests by address ----------------------------------------------------------------

  /** The answer to any request. */
  function Outcome(current: Option<nat>, virt: U64, phys: U64, mode: MappingMode): MapResult {
    if virt % 4096 != 0 then Failed(VirtUnaligned)
    else if phys % 4096 != 0 then Failed(PhysUnaligned)
    else Answer(current, phys, mode)
  }

  lemma IndicesValid(virt: nat)
    ensures |Indices(virt)| == 4 && ValidPath(Indices(virt))
  {
  }

  lemma MapAddressMeaning(vm: Vm, root: nat, paths: Paths, virt: U64, phys: U64, mode: MappingMode)
    returns (paths': Paths)
    requires Inv(vm, root, paths)
    ensures var (vm', r) := MapAddress(vm, root, virt, phys, mode);
            && Inv(vm', root, paths') && Grown(vm, paths, vm', paths')
            && OnlyTablesChanged(vm.mem, vm'.mem, paths')
            && (r == Outcome(Translate(vm.mem, root, virt), virt, phys, mode) || (r.Panicked? && vm'.next > |vm.frames|))
            && Moved(vm.mem, vm'.mem, root, Indices(virt), phys, r)
            && (r.Mapped? ==> phys % 4096 == 0 && Translate(vm'.mem, root, virt) == Some(phys % TWO_52))
  {
    if virt % 4096 == 0 && phys % 4096 == 0 {
      IndicesValid(virt);
      paths' := MapPathMeaning(vm, root, paths, Indices(virt), phys, mode);
    } else {
      paths' := paths;
    }
  }

  /** A request is refused only if it is not aligned, frames run out, or it insists on a free page
      that is mapped. */
  lemma RefusedOnlyIf(vm: Vm, root: nat, paths: Paths, virt: U64, phys: U64, mode: MappingMode)
    requires Inv(vm, root, paths)
    ensures var (vm', r) := MapAddress(vm, root, virt, phys, mode);
            && vm.next <= vm'.next && vm'.frames == vm.frames
            && (r.Mapped? || vm'.next > |vm.frames| || virt % 4096 != 0 || phys % 4096 != 0
                || (mode.CheckFrameIsFree? && Translate(vm.mem, root, virt).Some?))
  {
    hide MapAddress, Inv, Indices, Walk, OnlyTablesChanged;
    var _ := MapAddressMeaning(vm, root, paths, virt, phys, mode);
  }

  /** After success the page translates to `phys` exactly if `phys` fits the 52 address bits. */
  lemma MappedToPhysIffItFits(vm: Vm, root: nat, paths: Paths, virt: U64, phys: U64, mode: MappingMode)
    requires Inv(vm, root, paths) && MapAddress(vm, root, virt, phys, mode).1.Mapped?
    ensures Translate(MapAddress(vm, root, virt, phys, mode).0.mem, root, virt) == Some(phys) <==> phys < TWO_52
  {
    var _ := MapAddressMeaning(vm, root, paths, virt, phys, mode);
    FitsIn52Bits(phys);
  }

  lemma FitsIn52Bits(phys: nat)
    ensures phys % TWO_52 == phys <==> phys < TWO_52
  {
  }
}
