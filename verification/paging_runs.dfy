/** Whole runs of mapping requests: the tables stay a tree, and the run behaves as operations on
    a finite map from pages to frames. */
module PagingRuns {
  import opened Bits
  import opened VirtualAddress
  import opened PhysicalMemory
  import opened Collections
  import opened FrameAllocation
  import opened PageTables
  import opened Mapper

  // ---- The tables form a tree ---------------------------------------------------------------

  lemma {:induction false} WalkIsNamed(m: Memory, root: nat, paths: Paths, u: nat, s: seq<nat>)
    requires Shape(m, root, paths) && u in paths && ValidPath(s) && |paths[u]| + |s| <= 3 && Walk(m, u, s).Some?
    ensures Walk(m, u, s).value in paths && paths[Walk(m, u, s).value] == paths[u] + s
    decreases |s|
  {
    if s == [] {
      assert paths[u] + s == paths[u];
    } else {
      var c := EntryAddr(Entry(m, u, s[0]));
      WalkIsNamed(m, root, paths, c, s[1..]);
      ShiftHead(paths[u], s);
    }
  }

  /** A table reached over a walk of at most three steps. */
  ghost predicate TableAt(m: Memory, root: nat, p: seq<nat>, t: nat) {
    ValidPath(p) && |p| <= 3 && Walk(m, root, p) == Some(t)
  }

  /** No frame is a table twice: whichever walks lead to it are one walk, so it has one level. */
  lemma NoTableAliasing(vm: Vm, root: nat, paths: Paths, p: seq<nat>, q: seq<nat>, t: nat)
    requires Inv(vm, root, paths) && TableAt(vm.mem, root, p, t) && TableAt(vm.mem, root, q, t)
    ensures p == q
  {
    WalkIsNamed(vm.mem, root, paths, root, p);
    WalkIsNamed(vm.mem, root, paths, root, q);
    assert [] + p == p && [] + q == q;
  }

  /** Each table but the root hangs on exactly one present entry of the tables above the last
      level, and nothing points back to the root. */
  lemma OneReferencePerTable(vm: Vm, root: nat, paths: Paths, p: seq<nat>, u: nat, i: nat, q: seq<nat>, w: nat, j: nat)
    requires Inv(vm, root, paths)
    requires TableAt(vm.mem, root, p, u) && |p| < 3 && i < 512 && IsPresent(Entry(vm.mem, u, i))
    requires TableAt(vm.mem, root, q, w) && |q| < 3 && j < 512 && IsPresent(Entry(vm.mem, w, j))
    ensures EntryAddr(Entry(vm.mem, u, i)) != root
    ensures TableAt(vm.mem, root, p + [i], EntryAddr(Entry(vm.mem, u, i)))
    ensures EntryAddr(Entry(vm.mem, u, i)) == EntryAddr(Entry(vm.mem, w, j)) ==> u == w && i == j
  {
    WalkIsNamed(vm.mem, root, paths, root, p);
    WalkIsNamed(vm.mem, root, paths, root, q);
    assert [] + p == p && [] + q == q;
    LeafWalk(vm.mem, root, paths, u, i);
    if EntryAddr(Entry(vm.mem, u, i)) == EntryAddr(Entry(vm.mem, w, j)) {
      LastStep(p, i, q, j);
    }
  }

  lemma LastStep(p: seq<nat>, i: nat, q: seq<nat>, j: nat)
    requires p + [i] == q + [j]
    ensures p == q && i == j
  {
    assert |p| == |q|;
    assert p == (p + [i])[..|p|] && q == (q + [j])[..|q|];
    assert (p + [i])[|p|] == i && (q + [j])[|q|] == j;
  }

  // ---- Runs ----------------------------------------------------------------------------------

  datatype Request = Request(virt: U64, phys: U64, mode: MappingMode)

  /** The requests one after the other; a panic ends the run. */
  function Run(vm: Vm, root: nat, rs: seq<Request>): (Vm, seq<MapResult>)
    decreases |rs|
  {
    if rs == [] then (vm, [])
    else
      var (vm1, r) := MapAddress(vm, root, rs[0].virt, rs[0].phys, rs[0].mode);
      if r.Panicked? then (vm1, [r])
      else
        var (vm2, answers) := Run(vm1, root, rs[1..]);
        (vm2, [r] + answers)
  }

  /** Pages, by canonical address, and the frames they are mapped to. */
  type PageMap = map<U64, nat>

  function Lookup(pages: PageMap, v: U64): Option<nat> {
    if v in pages then Some(pages[v]) else None
  }

  /** The same requests on the finite map alone. */
  function RunPages(pages: PageMap, rs: seq<Request>): (PageMap, seq<MapResult>)
    decreases |rs|
  {
    if rs == [] then (pages, [])
    else
      var r := Outcome(Lookup(pages, rs[0].virt), rs[0].virt, rs[0].phys, rs[0].mode);
      var pages1 := if r.Mapped? then pages[rs[0].virt := rs[0].phys % TWO_52] else pages;
      var (pages2, answers) := RunPages(pages1, rs[1..]);
      (pages2, [r] + answers)
  }

  predicate IsPage(v: U64) { Canonical(v) && v % 4096 == 0 }

  /** Every canonical page translates as the map says. */
  ghost predicate Represents(m: Memory, root: nat, pages: PageMap) {
    forall v: U64 :: IsPage(v) ==> Translate(m, root, v) == Lookup(pages, v)
  }

  /** A freshly allocated root table represents the empty map. */
  lemma FreshRoot(vm: Vm)
    requires Framed(vm) && vm.next < |vm.frames|
    ensures var (vm', root) := AllocateTable(vm);
            root.Some? && Inv(vm', root.value, map[root.value := []]) && Represents(vm'.mem, root.value, map[])
  {
    var f := vm.frames[vm.next];
    var vm' := AllocateTable(vm).0;
    ClearedEntries(vm.mem, f);
    assert HandedOut(vm', f) by { assert vm'.frames[vm.next] == f; }
    forall v: U64 | IsPage(v) ensures Translate(vm'.mem, f, v) == None {
      IndicesValid(v);
      assert Entry(vm'.mem, f, Indices(v)[0]) == 0;
    }
  }

  lemma StepRepresents(m: Memory, m': Memory, root: nat, pages: PageMap, q: Request, r: MapResult)
    requires Represents(m, root, pages) && Canonical(q.virt) && (r.Mapped? ==> q.virt % 4096 == 0)
    requires Moved(m, m', root, Indices(q.virt), q.phys, r)
    ensures Represents(m', root, if r.Mapped? then pages[q.virt := q.phys % TWO_52] else pages)
  {
    var pages' := if r.Mapped? then pages[q.virt := q.phys % TWO_52] else pages;
    forall v: U64 | IsPage(v) ensures Translate(m', root, v) == Lookup(pages', v) {
      IndicesValid(v);
      if r.Mapped? {
        DistinctPagesDistinctPaths(v, q.virt);
      }
    }
  }

  /** Up to a panic the answers are those of the run on the finite map, one by one, and at the
      end every canonical page translates as that map says. */
  ghost predicate RunMatches(pages: PageMap, rs: seq<Request>, answers: seq<MapResult>, m: Memory, root: nat) {
    var n := Completed(answers);
    && n <= |rs| && (n == |rs| || n < |answers|)
    && answers[..n] == RunPages(pages, rs[..n]).1
    && Represents(m, root, RunPages(pages, rs[..n]).0)
  }

  /** Any run of map and remap requests refines the run on the finite map, and the tables are a
      tree at its end. */
  lemma {:induction false} RunRefinesPageMap(vm: Vm, root: nat, paths: Paths, pages: PageMap, rs: seq<Request>) returns (paths': Paths)
    requires Inv(vm, root, paths) && Represents(vm.mem, root, pages)
    requires forall k :: 0 <= k < |rs| ==> Canonical(rs[k].virt)
    ensures RunMatches(pages, rs, Run(vm, root, rs).1, Run(vm, root, rs).0.mem, root)
    ensures Inv(Run(vm, root, rs).0, root, paths')
    decreases |rs|
  {
    hide MapAddress, Inv, Represents, Canonical, RunMatches, Indices, Moved, Grown, OnlyTablesChanged, Translate;
    if rs == [] {
      paths' := paths;
      EmptyRunMatches(pages, vm.mem, root);
    } else {
      var q := rs[0];
      var paths1 := MapAddressMeaning(vm, root, paths, q.virt, q.phys, q.mode);
      var vm1, r := MapAddress(vm, root, q.virt, q.phys, q.mode).0, MapAddress(vm, root, q.virt, q.phys, q.mode).1;
      StepRepresents(vm.mem, vm1.mem, root, pages, q, r);
      SameAnswer(vm.mem, root, pages, q);
      if r.Panicked? {
        paths' := paths1;
        PanicMatches(pages, rs, vm1.mem, root);
      } else {
        var pages1 := if r.Mapped? then pages[q.virt := q.phys % TWO_52] else pages;
        paths' := RunRefinesPageMap(vm1, root, paths1, pages1, rs[1..]);
        ConsMatches(pages, rs, r, Run(vm1, root, rs[1..]).1, pages1, Run(vm1, root, rs[1..]).0.mem, root);
      }
    }
  }

  /** No table is reached over two walks. */
  ghost predicate OneWalkPerTable(m: Memory, root: nat) {
    forall p, q, t :: TableAt(m, root, p, t) && TableAt(m, root, q, t) ==> p == q
  }

  /** From an empty root table on: any run of map and remap requests refines the run on the empty
      finite map, and at its end no frame is a table twice. */
  lemma RunFromEmptyTable(vm: Vm, rs: seq<Request>)
    requires Framed(vm) && vm.next < |vm.frames| && forall k :: 0 <= k < |rs| ==> Canonical(rs[k].virt)
    ensures var (vm0, root) := AllocateTable(vm);
            && root.Some?
            && RunMatches(map[], rs, Run(vm0, root.value, rs).1, Run(vm0, root.value, rs).0.mem, root.value)
            && OneWalkPerTable(Run(vm0, root.value, rs).0.mem, root.value)
  {
    hide Framed, Canonical, Inv, Represents, RunMatches, TableAt, Run, AllocateTable;
    FreshRoot(vm);
    var vm0, root := AllocateTable(vm).0, AllocateTable(vm).1.value;
    var paths := RunRefinesPageMap(vm0, root, map[root := []], map[], rs);
    var vm1 := Run(vm0, root, rs).0;
    forall p, q, t | TableAt(vm1.mem, root, p, t) && TableAt(vm1.mem, root, q, t) ensures p == q {
      NoTableAliasing(vm1, root, paths, p, q, t);
    }
  }

  lemma SameAnswer(m: Memory, root: nat, pages: PageMap, q: Request)
    requires Represents(m, root, pages) && Canonical(q.virt)
    ensures Outcome(Translate(m, root, q.virt), q.virt, q.phys, q.mode) == Outcome(Lookup(pages, q.virt), q.virt, q.phys, q.mode)
  {
    hide Indices, Canonical;
  }

  lemma EmptyRunMatches(pages: PageMap, m: Memory, root: nat)
    requires Represents(m, root, pages)
    ensures RunMatches(pages, [], [], m, root)
  {
  }

  lemma PanicMatches(pages: PageMap, rs: seq<Request>, m: Memory, root: nat)
    requires Represents(m, root, pages)
    ensures RunMatches(pages, rs, [Panicked], m, root)
  {
    assert rs[..0] == [];
  }

  lemma ConsMatches(pages: PageMap, rs: seq<Request>, r: MapResult, rest: seq<MapResult>, pages1: PageMap, m: Memory, root: nat)
    requires rs != [] && r == Outcome(Lookup(pages, rs[0].virt), rs[0].virt, rs[0].phys, rs[0].mode)
    requires pages1 == if r.Mapped? then pages[rs[0].virt := rs[0].phys % TWO_52] else pages
    requires RunMatches(pages1, rs[1..], rest, m, root)
    ensures RunMatches(pages, rs, [r] + rest, m, root)
  {
    CompletedStep(r, rest, rs);
  }

  /** How many answers come before a panic. */
  function Completed(answers: seq<MapResult>): (n: nat)
    ensures n <= |answers|
    ensures forall k :: 0 <= k < n ==> !answers[k].Panicked?
    ensures n == |answers| || answers[n].Panicked?
  {
    if answers == [] || answers[0].Panicked? then 0 else 1 + Completed(answers[1..])
  }

  lemma CompletedStep(r: MapResult, rest: seq<MapResult>, rs: seq<Request>)
    requires !r.Panicked? && rs != [] && Completed(rest) < |rs|
    ensures Completed([r] + rest) == 1 + Completed(rest)
    ensures rs[..1 + Completed(rest)][1..] == rs[1..][..Completed(rest)]
    ensures ([r] + rest)[..1 + Completed(rest)] == [r] + rest[..Completed(rest)]
  {
    assert ([r] + rest)[1..] == rest;
  }
}
