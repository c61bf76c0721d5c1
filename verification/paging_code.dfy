/** The mapping and walking code as it runs: statements that read and write memory through
    pointers.  Physical memory is visible at a fixed distance `window` (zero in the loader,
    VIRT_MAPPING_OFFSET in the kernel), so a pointer `p` reaches the byte at `p - window`. */
module PagingCode {
  import opened Bits
  import opened VirtualAddress
  import opened PhysicalMemory
  import opened Collections
  import opened FrameAllocation
  import opened PageTables
  import opened Mapper

  const VIRT_MAPPING_OFFSET: nat := 0x180_0000_0000

  class Machine {
    var ram: Memory
    const window: nat

    constructor (ram: Memory, window: nat)
      ensures this.ram == ram && this.window == window
    {
      this.ram := ram;
      this.window := window;
    }

    /** Reads the 64-bit word behind a pointer. */
    function Load(ptr: nat): nat
      requires window <= ptr
      reads this
    {
      ReadLE(ram, ptr - window, 8)
    }

    method StoreWord(ptr: nat, v: nat)
      requires window <= ptr
      modifies this
      ensures ram == Write64(old(ram), ptr - window, v)
    {
      ram := Write64(ram, ptr - window, v);
    }

    /** PageTable::clear: one entry after the other. */
    method Clear(ptr: nat)
      requires window <= ptr && ptr - window + 4096 <= |ram|
      modifies this
      ensures ram == ClearTable(old(ram), ptr - window)
    {
      var f := ptr - window;
      var k := 0;
      while k < ENTRY_COUNT
        invariant 0 <= k <= 512 && |ram| == |old(ram)|
        invariant forall x: nat :: ByteAt(ram, x) == if f <= x < f + 8 * k then 0 else ByteAt(old(ram), x)
      {
        ghost var before := ram;
        StoreWord(ptr + 8 * k, 0);
        ZeroWord(before, f + 8 * k);
        k := k + 1;
      }
      SameMemory(ram, ClearTable(old(ram), f));
    }

    /** core::ptr::copy, byte by byte, from the end if the ranges may overlap that way. */
    method CopyBytes(from: nat, to: nat, n: nat)
      requires window <= from && window <= to && to - window + n <= |ram|
      modifies this
      ensures Copying(old(ram), ram, from - window, to - window, 0, n)
      ensures ram == Store(old(ram), to - window, Bytes(old(ram), from - window, n))
    {
      hide Copying, Store, Bytes;
      var f, t := from - window, to - window;
      NothingCopied(ram, f, t, if t <= f then 0 else n);
      if t <= f {
        var k := 0;
        while k < n
          invariant 0 <= k <= n && Copying(old(ram), ram, f, t, 0, k)
          invariant |ram| == |old(ram)|
        {
          CopyUp(old(ram), ram, f, t, k);
          ram := ram[t + k := ByteAt(ram, f + k)];
          k := k + 1;
        }
      } else {
        var k := n;
        while k > 0
          invariant 0 <= k <= n && Copying(old(ram), ram, f, t, k, n)
          invariant |ram| == |old(ram)|
        {
          k := k - 1;
          CopyDown(old(ram), ram, f, t, k, n);
          ram := ram[t + k := ByteAt(ram, f + k)];
        }
      }
      CopyIsStore(old(ram), ram, f, t, n);
    }

    /** core::ptr::write_bytes with the value zero. */
    method WriteZeros(to: nat, n: nat)
      requires window <= to && to - window + n <= |ram|
      modifies this
      ensures Zeroed(old(ram), ram, to - window, n)
      ensures ram == Store(old(ram), to - window, Zeros(n))
    {
      var t := to - window;
      var k := 0;
      while k < n
        invariant 0 <= k <= n && Zeroed(old(ram), ram, t, k)
      {
        ZeroOne(old(ram), ram, t, k);
        ram := ram[t + k := 0];
        k := k + 1;
      }
      SameMemory(ram, Store(old(ram), t, Zeros(n)));
    }
  }

  /** Bytes `lo` to `hi` of a copy from `f` to `t` are in place, all others as before. */
  ghost predicate Copying(m: Memory, m': Memory, f: nat, t: nat, lo: nat, hi: nat) {
    |m'| == |m| && forall x: nat :: ByteAt(m', x) == CopiedByte(m, f, t, lo, hi, x)
  }

  function CopiedByte(m: Memory, f: nat, t: nat, lo: nat, hi: nat, x: nat): Byte {
    if t + lo <= x < t + hi then ByteAt(m, f + (x - t)) else ByteAt(m, x)
  }

  /** The first `k` bytes from `t` are zero, all others as before. */
  ghost predicate Zeroed(m: Memory, m': Memory, t: nat, k: nat) {
    |m'| == |m| && forall x: nat :: ByteAt(m', x) == if t <= x < t + k then 0 else ByteAt(m, x)
  }

  lemma ZeroOne(m: Memory, m': Memory, t: nat, k: nat)
    requires Zeroed(m, m', t, k) && t + k < |m|
    ensures |m'| == |m| && Zeroed(m, m'[t + k := 0], t, k + 1)
  {
    var next: Memory := m'[t + k := 0];
    forall x: nat ensures ByteAt(next, x) == if t <= x < t + (k + 1) then 0 else ByteAt(m, x) {
      UpdatedByte(m', t + k, 0, x);
    }
    assert Zeroed(m, next, t, k + 1);
  }

  lemma NothingCopied(m: Memory, f: nat, t: nat, k: nat)
    ensures Copying(m, m, f, t, k, k)
  {
  }

  lemma UpdatedByte(m: Memory, a: nat, v: Byte, x: nat)
    requires a < |m|
    ensures ByteAt(m[a := v], x) == if x == a then v else ByteAt(m, x)
  {
  }

  lemma CopyUp(m: Memory, m': Memory, f: nat, t: nat, k: nat)
    requires Copying(m, m', f, t, 0, k) && t <= f && t + k < |m|
    ensures |m'| == |m| && Copying(m, m'[t + k := ByteAt(m', f + k)], f, t, 0, k + 1)
  {
    var next := m'[t + k := ByteAt(m', f + k)];
    assert ByteAt(m', f + k) == ByteAt(m, f + k);
    forall x: nat ensures ByteAt(next, x) == CopiedByte(m, f, t, 0, k + 1, x) {
      UpdatedByte(m', t + k, ByteAt(m', f + k), x);
    }
  }

  lemma CopyDown(m: Memory, m': Memory, f: nat, t: nat, k: nat, n: nat)
    requires Copying(m, m', f, t, k + 1, n) && f < t && k < n && t + k < |m|
    ensures |m'| == |m| && Copying(m, m'[t + k := ByteAt(m', f + k)], f, t, k, n)
  {
    var next := m'[t + k := ByteAt(m', f + k)];
    assert ByteAt(m', f + k) == ByteAt(m, f + k);
    forall x: nat ensures ByteAt(next, x) == CopiedByte(m, f, t, k, n, x) {
      UpdatedByte(m', t + k, ByteAt(m', f + k), x);
    }
  }

  lemma CopyIsStore(m: Memory, m': Memory, f: nat, t: nat, n: nat)
    requires Copying(m, m', f, t, 0, n) && t + n <= |m|
    ensures m' == Store(m, t, Bytes(m, f, n))
  {
    hide Store, Bytes;
    var stored := Store(m, t, Bytes(m, f, n));
    forall x: nat ensures ByteAt(m', x) == ByteAt(stored, x) {
      assert ByteAt(m', x) == CopiedByte(m, f, t, 0, n, x);
    }
    SameMemory(m', stored);
  }

  lemma ZeroWord(m: Memory, a: nat)
    requires a + 8 <= |m|
    ensures forall x: nat :: ByteAt(Write64(m, a, 0), x) == if a <= x < a + 8 then 0 else ByteAt(m, x)
  {
    ZeroBytes(8);
  }

  lemma {:induction false} ZeroBytes(n: nat)
    ensures ToLE(0, n) == Zeros(n)
  {
    if n > 0 {
      ZeroBytes(n - 1);
      assert Zeros(n) == [0] + Zeros(n - 1);
    }
  }

  lemma SameMemory(m: Memory, m': Memory)
    requires |m| == |m'| && forall x: nat :: ByteAt(m, x) == ByteAt(m', x)
    ensures m == m'
  {
    forall x | 0 <= x < |m| ensures m[x] == m'[x] {
      assert ByteAt(m, x) == ByteAt(m', x);
    }
  }

  /** Memory and allocator as one value. */
  ghost function VmOf(m: Machine, a: FrameAllocator): Vm
    reads m, a
  {
    Vm(m.ram, UsableFrames(a.memoryMap), a.next)
  }

  /** What the unsafe mapping functions ask of their caller: the pointers they compute reach the
      memory they mean, and every frame the allocator lists is a whole piece of it. */
  ghost predicate Reachable(m: Machine, a: FrameAllocator, offset: nat)
    reads m, a
  {
    && offset == m.window == a.mappingOffset && m.window + |m.ram| <= 0x8000_0000_0000
    && Framed(VmOf(m, a))
  }

  lemma LowPointer(p: U64)
    requires p < 0x8000_0000_0000
    ensures NewChecked(p) == Ok(p)
  {
    NewCheckedMeaning(p);
    NewSignExtends(p);
  }

  /** FrameAllocator::allocate_page_table; None is the panic when frames run out. */
  method AllocatePageTable(m: Machine, a: FrameAllocator) returns (table: Option<nat>)
    requires Reachable(m, a, m.window)
    modifies m, a
    ensures VmOf(m, a) == AllocateTable(old(VmOf(m, a))).0
    ensures var f := AllocateTable(old(VmOf(m, a))).1;
            table == if f.None? then None else Some(f.value + m.window)
    ensures table.Some? ==> Nth(UsableFrames(a.memoryMap), old(a.next)) == Some(table.value - m.window)
  {
    var frame := a.AllocateFrame();
    if frame.None? {
      return None;
    }
    assert TablePlace(m.ram, UsableFrames(a.memoryMap)[old(a.next)]);
    LowPointer(frame.value + a.mappingOffset);
    var page := NewChecked(frame.value + a.mappingOffset);
    if page.Err? {
      return None;
    }
    m.Clear(page.value);
    table := Some(page.value);
  }

  /** A frame address as the pointer the running code uses. */
  function AtOffset(f: Option<nat>, offset: nat): Option<nat> {
    match f case None => None case Some(v) => Some(v + offset)
  }

  /** create_next_table on the entry behind a pointer: entry `i` of the table at `t`. */
  method NextTable(m: Machine, a: FrameAllocator, entryPtr: nat, offset: nat, ghost t: nat, ghost i: nat)
    returns (table: Option<nat>)
    requires Reachable(m, a, offset) && entryPtr == t + 8 * i + offset
    modifies m, a
    ensures VmOf(m, a) == CreateNextTable(old(VmOf(m, a)), t, i).0
    ensures table == AtOffset(CreateNextTable(old(VmOf(m, a)), t, i).1, offset)
    ensures Reachable(m, a, offset) && |m.ram| == |old(m.ram)|
  {
    if IsPresent(m.Load(entryPtr)) {
      table := Some(EntryAddr(m.Load(entryPtr)) + offset);
    } else {
      table := AllocatePageTable(m, a);
      if table.Some? {
        m.StoreWord(entryPtr, EntryFor(table.value - offset));
      }
    }
  }

  /** map_address_impl; what a caller sees is MapAddress. */
  method MapAddressImpl(m: Machine, a: FrameAllocator, l4: nat, virt: U64, phys: U64, mode: MappingMode, offset: nat)
    returns (r: MapResult)
    requires Reachable(m, a, offset) && offset <= l4
    modifies m, a
    ensures VmOf(m, a) == MapAddress(old(VmOf(m, a)), l4 - offset, virt, phys, mode).0
    ensures r == MapAddress(old(VmOf(m, a)), l4 - offset, virt, phys, mode).1
    ensures Reachable(m, a, offset) && |m.ram| == |old(m.ram)|
  {
    hide Descend, SetLeaf, Reachable, VmOf, P4Index, P3Index, P2Index, P1Index;
    if virt % 4096 != 0 {
      return Failed(VirtUnaligned);
    }
    if phys % 4096 != 0 {
      return Failed(PhysUnaligned);
    }
    assert Indices(virt)[..3] == [P4Index(virt), P3Index(virt), P2Index(virt)];
    var l1 := CreateTables(m, a, l4, P4Index(virt), P3Index(virt), P2Index(virt), offset);
    if l1.None? {
      return Panicked;
    }
    r := FillEntry(m, a, l1.value, P1Index(virt), phys, mode, offset);
  }

  /** The middle of map_address_impl: the level 3, 2 and 1 tables. */
  method CreateTables(m: Machine, a: FrameAllocator, l4: nat, i4: nat, i3: nat, i2: nat, offset: nat) returns (l1: Option<nat>)
    requires Reachable(m, a, offset) && offset <= l4
    modifies m, a
    ensures VmOf(m, a) == Descend(old(VmOf(m, a)), l4 - offset, [i4, i3, i2]).0
    ensures l1 == AtOffset(Descend(old(VmOf(m, a)), l4 - offset, [i4, i3, i2]).1, offset)
    ensures Reachable(m, a, offset) && |m.ram| == |old(m.ram)|
  {
    hide CreateNextTable, Descend, Reachable, VmOf;
    DescendThree(VmOf(m, a), l4 - offset, i4, i3, i2);
    var l3 := NextTable(m, a, l4 + 8 * i4, offset, l4 - offset, i4);
    if l3.None? {
      return None;
    }
    var l2 := NextTable(m, a, l3.value + 8 * i3, offset, l3.value - offset, i3);
    if l2.None? {
      return None;
    }
    l1 := NextTable(m, a, l2.value + 8 * i2, offset, l2.value - offset, i2);
  }

  /** The end of map_address_impl, on the last-level table. */
  method FillEntry(m: Machine, a: FrameAllocator, l1: nat, i: nat, phys: U64, mode: MappingMode, offset: nat)
    returns (r: MapResult)
    requires Reachable(m, a, offset) && offset <= l1
    modifies m, a
    ensures VmOf(m, a) == SetLeaf(old(VmOf(m, a)), l1 - offset, i, phys, mode).0
    ensures r == SetLeaf(old(VmOf(m, a)), l1 - offset, i, phys, mode).1
    ensures Reachable(m, a, offset) && |m.ram| == |old(m.ram)|
  {
    var entryPtr := l1 + 8 * i;
    var e := m.Load(entryPtr);
    if IsPresent(e) {
      if EntryAddr(e) == phys {
        return Mapped;
      }
      match mode {
        case CheckFrameIsFree =>
          return Failed(AlreadyMapped);
        case Remapping =>
          m.StoreWord(entryPtr, EntryFor(phys));
          return Mapped;
      }
    } else {
      m.StoreWord(entryPtr, EntryFor(phys));
      return Mapped;
    }
  }

  /** Three creation steps written out. */
  lemma DescendThree(vm: Vm, t: nat, i: nat, j: nat, k: nat)
    ensures var (vm1, l3) := CreateNextTable(vm, t, i);
            Descend(vm, t, [i, j, k]) ==
            if l3.None? then (vm1, None)
            else
              var (vm2, l2) := CreateNextTable(vm1, l3.value, j);
              if l2.None? then (vm2, None)
              else CreateNextTable(vm2, l2.value, k)
  {
    var (vm1, l3) := CreateNextTable(vm, t, i);
    DescendCons(vm, t, i, [j, k]);
    assert [i] + [j, k] == [i, j, k];
    if l3.Some? {
      var (vm2, l2) := CreateNextTable(vm1, l3.value, j);
      DescendCons(vm1, l3.value, j, [k]);
      assert [j] + [k] == [j, k];
      if l2.Some? {
        DescendCons(vm2, l2.value, k, []);
        assert [k] + [] == [k];
      }
    }
  }

  lemma DescendCons(vm: Vm, t: nat, i: nat, s: seq<nat>)
    ensures var (vm1, c) := CreateNextTable(vm, t, i);
            Descend(vm, t, [i] + s) == if c.None? then (vm1, None) else Descend(vm1, c.value, s)
  {
    assert ([i] + s)[1..] == s;
  }

  method MapPage(m: Machine, a: FrameAllocator, l4: nat, virt: U64, phys: U64) returns (r: MapResult)
    requires Reachable(m, a, 0)
    modifies m, a
    ensures VmOf(m, a) == MapAddress(old(VmOf(m, a)), l4, virt, phys, CheckFrameIsFree).0
    ensures r == MapAddress(old(VmOf(m, a)), l4, virt, phys, CheckFrameIsFree).1
    ensures Reachable(m, a, 0) && |m.ram| == |old(m.ram)|
  {
    r := MapAddressImpl(m, a, l4, virt, phys, CheckFrameIsFree, 0);
  }

  method RemapPage(m: Machine, a: FrameAllocator, l4: nat, virt: U64, phys: U64) returns (r: MapResult)
    requires Reachable(m, a, 0)
    modifies m, a
    ensures VmOf(m, a) == MapAddress(old(VmOf(m, a)), l4, virt, phys, Remapping).0
    ensures r == MapAddress(old(VmOf(m, a)), l4, virt, phys, Remapping).1
    ensures Reachable(m, a, 0) && |m.ram| == |old(m.ram)|
  {
    r := MapAddressImpl(m, a, l4, virt, phys, Remapping, 0);
  }

  method MapPageWithOffset(m: Machine, a: FrameAllocator, l4: nat, virt: U64, phys: U64, offset: nat) returns (r: MapResult)
    requires Reachable(m, a, offset) && offset <= l4
    modifies m, a
    ensures VmOf(m, a) == MapAddress(old(VmOf(m, a)), l4 - offset, virt, phys, CheckFrameIsFree).0
    ensures r == MapAddress(old(VmOf(m, a)), l4 - offset, virt, phys, CheckFrameIsFree).1
    ensures Reachable(m, a, offset) && |m.ram| == |old(m.ram)|
  {
    r := MapAddressImpl(m, a, l4, virt, phys, CheckFrameIsFree, offset);
  }

  // ---- The two walkers -----------------------------------------------------------------------

  /** get_physical_address: four look-ups written out. */
  function GetPhysicalAddress(m: Memory, l4: nat, virt: U64): Option<nat> {
    var l4Entry := Entry(m, l4, P4Index(virt));
    if !IsPresent(l4Entry) then None
    else
      var l3Entry := Entry(m, EntryAddr(l4Entry), P3Index(virt));
      if !IsPresent(l3Entry) then None
      else
        var l2Entry := Entry(m, EntryAddr(l3Entry), P2Index(virt));
        if !IsPresent(l2Entry) then None
        else
          var l1Entry := Entry(m, EntryAddr(l2Entry), P1Index(virt));
          if !IsPresent(l1Entry) then None else Some(EntryAddr(l1Entry))
  }

  /** translate_addr_inner: the look-ups in a loop, and the page offset added at the end. */
  method TranslateAddrInner(m: Machine, cr3: nat, addr: U64) returns (r: Option<nat>)
    requires m.window == VIRT_MAPPING_OFFSET
    ensures r == match Translate(m.ram, And(cr3, FRAME_MASK), addr) {
                   case None => None
                   case Some(frame) => Some(frame + addr % 4096)
                 }
  {
    var indices := [P4Index(addr), P3Index(addr), P2Index(addr), P1Index(addr)];
    var frame: nat := And(cr3, FRAME_MASK);
    ghost var root := frame;
    var k := 0;
    while k < 4
      invariant 0 <= k <= 4
      invariant Walk(m.ram, root, Indices(addr)) == Walk(m.ram, frame, Indices(addr)[k..])
    {
      var entry := m.Load(frame + VIRT_MAPPING_OFFSET + 8 * indices[k]);
      assert Indices(addr)[k..][1..] == Indices(addr)[k + 1..];
      if IsPresent(entry) {
        frame := EntryAddr(entry);
      } else {
        return None;
      }
      k := k + 1;
    }
    PageOffsetMeaning(addr);
    r := Some(frame + PageOffset(addr));
  }

  lemma WalkFour(m: Memory, t: nat, i: nat, j: nat, k: nat, l: nat)
    ensures Walk(m, t, [i, j, k, l]) ==
            var e4 := Entry(m, t, i);
            if !IsPresent(e4) then None
            else
              var e3 := Entry(m, EntryAddr(e4), j);
              if !IsPresent(e3) then None
              else
                var e2 := Entry(m, EntryAddr(e3), k);
                if !IsPresent(e2) then None
                else
                  var e1 := Entry(m, EntryAddr(e2), l);
                  if !IsPresent(e1) then None else Some(EntryAddr(e1))
  {
    assert [i] + [j, k, l] == [i, j, k, l];
    WalkCons(m, t, i, [j, k, l]);
    var t3 := EntryAddr(Entry(m, t, i));
    assert [j] + [k, l] == [j, k, l];
    WalkCons(m, t3, j, [k, l]);
    var t2 := EntryAddr(Entry(m, t3, j));
    assert [k] + [l] == [k, l];
    WalkCons(m, t2, k, [l]);
    assert [l] + [] == [l];
    WalkCons(m, EntryAddr(Entry(m, t2, k)), l, []);
  }

  lemma WalkCons(m: Memory, t: nat, i: nat, s: seq<nat>)
    ensures Walk(m, t, [i] + s) ==
            if IsPresent(Entry(m, t, i)) then Walk(m, EntryAddr(Entry(m, t, i)), s) else None
  {
    assert ([i] + s)[1..] == s;
  }

  /** On every memory, tables or not, the unrolled walker computes the walk of the indices; so it
      and TranslateAddrInner agree up to the page offset. */
  lemma WalkersAgree(m: Memory, l4: nat, virt: U64)
    ensures GetPhysicalAddress(m, l4, virt) == Translate(m, l4, virt)
  {
    WalkFour(m, l4, P4Index(virt), P3Index(virt), P2Index(virt), P1Index(virt));
  }
}
