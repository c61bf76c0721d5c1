/** The bump frame allocator (shared_lib/src/frame_allocator.rs) and the conversion of the
    firmware memory map it runs on (loader/src/main.rs). */
module FrameAllocation {
  import opened Collections

  const PAGE_SIZE: nat := 4096
  const MAX_MEMORY_MAP_SIZE: nat := 256

  datatype MemoryType = Free | Reserved | InUse | Acpi1_3 | AcpiReclaim | Acpi1_4

  datatype MemoryRegion = MemoryRegion(ty: MemoryType, addr: nat, pageCount: nat)

  // ---- Firmware memory map -------------------------------------------------------------

  datatype EfiType =
    | MmioPortSpace | Mmio | EfiReserved | Unusable
    | PersistentMemory | Conventional | LoaderData | LoaderCode | BootServicesCode | BootServicesData
    | AcpiNonVolatile | RuntimeServicesCode | RuntimeServicesData
    | EfiAcpiReclaim | PalCode | Unaccepted | Custom(code: nat)

  datatype Descriptor = Descriptor(ty: EfiType, physStart: nat, pageCount: nat)

  /** None stands for the panic on a type the loader does not know. */
  function ConvertMemoryType(t: EfiType): Option<MemoryType> {
    match t
    case MmioPortSpace | Mmio | EfiReserved | Unusable => Some(Reserved)
    case PersistentMemory | Conventional | LoaderData | LoaderCode | BootServicesCode | BootServicesData => Some(Free)
    case AcpiNonVolatile | RuntimeServicesCode | RuntimeServicesData => Some(Acpi1_3)
    case EfiAcpiReclaim => Some(AcpiReclaim)
    case PalCode => Some(Acpi1_4)
    case Unaccepted | Custom(_) => None
  }

  /** A region starting at address zero is withheld whatever its type. */
  function ConvertDescriptor(d: Descriptor): Option<MemoryRegion> {
    if d.physStart == 0 then Some(MemoryRegion(Reserved, 0, d.pageCount))
    else match ConvertMemoryType(d.ty)
         case None => None
         case Some(ty) => Some(MemoryRegion(ty, d.physStart, d.pageCount))
  }

  ghost predicate Converted(descs: seq<Descriptor>, regions: seq<MemoryRegion>) {
    |regions| == |descs| && forall i :: 0 <= i < |descs| ==> ConvertDescriptor(descs[i]) == Some(regions[i])
  }

  /** The types the loader may use for itself. */
  predicate FirmwareFree(t: EfiType) {
    t.PersistentMemory? || t.Conventional? || t.LoaderData? || t.LoaderCode? || t.BootServicesCode? || t.BootServicesData?
  }

  /** Types the loader does not know; they matter unless the descriptor is withheld anyway. */
  predicate Unexpected(d: Descriptor) { d.physStart != 0 && (d.ty.Unaccepted? || d.ty.Custom?) }

  /** Which class every type is given, read from the classes. */
  lemma TypesConverted(t: EfiType)
    ensures ConvertMemoryType(t) == Some(Free) <==> FirmwareFree(t)
    ensures ConvertMemoryType(t) == Some(Reserved) <==> t.MmioPortSpace? || t.Mmio? || t.EfiReserved? || t.Unusable?
    ensures ConvertMemoryType(t) == Some(Acpi1_3) <==> t.AcpiNonVolatile? || t.RuntimeServicesCode? || t.RuntimeServicesData?
    ensures ConvertMemoryType(t) == Some(AcpiReclaim) <==> t.EfiAcpiReclaim?
    ensures ConvertMemoryType(t) == Some(Acpi1_4) <==> t.PalCode?
    ensures ConvertMemoryType(t) != Some(InUse)
  {
  }

  /** None is a panic: more than 256 descriptors, or one of unknown type.  Otherwise the descriptors in
      order, with exactly those of the free types that do not start at zero free. */
  method InitAllocator(descs: seq<Descriptor>) returns (r: Option<FrameAllocator>)
    ensures r.Some? <==> |descs| <= 256 && forall d :: d in descs ==> !Unexpected(d)
    ensures r.Some? ==> Converted(descs, r.value.memoryMap) && r.value.next == 0 && r.value.mappingOffset == 0
    ensures r.Some? ==> forall i :: 0 <= i < |descs| ==>
              && r.value.memoryMap[i].addr == descs[i].physStart && r.value.memoryMap[i].pageCount == descs[i].pageCount
              && (r.value.memoryMap[i].ty.Free? <==> descs[i].physStart != 0 && FirmwareFree(descs[i].ty))
  {
    var table := new MemoryRegion[MAX_MEMORY_MAP_SIZE](_ => MemoryRegion(Reserved, 0, 0));
    var idx := 0;
    while idx < |descs|
      invariant 0 <= idx <= |descs| && idx <= MAX_MEMORY_MAP_SIZE
      invariant forall i :: 0 <= i < idx ==> ConvertDescriptor(descs[i]) == Some(table[i])
    {
      if idx >= MAX_MEMORY_MAP_SIZE {
        return None;
      }
      if descs[idx].physStart == 0 {
        table[idx] := MemoryRegion(Reserved, descs[idx].physStart, descs[idx].pageCount);
      } else {
        var ty := ConvertMemoryType(descs[idx].ty);
        if ty.None? {
          assert descs[idx] in descs;
          return None;
        }
        table[idx] := MemoryRegion(ty.value, descs[idx].physStart, descs[idx].pageCount);
      }
      idx := idx + 1;
    }
    var allocator := new FrameAllocator(table[..idx], 0, 0);
    r := Some(allocator);
  }

  // ---- Allocation ----------------------------------------------------------------------

  function RegionFrames(r: MemoryRegion): (s: seq<nat>)
    ensures |s| == r.pageCount
  {
    seq(r.pageCount, k requires 0 <= k => r.addr + PAGE_SIZE * k)
  }

  /** Frame addresses of the free regions, in map order. */
  function UsableFrames(memoryMap: seq<MemoryRegion>): seq<nat> {
    if memoryMap == [] then []
    else (if memoryMap[0].ty.Free? then RegionFrames(memoryMap[0]) else []) + UsableFrames(memoryMap[1..])
  }

  function Nth(frames: seq<nat>, n: nat): Option<nat> {
    if n < |frames| then Some(frames[n]) else None
  }

  class FrameAllocator {
    const memoryMap: seq<MemoryRegion>
    const mappingOffset: nat
    var next: nat

    constructor (memoryMap: seq<MemoryRegion>, mappingOffset: nat, nextFreeFrame: nat)
      ensures this.memoryMap == memoryMap && this.mappingOffset == mappingOffset && next == nextFreeFrame
    {
      this.memoryMap := memoryMap;
      this.mappingOffset := mappingOffset;
      next := nextFreeFrame;
    }

    /** The next frame of a free region that was not handed out before, or none if there is none left. */
    method AllocateFrame() returns (frame: Option<nat>)
      modifies this
      ensures frame == Nth(UsableFrames(memoryMap), old(next)) && next == old(next) + 1
      ensures frame.Some? ==> exists r :: r in memoryMap && r.ty.Free? && FrameOf(r, frame.value)
      ensures frame.Some? && WellFormedMap(memoryMap) ==> frame.value !in UsableFrames(memoryMap)[..old(next)]
      ensures frame.None? ==> forall f :: f in UsableFrames(memoryMap) ==> f in UsableFrames(memoryMap)[..Min(old(next), |UsableFrames(memoryMap)|)]
    {
      hide UsableFrames;
      frame := Nth(UsableFrames(memoryMap), next);
      next := next + 1;
      if frame.Some? {
        UsableFramesExact(memoryMap, frame.value);
        if WellFormedMap(memoryMap) {
          UsableFramesDistinct(memoryMap);
        }
      }
    }
  }

  // ---- What a run of allocations hands out ------------------------------------------------

  ghost predicate FrameOf(r: MemoryRegion, f: nat) {
    exists k: nat :: k < r.pageCount && f == r.addr + PAGE_SIZE * k
  }

  ghost predicate DisjointRegions(a: MemoryRegion, b: MemoryRegion) {
    a.addr + PAGE_SIZE * a.pageCount <= b.addr || b.addr + PAGE_SIZE * b.pageCount <= a.addr
  }

  /** Regions start on page boundaries and do not overlap. */
  ghost predicate WellFormedMap(m: seq<MemoryRegion>) {
    && (forall i :: 0 <= i < |m| ==> m[i].addr % PAGE_SIZE == 0)
    && (forall i, j :: 0 <= i < j < |m| ==> DisjointRegions(m[i], m[j]))
  }

  /** Exactly the frames of free regions are usable. */
  lemma {:induction false} UsableFramesExact(m: seq<MemoryRegion>, f: nat)
    ensures f in UsableFrames(m) <==> exists r :: r in m && r.ty.Free? && FrameOf(r, f)
  {
    if m != [] {
      UsableFramesExact(m[1..], f);
      RegionFramesExact(m[0], f);
      assert forall r :: r in m <==> r == m[0] || r in m[1..];
    }
  }

  lemma RegionFramesExact(r: MemoryRegion, f: nat)
    ensures f in RegionFrames(r) <==> FrameOf(r, f)
  {
    if FrameOf(r, f) {
      var k: nat :| k < r.pageCount && f == r.addr + PAGE_SIZE * k;
      assert RegionFrames(r)[k] == f;
    }
  }

  lemma DisjointFrames(a: MemoryRegion, b: MemoryRegion, f: nat)
    requires DisjointRegions(a, b) && FrameOf(a, f)
    ensures !FrameOf(b, f)
  {
  }

  /** No frame is listed twice, and every listed frame is page aligned. */
  lemma {:induction false} UsableFramesDistinct(m: seq<MemoryRegion>)
    requires WellFormedMap(m)
    ensures Distinct(UsableFrames(m))
    ensures forall f :: f in UsableFrames(m) ==> f % PAGE_SIZE == 0
  {
    if m != [] {
      var rest := m[1..];
      UsableFramesDistinct(rest);
      if m[0].ty.Free? {
        var head, tail := RegionFrames(m[0]), UsableFrames(rest);
        forall i, j | 0 <= i < |head| && 0 <= j < |tail| ensures head[i] != tail[j] {
          UsableFramesExact(rest, tail[j]);
          RegionFramesExact(m[0], head[i]);
          var r :| r in rest && r.ty.Free? && FrameOf(r, tail[j]);
          var k :| 0 <= k < |rest| && rest[k] == r;
          assert DisjointRegions(m[0], m[k + 1]);
          if head[i] == tail[j] {
            DisjointFrames(m[0], r, head[i]);
          }
        }
        DistinctAppend(head, tail);
      }
    }
  }

  lemma DistinctAppend(s: seq<nat>, t: seq<nat>)
    requires Distinct(s) && Distinct(t)
    requires forall i, j :: 0 <= i < |s| && 0 <= j < |t| ==> s[i] != t[j]
    ensures Distinct(s + t)
  {
  }

  /** The answers of `n` successive AllocateFrame calls on an allocator whose counter is `next`. */
  function Allocations(frames: seq<nat>, next: nat, n: nat): (answers: seq<Option<nat>>)
    ensures |answers| == n
    decreases n
  {
    if n == 0 then [] else [Nth(frames, next)] + Allocations(frames, next + 1, n - 1)
  }

  /** The frames actually obtained, in order. */
  function Obtained(answers: seq<Option<nat>>): seq<nat> {
    if answers == [] then []
    else (if answers[0].Some? then [answers[0].value] else []) + Obtained(answers[1..])
  }

  function Min(a: nat, b: nat): nat { if a < b then a else b }

  lemma {:induction false} AllocationsAreASlice(frames: seq<nat>, next: nat, n: nat)
    ensures Obtained(Allocations(frames, next, n)) == frames[Min(next, |frames|)..Min(next + n, |frames|)]
    decreases n
  {
    if n > 0 {
      var answers := Allocations(frames, next, n);
      assert answers[1..] == Allocations(frames, next + 1, n - 1);
      AllocationsAreASlice(frames, next + 1, n - 1);
    }
  }

  lemma {:induction false} AllocationAt(frames: seq<nat>, next: nat, n: nat, i: nat)
    requires i < n
    ensures Allocations(frames, next, n)[i] == Nth(frames, next + i)
    decreases n
  {
    if i > 0 {
      AllocationAt(frames, next + 1, n - 1, i - 1);
    }
  }

  /** The kernel's allocator, started from the counter the loader reached after `n` calls, goes on
      with exactly the frames the loader left: together they get each free frame at most once, never
      frame zero, never a frame outside a free region, and once out of frames both stay so. */
  lemma {:induction false} NoFrameHandedOutTwice(descs: seq<Descriptor>, m: seq<MemoryRegion>, n: nat, k: nat)
    requires Converted(descs, m) && WellFormedMap(m)
    ensures var frames := UsableFrames(m);
            var loader := Allocations(frames, 0, n);
            var kernel := Allocations(frames, n, k);
            var all := Obtained(loader) + Obtained(kernel);
            && all == frames[..Min(n + k, |frames|)]
            && Obtained(kernel) == frames[Min(n, |frames|)..Min(n + k, |frames|)]
            && Distinct(all)
            && 0 !in all
            && (forall f :: f in all ==> exists d :: d in descs && FreeDescriptor(d, f))
            && (forall i, j :: 0 <= i < j < n + k && (loader + kernel)[i].None? ==> (loader + kernel)[j].None?)
  {
    var frames := UsableFrames(m);
    HandOver(frames, n, k);
    UsableFramesDistinct(m);
    ExhaustedForGood(frames, n, k);
    var all := Obtained(Allocations(frames, 0, n)) + Obtained(Allocations(frames, n, k));
    forall f | f in all ensures f != 0 && exists d :: d in descs && FreeDescriptor(d, f) {
      assert f in frames[..Min(n + k, |frames|)];
      FreeFrameComesFromFirmware(descs, m, f);
    }
  }

  lemma HandOver(frames: seq<nat>, n: nat, k: nat)
    ensures Obtained(Allocations(frames, n, k)) == frames[Min(n, |frames|)..Min(n + k, |frames|)]
    ensures Obtained(Allocations(frames, 0, n)) + Obtained(Allocations(frames, n, k)) == frames[..Min(n + k, |frames|)]
  {
    AllocationsAreASlice(frames, 0, n);
    AllocationsAreASlice(frames, n, k);
  }

  lemma ExhaustedForGood(frames: seq<nat>, n: nat, k: nat)
    ensures var all := Allocations(frames, 0, n) + Allocations(frames, n, k);
            forall i, j :: 0 <= i < j < n + k && all[i].None? ==> all[j].None?
  {
    var all := Allocations(frames, 0, n) + Allocations(frames, n, k);
    forall i, j | 0 <= i < j < n + k && all[i].None? ensures all[j].None? {
      AnswerAt(frames, n, k, i);
      AnswerAt(frames, n, k, j);
    }
  }

  lemma AnswerAt(frames: seq<nat>, n: nat, k: nat, i: nat)
    requires i < n + k
    ensures (Allocations(frames, 0, n) + Allocations(frames, n, k))[i] == Nth(frames, i)
  {
    if i < n {
      AllocationAt(frames, 0, n, i);
    } else {
      AllocationAt(frames, n, k, i - n);
    }
  }

  /** A frame of a descriptor of one of the free types that does not start at zero. */
  ghost predicate FreeDescriptor(d: Descriptor, f: nat) {
    d.physStart != 0 && FirmwareFree(d.ty) && exists k: nat :: k < d.pageCount && f == d.physStart + 4096 * k
  }

  /** The usable frames are exactly those of the free descriptors. */
  lemma FreeFrameComesFromFirmware(descs: seq<Descriptor>, m: seq<MemoryRegion>, f: nat)
    requires Converted(descs, m)
    ensures f in UsableFrames(m) <==> exists d :: d in descs && FreeDescriptor(d, f)
    ensures f in UsableFrames(m) ==> f != 0
  {
    UsableFramesExact(m, f);
    if f in UsableFrames(m) {
      var r :| r in m && r.ty.Free? && FrameOf(r, f);
      var i :| 0 <= i < |m| && m[i] == r;
      assert ConvertDescriptor(descs[i]) == Some(r);
      assert FreeDescriptor(descs[i], f);
    }
    if d :| d in descs && FreeDescriptor(d, f) {
      var i :| 0 <= i < |descs| && descs[i] == d;
      assert ConvertDescriptor(descs[i]) == Some(m[i]);
      assert m[i] in m && FrameOf(m[i], f);
    }
  }

  /** Each region ends where the next begins or before. */
  ghost predicate SortedMap(m: seq<MemoryRegion>) {
    forall i, j :: 0 <= i < j < |m| ==> m[i].addr + 4096 * m[i].pageCount <= m[j].addr
  }

  ghost predicate AscendingFrames(frames: seq<nat>) {
    forall i, j :: 0 <= i < j < |frames| ==> frames[i] < frames[j]
  }

  /** In a map sorted by address the frames come in ascending order. */
  lemma {:induction false} FramesAscend(m: seq<MemoryRegion>)
    requires SortedMap(m)
    ensures AscendingFrames(UsableFrames(m))
  {
    if m != [] {
      FramesAscend(m[1..]);
      var head, tail := if m[0].ty.Free? then RegionFrames(m[0]) else [], UsableFrames(m[1..]);
      forall j | 0 <= j < |tail| ensures m[0].addr + 4096 * m[0].pageCount <= tail[j] {
        LaterFrame(m, tail[j]);
      }
      FirstFramesBelow(m[0]);
      AscendingAppend(head, tail, m[0].addr + 4096 * m[0].pageCount);
    }
  }

  lemma LaterFrame(m: seq<MemoryRegion>, f: nat)
    requires m != [] && SortedMap(m) && f in UsableFrames(m[1..])
    ensures m[0].addr + 4096 * m[0].pageCount <= f
  {
    hide UsableFrames;
    UsableFramesExact(m[1..], f);
    var r :| r in m[1..] && r.ty.Free? && FrameOf(r, f);
    var k :| 0 <= k < |m[1..]| && m[1..][k] == r;
    assert m[k + 1] == r;
  }

  lemma FirstFramesBelow(r: MemoryRegion)
    ensures AscendingFrames(RegionFrames(r)) && forall i :: 0 <= i < r.pageCount ==> RegionFrames(r)[i] < r.addr + 4096 * r.pageCount
  {
  }

  lemma AscendingAppend(s: seq<nat>, t: seq<nat>, bound: nat)
    requires AscendingFrames(s) && AscendingFrames(t)
    requires (forall i :: 0 <= i < |s| ==> s[i] < bound) && (forall j :: 0 <= j < |t| ==> bound <= t[j])
    ensures AscendingFrames(s + t)
  {
  }
}
