/** What map_kernel leaves behind for each segment, byte by byte, and when that is what the ELF
    file asks for. */
module KernelPromise {
  import opened Bits
  import opened VirtualAddress
  import opened PhysicalMemory
  import opened Collections
  import opened FrameAllocation
  import opened PageTables
  import opened Mapper
  import opened KernelImage
  import opened KernelSteps

  function Base(s: Segment): U64 { New(s.vaddr) }

  /** The address of byte `i` of a segment in the file image, and where the file bytes end. */
  function FileAddress(c: Ctx, s: Segment, i: nat): nat { c.kernel + s.offset + i }
  function End(c: Ctx, s: Segment): nat { FileAddress(c, s, s.fileSize) }

  /** Zero bytes follow the file bytes inside a page. */
  predicate HasBoundary(s: Segment) { s.ty.Load? && s.memSize > s.fileSize && (s.offset + s.fileSize) % 4096 != 0 }

  /** Byte `i` is one of those. */
  predicate AtBoundary(s: Segment, i: nat) {
    HasBoundary(s) && s.fileSize <= i && (s.offset + i) / 4096 == (s.offset + s.fileSize) / 4096
  }

  /** The segment lies in the image, and address and offset are congruent modulo the page size. */
  predicate SegmentFits(c: Ctx, s: Segment) {
    s.ty.Load? ==> s.offset % 4096 == s.vaddr % 4096 && s.offset < c.size && s.offset + s.fileSize <= c.size
  }

  ghost predicate Ascending(segs: seq<Segment>) {
    forall i, j :: 0 <= i < j < |segs| && segs[i].ty.Load? && segs[j].ty.Load? ==>
      segs[i].offset + segs[i].fileSize <= segs[j].offset
  }

  /** The file fits, and its segments come in ascending file order. */
  ghost predicate GoodFile(c: Ctx, segs: seq<Segment>) {
    Ascending(segs) && forall q :: 0 <= q < |segs| ==> SegmentFits(c, segs[q])
  }

  // ---- What is recorded about each byte ------------------------------------------------------

  /** The page `p` shows the byte at file address `b`. */
  ghost predicate Backed(c: Ctx, k: K, p: seq<nat>, b: nat) {
    exists n :: 0 <= n < |k.mapped| && k.mapped[n].frame == FrameBase(b) && Indices(k.mapped[n].page) == p &&
                (Walk(k.vm.mem, c.root, p) == Some(FrameBase(b)) || (FrameBase(b) in k.cut && b < k.cut[FrameBase(b)]))
  }

  /** The page `p` shows a cut copy of the file page `frame`. */
  ghost predicate Copied(c: Ctx, k: K, p: seq<nat>, frame: nat) {
    exists n :: 0 <= n < |k.mapped| && k.mapped[n].frame == frame && Indices(k.mapped[n].page) == p &&
                frame in k.cut && Walk(k.vm.mem, c.root, p) != Some(frame)
  }

  ghost predicate FileByte(c: Ctx, k: K, s: Segment, i: nat) {
    Backed(c, k, Indices(Base(s) + i), FileAddress(c, s, i))
  }

  ghost predicate FileKept(c: Ctx, k: K, s: Segment) {
    forall i: nat :: i < s.fileSize ==> FileByte(c, k, s, i)
  }

  ghost predicate ZeroByte(k: K, s: Segment, i: nat) { Indices(Base(s) + i) in k.zero }

  ghost predicate BssKept(c: Ctx, k: K, s: Segment) {
    && (HasBoundary(s) ==> Copied(c, k, Indices(Base(s) + s.fileSize), FrameBase(End(c, s))))
    && (forall i: nat :: s.fileSize <= i < s.memSize && !AtBoundary(s, i) ==> ZeroByte(k, s, i))
  }

  ghost predicate Promised(c: Ctx, k: K, s: Segment) {
    s.ty.Load? ==> FileKept(c, k, s) && BssKept(c, k, s)
  }

  /** The cuts are the ends of the segments seen so far, the latest of each page. */
  ghost predicate CutsFrom(c: Ctx, cut: map<nat, nat>, segs: seq<Segment>, n: nat) {
    && n <= |segs|
    && (forall j :: 0 <= j < n && HasBoundary(segs[j]) ==> CutCovers(cut, End(c, segs[j])))
    && (forall f :: f in cut ==> exists j :: 0 <= j < n && HasBoundary(segs[j]) && FrameBase(End(c, segs[j])) == f && End(c, segs[j]) == cut[f])
  }

  ghost predicate CutCovers(cut: map<nat, nat>, end: nat) {
    FrameBase(end) in cut && end <= cut[FrameBase(end)]
  }

  // ---- Steps keep it -------------------------------------------------------------------------

  lemma BackedKept(c: Ctx, k: K, k': K, p: seq<nat>, b: nat)
    requires Keeps(c, k, k') && Backed(c, k, p, b)
    ensures Backed(c, k', p, b)
  {
    var f := FrameBase(b);
    var n :| 0 <= n < |k.mapped| && k.mapped[n].frame == f && Indices(k.mapped[n].page) == p &&
             (Walk(k.vm.mem, c.root, p) == Some(f) || (f in k.cut && b < k.cut[f]));
    assert k'.mapped[n] == k.mapped[n];
  }

  lemma CopiedKept(c: Ctx, k: K, k': K, p: seq<nat>, frame: nat)
    requires Keeps(c, k, k') && Copied(c, k, p, frame)
    ensures Copied(c, k', p, frame)
  {
    var n :| 0 <= n < |k.mapped| && k.mapped[n].frame == frame && Indices(k.mapped[n].page) == p &&
             frame in k.cut && Walk(k.vm.mem, c.root, p) != Some(frame);
    assert k'.mapped[n] == k.mapped[n];
  }

  lemma PromiseKept(c: Ctx, k: K, k': K, s: Segment)
    requires Keeps(c, k, k')
    ensures FileKept(c, k, s) ==> FileKept(c, k', s)
    ensures BssKept(c, k, s) ==> BssKept(c, k', s)
  {
    hide Indices, New, FrameBase, Backed, Copied, AtBoundary, HasBoundary;
    if FileKept(c, k, s) {
      forall i: nat | i < s.fileSize ensures FileByte(c, k', s, i) {
        assert FileByte(c, k, s, i);
        BackedKept(c, k, k', Indices(Base(s) + i), FileAddress(c, s, i));
      }
    }
    if BssKept(c, k, s) {
      if HasBoundary(s) {
        CopiedKept(c, k, k', Indices(Base(s) + s.fileSize), FrameBase(End(c, s)));
      }
      forall i: nat | s.fileSize <= i < s.memSize && !AtBoundary(s, i) ensures ZeroByte(k', s, i) {
        assert ZeroByte(k, s, i);
      }
    }
  }

  lemma BackedAfterCut(c: Ctx, k: K, k': K, end: nat, p: seq<nat>, b: nat)
    requires CutStep(c, k, k', FrameBase(end), end) && Backed(c, k, p, b) && b < end
    ensures Backed(c, k', p, b)
  {
    var f := FrameBase(b);
    var n :| 0 <= n < |k.mapped| && k.mapped[n].frame == f && Indices(k.mapped[n].page) == p &&
             (Walk(k.vm.mem, c.root, p) == Some(f) || (f in k.cut && b < k.cut[f]));
    assert k'.mapped[n] == k.mapped[n];
  }

  lemma CopiedAfterCut(c: Ctx, k: K, k': K, frame: nat, end: nat, p: seq<nat>, f: nat)
    requires CutStep(c, k, k', frame, end) && Copied(c, k, p, f)
    ensures Copied(c, k', p, f)
  {
    var n :| 0 <= n < |k.mapped| && k.mapped[n].frame == f && Indices(k.mapped[n].page) == p &&
             f in k.cut && Walk(k.vm.mem, c.root, p) != Some(f);
    assert k'.mapped[n] == k.mapped[n];
  }

  /** A cut spares the file bytes of every segment that ends no later. */
  lemma FileKeptAfterCut(c: Ctx, k: K, k': K, s: Segment, end: nat)
    requires CutStep(c, k, k', FrameBase(end), end) && FileKept(c, k, s) && End(c, s) <= end
    ensures FileKept(c, k', s)
  {
    forall i: nat | i < s.fileSize ensures FileByte(c, k', s, i) {
      assert FileByte(c, k, s, i);
      BackedAfterCut(c, k, k', end, Indices(Base(s) + i), FileAddress(c, s, i));
    }
  }

  lemma BssKeptAfterCut(c: Ctx, k: K, k': K, s: Segment, frame: nat, end: nat)
    requires CutStep(c, k, k', frame, end) && BssKept(c, k, s)
    ensures BssKept(c, k', s)
  {
    if HasBoundary(s) {
      CopiedAfterCut(c, k, k', frame, end, Indices(Base(s) + s.fileSize), FrameBase(End(c, s)));
    }
    forall i: nat | s.fileSize <= i < s.memSize && !AtBoundary(s, i) ensures ZeroByte(k', s, i) {
      assert ZeroByte(k, s, i);
    }
  }

  lemma CutsAfterCut(c: Ctx, cut: map<nat, nat>, segs: seq<Segment>, n: nat)
    requires CutsFrom(c, cut, segs, n) && n < |segs| && HasBoundary(segs[n]) && Ascending(segs)
    ensures CutsFrom(c, cut[FrameBase(End(c, segs[n])) := End(c, segs[n])], segs, n + 1)
  {
    hide FrameBase;
    var e := End(c, segs[n]);
    var f := FrameBase(e);
    var cut' := cut[f := e];
    forall j | 0 <= j < n + 1 && HasBoundary(segs[j]) ensures CutCovers(cut', End(c, segs[j])) {
      if j < n {
        assert CutCovers(cut, End(c, segs[j]));
        assert End(c, segs[j]) <= e;
      }
    }
    forall g | g in cut'
      ensures exists j :: 0 <= j < n + 1 && HasBoundary(segs[j]) && FrameBase(End(c, segs[j])) == g && End(c, segs[j]) == cut'[g]
    {
      if g == f {
        assert HasBoundary(segs[n]);
      } else {
        var j :| 0 <= j < n && HasBoundary(segs[j]) && FrameBase(End(c, segs[j])) == g && End(c, segs[j]) == cut[g];
      }
    }
  }

  // ---- The bytes a running kernel reads --------------------------------------------------------

  /** The byte at a virtual address, through the tables. */
  function ReadVirtual(m: Memory, root: nat, a: nat): Option<Byte> {
    match Walk(m, root, Indices(a))
    case None => None
    case Some(f) => Some(ByteAt(m, f + a % 4096))
  }

  /** The zero byte `i` of segment `q` lies before the end of a later segment that also has zero
      bytes inside the same file page: that segment's copy of the page replaced this one's. */
  ghost predicate Overlaid(segs: seq<Segment>, q: nat, i: nat)
    requires q < |segs|
  {
    AtBoundary(segs[q], i) && exists j :: q < j < |segs| && OverlaidBy(segs[q], segs[j], i)
  }

  predicate OverlaidBy(s: Segment, t: Segment, i: nat) {
    HasBoundary(t) && SameEndPage(s, t) && s.offset + i < t.offset + t.fileSize
  }

  predicate SameEndPage(s: Segment, t: Segment) {
    (s.offset + s.fileSize) / 4096 == (t.offset + t.fileSize) / 4096
  }

  /** What the loader leaves at byte `i` of segment `q`. */
  ghost function LoadedByte(c: Ctx, segs: seq<Segment>, q: nat, i: nat): Byte
    requires q < |segs|
  {
    if i < segs[q].fileSize || Overlaid(segs, q, i) then ByteAt(c.image, FileAddress(c, segs[q], i)) else 0
  }

  lemma VirtualByte(s: Segment, i: nat)
    ensures Indices(s.vaddr + i) == Indices(Base(s) + i)
    ensures (Base(s) + i) % 4096 == (s.vaddr + i) % 4096
    ensures s.offset % 4096 == s.vaddr % 4096 ==> (s.vaddr + i) % 4096 == (s.offset + i) % 4096
  {
    NewSignExtends(s.vaddr);
    CongruentAddresses(s.vaddr, Base(s), i);
    OffsetCongruent(s.vaddr, s.offset, i);
  }

  lemma OffsetCongruent(a: nat, b: nat, i: nat)
    ensures b % 4096 == a % 4096 ==> (a + i) % 4096 == (b + i) % 4096
  {
  }

  lemma CongruentAddresses(a: nat, b: nat, i: nat)
    requires a % TWO_48 == b % TWO_48
    ensures Indices(a + i) == Indices(b + i) && (a + i) % 4096 == (b + i) % 4096
  {
    SumsCongruent(a, b, i);
    SamePage(a + i, b + i);
  }

  lemma SumsCongruent(a: nat, b: nat, i: nat)
    requires a % TWO_48 == b % TWO_48
    ensures (a + i) % TWO_48 == (b + i) % TWO_48 && (a + i) % 4096 == (b + i) % 4096
  {
    LowPageOffset(a + i);
    LowPageOffset(b + i);
  }

  /** The page offset of a byte is that of its file address. */
  lemma SamePageOffset(c: Ctx, s: Segment, i: nat)
    requires c.kernel % 4096 == 0 && s.offset % 4096 == s.vaddr % 4096
    ensures FrameBase(FileAddress(c, s, i)) + (s.vaddr + i) % 4096 == FileAddress(c, s, i)
  {
    OffsetCongruent(s.vaddr, s.offset, i);
    PageSplit(c.kernel, s.offset + i);
  }

  lemma PageSplit(kernel: nat, a: nat)
    requires kernel % 4096 == 0
    ensures FrameBase(kernel + a) == kernel + FrameBase(a)
    ensures a == FrameBase(a) + a % 4096 && (kernel + a) % 4096 == a % 4096
  {
  }

  /** The part of the loader's state that determines what its pages show. */
  ghost predicate Shown(c: Ctx, k: K) {
    && c.kernel % 4096 == 0 && c.size % 4096 == 0 && Intact(c, k.vm.mem)
    && (forall n :: 0 <= n < |k.mapped| ==> EntryOk(c, k, k.mapped[n]))
    && (forall p :: p in k.zero ==> ZeroOk(c, k, p))
  }

  /** A recorded page shows its file page; if it shows a copy, up to the cut. */
  lemma ReadEntry(c: Ctx, k: K, e: MappedEntry, x: nat)
    requires EntryOk(c, k, e) && Intact(c, k.vm.mem) && c.kernel % 4096 == 0 && c.size % 4096 == 0 && x < 4096
    ensures var g := Walk(k.vm.mem, c.root, Indices(e.page)).value;
            ByteAt(k.vm.mem, g + x) ==
            if g == e.frame || e.frame + x < k.cut[e.frame] then ByteAt(c.image, e.frame + x) else 0
  {
    WholePageInImage(c, e.frame, x);
  }

  lemma WholePageInImage(c: Ctx, frame: nat, x: nat)
    requires c.kernel % 4096 == 0 && c.size % 4096 == 0 && frame % 4096 == 0 && InImage(c, frame) && x < 4096
    ensures InImage(c, frame + x)
  {
  }

  lemma ReadBacked(c: Ctx, k: K, a: nat, p: seq<nat>, b: nat)
    requires Shown(c, k) && Backed(c, k, p, b) && Indices(a) == p && FrameBase(b) + a % 4096 == b
    ensures ReadVirtual(k.vm.mem, c.root, a) == Some(ByteAt(c.image, b))
  {
    hide Indices, Intact, ZeroOk, FrameBase, CutContent, OwnFrame;
    var f := FrameBase(b);
    var n :| 0 <= n < |k.mapped| && k.mapped[n].frame == f && Indices(k.mapped[n].page) == p &&
             (Walk(k.vm.mem, c.root, p) == Some(f) || (f in k.cut && b < k.cut[f]));
    ReadEntry(c, k, k.mapped[n], a % 4096);
  }

  lemma ReadCopied(c: Ctx, k: K, a: nat, p: seq<nat>, b: nat)
    requires Shown(c, k) && Copied(c, k, p, FrameBase(b)) && Indices(a) == p && FrameBase(b) + a % 4096 == b
    ensures FrameBase(b) in k.cut
    ensures ReadVirtual(k.vm.mem, c.root, a) == Some(if b < k.cut[FrameBase(b)] then ByteAt(c.image, b) else 0)
  {
    hide Indices, Intact, ZeroOk, FrameBase, CutContent, OwnFrame;
    var f := FrameBase(b);
    var n :| 0 <= n < |k.mapped| && k.mapped[n].frame == f && Indices(k.mapped[n].page) == p &&
             f in k.cut && Walk(k.vm.mem, c.root, p) != Some(f);
    ReadEntry(c, k, k.mapped[n], a % 4096);
  }

  lemma ReadZero(c: Ctx, k: K, a: nat, p: seq<nat>)
    requires Shown(c, k) && p in k.zero && Indices(a) == p
    ensures ReadVirtual(k.vm.mem, c.root, a) == Some(0)
  {
    assert ZeroOk(c, k, p);
  }

  /** The zero bytes of the boundary page lie in the page where the file bytes end. */
  lemma BoundaryPage(c: Ctx, s: Segment, i: nat)
    requires c.kernel % 4096 == 0 && s.offset % 4096 == s.vaddr % 4096 && AtBoundary(s, i)
    ensures Indices(Base(s) + i) == Indices(Base(s) + s.fileSize)
    ensures FrameBase(FileAddress(c, s, i)) == FrameBase(End(c, s))
  {
    hide Indices, New, FrameBase;
    SameFilePage(c.kernel, s.offset + i, s.offset + s.fileSize);
    VirtualByte(s, s.fileSize);
    SamePageNearby(Base(s), s.offset, s.fileSize, i);
  }

  lemma SameFilePage(kernel: nat, a: nat, b: nat)
    requires kernel % 4096 == 0 && a / 4096 == b / 4096
    ensures FrameBase(kernel + a) == FrameBase(kernel + b)
  {
    PageSplit(kernel, a);
    PageSplit(kernel, b);
  }

  lemma SamePageNearby(a: nat, o: nat, i: nat, j: nat)
    requires (a + i) % 4096 == (o + i) % 4096 && i <= j && (o + j) / 4096 == (o + i) / 4096
    ensures Indices(a + j) == Indices(a + i)
  {
    var x := (a + i) % 4096;
    var page := a + i - x;
    NoCarry(o + i, j - i);
    IndicesWithinPage(page, x);
    IndicesWithinPage(page, x + (j - i));
  }

  lemma NoCarry(o: nat, k: nat)
    requires (o + k) / 4096 == o / 4096
    ensures o % 4096 + k < 4096
  {
  }

  lemma EndPages(c: Ctx, s: Segment, t: Segment)
    requires c.kernel % 4096 == 0
    ensures FrameBase(End(c, s)) == FrameBase(End(c, t)) <==> SameEndPage(s, t)
  {
    PageSplit(c.kernel, s.offset + s.fileSize);
    PageSplit(c.kernel, t.offset + t.fileSize);
  }

  /** The final cut of the boundary page covers byte `i` exactly if a later segment overlays it. */
  lemma CutMeansOverlaid(c: Ctx, cut: map<nat, nat>, segs: seq<Segment>, q: nat, i: nat)
    requires c.kernel % 4096 == 0 && Ascending(segs) && CutsFrom(c, cut, segs, |segs|)
    requires q < |segs| && AtBoundary(segs[q], i)
    ensures FrameBase(End(c, segs[q])) in cut
    ensures FileAddress(c, segs[q], i) < cut[FrameBase(End(c, segs[q]))] <==> Overlaid(segs, q, i)
  {
    assert CutCovers(cut, End(c, segs[q]));
    if Overlaid(segs, q, i) {
      OverlayIsCut(c, cut, segs, q, i);
    } else if FileAddress(c, segs[q], i) < cut[FrameBase(End(c, segs[q]))] {
      CutOverlays(c, cut, segs, q, i);
    }
  }

  lemma OverlayIsCut(c: Ctx, cut: map<nat, nat>, segs: seq<Segment>, q: nat, i: nat)
    requires c.kernel % 4096 == 0 && CutsFrom(c, cut, segs, |segs|)
    requires q < |segs| && Overlaid(segs, q, i) && CutCovers(cut, End(c, segs[q]))
    ensures FileAddress(c, segs[q], i) < cut[FrameBase(End(c, segs[q]))]
  {
    var j :| q < j < |segs| && OverlaidBy(segs[q], segs[j], i);
    EndPages(c, segs[q], segs[j]);
    assert CutCovers(cut, End(c, segs[j]));
  }

  lemma CutOverlays(c: Ctx, cut: map<nat, nat>, segs: seq<Segment>, q: nat, i: nat)
    requires c.kernel % 4096 == 0 && Ascending(segs) && CutsFrom(c, cut, segs, |segs|)
    requires q < |segs| && AtBoundary(segs[q], i) && CutCovers(cut, End(c, segs[q]))
    requires FileAddress(c, segs[q], i) < cut[FrameBase(End(c, segs[q]))]
    ensures Overlaid(segs, q, i)
  {
    var f := FrameBase(End(c, segs[q]));
    var j :| 0 <= j < |segs| && HasBoundary(segs[j]) && FrameBase(End(c, segs[j])) == f && End(c, segs[j]) == cut[f];
    EndPages(c, segs[q], segs[j]);
    assert OverlaidBy(segs[q], segs[j], i);
  }

  /** Every byte of every loadable segment, read through the finished tables. */
  lemma FinalByte(c: Ctx, k: K, segs: seq<Segment>, q: nat, i: nat)
    requires Shown(c, k) && Ascending(segs) && CutsFrom(c, k.cut, segs, |segs|)
    requires q < |segs| && segs[q].ty.Load? && SegmentFits(c, segs[q]) && Promised(c, k, segs[q])
    requires i < segs[q].fileSize || i < segs[q].memSize
    ensures ReadVirtual(k.vm.mem, c.root, segs[q].vaddr + i) == Some(LoadedByte(c, segs, q, i))
  {
    hide ReadVirtual, EntryOk, ZeroOk, Intact, FileKept, BssKept, HasBoundary, OverlaidBy, CutsFrom, Ascending, Indices, New, FrameBase, End, FileAddress;
    if i < segs[q].fileSize {
      FinalFileByte(c, k, segs[q], i);
    } else if AtBoundary(segs[q], i) {
      CutMeansOverlaid(c, k.cut, segs, q, i);
      FinalBoundaryByte(c, k, segs[q], i, Overlaid(segs, q, i));
    } else {
      FinalZeroByte(c, k, segs[q], i);
    }
  }

  lemma FinalFileByte(c: Ctx, k: K, s: Segment, i: nat)
    requires Shown(c, k) && s.ty.Load? && SegmentFits(c, s) && FileKept(c, k, s) && i < s.fileSize
    ensures ReadVirtual(k.vm.mem, c.root, s.vaddr + i) == Some(ByteAt(c.image, FileAddress(c, s, i)))
  {
    hide ReadVirtual, EntryOk, ZeroOk, Intact, Backed, Copied, Indices, New, FrameBase, Walk;
    assert FileByte(c, k, s, i);
    VirtualByte(s, i);
    SamePageOffset(c, s, i);
    ReadBacked(c, k, s.vaddr + i, Indices(Base(s) + i), FileAddress(c, s, i));
  }

  lemma FinalBoundaryByte(c: Ctx, k: K, s: Segment, i: nat, overlaid: bool)
    requires Shown(c, k) && s.ty.Load? && SegmentFits(c, s) && BssKept(c, k, s) && AtBoundary(s, i)
    requires FrameBase(End(c, s)) in k.cut && (FileAddress(c, s, i) < k.cut[FrameBase(End(c, s))] <==> overlaid)
    ensures ReadVirtual(k.vm.mem, c.root, s.vaddr + i) == Some(if overlaid then ByteAt(c.image, FileAddress(c, s, i)) else 0)
  {
    hide ReadVirtual, EntryOk, ZeroOk, Intact, Backed, Copied, Indices, New, FrameBase, Walk;
    BoundaryPage(c, s, i);
    VirtualByte(s, i);
    SamePageOffset(c, s, i);
    ReadCopied(c, k, s.vaddr + i, Indices(Base(s) + i), FileAddress(c, s, i));
  }

  lemma FinalZeroByte(c: Ctx, k: K, s: Segment, i: nat)
    requires Shown(c, k) && s.ty.Load? && SegmentFits(c, s) && BssKept(c, k, s)
    requires s.fileSize <= i < s.memSize && !AtBoundary(s, i)
    ensures ReadVirtual(k.vm.mem, c.root, s.vaddr + i) == Some(0)
  {
    hide ReadVirtual, EntryOk, ZeroOk, Intact, Backed, Copied, Indices, New, FrameBase, Walk;
    assert ZeroByte(k, s, i);
    VirtualByte(s, i);
    ReadZero(c, k, s.vaddr + i, Indices(Base(s) + i));
  }

  // ---- When that is what the file asks for -----------------------------------------------------

  /** The byte the ELF file defines. */
  function ElfByte(c: Ctx, s: Segment, i: nat): Byte {
    if i < s.fileSize then ByteAt(c.image, FileAddress(c, s, i)) else 0
  }

  ghost predicate MeaningPreserved(c: Ctx, segs: seq<Segment>) {
    forall q, i: nat :: 0 <= q < |segs| && segs[q].ty.Load? && (i < segs[q].fileSize || i < segs[q].memSize) ==>
      LoadedByte(c, segs, q, i) == ElfByte(c, segs[q], i)
  }

  /** File byte `b` lies between the ends of two segments that share their end page and both have
      zero bytes there, and within the memory of the first. */
  predicate GapByte(s: Segment, t: Segment, b: nat) {
    && HasBoundary(s) && HasBoundary(t) && SameEndPage(s, t)
    && s.offset + s.fileSize <= b < t.offset + t.fileSize && b < s.offset + s.memSize
  }

  ghost predicate GapsAreZero(c: Ctx, segs: seq<Segment>) {
    forall q, j, b: nat :: 0 <= q < j < |segs| && GapByte(segs[q], segs[j], b) ==> ByteAt(c.image, c.kernel + b) == 0
  }

  /** The loader preserves the meaning of the file exactly if these gaps are zero. */
  lemma MeaningPreservedIffGapsAreZero(c: Ctx, segs: seq<Segment>)
    ensures MeaningPreserved(c, segs) <==> GapsAreZero(c, segs)
  {
    if MeaningPreserved(c, segs) {
      forall q, j, b: nat | 0 <= q < j < |segs| && GapByte(segs[q], segs[j], b) ensures ByteAt(c.image, c.kernel + b) == 0 {
        GapByteIsOverlaid(segs, q, j, b);
        assert LoadedByte(c, segs, q, b - segs[q].offset) == ElfByte(c, segs[q], b - segs[q].offset);
      }
    }
    if GapsAreZero(c, segs) {
      forall q, i: nat | 0 <= q < |segs| && segs[q].ty.Load? && (i < segs[q].fileSize || i < segs[q].memSize)
        ensures LoadedByte(c, segs, q, i) == ElfByte(c, segs[q], i)
      {
        if i >= segs[q].fileSize && Overlaid(segs, q, i) {
          var j :| q < j < |segs| && OverlaidBy(segs[q], segs[j], i);
          assert GapByte(segs[q], segs[j], segs[q].offset + i);
        }
      }
    }
  }

  lemma GapByteIsOverlaid(segs: seq<Segment>, q: nat, j: nat, b: nat)
    requires q < j < |segs| && GapByte(segs[q], segs[j], b)
    ensures Overlaid(segs, q, b - segs[q].offset)
  {
    var s, t := segs[q], segs[j];
    BetweenInPage(s.offset + s.fileSize, b, t.offset + t.fileSize);
    assert OverlaidBy(s, t, b - s.offset);
  }

  lemma BetweenInPage(x: nat, y: nat, z: nat)
    requires x <= y <= z && x / 4096 == z / 4096
    ensures y / 4096 == x / 4096
  {
  }

  /** In particular it does when no two such segments end in one file page. */
  lemma DistinctEndPagesSuffice(c: Ctx, segs: seq<Segment>)
    requires forall q, j :: 0 <= q < j < |segs| && HasBoundary(segs[q]) && HasBoundary(segs[j]) ==> !SameEndPage(segs[q], segs[j])
    ensures MeaningPreserved(c, segs)
  {
    MeaningPreservedIffGapsAreZero(c, segs);
  }

  /** Two segments of one file page, each with zero bytes to follow: the first segment's zero byte
      at index 16 reads the second segment's file byte instead.  The file is one the loader takes. */
  lemma SharedEndPageLosesZeros(c: Ctx)
    requires c.size >= 32 && ByteAt(c.image, c.kernel + 16) != 0
    ensures var segs := [Segment(Load, 0, 0x1000_0000, 16, 64), Segment(Load, 16, 0x2000_0010, 16, 64)];
            GoodFile(c, segs) && !GapsAreZero(c, segs) && !MeaningPreserved(c, segs)
  {
    var s, t := Segment(Load, 0, 0x1000_0000, 16, 64), Segment(Load, 16, 0x2000_0010, 16, 64);
    var segs := [s, t];
    assert segs[0] == s && segs[1] == t;
    assert GapByte(segs[0], segs[1], 16);
    MeaningPreservedIffGapsAreZero(c, segs);
  }
}
