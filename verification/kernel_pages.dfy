/** Which pages of the address space the segments of a kernel file concern, and when they are free
    for it. */
module KernelPages {
  import opened Bits
  import opened Collections
  import opened VirtualAddress
  import opened PhysicalMemory
  import opened FrameAllocation
  import opened PageTables
  import opened Mapper
  import opened KernelImage
  import opened KernelSteps
  import opened KernelPromise

  // ---- Which pages a segment concerns ------------------------------------------------------------

  /** The walk of the page of byte `i`. */
  function PathOf(s: Segment, i: nat): seq<nat> { Indices(s.vaddr + i) }

  /** The page of a file byte of the segment, or of its start. */
  ghost predicate FilePageOf(s: Segment, p: seq<nat>) {
    s.ty.Load? && exists i: nat :: (i < s.fileSize || i == 0) && p == PathOf(s, i)
  }

  /** A page from the end of the file bytes up to the end of the segment, that end included. */
  ghost predicate ZeroPageOf(s: Segment, p: seq<nat>) {
    s.ty.Load? && s.fileSize < s.memSize && exists i: nat :: s.fileSize <= i <= s.memSize && p == PathOf(s, i)
  }

  /** Between `k` and `k'` only pages of the segment were recorded or filled with zeros. */
  ghost predicate Confined(c: Ctx, k: K, k': K, s: Segment) {
    && Spares(c, k, k')
    && (forall n :: |k.mapped| <= n < |k'.mapped| ==> FilePageOf(s, Indices(k'.mapped[n].page)))
    && (forall p :: p in k'.zero ==> p in k.zero || ZeroPageOf(s, p))
  }

  lemma ConfinedItself(c: Ctx, k: K, s: Segment)
    ensures Confined(c, k, k, s)
  {
    SparesItself(c, k);
  }

  lemma ConfinedTransitive(c: Ctx, k: K, k1: K, k2: K, s: Segment)
    requires Confined(c, k, k1, s) && Confined(c, k1, k2, s)
    ensures Confined(c, k, k2, s)
  {
    hide Indices, Walk, FilePageOf, ZeroPageOf, Recorded;
    SparesTransitive(c, k, k1, k2);
    forall n | |k.mapped| <= n < |k2.mapped| ensures FilePageOf(s, Indices(k2.mapped[n].page)) {
      if n < |k1.mapped| {
        assert k2.mapped[n] == k1.mapped[n];
      }
    }
  }

  lemma EntryConfined(c: Ctx, k: K, k': K, s: Segment, e: MappedEntry)
    requires Spares(c, k, k') && k'.mapped == k.mapped + [e] && k'.zero == k.zero && FilePageOf(s, Indices(e.page))
    ensures Confined(c, k, k', s)
  {
    hide Indices, Walk, FilePageOf, Spares;
  }

  /** The page of byte `i` by way of the sign-extended start of the segment. */
  lemma BytePage(s: Segment, i: nat)
    ensures Indices(Base(s) + i) == PathOf(s, i)
  {
    VirtualByte(s, i);
  }

  /** Byte `i` from `base` lies in page number `(o + i) / 4096` after the page of `base`. */
  lemma PageOfByte(base: nat, o: nat, i: nat)
    requires base % 4096 == o
    ensures Indices(base + i) == Indices(base - o + (o + i) / 4096 * 4096)
  {
    var t, x := (o + i) / 4096, (o + i) % 4096;
    assert base + i == base - o + t * 4096 + x;
    IndicesWithinPage(base - o + t * 4096, x);
  }

  /** Page `t` of the file part is the page of one of its bytes. */
  lemma FilePageNumber(s: Segment, o: nat, t: nat, virt: nat)
    requires s.ty.Load? && Base(s) % 4096 == o && (t == 0 || t * 4096 <= s.fileSize - 1 + o)
    requires Indices(virt) == Indices(Base(s) - o + t * 4096)
    ensures FilePageOf(s, Indices(virt))
  {
    hide Indices, New;
    var i := if t == 0 then 0 else t * 4096 - o;
    PageOfByte(Base(s), o, i);
    BytePage(s, i);
  }

  /** A segment without file bytes whose zero bytes begin with a page. */
  predicate BareStart(s: Segment) {
    s.ty.Load? && s.fileSize == 0 && s.memSize > 0 && s.vaddr % 4096 == 0
  }

  ghost predicate FilePage(segs: seq<Segment>, p: seq<nat>) {
    exists q :: 0 <= q < |segs| && FilePageOf(segs[q], p)
  }

  ghost predicate ZeroPage(segs: seq<Segment>, p: seq<nat>) {
    exists q :: 0 <= q < |segs| && ZeroPageOf(segs[q], p)
  }

  /** Recorded and zero pages belong to the segments seen so far. */
  ghost predicate Traced(k: K, segs: seq<Segment>) {
    && (forall n :: 0 <= n < |k.mapped| ==> FilePage(segs, Indices(k.mapped[n].page)))
    && (forall p :: p in k.zero ==> ZeroPage(segs, p))
  }

  lemma SegmentTraced(c: Ctx, k: K, k': K, segs: seq<Segment>, n: nat)
    requires n < |segs| && Traced(k, segs) && Confined(c, k, k', segs[n])
    ensures Traced(k', segs)
  {
    hide Indices, Walk, FilePageOf, ZeroPageOf;
    forall i | 0 <= i < |k'.mapped| ensures FilePage(segs, Indices(k'.mapped[i].page)) {
      if i < |k.mapped| {
        assert k'.mapped[i] == k.mapped[i];
      } else {
        assert FilePageOf(segs[n], Indices(k'.mapped[i].page));
      }
    }
  }

  /** Pages outside the segments translate as before; so does a page that was mapped already, unless
      it is a file page. */
  ghost predicate OutsideKept(m: Memory, m': Memory, root: nat, segs: seq<Segment>) {
    forall p :: |p| == 4 && ValidPath(p) && !FilePage(segs, p) && (Walk(m, root, p).Some? || !ZeroPage(segs, p)) ==>
      Walk(m', root, p) == Walk(m, root, p)
  }

  lemma TracedKeepsOutside(c: Ctx, k: K, k': K, segs: seq<Segment>)
    requires Spares(c, k, k') && Traced(k', segs)
    ensures OutsideKept(k.vm.mem, k'.vm.mem, c.root, segs)
  {
    hide Indices, Walk, FilePage, ZeroPage;
    forall p | |p| == 4 && ValidPath(p) && !FilePage(segs, p) && (Walk(k.vm.mem, c.root, p).Some? || !ZeroPage(segs, p))
      ensures Walk(k'.vm.mem, c.root, p) == Walk(k.vm.mem, c.root, p)
    {
      assert !Recorded(k'.mapped, p);
    }
  }

  // ---- Files that load ----------------------------------------------------------------------------

  const HALF: nat := 0x8000_0000_0000

  /** The segment stays, with two pages to spare, in the half of the address space where it begins. */
  predicate Roomy(s: Segment) {
    s.ty.Load? ==> NewChecked(s.vaddr).Ok? && Base(s) % HALF + s.fileSize + s.memSize + 8192 <= HALF
  }

  lemma RoomyAddress(s: Segment, x: nat)
    requires s.ty.Load? && Roomy(s) && x < s.fileSize + s.memSize + 8192
    ensures Base(s) + x < TWO_64 && New(Base(s) + x) == Base(s) + x
  {
    hide New, NewChecked;
    NewSignExtends(s.vaddr);
    SameHalf(Base(s), x);
    NewSignExtends(Base(s) + x);
  }

  lemma SameHalf(b: U64, x: nat)
    requires Canonical(b) && b % HALF + x < HALF
    ensures b + x < TWO_64 && Canonical(b + x)
  {
  }

  /** Bytes of different pages of a segment have different walks. */
  lemma PathsDiffer(s: Segment, i: nat, j: nat)
    requires s.ty.Load? && Roomy(s) && i < s.fileSize + s.memSize + 8192 && j < s.fileSize + s.memSize + 8192
    requires (Base(s) % 4096 + i) / 4096 != (Base(s) % 4096 + j) / 4096
    ensures PathOf(s, i) != PathOf(s, j)
  {
    hide Indices, New, NewChecked;
    BytePage(s, i);
    BytePage(s, j);
    IndexDigits(Base(s) + i);
    IndexDigits(Base(s) + j);
    PagesDiffer(Base(s), i, j);
  }

  lemma PagesDiffer(b: nat, i: nat, j: nat)
    requires i < HALF && j < HALF && (b % 4096 + i) / 4096 != (b % 4096 + j) / 4096
    ensures (b + i) % TWO_48 - (b + i) % 4096 != (b + j) % TWO_48 - (b + j) % 4096
  {
    PageNumber(b + i);
    PageNumber(b + j);
    PageSum(b, i);
    PageSum(b, j);
    NearbyDiffer(b / 4096, (b % 4096 + i) / 4096, (b % 4096 + j) / 4096);
  }

  lemma PageNumber(v: nat)
    ensures v % TWO_48 - v % 4096 == v / 4096 % 0x10_0000_0000 * 4096
  {
  }

  lemma PageSum(b: nat, i: nat)
    ensures (b + i) / 4096 == b / 4096 + (b % 4096 + i) / 4096
  {
  }

  lemma NearbyDiffer(a: nat, x: nat, y: nat)
    requires x != y && x < 0x10_0000_0000 && y < 0x10_0000_0000
    ensures (a + x) % 0x10_0000_0000 != (a + y) % 0x10_0000_0000
  {
  }

  /** Pages of the file part, as the loader counts them. */
  function FilePages(s: Segment): nat {
    if !s.ty.Load? then 0 else if s.fileSize == 0 then 1 else 1 + (s.fileSize - 1 + Base(s) % 4096) / 4096
  }

  function TotalPages(segs: seq<Segment>, n: nat): nat
    requires n <= |segs|
    decreases n
  {
    if n == 0 then 0 else TotalPages(segs, n - 1) + FilePages(segs[n - 1])
  }

  lemma {:induction false} TotalGrows(segs: seq<Segment>, n: nat, n': nat)
    requires n <= n' <= |segs|
    ensures TotalPages(segs, n) <= TotalPages(segs, n')
    decreases n'
  {
    if n < n' {
      TotalGrows(segs, n, n' - 1);
    }
  }

  ghost predicate SegmentPage(s: Segment, p: seq<nat>) { FilePageOf(s, p) || ZeroPageOf(s, p) }

  /** No page of the segment is mapped. */
  ghost predicate FreeFor(m: Memory, root: nat, s: Segment) {
    forall p :: SegmentPage(s, p) ==> Walk(m, root, p).None?
  }

  /** No page belongs to two segments. */
  ghost predicate PagesApart(segs: seq<Segment>) {
    forall q, j, p :: 0 <= q < j < |segs| && SegmentPage(segs[q], p) ==> !SegmentPage(segs[j], p)
  }

  /** A file that the loader can take if it gets the frames: no thread-local segment, every segment
      with room for its addresses, none without file bytes at a page boundary, no page used twice or
      mapped before, and at most a hundred file pages. */
  ghost predicate Loadable(m: Memory, root: nat, segs: seq<Segment>) {
    && (forall q :: 0 <= q < |segs| ==> !segs[q].ty.Tls? && Roomy(segs[q]) && !BareStart(segs[q]) && FreeFor(m, root, segs[q]))
    && PagesApart(segs) && TotalPages(segs, |segs|) <= 100
  }

  /** A free page that is not concerned stays free. */
  lemma StillFree(c: Ctx, k: K, k': K, p: seq<nat>)
    requires KInv(c, k) && Spares(c, k, k') && |p| == 4 && ValidPath(p) && Walk(k.vm.mem, c.root, p).None?
    requires p in k'.zero ==> p in k.zero
    requires forall n :: |k.mapped| <= n < |k'.mapped| ==> Indices(k'.mapped[n].page) != p
    ensures Walk(k'.vm.mem, c.root, p).None?
  {
    hide Indices, Walk, Inv, ImagePlace, Intact, OneFramePerPage, CutContent, ZeroContent;
    forall n | 0 <= n < |k.mapped| ensures Indices(k.mapped[n].page) != p {
      assert EntryOk(c, k, k.mapped[n]);
    }
    forall n | 0 <= n < |k'.mapped| ensures Indices(k'.mapped[n].page) != p {
      if n < |k.mapped| {
        assert k'.mapped[n] == k.mapped[n];
      }
    }
    assert !Recorded(k'.mapped, p);
  }

  /** The pages of one segment stay free while another is loaded. */
  lemma OtherSegmentStaysFree(c: Ctx, k: K, k': K, s: Segment, t: Segment)
    requires KInv(c, k) && Confined(c, k, k', s) && FreeFor(k.vm.mem, c.root, t)
    requires forall p :: SegmentPage(s, p) ==> !SegmentPage(t, p)
    ensures FreeFor(k'.vm.mem, c.root, t)
  {
    hide KInv, Spares, Walk, FilePageOf, ZeroPageOf;
    forall p | SegmentPage(t, p) ensures Walk(k'.vm.mem, c.root, p).None? {
      SegmentPageValid(t, p);
      assert !SegmentPage(s, p);
      assert p in k'.zero ==> p in k.zero;
      forall n | |k.mapped| <= n < |k'.mapped| ensures Indices(k'.mapped[n].page) != p {
        assert FilePageOf(s, Indices(k'.mapped[n].page));
      }
      StillFree(c, k, k', p);
    }
  }

  lemma SegmentPageValid(s: Segment, p: seq<nat>)
    requires SegmentPage(s, p)
    ensures |p| == 4 && ValidPath(p)
  {
    hide Indices;
    var i: nat :| p == PathOf(s, i);
    IndicesValid(s.vaddr + i);
  }

  /** A zero page of a segment, past the page where its file bytes end, is not one of its file pages. */
  lemma ZeroPageIsNoFilePage(s: Segment, i: nat)
    requires s.ty.Load? && Roomy(s) && !BareStart(s) && i < s.fileSize + s.memSize + 8192 && s.memSize > 0
    requires (Base(s) % 4096 + i) % 4096 == 0 && s.fileSize <= i
    ensures !FilePageOf(s, PathOf(s, i))
  {
    hide Indices, New, NewChecked, PathOf;
    if FilePageOf(s, PathOf(s, i)) {
      var j: nat :| (j < s.fileSize || j == 0) && PathOf(s, i) == PathOf(s, j);
      LaterPage(s, i, j);
      PathsDiffer(s, i, j);
    }
  }

  lemma LaterPage(s: Segment, i: nat, j: nat)
    requires s.ty.Load? && !BareStart(s) && s.memSize > 0 && (Base(s) % 4096 + i) % 4096 == 0 && s.fileSize <= i && (j < s.fileSize || j == 0)
    ensures (Base(s) % 4096 + i) / 4096 != (Base(s) % 4096 + j) / 4096
  {
    hide New;
    VirtualByte(s, 0);
    if s.fileSize == 0 {
      assert Base(s) % 4096 != 0;
    }
  }

  // ---- Pages to come ------------------------------------------------------------------------------

  /** The pages from number `i` on, of `n` from `start`, are free. */
  ghost predicate FreeFrom(c: Ctx, k: K, start: nat, i: nat, n: nat) {
    forall t: nat :: i <= t < n ==> Walk(k.vm.mem, c.root, PageAt(start, t)).None?
  }

  function PageAt(start: nat, t: nat): seq<nat> { Indices(start + t * 4096) }

  ghost predicate Apart(start: nat, n: nat) {
    forall t: nat, u: nat :: t < u < n ==> PageAt(start, t) != PageAt(start, u)
  }

  lemma NextAreFree(c: Ctx, k: K, k': K, start: nat, i: nat, n: nat)
    requires FreeFrom(c, k, start, i, n) && OnlyMoved(c, k, k', PageAt(start, i)) && Apart(start, n)
    ensures FreeFrom(c, k', start, i + 1, n)
  {
    hide Indices, Walk;
    forall t: nat | i + 1 <= t < n ensures Walk(k'.vm.mem, c.root, PageAt(start, t)).None? {
      IndicesValid(start + t * 4096);
      assert PageAt(start, i) != PageAt(start, t);
    }
  }

  /** The byte whose page is file page number `t`. */
  function FirstByte(o: nat, t: nat): nat
    requires o < 4096
  {
    if t == 0 then 0 else t * 4096 - o
  }

  lemma FilePagePath(s: Segment, t: nat)
    ensures var o := Base(s) % 4096;
            PageAt(Base(s) - o, t) == PathOf(s, FirstByte(o, t)) && (o + FirstByte(o, t)) / 4096 == t
  {
    hide Indices, New;
    var o := Base(s) % 4096;
    PageOfByte(Base(s), o, FirstByte(o, t));
    BytePage(s, FirstByte(o, t));
  }

  /** The file pages of a free segment are free and all different. */
  lemma FilePagesFree(c: Ctx, k: K, s: Segment)
    requires s.ty.Load? && Roomy(s) && FreeFor(k.vm.mem, c.root, s)
    ensures FreeFrom(c, k, Base(s) - Base(s) % 4096, 0, FilePages(s)) && Apart(Base(s) - Base(s) % 4096, FilePages(s))
  {
    hide Indices, New, NewChecked, Walk, PathOf, PageAt;
    var o := Base(s) % 4096;
    var start := Base(s) - o;
    forall t: nat | t < FilePages(s) ensures Walk(k.vm.mem, c.root, PageAt(start, t)).None? {
      FilePagePath(s, t);
      assert FilePageOf(s, PathOf(s, FirstByte(o, t)));
    }
    forall t: nat, u: nat | t < u < FilePages(s) ensures PageAt(start, t) != PageAt(start, u) {
      FilePagePath(s, t);
      FilePagePath(s, u);
      PathsDiffer(s, FirstByte(o, t), FirstByte(o, u));
    }
  }

  /** The pages after the file bytes, up to the end of the segment, are free. */
  ghost predicate ZeroFree(c: Ctx, k: K, s: Segment) {
    forall i: nat :: s.fileSize <= i <= s.memSize && (Base(s) % 4096 + i) % 4096 == 0 ==> Walk(k.vm.mem, c.root, PathOf(s, i)).None?
  }

  /** Loading the file pages leaves them free. */
  lemma ZeroPagesStayFree(c: Ctx, k: K, k': K, s: Segment)
    requires KInv(c, k) && Confined(c, k, k', s) && k'.zero == k.zero && FreeFor(k.vm.mem, c.root, s)
    requires s.ty.Load? && Roomy(s) && !BareStart(s) && s.fileSize < s.memSize
    ensures ZeroFree(c, k', s)
  {
    hide KInv, Spares, Walk, New, NewChecked, PathOf, BareStart;
    forall i: nat | s.fileSize <= i <= s.memSize && (Base(s) % 4096 + i) % 4096 == 0 ensures Walk(k'.vm.mem, c.root, PathOf(s, i)).None? {
      var p := PathOf(s, i);
      assert ZeroPageOf(s, p);
      SegmentPageValid(s, p);
      ZeroPageIsNoFilePage(s, i);
      StillFree(c, k, k', p);
    }
  }

  /** So does replacing the boundary page. */
  lemma ZeroPagesFreeAfterCut(c: Ctx, k: K, k': K, s: Segment)
    requires KInv(c, k) && Spares(c, k, k') && k'.zero == k.zero && k'.mapped == k.mapped && ZeroFree(c, k, s)
    ensures ZeroFree(c, k', s)
  {
    hide KInv, Spares, Walk, New, Indices;
    forall i: nat | s.fileSize <= i <= s.memSize && (Base(s) % 4096 + i) % 4096 == 0 ensures Walk(k'.vm.mem, c.root, PathOf(s, i)).None? {
      IndicesValid(s.vaddr + i);
      StillFree(c, k, k', PathOf(s, i));
    }
  }

  /** The zero pages as a run of pages. */
  lemma ZeroRunFree(c: Ctx, k: K, s: Segment, first: nat, n: nat)
    requires s.ty.Load? && Roomy(s) && ZeroFree(c, k, s) && s.fileSize <= first && (Base(s) + first) % 4096 == 0
    requires n > 0 ==> first + (n - 1) * 4096 <= s.memSize
    ensures FreeFrom(c, k, Base(s) + first, 0, n) && Apart(Base(s) + first, n)
  {
    hide Indices, New, NewChecked, Walk;
    var start := Base(s) + first;
    forall t: nat | t < n ensures Walk(k.vm.mem, c.root, PageAt(start, t)).None? {
      ZeroRunPath(s, first, t);
    }
    forall t: nat, u: nat | t < u < n ensures PageAt(start, t) != PageAt(start, u) {
      ZeroRunPath(s, first, t);
      ZeroRunPath(s, first, u);
      PathsDiffer(s, first + t * 4096, first + u * 4096);
    }
  }

  lemma ZeroRunPath(s: Segment, first: nat, t: nat)
    requires (Base(s) + first) % 4096 == 0
    ensures PageAt(Base(s) + first, t) == PathOf(s, first + t * 4096)
    ensures (Base(s) % 4096 + (first + t * 4096)) % 4096 == 0
    ensures (Base(s) % 4096 + (first + t * 4096)) / 4096 == (Base(s) % 4096 + first) / 4096 + t
  {
    hide Indices, New;
    BytePage(s, first + t * 4096);
  }
}
