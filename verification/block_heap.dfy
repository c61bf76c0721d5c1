/** The fixed-size block allocator (shared_lib/src/allocator/fixed_size_block.rs).  A free block
    holds the link of its list in its own first eight bytes, so the lists live in the same memory
    as the data of the program.  The fallback heap is known by its contract only: what it answers
    is a parameter of every operation that may ask it. */
module BlockHeap {
  import opened Bits
  import opened PhysicalMemory
  import opened Collections

  const BLOCK_SIZES: seq<nat> := [8, 16, 32, 64, 128, 256, 512, 1024, 2048]
  const LISTS: nat := 9
  const NODE_SIZE: nat := 8
  const NULL: nat := 0

  datatype Layout = Layout(size: nat, align: nat)

  /** What core::alloc demands of a layout. */
  ghost predicate ValidLayout(l: Layout) {
    l.size > 0 && exists e: nat :: l.align == Pow2(e)
  }

  function Required(l: Layout): nat { if l.size < l.align then l.align else l.size }

  function FirstAtLeast(required: nat, k: nat): (r: Option<nat>)
    requires k <= LISTS
    ensures r.Some? ==> r.value < LISTS
    decreases LISTS - k
  {
    if k == LISTS then None else if BLOCK_SIZES[k] >= required then Some(k) else FirstAtLeast(required, k + 1)
  }

  /** list_index. */
  function ListIndex(l: Layout): (r: Option<nat>)
    ensures r.Some? ==> r.value < LISTS
  {
    FirstAtLeast(Required(l), 0)
  }

  lemma {:induction false} FirstAtLeastMeaning(required: nat, k: nat)
    requires k <= LISTS && forall j :: 0 <= j < k ==> BLOCK_SIZES[j] < required
    ensures match FirstAtLeast(required, k)
            case Some(i) => i < LISTS && required <= BLOCK_SIZES[i] && forall j :: 0 <= j < i ==> BLOCK_SIZES[j] < required
            case None => forall j :: 0 <= j < LISTS ==> BLOCK_SIZES[j] < required
    decreases LISTS - k
  {
    if k < LISTS && BLOCK_SIZES[k] < required {
      FirstAtLeastMeaning(required, k + 1);
    }
  }

  lemma {:induction false} BlockSizesArePowers(k: nat)
    requires k < LISTS
    ensures BLOCK_SIZES[k] == Pow2(k + 3)
  {
    if k == 0 {
      assert Pow2(3) == 8;
    } else {
      BlockSizesArePowers(k - 1);
    }
  }

  /** A power of two up to another one divides it, and divides what that one divides. */
  lemma {:induction false} SmallerPowerDivides(e: nat, f: nat, a: nat)
    requires Pow2(e) <= Pow2(f) && a % Pow2(f) == 0
    ensures a % Pow2(e) == 0
    decreases f
  {
    if e != f {
      if f == 0 {
        assert false by { PowersApart(f, e); }
      } else {
        var half := Pow2(f - 1);
        PowersApart(e, f);
        var d := a / Pow2(f);
        assert a == (2 * d) * half;
        MultipleHasNoRemainder(2 * d, half);
        SmallerPowerDivides(e, f - 1, a);
      }
    }
  }

  lemma MultipleHasNoRemainder(d: nat, q: nat)
    requires q > 0
    ensures d * q % q == 0
  {
    DivUnique(d * q, q, d, 0);
  }

  /** Between a power of two and its half there is no other power. */
  lemma {:induction false} PowersApart(e: nat, f: nat)
    requires e != f && f > 0
    ensures Pow2(e) <= Pow2(f - 1) || Pow2(f) < Pow2(e)
    decreases e + f
  {
    if e > 0 && f > 1 {
      PowersApart(e - 1, f - 1);
    } else if e > 0 {
      assert Pow2(e) == 2 * Pow2(e - 1) && Pow2(1) == 2;
      if e > 1 {
        assert Pow2(e - 1) == 2 * Pow2(e - 2);
      }
    }
  }

  /** The list chosen is the first whose blocks are large enough, and its blocks, aligned to their
      size, are aligned for the layout. */
  lemma ListIndexMeaning(l: Layout)
    requires ValidLayout(l)
    ensures match ListIndex(l)
            case Some(k) =>
              && k < LISTS && l.size <= BLOCK_SIZES[k] && l.align <= BLOCK_SIZES[k]
              && (forall j :: 0 <= j < k ==> BLOCK_SIZES[j] < l.size || BLOCK_SIZES[j] < l.align)
              && (forall a: nat :: a % BLOCK_SIZES[k] == 0 ==> a % l.align == 0)
            case None => 2048 < l.size || 2048 < l.align
  {
    FirstAtLeastMeaning(Required(l), 0);
    match ListIndex(l) {
      case Some(k) =>
        var e: nat :| l.align == Pow2(e);
        BlockSizesArePowers(k);
        forall a: nat | a % BLOCK_SIZES[k] == 0 ensures a % l.align == 0 {
          SmallerPowerDivides(e, k + 3, a);
        }
      case None =>
        assert BLOCK_SIZES[8] < Required(l);
    }
  }

  // ---- State -----------------------------------------------------------------------------------------

  /** Memory and list heads, as the code keeps them; besides, the blocks callers hold with their
      layouts, and the blocks obtained from the fallback heap with their sizes. */
  datatype State = State(mem: Memory, heads: seq<nat>, live: map<nat, Layout>, taken: map<nat, nat>)

  /** What the fallback heap does when asked: the block it hands out, if any, and the memory after. */
  datatype Answer = Answer(ptr: nat, mem: Memory)

  predicate Apart(a: nat, n: nat, b: nat, m: nat) { a + n <= b || b + m <= a }

  /** The fallback heap keeps its own records outside the blocks it has handed out. */
  ghost predicate KeepsBlocks(mem: Memory, mem': Memory, blocks: map<nat, nat>) {
    |mem'| == |mem| && forall a :: a in blocks ==> SameBytes(mem, mem', a, blocks[a])
  }

  ghost predicate FallbackAllocates(s: State, size: nat, align: nat, ans: Answer) {
    && KeepsBlocks(s.mem, ans.mem, s.taken)
    && (ans.ptr != NULL ==>
          && align > 0 && ans.ptr % align == 0 && ans.ptr + size <= |s.mem|
          && forall a :: a in s.taken ==> a != ans.ptr && Apart(a, s.taken[a], ans.ptr, size))
  }

  /** The size of the block that serves a layout. */
  function BlockLength(l: Layout): nat {
    match ListIndex(l)
    case Some(k) => BLOCK_SIZES[k]
    case None => l.size
  }

  function BlockAlign(l: Layout): nat {
    if ListIndex(l).Some? then BlockLength(l) else l.align
  }

  /** The block for a layout: the smallest power of two from 8 to 2048 that is enough for size and
      alignment, aligned to its own size; beyond 2048, what the layout itself asks for. */
  lemma BlockForLayout(l: Layout)
    ensures var n := BlockLength(l);
            if l.size > 2048 || l.align > 2048 then n == l.size && BlockAlign(l) == l.align
            else l.size <= n && l.align <= n && BlockAlign(l) == n && n in {8, 16, 32, 64, 128, 256, 512, 1024, 2048} &&
                 (n > 8 ==> n / 2 < l.size || n / 2 < l.align)
  {
    FirstAtLeastMeaning(Required(l), 0);
    match ListIndex(l) {
      case Some(k) =>
        assert k > 0 ==> BLOCK_SIZES[k - 1] < Required(l);
      case None =>
        assert BLOCK_SIZES[8] < Required(l);
    }
  }

  /** A list is empty, or there is none for the layout. */
  predicate AsksFallback(s: State, l: Layout)
    requires |s.heads| == LISTS
  {
    match ListIndex(l)
    case Some(k) => s.heads[k] == NULL
    case None => true
  }

  // ---- Operations ------------------------------------------------------------------------------------

  /** alloc: the state after, and the pointer returned. */
  function AllocStep(s: State, l: Layout, ans: Answer): (State, nat)
    requires |s.heads| == LISTS
  {
    if AsksFallback(s, l)
    then if ans.ptr == NULL then (s.(mem := ans.mem), NULL)
         else (s.(mem := ans.mem, live := s.live[ans.ptr := l], taken := s.taken[ans.ptr := BlockLength(l)]), ans.ptr)
    else
      var k := ListIndex(l).value;
      var p := s.heads[k];
      (State(Write64(s.mem, p, NULL), s.heads[k := ReadLE(s.mem, p, 8)], s.live[p := l], s.taken), p)
  }

  /** dealloc; `after` is the memory as the fallback heap leaves it if the block goes back to it. */
  function DeallocStep(s: State, p: nat, l: Layout, after: Memory): State
    requires |s.heads| == LISTS
  {
    match ListIndex(l)
    case Some(k) => State(Write64(s.mem, p, s.heads[k]), s.heads[k := p], s.live - {p}, s.taken)
    case None => State(after, s.heads, s.live - {p}, s.taken - {p})
  }

  // ---- Invariant -------------------------------------------------------------------------------------

  /** Node `i` is a block whose first word is the address of the next node, or null for the last. */
  ghost predicate Linked(mem: Memory, nodes: seq<nat>, i: nat)
    requires i < |nodes|
  {
    nodes[i] != NULL && ReadLE(mem, nodes[i], 8) == (if i + 1 < |nodes| then nodes[i + 1] else NULL)
  }

  /** A list in memory: the head and the links lead through exactly these nodes. */
  ghost predicate ChainAt(mem: Memory, head: nat, nodes: seq<nat>) {
    && head == (if nodes == [] then NULL else nodes[0])
    && forall i :: 0 <= i < |nodes| ==> Linked(mem, nodes, i)
  }

  ghost predicate Chains(s: State, lists: seq<seq<nat>>) {
    && |s.heads| == LISTS && |lists| == LISTS
    && forall k :: 0 <= k < LISTS ==> ChainAt(s.mem, s.heads[k], lists[k])
  }

  ghost predicate Listed(lists: seq<seq<nat>>, a: nat) {
    exists k :: 0 <= k < |lists| && a in lists[k]
  }

  predicate Place(lists: seq<seq<nat>>, k: int, i: int) { 0 <= k < |lists| && 0 <= i < |lists[k]| }

  /** No node occurs twice, in one list or in two: in particular no list has a cycle. */
  ghost predicate NoRepeats(lists: seq<seq<nat>>) {
    forall k, i, k', i' :: Place(lists, k, i) && Place(lists, k', i') && lists[k][i] == lists[k'][i'] ==> k == k' && i == i'
  }

  /** Every block taken from the fallback heap is either live or on a list, never both. */
  ghost predicate Partition(s: State, lists: seq<seq<nat>>) {
    && (forall a :: a in s.taken <==> a in s.live || Listed(lists, a))
    && (forall a :: a in s.live ==> !Listed(lists, a))
    && NoRepeats(lists)
  }

  ghost predicate BlocksApart(s: State) {
    && |s.mem| <= TWO_64
    && (forall a :: a in s.taken ==> a != NULL && a + s.taken[a] <= |s.mem|)
    && (forall a, b :: a in s.taken && b in s.taken && a != b ==> Apart(a, s.taken[a], b, s.taken[b]))
  }

  /** Each list holds blocks of its size, aligned to it. */
  ghost predicate ListedFit(s: State, lists: seq<seq<nat>>) {
    forall k, a :: 0 <= k < |lists| && k < LISTS && a in lists[k] ==> FitsList(s, a, k)
  }

  ghost predicate FitsList(s: State, a: nat, k: nat)
    requires k < LISTS
  {
    a in s.taken && s.taken[a] == BLOCK_SIZES[k] && a % BLOCK_SIZES[k] == 0
  }

  /** A live block serves its layout. */
  ghost predicate Serves(s: State, a: nat, l: Layout) {
    && ValidLayout(l) && a in s.taken && s.taken[a] == BlockLength(l) && l.size <= s.taken[a]
    && l.align > 0 && a % l.align == 0 && BlockAlign(l) > 0 && a % BlockAlign(l) == 0
  }

  ghost predicate LiveFit(s: State) {
    forall a :: a in s.live ==> Serves(s, a, s.live[a])
  }

  ghost predicate Blocks(s: State, lists: seq<seq<nat>>) {
    Chains(s, lists) && Partition(s, lists) && BlocksApart(s) && ListedFit(s, lists) && LiveFit(s)
  }

  ghost predicate Inv(s: State) { exists lists :: Blocks(s, lists) }

  // ---- Framing ---------------------------------------------------------------------------------------

  lemma ChainFrame(mem: Memory, mem': Memory, head: nat, nodes: seq<nat>)
    requires ChainAt(mem, head, nodes) && forall i :: 0 <= i < |nodes| ==> SameBytes(mem, mem', nodes[i], 8)
    ensures ChainAt(mem', head, nodes)
  {
    hide ReadLE;
    forall i | 0 <= i < |nodes| ensures Linked(mem', nodes, i) {
      assert Linked(mem, nodes, i);
      ReadLocal(mem, mem', nodes[i], 8);
    }
  }

  /** Lists stay in place if the bytes of their blocks do. */
  lemma ChainsFrame(s: State, s': State, lists: seq<seq<nat>>)
    requires Chains(s, lists) && ListedFit(s, lists) && s'.heads == s.heads
    requires forall a :: Listed(lists, a) && a in s.taken ==> SameBytes(s.mem, s'.mem, a, s.taken[a])
    ensures Chains(s', lists)
  {
    hide ChainAt;
    forall k | 0 <= k < LISTS ensures ChainAt(s'.mem, s'.heads[k], lists[k]) {
      forall i | 0 <= i < |lists[k]| ensures SameBytes(s.mem, s'.mem, lists[k][i], 8) {
        ListedBlock(s, lists, k, i);
      }
      ChainFrame(s.mem, s'.mem, s.heads[k], lists[k]);
    }
  }

  lemma ListedBlock(s: State, lists: seq<seq<nat>>, k: nat, i: nat)
    requires ListedFit(s, lists) && |lists| == LISTS && Place(lists, k, i)
    ensures var a := lists[k][i]; Listed(lists, a) && a in s.taken && s.taken[a] == BLOCK_SIZES[k] && 8 <= s.taken[a] && a % BLOCK_SIZES[k] == 0
  {
    assert FitsList(s, lists[k][i], k);
    BlocksHoldNodes(k);
  }

  lemma BlocksHoldNodes(k: nat)
    requires k < LISTS
    ensures NODE_SIZE <= BLOCK_SIZES[k]
  {
  }

  /** The memory changed only within the first `n` bytes from `p`. */
  ghost predicate ChangedWithin(mem: Memory, mem': Memory, p: nat, n: nat) {
    |mem'| == |mem| && forall x: nat :: !(p <= x < p + n) ==> ByteAt(mem', x) == ByteAt(mem, x)
  }

  /** A write into one block touches no other block. */
  lemma OtherBlocksKept(s: State, mem': Memory, p: nat, n: nat, a: nat)
    requires BlocksApart(s) && p in s.taken && n <= s.taken[p] && ChangedWithin(s.mem, mem', p, n)
    requires a in s.taken && a != p
    ensures SameBytes(s.mem, mem', a, s.taken[a])
  {
    assert Apart(a, s.taken[a], p, s.taken[p]);
  }

  lemma LiveBlock(s: State, p: nat)
    requires LiveFit(s) && p in s.live
    ensures p in s.taken && s.taken[p] == BlockLength(s.live[p])
    ensures ListIndex(s.live[p]).Some? ==> NODE_SIZE <= s.taken[p] && p % BLOCK_SIZES[ListIndex(s.live[p]).value] == 0
  {
    hide ValidLayout, ListIndex;
    assert Serves(s, p, s.live[p]);
    if ListIndex(s.live[p]).Some? {
      BlocksHoldNodes(ListIndex(s.live[p]).value);
    }
  }

  /** Live blocks go on serving their layouts as long as they stay taken. */
  lemma LiveFrame(s: State, s': State)
    requires LiveFit(s)
    requires forall a :: a in s'.live ==> a in s.live && s'.live[a] == s.live[a] && (a in s.taken ==> a in s'.taken && s'.taken[a] == s.taken[a])
    ensures LiveFit(s')
  {
    hide ValidLayout, ListIndex;
    forall a | a in s'.live ensures Serves(s', a, s'.live[a]) {
      assert Serves(s, a, s.live[a]);
    }
  }

  lemma ListedFrame(s: State, s': State, lists: seq<seq<nat>>)
    requires ListedFit(s, lists)
    requires forall a :: Listed(lists, a) && a in s.taken ==> a in s'.taken && s'.taken[a] == s.taken[a]
    ensures ListedFit(s', lists)
  {
    hide Listed;
    forall k, a | 0 <= k < |lists| && k < LISTS && a in lists[k] ensures FitsList(s', a, k) {
      assert FitsList(s, a, k);
      ListedBy(lists, k, a);
    }
  }

  // ---- alloc from a list ---------------------------------------------------------------------------------

  /** The head of a nonempty list, its successor, and the list without it. */
  lemma PopChain(mem: Memory, head: nat, nodes: seq<nat>)
    requires ChainAt(mem, head, nodes) && head != NULL
    ensures nodes != [] && head == nodes[0] && ChainAt(mem, ReadLE(mem, head, 8), nodes[1..])
  {
    hide ReadLE;
    var rest := nodes[1..];
    forall i | 0 <= i < |rest| ensures Linked(mem, rest, i) {
      assert Linked(mem, nodes, i + 1);
    }
    assert Linked(mem, nodes, 0);
  }

  /** Taking the first node off list `k`. */
  function Popped(lists: seq<seq<nat>>, k: nat): seq<seq<nat>>
    requires k < |lists| && lists[k] != []
  {
    lists[k := lists[k][1..]]
  }

  lemma PoppedListed(lists: seq<seq<nat>>, k: nat, a: nat)
    requires k < |lists| && lists[k] != [] && NoRepeats(lists)
    ensures Listed(Popped(lists, k), a) <==> Listed(lists, a) && a != lists[k][0]
  {
    var lists' := Popped(lists, k);
    assert lists[k] == [lists[k][0]] + lists[k][1..];
    if Listed(lists', a) {
      var j :| 0 <= j < |lists'| && a in lists'[j];
      assert a in lists[j];
      var i :| 0 <= i < |lists'[j]| && lists'[j][i] == a;
      assert Place(lists, k, 0) && Place(lists, j, if j == k then i + 1 else i);
    }
    if Listed(lists, a) && a != lists[k][0] {
      var j :| 0 <= j < |lists| && a in lists[j];
      assert a in lists'[j];
    }
  }

  lemma PoppedNoRepeats(lists: seq<seq<nat>>, k: nat)
    requires k < |lists| && lists[k] != [] && NoRepeats(lists)
    ensures NoRepeats(Popped(lists, k))
  {
    var lists' := Popped(lists, k);
    forall j, i, j', i' | Place(lists', j, i) && Place(lists', j', i') && lists'[j][i] == lists'[j'][i'] ensures j == j' && i == i' {
      assert Place(lists, j, if j == k then i + 1 else i) && Place(lists, j', if j' == k then i' + 1 else i');
    }
  }

  /** What taking a block off list `k` does. */
  ghost predicate PopEffect(s: State, s': State, l: Layout, k: nat, p: nat) {
    && ListIndex(l) == Some(k) && |s.heads| == LISTS && s.heads[k] == p && p != NULL
    && ChangedWithin(s.mem, s'.mem, p, 8) && s'.heads == s.heads[k := ReadLE(s.mem, p, 8)]
    && s'.live == s.live[p := l] && s'.taken == s.taken
  }

  lemma PopDoes(s: State, l: Layout, ans: Answer)
    requires |s.heads| == LISTS && !AsksFallback(s, l)
    ensures var (s', p) := AllocStep(s, l, ans); PopEffect(s, s', l, ListIndex(l).value, p)
  {
    hide ReadLE;
  }

  lemma PopKeepsChains(s: State, s': State, lists: seq<seq<nat>>, l: Layout, k: nat, p: nat)
    requires Chains(s, lists) && Partition(s, lists) && BlocksApart(s) && ListedFit(s, lists) && PopEffect(s, s', l, k, p)
    ensures lists[k] != [] && p == lists[k][0] && Chains(s', Popped(lists, k))
  {
    hide ReadLE;
    PopChain(s.mem, s.heads[k], lists[k]);
    ListedBlock(s, lists, k, 0);
    var lists' := Popped(lists, k);
    forall j | 0 <= j < LISTS ensures ChainAt(s'.mem, s'.heads[j], lists'[j]) {
      forall i | 0 <= i < |lists'[j]| ensures SameBytes(s.mem, s'.mem, lists'[j][i], 8) {
        var i' := if j == k then i + 1 else i;
        assert Place(lists, j, i') && Place(lists, k, 0) && lists'[j][i] == lists[j][i'];
        ListedBlock(s, lists, j, i');
        OtherBlocksKept(s, s'.mem, p, 8, lists'[j][i]);
      }
      ChainFrame(s.mem, s'.mem, s'.heads[j], lists'[j]);
    }
  }

  lemma PopKeepsPartition(s: State, s': State, lists: seq<seq<nat>>, l: Layout, k: nat, p: nat)
    requires Partition(s, lists) && PopEffect(s, s', l, k, p) && |lists| == LISTS && lists[k] != [] && p == lists[k][0]
    ensures Partition(s', Popped(lists, k))
  {
    hide NoRepeats, Listed;
    forall a: nat { PoppedListed(lists, k, a); }
    PoppedNoRepeats(lists, k);
    assert p in lists[k];
    assert Listed(lists, p) by { ListedBy(lists, k, p); }
  }

  lemma ListedBy(lists: seq<seq<nat>>, k: nat, a: nat)
    requires k < |lists| && a in lists[k]
    ensures Listed(lists, a)
  {
  }

  lemma PopKeepsFit(s: State, s': State, lists: seq<seq<nat>>, l: Layout, k: nat, p: nat)
    requires ListedFit(s, lists) && LiveFit(s) && PopEffect(s, s', l, k, p) && ValidLayout(l)
    requires |lists| == LISTS && lists[k] != [] && p == lists[k][0]
    ensures ListedFit(s', Popped(lists, k)) && LiveFit(s')
  {
    hide ValidLayout, ReadLE, ListIndex, FitsList;
    ListedBlock(s, lists, k, 0);
    PoppedServes(s, s', l, k, p);
    var lists' := Popped(lists, k);
    forall j, a | 0 <= j < |lists'| && j < LISTS && a in lists'[j] ensures FitsList(s', a, j) {
      assert a in lists[j] && FitsList(s, a, j);
      SameFit(s, s', a, j);
    }
    forall a | a in s'.live && a != p ensures Serves(s', a, s'.live[a]) {
      assert Serves(s, a, s.live[a]);
    }
  }

  lemma SameFit(s: State, s': State, a: nat, k: nat)
    requires k < LISTS && FitsList(s, a, k) && s'.taken == s.taken
    ensures FitsList(s', a, k)
  {
  }

  lemma PoppedServes(s: State, s': State, l: Layout, k: nat, p: nat)
    requires ValidLayout(l) && PopEffect(s, s', l, k, p) && p in s.taken && s.taken[p] == BLOCK_SIZES[k] && p % BLOCK_SIZES[k] == 0
    ensures Serves(s', p, l)
  {
    hide ReadLE, ValidLayout, ListIndex;
    ListIndexMeaning(l);
    ValidAlign(l);
  }

  lemma ValidAlign(l: Layout)
    requires ValidLayout(l)
    ensures l.align > 0
  {
  }

  lemma PopKeepsBlocks(s: State, s': State, lists: seq<seq<nat>>, l: Layout, k: nat, p: nat)
    requires Blocks(s, lists) && PopEffect(s, s', l, k, p) && ValidLayout(l)
    ensures |lists| == LISTS && lists[k] != [] && p == lists[k][0] && Blocks(s', Popped(lists, k))
  {
    hide Partition, ListedFit, LiveFit, ChainAt, ValidLayout;
    PopKeepsChains(s, s', lists, l, k, p);
    PopKeepsPartition(s, s', lists, l, k, p);
    PopKeepsFit(s, s', lists, l, k, p);
  }

  // ---- alloc from the fallback heap --------------------------------------------------------------------

  ghost predicate TakeEffect(s: State, s': State, l: Layout, ans: Answer) {
    && |s.heads| == LISTS && FallbackAllocates(s, BlockLength(l), BlockAlign(l), ans)
    && s'.mem == ans.mem && s'.heads == s.heads
    && if ans.ptr == NULL then s'.live == s.live && s'.taken == s.taken
       else s'.live == s.live[ans.ptr := l] && s'.taken == s.taken[ans.ptr := BlockLength(l)]
  }

  lemma TakeDoes(s: State, l: Layout, ans: Answer)
    requires |s.heads| == LISTS && AsksFallback(s, l) && FallbackAllocates(s, BlockLength(l), BlockAlign(l), ans)
    ensures var (s', p) := AllocStep(s, l, ans); TakeEffect(s, s', l, ans) && p == ans.ptr
  {
  }

  lemma TakeServes(s: State, s': State, l: Layout, ans: Answer)
    requires LiveFit(s) && TakeEffect(s, s', l, ans) && ValidLayout(l)
    ensures LiveFit(s')
  {
    hide ValidLayout;
    ListIndexMeaning(l);
    ValidAlign(l);
    forall a | a in s'.live ensures Serves(s', a, s'.live[a]) {
      assert a in s.live ==> Serves(s, a, s.live[a]);
    }
  }

  lemma TakeKeepsApart(s: State, s': State, l: Layout, ans: Answer)
    requires BlocksApart(s) && TakeEffect(s, s', l, ans)
    ensures BlocksApart(s')
  {
    hide ListIndex, SameBytes, BlockAlign, BlockLength;
  }

  lemma TakeKeepsPartition(s: State, s': State, lists: seq<seq<nat>>, l: Layout, ans: Answer)
    requires Partition(s, lists) && TakeEffect(s, s', l, ans)
    ensures Partition(s', lists)
  {
    hide NoRepeats, Listed, ListIndex, SameBytes, Apart;
  }

  lemma TakeKeepsBlocks(s: State, s': State, lists: seq<seq<nat>>, l: Layout, ans: Answer)
    requires Blocks(s, lists) && TakeEffect(s, s', l, ans) && ValidLayout(l)
    ensures Blocks(s', lists)
  {
    hide Partition, Listed, BlocksApart, LiveFit, ListedFit, ChainAt, ValidLayout, ListIndex, SameBytes, Apart, BlockAlign, BlockLength;
    ChainsFrame(s, s', lists);
    TakeServes(s, s', l, ans);
    TakeKeepsApart(s, s', l, ans);
    TakeKeepsPartition(s, s', lists, l, ans);
    ListedFrame(s, s', lists);
  }

  // ---- dealloc -------------------------------------------------------------------------------------------

  /** Putting a node in front of list `k`. */
  function Pushed(lists: seq<seq<nat>>, k: nat, p: nat): seq<seq<nat>>
    requires k < |lists|
  {
    lists[k := [p] + lists[k]]
  }

  lemma PushChain(mem: Memory, head: nat, nodes: seq<nat>, p: nat)
    requires ChainAt(mem, head, nodes) && p != NULL && ReadLE(mem, p, 8) == head
    ensures ChainAt(mem, p, [p] + nodes)
  {
    hide ReadLE;
    var longer := [p] + nodes;
    forall i | 0 <= i < |longer| ensures Linked(mem, longer, i) {
      assert i > 0 ==> Linked(mem, nodes, i - 1);
    }
  }

  lemma PushedListed(lists: seq<seq<nat>>, k: nat, p: nat, a: nat)
    requires k < |lists|
    ensures Listed(Pushed(lists, k, p), a) <==> Listed(lists, a) || a == p
  {
    var lists' := Pushed(lists, k, p);
    if Listed(lists', a) && a != p {
      var j :| 0 <= j < |lists'| && a in lists'[j];
      assert a in lists[j];
    }
    if Listed(lists, a) {
      var j :| 0 <= j < |lists| && a in lists[j];
      assert a in lists'[j];
    }
    assert p in lists'[k];
  }

  lemma PushedNoRepeats(lists: seq<seq<nat>>, k: nat, p: nat)
    requires k < |lists| && NoRepeats(lists) && !Listed(lists, p)
    ensures NoRepeats(Pushed(lists, k, p))
  {
    var lists' := Pushed(lists, k, p);
    forall j, i, j', i' | Place(lists', j, i) && Place(lists', j', i') && lists'[j][i] == lists'[j'][i'] ensures j == j' && i == i' {
      OnlyAtFront(lists, k, p, j, i);
      OnlyAtFront(lists, k, p, j', i');
      if !(j == k && i == 0) {
        assert Place(lists, j, if j == k then i - 1 else i) && Place(lists, j', if j' == k then i' - 1 else i');
      }
    }
  }

  lemma OnlyAtFront(lists: seq<seq<nat>>, k: nat, p: nat, j: nat, i: nat)
    requires k < |lists| && !Listed(lists, p) && Place(Pushed(lists, k, p), j, i)
    ensures Pushed(lists, k, p)[j][i] == p <==> j == k && i == 0
    ensures !(j == k && i == 0) ==>
              Place(lists, j, if j == k then i - 1 else i) && Pushed(lists, k, p)[j][i] == lists[j][if j == k then i - 1 else i]
  {
    if !(j == k && i == 0) {
      assert lists[j][if j == k then i - 1 else i] in lists[j];
    }
  }

  ghost predicate PushEffect(s: State, s': State, l: Layout, k: nat, p: nat) {
    && ListIndex(l) == Some(k) && |s.heads| == LISTS && p in s.live && s.live[p] == l
    && ChangedWithin(s.mem, s'.mem, p, 8) && ReadLE(s'.mem, p, 8) == s.heads[k]
    && s'.heads == s.heads[k := p] && s'.live == s.live - {p} && s'.taken == s.taken
  }

  lemma PushDoes(s: State, lists: seq<seq<nat>>, p: nat, after: Memory)
    requires Blocks(s, lists) && p in s.live && ListIndex(s.live[p]).Some?
    ensures PushEffect(s, DeallocStep(s, p, s.live[p], after), s.live[p], ListIndex(s.live[p]).value, p)
  {
    hide ReadLE, ListIndex, Partition, ChainAt, LiveFit, ListedFit;
    var k := ListIndex(s.live[p]).value;
    LiveBlock(s, p);
    assert s.heads[k] < TWO_64 by { HeadInMemory(s, lists, k); }
    ReadWritten(s.mem, p, s.heads[k]);
  }

  lemma HeadInMemory(s: State, lists: seq<seq<nat>>, k: nat)
    requires Chains(s, lists) && BlocksApart(s) && ListedFit(s, lists) && k < LISTS
    ensures s.heads[k] < TWO_64
  {
    assert ChainAt(s.mem, s.heads[k], lists[k]);
    if lists[k] != [] {
      ListedBlock(s, lists, k, 0);
    }
  }

  lemma PushKeepsChains(s: State, s': State, lists: seq<seq<nat>>, l: Layout, k: nat, p: nat)
    requires Chains(s, lists) && Partition(s, lists) && BlocksApart(s) && ListedFit(s, lists) && LiveFit(s) && PushEffect(s, s', l, k, p)
    ensures Chains(s', Pushed(lists, k, p))
  {
    hide ChainAt, BlocksApart, ReadLE, ListIndex, NoRepeats, Listed, LiveFit, ListedFit, ChangedWithin;
    var lists' := Pushed(lists, k, p);
    LiveBlock(s, p);
    NullIsNoBlock(s, p);
    forall j | 0 <= j < LISTS ensures ChainAt(s'.mem, s'.heads[j], lists'[j]) {
      forall i | 0 <= i < |lists[j]| ensures SameBytes(s.mem, s'.mem, lists[j][i], 8) {
        ListedBlock(s, lists, j, i);
        OtherBlocksKept(s, s'.mem, p, 8, lists[j][i]);
      }
      ChainFrame(s.mem, s'.mem, s.heads[j], lists[j]);
      if j == k {
        PushChain(s'.mem, s.heads[j], lists[j], p);
      }
    }
  }

  lemma NullIsNoBlock(s: State, p: nat)
    requires BlocksApart(s) && p in s.taken
    ensures p != NULL
  {
  }

  lemma PushKeepsPartition(s: State, s': State, lists: seq<seq<nat>>, l: Layout, k: nat, p: nat)
    requires Partition(s, lists) && PushEffect(s, s', l, k, p) && |lists| == LISTS
    ensures Partition(s', Pushed(lists, k, p))
  {
    hide NoRepeats, Listed, ReadLE;
    forall a: nat { PushedListed(lists, k, p, a); }
    PushedNoRepeats(lists, k, p);
  }

  lemma PushKeepsFit(s: State, s': State, lists: seq<seq<nat>>, l: Layout, k: nat, p: nat)
    requires ListedFit(s, lists) && LiveFit(s) && PushEffect(s, s', l, k, p) && |lists| == LISTS
    ensures ListedFit(s', Pushed(lists, k, p)) && LiveFit(s')
  {
    hide LiveFit, ReadLE, ListIndex, ChangedWithin;
    LiveBlock(s, p);
    LiveFrame(s, s');
    var lists' := Pushed(lists, k, p);
    forall j, a | 0 <= j < |lists'| && j < LISTS && a in lists'[j] ensures FitsList(s', a, j) {
      assert a in lists[j] || (j == k && a == p);
      assert a in lists[j] ==> FitsList(s, a, j);
    }
  }

  lemma PushKeepsBlocks(s: State, s': State, lists: seq<seq<nat>>, l: Layout, k: nat, p: nat)
    requires Blocks(s, lists) && PushEffect(s, s', l, k, p)
    ensures Blocks(s', Pushed(lists, k, p))
  {
    hide Partition, ListedFit, LiveFit, ChainAt, ReadLE;
    PushKeepsChains(s, s', lists, l, k, p);
    PushKeepsPartition(s, s', lists, l, k, p);
    PushKeepsFit(s, s', lists, l, k, p);
  }

  /** A block too large for the lists goes back to the fallback heap. */
  ghost predicate GiveBackEffect(s: State, s': State, p: nat) {
    && p in s.live && ListIndex(s.live[p]).None? && s'.heads == s.heads
    && s'.live == s.live - {p} && s'.taken == s.taken - {p} && KeepsBlocks(s.mem, s'.mem, s'.taken)
  }

  lemma GiveBackKeepsBlocks(s: State, s': State, lists: seq<seq<nat>>, p: nat)
    requires Blocks(s, lists) && GiveBackEffect(s, s', p)
    ensures Blocks(s', lists)
  {
    hide NoRepeats, Listed, ChainAt, ListIndex, SameBytes, LiveFit, ListedFit;
    forall a | Listed(lists, a) && a in s.taken ensures a in s'.taken && SameBytes(s.mem, s'.mem, a, s.taken[a]) {
      assert a != p;
    }
    ChainsFrame(s, s', lists);
    ListedFrame(s, s', lists);
    LiveFrame(s, s');
  }
}
