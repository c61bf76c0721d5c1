/** The block allocator over whole runs, and the allocator object itself. */
module BlockHeapRuns {
  import opened Bits
  import opened PhysicalMemory
  import opened Collections
  import opened BlockHeap

  /** What a program may do with its heap; `answer` and `after` are the fallback heap's part. */
  datatype Event =
    | Alloc(layout: Layout, answer: Answer)
    | Dealloc(ptr: nat, after: Memory)
    | Write(ptr: nat, offset: nat, bytes: seq<Byte>)

  /** Layouts are valid, only live blocks are freed and written, writes stay inside, and the
      fallback heap keeps its contract. */
  ghost predicate Allowed(s: State, e: Event)
    requires |s.heads| == LISTS
  {
    match e
    case Alloc(l, ans) => ValidLayout(l) && (AsksFallback(s, l) ==> FallbackAllocates(s, BlockLength(l), BlockAlign(l), ans))
    case Dealloc(p, after) => p in s.live && (ListIndex(s.live[p]).None? ==> KeepsBlocks(s.mem, after, s.taken - {p}))
    case Write(p, offset, bytes) => p in s.live && offset + |bytes| <= s.live[p].size
  }

  function Apply(s: State, e: Event): (s': State)
    requires |s.heads| == LISTS
    ensures |s'.heads| == LISTS
  {
    match e
    case Alloc(l, ans) => AllocStep(s, l, ans).0
    case Dealloc(p, after) => if p in s.live then DeallocStep(s, p, s.live[p], after) else s
    case Write(p, offset, bytes) => s.(mem := Store(s.mem, p + offset, bytes))
  }

  function Run(s: State, events: seq<Event>): (s': State)
    requires |s.heads| == LISTS
    ensures |s'.heads| == LISTS
    decreases |events|
  {
    if events == [] then s else Run(Apply(s, events[0]), events[1..])
  }

  ghost predicate AllowedRun(s: State, events: seq<Event>)
    requires |s.heads| == LISTS
    decreases |events|
  {
    events == [] || (Allowed(s, events[0]) && AllowedRun(Apply(s, events[0]), events[1..]))
  }

  /** Before the first allocation. */
  function Fresh(mem: Memory): State { State(mem, seq(LISTS, i => NULL), map[], map[]) }

  lemma FreshInv(mem: Memory)
    requires |mem| <= TWO_64
    ensures Inv(Fresh(mem))
  {
    var s := Fresh(mem);
    var lists: seq<seq<nat>> := seq(LISTS, i => []);
    assert forall a: nat :: !Listed(lists, a);
    assert Blocks(s, lists);
  }

  // ---- Each event -----------------------------------------------------------------------------------

  /** A store inside a live block. */
  lemma WriteKeepsBlocks(s: State, lists: seq<seq<nat>>, p: nat, offset: nat, bytes: seq<Byte>)
    requires Blocks(s, lists) && Allowed(s, Write(p, offset, bytes))
    ensures Blocks(s.(mem := Store(s.mem, p + offset, bytes)), lists)
    ensures ChangedWithin(s.mem, Store(s.mem, p + offset, bytes), p, s.live[p].size)
  {
    hide NoRepeats, Listed, ChainAt, ListIndex, LiveFit, ListedFit, SameBytes, ChangedWithin;
    var s' := s.(mem := Store(s.mem, p + offset, bytes));
    LiveInMemory(s, p);
    WriteWithin(s.mem, p, offset, bytes, s.live[p].size);
    forall a | Listed(lists, a) && a in s.taken ensures SameBytes(s.mem, s'.mem, a, s.taken[a]) {
      OtherBlocksKept(s, s'.mem, p, s.live[p].size, a);
    }
    ChainsFrame(s, s', lists);
    ListedFrame(s, s', lists);
    LiveFrame(s, s');
  }

  lemma WriteWithin(mem: Memory, p: nat, offset: nat, bytes: seq<Byte>, n: nat)
    requires offset + |bytes| <= n
    ensures ChangedWithin(mem, Store(mem, p + offset, bytes), p, n)
  {
  }

  lemma LiveInMemory(s: State, p: nat)
    requires LiveFit(s) && BlocksApart(s) && p in s.live
    ensures p in s.taken && s.live[p].size <= s.taken[p] && p + s.live[p].size <= |s.mem| && p != NULL
    ensures s.live[p].align > 0 && p % s.live[p].align == 0
  {
    hide ValidLayout, ListIndex;
    assert Serves(s, p, s.live[p]);
  }

  lemma AllocKeepsInv(s: State, l: Layout, ans: Answer)
    requires Inv(s) && |s.heads| == LISTS && Allowed(s, Alloc(l, ans))
    ensures Inv(AllocStep(s, l, ans).0)
  {
    hide Blocks, AllocStep, FallbackAllocates, ValidLayout, PopEffect, TakeEffect;
    var lists :| Blocks(s, lists);
    var (s', p) := AllocStep(s, l, ans);
    if AsksFallback(s, l) {
      TakeDoes(s, l, ans);
      TakeKeepsBlocks(s, s', lists, l, ans);
    } else {
      PopDoes(s, l, ans);
      PopKeepsBlocks(s, s', lists, l, ListIndex(l).value, p);
    }
  }

  lemma DeallocKeepsInv(s: State, p: nat, after: Memory)
    requires Inv(s) && |s.heads| == LISTS && Allowed(s, Dealloc(p, after))
    ensures Inv(DeallocStep(s, p, s.live[p], after))
  {
    hide Blocks, PushEffect, ListIndex, KeepsBlocks;
    var lists :| Blocks(s, lists);
    var s' := DeallocStep(s, p, s.live[p], after);
    if ListIndex(s.live[p]).Some? {
      PushDoes(s, lists, p, after);
      PushKeepsBlocks(s, s', lists, s.live[p], ListIndex(s.live[p]).value, p);
    } else {
      GiveBackKeepsBlocks(s, s', lists, p);
    }
  }

  lemma ApplyKeepsInv(s: State, e: Event)
    requires Inv(s) && |s.heads| == LISTS && Allowed(s, e)
    ensures Inv(Apply(s, e))
  {
    match e {
      case Alloc(l, ans) =>
        hide Inv, AllocStep, Allowed;
        AllocKeepsInv(s, l, ans);
      case Dealloc(p, after) =>
        hide Inv, DeallocStep, Allowed;
        assert p in s.live by { DeallocLive(s, p, after); }
        DeallocKeepsInv(s, p, after);
      case Write(p, offset, bytes) =>
        hide Blocks, Allowed;
        var lists :| Blocks(s, lists);
        WriteKeepsBlocks(s, lists, p, offset, bytes);
    }
  }

  lemma DeallocLive(s: State, p: nat, after: Memory)
    requires |s.heads| == LISTS && Allowed(s, Dealloc(p, after))
    ensures p in s.live
  {
  }

  lemma {:induction false} RunKeepsInv(s: State, events: seq<Event>)
    requires Inv(s) && |s.heads| == LISTS && AllowedRun(s, events)
    ensures Inv(Run(s, events))
    decreases |events|
  {
    hide Inv, Apply, Allowed;
    if events != [] {
      ApplyKeepsInv(s, events[0]);
      RunKeepsInv(Apply(s, events[0]), events[1..]);
    }
  }

  /** Heap safety over every run of allocations, deallocations and writes: live and listed blocks
      partition what the fallback heap handed out, all are apart and fit, and no list has a cycle. */
  lemma HeapSafety(mem: Memory, events: seq<Event>)
    requires |mem| <= TWO_64 && AllowedRun(Fresh(mem), events)
    ensures Inv(Run(Fresh(mem), events))
  {
    hide Inv, Run, AllowedRun;
    FreshInv(mem);
    RunKeepsInv(Fresh(mem), events);
  }

  // ---- What callers see -------------------------------------------------------------------------------

  /** A block returned by alloc is aligned, inside the memory, and apart from every live block. */
  lemma AllocGives(s: State, l: Layout, ans: Answer)
    requires Inv(s) && |s.heads| == LISTS && Allowed(s, Alloc(l, ans)) && AllocStep(s, l, ans).1 != NULL
    ensures var (s', p) := AllocStep(s, l, ans);
            && p !in s.live && s'.live == s.live[p := l]
            && l.align > 0 && p % l.align == 0 && p + l.size <= |s'.mem|
            && forall a :: a in s.live ==> Apart(a, s.live[a].size, p, l.size)
  {
    hide Blocks, AllocStep, FallbackAllocates, ListIndex, PopEffect, TakeEffect, ValidLayout, BlocksApart;
    var (s', p) := AllocStep(s, l, ans);
    var lists :| Blocks(s, lists);
    var lists': seq<seq<nat>>;
    if AsksFallback(s, l) {
      TakeDoes(s, l, ans);
      TakeKeepsBlocks(s, s', lists, l, ans);
      TakenIsNew(s, s', lists, l, ans);
      lists' := lists;
    } else {
      PopDoes(s, l, ans);
      PopKeepsBlocks(s, s', lists, l, ListIndex(l).value, p);
      PoppedIsNew(s, s', lists, l, ListIndex(l).value, p);
      lists' := Popped(lists, ListIndex(l).value);
    }
    GivenIsApart(s, s', lists', l, p);
  }

  lemma TakenIsNew(s: State, s': State, lists: seq<seq<nat>>, l: Layout, ans: Answer)
    requires Blocks(s, lists) && TakeEffect(s, s', l, ans) && ans.ptr != NULL
    ensures ans.ptr !in s.live && s'.live == s.live[ans.ptr := l]
  {
    hide Listed, NoRepeats, ListIndex, KeepsBlocks;
  }

  lemma PoppedIsNew(s: State, s': State, lists: seq<seq<nat>>, l: Layout, k: nat, p: nat)
    requires Blocks(s, lists) && PopEffect(s, s', l, k, p) && lists[k] != [] && p == lists[k][0]
    ensures p !in s.live && s'.live == s.live[p := l]
  {
    hide Listed, NoRepeats, ListIndex, ReadLE;
    ListedBy(lists, k, p);
  }

  lemma GivenIsApart(s: State, s': State, lists: seq<seq<nat>>, l: Layout, p: nat)
    requires Blocks(s', lists) && p !in s.live && s'.live == s.live[p := l]
    ensures l.align > 0 && p % l.align == 0 && p + l.size <= |s'.mem|
    ensures forall a :: a in s.live ==> Apart(a, s.live[a].size, p, l.size)
  {
    hide Chains, Partition, LiveFit, ListedFit, BlocksApart;
    LiveInMemory(s', p);
    forall a | a in s.live ensures Apart(a, s.live[a].size, p, l.size) {
      LiveInMemory(s', a);
      TakenApart(s', a, p);
    }
  }

  lemma TakenApart(s: State, a: nat, b: nat)
    requires BlocksApart(s) && a in s.taken && b in s.taken && a != b
    ensures Apart(a, s.taken[a], b, s.taken[b])
  {
  }

  /** Does an event free or write this block? */
  predicate Concerns(e: Event, a: nat) { !e.Alloc? && e.ptr == a }

  /** No event changes the data of a live block that it does not concern: in particular neither
      the node that dealloc writes nor the link that alloc clears lies in a live block. */
  lemma LiveDataKept(s: State, e: Event, a: nat)
    requires Inv(s) && |s.heads| == LISTS && Allowed(s, e) && a in s.live && !Concerns(e, a)
    ensures var s' := Apply(s, e);
            a in s'.live && s'.live[a] == s.live[a] && SameBytes(s.mem, s'.mem, a, s.live[a].size)
  {
    hide Blocks, AllocStep, DeallocStep, Allowed, SameBytes, ListIndex;
    var lists :| Blocks(s, lists);
    match e {
      case Alloc(l, ans) => AllocKeepsData(s, lists, l, ans, a);
      case Dealloc(p, after) =>
        DeallocLive(s, p, after);
        DeallocKeepsData(s, lists, p, after, a);
      case Write(p, offset, bytes) =>
        WriteKeepsData(s, lists, p, offset, bytes, a);
    }
  }

  lemma ShorterSame(mem: Memory, mem': Memory, a: nat, n: nat, m: nat)
    requires SameBytes(mem, mem', a, n) && m <= n
    ensures SameBytes(mem, mem', a, m)
  {
  }

  lemma WithinKeepsData(s: State, lists: seq<seq<nat>>, mem': Memory, p: nat, n: nat, a: nat)
    requires Blocks(s, lists) && p in s.taken && n <= s.taken[p] && ChangedWithin(s.mem, mem', p, n) && a in s.live && a != p
    ensures SameBytes(s.mem, mem', a, s.live[a].size)
  {
    hide Chains, Partition, LiveFit, ListedFit, BlocksApart, SameBytes, ChangedWithin;
    LiveInMemory(s, a);
    OtherBlocksKept(s, mem', p, n, a);
    ShorterSame(s.mem, mem', a, s.taken[a], s.live[a].size);
  }

  lemma AllocKeepsData(s: State, lists: seq<seq<nat>>, l: Layout, ans: Answer, a: nat)
    requires Blocks(s, lists) && |s.heads| == LISTS && Allowed(s, Alloc(l, ans)) && a in s.live
    ensures var s' := AllocStep(s, l, ans).0;
            a in s'.live && s'.live[a] == s.live[a] && SameBytes(s.mem, s'.mem, a, s.live[a].size)
  {
    hide Chains, Partition, LiveFit, ListedFit, BlocksApart, AllocStep, SameBytes, ChangedWithin, ListIndex, ValidLayout, ReadLE;
    var (s', p) := AllocStep(s, l, ans);
    if AsksFallback(s, l) {
      TakeDoes(s, l, ans);
      LiveInMemory(s, a);
      ShorterSame(s.mem, s'.mem, a, s.taken[a], s.live[a].size);
      if ans.ptr != NULL {
        TakenIsNew(s, s', lists, l, ans);
      }
    } else {
      PopDoes(s, l, ans);
      var k := ListIndex(l).value;
      PopKeepsBlocks(s, s', lists, l, k, p);
      PoppedIsNew(s, s', lists, l, k, p);
      ListedBlock(s, lists, k, 0);
      WithinKeepsData(s, lists, s'.mem, p, 8, a);
    }
  }

  lemma DeallocKeepsData(s: State, lists: seq<seq<nat>>, p: nat, after: Memory, a: nat)
    requires Blocks(s, lists) && |s.heads| == LISTS && Allowed(s, Dealloc(p, after)) && a in s.live && a != p
    ensures var s' := DeallocStep(s, p, s.live[p], after);
            a in s'.live && s'.live[a] == s.live[a] && SameBytes(s.mem, s'.mem, a, s.live[a].size)
  {
    hide Chains, Partition, LiveFit, ListedFit, BlocksApart, SameBytes, ListIndex, ReadLE, Write64;
    var s' := DeallocStep(s, p, s.live[p], after);
    LiveInMemory(s, a);
    if ListIndex(s.live[p]).Some? {
      PushDoes(s, lists, p, after);
      LiveBlock(s, p);
      WithinKeepsData(s, lists, s'.mem, p, 8, a);
    } else {
      assert a in s.taken - {p};
      ShorterSame(s.mem, s'.mem, a, (s.taken - {p})[a], s.live[a].size);
    }
  }

  lemma WriteKeepsData(s: State, lists: seq<seq<nat>>, p: nat, offset: nat, bytes: seq<Byte>, a: nat)
    requires Blocks(s, lists) && |s.heads| == LISTS && Allowed(s, Write(p, offset, bytes)) && a in s.live && a != p
    ensures SameBytes(s.mem, Store(s.mem, p + offset, bytes), a, s.live[a].size)
  {
    hide Chains, Partition, LiveFit, ListedFit, BlocksApart, SameBytes, ListIndex, Store;
    WriteKeepsBlocks(s, lists, p, offset, bytes);
    LiveInMemory(s, p);
    WithinKeepsData(s, lists, Store(s.mem, p + offset, bytes), p, s.live[p].size, a);
  }

  /** Data survives any run that does not free or write its block. */
  lemma {:induction false} DataSurvives(s: State, events: seq<Event>, a: nat)
    requires Inv(s) && |s.heads| == LISTS && AllowedRun(s, events) && a in s.live
    requires forall i :: 0 <= i < |events| ==> !Concerns(events[i], a)
    ensures var s' := Run(s, events);
            a in s'.live && s'.live[a] == s.live[a] && SameBytes(s.mem, s'.mem, a, s.live[a].size)
    decreases |events|
  {
    hide Inv, Apply, Allowed;
    if events != [] {
      assert !Concerns(events[0], a);
      ApplyKeepsInv(s, events[0]);
      LiveDataKept(s, events[0], a);
      DataSurvives(Apply(s, events[0]), events[1..], a);
    }
  }

  /** A freed block is the next one handed out for its list, and taking it leaves everything but
      its own first word as before it was freed. */
  lemma FreedBlockIsReused(s: State, p: nat, l: Layout, after: Memory, ans: Answer)
    requires Inv(s) && |s.heads| == LISTS && p in s.live && ListIndex(s.live[p]).Some? && ListIndex(l) == ListIndex(s.live[p])
    ensures var s1 := DeallocStep(s, p, s.live[p], after);
            var (s2, q) := AllocStep(s1, l, ans);
            && q == p && s2.heads == s.heads && s2.live == s.live[p := l] && s2.taken == s.taken
            && ChangedWithin(s.mem, s2.mem, p, NODE_SIZE)
  {
    hide Blocks, ReadLE, ListIndex, Write64;
    var lists :| Blocks(s, lists);
    PushDoes(s, lists, p, after);
    assert p != NULL by {
      hide Chains, Partition, LiveFit, ListedFit, BlocksApart;
      LiveNotNull(s, lists, p);
    }
    var s1 := DeallocStep(s, p, s.live[p], after);
    PopDoes(s1, l, ans);
  }

  lemma LiveNotNull(s: State, lists: seq<seq<nat>>, p: nat)
    requires Blocks(s, lists) && p in s.live
    ensures p != NULL
  {
    hide Chains, Partition, LiveFit, ListedFit, BlocksApart;
    LiveInMemory(s, p);
  }

  // ---- The allocator object ----------------------------------------------------------------------------

  class FixedSizeBlockAllocator {
    var listHeads: seq<nat>
    var memory: Memory
    ghost var live: map<nat, Layout>
    ghost var taken: map<nat, nat>

    ghost function View(): State
      reads this
    {
      State(memory, listHeads, live, taken)
    }

    ghost predicate Valid()
      reads this
    {
      |listHeads| == LISTS && Inv(View())
    }

    /** new and init. */
    constructor (memory: Memory)
      requires |memory| <= TWO_64
      ensures Valid() && View() == Fresh(memory)
    {
      this.listHeads := seq(LISTS, i => NULL);
      this.memory := memory;
      live, taken := map[], map[];
      new;
      FreshInv(memory);
    }

    /** fallback_alloc: `answer` is what the fallback heap does. */
    method FallbackAlloc(layout: Layout, answer: Answer) returns (ptr: nat)
      modifies `memory
      ensures memory == answer.mem && ptr == answer.ptr
    {
      memory := answer.mem;
      ptr := answer.ptr;
    }

    method Alloc(layout: Layout, answer: Answer) returns (ptr: nat)
      requires Valid() && Allowed(View(), Event.Alloc(layout, answer))
      modifies this
      ensures Valid() && (View(), ptr) == AllocStep(old(View()), layout, answer)
    {
      hide Inv, FallbackAllocates, ValidLayout, ReadLE, Write64;
      ghost var before := View();
      var index := ListIndex(layout);
      match index {
        case Some(k) =>
          var head := listHeads[k];
          if head != NULL {
            listHeads := listHeads[k := ReadLE(memory, head, 8)];
            memory := Write64(memory, head, NULL);
            ptr := head;
            live := live[head := layout];
          } else {
            var blockSize := BLOCK_SIZES[k];
            ptr := FallbackAlloc(Layout(blockSize, blockSize), answer);
            Record(layout, ptr);
          }
        case None =>
          ptr := FallbackAlloc(layout, answer);
          Record(layout, ptr);
      }
      assert (View(), ptr) == AllocStep(before, layout, answer);
      AllocKeepsInv(before, layout, answer);
    }

    /** Bookkeeping for the statements only. */
    ghost method Record(layout: Layout, ptr: nat)
      modifies `live, `taken
      ensures live == (if ptr == NULL then old(live) else old(live)[ptr := layout])
      ensures taken == (if ptr == NULL then old(taken) else old(taken)[ptr := BlockLength(layout)])
    {
      if ptr != NULL {
        live := live[ptr := layout];
        taken := taken[ptr := BlockLength(layout)];
      }
    }

    method Dealloc(ptr: nat, layout: Layout, after: Memory)
      requires Valid() && ptr in live && live[ptr] == layout && Allowed(View(), Event.Dealloc(ptr, after))
      modifies this
      ensures Valid() && View() == DeallocStep(old(View()), ptr, layout, after)
    {
      hide Inv, KeepsBlocks, Write64;
      DeallocKeepsInv(View(), ptr, after);
      var index := ListIndex(layout);
      match index {
        case Some(k) =>
          var next := listHeads[k];
          assert NODE_SIZE <= BLOCK_SIZES[k] by { BlocksHoldNodes(k); }
          memory := Write64(memory, ptr, next);
          listHeads := listHeads[k := ptr];
        case None =>
          memory := after;
          taken := taken - {ptr};
      }
      live := live - {ptr};
    }
  }
}
