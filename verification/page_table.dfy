/** Four-level page tables (shared_lib/src/page_table.rs; section 4.5 of the Intel SDM, volume
    3A).  A table is 512 little-endian 64-bit words in physical memory. */
module PageTables {
  import opened Bits
  import opened VirtualAddress
  import opened PhysicalMemory
  import opened Collections
  import opened FrameAllocation

  // ---- Entries ---------------------------------------------------------------------------

  const PRESENT: nat := 1
  const WRITABLE: nat := 2
  const FRAME_MASK: nat := 0x000f_ffff_ffff_f000

  predicate IsPresent(e: nat) { e % 2 == 1 }

  /** The frame address an entry holds. */
  function EntryAddr(e: nat): nat { e / 4096 % 0x100_0000_0000 * 4096 }

  /** The word stored for a present, writable entry. */
  function EntryFor(phys: nat): nat { phys + 3 }

  /** The three definitions above are the source's bit operations. */
  lemma EntryBitOperations(e: nat, phys: nat)
    requires phys % 4096 == 0
    ensures And(e, PRESENT) == PRESENT <==> IsPresent(e)
    ensures And(e, FRAME_MASK) == EntryAddr(e)
    ensures Or(phys, Or(PRESENT, WRITABLE)) == EntryFor(phys)
  {
    AndOne(e);
    AndFrameBits(e);
    OrPageFlags(phys, 3);
  }

  /** Storing an aligned address and reading it back keeps the low 52 bits and no more. */
  lemma EntryRoundTrip(phys: U64)
    requires phys % 4096 == 0
    ensures IsPresent(EntryFor(phys)) && EntryFor(phys) < TWO_64
    ensures EntryAddr(EntryFor(phys)) == phys % TWO_52
    ensures EntryAddr(EntryFor(phys)) == phys <==> phys < TWO_52
  {
    FrameNumberBits(phys / 4096);
  }

  /** An aligned address just above the 52 bits reads back as zero. */
  lemma HighAddressIsLost()
    ensures EntryAddr(EntryFor(TWO_52)) == 0
  {
    hide EntryAddr, EntryFor;
    EntryRoundTrip(TWO_52);
  }

  lemma FrameNumberBits(n: nat)
    ensures (4096 * n + 3) / 4096 == n
    ensures 4096 * n % TWO_52 == n % 0x100_0000_0000 * 4096
  {
  }

  // ---- Tables and walks ------------------------------------------------------------------

  function Entry(m: Memory, table: nat, i: nat): nat {
    ReadLE(m, table + 8 * i, 8)
  }

  /** Follows a path of indices from a table; None at the first entry that is not present. */
  function Walk(m: Memory, table: nat, path: seq<nat>): Option<nat>
    decreases |path|
  {
    if path == [] then Some(table)
    else if IsPresent(Entry(m, table, path[0])) then Walk(m, EntryAddr(Entry(m, table, path[0])), path[1..])
    else None
  }

  ghost predicate ValidPath(p: seq<nat>) {
    forall k :: 0 <= k < |p| ==> p[k] < 512
  }

  lemma {:induction false} WalkAppend(m: Memory, table: nat, p: seq<nat>, q: seq<nat>)
    ensures Walk(m, table, p + q) ==
            match Walk(m, table, p) { case None => None case Some(t) => Walk(m, t, q) }
    decreases |p|
  {
    if p == [] {
      assert p + q == q;
    } else {
      assert (p + q)[1..] == p[1..] + q;
      if IsPresent(Entry(m, table, p[0])) {
        WalkAppend(m, EntryAddr(Entry(m, table, p[0])), p[1..], q);
      }
    }
  }

  // ---- The shape kept by every operation ---------------------------------------------------

  type Paths = map<nat, seq<nat>>

  /** `paths` names every table by the walk that leads to it: the root by the empty walk, and
      what a present entry of a level 4, 3 or 2 table points to by one step more. */
  ghost predicate Shape(m: Memory, root: nat, paths: Paths) {
    && root in paths && paths[root] == []
    && (forall t :: t in paths ==> TablePlace(m, t) && |paths[t]| <= 3 && ValidPath(paths[t]))
    && (forall t, i :: t in paths && 0 <= i < 512 && |paths[t]| < 3 && IsPresent(Entry(m, t, i)) ==>
          EntryAddr(Entry(m, t, i)) in paths && paths[EntryAddr(Entry(m, t, i))] == paths[t] + [i])
    && (forall t :: t in paths ==> Walk(m, root, paths[t]) == Some(t))
  }

  predicate TablePlace(m: Memory, t: nat) {
    t % 4096 == 0 && t + 4096 <= |m| && t < TWO_52
  }

  /** What linking a fresh cleared table `f` into entry `i` of `t` does to the entries. */
  ghost predicate Linked(m: Memory, m': Memory, t: nat, i: nat, f: nat) {
    && |m'| == |m|
    && Entry(m', t, i) == EntryFor(f)
    && (forall j :: 0 <= j < 512 ==> Entry(m', f, j) == 0)
    && (forall u: nat, j: nat :: u % 4096 == 0 && j < 512 && u != f && !(u == t && j == i) ==>
          Entry(m', u, j) == Entry(m, u, j))
  }

  /** What overwriting entry `i` of `t` does to the entries. */
  ghost predicate Overwritten(m: Memory, m': Memory, t: nat, i: nat, e: nat) {
    && |m'| == |m|
    && Entry(m', t, i) == e
    && (forall u: nat, j: nat :: u % 4096 == 0 && j < 512 && !(u == t && j == i) ==>
          Entry(m', u, j) == Entry(m, u, j))
  }

  lemma WriteOverwrites(m: Memory, t: nat, i: nat, e: nat)
    requires t % 4096 == 0 && i < 512 && t + 4096 <= |m| && e < TWO_64
    ensures Overwritten(m, Write64(m, t + 8 * i, e), t, i, e)
  {
    var m' := Write64(m, t + 8 * i, e);
    ReadWritten(m, t + 8 * i, e);
    forall u: nat, j: nat | u % 4096 == 0 && j < 512 && !(u == t && j == i)
      ensures Entry(m', u, j) == Entry(m, u, j)
    {
      EntriesApart(t, i, u, j);
      ReadLocal(m, m', u + 8 * j, 8);
    }
  }

  lemma EntriesApart(t: nat, i: nat, u: nat, j: nat)
    requires t % 4096 == 0 && u % 4096 == 0 && i < 512 && j < 512 && !(u == t && j == i)
    ensures u + 8 * j + 8 <= t + 8 * i || t + 8 * i + 8 <= u + 8 * j
  {
  }

  function ClearTable(m: Memory, f: nat): Memory {
    Store(m, f, Zeros(4096))
  }

  lemma ClearedEntries(m: Memory, f: nat)
    requires f % 4096 == 0 && f + 4096 <= |m|
    ensures |ClearTable(m, f)| == |m|
    ensures forall j :: 0 <= j < 512 ==> Entry(ClearTable(m, f), f, j) == 0
    ensures forall u: nat, j: nat :: u % 4096 == 0 && j < 512 && u != f ==>
              Entry(ClearTable(m, f), u, j) == Entry(m, u, j)
  {
    var m' := ClearTable(m, f);
    forall j | 0 <= j < 512 ensures Entry(m', f, j) == 0 {
      ReadZeros(m', f + 8 * j, 8);
    }
    forall u: nat, j: nat | u % 4096 == 0 && j < 512 && u != f ensures Entry(m', u, j) == Entry(m, u, j) {
      ReadLocal(m, m', u + 8 * j, 8);
    }
  }

  lemma LinkEntries(m: Memory, t: nat, i: nat, f: nat)
    requires TablePlace(m, t) && TablePlace(m, f) && t != f && i < 512
    ensures Linked(m, Write64(ClearTable(m, f), t + 8 * i, EntryFor(f)), t, i, f)
  {
    ClearedEntries(m, f);
    WriteOverwrites(ClearTable(m, f), t, i, EntryFor(f));
  }

  // ---- Linking a table: the shape grows, no page moves -------------------------------------

  ghost predicate CanLink(m: Memory, m': Memory, root: nat, paths: Paths, t: nat, i: nat, f: nat) {
    && Shape(m, root, paths) && Linked(m, m', t, i, f)
    && t in paths && |paths[t]| < 3 && i < 512 && !IsPresent(Entry(m, t, i))
    && f !in paths && TablePlace(m, f)
  }

  lemma LinkedEntry(f: nat)
    requires f % 4096 == 0 && f < TWO_52
    ensures IsPresent(EntryFor(f)) && EntryAddr(EntryFor(f)) == f && !IsPresent(0)
  {
    EntryRoundTrip(f);
  }

  /** No walk of full length changes: it ended at the missing entry, and ends in the empty table now. */
  lemma {:induction false} WalkAfterLink(m: Memory, m': Memory, root: nat, paths: Paths, t: nat, i: nat, f: nat,
                                         u: nat, s: seq<nat>)
    requires CanLink(m, m', root, paths, t, i, f)
    requires u in paths && ValidPath(s) && |paths[u]| + |s| == 4
    ensures Walk(m', u, s) == Walk(m, u, s)
    decreases |s|
  {
    LinkedEntry(f);
    if u == t && s[0] == i {
      assert s[1..][0] == s[1];
      assert Entry(m', f, s[1]) == 0;
    } else if |s| > 1 && IsPresent(Entry(m, u, s[0])) {
      WalkAfterLink(m, m', root, paths, t, i, f, EntryAddr(Entry(m, u, s[0])), s[1..]);
    }
  }

  /** Walks to existing tables stay. */
  lemma {:induction false} TableWalkAfterLink(m: Memory, m': Memory, root: nat, paths: Paths, t: nat, i: nat, f: nat,
                                              u: nat, s: seq<nat>)
    requires CanLink(m, m', root, paths, t, i, f)
    requires u in paths && ValidPath(s) && |paths[u]| + |s| <= 3 && Walk(m, u, s).Some?
    ensures Walk(m', u, s) == Walk(m, u, s)
    decreases |s|
  {
    if s != [] {
      TableWalkAfterLink(m, m', root, paths, t, i, f, EntryAddr(Entry(m, u, s[0])), s[1..]);
    }
  }

  lemma ShapeAfterLink(m: Memory, m': Memory, root: nat, paths: Paths, t: nat, i: nat, f: nat)
    requires CanLink(m, m', root, paths, t, i, f)
    ensures Shape(m', root, paths[f := paths[t] + [i]])
  {
    var paths' := paths[f := paths[t] + [i]];
    LinkedEntry(f);
    forall u | u in paths' ensures Walk(m', root, paths'[u]) == Some(u) {
      TableWalkAfterLink(m, m', root, paths, t, i, f, root, if u == f then paths[t] else paths[u]);
      if u == f {
        WalkAppend(m', root, paths[t], [i]);
        assert Walk(m', t, [i]) == Walk(m', f, []);
      }
    }
    forall u, j | u in paths' && 0 <= j < 512 && |paths'[u]| < 3 && IsPresent(Entry(m', u, j))
      ensures EntryAddr(Entry(m', u, j)) in paths' && paths'[EntryAddr(Entry(m', u, j))] == paths'[u] + [j]
    {
      if u != f && !(u == t && j == i) {
        assert Entry(m', u, j) == Entry(m, u, j);
      }
    }
  }

  // ---- Writing a leaf: one page moves, all others stay -------------------------------------

  ghost predicate CanSet(m: Memory, m': Memory, root: nat, paths: Paths, t: nat, i: nat, e: nat) {
    && Shape(m, root, paths) && Overwritten(m, m', t, i, e) && IsPresent(e)
    && t in paths && |paths[t]| == 3 && i < 512
  }

  /** Two tables with the same walk from the root are the same table. */
  lemma TableNamedByPath(m: Memory, root: nat, paths: Paths, t: nat, u: nat)
    requires Shape(m, root, paths) && t in paths && u in paths && paths[t] == paths[u]
    ensures t == u
  {
    assert Walk(m, root, paths[t]) == Some(t) && Walk(m, root, paths[u]) == Some(u);
  }

  lemma {:induction false} WalkAfterSet(m: Memory, m': Memory, root: nat, paths: Paths, t: nat, i: nat, e: nat,
                                        u: nat, s: seq<nat>)
    requires CanSet(m, m', root, paths, t, i, e)
    requires u in paths && ValidPath(s) && |paths[u]| + |s| == 4
    ensures Walk(m', u, s) == if paths[u] + s == paths[t] + [i] then Some(EntryAddr(e)) else Walk(m, u, s)
    decreases |s|
  {
    if |s| == 1 {
      LeafAfterSet(m, m', root, paths, t, i, e, u, s);
    } else {
      assert Entry(m', u, s[0]) == Entry(m, u, s[0]);
      if IsPresent(Entry(m, u, s[0])) {
        var c := ChildOf(m, root, paths, u, s);
        WalkAfterSet(m, m', root, paths, t, i, e, c, s[1..]);
      } else {
        AbsentPrefix(m, root, paths, t, i, u, s);
      }
    }
  }

  lemma LeafAfterSet(m: Memory, m': Memory, root: nat, paths: Paths, t: nat, i: nat, e: nat, u: nat, s: seq<nat>)
    requires CanSet(m, m', root, paths, t, i, e)
    requires u in paths && ValidPath(s) && |paths[u]| == 3 && |s| == 1
    ensures Walk(m', u, s) == if paths[u] + s == paths[t] + [i] then Some(EntryAddr(e)) else Walk(m, u, s)
  {
    SameLeaf(m, root, paths, t, i, u, s);
    assert s[1..] == [];
  }

  lemma ChildOf(m: Memory, root: nat, paths: Paths, u: nat, s: seq<nat>) returns (c: nat)
    requires Shape(m, root, paths) && u in paths && ValidPath(s) && |s| > 1 && |paths[u]| + |s| == 4
    requires IsPresent(Entry(m, u, s[0]))
    ensures c == EntryAddr(Entry(m, u, s[0]))
    ensures c in paths && |paths[c]| == |paths[u]| + 1 && paths[c] + s[1..] == paths[u] + s
    ensures ValidPath(s[1..]) && Walk(m, u, s) == Walk(m, c, s[1..])
  {
    c := EntryAddr(Entry(m, u, s[0]));
    assert paths[c] == paths[u] + [s[0]];
    ShiftHead(paths[u], s);
  }

  lemma ShiftHead(p: seq<nat>, s: seq<nat>)
    requires s != []
    ensures p + [s[0]] + s[1..] == p + s
  {
  }

  /** At the last level the walk is the one written exactly if table and index are. */
  lemma SameLeaf(m: Memory, root: nat, paths: Paths, t: nat, i: nat, u: nat, s: seq<nat>)
    requires Shape(m, root, paths) && t in paths && u in paths && |paths[t]| == |paths[u]| == 3 && |s| == 1
    ensures paths[u] + s == paths[t] + [i] <==> u == t && s[0] == i
  {
    if paths[u] + s == paths[t] + [i] {
      assert (paths[u] + s)[3] == s[0] && (paths[t] + [i])[3] == i;
      assert paths[u] == (paths[u] + s)[..3] == (paths[t] + [i])[..3] == paths[t];
      TableNamedByPath(m, root, paths, t, u);
    }
  }

  /** A walk that stops before the last level is not the one to a leaf of an existing table. */
  lemma AbsentPrefix(m: Memory, root: nat, paths: Paths, t: nat, i: nat, u: nat, s: seq<nat>)
    requires Shape(m, root, paths) && t in paths && u in paths && |paths[t]| == 3
    requires |paths[u]| + |s| == 4 && |s| > 1 && !IsPresent(Entry(m, u, s[0]))
    ensures paths[u] + s != paths[t] + [i]
  {
    if paths[u] + s == paths[t] + [i] {
      var k := |paths[u]|;
      assert paths[t] == (paths[t] + [i])[..3] == (paths[u] + s)[..3] == paths[u] + s[..|s| - 1];
      WalkAppend(m, root, paths[u], s[..|s| - 1]);
    }
  }

  lemma {:induction false} TableWalkAfterSet(m: Memory, m': Memory, root: nat, paths: Paths, t: nat, i: nat, e: nat,
                                             u: nat, s: seq<nat>)
    requires CanSet(m, m', root, paths, t, i, e)
    requires u in paths && ValidPath(s) && |paths[u]| + |s| <= 3
    ensures Walk(m', u, s) == Walk(m, u, s)
    decreases |s|
  {
    if s != [] && IsPresent(Entry(m, u, s[0])) {
      TableWalkAfterSet(m, m', root, paths, t, i, e, EntryAddr(Entry(m, u, s[0])), s[1..]);
    }
  }

  lemma ShapeAfterSet(m: Memory, m': Memory, root: nat, paths: Paths, t: nat, i: nat, e: nat)
    requires CanSet(m, m', root, paths, t, i, e)
    ensures Shape(m', root, paths)
  {
    forall u | u in paths ensures Walk(m', root, paths[u]) == Some(u) {
      TableWalkAfterSet(m, m', root, paths, t, i, e, root, paths[u]);
    }
    forall u, j | u in paths && 0 <= j < 512 && |paths[u]| < 3 && IsPresent(Entry(m', u, j))
      ensures EntryAddr(Entry(m', u, j)) in paths && paths[EntryAddr(Entry(m', u, j))] == paths[u] + [j]
    {
      assert Entry(m', u, j) == Entry(m, u, j);
    }
  }
}
