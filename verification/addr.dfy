/** Virtual addresses (shared_lib/src/addr.rs): 64-bit words of which the low 48 bits select a
    byte through four 9-bit table indices and a 12-bit page offset. */
module VirtualAddress {
  import opened Bits

  type U64 = x: nat | x < TWO_64

  datatype Result<+T> = Ok(value: T) | Err(message: string)

  const ENTRY_COUNT: nat := 512

  function AsI64(x: U64): int {
    if x < TWO_63 then x else x - TWO_64
  }

  function AsU64(x: int): U64 {
    x % TWO_64
  }

  /** Shift left by 16, reinterpret as signed, shift right by 16 arithmetically. */
  function New(addr: U64): U64 {
    AsU64(AsI64(addr * TWO_16 % TWO_64) / TWO_16)
  }

  /** Bits 47 to 63 are all equal (section 3.3.7.1 of the Intel SDM, volume 1). */
  predicate Canonical(v: U64) {
    v / 0x8000_0000_0000 == 0 || v / 0x8000_0000_0000 == 0x1_ffff
  }

  function NewChecked(addr: U64): Result<U64> {
    var top := And(addr, 0xffff_8000_0000_0000);
    if top == 0 || top == 0xffff_8000_0000_0000 then Ok(addr)
    else if top == 0x0000_8000_0000_0000 then Ok(New(addr))
    else Err("Virt addr not valid")
  }

  function Offset(v: U64, offset: U64): Result<U64> {
    if v + offset >= TWO_64 then Err("Virt addr overflow") else Ok(New(v + offset))
  }

  function P4Index(v: nat): nat { v / 4096 / 512 / 512 / 512 % TWO_16 % ENTRY_COUNT }
  function P3Index(v: nat): nat { v / 4096 / 512 / 512 % TWO_16 % ENTRY_COUNT }
  function P2Index(v: nat): nat { v / 4096 / 512 % TWO_16 % ENTRY_COUNT }
  function P1Index(v: nat): nat { v / 4096 % TWO_16 % ENTRY_COUNT }
  function PageOffset(v: nat): nat { And(v, 0xfff) % TWO_16 }

  /** The walk a virtual address selects, root table first. */
  function Indices(v: nat): (p: seq<nat>)
    ensures |p| == 4 && forall k :: 0 <= k < 4 ==> p[k] < ENTRY_COUNT
  {
    [P4Index(v), P3Index(v), P2Index(v), P1Index(v)]
  }

  /** The address put together from four indices and an offset. */
  function Assemble(p: seq<nat>, offset: nat): nat
    requires |p| == 4
  {
    (((p[0] * 512 + p[1]) * 512 + p[2]) * 512 + p[3]) * 4096 + offset
  }

  /** New copies bit 47 upward and keeps the 48 low bits. */
  lemma NewSignExtends(addr: U64)
    ensures New(addr) % TWO_48 == addr % TWO_48
    ensures Canonical(New(addr))
    ensures Canonical(addr) <==> New(addr) == addr
  {
    var low := addr % TWO_48;
    assert addr * TWO_16 % TWO_64 == low * TWO_16;
    if low < 0x8000_0000_0000 {
      assert New(addr) == low;
    } else {
      assert New(addr) == low + TWO_64 - TWO_48;
    }
  }

  /** NewChecked succeeds exactly on canonical addresses and on those whose bits above 47 are
      clear; it then returns what New returns. */
  lemma NewCheckedMeaning(addr: U64)
    ensures NewChecked(addr).Ok? <==> Canonical(addr) || addr < TWO_48
    ensures NewChecked(addr).Ok? ==> NewChecked(addr).value == New(addr)
  {
    AndTop17(addr);
    NewSignExtends(addr);
  }

  lemma PageOffsetMeaning(v: nat)
    ensures PageOffset(v) == v % 4096
  {
    PowersOfTwo();
    AndOnes(v, 12);
  }

  lemma IndexDigits(v: nat)
    ensures v % TWO_48 == Assemble(Indices(v), v % 4096)
  {
    var n1 := v / 4096;
    var n2 := n1 / 512;
    var n3 := n2 / 512;
    var n4 := n3 / 512;
    LowNineBits(n1);
    LowNineBits(n2);
    LowNineBits(n3);
    LowNineBits(n4);
    LowDigits(v, n1, n2, n3, n4);
  }

  lemma LowNineBits(n: nat)
    ensures n % TWO_16 % ENTRY_COUNT == n % 512
  {
  }

  lemma LowDigits(v: nat, n1: nat, n2: nat, n3: nat, n4: nat)
    requires n1 == v / 4096 && n2 == n1 / 512 && n3 == n2 / 512 && n4 == n3 / 512
    ensures v % TWO_48 == (((n4 % 512 * 512 + n3 % 512) * 512 + n2 % 512) * 512 + n1 % 512) * 4096 + v % 4096
  {
    var high := n4 / 512;
    assert v == high * TWO_48 + (((n4 % 512 * 512 + n3 % 512) * 512 + n2 % 512) * 512 + n1 % 512) * 4096 + v % 4096;
  }

  /** Round trip: the indices and the page offset of a canonical address put it together again. */
  lemma IndicesReassemble(v: U64)
    requires Canonical(v)
    ensures Assemble(Indices(v), PageOffset(v)) < TWO_64
    ensures New(Assemble(Indices(v), PageOffset(v))) == v
  {
    PageOffsetMeaning(v);
    IndexDigits(v);
    var low := v % TWO_48;
    NewSignExtends(low);
    NewSignExtends(v);
    NewOfLow(v);
  }

  /** Only the low 48 bits matter to New. */
  lemma NewOfLow(v: U64)
    ensures New(v % TWO_48) == New(v)
  {
    assert v * TWO_16 % TWO_64 == v % TWO_48 * TWO_16;
    assert v % TWO_48 * TWO_16 % TWO_64 == v % TWO_48 * TWO_16;
  }

  /** Distinct canonical pages have distinct index paths. */
  lemma DistinctPagesDistinctPaths(v: U64, w: U64)
    requires Canonical(v) && Canonical(w) && v % 4096 == 0 && w % 4096 == 0
    ensures Indices(v) == Indices(w) <==> v == w
  {
    IndicesReassemble(v);
    IndicesReassemble(w);
    PageOffsetMeaning(v);
    PageOffsetMeaning(w);
  }

  /** Only bits 12 to 47 select a page. */
  lemma IndicesOfLow(v: nat)
    ensures Indices(v % TWO_48) == Indices(v)
  {
    LowPageOffset(v);
    LowTwice(v);
    SamePage(v, v % TWO_48);
  }

  lemma LowTwice(v: nat)
    ensures v % TWO_48 % TWO_48 == v % TWO_48
  {
  }

  lemma SamePage(v: nat, w: nat)
    requires v % TWO_48 == w % TWO_48 && v % 4096 == w % 4096
    ensures Indices(w) == Indices(v)
  {
    IndexDigits(v);
    IndexDigits(w);
    DigitsUnique(Indices(v), Indices(w), v % 4096);
  }

  lemma DigitsUnique(p: seq<nat>, q: seq<nat>, x: nat)
    requires |p| == |q| == 4 && forall k :: 0 <= k < 4 ==> p[k] < 512 && q[k] < 512
    requires Assemble(p, x) == Assemble(q, x)
    ensures p == q
  {
    assert p[0] == q[0];
    assert p[1] == q[1];
  }

  /** Sign extension does not change the page selected. */
  lemma IndicesOfNew(v: U64)
    ensures Indices(New(v)) == Indices(v)
    ensures New(v) % 4096 == v % 4096
  {
    NewSignExtends(v);
    IndicesOfLow(v);
    IndicesOfLow(New(v));
    LowPageOffset(v);
    LowPageOffset(New(v));
  }

  lemma LowPageOffset(v: nat)
    ensures v % TWO_48 % 4096 == v % 4096
  {
  }

  /** All bytes of a page are selected by the same walk. */
  lemma IndicesWithinPage(page: nat, x: nat)
    requires page % 4096 == 0 && x < 4096
    ensures Indices(page + x) == Indices(page) && (page + x) % 4096 == x
  {
    assert (page + x) / 4096 == page / 4096;
  }

  /** Align down to a page, on addresses and on plain words (shared_lib/src/page_table.rs). */
  function AlignDown(v: U64): U64 { New(And(v, 0xffff_ffff_ffff_f000) % TWO_64) }

  function AlignDownU64(v: U64): nat { And(v, 0xffff_ffff_ffff_f000) }

  lemma AlignDownMeaning(v: U64)
    ensures AlignDownU64(v) == v - v % 4096
    ensures Canonical(v) ==> AlignDown(v) == v - v % 4096
  {
    hide And, New, Canonical;
    AndPageBits(v);
    if Canonical(v) {
      CanonicalPage(v);
      NewSignExtends(v - v % 4096);
    }
  }

  lemma CanonicalPage(v: U64)
    requires Canonical(v)
    ensures Canonical(v - v % 4096)
  {
  }
}
