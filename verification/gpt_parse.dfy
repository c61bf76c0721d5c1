/** The parser itself, and which entries its nested loops visit. */
module GptParse {
  import opened Bits
  import opened Crc
  import opened Collections
  import opened Gpt

  // ---- Entries --------------------------------------------------------------------------------------------

  /** Entries per sector; with an entry size of zero there is no sector to divide. */
  function PerSector(size: nat): nat { if size == 0 then 0 else SECTOR / size }

  /** Where the inner loop looks for entry `i` of sector `idx`: the offset is counted in 16-bit words. */
  function VisitedOffset(idx: nat, i: nat, size: nat): nat { SECTOR * idx + 2 * (i * size / 2) }

  function VisitsIn(idx: nat, n: nat, size: nat): (r: seq<nat>)
    ensures |r| == n && forall i :: 0 <= i < n ==> r[i] == VisitedOffset(idx, i, size)
  {
    seq(n, i requires 0 <= i => VisitedOffset(idx, i, size))
  }

  /** All offsets visited in `count` sectors, in order. */
  function Visits(count: nat, size: nat): (r: seq<nat>)
    decreases count
  {
    if count == 0 then [] else Visits(count - 1, size) + VisitsIn(count - 1, PerSector(size), size)
  }

  /** Where the entries are. */
  function EntryOffsets(num: nat, size: nat): (r: seq<nat>)
    ensures |r| == num && forall j :: 0 <= j < num ==> r[j] == j * size
  {
    seq(num, j requires 0 <= j => j * size)
  }

  method VisitEntries(sectors: seq<SectorBytes>, size: nat) returns (visited: seq<nat>)
    ensures visited == Visits(|sectors|, size)
  {
    visited := [];
    for idx := 0 to |sectors|
      invariant visited == Visits(idx, size)
    {
      ghost var before := visited;
      var n := PerSector(size);
      for i := 0 to n
        invariant visited == before + VisitsIn(idx, i, size)
      {
        visited := visited + [VisitedOffset(idx, i, size)];
        assert visited == before + VisitsIn(idx, i + 1, size);
      }
    }
  }

  lemma {:induction false} VisitsAt(count: nat, size: nat, idx: nat, i: nat)
    requires idx < count && i < PerSector(size)
    ensures var q := PerSector(size);
            |Visits(count, size)| == count * q && idx * q + i < count * q && Visits(count, size)[idx * q + i] == VisitedOffset(idx, i, size)
    decreases count
  {
    var q := PerSector(size);
    VisitsLength(count - 1, size);
    assert count * q == (count - 1) * q + q;
    if idx < count - 1 {
      VisitsAt(count - 1, size, idx, i);
    }
  }

  lemma {:induction false} VisitsLength(count: nat, size: nat)
    ensures |Visits(count, size)| == count * PerSector(size)
    decreases count
  {
    if count > 0 {
      VisitsLength(count - 1, size);
      assert count * PerSector(size) == (count - 1) * PerSector(size) + PerSector(size);
    }
  }

  /** With entries of an even size that divides the sector, every offset is the next entry's. */
  lemma WholeEntriesVisited(count: nat, num: nat, size: nat)
    requires size > 1 && SECTOR % size == 0 && num * size == SECTOR * count
    ensures Visits(count, size) == EntryOffsets(num, size)
  {
    var q := PerSector(size);
    assert q * size == SECTOR;
    VisitsLength(count, size);
    assert num == count * q by { SameProduct(num, count * q, size, SECTOR * count); }
    forall j | 0 <= j < num ensures Visits(count, size)[j] == j * size {
      FactorIsEven(q, size, SECTOR);
      IndexSplit(j, count, q);
      VisitsAt(count, size, j / q, j % q);
      OffsetOfEntry(j, size, q);
    }
  }

  lemma SameProduct(a: nat, b: nat, size: nat, p: nat)
    requires size > 0 && a * size == p && b * size == p
    ensures a == b
  {
    DivUnique(p, size, a, 0);
    DivUnique(p, size, b, 0);
  }

  /** A factor of a power of two other than one is even. */
  lemma {:induction false} FactorIsEven(q: nat, size: nat, p: nat)
    requires size > 1 && q * size == p && PowerOfTwo(p)
    ensures size % 2 == 0
    decreases p
  {
    if size % 2 == 1 {
      if q % 2 == 1 {
        OddTimesOdd(q, size);
      } else {
        HalfTimes(q, size);
        FactorIsEven(q / 2, size, p / 2);
      }
    }
  }

  lemma OddTimesOdd(q: nat, size: nat)
    requires q % 2 == 1 && size % 2 == 1
    ensures q * size % 2 == 1 && q * size >= size
  {
    var a, b := q / 2, size / 2;
    assert q * size == (2 * a + 1) * size == 2 * (a * size) + size;
  }

  lemma HalfTimes(q: nat, size: nat)
    requires q % 2 == 0
    ensures q * size == 2 * ((q / 2) * size)
  {
    assert q * size == (2 * (q / 2)) * size;
  }

  predicate PowerOfTwo(p: nat)
    decreases p
  {
    p == 1 || (p > 1 && p % 2 == 0 && PowerOfTwo(p / 2))
  }

  lemma IndexSplit(j: nat, count: nat, q: nat)
    requires q > 0 && j < count * q
    ensures j / q < count && j % q < q && j == j / q * q + j % q
  {
    if j / q >= count {
      assert j / q * q >= count * q by { MulMono(count, j / q, q); }
    }
  }

  lemma MulMono(a: nat, b: nat, q: nat)
    requires a <= b
    ensures a * q <= b * q
  {
  }

  lemma OffsetOfEntry(j: nat, size: nat, q: nat)
    requires q > 0 && q * size == SECTOR && size % 2 == 0
    ensures VisitedOffset(j / q, j % q, size) == j * size
  {
    var idx, i := j / q, j % q;
    assert j == idx * q + i;
    assert j * size == idx * (q * size) + i * size;
    EvenProduct(i, size);
  }

  lemma EvenProduct(i: nat, size: nat)
    requires size % 2 == 0
    ensures 2 * (i * size / 2) == i * size
  {
    assert i * size == 2 * (i * (size / 2));
  }

  /** The loops visit each entry exactly once and in order, exactly if the entries, larger than a
      byte, divide the sectors and fill exactly those that are read. */
  lemma EntriesVisitedExactly(num: nat, size: nat)
    requires num > 0
    ensures var count := SectorCount(Total(num, size));
            Visits(count, size) == EntryOffsets(num, size) <==> size > 1 && SECTOR % size == 0 && num * size == SECTOR * count
  {
    hide SectorCount, Total;
    var count := SectorCount(Total(num, size));
    if Visits(count, size) == EntryOffsets(num, size) {
      VisitsLength(count, size);
      EqualVisitsFit(num, size, count);
    } else if size > 1 && SECTOR % size == 0 && num * size == SECTOR * count {
      WholeEntriesVisited(count, num, size);
    }
  }

  lemma EqualVisitsFit(num: nat, size: nat, count: nat)
    requires num > 0 && count == SectorCount(Total(num, size)) && Visits(count, size) == EntryOffsets(num, size)
    requires count * PerSector(size) == num
    ensures size > 1 && SECTOR % size == 0 && num * size == SECTOR * count
  {
    hide Visits, SectorCount, Total;
    var q := PerSector(size);
    assert count >= 1 && q >= 1 && size > 0 by { PositiveFactors(count, q); }
    if size == 1 {
      assert EntryOffsets(num, size)[0 * q + 1] == 1;
      VisitsAt(count, size, 0, 1);
    }
    if count == 1 {
      OneSectorFilled(num, size);
    } else {
      VisitsAt(count, size, 1, 0);
      assert EntryOffsets(num, size)[1 * q + 0] == q * size;
    }
    assert q * size == SECTOR;
    DivUnique(SECTOR, size, q, 0);
    assert num * size == count * (q * size);
  }

  lemma PositiveFactors(a: nat, b: nat)
    requires a * b > 0
    ensures a > 0 && b > 0
  {
  }

  lemma OneSectorFilled(num: nat, size: nat)
    requires size > 0 && num == PerSector(size) && SectorCount(Total(num, size)) == 1
    ensures num * size == SECTOR
  {
    hide SectorCount;
    var p := num * size;
    assert SECTOR == PerSector(size) * size + SECTOR % size;
    SmallTotal(p);
  }

  lemma SmallTotal(p: nat)
    requires p <= SECTOR
    ensures SectorCount(p % TWO_32) == 1 ==> p == SECTOR
  {
  }

  /** Entries of one byte: the first one is visited twice, and the second one never. */
  lemma OneByteEntriesAreMissed()
    ensures var visits := Visits(SectorCount(Total(512, 1)), 1);
            && visits != EntryOffsets(512, 1) && |visits| == 512 && visits[0] == 0 && visits[1] == 0
            && forall k :: 0 <= k < |visits| ==> visits[k] != 1
  {
    hide Visits;
    assert SectorCount(Total(512, 1)) == 1 && PerSector(1) == 512;
    EntriesVisitedExactly(512, 1);
    VisitsLength(1, 1);
    forall k: nat | k < 512 ensures Visits(1, 1)[k] == 2 * (k / 2) {
      VisitsAt(1, 1, 0, k);
      assert 0 * PerSector(1) + k == k;
    }
  }

  // ---- The parser -----------------------------------------------------------------------------------------

  method ArrayMatches(table: seq<bv32>, header: SectorBytes, sectors: seq<SectorBytes>, total: nat) returns (ok: bool)
    requires IsTable(table) && |sectors| == SectorCount(total)
    ensures ok <==> ArrayChecksum(header) == Checksum(Flatten(sectors))
  {
    hide IsTable, ArrayChecksum, Flatten, Remainder;
    var entriesChecksum := ChecksumArray(table, sectors, total);
    ok := ArrayChecksum(header) == !entriesChecksum;
  }

  method CheckHeader(disk: seq<SectorBytes>, table: seq<bv32>) returns (r: Outcome, entries: seq<SectorBytes>)
    requires IsTable(table) && |disk| >= 2
    ensures r == HeaderVerdict(disk, disk[1])
    ensures r.Ok? ==> |entries| == SectorCount(Total(EntriesNum(disk[1]), EntrySize(disk[1])))
  {
    hide IsTable, Number, HeaderChecksum, ArrayChecksum, Flatten, Checksum, Zeroed, SectorCount, Total;
    entries := [];
    var header := disk[1];
    if header[0..8] != EFI_PART {
      return Err(InvalidPartitionTableHeader), [];
    }
    if HeaderSize(header) > SECTOR {
      return Undefined, [];
    }
    var headerChecksum := HeaderChecksum(header);
    var zeroed := Zeroed(header);
    var crc := CalculateCrc32(table, zeroed[..HeaderSize(header)]);
    if crc != headerChecksum {
      return Err(InvalidTableHeaderChecksum), [];
    }
    if MyLba(header) != 1 {
      return Err(InvalidMyLbaHeader), [];
    }
    var total := Total(EntriesNum(header), EntrySize(header));
    match Read(disk, ArrayLba(header), SectorCount(total)) {
      case None => return Panic, [];
      case Some(sectors) =>
        var matches := ArrayMatches(table, header, sectors, total);
        if !matches {
          return Err(InvalidEntriesArrayChecksum), [];
        }
        return Ok, sectors;
    }
  }

  /** parse_gpt up to the decoding of names. */
  method ParseGpt(disk: seq<SectorBytes>, table: seq<bv32>) returns (r: Outcome, visited: seq<nat>)
    requires IsTable(table)
    ensures r == Verdict(disk)
    ensures r.Ok? ==> visited == Visits(SectorCount(Total(EntriesNum(disk[1]), EntrySize(disk[1]))), EntrySize(disk[1]))
  {
    hide IsTable, Number, HeaderVerdict, Visits;
    visited := [];
    match Read(disk, 0, 1) {
      case None => return Panic, [];
      case Some(first) =>
        if !ProtectiveMbr(first[0]) {
          return Err(InvalidProtectiveMbr), [];
        }
    }
    match Read(disk, 1, 1) {
      case None => return Panic, [];
      case Some(second) =>
        assert second[0] == disk[1];
    }
    var entries;
    r, entries := CheckHeader(disk, table);
    if r.Ok? {
      visited := VisitEntries(entries, EntrySize(disk[1]));
    }
  }
}
