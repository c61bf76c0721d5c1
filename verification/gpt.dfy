/** parse_gpt of src/gpt.rs: the protective boot record, the header and its checksum, the entry
    array checksummed sector by sector, and the loops that visit the entries.  Layouts follow
    sections 5.2.3, 5.3.2 and 5.3.3 of the UEFI Specification. */
module Gpt {
  import opened Bits
  import opened Crc
  import opened CrcBursts
  import opened Collections

  const SECTOR: nat := 512

  type SectorBytes = s: seq<bv8> | |s| == SECTOR witness seq(SECTOR, i => 0)

  datatype GptError =
    | InvalidProtectiveMbr | InvalidPartitionTableHeader | InvalidTableHeaderChecksum
    | InvalidMyLbaHeader | InvalidEntriesArrayChecksum

  /** `Panic`: a read failed.  `Undefined`: a header longer than its sector would be read. */
  datatype Outcome = Ok | Err(error: GptError) | Panic | Undefined

  /** What the block device returns; `None` stands for its errors. */
  function Read(disk: seq<SectorBytes>, lba: nat, num: nat): Option<seq<SectorBytes>> {
    if lba + num <= |disk| then Some(disk[lba..lba + num]) else None
  }

  /** The little-endian number in `n` bytes. */
  function Number(s: seq<bv8>, at: nat, n: nat): nat
    requires at + n <= |s|
    decreases n, at
  {
    if n == 0 then 0 else Value(s[at]) + 256 * Number(s, at + 1, n - 1)
  }

  function Value(b: bv8): nat { b as nat }

  function WordAt(s: seq<bv8>, at: nat): bv32
    requires at + 4 <= |s|
  {
    FourBytes(s[at], s[at + 1], s[at + 2], s[at + 3])
  }

  /** Four bytes, least significant first. */
  function FourBytes(a: bv8, b: bv8, c: bv8, d: bv8): bv32 {
    Word(a) | (Word(b) << 8) | (Word(c) << 16) | (Word(d) << 24)
  }

  // ---- Layout ---------------------------------------------------------------------------------------------

  predicate ProtectiveMbr(s: SectorBytes) {
    && s[510..512] == [0x55, 0xAA]
    && s[446] == 0 && s[447..450] == [0, 2, 0] && s[450] == 0xEE && Number(s, 454, 4) == 1
  }

  const EFI_PART: seq<bv8> := [0x45, 0x46, 0x49, 0x20, 0x50, 0x41, 0x52, 0x54]

  function HeaderSize(h: SectorBytes): nat { Number(h, 12, 4) }
  function HeaderChecksum(h: SectorBytes): bv32 { WordAt(h, 16) }
  function MyLba(h: SectorBytes): nat { Number(h, 24, 8) }
  function ArrayLba(h: SectorBytes): nat { Number(h, 72, 8) % TWO_32 }
  function EntriesNum(h: SectorBytes): nat { Number(h, 80, 4) }
  function EntrySize(h: SectorBytes): nat { Number(h, 84, 4) }
  function ArrayChecksum(h: SectorBytes): bv32 { WordAt(h, 88) }

  /** The header with its own checksum zeroed, as it is checksummed. */
  function Zeroed(h: SectorBytes): (z: SectorBytes) {
    h[..16] + [0, 0, 0, 0] + h[20..]
  }

  /** The array size and the number of sectors read for it, both in the width the code uses. */
  function Total(num: nat, size: nat): nat { num * size % TWO_32 }

  function SectorCount(total: nat): nat { total / SECTOR % 256 }

  function Flatten(sectors: seq<SectorBytes>): (bytes: seq<bv8>)
    ensures |bytes| == SECTOR * |sectors|
    decreases |sectors|
  {
    if sectors == [] then [] else Flatten(sectors[..|sectors| - 1]) + sectors[|sectors| - 1]
  }

  function ArrayVerdict(h: SectorBytes, entries: seq<SectorBytes>): Outcome {
    if ArrayChecksum(h) != Checksum(Flatten(entries)) then Err(InvalidEntriesArrayChecksum) else Ok
  }

  function HeaderVerdict(disk: seq<SectorBytes>, h: SectorBytes): Outcome {
    if h[0..8] != EFI_PART then Err(InvalidPartitionTableHeader)
    else if HeaderSize(h) > SECTOR then Undefined
    else if Checksum(Zeroed(h)[..HeaderSize(h)]) != HeaderChecksum(h) then Err(InvalidTableHeaderChecksum)
    else if MyLba(h) != 1 then Err(InvalidMyLbaHeader)
    else match Read(disk, ArrayLba(h), SectorCount(Total(EntriesNum(h), EntrySize(h))))
         case None => Panic
         case Some(entries) => ArrayVerdict(h, entries)
  }

  /** What the parser says of a disk. */
  function Verdict(disk: seq<SectorBytes>): Outcome {
    if |disk| == 0 then Panic
    else if !ProtectiveMbr(disk[0]) then Err(InvalidProtectiveMbr)
    else if |disk| == 1 then Panic
    else HeaderVerdict(disk, disk[1])
  }

  // ---- The checksum loop --------------------------------------------------------------------------------

  lemma FlattenOneMore(sectors: seq<SectorBytes>, i: nat)
    requires i < |sectors|
    ensures Flatten(sectors[..i + 1]) == Flatten(sectors[..i]) + sectors[i]
  {
    assert sectors[..i + 1][..i] == sectors[..i];
  }

  /** The loop over the sectors: it covers all bytes of all of them. */
  method ChecksumArray(table: seq<bv32>, sectors: seq<SectorBytes>, total: nat) returns (crc: bv32)
    requires IsTable(table) && |sectors| == SectorCount(total)
    ensures crc == Remainder(Flatten(sectors), ALL_ONES)
  {
    hide IsTable, Flatten, Remainder;
    crc := ALL_ONES;
    var bytesRemain: nat := total;
    assert sectors[..0] == [];
    FlattenNone();
    for i := 0 to |sectors|
      invariant crc == Remainder(Flatten(sectors[..i]), ALL_ONES)
      invariant i < |sectors| ==> bytesRemain == total - SECTOR * i
    {
      var len := if bytesRemain < SECTOR then bytesRemain else SECTOR;
      assert len == SECTOR && sectors[i][..len] == sectors[i];
      crc := CalculateCrc32Partial(table, sectors[i][..len], crc);
      RemainderInPieces(Flatten(sectors[..i]), sectors[i], ALL_ONES);
      FlattenOneMore(sectors, i);
      if bytesRemain > SECTOR {
        bytesRemain := bytesRemain - SECTOR;
      }
    }
    assert sectors[..|sectors|] == sectors;
  }

  lemma FlattenNone()
    ensures Flatten([]) == [] && Remainder([], ALL_ONES) == ALL_ONES
  {
  }

  /** How many bytes of the array the checksum looks at. */
  function Covered(total: nat): nat { SECTOR * SectorCount(total) }

  lemma CoveredMeaning(total: nat)
    ensures Covered(total) <= total
    ensures Covered(total) == total <==> total % SECTOR == 0 && total / SECTOR < 256
  {
  }

  /** The wrap-around of the array size does not change what is covered. */
  lemma CoveredDespiteWrap(num: nat, size: nat)
    ensures Covered(Total(num, size)) == Covered(num * size)
  {
    WrapKeepsSectors(num * size);
  }

  lemma WrapKeepsSectors(p: nat)
    ensures SectorCount(p % TWO_32) == SectorCount(p)
  {
    var d, r := p / TWO_32, p % TWO_32;
    assert p == d * TWO_32 + r;
    assert p / SECTOR == d * 0x80_0000 + r / SECTOR;
  }

  /** Byte `x` of sector `i` in the flattened sectors. */
  lemma {:induction false} FlattenAt(sectors: seq<SectorBytes>, i: nat, x: nat)
    requires i < |sectors| && x < SECTOR
    ensures Flatten(sectors)[SECTOR * i + x] == sectors[i][x]
    decreases |sectors|
  {
    if i < |sectors| - 1 {
      FlattenAt(sectors[..|sectors| - 1], i, x);
    }
  }

  /** The first sectors hold the first bytes. */
  lemma {:induction false} FlattenPrefix(sectors: seq<SectorBytes>, k: nat)
    requires k <= |sectors|
    ensures Flatten(sectors[..k]) == Flatten(sectors)[..SECTOR * k]
    decreases |sectors|
  {
    if k == |sectors| {
      assert sectors[..k] == sectors;
    } else {
      var most := sectors[..|sectors| - 1];
      FlattenPrefix(most, k);
      assert most[..k] == sectors[..k];
    }
  }

  /** The sectors read for the array hold exactly the covered bytes of it. */
  lemma ReadIsPrefix(disk: seq<SectorBytes>, lba: nat, num: nat, size: nat, k: nat)
    requires k == SectorCount(Total(num, size)) && lba + k <= |disk|
    ensures SECTOR * k == Covered(num * size)
    ensures Read(disk, lba, k).Some? && Flatten(Read(disk, lba, k).value) == Flatten(disk[lba..])[..SECTOR * k]
  {
    hide Total, SectorCount, Flatten;
    CoveredDespiteWrap(num, size);
    assert disk[lba..][..k] == disk[lba..lba + k];
    FlattenPrefix(disk[lba..], k);
  }

  /** The bytes of the array, on sectors that start with it. */
  function ArrayBytes(sectors: seq<SectorBytes>, num: nat, size: nat): seq<bv8>
    requires num * size <= SECTOR * |sectors|
  {
    Flatten(sectors)[..num * size]
  }

  /** What the loop computes on them. */
  function LoopChecksum(sectors: seq<SectorBytes>, num: nat, size: nat): bv32
    requires num * size <= SECTOR * |sectors|
  {
    if SectorCount(Total(num, size)) <= |sectors| then Checksum(Flatten(sectors[..SectorCount(Total(num, size))])) else 0
  }

  lemma LoopChecksumMeaning(sectors: seq<SectorBytes>, num: nat, size: nat)
    requires num * size <= SECTOR * |sectors|
    ensures Covered(num * size) <= num * size && SectorCount(Total(num, size)) <= |sectors|
    ensures LoopChecksum(sectors, num, size) == Checksum(ArrayBytes(sectors, num, size)[..Covered(num * size)])
  {
    hide Checksum, Flatten, Total, SectorCount;
    var k := SectorCount(Total(num, size));
    CoveredMeaning(num * size);
    CoveredDespiteWrap(num, size);
    FlattenPrefix(sectors, k);
    assert ArrayBytes(sectors, num, size)[..Covered(num * size)] == Flatten(sectors)[..SECTOR * k];
  }

  /** Sectors of zeros, and the same with one byte changed. */
  function Blanks(n: nat): (s: seq<SectorBytes>)
    ensures |s| == n
  {
    seq(n, i => seq(SECTOR, j => 0))
  }

  function Dotted(n: nat, i: nat): (s: seq<SectorBytes>)
    requires i < n
    ensures |s| == n
  {
    var dot: SectorBytes := Blanks(n)[i][0 := 1];
    Blanks(n)[i := dot]
  }

  /** Their arrays differ in the first byte of sector `i` and nowhere else. */
  lemma DottedBurst(n: nat, i: nat, num: nat, size: nat)
    requires i < n && SECTOR * i < num * size <= SECTOR * n
    ensures FourByteBurst(ArrayBytes(Blanks(n), num, size), ArrayBytes(Dotted(n, i), num, size), SECTOR * i)
    ensures ArrayBytes(Blanks(n), num, size)[..SECTOR * i] == ArrayBytes(Dotted(n, i), num, size)[..SECTOR * i]
  {
    hide Flatten, Blanks, Dotted;
    var a, b := ArrayBytes(Blanks(n), num, size), ArrayBytes(Dotted(n, i), num, size);
    forall x | 0 <= x < |a| ensures a[x] != b[x] <==> x == SECTOR * i {
      DottedByte(n, i, x);
    }
    assert a[SECTOR * i] != b[SECTOR * i];
  }

  lemma DottedByte(n: nat, i: nat, x: nat)
    requires i < n && x < SECTOR * n
    ensures Flatten(Blanks(n))[x] != Flatten(Dotted(n, i))[x] <==> x == SECTOR * i
  {
    hide Flatten;
    FlattenAt(Blanks(n), x / SECTOR, x % SECTOR);
    FlattenAt(Dotted(n, i), x / SECTOR, x % SECTOR);
    assert x == SECTOR * (x / SECTOR) + x % SECTOR;
  }

  /** The checksum the loop computes is that of the whole array, whatever the sectors hold, exactly if
      the array is a whole number of sectors and fewer than 256 of them. */
  lemma ChecksumIsWholeExactly(num: nat, size: nat)
    ensures (forall sectors: seq<SectorBytes> :: num * size <= SECTOR * |sectors| ==>
               LoopChecksum(sectors, num, size) == Checksum(ArrayBytes(sectors, num, size))) <==>
            num * size % SECTOR == 0 && num * size / SECTOR < 256
  {
    hide Checksum, Covered, Flatten, LoopChecksum, ArrayBytes;
    var total := num * size;
    CoveredMeaning(total);
    if Covered(total) == total {
      forall sectors: seq<SectorBytes> | total <= SECTOR * |sectors|
        ensures LoopChecksum(sectors, num, size) == Checksum(ArrayBytes(sectors, num, size))
      {
        LoopChecksumMeaning(sectors, num, size);
        ArrayBytesLength(sectors, num, size);
        assert ArrayBytes(sectors, num, size)[..total] == ArrayBytes(sectors, num, size);
      }
    } else {
      CoveredIsUnread(num, size);
    }
  }

  lemma ArrayBytesLength(sectors: seq<SectorBytes>, num: nat, size: nat)
    requires num * size <= SECTOR * |sectors|
    ensures |ArrayBytes(sectors, num, size)| == num * size
  {
  }

  /** If part of the array is not covered, the loop is wrong on the blank sectors or on the dotted ones. */
  lemma CoveredIsUnread(num: nat, size: nat)
    requires Covered(num * size) < num * size
    ensures var n := num * size / SECTOR + 1;
            var i := SectorCount(num * size);
            && i < n && num * size <= SECTOR * n
            && LoopChecksum(Blanks(n), num, size) == LoopChecksum(Dotted(n, i), num, size)
            && Checksum(ArrayBytes(Blanks(n), num, size)) != Checksum(ArrayBytes(Dotted(n, i), num, size))
  {
    hide Checksum, Flatten, LoopChecksum, ArrayBytes, Blanks, Dotted;
    var n, i := num * size / SECTOR + 1, SectorCount(num * size);
    LoopChecksumMeaning(Blanks(n), num, size);
    LoopChecksumMeaning(Dotted(n, i), num, size);
    DottedBurst(n, i, num, size);
    BurstDetected(ArrayBytes(Blanks(n), num, size), ArrayBytes(Dotted(n, i), num, size), SECTOR * i, ALL_ONES);
  }

  // ---- What is rejected ---------------------------------------------------------------------------------

  /** The entry array as far as it is read. */
  function EntryArray(disk: seq<SectorBytes>, h: SectorBytes): (entries: seq<SectorBytes>)
    requires Read(disk, ArrayLba(h), SectorCount(Total(EntriesNum(h), EntrySize(h)))).Some?
  {
    disk[ArrayLba(h)..ArrayLba(h) + SectorCount(Total(EntriesNum(h), EntrySize(h)))]
  }

  /** Under the header of a disk that is accepted, an entry array that differs from the accepted one
      within four consecutive bytes is rejected, and for its checksum. */
  lemma ChangedArrayIsRejected(disk: seq<SectorBytes>, disk': seq<SectorBytes>, at: nat)
    requires Verdict(disk).Ok? && |disk'| == |disk| && disk'[..2] == disk[..2]
    requires FourByteBurst(Flatten(EntryArray(disk, disk[1])), Flatten(EntryArray(disk', disk[1])), at)
    ensures Verdict(disk') == Err(InvalidEntriesArrayChecksum)
  {
    hide Checksum, Flatten, Number, WordAt, FourByteBurst;
    assert disk'[0] == disk'[..2][0] && disk'[1] == disk'[..2][1];
    BurstDetected(Flatten(EntryArray(disk, disk[1])), Flatten(EntryArray(disk', disk[1])), at, ALL_ONES);
  }

  /** The same for the header: a change within four consecutive bytes of it, outside its signature,
      size and checksum, is rejected for the header checksum. */
  lemma ChangedHeaderIsRejected(disk: seq<SectorBytes>, disk': seq<SectorBytes>, at: nat)
    requires Verdict(disk).Ok? && |disk'| == |disk| && disk'[0] == disk[0]
    requires disk'[1][..8] == disk[1][..8] && disk'[1][12..20] == disk[1][12..20]
    requires FourByteBurst(disk[1][..HeaderSize(disk[1])], disk'[1][..HeaderSize(disk[1])], at)
    ensures Verdict(disk') == Err(InvalidTableHeaderChecksum)
  {
    hide Checksum, Flatten, Number, WordAt;
    var h, h' := disk[1], disk'[1];
    var n := HeaderSize(h);
    assert HeaderSize(h') == n && HeaderChecksum(h') == HeaderChecksum(h) by { SameFields(h, h'); }
    assert FourByteBurst(Zeroed(h)[..n], Zeroed(h')[..n], at) by { ZeroedBurst(h, h', n, at); }
    BurstDetected(Zeroed(h)[..n], Zeroed(h')[..n], at, ALL_ONES);
    assert h[0..8] == h[..8] && h'[0..8] == h'[..8];
  }

  lemma SameFields(h: SectorBytes, h': SectorBytes)
    requires h'[12..20] == h[12..20]
    ensures HeaderSize(h') == HeaderSize(h) && HeaderChecksum(h') == HeaderChecksum(h)
  {
    hide FourBytes, Number;
    forall i | 12 <= i < 20 ensures h[i] == h'[i] {
      SameSlice(h, h', 12, 20, i);
    }
    SameNumber(h, h', 12, 4);
  }

  lemma SameSlice(s: seq<bv8>, s': seq<bv8>, lo: nat, hi: nat, k: nat)
    requires lo <= k < hi <= |s| && hi <= |s'| && s[lo..hi] == s'[lo..hi]
    ensures s[k] == s'[k]
  {
    assert s[k] == s[lo..hi][k - lo] && s'[k] == s'[lo..hi][k - lo];
  }

  lemma {:induction false} SameNumber(s: seq<bv8>, s': seq<bv8>, at: nat, n: nat)
    requires at + n <= |s| && at + n <= |s'| && forall i :: at <= i < at + n ==> s[i] == s'[i]
    ensures Number(s, at, n) == Number(s', at, n)
    decreases n
  {
    if n > 0 {
      SameNumber(s, s', at + 1, n - 1);
    }
  }

  lemma ZeroedBurst(h: SectorBytes, h': SectorBytes, n: nat, at: nat)
    requires n <= SECTOR && h'[12..20] == h[12..20] && FourByteBurst(h[..n], h'[..n], at)
    ensures FourByteBurst(Zeroed(h)[..n], Zeroed(h')[..n], at)
  {
    var a, b, z, z' := h[..n], h'[..n], Zeroed(h)[..n], Zeroed(h')[..n];
    forall i | 0 <= i < n ensures z[i] == (if 16 <= i < 20 then 0 else a[i]) && z'[i] == (if 16 <= i < 20 then 0 else b[i]) {
    }
    var k :| 0 <= k < n && a[k] != b[k];
    if 12 <= k < 20 {
      SameSlice(h', h, 12, 20, k);
    }
    assert z[k] != z'[k];
  }

  // ---- A disk on which nothing of the array is looked at ------------------------------------------------

  function ZeroSector(): SectorBytes { seq(SECTOR, i => 0) }

  /** A protective boot record. */
  function SomeMbr(): SectorBytes {
    ZeroSector()[510 := 0x55][511 := 0xAA][448 := 2][450 := 0xEE][454 := 1]
  }

  /** A header of length zero for one entry of a hundred bytes at block two. */
  function SomeHeader(): SectorBytes {
    EFI_PART + ZeroSector()[8..][16 := 1][64 := 2][72 := 1][76 := 100]
  }

  lemma {:induction false} ZeroNumber(s: seq<bv8>, at: nat, n: nat)
    requires at + n <= |s| && forall i :: at <= i < at + n ==> s[i] == 0
    ensures Number(s, at, n) == 0
    decreases n
  {
    if n > 0 {
      ZeroNumber(s, at + 1, n - 1);
    }
  }

  lemma ByteNumber(s: seq<bv8>, at: nat, n: nat)
    requires n > 0 && at + n <= |s| && forall i :: at < i < at + n ==> s[i] == 0
    ensures Number(s, at, n) == Value(s[at])
  {
    ZeroNumber(s, at + 1, n - 1);
  }

  lemma SomeMbrIsProtective()
    ensures ProtectiveMbr(SomeMbr())
  {
    hide Number;
    var s := SomeMbr();
    assert s[510..512] == [0x55, 0xAA] && s[447..450] == [0, 2, 0];
    ByteNumber(s, 454, 4);
  }

  lemma SomeHeaderFields()
    ensures var h := SomeHeader();
            && h[0..8] == EFI_PART && HeaderSize(h) == 0 && MyLba(h) == 1 && ArrayLba(h) == 2 && EntriesNum(h) == 1 && EntrySize(h) == 100
  {
    hide Number;
    var h := SomeHeader();
    assert h[0..8] == EFI_PART;
    ZeroNumber(h, 12, 4);
    ByteNumber(h, 24, 8);
    ByteNumber(h, 72, 8);
    ByteNumber(h, 80, 4);
    ByteNumber(h, 84, 4);
  }

  lemma SomeHeaderChecksums()
    ensures HeaderChecksum(SomeHeader()) == 0 && ArrayChecksum(SomeHeader()) == 0
  {
    hide FourBytes;
    var h := SomeHeader();
    assert h[16] == 0 && h[17] == 0 && h[18] == 0 && h[19] == 0;
    assert h[88] == 0 && h[89] == 0 && h[90] == 0 && h[91] == 0;
    FourZeros();
  }

  lemma FourZeros()
    ensures FourBytes(0, 0, 0, 0) == 0
  {
  }

  lemma ChecksumOfNothing()
    ensures Checksum([]) == 0
  {
    assert Remainder([], ALL_ONES) == ALL_ONES;
  }

  /** With that header the parser accepts every array. */
  lemma EveryArrayIsAccepted(x: SectorBytes)
    ensures Verdict([SomeMbr(), SomeHeader(), x]).Ok?
  {
    hide Number, WordAt, SomeMbr, SomeHeader, Checksum, ProtectiveMbr;
    hide HeaderSize, MyLba, ArrayLba, EntriesNum, EntrySize, HeaderChecksum, ArrayChecksum;
    var h := SomeHeader();
    var disk := [SomeMbr(), h, x];
    SomeMbrIsProtective();
    SomeHeaderFields();
    SomeHeaderChecksums();
    ChecksumOfNothing();
    assert disk[1] == h && Zeroed(h)[..0] == [];
    assert SectorCount(Total(1, 100)) == 0 && disk[2..2] == [];
    assert HeaderVerdict(disk, h) == ArrayVerdict(h, []);
  }

  /** Two disks that the parser accepts under one header, though the checksums of their arrays differ. */
  lemma ShortArrayIsIgnored() returns (x: SectorBytes, y: SectorBytes)
    ensures Verdict([SomeMbr(), SomeHeader(), x]).Ok? && Verdict([SomeMbr(), SomeHeader(), y]).Ok?
    ensures EntriesNum(SomeHeader()) * EntrySize(SomeHeader()) == 100 && Checksum(x[..100]) != Checksum(y[..100])
  {
    hide Verdict, Checksum, SomeMbr, SomeHeader, EntriesNum, EntrySize;
    x := ZeroSector();
    y := x[0 := 1];
    EveryArrayIsAccepted(x);
    EveryArrayIsAccepted(y);
    SomeHeaderFields();
    assert x[..100][0] != y[..100][0];
    assert FourByteBurst(x[..100], y[..100], 0);
    BurstDetected(x[..100], y[..100], 0, ALL_ONES);
  }
}
