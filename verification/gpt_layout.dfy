/** What parse_gpt accepts and why it rejects, byte by byte: the layout of the protective boot record
    and of the header as section 5.2.3 and 5.3.2 of the UEFI Specification lay them out. */
module GptLayout {
  import opened Bits
  import opened Crc
  import opened Collections
  import opened Gpt

  function Little(a: bv8, b: bv8, c: bv8, d: bv8): nat {
    Value(a) + 0x100 * Value(b) + 0x1_0000 * Value(c) + 0x100_0000 * Value(d)
  }

  /** Boot signature, and a first partition that is not active, starts at head 0, sector 2, has type
      0xEE and begins at block one. */
  predicate BootRecord(s: SectorBytes) {
    && s[510] == 0x55 && s[511] == 0xAA
    && s[446] == 0 && s[447] == 0 && s[448] == 2 && s[449] == 0 && s[450] == 0xEE
    && s[454] == 1 && s[455] == 0 && s[456] == 0 && s[457] == 0
  }

  /** The letters EFI PART. */
  predicate Signature(h: SectorBytes) {
    h[0] == 0x45 && h[1] == 0x46 && h[2] == 0x49 && h[3] == 0x20 && h[4] == 0x50 && h[5] == 0x41 && h[6] == 0x52 && h[7] == 0x54
  }

  function StatedSize(h: SectorBytes): nat { Little(h[12], h[13], h[14], h[15]) }

  /** The checksum at byte 16 is that of the stated bytes of the header, with zeros in its own place. */
  predicate HeaderSum(h: SectorBytes)
    requires StatedSize(h) <= 512
  {
    Checksum(seq(StatedSize(h), i requires 0 <= i < 512 => if 16 <= i < 20 then 0 else h[i])) ==
    (h[16] as bv32) | ((h[17] as bv32) << 8) | ((h[18] as bv32) << 16) | ((h[19] as bv32) << 24)
  }

  predicate AtBlockOne(h: SectorBytes) {
    h[24] == 1 && h[25] == 0 && h[26] == 0 && h[27] == 0 && h[28] == 0 && h[29] == 0 && h[30] == 0 && h[31] == 0
  }

  /** Where the array starts; the upper half of the field is dropped. */
  function ArrayStart(h: SectorBytes): nat { Little(h[72], h[73], h[74], h[75]) }

  function ArraySectors(h: SectorBytes): nat {
    Little(h[80], h[81], h[82], h[83]) * Little(h[84], h[85], h[86], h[87]) % 0x1_0000_0000 / 512 % 256
  }

  /** The bytes of `n` sectors. */
  function SectorsAt(disk: seq<SectorBytes>, lba: nat, n: nat): (bytes: seq<bv8>)
    requires lba + n <= |disk|
    ensures |bytes| == 512 * n
  {
    seq(512 * n, i requires 0 <= i < 512 * n => disk[lba + i / 512][i % 512])
  }

  /** The checksum at byte 88 is that of the sectors read. */
  predicate ArraySum(disk: seq<SectorBytes>, h: SectorBytes)
    requires ArrayStart(h) + ArraySectors(h) <= |disk|
  {
    Checksum(SectorsAt(disk, ArrayStart(h), ArraySectors(h))) ==
    (h[88] as bv32) | ((h[89] as bv32) << 8) | ((h[90] as bv32) << 16) | ((h[91] as bv32) << 24)
  }

  // ---- The fields ------------------------------------------------------------------------------------------

  lemma FourBytesFirst(s: seq<bv8>, at: nat, m: nat)
    requires at + 4 + m <= |s|
    ensures Number(s, at, 4 + m) == Little(s[at], s[at + 1], s[at + 2], s[at + 3]) + 0x1_0000_0000 * Number(s, at + 4, m)
  {
    hide Value;
    assert Number(s, at + 3, 1 + m) == Value(s[at + 3]) + 256 * Number(s, at + 4, m);
    assert Number(s, at + 2, 2 + m) == Value(s[at + 2]) + 256 * Number(s, at + 3, 1 + m);
    assert Number(s, at + 1, 3 + m) == Value(s[at + 1]) + 256 * Number(s, at + 2, 2 + m);
  }

  lemma LittleIsSmall(a: bv8, b: bv8, c: bv8, d: bv8)
    ensures Little(a, b, c, d) < 0x1_0000_0000
  {
  }

  lemma FourByteNumber(s: seq<bv8>, at: nat)
    requires at + 4 <= |s|
    ensures Number(s, at, 4) == Little(s[at], s[at + 1], s[at + 2], s[at + 3]) < 0x1_0000_0000
  {
    hide Little;
    FourBytesFirst(s, at, 0);
    LittleIsSmall(s[at], s[at + 1], s[at + 2], s[at + 3]);
  }

  lemma EightByteNumber(s: seq<bv8>, at: nat)
    requires at + 8 <= |s|
    ensures Number(s, at, 8) == Little(s[at], s[at + 1], s[at + 2], s[at + 3]) + 0x1_0000_0000 * Little(s[at + 4], s[at + 5], s[at + 6], s[at + 7])
  {
    hide Number, Little;
    FourBytesFirst(s, at, 4);
    FourByteNumber(s, at + 4);
  }

  lemma FieldBytes(h: SectorBytes)
    ensures HeaderSize(h) == StatedSize(h) && ArrayLba(h) == ArrayStart(h) && (MyLba(h) == 1 <==> AtBlockOne(h))
    ensures EntriesNum(h) == Little(h[80], h[81], h[82], h[83]) && EntrySize(h) == Little(h[84], h[85], h[86], h[87])
  {
    hide Number, Little;
    FourByteNumber(h, 12);
    EightByteNumber(h, 24);
    EightByteNumber(h, 72);
    FourByteNumber(h, 72);
    FourByteNumber(h, 80);
    FourByteNumber(h, 84);
    LowHalf(Little(h[72], h[73], h[74], h[75]), Little(h[76], h[77], h[78], h[79]));
    OneInBytes(h[24], h[25], h[26], h[27], h[28], h[29], h[30], h[31]);
  }

  lemma LowHalf(x: nat, y: nat)
    requires x < 0x1_0000_0000
    ensures (x + 0x1_0000_0000 * y) % TWO_32 == x
  {
  }

  lemma CountBytes(h: SectorBytes)
    ensures SectorCount(Total(EntriesNum(h), EntrySize(h))) == ArraySectors(h)
  {
    hide EntriesNum, EntrySize, Little;
    FieldBytes(h);
  }

  lemma OneInBytes(a: bv8, b: bv8, c: bv8, d: bv8, e: bv8, f: bv8, g: bv8, h: bv8)
    ensures Little(a, b, c, d) + 0x1_0000_0000 * Little(e, f, g, h) == 1 <==>
              a == 1 && b == 0 && c == 0 && d == 0 && e == 0 && f == 0 && g == 0 && h == 0
  {
  }

  lemma OneInFour(a: bv8, b: bv8, c: bv8, d: bv8)
    ensures Little(a, b, c, d) == 1 <==> a == 1 && b == 0 && c == 0 && d == 0
  {
  }

  lemma RecordBytes(s: SectorBytes)
    ensures ProtectiveMbr(s) <==> BootRecord(s)
  {
    hide Number, Little;
    FourByteNumber(s, 454);
    OneInFour(s[454], s[455], s[456], s[457]);
    assert s[510..512] == [0x55, 0xAA] <==> s[510] == 0x55 && s[511] == 0xAA by {
      assert s[510..512] == [s[510], s[511]];
    }
    assert s[447..450] == [0, 2, 0] <==> s[447] == 0 && s[448] == 2 && s[449] == 0 by {
      assert s[447..450] == [s[447], s[448], s[449]];
    }
  }

  lemma SignatureBytes(h: SectorBytes)
    ensures h[0..8] == EFI_PART <==> Signature(h)
  {
    assert h[0..8] == [h[0], h[1], h[2], h[3], h[4], h[5], h[6], h[7]];
  }

  lemma HeaderSumBytes(h: SectorBytes)
    requires StatedSize(h) <= 512
    ensures Checksum(Zeroed(h)[..StatedSize(h)]) == HeaderChecksum(h) <==> HeaderSum(h)
  {
    hide Checksum, StatedSize;
    assert Zeroed(h)[..StatedSize(h)] == seq(StatedSize(h), i requires 0 <= i < 512 => if 16 <= i < 20 then 0 else h[i]);
  }

  lemma ArraySumBytes(disk: seq<SectorBytes>, h: SectorBytes)
    requires ArrayStart(h) + ArraySectors(h) <= |disk|
    ensures ArrayChecksum(h) == Checksum(Flatten(disk[ArrayStart(h)..ArrayStart(h) + ArraySectors(h)])) <==> ArraySum(disk, h)
  {
    hide Checksum, ArrayStart, ArraySectors, Flatten;
    var lba, n := ArrayStart(h), ArraySectors(h);
    var read := disk[lba..lba + n];
    var bytes := SectorsAt(disk, lba, n);
    forall i | 0 <= i < 512 * n ensures Flatten(read)[i] == bytes[i] {
      FlattenAt(read, i / 512, i % 512);
    }
    assert Flatten(read) == bytes;
  }

  // ---- The verdict -----------------------------------------------------------------------------------------

  /** The verdict of the parser on every disk, read off the bytes. */
  lemma VerdictMeaning(disk: seq<SectorBytes>)
    ensures Verdict(disk) ==
              if |disk| == 0 then Panic
              else if !BootRecord(disk[0]) then Err(InvalidProtectiveMbr)
              else if |disk| == 1 then Panic
              else if !Signature(disk[1]) then Err(InvalidPartitionTableHeader)
              else if StatedSize(disk[1]) > 512 then Undefined
              else if !HeaderSum(disk[1]) then Err(InvalidTableHeaderChecksum)
              else if !AtBlockOne(disk[1]) then Err(InvalidMyLbaHeader)
              else if ArrayStart(disk[1]) + ArraySectors(disk[1]) > |disk| then Panic
              else if !ArraySum(disk, disk[1]) then Err(InvalidEntriesArrayChecksum)
              else Ok
  {
    hide ProtectiveMbr, BootRecord, Signature, StatedSize, HeaderSum, AtBlockOne, ArrayStart, ArraySectors, ArraySum;
    hide Checksum, Flatten, HeaderSize, HeaderChecksum, MyLba, ArrayLba, EntriesNum, EntrySize, ArrayChecksum, Zeroed, SectorCount, Total;
    if |disk| > 0 {
      RecordBytes(disk[0]);
    }
    if |disk| > 1 {
      var h := disk[1];
      SignatureBytes(h);
      FieldBytes(h);
      CountBytes(h);
      if StatedSize(h) <= 512 {
        HeaderSumBytes(h);
      }
      if ArrayStart(h) + ArraySectors(h) <= |disk| {
        ArraySumBytes(disk, h);
      }
    }
  }

  /** A disk is accepted exactly if every one of these bytes is right. */
  lemma AcceptedExactly(disk: seq<SectorBytes>)
    ensures Verdict(disk).Ok? <==>
              && |disk| >= 2 && BootRecord(disk[0])
              && Signature(disk[1]) && StatedSize(disk[1]) <= 512 && HeaderSum(disk[1]) && AtBlockOne(disk[1])
              && ArrayStart(disk[1]) + ArraySectors(disk[1]) <= |disk| && ArraySum(disk, disk[1])
  {
    hide Verdict, BootRecord, Signature, StatedSize, HeaderSum, AtBlockOne, ArrayStart, ArraySectors, ArraySum;
    VerdictMeaning(disk);
  }
}
