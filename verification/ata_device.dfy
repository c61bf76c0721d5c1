/** One channel of a fault-free ATA adapter as section 6.20 of ATA/ATAPI-6 describes it for the
    48-bit feature set: the count and address registers are two deep, a write pushes the previous
    content back, and 28-bit commands look at the most recent content only. */
module AtaDevice {
  import opened Bits

  type U8 = x: nat | x < 256
  type U16 = x: nat | x < 0x1_0000
  type U32 = x: nat | x < 0x1_0000_0000

  const WORDS: nat := 256
  const LBA28_LIMIT: nat := 0x1000_0000

  type Sector = s: seq<U16> | |s| == WORDS witness seq(WORDS, i => 0)
  type Disk = seq<Sector>

  datatype Fifo = Fifo(recent: U8, previous: U8)

  /** A transfer in progress: which drive, the next sector, how many are left, and how far it got. */
  datatype Transfer =
    | Idle
    | DataOut(drive: nat, lba: nat, left: nat, words: seq<U16>)
    | DataIn(drive: nat, lba: nat, left: nat, pos: nat)

  datatype Channel = Channel(
    count: Fifo, low: Fifo, mid: Fifo, high: Fifo, device: U8, control: U8,
    disks: seq<Disk>, transfer: Transfer)

  function Push(f: Fifo, v: U8): Fifo { Fifo(v, f.recent) }

  // ---- What the registers say ---------------------------------------------------------------------------

  function SelectedDrive(c: Channel): nat { if And(c.device, 0x10) != 0 then 1 else 0 }

  function Lba28(c: Channel): nat {
    c.low.recent + 0x100 * c.mid.recent + 0x1_0000 * c.high.recent + 0x100_0000 * And(c.device, 0x0F)
  }

  /** A count of zero means the largest one. */
  function Count28(c: Channel): nat { if c.count.recent == 0 then 256 else c.count.recent }

  function Lba48(c: Channel): nat {
    c.low.recent + 0x100 * c.mid.recent + 0x1_0000 * c.high.recent
    + 0x100_0000 * c.low.previous + 0x1_0000_0000 * c.mid.previous + 0x100_0000_0000 * c.high.previous
  }

  function Count48(c: Channel): nat {
    var n := c.count.recent + 0x100 * c.count.previous;
    if n == 0 then 0x1_0000 else n
  }

  // ---- Registers written --------------------------------------------------------------------------------

  /** A transfer that would leave the drive, or the reach of the command, is refused. */
  function Begin(c: Channel, out: bool, lba: nat, count: nat, limit: nat): Channel {
    var d := SelectedDrive(c);
    if d < |c.disks| && lba + count <= |c.disks[d]| && lba + count <= limit
    then c.(transfer := if out then DataOut(d, lba, count, []) else DataIn(d, lba, count, 0))
    else c.(transfer := Idle)
  }

  /** READ SECTORS, WRITE SECTORS and their EXT forms; flushing the cache changes nothing here. */
  function Command(c: Channel, code: U8): Channel {
    if code == 0x20 then Begin(c, false, Lba28(c), Count28(c), LBA28_LIMIT)
    else if code == 0x30 then Begin(c, true, Lba28(c), Count28(c), LBA28_LIMIT)
    else if code == 0x24 then Begin(c, false, Lba48(c), Count48(c), TWO_48)
    else if code == 0x34 then Begin(c, true, Lba48(c), Count48(c), TWO_48)
    else c
  }

  /** A byte written to the command block, by offset from its base; this clears the HOB bit. */
  function CommandBlock(c: Channel, offset: nat, v: U8): Channel {
    var c1 := c.(control := c.control % 128);
    if offset == 2 then c1.(count := Push(c.count, v))
    else if offset == 3 then c1.(low := Push(c.low, v))
    else if offset == 4 then c1.(mid := Push(c.mid, v))
    else if offset == 5 then c1.(high := Push(c.high, v))
    else if offset == 6 then c1.(device := v)
    else if offset == 7 then Command(c1, v)
    else c1
  }

  function ControlBlock(c: Channel, v: U8): Channel { c.(control := v) }

  // ---- Data port --------------------------------------------------------------------------------------------

  function WithSector(disk: Disk, lba: nat, s: Sector): Disk
    requires lba < |disk|
  {
    disk[lba := s]
  }

  /** Data that no transfer asks for is ignored. */
  function WriteData(c: Channel, w: U16): Channel {
    match c.transfer
    case DataOut(d, lba, left, words) =>
      if |words| + 1 < WORDS then c.(transfer := DataOut(d, lba, left, words + [w]))
      else if |words| + 1 == WORDS && d < |c.disks| && lba < |c.disks[d]|
      then var sector: Sector := words + [w];
           c.(disks := c.disks[d := WithSector(c.disks[d], lba, sector)],
              transfer := if left <= 1 then Idle else DataOut(d, lba + 1, left - 1, []))
      else c
    case _ => c
  }

  function ReadData(c: Channel): (U16, Channel) {
    match c.transfer
    case DataIn(d, lba, left, pos) =>
      if pos < WORDS && d < |c.disks| && lba < |c.disks[d]|
      then (c.disks[d][lba][pos],
            c.(transfer := if pos + 1 < WORDS then DataIn(d, lba, left, pos + 1)
                           else if left <= 1 then Idle else DataIn(d, lba + 1, left - 1, 0)))
      else (0, c)
    case _ => (0, c)
  }
}
