/** The PIO driver of src/ide.rs against such adapters on the two legacy channels. */
module Ide {
  import opened Bits
  import opened AtaDevice

  /** Register numbers of AtaRegister. */
  type Register = x: nat | x <= 0x0D
  const SEC_COUNT_0: Register := 0x02
  const LBA_0: Register := 0x03
  const LBA_1: Register := 0x04
  const LBA_2: Register := 0x05
  const DEVICE_SELECT: Register := 0x06
  const COMMAND: Register := 0x07
  const SEC_COUNT_1: Register := 0x08
  const LBA_3: Register := 0x09
  const LBA_4: Register := 0x0A
  const LBA_5: Register := 0x0B
  const CONTROL: Register := 0x0C

  datatype ChannelRegister = ChannelRegister(ioBase: U16, ctrl: U16, noInterrupt: U8)

  datatype LbaMode = Lba48Mode | Lba28Mode | Unimplemented

  datatype AtaError = OutOfRange

  datatype Outcome<+T> = Ok(value: T) | Err(error: AtaError) | Panic

  /** The fields of IDEDevice that reading and writing look at. */
  datatype IdeDevice = IdeDevice(channel: nat, slave: bool, capabilities: U16, size: U32)

  // ---- One register -------------------------------------------------------------------------------------

  /** What writing a register does to the adapter: the high-order ones share the ports of the
      low-order ones and are framed by control writes that set and clear the HOB bit. */
  function RegisterWrite(c: Channel, reg: Register, data: U8, noInterrupt: U8): Channel {
    if reg < 0x08 then CommandBlock(c, reg, data)
    else if reg < 0x0C then
      ControlBlock(CommandBlock(ControlBlock(c, HighOrder(noInterrupt)), reg - 0x06, data), noInterrupt)
    else if reg == 0x0C then ControlBlock(c, data)
    else c
  }

  function HighOrder(noInterrupt: U8): U8 { if noInterrupt < 128 then noInterrupt + 0x80 else noInterrupt }

  /** The high-order registers are selected by setting the topmost bit. */
  lemma HighOrderMeaning(noInterrupt: U8)
    ensures HighOrder(noInterrupt) == Or(0x80, noInterrupt)
  {
    hide Or, Pow2;
    assert Pow2(7) == 128 by { SeventhPower(); }
    if noInterrupt < 128 {
      OrBelow(0x80, noInterrupt, 7);
    } else {
      OrOfTop(7, noInterrupt);
    }
  }

  lemma SeventhPower()
    ensures Pow2(7) == 128
  {
  }

  lemma {:induction false} OrOfTop(k: nat, v: nat)
    requires Pow2(k) <= v < 2 * Pow2(k)
    ensures Or(Pow2(k), v) == v
  {
    if k > 0 {
      OrOfTop(k - 1, v / 2);
    }
  }

  /** The byte lines: two adapters behind their legacy port numbers. */
  function PortWrite(lines: seq<Channel>, port: nat, v: U8): (r: seq<Channel>)
    requires |lines| == 2
    ensures |r| == 2
  {
    if 0x1F0 <= port < 0x1F8 then lines[0 := CommandBlock(lines[0], port - 0x1F0, v)]
    else if port == 0x3F6 then lines[0 := ControlBlock(lines[0], v)]
    else if 0x170 <= port < 0x178 then lines[1 := CommandBlock(lines[1], port - 0x170, v)]
    else if port == 0x376 then lines[1 := ControlBlock(lines[1], v)]
    else lines
  }

  // ---- Address bytes ------------------------------------------------------------------------------------

  /** The bytes of a block address and its head bits, by mask and shift. */
  function LbaByte0(lba: U32): nat { And(lba, 0x0000_00FF) }
  function LbaByte1(lba: U32): nat { And(lba, 0x0000_FF00) / 0x100 }
  function LbaByte2(lba: U32): nat { And(lba, 0x00FF_0000) / 0x1_0000 }
  function LbaByte3(lba: U32): nat { And(lba, 0xFF00_0000) / 0x100_0000 }
  function HeadBits(lba: U32): nat { And(lba, 0x0F00_0000) / 0x100_0000 }

  lemma BytePowers()
    ensures Pow2(0) == 1 && Pow2(8) == 0x100 && Pow2(16) == 0x1_0000 && Pow2(24) == 0x100_0000 && Pow2(4) == 16
  {
    assert Pow2(12) == 0x1000;
    assert Pow2(20) == 0x10_0000;
  }

  /** Masking `n` bits at position `k` and shifting them down reads off a field. */
  lemma MaskAndShift(lba: nat, k: nat, n: nat, unit: nat, ones: nat)
    requires unit == Pow2(k) && ones == Pow2(n) - 1
    ensures And(lba, ones * unit) / unit == lba / unit % (ones + 1)
  {
    hide And, Pow2, Mask;
    AndMask(lba, k, n);
    MaskIsShiftedOnes(k, n);
    DivUnique(Field(lba, k, n) * unit, unit, Field(lba, k, n), 0);
  }

  lemma LbaByteMeaning(lba: U32)
    ensures LbaByte0(lba) == lba % 256 && LbaByte1(lba) == lba / 0x100 % 256
    ensures LbaByte2(lba) == lba / 0x1_0000 % 256 && LbaByte3(lba) == lba / 0x100_0000 % 256
    ensures HeadBits(lba) == lba / 0x100_0000 % 16
  {
    hide And, Pow2;
    BytePowers();
    MaskAndShift(lba, 0, 8, 1, 255);
    MaskAndShift(lba, 8, 8, 0x100, 255);
    MaskAndShift(lba, 16, 8, 0x1_0000, 255);
    MaskAndShift(lba, 24, 8, 0x100_0000, 255);
    MaskAndShift(lba, 24, 4, 0x100_0000, 15);
  }

  /** The four bytes put the address back together, and so do three bytes and the head bits of a
      28-bit address. */
  lemma AddressReassembles(lba: U32)
    ensures LbaByte0(lba) < 256 && LbaByte1(lba) < 256 && LbaByte2(lba) < 256 && LbaByte3(lba) < 256 && HeadBits(lba) < 16
    ensures LbaByte0(lba) + 0x100 * LbaByte1(lba) + 0x1_0000 * LbaByte2(lba) + 0x100_0000 * LbaByte3(lba) == lba
    ensures lba < 0x1000_0000 ==>
              LbaByte0(lba) + 0x100 * LbaByte1(lba) + 0x1_0000 * LbaByte2(lba) + 0x100_0000 * HeadBits(lba) == lba
  {
    hide LbaByte0, LbaByte1, LbaByte2, LbaByte3, HeadBits;
    LbaByteMeaning(lba);
    BytesOf(lba);
  }

  lemma BytesOf(lba: U32)
    ensures lba % 256 + 0x100 * (lba / 0x100 % 256) + 0x1_0000 * (lba / 0x1_0000 % 256) + 0x100_0000 * (lba / 0x100_0000 % 256) == lba
    ensures lba < 0x1000_0000 ==> lba / 0x100_0000 % 256 == lba / 0x100_0000 % 16
  {
    assert lba / 0x1_0000 == lba / 0x100 / 256 && lba / 0x100_0000 == lba / 0x1_0000 / 256;
  }

  /** The drive select byte: fixed bits, the drive bit, the head bits. */
  function SelectByte(slave: bool, head: nat): nat {
    Or(Or(0xE0, if slave then 0x10 else 0), head)
  }

  lemma SelectByteMeaning(slave: bool, head: nat)
    requires head < 16
    ensures SelectByte(slave, head) == 0xE0 + (if slave then 0x10 else 0) + head
    ensures SelectByte(slave, head) < 256
    ensures And(SelectByte(slave, head), 0x0F) == head && (And(SelectByte(slave, head), 0x10) != 0 <==> slave)
  {
    hide And, Or, Pow2;
    var s := if slave then 0x10 else 0;
    BytePowers();
    assert Or(0xE0, s) == 0xE0 + s by { OrDriveBit(slave); }
    OrBelow(0xE0 + s, head, 4);
    AndOnes(0xE0 + s + head, 4);
    DriveBit(0xE0 + s + head);
  }

  lemma OrDriveBit(slave: bool)
    ensures Or(0xE0, if slave then 0x10 else 0) == 0xE0 + if slave then 0x10 else 0
  {
    assert Pow2(5) == 32;
    OrBelow(0xE0, if slave then 0x10 else 0, 5);
  }

  lemma DriveBit(v: nat)
    ensures And(v, 0x10) == v / 16 % 2 * 16
  {
    hide And;
    BytePowers();
    AndMask(v, 4, 1);
    MaskIsShiftedOnes(4, 1);
    assert Pow2(1) == 2;
  }

  // ---- io_prepare ---------------------------------------------------------------------------------------

  const NO_INTERRUPT: U8 := 0x02

  function ModeFor(dev: IdeDevice, lba: U32): LbaMode {
    if lba >= 0x1000_0000 then Lba48Mode
    else if And(dev.capabilities, 0x200) != 0 then Lba28Mode
    else Unimplemented
  }

  function Head(mode: LbaMode, lba: U32): nat { if mode.Lba28Mode? then HeadBits(lba) else 0 }

  /** The registers as io_prepare leaves them when it writes the command. */
  ghost function Prepared(c: Channel, mode: LbaMode, lba: U32, n: U8, slave: bool): Channel {
    AddressReassembles(lba);
    SelectByteMeaning(slave, Head(mode, lba));
    var c0 := ControlBlock(c, NO_INTERRUPT);
    var c1 := RegisterWrite(c0, DEVICE_SELECT, SelectByte(slave, Head(mode, lba)), NO_INTERRUPT);
    var c2 := if mode.Lba48Mode? then HighOrderWritten(c1, LbaByte3(lba)) else c1;
    var c3 := RegisterWrite(c2, SEC_COUNT_0, n, NO_INTERRUPT);
    var c4 := RegisterWrite(c3, LBA_0, LbaByte0(lba), NO_INTERRUPT);
    var c5 := RegisterWrite(c4, LBA_1, LbaByte1(lba), NO_INTERRUPT);
    RegisterWrite(c5, LBA_2, LbaByte2(lba), NO_INTERRUPT)
  }

  function HighOrderWritten(c: Channel, byte3: U8): Channel {
    RegisterWrite(RegisterWrite(RegisterWrite(RegisterWrite(c, SEC_COUNT_1, 0, NO_INTERRUPT),
      LBA_3, byte3, NO_INTERRUPT), LBA_4, 0, NO_INTERRUPT), LBA_5, 0, NO_INTERRUPT)
  }

  /** How many sectors the adapter makes of the count byte. */
  function Expected(mode: LbaMode, n: U8): nat {
    if n != 0 then n else if mode.Lba48Mode? then 0x1_0000 else 256
  }

  function Reach(mode: LbaMode): nat { if mode.Lba48Mode? then TWO_48 else 0x1000_0000 }

  function CommandCode(mode: LbaMode, isWrite: bool): U8 {
    if mode.Lba48Mode? then (if isWrite then 0x34 else 0x24) else (if isWrite then 0x30 else 0x20)
  }

  function DriveIndex(slave: bool): nat { if slave then 1 else 0 }

  /** The registers left by io_prepare decode to exactly the drive, the address and the count, with
      interrupts switched off and the low-order registers selected. */
  lemma PreparedDecodes(c: Channel, mode: LbaMode, lba: U32, n: U8, slave: bool)
    requires !mode.Unimplemented? && (mode.Lba28Mode? ==> lba < 0x1000_0000)
    ensures var p := Prepared(c, mode, lba, n, slave);
            && SelectedDrive(p) == DriveIndex(slave) && p.disks == c.disks && p.control == 2
            && (mode.Lba28Mode? ==> Lba28(p) == lba && Count28(p) == Expected(mode, n))
            && (mode.Lba48Mode? ==> Lba48(p) == lba && Count48(p) == Expected(mode, n))
  {
    hide And, Or, LbaByte0, LbaByte1, LbaByte2, LbaByte3, HeadBits, SelectByte;
    AddressReassembles(lba);
    SelectByteMeaning(slave, Head(mode, lba));
  }

  /** A command was issued: the disks are untouched and the transfer is the one asked for, unless
      it leaves the drive or the reach of the command. */
  ghost predicate Started(c: Channel, c': Channel, mode: LbaMode, lba: nat, n: U8, slave: bool, isWrite: bool) {
    && c'.disks == c.disks
    && c'.transfer == if InReach(c, mode, lba, n, slave)
                      then (if isWrite then DataOut(DriveIndex(slave), lba, Expected(mode, n), [])
                            else DataIn(DriveIndex(slave), lba, Expected(mode, n), 0))
                      else Idle
  }

  predicate InReach(c: Channel, mode: LbaMode, lba: nat, n: U8, slave: bool) {
    && DriveIndex(slave) < |c.disks| && lba + Expected(mode, n) <= |c.disks[DriveIndex(slave)]|
    && lba + Expected(mode, n) <= Reach(mode)
  }

  lemma CommandStarts(c: Channel, mode: LbaMode, lba: U32, n: U8, slave: bool, isWrite: bool)
    requires !mode.Unimplemented? && (mode.Lba28Mode? ==> lba < 0x1000_0000)
    ensures Started(c, RegisterWrite(Prepared(c, mode, lba, n, slave), COMMAND, CommandCode(mode, isWrite), NO_INTERRUPT), mode, lba, n, slave, isWrite)
  {
    hide Prepared, And;
    PreparedDecodes(c, mode, lba, n, slave);
    var p := Prepared(c, mode, lba, n, slave);
    assert Lba28(p.(control := p.control % 128)) == Lba28(p) && Lba48(p.(control := p.control % 128)) == Lba48(p);
    assert SelectedDrive(p.(control := p.control % 128)) == SelectedDrive(p);
  }

  // ---- Disks ----------------------------------------------------------------------------------------------

  function Overwritten(disk: Disk, lba: nat, data: seq<Sector>): (r: Disk)
    requires lba + |data| <= |disk|
    ensures |r| == |disk|
  {
    disk[..lba] + data + disk[lba + |data|..]
  }

  /** What was written is what is read back, and nothing else changed. */
  lemma ReadsBack(disk: Disk, lba: nat, data: seq<Sector>)
    requires lba + |data| <= |disk|
    ensures Overwritten(disk, lba, data)[lba..lba + |data|] == data
    ensures forall i :: 0 <= i < |disk| && !(lba <= i < lba + |data|) ==> Overwritten(disk, lba, data)[i] == disk[i]
  {
  }

  lemma OneMoreSector(disk: Disk, lba: nat, data: seq<Sector>, i: nat)
    requires lba + |data| <= |disk| && i < |data|
    ensures WithSector(Overwritten(disk, lba, data[..i]), lba + i, data[i]) == Overwritten(disk, lba, data[..i + 1])
  {
  }

  /** Whether the wrapping comparison of the driver lets a range through. */
  predicate CheckPasses(lba: U32, num: nat, size: U32) { (lba + num % TWO_32) % TWO_32 <= size }

  /** It agrees with the true comparison exactly if the sum does not wrap, or wraps to something
      that is still too large. */
  lemma CheckIsExactUnlessItWraps(lba: U32, num: nat, size: U32)
    requires num < TWO_32
    ensures (CheckPasses(lba, num, size) <==> lba + num <= size) <==> (lba + num < TWO_32 || lba + num - TWO_32 > size)
  {
  }

  lemma CheckPassesBeyondTheEnd()
    ensures CheckPasses(0xFFFF_FFFF, 1, 1000) && !(0xFFFF_FFFF + 1 <= 1000)
  {
  }

  /** The count byte carries the number of sectors exactly for 1 to 255 of them, and for the one
      number that each command writes as zero. */
  lemma CountByteIsExact(mode: LbaMode, len: nat)
    requires !mode.Unimplemented?
    ensures Expected(mode, len % 256) == len <==>
              1 <= len <= 255 || (mode.Lba28Mode? && len == 256) || (mode.Lba48Mode? && len == 0x1_0000)
  {
  }
}
