/** The driver object: channel registers and the adapters on the other side of the port lines. */
module IdeDriver {
  import opened Bits
  import opened AtaDevice
  import opened Ide

  /** A transfer out to a sector that exists, with nothing of it sent yet. */
  predicate AtSectorStart(c: Channel) {
    c.transfer.DataOut? ==> c.transfer.words == [] && c.transfer.drive < |c.disks| && c.transfer.lba < |c.disks[c.transfer.drive]|
  }

  /** The adapter after a whole sector was sent. */
  function SectorSent(c: Channel, s: Sector): Channel
    requires AtSectorStart(c)
  {
    match c.transfer
    case DataOut(d, lba, left, _) =>
      c.(disks := c.disks[d := WithSector(c.disks[d], lba, s)],
         transfer := if left <= 1 then Idle else DataOut(d, lba + 1, left - 1, []))
    case _ => c
  }

  /** What sending `i` sectors of `data` has done. */
  ghost predicate SentSoFar(c0: Channel, c: Channel, d: nat, lba: nat, count: nat, data: seq<Sector>, i: nat)
    requires d < |c0.disks| && lba + count <= |c0.disks[d]| && i <= |data|
  {
    var stored := if i < count then i else count;
    && c.disks == c0.disks[d := Overwritten(c0.disks[d], lba, data[..stored])]
    && c.transfer == if i < count then DataOut(d, lba + i, count - i, []) else Idle
  }

  lemma OneSectorSent(c0: Channel, c: Channel, d: nat, lba: nat, count: nat, data: seq<Sector>, i: nat)
    requires d < |c0.disks| && lba + count <= |c0.disks[d]| && i < |data| && SentSoFar(c0, c, d, lba, count, data, i)
    ensures AtSectorStart(c) && SentSoFar(c0, SectorSent(c, data[i]), d, lba, count, data, i + 1)
  {
    if i < count {
      var disk := c0.disks[d];
      assert c.disks[d] == Overwritten(disk, lba, data[..i]);
      assert data[..i + 1][..i] == data[..i];
      OneMoreSector(disk, lba, data[..i + 1], i);
      assert data[..i + 1][..i + 1] == data[..i + 1];
      assert c.disks[d := Overwritten(disk, lba, data[..i + 1])] == c0.disks[d := Overwritten(disk, lba, data[..i + 1])];
    }
  }

  /** A transfer in of a sector that exists, with nothing of it received yet. */
  predicate AtSectorToRead(c: Channel) {
    c.transfer.DataIn? && c.transfer.pos == 0 && c.transfer.drive < |c.disks| && c.transfer.lba < |c.disks[c.transfer.drive]|
  }

  function NextSector(c: Channel): Sector
    requires AtSectorToRead(c)
  {
    c.disks[c.transfer.drive][c.transfer.lba]
  }

  function SectorReceived(c: Channel): Channel
    requires AtSectorToRead(c)
  {
    var t := c.transfer;
    c.(transfer := if t.left <= 1 then Idle else DataIn(t.drive, t.lba + 1, t.left - 1, 0))
  }

  /** What receiving `i` sectors has done. */
  ghost predicate ReceivedSoFar(c0: Channel, c: Channel, d: nat, lba: nat, count: nat, i: nat) {
    c.disks == c0.disks && c.transfer == if i < count then DataIn(d, lba + i, count - i, 0) else Idle
  }

  lemma OneSectorReceived(c0: Channel, c: Channel, d: nat, lba: nat, count: nat, i: nat)
    requires d < |c0.disks| && lba + count <= |c0.disks[d]| && i < count && ReceivedSoFar(c0, c, d, lba, count, i)
    ensures AtSectorToRead(c) && NextSector(c) == c0.disks[d][lba + i]
    ensures ReceivedSoFar(c0, SectorReceived(c), d, lba, count, i + 1)
    ensures c0.disks[d][lba..lba + i] + [c0.disks[d][lba + i]] == c0.disks[d][lba..lba + i + 1]
  {
  }

  lemma StartedReceiving(c0: Channel, c: Channel, mode: LbaMode, lba: nat, n: U8, slave: bool)
    requires Started(c0, c, mode, lba, n, slave, false)
    ensures InReach(c0, mode, lba, n, slave) ==> ReceivedSoFar(c0, c, DriveIndex(slave), lba, Expected(mode, n), 0)
  {
  }

  /** Everything a request needs: 1 to 255 sectors inside the drive and inside the reach of the
      addressing mode, and a drive that has the mode. */
  ghost predicate Usable(dev: IdeDevice, c: Channel, lba: U32, n: nat) {
    && 1 <= n <= 255 && DriveIndex(dev.slave) < |c.disks| && dev.size == |c.disks[DriveIndex(dev.slave)]|
    && lba + n <= dev.size
    && (lba < 0x1000_0000 ==> lba + n <= 0x1000_0000 && And(dev.capabilities, 0x200) != 0)
  }

  /** For up to 255 sectors of a drive whose size was identified correctly, these are exactly the
      requests that pass the range test of the driver, have an addressing mode and are not refused. */
  lemma UsableExactly(dev: IdeDevice, c: Channel, lba: U32, n: nat)
    requires 1 <= n <= 255 && DriveIndex(dev.slave) < |c.disks| && dev.size == |c.disks[DriveIndex(dev.slave)]|
    ensures var mode := ModeFor(dev, lba);
            && Expected(mode, n) == n
            && (Usable(dev, c, lba, n) <==> !mode.Unimplemented? && CheckPasses(lba, n, dev.size) && InReach(c, mode, lba, n, dev.slave))
  {
    hide And;
  }

  lemma StartedKeepsDisks(c: Channel, c': Channel, mode: LbaMode, lba: nat, n: U8, slave: bool, isWrite: bool)
    requires Started(c, c', mode, lba, n, slave, isWrite)
    ensures c'.disks == c.disks
  {
  }

  lemma ControlWrite(c: Channel)
    ensures RegisterWrite(c, CONTROL, NO_INTERRUPT, NO_INTERRUPT) == ControlBlock(c, NO_INTERRUPT)
  {
  }

  lemma StartedSending(c0: Channel, c: Channel, mode: LbaMode, lba: nat, n: U8, slave: bool, data: seq<Sector>)
    requires Started(c0, c, mode, lba, n, slave, true)
    ensures if InReach(c0, mode, lba, n, slave)
            then SentSoFar(c0, c, DriveIndex(slave), lba, Expected(mode, n), data, 0)
            else c.transfer.Idle?
  {
    if InReach(c0, mode, lba, n, slave) {
      var disk := c0.disks[DriveIndex(slave)];
      assert data[..0] == [] && Overwritten(disk, lba, []) == disk;
      assert c0.disks[DriveIndex(slave) := disk] == c0.disks;
    }
  }

  lemma FlushChangesNothing(c: Channel, mode: LbaMode, noInterrupt: U8)
    ensures var c' := RegisterWrite(c, COMMAND, if mode.Lba48Mode? then 0xEA else 0xE7, noInterrupt);
            c'.disks == c.disks && c'.transfer == c.transfer
  {
  }

  lemma SentIsAboutDisks(c0: Channel, c: Channel, c': Channel, d: nat, lba: nat, count: nat, data: seq<Sector>)
    requires d < |c0.disks| && lba + count <= |c0.disks[d]| && SentSoFar(c0, c, d, lba, count, data, |data|)
    requires c'.disks == c.disks && c'.transfer == c.transfer
    ensures SentSoFar(c0, c', d, lba, count, data, |data|)
  {
  }

  lemma IdleIgnoresData(c: Channel, s: Sector)
    requires c.transfer.Idle?
    ensures AtSectorStart(c) && SectorSent(c, s) == c
  {
  }

  lemma AlignFour(a: nat)
    requires a < TWO_32
    ensures And(a, 0xFFFF_FFFC) == a - a % 4
  {
    hide And, Pow2, Mask;
    assert Pow2(2) == 4 && Pow2(30) == 0x4000_0000 by { FourPowers(); }
    AndMask(a, 2, 30);
    MaskIsShiftedOnes(2, 30);
  }

  lemma FourPowers()
    ensures Pow2(2) == 4 && Pow2(30) == 0x4000_0000
  {
    assert Pow2(10) == 1024;
    assert Pow2(20) == 0x10_0000;
  }

  /** A byte sent to a port. */
  datatype PortByte = PortByte(port: nat, value: U8)

  /** What ide_write sends for one register: the high-order ones between two control bytes. */
  function PortBytes(io: nat, control: nat, noInterrupt: U8, reg: Register, data: U8): seq<PortByte> {
    if reg < 0x08 then [PortByte(io + reg, data)]
    else if reg < 0x0C then [PortByte(control, HighOrder(noInterrupt)), PortByte(io + reg - 6, data), PortByte(control, noInterrupt)]
    else [PortByte(control + reg - 0x0C, data)]
  }

  /** The count and the low three bytes of the address. */
  function LowBytes(io: nat, lba: U32, n: U8): seq<PortByte> {
    [PortByte(io + 2, n), PortByte(io + 3, lba % 256), PortByte(io + 4, lba / 0x100 % 256), PortByte(io + 5, lba / 0x1_0000 % 256)]
  }

  ghost function LowOrderWritten(c: Channel, lba: U32, n: U8): Channel {
    AddressReassembles(lba);
    RegisterWrite(RegisterWrite(RegisterWrite(RegisterWrite(c, SEC_COUNT_0, n, NO_INTERRUPT),
      LBA_0, LbaByte0(lba), NO_INTERRUPT), LBA_1, LbaByte1(lba), NO_INTERRUPT), LBA_2, LbaByte2(lba), NO_INTERRUPT)
  }

  ghost function RegistersWritten(c: Channel, mode: LbaMode, lba: U32, n: U8, slave: bool): Channel {
    AddressReassembles(lba);
    SelectByteMeaning(slave, Head(mode, lba));
    var c1 := RegisterWrite(c, DEVICE_SELECT, SelectByte(slave, Head(mode, lba)), NO_INTERRUPT);
    LowOrderWritten(if mode.Lba48Mode? then HighOrderWritten(c1, LbaByte3(lba)) else c1, lba, n)
  }

  lemma PreparedIsWritten(c: Channel, mode: LbaMode, lba: U32, n: U8, slave: bool)
    ensures Prepared(c, mode, lba, n, slave) == RegistersWritten(ControlBlock(c, NO_INTERRUPT), mode, lba, n, slave)
  {
    hide RegisterWrite, And, HighOrderWritten;
  }

  ghost function RegisterBytes(io: nat, control: nat, mode: LbaMode, lba: U32, n: U8, slave: bool): seq<PortByte> {
    AddressReassembles(lba);
    SelectByteMeaning(slave, Head(mode, lba));
    [PortByte(io + 6, SelectByte(slave, Head(mode, lba)))]
    + (if mode.Lba48Mode? then HighBytes(io, control, LbaByte3(lba)) else []) + LowBytes(io, lba, n)
  }

  /** The bytes that IoPrepare sends piece by piece are those of the command. */
  lemma BytesInOrder(io: nat, control: nat, mode: LbaMode, lba: U32, n: U8, slave: bool, isWrite: bool)
    requires !mode.Unimplemented?
    ensures [PortByte(control, 0x02)] + RegisterBytes(io, control, mode, lba, n, slave) + [PortByte(io + 7, CommandCode(mode, isWrite))]
            == if mode.Lba48Mode? then Bytes48(io, control, lba, n, slave, isWrite) else Bytes28(io, control, lba, n, slave, isWrite)
  {
    hide And, SelectByte, LbaByte0, LbaByte1, LbaByte2, LbaByte3, HeadBits, LowBytes, HighBytes;
    AddressReassembles(lba);
    LbaByteMeaning(lba);
    SelectByteMeaning(slave, Head(mode, lba));
  }

  function HighBytes(io: nat, control: nat, byte3: U8): seq<PortByte> {
    [PortByte(control, 0x82), PortByte(io + 2, 0), PortByte(control, 0x02)]
    + [PortByte(control, 0x82), PortByte(io + 3, byte3), PortByte(control, 0x02)]
    + [PortByte(control, 0x82), PortByte(io + 4, 0), PortByte(control, 0x02)]
    + [PortByte(control, 0x82), PortByte(io + 5, 0), PortByte(control, 0x02)]
  }

  /** The bytes of a 48-bit command, as the port numbers from `io` and the control port see them. */
  function Bytes48(io: nat, control: nat, lba: U32, n: U8, slave: bool, isWrite: bool): seq<PortByte> {
    [PortByte(control, 0x02), PortByte(io + 6, if slave then 0xF0 else 0xE0)]
    + HighBytes(io, control, lba / 0x100_0000 % 256)
    + LowBytes(io, lba, n)
    + [PortByte(io + 7, if isWrite then 0x34 else 0x24)]
  }

  /** The bytes of a 28-bit command. */
  function Bytes28(io: nat, control: nat, lba: U32, n: U8, slave: bool, isWrite: bool): seq<PortByte> {
    [PortByte(control, 0x02), PortByte(io + 6, (if slave then 0xF0 else 0xE0) + lba / 0x100_0000 % 16)]
    + LowBytes(io, lba, n)
    + [PortByte(io + 7, if isWrite then 0x30 else 0x20)]
  }

  function CommandBytes(channel: nat, mode: LbaMode, lba: U32, n: U8, slave: bool, isWrite: bool): seq<PortByte> {
    var io, control := if channel == 0 then 0x1F0 else 0x170, if channel == 0 then 0x3F6 else 0x376;
    match mode
    case Lba48Mode => Bytes48(io, control, lba, n, slave, isWrite)
    case Lba28Mode => Bytes28(io, control, lba, n, slave, isWrite)
    case Unimplemented => [PortByte(control, 0x02)]
  }

  /** The command that flushes the cache of the drive. */
  function FlushByte(channel: nat, mode: LbaMode): PortByte {
    PortByte(if channel == 0 then 0x1F7 else 0x177, if mode.Lba48Mode? then 0xEA else 0xE7)
  }

  class Controller {
    var registers: seq<ChannelRegister>
    var lines: seq<Channel>
    ghost var log: seq<PortByte>

    ghost predicate Wired()
      reads this
    {
      && |registers| == 2 && |lines| == 2
      && registers[0].ioBase == 0x1F0 && registers[0].ctrl == 0x3F4
      && registers[1].ioBase == 0x170 && registers[1].ctrl == 0x374
    }

    /** The register bases that ide_initialize computes from the legacy addresses. */
    constructor (lines: seq<Channel>)
      requires |lines| == 2
      ensures Wired() && this.lines == lines
    {
      hide And;
      AlignFour(0x1F0);
      AlignFour(0x3F6);
      AlignFour(0x170);
      AlignFour(0x376);
      registers := [ChannelRegister(And(0x1F0, 0xFFFF_FFFC), And(0x3F6, 0xFFFF_FFFC), 0),
                    ChannelRegister(And(0x170, 0xFFFF_FFFC), And(0x376, 0xFFFF_FFFC), 0)];
      this.lines := lines;
    }

    method PortOut(port: nat, v: U8)
      requires |lines| == 2
      modifies `lines, `log
      ensures |lines| == 2 && lines == PortWrite(old(lines), port, v) && log == old(log) + [PortByte(port, v)]
    {
      lines := PortWrite(lines, port, v);
      log := log + [PortByte(port, v)];
    }

    /** ide_write. */
    method IdeWrite(channel: nat, reg: Register, data: U8)
      requires Wired() && channel < 2
      modifies `lines, `log
      ensures Wired()
      ensures log == old(log) + PortBytes(registers[channel].ioBase, registers[channel].ctrl + 2, registers[channel].noInterrupt, reg, data)
      ensures lines == old(lines)[channel := RegisterWrite(old(lines)[channel], reg, data, registers[channel].noInterrupt)]
      decreases 0x07 < reg < 0x0C
    {
      if reg > 0x07 && reg < 0x0C {
        IdeWrite(channel, CONTROL, HighOrder(registers[channel].noInterrupt));
      }
      if reg < 0x08 {
        PortOut(registers[channel].ioBase + reg, data);
      } else if reg < 0x0C {
        PortOut(registers[channel].ioBase + reg - 0x06, data);
      } else if reg < 0x0E {
        PortOut(registers[channel].ctrl + reg - 0x0A, data);
      }
      if reg > 0x07 && reg < 0x0C {
        IdeWrite(channel, CONTROL, registers[channel].noInterrupt);
      }
    }

    method WriteHighOrder(channel: nat, byte3: U8)
      requires Wired() && channel < 2 && registers[channel].noInterrupt == NO_INTERRUPT
      modifies `lines, `log
      ensures Wired() && lines == old(lines)[channel := HighOrderWritten(old(lines)[channel], byte3)]
      ensures log == old(log) + HighBytes(registers[channel].ioBase, registers[channel].ctrl + 2, byte3)
    {
      hide RegisterWrite;
      IdeWrite(channel, SEC_COUNT_1, 0);
      IdeWrite(channel, LBA_3, byte3);
      IdeWrite(channel, LBA_4, 0);
      IdeWrite(channel, LBA_5, 0);
    }

    /** The count and the three low address bytes. */
    method WriteLowOrder(channel: nat, lba: U32, n: U8)
      requires Wired() && channel < 2 && registers[channel].noInterrupt == NO_INTERRUPT
      modifies `lines, `log
      ensures Wired() && lines == old(lines)[channel := LowOrderWritten(old(lines)[channel], lba, n)]
      ensures log == old(log) + LowBytes(registers[channel].ioBase, lba, n)
    {
      hide RegisterWrite, And, LbaByte0, LbaByte1, LbaByte2, LbaByte3, HeadBits;
      AddressReassembles(lba);
      LbaByteMeaning(lba);
      IdeWrite(channel, SEC_COUNT_0, n);
      IdeWrite(channel, LBA_0, LbaByte0(lba));
      IdeWrite(channel, LBA_1, LbaByte1(lba));
      IdeWrite(channel, LBA_2, LbaByte2(lba));
    }

    /** The registers of io_prepare, once the mode is known: drive, count, address. */
    method WriteRegisters(channel: nat, mode: LbaMode, lba: U32, n: U8, slave: bool)
      requires Wired() && channel < 2 && registers[channel].noInterrupt == NO_INTERRUPT && !mode.Unimplemented?
      modifies `lines, `log
      ensures Wired() && lines == old(lines)[channel := RegistersWritten(old(lines)[channel], mode, lba, n, slave)]
      ensures log == old(log) + RegisterBytes(registers[channel].ioBase, registers[channel].ctrl + 2, mode, lba, n, slave)
    {
      hide RegisterWrite, And, LbaByte0, LbaByte1, LbaByte2, LbaByte3, HeadBits, SelectByte, HighOrderWritten, LowOrderWritten, LowBytes, HighBytes;
      AddressReassembles(lba);
      SelectByteMeaning(slave, Head(mode, lba));
      IdeWrite(channel, DEVICE_SELECT, SelectByte(slave, Head(mode, lba)));
      if mode.Lba48Mode? {
        WriteHighOrder(channel, LbaByte3(lba));
      }
      WriteLowOrder(channel, lba, n);
    }

    /** io_prepare for PIO. */
    method IoPrepare(dev: IdeDevice, lba: U32, n: U8, isWrite: bool) returns (mode: LbaMode)
      requires Wired() && dev.channel < 2
      modifies this
      ensures Wired() && mode == ModeFor(dev, lba)
      ensures !mode.Unimplemented? ==> Started(old(lines)[dev.channel], lines[dev.channel], mode, lba, n, dev.slave, isWrite)
      ensures log == old(log) + CommandBytes(dev.channel, mode, lba, n, dev.slave, isWrite)
      ensures lines[dev.channel].disks == old(lines)[dev.channel].disks
      ensures lines[1 - dev.channel] == old(lines)[1 - dev.channel]
    {
      hide RegisterWrite, And, Started, RegistersWritten, RegisterBytes, CommandCode, Bytes48, Bytes28, Prepared;
      var k := dev.channel;
      var c := lines[k];
      registers := registers[k := registers[k].(noInterrupt := NO_INTERRUPT)];
      IdeWrite(k, CONTROL, NO_INTERRUPT);
      assert lines[k] == ControlBlock(c, NO_INTERRUPT) by { ControlWrite(c); }
      mode := ModeFor(dev, lba);
      if mode.Unimplemented? {
        return;
      }
      WriteRegisters(k, mode, lba, n, dev.slave);
      assert lines[k] == Prepared(c, mode, lba, n, dev.slave) by { PreparedIsWritten(c, mode, lba, n, dev.slave); }
      IdeWrite(k, COMMAND, CommandCode(mode, isWrite));
      BytesInOrder(registers[k].ioBase, registers[k].ctrl + 2, mode, lba, n, dev.slave, isWrite);
      CommandStarts(c, mode, lba, n, dev.slave, isWrite);
      StartedKeepsDisks(c, lines[k], mode, lba, n, dev.slave, isWrite);
    }

    /** The words of one sector through the data port. */
    method SendSector(channel: nat, s: Sector)
      requires Wired() && channel < 2 && AtSectorStart(lines[channel])
      modifies `lines
      ensures Wired() && lines == old(lines)[channel := SectorSent(old(lines)[channel], s)]
    {
      var c := lines[channel];
      for i := 0 to 256
        invariant Wired()
        invariant c.transfer.DataOut? && i < 256 ==>
                    lines == old(lines)[channel := c.(transfer := DataOut(c.transfer.drive, c.transfer.lba, c.transfer.left, s[..i]))]
        invariant c.transfer.DataOut? && i == 256 ==> lines == old(lines)[channel := SectorSent(c, s)]
        invariant !c.transfer.DataOut? ==> lines == old(lines)
      {
        assert s[..i] + [s[i]] == s[..i + 1];
        assert i + 1 == 256 ==> s[..i + 1] == s;
        lines := lines[channel := WriteData(lines[channel], s[i])];
      }
    }

    /** write_impl. */
    method WriteImpl(dev: IdeDevice, lba: U32, data: seq<Sector>) returns (mode: LbaMode)
      requires Wired() && dev.channel < 2
      modifies this
      ensures Wired() && mode == ModeFor(dev, lba)
      ensures !mode.Unimplemented? && InReach(old(lines)[dev.channel], mode, lba, |data| % 256, dev.slave) ==>
                SentSoFar(old(lines)[dev.channel], lines[dev.channel], DriveIndex(dev.slave), lba, Expected(mode, |data| % 256), data, |data|)
      ensures mode.Unimplemented? || !InReach(old(lines)[dev.channel], mode, lba, |data| % 256, dev.slave) ==>
                lines[dev.channel].disks == old(lines)[dev.channel].disks
      ensures lines[1 - dev.channel] == old(lines)[1 - dev.channel]
      ensures log == old(log) + CommandBytes(dev.channel, mode, lba, |data| % 256, dev.slave, true)
                              + (if mode.Unimplemented? then [] else [FlushByte(dev.channel, mode)])
    {
      hide CommandBytes, RegisterWrite, SectorSent, SentSoFar, AtSectorStart, And;
      var k := dev.channel;
      ghost var c0 := lines[k];
      var n := |data| % 256;
      ghost var d := DriveIndex(dev.slave);
      mode := IoPrepare(dev, lba, n, true);
      if mode.Unimplemented? {
        return;
      }
      ghost var started := InReach(c0, mode, lba, n, dev.slave);
      ghost var count := Expected(mode, n);
      StartedSending(c0, lines[k], mode, lba, n, dev.slave, data);
      for i := 0 to |data|
        invariant Wired() && lines[1 - k] == old(lines)[1 - k]
        invariant log == old(log) + CommandBytes(k, mode, lba, n, dev.slave, true)
        invariant if started then SentSoFar(c0, lines[k], d, lba, count, data, i) else lines[k].transfer.Idle? && lines[k].disks == c0.disks
      {
        if started {
          OneSectorSent(c0, lines[k], d, lba, count, data, i);
        } else {
          IdleIgnoresData(lines[k], data[i]);
        }
        SendSector(k, data[i]);
      }
      ghost var c := lines[k];
      IdeWrite(k, COMMAND, if mode.Lba48Mode? then 0xEA else 0xE7);
      FlushChangesNothing(c, mode, registers[k].noInterrupt);
      if started {
        SentIsAboutDisks(c0, c, lines[k], d, lba, count, data);
      }
    }

    /** One sector from the data port. */
    method ReceiveSector(channel: nat) returns (s: Sector)
      requires Wired() && channel < 2
      modifies `lines
      ensures Wired() && lines[1 - channel] == old(lines)[1 - channel] && lines[channel].disks == old(lines)[channel].disks
      ensures AtSectorToRead(old(lines)[channel]) ==>
                s == NextSector(old(lines)[channel]) && lines[channel] == SectorReceived(old(lines)[channel])
    {
      ghost var c := lines[channel];
      ghost var ready := AtSectorToRead(c);
      var buffer: seq<U16> := [];
      for i := 0 to 256
        invariant Wired() && |buffer| == i && lines[1 - channel] == old(lines)[1 - channel]
        invariant lines[channel].disks == c.disks
        invariant ready ==> buffer == NextSector(c)[..i]
        invariant ready ==> lines[channel] == if i < 256 then c.(transfer := c.transfer.(pos := i)) else SectorReceived(c)
      {
        var (word, after) := ReadData(lines[channel]);
        buffer := buffer + [word];
        lines := lines[channel := after];
      }
      s := buffer;
    }

    /** read_impl. */
    method ReadImpl(dev: IdeDevice, lba: U32, n: U8) returns (mode: LbaMode, result: seq<Sector>)
      requires Wired() && dev.channel < 2
      modifies this
      ensures Wired() && mode == ModeFor(dev, lba)
      ensures !mode.Unimplemented? && InReach(old(lines)[dev.channel], mode, lba, n, dev.slave) ==>
                && result == old(lines)[dev.channel].disks[DriveIndex(dev.slave)][lba..lba + n]
                && ReceivedSoFar(old(lines)[dev.channel], lines[dev.channel], DriveIndex(dev.slave), lba, Expected(mode, n), n)
      ensures lines[dev.channel].disks == old(lines)[dev.channel].disks
      ensures lines[1 - dev.channel] == old(lines)[1 - dev.channel]
      ensures log == old(log) + CommandBytes(dev.channel, mode, lba, n, dev.slave, false)
    {
      hide CommandBytes, And, SectorReceived, AtSectorToRead, NextSector, ReceivedSoFar;
      var k := dev.channel;
      ghost var c0 := lines[k];
      ghost var d := DriveIndex(dev.slave);
      result := [];
      mode := IoPrepare(dev, lba, n, false);
      if mode.Unimplemented? {
        return;
      }
      ghost var started := InReach(c0, mode, lba, n, dev.slave);
      ghost var count := Expected(mode, n);
      StartedReceiving(c0, lines[k], mode, lba, n, dev.slave);
      for i := 0 to n
        invariant Wired() && lines[1 - k] == old(lines)[1 - k]
        invariant log == old(log) + CommandBytes(k, mode, lba, n, dev.slave, false)
        invariant started ==> ReceivedSoFar(c0, lines[k], d, lba, count, i) && result == c0.disks[d][lba..lba + i]
        invariant lines[k].disks == c0.disks
      {
        if started {
          OneSectorReceived(c0, lines[k], d, lba, count, i);
        }
        var buffer := ReceiveSector(k);
        result := result + [buffer];
      }
    }

    /** BlockDevice::read. */
    method Read(dev: IdeDevice, lba: U32, num: U8) returns (r: Outcome<seq<Sector>>)
      requires Wired() && dev.channel < 2
      modifies this
      ensures Wired()
      ensures r.Err? <==> !CheckPasses(lba, num, dev.size)
      ensures r.Err? ==> lines == old(lines) && log == old(log)
      ensures Usable(dev, old(lines)[dev.channel], lba, num) ==>
                && r == Ok(old(lines)[dev.channel].disks[DriveIndex(dev.slave)][lba..lba + num])
                && lines[dev.channel].transfer.Idle?
      ensures lines[dev.channel].disks == old(lines)[dev.channel].disks
      ensures lines[1 - dev.channel] == old(lines)[1 - dev.channel]
    {
      if Usable(dev, lines[dev.channel], lba, num) {
        UsableExactly(dev, lines[dev.channel], lba, num);
      }
      hide InReach, ModeFor, Usable;
      if (lba + num % TWO_32) % TWO_32 > dev.size {
        return Err(OutOfRange);
      }
      var mode, result := ReadImpl(dev, lba, num);
      r := if mode.Unimplemented? then Panic else Ok(result);
    }

    /** BlockDevice::write. */
    method Write(dev: IdeDevice, lba: U32, data: seq<Sector>) returns (r: Outcome<()>)
      requires Wired() && dev.channel < 2
      modifies this
      ensures Wired()
      ensures r.Err? <==> !CheckPasses(lba, |data|, dev.size)
      ensures r.Err? ==> lines == old(lines) && log == old(log)
      ensures Usable(dev, old(lines)[dev.channel], lba, |data|) ==>
                var disks, d := old(lines)[dev.channel].disks, DriveIndex(dev.slave);
                && r == Ok(())
                && lines[dev.channel].disks == disks[d := Overwritten(disks[d], lba, data)] && lines[dev.channel].transfer.Idle?
      ensures !InReach(old(lines)[dev.channel], ModeFor(dev, lba), lba, |data| % 256, dev.slave) ==>
                lines[dev.channel].disks == old(lines)[dev.channel].disks
      ensures lines[1 - dev.channel] == old(lines)[1 - dev.channel]
    {
      if Usable(dev, lines[dev.channel], lba, |data|) {
        UsableExactly(dev, lines[dev.channel], lba, |data|);
        assert data[..|data|] == data;
      }
      hide InReach, ModeFor, Usable;
      if (lba + |data| % TWO_32) % TWO_32 > dev.size {
        return Err(OutOfRange);
      }
      var mode := WriteImpl(dev, lba, data);
      r := if mode.Unimplemented? then Panic else Ok(());
    }

    /** Writing and then reading the same range returns the data. */
    method WriteThenRead(dev: IdeDevice, lba: U32, data: seq<Sector>) returns (r: Outcome<seq<Sector>>)
      requires Wired() && dev.channel < 2 && Usable(dev, lines[dev.channel], lba, |data|)
      modifies this
      ensures Wired() && r == Ok(data)
      ensures var disks, disks' := old(lines)[dev.channel].disks, lines[dev.channel].disks;
              && |disks'| == |disks| && |disks'[DriveIndex(dev.slave)]| == dev.size
              && (forall d :: 0 <= d < |disks| && d != DriveIndex(dev.slave) ==> disks'[d] == disks[d])
              && forall i :: 0 <= i < dev.size && !(lba <= i < lba + |data|) ==>
                   disks'[DriveIndex(dev.slave)][i] == disks[DriveIndex(dev.slave)][i]
      ensures lines[1 - dev.channel] == old(lines)[1 - dev.channel]
    {
      hide And;
      ghost var disk := lines[dev.channel].disks[DriveIndex(dev.slave)];
      var written := Write(dev, lba, data);
      r := Read(dev, lba, |data|);
      ReadsBack(disk, lba, data);
    }
  }
}
