/** The PIO driver of drivers/ide/ide.c over the channels of module Ata. */
module Ide {
  import opened CTypes
  import opened Ata

  const MAXIMUM_IDE_DEVICES := 5
  const LBA_FEATURE := 0x200
  const STRIDE := 1024   // 16-bit words from one sector to the next: `buffer += 512` counts 32-bit words

  const REG_SECCOUNT0: uint8 := 0x02
  const REG_LBA0: uint8 := 0x03
  const REG_LBA1: uint8 := 0x04
  const REG_LBA2: uint8 := 0x05
  const REG_HDDEVSEL: uint8 := 0x06
  const REG_COMMAND: uint8 := 0x07
  const REG_SECCOUNT1: uint8 := 0x08
  const REG_LBA3: uint8 := 0x09
  const REG_LBA4: uint8 := 0x0A
  const REG_LBA5: uint8 := 0x0B
  const REG_CONTROL: uint8 := 0x0C

  datatype Mode = Chs | Lba28 | Lba48

  datatype Kind = AtaDisk | Atapi

  datatype Device = Device(present: bool, channel: nat, drive: nat, kind: Kind, features: uint16, size: uint32)

  predicate Has(v: nat, bit: nat)
    requires bit > 0
  {
    v / bit % 2 == 1
  }

  function ModeOf(d: Device, lba: uint32): Mode {
    if lba >= 0x1000_0000 then Lba48
    else if Has(d.features, LBA_FEATURE) then Lba28
    else Chs
  }

  /** The sector the device ends up addressing: the requested one, but for CHS requests past the
      16-bit cylinder, which wrap. */
  function Target(mode: Mode, lba: uint32): int {
    if mode.Chs? then lba % CHS_LIMIT else lba
  }

  /** The drive has LBA, or the sector is past what 28 bits address. */
  predicate Linear(d: Device, lba: uint32) {
    lba >= 0x1000_0000 || d.features / 0x200 % 2 == 1
  }

  /** The sector a request for `lba` reaches: that one, unless its cylinder number does not fit. */
  function SectorFor(d: Device, lba: uint32): (s: int)
    ensures s == lba <==> lba >= 0x1000_0000 || d.features / 0x200 % 2 == 1 || lba < CHS_LIMIT
  {
    if Linear(d, lba) then lba else lba % CHS_LIMIT
  }

  /** How many sectors a request for `n` makes the device expect. */
  function CountFor(lba: uint32, n: uint8): nat {
    if n > 0 then n else if lba >= 0x1000_0000 then 0x1_0000 else 0x100
  }

  /** What the mode chosen from the device record and the sector number amounts to. */
  lemma ModeExact(d: Device, lba: uint32)
    ensures ModeOf(d, lba).Lba48? <==> lba >= 0x1000_0000
    ensures !ModeOf(d, lba).Chs? <==> lba >= 0x1000_0000 || d.features / 0x200 % 2 == 1
    ensures Target(ModeOf(d, lba), lba) == SectorFor(d, lba)
    ensures forall n :: SectorCount(ModeOf(d, lba), n) == CountFor(lba, n)
  {}

  function SectorCount(mode: Mode, n: uint8): nat {
    if n > 0 then n else if mode.Lba48? then 0x1_0000 else 0x100
  }

  /** ide_polling's verdict on a status byte. */
  function PollCode(status: uint8): uint8 {
    if Has(status, SR_ERR) then 2
    else if Has(status, SR_DF) then 1
    else if !Has(status, SR_DRQ) then 3
    else 0
  }

  /** ide_print_error's return value, from its argument and the error register. */
  function PrintCode(err: uint8, error: uint8): (code: uint8)
    ensures code == 0 <==> err == 0
  {
    if err == 1 then 19
    else if err == 2 then
      if Has(error, 0x80) then 13
      else if Has(error, 0x40) then 22
      else if Has(error, 0x20) then 3
      else if Has(error, 0x10) then 21
      else if Has(error, 0x08) then 3
      else if Has(error, 0x04) then 20
      else if Has(error, 0x02) then 3
      else if Has(error, 0x01) then 7
      else 2
    else if err == 3 then 23
    else if err == 4 then 8
    else err
  }

  predicate Clean(d: Disk, s: int) {
    0 <= s < |d.sectors| && (s in d.faults ==> !d.faults[s].err && !d.faults[s].df)
  }

  /** How many of the `n` sectors from `start` on are read before one is off the disk or faulty. */
  function Readable(d: Disk, start: int, n: nat): (k: nat)
    ensures k <= n
    ensures forall s :: start <= s < start + k ==> Clean(d, s)
    ensures k < n ==> !Clean(d, start + k)
    decreases n
  {
    if n == 0 || !Clean(d, start) then 0 else 1 + Readable(d, start + 1, n - 1)
  }

  predicate Holds(n: nat, buffer: seq<uint16>) {
    n == 0 || STRIDE * (n - 1) + SECTOR_WORDS <= |buffer|
  }

  /** Sector `i` of a buffer. */
  function Chunk(buffer: seq<uint16>, i: nat): Sector
    requires STRIDE * i + SECTOR_WORDS <= |buffer|
  {
    buffer[STRIDE * i..STRIDE * i + SECTOR_WORDS]
  }

  /** `after` is `before` with the first `k` sectors from `start` on copied in. */
  ghost predicate Filled(before: seq<uint16>, after: seq<uint16>, d: Disk, start: int, k: nat) {
    && |after| == |before|
    && forall j :: 0 <= j < |after| ==>
         after[j] == if j / STRIDE < k && j % STRIDE < SECTOR_WORDS && 0 <= start + j / STRIDE < |d.sectors|
                     then d.sectors[start + j / STRIDE][j % STRIDE] else before[j]
  }

  /** `after` is `before` with the sectors `start` to `start + k` replaced by those of the buffer,
      as far as the disk reaches. */
  ghost predicate Stored(before: Disk, after: Disk, buffer: seq<uint16>, start: int, k: nat)
    requires Holds(k, buffer)
  {
    && |after.sectors| == |before.sectors| && after.faults == before.faults
    && forall s :: 0 <= s < |after.sectors| ==>
         after.sectors[s] == if start <= s < start + k then Chunk(buffer, s - start) else before.sectors[s]
  }

  class Driver {
    var buses: seq<Channel>
    var noIntr: seq<uint8>
    /** The table, and the memory right behind it read as one more record. */
    var devices: seq<Device>

    /** A record that says it is present names one of the four units. */
    ghost predicate Valid()
      reads this
    {
      && |buses| == 2 && |noIntr| == 2 && |devices| == MAXIMUM_IDE_DEVICES + 1
      && (forall c :: 0 <= c < 2 ==> |buses[c].units| == 2)
      && forall d :: 0 <= d < |devices| && devices[d].present ==> devices[d].channel < 2 && devices[d].drive < 2
    }

    function DiskOf(drive: nat): Disk
      requires Valid() && drive <= MAXIMUM_IDE_DEVICES && devices[drive].present
      reads this
    {
      buses[devices[drive].channel].units[devices[drive].drive]
    }

    /** __kstd_outb on a port of channel `c`. */
    method Outb(c: nat, port: Port, data: uint8)
      requires Valid() && c < 2
      modifies this`buses
      ensures Valid() && buses == old(buses)[c := Ata.Out(old(buses[c]), port, data)]
    {
      buses := buses[c := Ata.Out(buses[c], port, data)];
    }

    /** ide_write_register. Registers 8 to 11 are the command-block registers 2 to 5 once more, so a
        second write pushes the first into the shadow. The writes to the control register around it go
        to the third port of the control block, so no register of the channel sees them: bit 7 is never
        raised, and the device control register keeps what it holds. */
    method WriteRegister(c: nat, reg: uint8, data: uint8)
      requires Valid() && c < 2
      modifies this`buses
      ensures Valid()
      ensures buses == if reg < 0x08 then old(buses)[c := Ata.Out(old(buses[c]), Base(reg), data)]
                       else if reg < 0x0C then old(buses)[c := Ata.Out(old(buses[c]), Base(reg - 0x06), data)]
                       else old(buses)
      decreases if 0x08 <= reg < 0x0C then 1 else 0
    {
      if 0x07 < reg < 0x0C {
        WriteRegister(c, REG_CONTROL, 0x80 + noIntr[c] % 0x80);
      }
      if reg < 0x08 {
        Outb(c, Base(reg), data);
      } else if reg < 0x0C {
        Outb(c, Base(reg - 0x06), data);
      } else if reg < 0x0E {
        Outb(c, Control(reg - 0x0A), data);
      } else if reg < 0x16 {
        Outb(c, BusMaster(reg - 0x0E), data);
      }
      if 0x07 < reg < 0x0C {
        WriteRegister(c, REG_CONTROL, noIntr[c]);
      }
    }

    /** ide_polling: with the check asked for, 0 exactly when a block can be moved without trouble. */
    method Polling(c: nat, advanced: bool) returns (err: uint8)
      requires Valid() && c < 2
      ensures err == if advanced then PollCode(Status(buses[c])) else 0
      ensures advanced ==> (err == 0 <==> Deliverable(buses[c]))
    {
      PollExact(buses[c]);
      if advanced {
        var state := Status(buses[c]);
        if Has(state, SR_ERR) {
          return 2;
        }
        if Has(state, SR_DF) {
          return 1;
        }
        if !Has(state, SR_DRQ) {
          return 3;
        }
      }
      return 0;
    }

    /** Drive select and parameters, in the driver's order. In LBA48 mode the shadowed half of each
        register is written first. */
    method WriteParameters(c: nat, p: Params, n: uint8)
      requires Valid() && c < 2
      modifies this`buses
      ensures Valid() && OnlyRegisters(old(buses), buses, c)
      ensures var (was, tf) := (old(buses[c].tf), buses[c].tf);
              && tf.device == p.device
              && tf.count == Reg(n, if p.mode.Lba48? then 0 else was.count.cur)
              && tf.low == Reg(p.io0, if p.mode.Lba48? then p.io3 else was.low.cur)
              && tf.mid == Reg(p.io1, if p.mode.Lba48? then 0 else was.mid.cur)
              && tf.high == Reg(p.io2, if p.mode.Lba48? then 0 else was.high.cur)
    {
      WriteRegister(c, REG_HDDEVSEL, p.device);
      if p.mode.Lba48? {
        WriteRegister(c, REG_SECCOUNT1, 0);
        WriteRegister(c, REG_LBA3, p.io3);
        WriteRegister(c, REG_LBA4, 0);
        WriteRegister(c, REG_LBA5, 0);
      }
      WriteRegister(c, REG_SECCOUNT0, n);
      WriteRegister(c, REG_LBA0, p.io0);
      WriteRegister(c, REG_LBA1, p.io1);
      WriteRegister(c, REG_LBA2, p.io2);
    }

    /** The first part of ide_ata_access. Whatever the registers held before, the device decodes the
        addressed sector, the count and the unit. */
    method Program(drive: nat, lba: uint32, n: uint8) returns (mode: Mode)
      requires Valid() && drive <= MAXIMUM_IDE_DEVICES && devices[drive].present
      modifies this`buses, this`noIntr
      ensures Valid() && (mode.Lba48? <==> lba >= 0x1000_0000)
      ensures var (c, d) := (devices[drive].channel, devices[drive]);
              && OnlyRegisters(old(buses), buses, c)
              && buses[c].tf.Unit() == d.drive
              && (buses[c].tf.UsesLba() <==> lba >= 0x1000_0000 || d.features / 0x200 % 2 == 1)
              && Addressed(mode, buses[c].tf) == SectorFor(d, lba)
              && Counted(mode, buses[c].tf) == CountFor(lba, n)
    {
      var c := devices[drive].channel;
      noIntr := noIntr[c := 0x02];
      WriteRegister(c, REG_CONTROL, 0x02);
      mode := ModeOf(devices[drive], lba);
      var p := Split(mode, devices[drive].drive, lba);
      WriteParameters(c, p, n);
      ModeExact(devices[drive], lba);
      SplitDecodes(mode, devices[drive].drive, lba, buses[c].tf);
    }

    /** `rep insw`: one sector from the data port into the buffer. */
    method Insw(c: nat, buffer: array<uint16>, at: nat)
      requires Valid() && c < 2 && at + SECTOR_WORDS <= buffer.Length
      modifies this`buses, buffer
      ensures Valid() && buses == old(buses)[c := InBlock(old(buses[c])).0]
      ensures buffer[..] == old(buffer[..])[..at] + InBlock(old(buses[c])).1 + old(buffer[..])[at + SECTOR_WORDS..]
    {
      var (ch, block) := InBlock(buses[c]);
      buses := buses[c := ch];
      forall k | 0 <= k < SECTOR_WORDS {
        buffer[at + k] := block[k];
      }
    }

    /** `rep outsw`: one sector from the buffer to the data port. */
    method Outsw(c: nat, buffer: array<uint16>, i: nat)
      requires Valid() && c < 2 && STRIDE * i + SECTOR_WORDS <= buffer.Length
      modifies this`buses
      ensures Valid() && buses == old(buses)[c := OutBlock(old(buses[c]), Chunk(buffer[..], i))]
    {
      buses := buses[c := OutBlock(buses[c], Chunk(buffer[..], i))];
    }

    /** One turn of the PIO read loop: sector `i` of a transfer, polled for and moved. */
    method ReadBlock(c: nat, i: nat, buffer: array<uint16>, ghost p: Phase, ghost before: seq<uint16>)
      returns (err: uint8)
      requires Valid() && c < 2 && STRIDE * i + SECTOR_WORDS <= buffer.Length
      requires p.Data? && !p.write && p.unit < 2 && i < p.left && buses[c].phase == PhaseAt(p, i)
      requires Filled(before, buffer[..], buses[c].units[p.unit], p.next, i)
      modifies this`buses, buffer
      ensures Valid()
      ensures var d := old(buses[c].units[p.unit]);
              if Clean(d, p.next + i) then
                && err == 0 && buses == old(buses)[c := old(buses[c]).(phase := PhaseAt(p, i + 1))]
                && Filled(before, buffer[..], d, p.next, i + 1)
              else
                && err == PollCode(ReadStatus(d, p.next + i)) != 0
                && buses == old(buses) && buffer[..] == old(buffer[..])
    {
      hide Filled;
      ghost var (d, was) := (buses[c].units[p.unit], buffer[..]);
      err := Polling(c, true);
      if err != 0 {
        return;
      }
      PhaseStep(p, i);
      Insw(c, buffer, STRIDE * i);
      FilledStep(before, was, buffer[..], d, p.next, i);
    }

    /** The PIO read loop of ide_ata_access: it stops at the first sector the device does not
        deliver, with that sector's error. */
    method PioRead(c: nat, n: uint8, buffer: array<uint16>) returns (err: uint8)
      requires Valid() && c < 2 && Holds(n, buffer[..])
      requires var p := buses[c].phase; p.Data? && !p.write && p.unit < 2 && n <= p.left && 0 < p.left
      modifies this`buses, buffer
      ensures Valid()
      ensures var (d, start) := (old(buses[c].units[buses[c].phase.unit]), old(buses[c].phase.next));
              var k := Readable(d, start, n);
              && buses == old(buses)[c := old(buses[c]).(phase := PhaseAt(old(buses[c].phase), k))]
              && err == (if k < n then PollCode(ReadStatus(d, start + k)) else 0)
              && Filled(old(buffer[..]), buffer[..], d, start, k)
    {
      ghost var p := buses[c].phase;
      ghost var d := buses[c].units[p.unit];
      assert Filled(buffer[..], buffer[..], d, p.next, 0);
      hide Filled, Clean, PollCode, ReadStatus, Readable;
      var i: uint16 := 0;
      while i < n
        invariant i <= n && Valid()
        invariant buses == old(buses)[c := old(buses[c]).(phase := PhaseAt(p, i))]
        invariant forall s :: p.next <= s < p.next + i ==> Clean(d, s)
        invariant Filled(old(buffer[..]), buffer[..], d, p.next, i)
      {
        err := ReadBlock(c, i, buffer, p, old(buffer[..]));
        if err != 0 {
          ReadableIs(d, p.next, n, i);
          return;
        }
        i := i + 1;
      }
      ReadableIs(d, p.next, n, n);
      return 0;
    }

    /** The PIO write loop of ide_ata_access. The polling result is not looked at. */
    method PioWrite(c: nat, n: uint8, buffer: array<uint16>)
      requires Valid() && c < 2 && Holds(n, buffer[..])
      requires var p := buses[c].phase; p.Data? && p.write && p.unit < 2 && n <= p.left && 0 < p.left
      modifies this`buses
      ensures Valid() && OnlyDisk(old(buses), buses, c, old(buses[c].phase.unit))
      ensures var (u, start) := (old(buses[c].phase.unit), old(buses[c].phase.next));
              Stored(old(buses[c].units[u]), buses[c].units[u], buffer[..], start, n)
    {
      ghost var (u, start) := (buses[c].phase.unit, buses[c].phase.next);
      assert Stored(buses[c].units[u], buses[c].units[u], buffer[..], start, 0);
      hide Stored;
      var i: uint16 := 0;
      while i < n
        invariant i <= n && Valid() && OnlyDisk(old(buses), buses, c, u)
        invariant buses[c].phase == PhaseAt(old(buses[c].phase), i)
        invariant Stored(old(buses[c].units[u]), buses[c].units[u], buffer[..], start, i)
      {
        var _ := Polling(c, false);
        PhaseStep(old(buses[c].phase), i);
        ghost var was := buses[c].units[u];
        Outsw(c, buffer, i);
        StoredStep(old(buses[c].units[u]), was, buses[c].units[u], buffer[..], start, i);
        i := i + 1;
      }
    }

    /** ide_ata_access up to the command: afterwards the device is about to move the addressed
        sectors, in the asked direction, and nothing has moved yet. */
    method Issue(write: bool, drive: nat, lba: uint32, n: uint8) returns (mode: Mode)
      requires Valid() && drive <= MAXIMUM_IDE_DEVICES && devices[drive].present
      modifies this`buses, this`noIntr
      ensures Valid() && (mode.Lba48? <==> lba >= 0x1000_0000)
      ensures var (c, u) := (devices[drive].channel, devices[drive].drive);
              && buses == old(buses)[c := buses[c]] && buses[c].units == old(buses[c].units)
              && buses[c].phase == Data(write, u, SectorFor(devices[drive], lba), CountFor(lba, n))
    {
      mode := Program(drive, lba, n);
      var cmd := if write then (if mode.Lba48? then CMD_WRITE_PIO_EXT else CMD_WRITE_PIO)
                 else (if mode.Lba48? then CMD_READ_PIO_EXT else CMD_READ_PIO);
      WriteRegister(devices[drive].channel, REG_COMMAND, cmd);
    }

    /** ide_ata_access. */
    method Access(write: bool, drive: nat, lba: uint32, n: uint8, buffer: array<uint16>) returns (err: uint8)
      requires Valid() && drive <= MAXIMUM_IDE_DEVICES && devices[drive].present && Holds(n, buffer[..])
      modifies this`buses, this`noIntr, buffer
      ensures Valid() && OnlyDisk(old(buses), buses, devices[drive].channel, devices[drive].drive)
      ensures write ==> err == 0 && buffer[..] == old(buffer[..])
      ensures write ==> Stored(old(DiskOf(drive)), DiskOf(drive), buffer[..], SectorFor(devices[drive], lba), n)
      ensures write ==> buses[devices[drive].channel].phase == Idle
      ensures !write ==> DiskOf(drive) == old(DiskOf(drive))
      ensures !write ==> buses[devices[drive].channel].phase
                         == AfterRead(old(DiskOf(drive)), devices[drive].drive, SectorFor(devices[drive], lba), lba, n)
      ensures !write ==> Read(DiskOf(drive), SectorFor(devices[drive], lba), n, old(buffer[..]), buffer[..], err)
    {
      hide Stored, Filled, Readable, PollCode, ReadStatus, SectorFor;
      var c := devices[drive].channel;
      var mode := Issue(write, drive, lba, n);
      if write {
        PioWrite(c, n, buffer);
        WriteRegister(c, REG_COMMAND, if mode.Lba48? then CMD_CACHE_FLUSH_EXT else CMD_CACHE_FLUSH);
        var _ := Polling(c, false);
        err := 0;
      } else {
        err := PioRead(c, n, buffer);
      }
    }

    /** The checks both entry points make. The test of the device number lets MAXIMUM_IDE_DEVICES
        through, to whatever lies behind the table. */
    method Check(drive: uint8, n: uint8, lba: uint32) returns (code: int)
      requires Valid()
      ensures code == CheckCode(devices, drive, n, lba)
    {
      if drive > MAXIMUM_IDE_DEVICES || !devices[drive].present {
        return -1;
      } else if Wrap32(lba + n) > devices[drive].size && devices[drive].kind.AtaDisk? {
        return -2;
      }
      return 0;
    }

    /** ide_read_sectors. `stale` is the uninitialised local an ATAPI request returns, `error` the
        device's error register. */
    method ReadSectors(drive: uint8, n: uint8, lba: uint32, buffer: array<uint16>, stale: uint8, error: uint8)
      returns (code: int)
      requires Valid()
      requires CheckCode(devices, drive, n, lba) == 0 && devices[drive].kind.AtaDisk? ==> Holds(n, buffer[..])
      modifies this`buses, this`noIntr, buffer
      ensures Valid()
      ensures CheckCode(devices, drive, n, lba) < 0 ==>
                code == CheckCode(devices, drive, n, lba) && buses == old(buses) && buffer[..] == old(buffer[..])
      ensures CheckCode(devices, drive, n, lba) == 0 && devices[drive].kind.Atapi? ==>
                code == PrintCode(stale, error) && buses == old(buses) && buffer[..] == old(buffer[..])
      ensures CheckCode(devices, drive, n, lba) == 0 && devices[drive].kind.AtaDisk? ==>
                && DiskOf(drive) == old(DiskOf(drive))
                && OnlyDisk(old(buses), buses, devices[drive].channel, devices[drive].drive)
                && exists err :: code == PrintCode(err, error) && Read(DiskOf(drive),
                     SectorFor(devices[drive], lba), n, old(buffer[..]), buffer[..], err)
    {
      code := Check(drive, n, lba);
      if code == 0 {
        var err := stale;
        if devices[drive].kind.AtaDisk? {
          err := Access(false, drive, lba, n, buffer);
        }
        code := PrintCode(err, error);
      }
    }

    /** ide_write_sectors. */
    method WriteSectors(drive: uint8, n: uint8, lba: uint32, buffer: array<uint16>, stale: uint8, error: uint8)
      returns (code: int)
      requires Valid()
      requires CheckCode(devices, drive, n, lba) == 0 && devices[drive].kind.AtaDisk? ==> Holds(n, buffer[..])
      modifies this`buses, this`noIntr, buffer
      ensures Valid() && buffer[..] == old(buffer[..])
      ensures CheckCode(devices, drive, n, lba) < 0 ==> code == CheckCode(devices, drive, n, lba) && buses == old(buses)
      ensures CheckCode(devices, drive, n, lba) == 0 && devices[drive].kind.Atapi? ==>
                code == PrintCode(stale, error) && buses == old(buses)
      ensures CheckCode(devices, drive, n, lba) == 0 && devices[drive].kind.AtaDisk? ==>
                && code == 0 && OnlyDisk(old(buses), buses, devices[drive].channel, devices[drive].drive)
                && buses[devices[drive].channel].phase == Idle
                && Stored(old(DiskOf(drive)), DiskOf(drive), buffer[..], SectorFor(devices[drive], lba), n)
    {
      code := Check(drive, n, lba);
      if code == 0 {
        var err := stale;
        if devices[drive].kind.AtaDisk? {
          err := Access(true, drive, lba, n, buffer);
        }
        code := PrintCode(err, error);
      }
    }

    /** The disk round trip: writing a range and reading it back through the register protocol gives
        back every sector, and nothing outside the range has changed, in all three modes. */
    method WriteThenRead(drive: uint8, n: uint8, lba: uint32, buffer: array<uint16>, back: array<uint16>)
      returns (wrote: int, read: int)
      requires Valid() && drive <= MAXIMUM_IDE_DEVICES && buffer != back
      requires Holds(n, buffer[..]) && Holds(n, back[..])
      requires devices[drive].present && devices[drive].kind.AtaDisk?
      requires lba + n <= devices[drive].size <= |DiskOf(drive).sectors|
      requires Linear(devices[drive], lba) || lba < CHS_LIMIT
      requires forall s :: lba <= s < lba + n ==> Clean(DiskOf(drive), s)
      modifies this`buses, this`noIntr, buffer, back
      ensures Valid() && wrote == 0 && read == 0
      ensures forall i :: 0 <= i < n ==> Chunk(back[..], i) == old(Chunk(buffer[..], i))
      ensures |DiskOf(drive).sectors| == old(|DiskOf(drive).sectors|)
      ensures forall s :: 0 <= s < |DiskOf(drive).sectors| && !(lba <= s < lba + n) ==>
                DiskOf(drive).sectors[s] == old(DiskOf(drive).sectors[s])
      ensures OnlyDisk(old(buses), buses, devices[drive].channel, devices[drive].drive)
    {
      assert CheckCode(devices, drive, n, lba) == 0 && SectorFor(devices[drive], lba) == lba;
      ghost var d := DiskOf(drive);
      wrote := WriteSectors(drive, n, lba, buffer, 0, 0);
      ghost var written := DiskOf(drive);
      assert Stored(d, written, buffer[..], lba, n);
      read := ReadSectors(drive, n, lba, back, 0, 0);
      StoredReadsBack(d, written, buffer[..], old(back[..]), back[..], lba, n);
    }
  }

  /** -1 for a device that is not there, -2 for a range past its size, 0 for a request that is made. */
  function CheckCode(devices: seq<Device>, drive: uint8, n: uint8, lba: uint32): int
    requires |devices| == MAXIMUM_IDE_DEVICES + 1
  {
    if drive > MAXIMUM_IDE_DEVICES || !devices[drive].present then -1
    else if Wrap32(lba + n) > devices[drive].size && devices[drive].kind.AtaDisk? then -2
    else 0
  }

  /** A request to a present disk is made exactly when its end, as a 32-bit sum, is not past the disk's
      size; so one whose end wraps is let through. */
  lemma CheckExact(devices: seq<Device>, drive: uint8, n: uint8, lba: uint32)
    requires |devices| == MAXIMUM_IDE_DEVICES + 1
    ensures var code := CheckCode(devices, drive, n, lba);
            && code in {0, -1, -2}
            && (code == -1 <==> drive > 5 || !devices[drive].present)
            && (code == -2 <==>
                  drive <= 5 && devices[drive].present && devices[drive].kind.AtaDisk?
                  && devices[drive].size < lba + n
                  && (lba + n < 0x1_0000_0000 || devices[drive].size < lba + n - 0x1_0000_0000))
  {}

  /** On every disk the last 32-bit sector number passes the check. */
  lemma CheckWraps(devices: seq<Device>, drive: uint8)
    requires |devices| == MAXIMUM_IDE_DEVICES + 1 && drive <= 5 && devices[drive].present
    ensures CheckCode(devices, drive, 1, 0xFFFF_FFFF) == 0
  {}

  /** The bits of the error register, and the code printed for each. */
  const ERROR_BITS: seq<int> := [1, 2, 4, 8, 16, 32, 64, 128]
  const ERROR_CODES: seq<int> := [7, 3, 20, 3, 21, 3, 22, 13]

  /** For an error the highest bit of the error register decides, for anything else the error alone. */
  lemma PrintExact(err: uint8, error: uint8, bit: nat)
    requires bit < 8
    ensures ERROR_BITS[bit] <= error < 2 * ERROR_BITS[bit] ==> PrintCode(2, error) == ERROR_CODES[bit]
    ensures PrintCode(2, 0) == 2
    ensures PrintCode(0, error) == 0 && PrintCode(1, error) == 19 && PrintCode(3, error) == 23
    ensures PrintCode(4, error) == 8 && (err > 4 ==> PrintCode(err, error) == err)
  {
    assert bit in {0, 1, 2, 3, 4, 5, 6, 7};
  }

  lemma ReadableIs(d: Disk, start: int, n: nat, k: nat)
    requires k <= n && (forall s :: start <= s < start + k ==> Clean(d, s))
    requires k < n ==> !Clean(d, start + k)
    ensures Readable(d, start, n) == k
    decreases n
  {}

  lemma PhaseStep(p: Phase, i: nat)
    requires p.Data? && i < p.left
    ensures PhaseAt(p, i).Data? && Advance(PhaseAt(p, i)) == PhaseAt(p, i + 1)
  {}

  lemma StoredStep(before: Disk, was: Disk, after: Disk, buffer: seq<uint16>, start: int, i: nat)
    requires Holds(i + 1, buffer) && Stored(before, was, buffer, start, i)
    requires after == if 0 <= start + i < |was.sectors|
                      then was.(sectors := was.sectors[start + i := Chunk(buffer, i)]) else was
    ensures Stored(before, after, buffer, start, i + 1)
  {}

  /** Where a transfer stands after `i` blocks. */
  function PhaseAt(p: Phase, i: nat): Phase
    requires p.Data? && i <= p.left
  {
    if i == p.left then Idle else p.(next := p.next + i, left := p.left - i)
  }

  /** The result of reading: the sectors before the first one the device does not deliver. */
  ghost predicate Read(d: Disk, start: int, n: nat, before: seq<uint16>, after: seq<uint16>, err: uint8) {
    var k := Readable(d, start, n);
    && err == (if k < n then PollCode(ReadStatus(d, start + k)) else 0)
    && Filled(before, after, d, start, k)
  }

  /** Where a read leaves the channel: behind the sectors it got, and still waiting for the rest of those
      the device expects to move. */
  function AfterRead(d: Disk, unit: nat, start: int, lba: uint32, n: uint8): Phase {
    PhaseAt(Data(false, unit, start, CountFor(lba, n)), Readable(d, start, n))
  }

  /** From `before` to `after` at most unit `u` of channel `c` changed its contents. */
  ghost predicate OnlyDisk(before: seq<Channel>, after: seq<Channel>, c: nat, u: nat)
    requires c < |before| && u < |before[c].units|
  {
    && |after| == |before| && after == before[c := after[c]]
    && |after[c].units| == |before[c].units| && after[c].units == before[c].units[u := after[c].units[u]]
  }

  /** What one transfer stored the next one reads, with no error, into any buffer. */
  lemma StoredReadsBack(d: Disk, written: Disk, buffer: seq<uint16>, before: seq<uint16>, after: seq<uint16>,
                        start: int, n: nat)
    requires Holds(n, buffer) && Holds(n, before)
    requires forall s :: start <= s < start + n ==> Clean(d, s)
    requires Stored(d, written, buffer, start, n)
    ensures forall err :: Read(written, start, n, before, after, err) ==>
              err == 0 && forall i :: 0 <= i < n ==> Chunk(after, i) == Chunk(buffer, i)
  {
    forall s | start <= s < start + n ensures Clean(written, s) {
      assert Clean(d, s);
    }
    ReadableIs(written, start, n, n);
    forall err, i | Read(written, start, n, before, after, err) && 0 <= i < n
      ensures Chunk(after, i) == Chunk(buffer, i)
    {
      assert Clean(d, start + i);
      ChunkFilled(before, after, written, start, n, i);
      assert written.sectors[start + i] == Chunk(buffer, i);
    }
  }

  lemma ChunkFilled(before: seq<uint16>, after: seq<uint16>, d: Disk, start: int, k: nat, i: nat)
    requires Filled(before, after, d, start, k) && i < k && STRIDE * i + SECTOR_WORDS <= |after|
    requires 0 <= start + i < |d.sectors|
    ensures Chunk(after, i) == d.sectors[start + i]
  {}

  /** The device can move the next block: it is waiting for data and the sector is on the disk, and
      for a read without fault. */
  predicate Deliverable(ch: Channel) {
    && ch.phase.Data?
    && OnDisk(ch, ch.phase.unit, ch.phase.next)
    && (!ch.phase.write ==> Clean(ch.units[ch.phase.unit], ch.phase.next))
  }

  /** A read has come to a sector whose fault the device reports as a device fault alone. */
  predicate DriveFault(ch: Channel) {
    && ch.phase.Data? && !ch.phase.write
    && OnDisk(ch, ch.phase.unit, ch.phase.next)
    && var d := ch.units[ch.phase.unit];
       ch.phase.next in d.faults && d.faults[ch.phase.next] == Fault(false, true)
  }

  /** What each verdict of ide_polling says about the transfer. */
  lemma PollExact(ch: Channel)
    ensures PollCode(Status(ch)) == 0 <==> Deliverable(ch)
    ensures PollCode(Status(ch)) == 1 <==> DriveFault(ch)
    ensures PollCode(Status(ch)) == 2 <==> !Deliverable(ch) && !DriveFault(ch) && !ch.phase.Idle?
    ensures PollCode(Status(ch)) == 3 <==> ch.phase.Idle?
  {}

  /** A sector is delivered exactly when polling finds nothing to report. */
  lemma PollClean(d: Disk, s: int)
    ensures PollCode(ReadStatus(d, s)) == 0 <==> Clean(d, s)
  {}

  /** A read returns 0 exactly when every sector asked for was on the disk and without fault. */
  lemma ReadReportsExactly(d: Disk, start: int, n: nat, before: seq<uint16>, after: seq<uint16>, err: uint8, error: uint8)
    requires Read(d, start, n, before, after, err)
    ensures PrintCode(err, error) == 0 <==> forall s :: start <= s < start + n ==> Clean(d, s)
  {
    var k := Readable(d, start, n);
    if k < n {
      PollClean(d, start + k);
    }
  }

  lemma FilledStep(before: seq<uint16>, was: seq<uint16>, after: seq<uint16>, d: Disk, start: int, i: nat)
    requires Filled(before, was, d, start, i) && Clean(d, start + i)
    requires STRIDE * i + SECTOR_WORDS <= |was|
    requires after == was[..STRIDE * i] + d.sectors[start + i] + was[STRIDE * i + SECTOR_WORDS..]
    ensures Filled(before, after, d, start, i + 1)
  {}

  // ---- addressing -----------------------------------------------------------------------------

  /** The bytes the driver prepares: device register and the low to high address bytes. */
  datatype Params = Params(mode: Mode, device: uint8, io0: uint8, io1: uint8, io2: uint8, io3: uint8)

  /** The three address computations of ide_ata_access. The masks select disjoint bit fields, so they
      and the shifts are quotients and remainders, and `|` is a sum. */
  function Split(mode: Mode, slave: nat, lba: uint32): Params
    requires slave < 2
    requires !mode.Lba48? ==> lba < 0x1000_0000
  {
    match mode
    case Lba48 =>
      Params(mode, 0xE0 + 0x10 * slave,
             lba % 0x100, lba / 0x100 % 0x100, lba / 0x1_0000 % 0x100, lba / 0x100_0000)
    case Lba28 =>
      Params(mode, 0xE0 + 0x10 * slave + lba / 0x100_0000,
             lba % 0x100, lba / 0x100 % 0x100, lba / 0x1_0000 % 0x100, 0)
    case Chs =>
      var sect := lba % SECTORS_PER_TRACK + 1;
      var cyl := (lba + 1 - sect) / (HEADS * SECTORS_PER_TRACK) % 0x1_0000;
      var head := (lba + 1 - sect) % (HEADS * SECTORS_PER_TRACK) / SECTORS_PER_TRACK;
      Params(mode, 0xA0 + 0x10 * slave + head, sect, cyl % 0x100, cyl / 0x100, 0)
  }

  function Addressed(mode: Mode, tf: TaskFile): int {
    if mode.Lba48? then tf.Address48() else tf.Address28()
  }

  function Counted(mode: Mode, tf: TaskFile): nat {
    if mode.Lba48? then tf.Count48() else tf.Count28()
  }

  /** From `before` to `after` only registers of channel `c` changed. */
  ghost predicate OnlyRegisters(before: seq<Channel>, after: seq<Channel>, c: nat)
    requires c < |before|
  {
    && |after| == |before|
    && after == before[c := before[c].(tf := after[c].tf)]
  }

  lemma ChsRoundTrip(lba: uint32)
    ensures var sect := lba % SECTORS_PER_TRACK + 1;
            var cyl := (lba + 1 - sect) / (HEADS * SECTORS_PER_TRACK) % 0x1_0000;
            var head := (lba + 1 - sect) % (HEADS * SECTORS_PER_TRACK) / SECTORS_PER_TRACK;
            && 1 <= sect <= SECTORS_PER_TRACK && 0 <= head < HEADS
            && (cyl * HEADS + head) * SECTORS_PER_TRACK + sect - 1 == lba % CHS_LIMIT
  {
    // With q tracks before the sector, the cylinder is q / 16 and the head q % 16.
    var q, r := lba / 63, lba % 63;
    assert lba - r == 63 * q;
    assert 63 * q / 1008 == q / 16 && 63 * q % 1008 == 63 * (q % 16);
    assert 63 * (q % 16) / 63 == q % 16;
    TrackNumber(q, r);
  }

  lemma TrackNumber(q: nat, r: nat)
    requires r < 63
    ensures (q / 16 % 0x1_0000 * 16 + q % 16) * 63 + r == (63 * q + r) % CHS_LIMIT
  {
    var c, h := q / 16, q % 16;
    var k, low := c / 0x1_0000, c % 0x1_0000;
    var first := (16 * low + h) * 63 + r;
    assert 63 * q + r == CHS_LIMIT * k + first;
    assert 0 <= first < CHS_LIMIT;
  }

  lemma DeviceByte(select: nat, slave: nat, head: nat)
    requires (select == 0xA0 || select == 0xE0) && slave < 2 && head < 0x10
    ensures var v := select + 0x10 * slave + head;
            && v < 0x100 && v / 0x10 % 2 == slave && v % 0x10 == head
            && (v / 0x40 % 2 == 1 <==> select == 0xE0)
  {}

  lemma FourBytes(x: uint32)
    ensures x == x % 0x100 + 0x100 * (x / 0x100 % 0x100) + 0x1_0000 * (x / 0x1_0000 % 0x100)
                 + 0x100_0000 * (x / 0x100_0000)
  {
    assert x / 0x1_0000 == x / 0x100 / 0x100 && x / 0x100_0000 == x / 0x1_0000 / 0x100;
  }

  /** Decoding what the driver writes gives back the unit and the sector number in every mode, with
      head and sector in the device's range in CHS mode. */
  lemma SplitDecodes(mode: Mode, slave: nat, lba: uint32, tf: TaskFile)
    requires slave < 2
    requires !mode.Lba48? ==> lba < 0x1000_0000
    requires var p := Split(mode, slave, lba);
             && tf.device == p.device && tf.low.cur == p.io0 && tf.mid.cur == p.io1 && tf.high.cur == p.io2
             && (mode.Lba48? ==> tf.low.prev == p.io3 && tf.mid.prev == 0 && tf.high.prev == 0)
    ensures tf.Unit() == slave && (tf.UsesLba() <==> !mode.Chs?)
    ensures mode.Chs? ==> tf.device % 0x10 < HEADS && 1 <= tf.low.cur <= SECTORS_PER_TRACK
    ensures Addressed(mode, tf) == Target(mode, lba)
  {
    match mode
    case Lba48 =>
      DeviceByte(0xE0, slave, 0);
      FourBytes(lba);
    case Lba28 =>
      DeviceByte(0xE0, slave, lba / 0x100_0000);
      FourBytes(lba);
    case Chs =>
      ChsRoundTrip(lba);
      var first := lba - lba % SECTORS_PER_TRACK;
      DeviceByte(0xA0, slave, first % (HEADS * SECTORS_PER_TRACK) / SECTORS_PER_TRACK);
  }

  /** With the registers as the driver writes them, the device is at the requested sector exactly when
      the request is not a CHS one past the 16-bit cylinder register. */
  lemma AddressingExact(mode: Mode, slave: nat, lba: uint32, tf: TaskFile)
    requires slave < 2
    requires !mode.Lba48? ==> lba < 0x1000_0000
    requires var p := Split(mode, slave, lba);
             && tf.device == p.device && tf.low.cur == p.io0 && tf.mid.cur == p.io1 && tf.high.cur == p.io2
             && (mode.Lba48? ==> tf.low.prev == p.io3 && tf.mid.prev == 0 && tf.high.prev == 0)
    ensures Addressed(mode, tf) == lba <==> !(mode.Chs? && lba >= CHS_LIMIT)
  {
    hide Split, Addressed;
    SplitDecodes(mode, slave, lba, tf);
  }
}
