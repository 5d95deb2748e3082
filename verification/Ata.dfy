/** An ATA channel as the driver meets it: two-deep task-file registers, a transfer in progress, and
    two devices. Follows ATA/ATAPI-6, "48-bit Address feature set" and the READ SECTOR(S),
    WRITE SECTOR(S), READ SECTOR(S) EXT and WRITE SECTOR(S) EXT command descriptions. A device is
    never busy; when a command was refused or nothing is pending, no data moves. */
module Ata {
  import opened CTypes

  const SECTOR_WORDS := 256
  const HEADS := 16
  const SECTORS_PER_TRACK := 63
  const CHS_LIMIT := 65536 * HEADS * SECTORS_PER_TRACK

  const SR_ERR := 0x01
  const SR_DRQ := 0x08
  const SR_DF := 0x20
  const SR_DRDY := 0x40

  const CMD_READ_PIO: uint8 := 0x20
  const CMD_READ_PIO_EXT: uint8 := 0x24
  const CMD_WRITE_PIO: uint8 := 0x30
  const CMD_WRITE_PIO_EXT: uint8 := 0x34
  const CMD_CACHE_FLUSH: uint8 := 0xE7
  const CMD_CACHE_FLUSH_EXT: uint8 := 0xEA

  type Sector = s: seq<uint16> | |s| == SECTOR_WORDS witness seq(SECTOR_WORDS, _ => 0)

  /** A task-file register keeps the value before its latest one. */
  datatype Reg = Reg(cur: uint8, prev: uint8) {
    function Put(v: uint8): Reg {
      Reg(v, cur)
    }
  }

  datatype TaskFile = TaskFile(count: Reg, low: Reg, mid: Reg, high: Reg, device: uint8) {
    predicate UsesLba() {
      device / 0x40 % 2 == 1
    }

    function Unit(): nat
      ensures Unit() < 2
    {
      device / 0x10 % 2
    }

    /** The first sector a 28-bit command names: LBA, or cylinder, head and sector. */
    function Address28(): int {
      if UsesLba() then low.cur + 0x100 * mid.cur + 0x1_0000 * high.cur + 0x100_0000 * (device % 0x10)
      else ((mid.cur + 0x100 * high.cur) * HEADS + device % 0x10) * SECTORS_PER_TRACK + low.cur - 1
    }

    /** The first sector a 48-bit command names. */
    function Address48(): int {
      low.cur + 0x100 * mid.cur + 0x1_0000 * high.cur
      + 0x100_0000 * low.prev + 0x1_0000_0000 * mid.prev + 0x100_0000_0000 * high.prev
    }

    function Count28(): nat {
      if count.cur == 0 then 0x100 else count.cur
    }

    function Count48(): nat {
      if count.cur == 0 && count.prev == 0 then 0x1_0000 else count.cur + 0x100 * count.prev
    }
  }

  /** How a device reports trouble at a sector it is asked to read. */
  datatype Fault = Fault(err: bool, df: bool)

  datatype Disk = Disk(sectors: seq<Sector>, faults: map<int, Fault>)

  /** What the channel is moving: sector `next` of a device, and how many are left from there on. */
  datatype Phase =
    | Idle
    | Aborted
    | Data(write: bool, unit: nat, next: int, left: nat)

  datatype Channel = Channel(tf: TaskFile, control: uint8, phase: Phase, units: seq<Disk>)

  /** A port of the channel: in the command block, the control block or the bus master block. The
      control block is the one configured, from 0x3F6 on: the device control register is its first port,
      and its third, 0x3F8, belongs to no channel. */
  datatype Port = Base(offset: int) | Control(offset: int) | BusMaster(offset: int)

  function Start(ch: Channel, write: bool, ext: bool): Channel {
    var tf := ch.tf;
    ch.(phase := if ext then Data(write, tf.Unit(), tf.Address48(), tf.Count48())
                 else Data(write, tf.Unit(), tf.Address28(), tf.Count28()))
  }

  function Execute(ch: Channel, cmd: uint8): Channel {
    if cmd == CMD_READ_PIO then Start(ch, false, false)
    else if cmd == CMD_READ_PIO_EXT then Start(ch, false, true)
    else if cmd == CMD_WRITE_PIO then Start(ch, true, false)
    else if cmd == CMD_WRITE_PIO_EXT then Start(ch, true, true)
    else if cmd == CMD_CACHE_FLUSH || cmd == CMD_CACHE_FLUSH_EXT then ch.(phase := Idle)
    else ch.(phase := Aborted)
  }

  /** One byte written to a port. */
  function Out(ch: Channel, port: Port, v: uint8): Channel {
    match port
    case Base(2) => ch.(tf := ch.tf.(count := ch.tf.count.Put(v)))
    case Base(3) => ch.(tf := ch.tf.(low := ch.tf.low.Put(v)))
    case Base(4) => ch.(tf := ch.tf.(mid := ch.tf.mid.Put(v)))
    case Base(5) => ch.(tf := ch.tf.(high := ch.tf.high.Put(v)))
    case Base(6) => ch.(tf := ch.tf.(device := v))
    case Base(7) => Execute(ch, v)
    case Control(0) => ch.(control := v)
    case _ => ch
  }

  predicate OnDisk(ch: Channel, unit: nat, sector: int) {
    unit < |ch.units| && 0 <= sector < |ch.units[unit].sectors|
  }

  /** The status of a device asked to read sector `s`. */
  function ReadStatus(d: Disk, s: int): uint8 {
    if !(0 <= s < |d.sectors|) then SR_DRDY + SR_ERR
    else if s in d.faults then
      SR_DRDY + SR_DRQ + (if d.faults[s].err then SR_ERR else 0) + (if d.faults[s].df then SR_DF else 0)
    else SR_DRDY + SR_DRQ
  }

  /** The status register. */
  function Status(ch: Channel): uint8 {
    match ch.phase
    case Idle => SR_DRDY
    case Aborted => SR_DRDY + SR_ERR
    case Data(write, unit, next, left) =>
      if unit < |ch.units| && !write then ReadStatus(ch.units[unit], next)
      else if OnDisk(ch, unit, next) then SR_DRDY + SR_DRQ
      else SR_DRDY + SR_ERR
  }

  function Advance(phase: Phase): Phase
    requires phase.Data?
  {
    if phase.left <= 1 then Idle else phase.(next := phase.next + 1, left := phase.left - 1)
  }

  /** A block read through the data port. */
  function InBlock(ch: Channel): (Channel, Sector) {
    if ch.phase.Data? && !ch.phase.write && OnDisk(ch, ch.phase.unit, ch.phase.next) then
      (ch.(phase := Advance(ch.phase)), ch.units[ch.phase.unit].sectors[ch.phase.next])
    else (ch, seq(SECTOR_WORDS, _ => 0))
  }

  /** A block written through the data port; past the last sector it is dropped. */
  function OutBlock(ch: Channel, block: Sector): Channel {
    if ch.phase.Data? && ch.phase.write then
      var u, s := ch.phase.unit, ch.phase.next;
      var units := if !OnDisk(ch, u, s) then ch.units
                   else ch.units[u := ch.units[u].(sectors := ch.units[u].sectors[s := block])];
      ch.(phase := Advance(ch.phase), units := units)
    else ch
  }
}
