/** The bootloader's side of the memory protocol: the frame it receives, the frame it answers, and
    what happens to memory in between (Bootloader/App/main.cpp, Bootloader/App/Memory.cpp). */
module Bootloader {
  import opened Bytes

  const HEAD_SIZE: nat := 8
  const MAX_PACKET: nat := 64
  const MAX_PAYLOAD: nat := MAX_PACKET - HEAD_SIZE

  const FLASH_BEGIN: nat := 0x0800_0000
  const FLASH_USER: nat := 0x0800_4000
  const FLASH_END: nat := 0x0802_0000

  datatype Command = MemoryRead | MemoryWrite

  /** The 8-byte head shared by commands and answers. */
  datatype Head = Head(cmd: Command, align: nat, byteCount: nat, address: nat)

  datatype Frame = Frame(head: Head, payload: seq<byte>) {
    function Size(): nat { HEAD_SIZE + |payload| }

    predicate FitsPacket() {
      head.align < 0x100 && head.byteCount < 0x1_0000 && head.address < ADDRESS_SPACE && Size() <= MAX_PACKET
    }
  }

  // ---- Which addresses may be read ----

  datatype Region = Region(begin: nat, end: nat, attributes: nat)

  const REGIONS: seq<Region> := [
    Region(0x08000000, 0x08020000, 3), Region(0x20000000, 0x20010000, 3), Region(0xE0000000, 0xE0100000, 3),
    Region(0x40000000, 0x40000C00, 3), Region(0x40002800, 0x40003400, 3), Region(0x40003800, 0x40003C00, 3),
    Region(0x40004400, 0x40004C00, 3), Region(0x40005400, 0x40005C00, 3), Region(0x40006400, 0x40006800, 3),
    Region(0x40006C00, 0x40007400, 3), Region(0x40010000, 0x40011C00, 3), Region(0x40012400, 0x40013400, 3),
    Region(0x40013800, 0x40013C00, 3), Region(0x40020000, 0x40020400, 3), Region(0x40021000, 0x40021400, 3),
    Region(0x40022000, 0x40022400, 3), Region(0x40023000, 0x40023400, 3)
  ]

  /** Some region of the table holds all of [begin, end). */
  ghost predicate InOneRegion(regions: seq<Region>, begin: nat, end: nat) {
    exists r :: r in regions && r.begin <= begin && end <= r.end
  }

  method CheckMemRegionAccess(regions: seq<Region>, begin: nat, end: nat) returns (attributes: nat)
    requires forall r :: r in regions ==> r.attributes == 3
    ensures attributes == if InOneRegion(regions, begin, end) then 3 else 0
  {
    for i := 0 to |regions|
      invariant forall k :: 0 <= k < i ==> !(regions[k].begin <= begin && end <= regions[k].end)
    {
      if regions[i].begin <= begin && end <= regions[i].end {
        return regions[i].attributes;
      }
    }
    return 0;
  }

  // ---- How many bytes one frame moves ----

  /** The align values that pass `(align - 1) & align == 0`; zero passes too. */
  predicate PowerOfTwo(align: nat) {
    || align == 1 || align == 2 || align == 4 || align == 8
    || align == 16 || align == 32 || align == 64 || align == 128
  }

  function ValidatedAlign(align: nat): nat {
    if align == 0 || PowerOfTwo(align) then align else 1
  }

  function PayloadSize(maxBufferSize: nat, requiredDataSize: nat, align: nat): (r: nat)
    ensures r <= requiredDataSize && (r > 0 ==> HEAD_SIZE + r <= maxBufferSize)
    ensures align == 4 || align == 2 ==> Multiple(r, align)
  {
    if HEAD_SIZE > maxBufferSize then 0
    else
      var payload := Min(maxBufferSize - HEAD_SIZE, requiredDataSize);
      var a := ValidatedAlign(align);
      if a == 0 then 0
      else
        RoundDownIdempotent(payload, a);
        RoundDown(payload, a)
  }

  /** And it is the largest such payload: any whole number of units that fits the request and the buffer is
      no larger. */
  lemma PayloadIsLargest(maxBufferSize: nat, requiredDataSize: nat, align: nat, k: nat)
    requires PowerOfTwo(align) && Multiple(k, align) && k <= requiredDataSize && HEAD_SIZE + k <= maxBufferSize
    ensures k <= PayloadSize(maxBufferSize, requiredDataSize, align)
    ensures Multiple(PayloadSize(maxBufferSize, requiredDataSize, align), align)
  {
    var payload := Min(maxBufferSize - HEAD_SIZE, requiredDataSize);
    RoundDownIdempotent(payload, align);
    RoundDownLargest(payload, align, k);
  }

  predicate IsFlashRegion(address: nat) {
    FLASH_USER <= address < FLASH_END
  }

  /** One access of `unit` bytes: `*cdst++ = *csrc++`. */
  method CopyUnit(dst: array<byte>, d: nat, src: array<byte>, s: nat, unit: nat)
    requires dst != src && d + unit <= dst.Length && s + unit <= src.Length
    modifies dst
    ensures forall i :: d <= i < d + unit ==> dst[i] == src[s + (i - d)]
    ensures forall i :: 0 <= i < d || d + unit <= i < dst.Length ==> dst[i] == old(dst[i])
  {
    forall i | d <= i < d + unit {
      dst[i] := src[s + (i - d)];
    }
  }

  /** The copy loop, the same for the three pointer types. The countdown reaches exactly zero; a size
      that were not a whole number of units would make it wrap below zero instead. */
  method CopyLoop(dst: array<byte>, dstAt: nat, src: array<byte>, srcAt: nat, size: nat, unit: nat)
    requires dst != src && dstAt + size <= dst.Length && srcAt + size <= src.Length
    requires unit > 0 && Multiple(size, unit)
    modifies dst
    ensures dst[..] == Store(old(dst[..]), dstAt, old(src[srcAt..srcAt + size]))
    ensures dst[dstAt..dstAt + size] == old(src[srcAt..srcAt + size])
  {
    var copySize: nat := size;
    var d, s := dstAt, srcAt;
    while copySize != 0
      invariant copySize <= size && Multiple(copySize, unit)
      invariant d - dstAt == s - srcAt == size - copySize
      invariant forall i :: dstAt <= i < d ==> dst[i] == src[srcAt + (i - dstAt)]
      invariant forall i :: 0 <= i < dstAt || d <= i < dst.Length ==> dst[i] == old(dst[i])
    {
      CopyUnit(dst, d, src, s, unit);
      d, s, copySize := d + unit, s + unit, copySize - unit;
    }
  }

  method DbgMemcpy(dst: array<byte>, dstAt: nat, src: array<byte>, srcAt: nat, size: nat, align: nat)
    requires dst != src && dstAt + size <= dst.Length && srcAt + size <= src.Length
    requires align == 4 || align == 2 ==> Multiple(size, align)
    modifies dst
    ensures dst[..] == Store(old(dst[..]), dstAt, old(src[srcAt..srcAt + size]))
    ensures dst[dstAt..dstAt + size] == old(src[srcAt..srcAt + size])
  {
    if align == 4 {
      CopyLoop(dst, dstAt, src, srcAt, size, 4);
    } else if align == 2 {
      CopyLoop(dst, dstAt, src, srcAt, size, 2);
    } else {
      MultipleOfOne(size);
      CopyLoop(dst, dstAt, src, srcAt, size, 1);
    }
  }

  // ---- What one write command does ----

  /** Memory, the half-words programmed so far, and what the command buffer holds. */
  datatype DeviceState = DeviceState(mem: seq<byte>, log: seq<nat>, buffer: seq<byte>)

  predicate WellSized(d: DeviceState) {
    |d.mem| == ADDRESS_SPACE && |d.buffer| == MAX_PAYLOAD
  }

  /** A frame whose first `n` payload bytes are written. The buffer keeps its old bytes past the payload, and
      an odd count of half-word programming takes one of its bytes along. */
  function WriteFrame(d: DeviceState, address: nat, payload: seq<byte>, n: nat): (r: DeviceState)
    requires WellSized(d) && |payload| <= MAX_PAYLOAD && n <= MAX_PAYLOAD && address + n <= ADDRESS_SPACE
    ensures WellSized(r)
  {
    var b := Store(d.buffer, 0, payload);
    if IsFlashRegion(address) then
      DeviceState(Program(d.mem, address, b[..n + n % 2]), d.log + HalfWords(address, n), b)
    else DeviceState(Store(d.mem, address, b[..n]), d.log, b)
  }

  /** The device: its address space, the two frame buffers, and a record of the half-words programmed. */
  class Device {
    const mem: array<byte>
    const cmdPayload: array<byte>
    const ansPayload: array<byte>
    const regions: seq<Region>
    var programmed: seq<nat>

    predicate Valid() {
      && mem.Length == ADDRESS_SPACE
      && cmdPayload.Length == ansPayload.Length == MAX_PAYLOAD
      && (forall r :: r in regions ==> r.attributes == 3)
      && mem != cmdPayload && mem != ansPayload && cmdPayload != ansPayload
    }

    ghost function State(): (d: DeviceState)
      requires Valid()
      reads this, mem, cmdPayload
      ensures WellSized(d)
    {
      DeviceState(mem[..], programmed, cmdPayload[..])
    }

    constructor ()
      ensures Valid() && fresh(mem) && fresh(cmdPayload) && fresh(ansPayload) && regions == REGIONS && programmed == []
    {
      mem := new byte[ADDRESS_SPACE];
      cmdPayload := new byte[MAX_PAYLOAD];
      ansPayload := new byte[MAX_PAYLOAD];
      regions := REGIONS;
      programmed := [];
    }

    /** A little-endian half-word is programmed at `address`. */
    method FlashProgramHalfWord(address: nat, value: nat)
      requires Valid() && address + 2 <= ADDRESS_SPACE && value < 0x1_0000
      modifies mem, `programmed
      ensures forall i :: 0 <= i < mem.Length && i != address && i != address + 1 ==> mem[i] == old(mem[i])
      ensures mem[address] == And(old(mem[address]), value % 0x100)
      ensures mem[address + 1] == And(old(mem[address + 1]), value / 0x100)
      ensures programmed == old(programmed) + [address]
    {
      mem[address] := And(mem[address], value % 0x100);
      mem[address + 1] := And(mem[address + 1], value / 0x100);
      programmed := programmed + [address];
    }

    /** The loop body of `FlashWrite`. */
    method ProgramPair(address: nat, dataIndex: nat)
      requires Valid() && dataIndex + 2 <= MAX_PAYLOAD && address + 2 <= ADDRESS_SPACE
      modifies mem, `programmed
      ensures forall i :: 0 <= i < mem.Length && i != address && i != address + 1 ==> mem[i] == old(mem[i])
      ensures mem[address] == And(old(mem[address]), cmdPayload[dataIndex])
      ensures mem[address + 1] == And(old(mem[address + 1]), cmdPayload[dataIndex + 1])
      ensures programmed == old(programmed) + [address]
    {
      var lo, hi := cmdPayload[dataIndex], cmdPayload[dataIndex + 1];
      var value := lo as nat + 0x100 * hi as nat;
      FlashProgramHalfWord(address, value);
    }

    /** Programs the received data half-word by half-word; an odd size also programs the next byte
        of the command frame. */
    method FlashWrite(address: nat, size: nat)
      requires Valid() && size <= MAX_PAYLOAD && address + size + size % 2 <= ADDRESS_SPACE
      modifies mem, `programmed
      ensures mem[..] == Program(old(mem[..]), address, cmdPayload[..size + size % 2])
      ensures programmed == old(programmed) + HalfWords(address, size)
    {
      var dataIndex := 0;
      while dataIndex < size
        invariant dataIndex % 2 == 0 && dataIndex <= size + size % 2
        invariant forall i :: address <= i < address + dataIndex ==> mem[i] == And(old(mem[i]), cmdPayload[i - address])
        invariant forall i :: 0 <= i < address || address + dataIndex <= i < mem.Length ==> mem[i] == old(mem[i])
        invariant programmed == old(programmed) + HalfWords(address, dataIndex)
      {
        assert HalfWords(address, dataIndex) + [address + dataIndex] == HalfWords(address, dataIndex + 2);
        ProgramPair(address + dataIndex, dataIndex);
        dataIndex := dataIndex + 2;
      }
      assert HalfWords(address, size) == HalfWords(address, dataIndex);
    }

    method FillErased(n: nat)
      requires Valid() && n <= MAX_PAYLOAD
      modifies ansPayload
      ensures ansPayload[..n] == seq(n, i => 0xFF)
    {
      for index := 0 to n
        invariant forall i :: 0 <= i < index ==> ansPayload[i] == 0xFF
      {
        ansPayload[index] := 0xFF;
      }
    }

    method MemoryReadCommand(head: Head) returns (answer: Frame)
      requires Valid() && head.address + head.byteCount <= ADDRESS_SPACE
      modifies ansPayload
      ensures answer == ReadAnswer(regions, mem[..], head)
    {
      var bytesToRead := PayloadSize(MAX_PACKET, head.byteCount, head.align);
      var attributes := CheckMemRegionAccess(regions, head.address, head.address + bytesToRead);
      if attributes % 2 == 1 {
        DbgMemcpy(ansPayload, 0, mem, head.address, bytesToRead, head.align);
      } else {
        FillErased(bytesToRead);
      }
      answer := Frame(Head(MemoryRead, head.align, bytesToRead, head.address), ansPayload[..bytesToRead]);
    }

    /** The command frame has been received into `cmdPayload`; `inSize` counts its head too. */
    method MemoryWriteCommand(head: Head, inSize: nat) returns (answer: Frame)
      requires Valid() && head.address + head.byteCount <= ADDRESS_SPACE && inSize <= MAX_PACKET
      modifies mem, `programmed
      ensures var n := PayloadSize(inSize, head.byteCount, ValidatedAlign(head.align));
              && answer == Frame(Head(MemoryWrite, ValidatedAlign(head.align), n, head.address), [])
              && (IsFlashRegion(head.address) ==>
                    && mem[..] == Program(old(mem[..]), head.address, cmdPayload[..n + n % 2])
                    && programmed == old(programmed) + HalfWords(head.address, n))
              && (!IsFlashRegion(head.address) ==>
                    && mem[..] == Store(old(mem[..]), head.address, cmdPayload[..n])
                    && programmed == old(programmed))
    {
      var align := ValidatedAlign(head.align);
      var byteCountToWrite := PayloadSize(inSize, head.byteCount, align);
      if IsFlashRegion(head.address) {
        FlashWrite(head.address, byteCountToWrite);
      } else {
        DbgMemcpy(mem, head.address, cmdPayload, 0, byteCountToWrite, align);
      }
      answer := Frame(Head(MemoryWrite, align, byteCountToWrite, head.address), []);
    }

    /** One frame in, one frame out. The command buffer keeps its old bytes past the received ones. */
    method Exchange(command: Frame) returns (answer: Frame)
      requires Valid() && command.FitsPacket() && command.head.address + command.head.byteCount <= ADDRESS_SPACE
      modifies mem, cmdPayload, ansPayload, `programmed
      ensures cmdPayload[..] == Store(old(cmdPayload[..]), 0, command.payload)
      ensures command.head.cmd == MemoryRead ==>
                && answer == ReadAnswer(regions, mem[..], command.head)
                && mem[..] == old(mem[..]) && programmed == old(programmed)
      ensures command.head.cmd == MemoryWrite ==>
                var n := PayloadSize(command.Size(), command.head.byteCount, ValidatedAlign(command.head.align));
                && answer == Frame(Head(MemoryWrite, ValidatedAlign(command.head.align), n, command.head.address), [])
                && State() == WriteFrame(old(State()), command.head.address, command.payload, n)
    {
      ghost var was := cmdPayload[..];
      forall i | 0 <= i < |command.payload| {
        cmdPayload[i] := command.payload[i];
      }
      assert cmdPayload[..] == Store(was, 0, command.payload);
      match command.head.cmd
      case MemoryRead => answer := MemoryReadCommand(command.head);
      case MemoryWrite => answer := MemoryWriteCommand(command.head, command.Size());
    }
  }

  /** What reading [a, a + n) yields: the bytes, or 0xFF where the range is not readable. */
  ghost function Readable(regions: seq<Region>, mem: seq<byte>, a: nat, n: nat): (r: seq<byte>)
    requires a + n <= |mem|
    ensures |r| == n
  {
    if InOneRegion(regions, a, a + n) then mem[a..a + n] else seq(n, i => 0xFF)
  }

  ghost function ReadAnswer(regions: seq<Region>, mem: seq<byte>, head: Head): Frame
    requires head.address + head.byteCount <= |mem|
  {
    var n := PayloadSize(MAX_PACKET, head.byteCount, head.align);
    Frame(Head(MemoryRead, head.align, n, head.address), Readable(regions, mem, head.address, n))
  }
}
