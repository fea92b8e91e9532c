/** The host's side of the memory protocol: long transfers cut into frames of at most 64 bytes
    (GdbServer/Target/TargetSTM32F1.cpp). */
module HostTarget {
  import opened Bytes
  import opened Bootloader

  datatype Option<+T> = None | Some(value: T)

  /** The access sizes that pass `((size - 1) & size) == 0` and are not zero. */
  predicate PowerOfTwoAccess(n: nat): (r: bool)
    ensures r ==> n > 0
    decreases n
  {
    n == 1 || (n > 1 && n % 2 == 0 && PowerOfTwoAccess(n / 2))
  }

  /** The head of the next command, or None where the host gives up. */
  function MakeHead(cmd: Command, address: nat, accessSize: nat, elementCount: nat): Option<Head> {
    if elementCount == 0 || !PowerOfTwoAccess(accessSize) then None
    else
      Some(Head(cmd, accessSize % 0x100, RoundDown(Min(MAX_PAYLOAD, elementCount * accessSize), accessSize), address))
  }

  /** The bytes one frame moves when `remain` are still wanted. */
  function Chunk(remain: nat, accessSize: nat): (r: nat)
    requires accessSize > 0
    ensures r <= remain && r <= MAX_PAYLOAD
  {
    RoundDown(Min(MAX_PAYLOAD, remain), accessSize)
  }

  /** The head for the next frame of a transfer with `remain` bytes to go. */
  method NextHead(cmd: Command, address: nat, accessSize: nat, remain: nat) returns (h: Option<Head>)
    requires accessSize > 0
    ensures h == None <==> !PowerOfTwoAccess(accessSize) || remain < accessSize
    ensures h.Some? ==> h.value == Head(cmd, accessSize % 0x100, Chunk(remain, accessSize), address)
  {
    QuotientTimes(remain, accessSize);
    RoundDownMin(MAX_PAYLOAD, remain, accessSize);
    h := MakeHead(cmd, address, accessSize, remain / accessSize);
  }

  /** The test of the code, `((n - 1) & n) == 0`. */
  lemma {:induction false} AccessBits(n: nat)
    requires n > 0
    ensures PowerOfTwoAccess(n) <==> BitAnd(n - 1, n) == 0
    decreases n
  {
    if n % 2 == 0 {
      AccessBits(n / 2);
      assert (n - 1) / 2 == n / 2 - 1;
    } else {
      AndSelf(n / 2);
      assert (n - 1) / 2 == n / 2;
    }
  }

  /** And the device's, on its one-byte field: what fails it counts as 1. */
  lemma AlignBits(align: nat)
    requires align < 0x100
    ensures ValidatedAlign(align) == if align == 0 || BitAnd(align - 1, align) == 0 then align else 1
  {
    if align > 0 {
      AccessBits(align);
      if PowerOfTwoAccess(align) {
        SmallAccess(align);
      } else if PowerOfTwo(align) {
        Powers();
      }
    }
  }

  lemma Powers()
    ensures PowerOfTwoAccess(1) && PowerOfTwoAccess(2) && PowerOfTwoAccess(4) && PowerOfTwoAccess(8)
    ensures PowerOfTwoAccess(16) && PowerOfTwoAccess(32) && PowerOfTwoAccess(64) && PowerOfTwoAccess(128)
  {
  }

  lemma {:induction false} BigAccess(a: nat)
    requires PowerOfTwoAccess(a) && a >= 0x100
    ensures a % 0x100 == 0
    decreases a
  {
    if a / 2 >= 0x100 {
      BigAccess(a / 2);
    } else {
      SmallAccess(a / 2);
    }
  }

  lemma {:induction false} SmallAccess(a: nat)
    requires PowerOfTwoAccess(a) && a < 0x100
    ensures PowerOfTwo(a)
    decreases a
  {
    if a > 1 {
      SmallAccess(a / 2);
    }
  }

  /** The device keeps the host's byte count and align: both sides round the same way. */
  lemma DeviceAgrees(remain: nat, accessSize: nat)
    requires PowerOfTwoAccess(accessSize)
    ensures var n := Chunk(remain, accessSize);
            var align := accessSize % 0x100;
            && ValidatedAlign(align) == align
            && PayloadSize(MAX_PACKET, n, align) == n
            && PayloadSize(HEAD_SIZE + n, n, align) == n
  {
    hide PowerOfTwoAccess;
    RoundDownIdempotent(Min(MAX_PAYLOAD, remain), accessSize);
    if accessSize < 0x100 {
      SmallAccess(accessSize);
    } else {
      BigAccess(accessSize);
    }
  }

  // ---- Reading ----

  /** What a read of `total` bytes returns when every frame is answered by the device. */
  ghost function ReadBack(regions: seq<Region>, mem: seq<byte>, address: nat, accessSize: nat, total: nat): seq<byte>
    requires accessSize > 0 && address + total <= |mem|
    decreases total
  {
    var n := Chunk(total, accessSize);
    if n == 0 then []
    else Readable(regions, mem, address, n) + ReadBack(regions, mem, address + n, accessSize, total - n)
  }

  lemma ReadBackStep(regions: seq<Region>, mem: seq<byte>, address: nat, accessSize: nat, total: nat)
    requires accessSize > 0 && address + total <= |mem| && Multiple(total, accessSize)
    ensures var n := Chunk(total, accessSize);
            && Multiple(total - n, accessSize)
            && ReadBack(regions, mem, address, accessSize, total)
               == Readable(regions, mem, address, n) + ReadBack(regions, mem, address + n, accessSize, total - n)
  {
    var n := Chunk(total, accessSize);
    RoundDownIdempotent(Min(MAX_PAYLOAD, total), accessSize);
    MultipleDifference(total, n, accessSize);
    if n == 0 {
      assert Readable(regions, mem, address, 0) == [];
    }
  }

  /** The device refuses to move a whole element: the read stops. */
  lemma ReadBackEnd(regions: seq<Region>, mem: seq<byte>, address: nat, accessSize: nat, total: nat)
    requires accessSize > 0 && address + total <= |mem| && (total == 0 || Chunk(total, accessSize) == 0)
    ensures ReadBack(regions, mem, address, accessSize, total) == []
  {
  }

  /** No region has any byte of the range. */
  ghost predicate OutsideRegions(regions: seq<Region>, begin: nat, end: nat) {
    forall r :: r in regions ==> r.end <= begin || end <= r.begin
  }

  /** Where no region has any of the range, a read returns 0xFF bytes, as many as were asked for. */
  lemma {:induction false} ReadBackRefused(regions: seq<Region>, mem: seq<byte>, address: nat, accessSize: nat,
                                           total: nat)
    requires PowerOfTwoAccess(accessSize) && accessSize <= MAX_PAYLOAD && address + total <= |mem|
    requires OutsideRegions(regions, address, address + total) && Multiple(total, accessSize)
    ensures ReadBack(regions, mem, address, accessSize, total) == seq(total, _ => 0xFF)
    decreases total
  {
    hide PowerOfTwoAccess;
    var n := Chunk(total, accessSize);
    ReadBackStep(regions, mem, address, accessSize, total);
    if total == 0 {
      ReadBackEnd(regions, mem, address, accessSize, 0);
    } else {
      WholeChunk(total, accessSize);
      ReadBackRefused(regions, mem, address + n, accessSize, total - n);
      assert Readable(regions, mem, address, n) == seq(n, _ => 0xFF);
    }
  }

  lemma WholeChunk(total: nat, accessSize: nat)
    requires 0 < accessSize <= MAX_PAYLOAD && total > 0 && Multiple(total, accessSize)
    ensures Chunk(total, accessSize) > 0
  {
    ShortMultiple(total, accessSize);
  }

  /** Inside one readable region a read returns exactly the bytes asked for. */
  lemma {:induction false} ReadBackExact(regions: seq<Region>, mem: seq<byte>, address: nat, accessSize: nat,
                                         total: nat)
    requires 0 < accessSize <= MAX_PAYLOAD && Multiple(total, accessSize) && address + total <= |mem|
    requires InOneRegion(regions, address, address + total)
    ensures ReadBack(regions, mem, address, accessSize, total) == mem[address..address + total]
    decreases total
  {
    hide RoundDown, ReadBack;
    if total == 0 {
      ReadBackEnd(regions, mem, address, accessSize, 0);
    } else {
      var n := Chunk(total, accessSize);
      ShortMultiple(total, accessSize);
      RoundDownIdempotent(Min(MAX_PAYLOAD, total), accessSize);
      ReadBackStep(regions, mem, address, accessSize, total);
      assert Readable(regions, mem, address, n) == mem[address..address + n];
      ReadBackExact(regions, mem, address + n, accessSize, total - n);
    }
  }

  /** How many of `total` bytes a write transfers: whole elements, in frames that hold at least one. */
  function Written(total: nat, accessSize: nat): (n: nat)
    ensures n <= total
  {
    if !PowerOfTwoAccess(accessSize) || accessSize > MAX_PAYLOAD then 0 else RoundDown(total, accessSize)
  }

  /** The invariant of the write loop: whole elements so far, and nothing at all where no frame can
      carry an element. */
  predicate WholeElements(offset: nat, accessSize: nat) {
    if PowerOfTwoAccess(accessSize) && accessSize <= MAX_PAYLOAD then Multiple(offset, accessSize) else offset == 0
  }

  /** One more frame: whole elements again, and still an even count when the whole write has one. */
  lemma WriteStep(offset: nat, total: nat, accessSize: nat)
    requires PowerOfTwoAccess(accessSize) && WholeElements(offset, accessSize) && offset + accessSize <= total
    ensures var n := Chunk(total - offset, accessSize);
            && (n == 0 <==> accessSize > MAX_PAYLOAD)
            && WholeElements(offset + n, accessSize)
            && (Written(total, accessSize) % 2 == 0 && offset % 2 == 0 ==> n % 2 == 0)
  {
    var n := Chunk(total - offset, accessSize);
    if accessSize <= MAX_PAYLOAD {
      RoundDownIdempotent(Min(MAX_PAYLOAD, total - offset), accessSize);
      MultipleSum(offset, n, accessSize);
      if accessSize == 1 {
        MultipleOfOne(total);
        MultipleOfOne(Min(MAX_PAYLOAD, total - offset));
      } else {
        MultipleOfEven(n, accessSize);
      }
    }
  }

  /** The loop ends with less than one element to go, or where no frame can carry one. */
  lemma WriteEnd(offset: nat, total: nat, accessSize: nat)
    requires WholeElements(offset, accessSize) && offset <= total
    requires !PowerOfTwoAccess(accessSize) || accessSize > MAX_PAYLOAD || total < offset + accessSize
    ensures offset == Written(total, accessSize)
  {
    if PowerOfTwoAccess(accessSize) && accessSize <= MAX_PAYLOAD {
      RoundDownUnique(total, offset, accessSize);
    }
  }

  lemma WriteStart(accessSize: nat)
    ensures WholeElements(0, accessSize) && Written(0, accessSize) == 0
  {
  }

  // ---- What a whole write does ----

  /** Frame by frame, for any range: each frame is stored or programmed according to its own address. */
  ghost function WriteFrames(d: DeviceState, address: nat, data: seq<byte>, accessSize: nat): (r: DeviceState)
    requires WellSized(d) && address + |data| <= ADDRESS_SPACE
    ensures WellSized(r)
    decreases |data|
  {
    if !PowerOfTwoAccess(accessSize) then d
    else
      var n := Chunk(|data|, accessSize);
      if n == 0 then d
      else WriteFrames(WriteFrame(d, address, data[..n], n), address + n, data[n..], accessSize)
  }

  /** A frame with no payload writes nothing. */
  lemma EmptyFrame(d: DeviceState, address: nat)
    requires WellSized(d) && address <= ADDRESS_SPACE
    ensures WriteFrame(d, address, [], 0) == d
  {
    assert Store(d.buffer, 0, []) == d.buffer;
    assert d.buffer[..0] == [];
    assert Program(d.mem, address, []) == d.mem == Store(d.mem, address, []);
    assert d.log + HalfWords(address, 0) == d.log;
  }

  predicate BesideFlash(address: nat, size: nat) {
    address + size <= FLASH_USER || FLASH_END <= address
  }

  predicate InsideFlash(address: nat, size: nat) {
    FLASH_USER <= address && address + size <= FLASH_END
  }

  predicate Transfers(accessSize: nat) {
    PowerOfTwoAccess(accessSize) && accessSize <= MAX_PAYLOAD
  }

  /** What is written after the first frame is what is written of the rest; an odd count is moved in bytes, and
      then only the last frame is not full. */
  lemma WrittenStep(total: nat, accessSize: nat)
    requires Transfers(accessSize)
    ensures var n := Chunk(total, accessSize);
            && Written(total, accessSize) == n + Written(total - n, accessSize)
            && (n == 0 <==> Written(total, accessSize) == 0)
            && (n < MAX_PAYLOAD && n % 2 == 1 ==> n == total)
            && (Written(total - n, accessSize) % 2 == 1 ==> n == MAX_PAYLOAD)
  {
    var n := Chunk(total, accessSize);
    RoundDownIdempotent(Min(MAX_PAYLOAD, total), accessSize);
    RoundDownSum(n, total - n, accessSize);
    OddIsByte(Min(MAX_PAYLOAD, total), accessSize);
    OddIsByte(total - n, accessSize);
    if total >= accessSize {
      RoundDownLargest(Min(MAX_PAYLOAD, total), accessSize, accessSize);
    }
  }

  lemma OddIsByte(n: nat, accessSize: nat)
    requires PowerOfTwoAccess(accessSize)
    ensures RoundDown(n, accessSize) % 2 == 1 ==> accessSize == 1
    ensures accessSize == 1 ==> RoundDown(n, accessSize) == n
  {
    if accessSize == 1 {
      MultipleOfOne(n);
    } else {
      RoundDownIdempotent(n, accessSize);
      MultipleOfEven(RoundDown(n, accessSize), accessSize);
    }
  }

  /** Beside user flash a write is a plain store of the whole elements. */
  lemma {:induction false} WriteBeside(d: DeviceState, address: nat, data: seq<byte>, accessSize: nat)
    requires WellSized(d) && address + |data| <= ADDRESS_SPACE && Transfers(accessSize) && BesideFlash(address, |data|)
    ensures var r := WriteFrames(d, address, data, accessSize);
            && r.mem == Store(d.mem, address, data[..Written(|data|, accessSize)]) && r.log == d.log
    decreases |data|
  {
    hide RoundDown, PowerOfTwoAccess, Written, Store, Multiple;
    var n := Chunk(|data|, accessSize);
    WrittenStep(|data|, accessSize);
    if n == 0 {
      EmptyStore(d.mem, address);
      assert data[..0] == [];
    } else {
      var d', rest := WriteFrame(d, address, data[..n], n), data[n..];
      FrameBytes(d.buffer, data[..n]);
      WriteBeside(d', address + n, rest, accessSize);
      StoreTwice(d.mem, address, data[..n], rest[..Written(|rest|, accessSize)]);
      assert data[..n] + rest[..Written(|rest|, accessSize)] == data[..Written(|data|, accessSize)];
    }
  }

  lemma EmptyStore(mem: seq<byte>, address: nat)
    requires address <= |mem|
    ensures Store(mem, address, []) == mem
  {
  }

  lemma FrameBytes(buffer: seq<byte>, chunk: seq<byte>)
    requires |chunk| <= |buffer|
    ensures |Store(buffer, 0, chunk)| == |buffer| && Store(buffer, 0, chunk)[..|chunk|] == chunk
    ensures forall i :: |chunk| <= i < |buffer| ==> Store(buffer, 0, chunk)[i] == buffer[i]
  {
  }

  /** The byte an odd count takes along: it follows the last frame's payload in the command buffer, so it is
      left there by the frame before, or by an earlier command. */
  function ExtraByte(buffer: seq<byte>, data: seq<byte>, written: nat): byte
    requires written <= |data| && written % 2 == 1 && |buffer| == MAX_PAYLOAD
  {
    if written > MAX_PAYLOAD then data[written - MAX_PAYLOAD] else buffer[written]
  }

  /** What reaches user flash: the whole elements, and that byte after an odd count of them. */
  function Programmed(buffer: seq<byte>, data: seq<byte>, accessSize: nat): (r: seq<byte>)
    requires |buffer| == MAX_PAYLOAD
    ensures var n := Written(|data|, accessSize);
            n <= |data| && |r| == n + n % 2 && r[..n] == data[..n]
  {
    var n := Written(|data|, accessSize);
    data[..n] + if n % 2 == 1 then [ExtraByte(buffer, data, n)] else []
  }

  lemma ProgrammedStep(buffer: seq<byte>, data: seq<byte>, accessSize: nat)
    requires |buffer| == MAX_PAYLOAD && Transfers(accessSize) && Chunk(|data|, accessSize) % 2 == 0
    ensures var n := Chunk(|data|, accessSize);
            Programmed(buffer, data, accessSize)
            == data[..n] + Programmed(Store(buffer, 0, data[..n]), data[n..], accessSize)
  {
    var n := Chunk(|data|, accessSize);
    var rest, b := data[n..], Store(buffer, 0, data[..n]);
    WrittenStep(|data|, accessSize);
    hide RoundDown, PowerOfTwoAccess, Written, Store, Chunk, ExtraByte, Transfers, Multiple;
    var w, v := Written(|data|, accessSize), Written(|rest|, accessSize);
    assert |b| == |buffer|;
    if v % 2 == 1 {
      ExtraByteStep(buffer, data, w);
      Pieces(data, n, v, [ExtraByte(buffer, data, w)]);
    } else {
      Pieces(data, n, v, []);
    }
  }

  lemma Pieces(data: seq<byte>, n: nat, v: nat, end: seq<byte>)
    requires n + v <= |data|
    ensures data[..n + v] + end == data[..n] + (data[n..][..v] + end)
  {
  }

  /** After a full frame the extra byte is found in the buffer where the longer write finds it in the data. */
  lemma ExtraByteStep(buffer: seq<byte>, data: seq<byte>, w: nat)
    requires |buffer| == MAX_PAYLOAD && MAX_PAYLOAD < w <= |data| && w % 2 == 1
    ensures |Store(buffer, 0, data[..MAX_PAYLOAD])| == MAX_PAYLOAD
    ensures ExtraByte(Store(buffer, 0, data[..MAX_PAYLOAD]), data[MAX_PAYLOAD..], w - MAX_PAYLOAD)
        == ExtraByte(buffer, data, w)
  {
    FrameBytes(buffer, data[..MAX_PAYLOAD]);
    hide Store;
  }

  lemma LastOddFrame(d: DeviceState, address: nat, data: seq<byte>, accessSize: nat)
    requires WellSized(d) && address + |data| <= ADDRESS_SPACE && Transfers(accessSize) && InsideFlash(address, |data|)
    requires Chunk(|data|, accessSize) % 2 == 1
    ensures var r := WriteFrames(d, address, data, accessSize);
            && r.mem == Program(d.mem, address, Programmed(d.buffer, data, accessSize))
            && r.log == d.log + HalfWords(address, Written(|data|, accessSize))
  {
    var n := Chunk(|data|, accessSize);
    WrittenStep(|data|, accessSize);
    WrittenStep(0, accessSize);
    FrameBytes(d.buffer, data);
    hide RoundDown, PowerOfTwoAccess, Store, Program, HalfWords;
    assert n == |data| && data[..n] == data && data[n..] == [];
    assert Written(0, accessSize) == 0;
    var b := Store(d.buffer, 0, data);
    assert b[..n + 1] == b[..n] + [b[n]];
    assert b[..n + 1] == Programmed(d.buffer, data, accessSize);
    assert WriteFrames(WriteFrame(d, address, data, n), address + n, [], accessSize) == WriteFrame(d, address, data, n);
  }

  /** Inside user flash it programs those bytes, each half-word once, in ascending order. */
  lemma {:induction false} WriteInside(d: DeviceState, address: nat, data: seq<byte>, accessSize: nat)
    requires WellSized(d) && address + |data| <= ADDRESS_SPACE && Transfers(accessSize) && InsideFlash(address, |data|)
    ensures var r := WriteFrames(d, address, data, accessSize);
            && r.mem == Program(d.mem, address, Programmed(d.buffer, data, accessSize))
            && r.log == d.log + HalfWords(address, Written(|data|, accessSize))
    decreases |data|
  {
    hide RoundDown, PowerOfTwoAccess, Written, Store, Program, Programmed;
    var n := Chunk(|data|, accessSize);
    WrittenStep(|data|, accessSize);
    if n == 0 {
      NothingProgrammed(d, address, data, accessSize);
    } else if n % 2 == 1 {
      LastOddFrame(d, address, data, accessSize);
    } else {
      var chunk, rest := data[..n], data[n..];
      ProgrammedStep(d.buffer, data, accessSize);
      hide WriteFrame, HalfWords;
      FrameInFlash(d, address, chunk);
      WriteInside(WriteFrame(d, address, chunk, n), address + n, rest, accessSize);
      ProgramMore(d.mem, d.log, address, chunk, Programmed(Store(d.buffer, 0, chunk), rest, accessSize),
                  Written(|rest|, accessSize));
    }
  }

  lemma FrameInFlash(d: DeviceState, address: nat, chunk: seq<byte>)
    requires WellSized(d) && |chunk| <= MAX_PAYLOAD && address + |chunk| <= ADDRESS_SPACE
    requires IsFlashRegion(address) && |chunk| % 2 == 0
    ensures WriteFrame(d, address, chunk, |chunk|)
         == DeviceState(Program(d.mem, address, chunk), d.log + HalfWords(address, |chunk|), Store(d.buffer, 0, chunk))
  {
    FrameBytes(d.buffer, chunk);
    hide Store, Program, HalfWords;
  }

  lemma LogMore(log: seq<nat>, a: nat, n: nat, m: nat)
    requires n % 2 == 0
    ensures log + HalfWords(a, n) + HalfWords(a + n, m) == log + HalfWords(a, n + m)
  {
    HalfWordsTwice(a, n, m);
    hide HalfWords;
    assert log + HalfWords(a, n) + HalfWords(a + n, m) == log + (HalfWords(a, n) + HalfWords(a + n, m));
  }

  /** Two pieces, the first an even number of bytes, are one. */
  lemma ProgramMore(mem: seq<byte>, log: seq<nat>, address: nat, chunk: seq<byte>, more: seq<byte>, v: nat)
    requires address + |chunk| + |more| <= |mem| && |chunk| % 2 == 0
    ensures Program(Program(mem, address, chunk), address + |chunk|, more) == Program(mem, address, chunk + more)
    ensures log + HalfWords(address, |chunk|) + HalfWords(address + |chunk|, v) == log + HalfWords(address, |chunk| + v)
  {
    hide Program;
    ProgramTwice(mem, address, chunk, more);
    LogMore(log, address, |chunk|, v);
  }

  lemma NothingProgrammed(d: DeviceState, address: nat, data: seq<byte>, accessSize: nat)
    requires WellSized(d) && address + |data| <= ADDRESS_SPACE && Written(|data|, accessSize) == 0
    ensures Program(d.mem, address, Programmed(d.buffer, data, accessSize)) == d.mem
    ensures d.log + HalfWords(address, 0) == d.log
  {
    assert Programmed(d.buffer, data, accessSize) == [];
    assert Program(d.mem, address, []) == d.mem;
  }

  /** Exactly when a write into user flash changes nothing but what it was asked to write: an even count, or an
      extra byte whose zero bits the next byte of memory has already. */
  lemma NothingBeyond(d: DeviceState, address: nat, data: seq<byte>, accessSize: nat)
    requires WellSized(d) && address + |data| <= ADDRESS_SPACE && Transfers(accessSize) && InsideFlash(address, |data|)
    ensures var n := Written(|data|, accessSize);
            && n <= |data|
            && (WriteFrames(d, address, data, accessSize).mem == Program(d.mem, address, data[..n]) <==>
                n % 2 == 0 || And(d.mem[address + n], ExtraByte(d.buffer, data, n)) == d.mem[address + n])
  {
    WriteInside(d, address, data, accessSize);
    ProgrammedIs(d.buffer, data, accessSize);
    hide *;
    var n := Written(|data|, accessSize);
    if n % 2 == 1 {
      OneMore(d.mem, address, data[..n], ExtraByte(d.buffer, data, n));
    }
  }

  lemma ProgrammedIs(buffer: seq<byte>, data: seq<byte>, accessSize: nat)
    requires |buffer| == MAX_PAYLOAD
    ensures var n := Written(|data|, accessSize);
            Programmed(buffer, data, accessSize)
            == if n % 2 == 1 then data[..n] + [ExtraByte(buffer, data, n)] else data[..n]
  {
    hide Written, ExtraByte;
  }

  lemma OneMore(mem: seq<byte>, address: nat, data: seq<byte>, extra: byte)
    requires address + |data| < |mem|
    ensures Program(mem, address, data + [extra]) == Program(mem, address, data)
       <==> And(mem[address + |data|], extra) == mem[address + |data|]
  {
    hide And;
    var r, p, last := Program(mem, address, data + [extra]), Program(mem, address, data), address + |data|;
    assert r[last] == And(mem[last], extra) && p[last] == mem[last];
    assert forall i :: 0 <= i < |r| && i != last ==> r[i] == p[i];
  }

  /** The bytes of a frame that is not the last. */
  function FullFrame(accessSize: nat): nat
    requires accessSize > 0
  {
    Chunk(MAX_PAYLOAD, accessSize)
  }

  /** A write is its whole frames first, then the rest; so a range across the edge of user flash is stored by the
      frames that begin below it and programmed by the others. */
  lemma {:induction false} WriteSplits(d: DeviceState, address: nat, a: seq<byte>, b: seq<byte>, accessSize: nat,
                                       full: nat)
    requires WellSized(d) && address + |a| + |b| <= ADDRESS_SPACE && Transfers(accessSize)
    requires full == FullFrame(accessSize) && full > 0 && Multiple(|a|, full)
    ensures WriteFrames(d, address, a + b, accessSize)
         == WriteFrames(WriteFrames(d, address, a, accessSize), address + |a|, b, accessSize)
    decreases |a|
  {
    hide FullFrame, RoundDown, WriteFrames, WriteFrame, Multiple, Chunk, PowerOfTwoAccess;
    if a == [] {
      SplitNothing(d, address, b, accessSize);
    } else {
      ShortMultiple(|a|, full);
      MultipleLess(|a|, full);
      FullFrameIs(|a|, accessSize);
      var d1 := WriteFrame(d, address, a[..full], full);
      WriteSplits(d1, address + full, a[full..], b, accessSize, full);
      SplitFirst(d, address, a, b, accessSize, full);
    }
  }

  /** If the frames after the first can be split off, so can all. */
  lemma SplitFirst(d: DeviceState, address: nat, a: seq<byte>, b: seq<byte>, accessSize: nat, full: nat)
    requires WellSized(d) && address + |a| + |b| <= ADDRESS_SPACE && Transfers(accessSize)
    requires full == FullFrame(accessSize) && 0 < full <= |a| && full <= MAX_PAYLOAD
    requires var d1, rest := WriteFrame(d, address, a[..full], full), a[full..];
             WriteFrames(d1, address + full, rest + b, accessSize)
             == WriteFrames(WriteFrames(d1, address + full, rest, accessSize), address + |a|, b, accessSize)
    ensures WriteFrames(d, address, a + b, accessSize)
         == WriteFrames(WriteFrames(d, address, a, accessSize), address + |a|, b, accessSize)
  {
    FullFrameIs(|a|, accessSize);
    FullFrameIs(|a| + |b|, accessSize);
    hide RoundDown, WriteFrames, WriteFrame, Chunk, FullFrame;
    FirstFrame(d, address, a, [], accessSize, full);
    FirstFrame(d, address, a, b, accessSize, full);
    assert a + [] == a && a[full..] + [] == a[full..];
  }

  lemma SplitNothing(d: DeviceState, address: nat, b: seq<byte>, accessSize: nat)
    requires WellSized(d) && address + |b| <= ADDRESS_SPACE && Transfers(accessSize)
    ensures WriteFrames(d, address, [] + b, accessSize)
        == WriteFrames(WriteFrames(d, address, [], accessSize), address, b, accessSize)
  {
    NoFrames(d, address, [], accessSize);
    hide WriteFrames;
    assert [] + b == b;
  }

  lemma FirstFrame(d: DeviceState, address: nat, a: seq<byte>, b: seq<byte>, accessSize: nat, full: nat)
    requires WellSized(d) && address + |a| + |b| <= ADDRESS_SPACE && PowerOfTwoAccess(accessSize)
    requires full <= |a| && Chunk(|a| + |b|, accessSize) == full
    ensures full <= MAX_PAYLOAD
    ensures WriteFrames(d, address, a + b, accessSize)
         == WriteFrames(WriteFrame(d, address, a[..full], full), address + full, a[full..] + b, accessSize)
  {
    hide WriteFrames, WriteFrame, Chunk, PowerOfTwoAccess;
    FramesStep(d, address, a + b, accessSize);
    assert (a + b)[..full] == a[..full] && (a + b)[full..] == a[full..] + b;
  }

  lemma FullFrameIs(n: nat, accessSize: nat)
    requires Transfers(accessSize) && 0 < FullFrame(accessSize) <= n
    ensures Chunk(n, accessSize) == FullFrame(accessSize)
  {
    var max: nat := MAX_PAYLOAD;
    var full := FullFrame(accessSize);
    if n < max {
      RoundDownIdempotent(max, accessSize);
      RoundDownLargest(n, accessSize, full);
      RoundDownIdempotent(n, accessSize);
      RoundDownLargest(max, accessSize, RoundDown(n, accessSize));
    }
  }

  lemma MultipleLess(n: nat, a: nat)
    requires 0 < a <= n && Multiple(n, a)
    ensures Multiple(n - a, a)
  {
  }

  /** How much of a write is carried out: the whole elements in it, for every size that fits a frame. */
  lemma WrittenIs(len: nat, accessSize: nat)
    requires Transfers(accessSize)
    ensures Written(len, accessSize) == len - len % accessSize
  {
    Remainder(len, accessSize);
  }

  /** Exactly when a read after a write returns what was written: always beside user flash, and inside it if
      no written byte needs a bit that is cleared already. */
  lemma ReadAfterWrite(regions: seq<Region>, d: DeviceState, address: nat, data: seq<byte>, accessSize: nat)
    requires WellSized(d) && address + |data| <= ADDRESS_SPACE && Transfers(accessSize)
    requires InOneRegion(regions, address, address + Written(|data|, accessSize))
    requires BesideFlash(address, |data|) || InsideFlash(address, |data|)
    ensures var n := Written(|data|, accessSize);
            && n <= |data|
            && (ReadBack(regions, WriteFrames(d, address, data, accessSize).mem, address, accessSize, n) == data[..n]
                <==> BesideFlash(address, |data|)
                     || forall k :: 0 <= k < n ==> And(d.mem[address + k], data[k]) == data[k])
  {
    var n := Written(|data|, accessSize);
    var m := WriteFrames(d, address, data, accessSize).mem;
    RoundDownIdempotent(|data|, accessSize);
    ReadBackExact(regions, m, address, accessSize, n);
    hide WriteFrames, Written, PowerOfTwoAccess, RoundDown, And, ReadBack;
    if BesideFlash(address, |data|) {
      WriteBeside(d, address, data, accessSize);
      StoreTakes(d.mem, address, data[..n]);
      hide *;
    } else {
      WriteInside(d, address, data, accessSize);
      ProgrammedIs(d.buffer, data, accessSize);
      hide *;
      ProgramTakes(d.mem, address, Programmed(d.buffer, data, accessSize), n);
    }
  }

  lemma StoreTakes(mem: seq<byte>, address: nat, data: seq<byte>)
    requires address + |data| <= |mem|
    ensures |Store(mem, address, data)| == |mem| && Store(mem, address, data)[address..address + |data|] == data
  {
  }

  lemma ProgramTakes(mem: seq<byte>, address: nat, data: seq<byte>, n: nat)
    requires n <= |data| && address + |data| <= |mem|
    ensures Program(mem, address, data)[address..address + n] == data[..n]
       <==> forall k :: 0 <= k < n ==> And(mem[address + k], data[k]) == data[k]
  {
    hide And;
    var m := Program(mem, address, data)[address..address + n];
    assert forall k :: 0 <= k < n ==> m[k] == And(mem[address + k], data[k]);
    if m == data[..n] {
      assert forall k :: 0 <= k < n ==> m[k] == data[k];
    }
  }

  /** So it does wherever the flash was erased. */
  lemma ErasedReadsBack(regions: seq<Region>, d: DeviceState, address: nat, data: seq<byte>, accessSize: nat)
    requires WellSized(d) && address + |data| <= ADDRESS_SPACE && Transfers(accessSize)
    requires InOneRegion(regions, address, address + Written(|data|, accessSize)) && InsideFlash(address, |data|)
    requires forall i :: address <= i < address + |data| ==> d.mem[i] == ERASED
    ensures var n := Written(|data|, accessSize);
            && n <= |data|
            && ReadBack(regions, WriteFrames(d, address, data, accessSize).mem, address, accessSize, n) == data[..n]
  {
    hide ReadBack, WriteFrames, And;
    ReadAfterWrite(regions, d, address, data, accessSize);
    forall k | 0 <= k < |data|
      ensures And(d.mem[address + k], data[k]) == data[k]
    {
      AndErased(data[k]);
    }
  }

  class TargetSTM32F1 {
    const device: Device

    constructor (device: Device)
      ensures this.device == device
    {
      this.device := device;
    }

    method SendAndReceive(command: Frame) returns (answer: Frame)
      requires device.Valid() && command.FitsPacket()
      requires command.head.address + command.head.byteCount <= ADDRESS_SPACE
      modifies device, device.mem, device.cmdPayload, device.ansPayload
      ensures command.head.cmd == MemoryRead ==>
                && answer == ReadAnswer(device.regions, device.mem[..], command.head)
                && device.mem[..] == old(device.mem[..]) && device.programmed == old(device.programmed)
      ensures command.head.cmd == MemoryWrite ==>
                var n := PayloadSize(command.Size(), command.head.byteCount, ValidatedAlign(command.head.align));
                && answer == Frame(Head(MemoryWrite, ValidatedAlign(command.head.align), n, command.head.address), [])
                && device.State() == WriteFrame(old(device.State()), command.head.address, command.payload, n)
    {
      answer := device.Exchange(command);
    }

    method MemRead(address: nat, accessSize: nat, elementCount: nat) returns (data: seq<byte>)
      requires device.Valid() && address + elementCount * accessSize <= ADDRESS_SPACE
      modifies device, device.mem, device.cmdPayload, device.ansPayload
      ensures device.mem[..] == old(device.mem[..]) && device.programmed == old(device.programmed)
      ensures !PowerOfTwoAccess(accessSize) ==> data == []
      ensures PowerOfTwoAccess(accessSize) ==>
                data == ReadBack(device.regions, device.mem[..], address, accessSize, elementCount * accessSize)
    {
      if accessSize == 0 || elementCount == 0 {
        return [];
      }
      ProductIsMultiple(elementCount, accessSize);
      data := ReadAll(address, accessSize, elementCount * accessSize);
    }

    /** One turn of the loop of `MemRead`: the bytes of the answer, none where the loop ends. */
    method ReadOneFrame(address: nat, accessSize: nat, remain: nat) returns (bytes: seq<byte>)
      requires device.Valid() && address + remain <= ADDRESS_SPACE && accessSize > 0
      modifies device, device.mem, device.cmdPayload, device.ansPayload
      ensures device.mem[..] == old(device.mem[..]) && device.programmed == old(device.programmed)
      ensures if !PowerOfTwoAccess(accessSize) || remain < accessSize then bytes == []
              else bytes == Readable(device.regions, device.mem[..], address, Chunk(remain, accessSize))
    {
      hide Readable, RoundDown, PowerOfTwoAccess, PayloadSize, ValidatedAlign, Store, InOneRegion, WriteFrame;
      var cmdHead := NextHead(MemoryRead, address, accessSize, remain);
      if cmdHead == None { return []; }
      DeviceAgrees(remain, accessSize);
      var answer := SendAndReceive(Frame(cmdHead.value, []));
      if answer.Size() < HEAD_SIZE { return []; }
      if cmdHead.value.cmd != answer.head.cmd { return []; }
      if cmdHead.value.address != answer.head.address { return []; }
      if cmdHead.value.align != answer.head.align { return []; }
      var readCount := Min(answer.head.byteCount, remain);
      bytes := answer.payload[..readCount];
    }

    method CopyIn(buffer: array<byte>, offset: nat, bytes: seq<byte>)
      requires offset + |bytes| <= buffer.Length
      modifies buffer
      ensures buffer[..offset + |bytes|] == old(buffer[..offset]) + bytes
    {
      forall i | 0 <= i < |bytes| {
        buffer[offset + i] := bytes[i];
      }
    }

    /** The loop of `MemRead`. */
    method ReadAll(address: nat, accessSize: nat, totalBytesToRead: nat) returns (data: seq<byte>)
      requires device.Valid() && address + totalBytesToRead <= ADDRESS_SPACE
      requires accessSize > 0 && Multiple(totalBytesToRead, accessSize)
      modifies device, device.mem, device.cmdPayload, device.ansPayload
      ensures device.mem[..] == old(device.mem[..]) && device.programmed == old(device.programmed)
      ensures !PowerOfTwoAccess(accessSize) ==> data == []
      ensures PowerOfTwoAccess(accessSize) ==>
                data == ReadBack(device.regions, device.mem[..], address, accessSize, totalBytesToRead)
    {
      hide Readable, RoundDown, PowerOfTwoAccess, Chunk, Multiple, ReadBack, InOneRegion;
      var buffer := new byte[totalBytesToRead];
      var offset := 0;
      ghost var mem := device.mem[..];
      ghost var all := ReadBack(device.regions, mem, address, accessSize, totalBytesToRead);
      while offset < totalBytesToRead
        invariant 0 <= offset <= totalBytesToRead && Multiple(totalBytesToRead - offset, accessSize)
        invariant device.mem[..] == mem && device.programmed == old(device.programmed)
        invariant !PowerOfTwoAccess(accessSize) ==> offset == 0
        invariant all == buffer[..offset]
                         + ReadBack(device.regions, mem, address + offset, accessSize, totalBytesToRead - offset)
      {
        var remain := totalBytesToRead - offset;
        ShortMultiple(remain, accessSize);
        ReadBackStep(device.regions, mem, address + offset, accessSize, remain);
        var bytes := ReadOneFrame(address + offset, accessSize, remain);
        if bytes == [] {
          if PowerOfTwoAccess(accessSize) {
            ReadBackEnd(device.regions, mem, address + offset, accessSize, remain);
          }
          break;
        }
        ghost var got := buffer[..offset];
        ghost var rest := ReadBack(device.regions, mem, address + offset + |bytes|, accessSize, remain - |bytes|);
        CopyIn(buffer, offset, bytes);
        offset := offset + |bytes|;
        assert got + (bytes + rest) == got + bytes + rest;
      }
      data := buffer[..offset];
      if offset == totalBytesToRead {
        ReadBackEnd(device.regions, mem, address + offset, accessSize, 0);
      }
    }

    /** One turn of the loop of `MemWrite`: the bytes written, none where the loop ends. */
    method WriteOneFrame(address: nat, accessSize: nat, rest: seq<byte>) returns (n: nat)
      requires device.Valid() && address + |rest| <= ADDRESS_SPACE && accessSize > 0
      modifies device, device.mem, device.cmdPayload, device.ansPayload
      ensures n == if !PowerOfTwoAccess(accessSize) || |rest| < accessSize then 0 else Chunk(|rest|, accessSize)
      ensures n <= |rest|
      ensures WriteFrames(device.State(), address + n, rest[n..], accessSize)
           == WriteFrames(old(device.State()), address, rest, accessSize)
    {
      hide RoundDown, PowerOfTwoAccess, PayloadSize, ValidatedAlign, WriteFrame, WriteFrames, Chunk, Device.State;
      assert rest[0..] == rest;
      n := 0;
      var cmdHead := NextHead(MemoryWrite, address, accessSize, |rest|);
      if cmdHead == None { return; }
      DeviceAgrees(|rest|, accessSize);
      FramesStep(device.State(), address, rest, accessSize);
      var chunk := rest[..cmdHead.value.byteCount];
      var answer := SendAndReceive(Frame(cmdHead.value, chunk));
      if cmdHead.value.cmd != answer.head.cmd { return; }
      if cmdHead.value.address != answer.head.address { return; }
      if cmdHead.value.align != answer.head.align { return; }
      if answer.head.byteCount > cmdHead.value.byteCount { return; }
      n := answer.head.byteCount;
    }

    /** For every range and every length: what is written, frame by frame, and how much that is. */
    method MemWrite(address: nat, accessSize: nat, dataToWrite: seq<byte>) returns (written: nat)
      requires device.Valid() && (dataToWrite != [] ==> accessSize > 0) && address + |dataToWrite| <= ADDRESS_SPACE
      modifies device, device.mem, device.cmdPayload, device.ansPayload
      ensures written == Written(|dataToWrite|, accessSize)
      ensures device.State() == WriteFrames(old(device.State()), address, dataToWrite, accessSize)
    {
      hide RoundDown, PowerOfTwoAccess, Multiple, Written, WholeElements, WriteFrames, Chunk, Device.State;
      var totalBytesToWrite := |dataToWrite|;
      ghost var d := device.State();
      WriteStart(accessSize);
      if totalBytesToWrite == 0 {
        NoFrames(d, address, dataToWrite, accessSize);
        return 0;
      }
      var offset := 0;
      assert dataToWrite[0..] == dataToWrite;
      while offset < totalBytesToWrite
        invariant offset <= totalBytesToWrite && WholeElements(offset, accessSize)
        invariant WriteFrames(device.State(), address + offset, dataToWrite[offset..], accessSize)
               == WriteFrames(d, address, dataToWrite, accessSize)
      {
        ghost var rest := dataToWrite[offset..];
        var n := WriteOneFrame(address + offset, accessSize, dataToWrite[offset..]);
        if PowerOfTwoAccess(accessSize) && offset + accessSize <= totalBytesToWrite {
          WriteStep(offset, totalBytesToWrite, accessSize);
        }
        if n == 0 {
          assert rest[0..] == rest;
          break;
        }
        assert rest[n..] == dataToWrite[offset + n..];
        offset := offset + n;
      }
      written := offset;
      WriteEnd(offset, totalBytesToWrite, accessSize);
      NoFrames(device.State(), address + offset, dataToWrite[offset..], accessSize);
    }
  }

  /** No frame carries an element: nothing is written. */
  lemma NoFrames(d: DeviceState, address: nat, data: seq<byte>, accessSize: nat)
    requires WellSized(d) && address + |data| <= ADDRESS_SPACE
    requires !PowerOfTwoAccess(accessSize) || |data| < accessSize || accessSize > MAX_PAYLOAD
    ensures WriteFrames(d, address, data, accessSize) == d
  {
  }

  /** One frame on the way, an empty one included. */
  lemma FramesStep(d: DeviceState, address: nat, data: seq<byte>, accessSize: nat)
    requires WellSized(d) && address + |data| <= ADDRESS_SPACE && PowerOfTwoAccess(accessSize)
    ensures var n := Chunk(|data|, accessSize);
            WriteFrames(WriteFrame(d, address, data[..n], n), address + n, data[n..], accessSize)
            == WriteFrames(d, address, data, accessSize)
  {
    hide Chunk, PowerOfTwoAccess, WriteFrame;
    if Chunk(|data|, accessSize) == 0 {
      EmptyFrame(d, address);
      assert data[..0] == [] && data[0..] == data;
    }
  }
}
