/** The erase loop the debug monitor starts: it skips pages that are blank already
    (Bootloader/App/Debug.cpp). */
module EraseLoop {
  import opened Bytes
  import opened Bootloader
  import RingBuffer

  const PAGE: nat := 0x400
  const LIMIT: nat := 0x8002_0000

  datatype EraseParams = EraseParams(address: nat, size: nat)

  // ---- The specification ----

  /** Erasing the page that holds `a`; addresses outside flash erase nothing. */
  function ErasePage(mem: seq<byte>, a: nat): (r: seq<byte>)
    requires |mem| == ADDRESS_SPACE
    ensures |r| == |mem|
  {
    if FLASH_BEGIN <= a < FLASH_END
    then seq(|mem|, i requires 0 <= i < |mem| => if i / PAGE == a / PAGE then ERASED else mem[i])
    else mem
  }

  predicate Blank(mem: seq<byte>, a: nat, n: nat)
    requires a + n <= |mem|
  {
    forall i :: a <= i < a + n ==> mem[i] == ERASED
  }

  /** One turn of the page loop. */
  function EraseIfNeeded(mem: seq<byte>, a: nat): (r: seq<byte>)
    requires |mem| == ADDRESS_SPACE && a + PAGE <= ADDRESS_SPACE
    ensures |r| == |mem|
  {
    if Blank(mem, a, PAGE) then mem else ErasePage(mem, a)
  }

  function ErasePages(mem: seq<byte>, a: nat, last: nat): (r: seq<byte>)
    requires |mem| == ADDRESS_SPACE && last <= LIMIT
    ensures |r| == |mem|
    decreases last - a
  {
    if a >= last then mem else ErasePages(EraseIfNeeded(mem, a), a + PAGE, last)
  }

  /** The 32-bit end address of a request. */
  function Last(p: EraseParams): nat {
    (p.address + p.size) % ADDRESS_SPACE
  }

  predicate Accepted(p: EraseParams) {
    FLASH_USER <= p.address <= LIMIT && Last(p) <= LIMIT
  }

  /** The whole loop: a request that is not accepted ends it. */
  function EraseAll(mem: seq<byte>, queue: seq<EraseParams>): (r: (seq<byte>, seq<EraseParams>))
    requires |mem| == ADDRESS_SPACE
    ensures |r.0| == |mem|
    decreases |queue|
  {
    if queue == [] then (mem, [])
    else if !Accepted(queue[0]) then (mem, queue[1..])
    else EraseAll(ErasePages(mem, queue[0].address, Last(queue[0])), queue[1..])
  }

  /** A request that begins below user flash or past the limit, or ends past it, ends the loop and leaves what is
      behind it in the queue; any other is served, and the loop goes on. */
  lemma LoopStops(mem: seq<byte>, queue: seq<EraseParams>)
    requires |mem| == ADDRESS_SPACE && queue != []
    ensures var p := queue[0];
            var end := (p.address + p.size) % 0x1_0000_0000;
            if 0x0800_4000 <= p.address <= 0x8002_0000 && end <= 0x8002_0000
            then EraseAll(mem, queue) == EraseAll(ErasePages(mem, p.address, end), queue[1..])
            else EraseAll(mem, queue) == (mem, queue[1..])
  {
    hide ErasePages;
  }

  // ---- What it does to flash ----

  /** Byte `i` is in flash, in a page the range [a, last) touches. */
  predicate Covers(a: nat, last: nat, i: nat) {
    a < last && a / PAGE <= i / PAGE && i / PAGE * PAGE < last && FLASH_BEGIN <= i < FLASH_END
  }

  /** Erasing without looking: every flash byte of the pages from `a` up to `last` is erased. */
  function Wiped(mem: seq<byte>, a: nat, last: nat): seq<byte> {
    seq(|mem|, i requires 0 <= i < |mem| => if Covers(a, last, i) then ERASED else mem[i])
  }

  lemma EraseIfNeededWipes(mem: seq<byte>, a: nat)
    requires |mem| == ADDRESS_SPACE && a + PAGE <= ADDRESS_SPACE && a % PAGE == 0
    ensures EraseIfNeeded(mem, a) == Wiped(mem, a, a + 1)
  {
    forall i | 0 <= i < |mem|
      ensures EraseIfNeeded(mem, a)[i] == Wiped(mem, a, a + 1)[i]
    {
    }
  }

  /** For page-aligned requests skipping blank pages changes nothing: all covered pages end up erased,
      everything else is as it was. */
  lemma {:induction false} AlignedErase(mem: seq<byte>, a: nat, last: nat)
    requires |mem| == ADDRESS_SPACE && a % PAGE == 0 && last <= LIMIT
    ensures ErasePages(mem, a, last) == Wiped(mem, a, last)
    decreases last - a
  {
    if a < last {
      EraseIfNeededWipes(mem, a);
      AlignedErase(EraseIfNeeded(mem, a), a + PAGE, last);
    }
  }

  /** Whatever is requested, bytes only ever become erased, and only at or above the user flash. */
  ghost predicate OnlyUserFlashErased(was: seq<byte>, now: seq<byte>) {
    && |was| == |now|
    && forall i :: 0 <= i < |now| && now[i] != was[i] ==> FLASH_USER <= i < FLASH_END && now[i] == ERASED
  }

  lemma {:induction false} ErasePagesSafe(mem: seq<byte>, a: nat, last: nat)
    requires |mem| == ADDRESS_SPACE && FLASH_USER <= a && last <= LIMIT
    ensures OnlyUserFlashErased(mem, ErasePages(mem, a, last))
    decreases last - a
  {
    if a < last {
      assert OnlyUserFlashErased(mem, EraseIfNeeded(mem, a));
      ErasePagesSafe(EraseIfNeeded(mem, a), a + PAGE, last);
    }
  }

  lemma {:induction false} EraseAllSafe(mem: seq<byte>, queue: seq<EraseParams>)
    requires |mem| == ADDRESS_SPACE
    ensures OnlyUserFlashErased(mem, EraseAll(mem, queue).0)
    decreases |queue|
  {
    if queue != [] && Accepted(queue[0]) {
      ErasePagesSafe(mem, queue[0].address, Last(queue[0]));
      EraseAllSafe(ErasePages(mem, queue[0].address, Last(queue[0])), queue[1..]);
    }
  }

  lemma {:induction false} BlankTailStays(mem: seq<byte>, a: nat, last: nat)
    requires |mem| == ADDRESS_SPACE && last <= LIMIT && a <= |mem| && Blank(mem, a, |mem| - a)
    ensures ErasePages(mem, a, last) == mem
    decreases last - a
  {
    if a < last {
      BlankTailStays(mem, a + PAGE, last);
    }
  }

  lemma {:induction false} NoFlashStays(mem: seq<byte>, a: nat, last: nat)
    requires |mem| == ADDRESS_SPACE && last <= LIMIT && FLASH_END <= a
    ensures ErasePages(mem, a, last) == mem
    decreases last - a
  {
    if a < last {
      NoFlashStays(mem, a + PAGE, last);
    }
  }

  /** For an address that is not page-aligned: a memory blank but for the base of the page, which the request
      covers and the loop does not see. */
  lemma UnalignedMisses(a: nat, last: nat) returns (mem: seq<byte>)
    requires FLASH_USER <= a < last <= LIMIT && a < FLASH_END && a % PAGE != 0
    ensures |mem| == ADDRESS_SPACE && ErasePages(mem, a, last) != Wiped(mem, a, last)
  {
    var base := a - a % PAGE;
    mem := seq(ADDRESS_SPACE, i requires 0 <= i < ADDRESS_SPACE => if i == base then 0 else ERASED);
    BlankTailStays(mem, a, last);
    assert base / PAGE == a / PAGE && Covers(a, last, base);
    assert Wiped(mem, a, last)[base] == ERASED != mem[base];
  }

  /** Exactly when the blank check cannot be seen: for every contents of memory the result is that of erasing
      without looking if and only if the address is page-aligned, or the request touches no flash at all. */
  lemma SkippingInvisible(a: nat, last: nat)
    requires FLASH_USER <= a && last <= LIMIT
    ensures (forall mem: seq<byte> | |mem| == ADDRESS_SPACE :: ErasePages(mem, a, last) == Wiped(mem, a, last))
       <==> a % PAGE == 0 || last <= a || FLASH_END <= a
  {
    if a % PAGE == 0 {
      forall mem: seq<byte> | |mem| == ADDRESS_SPACE
        ensures ErasePages(mem, a, last) == Wiped(mem, a, last)
      {
        AlignedErase(mem, a, last);
      }
    } else if last <= a || FLASH_END <= a {
      forall mem: seq<byte> | |mem| == ADDRESS_SPACE
        ensures ErasePages(mem, a, last) == Wiped(mem, a, last)
      {
        if FLASH_END <= a {
          NoFlashStays(mem, a, last);
        }
        NothingCovered(a, last);
        assert Wiped(mem, a, last) == mem;
      }
    } else {
      var mem := UnalignedMisses(a, last);
    }
  }

  lemma NothingCovered(a: nat, last: nat)
    requires last <= a || FLASH_END <= a
    ensures forall i :: !Covers(a, last, i)
  {
    assert FLASH_END % PAGE == 0;
  }

  // ---- A whole queue ----

  predicate AllAccepted(queue: seq<EraseParams>) {
    forall k :: 0 <= k < |queue| ==> Accepted(queue[k]) && queue[k].address % PAGE == 0
  }

  predicate CoveredByAny(queue: seq<EraseParams>, i: nat) {
    exists k :: 0 <= k < |queue| && Covers(queue[k].address, Last(queue[k]), i)
  }

  /** A queue of accepted, page-aligned requests erases the pages any of them covers, in whatever order they
      come, and is used up. */
  lemma {:induction false} AlignedQueue(mem: seq<byte>, queue: seq<EraseParams>, i: nat)
    requires |mem| == ADDRESS_SPACE && AllAccepted(queue) && i < ADDRESS_SPACE
    ensures EraseAll(mem, queue).1 == []
    ensures EraseAll(mem, queue).0[i] == if CoveredByAny(queue, i) then ERASED else mem[i]
    decreases |queue|
  {
    hide ErasePages, Covers, Last;
    if queue != [] {
      var p, rest := queue[0], queue[1..];
      var after := ErasePages(mem, p.address, Last(p));
      AlignedErase(mem, p.address, Last(p));
      assert forall k :: 0 <= k < |rest| ==> rest[k] == queue[k + 1];
      AlignedQueue(after, rest, i);
      CoveredCons(queue, i);
    }
  }

  lemma CoveredCons(queue: seq<EraseParams>, i: nat)
    requires queue != []
    ensures CoveredByAny(queue, i) <==> Covers(queue[0].address, Last(queue[0]), i) || CoveredByAny(queue[1..], i)
  {
    hide Covers, Last;
    assert forall k :: 1 <= k < |queue| ==> queue[k] == queue[1..][k - 1];
  }

  /** Alignment matters: the blank check looks at the 1024 bytes from the address on, the erase at the
      page around it. Here a covered page is not blank, and stays so. */
  lemma UnalignedSkips(mem: seq<byte>)
    requires |mem| == ADDRESS_SPACE && mem[FLASH_USER] != ERASED && Blank(mem, FLASH_USER + 0x200, PAGE)
    ensures ErasePages(mem, FLASH_USER + 0x200, FLASH_USER + 0x600)[FLASH_USER] != ERASED
    ensures Wiped(mem, FLASH_USER + 0x200, FLASH_USER + 0x600)[FLASH_USER] == ERASED
  {
    var a := FLASH_USER + 0x200;
    assert EraseIfNeeded(mem, a) == mem;
    assert ErasePages(mem, a + PAGE, a + PAGE) == mem;
  }

  /** A page-aligned erase of a range leaves it ready to be programmed. */
  lemma EraseThenProgram(mem: seq<byte>, p: EraseParams, start: nat, length: nat)
    requires |mem| == ADDRESS_SPACE && Accepted(p) && p.address % PAGE == 0
    requires p.address <= start && start + length <= Last(p) && start + length <= FLASH_END
    ensures var after := EraseAll(mem, [p]).0;
            forall x :: start <= x < start + length ==> after[x] == ERASED
  {
    AlignedErase(mem, p.address, Last(p));
    EraseOne(mem, p);
  }

  // ---- The host's side ----

  /** A flash region of the target's list. */
  datatype Span = Span(start: nat, length: nat)

  /** `flash_for_addr`: the first region that holds the address, or the length of the list. */
  function FlashForAddr(list: seq<Span>, addr: nat): (k: nat)
    ensures k <= |list|
    ensures k < |list| ==> list[k].start <= addr < list[k].start + list[k].length
    ensures forall j :: 0 <= j < k ==> !(list[j].start <= addr < list[j].start + list[j].length)
  {
    if list == [] || list[0].start <= addr < list[0].start + list[0].length then 0
    else 1 + FlashForAddr(list[1..], addr)
  }

  /** How much of a request the region that holds its first address takes. */
  function FirstSize(list: seq<Span>, addr: nat, len: nat): (n: nat)
    ensures n <= len
    ensures n == 0 <==> len == 0 || FlashForAddr(list, addr) == |list|
  {
    var k := FlashForAddr(list, addr);
    if k == |list| then 0 else Min(addr + len, list[k].start + list[k].length) - addr
  }

  /** The erase requests `target_flash_erase` sends, region by region. */
  function EraseRequests(list: seq<Span>, addr: nat, len: nat): seq<EraseParams>
    decreases len
  {
    var n := FirstSize(list, addr, len);
    if n == 0 then [] else [EraseParams(addr, n)] + EraseRequests(list, addr + n, len - n)
  }

  function Asked(requests: seq<EraseParams>): nat {
    if requests == [] then 0 else requests[0].size + Asked(requests[1..])
  }

  predicate BackToBack(requests: seq<EraseParams>, addr: nat) {
    requests == [] || (requests[0].address == addr && BackToBack(requests[1..], addr + requests[0].size))
  }

  lemma Cons(p: EraseParams, rest: seq<EraseParams>)
    ensures Asked([p] + rest) == p.size + Asked(rest)
    ensures BackToBack([p] + rest, p.address) <==> BackToBack(rest, p.address + p.size)
  {
    assert ([p] + rest)[1..] == rest;
  }

  /** The requests are the ranges of a prefix of the call's, back to back; what is left over lies where no
      region holds its first address. */
  lemma {:induction false} RequestsTile(list: seq<Span>, addr: nat, len: nat)
    ensures var rs := EraseRequests(list, addr, len);
            && BackToBack(rs, addr) && Asked(rs) <= len
            && (Asked(rs) == len || FlashForAddr(list, addr + Asked(rs)) == |list|)
    decreases len
  {
    hide FirstSize, FlashForAddr;
    var n := FirstSize(list, addr, len);
    if n > 0 {
      RequestsTile(list, addr + n, len - n);
      Cons(EraseParams(addr, n), EraseRequests(list, addr + n, len - n));
      hide Asked, BackToBack;
    }
  }

  predicate Held(list: seq<Span>, a: nat) {
    exists k :: 0 <= k < |list| && list[k].start <= a < list[k].start + list[k].length
  }

  lemma HeldByFirst(list: seq<Span>, addr: nat, len: nat)
    ensures var n := FirstSize(list, addr, len);
            && AllHeld(list, addr, n)
            && (n == 0 && AllHeld(list, addr, len) ==> len == 0)
  {
    hide FlashForAddr;
    var k := FlashForAddr(list, addr);
    if k < |list| {
      forall a | addr <= a < addr + FirstSize(list, addr, len)
        ensures Held(list, a)
      {
        assert list[k].start <= a < list[k].start + list[k].length;
      }
    } else if len > 0 {
      assert !Held(list, addr);
    }
  }

  /** The success reported is true, the whole range asked for, if and only if every address of it lies in some
      region. */
  lemma {:induction false} SuccessIsTrue(list: seq<Span>, addr: nat, len: nat)
    ensures Asked(EraseRequests(list, addr, len)) == len <==> AllHeld(list, addr, len)
    decreases len
  {
    hide FirstSize, FlashForAddr, AllHeld, Held;
    var n := FirstSize(list, addr, len);
    HeldByFirst(list, addr, len);
    if n > 0 {
      SuccessIsTrue(list, addr + n, len - n);
      Cons(EraseParams(addr, n), EraseRequests(list, addr + n, len - n));
      hide EraseRequests, Asked;
      HeldInParts(list, addr, n, len);
    }
  }

  predicate AllHeld(list: seq<Span>, addr: nat, len: nat) {
    forall a :: addr <= a < addr + len ==> Held(list, a)
  }

  lemma HeldInParts(list: seq<Span>, addr: nat, n: nat, len: nat)
    requires n <= len
    ensures AllHeld(list, addr, len) <==> AllHeld(list, addr, n) && AllHeld(list, addr + n, len - n)
  {
    hide Held;
  }

  /** The input that shows it can be false: success, and nothing was asked of the device. */
  lemma SuccessWithoutErase(addr: nat, len: nat)
    requires len > 0
    ensures EraseRequests([], addr, len) == [] && Asked([]) != len
  {
  }

  lemma RequestsOnce(list: seq<Span>, addr: nat, len: nat)
    requires len > 0
    ensures var k := FlashForAddr(list, addr);
            if k == |list| then EraseRequests(list, addr, len) == []
            else
              var n := Min(addr + len, list[k].start + list[k].length) - addr;
              n > 0 && EraseRequests(list, addr, len) == [EraseParams(addr, n)] + EraseRequests(list, addr + n, len - n)
  {
    hide FlashForAddr;
  }

  method FlashForAddrLoop(list: seq<Span>, addr: nat) returns (k: nat)
    ensures k == FlashForAddr(list, addr)
  {
    k := 0;
    while k < |list| && !(list[k].start <= addr < list[k].start + list[k].length)
      invariant k <= |list|
      invariant forall j :: 0 <= j < k ==> !(list[j].start <= addr < list[j].start + list[j].length)
    {
      k := k + 1;
    }
  }

  /** `target_flash_erase`: stops where no region holds the address, and still reports success. */
  method TargetFlashErase(list: seq<Span>, addr: nat, len: nat) returns (ret: nat, requests: seq<EraseParams>)
    ensures ret == 0 && requests == EraseRequests(list, addr, len)
  {
    hide FlashForAddr, EraseRequests;
    ret, requests := 0, [];
    var at: nat, rest: nat := addr, len;
    while rest > 0
      invariant ret == 0
      invariant requests + EraseRequests(list, at, rest) == EraseRequests(list, addr, len)
    {
      var k := FlashForAddrLoop(list, at);
      RequestsOnce(list, at, rest);
      if k == |list| {
        return;
      }
      var tmplen := Min(at + rest, list[k].start + list[k].length) - at;
      ghost var tail := EraseRequests(list, at + tmplen, rest - tmplen);
      assert requests + ([EraseParams(at, tmplen)] + tail) == requests + [EraseParams(at, tmplen)] + tail;
      requests := requests + [EraseParams(at, tmplen)];
      at, rest := at + tmplen, rest - tmplen;
    }
    assert EraseRequests(list, at, 0) == [] by {
      NothingAsked(list, at);
    }
  }

  lemma NothingAsked(list: seq<Span>, addr: nat)
    ensures EraseRequests(list, addr, 0) == []
  {
  }

  /** From the host's call to the flash: a page-aligned erase of user flash leaves the pages it covers erased,
      up to the end of the region, and nothing else changed. */
  lemma HostEraseWipes(mem: seq<byte>, start: nat, length: nat, addr: nat, len: nat)
    requires |mem| == ADDRESS_SPACE && start + length <= FLASH_END
    requires len > 0 && addr % PAGE == 0 && FLASH_USER <= addr && start <= addr < start + length
    ensures var end := Min(addr + len, start + length);
            var after := EraseAll(mem, EraseRequests([Span(start, length)], addr, len)).0;
            after == Wiped(mem, addr, end) && forall x :: addr <= x < end ==> after[x] == ERASED
  {
    var end := Min(addr + len, start + length);
    var p := EraseParams(addr, end - addr);
    RequestAccepted(start, length, addr, len);
    hide EraseAll, ErasePages, Wiped, Accepted, Last, EraseRequests, Min;
    EraseOne(mem, p);
    AlignedErase(mem, addr, end);
    WipedRange(mem, addr, end);
  }

  lemma RequestAccepted(start: nat, length: nat, addr: nat, len: nat)
    requires start + length <= FLASH_END && len > 0 && FLASH_USER <= addr && start <= addr < start + length
    ensures var end := Min(addr + len, start + length);
            var p := EraseParams(addr, end - addr);
            && addr < end <= FLASH_END && EraseRequests([Span(start, length)], addr, len) == [p]
            && Accepted(p) && Last(p) == end
  {
  }

  lemma EraseOne(mem: seq<byte>, p: EraseParams)
    requires |mem| == ADDRESS_SPACE && Accepted(p)
    ensures EraseAll(mem, [p]) == (ErasePages(mem, p.address, Last(p)), [])
  {
    hide ErasePages, Last;
    var after := ErasePages(mem, p.address, Last(p));
    assert [p][1..] == [] && EraseAll(after, []) == (after, []);
  }

  lemma WipedRange(mem: seq<byte>, a: nat, end: nat)
    requires |mem| == ADDRESS_SPACE && a % PAGE == 0 && FLASH_USER <= a && end <= FLASH_END
    ensures forall x :: a <= x < end ==> Wiped(mem, a, end)[x] == ERASED
  {
  }

  lemma EraseFirst(mem: seq<byte>, p: EraseParams, rest: seq<EraseParams>)
    requires |mem| == ADDRESS_SPACE
    ensures EraseAll(mem, [p] + rest)
         == if Accepted(p) then EraseAll(ErasePages(mem, p.address, Last(p)), rest) else (mem, rest)
  {
    assert ([p] + rest)[1..] == rest;
  }

  lemma NothingQueued(mem: seq<byte>)
    requires |mem| == ADDRESS_SPACE
    ensures EraseAll(mem, []) == (mem, [])
  {
  }

  // ---- The loop itself ----

  class Eraser {
    const device: Device
    const eraseParams: RingBuffer.CircularBuffer<EraseParams>

    constructor (device: Device)
      ensures this.device == device && eraseParams.Valid() && eraseParams.Contents() == []
      ensures eraseParams.size == 4 && fresh(eraseParams) && fresh(eraseParams.buffer)
    {
      this.device := device;
      eraseParams := new RingBuffer.CircularBuffer<EraseParams>(4);
    }

    /** `flash_erase_page`. */
    method FlashErasePage(address: nat)
      requires device.Valid() && address < ADDRESS_SPACE
      modifies device.mem
      ensures device.mem[..] == ErasePage(old(device.mem[..]), address)
    {
      if FLASH_BEGIN <= address < FLASH_END {
        var base := address - address % PAGE;
        forall i | base <= i < base + PAGE {
          device.mem[i] := ERASED;
        }
      }
    }

    /** The word by word blank check. */
    method NeedsErase(curAddress: nat) returns (erase: bool)
      requires device.Valid() && curAddress + PAGE <= ADDRESS_SPACE
      ensures erase == !Blank(device.mem[..], curAddress, PAGE)
    {
      erase := false;
      var checkAddress := curAddress;
      while checkAddress < curAddress + PAGE
        invariant curAddress <= checkAddress <= curAddress + PAGE && (checkAddress - curAddress) % 4 == 0
        invariant forall i :: curAddress <= i < checkAddress ==> device.mem[i] == ERASED
      {
        var b0, b1, b2, b3 := device.mem[checkAddress], device.mem[checkAddress + 1],
                              device.mem[checkAddress + 2], device.mem[checkAddress + 3];
        var value := b0 as nat + 0x100 * b1 as nat + 0x1_0000 * b2 as nat + 0x100_0000 * b3 as nat;
        if value != 0xFFFF_FFFF {
          assert !(b0 == b1 == b2 == b3 == ERASED);
          return true;
        }
        checkAddress := checkAddress + 4;
      }
    }

    method ErasePagesOf(address: nat, lastAddress: nat)
      requires device.Valid() && lastAddress <= LIMIT
      modifies device.mem
      ensures device.mem[..] == ErasePages(old(device.mem[..]), address, lastAddress)
    {
      ghost var all := ErasePages(device.mem[..], address, lastAddress);
      var curAddress := address;
      while curAddress < lastAddress
        invariant ErasePages(device.mem[..], curAddress, lastAddress) == all
        decreases lastAddress - curAddress
      {
        var erase := NeedsErase(curAddress);
        if erase {
          FlashErasePage(curAddress);
        }
        curAddress := curAddress + PAGE;
      }
    }

    /** The USB interrupts are off while it runs, so nothing is queued meanwhile. */
    method FlashEraseLoop()
      requires device.Valid() && eraseParams.Valid()
      requires eraseParams.buffer as object != device.mem
      modifies device.mem, eraseParams
      ensures eraseParams.Valid()
      ensures (device.mem[..], eraseParams.Contents()) == EraseAll(old(device.mem[..]), old(eraseParams.Contents()))
    {
      hide EraseAll, ErasePages, RingBuffer.Window;
      ghost var queue := eraseParams.Contents();
      ghost var all := EraseAll(device.mem[..], queue);
      var ok, params := eraseParams.Pull(EraseParams(0, 0));
      assert ok ==> queue == [queue[0]] + queue[1..];
      while ok
        invariant eraseParams.Valid()
        invariant all == EraseAll(device.mem[..],
                                  if ok then [params] + eraseParams.Contents() else eraseParams.Contents())
        invariant !ok ==> eraseParams.Contents() == []
        decreases if ok then |eraseParams.Contents()| + 1 else 0
      {
        EraseFirst(device.mem[..], params, eraseParams.Contents());
        var lastAddress := (params.address + params.size) % ADDRESS_SPACE;
        if params.address < FLASH_USER || params.address > LIMIT {
          break;
        }
        if lastAddress > LIMIT {
          break;
        }
        ErasePagesOf(params.address, lastAddress);
        queue := eraseParams.Contents();
        ok, params := eraseParams.Pull(params);
        assert ok ==> queue == [queue[0]] + queue[1..];
      }
      NothingQueued(device.mem[..]);
    }
  }
}
