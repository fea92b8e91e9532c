/** Erase, write, done: from the host's calls to the image in the device's flash
    (GdbServer/Gdb/target.c and Bootloader/App/Debug.cpp together). */
module Reprogram {
  import opened Bytes
  import opened Bootloader
  import opened WriteBack
  import opened FlashCache
  import EraseLoop
  import RingBuffer

  /** Memory once the pages of [addr, end) are erased and the writes are made: the last write of a byte,
      erased beside them in those pages, and what was there anywhere else. */
  function Image(mem: seq<byte>, addr: nat, end: nat, ws: seq<Write>): seq<byte> {
    seq(|mem|, x requires 0 <= x < |mem| =>
      if Last(ws, x) >= 0 then ws[Last(ws, x)].value
      else if EraseLoop.Covers(addr, end, x) then ERASED
      else mem[x])
  }

  /** The part of the region that a host's erase call covers: it is page-aligned and begins inside. */
  predicate ErasesRegion(start: nat, length: nat, addr: nat, len: nat) {
    && start + length <= FLASH_END
    && len > 0 && addr % EraseLoop.PAGE == 0 && FLASH_USER <= addr && start <= addr < start + length
  }

  predicate Inside(ws: seq<Write>, addr: nat, end: nat) {
    forall i :: 0 <= i < |ws| ==> addr <= ws[i].addr < end
  }

  lemma DirectIsImage(mem: seq<byte>, addr: nat, end: nat, ws: seq<Write>)
    requires Inside(ws, addr, end) && end <= |mem|
    ensures Direct(EraseLoop.Wiped(mem, addr, end), ws) == Image(mem, addr, end, ws)
  {
    var wiped := EraseLoop.Wiped(mem, addr, end);
    forall x | 0 <= x < |mem|
      ensures Direct(wiped, ws)[x] == Image(mem, addr, end, ws)[x]
    {
      DirectByte(wiped, ws, x);
    }
  }

  /** What the erase leaves is what the writes need, so the two together give the image, whatever was in
      flash before. */
  lemma EraseThenWrite(mem: seq<byte>, start: nat, length: nat, addr: nat, len: nat, size: nat, ws: seq<Write>)
    requires |mem| == ADDRESS_SPACE && ErasesRegion(start, length, addr, len)
    requires size > 0 && size % 2 == 0 && Fits(ws, size, |mem|) && NoStaleRewrite(ws, size)
    requires Inside(ws, addr, Min(addr + len, start + length))
    ensures var end := Min(addr + len, start + length);
            var requests := EraseLoop.EraseRequests([EraseLoop.Span(start, length)], addr, len);
            var erased := EraseLoop.EraseAll(mem, requests).0;
            && Final(erased, size, ws).flash == Image(mem, addr, end, ws)
            && (NoSectorRevisited(ws, size) ==> NoDuplicates(Final(erased, size, ws).log))
  {
    hide EraseLoop.EraseAll, EraseLoop.EraseRequests, EraseLoop.Wiped, Fits, Final, Image;
    hide NoStaleRewrite, NoSectorRevisited, NoDuplicates;
    var end := Min(addr + len, start + length);
    var erased := EraseLoop.EraseAll(mem, EraseLoop.EraseRequests([EraseLoop.Span(start, length)], addr, len)).0;
    EraseLoop.HostEraseWipes(mem, start, length, addr, len);
    DirectIsImage(mem, addr, end, ws);
    assert Blanks(erased, ws);
    Coherence(erased, size, ws);
    if NoSectorRevisited(ws, size) {
      ProgramOnce(erased, size, ws);
    }
  }

  /** The host's erase call, its request through the ring, and the device's loop. */
  method EraseRegion(eraser: EraseLoop.Eraser, start: nat, length: nat, addr: nat, len: nat) returns (ret: nat)
    requires eraser.device.Valid() && eraser.eraseParams.Valid()
    requires eraser.eraseParams.Contents() == [] && eraser.eraseParams.size > 1
    requires eraser.eraseParams.buffer as object != eraser.device.mem
    requires ErasesRegion(start, length, addr, len)
    modifies eraser.eraseParams, eraser.eraseParams.buffer, eraser.device.mem
    ensures ret == 0 && eraser.eraseParams.Valid() && eraser.eraseParams.Contents() == []
    ensures var end := Min(addr + len, start + length);
            && eraser.device.mem[..] == EraseLoop.Wiped(old(eraser.device.mem[..]), addr, end)
            && forall x :: addr <= x < end ==> eraser.device.mem[x] == ERASED
  {
    hide EraseLoop.EraseAll, EraseLoop.Wiped, EraseLoop.ErasePages;
    ghost var mem := eraser.device.mem[..];
    var requests;
    ret, requests := EraseLoop.TargetFlashErase([EraseLoop.Span(start, length)], addr, len);
    EraseLoop.RequestAccepted(start, length, addr, len);
    EraseLoop.EraseOne(mem, requests[0]);
    EraseLoop.HostEraseWipes(mem, start, length, addr, len);
    hide EraseLoop.EraseRequests, EraseLoop.Accepted, EraseLoop.Last;
    var ok := eraser.eraseParams.Put(requests[0]);
    assert eraser.eraseParams.Contents() == requests && eraser.device.mem[..] == mem;
    eraser.FlashEraseLoop();
    ghost var end := Min(addr + len, start + length);
    forall x | addr <= x < end
      ensures eraser.device.mem[x] == ERASED
    {
      assert eraser.device.mem[..][x] == ERASED;
    }
  }

  /** The host erases, the device's loop does it, the host writes the blocks and is done: the device holds
      the image. */
  method ReprogramFlash(eraser: EraseLoop.Eraser, host: FlashTarget, addr: nat, len: nat, blocks: seq<Block>)
      returns (ret: nat)
    requires host.flash.Valid() && !host.flash.IsLive()
    requires eraser.device == host.flash.target.device
    requires eraser.eraseParams.Valid() && eraser.eraseParams.Contents() == [] && eraser.eraseParams.size > 1
    requires var d := eraser.device;
             && eraser.eraseParams.buffer as object !in {d.mem, d.cmdPayload, d.ansPayload}
             && eraser.eraseParams as object !in {d, host.flash, host}
    requires ErasesRegion(host.flash.start, host.flash.length, addr, len)
    requires forall k :: 0 <= k < |blocks| ==> host.BlockInRegion(blocks[k])
    requires NoStaleRewrite(AllWrites(blocks), host.flash.bufSize)
    requires Inside(AllWrites(blocks), addr, Min(addr + len, host.flash.start + host.flash.length))
    modifies eraser.eraseParams, eraser.eraseParams.buffer, host, host.flash, host.flash.buf, host.flash.target.device,
             host.flash.target.device.mem, host.flash.target.device.cmdPayload, host.flash.target.device.ansPayload
    ensures ret == 0 && host.flash.Valid() && !host.flash.IsLive()
    ensures var end := Min(addr + len, host.flash.start + host.flash.length);
            eraser.device.mem[..] == Image(old(eraser.device.mem[..]), addr, end, AllWrites(blocks))
    ensures NoSectorRevisited(AllWrites(blocks), host.flash.bufSize) ==>
              exists log :: NoDuplicates(log) && eraser.device.programmed == old(eraser.device.programmed) + log
    ensures host.detaches == old(host.detaches) + 1
  {
    hide EraseLoop.Wiped, NoStaleRewrite, NoSectorRevisited, NoDuplicates, Image, Direct, AllWrites, Final;
    ghost var mem, ws := eraser.device.mem[..], AllWrites(blocks);
    ret := EraseRegion(eraser, host.flash.start, host.flash.length, addr, len);
    DirectIsImage(mem, addr, Min(addr + len, host.flash.start + host.flash.length), ws);
    assert Blanks(eraser.device.mem[..], ws);
    host.ProgramImage(blocks);
  }
}
