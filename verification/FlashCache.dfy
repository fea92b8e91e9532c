/** The host's flash driver: GDB's writes gathered in a one-sector buffer and sent to the device a
    sector at a time (GdbServer/Gdb/target.c). */
module FlashCache {
  import opened Bytes
  import opened Bootloader
  import opened HostTarget
  import opened WriteBack

  const NO_SECTOR: nat := 0xFFFF_FFFF

  /** A block of bytes as single-byte writes. */
  function Writes(dest: nat, src: seq<byte>): (ws: seq<Write>)
    ensures |ws| == |src|
  {
    seq(|src|, i requires 0 <= i < |src| => Write(dest + i, src[i]))
  }

  lemma WritesTwice(dest: nat, a: seq<byte>, b: seq<byte>)
    ensures Writes(dest, a) + Writes(dest + |a|, b) == Writes(dest, a + b)
  {
  }

  lemma NextSector(a: nat, size: nat, n: nat)
    requires size > 0 && Multiple(n, size) && a < n
    ensures Sector(a, size) + size <= n
  {
    MultipleDifference(n, Sector(a, size), size);
    ShortMultiple(n - Sector(a, size), size);
  }

  lemma RunNothing(s: State, size: nat, dest: nat)
    requires size > 0 && WriteBack.Valid(s, size)
    ensures Fits(Writes(dest, []), size, |s.flash|) && Run(s, size, Writes(dest, [])) == s
  {
  }

  /** A chunk inside one sector is one copy into the loaded buffer. */
  lemma {:induction false} RunChunk(s: State, size: nat, dest: nat, chunk: seq<byte>)
    requires size > 0 && WriteBack.Valid(s, size) && chunk != []
    requires var base := Sector(dest, size); dest + |chunk| <= base + size <= |s.flash|
    ensures Fits(Writes(dest, chunk), size, |s.flash|)
    ensures var base := Sector(dest, size);
            var t := Load(s, size, base);
            Run(s, size, Writes(dest, chunk)) == t.(cache := Live(base, Store(t.cache.data, dest - base, chunk)))
  {
    var base := Sector(dest, size);
    var m := |chunk| - 1;
    var ws := Writes(dest, chunk);
    forall i | 0 <= i < |ws|
      ensures Sector(ws[i].addr, size) == base
    {
      InSector(ws[i].addr, base, size);
    }
    assert ws[..m] == Writes(dest, chunk[..m]);
    if m > 0 {
      RunChunk(s, size, dest, chunk[..m]);
    }
    var t := Load(s, size, base);
    StoreMore(t.cache.data, dest - base, chunk);
    hide Sector, Store, Flush, RoundDown, Multiple;
  }

  lemma StoreMore(mem: seq<byte>, a: nat, chunk: seq<byte>)
    requires chunk != [] && a + |chunk| <= |mem|
    ensures Store(mem, a, chunk) == Store(mem, a, chunk[..|chunk| - 1])[a + |chunk| - 1 := chunk[|chunk| - 1]]
  {
  }

  lemma SectorInRegion(a: nat, base: nat, size: nat, end: nat)
    requires size > 0 && Multiple(FLASH_USER, size) && Multiple(end, size) && FLASH_USER <= a < end
    requires base == Sector(a, size)
    ensures FLASH_USER <= base && base + size <= end
  {
    NextSector(a, size, end);
    SectorMonotonic(FLASH_USER, a, size);
  }

  lemma {:induction false} SectorMonotonic(bound: nat, a: nat, size: nat)
    requires size > 0 && Multiple(bound, size) && bound <= a
    ensures bound <= Sector(a, size)
  {
    if bound >= size {
      SectorMonotonic(bound - size, a - size, size);
    }
  }

  class FlashRegion {
    const start: nat
    const length: nat
    const bufSize: nat
    const target: TargetSTM32F1
    var buf: array?<byte>
    var bufAddr: nat

    /** The region is inside the address space the device programs, and cut into whole sectors. */
    ghost predicate Geometry()
    {
      && target.device.Valid()
      && bufSize > 0 && bufSize % 2 == 0
      && Multiple(FLASH_USER, bufSize) && Multiple(start, bufSize) && Multiple(start + length, bufSize)
      && start + length <= FLASH_END
    }

    ghost predicate Valid()
      reads this
    {
      && Geometry()
      && (buf != null ==>
            && buf.Length == bufSize
            && buf != target.device.mem && buf != target.device.cmdPayload && buf != target.device.ansPayload
            && (bufAddr != NO_SECTOR ==>
                  Multiple(bufAddr, bufSize) && FLASH_USER <= bufAddr && bufAddr + bufSize <= start + length))
    }

    ghost predicate IsLive()
      reads this
    {
      buf != null && bufAddr != NO_SECTOR
    }

    ghost function Model(): (s: State)
      requires Valid()
      reads this, buf, target.device, target.device.mem
      ensures WriteBack.Valid(s, bufSize) && |s.flash| == ADDRESS_SPACE
    {
      State(target.device.mem[..], target.device.programmed,
            if IsLive() then Live(bufAddr, buf[..]) else Empty)
    }

    constructor (start: nat, length: nat, bufSize: nat, target: TargetSTM32F1)
      requires target.device.Valid() && bufSize > 0 && bufSize % 2 == 0
      requires Multiple(FLASH_USER, bufSize) && Multiple(start, bufSize) && Multiple(start + length, bufSize)
      requires start + length <= FLASH_END
      ensures Valid() && !IsLive() && buf == null
      ensures this.start == start && this.length == length && this.bufSize == bufSize && this.target == target
    {
      this.start := start;
      this.length := length;
      this.bufSize := bufSize;
      this.target := target;
      buf := null;
      bufAddr := NO_SECTOR;
    }

    /** `f->write`: one sector to the device, with half-word accesses. */
    method WriteSector()
      requires Valid() && IsLive()
      modifies target.device, target.device.mem, target.device.cmdPayload, target.device.ansPayload
      ensures Valid() && buf[..] == old(buf[..])
      ensures target.device.mem[..] == Program(old(target.device.mem[..]), bufAddr, buf[..])
      ensures target.device.programmed == old(target.device.programmed) + HalfWords(bufAddr, bufSize)
    {
      ghost var data, d := buf[..], target.device.State();
      HalfWordWrite(bufSize);
      var written := target.MemWrite(bufAddr, 2, buf[..]);
      hide WriteFrames, Program, HalfWords, Written;
      WriteInside(d, bufAddr, data, 2);
      assert Programmed(d.buffer, data, 2) == data;
    }

    /** The buffer now holds the sector at `base`. */
    method SwitchTo(base: nat)
      requires Valid() && buf != null && bufAddr != base
      requires Multiple(base, bufSize) && FLASH_USER <= base && base + bufSize <= start + length
      modifies this, buf, target.device, target.device.mem, target.device.cmdPayload, target.device.ansPayload
      ensures Valid() && IsLive() && bufAddr == base && buf == old(buf)
      ensures Model() == Load(old(Model()), bufSize, base)
    {
      if bufAddr != NO_SECTOR {
        WriteSector();
      }
      bufAddr := base;
      forall i | 0 <= i < buf.Length {
        buf[i] := ERASED;
      }
      assert buf[..] == seq(bufSize, _ => ERASED);
    }

    /** Copy a chunk into the sector buffer. */
    method CopyChunk(offset: nat, chunk: seq<byte>)
      requires buf != null && offset + |chunk| <= buf.Length
      modifies buf
      ensures buf[..] == Store(old(buf[..]), offset, chunk)
    {
      forall i | 0 <= i < |chunk| {
        buf[offset + i] := chunk[i];
      }
    }

    /** One turn of the loop of `WriteBuffered`: as much of `src` as the sector of `dest` holds. */
    method WriteChunk(dest: nat, src: seq<byte>) returns (sectlen: nat)
      requires Valid() && buf != null && src != []
      requires FLASH_USER <= dest && start <= dest && dest + |src| <= start + length
      modifies this, buf, target.device, target.device.mem, target.device.cmdPayload, target.device.ansPayload
      ensures Valid() && IsLive() && buf == old(buf)
      ensures 0 < sectlen <= |src|
      ensures Fits(Writes(dest, src[..sectlen]), bufSize, ADDRESS_SPACE)
      ensures Model() == Run(old(Model()), bufSize, Writes(dest, src[..sectlen]))
    {
      hide Run, Program, RoundDown;
      ghost var before := Model();
      Remainder(dest, bufSize);
      var offset := dest % bufSize;
      var base := dest - offset;
      SectorInRegion(dest, base, bufSize, start + length);
      if base != bufAddr {
        SwitchTo(base);
      }
      ghost var loaded := Model();
      assert loaded == Load(before, bufSize, base);
      sectlen := Min(bufSize - offset, |src|);
      RunChunk(before, bufSize, dest, src[..sectlen]);
      CopyChunk(offset, src[..sectlen]);
    }

    method WriteBuffered(dest: nat, src: seq<byte>) returns (ret: nat)
      requires Valid() && FLASH_USER <= dest && start <= dest && dest + |src| <= start + length
      modifies this, buf, target.device, target.device.mem, target.device.cmdPayload, target.device.ansPayload
      ensures Valid() && buf != null && (buf == old(buf) || fresh(buf)) && ret == 0
      ensures IsLive() <==> old(IsLive()) || src != []
      ensures Fits(Writes(dest, src), bufSize, ADDRESS_SPACE)
      ensures Model() == Run(old(Model()), bufSize, Writes(dest, src))
    {
      hide Run, RoundDown, Fits, Writes;
      ret := 0;
      ghost var s := Model();
      if buf == null {
        buf := new byte[bufSize];
        bufAddr := NO_SECTOR;
      }
      ghost var buffer := buf;
      RunNothing(s, bufSize, dest);
      var done := 0;
      assert src[..done] == [];
      while done < |src|
        invariant 0 <= done <= |src|
        invariant Valid() && buf == buffer
        invariant IsLive() <==> old(IsLive()) || done > 0
        invariant Fits(Writes(dest, src[..done]), bufSize, ADDRESS_SPACE)
        invariant Model() == Run(s, bufSize, Writes(dest, src[..done]))
      {
        var sectlen := WriteChunk(dest + done, src[done..]);
        ghost var chunk := src[done..][..sectlen];
        RunTwice(s, bufSize, Writes(dest, src[..done]), Writes(dest + done, chunk));
        WritesTwice(dest, src[..done], chunk);
        assert src[..done] + chunk == src[..done + sectlen];
        done := done + sectlen;
      }
      assert src[..done] == src;
    }

    method DoneBuffered() returns (ret: nat)
      requires Valid()
      modifies this, buf, target.device, target.device.mem, target.device.cmdPayload, target.device.ansPayload
      ensures Valid() && !IsLive() && ret == 0
      ensures buf == if old(IsLive()) then null else old(buf)
      ensures Model() == Flush(old(Model()), bufSize)
    {
      ret := 0;
      if buf != null && bufAddr != NO_SECTOR {
        WriteSector();
        bufAddr := NO_SECTOR;
        buf := null;
      }
    }
  }

  datatype Block = Block(dest: nat, src: seq<byte>)

  /** All the byte writes of a sequence of blocks. */
  function AllWrites(blocks: seq<Block>): seq<Write> {
    if blocks == [] then []
    else AllWrites(blocks[..|blocks| - 1]) + Writes(blocks[|blocks| - 1].dest, blocks[|blocks| - 1].src)
  }

  /** Flushing after a run from an empty buffer, with the log that was there before in front. */
  lemma SessionResult(was: seq<byte>, log: seq<nat>, size: nat, ws: seq<Write>)
    requires size > 0 && Fits(ws, size, |was|)
    ensures var f := Final(was, size, ws);
            Flush(Run(State(was, log, Empty), size, ws), size) == f.(log := log + f.log)
  {
    RunAppendsLog(was, log, size, ws);
    var r := Run(State(was, [], Empty), size, ws);
    if r.cache.Live? {
      var hs := HalfWords(r.cache.base, size);
      assert log + r.log + hs == log + (r.log + hs);
    }
  }

  /** A debug target with its flash region; the STM32F1 probe adds exactly one. */
  class FlashTarget {
    const flash: FlashRegion
    var detaches: nat

    constructor (flash: FlashRegion)
      ensures this.flash == flash && detaches == 0
    {
      this.flash := flash;
      detaches := 0;
    }

    /** The region's `done`: a Detach command, which has the bootloader start the firmware. Here it is counted. */
    method StmFlashDone() returns (ret: nat)
      modifies `detaches
      ensures ret == 0 && detaches == old(detaches) + 1
    {
      detaches := detaches + 1;
      ret := 0;
    }

    predicate InRegion(addr: nat) {
      flash.start <= addr < flash.start + flash.length
    }

    predicate BlockInRegion(b: Block) {
      FLASH_USER <= b.dest && flash.start <= b.dest && b.dest + |b.src| <= flash.start + flash.length
    }

    /** How many of `len` bytes at `dest` the region holds. */
    function Covered(dest: nat, len: nat): (r: nat)
      ensures r <= len
    {
      if InRegion(dest) then Min(len, flash.start + flash.length - dest) else 0
    }

    /** Those that lie before its end, if the first lies in it. */
    lemma CoveredIs(dest: nat, len: nat, i: nat)
      ensures i < Covered(dest, len)
         <==> i < len && flash.start <= dest && dest + i < flash.start + flash.length
    {
    }

    /** Writes up to the end of the region and reports whether anything was left over. */
    method FlashWrite(dest: nat, src: seq<byte>) returns (ret: nat)
      requires flash.Valid() && (FLASH_USER <= dest || !InRegion(dest))
      modifies flash, flash.buf, flash.target.device, flash.target.device.mem,
               flash.target.device.cmdPayload, flash.target.device.ansPayload
      ensures flash.Valid() && (flash.buf == old(flash.buf) || fresh(flash.buf))
      ensures ret == 0 <==> Covered(dest, |src|) == |src|
      ensures var ws := Writes(dest, src[..Covered(dest, |src|)]);
              && Fits(ws, flash.bufSize, ADDRESS_SPACE)
              && flash.Model() == Run(old(flash.Model()), flash.bufSize, ws)
      ensures flash.IsLive() <==> old(flash.IsLive()) || Covered(dest, |src|) > 0
    {
      hide Run, Fits, Writes, WriteBack.Valid, Store, Program, Multiple;
      ret := 0;
      RunNothing(flash.Model(), flash.bufSize, dest);
      assert src[..0] == [];
      ghost var covered := Covered(dest, |src|);
      ghost var s := flash.Model();
      var at, rest := dest, src;
      while rest != []
        invariant at + |rest| == dest + |src| && rest == src[|src| - |rest|..]
        invariant at == dest || at == dest + covered
        invariant flash.Valid() && (flash.buf == old(flash.buf) || fresh(flash.buf)) && ret == 0
        invariant at == dest ==>
                    flash.Model() == s && flash.buf == old(flash.buf) && flash.bufAddr == old(flash.bufAddr)
        invariant at != dest ==> covered > 0 && flash.IsLive()
        invariant Fits(Writes(dest, src[..at - dest]), flash.bufSize, ADDRESS_SPACE)
        invariant flash.Model() == Run(s, flash.bufSize, Writes(dest, src[..at - dest]))
        decreases |rest|
      {
        if !InRegion(at) {
          return 1;
        }
        var tmptarget := Min(at + |rest|, flash.start + flash.length);
        var tmplen := tmptarget - at;
        assert at == dest && tmplen == covered;
        assert rest == src;
        ret := flash.WriteBuffered(at, rest[..tmplen]);
        at, rest := at + tmplen, rest[tmplen..];
      }
    }

    /** A whole vFlashWrite ... vFlashDone session: the device ends up as the one-byte reference machine does.
        If the bytes written were erased and none is written again after its sector was left, that is exactly
        the image; if no sector is returned to, no half-word was programmed twice. */
    method ProgramImage(blocks: seq<Block>)
      requires flash.Valid() && !flash.IsLive()
      requires forall k :: 0 <= k < |blocks| ==> BlockInRegion(blocks[k])
      modifies `detaches, flash, flash.buf, flash.target.device, flash.target.device.mem,
               flash.target.device.cmdPayload, flash.target.device.ansPayload
      ensures flash.Valid() && !flash.IsLive() && detaches == old(detaches) + 1
      ensures var was, ws := old(flash.target.device.mem[..]), AllWrites(blocks);
              && Fits(ws, flash.bufSize, ADDRESS_SPACE)
              && flash.target.device.mem[..] == Final(was, flash.bufSize, ws).flash
              && flash.target.device.programmed == old(flash.target.device.programmed)
                 + Final(was, flash.bufSize, ws).log
              && (Blanks(was, ws) && NoStaleRewrite(ws, flash.bufSize) ==>
                  flash.target.device.mem[..] == Direct(was, ws))
              && (NoSectorRevisited(ws, flash.bufSize) ==> NoDuplicates(Final(was, flash.bufSize, ws).log))
    {
      hide Run, Fits, Direct, NoSectorRevisited, NoDuplicates, NoStaleRewrite, Blanks;
      ghost var was, log := flash.target.device.mem[..], flash.target.device.programmed;
      ghost var s, size := flash.Model(), flash.bufSize;
      assert s == State(was, log, Empty);
      RunNothing(s, size, 0);
      assert Writes(0, []) == AllWrites(blocks[..0]);
      for k := 0 to |blocks|
        invariant flash.Valid() && (flash.buf == old(flash.buf) || fresh(flash.buf)) && detaches == old(detaches)
        invariant Fits(AllWrites(blocks[..k]), size, ADDRESS_SPACE)
        invariant flash.Model() == Run(s, size, AllWrites(blocks[..k]))
      {
        assert blocks[..k + 1][..k] == blocks[..k];
        assert blocks[k].src[..|blocks[k].src|] == blocks[k].src;
        var ret := FlashWrite(blocks[k].dest, blocks[k].src);
        RunTwice(s, size, AllWrites(blocks[..k]), Writes(blocks[k].dest, blocks[k].src));
      }
      assert blocks[..|blocks|] == blocks;
      var ret := FlashDone();
      ghost var ws := AllWrites(blocks);
      SessionResult(was, log, size, ws);
      if Blanks(was, ws) && NoStaleRewrite(ws, size) {
        Coherence(was, size, ws);
      }
      if NoSectorRevisited(ws, size) {
        ProgramOnce(was, size, ws);
      }
    }

    /** The buffered sector goes to flash, and then the region is told, once. */
    method FlashDone() returns (ret: nat)
      requires flash.Valid()
      modifies `detaches, flash, flash.buf, flash.target.device, flash.target.device.mem,
               flash.target.device.cmdPayload, flash.target.device.ansPayload
      ensures flash.Valid() && !flash.IsLive() && ret == 0
      ensures flash.buf == if old(flash.IsLive()) then null else old(flash.buf)
      ensures flash.Model() == Flush(old(flash.Model()), flash.bufSize)
      ensures detaches == old(detaches) + 1
    {
      ret := flash.DoneBuffered();
      if ret != 0 {
        return;
      }
      ret := StmFlashDone();
    }
  }

  lemma HalfWordWrite(n: nat)
    requires n % 2 == 0
    ensures Written(n, 2) == n
  {
    EvenIsMultiple(n);
  }

  lemma {:induction false} EvenIsMultiple(n: nat)
    requires n % 2 == 0
    ensures Multiple(n, 2)
  {
    if n > 0 {
      EvenIsMultiple(n - 2);
    }
  }
}
