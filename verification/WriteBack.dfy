/** The write-back sector buffer as a simple reference machine that takes one byte at a time, and what
    it leaves in flash. `FlashCache.dfy` shows the host's chunked code is this machine. */
module WriteBack {
  import opened Bytes

  datatype Cache = Empty | Live(base: nat, data: seq<byte>)

  /** Flash contents, the half-words programmed so far, and the buffered sector. */
  datatype State = State(flash: seq<byte>, log: seq<nat>, cache: Cache)

  datatype Write = Write(addr: nat, value: byte)

  function Sector(a: nat, size: nat): (base: nat)
    requires size > 0
    ensures base <= a < base + size && Multiple(base, size)
  {
    RoundDownIdempotent(a, size);
    RoundDown(a, size)
  }

  predicate Valid(s: State, size: nat)
    requires size > 0
  {
    s.cache.Live? ==>
      && |s.cache.data| == size
      && Multiple(s.cache.base, size)
      && s.cache.base + size <= |s.flash|
  }

  /** Every write falls in a sector that lies wholly in the memory. */
  predicate Fits(ws: seq<Write>, size: nat, n: nat)
    requires size > 0
  {
    forall i :: 0 <= i < |ws| ==> Sector(ws[i].addr, size) + size <= n
  }

  /** The buffered sector goes to flash. */
  function Flush(s: State, size: nat): (r: State)
    requires size > 0 && Valid(s, size)
    ensures Valid(r, size) && |r.flash| == |s.flash| && r.cache == Empty
  {
    match s.cache
    case Empty => s
    case Live(base, data) => State(Program(s.flash, base, data), s.log + HalfWords(base, size), Empty)
  }

  /** The buffer holds the sector at `base`: flushed and refilled with the erased pattern if it did not. */
  function Load(s: State, size: nat, base: nat): (r: State)
    requires size > 0 && Valid(s, size) && Multiple(base, size) && base + size <= |s.flash|
    ensures Valid(r, size) && |r.flash| == |s.flash| && r.cache.Live? && r.cache.base == base
  {
    if s.cache.Live? && s.cache.base == base then s
    else Flush(s, size).(cache := Live(base, seq(size, _ => ERASED)))
  }

  function Put(s: State, size: nat, w: Write): (r: State)
    requires size > 0 && Valid(s, size) && Sector(w.addr, size) + size <= |s.flash|
    ensures Valid(r, size) && |r.flash| == |s.flash|
    ensures r.cache.Live? && r.cache.base == Sector(w.addr, size)
  {
    var base := Sector(w.addr, size);
    var t := Load(s, size, base);
    t.(cache := Live(base, t.cache.data[w.addr - base := w.value]))
  }

  function Run(s: State, size: nat, ws: seq<Write>): (r: State)
    requires size > 0 && Valid(s, size) && Fits(ws, size, |s.flash|)
    ensures Valid(r, size) && |r.flash| == |s.flash|
  {
    if ws == [] then s else Put(Run(s, size, ws[..|ws| - 1]), size, ws[|ws| - 1])
  }

  lemma {:induction false} RunTwice(s: State, size: nat, a: seq<Write>, b: seq<Write>)
    requires size > 0 && Valid(s, size) && Fits(a, size, |s.flash|) && Fits(b, size, |s.flash|)
    ensures Fits(a + b, size, |s.flash|)
    ensures Run(Run(s, size, a), size, b) == Run(s, size, a + b)
  {
    if b == [] {
      assert a + b == a;
    } else {
      var m := |b| - 1;
      RunTwice(s, size, a, b[..m]);
      assert (a + b)[..|a + b| - 1] == a + b[..m];
    }
  }

  // ---- One byte at a time: what became of address `x` ----

  /** `under` is what flash holds at `x`; `pending` is what the buffer would still program there. */
  datatype Trace = Trace(under: byte, pending: byte)

  function Track(ws: seq<Write>, size: nat, x: nat, initial: byte): Trace
    requires size > 0
  {
    if ws == [] then Trace(initial, ERASED)
    else
      var t := Track(ws[..|ws| - 1], size, x, initial);
      var w := ws[|ws| - 1];
      if Sector(w.addr, size) != Sector(x, size) then Trace(And(t.under, t.pending), ERASED)
      else if w.addr == x then Trace(t.under, w.value)
      else t
  }

  ghost predicate Tracks(s: State, size: nat, x: nat, t: Trace)
    requires size > 0 && Valid(s, size) && x < |s.flash|
  {
    && s.flash[x] == t.under
    && t.pending == if s.cache.Live? && s.cache.base <= x < s.cache.base + size
                    then s.cache.data[x - s.cache.base]
                    else ERASED
  }

  lemma InSector(x: nat, base: nat, size: nat)
    requires size > 0 && Multiple(base, size)
    ensures base <= x < base + size <==> Sector(x, size) == base
  {
    if base <= x < base + size {
      RoundDownUnique(x, base, size);
    }
  }

  lemma PutTracks(s: State, size: nat, w: Write, x: nat, t: Trace)
    requires size > 0 && Valid(s, size) && Sector(w.addr, size) + size <= |s.flash| && x < |s.flash|
    requires Tracks(s, size, x, t)
    ensures Tracks(Put(s, size, w), size, x,
                   if Sector(w.addr, size) != Sector(x, size) then Trace(And(t.under, t.pending), ERASED)
                   else if w.addr == x then Trace(t.under, w.value)
                   else t)
  {
    var base := Sector(w.addr, size);
    InSector(x, base, size);
    if s.cache.Live? {
      InSector(x, s.cache.base, size);
    }
    AndErased(t.under);
  }

  lemma {:induction false} RunTracks(flash: seq<byte>, size: nat, ws: seq<Write>, x: nat)
    requires size > 0 && Fits(ws, size, |flash|) && x < |flash|
    ensures Tracks(Run(State(flash, [], Empty), size, ws), size, x, Track(ws, size, x, flash[x]))
  {
    if ws != [] {
      var m := |ws| - 1;
      RunTracks(flash, size, ws[..m], x);
      PutTracks(Run(State(flash, [], Empty), size, ws[..m]), size, ws[m], x, Track(ws[..m], size, x, flash[x]));
    }
  }

  /** Flash after all writes and the final flush. */
  function Final(flash: seq<byte>, size: nat, ws: seq<Write>): (r: State)
    requires size > 0 && Fits(ws, size, |flash|)
    ensures |r.flash| == |flash|
  {
    Flush(Run(State(flash, [], Empty), size, ws), size)
  }

  lemma FinalByte(flash: seq<byte>, size: nat, ws: seq<Write>, x: nat)
    requires size > 0 && Fits(ws, size, |flash|) && x < |flash|
    ensures var t := Track(ws, size, x, flash[x]);
            Final(flash, size, ws).flash[x] == And(t.under, t.pending)
  {
    RunTracks(flash, size, ws, x);
    AndErased(flash[x]);
    AndErased(Track(ws, size, x, flash[x]).under);
  }

  /** The index of the last write to `x`, or -1. */
  function Last(ws: seq<Write>, x: nat): (i: int)
    ensures -1 <= i < |ws|
    ensures i >= 0 ==> ws[i].addr == x
    ensures forall j :: i < j < |ws| ==> ws[j].addr != x
  {
    if ws == [] then -1
    else if ws[|ws| - 1].addr == x then |ws| - 1
    else Last(ws[..|ws| - 1], x)
  }

  lemma {:induction false} TrackLast(ws: seq<Write>, size: nat, x: nat, initial: byte)
    requires size > 0 && Last(ws, x) >= 0
    ensures var t := Track(ws, size, x, initial);
            var i := Last(ws, x);
            And(t.under, t.pending) == And(Track(ws[..i + 1], size, x, initial).under, ws[i].value)
  {
    var m := |ws| - 1;
    var i := Last(ws, x);
    if i == m {
      assert ws[..i + 1] == ws;
    } else {
      assert ws[..m][..i + 1] == ws[..i + 1];
      TrackLast(ws[..m], size, x, initial);
      AndErased(Track(ws, size, x, initial).under);
    }
  }

  lemma {:induction false} TrackNever(ws: seq<Write>, size: nat, x: nat, initial: byte)
    requires size > 0 && forall i :: 0 <= i < |ws| ==> ws[i].addr != x
    ensures Track(ws, size, x, initial) == Trace(initial, ERASED)
  {
    if ws != [] {
      TrackNever(ws[..|ws| - 1], size, x, initial);
      AndErased(initial);
    }
  }

  /** Exactly when a written byte survives: every bit of it is still erased underneath. Without any
      assumption on the order of the writes. */
  lemma LastWriteWins(flash: seq<byte>, size: nat, ws: seq<Write>, x: nat)
    requires size > 0 && Fits(ws, size, |flash|) && x < |flash| && Last(ws, x) >= 0
    ensures var i := Last(ws, x);
            var under := Track(ws[..i + 1], size, x, flash[x]).under;
            Final(flash, size, ws).flash[x] == ws[i].value <==> And(under, ws[i].value) == ws[i].value
  {
    FinalByte(flash, size, ws, x);
    TrackLast(ws, size, x, flash[x]);
  }

  // ---- When nothing is lost ----

  /** No byte is written again after the buffer has left its sector in between. */
  ghost predicate NoStaleRewrite(ws: seq<Write>, size: nat)
    requires size > 0
  {
    forall i, j, k :: 0 <= i < j < k < |ws| && ws[i].addr == ws[k].addr ==>
      Sector(ws[j].addr, size) == Sector(ws[i].addr, size)
  }

  ghost predicate NoByteTwice(ws: seq<Write>) {
    forall i, k :: 0 <= i < k < |ws| ==> ws[i].addr != ws[k].addr
  }

  ghost predicate NoSectorRevisited(ws: seq<Write>, size: nat)
    requires size > 0
  {
    forall i, j, k :: 0 <= i < j < k < |ws| && Sector(ws[i].addr, size) == Sector(ws[k].addr, size) ==>
      Sector(ws[j].addr, size) == Sector(ws[i].addr, size)
  }

  /** Unless `x` was written and its sector then left, flash under `x` is what it was at the start. */
  lemma {:induction false} UnderUntouched(ws: seq<Write>, size: nat, x: nat, initial: byte)
    requires size > 0
    requires forall i, j :: 0 <= i < j < |ws| && ws[i].addr == x ==> Sector(ws[j].addr, size) == Sector(x, size)
    ensures Track(ws, size, x, initial).under == initial
  {
    if ws != [] {
      var m := |ws| - 1;
      UnderUntouched(ws[..m], size, x, initial);
      if Sector(ws[m].addr, size) != Sector(x, size) {
        TrackNever(ws[..m], size, x, initial);
        AndErased(initial);
      }
    }
  }

  /** The writes applied directly, one byte after the other. */
  function Direct(flash: seq<byte>, ws: seq<Write>): (r: seq<byte>)
    requires forall i :: 0 <= i < |ws| ==> ws[i].addr < |flash|
    ensures |r| == |flash|
  {
    if ws == [] then flash
    else Direct(flash, ws[..|ws| - 1])[ws[|ws| - 1].addr := ws[|ws| - 1].value]
  }

  lemma {:induction false} DirectByte(flash: seq<byte>, ws: seq<Write>, x: nat)
    requires x < |flash| && forall i :: 0 <= i < |ws| ==> ws[i].addr < |flash|
    ensures Direct(flash, ws)[x] == if Last(ws, x) >= 0 then ws[Last(ws, x)].value else flash[x]
  {
    if ws != [] {
      DirectByte(flash, ws[..|ws| - 1], x);
    }
  }

  ghost predicate Blanks(flash: seq<byte>, ws: seq<Write>) {
    forall i :: 0 <= i < |ws| ==> ws[i].addr < |flash| && flash[ws[i].addr] == ERASED
  }

  /** Write-back coherence: flash overlaid with the buffered sector is the direct application of all
      writes so far, for any order of writes in which no byte is rewritten behind the buffer's back. */
  lemma Coherence(flash: seq<byte>, size: nat, ws: seq<Write>)
    requires size > 0 && Fits(ws, size, |flash|) && NoStaleRewrite(ws, size) && Blanks(flash, ws)
    ensures Final(flash, size, ws).flash == Direct(flash, ws)
  {
    forall x | 0 <= x < |flash|
      ensures Final(flash, size, ws).flash[x] == Direct(flash, ws)[x]
    {
      CoherentByte(flash, size, ws, x);
    }
  }

  /** Writes at these addresses, of any values. */
  ghost predicate At(ws: seq<Write>, addrs: seq<nat>) {
    |ws| == |addrs| && forall i :: 0 <= i < |ws| ==> ws[i].addr == addrs[i]
  }

  /** No address comes again after another sector's. */
  ghost predicate NoStaleAddress(addrs: seq<nat>, size: nat)
    requires size > 0
  {
    forall i, j, k :: 0 <= i < j < k < |addrs| && addrs[i] == addrs[k] ==>
      Sector(addrs[j], size) == Sector(addrs[i], size)
  }

  lemma AndZero(x: byte)
    ensures And(0, x) == 0 == And(x, 0)
  {
  }

  /** Zeros written to `x`, and whatever else is written meanwhile: nothing of `x` is left. */
  lemma {:induction false} ZeroPending(ws: seq<Write>, size: nat, x: nat, i: nat, initial: byte)
    requires size > 0 && i < |ws| && ws[i].addr == x && forall m :: 0 <= m < |ws| ==> ws[m].value == 0
    ensures var t := Track(ws, size, x, initial); And(t.under, t.pending) == 0
  {
    var m := |ws| - 1;
    var t := Track(ws[..m], size, x, initial);
    if i < m {
      ZeroPending(ws[..m], size, x, i, initial);
    }
    AndZero(t.under);
    AndZero(ERASED);
    hide Sector, And;
  }

  /** Once its sector is left, flash under `x` is zero for good. */
  lemma {:induction false} ZeroUnder(ws: seq<Write>, size: nat, x: nat, i: nat, j: nat, initial: byte)
    requires size > 0 && i < j < |ws| && ws[i].addr == x && Sector(ws[j].addr, size) != Sector(x, size)
    requires forall m :: 0 <= m < j ==> ws[m].value == 0
    ensures Track(ws, size, x, initial).under == 0
  {
    var m := |ws| - 1;
    if j == m {
      ZeroPending(ws[..m], size, x, i, initial);
    } else {
      ZeroUnder(ws[..m], size, x, i, j, initial);
      AndZero(Track(ws[..m], size, x, initial).pending);
    }
    hide Sector, And;
  }

  /** Data that a stale address loses. */
  lemma StaleData(flash: seq<byte>, size: nat, addrs: seq<nat>, i: nat, j: nat, k: nat) returns (ws: seq<Write>)
    requires size > 0 && i < j < k < |addrs| && addrs[i] == addrs[k]
    requires Sector(addrs[j], size) != Sector(addrs[i], size)
    requires forall m :: 0 <= m < |addrs| ==> Sector(addrs[m], size) + size <= |flash|
    ensures At(ws, addrs) && Fits(ws, size, |flash|)
    ensures Final(flash, size, ws).flash != Direct(flash, ws)
  {
    ws := seq(|addrs|, m requires 0 <= m < |addrs| => Write(addrs[m], if m < j then 0 else ERASED));
    var x := addrs[i];
    hide Sector, Final;
    ZeroUnder(ws, size, x, i, j, flash[x]);
    FinalByte(flash, size, ws, x);
    AndZero(Track(ws, size, x, flash[x]).pending);
    DirectByte(flash, ws, x);
    assert ws[k].addr == x && Last(ws, x) >= k;
  }

  /** Exactly which orders of writes are safe whatever the data: those in which no address comes again after
      its sector was left. */
  lemma CoherenceExactly(flash: seq<byte>, size: nat, addrs: seq<nat>)
    requires size > 0
    requires forall m :: 0 <= m < |addrs| ==> Sector(addrs[m], size) + size <= |flash| && flash[addrs[m]] == ERASED
    ensures (forall ws | At(ws, addrs) :: Fits(ws, size, |flash|) && Final(flash, size, ws).flash == Direct(flash, ws))
       <==> NoStaleAddress(addrs, size)
  {
    if NoStaleAddress(addrs, size) {
      forall ws | At(ws, addrs)
        ensures Fits(ws, size, |flash|) && Final(flash, size, ws).flash == Direct(flash, ws)
      {
        Coherence(flash, size, ws);
      }
    } else {
      var i, j, k :| 0 <= i < j < k < |addrs| && addrs[i] == addrs[k]
          && Sector(addrs[j], size) != Sector(addrs[i], size);
      var ws := StaleData(flash, size, addrs, i, j, k);
    }
  }

  lemma NothingUnder(ws: seq<Write>, size: nat, x: nat, i: nat, initial: byte)
    requires size > 0 && i < |ws| && ws[i].addr == x && NoStaleRewrite(ws, size)
    ensures Track(ws[..i + 1], size, x, initial).under == initial
  {
    hide Track, Sector;
    UnderUntouched(ws[..i + 1], size, x, initial);
  }

  lemma WrittenByte(flash: seq<byte>, size: nat, ws: seq<Write>, x: nat)
    requires size > 0 && Fits(ws, size, |flash|) && NoStaleRewrite(ws, size) && x < |flash|
    requires flash[x] == ERASED && Last(ws, x) >= 0
    ensures Final(flash, size, ws).flash[x] == ws[Last(ws, x)].value
  {
    var i := Last(ws, x);
    NothingUnder(ws, size, x, i, flash[x]);
    LastWriteWins(flash, size, ws, x);
    AndErased(ws[i].value);
    hide *;
  }

  lemma UnwrittenByte(flash: seq<byte>, size: nat, ws: seq<Write>, x: nat)
    requires size > 0 && Fits(ws, size, |flash|) && x < |flash| && Last(ws, x) < 0
    ensures Final(flash, size, ws).flash[x] == flash[x]
  {
    TrackNever(ws, size, x, flash[x]);
    FinalByte(flash, size, ws, x);
    AndErased(flash[x]);
    hide *;
  }

  lemma CoherentByte(flash: seq<byte>, size: nat, ws: seq<Write>, x: nat)
    requires size > 0 && Fits(ws, size, |flash|) && NoStaleRewrite(ws, size) && x < |flash|
    requires forall i :: 0 <= i < |ws| ==> flash[ws[i].addr] == ERASED
    ensures Final(flash, size, ws).flash[x] == Direct(flash, ws)[x]
  {
    DirectByte(flash, ws, x);
    hide Final, Direct, Fits, NoStaleRewrite;
    if Last(ws, x) >= 0 {
      assert flash[ws[Last(ws, x)].addr] == ERASED;
      WrittenByte(flash, size, ws, x);
    } else {
      UnwrittenByte(flash, size, ws, x);
    }
  }

  /** The two usual disciplines are enough. */
  lemma DisciplinesSuffice(ws: seq<Write>, size: nat)
    requires size > 0 && (NoByteTwice(ws) || NoSectorRevisited(ws, size))
    ensures NoStaleRewrite(ws, size)
  {
  }

  /** And one of them is needed: a byte rewritten after a sector revisit reads as the AND of both. */
  lemma StaleRewriteLoses(flash: seq<byte>)
    requires |flash| == 4 && flash == [ERASED, ERASED, ERASED, ERASED]
    ensures var ws := [Write(0, 0x0F), Write(2, 0x55), Write(0, 0xF0)];
            Fits(ws, 2, 4) && Final(flash, 2, ws).flash[0] == 0 && Direct(flash, ws)[0] == 0xF0
  {
    var ws := [Write(0, 0x0F), Write(2, 0x55), Write(0, 0xF0)];
    assert Fits(ws, 2, 4);
    assert ws[..2] == [Write(0, 0x0F), Write(2, 0x55)];
    assert ws[..2][..1] == [Write(0, 0x0F)];
    AndErased(0x0F);
    assert Track(ws[..2][..1], 2, 0, ERASED) == Trace(ERASED, 0x0F);
    assert Track(ws[..2], 2, 0, ERASED) == Trace(0x0F, ERASED);
    assert Track(ws, 2, 0, ERASED) == Trace(0x0F, 0xF0);
    assert And(0x0F, 0xF0) == 0;
    FinalByte(flash, 2, ws, 0);
    DirectByte(flash, ws, 0);
  }

  // ---- No half-word is programmed twice ----

  ghost predicate NoDuplicates(s: seq<nat>) {
    forall i, j :: 0 <= i < j < |s| ==> s[i] != s[j]
  }

  /** What the log holds: half-words of sectors visited and left, each once. */
  ghost predicate LogInvariant(s: State, size: nat, ws: seq<Write>)
    requires size > 0
  {
    && NoDuplicates(s.log)
    && (forall h :: h in s.log ==> Visited(ws, size, h))
    && (s.cache.Live? ==> forall h :: h in s.log ==> Sector(h, size) != s.cache.base)
    && (s.cache.Live? <==> ws != []) && (ws == [] ==> s.log == [])
    && (ws != [] ==> s.cache.base == Sector(ws[|ws| - 1].addr, size))
  }

  lemma FlushLog(s: State, size: nat)
    requires size > 0 && size % 2 == 0 && Valid(s, size) && s.cache.Live? && NoDuplicates(s.log)
    requires forall h :: h in s.log ==> Sector(h, size) != s.cache.base
    ensures NoDuplicates(Flush(s, size).log)
    ensures forall h :: h in Flush(s, size).log ==> h in s.log || Sector(h, size) == s.cache.base
  {
    var hs := HalfWords(s.cache.base, size);
    forall k | 0 <= k < |hs|
      ensures Sector(hs[k], size) == s.cache.base
    {
      InSector(hs[k], s.cache.base, size);
    }
    assert Flush(s, size).log == s.log + hs;
    forall i | 0 <= i < |s.log|
      ensures s.log[i] !in hs
    {
      assert s.log[i] in s.log;
    }
  }

  ghost predicate Visited(ws: seq<Write>, size: nat, h: nat)
    requires size > 0
  {
    exists i :: 0 <= i < |ws| && Sector(ws[i].addr, size) == Sector(h, size)
  }

  lemma VisitedMore(ws: seq<Write>, w: Write, size: nat)
    requires size > 0
    ensures forall h :: Visited(ws, size, h) ==> Visited(ws + [w], size, h)
    ensures forall h :: Visited(ws + [w], size, h) ==> Visited(ws, size, h) || Sector(h, size) == Sector(w.addr, size)
  {
    var all := ws + [w];
    forall h | Visited(ws, size, h)
      ensures Visited(all, size, h)
    {
      var i :| 0 <= i < |ws| && Sector(ws[i].addr, size) == Sector(h, size);
      assert all[i] == ws[i];
    }
  }

  /** The log of a run so far holds only half-words of sectors visited, and none of a sector not visited yet. */
  lemma VisitedOnly(s: State, size: nat, ws: seq<Write>, base: nat)
    requires size > 0 && size % 2 == 0 && Valid(s, size) && LogInvariant(s, size, ws) && s.cache.Live?
    ensures NoDuplicates(Flush(s, size).log)
    ensures forall h :: h in Flush(s, size).log ==> Visited(ws, size, h)
  {
    FlushLog(s, size);
    hide Flush, NoDuplicates;
    forall h | Sector(h, size) == s.cache.base
      ensures Visited(ws, size, h)
    {
      assert Sector(ws[|ws| - 1].addr, size) == Sector(h, size);
    }
  }

  lemma LogPut(s: State, size: nat, ws: seq<Write>, w: Write)
    requires size > 0 && size % 2 == 0 && Valid(s, size) && Sector(w.addr, size) + size <= |s.flash|
    requires LogInvariant(s, size, ws)
    requires Visited(ws, size, w.addr) ==> s.cache.Live? && s.cache.base == Sector(w.addr, size)
    ensures LogInvariant(Put(s, size, w), size, ws + [w])
  {
    hide Sector, Flush, Visited, NoDuplicates;
    VisitedMore(ws, w, size);
    var base := Sector(w.addr, size);
    if s.cache.Live? && s.cache.base != base {
      VisitedOnly(s, size, ws, base);
      var r := Put(s, size, w);
      assert r.log == Flush(s, size).log;
      forall h | h in r.log
        ensures Visited(ws + [w], size, h) && Sector(h, size) != base
      {
        if Sector(h, size) == base {
          SameVisited(ws, size, h, w.addr);
        }
      }
    } else {
      LogSame(s, size, ws, w);
    }
  }

  /** A first write, or one to the buffered sector, programs nothing. */
  lemma LogSame(s: State, size: nat, ws: seq<Write>, w: Write)
    requires size > 0 && Valid(s, size) && Sector(w.addr, size) + size <= |s.flash|
    requires LogInvariant(s, size, ws) && (s.cache.Live? ==> s.cache.base == Sector(w.addr, size))
    ensures LogInvariant(Put(s, size, w), size, ws + [w])
  {
    VisitedMore(ws, w, size);
    hide Sector, Visited, NoDuplicates;
    assert Put(s, size, w).log == s.log;
  }

  lemma SameVisited(ws: seq<Write>, size: nat, h: nat, a: nat)
    requires size > 0 && Sector(h, size) == Sector(a, size)
    ensures Visited(ws, size, h) <==> Visited(ws, size, a)
  {
  }

  lemma {:induction false} LogOfRun(flash: seq<byte>, size: nat, ws: seq<Write>)
    requires size > 0 && size % 2 == 0 && Fits(ws, size, |flash|) && NoSectorRevisited(ws, size)
    ensures LogInvariant(Run(State(flash, [], Empty), size, ws), size, ws)
  {
    if ws != [] {
      var m := |ws| - 1;
      LogOfRun(flash, size, ws[..m]);
      LogPut(Run(State(flash, [], Empty), size, ws[..m]), size, ws[..m], ws[m]);
      assert ws[..m] + [ws[m]] == ws;
    }
  }

  /** Without sector revisits no half-word is programmed twice. */
  lemma ProgramOnce(flash: seq<byte>, size: nat, ws: seq<Write>)
    requires size > 0 && size % 2 == 0 && Fits(ws, size, |flash|) && NoSectorRevisited(ws, size)
    ensures NoDuplicates(Final(flash, size, ws).log)
  {
    LogOfRun(flash, size, ws);
    if ws != [] {
      FlushLog(Run(State(flash, [], Empty), size, ws), size);
    }
  }

  /** A run only appends to the log. */
  lemma {:induction false} RunAppendsLog(flash: seq<byte>, log: seq<nat>, size: nat, ws: seq<Write>)
    requires size > 0 && Fits(ws, size, |flash|)
    ensures var r := Run(State(flash, [], Empty), size, ws);
            Run(State(flash, log, Empty), size, ws) == r.(log := log + r.log)
  {
    if ws == [] {
      assert log + [] == log;
    } else {
      RunAppendsLog(flash, log, size, ws[..|ws| - 1]);
    }
  }
}
