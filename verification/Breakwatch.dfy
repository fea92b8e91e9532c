/** Break- and watchpoints: the debugger's list against the hardware slots
    (GdbServer/Gdb/target.c, GdbServer/Gdb/cortexm.c). */
module Breakwatch {

  datatype Kind = BreakSoft | BreakHard | WatchWrite | WatchRead | WatchAccess {
    predicate Watch() { WatchWrite? || WatchRead? || WatchAccess? }
  }

  /** A list entry; `slot` is what the driver keeps in `reserved[0]`. */
  datatype Entry = Entry(kind: Kind, addr: bv32, size: nat, slot: nat)

  /** Fixed by the probe: slot maxima, the flash patch revision, and whether the core is an ARMv6-M. */
  datatype Config = Config(breakMax: nat, watchMax: nat, revision0: bool, v6m: bool)

  const MAX_BREAKPOINTS: nat := 6
  const MAX_WATCHPOINTS: nat := 4

  predicate Fits(c: Config) {
    c.breakMax <= MAX_BREAKPOINTS && c.watchMax <= MAX_WATCHPOINTS
  }

  /** The list, the slot flags, and the comparator registers. */
  datatype State = State(list: seq<Entry>, breaks: seq<bool>, watches: seq<bool>,
                         fpbComp: seq<bv32>, dwtComp: seq<bv32>, dwtMask: seq<bv32>, dwtFunc: seq<bv32>)

  function FpbValue(c: Config, addr: bv32): bv32 {
    (if c.revision0 then (addr & 0x1FFF_FFFC) | (if addr & 2 != 0 then 0x8000_0000 else 0x4000_0000) else addr) | 1
  }

  function DwtMask(size: nat): bv32 {
    if size == 1 then 0 else if size == 2 then 1 else if size == 4 then 2 else 0xFFFF_FFFF
  }

  function DwtFunc(c: Config, kind: Kind): bv32
    requires kind.Watch()
  {
    (match kind
     case WatchWrite => 6
     case WatchRead => 5
     case WatchAccess => 7) | (if c.v6m then 0 else 0x800)
  }

  // ---- What the comparators match (ARMv7-M Architecture Reference Manual, sections C1.8 and C1.11) ----

  /** Revision 0 compares bits 28 to 2 and picks half-words with bits 31 and 30. */
  predicate Revision0Stops(comp: bv32, pc: bv32) {
    && comp & 1 == 1 && comp & 0x1FFF_FFFC == pc & 0xFFFF_FFFC
    && (if pc & 2 != 0 then comp & 0x8000_0000 != 0 else comp & 0x4000_0000 != 0)
  }

  /** Revision 1 compares bits 31 to 1. */
  predicate Revision1Stops(comp: bv32, pc: bv32) {
    comp & 1 == 1 && comp & 0xFFFF_FFFE == pc & 0xFFFF_FFFE
  }

  predicate FetchStops(c: Config, comp: bv32, pc: bv32) {
    if c.revision0 then Revision0Stops(comp, pc) else Revision1Stops(comp, pc)
  }

  // The comparator is a variable of its own in these, which keeps them within the theory of bit vectors.

  lemma UpperStops(addr: bv32, v: bv32)
    requires addr & 2 != 0 && addr < 0x2000_0000 && v == (addr & 0x1FFF_FFFC) | 0x8000_0000 | 1
    ensures Revision0Stops(v, addr)
  {
  }

  lemma UpperStopsOnly(addr: bv32, pc: bv32, v: bv32)
    requires addr & 1 == 0 && addr & 2 != 0 && addr < 0x2000_0000 && v == (addr & 0x1FFF_FFFC) | 0x8000_0000 | 1
    requires pc & 1 == 0 && Revision0Stops(v, pc)
    ensures pc == addr
  {
  }

  lemma LowerStops(addr: bv32, v: bv32)
    requires addr & 2 == 0 && addr < 0x2000_0000 && v == (addr & 0x1FFF_FFFC) | 0x4000_0000 | 1
    ensures Revision0Stops(v, addr)
  {
  }

  lemma LowerStopsOnly(addr: bv32, pc: bv32, v: bv32)
    requires addr & 1 == 0 && addr & 2 == 0 && addr < 0x2000_0000 && v == (addr & 0x1FFF_FFFC) | 0x4000_0000 | 1
    requires pc & 1 == 0 && Revision0Stops(v, pc)
    ensures pc == addr
  {
  }

  lemma WholeStops(addr: bv32, v: bv32)
    requires addr & 1 == 0 && v == addr | 1
    ensures Revision1Stops(v, addr)
  {
  }

  lemma WholeStopsOnly(addr: bv32, pc: bv32, v: bv32)
    requires addr & 1 == 0 && v == addr | 1 && pc & 1 == 0 && Revision1Stops(v, pc)
    ensures pc == addr
  {
  }

  /** A breakpoint on an instruction address the unit can compare stops that fetch and no other. */
  lemma BreakpointStopsThere(c: Config, addr: bv32, pc: bv32)
    requires addr & 1 == 0 && pc & 1 == 0 && (c.revision0 ==> addr < 0x2000_0000)
    ensures FetchStops(c, FpbValue(c, addr), pc) <==> pc == addr
  {
    hide Revision0Stops, Revision1Stops;
    var v := FpbValue(c, addr);
    if !c.revision0 {
      WholeStops(addr, v);
    } else if addr & 2 != 0 {
      UpperStops(addr, v);
    } else {
      LowerStops(addr, v);
    }
    if FetchStops(c, v, pc) {
      if !c.revision0 {
        WholeStopsOnly(addr, pc, v);
      } else if addr & 2 != 0 {
        UpperStopsOnly(addr, pc, v);
      } else {
        LowerStopsOnly(addr, pc, v);
      }
    }
  }

  /** The unit ignores as many low address bits as the mask register says. */
  predicate AccessWatched(comp: bv32, mask: bv32, a: bv32) {
    if mask == 0 then a == comp
    else if mask == 1 then a & 0xFFFF_FFFE == comp & 0xFFFF_FFFE
    else mask == 2 && a & 0xFFFF_FFFC == comp & 0xFFFF_FFFC
  }

  predicate Near2(addr: bv32, a: bv32) {
    a == addr || a == addr + 1
  }

  predicate Near4(addr: bv32, a: bv32) {
    a == addr || a == addr + 1 || a == addr + 2 || a == addr + 3
  }

  lemma Covers2(addr: bv32, a: bv32)
    requires addr & 1 == 0 && Near2(addr, a)
    ensures a & 0xFFFF_FFFE == addr & 0xFFFF_FFFE
  {
  }

  lemma Covers2Only(addr: bv32, a: bv32)
    requires addr & 1 == 0 && a & 0xFFFF_FFFE == addr & 0xFFFF_FFFE
    ensures Near2(addr, a)
  {
  }

  lemma Covers4(addr: bv32, a: bv32)
    requires addr & 3 == 0 && Near4(addr, a)
    ensures a & 0xFFFF_FFFC == addr & 0xFFFF_FFFC
  {
  }

  lemma Covers4Only(addr: bv32, a: bv32)
    requires addr & 3 == 0 && a & 0xFFFF_FFFC == addr & 0xFFFF_FFFC
    ensures Near4(addr, a)
  {
  }

  datatype Access = ReadAccess | WriteAccess

  /** The function field selects the accesses: 5 reads, 6 writes, 7 both; 0 switches the comparator off. Bit 8
      would compare data values instead. */
  predicate FunctionMatches(func: bv32, access: Access) {
    && func & 0x100 == 0
    && match access
       case ReadAccess => func & 0xF == 5 || func & 0xF == 7
       case WriteAccess => func & 0xF == 6 || func & 0xF == 7
  }

  /** The debugger's words for it. */
  predicate Wants(kind: Kind, access: Access) {
    kind == WatchAccess || kind == (if access == ReadAccess then WatchRead else WatchWrite)
  }

  /** The register written for a watchpoint selects the accesses its kind names and no others, on either core. */
  lemma FunctionSelects(c: Config, kind: Kind, access: Access)
    requires kind.Watch()
    ensures FunctionMatches(DwtFunc(c, kind), access) <==> Wants(kind, access)
  {
  }

  /** Its other fields: data size "word" on ARMv7-M, where it is defined, zero on ARMv6-M, where it is reserved, and
      nothing else. */
  lemma FunctionFields(c: Config, kind: Kind)
    requires kind.Watch()
    ensures DwtFunc(c, kind) & 0xFFFF_FFF0 == if c.v6m then 0 else 0x800
  {
  }

  /** Bytes addr to addr + size - 1. */
  predicate InBytes(addr: bv32, size: nat, a: bv32) {
    if size == 1 then a == addr else if size == 2 then Near2(addr, a) else size == 4 && Near4(addr, a)
  }

  predicate Watchable(addr: bv32, size: nat) {
    size == 1 || (size == 2 && addr & 1 == 0) || (size == 4 && addr & 3 == 0)
  }

  /** An aligned watchpoint of 1, 2 or 4 bytes covers exactly its bytes. */
  lemma MaskCovers(addr: bv32, size: nat, a: bv32)
    requires Watchable(addr, size)
    ensures AccessWatched(addr, DwtMask(size), a) <==> InBytes(addr, size, a)
  {
    hide Near2, Near4;
    if size == 2 {
      if AccessWatched(addr, DwtMask(size), a) {
        Covers2Only(addr, a);
      } else if Near2(addr, a) {
        Covers2(addr, a);
      }
    } else if size == 4 {
      if AccessWatched(addr, DwtMask(size), a) {
        Covers4Only(addr, a);
      } else if Near4(addr, a) {
        Covers4(addr, a);
      }
    }
  }

  /** Any other size is written as all ones, as the code's -1. */
  lemma MaskOfOtherSize(size: nat)
    requires size != 1 && size != 2 && size != 4
    ensures DwtMask(size) == 0xFFFF_FFFF
  {
  }

  /** The three registers of a comparator match an access of the core. */
  predicate AccessStops(comp: bv32, mask: bv32, func: bv32, a: bv32, access: Access) {
    FunctionMatches(func, access) && AccessWatched(comp, mask, a)
  }

  lemma WatchableCovers(c: Config, kind: Kind, addr: bv32, size: nat, a: bv32, access: Access)
    requires kind.Watch() && Watchable(addr, size)
    ensures AccessStops(addr, DwtMask(size), DwtFunc(c, kind), a, access)
       <==> InBytes(addr, size, a) && Wants(kind, access)
  {
    MaskCovers(addr, size, a);
    FunctionSelects(c, kind, access);
    hide *;
  }

  /** The registers written for an aligned watchpoint match exactly the accesses its kind names, to exactly its
      bytes. */
  lemma WatchpointCovers(c: Config, kind: Kind, addr: bv32, size: nat, a: bv32, access: Access)
    requires kind.Watch()
    requires size == 1 || (size == 2 && addr & 1 == 0) || (size == 4 && addr & 3 == 0)
    ensures AccessStops(addr, DwtMask(size), DwtFunc(c, kind), a, access)
       <==> InBytes(addr, size, a) && Wants(kind, access)
  {
    WatchableCovers(c, kind, addr, size, a, access);
    hide *;
  }

  predicate Shaped(c: Config, s: State) {
    && Fits(c)
    && |s.breaks| == |s.fpbComp| == MAX_BREAKPOINTS
    && |s.watches| == |s.dwtComp| == |s.dwtMask| == |s.dwtFunc| == MAX_WATCHPOINTS
  }

  /** The first free slot among the first `max`, or `max`. */
  function FirstFree(flags: seq<bool>, max: nat): (i: nat)
    requires max <= |flags|
    ensures i <= max && (forall j :: 0 <= j < i ==> flags[j]) && (i < max ==> !flags[i])
  {
    if max == 0 then 0
    else
      var i := FirstFree(flags, max - 1);
      if i < max - 1 then i else if flags[max - 1] then max else max - 1
  }

  /** How many comparators of the kind's unit the driver hands out. */
  function Room(c: Config, kind: Kind): nat {
    if kind.BreakHard? then c.breakMax else c.watchMax
  }

  function Flags(s: State, kind: Kind): seq<bool> {
    if kind.BreakHard? then s.breaks else s.watches
  }

  predicate HasSlot(c: Config, e: Entry) {
    !e.kind.BreakSoft? && e.slot < Room(c, e.kind)
  }

  /** The hardware part of setting `e`: its flag, and its comparator registers. */
  function Taken(c: Config, s: State, e: Entry): (r: State)
    requires Shaped(c, s) && HasSlot(c, e)
    ensures Shaped(c, r)
  {
    if e.kind.BreakHard? then
      s.(breaks := s.breaks[e.slot := true], fpbComp := s.fpbComp[e.slot := FpbValue(c, e.addr)])
    else
      s.(watches := s.watches[e.slot := true], dwtComp := s.dwtComp[e.slot := e.addr],
         dwtMask := s.dwtMask[e.slot := DwtMask(e.size)], dwtFunc := s.dwtFunc[e.slot := DwtFunc(c, e.kind)])
  }

  /** The hardware part of clearing `e`. */
  function Freed(c: Config, s: State, e: Entry): (r: State)
    requires Shaped(c, s) && HasSlot(c, e)
    ensures Shaped(c, r)
  {
    if e.kind.BreakHard? then s.(breaks := s.breaks[e.slot := false], fpbComp := s.fpbComp[e.slot := 0])
    else s.(watches := s.watches[e.slot := false], dwtFunc := s.dwtFunc[e.slot := 0])
  }

  // ---- The specification ----

  function Set(c: Config, s: State, kind: Kind, addr: bv32, size: nat): (r: (State, int))
    requires Shaped(c, s)
    ensures Shaped(c, r.0)
  {
    if kind.BreakSoft? then (s, 1)
    else
      var i := FirstFree(Flags(s, kind), Room(c, kind));
      if i == Room(c, kind) then (s, -1)
      else
        var e := Entry(kind, addr, size, i);
        (Taken(c, s, e).(list := [e] + s.list), 0)
  }

  /** The first entry for the request, or the length of the list. */
  function Find(list: seq<Entry>, kind: Kind, addr: bv32, size: nat): (k: nat)
    ensures k <= |list|
    ensures k < |list| ==> list[k].kind == kind && list[k].addr == addr && list[k].size == size
    ensures forall j :: 0 <= j < k ==> !(list[j].kind == kind && list[j].addr == addr && list[j].size == size)
  {
    if list == [] then 0
    else if list[0].kind == kind && list[0].addr == addr && list[0].size == size then 0
    else 1 + Find(list[1..], kind, addr, size)
  }

  function Clear(c: Config, s: State, kind: Kind, addr: bv32, size: nat): (r: (State, int))
    requires Shaped(c, s) && forall k :: 0 <= k < |s.list| ==> HasSlot(c, s.list[k])
    ensures Shaped(c, r.0)
  {
    var k := Find(s.list, kind, addr, size);
    if k == |s.list| then (s, -1)
    else (Freed(c, s, s.list[k]).(list := s.list[..k] + s.list[k + 1..]), 0)
  }

  // ---- List and slots ----

  /** The entry's slot is taken and its registers hold the encoding of the entry. */
  predicate Placed(c: Config, s: State, e: Entry)
    requires Shaped(c, s)
  {
    && HasSlot(c, e)
    && if e.kind.BreakHard? then s.breaks[e.slot] && s.fpbComp[e.slot] == FpbValue(c, e.addr)
       else
         && s.watches[e.slot] && s.dwtComp[e.slot] == e.addr
         && s.dwtMask[e.slot] == DwtMask(e.size) && s.dwtFunc[e.slot] == DwtFunc(c, e.kind)
  }

  predicate SameSlot(a: Entry, b: Entry) {
    a.slot == b.slot && (a.kind.BreakHard? <==> b.kind.BreakHard?)
  }

  ghost predicate BreakListed(list: seq<Entry>, i: nat) {
    exists k :: 0 <= k < |list| && list[k].kind.BreakHard? && list[k].slot == i
  }

  ghost predicate WatchListed(list: seq<Entry>, i: nat) {
    exists k :: 0 <= k < |list| && !list[k].kind.BreakHard? && list[k].slot == i
  }

  ghost predicate AllPlaced(c: Config, s: State)
    requires Shaped(c, s)
  {
    forall k :: 0 <= k < |s.list| ==> Placed(c, s, s.list[k])
  }

  ghost predicate Distinct(list: seq<Entry>) {
    forall k, l :: 0 <= k < l < |list| ==> !SameSlot(list[k], list[l])
  }

  /** A slot flag is set exactly when one entry of its kind holds that index; free slots are disabled. */
  ghost predicate Bijection(c: Config, s: State)
    requires Shaped(c, s)
  {
    && AllPlaced(c, s) && Distinct(s.list)
    && (forall i :: 0 <= i < MAX_BREAKPOINTS ==> if s.breaks[i] then BreakListed(s.list, i) else s.fpbComp[i] == 0)
    && (forall i :: 0 <= i < MAX_WATCHPOINTS ==> if s.watches[i] then WatchListed(s.list, i) else s.dwtFunc[i] == 0)
  }

  lemma TakenKeeps(c: Config, s: State, e: Entry, other: Entry)
    requires Shaped(c, s) && HasSlot(c, e) && !SameSlot(e, other) && Placed(c, s, other)
    ensures Placed(c, Taken(c, s, e), other)
  {
    hide FpbValue, DwtMask, DwtFunc;
  }

  lemma FreedKeeps(c: Config, s: State, e: Entry, other: Entry)
    requires Shaped(c, s) && HasSlot(c, e) && !SameSlot(e, other) && Placed(c, s, other)
    ensures Placed(c, Freed(c, s, e), other)
  {
    hide FpbValue, DwtMask, DwtFunc;
  }

  lemma ListedCons(list: seq<Entry>, e: Entry, i: nat)
    ensures BreakListed([e] + list, i) <==> BreakListed(list, i) || (e.kind.BreakHard? && e.slot == i)
    ensures WatchListed([e] + list, i) <==> WatchListed(list, i) || (!e.kind.BreakHard? && e.slot == i)
  {
    var l := [e] + list;
    assert l[0] == e;
    assert forall k :: 0 <= k < |list| ==> l[k + 1] == list[k];
    assert forall k :: 1 <= k < |l| ==> l[k] == list[k - 1];
  }

  lemma ListedRemove(list: seq<Entry>, k: nat, i: nat)
    requires k < |list|
    ensures var e := list[k];
            && (BreakListed(list, i) ==>
                  BreakListed(list[..k] + list[k + 1..], i) || (e.kind.BreakHard? && e.slot == i))
            && (WatchListed(list, i) ==>
                  WatchListed(list[..k] + list[k + 1..], i) || (!e.kind.BreakHard? && e.slot == i))
  {
    var l := list[..k] + list[k + 1..];
    assert forall j :: 0 <= j < k ==> l[j] == list[j];
    assert forall j :: k < j < |list| ==> l[j - 1] == list[j];
  }

  /** A free slot is nobody's. */
  lemma FreeSlotUnlisted(c: Config, s: State, e: Entry, k: nat)
    requires Shaped(c, s) && Bijection(c, s) && HasSlot(c, e) && k < |s.list|
    requires if e.kind.BreakHard? then !s.breaks[e.slot] else !s.watches[e.slot]
    ensures !SameSlot(e, s.list[k])
  {
    hide FpbValue, DwtMask, DwtFunc;
    assert Placed(c, s, s.list[k]);
  }

  lemma TakePlaces(c: Config, s: State, e: Entry)
    requires Shaped(c, s) && Bijection(c, s) && HasSlot(c, e)
    requires if e.kind.BreakHard? then !s.breaks[e.slot] else !s.watches[e.slot]
    ensures Bijection(c, Taken(c, s, e).(list := [e] + s.list))
  {
    var t := Taken(c, s, e).(list := [e] + s.list);
    assert Placed(c, t, e);
    hide FpbValue, DwtMask, DwtFunc, Placed, SameSlot;
    forall k | 0 <= k < |t.list|
      ensures Placed(c, t, t.list[k])
      ensures k > 0 ==> !SameSlot(t.list[0], t.list[k])
    {
      if k > 0 {
        FreeSlotUnlisted(c, s, e, k - 1);
        TakenKeeps(c, s, e, s.list[k - 1]);
        PlacedAnyList(c, Taken(c, s, e), t, s.list[k - 1]);
      }
    }
    forall i: nat
      ensures BreakListed(t.list, i) <==> BreakListed(s.list, i) || (e.kind.BreakHard? && e.slot == i)
      ensures WatchListed(t.list, i) <==> WatchListed(s.list, i) || (!e.kind.BreakHard? && e.slot == i)
    {
      ListedCons(s.list, e, i);
    }
  }

  lemma PlacedAnyList(c: Config, s: State, t: State, e: Entry)
    requires Shaped(c, s) && t == s.(list := t.list)
    ensures Shaped(c, t) && (Placed(c, s, e) <==> Placed(c, t, e))
  {
  }

  lemma SetKeepsBijection(c: Config, s: State, kind: Kind, addr: bv32, size: nat)
    requires Shaped(c, s) && Bijection(c, s)
    ensures Bijection(c, Set(c, s, kind, addr, size).0)
  {
    hide Bijection, Taken;
    if !kind.BreakSoft? {
      var i := FirstFree(Flags(s, kind), Room(c, kind));
      if i < Room(c, kind) {
        TakePlaces(c, s, Entry(kind, addr, size, i));
      }
    }
  }

  lemma RemoveKeepsDistinct(list: seq<Entry>, k: nat)
    requires k < |list| && Distinct(list)
    ensures Distinct(list[..k] + list[k + 1..])
    ensures forall j :: 0 <= j < |list| && j != k ==> !SameSlot(list[k], list[j])
  {
    var l := list[..k] + list[k + 1..];
    assert forall j :: 0 <= j < |l| ==> l[j] == list[if j < k then j else j + 1];
    forall j | 0 <= j < |list| && j != k
      ensures !SameSlot(list[k], list[j])
    {
      SameSlotSymmetric(list[k], list[j]);
    }
  }

  lemma FreeKeepsPlaced(c: Config, s: State, k: nat)
    requires Shaped(c, s) && Bijection(c, s) && k < |s.list|
    ensures HasSlot(c, s.list[k])
    ensures AllPlaced(c, Freed(c, s, s.list[k]).(list := s.list[..k] + s.list[k + 1..]))
  {
    var e := s.list[k];
    assert Placed(c, s, e);
    var f := Freed(c, s, e);
    var t := f.(list := s.list[..k] + s.list[k + 1..]);
    RemoveKeepsDistinct(s.list, k);
    hide Placed, SameSlot, Freed, HasSlot, Distinct;
    forall j | 0 <= j < |t.list|
      ensures Placed(c, t, t.list[j])
    {
      var i := if j < k then j else j + 1;
      assert t.list[j] == s.list[i];
      FreedKeeps(c, s, e, s.list[i]);
      PlacedAnyList(c, f, t, s.list[i]);
    }
  }

  lemma FreeKeepsFlags(c: Config, s: State, k: nat)
    requires Shaped(c, s) && Bijection(c, s) && k < |s.list| && HasSlot(c, s.list[k])
    ensures var t := Freed(c, s, s.list[k]).(list := s.list[..k] + s.list[k + 1..]);
      && (forall i :: 0 <= i < MAX_BREAKPOINTS ==> if t.breaks[i] then BreakListed(t.list, i) else t.fpbComp[i] == 0)
      && (forall i :: 0 <= i < MAX_WATCHPOINTS ==> if t.watches[i] then WatchListed(t.list, i) else t.dwtFunc[i] == 0)
  {
    var e := s.list[k];
    hide Placed, Distinct, BreakListed, WatchListed;
    forall i: nat
      ensures BreakListed(s.list, i) ==>
                BreakListed(s.list[..k] + s.list[k + 1..], i) || (e.kind.BreakHard? && e.slot == i)
      ensures WatchListed(s.list, i) ==>
                WatchListed(s.list[..k] + s.list[k + 1..], i) || (!e.kind.BreakHard? && e.slot == i)
    {
      ListedRemove(s.list, k, i);
    }
  }

  lemma FreeRemoves(c: Config, s: State, k: nat)
    requires Shaped(c, s) && Bijection(c, s) && k < |s.list|
    ensures HasSlot(c, s.list[k])
    ensures Bijection(c, Freed(c, s, s.list[k]).(list := s.list[..k] + s.list[k + 1..]))
  {
    FreeKeepsPlaced(c, s, k);
    FreeKeepsFlags(c, s, k);
    RemoveKeepsDistinct(s.list, k);
    hide Freed, AllPlaced, Distinct, BreakListed, WatchListed, HasSlot;
  }

  lemma SameSlotSymmetric(a: Entry, b: Entry)
    ensures SameSlot(a, b) <==> SameSlot(b, a)
  {
  }

  lemma AllHaveSlots(c: Config, s: State)
    requires Shaped(c, s) && Bijection(c, s)
    ensures forall k :: 0 <= k < |s.list| ==> HasSlot(c, s.list[k])
  {
  }

  lemma ClearKeepsBijection(c: Config, s: State, kind: Kind, addr: bv32, size: nat)
    requires Shaped(c, s) && Bijection(c, s)
    ensures forall k :: 0 <= k < |s.list| ==> HasSlot(c, s.list[k])
    ensures Bijection(c, Clear(c, s, kind, addr, size).0)
  {
    hide Bijection, Freed;
    AllHaveSlots(c, s);
    var k := Find(s.list, kind, addr, size);
    if k < |s.list| {
      FreeRemoves(c, s, k);
    }
  }

  // ---- The debugger's view: two bounded bags of requests ----

  datatype Request = Request(kind: Kind, addr: bv32, size: nat)

  datatype Bags = Bags(breaks: multiset<Request>, watches: multiset<Request>) {
    function Of(kind: Kind): multiset<Request> {
      if kind.BreakHard? then breaks else watches
    }

    function With(kind: Kind, bag: multiset<Request>): Bags {
      if kind.BreakHard? then this.(breaks := bag) else this.(watches := bag)
    }
  }

  function Asked(e: Entry): Request {
    Request(e.kind, e.addr, e.size)
  }

  /** The requests of the list's entries that sit in one comparator unit. */
  function Bag(list: seq<Entry>, hard: bool): multiset<Request> {
    if list == [] then multiset{}
    else if list[0].kind.BreakHard? == hard then multiset{Asked(list[0])} + Bag(list[1..], hard)
    else Bag(list[1..], hard)
  }

  function Requests(list: seq<Entry>): Bags {
    Bags(Bag(list, true), Bag(list, false))
  }

  datatype Op = SetOp(r: Request) | ClearOp(r: Request)

  /** What the two calls promise, with no slots: a bag per comparator unit, at most `Room` requests each. */
  function Bagged(c: Config, b: Bags, op: Op): (Bags, int) {
    var bag := b.Of(op.r.kind);
    if op.SetOp? then
      if op.r.kind.BreakSoft? then (b, 1)
      else if |bag| == Room(c, op.r.kind) then (b, -1)
      else (b.With(op.r.kind, bag + multiset{op.r}), 0)
    else if op.r !in bag then (b, -1)
    else (b.With(op.r.kind, bag - multiset{op.r}), 0)
  }

  function Step(c: Config, s: State, op: Op): (State, int)
    requires Shaped(c, s) && forall k :: 0 <= k < |s.list| ==> HasSlot(c, s.list[k])
  {
    if op.SetOp? then Set(c, s, op.r.kind, op.r.addr, op.r.size) else Clear(c, s, op.r.kind, op.r.addr, op.r.size)
  }

  /** The slots the list's entries of one comparator unit hold. */
  function Slots(list: seq<Entry>, hard: bool): set<nat> {
    set k | 0 <= k < |list| && list[k].kind.BreakHard? == hard :: list[k].slot
  }

  lemma {:induction false} SlotsCounted(list: seq<Entry>, hard: bool)
    requires Distinct(list)
    ensures |Slots(list, hard)| == |Bag(list, hard)|
  {
    if list == [] {
      assert Slots(list, hard) == {};
    } else {
      var rest := list[1..];
      assert forall k :: 0 <= k < |rest| ==> rest[k] == list[k + 1];
      SlotsCounted(rest, hard);
      SlotsCons(list, hard);
      BagSize(list, hard);
      hide Bag, Distinct;
      if list[0].kind.BreakHard? == hard {
        NewSlot(list, hard);
      }
    }
  }

  lemma BagSize(list: seq<Entry>, hard: bool)
    requires list != []
    ensures |Bag(list, hard)| == |Bag(list[1..], hard)| + if list[0].kind.BreakHard? == hard then 1 else 0
  {
  }

  lemma NewSlot(list: seq<Entry>, hard: bool)
    requires list != [] && Distinct(list) && list[0].kind.BreakHard? == hard
    ensures list[0].slot !in Slots(list[1..], hard)
  {
    var rest := list[1..];
    assert forall k :: 0 <= k < |rest| ==> rest[k] == list[k + 1] && !SameSlot(list[0], rest[k]);
  }

  lemma SlotsCons(list: seq<Entry>, hard: bool)
    requires list != []
    ensures Slots(list, hard) == Slots(list[1..], hard) + if list[0].kind.BreakHard? == hard then {list[0].slot} else {}
  {
    var rest := list[1..];
    assert forall k :: 0 <= k < |rest| ==> rest[k] == list[k + 1];
    forall i | i in Slots(list, hard)
      ensures i in Slots(rest, hard) + if list[0].kind.BreakHard? == hard then {list[0].slot} else {}
    {
      var k :| 0 <= k < |list| && list[k].kind.BreakHard? == hard && list[k].slot == i;
      if k > 0 {
        assert rest[k - 1] == list[k];
      }
    }
  }

  function Below(n: nat): (r: set<nat>)
    ensures |r| == n && forall i :: i in r <==> 0 <= i < n
  {
    if n == 0 then {} else Below(n - 1) + {n - 1}
  }

  /** Every slot of the unit is taken exactly when the list holds as many of its requests as there are slots. */
  lemma FullWhenCounted(c: Config, s: State, kind: Kind)
    requires Shaped(c, s) && Bijection(c, s)
    ensures |Requests(s.list).Of(kind)| == Room(c, kind) <==> forall i :: 0 <= i < Room(c, kind) ==> Flags(s, kind)[i]
  {
    SlotsCounted(s.list, kind.BreakHard?);
    FlagsAreSlots(c, s, kind);
    hide Bijection, Slots, Bag, Shaped, Room, Flags;
    FullWhenAll(Slots(s.list, kind.BreakHard?), Room(c, kind));
  }

  lemma FullWhenAll(slots: set<nat>, room: nat)
    requires forall i :: i in slots ==> i < room
    ensures |slots| == room <==> forall i :: 0 <= i < room ==> i in slots
  {
    var all := Below(room);
    if slots != all {
      SmallerSubset(slots, all);
      var i :| i in all && i !in slots;
    }
  }

  lemma SmallerSubset(a: set<nat>, b: set<nat>)
    requires a <= b && a != b
    ensures |a| < |b|
  {
    assert b == a + (b - a);
  }

  lemma FlagsAreSlots(c: Config, s: State, kind: Kind)
    requires Shaped(c, s) && Bijection(c, s)
    ensures forall i :: i in Slots(s.list, kind.BreakHard?) <==> 0 <= i < Room(c, kind) && Flags(s, kind)[i]
  {
    hide FpbValue, DwtMask, DwtFunc;
    var hard := kind.BreakHard?;
    forall i | i in Slots(s.list, hard)
      ensures 0 <= i < Room(c, kind) && Flags(s, kind)[i]
    {
      var k :| 0 <= k < |s.list| && s.list[k].kind.BreakHard? == hard && s.list[k].slot == i;
      assert Placed(c, s, s.list[k]);
    }
    forall i | 0 <= i < Room(c, kind) && Flags(s, kind)[i]
      ensures i in Slots(s.list, hard)
    {
      assert hard ==> BreakListed(s.list, i);
      assert !hard ==> WatchListed(s.list, i);
    }
  }

  lemma BagCons(list: seq<Entry>, e: Entry, hard: bool)
    ensures Bag([e] + list, hard)
         == if e.kind.BreakHard? == hard then Bag(list, hard) + multiset{Asked(e)} else Bag(list, hard)
  {
    assert ([e] + list)[1..] == list;
  }

  lemma {:induction false} BagRemove(list: seq<Entry>, k: nat, hard: bool)
    requires k < |list|
    ensures list[k].kind.BreakHard? == hard ==> Asked(list[k]) in Bag(list, hard)
    ensures Bag(list[..k] + list[k + 1..], hard)
         == if list[k].kind.BreakHard? == hard then Bag(list, hard) - multiset{Asked(list[k])} else Bag(list, hard)
  {
    var rest := list[1..];
    assert list == [list[0]] + rest;
    BagCons(rest, list[0], hard);
    hide Bag;
    if k == 0 {
      assert list[..0] + list[1..] == rest;
    } else {
      BagRemove(rest, k - 1, hard);
      BagCons(rest[..k - 1] + rest[k..], list[0], hard);
      assert list[..k] + list[k + 1..] == [list[0]] + (rest[..k - 1] + rest[k..]);
      TakeAddSwap(Bag(rest, hard), Asked(list[k]), Asked(list[0]));
    }
  }

  lemma TakeAddSwap(b: multiset<Request>, x: Request, y: Request)
    ensures x in b ==> b + multiset{y} - multiset{x} == b - multiset{x} + multiset{y}
  {
  }

  /** A request the search does not find is not in the bag. */
  lemma {:induction false} NotFound(list: seq<Entry>, r: Request)
    requires forall j :: 0 <= j < |list| ==> Asked(list[j]) != r
    ensures r !in Bag(list, r.kind.BreakHard?)
  {
    if list != [] {
      assert forall j :: 0 <= j < |list[1..]| ==> list[1..][j] == list[j + 1];
      NotFound(list[1..], r);
    }
  }

  lemma SetRefines(c: Config, s: State, kind: Kind, addr: bv32, size: nat)
    requires Shaped(c, s) && Bijection(c, s)
    ensures Bijection(c, Set(c, s, kind, addr, size).0)
    ensures var r := Set(c, s, kind, addr, size);
            Bagged(c, Requests(s.list), SetOp(Request(kind, addr, size))) == (Requests(r.0.list), r.1)
  {
    SetKeepsBijection(c, s, kind, addr, size);
    FullWhenCounted(c, s, kind);
    hide Bijection, Taken, Bag, Flags, FirstFree;
    var i := FirstFree(Flags(s, kind), Room(c, kind));
    BagCons(s.list, Entry(kind, addr, size, i), true);
    BagCons(s.list, Entry(kind, addr, size, i), false);
  }

  lemma ClearRefines(c: Config, s: State, kind: Kind, addr: bv32, size: nat)
    requires Shaped(c, s) && Bijection(c, s)
    ensures forall k :: 0 <= k < |s.list| ==> HasSlot(c, s.list[k])
    ensures Bijection(c, Clear(c, s, kind, addr, size).0)
    ensures var r := Clear(c, s, kind, addr, size);
            Bagged(c, Requests(s.list), ClearOp(Request(kind, addr, size))) == (Requests(r.0.list), r.1)
  {
    ClearKeepsBijection(c, s, kind, addr, size);
    hide Bijection, Freed, Bag;
    var k := Find(s.list, kind, addr, size);
    if k == |s.list| {
      NotFound(s.list, Request(kind, addr, size));
    } else {
      assert Asked(s.list[k]) == Request(kind, addr, size);
      BagRemove(s.list, k, true);
      BagRemove(s.list, k, false);
    }
  }

  /** One call, slots and all, does to the list's requests what it does to the bags, with the same result. */
  lemma StepRefines(c: Config, s: State, op: Op)
    requires Shaped(c, s) && Bijection(c, s)
    ensures forall k :: 0 <= k < |s.list| ==> HasSlot(c, s.list[k])
    ensures Shaped(c, Step(c, s, op).0) && Bijection(c, Step(c, s, op).0)
    ensures Bagged(c, Requests(s.list), op) == (Requests(Step(c, s, op).0.list), Step(c, s, op).1)
  {
    AllHaveSlots(c, s);
    var r := op.r;
    if op.SetOp? {
      SetRefines(c, s, r.kind, r.addr, r.size);
    } else {
      ClearRefines(c, s, r.kind, r.addr, r.size);
    }
  }

  ghost predicate Initial(c: Config, s: State) {
    && Shaped(c, s) && s.list == []
    && (forall i :: 0 <= i < MAX_BREAKPOINTS ==> !s.breaks[i] && s.fpbComp[i] == 0)
    && (forall i :: 0 <= i < MAX_WATCHPOINTS ==> !s.watches[i] && s.dwtFunc[i] == 0)
  }

  function Run(c: Config, s: State, ops: seq<Op>): (r: (State, seq<int>))
    requires Shaped(c, s) && Bijection(c, s)
    ensures Shaped(c, r.0) && Bijection(c, r.0)
    decreases |ops|
  {
    if ops == [] then (s, [])
    else
      StepRefines(c, s, ops[0]);
      var t := Step(c, s, ops[0]);
      var r := Run(c, t.0, ops[1..]);
      (r.0, [t.1] + r.1)
  }

  function BagRun(c: Config, b: Bags, ops: seq<Op>): (r: (Bags, seq<int>))
    decreases |ops|
  {
    if ops == [] then (b, [])
    else
      var t := Bagged(c, b, ops[0]);
      var r := BagRun(c, t.0, ops[1..]);
      (r.0, [t.1] + r.1)
  }

  /** For every sequence of set and clear calls: the same results as the bags, and slots that match the list. */
  lemma {:induction false} RunRefines(c: Config, s: State, ops: seq<Op>)
    requires Shaped(c, s) && Bijection(c, s)
    ensures BagRun(c, Requests(s.list), ops) == (Requests(Run(c, s, ops).0.list), Run(c, s, ops).1)
    decreases |ops|
  {
    if ops != [] {
      StepRefines(c, s, ops[0]);
      hide Bijection, Step, Bagged, Requests;
      RunRefines(c, Step(c, s, ops[0]).0, ops[1..]);
    }
  }

  lemma InitialIsBijective(c: Config, s: State)
    requires Initial(c, s)
    ensures Bijection(c, s) && Requests(s.list) == Bags(multiset{}, multiset{})
  {
  }

  /** Setting and clearing the same request gives back the list, every flag and every armed comparator. */
  lemma SetThenClear(c: Config, s: State, kind: Kind, addr: bv32, size: nat)
    requires Shaped(c, s) && Bijection(c, s) && Set(c, s, kind, addr, size).1 == 0
    ensures var t := Set(c, s, kind, addr, size).0;
            && (forall k :: 0 <= k < |t.list| ==> HasSlot(c, t.list[k]))
            && var r := Clear(c, t, kind, addr, size);
               && r.1 == 0 && r.0.list == s.list && r.0.breaks == s.breaks && r.0.watches == s.watches
               && r.0.fpbComp == s.fpbComp && r.0.dwtFunc == s.dwtFunc
  {
    SetKeepsBijection(c, s, kind, addr, size);
    var t := Set(c, s, kind, addr, size).0;
    AllHaveSlots(c, t);
    var e := t.list[0];
    TakenThenFreed(c, s, e);
    hide Taken, Freed, Bijection, FirstFree, HasSlot;
    assert Find(t.list, kind, addr, size) == 0;
    assert t.list[..0] + t.list[1..] == s.list;
    FreedAnyList(c, Taken(c, s, e), t, e);
  }

  lemma TakenThenFreed(c: Config, s: State, e: Entry)
    requires Shaped(c, s) && Bijection(c, s) && HasSlot(c, e) && !Flags(s, e.kind)[e.slot]
    ensures var r := Freed(c, Taken(c, s, e), e);
            && r.list == s.list && r.breaks == s.breaks && r.watches == s.watches
            && r.fpbComp == s.fpbComp && r.dwtFunc == s.dwtFunc
  {
    hide FpbValue, DwtMask, DwtFunc, Placed;
  }

  lemma FreedAnyList(c: Config, s: State, t: State, e: Entry)
    requires Shaped(c, s) && t == s.(list := t.list) && HasSlot(c, e)
    ensures Shaped(c, t) && Freed(c, t, e) == Freed(c, s, e).(list := t.list)
  {
  }

  /** A set call fails for want of room exactly when every slot of its kind is taken. */
  lemma SetFails(c: Config, s: State, kind: Kind, addr: bv32, size: nat)
    requires Shaped(c, s)
    ensures Set(c, s, kind, addr, size).1 == -1
       <==> match kind
            case BreakSoft => false
            case BreakHard => forall i :: 0 <= i < c.breakMax ==> s.breaks[i]
            case _ => forall i :: 0 <= i < c.watchMax ==> s.watches[i]
    ensures Set(c, s, kind, addr, size).1 != 0 ==> Set(c, s, kind, addr, size).0 == s
  {
  }

  // ---- What the core stops at ----

  /** An instruction address the unit can compare. */
  predicate Breakable(c: Config, addr: bv32) {
    addr & 1 == 0 && (c.revision0 ==> addr < 0x2000_0000)
  }

  ghost predicate Comparable(c: Config, list: seq<Entry>) {
    forall k :: 0 <= k < |list| ==>
      if list[k].kind.BreakHard? then Breakable(c, list[k].addr) else Watchable(list[k].addr, list[k].size)
  }

  lemma EmptyStopsNothing(c: Config, pc: bv32, comp: bv32, mask: bv32, a: bv32, access: Access)
    ensures !FetchStops(c, 0, pc) && !AccessStops(comp, mask, 0, a, access)
  {
  }

  /** In every sound state some comparator stops the fetch at `pc` exactly if a breakpoint there is listed. */
  lemma FetchStopsAtListed(c: Config, s: State, pc: bv32)
    requires Shaped(c, s) && Bijection(c, s) && Comparable(c, s.list) && pc & 1 == 0
    ensures (exists i :: 0 <= i < MAX_BREAKPOINTS && FetchStops(c, s.fpbComp[i], pc))
       <==> (exists k :: 0 <= k < |s.list| && s.list[k].kind.BreakHard? && s.list[k].addr == pc)
  {
    hide FetchStops, FpbValue, DwtMask, DwtFunc;
    if i :| 0 <= i < MAX_BREAKPOINTS && FetchStops(c, s.fpbComp[i], pc) {
      EmptyStopsNothing(c, pc, 0, 0, 0, ReadAccess);
      var k :| 0 <= k < |s.list| && s.list[k].kind.BreakHard? && s.list[k].slot == i;
      assert Placed(c, s, s.list[k]);
      BreakpointStopsThere(c, s.list[k].addr, pc);
    }
    if k :| 0 <= k < |s.list| && s.list[k].kind.BreakHard? && s.list[k].addr == pc {
      assert Placed(c, s, s.list[k]);
      BreakpointStopsThere(c, s.list[k].addr, pc);
      assert FetchStops(c, s.fpbComp[s.list[k].slot], pc);
    }
  }

  predicate Watches(e: Entry, a: bv32, access: Access) {
    e.kind.Watch() && InBytes(e.addr, e.size, a) && Wants(e.kind, access)
  }

  /** And some comparator stops a data access exactly if a listed watchpoint is for it. */
  lemma AccessStopsAtListed(c: Config, s: State, a: bv32, access: Access)
    requires Shaped(c, s) && Bijection(c, s) && Comparable(c, s.list)
    ensures (exists i :: 0 <= i < MAX_WATCHPOINTS && AccessStops(s.dwtComp[i], s.dwtMask[i], s.dwtFunc[i], a, access))
       <==> (exists k :: 0 <= k < |s.list| && Watches(s.list[k], a, access))
  {
    hide AccessStops, InBytes, Wants, Watchable, FpbValue, DwtMask, DwtFunc;
    if i :| 0 <= i < MAX_WATCHPOINTS && AccessStops(s.dwtComp[i], s.dwtMask[i], s.dwtFunc[i], a, access) {
      EmptyStopsNothing(c, 0, s.dwtComp[i], s.dwtMask[i], a, access);
      var k :| 0 <= k < |s.list| && !s.list[k].kind.BreakHard? && s.list[k].slot == i;
      var e := s.list[k];
      assert Placed(c, s, e);
      WatchableCovers(c, e.kind, e.addr, e.size, a, access);
      assert Watches(e, a, access);
    }
    if k :| 0 <= k < |s.list| && Watches(s.list[k], a, access) {
      var e := s.list[k];
      assert Placed(c, s, e);
      WatchableCovers(c, e.kind, e.addr, e.size, a, access);
      assert AccessStops(s.dwtComp[e.slot], s.dwtMask[e.slot], s.dwtFunc[e.slot], a, access);
    }
  }

  // ---- The two layers ----

  /** The target with its list (target.c) and the Cortex-M driver's private state (cortexm.c). */
  class Target {
    const config: Config
    var list: seq<Entry>
    const hwBreakpoint: array<bool>
    const hwWatchpoint: array<bool>
    const fpbComp: array<bv32>
    const dwtComp: array<bv32>
    const dwtMask: array<bv32>
    const dwtFunc: array<bv32>

    ghost predicate Valid() {
      && Fits(config)
      && hwBreakpoint.Length == fpbComp.Length == MAX_BREAKPOINTS
      && hwWatchpoint.Length == dwtComp.Length == dwtMask.Length == dwtFunc.Length == MAX_WATCHPOINTS
      && dwtComp != dwtMask && dwtComp != dwtFunc && dwtMask != dwtFunc
      && hwBreakpoint as object != fpbComp as object && hwWatchpoint as object != dwtComp as object
      && hwWatchpoint as object != dwtMask as object && hwWatchpoint as object != dwtFunc as object
    }

    ghost function Value(): (s: State)
      reads this, hwBreakpoint, hwWatchpoint, fpbComp, dwtComp, dwtMask, dwtFunc
      requires Valid()
      ensures Shaped(config, s)
    {
      State(list, hwBreakpoint[..], hwWatchpoint[..], fpbComp[..], dwtComp[..], dwtMask[..], dwtFunc[..])
    }

    constructor (c: Config)
      requires Fits(c)
      ensures Valid() && config == c && Initial(c, Value())
    {
      config, list := c, [];
      hwBreakpoint := new bool[MAX_BREAKPOINTS](_ => false);
      hwWatchpoint := new bool[MAX_WATCHPOINTS](_ => false);
      fpbComp := new bv32[MAX_BREAKPOINTS](_ => 0);
      dwtComp := new bv32[MAX_WATCHPOINTS](_ => 0);
      dwtMask := new bv32[MAX_WATCHPOINTS](_ => 0);
      dwtFunc := new bv32[MAX_WATCHPOINTS](_ => 0);
    }

    method FirstFreeSlot(flags: array<bool>, max: nat) returns (i: nat)
      requires max <= flags.Length
      ensures i == FirstFree(flags[..], max)
    {
      i := 0;
      while i < max && flags[i]
        invariant i <= max && forall j :: 0 <= j < i ==> flags[j]
      {
        i := i + 1;
      }
    }

    method CortexmBreakwatchSet(kind: Kind, addr: bv32, size: nat) returns (ret: int, slot: nat)
      requires Valid()
      modifies hwBreakpoint, hwWatchpoint, fpbComp, dwtComp, dwtMask, dwtFunc
      ensures ret == Set(config, old(Value()), kind, addr, size).1
      ensures Value() == Set(config, old(Value()), kind, addr, size).0.(list := list)
      ensures ret == 0 ==> Set(config, old(Value()), kind, addr, size).0.list == [Entry(kind, addr, size, slot)] + list
    {
      hide FpbValue, DwtMask, DwtFunc;
      slot := 0;
      if kind.BreakHard? {
        var val := FpbValue(config, addr);
        slot := FirstFreeSlot(hwBreakpoint, config.breakMax);
        if slot == config.breakMax {
          return -1, slot;
        }
        hwBreakpoint[slot] := true;
        fpbComp[slot] := val;
        ret := 0;
        assert hwBreakpoint[..] == old(hwBreakpoint[..])[slot := true] && fpbComp[..] == old(fpbComp[..])[slot := val];
      } else if kind.Watch() {
        slot := FirstFreeSlot(hwWatchpoint, config.watchMax);
        if slot == config.watchMax {
          return -1, slot;
        }
        hwWatchpoint[slot] := true;
        dwtComp[slot] := addr;
        dwtMask[slot] := DwtMask(size);
        dwtFunc[slot] := DwtFunc(config, kind);
        ret := 0;
        assert hwWatchpoint[..] == old(hwWatchpoint[..])[slot := true] && dwtComp[..] == old(dwtComp[..])[slot := addr];
        assert dwtMask[..] == old(dwtMask[..])[slot := DwtMask(size)];
        assert dwtFunc[..] == old(dwtFunc[..])[slot := DwtFunc(config, kind)];
      } else {
        ret := 1;
      }
    }

    method TargetBreakwatchSet(kind: Kind, addr: bv32, size: nat) returns (ret: int)
      requires Valid()
      modifies this`list, hwBreakpoint, hwWatchpoint, fpbComp, dwtComp, dwtMask, dwtFunc
      ensures (Value(), ret) == Set(config, old(Value()), kind, addr, size)
    {
      hide Taken, FirstFree;
      var slot;
      ret, slot := CortexmBreakwatchSet(kind, addr, size);
      if ret == 0 {
        list := [Entry(kind, addr, size, slot)] + list;
      }
    }

    method CortexmBreakwatchClear(e: Entry) returns (ret: int)
      requires Valid()
      requires HasSlot(config, e)
      modifies hwBreakpoint, hwWatchpoint, fpbComp, dwtFunc
      ensures ret == 0 && Value() == Freed(config, old(Value()), e)
    {
      if e.kind.BreakHard? {
        hwBreakpoint[e.slot] := false;
        fpbComp[e.slot] := 0;
        assert hwBreakpoint[..] == old(hwBreakpoint[..])[e.slot := false]
            && fpbComp[..] == old(fpbComp[..])[e.slot := 0];
      } else {
        hwWatchpoint[e.slot] := false;
        dwtFunc[e.slot] := 0;
        assert hwWatchpoint[..] == old(hwWatchpoint[..])[e.slot := false]
            && dwtFunc[..] == old(dwtFunc[..])[e.slot := 0];
      }
      ret := 0;
    }

    method TargetBreakwatchClear(kind: Kind, addr: bv32, size: nat) returns (ret: int)
      requires Valid() && forall k :: 0 <= k < |list| ==> HasSlot(config, list[k])
      modifies this`list, hwBreakpoint, hwWatchpoint, fpbComp, dwtFunc
      ensures (Value(), ret) == Clear(config, old(Value()), kind, addr, size)
    {
      hide Freed;
      var k := 0;
      while k < |list| && !(list[k].kind == kind && list[k].addr == addr && list[k].size == size)
        invariant k <= |list|
        invariant forall j :: 0 <= j < k ==> !(list[j].kind == kind && list[j].addr == addr && list[j].size == size)
      {
        k := k + 1;
      }
      if k == |list| {
        return -1;
      }
      ret := CortexmBreakwatchClear(list[k]);
      if ret == 0 {
        list := list[..k] + list[k + 1..];
      }
    }
  }
}
