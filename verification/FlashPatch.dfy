/** The breakpoint comparators of the flash patch unit: each holds one word address and a bit for each
    of its two half-words (Bootloader/App/main.cpp). */
module FlashPatch {
  import Breakwatch


  const NUM_OF_BKPTS: nat := 8

  // ---- One comparator ----

  predicate SameWord(x: bv32, a: bv32) {
    x & 0x3FFF_FFFC == a & 0x3FFF_FFFC
  }

  predicate ZeroWord(a: bv32) {
    a & 0x3FFF_FFFC == 0
  }

  predicate SameHalf(a: bv32, b: bv32) {
    a & 0x02 == b & 0x02
  }

  /** `(*bp & (addrlow << 30)) != 0` for the `addrlow` of address `a`. */
  predicate HasHalf(x: bv32, a: bv32) {
    if a & 0x02 != 0 then x & 0x8000_0000 != 0 else x & 0x4000_0000 != 0
  }

  /** Empty, or enabled with a word address and at least one half selected. */
  predicate WellFormed(x: bv32) {
    x == 0 || (x & 0x3 == 1 && x & 0xC000_0000 != 0 && x & 0x3FFF_FFFC != 0)
  }

  predicate IsFree(x: bv32) {
    x & 0x01 == 0
  }

  /** The comparator stops at the half-word of `a`. */
  predicate Has(x: bv32, a: bv32) {
    x != 0 && SameWord(x, a) && HasHalf(x, a)
  }

  predicate Same(a: bv32, b: bv32) {
    SameWord(a, b) && SameHalf(a, b)
  }

  function Fresh(a: bv32): bv32 {
    (a & 0x3FFF_FFFC) | (0x01 | if a & 0x02 != 0 then 0x8000_0000 else 0x4000_0000)
  }

  function Join(x: bv32, a: bv32): bv32 {
    x | (0x01 | if a & 0x02 != 0 then 0x8000_0000 else 0x4000_0000)
  }

  /** The half-word bit of `a` taken away. */
  function Mask(x: bv32, a: bv32): bv32 {
    x & !(if a & 0x02 != 0 then 0x8000_0000 else 0x4000_0000)
  }

  predicate NoHalves(x: bv32) {
    x & 0xC000_0000 == 0
  }

  function ClearComp(x: bv32, a: bv32): bv32 {
    if !SameWord(x, a) then x else if NoHalves(Mask(x, a)) then 0 else Mask(x, a)
  }

  // Facts about the bits. The updated comparator is a variable of its own here, which keeps these
  // lemmas within the theory of bit vectors; the lemmas after them put the functions back in.

  predicate Joined(x: bv32, a: bv32, y: bv32) {
    y == x | (0x01 | if a & 0x02 != 0 then 0x8000_0000 else 0x4000_0000)
  }

  predicate Masked(x: bv32, a: bv32, y: bv32) {
    y == x & !(if a & 0x02 != 0 then 0x8000_0000 else 0x4000_0000)
  }

  lemma JoinedKeeps(x: bv32, a: bv32, y: bv32)
    requires WellFormed(x) && x != 0 && SameWord(x, a) && Joined(x, a, y)
    ensures WellFormed(y) && y != 0 && SameWord(y, x)
  {
  }

  lemma JoinedHas(x: bv32, a: bv32, b: bv32, y: bv32)
    requires WellFormed(x) && x != 0 && SameWord(x, a) && Joined(x, a, y)
    ensures SameWord(y, b) <==> SameWord(x, b)
    ensures HasHalf(y, b) <==> HasHalf(x, b) || a & 0x02 == b & 0x02
  {
  }

  lemma MaskedKeeps(x: bv32, a: bv32, z: bv32)
    requires WellFormed(x) && x != 0 && SameWord(x, a) && Masked(x, a, z)
    ensures SameWord(z, x)
    ensures z & 0xC000_0000 != 0 ==> WellFormed(z) && z != 0
  {
  }

  lemma MaskedHas(x: bv32, a: bv32, b: bv32, z: bv32)
    requires WellFormed(x) && x != 0 && SameWord(x, a) && Masked(x, a, z)
    ensures Has(x, b) && !(SameWord(a, b) && a & 0x02 == b & 0x02) <==> z & 0xC000_0000 != 0 && Has(z, b)
  {
  }

  lemma SameIs(a: bv32, b: bv32)
    ensures Same(a, b) <==> SameWord(a, b) && a & 0x02 == b & 0x02
  {
  }

  lemma JoinIs(x: bv32, a: bv32)
    ensures Joined(x, a, Join(x, a))
  {
  }

  lemma FreshComp(a: bv32, b: bv32)
    requires !ZeroWord(a)
    ensures WellFormed(Fresh(a)) && Fresh(a) != 0 && SameWord(Fresh(a), a)
    ensures Has(Fresh(a), b) <==> Same(a, b)
  {
  }

  lemma JoinComp(x: bv32, a: bv32, b: bv32)
    requires WellFormed(x) && x != 0 && SameWord(x, a)
    ensures WellFormed(Join(x, a)) && Join(x, a) != 0 && SameWord(Join(x, a), x)
    ensures Has(Join(x, a), b) <==> Has(x, b) || Same(a, b)
  {
    hide WellFormed, SameWord, HasHalf, Same, Join, Joined;
    JoinIs(x, a);
    SameWordTransitive(x, a, b);
    JoinedKeeps(x, a, Join(x, a));
    JoinedHas(x, a, b, Join(x, a));
    SameIs(a, b);
  }

  lemma MaskIs(x: bv32, a: bv32)
    ensures Masked(x, a, Mask(x, a))
  {
  }

  lemma WordFacts(x: bv32, a: bv32, b: bv32)
    requires WellFormed(x) && !ZeroWord(a)
    ensures SameWord(x, b) && SameWord(a, b) ==> SameWord(x, a)
    ensures SameWord(x, a) ==> x != 0
    ensures Has(x, b) <==> SameWord(x, b) && HasHalf(x, b) && x != 0
    ensures Same(a, b) ==> SameWord(a, b)
    ensures WellFormed(0) && !Has(0, b)
  {
  }

  /** Clearing a half-word of word zero does nothing, and no comparator stops there. */
  lemma ClearZeroWord(x: bv32, a: bv32, b: bv32)
    requires WellFormed(x) && ZeroWord(a)
    ensures ClearComp(x, a) == x
    ensures !(Has(x, b) && Same(a, b))
  {
    hide HasHalf, SameHalf;
    if SameWord(x, a) {
      ZeroWordIsEmpty(x, a);
    }
    if Has(x, b) && Same(a, b) {
      ZeroWordIsEmpty(x, b);
    }
  }

  lemma ClearCompHas(x: bv32, a: bv32, b: bv32)
    requires WellFormed(x)
    ensures WellFormed(ClearComp(x, a))
    ensures ClearComp(x, a) != 0 ==> x != 0 && SameWord(ClearComp(x, a), x)
    ensures Has(ClearComp(x, a), b) <==> Has(x, b) && !Same(a, b)
  {
    hide WellFormed, SameWord, Has, Same, Mask, ZeroWord, HasHalf;
    SameWordReflexive(x);
    if ZeroWord(a) {
      ClearZeroWord(x, a, b);
      return;
    }
    WordFacts(x, a, b);
    if SameWord(x, a) {
      MaskIs(x, a);
      MaskedKeeps(x, a, Mask(x, a));
      MaskedHas(x, a, b, Mask(x, a));
      SameIs(a, b);
    }
  }

  lemma SameWordTransitive(x: bv32, a: bv32, b: bv32)
    requires SameWord(x, a)
    ensures SameWord(x, b) <==> SameWord(a, b)
  {
  }

  lemma SameWordReflexive(x: bv32)
    ensures SameWord(x, x)
  {
  }

  lemma FreeIsEmpty(x: bv32, a: bv32)
    requires WellFormed(x) && !ZeroWord(a)
    ensures IsFree(x) <==> x == 0
    ensures SameWord(x, a) ==> x != 0
    ensures WellFormed(0) && !Has(0, a)
  {
  }

  /** A well-formed comparator is determined by the half-words it stops at. */
  lemma Canonical(x: bv32, y: bv32)
    requires WellFormed(x) && WellFormed(y) && forall b :: Has(x, b) <==> Has(y, b)
    ensures x == y
  {
    HasSome(x);
    HasSome(y);
    if x != 0 && y != 0 {
      CanonicalBits(x, y, x & 0x3FFF_FFFC, (x & 0x3FFF_FFFC) | 0x02);
    }
  }

  lemma HasSome(x: bv32)
    requires WellFormed(x)
    ensures x != 0 <==> exists b :: Has(x, b)
  {
    if x != 0 {
      HasOneOfTwo(x, x & 0x3FFF_FFFC, (x & 0x3FFF_FFFC) | 0x02);
    }
  }

  lemma HasOneOfTwo(x: bv32, low: bv32, high: bv32)
    requires WellFormed(x) && x != 0 && low == x & 0x3FFF_FFFC && high == low | 0x02
    ensures Has(x, low) || Has(x, high)
  {
    hide *;
    HalfSelected(x, low, high);
    WordsOfTwo(x, low, high);
    HasParts(x, low);
    HasParts(x, high);
  }

  lemma HalfSelected(x: bv32, low: bv32, high: bv32)
    requires WellFormed(x) && x != 0 && low == x & 0x3FFF_FFFC && high == low | 0x02
    ensures HasHalf(x, low) || HasHalf(x, high)
  {
    assert low & 0x02 == 0;
    assert high & 0x02 != 0;
  }

  lemma CanonicalBits(x: bv32, y: bv32, low: bv32, high: bv32)
    requires WellFormed(x) && WellFormed(y) && x != 0 && y != 0
    requires low == x & 0x3FFF_FFFC && high == low | 0x02
    requires Has(x, low) == Has(y, low) && Has(x, high) == Has(y, high)
    ensures x == y
  {
    hide *;
    HasOneOfTwo(x, low, high);
    WordsOfTwo(x, low, high);
    HasParts(x, low);
    HasParts(x, high);
    HasParts(y, low);
    HasParts(y, high);
    WordsOfAnother(x, y, low, high);
    SameHalves(x, y, low, high);
  }

  lemma HasParts(x: bv32, a: bv32)
    ensures Has(x, a) <==> x != 0 && SameWord(x, a) && HasHalf(x, a)
  {
  }

  lemma WordsOfTwo(x: bv32, low: bv32, high: bv32)
    requires low == x & 0x3FFF_FFFC && high == low | 0x02
    ensures SameWord(x, low) && SameWord(x, high)
  {
  }

  lemma WordsOfAnother(x: bv32, y: bv32, low: bv32, high: bv32)
    requires low == x & 0x3FFF_FFFC && high == low | 0x02
    ensures SameWord(y, low) <==> SameWord(x, y)
    ensures SameWord(y, high) <==> SameWord(x, y)
  {
  }

  lemma SameHalves(x: bv32, y: bv32, low: bv32, high: bv32)
    requires WellFormed(x) && WellFormed(y) && x != 0 && y != 0 && SameWord(x, y)
    requires low == x & 0x3FFF_FFFC && high == low | 0x02
    requires HasHalf(x, low) == HasHalf(y, low) && HasHalf(x, high) == HasHalf(y, high)
    ensures x == y
  {
  }

  /** For code addresses "stops at the half-word of `a`" is what the unit does when the core fetches from `a`
      (ARMv7-M Architecture Reference Manual, section C1.11). */
  lemma HasIsStop(x: bv32, a: bv32)
    requires WellFormed(x) && a < 0x2000_0000 && x & 0x2000_0000 == 0
    ensures Has(x, a) <==> Breakwatch.Revision0Stops(x, a)
  {
    hide *;
    HasParts(x, a);
    StopParts(x, a);
    EnabledBit(x);
    if SameWord(x, a) {
      SameCodeWord(x, a);
    }
    if CodeWord(x, a) {
      CodeWordIsSame(x, a);
    }
  }

  /** Bits 28 to 2 are the same, and the address has no others. */
  predicate CodeWord(x: bv32, a: bv32) {
    x & 0x1FFF_FFFC == a & 0xFFFF_FFFC
  }

  predicate Enabled(x: bv32) {
    x & 1 == 1
  }

  lemma StopParts(x: bv32, a: bv32)
    ensures Breakwatch.Revision0Stops(x, a) <==> Enabled(x) && CodeWord(x, a) && HasHalf(x, a)
  {
  }

  lemma SameCodeWord(x: bv32, a: bv32)
    requires a < 0x2000_0000 && x & 0x2000_0000 == 0 && SameWord(x, a)
    ensures CodeWord(x, a)
  {
  }

  lemma CodeWordIsSame(x: bv32, a: bv32)
    requires a < 0x2000_0000 && x & 0x2000_0000 == 0 && CodeWord(x, a)
    ensures SameWord(x, a)
  {
  }

  lemma EnabledBit(x: bv32)
    requires WellFormed(x)
    ensures Enabled(x) <==> x != 0
  {
  }

  // ---- The comparator array ----

  /** The first comparator with the word of `a`, or the length. */
  function WordAt(comps: seq<bv32>, a: bv32): (r: nat)
    ensures r <= |comps| && forall j :: 0 <= j < r ==> !SameWord(comps[j], a)
    ensures r < |comps| ==> SameWord(comps[r], a)
  {
    if comps == [] || SameWord(comps[0], a) then 0 else 1 + WordAt(comps[1..], a)
  }

  function FreeAt(comps: seq<bv32>): (r: nat)
    ensures r <= |comps| && forall j :: 0 <= j < r ==> !IsFree(comps[j])
    ensures r < |comps| ==> IsFree(comps[r])
  {
    if comps == [] || IsFree(comps[0]) then 0 else 1 + FreeAt(comps[1..])
  }

  function SetOne(comps: seq<bv32>, a: bv32): (r: seq<bv32>)
    ensures |r| == |comps|
  {
    if WordAt(comps, a) < |comps| then comps[WordAt(comps, a) := Join(comps[WordAt(comps, a)], a)]
    else if FreeAt(comps) < |comps| then comps[FreeAt(comps) := Fresh(a)]
    else comps
  }

  function ClearOne(comps: seq<bv32>, a: bv32): (r: seq<bv32>)
    ensures |r| == |comps|
  {
    seq(|comps|, i requires 0 <= i < |comps| => ClearComp(comps[i], a))
  }

  function SetAll(comps: seq<bv32>, list: seq<bv32>): (r: seq<bv32>)
    ensures |r| == |comps|
  {
    if list == [] then comps else SetOne(SetAll(comps, list[..|list| - 1]), list[|list| - 1])
  }

  function ClearAll(comps: seq<bv32>, list: seq<bv32>): (r: seq<bv32>)
    ensures |r| == |comps|
  {
    if list == [] then comps else ClearOne(ClearAll(comps, list[..|list| - 1]), list[|list| - 1])
  }

  /** Every comparator is empty or well formed, and no two hold the same word. */
  ghost predicate Proper(comps: seq<bv32>) {
    && (forall i :: 0 <= i < |comps| ==> WellFormed(comps[i]))
    && (forall i, j :: 0 <= i < j < |comps| && comps[i] != 0 && comps[j] != 0 ==> !SameWord(comps[i], comps[j]))
  }

  /** The array stops at the half-word of `b`. */
  ghost predicate Represents(comps: seq<bv32>, b: bv32) {
    exists i :: 0 <= i < |comps| && Has(comps[i], b)
  }

  /** There is room for `a`: its word is in use, or a comparator is free. */
  predicate CanSet(comps: seq<bv32>, a: bv32) {
    WordAt(comps, a) < |comps| || FreeAt(comps) < |comps|
  }

  lemma SameWordSymmetric(x: bv32, y: bv32)
    ensures SameWord(x, y) <==> SameWord(y, x)
  {
  }

  /** Setting one breakpoint, comparator by comparator. */
  lemma SetOneSlots(comps: seq<bv32>, a: bv32, b: bv32)
    requires Proper(comps) && !ZeroWord(a)
    ensures forall i :: 0 <= i < |comps| ==> WellFormed(SetOne(comps, a)[i])
    ensures forall i :: 0 <= i < |comps| && Has(comps[i], b) ==> Has(SetOne(comps, a)[i], b)
    ensures forall i :: 0 <= i < |comps| && Has(SetOne(comps, a)[i], b) ==> Has(comps[i], b) || Same(a, b)
    ensures CanSet(comps, a) && Same(a, b) ==> exists i :: 0 <= i < |comps| && Has(SetOne(comps, a)[i], b)
  {
    hide WellFormed, SameWord, Has, Same, Join, Fresh, ZeroWord, IsFree;
    var m, f := WordAt(comps, a), FreeAt(comps);
    if m < |comps| {
      FreeIsEmpty(comps[m], a);
      JoinComp(comps[m], a, b);
      assert SetOne(comps, a)[m] == Join(comps[m], a);
    } else if f < |comps| {
      FreeIsEmpty(comps[f], a);
      NothingInEmpty(b);
      FreshComp(a, b);
      assert SetOne(comps, a)[f] == Fresh(a);
    }
  }

  lemma NothingInEmpty(b: bv32)
    ensures !Has(0, b)
  {
  }

  lemma SetOneProper(comps: seq<bv32>, a: bv32)
    requires Proper(comps) && !ZeroWord(a)
    ensures Proper(SetOne(comps, a))
  {
    SetOneSlots(comps, a, a);
    hide WellFormed, SameWord, Has, Same, Join, Fresh, ZeroWord, IsFree;
    var r := SetOne(comps, a);
    forall i, j | 0 <= i < j < |r| && r[i] != 0 && r[j] != 0
      ensures !SameWord(r[i], r[j])
    {
      SetOneWords(comps, a, i);
      SetOneWords(comps, a, j);
      WordsMeet(comps, a, r[i], r[j], i, j);
    }
  }

  /** A comparator keeps its word, or takes that of `a` when no other has it. */
  lemma SetOneWords(comps: seq<bv32>, a: bv32, i: nat)
    requires Proper(comps) && !ZeroWord(a) && i < |comps|
    ensures var r := SetOne(comps, a);
            || r[i] == comps[i]
            || (comps[i] != 0 && SameWord(r[i], comps[i]) && i == WordAt(comps, a))
            || (comps[i] == 0 && SameWord(r[i], a) && i == FreeAt(comps) && WordAt(comps, a) == |comps|)
  {
    hide WellFormed, SameWord, Has, Same, Join, Fresh, ZeroWord, IsFree;
    var m, f := WordAt(comps, a), FreeAt(comps);
    if m < |comps| {
      FreeIsEmpty(comps[m], a);
      JoinComp(comps[m], a, a);
    } else if f < |comps| {
      FreeIsEmpty(comps[f], a);
      FreshComp(a, a);
    }
  }

  lemma WordsMeet(comps: seq<bv32>, a: bv32, x: bv32, y: bv32, i: nat, j: nat)
    requires Proper(comps) && !ZeroWord(a) && i < j < |comps| && x != 0 && y != 0
    requires x == SetOne(comps, a)[i] && y == SetOne(comps, a)[j]
    ensures !SameWord(x, y)
  {
    SetOneWords(comps, a, i);
    SetOneWords(comps, a, j);
    var u, v := comps[i], comps[j];
    hide WellFormed, SameWord, Has, Same, Join, Fresh, ZeroWord, IsFree;
    WordsTransfer(x, y, u, v);
    WordsTransfer(x, y, a, v);
    WordsTransfer(x, y, u, a);
    SameWordSymmetric(a, v);
    SameWordSymmetric(a, u);
    WordsReflexive(x, y);
  }

  lemma WordsReflexive(x: bv32, y: bv32)
    ensures SameWord(x, x) && SameWord(y, y)
  {
  }

  lemma WordsTransfer(x: bv32, y: bv32, u: bv32, v: bv32)
    ensures SameWord(x, u) && SameWord(y, v) && SameWord(x, y) ==> SameWord(u, v)
  {
  }

  /** Setting adds exactly the half-word of `a`, if and only if there is room for it. */
  lemma SetOneRepresents(comps: seq<bv32>, a: bv32, b: bv32)
    requires Proper(comps) && !ZeroWord(a)
    ensures Proper(SetOne(comps, a))
    ensures Represents(SetOne(comps, a), b) <==> Represents(comps, b) || (Same(a, b) && CanSet(comps, a))
  {
    SetOneProper(comps, a);
    SetOneSlots(comps, a, b);
    hide WellFormed, SameWord, Has, Same, Join, Fresh, ZeroWord, IsFree;
    if i :| 0 <= i < |comps| && Has(comps[i], b) {
      assert Has(SetOne(comps, a)[i], b);
    }
  }

  lemma ClearOneSlots(comps: seq<bv32>, a: bv32, b: bv32)
    requires Proper(comps)
    ensures forall i :: 0 <= i < |comps| ==> WellFormed(ClearOne(comps, a)[i])
    ensures forall i :: 0 <= i < |comps| ==> (Has(ClearOne(comps, a)[i], b) <==> Has(comps[i], b) && !Same(a, b))
    ensures forall i :: 0 <= i < |comps| && ClearOne(comps, a)[i] != 0 ==>
              comps[i] != 0 && SameWord(ClearOne(comps, a)[i], comps[i])
  {
    hide WellFormed, SameWord, Has, Same, ClearComp, ZeroWord;
    forall i | 0 <= i < |comps|
      ensures WellFormed(ClearComp(comps[i], a))
      ensures Has(ClearComp(comps[i], a), b) <==> Has(comps[i], b) && !Same(a, b)
      ensures ClearComp(comps[i], a) != 0 ==> comps[i] != 0 && SameWord(ClearComp(comps[i], a), comps[i])
    {
      ClearCompHas(comps[i], a, b);
    }
  }

  /** Clearing takes away exactly the half-word of `a`. */
  lemma ClearOneRepresents(comps: seq<bv32>, a: bv32, b: bv32)
    requires Proper(comps)
    ensures Proper(ClearOne(comps, a))
    ensures Represents(ClearOne(comps, a), b) <==> Represents(comps, b) && !Same(a, b)
  {
    ClearOneSlots(comps, a, b);
    hide WellFormed, SameWord, Has, Same, ClearComp, ZeroWord;
    var r := ClearOne(comps, a);
    forall i, j | 0 <= i < j < |r| && r[i] != 0 && r[j] != 0
      ensures !SameWord(r[i], r[j])
    {
      WordsTransfer(r[i], r[j], comps[i], comps[j]);
    }
    if i :| 0 <= i < |comps| && Has(comps[i], b) && !Same(a, b) {
      assert Has(r[i], b);
    }
  }

  // ---- Whole commands ----

  ghost predicate NonZeroWords(list: seq<bv32>) {
    forall k :: 0 <= k < |list| ==> !ZeroWord(list[k])
  }

  ghost predicate Listed(list: seq<bv32>, b: bv32) {
    exists k :: 0 <= k < |list| && Same(list[k], b)
  }

  lemma ListedLast(list: seq<bv32>, b: bv32)
    requires list != []
    ensures Listed(list, b) <==> Listed(list[..|list| - 1], b) || Same(list[|list| - 1], b)
  {
    hide Same;
    var init := list[..|list| - 1];
    if k :| 0 <= k < |init| && Same(init[k], b) {
      assert Same(list[k], b);
    }
    if k :| 0 <= k < |list| && Same(list[k], b) {
      if k < |init| {
        assert Same(init[k], b);
      }
    }
  }

  /** A set command keeps the array proper and every breakpoint it had, and adds only listed ones. */
  lemma {:induction false} SetAllSlots(comps: seq<bv32>, list: seq<bv32>, b: bv32)
    requires Proper(comps) && NonZeroWords(list)
    ensures Proper(SetAll(comps, list))
    ensures forall i :: 0 <= i < |comps| && Has(comps[i], b) ==> Has(SetAll(comps, list)[i], b)
    ensures forall i :: 0 <= i < |comps| && Has(SetAll(comps, list)[i], b) ==> Has(comps[i], b) || Listed(list, b)
  {
    hide WellFormed, SameWord, Has, Same, SetOne, ZeroWord, Proper;
    if list != [] {
      var init, last := list[..|list| - 1], list[|list| - 1];
      SetAllSlots(comps, init, b);
      SetOneProper(SetAll(comps, init), last);
      SetOneSlots(SetAll(comps, init), last, b);
      ListedLast(list, b);
    }
  }

  /** A clear command takes exactly the listed half-words away, comparator by comparator. */
  lemma {:induction false} ClearAllSlots(comps: seq<bv32>, list: seq<bv32>, b: bv32)
    requires Proper(comps)
    ensures Proper(ClearAll(comps, list))
    ensures forall i :: 0 <= i < |comps| ==>
              (Has(ClearAll(comps, list)[i], b) <==> Has(comps[i], b) && !Listed(list, b))
  {
    hide WellFormed, SameWord, Has, Same, ClearOne, ZeroWord, Proper;
    if list != [] {
      var init, last := list[..|list| - 1], list[|list| - 1];
      ClearAllSlots(comps, init, b);
      ClearOneRepresents(ClearAll(comps, init), last, b);
      ClearOneSlots(ClearAll(comps, init), last, b);
      ListedLast(list, b);
    }
  }

  /** Room for every half-word of the list at its turn. */
  predicate AllFit(comps: seq<bv32>, list: seq<bv32>) {
    list == [] || (AllFit(comps, list[..|list| - 1]) && CanSet(SetAll(comps, list[..|list| - 1]), list[|list| - 1]))
  }

  /** While there is room, a set command is set union; a clear command is always set difference. */
  lemma {:induction false} SetAllRepresents(comps: seq<bv32>, list: seq<bv32>, b: bv32)
    requires Proper(comps) && NonZeroWords(list) && AllFit(comps, list)
    ensures Represents(SetAll(comps, list), b) <==> Represents(comps, b) || Listed(list, b)
  {
    hide WellFormed, SameWord, Has, Same, SetOne, ZeroWord, Proper, CanSet, Represents;
    if list != [] {
      var init, last := list[..|list| - 1], list[|list| - 1];
      SetAllRepresents(comps, init, b);
      SetAllSlots(comps, init, b);
      SetOneRepresents(SetAll(comps, init), last, b);
      ListedLast(list, b);
    }
  }

  lemma ClearAllRepresents(comps: seq<bv32>, list: seq<bv32>, b: bv32)
    requires Proper(comps)
    ensures Proper(ClearAll(comps, list))
    ensures Represents(ClearAll(comps, list), b) <==> Represents(comps, b) && !Listed(list, b)
  {
    ClearAllSlots(comps, list, b);
    hide WellFormed, SameWord, Has, Same, ClearOne, ZeroWord, Proper, Listed;
    if i :| 0 <= i < |comps| && Has(comps[i], b) && !Listed(list, b) {
      assert Has(ClearAll(comps, list)[i], b);
    }
  }

  /** Setting a list and clearing it again restores the array bit for bit, full array or not, exactly when
      none of its half-words was set before. */
  lemma SetThenClear(comps: seq<bv32>, list: seq<bv32>)
    requires Proper(comps) && NonZeroWords(list)
    ensures ClearAll(SetAll(comps, list), list) == comps <==> forall b :: Represents(comps, b) ==> !Listed(list, b)
  {
    hide WellFormed, SameWord, Has, Same, ZeroWord, SetAll, ClearAll, Listed;
    var r := ClearAll(SetAll(comps, list), list);
    if forall b :: Represents(comps, b) ==> !Listed(list, b) {
      forall i | 0 <= i < |comps|
        ensures r[i] == comps[i]
      {
        forall b
          ensures Has(r[i], b) <==> Has(comps[i], b)
        {
          SetThenClearHas(comps, list, i, b);
          if Has(comps[i], b) {
            assert Represents(comps, b);
          }
        }
        SetThenClearHas(comps, list, i, 0);
        ProperAt(r, i);
        ProperAt(comps, i);
        Canonical(r[i], comps[i]);
      }
    } else {
      var b :| Represents(comps, b) && Listed(list, b);
      var i :| 0 <= i < |comps| && Has(comps[i], b);
      SetThenClearHas(comps, list, i, b);
    }
  }

  lemma SetThenClearHas(comps: seq<bv32>, list: seq<bv32>, i: nat, b: bv32)
    requires Proper(comps) && NonZeroWords(list) && i < |comps|
    ensures Proper(ClearAll(SetAll(comps, list), list))
    ensures Has(ClearAll(SetAll(comps, list), list)[i], b) <==> Has(comps[i], b) && !Listed(list, b)
  {
    hide WellFormed, SameWord, Has, Same, ZeroWord, SetAll, ClearAll, Listed, Proper;
    SetAllSlots(comps, list, b);
    ClearAllSlots(SetAll(comps, list), list, b);
  }

  lemma ProperAt(comps: seq<bv32>, i: nat)
    requires Proper(comps) && i < |comps|
    ensures WellFormed(comps[i])
  {
  }

  lemma ZeroWordIsEmpty(x: bv32, a: bv32)
    requires WellFormed(x) && ZeroWord(a) && SameWord(x, a)
    ensures x == 0
  {
  }

  lemma ZeroWordMeetsEmpty(a: bv32)
    requires ZeroWord(a)
    ensures SameWord(0, a)
  {
  }

  lemma ZeroWordJoined(a: bv32, y: bv32)
    requires ZeroWord(a) && Joined(0, a, y)
    ensures !WellFormed(y)
  {
  }

  lemma FullMeansTaken(x: bv32)
    requires WellFormed(x) && x != 0
    ensures !IsFree(x)
  {
  }

  /** Exactly when setting a breakpoint keeps the array proper: its word is not zero, or no comparator is
      empty, so that nothing is changed. */
  lemma SetOneKeepsProper(comps: seq<bv32>, a: bv32)
    requires Proper(comps)
    ensures Proper(SetOne(comps, a)) <==> !ZeroWord(a) || forall i :: 0 <= i < |comps| ==> comps[i] != 0
  {
    if !ZeroWord(a) {
      SetOneProper(comps, a);
    } else {
      ZeroWordMeetsEmpty(a);
      hide WellFormed, SameWord, ZeroWord, IsFree, Join, Fresh, Joined;
      var m := WordAt(comps, a);
      if m < |comps| {
        ZeroWordIsEmpty(comps[m], a);
        JoinIs(0, a);
        ZeroWordJoined(a, Join(0, a));
        assert SetOne(comps, a)[m] == Join(0, a);
      } else {
        forall i | 0 <= i < |comps|
          ensures comps[i] != 0 && !IsFree(comps[i])
        {
          FullMeansTaken(comps[i]);
        }
      }
    }
  }

  /** Why address zero is excluded: an empty comparator has word zero, so it is taken for the one that
      holds the address, and one word ends up in two comparators. */
  lemma ZeroWordSplits()
    ensures var comps := SetOne([0, 0x4000_0001, 0, 0, 0, 0, 0, 0], 0x02);
            comps[0] != 0 && comps[1] != 0 && SameWord(comps[0], comps[1])
  {
    var comps: seq<bv32> := [0, 0x4000_0001, 0, 0, 0, 0, 0, 0];
    assert SameWord(comps[0], 0x02);
    assert WordAt(comps, 0x02) == 0;
    assert Join(0, 0x02) == 0x8000_0001;
  }

  class FlashPatchUnit {
    const comp: array<bv32>
    var ctrl: bv32

    constructor ()
      ensures comp[..] == seq(NUM_OF_BKPTS, _ => 0) && Proper(comp[..]) && fresh(comp)
    {
      comp := new bv32[NUM_OF_BKPTS](_ => 0);
      ctrl := 0;
    }

    method SetBreakpoint(address: bv32)
      modifies comp
      ensures comp[..] == SetOne(old(comp[..]), address)
    {
      ghost var was := comp[..];
      for bpNum := 0 to comp.Length
        invariant comp[..] == was
        invariant forall j :: 0 <= j < bpNum ==> !SameWord(was[j], address)
      {
        if SameWord(comp[bpNum], address) {
          WordAtIs(was, address, bpNum);
          comp[bpNum] := Join(comp[bpNum], address);
          assert comp[..] == was[bpNum := Join(was[bpNum], address)];
          return;
        }
      }
      WordAtIs(was, address, comp.Length);
      for bpNum := 0 to comp.Length
        invariant comp[..] == was
        invariant forall j :: 0 <= j < bpNum ==> !IsFree(was[j])
      {
        if IsFree(comp[bpNum]) {
          FreeAtIs(was, bpNum);
          comp[bpNum] := Fresh(address);
          assert comp[..] == was[bpNum := Fresh(address)];
          return;
        }
      }
      FreeAtIs(was, comp.Length);
    }

    method ClearBreakpoint(address: bv32)
      modifies comp
      ensures comp[..] == ClearOne(old(comp[..]), address)
    {
      ghost var was := comp[..];
      for bpNum := 0 to comp.Length
        invariant forall j :: 0 <= j < bpNum ==> comp[j] == ClearComp(was[j], address)
        invariant forall j :: bpNum <= j < comp.Length ==> comp[j] == was[j]
      {
        if SameWord(comp[bpNum], address) {
          comp[bpNum] := Mask(comp[bpNum], address);
          if NoHalves(comp[bpNum]) {
            comp[bpNum] := 0;
          }
        }
      }
    }

    /** The device's side of one breakpoint command. */
    method BreakpointCommand(setting: bool, breakpoints: seq<bv32>)
      modifies this, comp
      ensures comp[..] == if setting then SetAll(old(comp[..]), breakpoints) else ClearAll(old(comp[..]), breakpoints)
      ensures ctrl == if setting then old(ctrl) | 0x03 else old(ctrl)
    {
      hide SetOne, ClearOne;
      ghost var was := comp[..];
      if setting {
        ctrl := ctrl | 0x03;
        for index := 0 to |breakpoints|
          invariant comp[..] == SetAll(was, breakpoints[..index])
          invariant ctrl == old(ctrl) | 0x03
        {
          SetBreakpoint(breakpoints[index]);
          assert breakpoints[..index + 1][..index] == breakpoints[..index];
        }
      } else {
        for index := 0 to |breakpoints|
          invariant comp[..] == ClearAll(was, breakpoints[..index])
          invariant ctrl == old(ctrl)
        {
          ClearBreakpoint(breakpoints[index]);
          assert breakpoints[..index + 1][..index] == breakpoints[..index];
        }
      }
      assert breakpoints[..|breakpoints|] == breakpoints;
    }
  }

  lemma {:induction false} WordAtIs(comps: seq<bv32>, a: bv32, k: nat)
    requires k <= |comps| && forall j :: 0 <= j < k ==> !SameWord(comps[j], a)
    requires k < |comps| ==> SameWord(comps[k], a)
    ensures WordAt(comps, a) == k
  {
    hide SameWord;
  }

  lemma {:induction false} FreeAtIs(comps: seq<bv32>, k: nat)
    requires k <= |comps| && forall j :: 0 <= j < k ==> !IsFree(comps[j])
    requires k < |comps| ==> IsFree(comps[k])
    ensures FreeAt(comps) == k
  {
    hide IsFree;
  }
}
