/** Whole sequences of breakpoint commands: when the comparators are enough, and what they then stop at. */
module FlashPatchRuns {
  import opened FlashPatch
  import Breakwatch

  // ---- Words in use ----

  datatype WordAddress = WordAddress(bits: bv32)

  function WordOf(x: bv32): WordAddress {
    WordAddress(x & 0x3FFF_FFFC)
  }

  predicate IsWord(x: bv32, w: bv32) {
    w == x & 0x3FFF_FFFC
  }

  lemma WordBits(x: bv32)
    ensures IsWord(x, WordOf(x).bits)
  {
  }

  lemma SameBits(x: bv32, a: bv32, u: bv32, v: bv32)
    requires IsWord(x, u) && IsWord(a, v) && SameWord(x, a)
    ensures u == v
  {
  }

  lemma BitsSame(x: bv32, a: bv32, u: bv32)
    requires IsWord(x, u) && IsWord(a, u)
    ensures SameWord(x, a)
  {
  }

  lemma WordOfIs(x: bv32, a: bv32)
    ensures SameWord(x, a) == (WordOf(x) == WordOf(a))
  {
    hide WordOf, IsWord, SameWord;
    WordBits(x);
    WordBits(a);
    if SameWord(x, a) {
      SameBits(x, a, WordOf(x).bits, WordOf(a).bits);
    }
    if WordOf(x) == WordOf(a) {
      BitsSame(x, a, WordOf(x).bits);
    }
  }

  function WordsOf(list: seq<bv32>): set<WordAddress> {
    set k | 0 <= k < |list| :: WordOf(list[k])
  }

  /** The words of the comparators that are not empty. */
  function Used(comps: seq<bv32>): set<WordAddress> {
    set k | 0 <= k < |comps| && comps[k] != 0 :: WordOf(comps[k])
  }

  /** How many comparators are not empty. */
  function Count(comps: seq<bv32>): (n: nat)
    ensures n <= |comps|
    ensures n == |comps| <==> forall i :: 0 <= i < |comps| ==> comps[i] != 0
  {
    if comps == [] then 0 else Count(comps[..|comps| - 1]) + if comps[|comps| - 1] != 0 then 1 else 0
  }

  lemma UsedSnoc(comps: seq<bv32>)
    requires comps != []
    ensures var init, last := comps[..|comps| - 1], comps[|comps| - 1];
            Used(comps) == Used(init) + if last != 0 then {WordOf(last)} else {}
  {
    hide WordOf;
    var init := comps[..|comps| - 1];
    forall w | w in Used(comps)
      ensures w in Used(init) || (comps[|comps| - 1] != 0 && w == WordOf(comps[|comps| - 1]))
    {
      var k :| 0 <= k < |comps| && comps[k] != 0 && WordOf(comps[k]) == w;
      assert k < |init| ==> init[k] == comps[k];
    }
  }

  /** A proper array uses one comparator a word. */
  lemma {:induction false} UsedCounts(comps: seq<bv32>)
    requires Proper(comps)
    ensures |Used(comps)| == Count(comps)
  {
    hide WordOf, SameWord, WellFormed;
    if comps == [] {
      assert Used(comps) == {};
    } else {
      var init, last := comps[..|comps| - 1], comps[|comps| - 1];
      UsedCounts(init);
      UsedSnoc(comps);
      if last != 0 && WordOf(last) in Used(init) {
        LastIsNew(comps);
      }
    }
  }

  lemma LastIsNew(comps: seq<bv32>)
    requires Proper(comps) && comps != [] && comps[|comps| - 1] != 0
    ensures WordOf(comps[|comps| - 1]) !in Used(comps[..|comps| - 1])
  {
    hide WordOf, SameWord, WellFormed;
    var init, last := comps[..|comps| - 1], comps[|comps| - 1];
    forall k | 0 <= k < |init| && init[k] != 0
      ensures WordOf(init[k]) != WordOf(last)
    {
      WordOfIs(init[k], last);
    }
  }

  lemma UsedIs(comps: seq<bv32>, a: bv32)
    requires Proper(comps) && !ZeroWord(a)
    ensures WordAt(comps, a) < |comps| <==> WordOf(a) in Used(comps)
    ensures WordAt(comps, a) < |comps| ==> comps[WordAt(comps, a)] != 0
  {
    hide WordOf, SameWord, WellFormed, ZeroWord;
    var m := WordAt(comps, a);
    if m < |comps| {
      ProperAt(comps, m);
      FreeIsEmpty(comps[m], a);
      WordOfIs(comps[m], a);
    } else {
      forall k | 0 <= k < |comps|
        ensures WordOf(comps[k]) != WordOf(a)
      {
        WordOfIs(comps[k], a);
      }
    }
  }

  lemma FreeIs(comps: seq<bv32>)
    requires Proper(comps)
    ensures FreeAt(comps) < |comps| <==> |Used(comps)| < |comps|
    ensures FreeAt(comps) < |comps| ==> comps[FreeAt(comps)] == 0
  {
    UsedCounts(comps);
    hide WellFormed, IsFree, Used;
    forall i | 0 <= i < |comps|
      ensures IsFree(comps[i]) <==> comps[i] == 0
    {
      ProperAt(comps, i);
      FreeMeansEmpty(comps[i]);
    }
  }

  lemma FreeMeansEmpty(x: bv32)
    requires WellFormed(x)
    ensures IsFree(x) == (x == 0)
  {
  }

  /** There is room for `a` exactly when its word and the words in use are no more than the comparators. */
  lemma RoomIs(comps: seq<bv32>, a: bv32)
    requires Proper(comps) && !ZeroWord(a)
    ensures CanSet(comps, a) <==> |Used(comps) + {WordOf(a)}| <= |comps|
    ensures |Used(comps)| <= |comps|
  {
    UsedIs(comps, a);
    FreeIs(comps);
    UsedCounts(comps);
    hide WordOf, Used, ZeroWord, Proper;
    if WordOf(a) in Used(comps) {
      assert Used(comps) + {WordOf(a)} == Used(comps);
    }
  }

  lemma UsedUpdate(comps: seq<bv32>, i: nat, y: bv32)
    requires i < |comps| && y != 0 && (comps[i] != 0 ==> WordOf(comps[i]) == WordOf(y))
    ensures Used(comps[i := y]) == Used(comps) + {WordOf(y)}
  {
    hide WordOf;
    var r := comps[i := y];
    forall w | w in Used(comps) + {WordOf(y)}
      ensures w in Used(r)
    {
      if w == WordOf(y) {
        assert r[i] == y;
      } else {
        var k :| 0 <= k < |comps| && comps[k] != 0 && WordOf(comps[k]) == w;
        assert r[k] == comps[k];
      }
    }
  }

  /** Setting `a` when there is room puts its word in use. */
  lemma UsedSetOne(comps: seq<bv32>, a: bv32)
    requires Proper(comps) && !ZeroWord(a) && CanSet(comps, a)
    ensures Used(SetOne(comps, a)) == Used(comps) + {WordOf(a)}
  {
    UsedIs(comps, a);
    FreeIs(comps);
    hide WordOf, Used, ZeroWord, WellFormed, SameWord, Join, Fresh, IsFree, Has, Same;
    var m, f := WordAt(comps, a), FreeAt(comps);
    if m < |comps| {
      ProperAt(comps, m);
      JoinComp(comps[m], a, a);
      WordOfIs(comps[m], a);
      WordOfIs(Join(comps[m], a), comps[m]);
      UsedUpdate(comps, m, Join(comps[m], a));
    } else {
      FreshComp(a, a);
      WordOfIs(Fresh(a), a);
      UsedUpdate(comps, f, Fresh(a));
    }
  }

  lemma WordsOfSnoc(list: seq<bv32>)
    requires list != []
    ensures WordsOf(list) == WordsOf(list[..|list| - 1]) + {WordOf(list[|list| - 1])}
  {
    hide WordOf;
    var init := list[..|list| - 1];
    forall w | w in WordsOf(list)
      ensures w in WordsOf(init) + {WordOf(list[|list| - 1])}
    {
      var k :| 0 <= k < |list| && WordOf(list[k]) == w;
      assert k < |init| ==> init[k] == list[k];
    }
  }

  lemma Larger(a: set<WordAddress>, b: set<WordAddress>)
    requires a <= b
    ensures |a| <= |b|
  {
    assert b == a + (b - a);
  }

  lemma AllProper(comps: seq<bv32>, list: seq<bv32>)
    requires Proper(comps) && NonZeroWords(list)
    ensures Proper(SetAll(comps, list)) && Proper(ClearAll(comps, list))
  {
    hide Proper, NonZeroWords, SetAll, ClearAll;
    SetAllSlots(comps, list, 0);
    ClearAllRepresents(comps, list, 0);
  }

  /** Every half-word of the list finds room at its turn exactly when the words in use before, with the words
      of the list, are no more than the comparators; they are then the words in use after. */
  lemma {:induction false} RoomForAll(comps: seq<bv32>, list: seq<bv32>)
    requires Proper(comps) && NonZeroWords(list)
    ensures AllFit(comps, list) <==> |Used(comps) + WordsOf(list)| <= |comps|
    ensures AllFit(comps, list) ==> Used(SetAll(comps, list)) == Used(comps) + WordsOf(list)
  {
    if list == [] {
      assert Used(comps) + WordsOf(list) == Used(comps);
      UsedCounts(comps);
    } else {
      var init, last := list[..|list| - 1], list[|list| - 1];
      RoomForAll(comps, init);
      AllProper(comps, init);
      WordsOfSnoc(list);
      hide Used, WordsOf, WordOf, Proper, SetOne, CanSet, ZeroWord;
      RoomForLast(SetAll(comps, init), last, Used(comps) + WordsOf(init), |comps|);
      assert Used(comps) + WordsOf(list) == Used(comps) + WordsOf(init) + {WordOf(last)};
      Larger(Used(comps) + WordsOf(init), Used(comps) + WordsOf(list));
    }
  }

  lemma RoomForLast(comps: seq<bv32>, a: bv32, words: set<WordAddress>, n: nat)
    requires Proper(comps) && !ZeroWord(a) && n == |comps|
    ensures Used(comps) == words ==>
              && (CanSet(comps, a) <==> |words + {WordOf(a)}| <= n)
              && (CanSet(comps, a) ==> Used(SetOne(comps, a)) == words + {WordOf(a)})
  {
    RoomIs(comps, a);
    hide Used, WordOf, Proper, SetOne, CanSet, ZeroWord;
    if CanSet(comps, a) {
      UsedSetOne(comps, a);
    }
  }

  /** A half-word the array stops at is in a word in use. */
  lemma UsedAfter(comps: seq<bv32>, b: bv32)
    requires Represents(comps, b)
    ensures WordOf(b) in Used(comps)
  {
    var i :| 0 <= i < |comps| && Has(comps[i], b);
    HasParts(comps[i], b);
    WordOfIs(comps[i], b);
    hide WordOf, SameWord, Has;
  }

  /** A set command is set union, for every array and list, exactly when the comparators suffice for the words. */
  lemma SetIsUnion(comps: seq<bv32>, list: seq<bv32>)
    requires Proper(comps) && NonZeroWords(list)
    ensures (forall b :: Represents(SetAll(comps, list), b) <==> Represents(comps, b) || Listed(list, b))
       <==> |Used(comps) + WordsOf(list)| <= |comps|
  {
    RoomForAll(comps, list);
    AllProper(comps, list);
    var r := SetAll(comps, list);
    if AllFit(comps, list) {
      forall b
        ensures Represents(r, b) <==> Represents(comps, b) || Listed(list, b)
      {
        SetAllRepresents(comps, list, b);
      }
    } else if forall b :: Represents(r, b) <==> Represents(comps, b) || Listed(list, b) {
      AllUsed(comps, list);
      UsedCounts(r);
      Larger(Used(comps) + WordsOf(list), Used(r));
    }
  }

  lemma AllUsed(comps: seq<bv32>, list: seq<bv32>)
    requires Proper(comps) && NonZeroWords(list)
    requires forall b :: Represents(SetAll(comps, list), b) <==> Represents(comps, b) || Listed(list, b)
    ensures Used(comps) + WordsOf(list) <= Used(SetAll(comps, list))
  {
    var r := SetAll(comps, list);
    AllProper(comps, list);
    hide WordOf, Same, SetAll, WellFormed, Has, SameWord, ZeroWord;
    forall w | w in WordsOf(list)
      ensures w in Used(r)
    {
      var k :| 0 <= k < |list| && WordOf(list[k]) == w;
      SameItself(list[k]);
      assert Listed(list, list[k]);
      UsedAfter(r, list[k]);
    }
    forall w | w in Used(comps)
      ensures w in Used(r)
    {
      var k :| 0 <= k < |comps| && comps[k] != 0 && WordOf(comps[k]) == w;
      ProperAt(comps, k);
      HasSome(comps[k]);
      var b :| Has(comps[k], b);
      assert Represents(comps, b);
      UsedAfter(r, b);
      HasParts(comps[k], b);
      WordOfIs(comps[k], b);
    }
  }

  lemma SameItself(a: bv32)
    ensures Same(a, a)
  {
  }

  // ---- Runs ----

  datatype Command = Command(setting: bool, breakpoints: seq<bv32>)

  function Apply(comps: seq<bv32>, c: Command): seq<bv32> {
    if c.setting then SetAll(comps, c.breakpoints) else ClearAll(comps, c.breakpoints)
  }

  function RunCommands(comps: seq<bv32>, cs: seq<Command>): seq<bv32> {
    if cs == [] then comps else Apply(RunCommands(comps, cs[..|cs| - 1]), cs[|cs| - 1])
  }

  // What the commands mean, without comparators: a finite set of half-words.

  datatype HalfWord = HalfWord(word: WordAddress, high: bool)

  function HalfOf(a: bv32): HalfWord {
    HalfWord(WordOf(a), a & 0x02 != 0)
  }

  lemma HalfOfIs(a: bv32, b: bv32)
    ensures Same(a, b) == (HalfOf(a) == HalfOf(b))
  {
    WordOfIs(a, b);
    SameParts(a, b);
    hide WordOf, SameWord, Same, SameHalf;
    SameHalfIs(a, b);
  }

  lemma SameParts(a: bv32, b: bv32)
    ensures Same(a, b) == (SameWord(a, b) && SameHalf(a, b))
  {
    hide SameWord, SameHalf;
  }

  predicate High(a: bv32) {
    a & 0x02 != 0
  }

  lemma SameHalfHigh(a: bv32, b: bv32)
    requires SameHalf(a, b)
    ensures High(a) == High(b)
  {
  }

  lemma HighSameHalf(a: bv32, b: bv32)
    requires High(a) == High(b)
    ensures SameHalf(a, b)
  {
  }

  lemma SameHalfIs(a: bv32, b: bv32)
    ensures SameHalf(a, b) == (HalfOf(a).high == HalfOf(b).high)
  {
    HighIs(a);
    HighIs(b);
    hide SameHalf, High, HalfOf;
    if SameHalf(a, b) {
      SameHalfHigh(a, b);
    }
    if High(a) == High(b) {
      HighSameHalf(a, b);
    }
  }

  lemma HighIs(a: bv32)
    ensures HalfOf(a).high == High(a)
  {
    hide WordOf;
  }

  function HalvesOf(list: seq<bv32>): set<HalfWord> {
    set k | 0 <= k < |list| :: HalfOf(list[k])
  }

  lemma ListedIs(list: seq<bv32>, b: bv32)
    ensures Listed(list, b) == (HalfOf(b) in HalvesOf(list))
  {
    hide HalfOf, Same;
    if k :| 0 <= k < |list| && Same(list[k], b) {
      HalfOfIs(list[k], b);
    }
    if k :| 0 <= k < |list| && HalfOf(list[k]) == HalfOf(b) {
      HalfOfIs(list[k], b);
    }
  }

  /** The half-words set after the commands. */
  function MemberSet(cs: seq<Command>): set<HalfWord> {
    if cs == [] then {}
    else
      var before, c := MemberSet(cs[..|cs| - 1]), cs[|cs| - 1];
      if c.setting then before + HalvesOf(c.breakpoints) else before - HalvesOf(c.breakpoints)
  }

  function Words(s: set<HalfWord>): set<WordAddress> {
    set h | h in s :: h.word
  }

  /** No set command names word zero. */
  ghost predicate NonZeroCommands(cs: seq<Command>) {
    forall i :: 0 <= i < |cs| && cs[i].setting ==> NonZeroWords(cs[i].breakpoints)
  }

  /** At every set command the words of the half-words set so far, with the words of its list, are no more
      than `n`: a condition on the commands alone. */
  ghost predicate Roomy(n: nat, cs: seq<Command>) {
    cs == [] ||
    var init, c := cs[..|cs| - 1], cs[|cs| - 1];
    && Roomy(n, init)
    && (c.setting ==> |Words(MemberSet(init)) + WordsOf(c.breakpoints)| <= n)
  }

  /** The array stops at exactly the half-words of the set. */
  ghost predicate Shows(comps: seq<bv32>, s: set<HalfWord>) {
    && (forall b :: Represents(comps, b) == (HalfOf(b) in s))
    && (forall h :: h in s ==> exists b :: HalfOf(b) == h)
  }

  /** Then the words in use are the words of the set. */
  lemma WordsInUse(comps: seq<bv32>, s: set<HalfWord>)
    requires Proper(comps) && Shows(comps, s)
    ensures Used(comps) == Words(s)
  {
    hide Proper, WordOf, HalfOf, Represents, Has, SameWord, WellFormed;
    forall w | w in Used(comps)
      ensures w in Words(s)
    {
      var k :| 0 <= k < |comps| && comps[k] != 0 && WordOf(comps[k]) == w;
      var b := HalfInUse(comps, k);
      HalfWordOf(b);
      assert HalfOf(b) in s;
    }
    forall w | w in Words(s)
      ensures w in Used(comps)
    {
      var h :| h in s && h.word == w;
      var b :| HalfOf(b) == h;
      UsedAfter(comps, b);
      HalfWordOf(b);
    }
  }

  lemma HalfWordOf(b: bv32)
    ensures HalfOf(b).word == WordOf(b)
  {
  }

  lemma HalfInUse(comps: seq<bv32>, k: nat) returns (b: bv32)
    requires Proper(comps) && k < |comps| && comps[k] != 0
    ensures Represents(comps, b) && WordOf(b) == WordOf(comps[k])
  {
    ProperAt(comps, k);
    HasSome(comps[k]);
    hide WordOf, Has, SameWord, WellFormed;
    b :| Has(comps[k], b);
    HasParts(comps[k], b);
    WordOfIs(comps[k], b);
  }

  lemma ShowsApplied(comps: seq<bv32>, s: set<HalfWord>, c: Command)
    requires Proper(comps) && Shows(comps, s)
    requires c.setting ==> NonZeroWords(c.breakpoints) && |Used(comps) + WordsOf(c.breakpoints)| <= |comps|
    ensures Shows(Apply(comps, c), if c.setting then s + HalvesOf(c.breakpoints) else s - HalvesOf(c.breakpoints))
  {
    hide SetAll, ClearAll, Listed, Represents, Proper, NonZeroWords, Used, WordsOf, HalfOf;
    if c.setting {
      RoomForAll(comps, c.breakpoints);
    }
    forall b
      ensures Represents(Apply(comps, c), b)
           == (HalfOf(b) in if c.setting then s + HalvesOf(c.breakpoints) else s - HalvesOf(c.breakpoints))
    {
      ListedIs(c.breakpoints, b);
      if c.setting {
        SetAllRepresents(comps, c.breakpoints, b);
      } else {
        ClearAllRepresents(comps, c.breakpoints, b);
      }
    }
  }

  /** Over any sequence of commands on empty comparators the array stays proper, and while the words fit it
      stops at exactly the half-words set and not cleared since. */
  lemma {:induction false} RunRepresents(comps: seq<bv32>, cs: seq<Command>)
    requires forall i :: 0 <= i < |comps| ==> comps[i] == 0
    requires NonZeroCommands(cs)
    ensures |RunCommands(comps, cs)| == |comps| && Proper(RunCommands(comps, cs))
    ensures Roomy(|comps|, cs) ==> Shows(RunCommands(comps, cs), MemberSet(cs))
  {
    if cs == [] {
      EmptyProper(comps);
    } else {
      var init, c := cs[..|cs| - 1], cs[|cs| - 1];
      RunRepresents(comps, init);
      var s := RunCommands(comps, init);
      if c.setting {
        AllProper(s, c.breakpoints);
      } else {
        ClearAllRepresents(s, c.breakpoints, 0);
      }
      hide SetAll, ClearAll, Proper, NonZeroWords, Used, WordsOf, Words, Shows, HalvesOf;
      if Roomy(|comps|, cs) {
        WordsInUse(s, MemberSet(init));
        ShowsApplied(s, MemberSet(init), c);
      }
    }
  }

  lemma EmptyProper(comps: seq<bv32>)
    requires forall i :: 0 <= i < |comps| ==> comps[i] == 0
    ensures Proper(comps) && forall b :: !Represents(comps, b)
  {
    forall b
      ensures !Has(0, b)
    {
      NothingInEmpty(b);
    }
    hide SameWord, Has;
  }

  // ---- What the core stops at ----

  /** Every address set is one that code can be at. */
  ghost predicate CodeCommands(cs: seq<Command>) {
    forall i, k :: 0 <= i < |cs| && cs[i].setting && 0 <= k < |cs[i].breakpoints| ==> cs[i].breakpoints[k] < 0x2000_0000
  }

  lemma {:induction false} MemberListed(cs: seq<Command>, h: HalfWord) returns (a: bv32)
    requires CodeCommands(cs) && h in MemberSet(cs)
    ensures a < 0x2000_0000 && HalfOf(a) == h
  {
    hide HalfOf;
    var init, c := cs[..|cs| - 1], cs[|cs| - 1];
    if h in MemberSet(init) {
      a := MemberListed(init, h);
    } else {
      var k :| 0 <= k < |c.breakpoints| && HalfOf(c.breakpoints[k]) == h;
      a := c.breakpoints[k];
    }
  }

  lemma CodeBits(x: bv32, a: bv32)
    requires SameWord(x, a) && a < 0x2000_0000
    ensures x & 0x2000_0000 == 0
  {
  }

  lemma NothingElse()
    ensures 0 as bv32 & 0x2000_0000 == 0
  {
  }

  lemma InCode(comps: seq<bv32>, cs: seq<Command>, i: nat)
    requires Proper(comps) && Shows(comps, MemberSet(cs)) && CodeCommands(cs) && i < |comps|
    ensures comps[i] & 0x2000_0000 == 0
  {
    if comps[i] == 0 {
      NothingElse();
    } else {
      var b := HalfInUse(comps, i);
      hide WordOf, HalfOf, SameWord, Represents, Proper;
      var a := MemberListed(cs, HalfOf(b));
      HalfWordOf(a);
      HalfWordOf(b);
      WordOfIs(comps[i], a);
      CodeBits(comps[i], a);
    }
  }

  /** After any sequence of commands on code addresses for which the comparators suffice, the unit stops a fetch
      exactly at the half-words set and not cleared since. */
  lemma RunStops(comps: seq<bv32>, cs: seq<Command>, pc: bv32)
    requires forall i :: 0 <= i < |comps| ==> comps[i] == 0
    requires NonZeroCommands(cs) && CodeCommands(cs) && Roomy(|comps|, cs) && pc < 0x2000_0000
    ensures var r := RunCommands(comps, cs);
            (exists i :: 0 <= i < |r| && Breakwatch.Revision0Stops(r[i], pc)) <==> HalfOf(pc) in MemberSet(cs)
  {
    RunRepresents(comps, cs);
    var r := RunCommands(comps, cs);
    hide NonZeroCommands, Roomy, RunCommands, HalfOf, MemberSet, Proper, Has, Breakwatch.Revision0Stops;
    forall i | 0 <= i < |r|
      ensures Has(r[i], pc) <==> Breakwatch.Revision0Stops(r[i], pc)
    {
      InCode(r, cs, i);
      ProperAt(r, i);
      HasIsStop(r[i], pc);
    }
    assert Represents(r, pc) == (HalfOf(pc) in MemberSet(cs));
  }
}
