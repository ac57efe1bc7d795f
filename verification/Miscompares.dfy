/** bufdisp's navigation over miscompares: `f` goes to the first, `n` to the next group, `e` to the
    end of the group.  diff[i] is 1 where the two buffers differ and 0 where they agree. */
module Miscompares {
  const SCREEN_SIZ: int := 20
  const DISP_SIZ: int := 8

  /** A miscompare with at least `range` good bytes, or nothing but good bytes, before it. */
  ghost predicate IsStart(d: seq<int>, range: int, k: int) {
    0 <= k < |d| && d[k] != 0 && forall j :: 0 <= j < k && k - range <= j ==> d[j] == 0
  }

  /** The starts from position `from` on, in increasing order. */
  ghost function Starts(d: seq<int>, range: int, from: nat): (ks: seq<nat>)
    decreases |d| - from
  {
    if from >= |d| then []
    else (if IsStart(d, range, from) then [from] else []) + Starts(d, range, from + 1)
  }

  /** Starts lists every start exactly once, in increasing order. */
  lemma {:induction false} StartsMeaning(d: seq<int>, range: int, from: nat)
    ensures forall k :: k in Starts(d, range, from) <==> from <= k && IsStart(d, range, k)
    ensures forall i, j :: 0 <= i < j < |Starts(d, range, from)| ==>
      Starts(d, range, from)[i] < Starts(d, range, from)[j]
    decreases |d| - from
  {
    if from < |d| {
      StartsMeaning(d, range, from + 1);
      var later := Starts(d, range, from + 1);
      forall j | 0 <= j < |later| ensures from < later[j] {
        assert later[j] in later;
      }
    }
  }

  // ---------- what the commands compute ----------

  /** First miscompare at or after `from`, or -1. */
  function FirstOne(d: seq<int>, from: nat): (k: int)
    ensures k == -1 ==> forall j :: from <= j < |d| ==> d[j] != 1
    ensures k != -1 ==> from <= k < |d| && d[k] == 1 && forall j :: from <= j < k ==> d[j] != 1
    decreases |d| - from
  {
    if from >= |d| then -1 else if d[from] == 1 then from else FirstOne(d, from + 1)
  }

  /** same_count after byte i of a scan that began at s. */
  function SameCount(d: seq<int>, s: nat, i: int): (n: nat)
    requires i < |d|
    ensures n <= if s <= i then i - s + 1 else 0
    decreases i
  {
    if i < s then 0 else if d[i] == 0 then SameCount(d, s, i - 1) + 1 else 0
  }

  /** First byte at or after i at which the count equals the range, or -1. */
  function Trigger(d: seq<int>, range: int, s: nat, i: nat): (t: int)
    requires s <= i
    ensures t == -1 ==> forall j :: i <= j < |d| ==> SameCount(d, s, j) != range
    ensures t != -1 ==>
      i <= t < |d| && SameCount(d, s, t) == range && forall j :: i <= j < t ==> SameCount(d, s, j) != range
    decreases |d| - i
  {
    if i >= |d| then -1 else if SameCount(d, s, i) == range then i else Trigger(d, range, s, i + 1)
  }

  /** Where `n` goes from s, or -1. */
  function NextFrom(d: seq<int>, range: int, s: nat): (k: int)
    ensures k != -1 ==> s < k < |d| && d[k] == 1
  {
    var t := Trigger(d, range, s, s);
    if t == -1 then -1 else FirstOne(d, t + 1)
  }

  // ---------- why this enumerates the groups ----------

  predicate ZeroOne(d: seq<int>) {
    forall i :: 0 <= i < |d| ==> d[i] == 0 || d[i] == 1
  }

  /** The counted bytes are good, and the byte before them is not. */
  lemma {:induction false} SameCountMeaning(d: seq<int>, s: nat, i: int)
    requires s - 1 <= i < |d|
    ensures forall j :: i - SameCount(d, s, i) < j <= i ==> d[j] == 0
    ensures SameCount(d, s, i) < i - s + 1 ==> d[i - SameCount(d, s, i)] != 0
    decreases i
  {
    if s <= i && d[i] == 0 {
      SameCountMeaning(d, s, i - 1);
    }
  }

  /** A count reaches every smaller value on its way up. */
  lemma {:induction false} SameCountRises(d: seq<int>, s: nat, i: int, c: nat)
    requires s <= i < |d| && c < SameCount(d, s, i)
    ensures s - 1 <= i - (SameCount(d, s, i) - c) && SameCount(d, s, i - (SameCount(d, s, i) - c)) == c
    decreases i
  {
    if SameCount(d, s, i) > c + 1 {
      SameCountRises(d, s, i - 1, c);
    }
  }

  lemma {:induction false} SameCountOverGood(d: seq<int>, s: nat, t: int, k: int)
    requires s <= t <= k < |d| && forall j :: t < j <= k ==> d[j] == 0
    ensures SameCount(d, s, k) == SameCount(d, s, t) + (k - t)
    decreases k
  {
    if t < k {
      SameCountOverGood(d, s, t, k - 1);
    }
  }

  /** Seen from a miscompare s, a later miscompare starts a group exactly when the scan has
      counted `range` good bytes before it. */
  lemma StartIffCounted(d: seq<int>, range: int, s: nat, k: nat)
    requires ZeroOne(d) && 0 <= range && s < k < |d| && d[s] == 1 && d[k] == 1
    ensures IsStart(d, range, k) <==> SameCount(d, s, k - 1) >= range
  {
    SameCountMeaning(d, s, k - 1);
    var n := SameCount(d, s, k - 1);
    SameCountExcludesStart(d, s, k - 1);
    if n < range {
      assert d[k - 1 - n] != 0;
    }
  }

  lemma {:induction false} SameCountExcludesStart(d: seq<int>, s: nat, i: int)
    requires s <= i < |d| && d[s] != 0
    ensures SameCount(d, s, i) <= i - s
    decreases i
  {
    if s < i {
      SameCountExcludesStart(d, s, i - 1);
    }
  }

  /** No group starts between s and the trigger. */
  lemma NoStartBeforeTrigger(d: seq<int>, range: int, s: nat, k: nat)
    requires ZeroOne(d) && 0 <= range && s < k < |d| && d[s] == 1 && d[k] == 1
    requires var t := Trigger(d, range, s, s); t == -1 || k <= t
    ensures !IsStart(d, range, k)
  {
    StartIffCounted(d, range, s, k);
    var c := SameCount(d, s, k - 1);
    if c > range {
      SameCountRises(d, s, k - 1, range);
      SameCountExcludesStart(d, s, k - 1);
    }
  }

  lemma FirstAfterTriggerStarts(d: seq<int>, range: int, s: nat)
    requires ZeroOne(d) && 0 <= range && s < |d| && d[s] == 1
    requires NextFrom(d, range, s) != -1
    ensures IsStart(d, range, NextFrom(d, range, s))
  {
    var t, k := Trigger(d, range, s, s), NextFrom(d, range, s);
    SameCountOverGood(d, s, t, k - 1);
    StartIffCounted(d, range, s, k);
  }

  /** From a miscompare, `n` goes to the next start of a group, for any range of 0 or more. */
  lemma NextIsNextStart(d: seq<int>, range: int, s: nat)
    requires ZeroOne(d) && 0 <= range && s < |d| && d[s] == 1
    ensures var k := NextFrom(d, range, s);
      && (k != -1 ==> IsStart(d, range, k))
      && forall j :: s < j < (if k == -1 then |d| else k) ==> !IsStart(d, range, j)
  {
    var t, k := Trigger(d, range, s, s), NextFrom(d, range, s);
    if k != -1 {
      FirstAfterTriggerStarts(d, range, s);
    }
    forall j | s < j < (if k == -1 then |d| else k) ensures !IsStart(d, range, j) {
      if d[j] == 1 {
        NoStartBeforeTrigger(d, range, s, j);
      }
    }
  }

  /** The positions visited by `n` pressed until it reports no more, from s. */
  function VisitedFrom(d: seq<int>, range: int, s: nat): (ks: seq<nat>)
    decreases |d| - s
  {
    var k := NextFrom(d, range, s);
    if k == -1 then [] else [k] + VisitedFrom(d, range, k)
  }

  lemma {:induction false} StartsSkip(d: seq<int>, range: int, from: nat, k: nat)
    requires from <= k && forall j :: from <= j < k ==> !IsStart(d, range, j)
    ensures Starts(d, range, from) == Starts(d, range, k)
    decreases k - from
  {
    if from < k {
      StartsSkip(d, range, from + 1, k);
    }
  }

  lemma StartsFirst(d: seq<int>, range: int, k: nat)
    requires IsStart(d, range, k)
    ensures Starts(d, range, k) == [k] + Starts(d, range, k + 1)
  {
  }

  lemma {:induction false} VisitedAreStarts(d: seq<int>, range: int, s: nat)
    requires ZeroOne(d) && 0 <= range && s < |d| && d[s] == 1
    ensures VisitedFrom(d, range, s) == Starts(d, range, s + 1)
    decreases |d| - s
  {
    NextIsNextStart(d, range, s);
    var k := NextFrom(d, range, s);
    if k == -1 {
      StartsSkip(d, range, s + 1, |d|);
    } else {
      StartsSkip(d, range, s + 1, k);
      StartsFirst(d, range, k);
      VisitedAreStarts(d, range, k);
    }
  }

  /** The positions visited by `f` and then `n` over and over. */
  function Tour(d: seq<int>, range: int): (ks: seq<nat>) {
    var k := FirstOne(d, 0);
    if k == -1 then [] else [k] + VisitedFrom(d, range, k)
  }

  lemma NegativeRangeStays(d: seq<int>, range: int, s: nat)
    requires range < 0
    ensures NextFrom(d, range, s) == -1
  {
    assert Trigger(d, range, s, s) == -1;
  }

  lemma StartsAfterLastMiscompare(d: seq<int>, range: int, from: nat)
    requires ZeroOne(d)
    ensures FirstOne(d, from) == -1 ==> Starts(d, range, from) == []
    ensures range < 0 && FirstOne(d, from) != -1 ==> Starts(d, range, from) != []
  {
    StartsMeaning(d, range, from);
    if FirstOne(d, from) == -1 && from < |d| {
      StartsSkip(d, range, from, |d|);
    }
    if range < 0 && FirstOne(d, from) != -1 {
      assert IsStart(d, range, FirstOne(d, from));
    }
  }

  /** `f` and then `n` over and over visit every group start exactly once, in increasing order, and
      stop; with no miscompare at all there is nothing to visit.  This holds for every range of 0
      or more.  Command s says that it resets a range below 1 to 24 but stores the range it was
      given, and with a negative one the tour is complete only if there is at most one miscompare. */
  lemma TourIsCompleteIff(d: seq<int>, range: int)
    requires ZeroOne(d)
    ensures Tour(d, range) == Starts(d, range, 0)
       <==> (0 <= range || FirstOne(d, 0) == -1 || FirstOne(d, FirstOne(d, 0) + 1) == -1)
  {
    var k := FirstOne(d, 0);
    if k == -1 {
      StartsAfterLastMiscompare(d, range, 0);
    } else {
      StartsSkip(d, range, 0, k);
      StartsFirst(d, range, k);
      if 0 <= range {
        VisitedAreStarts(d, range, k);
      } else {
        NegativeRangeStays(d, range, k);
        StartsAfterLastMiscompare(d, range, k + 1);
        assert VisitedFrom(d, range, k) == [] && Tour(d, range) == [k];
      }
    }
  }

  /** What `e` shows when a gap follows: the last miscompare of the group that s is in. */
  lemma EndOfGroup(d: seq<int>, range: int, s: nat)
    requires ZeroOne(d) && 0 <= range && s < |d| && d[s] == 1
    ensures var t := Trigger(d, range, s, s);
      if t == -1 then forall j :: s < j < |d| ==> !IsStart(d, range, j)
      else
        && s <= t - range && d[t - range] == 1
        && (forall j :: t - range < j <= t ==> d[j] == 0)
        && (forall j :: s < j <= t ==> !IsStart(d, range, j))
  {
    var t := Trigger(d, range, s, s);
    forall j | s < j < (if t == -1 then |d| else t + 1) ensures !IsStart(d, range, j) {
      if d[j] == 1 {
        NoStartBeforeTrigger(d, range, s, j);
      }
    }
    if t != -1 {
      SameCountMeaning(d, s, t);
      SameCountExcludesStart(d, s, t);
    }
  }

  // ---------- the commands ----------

  /** What sscanf finds after the letter of a command. */
  datatype Input = Number(n: int) | NoNumber

  datatype Message = NoMessage | NoMiscompare | NoOthers | EndOfData | RangeReset

  function TruncDiv(a: int, b: int): (q: int)
    requires b > 0
    ensures a >= 0 ==> OnLine(a, q, b)
    ensures a < 0 ==> (q - 1) * b < a <= q * b
  {
    if a < 0 then -((-a) / b) else a / b
  }

  /** Byte i is on that line of len bytes each. */
  predicate OnLine(i: int, line: int, len: int) {
    line * len <= i < (line + 1) * len
  }

  class BufDisp {
    const diff: array<int>
    var saveIndex: nat
    var dispLineStart: int
    var lineLen: int
    var diffRange: int
    var message: Message

    constructor (diff: array<int>)
      ensures this.diff == diff && saveIndex == 0 && dispLineStart == 0 && lineLen == DISP_SIZ && diffRange == 24
    {
      this.diff := diff;
      saveIndex, dispLineStart, lineLen, diffRange, message := 0, 0, DISP_SIZ, 24, NoMessage;
    }

    /** The loop of f, and the inner loop of n: go to the first miscompare from a position on.  Its
        index ends one past the size if it found one. */
    method Seek(from: nat) returns (i: nat)
      requires lineLen > 0 && from <= diff.Length
      modifies this`saveIndex, this`dispLineStart
      ensures var k := FirstOne(diff[..], from);
        if k == -1 then
          saveIndex == old(saveIndex) && dispLineStart == old(dispLineStart) && i == diff.Length
        else
          saveIndex == k && dispLineStart == k / lineLen && i == diff.Length + 1
    {
      i := from;
      ghost var k := FirstOne(diff[..], from);
      while i <= diff.Length - 1
        invariant from <= i <= diff.Length + 1
        invariant i <= diff.Length ==> FirstOne(diff[..], i) == k
        invariant i <= diff.Length ==> saveIndex == old(saveIndex) && dispLineStart == old(dispLineStart)
        invariant i == diff.Length + 1 ==> k != -1 && saveIndex == k && dispLineStart == k / lineLen
        decreases diff.Length + 1 - i
      {
        if diff[i] == 1 {
          dispLineStart := i / lineLen;
          saveIndex := i;
          i := diff.Length;
        }
        i := i + 1;
      }
    }

    /** Command f. */
    method FindFirst()
      requires lineLen > 0
      modifies this`saveIndex, this`dispLineStart, this`message
      ensures var k := FirstOne(diff[..], 0);
        if k == -1 then
          saveIndex == old(saveIndex) && dispLineStart == old(dispLineStart) && message == NoMiscompare
        else
          saveIndex == k && dispLineStart == k / lineLen && message == NoMessage
    {
      message := NoMessage;
      var i := Seek(0);
      if i == diff.Length {
        message := NoMiscompare;
      }
    }

    /** Command n. */
    method FindNext()
      requires lineLen > 0
      modifies this`saveIndex, this`dispLineStart, this`message
      ensures var k := NextFrom(diff[..], diffRange, old(saveIndex));
        if k == -1 then
          saveIndex == old(saveIndex) && dispLineStart == old(dispLineStart) && message == NoOthers
        else
          saveIndex == k && dispLineStart == k / lineLen && message == NoMessage
    {
      message := NoMessage;
      var i, gap := ScanForGap();
      var flag := false;
      if gap {
        i := Seek(i + 1);
        flag := i > diff.Length;
      }
      if i >= diff.Length && !flag {
        message := NoOthers;
      }
    }

    /** The counting scan that n and e begin with: stops at the byte that completes a gap. */
    method ScanForGap() returns (i: nat, found: bool)
      ensures var t := Trigger(diff[..], diffRange, saveIndex, saveIndex);
        if t == -1 then !found && i >= diff.Length else found && i == t
    {
      var sameCount := 0;
      i := saveIndex;
      while i <= diff.Length - 1
        invariant saveIndex <= i && (i <= diff.Length || i == saveIndex)
        invariant i <= diff.Length ==> sameCount == SameCount(diff[..], saveIndex, i - 1)
        invariant Trigger(diff[..], diffRange, saveIndex, i) == Trigger(diff[..], diffRange, saveIndex, saveIndex)
      {
        if diff[i] == 0 {
          sameCount := sameCount + 1;
        } else {
          sameCount := 0;
        }
        if sameCount == diffRange {
          return i, true;
        }
        i := i + 1;
      }
      found := false;
    }

    /** Command e. */
    method FindEnd()
      requires lineLen > 0
      modifies this`dispLineStart, this`message
      ensures var t := Trigger(diff[..], diffRange, saveIndex, saveIndex);
        if t == -1 then
          message == EndOfData && dispLineStart == LastScreen()
        else
          && message == NoMessage && dispLineStart == TruncDiv(t - diffRange, lineLen)
          && (t >= diffRange ==> OnLine(t - diffRange, dispLineStart, lineLen))
    {
      message := NoMessage;
      var i, found := ScanForGap();
      if found {
        dispLineStart := TruncDiv(i - diffRange, lineLen);
      } else {
        dispLineStart := TruncDiv(diff.Length - 1, lineLen) - SCREEN_SIZ + 1;
        if dispLineStart < 0 {
          dispLineStart := 0;
        }
        message := EndOfData;
      }
    }

    /** Command s.  If it ends without a message, f and then n over and over visit every group. */
    method SetRange(input: Input)
      modifies this`diffRange, this`message
      ensures diffRange == if input.Number? then input.n else old(diffRange)
      ensures message == NoMessage || message == RangeReset
      ensures message == RangeReset <==> diffRange < 1
      ensures message == NoMessage && ZeroOne(diff[..]) ==> Tour(diff[..], diffRange) == Starts(diff[..], diffRange, 0)
    {
      message := NoMessage;
      if input.Number? {
        diffRange := input.n;
      }
      if diffRange < 1 {
        message := RangeReset;
      }
      if ZeroOne(diff[..]) {
        TourIsCompleteIff(diff[..], diffRange);
      }
    }

    /** n once more, as a step of the tour over the data d. */
    method FindOther(ghost d: seq<int>) returns (found: bool)
      requires lineLen > 0 && d == diff[..]
      modifies this`saveIndex, this`dispLineStart, this`message
      ensures found ==> old(saveIndex) < saveIndex < |d|
      ensures VisitedFrom(d, diffRange, old(saveIndex))
           == if found then [saveIndex] + VisitedFrom(d, diffRange, saveIndex) else []
      ensures !found ==> message == NoOthers && saveIndex == old(saveIndex)
    {
      FindNext();
      found := message == NoMessage;
    }

    /** n until it reports that there are no others. */
    method FindOthers() returns (visited: seq<nat>)
      requires lineLen > 0
      modifies this`saveIndex, this`dispLineStart, this`message
      ensures visited == VisitedFrom(diff[..], diffRange, old(saveIndex)) && message == NoOthers
      ensures saveIndex == if visited == [] then old(saveIndex) else visited[|visited| - 1]
      decreases diff.Length - saveIndex
    {
      var found := FindOther(diff[..]);
      if !found {
        return [];
      }
      var k := saveIndex;
      visited := FindOthers();
      visited := [k] + visited;
    }

    /** s, f and then n until there are no others: the positions shown are all the starts of groups
        in increasing order, exactly if the range in force is not negative or there is at most one
        miscompare. */
    method VisitGroups(input: Input) returns (visited: seq<nat>)
      requires lineLen > 0 && ZeroOne(diff[..])
      modifies this`saveIndex, this`dispLineStart, this`diffRange, this`message
      ensures diffRange == if input.Number? then input.n else old(diffRange)
      ensures visited == Tour(diff[..], diffRange)
      ensures visited != [] ==> saveIndex == visited[|visited| - 1] && message == NoOthers
      ensures visited == [] ==> saveIndex == old(saveIndex) && message == NoMiscompare
      ensures visited == Starts(diff[..], diffRange, 0)
         <==> (0 <= diffRange || FirstOne(diff[..], 0) == -1 || FirstOne(diff[..], FirstOne(diff[..], 0) + 1) == -1)
    {
      SetRange(input);
      FindFirst();
      visited := [];
      if message == NoMessage {
        visited := [saveIndex];
        var others := FindOthers();
        visited := visited + others;
      }
      TourIsCompleteIff(diff[..], diffRange);
    }

    ghost function LastScreen(): (line: int)
      requires lineLen > 0
      reads this`lineLen
      ensures line >= 0
      ensures var last := line + SCREEN_SIZ - 1;
        && (diff.Length > 0 ==> diff.Length - 1 < (last + 1) * lineLen)
        && (line > 0 ==> OnLine(diff.Length - 1, last, lineLen))
    {
      var line := TruncDiv(diff.Length - 1, lineLen) - SCREEN_SIZ + 1;
      if line < 0 then 0 else line
    }
  }
}
