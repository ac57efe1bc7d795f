/** Suspend and activate: device lists with trailing-* wildcards, mapped onto the semaphore array
    of an ECG.  The array starts with the global semaphores; each device then has three of its
    own, the first stopping it while not 0, the second showing that it erred out. */
module Devices {
  import opened Seqs
  import opened CText
  import opened Schedule

  const SEM_PER_EXER: nat := 3
  const SEM_GLOBAL: nat := 6

  function RunSlot(i: nat): (s: nat) {
    i * SEM_PER_EXER + SEM_GLOBAL
  }

  function ErrorSlot(i: nat): (s: nat) {
    i * SEM_PER_EXER + SEM_GLOBAL + 1
  }

  // ---------- which devices a list means ----------

  predicate Wildcard(t: string) {
    t != "" && t[|t| - 1] == '*'
  }

  predicate StartsWith(name: string, p: string) {
    |p| <= |name| && name[..|p|] == p
  }

  /** A word of the list names one device, or with a trailing * all devices it is a prefix of. */
  predicate Matches(t: string, name: string) {
    if Wildcard(t) then StartsWith(name, t[..|t| - 1]) else t == name
  }

  /** The wildcard p* means the names that are p and something after it; on its own * means all. */
  lemma WildcardMeaning(p: string, name: string)
    ensures Matches(p + "*", name) <==> exists rest :: name == p + rest
    ensures Matches("*", name)
  {
    assert (p + "*")[..|p|] == p;
    if Matches(p + "*", name) {
      assert name == p + name[|p|..];
    }
    assert "*"[..0] == "";
  }

  ghost predicate Selected(list: string, name: string) {
    exists t :: t in Tokens(list, {' '}) && Matches(t, name)
  }

  /** Device names are single words. */
  ghost predicate Names(names: seq<string>) {
    Distinct(names) && forall i :: 0 <= i < |names| ==> names[i] != "" && Free(names[i], {' '})
  }

  // ---------- wildcard expansion ----------

  /** The words a text is built from by strcat of each word and a blank. */
  function Spaced(ws: seq<string>): (s: string) {
    Join(ws, seq(|ws|, i => ' '))
  }

  predicate Words(ws: seq<string>) {
    forall i :: 0 <= i < |ws| ==> ws[i] != "" && Free(ws[i], {' '})
  }

  lemma TokensOfSpaced(ws: seq<string>)
    requires Words(ws)
    ensures Tokens(Spaced(ws), {' '}) == ws
  {
    TokensOfJoin(ws, seq(|ws|, i => ' '), {' '});
  }

  /** The device names that a wildcard stands for, in device order. */
  function Matching(names: seq<string>, t: string): (ms: seq<string>) {
    if names == [] then [] else
    var n := |names| - 1;
    Matching(names[..n], t) + if Matches(t, names[n]) then [names[n]] else []
  }

  /** The names come in device order: first those among the first k devices, then the others. */
  lemma {:induction false} MatchingInOrder(names: seq<string>, t: string, k: nat)
    requires k <= |names|
    ensures Matching(names, t) == Matching(names[..k], t) + Matching(names[k..], t)
    decreases |names|
  {
    if k == |names| {
      assert names[..k] == names && names[k..] == [];
    } else {
      var n := |names| - 1;
      MatchingInOrder(names[..n], t, k);
      assert names[..n][..k] == names[..k];
      assert names[..n][k..] == names[k..][..n - k] && names[k..][n - k] == names[n];
    }
  }

  lemma {:induction false} MatchingMeaning(names: seq<string>, t: string, m: string)
    ensures m in Matching(names, t) <==> m in names && Matches(t, m)
  {
    if names != [] {
      var n := |names| - 1;
      assert names == names[..n] + [names[n]];
      MatchingMeaning(names[..n], t, m);
    }
  }

  /** The words of the expanded list. */
  function Expanded(names: seq<string>, ts: seq<string>): (ws: seq<string>) {
    if ts == [] then [] else
    var n := |ts| - 1;
    Expanded(names, ts[..n]) + if Wildcard(ts[n]) then Matching(names, ts[n]) else [ts[n]]
  }

  lemma {:induction false} ExpandedMeaning(names: seq<string>, ts: seq<string>, name: string)
    requires name in names
    ensures name in Expanded(names, ts) <==> exists t :: t in ts && Matches(t, name)
  {
    if ts != [] {
      var n := |ts| - 1;
      assert ts == ts[..n] + [ts[n]];
      ExpandedMeaning(names, ts[..n], name);
      assert (exists t :: t in ts && Matches(t, name))
        <==> (exists t :: t in ts[..n] && Matches(t, name)) || Matches(ts[n], name) by {
        assert ts[n] in ts;
        assert forall t :: t in ts <==> t in ts[..n] || t == ts[n];
      }
      MatchingMeaning(names, ts[n], name);
      assert name in (if Wildcard(ts[n]) then Matching(names, ts[n]) else [ts[n]]) <==> Matches(ts[n], name);
    }
  }

  lemma {:induction false} ExpandedAreWords(names: seq<string>, ts: seq<string>)
    requires Names(names) && Words(ts)
    ensures Words(Expanded(names, ts))
  {
    if ts != [] {
      var n := |ts| - 1;
      ExpandedAreWords(names, ts[..n]);
      var ms := Matching(names, ts[n]);
      forall i | 0 <= i < |ms| ensures ms[i] != "" && Free(ms[i], {' '}) {
        assert ms[i] in ms;
        MatchingMeaning(names, ts[n], ms[i]);
      }
    }
  }

  lemma SpacedAppend(ws: seq<string>, w: string)
    ensures Spaced(ws + [w]) == Spaced(ws) + w + " "
  {
    assert seq(|ws + [w]|, i => ' ') == seq(|ws|, i => ' ') + [' '];
    JoinAppend(ws, seq(|ws|, i => ' '), w, ' ');
  }

  lemma ExpandedStep(names: seq<string>, ts: seq<string>, k: nat)
    requires k < |ts|
    ensures Expanded(names, ts[..k + 1])
         == Expanded(names, ts[..k]) + if Wildcard(ts[k]) then Matching(names, ts[k]) else [ts[k]]
  {
    assert ts[..k + 1][..k] == ts[..k];
  }

  /** htxd_expand_device_name_list. */
  method ExpandDeviceNameList(names: seq<string>, list: string) returns (expanded: string)
    ensures expanded == Spaced(Expanded(names, Tokens(list, {' '})))
  {
    expanded := "";
    var ts := Split(list, {' '});
    ghost var words: seq<string> := [];
    for k := 0 to |ts|
      invariant words == Expanded(names, ts[..k]) && expanded == Spaced(words)
    {
      ExpandedStep(names, ts, k);
      assert ts[k] in ts;
      if ts[k][|ts[k]| - 1] == '*' {
        expanded := AppendMatching(names, ts[k], expanded, words);
        words := words + Matching(names, ts[k]);
      } else {
        SpacedAppend(words, ts[k]);
        expanded := expanded + ts[k] + " ";
        words := words + [ts[k]];
      }
    }
    assert ts[..|ts|] == ts;
  }

  /** The loop over the devices for one wildcard. */
  method AppendMatching(names: seq<string>, t: string, text: string, ghost words: seq<string>)
    returns (expanded: string)
    requires Wildcard(t) && text == Spaced(words)
    ensures expanded == Spaced(words + Matching(names, t))
  {
    expanded := text;
    ghost var ws := words;
    for i := 0 to |names|
      invariant ws == words + Matching(names[..i], t) && expanded == Spaced(ws)
    {
      assert names[..i + 1][..i] == names[..i];
      if StartsWith(names[i], t[..|t| - 1]) {
        SpacedAppend(ws, names[i]);
        expanded := expanded + names[i] + " ";
        ws := ws + [names[i]];
      }
    }
    assert names[..|names|] == names;
  }

  // ---------- the semaphore array ----------

  /** Slot s is the run semaphore of a device that the list selects. */
  ghost predicate SelectedRun(names: seq<string>, list: string, s: int) {
    exists i :: 0 <= i < |names| && s == RunSlot(i) && Selected(list, names[i])
  }

  /** The array with value v in the run semaphores of the selected devices. */
  ghost function SetRuns(sem: seq<int>, names: seq<string>, list: string, v: int): (r: seq<int>)
    ensures |r| == |sem|
  {
    seq(|sem|, s requires 0 <= s < |sem| => if SelectedRun(names, list, s) then v else sem[s])
  }

  /** Only the run semaphores of selected devices change: not those of other devices, no error
      semaphore, no third semaphore of a device and no global one. */
  lemma OnlySelectedRunsChange(sem: seq<int>, names: seq<string>, list: string, v: int, s: nat, i: nat)
    requires s < |sem| && i < |names|
    ensures s < SEM_GLOBAL || (s - SEM_GLOBAL) % SEM_PER_EXER != 0 ==> SetRuns(sem, names, list, v)[s] == sem[s]
    ensures s == RunSlot(i) ==> SetRuns(sem, names, list, v)[s] == if Selected(list, names[i]) then v else sem[s]
  {
  }

  /** The state is restored by activating what was suspended exactly when everything the list
      selects was active before; in particular always from an all-active state. */
  lemma ActivateUndoesSuspendIff(sem: seq<int>, names: seq<string>, list: string)
    ensures SetRuns(SetRuns(sem, names, list, 1), names, list, 0) == sem
       <==> forall s :: 0 <= s < |sem| && SelectedRun(names, list, s) ==> sem[s] == 0
  {
    var r := SetRuns(SetRuns(sem, names, list, 1), names, list, 0);
    if forall s :: 0 <= s < |sem| && SelectedRun(names, list, s) ==> sem[s] == 0 {
      assert r == sem;
    } else {
      var s :| 0 <= s < |sem| && SelectedRun(names, list, s) && sem[s] != 0;
      assert r[s] != sem[s];
    }
  }

  /** What the equaliser looks at in an exerciser's shared-memory entry before a visit. */
  datatype Health = Health(pid: int, lastUpdate: int, startDelayed: bool, maxCycles: nat, cycles: nat)

  predicate Eligible(h: Health, sem: seq<int>, index: nat)
    requires ErrorSlot(index) < |sem|
  {
    && h.pid != 0 && h.lastUpdate != 0 && !h.startDelayed
    && (h.maxCycles == 0 || h.cycles < h.maxCycles)
    && sem[0] == 0 && sem[ErrorSlot(index)] == 0 && sem[RunSlot(index)] == 0
  }

  /** What keeps the equaliser from a device. */
  datatype Reason = Dead | NotStarted | Delayed | Completed | SystemHalted | ErredOut | Suspended

  predicate Applies(r: Reason, h: Health, sem: seq<int>, index: nat)
    requires 3 * index + 7 < |sem|
  {
    match r
    case Dead => h.pid == 0
    case NotStarted => h.lastUpdate == 0
    case Delayed => h.startDelayed
    case Completed => h.maxCycles > 0 && h.cycles >= h.maxCycles
    case SystemHalted => sem[0] != 0
    case ErredOut => sem[3 * index + 7] != 0
    case Suspended => sem[3 * index + 6] != 0
  }

  /** A device is visited exactly if none of the seven reasons applies to it. */
  lemma EligibleIff(h: Health, sem: seq<int>, index: nat)
    requires ErrorSlot(index) < |sem|
    ensures Eligible(h, sem, index) <==> forall r: Reason :: !Applies(r, h, sem, index)
  {
    if forall r: Reason :: !Applies(r, h, sem, index) {
      assert !Applies(Dead, h, sem, index) && !Applies(NotStarted, h, sem, index);
      assert !Applies(Delayed, h, sem, index) && !Applies(Completed, h, sem, index);
      assert !Applies(SystemHalted, h, sem, index) && !Applies(ErredOut, h, sem, index);
      assert !Applies(Suspended, h, sem, index);
    }
  }

  /** Suspending takes exactly the selected devices out of the equaliser's hands. */
  lemma SuspendMakesIneligible(h: Health, sem: seq<int>, names: seq<string>, list: string, i: nat)
    requires i < |names| && forall k :: 0 <= k < |names| ==> ErrorSlot(k) < |sem|
    ensures Eligible(h, SetRuns(sem, names, list, 1), i)
       <==> Eligible(h, sem, i) && !SelectedRun(names, list, RunSlot(i))
  {
    assert !SelectedRun(names, list, 0) && !SelectedRun(names, list, ErrorSlot(i));
  }

  /** While it is not eligible, nothing about an exerciser changes. */
  lemma {:induction false} SuspendedIsFrozen(e: Exer, vs: seq<Visit>)
    requires Running(e) && forall i :: 0 <= i < |vs| ==> !vs[i].eligible
    ensures Run(e, vs) == e && Trace(e, vs) == []
  {
    if vs != [] {
      SuspendedIsFrozen(e, vs[..|vs| - 1]);
    }
  }

  class Ecg {
    /** sdev_id of each HE, in order. */
    const names: seq<string>
    const sem: array<int>

    /** Room for the error semaphore of every device. */
    ghost predicate Valid() {
      Names(names) && sem.Length >= |names| * SEM_PER_EXER + SEM_GLOBAL
    }

    /** htxd_init_sem, for the devices and some room for more. */
    constructor (names: seq<string>, extra: nat)
      requires Names(names)
      ensures Valid() && this.names == names && fresh(sem)
      ensures sem.Length == (|names| + extra) * SEM_PER_EXER + SEM_GLOBAL
      ensures forall s :: 0 <= s < sem.Length ==> sem[s] == 0
    {
      this.names := names;
      sem := new int[(|names| + extra) * SEM_PER_EXER + SEM_GLOBAL](s => 0);
    }

    method SetDeviceRunSem(i: nat, v: int)
      requires Valid() && i < |names|
      modifies sem
      ensures sem[..] == old(sem[..])[RunSlot(i) := v]
    {
      sem[i * SEM_PER_EXER + SEM_GLOBAL] := v;
    }

    /** The loop over the devices for one word of the list. */
    method SetNamed(word: string, v: int)
      requires Valid()
      modifies sem
      ensures forall s :: 0 <= s < sem.Length ==>
        sem[s] == if exists i :: 0 <= i < |names| && s == RunSlot(i) && names[i] == word then v else old(sem[s])
    {
      for i := 0 to |names|
        invariant word !in names[..i]
        invariant forall s :: 0 <= s < sem.Length ==> sem[s] == old(sem[s])
      {
        if names[i] == word {
          SetDeviceRunSem(i, v);
          return;
        }
      }
      assert names[..|names|] == names;
    }

    /** The part common to htxd_suspend_device and htxd_activate_device. */
    method SetDevices(list: string, v: int)
      requires Valid()
      modifies sem
      ensures sem[..] == SetRuns(old(sem[..]), names, list, v)
    {
      var words := list;
      if '*' in list {
        words := ExpandDeviceNameList(names, list);
      }
      WordsOfList(names, list, words);
      var ts := Split(words, {' '});
      SetEach(ts, v);
      forall s | 0 <= s < sem.Length ensures NamedRun(names, ts, s) <==> SelectedRun(names, list, s) {
      }
    }

    method SetEach(ts: seq<string>, v: int)
      requires Valid()
      modifies sem
      ensures forall s :: 0 <= s < sem.Length ==> sem[s] == if NamedRun(names, ts, s) then v else old(sem[s])
    {
      for k := 0 to |ts|
        invariant forall s :: 0 <= s < sem.Length ==> sem[s] == if NamedRun(names, ts[..k], s) then v else old(sem[s])
      {
        SetNamed(ts[k], v);
        assert forall w :: w in ts[..k + 1] <==> w in ts[..k] || w == ts[k];
      }
      assert ts[..|ts|] == ts;
    }

    method SuspendDevice(list: string)
      requires Valid()
      modifies sem
      ensures sem[..] == SetRuns(old(sem[..]), names, list, 1)
    {
      SetDevices(list, 1);
    }

    method ActivateDevice(list: string)
      requires Valid()
      modifies sem
      ensures sem[..] == SetRuns(old(sem[..]), names, list, 0)
    {
      SetDevices(list, 0);
    }

    /** htxd_suspend_all_device and htxd_activate_all_device do what the list "*" does. */
    method SetAllDevices(v: int)
      requires Valid()
      modifies sem
      ensures sem[..] == SetRuns(old(sem[..]), names, "*", v)
    {
      for i := 0 to |names|
        invariant forall s :: 0 <= s < sem.Length ==>
          sem[s] == if exists k :: 0 <= k < i && s == RunSlot(k) then v else old(sem[s])
      {
        SetDeviceRunSem(i, v);
      }
      StarSelectsAll();
    }
  }

  lemma StarSelectsAll()
    ensures forall name: string :: Selected("*", name)
  {
    assert "*" + "" == "*";
    TokensOfToken("*", "", {' '});
    assert "*" in Tokens("*", {' '});
    forall name: string ensures Selected("*", name) {
      assert "*"[..0] == "" && Matches("*", name);
    }
  }

  ghost predicate NamedRun(names: seq<string>, words: seq<string>, s: int) {
    exists i :: 0 <= i < |names| && s == RunSlot(i) && names[i] in words
  }

  /** The words that are finally looked up name exactly the devices the list selects. */
  lemma WordsOfList(names: seq<string>, list: string, words: string)
    requires Names(names)
    requires words == if '*' in list then Spaced(Expanded(names, Tokens(list, {' '}))) else list
    ensures forall i :: 0 <= i < |names| ==> (names[i] in Tokens(words, {' '}) <==> Selected(list, names[i]))
  {
    var ts := Tokens(list, {' '});
    if '*' in list {
      assert Words(ts) by {
        forall i | 0 <= i < |ts| ensures ts[i] != "" && Free(ts[i], {' '}) {
          assert ts[i] in ts;
        }
      }
      ExpandedAreWords(names, ts);
      TokensOfSpaced(Expanded(names, ts));
      forall i | 0 <= i < |names| ensures names[i] in Tokens(words, {' '}) <==> Selected(list, names[i]) {
        ExpandedMeaning(names, ts, names[i]);
      }
    } else {
      forall i | 0 <= i < |names| ensures names[i] in ts <==> Selected(list, names[i]) {
        TokensWithout(list, {' '}, '*');
      }
    }
  }

  lemma {:induction false} TokensWithout(s: string, delims: set<char>, c: char)
    requires c !in s
    ensures forall t :: t in Tokens(s, delims) ==> c !in t
    decreases |s|
  {
    var t := StrTok(s, delims);
    if t.Token? {
      StrTokParts(s, delims, c);
      TokensWithout(t.rest, delims, c);
    }
  }

  lemma {:induction false} StrTokParts(s: string, delims: set<char>, c: char)
    requires c !in s && StrTok(s, delims).Token?
    ensures c !in StrTok(s, delims).text && c !in StrTok(s, delims).rest
    decreases |s|
  {
    if s[0] in delims {
      assert s == [s[0]] + s[1..];
      StrTokSkips(s[0], s[1..], delims);
      StrTokParts(s[1..], delims, c);
    } else {
      assert SkipDelims(s, delims) == s;
    }
  }
}
