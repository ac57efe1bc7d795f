/** The IPC keys of the loaded ECGs: what adding and removing ECGs does to the list of keys, the
    static key offset and the list length counter. */
module EcgKeys {
  import opened Seqs

  const ECG_SHMKEY_START: int := 10601
  const ECG_SEMKEY_START: int := 10201
  const KEY_OFFSET_LIMIT: nat := 1000

  /** Keys in list order, the static next_key_offset, and ecg_list_length. */
  datatype Ecgs = Ecgs(keys: seq<int>, offset: nat, count: int)

  const NONE := Ecgs([], 0, 0)

  /** htxd_get_next_key_offset: one walk along the list that never goes back to its head; a node
      whose key is taken pushes the offset up and is looked at again. */
  function Walk(keys: seq<int>, offset: nat): (o: nat)
    ensures offset <= o <= if offset <= KEY_OFFSET_LIMIT then KEY_OFFSET_LIMIT else offset
    decreases |keys|, if offset < KEY_OFFSET_LIMIT then KEY_OFFSET_LIMIT - offset else 0
  {
    if keys == [] || offset >= KEY_OFFSET_LIMIT then offset
    else if keys[0] == ECG_SHMKEY_START + offset then Walk(keys, offset + 1)
    else Walk(keys[1..], offset)
  }

  datatype Op = Add(garbage: int, ok: bool) | Remove(at: nat)

  predicate Legal(s: Ecgs, op: Op) {
    match op
    case Add(_, _) => true
    case Remove(at) => at < |s.keys| && (s.count == 1 || |s.keys| > 1)
  }

  /** htxd_init_ecg_info: the new node is in the list, with whatever malloc left as its key, when
      the offset is looked for; the counter moves only if the rest of the loading succeeds.
      htxd_remove_ecg_info_node: with the counter at 1 the whole list is dropped. */
  function Apply(s: Ecgs, op: Op): (r: Ecgs)
    requires Legal(s, op)
  {
    match op
    case Add(garbage, ok) =>
      var o := Walk(s.keys + [garbage], s.offset);
      Ecgs(s.keys + [ECG_SHMKEY_START + o], o, if ok then s.count + 1 else s.count)
    case Remove(at) =>
      Ecgs(if s.count == 1 then [] else Without(s.keys, at), s.offset, s.count - 1)
  }

  /** No live key is above the offset: this, not the search, is what keeps new keys fresh. */
  ghost predicate Bounded(s: Ecgs) {
    && s.offset <= KEY_OFFSET_LIMIT
    && forall i :: 0 <= i < |s.keys| ==> s.keys[i] <= ECG_SHMKEY_START + s.offset
  }

  /** If the walk leaves the offset alone below the limit, no key on its way equals it. */
  lemma {:induction false} WalkUnmoved(keys: seq<int>, offset: nat)
    requires offset < KEY_OFFSET_LIMIT && Walk(keys, offset) == offset
    ensures ECG_SHMKEY_START + offset !in keys
    decreases |keys|
  {
    if keys != [] {
      WalkUnmoved(keys[1..], offset);
    }
  }

  /** The new key is fresh exactly when the offset was below the limit, or the key at the limit
      happens to be free.  The limit is never reported: the result is at most the limit, and the
      failure value -1 would need more. */
  lemma NewKeyIsFreshIff(s: Ecgs, garbage: int)
    requires Bounded(s)
    ensures var key := ECG_SHMKEY_START + Walk(s.keys + [garbage], s.offset);
      key !in s.keys <==> (s.offset < KEY_OFFSET_LIMIT || ECG_SHMKEY_START + KEY_OFFSET_LIMIT !in s.keys)
  {
    var keys := s.keys + [garbage];
    if s.offset < KEY_OFFSET_LIMIT && Walk(keys, s.offset) == s.offset {
      WalkUnmoved(keys, s.offset);
      assert forall k :: k in s.keys ==> k in keys;
    }
  }

  lemma {:induction false} WalkAboveAll(keys: seq<int>, garbage: int, offset: nat)
    requires forall i :: 0 <= i < |keys| ==> keys[i] < ECG_SHMKEY_START + offset
    ensures Walk(keys + [garbage], offset) <= offset + 1
    decreases |keys|
  {
    var all := keys + [garbage];
    if offset < KEY_OFFSET_LIMIT {
      if keys == [] {
        assert all[1..] == [];
        assert all == [garbage];
        assert garbage == ECG_SHMKEY_START + offset ==> Walk(all, offset + 1) == offset + 1;
      } else {
        assert all[1..] == keys[1..] + [garbage];
        WalkAboveAll(keys[1..], garbage, offset);
      }
    }
  }

  lemma {:induction false} WalkMovesAtMostTwo(keys: seq<int>, garbage: int, offset: nat)
    requires forall i :: 0 <= i < |keys| ==> keys[i] <= ECG_SHMKEY_START + offset
    ensures Walk(keys + [garbage], offset) <= offset + 2
    decreases |keys|
  {
    var all := keys + [garbage];
    if offset < KEY_OFFSET_LIMIT {
      if all[0] == ECG_SHMKEY_START + offset {
        assert Walk(all, offset) == Walk(all, offset + 1);
        WalkAboveAll(keys, garbage, offset + 1);
      } else if keys != [] {
        assert all[1..] == keys[1..] + [garbage];
        WalkMovesAtMostTwo(keys[1..], garbage, offset);
      } else {
        assert all[1..] == [];
      }
    }
  }

  /** Every legal operation keeps the bound. */
  lemma ApplyKeepsBounded(s: Ecgs, op: Op)
    requires Legal(s, op) && Bounded(s)
    ensures Bounded(Apply(s, op))
  {
    var r := Apply(s, op);
    forall i | 0 <= i < |r.keys| ensures r.keys[i] <= ECG_SHMKEY_START + r.offset {
    }
  }

  /** The situation in which an ECG can be added without risking a key already in use. */
  predicate RoomForKey(s: Ecgs) {
    s.offset < KEY_OFFSET_LIMIT || ECG_SHMKEY_START + KEY_OFFSET_LIMIT !in s.keys
  }

  /** One operation on distinct keys leaves them distinct, except for an addition without room. */
  lemma ApplyKeepsDistinctIff(s: Ecgs, op: Op)
    requires Legal(s, op) && Bounded(s) && Distinct(s.keys)
    ensures Distinct(Apply(s, op).keys) <==> (op.Add? ==> RoomForKey(s))
  {
    match op
    case Add(garbage, ok) =>
      NewKeyIsFreshIff(s, garbage);
      var keys := Apply(s, op).keys;
      if ECG_SHMKEY_START + Walk(s.keys + [garbage], s.offset) in s.keys {
        var i :| 0 <= i < |s.keys| && s.keys[i] == keys[|s.keys|];
        assert keys[i] == keys[|s.keys|];
      }
    case Remove(at) =>
      WithoutMembers(s.keys, at);
  }

  // ---------- whole histories ----------

  /** Every operation of the history is legal when it comes. */
  ghost predicate LegalHistory(ops: seq<Op>)
    decreases |ops|, 0
  {
    ops == [] || (LegalHistory(ops[..|ops| - 1]) && Legal(After(ops[..|ops| - 1]), ops[|ops| - 1]))
  }

  ghost function After(ops: seq<Op>): (s: Ecgs)
    requires LegalHistory(ops)
    decreases |ops|, 1
  {
    if ops == [] then NONE else Apply(After(ops[..|ops| - 1]), ops[|ops| - 1])
  }

  lemma {:induction false} LegalPrefix(ops: seq<Op>, k: nat)
    requires LegalHistory(ops) && k <= |ops|
    ensures LegalHistory(ops[..k])
    decreases |ops|
  {
    if k == |ops| {
      assert ops[..k] == ops;
    } else {
      LegalPrefix(ops[..|ops| - 1], k);
      assert ops[..|ops| - 1][..k] == ops[..k];
    }
  }

  /** There was room whenever an ECG was added. */
  ghost predicate AlwaysRoom(ops: seq<Op>)
    requires LegalHistory(ops)
  {
    ops == [] || (AlwaysRoom(ops[..|ops| - 1]) && (ops[|ops| - 1].Add? ==> RoomForKey(After(ops[..|ops| - 1]))))
  }

  function Adds(ops: seq<Op>): (n: nat) {
    if ops == [] then 0 else Adds(ops[..|ops| - 1]) + if ops[|ops| - 1].Add? then 1 else 0
  }

  lemma {:induction false} AlwaysBounded(ops: seq<Op>)
    requires LegalHistory(ops)
    ensures Bounded(After(ops))
  {
    if ops != [] {
      AlwaysBounded(ops[..|ops| - 1]);
      ApplyKeepsBounded(After(ops[..|ops| - 1]), ops[|ops| - 1]);
    }
  }

  /** The live keys were pairwise distinct at every moment of the history. */
  ghost predicate AlwaysDistinct(ops: seq<Op>)
    requires LegalHistory(ops)
  {
    Distinct(After(ops).keys) && (ops == [] || AlwaysDistinct(ops[..|ops| - 1]))
  }

  /** Live IPC keys are pairwise distinct throughout a history of additions and removals exactly
      when there was room at every addition, whatever the uninitialised keys were and whether or
      not the loads succeeded. */
  lemma {:induction false} KeysStayDistinctIff(ops: seq<Op>)
    requires LegalHistory(ops)
    ensures AlwaysDistinct(ops) <==> AlwaysRoom(ops)
  {
    if ops != [] {
      var before := ops[..|ops| - 1];
      KeysStayDistinctIff(before);
      AlwaysBounded(before);
      if AlwaysDistinct(before) {
        assert Distinct(After(before).keys);
        ApplyKeepsDistinctIff(After(before), ops[|ops| - 1]);
      }
    }
  }

  // ---------- how many additions there is room for ----------

  lemma {:induction false} OffsetBound(ops: seq<Op>)
    requires LegalHistory(ops)
    ensures After(ops).offset <= if Adds(ops) == 0 then 0 else 2 * Adds(ops) - 1
    ensures Adds(ops) == 0 ==> After(ops).keys == []
  {
    if ops != [] {
      var before, op := ops[..|ops| - 1], ops[|ops| - 1];
      OffsetBound(before);
      AlwaysBounded(before);
      var s := After(before);
      if op.Add? && Adds(before) == 0 {
        WalkAboveAll(s.keys, op.garbage, s.offset);
      } else if op.Add? {
        WalkMovesAtMostTwo(s.keys, op.garbage, s.offset);
      }
    }
  }

  /** Up to 501 additions, with any removals between them, always have room. */
  lemma {:induction false} EnoughRoom(ops: seq<Op>)
    requires LegalHistory(ops) && Adds(ops) <= 501
    ensures AlwaysRoom(ops)
  {
    if ops != [] {
      EnoughRoom(ops[..|ops| - 1]);
      OffsetBound(ops[..|ops| - 1]);
    }
  }

  /** Increasing keys, the last of them the one at the offset: so it is while ECGs are only added. */
  predicate Topped(s: Ecgs) {
    && s.keys != [] && s.keys[|s.keys| - 1] == ECG_SHMKEY_START + s.offset
    && forall i, j :: 0 <= i < j < |s.keys| ==> s.keys[i] < s.keys[j]
  }

  /** Past keys below the offset the walk just goes on. */
  lemma {:induction false} WalkPassesLower(low: seq<int>, rest: seq<int>, offset: nat)
    requires offset < KEY_OFFSET_LIMIT && forall i :: 0 <= i < |low| ==> low[i] < ECG_SHMKEY_START + offset
    ensures Walk(low + rest, offset) == Walk(rest, offset)
    decreases |low|
  {
    if low == [] {
      assert low + rest == rest;
    } else {
      assert (low + rest)[1..] == low[1..] + rest;
      WalkPassesLower(low[1..], rest, offset);
    }
  }

  lemma WalkOfOne(key: int, offset: nat)
    ensures Walk([key], offset)
         == if offset < KEY_OFFSET_LIMIT && key == ECG_SHMKEY_START + offset then offset + 1 else offset
  {
    assert [key][1..] == [];
    assert Walk([], offset) == offset && Walk([], offset + 1) == offset + 1;
    assert key == ECG_SHMKEY_START + offset ==> Walk([key], offset + 1) == offset + 1;
  }

  /** At the last key the offset moves by one, and by one more if the uninitialised key of the new
      node happens to be the next. */
  lemma WalkOfTwo(key: int, garbage: int, offset: nat)
    requires offset < KEY_OFFSET_LIMIT && key == ECG_SHMKEY_START + offset
    ensures Walk([key, garbage], offset)
         == if offset + 1 < KEY_OFFSET_LIMIT && garbage == key + 1 then offset + 2 else offset + 1
  {
    assert [key, garbage][1..] == [garbage];
    assert Walk([key, garbage], offset) == Walk([key, garbage], offset + 1);
    WalkOfOne(garbage, offset + 1);
  }

  lemma AddOnTop(s: Ecgs, garbage: int)
    requires Topped(s) && s.offset < KEY_OFFSET_LIMIT
    ensures var r := Apply(s, Add(garbage, true));
      && Topped(r)
      && r.offset == if s.offset + 1 < KEY_OFFSET_LIMIT && garbage == ECG_SHMKEY_START + s.offset + 1
                     then s.offset + 2 else s.offset + 1
  {
    var k := |s.keys| - 1;
    assert s.keys + [garbage] == s.keys[..k] + [s.keys[k], garbage];
    WalkPassesLower(s.keys[..k], [s.keys[k], garbage], s.offset);
    WalkOfTwo(s.keys[k], garbage, s.offset);
  }

  /** Loads one after the other, with this in the uninitialised key of each. */
  function Loads(n: nat, garbage: nat -> int): (ops: seq<Op>)
    ensures |ops| == n
  {
    seq(n, i requires 0 <= i => Add(garbage(i), true))
  }

  lemma {:induction false} LoadsAreLegal(n: nat, garbage: nat -> int)
    ensures LegalHistory(Loads(n, garbage))
    ensures n > 0 ==> LegalHistory(Loads(n - 1, garbage))
    ensures n > 0 ==> After(Loads(n, garbage)) == Apply(After(Loads(n - 1, garbage)), Add(garbage(n - 1), true))
  {
    if n > 0 {
      LoadsAreLegal(n - 1, garbage);
      assert Loads(n, garbage)[..n - 1] == Loads(n - 1, garbage);
    }
  }

  /** Uninitialised keys in cleared memory, with which the offset rises by one per load, and the
      worst of uninitialised keys, with which it rises by two. */
  function Zeroed(i: nat): (g: int) {
    0
  }

  function Worst(i: nat): (g: int) {
    ECG_SHMKEY_START + 2 * i
  }

  lemma {:induction false} ZeroedClimb(n: nat)
    requires 1 <= n <= KEY_OFFSET_LIMIT + 1
    ensures LegalHistory(Loads(n, Zeroed)) && Topped(After(Loads(n, Zeroed)))
    ensures After(Loads(n, Zeroed)).offset == n - 1
  {
    LoadsAreLegal(n, Zeroed);
    if n == 1 {
      FirstLoad(Zeroed);
    } else {
      ZeroedClimb(n - 1);
      AddOnTop(After(Loads(n - 1, Zeroed)), 0);
    }
  }

  lemma {:induction false} WorstClimb(n: nat)
    requires 1 <= n <= 501
    ensures LegalHistory(Loads(n, Worst)) && Topped(After(Loads(n, Worst)))
    ensures After(Loads(n, Worst)).offset == if n <= 500 then 2 * n - 1 else KEY_OFFSET_LIMIT
  {
    LoadsAreLegal(n, Worst);
    if n == 1 {
      FirstLoad(Worst);
    } else {
      WorstClimb(n - 1);
      AddOnTop(After(Loads(n - 1, Worst)), Worst(n - 1));
    }
  }

  lemma FirstLoad(garbage: nat -> int)
    ensures LegalHistory(Loads(1, garbage)) && Topped(After(Loads(1, garbage)))
    ensures After(Loads(1, garbage)).offset == if garbage(0) == ECG_SHMKEY_START then 1 else 0
  {
    LoadsAreLegal(1, garbage);
    assert Loads(0, garbage) == [];
    assert [] + [garbage(0)] == [garbage(0)];
    WalkOfOne(garbage(0), 0);
  }

  lemma DuplicateAtLimit(s: Ecgs)
    requires Topped(s) && s.offset == KEY_OFFSET_LIMIT
    ensures Distinct(s.keys) && !Distinct(Apply(s, Add(0, true)).keys)
  {
    ApplyKeepsDistinctIff(s, Add(0, true));
  }

  /** The limit is really reached: the 1002nd of loads into cleared memory gets the key of the
      1001st, and the 502nd load can already get a key in use, so that 501 is the exact bound. */
  lemma KeysRunOut()
    ensures var ops := Loads(KEY_OFFSET_LIMIT + 1, Zeroed);
      LegalHistory(ops) && Distinct(After(ops).keys) && !Distinct(Apply(After(ops), Add(0, true)).keys)
    ensures var ops := Loads(501, Worst);
      LegalHistory(ops) && Distinct(After(ops).keys) && !Distinct(Apply(After(ops), Add(0, true)).keys)
  {
    ZeroedClimb(KEY_OFFSET_LIMIT + 1);
    DuplicateAtLimit(After(Loads(KEY_OFFSET_LIMIT + 1, Zeroed)));
    WorstClimb(501);
    DuplicateAtLimit(After(Loads(501, Worst)));
  }

  // ---------- the list length counter ----------

  /** The counter is the length of the list as long as every load succeeds. */
  lemma {:induction false} CounterCountsSuccesses(ops: seq<Op>)
    requires LegalHistory(ops)
    requires forall i :: 0 <= i < |ops| && ops[i].Add? ==> ops[i].ok
    ensures After(ops).count == |After(ops).keys|
  {
    if ops != [] {
      CounterCountsSuccesses(ops[..|ops| - 1]);
    }
  }

  /** In a state whose counter is right, an operation keeps it right unless it is a load that
      fails; and removal then takes out exactly the one key. */
  lemma CounterRightIff(s: Ecgs, op: Op)
    requires Legal(s, op) && s.count == |s.keys|
    ensures Apply(s, op).count == |Apply(s, op).keys| <==> (op.Add? ==> op.ok)
    ensures op.Remove? ==> Apply(s, op).keys == Without(s.keys, op.at)
  {
  }

  /** Removal takes out exactly the one key, unless the counter has fallen to 1 with more keys than
      one in the list: then all of them go. */
  lemma RemovesOneIff(s: Ecgs, at: nat)
    requires Legal(s, Remove(at))
    ensures Apply(s, Remove(at)).keys == Without(s.keys, at) <==> (s.count != 1 || |s.keys| == 1)
  {
  }

  /** A failed load followed by a removal does lose the whole list, and when the failed load is the
      only one its node cannot be removed at all: the source then follows a null link. */
  lemma FailedLoadHistories(a: int, b: int)
    ensures var ops := [Add(a, true), Add(b, false)];
      && LegalHistory(ops) && |After(ops).keys| == 2
      && Legal(After(ops), Remove(1)) && Apply(After(ops), Remove(1)).keys == []
    ensures LegalHistory([Add(a, false)]) && |After([Add(a, false)]).keys| == 1
      && !Legal(After([Add(a, false)]), Remove(0))
  {
    forall op: Op | op.Add? ensures LegalHistory([op]) && After([op]) == Apply(NONE, op) {
      assert [op][..0] == [] && LegalHistory([]);
    }
    var ops := [Add(a, true), Add(b, false)];
    assert ops[..1] == [Add(a, true)];
  }

  /** Removing the head over and over is defined all the way and takes one key at a time. */
  ghost predicate Drains(s: Ecgs)
    decreases |s.keys|
  {
    s.keys == [] || (Legal(s, Remove(0)) && Apply(s, Remove(0)).keys == s.keys[1..] && Drains(Apply(s, Remove(0))))
  }

  /** A list can be shut down exactly when it is empty or its counter is right. */
  lemma {:induction false} DrainsIff(s: Ecgs)
    ensures Drains(s) <==> s.keys == [] || s.count == |s.keys|
    decreases |s.keys|
  {
    if s.keys != [] && Legal(s, Remove(0)) && Apply(s, Remove(0)).keys == s.keys[1..] {
      DrainsIff(Apply(s, Remove(0)));
    }
  }

  /** Any live node can be removed, and all of them shut down, as long as every load succeeds. */
  lemma SuccessfulLoadsDrain(ops: seq<Op>, at: nat)
    requires LegalHistory(ops)
    requires forall i :: 0 <= i < |ops| && ops[i].Add? ==> ops[i].ok
    ensures Drains(After(ops)) && (at < |After(ops).keys| ==> Legal(After(ops), Remove(at)))
  {
    CounterCountsSuccesses(ops);
    DrainsIff(After(ops));
  }
}
