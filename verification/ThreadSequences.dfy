/** create_eq_cfg's percentage matrices for thread-transition tests: one row per hardware thread,
    one column per step of the sequence, chosen at random.  A rand() result is named by the place
    it is drawn at: `rand(i, j)` is draw j of column i. */
module ThreadSequences {
  import opened Seqs
  import opened CText
  import opened Utilization
  import opened Words

  const MAX_UTIL_SEQ: nat := 10

  // ---------- how many threads are active ----------

  /** SMT values below t that a core can switch to. */
  function Halvings(t: nat): (hs: seq<nat>)
    ensures forall h :: h in hs ==> 1 <= h < t
    ensures t > 1 ==> hs != []
  {
    if t <= 1 then [] else [t / 2] + Halvings(t / 2)
  }

  lemma {:induction false} HalvingsDistinct(t: nat)
    ensures Distinct([t] + Halvings(t))
  {
    if t > 1 {
      HalvingsDistinct(t / 2);
      var s := [t] + Halvings(t);
      forall i, j | 0 <= i < j < |s| ensures s[i] != s[j] {
        assert s[j] in Halvings(t);
        if i > 0 {
          var rest := [t / 2] + Halvings(t / 2);
          assert s[i] == rest[i - 1] && s[j] == rest[j - 1];
        }
      }
    }
  }

  /** One by one the halves of the level, rounded down, until one thread is left. */
  lemma {:induction false} HalvingsMeaning(t: nat, k: nat)
    requires k < |Halvings(t)|
    ensures var p, h := PowerOfTwo(k + 1), Halvings(t)[k]; p * h <= t < p * (h + 1)
    ensures k == |Halvings(t)| - 1 <==> Halvings(t)[k] == 1
  {
    if k > 0 {
      HalvingsMeaning(t / 2, k - 1);
      Doubled(t, PowerOfTwo(k), Halvings(t)[k]);
    }
  }

  lemma Doubled(t: nat, p: nat, h: nat)
    requires p * h <= t / 2 < p * (h + 1)
    ensures 2 * p * h <= t < 2 * p * (h + 1)
  {
    assert 2 * p * h == 2 * (p * h) && 2 * p * (h + 1) == 2 * (p * (h + 1));
  }

  /** The active count in force and the pool the next one is drawn from. */
  datatype SwitchState = SwitchState(current: nat, pool: seq<nat>)

  /** The picked count becomes current and the old one takes its place in the pool. */
  function Switch(s: SwitchState, draw: nat): (r: SwitchState)
    requires s.pool != []
    ensures |r.pool| == |s.pool|
  {
    var picked := draw % |s.pool|;
    SwitchState(s.pool[picked], s.pool[picked := s.current])
  }

  /** The state after column i has been chosen. */
  function SwitchAt(smt: nat, rand: (nat, nat) -> nat, i: nat): (s: SwitchState)
    requires smt > 1
    ensures s.pool != []
  {
    if i == 0 then SwitchState(smt, Halvings(smt)) else Switch(SwitchAt(smt, rand, i - 1), rand(i, 0))
  }

  function All(s: SwitchState): (all: seq<nat>) {
    [s.current] + s.pool
  }

  lemma SwitchKeepsAll(s: SwitchState, draw: nat)
    requires s.pool != [] && Distinct(All(s))
    ensures multiset(All(Switch(s, draw))) == multiset(All(s))
    ensures Distinct(All(Switch(s, draw)))
    ensures Switch(s, draw).current != s.current
  {
    var p := draw % |s.pool|;
    assert All(s)[p + 1] == s.pool[p];
    assert All(Switch(s, draw)) == All(s)[0 := s.pool[p]][p + 1 := s.current];
  }

  lemma {:induction false} SwitchingKeepsAll(smt: nat, rand: (nat, nat) -> nat, i: nat)
    requires smt > 1
    ensures multiset(All(SwitchAt(smt, rand, i))) == multiset([smt] + Halvings(smt))
    ensures Distinct(All(SwitchAt(smt, rand, i)))
  {
    if i == 0 {
      HalvingsDistinct(smt);
    } else {
      SwitchingKeepsAll(smt, rand, i - 1);
      SwitchKeepsAll(SwitchAt(smt, rand, i - 1), rand(i, 0));
    }
  }

  /** However many columns are drawn and whatever comes up: current count and pool together are
      always the SMT values of the core, and two columns in a row never have the same count. */
  lemma SwitchingForEver(smt: nat, rand: (nat, nat) -> nat, i: nat)
    requires smt > 1
    ensures multiset(All(SwitchAt(smt, rand, i))) == multiset([smt] + Halvings(smt))
    ensures SwitchAt(smt, rand, i + 1).current != SwitchAt(smt, rand, i).current
    ensures 1 <= SwitchAt(smt, rand, i).current <= smt
  {
    SwitchingKeepsAll(smt, rand, i);
    var s := SwitchAt(smt, rand, i);
    SwitchKeepsAll(s, rand(i + 1, 0));
    assert All(s)[0] in multiset(All(s));
    assert s.current in [smt] + Halvings(smt);
  }

  // ---------- every course of switching can be drawn ----------

  /** Counts that a core may go through: from all threads on, each an SMT value other than the last. */
  ghost predicate Course(smt: nat, hs: seq<nat>) {
    && hs != [] && hs[0] == smt
    && (forall i :: 0 <= i < |hs| ==> hs[i] in [smt] + Halvings(smt))
    && (forall i :: 0 < i < |hs| ==> hs[i] != hs[i - 1])
  }

  lemma {:induction false} SwitchReadsUpTo(smt: nat, a: (nat, nat) -> nat, b: (nat, nat) -> nat, i: nat)
    requires smt > 1 && forall k: nat :: k <= i ==> a(k, 0) == b(k, 0)
    ensures SwitchAt(smt, a, i) == SwitchAt(smt, b, i)
  {
    if i > 0 {
      SwitchReadsUpTo(smt, a, b, i - 1);
    }
  }

  /** Any SMT value but the current one comes up for some draw. */
  lemma SwitchReaches(s: SwitchState, h: nat) returns (draw: nat)
    requires h in All(s) && h != s.current
    ensures s.pool != [] && Switch(s, draw).current == h
  {
    var p :| 0 <= p < |All(s)| && All(s)[p] == h;
    draw := p - 1;
    SmallDraw(draw, |s.pool|);
  }

  ghost predicate Follows(smt: nat, rand: (nat, nat) -> nat, hs: seq<nat>)
    requires smt > 1
  {
    forall i :: 0 <= i < |hs| ==> SwitchAt(smt, rand, i).current == hs[i]
  }

  /** Every column has one of the SMT values; all of them are at hand in every column. */
  lemma SwitchValues(smt: nat, rand: (nat, nat) -> nat, i: nat, h: nat)
    requires smt > 1
    ensures h in All(SwitchAt(smt, rand, i)) <==> h in [smt] + Halvings(smt)
  {
    SwitchingKeepsAll(smt, rand, i);
    var all, values := All(SwitchAt(smt, rand, i)), [smt] + Halvings(smt);
    assert h in all <==> h in multiset(all);
    assert h in values <==> h in multiset(values);
  }

  lemma {:induction false} DrawsForCourse(smt: nat, hs: seq<nat>) returns (rand: (nat, nat) -> nat)
    requires smt > 1 && Course(smt, hs)
    ensures Follows(smt, rand, hs)
    decreases |hs|
  {
    if |hs| == 1 {
      rand := (i, j) => 0;
    } else {
      var m := |hs| - 1;
      var before := DrawsForCourse(smt, hs[..m]);
      SwitchValues(smt, before, m - 1, hs[m]);
      rand := OneSwitchMore(smt, hs, before);
    }
  }

  lemma OneSwitchMore(smt: nat, hs: seq<nat>, before: (nat, nat) -> nat) returns (rand: (nat, nat) -> nat)
    requires smt > 1 && |hs| > 1 && Follows(smt, before, hs[..|hs| - 1])
    requires hs[|hs| - 1] in All(SwitchAt(smt, before, |hs| - 2)) && hs[|hs| - 1] != hs[|hs| - 2]
    ensures Follows(smt, rand, hs)
  {
    var m := |hs| - 1;
    var s := SwitchAt(smt, before, m - 1);
    var draw := SwitchReaches(s, hs[m]);
    rand := (i, j) => if i == m then draw else before(i, j);
    forall i | 0 <= i < m ensures SwitchAt(smt, rand, i) == SwitchAt(smt, before, i) {
      SwitchReadsUpTo(smt, rand, before, i);
    }
    assert SwitchAt(smt, rand, m) == Switch(s, draw);
  }

  lemma FollowedIsCourse(smt: nat, rand: (nat, nat) -> nat, hs: seq<nat>)
    requires smt > 1 && hs != [] && Follows(smt, rand, hs)
    ensures Course(smt, hs)
  {
    forall i | 0 <= i < |hs| ensures hs[i] in [smt] + Halvings(smt) {
      CurrentIsValue(smt, rand, i);
    }
    forall i | 0 < i < |hs| ensures hs[i] != hs[i - 1] {
      SwitchingForEver(smt, rand, i - 1);
    }
  }

  lemma CurrentIsValue(smt: nat, rand: (nat, nat) -> nat, i: nat)
    requires smt > 1
    ensures SwitchAt(smt, rand, i).current in [smt] + Halvings(smt)
  {
    var s := SwitchAt(smt, rand, i);
    assert All(s)[0] == s.current;
    SwitchValues(smt, rand, i, s.current);
  }

  /** The counts of the first columns can be any such course, and no other. */
  lemma SwitchingReachesExactlyTheCourses(smt: nat, hs: seq<nat>)
    requires smt > 1 && hs != []
    ensures (exists rand: (nat, nat) -> nat :: Follows(smt, rand, hs)) <==> Course(smt, hs)
  {
    if exists rand: (nat, nat) -> nat :: Follows(smt, rand, hs) {
      var rand: (nat, nat) -> nat :| Follows(smt, rand, hs);
      FollowedIsCourse(smt, rand, hs);
    }
    if Course(smt, hs) {
      var rand := DrawsForCourse(smt, hs);
    }
  }

  // ---------- which threads are active ----------

  predicate OnOff(col: seq<nat>) {
    forall k :: 0 <= k < |col| ==> col[k] == 0 || col[k] == 100
  }

  function ActiveCount(col: seq<nat>): (n: nat)
    ensures n <= |col|
  {
    if col == [] then 0
    else ActiveCount(col[..|col| - 1]) + if col[|col| - 1] == 100 then 1 else 0
  }

  lemma {:induction false} ActiveCountOfUpdate(col: seq<nat>, k: nat, p: nat)
    requires k < |col|
    ensures ActiveCount(col[k := p])
         == ActiveCount(col) + (if p == 100 then 1 else 0) - (if col[k] == 100 then 1 else 0)
  {
    var n := |col| - 1;
    if k == n {
      assert col[k := p][..n] == col[..n];
    } else {
      assert col[k := p][..n] == col[..n][k := p];
      ActiveCountOfUpdate(col[..n], k, p);
    }
  }

  lemma {:induction false} ActiveCountOfConstant(col: seq<nat>, p: nat)
    requires forall k :: 0 <= k < |col| ==> col[k] == p
    ensures ActiveCount(col) == if p == 100 then |col| else 0
  {
    if col != [] {
      ActiveCountOfConstant(col[..|col| - 1], p);
    }
  }

  /** A column that is 0 exactly on the distinct threads of `rest` has all the others active. */
  lemma {:induction false} ActiveCountOfRest(col: seq<nat>, rest: seq<nat>)
    requires Threads(rest, |col|)
    requires forall k :: 0 <= k < |col| ==> col[k] == if k in rest then 0 else 100
    ensures |rest| <= |col| && ActiveCount(col) == |col| - |rest|
    decreases |rest|
  {
    if rest == [] {
      ActiveCountOfConstant(col, 100);
    } else {
      var n := |rest| - 1;
      assert rest == rest[..n] + [rest[n]] && rest[n] in rest;
      assert forall t :: t in rest[..n] ==> t in rest;
      ActiveCountOfRest(col[rest[n] := 100], rest[..n]);
      ActiveCountOfUpdate(col, rest[n], 100);
    }
  }

  /** Draw from the first n entries of a, and close the gap by shifting. */
  method PickOne(a: array<nat>, n: nat, draw: nat) returns (picked: nat)
    requires 0 < n <= a.Length
    modifies a
    ensures picked == old(a[draw % n])
    ensures a[..n - 1] == Without(old(a[..n]), draw % n)
  {
    var at := draw % n;
    picked := a[at];
    for k := at to n - 1
      invariant forall i :: 0 <= i < at ==> a[i] == old(a[i])
      invariant forall i :: at <= i < k ==> a[i] == old(a[i + 1])
      invariant forall i :: k <= i < n ==> a[i] == old(a[i])
    {
      a[k] := a[k + 1];
    }
    forall i | 0 <= i < n - 1 ensures a[i] == Without(old(a[..n]), at)[i] {
      WithoutAt(old(a[..n]), at, i);
    }
  }

  /** Distinct thread numbers below the SMT level. */
  ghost predicate Threads(s: seq<nat>, smt: nat) {
    Distinct(s) && forall t :: t in s ==> t < smt
  }

  /** Two lists without a common thread that together are `all`. */
  ghost predicate Deal(a: seq<nat>, b: seq<nat>, all: seq<nat>) {
    && Distinct(a) && Distinct(b)
    && (forall t :: t in a ==> t !in b)
    && (forall t :: t in all <==> t in a || t in b)
  }

  /** The threads that draws number j and on take from those that are left, in order. */
  function Chosen(left: seq<nat>, count: nat, j: nat, rand: nat -> nat): (picked: seq<nat>)
    requires count <= |left|
    ensures |picked| == count
    decreases count
  {
    if count == 0 then [] else
    var at := rand(j) % |left|;
    [left[at]] + Chosen(Without(left, at), count - 1, j + 1, rand)
  }

  /** The threads that are left after them. */
  function Remaining(left: seq<nat>, count: nat, j: nat, rand: nat -> nat): (rest: seq<nat>)
    requires count <= |left|
    ensures |rest| == |left| - count
    decreases count
  {
    if count == 0 then left else Remaining(Without(left, rand(j) % |left|), count - 1, j + 1, rand)
  }

  lemma {:induction false} ChosenReadsFrom(left: seq<nat>, count: nat, j: nat, a: nat -> nat, b: nat -> nat)
    requires count <= |left| && forall i: nat :: j <= i ==> a(i) == b(i)
    ensures Chosen(left, count, j, a) == Chosen(left, count, j, b)
    decreases count
  {
    if count > 0 {
      ChosenReadsFrom(Without(left, a(j) % |left|), count - 1, j + 1, a, b);
    }
  }

  /** Drawing fewer threads draws the first of them. */
  lemma {:induction false} FewerAreTheFirst(left: seq<nat>, few: nat, many: nat, j: nat, rand: nat -> nat)
    requires few <= many <= |left|
    ensures Chosen(left, few, j, rand) == Chosen(left, many, j, rand)[..few]
    decreases few
  {
    if few > 0 {
      FewerAreTheFirst(Without(left, rand(j) % |left|), few - 1, many - 1, j + 1, rand);
    }
  }

  /** A list of some of the threads, none twice. */
  ghost predicate Some(want: seq<nat>, all: seq<nat>) {
    Distinct(want) && forall t :: t in want ==> t in all
  }

  lemma ChooseFirst(left: seq<nat>, want: seq<nat>, at: nat)
    requires Distinct(left) && Some(want, left) && want != [] && at < |left| && left[at] == want[0]
    ensures Some(want[1..], Without(left, at)) && Distinct(Without(left, at))
  {
    WithoutMembers(left, at);
    forall t | t in want[1..] ensures t in Without(left, at) {
      assert t in want && t != want[0];
    }
  }

  /** Draws that take exactly the wanted threads in the wanted order. */
  lemma {:induction false} DrawsTaking(left: seq<nat>, want: seq<nat>, j: nat) returns (rand: nat -> nat)
    requires Distinct(left) && Some(want, left)
    ensures |want| <= |left| && Chosen(left, |want|, j, rand) == want
    decreases |want|
  {
    if want == [] {
      rand := i => 0;
    } else {
      assert want[0] in want;
      var at :| 0 <= at < |left| && left[at] == want[0];
      ChooseFirst(left, want, at);
      var later := DrawsTaking(Without(left, at), want[1..], j + 1);
      rand := TakeThen(left, at, |want|, j, later);
    }
  }

  lemma TakeThen(left: seq<nat>, at: nat, count: nat, j: nat, later: nat -> nat) returns (rand: nat -> nat)
    requires at < |left| && 0 < count <= |left|
    ensures Chosen(left, count, j, rand) == [left[at]] + Chosen(Without(left, at), count - 1, j + 1, later)
  {
    rand := i => if i == j then at else later(i);
    SmallDraw(at, |left|);
    ChosenReadsFrom(Without(left, at), count - 1, j + 1, rand, later);
  }

  lemma SmallDraw(a: nat, m: nat)
    requires a < m
    ensures a % m == a
  {
  }

  /** Every list of `count` of the threads can be drawn, and nothing else can. */
  lemma DrawsReachExactlyTheLists(all: seq<nat>, want: seq<nat>)
    requires Distinct(all) && |want| <= |all|
    ensures (exists rand: nat -> nat :: Chosen(all, |want|, 0, rand) == want) <==> Some(want, all)
  {
    if exists rand: nat -> nat :: Chosen(all, |want|, 0, rand) == want {
      var rand: nat -> nat :| Chosen(all, |want|, 0, rand) == want;
      ChosenAndRemaining(all, |want|, 0, rand);
    }
    if Some(want, all) {
      var rand := DrawsTaking(all, want, 0);
    }
  }

  lemma DealWithFirst(left: seq<nat>, at: nat, picked: seq<nat>, rest: seq<nat>)
    requires Distinct(left) && at < |left| && Deal(picked, rest, Without(left, at))
    ensures Deal([left[at]] + picked, rest, left)
  {
    WithoutMembers(left, at);
  }

  lemma {:induction false} ChosenAndRemaining(left: seq<nat>, count: nat, j: nat, rand: nat -> nat)
    requires Distinct(left) && count <= |left|
    ensures Deal(Chosen(left, count, j, rand), Remaining(left, count, j, rand), left)
    decreases count
  {
    if count > 0 {
      var at := rand(j) % |left|;
      WithoutMembers(left, at);
      ChosenAndRemaining(Without(left, at), count - 1, j + 1, rand);
      DealWithFirst(left, at, Chosen(Without(left, at), count - 1, j + 1, rand),
                    Remaining(Without(left, at), count - 1, j + 1, rand));
    }
  }

  /** Where the drawing stands before draw j. */
  ghost predicate Drawing(all: seq<nat>, count: nat, rand: nat -> nat, picked: seq<nat>, rest: seq<nat>, j: nat) {
    && j <= count <= |all| && |rest| == |all| - j
    && picked + Chosen(rest, count - j, j, rand) == Chosen(all, count, 0, rand)
    && Remaining(rest, count - j, j, rand) == Remaining(all, count, 0, rand)
  }

  lemma DrawingGoesOn(all: seq<nat>, count: nat, rand: nat -> nat, picked: seq<nat>, rest: seq<nat>, j: nat)
    requires Drawing(all, count, rand, picked, rest, j) && j < count
    ensures var at := rand(j) % |rest|; Drawing(all, count, rand, picked + [rest[at]], Without(rest, at), j + 1)
  {
    var at := rand(j) % |rest|;
    var more := Chosen(Without(rest, at), count - j - 1, j + 1, rand);
    assert picked + ([rest[at]] + more) == picked + [rest[at]] + more;
  }

  /** Draw `count` of the listed threads, one after the other, without putting any back. */
  method DrawThreads(all: seq<nat>, count: nat, rand: nat -> nat) returns (picked: seq<nat>, rest: seq<nat>)
    requires Distinct(all) && count <= |all|
    ensures picked == Chosen(all, count, 0, rand) && rest == Remaining(all, count, 0, rand)
    ensures Deal(picked, rest, all)
  {
    var threadNum := new nat[|all|](k requires 0 <= k < |all| => all[k]);
    picked, rest := [], threadNum[..|all|];
    assert rest == all;
    for j := 0 to count
      invariant rest == threadNum[..|all| - j] && Drawing(all, count, rand, picked, rest, j)
    {
      var n := |all| - j;
      DrawingGoesOn(all, count, rand, picked, rest, j);
      var t := PickOne(threadNum, n, rand(j));
      picked := picked + [t];
      rest := threadNum[..n - 1];
    }
    ChosenAndRemaining(all, count, 0, rand);
  }

  /** The threads 0..smt-1 of a core. */
  function Core(smt: nat): (all: seq<nat>)
    ensures |all| == smt && Threads(all, smt)
  {
    seq(smt, k => k)
  }

  lemma CoreHasAll(smt: nat)
    ensures forall k: nat :: k < smt ==> k in Core(smt)
  {
    forall k: nat | k < smt ensures k in Core(smt) {
      assert Core(smt)[k] == k;
    }
  }

  /** Draws number `from` and on of column i. */
  function DrawsAt(rand: (nat, nat) -> nat, i: nat, from: nat): (draws: nat -> nat) {
    j => rand(i, from + j)
  }

  predicate RunsExactly(col: seq<nat>, running: seq<nat>) {
    forall k :: 0 <= k < |col| ==> col[k] == if k in running then 100 else 0
  }

  /** The threads that are active in column i of a switching sequence. */
  function SwitchThreads(smt: nat, rand: (nat, nat) -> nat, i: nat): (running: seq<nat>)
    requires smt > 1
  {
    if i == 0 then Core(smt) else
    SwitchingForEver(smt, rand, i);
    Chosen(Core(smt), SwitchAt(smt, rand, i).current, 0, DrawsAt(rand, i, 1))
  }

  /** Which workload create_th_mix_seq takes threads away from. */
  datatype Removal = RemoveFxu | RemoveVsu | RemoveAny

  predicate StoppedExactly(col: seq<nat>, stopped: seq<nat>) {
    forall k :: 0 <= k < |col| ==> col[k] == if k in stopped then 0 else 100
  }

  /** The stopped threads are as many as asked for, distinct, and all of one permitted workload. */
  ghost predicate OneWorkload(stopped: seq<nat>, count: nat, flag: Removal, fxu: seq<nat>, vsu: seq<nat>) {
    && |stopped| == count && Distinct(stopped)
    && (|| (flag != RemoveVsu && forall t :: t in stopped ==> t in fxu)
        || (flag != RemoveFxu && forall t :: t in stopped ==> t in vsu))
  }

  /** The SMT value that a pass of a mix switches to. */
  function MixCount(smt: nat, draw: nat): (count: nat)
    requires smt > 1
    ensures count in Halvings(smt) && count < smt
  {
    Halvings(smt)[draw % |Halvings(smt)|]
  }

  /** Every SMT value below the level comes up for some draw. */
  lemma MixCountReaches(smt: nat, h: nat) returns (draw: nat)
    requires h in Halvings(smt)
    ensures smt > 1 && MixCount(smt, draw) == h
  {
    draw :| 0 <= draw < |Halvings(smt)| && Halvings(smt)[draw] == h;
    SmallDraw(draw, |Halvings(smt)|);
  }

  /** The workload that loses threads: the one the flag names, or the one the draw decides on. */
  function RemovalPool(flag: Removal, fxu: seq<nat>, vsu: seq<nat>, draw: nat): (pool: seq<nat>) {
    match flag
    case RemoveFxu => fxu
    case RemoveVsu => vsu
    case RemoveAny => if draw % 2 == 0 then fxu else vsu
  }

  predicate CanRemove(toRemove: nat, flag: Removal, fxu: seq<nat>, vsu: seq<nat>) {
    (flag != RemoveVsu ==> toRemove <= |fxu|) && (flag != RemoveFxu ==> toRemove <= |vsu|)
  }

  function Removed(toRemove: nat, flag: Removal, fxu: seq<nat>, vsu: seq<nat>, draw: nat, rand: nat -> nat)
    : (stopped: seq<nat>)
    requires CanRemove(toRemove, flag, fxu, vsu)
  {
    Chosen(RemovalPool(flag, fxu, vsu, draw), toRemove, 0, rand)
  }

  /** Any threads of one permitted workload can be removed. */
  lemma RemovalIsDrawn(stopped: seq<nat>, toRemove: nat, flag: Removal, fxu: seq<nat>, vsu: seq<nat>)
    returns (draw: nat, rand: nat -> nat)
    requires Distinct(fxu) && Distinct(vsu) && CanRemove(toRemove, flag, fxu, vsu)
    requires OneWorkload(stopped, toRemove, flag, fxu, vsu)
    ensures Removed(toRemove, flag, fxu, vsu, draw, rand) == stopped
  {
    var fromFxu := flag != RemoveVsu && forall t :: t in stopped ==> t in fxu;
    draw := if fromFxu then 0 else 1;
    rand := DrawsTaking(if fromFxu then fxu else vsu, stopped, 0);
  }

  lemma RemovedIsOneWorkload(toRemove: nat, flag: Removal, fxu: seq<nat>, vsu: seq<nat>, draw: nat, rand: nat -> nat)
    requires Distinct(fxu) && Distinct(vsu) && CanRemove(toRemove, flag, fxu, vsu)
    ensures OneWorkload(Removed(toRemove, flag, fxu, vsu, draw, rand), toRemove, flag, fxu, vsu)
  {
    ChosenAndRemaining(RemovalPool(flag, fxu, vsu, draw), toRemove, 0, rand);
  }

  /** What a pass of a mix draws: the threads removed, the SMT value, and the threads it runs on. */
  datatype PassDraw = PassDraw(stopped: seq<nat>, count: nat, running: seq<nat>)

  /** The pass whose first column is j. */
  function PassDrawAt(smt: nat, j: nat, toRemove: nat, flag: Removal, fxu: seq<nat>, vsu: seq<nat>,
                      rand: (nat, nat) -> nat): (d: PassDraw)
    requires smt > 1 && CanRemove(toRemove, flag, fxu, vsu)
  {
    var count := MixCount(smt, rand(j + 2, 0));
    PassDraw(Removed(toRemove, flag, fxu, vsu, rand(j + 1, 0), DrawsAt(rand, j + 1, 1)), count,
             Chosen(Core(smt), count, 0, DrawsAt(rand, j + 2, 1)))
  }

  /** The removed threads are of one permitted workload, the SMT value is below the level, and as
      many threads of the core as it says run on it. */
  ghost predicate IsPass(d: PassDraw, smt: nat, toRemove: nat, flag: Removal, fxu: seq<nat>, vsu: seq<nat>) {
    && OneWorkload(d.stopped, toRemove, flag, fxu, vsu)
    && d.count in Halvings(smt) && |d.running| == d.count && Some(d.running, Core(smt))
  }

  lemma PassDrawIsPass(smt: nat, j: nat, toRemove: nat, flag: Removal, fxu: seq<nat>, vsu: seq<nat>,
                       rand: (nat, nat) -> nat)
    requires smt > 1 && Distinct(fxu) && Distinct(vsu) && CanRemove(toRemove, flag, fxu, vsu)
    ensures IsPass(PassDrawAt(smt, j, toRemove, flag, fxu, vsu, rand), smt, toRemove, flag, fxu, vsu)
  {
    RemovedIsOneWorkload(toRemove, flag, fxu, vsu, rand(j + 1, 0), DrawsAt(rand, j + 1, 1));
    ChosenAndRemaining(Core(smt), MixCount(smt, rand(j + 2, 0)), 0, DrawsAt(rand, j + 2, 1));
  }

  function First(draw: nat, later: nat -> nat): (rand: nat -> nat) {
    k => if k == 0 then draw else later(k - 1)
  }

  /** Every such pass is drawn by some random numbers. */
  lemma PassIsDrawn(smt: nat, j: nat, toRemove: nat, flag: Removal, fxu: seq<nat>, vsu: seq<nat>, d: PassDraw)
    returns (rand: (nat, nat) -> nat)
    requires smt > 1 && Distinct(fxu) && Distinct(vsu) && CanRemove(toRemove, flag, fxu, vsu)
    requires IsPass(d, smt, toRemove, flag, fxu, vsu)
    ensures d == PassDrawAt(smt, j, toRemove, flag, fxu, vsu, rand)
  {
    var which, removing := RemovalIsDrawn(d.stopped, toRemove, flag, fxu, vsu);
    var value := MixCountReaches(smt, d.count);
    var running := DrawsTaking(Core(smt), d.running, 0);
    rand := BothRows(j, First(which, removing), First(value, running));
    RowsReadBack(RemovalPool(flag, fxu, vsu, which), toRemove, rand, j + 1, which, removing);
    RowsReadBack(Core(smt), d.count, rand, j + 2, value, running);
  }

  function BothRows(j: nat, first: nat -> nat, second: nat -> nat): (rand: (nat, nat) -> nat) {
    (i, k) => if i == j + 1 then first(k) else second(k)
  }

  lemma RowsReadBack(left: seq<nat>, count: nat, rand: (nat, nat) -> nat, i: nat, draw: nat, later: nat -> nat)
    requires count <= |left| && forall k: nat :: rand(i, k) == First(draw, later)(k)
    ensures rand(i, 0) == draw && Chosen(left, count, 0, DrawsAt(rand, i, 1)) == Chosen(left, count, 0, later)
  {
    ChosenReadsFrom(left, count, 0, DrawsAt(rand, i, 1), later);
  }

  /** The first n passes. */
  function PassDraws(smt: nat, n: nat, toRemove: nat, flag: Removal, fxu: seq<nat>, vsu: seq<nat>,
                     rand: (nat, nat) -> nat): (ds: seq<PassDraw>)
    requires smt > 1 && CanRemove(toRemove, flag, fxu, vsu)
    ensures |ds| == n
  {
    seq(n, p requires 0 <= p < n => PassDrawAt(smt, 3 * p, toRemove, flag, fxu, vsu, rand))
  }

  lemma DrawnPassIsPass(smt: nat, ds: seq<PassDraw>, toRemove: nat, flag: Removal, fxu: seq<nat>, vsu: seq<nat>,
                        rand: (nat, nat) -> nat, p: nat)
    requires smt > 1 && Distinct(fxu) && Distinct(vsu) && CanRemove(toRemove, flag, fxu, vsu)
    requires p < |ds| && ds == PassDraws(smt, |ds|, toRemove, flag, fxu, vsu, rand)
    ensures IsPass(ds[p], smt, toRemove, flag, fxu, vsu)
  {
    PassDrawIsPass(smt, 3 * p, toRemove, flag, fxu, vsu, rand);
  }

  ghost predicate SameRows(a: (nat, nat) -> nat, b: (nat, nat) -> nat, from: nat, to: nat) {
    forall i: nat, k: nat :: from <= i < to ==> a(i, k) == b(i, k)
  }

  function RowsFrom(j: nat, before: (nat, nat) -> nat, after: (nat, nat) -> nat): (rand: (nat, nat) -> nat) {
    (i: nat, k: nat) => if i < j then before(i, k) else after(i, k)
  }

  lemma PassReadsRows(smt: nat, j: nat, toRemove: nat, flag: Removal, fxu: seq<nat>, vsu: seq<nat>,
                      a: (nat, nat) -> nat, b: (nat, nat) -> nat)
    requires smt > 1 && CanRemove(toRemove, flag, fxu, vsu) && SameRows(a, b, j + 1, j + 3)
    ensures PassDrawAt(smt, j, toRemove, flag, fxu, vsu, a) == PassDrawAt(smt, j, toRemove, flag, fxu, vsu, b)
  {
    ChosenReadsFrom(RemovalPool(flag, fxu, vsu, a(j + 1, 0)), toRemove, 0, DrawsAt(a, j + 1, 1), DrawsAt(b, j + 1, 1));
    ChosenReadsFrom(Core(smt), MixCount(smt, a(j + 2, 0)), 0, DrawsAt(a, j + 2, 1), DrawsAt(b, j + 2, 1));
  }

  lemma PassDrawsReadRows(smt: nat, n: nat, toRemove: nat, flag: Removal, fxu: seq<nat>, vsu: seq<nat>,
                          a: (nat, nat) -> nat, b: (nat, nat) -> nat)
    requires smt > 1 && CanRemove(toRemove, flag, fxu, vsu) && SameRows(a, b, 0, 3 * n)
    ensures PassDraws(smt, n, toRemove, flag, fxu, vsu, a) == PassDraws(smt, n, toRemove, flag, fxu, vsu, b)
  {
    forall p | 0 <= p < n
      ensures PassDrawAt(smt, 3 * p, toRemove, flag, fxu, vsu, a) == PassDrawAt(smt, 3 * p, toRemove, flag, fxu, vsu, b)
    {
      PassReadsRows(smt, 3 * p, toRemove, flag, fxu, vsu, a, b);
    }
  }

  lemma PassDrawsGoOn(smt: nat, ds: seq<PassDraw>, d: PassDraw, toRemove: nat, flag: Removal, fxu: seq<nat>,
                      vsu: seq<nat>, rand: (nat, nat) -> nat)
    requires smt > 1 && CanRemove(toRemove, flag, fxu, vsu)
    requires ds == PassDraws(smt, |ds|, toRemove, flag, fxu, vsu, rand)
    requires d == PassDrawAt(smt, 3 * |ds|, toRemove, flag, fxu, vsu, rand)
    ensures ds + [d] == PassDraws(smt, |ds| + 1, toRemove, flag, fxu, vsu, rand)
  {
  }

  lemma OnePassMore(smt: nat, ds: seq<PassDraw>, d: PassDraw, toRemove: nat, flag: Removal, fxu: seq<nat>,
                    vsu: seq<nat>, before: (nat, nat) -> nat) returns (rand: (nat, nat) -> nat)
    requires smt > 1 && Distinct(fxu) && Distinct(vsu) && CanRemove(toRemove, flag, fxu, vsu)
    requires ds == PassDraws(smt, |ds|, toRemove, flag, fxu, vsu, before)
    requires IsPass(d, smt, toRemove, flag, fxu, vsu)
    ensures SameRows(rand, before, 0, 1)
    ensures ds + [d] == PassDraws(smt, |ds| + 1, toRemove, flag, fxu, vsu, rand)
  {
    var last := PassIsDrawn(smt, 3 * |ds|, toRemove, flag, fxu, vsu, d);
    rand := RowsFrom(3 * |ds| + 1, before, last);
    PassReadsRows(smt, 3 * |ds|, toRemove, flag, fxu, vsu, rand, last);
    PassDrawsReadRows(smt, |ds|, toRemove, flag, fxu, vsu, before, rand);
    PassDrawsGoOn(smt, ds, d, toRemove, flag, fxu, vsu, rand);
  }

  /** Every course of passes is drawn by some random numbers, whatever the draws of column 0 are. */
  lemma {:induction false} PassesAreDrawn(smt: nat, deal: (nat, nat) -> nat, toRemove: nat, flag: Removal,
                                          fxu: seq<nat>, vsu: seq<nat>, ds: seq<PassDraw>)
    returns (rand: (nat, nat) -> nat)
    requires smt > 1 && Distinct(fxu) && Distinct(vsu) && CanRemove(toRemove, flag, fxu, vsu)
    requires forall p :: 0 <= p < |ds| ==> IsPass(ds[p], smt, toRemove, flag, fxu, vsu)
    ensures SameRows(rand, deal, 0, 1)
    ensures ds == PassDraws(smt, |ds|, toRemove, flag, fxu, vsu, rand)
    decreases |ds|
  {
    if ds == [] {
      rand := deal;
    } else {
      var n := |ds| - 1;
      var before := PassesAreDrawn(smt, deal, toRemove, flag, fxu, vsu, ds[..n]);
      rand := OnePassMore(smt, ds[..n], ds[n], toRemove, flag, fxu, vsu, before);
      assert ds == ds[..n] + [ds[n]];
    }
  }

  /** All threads on, then all but the stopped ones, then `count` of them. */
  predicate PassColumns(all: seq<nat>, most: seq<nat>, few: seq<nat>, d: PassDraw) {
    && StoppedExactly(all, []) && StoppedExactly(most, d.stopped)
    && OnOff(few) && ActiveCount(few) == d.count && RunsExactly(few, d.running)
  }

  /** Three columns for each pass. */
  ghost predicate Passes(cols: seq<seq<nat>>, ds: seq<PassDraw>) {
    && |cols| == 3 * |ds|
    && forall p :: 0 <= p < |ds| ==> PassColumns(cols[3 * p], cols[3 * p + 1], cols[3 * p + 2], ds[p])
  }

  lemma PassesGoOn(cols: seq<seq<nat>>, three: seq<seq<nat>>, ds: seq<PassDraw>, d: PassDraw)
    requires Passes(cols, ds) && |three| == 3 && PassColumns(three[0], three[1], three[2], d)
    ensures Passes(cols + three, ds + [d])
  {
  }

  /** The columns of the passes drawn so far. */
  ghost predicate Mixed(cols: seq<seq<nat>>, ds: seq<PassDraw>, smt: nat, toRemove: nat, flag: Removal,
                        fxu: seq<nat>, vsu: seq<nat>, rand: (nat, nat) -> nat)
    requires smt > 1 && CanRemove(toRemove, flag, fxu, vsu)
  {
    ds == PassDraws(smt, |ds|, toRemove, flag, fxu, vsu, rand) && Passes(cols, ds)
  }

  lemma MixedGoesOn(cols: seq<seq<nat>>, three: seq<seq<nat>>, ds: seq<PassDraw>, d: PassDraw, smt: nat,
                    toRemove: nat, flag: Removal, fxu: seq<nat>, vsu: seq<nat>, rand: (nat, nat) -> nat)
    requires smt > 1 && CanRemove(toRemove, flag, fxu, vsu) && Mixed(cols, ds, smt, toRemove, flag, fxu, vsu, rand)
    requires d == PassDrawAt(smt, 3 * |ds|, toRemove, flag, fxu, vsu, rand)
    requires |three| == 3 && PassColumns(three[0], three[1], three[2], d)
    ensures Mixed(cols + three, ds + [d], smt, toRemove, flag, fxu, vsu, rand)
  {
    PassesGoOn(cols, three, ds, d);
    PassDrawsGoOn(smt, ds, d, toRemove, flag, fxu, vsu, rand);
  }

  class Matrix {
    const smt: nat
    /** util_seq: percentage of thread k at step i. */
    const utilSeq: array2<nat>
    /** util_str: the same rows as text. */
    const utilStr: array<string>

    ghost predicate Valid() {
      utilSeq.Length0 == smt && utilSeq.Length1 == MAX_UTIL_SEQ && utilStr.Length == smt
    }

    constructor (smt: nat)
      ensures Valid() && this.smt == smt && fresh(utilSeq) && fresh(utilStr)
    {
      this.smt := smt;
      utilSeq := new nat[smt, MAX_UTIL_SEQ];
      utilStr := new string[smt];
    }

    ghost function Column(i: nat): (col: seq<nat>)
      requires Valid() && i < MAX_UTIL_SEQ
      reads utilSeq
      ensures |col| == smt
    {
      seq(smt, k requires 0 <= k < smt reads utilSeq => utilSeq[k, i])
    }

    ghost function Row(k: nat, n: nat): (row: seq<nat>)
      requires Valid() && k < smt && n <= MAX_UTIL_SEQ
      reads utilSeq
      ensures |row| == n
    {
      seq(n, i requires 0 <= i < n reads utilSeq => utilSeq[k, i])
    }

    /** The text of every row agrees with its first n percentages. */
    ghost predicate TextUpTo(n: nat)
      requires Valid() && n <= MAX_UTIL_SEQ
      reads utilSeq, utilStr
    {
      forall k :: 0 <= k < smt ==> utilStr[k] == WriteSequence(Row(k, n))
    }

    method FillColumn(i: nat, percent: nat)
      requires Valid() && i < MAX_UTIL_SEQ
      modifies utilSeq
      ensures forall k :: 0 <= k < smt ==> utilSeq[k, i] == percent
      ensures forall k, j :: 0 <= k < smt && 0 <= j < MAX_UTIL_SEQ && j != i ==> utilSeq[k, j] == old(utilSeq[k, j])
    {
      for k := 0 to smt
        invariant forall l :: 0 <= l < k ==> utilSeq[l, i] == percent
        invariant forall l, j :: 0 <= l < smt && 0 <= j < MAX_UTIL_SEQ && j != i ==> utilSeq[l, j] == old(utilSeq[l, j])
      {
        utilSeq[k, i] := percent;
      }
    }

    /** strcat of one more column to every row's text. */
    method WriteColumn(i: nat)
      requires Valid() && i < MAX_UTIL_SEQ && TextUpTo(i)
      modifies utilStr
      ensures TextUpTo(i + 1)
    {
      for k := 0 to smt
        invariant forall l :: 0 <= l < smt ==> utilStr[l] == WriteSequence(Row(l, if l < k then i + 1 else i))
      {
        WriteSequenceAppend(Row(k, i), utilSeq[k, i]);
        assert Row(k, i + 1) == Row(k, i) + [utilSeq[k, i]];
        utilStr[k] := utilStr[k] + Decimal(utilSeq[k, i]) + "_";
      }
    }

    /** Give the listed threads a percentage in column i. */
    method SetThreads(i: nat, threads: seq<nat>, percent: nat)
      requires Valid() && i < MAX_UTIL_SEQ && forall t :: t in threads ==> t < smt
      modifies utilSeq
      ensures forall k :: 0 <= k < smt ==> utilSeq[k, i] == if k in threads then percent else old(utilSeq[k, i])
      ensures forall k, j :: 0 <= k < smt && 0 <= j < MAX_UTIL_SEQ && j != i ==> utilSeq[k, j] == old(utilSeq[k, j])
    {
      for l := 0 to |threads|
        invariant forall k :: 0 <= k < smt ==>
          utilSeq[k, i] == if k in threads[..l] then percent else old(utilSeq[k, i])
        invariant forall k, j :: 0 <= k < smt && 0 <= j < MAX_UTIL_SEQ && j != i ==> utilSeq[k, j] == old(utilSeq[k, j])
      {
        assert threads[l] in threads;
        utilSeq[threads[l], i] := percent;
      }
      assert threads[..|threads|] == threads;
    }

    /** Column i is 0 or 100 throughout, with `count` threads active. */
    ghost predicate ColumnHas(i: nat, count: nat)
      requires Valid() && i < MAX_UTIL_SEQ
      reads utilSeq
    {
      OnOff(Column(i)) && ActiveCount(Column(i)) == count
    }

    /** create_th_switch_seq: all threads run in column 0; every later column runs a freshly drawn
        set of threads, as many as the SMT value switched to. */
    method CreateThSwitchSeq(rand: (nat, nat) -> nat)
      requires Valid() && smt > 1
      modifies utilSeq, utilStr
      ensures forall i :: 0 <= i < MAX_UTIL_SEQ ==> ColumnHas(i, SwitchAt(smt, rand, i).current)
      ensures forall i :: 0 <= i < MAX_UTIL_SEQ ==> RunsExactly(Column(i), SwitchThreads(smt, rand, i))
      ensures TextUpTo(MAX_UTIL_SEQ)
    {
      var smtArray, size := SmtArray(smt);
      FirstColumn();
      var current := smt;
      for i := 1 to MAX_UTIL_SEQ
        invariant fresh(smtArray) && smtArray.Length >= size
        invariant SwitchState(current, smtArray[..size]) == SwitchAt(smt, rand, i - 1)
        invariant forall j :: 0 <= j < i ==> ColumnHas(j, SwitchAt(smt, rand, j).current)
        invariant forall j :: 0 <= j < i ==> RunsExactly(Column(j), SwitchThreads(smt, rand, j))
        invariant TextUpTo(i)
      {
        current := SwitchStep(i, smtArray, size, current, rand);
      }
    }

    /** Initially all threads run. */
    method FirstColumn()
      requires Valid()
      modifies utilSeq, utilStr
      ensures ColumnHas(0, smt) && RunsExactly(Column(0), Core(smt)) && TextUpTo(1)
    {
      FillColumn(0, 100);
      ActiveCountOfConstant(Column(0), 100);
      CoreHasAll(smt);
      StartText();
    }

    /** One more column. */
    method SwitchStep(i: nat, smtArray: array<nat>, size: nat, current: nat, rand: (nat, nat) -> nat)
      returns (next: nat)
      requires Valid() && smt > 1 && 0 < i < MAX_UTIL_SEQ && TextUpTo(i) && size <= smtArray.Length
      requires SwitchState(current, smtArray[..size]) == SwitchAt(smt, rand, i - 1)
      modifies utilSeq, utilStr, smtArray
      ensures SwitchState(next, smtArray[..size]) == SwitchAt(smt, rand, i)
      ensures ColumnHas(i, next) && RunsExactly(Column(i), SwitchThreads(smt, rand, i)) && TextUpTo(i + 1)
      ensures forall j :: 0 <= j < MAX_UTIL_SEQ && j != i ==> Column(j) == old(Column(j))
    {
      next := SwitchTo(smtArray, size, current, rand(i, 0));
      SwitchingForEver(smt, rand, i);
      SwitchColumn(i, next, DrawsAt(rand, i, 1));
    }

    /** Trade the count in force for one drawn from the array. */
    static method SwitchTo(smtArray: array<nat>, size: nat, current: nat, draw: nat) returns (next: nat)
      requires 0 < size <= smtArray.Length
      modifies smtArray
      ensures SwitchState(next, smtArray[..size]) == Switch(SwitchState(current, old(smtArray[..size])), draw)
    {
      var picked := draw % size;
      next := smtArray[picked];
      smtArray[picked] := current;
    }

    /** strcpy of column 0 into every row's text. */
    method StartText()
      requires Valid()
      modifies utilStr
      ensures TextUpTo(1)
    {
      for k := 0 to smt
        invariant forall l :: 0 <= l < k ==> utilStr[l] == WriteSequence(Row(l, 1))
      {
        assert Row(k, 1) == [] + [utilSeq[k, 0]];
        WriteSequenceAppend([], utilSeq[k, 0]);
        utilStr[k] := Decimal(utilSeq[k, 0]) + "_";
      }
    }

    /** One random column: zero everything, set `count` threads to 100, append to the text. */
    method SwitchColumn(i: nat, count: nat, rand: nat -> nat)
      requires Valid() && i < MAX_UTIL_SEQ && count <= smt && TextUpTo(i)
      modifies utilSeq, utilStr
      ensures ColumnHas(i, count) && RunsExactly(Column(i), Chosen(Core(smt), count, 0, rand)) && TextUpTo(i + 1)
      ensures forall j :: 0 <= j < MAX_UTIL_SEQ && j != i ==> Column(j) == old(Column(j))
    {
      FillColumn(i, 0);
      var picked, rest := DrawThreads(Core(smt), count, rand);
      SetThreads(i, picked, 100);
      CoreHasAll(smt);
      ActiveCountOfRest(Column(i), rest);
      assert forall k :: 0 <= k < smt ==> Row(k, i) == old(Row(k, i));
      WriteColumn(i);
    }

    static method SmtArray(smt: nat) returns (smtArray: array<nat>, size: nat)
      ensures fresh(smtArray) && size <= smtArray.Length && smtArray[..size] == Halvings(smt)
    {
      smtArray := new nat[smt];
      size := 0;
      var threads := smt;
      while threads > 1
        invariant size + threads <= smt
        invariant smtArray[..size] + Halvings(threads) == Halvings(smt)
      {
        threads := threads / 2;
        smtArray[size] := threads;
        assert smtArray[..size + 1] == smtArray[..size] + [threads];
        size := size + 1;
      }
    }

    // ---------- mixed workloads ----------

    /** The re-balancing column: `count` threads drawn from one workload stop, all others run. */
    method RemovalColumn(i: nat, removal: seq<nat>, fixed: seq<nat>, count: nat, rand: nat -> nat)
      returns (removed: seq<nat>)
      requires Valid() && i < MAX_UTIL_SEQ && TextUpTo(i) && count <= |removal|
      requires Deal(removal, fixed, Core(smt))
      modifies utilSeq, utilStr
      ensures removed == Chosen(removal, count, 0, rand)
      ensures Distinct(removed) && forall t :: t in removed ==> t in removal
      ensures StoppedExactly(Column(i), removed)
      ensures TextUpTo(i + 1)
      ensures forall j :: 0 <= j < MAX_UTIL_SEQ && j != i ==> Column(j) == old(Column(j))
    {
      var rest;
      removed, rest := DrawThreads(removal, count, rand);
      SetThreads(i, removed, 0);
      SetThreads(i, rest, 100);
      SetThreads(i, fixed, 100);
      CoreHasAll(smt);
      assert forall k :: 0 <= k < smt ==> Row(k, i) == old(Row(k, i));
      WriteColumn(i);
    }

    /** The same, for the workload the flag names or, if it permits both, the draw decides on. */
    method MixRemovalColumn(i: nat, fxu: seq<nat>, vsu: seq<nat>, flag: Removal, toRemove: nat, draw: nat,
                            rand: nat -> nat)
      returns (out: seq<nat>)
      requires Valid() && i < MAX_UTIL_SEQ && TextUpTo(i) && Deal(fxu, vsu, Core(smt))
      requires CanRemove(toRemove, flag, fxu, vsu)
      modifies utilSeq, utilStr
      ensures out == Removed(toRemove, flag, fxu, vsu, draw, rand)
      ensures StoppedExactly(Column(i), out) && OneWorkload(out, toRemove, flag, fxu, vsu) && TextUpTo(i + 1)
      ensures forall j :: 0 <= j < MAX_UTIL_SEQ && j != i ==> Column(j) == old(Column(j))
    {
      if flag == RemoveFxu || (flag == RemoveAny && draw % 2 == 0) {
        out := RemovalColumn(i, fxu, vsu, toRemove, rand);
      } else {
        out := RemovalColumn(i, vsu, fxu, toRemove, rand);
      }
    }

    /** The switching column of a mix: drawn threads run, the others do not. */
    method MixSwitchColumn(i: nat, count: nat, rand: nat -> nat) returns (picked: seq<nat>)
      requires Valid() && i < MAX_UTIL_SEQ && count <= smt && TextUpTo(i)
      modifies utilSeq, utilStr
      ensures picked == Chosen(Core(smt), count, 0, rand)
      ensures ColumnHas(i, count) && RunsExactly(Column(i), picked) && TextUpTo(i + 1)
      ensures forall j :: 0 <= j < MAX_UTIL_SEQ && j != i ==> Column(j) == old(Column(j))
    {
      var rest;
      picked, rest := DrawThreads(Core(smt), count, rand);
      SetThreads(i, picked, 100);
      SetThreads(i, rest, 0);
      CoreHasAll(smt);
      ActiveCountOfRest(Column(i), rest);
      assert forall k :: 0 <= k < smt ==> Row(k, i) == old(Row(k, i));
      WriteColumn(i);
    }

    ghost predicate Shows(cols: seq<seq<nat>>)
      requires Valid() && |cols| <= MAX_UTIL_SEQ
      reads utilSeq
    {
      forall i :: 0 <= i < |cols| ==> Column(i) == cols[i]
    }

    /** Every thread at 100 in column i. */
    method AllOnColumn(i: nat)
      requires Valid() && i < MAX_UTIL_SEQ && TextUpTo(i)
      modifies utilSeq, utilStr
      ensures StoppedExactly(Column(i), []) && TextUpTo(i + 1)
      ensures forall j :: 0 <= j < MAX_UTIL_SEQ && j != i ==> Column(j) == old(Column(j))
    {
      FillColumn(i, 100);
      assert forall k :: 0 <= k < smt ==> Row(k, i) == old(Row(k, i));
      WriteColumn(i);
    }

    /** The pass whose first column is j; the columns before it stay as they are. */
    method MixPass(ghost cols: seq<seq<nat>>, j: nat, fxu: seq<nat>, vsu: seq<nat>, flag: Removal, toRemove: nat,
                   rand: (nat, nat) -> nat) returns (d: PassDraw, ghost three: seq<seq<nat>>)
      requires Valid() && smt > 1 && |cols| == j && j + 2 < MAX_UTIL_SEQ && Shows(cols) && TextUpTo(j)
      requires Deal(fxu, vsu, Core(smt)) && CanRemove(toRemove, flag, fxu, vsu)
      modifies utilSeq, utilStr
      ensures d == PassDrawAt(smt, j, toRemove, flag, fxu, vsu, rand)
      ensures |three| == 3 && PassColumns(three[0], three[1], three[2], d)
      ensures Shows(cols + three) && TextUpTo(j + 3)
    {
      var out;
      ghost var two;
      out, two := AllAndMost(cols, j, fxu, vsu, flag, toRemove, rand);
      var next, running;
      ghost var few;
      next, running, few := Few(cols + two, j + 2, rand(j + 2, 0), DrawsAt(rand, j + 2, 1));
      d, three := PassDraw(out, next, running), two + [few];
      assert cols + three == cols + two + [few];
    }

    /** The third column of a pass. */
    method Few(ghost cols: seq<seq<nat>>, i: nat, draw: nat, rand: nat -> nat)
      returns (next: nat, running: seq<nat>, ghost few: seq<nat>)
      requires Valid() && smt > 1 && |cols| == i < MAX_UTIL_SEQ && Shows(cols) && TextUpTo(i)
      modifies utilSeq, utilStr
      ensures next == MixCount(smt, draw) && running == Chosen(Core(smt), next, 0, rand)
      ensures OnOff(few) && ActiveCount(few) == next && RunsExactly(few, running)
      ensures Shows(cols + [few]) && TextUpTo(i + 1)
    {
      next := DrawSmtValue(smt, draw);
      running := MixSwitchColumn(i, next, rand);
      few := Column(i);
    }

    /** The first two columns of a pass. */
    method AllAndMost(ghost cols: seq<seq<nat>>, j: nat, fxu: seq<nat>, vsu: seq<nat>, flag: Removal, toRemove: nat,
                      rand: (nat, nat) -> nat) returns (out: seq<nat>, ghost two: seq<seq<nat>>)
      requires Valid() && |cols| == j && j + 1 < MAX_UTIL_SEQ && Shows(cols) && TextUpTo(j)
      requires Deal(fxu, vsu, Core(smt)) && CanRemove(toRemove, flag, fxu, vsu)
      modifies utilSeq, utilStr
      ensures out == Removed(toRemove, flag, fxu, vsu, rand(j + 1, 0), DrawsAt(rand, j + 1, 1))
      ensures OneWorkload(out, toRemove, flag, fxu, vsu)
      ensures |two| == 2 && StoppedExactly(two[0], []) && StoppedExactly(two[1], out)
      ensures Shows(cols + two) && TextUpTo(j + 2)
    {
      AllOnColumn(j);
      out := MixRemovalColumn(j + 1, fxu, vsu, flag, toRemove, rand(j + 1, 0), DrawsAt(rand, j + 1, 1));
      two := [Column(j), Column(j + 1)];
    }

    /** The array of SMT values is built anew for each pass, so what is written back to it after
        a draw is never read. */
    static method DrawSmtValue(smt: nat, draw: nat) returns (next: nat)
      requires smt > 1
      ensures next == MixCount(smt, draw)
    {
      var smtArray, size := SmtArray(smt);
      next := smtArray[draw % size];
      assert next == smtArray[..size][draw % size];
    }

    /** create_th_mix_seq: three passes, each one column with all threads running, one with some
        threads of a single workload stopped, and one switched to a smaller SMT value. */
    method CreateThMixSeq(fxuThreads: nat, vsuThreads: nat, flag: Removal, toRemove: nat, rand: (nat, nat) -> nat)
      returns (fxu: seq<nat>, vsu: seq<nat>, ds: seq<PassDraw>, ghost cols: seq<seq<nat>>)
      requires Valid() && smt > 1 && fxuThreads + vsuThreads == smt
      requires flag != RemoveVsu ==> toRemove <= fxuThreads
      requires flag != RemoveFxu ==> toRemove <= vsuThreads
      modifies utilSeq, utilStr
      ensures fxu == Chosen(Core(smt), fxuThreads, 0, DrawsAt(rand, 0, 0))
      ensures vsu == Remaining(Core(smt), fxuThreads, 0, DrawsAt(rand, 0, 0)) && Deal(fxu, vsu, Core(smt))
      ensures CanRemove(toRemove, flag, fxu, vsu)
      ensures |cols| == 9 && Shows(cols) && Mixed(cols, ds, smt, toRemove, flag, fxu, vsu, rand)
      ensures forall p :: 0 <= p < 3 ==> IsPass(ds[p], smt, toRemove, flag, fxu, vsu)
      ensures TextUpTo(9)
    {
      fxu, vsu := DrawThreads(Core(smt), fxuThreads, DrawsAt(rand, 0, 0));
      ClearText();
      ds, cols := MixPasses(fxu, vsu, flag, toRemove, rand);
      forall p | 0 <= p < 3 ensures IsPass(ds[p], smt, toRemove, flag, fxu, vsu) {
        DrawnPassIsPass(smt, ds, toRemove, flag, fxu, vsu, rand, p);
      }
    }

    method MixPasses(fxu: seq<nat>, vsu: seq<nat>, flag: Removal, toRemove: nat, rand: (nat, nat) -> nat)
      returns (ds: seq<PassDraw>, ghost cols: seq<seq<nat>>)
      requires Valid() && smt > 1 && TextUpTo(0) && Deal(fxu, vsu, Core(smt)) && CanRemove(toRemove, flag, fxu, vsu)
      modifies utilSeq, utilStr
      ensures |cols| == 9 && Shows(cols) && Mixed(cols, ds, smt, toRemove, flag, fxu, vsu, rand)
      ensures TextUpTo(9)
    {
      ds, cols := [], [];
      for p := 0 to 3
        invariant |ds| == p && |cols| == 3 * p && Shows(cols) && TextUpTo(3 * p)
        invariant Mixed(cols, ds, smt, toRemove, flag, fxu, vsu, rand)
      {
        var d;
        d, cols := AnotherPass(cols, ds, 3 * p, fxu, vsu, flag, toRemove, rand);
        ds := ds + [d];
      }
    }

    /** One more pass. */
    method AnotherPass(ghost cols: seq<seq<nat>>, ghost ds: seq<PassDraw>, j: nat, fxu: seq<nat>, vsu: seq<nat>,
                       flag: Removal, toRemove: nat, rand: (nat, nat) -> nat)
      returns (d: PassDraw, ghost cols': seq<seq<nat>>)
      requires Valid() && smt > 1 && |cols| == j == 3 * |ds| && j + 2 < MAX_UTIL_SEQ && Shows(cols) && TextUpTo(j)
      requires Deal(fxu, vsu, Core(smt)) && CanRemove(toRemove, flag, fxu, vsu)
      requires Mixed(cols, ds, smt, toRemove, flag, fxu, vsu, rand)
      modifies utilSeq, utilStr
      ensures |cols'| == j + 3 && Shows(cols') && TextUpTo(j + 3)
      ensures Mixed(cols', ds + [d], smt, toRemove, flag, fxu, vsu, rand)
    {
      ghost var three;
      d, three := MixPass(cols, j, fxu, vsu, flag, toRemove, rand);
      cols' := cols + three;
      MixedGoesOn(cols, three, ds, d, smt, toRemove, flag, fxu, vsu, rand);
    }

    method ClearText()
      requires Valid()
      modifies utilStr
      ensures TextUpTo(0)
    {
      for k := 0 to smt
        invariant forall l :: 0 <= l < k ==> utilStr[l] == ""
      {
        utilStr[k] := "";
      }
    }
  }
}
