/** create_eq_cfg's power ramp: literal schedules shaped like a staircase, shared out over the
    cores so that load rises and falls one group of cores at a time. */
module MaxPower {
  const MAX_PATTERN: nat := 32

  // ---------- the staircase ----------

  function NumPatterns(cores: nat): (n: nat) {
    if cores > MAX_PATTERN then MAX_PATTERN else cores
  }

  /** Schedule i of n is on in columns i..i+n-1 out of 2n. */
  predicate On(i: nat, n: nat, j: nat) {
    i <= j < i + n
  }

  function Schedule(i: nat, n: nat): (s: string)
    ensures |s| == 2 * n
  {
    seq(2 * n, j requires 0 <= j => if On(i, n, j) then '1' else '0')
  }

  /** Row i of the array holds schedule i of n. */
  ghost predicate RowIs(pattern: array2<char>, i: nat, n: nat)
    requires i < pattern.Length0
    reads pattern
  {
    && 2 * n < pattern.Length1 && pattern[i, 2 * n] == '\0'
    && forall j :: 0 <= j < 2 * n ==> pattern[i, j] == Schedule(i, n)[j]
  }

  /** create_pattern: one literal schedule per row, terminated by '\0'. */
  method CreatePattern(cores: nat, pattern: array2<char>)
    requires pattern.Length0 == MAX_PATTERN && pattern.Length1 == 2 * MAX_PATTERN + 2
    modifies pattern
    ensures forall i :: 0 <= i < NumPatterns(cores) ==> RowIs(pattern, i, NumPatterns(cores))
  {
    var n := NumPatterns(cores);
    for i := 0 to n
      invariant forall h :: 0 <= h < i ==>
        pattern[h, 2 * n] == '\0' && forall j :: 0 <= j < 2 * n ==> pattern[h, j] == Schedule(h, n)[j]
    {
      FillRow(pattern, i, n);
    }
    assert forall h :: 0 <= h < n ==> RowIs(pattern, h, n);
  }

  /** One row: zeros up to column i, n ones, zeros to the end. */
  method FillRow(pattern: array2<char>, i: nat, n: nat)
    requires i < n <= pattern.Length0 && 2 * n < pattern.Length1
    modifies pattern
    ensures pattern[i, 2 * n] == '\0'
    ensures forall j :: 0 <= j < 2 * n ==> pattern[i, j] == Schedule(i, n)[j]
    ensures forall h, j :: 0 <= h < pattern.Length0 && 0 <= j < pattern.Length1 && h != i ==>
      pattern[h, j] == old(pattern[h, j])
  {
    var j := 0;
    while j < 2 * n
      invariant j <= i || i + n <= j <= 2 * n
      invariant forall h, l :: 0 <= h < pattern.Length0 && 0 <= l < pattern.Length1 && h != i ==>
        pattern[h, l] == old(pattern[h, l])
      invariant forall l :: 0 <= l < j ==> pattern[i, l] == Schedule(i, n)[l]
    {
      if i == j {
        for k := 0 to n
          invariant j == i + k
          invariant forall h, l :: 0 <= h < pattern.Length0 && 0 <= l < pattern.Length1 && h != i ==>
            pattern[h, l] == old(pattern[h, l])
          invariant forall l :: 0 <= l < j ==> pattern[i, l] == Schedule(i, n)[l]
        {
          pattern[i, j] := '1';
          j := j + 1;
        }
      } else {
        pattern[i, j] := '0';
        j := j + 1;
      }
    }
    pattern[i, j] := '\0';
  }

  lemma Successor(j: nat, m: nat)
    requires j < m
    ensures (j + 1) % m == if j + 1 == m then 0 else j + 1
  {
  }

  /** The column after j, the last being followed by the first. */
  function NextColumn(n: nat, j: nat): (r: nat)
    requires j < 2 * n
    ensures r == (j + 1) % (2 * n) && r < 2 * n
  {
    Successor(j, 2 * n);
    if j + 1 == 2 * n then 0 else j + 1
  }

  /** The schedule that changes between column j and the next one. */
  function Mover(n: nat, j: nat): (i: int) {
    if j + 1 < n then j + 1 else if j < 2 * n - 1 then j + 1 - n else 0
  }

  /** Every step, the wrap included, turns exactly one schedule on or off. */
  lemma OneMoverPerStep(n: nat, j: nat, i: nat)
    requires j < 2 * n && i < n
    ensures 0 <= Mover(n, j) < n
    ensures On(i, n, j) != On(i, n, NextColumn(n, j)) <==> i == Mover(n, j)
  {
  }

  /** How many cores are active in column j when group p of the first m has sizes[p] cores. */
  function ActiveCores(sizes: seq<nat>, n: nat, j: nat, m: nat): (a: nat)
    requires m <= |sizes|
  {
    if m == 0 then 0 else ActiveCores(sizes, n, j, m - 1) + if On(m - 1, n, j) then sizes[m - 1] else 0
  }

  lemma {:induction false} ActiveCoresChange(sizes: seq<nat>, n: nat, j: nat, m: nat)
    requires n <= |sizes| && m <= n && j < 2 * n
    ensures var next, v := NextColumn(n, j), Mover(n, j);
      ActiveCores(sizes, n, next, m) - ActiveCores(sizes, n, j, m)
        == if 0 <= v < m then (if On(v, n, next) then sizes[v] else -(sizes[v] as int)) else 0
    decreases m
  {
    if m > 0 {
      ActiveCoresChange(sizes, n, j, m - 1);
      OneMoverPerStep(n, j, m - 1);
    }
  }

  /** The ramp: from one column to the next the number of active cores goes up, in the first half
      and at the wrap, or down, in the second half, by exactly one group. */
  lemma RampByOneGroup(sizes: seq<nat>, n: nat, j: nat)
    requires 0 < n <= |sizes| && j < 2 * n
    ensures var next, v := NextColumn(n, j), Mover(n, j);
      && 0 <= v < n
      && ActiveCores(sizes, n, next, n) ==
           ActiveCores(sizes, n, j, n) + if j + 1 < n || j + 1 == 2 * n then sizes[v] else -(sizes[v] as int)
  {
    OneMoverPerStep(n, j, 0);
    OneMoverPerStep(n, j, Mover(n, j));
    ActiveCoresChange(sizes, n, j, n);
  }

  lemma {:induction false} OnAmongFirst(n: nat, j: nat, m: nat)
    requires j < 2 * n && m <= n
    ensures ActiveCores(seq(n, i => 1), n, j, m)
         == (if j + 1 < m then j + 1 else m) - (if j < n then 0 else if j + 1 - n < m then j + 1 - n else m)
    decreases m
  {
    if m > 0 {
      OnAmongFirst(n, j, m - 1);
    }
  }

  /** Column j has min(j + 1, 2n - 1 - j) schedules on. */
  lemma StaircaseHeight(n: nat, j: nat)
    requires j < 2 * n
    ensures ActiveCores(seq(n, i => 1), n, j, n) == if j + 1 <= 2 * n - 1 - j then j + 1 else 2 * n - 1 - j
  {
    OnAmongFirst(n, j, n);
  }

  // ---------- sharing out the cores ----------

  function Sum(s: seq<nat>): (t: nat) {
    if s == [] then 0 else Sum(s[..|s| - 1]) + s[|s| - 1]
  }

  /** As even as possible over 32 groups, the larger groups first. */
  ghost predicate Even(sizes: seq<nat>, cores: nat) {
    && |sizes| == MAX_PATTERN
    && Sum(sizes) == cores
    && (forall p, q :: 0 <= p < q < MAX_PATTERN ==> sizes[q] <= sizes[p] <= sizes[q] + 1)
  }

  lemma {:induction false} SumOfTwoSizes(sizes: seq<nat>, base: nat, extra: nat)
    requires forall p :: 0 <= p < |sizes| ==> sizes[p] == base + if p < extra then 1 else 0
    ensures Sum(sizes) == |sizes| * base + if extra < |sizes| then extra else |sizes|
  {
    if sizes != [] {
      SumOfTwoSizes(sizes[..|sizes| - 1], base, extra);
      assert |sizes| * base == (|sizes| - 1) * base + base;
    }
  }

  method CoresPerSet(cores: nat) returns (coresPerSet: array<nat>)
    ensures fresh(coresPerSet) && Even(coresPerSet[..], cores)
  {
    coresPerSet := new nat[MAX_PATTERN](i => 0);
    if cores >= MAX_PATTERN {
      for i := 0 to MAX_PATTERN
        invariant forall p :: 0 <= p < i ==> coresPerSet[p] == cores / MAX_PATTERN
      {
        coresPerSet[i] := cores / MAX_PATTERN;
      }
    }
    var remaining := cores % MAX_PATTERN;
    for i := 0 to remaining
      invariant forall p :: 0 <= p < MAX_PATTERN ==>
        coresPerSet[p] == cores / MAX_PATTERN + if p < i then 1 else 0
    {
      coresPerSet[i] := coresPerSet[i] + 1;
    }
    SumOfTwoSizes(coresPerSet[..], cores / MAX_PATTERN, remaining);
  }

  /** Group 0 repeated sizes[0] times, then group 1 sizes[1] times, and so on. */
  function Blocks(sizes: seq<nat>): (gs: seq<nat>)
    ensures |gs| == Sum(sizes)
  {
    if sizes == [] then [] else
    Blocks(sizes[..|sizes| - 1]) + seq(sizes[|sizes| - 1], i => |sizes| - 1)
  }

  lemma {:induction false} SumOfPrefix(s: seq<nat>, n: nat)
    requires n <= |s|
    ensures Sum(s[..n]) <= Sum(s)
    ensures n < |s| ==> Sum(s[..n]) + s[n] <= Sum(s)
    ensures (forall p :: n <= p < |s| ==> s[p] == 0) ==> Sum(s[..n]) == Sum(s)
    decreases |s| - n
  {
    if n == |s| {
      assert s[..n] == s;
    } else {
      SumOfPrefix(s, n + 1);
      assert s[..n + 1][..n] == s[..n];
    }
  }

  /** Where the emit loop stands: m cores emitted, all groups before `group` full, `filled`
      cores in that one. */
  ghost predicate Emitting(sizes: seq<nat>, groups: seq<nat>, group: nat, filled: nat) {
    && group <= |sizes|
    && groups == Blocks(sizes[..group]) + seq(filled, i => group)
    && (if group < |sizes| && sizes[group] > 0 then filled < sizes[group] else filled == 0)
  }

  lemma EmitOne(sizes: seq<nat>, groups: seq<nat>, group: nat, filled: nat, cores: nat)
    requires Even(sizes, cores) && Emitting(sizes, groups, group, filled) && |groups| < cores
    ensures group < NumPatterns(cores) && sizes[group] > 0
    ensures
      if filled + 1 == sizes[group] then Emitting(sizes, groups + [group], group + 1, 0)
      else Emitting(sizes, groups + [group], group, filled + 1)
  {
    SumOfPrefix(sizes, group);
    if cores < MAX_PATTERN && cores <= group {
      ZeroBeyondCores(sizes, cores, group);
    }
    if filled + 1 == sizes[group] {
      assert sizes[..group + 1][..group] == sizes[..group];
      assert groups + [group] == Blocks(sizes[..group + 1]) + seq(0, i => group + 1);
    } else {
      assert groups + [group] == Blocks(sizes[..group]) + seq(filled + 1, i => group);
    }
  }

  /** With fewer cores than groups the groups from number `cores` on are empty. */
  lemma ZeroBeyondCores(sizes: seq<nat>, cores: nat, p: nat)
    requires Even(sizes, cores) && cores < MAX_PATTERN && cores <= p < MAX_PATTERN
    ensures sizes[p] == 0
  {
    if sizes[p] > 0 {
      SumAtLeast(sizes, p + 1);
      SumOfPrefix(sizes, p + 1);
    }
  }

  lemma {:induction false} SumAtLeast(s: seq<nat>, n: nat)
    requires n <= |s| && forall i :: 0 <= i < n ==> s[i] > 0
    ensures Sum(s[..n]) >= n
    decreases n
  {
    if n > 0 {
      SumAtLeast(s, n - 1);
      assert s[..n][..n - 1] == s[..n - 1];
    }
  }

  /** The emit loop of create_cfg_maxpwr_exp over nodes and chips: the group whose schedule each
      core is printed with.  Group p gets exactly sizes[p] cores, in order. */
  method EmitCores(nodes: seq<seq<nat>>, coresPerSet: array<nat>, ghost cores: nat) returns (groups: seq<nat>)
    requires Even(coresPerSet[..], cores) && cores == Nodes(nodes)
    ensures groups == Blocks(coresPerSet[..])
    ensures forall c :: 0 <= c < |groups| ==> groups[c] < NumPatterns(cores)
  {
    ghost var sizes := coresPerSet[..];
    groups := [];
    var patternNum, filled := 0, 0;
    assert Blocks(sizes[..0]) == [];
    for i := 0 to |nodes|
      invariant Emitting(sizes, groups, patternNum, filled) && |groups| == Nodes(nodes[..i])
      invariant forall c :: 0 <= c < |groups| ==> groups[c] < NumPatterns(cores)
    {
      NodesOfPrefix(nodes, i);
      for j := 0 to |nodes[i]|
        invariant Emitting(sizes, groups, patternNum, filled)
        invariant |groups| == Nodes(nodes[..i]) + Sum(nodes[i][..j])
        invariant forall c :: 0 <= c < |groups| ==> groups[c] < NumPatterns(cores)
      {
        SumOfPrefix(nodes[i], j);
        assert nodes[i][..j + 1][..j] == nodes[i][..j];
        groups, patternNum, filled := EmitChip(nodes[i][j], coresPerSet, groups, patternNum, filled, cores);
      }
      assert nodes[i][..|nodes[i]|] == nodes[i];
      assert nodes[..i + 1][..i] == nodes[..i];
    }
    assert nodes[..|nodes|] == nodes;
    AllEmitted(sizes, groups, patternNum, filled, cores);
  }

  /** The cores of one chip. */
  method EmitChip(numCores: nat, coresPerSet: array<nat>, before: seq<nat>, group: nat, inGroup: nat, ghost cores: nat)
    returns (groups: seq<nat>, patternNum: nat, filled: nat)
    requires Even(coresPerSet[..], cores) && |before| + numCores <= cores
    requires Emitting(coresPerSet[..], before, group, inGroup)
    requires forall c :: 0 <= c < |before| ==> before[c] < NumPatterns(cores)
    ensures Emitting(coresPerSet[..], groups, patternNum, filled) && |groups| == |before| + numCores
    ensures forall c :: 0 <= c < |groups| ==> groups[c] < NumPatterns(cores)
  {
    groups, patternNum, filled := before, group, inGroup;
    for k := 0 to numCores
      invariant Emitting(coresPerSet[..], groups, patternNum, filled) && |groups| == |before| + k
      invariant forall c :: 0 <= c < |groups| ==> groups[c] < NumPatterns(cores)
    {
      EmitOne(coresPerSet[..], groups, patternNum, filled, cores);
      groups := groups + [patternNum];
      filled := filled + 1;
      if filled == coresPerSet[patternNum] {
        filled := 0;
        patternNum := patternNum + 1;
      }
    }
  }

  function Nodes(nodes: seq<seq<nat>>): (n: nat) {
    if nodes == [] then 0 else Nodes(nodes[..|nodes| - 1]) + Sum(nodes[|nodes| - 1])
  }

  lemma {:induction false} NodesOfPrefix(nodes: seq<seq<nat>>, i: nat)
    requires i <= |nodes|
    ensures Nodes(nodes[..i]) <= Nodes(nodes)
    ensures i < |nodes| ==> Nodes(nodes[..i]) + Sum(nodes[i]) <= Nodes(nodes)
    decreases |nodes| - i
  {
    if i == |nodes| {
      assert nodes[..i] == nodes;
    } else {
      NodesOfPrefix(nodes, i + 1);
      assert nodes[..i + 1][..i] == nodes[..i];
    }
  }

  lemma {:induction false} AllEmitted(sizes: seq<nat>, groups: seq<nat>, group: nat, filled: nat, cores: nat)
    requires Even(sizes, cores) && Emitting(sizes, groups, group, filled) && |groups| == cores
    ensures groups == Blocks(sizes)
  {
    SumOfPrefix(sizes, group);
    if group == |sizes| {
      assert sizes[..group] == sizes;
    } else {
      assert sizes[group] == 0;
      BlocksOfZeros(sizes, group);
    }
  }

  lemma {:induction false} BlocksOfZeros(sizes: seq<nat>, n: nat)
    requires n <= |sizes| && forall p :: n <= p < |sizes| ==> sizes[p] == 0
    ensures Blocks(sizes) == Blocks(sizes[..n])
    decreases |sizes|
  {
    if n == |sizes| {
      assert sizes[..n] == sizes;
    } else {
      BlocksOfZeros(sizes[..|sizes| - 1], n);
      assert sizes[..|sizes| - 1][..n] == sizes[..n];
    }
  }

  // ---------- the cores that are on ----------

  /** How many of the cores have a schedule that is on in column j. */
  function CoresOn(groups: seq<nat>, n: nat, j: nat): (k: nat) {
    if groups == [] then 0
    else CoresOn(groups[..|groups| - 1], n, j) + if On(groups[|groups| - 1], n, j) then 1 else 0
  }

  lemma {:induction false} CoresOnOneGroup(groups: seq<nat>, k: nat, g: nat, n: nat, j: nat)
    ensures CoresOn(groups + seq(k, i => g), n, j) == CoresOn(groups, n, j) + if On(g, n, j) then k else 0
    decreases k
  {
    var all := groups + seq(k, i => g);
    if k == 0 {
      assert all == groups;
    } else {
      CoresOnOneGroup(groups, k - 1, g, n, j);
      assert all[..|all| - 1] == groups + seq(k - 1, i => g);
    }
  }

  lemma {:induction false} ActiveCoresOfPrefix(sizes: seq<nat>, n: nat, j: nat, m: nat, k: nat)
    requires m <= k <= |sizes|
    ensures ActiveCores(sizes[..k], n, j, m) == ActiveCores(sizes, n, j, m)
    decreases m
  {
    if m > 0 {
      ActiveCoresOfPrefix(sizes, n, j, m - 1, k);
    }
  }

  /** Among the emitted cores those that are on are the groups that are on. */
  lemma {:induction false} CoresOnOfBlocks(sizes: seq<nat>, n: nat, j: nat)
    ensures CoresOn(Blocks(sizes), n, j) == ActiveCores(sizes, n, j, |sizes|)
  {
    if sizes != [] {
      var k := |sizes| - 1;
      CoresOnOfBlocks(sizes[..k], n, j);
      ActiveCoresOfPrefix(sizes, n, j, k, k);
      CoresOnOneGroup(Blocks(sizes[..k]), sizes[k], k, n, j);
    }
  }

  lemma {:induction false} ActiveCoresSkipEmpty(sizes: seq<nat>, n: nat, j: nat, m: nat)
    requires n <= m <= |sizes| && forall p :: n <= p < m ==> sizes[p] == 0
    ensures ActiveCores(sizes, n, j, m) == ActiveCores(sizes, n, j, n)
    decreases m
  {
    if m > n {
      ActiveCoresSkipEmpty(sizes, n, j, m - 1);
    }
  }

  /** With the sizes of CoresPerSet, the cores that are on are counted by ActiveCores. */
  lemma EmittedCoresOn(sizes: seq<nat>, cores: nat, j: nat)
    requires Even(sizes, cores)
    ensures var n := NumPatterns(cores); CoresOn(Blocks(sizes), n, j) == ActiveCores(sizes, n, j, n)
  {
    var n := NumPatterns(cores);
    CoresOnOfBlocks(sizes, n, j);
    forall p | n <= p < MAX_PATTERN ensures sizes[p] == 0 {
      ZeroBeyondCores(sizes, cores, p);
    }
    ActiveCoresSkipEmpty(sizes, n, j, MAX_PATTERN);
  }

  lemma {:induction false} ActiveCoresSame(a: seq<nat>, b: seq<nat>, n: nat, j: nat, m: nat)
    requires m <= |a| && m <= |b| && forall p :: 0 <= p < m ==> a[p] == b[p]
    ensures ActiveCores(a, n, j, m) == ActiveCores(b, n, j, m)
    decreases m
  {
    if m > 0 {
      ActiveCoresSame(a, b, n, j, m - 1);
    }
  }

  /** With fewer cores than groups, each of the first groups has exactly one. */
  lemma OneEach(sizes: seq<nat>, cores: nat, p: nat)
    requires Even(sizes, cores) && cores < MAX_PATTERN && p < cores
    ensures sizes[p] == 1
  {
    ZeroBeyondCores(sizes, cores, cores);
    if sizes[p] == 0 {
      SumOfPrefix(sizes, p);
      SumAtMost(sizes, p);
    }
  }

  lemma {:induction false} SumAtMost(s: seq<nat>, n: nat)
    requires n <= |s| && forall i :: 0 <= i < n ==> s[i] <= 1
    ensures Sum(s[..n]) <= n
    decreases n
  {
    if n > 0 {
      SumAtMost(s, n - 1);
      assert s[..n][..n - 1] == s[..n - 1];
    }
  }

  /** From one column to the next, the number of emitted cores that are on goes up or down by
      exactly the size of one group. */
  lemma RampOfCores(sizes: seq<nat>, cores: nat, j: nat)
    requires Even(sizes, cores) && j < 2 * NumPatterns(cores)
    ensures var n := NumPatterns(cores);
      var next, v := NextColumn(n, j), Mover(n, j);
      && 0 <= v < n
      && CoresOn(Blocks(sizes), n, next) ==
           CoresOn(Blocks(sizes), n, j) + if j + 1 < n || j + 1 == 2 * n then sizes[v] else -(sizes[v] as int)
  {
    var n := NumPatterns(cores);
    EmittedCoresOn(sizes, cores, j);
    EmittedCoresOn(sizes, cores, NextColumn(n, j));
    RampByOneGroup(sizes, n, j);
  }

  // ---------- how often a group occurs ----------

  function Count(gs: seq<nat>, p: nat): (n: nat) {
    multiset(gs)[p]
  }

  /** In Blocks each group occurs as often as its size. */
  lemma {:induction false} BlocksCount(sizes: seq<nat>, p: nat)
    ensures Count(Blocks(sizes), p) == if p < |sizes| then sizes[p] else 0
  {
    if sizes != [] {
      var n := |sizes| - 1;
      BlocksCount(sizes[..n], p);
      CountOfRepeat(sizes[n], n, p);
    }
  }

  lemma {:induction false} CountOfRepeat(k: nat, g: nat, p: nat)
    ensures Count(seq(k, i => g), p) == if p == g then k else 0
  {
    if k > 0 {
      CountOfRepeat(k - 1, g, p);
      assert seq(k, i => g) == seq(k - 1, i => g) + [g];
    }
  }
}
