/** create_cfg_maxpwr_exp from its text to the running machine: load rises and falls one core at a
    time, as long as the literal schedules fit their word. */
module PowerRamp {
  import opened CText
  import opened Utilization
  import opened Schedule
  import opened Equaliser
  import opened CoreThreads
  import opened CpuBinding
  import opened Stanzas
  import opened Seqs
  import opened Pipeline

  // ---------- the cores of the machine ----------

  datatype Place = Place(node: nat, chip: nat, core: nat)

  function PlacesOfNode(i: nat, chips: seq<nat>): (ps: seq<Place>)
    ensures |ps| == MaxPower.Sum(chips)
  {
    if chips == [] then [] else
    var j := |chips| - 1;
    PlacesOfNode(i, chips[..j]) + seq(chips[j], k requires 0 <= k => Place(i, j, k))
  }

  /** All cores in the order of the loops over nodes, chips and cores. */
  function Places(nodes: seq<seq<nat>>): (ps: seq<Place>)
    ensures |ps| == MaxPower.Nodes(nodes)
  {
    if nodes == [] then [] else
    var i := |nodes| - 1;
    Places(nodes[..i]) + PlacesOfNode(i, nodes[i])
  }

  /** The machine has this core. */
  predicate Exists(p: Place, nodes: seq<seq<nat>>) {
    p.node < |nodes| && p.chip < |nodes[p.node]| && p.core < nodes[p.node][p.chip]
  }

  predicate Before(p: Place, q: Place) {
    p.node < q.node || (p.node == q.node && (p.chip < q.chip || (p.chip == q.chip && p.core < q.core)))
  }

  lemma {:induction false} PlacesOfNodeMeaning(i: nat, chips: seq<nat>)
    ensures forall p :: p in PlacesOfNode(i, chips) <==> p.node == i && p.chip < |chips| && p.core < chips[p.chip]
    ensures forall x, y :: 0 <= x < y < |PlacesOfNode(i, chips)| ==>
      Before(PlacesOfNode(i, chips)[x], PlacesOfNode(i, chips)[y])
  {
    if chips != [] {
      var j, ps := |chips| - 1, PlacesOfNode(i, chips);
      var init := PlacesOfNode(i, chips[..j]);
      PlacesOfNodeMeaning(i, chips[..j]);
      assert forall x :: 0 <= x < |init| ==> init[x] in init;
      forall p ensures p in ps <==> p.node == i && p.chip < |chips| && p.core < chips[p.chip] {
        if p.node == i && p.chip == j && p.core < chips[j] {
          assert ps[|init| + p.core] == p;
        }
      }
    }
  }

  /** Exactly the cores of the machine, in order of node, chip and core. */
  lemma {:induction false} PlacesMeaning(nodes: seq<seq<nat>>)
    ensures forall p :: p in Places(nodes) <==> Exists(p, nodes)
    ensures forall x, y :: 0 <= x < y < |Places(nodes)| ==> Before(Places(nodes)[x], Places(nodes)[y])
  {
    if nodes != [] {
      var i := |nodes| - 1;
      var init, last := Places(nodes[..i]), PlacesOfNode(i, nodes[i]);
      PlacesMeaning(nodes[..i]);
      PlacesOfNodeMeaning(i, nodes[i]);
      assert forall x :: 0 <= x < |init| ==> init[x] in init;
      assert forall x :: 0 <= x < |last| ==> last[x] in last;
    }
  }

  // ---------- one core ----------

  lemma ScheduleIsField(i: nat, n: nat)
    requires n > 0
    ensures Field(MaxPower.Schedule(i, n))
  {
    var s := MaxPower.Schedule(i, n);
    forall k | 0 <= k < |s| ensures s[k] == '0' || s[k] == '1' {
    }
  }

  /** strcpy of row i of the pattern array. */
  method CopyPattern(pattern: array2<char>, i: nat, ghost n: nat) returns (s: string)
    requires i < pattern.Length0 && MaxPower.RowIs(pattern, i, n)
    ensures s == MaxPower.Schedule(i, n)
  {
    s := "";
    var j := 0;
    while pattern[i, j] != '\0'
      invariant j <= 2 * n && s == MaxPower.Schedule(i, n)[..j]
      decreases 2 * n - j
    {
      s := s + [pattern[i, j]];
      j := j + 1;
    }
  }

  lemma KindsAreSupported()
    ensures Supported("fpu") && Supported("cpu") && Supported("mem")
  {
    assert EqualIgnoringCase(KINDS[1], "fpu");
    assert EqualIgnoringCase(KINDS[2], "cpu");
    assert EqualIgnoringCase(KINDS[0], "mem");
  }

  /** How many threads of a core run fpu, cpu and mem. */
  datatype Split = Split(fpu: nat, cpu: nat, mem: nat) {
    function Threads(): (smt: nat) {
      fpu + cpu + mem
    }

    /** Half of the threads run fpu, the others cpu and mem in equal parts. */
    predicate Fair() {
      fpu == (if Threads() == 1 then 1 else Threads() / 2) && mem <= cpu <= mem + 1
    }
  }

  /** The text that create_cfg_maxpwr_exp prints for a core with this schedule. */
  ghost predicate IsText(lines: seq<string>, place: Place, split: Split, memRule: string, pattern: string) {
    var parts := CoreParts(split.fpu, split.cpu, split.mem, Fpu(pattern), Cpu(pattern), Mem(memRule, pattern));
    Printable(parts) && lines == PartLines(Decimal(place.node), Decimal(place.chip), Decimal(place.core), parts)
  }

  lemma PartsAreSupported(split: Split, memRule: string, pattern: string)
    ensures var parts := CoreParts(split.fpu, split.cpu, split.mem, Fpu(pattern), Cpu(pattern), Mem(memRule, pattern));
      forall i :: 0 <= i < |parts| ==> Supported(parts[i].dev.name) && parts[i].dev.utilization == pattern
  {
    KindsAreSupported();
  }

  /** The lines of a core, printed and read: every thread has a device on its CPU with the schedule
      of the core. */
  method CoreDevices(place: Place, split: Split, memRule: string, pattern: string, lproc: CpuMap)
    returns (lines: seq<string>, devs: seq<string>, texts: seq<string>)
    requires split.fpu > 0 && Field(memRule) && Field(pattern)
    ensures IsText(lines, place, split, memRule, pattern)
    ensures |devs| == |texts| == split.Threads() && OnThreads(devs, lproc, place.node, place.chip, place.core, 0)
    ensures forall k :: 0 <= k < |texts| ==> texts[k] == pattern
  {
    var fpu, cpu, mem := split.fpu, split.cpu, split.mem;
    ghost var smt := split.Threads();
    lines := CoreLines(place.node, place.chip, place.core, fpu, cpu, mem, memRule, pattern);
    ghost var parts := CoreParts(fpu, cpu, mem, Fpu(pattern), Cpu(pattern), Mem(memRule, pattern));
    CorePartsTile(fpu, cpu, mem, Fpu(pattern), Cpu(pattern), Mem(memRule, pattern));
    PartsAreSupported(split, memRule, pattern);
    devs, texts := ReadCore(lines, lproc, place.node, place.chip, place.core, parts, smt);
    OnePattern(parts, smt, texts, pattern);
  }

  /** If all parts have one schedule, so have all threads. */
  lemma OnePattern(parts: seq<Part>, smt: nat, texts: seq<string>, pattern: string)
    requires Tiles(parts, smt) && |texts| == smt
    requires forall i :: 0 <= i < |parts| ==> HasTexts(parts[i], texts) && parts[i].dev.utilization == pattern
    ensures forall k :: 0 <= k < smt ==> texts[k] == pattern
  {
    TilesMeaning(parts, smt);
    forall k: nat | k < smt ensures texts[k] == pattern {
      assert SomePartHas(parts, k);
      var i :| 0 <= i < |parts| && parts[i].Has(k);
      assert HasTexts(parts[i], texts);
    }
  }

  // ---------- all cores ----------

  /** The core of each device, smt devices per core. */
  function Owners(cores: nat, smt: nat): (os: seq<nat>)
    ensures |os| == cores * smt
    ensures forall x :: 0 <= x < |os| ==> os[x] < cores
  {
    if cores == 0 then [] else
    assert cores * smt == (cores - 1) * smt + smt;
    Owners(cores - 1, smt) + seq(smt, i => cores - 1)
  }

  /** The thread of each device in its core. */
  function ThreadNumbers(cores: nat, smt: nat): (ks: seq<nat>)
    ensures |ks| == cores * smt
    ensures forall x :: 0 <= x < |ks| ==> ks[x] < smt
  {
    if cores == 0 then [] else
    assert cores * smt == (cores - 1) * smt + smt;
    ThreadNumbers(cores - 1, smt) + seq(smt, i => i)
  }

  /** The CPU of thread k of a core. */
  function CpuAt(lproc: CpuMap, place: Place, k: nat): (cpu: nat) {
    lproc(place.node, place.chip, place.core, k)
  }

  /** Each device is on the CPU of its own thread and has the schedule of the group of its core. */
  ghost predicate Assigned(devs: seq<string>, texts: seq<string>, cores: nat, smt: nat, places: seq<Place>,
                           groups: seq<nat>, n: nat, lproc: CpuMap) {
    && |devs| == |texts| == cores * smt && cores <= |places| && cores <= |groups|
    && forall x :: 0 <= x < |devs| ==>
         var c := Owners(cores, smt)[x];
         && CpuNumber(devs[x]) == CpuAt(lproc, places[c], ThreadNumbers(cores, smt)[x])
         && texts[x] == MaxPower.Schedule(groups[c], n)
  }

  lemma AssignedMore(devs: seq<string>, texts: seq<string>, cores: nat, smt: nat, places: seq<Place>,
                     groups: seq<nat>, n: nat, lproc: CpuMap, d: seq<string>, t: seq<string>)
    requires Assigned(devs, texts, cores, smt, places, groups, n, lproc) && cores < |places| && cores < |groups|
    requires |d| == |t| == smt
    requires OnThreads(d, lproc, places[cores].node, places[cores].chip, places[cores].core, 0)
    requires forall k :: 0 <= k < smt ==> t[k] == MaxPower.Schedule(groups[cores], n)
    ensures Assigned(devs + d, texts + t, cores + 1, smt, places, groups, n, lproc)
  {
    assert (cores + 1) * smt == cores * smt + smt;
    forall x | 0 <= x < |devs + d|
      ensures var c := Owners(cores + 1, smt)[x];
        && CpuNumber((devs + d)[x]) == CpuAt(lproc, places[c], ThreadNumbers(cores + 1, smt)[x])
        && (texts + t)[x] == MaxPower.Schedule(groups[c], n)
    {
      if x < |devs| {
        assert Owners(cores + 1, smt)[x] == Owners(cores, smt)[x];
        assert ThreadNumbers(cores + 1, smt)[x] == ThreadNumbers(cores, smt)[x];
      } else {
        var k := x - |devs|;
        assert Owners(cores + 1, smt)[x] == cores && ThreadNumbers(cores + 1, smt)[x] == k;
        assert (devs + d)[x] == d[k] && (texts + t)[x] == t[k];
        assert CpuNumber(d[k]) == lproc(places[cores].node, places[cores].chip, places[cores].core, 0 + k);
      }
    }
  }

  /** Every thread of every core is a CPU of the machine. */
  ghost predicate Online(places: seq<Place>, smt: nat, lproc: CpuMap, lcpu: seq<int>) {
    forall c, k: nat :: 0 <= c < |places| && k < smt ==> CpuAt(lproc, places[c], k) in lcpu
  }

  /** The text of the first cores. */
  ghost predicate AreTexts(lines: seq<seq<string>>, places: seq<Place>, split: Split, memRule: string,
                           groups: seq<nat>, n: nat) {
    && |lines| <= |places| && |lines| <= |groups|
    && forall c :: 0 <= c < |lines| ==> IsText(lines[c], places[c], split, memRule, MaxPower.Schedule(groups[c], n))
  }

  method AllDevices(places: seq<Place>, groups: seq<nat>, pattern: array2<char>, ghost n: nat, split: Split,
                    memRule: string, lproc: CpuMap)
    returns (lines: seq<seq<string>>, devs: seq<string>, texts: seq<string>)
    requires split.fpu > 0 && n > 0 && Field(memRule) && |groups| == |places|
    requires n <= pattern.Length0 && forall i :: 0 <= i < n ==> MaxPower.RowIs(pattern, i, n)
    requires forall c :: 0 <= c < |groups| ==> groups[c] < n
    ensures |lines| == |places| && AreTexts(lines, places, split, memRule, groups, n)
    ensures Assigned(devs, texts, |places|, split.Threads(), places, groups, n, lproc)
  {
    lines, devs, texts := [], [], [];
    for c := 0 to |places|
      invariant |lines| == c && AreTexts(lines, places, split, memRule, groups, n)
      invariant Assigned(devs, texts, c, split.Threads(), places, groups, n, lproc)
    {
      var text := CopyPattern(pattern, groups[c], n);
      ScheduleIsField(groups[c], n);
      var l, d, t := CoreDevices(places[c], split, memRule, text, lproc);
      AssignedMore(devs, texts, c, split.Threads(), places, groups, n, lproc, d, t);
      lines, devs, texts := lines + [l], devs + d, texts + t;
    }
  }

  /** What each device is told, core by core. */
  function PerCore(acts: seq<bool>, cores: nat, smt: nat): (told: seq<seq<bool>>)
    requires |acts| == cores * smt
    ensures |told| == cores
  {
    if cores == 0 then [] else
    assert cores * smt == (cores - 1) * smt + smt;
    var at := |acts| - smt;
    PerCore(acts[..at], cores - 1, smt) + [acts[at..]]
  }

  lemma {:induction false} PerCoreMeaning(acts: seq<bool>, cores: nat, smt: nat, groups: seq<nat>, n: nat, j: nat)
    requires |acts| == cores * smt && cores <= |groups|
    requires forall x :: 0 <= x < |acts| ==> acts[x] == MaxPower.On(groups[Owners(cores, smt)[x]], n, j)
    ensures forall c :: 0 <= c < cores ==> |PerCore(acts, cores, smt)[c]| == smt
    ensures forall c, k :: 0 <= c < cores && 0 <= k < smt ==>
      PerCore(acts, cores, smt)[c][k] == MaxPower.On(groups[c], n, j)
  {
    if cores > 0 {
      assert cores * smt == (cores - 1) * smt + smt;
      var at := |acts| - smt;
      forall x | 0 <= x < at ensures acts[..at][x] == MaxPower.On(groups[Owners(cores - 1, smt)[x]], n, j) {
        assert Owners(cores, smt)[x] == Owners(cores - 1, smt)[x];
      }
      PerCoreMeaning(acts[..at], cores - 1, smt, groups, n, j);
      forall k | 0 <= k < smt ensures acts[at..][k] == MaxPower.On(groups[cores - 1], n, j) {
        assert Owners(cores, smt)[at + k] == cores - 1;
      }
    }
  }

  /** The device of thread k of core c, and what it is told. */
  lemma {:induction false} DeviceOfThread(acts: seq<bool>, cores: nat, smt: nat, c: nat, k: nat)
    requires |acts| == cores * smt && c < cores && k < smt
    ensures var x := c * smt + k;
      && x < |acts| && Owners(cores, smt)[x] == c && ThreadNumbers(cores, smt)[x] == k
      && |PerCore(acts, cores, smt)[c]| == smt && PerCore(acts, cores, smt)[c][k] == acts[x]
    decreases cores
  {
    assert cores * smt == (cores - 1) * smt + smt;
    if c < cores - 1 {
      DeviceOfThread(acts[..|acts| - smt], cores - 1, smt, c, k);
    }
  }

  /** True for each device that is told to run. */
  function Told(es: seq<Exer>): (acts: seq<bool>)
    requires forall x :: 0 <= x < |es| ==> Running(es[x])
    ensures |acts| == |es|
  {
    seq(|es|, x requires 0 <= x < |es| => Action(es[x]))
  }

  /** How many cores have all of their threads told to run. */
  function RunningCores(told: seq<seq<bool>>): (k: nat) {
    if told == [] then 0 else
    var c := |told| - 1;
    RunningCores(told[..c]) + if forall k :: 0 <= k < |told[c]| ==> told[c][k] then 1 else 0
  }

  lemma {:induction false} RunningAreOn(told: seq<seq<bool>>, groups: seq<nat>, n: nat, j: nat)
    requires |told| == |groups| && forall c :: 0 <= c < |told| ==> |told[c]| > 0
    requires forall c, k :: 0 <= c < |told| && 0 <= k < |told[c]| ==> told[c][k] == MaxPower.On(groups[c], n, j)
    ensures RunningCores(told) == MaxPower.CoresOn(groups, n, j)
  {
    if told != [] {
      var c := |told| - 1;
      RunningAreOn(told[..c], groups[..c], n, j);
      assert told[c][0] == MaxPower.On(groups[c], n, j);
    }
  }

  /** The ramp on the running machine.  create_eq_cfg shares the schedules out and prints the lines of
      all cores, create_eq_mdt reads them and the equaliser runs the devices they define, among any
      others: once every thread has had t effective visits, the threads of a core are all told to run
      or all told to sleep, and the number of cores told to run is the height of the staircase in
      column t mod 2n, so that it changes by exactly one from each visit to the next. */
  method RunRamp(nodes: seq<seq<nat>>, smt: nat, memRule: string, lproc: CpuMap,
                 memory: seq<Exer>, rands: seq<nat -> nat>, o: Exercisers, lcpu: seq<int>, length: nat,
                 history: seq<seq<Visit>>, ghost t: nat)
    returns (lines: seq<seq<string>>, devs: seq<string>, texts: seq<string>, es: seq<Exer>, told: seq<seq<bool>>,
             split: Split, ghost sizes: seq<nat>)
    requires 1 <= MaxPower.Nodes(nodes) <= 16 && smt >= 1 && Field(memRule)
    requires |memory| == |rands| == MaxPower.Nodes(nodes) * smt && Distinct(lcpu) && CanRun(o, lcpu, length)
    requires Online(Places(nodes), smt, lproc, lcpu)
    requires forall i :: 0 <= i < |history| ==> |history[i]| == |memory| + |o.devs|
    requires forall x :: 0 <= x < |memory| ==> Effective(Column(history, x)) == t
    ensures split.Threads() == smt && split.Fair() && MaxPower.Even(sizes, MaxPower.Nodes(nodes))
    ensures |lines| == MaxPower.Nodes(nodes)
      && AreTexts(lines, Places(nodes), split, memRule, MaxPower.Blocks(sizes), MaxPower.Nodes(nodes))
    ensures Assigned(devs, texts, MaxPower.Nodes(nodes), smt, Places(nodes), MaxPower.Blocks(sizes),
                     MaxPower.Nodes(nodes), lproc)
    ensures AreRun(es, texts, memory, rands, length, history)
    ensures told == PerCore(Told(es), MaxPower.Nodes(nodes), smt)
    ensures forall c :: 0 <= c < |told| ==> |told[c]| == smt && forall k :: 0 <= k < smt ==> told[c][k] == told[c][0]
    ensures var n := MaxPower.Nodes(nodes);
      var j := t % (2 * n);
      RunningCores(told) == if j + 1 <= 2 * n - 1 - j then j + 1 else 2 * n - 1 - j
  {
    var cores := |Places(nodes)|;
    ghost var groups;
    lines, devs, texts, split, groups, sizes := DefineRamp(nodes, smt, memRule, lproc);
    es := RunLiterals(devs, texts, memory, rands, o, lcpu, length, history, t, cores, smt, Places(nodes), groups,
                      lproc);
    told := PerCore(Told(es), cores, smt);
    PerCoreMeaning(Told(es), cores, smt, groups, cores, t % (2 * cores));
    RunningAreOn(told, groups, cores, t % (2 * cores));
    RampHeight(sizes, cores, t % (2 * cores));
  }

  /** create_eq_cfg and create_eq_mdt: the devices of all cores. */
  method DefineRamp(nodes: seq<seq<nat>>, smt: nat, memRule: string, lproc: CpuMap)
    returns (lines: seq<seq<string>>, devs: seq<string>, texts: seq<string>, split: Split,
             ghost groups: seq<nat>, ghost sizes: seq<nat>)
    requires 1 <= MaxPower.Nodes(nodes) <= MaxPower.MAX_PATTERN && smt >= 1 && Field(memRule)
    ensures split.Threads() == smt && split.Fair()
    ensures MaxPower.Even(sizes, |Places(nodes)|) && groups == MaxPower.Blocks(sizes)
    ensures |groups| == |Places(nodes)| && forall c :: 0 <= c < |groups| ==> groups[c] < |Places(nodes)|
    ensures |lines| == |Places(nodes)| && AreTexts(lines, Places(nodes), split, memRule, groups, |Places(nodes)|)
    ensures Assigned(devs, texts, |Places(nodes)|, smt, Places(nodes), groups, |Places(nodes)|, lproc)
  {
    var cores := |Places(nodes)|;
    var pattern := new char[MaxPower.MAX_PATTERN, 2 * MaxPower.MAX_PATTERN + 2];
    assert MaxPower.NumPatterns(cores) == cores;
    MaxPower.CreatePattern(cores, pattern);
    var coresPerSet := MaxPower.CoresPerSet(cores);
    var fpu, cpu, mem := SplitThreads(smt);
    split := Split(fpu, cpu, mem);
    var gs := MaxPower.EmitCores(nodes, coresPerSet, cores);
    groups, sizes := gs, coresPerSet[..];
    lines, devs, texts := AllDevices(Places(nodes), gs, pattern, cores, split, memRule, lproc);
  }

  /** The cores that are on are the height of the staircase. */
  lemma RampHeight(sizes: seq<nat>, cores: nat, j: nat)
    requires MaxPower.Even(sizes, cores) && cores < MaxPower.MAX_PATTERN && j < 2 * cores
    ensures MaxPower.CoresOn(MaxPower.Blocks(sizes), cores, j)
         == if j + 1 <= 2 * cores - 1 - j then j + 1 else 2 * cores - 1 - j
  {
    MaxPower.EmittedCoresOn(sizes, cores, j);
    forall p | 0 <= p < cores ensures sizes[p] == 1 {
      MaxPower.OneEach(sizes, cores, p);
    }
    MaxPower.ActiveCoresSame(sizes, seq(cores, i => 1), cores, j, cores);
    MaxPower.StaircaseHeight(cores, j);
  }

  /** Devices with literal schedules: each acts as the column of its group says. */
  method RunLiterals(devs: seq<string>, texts: seq<string>, memory: seq<Exer>, rands: seq<nat -> nat>, o: Exercisers,
                     lcpu: seq<int>, length: nat, history: seq<seq<Visit>>, ghost t: nat,
                     ghost n: nat, ghost smt: nat, ghost places: seq<Place>, ghost groups: seq<nat>,
                     ghost lproc: CpuMap)
    returns (es: seq<Exer>)
    requires 0 < n <= 16 && Assigned(devs, texts, n, smt, places, groups, n, lproc)
    requires Online(places, smt, lproc, lcpu) && |memory| == |rands| == |devs|
    requires forall c :: 0 <= c < |groups| ==> groups[c] < n
    requires Distinct(lcpu) && CanRun(o, lcpu, length)
    requires forall i :: 0 <= i < |history| ==> |history[i]| == |devs| + |o.devs|
    requires forall x :: 0 <= x < |devs| ==> Effective(Column(history, x)) == t
    ensures |es| == |devs| && AreRun(es, texts, memory, rands, length, history)
    ensures forall x :: 0 <= x < |es| ==> Told(es)[x] == MaxPower.On(groups[Owners(n, smt)[x]], n, t % (2 * n))
  {
    forall x | 0 <= x < |devs|
      ensures CpuNumber(devs[x]) in lcpu && Configured(Configure(memory[x], Read(texts[x]), length))
      ensures Action(Run(Started(memory[x], texts[x], length, rands[x]), Column(history, x)))
         <==> MaxPower.On(groups[Owners(n, smt)[x]], n, t % (2 * n))
    {
      var c, k := Owners(n, smt)[x], ThreadNumbers(n, smt)[x];
      assert CpuAt(lproc, places[c], k) in lcpu;
      StaircaseReplay(groups[c], n, memory[x], length, rands[x], Column(history, x));
    }
    es := LaunchAmong(Exercisers(devs, texts, memory, rands), o, lcpu, length, history);
  }
}
