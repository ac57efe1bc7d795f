/** The threads of a core in the two power files: half of them fpu, the others cpu and mem, printed
    so that every thread gets exactly one of them. */
module CoreThreads {
  import opened CText
  import opened EqCfgLine
  import opened Resources
  import Utilization

  lemma RemainderOnce(a: nat, m: nat)
    requires m <= a < 2 * m
    ensures a % m == a - m
  {
  }

  /** Half of the threads run fpu, the others cpu and mem in equal parts, cpu taking the odd one;
      every thread is used. */
  method SplitThreads(smt: nat) returns (fpu: nat, cpu: nat, mem: nat)
    requires smt >= 1
    ensures fpu + cpu + mem == smt
    ensures fpu == if smt == 1 then 1 else smt / 2
    ensures mem <= cpu <= mem + 1
  {
    fpu, cpu, mem := smt / 2, 0, 0;
    if fpu == 0 {
      fpu := 1;
    } else {
      cpu := fpu / 2;
      if cpu == 0 {
        cpu := 1;
      } else {
        mem := cpu;
      }
      var used := fpu + cpu + mem;
      var left := smt % used;
      RemainderOnce(smt, used);
      while left != 0
        invariant left + fpu + cpu + mem == smt && 0 <= left <= 2
        invariant left == 2 ==> cpu == mem > 0
        invariant left == 1 ==> (mem == 0 && cpu == 1) || cpu == mem > 0 || mem == cpu + 1
        invariant left == 0 ==> mem <= cpu <= mem + 1
        decreases left
      {
        if mem == 0 || left % 2 == 0 {
          mem := mem + 1;
        } else {
          cpu := cpu + 1;
        }
        left := left - 1;
      }
    }
  }

  // ---------- what the lines say ----------

  /** The line, once read, gives a device to thread k. */
  ghost predicate LineHas(line: string, k: nat) {
    ReadLine(line).Entries? && HasThread(ReadLine(line).resource, k)
  }

  ghost predicate SomeLineHas(lines: seq<string>, k: nat) {
    exists i :: 0 <= i < |lines| && LineHas(lines[i], k)
  }

  /** Threads 0..smt-1 are each in exactly one of the lines, and no others are in any. */
  ghost predicate Partition(lines: seq<string>, smt: nat) {
    && (forall k: nat :: SomeLineHas(lines, k) <==> k < smt)
    && (forall i, j, k: nat :: 0 <= i < j < |lines| && LineHas(lines[i], k) ==> !LineHas(lines[j], k))
  }

  /** A device for n threads from `lo` on. */
  datatype Part = Part(lo: nat, n: nat, dev: Device) {
    predicate Has(k: nat) {
      lo <= k < lo + n
    }
  }

  /** Parts one after the other, none empty, from thread 0 up to smt. */
  predicate Tiles(parts: seq<Part>, smt: nat) {
    if parts == [] then smt == 0 else
    var last := parts[|parts| - 1];
    last.n > 0 && last.lo + last.n == smt && Tiles(parts[..|parts| - 1], last.lo)
  }

  ghost predicate SomePartHas(parts: seq<Part>, k: nat) {
    exists i :: 0 <= i < |parts| && parts[i].Has(k)
  }

  lemma {:induction false} TilesMeaning(parts: seq<Part>, smt: nat)
    requires Tiles(parts, smt)
    ensures forall k: nat :: SomePartHas(parts, k) <==> k < smt
    ensures forall i, j, k: nat :: 0 <= i < j < |parts| && parts[i].Has(k) ==> !parts[j].Has(k)
    ensures forall i :: 0 <= i < |parts| ==> parts[i].n > 0
  {
    if parts != [] {
      var init, last := parts[..|parts| - 1], parts[|parts| - 1];
      TilesMeaning(init, last.lo);
      forall k: nat ensures SomePartHas(parts, k) <==> k < smt {
        assert SomePartHas(parts, k) <==> SomePartHas(init, k) || last.Has(k) by {
          assert forall i :: 0 <= i < |init| ==> parts[i] == init[i];
        }
      }
      forall i, k: nat | 0 <= i < |init| && parts[i].Has(k) ensures k < last.lo {
        assert init[i].Has(k) && SomePartHas(init, k);
      }
    }
  }

  /** A line for one part of the threads of a core, or of all cores. */
  function PartLine(node: string, chip: string, core: string, p: Part): (line: string)
    requires p.n > 0
  {
    PrintLine(Resource(node, chip, core, ThreadField(p.lo, p.n)), [p.dev])
  }

  lemma PartLineRoundTrip(node: string, chip: string, core: string, p: Part)
    requires Name(node) && Name(chip) && Name(core) && p.n > 0 && Writable(p.dev)
    ensures ReadLine(PartLine(node, chip, core, p))
         == Entries(Resource(node, chip, core, ThreadField(p.lo, p.n)), [Use(p.dev)])
  {
    ThreadFieldIsName(p.lo, p.n);
    ResourceIsWritable(node, chip, core, ThreadField(p.lo, p.n));
    SingleDeviceRoundTrip(Resource(node, chip, core, ThreadField(p.lo, p.n)), p.dev);
  }

  lemma ResourceHas(node: string, chip: string, core: string, lo: nat, n: nat, k: nat)
    requires Name(node) && Name(chip) && Name(core) && n > 0
    ensures HasThread(Resource(node, chip, core, ThreadField(lo, n)), k) <==> lo <= k < lo + n
  {
    ThreadFieldIsName(lo, n);
    LevelsRoundTrip(node, chip, core, ThreadField(lo, n));
    FieldRoundTrip(lo, n, k);
  }

  lemma PartLineHas(node: string, chip: string, core: string, p: Part, k: nat)
    requires Name(node) && Name(chip) && Name(core) && p.n > 0 && Writable(p.dev)
    ensures LineHas(PartLine(node, chip, core, p), k) <==> p.Has(k)
  {
    PartLineRoundTrip(node, chip, core, p);
    ResourceHas(node, chip, core, p.lo, p.n, k);
  }

  predicate Printable(parts: seq<Part>) {
    forall i :: 0 <= i < |parts| ==> parts[i].n > 0 && Writable(parts[i].dev)
  }

  function PartLines(node: string, chip: string, core: string, parts: seq<Part>): (lines: seq<string>)
    requires Printable(parts)
    ensures |lines| == |parts|
  {
    seq(|parts|, i requires 0 <= i < |parts| => PartLine(node, chip, core, parts[i]))
  }

  /** If the parts tile the threads of a core, so do the lines printed for them, once read. */
  lemma LinesPartition(node: string, chip: string, core: string, parts: seq<Part>, smt: nat)
    requires Name(node) && Name(chip) && Name(core) && Printable(parts) && Tiles(parts, smt)
    ensures Partition(PartLines(node, chip, core, parts), smt)
  {
    var lines := PartLines(node, chip, core, parts);
    TilesMeaning(parts, smt);
    forall i, k: nat | 0 <= i < |parts| ensures LineHas(lines[i], k) <==> parts[i].Has(k) {
      PartLineHas(node, chip, core, parts[i], k);
    }
    forall k: nat ensures SomeLineHas(lines, k) <==> SomePartHas(parts, k) {
    }
  }

  // ---------- which device a thread gets ----------

  predicate Names(d: Device, name: string, rule: string, utilization: string) {
    d.name == name && d.rule == rule && d.utilization == utilization
  }

  /** The line, once read, gives thread k one device, of that name and utilisation. */
  ghost predicate LineGives(line: string, k: nat, name: string, rule: string, utilization: string) {
    var read := ReadLine(line);
    && LineHas(line, k) && |read.entries| == 1
    && read.entries[0].Use? && Names(read.entries[0].dev, name, rule, utilization)
  }

  ghost predicate Gives(lines: seq<string>, k: nat, name: string, rule: string, utilization: string) {
    exists i :: 0 <= i < |lines| && LineGives(lines[i], k, name, rule, utilization)
  }

  ghost predicate PartsGive(parts: seq<Part>, k: nat, name: string, rule: string, utilization: string) {
    exists i :: 0 <= i < |parts| && parts[i].Has(k) && Names(parts[i].dev, name, rule, utilization)
  }

  /** The first threads get an fpu device of that utilisation, the next ones cpu, the last ones mem. */
  ghost predicate SharedOut(lines: seq<string>, fpu: nat, cpu: nat, mem: nat, memRule: string, u: string) {
    && (forall k: nat :: Gives(lines, k, "fpu", "default.fpu.eq", u) <==> k < fpu)
    && (forall k: nat :: Gives(lines, k, "cpu", "default.cpu.eq", u) <==> fpu <= k < fpu + cpu)
    && (forall k: nat :: Gives(lines, k, "mem", memRule, u) <==> fpu + cpu <= k < fpu + cpu + mem)
  }

  lemma LinesGive(node: string, chip: string, core: string, parts: seq<Part>, k: nat, name: string,
                  rule: string, u: string)
    requires Name(node) && Name(chip) && Name(core) && Printable(parts)
    ensures Gives(PartLines(node, chip, core, parts), k, name, rule, u) <==> PartsGive(parts, k, name, rule, u)
  {
    var lines := PartLines(node, chip, core, parts);
    forall i | 0 <= i < |parts|
      ensures LineGives(lines[i], k, name, rule, u) <==> parts[i].Has(k) && Names(parts[i].dev, name, rule, u)
    {
      PartLineHas(node, chip, core, parts[i], k);
      PartLineRoundTrip(node, chip, core, parts[i]);
    }
  }

  /** One range of threads after the other, with devices of three different names. */
  ghost predicate InThree(parts: seq<Part>, fpu: nat, cpu: nat, mem: nat, f: Device, c: Device, m: Device) {
    forall k: nat, name: string, rule: string, u: string :: PartsGive(parts, k, name, rule, u) <==>
      || (k < fpu && Names(f, name, rule, u)) || (fpu <= k < fpu + cpu && Names(c, name, rule, u))
      || (fpu + cpu <= k < fpu + cpu + mem && Names(m, name, rule, u))
  }

  lemma LinesShareOut(node: string, chip: string, core: string, parts: seq<Part>, fpu: nat, cpu: nat, mem: nat,
                      memRule: string, u: string)
    requires Name(node) && Name(chip) && Name(core) && Printable(parts)
    requires InThree(parts, fpu, cpu, mem, Fpu(u), Cpu(u), Mem(memRule, u))
    ensures SharedOut(PartLines(node, chip, core, parts), fpu, cpu, mem, memRule, u)
  {
    forall k: nat, name: string, rule: string {
      LinesGive(node, chip, core, parts, k, name, rule, u);
    }
  }

  function Fpu(utilization: string): (d: Device) {
    Device("fpu", "default.fpu.eq", 0, 0, utilization)
  }

  function Cpu(utilization: string): (d: Device) {
    Device("cpu", "default.cpu.eq", 0, 0, utilization)
  }

  function Mem(memRule: string, utilization: string): (d: Device) {
    Device("mem", memRule, 0, 0, utilization)
  }

  /** What may be printed for a rule file or a utilisation. */
  predicate Field(s: string) {
    Word(s, {',', ':', ']'})
  }

  lemma NamesAreWords()
    ensures Word("fpu", {',', '['}) && Word("cpu", {',', '['}) && Word("mem", {',', '['})
  {
  }

  lemma RulesAreFields()
    ensures Field("default.fpu.eq") && Field("default.cpu.eq")
  {
  }

  lemma DevicesAreWritable(memRule: string, utilization: string)
    requires Field(memRule) && Field(utilization)
    ensures Writable(Fpu(utilization)) && Writable(Cpu(utilization)) && Writable(Mem(memRule, utilization))
  {
    NamesAreWords();
    RulesAreFields();
  }

  // ---------- create_cfg_maxpwr_switch ----------

  /** A part of its own for each of n threads. */
  function Singles(lo: nat, n: nat, d: Device): (parts: seq<Part>)
    ensures |parts| == n
  {
    seq(n, j requires 0 <= j => Part(lo + j, 1, d))
  }

  lemma {:induction false} SinglesTile(parts: seq<Part>, lo: nat, n: nat, d: Device)
    requires Tiles(parts, lo)
    ensures Tiles(parts + Singles(lo, n, d), lo + n)
    decreases n
  {
    var all := parts + Singles(lo, n, d);
    if n == 0 {
      assert all == parts;
    } else {
      SinglesTile(parts, lo, n - 1, d);
      assert all[..|all| - 1] == parts + Singles(lo, n - 1, d);
    }
  }

  /** The devices f, c and m on threads 0, 1, 2, ... */
  function SwitchParts(fpu: nat, cpu: nat, mem: nat, f: Device, c: Device, m: Device): (parts: seq<Part>) {
    Singles(0, fpu, f) + Singles(fpu, cpu, c) + Singles(fpu + cpu, mem, m)
  }

  lemma SwitchPartsTile(fpu: nat, cpu: nat, mem: nat, f: Device, c: Device, m: Device)
    ensures Tiles(SwitchParts(fpu, cpu, mem, f, c, m), fpu + cpu + mem)
  {
    assert [] + Singles(0, fpu, f) == Singles(0, fpu, f);
    SinglesTile([], 0, fpu, f);
    SinglesTile(Singles(0, fpu, f), fpu, cpu, c);
    SinglesTile(Singles(0, fpu, f) + Singles(fpu, cpu, c), fpu + cpu, mem, m);
  }

  lemma SwitchPartsInThree(fpu: nat, cpu: nat, mem: nat, f: Device, c: Device, m: Device)
    ensures InThree(SwitchParts(fpu, cpu, mem, f, c, m), fpu, cpu, mem, f, c, m)
  {
    var parts := SwitchParts(fpu, cpu, mem, f, c, m);
    forall k: nat, name: string, rule: string, u: string | k < fpu + cpu + mem && Names(parts[k].dev, name, rule, u)
      ensures PartsGive(parts, k, name, rule, u)
    {
      assert parts[k].Has(k);
    }
  }

  /** One of the three print loops: a line for each of n threads, from number |before| on. */
  method PrintThreads(d: Device, n: nat, before: seq<string>) returns (lines: seq<string>)
    requires Writable(d)
    ensures lines == before + PartLines("*", "*", "*", Singles(|before|, n, d))
  {
    lines := before;
    for j := 0 to n
      invariant lines == before + PartLines("*", "*", "*", Singles(|before|, j, d))
    {
      lines := lines + [PrintLine(Resource("*", "*", "*", Decimal(|before| + j)), [d])];
    }
  }

  lemma SwitchLinesJoin(fpu: nat, cpu: nat, mem: nat, f: Device, c: Device, m: Device)
    requires Writable(f) && Writable(c) && Writable(m)
    ensures Printable(SwitchParts(fpu, cpu, mem, f, c, m))
    ensures PartLines("*", "*", "*", SwitchParts(fpu, cpu, mem, f, c, m))
         == PartLines("*", "*", "*", Singles(0, fpu, f)) + PartLines("*", "*", "*", Singles(fpu, cpu, c))
          + PartLines("*", "*", "*", Singles(fpu + cpu, mem, m))
  {
  }

  method PrintAllThreads(fpu: nat, cpu: nat, mem: nat, f: Device, c: Device, m: Device) returns (lines: seq<string>)
    requires Writable(f) && Writable(c) && Writable(m)
    ensures Printable(SwitchParts(fpu, cpu, mem, f, c, m))
    ensures lines == PartLines("*", "*", "*", SwitchParts(fpu, cpu, mem, f, c, m))
  {
    SwitchLinesJoin(fpu, cpu, mem, f, c, m);
    lines := PrintThreads(f, fpu, []);
    assert lines == PartLines("*", "*", "*", Singles(0, fpu, f)) && |lines| == fpu;
    lines := PrintThreads(c, cpu, lines);
    assert |lines| == fpu + cpu;
    lines := PrintThreads(m, mem, lines);
  }

  const HALF: string := "UTIL_LEFT%50"

  /** Half of the time, in one piece at the left. */
  lemma HalfIsRead()
    ensures Utilization.Read(HALF) == Utilization.Generated(true, Utilization.UtilLeft, [50])
  {
    assert Decimal(5) == "5" && Decimal(50) == "50";
    assert HALF == Utilization.ModeName(Utilization.UtilLeft) + "%" + Decimal(50);
    Utilization.SingleRoundTrip(Utilization.UtilLeft, 50);
  }

  /** create_cfg_maxpwr_switch: the lines for the threads of every core. */
  method AllCoresLines(smt: nat, memRule: string) returns (lines: seq<string>, fpu: nat, cpu: nat, mem: nat)
    requires smt >= 1 && Field(memRule)
    ensures fpu + cpu + mem == smt && fpu == (if smt == 1 then 1 else smt / 2) && mem <= cpu <= mem + 1
    ensures var parts := SwitchParts(fpu, cpu, mem, Fpu(HALF), Cpu(HALF), Mem(memRule, HALF));
      Printable(parts) && lines == PartLines("*", "*", "*", parts)
    ensures Partition(lines, smt) && SharedOut(lines, fpu, cpu, mem, memRule, HALF)
  {
    fpu, cpu, mem := SplitThreads(smt);
    var f, c, m := Fpu(HALF), Cpu(HALF), Mem(memRule, HALF);
    DevicesAreWritable(memRule, HALF);
    lines := PrintAllThreads(fpu, cpu, mem, f, c, m);
    SwitchPartsTile(fpu, cpu, mem, f, c, m);
    SwitchPartsInThree(fpu, cpu, mem, f, c, m);
    LinesShareOut("*", "*", "*", SwitchParts(fpu, cpu, mem, f, c, m), fpu, cpu, mem, memRule, HALF);
    LinesPartition("*", "*", "*", SwitchParts(fpu, cpu, mem, f, c, m), smt);
  }

  // ---------- create_cfg_maxpwr_exp ----------

  /** Up to three parts of a core; those without threads are left out. */
  function CoreParts(fpu: nat, cpu: nat, mem: nat, f: Device, c: Device, m: Device): (parts: seq<Part>) {
    [Part(0, fpu, f)]
    + (if cpu == 0 then [] else [Part(fpu, cpu, c)])
    + (if mem == 0 then [] else [Part(fpu + cpu, mem, m)])
  }

  lemma AppendTile(parts: seq<Part>, p: Part)
    requires Tiles(parts, p.lo) && p.n > 0
    ensures Tiles(parts + [p], p.lo + p.n)
  {
    assert (parts + [p])[..|parts|] == parts;
  }

  lemma CorePartsTile(fpu: nat, cpu: nat, mem: nat, f: Device, c: Device, m: Device)
    requires fpu > 0
    ensures Tiles(CoreParts(fpu, cpu, mem, f, c, m), fpu + cpu + mem)
  {
    AppendTile([], Part(0, fpu, f));
    var parts := [Part(0, fpu, f)];
    assert [] + parts == parts;
    if cpu > 0 {
      AppendTile(parts, Part(fpu, cpu, c));
      parts := parts + [Part(fpu, cpu, c)];
    }
    if mem > 0 {
      AppendTile(parts, Part(fpu + cpu, mem, m));
      parts := parts + [Part(fpu + cpu, mem, m)];
    }
    assert parts == CoreParts(fpu, cpu, mem, f, c, m);
  }

  lemma CorePartsInThree(fpu: nat, cpu: nat, mem: nat, f: Device, c: Device, m: Device)
    ensures InThree(CoreParts(fpu, cpu, mem, f, c, m), fpu, cpu, mem, f, c, m)
  {
    var parts := CoreParts(fpu, cpu, mem, f, c, m);
    assert parts[0] == Part(0, fpu, f);
    assert cpu > 0 ==> parts[1] == Part(fpu, cpu, c);
    assert mem > 0 ==> parts[|parts| - 1] == Part(fpu + cpu, mem, m);
  }

  /** One more line of a core: a single thread by its number, several as a range. */
  method PrintPart(node: nat, chip: nat, core: nat, p: Part, before: seq<string>, ghost parts: seq<Part>)
    returns (lines: seq<string>)
    requires p.n > 0 && Writable(p.dev) && Printable(parts)
    requires before == PartLines(Decimal(node), Decimal(chip), Decimal(core), parts)
    ensures Printable(parts + [p])
    ensures lines == PartLines(Decimal(node), Decimal(chip), Decimal(core), parts + [p])
  {
    var line;
    if p.n == 1 {
      line := PrintLine(Resource(Decimal(node), Decimal(chip), Decimal(core), Decimal(p.lo)), [p.dev]);
    } else {
      var range := "[" + (Decimal(p.lo) + "-" + Decimal(p.lo + p.n - 1) + "]");
      line := PrintLine(Resource(Decimal(node), Decimal(chip), Decimal(core), range), [p.dev]);
    }
    lines := before + [line];
  }

  /** The body of the core loop of create_cfg_maxpwr_exp. */
  method PrintCore(node: nat, chip: nat, core: nat, fpu: nat, cpu: nat, mem: nat, f: Device, c: Device, m: Device)
    returns (lines: seq<string>)
    requires fpu > 0 && Writable(f) && Writable(c) && Writable(m)
    ensures Printable(CoreParts(fpu, cpu, mem, f, c, m))
    ensures lines == PartLines(Decimal(node), Decimal(chip), Decimal(core), CoreParts(fpu, cpu, mem, f, c, m))
  {
    lines := PrintPart(node, chip, core, Part(0, fpu, f), [], []);
    ghost var parts := [Part(0, fpu, f)];
    if cpu != 0 {
      lines := PrintPart(node, chip, core, Part(fpu, cpu, c), lines, parts);
      parts := parts + [Part(fpu, cpu, c)];
    }
    if mem != 0 {
      lines := PrintPart(node, chip, core, Part(fpu + cpu, mem, m), lines, parts);
      parts := parts + [Part(fpu + cpu, mem, m)];
    }
    assert parts == CoreParts(fpu, cpu, mem, f, c, m);
  }

  /** The lines of one core in create_cfg_maxpwr_exp, with its literal schedule, once the threads have
      been shared out. */
  method CoreLines(node: nat, chip: nat, core: nat, fpu: nat, cpu: nat, mem: nat, memRule: string, pattern: string)
    returns (lines: seq<string>)
    requires fpu > 0 && Field(memRule) && Field(pattern)
    ensures var parts := CoreParts(fpu, cpu, mem, Fpu(pattern), Cpu(pattern), Mem(memRule, pattern));
      Printable(parts) && lines == PartLines(Decimal(node), Decimal(chip), Decimal(core), parts)
    ensures Partition(lines, fpu + cpu + mem) && SharedOut(lines, fpu, cpu, mem, memRule, pattern)
  {
    var f, c, m := Fpu(pattern), Cpu(pattern), Mem(memRule, pattern);
    DevicesAreWritable(memRule, pattern);
    lines := PrintCore(node, chip, core, fpu, cpu, mem, f, c, m);
    CoreLinesPartition(node, chip, core, fpu, cpu, mem, f, c, m);
    CoreLinesShareOut(node, chip, core, fpu, cpu, mem, memRule, pattern);
  }

  lemma CoreLinesShareOut(node: nat, chip: nat, core: nat, fpu: nat, cpu: nat, mem: nat, memRule: string, u: string)
    requires Printable(CoreParts(fpu, cpu, mem, Fpu(u), Cpu(u), Mem(memRule, u)))
    ensures var parts := CoreParts(fpu, cpu, mem, Fpu(u), Cpu(u), Mem(memRule, u));
      SharedOut(PartLines(Decimal(node), Decimal(chip), Decimal(core), parts), fpu, cpu, mem, memRule, u)
  {
    var parts := CoreParts(fpu, cpu, mem, Fpu(u), Cpu(u), Mem(memRule, u));
    CorePartsInThree(fpu, cpu, mem, Fpu(u), Cpu(u), Mem(memRule, u));
    DecimalIsName(node);
    DecimalIsName(chip);
    DecimalIsName(core);
    LinesShareOut(Decimal(node), Decimal(chip), Decimal(core), parts, fpu, cpu, mem, memRule, u);
  }

  lemma CoreLinesPartition(node: nat, chip: nat, core: nat, fpu: nat, cpu: nat, mem: nat,
                           f: Device, c: Device, m: Device)
    requires fpu > 0 && Printable(CoreParts(fpu, cpu, mem, f, c, m))
    ensures Partition(PartLines(Decimal(node), Decimal(chip), Decimal(core), CoreParts(fpu, cpu, mem, f, c, m)),
                      fpu + cpu + mem)
  {
    CorePartsTile(fpu, cpu, mem, f, c, m);
    DecimalIsName(node);
    DecimalIsName(chip);
    DecimalIsName(core);
    LinesPartition(Decimal(node), Decimal(chip), Decimal(core), CoreParts(fpu, cpu, mem, f, c, m), fpu + cpu + mem);
  }
}
