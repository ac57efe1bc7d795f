/** create_eq_mdt on the lines of one core: a device stanza for every thread that a line names, with
    the number of the thread's logical CPU in its name. */
module Stanzas {
  import opened CText
  import opened EqCfgLine
  import opened Resources
  import opened CoreThreads
  import opened CpuBinding

  /** get_logical_cpu_num, by node, chip, core and thread. */
  type CpuMap = (int, int, int, int) -> nat

  /** The line, once read, has this part's device for this part's threads. */
  ghost predicate Says(line: string, node: nat, chip: nat, core: nat, p: Part)
    requires p.n > 0
  {
    && ReadLine(line).Entries? && ReadLine(line).entries == [Use(p.dev)]
    && Tokens(ReadLine(line).resource, LEVELS)
         == [Decimal(node), Decimal(chip), Decimal(core), ThreadField(p.lo, p.n)]
  }

  lemma PartLineSays(node: nat, chip: nat, core: nat, p: Part)
    requires p.n > 0 && Writable(p.dev)
    ensures Says(PartLine(Decimal(node), Decimal(chip), Decimal(core), p), node, chip, core, p)
  {
    DecimalIsName(node);
    DecimalIsName(chip);
    DecimalIsName(core);
    ThreadFieldIsName(p.lo, p.n);
    PartLineRoundTrip(Decimal(node), Decimal(chip), Decimal(core), p);
    LevelsRoundTrip(Decimal(node), Decimal(chip), Decimal(core), ThreadField(p.lo, p.n));
  }

  /** Device i is bound to thread lo + i of the core. */
  ghost predicate OnThreads(devs: seq<string>, lproc: CpuMap, node: nat, chip: nat, core: nat, lo: nat) {
    forall i :: 0 <= i < |devs| ==> CpuNumber(devs[i]) == lproc(node, chip, core, lo + i)
  }

  /** The names of the devices on the listed threads; mem devices are named like the others. */
  method NameDevices(name: string, ks: seq<int>, n: nat, p: nat, c: nat, lproc: CpuMap, ghost lo: nat)
    returns (devs: seq<string>)
    requires Supported(name) && forall i :: 0 <= i < |ks| ==> ks[i] == lo + i
    ensures |devs| == |ks| && OnThreads(devs, lproc, n, p, c, lo)
  {
    devs := [];
    for i := 0 to |ks|
      invariant |devs| == i && OnThreads(devs, lproc, n, p, c, lo)
    {
      StanzaBindsItsCpuIff(false, name, 0, lproc(n, p, c, ks[i]));
      devs := devs + [StanzaName(false, name, 0, lproc(n, p, c, ks[i]))];
    }
  }

  /** create_eq_mdt's main for a line with one device. */
  method ReadSingle(line: string, ghost node: nat, ghost chip: nat, ghost core: nat, ghost p: Part)
    returns (resource: string, d: Device)
    requires p.n > 0 && Writable(p.dev) && line == PartLine(Decimal(node), Decimal(chip), Decimal(core), p)
    ensures d == p.dev
    ensures Tokens(resource, LEVELS) == [Decimal(node), Decimal(chip), Decimal(core), ThreadField(p.lo, p.n)]
  {
    PartLineSays(node, chip, core, p);
    var read := ReadDeviceLine(line);
    resource, d := read.resource, read.entries[0].dev;
  }

  /** parse_filter: the core that a resource names, and its threads. */
  method ParseFilter(resource: string, ghost node: nat, ghost chip: nat, ghost core: nat, ghost lo: nat, ghost n: nat)
    returns (i: int, j: int, k: int, threads: seq<int>)
    requires n > 0
    requires Tokens(resource, LEVELS) == [Decimal(node), Decimal(chip), Decimal(core), ThreadField(lo, n)]
    ensures i == node && j == chip && k == core && threads == Range(lo, lo + n - 1)
  {
    var ts := Split(resource, LEVELS);
    AtoiOfDecimal(node);
    AtoiOfDecimal(chip);
    AtoiOfDecimal(core);
    ListedRoundTrip(lo, n);
    i, j, k, threads := Atoi(ts[0]), Atoi(ts[1]), Atoi(ts[2]), Listed(ts[3]);
  }

  /** create_dev_stanza for one device. */
  method DefineDevices(resource: string, name: string, lproc: CpuMap,
                       ghost node: nat, ghost chip: nat, ghost core: nat, ghost lo: nat, ghost n: nat)
    returns (devs: seq<string>)
    requires n > 0 && Supported(name)
    requires Tokens(resource, LEVELS) == [Decimal(node), Decimal(chip), Decimal(core), ThreadField(lo, n)]
    ensures |devs| == n && OnThreads(devs, lproc, node, chip, core, lo)
  {
    var i, j, k, threads := ParseFilter(resource, node, chip, core, lo, n);
    devs := NameDevices(name, threads, i, j, k, lproc, lo);
  }

  /** One line: a device for each of its threads, bound to the thread's CPU. */
  method ReadPart(line: string, lproc: CpuMap, ghost node: nat, ghost chip: nat, ghost core: nat, ghost p: Part)
    returns (devs: seq<string>, text: string)
    requires p.n > 0 && Writable(p.dev) && Supported(p.dev.name)
    requires line == PartLine(Decimal(node), Decimal(chip), Decimal(core), p)
    ensures |devs| == p.n && text == p.dev.utilization && OnThreads(devs, lproc, node, chip, core, p.lo)
  {
    var resource, d := ReadSingle(line, node, chip, core, p);
    devs := DefineDevices(resource, d.name, lproc, node, chip, core, p.lo, p.n);
    text := d.utilization;
  }

  lemma {:induction false} TilesPrefix(parts: seq<Part>, smt: nat, i: nat)
    requires Tiles(parts, smt) && i <= |parts|
    ensures Tiles(parts[..i], if i < |parts| then parts[i].lo else smt)
    decreases |parts|
  {
    if i == |parts| {
      assert parts[..i] == parts;
    } else if i < |parts| - 1 {
      TilesPrefix(parts[..|parts| - 1], parts[|parts| - 1].lo, i);
      assert parts[..|parts| - 1][..i] == parts[..i];
    }
  }

  /** What the lines of a core define, thread by thread. */
  ghost predicate Defines(devs: seq<string>, texts: seq<string>, parts: seq<Part>,
                          lproc: CpuMap, node: nat, chip: nat, core: nat) {
    && |devs| == |texts|
    && OnThreads(devs, lproc, node, chip, core, 0)
    && (forall i :: 0 <= i < |parts| ==> HasTexts(parts[i], texts))
  }

  /** The threads of the part have its utilisation. */
  predicate HasTexts(p: Part, texts: seq<string>) {
    p.lo + p.n <= |texts| && forall k :: p.lo <= k < p.lo + p.n ==> texts[k] == p.dev.utilization
  }

  lemma DefinesMore(devs: seq<string>, texts: seq<string>, parts: seq<Part>,
                    more: seq<string>, moreTexts: seq<string>, p: Part,
                    lproc: CpuMap, node: nat, chip: nat, core: nat)
    requires Defines(devs, texts, parts, lproc, node, chip, core) && p.lo == |devs| && |more| == |moreTexts| == p.n
    requires OnThreads(more, lproc, node, chip, core, p.lo)
    requires forall i :: 0 <= i < p.n ==> moreTexts[i] == p.dev.utilization
    ensures Defines(devs + more, texts + moreTexts, parts + [p], lproc, node, chip, core)
  {
    forall k | 0 <= k < |devs + more| ensures CpuNumber((devs + more)[k]) == lproc(node, chip, core, k) {
      if k >= |devs| {
        assert (devs + more)[k] == more[k - p.lo];
      }
    }
    forall k | p.lo <= k < p.lo + p.n ensures (texts + moreTexts)[k] == p.dev.utilization {
      assert (texts + moreTexts)[k] == moreTexts[k - p.lo];
    }
  }

  /** All lines of a core whose parts tile its threads: one device per thread, on the CPU of that
      thread and with the utilisation of its part. */
  method ReadCore(lines: seq<string>, lproc: CpuMap, ghost node: nat, ghost chip: nat, ghost core: nat,
                  ghost parts: seq<Part>, ghost smt: nat)
    returns (devs: seq<string>, texts: seq<string>)
    requires Printable(parts) && Tiles(parts, smt)
    requires forall i :: 0 <= i < |parts| ==> Supported(parts[i].dev.name)
    requires lines == PartLines(Decimal(node), Decimal(chip), Decimal(core), parts)
    ensures |devs| == smt && Defines(devs, texts, parts, lproc, node, chip, core)
  {
    devs, texts := [], [];
    TilesPrefix(parts, smt, 0);
    for i := 0 to |lines|
      invariant |devs| == (if i < |parts| then parts[i].lo else smt)
      invariant Defines(devs, texts, parts[..i], lproc, node, chip, core)
    {
      TilesPrefix(parts, smt, i + 1);
      assert parts[..i + 1] == parts[..i] + [parts[i]];
      devs, texts := ReadNext(lines[i], devs, texts, lproc, node, chip, core, parts[..i], parts[i]);
    }
    assert parts[..|parts|] == parts;
  }

  method ReadNext(line: string, devs: seq<string>, texts: seq<string>, lproc: CpuMap,
                  ghost node: nat, ghost chip: nat, ghost core: nat, ghost parts: seq<Part>, ghost p: Part)
    returns (devs': seq<string>, texts': seq<string>)
    requires p.n > 0 && Writable(p.dev) && Supported(p.dev.name)
    requires line == PartLine(Decimal(node), Decimal(chip), Decimal(core), p)
    requires Defines(devs, texts, parts, lproc, node, chip, core) && p.lo == |devs|
    ensures |devs'| == p.lo + p.n && Defines(devs', texts', parts + [p], lproc, node, chip, core)
  {
    var more, text := ReadPart(line, lproc, node, chip, core, p);
    var moreTexts := seq(|more|, j => text);
    DefinesMore(devs, texts, parts, more, moreTexts, p, lproc, node, chip, core);
    devs', texts' := devs + more, texts + moreTexts;
  }
}
