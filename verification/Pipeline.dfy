/** From the generator to the running exerciser: what create_eq_cfg draws is printed, read by
    create_eq_mdt, handed to the equaliser and replayed, and the machine does what was drawn. */
module Pipeline {
  import opened Words
  import opened CText
  import opened Utilization
  import opened Schedule
  import opened Equaliser
  import opened EqCfgLine
  import opened ThreadSequences
  import opened Resources
  import opened CoreThreads
  import opened Stanzas
  import opened CpuBinding
  import opened Seqs
  import MaxPower

  /** The exerciser that the equaliser starts for a utilisation string. */
  function Started(memory: Exer, text: string, length: nat, rand: nat -> nat): (e: Exer)
    requires Configured(Configure(memory, Read(text), length))
  {
    Start(Configure(memory, Read(text), length), rand)
  }

  // ---------- duty cycle ----------

  /** A generated schedule, from its text: over q passes through the percentages the exerciser is
      told to run exactly q times the sum of the quotas, in every mode, and that is its percentages
      of the visits but for less than one visit per replay. */
  lemma TextDutyCycle(memory: Exer, m: Mode, ps: seq<nat>, length: nat, rand: nat -> nat, vs: seq<Visit>, q: nat)
    requires m != UtilPattern && ps != [] && forall i :: 0 <= i < |ps| ==> ps[i] <= 100
    requires 1 <= length <= 32 && Effective(vs) == q * |ps| * length
    ensures var text := ModeName(m) + "%" + WriteSequence(ps);
      && Configured(Configure(memory, Read(text), length))
      && RunActions(Started(memory, text, length, rand), vs) == q * PassTotal(ps, length)
      && ShortOf(RunActions(Started(memory, text, length, rand), vs), q * PassShare(ps, length), q * |ps|)
  {
    UtilizationRoundTrip(m, ps);
    DutyCycle(Started(memory, ModeName(m) + "%" + WriteSequence(ps), length, rand), vs, q);
    ShareOfTheTime(Started(memory, ModeName(m) + "%" + WriteSequence(ps), length, rand), vs, q);
  }

  /** The text of a LEFT or RIGHT schedule decides on which visits the exerciser is told to run: on the
      first or on the last ones of each replay, as many as the quota of the percentage in force. */
  lemma TextVisits(memory: Exer, right: bool, ps: seq<nat>, length: nat, rand: nat -> nat, vs: seq<Visit>)
    requires ps != [] && (forall i :: 0 <= i < |ps| ==> ps[i] <= 100) && 1 <= length <= 32
    ensures var text := (if right then "UTIL_RIGHT%" else "UTIL_LEFT%") + WriteSequence(ps);
      var n := Effective(vs);
      var k := Quota(ps[(n / length) % |ps|], length);
      && Configured(Configure(memory, Read(text), length))
      && (Action(Run(Started(memory, text, length, rand), vs))
          <==> if right then length - k <= n % length else n % length < k)
  {
    var m := if right then UtilRight else UtilLeft;
    var text := (if right then "UTIL_RIGHT%" else "UTIL_LEFT%") + WriteSequence(ps);
    UtilizationRoundTrip(m, ps);
    assert ModeName(m) + "%" == if right then "UTIL_RIGHT%" else "UTIL_LEFT%";
    ExactVisits(Started(memory, text, length, rand), vs);
  }

  lemma RandomTextRoundTrip(ps: seq<nat>)
    requires forall i :: 0 <= i < |ps| ==> ps[i] <= 100
    ensures Read("UTIL_RANDOM%" + WriteSequence(ps)) == Generated(true, UtilRandom, ps)
  {
    UtilizationRoundTrip(UtilRandom, ps);
    assert ModeName(UtilRandom) + "%" == "UTIL_RANDOM%";
  }

  lemma RandomFrom(memory: Exer, text: string, ps: seq<nat>, length: nat, w: Uint32)
    requires ps != [] && (forall i :: 0 <= i < |ps| ==> ps[i] <= 100) && 1 <= length <= 32
    requires Read(text) == Generated(true, UtilRandom, ps)
    ensures Configured(Configure(memory, Read(text), length))
    ensures Configure(memory, Read(text), length) == memory.(mode := UtilRandom, sequence := ps, length := length)
    ensures (exists rand: nat -> nat :: Started(memory, text, length, rand).pattern == w)
       <==> GivesQuota(w, length, ps[0])
  {
    var e := Configure(memory, Read(text), length);
    RandomStartReaches(e, w);
    assert forall rand: nat -> nat :: Started(memory, text, length, rand) == Start(e, rand);
  }

  /** The text of a RANDOM schedule: any word that gives the first percentage its quota can be the first,
      and the exerciser stays in RANDOM mode, so that RandomReplayReaches speaks of the later ones. */
  lemma TextRandom(memory: Exer, ps: seq<nat>, length: nat, w: Uint32)
    requires ps != [] && (forall i :: 0 <= i < |ps| ==> ps[i] <= 100) && 1 <= length <= 32
    ensures var text := "UTIL_RANDOM%" + WriteSequence(ps);
      && Configured(Configure(memory, Read(text), length))
      && Configure(memory, Read(text), length) == memory.(mode := UtilRandom, sequence := ps, length := length)
      && ((exists rand: nat -> nat :: Started(memory, text, length, rand).pattern == w)
          <==> GivesQuota(w, length, ps[0]))
  {
    RandomTextRoundTrip(ps);
    RandomFrom(memory, "UTIL_RANDOM%" + WriteSequence(ps), ps, length, w);
  }

  /** A literal of up to 32 digits is replayed as it is written, for ever. */
  lemma TextLiteral(memory: Exer, s: string, length: nat, rand: nat -> nat, vs: seq<Visit>)
    requires Binary(s) && 1 <= |s| <= 32
    ensures Configured(Configure(memory, Read(s), length))
    ensures Action(Run(Started(memory, s, length, rand), vs)) <==> s[Effective(vs) % |s|] == '1'
    ensures var e := Configure(memory, Read(s), length);
      e == memory.(pattern := e.pattern, mode := UtilPattern, length := |s|)
  {
    LiteralReplay(s, Effective(vs) % |s|);
    LiteralVisits(Started(memory, s, length, rand), vs);
  }

  /** An unknown mode name changes percentages and length only. */
  lemma TextUnknownMode(memory: Exer, name: string, ps: seq<nat>, length: nat)
    requires name != "" && '%' !in name && name !in {"UTIL_LEFT", "UTIL_RIGHT", "UTIL_RANDOM"}
    ensures Configure(memory, Read(name + "%" + WriteSequence(ps)), length)
         == memory.(sequence := Stored(ps), length := length)
  {
    UnknownMode(name, ps);
  }

  // ---------- power ramp ----------

  /** Replayed by the equaliser, staircase schedule i of n is on at its t-th effective visit exactly
      when column t mod 2n of the staircase says so, whatever the literal is started from.  It
      takes 2n <= 32: the generator goes up to n = 32, where LiteralsKeptApartIff applies. */
  lemma StaircaseReplay(i: nat, n: nat, memory: Exer, length: nat, rand: nat -> nat, vs: seq<Visit>)
    requires i < n <= 16
    ensures Configured(Configure(memory, Read(MaxPower.Schedule(i, n)), length))
    ensures Action(Run(Started(memory, MaxPower.Schedule(i, n), length, rand), vs))
       <==> MaxPower.On(i, n, Effective(vs) % (2 * n))
  {
    TextLiteral(memory, MaxPower.Schedule(i, n), length, rand, vs);
  }

  // ---------- SMT switching ----------

  /** The name of one hardware thread in a configuration file. */
  function ThreadName(node: nat, chip: nat, core: nat, thread: nat): (s: string) {
    Resource(Decimal(node), Decimal(chip), Decimal(core), Decimal(thread))
  }

  function ThreadDevice(text: string): (d: Device) {
    Device("cpu", "default.cpu.eq", 0, 0, "UTIL_LEFT%" + text)
  }

  /** The text for one thread. */
  lemma ThreadDeviceForm(text: string)
    ensures PrintDevice(ThreadDevice(text)) == "cpu[default.cpu.eq:0:0:UTIL_LEFT%" + text + "]"
  {
    LineForm("", ThreadDevice(text));
    ThreadFields();
    ThreadHead();
    Regrouped("cpu[", "default.cpu.eq:0:0:", "UTIL_LEFT%", text);
  }

  lemma ThreadFields()
    ensures "default.cpu.eq" + ":" + PrintInt(0) + ":" + PrintInt(0) + ":" == "default.cpu.eq:0:0:"
  {
    assert PrintInt(0) == "0";
  }

  lemma ThreadHead()
    ensures "cpu[" + "default.cpu.eq:0:0:" + "UTIL_LEFT%" == "cpu[default.cpu.eq:0:0:UTIL_LEFT%"
  {
  }

  lemma Regrouped(a: string, b: string, c: string, d: string)
    ensures a + (b + (c + d) + "]") == a + b + c + d + "]"
  {
  }

  lemma SequenceTextIsFree(ps: seq<nat>, delims: set<char>)
    requires forall c :: c in delims ==> !IsDigit(c) && c != '_'
    ensures Free(WriteSequence(ps), delims)
  {
    forall i | 0 <= i < |ps| ensures Free(Texts(ps)[i], delims) {
      DecimalIsFree(ps[i], delims);
    }
    JoinIsFree(Texts(ps), seq(|ps|, i => '_'), delims);
  }

  lemma WordAfter(prefix: string, text: string, delims: set<char>)
    requires EqCfgLine.Word(prefix, delims) && Free(text, BLANKS) && Free(text, delims)
    ensures EqCfgLine.Word(prefix + text, delims)
  {
  }

  lemma LeftPrefixIsField()
    ensures Field("UTIL_LEFT%")
  {
  }

  lemma ThreadDeviceIsWritable(ps: seq<nat>)
    ensures Writable(ThreadDevice(WriteSequence(ps)))
  {
    SequenceTextIsFree(ps, BLANKS);
    SequenceTextIsFree(ps, {',', ':', ']'});
    LeftPrefixIsField();
    WordAfter("UTIL_LEFT%", WriteSequence(ps), {',', ':', ']'});
    NamesAreWords();
    RulesAreFields();
  }

  lemma ThreadTextRoundTrip(ps: seq<nat>)
    requires forall i :: 0 <= i < |ps| ==> ps[i] <= 100
    ensures Read("UTIL_LEFT%" + WriteSequence(ps)) == Generated(true, UtilLeft, ps)
  {
    UtilizationRoundTrip(UtilLeft, ps);
    assert ModeName(UtilLeft) + "%" == "UTIL_LEFT%";
  }

  /** The line of one thread brings its row of percentages through both programs unchanged. */
  lemma RowSurvivesTheTrip(node: nat, chip: nat, core: nat, thread: nat, ps: seq<nat>)
    requires forall i :: 0 <= i < |ps| ==> ps[i] <= 100
    ensures var resource, d := ThreadName(node, chip, core, thread), ThreadDevice(WriteSequence(ps));
      && ReadLine(PrintLine(resource, [d])) == Entries(resource, [Use(d)])
      && Read(d.utilization) == Generated(true, UtilLeft, ps)
  {
    DecimalIsName(node);
    DecimalIsName(chip);
    DecimalIsName(core);
    DecimalIsName(thread);
    ResourceIsWritable(Decimal(node), Decimal(chip), Decimal(core), Decimal(thread));
    ThreadDeviceIsWritable(ps);
    SingleDeviceRoundTrip(ThreadName(node, chip, core, thread), ThreadDevice(WriteSequence(ps)));
    ThreadTextRoundTrip(ps);
  }

  // ---------- the lines of a core ----------

  /** The devices of the threads of a core whose matrix has these rows. */
  function RowParts(rows: seq<seq<nat>>): (parts: seq<Part>)
    ensures |parts| == |rows|
    ensures forall k :: 0 <= k < |rows| ==> parts[k] == Part(k, 1, ThreadDevice(WriteSequence(rows[k])))
  {
    seq(|rows|, k requires 0 <= k < |rows| => Part(k, 1, ThreadDevice(WriteSequence(rows[k]))))
  }

  lemma {:induction false} OnePerThread(parts: seq<Part>)
    requires forall k :: 0 <= k < |parts| ==> parts[k].lo == k && parts[k].n == 1
    ensures Tiles(parts, |parts|)
  {
    if parts != [] {
      OnePerThread(parts[..|parts| - 1]);
    }
  }

  lemma RowPartsArePrintable(rows: seq<seq<nat>>)
    ensures Printable(RowParts(rows)) && Tiles(RowParts(rows), |rows|)
  {
    OnePerThread(RowParts(rows));
    forall k | 0 <= k < |rows| ensures Writable(RowParts(rows)[k].dev) {
      ThreadDeviceIsWritable(rows[k]);
    }
  }

  /** The print loop over the threads of one core. */
  method PrintRows(node: nat, chip: nat, core: nat, texts: seq<string>, ghost rows: seq<seq<nat>>)
    returns (lines: seq<string>)
    requires |texts| == |rows| && forall k :: 0 <= k < |rows| ==> texts[k] == WriteSequence(rows[k])
    ensures Printable(RowParts(rows))
    ensures lines == PartLines(Decimal(node), Decimal(chip), Decimal(core), RowParts(rows))
  {
    RowPartsArePrintable(rows);
    lines := [];
    ghost var all := PartLines(Decimal(node), Decimal(chip), Decimal(core), RowParts(rows));
    for l := 0 to |texts|
      invariant lines == all[..l]
    {
      RowLine(node, chip, core, rows, l);
      lines := lines + [PrintLine(ThreadName(node, chip, core, l), [ThreadDevice(texts[l])])];
    }
  }

  lemma RowLine(node: nat, chip: nat, core: nat, rows: seq<seq<nat>>, k: nat)
    requires k < |rows|
    ensures PrintLine(ThreadName(node, chip, core, k), [ThreadDevice(WriteSequence(rows[k]))])
         == PartLine(Decimal(node), Decimal(chip), Decimal(core), RowParts(rows)[k])
  {
  }

  /** create_cfg_th_trans_switch for one core: draw the matrix, print a line per thread. */
  method SwitchLines(node: nat, chip: nat, core: nat, smt: nat, rand: (nat, nat) -> nat)
    returns (lines: seq<string>, ghost rows: seq<seq<nat>>)
    requires smt > 1
    ensures |rows| == smt && Drawn(rows, rand) && Printable(RowParts(rows))
    ensures lines == PartLines(Decimal(node), Decimal(chip), Decimal(core), RowParts(rows))
  {
    var m := new Matrix(smt);
    m.CreateThSwitchSeq(rand);
    rows := seq(smt, k requires 0 <= k < smt reads m.utilSeq => m.Row(k, MAX_UTIL_SEQ));
    forall i | 0 <= i < MAX_UTIL_SEQ
      ensures OnOff(ColumnOf(rows, i)) && ActiveCount(ColumnOf(rows, i)) == SwitchAt(smt, rand, i).current
      ensures RunsExactly(ColumnOf(rows, i), SwitchThreads(smt, rand, i))
    {
      assert m.ColumnHas(i, SwitchAt(smt, rand, i).current);
      assert ColumnOf(rows, i) == m.Column(i);
    }
    lines := PrintRows(node, chip, core, m.utilStr[..], rows);
  }

  /** create_cfg_th_trans_mix for one core. */
  method MixLines(node: nat, chip: nat, core: nat, smt: nat, fxuThreads: nat, vsuThreads: nat, flag: Removal,
                  toRemove: nat, rand: (nat, nat) -> nat)
    returns (lines: seq<string>, fxu: seq<nat>, vsu: seq<nat>, ds: seq<PassDraw>, ghost rows: seq<seq<nat>>)
    requires smt > 1 && fxuThreads + vsuThreads == smt
    requires flag != RemoveVsu ==> toRemove <= fxuThreads
    requires flag != RemoveFxu ==> toRemove <= vsuThreads
    ensures Split(fxu, vsu, smt, fxuThreads, rand) && CanRemove(toRemove, flag, fxu, vsu)
    ensures |rows| == smt && MixedRows(rows, ds, toRemove, flag, fxu, vsu, rand) && Printable(RowParts(rows))
    ensures lines == PartLines(Decimal(node), Decimal(chip), Decimal(core), RowParts(rows))
  {
    var m := new Matrix(smt);
    ghost var cols;
    fxu, vsu, ds, cols := m.CreateThMixSeq(fxuThreads, vsuThreads, flag, toRemove, rand);
    rows := seq(smt, k requires 0 <= k < smt reads m.utilSeq => m.Row(k, MIX_STEPS));
    forall i | 0 <= i < MIX_STEPS ensures ColumnOf(rows, i) == m.Column(i) {
    }
    assert ColumnsOf(rows) == cols;
    lines := PrintRows(node, chip, core, m.utilStr[..], rows);
  }

  function ColumnOf(rows: seq<seq<nat>>, i: nat): (col: seq<nat>)
    requires forall k :: 0 <= k < |rows| ==> i < |rows[k]|
    ensures |col| == |rows|
  {
    seq(|rows|, k requires 0 <= k < |rows| => rows[k][i])
  }

  function ColumnsOf(rows: seq<seq<nat>>): (cols: seq<seq<nat>>)
    requires forall k :: 0 <= k < |rows| ==> |rows[k]| == MIX_STEPS
  {
    seq(MIX_STEPS, i requires 0 <= i < MIX_STEPS => ColumnOf(rows, i))
  }

  /** One thread: on or off for a whole replay, as its row says. */
  lemma ThreadFollowsRow(row: seq<nat>, memory: Exer, length: nat, rand: nat -> nat, vs: seq<Visit>)
    requires row != [] && OnOff(row) && 1 <= length <= 32
    ensures var text := ThreadDevice(WriteSequence(row)).utilization;
      && Configured(Configure(memory, Read(text), length))
      && (Action(Run(Started(memory, text, length, rand), vs)) <==> row[(Effective(vs) / length) % |row|] == 100)
  {
    ThreadTextRoundTrip(row);
    var text := ThreadDevice(WriteSequence(row)).utilization;
    var e := Started(memory, text, length, rand);
    ExactVisits(e, vs);
    QuotaOfExtremes(length);
  }

  // ---------- what the drawn matrices promise ----------

  /** Rows whose columns are 0 or 100 throughout, with the drawn threads, as many as drawn, at 100. */
  ghost predicate Drawn(rows: seq<seq<nat>>, rand: (nat, nat) -> nat) {
    && |rows| > 1 && (forall k :: 0 <= k < |rows| ==> |rows[k]| == MAX_UTIL_SEQ)
    && forall i :: 0 <= i < MAX_UTIL_SEQ ==>
         && OnOff(ColumnOf(rows, i)) && ActiveCount(ColumnOf(rows, i)) == SwitchAt(|rows|, rand, i).current
         && RunsExactly(ColumnOf(rows, i), SwitchThreads(|rows|, rand, i))
  }

  /** Three passes of three columns. */
  const MIX_STEPS: nat := 9

  /** The drawn threads do the one workload, the others the other. */
  ghost predicate Split(fxu: seq<nat>, vsu: seq<nat>, smt: nat, fxuThreads: nat, rand: (nat, nat) -> nat)
    requires fxuThreads <= smt
  {
    && fxu == Chosen(Core(smt), fxuThreads, 0, DrawsAt(rand, 0, 0))
    && vsu == Remaining(Core(smt), fxuThreads, 0, DrawsAt(rand, 0, 0)) && Deal(fxu, vsu, Core(smt))
  }

  ghost predicate PassRows(rows: seq<seq<nat>>, ds: seq<PassDraw>) {
    && (forall k :: 0 <= k < |rows| ==> |rows[k]| == MIX_STEPS) && |ds| == 3
    && Passes(ColumnsOf(rows), ds)
  }

  ghost predicate MixedRows(rows: seq<seq<nat>>, ds: seq<PassDraw>, toRemove: nat, flag: Removal, fxu: seq<nat>,
                            vsu: seq<nat>, rand: (nat, nat) -> nat)
    requires |rows| > 1 && CanRemove(toRemove, flag, fxu, vsu)
  {
    && PassRows(rows, ds) && Mixed(ColumnsOf(rows), ds, |rows|, toRemove, flag, fxu, vsu, rand)
    && forall p :: 0 <= p < 3 ==> IsPass(ds[p], |rows|, toRemove, flag, fxu, vsu)
  }

  /** Rows of one length with columns of 0 and 100 only. */
  ghost predicate Switching(rows: seq<seq<nat>>, steps: nat) {
    && steps > 0 && (forall k :: 0 <= k < |rows| ==> |rows[k]| == steps)
    && forall i :: 0 <= i < steps ==> OnOff(ColumnOf(rows, i))
  }

  lemma RowIsOnOff(rows: seq<seq<nat>>, steps: nat, k: nat)
    requires Switching(rows, steps) && k < |rows|
    ensures OnOff(rows[k])
  {
    forall i | 0 <= i < steps ensures rows[k][i] == 0 || rows[k][i] == 100 {
      assert ColumnOf(rows, i)[k] == rows[k][i];
    }
  }

  lemma MixedIsSwitching(rows: seq<seq<nat>>, ds: seq<PassDraw>)
    requires PassRows(rows, ds)
    ensures Switching(rows, MIX_STEPS)
  {
    forall i | 0 <= i < MIX_STEPS ensures OnOff(ColumnOf(rows, i)) {
      MixedColumn(rows, ds, i);
    }
  }

  /** 100 for each thread that is told to run, 0 for each that is told to sleep. */
  function Actions(es: seq<Exer>): (col: seq<nat>)
    requires forall k :: 0 <= k < |es| ==> Running(es[k])
    ensures |col| == |es|
  {
    seq(|es|, k requires 0 <= k < |es| => if Action(es[k]) then 100 else 0)
  }

  // ---------- all programs together ----------

  /** Exerciser k is where the visits of the history have led it from its utilisation string. */
  ghost predicate AreRun(es: seq<Exer>, texts: seq<string>, memory: seq<Exer>, rands: seq<nat -> nat>, length: nat,
                         history: seq<seq<Visit>>) {
    && |es| == |texts| == |memory| == |rands| && (forall t :: 0 <= t < |history| ==> |es| <= |history[t]|)
    && forall k :: 0 <= k < |es| ==>
         && Configured(Configure(memory[k], Read(texts[k]), length))
         && es[k] == Run(Started(memory[k], texts[k], length, rands[k]), Column(history, k))
  }

  /** Exercisers of the machine: device names, utilisations, what their memory held, and random numbers. */
  datatype Exercisers = Exercisers(devs: seq<string>, texts: seq<string>, memory: seq<Exer>, rands: seq<nat -> nat>)

  /** Those on a CPU that exists have a utilisation the equaliser can run. */
  predicate CanRun(m: Exercisers, lcpu: seq<int>, length: nat) {
    && |m.devs| == |m.texts| == |m.memory| == |m.rands|
    && forall k :: 0 <= k < |m.devs| && CpuNumber(m.devs[k]) in lcpu ==>
         Configured(Configure(m.memory[k], Read(m.texts[k]), length))
  }

  function Both(m: Exercisers, o: Exercisers): (r: Exercisers) {
    Exercisers(m.devs + o.devs, m.texts + o.texts, m.memory + o.memory, m.rands + o.rands)
  }

  lemma BothCanRun(m: Exercisers, o: Exercisers, lcpu: seq<int>, length: nat)
    requires CanRun(m, lcpu, length) && CanRun(o, lcpu, length)
    ensures CanRun(Both(m, o), lcpu, length)
  {
    var r := Both(m, o);
    forall k | 0 <= k < |r.devs| && CpuNumber(r.devs[k]) in lcpu
      ensures Configured(Configure(r.memory[k], Read(r.texts[k]), length))
    {
      var n := |m.devs|;
      if k >= n {
        assert r.devs[k] == o.devs[k - n] && r.texts[k] == o.texts[k - n] && r.memory[k] == o.memory[k - n];
      }
    }
  }

  /** The equaliser, from its start to the end of a history. */
  method Launch(m: Exercisers, lcpu: seq<int>, length: nat, history: seq<seq<Visit>>) returns (es: seq<Exer>)
    requires CanRun(m, lcpu, length) && Distinct(lcpu)
    requires forall t :: 0 <= t < |history| ==> |history[t]| == |m.devs|
    ensures |es| == |m.devs| && forall k :: 0 <= k < |m.devs| && CpuNumber(m.devs[k]) in lcpu ==>
      es[k] == Run(Started(m.memory[k], m.texts[k], length, m.rands[k]), Column(history, k))
  {
    var eq := new Equaliser(lcpu, length, m.memory);
    var _ := eq.Equalise(m.devs, m.texts, m.rands, history);
    es := eq.exer[..];
  }

  /** Some devices of interest first, and any others. */
  method LaunchAmong(m: Exercisers, o: Exercisers, lcpu: seq<int>, length: nat, history: seq<seq<Visit>>)
    returns (es: seq<Exer>)
    requires CanRun(m, lcpu, length) && CanRun(o, lcpu, length) && Distinct(lcpu)
    requires forall t :: 0 <= t < |history| ==> |history[t]| == |m.devs| + |o.devs|
    requires forall k :: 0 <= k < |m.devs| ==> CpuNumber(m.devs[k]) in lcpu
    ensures |es| == |m.devs| && AreRun(es, m.texts, m.memory, m.rands, length, history)
  {
    BothCanRun(m, o, lcpu, length);
    var all := Launch(Both(m, o), lcpu, length, history);
    es := all[..|m.devs|];
    forall k | 0 <= k < |m.devs|
      ensures es[k] == Run(Started(m.memory[k], m.texts[k], length, m.rands[k]), Column(history, k))
    {
      var r := Both(m, o);
      assert r.devs[k] == m.devs[k] && r.texts[k] == m.texts[k];
      assert r.memory[k] == m.memory[k] && r.rands[k] == m.rands[k];
    }
  }

  /** Devices whose utilisations are rows of 0 and 100: each acts as its row says. */
  method RunRows(devs: seq<string>, texts: seq<string>, memory: seq<Exer>, rands: seq<nat -> nat>, o: Exercisers,
                 lcpu: seq<int>, length: nat, history: seq<seq<Visit>>, ghost n: nat,
                 ghost rows: seq<seq<nat>>, ghost steps: nat)
    returns (es: seq<Exer>)
    requires |devs| == |texts| == |memory| == |rands| == |rows| && Distinct(lcpu) && CanRun(o, lcpu, length)
    requires Switching(rows, steps) && 1 <= length <= 32
    requires forall t :: 0 <= t < |history| ==> |history[t]| == |devs| + |o.devs|
    requires forall k :: 0 <= k < |devs| ==>
      && CpuNumber(devs[k]) in lcpu && texts[k] == ThreadDevice(WriteSequence(rows[k])).utilization
      && Effective(Column(history, k)) == n
    ensures AreRun(es, texts, memory, rands, length, history) && Actions(es) == ColumnOf(rows, (n / length) % steps)
  {
    var i := (n / length) % steps;
    forall k | 0 <= k < |devs|
      ensures Configured(Configure(memory[k], Read(texts[k]), length))
      ensures Action(Run(Started(memory[k], texts[k], length, rands[k]), Column(history, k))) <==> rows[k][i] == 100
    {
      RowIsOnOff(rows, steps, k);
      ThreadFollowsRow(rows[k], memory[k], length, rands[k], Column(history, k));
    }
    es := LaunchAmong(Exercisers(devs, texts, memory, rands), o, lcpu, length, history);
    forall k | 0 <= k < |devs| ensures Actions(es)[k] == ColumnOf(rows, i)[k] {
      assert OnOff(ColumnOf(rows, i));
    }
  }

  lemma CpuIsSupported()
    ensures Supported("cpu")
  {
    assert EqualIgnoringCase(KINDS[2], "cpu");
  }

  /** create_eq_mdt and the equaliser on the lines of a core whose matrix has these rows. */
  method RunCore(lines: seq<string>, lproc: CpuMap, memory: seq<Exer>, rands: seq<nat -> nat>, o: Exercisers,
                 lcpu: seq<int>, length: nat, history: seq<seq<Visit>>,
                 ghost node: nat, ghost chip: nat, ghost core: nat, ghost n: nat,
                 ghost rows: seq<seq<nat>>, ghost steps: nat)
    returns (devs: seq<string>, texts: seq<string>, es: seq<Exer>)
    requires |memory| == |rands| == |rows| && Distinct(lcpu) && CanRun(o, lcpu, length)
    requires forall k :: 0 <= k < |rows| ==> lproc(node, chip, core, k) in lcpu
    requires Switching(rows, steps) && 1 <= length <= 32 && Printable(RowParts(rows))
    requires lines == PartLines(Decimal(node), Decimal(chip), Decimal(core), RowParts(rows))
    requires forall t :: 0 <= t < |history| ==> |history[t]| == |rows| + |o.devs|
    requires forall k :: 0 <= k < |rows| ==> Effective(Column(history, k)) == n
    ensures Defines(devs, texts, RowParts(rows), lproc, node, chip, core)
    ensures AreRun(es, texts, memory, rands, length, history) && Actions(es) == ColumnOf(rows, (n / length) % steps)
  {
    RowPartsArePrintable(rows);
    CpuIsSupported();
    devs, texts := ReadCore(lines, lproc, node, chip, core, RowParts(rows), |rows|);
    forall k | 0 <= k < |rows| ensures texts[k] == ThreadDevice(WriteSequence(rows[k])).utilization {
      assert HasTexts(RowParts(rows)[k], texts);
    }
    es := RunRows(devs, texts, memory, rands, o, lcpu, length, history, n, rows, steps);
  }

  /** From the random numbers of the generator to the running core.  create_eq_cfg draws and prints
      the lines of a core, create_eq_mdt reads them, and the equaliser runs the devices they define,
      among any other devices and whatever else happens on the machine: once each thread of the core
      has had n effective visits, the number of its threads told to run is the SMT value drawn for
      that step. */
  method RunSwitchedCore(node: nat, chip: nat, core: nat, smt: nat, rand: (nat, nat) -> nat, lproc: CpuMap,
                         memory: seq<Exer>, rands: seq<nat -> nat>, o: Exercisers, lcpu: seq<int>, length: nat,
                         history: seq<seq<Visit>>, ghost n: nat)
    returns (lines: seq<string>, devs: seq<string>, texts: seq<string>, es: seq<Exer>, ghost rows: seq<seq<nat>>)
    requires smt > 1 && |memory| == |rands| == smt && Distinct(lcpu) && CanRun(o, lcpu, length)
    requires forall k :: 0 <= k < smt ==> lproc(node, chip, core, k) in lcpu
    requires 1 <= length <= 32 && forall t :: 0 <= t < |history| ==> |history[t]| == smt + |o.devs|
    requires forall k :: 0 <= k < smt ==> Effective(Column(history, k)) == n
    ensures |rows| == smt && Drawn(rows, rand) && Printable(RowParts(rows))
    ensures lines == PartLines(Decimal(node), Decimal(chip), Decimal(core), RowParts(rows))
    ensures Defines(devs, texts, RowParts(rows), lproc, node, chip, core)
    ensures |es| == smt && AreRun(es, texts, memory, rands, length, history)
    ensures ActiveCount(Actions(es)) == SwitchAt(smt, rand, (n / length) % MAX_UTIL_SEQ).current
    ensures RunsExactly(Actions(es), SwitchThreads(smt, rand, (n / length) % MAX_UTIL_SEQ))
  {
    lines, rows := SwitchLines(node, chip, core, smt, rand);
    devs, texts, es :=
      RunCore(lines, lproc, memory, rands, o, lcpu, length, history, node, chip, core, n, rows, MAX_UTIL_SEQ);
  }

  /** The same for the mixed workloads: at the first step of a pass all threads of the core are told
      to run, at the second all but the removed ones, which are of one permitted workload, and at the
      third as many as the SMT value drawn for the pass. */
  method RunMixedCore(node: nat, chip: nat, core: nat, smt: nat, fxuThreads: nat, vsuThreads: nat, flag: Removal,
                      toRemove: nat, rand: (nat, nat) -> nat, lproc: CpuMap, memory: seq<Exer>,
                      rands: seq<nat -> nat>, o: Exercisers, lcpu: seq<int>, length: nat, history: seq<seq<Visit>>,
                      ghost n: nat)
    returns (lines: seq<string>, devs: seq<string>, texts: seq<string>, es: seq<Exer>,
             fxu: seq<nat>, vsu: seq<nat>, ds: seq<PassDraw>, ghost rows: seq<seq<nat>>)
    requires smt > 1 && fxuThreads + vsuThreads == smt
    requires flag != RemoveVsu ==> toRemove <= fxuThreads
    requires flag != RemoveFxu ==> toRemove <= vsuThreads
    requires |memory| == |rands| == smt && Distinct(lcpu) && CanRun(o, lcpu, length)
    requires forall k :: 0 <= k < smt ==> lproc(node, chip, core, k) in lcpu
    requires 1 <= length <= 32 && forall t :: 0 <= t < |history| ==> |history[t]| == smt + |o.devs|
    requires forall k :: 0 <= k < smt ==> Effective(Column(history, k)) == n
    ensures Split(fxu, vsu, smt, fxuThreads, rand) && CanRemove(toRemove, flag, fxu, vsu)
    ensures |rows| == smt && MixedRows(rows, ds, toRemove, flag, fxu, vsu, rand) && Printable(RowParts(rows))
    ensures lines == PartLines(Decimal(node), Decimal(chip), Decimal(core), RowParts(rows))
    ensures Defines(devs, texts, RowParts(rows), lproc, node, chip, core)
    ensures |es| == smt && AreRun(es, texts, memory, rands, length, history)
    ensures var i, col := (n / length) % MIX_STEPS, Actions(es);
      && (i % 3 == 0 ==> StoppedExactly(col, []))
      && (i % 3 == 1 ==> StoppedExactly(col, ds[i / 3].stopped))
      && (i % 3 == 2 ==> OnOff(col) && ActiveCount(col) == ds[i / 3].count && RunsExactly(col, ds[i / 3].running))
  {
    lines, fxu, vsu, ds, rows := MixLines(node, chip, core, smt, fxuThreads, vsuThreads, flag, toRemove, rand);
    MixedIsSwitching(rows, ds);
    devs, texts, es :=
      RunCore(lines, lproc, memory, rands, o, lcpu, length, history, node, chip, core, n, rows, MIX_STEPS);
    MixedColumn(rows, ds, (n / length) % MIX_STEPS);
  }

  lemma MixedColumn(rows: seq<seq<nat>>, ds: seq<PassDraw>, i: nat)
    requires PassRows(rows, ds) && i < MIX_STEPS
    ensures i % 3 == 0 ==> StoppedExactly(ColumnOf(rows, i), [])
    ensures i % 3 == 1 ==> StoppedExactly(ColumnOf(rows, i), ds[i / 3].stopped)
    ensures i % 3 == 2 ==> OnOff(ColumnOf(rows, i)) && ActiveCount(ColumnOf(rows, i)) == ds[i / 3].count
    ensures i % 3 == 2 ==> RunsExactly(ColumnOf(rows, i), ds[i / 3].running)
  {
    var p, cols := i / 3, ColumnsOf(rows);
    assert PassColumns(cols[3 * p], cols[3 * p + 1], cols[3 * p + 2], ds[p]);
    assert i == 3 * p + i % 3;
  }
}
