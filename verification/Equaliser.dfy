/** The equaliser process: the exercisers' records updated in place, quantum after quantum. */
module Equaliser {
  import opened Seqs
  import opened Words
  import opened Utilization
  import opened Shuffle
  import opened Schedule
  import opened CpuBinding

  /** What update_config_detail leaves in an exerciser's record. */
  function Configure(e: Exer, s: Setting, patternLength: nat): (r: Exer) {
    match s
    case Generated(known, mode, sequence) =>
      e.(mode := if known then mode else e.mode, sequence := sequence, length := patternLength)
    case Literal(pattern, length) =>
      e.(pattern := pattern, mode := UtilPattern, length := length)
  }

  /** What update_exer_info leaves in it: nothing new unless its CPU exists. */
  function Admit(e: Exer, dev: string, text: string, lcpu: seq<int>, patternLength: nat): (r: Exer) {
    if CpuNumber(dev) in lcpu then Configure(e, Read(text), patternLength) else e
  }

  /** `(w >> k) & 1` as a word. */
  lemma BitAsWord(w: Uint32, k: nat)
    requires k < 32
    ensures And(Shr(w, k), One(32)) == if w[k] then One(32) else Zero(32)
  {
  }

  lemma OneIsNotZero()
    ensures One(32) != Zero(32)
  {
    assert One(32)[0] != Zero(32)[0];
  }

  /** One more bit at the low end of a block. */
  lemma BlockGrows(lo: nat, hi: nat)
    requires lo < hi <= 32
    ensures Or(Block(32, lo + 1, hi), Shl(One(32), lo)) == Block(32, lo, hi)
  {
  }

  /** The visits paid to exerciser k over a history of quanta. */
  function Column(history: seq<seq<Visit>>, k: nat): (vs: seq<Visit>)
    requires forall t :: 0 <= t < |history| ==> k < |history[t]|
  {
    seq(|history|, t requires 0 <= t < |history| => history[t][k])
  }

  lemma ColumnGrows(history: seq<seq<Visit>>, t: nat, k: nat)
    requires t < |history| && forall i :: 0 <= i < |history| ==> k < |history[i]|
    ensures Column(history[..t + 1], k) == Column(history[..t], k) + [history[t][k]]
  {
  }

  /** Where the visits `past` have led an exerciser, and the signals it got. */
  ghost predicate Reached(start: Exer, past: seq<Visit>, now: Exer, trace: seq<Signal>) {
    Running(start) && now == Run(start, past) && trace == Trace(start, past)
  }

  lemma ReachedNext(start: Exer, past: seq<Visit>, now: Exer, trace: seq<Signal>, v: Visit)
    requires Reached(start, past, now, trace)
    ensures Reached(start, past + [v], Next(now, v), trace + Sent(now, v))
  {
    RunOneMore(start, past, v);
  }

  class Equaliser {
    /** Logical CPU numbers in node, chip, core, thread order. */
    const lcpu: seq<int>
    /** Schedule length for generated schedules. */
    const patternLength: nat
    /** exer_info_index of each CPU. */
    const slots: array<seq<nat>>
    /** Configuration and run-time data of each exerciser. */
    const exer: array<Exer>

    ghost predicate Valid() {
      slots.Length == |lcpu|
    }

    /** Exerciser k sits in a slot of one of the first n CPUs. */
    ghost predicate RecordedBelow(k: nat, n: nat)
      requires Valid() && n <= |lcpu|
      reads slots
    {
      exists c :: 0 <= c < n && k in slots[c]
    }

    ghost predicate Recorded(k: nat)
      requires Valid()
      reads slots
    {
      RecordedBelow(k, |lcpu|)
    }

    /** No two slots hold the same exerciser. */
    ghost predicate Placed()
      requires Valid()
      reads slots
    {
      && (forall c :: 0 <= c < |lcpu| ==> Distinct(slots[c]) && forall k :: k in slots[c] ==> k < exer.Length)
      && (forall c, d, k :: 0 <= c < d < |lcpu| && k in slots[c] ==> k !in slots[d])
    }

    /** memory is what malloc and the cleared shared memory hold for the exercisers. */
    constructor (lcpu: seq<int>, patternLength: nat, memory: seq<Exer>)
      ensures Valid() && this.lcpu == lcpu && this.patternLength == patternLength
      ensures fresh(slots) && fresh(exer) && exer[..] == memory
      ensures forall c :: 0 <= c < |lcpu| ==> slots[c] == []
    {
      this.lcpu, this.patternLength := lcpu, patternLength;
      slots := new seq<nat>[|lcpu|](i => []);
      exer := new Exer[|memory|](i requires 0 <= i < |memory| => memory[i]);
    }

    method UpdateConfigDetail(index: nat, text: string)
      requires index < exer.Length
      modifies exer
      ensures exer[..] == old(exer[..])[index := Configure(old(exer[index]), Read(text), patternLength)]
    {
      var e := exer[index];
      if '%' in text {
        var t := CText.StrTok(text, {'%'});
        var ps := [];
        if t.Token? {
          if t.text == "UTIL_LEFT" {
            e := e.(mode := UtilLeft);
          } else if t.text == "UTIL_RIGHT" {
            e := e.(mode := UtilRight);
          } else if t.text == "UTIL_RANDOM" {
            e := e.(mode := UtilRandom);
          }
          ps := ReadPercentages(t.rest);
        }
        exer[index] := e.(sequence := ps, length := patternLength);
      } else {
        exer[index] := e.(pattern := StrToUl(text)[..32], mode := UtilPattern, length := |text|);
      }
    }

    /** The search for the CPU of one exerciser. */
    method RecordExer(k: nat, dev: string, text: string)
      requires Valid() && k < exer.Length
      modifies slots, exer
      ensures exer[..] == old(exer[..])[k := Admit(old(exer[k]), dev, text, lcpu, patternLength)]
      ensures forall c :: 0 <= c < |lcpu| ==>
        slots[c] == old(slots[c]) + if lcpu[c] == CpuNumber(dev) then [k] else []
    {
      var bindCpuNum := BindCpuNumber(dev);
      for c := 0 to |lcpu|
        invariant forall d :: 0 <= d < |lcpu| ==>
          slots[d] == old(slots[d]) + if d < c && lcpu[d] == bindCpuNum then [k] else []
        invariant exer[..] == old(exer[..])[k := Admit(old(exer[k]), dev, text, lcpu[..c], patternLength)]
      {
        if lcpu[c] == bindCpuNum {
          slots[c] := slots[c] + [k];
          UpdateConfigDetail(k, text);
        }
      }
      assert lcpu[..|lcpu|] == lcpu;
    }

    /** update_exer_info: each exerciser goes to the CPU its name carries, and is configured there. */
    method UpdateExerInfo(devs: seq<string>, texts: seq<string>)
      requires Valid() && |devs| == |texts| == exer.Length
      requires forall c :: 0 <= c < |lcpu| ==> slots[c] == []
      modifies slots, exer
      ensures forall c :: 0 <= c < |lcpu| ==> slots[c] == BoundTo(devs, lcpu[c])
      ensures forall k :: 0 <= k < exer.Length ==>
        exer[k] == Admit(old(exer[k]), devs[k], texts[k], lcpu, patternLength)
    {
      for k := 0 to |devs|
        invariant forall c :: 0 <= c < |lcpu| ==> slots[c] == BoundTo(devs[..k], lcpu[c])
        invariant forall j :: 0 <= j < k ==>
          exer[j] == Admit(old(exer[j]), devs[j], texts[j], lcpu, patternLength)
        invariant forall j :: k <= j < exer.Length ==> exer[j] == old(exer[j])
      {
        assert devs[..k + 1][..k] == devs[..k];
        RecordExer(k, devs[k], texts[k]);
      }
      assert devs[..|devs|] == devs;
    }

    method ResetUtilizationQueue(index: nat, rand: nat -> nat)
      requires index < exer.Length && exer[index].length <= 32 && exer[index].target <= 100
      modifies exer
      ensures var e := old(exer[index]);
        exer[..] == old(exer[..])[index := e.(pattern := FreshPattern(e.mode, e.length, e.target, rand))]
    {
      var e := exer[index];
      var active := e.target * e.length / 100;
      QuotaFits(e.target, e.length);
      var pattern: Uint32 := Zero(32);
      match e.mode {
      case UtilLeft =>
        pattern := FillTop(e.length, active);
      case UtilRight =>
        pattern := FillBottom(active);
      case UtilRandom =>
        pattern := FillTop(e.length, active);
        pattern := ShufflePattern(e.length, pattern, rand);
      case UtilPattern =>
      }
      exer[index] := e.(pattern := pattern);
    }

    /** The loop shared by UTIL_LEFT and UTIL_RANDOM: the top bits of the schedule. */
    static method FillTop(length: nat, active: nat) returns (pattern: Uint32)
      requires active <= length <= 32
      ensures pattern == Block(32, length - active, length)
    {
      pattern := Zero(32);
      assert pattern == Block(32, length, length);
      for j := 1 to active + 1
        invariant pattern == Block(32, length - (j - 1), length)
      {
        BlockGrows(length - j, length);
        pattern := Or(pattern, Shl(One(32), length - j));
      }
    }

    /** The loop of UTIL_RIGHT: the bottom bits of the schedule. */
    static method FillBottom(active: nat) returns (pattern: Uint32)
      requires active <= 32
      ensures pattern == Block(32, 0, active)
    {
      pattern := Zero(32);
      assert pattern == Block(32, active, active);
      for j := 1 to active + 1
        invariant pattern == Block(32, active - (j - 1), active)
      {
        BlockGrows(active - j, active);
        pattern := Or(pattern, Shl(One(32), active - j));
      }
    }

    method StartExer(index: nat, rand: nat -> nat)
      requires index < exer.Length && Configured(exer[index])
      modifies exer
      ensures exer[..] == old(exer[..])[index := Start(old(exer[index]), rand)]
    {
      if exer[index].mode != UtilPattern {
        exer[index] := exer[index].(target := exer[index].sequence[0]);
        ResetUtilizationQueue(index, rand);
      }
      exer[index] := exer[index].(step := 0, seqStep := 0);
    }

    /** The signal decision of a visit. */
    static method SendSignal(e: Exer, v: Visit) returns (halt: bool, sent: seq<Signal>)
      requires Running(e) && v.eligible
      ensures sent == Sent(e, v)
      ensures halt == if sent == [Stop] then true else if sent == [Cont] then false else e.halt
    {
      halt, sent := e.halt, [];
      var action := And(Shr(e.pattern, e.length - (e.step + 1)), One(32));
      BitAsWord(e.pattern, e.length - (e.step + 1));
      OneIsNotZero();
      if action == Zero(32) && !e.halt {
        if v.delivered {
          halt, sent := true, [Stop];
        }
      } else if action == One(32) && e.halt {
        if v.delivered {
          halt, sent := false, [Cont];
        }
      }
    }

    /** The body of the innermost loop of htxd_equaliser. */
    method VisitExer(index: nat, v: Visit) returns (sent: seq<Signal>)
      requires index < exer.Length && Running(exer[index])
      modifies exer
      ensures exer[..] == old(exer[..])[index := Next(old(exer[index]), v)]
      ensures sent == Sent(old(exer[index]), v)
    {
      sent := [];
      if v.eligible {
        var e := exer[index];
        var halt;
        halt, sent := SendSignal(e, v);
        exer[index] := e.(halt := halt, step := (e.step + 1) % e.length);
        if exer[index].step == 0 && e.mode != UtilPattern {
          var seqStep := (e.seqStep + 1) % |e.sequence|;
          exer[index] := exer[index].(seqStep := seqStep, target := e.sequence[seqStep]);
          if |e.sequence| > 1 || e.mode == UtilRandom {
            ResetUtilizationQueue(index, v.rand);
          }
        }
      }
    }

    /** The exercisers of CPU c have not been reached on the CPUs before it. */
    lemma NextCpu(c: nat)
      requires Valid() && Placed() && c < |lcpu|
      ensures forall k :: k in slots[c] ==> k < exer.Length && Recorded(k) && !RecordedBelow(k, c)
      ensures forall k: nat :: RecordedBelow(k, c + 1) <==> RecordedBelow(k, c) || k in slots[c]
    {
    }

    method StartCpu(c: nat, rands: seq<nat -> nat>)
      requires Valid() && Placed() && c < |lcpu| && |rands| == exer.Length
      requires forall k :: k in slots[c] ==> Configured(exer[k])
      modifies exer
      ensures forall k: nat :: k < exer.Length ==>
        exer[k] == if k in slots[c] then Start(old(exer[k]), rands[k]) else old(exer[k])
    {
      for i := 0 to |slots[c]|
        invariant forall k: nat :: k < exer.Length ==>
          exer[k] == if k in slots[c][..i] then Start(old(exer[k]), rands[k]) else old(exer[k])
      {
        var index := slots[c][i];
        assert index !in slots[c][..i] && index in slots[c];
        StartExer(index, rands[index]);
        assert forall k :: k in slots[c][..i + 1] <==> k in slots[c][..i] || k == index;
      }
      assert slots[c][..|slots[c]|] == slots[c];
    }

    /** initialize_run_time_data: every recorded exerciser is started, no other is touched. */
    method InitializeRunTimeData(rands: seq<nat -> nat>)
      requires Valid() && Placed() && |rands| == exer.Length
      requires forall k: nat :: k < exer.Length && Recorded(k) ==> Configured(exer[k])
      modifies exer
      ensures forall k: nat :: k < exer.Length ==>
        exer[k] == if Recorded(k) then Start(old(exer[k]), rands[k]) else old(exer[k])
    {
      for c := 0 to |lcpu|
        invariant forall k: nat :: k < exer.Length && RecordedBelow(k, c) ==> Recorded(k)
        invariant forall k: nat :: k < exer.Length ==>
          exer[k] == if RecordedBelow(k, c) then Start(old(exer[k]), rands[k]) else old(exer[k])
      {
        NextCpu(c);
        StartCpu(c, rands);
      }
    }

    /** The exercisers of one CPU, with the signals delivered so far in `before`. */
    method VisitCpu(c: nat, visits: seq<Visit>, ghost before: seq<seq<Signal>>) returns (ghost sent: seq<seq<Signal>>)
      requires Valid() && Placed() && c < |lcpu| && |visits| == |before| == exer.Length
      requires forall k :: k in slots[c] ==> Running(exer[k])
      modifies exer
      ensures forall k: nat :: k < exer.Length ==>
        exer[k] == if k in slots[c] then Next(old(exer[k]), visits[k]) else old(exer[k])
      ensures |sent| == exer.Length && forall k: nat :: k < exer.Length ==>
        sent[k] == if k in slots[c] then before[k] + Sent(old(exer[k]), visits[k]) else before[k]
    {
      sent := before;
      for i := 0 to |slots[c]|
        invariant forall k: nat :: k < exer.Length ==>
          exer[k] == if k in slots[c][..i] then Next(old(exer[k]), visits[k]) else old(exer[k])
        invariant |sent| == exer.Length && forall k: nat :: k < exer.Length ==>
          sent[k] == if k in slots[c][..i] then before[k] + Sent(old(exer[k]), visits[k]) else before[k]
      {
        var index := slots[c][i];
        assert index !in slots[c][..i] && index in slots[c];
        var signal := VisitExer(index, visits[index]);
        sent := sent[index := sent[index] + signal];
        assert forall k :: k in slots[c][..i + 1] <==> k in slots[c][..i] || k == index;
      }
      assert slots[c][..|slots[c]|] == slots[c];
    }

    /** One scheduling quantum: every recorded exerciser is visited exactly once, in place. */
    method Quantum(visits: seq<Visit>, ghost before: seq<seq<Signal>>) returns (ghost sent: seq<seq<Signal>>)
      requires Valid() && Placed() && |visits| == |before| == exer.Length
      requires forall k: nat :: k < exer.Length && Recorded(k) ==> Running(exer[k])
      modifies exer
      ensures forall k: nat :: k < exer.Length ==>
        exer[k] == if Recorded(k) then Next(old(exer[k]), visits[k]) else old(exer[k])
      ensures |sent| == exer.Length && forall k: nat :: k < exer.Length ==>
        sent[k] == if Recorded(k) then before[k] + Sent(old(exer[k]), visits[k]) else before[k]
    {
      sent := before;
      for c := 0 to |lcpu|
        invariant forall k: nat :: k < exer.Length && RecordedBelow(k, c) ==> Recorded(k)
        invariant forall k: nat :: k < exer.Length ==>
          exer[k] == if RecordedBelow(k, c) then Next(old(exer[k]), visits[k]) else old(exer[k])
        invariant |sent| == exer.Length && forall k: nat :: k < exer.Length ==>
          sent[k] == if RecordedBelow(k, c) then before[k] + Sent(old(exer[k]), visits[k]) else before[k]
      {
        NextCpu(c);
        sent := VisitCpu(c, visits, sent);
      }
    }

    /** Any number of quanta: all exercisers interleaved in place, yet each goes through exactly
        the run of its own visits and gets exactly the signals of that run. */
    method RunQuanta(history: seq<seq<Visit>>) returns (ghost traces: seq<seq<Signal>>)
      requires Valid() && Placed()
      requires forall t :: 0 <= t < |history| ==> |history[t]| == exer.Length
      requires forall k: nat :: k < exer.Length && Recorded(k) ==> Running(exer[k])
      modifies exer
      ensures forall k: nat :: k < exer.Length ==>
        exer[k] == if Recorded(k) then Run(old(exer[k]), Column(history, k)) else old(exer[k])
      ensures |traces| == exer.Length && forall k: nat :: k < exer.Length ==>
        traces[k] == if Recorded(k) then Trace(old(exer[k]), Column(history, k)) else []
    {
      traces := seq(exer.Length, k => []);
      ghost var starts := exer[..];
      for t := 0 to |history|
        invariant |traces| == exer.Length && OnTrack(starts, history[..t], traces)
      {
        traces := TrackQuantum(history, t, starts, traces);
      }
      assert history[..|history|] == history;
    }

    /** Every recorded exerciser is where its own visits lead from `starts`, the others are still there. */
    ghost predicate OnTrack(starts: seq<Exer>, past: seq<seq<Visit>>, traces: seq<seq<Signal>>)
      requires Valid() && |starts| == |traces| == exer.Length
      requires forall t :: 0 <= t < |past| ==> |past[t]| == exer.Length
      reads slots, exer
    {
      forall k: nat :: k < exer.Length ==>
        if Recorded(k) then Reached(starts[k], Column(past, k), exer[k], traces[k])
        else exer[k] == starts[k] && traces[k] == []
    }

    method TrackQuantum(history: seq<seq<Visit>>, t: nat, ghost starts: seq<Exer>, ghost before: seq<seq<Signal>>)
      returns (ghost traces: seq<seq<Signal>>)
      requires Valid() && Placed() && t < |history| && |starts| == |before| == exer.Length
      requires forall t :: 0 <= t < |history| ==> |history[t]| == exer.Length
      requires OnTrack(starts, history[..t], before)
      modifies exer
      ensures |traces| == exer.Length && OnTrack(starts, history[..t + 1], traces)
    {
      ghost var now := exer[..];
      traces := Quantum(history[t], before);
      forall k: nat | k < exer.Length && Recorded(k)
        ensures Reached(starts[k], Column(history[..t + 1], k), exer[k], traces[k])
      {
        ColumnGrows(history, t, k);
        ReachedNext(starts[k], Column(history[..t], k), now[k], before[k], history[t][k]);
      }
    }

    /** After update_exer_info the slots are as the scheduler needs them. */
    lemma SlotsArePlaced(devs: seq<string>)
      requires Valid() && |devs| == exer.Length && Distinct(lcpu)
      requires forall c :: 0 <= c < |lcpu| ==> slots[c] == BoundTo(devs, lcpu[c])
      ensures Placed()
      ensures forall k: nat :: k < exer.Length ==> (Recorded(k) <==> CpuNumber(devs[k]) in lcpu)
    {
      forall c | 0 <= c < |lcpu| ensures Distinct(slots[c]) && forall k :: k in slots[c] ==> k < exer.Length {
        BoundToMeaning(devs, lcpu[c]);
      }
      forall c, d, k | 0 <= c < d < |lcpu| && k in slots[c] ensures k !in slots[d] {
        BoundToMeaning(devs, lcpu[c]);
        BoundToMeaning(devs, lcpu[d]);
      }
      forall k: nat | k < exer.Length ensures Recorded(k) <==> CpuNumber(devs[k]) in lcpu {
        forall c | 0 <= c < |lcpu| ensures k in slots[c] <==> CpuNumber(devs[k]) == lcpu[c] {
          BoundToMeaning(devs, lcpu[c]);
        }
      }
    }

    /** htxd_equaliser: bind and configure, start, then schedule. */
    method Equalise(devs: seq<string>, texts: seq<string>, rands: seq<nat -> nat>, history: seq<seq<Visit>>)
      returns (ghost traces: seq<seq<Signal>>)
      requires Valid() && |devs| == |texts| == |rands| == exer.Length && Distinct(lcpu)
      requires forall c :: 0 <= c < |lcpu| ==> slots[c] == []
      requires forall t :: 0 <= t < |history| ==> |history[t]| == exer.Length
      requires forall k :: 0 <= k < exer.Length && CpuNumber(devs[k]) in lcpu ==>
        Configured(Configure(exer[k], Read(texts[k]), patternLength))
      modifies slots, exer
      ensures forall k :: 0 <= k < exer.Length ==>
        exer[k] == if CpuNumber(devs[k]) in lcpu
          then Run(Start(Configure(old(exer[k]), Read(texts[k]), patternLength), rands[k]), Column(history, k))
          else old(exer[k])
      ensures |traces| == exer.Length && forall k :: 0 <= k < exer.Length ==>
        traces[k] == if CpuNumber(devs[k]) in lcpu
          then Trace(Start(Configure(old(exer[k]), Read(texts[k]), patternLength), rands[k]), Column(history, k))
          else []
      ensures forall k :: 0 <= k < exer.Length && !old(exer[k]).halt ==> Alternates(traces[k], exer[k].halt)
    {
      UpdateExerInfo(devs, texts);
      SlotsArePlaced(devs);
      InitializeRunTimeData(rands);
      ghost var started := exer[..];
      traces := RunQuanta(history);
      forall k | 0 <= k < exer.Length && !old(exer[k]).halt ensures Alternates(traces[k], exer[k].halt) {
        if Recorded(k) {
          SignalsAlternate(started[k], Column(history, k));
        }
      }
    }
  }
}
