/** One exerciser under the equaliser: a schedule word replayed top bit first, one bit per visit,
    rebuilt for the next percentage of the sequence each time it has been replayed in full. */
module Schedule {
  import opened Words
  import opened Utilization
  import opened Shuffle

  /** The config and data records of one exerciser, with the halt flag of its shared-memory entry. */
  datatype Exer = Exer(mode: Mode, pattern: Uint32, length: nat, sequence: seq<nat>,
                       target: nat, seqStep: nat, step: nat, halt: bool)

  datatype Signal = Stop | Cont

  /** What one visit meets: whether the exerciser is eligible, whether killpg succeeds if it is
      called, and the numbers rand() returns if the schedule is shuffled. */
  datatype Visit = Visit(eligible: bool, delivered: bool, rand: nat -> nat)

  /** Visits out of `length` on which an exerciser at this percentage is to run. */
  function Quota(percent: nat, length: nat): (k: nat) {
    percent * length / 100
  }

  /** The quota is the largest number of visits that does not exceed the percentage. */
  lemma QuotaIsFloor(percent: nat, length: nat, k: nat)
    ensures 100 * Quota(percent, length) <= percent * length < 100 * Quota(percent, length) + 100
    ensures 100 * k <= percent * length <==> k <= Quota(percent, length)
  {
  }

  lemma QuotaFits(percent: nat, length: nat)
    requires percent <= 100
    ensures Quota(percent, length) <= length
  {
    assert percent * length <= 100 * length;
  }

  lemma QuotaOfExtremes(length: nat)
    ensures Quota(100, length) == length && Quota(0, length) == 0
  {
  }

  /** The schedule that a rebuild leaves in the word. */
  function FreshPattern(mode: Mode, length: nat, percent: nat, rand: nat -> nat): (w: Uint32)
    requires length <= 32 && percent <= 100
    ensures mode != UtilPattern ==> Ones(w, 0, length) == Quota(percent, length)
  {
    QuotaFits(percent, length);
    var k := Quota(percent, length);
    BlockOnes(32, length - k, length, length);
    BlockOnes(32, 0, k, length);
    match mode
    case UtilLeft => Block(32, length - k, length)
    case UtilRight => Block(32, 0, k)
    case UtilRandom =>
      ShuffleKeeps(Block(32, length - k, length), 0, length, rand);
      ShuffleFrom(Block(32, length - k, length), 0, length, rand)
    case UtilPattern => Zero(32)
  }

  /** A schedule word that gives a percentage its quota, in any order. */
  ghost predicate GivesQuota(w: Uint32, length: nat, percent: nat)
    requires length <= 32
  {
    Ones(w, 0, length) == Quota(percent, length) && forall i :: length <= i < 32 ==> !w[i]
  }

  /** In RANDOM mode every word that gives the percentage its quota can come up, and no other. */
  lemma RandomRebuildReaches(length: nat, percent: nat, w: Uint32)
    requires length <= 32 && percent <= 100
    ensures (exists rand: nat -> nat :: FreshPattern(UtilRandom, length, percent, rand) == w)
       <==> GivesQuota(w, length, percent)
  {
    if exists rand: nat -> nat :: FreshPattern(UtilRandom, length, percent, rand) == w {
      var rand: nat -> nat :| FreshPattern(UtilRandom, length, percent, rand) == w;
      RandomGivesQuota(length, percent, rand);
    }
    if GivesQuota(w, length, percent) {
      var rand := RandomDraws(length, percent, w);
    }
  }

  lemma RandomGivesQuota(length: nat, percent: nat, rand: nat -> nat)
    requires length <= 32 && percent <= 100
    ensures GivesQuota(FreshPattern(UtilRandom, length, percent, rand), length, percent)
  {
    QuotaFits(percent, length);
    ShuffleKeeps(Block(32, length - Quota(percent, length), length), 0, length, rand);
  }

  lemma RandomDraws(length: nat, percent: nat, w: Uint32) returns (rand: nat -> nat)
    requires length <= 32 && percent <= 100 && GivesQuota(w, length, percent)
    ensures FreshPattern(UtilRandom, length, percent, rand) == w
  {
    QuotaFits(percent, length);
    var k := Quota(percent, length);
    BlockOnes(32, length - k, length, length);
    rand := DrawsLeadingTo(Block(32, length - k, length), w, 0, length);
  }

  predicate Configured(e: Exer) {
    && 1 <= e.length <= 32
    && (e.mode != UtilPattern ==> e.sequence != [] && forall i :: 0 <= i < |e.sequence| ==> e.sequence[i] <= 100)
  }

  /** The word shows the percentage in force.  LEFT and RIGHT words are pinned down completely:
      a rebuild that is skipped because nothing changed must leave the right word in place. */
  predicate ShowsTarget(e: Exer)
    requires e.length <= 32
  {
    var k := Quota(e.target, e.length);
    match e.mode
    case UtilLeft => e.pattern == Block(32, e.length - k, e.length)
    case UtilRight => e.pattern == Block(32, 0, k)
    case UtilRandom => Ones(e.pattern, 0, e.length) == k
    case UtilPattern => true
  }

  predicate Running(e: Exer) {
    && Configured(e)
    && e.step < e.length
    && (e.mode != UtilPattern ==>
        && e.seqStep < |e.sequence|
        && e.target == e.sequence[e.seqStep]
        && ShowsTarget(e))
  }

  /** initialize_run_time_data for one exerciser.  A literal schedule has no percentages, and what
      the source then copies into the target is never used; the target is left alone here. */
  function Start(e: Exer, rand: nat -> nat): (r: Exer)
    requires Configured(e)
    ensures Running(r) && r.step == r.seqStep == 0
  {
    if e.mode != UtilPattern then
      e.(target := e.sequence[0], step := 0, seqStep := 0,
         pattern := FreshPattern(e.mode, e.length, e.sequence[0], rand))
    else
      e.(step := 0, seqStep := 0)
  }

  /** True for "run", false for "sleep". */
  predicate Action(e: Exer)
    requires Running(e)
  {
    e.pattern[e.length - (e.step + 1)]
  }

  /** The signal delivered on a visit, if any. */
  function Sent(e: Exer, v: Visit): (sig: seq<Signal>)
    requires Running(e)
  {
    if !v.eligible || !v.delivered then []
    else if !Action(e) && !e.halt then [Stop]
    else if Action(e) && e.halt then [Cont]
    else []
  }

  /** One visit of the scheduler. */
  function Next(e: Exer, v: Visit): (r: Exer)
    requires Running(e)
    ensures Running(r)
  {
    if !v.eligible then e else
    var halt := if Sent(e, v) == [Stop] then true else if Sent(e, v) == [Cont] then false else e.halt;
    var step := (e.step + 1) % e.length;
    if step != 0 || e.mode == UtilPattern then e.(halt := halt, step := step) else
    var seqStep := (e.seqStep + 1) % |e.sequence|;
    var target := e.sequence[seqStep];
    var pattern := if |e.sequence| > 1 || e.mode == UtilRandom
                   then FreshPattern(e.mode, e.length, target, v.rand) else e.pattern;
    e.(halt := halt, step := step, seqStep := seqStep, target := target, pattern := pattern)
  }

  /** The word a RANDOM exerciser starts with can be any that gives the first percentage its quota. */
  lemma RandomStartReaches(e: Exer, w: Uint32)
    requires Configured(e) && e.mode == UtilRandom
    ensures (exists rand: nat -> nat :: Start(e, rand).pattern == w) <==> GivesQuota(w, e.length, e.sequence[0])
  {
    RandomRebuildReaches(e.length, e.sequence[0], w);
    assert forall rand: nat -> nat ::
      Start(e, rand).pattern == FreshPattern(UtilRandom, e.length, e.sequence[0], rand);
  }

  /** At the end of every replay its word is shuffled anew, also if the percentage stays the same. */
  lemma RandomReplayReaches(e: Exer, delivered: bool, w: Uint32)
    requires Running(e) && e.mode == UtilRandom && e.step + 1 == e.length
    ensures var next := e.sequence[(e.seqStep + 1) % |e.sequence|];
      (exists rand: nat -> nat :: Next(e, Visit(true, delivered, rand)).pattern == w) <==> GivesQuota(w, e.length, next)
  {
    var next := e.sequence[(e.seqStep + 1) % |e.sequence|];
    RandomRebuildReaches(e.length, next, w);
    forall rand: nat -> nat
      ensures Next(e, Visit(true, delivered, rand)).pattern == FreshPattern(UtilRandom, e.length, next, rand)
    {
      NextAtWrap(e, Visit(true, delivered, rand));
    }
  }

  lemma NextAtWrap(e: Exer, v: Visit)
    requires Running(e) && e.mode == UtilRandom && e.step + 1 == e.length && v.eligible
    ensures Next(e, v).pattern
         == FreshPattern(UtilRandom, e.length, e.sequence[(e.seqStep + 1) % |e.sequence|], v.rand)
  {
    assert (e.step + 1) % e.length == 0 by {
      QuotientUnique(e.length, 1, 0, e.length);
    }
  }

  // ---------- whole runs ----------

  function Run(e: Exer, vs: seq<Visit>): (r: Exer)
    requires Running(e)
    ensures Running(r)
    ensures r.mode == e.mode && r.length == e.length && r.sequence == e.sequence
    ensures e.mode == UtilPattern ==> r.pattern == e.pattern
  {
    if vs == [] then e else Next(Run(e, vs[..|vs| - 1]), vs[|vs| - 1])
  }

  /** How many of the visits found the exerciser eligible. */
  function Effective(vs: seq<Visit>): (n: nat) {
    if vs == [] then 0 else Effective(vs[..|vs| - 1]) + if vs[|vs| - 1].eligible then 1 else 0
  }

  /** How many of the visits called for running it. */
  function RunActions(e: Exer, vs: seq<Visit>): (n: nat)
    requires Running(e)
  {
    if vs == [] then 0 else
    var before := vs[..|vs| - 1];
    RunActions(e, before) + if vs[|vs| - 1].eligible && Action(Run(e, before)) then 1 else 0
  }

  /** Run actions owed for replay number i of the schedule word. */
  function ReplayQuota(e: Exer, i: nat): (k: nat)
    requires Running(e)
  {
    if e.mode == UtilPattern then Ones(e.pattern, 0, e.length)
    else Quota(e.sequence[i % |e.sequence|], e.length)
  }

  function ReplayTotal(e: Exer, m: nat): (k: nat)
    requires Running(e)
  {
    if m == 0 then 0 else ReplayTotal(e, m - 1) + ReplayQuota(e, m - 1)
  }

  lemma Multiples(k: int, d: nat)
    ensures k >= 1 ==> k * d >= d
    ensures k <= -1 ==> k * d <= 0 - d
  {
  }

  lemma SamePlace(q: nat, s: nat, q': nat, s': nat, d: nat)
    requires s < d && s' < d && q * d + s == q' * d + s'
    ensures q == q' && s == s'
  {
    Multiples(q - q', d);
    assert (q - q') * d == s' - s;
  }

  lemma QuotientUnique(n: nat, q: nat, r: nat, d: nat)
    requires r < d && n == q * d + r
    ensures n / d == q && n % d == r
  {
    SamePlace(q, r, n / d, n % d, d);
  }

  lemma OneMore(q: nat, k: nat)
    ensures (q + 1) * k == q * k + k
  {
  }

  lemma RemainderStep(n: nat, d: nat)
    requires d > 0
    ensures (n % d + 1) % d == (n + 1) % d
  {
    var q, r := n / d, n % d;
    if r + 1 < d {
      QuotientUnique(n + 1, q, r + 1, d);
      QuotientUnique(r + 1, 0, r + 1, d);
    } else {
      OneMore(q, d);
      QuotientUnique(n + 1, q + 1, 0, d);
      QuotientUnique(r + 1, 1, 0, d);
    }
  }

  ghost predicate AtStart(e: Exer) {
    Running(e) && e.step == 0 && (e.mode != UtilPattern ==> e.seqStep == 0)
  }

  /** How many times a run has shown the whole word. */
  function Replays(e: Exer, vs: seq<Visit>): (q: nat)
    requires Running(e)
  {
    if vs == [] then 0 else
    var before := vs[..|vs| - 1];
    Replays(e, before) + if vs[|vs| - 1].eligible && Run(e, before).step + 1 == e.length then 1 else 0
  }

  lemma NextStep(e: Exer, v: Visit)
    requires Running(e)
    ensures Next(e, v).step == if !v.eligible then e.step else if e.step + 1 == e.length then 0 else e.step + 1
  {
    if e.step + 1 == e.length {
      QuotientUnique(e.length, 1, 0, e.length);
    } else {
      QuotientUnique(e.step + 1, 0, e.step + 1, e.length);
    }
  }

  /** Effective visits, counted in replays. */
  lemma {:induction false} EffectiveInReplays(e: Exer, vs: seq<Visit>)
    requires AtStart(e)
    ensures Effective(vs) == Replays(e, vs) * e.length + Run(e, vs).step
  {
    if vs != [] {
      var before := vs[..|vs| - 1];
      EffectiveInReplays(e, before);
      NextStep(Run(e, before), vs[|vs| - 1]);
      OneMore(Replays(e, before), e.length);
    }
  }

  lemma PlaceOfVisit(e: Exer, vs: seq<Visit>)
    requires AtStart(e)
    ensures Run(e, vs).step == Effective(vs) % e.length && Replays(e, vs) == Effective(vs) / e.length
  {
    EffectiveInReplays(e, vs);
    QuotientUnique(Effective(vs), Replays(e, vs), Run(e, vs).step, e.length);
  }

  /** r is a later state of e: what was configured is still there. */
  ghost predicate Follows(e: Exer, r: Exer) {
    && Running(e) && Running(r)
    && r.mode == e.mode && r.length == e.length && r.sequence == e.sequence
    && (e.mode == UtilPattern ==> r.pattern == e.pattern)
  }

  /** Where the run of e stands in state r after q full replays and a run actions: it has had all
      the quotas of those replays plus the ones of the current word shown so far. */
  ghost predicate OnCourse(e: Exer, r: Exer, q: nat, a: nat)
    requires Follows(e, r)
  {
    && (e.mode != UtilPattern ==> r.seqStep == q % |e.sequence|)
    && a == ReplayTotal(e, q) + Ones(r.pattern, e.length - r.step, e.length)
  }

  lemma VisitWithinWord(e: Exer, b: Exer, q: nat, a: nat, v: Visit)
    requires Follows(e, b) && OnCourse(e, b, q, a) && v.eligible && b.step + 1 < b.length
    ensures Follows(e, Next(b, v)) && OnCourse(e, Next(b, v), q, a + if Action(b) then 1 else 0)
  {
    NextStep(b, v);
  }

  /** The visit that ends a word leads to the first step of the next. */
  lemma NextAfterWord(e: Exer, b: Exer, v: Visit)
    requires Follows(e, b) && v.eligible && b.step + 1 == b.length
    ensures Follows(e, Next(b, v)) && Next(b, v).step == 0
    ensures e.mode != UtilPattern ==> Next(b, v).seqStep == (b.seqStep + 1) % |e.sequence|
  {
    NextStep(b, v);
  }

  lemma WordEnds(e: Exer, b: Exer, q: nat, a: nat, r: Exer)
    requires Follows(e, b) && OnCourse(e, b, q, a) && b.step + 1 == b.length
    requires Follows(e, r) && r.step == 0 && (e.mode != UtilPattern ==> r.seqStep == (b.seqStep + 1) % |e.sequence|)
    ensures OnCourse(e, r, q + 1, a + if Action(b) then 1 else 0)
  {
    WholeWordShown(b);
    if e.mode != UtilPattern {
      RemainderStep(q, |e.sequence|);
    }
    assert Ones(b.pattern, 0, e.length) == ReplayQuota(e, q);
  }

  lemma VisitEndingWord(e: Exer, b: Exer, q: nat, a: nat, v: Visit)
    requires Follows(e, b) && OnCourse(e, b, q, a) && v.eligible && b.step + 1 == b.length
    ensures Follows(e, Next(b, v)) && OnCourse(e, Next(b, v), q + 1, a + if Action(b) then 1 else 0)
  {
    NextAfterWord(e, b, v);
    WordEnds(e, b, q, a, Next(b, v));
  }

  /** One visit, from state, replays and run actions b, q, a to r, q', a'. */
  lemma VisitStaysOnCourse(e: Exer, b: Exer, q: nat, a: nat, v: Visit, r: Exer, q': nat, a': nat)
    requires Follows(e, b) && OnCourse(e, b, q, a) && r == Next(b, v)
    requires q' == q + if v.eligible && b.step + 1 == e.length then 1 else 0
    requires a' == a + if v.eligible && Action(b) then 1 else 0
    ensures Follows(e, r) && OnCourse(e, r, q', a')
  {
    if v.eligible && b.step + 1 < b.length {
      VisitWithinWord(e, b, q, a, v);
    } else if v.eligible {
      VisitEndingWord(e, b, q, a, v);
    }
  }

  lemma NothingShownYet(e: Exer)
    requires AtStart(e)
    ensures OnCourse(e, e, 0, 0)
  {
  }

  lemma {:induction false} RunsStayOnCourse(e: Exer, vs: seq<Visit>)
    requires AtStart(e)
    ensures OnCourse(e, Run(e, vs), Replays(e, vs), RunActions(e, vs))
  {
    if vs == [] {
      NothingShownYet(e);
    } else {
      var before := vs[..|vs| - 1];
      RunsStayOnCourse(e, before);
      VisitStaysOnCourse(e, Run(e, before), Replays(e, before), RunActions(e, before), vs[|vs| - 1],
                         Run(e, vs), Replays(e, vs), RunActions(e, vs));
    }
  }

  lemma WholeWordShown(b: Exer)
    requires Running(b)
    ensures b.mode != UtilPattern ==> Ones(b.pattern, 0, b.length) == Quota(b.sequence[b.seqStep], b.length)
  {
    if b.mode != UtilPattern {
      QuotaFits(b.target, b.length);
      var k := Quota(b.target, b.length);
      BlockOnes(32, b.length - k, b.length, b.length);
      BlockOnes(32, 0, k, b.length);
    }
  }

  /** After m full replays an exerciser has had exactly the quotas of those m replays, whatever
      was drawn, whichever signals failed and however often it was not eligible. */
  lemma ReplaysMeetQuotas(e: Exer, vs: seq<Visit>, m: nat)
    requires AtStart(e)
    requires Effective(vs) == m * e.length
    ensures RunActions(e, vs) == ReplayTotal(e, m)
  {
    RunsStayOnCourse(e, vs);
    EffectiveInReplays(e, vs);
    SamePlace(m, 0, Replays(e, vs), Run(e, vs).step, e.length);
  }

  /** What one pass through the whole sequence of percentages is worth. */
  function PassTotal(sequence: seq<nat>, length: nat): (k: nat) {
    if sequence == [] then 0
    else PassTotal(sequence[..|sequence| - 1], length) + Quota(sequence[|sequence| - 1], length)
  }

  lemma RemainderAfter(n: nat, i: nat, d: nat)
    requires i < d && n % d == 0
    ensures (n + i) % d == i
  {
    QuotientUnique(n + i, n / d, i, d);
  }

  /** i replays into a pass that begins after n replays. */
  lemma {:induction false} ReplayTotalWithinPass(e: Exer, n: nat, i: nat)
    requires Running(e) && e.mode != UtilPattern && i <= |e.sequence| && n % |e.sequence| == 0
    ensures ReplayTotal(e, n + i) == ReplayTotal(e, n) + PassTotal(e.sequence[..i], e.length)
    decreases i
  {
    if i > 0 {
      ReplayTotalWithinPass(e, n, i - 1);
      RemainderAfter(n, i - 1, |e.sequence|);
      assert e.sequence[..i][..i - 1] == e.sequence[..i - 1];
    }
  }

  lemma {:induction false} ReplayTotalOfPasses(e: Exer, q: nat)
    requires Running(e) && e.mode != UtilPattern
    ensures ReplayTotal(e, q * |e.sequence|) == q * PassTotal(e.sequence, e.length)
  {
    if q > 0 {
      var n, total := (q - 1) * |e.sequence|, PassTotal(e.sequence, e.length);
      ReplayTotalOfPasses(e, q - 1);
      QuotientUnique(n, q - 1, 0, |e.sequence|);
      ReplayTotalWithinPass(e, n, |e.sequence|);
      assert e.sequence[..|e.sequence|] == e.sequence;
      OneMore(q - 1, |e.sequence|);
      OneMore(q - 1, total);
    }
  }

  /** Duty cycle: q passes of `sequence_length * pattern_length` effective visits give exactly
      q times the sum of floor(percentage * length / 100). */
  lemma DutyCycle(e: Exer, vs: seq<Visit>, q: nat)
    requires AtStart(e) && e.mode != UtilPattern
    requires Effective(vs) == q * |e.sequence| * e.length
    ensures RunActions(e, vs) == q * PassTotal(e.sequence, e.length)
  {
    ReplaysMeetQuotas(e, vs, q * |e.sequence|);
    ReplayTotalOfPasses(e, q);
  }

  /** What the percentages of a sequence are worth over one pass, in hundredths of a visit. */
  function PassShare(ps: seq<nat>, length: nat): (n: nat) {
    if ps == [] then 0 else PassShare(ps[..|ps| - 1], length) + ps[|ps| - 1] * length
  }

  /** No percentage of the sequence is rounded. */
  predicate NothingRounded(ps: seq<nat>, length: nat) {
    forall i :: 0 <= i < |ps| ==> ps[i] * length % 100 == 0
  }

  lemma NothingRoundedInLast(ps: seq<nat>, length: nat)
    requires ps != []
    ensures var k := |ps| - 1;
      NothingRounded(ps, length) <==> NothingRounded(ps[..k], length) && ps[k] * length % 100 == 0
  {
    var k := |ps| - 1;
    assert forall i :: 0 <= i < k ==> ps[..k][i] == ps[i];
  }

  /** Total visits a for share x, n of them rounded. */
  ghost predicate ShortOf(a: int, x: int, n: int) {
    100 * a <= x <= 100 * a + 99 * n
  }

  lemma QuotaShortOf(percent: nat, length: nat)
    ensures ShortOf(Quota(percent, length), percent * length, 1)
    ensures 100 * Quota(percent, length) == percent * length <==> percent * length % 100 == 0
  {
  }

  lemma {:induction false} PassShortOf(ps: seq<nat>, length: nat)
    ensures ShortOf(PassTotal(ps, length), PassShare(ps, length), |ps|)
    ensures 100 * PassTotal(ps, length) == PassShare(ps, length) <==> NothingRounded(ps, length)
  {
    if ps != [] {
      var k := |ps| - 1;
      PassShortOf(ps[..k], length);
      QuotaShortOf(ps[k], length);
      NothingRoundedInLast(ps, length);
      MoreShort(PassTotal(ps[..k], length), PassShare(ps[..k], length), k, Quota(ps[k], length), ps[k] * length, 1);
    }
  }

  lemma {:induction false} ShortOfMultiple(q: nat, a: nat, x: nat, n: nat)
    requires ShortOf(a, x, n)
    ensures ShortOf(q * a, q * x, q * n)
    ensures q > 0 ==> (100 * (q * a) == q * x <==> 100 * a == x)
  {
    if q > 0 {
      ShortOfMultiple(q - 1, a, x, n);
      OneMore(q - 1, a);
      OneMore(q - 1, x);
      OneMore(q - 1, n);
      MoreShort((q - 1) * a, (q - 1) * x, (q - 1) * n, a, x, n);
    }
  }

  lemma MoreShort(a: int, x: int, n: int, b: int, y: int, m: int)
    requires ShortOf(a, x, n) && ShortOf(b, y, m)
    ensures ShortOf(a + b, x + y, n + m)
    ensures 100 * (a + b) == x + y <==> 100 * a == x && 100 * b == y
  {
  }

  /** The share of the time: over q passes an exerciser runs for its percentages of the visits, short
      by less than one visit per replay, and exactly so if and only if no percentage is rounded. */
  lemma ShareOfTheTime(e: Exer, vs: seq<Visit>, q: nat)
    requires AtStart(e) && e.mode != UtilPattern
    requires Effective(vs) == q * |e.sequence| * e.length
    ensures ShortOf(RunActions(e, vs), q * PassShare(e.sequence, e.length), q * |e.sequence|)
    ensures q > 0 ==>
      (100 * RunActions(e, vs) == q * PassShare(e.sequence, e.length) <==> NothingRounded(e.sequence, e.length))
  {
    DutyCycle(e, vs, q);
    PassShortOf(e.sequence, e.length);
    ShortOfMultiple(q, PassTotal(e.sequence, e.length), PassShare(e.sequence, e.length), |e.sequence|);
  }

  /** A schedule that is never rebuilt for another percentage and never shuffled. */
  predicate Steady(e: Exer) {
    e.mode == UtilPattern || (e.mode != UtilRandom && |e.sequence| == 1)
  }

  lemma SteadyQuota(e: Exer, j: nat)
    requires Running(e) && Steady(e)
    ensures ReplayQuota(e, j) == ReplayQuota(e, 0)
  {
  }

  lemma {:induction false} SteadyTotals(e: Exer, i: nat, m: nat)
    requires Running(e) && Steady(e)
    ensures ReplayTotal(e, i + m) == ReplayTotal(e, i) + ReplayTotal(e, m)
    decreases m
  {
    if m > 0 {
      SteadyTotals(e, i, m - 1);
      SteadyQuota(e, i + m - 1);
      SteadyQuota(e, m - 1);
      assert ReplayTotal(e, i + m) == ReplayTotal(e, i + m - 1) + ReplayQuota(e, i + m - 1);
    }
  }

  lemma {:induction false} SteadyTotal(e: Exer, m: nat)
    requires Running(e) && Steady(e)
    ensures ReplayTotal(e, m) == m * ReplayQuota(e, 0)
  {
    if m > 0 {
      SteadyTotal(e, m - 1);
      SteadyQuota(e, m - 1);
      OneMore(m - 1, ReplayQuota(e, 0));
    }
  }

  /** With a steady schedule the share is right over every window of m * length effective visits,
      wherever in a replay it begins. */
  lemma EveryWindow(e: Exer, vs: seq<Visit>, k: nat, m: nat)
    requires AtStart(e) && Steady(e) && k <= |vs|
    requires Effective(vs) == Effective(vs[..k]) + m * e.length
    ensures RunActions(e, vs) == RunActions(e, vs[..k]) + m * ReplayQuota(e, 0)
  {
    RunsApart(e, vs[..k], vs, m);
  }

  /** Two runs from one start, of which one has had m * length more effective visits. */
  lemma RunsApart(e: Exer, us: seq<Visit>, vs: seq<Visit>, m: nat)
    requires AtStart(e) && Steady(e) && Effective(vs) == Effective(us) + m * e.length
    ensures RunActions(e, vs) == RunActions(e, us) + m * ReplayQuota(e, 0)
  {
    var r, q := CourseOf(e, us);
    var r', q' := CourseOf(e, vs);
    PlacesApart(e, r, q, RunActions(e, us), r', q', RunActions(e, vs), m);
  }

  /** State and number of replays after a run. */
  lemma CourseOf(e: Exer, vs: seq<Visit>) returns (r: Exer, q: nat)
    requires AtStart(e)
    ensures Follows(e, r) && OnCourse(e, r, q, RunActions(e, vs)) && Effective(vs) == q * e.length + r.step
  {
    r, q := Run(e, vs), Replays(e, vs);
    RunsStayOnCourse(e, vs);
    EffectiveInReplays(e, vs);
  }

  lemma PlacesApart(e: Exer, r: Exer, q: nat, a: nat, r': Exer, q': nat, a': nat, m: nat)
    requires Steady(e) && Follows(e, r) && OnCourse(e, r, q, a) && Follows(e, r') && OnCourse(e, r', q', a')
    requires q' * e.length + r'.step == q * e.length + r.step + m * e.length
    ensures a' == a + m * ReplayQuota(e, 0)
  {
    ShiftedPlace(q, r.step, q', r'.step, m, e.length);
    SameWord(e, r, r');
    SteadyTotals(e, q, m);
    SteadyTotal(e, m);
  }

  lemma ShiftedPlace(q: nat, s: nat, q': nat, s': nat, m: nat, d: nat)
    requires s < d && s' < d && q' * d + s' == q * d + s + m * d
    ensures q' == q + m && s' == s
  {
    assert (q + m) * d == q * d + m * d;
    SamePlace(q + m, s, q', s', d);
  }

  lemma SameWord(e: Exer, a: Exer, b: Exer)
    requires Steady(e) && Follows(e, a) && Follows(e, b)
    ensures a.pattern == b.pattern
  {
  }

  /** For LEFT and RIGHT the very visit on which an exerciser runs is determined by the number
      of effective visits before it. */
  lemma ExactVisits(e: Exer, vs: seq<Visit>)
    requires AtStart(e) && (e.mode == UtilLeft || e.mode == UtilRight)
    ensures
      var n := Effective(vs);
      var k := Quota(e.sequence[(n / e.length) % |e.sequence|], e.length);
      Action(Run(e, vs)) <==> if e.mode == UtilLeft then n % e.length < k else e.length - k <= n % e.length
  {
    RunsStayOnCourse(e, vs);
    PlaceOfVisit(e, vs);
    QuotaFits(Run(e, vs).target, e.length);
  }

  /** A literal schedule repeats for ever, top bit first. */
  lemma LiteralVisits(e: Exer, vs: seq<Visit>)
    requires AtStart(e) && e.mode == UtilPattern
    ensures Action(Run(e, vs)) <==> e.pattern[e.length - 1 - Effective(vs) % e.length]
  {
    RunsStayOnCourse(e, vs);
    PlaceOfVisit(e, vs);
  }

  // ---------- signals ----------

  /** The signals delivered over a run. */
  function Trace(e: Exer, vs: seq<Visit>): (sigs: seq<Signal>)
    requires Running(e)
  {
    if vs == [] then [] else Trace(e, vs[..|vs| - 1]) + Sent(Run(e, vs[..|vs| - 1]), vs[|vs| - 1])
  }

  /** The state of a signal history: alternating from Stop, with the flag up after a Stop. */
  predicate Alternates(sigs: seq<Signal>, halt: bool) {
    && (forall i :: 0 <= i < |sigs| ==> sigs[i] == if i % 2 == 0 then Stop else Cont)
    && (halt <==> |sigs| % 2 == 1)
  }

  lemma AlternationGrows(sigs: seq<Signal>, halt: bool)
    requires Alternates(sigs, halt)
    ensures Alternates(sigs + [if halt then Cont else Stop], !halt) && Alternates(sigs + [], halt)
  {
    assert sigs + [] == sigs;
  }

  lemma SentMovesHalt(e: Exer, v: Visit)
    requires Running(e)
    ensures Sent(e, v) == [] ==> Next(e, v).halt == e.halt
    ensures Sent(e, v) != [] ==> Sent(e, v) == [if e.halt then Cont else Stop] && Next(e, v).halt == !e.halt
  {
  }

  lemma VisitKeepsAlternation(e: Exer, sigs: seq<Signal>, v: Visit)
    requires Running(e) && Alternates(sigs, e.halt)
    ensures Alternates(sigs + Sent(e, v), Next(e, v).halt)
  {
    SentMovesHalt(e, v);
    AlternationGrows(sigs, e.halt);
  }

  lemma LastOfAlternation(sigs: seq<Signal>, halt: bool)
    requires Alternates(sigs, halt)
    ensures halt <==> (sigs != [] && sigs[|sigs| - 1] == Stop)
  {
  }

  lemma {:induction false} TraceAlternates(e: Exer, vs: seq<Visit>)
    requires Running(e) && !e.halt
    ensures Alternates(Trace(e, vs), Run(e, vs).halt)
  {
    if vs != [] {
      var before := vs[..|vs| - 1];
      TraceAlternates(e, before);
      VisitKeepsAlternation(Run(e, before), Trace(e, before), vs[|vs| - 1]);
    }
  }

  /** Over any run the delivered signals alternate Stop, Cont, Stop, ..., and the halt flag is up
      exactly when the last one was a Stop. */
  lemma SignalsAlternate(e: Exer, vs: seq<Visit>)
    requires Running(e) && !e.halt
    ensures Alternates(Trace(e, vs), Run(e, vs).halt)
    ensures Run(e, vs).halt <==> (Trace(e, vs) != [] && Trace(e, vs)[|Trace(e, vs)| - 1] == Stop)
  {
    TraceAlternates(e, vs);
    LastOfAlternation(Trace(e, vs), Run(e, vs).halt);
  }

  /** A run with one more visit. */
  lemma RunOneMore(e: Exer, vs: seq<Visit>, v: Visit)
    requires Running(e)
    ensures Run(e, vs + [v]) == Next(Run(e, vs), v)
    ensures Trace(e, vs + [v]) == Trace(e, vs) + Sent(Run(e, vs), v)
  {
    assert (vs + [v])[..|vs|] == vs;
  }

  /** After an effective visit whose signal, if one was needed, got through, the exerciser is
      halted exactly when the schedule says sleep. */
  lemma HaltFollowsSchedule(e: Exer, v: Visit)
    requires Running(e) && v.eligible
    ensures Next(e, v).halt == !Action(e) <==> (v.delivered || e.halt == !Action(e))
  {
  }
}
