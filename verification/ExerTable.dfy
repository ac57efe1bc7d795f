/** The exer table, an index by device name over the exerciser entries (HE) that the ECGs keep in
    shared memory, and the loading of an ECG's device stanzas into both. */
module ExerTable {
  import opened Seqs

  /** The part of htxd_ecg_info that goes into the table, with a number for the ECG's memory. */
  datatype Ecg = Ecg(id: nat, shmKey: int, semKey: int, semId: int)

  /** Where a device is: its ECG, its position there, and the address of its HE, which is slot
      `address.1` of the memory of ECG number `address.0`. */
  datatype Slot = Slot(name: string, ecg: Ecg, pos: nat, address: (nat, nat))

  datatype Entry = Entry(slot: Slot, pid: int)

  datatype DupStatus = NotFound | Found | Terminated

  function Names(t: seq<Entry>): (ns: seq<string>)
    ensures |ns| == |t|
  {
    seq(|t|, i requires 0 <= i < |t| => t[i].slot.name)
  }

  /** Linear search for a name. */
  ghost predicate FirstAt(ns: seq<string>, n: string, pos: int) {
    if n in ns then 0 <= pos < |ns| && ns[pos] == n && n !in ns[..pos] else pos == -1
  }

  /** What loading takes from a list of stanza names, given the names already known. */
  function Unseen(known: seq<string>, stanzas: seq<string>): (r: seq<string>)
    ensures |r| <= |stanzas|
  {
    if stanzas == [] then [] else
    var before := Unseen(known, stanzas[..|stanzas| - 1]);
    var n := stanzas[|stanzas| - 1];
    if n in known || n in before then before else before + [n]
  }

  function FirstIndex(s: seq<string>, n: string): (i: nat)
    requires n in s
    ensures i < |s| && s[i] == n && forall k :: 0 <= k < i ==> s[k] != n
  {
    if s[0] == n then 0 else
    assert s == [s[0]] + s[1..];
    1 + FirstIndex(s[1..], n)
  }

  lemma FirstIndexOfPrefix(s: seq<string>, k: nat, n: string)
    requires k <= |s| && n in s[..k]
    ensures n in s && FirstIndex(s, n) == FirstIndex(s[..k], n)
  {
    var i := FirstIndex(s[..k], n);
    assert s[i] == n && forall j :: 0 <= j < i ==> s[j] == s[..k][j];
  }

  /** The names of r come in the order in which they first occur in s. */
  ghost predicate InOrder(r: seq<string>, s: seq<string>) {
    && (forall i :: 0 <= i < |r| ==> r[i] in s)
    && (forall i, j :: 0 <= i < j < |r| ==> FirstIndex(s, r[i]) < FirstIndex(s, r[j]))
  }

  /** Exactly the names that occur and were not known, each once, in the order of their first
      occurrences. */
  lemma {:induction false} UnseenMeaning(known: seq<string>, stanzas: seq<string>)
    ensures forall n :: n in Unseen(known, stanzas) <==> n in stanzas && n !in known
    ensures Distinct(Unseen(known, stanzas))
    ensures InOrder(Unseen(known, stanzas), stanzas)
  {
    if stanzas != [] {
      var k := |stanzas| - 1;
      var before, n, r := Unseen(known, stanzas[..k]), stanzas[k], Unseen(known, stanzas);
      UnseenMeaning(known, stanzas[..k]);
      assert stanzas == stanzas[..k] + [n];
      forall i, j | 0 <= i < j < |r| ensures FirstIndex(stanzas, r[i]) < FirstIndex(stanzas, r[j]) {
        assert r[i] == before[i] && before[i] in before;
        FirstIndexOfPrefix(stanzas, k, r[i]);
        if j < |before| {
          assert r[j] == before[j] && before[j] in before;
          FirstIndexOfPrefix(stanzas, k, r[j]);
          assert FirstIndex(stanzas[..k], before[i]) < FirstIndex(stanzas[..k], before[j]);
        } else {
          assert r[j] == n && n !in known && n !in before;
          assert n !in stanzas[..k];
          assert forall q :: 0 <= q < k ==> stanzas[q] in stanzas[..k];
          assert FirstIndex(stanzas, n) == k;
        }
      }
    }
  }

  // ---------- what the table must hold ----------

  function SlotOf(ecg: Ecg, he: seq<string>, p: nat): (s: Slot)
    requires p < |he|
  {
    Slot(he[p], ecg, p, (ecg.id, p))
  }

  function SlotsOf(ecg: Ecg, he: seq<string>): (ss: seq<Slot>)
    ensures |ss| == |he|
  {
    seq(|he|, p requires 0 <= p < |he| => SlotOf(ecg, he, p))
  }

  /** One loaded ECG with the names in its HE array. */
  datatype Loaded = Loaded(ecg: Ecg, he: seq<string>)

  /** All devices of all ECGs, in the order they were loaded. */
  function AllSlots(ecgs: seq<Loaded>): (ss: seq<Slot>) {
    if ecgs == [] then []
    else AllSlots(ecgs[..|ecgs| - 1]) + SlotsOf(ecgs[|ecgs| - 1].ecg, ecgs[|ecgs| - 1].he)
  }

  function Slots(t: seq<Entry>): (ss: seq<Slot>)
    ensures |ss| == |t|
  {
    seq(|t|, i requires 0 <= i < |t| => t[i].slot)
  }

  /** The table lists exactly the devices in shared memory, under distinct names. */
  ghost predicate Agrees(t: seq<Entry>, ecgs: seq<Loaded>) {
    Slots(t) == AllSlots(ecgs) && Distinct(Names(t))
  }

  lemma {:induction false} SlotIsListed(ecgs: seq<Loaded>, e: nat, p: nat)
    requires e < |ecgs| && p < |ecgs[e].he|
    ensures SlotOf(ecgs[e].ecg, ecgs[e].he, p) in AllSlots(ecgs)
  {
    var last := |ecgs| - 1;
    if e < last {
      SlotIsListed(ecgs[..last], e, p);
    } else {
      assert SlotsOf(ecgs[last].ecg, ecgs[last].he)[p] == SlotOf(ecgs[e].ecg, ecgs[e].he, p);
    }
  }

  /** Looking a device up by name gives its own ECG, and the position and address at which a scan
      of that ECG's HE array finds it. */
  lemma LookupFindsDevice(t: seq<Entry>, ecgs: seq<Loaded>, e: nat, p: nat, k: int)
    requires Agrees(t, ecgs) && e < |ecgs| && p < |ecgs[e].he|
    requires FirstAt(Names(t), ecgs[e].he[p], k)
    ensures 0 <= k < |t| && t[k].slot.ecg == ecgs[e].ecg && t[k].slot.pos == p
    ensures t[k].slot.address == (ecgs[e].ecg.id, p)
    ensures FirstAt(ecgs[e].he, ecgs[e].he[p], t[k].slot.pos)
  {
    var he := ecgs[e].he;
    EntryOf(t, ecgs, e, p, k);
    if he[p] in he[..p] {
      var q :| 0 <= q < p && he[q] == he[p];
      EntryOf(t, ecgs, e, q, k);
    }
  }

  /** In a table with distinct names, searching for the name of a slot finds that slot. */
  lemma SearchFindsSlot(t: seq<Entry>, s: Slot, k: int)
    requires Distinct(Names(t)) && s in Slots(t) && FirstAt(Names(t), s.name, k)
    ensures 0 <= k < |t| && t[k].slot == s
  {
    var i :| 0 <= i < |t| && Slots(t)[i] == s;
    assert Names(t)[i] == s.name;
  }

  lemma EntryOf(t: seq<Entry>, ecgs: seq<Loaded>, e: nat, p: nat, k: int)
    requires Agrees(t, ecgs) && e < |ecgs| && p < |ecgs[e].he|
    requires FirstAt(Names(t), ecgs[e].he[p], k)
    ensures 0 <= k < |t| && t[k].slot == SlotOf(ecgs[e].ecg, ecgs[e].he, p)
  {
    SlotIsListed(ecgs, e, p);
    SearchFindsSlot(t, SlotOf(ecgs[e].ecg, ecgs[e].he, p), k);
  }

  // ---------- runs of loads and shutdowns ----------

  /** What happens to the table: an ECG is loaded, the process id of a device changes, or the ECG
      loaded as number `at` since the daemon was idle is shut down. */
  datatype Event = Load(ecg: Ecg, stanzas: seq<string>) | SetPid(name: string, pid: int) | Shutdown(at: nat)

  /** An ECG loaded since the daemon was idle, running or shut down. */
  datatype Record = Record(load: Loaded, live: bool)

  function Loads(book: seq<Record>): (ecgs: seq<Loaded>)
    ensures |ecgs| == |book|
  {
    seq(|book|, i requires 0 <= i < |book| => book[i].load)
  }

  function Live(book: seq<Record>): (ecgs: seq<Loaded>) {
    if book == [] then [] else
    Live(book[..|book| - 1]) + if book[|book| - 1].live then [book[|book| - 1].load] else []
  }

  /** The names in the HE arrays of all ECGs. */
  function AllNames(ecgs: seq<Loaded>): (ns: seq<string>) {
    if ecgs == [] then [] else AllNames(ecgs[..|ecgs| - 1]) + ecgs[|ecgs| - 1].he
  }

  /** A load takes the names that no ECG of the book has, running or not.  With the last running ECG
      shut down the daemon goes idle and everything is deleted; shutting down an ECG that is not
      running does nothing. */
  function Step(book: seq<Record>, event: Event): (r: seq<Record>) {
    match event
    case Load(ecg, stanzas) => book + [Record(Loaded(ecg, Unseen(AllNames(Loads(book)), stanzas)), true)]
    case SetPid(_, _) => book
    case Shutdown(at) =>
      if at >= |book| || !book[at].live then book else
      var rest := book[at := book[at].(live := false)];
      if Live(rest) == [] then [] else rest
  }

  function Book(events: seq<Event>): (book: seq<Record>) {
    if events == [] then [] else Step(Book(events[..|events| - 1]), events[|events| - 1])
  }

  lemma {:induction false} AllSlotsNames(ecgs: seq<Loaded>)
    ensures |AllSlots(ecgs)| == |AllNames(ecgs)|
    ensures forall i :: 0 <= i < |AllSlots(ecgs)| ==> AllSlots(ecgs)[i].name == AllNames(ecgs)[i]
  {
    if ecgs != [] {
      AllSlotsNames(ecgs[..|ecgs| - 1]);
    }
  }

  lemma NamesOfAllSlots(t: seq<Entry>, ecgs: seq<Loaded>)
    requires Slots(t) == AllSlots(ecgs)
    ensures Names(t) == AllNames(ecgs)
  {
    AllSlotsNames(ecgs);
    forall i | 0 <= i < |t| ensures Names(t)[i] == AllNames(ecgs)[i] {
      assert Slots(t)[i] == AllSlots(ecgs)[i];
    }
  }

  /** Loading one more ECG keeps table and shared memory in agreement. */
  lemma LoadKeepsAgreement(t: seq<Entry>, t': seq<Entry>, ecgs: seq<Loaded>, last: Loaded)
    requires Agrees(t, ecgs) && Distinct(Names(t')) && Slots(t') == Slots(t) + SlotsOf(last.ecg, last.he)
    ensures Agrees(t', ecgs + [last])
  {
    assert (ecgs + [last])[..|ecgs|] == ecgs;
  }

  lemma LoadsOfStep(book: seq<Record>, event: Event)
    ensures match event
      case Load(ecg, stanzas) =>
        Loads(Step(book, event)) == Loads(book) + [Loaded(ecg, Unseen(AllNames(Loads(book)), stanzas))]
      case SetPid(_, _) => Step(book, event) == book
      case Shutdown(_) => Step(book, event) == [] || Loads(Step(book, event)) == Loads(book)
  {
  }

  /** How many events there were up to the last moment at which no ECG was loaded. */
  function Since(events: seq<Event>): (n: nat)
    ensures n <= |events|
  {
    if Book(events) == [] then |events| else Since(events[..|events| - 1])
  }

  /** Some load from event number `from` on had a stanza of this name. */
  ghost predicate Offered(events: seq<Event>, from: nat, n: string) {
    exists i :: from <= i < |events| && events[i].Load? && n in events[i].stanzas
  }

  lemma OfferedByLast(events: seq<Event>, from: nat, n: string)
    requires from < |events|
    ensures var k := |events| - 1;
      Offered(events, from, n) <==> Offered(events[..k], from, n) || (events[k].Load? && n in events[k].stanzas)
  {
    var k := |events| - 1;
    assert forall i :: 0 <= i < k ==> events[..k][i] == events[i];
  }

  /** After any run a device name is in some HE array exactly when some load since the daemon was
      idle had a stanza of it, and no name is there twice. */
  lemma {:induction false} LoadedNames(events: seq<Event>)
    ensures Distinct(AllNames(Loads(Book(events))))
    ensures forall n :: n in AllNames(Loads(Book(events))) <==> Offered(events, Since(events), n)
  {
    if Book(events) != [] {
      var k := |events| - 1;
      var before := AllNames(Loads(Book(events[..k])));
      LoadedNames(events[..k]);
      LoadsOfStep(Book(events[..k]), events[k]);
      forall n ensures Offered(events, Since(events), n)
        <==> n in before || (events[k].Load? && n in events[k].stanzas)
      {
        OfferedByLast(events, Since(events), n);
      }
      if events[k].Load? {
        UnseenMeaning(before, events[k].stanzas);
        DistinctConcat(before, Unseen(before, events[k].stanzas));
        assert Loads(Book(events))[..|Book(events[..k])|] == Loads(Book(events[..k]));
      }
    }
  }

  // ---------- when the daemon is idle ----------

  lemma {:induction false} LiveOfLive(book: seq<Record>, i: nat)
    requires i < |book| && book[i].live
    ensures Live(book) != []
  {
    if i < |book| - 1 {
      LiveOfLive(book[..|book| - 1], i);
    }
  }

  /** After any run in which every ECG that was loaded is shut down again, nothing is left. */
  lemma {:induction false} IdleLeavesNothing(events: seq<Event>)
    ensures Live(Book(events)) == [] ==> Book(events) == []
  {
    if events != [] {
      var before, event := Book(events[..|events| - 1]), events[|events| - 1];
      IdleLeavesNothing(events[..|events| - 1]);
      if event.Load? {
        LiveOfLive(Book(events), |before|);
      }
    }
  }

  /** As long as another ECG runs, a shutdown leaves every record in place. */
  lemma BusyKeepsAll(events: seq<Event>, at: nat, i: nat)
    requires i < |Book(events)| && i != at && Book(events)[i].live
    ensures Loads(Book(events + [Shutdown(at)])) == Loads(Book(events)) && Book(events + [Shutdown(at)])[i].live
  {
    assert (events + [Shutdown(at)])[..|events|] == events;
    var book := Book(events);
    if at < |book| {
      LiveOfLive(book[at := book[at].(live := false)], i);
    }
  }

  function LoadCount(events: seq<Event>): (n: nat) {
    if events == [] then 0
    else LoadCount(events[..|events| - 1]) + if events[|events| - 1].Load? then 1 else 0
  }

  /** Since event number `from`, the ECG loaded as number `at` has been shut down after its load. */
  ghost predicate ShutSince(events: seq<Event>, from: nat, at: nat)
    requires from <= |events|
  {
    exists i :: from <= i < |events| && events[i] == Shutdown(at) && LoadCount(events[from..i]) > at
  }

  lemma ShutByLast(events: seq<Event>, from: nat, at: nat)
    requires from < |events|
    ensures var k := |events| - 1;
      ShutSince(events, from, at) <==>
        ShutSince(events[..k], from, at) || (events[k] == Shutdown(at) && LoadCount(events[from..k]) > at)
  {
    var k := |events| - 1;
    assert forall i :: from <= i < k ==> events[..k][i] == events[i] && events[..k][from..i] == events[from..i];
  }

  lemma LoadCountOfLast(events: seq<Event>, from: nat)
    requires from < |events|
    ensures var k := |events| - 1;
      && events[..k][from..] == events[from..k]
      && LoadCount(events[from..]) == LoadCount(events[from..k]) + if events[k].Load? then 1 else 0
  {
    var k := |events| - 1;
    assert events[from..][..k - from] == events[from..k];
  }

  /** After any run the book has one record for each load since the daemon was idle, and a record is
      live exactly when its ECG has not been shut down since. */
  lemma {:induction false} LiveIffNotShut(events: seq<Event>)
    ensures |Book(events)| == LoadCount(events[Since(events)..])
    ensures forall at :: 0 <= at < |Book(events)| ==>
      (Book(events)[at].live <==> !ShutSince(events, Since(events), at))
  {
    if Book(events) != [] {
      var k, from := |events| - 1, Since(events);
      var before := Book(events[..k]);
      LiveIffNotShut(events[..k]);
      LoadCountOfLast(events, from);
      forall at | 0 <= at < |Book(events)| ensures Book(events)[at].live <==> !ShutSince(events, from, at) {
        ShutByLast(events, from, at);
        if at == |before| {
          NotShutBeforeLoad(events[..k], from, at);
        }
      }
    }
  }

  lemma {:induction false} LoadCountOfPrefix(events: seq<Event>, i: nat)
    requires i <= |events|
    ensures LoadCount(events[..i]) <= LoadCount(events)
  {
    if i < |events| {
      LoadCountOfPrefix(events[..|events| - 1], i);
      assert events[..|events| - 1][..i] == events[..i];
    } else {
      assert events[..i] == events;
    }
  }

  lemma NotShutBeforeLoad(events: seq<Event>, from: nat, at: nat)
    requires from <= |events| && LoadCount(events[from..]) <= at
    ensures !ShutSince(events, from, at)
  {
    forall i | from <= i < |events| ensures LoadCount(events[from..i]) <= at {
      LoadCountOfPrefix(events[from..], i - from);
      assert events[from..][..i - from] == events[from..i];
    }
  }

  /** Once every ECG is shut down, a load takes all of its stanzas, whatever was loaded before. */
  lemma IdleLoadsAll(events: seq<Event>, ecg: Ecg, stanzas: seq<string>)
    requires Live(Book(events)) == []
    ensures Loads(Book(events + [Load(ecg, stanzas)])) == [Loaded(ecg, Unseen([], stanzas))]
  {
    IdleLeavesNothing(events);
    assert (events + [Load(ecg, stanzas)])[..|events|] == events;
  }

  /** Loaded, shut down and loaded again: the device is there. */
  lemma LoadAgain(ecg: Ecg, name: string)
    ensures Loads(Book([Load(ecg, [name]), Shutdown(0), Load(ecg, [name])])) == [Loaded(ecg, [name])]
  {
    LoadedOnce(ecg, name);
    var once := [Load(ecg, [name])];
    var twice := once + [Shutdown(0)];
    assert twice[..1] == once;
    var rest := Book(once)[0 := Book(once)[0].(live := false)];
    assert rest[..0] == [] && Live(rest) == [];
    IdleLoadsAll(twice, ecg, [name]);
    assert twice + [Load(ecg, [name])] == [Load(ecg, [name]), Shutdown(0), Load(ecg, [name])];
  }

  lemma LoadedOnce(ecg: Ecg, name: string)
    ensures Unseen([], [name]) == [name]
    ensures Book([Load(ecg, [name])]) == [Record(Loaded(ecg, [name]), true)]
  {
    assert [name][..0] == [] && [Load(ecg, [name])][..0] == [];
    assert Loads([]) == [] && AllNames([]) == [];
  }

  // ---------- what is left of an ECG that was shut down ----------

  /** The ECGs that were shut down had no device of their own. */
  predicate NothingLeft(book: seq<Record>) {
    forall i :: 0 <= i < |book| && !book[i].live ==> book[i].load.he == []
  }

  lemma SlotsOfLast(book: seq<Record>)
    requires book != []
    ensures var init, last := book[..|book| - 1], book[|book| - 1];
      && AllSlots(Loads(book)) == AllSlots(Loads(init)) + SlotsOf(last.load.ecg, last.load.he)
      && AllSlots(Live(book))
           == AllSlots(Live(init)) + if last.live then SlotsOf(last.load.ecg, last.load.he) else []
  {
    var k := |book| - 1;
    assert Loads(book)[..k] == Loads(book[..k]);
    if book[k].live {
      assert Live(book)[..|Live(book)| - 1] == Live(book[..k]);
    } else {
      assert Live(book) == Live(book[..k]);
    }
  }

  lemma {:induction false} LiveSlots(book: seq<Record>)
    ensures |AllSlots(Live(book))| <= |AllSlots(Loads(book))|
    ensures NothingLeft(book) ==> AllSlots(Live(book)) == AllSlots(Loads(book))
    ensures |AllSlots(Live(book))| == |AllSlots(Loads(book))| ==> NothingLeft(book)
  {
    if book != [] {
      LiveSlots(book[..|book| - 1]);
      SlotsOfLast(book);
      NothingLeftInLast(book);
    }
  }

  lemma NothingLeftInLast(book: seq<Record>)
    requires book != []
    ensures var init, last := book[..|book| - 1], book[|book| - 1];
      NothingLeft(book) <==> NothingLeft(init) && (last.live || last.load.he == [])
  {
    var k := |book| - 1;
    assert forall i :: 0 <= i < k ==> book[..k][i] == book[i];
  }

  /** A table that lists all ECGs of the book lists exactly the running ones if and only if those
      that were shut down had no device of their own. */
  lemma ListsRunningEcgsIff(t: seq<Entry>, book: seq<Record>)
    requires Agrees(t, Loads(book))
    ensures Agrees(t, Live(book)) <==> NothingLeft(book)
  {
    LiveSlots(book);
  }

  /** A load finds nothing to load if and only if all of its names are in the book already. */
  lemma LoadsNothingIff(book: seq<Record>, stanzas: seq<string>)
    ensures Unseen(AllNames(Loads(book)), stanzas) == []
       <==> forall n :: n in stanzas ==> n in AllNames(Loads(book))
  {
    UnseenMeaning(AllNames(Loads(book)), stanzas);
    var r := Unseen(AllNames(Loads(book)), stanzas);
    if r != [] {
      assert r[0] in r;
    }
  }

  /** Such a history: two ECGs are loaded and the first is shut down.  The table still leads to its
      devices, and loading it again loads no device. */
  lemma ShutdownLeavesEntries(a: Ecg, b: Ecg, name: string, stanzas: seq<string>, t: seq<Entry>)
    requires Agrees(t, Loads(Book([Load(a, [name]), Load(b, stanzas), Shutdown(0)])))
    ensures !Agrees(t, Live(Book([Load(a, [name]), Load(b, stanzas), Shutdown(0)])))
    ensures Unseen(AllNames(Loads(Book([Load(a, [name]), Load(b, stanzas), Shutdown(0)]))), [name]) == []
  {
    var events := [Load(a, [name]), Load(b, stanzas), Shutdown(0)];
    BookOfThree(a, b, name, stanzas);
    var book := Book(events);
    ListsRunningEcgsIff(t, book);
    assert !book[0].live && book[0].load.he == [name];
    LoadsNothingIff(book, [name]);
    assert Loads(book)[..1] == [book[0].load] && [book[0].load][..0] == [];
    assert AllNames(Loads(book)) == AllNames([book[0].load]) + book[1].load.he;
  }

  lemma BookOfThree(a: Ecg, b: Ecg, name: string, stanzas: seq<string>)
    ensures var book := Book([Load(a, [name]), Load(b, stanzas), Shutdown(0)]);
      |book| == 2 && book[0] == Record(Loaded(a, [name]), false) && book[1].live
  {
    var events := [Load(a, [name]), Load(b, stanzas), Shutdown(0)];
    var one := [Record(Loaded(a, [name]), true)];
    assert events[..2] == [Load(a, [name]), Load(b, stanzas)] && events[..2][..1] == [Load(a, [name])];
    assert [Load(a, [name])][..0] == [] && [name][..0] == [];
    assert Loads([]) == [] && Unseen([], []) == [] && Unseen([], [name]) == [name];
    assert Book([Load(a, [name])]) == one;
    var two := Book(events[..2]);
    assert |two| == 2 && two[0] == one[0] && two[1].live;
    var rest := two[0 := two[0].(live := false)];
    assert Live(rest) != [];
  }

  lemma DistinctConcat(a: seq<string>, b: seq<string>)
    requires Distinct(a) && Distinct(b) && forall n :: n in b ==> n !in a
    ensures Distinct(a + b)
  {
    forall i, j | 0 <= i < j < |a + b| ensures (a + b)[i] != (a + b)[j] {
      if i < |a| <= j {
        assert b[j - |a|] in b && a[i] in a;
      }
    }
  }

  /** A device of a new name at the end of the table and of the HE array. */
  lemma OneMore(t: seq<Entry>, ecg: Ecg, he: seq<string>, name: string)
    requires name !in Names(t) && Distinct(Names(t))
    ensures var slot := Slot(name, ecg, |he|, (ecg.id, |he|));
      && Names(t + [Entry(slot, 0)]) == Names(t) + [name]
      && Distinct(Names(t + [Entry(slot, 0)]))
      && Slots(t + [Entry(slot, 0)]) == Slots(t) + [slot]
      && SlotsOf(ecg, he + [name]) == SlotsOf(ecg, he) + [slot]
  {
    var t' := t + [Entry(Slot(name, ecg, |he|, (ecg.id, |he|)), 0)];
    assert Names(t') == Names(t) + [name];
  }

  // ---------- the operations ----------

  class Table {
    /** exer_table, up to exer_table_length. */
    var entries: seq<Entry>

    constructor ()
      ensures entries == []
    {
      entries := [];
    }

    /** htxd_get_exer_position_in_exer_table_by_exer_name. */
    method PositionByName(name: string) returns (pos: int)
      ensures FirstAt(Names(entries), name, pos)
    {
      for i := 0 to |entries|
        invariant name !in Names(entries)[..i]
      {
        assert Names(entries)[i] == entries[i].slot.name;
        if name == entries[i].slot.name {
          return i;
        }
      }
      assert Names(entries)[..|entries|] == Names(entries);
      pos := -1;
    }

    /** htxd_get_device_dup_status. */
    method DeviceDupStatus(name: string) returns (status: DupStatus)
      ensures status == NotFound <==> name !in Names(entries)
      ensures forall k :: 0 <= k < |entries| && FirstAt(Names(entries), name, k) ==>
        status == if entries[k].pid == 0 then Terminated else Found
    {
      var pos := PositionByName(name);
      if pos == -1 {
        status := NotFound;
      } else if entries[pos].pid == 0 {
        status := Terminated;
      } else {
        status := Found;
      }
    }

    /** htxd_update_exer_table: overwrite the entry of that name, or append one. */
    method UpdateExerTable(name: string, ecg: Ecg, pos: nat)
      modifies this
      ensures name !in Names(old(entries)) ==>
        entries == old(entries) + [Entry(Slot(name, ecg, pos, (ecg.id, pos)), 0)]
      ensures name in Names(old(entries)) ==> exists k ::
        && 0 <= k < |old(entries)| && old(entries)[k].slot.name == name
        && entries == old(entries)[k := old(entries)[k].(slot := Slot(name, ecg, pos, (ecg.id, pos)))]
    {
      var k := PositionByName(name);
      var slot := Slot(name, ecg, pos, (ecg.id, pos));
      if k == -1 {
        entries := entries + [Entry(slot, 0)];
      } else {
        entries := entries[k := entries[k].(slot := slot)];
      }
    }

    /** htxd_update_exer_pid_in_exer_list: the pid of one device, and nothing else. */
    method UpdateExerPid(name: string, pid: int)
      modifies this
      ensures Slots(entries) == Slots(old(entries))
      ensures forall k :: 0 <= k < |entries| ==>
        entries[k].pid == if FirstAt(Names(old(entries)), name, k) then pid else old(entries)[k].pid
    {
      var k := PositionByName(name);
      if k != -1 {
        entries := entries[k := entries[k].(pid := pid)];
      }
    }

    /** htxd_set_shm_exercisers_values: every stanza name is written to the next free HE; it stays
        there, and gets a table entry, unless the table already has the name. */
    method SetShmExercisersValues(ecg: Ecg, stanzas: seq<string>, he: array<string>) returns (loaded: nat)
      requires Distinct(Names(entries)) && |stanzas| <= he.Length
      modifies this, he
      ensures loaded <= he.Length && he[..loaded] == Unseen(old(Names(entries)), stanzas)
      ensures Distinct(Names(entries))
      ensures Slots(entries) == old(Slots(entries)) + SlotsOf(ecg, he[..loaded])
      ensures |entries| == |old(entries)| + loaded && entries[..|old(entries)|] == old(entries)
    {
      loaded := 0;
      ghost var known := Names(entries);
      for i := 0 to |stanzas|
        invariant loaded <= i && he[..loaded] == Unseen(known, stanzas[..i])
        invariant |entries| == |old(entries)| + loaded && entries[..|old(entries)|] == old(entries)
        invariant Slots(entries) == old(Slots(entries)) + SlotsOf(ecg, he[..loaded])
        invariant Names(entries) == known + he[..loaded] && Distinct(Names(entries))
      {
        assert stanzas[..i + 1][..i] == stanzas[..i];
        loaded := LoadStanza(ecg, stanzas[i], he, loaded);
      }
      assert stanzas[..|stanzas|] == stanzas;
    }

    /** The body of its loop, for one stanza. */
    method LoadStanza(ecg: Ecg, name: string, he: array<string>, loaded: nat) returns (next: nat)
      requires loaded < he.Length && Distinct(Names(entries))
      modifies this, he
      ensures Distinct(Names(entries)) && next <= he.Length
      ensures name in old(Names(entries)) ==>
        next == loaded && entries == old(entries) && he[..next] == old(he[..loaded])
      ensures name !in old(Names(entries)) ==>
        && next == loaded + 1 && he[..next] == old(he[..loaded]) + [name]
        && |entries| == |old(entries)| + 1 && entries[..|old(entries)|] == old(entries)
        && Names(entries) == old(Names(entries)) + [name]
        && Slots(entries) == old(Slots(entries)) + [Slot(name, ecg, loaded, (ecg.id, loaded))]
        && SlotsOf(ecg, he[..next]) == SlotsOf(ecg, old(he[..loaded])) + [Slot(name, ecg, loaded, (ecg.id, loaded))]
    {
      next := loaded;
      ghost var before := he[..loaded];
      he[loaded] := name;
      assert he[..loaded] == before && he[..loaded + 1] == before + [name];
      var dup := DeviceDupStatus(name);
      if dup == NotFound {
        OneMore(entries, ecg, before, name);
        UpdateExerTable(name, ecg, loaded);
        next := loaded + 1;
      }
    }

    /** Any run of loads and shutdowns, with process ids set between them: the table lists exactly
        the devices of all ECGs loaded since the daemon was idle, so that a lookup by name leads to
        each of them, also after they are shut down. */
    method Serve(events: seq<Event>)
      requires entries == []
      modifies this
      ensures Agrees(entries, Loads(Book(events)))
    {
      var book := [];
      for i := 0 to |events|
        invariant book == Book(events[..i]) && Agrees(entries, Loads(book))
      {
        assert events[..i + 1][..i] == events[..i];
        Handle(events[i], book);
        book := Step(book, events[i]);
      }
      assert events[..|events|] == events;
    }

    method Handle(event: Event, book: seq<Record>)
      requires Agrees(entries, Loads(book))
      modifies this
      ensures Agrees(entries, Loads(Step(book, event)))
    {
      LoadsOfStep(book, event);
      match event
      case Load(ecg, stanzas) =>
        LoadEcg(ecg, stanzas, Loads(book));
      case SetPid(name, pid) =>
        NamesOfAllSlots(entries, Loads(book));
        UpdateExerPid(name, pid);
        NamesOfAllSlots(entries, Loads(book));
      case Shutdown(_) =>
        if Step(book, event) == [] {
          entries := [];
        }
    }

    /** One load, into shared memory of its own. */
    method LoadEcg(ecg: Ecg, stanzas: seq<string>, ghost before: seq<Loaded>)
      requires Agrees(entries, before)
      modifies this
      ensures Agrees(entries, before + [Loaded(ecg, Unseen(AllNames(before), stanzas))])
    {
      NamesOfAllSlots(entries, before);
      ghost var was := entries;
      var he := new string[|stanzas|];
      var loaded := SetShmExercisersValues(ecg, stanzas, he);
      LoadKeepsAgreement(was, entries, before, Loaded(ecg, he[..loaded]));
    }

    /** htxd_get_device_position_in_shm_HE. */
    static method DevicePositionInShm(he: seq<string>, name: string) returns (pos: int)
      ensures FirstAt(he, name, pos)
    {
      for i := 0 to |he|
        invariant name !in he[..i]
      {
        if he[i] == name {
          return i;
        }
      }
      assert he[..|he|] == he;
      pos := -1;
    }
  }
}
