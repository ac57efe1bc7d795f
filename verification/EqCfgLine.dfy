/** Device lines of an equaliser configuration file, as create_eq_cfg prints them and
    create_eq_mdt reads them:  resource  name[rule:delay:runtime:utilisation],...  */
module EqCfgLine {
  import opened CText

  datatype Device = Device(name: string, rule: string, delay: int, runtime: int, utilization: string)

  /** One entry of a line; "sleep" occupies a place and defines nothing. */
  datatype Entry = Use(dev: Device) | Sleep

  datatype Line = Skipped | Entries(resource: string, entries: seq<Entry>) | Improper

  const LINE_DELIMS: set<char> := {' ', '\t'}
  const DEV_DELIMS: set<char> := {' ', ',', '\t', '\n'}
  const FIELD_DELIMS: set<char> := {':', ']'}
  const KEYWORDS: set<string> :=
    {"time_quantum", "startup_time_delay", "log_duration", "offline_cpu", "pattern_length"}

  // ---------- printing ----------

  function Fields(d: Device): (fs: seq<string>) {
    [d.rule, PrintInt(d.delay), PrintInt(d.runtime), d.utilization]
  }

  function PrintFields(d: Device): (s: string) {
    Join(Fields(d), ":::]")
  }

  function PrintDevice(d: Device): (s: string) {
    d.name + "[" + PrintFields(d)
  }

  function Printed(ds: seq<Device>): (ts: seq<string>)
    ensures |ts| == |ds|
  {
    seq(|ds|, i requires 0 <= i < |ds| => PrintDevice(ds[i]))
  }

  /** A comma after each entry but the last, which ends the line. */
  function Commas(n: nat): (seps: string)
    ensures |seps| == n
  {
    seq(n, i => if i + 1 == n then '\n' else ',')
  }

  function PrintDevices(ds: seq<Device>): (s: string) {
    Join(Printed(ds), Commas(|ds|))
  }

  function PrintLine(resource: string, ds: seq<Device>): (s: string) {
    "\t" + resource + "\t\t" + PrintDevices(ds)
  }

  /** The text of a line with one device. */
  lemma LineForm(resource: string, d: Device)
    ensures PrintLine(resource, [d]) == "\t" + resource + "\t\t" + (PrintDevice(d) + "\n")
    ensures PrintDevice(d)
         == d.name + "[" + (d.rule + ":" + PrintInt(d.delay) + ":" + PrintInt(d.runtime) + ":" + d.utilization + "]")
  {
    FieldsForm(d.rule, PrintInt(d.delay), PrintInt(d.runtime), d.utilization);
    var text := PrintDevice(d);
    assert Printed([d]) == [text] && Commas(1) == "\n";
    assert Join([text], "\n") == text + "\n" + Join([], "");
  }

  lemma FieldsForm(a: string, b: string, c: string, d: string)
    ensures Join([a, b, c, d], ":::]") == a + ":" + b + ":" + c + ":" + d + "]"
  {
    assert [a, b, c, d][1..] == [b, c, d] && [b, c, d][1..] == [c, d] && [c, d][1..] == [d] && [d][1..] == [];
    assert ":::]"[1..] == "::]" && "::]"[1..] == ":]" && ":]"[1..] == "]";
    assert Join([d], "]") == d + "]";
    assert Join([c, d], ":]") == c + ":" + d + "]";
    assert Join([b, c, d], "::]") == b + ":" + c + ":" + d + "]";
  }

  // ---------- reading ----------

  /** sscanf("%s"): the first blank-delimited word. */
  function FirstWord(s: string): (w: string) {
    var t := StrTok(s, BLANKS);
    if t.Token? then t.text else ""
  }

  /** The fields between the brackets, by strtok with ":]". */
  function ReadFields(name: string, fields: seq<string>): (r: Line)
    ensures r.Entries? ==> |r.entries| == 1
  {
    if |fields| < 4 then Improper
    else Entries("", [Use(Device(FirstWord(name), FirstWord(fields[0]), Atoi(fields[1]), Atoi(fields[2]),
                                 FirstWord(fields[3])))])
  }

  function ReadEntry(token: string): (r: Line)
    ensures r.Entries? ==> |r.entries| == 1
  {
    if EqualIgnoringCase(token, "sleep") then Entries("", [Sleep]) else
    var name := StrTok(token, {'['});
    if name.NoToken? then Improper else ReadFields(name.text, Tokens(name.rest, FIELD_DELIMS))
  }

  /** All entries of a line, or Improper as soon as one cannot be read. */
  function Gather(resource: string, ls: seq<Line>): (r: Line) {
    if ls == [] then Entries(resource, []) else
    var before, last := Gather(resource, ls[..|ls| - 1]), ls[|ls| - 1];
    if before.Entries? && last.Entries? then Entries(resource, before.entries + last.entries) else Improper
  }

  function ReadEach(tokens: seq<string>): (ls: seq<Line>)
    ensures |ls| == |tokens|
  {
    seq(|tokens|, i requires 0 <= i < |tokens| => ReadEntry(tokens[i]))
  }

  /** parse_line: 0 for a comment, 1 for a blank line, 2 for anything else. */
  function Classify(line: string): (c: nat) {
    var r := SkipDelims(line, LINE_DELIMS);
    if r != "" && r[0] == '#' then 0 else if r != "" && r[0] == '\n' then 1 else 2
  }

  function ReadLine(line: string): (r: Line) {
    if Classify(line) != 2 || FirstWord(line) in KEYWORDS then Skipped else
    var resource := StrTok(line, LINE_DELIMS);
    if resource.NoToken? then Skipped
    else Gather(FirstWord(resource.text), ReadEach(Tokens(resource.rest, DEV_DELIMS)))
  }

  /** The body of the device loop for one token. */
  method ReadDevice(token: string) returns (r: Line)
    ensures r == ReadEntry(token)
  {
    if EqualIgnoringCase(token, "sleep") {
      return Entries("", [Sleep]);
    }
    var name := StrTok(token, {'['});
    if name.NoToken? {
      return Improper;
    }
    var ok, fields := SplitN(name.rest, FIELD_DELIMS, 4);
    if !ok {
      return Improper;
    }
    r := Entries("", [Use(Device(FirstWord(name.text), FirstWord(fields[0]), Atoi(fields[1]), Atoi(fields[2]),
                                 FirstWord(fields[3])))]);
  }

  /** The device loop of create_eq_mdt's main. */
  method ReadDeviceLine(line: string) returns (r: Line)
    ensures r == ReadLine(line)
  {
    if Classify(line) != 2 || FirstWord(line) in KEYWORDS {
      return Skipped;
    }
    var first := StrTok(line, LINE_DELIMS);
    if first.NoToken? {
      return Skipped;
    }
    var resource := FirstWord(first.text);
    var tokens := Split(first.rest, DEV_DELIMS);
    r := ReadDevices(resource, tokens);
  }

  method ReadDevices(resource: string, tokens: seq<string>) returns (r: Line)
    ensures r == Gather(resource, ReadEach(tokens))
  {
    ghost var ls := ReadEach(tokens);
    var entries := [];
    for i := 0 to |tokens|
      invariant Gather(resource, ls[..i]) == Entries(resource, entries)
    {
      GatherOneMore(resource, ls, i);
      var d := ReadDevice(tokens[i]);
      if !d.Entries? {
        ImproperForGood(resource, ls, i + 1);
        return Improper;
      }
      entries := entries + d.entries;
    }
    assert ls[..|tokens|] == ls;
    r := Entries(resource, entries);
  }

  lemma GatherOneMore(resource: string, ls: seq<Line>, i: nat)
    requires i < |ls|
    ensures var before := Gather(resource, ls[..i]);
      Gather(resource, ls[..i + 1])
        == if before.Entries? && ls[i].Entries? then Entries(resource, before.entries + ls[i].entries) else Improper
  {
    assert ls[..i + 1][..i] == ls[..i];
  }

  lemma {:induction false} ImproperForGood(resource: string, ls: seq<Line>, i: nat)
    requires i <= |ls| && Gather(resource, ls[..i]).Improper?
    ensures Gather(resource, ls).Improper?
    decreases |ls|
  {
    if i < |ls| {
      assert ls[..|ls| - 1][..i] == ls[..i];
      ImproperForGood(resource, ls[..|ls| - 1], i);
    } else {
      assert ls[..i] == ls;
    }
  }

  // ---------- round trip ----------

  predicate Word(s: string, delims: set<char>) {
    s != "" && Free(s, BLANKS) && Free(s, delims)
  }

  /** Names that can be written in this format. */
  predicate Writable(d: Device) {
    && Word(d.name, {',', '['})
    && Word(d.rule, {',', ':', ']'})
    && Word(d.utilization, {',', ':', ']'})
  }

  predicate WritableResource(s: string) {
    Word(s, {}) && s[0] != '#' && s !in KEYWORDS
  }

  lemma FirstWordOfWord(s: string)
    requires s != "" && Free(s, BLANKS)
    ensures FirstWord(s) == s
  {
    assert s + "" == s;
    StrTokOfToken(s, "", BLANKS);
  }

  lemma PrintIntIsFree(n: int, delims: set<char>)
    requires forall c :: c in delims ==> !IsDigit(c) && c != '-'
    ensures Free(PrintInt(n), delims)
  {
  }

  lemma FieldsRoundTrip(d: Device)
    requires Writable(d)
    ensures Tokens(PrintFields(d), FIELD_DELIMS) == Fields(d)
  {
    PrintIntIsFree(d.delay, FIELD_DELIMS);
    PrintIntIsFree(d.runtime, FIELD_DELIMS);
    assert Free(d.rule, FIELD_DELIMS) && Free(d.utilization, FIELD_DELIMS);
    TokensOfJoin(Fields(d), ":::]", FIELD_DELIMS);
  }

  lemma BracketedEntry(name: string, text: string)
    requires Word(name, {'['})
    ensures ReadEntry(name + "[" + text) == ReadFields(name, Tokens(text, FIELD_DELIMS))
  {
    var s := name + "[" + text;
    assert s[|name|] == '[';
    assert !EqualIgnoringCase(s, "sleep");
    assert s == name + ("[" + text);
    StrTokOfToken(name, "[" + text, {'['});
    assert ("[" + text)[1..] == text;
  }

  lemma EntryRoundTrip(d: Device)
    requires Writable(d)
    ensures ReadEntry(PrintDevice(d)) == Entries("", [Use(d)])
  {
    BracketedEntry(d.name, PrintFields(d));
    FieldsRoundTrip(d);
    FirstWordOfWord(d.name);
    FirstWordOfWord(d.rule);
    FirstWordOfWord(d.utilization);
    AtoiOfPrintInt(d.delay);
    AtoiOfPrintInt(d.runtime);
  }

  lemma PrintedDeviceIsToken(d: Device)
    requires Writable(d)
    ensures PrintDevice(d) != "" && Free(PrintDevice(d), DEV_DELIMS)
  {
    PrintIntIsFree(d.delay, DEV_DELIMS);
    PrintIntIsFree(d.runtime, DEV_DELIMS);
    assert Free(d.name, DEV_DELIMS) && Free(d.rule, DEV_DELIMS) && Free(d.utilization, DEV_DELIMS);
    JoinIsFree(Fields(d), ":::]", DEV_DELIMS);
  }

  function Uses(ds: seq<Device>): (es: seq<Entry>)
    ensures |es| == |ds|
  {
    seq(|ds|, i requires 0 <= i < |ds| => Use(ds[i]))
  }

  predicate WritableEntry(e: Entry) {
    e.Use? ==> Writable(e.dev)
  }

  function EntryText(e: Entry): (s: string) {
    match e
    case Use(d) => PrintDevice(d)
    case Sleep => "sleep"
  }

  function EntryTexts(es: seq<Entry>): (ts: seq<string>)
    ensures |ts| == |es|
  {
    seq(|es|, i requires 0 <= i < |es| => EntryText(es[i]))
  }

  lemma EntryTextRoundTrip(e: Entry)
    requires WritableEntry(e)
    ensures EntryText(e) != "" && Free(EntryText(e), DEV_DELIMS)
    ensures ReadEntry(EntryText(e)) == Entries("", [e])
  {
    if e.Use? {
      PrintedDeviceIsToken(e.dev);
      EntryRoundTrip(e.dev);
    }
  }

  lemma {:induction false} GatherEntries(resource: string, ls: seq<Line>, es: seq<Entry>)
    requires |ls| == |es| && forall i :: 0 <= i < |es| ==> ls[i] == Entries("", [es[i]])
    ensures Gather(resource, ls) == Entries(resource, es)
    decreases |es|
  {
    if es != [] {
      var n := |es| - 1;
      GatherEntries(resource, ls[..n], es[..n]);
      assert es == es[..n] + [es[n]];
    }
  }

  lemma EntriesRoundTrip(resource: string, es: seq<Entry>)
    requires forall i :: 0 <= i < |es| ==> WritableEntry(es[i])
    ensures Tokens(Join(EntryTexts(es), Commas(|es|)), DEV_DELIMS) == EntryTexts(es)
    ensures Gather(resource, ReadEach(EntryTexts(es))) == Entries(resource, es)
  {
    var ts := EntryTexts(es);
    forall i | 0 <= i < |es|
      ensures ts[i] != "" && Free(ts[i], DEV_DELIMS) && ReadEach(ts)[i] == Entries("", [es[i]])
    {
      EntryTextRoundTrip(es[i]);
    }
    TokensOfJoin(ts, Commas(|es|), DEV_DELIMS);
    GatherEntries(resource, ReadEach(ts), es);
  }

  lemma ResourceRoundTrip(resource: string, rest: string)
    requires WritableResource(resource)
    ensures var line := "\t" + resource + "\t" + rest;
      && Classify(line) == 2 && FirstWord(line) == resource
      && StrTok(line, LINE_DELIMS) == Token(resource, rest)
  {
    var line := "\t" + resource + "\t" + rest;
    var body := resource + ("\t" + rest);
    assert line == "\t" + body;
    StrTokSkips('\t', body, LINE_DELIMS);
    StrTokSkips('\t', body, BLANKS);
    StrTokOfToken(resource, "\t" + rest, LINE_DELIMS);
    StrTokOfToken(resource, "\t" + rest, BLANKS);
    assert ("\t" + rest)[1..] == rest;
    assert line[1..] == body && body[0] == resource[0];
    assert resource[0] !in BLANKS;
    assert SkipDelims(line, LINE_DELIMS) == body;
  }

  /** Devices and sleep entries in any order are read back entry by entry. */
  lemma EntriesLine(resource: string, es: seq<Entry>)
    requires WritableResource(resource)
    requires forall i :: 0 <= i < |es| ==> WritableEntry(es[i])
    ensures ReadLine("\t" + resource + "\t\t" + Join(EntryTexts(es), Commas(|es|))) == Entries(resource, es)
  {
    EntriesOfLine(resource, Join(EntryTexts(es), Commas(|es|)));
    EntriesRoundTrip(resource, es);
  }

  lemma EntriesOfLine(resource: string, text: string)
    requires WritableResource(resource)
    ensures ReadLine("\t" + resource + "\t\t" + text) == Gather(resource, ReadEach(Tokens(text, DEV_DELIMS)))
  {
    var rest := "\t" + text;
    assert "\t" + resource + "\t\t" + text == "\t" + resource + "\t" + rest;
    ResourceRoundTrip(resource, rest);
    FirstWordOfWord(resource);
    DeviceLine("\t" + resource + "\t" + rest, resource, rest);
    StrTokSkips('\t', text, DEV_DELIMS);
  }

  lemma DeviceLine(line: string, resource: string, rest: string)
    requires Classify(line) == 2 && FirstWord(line) == FirstWord(resource) == resource && resource !in KEYWORDS
    requires StrTok(line, LINE_DELIMS) == Token(resource, rest)
    ensures ReadLine(line) == Gather(resource, ReadEach(Tokens(rest, DEV_DELIMS)))
  {
  }

  /** Any line that can be written is read back entry by entry: resource, device names, rule
      files, delays, run times and utilisation strings. */
  lemma LineRoundTrip(resource: string, ds: seq<Device>)
    requires WritableResource(resource)
    requires forall i :: 0 <= i < |ds| ==> Writable(ds[i])
    ensures ReadLine(PrintLine(resource, ds)) == Entries(resource, Uses(ds))
  {
    EntriesLine(resource, Uses(ds));
    assert EntryTexts(Uses(ds)) == Printed(ds);
  }

  /** Capitals do not matter to sleep. */
  lemma SleepInCapitals(token: string)
    requires |token| == 5 && forall i :: 0 <= i < 5 ==> token[i] == "sleep"[i] || IsCapitalOf(token[i], "sleep"[i])
    ensures ReadEntry(token) == Entries("", [Sleep])
  {
    forall i | 0 <= i < 5 ensures Lower(token[i]) == Lower("sleep"[i]) {
      LowerMeaning(token[i], "sleep"[i]);
    }
    assert EqualIgnoringCase(token, "sleep");
  }

  /** One field too few makes the whole line improper. */
  lemma ShortEntry(name: string, fields: seq<string>)
    requires Word(name, {'['}) && |fields| < 4
    requires forall i :: 0 <= i < |fields| ==> Word(fields[i], FIELD_DELIMS)
    ensures ReadEntry(name + "[" + Join(fields, Colons(|fields|))) == Improper
  {
    BracketedEntry(name, Join(fields, Colons(|fields|)));
    TokensOfJoin(fields, Colons(|fields|), FIELD_DELIMS);
  }

  /** One entry that cannot be read makes the line improper, wherever it stands. */
  lemma ImproperLine(resource: string, ts: seq<string>, i: nat)
    requires WritableResource(resource) && i < |ts| && ReadEntry(ts[i]) == Improper
    requires forall k :: 0 <= k < |ts| ==> ts[k] != "" && Free(ts[k], DEV_DELIMS)
    ensures ReadLine("\t" + resource + "\t\t" + Join(ts, Commas(|ts|))) == Improper
  {
    EntriesOfLine(resource, Join(ts, Commas(|ts|)));
    TokensOfJoin(ts, Commas(|ts|), DEV_DELIMS);
    ImproperEntry(resource, ReadEach(ts), i);
  }

  lemma ImproperEntry(resource: string, ls: seq<Line>, i: nat)
    requires i < |ls| && ls[i] == Improper
    ensures Gather(resource, ls) == Improper
  {
    GatherOneMore(resource, ls, i);
    ImproperForGood(resource, ls, i + 1);
  }

  function Colons(n: nat): (seps: string)
    ensures |seps| == n && forall i :: 0 <= i < n ==> seps[i] in FIELD_DELIMS
  {
    seq(n, i => if i + 1 == n then ']' else ':')
  }

  /** Comments, blank lines and lines without a word are skipped, whatever blanks are in front. */
  lemma SkippedLines(pre: string, text: string)
    requires Only(pre, LINE_DELIMS)
    ensures ReadLine(pre + ("#" + text)) == Skipped && ReadLine(pre + ("\n" + text)) == Skipped
    ensures ReadLine(pre) == Skipped
  {
    SkipDelimsOfConcat(pre, "#" + text, LINE_DELIMS);
    SkipDelimsOfConcat(pre, "\n" + text, LINE_DELIMS);
    assert pre + "" == pre;
    SkipDelimsOfConcat(pre, "", LINE_DELIMS);
  }

  /** So are the settings. */
  lemma KeywordLines(pre: string, word: string, c: char, text: string)
    requires Only(pre, LINE_DELIMS) && word in KEYWORDS && c in BLANKS
    ensures ReadLine(pre + (word + ([c] + text))) == Skipped
  {
    FirstWordInLine(pre, word, c, text);
  }

  lemma FirstWordInLine(pre: string, word: string, c: char, text: string)
    requires Only(pre, LINE_DELIMS) && word != "" && Free(word, BLANKS) && c in BLANKS
    ensures FirstWord(pre + (word + ([c] + text))) == word
  {
    var line := word + ([c] + text);
    assert line[0] == word[0];
    SkipDelimsOfConcat(pre, line, BLANKS);
    StrTokOfToken(word, [c] + text, BLANKS);
  }
}
