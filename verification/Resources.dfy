/** Names of hardware threads in a configuration file, N<node>P<chip>C<core>T<thread>, where the
    thread may be a range in brackets. */
module Resources {
  import opened CText
  import opened EqCfgLine

  const LEVELS: set<char> := {'N', 'P', 'C', 'T'}
  const LIST_DELIMS: set<char> := {'[', ']', ','}

  function Resource(node: string, chip: string, core: string, thread: string): (s: string) {
    "N" + (node + "P" + (chip + "C" + (core + "T" + thread)))
  }

  /** The thread field for n threads from `lo` on. */
  function ThreadField(lo: nat, n: nat): (s: string)
    requires n > 0
    ensures s != ""
  {
    if n == 1 then Decimal(lo) else "[" + (Decimal(lo) + "-" + Decimal(lo + n - 1) + "]")
  }

  /** The numbers from lo to hi. */
  function Range(lo: int, hi: int): (ks: seq<int>)
    ensures |ks| == if lo <= hi then hi - lo + 1 else 0
    ensures forall i :: 0 <= i < |ks| ==> ks[i] == lo + i
  {
    if lo <= hi then seq(hi - lo + 1, i => lo + i) else []
  }

  /** parse_filter: the threads of one element of a list, a range or a number. */
  function Element(element: string): (ks: seq<int>) {
    if '-' in element then
      var ts := Tokens(element, {'-'});
      if |ts| >= 2 then Range(Atoi(ts[0]), Atoi(ts[1])) else []
    else
      [Atoi(element)]
  }

  function Elements(elements: seq<string>): (ks: seq<int>) {
    if elements == [] then [] else Elements(elements[..|elements| - 1]) + Element(elements[|elements| - 1])
  }

  /** All threads that a field names. */
  function Listed(field: string): (ks: seq<int>) {
    if '[' in field then Elements(Tokens(field, LIST_DELIMS)) else [Atoi(field)]
  }

  predicate FieldHas(field: string, k: nat) {
    k in Listed(field)
  }

  /** The resource names thread k of its cores. */
  predicate HasThread(resource: string, k: nat) {
    var ts := Tokens(resource, LEVELS);
    |ts| == 4 && FieldHas(ts[3], k)
  }

  // ---------- reading back ----------

  lemma AtoiOfDecimal(n: nat)
    ensures Atoi(Decimal(n)) == n
  {
    AtoiOfDigits(Decimal(n));
    NumberOfDecimal(n);
  }

  lemma ElementRoundTrip(lo: nat, hi: nat)
    ensures Element(Decimal(lo) + "-" + Decimal(hi)) == Range(lo, hi)
  {
    var element := Decimal(lo) + "-" + Decimal(hi);
    assert element[|Decimal(lo)|] == '-';
    assert Decimal(hi) + "" == Decimal(hi);
    TokensOfToken(Decimal(hi), "", {'-'});
    TokensCons(Decimal(lo), '-', Decimal(hi), {'-'});
    AtoiOfDecimal(lo);
    AtoiOfDecimal(hi);
  }

  lemma TokensOfList(element: string)
    requires element != "" && Free(element, LIST_DELIMS)
    ensures Tokens("[" + (element + "]"), LIST_DELIMS) == [element]
  {
    StrTokSkips('[', element + "]", LIST_DELIMS);
    TokensOfToken(element, "]", LIST_DELIMS);
    StrTokSkips(']', "", LIST_DELIMS);
    assert "]" == [']'] + "";
  }

  lemma ListOfOne(element: string)
    requires element != "" && Free(element, LIST_DELIMS)
    ensures Listed("[" + (element + "]")) == Element(element)
  {
    assert ("[" + (element + "]"))[0] == '[';
    TokensOfList(element);
    assert [element][..0] == [] && Elements([]) == [];
  }

  function ListSeps(n: nat): (seps: string)
    ensures |seps| == n && forall i :: 0 <= i < n ==> seps[i] in LIST_DELIMS
  {
    seq(n, i => if i + 1 == n then ']' else ',')
  }

  /** A list in brackets names the threads of all of its elements, and no others. */
  lemma ListOfMany(elements: seq<string>, k: int)
    requires forall i :: 0 <= i < |elements| ==> elements[i] != "" && Free(elements[i], LIST_DELIMS)
    ensures k in Listed("[" + Join(elements, ListSeps(|elements|))) <==> SomeElementHas(elements, k)
  {
    var text := Join(elements, ListSeps(|elements|));
    assert ("[" + text)[0] == '[';
    StrTokSkips('[', text, LIST_DELIMS);
    TokensOfJoin(elements, ListSeps(|elements|), LIST_DELIMS);
    ElementsMeaning(elements, k);
  }

  lemma {:induction false} ElementsMeaning(elements: seq<string>, k: int)
    ensures k in Elements(elements) <==> SomeElementHas(elements, k)
  {
    if elements != [] {
      ElementsMeaning(elements[..|elements| - 1], k);
      SomeElementOfLast(elements, k);
    }
  }

  lemma SomeElementOfLast(elements: seq<string>, k: int)
    requires elements != []
    ensures var n := |elements| - 1;
      SomeElementHas(elements, k) <==> SomeElementHas(elements[..n], k) || ElementHas(elements[n], k)
  {
    var n := |elements| - 1;
    assert forall i :: 0 <= i < n ==> elements[..n][i] == elements[i];
  }

  predicate ElementHas(element: string, k: int) {
    k in Element(element)
  }

  ghost predicate SomeElementHas(elements: seq<string>, k: int) {
    exists i :: 0 <= i < |elements| && ElementHas(elements[i], k)
  }

  /** A range without its end names nothing. */
  lemma HalfRange(lo: nat)
    ensures Element(Decimal(lo) + "-") == []
  {
    var element := Decimal(lo) + "-";
    assert element[|Decimal(lo)|] == '-';
    assert Decimal(lo) + "-" == Decimal(lo) + ['-'] + "";
    TokensCons(Decimal(lo), '-', "", {'-'});
  }

  /** Without brackets a field names the one thread it begins with, a hyphen or not. */
  lemma FieldWithoutBrackets(n: nat, rest: string)
    requires '[' !in rest && (rest == "" || !IsDigit(rest[0]))
    ensures Listed(Decimal(n) + rest) == [n]
  {
    assert "" + (Decimal(n) + rest) == Decimal(n) + rest;
    AtoiOfUnsigned("", Decimal(n), rest);
    NumberOfDecimal(n);
  }

  /** A field names exactly the threads it was printed for, in order. */
  lemma ListedRoundTrip(lo: nat, n: nat)
    requires n > 0
    ensures Listed(ThreadField(lo, n)) == Range(lo, lo + n - 1)
  {
    if n == 1 {
      AtoiOfDecimal(lo);
    } else {
      var element := Decimal(lo) + "-" + Decimal(lo + n - 1);
      ListOfOne(element);
      ElementRoundTrip(lo, lo + n - 1);
    }
  }

  lemma FieldRoundTrip(lo: nat, n: nat, k: nat)
    requires n > 0
    ensures FieldHas(ThreadField(lo, n), k) <==> lo <= k < lo + n
  {
    ListedRoundTrip(lo, n);
    assert lo <= k < lo + n ==> Range(lo, lo + n - 1)[k - lo] == k;
  }

  /** One level before the others. */
  lemma LevelBefore(w: string, c: char, rest: string, ts: seq<string>)
    requires Name(w) && c in LEVELS && Tokens(rest, LEVELS) == ts
    ensures Tokens(w + [c] + rest, LEVELS) == [w] + ts
  {
    TokensCons(w, c, rest, LEVELS);
  }

  lemma LastLevel(w: string)
    requires Name(w)
    ensures Tokens(w, LEVELS) == [w]
  {
    assert w + "" == w;
    TokensOfToken(w, "", LEVELS);
  }

  lemma LevelsFromChip(chip: string, core: string, thread: string)
    requires Name(chip) && Name(core) && Name(thread)
    ensures Tokens(chip + "C" + (core + "T" + thread), LEVELS) == [chip, core, thread]
  {
    LastLevel(thread);
    LevelBefore(core, 'T', thread, [thread]);
    LevelBefore(chip, 'C', core + "T" + thread, [core, thread]);
  }

  lemma LevelsRoundTrip(node: string, chip: string, core: string, thread: string)
    requires Name(node) && Name(chip) && Name(core) && Name(thread)
    ensures Tokens(Resource(node, chip, core, thread), LEVELS) == [node, chip, core, thread]
  {
    LevelsFromChip(chip, core, thread);
    var p := chip + "C" + (core + "T" + thread);
    LevelBefore(node, 'P', p, [chip, core, thread]);
    StrTokSkips('N', node + "P" + p, LEVELS);
  }

  /** What may stand for one level of a resource. */
  predicate Name(s: string) {
    Word(s, LEVELS)
  }

  lemma DecimalIsName(n: nat)
    ensures Name(Decimal(n))
  {
  }

  lemma ThreadFieldIsName(lo: nat, n: nat)
    requires n > 0
    ensures Name(ThreadField(lo, n))
  {
  }

  lemma ResourceIsWritable(node: string, chip: string, core: string, thread: string)
    requires Name(node) && Name(chip) && Name(core) && Name(thread)
    ensures WritableResource(Resource(node, chip, core, thread))
  {
    var s := Resource(node, chip, core, thread);
    assert s[0] == 'N';
    forall k | k in KEYWORDS ensures k[0] != 'N' {
    }
  }

  lemma SingleDeviceRoundTrip(resource: string, d: Device)
    requires WritableResource(resource) && Writable(d)
    ensures ReadLine(PrintLine(resource, [d])) == Entries(resource, [Use(d)])
  {
    LineRoundTrip(resource, [d]);
    assert Uses([d]) == [Use(d)];
  }
}
