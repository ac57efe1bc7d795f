/** The pieces of C text handling the programs share: strtok, decimal printing and atoi. */
module CText {

  datatype Token = NoToken | Token(text: string, rest: string)

  predicate Free(s: string, delims: set<char>) {
    forall i :: 0 <= i < |s| ==> s[i] !in delims
  }

  function SkipDelims(s: string, delims: set<char>): (r: string)
    ensures |r| <= |s|
    ensures r != "" ==> r[0] !in delims
  {
    if s != "" && s[0] in delims then SkipDelims(s[1..], delims) else s
  }

  /** Length of the part of s before its first delimiter. */
  function Span(s: string, delims: set<char>): (n: nat)
    ensures n <= |s| && Free(s[..n], delims)
    ensures n < |s| ==> s[n] in delims
  {
    if s == "" || s[0] in delims then 0 else
    var n := 1 + Span(s[1..], delims);
    assert s[..n] == [s[0]] + s[1..][..n - 1];
    n
  }

  /** One call of strtok on the unread part s: leading delimiters are skipped, and the delimiter
      that ends the token is consumed. */
  function StrTok(s: string, delims: set<char>): (t: Token)
    ensures t.Token? ==> t.text != "" && Free(t.text, delims) && |t.rest| < |s|
  {
    var r := SkipDelims(s, delims);
    if r == "" then NoToken else
    var n := Span(r, delims);
    Token(r[..n], if n < |r| then r[n + 1..] else "")
  }

  /** The tokens that repeated strtok calls deliver. */
  function Tokens(s: string, delims: set<char>): (ts: seq<string>)
    ensures forall t :: t in ts ==> t != "" && Free(t, delims)
    decreases |s|
  {
    var t := StrTok(s, delims);
    if t.NoToken? then [] else [t.text] + Tokens(t.rest, delims)
  }

  /** The usual loop of strtok calls. */
  method Split(s: string, delims: set<char>) returns (ts: seq<string>)
    ensures ts == Tokens(s, delims)
  {
    ts := [];
    var t := StrTok(s, delims);
    while t.Token?
      invariant Tokens(s, delims) == ts + if t.Token? then [t.text] + Tokens(t.rest, delims) else []
      decreases if t.Token? then |t.rest| + 1 else 0
    {
      ts := ts + [t.text];
      t := StrTok(t.rest, delims);
    }
  }

  /** A fixed number of strtok calls, giving up at the first that finds nothing. */
  method SplitN(s: string, delims: set<char>, n: nat) returns (ok: bool, ts: seq<string>)
    ensures ok <==> |Tokens(s, delims)| >= n
    ensures ok ==> ts == Tokens(s, delims)[..n]
  {
    ts := [];
    ghost var all := Tokens(s, delims);
    var rest := s;
    for j := 0 to n
      invariant j <= |all| && ts == all[..j] && all[j..] == Tokens(rest, delims)
    {
      var t := StrTok(rest, delims);
      TokensUnfold(rest, delims);
      if t.NoToken? {
        return false, ts;
      }
      assert all[j] == all[j..][0] && all[j + 1..] == all[j..][1..];
      ts, rest := ts + [t.text], t.rest;
    }
    ok := true;
  }

  lemma TokensUnfold(s: string, delims: set<char>)
    ensures var t := StrTok(s, delims);
      Tokens(s, delims) == if t.NoToken? then [] else [t.text] + Tokens(t.rest, delims)
  {
  }

  lemma {:induction false} SpanOfToken(t: string, rest: string, delims: set<char>)
    requires Free(t, delims)
    requires rest == "" || rest[0] in delims
    ensures Span(t + rest, delims) == |t|
  {
    if t == "" {
      assert t + rest == rest;
    } else {
      assert (t + rest)[1..] == t[1..] + rest;
      SpanOfToken(t[1..], rest, delims);
    }
  }

  /** A token followed by a delimiter, or by the end of the text. */
  lemma StrTokOfToken(t: string, rest: string, delims: set<char>)
    requires t != "" && Free(t, delims)
    requires rest == "" || rest[0] in delims
    ensures StrTok(t + rest, delims) == Token(t, if rest == "" then "" else rest[1..])
  {
    SpanOfToken(t, rest, delims);
    assert (t + rest)[0] == t[0];
    assert (t + rest)[..|t|] == t;
    if rest != "" {
      assert (t + rest)[|t| + 1..] == rest[1..];
    }
  }

  predicate Only(s: string, chars: set<char>) {
    forall i :: 0 <= i < |s| ==> s[i] in chars
  }

  /** All delimiters at the front are skipped, and nothing else is. */
  lemma {:induction false} SkipDelimsOfConcat(pre: string, rest: string, delims: set<char>)
    requires Only(pre, delims) && (rest == "" || rest[0] !in delims)
    ensures SkipDelims(pre + rest, delims) == rest
    ensures StrTok(pre + rest, delims) == StrTok(rest, delims)
  {
    if pre == "" {
      assert pre + rest == rest;
    } else {
      assert (pre + rest)[1..] == pre[1..] + rest;
      SkipDelimsOfConcat(pre[1..], rest, delims);
    }
  }

  lemma StrTokSkips(c: char, s: string, delims: set<char>)
    requires c in delims
    ensures StrTok([c] + s, delims) == StrTok(s, delims)
    ensures Tokens([c] + s, delims) == Tokens(s, delims)
  {
    assert ([c] + s)[1..] == s;
  }

  lemma TokensOfToken(t: string, rest: string, delims: set<char>)
    requires t != "" && Free(t, delims)
    requires rest == "" || rest[0] in delims
    ensures Tokens(t + rest, delims) == [t] + Tokens(rest, delims)
  {
    StrTokOfToken(t, rest, delims);
    if rest != "" {
      assert rest == [rest[0]] + rest[1..];
      StrTokSkips(rest[0], rest[1..], delims);
    }
  }

  /** Words with a separator after each. */
  function Join(ws: seq<string>, seps: string): (s: string)
    requires |seps| == |ws|
    decreases |ws|
  {
    if ws == [] then "" else ws[0] + [seps[0]] + Join(ws[1..], seps[1..])
  }

  lemma TokensCons(w: string, c: char, rest: string, delims: set<char>)
    requires w != "" && Free(w, delims) && c in delims
    ensures Tokens(w + [c] + rest, delims) == [w] + Tokens(rest, delims)
  {
    assert w + [c] + rest == w + ([c] + rest);
    TokensOfToken(w, [c] + rest, delims);
    StrTokSkips(c, rest, delims);
  }

  /** Splitting undoes joining. */
  lemma {:induction false} TokensOfJoin(ws: seq<string>, seps: string, delims: set<char>)
    requires |seps| == |ws| && forall i :: 0 <= i < |ws| ==> ws[i] != "" && Free(ws[i], delims) && seps[i] in delims
    ensures Tokens(Join(ws, seps), delims) == ws
    decreases |ws|
  {
    if ws != [] {
      var rest := Join(ws[1..], seps[1..]);
      TokensOfJoin(ws[1..], seps[1..], delims);
      TokensCons(ws[0], seps[0], rest, delims);
      assert ws == [ws[0]] + ws[1..];
    }
  }

  lemma {:induction false} JoinAppend(ws: seq<string>, seps: string, w: string, c: char)
    requires |seps| == |ws|
    ensures Join(ws + [w], seps + [c]) == Join(ws, seps) + w + [c]
    decreases |ws|
  {
    if ws == [] {
      assert (ws + [w])[1..] == [] && (seps + [c])[1..] == "";
    } else {
      assert (ws + [w])[1..] == ws[1..] + [w] && (seps + [c])[1..] == seps[1..] + [c];
      JoinAppend(ws[1..], seps[1..], w, c);
    }
  }

  lemma {:induction false} JoinIsFree(ws: seq<string>, seps: string, delims: set<char>)
    requires |seps| == |ws| && forall i :: 0 <= i < |ws| ==> Free(ws[i], delims) && seps[i] !in delims
    ensures Free(Join(ws, seps), delims)
    decreases |ws|
  {
    if ws != [] {
      JoinIsFree(ws[1..], seps[1..], delims);
    }
  }

  function Lower(c: char): (r: char) {
    if 'A' <= c <= 'Z' then (c as int + 32) as char else c
  }

  /** Equal but for case: the same character, or a letter and its capital. */
  lemma LowerMeaning(c: char, d: char)
    ensures Lower(c) == Lower(d) <==> c == d || IsCapitalOf(c, d) || IsCapitalOf(d, c)
  {
  }

  predicate IsCapitalOf(c: char, d: char) {
    'A' <= c <= 'Z' && d as int - 'a' as int == c as int - 'A' as int
  }

  /** strcasecmp. */
  predicate EqualIgnoringCase(a: string, b: string) {
    |a| == |b| && forall i :: 0 <= i < |a| ==> Lower(a[i]) == Lower(b[i])
  }

  // ---------- decimal numbers ----------

  predicate IsDigit(c: char) {
    '0' <= c <= '9'
  }

  predicate AllDigits(s: string) {
    forall i :: 0 <= i < |s| ==> IsDigit(s[i])
  }

  function Digit(c: char): (d: nat)
    requires IsDigit(c)
    ensures d < 10
  {
    c as int - '0' as int
  }

  function DigitChar(d: nat): (c: char)
    requires d < 10
    ensures IsDigit(c) && Digit(c) == d
  {
    ('0' as int + d) as char
  }

  /** The number a run of digits stands for. */
  function Number(s: string): (v: nat)
    requires AllDigits(s)
  {
    if s == "" then 0 else 10 * Number(s[..|s| - 1]) + Digit(s[|s| - 1])
  }

  /** `%d` of a natural number. */
  function Decimal(n: nat): (s: string)
    ensures s != "" && AllDigits(s)
  {
    if n < 10 then [DigitChar(n)] else Decimal(n / 10) + [DigitChar(n % 10)]
  }

  lemma {:induction false} NumberOfDecimal(n: nat)
    ensures Number(Decimal(n)) == n
  {
    var s := Decimal(n);
    if n < 10 {
      assert s[..0] == "";
    } else {
      NumberOfDecimal(n / 10);
      assert s[..|s| - 1] == Decimal(n / 10);
    }
  }

  function Zeros(k: nat): (s: string)
    ensures |s| == k && AllDigits(s)
  {
    seq(k, i => '0')
  }

  lemma {:induction false} NumberOfPadded(k: nat, s: string)
    requires AllDigits(s)
    ensures AllDigits(Zeros(k) + s) && Number(Zeros(k) + s) == Number(s)
  {
    var t := Zeros(k) + s;
    if s != "" {
      assert t[..|t| - 1] == Zeros(k) + s[..|s| - 1];
      NumberOfPadded(k, s[..|s| - 1]);
    } else if k > 0 {
      assert t[..|t| - 1] == Zeros(k - 1) + "";
      NumberOfPadded(k - 1, "");
    }
  }

  const BLANKS: set<char> := {' ', '\t', '\n', '\r', '\U{0B}', '\U{0C}'}

  function DigitSpan(s: string): (n: nat)
    ensures n <= |s| && AllDigits(s[..n])
    ensures n < |s| ==> !IsDigit(s[n])
  {
    if s == "" || !IsDigit(s[0]) then 0 else
    var n := 1 + DigitSpan(s[1..]);
    assert s[..n] == [s[0]] + s[1..][..n - 1];
    n
  }

  /** atoi: blanks, an optional sign, then digits up to the first other character. */
  function Atoi(s: string): (v: int) {
    var t := SkipDelims(s, BLANKS);
    if t != "" && t[0] == '-' then -(Number(t[1..][..DigitSpan(t[1..])]) as int)
    else
      var u := if t != "" && t[0] == '+' then t[1..] else t;
      Number(u[..DigitSpan(u)])
  }

  lemma {:induction false} DigitSpanOfDigits(s: string)
    requires AllDigits(s)
    ensures DigitSpan(s) == |s|
  {
    if s != "" {
      DigitSpanOfDigits(s[1..]);
    }
  }

  lemma AtoiOfDigits(s: string)
    requires AllDigits(s)
    ensures Atoi(s) == Number(s)
  {
    assert SkipDelims(s, BLANKS) == s;
    DigitSpanOfDigits(s);
    assert s[..|s|] == s;
  }

  lemma AtoiOfNegative(s: string)
    requires AllDigits(s)
    ensures Atoi("-" + s) == -(Number(s) as int)
  {
    var t := "-" + s;
    assert t[0] == '-';
    assert SkipDelims(t, BLANKS) == t;
    assert t[1..] == s;
    DigitSpanOfDigits(s);
    assert s[..|s|] == s;
  }

  lemma {:induction false} DigitSpanOfConcat(s: string, rest: string)
    requires AllDigits(s) && (rest == "" || !IsDigit(rest[0]))
    ensures DigitSpan(s + rest) == |s| && (s + rest)[..|s|] == s
  {
    if s == "" {
      assert s + rest == rest;
    } else {
      assert (s + rest)[1..] == s[1..] + rest;
      DigitSpanOfConcat(s[1..], rest);
    }
  }

  /** Leading blanks and everything from the first other character on do not count. */
  lemma AtoiOfUnsigned(pre: string, s: string, rest: string)
    requires Only(pre, BLANKS) && s != "" && AllDigits(s) && (rest == "" || !IsDigit(rest[0]))
    ensures Atoi(pre + (s + rest)) == Number(s)
  {
    DigitSpanOfConcat(s, rest);
    assert (s + rest)[0] == s[0] && IsDigit(s[0]);
    SkipDelimsOfConcat(pre, s + rest, BLANKS);
  }

  /** Nor does a plus sign; a minus sign does, and a sign without digits is 0. */
  lemma AtoiOfSigned(pre: string, sign: char, s: string, rest: string)
    requires Only(pre, BLANKS) && (sign == '+' || sign == '-')
    requires AllDigits(s) && (rest == "" || !IsDigit(rest[0]))
    ensures Atoi(pre + ([sign] + (s + rest))) == if sign == '-' then -(Number(s) as int) else Number(s)
  {
    DigitSpanOfConcat(s, rest);
    AtoiOfSign(pre, sign, s + rest);
  }

  lemma AtoiOfSign(pre: string, sign: char, u: string)
    requires Only(pre, BLANKS) && (sign == '+' || sign == '-')
    ensures var n := Number(u[..DigitSpan(u)]); Atoi(pre + ([sign] + u)) == if sign == '-' then -(n as int) else n
  {
    SkipDelimsOfConcat(pre, [sign] + u, BLANKS);
    assert ([sign] + u)[1..] == u;
  }

  /** `%d` of any integer. */
  function PrintInt(n: int): (s: string)
    ensures s != ""
  {
    if n < 0 then "-" + Decimal(-n) else Decimal(n)
  }

  lemma AtoiOfPrintInt(n: int)
    ensures Atoi(PrintInt(n)) == n
  {
    var m := if n < 0 then -n else n;
    AtoiOfDigits(Decimal(m));
    AtoiOfNegative(Decimal(m));
    NumberOfDecimal(m);
  }
}
