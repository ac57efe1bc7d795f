/** The utilisation string of a device: either `MODE%a_b_c_`, a schedule generated from a sequence
    of percentages, or a literal schedule of 0s and 1s. */
module Utilization {
  import opened Words
  import opened CText

  datatype Mode = UtilLeft | UtilRight | UtilRandom | UtilPattern

  /** What update_config_detail learns from a string.  A mode name it does not know leaves the
      mode of the exerciser as it was, hence the flag. */
  datatype Setting =
    | Generated(known: bool, mode: Mode, sequence: seq<nat>)
    | Literal(pattern: Uint32, length: nat)

  // ---------- MODE%a_b_c_ ----------

  function ModeName(m: Mode): (s: string)
    ensures s != "" && '%' !in s && '_' in s
  {
    match m
    case UtilLeft => assert "UTIL_LEFT"[4] == '_'; "UTIL_LEFT"
    case UtilRight => assert "UTIL_RIGHT"[4] == '_'; "UTIL_RIGHT"
    case UtilRandom => assert "UTIL_RANDOM"[4] == '_'; "UTIL_RANDOM"
    case UtilPattern => assert "UTIL_PATTERN"[4] == '_'; "UTIL_PATTERN"
  }

  /** One value, stored in a `uint16`. */
  function Percentage(t: string): (p: nat)
    ensures p < 0x1_0000
  {
    Atoi(t) % 0x1_0000
  }

  /** The values in the text after '%'. */
  function Percentages(ts: seq<string>): (ps: seq<nat>)
    ensures |ps| == |ts|
  {
    seq(|ts|, i requires 0 <= i < |ts| => Percentage(ts[i]))
  }

  function ReadMode(name: string, unread: string): (s: Setting)
    ensures s.Generated?
  {
    var ps := Percentages(Tokens(unread, {'_'}));
    if name == "UTIL_LEFT" then Generated(true, UtilLeft, ps)
    else if name == "UTIL_RIGHT" then Generated(true, UtilRight, ps)
    else if name == "UTIL_RANDOM" then Generated(true, UtilRandom, ps)
    else Generated(false, UtilLeft, ps)
  }

  /** update_config_detail's reading of a utilisation string. */
  function Read(text: string): (s: Setting) {
    if '%' in text then
      var t := StrTok(text, {'%'});
      if t.NoToken? then Generated(false, UtilLeft, []) else ReadMode(t.text, t.rest)
    else
      Literal(StrToUl(text)[..32], |text|)
  }

  /** What the token at hand and the text after it still give. */
  function Pending(t: Token): (ps: seq<nat>) {
    if t.NoToken? then [] else [Percentage(t.text)] + Percentages(Tokens(t.rest, {'_'}))
  }

  lemma PendingOfStrTok(s: string)
    ensures Pending(StrTok(s, {'_'})) == Percentages(Tokens(s, {'_'}))
  {
    TokensUnfold(s, {'_'});
    var t := StrTok(s, {'_'});
    if t.Token? {
      PercentagesOfFirst(t.text, Tokens(t.rest, {'_'}));
    }
  }

  lemma PercentagesOfFirst(t: string, ts: seq<string>)
    ensures Percentages([t] + ts) == [Percentage(t)] + Percentages(ts)
  {
  }

  /** The strtok loop of update_config_detail. */
  method ReadPercentages(unread: string) returns (ps: seq<nat>)
    ensures ps == Percentages(Tokens(unread, {'_'}))
  {
    ps := [];
    ghost var all := Percentages(Tokens(unread, {'_'}));
    PendingOfStrTok(unread);
    var t := StrTok(unread, {'_'});
    while t.Token?
      invariant all == ps + Pending(t)
      decreases if t.Token? then |t.rest| + 1 else 0
    {
      PendingOfStrTok(t.rest);
      ps := ps + [Percentage(t.text)];
      t := StrTok(t.rest, {'_'});
    }
  }

  /** How create_eq_cfg writes a sequence: every value followed by an underscore. */
  function WriteSequence(ps: seq<nat>): (s: string) {
    Join(Texts(ps), seq(|ps|, i => '_'))
  }

  function Texts(ps: seq<nat>): (ts: seq<string>)
    ensures |ts| == |ps|
  {
    seq(|ps|, i requires 0 <= i < |ps| => Decimal(ps[i]))
  }

  /** strcat of one more value. */
  lemma WriteSequenceAppend(ps: seq<nat>, p: nat)
    ensures WriteSequence(ps + [p]) == WriteSequence(ps) + Decimal(p) + "_"
  {
    assert Texts(ps + [p]) == Texts(ps) + [Decimal(p)];
    assert seq(|ps + [p]|, i => '_') == seq(|ps|, i => '_') + ['_'];
    JoinAppend(Texts(ps), seq(|ps|, i => '_'), Decimal(p), '_');
  }

  lemma DecimalIsFree(n: nat, delims: set<char>)
    requires forall c :: c in delims ==> !IsDigit(c)
    ensures Free(Decimal(n), delims)
  {
  }

  lemma TokensOfSequence(ps: seq<nat>)
    ensures Tokens(WriteSequence(ps), {'_'}) == Texts(ps)
  {
    forall i | 0 <= i < |ps| ensures Free(Texts(ps)[i], {'_'}) {
      DecimalIsFree(ps[i], {'_'});
    }
    TokensOfJoin(Texts(ps), seq(|ps|, i => '_'), {'_'});
  }

  /** A number written is stored modulo the size of a `uint16`. */
  lemma PercentageOfDecimal(p: nat)
    ensures Percentage(Decimal(p)) == p % 0x1_0000
  {
    AtoiOfDigits(Decimal(p));
    NumberOfDecimal(p);
  }

  /** Below zero it wraps around. */
  lemma PercentageOfNegative(p: nat)
    ensures Percentage("-" + Decimal(p)) == (-(p as int)) % 0x1_0000
  {
    AtoiOfNegative(Decimal(p));
    NumberOfDecimal(p);
  }

  /** What is left of a sequence in `uint16` cells. */
  function Stored(ps: seq<nat>): (r: seq<nat>)
    ensures |r| == |ps|
  {
    seq(|ps|, i requires 0 <= i < |ps| => ps[i] % 0x1_0000)
  }

  lemma StoredAsWritten(ps: seq<nat>)
    requires forall i :: 0 <= i < |ps| ==> ps[i] < 0x1_0000
    ensures Stored(ps) == ps
  {
  }

  lemma SmallPercentage(p: nat)
    requires p < 0x1_0000
    ensures Percentage(Decimal(p)) == p
  {
    PercentageOfDecimal(p);
  }

  lemma SequenceRoundTrip(ps: seq<nat>)
    ensures Percentages(Tokens(WriteSequence(ps), {'_'})) == Stored(ps)
  {
    TokensOfSequence(ps);
    forall i | 0 <= i < |ps| ensures Percentages(Texts(ps))[i] == Stored(ps)[i] {
      PercentageOfDecimal(ps[i]);
    }
  }

  lemma ReadsMode(m: Mode, after: string)
    requires m != UtilPattern
    ensures Read(ModeName(m) + "%" + after) == Generated(true, m, Percentages(Tokens(after, {'_'})))
  {
    ReadsName(ModeName(m), after);
  }

  lemma ReadsName(name: string, after: string)
    requires name != "" && '%' !in name
    ensures Read(name + "%" + after) == ReadMode(name, after)
  {
    var text := name + "%" + after;
    assert text[|name|] == '%' && text == name + ("%" + after);
    StrTokOfToken(name, "%" + after, {'%'});
    assert ("%" + after)[1..] == after;
  }

  /** What create_eq_cfg writes, the equaliser reads back: mode and whole sequence, each number as a
      `uint16` holds it. */
  lemma UtilizationStored(m: Mode, ps: seq<nat>)
    requires m != UtilPattern
    ensures Read(ModeName(m) + "%" + WriteSequence(ps)) == Generated(true, m, Stored(ps))
  {
    ReadsMode(m, WriteSequence(ps));
    SequenceRoundTrip(ps);
  }

  lemma UtilizationRoundTrip(m: Mode, ps: seq<nat>)
    requires m != UtilPattern
    requires forall i :: 0 <= i < |ps| ==> ps[i] < 0x1_0000
    ensures Read(ModeName(m) + "%" + WriteSequence(ps)) == Generated(true, m, ps)
  {
    UtilizationStored(m, ps);
    StoredAsWritten(ps);
  }

  /** A name that is none of the three modes leaves the mode open. */
  lemma UnknownMode(name: string, ps: seq<nat>)
    requires name != "" && '%' !in name && name !in {"UTIL_LEFT", "UTIL_RIGHT", "UTIL_RANDOM"}
    ensures var s := Read(name + "%" + WriteSequence(ps)); s.Generated? && !s.known && s.sequence == Stored(ps)
  {
    ReadsName(name, WriteSequence(ps));
    SequenceRoundTrip(ps);
  }

  /** The one-value form `MODE%p`, written without the underscore. */
  lemma SingleRoundTrip(m: Mode, p: nat)
    requires m != UtilPattern && p < 0x1_0000
    ensures Read(ModeName(m) + "%" + Decimal(p)) == Generated(true, m, [p])
  {
    ReadsMode(m, Decimal(p));
    DecimalIsFree(p, {'_'});
    TokensOfToken(Decimal(p), "", {'_'});
    assert Decimal(p) + "" == Decimal(p);
    SmallPercentage(p);
  }

  // ---------- literal schedules ----------

  predicate Binary(s: string) {
    forall i :: 0 <= i < |s| ==> s[i] == '0' || s[i] == '1'
  }

  /** 2 * acc + d. */
  function ShiftIn(acc: Uint64, d: bool): (r: Uint64) {
    Or(Shl(acc, 1), if d then One(64) else Zero(64))
  }

  /** strtoul in base 2 with a 64-bit `unsigned long`: digits up to the first other character,
      and ULONG_MAX once the number no longer fits. */
  function StrToUlFrom(acc: Uint64, s: string): (r: Uint64)
    decreases |s|
  {
    if s == "" || (s[0] != '0' && s[0] != '1') then acc
    else if acc[63] then Not(Zero(64))
    else StrToUlFrom(ShiftIn(acc, s[0] == '1'), s[1..])
  }

  function StrToUl(s: string): (r: Uint64) {
    StrToUlFrom(Zero(64), s)
  }

  /** The number written in binary by digits worth v followed by those of s. */
  function BinaryFrom(v: nat, s: string): (n: nat)
    ensures n >= v
    decreases |s|
  {
    if s == "" then v else BinaryFrom(2 * v + if s[0] == '1' then 1 else 0, s[1..])
  }

  /** The number, or the largest one that a word of this width holds. */
  function Saturated(v: nat, width: nat): (n: nat) {
    if v < PowerOfTwo(width) then v else PowerOfTwo(width) - 1
  }

  lemma ValueOfAnother(acc: Uint64, d: bool)
    ensures !acc[63] ==> Value(ShiftIn(acc, d)) == 2 * Value(acc) + if d then 1 else 0
    ensures acc[63] ==> 2 * Value(acc) >= PowerOfTwo(|acc|)
  {
    ValueOfShiftIn(acc, d);
    if acc[63] {
      ValueOfTopBit(acc);
    }
  }

  lemma {:induction false} StrToUlFromValue(acc: Uint64, s: string)
    requires Binary(s)
    ensures Value(StrToUlFrom(acc, s)) == Saturated(BinaryFrom(Value(acc), s), |acc|)
    decreases |s|
  {
    if s == "" {
      ValueIsBelow(acc);
    } else {
      ValueOfAnother(acc, s[0] == '1');
      if acc[63] {
        ValueOfOnes(|acc|);
      } else {
        StrToUlFromValue(ShiftIn(acc, s[0] == '1'), s[1..]);
      }
    }
  }

  /** strtoul returns the number written in binary, or the largest one that 64 bits hold if that is
      less, for any number of digits. */
  lemma StrToUlValue(s: string)
    requires Binary(s)
    ensures Value(StrToUl(s)) == Saturated(BinaryFrom(0, s), 64)
  {
    ValueOfZero(64);
    StrToUlFromValue(Zero(64), s);
  }

  /** Digits already read, then the digits of s. */
  lemma {:induction false} StrToUlFromBits(done: string, acc: Uint64, s: string)
    requires Binary(done + s) && |done| + |s| <= 64
    requires forall i :: 0 <= i < 64 ==> acc[i] == (i < |done| && done[|done| - 1 - i] == '1')
    ensures var whole := done + s; forall i :: 0 <= i < 64 ==>
      StrToUlFrom(acc, s)[i] == (i < |whole| && whole[|whole| - 1 - i] == '1')
    decreases |s|
  {
    var whole := done + s;
    if s == "" {
      assert whole == done;
    } else {
      assert s[0] == whole[|done|];
      var done' := done + [s[0]];
      assert done' + s[1..] == whole;
      StrToUlFromBits(done', ShiftIn(acc, s[0] == '1'), s[1..]);
    }
  }

  /** The number strtoul returns for up to 64 binary digits has those digits, last digit first. */
  lemma StrToUlBits(s: string)
    requires Binary(s) && |s| <= 64
    ensures forall i :: 0 <= i < 64 ==> StrToUl(s)[i] == (i < |s| && s[|s| - 1 - i] == '1')
  {
    assert "" + s == s;
    StrToUlFromBits("", Zero(64), s);
  }

  /** A literal keeps its whole length, however long, and the word its last 32 digits. */
  lemma LiteralRead(s: string)
    requires Binary(s)
    ensures Read(s).Literal? && Read(s).length == |s|
    ensures |s| <= 64 ==> forall i :: 0 <= i < 32 ==> Read(s).pattern[i] == (i < |s| && s[|s| - 1 - i] == '1')
  {
    if |s| <= 64 {
      StrToUlBits(s);
    }
  }

  /** Replaying a literal from its top bit gives its characters back, from left to right. */
  lemma LiteralReplay(s: string, k: nat)
    requires Binary(s) && k < |s| <= 32
    ensures Read(s).Literal? && Read(s).length == |s|
    ensures Read(s).pattern[|s| - 1 - k] <==> s[k] == '1'
  {
    StrToUlBits(s);
  }

  /** The characters of a literal that fall off the 32-bit schedule word have no effect. */
  lemma OnlyLast32Count(s: string, t: string)
    requires Binary(s) && Binary(t) && 32 <= |s| == |t| <= 64
    requires s[|s| - 32..] == t[|t| - 32..]
    ensures Read(s) == Read(t)
  {
    StrToUlBits(s);
    StrToUlBits(t);
    forall i | 0 <= i < 32 ensures StrToUl(s)[i] == StrToUl(t)[i] {
      assert s[|s| - 32..][31 - i] == t[|t| - 32..][31 - i];
    }
    assert StrToUl(s)[..32] == StrToUl(t)[..32];
  }

  ghost predicate LiteralsKeptApart(n: nat) {
    forall s, t :: Binary(s) && Binary(t) && |s| == |t| == n && Read(s) == Read(t) ==> s == t
  }

  /** Literals of n characters can be told apart after reading exactly when n <= 32.  The
      generator writes literals of up to 64 characters. */
  lemma LiteralsKeptApartIff(n: nat)
    requires n <= 64
    ensures LiteralsKeptApart(n) <==> n <= 32
  {
    if n <= 32 {
      forall s, t | Binary(s) && Binary(t) && |s| == |t| == n && Read(s) == Read(t) ensures s == t {
        forall k | 0 <= k < n ensures s[k] == t[k] {
          LiteralReplay(s, k);
          LiteralReplay(t, k);
        }
      }
    } else {
      var zeros := seq(n, i => '0');
      var one := zeros[0 := '1'];
      assert one[n - 32..] == zeros[n - 32..];
      OnlyLast32Count(one, zeros);
      assert one[0] != zeros[0];
      assert !LiteralsKeptApart(n);
    }
  }
}
