/** Unsigned machine words seen bit by bit: w[i] is bit i, bit 0 the least significant.  A
    `uint32` is a word of 32 bits, a `uint64` one of 64, and the C operators act pointwise. */
module Words {

  type Word = seq<bool>
  type Uint32 = w: Word | |w| == 32 witness seq(32, i => false)
  type Uint64 = w: Word | |w| == 64 witness seq(64, i => false)

  function Zero(width: nat): (w: Word)
    ensures |w| == width
  {
    seq(width, i => false)
  }

  /** The constant 1. */
  function One(width: nat): (w: Word)
    ensures |w| == width
  {
    seq(width, i => i == 0)
  }

  function Or(a: Word, b: Word): (r: Word)
    requires |a| == |b|
    ensures |r| == |a|
  {
    seq(|a|, i requires 0 <= i < |a| => a[i] || b[i])
  }

  function And(a: Word, b: Word): (r: Word)
    requires |a| == |b|
    ensures |r| == |a|
  {
    seq(|a|, i requires 0 <= i < |a| => a[i] && b[i])
  }

  function Not(a: Word): (r: Word)
    ensures |r| == |a|
  {
    seq(|a|, i requires 0 <= i < |a| => !a[i])
  }

  /** a << k; bits pushed past the top are lost. */
  function Shl(a: Word, k: nat): (r: Word)
    ensures |r| == |a|
  {
    seq(|a|, i requires 0 <= i < |a| => k <= i && a[i - k])
  }

  /** a >> k, filling with zeros. */
  function Shr(a: Word, k: nat): (r: Word)
    ensures |r| == |a|
  {
    seq(|a|, i requires 0 <= i < |a| => i + k < |a| && a[i + k])
  }

  /** The number a word stands for. */
  function Value(w: Word): (v: nat) {
    if w == [] then 0 else (if w[0] then 1 else 0) + 2 * Value(w[1..])
  }

  /** How many of the bits lo..hi-1 of w are set. */
  function Ones(w: Word, lo: nat, hi: nat): (n: nat)
    requires lo <= hi <= |w|
    ensures n <= hi - lo
    decreases hi - lo
  {
    if lo == hi then 0 else (if w[lo] then 1 else 0) + Ones(w, lo + 1, hi)
  }

  lemma {:induction false} OnesSplit(w: Word, lo: nat, mid: nat, hi: nat)
    requires lo <= mid <= hi <= |w|
    ensures Ones(w, lo, hi) == Ones(w, lo, mid) + Ones(w, mid, hi)
    decreases mid - lo
  {
    if lo < mid {
      OnesSplit(w, lo + 1, mid, hi);
    }
  }

  /** A stretch of bits holding only ones, or only zeros. */
  lemma {:induction false} OnesOfConstant(w: Word, lo: nat, hi: nat, b: bool)
    requires lo <= hi <= |w|
    requires forall i :: lo <= i < hi ==> w[i] == b
    ensures Ones(w, lo, hi) == if b then hi - lo else 0
    decreases hi - lo
  {
    if lo < hi {
      OnesOfConstant(w, lo + 1, hi, b);
    }
  }

  /** Changing one bit changes the count by that bit. */
  lemma {:induction false} OnesOfUpdate(w: Word, p: nat, b: bool, lo: nat, hi: nat)
    requires lo <= hi <= |w| && p < |w|
    ensures Ones(w[p := b], lo, hi) - Ones(w, lo, hi)
         == if lo <= p < hi then (if b then 1 else 0) - (if w[p] then 1 else 0) else 0
    decreases hi - lo
  {
    if lo < hi {
      OnesOfUpdate(w, p, b, lo + 1, hi);
    }
  }

  /** A stretch that is not all of the other colour holds a bit of colour b. */
  lemma {:induction false} FindBit(w: Word, lo: nat, hi: nat, b: bool) returns (s: nat)
    requires lo <= hi <= |w|
    requires Ones(w, lo, hi) != if b then 0 else hi - lo
    ensures lo <= s < hi && w[s] == b
    decreases hi - lo
  {
    if w[lo] == b {
      s := lo;
    } else {
      s := FindBit(w, lo + 1, hi, b);
    }
  }

  /** The word whose ones are exactly the bits lo..hi-1. */
  function Block(width: nat, lo: int, hi: int): (w: Word)
    ensures |w| == width
  {
    seq(width, i => lo <= i < hi)
  }

  lemma BlockOnes(width: nat, lo: nat, hi: nat, n: nat)
    requires lo <= hi <= n <= width
    ensures Ones(Block(width, lo, hi), 0, n) == hi - lo
  {
    var w := Block(width, lo, hi);
    OnesSplit(w, 0, lo, n);
    OnesSplit(w, lo, hi, n);
    OnesOfConstant(w, 0, lo, false);
    OnesOfConstant(w, lo, hi, true);
    OnesOfConstant(w, hi, n, false);
  }

  /** Shifting left by one and or-ing in a digit doubles the number, modulo the word size: what
      `2 * v + digit` computes, the lost top bit being worth 2^width. */
  lemma {:induction false} ValueOfShiftIn(w: Word, d: bool)
    requires w != []
    ensures var r := Or(Shl(w, 1), if d then One(|w|) else Zero(|w|));
      Value(r) + (if w[|w| - 1] then PowerOfTwo(|w|) else 0) == 2 * Value(w) + if d then 1 else 0
  {
    var r := Or(Shl(w, 1), if d then One(|w|) else Zero(|w|));
    assert r == [d] + w[..|w| - 1];
    assert w == w[..|w| - 1] + [w[|w| - 1]];
    ValueOfAppend(w[..|w| - 1], w[|w| - 1]);
    assert r[1..] == w[..|w| - 1];
  }

  function PowerOfTwo(n: nat): (p: nat)
    ensures p >= 1
  {
    if n == 0 then 1 else 2 * PowerOfTwo(n - 1)
  }

  lemma {:induction false} ValueOfAppend(w: Word, b: bool)
    ensures Value(w + [b]) == Value(w) + if b then PowerOfTwo(|w|) else 0
  {
    if w != [] {
      assert (w + [b])[1..] == w[1..] + [b];
      ValueOfAppend(w[1..], b);
    } else {
      assert (w + [b])[1..] == [];
    }
  }

  lemma {:induction false} ValueIsBelow(w: Word)
    ensures Value(w) < PowerOfTwo(|w|)
  {
    if w != [] {
      ValueIsBelow(w[1..]);
    }
  }

  lemma {:induction false} ValueOfZero(n: nat)
    ensures Value(Zero(n)) == 0
  {
    if n > 0 {
      assert Zero(n)[1..] == Zero(n - 1);
      ValueOfZero(n - 1);
    }
  }

  lemma {:induction false} ValueOfOnes(n: nat)
    ensures Value(Not(Zero(n))) == PowerOfTwo(n) - 1
  {
    if n > 0 {
      assert Not(Zero(n))[1..] == Not(Zero(n - 1));
      ValueOfOnes(n - 1);
    }
  }

  /** A set top bit is worth half of what the word can hold. */
  lemma ValueOfTopBit(w: Word)
    requires w != [] && w[|w| - 1]
    ensures 2 * Value(w) >= PowerOfTwo(|w|)
  {
    ValueOfAppend(w[..|w| - 1], true);
    assert w == w[..|w| - 1] + [true];
  }
}
