/** The equaliser's in-place shuffle of the low n bits of a schedule word: a Fisher-Yates
    shuffle whose array is the word itself.  The i-th value drawn from `rand()` is `rand(i)`. */
module Shuffle {
  import opened Words

  /** w with bits f and s traded. */
  function Exchange(w: Word, f: nat, s: nat): (r: Word)
    requires f < |w| && s < |w|
    ensures |r| == |w|
  {
    w[f := w[s]][s := w[f]]
  }

  /** What the masks of shuffle_pattern compute. */
  lemma MaskedExchange(w: Word, f: nat, s: nat)
    requires f < |w| && s < |w|
    ensures
      var one := One(|w|);
      var digitsToExch := Or(Shl(one, f), Shl(one, s));
      var firstDigit := And(Shr(w, f), one);
      var secondDigit := And(Shr(w, s), one);
      var digitsAftExch := Or(Shl(firstDigit, s), Shl(secondDigit, f));
      Or(And(Not(digitsToExch), w), digitsAftExch) == Exchange(w, f, s)
  {
  }

  lemma ExchangeKeepsOnes(w: Word, f: nat, s: nat, lo: nat, hi: nat)
    requires lo <= f < hi && lo <= s < hi && hi <= |w|
    ensures Ones(Exchange(w, f, s), lo, hi) == Ones(w, lo, hi)
  {
    OnesOfUpdate(w, f, w[s], lo, hi);
    OnesOfUpdate(w[f := w[s]], s, w[f], lo, hi);
  }

  /** The shuffle from position f on. */
  function ShuffleFrom(w: Word, f: nat, n: nat, rand: nat -> nat): (r: Word)
    requires n <= |w|
    ensures |r| == |w|
    decreases n - f
  {
    if f >= n then w else ShuffleFrom(Exchange(w, f, f + rand(f) % (n - f)), f + 1, n, rand)
  }

  /** Whatever is drawn, the shuffle keeps every bit outside f..n-1 and the number of ones inside. */
  lemma {:induction false} ShuffleKeeps(w: Word, f: nat, n: nat, rand: nat -> nat)
    requires f <= n <= |w|
    ensures forall i :: 0 <= i < |w| && (i < f || n <= i) ==> ShuffleFrom(w, f, n, rand)[i] == w[i]
    ensures Ones(ShuffleFrom(w, f, n, rand), f, n) == Ones(w, f, n)
    decreases n - f
  {
    if f < n {
      var s := f + rand(f) % (n - f);
      ShuffleKeeps(Exchange(w, f, s), f + 1, n, rand);
      ExchangeKeepsOnes(w, f, s, f, n);
    }
  }

  lemma {:induction false} ShuffleReadsFromPosition(w: Word, f: nat, n: nat, a: nat -> nat, b: nat -> nat)
    requires n <= |w|
    requires forall i: nat :: f <= i ==> a(i) == b(i)
    ensures ShuffleFrom(w, f, n, a) == ShuffleFrom(w, f, n, b)
    decreases n - f
  {
    if f < n {
      ShuffleReadsFromPosition(Exchange(w, f, f + a(f) % (n - f)), f + 1, n, a, b);
    }
  }

  lemma SmallRemainder(a: nat, m: nat)
    requires a < m
    ensures a % m == a
  {
  }

  /** One step of the shuffle: a first draw that picks s, then later draws. */
  lemma ShuffleStep(w: Word, f: nat, s: nat, n: nat, later: nat -> nat) returns (rand: nat -> nat)
    requires f <= s < n <= |w|
    ensures ShuffleFrom(w, f, n, rand) == ShuffleFrom(Exchange(w, f, s), f + 1, n, later)
  {
    rand := i => if i == f then s - f else later(i);
    SmallRemainder(s - f, n - f);
    ShuffleReadsFromPosition(Exchange(w, f, s), f + 1, n, rand, later);
  }

  /** Draws that lead from w to v. */
  lemma {:induction false} DrawsLeadingTo(w: Word, v: Word, f: nat, n: nat) returns (rand: nat -> nat)
    requires f <= n <= |w| == |v|
    requires forall i :: 0 <= i < |w| && (i < f || n <= i) ==> v[i] == w[i]
    requires Ones(v, f, n) == Ones(w, f, n)
    ensures ShuffleFrom(w, f, n, rand) == v
    decreases n - f
  {
    if f == n {
      assert w == v;
      rand := i => 0;
    } else {
      var s := FindBit(w, f, n, v[f]);
      var x := Exchange(w, f, s);
      ExchangeKeepsOnes(w, f, s, f, n);
      var later := DrawsLeadingTo(x, v, f + 1, n);
      rand := ShuffleStep(w, f, s, n, later);
    }
  }

  /** The shuffle can produce v from w exactly when v differs from w only in the order of the
      low n bits: no arrangement is lost, and nothing else can come out. */
  lemma ShuffleReachesExactlyTheArrangements(w: Word, v: Word, n: nat)
    requires n <= |w| == |v|
    ensures (exists rand: nat -> nat :: ShuffleFrom(w, 0, n, rand) == v)
       <==> (Ones(v, 0, n) == Ones(w, 0, n) && forall i :: n <= i < |w| ==> v[i] == w[i])
  {
    if exists rand: nat -> nat :: ShuffleFrom(w, 0, n, rand) == v {
      var rand: nat -> nat :| ShuffleFrom(w, 0, n, rand) == v;
      ShuffleKeeps(w, 0, n, rand);
    }
    if Ones(v, 0, n) == Ones(w, 0, n) && forall i :: n <= i < |w| ==> v[i] == w[i] {
      var rand := DrawsLeadingTo(w, v, 0, n);
    }
  }

  /** The bit that comes to position f is the drawn one of those not placed yet. */
  lemma ShufflePlacesTheDrawn(w: Word, f: nat, n: nat, rand: nat -> nat)
    requires f < n <= |w|
    ensures ShuffleFrom(w, f, n, rand)[f] == w[f + rand(f) % (n - f)]
  {
    var s := f + rand(f) % (n - f);
    ShuffleKeeps(Exchange(w, f, s), f + 1, n, rand);
  }

  /** The body of the loop of shuffle_pattern. */
  method ExchangeDigits(pattern: Uint32, firstPos: nat, secondPos: nat) returns (r: Uint32)
    requires firstPos < 32 && secondPos < 32
    ensures r == Exchange(pattern, firstPos, secondPos)
  {
    MaskedExchange(pattern, firstPos, secondPos);
    var one := One(32);
    var digitsToExch := Or(Shl(one, firstPos), Shl(one, secondPos));
    var firstDigit := And(Shr(pattern, firstPos), one);
    var secondDigit := And(Shr(pattern, secondPos), one);
    var digitsAftExch := Or(Shl(firstDigit, secondPos), Shl(secondDigit, firstPos));
    r := Or(And(Not(digitsToExch), pattern), digitsAftExch);
  }

  /** shuffle_pattern: the loop over `first_pos`. */
  method ShufflePattern(n: nat, pattern: Uint32, rand: nat -> nat) returns (finalPattern: Uint32)
    requires n <= 32
    ensures finalPattern == ShuffleFrom(pattern, 0, n, rand)
    ensures Ones(finalPattern, 0, n) == Ones(pattern, 0, n)
    ensures forall i :: n <= i < 32 ==> finalPattern[i] == pattern[i]
  {
    finalPattern := pattern;
    var firstPos := 0;
    while firstPos < n
      invariant firstPos <= n
      invariant ShuffleFrom(finalPattern, firstPos, n, rand) == ShuffleFrom(pattern, 0, n, rand)
    {
      var secondPos := firstPos + rand(firstPos) % (n - firstPos);
      finalPattern := ExchangeDigits(finalPattern, firstPos, secondPos);
      firstPos := firstPos + 1;
    }
    ShuffleKeeps(pattern, 0, n, rand);
  }
}
