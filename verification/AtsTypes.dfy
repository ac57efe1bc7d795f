/** The 4-bit type fields of an address translation specification, packed into the doublewords at
    the head of a child block by ATS_SET_TYPE and read by ATS_GET_TYPE. */
module AtsTypes {
  import opened Words

  const ATS_FIELDS_DW0: nat := 12
  const ATS_FIELDS_DWS: nat := 16
  const ATS_DW_BITS: nat := 64
  const ATS_BITS_PER_FIELD: nat := 4
  const ATS_SHIFT_OFFSET: nat := 20
  const ACCEL_NUM_CHILD_ATS: nat := 4
  const ACCEL_NUM_CHILD_DESC_DWORDS: nat := 60

  /** C's remainder, which takes the sign of the dividend. */
  function Rem(a: int, b: int): (r: int)
    requires b > 0
  {
    if a < 0 then -((-a) % b) else a % b
  }

  /** Doubleword that holds field n. */
  function Doubleword(n: nat): (d: nat) {
    if n < ATS_FIELDS_DW0 then 0 else (n + ATS_BITS_PER_FIELD) / ATS_FIELDS_DWS
  }

  /** Bit position of field n in its doubleword, as the macros compute it. */
  function Shift(n: nat): (s: int) {
    if n < ATS_FIELDS_DW0 then ATS_DW_BITS - (n * ATS_BITS_PER_FIELD + ATS_SHIFT_OFFSET)
    else Rem(ATS_DW_BITS - Rem(n - ATS_FIELDS_DW0 - 1, ATS_FIELDS_DWS) * ATS_BITS_PER_FIELD, ATS_DW_BITS)
  }

  /** The position in closed form: 12 fields in the first doubleword and 16 in each later one.  They
      descend from bit 44, and in the later doublewords from bit 64, turned round by two places. */
  lemma ShiftClosedForm(n: nat)
    requires n < ACCEL_NUM_CHILD_DESC_DWORDS
    ensures Doubleword(n) == if n < 12 then 0 else 1 + (n - 12) / 16
    ensures n < ATS_FIELDS_DW0 ==> Shift(n) == 44 - 4 * n
    ensures n >= ATS_FIELDS_DW0 ==> var r := (n + 4) % 16;
      Shift(n) == if r == 0 then 4 else if r == 1 then 0 else 68 - 4 * r
  {
    if n > ATS_FIELDS_DW0 {
      PlaceInDoubleword(n);
      TurnedRound((n - 13) % 16);
    }
  }

  lemma PlaceInDoubleword(n: nat)
    requires n > ATS_FIELDS_DW0
    ensures (n - 13) % 16 == if (n + 4) % 16 == 0 then 15 else (n + 4) % 16 - 1
  {
  }

  lemma TurnedRound(x: nat)
    requires x < 16
    ensures (64 - x * 4) % 64 == if x == 0 then 0 else 64 - 4 * x
  {
  }

  /** Every field of a child block has a 4-bit place of its own, inside the four doublewords. */
  lemma PlacesAreDisjoint(n: nat, m: nat)
    requires n < ACCEL_NUM_CHILD_DESC_DWORDS && m < ACCEL_NUM_CHILD_DESC_DWORDS
    ensures Doubleword(n) < ACCEL_NUM_CHILD_ATS && 0 <= Shift(n) <= 60 && Shift(n) % 4 == 0
    ensures n != m && Doubleword(n) == Doubleword(m) ==> Shift(n) + 4 <= Shift(m) || Shift(m) + 4 <= Shift(n)
  {
    ShiftClosedForm(n);
    ShiftClosedForm(m);
  }

  /** `& 0xF`. */
  function Nibble(t: Uint64): (r: Uint64) {
    And(t, Block(64, 0, 4))
  }

  type Ats = a: seq<Uint64> | |a| == ACCEL_NUM_CHILD_ATS witness [Zero(64), Zero(64), Zero(64), Zero(64)]

  function SetType(a: Ats, n: nat, t: Uint64): (r: Ats)
    requires n < ACCEL_NUM_CHILD_DESC_DWORDS
  {
    PlacesAreDisjoint(n, n);
    var d := Doubleword(n);
    a[d := Or(a[d], Shl(Nibble(t), Shift(n)))]
  }

  function GetType(a: Ats, n: nat): (t: Uint64)
    requires n < ACCEL_NUM_CHILD_DESC_DWORDS
  {
    PlacesAreDisjoint(n, n);
    Nibble(Shr(a[Doubleword(n)], Shift(n)))
  }

  /** Setting a field ors the low four bits of the type into it, and no other field changes. */
  lemma GetAfterSet(a: Ats, n: nat, t: Uint64, m: nat)
    requires n < ACCEL_NUM_CHILD_DESC_DWORDS && m < ACCEL_NUM_CHILD_DESC_DWORDS
    ensures GetType(SetType(a, n, t), m) == if m == n then Or(GetType(a, n), Nibble(t)) else GetType(a, m)
  {
    PlacesAreDisjoint(n, m);
    forall i | 0 <= i < 4 ensures FieldBit(SetType(a, n, t), m, i) == (FieldBit(a, m, i) || (m == n && t[i])) {
      SetOneBit(a, n, t, m, i);
    }
  }

  /** Bit i of field m. */
  predicate FieldBit(a: Ats, m: nat, i: nat)
    requires m < ACCEL_NUM_CHILD_DESC_DWORDS && i < 4
  {
    PlacesAreDisjoint(m, m);
    a[Doubleword(m)][Shift(m) + i]
  }

  /** A type or-ed in at bit s, seen at bit b. */
  lemma BitOfSet(w: Uint64, t: Uint64, s: nat, b: nat)
    requires s <= 60 && b < 64
    ensures Or(w, Shl(Nibble(t), s))[b] == (w[b] || (s <= b < s + 4 && t[b - s]))
  {
  }

  lemma SetOneBit(a: Ats, n: nat, t: Uint64, m: nat, i: nat)
    requires n < ACCEL_NUM_CHILD_DESC_DWORDS && m < ACCEL_NUM_CHILD_DESC_DWORDS && i < 4
    ensures FieldBit(SetType(a, n, t), m, i) == (FieldBit(a, m, i) || (m == n && t[i]))
  {
    PlacesAreDisjoint(n, m);
    PlacesAreDisjoint(m, m);
    var d := Doubleword(n);
    if Doubleword(m) != d {
      assert SetType(a, n, t)[Doubleword(m)] == a[Doubleword(m)];
    } else {
      BitOfSet(a[d], t, Shift(n), Shift(m) + i);
    }
  }

  /** A type can be read back exactly when the field held no bit that the type lacks. */
  lemma TypeReadsBackIff(a: Ats, n: nat, t: Uint64)
    requires n < ACCEL_NUM_CHILD_DESC_DWORDS
    ensures GetType(SetType(a, n, t), n) == Nibble(t)
       <==> forall i :: 0 <= i < 4 && GetType(a, n)[i] ==> t[i]
  {
    GetAfterSet(a, n, t, n);
    var g, q := GetType(a, n), Nibble(t);
    if forall i :: 0 <= i < 4 && g[i] ==> t[i] {
      forall i | 0 <= i < 64 ensures Or(g, q)[i] == q[i] {
      }
      assert Or(g, q) == q;
    } else {
      var i :| 0 <= i < 4 && g[i] && !t[i];
      assert Or(g, q)[i] != q[i];
    }
  }

  // ---------- any number of sets ----------

  datatype Set = Set(n: nat, t: Uint64)

  predicate InRange(ops: seq<Set>) {
    forall i :: 0 <= i < |ops| ==> ops[i].n < ACCEL_NUM_CHILD_DESC_DWORDS
  }

  function After(a: Ats, ops: seq<Set>): (r: Ats)
    requires InRange(ops)
  {
    if ops == [] then a else SetType(After(a, ops[..|ops| - 1]), ops[|ops| - 1].n, ops[|ops| - 1].t)
  }

  /** What field m should read as: the or of the types set on it, whatever was set elsewhere. */
  function Collected(ops: seq<Set>, m: nat): (t: Uint64) {
    if ops == [] then Zero(64)
    else if ops[|ops| - 1].n == m then Or(Collected(ops[..|ops| - 1], m), Nibble(ops[|ops| - 1].t))
    else Collected(ops[..|ops| - 1], m)
  }

  /** On a cleared child block, after any sets, each field reads as the or of the types set on it. */
  lemma {:induction false} FieldsAreAMap(ops: seq<Set>, m: nat)
    requires InRange(ops) && m < ACCEL_NUM_CHILD_DESC_DWORDS
    ensures GetType(After([Zero(64), Zero(64), Zero(64), Zero(64)], ops), m) == Collected(ops, m)
  {
    var cleared: Ats := [Zero(64), Zero(64), Zero(64), Zero(64)];
    if ops == [] {
      PlacesAreDisjoint(m, m);
      assert cleared[Doubleword(m)] == Zero(64);
      assert GetType(cleared, m) == Zero(64);
    } else {
      var k := |ops| - 1;
      FieldsAreAMap(ops[..k], m);
      GetAfterSet(After(cleared, ops[..k]), ops[k].n, ops[k].t, m);
    }
  }

  class ChildBlock {
    const ats: array<Uint64>

    constructor ()
      ensures fresh(ats) && ats[..] == [Zero(64), Zero(64), Zero(64), Zero(64)]
    {
      ats := new Uint64[ACCEL_NUM_CHILD_ATS](i => Zero(64));
    }

    /** ATS_SET_TYPE. */
    method SetTypeField(n: nat, t: Uint64)
      requires ats.Length == ACCEL_NUM_CHILD_ATS && n < ACCEL_NUM_CHILD_DESC_DWORDS
      modifies ats
      ensures ats[..] == SetType(old(ats[..]), n, t)
    {
      PlacesAreDisjoint(n, n);
      if n < ATS_FIELDS_DW0 {
        ats[0] := Or(ats[0], Shl(Nibble(t), ATS_DW_BITS - (n * ATS_BITS_PER_FIELD + ATS_SHIFT_OFFSET)));
      } else {
        var d := (n + ATS_BITS_PER_FIELD) / ATS_FIELDS_DWS;
        var s := Rem(ATS_DW_BITS - Rem(n - ATS_FIELDS_DW0 - 1, ATS_FIELDS_DWS) * ATS_BITS_PER_FIELD, ATS_DW_BITS);
        ats[d] := Or(ats[d], Shl(Nibble(t), s));
      }
    }
  }
}
