/** Facts about sequences that several parts share. */
module Seqs {

  predicate Distinct<T(==)>(s: seq<T>) {
    forall i, j :: 0 <= i < j < |s| ==> s[i] != s[j]
  }

  /** s with the element at position `at` taken out and the gap closed. */
  function Without<T>(s: seq<T>, at: nat): (r: seq<T>)
    requires at < |s|
  {
    s[..at] + s[at + 1..]
  }

  lemma WithoutAt<T>(s: seq<T>, at: nat, i: nat)
    requires at < |s| && i < |s| - 1
    ensures Without(s, at)[i] == s[if i < at then i else i + 1]
  {
  }

  /** Taking out the only copy of an element leaves exactly the others. */
  lemma WithoutMembers<T>(s: seq<T>, at: nat)
    requires Distinct(s) && at < |s|
    ensures Distinct(Without(s, at)) && s[at] !in Without(s, at)
    ensures forall t :: t in s <==> t in Without(s, at) || t == s[at]
  {
    var r := Without(s, at);
    forall i | 0 <= i < |r| ensures r[i] in s && r[i] != s[at] {
      assert r[i] == s[if i < at then i else i + 1];
    }
    forall t | t in s && t != s[at] ensures t in r {
      var i :| 0 <= i < |s| && s[i] == t;
      assert r[if i < at then i else i - 1] == t;
    }
    assert s[at] in s;
  }
}
