/** Sequences that list numbers once each. */
module Permutations {

  function RemoveAt<T>(s: seq<T>, i: nat): seq<T>
    requires i < |s|
  {
    s[..i] + s[i + 1..]
  }

  /** Where the `j`th element was before the `i`th one was taken out. */
  function Up(j: nat, i: nat): nat { if j < i then j else j + 1 }

  predicate Distinct(s: seq<nat>) {
    forall i, j :: 0 <= i < j < |s| ==> s[i] != s[j]
  }

  /** Every number below `n` occurs exactly once, and no other. */
  ghost predicate ListsAll(order: seq<nat>, n: nat) {
    Distinct(order) && forall e: nat :: e in order <==> e < n
  }

  lemma {:induction false} RemoveLargest(order: seq<nat>, n: nat) returns (i: nat)
    requires Distinct(order) && 0 < n && n - 1 in order && forall e :: e in order ==> e < n
    ensures i < |order| && order[i] == n - 1
    ensures Distinct(RemoveAt(order, i)) && forall e :: e in RemoveAt(order, i) <==> e in order && e != n - 1
  {
    i :| 0 <= i < |order| && order[i] == n - 1;
    var rest := RemoveAt(order, i);
    forall j | 0 <= j < |rest| ensures rest[j] == order[if j < i then j else j + 1] {}
    forall e | e in order && e != n - 1 ensures e in rest {
      var j :| 0 <= j < |order| && order[j] == e;
      assert rest[if j < i then j else j - 1] == e;
    }
  }

  lemma FirstIsIn(order: seq<nat>)
    ensures order == [] || order[0] in order
  {
  }

  /** Distinct numbers below `n` are at most `n` many. */
  lemma {:induction false} FewerThan(order: seq<nat>, n: nat)
    requires Distinct(order) && forall e :: e in order ==> e < n
    ensures |order| <= n
  {
    if n == 0 {
      FirstIsIn(order);
    } else if n - 1 in order {
      var i := RemoveLargest(order, n);
      FewerThan(RemoveAt(order, i), n - 1);
    } else {
      FewerThan(order, n - 1);
    }
  }

  lemma DistinctConcat(s: seq<nat>, t: seq<nat>)
    requires Distinct(s) && Distinct(t) && forall e :: e in s ==> e !in t
    ensures Distinct(s + t) && forall e :: e in s + t <==> e in s || e in t
  {
    var v := s + t;
    forall i, j | 0 <= i < j < |v| ensures v[i] != v[j] {
      if i < |s| <= j {
        assert v[i] in s && v[j] in t;
      }
    }
  }
}
