/**
 * `BTreeMap<String, V>` as the sorted association list it iterates as.
 * Keys are ordered like Rust's `String`: byte-wise lexicographically on the
 * UTF-8 encoding, which for scalar values is the code-point order used here.
 */
module Ordered {
  import opened Wrappers

  /** `a < b` for Rust strings. */
  predicate Less(a: string, b: string)
  {
    if a == [] then b != []
    else if b == [] then false
    else a[0] < b[0] || (a[0] == b[0] && Less(a[1..], b[1..]))
  }

  lemma {:induction false} LessIrreflexive(a: string)
    ensures !Less(a, a)
  {
    if a != [] {
      LessIrreflexive(a[1..]);
    }
  }

  lemma {:induction false} LessTransitive(a: string, b: string, c: string)
    requires Less(a, b) && Less(b, c)
    ensures Less(a, c)
  {
    if a != [] && b != [] && c != [] && a[0] == b[0] == c[0] {
      LessTransitive(a[1..], b[1..], c[1..]);
    }
  }

  /** In a sorted list, a smaller key sits at a smaller index. */
  lemma SortedIndex<V>(es: seq<(string, V)>, i: nat, j: nat)
    requires Sorted(es) && i < |es| && j < |es| && Less(es[i].0, es[j].0)
    ensures i < j
  {
    if j < i {
      LessTransitive(es[i].0, es[j].0, es[i].0);
    }
    LessIrreflexive(es[i].0);
  }

  lemma {:induction false} LessTotal(a: string, b: string)
    requires a != b
    ensures Less(a, b) || Less(b, a)
  {
    if a != [] && b != [] && a[0] == b[0] {
      assert a == [a[0]] + a[1..] && b == [b[0]] + b[1..];
      LessTotal(a[1..], b[1..]);
    }
  }

  /** The keys of an association list. */
  function Keys<V>(es: seq<(string, V)>): set<string>
  {
    set i | 0 <= i < |es| :: es[i].0
  }

  /** Keys strictly increasing: what iterating a `BTreeMap` yields. */
  predicate Sorted<V>(es: seq<(string, V)>)
  {
    forall i, j :: 0 <= i < j < |es| ==> Less(es[i].0, es[j].0)
  }

  /** Every key of `es` lies strictly above `k`. */
  predicate Above<V>(k: string, es: seq<(string, V)>)
  {
    forall i :: 0 <= i < |es| ==> Less(k, es[i].0)
  }

  /** `BTreeMap::get`. */
  function Get<V>(es: seq<(string, V)>, k: string): (r: Option<V>)
    ensures r.Some? <==> k in Keys(es)
  {
    if es == [] then None
    else if es[0].0 == k then Some(es[0].1)
    else
      var r := Get(es[1..], k);
      assert Keys(es) == {es[0].0} + Keys(es[1..]) by {
        forall x | x in Keys(es) ensures x in {es[0].0} + Keys(es[1..]) {
          var i :| 0 <= i < |es| && es[i].0 == x;
          if i > 0 { assert es[1..][i - 1].0 == x; }
        }
      }
      r
  }

  lemma KeysCons<V>(e: (string, V), es: seq<(string, V)>)
    ensures Keys([e] + es) == {e.0} + Keys(es)
  {
    var s := [e] + es;
    forall x | x in Keys(s) ensures x in {e.0} + Keys(es) {
      var i :| 0 <= i < |s| && s[i].0 == x;
      if i > 0 { assert es[i - 1].0 == x; }
    }
    forall x | x in Keys(es) ensures x in Keys(s) {
      var i :| 0 <= i < |es| && es[i].0 == x;
      assert s[i + 1].0 == x;
    }
    assert s[0].0 == e.0;
  }

  /** A sorted list stays sorted when a key below all of its keys is put in front. */
  lemma SortedCons<V>(e: (string, V), es: seq<(string, V)>)
    requires Sorted(es) && forall x :: x in Keys(es) ==> Less(e.0, x)
    ensures Sorted([e] + es)
  {
    var r := [e] + es;
    forall i, j | 0 <= i < j < |r| ensures Less(r[i].0, r[j].0) {
      if i == 0 {
        assert r[j].0 == es[j - 1].0;
      } else {
        assert r[i] == es[i - 1] && r[j] == es[j - 1];
      }
    }
  }

  /**
   * `BTreeMap::insert`: the entry for `k` now holds `v` (an earlier value is
   * overwritten), every other entry is unchanged; `PutSorted` shows the order
   * is kept.
   */
  function Put<V>(es: seq<(string, V)>, k: string, v: V): (r: seq<(string, V)>)
    ensures Keys(r) == Keys(es) + {k}
    ensures Get(r, k) == Some(v)
    ensures forall k' :: k' != k ==> Get(r, k') == Get(es, k')
  {
    if es == [] then
      KeysCons((k, v), es);
      assert [(k, v)] + es == [(k, v)];
      [(k, v)]
    else if es[0].0 == k then
      KeysCons(es[0], es[1..]);
      KeysCons((k, v), es[1..]);
      assert es == [es[0]] + es[1..];
      var r := [(k, v)] + es[1..];
      assert forall k' :: k' != k ==> Get(r, k') == Get(es[1..], k');
      r
    else if Less(k, es[0].0) then
      KeysCons((k, v), es);
      var r := [(k, v)] + es;
      assert r[1..] == es;
      r
    else
      var tail := Put(es[1..], k, v);
      KeysCons(es[0], es[1..]);
      KeysCons(es[0], tail);
      assert es == [es[0]] + es[1..];
      var r := [es[0]] + tail;
      assert r[1..] == tail;
      r
  }

  /** Putting into a sorted list keeps it sorted. */
  lemma {:induction false} PutSorted<V>(es: seq<(string, V)>, k: string, v: V)
    requires Sorted(es)
    ensures Sorted(Put(es, k, v))
  {
    if es == [] {
    } else if es[0].0 == k {
      assert es == [es[0]] + es[1..];
      KeysCons(es[0], es[1..]);
      SortedCons((k, v), es[1..]);
    } else if Less(k, es[0].0) {
      KeysCons(es[0], es[1..]);
      forall x | x in Keys(es) ensures Less(k, x) {
        if x != es[0].0 {
          LessTransitive(k, es[0].0, x);
        }
      }
      SortedCons((k, v), es);
    } else {
      LessTotal(k, es[0].0);
      assert es == [es[0]] + es[1..];
      KeysCons(es[0], es[1..]);
      PutSorted(es[1..], k, v);
      SortedCons(es[0], Put(es[1..], k, v));
    }
  }

  lemma GetSorted<V>(es: seq<(string, V)>, i: nat)
    requires Sorted(es) && i < |es|
    ensures Get(es, es[i].0) == Some(es[i].1)
  {
    if i > 0 {
      assert es[0].0 != es[i].0 by { LessIrreflexive(es[0].0); }
      assert es[1..][i - 1] == es[i];
      GetSorted(es[1..], i - 1);
    }
  }

  /** A sorted list has no repeated key: one entry per key. */
  lemma {:induction false} SortedKeysCount<V>(es: seq<(string, V)>)
    requires Sorted(es)
    ensures |Keys(es)| == |es|
  {
    if es != [] {
      var tail := es[1..];
      assert es == [es[0]] + tail;
      KeysCons(es[0], tail);
      SortedKeysCount(tail);
      if es[0].0 in Keys(tail) {
        var i :| 0 <= i < |tail| && tail[i].0 == es[0].0;
        assert es[i + 1] == tail[i];
        LessIrreflexive(es[0].0);
      }
    }
  }
}
