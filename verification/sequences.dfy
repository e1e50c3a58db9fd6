/** Sequence helpers: Python's `list.index` and first-appearance de-duplication. */
module Sequences {

  /** No element occurs twice. */
  predicate Distinct<T(==)>(s: seq<T>)
  {
    forall i, j :: 0 <= i < j < |s| ==> s[i] != s[j]
  }

  /** An element in front of a sequence without repetitions keeps it so exactly when it is new. */
  lemma DistinctCons<T>(x: T, s: seq<T>)
    ensures Distinct([x] + s) <==> Distinct(s) && x !in s
  {
    var xs := [x] + s;
    if Distinct(s) && x !in s {
      forall i, j | 0 <= i < j < |xs| ensures xs[i] != xs[j] {
        if i == 0 {
          assert xs[j] == s[j - 1];
        } else {
          assert xs[i] == s[i - 1] && xs[j] == s[j - 1];
        }
      }
    }
    if Distinct(xs) {
      forall i, j | 0 <= i < j < |s| ensures s[i] != s[j] {
        assert xs[i + 1] != xs[j + 1];
      }
      forall k | 0 <= k < |s| ensures s[k] != x {
        assert xs[0] != xs[k + 1];
      }
    }
  }

  /** Python's `s.index(x)`: the position of the FIRST occurrence of `x`. */
  function IndexOf<T(==)>(s: seq<T>, x: T): (i: nat)
    requires x in s
    ensures i < |s| && s[i] == x
    ensures forall j :: 0 <= j < i ==> s[j] != x
  {
    if s[0] == x then 0 else 1 + IndexOf(s[1..], x)
  }

  /** The first occurrence of `x` in `s` is also its first occurrence in any extension of `s`. */
  lemma IndexOfPrefix<T>(s: seq<T>, t: seq<T>, x: T)
    requires x in s
    ensures x in s + t && IndexOf(s + t, x) == IndexOf(s, x)
  {
    var i := IndexOf(s, x);
    var k := IndexOf(s + t, x);
    assert (s + t)[i] == x;
    assert s[k] == (s + t)[k] by { assert k <= i; }
  }

  /** Keeps the first occurrence of every element, in order of first appearance. */
  function Dedup<T(==)>(s: seq<T>): seq<T>
  {
    if |s| == 0 then []
    else
      var d := Dedup(s[..|s| - 1]);
      var last := s[|s| - 1];
      if last in d then d else d + [last]
  }

  /** De-duplication keeps exactly the elements of the input, each once. */
  lemma {:induction false} DedupMembers<T>(s: seq<T>)
    ensures forall i :: 0 <= i < |Dedup(s)| ==> Dedup(s)[i] in s
    ensures forall i :: 0 <= i < |s| ==> s[i] in Dedup(s)
    ensures Distinct(Dedup(s))
  {
    if |s| > 0 {
      var p := s[..|s| - 1];
      var last := s[|s| - 1];
      DedupMembers(p);
      assert s == p + [last];
      var d := Dedup(p);
      if last !in d {
        assert Dedup(s) == d + [last];
        forall i, j | 0 <= i < j < |d| + 1 ensures (d + [last])[i] != (d + [last])[j] {
          if j == |d| {
            assert (d + [last])[i] == d[i];
          } else {
            assert (d + [last])[i] == d[i] && (d + [last])[j] == d[j];
          }
        }
      }
      forall i | 0 <= i < |s| ensures s[i] in Dedup(s) {
        if i < |s| - 1 {
          assert s[i] == p[i];
        }
      }
    }
  }

  /** Appending an element de-duplicates to the old result, plus the element if it is new. */
  lemma DedupSnoc<T>(s: seq<T>, x: T)
    ensures Dedup(s + [x]) == if x in Dedup(s) then Dedup(s) else Dedup(s) + [x]
  {
    assert (s + [x])[..|s + [x]| - 1] == s;
  }

  /** De-duplication keeps elements in order of their first appearance in the input. */
  lemma {:induction false} DedupFirstAppearanceOrder<T>(s: seq<T>)
    ensures forall i, j :: 0 <= i < j < |Dedup(s)| ==>
              Dedup(s)[i] in s && Dedup(s)[j] in s
              && IndexOf(s, Dedup(s)[i]) < IndexOf(s, Dedup(s)[j])
  {
    if |s| > 0 {
      var p := s[..|s| - 1];
      var last := s[|s| - 1];
      assert s == p + [last];
      DedupFirstAppearanceOrder(p);
      DedupMembers(p);
      var dp := Dedup(p);
      var d := Dedup(s);
      assert d == if last in dp then dp else dp + [last];
      forall k | 0 <= k < |dp|
        ensures dp[k] in p && dp[k] in s
        ensures IndexOf(s, dp[k]) == IndexOf(p, dp[k]) && IndexOf(s, dp[k]) < |s| - 1
      {
        IndexOfPrefix(p, [last], dp[k]);
      }
      forall i, j | 0 <= i < j < |d|
        ensures d[i] in s && d[j] in s && IndexOf(s, d[i]) < IndexOf(s, d[j])
      {
        assert d[i] == dp[i];
        if j < |dp| {
          assert d[j] == dp[j];
          assert IndexOf(p, dp[i]) < IndexOf(p, dp[j]);
        } else {
          assert d[j] == last && last !in dp;
          assert last !in p;
          assert IndexOf(s, last) == |s| - 1;
        }
      }
    } else {
      assert Dedup(s) == [];
    }
  }

  /** A sequence without repetitions is its own de-duplication. */
  lemma {:induction false} DedupDistinct<T>(s: seq<T>)
    requires Distinct(s)
    ensures Dedup(s) == s
  {
    if |s| > 0 {
      var p := s[..|s| - 1];
      assert Distinct(p);
      DedupDistinct(p);
      assert s[|s| - 1] !in p;
      assert s == p + [s[|s| - 1]];
    }
  }
}
