/**
  Ordering of `(name, descriptor)` pairs by the position of the name in an
  order list, as `sorted(items, key=lambda t: order.index(t[0]) if t[0] in order else -1)`
  does it. Python's `sorted` is stable; the model sorts by insertion, and
  `SortUnique` shows that every stable sort produces the same sequence.
 */
module ButtonOrder {
  import opened Sequences
  import opened OrderedMap

  /** The sort key: the first position of `name` in `order`, or -1 when it is not listed. */
  function Rank<K(==)>(order: seq<K>, name: K): (r: int)
    ensures -1 <= r < |order|
    ensures r == -1 <==> name !in order
    ensures r >= 0 ==> order[r] == name && forall j :: 0 <= j < r ==> order[j] != name
  {
    if name in order then IndexOf(order, name) else -1
  }

  /** Ranks never decrease along `s`. */
  predicate SortedByRank<K(==), V>(order: seq<K>, s: seq<(K, V)>)
  {
    forall i, j :: 0 <= i < j < |s| ==> Rank(order, s[i].0) <= Rank(order, s[j].0)
  }

  /** The pairs of `s` of rank `r`, in their order in `s`. */
  function WithRank<K(==), V>(order: seq<K>, s: seq<(K, V)>, r: int): (f: seq<(K, V)>)
    ensures forall x :: x in f ==> x in s && Rank(order, x.0) == r
  {
    if |s| == 0 then []
    else (if Rank(order, s[0].0) == r then [s[0]] else []) + WithRank(order, s[1..], r)
  }

  /** Inserts `x` before the first element of `t` whose rank is not below its own. */
  function Insert<K(==), V>(order: seq<K>, x: (K, V), t: seq<(K, V)>): (r: seq<(K, V)>)
  {
    if |t| == 0 || Rank(order, x.0) <= Rank(order, t[0].0) then [x] + t
    else [t[0]] + Insert(order, x, t[1..])
  }

  /** Insertion sort by rank. */
  function Sort<K(==), V>(order: seq<K>, s: seq<(K, V)>): (r: seq<(K, V)>)
  {
    if |s| == 0 then [] else Insert(order, s[0], Sort(order, s[1..]))
  }

  lemma {:induction false} InsertPermutes<K, V>(order: seq<K>, x: (K, V), t: seq<(K, V)>)
    ensures multiset(Insert(order, x, t)) == multiset(t) + multiset{x}
  {
    if |t| > 0 && Rank(order, x.0) > Rank(order, t[0].0) {
      InsertPermutes(order, x, t[1..]);
      assert t == [t[0]] + t[1..];
    }
  }

  /** Sorting rearranges the pairs: nothing is added, dropped or altered. */
  lemma {:induction false} SortPermutes<K, V>(order: seq<K>, s: seq<(K, V)>)
    ensures multiset(Sort(order, s)) == multiset(s)
  {
    if |s| > 0 {
      assert multiset(s) == multiset(s[1..]) + multiset{s[0]} by {
        assert s == [s[0]] + s[1..];
      }
      SortPermutes(order, s[1..]);
      InsertPermutes(order, s[0], Sort(order, s[1..]));
    }
  }

  lemma {:induction false} InsertSorted<K, V>(order: seq<K>, x: (K, V), t: seq<(K, V)>)
    requires SortedByRank(order, t)
    ensures SortedByRank(order, Insert(order, x, t))
    ensures Insert(order, x, t)[0] == x || (|t| > 0 && Insert(order, x, t)[0] == t[0])
  {
    if |t| > 0 && Rank(order, x.0) > Rank(order, t[0].0) {
      var t' := t[1..];
      InsertSorted(order, x, t');
      var ins := Insert(order, x, t');
      assert Rank(order, t[0].0) <= Rank(order, ins[0].0);
      var r := Insert(order, x, t);
      assert r == [t[0]] + ins;
      forall i, j | 0 <= i < j < |r|
        ensures Rank(order, r[i].0) <= Rank(order, r[j].0)
      {
        if i == 0 && j > 1 {
          assert Rank(order, ins[0].0) <= Rank(order, ins[j - 1].0);
        }
      }
    }
  }

  /** Sorting orders the pairs by rank. */
  lemma {:induction false} SortSorted<K, V>(order: seq<K>, s: seq<(K, V)>)
    ensures SortedByRank(order, Sort(order, s))
  {
    if |s| > 0 {
      SortSorted(order, s[1..]);
      InsertSorted(order, s[0], Sort(order, s[1..]));
    }
  }

  lemma {:induction false} WithRankInsert<K, V>(order: seq<K>, x: (K, V), t: seq<(K, V)>, r: int)
    ensures WithRank(order, Insert(order, x, t), r)
         == (if Rank(order, x.0) == r then [x] else []) + WithRank(order, t, r)
  {
    if |t| > 0 && Rank(order, x.0) > Rank(order, t[0].0) {
      WithRankInsert(order, x, t[1..], r);
    }
  }

  /** The sort is stable: pairs of equal rank keep their relative order. */
  lemma {:induction false} SortStable<K, V>(order: seq<K>, s: seq<(K, V)>, r: int)
    ensures WithRank(order, Sort(order, s), r) == WithRank(order, s, r)
  {
    if |s| > 0 {
      SortStable(order, s[1..], r);
      WithRankInsert(order, s[0], Sort(order, s[1..]), r);
    }
  }

  /** In a rank-sorted sequence the first pair has the least rank. */
  lemma FirstHasLeastRank<K, V>(order: seq<K>, s: seq<(K, V)>, x: (K, V))
    requires SortedByRank(order, s) && x in s
    ensures Rank(order, s[0].0) <= Rank(order, x.0)
  {
    var k :| 0 <= k < |s| && s[k] == x;
    if k > 0 {
      assert Rank(order, s[0].0) <= Rank(order, s[k].0);
    }
  }

  lemma WithRankCons<K, V>(order: seq<K>, s: seq<(K, V)>, r: int)
    requires |s| > 0
    ensures Rank(order, s[0].0) == r ==> WithRank(order, s, r) == [s[0]] + WithRank(order, s[1..], r)
    ensures Rank(order, s[0].0) != r ==> WithRank(order, s, r) == WithRank(order, s[1..], r)
  {
  }

  /** A non-empty sequence has pairs of the rank of its first pair. */
  lemma NonEmptyHasOwnRank<K, V>(order: seq<K>, s: seq<(K, V)>)
    ensures |s| > 0 ==> WithRank(order, s, Rank(order, s[0].0)) != []
  {
  }

  lemma SortedTail<K, V>(order: seq<K>, s: seq<(K, V)>)
    requires SortedByRank(order, s) && |s| > 0
    ensures SortedByRank(order, s[1..])
  {
    forall i, j | 0 <= i < j < |s| - 1
      ensures Rank(order, s[1..][i].0) <= Rank(order, s[1..][j].0)
    {
      assert s[1..][i] == s[i + 1] && s[1..][j] == s[j + 1];
    }
  }

  /** Two rank-sorted sequences with the same pairs of every rank, in the same order,
      are equal: a stable sort by rank has exactly one possible result. */
  lemma {:induction false} SortedWithSameRanksEqual<K, V>(order: seq<K>, a: seq<(K, V)>, b: seq<(K, V)>)
    requires SortedByRank(order, a) && SortedByRank(order, b)
    requires forall r :: WithRank(order, a, r) == WithRank(order, b, r)
    ensures a == b
    decreases |a| + |b|
  {
    if |a| == 0 {
      NonEmptyHasOwnRank(order, b);
    } else if |b| == 0 {
      NonEmptyHasOwnRank(order, a);
    } else {
      var ra := Rank(order, a[0].0);
      var rb := Rank(order, b[0].0);
      WithRankCons(order, a, ra);
      WithRankCons(order, b, rb);
      assert WithRank(order, b, ra)[0] in b;
      FirstHasLeastRank(order, b, WithRank(order, b, ra)[0]);
      assert WithRank(order, a, rb)[0] in a;
      FirstHasLeastRank(order, a, WithRank(order, a, rb)[0]);
      assert ra == rb;
      assert a[0] == b[0] by {
        assert WithRank(order, a, ra)[0] == a[0];
        assert WithRank(order, b, ra)[0] == b[0];
      }
      forall r
        ensures WithRank(order, a[1..], r) == WithRank(order, b[1..], r)
      {
        WithRankCons(order, a, r);
        WithRankCons(order, b, r);
        assert WithRank(order, a, r) == WithRank(order, b, r);
        if ra == r {
          assert WithRank(order, a, r)[1..] == WithRank(order, a[1..], r);
          assert WithRank(order, b, r)[1..] == WithRank(order, b[1..], r);
        }
      }
      SortedTail(order, a);
      SortedTail(order, b);
      SortedWithSameRanksEqual(order, a[1..], b[1..]);
      assert a == [a[0]] + a[1..] && b == [b[0]] + b[1..];
    }
  }

  /** Every sequence that is sorted by rank and keeps the input's order among pairs of
      equal rank is the output of `Sort`. */
  lemma SortUnique<K, V>(order: seq<K>, s: seq<(K, V)>, t: seq<(K, V)>)
    requires SortedByRank(order, t)
    requires forall r :: WithRank(order, t, r) == WithRank(order, s, r)
    ensures t == Sort(order, s)
  {
    SortSorted(order, s);
    forall r ensures WithRank(order, Sort(order, s), r) == WithRank(order, t, r) {
      SortStable(order, s, r);
    }
    SortedWithSameRanksEqual(order, Sort(order, s), t);
  }

  /** Sorting an already sorted sequence changes nothing; in particular sorting is idempotent. */
  lemma SortIdempotent<K, V>(order: seq<K>, s: seq<(K, V)>)
    ensures SortedByRank(order, s) ==> Sort(order, s) == s
    ensures Sort(order, Sort(order, s)) == Sort(order, s)
  {
    if SortedByRank(order, s) {
      SortUnique(order, s, s);
    }
    SortSorted(order, s);
    SortUnique(order, Sort(order, s), Sort(order, s));
  }

  /** The keys after inserting `x` are those of `t` and the key of `x`. */
  lemma {:induction false} InsertKeys<K, V>(order: seq<K>, x: (K, V), t: seq<(K, V)>, k: K)
    ensures k in Keys(Insert(order, x, t)) <==> k == x.0 || k in Keys(t)
  {
    if |t| > 0 && Rank(order, x.0) > Rank(order, t[0].0) {
      InsertKeys(order, x, t[1..], k);
      KeysCons(t[0], Insert(order, x, t[1..]));
      KeysCons(t[0], t[1..]);
      assert t == [t[0]] + t[1..];
    } else {
      KeysCons(x, t);
    }
  }

  lemma {:induction false} InsertUniqueKeys<K, V>(order: seq<K>, x: (K, V), t: seq<(K, V)>)
    requires UniqueKeys(t) && x.0 !in Keys(t)
    ensures UniqueKeys(Insert(order, x, t))
  {
    if |t| > 0 && Rank(order, x.0) > Rank(order, t[0].0) {
      var t' := t[1..];
      assert t == [t[0]] + t';
      UniqueKeysCons(t[0], t');
      KeysCons(t[0], t');
      InsertUniqueKeys(order, x, t');
      InsertKeys(order, x, t', t[0].0);
      UniqueKeysCons(t[0], Insert(order, x, t'));
    } else {
      UniqueKeysCons(x, t);
    }
  }

  /** Sorting a dict's items keeps every name unique. */
  lemma {:induction false} SortUniqueKeys<K, V>(order: seq<K>, s: seq<(K, V)>)
    requires UniqueKeys(s)
    ensures UniqueKeys(Sort(order, s))
  {
    if |s| > 0 {
      var s' := s[1..];
      assert s == [s[0]] + s';
      UniqueKeysCons(s[0], s');
      SortUniqueKeys(order, s');
      SortKeys(order, s', s[0].0);
      InsertUniqueKeys(order, s[0], Sort(order, s'));
    }
  }

  /** Sorting keeps the set of names. */
  lemma {:induction false} SortKeys<K, V>(order: seq<K>, s: seq<(K, V)>, k: K)
    ensures k in Keys(Sort(order, s)) <==> k in Keys(s)
  {
    if |s| > 0 {
      SortKeys(order, s[1..], k);
      InsertKeys(order, s[0], Sort(order, s[1..]), k);
      KeysCons(s[0], s[1..]);
      assert s == [s[0]] + s[1..];
    }
  }

  /** In a rank-sorted sequence an unlisted name is never preceded by a listed one. */
  lemma UnlistedFirst<K, V>(order: seq<K>, s: seq<(K, V)>)
    requires SortedByRank(order, s)
    ensures forall i, j :: 0 <= i < j < |s| && s[j].0 !in order ==> s[i].0 !in order
  {
    forall i, j | 0 <= i < j < |s| && s[j].0 !in order
      ensures s[i].0 !in order
    {
      assert Rank(order, s[i].0) <= Rank(order, s[j].0);
    }
  }

  /** In a rank-sorted sequence with unique names, listed names appear at strictly
      increasing positions of the order. */
  lemma ListedStrictlyIncreasing<K, V>(order: seq<K>, s: seq<(K, V)>)
    requires SortedByRank(order, s) && UniqueKeys(s)
    ensures forall i, j :: 0 <= i < j < |s| && s[i].0 in order ==>
              IndexOf(order, s[i].0) < IndexOf(order, s[j].0)
  {
    forall i, j | 0 <= i < j < |s| && s[i].0 in order
      ensures IndexOf(order, s[i].0) < IndexOf(order, s[j].0)
    {
      assert Rank(order, s[i].0) <= Rank(order, s[j].0);
      assert Keys(s)[i] != Keys(s)[j];
    }
  }
}
