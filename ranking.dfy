/** `sorted(grouped_results.items(), key=...)`: a stable sort of
    (album, value) pairs by a rank of the album; the key function is a
    parameter, instantiated with the canonical album order's rank. */
module Ranking {
  import opened Ordering

  /** Ranks never decrease along `s`. */
  predicate Sorted<T>(key: string -> nat, s: seq<(string, T)>) {
    forall i, j | 0 <= i < j < |s| :: key(s[i].0) <= key(s[j].0)
  }

  /** The pairs of `s` whose album has rank `v`, in order. */
  function WithRank<T>(key: string -> nat, s: seq<(string, T)>, v: nat): seq<(string, T)> {
    if s == [] then []
    else (if key(s[0].0) == v then [s[0]] else []) + WithRank(key, s[1..], v)
  }

  /** Puts `x` after every pair whose rank is not above its own. */
  function Insert<T>(key: string -> nat, x: (string, T), s: seq<(string, T)>): seq<(string, T)> {
    if s == [] then [x]
    else if key(x.0) < key(s[0].0) then [x] + s
    else [s[0]] + Insert(key, x, s[1..])
  }

  /** Insertion sort, each pair inserted in its original order. */
  function SortByRank<T>(key: string -> nat, s: seq<(string, T)>): seq<(string, T)> {
    if s == [] then [] else Insert(key, s[|s| - 1], SortByRank(key, s[..|s| - 1]))
  }

  lemma {:induction false} WithRankConcat<T>(key: string -> nat, a: seq<(string, T)>, b: seq<(string, T)>, v: nat)
    ensures WithRank(key, a + b, v) == WithRank(key, a, v) + WithRank(key, b, v)
  {
    if a != [] {
      WithRankConcat(key, a[1..], b, v);
      assert (a + b)[1..] == a[1..] + b;
    } else {
      assert a + b == b;
    }
  }

  lemma {:induction false} WithRankAbove<T>(key: string -> nat, s: seq<(string, T)>, v: nat)
    requires forall i | 0 <= i < |s| :: v < key(s[i].0)
    ensures WithRank(key, s, v) == []
  {
    if s != [] {
      WithRankAbove(key, s[1..], v);
    }
  }

  lemma {:induction false} InsertMultiset<T>(key: string -> nat, x: (string, T), s: seq<(string, T)>)
    ensures multiset(Insert(key, x, s)) == multiset(s) + multiset{x}
  {
    if s != [] && key(x.0) >= key(s[0].0) {
      InsertMultiset(key, x, s[1..]);
      assert s == [s[0]] + s[1..];
    }
  }

  /** The tail of a sorted list is sorted and not below its head. */
  lemma SortedTail<T>(key: string -> nat, s: seq<(string, T)>)
    requires Sorted(key, s) && s != []
    ensures Sorted(key, s[1..])
    ensures forall y | y in s[1..] :: key(s[0].0) <= key(y.0)
  {
    var tail := s[1..];
    assert forall i | 0 <= i < |tail| :: tail[i] == s[i + 1];
  }

  /** A head not above any pair of a sorted list keeps it sorted. */
  lemma SortedCons<T>(key: string -> nat, y: (string, T), s: seq<(string, T)>)
    requires Sorted(key, s)
    requires forall z | z in s :: key(y.0) <= key(z.0)
    ensures Sorted(key, [y] + s)
  {
    var r := [y] + s;
    forall i, j | 0 <= i < j < |r| ensures key(r[i].0) <= key(r[j].0) {
      assert r[j] == s[j - 1];
      if i > 0 {
        assert r[i] == s[i - 1];
      } else {
        assert s[j - 1] in s;
      }
    }
  }

  lemma {:induction false} InsertSorted<T>(key: string -> nat, x: (string, T), s: seq<(string, T)>)
    requires Sorted(key, s)
    ensures Sorted(key, Insert(key, x, s))
    ensures |Insert(key, x, s)| == |s| + 1
    ensures forall i | 0 <= i < |Insert(key, x, s)| :: Insert(key, x, s)[i] == x || Insert(key, x, s)[i] in s
  {
    if s != [] && key(x.0) >= key(s[0].0) {
      var tail := s[1..];
      SortedTail(key, s);
      InsertSorted(key, x, tail);
      var rt := Insert(key, x, tail);
      assert forall y | y in tail :: y in s;
      SortedCons(key, s[0], rt);
    }
  }

  lemma {:induction false} InsertWithRank<T>(key: string -> nat, x: (string, T), s: seq<(string, T)>, v: nat)
    requires Sorted(key, s)
    ensures WithRank(key, Insert(key, x, s), v) == WithRank(key, s, v) + (if key(x.0) == v then [x] else [])
  {
    if s == [] {
    } else if key(x.0) < key(s[0].0) {
      if key(x.0) == v {
        WithRankAbove(key, s, v);
      }
      assert ([x] + s)[1..] == s;
    } else {
      assert Sorted(key, s[1..]);
      InsertWithRank(key, x, s[1..], v);
      assert ([s[0]] + Insert(key, x, s[1..]))[1..] == Insert(key, x, s[1..]);
    }
  }

  /** The result is sorted by rank and a permutation of the input. */
  lemma {:induction false} SortByRankSorted<T>(key: string -> nat, s: seq<(string, T)>)
    ensures Sorted(key, SortByRank(key, s))
    ensures multiset(SortByRank(key, s)) == multiset(s)
  {
    if s != [] {
      var init := s[..|s| - 1];
      SortByRankSorted(key, init);
      InsertSorted(key, s[|s| - 1], SortByRank(key, init));
      InsertMultiset(key, s[|s| - 1], SortByRank(key, init));
      assert s == init + [s[|s| - 1]];
    }
  }

  /** Stability: the pairs of each rank keep their original order. */
  lemma {:induction false} SortByRankStable<T>(key: string -> nat, s: seq<(string, T)>, v: nat)
    ensures WithRank(key, SortByRank(key, s), v) == WithRank(key, s, v)
  {
    if s != [] {
      var init, last := s[..|s| - 1], s[|s| - 1];
      assert s == init + [last];
      var tail := if key(last.0) == v then [last] else [];
      assert SortByRank(key, s) == Insert(key, last, SortByRank(key, init));
      SortByRankStable(key, init, v);
      SortByRankSorted(key, init);
      InsertWithRank(key, last, SortByRank(key, init), v);
      WithRankConcat(key, init, [last], v);
      assert WithRank(key, [last], v) == tail by {
        assert [last][1..] == [];
      }
    }
  }

  /** Pairs of equal rank appear in ascending album order. */
  predicate TiesByAlbum<T>(key: string -> nat, s: seq<(string, T)>) {
    forall i, j | 0 <= i < j < |s| && key(s[i].0) == key(s[j].0) :: StrLess(s[i].0, s[j].0)
  }

  /** Albums strictly ascending. */
  predicate AlbumsAscending<T>(s: seq<(string, T)>) {
    forall i, j | 0 <= i < j < |s| :: StrLess(s[i].0, s[j].0)
  }

  lemma InsertTiesFront<T>(key: string -> nat, x: (string, T), s: seq<(string, T)>)
    requires Sorted(key, s) && TiesByAlbum(key, s)
    requires s != [] && key(x.0) < key(s[0].0)
    ensures TiesByAlbum(key, [x] + s)
  {
    var r := [x] + s;
    assert forall k | 0 < k < |r| :: r[k] == s[k - 1];
    assert forall k | 0 < k < |r| :: key(x.0) < key(r[k].0);
  }

  lemma InsertTiesCons<T>(key: string -> nat, x: (string, T), y: (string, T), rt: seq<(string, T)>, tail: seq<(string, T)>)
    requires TiesByAlbum(key, rt) && StrLess(y.0, x.0)
    requires forall z | z in tail :: StrLess(y.0, z.0) || key(y.0) != key(z.0)
    requires forall i | 0 <= i < |rt| :: rt[i] == x || rt[i] in tail
    ensures TiesByAlbum(key, [y] + rt)
  {
    var r := [y] + rt;
    forall i, j | 0 <= i < j < |r| && key(r[i].0) == key(r[j].0) ensures StrLess(r[i].0, r[j].0) {
      assert r[j] == rt[j - 1];
      if i > 0 {
        assert r[i] == rt[i - 1];
      }
    }
  }

  /** The tail of a sorted list with ties in album order is one too, and
      the head is below every later pair of its rank. */
  lemma TiesTail<T>(key: string -> nat, s: seq<(string, T)>)
    requires Sorted(key, s) && TiesByAlbum(key, s) && s != []
    ensures Sorted(key, s[1..]) && TiesByAlbum(key, s[1..])
    ensures forall z | z in s[1..] :: StrLess(s[0].0, z.0) || key(s[0].0) != key(z.0)
  {
    var tail := s[1..];
    assert forall k | 0 <= k < |tail| :: tail[k] == s[k + 1];
    forall z | z in tail ensures StrLess(s[0].0, z.0) || key(s[0].0) != key(z.0) {
      var k :| 0 <= k < |tail| && tail[k] == z;
      assert s[k + 1] == z;
    }
  }

  lemma {:induction false} InsertTies<T>(key: string -> nat, x: (string, T), s: seq<(string, T)>)
    requires Sorted(key, s) && TiesByAlbum(key, s)
    requires forall y | y in s :: StrLess(y.0, x.0)
    ensures TiesByAlbum(key, Insert(key, x, s))
  {
    if s != [] {
      if key(x.0) < key(s[0].0) {
        InsertTiesFront(key, x, s);
      } else {
        var tail := s[1..];
        TiesTail(key, s);
        assert forall y | y in tail :: y in s;
        InsertTies(key, x, tail);
        InsertSorted(key, x, tail);
        assert s[0] in s;
        InsertTiesCons(key, x, s[0], Insert(key, x, tail), tail);
      }
    }
  }

  /** Sorting a list whose albums ascend leaves ties in album order. */
  lemma {:induction false} SortByRankTies<T>(key: string -> nat, s: seq<(string, T)>)
    requires AlbumsAscending(s)
    ensures TiesByAlbum(key, SortByRank(key, s))
  {
    if s != [] {
      var init, last := s[..|s| - 1], s[|s| - 1];
      assert AlbumsAscending(init);
      SortByRankTies(key, init);
      SortByRankSorted(key, init);
      forall y | y in SortByRank(key, init) ensures StrLess(y.0, last.0) {
        assert y in multiset(SortByRank(key, init));
        assert y in init;
        var k :| 0 <= k < |init| && init[k] == y;
        assert s[k] == y;
      }
      InsertTies(key, last, SortByRank(key, init));
    }
  }
}
