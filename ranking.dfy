/**
 * The ranking shown at the end of a round: the roster sorted by total score,
 * highest first, by a stable sort, so players with equal scores keep the
 * order in which they were added.
 */
module Ranking {

  /** An item paired with the score the sort compares. */
  datatype Entry<T> = Entry(item: T, score: int)

  /** Non-increasing scores from left to right. */
  predicate SortedDesc<T>(s: seq<Entry<T>>)
  {
    forall i, j :: 0 <= i < j < |s| ==> s[i].score >= s[j].score
  }

  /** The entries of s whose score is k, in the order they occur in s. */
  function WithScore<T>(s: seq<Entry<T>>, k: int): (r: seq<Entry<T>>)
    ensures |r| <= |s|
    ensures forall x :: x in r ==> x in s && x.score == k
  {
    if s == [] then []
    else (if s[0].score == k then [s[0]] else []) + WithScore(s[1..], k)
  }

  /** s and r hold, for every score, the same entries in the same order. */
  ghost predicate SameTies<T>(s: seq<Entry<T>>, r: seq<Entry<T>>)
  {
    forall k :: WithScore(s, k) == WithScore(r, k)
  }

  /** The items of s, in order. */
  function Items<T>(s: seq<Entry<T>>): (r: seq<T>)
    ensures |r| == |s|
    ensures forall i :: 0 <= i < |s| ==> r[i] == s[i].item
  {
    if s == [] then [] else [s[0].item] + Items(s[1..])
  }

  lemma ItemsAppend<T>(a: seq<Entry<T>>, b: seq<Entry<T>>)
    ensures Items(a + b) == Items(a) + Items(b)
  {
  }

  /** Places e before the first entry whose score does not exceed e's. */
  function Insert<T>(e: Entry<T>, r: seq<Entry<T>>): (s: seq<Entry<T>>)
  {
    if r == [] || r[0].score <= e.score then [e] + r
    else [r[0]] + Insert(e, r[1..])
  }

  /**
   * Stable sort by descending score (insertion sort). Any stable sort with the
   * comparator `(a, b) => b.score - a.score` gives this same sequence; see
   * RankIsTheStableSort.
   */
  function Rank<T>(s: seq<Entry<T>>): (r: seq<Entry<T>>)
  {
    if s == [] then [] else Insert(s[0], Rank(s[1..]))
  }

  lemma ConsSorted<T>(x: Entry<T>, s: seq<Entry<T>>)
    requires SortedDesc(s) && (s == [] || x.score >= s[0].score)
    ensures SortedDesc([x] + s)
  {
    forall i, j | 0 <= i < j < |[x] + s| ensures ([x] + s)[i].score >= ([x] + s)[j].score {
      if i == 0 && j > 1 {
        assert s[0].score >= s[j - 1].score;
      }
    }
  }

  lemma {:induction false} InsertSorted<T>(e: Entry<T>, r: seq<Entry<T>>)
    requires SortedDesc(r)
    ensures SortedDesc(Insert(e, r))
    ensures Insert(e, r)[0] == e || Insert(e, r)[0] == r[0]
  {
    if r == [] || r[0].score <= e.score {
      ConsSorted(e, r);
    } else {
      var rest := Insert(e, r[1..]);
      InsertSorted(e, r[1..]);
      assert |r| > 1 ==> r[0].score >= r[1].score;
      ConsSorted(r[0], rest);
    }
  }

  lemma {:induction false} InsertPermutation<T>(e: Entry<T>, r: seq<Entry<T>>)
    ensures multiset(Insert(e, r)) == multiset(r) + multiset{e}
  {
    if r != [] && r[0].score > e.score {
      InsertPermutation(e, r[1..]);
      assert r == [r[0]] + r[1..];
    }
  }

  lemma {:induction false} InsertTies<T>(e: Entry<T>, r: seq<Entry<T>>, k: int)
    ensures WithScore(Insert(e, r), k) == (if e.score == k then [e] else []) + WithScore(r, k)
  {
    if r == [] || r[0].score <= e.score {
      assert ([e] + r)[1..] == r;
    } else {
      var rest := Insert(e, r[1..]);
      InsertTies(e, r[1..], k);
      assert ([r[0]] + rest)[1..] == rest;
      var w := WithScore([r[0]] + rest, k);
      assert w == (if r[0].score == k then [r[0]] else []) + WithScore(rest, k);
      if e.score == k {
        assert r[0].score != k;
        assert WithScore(r, k) == WithScore(r[1..], k);
      } else {
        assert WithScore(rest, k) == WithScore(r[1..], k);
      }
    }
  }

  lemma {:induction false} RankProperties<T>(s: seq<Entry<T>>)
    ensures SortedDesc(Rank(s))
    ensures multiset(Rank(s)) == multiset(s)
    ensures SameTies(Rank(s), s)
  {
    if s != [] {
      RankProperties(s[1..]);
      InsertSorted(s[0], Rank(s[1..]));
      InsertPermutation(s[0], Rank(s[1..]));
      forall k ensures WithScore(Rank(s), k) == WithScore(s, k) {
        InsertTies(s[0], Rank(s[1..]), k);
      }
      assert s == [s[0]] + s[1..];
    }
  }

  /** The ranking is ordered by non-increasing score. */
  lemma RankSorted<T>(s: seq<Entry<T>>)
    ensures SortedDesc(Rank(s))
  {
    RankProperties(s);
  }

  /** The ranking is a permutation of its input. */
  lemma RankPermutation<T>(s: seq<Entry<T>>)
    ensures multiset(Rank(s)) == multiset(s)
    ensures |Rank(s)| == |s|
  {
    RankProperties(s);
    assert |multiset(Rank(s))| == |multiset(s)|;
  }

  /** Entries with equal scores keep their relative order (stability). */
  lemma RankStable<T>(s: seq<Entry<T>>)
    ensures SameTies(Rank(s), s)
  {
    RankProperties(s);
  }

  lemma {:induction false} HeadHasScore<T>(s: seq<Entry<T>>)
    requires s != []
    ensures WithScore(s, s[0].score) == [s[0]] + WithScore(s[1..], s[0].score)
  {
  }

  lemma {:induction false} MaxScoreAtHead<T>(s: seq<Entry<T>>, k: int)
    requires SortedDesc(s) && WithScore(s, k) != []
    ensures s != [] && k <= s[0].score
  {
    var x := WithScore(s, k)[0];
    assert x in WithScore(s, k);
    var i :| 0 <= i < |s| && s[i] == x;
    assert i == 0 || s[0].score >= s[i].score;
  }

  /**
   * Sortedness and stability determine the result: two sequences that are
   * both sorted by descending score and agree on the order of every group of
   * equal scores are the same sequence.
   */
  lemma {:induction false} SortedTiesUnique<T>(a: seq<Entry<T>>, b: seq<Entry<T>>)
    requires SortedDesc(a) && SortedDesc(b)
    requires SameTies(a, b)
    ensures a == b
  {
    if a == [] && b == [] {
    } else if a == [] {
      HeadHasScore(b);
    } else if b == [] {
      HeadHasScore(a);
    } else {
      var m := a[0].score;
      HeadHasScore(a);
      HeadHasScore(b);
      MaxScoreAtHead(b, m);
      MaxScoreAtHead(a, b[0].score);
      assert b[0].score == m;
      assert WithScore(a, m)[0] == a[0] && WithScore(b, m)[0] == b[0];
      forall k ensures WithScore(a[1..], k) == WithScore(b[1..], k) {
        if k != m {
          assert WithScore(a, k) == WithScore(a[1..], k);
          assert WithScore(b, k) == WithScore(b[1..], k);
        } else {
          assert WithScore(a, k)[1..] == WithScore(a[1..], k);
          assert WithScore(b, k)[1..] == WithScore(b[1..], k);
        }
      }
      SortedTiesUnique(a[1..], b[1..]);
      assert a == [a[0]] + a[1..];
      assert b == [b[0]] + b[1..];
    }
  }

  /** Every stable descending sort of s yields Rank(s). */
  lemma RankIsTheStableSort<T>(s: seq<Entry<T>>, r: seq<Entry<T>>)
    requires SortedDesc(r) && SameTies(r, s)
    ensures r == Rank(s)
  {
    RankProperties(s);
    SortedTiesUnique(r, Rank(s));
  }

  /** When every score is equal the ranking is the insertion order. */
  lemma AllTiedKeepOrder<T>(s: seq<Entry<T>>, k: int)
    requires forall i :: 0 <= i < |s| ==> s[i].score == k
    ensures Rank(s) == s
  {
    RankIsTheStableSort(s, s);
  }

  lemma {:induction false} InsertItems<T>(e: Entry<T>, r: seq<Entry<T>>)
    ensures multiset(Items(Insert(e, r))) == multiset(Items(r)) + multiset{e.item}
  {
    if r != [] && r[0].score > e.score {
      InsertItems(e, r[1..]);
      assert Items(Insert(e, r)) == [r[0].item] + Items(Insert(e, r[1..]));
      assert Items(r) == [r[0].item] + Items(r[1..]);
    } else {
      assert Items(Insert(e, r)) == [e.item] + Items(r);
    }
  }

  /** The items of the ranking are a permutation of the items ranked. */
  lemma {:induction false} RankItemsPermutation<T>(s: seq<Entry<T>>)
    ensures multiset(Items(Rank(s))) == multiset(Items(s))
  {
    if s != [] {
      RankItemsPermutation(s[1..]);
      InsertItems(s[0], Rank(s[1..]));
      assert Items(s) == [s[0].item] + Items(s[1..]);
    }
  }
}
