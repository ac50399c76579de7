/** The ordering step of the engine: `result.sort((a, b) => b.totalScore -
    a.totalScore)`. Array.prototype.sort is required to be stable since the
    10th edition of ECMA-262 (section 22.1.3.27), so the comparator sorts by
    total, highest first, and entries with equal totals keep their input
    order. The library's algorithm is not visible; it is modelled by a stable
    insertion sort, and StableSortIsUnique shows that any stable
    non-increasing arrangement is this one. */
module Ranking {
  import opened Types

  /** Totals never increase along the sequence. */
  ghost predicate NonIncreasing(s: seq<WeightedScore>) {
    forall i, j :: 0 <= i < j < |s| ==> s[i].totalScore >= s[j].totalScore
  }

  /** The entries whose total is t, in their order in s. */
  function WithTotal(s: seq<WeightedScore>, t: int): seq<WeightedScore>
  {
    if s == [] then []
    else (if s[0].totalScore == t then [s[0]] else []) + WithTotal(s[1..], t)
  }

  /** `sorted` is s sorted by total, highest first, and stable: for every
      total, the entries carrying it appear in the same order as in s. */
  ghost predicate IsStableSortOf(sorted: seq<WeightedScore>, s: seq<WeightedScore>) {
    NonIncreasing(sorted) && forall t :: WithTotal(sorted, t) == WithTotal(s, t)
  }

  /** Inserts x after every entry whose total is at least x's. */
  function Insert(x: WeightedScore, s: seq<WeightedScore>): seq<WeightedScore>
  {
    if s == [] then [x]
    else if s[0].totalScore >= x.totalScore then [s[0]] + Insert(x, s[1..])
    else [x] + s
  }

  /** Stable sort by total, highest first. */
  function SortByTotal(s: seq<WeightedScore>): seq<WeightedScore>
  {
    if s == [] then [] else Insert(s[|s| - 1], SortByTotal(s[..|s| - 1]))
  }

  function Ids(s: seq<WeightedScore>): seq<string>
  {
    seq(|s|, i requires 0 <= i < |s| => s[i].alternativeId)
  }

  lemma {:induction false} WithTotalAppend(a: seq<WeightedScore>, b: seq<WeightedScore>, t: int)
    ensures WithTotal(a + b, t) == WithTotal(a, t) + WithTotal(b, t)
  {
    if a == [] {
      assert a + b == b;
    } else {
      assert (a + b)[1..] == a[1..] + b;
      WithTotalAppend(a[1..], b, t);
    }
  }

  lemma {:induction false} WithTotalMembers(s: seq<WeightedScore>, t: int, x: WeightedScore)
    ensures x in WithTotal(s, t) <==> x in s && x.totalScore == t
  {
    if s != [] {
      WithTotalMembers(s[1..], t, x);
      assert s == [s[0]] + s[1..];
    }
  }

  lemma {:induction false} WithTotalNone(s: seq<WeightedScore>, t: int)
    requires forall i :: 0 <= i < |s| ==> s[i].totalScore != t
    ensures WithTotal(s, t) == []
  {
    if s != [] {
      WithTotalNone(s[1..], t);
    }
  }

  lemma {:induction false} InsertLength(x: WeightedScore, s: seq<WeightedScore>)
    ensures |Insert(x, s)| == |s| + 1
    ensures multiset(Insert(x, s)) == multiset(s) + multiset{x}
  {
    if s != [] && s[0].totalScore >= x.totalScore {
      InsertLength(x, s[1..]);
      assert s == [s[0]] + s[1..];
    }
  }

  lemma IdsCons(h: WeightedScore, t: seq<WeightedScore>)
    ensures Ids([h] + t) == [h.alternativeId] + Ids(t)
    ensures multiset(Ids([h] + t)) == multiset{h.alternativeId} + multiset(Ids(t))
  {
    assert Ids([h] + t) == [h.alternativeId] + Ids(t);
  }

  lemma {:induction false} InsertIds(x: WeightedScore, s: seq<WeightedScore>)
    ensures multiset(Ids(Insert(x, s))) == multiset(Ids(s)) + multiset{x.alternativeId}
  {
    if s == [] {
      assert Ids([x]) == [x.alternativeId];
    } else if s[0].totalScore >= x.totalScore {
      InsertIds(x, s[1..]);
      IdsCons(s[0], Insert(x, s[1..]));
      assert [s[0]] + s[1..] == s;
      IdsCons(s[0], s[1..]);
    } else {
      IdsCons(x, s);
    }
  }

  lemma {:induction false} InsertSorted(x: WeightedScore, s: seq<WeightedScore>)
    requires NonIncreasing(s)
    ensures NonIncreasing(Insert(x, s))
  {
    if s != [] && s[0].totalScore >= x.totalScore {
      var rest := Insert(x, s[1..]);
      InsertSorted(x, s[1..]);
      InsertLength(x, s[1..]);
      forall k | 0 <= k < |rest| ensures s[0].totalScore >= rest[k].totalScore {
        assert rest[k] in multiset(rest);
        assert rest[k] in s[1..] || rest[k] == x;
      }
      assert Insert(x, s) == [s[0]] + rest;
    }
  }

  lemma WithTotalCons(h: WeightedScore, s: seq<WeightedScore>, t: int)
    ensures WithTotal([h] + s, t) == (if h.totalScore == t then [h] else []) + WithTotal(s, t)
  {
    assert ([h] + s)[1..] == s;
  }

  lemma TailNonIncreasing(s: seq<WeightedScore>)
    requires s != [] && NonIncreasing(s)
    ensures NonIncreasing(s[1..])
  {
    forall i, j | 0 <= i < j < |s| - 1 ensures s[1..][i].totalScore >= s[1..][j].totalScore {
      assert s[1..][i] == s[i + 1] && s[1..][j] == s[j + 1];
    }
  }

  lemma {:induction false} InsertWithTotal(x: WeightedScore, s: seq<WeightedScore>, t: int)
    requires NonIncreasing(s)
    ensures WithTotal(Insert(x, s), t) == WithTotal(s, t) + WithTotal([x], t)
  {
    assert WithTotal([x], t) == (if x.totalScore == t then [x] else []) by {
      WithTotalCons(x, [], t);
      assert [x] + [] == [x];
    }
    if s == [] {
    } else if s[0].totalScore >= x.totalScore {
      TailNonIncreasing(s);
      InsertWithTotal(x, s[1..], t);
      WithTotalCons(s[0], Insert(x, s[1..]), t);
      WithTotalCons(s[0], s[1..], t);
      assert [s[0]] + s[1..] == s;
    } else {
      WithTotalCons(x, s, t);
      if t == x.totalScore {
        forall i | 0 <= i < |s| ensures s[i].totalScore != t {
          assert i == 0 || s[0].totalScore >= s[i].totalScore;
        }
        WithTotalNone(s, t);
      }
    }
  }

  lemma {:induction false} SortPermutes(s: seq<WeightedScore>)
    ensures multiset(SortByTotal(s)) == multiset(s)
  {
    if s != [] {
      var init, last := s[..|s| - 1], s[|s| - 1];
      var sorted := SortByTotal(init);
      SortPermutes(init);
      InsertLength(last, sorted);
      assert multiset(s) == multiset(init) + multiset{last} by {
        assert s == init + [last];
      }
    }
  }

  lemma {:induction false} SortIds(s: seq<WeightedScore>)
    ensures multiset(Ids(SortByTotal(s))) == multiset(Ids(s))
  {
    if s != [] {
      var init, last := s[..|s| - 1], s[|s| - 1];
      SortIds(init);
      InsertIds(last, SortByTotal(init));
      assert Ids(s) == Ids(init) + [last.alternativeId];
    }
  }

  lemma {:induction false} SortSorted(s: seq<WeightedScore>)
    ensures NonIncreasing(SortByTotal(s))
  {
    if s != [] {
      var init, last := s[..|s| - 1], s[|s| - 1];
      SortSorted(init);
      InsertSorted(last, SortByTotal(init));
    }
  }

  lemma {:induction false} SortKeepsTies(s: seq<WeightedScore>, t: int)
    ensures WithTotal(SortByTotal(s), t) == WithTotal(s, t)
  {
    if s != [] {
      var init, last := s[..|s| - 1], s[|s| - 1];
      SortKeepsTies(init, t);
      SortSorted(init);
      InsertWithTotal(last, SortByTotal(init), t);
      WithTotalAppend(init, [last], t);
      assert s == init + [last];
    }
  }

  /** The sort is a permutation of its input, non-increasing in total, and
      stable. */
  lemma SortIsStable(s: seq<WeightedScore>)
    ensures |SortByTotal(s)| == |s|
    ensures multiset(SortByTotal(s)) == multiset(s)
    ensures multiset(Ids(SortByTotal(s))) == multiset(Ids(s))
    ensures IsStableSortOf(SortByTotal(s), s)
  {
    SortPermutes(s);
    assert |SortByTotal(s)| == |multiset(SortByTotal(s))|;
    SortIds(s);
    SortSorted(s);
    forall t ensures WithTotal(SortByTotal(s), t) == WithTotal(s, t) {
      SortKeepsTies(s, t);
    }
  }

  lemma SomeTotalPresent(s: seq<WeightedScore>)
    requires s != []
    ensures exists t :: WithTotal(s, t) != []
  {
    assert WithTotal(s, s[0].totalScore) != [];
  }

  /** In a non-increasing arrangement the first total is the largest, so it
      is at least the first total of any arrangement of the same entries. */
  lemma HeadAtLeast(a: seq<WeightedScore>, b: seq<WeightedScore>)
    requires a != [] && b != [] && NonIncreasing(a)
    requires forall t :: WithTotal(a, t) == WithTotal(b, t)
    ensures a[0].totalScore >= b[0].totalScore
  {
    var kb := b[0].totalScore;
    WithTotalMembers(a, kb, b[0]);
    WithTotalMembers(b, kb, b[0]);
    var i :| 0 <= i < |a| && a[i] == b[0];
  }

  /** Two stable, non-increasing arrangements of the same non-empty entries
      start with the same entry. */
  lemma HeadsAgree(a: seq<WeightedScore>, b: seq<WeightedScore>)
    requires a != [] && b != []
    requires NonIncreasing(a) && NonIncreasing(b)
    requires forall t :: WithTotal(a, t) == WithTotal(b, t)
    ensures a[0] == b[0]
  {
    var k := a[0].totalScore;
    HeadAtLeast(a, b);
    HeadAtLeast(b, a);
    assert WithTotal(a, k) == [a[0]] + WithTotal(a[1..], k);
    assert WithTotal(b, k) == [b[0]] + WithTotal(b[1..], k);
  }

  /** Dropping a common first entry keeps the per-total subsequences
      equal. */
  lemma TailsAgree(a: seq<WeightedScore>, b: seq<WeightedScore>, t: int)
    requires a != [] && b != [] && a[0] == b[0]
    requires WithTotal(a, t) == WithTotal(b, t)
    ensures WithTotal(a[1..], t) == WithTotal(b[1..], t)
  {
    if t == a[0].totalScore {
      assert WithTotal(a[1..], t) == WithTotal(a, t)[1..];
      assert WithTotal(b[1..], t) == WithTotal(b, t)[1..];
    } else {
      assert WithTotal(a, t) == WithTotal(a[1..], t);
      assert WithTotal(b, t) == WithTotal(b[1..], t);
    }
  }

  /** Two stable, non-increasing arrangements of the same entries are equal:
      the comparator and stability leave the library no freedom. */
  lemma {:induction false} StableSortIsUnique(a: seq<WeightedScore>, b: seq<WeightedScore>)
    requires NonIncreasing(a) && NonIncreasing(b)
    requires forall t :: WithTotal(a, t) == WithTotal(b, t)
    ensures a == b
  {
    if a == [] || b == [] {
      if a != [] || b != [] {
        SomeTotalPresent(if a == [] then b else a);
        assert false;
      }
    } else {
      HeadsAgree(a, b);
      forall t ensures WithTotal(a[1..], t) == WithTotal(b[1..], t) {
        TailsAgree(a, b, t);
      }
      StableSortIsUnique(a[1..], b[1..]);
      assert a == [a[0]] + a[1..] && b == [b[0]] + b[1..];
    }
  }

  /** SortByTotal is the only stable sort by total, highest first. */
  lemma StableSortOfIsSortByTotal(sorted: seq<WeightedScore>, s: seq<WeightedScore>)
    requires IsStableSortOf(sorted, s)
    ensures sorted == SortByTotal(s)
  {
    SortIsStable(s);
    StableSortIsUnique(sorted, SortByTotal(s));
  }

  /** Two entries with equal totals stay in input order. */
  lemma SortTieOfTwo(x: WeightedScore, y: WeightedScore)
    requires x.totalScore == y.totalScore
    ensures SortByTotal([x, y]) == [x, y]
  {
    assert [x, y][..1] == [x];
    assert [x][..0] == [];
    assert SortByTotal([x]) == [x];
    assert Insert(y, [x]) == [x] + Insert(y, []);
  }
}
