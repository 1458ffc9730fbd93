/**
 * Ranking of the collected hits: `hits.sort(reverse=True, key=lambda x: x[0])`.
 * Python's sort is stable, and stays stable with `reverse=True`: hits of equal
 * score keep the order in which they were collected.
 */
module Ranking {
  import opened Catalog

  /** Scores never increase from left to right. */
  predicate NonIncreasing(s: seq<Hit>) {
    forall i, j :: 0 <= i < j < |s| ==> s[i].score >= s[j].score
  }

  /** The hits of `s` whose score is `v`, in the order they appear in `s`. */
  function WithScore(v: int, s: seq<Hit>): seq<Hit> {
    if s == [] then []
    else (if s[0].score == v then [s[0]] else []) + WithScore(v, s[1..])
  }

  /** Puts `h` after every hit of `s` whose score is at least that of `h`. */
  function Insert(h: Hit, s: seq<Hit>): seq<Hit> {
    if s == [] then [h]
    else if s[0].score < h.score then [h] + s
    else [s[0]] + Insert(h, s[1..])
  }

  /** A sort by descending score: each hit in turn is inserted into the sorted prefix. */
  function SortByScore(s: seq<Hit>): seq<Hit>
    decreases |s|
  {
    if s == [] then [] else Insert(s[|s| - 1], SortByScore(s[..|s| - 1]))
  }

  // ---------------------------------------------------------------------------
  // Lemmas

  lemma {:induction false} WithScoreAppend(v: int, a: seq<Hit>, b: seq<Hit>)
    ensures WithScore(v, a + b) == WithScore(v, a) + WithScore(v, b)
    decreases |a|
  {
    if a == [] {
      assert a + b == b;
    } else {
      var h := if a[0].score == v then [a[0]] else [];
      assert (a + b)[0] == a[0] && (a + b)[1..] == a[1..] + b;
      WithScoreAppend(v, a[1..], b);
      assert WithScore(v, a + b) == h + WithScore(v, a[1..] + b);
      assert WithScore(v, a) == h + WithScore(v, a[1..]);
    }
  }

  lemma WithScoreSnoc(p: seq<Hit>, h: Hit)
    ensures forall v :: WithScore(v, p + [h]) == WithScore(v, p) + (if h.score == v then [h] else [])
  {
    forall v ensures WithScore(v, p + [h]) == WithScore(v, p) + (if h.score == v then [h] else []) {
      WithScoreAppend(v, p, [h]);
      assert [h][1..] == [];
    }
  }

  lemma {:induction false} WithScoreMember(v: int, s: seq<Hit>, x: Hit)
    requires x in WithScore(v, s)
    ensures x in s && x.score == v
    decreases |s|
  {
    if s[0] != x || s[0].score != v {
      WithScoreMember(v, s[1..], x);
    }
  }

  lemma {:induction false} WithScoreOfOthers(v: int, s: seq<Hit>)
    requires forall i :: 0 <= i < |s| ==> s[i].score < v
    ensures WithScore(v, s) == []
    decreases |s|
  {
    if s != [] {
      WithScoreOfOthers(v, s[1..]);
    }
  }

  /** Inserting into a sorted list keeps it sorted and appends `h` to the hits of its score. */
  lemma InsertSorts(h: Hit, s: seq<Hit>)
    requires NonIncreasing(s)
    ensures NonIncreasing(Insert(h, s))
    ensures multiset(Insert(h, s)) == multiset(s) + multiset{h}
    ensures forall v :: WithScore(v, Insert(h, s)) == WithScore(v, s) + (if h.score == v then [h] else [])
  {
    InsertMultiset(h, s);
    InsertNonIncreasing(h, s);
    forall v ensures WithScore(v, Insert(h, s)) == WithScore(v, s) + (if h.score == v then [h] else []) {
      InsertWithScore(v, h, s);
    }
  }

  lemma {:induction false} InsertMultiset(h: Hit, s: seq<Hit>)
    ensures multiset(Insert(h, s)) == multiset(s) + multiset{h}
    decreases |s|
  {
    if s == [] {
    } else if s[0].score < h.score {
      assert Insert(h, s) == [h] + s;
    } else {
      InsertMultiset(h, s[1..]);
      assert Insert(h, s) == [s[0]] + Insert(h, s[1..]);
      assert s == [s[0]] + s[1..];
    }
  }

  /** No hit of `s` scores above `m`. */
  predicate AtMost(s: seq<Hit>, m: int) {
    forall i :: 0 <= i < |s| ==> s[i].score <= m
  }

  lemma ConsNonIncreasing(x: Hit, s: seq<Hit>)
    requires NonIncreasing(s) && AtMost(s, x.score)
    ensures NonIncreasing([x] + s)
  {
    var r := [x] + s;
    forall i, j | 0 <= i < j < |r| ensures r[i].score >= r[j].score {
      assert r[j] == s[j - 1];
      if i > 0 {
        assert r[i] == s[i - 1];
      }
    }
  }

  lemma {:induction false} InsertAtMost(h: Hit, s: seq<Hit>, m: int)
    requires AtMost(s, m) && h.score <= m
    ensures AtMost(Insert(h, s), m)
    decreases |s|
  {
    if s != [] && s[0].score >= h.score {
      InsertAtMost(h, s[1..], m);
      var r := Insert(h, s[1..]);
      assert Insert(h, s) == [s[0]] + r;
      assert forall i :: 0 <= i < |r| ==> ([s[0]] + r)[i + 1] == r[i];
    }
  }

  lemma {:induction false} InsertNonIncreasing(h: Hit, s: seq<Hit>)
    requires NonIncreasing(s)
    ensures NonIncreasing(Insert(h, s))
    decreases |s|
  {
    if s == [] {
    } else if s[0].score < h.score {
      assert Insert(h, s) == [h] + s;
      assert AtMost(s, s[0].score);
      ConsNonIncreasing(h, s);
    } else {
      var t := s[1..];
      assert s == [s[0]] + t;
      InsertNonIncreasing(h, t);
      assert AtMost(t, s[0].score);
      InsertAtMost(h, t, s[0].score);
      assert Insert(h, s) == [s[0]] + Insert(h, t);
      ConsNonIncreasing(s[0], Insert(h, t));
    }
  }

  lemma {:induction false} InsertWithScore(v: int, h: Hit, s: seq<Hit>)
    requires NonIncreasing(s)
    ensures WithScore(v, Insert(h, s)) == WithScore(v, s) + (if h.score == v then [h] else [])
    decreases |s|
  {
    if s == [] {
      assert Insert(h, s) == [h];
      assert [h][1..] == [];
    } else if s[0].score < h.score {
      assert Insert(h, s) == [h] + s;
      assert ([h] + s)[1..] == s;
      if h.score == v {
        forall i | 0 <= i < |s| ensures s[i].score < v {
          assert s[0].score >= s[i].score;
        }
        WithScoreOfOthers(v, s);
      }
    } else {
      var t := s[1..];
      InsertWithScore(v, h, t);
      var it := Insert(h, t);
      assert Insert(h, s) == [s[0]] + it;
      assert ([s[0]] + it)[1..] == it;
    }
  }

  /**
   * SortByScore is a stable sort by descending score: the scores are
   * non-increasing, no hit is lost or added, and the hits of any one score
   * keep their relative order.
   */
  lemma {:induction false} SortByScoreSorts(s: seq<Hit>)
    ensures NonIncreasing(SortByScore(s))
    ensures multiset(SortByScore(s)) == multiset(s)
    ensures forall v :: WithScore(v, SortByScore(s)) == WithScore(v, s)
    decreases |s|
  {
    if s != [] {
      var p, h := s[..|s| - 1], s[|s| - 1];
      assert s == p + [h];
      SortByScoreSorts(p);
      InsertSorts(h, SortByScore(p));
      WithScoreSnoc(p, h);
    }
  }

  /** The first hit of a list is the first hit of its own score. */
  lemma WithScoreHead(s: seq<Hit>)
    requires s != []
    ensures WithScore(s[0].score, s) == [s[0]] + WithScore(s[0].score, s[1..])
    ensures forall v :: v != s[0].score ==> WithScore(v, s) == WithScore(v, s[1..])
  {
  }

  lemma {:induction false} HeadIsMaximal(s: seq<Hit>, x: Hit)
    requires NonIncreasing(s) && x in s
    ensures s[0].score >= x.score
  {
    var i :| 0 <= i < |s| && s[i] == x;
    if i > 0 {
      assert s[0].score >= s[i].score;
    }
  }

  /** Two sorted lists that agree on the hits of every score start with the same hit. */
  lemma SameHead(a: seq<Hit>, b: seq<Hit>)
    requires NonIncreasing(a) && NonIncreasing(b) && a != [] && b != []
    requires forall v :: WithScore(v, a) == WithScore(v, b)
    ensures a[0] == b[0]
  {
    var m, m' := a[0].score, b[0].score;
    WithScoreHead(a);
    WithScoreHead(b);
    var x, y := WithScore(m, a)[0], WithScore(m', b)[0];
    assert WithScore(m, b) == WithScore(m, a);
    WithScoreMember(m, b, x);
    HeadIsMaximal(b, x);
    assert WithScore(m', a) == WithScore(m', b);
    WithScoreMember(m', a, y);
    HeadIsMaximal(a, y);
    assert WithScore(m, a) == WithScore(m, b);
  }

  /** Removing the same first hit from both keeps the agreement on every score. */
  lemma SameTails(a: seq<Hit>, b: seq<Hit>)
    requires a != [] && b != [] && a[0] == b[0]
    requires forall v :: WithScore(v, a) == WithScore(v, b)
    ensures forall v :: WithScore(v, a[1..]) == WithScore(v, b[1..])
  {
    WithScoreHead(a);
    WithScoreHead(b);
    forall v ensures WithScore(v, a[1..]) == WithScore(v, b[1..]) {
      assert WithScore(v, a) == WithScore(v, b);
      if v == a[0].score {
        assert WithScore(v, a[1..]) == WithScore(v, a)[1..];
        assert WithScore(v, b[1..]) == WithScore(v, b)[1..];
      }
    }
  }

  /**
   * A stable descending sort has only one possible outcome: two sorted lists
   * that agree on the order of the hits of every score are equal.
   */
  lemma {:induction false} StableSortUnique(a: seq<Hit>, b: seq<Hit>)
    requires NonIncreasing(a) && NonIncreasing(b)
    requires forall v :: WithScore(v, a) == WithScore(v, b)
    ensures a == b
    decreases |a|
  {
    if a == [] && b == [] {
    } else if a == [] {
      WithScoreHead(b);
    } else if b == [] {
      WithScoreHead(a);
    } else {
      SameHead(a, b);
      SameTails(a, b);
      StableSortUnique(a[1..], b[1..]);
      assert a == [a[0]] + a[1..] && b == [b[0]] + b[1..];
    }
  }

  /** Any stable descending sort of `s`, whatever its algorithm, returns SortByScore(s). */
  lemma StableSortIsSortByScore(s: seq<Hit>, r: seq<Hit>)
    requires NonIncreasing(r)
    requires forall v :: WithScore(v, r) == WithScore(v, s)
    ensures r == SortByScore(s)
  {
    SortByScoreSorts(s);
    StableSortUnique(r, SortByScore(s));
  }
}
