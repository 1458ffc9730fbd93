/**
 * The syllabus matcher `search_syllabus`: score every catalog entry against
 * the tokens of a query by weighted keyword overlap (its own keywords and
 * those of each subtopic), keep the entries whose score is non-zero, rank
 * them by descending score (ties in catalog order) and return the first eight.
 */
module Search {
  import opened Tokenizer
  import opened Catalog
  import opened Ranking

  /** At most this many matches are returned. */
  const MaxResults: nat := 8

  // ---------------------------------------------------------------------------
  // Specification

  /** `sum(weight for t in q if t in toks)`, accumulated left to right. */
  function SumWeights(q: seq<string>, toks: seq<string>, w: int): int {
    if q == [] then 0
    else SumWeights(q[..|q| - 1], toks, w) + (if q[|q| - 1] in toks then w else 0)
  }

  /** The number of positions of `q` whose token occurs in `toks`. */
  function MatchCount(q: seq<string>, toks: seq<string>): (n: nat)
    ensures n <= |q|
  {
    if q == [] then 0
    else MatchCount(q[..|q| - 1], toks) + (if q[|q| - 1] in toks then 1 else 0)
  }

  /** The positions of `q` whose token occurs in `toks`. */
  function MatchPositions(q: seq<string>, toks: seq<string>): set<nat> {
    set i: nat | i < |q| && q[i] in toks
  }

  /** `tokenize(" ".join(entry.get("keywords", [])))` */
  function EntryTokens(e: Entry): seq<string> {
    Tokenize(Join(Keywords(e)))
  }

  /** `tokenize(" ".join(sub.get("keywords", [])))` */
  function SubTokens(sub: Subtopic): seq<string> {
    Tokenize(Join(SubKeywords(sub)))
  }

  /** A subtopic's score, with the weight of its parent entry. */
  function SubScore(q: seq<string>, w: int, sub: Subtopic): int {
    SumWeights(q, SubTokens(sub), w)
  }

  /** What the subtopics add to their entry's score (a zero score adds nothing). */
  function SubTotal(q: seq<string>, w: int, subs: seq<Subtopic>): int {
    if subs == [] then 0
    else SubTotal(q, w, subs[..|subs| - 1]) + SubScore(q, w, subs[|subs| - 1])
  }

  /** The names of the subtopics whose score is non-zero, in order. */
  function MatchedNames(q: seq<string>, w: int, subs: seq<Subtopic>): seq<Option<string>> {
    if subs == [] then []
    else
      var last := subs[|subs| - 1];
      MatchedNames(q, w, subs[..|subs| - 1]) + (if SubScore(q, w, last) != 0 then [last.name] else [])
  }

  /** An entry's total score: its own keywords plus all its subtopics. */
  function EntryScore(q: seq<string>, e: Entry): int {
    SumWeights(q, EntryTokens(e), Weight(e)) + SubTotal(q, Weight(e), Subtopics(e))
  }

  function HitOf(q: seq<string>, e: Entry): Hit {
    Hit(EntryScore(q, e), e, MatchedNames(q, Weight(e), Subtopics(e)))
  }

  /** The entries whose score is non-zero, in catalog order. */
  function Hits(q: seq<string>, data: seq<Entry>): seq<Hit> {
    if data == [] then []
    else
      var e := data[|data| - 1];
      Hits(q, data[..|data| - 1]) + (if EntryScore(q, e) != 0 then [HitOf(q, e)] else [])
  }

  /** `hits[:8]` */
  function Top(s: seq<Hit>): seq<Hit> {
    if |s| <= MaxResults then s else s[..MaxResults]
  }

  /** The copy of an entry handed back to the caller. */
  function Present(h: Hit): ScoredMatch {
    ScoredMatch(h.entry, h.score, if h.matchedSub == [] then None else Some(h.matchedSub))
  }

  /** What `search_syllabus(query, data)` returns. */
  function SearchResult(query: string, data: seq<Entry>): seq<ScoredMatch> {
    var top := Top(SortByScore(Hits(Tokenize(query), data)));
    seq(|top|, i requires 0 <= i < |top| => Present(top[i]))
  }

  // ---------------------------------------------------------------------------
  // The matcher

  /** The loop body of the matcher for one entry: its total score and its matched subtopics. */
  method ScoreEntry(qTokens: seq<string>, entry: Entry) returns (score: int, matchedSub: seq<Option<string>>)
    ensures score == EntryScore(qTokens, entry)
    ensures matchedSub == MatchedNames(qTokens, Weight(entry), Subtopics(entry))
  {
    var weight := Weight(entry);
    var eTokens := Tokenize(Join(Keywords(entry)));
    score := SumWeights(qTokens, eTokens, weight);

    matchedSub := [];
    var subs := Subtopics(entry);
    var j := 0;
    while j < |subs|
      invariant 0 <= j <= |subs|
      invariant score == SumWeights(qTokens, eTokens, weight) + SubTotal(qTokens, weight, subs[..j])
      invariant matchedSub == MatchedNames(qTokens, weight, subs[..j])
    {
      var st := Tokenize(Join(SubKeywords(subs[j])));
      var subScore := SumWeights(qTokens, st, weight);
      assert subs[..j + 1][..j] == subs[..j];
      if subScore != 0 {
        score := score + subScore;
        matchedSub := matchedSub + [subs[j].name];
      }
      j := j + 1;
    }
    assert subs[..|subs|] == subs;
  }

  method SearchSyllabus(query: string, data: seq<Entry>) returns (result: seq<ScoredMatch>)
    ensures result == SearchResult(query, data)
  {
    var qTokens := Tokenize(query);
    var hits: seq<Hit> := [];
    for i := 0 to |data|
      invariant hits == Hits(qTokens, data[..i])
    {
      var score, matchedSub := ScoreEntry(qTokens, data[i]);
      assert data[..i + 1][..i] == data[..i];
      if score != 0 {
        hits := hits + [Hit(score, data[i], matchedSub)];
      }
    }
    assert data[..|data|] == data;

    hits := SortByScore(hits);
    result := PresentTop(hits);
  }

  /** The last loop of the matcher: copies of the first eight hits, each with its score and matched subtopics. */
  method PresentTop(hits: seq<Hit>) returns (result: seq<ScoredMatch>)
    ensures |result| == |Top(hits)|
    ensures forall i :: 0 <= i < |result| ==> result[i] == Present(hits[i])
  {
    var top := if |hits| <= MaxResults then hits else hits[..MaxResults];
    result := [];
    for k := 0 to |top|
      invariant |result| == k
      invariant forall m :: 0 <= m < k ==> result[m] == Present(top[m])
    {
      var h := top[k];
      var e := ScoredMatch(h.entry, h.score, None);
      if h.matchedSub != [] {
        e := e.(matchedSubtopics := Some(h.matchedSub));
      }
      result := result + [e];
    }
  }

  // ---------------------------------------------------------------------------
  // Lemmas

  lemma MulDistributes(w: int, a: int, b: int)
    ensures w * a + w * b == w * (a + b)
  {
  }

  /** Each matching position adds the weight once: the sum is weight times the match count. */
  lemma {:induction false} SumWeightsIsProduct(q: seq<string>, toks: seq<string>, w: int)
    ensures SumWeights(q, toks, w) == w * MatchCount(q, toks)
    decreases |q|
  {
    if q != [] {
      SumWeightsIsProduct(q[..|q| - 1], toks, w);
    }
  }

  /** The match count counts positions of the query, duplicates included. */
  lemma {:induction false} MatchCountIsPositions(q: seq<string>, toks: seq<string>)
    ensures MatchCount(q, toks) == |MatchPositions(q, toks)|
    decreases |q|
  {
    if q != [] {
      var p := q[..|q| - 1];
      MatchCountIsPositions(p, toks);
      if q[|q| - 1] in toks {
        assert MatchPositions(q, toks) == MatchPositions(p, toks) + {|p|};
      } else {
        assert MatchPositions(q, toks) == MatchPositions(p, toks);
      }
    }
  }

  /** Some token of `q` occurs in `toks`. */
  predicate Overlaps(q: seq<string>, toks: seq<string>) {
    exists i :: 0 <= i < |q| && q[i] in toks
  }

  /** There is a match exactly when some query token occurs in `toks`. */
  lemma MatchCountPositive(q: seq<string>, toks: seq<string>)
    ensures MatchCount(q, toks) > 0 <==> Overlaps(q, toks)
  {
    MatchCountIsPositions(q, toks);
    if MatchCount(q, toks) == 0 {
      assert MatchPositions(q, toks) == {};
      forall i | 0 <= i < |q| ensures q[i] !in toks {
        assert i !in MatchPositions(q, toks);
      }
    } else {
      var i :| i in MatchPositions(q, toks);
      assert q[i] in toks;
    }
  }

  /** The keywords of an entry may as well be tokenized one by one. */
  lemma EntryTokensEach(e: Entry)
    ensures EntryTokens(e) == TokenizeEach(Keywords(e))
  {
    TokenizeJoin(Keywords(e));
  }

  /** The total number of matches over all subtopics. */
  function SubMatches(q: seq<string>, subs: seq<Subtopic>): nat {
    if subs == [] then 0
    else SubMatches(q, subs[..|subs| - 1]) + MatchCount(q, SubTokens(subs[|subs| - 1]))
  }

  lemma {:induction false} SubTotalIsProduct(q: seq<string>, w: int, subs: seq<Subtopic>)
    ensures SubTotal(q, w, subs) == w * SubMatches(q, subs)
    decreases |subs|
  {
    if subs != [] {
      var p, last := subs[..|subs| - 1], subs[|subs| - 1];
      var a, b := SubMatches(q, p), MatchCount(q, SubTokens(last));
      SubTotalIsProduct(q, w, p);
      SumWeightsIsProduct(q, SubTokens(last), w);
      assert SubTotal(q, w, subs) == w * a + w * b;
      assert SubMatches(q, subs) == a + b;
      MulDistributes(w, a, b);
    }
  }

  /**
   * The score formula: the entry's weight (1 when absent) times the number of
   * query positions matching its keywords plus those matching each subtopic.
   */
  lemma EntryScoreFormula(q: seq<string>, e: Entry)
    ensures EntryScore(q, e) == Weight(e) * (MatchCount(q, EntryTokens(e)) + SubMatches(q, Subtopics(e)))
    ensures e.weight == None ==> EntryScore(q, e) == MatchCount(q, EntryTokens(e)) + SubMatches(q, Subtopics(e))
  {
    SumWeightsIsProduct(q, EntryTokens(e), Weight(e));
    SubTotalIsProduct(q, Weight(e), Subtopics(e));
    MulDistributes(Weight(e), MatchCount(q, EntryTokens(e)), SubMatches(q, Subtopics(e)));
  }

  /** Some subtopic's keywords meet the query. */
  predicate SomeSubOverlaps(q: seq<string>, subs: seq<Subtopic>) {
    exists j :: 0 <= j < |subs| && Overlaps(q, SubTokens(subs[j]))
  }

  lemma SomeSubOverlapsSnoc(q: seq<string>, p: seq<Subtopic>, last: Subtopic)
    ensures SomeSubOverlaps(q, p + [last]) <==> SomeSubOverlaps(q, p) || Overlaps(q, SubTokens(last))
  {
    var subs := p + [last];
    if SomeSubOverlaps(q, p) {
      var j :| 0 <= j < |p| && Overlaps(q, SubTokens(p[j]));
      assert subs[j] == p[j];
    }
    if Overlaps(q, SubTokens(last)) {
      assert subs[|p|] == last;
    }
    if SomeSubOverlaps(q, subs) {
      var j :| 0 <= j < |subs| && Overlaps(q, SubTokens(subs[j]));
      if j < |p| {
        assert p[j] == subs[j];
      }
    }
  }

  lemma {:induction false} SubMatchesPositive(q: seq<string>, subs: seq<Subtopic>)
    ensures SubMatches(q, subs) > 0 <==> SomeSubOverlaps(q, subs)
    decreases |subs|
  {
    if subs != [] {
      var p, last := subs[..|subs| - 1], subs[|subs| - 1];
      assert subs == p + [last];
      SubMatchesPositive(q, p);
      MatchCountPositive(q, SubTokens(last));
      SomeSubOverlapsSnoc(q, p, last);
    }
  }

  lemma MulNonZero(a: int, b: int)
    ensures a * b != 0 <==> a != 0 && b != 0
  {
  }

  /**
   * An entry scores non-zero exactly when its weight is non-zero and some
   * query token occurs among its keyword tokens or those of one of its subtopics.
   */
  lemma EntryScoreNonZero(q: seq<string>, e: Entry)
    ensures EntryScore(q, e) != 0 <==>
      Weight(e) != 0 && (Overlaps(q, EntryTokens(e)) || SomeSubOverlaps(q, Subtopics(e)))
  {
    EntryScoreFormula(q, e);
    MatchCountPositive(q, EntryTokens(e));
    SubMatchesPositive(q, Subtopics(e));
    MulNonZero(Weight(e), MatchCount(q, EntryTokens(e)) + SubMatches(q, Subtopics(e)));
  }

  /** `matched_subtopics` is absent exactly when no subtopic scored. */
  lemma {:induction false} MatchedNamesEmpty(q: seq<string>, w: int, subs: seq<Subtopic>)
    ensures MatchedNames(q, w, subs) == [] <==> forall j :: 0 <= j < |subs| ==> SubScore(q, w, subs[j]) == 0
    decreases |subs|
  {
    if subs != [] {
      var p := subs[..|subs| - 1];
      MatchedNamesEmpty(q, w, p);
      assert forall j :: 0 <= j < |p| ==> p[j] == subs[j];
    }
  }

  /** Every subtopic that scored is listed. */
  lemma {:induction false} MatchedNamesComplete(q: seq<string>, w: int, subs: seq<Subtopic>, j: int)
    requires 0 <= j < |subs| && SubScore(q, w, subs[j]) != 0
    ensures subs[j].name in MatchedNames(q, w, subs)
    decreases |subs|
  {
    var p := subs[..|subs| - 1];
    if j < |p| {
      assert p[j] == subs[j];
      MatchedNamesComplete(q, w, p, j);
    }
  }

  /** Only subtopics that scored are listed. */
  lemma {:induction false} MatchedNamesSound(q: seq<string>, w: int, subs: seq<Subtopic>, x: Option<string>)
    requires x in MatchedNames(q, w, subs)
    ensures exists j :: 0 <= j < |subs| && subs[j].name == x && SubScore(q, w, subs[j]) != 0
    decreases |subs|
  {
    var p, last := subs[..|subs| - 1], subs[|subs| - 1];
    if x in MatchedNames(q, w, p) {
      MatchedNamesSound(q, w, p, x);
      var j :| 0 <= j < |p| && p[j].name == x && SubScore(q, w, p[j]) != 0;
      assert p[j] == subs[j];
    } else {
      assert x == last.name && SubScore(q, w, last) != 0;
    }
  }

  /**
   * Names are recorded in subtopic order, once per subtopic that scored: the
   * names for subtopics split in two are those of the first part, then those
   * of the second.
   */
  lemma {:induction false} MatchedNamesAppend(q: seq<string>, w: int, a: seq<Subtopic>, b: seq<Subtopic>)
    ensures MatchedNames(q, w, a + b) == MatchedNames(q, w, a) + MatchedNames(q, w, b)
    decreases |b|
  {
    if b == [] {
      assert a + b == a;
    } else {
      var p := b[..|b| - 1];
      assert (a + b)[..|a + b| - 1] == a + p;
      MatchedNamesAppend(q, w, a, p);
    }
  }

  /** The hits of a catalog split in two are those of the first part, then those of the second. */
  lemma {:induction false} HitsAppend(q: seq<string>, a: seq<Entry>, b: seq<Entry>)
    ensures Hits(q, a + b) == Hits(q, a) + Hits(q, b)
    decreases |b|
  {
    if b == [] {
      assert a + b == a;
    } else {
      var p := b[..|b| - 1];
      assert (a + b)[..|a + b| - 1] == a + p;
      HitsAppend(q, a, p);
    }
  }

  /** An entry is a hit exactly when it is in the catalog and its score is non-zero. */
  lemma {:induction false} HitsExact(q: seq<string>, data: seq<Entry>)
    ensures forall e :: HitOf(q, e) in Hits(q, data) <==> e in data && EntryScore(q, e) != 0
    ensures forall h :: h in Hits(q, data) ==> h.entry in data && h == HitOf(q, h.entry) && h.score != 0
    decreases |data|
  {
    if data != [] {
      var p := data[..|data| - 1];
      HitsExact(q, p);
      assert data == p + [data[|data| - 1]];
    }
  }

  /** The result presents, in order, the first min(8, |hits|) hits of the ranking. */
  lemma SearchResultIsTopOfRanking(query: string, data: seq<Entry>)
    ensures var sorted := SortByScore(Hits(Tokenize(query), data));
      |SearchResult(query, data)| == (if |sorted| <= MaxResults then |sorted| else MaxResults) &&
      |sorted| == |Hits(Tokenize(query), data)| &&
      forall i :: 0 <= i < |SearchResult(query, data)| ==> SearchResult(query, data)[i] == Present(sorted[i])
  {
    var hits := Hits(Tokenize(query), data);
    SortByScoreSorts(hits);
    assert |multiset(SortByScore(hits))| == |multiset(hits)|;
  }

  /** At most eight matches, in non-increasing order of score. */
  lemma SearchResultOrdered(query: string, data: seq<Entry>)
    ensures |SearchResult(query, data)| <= MaxResults
    ensures forall i, j :: 0 <= i < j < |SearchResult(query, data)| ==>
      SearchResult(query, data)[i].score >= SearchResult(query, data)[j].score
  {
    var hits := Hits(Tokenize(query), data);
    SortByScoreSorts(hits);
    SearchResultIsTopOfRanking(query, data);
  }

  /**
   * Each match is a catalog entry with its non-zero score, and carries
   * `matched_subtopics` exactly when some subtopic matched.
   */
  lemma SearchResultEntries(query: string, data: seq<Entry>)
    ensures forall i :: 0 <= i < |SearchResult(query, data)| ==>
      var m := SearchResult(query, data)[i];
      var names := MatchedNames(Tokenize(query), Weight(m.entry), Subtopics(m.entry));
      m.entry in data && m.score == EntryScore(Tokenize(query), m.entry) && m.score != 0 &&
      m.matchedSubtopics == (if names == [] then None else Some(names))
  {
    var q := Tokenize(query);
    var hits := Hits(q, data);
    var sorted := SortByScore(hits);
    SortByScoreSorts(hits);
    HitsExact(q, data);
    SearchResultIsTopOfRanking(query, data);
    forall i | 0 <= i < |sorted| ensures sorted[i] in hits {
      assert sorted[i] in multiset(sorted);
    }
  }

  lemma WithScorePrefix(v: int, s: seq<Hit>, k: nat)
    requires k <= |s|
    ensures WithScore(v, s[..k]) <= WithScore(v, s)
  {
    assert s == s[..k] + s[k..];
    WithScoreAppend(v, s[..k], s[k..]);
  }

  /**
   * Ties keep catalog order: for every score, the matches of that score are
   * the first hits of that score, in the order the catalog lists them.
   */
  lemma SearchResultStable(query: string, data: seq<Entry>, v: int)
    ensures var top := Top(SortByScore(Hits(Tokenize(query), data)));
      WithScore(v, top) <= WithScore(v, Hits(Tokenize(query), data))
  {
    var hits := Hits(Tokenize(query), data);
    var sorted := SortByScore(hits);
    SortByScoreSorts(hits);
    WithScorePrefix(v, sorted, |Top(sorted)|);
    assert Top(sorted) == sorted[..|Top(sorted)|];
  }

  /**
   * An entry with a non-zero score is missing from the result only when the
   * result is full and every match in it scores at least as high.
   */
  lemma OmittedOnlyWhenFull(query: string, data: seq<Entry>, e: Entry)
    requires e in data && EntryScore(Tokenize(query), e) != 0
    requires forall i :: 0 <= i < |SearchResult(query, data)| ==> SearchResult(query, data)[i].entry != e
    ensures |SearchResult(query, data)| == MaxResults
    ensures forall i :: 0 <= i < MaxResults ==> SearchResult(query, data)[i].score >= EntryScore(Tokenize(query), e)
  {
    var q := Tokenize(query);
    var hits := Hits(q, data);
    var sorted := SortByScore(hits);
    SortByScoreSorts(hits);
    HitsExact(q, data);
    SearchResultIsTopOfRanking(query, data);
    var h := HitOf(q, e);
    assert h in multiset(sorted);
    var k :| 0 <= k < |sorted| && sorted[k] == h;
    var r := SearchResult(query, data);
    if k < |r| {
      assert false;
    } else {
      forall i | 0 <= i < MaxResults ensures r[i].score >= h.score {
        assert r[i] == Present(sorted[i]);
      }
    }
  }

  /** A query whose tokens meet no keyword of any entry or subtopic finds nothing. */
  lemma NoOverlapNoResult(query: string, data: seq<Entry>)
    requires forall e :: e in data ==>
      !Overlaps(Tokenize(query), EntryTokens(e)) && !SomeSubOverlaps(Tokenize(query), Subtopics(e))
    ensures SearchResult(query, data) == []
  {
    var q := Tokenize(query);
    HitsExact(q, data);
    forall e | e in data ensures EntryScore(q, e) == 0 {
      EntryScoreNonZero(q, e);
    }
    var hits := Hits(q, data);
    SortByScoreSorts(hits);
    SearchResultIsTopOfRanking(query, data);
  }
}
