/**
 * The tokenizer of the syllabus matcher: lower-case the text, take the
 * maximal runs of ASCII letters (what `findall` of the pattern `[A-Za-z]+`
 * returns), and drop stop words and runs of at most two letters.
 */
module Tokenizer {

  /** The fixed list of common English function words that never count as tokens. */
  const StopWords: set<string> := {
    "the", "and", "for", "with", "that", "this", "from", "they", "their", "them", "which",
    "such", "into", "also", "been", "were", "have", "has", "had", "are", "was", "but", "not",
    "can", "use", "using", "between", "within", "you", "your", "what", "how", "why", "when",
    "where", "who"
  }

  predicate IsLetter(c: char) {
    'A' <= c <= 'Z' || 'a' <= c <= 'z'
  }

  predicate IsLowerLetter(c: char) {
    'a' <= c <= 'z'
  }

  /** ASCII lower-casing of one character; every other character is left alone. */
  function ToLower(c: char): (d: char)
    ensures IsLetter(d) == IsLetter(c)
    ensures IsLetter(d) ==> IsLowerLetter(d)
    ensures !('A' <= c <= 'Z') ==> d == c
    ensures 'A' <= c <= 'Z' ==> d as int - 'a' as int == c as int - 'A' as int
  {
    if 'A' <= c <= 'Z' then (c as int + 32) as char else c
  }

  function Lower(s: string): string {
    seq(|s|, i requires 0 <= i < |s| => ToLower(s[i]))
  }

  /** Length of the longest prefix of `s` made of letters only. */
  function LetterPrefix(s: string): (n: nat)
    ensures n <= |s|
    ensures forall i :: 0 <= i < n ==> IsLetter(s[i])
    ensures n < |s| ==> !IsLetter(s[n])
  {
    if s == [] || !IsLetter(s[0]) then 0 else 1 + LetterPrefix(s[1..])
  }

  /**
   * The maximal runs of letters of `s`, left to right: each run is non-empty,
   * made of letters of `s`, and is neither preceded nor followed by a letter.
   */
  function LetterRuns(s: string): seq<string>
    decreases |s|
  {
    if s == [] then []
    else if !IsLetter(s[0]) then LetterRuns(s[1..])
    else
      var n := LetterPrefix(s);
      [s[..n]] + LetterRuns(s[n..])
  }

  /** A run survives when it is not a stop word and has more than two letters. */
  predicate Keep(t: string) {
    t !in StopWords && |t| > 2
  }

  /** The runs that survive, in their original order and with duplicates kept. */
  function KeepTokens(ts: seq<string>): seq<string> {
    if ts == [] then []
    else (if Keep(ts[0]) then [ts[0]] else []) + KeepTokens(ts[1..])
  }

  /** What a token looks like: at least three lower-case ASCII letters, not a stop word. */
  predicate IsToken(t: string) {
    |t| >= 3 && t !in StopWords && forall i :: 0 <= i < |t| ==> IsLowerLetter(t[i])
  }

  /** The tokenizer itself. */
  function Tokenize(text: string): seq<string> {
    KeepTokens(LetterRuns(Lower(text)))
  }

  /** Python's `" ".join(ks)`. */
  function Join(ks: seq<string>): string {
    if ks == [] then ""
    else if |ks| == 1 then ks[0]
    else ks[0] + " " + Join(ks[1..])
  }

  /** The tokens of each string of `ks`, one after the other. */
  function TokenizeEach(ks: seq<string>): seq<string> {
    if ks == [] then [] else Tokenize(ks[0]) + TokenizeEach(ks[1..])
  }

  function Concat(ss: seq<string>): string {
    if ss == [] then [] else ss[0] + Concat(ss[1..])
  }

  /** The letters of `s`, in order. */
  function Letters(s: string): string {
    if s == [] then [] else (if IsLetter(s[0]) then [s[0]] else []) + Letters(s[1..])
  }

  predicate EndsInLetter(s: string) {
    |s| > 0 && IsLetter(s[|s| - 1])
  }

  /**
   * One step of a left-to-right scanner over runs `r`: a letter `c` extends the
   * last run when the character before it was a letter and starts a new run
   * otherwise; any other character ends the current run.
   */
  function AppendChar(r: seq<string>, prevIsLetter: bool, c: char): seq<string>
    requires prevIsLetter && IsLetter(c) ==> |r| > 0
  {
    if !IsLetter(c) then r
    else if prevIsLetter then r[..|r| - 1] + [r[|r| - 1] + [c]]
    else r + [[c]]
  }

  /** An independent definition of the runs: the scanner applied to each character in turn. */
  function Scan(s: string): (r: seq<string>)
    ensures EndsInLetter(s) ==> |r| > 0
    decreases |s|
  {
    if s == [] then []
    else
      var p := s[..|s| - 1];
      AppendChar(Scan(p), EndsInLetter(p), s[|s| - 1])
  }

  // ---------------------------------------------------------------------------
  // Lemmas

  /** Each run is non-empty and made of letters of the text. */
  lemma {:induction false} LetterRunsWellFormed(s: string)
    ensures forall k :: 0 <= k < |LetterRuns(s)| ==> |LetterRuns(s)[k]| > 0
    ensures forall k, i :: 0 <= k < |LetterRuns(s)| && 0 <= i < |LetterRuns(s)[k]| ==>
      IsLetter(LetterRuns(s)[k][i]) && LetterRuns(s)[k][i] in s
    decreases |s|
  {
    if s == [] {
    } else if !IsLetter(s[0]) {
      LetterRunsWellFormed(s[1..]);
    } else {
      var n := LetterPrefix(s);
      LetterRunsWellFormed(s[n..]);
      var r := LetterRuns(s);
      assert r == [s[..n]] + LetterRuns(s[n..]);
      forall k, i | 0 <= k < |r| && 0 <= i < |r[k]| ensures IsLetter(r[k][i]) && r[k][i] in s {
        if k == 0 {
          assert r[k][i] == s[i];
        } else {
          assert r[k] == LetterRuns(s[n..])[k - 1];
          assert r[k][i] in s[n..];
        }
      }
    }
  }

  /** A run is kept exactly when it is not a stop word and has more than two letters. */
  lemma {:induction false} KeepTokensMembers(ts: seq<string>)
    ensures |KeepTokens(ts)| <= |ts|
    ensures forall t :: t in KeepTokens(ts) <==> t in ts && Keep(t)
    decreases |ts|
  {
    if ts != [] {
      KeepTokensMembers(ts[1..]);
      assert ts == [ts[0]] + ts[1..];
    }
  }

  /** Every token is at least three lower-case ASCII letters and is not a stop word. */
  lemma TokensAreWellFormed(text: string)
    ensures forall t :: t in Tokenize(text) ==> IsToken(t)
  {
    var runs := LetterRuns(Lower(text));
    LetterRunsWellFormed(Lower(text));
    KeepTokensMembers(runs);
    forall t, i | t in runs && 0 <= i < |t| ensures IsLowerLetter(t[i]) {
      var k :| 0 <= k < |runs| && runs[k] == t;
      assert IsLetter(runs[k][i]) && runs[k][i] in Lower(text);
      var j :| 0 <= j < |text| && Lower(text)[j] == t[i];
      assert t[i] == ToLower(text[j]);
    }
  }

  lemma {:induction false} LettersAppend(a: string, b: string)
    ensures Letters(a + b) == Letters(a) + Letters(b)
    decreases |a|
  {
    if a == [] {
      assert a + b == b;
    } else {
      var h: string := if IsLetter(a[0]) then [a[0]] else [];
      assert (a + b)[0] == a[0] && (a + b)[1..] == a[1..] + b;
      LettersAppend(a[1..], b);
      assert Letters(a + b) == h + Letters(a[1..] + b);
      assert Letters(a) == h + Letters(a[1..]);
    }
  }

  lemma {:induction false} LettersOfLetters(a: string)
    requires forall i :: 0 <= i < |a| ==> IsLetter(a[i])
    ensures Letters(a) == a
    decreases |a|
  {
    if a != [] {
      LettersOfLetters(a[1..]);
    }
  }

  lemma {:induction false} LettersOfNonLetters(a: string)
    requires forall i :: 0 <= i < |a| ==> !IsLetter(a[i])
    ensures Letters(a) == []
    decreases |a|
  {
    if a != [] {
      LettersOfNonLetters(a[1..]);
    }
  }

  lemma {:induction false} ConcatAppend(a: seq<string>, b: seq<string>)
    ensures Concat(a + b) == Concat(a) + Concat(b)
    decreases |a|
  {
    if a == [] {
      assert a + b == b;
    } else {
      assert (a + b)[1..] == a[1..] + b;
      ConcatAppend(a[1..], b);
    }
  }

  /** No letter is lost, none is added, and their order is kept. */
  lemma {:induction false} LetterRunsCoverLetters(s: string)
    ensures Concat(LetterRuns(s)) == Letters(s)
    decreases |s|
  {
    if s == [] {
    } else if !IsLetter(s[0]) {
      LetterRunsCoverLetters(s[1..]);
    } else {
      var n := LetterPrefix(s);
      LetterRunsCoverLetters(s[n..]);
      assert s == s[..n] + s[n..];
      LettersAppend(s[..n], s[n..]);
      LettersOfLetters(s[..n]);
    }
  }

  /** A text without letters has no runs, and so no tokens. */
  lemma {:induction false} NoLettersNoTokens(text: string)
    requires forall i :: 0 <= i < |text| ==> !IsLetter(text[i])
    ensures LetterRuns(text) == []
    ensures Tokenize(text) == []
  {
    LettersOfNonLetters(text);
    LetterRunsCoverLetters(text);
    LetterRunsWellFormed(text);
    EmptyConcat(LetterRuns(text));
    var l := Lower(text);
    assert forall i :: 0 <= i < |l| ==> !IsLetter(l[i]);
    LettersOfNonLetters(l);
    LetterRunsCoverLetters(l);
    LetterRunsWellFormed(l);
    EmptyConcat(LetterRuns(l));
  }

  /** A concatenation of non-empty strings is empty only when there are none. */
  lemma EmptyConcat(ss: seq<string>)
    requires forall k :: 0 <= k < |ss| ==> |ss[k]| > 0
    requires Concat(ss) == []
    ensures ss == []
  {
  }

  lemma LetterPrefixOfLetters(s: string, t: string)
    requires forall i :: 0 <= i < |s| ==> IsLetter(s[i])
    requires t == [] || !IsLetter(t[0])
    ensures LetterPrefix(s + t) == |s|
    decreases |s|
  {
    if s != [] {
      assert (s + t)[1..] == s[1..] + t;
      LetterPrefixOfLetters(s[1..], t);
    }
  }

  lemma LetterPrefixAppend(s: string, t: string)
    requires LetterPrefix(s) < |s|
    ensures LetterPrefix(s + t) == LetterPrefix(s)
    decreases |s|
  {
    if IsLetter(s[0]) {
      assert (s + t)[1..] == s[1..] + t;
      LetterPrefixAppend(s[1..], t);
    }
  }

  /** One unfolding of LetterRuns when the text starts with a letter. */
  lemma LetterRunsPrefix(s: string)
    requires |s| > 0 && IsLetter(s[0])
    ensures LetterRuns(s) == [s[..LetterPrefix(s)]] + LetterRuns(s[LetterPrefix(s)..])
  {
  }

  /** Runs on either side of a non-letter never merge. */
  lemma {:induction false} LetterRunsSplit(a: string, c: char, b: string)
    requires !IsLetter(c)
    ensures LetterRuns(a + [c] + b) == LetterRuns(a) + LetterRuns(b)
    decreases |a|
  {
    var s := a + [c] + b;
    if a == [] {
      assert s[1..] == b;
      assert LetterRuns(s) == LetterRuns(b);
    } else if !IsLetter(a[0]) {
      assert s[1..] == a[1..] + [c] + b;
      assert LetterRuns(s) == LetterRuns(s[1..]);
      assert LetterRuns(a) == LetterRuns(a[1..]);
      LetterRunsSplit(a[1..], c, b);
    } else {
      var n := LetterPrefix(a);
      LetterRunsPrefix(a);
      if n < |a| {
        LetterPrefixAppend(a, [c] + b);
        assert s == a + ([c] + b);
        assert s[..n] == a[..n];
        assert s[n..] == a[n..] + [c] + b;
        LetterRunsPrefix(s);
        LetterRunsSplit(a[n..], c, b);
      } else {
        LetterPrefixOfLetters(a, [c] + b);
        assert s == a + ([c] + b);
        assert s[..n] == a;
        assert s[n..] == [c] + b;
        LetterRunsPrefix(s);
        assert LetterRuns([c] + b) == LetterRuns(b) by {
          assert ([c] + b)[1..] == b;
        }
        assert a[..n] == a && a[n..] == [];
        assert LetterRuns(a) == [a];
      }
    }
  }

  /** How the runs change when one character is appended. */
  lemma {:induction false} LetterRunsSnoc(s: string, c: char)
    ensures EndsInLetter(s) ==> |LetterRuns(s)| > 0
    ensures LetterRuns(s + [c]) == AppendChar(LetterRuns(s), EndsInLetter(s), c)
    decreases |s|
  {
    var t := s + [c];
    if s == [] {
      SnocEmpty(c);
    } else if !IsLetter(s[0]) {
      assert t[1..] == s[1..] + [c];
      assert LetterRuns(t) == LetterRuns(s[1..] + [c]);
      assert LetterRuns(s) == LetterRuns(s[1..]);
      LetterRunsSnoc(s[1..], c);
      assert EndsInLetter(s[1..]) == EndsInLetter(s);
    } else {
      var n := LetterPrefix(s);
      LetterRunsPrefix(s);
      if n < |s| {
        LetterPrefixAppend(s, [c]);
        assert t[..n] == s[..n];
        assert t[n..] == s[n..] + [c];
        LetterRunsPrefix(t);
        LetterRunsSnoc(s[n..], c);
        assert EndsInLetter(s[n..]) == EndsInLetter(s);
        AppendCharCons(s[..n], LetterRuns(s[n..]), EndsInLetter(s), c);
      } else {
        SnocLetters(s, c);
      }
    }
  }

  lemma SnocEmpty(c: char)
    ensures LetterRuns([c]) == AppendChar([], false, c)
  {
    assert [c][1..] == [];
    if IsLetter(c) {
      assert LetterPrefix([c]) == 1;
      assert [c][..1] == [c];
      LetterRunsPrefix([c]);
    }
  }

  lemma SnocLetters(s: string, c: char)
    requires |s| > 0 && LetterPrefix(s) == |s|
    ensures LetterRuns(s) == [s]
    ensures LetterRuns(s + [c]) == AppendChar([s], true, c)
  {
    var t := s + [c];
    LetterRunsPrefix(s);
    assert s[..|s|] == s && s[|s|..] == [];
    if IsLetter(c) {
      LetterPrefixOfLetters(t, []);
      assert t + [] == t;
      assert t[..|t|] == t && t[|t|..] == [];
      LetterRunsPrefix(t);
    } else {
      LetterPrefixOfLetters(s, [c]);
      assert t[..|s|] == s && t[|s|..] == [c];
      LetterRunsPrefix(t);
      SnocEmpty(c);
    }
  }

  lemma AppendCharCons(w: string, r: seq<string>, prev: bool, c: char)
    requires prev && IsLetter(c) ==> |r| > 0
    ensures AppendChar([w] + r, prev, c) == [w] + AppendChar(r, prev, c)
  {
    if IsLetter(c) && prev {
      assert ([w] + r)[..|r|] == [w] + r[..|r| - 1];
    }
  }

  /** The runs are exactly what the left-to-right scanner produces. */
  lemma {:induction false} LetterRunsAreScan(s: string)
    ensures LetterRuns(s) == Scan(s)
    decreases |s|
  {
    if s != [] {
      var p, c := s[..|s| - 1], s[|s| - 1];
      assert s == p + [c];
      LetterRunsAreScan(p);
      LetterRunsSnoc(p, c);
    }
  }

  lemma LowerAppend(a: string, b: string)
    ensures Lower(a + b) == Lower(a) + Lower(b)
  {
  }

  lemma {:induction false} KeepTokensAppend(a: seq<string>, b: seq<string>)
    ensures KeepTokens(a + b) == KeepTokens(a) + KeepTokens(b)
    decreases |a|
  {
    if a == [] {
      assert a + b == b;
    } else {
      assert (a + b)[1..] == a[1..] + b;
      KeepTokensAppend(a[1..], b);
    }
  }

  /** A space separates: the tokens of `a + " " + b` are those of `a` then those of `b`. */
  lemma TokenizeAroundSpace(a: string, b: string)
    ensures Tokenize(a + " " + b) == Tokenize(a) + Tokenize(b)
  {
    LowerAppend(a + " ", b);
    LowerAppend(a, " ");
    assert Lower(" ") == " ";
    assert Lower(a + " " + b) == Lower(a) + [' '] + Lower(b);
    LetterRunsSplit(Lower(a), ' ', Lower(b));
    KeepTokensAppend(LetterRuns(Lower(a)), LetterRuns(Lower(b)));
  }

  /** Tokenizing keywords joined by spaces is tokenizing each keyword in turn. */
  lemma {:induction false} TokenizeJoin(ks: seq<string>)
    ensures Tokenize(Join(ks)) == TokenizeEach(ks)
    decreases |ks|
  {
    if ks == [] {
      assert LetterRuns(Lower("")) == [];
    } else if |ks| == 1 {
      assert ks[1..] == [];
    } else {
      TokenizeJoin(ks[1..]);
      TokenizeAroundSpace(ks[0], Join(ks[1..]));
    }
  }

  /** A single word of letters is one run. */
  lemma OneRun(w: string)
    requires |w| > 0 && forall i :: 0 <= i < |w| ==> IsLetter(w[i])
    ensures LetterRuns(w) == [w]
  {
    LetterPrefixOfLetters(w, []);
    assert w + [] == w;
    assert w[..|w|] == w && w[|w|..] == [];
  }

  /** A word of letters whose lower-case form is `l` gives the single run `l`, kept or not. */
  lemma WordTokens(w: string, l: string)
    requires Lower(w) == l
    requires |l| > 0 && forall i :: 0 <= i < |l| ==> IsLetter(l[i])
    ensures Tokenize(w) == KeepTokens([l])
  {
    OneRun(l);
  }

  /** Four words joined by spaces give the tokens of each word in turn. */
  lemma FourWords(w1: string, w2: string, w3: string, w4: string)
    ensures Tokenize(w1 + " " + w2 + " " + w3 + " " + w4) ==
      Tokenize(w1) + Tokenize(w2) + Tokenize(w3) + Tokenize(w4)
  {
    var t3 := w3 + " " + w4;
    var t2 := w2 + " " + t3;
    assert w1 + " " + w2 + " " + w3 + " " + w4 == w1 + " " + t2;
    TokenizeAroundSpace(w1, t2);
    TokenizeAroundSpace(w2, t3);
    TokenizeAroundSpace(w3, w4);
  }

  /** "The" is folded to the stop word "the" and dropped. */
  lemma ExampleThe(w: string)
    requires w == "The"
    ensures Tokenize(w) == []
  {
    assert Lower(w) == "the" && !Keep("the");
    WordTokens(w, "the");
  }

  /** "Quick" is folded to "quick" and kept. */
  lemma ExampleQuick(w: string)
    requires w == "Quick"
    ensures Tokenize(w) == ["quick"]
  {
    assert Lower(w) == "quick" && Keep("quick");
    WordTokens(w, "quick");
  }

  /** "Fox" is folded to "fox", which has the fewest letters a token may have. */
  lemma ExampleFox(w: string)
    requires w == "Fox"
    ensures Tokenize(w) == ["fox"] && |Tokenize(w)[0]| == 3
  {
    assert Lower(w) == "fox" && Keep("fox");
    WordTokens(w, "fox");
  }

  /** "jumps" is already lower-case: it is its own single token. */
  lemma ExampleJumps(w: string)
    requires w == "jumps"
    ensures Tokenize(w) == [w]
  {
    assert Lower(w) == w && Keep(w);
    WordTokens(w, w);
  }

  /**
   * `tokenize("The Quick Fox jumps")` is `["quick", "fox", "jumps"]`: case is
   * folded, the stop word "the" goes, and the three-letter "fox" stays. The
   * words are parameters fixed by the precondition, which keeps the verifier
   * from evaluating the tokenizer on the whole literal text.
   */
  lemma TokenizeExample(w1: string, w2: string, w3: string, w4: string)
    requires w1 == "The" && w2 == "Quick" && w3 == "Fox" && w4 == "jumps"
    ensures Tokenize(w1 + " " + w2 + " " + w3 + " " + w4) == ["quick", "fox", "jumps"]
  {
    FourWords(w1, w2, w3, w4);
    ExampleThe(w1);
    ExampleQuick(w2);
    ExampleFox(w3);
    ExampleJumps(w4);
  }
}
