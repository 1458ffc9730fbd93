# Syllabus keyword matcher

The application pairs an exam question with the A-Level syllabus topics it
covers. It does this by keyword overlap. This project models that matcher:

- the tokenizer `tokenize`, with its stop-word list and its letter-run pattern `[A-Za-z]+`;
- the search `search_syllabus`, which does three things:
  - it scores every entry of the syllabus catalog against the tokens of a query;
  - it keeps the entries whose score is non-zero;
  - it ranks them by descending score, with ties in catalog order, and returns the first eight as annotated copies.

Layout:

- `catalog.dfy` (module `Catalog`): catalog entries and subtopics as values.
  - JSON keys that may be absent (`weight`, `keywords`, `subtopics`, a subtopic's `name` and `keywords`) are `Option` fields.
  - The defaults of `dict.get` are applied by accessor functions (`Weight`, `Keywords`, `Subtopics`, `SubKeywords`).
  - It also holds the collected `(score, entry, matched_sub)` triple (`Hit`) and the returned copy of an entry (`ScoredMatch`).
- `tokenizer.dfy` (module `Tokenizer`): the tokenizer as pure functions.
  - The text is ASCII lower-cased and split into maximal letter runs.
  - Runs that are stop words or have two letters or fewer are dropped.
  - Lemmas relate the runs to an independent left-to-right scanner, to the letters of the text, and to `" ".join`.
- `ranking.dfy` (module `Ranking`): the in-place `hits.sort(reverse=True, key=score)`.
  - It is modelled by `SortByScore`, a stable sort by descending score.
  - It is proved sorted, a permutation, and stable.
  - It is proved to be the only such list, so any stable descending sort (Python's included) gives the same result.
- `search.dfy` (module `Search`): the matcher.
  - `SearchSyllabus`, with the per-entry loop body `ScoreEntry` and the final loop `PresentTop`, follows the source's loops.
  - They are proved against the specification function `SearchResult`.
  - Its properties are proved as lemmas: the score formula, the inclusion rule, the order, the cap of eight and the shape of each match.

## Model

| member | source | states |
|---|---|---|
| Tokenizer.StopWords | app.py:39-43 | the fixed set of 36 stop words; `KeepTokensMembers` and `TokensAreWellFormed` show that no token is one |
| Tokenizer.ToLower | app.py:47 | lower-casing maps each capital to the lower-case form of the same letter, keeps letters letters and leaves every non-upper-case character alone |
| Tokenizer.Lower | app.py:47 | `text.lower()`, one character at a time; `LowerAppend` shows it distributes over concatenation and `TokenizeExample` shows the case folding at work |
| Tokenizer.IsLetter | app.py:44 | the character class `[A-Za-z]`: an ASCII capital or lower-case letter; `LetterRunsWellFormed` shows every run is made of such characters |
| Tokenizer.LetterPrefix | app.py:44 | the length of the longest all-letter prefix: every character before it is a letter and the next one is not |
| Tokenizer.LetterRuns | app.py:44-47 | `findall` of `[A-Za-z]+`: the maximal letter runs, characterised by `LetterRunsAreScan`, `LetterRunsCoverLetters`, `LetterRunsSplit` and `LetterRunsWellFormed` |
| Tokenizer.LetterRunsWellFormed | app.py:44-47 | every run is non-empty and made only of letters of the text |
| Tokenizer.LetterRunsCoverLetters | app.py:44-47 | concatenating the runs gives exactly the letters of the text, in order: no letter lost, none added |
| Tokenizer.LetterRunsSplit | app.py:44-47 | runs never extend across a non-letter: the runs of `a + [c] + b` are those of `a` followed by those of `b` |
| Tokenizer.LetterRunsSnoc | app.py:44-47 | appending a character extends the last run when both it and the previous character are letters, otherwise starts a new run or is skipped |
| Tokenizer.LetterRunsAreScan | app.py:44-47 | the runs equal those an independent left-to-right character scanner produces |
| Tokenizer.Keep | app.py:48 | the comprehension's condition: not a stop word and more than two letters; `KeepTokensMembers` shows it decides exactly which runs stay |
| Tokenizer.KeepTokens | app.py:48 | the filter of the runs, characterised by `KeepTokensMembers` (what is kept) and `KeepTokensAppend` (order and duplicates) |
| Tokenizer.KeepTokensMembers | app.py:48 | a run survives the filter exactly when it is not a stop word and has more than two letters; the filter never lengthens the list |
| Tokenizer.KeepTokensAppend | app.py:48 | the filter keeps the original order and duplicates: filtering a concatenation is concatenating the filtered parts |
| Tokenizer.Tokenize | app.py:46-48 | `tokenize`: the filtered runs of the lower-cased text, characterised by `TokensAreWellFormed`, `NoLettersNoTokens`, `TokenizeAroundSpace` and `TokenizeExample` |
| Tokenizer.TokensAreWellFormed | app.py:39-48 | every token is at least three lower-case ASCII letters and is not a stop word |
| Tokenizer.NoLettersNoTokens | app.py:44-48 | a text without letters (the empty text included) has no runs and no tokens |
| Tokenizer.TokenizeAroundSpace | app.py:44-48 | a space separates: the tokens of `a + " " + b` are the tokens of `a` then those of `b` |
| Tokenizer.Join | app.py:55 | `" ".join(keywords)`; `TokenizeJoin` gives its effect on the tokens |
| Tokenizer.TokenizeJoin | app.py:55 | tokenizing keywords joined by single spaces is tokenizing each keyword in turn and concatenating the results |
| Tokenizer.TokenizeExample | app.py:46-48 | the words "The", "Quick", "Fox", "jumps" joined by spaces tokenize to exactly `["quick", "fox", "jumps"]`: case is folded, the stop word goes, a three-letter word stays |
| Ranking.SortByScore | app.py:69 | `hits.sort(reverse=True, key=score)`, characterised by `SortByScoreSorts` and, for any stable descending sort, `StableSortIsSortByScore` |
| Ranking.InsertSorts | app.py:69 | inserting into a sorted list keeps it sorted, adds exactly that hit, and places it after every hit of its score |
| Ranking.SortByScoreSorts | app.py:69 | the sorted hits are in non-increasing score order, are a permutation of the hits, and keep the relative order of hits of equal score |
| Ranking.StableSortUnique | app.py:69 | two lists that are each sorted by descending score and agree on the order of the hits of every score are equal |
| Ranking.StableSortIsSortByScore | app.py:69 | any stable descending sort of the hits returns exactly `SortByScore` of them |
| Catalog.Weight | app.py:54 | `entry.get("weight", 1)`: the entry's weight, 1 when absent; `EntryScoreFormula` states the default's effect on the score |
| Catalog.Keywords | app.py:55 | `entry.get("keywords", [])`: no keywords when absent |
| Catalog.Subtopics | app.py:59 | `entry.get("subtopics", [])`: no subtopics when absent |
| Catalog.SubKeywords | app.py:60 | `sub.get("keywords", [])`: no keywords when absent |
| Search.SumWeights | app.py:56-61 | `sum(weight for t in q_tokens if t in tokens)`, for an entry's tokens and for a subtopic's; `SumWeightsIsProduct` and `MatchCountIsPositions` give it as weight times the number of matching query positions |
| Search.MatchCount | app.py:56 | the number of matching query positions never exceeds the number of query tokens |
| Search.SumWeightsIsProduct | app.py:56 | summing the weight over matching query positions gives the weight times the match count |
| Search.MatchCountIsPositions | app.py:56 | the match count is the number of query positions whose token is among the keyword tokens, with duplicated query tokens counted each time |
| Search.MatchCountPositive | app.py:56 | there is a match exactly when some query token occurs among the keyword tokens |
| Search.EntryTokens | app.py:55 | `tokenize(" ".join(entry.get("keywords", [])))`; `EntryTokensEach` gives it as the tokens of each keyword in turn |
| Search.SubTokens | app.py:60 | `tokenize(" ".join(sub.get("keywords", [])))` for one subtopic |
| Search.SubScore | app.py:61 | a subtopic's score with its parent's weight; `SubTotalIsProduct` and `SubMatchesPositive` describe the subtopic scores together |
| Search.EntryTokensEach | app.py:55 | an entry's keyword tokens are the tokens of its keywords taken one by one |
| Search.SubTotalIsProduct | app.py:59-63 | the subtopics add the parent's weight times their total match count |
| Search.SubTotal | app.py:59-63 | what the subtopics add to the score; `SubTotalIsProduct` gives it as weight times their matches |
| Search.EntryScore | app.py:54-63 | an entry's total score; `EntryScoreFormula` and `EntryScoreNonZero` characterise it |
| Search.EntryScoreFormula | app.py:54-63 | an entry's score is its weight (1 when absent) times the matches against its own keywords plus the matches against each subtopic |
| Search.SubMatchesPositive | app.py:59-62 | the subtopics match at all exactly when the keywords of some subtopic meet the query |
| Search.EntryScoreNonZero | app.py:54-66 | an entry scores non-zero exactly when its weight is non-zero and the query meets its keywords or the keywords of one of its subtopics |
| Search.MatchedNames | app.py:58-64 | `matched_sub`, characterised by `MatchedNamesEmpty`, `MatchedNamesComplete`, `MatchedNamesSound` and `MatchedNamesAppend` |
| Search.MatchedNamesEmpty | app.py:58-64 | no subtopic name is recorded exactly when every subtopic scores zero |
| Search.MatchedNamesComplete | app.py:58-64 | the name of every subtopic with a non-zero score is recorded |
| Search.MatchedNamesSound | app.py:58-64 | only names of subtopics with a non-zero score are recorded |
| Search.MatchedNamesAppend | app.py:58-64 | names are recorded in subtopic order, once for each subtopic that scored (duplicate names included): the names for two runs of subtopics are those of the first followed by those of the second |
| Search.Hits | app.py:53-67 | the collected hits, characterised by `HitsExact` (which entries) and `HitsAppend` (catalog order) |
| Search.HitOf | app.py:67 | the `(score, entry, matched_sub)` triple of one entry; `HitsExact` shows every hit is the triple of its own entry |
| Search.HitsAppend | app.py:53-67 | hits are collected in catalog order: the hits of a catalog split in two are those of the first part followed by those of the second |
| Search.HitsExact | app.py:53-67 | an entry is collected exactly when it is in the catalog and its score is non-zero, and every hit carries its entry's own score and matched names |
| Search.Top | app.py:72 | `hits[:8]`; `SearchResultIsTopOfRanking` gives its length min(8, number of hits) |
| Search.Present | app.py:73-77 | the copy of an entry with its score, and with its matched subtopics only when there are some; `SearchResultEntries` states it for every match |
| Search.SearchResult | app.py:50-78 | what `search_syllabus` returns, characterised by the `SearchResult...`, `OmittedOnlyWhenFull` and `NoOverlapNoResult` lemmas |
| Search.ScoreEntry | app.py:54-64 | the per-entry loop body computes the entry's score and the names of its subtopics that scored |
| Search.PresentTop | app.py:71-77 | the final loop returns, for each of the first eight hits, the entry with its score and with its matched subtopics only when there are some |
| Search.SearchSyllabus | app.py:50-78 | the matcher returns `SearchResult(query, data)` |
| Search.SearchResultIsTopOfRanking | app.py:69-77 | the result has min(8, number of hits) matches, and the i-th presents the i-th hit of the ranking |
| Search.SearchResultOrdered | app.py:69-72 | at most eight matches, with scores non-increasing |
| Search.SearchResultStable | app.py:69-72 | for every score, the matches of that score are the first hits of that score, in catalog order |
| Search.SearchResultEntries | app.py:66-77 | each match is an entry of the catalog with its own non-zero score, and has matched subtopics exactly when some subtopic scored, listing them |
| Search.OmittedOnlyWhenFull | app.py:66-72 | an entry with a non-zero score is left out only when the result already holds eight matches, each scoring at least as high |
| Search.NoOverlapNoResult | app.py:50-78 | a query whose tokens meet the keywords of no entry and no subtopic returns nothing |

## Left out

- The web application around the matcher is not part of this model, because it is I/O. This covers the Flask routes, request and upload handling, the HTML/CSS/JS templates and the score ring drawn from the results.
- Text recognition with Tesseract and the chat-model client are left out because they are foreign services. Their output reaches the matcher only as the `query` string, which is an arbitrary parameter here.
- Loading the environment and reading the JSON catalog from disk are left out because they are I/O. The catalog is the parameter `data`.
- Tokenizer.ToLower: only ASCII letters are lower-cased, unlike Python's Unicode `str.lower()`. The pattern `[A-Za-z]+` only matches ASCII letters, so any other character separates runs here. The model therefore does not capture the few non-ASCII characters that Python lower-cases to an ASCII letter, such as the Kelvin sign.
- JSON values of the wrong type are not modelled. These are a `null` weight, non-string keywords, or a non-list `subtopics`. Python would raise or misbehave on them; here every present field has its expected type.
- Weights are unbounded integers, as Python's are. A floating-point weight read from JSON is not modelled.
- A catalog entry that already carries `score` or `matched_subtopics` keys is not modelled. In Python the copy would overwrite `score`, and an old `matched_subtopics` would survive when no subtopic matched. Here a match keeps the entry and its score and subtopics side by side.
- The citation fields (`topic`, `syllabus_reference`, `book`, `chapter`, `page_range`) are plain strings. Any other keys an entry carries are not modelled.
- Ranking.SortByScore models Python's Timsort by an insertion sort, not by the Timsort algorithm. `Ranking.StableSortIsSortByScore` shows that every stable descending sort gives this same list.
- The catalog is an immutable value, so it is unchanged by the search by construction. Because each match holds the entry by value, this model does not capture aliasing between the shallow copy and the catalog (nested lists stay shared in Python).
- Repeated calls returning the same result follows from the model being a function of its inputs, so no lemma states it.
