# AniRec recommender core, modelled in Dafny

AniRec recommends anime titles similar to a title the user types. It builds
one text per title from its genres and synopsis, stems and lower-cases it,
turns the texts into term-count vectors, takes the cosine similarity of every
pair of titles, and for a query title returns up to 99 titles ranked by
similarity, meant to be titles other than the query.

This project models the three parts of `app.py` that the repository writes
itself, with the library calls they make taken as inputs:

- `text.dfy` (module `Text`): the Python string operations used on the way:
  `str.split()` with no argument (splitting on the characters `str.isspace()`
  accepts), `" ".join`, `str.replace(" ", "")` and `str.lower()`.
- `stemming.dfy` (module `Stemming`): the `stem` wrapper, a loop that stems the
  words of a text one by one and joins them again. The Porter stemmer is the
  function parameter `stem`.
- `features.dfy` (module `Features`): the construction of the `features` column:
  split Genres and sypnopsis, drop blanks inside each word, concatenate, join,
  stem, lower-case.
- `ranking.dfy` (module `Ranking`): `sorted(list(enumerate(row)), reverse=True,
  key=score)[1:100]` over one row of the similarity matrix. The stable
  descending sort is modelled as an insertion sort on positions and proved to
  be the only ordering of all positions with higher scores first and equal
  scores in ascending position.
- `recommender.dfy` (module `Recommender`): `recommend`. The data frame is a
  sequence of `Row(indexLabel, name)`. After `dropna` the index labels keep the
  CSV row numbers, so they increase but may have gaps. The similarity matrix is
  a `seq<seq<real>>` indexed by position. Each `IndexError` the function
  catches is modelled as a path that returns `[]`: an unknown title, a label
  past the last matrix row, and an `iloc` position past the last data-frame row.

`[1:100]` drops the first-ranked entry, not the query. With unique titles, the
query is in its own recommendations exactly when its position has rank 1 to 99
in the row read, that is, when at least one and at most 99 other positions come
before it (`Recommender.RecommendReturnsQueryAtKeptRank`). A position comes
before another when it has a higher score, or an equal score and an earlier
position (`Ranking.Precedes`). The query is therefore left out only when it
ranks first or, in a row of more than 100 entries, when 100 or more positions
come before it. Examples of a query that does not rank first: a title none of
whose words is in the vocabulary has an all-zero count vector, so its
similarity row is all zeros, its own entry included; a title whose count
vector equals, or is a positive multiple of, an earlier title's has cosine
similarity 1 with it, so the two tie at the top up to floating-point rounding.
Equal count vectors come from features with the same words in another order,
or differing only in English stop words or in words outside the 5000-term
vocabulary. `Recommender.RecommendExcludesQuery` therefore needs a strict
maximum, and `Recommender.RecommendTieReturnsQuery` shows the query returned,
in a row of at most 100 entries, whenever another position comes before it.

## Model

| member | source | states |
|---|---|---|
| Text.Split | app.py:35-36 | every word `split()` yields is non-empty and free of whitespace |
| Text.SplitKeepsNonSpace | app.py:35-36 | splitting drops exactly the whitespace: the words, concatenated, are the text's non-whitespace characters in order |
| Text.SplitJoin | app.py:51 | joining words with single blanks and splitting again returns the same words |
| Text.Join | app.py:51 | `" ".join` of no words is the empty string, and otherwise the words with exactly one blank between neighbours (its length is the letters plus one less than the words); `Text.SplitJoin` shows that splitting it returns the words |
| Text.DropBlanks | app.py:39-42 | `replace(" ", "")` leaves no blank, never lengthens a word, and leaves a word without blanks unchanged |
| Text.Lower | app.py:72 | lower-casing keeps the length, leaves no ASCII capital, and keeps whitespace exactly where it was |
| Text.SplitLower | app.py:72 | lower-casing a text keeps its number of words and their order and lower-cases each word |
| Stemming.StemText | app.py:60-66 | the loop appends the stem of each word of `text.split()` in order and returns them joined with blanks |
| Stemming.StemAll | app.py:61-64 | `stemmed_words` has one entry per word, and when the stemmer maps words to words it is again a list of words |
| Stemming.StemmedText | app.py:60-66 | a text without words stems to the empty string, otherwise to the stems with one blank between neighbours; `Stemming.StemText` computes it and `Stemming.StemKeepsWords` gives its words |
| Stemming.StemKeepsWords | app.py:60-66 | when the stemmer maps words to words, the result has as many words as the input and its k-th word is the stem of the k-th input word |
| Features.DropBlanksNoOp | app.py:39-42 | removing blanks from the words of a split changes none of them |
| Features.DropBlanksAll | app.py:39-42 | the blank removal keeps the number of words and leaves no blank in any of them; `Features.DropBlanksNoOp` shows it changes no word of a split |
| Features.FeatureText | app.py:35-51 | the words of the feature text are the Genres words followed by the synopsis words, each unchanged |
| Features.FeatureColumn | app.py:35-72 | the final `features` value has no ASCII capital, and is empty when Genres and synopsis have no words; `Features.FeatureColumnTokens` gives its words |
| Features.FeatureColumnTokens | app.py:44-72 | the words of the final `features` value are the lower-cased stems of the Genres words followed by those of the synopsis words |
| Ranking.Positions | app.py:91 | the positions `enumerate` pairs with the scores are 0, 1, ..., N-1 in order |
| Ranking.Ranked | app.py:91-92 | the sorted list has one valid position per row entry; `Ranking.RankedIsSortedPermutation` and `Ranking.StableSortIsRanked` show it is the result of Python's stable descending sort |
| Ranking.Insert | app.py:91-92 | inserting a position into a ranking adds exactly that position and keeps all positions valid |
| Ranking.InsertRanked | app.py:91-92 | inserting a new position into a ranked list keeps it ranked |
| Ranking.RankedIsSortedPermutation | app.py:91-92 | the ranking lists every position of the row exactly once, higher scores first, equal scores in ascending position |
| Ranking.RankedUnique | app.py:91-92 | two rankings of the same positions are equal, so a stable descending sort has one possible result |
| Ranking.StableSortIsRanked | app.py:91-92 | any ordering of all positions by descending score with ties in ascending position is the model's ranking |
| Ranking.SelectedOfRanking | app.py:91-93 | `[1:100]` of any such ordering is what the model keeps |
| Ranking.Selected | app.py:93 | the kept positions are valid positions of the row and number fewer than 100 |
| Ranking.SelectedLength | app.py:93 | `[1:100]` keeps min(99, N-1) entries of an N-entry row, none of an empty row |
| Ranking.SelectedIsRankSlice | app.py:93 | the kept entries are ranks 1, 2, ... of the ranking, and the first-ranked position is not among them |
| Ranking.SelectedOrder | app.py:91-93 | the kept positions have non-increasing scores, equal scores in ascending position, and no position twice |
| Ranking.SelectedBeatsRest | app.py:91-93 | a position that is neither first-ranked nor kept ranks after every kept position |
| Ranking.StrictTopDropped | app.py:91-93 | a position scoring strictly higher than all others is ranked first and so is dropped |
| Ranking.OvertakenNotFirst | app.py:91-92 | a position that another position comes before (higher score, or equal score and earlier) is not ranked first |
| Ranking.SelectedKeptRanks | app.py:91-93 | `[1:100]` keeps a position exactly when its rank in the sorted row is one of 1 to 99 |
| Ranking.SelectedAllButFirst | app.py:91-93 | in a row of at most 100 entries `[1:100]` keeps a position exactly when it is not the first-ranked one |
| Ranking.SelectedExcept | app.py:91-93 | the corrected selection never contains the query's own position, keeps only valid positions and fewer than 100 of them; which positions it keeps is given by `Ranking.SelectedExceptLength`, `Ranking.SelectedExceptOrder` and `Ranking.SelectedExceptBeatsRest` |
| Ranking.SelectedExceptWhenFirst | app.py:91-93 | when the query's own position ranks first, the corrected selection equals what `[1:100]` keeps |
| Ranking.SelectedExceptLength | app.py:91-93 | the corrected selection keeps exactly min(99, N-1) positions of an N-entry row |
| Ranking.SelectedExceptOrder | app.py:91-93 | the corrected selection is in ranked order: scores non-increasing, equal scores in ascending position, no position twice |
| Ranking.SelectedExceptBeatsRest | app.py:91-93 | a position other than the query's own that the corrected selection does not keep ranks after every kept position |
| Recommender.FindFirst | app.py:89 | lookup fails exactly when no `Name` equals the query, and otherwise yields the first position, in frame order, with that exact name |
| Recommender.NamesAt | app.py:94 | `iloc` by position: when every position is a row, one name per position, the name at that position; a position past the last row gives `[]` (the caught `IndexError`) |
| Recommender.Recommend | app.py:87-97 | at most 99 names; an unknown title gives `[]` instead of an error |
| Recommender.RecommendLooksUpFirstMatch | app.py:89-97 | the first row named `query` is used; if its label is not a row of the matrix the result is `[]`, otherwise it is the names at the kept ranks of matrix row `label` |
| Recommender.RecommendLength | app.py:90-95 | the result has at most 99 names and fewer names than the similarity row it read has entries |
| Recommender.RecommendExcludesQuery | app.py:89-95 | if the query's position scores strictly highest in the row read and titles are unique, the query is not recommended; without the strict maximum this fails (`Recommender.RecommendTieReturnsQuery`) |
| Recommender.RecommendReturnsQueryAtKeptRank | app.py:89-95 | with unique titles, for a row of any length, the query is recommended for itself exactly when its own position has rank 1 to 99 in the row read |
| Recommender.RecommendReturnsQueryUnlessFirst | app.py:89-95 | with unique titles and a row of at most 100 entries, the query is recommended for itself exactly when its own position is not ranked first |
| Recommender.RecommendTieReturnsQuery | app.py:83-95 | in a row of at most 100 entries, when some other position comes before the query's own in the row read (an equal score at an earlier position is enough), the query is recommended for itself |
| Recommender.RecommendByPosition | app.py:89-90 | the corrected lookup also returns at most 99 names and `[]` for an unknown title |
| Recommender.RecommendByPositionLooksUp | app.py:89-94 | the corrected lookup ranks the similarity row at the query's own position |
| Recommender.RecommendByPositionRanks | app.py:89-95 | over an N by N matrix, the corrected lookup returns exactly min(99, N-1) names, the names at the kept ranks in rank order |
| Recommender.RecommendByPositionExcludesQuery | app.py:89-95 | with a strict self-similarity maximum and unique titles, the corrected lookup never returns the query |
| Recommender.ResetIndex | app.py:89-90 | the reset frame has the same names in the same order, each label equal to its position, and labels still increasing |
| Recommender.NoGapsAgree | app.py:89-90 | when no row was dropped (labels equal positions) the code as written and the corrected lookup agree |
| Recommender.LabelNotBelowPosition | app.py:17 | after `dropna` a row's label is at least its position, so the code reads the query's own matrix row or a later one |
| Recommender.GapRaisesIndexError | app.py:89-97 | a frame whose CSV row 1 was dropped: the last title's label is past the matrix, and it gets `[]` while the corrected lookup returns a title |
| Recommender.GapReadsWrongRow | app.py:89-94 | a frame whose CSV row 1 was dropped: "B" is ranked with the row of "C" and is recommended for itself |
| Recommender.GapCorrectedReadsOwnRow | app.py:89-94 | on the same frame the corrected lookup ranks the row of "B" and returns "C", "A" |
| Recommender.ZeroRowReturnsQuery | app.py:83-95 | "B" has an all-zero similarity row: `recommend("B")` returns `["B","C"]`, while leaving out the query's own position returns `["A","C"]` |
| Recommender.RecommendExcludingSelf | app.py:89-95 | the fully corrected lookup (own row, own position left out) returns at most 99 names and `[]` for an unknown title; `Recommender.RecommendExcludingSelfRanks` gives which names |
| Recommender.RecommendExcludingSelfNeverQuery | app.py:89-95 | with unique titles the fully corrected lookup never returns the query, whatever the scores |
| Recommender.RecommendExcludingSelfAgrees | app.py:89-95 | when the query's own position ranks first, the fully corrected lookup returns what the reset-index lookup returns |
| Recommender.RecommendExcludingSelfRanks | app.py:89-95 | over an N by N matrix the fully corrected lookup returns exactly min(99, N-1) names, the names at the positions of the corrected selection in rank order |

## Left out

- Reading the CSV, `dropna`, the duplicate and missing-value counts, and the
  `Score` coercion, median fill and sort (app.py:10-32): I/O and pandas work
  whose results `recommend` does not use. Only what `dropna` does to the index
  labels is modelled, as `Recommender.DropnaLabels`.
- The Porter stemmer (`ps.stem`): it is nltk code, not part of this model. It
  is the parameter `stem: string -> string`, and the word-count lemmas assume
  that it maps each word to a non-empty word without whitespace.
- `CountVectorizer` (token pattern, English stop words, `max_features=5000`) and
  `cosine_similarity` (app.py:77-83): sklearn code and floating-point
  arithmetic. The similarity matrix is an input `seq<seq<real>>`. Only its
  comparisons matter to `recommend`. Its symmetry and unit diagonal are not
  modelled.
- Text.Lower: models `str.lower()` for ASCII letters only. Python lower-cases
  every Unicode letter, and some letters change length when lower-cased; the
  model does not capture either.
- Python's sort algorithm (Timsort) is not modelled step by step. Its result is
  fixed by stability, and `Ranking.StableSortIsRanked` shows that the model's
  insertion sort gives that same result.
- The Tkinter interface (app.py:101-246): the window, the message box when the
  result is empty, and the three-column grid placement. This is presentation
  code.

## Findings

| source | as written | input that shows it | evidently intended | confidence | as-written member | corrected member |
|---|---|---|---|---|---|---|
| app.py:89-90 | `.index[0]` returns the data-frame index label of the matching row, and `similarity[...]` uses it as a row position. After `dropna` (app.py:17) labels and positions differ once a row has been dropped | CSV row 1 dropped. Frame `[(0,"A"), (2,"B"), (3,"C")]` with similarity rows A `[1.0,0.2,0.1]`, B `[0.2,1.0,0.5]`, C `[0.1,0.5,1.0]`: `recommend("B")` ranks C's row and returns `["B","A"]`. With frame `[(0,"Naruto"), (2,"Bleach")]`, `recommend("Bleach")` raises `IndexError` on `similarity[2]` and returns `[]` | rank the similarity row at the query's position (`reset_index(drop=True)` before the lookup); this gives `["C","A"]` and `["Naruto"]` | high; not executed | Recommender.GapReadsWrongRow | Recommender.GapCorrectedReadsOwnRow |
| app.py:91-93 | `[1:100]` drops the first-ranked position and assumes that it is the query. Whenever at least one and at most 99 other positions come before the query's own in its row (a higher score, or an equal score at an earlier position), the query is kept instead. For example, a title with no vocabulary word has an all-zero similarity row (app.py:83), and a title whose count vector equals or is a positive multiple of an earlier title's ties with it at the top | frame `[(0,"A"), (1,"B"), (2,"C")]` where B's similarity row is `[0.0,0.0,0.0]`: `recommend("B")` returns `["B","C"]` | leave out the query's own position wherever it ranks and keep at most 99 of the rest; this gives `["A","C"]` and never the query | high; not executed | Recommender.ZeroRowReturnsQuery | Recommender.RecommendExcludingSelfNeverQuery |
