# ResumeRanking ranking engine in Dafny

This project models the ranking engine of ResumeRanking (`ranking.py`). It
has two rankers. Both take the rows (resume_id, file_name, text_content) of a
user's resumes and return (resume_id, file_name, score) tuples, highest score
first.

- `rank_by_job_role` scores each resume against the weighted keyword table of
  a job role. It lower-cases the text and counts each lower-cased keyword
  with Python's `str.count`, which counts non-overlapping occurrences from
  the left. Each count is multiplied by the keyword's weight and the products
  are summed. The sum is divided by ten times the weight total, scaled to
  100 and capped at 100; the score is 0 when that divisor is not positive.
  The tuples are then sorted by score with Python's stable `sorted`.
- `rank_by_description` builds a corpus from every resume's text (`""` when
  the text is missing) and appends the job description as the last document.
  Each resume scores 100 times the cosine similarity between its TF-IDF
  vector and the description's. When the vectoriser raises `ValueError`,
  every resume scores 0.0. The tuples are sorted the same way.

Files:

- `text.dfy` (`Text`): ASCII `lower()` and `str.count`, with the counting
  facts the scorer needs.
- `ranked.dfy` (`Ranked`): resume rows, output tuples, and the stable
  descending sort. The sort is proved sorted, a permutation and stable, and
  these three properties are proved to determine its result.
- `keyword_ranking.dfy` (`KeywordRanking`): the dict built from the table
  rows, the raw and normalised scores, and `RankByJobRole`. That method keeps
  the source's nested loops and is proved equal to the sorted specification
  function. Lemmas cover bounds, the zero cases, monotonicity and saturation.
- `description_ranking.dfy` (`DescriptionRanking`): the corpus, score
  scaling, the `ValueError` fallback and the sort. The similarity library is
  a function parameter.
- `keyword_examples.dfy` (`KeywordExamples`): the five role tables the
  database is seeded with, and worked scores.

The keyword table comes from the database. Here it is a parameter: the list
of (keyword, weight) rows the query returns. The description ranker's
similarity computation is also a parameter. It is a function from the corpus
to either a row of similarities or `ValueError`. Scores are exact rationals
(`real`).

What the engine does not do, and the model therefore does not do either:

- `ranking.py` does not check weights: a zero or negative weight is simply
  summed, and a negative one can push a score below 0. The bound and
  monotonicity lemmas therefore assume non-negative weights.
- `ranking.py` does not refuse an empty resume list:
  `rank_by_job_role([], …)` returns `[]`. The guard against ranking zero
  resumes lives in the UI (`app.py:807`). The model returns the empty ranking.
- `rank_by_description` catches only `ValueError` from the vectoriser; any
  other exception propagates out of the call unchanged.

## Model

| member | source | states |
|---|---|---|
| Text.LowerChar | ranking.py:21 | lower-casing one character never yields an upper-case letter; `A`–`Z` move up by 32 and every other character is unchanged |
| Text.Lower | ranking.py:21 | ASCII `text.lower()` keeps the length and lower-cases each character in place |
| Text.LowerAppend | ranking.py:21 | lower-casing distributes over concatenation |
| Text.LowerIdempotent | ranking.py:21 | lower-casing twice equals lower-casing once, and no upper-case letter remains |
| Text.LowerUnchanged | ranking.py:24 | a keyword without upper-case letters is its own `keyword.lower()` |
| Text.Count | ranking.py:24 | `text_lower.count(kw)`, greedy non-overlapping count from the left, `len + 1` for the empty keyword; its contract bounds a non-empty keyword's count by the text length, and CountPositiveIffOccurs, CountFitsInText, CountPrepend and CountPrefixMonotone describe it |
| Text.CountPositiveIffOccurs | ranking.py:24 | a keyword, the empty one included, is counted at least once if and only if it occurs somewhere in the text |
| Text.CountFitsInText | ranking.py:24 | the counted occurrences do not overlap: count × keyword length ≤ text length, for every keyword |
| Text.CountPrepend | ranking.py:24 | for a non-empty keyword, putting one more copy of it in front raises the count by exactly one |
| Text.CountDropPrefix | ranking.py:24 | dropping any prefix of the text never raises the count |
| Text.CountPrefixMonotone | ranking.py:24 | text added in front never lowers any keyword's count |
| Text.CountSkipUnmatched | ranking.py:24 | a stretch of text where no occurrence starts adds nothing to the count |
| Text.CountSkipAbsentFirst | ranking.py:24 | text lacking the keyword's first character adds nothing to the count |
| Text.CountSkipFalseStart | ranking.py:24 | a keyword's first character not followed by its second adds nothing to the count |
| Ranked.Insert | ranking.py:32 | inserting adds exactly the new tuple (multiset) |
| Ranked.InsertSorted | ranking.py:32 | inserting into a descending sequence keeps it descending |
| Ranked.SortByScoreDesc | ranking.py:32 | `sorted(rankings, key=score, reverse=True)` is a permutation of its input, has the same length and is non-increasing in score |
| Ranked.SortIsStable | ranking.py:32 | for every score, the tuples with that score leave the sort in the order they entered it |
| Ranked.SortedStableUnique | ranking.py:32 | two non-increasing sequences that hold, score by score, the same tuples in the same order are equal; so sortedness plus stability pin down the result |
| Ranked.SortCharacterised | ranking.py:32 | any non-increasing sequence holding, score by score, the input's tuples in the input's order is exactly the result of the sort |
| Ranked.SortKeepsEqualScores | ranking.py:32 | when all scores are equal, sorting returns the input unchanged |
| Ranked.SortedFromInput | ranking.py:32 | every output tuple is an input tuple |
| KeywordRanking.Put | ranking.py:15 | setting `d[k] = w` adds `k` to the key set, maps `k` to `w`, and leaves every other key's value unchanged |
| KeywordRanking.PutKeepsDistinct | ranking.py:15 | setting a key never creates a duplicate key |
| KeywordRanking.DictFromRows | ranking.py:15 | `{kw: w for kw, w in rows}` has distinct keys, exactly the keywords of the rows, and for each key the weight of the last row naming it |
| KeywordRanking.PutNewWord | ranking.py:15 | a new key is appended at the end of the dict's order |
| KeywordRanking.DistinctRowsUnchanged | ranking.py:15 | rows that never repeat a keyword give a dict with the same entries in the same order |
| KeywordRanking.DictWeightsNonNegative | ranking.py:15 | building the dict from rows with non-negative weights leaves only non-negative weights |
| KeywordRanking.WeightTotal | ranking.py:27 | `sum(keywords.values())`; the definition, described by WeightTotalNonNegative and WeightTotalOfNonNegative |
| KeywordRanking.RawScore | ranking.py:20-25 | the accumulated `score`, Σ weight × count of the lower-cased keyword over the dict in order; the definition, which RankByJobRole's inner loop is proved to compute and NonNegativeRawScore, RawScorePrefixMonotone, RawScoreGainsKeyword and RawScoreAtLeastTerm describe |
| KeywordRanking.Min | ranking.py:28 | the result is no larger than either argument and equals one of them |
| KeywordRanking.Normalize | ranking.py:27-28 | the normalised score is at most 100, is non-negative for a non-negative raw score, and is 0 when `max_possible_score` is not positive |
| KeywordRanking.KeywordScore | ranking.py:20-28 | a resume's score is at most 100, at least 0 when weights are non-negative, and 0 when the weights sum to 0 or less |
| KeywordRanking.KeywordScores | ranking.py:19-29 | the unsorted `rankings` has one tuple per resume, in order, with that resume's id and file name |
| KeywordRanking.KeywordScoresAppend | ranking.py:29 | each loop iteration appends exactly the current resume's tuple |
| KeywordRanking.RankByJobRole | ranking.py:5-32 | the nested loops compute the stable descending sort of each resume's normalised weighted count; the result has one tuple per resume, is a permutation of the scored resumes, and is sorted |
| KeywordRanking.NonNegativeRawScore | ranking.py:20-25 | with non-negative weights the accumulated score is never negative |
| KeywordRanking.EmptyTableRanksInInputOrder | ranking.py:27-32 | with an empty table, or dict weights summing to 0 or less, every resume scores 0 and the ranking is the resumes in input order |
| KeywordRanking.EmptyTextRawScoreZero | ranking.py:20-25 | with non-empty keywords, an empty text accumulates 0 |
| KeywordRanking.EmptyTextScoresZero | ranking.py:20-28 | with non-empty keywords, an empty text scores 0 |
| KeywordRanking.NormalizeMonotone | ranking.py:28 | normalisation never puts a smaller raw score above a larger one |
| KeywordRanking.NormalizeStrict | ranking.py:28 | with a positive weight total and below the cap, a strictly larger raw score gives a strictly larger score |
| KeywordRanking.NormalizeSaturates | ranking.py:27-28 | with a positive weight total, the score is exactly 100 if and only if the raw score reaches ten times that total |
| KeywordRanking.RawScorePrefixMonotone | ranking.py:22-25 | with non-negative weights, text added in front never lowers the accumulated score |
| KeywordRanking.RawScoreGainsKeyword | ranking.py:22-25 | with non-negative weights, one more leading occurrence of a non-empty keyword raises the accumulated score by at least its weight |
| KeywordRanking.RawScoreAtLeastTerm | ranking.py:22-25 | with non-negative weights, the accumulated score is at least any one keyword's weight × count |
| KeywordRanking.PrependNeverLowers | ranking.py:21-28 | with non-negative weights, text added in front never lowers the normalised score |
| KeywordRanking.AddedOccurrenceRaises | ranking.py:21-28 | with non-negative weights, adding a leading occurrence of a non-empty keyword with positive weight never lowers the score, and raises it strictly unless it is already 100 |
| KeywordRanking.WeightTotalOfNonNegative | ranking.py:27 | with non-negative weights, `sum(keywords.values())` is at least each weight |
| KeywordRanking.WeightTotalNonNegative | ranking.py:27 | with non-negative weights, the weight total is non-negative |
| KeywordRanking.JobRoleRankingEntries | ranking.py:19-32 | every ranked tuple is some resume's id and file name with that resume's score; with non-negative weights, every score lies in [0, 100] |
| KeywordRanking.JobRoleRankingIsStable | ranking.py:32 | resumes with equal keyword scores keep their input order |
| DescriptionRanking.TextOrEmpty | ranking.py:44 | `text if text else ""`; the definition, whose effect Corpus states per resume |
| DescriptionRanking.Corpus | ranking.py:44-45 | the corpus is each resume's text in order (`""` for a missing one), followed by the description as the last document |
| DescriptionRanking.ScoreAt | ranking.py:56-59 | a resume's score is 0.0 after `ValueError`, and lies in [0, 100] when the similarities lie in [0, 1] |
| DescriptionRanking.DescriptionScores | ranking.py:53-59 | the unsorted `rankings` has one tuple per resume, with that resume's id and file name |
| DescriptionRanking.RankByDescription | ranking.py:34-62 | the result has one tuple per resume, is a permutation of the scored resumes, and is sorted by score, highest first |
| DescriptionRanking.DescriptionRankingEntries | ranking.py:53-62 | every ranked tuple is some resume's id and file name with 100 × its similarity, or 0.0 after `ValueError`; the score lies in [0, 100] when the similarities lie in [0, 1] |
| DescriptionRanking.FallbackKeepsInputOrder | ranking.py:57-62 | on `ValueError` every resume scores 0.0 and the ranking is the resumes in input order |
| DescriptionRanking.DescriptionRankingIsStable | ranking.py:62 | resumes with equal similarity scores keep their input order |
| KeywordExamples.WellFormedTableIsDict | ranking.py:15-27 | a non-empty table with distinct non-empty keywords and positive weights is its own dict and has a positive weight total |
| KeywordExamples.DataScientistTable | database.py:79-82 | the Data Scientist seed table is well formed and is its own dict |
| KeywordExamples.WebDeveloperTable | database.py:83-86 | the Web Developer seed table is well formed and is its own dict |
| KeywordExamples.ProjectManagerTable | database.py:87-90 | the Project Manager seed table is well formed and is its own dict |
| KeywordExamples.SoftwareEngineerTable | database.py:91-94 | the Software Engineer seed table is well formed and is its own dict |
| KeywordExamples.DevOpsEngineerTable | database.py:95-98 | the DevOps Engineer seed table is well formed and is its own dict |
| KeywordExamples.LeadingKeywordScores | ranking.py:22-28 | with non-negative weights, a text whose lower-cased form begins with a non-empty keyword of positive weight scores above 0 |
| KeywordExamples.SubstringMatchCounts | ranking.py:24 | matching is by substring: with the Software Engineer table, "JavaScript" earns the weight of "java" and scores above 0 |
| KeywordExamples.ExamplePythonCount | ranking.py:24 | "python" occurs twice in the lower-cased "Python developer with Python and SQL skills" |
| KeywordExamples.ExampleSqlCount | ranking.py:24 | "sql" occurs once in that text |
| KeywordExamples.ExampleScore | ranking.py:19-28 | with the table {"python": 5, "sql": 3}, that text has raw score 13 and normalised score 16.25 |

## Left out

- Reading the keyword rows (`get_keywords_for_role`) and the resume rows from MySQL is I/O. Both become inputs.
- TF-IDF vectorisation and cosine similarity (stop words, `max_features=5000`) belong to a foreign library and use floating point. They are the `similarity` parameter. Their results are assumed to lie in [0, 1] only where a lemma says so (`InUnitInterval`).
- DescriptionRanking.RankByDescription: requires the similarity row to have one value per resume, as `cosine_similarity` of the last row against the earlier rows does. The model does not derive this from a vectoriser.
- DescriptionRanking.RankByDescription: models only `ValueError` from the vectoriser. Any other exception propagates out of the call in the source and is not modelled.
- Whether a resume identical to the description scores highest depends on TF-IDF, which is not modelled.
- Floating-point rounding is not modelled. Scores are exact rationals, so the example gives exactly 16.25. The source returns the integer `0` rather than `0.0` when the weight total is not positive, and the integer `100` when `min(x, 100)` caps a larger score; the model does not keep these type differences.
- `lower()` is ASCII-only here. Unicode case mapping is not modelled.
- KeywordRanking.RankByJobRole: requires every resume text to be present. On a NULL text the source's `text.lower()` raises an exception, which is not modelled.
- `str.count` with an empty keyword is modelled exactly: it returns the text length + 1. The zero-score lemmas for empty texts require non-empty keywords, as the seed tables have.
- Determinism (ranking the same input twice gives the same result) holds for every Dafny function, so it gets no lemma.
- The Streamlit UI, account handling, file upload and text extraction (`app.py`, `file_processor.py`) and the rest of `database.py` are not part of this model.
