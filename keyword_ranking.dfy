/** `rank_by_job_role`: every resume is scored by weighted, case-insensitive
    keyword counts against a job role's keyword table, the score is normalised
    to at most 100, and the rankings are sorted highest first.

    The table is the list of (keyword, weight) rows read from the database for
    the role; it is a parameter here. Scores are exact rationals. */
module KeywordRanking {
  import opened Text
  import opened Ranked

  /** One (keyword, weight) row of a job role's table. */
  datatype Keyword = Keyword(word: string, weight: int)

  type Table = seq<Keyword>

  function Words(d: Table): set<string> {
    set e | e in d :: e.word
  }

  /** No keyword appears twice, as in a Python dict. */
  predicate DistinctWords(d: Table) {
    forall i, j :: 0 <= i < j < |d| ==> d[i].word != d[j].word
  }

  predicate NonNegativeWeights(d: Table) {
    forall i :: 0 <= i < |d| ==> d[i].weight >= 0
  }

  /** The weight the dict holds for `k`, if any. */
  function Lookup(d: Table, k: string): Option<int> {
    if d == [] then None
    else if d[0].word == k then Some(d[0].weight)
    else Lookup(d[1..], k)
  }

  /** The weight of the LAST row that names `k`: the value a dict built from
      the rows keeps for that key. */
  function LastWeight(rows: Table, k: string): Option<int> {
    if rows == [] then None
    else if rows[|rows| - 1].word == k then Some(rows[|rows| - 1].weight)
    else LastWeight(rows[..|rows| - 1], k)
  }

  lemma WordsCons(x: Keyword, d: Table)
    ensures Words([x] + d) == {x.word} + Words(d)
  {
    assert forall e :: e in [x] + d <==> e == x || e in d;
  }

  /** `d[k] = w`: overwrite the value of an existing key where it stands, or
      append a new key at the end. */
  function Put(d: Table, k: string, w: int): (r: Table)
    ensures Words(r) == Words(d) + {k}
    ensures forall k' :: Lookup(r, k') == if k' == k then Some(w) else Lookup(d, k')
    ensures forall e :: e in r ==> e in d || e == Keyword(k, w)
    decreases |d|
  {
    if d == [] then [Keyword(k, w)]
    else
      var x, tail := d[0], d[1..];
      assert d == [x] + tail;
      WordsCons(x, tail);
      if x.word == k then
        WordsCons(Keyword(k, w), tail);
        [Keyword(k, w)] + tail
      else
        var rest := Put(tail, k, w);
        WordsCons(x, rest);
        assert forall k' :: Lookup([x] + rest, k') == if x.word == k' then Some(x.weight) else Lookup(rest, k');
        [x] + rest
  }

  lemma WordsOfIndex(d: Table, i: int)
    requires 0 <= i < |d|
    ensures d[i].word in Words(d)
  {
    assert d[i] in d;
  }

  /** Setting a key never creates a duplicate key. */
  lemma {:induction false} PutKeepsDistinct(d: Table, k: string, w: int)
    requires DistinctWords(d)
    ensures DistinctWords(Put(d, k, w))
    decreases |d|
  {
    if d != [] && d[0].word != k {
      var rest := Put(d[1..], k, w);
      PutKeepsDistinct(d[1..], k, w);
      assert d[0].word !in Words(d[1..]);
      forall j | 0 <= j < |rest|
        ensures rest[j].word != d[0].word
      {
        WordsOfIndex(rest, j);
      }
    }
  }

  /** `{kw: w for kw, w in rows}`: keys in order of first appearance, each
      keeping the weight of its last row. */
  function DictFromRows(rows: Table): (r: Table)
    ensures DistinctWords(r)
    ensures Words(r) == Words(rows)
    ensures forall k :: Lookup(r, k) == LastWeight(rows, k)
    ensures forall e :: e in r ==> e in rows
  {
    if rows == [] then []
    else
      var init := rows[..|rows| - 1];
      var last := rows[|rows| - 1];
      assert rows == init + [last];
      var d := DictFromRows(init);
      PutKeepsDistinct(d, last.word, last.weight);
      Put(d, last.word, last.weight)
  }

  lemma {:induction false} PutNewWord(d: Table, k: string, w: int)
    requires k !in Words(d)
    ensures Put(d, k, w) == d + [Keyword(k, w)]
    decreases |d|
  {
    if d != [] {
      assert d[0] in d;
      assert Words(d[1..]) <= Words(d);
      PutNewWord(d[1..], k, w);
      assert d == [d[0]] + d[1..];
    }
  }

  /** Rows that never repeat a keyword become a dict with the same entries
      in the same order. */
  lemma {:induction false} DistinctRowsUnchanged(rows: Table)
    requires DistinctWords(rows)
    ensures DictFromRows(rows) == rows
    decreases |rows|
  {
    if rows != [] {
      var init := rows[..|rows| - 1];
      var last := rows[|rows| - 1];
      DistinctRowsUnchanged(init);
      assert last.word !in Words(init);
      PutNewWord(init, last.word, last.weight);
      assert rows == init + [last];
    }
  }

  /** `sum(keywords.values())`. */
  function WeightTotal(d: Table): int {
    if d == [] then 0 else WeightTotal(d[..|d| - 1]) + d[|d| - 1].weight
  }

  /** Σ weight × (occurrences of the lower-cased keyword in `textLower`), over
      the first |d| keywords of the dict in its order. */
  function RawScore(d: Table, textLower: string): int {
    if d == [] then 0
    else
      var last := d[|d| - 1];
      RawScore(d[..|d| - 1], textLower) + last.weight * Count(textLower, Lower(last.word))
  }

  function Min(a: real, b: real): (m: real)
    ensures m <= a && m <= b
    ensures m == a || m == b
  {
    if a <= b then a else b
  }

  /** `min((score / max_possible_score) * 100, 100) if max_possible_score > 0 else 0`
      with `max_possible_score = total * 10`. */
  function Normalize(raw: int, total: int): (r: real)
    ensures r <= 100.0
    ensures raw >= 0 ==> r >= 0.0
    ensures total <= 0 ==> r == 0.0
  {
    var maxPossible := total * 10;
    if maxPossible > 0 then Min((raw as real / maxPossible as real) * 100.0, 100.0) else 0.0
  }

  /** The normalised score of one resume text. */
  function KeywordScore(d: Table, text: string): (r: real)
    ensures r <= 100.0
    ensures NonNegativeWeights(d) ==> 0.0 <= r
    ensures WeightTotal(d) <= 0 ==> r == 0.0
  {
    NonNegativeRawScore(d, Lower(text));
    Normalize(RawScore(d, Lower(text)), WeightTotal(d))
  }

  predicate AllTextsPresent(resumes: seq<Resume>) {
    forall i :: 0 <= i < |resumes| ==> resumes[i].text.Some?
  }

  /** The list `rankings` before sorting: one tuple per resume, in input order. */
  function KeywordScores(resumes: seq<Resume>, d: Table): (r: seq<Entry>)
    requires AllTextsPresent(resumes)
    ensures |r| == |resumes|
    ensures forall i :: 0 <= i < |resumes| ==>
      r[i].id == resumes[i].id && r[i].fileName == resumes[i].fileName
  {
    seq(|resumes|, i requires 0 <= i < |resumes| =>
      Entry(resumes[i].id, resumes[i].fileName, KeywordScore(d, resumes[i].text.value)))
  }

  lemma KeywordScoresAppend(resumes: seq<Resume>, i: int, d: Table)
    requires AllTextsPresent(resumes) && 0 <= i < |resumes|
    ensures KeywordScores(resumes[..i + 1], d)
         == KeywordScores(resumes[..i], d) + [Entry(resumes[i].id, resumes[i].fileName, KeywordScore(d, resumes[i].text.value))]
  {
  }

  /** `rank_by_job_role(resumes, role)` with the role's rows passed in. */
  method RankByJobRole(resumes: seq<Resume>, rows: Table) returns (ranking: seq<Entry>)
    requires AllTextsPresent(resumes)
    ensures ranking == SortByScoreDesc(KeywordScores(resumes, DictFromRows(rows)))
    ensures |ranking| == |resumes|
    ensures multiset(ranking) == multiset(KeywordScores(resumes, DictFromRows(rows)))
    ensures Sorted(ranking)
  {
    var keywords := DictFromRows(rows);
    var rankings: seq<Entry> := [];
    var i := 0;
    while i < |resumes|
      invariant 0 <= i <= |resumes|
      invariant rankings == KeywordScores(resumes[..i], keywords)
    {
      var resume := resumes[i];
      var score := 0;
      var textLower := Lower(resume.text.value);
      var j := 0;
      while j < |keywords|
        invariant 0 <= j <= |keywords|
        invariant score == RawScore(keywords[..j], textLower)
      {
        var keyword := keywords[j];
        var occurrences := Count(textLower, Lower(keyword.word));
        score := score + keyword.weight * occurrences;
        assert keywords[..j + 1][..j] == keywords[..j];
        j := j + 1;
      }
      assert keywords[..j] == keywords;
      var maxPossibleScore := WeightTotal(keywords) * 10;
      var normalizedScore :=
        if maxPossibleScore > 0 then Min((score as real / maxPossibleScore as real) * 100.0, 100.0) else 0.0;
      assert normalizedScore == KeywordScore(keywords, resume.text.value);
      KeywordScoresAppend(resumes, i, keywords);
      rankings := rankings + [Entry(resume.id, resume.fileName, normalizedScore)];
      i := i + 1;
    }
    assert resumes[..i] == resumes;
    ranking := SortByScoreDesc(rankings);
  }

  // ---------------------------------------------------------------------------
  // Properties of the score

  lemma {:induction false} NonNegativeRawScore(d: Table, t: string)
    ensures NonNegativeWeights(d) ==> RawScore(d, t) >= 0
    decreases |d|
  {
    if d != [] && NonNegativeWeights(d) {
      NonNegativeRawScore(d[..|d| - 1], t);
    }
  }

  /** With an empty table, or a dict whose weights sum to 0 or less, every
      resume scores 0 and the ranking is the resumes in input order. */
  lemma EmptyTableRanksInInputOrder(resumes: seq<Resume>, rows: Table)
    requires AllTextsPresent(resumes)
    requires rows == [] || WeightTotal(DictFromRows(rows)) <= 0
    ensures SortByScoreDesc(KeywordScores(resumes, DictFromRows(rows)))
         == seq(|resumes|, i requires 0 <= i < |resumes| => Entry(resumes[i].id, resumes[i].fileName, 0.0))
  {
    var s := KeywordScores(resumes, DictFromRows(rows));
    SortKeepsEqualScores(s, 0.0);
  }

  /** With non-empty keywords, an empty text scores 0. */
  lemma {:induction false} EmptyTextRawScoreZero(d: Table)
    requires forall i :: 0 <= i < |d| ==> |d[i].word| > 0
    ensures RawScore(d, "") == 0
    decreases |d|
  {
    if d != [] {
      EmptyTextRawScoreZero(d[..|d| - 1]);
    }
  }

  lemma EmptyTextScoresZero(d: Table)
    requires forall i :: 0 <= i < |d| ==> |d[i].word| > 0
    ensures KeywordScore(d, "") == 0.0
  {
    EmptyTextRawScoreZero(d);
    assert Lower("") == "";
  }

  /** Normalisation never ranks a smaller raw score above a larger one. */
  lemma NormalizeMonotone(a: int, b: int, total: int)
    requires a <= b
    ensures Normalize(a, total) <= Normalize(b, total)
  {
    if total > 0 {
      var m := (total * 10) as real;
      assert a as real / m <= b as real / m;
    }
  }

  /** Below saturation, a strictly larger raw score gives a strictly larger score. */
  lemma NormalizeStrict(a: int, b: int, total: int)
    requires a < b && total > 0 && Normalize(a, total) < 100.0
    ensures Normalize(a, total) < Normalize(b, total)
  {
    var m := (total * 10) as real;
    assert a as real / m < b as real / m;
  }

  /** The score is exactly 100 if and only if the raw score reaches ten times the weight total. */
  lemma NormalizeSaturates(raw: int, total: int)
    requires total > 0
    ensures Normalize(raw, total) == 100.0 <==> raw >= total * 10
  {
    var m := (total * 10) as real;
    if raw >= total * 10 {
      assert raw as real / m >= 1.0;
    } else {
      BelowDivisorBelowOne(raw as real, m);
    }
  }

  lemma BelowDivisorBelowOne(x: real, m: real)
    requires 0.0 < m && x < m
    ensures x / m < 1.0
  {
    assert x / m * m == x;
  }

  lemma {:induction false} RawScorePrefixMonotone(d: Table, p: string, t: string)
    requires NonNegativeWeights(d)
    ensures RawScore(d, t) <= RawScore(d, p + t)
    decreases |d|
  {
    if d != [] {
      var last := d[|d| - 1];
      RawScorePrefixMonotone(d[..|d| - 1], p, t);
      CountPrefixMonotone(p, t, Lower(last.word));
      MulMonotone(last.weight, Count(t, Lower(last.word)), Count(p + t, Lower(last.word)));
    }
  }

  lemma MulMonotone(w: int, a: int, b: int)
    requires w >= 0 && a <= b
    ensures w * a <= w * b
  {
  }

  lemma MulSucc(w: int, c: int)
    ensures w * (c + 1) == w * c + w
  {
  }

  /** Adding one occurrence of the j-th keyword raises the raw score by at
      least that keyword's weight. */
  lemma {:induction false} RawScoreGainsKeyword(d: Table, j: int, t: string)
    requires NonNegativeWeights(d) && 0 <= j < |d| && |d[j].word| > 0
    ensures RawScore(d, Lower(d[j].word) + t) >= RawScore(d, t) + d[j].weight
    decreases |d|
  {
    var k := Lower(d[j].word);
    var init := d[..|d| - 1];
    var last := d[|d| - 1];
    var lk := Lower(last.word);
    assert RawScore(d, t) == RawScore(init, t) + last.weight * Count(t, lk);
    assert RawScore(d, k + t) == RawScore(init, k + t) + last.weight * Count(k + t, lk);
    if j == |d| - 1 {
      RawScorePrefixMonotone(init, k, t);
      CountPrepend(k, t);
      MulSucc(last.weight, Count(t, k));
    } else {
      assert init[j] == d[j];
      RawScoreGainsKeyword(init, j, t);
      CountPrefixMonotone(k, t, lk);
      MulMonotone(last.weight, Count(t, lk), Count(k + t, lk));
    }
  }

  /** Writing more text in front of a resume never lowers its score. */
  lemma PrependNeverLowers(d: Table, p: string, text: string)
    requires NonNegativeWeights(d)
    ensures KeywordScore(d, text) <= KeywordScore(d, p + text)
  {
    LowerAppend(p, text);
    RawScorePrefixMonotone(d, Lower(p), Lower(text));
    NormalizeMonotone(RawScore(d, Lower(text)), RawScore(d, Lower(p + text)), WeightTotal(d));
  }

  /** Adding an occurrence of a keyword with positive weight strictly raises
      the score, unless the score is already the maximum 100. */
  lemma AddedOccurrenceRaises(d: Table, j: int, text: string)
    requires NonNegativeWeights(d) && 0 <= j < |d| && |d[j].word| > 0 && d[j].weight > 0
    ensures KeywordScore(d, text) <= KeywordScore(d, d[j].word + text)
    ensures KeywordScore(d, text) < KeywordScore(d, d[j].word + text) || KeywordScore(d, text) == 100.0
  {
    var kw := d[j].word;
    LowerAppend(kw, text);
    RawScoreGainsKeyword(d, j, Lower(text));
    var a := RawScore(d, Lower(text));
    var b := RawScore(d, Lower(kw + text));
    NormalizeMonotone(a, b, WeightTotal(d));
    WeightTotalOfNonNegative(d, j);
    if KeywordScore(d, text) < 100.0 {
      NormalizeStrict(a, b, WeightTotal(d));
    }
  }

  /** With non-negative weights, the raw score is at least any one keyword's contribution. */
  lemma {:induction false} RawScoreAtLeastTerm(d: Table, j: int, t: string)
    requires NonNegativeWeights(d) && 0 <= j < |d|
    ensures RawScore(d, t) >= d[j].weight * Count(t, Lower(d[j].word))
    decreases |d|
  {
    var init := d[..|d| - 1];
    if j < |d| - 1 {
      assert init[j] == d[j];
      RawScoreAtLeastTerm(init, j, t);
      MulMonotone(d[|d| - 1].weight, 0, Count(t, Lower(d[|d| - 1].word)));
    } else {
      NonNegativeRawScore(init, t);
    }
  }

  /** With non-negative weights, the total is at least any single weight. */
  lemma {:induction false} WeightTotalOfNonNegative(d: Table, j: int)
    requires NonNegativeWeights(d) && 0 <= j < |d|
    ensures WeightTotal(d) >= d[j].weight
    decreases |d|
  {
    var init := d[..|d| - 1];
    if j < |d| - 1 {
      assert init[j] == d[j];
      WeightTotalOfNonNegative(init, j);
    } else {
      WeightTotalNonNegative(init);
    }
  }

  lemma {:induction false} WeightTotalNonNegative(d: Table)
    requires NonNegativeWeights(d)
    ensures WeightTotal(d) >= 0
    decreases |d|
  {
    if d != [] {
      WeightTotalNonNegative(d[..|d| - 1]);
    }
  }

  // ---------------------------------------------------------------------------
  // Properties of the ranking

  /** The dict keeps only weights that appear in the rows. */
  lemma DictWeightsNonNegative(rows: Table)
    requires NonNegativeWeights(rows)
    ensures NonNegativeWeights(DictFromRows(rows))
  {
    var d := DictFromRows(rows);
    forall k | 0 <= k < |d| ensures d[k].weight >= 0 {
      assert d[k] in rows;
    }
  }

  /** Every ranked tuple is some resume's id and file name with that resume's
      keyword score; with non-negative weights every score lies in [0, 100]. */
  lemma JobRoleRankingEntries(resumes: seq<Resume>, rows: Table, e: Entry)
    requires AllTextsPresent(resumes)
    requires e in SortByScoreDesc(KeywordScores(resumes, DictFromRows(rows)))
    ensures exists i :: 0 <= i < |resumes| && e == Entry(resumes[i].id, resumes[i].fileName,
                                                         KeywordScore(DictFromRows(rows), resumes[i].text.value))
    ensures NonNegativeWeights(rows) ==> 0.0 <= e.score <= 100.0
  {
    var d := DictFromRows(rows);
    var s := KeywordScores(resumes, d);
    SortedFromInput(s, e);
    var i :| 0 <= i < |s| && s[i] == e;
    assert e == Entry(resumes[i].id, resumes[i].fileName, KeywordScore(d, resumes[i].text.value));
    if NonNegativeWeights(rows) {
      DictWeightsNonNegative(rows);
    }
  }

  /** Resumes with equal scores keep their input order in the ranking. */
  lemma JobRoleRankingIsStable(resumes: seq<Resume>, rows: Table, v: real)
    requires AllTextsPresent(resumes)
    ensures WithScore(SortByScoreDesc(KeywordScores(resumes, DictFromRows(rows))), v)
         == WithScore(KeywordScores(resumes, DictFromRows(rows)), v)
  {
    SortIsStable(KeywordScores(resumes, DictFromRows(rows)), v);
  }
}
