/** `rank_by_description`: resumes are scored by their similarity to a free-text
    job description, scaled to 0..100, and sorted highest first.

    Building the TF-IDF vectors and their cosine similarities is done by a
    library outside this model; it is the parameter `similarity`, which maps
    the corpus to the similarities between its last document and each earlier
    one, or to `ValueError` when the vectoriser cannot build a vocabulary. */
module DescriptionRanking {
  import opened Ranked

  /** What the vectoriser and cosine similarity produce for a corpus. */
  datatype Similarity = Cosine(row: seq<real>) | ValueError

  /** `text if text else ""`: a NULL text column becomes the empty document. */
  function TextOrEmpty(text: Option<string>): string {
    match text
    case Some(t) => t
    case None => ""
  }

  /** The documents handed to the vectoriser: every resume's text, in order,
      then the description as the last pseudo-document. */
  function Corpus(resumes: seq<Resume>, description: string): (texts: seq<string>)
    ensures |texts| == |resumes| + 1
    ensures texts[|resumes|] == description
    ensures forall i :: 0 <= i < |resumes| ==>
      texts[i] == (if resumes[i].text.Some? then resumes[i].text.value else "")
  {
    seq(|resumes|, i requires 0 <= i < |resumes| => TextOrEmpty(resumes[i].text)) + [description]
  }

  /** The similarity row has one value per resume, as `cosine_similarity` of
      the last row against all earlier rows does. */
  predicate WellShaped(out: Similarity, n: nat) {
    out.Cosine? ==> |out.row| == n
  }

  /** Every similarity lies in [0, 1], as cosine similarity of non-negative
      TF-IDF vectors does. */
  predicate InUnitInterval(out: Similarity) {
    out.Cosine? ==> forall i :: 0 <= i < |out.row| ==> 0.0 <= out.row[i] <= 1.0
  }

  /** The score the resume at index `i` receives: `score * 100` for its
      similarity, or 0.0 for every resume after a `ValueError`. */
  function ScoreAt(out: Similarity, i: int): (score: real)
    requires out.Cosine? ==> 0 <= i < |out.row|
    ensures out.ValueError? ==> score == 0.0
    ensures InUnitInterval(out) ==> 0.0 <= score <= 100.0
  {
    if out.Cosine? then out.row[i] * 100.0 else 0.0
  }

  /** The list `rankings` before sorting: similarity × 100 per resume, or 0.0
      for every resume when the vectoriser raised `ValueError`. */
  function DescriptionScores(resumes: seq<Resume>, out: Similarity): (r: seq<Entry>)
    requires WellShaped(out, |resumes|)
    ensures |r| == |resumes|
    ensures forall i :: 0 <= i < |resumes| ==>
      r[i].id == resumes[i].id && r[i].fileName == resumes[i].fileName
  {
    seq(|resumes|, i requires 0 <= i < |resumes| => Entry(resumes[i].id, resumes[i].fileName, ScoreAt(out, i)))
  }

  /** `rank_by_description(resumes, description)`. */
  function RankByDescription(resumes: seq<Resume>, description: string,
                             similarity: seq<string> -> Similarity): (ranking: seq<Entry>)
    requires WellShaped(similarity(Corpus(resumes, description)), |resumes|)
    ensures |ranking| == |resumes|
    ensures Sorted(ranking)
    ensures multiset(ranking) == multiset(DescriptionScores(resumes, similarity(Corpus(resumes, description))))
  {
    SortByScoreDesc(DescriptionScores(resumes, similarity(Corpus(resumes, description))))
  }

  /** Every ranked entry is some resume's id and file name with 100 × that
      resume's similarity to the description (0.0 after a `ValueError`); so
      every score lies in [0, 100] when the similarities lie in [0, 1]. */
  lemma DescriptionRankingEntries(resumes: seq<Resume>, description: string,
                                  similarity: seq<string> -> Similarity, e: Entry)
    requires WellShaped(similarity(Corpus(resumes, description)), |resumes|)
    requires e in RankByDescription(resumes, description, similarity)
    ensures exists i :: 0 <= i < |resumes| && e == Entry(resumes[i].id, resumes[i].fileName,
                                                         ScoreAt(similarity(Corpus(resumes, description)), i))
    ensures InUnitInterval(similarity(Corpus(resumes, description))) ==> 0.0 <= e.score <= 100.0
  {
    var out := similarity(Corpus(resumes, description));
    var s := DescriptionScores(resumes, out);
    SortedFromInput(s, e);
    var i :| 0 <= i < |s| && s[i] == e;
    assert e == Entry(resumes[i].id, resumes[i].fileName, ScoreAt(out, i));
  }

  /** When the vectoriser raises `ValueError`, every resume scores 0.0 and,
      all scores being equal, the ranking keeps the input order. */
  lemma {:induction false} FallbackKeepsInputOrder(resumes: seq<Resume>, description: string,
                                                   similarity: seq<string> -> Similarity)
    requires similarity(Corpus(resumes, description)) == ValueError
    ensures RankByDescription(resumes, description, similarity)
         == seq(|resumes|, i requires 0 <= i < |resumes| => Entry(resumes[i].id, resumes[i].fileName, 0.0))
  {
    SortKeepsEqualScores(DescriptionScores(resumes, ValueError), 0.0);
  }

  /** Resumes with equal scores keep their input order in the ranking. */
  lemma DescriptionRankingIsStable(resumes: seq<Resume>, description: string,
                                   similarity: seq<string> -> Similarity, v: real)
    requires WellShaped(similarity(Corpus(resumes, description)), |resumes|)
    ensures WithScore(RankByDescription(resumes, description, similarity), v)
         == WithScore(DescriptionScores(resumes, similarity(Corpus(resumes, description))), v)
  {
    SortIsStable(DescriptionScores(resumes, similarity(Corpus(resumes, description))), v);
  }
}
