/** Concrete keyword tables: the role tables the database is seeded with, and
    a worked scoring example with the table {"python": 5, "sql": 3}. */
module KeywordExamples {
  import opened Text
  import opened KeywordRanking

  /** The role tables the database is seeded with. */
  const DATA_SCIENTIST: Table := [
    Keyword("python", 5), Keyword("machine learning", 4), Keyword("sql", 3), Keyword("statistics", 2),
    Keyword("data analysis", 3), Keyword("pandas", 2), Keyword("tensorflow", 2), Keyword("deep learning", 3)]
  const WEB_DEVELOPER: Table := [
    Keyword("javascript", 5), Keyword("html", 4), Keyword("css", 3), Keyword("react", 2),
    Keyword("node.js", 3), Keyword("angular", 2), Keyword("typescript", 2), Keyword("bootstrap", 1)]
  const PROJECT_MANAGER: Table := [
    Keyword("management", 5), Keyword("communication", 4), Keyword("agile", 3), Keyword("leadership", 2),
    Keyword("scrum", 3), Keyword("planning", 2), Keyword("teamwork", 2), Keyword("budgeting", 1)]
  const SOFTWARE_ENGINEER: Table := [
    Keyword("java", 5), Keyword("c++", 4), Keyword("python", 3), Keyword("git", 2),
    Keyword("algorithms", 3), Keyword("data structures", 3), Keyword("oop", 2), Keyword("testing", 1)]
  const DEVOPS_ENGINEER: Table := [
    Keyword("docker", 5), Keyword("aws", 4), Keyword("linux", 3), Keyword("ci/cd", 3),
    Keyword("kubernetes", 3), Keyword("jenkins", 2), Keyword("terraform", 2), Keyword("bash", 1)]

  predicate WellFormedTable(d: Table) {
    DistinctWords(d) && (forall i :: 0 <= i < |d| ==> d[i].weight > 0 && |d[i].word| > 0)
  }

  /** A well-formed table is its own dict, and its weight total is positive. */
  lemma WellFormedTableIsDict(d: Table)
    requires WellFormedTable(d) && d != []
    ensures DictFromRows(d) == d && WeightTotal(d) > 0
  {
    DistinctRowsUnchanged(d);
    WeightTotalOfNonNegative(d, 0);
  }

  // Each seeded table has distinct non-empty keywords and positive weights,
  // so its dict is the table itself.

  lemma DataScientistTable()
    ensures WellFormedTable(DATA_SCIENTIST) && DictFromRows(DATA_SCIENTIST) == DATA_SCIENTIST
  {
    WellFormedTableIsDict(DATA_SCIENTIST);
  }

  lemma WebDeveloperTable()
    ensures WellFormedTable(WEB_DEVELOPER) && DictFromRows(WEB_DEVELOPER) == WEB_DEVELOPER
  {
    WellFormedTableIsDict(WEB_DEVELOPER);
  }

  lemma ProjectManagerTable()
    ensures WellFormedTable(PROJECT_MANAGER) && DictFromRows(PROJECT_MANAGER) == PROJECT_MANAGER
  {
    WellFormedTableIsDict(PROJECT_MANAGER);
  }

  lemma SoftwareEngineerTable()
    ensures WellFormedTable(SOFTWARE_ENGINEER) && DictFromRows(SOFTWARE_ENGINEER) == SOFTWARE_ENGINEER
  {
    WellFormedTableIsDict(SOFTWARE_ENGINEER);
  }

  lemma DevOpsEngineerTable()
    ensures WellFormedTable(DEVOPS_ENGINEER) && DictFromRows(DEVOPS_ENGINEER) == DEVOPS_ENGINEER
  {
    WellFormedTableIsDict(DEVOPS_ENGINEER);
  }

  /** A keyword with positive weight that begins the lower-cased text gives
      the text a positive score, whatever follows it. */
  lemma LeadingKeywordScores(d: Table, j: int, text: string, rest: string)
    requires NonNegativeWeights(d) && 0 <= j < |d| && d[j].weight > 0 && |d[j].word| > 0
    requires Lower(text) == Lower(d[j].word) + rest
    ensures RawScore(d, Lower(text)) >= d[j].weight
    ensures KeywordScore(d, text) > 0.0
  {
    var k := Lower(d[j].word);
    CountPrepend(k, rest);
    RawScoreAtLeastTerm(d, j, Lower(text));
    MulMonotone(d[j].weight, 1, Count(Lower(text), k));
    WeightTotalOfNonNegative(d, j);
    NormalizeStrict(0, RawScore(d, Lower(text)), WeightTotal(d));
  }

  /** "JavaScript" lower-cases to "java" followed by the lower-cased rest. */
  lemma JavaScriptLower(text: string)
    requires text == "JavaScript"
    ensures Lower(text) == "java" + Lower("Script")
  {
    LowerAppend("Java", "Script");
    assert text == "Java" + "Script";
    assert Lower("Java") == "java";
  }

  lemma SoftwareEngineerJava(d: Table)
    requires d == SOFTWARE_ENGINEER
    ensures NonNegativeWeights(d) && d[0] == Keyword("java", 5) && Lower(d[0].word) == "java"
  {
    assert forall i :: 0 <= i < |d| ==> d[i].weight > 0;
    LowerUnchanged("java");
  }

  /** Matching is by substring, not by word: with the Software Engineer table,
      a resume that only says "JavaScript" still earns the weight of "java". */
  lemma SubstringMatchCounts(d: Table, text: string)
    requires d == SOFTWARE_ENGINEER && text == "JavaScript"
    ensures RawScore(d, Lower(text)) >= 5
    ensures KeywordScore(d, text) > 0.0
  {
    SoftwareEngineerJava(d);
    JavaScriptLower(text);
    LeadingKeywordScores(d, 0, text, Lower("Script"));
  }

  const EXAMPLE_TABLE: Table := [Keyword("python", 5), Keyword("sql", 3)]
  // The text "Python developer with Python and SQL skills", written as its
  // words so that the verifier works on six short literals: as one literal
  // the verifier unfolds `Lower` and `Count` over all 43 characters, which is
  // too costly. For the same reason the counts are computed in a few large
  // steps: the text is cut where the greedy scan matters, at each keyword
  // match and at each character equal to a keyword's first character that
  // fails to start a match ("p" in "developer", "s" in "skills").
  // `CountTwice` and `CountOnce` state the count for these two shapes of
  // text once, for any keyword and pieces.
  const EXAMPLE_TEXT: string := "Python" + " developer with " + "Python" + " and " + "SQL" + " skills"

  lemma LowerSix(a: string, b: string, c: string, d: string, e: string, f: string)
    ensures Lower(a + b + c + d + e + f) == Lower(a) + Lower(b) + Lower(c) + Lower(d) + Lower(e) + Lower(f)
  {
    LowerAppend(a, b);
    LowerAppend(a + b, c);
    LowerAppend(a + b + c, d);
    LowerAppend(a + b + c + d, e);
    LowerAppend(a + b + c + d + e, f);
  }

  lemma ExampleLower()
    ensures Lower(EXAMPLE_TEXT) == "python" + " developer with " + "python" + " and " + "sql" + " skills"
  {
    LowerSix("Python", " developer with ", "Python", " and ", "SQL", " skills");
    assert Lower("Python") == "python";
    assert Lower("SQL") == "sql";
    LowerUnchanged(" developer with ");
    LowerUnchanged(" and ");
    LowerUnchanged(" skills");
  }

  /** Two occurrences of a keyword, with text around them that cannot start another. */
  lemma CountTwice(k: string, d1: string, d2: string, tail: string)
    requires |k| >= 2 && k[0] !in d1 && k[0] !in d2 && k[0] !in tail && |d2| > 0 && d2[0] != k[1]
    ensures Count(k + (d1 + ([k[0]] + (d2 + (k + tail)))), k) == 2
  {
    var s4 := k + tail;
    var s3 := d2 + s4;
    var s2 := [k[0]] + s3;
    var s1 := d1 + s2;
    CountSkipAbsentFirst(tail, [], k);
    assert tail + [] == tail;
    CountPrepend(k, tail);
    CountSkipAbsentFirst(d2, s4, k);
    CountSkipFalseStart(k[0], s3, k);
    CountSkipAbsentFirst(d1, s2, k);
    CountPrepend(k, s1);
  }

  /** One occurrence of a keyword, with text around it that cannot start another. */
  lemma CountOnce(k: string, front: string, d1: string, d2: string, last: string)
    requires |k| >= 2 && k[0] !in front && k[0] !in d1 && |d2| > 0 && d2[0] != k[1] && k[0] !in d2
    requires |last| < |k|
    ensures Count(front + (k + (d1 + ([k[0]] + (d2 + last)))), k) == 1
  {
    var s4 := d2 + last;
    var s3 := [k[0]] + s4;
    var s2 := d1 + s3;
    var s1 := k + s2;
    CountSkipAbsentFirst(d2, last, k);
    CountSkipFalseStart(k[0], s4, k);
    CountSkipAbsentFirst(d1, s3, k);
    CountPrepend(k, s2);
    CountSkipAbsentFirst(front, s1, k);
  }

  /** Regrouping the six pieces of a text around the piece split at `b1 + [c] + b2`. */
  lemma RegroupAroundSecond(a: string, b1: string, c: char, b2: string, rest: string)
    ensures a + (b1 + [c] + b2) + rest == a + (b1 + ([c] + (b2 + rest)))
  {
  }

  lemma ExampleLowerAroundPython()
    ensures Lower(EXAMPLE_TEXT) == "python" + (" develo" + ("p" + ("er with " + ("python" + (" and " + "sql" + " skills")))))
  {
    ExampleLower();
    var a, b, rest := "python", " developer with ", "python" + (" and " + "sql" + " skills");
    assert b == " develo" + ['p'] + "er with ";
    assert a + b + "python" + " and " + "sql" + " skills" == a + b + rest;
    RegroupAroundSecond(a, " develo", 'p', "er with ", rest);
  }

  lemma ExampleLowerAroundSql()
    ensures Lower(EXAMPLE_TEXT) == ("python" + " developer with " + "python" + " and ") + ("sql" + (" " + ("s" + ("kill" + "s"))))
  {
    ExampleLower();
    var front, k, tail := "python" + " developer with " + "python" + " and ", "sql", " skills";
    assert tail == " " + ("s" + ("kill" + "s"));
    assert front + k + tail == "python" + " developer with " + "python" + " and " + "sql" + " skills";
  }

  lemma ExamplePythonCount()
    ensures Count(Lower(EXAMPLE_TEXT), "python") == 2
  {
    ExampleLowerAroundPython();
    CountTwice("python", " develo", "er with ", " and " + "sql" + " skills");
  }

  lemma ExampleSqlCount()
    ensures Count(Lower(EXAMPLE_TEXT), "sql") == 1
  {
    ExampleLowerAroundSql();
    CountOnce("sql", "python" + " developer with " + "python" + " and ", " ", "kill", "s");
  }

  /** The raw score and weight total of a two-keyword table. */
  lemma TwoKeywords(a: Keyword, b: Keyword, t: string)
    ensures RawScore([a, b], t) == a.weight * Count(t, Lower(a.word)) + b.weight * Count(t, Lower(b.word))
    ensures WeightTotal([a, b]) == a.weight + b.weight
  {
    assert [a, b][..1] == [a];
    assert [a][..0] == [];
    assert RawScore([a], t) == a.weight * Count(t, Lower(a.word));
    assert WeightTotal([a]) == a.weight;
  }

  lemma ExampleScore()
    ensures RawScore(EXAMPLE_TABLE, Lower(EXAMPLE_TEXT)) == 13
    ensures KeywordScore(EXAMPLE_TABLE, EXAMPLE_TEXT) == 16.25
  {
    var t := Lower(EXAMPLE_TEXT);
    var python, sql := Keyword("python", 5), Keyword("sql", 3);
    ExamplePythonCount();
    ExampleSqlCount();
    LowerUnchanged("python");
    LowerUnchanged("sql");
    TwoKeywords(python, sql, t);
    assert EXAMPLE_TABLE == [python, sql];
    assert RawScore(EXAMPLE_TABLE, t) == 5 * 2 + 3 * 1;
    assert WeightTotal(EXAMPLE_TABLE) == 8;
  }
}
