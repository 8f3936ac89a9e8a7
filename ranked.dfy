/** The shapes both rankers share: the resume rows they read, the
    (resume_id, file_name, score) tuples they return, and the final
    `sorted(rankings, key=lambda x: x[2], reverse=True)`, a stable sort on the
    score, highest first. */
module Ranked {

  datatype Option<T> = None | Some(value: T)

  /** A row (resume_id, file_name, text_content) as read from the resumes table;
      the text column may be NULL. */
  datatype Resume = Resume(id: int, fileName: string, text: Option<string>)

  /** An output tuple (resume_id, file_name, score). */
  datatype Entry = Entry(id: int, fileName: string, score: real)

  /** Scores never increase along the sequence. */
  predicate Sorted(s: seq<Entry>) {
    forall i, j :: 0 <= i < j < |s| ==> s[i].score >= s[j].score
  }

  /** The entries of `s` whose score is `v`, in the order they appear in `s`. */
  function WithScore(s: seq<Entry>, v: real): seq<Entry> {
    if s == [] then []
    else (if s[0].score == v then [s[0]] else []) + WithScore(s[1..], v)
  }

  /** Places `x` in front of the first entry that does not score higher, so an
      entry inserted this way stays ahead of the equal entries already there. */
  function Insert(x: Entry, l: seq<Entry>): (r: seq<Entry>)
    ensures multiset(r) == multiset(l) + multiset{x}
  {
    if l == [] then [x]
    else if x.score >= l[0].score then [x] + l
    else
      assert l == [l[0]] + l[1..];
      [l[0]] + Insert(x, l[1..])
  }

  /** Inserting into a sorted sequence keeps it sorted. */
  lemma {:induction false} InsertSorted(x: Entry, l: seq<Entry>)
    requires Sorted(l)
    ensures Sorted(Insert(x, l))
    decreases |l|
  {
    if l != [] && x.score < l[0].score {
      var rest := Insert(x, l[1..]);
      InsertSorted(x, l[1..]);
      forall e | e in rest
        ensures e.score <= l[0].score
      {
        assert e in multiset(rest);
        if e != x {
          assert e in l[1..];
        }
      }
    }
  }

  /** Python's stable `sorted(..., key=score, reverse=True)`. */
  function SortByScoreDesc(s: seq<Entry>): (r: seq<Entry>)
    ensures multiset(r) == multiset(s)
    ensures |r| == |s|
    ensures Sorted(r)
  {
    if s == [] then []
    else
      assert s == [s[0]] + s[1..];
      InsertSorted(s[0], SortByScoreDesc(s[1..]));
      Insert(s[0], SortByScoreDesc(s[1..]))
  }

  lemma {:induction false} InsertWithScore(x: Entry, l: seq<Entry>, v: real)
    ensures WithScore(Insert(x, l), v) == (if x.score == v then [x] else []) + WithScore(l, v)
    decreases |l|
  {
    if l == [] {
      WithScoreCons(x, [], v);
    } else if x.score >= l[0].score {
      WithScoreCons(x, l, v);
    } else {
      var h, rest := l[0], Insert(x, l[1..]);
      InsertWithScore(x, l[1..], v);
      WithScoreCons(h, rest, v);
      WithScoreCons(h, l[1..], v);
      assert l == [h] + l[1..];
    }
  }

  /** Stability: for every score, the entries with that score come out in the
      order they went in. */
  lemma {:induction false} SortIsStable(s: seq<Entry>, v: real)
    ensures WithScore(SortByScoreDesc(s), v) == WithScore(s, v)
    decreases |s|
  {
    if s != [] {
      SortIsStable(s[1..], v);
      InsertWithScore(s[0], SortByScoreDesc(s[1..]), v);
    }
  }

  /** Every entry of a sorted sequence scores no more than its first entry. */
  lemma SortedHeadIsMax(s: seq<Entry>, e: Entry)
    requires Sorted(s) && e in s
    ensures s[0].score >= e.score
  {
    var i :| 0 <= i < |s| && s[i] == e;
    assert i == 0 || s[0].score >= s[i].score;
  }

  lemma {:induction false} WithScoreHead(s: seq<Entry>)
    requires s != []
    ensures WithScore(s, s[0].score) != [] && WithScore(s, s[0].score)[0] == s[0]
  {
  }

  lemma {:induction false} WithScoreMembers(s: seq<Entry>, v: real)
    ensures forall e :: e in WithScore(s, v) <==> e in s && e.score == v
    decreases |s|
  {
    if s != [] {
      WithScoreMembers(s[1..], v);
      assert s == [s[0]] + s[1..];
    }
  }

  lemma WithScoreCons(x: Entry, s: seq<Entry>, v: real)
    ensures WithScore([x] + s, v) == (if x.score == v then [x] else []) + WithScore(s, v)
  {
    assert ([x] + s)[1..] == s;
  }

  /** Two sorted sequences that agree score by score start with the same entry. */
  lemma SameHead(r: seq<Entry>, q: seq<Entry>)
    requires Sorted(r) && Sorted(q) && r != [] && q != []
    requires WithScore(r, r[0].score) == WithScore(q, r[0].score)
    requires WithScore(r, q[0].score) == WithScore(q, q[0].score)
    ensures r[0] == q[0]
  {
    WithScoreHead(r);
    WithScoreMembers(q, r[0].score);
    SortedHeadIsMax(q, r[0]);
    WithScoreHead(q);
    WithScoreMembers(r, q[0].score);
    SortedHeadIsMax(r, q[0]);
  }

  /** Removing the same first entry from both keeps them agreeing on every score. */
  lemma SameTails(r: seq<Entry>, q: seq<Entry>, v: real)
    requires r != [] && q != [] && r[0] == q[0]
    requires WithScore(r, v) == WithScore(q, v)
    ensures WithScore(r[1..], v) == WithScore(q[1..], v)
  {
    var a := if r[0].score == v then [r[0]] else [];
    assert WithScore(r, v) == a + WithScore(r[1..], v);
    assert WithScore(q, v) == a + WithScore(q[1..], v);
    assert WithScore(r[1..], v) == (a + WithScore(r[1..], v))[|a|..];
    assert WithScore(q[1..], v) == (a + WithScore(q[1..], v))[|a|..];
  }

  /** Two sorted sequences that hold, score by score, the same entries in the
      same order are equal. */
  lemma {:induction false} SortedStableUnique(r: seq<Entry>, q: seq<Entry>)
    requires Sorted(r) && Sorted(q)
    requires forall v :: WithScore(r, v) == WithScore(q, v)
    ensures r == q
    decreases |r| + |q|
  {
    if r == [] && q == [] {
    } else if r == [] {
      WithScoreHead(q);
    } else if q == [] {
      WithScoreHead(r);
    } else {
      SameHead(r, q);
      forall v
        ensures WithScore(r[1..], v) == WithScore(q[1..], v)
      {
        SameTails(r, q, v);
      }
      SortedStableUnique(r[1..], q[1..]);
      assert r == [r[0]] + r[1..] && q == [q[0]] + q[1..];
    }
  }

  /** The stable descending sort is determined by its two properties: any
      sorted sequence that keeps, score by score, the input's entries in the
      input's order IS the result of `SortByScoreDesc`. */
  lemma SortCharacterised(s: seq<Entry>, q: seq<Entry>)
    requires Sorted(q)
    requires forall v :: WithScore(q, v) == WithScore(s, v)
    ensures q == SortByScoreDesc(s)
  {
    forall v
      ensures WithScore(SortByScoreDesc(s), v) == WithScore(q, v)
    {
      SortIsStable(s, v);
    }
    SortedStableUnique(SortByScoreDesc(s), q);
  }

  /** When every score is the same, the stable sort keeps the input order. */
  lemma {:induction false} SortKeepsEqualScores(s: seq<Entry>, c: real)
    requires forall i :: 0 <= i < |s| ==> s[i].score == c
    ensures SortByScoreDesc(s) == s
    decreases |s|
  {
    if s != [] {
      SortKeepsEqualScores(s[1..], c);
      assert s == [s[0]] + s[1..];
    }
  }

  /** Every output entry is one of the input entries. */
  lemma SortedFromInput(s: seq<Entry>, e: Entry)
    requires e in SortByScoreDesc(s)
    ensures e in s
  {
    assert e in multiset(SortByScoreDesc(s));
  }
}
