/** String primitives the keyword ranker relies on: `str.lower()` restricted to
    ASCII, and `str.count(sub)`, which counts non-overlapping occurrences
    scanning from the left. */
module Text {

  predicate IsUpper(c: char) {
    'A' <= c <= 'Z'
  }

  /** ASCII lower-casing of one character. */
  function LowerChar(c: char): (d: char)
    ensures !IsUpper(d)
    ensures IsUpper(c) ==> d as int == c as int + 32
    ensures !IsUpper(c) ==> d == c
  {
    if IsUpper(c) then (c as int + 32) as char else c
  }

  /** `s.lower()`, character by character. */
  function Lower(s: string): (r: string)
    ensures |r| == |s|
    ensures forall i :: 0 <= i < |s| ==> r[i] == LowerChar(s[i])
  {
    seq(|s|, i requires 0 <= i < |s| => LowerChar(s[i]))
  }

  /** Lower-casing distributes over concatenation, so lower-casing a longer
      text lower-cases the added part and leaves the rest as before. */
  lemma LowerAppend(a: string, b: string)
    ensures Lower(a + b) == Lower(a) + Lower(b)
  {
    assert forall i :: 0 <= i < |a + b| ==> Lower(a + b)[i] == (Lower(a) + Lower(b))[i];
  }

  /** Lower-casing twice is lower-casing once, and no upper-case letter survives. */
  lemma LowerIdempotent(s: string)
    ensures Lower(Lower(s)) == Lower(s)
    ensures forall i :: 0 <= i < |s| ==> !IsUpper(Lower(s)[i])
  {
  }

  /** `k` occurs in `t` starting at index `i`. */
  predicate OccursAt(t: string, k: string, i: int) {
    0 <= i && i + |k| <= |t| && t[i..i + |k|] == k
  }

  /** `t.count(k)`: the number of non-overlapping occurrences of `k` in `t`,
      found greedily from the left; an empty `k` occurs `|t| + 1` times. */
  function Count(t: string, k: string): (n: nat)
    ensures |k| > 0 ==> n <= |t|
    decreases |t|
  {
    if |k| == 0 then |t| + 1
    else if |t| < |k| then 0
    else if t[..|k|] == k then 1 + Count(t[|k|..], k)
    else Count(t[1..], k)
  }

  /** A keyword is counted at least once exactly when it occurs somewhere; the
      empty keyword occurs at index 0 of every text. */
  lemma {:induction false} CountPositiveIffOccurs(t: string, k: string)
    ensures Count(t, k) > 0 <==> exists i :: OccursAt(t, k, i)
    decreases |t|
  {
    if |k| == 0 {
      assert OccursAt(t, k, 0);
    } else if |t| < |k| {
      assert forall i :: !OccursAt(t, k, i);
    } else if t[..|k|] == k {
      assert OccursAt(t, k, 0);
    } else {
      CountPositiveIffOccurs(t[1..], k);
      if exists i :: OccursAt(t, k, i) {
        var i :| OccursAt(t, k, i);
        assert i != 0;
        assert t[1..][i - 1..i - 1 + |k|] == t[i..i + |k|];
        assert OccursAt(t[1..], k, i - 1);
      }
      if exists i :: OccursAt(t[1..], k, i) {
        var i :| OccursAt(t[1..], k, i);
        assert t[1..][i..i + |k|] == t[i + 1..i + 1 + |k|];
        assert OccursAt(t, k, i + 1);
      }
    }
  }

  /** The occurrences counted do not overlap: together they fit in the text. */
  lemma {:induction false} CountFitsInText(t: string, k: string)
    ensures Count(t, k) * |k| <= |t|
    decreases |t|
  {
    if |k| == 0 || |t| < |k| {
    } else if t[..|k|] == k {
      var rest := t[|k|..];
      CountFitsInText(rest, k);
      calc {
        Count(t, k) * |k|;
        (1 + Count(rest, k)) * |k|;
        |k| + Count(rest, k) * |k|;
      <=
        |k| + |rest|;
        |t|;
      }
    } else {
      CountFitsInText(t[1..], k);
    }
  }

  /** Putting one more copy of the keyword in front adds exactly one occurrence. */
  lemma CountPrepend(k: string, t: string)
    requires |k| > 0
    ensures Count(k + t, k) == Count(t, k) + 1
  {
    assert (k + t)[..|k|] == k;
    assert (k + t)[|k|..] == t;
  }

  /** Dropping the first character never raises the count. */
  lemma {:induction false} CountDropFirst(s: string, k: string)
    requires |k| > 0 && |s| > 0
    ensures Count(s[1..], k) <= Count(s, k)
    decreases |s|, 2, 0
  {
    if |s| >= |k| && s[..|k|] == k {
      CountSkipWithinMatch(s[1..], k, |k| - 1);
      assert s[1..][|k| - 1..] == s[|k|..];
    }
  }

  /** Skipping fewer characters than the keyword's length loses at most one occurrence. */
  lemma {:induction false} CountSkipWithinMatch(t: string, k: string, d: nat)
    requires |k| > 0 && d < |k| && d <= |t|
    ensures Count(t, k) <= Count(t[d..], k) + 1
    decreases |t| + 1, 1, d
  {
    if d == 0 {
    } else if |t| < |k| {
    } else if t[..|k|] == k {
      CountDropPrefix(t[d..], k, |k| - d);
      assert t[d..][|k| - d..] == t[|k|..];
    } else {
      CountSkipWithinMatch(t[1..], k, d - 1);
      assert t[1..][d - 1..] == t[d..];
    }
  }

  /** Dropping any prefix never raises the count. */
  lemma {:induction false} CountDropPrefix(s: string, k: string, j: nat)
    requires |k| > 0 && j <= |s|
    ensures Count(s[j..], k) <= Count(s, k)
    decreases |s|, 3, j
  {
    if j > 0 {
      CountDropFirst(s, k);
      CountDropPrefix(s[1..], k, j - 1);
      assert s[1..][j - 1..] == s[j..];
    }
  }

  /** Text written in front of a document never lowers any keyword's count:
      greedy counting from the left finds at least the occurrences it found before. */
  lemma CountPrefixMonotone(p: string, t: string, k: string)
    ensures Count(t, k) <= Count(p + t, k)
  {
    if |k| > 0 {
      CountDropPrefix(p + t, k, |p|);
      assert (p + t)[|p|..] == t;
    }
  }

  /** Text without upper-case letters is its own lower-case form. */
  lemma LowerUnchanged(s: string)
    requires forall i :: 0 <= i < |s| ==> !IsUpper(s[i])
    ensures Lower(s) == s
  {
  }

  /** A stretch of text where no occurrence of the keyword starts adds nothing to the count. */
  lemma {:induction false} CountSkipUnmatched(a: string, b: string, k: string)
    requires |k| > 0
    requires forall i :: 0 <= i < |a| ==> !OccursAt(a + b, k, i)
    ensures Count(a + b, k) == Count(b, k)
    decreases |a|
  {
    if a == [] {
      assert a + b == b;
    } else {
      assert (a + b)[1..] == a[1..] + b;
      forall i | 0 <= i < |a[1..]|
        ensures !OccursAt(a[1..] + b, k, i)
      {
        assert !OccursAt(a + b, k, i + 1);
        if i + |k| <= |a[1..] + b| {
          assert (a + b)[i + 1..i + 1 + |k|] == (a[1..] + b)[i..i + |k|];
        }
      }
      CountSkipUnmatched(a[1..], b, k);
      if |a + b| >= |k| {
        assert !OccursAt(a + b, k, 0);
      }
    }
  }

  /** Text that lacks the keyword's first character contains no occurrence
      start, so it adds nothing to the count. */
  lemma CountSkipAbsentFirst(a: string, b: string, k: string)
    requires |k| > 0 && k[0] !in a
    ensures Count(a + b, k) == Count(b, k)
  {
    assert forall i :: 0 <= i < |a| ==> !OccursAt(a + b, k, i);
    CountSkipUnmatched(a, b, k);
  }

  /** A character that starts the keyword but is not followed by its second
      character adds nothing to the count. */
  lemma CountSkipFalseStart(c: char, rest: string, k: string)
    requires |k| >= 2 && |rest| > 0 && rest[0] != k[1]
    ensures Count([c] + rest, k) == Count(rest, k)
  {
    if |[c] + rest| >= |k| {
      assert ([c] + rest)[..|k|][1] == rest[0];
    }
    assert ([c] + rest)[1..] == rest;
  }
}
