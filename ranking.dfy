/** Ranked search results: (url, score) pairs, ordered by score from the
    highest down, and cut to a number of results. Scores are kept abstract
    as reals: nothing here depends on how they were computed. */
module Ranking {

  datatype Hit = Hit(url: string, score: real)

  /** Scores never increase from one result to a later one. */
  predicate SortedDesc(s: seq<Hit>) {
    forall i, j :: 0 <= i < j < |s| ==> s[i].score >= s[j].score
  }

  /** The hits whose score is exactly `v`, in their order in `s`. */
  function WithScore(s: seq<Hit>, v: real): (r: seq<Hit>)
  {
    if s == [] then []
    else (if s[0].score == v then [s[0]] else []) + WithScore(s[1..], v)
  }

  lemma {:induction false} WithScoreConcat(a: seq<Hit>, b: seq<Hit>, v: real)
    ensures WithScore(a + b, v) == WithScore(a, v) + WithScore(b, v)
  {
    if a == [] {
      assert a + b == b;
    } else {
      assert (a + b)[1..] == a[1..] + b;
      WithScoreConcat(a[1..], b, v);
    }
  }

  lemma {:induction false} WithScoreNone(s: seq<Hit>, v: real)
    requires forall i :: 0 <= i < |s| ==> s[i].score < v
    ensures WithScore(s, v) == []
  {
    if s != [] {
      WithScoreNone(s[1..], v);
    }
  }

  lemma {:induction false} WithScoreAll(s: seq<Hit>, v: real)
    requires forall i :: 0 <= i < |s| ==> s[i].score == v
    ensures WithScore(s, v) == s
  {
    if s != [] {
      WithScoreAll(s[1..], v);
    }
  }

  /** Inserts `x` into a list sorted by descending score, after every hit
      whose score is at least that of `x`. */
  function InsertDesc(s: seq<Hit>, x: Hit): seq<Hit> {
    if s == [] then [x]
    else if s[0].score >= x.score then [s[0]] + InsertDesc(s[1..], x)
    else [x] + s
  }

  lemma {:induction false} InsertDescPermutes(s: seq<Hit>, x: Hit)
    ensures multiset(InsertDesc(s, x)) == multiset(s) + multiset{x}
  {
    if s != [] && s[0].score >= x.score {
      InsertDescPermutes(s[1..], x);
      assert s == [s[0]] + s[1..];
    }
  }

  lemma {:induction false} InsertDescSorted(s: seq<Hit>, x: Hit)
    requires SortedDesc(s)
    ensures SortedDesc(InsertDesc(s, x))
  {
    if s != [] && s[0].score >= x.score {
      var rest := InsertDesc(s[1..], x);
      InsertDescSorted(s[1..], x);
      InsertDescPermutes(s[1..], x);
      forall k | 0 <= k < |rest| ensures s[0].score >= rest[k].score {
        assert rest[k] in multiset(rest);
        if rest[k] != x {
          assert rest[k] in multiset(s[1..]);
          var j :| 0 <= j < |s[1..]| && s[1..][j] == rest[k];
          assert s[j + 1] == rest[k];
        }
      }
    }
  }

  lemma {:induction false} InsertDescStable(s: seq<Hit>, x: Hit, v: real)
    requires SortedDesc(s)
    ensures WithScore(InsertDesc(s, x), v) == WithScore(s, v) + (if x.score == v then [x] else [])
  {
    if s == [] {
      assert InsertDesc(s, x) == [x];
    } else if s[0].score >= x.score {
      var rest := InsertDesc(s[1..], x);
      assert SortedDesc(s[1..]) by {
        forall i, j | 0 <= i < j < |s| - 1 ensures s[1..][i].score >= s[1..][j].score {
          assert s[1..][i] == s[i + 1] && s[1..][j] == s[j + 1];
        }
      }
      InsertDescStable(s[1..], x, v);
      assert ([s[0]] + rest)[1..] == rest;
    } else {
      assert InsertDesc(s, x) == [x] + s;
      assert ([x] + s)[1..] == s;
      if x.score == v {
        forall i | 0 <= i < |s| ensures s[i].score < v {
          assert i == 0 || s[0].score >= s[i].score;
        }
        WithScoreNone(s, v);
      }
    }
  }

  /** A stable sort by descending score (what Rust's `sort_by` with a
      descending comparator produces): sorted, a permutation of its input,
      and hits of equal score keep their relative input order. */
  function SortByScoreDesc(s: seq<Hit>): (r: seq<Hit>)
    ensures SortedDesc(r)
    ensures multiset(r) == multiset(s)
    ensures forall v :: WithScore(r, v) == WithScore(s, v)
  {
    if s == [] then []
    else
      var init, last := s[..|s| - 1], s[|s| - 1];
      var sorted := SortByScoreDesc(init);
      InsertDescSorted(sorted, last);
      InsertDescPermutes(sorted, last);
      SortStep(s, sorted, last);
      InsertDesc(sorted, last)
  }

  lemma SortStep(s: seq<Hit>, sorted: seq<Hit>, last: Hit)
    requires s != [] && last == s[|s| - 1] && SortedDesc(sorted)
    requires forall v :: WithScore(sorted, v) == WithScore(s[..|s| - 1], v)
    ensures forall v :: WithScore(InsertDesc(sorted, last), v) == WithScore(s, v)
    ensures multiset(s) == multiset(s[..|s| - 1]) + multiset{last}
  {
    assert s == s[..|s| - 1] + [last];
    forall v ensures WithScore(InsertDesc(sorted, last), v) == WithScore(s, v) {
      InsertDescStable(sorted, last, v);
      WithScoreConcat(s[..|s| - 1], [last], v);
    }
  }

  /** Rust's `Vec::truncate`: keeps the first `limit` elements. */
  function Take(s: seq<Hit>, limit: nat): (r: seq<Hit>)
    ensures |r| == if limit < |s| then limit else |s|
    ensures r == s[..|r|]
  {
    if limit < |s| then s[..limit] else s
  }

  /** When every hit has the same score, the ranking is the input order. */
  lemma TiedHitsKeepInputOrder(s: seq<Hit>, v: real)
    requires forall i :: 0 <= i < |s| ==> s[i].score == v
    ensures SortByScoreDesc(s) == s
  {
    var r := SortByScoreDesc(s);
    forall i | 0 <= i < |r| ensures r[i].score == v {
      assert r[i] in multiset(s);
    }
    WithScoreAll(s, v);
    WithScoreAll(r, v);
  }

  /** The first `limit` hits of a ranking: `min(limit, |s|)` of them, ranked,
      each a hit of the input (none used twice), and no hit left out
      outscores a hit that is kept. */
  lemma TakeIsTopScores(s: seq<Hit>, limit: nat)
    ensures var r := SortByScoreDesc(s); var t := Take(r, limit);
      && |t| == (if limit < |s| then limit else |s|)
      && SortedDesc(t)
      && multiset(t) <= multiset(s)
      && (forall i :: 0 <= i < |t| ==> exists j :: 0 <= j < |s| && t[i] == s[j])
      && (forall i, j :: 0 <= i < |t| <= j < |r| ==> t[i].score >= r[j].score)
  {
    var r := SortByScoreDesc(s);
    var t := Take(r, limit);
    assert |r| == |multiset(r)| == |s|;
    PrefixDrawsFrom(r, s, |t|);
    forall i, j | 0 <= i < j < |r| && i < |t| ensures t[i].score >= r[j].score {
      assert t[i] == r[i];
    }
    assert SortedDesc(t) by {
      forall i, j | 0 <= i < j < |t| ensures t[i].score >= t[j].score {
        assert t[j] == r[j];
      }
    }
  }

  /** A prefix of a permutation of `s` takes each hit of `s` at most as
      often as `s` holds it. */
  lemma PrefixDrawsFrom(r: seq<Hit>, s: seq<Hit>, n: nat)
    requires multiset(r) == multiset(s) && n <= |r|
    ensures multiset(r[..n]) <= multiset(s)
    ensures forall i :: 0 <= i < n ==> exists j :: 0 <= j < |s| && r[i] == s[j]
  {
    assert r == r[..n] + r[n..];
    forall i | 0 <= i < n ensures exists j :: 0 <= j < |s| && r[i] == s[j] {
      assert r[i] in multiset(s);
    }
  }
}
