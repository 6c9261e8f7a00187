/** Splitting a string into the maximal runs of "word" characters, with
    every other character acting as a separator. Both tokenizers of the
    search programs are instances: Rust's `split(|c| !c.is_alphanumeric())`
    followed by dropping the empty pieces, and C's repeated
    `strtok(s, " ")`. */
module Splitting {
  import opened Text
  import opened Sequences

  /** A word: non-empty, made of word characters only. */
  predicate IsWord(w: string, inWord: char -> bool) {
    w != [] && forall k :: 0 <= k < |w| ==> inWord(w[k])
  }

  predicate NoWordChar(s: string, inWord: char -> bool) {
    forall k :: 0 <= k < |s| ==> !inWord(s[k])
  }

  /** The length of the run of word characters at the start of `s`. */
  function RunLength(s: string, inWord: char -> bool): (n: nat)
    ensures n <= |s|
  {
    if s != [] && inWord(s[0]) then 1 + RunLength(s[1..], inWord) else 0
  }

  /** The run is the longest prefix of word characters. */
  lemma {:induction false} RunLengthSpec(s: string, inWord: char -> bool)
    ensures forall k :: 0 <= k < RunLength(s, inWord) ==> inWord(s[k])
    ensures RunLength(s, inWord) < |s| ==> !inWord(s[RunLength(s, inWord)])
  {
    if s != [] && inWord(s[0]) {
      RunLengthSpec(s[1..], inWord);
    }
  }

  lemma {:induction false} RunLengthExact(s: string, inWord: char -> bool, m: nat)
    requires m <= |s| && (forall k :: 0 <= k < m ==> inWord(s[k])) && (m < |s| ==> !inWord(s[m]))
    ensures RunLength(s, inWord) == m
  {
    if m > 0 {
      RunLengthExact(s[1..], inWord, m - 1);
    }
  }

  /** The maximal runs of word characters of `s`, in order. */
  function Runs(s: string, inWord: char -> bool): (r: seq<string>)
    ensures |r| <= |s|
    decreases |s|
  {
    if s == [] then []
    else if !inWord(s[0]) then Runs(s[1..], inWord)
    else
      var n := RunLength(s, inWord);
      [s[..n]] + Runs(s[n..], inWord)
  }

  /** Every run is a word. */
  lemma {:induction false} RunsAreWords(s: string, inWord: char -> bool)
    ensures forall i :: 0 <= i < |Runs(s, inWord)| ==> IsWord(Runs(s, inWord)[i], inWord)
    decreases |s|
  {
    if s != [] {
      if !inWord(s[0]) {
        RunsAreWords(s[1..], inWord);
      } else {
        var n := RunLength(s, inWord);
        RunLengthSpec(s, inWord);
        RunsAreWords(s[n..], inWord);
        var r := Runs(s, inWord);
        forall i | 0 <= i < |r| ensures IsWord(r[i], inWord) {
          if i > 0 { assert r[i] == Runs(s[n..], inWord)[i - 1]; }
        }
      }
    }
  }

  /** The words joined with one separator character between neighbours. */
  function Join(words: seq<string>, sep: char): string {
    if words == [] then []
    else if |words| == 1 then words[0]
    else words[0] + [sep] + Join(words[1..], sep)
  }

  /** No runs exactly when there is no word character at all. */
  lemma {:induction false} RunsEmptyIff(s: string, inWord: char -> bool)
    ensures Runs(s, inWord) == [] <==> NoWordChar(s, inWord)
    decreases |s|
  {
    if s != [] && !inWord(s[0]) {
      RunsEmptyIff(s[1..], inWord);
      assert NoWordChar(s, inWord) <==> NoWordChar(s[1..], inWord) by {
        if NoWordChar(s[1..], inWord) {
          forall k | 0 <= k < |s| ensures !inWord(s[k]) {
            if k > 0 { assert s[k] == s[1..][k - 1]; }
          }
        }
      }
    }
  }

  lemma {:induction false} RunLengthConcat(a: string, b: string, inWord: char -> bool)
    requires RunLength(a, inWord) < |a| || b == [] || !inWord(b[0])
    ensures RunLength(a + b, inWord) == RunLength(a, inWord)
    decreases |a|
  {
    if a == [] {
      assert a + b == b;
    } else if inWord(a[0]) {
      assert (a + b)[1..] == a[1..] + b;
      RunLengthConcat(a[1..], b, inWord);
    }
  }

  /** Splitting distributes over concatenation when no run straddles the seam. */
  lemma {:induction false} RunsConcat(a: string, b: string, inWord: char -> bool)
    requires a == [] || b == [] || !inWord(a[|a| - 1]) || !inWord(b[0])
    ensures Runs(a + b, inWord) == Runs(a, inWord) + Runs(b, inWord)
    decreases |a|, 2
  {
    if a == [] {
      assert a + b == b;
    } else if !inWord(a[0]) {
      assert a[1..] == [] || a[1..][|a[1..]| - 1] == a[|a| - 1];
      RunsConcat(a[1..], b, inWord);
      RunsSkipGap(a, b, inWord);
    } else {
      RunsConcatAfterRun(a, b, inWord);
    }
  }

  lemma {:induction false} RunsConcatAfterRun(a: string, b: string, inWord: char -> bool)
    requires a != [] && inWord(a[0])
    requires b == [] || !inWord(a[|a| - 1]) || !inWord(b[0])
    ensures Runs(a + b, inWord) == Runs(a, inWord) + Runs(b, inWord)
    decreases |a|, 1
  {
    if RunLength(a, inWord) < |a| {
      RunsConcatPastRun(a, b, inWord);
    } else {
      RunsConcatWholeRun(a, b, inWord);
    }
  }

  /** The run of `a` ends inside `a`: the rest of `a` follows on its own. */
  lemma {:induction false} RunsConcatPastRun(a: string, b: string, inWord: char -> bool)
    requires a != [] && inWord(a[0]) && RunLength(a, inWord) < |a|
    requires b == [] || !inWord(a[|a| - 1]) || !inWord(b[0])
    ensures Runs(a + b, inWord) == Runs(a, inWord) + Runs(b, inWord)
    decreases |a|, 0
  {
    var n := RunLength(a, inWord);
    RunsTakeRun(a, b, inWord);
    assert a[n..][|a[n..]| - 1] == a[|a| - 1];
    RunsConcat(a[n..], b, inWord);
    AppendAssoc([a[..n]], Runs(a[n..], inWord), Runs(b, inWord));
  }

  /** All of `a` is one run, so `b` starts with a separator. */
  lemma RunsConcatWholeRun(a: string, b: string, inWord: char -> bool)
    requires a != [] && inWord(a[0]) && RunLength(a, inWord) == |a|
    requires b == [] || !inWord(a[|a| - 1]) || !inWord(b[0])
    ensures Runs(a + b, inWord) == Runs(a, inWord) + Runs(b, inWord)
  {
    WholeRunEndsInWord(a, inWord);
    RunsTakeRun(a, b, inWord);
    EmptyRest(a, b, |a|);
    assert Runs(a[|a|..], inWord) == [];
    AppendEmpty([a[..|a|]], Runs(b, inWord));
  }

  lemma WholeRunEndsInWord(a: string, inWord: char -> bool)
    requires a != [] && RunLength(a, inWord) == |a|
    ensures inWord(a[|a| - 1])
  {
    RunLengthSpec(a, inWord);
  }

  lemma RunsSkipGap(a: string, b: string, inWord: char -> bool)
    requires a != [] && !inWord(a[0])
    ensures Runs(a + b, inWord) == Runs(a[1..] + b, inWord)
    ensures Runs(a, inWord) == Runs(a[1..], inWord)
  {
    assert (a + b)[1..] == a[1..] + b;
  }

  lemma RunsTakeRun(a: string, b: string, inWord: char -> bool)
    requires a != [] && inWord(a[0])
    requires RunLength(a, inWord) < |a| || b == [] || !inWord(b[0])
    ensures Runs(a + b, inWord) == [a[..RunLength(a, inWord)]] + Runs(a[RunLength(a, inWord)..] + b, inWord)
    ensures Runs(a, inWord) == [a[..RunLength(a, inWord)]] + Runs(a[RunLength(a, inWord)..], inWord)
  {
    var n := RunLength(a, inWord);
    var s := a + b;
    RunLengthConcat(a, b, inWord);
    SliceOfConcat(a, b, n);
    assert Runs(s, inWord) == [s[..n]] + Runs(s[n..], inWord);
  }

  /** A word on its own is its single run. */
  lemma RunsOfWord(w: string, inWord: char -> bool)
    requires IsWord(w, inWord)
    ensures Runs(w, inWord) == [w]
  {
    RunLengthExact(w, inWord, |w|);
    assert w[..|w|] == w;
    assert w[|w|..] == [];
  }

  /** Splitting undoes joining with a separator that is not a word character. */
  lemma {:induction false} RunsOfJoin(words: seq<string>, sep: char, inWord: char -> bool)
    requires !inWord(sep)
    requires forall i :: 0 <= i < |words| ==> IsWord(words[i], inWord)
    ensures Runs(Join(words, sep), inWord) == words
  {
    if |words| == 1 {
      RunsOfWord(words[0], inWord);
    } else if |words| > 1 {
      var w, rest := words[0], Join(words[1..], sep);
      RunsOfWord(w, inWord);
      RunsConcat(w, [sep] + rest, inWord);
      RunsConcat([sep], rest, inWord);
      RunsEmptyIff([sep], inWord);
      RunsOfJoin(words[1..], sep, inWord);
      assert w + [sep] + rest == w + ([sep] + rest);
      assert words == [w] + words[1..];
    }
  }

  /** Every run is a piece of the string it was cut from. */
  lemma {:induction false} RunsAreSlices(s: string, inWord: char -> bool, i: nat)
    requires i < |Runs(s, inWord)|
    ensures Contains(s, Runs(s, inWord)[i])
    decreases |s|
  {
    var r := Runs(s, inWord);
    if !inWord(s[0]) {
      RunsAreSlices(s[1..], inWord, i);
      var k :| 0 <= k <= |s| - 1 - |r[i]| && OccursAt(s[1..], r[i], k);
      OccursInSuffix(s, 1, r[i], k);
    } else {
      var n := RunLength(s, inWord);
      if i == 0 {
        assert OccursAt(s, r[0], 0);
      } else {
        RunsAreSlices(s[n..], inWord, i - 1);
        var k :| 0 <= k <= |s| - n - |r[i]| && OccursAt(s[n..], r[i], k);
        OccursInSuffix(s, n, r[i], k);
      }
    }
  }
}
