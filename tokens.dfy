/** The tokenizer of the Rust search program (search.rs, `tokenize`): the
    text is cut at every character that is not alphanumeric, empty pieces
    are dropped and each piece is lower-cased. */
module Tokens {
  import opened Text
  import opened Splitting

  /** A token as `tokenize` produces it: non-empty, lower-case letters and
      digits only. */
  predicate IsToken(w: string) {
    IsWord(w, IsLowerAlnum)
  }

  function LowerAll(words: seq<string>): (r: seq<string>)
    ensures |r| == |words|
    ensures forall i :: 0 <= i < |words| ==> r[i] == LowerWord(words[i])
  {
    seq(|words|, i requires 0 <= i < |words| => LowerWord(words[i]))
  }

  /** search.rs `tokenize`: each token is at least one character of the
      text, so there are never more tokens than characters. */
  function Tokenize(text: string): (r: seq<string>)
    ensures |r| <= |text|
  {
    LowerAll(Runs(text, IsAlnum))
  }

  /** Every token is a non-empty run of lower-case letters and digits. */
  lemma TokenizeYieldsTokens(text: string)
    ensures forall i :: 0 <= i < |Tokenize(text)| ==> IsToken(Tokenize(text)[i])
  {
    var runs := Runs(text, IsAlnum);
    RunsAreWords(text, IsAlnum);
    forall i | 0 <= i < |runs| ensures IsToken(LowerWord(runs[i])) {
      assert IsWord(runs[i], IsAlnum);
    }
  }

  /** A text yields no tokens exactly when it has no alphanumeric character. */
  lemma TokenizeEmptyIff(text: string)
    ensures Tokenize(text) == [] <==> NoWordChar(text, IsAlnum)
  {
    RunsEmptyIff(text, IsAlnum);
  }

  /** Tokens come out in text order: tokenizing two texts separated by a
      non-alphanumeric character gives the tokens of the first, then those
      of the second. */
  lemma TokenizeConcat(a: string, sep: char, b: string)
    requires !IsAlnum(sep)
    ensures Tokenize(a + [sep] + b) == Tokenize(a) + Tokenize(b)
  {
    RunsConcat(a, [sep] + b, IsAlnum);
    RunsConcat([sep], b, IsAlnum);
    RunsEmptyIff([sep], IsAlnum);
    assert a + [sep] + b == a + ([sep] + b);
    LowerAllConcat(Runs(a, IsAlnum), Runs(b, IsAlnum));
  }

  lemma LowerAllConcat(xs: seq<string>, ys: seq<string>)
    ensures LowerAll(xs + ys) == LowerAll(xs) + LowerAll(ys)
  {
    assert forall i :: 0 <= i < |xs| + |ys| ==> LowerAll(xs + ys)[i] == (LowerAll(xs) + LowerAll(ys))[i];
  }

  lemma LowerWordOfToken(w: string)
    requires IsToken(w)
    ensures LowerWord(w) == w
  {
  }

  /** Tokens joined with spaces tokenize back to the same tokens. */
  lemma TokenizeOfJoin(tokens: seq<string>)
    requires forall i :: 0 <= i < |tokens| ==> IsToken(tokens[i])
    ensures Tokenize(Join(tokens, ' ')) == tokens
  {
    forall i | 0 <= i < |tokens| ensures IsWord(tokens[i], IsAlnum) && LowerWord(tokens[i]) == tokens[i] {
      LowerWordOfToken(tokens[i]);
    }
    RunsOfJoin(tokens, ' ', IsAlnum);
  }

  /** Tokenizing is idempotent: the tokens of a text, written out again with
      spaces between them, give the same tokens. */
  lemma TokenizeIdempotent(text: string)
    ensures Tokenize(Join(Tokenize(text), ' ')) == Tokenize(text)
  {
    TokenizeYieldsTokens(text);
    TokenizeOfJoin(Tokenize(text));
  }

  /** Every token is a lower-cased piece of the text. */
  lemma TokenIsLoweredPiece(text: string, i: nat)
    requires i < |Tokenize(text)|
    ensures exists w :: Contains(text, w) && Tokenize(text)[i] == LowerWord(w)
  {
    RunsAreSlices(text, IsAlnum, i);
    assert Tokenize(text)[i] == LowerWord(Runs(text, IsAlnum)[i]);
  }
}
