/** NUL-terminated character buffers of the C search program (search.c) and
    its token-counting loops, which split a buffer with `strtok(.., " ")`
    and so overwrite it. `strtok` follows section 7.24.5.8 of ISO C: its
    hidden saved pointer is passed and returned explicitly here as an
    index into the buffer. */
module CStrings {
  import opened Text
  import opened Splitting

  const NUL: char := '\0'

  /** The length of the C string at the start of `s`: the index of its first
      NUL, or `|s|` when there is none. */
  function Strlen(s: seq<char>): (n: nat)
    ensures n <= |s|
  {
    if s == [] || s[0] == NUL then 0 else 1 + Strlen(s[1..])
  }

  lemma {:induction false} StrlenSpec(s: seq<char>)
    ensures forall k :: 0 <= k < Strlen(s) ==> s[k] != NUL
    ensures Strlen(s) < |s| ==> s[Strlen(s)] == NUL
  {
    if s != [] && s[0] != NUL {
      StrlenSpec(s[1..]);
    }
  }

  /** The characters of the C string at the start of `s`. */
  function CStr(s: seq<char>): string {
    s[..Strlen(s)]
  }

  predicate HasNul(s: seq<char>) {
    exists k :: 0 <= k < |s| && s[k] == NUL
  }

  predicate IsSpace(c: char) {
    c == ' '
  }

  predicate NotSpace(c: char) {
    c != ' '
  }

  /** The tokens `strtok(.., " ")` finds in a C string: the maximal runs of
      characters other than the space. */
  function SpaceTokens(c: string): seq<string> {
    Runs(c, NotSpace)
  }

  /** The C string of a suffix is the suffix of the C string. */
  lemma CStrSuffix(s: seq<char>, p: nat)
    requires p <= Strlen(s)
    ensures Strlen(s[p..]) == Strlen(s) - p
    ensures CStr(s[p..]) == CStr(s)[p..]
  {
    var n := Strlen(s);
    StrlenSpec(s);
    StrlenExact(s[p..], n - p);
  }

  lemma {:induction false} StrlenExact(s: seq<char>, m: nat)
    requires m <= |s| && (forall k :: 0 <= k < m ==> s[k] != NUL) && (m < |s| ==> s[m] == NUL)
    ensures Strlen(s) == m
  {
    if m > 0 {
      StrlenExact(s[1..], m - 1);
    }
  }

  // ---------------------------------------------------------------------
  // strtok

  /** Where, in the C string `c` at the saved pointer, `strtok` finds its
      token: past the leading spaces. */
  function Lead(c: string): (r: nat)
    ensures r <= |c|
  {
    RunLength(c, IsSpace)
  }

  /** Where the token ends: at the next space or at the end of the string
      (`|c|` when there is no token). */
  function TokenEnd(c: string): (r: nat)
    ensures Lead(c) <= r <= |c|
  {
    Lead(c) + RunLength(c[Lead(c)..], NotSpace)
  }

  /** Where the saved pointer is left: past the overwritten space, or at the
      end of the string. */
  function Resume(c: string): nat {
    if TokenEnd(c) < |c| then TokenEnd(c) + 1 else |c|
  }

  /** What one `strtok` call with the saved pointer at `p` does to buffer
      `before`, leaving `after`: the token it returns, where it leaves the
      saved pointer, and the one NUL it writes. */
  predicate StrtokDoes(before: seq<char>, p: nat, token: Option<nat>, next: nat, after: seq<char>)
    requires p <= |before|
  {
    var c := CStr(before[p..]);
    && token == (if Lead(c) < |c| then Some(p + Lead(c)) else None)
    && next == p + Resume(c)
    && after == if TokenEnd(c) < |c| then before[p + TokenEnd(c) := NUL] else before
  }

  /** `strtok` with the saved pointer at `p`: skips the spaces there; at the
      end of the string there is no token; otherwise the token starts at the
      first other character and ends at the next space, which is overwritten
      with NUL (the saved pointer moves past it), or at the end of the
      string. */
  method Strtok(buf: array<char>, p: nat) returns (token: Option<nat>, next: nat)
    requires p <= buf.Length && HasNul(buf[..][p..])
    modifies buf
    ensures StrtokDoes(old(buf[..]), p, token, next, buf[..])
  {
    var q := Strspn(buf, p);
    if buf[q] == NUL {
      return None, q;
    }
    var e := Strpbrk(buf, p, q);
    if buf[e] == ' ' {
      buf[e] := NUL;
      return Some(q), e + 1;
    }
    return Some(q), e;
  }

  /** `strspn(s, " ")` from the saved pointer: the token starts past the
      leading spaces, and there is none when they reach the NUL. */
  method Strspn(buf: array<char>, p: nat) returns (q: nat)
    requires p <= buf.Length && HasNul(buf[..][p..])
    ensures q == p + Lead(CStr(buf[..][p..])) && q < buf.Length
    ensures buf[q] == NUL <==> Lead(CStr(buf[..][p..])) == |CStr(buf[..][p..])|
  {
    ghost var s := buf[..][p..];
    ghost var n := Strlen(s);
    StrlenBelowNul(s);
    StrlenSpec(s);
    q := p;
    while buf[q] == ' '
      invariant p <= q <= p + n
      invariant forall i :: 0 <= i < q - p ==> s[i] == ' '
      decreases p + n - q
    {
      q := q + 1;
    }
    assert buf[q] == s[q - p];
    RunLengthExact(CStr(s), IsSpace, q - p);
  }

  /** `strpbrk(token, " ")` from the token start `q`: the token ends at the
      next space, or at the NUL. */
  method Strpbrk(buf: array<char>, ghost p: nat, q: nat) returns (e: nat)
    requires p <= buf.Length && HasNul(buf[..][p..])
    requires q == p + Lead(CStr(buf[..][p..])) && Lead(CStr(buf[..][p..])) < |CStr(buf[..][p..])|
    ensures e == p + TokenEnd(CStr(buf[..][p..])) && e < buf.Length
    ensures buf[e] == ' ' <==> TokenEnd(CStr(buf[..][p..])) < |CStr(buf[..][p..])|
  {
    ghost var s := buf[..][p..];
    ghost var n := Strlen(s);
    StrlenBelowNul(s);
    StrlenSpec(s);
    e := q;
    while buf[e] != ' ' && buf[e] != NUL
      invariant q <= e <= p + n
      invariant forall i :: q - p <= i < e - p ==> s[i] != ' '
      decreases p + n - e
    {
      e := e + 1;
    }
    assert buf[e] == s[e - p];
    TokenEndAt(s, q - p, e - p);
  }

  /** A C string ends before the end of a buffer that holds a NUL. */
  lemma StrlenBelowNul(s: seq<char>)
    requires HasNul(s)
    ensures Strlen(s) < |s|
  {
    var k :| 0 <= k < |s| && s[k] == NUL;
    StrlenSpec(s);
  }

  /** What the scanning loop of `strpbrk` finds is the token's end. */
  lemma TokenEndAt(s: seq<char>, q: nat, e: nat)
    requires q == Lead(CStr(s)) && q <= e <= Strlen(s)
    requires forall i :: q <= i < e ==> s[i] != ' '
    requires e < Strlen(s) ==> s[e] == ' '
    ensures TokenEnd(CStr(s)) == e
  {
    var c := CStr(s);
    RunLengthExact(c[q..], NotSpace, e - q);
  }

  // ---------------------------------------------------------------------
  // The token-counting loop

  /** Position `k` holds the space right after a token of the C string:
      the position `strtok` overwrites. */
  predicate EndsToken(s: seq<char>, k: int) {
    0 < k < Strlen(s) && s[k] == ' ' && s[k - 1] != ' '
  }

  /** The buffer with the spaces that end a token before position `p`
      overwritten by NUL. */
  function ClobberedBelow(s: seq<char>, p: nat): seq<char> {
    seq(|s|, k requires 0 <= k < |s| => if k < p && EndsToken(s, k) then NUL else s[k])
  }

  /** The buffer after the counting loop: every space that directly follows
      a token is now a NUL. */
  function Clobbered(s: seq<char>): seq<char> {
    ClobberedBelow(s, |s|)
  }

  /** A position where `strtok` may resume: the start, the end of the
      string, or just past a space. */
  predicate Boundary(s0: seq<char>, p: nat) {
    p <= Strlen(s0) && (p == 0 || p == Strlen(s0) || s0[p - 1] == ' ')
  }

  /** The token-counting loops of search.c (in `bm25` and in
      `search_documents`): counts the tokens of the buffer's C string,
      overwriting the buffer as `strtok` does. */
  method CountTokens(buf: array<char>) returns (count: nat)
    requires HasNul(buf[..])
    modifies buf
    ensures count == |SpaceTokens(CStr(old(buf[..])))|
    ensures buf[..] == Clobbered(old(buf[..]))
  {
    ghost var s0 := buf[..];
    ghost var c := CStr(s0);
    ghost var n0 := Strlen(s0);
    assert ClobberedBelow(s0, 0) == s0;
    assert c[0..] == c;
    count := 0;
    var token, p := NextToken(buf, s0, 0);
    while token.Some?
      invariant Boundary(s0, p) && buf.Length == |s0|
      invariant buf[..] == ClobberedBelow(s0, p)
      invariant count + (if token.Some? then 1 else 0) + |SpaceTokens(c[p..])| == |SpaceTokens(c)|
      invariant token.None? ==> p == n0
      decreases n0 - p + (if token.Some? then 1 else 0)
    {
      count := count + 1;
      token, p := NextToken(buf, s0, p);
    }
    assert ClobberedBelow(s0, n0) == Clobbered(s0);
  }

  /** One `strtok(NULL, " ")` in the counting loop, stated on the buffer as
      it was before the loop: from a boundary it moves to the next one,
      consuming one token or finding that none is left, and the buffer
      gains the NUL written at the token's end. */
  method NextToken(buf: array<char>, ghost s0: seq<char>, p: nat) returns (token: Option<nat>, next: nat)
    requires HasNul(s0) && Boundary(s0, p) && buf.Length == |s0|
    requires buf[..] == ClobberedBelow(s0, p)
    modifies buf
    ensures Boundary(s0, next) && buf[..] == ClobberedBelow(s0, next)
    ensures token.Some? ==> p < next && |SpaceTokens(CStr(s0)[p..])| == 1 + |SpaceTokens(CStr(s0)[next..])|
    ensures token.None? ==> next == Strlen(s0) && SpaceTokens(CStr(s0)[p..]) == []
  {
    ghost var before := buf[..];
    BufferFrom(s0, p);
    token, next := Strtok(buf, p);
    StrtokStep(s0, p, token, next, before, buf[..]);
  }

  /** Past the saved pointer the buffer is still the original one. */
  lemma BufferFrom(s0: seq<char>, p: nat)
    requires HasNul(s0) && Boundary(s0, p)
    ensures HasNul(ClobberedBelow(s0, p)[p..])
    ensures ClobberedBelow(s0, p)[p..] == s0[p..]
  {
    var r := ClobberedBelow(s0, p);
    assert r[p..] == s0[p..];
    StrlenBelowNul(s0);
    StrlenSpec(s0);
    var n := Strlen(s0);
    assert s0[p..][n - p] == NUL;
  }

  /** One call of `strtok` from a boundary `p`, stated on the original
      buffer: it consumes the first token of the rest of the C string and
      leaves the saved pointer at the next boundary, and the one space it
      overwrites is the only token end it passes. */
  lemma StrtokStep(s0: seq<char>, p: nat, token: Option<nat>, next: nat, before: seq<char>, after: seq<char>)
    requires HasNul(s0) && Boundary(s0, p) && before == ClobberedBelow(s0, p)
    requires StrtokDoes(before, p, token, next, after)
    ensures Boundary(s0, next) && after == ClobberedBelow(s0, next)
    ensures token.Some? ==> p < next && |SpaceTokens(CStr(s0)[p..])| == 1 + |SpaceTokens(CStr(s0)[next..])|
    ensures token.None? ==> next == Strlen(s0) && SpaceTokens(CStr(s0)[p..]) == []
  {
    BufferFrom(s0, p);
    var c := CStr(s0[p..]);
    assert c == CStr(before[p..]);
    CStrSuffix(s0, p);
    ResumeIsBoundary(s0, p, c, next);
    StrtokConsumes(s0, p, c, next);
    ClobberStep(s0, p, c, next, before, after);
  }

  lemma ResumeIsBoundary(s0: seq<char>, p: nat, c: string, next: nat)
    requires Boundary(s0, p) && Strlen(s0[p..]) == Strlen(s0) - p && c == CStr(s0[p..])
    requires next == p + Resume(c)
    ensures Boundary(s0, next)
  {
    if TokenEnd(c) < |c| {
      TokenEndFacts(c);
      assert s0[p + TokenEnd(c)] == c[TokenEnd(c)];
    }
  }

  lemma StrtokConsumes(s0: seq<char>, p: nat, c: string, next: nat)
    requires Boundary(s0, p) && Strlen(s0[p..]) == Strlen(s0) - p && c == CStr(s0[p..]) && c == CStr(s0)[p..]
    requires next == p + Resume(c)
    ensures Lead(c) < |c| ==> p < next && |SpaceTokens(CStr(s0)[p..])| == 1 + |SpaceTokens(CStr(s0)[next..])|
    ensures Lead(c) == |c| ==> next == Strlen(s0) && SpaceTokens(CStr(s0)[p..]) == []
  {
    StrtokTokens(c);
    assert CStr(s0)[next..] == c[Resume(c)..];
  }

  /** The characters around the token `strtok` finds. */
  lemma TokenEndFacts(c: string)
    ensures forall k :: 0 <= k < Lead(c) ==> c[k] == ' '
    ensures forall k :: Lead(c) <= k < TokenEnd(c) ==> c[k] != ' '
    ensures Lead(c) < |c| ==> Lead(c) < TokenEnd(c)
    ensures TokenEnd(c) < |c| ==> c[TokenEnd(c)] == ' ' && Lead(c) < TokenEnd(c)
  {
    var lead := Lead(c);
    var rest := c[lead..];
    RunLengthSpec(c, IsSpace);
    RunLengthSpec(rest, NotSpace);
    forall k | lead <= k < TokenEnd(c) ensures c[k] != ' ' {
      assert c[k] == rest[k - lead];
    }
    if TokenEnd(c) < |c| {
      assert c[TokenEnd(c)] == rest[TokenEnd(c) - lead];
    }
  }

  /** The space `strtok` overwrites ends a token, and no other position it
      passes does. */
  lemma ClobberStep(s0: seq<char>, p: nat, c: string, next: nat, before: seq<char>, after: seq<char>)
    requires HasNul(s0) && Boundary(s0, p) && Strlen(s0[p..]) == Strlen(s0) - p
    requires c == CStr(s0[p..]) && c == CStr(s0)[p..] && before == ClobberedBelow(s0, p)
    requires next == p + Resume(c)
    requires after == if TokenEnd(c) < |c| then before[p + TokenEnd(c) := NUL] else before
    ensures after == ClobberedBelow(s0, next)
  {
    var e := p + TokenEnd(c);
    NoTokenEndsBetween(s0, p);
    if TokenEnd(c) < |c| {
      WrittenSpaceEndsToken(s0, p);
      ClobberAdvance(s0, p, next, e);
    } else {
      ClobberAdvance(s0, p, next, next);
    }
  }

  lemma WrittenSpaceEndsToken(s0: seq<char>, p: nat)
    requires p <= Strlen(s0) && CStr(s0[p..]) == CStr(s0)[p..]
    requires TokenEnd(CStr(s0[p..])) < |CStr(s0[p..])|
    ensures EndsToken(s0, p + TokenEnd(CStr(s0[p..])))
  {
    var c := CStr(s0[p..]);
    var e := p + TokenEnd(c);
    TokenEndFacts(c);
    assert s0[e] == c[TokenEnd(c)];
    assert s0[e - 1] == c[TokenEnd(c) - 1];
  }

  /** Moving the bound of `ClobberedBelow` past positions that end no token
      changes nothing, and past one that ends a token writes its NUL. */
  lemma ClobberAdvance(s0: seq<char>, p: nat, next: nat, e: nat)
    requires p <= next <= |s0|
    requires forall k :: p <= k < next && k != e ==> !EndsToken(s0, k)
    requires e < next ==> EndsToken(s0, e)
    ensures ClobberedBelow(s0, next) == if e < next then ClobberedBelow(s0, p)[e := NUL] else ClobberedBelow(s0, p)
  {
  }

  /** On the C string alone: `strtok` consumes exactly one token when there
      is one, and there is none when only spaces are left. */
  lemma StrtokTokens(c: string)
    ensures Lead(c) == |c| ==> SpaceTokens(c) == []
    ensures Lead(c) < |c| ==> Lead(c) < TokenEnd(c) && |SpaceTokens(c)| == 1 + |SpaceTokens(c[Resume(c)..])|
  {
    if Lead(c) < |c| {
      StrtokTakesToken(c);
    } else {
      RunLengthSpec(c, IsSpace);
      SkipSpaces(c, |c|);
      assert c[|c|..] == [];
    }
  }

  lemma StrtokTakesToken(c: string)
    requires Lead(c) < |c|
    ensures Lead(c) < TokenEnd(c) && |SpaceTokens(c)| == 1 + |SpaceTokens(c[Resume(c)..])|
  {
    var lead := Lead(c);
    var rest := c[lead..];
    RunLengthSpec(c, IsSpace);
    SkipSpaces(c, lead);
    DropFirstRun(rest);
    if TokenEnd(c) < |c| {
      assert rest[RunLength(rest, NotSpace) + 1..] == c[Resume(c)..];
    } else {
      assert c[Resume(c)..] == [];
    }
  }

  /** A string that starts with a token loses exactly that token, and the
      space after it, when the token is dropped. */
  lemma DropFirstRun(rest: string)
    requires rest != [] && rest[0] != ' '
    ensures 0 < RunLength(rest, NotSpace)
    ensures var run := RunLength(rest, NotSpace);
      if run < |rest| then |Runs(rest, NotSpace)| == 1 + |Runs(rest[run + 1..], NotSpace)|
      else |Runs(rest, NotSpace)| == 1
  {
    var run := RunLength(rest, NotSpace);
    RunLengthSpec(rest, NotSpace);
    assert Runs(rest, NotSpace) == [rest[..run]] + Runs(rest[run..], NotSpace);
    if run < |rest| {
      assert rest[run..][0] == ' ';
      assert rest[run..][1..] == rest[run + 1..];
      assert Runs(rest[run..], NotSpace) == Runs(rest[run + 1..], NotSpace);
    } else {
      assert rest[run..] == [];
    }
  }

  /** Leading spaces add no token. */
  lemma {:induction false} SkipSpaces(c: string, lead: nat)
    requires lead <= |c| && forall k :: 0 <= k < lead ==> c[k] == ' '
    ensures Runs(c, NotSpace) == Runs(c[lead..], NotSpace)
  {
    if lead > 0 {
      SkipSpaces(c[1..], lead - 1);
      assert c[1..][lead - 1..] == c[lead..];
    }
  }

  /** Between the saved pointer and where it resumes no space ends a token,
      except the one `strtok` overwrites. */
  lemma NoTokenEndsBetween(s0: seq<char>, p: nat)
    requires Boundary(s0, p) && Strlen(s0[p..]) == Strlen(s0) - p
    ensures var c := CStr(s0[p..]);
      forall k :: p <= k < p + Resume(c) && k != p + TokenEnd(c) ==> !EndsToken(s0, k)
  {
    var c := CStr(s0[p..]);
    TokenEndFacts(c);
    forall k | p <= k < p + Resume(c) && k != p + TokenEnd(c) ensures !EndsToken(s0, k) {
      if k < p + |c| {
        assert s0[k] == c[k - p];
        if p < k {
          assert s0[k - 1] == c[k - 1 - p];
        }
      }
    }
  }

  // ---------------------------------------------------------------------
  // What the loop leaves behind

  /** After the counting loop the buffer reads, as a C string, only up to
      the end of its first token (all of it when there is no token): the
      later tokens are cut off by the NUL written after the first one. */
  lemma ClobberedKeepsFirstToken(s: seq<char>)
    requires HasNul(s)
    ensures CStr(Clobbered(s)) == CStr(s)[..TokenEnd(CStr(s))]
  {
    var c := CStr(s);
    var n := Strlen(s);
    var lead := Lead(c);
    var e := TokenEnd(c);
    var r := Clobbered(s);
    StrlenBelowNul(s);
    StrlenSpec(s);
    TokenEndFacts(c);
    forall k | 0 <= k < e ensures r[k] == s[k] && r[k] != NUL {
      assert s[k] == c[k];
      if 0 < k {
        assert s[k - 1] == c[k - 1];
      }
    }
    if e < n {
      assert s[e] == c[e] && s[e - 1] == c[e - 1];
      assert EndsToken(s, e);
    } else {
      assert r[n] == NUL;
    }
    StrlenExact(r, e);
    assert CStr(r) == r[..e];
  }

  /** So the first token is the only one left. */
  lemma ClobberedLeavesOneToken(s: seq<char>)
    requires HasNul(s)
    ensures SpaceTokens(CStr(Clobbered(s))) == SpaceTokens(CStr(s))[..if SpaceTokens(CStr(s)) == [] then 0 else 1]
  {
    ClobberedKeepsFirstToken(s);
    var c := CStr(s);
    if Lead(c) < |c| {
      FirstTokenOf(c);
      UpToFirstTokenEnd(c);
    } else {
      StrtokTokens(c);
      assert c[..TokenEnd(c)] == c;
    }
  }

  /** The first token `strtok` finds is the first of the tokens. */
  lemma FirstTokenOf(c: string)
    requires Lead(c) < |c|
    ensures SpaceTokens(c) != [] && SpaceTokens(c)[0] == c[Lead(c)..TokenEnd(c)]
  {
    var lead := Lead(c);
    var rest := c[lead..];
    RunLengthSpec(c, IsSpace);
    SkipSpaces(c, lead);
    assert rest + [] == rest;
    RunsTakeRun(rest, [], NotSpace);
    assert rest[..RunLength(rest, NotSpace)] == c[lead..TokenEnd(c)];
  }

  /** Cut at the end of its first token, a string has that token alone. */
  lemma UpToFirstTokenEnd(c: string)
    requires Lead(c) < |c|
    ensures SpaceTokens(c[..TokenEnd(c)]) == [c[Lead(c)..TokenEnd(c)]]
  {
    var lead, e := Lead(c), TokenEnd(c);
    TokenEndFacts(c);
    SkipSpaces(c[..e], lead);
    assert c[..e][lead..] == c[lead..e];
    RunsOfWord(c[lead..e], NotSpace);
  }

  /** Only the space delimits: a line feed stays inside its token, unlike in
      the Rust tokenizer. */
  lemma NewlineStaysInToken()
    ensures SpaceTokens("a b\n") == ["a", "b\n"]
  {
    assert Join(["a", "b\n"], ' ') == "a b\n";
    RunsOfJoin(["a", "b\n"], ' ', NotSpace);
  }
}
