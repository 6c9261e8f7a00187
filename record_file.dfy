/** The record file of the Rust search program (search.rs, `read_documents`):
    records of a `#url <url>` line and a `#content <text>` line, separated
    by blank lines. The file is given as its sequence of lines. */
module RecordFile {
  import opened Text
  import opened Sequences

  datatype Document = Document(url: string, content: string)

  /** What the reader holds between two lines: the pending url and content
      (empty when unset) and the documents emitted so far. */
  datatype Reader = Reader(url: string, content: string, documents: seq<Document>)

  /** The reader's outcome: the documents, or the index of the line whose
      `[5..]` / `[9..]` slice is out of range (a panic in the program). */
  datatype ReadResult = Documents(documents: seq<Document>) | SliceOutOfRange(line: nat)

  datatype ScanResult = Scanned(reader: Reader) | Panicked(line: nat)

  const Start := Reader("", "", [])

  /** A line that is exactly a tag with nothing after it: its slice panics. */
  predicate IsBareTag(line: string) {
    line == "#url" || line == "#content"
  }

  predicate IsComplete(st: Reader) {
    st.url != [] && st.content != []
  }

  /** The effect of one line on the reader; None when the line panics. */
  function Step(st: Reader, line: string): (r: Option<Reader>)
    ensures r == None <==> IsBareTag(line)
  {
    TagFacts(line);
    if StartsWith(line, "#url") then
      if |line| < 5 then None else Some(st.(url := Trim(line[5..])))
    else if StartsWith(line, "#content") then
      if |line| < 9 then None else Some(st.(content := Trim(line[9..])))
    else if Trim(line) == [] then
      if IsComplete(st) then Some(Reader("", "", st.documents + [Document(st.url, st.content)]))
      else Some(st)
    else Some(st)
  }

  lemma TagFacts(line: string)
    ensures StartsWith(line, "#url") && |line| < 5 <==> line == "#url"
    ensures StartsWith(line, "#content") && |line| < 9 <==> line == "#content"
    ensures StartsWith(line, "#content") ==> !StartsWith(line, "#url")
  {
    if StartsWith(line, "#url") && |line| < 5 {
      assert line == line[..4];
    }
    if StartsWith(line, "#content") && |line| < 9 {
      assert line == line[..8];
    }
    if StartsWith(line, "#content") {
      assert line[1] == 'c';
    }
  }

  /** The reader after the lines from index `i` on. */
  function Scan(lines: seq<string>, i: nat, st: Reader): ScanResult
    requires i <= |lines|
    decreases |lines| - i
  {
    if i == |lines| then Scanned(st)
    else match Step(st, lines[i])
      case None => Panicked(i)
      case Some(next) => Scan(lines, i + 1, next)
  }

  /** At the end of the input a complete pending record is emitted too. */
  function Finish(st: Reader): seq<Document> {
    if IsComplete(st) then st.documents + [Document(st.url, st.content)] else st.documents
  }

  /** What `read_documents` returns for the given lines. */
  function Records(lines: seq<string>): ReadResult {
    match Scan(lines, 0, Start)
    case Panicked(i) => SliceOutOfRange(i)
    case Scanned(st) => Documents(Finish(st))
  }

  /** search.rs `read_documents`, with the file given as its lines. */
  method ReadDocuments(lines: seq<string>) returns (r: ReadResult)
    ensures r == Records(lines)
  {
    var documents: seq<Document> := [];
    var url: string := "";
    var content: string := "";
    var i := 0;
    while i < |lines|
      invariant i <= |lines|
      invariant Scan(lines, 0, Start) == Scan(lines, i, Reader(url, content, documents))
    {
      var line := lines[i];
      if StartsWith(line, "#url") {
        if |line| < 5 {
          return SliceOutOfRange(i);
        }
        url := Trim(line[5..]);
      } else if StartsWith(line, "#content") {
        if |line| < 9 {
          return SliceOutOfRange(i);
        }
        content := Trim(line[9..]);
      } else if Trim(line) == [] {
        if url != [] && content != [] {
          documents := documents + [Document(url, content)];
          url := "";
          content := "";
        }
      }
      i := i + 1;
    }
    if url != [] && content != [] {
      documents := documents + [Document(url, content)];
    }
    r := Documents(documents);
  }

  // ---------------------------------------------------------------------
  // When the reader panics

  lemma {:induction false} ScanPanicsAtFirstBareTag(lines: seq<string>, i: nat, st: Reader, p: nat)
    requires i <= |lines|
    ensures Scan(lines, i, st) == Panicked(p) <==>
      i <= p < |lines| && IsBareTag(lines[p]) && forall j :: i <= j < p ==> !IsBareTag(lines[j])
    decreases |lines| - i
  {
    if i < |lines| && !IsBareTag(lines[i]) {
      ScanPanicsAtFirstBareTag(lines, i + 1, Step(st, lines[i]).value, p);
    }
  }

  /** `read_documents` panics exactly at the first line that is a bare
      `#url` or `#content` tag. */
  lemma RecordsFailIff(lines: seq<string>, p: nat)
    ensures Records(lines) == SliceOutOfRange(p) <==>
      p < |lines| && IsBareTag(lines[p]) && forall j :: 0 <= j < p ==> !IsBareTag(lines[j])
  {
    ScanPanicsAtFirstBareTag(lines, 0, Start, p);
  }

  // ---------------------------------------------------------------------
  // Where emitted documents come from

  /** Line `i` is a `#url` line whose trimmed rest is `u`. */
  predicate UrlLine(lines: seq<string>, i: int, u: string) {
    0 <= i < |lines| && StartsWith(lines[i], "#url") && |lines[i]| >= 5 && u == Trim(lines[i][5..])
  }

  /** Line `i` is a `#content` line whose trimmed rest is `c`. */
  predicate ContentLine(lines: seq<string>, i: int, c: string) {
    0 <= i < |lines| && !StartsWith(lines[i], "#url") && StartsWith(lines[i], "#content")
      && |lines[i]| >= 9 && c == Trim(lines[i][9..])
  }

  /** Every document has a non-empty url and content, each taken from a
      line of the input. */
  ghost predicate DocumentFromLines(lines: seq<string>, d: Document) {
    d.url != [] && d.content != []
      && (exists i :: UrlLine(lines, i, d.url))
      && (exists i :: ContentLine(lines, i, d.content))
  }

  ghost predicate SoundReader(lines: seq<string>, st: Reader) {
    (st.url == [] || exists i :: UrlLine(lines, i, st.url))
      && (st.content == [] || exists i :: ContentLine(lines, i, st.content))
      && forall k :: 0 <= k < |st.documents| ==> DocumentFromLines(lines, st.documents[k])
  }

  lemma {:induction false} ScanSound(lines: seq<string>, i: nat, st: Reader)
    requires i <= |lines| && SoundReader(lines, st)
    ensures Scan(lines, i, st).Scanned? ==> SoundReader(lines, Scan(lines, i, st).reader)
    decreases |lines| - i
  {
    if i < |lines| && !IsBareTag(lines[i]) {
      var next := Step(st, lines[i]).value;
      StepSound(lines, i, st);
      ScanSound(lines, i + 1, next);
    }
  }

  /** One line keeps the reader sound. */
  lemma StepSound(lines: seq<string>, i: nat, st: Reader)
    requires i < |lines| && !IsBareTag(lines[i]) && SoundReader(lines, st)
    ensures SoundReader(lines, Step(st, lines[i]).value)
  {
    var line := lines[i];
    if StartsWith(line, "#url") {
      assert UrlLine(lines, i, Step(st, line).value.url);
    } else if StartsWith(line, "#content") {
      assert ContentLine(lines, i, Step(st, line).value.content);
    } else if Trim(line) == [] && IsComplete(st) {
      EmitSound(lines, st);
    }
  }

  lemma EmitSound(lines: seq<string>, st: Reader)
    requires SoundReader(lines, st) && IsComplete(st)
    ensures SoundReader(lines, Reader("", "", st.documents + [Document(st.url, st.content)]))
  {
    var docs := st.documents + [Document(st.url, st.content)];
    assert DocumentFromLines(lines, Document(st.url, st.content));
    forall k | 0 <= k < |docs| ensures DocumentFromLines(lines, docs[k]) {
      if k < |st.documents| {
        assert docs[k] == st.documents[k];
      }
    }
  }

  /** Every emitted document is complete, and its url and content are the
      trimmed rests of a `#url` line and a `#content` line of the input. */
  lemma RecordsAreComplete(lines: seq<string>)
    ensures Records(lines).Documents? ==>
      forall k :: 0 <= k < |Records(lines).documents| ==> DocumentFromLines(lines, Records(lines).documents[k])
  {
    ScanSound(lines, 0, Start);
  }

  // ---------------------------------------------------------------------
  // Writing records and reading them back

  function RecordLines(d: Document): seq<string> {
    ["#url " + d.url, "#content " + d.content]
  }

  /** The record file for the documents: their records, a blank line between
      neighbours, none after the last one. */
  function Render(docs: seq<Document>): seq<string> {
    if docs == [] then []
    else if |docs| == 1 then RecordLines(docs[0])
    else RecordLines(docs[0]) + [""] + Render(docs[1..])
  }

  predicate Writable(d: Document) {
    IsTrimmed(d.url) && IsTrimmed(d.content)
  }

  lemma StepUrlLine(st: Reader, u: string)
    requires IsTrimmed(u)
    ensures Step(st, "#url " + u) == Some(st.(url := u))
  {
    var line := "#url " + u;
    assert line[..4] == "#url" && line[5..] == u;
    TrimOfTrimmed(u);
  }

  lemma StepContentLine(st: Reader, c: string)
    requires IsTrimmed(c)
    ensures Step(st, "#content " + c) == Some(st.(content := c))
  {
    var line := "#content " + c;
    assert line[..8] == "#content" && line[9..] == c;
    TagFacts(line);
    TrimOfTrimmed(c);
  }

  lemma {:induction false} ScanRendered(lines: seq<string>, k: nat, pre: seq<Document>, docs: seq<Document>)
    requires docs != [] && k <= |lines| && lines[k..] == Render(docs)
    requires forall d :: d in docs ==> Writable(d)
    ensures Scan(lines, k, Reader("", "", pre))
      == Scanned(Reader(docs[|docs| - 1].url, docs[|docs| - 1].content, pre + docs[..|docs| - 1]))
    decreases |docs|
  {
    var d := docs[0];
    var st2 := Reader(d.url, d.content, pre);
    RenderHead(lines, k, docs);
    ScanRecord(lines, k, pre, d);
    if |docs| == 1 {
      assert Scan(lines, k + 2, st2) == Scanned(st2);
      assert pre + docs[..0] == pre;
    } else {
      ScanBlank(lines, k + 2, st2);
      ScanRendered(lines, k + 3, pre + [d], docs[1..]);
      PrefixAfterHead(pre, docs);
    }
  }

  lemma PrefixAfterHead(pre: seq<Document>, docs: seq<Document>)
    requires |docs| > 1
    ensures (pre + [docs[0]]) + docs[1..][..|docs| - 2] == pre + docs[..|docs| - 1]
  {
    assert docs[..|docs| - 1] == [docs[0]] + docs[1..][..|docs| - 2];
  }

  /** A `#url` line and a `#content` line fill the pending record. */
  lemma ScanRecord(lines: seq<string>, k: nat, pre: seq<Document>, d: Document)
    requires Writable(d) && k + 2 <= |lines|
    requires lines[k] == "#url " + d.url && lines[k + 1] == "#content " + d.content
    ensures Scan(lines, k, Reader("", "", pre)) == Scan(lines, k + 2, Reader(d.url, d.content, pre))
  {
    StepUrlLine(Reader("", "", pre), d.url);
    StepContentLine(Reader(d.url, "", pre), d.content);
  }

  /** A blank line ends a complete pending record. */
  lemma ScanBlank(lines: seq<string>, k: nat, st: Reader)
    requires k < |lines| && lines[k] == "" && IsComplete(st)
    ensures Scan(lines, k, st) == Scan(lines, k + 1, Reader("", "", st.documents + [Document(st.url, st.content)]))
  {
    assert !StartsWith(lines[k], "#url") && !StartsWith(lines[k], "#content");
    assert AllWhitespace(lines[k]);
  }

  /** The first record of a rendered file, and what follows it. */
  lemma RenderHead(lines: seq<string>, k: nat, docs: seq<Document>)
    requires docs != [] && k <= |lines| && lines[k..] == Render(docs)
    ensures k + 2 <= |lines| && lines[k] == "#url " + docs[0].url && lines[k + 1] == "#content " + docs[0].content
    ensures |docs| == 1 ==> k + 2 == |lines|
    ensures |docs| > 1 ==> k + 3 <= |lines| && lines[k + 2] == "" && lines[k + 3..] == Render(docs[1..])
  {
    var t := lines[k..];
    if |docs| == 1 {
      assert t == RecordLines(docs[0]);
    } else {
      assert t == RecordLines(docs[0]) + [""] + Render(docs[1..]);
      assert t[3..] == Render(docs[1..]);
      assert lines[k + 3..] == t[3..];
    }
    assert lines[k] == t[0] && lines[k + 1] == t[1];
  }

  /** Reading back a rendered record file gives the documents, in order:
      blank lines end records, and the last record is emitted at the end of
      the input without a blank line after it. */
  lemma RecordsOfRender(docs: seq<Document>)
    requires forall d :: d in docs ==> Writable(d)
    ensures Records(Render(docs)) == Documents(docs)
  {
    if docs != [] {
      var lines := Render(docs);
      assert lines[0..] == lines;
      assert docs[|docs| - 1] in docs;
      ScanRendered(lines, 0, [], docs);
      LastSplit(docs);
    }
  }

  /** A blank line between the `#url` and the `#content` line does not end
      the record: the partial fields stay pending. */
  lemma BlankLineKeepsPartialRecord(d: Document)
    requires Writable(d)
    ensures Records(["#url " + d.url, "", "#content " + d.content]) == Documents([d])
  {
    var lines := ["#url " + d.url, "", "#content " + d.content];
    StepUrlLine(Start, d.url);
    StepContentLine(Reader(d.url, "", []), d.content);
    assert Step(Reader(d.url, "", []), "") == Some(Reader(d.url, "", []));
    assert Scan(lines, 0, Start) == Scan(lines, 1, Reader(d.url, "", []));
    assert Scan(lines, 1, Reader(d.url, "", [])) == Scan(lines, 2, Reader(d.url, "", []));
    assert Scan(lines, 2, Reader(d.url, "", [])) == Scanned(Reader(d.url, d.content, []));
  }

  /** A blank line (empty or whitespace only) that finds the record
      incomplete, whichever of its fields is set, leaves the reader as it
      is: the pending fields stay, and nothing is emitted. */
  lemma BlankLineKeepsPendingFields(st: Reader, line: string)
    requires Trim(line) == [] && !IsComplete(st)
    ensures Step(st, line) == Some(st)
  {
    TrimSpec(line);
    if line != [] {
      assert IsWhitespace(line[0]);
      assert !StartsWith(line, "#url") && !StartsWith(line, "#content");
    }
  }

  /** A second `#url` line replaces the pending url. */
  lemma LaterUrlOverwrites(u: string, d: Document)
    requires Writable(d) && IsTrimmed(u)
    ensures Records(["#url " + u, "#url " + d.url, "#content " + d.content]) == Documents([d])
  {
    var lines := ["#url " + u, "#url " + d.url, "#content " + d.content];
    StepUrlLine(Start, u);
    StepUrlLine(Reader(u, "", []), d.url);
    StepContentLine(Reader(d.url, "", []), d.content);
    assert Scan(lines, 0, Start) == Scan(lines, 1, Reader(u, "", []));
    assert Scan(lines, 1, Reader(u, "", [])) == Scan(lines, 2, Reader(d.url, "", []));
    assert Scan(lines, 2, Reader(d.url, "", [])) == Scanned(Reader(d.url, d.content, []));
  }
}
