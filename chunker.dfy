/** The line-window chunker (src/lib/ingestion/chunker.ts): windows of 60
    lines whose first lines are 50 apart, so that neighbours share 10. */
module Chunker {
  import opened Types
  import opened Text

  const WindowSize: nat := 60
  const Overlap: nat := 10
  const Stride: nat := 50

  /** What `chunkFile` produces: a chunk that has no id, source id or
      similarity yet. */
  datatype ChunkDraft = ChunkDraft(
    filePath: string,
    startLine: int,
    endLine: int,
    content: string,
    sourceUrl: Option<string>)

  /** `content.split('\n')`. */
  function Lines(content: string): (lines: seq<string>)
    ensures |lines| >= 1
  {
    Split(content, OneOf({'\n'}))
  }

  function Min(a: int, b: int): int {
    if a < b then a else b
  }

  /** `sourceUrl ? `${sourceUrl}#L${start}-L${end}` : undefined`: the empty
      URL is falsy and gives no link. */
  function WindowUrl(sourceUrl: Option<string>, startLine: nat, endLine: nat): Option<string> {
    if sourceUrl.Some? && sourceUrl.value != "" then
      Some(sourceUrl.value + "#L" + NatToString(startLine) + "-L" + NatToString(endLine))
    else None
  }

  /** The window whose first line has zero-based index `i`. */
  function WindowAt(filePath: string, lines: seq<string>, sourceUrl: Option<string>, i: nat): ChunkDraft
    requires i < |lines|
  {
    var endLine := Min(i + WindowSize, |lines|);
    ChunkDraft(filePath, i + 1, endLine, Join(lines[i..endLine], "\n"), WindowUrl(sourceUrl, i + 1, endLine))
  }

  /** The windows the loop emits from zero-based line `i` on: stop after
      the window that reaches the last line. */
  function WindowsFrom(filePath: string, lines: seq<string>, sourceUrl: Option<string>, i: nat): seq<ChunkDraft>
    decreases |lines| - i
  {
    if i >= |lines| then []
    else
      var w := WindowAt(filePath, lines, sourceUrl, i);
      if w.endLine == |lines| then [w] else [w] + WindowsFrom(filePath, lines, sourceUrl, i + Stride)
  }

  /** The result of `chunkFile`, as a value: nothing for an over-long file. */
  function Windows(filePath: string, content: string, sourceUrl: Option<string>, maxFileChars: nat): seq<ChunkDraft> {
    if |content| > maxFileChars then []
    else WindowsFrom(filePath, Lines(content), sourceUrl, 0)
  }

  /** `chunkFile`: step through the lines 50 at a time, pushing one window
      per step and stopping at the window that ends on the last line. */
  method ChunkFile(filePath: string, content: string, sourceUrl: Option<string>, maxFileChars: nat)
    returns (chunks: seq<ChunkDraft>)
    ensures chunks == Windows(filePath, content, sourceUrl, maxFileChars)
  {
    if |content| > maxFileChars {
      return [];
    }
    var lines := Lines(content);
    chunks := [];
    var i: nat := 0;
    while i < |lines|
      invariant chunks + WindowsFrom(filePath, lines, sourceUrl, i) == WindowsFrom(filePath, lines, sourceUrl, 0)
      decreases |lines| - i
    {
      var startLine := i + 1;
      var endLine := Min(i + WindowSize, |lines|);
      var chunkContent := Join(lines[i..endLine], "\n");
      chunks := chunks + [ChunkDraft(filePath, startLine, endLine, chunkContent, WindowUrl(sourceUrl, startLine, endLine))];
      if endLine == |lines| {
        break;
      }
      i := i + (WindowSize - Overlap);
    }
  }

  // ------------------------------------------------------- closed form

  /** Zero-based index of the last window over `n` lines. */
  function LastWindow(n: nat): nat {
    if n <= WindowSize then 0 else (n - 11) / Stride
  }

  lemma LastWindowBounds(n: nat)
    requires n >= 1
    ensures Stride * LastWindow(n) < n
    ensures Stride * LastWindow(n) + WindowSize >= n
    ensures LastWindow(n) > 0 ==> Stride * LastWindow(n) + Overlap < n
  {
    if n > WindowSize {
      var q, r := (n - 11) / 50, (n - 11) % 50;
      assert n - 11 == 50 * q + r;
    }
  }

  /** One step of the loop in closed form: window `m` ends on the last line
      exactly when `m` is the last window index. */
  lemma WindowsFromStep(filePath: string, lines: seq<string>, sourceUrl: Option<string>, m: nat)
    requires |lines| >= 1 && m <= LastWindow(|lines|)
    ensures Stride * m < |lines|
    ensures m == LastWindow(|lines|) ==>
      WindowsFrom(filePath, lines, sourceUrl, Stride * m) == [WindowAt(filePath, lines, sourceUrl, Stride * m)]
    ensures m < LastWindow(|lines|) ==>
      WindowsFrom(filePath, lines, sourceUrl, Stride * m)
        == [WindowAt(filePath, lines, sourceUrl, Stride * m)] + WindowsFrom(filePath, lines, sourceUrl, Stride * (m + 1))
  {
    LastWindowBounds(|lines|);
    assert Stride * m <= Stride * LastWindow(|lines|);
    if m < LastWindow(|lines|) {
      assert Stride * m + WindowSize <= Stride * LastWindow(|lines|) + Overlap;
    }
  }

  /** The windows from the `m`-th on are exactly windows `m` to the last,
      each starting `50 * index` lines in. */
  lemma {:induction false} WindowsFromClosed(filePath: string, lines: seq<string>, sourceUrl: Option<string>, m: nat)
    requires |lines| >= 1 && m <= LastWindow(|lines|)
    ensures |WindowsFrom(filePath, lines, sourceUrl, Stride * m)| == LastWindow(|lines|) - m + 1
    ensures forall j :: 0 <= j < |WindowsFrom(filePath, lines, sourceUrl, Stride * m)| ==>
      WindowsFrom(filePath, lines, sourceUrl, Stride * m)[j] == WindowAt(filePath, lines, sourceUrl, Stride * (m + j))
    decreases LastWindow(|lines|) - m
  {
    WindowsFromStep(filePath, lines, sourceUrl, m);
    if m < LastWindow(|lines|) {
      WindowsFromClosed(filePath, lines, sourceUrl, m + 1);
      var ws := WindowsFrom(filePath, lines, sourceUrl, Stride * m);
      var rest := WindowsFrom(filePath, lines, sourceUrl, Stride * (m + 1));
      forall j | 0 < j < |ws|
        ensures ws[j] == WindowAt(filePath, lines, sourceUrl, Stride * (m + j))
      {
        assert ws[j] == rest[j - 1];
        assert m + 1 + (j - 1) == m + j;
      }
    }
  }

  // -------------------------------------------------------- properties

  /** A file over the size limit gives no chunks; any other gives at least
      one, the first starting at line 1 and the last ending at the last line. */
  lemma ChunkCount(filePath: string, content: string, sourceUrl: Option<string>, maxFileChars: nat)
    ensures var ws := Windows(filePath, content, sourceUrl, maxFileChars);
      && (|content| > maxFileChars ==> ws == [])
      && (|content| <= maxFileChars ==>
            && |ws| == LastWindow(|Lines(content)|) + 1
            && ws[0].startLine == 1
            && ws[|ws| - 1].endLine == |Lines(content)|)
  {
    if |content| <= maxFileChars {
      var lines := Lines(content);
      WindowsFromClosed(filePath, lines, sourceUrl, 0);
      LastWindowBounds(|lines|);
    }
  }

  /** Every chunk lies within the file, spans at most 60 lines, carries the
      file path, holds exactly its lines joined by newlines, and links to
      its range when a non-empty URL was given. */
  lemma ChunkBounds(filePath: string, content: string, sourceUrl: Option<string>, maxFileChars: nat)
    ensures var ws := Windows(filePath, content, sourceUrl, maxFileChars);
      var lines := Lines(content);
      forall k :: 0 <= k < |ws| ==>
        && 1 <= ws[k].startLine <= ws[k].endLine <= |lines|
        && ws[k].endLine - ws[k].startLine + 1 <= WindowSize
        && ws[k].filePath == filePath
        && ws[k].content == Join(lines[ws[k].startLine - 1..ws[k].endLine], "\n")
        && (ws[k].sourceUrl.Some? <==> sourceUrl.Some? && sourceUrl.value != "")
        && (ws[k].sourceUrl.Some? ==>
              ws[k].sourceUrl.value == sourceUrl.value + "#L" + NatToString(ws[k].startLine)
                                       + "-L" + NatToString(ws[k].endLine))
  {
    if |content| <= maxFileChars {
      WindowsFromClosed(filePath, Lines(content), sourceUrl, 0);
    }
  }

  /** Consecutive chunks start 50 lines apart, and every chunk but the last
      spans exactly 60 lines, so neighbours overlap by exactly 10. */
  lemma ChunkStride(filePath: string, content: string, sourceUrl: Option<string>, maxFileChars: nat)
    ensures var ws := Windows(filePath, content, sourceUrl, maxFileChars);
      forall k :: 0 <= k < |ws| - 1 ==>
        && ws[k + 1].startLine == ws[k].startLine + Stride
        && ws[k].endLine - ws[k].startLine + 1 == WindowSize
        && ws[k].endLine - ws[k + 1].startLine + 1 == Overlap
  {
    if |content| <= maxFileChars {
      var lines := Lines(content);
      var ws := Windows(filePath, content, sourceUrl, maxFileChars);
      WindowsFromClosed(filePath, lines, sourceUrl, 0);
      LastWindowBounds(|lines|);
      forall k | 0 <= k < |ws| - 1
        ensures ws[k + 1].startLine == ws[k].startLine + Stride
        ensures ws[k].endLine - ws[k].startLine + 1 == WindowSize
      {
        assert ws[k] == WindowAt(filePath, lines, sourceUrl, Stride * k);
        assert ws[k + 1] == WindowAt(filePath, lines, sourceUrl, Stride * (k + 1));
        assert Stride * k + WindowSize <= Stride * LastWindow(|lines|) + Overlap;
      }
    }
  }

  /** Every line of a file within the size limit lies in some chunk. */
  lemma ChunkCoverage(filePath: string, content: string, sourceUrl: Option<string>, maxFileChars: nat, line: int)
    requires |content| <= maxFileChars
    requires 1 <= line <= |Lines(content)|
    ensures var ws := Windows(filePath, content, sourceUrl, maxFileChars);
      exists k :: 0 <= k < |ws| && ws[k].startLine <= line <= ws[k].endLine
  {
    var lines := Lines(content);
    var n := |lines|;
    var ws := Windows(filePath, content, sourceUrl, maxFileChars);
    WindowsFromClosed(filePath, lines, sourceUrl, 0);
    LastWindowBounds(n);
    var q := (line - 1) / Stride;
    assert line - 1 == Stride * q + (line - 1) % Stride;
    var k := Min(q, LastWindow(n));
    assert ws[k] == WindowAt(filePath, lines, sourceUrl, Stride * k);
    if k < LastWindow(n) {
      assert Stride * k + WindowSize <= Stride * LastWindow(n) + Overlap;
    }
    assert ws[k].startLine <= line <= ws[k].endLine;
  }

  /** A file of at most 60 lines is one chunk holding the whole content. */
  lemma ShortFileIsOneChunk(filePath: string, content: string, sourceUrl: Option<string>, maxFileChars: nat)
    requires |content| <= maxFileChars && |Lines(content)| <= WindowSize
    ensures Windows(filePath, content, sourceUrl, maxFileChars)
      == [ChunkDraft(filePath, 1, |Lines(content)|, content, WindowUrl(sourceUrl, 1, |Lines(content)|))]
  {
    var lines := Lines(content);
    JoinSplit(content, '\n');
    assert lines[0..|lines|] == lines;
  }
}
