/** Answer citations (src/lib/qa/citations.ts): the chunks an answer
    mentions, or else every retrieved chunk, de-duplicated by
    (file path, start line, end line) and truncated. */
module Citations {
  import opened Types
  import opened Text
  import opened Seqs

  /** The presentation projection of a chunk: every field is copied
      unchanged and `content` becomes the snippet. */
  function ToCitation(chunk: Chunk): (c: Citation)
    ensures KeyOf(c) == Key(chunk.filePath, chunk.startLine, chunk.endLine)
    ensures c.snippet == chunk.content && c.sourceUrl == chunk.sourceUrl
  {
    Citation(chunk.filePath, chunk.startLine, chunk.endLine, chunk.content, chunk.sourceUrl)
  }

  /** `chunks.map(toCitation)`. */
  function CiteAll(chunks: seq<Chunk>): (cs: seq<Citation>)
    ensures |cs| == |chunks|
    ensures forall i :: 0 <= i < |chunks| ==> cs[i] == ToCitation(chunks[i])
  {
    seq(|chunks|, i requires 0 <= i < |chunks| => ToCitation(chunks[i]))
  }

  // ------------------------------------------------------------ dedupe

  /** The keys occurring in a list. */
  function KeySet(cs: seq<Citation>): set<Key> {
    set i | 0 <= i < |cs| :: KeyOf(cs[i])
  }

  /** `list.findIndex(item => same key)`: the first position with the key, or -1. */
  function FirstKeyIndex(cs: seq<Citation>, key: Key): (r: int)
    ensures -1 <= r < |cs|
    ensures r >= 0 ==> KeyOf(cs[r]) == key
    decreases |cs|
  {
    if cs == [] then -1
    else if KeyOf(cs[0]) == key then 0
    else
      var r := FirstKeyIndex(cs[1..], key);
      if r < 0 then -1 else r + 1
  }

  /** Any position holding the key is at or after the one `findIndex`
      returns, so that one is the first. */
  lemma {:induction false} FirstKeyIndexBefore(cs: seq<Citation>, key: Key, j: int)
    requires 0 <= j < |cs| && KeyOf(cs[j]) == key
    ensures 0 <= FirstKeyIndex(cs, key) <= j
    decreases |cs|
  {
    if KeyOf(cs[0]) != key {
      assert cs[1..][j - 1] == cs[j];
      FirstKeyIndexBefore(cs[1..], key, j - 1);
    }
  }

  /** The filter over the first `n` positions: keep position `i` when it is
      where its key first occurs. */
  function DedupePrefix(cs: seq<Citation>, n: nat): seq<Citation>
    requires n <= |cs|
    decreases n
  {
    if n == 0 then []
    else
      DedupePrefix(cs, n - 1)
      + (if FirstKeyIndex(cs, KeyOf(cs[n - 1])) == n - 1 then [cs[n - 1]] else [])
  }

  lemma KeySetSnoc(cs: seq<Citation>, c: Citation)
    ensures KeySet(cs + [c]) == KeySet(cs) + {KeyOf(c)}
  {
    var s := cs + [c];
    forall k | k in KeySet(s) ensures k in KeySet(cs) + {KeyOf(c)} {
      var i :| 0 <= i < |s| && KeyOf(s[i]) == k;
      if i < |cs| {
        assert s[i] == cs[i];
      }
    }
    forall k | k in KeySet(cs) ensures k in KeySet(s) {
      var i :| 0 <= i < |cs| && KeyOf(cs[i]) == k;
      assert s[i] == cs[i];
    }
    assert s[|cs|] == c;
  }

  /** The filter keeps elements in order. */
  lemma {:induction false} DedupePrefixSubsequence(cs: seq<Citation>, n: nat)
    requires n <= |cs|
    ensures IsSubsequence(DedupePrefix(cs, n), cs[..n])
    decreases n
  {
    if n == 0 {
      assert cs[..0] == [];
    } else {
      var p := DedupePrefix(cs, n - 1);
      DedupePrefixSubsequence(cs, n - 1);
      assert cs[..n] == cs[..n - 1] + [cs[n - 1]];
      SubsequenceExtend(p, cs[..n - 1], cs[n - 1]);
      if FirstKeyIndex(cs, KeyOf(cs[n - 1])) == n - 1 {
        assert DedupePrefix(cs, n) == p + [cs[n - 1]];
      } else {
        assert DedupePrefix(cs, n) == p;
      }
    }
  }

  /** The filter keeps every key of the prefix. */
  lemma {:induction false} DedupePrefixKeys(cs: seq<Citation>, n: nat)
    requires n <= |cs|
    ensures KeySet(DedupePrefix(cs, n)) == KeySet(cs[..n])
    decreases n
  {
    if n == 0 {
      assert cs[..0] == [];
    } else {
      var p := DedupePrefix(cs, n - 1);
      var x := cs[n - 1];
      DedupePrefixKeys(cs, n - 1);
      assert cs[..n] == cs[..n - 1] + [x];
      KeySetSnoc(cs[..n - 1], x);
      var i := FirstKeyIndex(cs, KeyOf(x));
      if i == n - 1 {
        KeySetSnoc(p, x);
        assert DedupePrefix(cs, n) == p + [x];
      } else {
        FirstKeyIndexBefore(cs, KeyOf(x), n - 1);
        assert cs[..n - 1][i] == cs[i];
        KeyInKeySet(cs[..n - 1], i);
        assert DedupePrefix(cs, n) == p;
      }
    }
  }

  lemma KeyInKeySet(cs: seq<Citation>, i: int)
    requires 0 <= i < |cs|
    ensures KeyOf(cs[i]) in KeySet(cs)
  {
  }

  /** The key at the first position it occurs is not in the prefix before. */
  lemma FirstKeyAbsent(cs: seq<Citation>, n: int)
    requires 0 <= n < |cs| && FirstKeyIndex(cs, KeyOf(cs[n])) == n
    ensures KeyOf(cs[n]) !in KeySet(cs[..n])
  {
    forall i | 0 <= i < n ensures KeyOf(cs[..n][i]) != KeyOf(cs[n]) {
      assert cs[..n][i] == cs[i];
      if KeyOf(cs[i]) == KeyOf(cs[n]) {
        FirstKeyIndexBefore(cs, KeyOf(cs[n]), i);
      }
    }
  }

  /** Appending an element with a new key keeps the keys distinct. */
  lemma DistinctSnoc(p: seq<Citation>, x: Citation)
    requires DistinctKeys(p) && KeyOf(x) !in KeySet(p)
    ensures DistinctKeys(p + [x])
  {
    var r := p + [x];
    forall i, j | 0 <= i < j < |r| ensures KeyOf(r[i]) != KeyOf(r[j]) {
      assert r[i] == p[i];
      if j == |p| {
        KeyInKeySet(p, i);
      } else {
        assert r[j] == p[j];
      }
    }
  }

  /** Every element of `r` is the first element of `cs` with its key. */
  predicate FirstOccurrences(r: seq<Citation>, cs: seq<Citation>) {
    forall j :: 0 <= j < |r| ==>
      (FirstKeyIndex(cs, KeyOf(r[j])) >= 0 && r[j] == cs[FirstKeyIndex(cs, KeyOf(r[j]))])
  }

  /** Every element the filter keeps is the first of its key. */
  lemma {:induction false} DedupePrefixFirst(cs: seq<Citation>, n: nat)
    requires n <= |cs|
    ensures FirstOccurrences(DedupePrefix(cs, n), cs)
    decreases n
  {
    if n > 0 {
      var p := DedupePrefix(cs, n - 1);
      DedupePrefixFirst(cs, n - 1);
      if FirstKeyIndex(cs, KeyOf(cs[n - 1])) == n - 1 {
        var r := p + [cs[n - 1]];
        assert DedupePrefix(cs, n) == r;
        forall j | 0 <= j < |r|
          ensures FirstKeyIndex(cs, KeyOf(r[j])) >= 0 && r[j] == cs[FirstKeyIndex(cs, KeyOf(r[j]))]
        {
          if j < |p| {
            assert r[j] == p[j];
            assert FirstKeyIndex(cs, KeyOf(p[j])) >= 0 && p[j] == cs[FirstKeyIndex(cs, KeyOf(p[j]))];
          }
        }
      } else {
        assert DedupePrefix(cs, n) == p;
      }
    }
  }

  /** The filter keeps no key twice. */
  lemma {:induction false} DedupePrefixDistinct(cs: seq<Citation>, n: nat)
    requires n <= |cs|
    ensures DistinctKeys(DedupePrefix(cs, n))
    decreases n
  {
    if n > 0 {
      var p := DedupePrefix(cs, n - 1);
      var x := cs[n - 1];
      DedupePrefixDistinct(cs, n - 1);
      DedupePrefixStep(cs, n);
      if FirstKeyIndex(cs, KeyOf(x)) == n - 1 {
        DedupePrefixKeys(cs, n - 1);
        FirstKeyAbsent(cs, n - 1);
        DistinctSnoc(p, x);
      }
    }
  }

  /** One more position: kept exactly when it is where its key first
      occurs. */
  lemma DedupePrefixStep(cs: seq<Citation>, n: nat)
    requires 0 < n <= |cs|
    ensures FirstKeyIndex(cs, KeyOf(cs[n - 1])) == n - 1 ==>
      DedupePrefix(cs, n) == DedupePrefix(cs, n - 1) + [cs[n - 1]]
    ensures FirstKeyIndex(cs, KeyOf(cs[n - 1])) != n - 1 ==>
      DedupePrefix(cs, n) == DedupePrefix(cs, n - 1)
  {
  }

  /** `dedupeCitations`: keep each citation whose index is where its key
      first occurs. */
  function DedupeCitations(cs: seq<Citation>): (r: seq<Citation>)
    ensures DistinctKeys(r)
    ensures IsSubsequence(r, cs)
    ensures KeySet(r) == KeySet(cs)
    ensures FirstOccurrences(r, cs)
  {
    DedupePrefixSubsequence(cs, |cs|);
    DedupePrefixKeys(cs, |cs|);
    DedupePrefixFirst(cs, |cs|);
    DedupePrefixDistinct(cs, |cs|);
    assert cs[..|cs|] == cs;
    DedupePrefix(cs, |cs|)
  }

  /** A list without repeated keys is left unchanged. */
  lemma DedupeOfDistinct(cs: seq<Citation>)
    requires DistinctKeys(cs)
    ensures DedupeCitations(cs) == cs
  {
    forall i | 0 <= i < |cs| ensures FirstKeyIndex(cs, KeyOf(cs[i])) == i {
      FirstKeyIndexBefore(cs, KeyOf(cs[i]), i);
    }
    DedupePrefixOfDistinct(cs, |cs|);
  }

  lemma {:induction false} DedupePrefixOfDistinct(cs: seq<Citation>, n: nat)
    requires n <= |cs|
    requires forall i :: 0 <= i < |cs| ==> FirstKeyIndex(cs, KeyOf(cs[i])) == i
    ensures DedupePrefix(cs, n) == cs[..n]
    decreases n
  {
    if n > 0 {
      DedupePrefixOfDistinct(cs, n - 1);
      assert cs[..n] == cs[..n - 1] + [cs[n - 1]];
    }
  }

  /** De-duplicating twice is de-duplicating once. */
  lemma DedupeIdempotent(cs: seq<Citation>)
    ensures DedupeCitations(DedupeCitations(cs)) == DedupeCitations(cs)
  {
    DedupeOfDistinct(DedupeCitations(cs));
  }

  /** The first element always survives de-duplication. */
  lemma DedupeKeepsFirst(cs: seq<Citation>)
    requires |cs| > 0
    ensures |DedupeCitations(cs)| > 0 && DedupeCitations(cs)[0] == cs[0]
  {
    DedupePrefixHead(cs, |cs|);
  }

  lemma {:induction false} DedupePrefixHead(cs: seq<Citation>, n: nat)
    requires 1 <= n <= |cs|
    ensures |DedupePrefix(cs, n)| > 0 && DedupePrefix(cs, n)[0] == cs[0]
    decreases n
  {
    if n > 1 {
      DedupePrefixHead(cs, n - 1);
    } else {
      assert DedupePrefix(cs, 0) == [];
      assert FirstKeyIndex(cs, KeyOf(cs[0])) == 0;
    }
  }

  // ---------------------------------------------------------- mentions

  /** `path.split("/").pop() || path`. */
  function FileName(path: string): string {
    var last := Last(Split(path, OneOf({'/'})));
    if last == "" then path else last
  }

  /** The lowercased answer names the chunk's lowercased path or file name. */
  predicate IsMentioned(lowerAnswer: string, chunk: Chunk) {
    var path := Lower(chunk.filePath);
    Contains(lowerAnswer, path) || Contains(lowerAnswer, FileName(path))
  }

  /** The citations of the mentioned chunks, in chunk order. */
  function Mentions(lowerAnswer: string, chunks: seq<Chunk>): seq<Citation>
    decreases |chunks|
  {
    if chunks == [] then []
    else
      var last := chunks[|chunks| - 1];
      Mentions(lowerAnswer, chunks[..|chunks| - 1])
      + (if IsMentioned(lowerAnswer, last) then [ToCitation(last)] else [])
  }

  /** A citation is in the mention list exactly when it comes from a
      mentioned chunk. */
  lemma MentionsMembers(lowerAnswer: string, chunks: seq<Chunk>, c: Citation)
    ensures c in Mentions(lowerAnswer, chunks) <==>
      exists k :: 0 <= k < |chunks| && IsMentioned(lowerAnswer, chunks[k]) && c == ToCitation(chunks[k])
  {
    if c in Mentions(lowerAnswer, chunks) {
      MentionsSound(lowerAnswer, chunks, c);
    }
    if exists k :: 0 <= k < |chunks| && IsMentioned(lowerAnswer, chunks[k]) && c == ToCitation(chunks[k]) {
      var k :| 0 <= k < |chunks| && IsMentioned(lowerAnswer, chunks[k]) && c == ToCitation(chunks[k]);
      MentionsComplete(lowerAnswer, chunks, k);
    }
  }

  /** Every citation in the mention list comes from a mentioned chunk. */
  lemma {:induction false} MentionsSound(lowerAnswer: string, chunks: seq<Chunk>, c: Citation)
    requires c in Mentions(lowerAnswer, chunks)
    ensures exists k :: 0 <= k < |chunks| && IsMentioned(lowerAnswer, chunks[k]) && c == ToCitation(chunks[k])
    decreases |chunks|
  {
    var init := chunks[..|chunks| - 1];
    var k := |chunks| - 1;
    if c in Mentions(lowerAnswer, init) {
      MentionsSound(lowerAnswer, init, c);
      var j :| 0 <= j < |init| && IsMentioned(lowerAnswer, init[j]) && c == ToCitation(init[j]);
      assert chunks[j] == init[j];
    } else {
      assert IsMentioned(lowerAnswer, chunks[k]) && c == ToCitation(chunks[k]);
    }
  }

  /** Every mentioned chunk has its citation in the mention list. */
  lemma {:induction false} MentionsComplete(lowerAnswer: string, chunks: seq<Chunk>, k: int)
    requires 0 <= k < |chunks| && IsMentioned(lowerAnswer, chunks[k])
    ensures ToCitation(chunks[k]) in Mentions(lowerAnswer, chunks)
    decreases |chunks|
  {
    var init := chunks[..|chunks| - 1];
    if k < |init| {
      assert init[k] == chunks[k];
      MentionsComplete(lowerAnswer, init, k);
    }
  }

  lemma {:induction false} NoMentions(lowerAnswer: string, chunks: seq<Chunk>)
    requires forall k :: 0 <= k < |chunks| ==> !IsMentioned(lowerAnswer, chunks[k])
    ensures Mentions(lowerAnswer, chunks) == []
    decreases |chunks|
  {
    if chunks != [] {
      NoMentions(lowerAnswer, chunks[..|chunks| - 1]);
    }
  }

  /** The citations `extractCitations` picks before de-duplication. */
  function Selected(answer: string, chunks: seq<Chunk>): seq<Citation> {
    var mentioned := Mentions(Lower(answer), chunks);
    if |mentioned| > 0 then mentioned else CiteAll(chunks)
  }

  /** The result of `extractCitations`, as a value. */
  function Extracted(answer: string, chunks: seq<Chunk>, citationLimit: nat): seq<Citation> {
    Take(DedupeCitations(Selected(answer, chunks)), citationLimit)
  }

  /** `extractCitations`: collect the mentioned chunks in a loop, fall back
      to all chunks when none is mentioned, de-duplicate and truncate. */
  method ExtractCitations(answer: string, chunks: seq<Chunk>, citationLimit: nat) returns (r: seq<Citation>)
    ensures r == Extracted(answer, chunks, citationLimit)
  {
    var citations: seq<Citation> := [];
    var lowercaseAnswer := Lower(answer);
    for i := 0 to |chunks|
      invariant citations == Mentions(lowercaseAnswer, chunks[..i])
    {
      var chunk := chunks[i];
      var path := Lower(chunk.filePath);
      var fileName := FileName(path);
      if Contains(lowercaseAnswer, path) || Contains(lowercaseAnswer, fileName) {
        citations := citations + [ToCitation(chunk)];
      }
      assert chunks[..i + 1][..i] == chunks[..i];
    }
    assert chunks[..|chunks|] == chunks;
    var fallbackCitations := CiteAll(chunks);
    var selected := if |citations| > 0 then citations else fallbackCitations;
    r := Take(DedupeCitations(selected), citationLimit);
  }

  // -------------------------------------------------------- properties

  /** At most `citationLimit` citations, no two with the same key, each
      drawn from the retrieved chunks. */
  lemma ExtractedBounds(answer: string, chunks: seq<Chunk>, citationLimit: nat)
    ensures var r := Extracted(answer, chunks, citationLimit);
      && |r| <= citationLimit
      && DistinctKeys(r)
      && forall c :: c in r ==> exists k :: 0 <= k < |chunks| && c == ToCitation(chunks[k])
  {
    var sel := Selected(answer, chunks);
    var d := DedupeCitations(sel);
    var r := Extracted(answer, chunks, citationLimit);
    forall c | c in r ensures exists k :: 0 <= k < |chunks| && c == ToCitation(chunks[k]) {
      assert c in d;
      SubsequenceMembers(d, sel);
      if |Mentions(Lower(answer), chunks)| > 0 {
        MentionsMembers(Lower(answer), chunks, c);
      } else {
        var k :| 0 <= k < |sel| && sel[k] == c;
        assert c == ToCitation(chunks[k]);
      }
    }
    forall i, j | 0 <= i < j < |r| ensures KeyOf(r[i]) != KeyOf(r[j]) {
      assert r[i] == d[i] && r[j] == d[j];
    }
  }

  /** When some chunk is mentioned, every citation comes from a mentioned
      chunk, and there is at least one if the limit allows. */
  lemma ExtractedMentioned(answer: string, chunks: seq<Chunk>, citationLimit: nat, m: nat)
    requires m < |chunks| && IsMentioned(Lower(answer), chunks[m])
    ensures var r := Extracted(answer, chunks, citationLimit);
      && (citationLimit > 0 ==> |r| > 0)
      && forall c :: c in r ==>
           exists k :: 0 <= k < |chunks| && IsMentioned(Lower(answer), chunks[k]) && c == ToCitation(chunks[k])
  {
    var mentioned := Mentions(Lower(answer), chunks);
    MentionsMembers(Lower(answer), chunks, ToCitation(chunks[m]));
    var d := DedupeCitations(mentioned);
    DedupeKeepsFirst(mentioned);
    forall c | c in Extracted(answer, chunks, citationLimit)
      ensures exists k :: 0 <= k < |chunks| && IsMentioned(Lower(answer), chunks[k]) && c == ToCitation(chunks[k])
    {
      SubsequenceMembers(d, mentioned);
      MentionsMembers(Lower(answer), chunks, c);
    }
  }

  /** When no chunk is mentioned, the result is the de-duplicated retrieved
      list in order, so it starts with the first chunk. */
  lemma ExtractedFallback(answer: string, chunks: seq<Chunk>, citationLimit: nat)
    requires forall k :: 0 <= k < |chunks| ==> !IsMentioned(Lower(answer), chunks[k])
    ensures Extracted(answer, chunks, citationLimit) == Take(DedupeCitations(CiteAll(chunks)), citationLimit)
    ensures |chunks| > 0 && citationLimit > 0 ==>
      |Extracted(answer, chunks, citationLimit)| > 0
      && Extracted(answer, chunks, citationLimit)[0] == ToCitation(chunks[0])
  {
    NoMentions(Lower(answer), chunks);
    var all := CiteAll(chunks);
    assert Selected(answer, chunks) == all;
    var d := DedupeCitations(all);
    assert Extracted(answer, chunks, citationLimit) == Take(d, citationLimit);
    if |chunks| > 0 && citationLimit > 0 {
      DedupeKeepsFirst(all);
      assert Take(d, citationLimit)[0] == d[0];
    }
  }

  /** No chunks, no citations. */
  lemma ExtractedEmpty(answer: string, citationLimit: nat)
    ensures Extracted(answer, [], citationLimit) == []
  {
    assert Mentions(Lower(answer), []) == [];
    assert CiteAll([]) == [];
    assert DedupePrefix([], 0) == [];
  }

  /** `formatRetrievedSnippets`: the first `min(limit, |chunks|)` chunks as
      citations, in order, whatever the answer says. */
  function FormatRetrievedSnippets(chunks: seq<Chunk>, snippetLimit: nat): (r: seq<Citation>)
    ensures |r| == if snippetLimit < |chunks| then snippetLimit else |chunks|
    ensures forall i :: 0 <= i < |r| ==> r[i] == ToCitation(chunks[i])
  {
    CiteAll(Take(chunks, snippetLimit))
  }

  // ---------------------------------------------------------- examples

  const AuthChunk := Chunk("1", "source-1", "src/auth.ts", 10, 25, "export function login() {}", None, None)
  const RetryChunk := Chunk("2", "source-1", "src/retry.ts", 1, 20, "export const MAX_RETRIES = 3;", None, None)
  const RetryAnswer := "Check src/retry.ts for retry logic."

  lemma RetryPathInAnswer()
    ensures Lower("src/retry.ts") == "src/retry.ts"
    ensures OccursAt(Lower(RetryAnswer), "src/retry.ts", 6)
  {
    var la := Lower(RetryAnswer);
    assert la[6..18] == "src/retry.ts" by {
      assert forall k :: 0 <= k < 12 ==> la[6 + k] == "src/retry.ts"[k];
    }
  }

  lemma RetryChunkMentioned()
    ensures IsMentioned(Lower(RetryAnswer), RetryChunk)
  {
    RetryPathInAnswer();
    ContainsFromOccurrence(Lower(RetryAnswer), "src/retry.ts", 6);
  }

  /** An answer naming `src/retry.ts` cites that chunk, whether or not the
      login chunk also counts as mentioned, once the limit allows two. */
  lemma ExtractedNamedPath(citationLimit: nat)
    requires citationLimit >= 2
    ensures ToCitation(RetryChunk) in Extracted(RetryAnswer, [AuthChunk, RetryChunk], citationLimit)
  {
    var chunks := [AuthChunk, RetryChunk];
    var la := Lower(RetryAnswer);
    RetryChunkMentioned();
    assert chunks[..1] == [AuthChunk];
    assert [AuthChunk][..0] == [];
    var m := Mentions(la, chunks);
    assert m == Mentions(la, [AuthChunk]) + [ToCitation(RetryChunk)];
    if IsMentioned(la, AuthChunk) {
      assert m == [ToCitation(AuthChunk), ToCitation(RetryChunk)];
    } else {
      assert m == [ToCitation(RetryChunk)];
    }
    DedupeOfDistinct(m);
    assert Selected(RetryAnswer, chunks) == m;
  }
}
