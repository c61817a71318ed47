/** Grounding refactor suggestions in the evidence they cite
    (src/lib/qa/refactor.ts:16-83, 116-122, 158-196, 293-325): every parsed
    citation is resolved against the retrieved snippets, duplicates are
    dropped, and a suggestion survives only when it cites evidence and shares
    vocabulary with it. */
module Refactor {
  import opened Types
  import opened Text
  import opened Seqs
  import opened SuggestionParsing
  import Search
  import Citations

  /** A suggestion tied to evidence, as the answer shows it. */
  datatype RefactorSuggestion = RefactorSuggestion(
    title: string,
    rationale: string,
    expectedImpact: string,
    citations: seq<Citation>)

  /** Words too common to show that a suggestion talks about its evidence. */
  const SuggestionStopwords: set<string> := {
    "the", "is", "are", "was", "were", "a", "an", "and", "or", "to", "of", "for", "in", "on",
    "with", "by", "this", "that", "use", "using", "more", "improve", "improved", "current",
    "implementation", "code", "method"
  }

  /** Words too common to say what a question is about. */
  const QuestionStopwords: set<string> := {
    "the", "is", "are", "was", "were", "how", "what", "where", "when", "why", "which", "who",
    "whom", "whose", "a", "an", "of", "to", "for", "from", "in", "on", "by", "with", "and", "or",
    "as", "it", "this", "that", "implemented", "handled"
  }

  // ------------------------------------------------------------ tokenize

  /** `.replace(/[^\w\s./:-]/g, " ")`. */
  function Blank(s: string): string {
    seq(|s|, i requires 0 <= i < |s| => if Search.IsQueryChar(s[i]) then s[i] else ' ')
  }

  /** `.filter((term) => term.length > 2 && !stopwords.has(term))`. */
  function KeepTerms(pieces: seq<string>, stopwords: set<string>): (r: seq<string>)
    ensures forall k :: 0 <= k < |r| ==> |r[k]| > 2 && r[k] !in stopwords
    decreases |pieces|
  {
    if pieces == [] then []
    else
      var init := KeepTerms(pieces[..|pieces| - 1], stopwords);
      var p := pieces[|pieces| - 1];
      if |p| > 2 && p !in stopwords then init + [p] else init
  }

  /** The kept pieces appear in the order of the text. */
  lemma {:induction false} KeepTermsSubsequence(pieces: seq<string>, stopwords: set<string>)
    ensures IsSubsequence(KeepTerms(pieces, stopwords), pieces)
    decreases |pieces|
  {
    if pieces != [] {
      var init := pieces[..|pieces| - 1];
      var p := pieces[|pieces| - 1];
      KeepTermsSubsequence(init, stopwords);
      assert pieces == init + [p];
      SubsequenceExtend(KeepTerms(init, stopwords), init, p);
    }
  }

  /** Every piece that is long enough and not a stopword is kept. */
  lemma {:induction false} KeepTermsComplete(pieces: seq<string>, stopwords: set<string>)
    ensures forall p :: p in pieces && |p| > 2 && p !in stopwords ==> p in KeepTerms(pieces, stopwords)
    decreases |pieces|
  {
    if pieces != [] {
      var init := pieces[..|pieces| - 1];
      KeepTermsComplete(init, stopwords);
      assert pieces == init + [pieces[|pieces| - 1]];
    }
  }

  /** The white-space pieces of the lowercased, sanitised text. */
  function Pieces(text: string): seq<string> {
    Split(Blank(Lower(text)), Whitespace)
  }

  /** `tokenize`. */
  function Tokenize(text: string, stopwords: set<string>): seq<string> {
    KeepTerms(Pieces(text), stopwords)
  }

  /** A lowercased run of kept characters without white space. */
  predicate IsTerm(t: string) {
    forall j :: 0 <= j < |t| ==> Search.IsQueryChar(t[j]) && !IsSpace(t[j]) && !IsUpperChar(t[j])
  }

  /** `tokenize` yields, in text order, exactly the pieces longer than two
      characters that are not stopwords; each is a lowercased run of
      `[\w./:-]` characters. */
  lemma TokenizeShape(text: string, stopwords: set<string>)
    ensures var r := Tokenize(text, stopwords);
      && IsSubsequence(r, Pieces(text))
      && (forall k :: 0 <= k < |r| ==> |r[k]| > 2 && r[k] !in stopwords && IsTerm(r[k]))
      && (forall p :: p in Pieces(text) && |p| > 2 && p !in stopwords ==> p in r)
  {
    var r := Tokenize(text, stopwords);
    var blanked := Blank(Lower(text));
    var pieces := Pieces(text);
    KeepTermsComplete(pieces, stopwords);
    KeepTermsSubsequence(pieces, stopwords);
    SubsequenceMembers(r, pieces);
    SplitChars(blanked, Whitespace);
    LowerHasNoUpper(text);
    forall k | 0 <= k < |r|
      ensures IsTerm(r[k])
    {
      var i :| 0 <= i < |pieces| && pieces[i] == r[k];
      forall j | 0 <= j < |r[k]|
        ensures Search.IsQueryChar(r[k][j]) && !IsSpace(r[k][j]) && !IsUpperChar(r[k][j])
      {
        assert r[k][j] == pieces[i][j];
        var m :| 0 <= m < |blanked| && blanked[m] == r[k][j];
        assert Lower(text)[m] == LowerChar(text[m]);
      }
    }
  }

  /** A term holds no line break, so it cannot span two joined lines. */
  lemma TermHasNoNewline(t: string)
    requires IsTerm(t)
    ensures forall j :: 0 <= j < |t| ==> t[j] != '\n'
  {
    assert IsSpace('\n');
  }

  lemma BlankConcat(a: string, b: string)
    ensures Blank(a + b) == Blank(a) + Blank(b)
  {
  }

  lemma BlankOfTerm(t: string)
    requires IsTerm(t)
    ensures Blank(t) == t
  {
  }

  /** A term with white space on both sides is one of the text's pieces. */
  lemma TermBetweenSpaces(a: string, t: string, b: string)
    requires IsTerm(t)
    ensures t in Pieces(a + [' '] + t + [' '] + b)
  {
    var la, lb := Lower(a), Lower(b);
    assert Lower([' ']) == [' '];
    LowerOfLower(t);
    LowerConcat(a, [' ']);
    LowerConcat(a + [' '], t);
    LowerConcat(a + [' '] + t, [' ']);
    LowerConcat(a + [' '] + t + [' '], b);
    var ba, bb := Blank(la), Blank(lb);
    assert Blank([' ']) == [' '];
    BlankOfTerm(t);
    BlankConcat(la, [' ']);
    BlankConcat(la + [' '], t);
    BlankConcat(la + [' '] + t, [' ']);
    BlankConcat(la + [' '] + t + [' '], lb);
    assert ba + [' '] + t + [' '] + bb == ba + [' '] + (t + [' '] + bb);
    SplitConcat(ba, ' ', t + [' '] + bb, Whitespace);
    SplitConcat(t, ' ', bb, Whitespace);
    SplitNoSeparator(t, Whitespace);
  }

  // ------------------------------------------------------ resolveCitation

  /** `isLineRangeOverlapping`. */
  predicate IsLineRangeOverlapping(aStart: int, aEnd: int, bStart: int, bEnd: int) {
    aStart <= bEnd && bStart <= aEnd
  }

  predicate InRange(line: int, start: int, end: int) {
    start <= line <= end
  }

  /** Two proper line ranges overlap exactly when they share a line, and the
      test is symmetric. */
  lemma OverlapSharesLine(aStart: int, aEnd: int, bStart: int, bEnd: int)
    requires aStart <= aEnd && bStart <= bEnd
    ensures IsLineRangeOverlapping(aStart, aEnd, bStart, bEnd)
      <==> exists line :: InRange(line, aStart, aEnd) && InRange(line, bStart, bEnd)
    ensures IsLineRangeOverlapping(aStart, aEnd, bStart, bEnd)
      == IsLineRangeOverlapping(bStart, bEnd, aStart, aEnd)
  {
    if IsLineRangeOverlapping(aStart, aEnd, bStart, bEnd) {
      var line := if aStart < bStart then bStart else aStart;
      assert InRange(line, aStart, aEnd) && InRange(line, bStart, bEnd);
    }
  }

  /** The snippet is the cited file and range. */
  predicate ExactMatch(p: ParsedCitation, c: Citation) {
    c.filePath == p.filePath && c.startLine == p.startLine && c.endLine == p.endLine
  }

  /** The snippet is in the cited file and its range overlaps the cited one. */
  predicate OverlapMatch(p: ParsedCitation, c: Citation) {
    c.filePath == p.filePath && IsLineRangeOverlapping(c.startLine, c.endLine, p.startLine, p.endLine)
  }

  predicate Matches(p: ParsedCitation, c: Citation, exact: bool) {
    if exact then ExactMatch(p, c) else OverlapMatch(p, c)
  }

  /** `snippets.find(...)`: the position of the first match, or `|snippets|`. */
  function FindMatch(p: ParsedCitation, snippets: seq<Citation>, exact: bool): (i: nat)
    ensures i <= |snippets|
    ensures i < |snippets| ==> Matches(p, snippets[i], exact)
    ensures forall j :: 0 <= j < i ==> !Matches(p, snippets[j], exact)
    decreases |snippets|
  {
    if snippets == [] then 0
    else if Matches(p, snippets[0], exact) then 0
    else 1 + FindMatch(p, snippets[1..], exact)
  }

  /** `resolveCitation`: the first exact snippet, else the first overlapping
      snippet of the same file, else nothing. */
  function ResolveCitation(p: ParsedCitation, snippets: seq<Citation>): (r: Option<Citation>)
    ensures r.Some? ==> r.value in snippets && r.value.filePath == p.filePath
    ensures r.None? <==>
      forall i :: 0 <= i < |snippets| ==> !ExactMatch(p, snippets[i]) && !OverlapMatch(p, snippets[i])
    ensures forall i :: 0 <= i < |snippets| && ExactMatch(p, snippets[i]) ==>
      ((forall j :: 0 <= j < i ==> !ExactMatch(p, snippets[j])) ==> r == Some(snippets[i]))
    ensures (forall j :: 0 <= j < |snippets| ==> !ExactMatch(p, snippets[j])) ==>
      forall i :: 0 <= i < |snippets| && OverlapMatch(p, snippets[i]) ==>
        ((forall j :: 0 <= j < i ==> !OverlapMatch(p, snippets[j])) ==> r == Some(snippets[i]))
  {
    var exact := FindMatch(p, snippets, true);
    if exact < |snippets| then Some(snippets[exact])
    else
      var overlapping := FindMatch(p, snippets, false);
      if overlapping < |snippets| then Some(snippets[overlapping]) else None
  }

  function Resolver(snippets: seq<Citation>): ParsedCitation -> Option<Citation> {
    p => ResolveCitation(p, snippets)
  }

  /** `.map(resolveCitation).filter(Boolean)`. */
  function ResolveAll(ps: seq<ParsedCitation>, snippets: seq<Citation>): (r: seq<Citation>)
    ensures forall c :: c in r ==> c in snippets
  {
    FilterMapOrigin(ps, Resolver(snippets));
    FilterMap(ps, Resolver(snippets))
  }

  // ------------------------------------------------------------ dedupe

  function CitationKeyOf(c: Citation): string {
    CitationKey(c.filePath, c.startLine, c.endLine)
  }

  /** `list.findIndex((item) => citationKey(item) === citationKey(c))`. */
  function FindKeyIndex(cs: seq<Citation>, c: Citation): (r: int)
    ensures -1 <= r < |cs|
    decreases |cs|
  {
    if cs == [] then -1
    else if CitationKeyOf(cs[0]) == CitationKeyOf(c) then 0
    else
      var r := FindKeyIndex(cs[1..], c);
      if r < 0 then -1 else r + 1
  }

  /** The key filter over the first `n` resolved citations. */
  function DedupeByKey(cs: seq<Citation>, n: nat): seq<Citation>
    requires n <= |cs|
    decreases n
  {
    if n == 0 then []
    else
      DedupeByKey(cs, n - 1)
      + (if FindKeyIndex(cs, cs[n - 1]) == n - 1 then [cs[n - 1]] else [])
  }

  /** Looking a citation up by its key string finds the first citation with
      the same (path, start, end). */
  lemma {:induction false} FindKeyIndexAgrees(cs: seq<Citation>, c: Citation)
    ensures FindKeyIndex(cs, c) == Citations.FirstKeyIndex(cs, KeyOf(c))
    decreases |cs|
  {
    if cs != [] {
      if CitationKeyOf(cs[0]) == CitationKeyOf(c) {
        CitationKeyInjective(cs[0].filePath, cs[0].startLine, cs[0].endLine,
                             c.filePath, c.startLine, c.endLine);
      }
      FindKeyIndexAgrees(cs[1..], c);
    }
  }

  lemma {:induction false} DedupeByKeyAgrees(cs: seq<Citation>, n: nat)
    requires n <= |cs|
    ensures DedupeByKey(cs, n) == Citations.DedupePrefix(cs, n)
    decreases n
  {
    if n > 0 {
      DedupeByKeyAgrees(cs, n - 1);
      DedupeByKeyStep(cs, n);
    }
  }

  /** One more position: both filters keep it exactly when it is where its
      (path, start, end) key first occurs, so agreement carries over. */
  lemma DedupeByKeyStep(cs: seq<Citation>, n: nat)
    requires 0 < n <= |cs|
    ensures DedupeByKey(cs, n - 1) == Citations.DedupePrefix(cs, n - 1) ==>
      DedupeByKey(cs, n) == Citations.DedupePrefix(cs, n)
  {
    FindKeyIndexAgrees(cs, cs[n - 1]);
    Citations.DedupePrefixStep(cs, n);
  }

  /** The string-key filter of `parseRefactorSuggestions` is the
      (path, start, end) de-duplication of `dedupeCitations`: distinct keys,
      first occurrences, input order. */
  lemma DedupeByKeyIsDedupe(cs: seq<Citation>)
    ensures DedupeByKey(cs, |cs|) == Citations.DedupeCitations(cs)
  {
    DedupeByKeyAgrees(cs, |cs|);
  }

  // ------------------------------------------------- isSuggestionGrounded

  /** The non-stopword terms of a suggestion's title, rationale and impact. */
  function SignalTerms(title: string, rationale: string, expectedImpact: string): seq<string> {
    Tokenize(title + " " + rationale + " " + expectedImpact, SuggestionStopwords)
  }

  /** One citation as the grounding check reads it. */
  function CitationText(c: Citation): string {
    Lower(c.filePath + "\n" + c.snippet)
  }

  /** All cited text, one citation after another. */
  function CitationsText(cs: seq<Citation>): string {
    Join(seq(|cs|, i requires 0 <= i < |cs| => CitationText(cs[i])), "\n")
  }

  /** `isSuggestionGrounded`. */
  predicate IsSuggestionGrounded(s: ParsedSuggestion, cs: seq<Citation>) {
    var terms := SignalTerms(s.title, s.rationale, s.expectedImpact);
    |terms| > 0 && exists k :: 0 <= k < |terms| && Contains(CitationsText(cs), terms[k])
  }

  /** Some term occurs in the lowercased path or the lowercased snippet of
      one cited snippet. */
  predicate SomeTermCited(terms: seq<string>, cs: seq<Citation>) {
    exists k, i :: 0 <= k < |terms| && 0 <= i < |cs|
      && (Contains(Lower(cs[i].filePath), terms[k]) || Contains(Lower(cs[i].snippet), terms[k]))
  }

  lemma CitationTextContains(c: Citation, t: string)
    requires t != [] && IsTerm(t)
    ensures Contains(CitationText(c), t)
      <==> Contains(Lower(c.filePath), t) || Contains(Lower(c.snippet), t)
  {
    TermHasNoNewline(t);
    LowerConcat(c.filePath + "\n", c.snippet);
    LowerConcat(c.filePath, "\n");
    assert Lower("\n") == "\n";
    assert CitationText(c) == Lower(c.filePath) + ['\n'] + Lower(c.snippet);
    if Contains(CitationText(c), t) {
      ContainsAcrossSeparator(Lower(c.filePath), '\n', Lower(c.snippet), t);
    }
    ContainsInEitherSide(Lower(c.filePath) + ['\n'], Lower(c.snippet), t);
    ContainsInEitherSide(Lower(c.filePath), ['\n'], t);
  }

  /** A term occurs in the joined citation text exactly when it occurs in
      the lowercased path or snippet of one citation. */
  lemma TermCitedIff(t: string, cs: seq<Citation>)
    requires t != [] && IsTerm(t)
    ensures Contains(CitationsText(cs), t)
      <==> (exists i :: 0 <= i < |cs| && Contains(CitationText(cs[i]), t))
  {
    var texts := seq(|cs|, i requires 0 <= i < |cs| => CitationText(cs[i]));
    TermHasNoNewline(t);
    ContainsInJoin(texts, '\n', t);
    assert forall i :: 0 <= i < |cs| ==> texts[i] == CitationText(cs[i]);
  }

  /** Over any list of terms: some term occurs in the joined text exactly
      when some term occurs in one citation's path or snippet. */
  lemma TermsCitedIff(terms: seq<string>, cs: seq<Citation>)
    requires forall k :: 0 <= k < |terms| ==> terms[k] != [] && IsTerm(terms[k])
    ensures (exists k :: 0 <= k < |terms| && Contains(CitationsText(cs), terms[k]))
      <==> SomeTermCited(terms, cs)
  {
    forall k, i | 0 <= k < |terms| && 0 <= i < |cs| {
      CitationTextContains(cs[i], terms[k]);
    }
    forall k | 0 <= k < |terms| {
      TermCitedIff(terms[k], cs);
    }
  }

  /** Joined or not, the check asks the same: a suggestion is grounded
      exactly when it has terms and one of them occurs in the lowercased path
      or snippet of one of its citations. */
  lemma GroundedIff(s: ParsedSuggestion, cs: seq<Citation>)
    ensures var terms := SignalTerms(s.title, s.rationale, s.expectedImpact);
      IsSuggestionGrounded(s, cs) <==> |terms| > 0 && SomeTermCited(terms, cs)
  {
    TokenizeShape(s.title + " " + s.rationale + " " + s.expectedImpact, SuggestionStopwords);
    TermsCitedIff(SignalTerms(s.title, s.rationale, s.expectedImpact), cs);
  }

  // -------------------------------------------- parseRefactorSuggestions

  /** One normalised suggestion against the evidence: its resolved,
      de-duplicated citations, or nothing when none resolve or it is not
      grounded in them. */
  function Ground(s: ParsedSuggestion, snippets: seq<Citation>): (r: Option<RefactorSuggestion>)
    ensures r.Some? ==>
      && r.value.title == s.title
      && r.value.rationale == s.rationale
      && r.value.expectedImpact == s.expectedImpact
      && |r.value.citations| >= 1
      && IsSuggestionGrounded(s, r.value.citations)
    ensures var d := Citations.DedupeCitations(ResolveAll(s.citations, snippets));
      && (r.Some? <==> d != [] && IsSuggestionGrounded(s, d))
      && (r.Some? ==> r.value.citations == d)
  {
    DedupeByKeyIsDedupe(ResolveAll(s.citations, snippets));
    var deduped := DedupeByKey(ResolveAll(s.citations, snippets), |ResolveAll(s.citations, snippets)|);
    if |deduped| == 0 then None
    else if !IsSuggestionGrounded(s, deduped) then None
    else Some(RefactorSuggestion(s.title, s.rationale, s.expectedImpact, deduped))
  }

  function Grounder(snippets: seq<Citation>): ParsedSuggestion -> Option<RefactorSuggestion> {
    s => Ground(s, snippets)
  }

  /** `.map(ground).filter(Boolean)` over the normalised suggestions. */
  function GroundAll(ss: seq<ParsedSuggestion>, snippets: seq<Citation>): seq<RefactorSuggestion> {
    FilterMap(ss, Grounder(snippets))
  }

  /** `parseRefactorSuggestions`, with `JSON.parse` as `parse`: as many
      suggestions as there are normalised suggestions that ground, but at
      most five. */
  function ParseRefactorSuggestions(raw: string, snippets: seq<Citation>, parse: string -> Option<Json>)
    : (r: seq<RefactorSuggestion>)
    ensures |r| <= 5
    ensures var n := |Yielding(NormalizeParsedSuggestions(ExtractJsonCandidate(raw, parse)), Grounder(snippets))|;
      |r| == if n < 5 then n else 5
  {
    var ss := NormalizeParsedSuggestions(ExtractJsonCandidate(raw, parse));
    FilterMapCount(ss, Grounder(snippets));
    Take(GroundAll(ss, snippets), 5)
  }

  /** What a kept suggestion satisfies against the evidence it was checked
      against. */
  predicate GroundedIn(g: RefactorSuggestion, snippets: seq<Citation>) {
    && g.title != "" && IsTrimmed(g.title)
    && g.rationale != "" && IsTrimmed(g.rationale)
    && g.expectedImpact != "" && IsTrimmed(g.expectedImpact)
    && |g.citations| >= 1
    && (forall c :: c in g.citations ==> c in snippets)
    && DistinctKeys(g.citations)
    && |SignalTerms(g.title, g.rationale, g.expectedImpact)| > 0
    && SomeTermCited(SignalTerms(g.title, g.rationale, g.expectedImpact), g.citations)
  }

  /** A kept suggestion carries the first occurrences of its resolved
      citations, each drawn from the evidence, and is grounded in them. */
  lemma GroundShape(s: ParsedSuggestion, snippets: seq<Citation>)
    requires WellFormed(s)
    requires Ground(s, snippets).Some?
    ensures Ground(s, snippets).value.citations
      == Citations.DedupeCitations(ResolveAll(s.citations, snippets))
    ensures GroundedIn(Ground(s, snippets).value, snippets)
  {
    var resolved := ResolveAll(s.citations, snippets);
    var g := Ground(s, snippets).value;
    DedupeByKeyIsDedupe(resolved);
    SubsequenceMembers(g.citations, resolved);
    GroundedIff(s, g.citations);
  }

  /** A suggestion none of whose citations names an evidence file is dropped. */
  lemma UncitedIsDropped(s: ParsedSuggestion, snippets: seq<Citation>)
    requires forall p, c :: p in s.citations && c in snippets ==> c.filePath != p.filePath
    ensures Ground(s, snippets) == None
  {
    forall i | 0 <= i < |s.citations| ensures Resolver(snippets)(s.citations[i]).None? {
      assert s.citations[i] in s.citations;
    }
    FilterMapNone(s.citations, Resolver(snippets));
  }

  /** The heading of a suggestion: what the reply wrote, minus citations. */
  datatype Heading = Heading(title: string, rationale: string, expectedImpact: string)

  function ParsedHeading(s: ParsedSuggestion): Heading {
    Heading(s.title, s.rationale, s.expectedImpact)
  }

  function SuggestionHeading(g: RefactorSuggestion): Heading {
    Heading(g.title, g.rationale, g.expectedImpact)
  }

  /** Grounding keeps suggestions in the order the reply gave them, and each
      kept one is the grounding of a parsed one. */
  lemma GroundAllShape(ss: seq<ParsedSuggestion>, snippets: seq<Citation>)
    ensures IsSubsequence(MapSeq(GroundAll(ss, snippets), SuggestionHeading), MapSeq(ss, ParsedHeading))
    ensures forall k :: 0 <= k < |GroundAll(ss, snippets)| ==>
      exists i :: 0 <= i < |ss| && Ground(ss[i], snippets) == Some(GroundAll(ss, snippets)[k])
  {
    FilterMapOrder(ss, Grounder(snippets), ParsedHeading, SuggestionHeading);
    FilterMapOrigin(ss, Grounder(snippets));
  }

  /** Every grounded suggestion of well-formed parsed ones satisfies
      `GroundedIn`. */
  lemma GroundAllGrounded(ss: seq<ParsedSuggestion>, snippets: seq<Citation>)
    requires forall s :: s in ss ==> WellFormed(s)
    ensures forall k :: 0 <= k < |GroundAll(ss, snippets)| ==> GroundedIn(GroundAll(ss, snippets)[k], snippets)
  {
    forall k | 0 <= k < |GroundAll(ss, snippets)| ensures GroundedIn(GroundAll(ss, snippets)[k], snippets) {
      GroundedAt(ss, snippets, k);
    }
  }

  lemma GroundedAt(ss: seq<ParsedSuggestion>, snippets: seq<Citation>, k: int)
    requires forall s :: s in ss ==> WellFormed(s)
    requires 0 <= k < |GroundAll(ss, snippets)|
    ensures GroundedIn(GroundAll(ss, snippets)[k], snippets)
  {
    FilterMapOrigin(ss, Grounder(snippets));
    var i :| 0 <= i < |ss| && Grounder(snippets)(ss[i]) == Some(GroundAll(ss, snippets)[k]);
    assert ss[i] in ss;
    GroundShape(ss[i], snippets);
  }

  /** Every suggestion `parseRefactorSuggestions` returns is grounded in the
      evidence (non-blank texts, at least one citation, all citations from
      the evidence with distinct keys, a shared term), and they come in the
      order the reply gave them; there are at most five. */
  lemma ParsedSuggestionsGrounded(raw: string, snippets: seq<Citation>, parse: string -> Option<Json>)
    ensures var r := ParseRefactorSuggestions(raw, snippets, parse);
      && |r| <= 5
      && (forall k :: 0 <= k < |r| ==> GroundedIn(r[k], snippets))
      && IsSubsequence(MapSeq(r, SuggestionHeading),
           MapSeq(NormalizeParsedSuggestions(ExtractJsonCandidate(raw, parse)), ParsedHeading))
  {
    var ss := NormalizeParsedSuggestions(ExtractJsonCandidate(raw, parse));
    var r := ParseRefactorSuggestions(raw, snippets, parse);
    FirstFiveGrounded(ss, snippets, r);
  }

  /** Conversely, the result is exactly the first five grounding
      suggestions: as many as ground, but at most five, and every normalised
      suggestion that grounds with fewer than five grounding ones before it
      is returned at the position given by their number. */
  lemma ParsedSuggestionsFirstFive(raw: string, snippets: seq<Citation>, parse: string -> Option<Json>)
    ensures var ss := NormalizeParsedSuggestions(ExtractJsonCandidate(raw, parse));
      var r := ParseRefactorSuggestions(raw, snippets, parse);
      var n := |Yielding(ss, Grounder(snippets))|;
      && |r| == (if n < 5 then n else 5)
      && forall i :: 0 <= i < |ss| && Ground(ss[i], snippets).Some? && |Yielding(ss[..i], Grounder(snippets))| < 5 ==>
        |Yielding(ss[..i], Grounder(snippets))| < |r| && r[|Yielding(ss[..i], Grounder(snippets))|] == Ground(ss[i], snippets).value
  {
    var ss := NormalizeParsedSuggestions(ExtractJsonCandidate(raw, parse));
    var r := ParseRefactorSuggestions(raw, snippets, parse);
    assert r == Take(GroundAll(ss, snippets), 5);
    FirstFiveKept(ss, snippets, r);
  }

  lemma FirstFiveKept(ss: seq<ParsedSuggestion>, snippets: seq<Citation>, r: seq<RefactorSuggestion>)
    requires r == Take(GroundAll(ss, snippets), 5)
    ensures var n := |Yielding(ss, Grounder(snippets))|; |r| == (if n < 5 then n else 5)
    ensures forall i :: 0 <= i < |ss| && Ground(ss[i], snippets).Some? && |Yielding(ss[..i], Grounder(snippets))| < 5 ==>
        |Yielding(ss[..i], Grounder(snippets))| < |r| && r[|Yielding(ss[..i], Grounder(snippets))|] == Ground(ss[i], snippets).value
  {
    FilterMapCount(ss, Grounder(snippets));
    forall i | 0 <= i < |ss| && Ground(ss[i], snippets).Some? && |Yielding(ss[..i], Grounder(snippets))| < 5 {
      GroundedKept(ss, snippets, i);
    }
  }

  /** A parsed suggestion that grounds is returned, at the position given by
      the number of grounding suggestions before it, as long as fewer than
      five came before. */
  lemma GroundedKept(ss: seq<ParsedSuggestion>, snippets: seq<Citation>, i: int)
    requires 0 <= i < |ss| && Ground(ss[i], snippets).Some?
    requires |Yielding(ss[..i], Grounder(snippets))| < 5
    ensures var r := Take(GroundAll(ss, snippets), 5);
      |Yielding(ss[..i], Grounder(snippets))| < |r| && r[|Yielding(ss[..i], Grounder(snippets))|] == Ground(ss[i], snippets).value
  {
    FilterMapCount(ss[..i], Grounder(snippets));
    FilterMapAt(ss, Grounder(snippets), i);
  }

  lemma FirstFiveGrounded(ss: seq<ParsedSuggestion>, snippets: seq<Citation>, r: seq<RefactorSuggestion>)
    requires forall s :: s in ss ==> WellFormed(s)
    requires r == Take(GroundAll(ss, snippets), 5)
    ensures && (forall k :: 0 <= k < |r| ==> GroundedIn(r[k], snippets))
      && IsSubsequence(MapSeq(r, SuggestionHeading), MapSeq(ss, ParsedHeading))
  {
    GroundAllGrounded(ss, snippets);
    FirstFiveInOrder(ss, snippets);
  }

  lemma FirstFiveInOrder(ss: seq<ParsedSuggestion>, snippets: seq<Citation>)
    ensures IsSubsequence(MapSeq(Take(GroundAll(ss, snippets), 5), SuggestionHeading), MapSeq(ss, ParsedHeading))
  {
    GroundAllShape(ss, snippets);
    TakeMapSubsequence(GroundAll(ss, snippets), SuggestionHeading, MapSeq(ss, ParsedHeading), 5);
  }

  /** A reply whose every citation names a file outside the evidence yields
      no suggestions. */
  lemma OutOfEvidenceYieldsNothing(raw: string, snippets: seq<Citation>, parse: string -> Option<Json>)
    requires forall s, p, c ::
      s in NormalizeParsedSuggestions(ExtractJsonCandidate(raw, parse)) && p in s.citations && c in snippets
      ==> c.filePath != p.filePath
    ensures ParseRefactorSuggestions(raw, snippets, parse) == []
  {
    var ss := NormalizeParsedSuggestions(ExtractJsonCandidate(raw, parse));
    forall i | 0 <= i < |ss| ensures Grounder(snippets)(ss[i]) == None {
      assert ss[i] in ss;
      UncitedIsDropped(ss[i], snippets);
    }
    FilterMapNone(ss, Grounder(snippets));
  }

  /** A blank reply yields no suggestions. */
  lemma BlankReplyYieldsNothing(raw: string, snippets: seq<Citation>, parse: string -> Option<Json>)
    requires Trim(raw) == ""
    ensures ParseRefactorSuggestions(raw, snippets, parse) == []
  {
    BlankReplyHasNoSuggestions(raw, parse);
  }
}
