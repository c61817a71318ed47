# repo-lens core, modelled in Dafny

repo-lens ingests a code repository, cuts its files into overlapping line
windows ("chunks"), retrieves chunks for a question with a hybrid
vector / full-text / substring search, turns the chunks an answer talks about
into citations, and asks a language model for refactoring suggestions. Those
suggestions are kept only when they are grounded in the retrieved evidence.
When the model returns nothing usable, canned suggestions are attached to the
snippets that best match the question. The ask page groups the evidence into
tags (extension, top-level directory, topic) and filters snippets by the
active tag.

This project models that core and proves properties of it:

| file | module | models |
|---|---|---|
| `types.dfy` | `Types` | chunks, citations and the (path, start, end) citation key |
| `text.dfy` | `Text` | the string operations the code relies on (`toLowerCase`, `trim`, `split`, `join`, `includes`, `lastIndexOf`, number rendering) |
| `seqs.dfy` | `Seqs` | `slice(0, n)`, subsequences, first-occurrence de-duplication, a stable sort |
| `filters.dfy` | `Filters` | ingestion filters: binary extensions, ignored directories, control-character sanitising, binary-content sniffing |
| `chunker.dfy` | `Chunker` | the 60-line / 10-line-overlap chunk windows |
| `citations.dfy` | `Citations` | chunk-to-citation conversion, de-duplication, answer citation extraction |
| `search.dfy` | `Search` | query normalisation, the substring (ILIKE) filter and the hybrid search cascade |
| `json.dfy` | `SuggestionParsing` | integer coercion, citation keys, JSON candidate extraction and suggestion normalisation |
| `refactor.dfy` | `Refactor` | tokenising, citation resolution, grounding and `parseRefactorSuggestions` |
| `fallback.dfy` | `RefactorFallback` | question ranking, citation selection and the fallback suggestions |
| `askpage.dfy` | `AskPage` | the ask page's evidence helpers, tag counting (a `TagMap` class) and the tag filter |

Methods model the places where the source updates state step by step:
- the chunking loop;
- the binary-content counting loop;
- `extractCitations`' push loop;
- the hybrid search cascade;
- the rank accumulation;
- the ask page's mutable tag map.

Each method is proved equal to a specification function, and the properties
are proved about those functions.

## Model

| member | source | states |
|---|---|---|
| Filters.BinaryExtensionShape | src/lib/ingestion/filters.ts:1-5 | every listed binary extension is a dot followed by a non-empty name containing no further dot and no slash |
| Filters.NoDotIsNotBinary | src/lib/ingestion/filters.ts:11-22 | a file name without a dot is never binary and is always a text file |
| Filters.BinaryFileIgnoresCase | src/lib/ingestion/filters.ts:11-14 | a name and its lower-cased form get the same binary verdict (the extension is compared case-insensitively) |
| Filters.BinaryFileByBaseName | src/lib/ingestion/filters.ts:11-14 | putting a directory in front of a name does not change whether it is binary |
| Filters.IsBinaryFile | src/lib/ingestion/filters.ts:11-14 | no contract of its own: `Filters.BinaryFileIgnoresCase`, `Filters.BinaryFileByBaseName` and `Filters.NoDotIsNotBinary` state its verdicts |
| Filters.IsTextFile | src/lib/ingestion/filters.ts:20-22 | no contract of its own: the negation of `IsBinaryFile`; `Filters.NoDotIsNotBinary` states that a name without a dot is text |
| Filters.IgnoredPathJoin | src/lib/ingestion/filters.ts:16-18 | a path joined from two parts with `/` or `\` is ignored exactly when one of the parts is ignored |
| Filters.IgnoredSegment | src/lib/ingestion/filters.ts:7-18 | a single path segment is ignored exactly when it is one of the ignored directory names |
| Filters.IsIgnoredPath | src/lib/ingestion/filters.ts:16-18 | no contract of its own: `Filters.IgnoredPathJoin` and `Filters.IgnoredSegment` state when a path is ignored |
| Filters.SanitizeForDatabase | src/lib/ingestion/filters.ts:24-32 | the sanitised text contains none of the disallowed control characters |
| Filters.SanitizeSubsequence | src/lib/ingestion/filters.ts:30-32 | sanitising only deletes characters: the result is a subsequence of the input |
| Filters.SanitizeChar | src/lib/ingestion/filters.ts:24-32 | one character is removed exactly when it is U+0000–U+0008, U+000B, U+000C, U+000E–U+001F or U+007F, and is kept otherwise |
| Filters.SanitizeConcat | src/lib/ingestion/filters.ts:30-32 | sanitising a concatenation equals concatenating the sanitised parts (a global replace acts character by character) |
| Filters.SanitizeClean | src/lib/ingestion/filters.ts:30-32 | text without disallowed characters is returned unchanged |
| Filters.SanitizeIdempotent | src/lib/ingestion/filters.ts:30-32 | sanitising twice equals sanitising once |
| Filters.SanitizeExample | src/lib/ingestion/filters.ts:30-32 | `"a\0b"` becomes `"ab"` |
| Filters.IsProbablyBinaryContent | src/lib/ingestion/filters.ts:38-56 | the counting loop decides exactly `ProbablyBinary`; any NUL makes text binary and empty text is never binary |
| Filters.UnsafeIsDisallowed | src/lib/ingestion/filters.ts:45-53 | the characters the binary sniffer counts are exactly the characters sanitising removes |
| Filters.SanitizedIsNotBinary | src/lib/ingestion/filters.ts:30-56 | sanitised text is never judged to be binary content |
| Filters.ControlHeavyIsBinary | src/lib/ingestion/filters.ts:42-55 | text within the 4096-character sample whose unsafe controls exceed 2% of its length is judged binary |
| Filters.BinaryExamples | src/lib/ingestion/filters.ts:38-56 | text with an embedded NUL is binary; plain multi-line text is not |
| Chunker.ChunkFile | src/lib/ingestion/chunker.ts:4-31 | the window loop returns exactly the windows `Windows` describes (nothing for content over the size limit) |
| Chunker.ChunkCount | src/lib/ingestion/chunker.ts:4-31 | oversized content gives no chunks; otherwise there is one chunk per 50-line stride up to the end, the first starts at line 1 and the last ends at the last line |
| Chunker.ChunkBounds | src/lib/ingestion/chunker.ts:9-26 | every chunk keeps its lines within the file, spans at most 60 lines, holds exactly those lines joined by newlines and keeps the file path; its URL is present exactly when a non-empty source URL was given, and then has the form `url#Lstart-Lend` |
| Chunker.ChunkStride | src/lib/ingestion/chunker.ts:11-28 | consecutive chunks start 50 lines apart, every chunk but the last is a full 60 lines, and neighbours share exactly 10 lines |
| Chunker.ChunkCoverage | src/lib/ingestion/chunker.ts:14-28 | every line of an accepted file lies in some chunk |
| Chunker.ShortFileIsOneChunk | src/lib/ingestion/chunker.ts:14-28 | a file of at most 60 lines becomes one chunk holding the whole content |
| Chunker.Windows | src/lib/ingestion/chunker.ts:4-31 | no contract of its own: `Chunker.ChunkFile`, `Chunker.ChunkCount`, `Chunker.ChunkBounds`, `Chunker.ChunkStride` and `Chunker.ChunkCoverage` state what the windows are |
| Citations.ToCitation | src/lib/qa/citations.ts:5-13 | a citation carries the chunk's path, line range, content and source URL |
| Citations.DedupeCitations | src/lib/qa/citations.ts:15-26 | the result has distinct (path, start, end) keys, is a subsequence of the input, covers the same key set and keeps the first citation of each key |
| Citations.DedupeOfDistinct | src/lib/qa/citations.ts:15-26 | citations that already have distinct keys are returned unchanged |
| Citations.DedupeIdempotent | src/lib/qa/citations.ts:15-26 | de-duplicating twice equals de-duplicating once |
| Citations.DedupeKeepsFirst | src/lib/qa/citations.ts:15-26 | a non-empty list keeps its first citation in first place |
| Citations.MentionsMembers | src/lib/qa/citations.ts:32-38 | a citation is collected exactly when it comes from a chunk whose lower-cased path or file name occurs in the lower-cased answer |
| Citations.ExtractCitations | src/lib/qa/citations.ts:28-44 | the push loop and fallback compute `Extracted`: mentioned chunks, or all chunks if none is mentioned, de-duplicated and cut to the citation limit |
| Citations.ExtractedBounds | src/lib/qa/citations.ts:40-43 | at most the citation limit, distinct keys, each from a retrieved chunk |
| Citations.ExtractedMentioned | src/lib/qa/citations.ts:32-43 | once any chunk is mentioned, every extracted citation is a mentioned one (and there is at least one when the limit is positive) |
| Citations.ExtractedFallback | src/lib/qa/citations.ts:40-43 | when no chunk is mentioned the first retrieved chunks are cited, starting with the first chunk |
| Citations.ExtractedEmpty | src/lib/qa/citations.ts:28-44 | no chunks give no citations |
| Citations.Extracted | src/lib/qa/citations.ts:28-44 | no contract of its own: `Citations.ExtractedBounds`, `Citations.ExtractedMentioned`, `Citations.ExtractedFallback` and `Citations.ExtractedEmpty` state what is extracted |
| Citations.ExtractedNamedPath | tests/qa-citations.test.ts:34-38 | an answer naming `src/retry.ts` cites the `src/retry.ts` chunk |
| Citations.FormatRetrievedSnippets | src/lib/qa/citations.ts:46-48 | the first `snippetLimit` chunks, converted in order |
| Search.NormalizeTextQuery | src/lib/retrieval/search.ts:6-8 | the normalised query has only word characters, whitespace and `./:-`, and has no surrounding whitespace; its value is tied to the query by the three lemmas below |
| Search.NormalizeTextQuerySpan | src/lib/retrieval/search.ts:6-8 | the result is a stretch of the query in which each query character is kept and every other character is a space; outside it the query holds only whitespace and blanked characters |
| Search.NormalizeOfPlainQuery | src/lib/retrieval/search.ts:6-8 | a trimmed query made only of query characters comes back unchanged |
| Search.NormalizeTextQueryEmptyIff | src/lib/retrieval/search.ts:6-8 | the result is empty exactly when every character of the query is whitespace or blanked |
| Search.EscapeOfPlain | src/lib/retrieval/search.ts:10-12 | a trimmed term without `%`, `,` or `'` is left unchanged by escaping |
| Search.EscapeLikeTerm | src/lib/retrieval/search.ts:10-12 | the escaped term holds no `%` or `,`, has no surrounding white space, and is made of the input's characters and spaces; `Search.EscapeOfPlain` states that plain terms are unchanged |
| Search.LongTokens | src/lib/retrieval/search.ts:16 | exactly the tokens longer than two characters are kept |
| Search.TermsAreLongTokens | src/lib/retrieval/search.ts:15-19 | the filter terms are the distinct long tokens of the lower-cased, normalised query, or the whole normalised query when there are none |
| Search.TermsShape | src/lib/retrieval/search.ts:15-19 | the filter terms are distinct, non-empty and need no escaping |
| Search.ClausesShape | src/lib/retrieval/search.ts:20 | each term yields a `content.ilike.%term%` clause followed by a `file_path.ilike.%term%` clause |
| Search.FilterHasNoQuote | src/lib/retrieval/search.ts:14-21 | the filter never contains a single quote |
| Search.FilterClauses | src/lib/retrieval/search.ts:14-21 | with no terms the filter is empty; otherwise splitting it at commas gives back exactly its two clauses per term |
| Search.FilterEmptyIff | src/lib/retrieval/search.ts:14-21 | the filter is empty exactly when the query has no terms |
| Search.BuildFallbackOrFilter | src/lib/retrieval/search.ts:14-21 | no contract of its own: `Search.FilterClauses`, `Search.FilterEmptyIff` and `Search.FilterHasNoQuote` state what the filter is |
| Search.TwoWordTerms | src/lib/retrieval/search.ts:15-19 | a query of two different lower-case words longer than two letters has exactly those two words as terms |
| Search.TwoWordFilter | src/lib/retrieval/search.ts:14-21 | such a query yields the four content/path clauses in order |
| Search.VectorRequest | src/lib/retrieval/search.ts:58-71 | the vector search is skipped exactly when the embedding has the wrong dimension; otherwise it calls `match_chunks` with threshold 0.1, the source and `topK` |
| Search.KeywordRequest | src/lib/retrieval/search.ts:24-36 | the keyword search is skipped exactly when the normalised query is empty; otherwise it searches that text for the source with limit `topK` |
| Search.FallbackRequest | src/lib/retrieval/search.ts:43-52 | the substring search always runs against the source with limit `topK` |
| Search.FallbackFilter | src/lib/retrieval/search.ts:49-50 | the `or` filter is applied exactly when the query has terms, and it is the built filter |
| Search.HybridSearch | src/lib/retrieval/search.ts:77-99 | the result and the queries issued are those of the cascade `HybridChain` |
| Search.RunChain | src/lib/retrieval/search.ts:77-99 | the try/catch cascade issues the queries and returns the result that `Chain` describes |
| Search.ChainSends | src/lib/retrieval/search.ts:77-99 | only the vector, keyword and fallback queries of the stages are ever issued |
| Search.ChainResult | src/lib/retrieval/search.ts:77-99 | one to four queries are issued and the result is the outcome of the last one |
| Search.ChainOrder | src/lib/retrieval/search.ts:77-99 | the vector query comes first, the keyword query precedes any fallback, and only the fallback can repeat |
| Search.ChainVector | src/lib/retrieval/search.ts:79-86 | the vector query is issued first exactly when it runs, and a non-empty vector result is returned at once |
| Search.ChainKeyword | src/lib/retrieval/search.ts:88-91 | the keyword query is issued exactly when the vector stage found nothing and the query is not blank, and it ends the search exactly when it finds rows |
| Search.ChainFallback | src/lib/retrieval/search.ts:89-98 | the last query is a fallback exactly when neither vector nor keyword search found rows; a failing fallback is re-issued once by the catch |
| Search.StagesOfQuery | src/lib/retrieval/search.ts:77-99 | the stage queries are built from the request's source, query, embedding and `topK` |
| Search.SearchSourceAndLimit | src/lib/retrieval/search.ts:77-99 | every query issued is restricted to the requested source and limited to `topK` rows |
| Search.ChainSourceAndLimit | src/lib/retrieval/search.ts:77-99 | when every stage query is for the source and limited to `topK`, so is every query the cascade issues |
| SuggestionParsing.ParseSigned | src/lib/qa/refactor.ts:88 | `parseInt` gives a number exactly when the text starts with a digit, or with a sign and then a digit; negative results need a minus sign |
| SuggestionParsing.ParseIntOfRendered | src/lib/qa/refactor.ts:87-89 | leading whitespace, then a rendered integer, then any non-digit tail parses back to that integer |
| SuggestionParsing.IntToStringInjective | src/lib/qa/refactor.ts:82 | different integers render differently |
| SuggestionParsing.CoerceInteger | src/lib/qa/refactor.ts:85-92 | a number is accepted exactly when it is integral and keeps its value; a string must be non-blank |
| SuggestionParsing.CoerceRendered | src/lib/qa/refactor.ts:85-92 | a string holding a rendered integer (padded, with any non-digit tail) coerces to that integer |
| SuggestionParsing.CitationKeyParts | src/lib/qa/refactor.ts:81-83 | the key is `path::start::end` |
| SuggestionParsing.CitationKeyInjective | src/lib/qa/refactor.ts:81-83 | two citations with the same key have the same path, start and end, so de-duplicating by key is de-duplicating by triple |
| SuggestionParsing.BraceSliceExists | src/lib/qa/refactor.ts:101-104 | a brace candidate exists exactly when some `{` comes before some `}` |
| SuggestionParsing.BraceSliceSpan | src/lib/qa/refactor.ts:101-104 | the candidate runs from the first `{` to the last `}` |
| SuggestionParsing.ExtractJsonCandidate | src/lib/qa/refactor.ts:94-114 | a blank reply gives null; a reply that parses is used as is; when it does not parse but its brace slice does, the result is the slice's parse; any other non-null result is one of those two parses |
| SuggestionParsing.TextField | src/lib/qa/refactor.ts:134-137 | a text field's value is trimmed |
| SuggestionParsing.NormalizeCitation | src/lib/qa/refactor.ts:141-149 | a parsed citation exists exactly for an object with a non-blank path and integer-coercible start and end lines; its path is the trimmed `filePath` field and its lines are the coerced `startLine` and `endLine` fields |
| SuggestionParsing.NormalizeSuggestion | src/lib/qa/refactor.ts:131-153 | a suggestion exists exactly for an object with non-blank title, rationale and expected impact; those are its trimmed text fields, its citations are the normalisation of its `citations` array, and it is well formed |
| SuggestionParsing.NormalizeParsedSuggestions | src/lib/qa/refactor.ts:124-156 | every kept suggestion is well formed and is the normalisation of one raw item of the `suggestions` array (or of the array itself); anything but an object or array gives none |
| SuggestionParsing.NormalizeKeeps | src/lib/qa/refactor.ts:127-155 | every raw suggestion that normalises is kept |
| SuggestionParsing.NormalizeInOrder | src/lib/qa/refactor.ts:130-155 | the kept suggestions are exactly the raw items that normalise, in order: a subsequence of the mapped list, as many as the items that normalise (duplicates included), and each item that normalises at the position counting the normalising items before it |
| SuggestionParsing.NormalizeCitations | src/lib/qa/refactor.ts:140-150 | every kept citation is the normalisation of one raw citation item |
| SuggestionParsing.NormalizeCitationsKeep | src/lib/qa/refactor.ts:140-150 | every raw citation item that normalises is kept, and the kept ones come in the order given |
| SuggestionParsing.NormalizeCitationsExactly | src/lib/qa/refactor.ts:140-150 | as many citations as raw items that normalise, each at the position counting the normalising items before it |
| SuggestionParsing.BlankReplyHasNoSuggestions | src/lib/qa/refactor.ts:94-96 | a blank reply yields no suggestions |
| Refactor.KeepTermsSubsequence | src/lib/qa/refactor.ts:121 | the kept terms are a subsequence of the pieces |
| Refactor.KeepTermsComplete | src/lib/qa/refactor.ts:121 | every piece longer than two characters that is not a stopword is kept |
| Refactor.TokenizeShape | src/lib/qa/refactor.ts:116-122 | tokens are, in order, exactly the lower-case pieces longer than two characters that are not stopwords, made only of word characters, whitespace and `./:-` |
| Refactor.TermBetweenSpaces | src/lib/qa/refactor.ts:116-122 | a lower-case term with white space on both sides is one of the pieces the text splits into |
| Refactor.Tokenize | src/lib/qa/refactor.ts:116-122 | no contract of its own: `Refactor.TokenizeShape` and `Refactor.KeepTermsComplete` state what the tokens are |
| Refactor.OverlapSharesLine | src/lib/qa/refactor.ts:158-160 | two non-empty line ranges overlap exactly when they share a line, and overlap is symmetric |
| Refactor.IsLineRangeOverlapping | src/lib/qa/refactor.ts:158-160 | no contract of its own: `Refactor.OverlapSharesLine` states that it means sharing a line and is symmetric |
| Refactor.FindMatch | src/lib/qa/refactor.ts:163-175 | `find` returns the first matching snippet, or none |
| Refactor.ResolveCitation | src/lib/qa/refactor.ts:162-179 | an exact (path, start, end) match is preferred, else the first overlapping range in the same file; the result is a snippet of that file, and there is none exactly when nothing matches |
| Refactor.ResolveAll | src/lib/qa/refactor.ts:299-301 | resolved citations are all retrieved snippets |
| Refactor.DedupeByKeyIsDedupe | src/lib/qa/refactor.ts:303-311 | the key-based `findIndex` filter is the same first-occurrence de-duplication as the one for answer citations |
| Refactor.GroundedIff | src/lib/qa/refactor.ts:181-196 | a suggestion is grounded exactly when it has signal terms and one of them occurs in the path or snippet of some citation |
| Refactor.IsSuggestionGrounded | src/lib/qa/refactor.ts:181-196 | no contract of its own: `Refactor.GroundedIff` and `Refactor.TermCitedIff` state when it holds |
| Refactor.TermCitedIff | src/lib/qa/refactor.ts:191-195 | a term occurs in the newline-joined citation text exactly when it occurs in one citation's text |
| Refactor.CitationTextContains | src/lib/qa/refactor.ts:192 | a signal term occurs in a citation's text exactly when it occurs in its lower-cased path or snippet |
| Refactor.Ground | src/lib/qa/refactor.ts:297-322 | a suggestion is kept exactly when its de-duplicated resolved citations are non-empty and ground it; then it keeps its title, rationale and expected impact and those citations |
| Refactor.GroundShape | src/lib/qa/refactor.ts:297-322 | a kept suggestion's citations are the de-duplicated resolutions of its parsed citations, all retrieved snippets of the cited files |
| Refactor.UncitedIsDropped | src/lib/qa/refactor.ts:297-313 | a suggestion citing no retrieved file is dropped |
| Refactor.GroundAllShape | src/lib/qa/refactor.ts:297-323 | kept suggestions appear in the order of the parsed ones and each is the grounding of one of them |
| Refactor.ParseRefactorSuggestions | src/lib/qa/refactor.ts:293-325 | as many suggestions as normalised suggestions that ground, but at most five |
| Refactor.ParsedSuggestionsGrounded | src/lib/qa/refactor.ts:293-325 | at most five, each grounded in the retrieved snippets, in the model's order |
| Refactor.ParsedSuggestionsFirstFive | src/lib/qa/refactor.ts:293-325 | the result has length min(5, number of grounding suggestions), and every normalised suggestion that grounds with fewer than five grounding ones before it is returned at the position counting them: the result is exactly the first five grounding suggestions |
| Refactor.GroundedKept | src/lib/qa/refactor.ts:297-324 | one grounding suggestion with fewer than five grounding ones before it sits at that position of the result |
| RefactorFallback.ParsedAuthSuggestion | tests/refactor-suggestions.test.ts:26-43 | a reply parsing to one suggestion "Extract auth session helper" citing `src/lib/auth.ts` lines 10-30 yields exactly that suggestion, citing only `src/lib/auth.ts`, against the auth and retry snippets |
| RefactorFallback.AuthParsedGrounded | tests/refactor-suggestions.test.ts:26-43 | the parsed suggestion resolves to the auth snippet alone and is grounded by the title word "auth" in its path |
| RefactorFallback.AuthReplyNormalized | tests/refactor-suggestions.test.ts:27-36 | the test reply normalises to its one suggestion with its one citation |
| RefactorFallback.CitationFieldsNormalized | src/lib/qa/refactor.ts:140-148 | an object with a trimmed non-empty path and two whole line numbers normalises to that citation |
| RefactorFallback.SuggestionFieldsNormalized | src/lib/qa/refactor.ts:131-153 | an object with three non-blank texts and one well-formed citation normalises to the trimmed texts and that citation |
| Refactor.OutOfEvidenceYieldsNothing | tests/refactor-suggestions.test.ts:45-59 | suggestions citing only files outside the evidence yield nothing |
| Refactor.BlankReplyYieldsNothing | src/lib/qa/refactor.ts:293-296 | a blank model reply yields no suggestions |
| RefactorFallback.StylingWordAsks | src/lib/qa/refactor.ts:201 | a question containing any styling word as a whole word asks about styling |
| RefactorFallback.AsksStylingContains | src/lib/qa/refactor.ts:201 | a styling question contains one of the styling words |
| RefactorFallback.RankCitationForQuestion | src/lib/qa/refactor.ts:198-222 | the accumulation loop returns `Score`: 3 per term in the path, 1 per term in the content, plus the styling bonuses |
| RefactorFallback.TermScorePositive | src/lib/qa/refactor.ts:204-207 | the term score is positive exactly when some term occurs in the path or content, and is at most 4 per term |
| RefactorFallback.ScorePositive | src/lib/qa/refactor.ts:198-222 | a citation scores above zero exactly when a term hits or a styling question meets a styling file or content; the score is at most 4 per term plus 9 |
| RefactorFallback.RanksBeforeOrder | src/lib/qa/refactor.ts:238 | the comparator (higher score first, then earlier index) is a strict weak order |
| RefactorFallback.RankAll | src/lib/qa/refactor.ts:232-237 | each citation is paired with its score and index |
| RefactorFallback.Ranking | src/lib/qa/refactor.ts:238 | the ranking is a permutation of the scored citations, sorted by the comparator |
| RefactorFallback.PickShape | src/lib/qa/refactor.ts:240-243 | at most three picks, none only for no citations, all from the ranking, in ranked order, and all positive when any citation scores |
| RefactorFallback.PickIsTop | src/lib/qa/refactor.ts:238-243 | a positively scored citation left out means three picks each ranked ahead of it |
| RefactorFallback.NothingScoresKeepsOrder | src/lib/qa/refactor.ts:238-243 | when nothing scores, the first three citations are picked in their original order |
| RefactorFallback.PickSinglePositive | src/lib/qa/refactor.ts:240-243 | when exactly one citation scores, it alone is picked |
| RefactorFallback.SelectRelevantShape | src/lib/qa/refactor.ts:224-246 | at most three citations, none only for no input, all from the input; a blank question takes the first three, otherwise the ranked picks |
| RefactorFallback.NoMatchGivesFirstThree | src/lib/qa/refactor.ts:240-245 | a question no citation matches selects the first three citations |
| RefactorFallback.SelectRelevantCitations | src/lib/qa/refactor.ts:224-246 | no contract of its own: `RefactorFallback.SelectRelevantShape` and `RefactorFallback.NoMatchGivesFirstThree` state what is selected |
| RefactorFallback.FillShape | src/lib/qa/refactor.ts:352-355 | the i-th template gets the i-th selected citation, and there are as many suggestions as both allow |
| RefactorFallback.FallbackShape | src/lib/qa/refactor.ts:327-356 | no snippets give nothing; otherwise one template per selected citation, at most three, in template order, each citing one snippet |
| RefactorFallback.FallbackWithoutQuestion | src/lib/qa/refactor.ts:327-356 | with no question the templates cite the first snippets in order |
| RefactorFallback.FallbackSingleMatch | src/lib/qa/refactor.ts:327-356 | when exactly one snippet matches the question, one suggestion ("Extract focused helper functions") cites it |
| RefactorFallback.BuildFallbackRefactorSuggestions | src/lib/qa/refactor.ts:327-356 | no contract of its own: `RefactorFallback.FallbackShape`, `RefactorFallback.FallbackWithoutQuestion` and `RefactorFallback.FallbackSingleMatch` state the suggestions |
| RefactorFallback.RetriesQuestionTerms | src/lib/qa/refactor.ts:227-230 | "How do retries work?" tokenises to `retries`, `work` |
| RefactorFallback.FallbackForRetriesQuestion | tests/refactor-suggestions.test.ts:61-65 | for the auth and retry snippets and "How do retries work?", the single suggestion cites `src/lib/retry.ts` |
| AskPage.NormalizeSearchValue | src/app/ask/page.tsx:16-18 | a normalised search value is trimmed and has no upper-case letters |
| AskPage.NormalizeIdempotent | src/app/ask/page.tsx:16-18 | normalising twice equals normalising once |
| AskPage.OwnPathMatches | src/app/ask/page.tsx:16-26 | searching for a citation's own normalised path matches that citation |
| AskPage.MatchesEvidence | src/app/ask/page.tsx:20-26 | no contract of its own: `AskPage.OwnPathMatches` states that a citation matches a search for its own path |
| AskPage.GetFileExtension | src/app/ask/page.tsx:28-33 | the extension is `no-ext` or a non-empty lower-case name without dot or slash |
| AskPage.FileNameOf | src/app/ask/page.tsx:29 | the file name is the lower-cased last path segment |
| AskPage.ExtensionOf | src/app/ask/page.tsx:28-33 | `dir/base.ext` has the lower-cased `ext` as extension |
| AskPage.NoExtension | src/app/ask/page.tsx:30-31 | a name without a dot, or ending in a dot, has `no-ext` |
| AskPage.NormalizedPath | src/app/ask/page.tsx:36-40 | the normalised path has no backslash and no upper-case letters |
| AskPage.GetTopLevelDir | src/app/ask/page.tsx:35-44 | the top-level directory is a plain segment (non-empty, trimmed, lower-case, no slash or backslash, not `.`) |
| AskPage.TopLevelDirUnder | src/app/ask/page.tsx:35-44 | `d/rest` has top-level directory `d` |
| AskPage.TopLevelDirOfSegment | src/app/ask/page.tsx:35-44 | a plain segment is its own top-level directory |
| AskPage.TopLevelDirIdempotent | src/app/ask/page.tsx:35-44 | taking the top-level directory twice changes nothing |
| AskPage.AddToCount | src/app/ask/page.tsx:51-58 | adding a tag keeps tag ids distinct and raises exactly that id's count by the added amount |
| AskPage.TallyCount | src/app/ask/page.tsx:50-79 | the tag map holds distinct ids and each id's count is the total of its additions |
| AskPage.KeyAddsTotals | src/app/ask/page.tsx:60-65 | an extension tag counts the items with that extension, a directory tag the items in that directory; items add no topic |
| AskPage.TopicAddsTotal | src/app/ask/page.tsx:75-79 | a topic counts 2 exactly when one of its terms occurs in the question, else 0 |
| AskPage.AllAddsTotals | src/app/ask/page.tsx:60-79 | the counts of all three tag kinds over the whole tag map |
| AskPage.TagBeforeOrder | src/app/ask/page.tsx:82 | higher count first, then label order, is a strict weak order when `localeCompare` is |
| AskPage.TagMap.constructor | src/app/ask/page.tsx:50 | the tag map starts empty |
| AskPage.TagMap.Add | src/app/ask/page.tsx:51-58 | the map is updated in place: an existing id's count grows, a new id is appended with its label |
| AskPage.TagMap.AddTopics | src/app/ask/page.tsx:75-79 | the topic loop adds a weight-2 tag for each matching topic rule |
| AskPage.CountItems | src/app/ask/page.tsx:60-65 | the item loop leaves the tally of the items' extension and directory tags |
| AskPage.DeriveEvidenceTags | src/app/ask/page.tsx:46-84 | the method computes `EvidenceTags` |
| AskPage.TopTagsShape | src/app/ask/page.tsx:81-83 | one to ten tags with distinct ids, sorted, each carrying its true total |
| AskPage.TopTagsTop | src/app/ask/page.tsx:81-83 | a tag left out means ten tags none of which ranks after it |
| AskPage.EvidenceTagsShape | src/app/ask/page.tsx:46-48 | retrieved snippets are used when present, else citations; there are no tags exactly when there are no items |
| AskPage.EvidenceTags | src/app/ask/page.tsx:46-84 | no contract of its own: `AskPage.EvidenceTagsShape`, `AskPage.TopTagsShape`, `AskPage.TopTagsTop` and `AskPage.AllAddsTotals` state what the tags are |
| AskPage.AsWrittenCutsValue | src/app/ask/page.tsx:89 | `split(":", 2)` keeps only the text up to a second colon of the value |
| AskPage.FilterAgreesWithoutSecondColon | src/app/ask/page.tsx:86-100 | for values without a colon the written filter and the corrected one agree |
| AskPage.FilterSelects | src/app/ask/page.tsx:86-97 | an `ext:`, `dir:` or `topic:` filter selects exactly the citations with that extension, that directory or that text (an empty value selects all) |
| AskPage.FilterKeeps | src/app/ask/page.tsx:99 | an unknown tag kind keeps every citation |
| AskPage.MatchesTagFilter | src/app/ask/page.tsx:86-100 | no contract of its own: `AskPage.FilterSelects`, `AskPage.FilterKeeps` and `AskPage.OwnTagsMatch` state what the corrected filter selects |
| AskPage.MatchesTagFilterAsWritten | src/app/ask/page.tsx:86-100 | no contract of its own: `AskPage.AsWrittenCutsValue`, `AskPage.FilterAgreesWithoutSecondColon` and `AskPage.AsWrittenMissesOwnDir` state how the filter as written behaves |
| AskPage.OwnTagsMatch | src/app/ask/page.tsx:60-97 | every citation matches its own extension tag and its own directory tag |
| AskPage.AsWrittenMissesOwnDir | src/app/ask/page.tsx:89-93 | as written, a citation whose top-level directory has an inner colon does not match its own directory tag |
| AskPage.DriveLetterDir | src/app/ask/page.tsx:35-44 | `c:/app/page.ts` has top-level directory `c:` |

## Left out

- `JSON.parse` is a parameter `parse: string -> Option<Json>` (with `None` for a throw); JSON text syntax is not modelled.
- JSON numbers are reals; `Number.isInteger` is `n.Floor == n`. Double rounding, `NaN` and infinities are not modelled.
- `Number.parseInt` is modelled over ASCII digits with exact integers; precision loss on huge digit strings is not modelled.
- Database, RPC and full-text search calls are opaque outcomes given as parameters (rows, no rows, or an error), and the search stages record the queries they would issue. The Postgres `websearch` semantics are not modelled.
- The catch in `hybridSearch` calls `fallbackSearch` a second time, so the cascade takes a separate outcome for that retry.
- `console.error` logging is dropped.
- `String.prototype.localeCompare` is the parameter `labelLess`, which must be a strict weak order; JavaScript's `sort` is modelled as a stable insertion sort.
- Case folding (`toLowerCase`, the `/i` flag), `\w` and `\b` are ASCII only, so Unicode case mapping is not modelled. `\s` and `trim` use JavaScript's whitespace set.
- Strings are sequences of Unicode characters, so a character outside the Basic Multilingual Plane is one character where JavaScript's UTF-16 strings hold two surrogate halves. This changes `length` and the 4096-character sample of the binary sniffer. It also changes `Search.NormalizeTextQuery`: the regex `/[^\w\s./:-]/g` has no `u` flag, so JavaScript blanks each surrogate half on its own and turns "a😀b" into "a  b" (two spaces), where the model gives "a b". That difference then reaches the whole-query fallback filter (`%a  b%` against `%a b%`) and the text given to the keyword search.
- `split(/\s+/)` is modelled as a split at every whitespace character. This only adds empty pieces, which every caller drops because it keeps pieces longer than two characters.
- `Filters.IsProbablyBinaryContent`: the ratio test `count / length > 0.02` is the exact integer test `50 * count > length`; floating-point rounding of the quotient is not modelled.
- Configuration values (`maxFileChars`, `embeddingDimension`, `defaultCitationLimit`, `defaultSnippetLimit`) are parameters; `src/lib/config.ts` is not part of this model.
- `chunkFile` returns `Partial<Chunk>`; the model returns a draft with only the five fields it sets.
- `buildRefactorPrompt` (src/lib/qa/refactor.ts:248-291) only formats a prompt string; it is not part of this model.
- The ask page's React component (src/app/ask/page.tsx:102-534) is UI and network code; only its helpers are modelled.
- GitHub and zip ingestion (`src/lib/ingestion/github.ts`, `zip.ts`) are network and archive I/O; they are not part of this model.
- Two helpers imported by the test files, `rankRetrievedChunks` and `isSupportedTextFile`, are not defined in the sources, so they are not part of this model.
- The code has no "most recent first" fallback ordering and no stopword filtering in `buildFallbackOrFilter`; the model follows the code.

## Findings

| source | as written | input that shows it | evidently intended | confidence | as-written member | corrected member |
|---|---|---|---|---|---|---|
| src/app/ask/page.tsx:89 | `activeTagId.split(":", 2)` keeps only the text before a second colon, so a tag value containing `:` is cut short | a citation with path `c:/app/page.ts` (or `C:\app\page.ts`) has top-level directory `c:` and tag `dir:c:`; the filter compares `c:` with `c` and hides the citation under its own tag | split only at the first colon, so every item matches the tags derived from it | not executed | AskPage.AsWrittenMissesOwnDir | AskPage.OwnTagsMatch |
