/** Retrieval (src/lib/retrieval/search.ts): the query sanitisation, the
    substring-OR filter of the last-resort search, the local guards of the
    keyword and vector searches, and the priority chain of `hybridSearch`.
    The database calls are opaque: each strategy's answer is an input. */
module Search {
  import opened Types
  import opened Text
  import opened Seqs

  // ------------------------------------------------------- sanitising

  /** The characters `/[^\w\s./:-]/g` leaves alone. */
  predicate IsQueryChar(c: char) {
    IsWordChar(c) || IsSpace(c) || c == '.' || c == '/' || c == ':' || c == '-'
  }

  /** `.replace(/[^\w\s./:-]/g, " ")`: every other character becomes a space. */
  function BlankNonQuery(query: string): string {
    seq(|query|, i requires 0 <= i < |query| => if IsQueryChar(query[i]) then query[i] else ' ')
  }

  /** Every other character becomes a space; then trim. */
  function NormalizeTextQuery(query: string): (r: string)
    ensures forall c :: c in r ==> IsQueryChar(c)
    ensures IsTrimmed(r)
  {
    TrimChars(BlankNonQuery(query));
    Trim(BlankNonQuery(query))
  }

  /** The normalised query is a stretch of the query in which each query
      character is kept and every other character is a space; outside that
      stretch there is only white space or characters that were blanked. */
  lemma NormalizeTextQuerySpan(query: string) returns (lo: nat)
    ensures var r := NormalizeTextQuery(query);
      && lo + |r| <= |query|
      && (forall k :: 0 <= k < |r| ==>
           r[k] == if IsQueryChar(query[lo + k]) then query[lo + k] else ' ')
      && (forall i :: 0 <= i < |query| && (i < lo || lo + |r| <= i) ==>
           IsSpace(query[i]) || !IsQueryChar(query[i]))
  {
    var b := BlankNonQuery(query);
    lo := TrimSlice(b);
    var r := NormalizeTextQuery(query);
    assert forall k :: 0 <= k < |r| ==> r[k] == b[lo + k];
    forall i | 0 <= i < |query| && (i < lo || lo + |r| <= i)
      ensures IsSpace(query[i]) || !IsQueryChar(query[i])
    {
      assert IsSpace(b[i]);
    }
  }

  /** A trimmed query made only of query characters comes back unchanged. */
  lemma NormalizeOfPlainQuery(query: string)
    requires IsTrimmed(query)
    requires forall i :: 0 <= i < |query| ==> IsQueryChar(query[i])
    ensures NormalizeTextQuery(query) == query
  {
    assert BlankNonQuery(query) == query;
    TrimOfTrimmed(query);
  }

  /** The normalised query is empty exactly when the query holds nothing but
      white space and characters that are blanked. */
  lemma NormalizeTextQueryEmptyIff(query: string)
    ensures NormalizeTextQuery(query) == "" <==>
      forall i :: 0 <= i < |query| ==> IsSpace(query[i]) || !IsQueryChar(query[i])
  {
    var b := BlankNonQuery(query);
    TrimEmptyIff(b);
    assert forall i :: 0 <= i < |query| ==>
      (IsSpace(b[i]) <==> IsSpace(query[i]) || !IsQueryChar(query[i]));
  }

  /** `.replace(/'/g, "''")`. */
  function DoubleQuotes(s: string): string
    decreases |s|
  {
    if s == [] then []
    else (if s[0] == '\'' then "''" else [s[0]]) + DoubleQuotes(s[1..])
  }

  /** Doubling quotes adds no new character. */
  lemma {:induction false} DoubleQuotesChars(s: string)
    ensures forall c :: c in DoubleQuotes(s) ==> c in s
    decreases |s|
  {
    if s != [] {
      DoubleQuotesChars(s[1..]);
      assert forall c :: c in s[1..] ==> c in s;
    }
  }

  /** `%` and `,` become spaces, quotes are doubled, then trim: the term
      holds no `%` or `,`, has no surrounding white space, and is made of
      the input's characters and spaces. */
  function EscapeLikeTerm(term: string): (r: string)
    ensures '%' !in r && ',' !in r && IsTrimmed(r)
    ensures forall c :: c in r ==> c in term || c == ' '
  {
    var blanked := seq(|term|, i requires 0 <= i < |term| =>
      if term[i] == '%' || term[i] == ',' then ' ' else term[i]);
    DoubleQuotesChars(blanked);
    TrimChars(DoubleQuotes(blanked));
    Trim(DoubleQuotes(blanked))
  }

  lemma {:induction false} DoubleQuotesOfQuoteFree(s: string)
    requires '\'' !in s
    ensures DoubleQuotes(s) == s
    decreases |s|
  {
    if s != [] {
      DoubleQuotesOfQuoteFree(s[1..]);
    }
  }

  /** A trimmed term without `%`, `,` or quotes needs no escaping. */
  lemma EscapeOfPlain(term: string)
    requires IsTrimmed(term) && '%' !in term && ',' !in term && '\'' !in term
    ensures EscapeLikeTerm(term) == term
  {
    var blanked := seq(|term|, i requires 0 <= i < |term| =>
      if term[i] == '%' || term[i] == ',' then ' ' else term[i]);
    assert blanked == term;
    DoubleQuotesOfQuoteFree(term);
    TrimOfTrimmed(term);
  }

  // ---------------------------------------------------------- terms

  /** `.filter((token) => token.length > 2)`. */
  function LongTokens(tokens: seq<string>): (r: seq<string>)
    ensures forall k :: 0 <= k < |r| ==> |r[k]| > 2 && r[k] in tokens
    ensures forall t :: t in tokens && |t| > 2 ==> t in r
    decreases |tokens|
  {
    if tokens == [] then []
    else (if |tokens[0]| > 2 then [tokens[0]] else []) + LongTokens(tokens[1..])
  }

  /** `.map(escapeLikeTerm)`. */
  function EscapeAll(terms: seq<string>): (r: seq<string>)
    ensures |r| == |terms|
    ensures forall k :: 0 <= k < |terms| ==> r[k] == EscapeLikeTerm(terms[k])
  {
    seq(|terms|, k requires 0 <= k < |terms| => EscapeLikeTerm(terms[k]))
  }

  /** The normalised, lowercased query. */
  function Normalized(query: string): string {
    Lower(NormalizeTextQuery(query))
  }

  /** The search terms: the distinct escaped tokens longer than two
      characters, else the whole escaped query if that is non-empty. */
  function Terms(query: string): seq<string> {
    TermsOf(Normalized(query))
  }

  function TermsOf(normalized: string): seq<string> {
    var keywords := EscapeAll(LongTokens(Split(normalized, Whitespace)));
    var uniqueTerms := Distinct(keywords);
    if |uniqueTerms| > 0 then uniqueTerms
    else
      var whole := EscapeLikeTerm(normalized);
      if whole != "" then [whole] else []
  }

  /** The PostgREST column-filter heads of the two clauses of a term. */
  const ContentHead: string := "content.ilike.%"
  const PathHead: string := "file_path.ilike.%"

  /** The characters the clause heads are made of. */
  predicate IsHeadChar(c: char) {
    'a' <= c <= 'z' || c == '.' || c == '_' || c == '%'
  }

  lemma HeadChars()
    ensures forall c :: c in ContentHead ==> IsHeadChar(c)
    ensures forall c :: c in PathHead ==> IsHeadChar(c)
  {
    assert ContentHead == ['c', 'o', 'n', 't', 'e', 'n', 't', '.', 'i', 'l', 'i', 'k', 'e', '.', '%'];
    assert PathHead == ['f', 'i', 'l', 'e', '_', 'p', 'a', 't', 'h', '.', 'i', 'l', 'i', 'k', 'e', '.', '%'];
  }

  /** Two clauses per term: content first, then file path. */
  function Clauses(terms: seq<string>): (r: seq<string>)
    ensures |r| == 2 * |terms|
    decreases |terms|
  {
    if terms == [] then []
    else [ContentHead + terms[0] + "%", PathHead + terms[0] + "%"] + Clauses(terms[1..])
  }

  /** Clauses `2k` and `2k+1` are the content and file-path clauses of term `k`. */
  lemma {:induction false} ClausesShape(terms: seq<string>)
    ensures forall k :: 0 <= k < |terms| ==>
      Clauses(terms)[2 * k] == ContentHead + terms[k] + "%"
      && Clauses(terms)[2 * k + 1] == PathHead + terms[k] + "%"
    decreases |terms|
  {
    if terms != [] {
      ClausesShape(terms[1..]);
      var r := Clauses(terms);
      var rest := Clauses(terms[1..]);
      forall k | 1 <= k < |terms|
        ensures r[2 * k] == ContentHead + terms[k] + "%"
        ensures r[2 * k + 1] == PathHead + terms[k] + "%"
      {
        assert r[2 * k] == rest[2 * (k - 1)] && r[2 * k + 1] == rest[2 * (k - 1) + 1];
        assert terms[k] == terms[1..][k - 1];
      }
    }
  }

  /** A character in no term and in neither clause text is in no clause. */
  lemma {:induction false} ClausesAvoid(terms: seq<string>, c: char)
    requires !IsHeadChar(c)
    requires forall k :: 0 <= k < |terms| ==> c !in terms[k]
    ensures forall k :: 0 <= k < |Clauses(terms)| ==> c !in Clauses(terms)[k]
    decreases |terms|
  {
    if terms != [] {
      HeadChars();
      ClausesAvoid(terms[1..], c);
      var rest := Clauses(terms[1..]);
      assert forall k :: 2 <= k < |Clauses(terms)| ==> Clauses(terms)[k] == rest[k - 2];
    }
  }

  /** `buildFallbackOrFilter`. */
  function BuildFallbackOrFilter(query: string): string {
    Join(Clauses(Terms(query)), ",")
  }

  // ------------------------------------------------ filter properties

  /** No character `escapeLikeTerm` would rewrite. */
  predicate Unescaped(s: string) {
    '\'' !in s && '%' !in s && ',' !in s
  }

  /** The lowercased normalised query has none of the characters that need
      escaping, no upper-case letter and no surrounding whitespace. */
  lemma NormalizedShape(query: string)
    ensures Unescaped(Normalized(query))
    ensures HasNoUpper(Normalized(query))
    ensures IsTrimmed(Normalized(query))
  {
    var m := NormalizeTextQuery(query);
    NormalizedUnescaped(m);
    LowerHasNoUpper(m);
    LowerTrimmed(m);
  }

  lemma NormalizedUnescaped(m: string)
    requires forall c :: c in m ==> IsQueryChar(c)
    ensures Unescaped(Lower(m))
  {
    assert !IsQueryChar('\'') && !IsQueryChar('%') && !IsQueryChar(',');
    LowerKeepsNonLetter(m, '\'');
    LowerKeepsNonLetter(m, '%');
    LowerKeepsNonLetter(m, ',');
  }

  /** Every whitespace token of a text that needs no escaping needs none
      either, and has no surrounding whitespace. */
  lemma TokensUnescaped(n: string)
    requires Unescaped(n)
    ensures forall k :: 0 <= k < |Split(n, Whitespace)| ==>
      Unescaped(Split(n, Whitespace)[k]) && IsTrimmed(Split(n, Whitespace)[k])
  {
    SplitAvoids(n, Whitespace, '\'');
    SplitAvoids(n, Whitespace, '%');
    SplitAvoids(n, Whitespace, ',');
  }

  /** Escaping leaves the long tokens as they are. */
  lemma EscapeLongTokens(n: string)
    requires Unescaped(n)
    ensures var long := LongTokens(Split(n, Whitespace));
      EscapeAll(long) == long
  {
    var tokens := Split(n, Whitespace);
    var long := LongTokens(tokens);
    TokensUnescaped(n);
    forall k | 0 <= k < |long| ensures EscapeLikeTerm(long[k]) == long[k] {
      var i :| 0 <= i < |tokens| && tokens[i] == long[k];
      EscapeOfPlain(long[k]);
    }
  }

  lemma TermsOfLongTokens(n: string)
    requires Unescaped(n) && IsTrimmed(n)
    ensures var long := LongTokens(Split(n, Whitespace));
      && (|long| > 0 ==> TermsOf(n) == Distinct(long))
      && (|long| == 0 ==> TermsOf(n) == if n == "" then [] else [n])
  {
    var long := LongTokens(Split(n, Whitespace));
    EscapeLongTokens(n);
    if |long| > 0 {
      DistinctMembers(long);
      assert long[0] in Distinct(long);
    } else {
      EscapeOfPlain(n);
    }
  }

  /** There is no stopword removal: the terms are exactly the distinct
      tokens longer than two characters, when there are any, and otherwise
      the whole normalised query unless it is empty. */
  lemma TermsAreLongTokens(query: string)
    ensures var long := LongTokens(Split(Normalized(query), Whitespace));
      && (|long| > 0 ==> Terms(query) == Distinct(long))
      && (|long| == 0 ==> Terms(query) == if Normalized(query) == "" then [] else [Normalized(query)])
  {
    NormalizedShape(query);
    TermsOfLongTokens(Normalized(query));
  }

  /** Every term is non-empty and needs no escaping. */
  predicate AllPlain(ts: seq<string>) {
    forall k :: 0 <= k < |ts| ==> ts[k] != "" && Unescaped(ts[k])
  }

  /** The long tokens are non-empty and need no escaping. */
  lemma LongTokensUnescaped(n: string)
    requires Unescaped(n)
    ensures AllPlain(LongTokens(Split(n, Whitespace)))
  {
    var tokens := Split(n, Whitespace);
    var long := LongTokens(tokens);
    TokensUnescaped(n);
    forall k | 0 <= k < |long| ensures long[k] != "" && Unescaped(long[k]) {
      var j :| 0 <= j < |tokens| && tokens[j] == long[k];
    }
  }

  /** Distinct elements of a list of plain terms are plain terms. */
  lemma DistinctUnescaped(long: seq<string>)
    requires AllPlain(long)
    ensures AllPlain(Distinct(long))
  {
    var d := Distinct(long);
    DistinctMembers(long);
    forall k | 0 <= k < |d| ensures d[k] != "" && Unescaped(d[k]) {
      assert d[k] in long;
    }
  }

  lemma TermsOfDistinct(n: string)
    requires Unescaped(n) && IsTrimmed(n)
    ensures var ts := TermsOf(n);
      forall i, j :: 0 <= i < j < |ts| ==> ts[i] != ts[j]
  {
    TermsOfLongTokens(n);
  }

  lemma PlainSingleton(n: string)
    requires n != "" && Unescaped(n)
    ensures AllPlain([n])
  {
  }

  lemma TermsOfPlain(n: string)
    requires Unescaped(n) && IsTrimmed(n)
    ensures AllPlain(TermsOf(n))
  {
    var long := LongTokens(Split(n, Whitespace));
    TermsOfLongTokens(n);
    if |long| > 0 {
      LongTokensUnescaped(n);
      DistinctUnescaped(long);
    } else if n != "" {
      PlainSingleton(n);
    }
  }

  /** Each term is non-empty and needs no escaping, and no term repeats. */
  lemma TermsShape(query: string)
    ensures var ts := Terms(query);
      && (forall i, j :: 0 <= i < j < |ts| ==> ts[i] != ts[j])
      && forall k :: 0 <= k < |ts| ==> ts[k] != "" && Unescaped(ts[k])
  {
    NormalizedShape(query);
    TermsOfDistinct(Normalized(query));
    TermsOfPlain(Normalized(query));
  }

  /** Whatever the query, the filter contains no single quote. */
  lemma FilterHasNoQuote(query: string)
    ensures '\'' !in BuildFallbackOrFilter(query)
  {
    TermsShape(query);
    PlainTermsFilterHasNoQuote(Terms(query));
  }

  lemma PlainTermsFilterHasNoQuote(ts: seq<string>)
    requires forall k :: 0 <= k < |ts| ==> Unescaped(ts[k])
    ensures '\'' !in Join(Clauses(ts), ",")
  {
    ClausesAvoid(ts, '\'');
    JoinAvoids(Clauses(ts), ",", '\'');
  }

  /** Clauses of comma-free terms split back at the commas of their join. */
  lemma ClausesSplit(ts: seq<string>)
    requires ts != []
    requires forall k :: 0 <= k < |ts| ==> ',' !in ts[k]
    ensures Split(Join(Clauses(ts), ","), OneOf({','})) == Clauses(ts)
  {
    var cl := Clauses(ts);
    ClausesAvoid(ts, ',');
    forall k, j | 0 <= k < |cl| && 0 <= j < |cl[k]| ensures cl[k][j] != ',' {
      assert cl[k][j] in cl[k];
    }
    SplitJoin(cl, ',');
  }

  /** The filter is the comma-join of two clauses per term, so it splits
      back into exactly `2 * |terms|` clauses; no term means no filter. */
  lemma FilterClauses(query: string)
    ensures Terms(query) == [] ==> BuildFallbackOrFilter(query) == ""
    ensures Terms(query) != [] ==>
      Split(BuildFallbackOrFilter(query), OneOf({','})) == Clauses(Terms(query))
      && |Split(BuildFallbackOrFilter(query), OneOf({','}))| == 2 * |Terms(query)|
  {
    TermsShape(query);
    if Terms(query) != [] {
      ClausesSplit(Terms(query));
    }
  }

  /** The filter is empty exactly when there is no term. */
  lemma FilterEmptyIff(query: string)
    ensures BuildFallbackOrFilter(query) == "" <==> Terms(query) == []
  {
    FilterClauses(query);
    if Terms(query) != [] {
      var filter := BuildFallbackOrFilter(query);
      assert |Split(filter, OneOf({','}))| >= 2;
      assert filter != "";
    }
  }

  // --------------------------------------------------- two-word queries

  /** A lower-case word of `\w` characters. */
  predicate IsLowerWord(w: string) {
    forall i :: 0 <= i < |w| ==> IsWordChar(w[i]) && !IsUpperChar(w[i])
  }

  lemma TwoWordsNormalized(a: string, b: string)
    requires |a| > 0 && |b| > 0 && IsLowerWord(a) && IsLowerWord(b)
    ensures Normalized(a + " " + b) == a + " " + b
  {
    var q := a + " " + b;
    assert forall i :: 0 <= i < |q| ==> IsQueryChar(q[i]) && !IsUpperChar(q[i]) by {
      forall i | 0 <= i < |q| ensures IsQueryChar(q[i]) && !IsUpperChar(q[i]) {
        if i < |a| { assert q[i] == a[i]; }
        else if i > |a| { assert q[i] == b[i - |a| - 1]; }
      }
    }
    var blanked := seq(|q|, i requires 0 <= i < |q| => if IsQueryChar(q[i]) then q[i] else ' ');
    assert blanked == q;
    assert q[0] == a[0] && q[|q| - 1] == b[|b| - 1];
    TrimOfTrimmed(q);
    LowerOfLower(q);
  }

  lemma TwoWordsSplit(a: string, b: string)
    requires IsLowerWord(a) && IsLowerWord(b)
    ensures Split(a + " " + b, Whitespace) == [a, b]
  {
    assert a + " " + b == a + [' '] + b;
    SplitConcat(a, ' ', b, Whitespace);
    SplitNoSeparator(a, Whitespace);
    SplitNoSeparator(b, Whitespace);
  }

  /** A query of two different lower-case words longer than two characters,
      such as "auth retry", searches for exactly those words. */
  lemma TwoWordTerms(a: string, b: string)
    requires |a| > 2 && |b| > 2 && a != b && IsLowerWord(a) && IsLowerWord(b)
    ensures Terms(a + " " + b) == [a, b]
  {
    var q := a + " " + b;
    TwoWordsNormalized(a, b);
    TwoWordsSplit(a, b);
    LongTokensOfTwo(a, b);
    DistinctOfDistinct([a, b]);
    TermsAreLongTokens(q);
  }

  lemma LongTokensOfTwo(a: string, b: string)
    requires |a| > 2 && |b| > 2
    ensures LongTokens([a, b]) == [a, b]
  {
    assert [a, b][1..] == [b];
    assert LongTokens([b]) == [b] by {
      assert [b][1..] == [];
    }
  }

  /** Such a query gives four clauses: content, then file path, for each word. */
  lemma TwoWordFilter(a: string, b: string)
    requires |a| > 2 && |b| > 2 && a != b && IsLowerWord(a) && IsLowerWord(b)
    ensures Split(BuildFallbackOrFilter(a + " " + b), OneOf({','}))
      == [ContentHead + a + "%", PathHead + a + "%", ContentHead + b + "%", PathHead + b + "%"]
  {
    TwoWordTerms(a, b);
    ClausesOfTwo(a, b);
  }

  lemma ClausesOfTwo(a: string, b: string)
    requires IsLowerWord(a) && IsLowerWord(b)
    ensures Split(Join(Clauses([a, b]), ","), OneOf({','}))
      == [ContentHead + a + "%", PathHead + a + "%", ContentHead + b + "%", PathHead + b + "%"]
  {
    var ts := [a, b];
    forall k | 0 <= k < |ts| ensures ',' !in ts[k] {
      var w := ts[k];
      assert forall i :: 0 <= i < |w| ==> IsWordChar(w[i]);
    }
    ClausesSplit(ts);
    assert ts[1..] == [b] && [b][1..] == [];
  }

  // ------------------------------------------------- the strategy chain

  /** What a strategy's database call gives back: rows (`data || []`) or a
      thrown error. */
  datatype Outcome = Rows(chunks: seq<Chunk>) | Failure(message: string)

  /** A database request, with the source and row limit every strategy sends. */
  datatype Request =
    | MatchChunks(sourceId: string, embedding: seq<real>, threshold: real, limit: int)
    | TextSearch(sourceId: string, text: string, limit: int)
    | SubstringSearch(sourceId: string, orFilter: Option<string>, limit: int)

  /** The `match_threshold` of the vector search. */
  const MatchThreshold: real := 0.1

  predicate Found(o: Outcome) {
    o.Rows? && |o.chunks| > 0
  }

  /** The guard of `vectorSearch`: an embedding of the wrong length is
      skipped without a request (it answers `[]`). */
  function VectorRequest(sourceId: string, embedding: seq<real>, topK: int, embeddingDimension: nat): (r: Option<Request>)
    ensures r.None? <==> |embedding| != embeddingDimension
    ensures r.Some? ==> r.value == MatchChunks(sourceId, embedding, MatchThreshold, topK)
  {
    if |embedding| != embeddingDimension then None
    else Some(MatchChunks(sourceId, embedding, MatchThreshold, topK))
  }

  /** The guard of `keywordSearch`: a query that normalises to nothing is
      answered `[]` without a request; otherwise the full-text search gets
      the normalised (not lowercased) query. */
  function KeywordRequest(sourceId: string, query: string, topK: int): (r: Option<Request>)
    ensures r.None? <==> NormalizeTextQuery(query) == ""
    ensures r.Some? ==> r.value == TextSearch(sourceId, NormalizeTextQuery(query), topK)
  {
    var normalizedQuery := NormalizeTextQuery(query);
    if normalizedQuery == "" then None else Some(TextSearch(sourceId, normalizedQuery, topK))
  }

  /** `fallbackSearch`'s request: the OR filter is applied only when it is
      non-empty. */
  function FallbackRequest(sourceId: string, query: string, topK: int): (r: Request)
    ensures r.SubstringSearch? && r.sourceId == sourceId && r.limit == topK
  {
    var filter := BuildFallbackOrFilter(query);
    if filter == "" then SubstringSearch(sourceId, None, topK)
    else SubstringSearch(sourceId, Some(filter), topK)
  }

  /** A query without terms lists the source's chunks unfiltered; any other
      is filtered by its OR filter. */
  lemma FallbackFilter(sourceId: string, query: string, topK: int)
    ensures FallbackRequest(sourceId, query, topK).orFilter.None? <==> Terms(query) == []
    ensures FallbackRequest(sourceId, query, topK).orFilter.Some? ==>
      FallbackRequest(sourceId, query, topK).orFilter.value == BuildFallbackOrFilter(query)
  {
    FilterEmptyIff(query);
  }

  /** Whether `hybridSearch` tries the vector search at all: an embedding
      was given (an empty array is truthy too) and `vectorSearch`'s guard
      lets it through. */
  predicate VectorRuns(queryEmbedding: Option<seq<real>>, embeddingDimension: nat) {
    queryEmbedding.Some? && |queryEmbedding.value| == embeddingDimension
  }

  /** What `hybridSearch` returns, with the requests it makes in order. */
  datatype Trace = Trace(result: Outcome, requests: seq<Request>)

  /** The priority chain of `hybridSearch`, over the requests its three
      strategies would make (`None` where a guard answers `[]` without one)
      and the database's answers: `vectorDb`, `keywordDb` and `fallbackDb`
      answer the first request of each kind and `fallbackRetryDb` the second
      substring search, made when the first one failed inside the `try`. */
  function Chain(vector: Option<Request>, keyword: Option<Request>, fallback: Request,
    vectorDb: Outcome, keywordDb: Outcome, fallbackDb: Outcome, fallbackRetryDb: Outcome): Trace
  {
    if vector.Some? && Found(vectorDb) then Trace(vectorDb, [vector.value])
    else
      var tried := (if vector.Some? then [vector.value] else []) + (if keyword.Some? then [keyword.value] else []);
      var keywordResult := if keyword.Some? then keywordDb else Rows([]);
      if Found(keywordResult) then Trace(keywordResult, tried)
      else if keywordResult.Rows? && fallbackDb.Failure? then Trace(fallbackRetryDb, tried + [fallback, fallback])
      else Trace(fallbackDb, tried + [fallback])
  }

  /** The vector search's request, if `hybridSearch` makes one. */
  function VectorStage(sourceId: string, queryEmbedding: Option<seq<real>>, topK: int, embeddingDimension: nat): Option<Request> {
    if queryEmbedding.Some? then VectorRequest(sourceId, queryEmbedding.value, topK, embeddingDimension) else None
  }

  /** The chain for a search of `query`: the requests are those of
      `vectorSearch`, `keywordSearch` and `fallbackSearch` after their guards. */
  function HybridChain(
    sourceId: string, query: string, queryEmbedding: Option<seq<real>>, topK: int, embeddingDimension: nat,
    vectorDb: Outcome, keywordDb: Outcome, fallbackDb: Outcome, fallbackRetryDb: Outcome): Trace
  {
    Chain(VectorStage(sourceId, queryEmbedding, topK, embeddingDimension), KeywordRequest(sourceId, query, topK),
      FallbackRequest(sourceId, query, topK), vectorDb, keywordDb, fallbackDb, fallbackRetryDb)
  }

  /** `hybridSearch`: the vector search when an embedding is given, then the
      full-text search, then the substring search, each only while nothing
      was found; the errors of the first two are caught. */
  method HybridSearch(
    sourceId: string, query: string, queryEmbedding: Option<seq<real>>, topK: int, embeddingDimension: nat,
    vectorDb: Outcome, keywordDb: Outcome, fallbackDb: Outcome, fallbackRetryDb: Outcome)
    returns (result: Outcome, requests: seq<Request>)
    ensures Trace(result, requests)
      == HybridChain(sourceId, query, queryEmbedding, topK, embeddingDimension, vectorDb, keywordDb, fallbackDb, fallbackRetryDb)
  {
    // The requests depend only on the inputs, so they are built up front;
    // each is sent only when the chain reaches its strategy.
    var vector := VectorStage(sourceId, queryEmbedding, topK, embeddingDimension);
    var keyword := KeywordRequest(sourceId, query, topK);
    var fallback := FallbackRequest(sourceId, query, topK);
    result, requests := RunChain(vector, keyword, fallback, vectorDb, keywordDb, fallbackDb, fallbackRetryDb);
  }

  /** The `try`/`catch` chain itself, given the requests. */
  method RunChain(vector: Option<Request>, keyword: Option<Request>, fallback: Request,
    vectorDb: Outcome, keywordDb: Outcome, fallbackDb: Outcome, fallbackRetryDb: Outcome)
    returns (result: Outcome, requests: seq<Request>)
    ensures Trace(result, requests) == Chain(vector, keyword, fallback, vectorDb, keywordDb, fallbackDb, fallbackRetryDb)
  {
    requests := [];
    if vector.Some? {
      requests := requests + [vector.value];
      if Found(vectorDb) {
        return vectorDb, requests;
      }
    }
    var keywordResult := Rows([]);
    if keyword.Some? {
      requests := requests + [keyword.value];
      keywordResult := keywordDb;
    }
    if Found(keywordResult) {
      return keywordResult, requests;
    }
    requests := requests + [fallback];
    result := fallbackDb;
    if keywordResult.Rows? && result.Failure? {
      // thrown inside the `try`: the `catch` searches again
      requests := requests + [fallback];
      result := fallbackRetryDb;
    }
  }

  // ------------------------------------------------ chain properties

  /** The shapes of the requests the three strategies make. */
  predicate Staged(vector: Option<Request>, keyword: Option<Request>, fallback: Request) {
    (vector.None? || vector.value.MatchChunks?) && (keyword.None? || keyword.value.TextSearch?) && fallback.SubstringSearch?
  }

  /** Every request sent is one of the strategies' requests. */
  lemma ChainSends(vector: Option<Request>, keyword: Option<Request>, fallback: Request,
    vectorDb: Outcome, keywordDb: Outcome, fallbackDb: Outcome, fallbackRetryDb: Outcome)
    ensures var t := Chain(vector, keyword, fallback, vectorDb, keywordDb, fallbackDb, fallbackRetryDb);
      forall k :: 0 <= k < |t.requests| ==>
        (vector.Some? && t.requests[k] == vector.value) || (keyword.Some? && t.requests[k] == keyword.value)
        || t.requests[k] == fallback
  {
  }

  /** The result is exactly the answer to the last request, never a merge;
      a failure comes only from a substring search, so the errors of the
      vector and full-text searches are swallowed; and an earlier strategy's
      rows are returned only when non-empty. */
  lemma ChainResult(vector: Option<Request>, keyword: Option<Request>, fallback: Request,
    vectorDb: Outcome, keywordDb: Outcome, fallbackDb: Outcome, fallbackRetryDb: Outcome)
    requires Staged(vector, keyword, fallback)
    ensures var t := Chain(vector, keyword, fallback, vectorDb, keywordDb, fallbackDb, fallbackRetryDb);
      && 1 <= |t.requests| <= 4
      && (t.requests[|t.requests| - 1].MatchChunks? ==> t.result == vectorDb)
      && (t.requests[|t.requests| - 1].TextSearch? ==> t.result == keywordDb)
      && (t.requests[|t.requests| - 1].SubstringSearch? ==> t.result == fallbackDb || t.result == fallbackRetryDb)
      && (t.result.Failure? ==> t.requests[|t.requests| - 1].SubstringSearch?)
      && (!t.requests[|t.requests| - 1].SubstringSearch? ==> Found(t.result))
  {
  }

  /** Vector first, then full text, then substring search; only the
      substring search may be repeated. */
  lemma ChainOrder(vector: Option<Request>, keyword: Option<Request>, fallback: Request,
    vectorDb: Outcome, keywordDb: Outcome, fallbackDb: Outcome, fallbackRetryDb: Outcome)
    requires Staged(vector, keyword, fallback)
    ensures var t := Chain(vector, keyword, fallback, vectorDb, keywordDb, fallbackDb, fallbackRetryDb);
      forall i, j :: 0 <= i < j < |t.requests| ==>
        (t.requests[i].MatchChunks? && !t.requests[j].MatchChunks?)
        || (t.requests[i].TextSearch? && t.requests[j].SubstringSearch?)
        || (t.requests[i].SubstringSearch? && t.requests[j] == t.requests[i])
  {
  }

  /** The vector search runs first whenever it has a request, and its
      non-empty rows win outright. */
  lemma ChainVector(vector: Option<Request>, keyword: Option<Request>, fallback: Request,
    vectorDb: Outcome, keywordDb: Outcome, fallbackDb: Outcome, fallbackRetryDb: Outcome)
    requires Staged(vector, keyword, fallback)
    ensures var t := Chain(vector, keyword, fallback, vectorDb, keywordDb, fallbackDb, fallbackRetryDb);
      && (t.requests[0].MatchChunks? <==> vector.Some?)
      && (vector.Some? ==> t.requests[0] == vector.value)
      && (vector.Some? && Found(vectorDb) ==> t == Trace(vectorDb, [vector.value]))
  {
  }

  /** Unless the vector search found rows, the full-text search runs
      whenever it has a request, and wins exactly when it finds rows. */
  lemma ChainKeyword(vector: Option<Request>, keyword: Option<Request>, fallback: Request,
    vectorDb: Outcome, keywordDb: Outcome, fallbackDb: Outcome, fallbackRetryDb: Outcome)
    requires Staged(vector, keyword, fallback)
    ensures var t := Chain(vector, keyword, fallback, vectorDb, keywordDb, fallbackDb, fallbackRetryDb);
      && ((exists k :: 0 <= k < |t.requests| && t.requests[k].TextSearch?)
            <==> !(vector.Some? && Found(vectorDb)) && keyword.Some?)
      && (forall k :: 0 <= k < |t.requests| && t.requests[k].TextSearch? ==>
            t.requests[k] == keyword.value && (Found(keywordDb) <==> k == |t.requests| - 1))
  {
    var t := Chain(vector, keyword, fallback, vectorDb, keywordDb, fallbackDb, fallbackRetryDb);
    if !(vector.Some? && Found(vectorDb)) && keyword.Some? {
      var k := if vector.Some? then 1 else 0;
      assert t.requests[k].TextSearch?;
    }
  }

  /** The substring search runs exactly when neither earlier strategy found
      rows, and a second time exactly when it failed while the full-text
      search had not; the result is then the second answer. */
  lemma ChainFallback(vector: Option<Request>, keyword: Option<Request>, fallback: Request,
    vectorDb: Outcome, keywordDb: Outcome, fallbackDb: Outcome, fallbackRetryDb: Outcome)
    requires Staged(vector, keyword, fallback)
    ensures var t := Chain(vector, keyword, fallback, vectorDb, keywordDb, fallbackDb, fallbackRetryDb);
      var n := |t.requests|;
      && (forall k :: 0 <= k < n && t.requests[k].SubstringSearch? ==> t.requests[k] == fallback)
      && (t.requests[n - 1].SubstringSearch? <==>
            !(vector.Some? && Found(vectorDb)) && !(keyword.Some? && Found(keywordDb)))
      && (n >= 2 && t.requests[n - 2].SubstringSearch? <==>
            t.requests[n - 1].SubstringSearch? && fallbackDb.Failure? && (keyword.None? || keywordDb.Rows?))
      && (n >= 2 && t.requests[n - 2].SubstringSearch? ==> t.result == fallbackRetryDb)
  {
  }

  /** The strategies of a search of `query` make requests of the right
      shapes, all to `sourceId` with row limit `topK`. */
  lemma StagesOfQuery(sourceId: string, query: string, queryEmbedding: Option<seq<real>>, topK: int, embeddingDimension: nat)
    ensures var vector := VectorStage(sourceId, queryEmbedding, topK, embeddingDimension);
      var keyword := KeywordRequest(sourceId, query, topK);
      var fallback := FallbackRequest(sourceId, query, topK);
      && Staged(vector, keyword, fallback)
      && (vector.Some? <==> queryEmbedding.Some? && |queryEmbedding.value| == embeddingDimension)
      && (vector.Some? ==> vector.value.sourceId == sourceId && vector.value.limit == topK)
      && (keyword.Some? ==> keyword.value.sourceId == sourceId && keyword.value.limit == topK)
      && fallback.sourceId == sourceId && fallback.limit == topK
  {
  }

  /** `topK` is passed unchanged to every strategy that runs, and every
      request goes to the searched source. */
  lemma SearchSourceAndLimit(
    sourceId: string, query: string, queryEmbedding: Option<seq<real>>, topK: int, embeddingDimension: nat,
    vectorDb: Outcome, keywordDb: Outcome, fallbackDb: Outcome, fallbackRetryDb: Outcome)
    ensures var t := HybridChain(sourceId, query, queryEmbedding, topK, embeddingDimension, vectorDb, keywordDb, fallbackDb, fallbackRetryDb);
      forall k :: 0 <= k < |t.requests| ==> t.requests[k].sourceId == sourceId && t.requests[k].limit == topK
  {
    var vector := VectorStage(sourceId, queryEmbedding, topK, embeddingDimension);
    var keyword := KeywordRequest(sourceId, query, topK);
    var fallback := FallbackRequest(sourceId, query, topK);
    StagesOfQuery(sourceId, query, queryEmbedding, topK, embeddingDimension);
    ChainSourceAndLimit(vector, keyword, fallback, vectorDb, keywordDb, fallbackDb, fallbackRetryDb, sourceId, topK);
  }

  /** When every stage's request is for `sourceId` with limit `topK`, so is
      every request the chain makes. */
  lemma ChainSourceAndLimit(vector: Option<Request>, keyword: Option<Request>, fallback: Request,
    vectorDb: Outcome, keywordDb: Outcome, fallbackDb: Outcome, fallbackRetryDb: Outcome, sourceId: string, topK: int)
    requires vector.Some? ==> vector.value.sourceId == sourceId && vector.value.limit == topK
    requires keyword.Some? ==> keyword.value.sourceId == sourceId && keyword.value.limit == topK
    requires fallback.sourceId == sourceId && fallback.limit == topK
    ensures var t := Chain(vector, keyword, fallback, vectorDb, keywordDb, fallbackDb, fallbackRetryDb);
      forall k :: 0 <= k < |t.requests| ==> t.requests[k].sourceId == sourceId && t.requests[k].limit == topK
  {
    ChainSends(vector, keyword, fallback, vectorDb, keywordDb, fallbackDb, fallbackRetryDb);
  }
}
