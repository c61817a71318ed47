/** The deterministic refactor fallback (src/lib/qa/refactor.ts:198-246,
    327-356): score each snippet against the question, keep the best three,
    and pair them with three fixed suggestion templates. */
module RefactorFallback {
  import opened Types
  import opened Text
  import opened Seqs
  import opened Refactor
  import SuggestionParsing
  import Citations

  // ------------------------------------------------------------- styling

  /** The alternatives of the styling regular expression. */
  const StylingWords: seq<string> :=
    ["style", "styling", "theme", "dark mode", "dark", "css", "ui", "color", "colors", "class"]

  /** `\b` at position `i`: a word character on exactly one side. */
  predicate IsBoundary(s: string, i: int)
    requires 0 <= i <= |s|
  {
    (i > 0 && IsWordChar(s[i - 1])) != (i < |s| && IsWordChar(s[i]))
  }

  /** `\bw\b` matches at position `i`, ignoring ASCII case. */
  predicate WordAt(s: string, w: string, i: int) {
    && 0 <= i && i + |w| <= |s|
    && Lower(s[i..i + |w|]) == w
    && IsBoundary(s, i) && IsBoundary(s, i + |w|)
  }

  /** The `asksStyling` test of `rankCitationForQuestion`. */
  predicate AsksStyling(q: string) {
    exists k, i :: 0 <= k < |StylingWords| && 0 <= i <= |q| && WordAt(q, StylingWords[k], i)
  }

  /** A lowercase word that starts and ends with a word character. */
  predicate PlainWord(w: string) {
    |w| >= 1 && IsWordChar(w[0]) && IsWordChar(w[|w| - 1]) && HasNoUpper(w)
  }

  lemma StylingWordsPlain()
    ensures forall k :: 0 <= k < |StylingWords| ==> PlainWord(StylingWords[k])
  {
  }

  lemma MiddleSlice(before: string, w: string, after: string)
    ensures (before + w + after)[|before|..|before| + |w|] == w
  {
    var q := before + w + after;
    assert forall k :: 0 <= k < |w| ==> q[|before| + k] == w[k];
  }

  lemma BoundaryBefore(before: string, w: string, after: string)
    requires |w| >= 1 && IsWordChar(w[0])
    requires before == [] || !IsWordChar(before[|before| - 1])
    ensures IsBoundary(before + w + after, |before|)
  {
    var q := before + w + after;
    assert q[|before|] == w[0];
    if before != [] {
      assert q[|before| - 1] == before[|before| - 1];
    }
  }

  lemma BoundaryAfter(before: string, w: string, after: string)
    requires |w| >= 1 && IsWordChar(w[|w| - 1])
    requires after == [] || !IsWordChar(after[0])
    ensures IsBoundary(before + w + after, |before| + |w|)
  {
    var q := before + w + after;
    assert q[|before| + |w| - 1] == w[|w| - 1];
    if after != [] {
      assert q[|before| + |w|] == after[0];
    }
  }

  /** A plain word between two non-word characters matches `\bw\b`. */
  lemma WordAtOf(before: string, w: string, after: string)
    requires PlainWord(w)
    requires before == [] || !IsWordChar(before[|before| - 1])
    requires after == [] || !IsWordChar(after[0])
    ensures WordAt(before + w + after, w, |before|)
  {
    MiddleSlice(before, w, after);
    LowerOfLower(w);
    BoundaryBefore(before, w, after);
    BoundaryAfter(before, w, after);
  }

  /** A styling word standing on its own, in any ASCII case, is a styling
      question. */
  lemma StylingWordAsks(before: string, k: int, after: string)
    requires 0 <= k < |StylingWords|
    requires before == [] || !IsWordChar(before[|before| - 1])
    requires after == [] || !IsWordChar(after[0])
    ensures AsksStyling(before + StylingWords[k] + after)
  {
    StylingWordsPlain();
    WordAtOf(before, StylingWords[k], after);
  }

  /** A styling question contains one of the styling words. */
  lemma AsksStylingContains(q: string)
    requires AsksStyling(q)
    ensures exists k :: 0 <= k < |StylingWords| && Contains(Lower(q), StylingWords[k])
  {
    var k, i :| 0 <= k < |StylingWords| && 0 <= i <= |q| && WordAt(q, StylingWords[k], i);
    var w := StylingWords[k];
    assert Lower(q)[i..i + |w|] == Lower(q[i..i + |w|]);
    ContainsFromOccurrence(Lower(q), w, i);
  }

  // -------------------------------------------------------------- scores

  /** What one term earns: 3 if it occurs in the path, 1 if in the snippet. */
  function TermPoints(path: string, content: string, term: string): nat {
    (if Contains(path, term) then 3 else 0) + (if Contains(content, term) then 1 else 0)
  }

  /** The points of all the terms. */
  function TermScore(path: string, content: string, terms: seq<string>): nat
    decreases |terms|
  {
    if terms == [] then 0
    else TermScore(path, content, terms[..|terms| - 1]) + TermPoints(path, content, terms[|terms| - 1])
  }

  /** The extra points of a styling question: stylesheets 5, markup 2, and
      snippets that set colours or backgrounds 2. */
  function StylingBonus(path: string, content: string): nat {
    (if EndsWith(path, ".css") || EndsWith(path, ".scss") || EndsWith(path, ".sass") || EndsWith(path, ".less")
     then 5 else 0)
    + (if EndsWith(path, ".html") || EndsWith(path, ".tsx") || EndsWith(path, ".jsx") then 2 else 0)
    + (if Contains(content, ":root") || Contains(content, "background") || Contains(content, "color:")
       then 2 else 0)
  }

  /** The score `rankCitationForQuestion` gives a citation. */
  function Score(citation: Citation, terms: seq<string>, questionLower: string): nat {
    var path := Lower(citation.filePath);
    var content := Lower(citation.snippet);
    TermScore(path, content, terms) + (if AsksStyling(questionLower) then StylingBonus(path, content) else 0)
  }

  /** `rankCitationForQuestion`: the loop over the terms, then the styling
      bonus. */
  method RankCitationForQuestion(citation: Citation, terms: seq<string>, questionLower: string)
    returns (score: int)
    ensures score == Score(citation, terms, questionLower)
  {
    var path := Lower(citation.filePath);
    var content := Lower(citation.snippet);
    var asksStyling := AsksStyling(questionLower);
    score := 0;
    for i := 0 to |terms|
      invariant score == TermScore(path, content, terms[..i])
    {
      assert terms[..i + 1][..i] == terms[..i];
      if Contains(path, terms[i]) {
        score := score + 3;
      }
      if Contains(content, terms[i]) {
        score := score + 1;
      }
    }
    assert terms[..|terms|] == terms;
    if asksStyling {
      if EndsWith(path, ".css") || EndsWith(path, ".scss") || EndsWith(path, ".sass") || EndsWith(path, ".less") {
        score := score + 5;
      }
      if EndsWith(path, ".html") || EndsWith(path, ".tsx") || EndsWith(path, ".jsx") {
        score := score + 2;
      }
      if Contains(content, ":root") || Contains(content, "background") || Contains(content, "color:") {
        score := score + 2;
      }
    }
  }

  /** Some term occurs in the lowercased path or snippet. */
  predicate TermHits(path: string, content: string, terms: seq<string>) {
    exists k :: 0 <= k < |terms| && (Contains(path, terms[k]) || Contains(content, terms[k]))
  }

  lemma {:induction false} TermScorePositive(path: string, content: string, terms: seq<string>)
    ensures TermScore(path, content, terms) > 0 <==> TermHits(path, content, terms)
    ensures TermScore(path, content, terms) <= 4 * |terms|
    decreases |terms|
  {
    if terms != [] {
      var init := terms[..|terms| - 1];
      TermScorePositive(path, content, init);
      assert forall k :: 0 <= k < |init| ==> init[k] == terms[k];
      if TermHits(path, content, terms) && !TermHits(path, content, init) {
        var k :| 0 <= k < |terms| && (Contains(path, terms[k]) || Contains(content, terms[k]));
        assert k == |terms| - 1;
      }
    }
  }

  /** A citation scores above zero exactly when a term occurs in its path or
      snippet, or the question is about styling and the citation earns a
      styling bonus; a score never exceeds 4 per term plus 9. */
  lemma ScorePositive(citation: Citation, terms: seq<string>, questionLower: string)
    ensures var path := Lower(citation.filePath);
      var content := Lower(citation.snippet);
      && (Score(citation, terms, questionLower) > 0 <==>
            || TermHits(path, content, terms)
            || (AsksStyling(questionLower) && StylingBonus(path, content) > 0))
      && Score(citation, terms, questionLower) <= 4 * |terms| + 9
  {
    TermScorePositive(Lower(citation.filePath), Lower(citation.snippet), terms);
  }

  // ----------------------------------------------------------- selection

  /** A citation with its score and its position in the evidence. */
  datatype Ranked = Ranked(citation: Citation, score: nat, index: nat)

  /** The sort comparator: the higher score first, then the earlier snippet. */
  predicate RanksBefore(a: Ranked, b: Ranked) {
    a.score > b.score || (a.score == b.score && a.index < b.index)
  }

  lemma RanksBeforeOrder()
    ensures StrictWeakOrder(RanksBefore)
  {
  }

  function RankAll(citations: seq<Citation>, terms: seq<string>, questionLower: string): (r: seq<Ranked>)
    ensures |r| == |citations|
    ensures forall i :: 0 <= i < |r| ==>
      r[i] == Ranked(citations[i], Score(citations[i], terms, questionLower), i)
  {
    seq(|citations|, i requires 0 <= i < |citations| =>
      Ranked(citations[i], Score(citations[i], terms, questionLower), i))
  }

  /** `.filter((item) => item.score > 0)`. */
  function Positive(rs: seq<Ranked>): (r: seq<Ranked>)
    ensures forall k :: 0 <= k < |r| ==> r[k].score > 0
    decreases |rs|
  {
    if rs == [] then []
    else
      var init := Positive(rs[..|rs| - 1]);
      var x := rs[|rs| - 1];
      if x.score > 0 then
        assert forall k :: 0 <= k < |init| ==> (init + [x])[k] == init[k];
        init + [x]
      else init
  }

  /** The filter keeps its entries in order. */
  lemma {:induction false} PositiveSubsequence(rs: seq<Ranked>)
    ensures IsSubsequence(Positive(rs), rs)
    decreases |rs|
  {
    if rs != [] {
      var prefix := rs[..|rs| - 1];
      var x := rs[|rs| - 1];
      PositiveSubsequence(prefix);
      SubsequenceExtend(Positive(prefix), prefix, x);
      assert prefix + [x] == rs;
    }
  }

  /** The filter keeps every positive entry as often as it occurs, and
      nothing else. */
  lemma {:induction false} PositiveCounts(rs: seq<Ranked>, x: Ranked)
    ensures multiset(Positive(rs))[x] == if x.score > 0 then multiset(rs)[x] else 0
    decreases |rs|
  {
    if rs != [] {
      var init := rs[..|rs| - 1];
      var last := rs[|rs| - 1];
      assert rs == init + [last];
      PositiveCounts(init, x);
      assert multiset(rs) == multiset(init) + multiset{last};
    }
  }

  /** Every citation of the evidence with its score against the trimmed
      question, in evidence order. */
  function Scored(citations: seq<Citation>, question: string): (r: seq<Ranked>)
    ensures |r| == |citations|
    ensures forall i :: 0 <= i < |r| ==> r[i].citation == citations[i]
    ensures Indexed(r)
  {
    var q := Trim(question);
    RankAll(citations, Tokenize(q, QuestionStopwords), Lower(q))
  }

  /** Entry `i` of `rs` sits at position `i`. */
  predicate Indexed(rs: seq<Ranked>) {
    forall i :: 0 <= i < |rs| ==> rs[i].index == i
  }

  /** The entries sorted by the comparator: a sorted permutation. */
  function Ranking(rs: seq<Ranked>): (r: seq<Ranked>)
    ensures multiset(r) == multiset(rs)
    ensures SortedBy(RanksBefore, r)
  {
    RanksBeforeOrder();
    InsertionSort(rs, RanksBefore)
  }

  predicate HasPositive(rs: seq<Ranked>) {
    exists k :: 0 <= k < |rs| && rs[k].score > 0
  }

  /** What `selectRelevantCitations` keeps of the scored entries: after
      sorting, the first three positive ones if there are any, otherwise
      the first three. */
  function Pick(rs: seq<Ranked>): seq<Ranked> {
    var ranked := Ranking(rs);
    Take(if HasPositive(ranked) then Positive(ranked) else ranked, 3)
  }

  /** The citations of ranked entries, in order. */
  function CitationsOf(rs: seq<Ranked>): (r: seq<Citation>)
    ensures |r| == |rs| && forall k :: 0 <= k < |rs| ==> r[k] == rs[k].citation
  {
    MapSeq(rs, (x: Ranked) => x.citation)
  }

  /** `selectRelevantCitations`; an absent question is the empty one. */
  function SelectRelevantCitations(citations: seq<Citation>, question: string): seq<Citation> {
    if |citations| == 0 then []
    else if Trim(question) == "" then Take(citations, 3)
    else
      var selected := CitationsOf(Pick(Scored(citations, question)));
      if |selected| > 0 then selected else Take(citations, 3)
  }

  // ---------------------------------------------------- selection lemmas

  /** The first three of the pool a sorted sequence is cut from: members,
      in order, and positive when there is a positive entry. */
  lemma PoolShape(ranked: seq<Ranked>)
    requires SortedBy(RanksBefore, ranked)
    ensures var sel := Take(if HasPositive(ranked) then Positive(ranked) else ranked, 3);
      && |sel| <= 3
      && (|sel| == 0 <==> |ranked| == 0)
      && (forall k :: 0 <= k < |sel| ==> sel[k] in ranked)
      && SortedBy(RanksBefore, sel)
      && (HasPositive(ranked) ==> forall k :: 0 <= k < |sel| ==> sel[k].score > 0)
  {
    var pool := if HasPositive(ranked) then Positive(ranked) else ranked;
    var sel := Take(pool, 3);
    if HasPositive(ranked) {
      PositiveSubsequence(ranked);
      SubsequenceMembers(pool, ranked);
      SubsequenceSorted(pool, ranked, RanksBefore);
      var k :| 0 <= k < |ranked| && ranked[k].score > 0;
      PositiveCounts(ranked, ranked[k]);
      assert ranked[k] in multiset(pool);
    }
    forall k | 0 <= k < |sel| ensures sel[k] in ranked {
      assert sel[k] == pool[k];
    }
    forall i, j | 0 <= i < j < |sel| ensures !RanksBefore(sel[j], sel[i]) {
      assert sel[i] == pool[i] && sel[j] == pool[j];
    }
  }

  /** The pick is at most three of the entries, in comparator order; it is
      empty only for no entries, and when some entry scores above zero it
      holds only such entries. */
  lemma PickShape(rs: seq<Ranked>)
    ensures var sel := Pick(rs);
      && |sel| <= 3
      && (|sel| == 0 <==> |rs| == 0)
      && (forall k :: 0 <= k < |sel| ==> sel[k] in rs)
      && SortedBy(RanksBefore, sel)
      && (HasPositive(rs) ==> forall k :: 0 <= k < |sel| ==> sel[k].score > 0)
  {
    var ranked := Ranking(rs);
    var sel := Pick(rs);
    PoolShape(ranked);
    assert |ranked| == |rs| by {
      assert |multiset(ranked)| == |multiset(rs)|;
    }
    forall k | 0 <= k < |sel| ensures sel[k] in rs {
      assert sel[k] in multiset(ranked);
    }
    if HasPositive(rs) {
      var k :| 0 <= k < |rs| && rs[k].score > 0;
      assert rs[k] in multiset(ranked);
      assert rs[k] in ranked;
    }
  }

  /** In a sorted sequence, a positive entry outside the first three
      positive ones ranks before none of them. */
  lemma PositiveLeftOut(ranked: seq<Ranked>, x: Ranked)
    requires SortedBy(RanksBefore, ranked)
    requires x in ranked && x.score > 0 && x !in Take(Positive(ranked), 3)
    ensures |Take(Positive(ranked), 3)| == 3
    ensures forall k :: 0 <= k < 3 ==> !RanksBefore(x, Positive(ranked)[k])
  {
    var pool := Positive(ranked);
    PositiveCounts(ranked, x);
    assert x in multiset(pool);
    var j :| 0 <= j < |pool| && pool[j] == x;
    assert j >= 3;
    PositiveSubsequence(ranked);
    SubsequenceSorted(pool, ranked, RanksBefore);
  }

  /** A positive entry left out of the pick is not ranked before any of
      the three picked entries. */
  lemma PickLeftOut(rs: seq<Ranked>, x: Ranked)
    requires x in rs && x.score > 0 && x !in Pick(rs)
    ensures |Pick(rs)| == 3
    ensures forall k :: 0 <= k < |Pick(rs)| ==> !RanksBefore(x, Pick(rs)[k])
  {
    var ranked := Ranking(rs);
    assert x in multiset(ranked);
    assert x in ranked;
    assert HasPositive(ranked);
    assert Pick(rs) == Take(Positive(ranked), 3);
    PositiveLeftOut(ranked, x);
  }

  /** A positive entry left out of the pick is outranked by all three
      picked entries: the pick is the top three. */
  lemma PickIsTop(rs: seq<Ranked>, i: int)
    requires Indexed(rs)
    requires 0 <= i < |rs| && rs[i].score > 0 && rs[i] !in Pick(rs)
    ensures |Pick(rs)| == 3
    ensures forall k :: 0 <= k < |Pick(rs)| ==> RanksBefore(Pick(rs)[k], rs[i])
  {
    var sel := Pick(rs);
    PickLeftOut(rs, rs[i]);
    PickShape(rs);
    forall k | 0 <= k < |sel| ensures RanksBefore(sel[k], rs[i]) {
      var n :| 0 <= n < |rs| && rs[n] == sel[k];
      assert n != i;
    }
  }

  /** When nothing scores above zero, the comparator keeps evidence order
      and the first three entries are picked. */
  lemma NothingScoresKeepsOrder(rs: seq<Ranked>)
    requires Indexed(rs) && !HasPositive(rs)
    ensures Pick(rs) == Take(rs, 3)
  {
    forall i, j | 0 <= i < j < |rs| ensures !RanksBefore(rs[j], rs[i]) {
      assert rs[i].score == 0 && rs[j].score == 0;
    }
    RanksBeforeOrder();
    InsertionSortOfSorted(rs, RanksBefore);
  }

  /** In an indexed sequence every entry occurs once. */
  lemma {:induction false} IndexedOnce(rs: seq<Ranked>, i: int)
    requires Indexed(rs) && 0 <= i < |rs|
    ensures multiset(rs)[rs[i]] == 1
    decreases |rs|
  {
    var init := rs[..|rs| - 1];
    var last := rs[|rs| - 1];
    assert rs == init + [last];
    assert multiset(rs) == multiset(init) + multiset{last};
    if i < |rs| - 1 {
      assert init[i] == rs[i];
      IndexedOnce(init, i);
      assert rs[i].index != last.index;
    } else {
      assert forall k :: 0 <= k < |init| ==> init[k].index < last.index;
      assert last !in init;
    }
  }

  /** Filtering a sequence that holds exactly one positive entry, once,
      leaves just that entry. */
  lemma PositiveSingle(ranked: seq<Ranked>, y: Ranked)
    requires y.score > 0
    requires forall x :: x in ranked && x.score > 0 ==> x == y
    requires multiset(ranked)[y] == 1
    ensures Positive(ranked) == [y]
  {
    var pool := Positive(ranked);
    forall x ensures multiset(pool)[x] == multiset{y}[x] {
      PositiveCounts(ranked, x);
    }
    assert multiset(pool) == multiset{y};
    assert |pool| == 1;
    assert pool[0] in multiset(pool);
  }

  /** When one entry alone scores above zero, it alone is picked. */
  lemma PickSinglePositive(rs: seq<Ranked>, i: int)
    requires Indexed(rs) && 0 <= i < |rs| && rs[i].score > 0
    requires forall j :: 0 <= j < |rs| && j != i ==> rs[j].score == 0
    ensures Pick(rs) == [rs[i]]
  {
    var ranked := Ranking(rs);
    assert rs[i] in multiset(ranked);
    assert rs[i] in ranked;
    assert HasPositive(ranked);
    IndexedOnce(rs, i);
    forall x | x in ranked && x.score > 0 ensures x == rs[i] {
      assert x in multiset(rs);
    }
    PositiveSingle(ranked, rs[i]);
  }

  /** What `selectRelevantCitations` returns: nothing for no evidence, the
      first three for a blank question, and otherwise the pick, which is
      never empty, so the final fallback to the first three is dead. */
  lemma SelectRelevantShape(citations: seq<Citation>, question: string)
    ensures var r := SelectRelevantCitations(citations, question);
      && (|r| == 0 <==> |citations| == 0)
      && |r| <= 3
      && (forall k :: 0 <= k < |r| ==> r[k] in citations)
      && (Trim(question) == "" ==> r == Take(citations, 3))
      && (Trim(question) != "" ==>
            r == CitationsOf(Pick(Scored(citations, question))))
  {
    var scored := Scored(citations, question);
    PickShape(scored);
    var r := SelectRelevantCitations(citations, question);
    if |citations| > 0 && Trim(question) != "" {
      var sel := Pick(scored);
      forall k | 0 <= k < |r| ensures r[k] in citations {
        assert sel[k] in scored;
        var n :| 0 <= n < |scored| && scored[n] == sel[k];
        assert r[k] == citations[n];
      }
    }
  }

  /** With a question no citation matches, the first three citations are
      returned in evidence order. */
  lemma NoMatchGivesFirstThree(citations: seq<Citation>, question: string)
    requires !HasPositive(Scored(citations, question))
    ensures SelectRelevantCitations(citations, question) == Take(citations, 3)
  {
    var scored := Scored(citations, question);
    NothingScoresKeepsOrder(scored);
    if |citations| > 0 && Trim(question) != "" {
      TakeCitations(scored, citations);
    }
  }

  /** The citations of the first three entries of a scoring are the first
      three citations. */
  lemma TakeCitations(rs: seq<Ranked>, citations: seq<Citation>)
    requires |rs| == |citations| && forall k :: 0 <= k < |rs| ==> rs[k].citation == citations[k]
    ensures CitationsOf(Take(rs, 3)) == Take(citations, 3)
  {
  }

  // ------------------------------------------------------------ fallback

  /** A suggestion without its citations. */
  datatype Template = Template(title: string, rationale: string, expectedImpact: string)

  /** The three fixed suggestions of the fallback, in order. */
  const Templates: seq<Template> := [
    Template(
      "Extract focused helper functions",
      "The retrieved block appears multi-purpose. Splitting responsibilities reduces cognitive load and makes tests simpler.",
      "Improves readability and unit-test coverage."),
    Template(
      "Centralize validation and error handling",
      "Validation and failure paths are easier to maintain when handled at clear boundaries instead of being scattered.",
      "More consistent runtime behavior and clearer failure messages."),
    Template(
      "Isolate configuration and constants",
      "Hard-coded values and policy decisions are easier to evolve when moved to well-named constants or config modules.",
      "Reduces accidental regressions during future changes.")
  ]

  /** `templates.slice(0, selected.length).map(...)`: template `i`
      citing the `i`-th selected snippet alone. */
  function Fill(templates: seq<Template>, selected: seq<Citation>): (r: seq<RefactorSuggestion>)
    ensures |r| == if |selected| < |templates| then |selected| else |templates|
  {
    var n := if |selected| < |templates| then |selected| else |templates|;
    seq(n, i requires 0 <= i < n =>
      RefactorSuggestion(templates[i].title, templates[i].rationale, templates[i].expectedImpact, [selected[i]]))
  }

  /** Each filled suggestion carries its template's texts and one citation. */
  lemma FillShape(templates: seq<Template>, selected: seq<Citation>)
    ensures var r := Fill(templates, selected);
      forall i :: 0 <= i < |r| ==>
        && r[i].title == templates[i].title
        && r[i].rationale == templates[i].rationale
        && r[i].expectedImpact == templates[i].expectedImpact
        && r[i].citations == [selected[i]]
  {
  }

  /** `buildFallbackRefactorSuggestions`. */
  function BuildFallbackRefactorSuggestions(snippets: seq<Citation>, question: string): seq<RefactorSuggestion> {
    if |snippets| == 0 then [] else Fill(Templates, SelectRelevantCitations(snippets, question))
  }

  /** The fallback gives nothing exactly when there is no evidence, and
      otherwise one to three suggestions, the `i`-th being template `i`
      citing exactly the `i`-th selected snippet, which is part of the
      evidence. */
  lemma FallbackShape(snippets: seq<Citation>, question: string)
    ensures var r := BuildFallbackRefactorSuggestions(snippets, question);
      var selected := SelectRelevantCitations(snippets, question);
      && (|r| == 0 <==> |snippets| == 0)
      && |r| == |selected| <= 3
      && forall i :: 0 <= i < |r| ==>
           && r[i].title == Templates[i].title
           && r[i].rationale == Templates[i].rationale
           && r[i].expectedImpact == Templates[i].expectedImpact
           && r[i].citations == [selected[i]]
           && selected[i] in snippets
  {
    SelectRelevantShape(snippets, question);
    FillShape(Templates, SelectRelevantCitations(snippets, question));
  }

  /** Without a question, the fallback cites the first snippets in order. */
  lemma FallbackWithoutQuestion(snippets: seq<Citation>, question: string)
    requires Trim(question) == ""
    ensures var r := BuildFallbackRefactorSuggestions(snippets, question);
      forall i :: 0 <= i < |r| ==> r[i].citations == [snippets[i]]
  {
    SelectRelevantShape(snippets, question);
    FillShape(Templates, SelectRelevantCitations(snippets, question));
  }

  /** When one snippet alone matches the question, the fallback is the
      first template citing that snippet. */
  lemma FallbackSingleMatch(snippets: seq<Citation>, question: string, i: int)
    requires Trim(question) != ""
    requires 0 <= i < |Scored(snippets, question)| && Scored(snippets, question)[i].score > 0
    requires forall j :: 0 <= j < |Scored(snippets, question)| && j != i ==> Scored(snippets, question)[j].score == 0
    ensures var r := BuildFallbackRefactorSuggestions(snippets, question);
      && |r| == 1
      && r[0].title == Templates[0].title
      && r[0].citations == [snippets[i]]
  {
    var scored := Scored(snippets, question);
    PickSinglePositive(scored, i);
    SelectRelevantShape(snippets, question);
    FillShape(Templates, SelectRelevantCitations(snippets, question));
  }

  // ---------------------------------------------------------- examples

  const AuthPath := "src/lib/auth.ts"
  const AuthText := "export async function login() { /* ... */ }"
  const AuthSnippet := Citation(AuthPath, 10, 30, AuthText,
    Some("https://example.com/src/lib/auth.ts#L10-L30"))
  const RetrySnippet := Citation("src/lib/retry.ts", 1, 20, "export const MAX_RETRIES = 3;",
    Some("https://example.com/src/lib/retry.ts#L1-L20"))
  const RetriesQuestion := "How do retries work?"

  /** A text in which `a` is never directly followed by `b` contains no
      pattern starting with `a b`. */
  lemma NoPairNoOccurrence(s: string, a: char, b: char, t: string)
    requires |t| >= 2 && t[0] == a && t[1] == b
    requires forall i :: 0 <= i < |s| - 1 ==> !(s[i] == a && s[i + 1] == b)
    ensures !Contains(s, t)
  {
    if Contains(s, t) {
      var i := OccurrenceOfContains(s, t);
      CharOfOccurrence(s, t, i, 0);
      CharOfOccurrence(s, t, i, 1);
    }
  }

  /** A text lacking one of the pattern's characters does not contain it. */
  lemma MissingCharNoOccurrence(s: string, t: string, k: int)
    requires 0 <= k < |t| && t[k] !in s
    ensures !Contains(s, t)
  {
    if Contains(s, t) {
      ContainsChars(s, t);
    }
  }

  lemma RetriesQuestionLowered()
    ensures Lower(RetriesQuestion) == "how do retries work?"
  {
  }

  lemma RetriesQuestionBlanked()
    ensures Blank(Lower(RetriesQuestion)) == "how do retries work "
  {
    RetriesQuestionLowered();
  }

  /** A word without white space followed by a space is the first piece. */
  lemma SplitWord(word: string, rest: string)
    requires forall j :: 0 <= j < |word| ==> !IsSpace(word[j])
    ensures Split(word + [' '] + rest, Whitespace) == [word] + Split(rest, Whitespace)
  {
    SplitConcat(word, ' ', rest, Whitespace);
    SplitNoSeparator(word, Whitespace);
  }

  /** Two words each followed by a space, then `rest`. */
  lemma SplitTwoWords(a: string, b: string, rest: string)
    requires forall j :: 0 <= j < |a| ==> !IsSpace(a[j])
    requires forall j :: 0 <= j < |b| ==> !IsSpace(b[j])
    ensures Split(a + [' '] + b + [' '] + rest, Whitespace) == [a, b] + Split(rest, Whitespace)
  {
    var s1 := b + [' '] + rest;
    SplitWord(b, rest);
    SplitWord(a, s1);
    assert a + [' '] + b + [' '] + rest == a + [' '] + s1;
  }

  /** Four words each followed by a space split into the words and a last
      empty piece. */
  lemma SplitFourWords(a: string, b: string, c: string, d: string)
    requires forall j :: 0 <= j < |a| ==> !IsSpace(a[j])
    requires forall j :: 0 <= j < |b| ==> !IsSpace(b[j])
    requires forall j :: 0 <= j < |c| ==> !IsSpace(c[j])
    requires forall j :: 0 <= j < |d| ==> !IsSpace(d[j])
    ensures Split(a + [' '] + b + [' '] + c + [' '] + d + [' '], Whitespace) == [a, b, c, d, ""]
  {
    var tail := c + [' '] + d + [' '] + "";
    SplitTwoWords(c, d, "");
    assert Split("", Whitespace) == [""];
    SplitTwoWords(a, b, tail);
    assert a + [' '] + b + [' '] + c + [' '] + d + [' '] == a + [' '] + b + [' '] + tail;
  }

  lemma RetriesQuestionPieces()
    ensures Pieces(RetriesQuestion) == ["how", "do", "retries", "work", ""]
  {
    RetriesQuestionBlanked();
    var blanked := "how do retries work ";
    assert blanked == "how" + [' '] + "do" + [' '] + "retries" + [' '] + "work" + [' '];
    SplitFourWords("how", "do", "retries", "work");
  }

  /** Filtering one more piece keeps it exactly when it is a term. */
  lemma KeepTermsSnoc(pieces: seq<string>, p: string, stopwords: set<string>)
    ensures KeepTerms(pieces + [p], stopwords)
      == KeepTerms(pieces, stopwords) + (if |p| > 2 && p !in stopwords then [p] else [])
  {
    assert (pieces + [p])[..|pieces|] == pieces;
  }

  /** The question has no surrounding white space. */
  lemma RetriesQuestionTrimmed()
    ensures Trim(RetriesQuestion) == RetriesQuestion
  {
    var q := RetriesQuestion;
    assert q[0] == 'H' && q[|q| - 1] == '?';
    TrimOfTrimmed(q);
  }

  /** Of the question's pieces, "how" is a stopword and "do" and "" are too short. */
  lemma RetriesPiecesKept()
    ensures KeepTerms(["how", "do", "retries", "work", ""], QuestionStopwords) == ["retries", "work"]
  {
    var qs := QuestionStopwords;
    assert "how" in qs;
    assert "retries" !in qs && "work" !in qs;
    var p0: seq<string> := [];
    var p1 := p0 + ["how"];
    var p2 := p1 + ["do"];
    var p3 := p2 + ["retries"];
    var p4 := p3 + ["work"];
    var p5 := p4 + [""];
    KeepTermsSnoc(p0, "how", qs);
    KeepTermsSnoc(p1, "do", qs);
    KeepTermsSnoc(p2, "retries", qs);
    KeepTermsSnoc(p3, "work", qs);
    KeepTermsSnoc(p4, "", qs);
    assert KeepTerms(p3, qs) == ["retries"];
    assert p5 == ["how", "do", "retries", "work", ""];
  }

  /** The question's terms are "retries" and "work". */
  lemma RetriesQuestionTerms()
    ensures Trim(RetriesQuestion) == RetriesQuestion
    ensures Tokenize(RetriesQuestion, QuestionStopwords) == ["retries", "work"]
  {
    RetriesQuestionTrimmed();
    RetriesQuestionPieces();
    RetriesPiecesKept();
  }

  lemma AuthPathLetters()
    ensures 'e' !in AuthPath && 'w' !in AuthPath
  {
  }

  lemma AuthTextLacksW()
    ensures 'w' !in AuthText
  {
  }

  lemma AuthTextLacksColon()
    ensures ':' !in AuthText
  {
  }

  lemma AuthTextLacksK()
    ensures 'k' !in AuthText
  {
  }

  lemma AuthTextPairs()
    ensures forall i :: 0 <= i < |AuthText| - 1 ==> !(AuthText[i] == 'r' && AuthText[i + 1] == 'e')
  {
  }

  lemma AuthPathUnstyled()
    ensures !EndsWith(AuthPath, ".css") && !EndsWith(AuthPath, ".scss") && !EndsWith(AuthPath, ".sass")
    ensures !EndsWith(AuthPath, ".less") && !EndsWith(AuthPath, ".html") && !EndsWith(AuthPath, ".tsx")
    ensures !EndsWith(AuthPath, ".jsx")
  {
  }

  /** A path without `e` and `w` and a text without `w` or the pair `re`
      earn no points for "retries" and "work". */
  lemma TermsMiss(path: string, content: string)
    requires 'e' !in path && 'w' !in path && 'w' !in content
    requires forall i :: 0 <= i < |content| - 1 ==> !(content[i] == 'r' && content[i + 1] == 'e')
    ensures TermScore(path, content, ["retries", "work"]) == 0
  {
    MissingCharNoOccurrence(path, "retries", 1);
    MissingCharNoOccurrence(path, "work", 0);
    MissingCharNoOccurrence(content, "work", 0);
    NoPairNoOccurrence(content, 'r', 'e', "retries");
    assert ["retries", "work"][..1] == ["retries"];
    assert ["retries"][..0] == [];
  }

  /** A text without `:` and `k` sets no colours or backgrounds. */
  lemma NoColours(content: string)
    requires ':' !in content && 'k' !in content
    ensures !(Contains(content, ":root") || Contains(content, "background") || Contains(content, "color:"))
  {
    MissingCharNoOccurrence(content, ":root", 0);
    MissingCharNoOccurrence(content, "background", 3);
    MissingCharNoOccurrence(content, "color:", 5);
  }

  lemma AuthPathLowercase()
    ensures HasNoUpper(AuthPath)
  {
  }

  lemma AuthTextLowercase()
    ensures HasNoUpper(AuthText)
  {
  }

  lemma AuthSnippetLowercase()
    ensures Lower(AuthSnippet.filePath) == AuthPath && Lower(AuthSnippet.snippet) == AuthText
  {
    AuthPathLowercase();
    AuthTextLowercase();
    LowerOfLower(AuthPath);
    LowerOfLower(AuthText);
  }

  /** A citation whose lowered path and text earn no term points and no
      bonus scores zero. */
  lemma ScoreZero(citation: Citation, terms: seq<string>, questionLower: string)
    requires TermScore(Lower(citation.filePath), Lower(citation.snippet), terms) == 0
    requires StylingBonus(Lower(citation.filePath), Lower(citation.snippet)) == 0
    ensures Score(citation, terms, questionLower) == 0
  {
  }

  /** The login snippet's path and text. */
  lemma AuthSnippetFacts(path: string, content: string)
    requires path == AuthPath && content == AuthText
    ensures TermScore(path, content, ["retries", "work"]) == 0
    ensures StylingBonus(path, content) == 0
  {
    AuthPathLetters();
    AuthTextLacksW();
    AuthTextLacksColon();
    AuthTextLacksK();
    AuthTextPairs();
    AuthPathUnstyled();
    TermsMiss(path, content);
    NoColours(content);
  }

  /** The login snippet scores nothing for the question. */
  lemma AuthSnippetScoresZero()
    ensures Score(AuthSnippet, ["retries", "work"], Lower(RetriesQuestion)) == 0
  {
    AuthSnippetLowercase();
    AuthSnippetFacts(Lower(AuthSnippet.filePath), Lower(AuthSnippet.snippet));
    ScoreZero(AuthSnippet, ["retries", "work"], Lower(RetriesQuestion));
  }

  lemma RetrySnippetLowered()
    ensures Lower(RetrySnippet.snippet) == "export const max_retries = 3;"
  {
  }

  /** The retry snippet names `MAX_RETRIES`, so it scores above zero. */
  lemma RetrySnippetScoresPositive()
    ensures Score(RetrySnippet, ["retries", "work"], Lower(RetriesQuestion)) > 0
  {
    var content := "export const max_retries = 3;";
    RetrySnippetLowered();
    assert content[17..24] == "retries";
    ContainsFromOccurrence(content, "retries", 17);
    var path := Lower(RetrySnippet.filePath);
    assert ["retries", "work"][..1] == ["retries"];
    assert ["retries"][..0] == [];
    assert TermScore(path, content, ["retries"]) > 0;
    TermScorePositive(path, content, ["retries", "work"]);
    assert TermHits(path, content, ["retries", "work"]);
  }

  /** Asked how retries work, the fallback over the login and retry
      snippets gives one suggestion, the first template, citing the retry
      snippet alone. */
  lemma FallbackForRetriesQuestion()
    ensures var r := BuildFallbackRefactorSuggestions([AuthSnippet, RetrySnippet], RetriesQuestion);
      && |r| == 1
      && r[0].title == "Extract focused helper functions"
      && r[0].citations == [RetrySnippet]
      && r[0].citations[0].filePath == "src/lib/retry.ts"
  {
    RetriesScored();
    RetriesQuestionNotBlank();
    FirstTemplateTitle();
    SecondOfTwoMatches(AuthSnippet, RetrySnippet, RetriesQuestion);
  }

  /** Of two snippets, when only the second scores, the fallback is the
      first template citing the second. */
  lemma SecondOfTwoMatches(a: Citation, b: Citation, question: string)
    requires Trim(question) != ""
    requires |Scored([a, b], question)| == 2
    requires Scored([a, b], question)[0].score == 0 && Scored([a, b], question)[1].score > 0
    ensures var r := BuildFallbackRefactorSuggestions([a, b], question);
      |r| == 1 && r[0].title == Templates[0].title && r[0].citations == [b]
  {
    FallbackSingleMatch([a, b], question, 1);
  }

  lemma RetriesQuestionNotBlank()
    ensures Trim(RetriesQuestion) != ""
  {
    RetriesQuestionTrimmed();
  }

  lemma FirstTemplateTitle()
    ensures Templates[0].title == "Extract focused helper functions"
  {
  }

  /** Only the retry snippet scores against the question. */
  lemma RetriesScored()
    ensures var scored := Scored([AuthSnippet, RetrySnippet], RetriesQuestion);
      |scored| == 2 && scored[0].score == 0 && scored[1].score > 0
  {
    RetriesQuestionTerms();
    AuthSnippetScoresZero();
    RetrySnippetScoresPositive();
  }

  // ------------------------------------------- a structured model reply

  const AuthTitle := "Extract auth session helper"
  const AuthRationale := "Auth flow appears mixed with transport concerns."
  const AuthImpact := "Improves readability and testability."

  const AuthCitationFields := map[
    "filePath" := SuggestionParsing.JString(AuthPath),
    "startLine" := SuggestionParsing.JNumber(10.0),
    "endLine" := SuggestionParsing.JNumber(30.0)]

  const AuthSuggestionFields := map[
    "title" := SuggestionParsing.JString(AuthTitle),
    "rationale" := SuggestionParsing.JString(AuthRationale),
    "expectedImpact" := SuggestionParsing.JString(AuthImpact),
    "citations" := SuggestionParsing.JArray([SuggestionParsing.JObject(AuthCitationFields)])]

  /** The reply `{"suggestions": [{title, rationale, expectedImpact,
      citations: [{filePath: "src/lib/auth.ts", startLine: 10, endLine: 30}]}]}`. */
  const AuthReply := SuggestionParsing.JObject(map[
    "suggestions" := SuggestionParsing.JArray([SuggestionParsing.JObject(AuthSuggestionFields)])])

  const AuthParsed := SuggestionParsing.ParsedSuggestion(AuthTitle, Trim(AuthRationale), AuthImpact,
    [SuggestionParsing.ParsedCitation(AuthPath, 10, 30)])

  /** A string with no white space at either end is its own trim. */
  lemma TrimmedByEnds(s: string)
    requires s != [] && !IsSpace(s[0]) && !IsSpace(s[|s| - 1])
    ensures Trim(s) == s
  {
    TrimOfTrimmed(s);
  }

  lemma AuthTitleTrimmed()
    ensures Trim(AuthTitle) == AuthTitle
  {
    assert AuthTitle[0] == 'E' && AuthTitle[|AuthTitle| - 1] == 'r';
    TrimmedByEnds(AuthTitle);
  }

  /** The rationale is not blank: its last character is a full stop. */
  lemma AuthRationaleNotBlank()
    ensures Trim(AuthRationale) != ""
  {
    assert AuthRationale[47] == '.';
    SuggestionParsing.TrimNotBlank(AuthRationale, 47);
  }

  lemma AuthImpactTrimmed()
    ensures Trim(AuthImpact) == AuthImpact
  {
    assert AuthImpact[0] == 'I' && AuthImpact[|AuthImpact| - 1] == '.';
    TrimmedByEnds(AuthImpact);
  }

  lemma AuthPathTrimmed()
    ensures Trim(AuthPath) == AuthPath
  {
    assert AuthPath[0] == 's' && AuthPath[|AuthPath| - 1] == 's';
    TrimmedByEnds(AuthPath);
  }

  lemma TextFieldOf(fields: map<string, SuggestionParsing.Json>, name: string, v: string)
    requires name in fields && fields[name] == SuggestionParsing.JString(v)
    ensures SuggestionParsing.TextField(fields, name) == Trim(v)
  {
  }

  lemma NormalizeOneCitation(citation: SuggestionParsing.Json)
    requires SuggestionParsing.NormalizeCitation(citation).Some?
    ensures SuggestionParsing.NormalizeCitations([citation]) == [SuggestionParsing.NormalizeCitation(citation).value]
  {
    assert [citation][..0] == [];
  }

  /** A citation object with a trimmed path and two whole line numbers. */
  lemma CitationFieldsNormalized(fields: map<string, SuggestionParsing.Json>, path: string, startLine: int, endLine: int)
    requires "filePath" in fields && fields["filePath"] == SuggestionParsing.JString(path)
    requires "startLine" in fields && fields["startLine"] == SuggestionParsing.JNumber(startLine as real)
    requires "endLine" in fields && fields["endLine"] == SuggestionParsing.JNumber(endLine as real)
    requires path != [] && Trim(path) == path
    ensures SuggestionParsing.NormalizeCitation(SuggestionParsing.JObject(fields))
      == Some(SuggestionParsing.ParsedCitation(path, startLine, endLine))
  {
    TextFieldOf(fields, "filePath", path);
  }

  /** A suggestion object with three non-blank texts and one well-formed
      citation object. */
  lemma SuggestionFieldsNormalized(fields: map<string, SuggestionParsing.Json>,
    title: string, rationale: string, impact: string, citation: SuggestionParsing.Json)
    requires "title" in fields && fields["title"] == SuggestionParsing.JString(title)
    requires "rationale" in fields && fields["rationale"] == SuggestionParsing.JString(rationale)
    requires "expectedImpact" in fields && fields["expectedImpact"] == SuggestionParsing.JString(impact)
    requires "citations" in fields && fields["citations"] == SuggestionParsing.JArray([citation])
    requires Trim(title) != "" && Trim(rationale) != "" && Trim(impact) != ""
    requires SuggestionParsing.NormalizeCitation(citation).Some?
    ensures SuggestionParsing.NormalizeSuggestion(SuggestionParsing.JObject(fields))
      == Some(SuggestionParsing.ParsedSuggestion(Trim(title), Trim(rationale), Trim(impact),
        [SuggestionParsing.NormalizeCitation(citation).value]))
  {
    TextFieldOf(fields, "title", title);
    TextFieldOf(fields, "rationale", rationale);
    TextFieldOf(fields, "expectedImpact", impact);
    NormalizeOneCitation(citation);
  }

  lemma AuthCitationNormalized()
    ensures SuggestionParsing.NormalizeCitation(SuggestionParsing.JObject(AuthCitationFields))
      == Some(SuggestionParsing.ParsedCitation(AuthPath, 10, 30))
  {
    AuthPathTrimmed();
    CitationFieldsNormalized(AuthCitationFields, AuthPath, 10, 30);
  }

  lemma AuthSuggestionFieldsLookup()
    ensures "title" in AuthSuggestionFields && AuthSuggestionFields["title"] == SuggestionParsing.JString(AuthTitle)
    ensures "rationale" in AuthSuggestionFields
      && AuthSuggestionFields["rationale"] == SuggestionParsing.JString(AuthRationale)
    ensures "expectedImpact" in AuthSuggestionFields
      && AuthSuggestionFields["expectedImpact"] == SuggestionParsing.JString(AuthImpact)
    ensures "citations" in AuthSuggestionFields
      && AuthSuggestionFields["citations"] == SuggestionParsing.JArray([SuggestionParsing.JObject(AuthCitationFields)])
  {
  }

  lemma AuthSuggestionNormalized()
    ensures SuggestionParsing.NormalizeSuggestion(SuggestionParsing.JObject(AuthSuggestionFields))
      == Some(AuthParsed)
  {
    AuthTitleTrimmed();
    AuthRationaleNotBlank();
    AuthImpactTrimmed();
    AuthCitationNormalized();
    AuthSuggestionFieldsLookup();
    SuggestionFieldsNormalized(AuthSuggestionFields, AuthTitle, AuthRationale, AuthImpact,
      SuggestionParsing.JObject(AuthCitationFields));
  }

  /** A suggestion list of one item that normalises is that one suggestion. */
  lemma NormalizeOneSuggestion(value: SuggestionParsing.Json, item: SuggestionParsing.Json)
    requires SuggestionParsing.RawSuggestions(value) == [item]
    requires SuggestionParsing.NormalizeSuggestion(item).Some?
    ensures SuggestionParsing.NormalizeParsedSuggestions(value) == [SuggestionParsing.NormalizeSuggestion(item).value]
  {
    assert [item][..0] == [];
  }

  lemma AuthReplyItems()
    ensures SuggestionParsing.RawSuggestions(AuthReply) == [SuggestionParsing.JObject(AuthSuggestionFields)]
  {
  }

  /** Normalising the reply yields its one suggestion with its one citation. */
  lemma AuthReplyNormalized()
    ensures SuggestionParsing.NormalizeParsedSuggestions(AuthReply) == [AuthParsed]
  {
    AuthSuggestionNormalized();
    AuthReplyItems();
    NormalizeOneSuggestion(AuthReply, SuggestionParsing.JObject(AuthSuggestionFields));
  }

  /** A term that the title holds between two spaces is a signal term. */
  lemma TitleTermIsSignal(title: string, rationale: string, impact: string, before: string, t: string, after: string)
    requires title == before + [' '] + t + [' '] + after
    requires IsTerm(t) && |t| > 2 && t !in SuggestionStopwords
    ensures t in SignalTerms(title, rationale, impact)
  {
    var rest := after + " " + rationale + " " + impact;
    assert title + " " + rationale + " " + impact == before + [' '] + t + [' '] + rest;
    TermBetweenSpaces(before, t, rest);
    KeepTermsComplete(Pieces(before + [' '] + t + [' '] + rest), SuggestionStopwords);
  }

  lemma AuthTitleWords()
    ensures AuthTitle == "Extract" + [' '] + "auth" + [' '] + "session helper"
  {
  }

  lemma AuthIsTerm()
    ensures IsTerm("auth") && |"auth"| > 2 && "auth" !in SuggestionStopwords
  {
  }

  /** "auth", a word of the title, is one of the suggestion's signal terms. */
  lemma AuthIsSignalTerm()
    ensures "auth" in SignalTerms(AuthTitle, Trim(AuthRationale), AuthImpact)
  {
    AuthTitleWords();
    AuthIsTerm();
    TitleTermIsSignal(AuthTitle, Trim(AuthRationale), AuthImpact, "Extract", "auth", "session helper");
  }

  /** The parsed citation names the login snippet's file and lines exactly. */
  lemma AuthCitationResolved()
    ensures ResolveAll(AuthParsed.citations, [AuthSnippet, RetrySnippet]) == [AuthSnippet]
  {
    var snippets := [AuthSnippet, RetrySnippet];
    var p := AuthParsed.citations[0];
    assert ExactMatch(p, snippets[0]);
    assert ResolveCitation(p, snippets) == Some(AuthSnippet);
    assert [p][..0] == [];
  }

  /** A term found in a cited path is cited. */
  lemma TermInPathCited(terms: seq<string>, t: string, c: Citation)
    requires t in terms && Contains(Lower(c.filePath), t)
    ensures SomeTermCited(terms, [c])
  {
    var k :| 0 <= k < |terms| && terms[k] == t;
    assert [c][0] == c;
  }

  /** The login snippet's path contains "auth". */
  lemma AuthPathCitesAuth()
    ensures Contains(Lower(AuthSnippet.filePath), "auth")
  {
    AuthSnippetLowercase();
    assert OccursAt(AuthPath, "auth", 8);
    ContainsFromOccurrence(AuthPath, "auth", 8);
  }

  /** Checked against the login and retry snippets, the parsed suggestion
      resolves to the login snippet, which its title's "auth" grounds. */
  lemma AuthParsedGrounded()
    ensures Ground(AuthParsed, [AuthSnippet, RetrySnippet])
      == Some(RefactorSuggestion(AuthTitle, Trim(AuthRationale), AuthImpact, [AuthSnippet]))
  {
    AuthCitationResolved();
    Citations.DedupeOfDistinct([AuthSnippet]);
    AuthIsSignalTerm();
    AuthPathCitesAuth();
    TermInPathCited(SignalTerms(AuthTitle, Trim(AuthRationale), AuthImpact), "auth", AuthSnippet);
    GroundedIff(AuthParsed, [AuthSnippet]);
  }

  /** A reply that parses to the structured suggestion above yields that
      one suggestion, citing the login snippet. */
  lemma ParsedAuthSuggestion(raw: string, parse: string -> Option<SuggestionParsing.Json>)
    requires Trim(raw) != "" && parse(Trim(raw)) == Some(AuthReply)
    ensures var r := ParseRefactorSuggestions(raw, [AuthSnippet, RetrySnippet], parse);
      && |r| == 1
      && r[0].title == "Extract auth session helper"
      && |r[0].citations| == 1
      && r[0].citations[0].filePath == "src/lib/auth.ts"
  {
    AuthReplyNormalized();
    AuthParsedGrounded();
    assert [AuthParsed][..0] == [];
  }
}
