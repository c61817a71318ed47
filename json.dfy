/** Reading a refactor reply (src/lib/qa/refactor.ts:81-156): the JSON
    candidate cut out of the raw text, integer coercion, and the shape checks
    that turn an untrusted JSON value into suggestions whose citations carry
    integer line numbers. `JSON.parse` itself is a parameter. */
module SuggestionParsing {
  import opened Types
  import opened Text
  import opened Seqs

  /** A parsed JSON value; numbers are exact reals. */
  datatype Json =
    | JNull
    | JBool(b: bool)
    | JNumber(n: real)
    | JString(s: string)
    | JArray(items: seq<Json>)
    | JObject(fields: map<string, Json>)

  /** A citation as the reply wrote it, before it is matched to evidence. */
  datatype ParsedCitation = ParsedCitation(filePath: string, startLine: int, endLine: int)

  /** A suggestion whose three texts are present, trimmed and non-empty. */
  datatype ParsedSuggestion = ParsedSuggestion(
    title: string,
    rationale: string,
    expectedImpact: string,
    citations: seq<ParsedCitation>)

  // ------------------------------------------------------------ parseInt

  predicate IsDigit(c: char) {
    '0' <= c <= '9'
  }

  predicate AllDigits(s: string) {
    forall i :: 0 <= i < |s| ==> IsDigit(s[i])
  }

  /** The longest run of decimal digits at the start of `s`. */
  function DigitPrefix(s: string): (r: string)
    ensures |r| <= |s| && r == s[..|r|]
    ensures AllDigits(r)
    ensures |r| < |s| ==> !IsDigit(s[|r|])
    decreases |s|
  {
    if s != [] && IsDigit(s[0]) then
      var rest := DigitPrefix(s[1..]);
      assert [s[0]] + rest == s[..|rest| + 1];
      [s[0]] + rest
    else []
  }

  /** The number a run of decimal digits denotes. */
  function DigitsValue(digits: string): nat
    requires AllDigits(digits)
    decreases |digits|
  {
    if digits == [] then 0
    else 10 * DigitsValue(digits[..|digits| - 1]) + (digits[|digits| - 1] as int - '0' as int)
  }

  /** `Number.parseInt(s, 10)`: skip leading white space, then read a
      signed run of decimal digits. */
  function ParseInt(s: string): Option<int> {
    ParseSigned(TrimStart(s))
  }

  /** An optional sign and as many decimal digits as follow; no digit gives
      `NaN`, written `None`. */
  function ParseSigned(t: string): (r: Option<int>)
    ensures r.Some? <==>
      || (t != [] && IsDigit(t[0]))
      || (|t| >= 2 && (t[0] == '-' || t[0] == '+') && IsDigit(t[1]))
    ensures r.Some? && r.value < 0 ==> t[0] == '-'
  {
    var signed := t != [] && (t[0] == '-' || t[0] == '+');
    var digits := DigitPrefix(if signed then t[1..] else t);
    if digits == [] then None
    else if signed && t[0] == '-' then Some(-(DigitsValue(digits) as int))
    else Some(DigitsValue(digits))
  }

  lemma {:induction false} DigitsOfNat(n: nat)
    ensures AllDigits(NatToString(n))
    ensures DigitsValue(NatToString(n)) == n
    decreases n
  {
    if n >= 10 {
      DigitsOfNat(n / 10);
      var s := NatToString(n);
      assert s[..|s| - 1] == NatToString(n / 10);
    }
  }

  lemma {:induction false} DigitPrefixOf(digits: string, rest: string)
    requires AllDigits(digits)
    requires rest == [] || !IsDigit(rest[0])
    ensures DigitPrefix(digits + rest) == digits
    decreases |digits|
  {
    if digits != [] {
      assert (digits + rest)[1..] == digits[1..] + rest;
      DigitPrefixOf(digits[1..], rest);
    } else {
      assert digits + rest == rest;
    }
  }

  lemma ParseSignedOfDigits(digits: string, rest: string)
    requires digits != [] && AllDigits(digits)
    requires rest == [] || !IsDigit(rest[0])
    ensures ParseSigned(digits + rest) == Some(DigitsValue(digits))
    ensures ParseSigned("-" + digits + rest) == Some(-(DigitsValue(digits) as int))
  {
    DigitPrefixOf(digits, rest);
    UnsignedDigits(digits + rest, digits);
    NegatedDigits(digits, rest);
  }

  /** Digits at the start of a text are read as their value. */
  lemma UnsignedDigits(t: string, digits: string)
    requires digits != [] && AllDigits(digits) && DigitPrefix(t) == digits
    ensures ParseSigned(t) == Some(DigitsValue(digits))
  {
    assert t[0] == digits[0];
  }

  /** A minus sign before digits negates their value. */
  lemma NegatedDigits(digits: string, rest: string)
    requires digits != [] && AllDigits(digits) && DigitPrefix(digits + rest) == digits
    ensures ParseSigned("-" + digits + rest) == Some(-(DigitsValue(digits) as int))
  {
    var u := "-" + digits + rest;
    assert u[0] == '-' && u[1..] == digits + rest;
  }

  lemma ParseSignedOfRendered(n: int, rest: string)
    requires rest == [] || !IsDigit(rest[0])
    ensures ParseSigned(IntToString(n) + rest) == Some(n)
  {
    var m: nat := if n < 0 then -n else n;
    DigitsOfNat(m);
    ParseSignedOfDigits(NatToString(m), rest);
  }

  /** `parseInt` reads back any rendered integer, after leading white space
      and before text that does not continue the digits. */
  lemma ParseIntOfRendered(space: string, n: int, rest: string)
    requires forall i :: 0 <= i < |space| ==> IsSpace(space[i])
    requires rest == [] || !IsDigit(rest[0])
    ensures ParseInt(space + IntToString(n) + rest) == Some(n)
  {
    var r := IntToString(n);
    assert space + r + rest == space + (r + rest);
    TrimStartOfSpaces(space, r + rest);
    ParseSignedOfRendered(n, rest);
  }

  /** Rendering integers loses nothing: distinct integers print differently. */
  lemma IntToStringInjective(a: int, b: int)
    requires IntToString(a) == IntToString(b)
    ensures a == b
  {
    ParseSignedOfRendered(a, "");
    ParseSignedOfRendered(b, "");
    assert IntToString(a) + "" == IntToString(a);
  }

  // ------------------------------------------------------- coerceInteger

  /** `coerceInteger`: an integral number as it is, a string that is not
      blank through `parseInt`, anything else `null`. */
  function CoerceInteger(value: Json): (r: Option<int>)
    ensures value.JNumber? ==> (r.Some? <==> value.n.Floor as real == value.n)
    ensures r.Some? && value.JNumber? ==> r.value as real == value.n
    ensures r.Some? ==> value.JNumber? || (value.JString? && Trim(value.s) != "")
  {
    match value
    case JNumber(n) => if n.Floor as real == n then Some(n.Floor) else None
    case JString(s) => if Trim(s) != "" then ParseInt(s) else None
    case _ => None
  }

  /** A line number the reply wrote as a string, possibly padded with white
      space or followed by other text, is read as that integer. */
  lemma CoerceRendered(space: string, n: int, rest: string)
    requires forall i :: 0 <= i < |space| ==> IsSpace(space[i])
    requires rest == [] || !IsDigit(rest[0])
    ensures CoerceInteger(JString(space + IntToString(n) + rest)) == Some(n)
  {
    var s := space + IntToString(n) + rest;
    ParseIntOfRendered(space, n, rest);
    assert s[|space|] == IntToString(n)[0];
    TrimNotBlank(s, |space|);
    CoerceString(s);
  }

  /** A string that is not blank is coerced through `parseInt`. */
  lemma CoerceString(s: string)
    requires Trim(s) != ""
    ensures CoerceInteger(JString(s)) == ParseInt(s)
  {
  }

  /** A text with a character that is not white space is not blank. */
  lemma TrimNotBlank(s: string, i: int)
    requires 0 <= i < |s| && !IsSpace(s[i])
    ensures Trim(s) != ""
  {
    TrimEmptyIff(s);
  }

  // ---------------------------------------------------- citationKey

  /** `citationKey`: `${filePath}::${startLine}::${endLine}`. */
  function CitationKey(filePath: string, startLine: int, endLine: int): string {
    Join([filePath, IntToString(startLine), IntToString(endLine)], "::")
  }

  /** The key written out as one concatenation. */
  lemma CitationKeyParts(filePath: string, startLine: int, endLine: int)
    ensures CitationKey(filePath, startLine, endLine)
      == filePath + "::" + IntToString(startLine) + "::" + IntToString(endLine)
  {
    var a, b := IntToString(startLine), IntToString(endLine);
    var parts := [filePath, a, b];
    assert parts[1..] == [a, b];
    assert [a, b][1..] == [b];
    assert Join([a, b], "::") == a + "::" + b;
    assert Join(parts, "::") == filePath + "::" + (a + "::" + b);
  }

  lemma NoColonInNumber(n: int)
    ensures ':' !in IntToString(n)
  {
  }

  lemma ColonSplit(x: string, a: string, y: string, b: string)
    requires x + [':'] + a == y + [':'] + b
    requires ':' !in a && ':' !in b
    ensures x == y && a == b
  {
    var s := x + [':'] + a;
    LastIndexOfJoin(x, ':', a);
    LastIndexOfJoin(y, ':', b);
    assert x == s[..|x|];
    assert y == s[..|y|];
    assert a == s[|x| + 1..];
    assert b == s[|y| + 1..];
  }

  /** Distinct citations have distinct keys, so deduplicating by key is
      deduplicating by (path, start, end). */
  lemma CitationKeyInjective(p1: string, s1: int, e1: int, p2: string, s2: int, e2: int)
    requires CitationKey(p1, s1, e1) == CitationKey(p2, s2, e2)
    ensures p1 == p2 && s1 == s2 && e1 == e2
  {
    var S1, E1, S2, E2 := IntToString(s1), IntToString(e1), IntToString(s2), IntToString(e2);
    NoColonInNumber(s1);
    NoColonInNumber(e1);
    NoColonInNumber(s2);
    NoColonInNumber(e2);
    CitationKeyParts(p1, s1, e1);
    CitationKeyParts(p2, s2, e2);
    assert CitationKey(p1, s1, e1) == (p1 + ":" + [':'] + S1 + ":") + [':'] + E1;
    assert CitationKey(p2, s2, e2) == (p2 + ":" + [':'] + S2 + ":") + [':'] + E2;
    ColonSplit(p1 + ":" + [':'] + S1 + ":", E1, p2 + ":" + [':'] + S2 + ":", E2);
    var l1, l2 := p1 + ":" + [':'] + S1, p2 + ":" + [':'] + S2;
    assert l1 == (l1 + ":")[..|l1|];
    assert l2 == (l2 + ":")[..|l2|];
    assert |l1| == |l2|;
    assert l1 == (p1 + ":") + [':'] + S1;
    assert l2 == (p2 + ":") + [':'] + S2;
    ColonSplit(p1 + ":", S1, p2 + ":", S2);
    assert p1 == (p1 + ":")[..|p1|];
    assert p2 == (p2 + ":")[..|p2|];
    IntToStringInjective(s1, s2);
    IntToStringInjective(e1, e2);
  }

  // ------------------------------------------------ extractJsonCandidate

  /** `trimmed.slice(firstBrace, lastBrace + 1)` when the last `}` lies after
      the first `{`. */
  function BraceSlice(s: string): (r: Option<string>)
    ensures r.Some? ==> |r.value| >= 2 && r.value[0] == '{' && r.value[|r.value| - 1] == '}'
  {
    var first := IndexOf(s, '{');
    var last := LastIndexOf(s, '}');
    if first != -1 && last > first then Some(s[first..last + 1]) else None
  }

  /** There is a slice exactly when some `}` follows some `{`. */
  lemma BraceSliceExists(s: string)
    ensures BraceSlice(s).None? <==> forall i, j :: 0 <= i < j < |s| && s[i] == '{' ==> s[j] != '}'
  {
    var first := IndexOf(s, '{');
    var last := LastIndexOf(s, '}');
    if BraceSlice(s).None? {
      forall i, j | 0 <= i < j < |s| && s[i] == '{'
        ensures s[j] != '}'
      {
        assert first != -1 && first <= i;
      }
    } else {
      assert s[first] == '{' && s[last] == '}';
    }
  }

  /** The slice runs from the first opening brace to the last closing one:
      nothing before it opens a brace and nothing after it closes one. */
  lemma BraceSliceSpan(s: string)
    requires BraceSlice(s).Some?
    ensures exists pre, post ::
      && s == pre + BraceSlice(s).value + post
      && '{' !in pre && '}' !in post
  {
    var first := IndexOf(s, '{');
    var last := LastIndexOf(s, '}');
    var pre, post := s[..first], s[last + 1..];
    assert s == pre + BraceSlice(s).value + post;
    assert forall k :: 0 <= k < |pre| ==> pre[k] == s[k];
    assert forall k :: 0 <= k < |post| ==> post[k] == s[last + 1 + k];
    assert '{' !in pre;
    assert '}' !in post;
  }

  /** `extractJsonCandidate`: a blank reply is `null`; otherwise the trimmed
      reply if it parses, else its brace slice if that parses, else `null`. */
  function ExtractJsonCandidate(raw: string, parse: string -> Option<Json>): (r: Json)
    ensures Trim(raw) == "" ==> r == JNull
    ensures Trim(raw) != "" && parse(Trim(raw)).Some? ==> r == parse(Trim(raw)).value
    ensures (Trim(raw) != "" && parse(Trim(raw)).None? && BraceSlice(Trim(raw)).Some?
             && parse(BraceSlice(Trim(raw)).value).Some?)
      ==> r == parse(BraceSlice(Trim(raw)).value).value
    ensures r != JNull ==>
      || parse(Trim(raw)) == Some(r)
      || (BraceSlice(Trim(raw)).Some? && parse(BraceSlice(Trim(raw)).value) == Some(r))
  {
    var trimmed := Trim(raw);
    if trimmed == "" then JNull
    else match parse(trimmed)
      case Some(v) => v
      case None =>
        match BraceSlice(trimmed)
        case Some(candidate) => (match parse(candidate) case Some(v) => v case None => JNull)
        case None => JNull
  }

  // ------------------------------------------- normalizeParsedSuggestions

  /** A string field, trimmed; any other value or a missing field is "". */
  function TextField(fields: map<string, Json>, name: string): (r: string)
    ensures IsTrimmed(r)
  {
    if name in fields && fields[name].JString? then
      TrimIsTrimmed(fields[name].s);
      Trim(fields[name].s)
    else ""
  }

  /** An array field; any other value or a missing field is the empty list. */
  function ArrayField(fields: map<string, Json>, name: string): seq<Json> {
    if name in fields && fields[name].JArray? then fields[name].items else []
  }

  /** `coerceInteger` of a field; a missing field is `undefined`, i.e. `null`. */
  function IntegerField(fields: map<string, Json>, name: string): Option<int> {
    if name in fields then CoerceInteger(fields[name]) else None
  }

  /** One citation of a suggestion: an object with a non-blank path and two
      line numbers that coerce to integers. */
  function NormalizeCitation(item: Json): (r: Option<ParsedCitation>)
    ensures r.Some? ==> r.value.filePath != "" && IsTrimmed(r.value.filePath)
    ensures r.Some? <==>
      && item.JObject?
      && TextField(item.fields, "filePath") != ""
      && IntegerField(item.fields, "startLine").Some?
      && IntegerField(item.fields, "endLine").Some?
    ensures r.Some? ==>
      && r.value.filePath == TextField(item.fields, "filePath")
      && Some(r.value.startLine) == IntegerField(item.fields, "startLine")
      && Some(r.value.endLine) == IntegerField(item.fields, "endLine")
  {
    if !item.JObject? then None
    else
      var filePath := TextField(item.fields, "filePath");
      var startLine := IntegerField(item.fields, "startLine");
      var endLine := IntegerField(item.fields, "endLine");
      if filePath == "" || startLine.None? || endLine.None? then None
      else Some(ParsedCitation(filePath, startLine.value, endLine.value))
  }

  /** The well-formed citations of a suggestion, in the order given. */
  function NormalizeCitations(items: seq<Json>): (r: seq<ParsedCitation>)
    ensures forall c :: c in r ==> c.filePath != "" && IsTrimmed(c.filePath)
    ensures forall k :: 0 <= k < |r| ==> exists i :: 0 <= i < |items| && NormalizeCitation(items[i]) == Some(r[k])
  {
    FilterMapOrigin(items, NormalizeCitation);
    FilterMap(items, NormalizeCitation)
  }

  /** One suggestion: an object whose title, rationale and expected impact
      are non-blank strings; its citations are the well-formed ones. */
  function NormalizeSuggestion(item: Json): (r: Option<ParsedSuggestion>)
    ensures r.Some? <==>
      && item.JObject?
      && TextField(item.fields, "title") != ""
      && TextField(item.fields, "rationale") != ""
      && TextField(item.fields, "expectedImpact") != ""
    ensures r.Some? ==> WellFormed(r.value)
    ensures r.Some? ==>
      && r.value.title == TextField(item.fields, "title")
      && r.value.rationale == TextField(item.fields, "rationale")
      && r.value.expectedImpact == TextField(item.fields, "expectedImpact")
      && r.value.citations == NormalizeCitations(ArrayField(item.fields, "citations"))
  {
    if !item.JObject? then None
    else
      var title := TextField(item.fields, "title");
      var rationale := TextField(item.fields, "rationale");
      var expectedImpact := TextField(item.fields, "expectedImpact");
      var citations := NormalizeCitations(ArrayField(item.fields, "citations"));
      if title == "" || rationale == "" || expectedImpact == "" then None
      else Some(ParsedSuggestion(title, rationale, expectedImpact, citations))
  }

  /** What normalisation guarantees of every suggestion it keeps. */
  predicate WellFormed(s: ParsedSuggestion) {
    && s.title != "" && IsTrimmed(s.title)
    && s.rationale != "" && IsTrimmed(s.rationale)
    && s.expectedImpact != "" && IsTrimmed(s.expectedImpact)
    && forall c :: c in s.citations ==> c.filePath != "" && IsTrimmed(c.filePath)
  }

  /** The list of candidate suggestions: the `suggestions` array of an
      object, or the value itself when it is an array. */
  function RawSuggestions(value: Json): seq<Json> {
    match value
    case JObject(fields) => ArrayField(fields, "suggestions")
    case JArray(items) => items
    case _ => []
  }

  /** `normalizeParsedSuggestions`. */
  function NormalizeParsedSuggestions(value: Json): (r: seq<ParsedSuggestion>)
    ensures forall s :: s in r ==> WellFormed(s)
    ensures !value.JObject? && !value.JArray? ==> r == []
    ensures forall k :: 0 <= k < |r| ==>
      exists i :: 0 <= i < |RawSuggestions(value)| && NormalizeSuggestion(RawSuggestions(value)[i]) == Some(r[k])
  {
    FilterMapOrigin(RawSuggestions(value), NormalizeSuggestion);
    FilterMap(RawSuggestions(value), NormalizeSuggestion)
  }

  /** Every well-formed item of the suggestion list survives normalisation. */
  lemma NormalizeKeeps(value: Json, i: int)
    requires 0 <= i < |RawSuggestions(value)|
    requires NormalizeSuggestion(RawSuggestions(value)[i]).Some?
    ensures NormalizeSuggestion(RawSuggestions(value)[i]).value in NormalizeParsedSuggestions(value)
  {
    FilterMapComplete(RawSuggestions(value), NormalizeSuggestion, i);
  }

  function Kept<T>(x: T): Option<T> {
    Some(x)
  }

  /** The kept suggestions are exactly the items that normalise, in the
      order they were read: a subsequence of the items' normalisations, one
      per item that normalises, each at the position given by the number of
      items before it that normalise. */
  lemma NormalizeInOrder(value: Json)
    ensures IsSubsequence(MapSeq(NormalizeParsedSuggestions(value), Kept),
      MapSeq(RawSuggestions(value), NormalizeSuggestion))
    ensures |NormalizeParsedSuggestions(value)| == |Yielding(RawSuggestions(value), NormalizeSuggestion)|
    ensures var raw, r := RawSuggestions(value), NormalizeParsedSuggestions(value);
      forall i :: 0 <= i < |raw| && NormalizeSuggestion(raw[i]).Some? ==>
        |Yielding(raw[..i], NormalizeSuggestion)| < |r|
        && r[|Yielding(raw[..i], NormalizeSuggestion)|] == NormalizeSuggestion(raw[i]).value
  {
    FilterMapOrder(RawSuggestions(value), NormalizeSuggestion, NormalizeSuggestion, Kept);
    FilterMapExactly(RawSuggestions(value), NormalizeSuggestion);
  }

  /** Every well-formed citation of a suggestion is kept, in order. */
  lemma NormalizeCitationsKeep(items: seq<Json>, i: int)
    requires 0 <= i < |items| && NormalizeCitation(items[i]).Some?
    ensures NormalizeCitation(items[i]).value in NormalizeCitations(items)
    ensures IsSubsequence(MapSeq(NormalizeCitations(items), Kept), MapSeq(items, NormalizeCitation))
  {
    FilterMapComplete(items, NormalizeCitation, i);
    FilterMapOrder(items, NormalizeCitation, NormalizeCitation, Kept);
  }

  /** The kept citations are exactly the items that normalise: one per such
      item, each at the position given by the number of items before it
      that normalise. */
  lemma NormalizeCitationsExactly(items: seq<Json>)
    ensures |NormalizeCitations(items)| == |Yielding(items, NormalizeCitation)|
    ensures forall i :: 0 <= i < |items| && NormalizeCitation(items[i]).Some? ==>
      |Yielding(items[..i], NormalizeCitation)| < |NormalizeCitations(items)|
      && NormalizeCitations(items)[|Yielding(items[..i], NormalizeCitation)|] == NormalizeCitation(items[i]).value
  {
    FilterMapExactly(items, NormalizeCitation);
  }

  /** A blank reply yields no suggestions at all. */
  lemma BlankReplyHasNoSuggestions(raw: string, parse: string -> Option<Json>)
    requires Trim(raw) == ""
    ensures NormalizeParsedSuggestions(ExtractJsonCandidate(raw, parse)) == []
  {
  }
}
