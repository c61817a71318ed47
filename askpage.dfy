/** The evidence filter and tag helpers of the ask page
    (src/app/ask/page.tsx:16-100): search normalisation, the evidence
    search, file extensions, top-level directories, the tag counts shown
    above the evidence list, and the tag filter. */
module AskPage {
  import opened Types
  import opened Text
  import opened Seqs

  // ------------------------------------------------------------- search

  /** `normalizeSearchValue`: trim, then lowercase. */
  function NormalizeSearchValue(value: string): (r: string)
    ensures IsTrimmed(r) && HasNoUpper(r)
  {
    TrimIsTrimmed(value);
    LowerTrimmed(Trim(value));
    LowerHasNoUpper(Trim(value));
    Lower(Trim(value))
  }

  /** Normalising a normalised search value changes nothing. */
  lemma NormalizeIdempotent(value: string)
    ensures NormalizeSearchValue(NormalizeSearchValue(value)) == NormalizeSearchValue(value)
  {
    var r := NormalizeSearchValue(value);
    TrimOfTrimmed(r);
    LowerOfLower(r);
  }

  /** `matchesEvidence`: the empty query keeps everything; otherwise the
      query must occur in the lowercased path or snippet. */
  predicate MatchesEvidence(citation: Citation, query: string) {
    query == "" || Contains(Lower(citation.filePath), query) || Contains(Lower(citation.snippet), query)
  }

  /** Searching for a citation's own path, as typed, finds it. */
  lemma OwnPathMatches(citation: Citation)
    ensures MatchesEvidence(citation, NormalizeSearchValue(citation.filePath))
  {
    var path := citation.filePath;
    var lo := TrimSlice(path);
    var t := Trim(path);
    assert t == path[lo..lo + |t|];
    ContainsLowerSlice(path, lo, lo + |t|);
    assert Contains(Lower(path), Lower(t));
    assert NormalizeSearchValue(path) == Lower(t);
    assert MatchesEvidence(citation, Lower(t));
  }

  // --------------------------------------------------------- extensions

  /** The last `/`-separated segment of the lowercased path. */
  function FileName(filePath: string): (r: string)
    ensures '/' !in r
  {
    var parts := Split(Lower(filePath), OneOf({'/'}));
    assert forall j :: 0 <= j < |Last(parts)| ==> Last(parts)[j] != '/';
    Last(parts)
  }

  /** `getFileExtension`: what follows the last `.` of the lowercased file
      name, or `no-ext` when there is no `.` or nothing after it. */
  function GetFileExtension(filePath: string): (r: string)
    ensures r == "no-ext" || (r != "" && '.' !in r && '/' !in r && HasNoUpper(r))
  {
    var name := FileName(filePath);
    var dot := LastIndexOf(name, '.');
    if dot == -1 || dot == |name| - 1 then "no-ext"
    else
      var ext := name[dot + 1..];
      assert forall c :: c in ext ==> c in name;
      LowerHasNoUpper(filePath);
      assert forall j :: 0 <= j < |ext| ==> ext[j] in Lower(filePath) by {
        SplitChars(Lower(filePath), OneOf({'/'}));
      }
      ext
  }

  /** The file name of `dir/name` is `name` when `name` has no `/`. */
  lemma FileNameOf(dir: string, name: string)
    requires '/' !in name
    ensures FileName(name) == Lower(name)
    ensures FileName(dir + "/" + name) == Lower(name)
  {
    var ln := Lower(name);
    LowerKeepsNonLetter(name, '/');
    SplitNoSeparator(ln, OneOf({'/'}));
    LowerConcat(dir + "/", name);
    LowerConcat(dir, "/");
    assert Lower(dir + "/" + name) == Lower(dir) + ['/'] + ln;
    SplitConcat(Lower(dir), '/', ln, OneOf({'/'}));
  }

  /** A file `base.ext`, alone or under a directory, has extension `ext`
      in lower case, whenever `ext` is non-empty and holds no `.` or `/`. */
  lemma ExtensionOf(dir: string, base: string, ext: string)
    requires '/' !in base
    requires ext != "" && '.' !in ext && '/' !in ext
    ensures GetFileExtension(base + "." + ext) == Lower(ext)
    ensures GetFileExtension(dir + "/" + base + "." + ext) == Lower(ext)
  {
    var name := base + "." + ext;
    assert '/' !in name by {
      assert forall j :: 0 <= j < |name| ==> name[j] in base || name[j] == '.' || name[j] in ext;
    }
    FileNameOf(dir, name);
    assert dir + "/" + base + "." + ext == dir + "/" + name;
    LowerConcat(base + ".", ext);
    LowerConcat(base, ".");
    assert Lower(name) == Lower(base) + "." + Lower(ext);
    LowerKeepsNonLetter(ext, '.');
    assert Lower(base) + "." + Lower(ext) == Lower(base) + ['.'] + Lower(ext);
    LastIndexOfJoin(Lower(base), '.', Lower(ext));
  }

  /** A file name without a `.`, or ending in one, has no extension. */
  lemma NoExtension(filePath: string)
    requires '.' !in FileName(filePath) || EndsWith(FileName(filePath), ".")
    ensures GetFileExtension(filePath) == "no-ext"
  {
  }

  // ---------------------------------------------------------- top level

  /** `.replace(/\\/g, "/")`. */
  function SlashBackslashes(s: string): (r: string)
    ensures |r| == |s| && '\\' !in r
    ensures forall i :: 0 <= i < |s| ==> r[i] == if s[i] == '\\' then '/' else s[i]
  {
    seq(|s|, i requires 0 <= i < |s| => if s[i] == '\\' then '/' else s[i])
  }

  /** Drop the leading run of `c`. */
  function DropLeading(s: string, c: char): (r: string)
    ensures |r| <= |s| && r == s[|s| - |r|..]
    ensures r == [] || r[0] != c
    ensures forall i :: 0 <= i < |s| - |r| ==> s[i] == c
    decreases |s|
  {
    if s != [] && s[0] == c then DropLeading(s[1..], c) else s
  }

  /** `.replace(/^\.\/+/, "")`: one `.` followed by one or more `/`. */
  function DropDotSlash(s: string): string {
    if |s| >= 2 && s[0] == '.' && s[1] == '/' then DropLeading(s[1..], '/') else s
  }

  /** The path as `getTopLevelDir` normalises it before splitting. */
  function NormalizedPath(filePath: string): (r: string)
    ensures '\\' !in r && HasNoUpper(r)
  {
    var s := DropLeading(DropDotSlash(SlashBackslashes(filePath)), '/');
    assert '\\' !in s;
    LowerHasNoUpper(s);
    LowerKeepsNonLetter(s, '\\');
    Lower(s)
  }

  /** `t` uses only characters of `s`. */
  predicate CharsOf(t: string, s: string) {
    forall j :: 0 <= j < |t| ==> t[j] in s
  }

  /** `split("/")[0]?.trim()`. */
  function FirstSegment(normalized: string): (r: string)
    requires '\\' !in normalized && HasNoUpper(normalized)
    ensures IsTrimmed(r) && '/' !in r && CharsOf(r, normalized)
  {
    var piece := Split(normalized, OneOf({'/'}))[0];
    SplitChars(normalized, OneOf({'/'}));
    assert CharsOf(piece, normalized);
    TrimChars(piece);
    assert forall j :: 0 <= j < |piece| ==> piece[j] != '/';
    Trim(piece)
  }

  /** A string made of the characters of one with no `\` and no upper-case
      letter has neither. */
  lemma CharsOfClean(t: string, s: string)
    requires CharsOf(t, s) && '\\' !in s && HasNoUpper(s)
    ensures '\\' !in t && HasNoUpper(t)
  {
    forall j | 0 <= j < |t| ensures !IsUpperChar(t[j]) {
      assert t[j] in s;
      var k :| 0 <= k < |s| && s[k] == t[j];
    }
  }

  /** Joining two strings without `\\` and upper-case letters gives another. */
  lemma CleanConcat(a: string, b: string)
    requires '\\' !in a && HasNoUpper(a) && '\\' !in b && HasNoUpper(b)
    ensures '\\' !in a + b && HasNoUpper(a + b)
  {
    forall j | 0 <= j < |a + b| ensures !IsUpperChar((a + b)[j]) {
      if j < |a| {
        assert (a + b)[j] == a[j];
      } else {
        assert (a + b)[j] == b[j - |a|];
      }
    }
  }

  /** `getTopLevelDir`: the trimmed first segment of the normalised path,
      or `root` when that is empty or `.`. */
  function GetTopLevelDir(filePath: string): (r: string)
    ensures PlainSegment(r)
  {
    var normalized := NormalizedPath(filePath);
    var first := FirstSegment(normalized);
    if first == "" || first == "." then
      RootIsPlain();
      Root
    else
      CharsOfClean(first, normalized);
      first
  }

  /** What `getTopLevelDir` returns for a file with no directory. */
  const Root: string := "root"

  lemma RootIsPlain()
    ensures PlainSegment(Root)
  {
  }

  /** A plain directory name: what `getTopLevelDir` can return. */
  predicate PlainSegment(d: string) {
    d != "" && d != "." && IsTrimmed(d) && HasNoUpper(d) && '/' !in d && '\\' !in d
  }

  /** The normalisation leaves a path alone that starts with a plain
      segment and has no `\` and no upper-case letter. */
  lemma NormalizedPathOf(d: string, s: string)
    requires PlainSegment(d) && d <= s && (|s| > |d| ==> s[|d|] == '/')
    requires '\\' !in s && HasNoUpper(s)
    ensures NormalizedPath(s) == s
  {
    assert SlashBackslashes(s) == s;
    assert s[0] == d[0] && d[0] in d;
    assert DropDotSlash(s) == s by {
      if |s| >= 2 && s[0] == '.' {
        assert |d| >= 2 && s[1] == d[1];
      }
    }
    assert DropLeading(s, '/') == s;
    LowerOfLower(s);
  }

  /** `split("/")[0]` of `a/b` is `a` when `a` has no `/`. */
  lemma FirstPiece(a: string, b: string)
    requires '/' !in a
    ensures Split(a + "/" + b, OneOf({'/'}))[0] == a
  {
    SplitConcat(a, '/', b, OneOf({'/'}));
    SplitNoSeparator(a, OneOf({'/'}));
  }

  /** A normalised path whose first segment is plain has that segment as
      its top-level directory. */
  lemma TopLevelDirOfNormal(s: string, d: string)
    requires '\\' !in s && HasNoUpper(s) && NormalizedPath(s) == s
    requires PlainSegment(d) && Split(s, OneOf({'/'}))[0] == d
    ensures GetTopLevelDir(s) == d
  {
    TrimOfTrimmed(d);
    assert FirstSegment(s) == d;
  }

  /** A plain segment is its own top-level directory. */
  lemma TopLevelDirOfSegment(d: string)
    requires PlainSegment(d)
    ensures GetTopLevelDir(d) == d
  {
    NormalizedPathOf(d, d);
    SplitNoSeparator(d, OneOf({'/'}));
    TopLevelDirOfNormal(d, d);
  }

  /** A path `d/rest` whose first segment `d` is plain, with no `\\` and no
      upper-case letter in `rest`, has top-level directory `d`. */
  lemma TopLevelDirUnder(d: string, rest: string)
    requires PlainSegment(d) && '\\' !in rest && HasNoUpper(rest)
    ensures GetTopLevelDir(d + "/" + rest) == d
  {
    var s := d + "/" + rest;
    CleanConcat(d, "/");
    CleanConcat(d + "/", rest);
    assert s[|d|] == '/' && d <= s;
    NormalizedPathOf(d, s);
    FirstPiece(d, rest);
    TopLevelDirOfNormal(s, d);
  }

  /** `getTopLevelDir` is idempotent. */
  lemma TopLevelDirIdempotent(filePath: string)
    ensures GetTopLevelDir(GetTopLevelDir(filePath)) == GetTopLevelDir(filePath)
  {
    TopLevelDirOfSegment(GetTopLevelDir(filePath));
  }

  // --------------------------------------------------------------- tags

  /** One tag above the evidence list (`labelText` is the source's `label`,
      a reserved word here); an addition to the tag map has the
      same shape, its count being what it adds. */
  datatype EvidenceTag = EvidenceTag(id: string, labelText: string, count: nat)

  predicate DistinctIds(tags: seq<EvidenceTag>) {
    forall i, j :: 0 <= i < j < |tags| ==> tags[i].id != tags[j].id
  }

  /** `tagMap.get(id)`: the position of the tag with this id, or -1. */
  function TagIndex(tags: seq<EvidenceTag>, id: string): (r: int)
    ensures -1 <= r < |tags|
    ensures r >= 0 ==> tags[r].id == id
    ensures r < 0 ==> forall k :: 0 <= k < |tags| ==> tags[k].id != id
    decreases |tags|
  {
    if tags == [] then -1
    else if tags[|tags| - 1].id == id then |tags| - 1
    else TagIndex(tags[..|tags| - 1], id)
  }

  /** `addTag` on the map's entries, in insertion order: bump the count of
      the tag with this id, or append a new tag. */
  function AddTo(tags: seq<EvidenceTag>, add: EvidenceTag): seq<EvidenceTag> {
    var k := TagIndex(tags, add.id);
    if k >= 0 then tags[k := tags[k].(count := tags[k].count + add.count)]
    else tags + [add]
  }

  /** The count the map holds for `id`; 0 when there is no such tag. */
  function CountOf(tags: seq<EvidenceTag>, id: string): nat {
    var k := TagIndex(tags, id);
    if k >= 0 then tags[k].count else 0
  }

  /** In a map with distinct ids, a tag's position is where its id is. */
  lemma TagIndexOf(tags: seq<EvidenceTag>, k: int)
    requires DistinctIds(tags) && 0 <= k < |tags|
    ensures TagIndex(tags, tags[k].id) == k
  {
  }

  /** Adding keeps the ids distinct, adds `add.count` to its id's count and
      leaves every other count alone. */
  lemma AddToCount(tags: seq<EvidenceTag>, add: EvidenceTag, id: string)
    requires DistinctIds(tags)
    ensures DistinctIds(AddTo(tags, add))
    ensures CountOf(AddTo(tags, add), id) == CountOf(tags, id) + (if id == add.id then add.count else 0)
  {
    var t := AddTo(tags, add);
    var k := TagIndex(tags, add.id);
    assert forall j :: 0 <= j < |tags| ==> t[j].id == tags[j].id;
    assert DistinctIds(t);
    var r := TagIndex(t, id);
    if r >= 0 && r < |tags| {
      TagIndexOf(tags, r);
    }
    if r < 0 {
      assert forall j :: 0 <= j < |tags| ==> tags[j].id != id;
    }
  }

  /** Apply the additions in order to an empty map. */
  function Tally(adds: seq<EvidenceTag>): seq<EvidenceTag>
    decreases |adds|
  {
    if adds == [] then [] else AddTo(Tally(adds[..|adds| - 1]), adds[|adds| - 1])
  }

  /** The sum of the counts added for `id`. */
  function Total(adds: seq<EvidenceTag>, id: string): nat
    decreases |adds|
  {
    if adds == [] then 0
    else Total(adds[..|adds| - 1], id) + (if adds[|adds| - 1].id == id then adds[|adds| - 1].count else 0)
  }

  /** The map holds each id once, with the sum of what was added for it. */
  lemma {:induction false} TallyCount(adds: seq<EvidenceTag>, id: string)
    ensures DistinctIds(Tally(adds))
    ensures CountOf(Tally(adds), id) == Total(adds, id)
    decreases |adds|
  {
    if adds != [] {
      var init := adds[..|adds| - 1];
      TallyCount(init, id);
      AddToCount(Tally(init), adds[|adds| - 1], id);
    }
  }

  /** Every tag of the map carries the total for its id, and came from an
      addition with that id. */
  lemma TallyMember(adds: seq<EvidenceTag>, k: int)
    requires 0 <= k < |Tally(adds)|
    ensures Tally(adds)[k].count == Total(adds, Tally(adds)[k].id)
  {
    var t := Tally(adds);
    TallyCount(adds, t[k].id);
    TagIndexOf(t, k);
  }

  /** `Total` over a concatenation. */
  lemma {:induction false} TotalConcat(a: seq<EvidenceTag>, b: seq<EvidenceTag>, id: string)
    ensures Total(a + b, id) == Total(a, id) + Total(b, id)
    decreases |b|
  {
    if b != [] {
      assert (a + b)[..|a + b| - 1] == a + b[..|b| - 1];
      assert (a + b)[|a + b| - 1] == b[|b| - 1];
      TotalConcat(a, b[..|b| - 1], id);
    } else {
      assert a + b == a;
    }
  }

  // --------------------------------------------------- evidence tag ids

  /** What one item contributes to the map: its file extension and its
      top-level directory. */
  datatype ItemKey = ItemKey(ext: string, dir: string)

  function ItemKeyOf(c: Citation): ItemKey {
    ItemKey(GetFileExtension(c.filePath), GetTopLevelDir(c.filePath))
  }

  /** The key of every item, in order. */
  function Keys(items: seq<Citation>): (r: seq<ItemKey>)
    ensures |r| == |items|
    decreases |items|
  {
    if items == [] then [] else Keys(items[..|items| - 1]) + [ItemKeyOf(items[|items| - 1])]
  }

  /** The extension tag of an item: `ext:<ext>`, labelled `.<ext>`. */
  function ExtTag(k: ItemKey): EvidenceTag {
    EvidenceTag("ext:" + k.ext, "." + k.ext, 1)
  }

  /** The directory tag of an item: `dir:<dir>`, labelled `<dir>`. */
  function DirTag(k: ItemKey): EvidenceTag {
    EvidenceTag("dir:" + k.dir, k.dir, 1)
  }

  /** The additions of the loop over the items: extension, then directory. */
  function KeyAdds(keys: seq<ItemKey>): (r: seq<EvidenceTag>)
    ensures |r| == 2 * |keys|
    decreases |keys|
  {
    if keys == [] then []
    else KeyAdds(keys[..|keys| - 1]) + [ExtTag(keys[|keys| - 1]), DirTag(keys[|keys| - 1])]
  }

  /** A topic with the question words that raise it. */
  datatype TopicRule = TopicRule(topic: string, terms: seq<string>)

  const TopicRules: seq<TopicRule> := [
    TopicRule("auth", ["auth", "login", "session", "token"]),
    TopicRule("retry", ["retry", "retries", "backoff"]),
    TopicRule("db", ["db", "database", "sql", "prisma", "supabase"]),
    TopicRule("api", ["api", "endpoint", "route", "request"])
  ]

  /** `rule.terms.some((term) => question.includes(term))`. */
  predicate Mentions(question: string, terms: seq<string>) {
    exists k :: 0 <= k < |terms| && Contains(question, terms[k])
  }

  /** The topic tag of a rule: count 2. */
  function TopicTag(rule: TopicRule): EvidenceTag {
    EvidenceTag("topic:" + rule.topic, rule.topic, 2)
  }

  /** The additions of the loop over the topic rules. */
  function TopicAdds(question: string, rules: seq<TopicRule>): seq<EvidenceTag>
    decreases |rules|
  {
    if rules == [] then []
    else
      var rule := rules[|rules| - 1];
      TopicAdds(question, rules[..|rules| - 1]) + (if Mentions(question, rule.terms) then [TopicTag(rule)] else [])
  }

  /** All additions `deriveEvidenceTags` makes, in order, for items with
      these keys. */
  function AllAdds(keys: seq<ItemKey>, askedQuestion: string): seq<EvidenceTag> {
    KeyAdds(keys) + TopicAdds(Lower(askedQuestion), TopicRules)
  }

  /** How many keys have extension `e`. */
  function ExtCount(keys: seq<ItemKey>, e: string): nat
    decreases |keys|
  {
    if keys == [] then 0
    else ExtCount(keys[..|keys| - 1], e) + (if keys[|keys| - 1].ext == e then 1 else 0)
  }

  /** How many keys have top-level directory `d`. */
  function DirCount(keys: seq<ItemKey>, d: string): nat
    decreases |keys|
  {
    if keys == [] then 0
    else DirCount(keys[..|keys| - 1], d) + (if keys[|keys| - 1].dir == d then 1 else 0)
  }

  /** Two tag ids built from different prefixes never meet, and one prefix
      keeps the values apart. */
  lemma PrefixedIds(p: string, a: string, q: string, b: string)
    requires |p| == |q|
    ensures p + a == q + b ==> p == q && a == b
  {
    if p + a == q + b {
      assert (p + a)[..|p|] == p && (q + b)[..|q|] == q;
      assert (p + a)[|p|..] == a && (q + b)[|q|..] == b;
    }
  }

  /** Two additions, counted for an id that only the first one has. */
  lemma TotalOfTwo(first: EvidenceTag, second: EvidenceTag, id: string)
    ensures Total([first, second], id)
      == (if first.id == id then first.count else 0) + (if second.id == id then second.count else 0)
  {
    var pair := [first, second];
    assert pair[..1] == [first] && pair[1] == second;
    assert [first][..0] == [] && [first][0] == first;
    assert Total([first], id) == Total([], id) + (if first.id == id then first.count else 0);
    assert Total(pair, id) == Total([first], id) + (if second.id == id then second.count else 0);
  }

  /** The two additions of one item, counted for an extension id and for
      a directory id. */
  lemma PairTotals(x: string, y: string, e: string, d: string, t: string)
    ensures var pair := [EvidenceTag("ext:" + x, "." + x, 1), EvidenceTag("dir:" + y, y, 1)];
      && Total(pair, "ext:" + e) == (if x == e then 1 else 0)
      && Total(pair, "dir:" + d) == (if y == d then 1 else 0)
      && Total(pair, "topic:" + t) == 0
  {
    var pair := [EvidenceTag("ext:" + x, "." + x, 1), EvidenceTag("dir:" + y, y, 1)];
    TotalOfTwo(pair[0], pair[1], "ext:" + e);
    TotalOfTwo(pair[0], pair[1], "dir:" + d);
    TotalOfTwo(pair[0], pair[1], "topic:" + t);
    assert ("ext:" + x)[0] != ("topic:" + t)[0] && ("dir:" + y)[0] != ("topic:" + t)[0];
    assert ("dir:" + y)[0] != ("ext:" + e)[0];
    assert ("ext:" + x)[0] != ("dir:" + d)[0];
    PrefixedIds("ext:", x, "ext:", e);
    PrefixedIds("dir:", y, "dir:", d);
  }

  /** The extension additions for `e` sum to the number of items with that
      extension, the directory additions likewise, and none is a topic. */
  lemma {:induction false} KeyAddsTotals(keys: seq<ItemKey>, e: string, d: string, t: string)
    ensures Total(KeyAdds(keys), "ext:" + e) == ExtCount(keys, e)
    ensures Total(KeyAdds(keys), "dir:" + d) == DirCount(keys, d)
    ensures Total(KeyAdds(keys), "topic:" + t) == 0
    decreases |keys|
  {
    if keys != [] {
      var init := keys[..|keys| - 1];
      var k := keys[|keys| - 1];
      KeyAddsTotals(init, e, d, t);
      var pair := [ExtTag(k), DirTag(k)];
      TotalConcat(KeyAdds(init), pair, "ext:" + e);
      TotalConcat(KeyAdds(init), pair, "dir:" + d);
      TotalConcat(KeyAdds(init), pair, "topic:" + t);
      PairTotals(k.ext, k.dir, e, d, t);
    }
  }

  /** No topic addition touches an extension or directory id. */
  lemma {:induction false} TopicAddsOther(question: string, rules: seq<TopicRule>, id: string)
    requires |id| > 0 && id[0] != 't'
    ensures Total(TopicAdds(question, rules), id) == 0
    decreases |rules|
  {
    if rules != [] {
      var init := rules[..|rules| - 1];
      TopicAddsOther(question, init, id);
      var rule := rules[|rules| - 1];
      var extra := if Mentions(question, rule.terms) then [TopicTag(rule)] else [];
      TotalConcat(TopicAdds(question, init), extra, id);
      if extra != [] {
        assert extra[..0] == [];
        assert TopicTag(rule).id[0] == 't';
      }
    }
  }

  /** With distinct topics, a topic's additions sum to 2 when one of its
      words occurs in the question, and to 0 otherwise. */
  lemma {:induction false} TopicAddsTotal(question: string, rules: seq<TopicRule>, t: string)
    requires forall i, j :: 0 <= i < j < |rules| ==> rules[i].topic != rules[j].topic
    ensures Total(TopicAdds(question, rules), "topic:" + t)
      == if exists k :: 0 <= k < |rules| && rules[k].topic == t && Mentions(question, rules[k].terms) then 2 else 0
    decreases |rules|
  {
    if rules != [] {
      var init := rules[..|rules| - 1];
      var rule := rules[|rules| - 1];
      TopicAddsTotal(question, init, t);
      var extra := if Mentions(question, rule.terms) then [TopicTag(rule)] else [];
      TotalConcat(TopicAdds(question, init), extra, "topic:" + t);
      if extra != [] {
        assert extra[..0] == [];
        PrefixedIds("topic:", rule.topic, "topic:", t);
      }
      if exists k :: 0 <= k < |rules| && rules[k].topic == t && Mentions(question, rules[k].terms) {
        var k :| 0 <= k < |rules| && rules[k].topic == t && Mentions(question, rules[k].terms);
        if k < |rules| - 1 {
          assert init[k] == rules[k];
          assert rule.topic != t;
        }
      } else {
        assert forall k :: 0 <= k < |init| ==> init[k] == rules[k];
      }
    }
  }

  lemma TopicRulesDistinct()
    ensures forall i, j :: 0 <= i < j < |TopicRules| ==> TopicRules[i].topic != TopicRules[j].topic
  {
  }

  /** Every addition `deriveEvidenceTags` makes, summed per id: an
      extension tag counts the items with that extension, a directory tag
      the items under that directory, and a topic tag is 2 when one of its
      words occurs in the lowercased question. */
  lemma AllAddsTotals(keys: seq<ItemKey>, askedQuestion: string, e: string, d: string, t: string)
    ensures Total(AllAdds(keys, askedQuestion), "ext:" + e) == ExtCount(keys, e)
    ensures Total(AllAdds(keys, askedQuestion), "dir:" + d) == DirCount(keys, d)
    ensures Total(AllAdds(keys, askedQuestion), "topic:" + t)
      == if exists k :: 0 <= k < |TopicRules| && TopicRules[k].topic == t
                        && Mentions(Lower(askedQuestion), TopicRules[k].terms) then 2 else 0
  {
    var q := Lower(askedQuestion);
    var keyAdds := KeyAdds(keys);
    KeyAddsTotals(keys, e, d, t);
    TotalConcat(keyAdds, TopicAdds(q, TopicRules), "ext:" + e);
    TotalConcat(keyAdds, TopicAdds(q, TopicRules), "dir:" + d);
    TotalConcat(keyAdds, TopicAdds(q, TopicRules), "topic:" + t);
    TopicAddsOther(q, TopicRules, "ext:" + e);
    TopicAddsOther(q, TopicRules, "dir:" + d);
    TopicRulesDistinct();
    TopicAddsTotal(q, TopicRules, t);
  }

  // ------------------------------------------------------------ sorting

  /** The sort comparator: the higher count first, then the label that
      collates first. `labelLess(a, b)` stands for
      `a.localeCompare(b) < 0`. */
  function TagBefore(labelLess: (string, string) -> bool): (EvidenceTag, EvidenceTag) -> bool {
    (a: EvidenceTag, b: EvidenceTag) => a.count > b.count || (a.count == b.count && labelLess(a.labelText, b.labelText))
  }

  lemma TagBeforeOrder(labelLess: (string, string) -> bool)
    requires StrictWeakOrder(labelLess)
    ensures StrictWeakOrder(TagBefore(labelLess))
  {
    var less := TagBefore(labelLess);
    forall a ensures !less(a, a) {
      assert !labelLess(a.labelText, a.labelText);
    }
    forall a, b, c | less(a, b) && less(b, c) ensures less(a, c) {
      if a.count == b.count && b.count == c.count {
        assert labelLess(a.labelText, b.labelText) && labelLess(b.labelText, c.labelText);
      }
    }
    forall a, b, c | !less(a, b) && !less(b, c) ensures !less(a, c) {
      if a.count == c.count {
        assert a.count == b.count;
        assert !labelLess(a.labelText, b.labelText) && !labelLess(b.labelText, c.labelText);
      }
    }
  }

  /** A reordering of a map with distinct ids has distinct ids. */
  lemma PermutedIds(r: seq<EvidenceTag>, t: seq<EvidenceTag>)
    requires multiset(r) == multiset(t) && DistinctIds(t)
    ensures DistinctIds(r)
  {
    forall i, j | 0 <= i < j < |r| ensures r[i].id != r[j].id {
      assert r[i] in multiset(t) && r[j] in multiset(t);
      var p :| 0 <= p < |t| && t[p] == r[i];
      var q :| 0 <= q < |t| && t[q] == r[j];
      if r[i] == r[j] {
        OnceInDistinct(t, p);
        DuplicateCount(r, i, j);
      } else {
        assert p != q;
      }
    }
  }

  /** In a map with distinct ids every tag occurs once. */
  lemma {:induction false} OnceInDistinct(t: seq<EvidenceTag>, p: int)
    requires DistinctIds(t) && 0 <= p < |t|
    ensures multiset(t)[t[p]] == 1
    decreases |t|
  {
    var init := t[..|t| - 1];
    var last := t[|t| - 1];
    assert t == init + [last];
    assert multiset(t) == multiset(init) + multiset{last};
    if p < |t| - 1 {
      assert init[p] == t[p] && t[p].id != last.id;
      OnceInDistinct(init, p);
    } else {
      assert forall k :: 0 <= k < |init| ==> init[k].id != last.id;
      assert last !in init;
    }
  }

  /** An element at two positions occurs at least twice. */
  lemma DuplicateCount(r: seq<EvidenceTag>, i: int, j: int)
    requires 0 <= i < j < |r| && r[i] == r[j]
    ensures multiset(r)[r[i]] >= 2
  {
    assert r == r[..j] + r[j..];
    assert r[i] in r[..j] && r[j] in r[j..];
    assert multiset(r) == multiset(r[..j]) + multiset(r[j..]);
  }

  // ------------------------------------------------------ derive the tags

  /** The items tags are derived from: the retrieved snippets when there
      are any, otherwise the citations. */
  function TagItems(retrieved: seq<Citation>, citations: seq<Citation>): seq<Citation> {
    if |retrieved| > 0 then retrieved else citations
  }

  /** The first ten tags of the map built for items with these keys, in
      comparator order. */
  function TopTags(keys: seq<ItemKey>, askedQuestion: string, labelLess: (string, string) -> bool): seq<EvidenceTag>
    requires StrictWeakOrder(labelLess)
  {
    TagBeforeOrder(labelLess);
    Take(InsertionSort(Tally(AllAdds(keys, askedQuestion)), TagBefore(labelLess)), 10)
  }

  /** What `deriveEvidenceTags` returns: nothing without items, otherwise
      the first ten tags of the sorted map. */
  function EvidenceTags(retrieved: seq<Citation>, citations: seq<Citation>, askedQuestion: string,
                        labelLess: (string, string) -> bool): seq<EvidenceTag>
    requires StrictWeakOrder(labelLess)
  {
    var items := TagItems(retrieved, citations);
    if |items| == 0 then [] else TopTags(Keys(items), askedQuestion, labelLess)
  }

  /** The tag map of `deriveEvidenceTags`: its entries in insertion order,
      each tag a value the map replaces when its count grows. */
  class TagMap {
    var tags: seq<EvidenceTag>

    constructor ()
      ensures tags == []
    {
      tags := [];
    }

    /** `addTag`: bump the count of the tag with this id, or append one. */
    method Add(id: string, labelText: string, count: nat)
      modifies this
      ensures tags == AddTo(old(tags), EvidenceTag(id, labelText, count))
    {
      var k := TagIndex(tags, id);
      if k >= 0 {
        tags := tags[k := tags[k].(count := tags[k].count + count)];
      } else {
        tags := tags + [EvidenceTag(id, labelText, count)];
      }
    }

    /** The second loop of `deriveEvidenceTags`: add 2 to the topic of
        every rule one of whose words occurs in the question. */
    method AddTopics(question: string, ghost prefix: seq<EvidenceTag>)
      requires tags == Tally(prefix)
      modifies this
      ensures tags == Tally(prefix + TopicAdds(question, TopicRules))
    {
      assert TopicAdds(question, TopicRules[..0]) == [] by {
        assert TopicRules[..0] == [];
      }
      assert prefix + [] == prefix;
      for j := 0 to |TopicRules|
        invariant tags == Tally(prefix + TopicAdds(question, TopicRules[..j]))
      {
        var rule := TopicRules[j];
        TopicStep(prefix, question, TopicRules, j);
        if Mentions(question, rule.terms) {
          Add("topic:" + rule.topic, rule.topic, 2);
        }
      }
      assert TopicRules[..|TopicRules|] == TopicRules;
    }
  }

  /** Appending one addition applies it to the map. */
  lemma TallySnoc(adds: seq<EvidenceTag>, add: EvidenceTag)
    ensures Tally(adds + [add]) == AddTo(Tally(adds), add)
  {
    assert (adds + [add])[..|adds|] == adds;
  }

  lemma KeysStep(items: seq<Citation>, i: int)
    requires 0 <= i < |items|
    ensures Keys(items[..i + 1]) == Keys(items[..i]) + [ItemKeyOf(items[i])]
  {
    assert items[..i + 1][..i] == items[..i];
  }

  /** One turn of the loop over the topics applies its addition, if any. */
  lemma TopicStep(prefix: seq<EvidenceTag>, question: string, rules: seq<TopicRule>, j: int)
    requires 0 <= j < |rules|
    ensures Tally(prefix + TopicAdds(question, rules[..j + 1]))
      == if Mentions(question, rules[j].terms)
         then AddTo(Tally(prefix + TopicAdds(question, rules[..j])), TopicTag(rules[j]))
         else Tally(prefix + TopicAdds(question, rules[..j]))
  {
    assert rules[..j + 1][..j] == rules[..j];
    if Mentions(question, rules[j].terms) {
      assert prefix + TopicAdds(question, rules[..j + 1]) == prefix + TopicAdds(question, rules[..j]) + [TopicTag(rules[j])];
      TallySnoc(prefix + TopicAdds(question, rules[..j]), TopicTag(rules[j]));
    } else {
      assert TopicAdds(question, rules[..j + 1]) == TopicAdds(question, rules[..j]) + [];
      assert TopicAdds(question, rules[..j]) + [] == TopicAdds(question, rules[..j]);
    }
  }

  /** One turn of the loop over the items applies its two additions. */
  lemma ItemStep(keys: seq<ItemKey>, k: ItemKey)
    ensures Tally(KeyAdds(keys + [k])) == AddTo(AddTo(Tally(KeyAdds(keys)), ExtTag(k)), DirTag(k))
  {
    assert (keys + [k])[..|keys|] == keys;
    var adds := KeyAdds(keys);
    assert KeyAdds(keys + [k]) == adds + [ExtTag(k)] + [DirTag(k)];
    TallySnoc(adds, ExtTag(k));
    TallySnoc(adds + [ExtTag(k)], DirTag(k));
  }

  /** The first loop of `deriveEvidenceTags`: a fresh map holding the
      extension and directory count of every item. */
  method CountItems(items: seq<Citation>) returns (tagMap: TagMap)
    ensures fresh(tagMap)
    ensures tagMap.tags == Tally(KeyAdds(Keys(items)))
  {
    tagMap := new TagMap();
    for i := 0 to |items|
      invariant tagMap.tags == Tally(KeyAdds(Keys(items[..i])))
    {
      var ext := GetFileExtension(items[i].filePath);
      var dir := GetTopLevelDir(items[i].filePath);
      KeysStep(items, i);
      ItemStep(Keys(items[..i]), ItemKey(ext, dir));
      tagMap.Add("ext:" + ext, "." + ext, 1);
      tagMap.Add("dir:" + dir, dir, 1);
    }
    assert items[..|items|] == items;
  }

  /** `deriveEvidenceTags`: count the extension and directory of every
      item, add the topics the question mentions, sort, keep ten. */
  method DeriveEvidenceTags(retrieved: seq<Citation>, citations: seq<Citation>, askedQuestion: string,
                            labelLess: (string, string) -> bool)
    returns (r: seq<EvidenceTag>)
    requires StrictWeakOrder(labelLess)
    ensures r == EvidenceTags(retrieved, citations, askedQuestion, labelLess)
  {
    var items := if |retrieved| > 0 then retrieved else citations;
    if |items| == 0 {
      return [];
    }
    var tagMap := CountItems(items);
    tagMap.AddTopics(Lower(askedQuestion), KeyAdds(Keys(items)));
    assert tagMap.tags == Tally(AllAdds(Keys(items), askedQuestion));
    TagBeforeOrder(labelLess);
    r := Take(InsertionSort(tagMap.tags, TagBefore(labelLess)), 10);
  }

  // ------------------------------------------------------- tag properties

  /** For at least one item: at most ten tags with distinct ids, in
      comparator order, each taken from the map with the total count added
      for its id, and at least one tag. */
  lemma TopTagsShape(keys: seq<ItemKey>, askedQuestion: string, labelLess: (string, string) -> bool)
    requires StrictWeakOrder(labelLess)
    requires keys != []
    ensures var r := TopTags(keys, askedQuestion, labelLess);
      && 0 < |r| <= 10
      && DistinctIds(r)
      && SortedBy(TagBefore(labelLess), r)
      && forall k :: 0 <= k < |r| ==>
           r[k] in Tally(AllAdds(keys, askedQuestion)) && r[k].count == Total(AllAdds(keys, askedQuestion), r[k].id)
  {
    var adds := AllAdds(keys, askedQuestion);
    var t := Tally(adds);
    TagBeforeOrder(labelLess);
    var sorted := InsertionSort(t, TagBefore(labelLess));
    var r := Take(sorted, 10);
    TallyCount(adds, "");
    PermutedIds(sorted, t);
    var n := |keys|;
    assert adds[2 * n - 1] == DirTag(keys[n - 1]);
    TallyCount(adds, adds[2 * n - 1].id);
    TotalPositive(adds, 2 * n - 1);
    assert TagIndex(t, adds[2 * n - 1].id) >= 0;
    assert |sorted| == |t| by {
      assert |multiset(sorted)| == |multiset(t)|;
    }
    forall k | 0 <= k < |r| ensures r[k] in t && r[k].count == Total(adds, r[k].id) {
      assert r[k] == sorted[k];
      assert r[k] in multiset(t);
      var p :| 0 <= p < |t| && t[p] == r[k];
      TallyMember(adds, p);
    }
  }

  /** The tags are empty exactly when there are no items; otherwise they
      are the top tags of the items' keys. */
  lemma EvidenceTagsShape(retrieved: seq<Citation>, citations: seq<Citation>, askedQuestion: string,
                          labelLess: (string, string) -> bool)
    requires StrictWeakOrder(labelLess)
    ensures var items := TagItems(retrieved, citations);
      var r := EvidenceTags(retrieved, citations, askedQuestion, labelLess);
      && (r == [] <==> items == [])
      && (items != [] ==> r == TopTags(Keys(items), askedQuestion, labelLess))
  {
    var items := TagItems(retrieved, citations);
    if items != [] {
      TopTagsShape(Keys(items), askedQuestion, labelLess);
    }
  }

  /** An id that was added with a positive count adds up to a positive
      total. */
  lemma {:induction false} TotalPositive(adds: seq<EvidenceTag>, i: int)
    requires 0 <= i < |adds| && adds[i].count > 0
    ensures Total(adds, adds[i].id) > 0
    decreases |adds|
  {
    if i < |adds| - 1 {
      assert adds[..|adds| - 1][i] == adds[i];
      TotalPositive(adds[..|adds| - 1], i);
    }
  }

  /** A tag of the map that is not shown is outranked by all ten shown
      tags: the tags are the top ten. */
  lemma TopTagsTop(keys: seq<ItemKey>, askedQuestion: string, labelLess: (string, string) -> bool, g: EvidenceTag)
    requires StrictWeakOrder(labelLess)
    requires g in Tally(AllAdds(keys, askedQuestion))
    requires g !in TopTags(keys, askedQuestion, labelLess)
    ensures var r := TopTags(keys, askedQuestion, labelLess);
      |r| == 10 && forall k :: 0 <= k < |r| ==> !TagBefore(labelLess)(g, r[k])
  {
    var t := Tally(AllAdds(keys, askedQuestion));
    TagBeforeOrder(labelLess);
    var sorted := InsertionSort(t, TagBefore(labelLess));
    assert g in multiset(sorted);
    TakeOfSorted(sorted, g, 10, TagBefore(labelLess));
  }

  // --------------------------------------------------------- tag filter

  /** A tag id taken apart: the kind before the colon and the value after
      it; a missing value is the empty string (both are falsy). */
  datatype TagRef = TagRef(kind: string, value: string)

  const Colon: Separator := OneOf({':'})

  /** `activeTagId.split(":", 2)` as written: the first two pieces of the
      split, so the value stops at a second colon. */
  function KindAndValueAsWritten(id: string): TagRef {
    var parts := Split(id, Colon);
    TagRef(parts[0], if |parts| >= 2 then parts[1] else "")
  }

  /** The intended reading of a tag id: the kind up to the first colon and
      the whole rest as the value. */
  function KindAndValue(id: string): TagRef {
    var k := IndexOf(id, ':');
    if k < 0 then TagRef(id, "") else TagRef(id[..k], id[k + 1..])
  }

  /** What the filter looks for in an item: the lowercased path and
      snippet on two lines. */
  function SearchText(citation: Citation): string {
    Lower(citation.filePath + "\n" + citation.snippet)
  }

  /** The test for one kind and value on an item with this key and text:
      no kind or no value keeps the item; `ext` and `dir` compare the
      item's extension or top-level directory; `topic` looks for the value
      in the text; any other kind keeps the item. */
  predicate TagFilter(key: ItemKey, text: string, ref: TagRef) {
    if ref.kind == "" || ref.value == "" then true
    else if ref.kind == "ext" then key.ext == ref.value
    else if ref.kind == "dir" then key.dir == ref.value
    else if ref.kind == "topic" then Contains(text, ref.value)
    else true
  }

  /** `matchesTagFilter` as written: no active tag keeps everything. */
  predicate MatchesTagFilterAsWritten(citation: Citation, activeTagId: string) {
    activeTagId == "" || TagFilter(ItemKeyOf(citation), SearchText(citation), KindAndValueAsWritten(activeTagId))
  }

  /** `matchesTagFilter` with the value read up to the end of the id. */
  predicate MatchesTagFilter(citation: Citation, activeTagId: string) {
    activeTagId == "" || TagFilter(ItemKeyOf(citation), SearchText(citation), KindAndValue(activeTagId))
  }

  /** The split as written keeps the kind and cuts the value at its first
      colon. */
  lemma AsWrittenCutsValue(id: string)
    ensures KindAndValueAsWritten(id).kind == KindAndValue(id).kind
    ensures KindAndValueAsWritten(id).value == Split(KindAndValue(id).value, Colon)[0]
  {
    var k := IndexOf(id, ':');
    if k < 0 {
      SplitNoSeparator(id, Colon);
    } else {
      var a, b := id[..k], id[k + 1..];
      assert id == a + [':'] + b;
      SplitConcat(a, ':', b, Colon);
      SplitNoSeparator(a, Colon);
      assert Split(id, Colon) == [a] + Split(b, Colon);
    }
  }

  /** The first piece of a split is the whole text exactly when it has no
      colon, and is empty only when the text is or starts with one. */
  lemma FirstColonPiece(b: string)
    ensures Split(b, Colon)[0] == b <==> ':' !in b
    ensures Split(b, Colon)[0] == "" <==> (b == "" || b[0] == ':')
  {
    if ':' !in b {
      SplitNoSeparator(b, Colon);
    } else {
      var first := Split(b, Colon)[0];
      assert forall j :: 0 <= j < |first| ==> first[j] != ':';
      assert ':' !in first;
    }
    if b != [] && b[0] != ':' {
      assert Split(b, Colon)[0][0] == b[0];
    }
  }

  /** Both readings agree unless the value holds another colon. */
  lemma FilterAgreesWithoutSecondColon(citation: Citation, activeTagId: string)
    requires ':' !in KindAndValue(activeTagId).value
    ensures MatchesTagFilterAsWritten(citation, activeTagId) == MatchesTagFilter(citation, activeTagId)
  {
    AsWrittenCutsValue(activeTagId);
    FirstColonPiece(KindAndValue(activeTagId).value);
  }

  /** An id built as `<kind>:<value>` reads back as that kind and value. */
  lemma KindAndValueOf(kind: string, value: string)
    requires ':' !in kind
    ensures KindAndValue(kind + ":" + value) == TagRef(kind, value)
  {
    var id := kind + ":" + value;
    assert id[|kind|] == ':';
    assert forall j :: 0 <= j < |kind| ==> id[j] == kind[j];
    assert id[..|kind|] == kind && id[|kind| + 1..] == value;
  }

  /** The filter of an `ext:` tag keeps exactly the items with that
      extension, that of a `dir:` tag those under that directory, and that
      of a `topic:` tag those whose text contains the topic; an empty value
      keeps everything. */
  lemma KeyFilterSelects(key: ItemKey, text: string, value: string)
    ensures TagFilter(key, text, KindAndValue("ext:" + value)) <==> value == "" || key.ext == value
    ensures TagFilter(key, text, KindAndValue("dir:" + value)) <==> value == "" || key.dir == value
    ensures TagFilter(key, text, KindAndValue("topic:" + value)) <==> value == "" || Contains(text, value)
  {
    assert "ext:" + value == "ext" + ":" + value;
    assert "dir:" + value == "dir" + ":" + value;
    assert "topic:" + value == "topic" + ":" + value;
    KindAndValueOf("ext", value);
    KindAndValueOf("dir", value);
    KindAndValueOf("topic", value);
  }

  /** The same for an item: its extension, its top-level directory, its
      lowercased path and snippet. */
  lemma FilterSelects(citation: Citation, value: string)
    ensures MatchesTagFilter(citation, "ext:" + value)
      <==> value == "" || GetFileExtension(citation.filePath) == value
    ensures MatchesTagFilter(citation, "dir:" + value)
      <==> value == "" || GetTopLevelDir(citation.filePath) == value
    ensures MatchesTagFilter(citation, "topic:" + value)
      <==> value == "" || Contains(Lower(citation.filePath + "\n" + citation.snippet), value)
  {
    KeyFilterSelects(ItemKeyOf(citation), SearchText(citation), value);
  }

  /** No active tag, or one of an unknown kind, keeps every item. */
  lemma FilterKeeps(citation: Citation, activeTagId: string)
    requires KindAndValue(activeTagId).kind !in ["ext", "dir", "topic"]
    ensures MatchesTagFilter(citation, activeTagId)
  {
  }

  /** Every item passes the filter of its own extension and directory
      tags. */
  lemma OwnTagsMatch(citation: Citation)
    ensures MatchesTagFilter(citation, ExtTag(ItemKeyOf(citation)).id)
    ensures MatchesTagFilter(citation, DirTag(ItemKeyOf(citation)).id)
  {
    KeyFilterSelects(ItemKeyOf(citation), SearchText(citation), ItemKeyOf(citation).ext);
    KeyFilterSelects(ItemKeyOf(citation), SearchText(citation), ItemKeyOf(citation).dir);
  }

  /** As written, a directory holding a colon (not at its start) fails the
      filter of its own tag. */
  lemma AsWrittenMissesDir(key: ItemKey, text: string)
    requires ':' in key.dir && key.dir[0] != ':'
    ensures !TagFilter(key, text, KindAndValueAsWritten(DirTag(key).id))
    ensures TagFilter(key, text, KindAndValue(DirTag(key).id))
  {
    assert DirTag(key).id == "dir" + ":" + key.dir;
    KindAndValueOf("dir", key.dir);
    AsWrittenCutsValue(DirTag(key).id);
    FirstColonPiece(key.dir);
    assert Split(key.dir, Colon)[0] != key.dir && Split(key.dir, Colon)[0] != "";
  }

  /** So an item whose top-level directory holds a colon (not at its start)
      is dropped by the filter of its own directory tag. */
  lemma AsWrittenMissesOwnDir(citation: Citation)
    requires ':' in GetTopLevelDir(citation.filePath)
    requires GetTopLevelDir(citation.filePath)[0] != ':'
    ensures !MatchesTagFilterAsWritten(citation, DirTag(ItemKeyOf(citation)).id)
    ensures MatchesTagFilter(citation, DirTag(ItemKeyOf(citation)).id)
  {
    AsWrittenMissesDir(ItemKeyOf(citation), SearchText(citation));
  }

  /** A concrete input for the lemma above: the Windows-style path
      `c:/app/page.ts` has top-level directory `c:`, so as written the
      filter of its own tag `dir:c:` drops it. */
  lemma DriveLetterDir()
    ensures GetTopLevelDir("c:/app/page.ts") == "c:"
    ensures ':' in GetTopLevelDir("c:/app/page.ts") && GetTopLevelDir("c:/app/page.ts")[0] != ':'
  {
    assert "c:/app/page.ts" == "c:" + "/" + "app/page.ts";
    TopLevelDirUnder("c:", "app/page.ts");
  }
}
