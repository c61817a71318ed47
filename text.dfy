/** String helpers with the meaning the TypeScript code gives them.
    Strings are sequences of code points. `IsSpace` is JavaScript's `\s`
    class (also what `trim` strips); `IsWordChar` is `\w` without the `u`
    flag; `Lower` is `toLowerCase` on ASCII letters, other characters
    being left as they are. */
module Text {

  /** Which characters a `split` breaks on: a fixed set (`split("/")`,
      `split(/[\/\\]/)`) or the `\s` class. */
  datatype Separator = OneOf(chars: set<char>) | Whitespace

  /** JavaScript's WhiteSpace and LineTerminator code points. */
  predicate IsSpace(c: char) {
    var n := c as int;
    n == 9 || n == 10 || n == 11 || n == 12 || n == 13 || n == 32 || n == 0xA0
    || n == 0x1680 || (0x2000 <= n <= 0x200A) || n == 0x2028 || n == 0x2029
    || n == 0x202F || n == 0x205F || n == 0x3000 || n == 0xFEFF
  }

  /** `\w`: `[A-Za-z0-9_]`. */
  predicate IsWordChar(c: char) {
    ('a' <= c <= 'z') || ('A' <= c <= 'Z') || ('0' <= c <= '9') || c == '_'
  }

  predicate IsSep(sep: Separator, c: char) {
    match sep
    case OneOf(cs) => c in cs
    case Whitespace => IsSpace(c)
  }

  predicate IsUpperChar(c: char) {
    'A' <= c <= 'Z'
  }

  function LowerChar(c: char): char {
    if IsUpperChar(c) then (c as int + 32) as char else c
  }

  function Lower(s: string): (r: string)
    ensures |r| == |s|
    ensures forall i :: 0 <= i < |s| ==> r[i] == LowerChar(s[i])
  {
    seq(|s|, i requires 0 <= i < |s| => LowerChar(s[i]))
  }

  /** Lowering changes no whitespace into non-whitespace or back. */
  lemma LowerCharSpace(c: char)
    ensures IsSpace(LowerChar(c)) == IsSpace(c)
  {
  }

  lemma LowerTrimmed(s: string)
    requires IsTrimmed(s)
    ensures IsTrimmed(Lower(s))
  {
    if s != [] {
      LowerCharSpace(s[0]);
      LowerCharSpace(s[|s| - 1]);
    }
  }

  predicate HasNoUpper(s: string) {
    forall i :: 0 <= i < |s| ==> !IsUpperChar(s[i])
  }

  lemma LowerHasNoUpper(s: string)
    ensures HasNoUpper(Lower(s))
  {
  }

  lemma LowerOfLower(s: string)
    requires HasNoUpper(s)
    ensures Lower(s) == s
  {
  }

  lemma LowerConcat(a: string, b: string)
    ensures Lower(a + b) == Lower(a) + Lower(b)
  {
  }

  lemma LowerSlice(s: string, i: int, j: int)
    requires 0 <= i <= j <= |s|
    ensures Lower(s)[i..j] == Lower(s[i..j])
  {
  }

  /** Lowering keeps a character that is not a letter, and makes no new one. */
  lemma LowerKeepsNonLetter(s: string, c: char)
    requires !('A' <= c <= 'Z') && !('a' <= c <= 'z')
    ensures c in Lower(s) <==> c in s
  {
    if c in s {
      var i :| 0 <= i < |s| && s[i] == c;
      assert Lower(s)[i] == c;
    }
    if c in Lower(s) {
      var i :| 0 <= i < |s| && Lower(s)[i] == c;
      assert s[i] == c;
    }
  }

  // ---------------------------------------------------------------- trim

  function TrimStart(s: string): (r: string)
    ensures |r| <= |s| && r == s[|s| - |r|..]
    ensures r == [] || !IsSpace(r[0])
    ensures forall i :: 0 <= i < |s| - |r| ==> IsSpace(s[i])
    decreases |s|
  {
    if s != [] && IsSpace(s[0]) then TrimStart(s[1..]) else s
  }

  function TrimEnd(s: string): (r: string)
    ensures |r| <= |s| && r == s[..|r|]
    ensures r == [] || !IsSpace(r[|r| - 1])
    ensures forall i :: |r| <= i < |s| ==> IsSpace(s[i])
    decreases |s|
  {
    if s != [] && IsSpace(s[|s| - 1]) then TrimEnd(s[..|s| - 1]) else s
  }

  /** Leading white space is all `trimStart` removes. */
  lemma {:induction false} TrimStartOfSpaces(space: string, s: string)
    requires forall i :: 0 <= i < |space| ==> IsSpace(space[i])
    requires s == [] || !IsSpace(s[0])
    ensures TrimStart(space + s) == s
    decreases |space|
  {
    if space != [] {
      assert (space + s)[1..] == space[1..] + s;
      TrimStartOfSpaces(space[1..], s);
    } else {
      assert space + s == s;
    }
  }

  /** `String.prototype.trim`. */
  function Trim(s: string): string {
    TrimEnd(TrimStart(s))
  }

  predicate IsTrimmed(s: string) {
    s == [] || (!IsSpace(s[0]) && !IsSpace(s[|s| - 1]))
  }

  /** The trimmed string is the slice of `s` between its leading and
      trailing whitespace, and nothing but whitespace was dropped. */
  lemma TrimSlice(s: string) returns (lo: nat)
    ensures lo + |Trim(s)| <= |s| && Trim(s) == s[lo..lo + |Trim(s)|]
    ensures forall i :: 0 <= i < lo ==> IsSpace(s[i])
    ensures forall i :: lo + |Trim(s)| <= i < |s| ==> IsSpace(s[i])
    ensures IsTrimmed(Trim(s))
  {
    lo := |s| - |TrimStart(s)|;
    assert lo + |Trim(s)| <= |s| && Trim(s) == s[lo..lo + |Trim(s)|] by {
      TrimSliceBounds(s);
    }
    assert forall i :: lo + |Trim(s)| <= i < |s| ==> IsSpace(s[i]) by {
      TrimDropsSpaces(s);
    }
    TrimIsTrimmed(s);
  }

  lemma TrimSliceBounds(s: string)
    ensures var lo := |s| - |TrimStart(s)|;
      lo + |Trim(s)| <= |s| && Trim(s) == s[lo..lo + |Trim(s)|]
  {
    var t := TrimStart(s);
    var r := TrimEnd(t);
    PrefixOfSuffix(s, |s| - |t|, t, r);
  }

  /** A prefix of a suffix is a slice. */
  lemma PrefixOfSuffix(s: string, lo: int, t: string, r: string)
    requires 0 <= lo <= |s| && t == s[lo..]
    requires |r| <= |t| && r == t[..|r|]
    ensures lo + |r| <= |s| && r == s[lo..lo + |r|]
  {
  }

  lemma TrimDropsSpaces(s: string)
    ensures var lo := |s| - |TrimStart(s)|;
      forall i :: lo + |Trim(s)| <= i < |s| ==> IsSpace(s[i])
  {
    var t := TrimStart(s);
    var lo := |s| - |t|;
    var r := TrimEnd(t);
    assert t == s[lo..];
    forall i | lo + |r| <= i < |s| ensures IsSpace(s[i]) {
      assert s[i] == t[i - lo];
    }
  }

  lemma TrimIsTrimmed(s: string)
    ensures IsTrimmed(Trim(s))
  {
    var t := TrimStart(s);
    var r := TrimEnd(t);
    if r != [] {
      assert r[0] == t[0];
    }
  }

  /** Trimming keeps only characters of the input and gives a trimmed string. */
  lemma TrimChars(s: string)
    ensures forall c :: c in Trim(s) ==> c in s
    ensures IsTrimmed(Trim(s))
  {
    var lo := TrimSlice(s);
    forall c | c in Trim(s) ensures c in s {
      var i :| 0 <= i < |Trim(s)| && Trim(s)[i] == c;
      assert s[lo + i] == c;
    }
  }

  lemma TrimOfTrimmed(s: string)
    requires IsTrimmed(s)
    ensures Trim(s) == s
  {
  }

  lemma TrimIdempotent(s: string)
    ensures Trim(Trim(s)) == Trim(s)
  {
    var _ := TrimSlice(s);
    TrimOfTrimmed(Trim(s));
  }

  /** A string trims to the empty string exactly when it is all whitespace. */
  lemma TrimEmptyIff(s: string)
    ensures Trim(s) == [] <==> forall i :: 0 <= i < |s| ==> IsSpace(s[i])
  {
    var lo := TrimSlice(s);
    if Trim(s) != [] {
      assert !IsSpace(s[lo]);
    }
  }

  // --------------------------------------------------------------- split

  /** `s.split(sep)`: the pieces between separator characters, always at
      least one (so `"".split("/")` is `[""]`). */
  function Split(s: string, sep: Separator): (parts: seq<string>)
    ensures |parts| >= 1
    ensures forall k, j :: 0 <= k < |parts| && 0 <= j < |parts[k]| ==> !IsSep(sep, parts[k][j])
    decreases |s|
  {
    if s == [] then [""] else ConsPiece(sep, s[0], Split(s[1..], sep))
  }

  /** Put one more character in front of the pieces: a separator starts a
      new empty piece, any other character joins the first piece. */
  function ConsPiece(sep: Separator, c: char, rest: seq<string>): (parts: seq<string>)
    requires |rest| >= 1
    ensures |parts| >= 1
  {
    if IsSep(sep, c) then [""] + rest else [[c] + rest[0]] + rest[1..]
  }

  /** `parts.join(sep)`. */
  function Join(parts: seq<string>, sep: string): string
    decreases |parts|
  {
    if |parts| == 0 then ""
    else if |parts| == 1 then parts[0]
    else parts[0] + sep + Join(parts[1..], sep)
  }

  /** A character in neither the pieces nor the separator is not in the join. */
  lemma {:induction false} JoinAvoids(parts: seq<string>, sep: string, c: char)
    requires c !in sep
    requires forall k :: 0 <= k < |parts| ==> c !in parts[k]
    ensures c !in Join(parts, sep)
    decreases |parts|
  {
    if |parts| > 1 {
      JoinAvoids(parts[1..], sep, c);
    }
  }

  /** A character absent from the text is absent from every piece. */
  lemma {:induction false} SplitAvoids(s: string, sep: Separator, c: char)
    requires c !in s
    ensures forall k :: 0 <= k < |Split(s, sep)| ==> c !in Split(s, sep)[k]
    decreases |s|
  {
    if s != [] {
      SplitAvoids(s[1..], sep, c);
      var rest := Split(s[1..], sep);
      if !IsSep(sep, s[0]) {
        assert forall k :: 1 <= k < |Split(s, sep)| ==> Split(s, sep)[k] == rest[k];
      }
    }
  }

  /** Every character of every piece comes from the text. */
  lemma {:induction false} SplitChars(s: string, sep: Separator)
    ensures forall k, j :: 0 <= k < |Split(s, sep)| && 0 <= j < |Split(s, sep)[k]| ==> Split(s, sep)[k][j] in s
    decreases |s|
  {
    if s != [] {
      SplitChars(s[1..], sep);
      var parts, rest := Split(s, sep), Split(s[1..], sep);
      forall k, j | 0 <= k < |parts| && 0 <= j < |parts[k]|
        ensures parts[k][j] in s
      {
        if IsSep(sep, s[0]) {
          assert parts[k] == rest[k - 1];
          assert rest[k - 1][j] in s[1..];
        } else if k == 0 {
          if j > 0 {
            assert parts[0][j] == rest[0][j - 1];
            assert rest[0][j - 1] in s[1..];
          }
        } else {
          assert parts[k] == rest[k];
          assert rest[k][j] in s[1..];
        }
      }
    }
  }

  function Last<T>(s: seq<T>): T
    requires |s| > 0
  {
    s[|s| - 1]
  }

  /** A separator character splits the text into the pieces of either side. */
  lemma {:induction false} SplitConcat(a: string, c: char, b: string, sep: Separator)
    requires IsSep(sep, c)
    ensures Split(a + [c] + b, sep) == Split(a, sep) + Split(b, sep)
    decreases |a|
  {
    var s := a + [c] + b;
    if a == [] {
      assert s == [c] + b && s[1..] == b;
    } else {
      assert s[1..] == a[1..] + [c] + b;
      SplitConcat(a[1..], c, b, sep);
      SplitConsStep(s, a, Split(b, sep), sep);
    }
  }

  /** If the split of `s` without its first character is that of `a`
      without it, followed by `tail`, and both start alike, the same holds
      for the whole texts. */
  lemma SplitConsStep(s: string, a: string, tail: seq<string>, sep: Separator)
    requires s != [] && a != [] && s[0] == a[0]
    requires Split(s[1..], sep) == Split(a[1..], sep) + tail
    ensures Split(s, sep) == Split(a, sep) + tail
  {
    ConsPieceAppend(sep, a[0], Split(a[1..], sep), tail);
  }

  lemma ConsPieceAppend(sep: Separator, c: char, rest: seq<string>, tail: seq<string>)
    requires |rest| >= 1
    ensures ConsPiece(sep, c, rest + tail) == ConsPiece(sep, c, rest) + tail
  {
    if IsSep(sep, c) {
      assert [""] + (rest + tail) == ([""] + rest) + tail;
    } else {
      ExtendFirst([c], rest, tail);
    }
  }

  /** Extending the first piece commutes with appending more pieces. */
  lemma ExtendFirst(x: string, rest: seq<string>, tail: seq<string>)
    requires |rest| >= 1
    ensures [x + (rest + tail)[0]] + (rest + tail)[1..] == ([x + rest[0]] + rest[1..]) + tail
  {
    assert (rest + tail)[0] == rest[0];
    assert (rest + tail)[1..] == rest[1..] + tail;
  }

  /** One step of the split: the first character starts a new piece when it
      is a separator and joins the first piece otherwise. */
  lemma SplitStep(s: string, sep: Separator)
    requires s != []
    ensures IsSep(sep, s[0]) ==> Split(s, sep) == [""] + Split(s[1..], sep)
    ensures !IsSep(sep, s[0]) ==>
      Split(s, sep) == [[s[0]] + Split(s[1..], sep)[0]] + Split(s[1..], sep)[1..]
  {
  }

  lemma {:induction false} SplitNoSeparator(a: string, sep: Separator)
    requires forall j :: 0 <= j < |a| ==> !IsSep(sep, a[j])
    ensures Split(a, sep) == [a]
    decreases |a|
  {
    if a != [] {
      SplitNoSeparator(a[1..], sep);
      assert [a[0]] + a[1..] == a;
    }
  }

  /** Joining the pieces of a split on one character gives the text back. */
  lemma {:induction false} JoinSplit(s: string, c: char)
    ensures Join(Split(s, OneOf({c})), [c]) == s
    decreases |s|
  {
    if s != [] {
      var rest := Split(s[1..], OneOf({c}));
      JoinSplit(s[1..], c);
      if s[0] == c {
        assert Split(s, OneOf({c})) == [""] + rest;
        assert ([""] + rest)[1..] == rest;
      } else {
        var parts := Split(s, OneOf({c}));
        assert parts == [[s[0]] + rest[0]] + rest[1..];
        if |rest| > 1 {
          assert parts[1..] == rest[1..];
        }
      }
    }
  }

  /** Splitting a join of separator-free pieces gives the pieces back. */
  lemma {:induction false} SplitJoin(parts: seq<string>, c: char)
    requires |parts| >= 1
    requires forall k, j :: 0 <= k < |parts| && 0 <= j < |parts[k]| ==> parts[k][j] != c
    ensures Split(Join(parts, [c]), OneOf({c})) == parts
    decreases |parts|
  {
    SplitNoSeparator(parts[0], OneOf({c}));
    if |parts| > 1 {
      SplitJoin(parts[1..], c);
      SplitConcat(parts[0], c, Join(parts[1..], [c]), OneOf({c}));
      assert [parts[0]] + parts[1..] == parts;
    }
  }

  // ------------------------------------------------------------ includes

  /** `s.includes(t)`. */
  predicate Contains(s: string, t: string)
    decreases |s|
  {
    |t| <= |s| && (s[..|t|] == t || Contains(s[1..], t))
  }

  predicate OccursAt(s: string, t: string, i: int) {
    0 <= i && i + |t| <= |s| && s[i..i + |t|] == t
  }

  lemma {:induction false} ContainsFromOccurrence(s: string, t: string, i: int)
    requires OccursAt(s, t, i)
    ensures Contains(s, t)
    decreases |s|
  {
    if i > 0 {
      assert s[1..][i - 1..i - 1 + |t|] == s[i..i + |t|];
      ContainsFromOccurrence(s[1..], t, i - 1);
    }
  }

  /** Lowering keeps every slice inside the lowered whole. */
  lemma ContainsLowerSlice(s: string, lo: int, hi: int)
    requires 0 <= lo <= hi <= |s|
    ensures Contains(Lower(s), Lower(s[lo..hi]))
  {
    LowerSlice(s, lo, hi);
    ContainsFromOccurrence(Lower(s), Lower(s[lo..hi]), lo);
  }

  lemma {:induction false} OccurrenceOfContains(s: string, t: string) returns (i: nat)
    requires Contains(s, t)
    ensures OccursAt(s, t, i)
    decreases |s|
  {
    if s[..|t|] == t {
      i := 0;
    } else {
      var k := OccurrenceOfContains(s[1..], t);
      assert s[1..][k..k + |t|] == s[k + 1..k + 1 + |t|];
      i := k + 1;
    }
  }

  /** Occurrences survive extending the text on either side. */
  lemma ContainsInConcat(a: string, b: string, t: string)
    requires Contains(a, t) || Contains(b, t)
    ensures Contains(a + b, t)
  {
    if Contains(a, t) {
      var i := OccurrenceOfContains(a, t);
      assert (a + b)[i..i + |t|] == a[i..i + |t|];
      ContainsFromOccurrence(a + b, t, i);
    } else {
      var i := OccurrenceOfContains(b, t);
      assert (a + b)[|a| + i..|a| + i + |t|] == b[i..i + |t|];
      ContainsFromOccurrence(a + b, t, |a| + i);
    }
  }

  /** A text free of `c` occurs in the `c`-join of some pieces exactly when
      it occurs in one of them. */
  lemma {:induction false} ContainsInJoin(parts: seq<string>, c: char, t: string)
    requires t != []
    requires forall j :: 0 <= j < |t| ==> t[j] != c
    ensures Contains(Join(parts, [c]), t) <==> exists i :: 0 <= i < |parts| && Contains(parts[i], t)
    decreases |parts|
  {
    if |parts| > 1 {
      var rest := Join(parts[1..], [c]);
      ContainsInJoin(parts[1..], c, t);
      assert Join(parts, [c]) == parts[0] + [c] + rest;
      if Contains(Join(parts, [c]), t) {
        ContainsAcrossSeparator(parts[0], c, rest, t);
        if !Contains(parts[0], t) {
          var i :| 0 <= i < |parts[1..]| && Contains(parts[1..][i], t);
          assert parts[i + 1] == parts[1..][i];
        }
      } else {
        forall i | 0 <= i < |parts|
          ensures !Contains(parts[i], t)
        {
          if i == 0 {
            ContainsInEitherSide(parts[0], [c] + rest, t);
            assert parts[0] + ([c] + rest) == Join(parts, [c]);
          } else {
            assert parts[i] == parts[1..][i - 1];
            ContainsInEitherSide(parts[0] + [c], rest, t);
          }
        }
      }
    }
  }

  /** `ContainsInConcat` without a precondition. */
  lemma ContainsInEitherSide(a: string, b: string, t: string)
    ensures Contains(a, t) || Contains(b, t) ==> Contains(a + b, t)
  {
    if Contains(a, t) || Contains(b, t) {
      ContainsInConcat(a, b, t);
    }
  }

  /** A pattern without the character `c` that occurs in `a + [c] + b`
      occurs in `a` or in `b`. */
  lemma ContainsAcrossSeparator(a: string, c: char, b: string, t: string)
    requires Contains(a + [c] + b, t)
    requires forall j :: 0 <= j < |t| ==> t[j] != c
    ensures Contains(a, t) || Contains(b, t)
  {
    var s := a + [c] + b;
    var i := OccurrenceOfContains(s, t);
    if i + |t| <= |a| {
      OccursInLeft(a, [c] + b, t, i);
      ContainsFromOccurrence(a, t, i);
    } else {
      if i <= |a| {
        CharOfOccurrence(s, t, i, |a| - i);
        assert false;
      }
      OccursInRight(a + [c], b, t, i);
      ContainsFromOccurrence(b, t, i - |a| - 1);
    }
  }

  /** An occurrence that ends within the left part is one of the left part. */
  lemma OccursInLeft(a: string, b: string, t: string, i: int)
    requires OccursAt(a + b, t, i) && i + |t| <= |a|
    ensures OccursAt(a, t, i)
  {
    assert (a + b)[i..i + |t|] == a[i..i + |t|];
  }

  /** An occurrence that starts within the right part is one of the right
      part. */
  lemma OccursInRight(a: string, b: string, t: string, i: int)
    requires OccursAt(a + b, t, i) && i >= |a|
    ensures OccursAt(b, t, i - |a|)
  {
    assert (a + b)[i..i + |t|] == b[i - |a|..i - |a| + |t|];
  }

  lemma CharOfOccurrence(s: string, t: string, i: int, k: int)
    requires OccursAt(s, t, i) && 0 <= k < |t|
    ensures t[k] == s[i + k]
  {
    assert t[k] == s[i..i + |t|][k];
  }

  /** Every character of a substring occurs in the text. */
  lemma ContainsChars(s: string, t: string)
    requires Contains(s, t)
    ensures forall k :: 0 <= k < |t| ==> t[k] in s
  {
    var i := OccurrenceOfContains(s, t);
    forall k | 0 <= k < |t| ensures t[k] in s {
      CharOfOccurrence(s, t, i, k);
    }
  }

  /** Being a substring is transitive. */
  lemma ContainsTransitive(s: string, t: string, u: string)
    requires Contains(s, t) && Contains(t, u)
    ensures Contains(s, u)
  {
    var i := OccurrenceOfContains(s, t);
    var j := OccurrenceOfContains(t, u);
    assert forall m :: 0 <= m < |t| ==> t[m] == s[i + m];
    assert forall k :: 0 <= k < |u| ==> u[k] == t[j + k];
    assert s[i + j..i + j + |u|] == u;
    ContainsFromOccurrence(s, u, i + j);
  }

  predicate StartsWith(s: string, prefix: string) {
    |prefix| <= |s| && s[..|prefix|] == prefix
  }

  predicate EndsWith(s: string, suffix: string) {
    |suffix| <= |s| && s[|s| - |suffix|..] == suffix
  }

  // ------------------------------------------------------------- indexOf

  /** `s.indexOf(c)`: the first position of `c`, or -1. */
  function IndexOf(s: string, c: char): (r: int)
    ensures -1 <= r < |s|
    ensures r >= 0 ==> s[r] == c
    ensures forall j :: 0 <= j < |s| && (r < 0 || j < r) ==> s[j] != c
    decreases |s|
  {
    if s == [] then -1
    else if s[0] == c then 0
    else
      var k := IndexOf(s[1..], c);
      if k < 0 then -1 else k + 1
  }

  /** `s.lastIndexOf(c)`: the last position of `c`, or -1. */
  function LastIndexOf(s: string, c: char): (r: int)
    ensures -1 <= r < |s|
    ensures r >= 0 ==> s[r] == c
    ensures forall j :: r < j < |s| ==> s[j] != c
    decreases |s|
  {
    if s == [] then -1
    else if s[|s| - 1] == c then |s| - 1
    else LastIndexOf(s[..|s| - 1], c)
  }

  /** The last `c` of `x c a`, when `a` has no `c`, is the one after `x`. */
  lemma {:induction false} LastIndexOfJoin(x: string, c: char, a: string)
    requires c !in a
    ensures LastIndexOf(x + [c] + a, c) == |x|
    ensures (x + [c] + a)[|x| + 1..] == a
    decreases |a|
  {
    var s := x + [c] + a;
    if a != [] {
      var init := a[..|a| - 1];
      assert s[|s| - 1] == a[|a| - 1];
      assert s[..|s| - 1] == x + [c] + init;
      LastIndexOfJoin(x, c, init);
    }
  }

  // ------------------------------------------------------------- numbers

  function DigitChar(d: int): char
    requires 0 <= d < 10
  {
    ('0' as int + d) as char
  }

  /** Decimal rendering of a natural number, as template literals print it. */
  function NatToString(n: nat): (r: string)
    ensures |r| >= 1
    ensures forall i :: 0 <= i < |r| ==> '0' <= r[i] <= '9'
    decreases n
  {
    if n < 10 then [DigitChar(n)] else NatToString(n / 10) + [DigitChar(n % 10)]
  }

  function IntToString(n: int): (r: string)
    ensures |r| >= 1
    ensures forall i :: 0 <= i < |r| ==> r[i] == '-' || '0' <= r[i] <= '9'
  {
    if n < 0 then "-" + NatToString(-n) else NatToString(n)
  }
}
