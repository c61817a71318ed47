/** Ingestion filters (src/lib/ingestion/filters.ts): which files are
    skipped by name, which contents are stripped of control characters,
    and which contents look binary. */
module Filters {
  import opened Text
  import opened Seqs

  const BinaryExtensions: set<string> := {
    ".png", ".jpg", ".jpeg", ".gif", ".svg", ".ico", ".pdf", ".exe", ".zip", ".tar", ".gz", ".7z",
    ".woff", ".woff2", ".ttf", ".eot", ".mp3", ".mp4", ".mov", ".avi", ".bin", ".dll", ".so", ".dylib",
    ".pyc", ".pyo", ".pyd", ".db", ".sqlite", ".sqlite3", ".class", ".jar", ".war", ".ear"
  }

  const IgnoredDirectories: set<string> := {
    "node_modules", ".git", ".next", "dist", "build", ".vercel", "vendor", "venv", ".venv"
  }

  /** Every binary extension is a dot followed by at least one character,
      and none contains a second dot or a slash. */
  lemma BinaryExtensionShape()
    ensures forall e :: e in BinaryExtensions ==>
      |e| >= 2 && e[0] == '.' && '.' !in e[1..] && '/' !in e
  {
    BinaryExtensionsDotted();
    BinaryExtensionsPlain();
  }

  lemma BinaryExtensionsDotted()
    ensures forall e :: e in BinaryExtensions ==> |e| >= 2 && e[0] == '.'
  {
  }

  lemma BinaryExtensionsPlain()
    ensures forall e :: e in BinaryExtensions ==> '.' !in e[1..] && '/' !in e
  {
  }

  // ------------------------------------------------------ file names

  /** The lowercased name from its last '.' on; with no '.', the whole
      lowercased name (`substring(-1)` starts at 0). */
  function ExtensionOf(filename: string): string {
    var dot := LastIndexOf(filename, '.');
    Lower(filename)[if dot < 0 then 0 else dot..]
  }

  predicate IsBinaryFile(filename: string) {
    ExtensionOf(filename) in BinaryExtensions
  }

  predicate IsTextFile(filename: string) {
    !IsBinaryFile(filename)
  }

  /** A name without a '.' is never binary. */
  lemma NoDotIsNotBinary(filename: string)
    requires '.' !in filename
    ensures !IsBinaryFile(filename) && IsTextFile(filename)
  {
    BinaryExtensionShape();
    LowerKeepsNonLetter(filename, '.');
    assert ExtensionOf(filename) == Lower(filename);
  }

  lemma {:induction false} LastIndexOfLower(s: string, c: char)
    requires !('A' <= c <= 'Z') && !('a' <= c <= 'z')
    ensures LastIndexOf(Lower(s), c) == LastIndexOf(s, c)
    decreases |s|
  {
    if s != [] {
      var s' := s[..|s| - 1];
      assert Lower(s)[..|s| - 1] == Lower(s');
      LastIndexOfLower(s', c);
    }
  }

  /** The test is case-insensitive: a name and its lowercase agree. */
  lemma BinaryFileIgnoresCase(filename: string)
    ensures IsBinaryFile(Lower(filename)) == IsBinaryFile(filename)
  {
    LastIndexOfLower(filename, '.');
    LowerHasNoUpper(filename);
    LowerOfLower(Lower(filename));
    assert Lower(Lower(filename)) == Lower(filename);
    assert ExtensionOf(Lower(filename)) == ExtensionOf(filename);
  }

  lemma {:induction false} LastIndexOfAppend(a: string, b: string, c: char)
    ensures LastIndexOf(a + b, c) == if c in b then |a| + LastIndexOf(b, c) else LastIndexOf(a, c)
    decreases |b|
  {
    if b == [] {
      assert a + b == a;
    } else {
      var b' := b[..|b| - 1];
      assert (a + b)[..|a + b| - 1] == a + b';
      assert b == b' + [b[|b| - 1]];
      LastIndexOfAppend(a, b', c);
    }
  }

  /** Whether a path is binary depends only on its last segment. */
  lemma BinaryFileByBaseName(dir: string, name: string)
    ensures IsBinaryFile(dir + "/" + name) == IsBinaryFile(name)
  {
    var path := dir + "/" + name;
    LastIndexOfAppend(dir + "/", name, '.');
    LowerConcat(dir + "/", name);
    if '.' in name {
      var d := LastIndexOf(name, '.');
      assert ExtensionOf(path) == Lower(path)[|dir| + 1 + d..];
      assert Lower(path)[|dir| + 1 + d..] == Lower(name)[d..];
    } else {
      NoDotIsNotBinary(name);
      BinaryExtensionShape();
      var d := LastIndexOf(dir + "/", '.');
      var from := if d < 0 then 0 else d;
      assert from <= |dir|;
      assert Lower(path)[|dir|] == '/';
      assert ExtensionOf(path)[|dir| - from] == '/';
    }
  }

  /** `path.split(/[\/\\]/)`. */
  function PathSegments(path: string): seq<string> {
    Split(path, OneOf({'/', '\\'}))
  }

  predicate IsIgnoredName(segment: string) {
    segment in IgnoredDirectories
  }

  /** Some segment of the list is an ignored directory name. */
  predicate AnyIgnored(parts: seq<string>) {
    exists k :: 0 <= k < |parts| && IsIgnoredName(parts[k])
  }

  predicate IsIgnoredPath(path: string) {
    AnyIgnored(PathSegments(path))
  }

  lemma AnyIgnoredConcat(pa: seq<string>, pb: seq<string>)
    ensures AnyIgnored(pa + pb) <==> AnyIgnored(pa) || AnyIgnored(pb)
  {
    var p := pa + pb;
    if AnyIgnored(p) {
      var k :| 0 <= k < |p| && IsIgnoredName(p[k]);
      if k < |pa| {
        assert pa[k] == p[k];
      } else {
        assert pb[k - |pa|] == p[k];
      }
    }
    if AnyIgnored(pa) {
      var k :| 0 <= k < |pa| && IsIgnoredName(pa[k]);
      assert p[k] == pa[k];
    }
    if AnyIgnored(pb) {
      var k :| 0 <= k < |pb| && IsIgnoredName(pb[k]);
      assert p[|pa| + k] == pb[k];
    }
  }

  /** Joining two paths with a separator is ignored exactly when one of
      the two is. */
  lemma IgnoredPathJoin(a: string, sep: char, b: string)
    requires sep == '/' || sep == '\\'
    ensures IsIgnoredPath(a + [sep] + b) <==> IsIgnoredPath(a) || IsIgnoredPath(b)
  {
    SplitConcat(a, sep, b, OneOf({'/', '\\'}));
    AnyIgnoredConcat(PathSegments(a), PathSegments(b));
  }

  /** A path that is a single ignored directory name is ignored, and the
      comparison is exact: a bare segment is ignored only if it is listed. */
  lemma IgnoredSegment(segment: string)
    requires '/' !in segment && '\\' !in segment
    ensures IsIgnoredPath(segment) <==> segment in IgnoredDirectories
  {
    SplitNoSeparator(segment, OneOf({'/', '\\'}));
    assert PathSegments(segment)[0] == segment;
  }

  // ----------------------------------------------------- sanitization

  /** The class `[\u0000-\u0008\u000B\u000C\u000E-\u001F\u007F]`. */
  predicate IsDisallowedControl(c: char) {
    var n := c as int;
    (0 <= n <= 8) || n == 11 || n == 12 || (14 <= n <= 31) || n == 127
  }

  predicate IsClean(text: string) {
    forall i :: 0 <= i < |text| ==> !IsDisallowedControl(text[i])
  }

  /** Delete every disallowed control character. */
  function SanitizeForDatabase(text: string): (r: string)
    ensures IsClean(r)
    decreases |text|
  {
    if text == [] then []
    else
      var init := SanitizeForDatabase(text[..|text| - 1]);
      var c := text[|text| - 1];
      if IsDisallowedControl(c) then init
      else
        assert forall i :: 0 <= i < |init| ==> (init + [c])[i] == init[i];
        init + [c]
  }

  /** What is left is the text with some characters removed, the rest in
      order. */
  lemma {:induction false} SanitizeSubsequence(text: string)
    ensures IsSubsequence(SanitizeForDatabase(text), text)
    decreases |text|
  {
    if text != [] {
      var prefix := text[..|text| - 1];
      var c := text[|text| - 1];
      SanitizeSubsequence(prefix);
      SubsequenceExtend(SanitizeForDatabase(prefix), prefix, c);
      assert prefix + [c] == text;
    }
  }

  /** One character: dropped exactly when disallowed. */
  lemma SanitizeChar(c: char)
    ensures SanitizeForDatabase([c]) == if IsDisallowedControl(c) then [] else [c]
  {
    assert [c][..0] == [];
  }

  /** Sanitizing distributes over concatenation; with SanitizeChar this
      says that exactly the disallowed characters go and all others stay,
      in order. */
  lemma {:induction false} SanitizeConcat(a: string, b: string)
    ensures SanitizeForDatabase(a + b) == SanitizeForDatabase(a) + SanitizeForDatabase(b)
    decreases |b|
  {
    if b != [] {
      var b' := b[..|b| - 1];
      SanitizeConcat(a, b');
      assert (a + b)[..|a + b| - 1] == a + b';
    } else {
      assert a + b == a;
    }
  }

  /** Text with no disallowed character is left unchanged. */
  lemma {:induction false} SanitizeClean(text: string)
    requires IsClean(text)
    ensures SanitizeForDatabase(text) == text
    decreases |text|
  {
    if text != [] {
      SanitizeClean(text[..|text| - 1]);
      assert text == text[..|text| - 1] + [text[|text| - 1]];
    }
  }

  lemma SanitizeIdempotent(text: string)
    ensures SanitizeForDatabase(SanitizeForDatabase(text)) == SanitizeForDatabase(text)
  {
    SanitizeClean(SanitizeForDatabase(text));
  }

  lemma SanitizeExample()
    ensures SanitizeForDatabase("a\0b") == "ab"
  {
    assert "a\0b"[..2] == "a\0";
    assert "a\0"[..1] == "a";
    assert "a"[..0] == [];
  }

  // ------------------------------------------------- binary heuristic

  const SampleSize: nat := 4096

  /** A control code other than tab, newline and carriage return, or DEL. */
  predicate IsUnsafeControl(c: char) {
    var code := c as int;
    (code < 32 && !(code == 9 || code == 10 || code == 13)) || code == 127
  }

  function UnsafeControlCount(s: string): (n: nat)
    ensures n <= |s|
    decreases |s|
  {
    if s == [] then 0
    else UnsafeControlCount(s[..|s| - 1]) + (if IsUnsafeControl(s[|s| - 1]) then 1 else 0)
  }

  /** The heuristic in integers: `count / length > 0.02` is
      `50 * count > length`. */
  predicate ProbablyBinary(text: string) {
    var sample := Take(text, SampleSize);
    '\0' in text || (text != [] && 50 * UnsafeControlCount(sample) > |sample|)
  }

  method IsProbablyBinaryContent(text: string) returns (binary: bool)
    ensures binary == ProbablyBinary(text)
    ensures '\0' in text ==> binary
    ensures text == [] ==> !binary
  {
    if '\0' in text {
      return true;
    }
    if text == [] {
      return false;
    }
    var sample := Take(text, SampleSize);
    var controlCount := 0;
    for i := 0 to |sample|
      invariant controlCount == UnsafeControlCount(sample[..i])
    {
      assert sample[..i + 1][..i] == sample[..i];
      if IsUnsafeControl(sample[i]) {
        controlCount := controlCount + 1;
      }
    }
    assert sample[..|sample|] == sample;
    binary := 50 * controlCount > |sample|;
  }

  /** The two character classes are the same. */
  lemma UnsafeIsDisallowed(c: char)
    ensures IsUnsafeControl(c) <==> IsDisallowedControl(c)
  {
  }

  lemma {:induction false} CleanCountsNoControls(s: string)
    requires IsClean(s)
    ensures UnsafeControlCount(s) == 0
    decreases |s|
  {
    if s != [] {
      CleanCountsNoControls(s[..|s| - 1]);
      UnsafeIsDisallowed(s[|s| - 1]);
    }
  }

  /** Sanitized text never looks binary. */
  lemma SanitizedIsNotBinary(text: string)
    ensures !ProbablyBinary(SanitizeForDatabase(text))
  {
    var t := SanitizeForDatabase(text);
    var sample := Take(t, SampleSize);
    assert forall i :: 0 <= i < |sample| ==> sample[i] == t[i];
    CleanCountsNoControls(sample);
  }

  /** A sample of which more than one character in fifty is an unsafe
      control makes the text look binary. */
  lemma ControlHeavyIsBinary(text: string)
    requires |text| <= SampleSize
    requires 50 * UnsafeControlCount(text) > |text|
    ensures ProbablyBinary(text)
  {
  }

  lemma BinaryExamples()
    ensures ProbablyBinary("hello\0world")
    ensures !ProbablyBinary("plain text\nwith new lines")
  {
    assert "hello\0world"[5] == '\0';
    SanitizedIsNotBinary("plain text\nwith new lines");
    SanitizeClean("plain text\nwith new lines");
  }
}
