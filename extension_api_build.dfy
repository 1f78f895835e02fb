/*
 * The build script of the extension API crate
 * (crates/extension_api/build.rs): it rewrites the WIT interface files
 * line by line so that versioned `zed:`/`redwood:` package paths become
 * local ones, and writes the crate version as six bytes that the
 * extension host later reads back from a wasm custom section.
 */
module ExtensionApiBuild {
  import opened Wrappers
  import opened Strings

  newtype u8 = x: int | 0 <= x < 0x100
  newtype u16 = x: int | 0 <= x < 0x1_0000

  /** Unicode `White_Space`, the set `str::trim_start` removes. */
  predicate IsWhitespace(c: char)
  {
    ('\t' <= c <= '\r') || c == ' ' || c == '\U{85}' || c == '\U{A0}' || c == '\U{1680}'
    || ('\U{2000}' <= c <= '\U{200A}') || c == '\U{2028}' || c == '\U{2029}'
    || c == '\U{202F}' || c == '\U{205F}' || c == '\U{3000}'
  }

  predicate IsDigit(c: char)
  {
    '0' <= c <= '9'
  }

  /** The first position of `c` in `s`, as `str::find` reports it. */
  function Find(s: string, c: char): (r: Option<nat>)
    ensures r.None? <==> c !in s
    ensures r.Some? ==> r.value < |s| && s[r.value] == c && c !in s[..r.value]
  {
    if s == [] then None
    else if s[0] == c then Some(0)
    else match Find(s[1..], c)
      case None => None
      case Some(i) => Some(i + 1)
  }

  /** `Find` reports the first occurrence. */
  lemma FindAt(s: string, c: char, i: nat)
    requires i < |s| && s[i] == c && c !in s[..i]
    ensures Find(s, c) == Some(i)
  {
    assert s[i] in s;
    var j := Find(s, c).value;
    assert forall k | 0 <= k < j :: s[..j][k] == s[k];
    assert forall k | 0 <= k < i :: s[..i][k] == s[k];
  }

  /** The length of the leading whitespace of `s`. */
  function IndentLength(s: string): (n: nat)
    ensures n <= |s|
    ensures forall i | 0 <= i < n :: IsWhitespace(s[i])
    ensures n == |s| || !IsWhitespace(s[n])
  {
    if s != [] && IsWhitespace(s[0]) then 1 + IndentLength(s[1..]) else 0
  }

  /** `s` without its trailing run of `c`, as `str::trim_end_matches` returns it. */
  function TrimEnd(s: string, c: char): (t: string)
    ensures t <= s
    ensures t == [] || t[|t| - 1] != c
    ensures forall i | |t| <= i < |s| :: s[i] == c
  {
    if s != [] && s[|s| - 1] == c then TrimEnd(s[..|s| - 1], c) else s
  }

  /** What follows the first `c` in `s`, or all of `s` when there is none. */
  function AfterFirst(s: string, c: char): string
  {
    match Find(s, c)
    case Some(i) => s[i + 1..]
    case None => s
  }

  /**
   * `rewrite_package`: "package name@version;" loses its version; a
   * package line without '@' is kept as it is.
   */
  function RewritePackage(line: string): (r: string)
    ensures '@' !in line ==> r == line
  {
    if "package " <= line then
      var rest := line[|"package "|..];
      match Find(rest, '@')
      case Some(at) => "package " + TrimEnd(rest[..at], ';') + ";"
      case None => line
    else line
  }

  /** A versioned package declaration loses exactly its version. */
  lemma RewriteVersionedPackage(name: string, version: string)
    requires '@' !in name && (name == [] || name[|name| - 1] != ';')
    ensures RewritePackage("package " + name + "@" + version) == "package " + name + ";"
  {
    var line := "package " + name + "@" + version;
    var rest := line[|"package "|..];
    assert "package " <= line;
    assert rest == name + "@" + version;
    assert rest[|name|] == '@' && rest[..|name|] == name;
    FindAt(rest, '@', |name|);
  }

  /**
   * Position `i` belongs to a version suffix: a digit, or a dot that a
   * digit follows.
   */
  predicate InVersion(s: string, i: int)
    requires 0 <= i < |s|
  {
    IsDigit(s[i]) || (s[i] == '.' && i + 1 < |s| && IsDigit(s[i + 1]))
  }

  /** The end of the version run that starts at `i`. */
  function VersionEnd(s: string, i: nat): (e: nat)
    requires i <= |s|
    ensures i <= e <= |s|
    ensures forall j | i <= j < e :: InVersion(s, j)
    ensures e == |s| || !InVersion(s, e)
    decreases |s| - i
  {
    if i < |s| && InVersion(s, i) then VersionEnd(s, i + 1) else i
  }

  /**
   * `remove_version_suffix`, as a value: the first '@' and the version
   * run after it are cut out.
   */
  function WithoutVersionSuffix(segment: string): (r: string)
    ensures '@' !in segment ==> r == segment
    ensures '@' in segment ==> |r| < |segment|
  {
    match Find(segment, '@')
    case None => segment
    case Some(at) => segment[..at] + segment[VersionEnd(segment, at + 1)..]
  }

  /** `remove_version_suffix`: scans the version run after the first '@'. */
  method RemoveVersionSuffix(segment: string) returns (result: string)
    ensures result == WithoutVersionSuffix(segment)
  {
    match Find(segment, '@') {
      case None =>
        result := segment;
      case Some(at) =>
        var end := at + 1;
        while end < |segment|
          invariant at + 1 <= end <= |segment|
          invariant VersionEnd(segment, at + 1) == VersionEnd(segment, end)
          decreases |segment| - end
        {
          var c := segment[end];
          if IsDigit(c) {
            end := end + 1;
          } else if c == '.' && end + 1 < |segment| && IsDigit(segment[end + 1]) {
            end := end + 1;
          } else {
            break;
          }
        }
        result := segment[..at] + segment[end..];
    }
  }

  /** Inside a longer string, the version run of a suffix is found where it is. */
  lemma VersionEndShift(a: string, v: string, b: string, k: nat)
    requires k <= |v|
    requires forall j | 0 <= j < |v| :: InVersion(v + b, j)
    requires b == [] || !InVersion(b, 0)
    ensures VersionEnd(a + v + b, |a| + k) == |a| + |v|
    decreases |v| - k
  {
    var s := a + v + b;
    if k < |v| {
      assert s[|a| + k] == (v + b)[k];
      assert |a| + k + 1 < |s| ==> s[|a| + k + 1] == (v + b)[k + 1];
      assert InVersion(v + b, k);
      VersionEndShift(a, v, b, k + 1);
    } else if b != [] {
      assert s[|a| + |v|] == b[0];
      assert |a| + |v| + 1 < |s| ==> s[|a| + |v| + 1] == b[1];
    }
  }

  /**
   * Removing the version suffix keeps what comes before the first '@' and
   * what follows the maximal version run after it.
   */
  lemma RemovesVersion(a: string, v: string, b: string)
    requires '@' !in a
    requires forall j | 0 <= j < |v| :: InVersion(v + b, j)
    requires b == [] || !InVersion(b, 0)
    ensures WithoutVersionSuffix(a + "@" + v + b) == a + b
  {
    var s := a + "@" + v + b;
    assert s[|a|] == '@' && s[..|a|] == a;
    FindAt(s, '@', |a|);
    assert s == (a + "@") + v + b;
    VersionEndShift(a + "@", v, b, 0);
    assert s[|a| + 1 + |v|..] == b;
  }

  /**
   * `convert_path_segment`: an `import`/`use` of a `zed:` or `redwood:`
   * path drops the namespace, the version and the first path segment;
   * any other line is unchanged.
   */
  function ConvertPathSegment(line: string, prefix: string): (r: string)
    requires prefix <= line
    ensures !("zed:" <= line[|prefix|..] || "redwood:" <= line[|prefix|..]) ==> r == line
    ensures prefix <= r
  {
    var rest := line[|prefix|..];
    if ':' in rest then
      if "zed:" <= rest || "redwood:" <= rest then prefix + LocalPath(rest) else line
    else line
  }

  /**
   * What a namespaced path keeps: the part after its colon, without the
   * version and without the first '/'-segment.
   */
  function LocalPath(rest: string): string
    requires ':' in rest
  {
    AfterFirst(WithoutVersionSuffix(rest[Find(rest, ':').value + 1..]), '/')
  }

  /**
   * A versioned `zed:`/`redwood:` path keeps only what follows its first
   * path segment, without the version.
   */
  lemma ConvertNamespacedPath(prefix: string, ns: string, package: string, path: string, v: string, b: string)
    requires ns == "zed" || ns == "redwood"
    requires '/' !in package && '@' !in package + "/" + path
    requires forall j | 0 <= j < |v| :: InVersion(v + b, j)
    requires b == [] || !InVersion(b, 0)
    ensures ConvertPathSegment(prefix + (ns + ":" + (package + "/" + path + "@" + v + b)), prefix)
         == prefix + (path + b)
  {
    var a := package + "/" + path;
    NamespacedPath(prefix, ns, a + "@" + v + b);
    RemovesVersion(a, v, b);
    AfterFirstSlash(package, path + b);
    Reassociate(package + "/", path, b);
  }


  /** A `zed:`/`redwood:` path is converted from what follows its colon. */
  lemma NamespacedPath(prefix: string, ns: string, after: string)
    requires ns == "zed" || ns == "redwood"
    ensures ConvertPathSegment(prefix + (ns + ":" + after), prefix)
         == prefix + LocalPath(ns + ":" + after)
    ensures LocalPath(ns + ":" + after) == AfterFirst(WithoutVersionSuffix(after), '/')
  {
    var rest := ns + ":" + after;
    assert (prefix + rest)[|prefix|..] == rest;
    assert rest[|ns|] == ':' && rest[..|ns|] == ns;
    FindAt(rest, ':', |ns|);
    assert rest[|ns| + 1..] == after;
    assert rest[..|ns| + 1] == ns + ":";
    assert "zed:" <= rest || "redwood:" <= rest;
    assert ':' in rest;
  }

  lemma AfterFirstSlash(x: string, y: string)
    requires '/' !in x
    ensures AfterFirst(x + "/" + y, '/') == y
  {
    var s := x + "/" + y;
    assert s[|x|] == '/' && s[..|x|] == x;
    FindAt(s, '/', |x|);
    assert s == (x + "/") + y;
  }

  /** `c` is absent from every slice of a string it is absent from. */
  lemma SliceWithout(s: string, i: nat, j: nat, c: char)
    requires i <= j <= |s| && c !in s
    ensures c !in s[i..j]
    ensures j == |s| ==> c !in s[i..]
    ensures i == 0 ==> c !in s[..j]
  {
    assert forall k | 0 <= k < j - i :: s[i..j][k] == s[i + k];
  }

  /**
   * `convert_line`: package lines are rewritten for extension files and
   * dropped from the base modules, `import`/`use` lines with a ':' are
   * converted, and everything else passes through verbatim; the leading
   * indentation is always kept.
   */
  function ConvertLine(line: string, isExtension: bool): (r: Option<string>)
    ensures r.None? <==> !isExtension && "package " <= line[IndentLength(line)..]
    ensures r.Some? ==> line[..IndentLength(line)] <= r.value
    ensures ':' !in line && !("package " <= line[IndentLength(line)..]) ==> r == Some(line)
  {
    var n := IndentLength(line);
    var indent := line[..n];
    var trimmed := line[n..];
    if "package " <= trimmed then
      if isExtension then Some(indent + RewritePackage(trimmed)) else None
    else if "import " <= trimmed && ':' in trimmed then
      Some(indent + ConvertPathSegment(trimmed, "import "))
    else if "use " <= trimmed && ':' in trimmed then
      Some(indent + ConvertPathSegment(trimmed, "use "))
    else
      Some(line)
  }

  /** `s` without one carriage return at its end. */
  function StripCarriageReturn(s: string): (t: string)
    ensures t <= s
  {
    if s != [] && s[|s| - 1] == '\r' then s[..|s| - 1] else s
  }

  /**
   * `str::lines`: the text split at each '\n', with a '\r' before it
   * dropped and no empty line after a final '\n'.
   */
  function Lines(s: string): (ls: seq<string>)
    ensures forall l | l in ls :: '\n' !in l
    ensures s == [] <==> ls == []
    decreases |s|
  {
    if s == [] then []
    else match Find(s, '\n')
      case None => [s]
      case Some(i) =>
        var line := StripCarriageReturn(s[..i]);
        assert forall k | 0 <= k < |line| :: line[k] == s[..i][k];
        [line] + Lines(s[i + 1..])
  }

  /** The line a converted line contributes to the output. */
  function Emitted(converted: Option<string>): string
  {
    match converted
    case Some(text) => text + "\n"
    case None => ""
  }

  /** The output for a sequence of lines: each kept converted line and a '\n'. */
  function Converted(lines: seq<string>, isExtension: bool): (out: string)
  {
    if lines == [] then ""
    else Converted(lines[..|lines| - 1], isExtension) + Emitted(ConvertLine(lines[|lines| - 1], isExtension))
  }

  /** `convert_wit`: converts the source line by line. */
  method ConvertWit(source: string, isExtension: bool) returns (output: string)
    ensures output == Converted(Lines(source), isExtension)
  {
    var lines := Lines(source);
    output := "";
    var i := 0;
    while i < |lines|
      invariant 0 <= i <= |lines|
      invariant output == Converted(lines[..i], isExtension)
    {
      ConvertedStep(lines, i, isExtension);
      var converted := ConvertLine(lines[i], isExtension);
      if converted.Some? {
        ghost var before := output;
        output := output + converted.value;
        output := output + "\n";
        Reassociate(before, converted.value, "\n");
      }
      i := i + 1;
    }
    assert lines[..i] == lines;
  }

  lemma ConvertedStep(lines: seq<string>, i: nat, isExtension: bool)
    requires i < |lines|
    ensures Converted(lines[..i + 1], isExtension)
         == Converted(lines[..i], isExtension) + Emitted(ConvertLine(lines[i], isExtension))
  {
    assert lines[..i + 1][..i] == lines[..i];
  }

  /** How many of `lines` `convert_line` keeps. */
  function Kept(lines: seq<string>, isExtension: bool): nat
  {
    if lines == [] then 0
    else Kept(lines[..|lines| - 1], isExtension) + (if ConvertLine(lines[|lines| - 1], isExtension).Some? then 1 else 0)
  }

  /** A converted line holds no line break when its source line holds none. */
  lemma ConvertedLineSingle(line: string, isExtension: bool)
    requires '\n' !in line
    ensures ConvertLine(line, isExtension).Some? ==> '\n' !in ConvertLine(line, isExtension).value
  {
    var n := IndentLength(line);
    var trimmed := line[n..];
    SliceWithout(line, 0, n, '\n');
    SliceWithout(line, n, |line|, '\n');
    RewritePackageSingle(trimmed);
    if "import " <= trimmed {
      PathSegmentSingle(trimmed, "import ");
    }
    if "use " <= trimmed {
      PathSegmentSingle(trimmed, "use ");
    }
  }

  lemma RewritePackageSingle(line: string)
    requires '\n' !in line
    ensures '\n' !in RewritePackage(line)
  {
    if "package " <= line {
      var rest := line[|"package "|..];
      SliceWithout(line, |"package "|, |line|, '\n');
      if '@' in rest {
        var at := Find(rest, '@').value;
        SliceWithout(rest, 0, at, '\n');
      }
    }
  }

  lemma PathSegmentSingle(line: string, prefix: string)
    requires prefix <= line && '\n' !in line
    ensures '\n' !in ConvertPathSegment(line, prefix)
  {
    var rest := line[|prefix|..];
    SliceWithout(line, |prefix|, |line|, '\n');
    SliceWithout(line, 0, |prefix|, '\n');
    assert line[..|prefix|] == prefix;
    if ':' in rest {
      AfterColonSingle(rest);
    }
  }

  /** What a namespaced path keeps after its colon holds no line break. */
  lemma AfterColonSingle(rest: string)
    requires ':' in rest && '\n' !in rest
    ensures '\n' !in LocalPath(rest)
  {
    var colon := Find(rest, ':').value;
    SliceWithout(rest, colon + 1, |rest|, '\n');
    SuffixRemovalKeeps(rest[colon + 1..], '\n');
    AfterFirstKeeps(WithoutVersionSuffix(rest[colon + 1..]), '/', '\n');
  }

  /** Cutting out the version suffix adds no character. */
  lemma SuffixRemovalKeeps(segment: string, c: char)
    requires c !in segment
    ensures c !in WithoutVersionSuffix(segment)
  {
    if '@' in segment {
      var at := Find(segment, '@').value;
      var e := VersionEnd(segment, at + 1);
      SliceWithout(segment, 0, at, c);
      SliceWithout(segment, e, |segment|, c);
    }
  }

  lemma AfterFirstKeeps(s: string, sep: char, c: char)
    requires c !in s
    ensures c !in AfterFirst(s, sep)
  {
    if sep in s {
      var i := Find(s, sep).value;
      SliceWithout(s, i + 1, |s|, c);
    }
  }

  /**
   * The output of `convert_wit` has one line per kept input line; an
   * extension file keeps them all.
   */
  lemma {:induction false} ConvertedLineCount(lines: seq<string>, isExtension: bool)
    requires forall l | l in lines :: '\n' !in l
    ensures Newlines(Converted(lines, isExtension)) == Kept(lines, isExtension)
    ensures isExtension ==> Kept(lines, isExtension) == |lines|
    decreases |lines|
  {
    if lines != [] {
      var last := lines[|lines| - 1];
      assert last in lines;
      assert forall l | l in lines[..|lines| - 1] :: l in lines;
      ConvertedLineCount(lines[..|lines| - 1], isExtension);
      ConvertedLineSingle(last, isExtension);
    }
  }

  /** The big-endian bytes of a `u16` (`u16::to_be_bytes`). */
  function BigEndian(v: u16): (b: seq<u8>)
    ensures |b| == 2 && b[0] as int * 0x100 + b[1] as int == v as int
  {
    [(v / 0x100) as u8, (v % 0x100) as u8]
  }

  /** The six version bytes: major, minor and patch, each big-endian. */
  function VersionBytes(major: u16, minor: u16, patch: u16): (b: seq<u8>)
    ensures |b| == 6
    ensures b[..2] == BigEndian(major) && b[2..4] == BigEndian(minor) && b[4..] == BigEndian(patch)
  {
    BigEndian(major) + BigEndian(minor) + BigEndian(patch)
  }

  /**
   * The parts of `s` between non-digit characters, as
   * `str::split(|c| !c.is_ascii_digit())` yields them.
   */
  function DigitParts(s: string): (parts: seq<string>)
    ensures |parts| >= 1
  {
    if s == [] then [""]
    else
      var rest := DigitParts(s[1..]);
      if IsDigit(s[0]) then [[s[0]] + rest[0]] + rest[1..] else [""] + rest
  }

  function DigitValue(c: char): nat
    requires IsDigit(c)
  {
    c as int - '0' as int
  }

  function DecimalValue(p: string): nat
    requires forall c | c in p :: IsDigit(c)
  {
    if p == [] then 0 else DecimalValue(p[..|p| - 1]) * 10 + DigitValue(p[|p| - 1])
  }

  /** `u16::from_str` on a run of digits: empty or too large is an error. */
  function ParseU16(p: string): (r: Option<u16>)
    ensures r.Some? ==> p != []
  {
    if p == [] || exists c | c in p :: !IsDigit(c) then None
    else if DecimalValue(p) < 0x1_0000 then Some(DecimalValue(p) as u16)
    else None
  }

  /**
   * `write_version_bytes` on the crate version: the first three digit runs
   * as `u16`s, or nothing where one is missing or out of range (the build
   * panics there).
   */
  function VersionFileContents(version: string): (r: Option<seq<u8>>)
    ensures r.Some? ==> |r.value| == 6
  {
    var parts := DigitParts(version);
    if |parts| < 3 then None
    else match (ParseU16(parts[0]), ParseU16(parts[1]), ParseU16(parts[2]))
      case (Some(major), Some(minor), Some(patch)) => Some(VersionBytes(major, minor, patch))
      case _ => None
  }

  /** The decimal digits of `n`. */
  function Decimal(n: nat): (d: string)
    ensures d != [] && forall c | c in d :: IsDigit(c)
  {
    var last := ['0' + ((n % 10) as char)];
    if n < 10 then last else Decimal(n / 10) + last
  }

  lemma {:induction false} DecimalRoundTrip(n: nat)
    ensures DecimalValue(Decimal(n)) == n
  {
    var d := Decimal(n);
    assert DigitValue(d[|d| - 1]) == n % 10;
    if n >= 10 {
      assert d[..|d| - 1] == Decimal(n / 10);
      DecimalRoundTrip(n / 10);
    } else {
      assert d[..|d| - 1] == [];
    }
  }

  /** A run of digits followed by a separator is one part. */
  lemma {:induction false} DigitPartsCons(d: string, sep: char, rest: string)
    requires forall c | c in d :: IsDigit(c)
    requires !IsDigit(sep)
    ensures DigitParts(d + [sep] + rest) == [d] + DigitParts(rest)
    decreases |d|
  {
    var s := d + [sep] + rest;
    if d == [] {
      assert s[1..] == rest;
    } else {
      assert s[1..] == d[1..] + [sep] + rest;
      assert d[0] in d;
      DigitPartsCons(d[1..], sep, rest);
      assert [d[0]] + d[1..] == d;
    }
  }

  /** A run of digits at the end is the last part. */
  lemma {:induction false} DigitPartsLast(d: string)
    requires forall c | c in d :: IsDigit(c)
    ensures DigitParts(d) == [d]
    decreases |d|
  {
    if d != [] {
      assert d[0] in d;
      DigitPartsLast(d[1..]);
      assert [d[0]] + d[1..] == d;
    }
  }

  /**
   * A version "major.minor.patch" is written as the six bytes of its
   * three numbers.
   */
  lemma VersionFileOfVersion(major: u16, minor: u16, patch: u16)
    ensures VersionFileContents(Decimal(major as nat) + "." + Decimal(minor as nat) + "." + Decimal(patch as nat))
         == Some(VersionBytes(major, minor, patch))
  {
    var a, b, c := Decimal(major as nat), Decimal(minor as nat), Decimal(patch as nat);
    DigitPartsLast(c);
    DigitPartsCons(b, '.', c);
    assert b + "." + c == b + ['.'] + c;
    assert a + "." + b + "." + c == a + ['.'] + (b + "." + c);
    DigitPartsCons(a, '.', b + "." + c);
    DecimalRoundTrip(major as nat);
    DecimalRoundTrip(minor as nat);
    DecimalRoundTrip(patch as nat);
  }
}
