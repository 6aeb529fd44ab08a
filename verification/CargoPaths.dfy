/** Crate names, versions and file paths of the sparse index, Rust RFC 2789
    (internal/registry/cargo/cargo.go). */
module CargoPaths {
  import opened Strings

  // ---- Names and paths ----

  function Norm(name: string): string {
    Lower(TrimSpace(name))
  }

  predicate NameChar(c: char) {
    IsLetter(c) || IsDigit(c) || c == '_' || c == '-'
  }

  predicate ValidName(n: string) {
    && 1 <= |n| <= 64
    && IsLetter(n[0])
    && forall i | 0 <= i < |n| :: NameChar(n[i])
  }

  predicate VersionChar(c: char) {
    IsLetter(c) || IsDigit(c) || c == '.' || c == '-'
  }

  /** What follows the leading digits. */
  function SkipDigits(s: string): (r: string)
    ensures |r| <= |s| && r == s[|s| - |r|..] && AllDigits(s[..|s| - |r|])
  {
    if s != "" && IsDigit(s[0]) then
      assert s == [s[0]] + s[1..];
      SkipDigits(s[1..])
    else s
  }

  /** One or more digits and then `next`. */
  function AfterNumber(s: string, next: char): (r: Option<string>)
    ensures r.Some? && '/' in s && next != '/' ==> '/' in r.value
  {
    var rest := SkipDigits(s);
    assert s == s[..|s| - |rest|] + rest;
    if |rest| < |s| && rest != "" && rest[0] == next then
      assert rest == [next] + rest[1..];
      Some(rest[1..])
    else None
  }

  /** `sep` and at least one version character, or nothing. */
  predicate VersionSuffix(s: string, sep: char) {
    s == "" || (|s| > 1 && s[0] == sep && forall i | 1 <= i < |s| :: VersionChar(s[i]))
  }

  /** An optional pre-release and an optional build. */
  predicate VersionTail(rest: string) {
    match IndexOf(rest, '+')
    case None => VersionSuffix(rest, '-')
    case Some(i) => VersionSuffix(rest[..i], '-') && VersionSuffix(rest[i..], '+')
  }

  /** Three numbers and a tail. */
  predicate ValidVersion(v: string) {
    match AfterNumber(v, '.')
    case None => false
    case Some(minor) =>
      match AfterNumber(minor, '.')
      case None => false
      case Some(patch) => |SkipDigits(patch)| < |patch| && VersionTail(SkipDigits(patch))
  }

  lemma {:induction false} SkipAllDigits(d: string, rest: string)
    requires AllDigits(d) && (rest == "" || !IsDigit(rest[0]))
    ensures SkipDigits(d + rest) == rest
  {
    if d == "" {
      assert d + rest == rest;
    } else {
      assert (d + rest)[1..] == d[1..] + rest;
      SkipAllDigits(d[1..], rest);
    }
  }

  lemma NumberAndDot(d: string, rest: string)
    requires d != "" && AllDigits(d)
    ensures AfterNumber(d + ("." + rest), '.') == Some(rest)
  {
    SkipAllDigits(d, "." + rest);
    assert ("." + rest)[1..] == rest;
  }

  /** A version as its pattern has it: three numbers between dots, then what a
      dash starts and what a plus starts. */
  ghost predicate Spelled(v: string, a: string, b: string, c: string, pre: string, build: string) {
    && v == a + ("." + (b + ("." + (c + (pre + build)))))
    && a != "" && b != "" && c != "" && AllDigits(a) && AllDigits(b) && AllDigits(c)
    && VersionSuffix(pre, '-') && VersionSuffix(build, '+')
  }

  /** What a dash or a plus starts has at least one more character, of these. */
  lemma SuffixExact(s: string, sep: char)
    ensures VersionSuffix(s, sep) <==>
              s == "" || (|s| >= 2 && s[0] == sep && forall c | c in s[1..] ::
                            'a' <= c <= 'z' || 'A' <= c <= 'Z' || '0' <= c <= '9' || c == '.' || c == '-')
  {
    if s != "" {
      assert forall i | 1 <= i < |s| :: s[i] == s[1..][i - 1] && s[i] in s[1..];
    }
  }

  lemma SpelledAccepted(v: string, a: string, b: string, c: string, pre: string, build: string)
    requires Spelled(v, a, b, c, pre, build)
    ensures ValidVersion(v)
  {
    NumberAndDot(a, b + ("." + (c + (pre + build))));
    NumberAndDot(b, c + (pre + build));
    TailOf(pre, build);
    SkipAllDigits(c, pre + build);
  }

  lemma VersionSpells(v: string)
    returns (a: string, b: string, c: string, pre: string, build: string)
    requires ValidVersion(v)
    ensures Spelled(v, a, b, c, pre, build)
  {
    var minor, patch;
    a, minor := NumberCut(v);
    b, patch := NumberCut(minor);
    c, pre, build := PatchCut(patch);
  }

  lemma PatchCut(patch: string) returns (c: string, pre: string, build: string)
    requires |SkipDigits(patch)| < |patch| && VersionTail(SkipDigits(patch))
    ensures patch == c + (pre + build) && c != "" && AllDigits(c)
    ensures VersionSuffix(pre, '-') && VersionSuffix(build, '+')
  {
    var tail := SkipDigits(patch);
    c := patch[..|patch| - |tail|];
    pre, build := TailCut(tail);
    assert patch == c + tail;
  }

  /** The scan accepts exactly the versions spelled so. */
  lemma ValidVersionExact(v: string)
    ensures ValidVersion(v) <==> exists a, b, c, pre, build :: Spelled(v, a, b, c, pre, build)
  {
    if a, b, c, pre, build :| Spelled(v, a, b, c, pre, build) {
      SpelledAccepted(v, a, b, c, pre, build);
    }
    if ValidVersion(v) {
      var a, b, c, pre, build := VersionSpells(v);
    }
  }

  lemma TailOf(pre: string, build: string)
    requires VersionSuffix(pre, '-') && VersionSuffix(build, '+')
    ensures VersionTail(pre + build)
    ensures pre + build == "" || !IsDigit((pre + build)[0])
  {
    assert '+' !in pre;
    if build != "" {
      IndexOfUnique(pre + build, '+', |pre|);
      assert (pre + build)[..|pre|] == pre && (pre + build)[|pre|..] == build;
    } else {
      assert pre + build == pre;
    }
  }

  lemma TailCut(tail: string) returns (pre: string, build: string)
    requires VersionTail(tail)
    ensures tail == pre + build && VersionSuffix(pre, '-') && VersionSuffix(build, '+')
  {
    match IndexOf(tail, '+') {
      case None => pre, build := tail, "";
      case Some(i) => pre, build := tail[..i], tail[i..];
    }
  }

  lemma NumberCut(s: string) returns (d: string, rest: string)
    requires AfterNumber(s, '.').Some?
    ensures AfterNumber(s, '.') == Some(rest) && d != "" && AllDigits(d) && s == d + ("." + rest)
  {
    var left := SkipDigits(s);
    d, rest := s[..|s| - |left|], left[1..];
    assert left == "." + rest;
    assert s == d + left;
  }

  function PrefixOf(name: string): string {
    match |name|
    case 0 => ""
    case 1 => "1"
    case 2 => "2"
    case 3 => "3/" + name[..1]
    case _ => name[..2] + "/" + name[2..4]
  }

  function IndexPath(name: string): string {
    var n := Norm(name);
    if n == "" then "" else PrefixOf(n) + "/" + n
  }

  /** "/se/rd/serde" to "serde". */
  function ParseIndexPath(p: string): Option<string> {
    var path := Lower(Trim(p, '/'));
    if '/' !in path then None
    else
      var name := AfterLast(path, '/');
      if !ValidName(name) || IndexPath(name) != path then None else Some(name)
  }

  function CratePath(n: string, v: string): string {
    "crates/" + n + "/" + v + "/" + n + "-" + v + ".crate"
  }

  /** White space around a name and letter case do not matter. */
  lemma NormExact(left: string, name: string, right: string)
    requires Blank(left) && Blank(right) && Trimmed(name) && name != ""
    ensures Norm(left + name + right) == Lower(name)
  {
    TrimSpaceBetween(left, name, right);
  }

  /** Which names can be published. */
  lemma ValidNameExact(n: string)
    ensures ValidName(n) <==>
              && n != "" && |n| < 65 && ('a' <= n[0] <= 'z' || 'A' <= n[0] <= 'Z')
              && forall c | c in n ::
                   'a' <= c <= 'z' || 'A' <= c <= 'Z' || '0' <= c <= '9' || c == '_' || c == '-'
  {
    assert forall i | 0 <= i < |n| :: n[i] in n;
  }

  lemma LowerValidName(n: string)
    requires ValidName(n)
    ensures ValidName(Lower(n)) && '/' !in Lower(n) && Trimmed(n)
  {
  }

  lemma ValidNameNorm(n: string)
    requires ValidName(n)
    ensures Norm(n) == Lower(n)
    ensures ValidName(Norm(n)) && '/' !in Norm(n)
  {
    LowerValidName(n);
    TrimSpaceOfTrimmed(n);
  }

  lemma ValidVersionNoSlash(v: string)
    requires ValidVersion(v)
    ensures '/' !in v && v != ""
  {
    var patch := AfterNumber(AfterNumber(v, '.').value, '.').value;
    DigitsNoSlash(patch);
    TailNoSlash(SkipDigits(patch));
  }

  lemma TailNoSlash(rest: string)
    requires VersionTail(rest)
    ensures '/' !in rest
  {
    match IndexOf(rest, '+') {
      case None => SuffixNoSlash(rest, '-');
      case Some(i) =>
        SuffixNoSlash(rest[..i], '-');
        SuffixNoSlash(rest[i..], '+');
        assert rest == rest[..i] + rest[i..];
    }
  }

  lemma DigitsNoSlash(s: string)
    ensures '/' in s ==> '/' in SkipDigits(s)
  {
    var rest := SkipDigits(s);
    assert s == s[..|s| - |rest|] + rest;
  }

  lemma SuffixNoSlash(s: string, sep: char)
    requires VersionSuffix(s, sep) && sep != '/'
    ensures '/' !in s
  {
  }

  lemma IndexPathEnds(name: string)
    requires ValidName(name)
    ensures AfterLast(IndexPath(name), '/') == Norm(name)
  {
    ValidNameNorm(name);
    var n := Norm(name);
    assert IndexPath(name) == PrefixOf(n) + ['/'] + n;
    AfterLastOf(PrefixOf(n), n, '/');
  }

  /** The index file of a name is found again under its URL path, and a path is
      accepted only if it is the index file's own, in any letter case. */
  lemma IndexPathInverse(p: string, n: string)
    ensures ParseIndexPath(p) == Some(n) <==>
              ValidName(n) && Lower(n) == n && Lower(Trim(p, '/')) == IndexPath(n)
  {
    if ValidName(n) && Lower(n) == n && Lower(Trim(p, '/')) == IndexPath(n) {
      OwnPathParsed(p, n);
    }
    if ParseIndexPath(p) == Some(n) {
      LowerIdempotent(Trim(p, '/'));
      AfterLastLower(Lower(Trim(p, '/')));
    }
  }

  lemma OwnPathParsed(p: string, n: string)
    requires ValidName(n) && Lower(n) == n && Lower(Trim(p, '/')) == IndexPath(n)
    ensures ParseIndexPath(p) == Some(n)
  {
    IndexPathEnds(n);
    ValidNameNorm(n);
    IndexPathSlash(n);
  }

  lemma IndexPathSlash(n: string)
    requires ValidName(n)
    ensures '/' in IndexPath(n)
  {
    ValidNameNorm(n);
    assert IndexPath(n)[|PrefixOf(Norm(n))|] == '/';
  }

  lemma {:induction false} AfterLastLower(s: string)
    requires Lower(s) == s
    ensures Lower(AfterLast(s, '/')) == AfterLast(s, '/')
  {
    if '/' in s {
      assert s == [s[0]] + s[1..];
      AfterLastLower(s[1..]);
    }
  }

  lemma IndexPathServed(name: string)
    requires ValidName(name)
    ensures ParseIndexPath("/" + IndexPath(name)) == Some(Norm(name))
  {
    ValidNameNorm(name);
    var n := Norm(name);
    LowerIdempotent(name);
    ValidNameNorm(n);
    LowerOfIndexPath(n);
    TrimOneSlash(IndexPath(n));
    IndexPathInverse("/" + IndexPath(name), n);
  }

  lemma LowerOfIndexPath(n: string)
    requires ValidName(n) && Lower(n) == n && Norm(n) == n
    ensures Lower(IndexPath(n)) == IndexPath(n)
    ensures IndexPath(n)[0] != '/' && IndexPath(n)[|IndexPath(n)| - 1] != '/'
  {
    var p := IndexPath(n);
    assert forall i | 0 <= i < |n| :: LowerChar(n[i]) == n[i];
    assert forall i | 0 <= i < |p| :: LowerChar(p[i]) == p[i];
  }

  lemma TrimOneSlash(p: string)
    requires p != "" && p[0] != '/' && p[|p| - 1] != '/'
    ensures Trim("/" + p, '/') == p
  {
    assert ("/" + p)[1..] == p;
    assert TrimLeft("/" + p, '/') == TrimLeft(p, '/') == p;
  }

  lemma CratePathParts(a: string, v: string, b: string, w: string)
    requires '/' !in a && '/' !in b && '/' !in v && '/' !in w && CratePath(a, v) == CratePath(b, w)
    ensures a == b && v == w
  {
    var x, y := a + "-" + v + ".crate", b + "-" + w + ".crate";
    assert CratePath(a, v)[7..] == a + ['/'] + (v + ['/'] + x);
    assert CratePath(b, w)[7..] == b + ['/'] + (w + ['/'] + y);
    CutUnique(a, v + ['/'] + x, b, w + ['/'] + y, '/');
    CutUnique(v, x, w, y, '/');
  }

  // ---- Store paths ----

  /** One step of `path.Clean` on a path below the root of the store. */
  function Push(stack: seq<string>, segment: string): seq<string> {
    if segment == "" || segment == "." then stack
    else if segment == ".." then (if stack == [] then [] else stack[..|stack| - 1])
    else stack + [segment]
  }

  function CleanSegments(segments: seq<string>): seq<string> {
    if segments == [] then []
    else Push(CleanSegments(segments[..|segments| - 1]), segments[|segments| - 1])
  }

  /** The file a relative path names: `path.Join`, and then `Store.Join`, which
      drops every ".." at the root. */
  function Clean(p: string): string {
    Join(CleanSegments(Split(p, '/')), '/')
  }

  /** The files of a crate by its normalised name. */
  function IndexFile(n: string): string {
    Clean("index/" + PrefixOf(n) + "/" + n)
  }

  function CrateFile(n: string, version: string): string {
    Clean(CratePath(n, version))
  }

  function MetaPath(n: string, version: string): string {
    "meta/" + n + "/" + version + ".json"
  }

  function StoredIndex(name: string): string {
    IndexFile(Norm(name))
  }

  function StoredCrate(name: string, version: string): string {
    CrateFile(Norm(name), version)
  }

  function StoredMeta(name: string, version: string): string {
    Clean(MetaPath(Norm(name), version))
  }

  function StoredOwners(name: string): string {
    Clean(MetaPath(Norm(name), "owners"))
  }

  /** A segment cleaning leaves alone. */
  predicate PlainSegment(s: string) {
    s != "" && s != "." && s != ".." && '/' !in s
  }

  ghost predicate PlainSegments(segments: seq<string>) {
    forall s | s in segments :: PlainSegment(s)
  }

  lemma CleanSegmentsSnoc(segments: seq<string>, s: string)
    ensures CleanSegments(segments + [s]) == Push(CleanSegments(segments), s)
  {
    assert (segments + [s])[..|segments|] == segments;
  }

  lemma {:induction false} PlainSegmentsKept(segments: seq<string>)
    requires PlainSegments(segments)
    ensures CleanSegments(segments) == segments
  {
    if segments != [] {
      var n := |segments| - 1;
      assert segments == segments[..n] + [segments[n]];
      assert segments[n] in segments;
      PlainSegmentsKept(segments[..n]);
    }
  }

  /** How cleaning works: empty segments and "." count for nothing, ".." takes
      away the segment before it, and at the root nothing. */
  lemma CleanDrops(a: seq<string>, s: string, b: seq<string>)
    ensures s == "" || s == "." ==> CleanSegments(a + [s] + b) == CleanSegments(a + b)
    ensures PlainSegment(s) ==> CleanSegments(a + [s] + [".."] + b) == CleanSegments(a + b)
    ensures s == ".." ==> CleanSegments([s] + b) == CleanSegments(b)
  {
    CleanSegmentsSnoc(a, s);
    CleanSegmentsSnoc(a + [s], "..");
    if s == "" || s == "." {
      SameCleaned(a + [s], a, b);
    }
    if PlainSegment(s) {
      SameCleaned(a + [s] + [".."], a, b);
    }
    if s == ".." {
      CleanSegmentsSnoc([], s);
      assert [] + [s] == [s];
      SameCleaned([s], [], b);
      assert [] + b == b;
    }
  }

  lemma {:induction false} SameCleaned(a: seq<string>, a': seq<string>, b: seq<string>)
    requires CleanSegments(a) == CleanSegments(a')
    ensures CleanSegments(a + b) == CleanSegments(a' + b)
  {
    if b == [] {
      assert a + b == a && a' + b == a';
    } else {
      var n := |b| - 1;
      SameCleaned(a, a', b[..n]);
      assert a + b == (a + b[..n]) + [b[n]] && a' + b == (a' + b[..n]) + [b[n]];
      CleanSegmentsSnoc(a + b[..n], b[n]);
      CleanSegmentsSnoc(a' + b[..n], b[n]);
    }
  }

  /** What is left has no empty segments, "." or "..", and is clean. */
  lemma {:induction false} CleanedPlain(segments: seq<string>)
    requires Free(segments, '/')
    ensures PlainSegments(CleanSegments(segments))
  {
    if segments != [] {
      var n := |segments| - 1;
      assert segments[n] in segments;
      assert forall s | s in segments[..n] :: s in segments;
      CleanedPlain(segments[..n]);
    }
  }

  lemma CleanTwice(p: string)
    ensures Clean(Clean(p)) == Clean(p)
  {
    JoinSplit(p, '/');
    CleanedPlain(Split(p, '/'));
    var cleaned := CleanSegments(Split(p, '/'));
    if cleaned == [] {
      assert Clean(p) == "" && Split("", '/') == [""];
      CleanSegmentsSnoc([], "");
      assert [] + [""] == [""];
    } else {
      CleanJoined(cleaned);
    }
  }

  lemma CleanJoined(segments: seq<string>)
    requires segments != [] && PlainSegments(segments)
    ensures Clean(Join(segments, '/')) == Join(segments, '/')
  {
    assert Free(segments, '/');
    SplitJoin(segments, '/');
    PlainSegmentsKept(segments);
  }

  /** The last segment of a path stays its last. */
  lemma CleanEnds(dir: string, last: string)
    requires PlainSegment(last)
    ensures AfterLast(Clean(dir + "/" + last), '/') == last
  {
    SplitConcat(dir, last, '/');
    SplitJoin([last], '/');
    assert dir + "/" + last == dir + ['/'] + last;
    CleanSegmentsSnoc(Split(dir, '/'), last);
    var front := CleanSegments(Split(dir, '/'));
    if front == [] {
      assert front + [last] == [last];
    } else {
      JoinSnoc(front, last, '/');
      AfterLastOf(Join(front, '/'), last, '/');
    }
  }

  lemma {:induction false} LastSegment(p: string)
    requires '/' in p
    ensures exists dir :: p == dir + "/" + AfterLast(p, '/')
  {
    if '/' in p[1..] {
      LastSegment(p[1..]);
      var dir :| p[1..] == dir + "/" + AfterLast(p[1..], '/');
      assert p == ([p[0]] + dir) + "/" + AfterLast(p, '/');
    } else {
      assert p == [p[0]] + p[1..];
      assert p == "" + "/" + AfterLast(p, '/');
    }
  }

  predicate EndsWith(s: string, ending: string) {
    |ending| <= |s| && s[|s| - |ending|..] == ending
  }

  lemma {:induction false} AfterLastEndsWith(s: string, ending: string)
    requires '/' !in ending
    ensures EndsWith(AfterLast(s + ending, '/'), ending)
  {
    var p := s + ending;
    if s == "" {
      assert p == ending;
    } else if '/' in p {
      assert p[1..] == s[1..] + ending;
      AfterLastEndsWith(s[1..], ending);
    }
  }

  /** An extension is kept, whatever the rest of the path. */
  lemma CleanKeepsEnding(s: string, ending: string)
    requires '/' in s && '/' !in ending && |ending| > 2
    ensures EndsWith(AfterLast(Clean(s + ending), '/'), ending)
  {
    var last := AfterLast(s + ending, '/');
    AfterLastEndsWith(s, ending);
    LastSegment(s + ending);
    var dir :| s + ending == dir + "/" + last;
    CleanEnds(dir, last);
  }

  lemma CrateFileEnding(n: string, version: string)
    ensures EndsWith(AfterLast(CrateFile(n, version), '/'), ".crate")
  {
    var rest := "crates/" + n + "/" + version + "/" + n + "-" + version;
    assert CratePath(n, version) == rest + ".crate" && rest[6] == '/';
    CleanKeepsEnding(rest, ".crate");
  }

  lemma MetaFileEnding(n: string, version: string)
    ensures EndsWith(AfterLast(Clean(MetaPath(n, version)), '/'), ".json")
  {
    var rest := "meta/" + n + "/" + version;
    assert MetaPath(n, version) == rest + ".json" && rest[4] == '/';
    CleanKeepsEnding(rest, ".json");
  }

  lemma EndingsDiffer(s: string)
    ensures !(EndsWith(s, ".json") && EndsWith(s, ".crate"))
    ensures EndsWith(s, ".json") || EndsWith(s, ".crate") ==> '.' in s
  {
    if EndsWith(s, ".json") {
      assert s[|s| - 5] == ".json"[0] && s[|s| - 1] == ".json"[4];
    }
    if EndsWith(s, ".crate") {
      assert s[|s| - 6] == ".crate"[0] && s[|s| - 1] == ".crate"[5];
    }
  }

  // ---- Plain names ----

  /** Without separators and dots: every valid name, and many more. */
  predicate PlainName(n: string) {
    n != "" && '/' !in n && '.' !in n
  }

  lemma PlainNameNorm(name: string)
    requires '/' !in name && '.' !in name
    ensures '/' !in Norm(name) && '.' !in Norm(name)
  {
    LowerKeepsAbsent(TrimSpace(name));
  }

  lemma {:induction false} LowerKeepsAbsent(s: string)
    requires '/' !in s && '.' !in s
    ensures '/' !in Lower(s) && '.' !in Lower(s)
  {
    if s != "" {
      assert s == [s[0]] + s[1..];
      LowerKeepsAbsent(s[1..]);
    }
  }

  lemma JoinTwo(a: string, b: string)
    ensures Join([a, b], '/') == a + "/" + b
  {
    assert [a, b][1..] == [b];
  }

  lemma JoinThree(a: string, b: string, c: string)
    ensures Join([a, b, c], '/') == a + "/" + b + "/" + c
  {
    assert [a, b, c][1..] == [b, c];
    JoinTwo(b, c);
  }

  lemma JoinFour(a: string, b: string, c: string, d: string)
    ensures Join([a, b, c, d], '/') == a + "/" + b + "/" + c + "/" + d
  {
    assert [a, b, c, d][1..] == [b, c, d];
    JoinThree(b, c, d);
  }

  lemma CleanThree(a: string, b: string, c: string)
    requires PlainSegment(a) && PlainSegment(b) && PlainSegment(c)
    ensures Clean(a + "/" + b + "/" + c) == a + "/" + b + "/" + c
  {
    JoinThree(a, b, c);
    CleanJoined([a, b, c]);
  }

  lemma CleanFour(a: string, b: string, c: string, d: string)
    requires PlainSegment(a) && PlainSegment(b) && PlainSegment(c) && PlainSegment(d)
    ensures Clean(a + "/" + b + "/" + c + "/" + d) == a + "/" + b + "/" + c + "/" + d
  {
    JoinFour(a, b, c, d);
    CleanJoined([a, b, c, d]);
  }

  lemma PlainPart(n: string, i: nat, j: nat)
    requires PlainName(n) && i < j <= |n|
    ensures PlainSegment(n[i..j])
  {
    assert n[i..j][0] == n[i] && n[i] in n;
    assert forall c | c in n[i..j] :: c in n;
  }

  lemma PlainNameSegment(n: string)
    requires PlainName(n)
    ensures PlainSegment(n)
  {
    PlainPart(n, 0, |n|);
    assert n[0..|n|] == n;
  }

  /** The index file of a plain name is where its path says, under its name. */
  lemma IndexFilePlain(n: string)
    requires PlainName(n)
    ensures IndexFile(n) == "index/" + PrefixOf(n) + "/" + n
    ensures AfterLast(IndexFile(n), '/') == n
  {
    PlainNameSegment(n);
    CleanEnds("index/" + PrefixOf(n), n);
    if |n| <= 2 {
      ThreeIsIndex(PrefixOf(n), n);
    } else if |n| == 3 {
      PlainPart(n, 0, 1);
      assert n[0..1] == n[..1] && PrefixOf(n) == "3" + "/" + n[..1];
      FourIsIndex("3", n[..1], n);
    } else {
      PlainPart(n, 0, 2);
      PlainPart(n, 2, 4);
      assert n[0..2] == n[..2];
      FourIsIndex(n[..2], n[2..4], n);
    }
  }

  lemma ThreeIsIndex(a: string, n: string)
    requires PlainSegment(a) && PlainSegment(n)
    ensures Clean("index/" + a + "/" + n) == "index/" + a + "/" + n
  {
    CleanThree("index", a, n);
    assert "index" + "/" + a + "/" + n == "index/" + a + "/" + n;
  }

  lemma FourIsIndex(a: string, b: string, n: string)
    requires PlainSegment(a) && PlainSegment(b) && PlainSegment(n)
    ensures Clean("index/" + (a + "/" + b) + "/" + n) == "index/" + (a + "/" + b) + "/" + n
  {
    CleanFour("index", a, b, n);
    assert "index" + "/" + a + "/" + b + "/" + n == "index/" + (a + "/" + b) + "/" + n;
  }

  lemma ValidNamePlain(name: string)
    requires ValidName(name)
    ensures PlainName(Norm(name))
  {
    ValidNameNorm(name);
    ValidIsPlain(Norm(name));
  }

  lemma ValidIsPlain(n: string)
    requires ValidName(n)
    ensures PlainName(n)
  {
  }

  lemma PlainVersion(v: string)
    requires ValidVersion(v)
    ensures PlainSegment(v)
  {
    ValidVersionNoSlash(v);
    assert IsDigit(v[0]);
  }

  lemma CrateNamePlain(n: string, version: string)
    requires PlainName(n) && PlainSegment(version)
    ensures PlainSegment(n + "-" + version + ".crate")
  {
    assert '/' !in ".crate" && '/' !in "-";
  }

  /** The crate file of a plain name and version is where its path says. */
  lemma CrateFilePlain(n: string, version: string)
    requires PlainName(n) && PlainSegment(version)
    ensures CrateFile(n, version) == CratePath(n, version)
  {
    PlainNameSegment(n);
    CrateNamePlain(n, version);
    var file := n + "-" + version + ".crate";
    CleanFour("crates", n, version, file);
    assert CratePath(n, version) == "crates" + "/" + n + "/" + version + "/" + file;
  }

  lemma MetaNamePlain(version: string)
    requires PlainSegment(version)
    ensures PlainSegment(version + ".json")
  {
    assert '/' !in ".json";
  }

  /** The metadata of a plain name and version stays in its own directory. */
  lemma MetaFilePlain(n: string, version: string)
    requires PlainName(n) && PlainSegment(version)
    ensures Clean(MetaPath(n, version)) == MetaPath(n, version)
  {
    PlainNameSegment(n);
    MetaNamePlain(version);
    CleanThree("meta", n, version + ".json");
    assert MetaPath(n, version) == "meta" + "/" + n + "/" + (version + ".json");
  }

  /** Where a valid crate lives, by its name in lower case: the index under its
      length or its first letters, the crate and the metadata under name and
      version. */
  lemma IndexHome(name: string)
    requires ValidName(name)
    ensures var n := Lower(name);
            var dirs := if |n| == 1 then "1" else if |n| == 2 then "2" else if |n| == 3 then "3/" + n[..1]
                        else n[..2] + "/" + n[2..4];
            StoredIndex(name) == "index/" + dirs + "/" + n
  {
    ValidNamePlain(name);
    ValidNameNorm(name);
    IndexFilePlain(Norm(name));
  }

  lemma CrateHome(name: string, version: string)
    requires ValidName(name) && ValidVersion(version)
    ensures var n := Lower(name);
            StoredCrate(name, version) == "crates/" + n + "/" + version + "/" + n + "-" + version + ".crate"
  {
    ValidNamePlain(name);
    ValidNameNorm(name);
    PlainVersion(version);
    CrateFilePlain(Norm(name), version);
  }

  lemma MetaHome(name: string, version: string)
    requires ValidName(name) && ValidVersion(version)
    ensures StoredMeta(name, version) == "meta/" + Lower(name) + "/" + version + ".json"
    ensures StoredOwners(name) == "meta/" + Lower(name) + "/" + "owners" + ".json"
  {
    ValidNamePlain(name);
    ValidNameNorm(name);
    PlainVersion(version);
    OwnersSegment("owners");
    PlainMetaHome(Norm(name), version);
    PlainMetaHome(Norm(name), "owners");
  }

  lemma OwnersSegment(s: string)
    requires s == "owners"
    ensures PlainSegment(s)
  {
    assert |s| == 6;
  }

  lemma PlainMetaHome(n: string, version: string)
    requires PlainName(n) && PlainSegment(version)
    ensures Clean(MetaPath(n, version)) == "meta/" + n + "/" + version + ".json"
  {
    MetaFilePlain(n, version);
  }

  /** Two valid crate files are the same only for one crate and one version. */
  lemma StoredCrateInjective(n1: string, v1: string, n2: string, v2: string)
    requires ValidName(n1) && ValidName(n2) && ValidVersion(v1) && ValidVersion(v2)
    ensures StoredCrate(n1, v1) == StoredCrate(n2, v2) <==> StoredIndex(n1) == StoredIndex(n2) && v1 == v2
  {
    ValidNamePlain(n1);
    ValidNamePlain(n2);
    PlainVersion(v1);
    PlainVersion(v2);
    PlainCratesInjective(Norm(n1), v1, Norm(n2), v2);
  }

  lemma PlainCratesInjective(n: string, v: string, m: string, w: string)
    requires PlainName(n) && PlainName(m) && PlainSegment(v) && PlainSegment(w)
    ensures CrateFile(n, v) == CrateFile(m, w) <==> IndexFile(n) == IndexFile(m) && v == w
  {
    IndexFilePlain(n);
    IndexFilePlain(m);
    CrateFilePlain(n, v);
    CrateFilePlain(m, w);
    if CratePath(n, v) == CratePath(m, w) {
      CratePathParts(n, v, m, w);
    }
  }

  /** No crate or metadata file is the index file of a plain name, and no
      metadata file a crate file, whatever name they are made from. */
  lemma FilesApart(n: string, v: string, m: string, w: string)
    requires PlainName(m)
    ensures CrateFile(n, v) != IndexFile(m) && Clean(MetaPath(n, v)) != IndexFile(m)
    ensures Clean(MetaPath(n, v)) != CrateFile(m, w)
  {
    IndexFilePlain(m);
    CrateFileEnding(n, v);
    CrateFileEnding(m, w);
    MetaFileEnding(n, v);
    EndingsDiffer(AfterLast(CrateFile(n, v), '/'));
    EndingsDiffer(AfterLast(Clean(MetaPath(n, v)), '/'));
  }

  // ---- A name with a trailing slash ----

  lemma CleanTrailingSlash(p: string)
    ensures Clean(p + "/") == Clean(p)
  {
    SplitConcat(p, "", '/');
    assert p + "/" == p + ['/'] + "";
    assert Split("", '/') == [""];
    CleanSegmentsSnoc(Split(p, '/'), "");
  }

  /** A name of four letters or more with "/" behind it has the same index file. */
  lemma TrailingSlashIndex(n: string)
    requires |n| >= 4
    ensures IndexFile(n + "/") == IndexFile(n)
  {
    var m := n + "/";
    assert m[..2] == n[..2] && m[2..4] == n[2..4];
    assert PrefixOf(m) == PrefixOf(n);
    assert "index/" + PrefixOf(m) + "/" + m == "index/" + PrefixOf(n) + "/" + n + "/";
    CleanTrailingSlash("index/" + PrefixOf(n) + "/" + n);
  }

  lemma DashedName(n: string, version: string)
    requires PlainSegment(version)
    ensures PlainSegment("-" + version + ".crate")
  {
    assert '/' !in ".crate" && '/' !in "-";
  }

  /** But another crate file. */
  lemma TrailingSlashCrate(n: string, version: string)
    requires PlainName(n) && PlainSegment(version)
    ensures CrateFile(n + "/", version) != CrateFile(n, version)
  {
    var wrong, right := "-" + version + ".crate", n + "-" + version + ".crate";
    DashedName(n, version);
    CrateNamePlain(n, version);
    SplitCratePath(n, version);
    CleanEnds("crates/" + (n + "/") + "/" + version + "/" + n, wrong);
    CleanEnds("crates/" + n + "/" + version, right);
    assert |wrong| < |right|;
  }

  lemma SplitCratePath(n: string, version: string)
    ensures CratePath(n, version) == "crates/" + n + "/" + version + "/" + (n + "-" + version + ".crate")
    ensures CratePath(n + "/", version)
         == "crates/" + (n + "/") + "/" + version + "/" + n + "/" + ("-" + version + ".crate")
  {
  }
}
