/** Package control stanzas and pool file names (internal/registry/apt/deb.go). */
module AptControl {
  import opened Strings
  import opened Sorting
  import opened Deb822

  // ---- Stanzas ----

  /** `strings.EqualFold`, on ASCII. */
  predicate SameKey(a: string, b: string) {
    Lower(a) == Lower(b)
  }

  function HasKey(k: string): Field -> bool {
    (f: Field) => SameKey(f.k, k)
  }

  /** The value of the first field with the key, or nothing. */
  function Get(s: Stanza, k: string): string {
    if s == [] then "" else if SameKey(s[0].k, k) then s[0].v else Get(s[1..], k)
  }

  predicate OneOf(k: string, keys: seq<string>) {
    exists i | 0 <= i < |keys| :: SameKey(k, keys[i])
  }

  function NotOneOf(keys: seq<string>): Field -> bool {
    (f: Field) => !OneOf(f.k, keys)
  }

  method KeyAmong(k: string, keys: seq<string>) returns (found: bool)
    ensures found == OneOf(k, keys)
  {
    for j := 0 to |keys|
      invariant forall i | 0 <= i < j :: !SameKey(k, keys[i])
    {
      if SameKey(k, keys[j]) {
        return true;
      }
    }
    return false;
  }

  method Without(s: Stanza, keys: seq<string>) returns (out: Stanza)
    ensures out == Filter(NotOneOf(keys), s)
  {
    out := [];
    for i := 0 to |s|
      invariant out == Filter(NotOneOf(keys), s[..i])
    {
      TakeNext(s, i);
      var drop := KeyAmong(s[i].k, keys);
      if !drop {
        out := out + [s[i]];
      }
    }
    assert s[..|s|] == s;
  }

  /** How many fields have the key. */
  function Count(s: Stanza, k: string): nat {
    |Filter(HasKey(k), s)|
  }

  // ---- Valid controls ----

  predicate NameChar(c: char) {
    'a' <= c <= 'z' || IsDigit(c) || c == '+' || c == '.' || c == '-'
  }

  predicate ReName(s: string) {
    |s| >= 2 && ('a' <= s[0] <= 'z' || IsDigit(s[0])) && forall i | 0 <= i < |s| :: NameChar(s[i])
  }

  predicate VersionChar(c: char) {
    IsLetter(c) || IsDigit(c) || c == '.' || c == '+' || c == '~' || c == ':' || c == '-'
  }

  predicate ReVersion(s: string) {
    s != "" && forall i | 0 <= i < |s| :: VersionChar(s[i])
  }

  predicate ReArch(s: string) {
    s != "" && forall i | 0 <= i < |s| :: 'a' <= s[i] <= 'z' || IsDigit(s[i]) || s[i] == '-'
  }

  predicate SegmentChar(c: char) {
    IsLetter(c) || IsDigit(c) || c == '.' || c == '_' || c == '-'
  }

  /** A distribution or a component. */
  predicate ReSegment(s: string) {
    s != "" && (IsLetter(s[0]) || IsDigit(s[0])) && forall i | 0 <= i < |s| :: SegmentChar(s[i])
  }

  const STRIPPED: seq<string> := ["Package", "Filename", "Size", "MD5sum", "SHA1", "SHA256", "SHA512"]

  /** The control with its package first, and without the fields an index adds. */
  method ValidateControl(s: Stanza) returns (r: Option<Stanza>)
    ensures r == ValidControl(s)
  {
    var name, ver, arch := Get(s, "Package"), Get(s, "Version"), Get(s, "Architecture");
    if !ReName(name) {
      return None;
    }
    if !ReVersion(ver) {
      return None;
    }
    if !ReArch(arch) {
      return None;
    }
    var rest := Without(s, STRIPPED);
    return Some([Field("Package", name)] + rest);
  }

  function ValidControl(s: Stanza): Option<Stanza> {
    if ReName(Get(s, "Package")) && ReVersion(Get(s, "Version")) && ReArch(Get(s, "Architecture"))
    then Some([Field("Package", Get(s, "Package"))] + Filter(NotOneOf(STRIPPED), s))
    else None
  }

  lemma CountStripped(s: Stanza, keys: seq<string>, k: string)
    requires OneOf(k, keys)
    ensures Count(Filter(NotOneOf(keys), s), k) == 0
  {
    var kept := Filter(NotOneOf(keys), s);
    assert forall f | f in kept :: !SameKey(f.k, k);
    FilterNone(HasKey(k), kept);
  }

  lemma {:induction false} GetStripped(s: Stanza, keys: seq<string>, k: string)
    requires !OneOf(k, keys)
    ensures Get(Filter(NotOneOf(keys), s), k) == Get(s, k)
  {
    if s != [] {
      GetStripped(s[1..], keys, k);
      FilterStep(NotOneOf(keys), s);
      var kept := Filter(NotOneOf(keys), s[1..]);
      assert ([s[0]] + kept)[1..] == kept;
      assert [] + kept == kept;
    }
  }

  /** A validated control has exactly one Package field, its first, none of the
      fields an index adds, and every other value unchanged. */
  lemma ValidControlShape(s: Stanza, k: string)
    requires ValidControl(s).Some?
    ensures var out := ValidControl(s).value;
            && out[0] == Field("Package", Get(s, "Package"))
            && Count(out, "Package") == 1
            && (OneOf(k, STRIPPED) && !SameKey(k, "Package") ==> Count(out, k) == 0)
            && (!OneOf(k, STRIPPED) || SameKey(k, "Package") ==> Get(out, k) == Get(s, k))
  {
    var first, rest := Field("Package", Get(s, "Package")), Filter(NotOneOf(STRIPPED), s);
    var out := [first] + rest;
    assert out[1..] == rest;
    FilterStep(HasKey("Package"), out);
    FilterStep(HasKey(k), out);
    assert SameKey("Package", STRIPPED[0]);
    CountStripped(s, STRIPPED, "Package");
    if OneOf(k, STRIPPED) {
      CountStripped(s, STRIPPED, k);
    } else {
      GetStripped(s, STRIPPED, k);
    }
    if SameKey(k, "Package") {
      GetSameKey(s, k, "Package");
    }
  }

  lemma GetSameKey(s: Stanza, k: string, k': string)
    requires SameKey(k, k')
    ensures Get(s, k) == Get(s, k')
  {
  }

  /** The value read is that of the first field with the key, in any letter
      case. */
  lemma {:induction false} GetFirst(s: Stanza, k: string) returns (i: nat)
    ensures i <= |s| && forall j | 0 <= j < i :: Lower(s[j].k) != Lower(k)
    ensures i < |s| ==> Lower(s[i].k) == Lower(k)
    ensures Get(s, k) == if i < |s| then s[i].v else ""
  {
    i := 0;
    if s != [] && !SameKey(s[0].k, k) {
      i := GetFirst(s[1..], k);
      i := i + 1;
      forall j | 0 <= j < i
        ensures Lower(s[j].k) != Lower(k)
      {
        assert j > 0 ==> s[j] == s[1..][j - 1];
      }
    }
  }

  /** Which controls are accepted, character by character. */
  lemma AcceptedExact(s: Stanza)
    ensures ValidControl(s).Some? <==>
              var n, v, a := Get(s, "Package"), Get(s, "Version"), Get(s, "Architecture");
              && |n| >= 2 && n[0] != '+' && n[0] != '.' && n[0] != '-'
              && (forall c | c in n :: 'a' <= c <= 'z' || '0' <= c <= '9' || c in "+.-")
              && v != "" && (forall c | c in v :: 'a' <= c <= 'z' || 'A' <= c <= 'Z' || '0' <= c <= '9' || c in ".+~:-")
              && a != "" && (forall c | c in a :: 'a' <= c <= 'z' || '0' <= c <= '9' || c == '-')
  {
    var n, v, a := Get(s, "Package"), Get(s, "Version"), Get(s, "Architecture");
    NameExact(n);
    VersionExact(v);
    ArchExact(a);
  }

  lemma NameExact(n: string)
    ensures ReName(n) <==>
              && |n| >= 2 && n[0] != '+' && n[0] != '.' && n[0] != '-'
              && forall c | c in n :: 'a' <= c <= 'z' || '0' <= c <= '9' || c in "+.-"
  {
    forall i | 0 <= i < |n|
      ensures NameChar(n[i]) <==> 'a' <= n[i] <= 'z' || '0' <= n[i] <= '9' || n[i] in "+.-"
    {
      assert n[i] in "+.-" <==> n[i] == '+' || n[i] == '.' || n[i] == '-';
    }
    if |n| >= 2 {
      assert n[0] in n;
    }
  }

  lemma VersionExact(v: string)
    ensures ReVersion(v) <==>
              v != "" && forall c | c in v :: 'a' <= c <= 'z' || 'A' <= c <= 'Z' || '0' <= c <= '9' || c in ".+~:-"
  {
    forall i | 0 <= i < |v|
      ensures VersionChar(v[i]) <==>
                'a' <= v[i] <= 'z' || 'A' <= v[i] <= 'Z' || '0' <= v[i] <= '9' || v[i] in ".+~:-"
    {
    }
  }

  lemma ArchExact(a: string)
    ensures ReArch(a) <==> a != "" && forall c | c in a :: 'a' <= c <= 'z' || '0' <= c <= '9' || c == '-'
  {
    assert forall i | 0 <= i < |a| :: a[i] in a;
  }

  /** And which distributions and components. */
  lemma SegmentExact(s: string)
    ensures ReSegment(s) <==>
              && s != "" && s[0] != '.' && s[0] != '_' && s[0] != '-'
              && forall c | c in s :: 'a' <= c <= 'z' || 'A' <= c <= 'Z' || '0' <= c <= '9' || c in "._-"
  {
    forall i | 0 <= i < |s|
      ensures SegmentChar(s[i]) <==>
                'a' <= s[i] <= 'z' || 'A' <= s[i] <= 'Z' || '0' <= s[i] <= '9' || s[i] in "._-"
    {
      assert s[i] in "._-" <==> s[i] == '.' || s[i] == '_' || s[i] == '-';
    }
    if s != "" {
      assert s[0] in s;
    }
  }

  /** The keys an upload loses, Package being put in front again. */
  lemma StrippedKeys(k: string)
    ensures OneOf(k, STRIPPED) <==> Lower(k) in ["package", "filename", "size", "md5sum", "sha1", "sha256", "sha512"]
  {
    var lower := ["package", "filename", "size", "md5sum", "sha1", "sha256", "sha512"];
    forall i | 0 <= i < 7
      ensures Lower(STRIPPED[i]) == lower[i]
    {
      LowerKey(i, lower);
    }
    if OneOf(k, STRIPPED) {
      var i :| 0 <= i < 7 && SameKey(k, STRIPPED[i]);
      assert lower[i] in lower;
    }
    if Lower(k) in lower {
      var i :| 0 <= i < 7 && lower[i] == Lower(k);
      assert SameKey(k, STRIPPED[i]);
    }
  }

  lemma LowerKey(i: nat, lower: seq<string>)
    requires i < 7 && lower == ["package", "filename", "size", "md5sum", "sha1", "sha256", "sha512"]
    ensures Lower(STRIPPED[i]) == lower[i]
  {
    var s := STRIPPED[i];
    assert |s| == |lower[i]|;
    forall j | 0 <= j < |s|
      ensures LowerChar(s[j]) == lower[i][j]
    {
    }
  }

  // ---- Pool files ----

  function StripEpoch(v: string): string {
    match IndexOf(v, ':')
    case None => v
    case Some(i) => v[i + 1..]
  }

  /** What is left is the version itself if it has no epoch, and else what stands
      behind the first colon. */
  lemma StripEpochExact(v: string, rest: string)
    ensures StripEpoch(v) == rest <==>
              (':' !in v && v == rest) || exists epoch :: ':' !in epoch && v == epoch + ":" + rest
    ensures v == rest || StripEpoch(v) == rest <==>
              v == rest || exists epoch :: ':' !in epoch && v == epoch + ":" + rest
  {
    if epoch :| ':' !in epoch && v == epoch + ":" + rest {
      IndexOfUnique(v, ':', |epoch|);
      assert v[|epoch| + 1..] == rest;
    }
    if i :| IndexOf(v, ':') == Some(i) && v[i + 1..] == rest {
      assert v == v[..i] + ":" + rest;
    }
  }

  function PoolPrefix(name: string): string
    requires name != ""
  {
    if "lib" <= name && |name| > 3 then name[..4] else name[..1]
  }

  function DebName(name: string, version: string, arch: string): string {
    name + "_" + version + "_" + arch + ".deb"
  }

  function PoolPath(comp: string, name: string, version: string, arch: string): string
    requires name != ""
  {
    "pool/" + comp + "/" + PoolPrefix(name) + "/" + name + "/" + DebName(name, StripEpoch(version), arch)
  }

  /** Where a package lives: below its first letter, or the first four of a
      library's name, in a file without the version's epoch. */
  lemma PoolHome(comp: string, name: string, epoch: string, version: string, arch: string)
    requires name != "" && ':' !in epoch
    ensures var letters := if |name| > 3 && name[..3] == "lib" then name[..4] else name[..1];
            var base := name + "_" + version + "_" + arch + ".deb";
            var home := "pool/" + comp + "/" + letters + "/" + name + "/" + base;
            && PoolPath(comp, name, epoch + ":" + version, arch) == home
            && (':' !in version ==> PoolPath(comp, name, version, arch) == home)
  {
    StripEpochExact(epoch + ":" + version, version);
    StripEpochExact(version, version);
  }

  /** "{name}_{version}_{arch}.deb" split at its underscores. */
  function ParseDebFilename(p: string): Option<(string, string, string)> {
    var base := AfterLast(p, '/');
    if |base| < 4 || base[|base| - 4..] != ".deb" then None
    else PartsOfName(Split(base[..|base| - 4], '_'))
  }

  function PartsOfName(parts: seq<string>): Option<(string, string, string)> {
    if |parts| != 3 || parts[0] == "" || parts[1] == "" then None
    else Some((parts[0], ReplaceAll(parts[1], "%3a", ":"), parts[2]))
  }

  lemma NameIsPlain(name: string)
    requires ReName(name)
    ensures name != "" && '/' !in name && '_' !in name && '/' !in PoolPrefix(name)
    ensures '\n' !in name && Trimmed(name)
  {
  }

  lemma VersionIsPlain(v: string)
    requires ReVersion(v)
    ensures '/' !in StripEpoch(v) && '_' !in StripEpoch(v) && '%' !in StripEpoch(v) && '\n' !in StripEpoch(v)
  {
    assert forall c | c in StripEpoch(v) :: c in v;
  }

  lemma ArchIsPlain(a: string)
    requires ReArch(a)
    ensures '/' !in a && '_' !in a && '\n' !in a && '.' !in a
  {
  }

  lemma DebStem(name: string, v: string, arch: string)
    requires '_' !in name && '_' !in v && '_' !in arch
    ensures Split(name + "_" + v + "_" + arch, '_') == [name, v, arch]
  {
    JoinFirst(v, [arch], '_');
    JoinFirst(name, [v, arch], '_');
    assert [v] + [arch] == [v, arch] && [name] + [v, arch] == [name, v, arch];
    assert name + ['_'] + (v + ['_'] + arch) == name + "_" + v + "_" + arch;
    SplitJoin([name, v, arch], '_');
  }

  lemma DebNameSplit(dir: string, name: string, v: string, arch: string)
    requires '/' !in name && '/' !in v && '/' !in arch && '_' !in name && '_' !in v && '_' !in arch
    requires name != ""
    ensures ParseDebFilename(dir + "/" + DebName(name, v, arch)) ==
              if v == "" then None else Some((name, ReplaceAll(v, "%3a", ":"), arch))
  {
    var base, stem := DebName(name, v, arch), name + "_" + v + "_" + arch;
    assert base[..|stem|] == stem && base[|stem|..] == ".deb";
    DebBase(dir, name, v, arch);
    DebStem(name, v, arch);
    StemParsed(dir + "/" + base, base, stem, name, v, arch);
  }

  lemma DebBase(dir: string, name: string, v: string, arch: string)
    requires '/' !in name && '/' !in v && '/' !in arch
    ensures AfterLast(dir + "/" + DebName(name, v, arch), '/') == DebName(name, v, arch)
  {
    var base := DebName(name, v, arch);
    assert dir + "/" + base == dir + ['/'] + base;
    AfterLastOf(dir, base, '/');
  }

  lemma StemParsed(p: string, base: string, stem: string, name: string, v: string, arch: string)
    requires AfterLast(p, '/') == base && stem <= base && base[|stem|..] == ".deb"
    requires Split(stem, '_') == [name, v, arch] && name != ""
    ensures ParseDebFilename(p) == if v == "" then None else Some((name, ReplaceAll(v, "%3a", ":"), arch))
  {
    assert |base[|stem|..]| == 4;
    assert base[..|base| - 4] == stem;
  }

  lemma DebNameParses(dir: string, name: string, v: string, arch: string)
    requires '/' !in name && '/' !in v && '/' !in arch && '_' !in name && '_' !in v && '_' !in arch
    requires name != "" && '%' !in v
    ensures ParseDebFilename(dir + "/" + DebName(name, v, arch)) == if v == "" then None else Some((name, v, arch))
  {
    DebNameSplit(dir, name, v, arch);
    ReplaceAbsent(v, "%3a", ":");
  }

  /** The pool file of a valid control names its package, its version without
      the epoch, and its architecture: exactly when something is left of the
      version. A version such as "1:" is valid, and its file has no readable
      name. */
  lemma PoolPathParses(comp: string, name: string, version: string, arch: string)
    requires ReName(name) && ReVersion(version) && ReArch(arch)
    ensures ParseDebFilename(PoolPath(comp, name, version, arch)) ==
              if StripEpoch(version) == "" then None else Some((name, StripEpoch(version), arch))
  {
    NameIsPlain(name);
    VersionIsPlain(version);
    ArchIsPlain(arch);
    DebNameParses("pool/" + comp + "/" + PoolPrefix(name) + "/" + name, name, StripEpoch(version), arch);
  }

  /** For instance "1:". */
  lemma EpochOnlyVersion(comp: string, name: string, version: string, arch: string)
    requires ReName(name) && ReArch(arch) && version == "1:"
    ensures ReVersion(version) && ParseDebFilename(PoolPath(comp, name, version, arch)) == None
  {
    IndexOfUnique(version, ':', 1);
    assert StripEpoch(version) == "";
    PoolPathParses(comp, name, version, arch);
  }

  /** A file name that spells the colon of an epoch "%3a" is read with the colon. */
  lemma EncodedEpochRead(dir: string, name: string, epoch: string, v: string, arch: string)
    requires '/' !in name && '/' !in epoch && '/' !in v && '/' !in arch
    requires '_' !in name && '_' !in epoch && '_' !in v && '_' !in arch
    requires name != "" && '%' !in epoch && '%' !in v
    ensures ParseDebFilename(dir + "/" + DebName(name, epoch + "%3a" + v, arch)) == Some((name, epoch + ":" + v, arch))
  {
    DebNameSplit(dir, name, epoch + "%3a" + v, arch);
    ReplaceOnce(epoch, v, "%3a", ":");
  }

  lemma {:induction false} ReplaceOnce(a: string, b: string, from: string, to: string)
    requires from != "" && from[0] !in a && from[0] !in b
    ensures ReplaceAll(a + from + b, from, to) == a + to + b
  {
    var s := a + from + b;
    if a == "" {
      assert s[..|from|] == from && s[|from|..] == b;
      ReplaceAbsent(b, from, to);
      assert a + to + b == to + b;
    } else {
      assert s[..|from|][0] == a[0] && a[0] in a;
      assert s[1..] == a[1..] + from + b;
      ReplaceOnce(a[1..], b, from, to);
      assert [a[0]] + (a[1..] + to + b) == a + to + b;
    }
  }

  lemma PoolPartsUnique(c1: string, p1: string, n1: string, v1: string, a1: string,
                        c2: string, p2: string, n2: string, v2: string, a2: string)
    requires '/' !in c1 && '/' !in p1 && '/' !in n1 && '/' !in c2 && '/' !in p2 && '/' !in n2
    requires '_' !in n1 && '_' !in v1 && '_' !in a1 && '_' !in n2 && '_' !in v2 && '_' !in a2
    requires "pool/" + c1 + "/" + p1 + "/" + n1 + "/" + DebName(n1, v1, a1)
          == "pool/" + c2 + "/" + p2 + "/" + n2 + "/" + DebName(n2, v2, a2)
    ensures c1 == c2 && n1 == n2 && v1 == v2 && a1 == a2
  {
    var d1, d2 := DebName(n1, v1, a1), DebName(n2, v2, a2);
    var x1, x2 := n1 + ['/'] + d1, n2 + ['/'] + d2;
    var y1, y2 := p1 + ['/'] + x1, p2 + ['/'] + x2;
    var w1, w2 := c1 + ['/'] + y1, c2 + ['/'] + y2;
    assert "pool/" + c1 + "/" + p1 + "/" + n1 + "/" + d1 == "pool/" + w1;
    assert "pool/" + c2 + "/" + p2 + "/" + n2 + "/" + d2 == "pool/" + w2;
    assert ("pool/" + w1)[5..] == w1 && ("pool/" + w2)[5..] == w2;
    CutUnique(c1, y1, c2, y2, '/');
    CutUnique(p1, x1, p2, x2, '/');
    CutUnique(n1, d1, n2, d2, '/');
    DebNameUnique(n1, v1, a1, n2, v2, a2);
  }

  lemma DebNameUnique(n1: string, v1: string, a1: string, n2: string, v2: string, a2: string)
    requires '_' !in n1 && '_' !in v1 && '_' !in n2 && '_' !in v2
    requires DebName(n1, v1, a1) == DebName(n2, v2, a2)
    ensures n1 == n2 && v1 == v2 && a1 == a2
  {
    var d1, d2 := DebName(n1, v1, a1), DebName(n2, v2, a2);
    assert d1 == n1 + ['_'] + (v1 + ['_'] + (a1 + ".deb"));
    assert d2 == n2 + ['_'] + (v2 + ['_'] + (a2 + ".deb"));
    CutUnique(n1, v1 + ['_'] + (a1 + ".deb"), n2, v2 + ['_'] + (a2 + ".deb"), '_');
    CutUnique(v1, a1 + ".deb", v2, a2 + ".deb", '_');
    assert (a1 + ".deb")[..|a1|] == a1 && (a2 + ".deb")[..|a2|] == a2;
  }

  /** Two packages share a pool file only if component, name, version without
      epoch and architecture are the same. */
  lemma PoolPathInjective(c1: string, n1: string, v1: string, a1: string, c2: string, n2: string, v2: string,
      a2: string)
    requires ReSegment(c1) && ReName(n1) && ReVersion(v1) && ReArch(a1)
    requires ReSegment(c2) && ReName(n2) && ReVersion(v2) && ReArch(a2)
    ensures PoolPath(c1, n1, v1, a1) == PoolPath(c2, n2, v2, a2)
       <==> c1 == c2 && n1 == n2 && StripEpoch(v1) == StripEpoch(v2) && a1 == a2
  {
    if PoolPath(c1, n1, v1, a1) == PoolPath(c2, n2, v2, a2) {
      NameIsPlain(n1);
      NameIsPlain(n2);
      VersionIsPlain(v1);
      VersionIsPlain(v2);
      ArchIsPlain(a1);
      ArchIsPlain(a2);
      assert '/' !in c1 && '/' !in c2;
      PoolPartsUnique(c1, PoolPrefix(n1), n1, StripEpoch(v1), a1, c2, PoolPrefix(n2), n2, StripEpoch(v2), a2);
    }
  }
}
