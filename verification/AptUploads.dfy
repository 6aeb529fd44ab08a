/** From a package's control file to an index entry (internal/registry/apt/deb.go
    and apt.go): every entry an upload makes prints and reads back. */
module AptUploads {
  import opened Strings
  import opened Sorting
  import opened Deb822
  import opened AptControl
  import opened AptRepo
  import opened AptEntries

  /** What is read of a control file. */
  const CONTROL_LIMIT: nat := 4 * 1024 * 1024

  function ControlOf(text: Bytes): Option<Stanza> {
    var stanzas := Parse(LimitedTo(text));
    if stanzas == [] then None else ValidControl(stanzas[0])
  }

  /** The control of an upload, its archive already unpacked; `None` when it is
      rejected. */
  method ReadControl(text: Bytes) returns (r: Option<Stanza>)
    ensures r == ControlOf(text)
  {
    var stanzas := ParseStanzas(LimitedTo(text));
    if |stanzas| == 0 {
      return None;
    }
    r := ValidateControl(stanzas[0]);
  }

  /** `io.LimitReader`. */
  function LimitedTo(text: Bytes): (r: Bytes)
    ensures |r| <= CONTROL_LIMIT && r <= text
  {
    if |text| <= CONTROL_LIMIT then text else text[..CONTROL_LIMIT]
  }

  /** What is accepted is the first stanza of the first 4 MiB, if it is valid, and
      but for the fields of the index it is kept as it was. */
  lemma ControlOfExact(text: Bytes, read: Bytes, k: string)
    requires read <= text && |read| == if |text| <= 4194304 then |text| else 4194304
    ensures ControlOf(text).Some? <==> Parse(read) != [] && ValidControl(Parse(read)[0]).Some?
    ensures ControlOf(text).Some? && (!OneOf(k, STRIPPED) || SameKey(k, "Package")) ==>
              Get(ControlOf(text).value, k) == Get(Parse(read)[0], k)
  {
    assert read == LimitedTo(text);
    if ControlOf(text).Some? {
      ValidControlShape(Parse(read)[0], k);
    }
  }

  // ---- The parser invents nothing ----

  function StanzaSize(s: Stanza): nat {
    if s == [] then 0 else StanzaSize(s[..|s| - 1]) + |s[|s| - 1].k| + |s[|s| - 1].v|
  }

  function TotalSize(stanzas: seq<Stanza>): nat {
    if stanzas == [] then 0 else TotalSize(stanzas[..|stanzas| - 1]) + StanzaSize(stanzas[|stanzas| - 1])
  }

  function ReaderSize(r: Reader): nat {
    TotalSize(r.out) + StanzaSize(r.cur)
  }

  lemma FinishSize(r: Reader)
    ensures TotalSize(r.Finish()) == ReaderSize(r)
  {
    var out := r.out + [r.cur];
    assert out[..|out| - 1] == r.out && out[|out| - 1] == r.cur;
    assert TotalSize(out) == TotalSize(r.out) + StanzaSize(r.cur);
  }

  lemma StanzaSizeSnoc(s: Stanza, f: Field)
    ensures StanzaSize(s + [f]) == StanzaSize(s) + |f.k| + |f.v|
  {
    assert (s + [f])[..|s|] == s;
  }

  lemma FeedSize(r: Reader, line: string)
    ensures ReaderSize(Feed(r, line)) <= ReaderSize(r) + |line| + 1
  {
    if Blank(line) {
      FinishSize(r);
    } else if line[0] == '#' {
    } else if line[0] == ' ' || line[0] == '\t' {
      if r.cur != [] {
        var n := |r.cur| - 1;
        StanzaSizeSnoc(r.cur[..n], Field(r.cur[n].k, r.cur[n].v + "\n" + line));
      }
    } else {
      match IndexOf(line, ':') {
        case None =>
        case Some(i) =>
          if i > 0 {
            StanzaSizeSnoc(r.cur, Field(line[..i], TrimSpace(line[i + 1..])));
          }
      }
    }
  }

  /** The fields parsed are together no longer than the input. */
  lemma {:induction false} ParseSize(r: Reader, data: Bytes)
    ensures TotalSize(ParseFrom(r, data)) <= ReaderSize(r) + |data| + 1
    decreases |data|
  {
    FinishSize(r);
    if data != "" {
      var (line, rest) := CutLine(data);
      if |line| < LIMIT {
        var trimmed := TrimRight(line, '\r');
        FeedSize(r, trimmed);
        CutLineSize(data);
        ParseSize(Feed(r, trimmed), rest);
      }
    }
  }

  lemma CutLineSize(data: Bytes)
    requires data != ""
    ensures |CutLine(data).0| + |CutLine(data).1| + (if CutLine(data).1 != "" then 1 else 0) <= |data|
  {
  }

  lemma {:induction false} FirstStanzaSize(stanzas: seq<Stanza>)
    requires stanzas != []
    ensures StanzaSize(stanzas[0]) <= TotalSize(stanzas)
  {
    if |stanzas| > 1 {
      FirstStanzaSize(stanzas[..|stanzas| - 1]);
    } else {
      assert stanzas[..0] == [];
    }
  }

  lemma {:induction false} StanzaSizeFirst(s: Stanza)
    requires s != []
    ensures StanzaSize(s) == |s[0].k| + |s[0].v| + StanzaSize(s[1..])
  {
    var n := |s| - 1;
    if n > 0 {
      StanzaSizeFirst(s[..n]);
      assert s[..n][1..] == s[1..][..n - 1];
    } else {
      assert s[..0] == [] && s[1..] == [];
    }
  }

  /** Three different keys find three different fields. */
  lemma {:induction false} ThreeValuesSize(s: Stanza, a: string, b: string, c: string)
    requires !SameKey(a, b) && !SameKey(a, c) && !SameKey(b, c)
    ensures |Get(s, a)| + |Get(s, b)| + |Get(s, c)| <= StanzaSize(s)
  {
    if s != [] {
      StanzaSizeFirst(s);
      ThreeValuesSize(s[1..], a, b, c);
    }
  }

  /** Keys of other lengths, or with other first letters. */
  predicate Apart(k: string, keys: seq<string>) {
    k != "" && forall i | 0 <= i < |keys| :: |keys[i]| != |k| || LowerChar(keys[i][0]) != LowerChar(k[0])
  }

  lemma ApartKeys(k: string, keys: seq<string>)
    requires Apart(k, keys)
    ensures !OneOf(k, keys)
  {
    forall i | 0 <= i < |keys|
      ensures !SameKey(k, keys[i])
    {
      if |keys[i]| == |k| {
        NotSameKey(k, keys[i], 0);
      }
    }
  }

  lemma ControlKeysDiffer()
    ensures !SameKey("Package", "Version") && !SameKey("Package", "Architecture") && !SameKey("Version", "Architecture")
  {
    NotSameKey("Version", "Package", 0);
    NotSameKey("Architecture", "Package", 0);
    NotSameKey("Version", "Architecture", 0);
  }

  lemma ControlKeysKept()
    ensures !OneOf("Version", STRIPPED) && !OneOf("Architecture", STRIPPED)
  {
    ApartKeys("Version", STRIPPED);
    ApartKeys("Architecture", STRIPPED);
  }

  /** The names of a validated control fit one file name. */
  lemma ControlNamesShort(text: Bytes, ctl: Stanza)
    requires |text| <= CONTROL_LIMIT && Parse(text) != [] && ValidControl(Parse(text)[0]) == Some(ctl)
    ensures ReName(Get(ctl, "Package")) && ReVersion(Get(ctl, "Version")) && ReArch(Get(ctl, "Architecture"))
    ensures |Get(ctl, "Package")| + |Get(ctl, "Version")| + |Get(ctl, "Architecture")| <= CONTROL_LIMIT + 1
  {
    var s := Parse(text)[0];
    ControlKeysDiffer();
    ControlKeysKept();
    ValidControlShape(s, "Package");
    ValidControlShape(s, "Version");
    ValidControlShape(s, "Architecture");
    ParseSize(Reader([], []), text);
    FirstStanzaSize(Parse(text));
    ThreeValuesSize(s, "Package", "Version", "Architecture");
  }

  // ---- Lines that print ----

  lemma {:induction false} ShortLines(data: Bytes, n: nat)
    requires |data| <= n
    ensures LinesUpTo(data, n)
    decreases |data|
  {
    if data != "" {
      ShortLines(CutLine(data).1, n);
    }
  }

  ghost predicate GoodField(f: Field) {
    WfField(f) && FieldFits(f, LIMIT)
  }

  lemma OneLineField(k: string, v: string)
    requires WfKey(k) && v != "" && Trimmed(v) && '\n' !in v && |k| + 2 + |v| < LIMIT
    ensures GoodField(Field(k, v))
  {
    assert Split(v, '\n') == [v];
  }

  lemma ParsedFieldsGood(text: Bytes)
    requires |text| <= CONTROL_LIMIT
    ensures forall s, f | s in Parse(text) && f in s :: GoodField(f)
  {
    ShortLines(text, LIMIT - 2);
    ParseFromGood(Reader([], []), text, LIMIT);
  }

  lemma ControlFieldsGood(text: Bytes, ctl: Stanza)
    requires |text| <= CONTROL_LIMIT && Parse(text) != [] && ValidControl(Parse(text)[0]) == Some(ctl)
    ensures forall f | f in ctl :: GoodField(f)
  {
    var s := Parse(text)[0];
    ParsedFieldsGood(text);
    ControlNamesShort(text, ctl);
    ValidControlShape(s, "Package");
    var name := Get(s, "Package");
    NameIsPlain(name);
    PackageKey();
    OneLineField("Package", name);
    forall f | f in ctl
      ensures GoodField(f)
    {
      if f != Field("Package", name) {
        assert f in Filter(NotOneOf(STRIPPED), s);
        assert s in Parse(text);
      }
    }
  }

  lemma PackageKey()
    ensures WfKey("Package")
  {
  }

  lemma IndexKeysWellFormed(i: nat)
    requires i < |INDEX_KEYS|
    ensures WfKey(INDEX_KEYS[i]) && |INDEX_KEYS[i]| <= 8
  {
    var keys := ["Filename", "Size", "MD5sum", "SHA1", "SHA256"];
    assert INDEX_KEYS[i] == keys[i];
    assert forall j | 0 <= j < |keys[i]| :: IsLetter(keys[i][j]) || IsDigit(keys[i][j]);
  }

  /** A pool path prints on a line. */
  lemma PoolPathPrints(comp: string, name: string, version: string, arch: string)
    requires ReSegment(comp) && ReName(name) && ReVersion(version) && ReArch(arch)
    ensures var p := PoolPath(comp, name, version, arch);
            && p != "" && Trimmed(p) && '\n' !in p && "pool/" <= p
            && |p| <= |comp| + 2 * |name| + |version| + |arch| + 20
  {
    NameIsPlain(name);
    VersionIsPlain(version);
    ArchIsPlain(arch);
    SegmentIsPlain(comp);
    var base := DebName(name, StripEpoch(version), arch);
    var p := PoolPath(comp, name, version, arch);
    assert '\n' !in PoolPrefix(name);
    assert p[..5] == "pool/" && p[0] == 'p';
    assert p[|p| - 1] == base[|base| - 1] == 'b';
  }

  lemma SegmentIsPlain(s: string)
    requires ReSegment(s)
    ensures '/' !in s && '\n' !in s && s != "" && Trimmed(s)
  {
  }

  function Pow10(k: nat): nat {
    if k == 0 then 1 else 10 * Pow10(k - 1)
  }

  lemma {:induction false} ItoaLength(n: nat, k: nat)
    requires k > 0 && n < Pow10(k)
    ensures |Itoa(n)| <= k
  {
    if n >= 10 {
      assert Pow10(k) == 10 * Pow10(k - 1);
      assert Pow10(0) == 1;
      ItoaLength(n / 10, k - 1);
    }
  }

  /** A digest in hexadecimal, or any short word. */
  predicate DigestWord(s: string) {
    0 < |s| <= 128 && forall i | 0 <= i < |s| :: !IsSpace(s[i])
  }

  ghost predicate GoodCrypto(cr: Crypto) {
    forall b: Bytes :: DigestWord(cr.md5(b)) && DigestWord(cr.sha1(b)) && DigestWord(cr.sha256(b))
  }

  lemma DigestPrints(i: nat, d: string)
    requires i < |INDEX_KEYS| && DigestWord(d)
    ensures GoodField(Field(INDEX_KEYS[i], d))
  {
    IndexKeysWellFormed(i);
    OneLineField(INDEX_KEYS[i], d);
  }

  lemma SizePrints(n: nat)
    requires n < 0x8000_0000_0000_0000
    ensures GoodField(Field(INDEX_KEYS[1], Itoa(n)))
  {
    assert Pow10(3) == 1_000 && Pow10(6) == 1_000_000 && Pow10(9) == 1_000_000_000;
    assert Pow10(12) == 1_000_000_000_000 && Pow10(15) == 1_000_000_000_000_000;
    assert Pow10(19) == 10_000_000_000_000_000_000;
    ItoaLength(n, 19);
    assert AllDigits(Itoa(n));
    IndexKeysWellFormed(1);
    OneLineField(INDEX_KEYS[1], Itoa(n));
  }

  lemma PathWellFormed(i: nat, p: string)
    requires i < |INDEX_KEYS| && p != "" && Trimmed(p) && '\n' !in p
    ensures WfField(Field(INDEX_KEYS[i], p))
    ensures FieldFits(Field(INDEX_KEYS[i], p), LIMIT) <==> |INDEX_KEYS[i]| + 2 + |p| < LIMIT
  {
    IndexKeysWellFormed(i);
    SplitJoin([p], '\n');
  }

  lemma FilenameReads(comp: string, text: Bytes, ctl: Stanza)
    requires ReSegment(comp)
    requires |text| <= CONTROL_LIMIT && Parse(text) != [] && ValidControl(Parse(text)[0]) == Some(ctl)
    ensures ReName(Get(ctl, "Package"))
    ensures var p := PoolPath(comp, Get(ctl, "Package"), Get(ctl, "Version"), Get(ctl, "Architecture"));
            && WfField(Field(INDEX_KEYS[0], p)) && "pool/" <= p
            && (FieldFits(Field(INDEX_KEYS[0], p), LIMIT) <==> |p| + 10 < LIMIT)
            && (|comp| <= CONTROL_LIMIT ==> |p| + 10 < LIMIT)
  {
    ControlNamesShort(text, ctl);
    PoolPathPrints(comp, Get(ctl, "Package"), Get(ctl, "Version"), Get(ctl, "Architecture"));
    PathWellFormed(0, PoolPath(comp, Get(ctl, "Package"), Get(ctl, "Version"), Get(ctl, "Architecture")));
    assert |INDEX_KEYS[0]| == 8;
  }

  /** Every entry an upload makes is true of its bytes and prints to a stanza of
      readable fields, whatever control file was uploaded; and the stanza reads
      back exactly when the line of its file name is within the scanner's limit,
      as it is for components of up to 4 MiB. */
  lemma UploadPrints(cr: Crypto, text: Bytes, ctl: Stanza, comp: string, body: Bytes, published: int)
    requires GoodCrypto(cr) && ReSegment(comp) && |body| < 0x8000_0000_0000_0000
    requires ControlOf(text) == Some(ctl)
    ensures Get(ctl, "Package") != "" && Uploaded(cr, NewEntry(cr, ctl, comp, body, published), body)
    ensures |comp| <= CONTROL_LIMIT ==> ShortPath(NewEntry(cr, ctl, comp, body, published))
  {
    ControlNamesShort(LimitedTo(text), ctl);
    var e := NewEntry(cr, ctl, comp, body, published);
    ControlFieldsGood(LimitedTo(text), ctl);
    FilenameReads(comp, LimitedTo(text), ctl);
    SizePrints(|body|);
    DigestPrints(2, e.md5);
    DigestPrints(3, e.sha1);
    DigestPrints(4, e.sha256);
    NewEntryDescribes(cr, ctl, comp, body, published);
    ValidControlClean(Parse(LimitedTo(text))[0], ctl);
    EntryPrints(e);
  }

  lemma EntryPrints(e: Entry)
    requires forall f | f in e.control :: GoodField(f)
    requires WfField(Field(INDEX_KEYS[0], e.filename))
    requires FieldFits(Field(INDEX_KEYS[0], e.filename), LIMIT) <==> ShortPath(e)
    requires GoodField(Field(INDEX_KEYS[1], Itoa(e.size))) && GoodField(Field(INDEX_KEYS[2], e.md5))
    requires GoodField(Field(INDEX_KEYS[3], e.sha1)) && GoodField(Field(INDEX_KEYS[4], e.sha256))
    ensures WfStanza(PackagesStanza(e)) && (Printable(e) <==> ShortPath(e))
  {
    var s := PackagesStanza(e);
    assert s[|e.control|] == IndexFields(e)[0];
    forall f | f in s
      ensures WfField(f) && (f != IndexFields(e)[0] ==> FieldFits(f, LIMIT))
    {
      if f !in e.control {
        assert f in IndexFields(e);
      }
    }
    assert IndexFields(e)[0] in s;
  }
}
