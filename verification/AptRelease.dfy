/** The Release document of a distribution, and reading one
    (internal/registry/apt/apt.go and deb.go). */
module AptRelease {
  import opened Strings
  import opened Deb822
  import opened AptControl
  import opened AptEntries

  /** One generated file below dists/{dist}/. */
  datatype IndexFile = IndexFile(path: string, data: Bytes)

  // ---- Words of a line ----

  function WordOf(s: string): (w: string)
    ensures w <= s && (forall i | 0 <= i < |w| :: !IsSpace(w[i]))
    ensures |w| < |s| ==> IsSpace(s[|w|])
  {
    if s == "" || IsSpace(s[0]) then "" else [s[0]] + WordOf(s[1..])
  }

  /** `strings.Fields`, on ASCII. */
  function Fields(s: string): seq<string>
    decreases |s|
  {
    if s == "" then []
    else if IsSpace(s[0]) then Fields(s[1..])
    else [WordOf(s)] + Fields(s[|WordOf(s)|..])
  }

  /** A non-empty run of printing characters. */
  predicate Word(s: string) {
    s != "" && forall i | 0 <= i < |s| :: !IsSpace(s[i])
  }

  lemma {:induction false} WordOfWord(w: string, rest: string)
    requires Word(w) && (rest == "" || IsSpace(rest[0]))
    ensures WordOf(w + rest) == w
  {
    assert (w + rest)[1..] == w[1..] + rest;
    if |w| > 1 {
      WordOfWord(w[1..], rest);
    } else {
      assert w == [w[0]];
    }
  }

  lemma FieldsWord(w: string, rest: string)
    requires Word(w) && (rest == "" || IsSpace(rest[0]))
    ensures Fields(w + rest) == [w] + Fields(rest)
  {
    WordOfWord(w, rest);
    assert (w + rest)[|w|..] == rest;
  }

  function Spaces(n: nat): string {
    if n == 0 then "" else " " + Spaces(n - 1)
  }

  lemma {:induction false} FieldsSpaces(n: nat, rest: string)
    ensures Fields(Spaces(n) + rest) == Fields(rest)
  {
    if n == 0 {
      assert "" + rest == rest;
    } else {
      assert (Spaces(n) + rest)[1..] == Spaces(n - 1) + rest;
      FieldsSpaces(n - 1, rest);
    }
  }

  // ---- Printing ----

  /** `%8d`. */
  function PadLeft(s: string): string {
    Spaces(if |s| < 8 then 8 - |s| else 0) + s
  }

  /** Right-aligned in eight columns, wider if it has to be. */
  lemma PadLeftExact(s: string) returns (pad: string)
    ensures PadLeft(s) == pad + s && Only(pad, ' ') && |PadLeft(s)| == if |s| < 8 then 8 else |s|
  {
    var n := if |s| < 8 then 8 - |s| else 0;
    pad := Spaces(n);
    SpacesExact(n);
  }

  lemma {:induction false} SpacesExact(n: nat)
    ensures |Spaces(n)| == n && Only(Spaces(n), ' ')
  {
    if n > 0 {
      SpacesExact(n - 1);
    }
  }

  function ListingLine(sum: string, f: IndexFile): string {
    " " + sum + " " + PadLeft(Itoa(|f.data|)) + " " + f.path
  }

  function Listing(sum: Bytes -> string, files: seq<IndexFile>): seq<string> {
    seq(|files|, i requires 0 <= i < |files| => ListingLine(sum(files[i].data), files[i]))
  }

  lemma FieldsSpaceWord(w: string, rest: string)
    requires Word(w) && (rest == "" || IsSpace(rest[0]))
    ensures Fields(" " + (w + rest)) == [w] + Fields(rest)
  {
    assert (" " + (w + rest))[1..] == w + rest;
    FieldsWord(w, rest);
  }

  lemma ThreeFields(sum: string, pad: nat, n: string, path: string)
    requires Word(sum) && Word(n) && Word(path)
    ensures Fields(" " + (sum + (" " + (Spaces(pad) + (n + (" " + path)))))) == [sum, n, path]
  {
    var size := n + (" " + path);
    FieldsSpaceWord(sum, " " + (Spaces(pad) + size));
    assert (" " + (Spaces(pad) + size))[1..] == Spaces(pad) + size;
    FieldsSpaces(pad, size);
    FieldsWord(n, " " + path);
    assert path + "" == path;
    FieldsSpaceWord(path, "");
  }

  lemma ListingLineFields(sum: string, f: IndexFile)
    requires Word(sum) && Word(f.path)
    ensures Fields(ListingLine(sum, f)) == [sum, Itoa(|f.data|), f.path]
  {
    var n := Itoa(|f.data|);
    ItoaWord(|f.data|);
    var pad := if |n| < 8 then 8 - |n| else 0;
    ThreeFields(sum, pad, n, f.path);
    LineShape(sum, Spaces(pad), n, f.path);
  }

  lemma ItoaWord(n: nat)
    ensures Word(Itoa(n))
  {
    assert AllDigits(Itoa(n));
  }

  lemma LineShape(sum: string, pad: string, n: string, path: string)
    ensures " " + sum + " " + (pad + n) + " " + path == " " + (sum + (" " + (pad + (n + (" " + path)))))
  {
  }

  lemma {:induction false} LinesTextSnoc(lines: seq<string>, line: string)
    ensures LinesText(lines + [line]) == LinesText(lines) + line + "\n"
  {
    if lines == [] {
      assert lines + [line] == [line] && [line][1..] == [];
    } else {
      LinesTextSnoc(lines[1..], line);
      assert (lines + [line])[1..] == lines[1..] + [line];
    }
  }

  function Line(k: string, v: string): Bytes {
    k + ": " + v + "\n"
  }

  function SectionText(k: string, lines: seq<string>): Bytes {
    k + ":\n" + LinesText(lines)
  }

  /** The values of the document's header. */
  datatype Heading = Heading(repo: string, dist: string, date: string, arches: string, comps: string)
  {
    predicate Plain() {
      OneLine(repo) && OneLine(dist) && OneLine(date) && OneLine(arches) && OneLine(comps)
    }
  }

  function Header(h: Heading): Bytes {
    Line("Origin", "kutu") + Line("Label", h.repo) + Line("Suite", h.dist) + Line("Codename", h.dist)
    + Line("Date", h.date) + Line("Architectures", h.arches) + Line("Components", h.comps)
  }

  function ReleaseText(cr: Crypto, h: Heading, files: seq<IndexFile>): Bytes {
    Header(h)
    + SectionText("MD5Sum", Listing(cr.md5, files))
    + SectionText("SHA1", Listing(cr.sha1, files))
    + SectionText("SHA256", Listing(cr.sha256, files))
  }

  method WriteSection(buf: Bytes, name: string, sum: Bytes -> string, files: seq<IndexFile>) returns (b: Bytes)
    ensures b == buf + SectionText(name, Listing(sum, files))
  {
    b := buf + (name + ":\n");
    ghost var start := b;
    for i := 0 to |files|
      invariant b == start + LinesText(Listing(sum, files[..i]))
    {
      ghost var done := LinesText(Listing(sum, files[..i]));
      var line := ListingLine(sum(files[i].data), files[i]) + "\n";
      ListingStep(sum, files, i);
      SameGrouping(start, done, line);
      b := b + line;
    }
    assert files[..|files|] == files;
    SameGrouping(buf, name + ":\n", LinesText(Listing(sum, files)));
  }

  lemma ListingStep(sum: Bytes -> string, files: seq<IndexFile>, i: nat)
    requires i < |files|
    ensures LinesText(Listing(sum, files[..i + 1]))
         == LinesText(Listing(sum, files[..i])) + (ListingLine(sum(files[i].data), files[i]) + "\n")
  {
    LinesTextSnoc(Listing(sum, files[..i]), ListingLine(sum(files[i].data), files[i]));
    assert Listing(sum, files[..i + 1]) == Listing(sum, files[..i]) + [ListingLine(sum(files[i].data), files[i])];
  }

  method BuildRelease(cr: Crypto, h: Heading, files: seq<IndexFile>)
    returns (b: Bytes)
    ensures b == ReleaseText(cr, h, files)
  {
    b := Header(h);
    b := WriteSection(b, "MD5Sum", cr.md5, files);
    b := WriteSection(b, "SHA1", cr.sha1, files);
    b := WriteSection(b, "SHA256", cr.sha256, files);
  }

  // ---- Reading it back ----

  /** A digest section: an empty first line and one line a file. */
  function Section(key: string, lines: seq<string>): Field {
    Field(key, Join([""] + lines, '\n'))
  }

  function HeaderStanza(h: Heading): Stanza {
    [Field("Origin", "kutu"), Field("Label", h.repo), Field("Suite", h.dist), Field("Codename", h.dist),
     Field("Date", h.date), Field("Architectures", h.arches), Field("Components", h.comps)]
  }

  function SectionsStanza(cr: Crypto, files: seq<IndexFile>): Stanza {
    [Section("MD5Sum", Listing(cr.md5, files)),
     Section("SHA1", Listing(cr.sha1, files)),
     Section("SHA256", Listing(cr.sha256, files))]
  }

  function ReleaseStanza(cr: Crypto, h: Heading, files: seq<IndexFile>): Stanza {
    HeaderStanza(h) + SectionsStanza(cr, files)
  }

  /** A value that prints on one line. */
  predicate OneLine(v: string) {
    v != "" && Trimmed(v) && '\n' !in v
  }

  lemma OneLineRendered(k: string, v: string)
    requires OneLine(v)
    ensures RenderField(Field(k, v)) == Line(k, v)
  {
    assert k + ":" + " " + v + "\n" == k + ": " + v + "\n";
  }

  lemma SectionRendered(k: string, lines: seq<string>)
    ensures RenderField(Section(k, lines)) == SectionText(k, lines)
  {
    var all := [""] + lines;
    JoinIsLinesText(all);
    assert all[1..] == lines;
    assert LinesText(all) == "\n" + LinesText(lines);
    var v := Join(all, '\n');
    assert v == "" || v[0] == '\n';
    assert RenderField(Section(k, lines)) == k + ":" + (v + "\n");
    assert k + ":" + ("\n" + LinesText(lines)) == k + ":\n" + LinesText(lines);
  }

  lemma RenderOne(f: Field)
    ensures Render([f]) == RenderField(f)
  {
    assert [f][..0] == [];
  }

  lemma HeaderRendered(h: Heading)
    requires h.Plain()
    ensures Render(HeaderStanza(h)) == Header(h)
  {
    var s := HeaderStanza(h);
    OneLineRendered("Origin", "kutu");
    OneLineRendered("Label", h.repo);
    OneLineRendered("Suite", h.dist);
    OneLineRendered("Codename", h.dist);
    OneLineRendered("Date", h.date);
    OneLineRendered("Architectures", h.arches);
    OneLineRendered("Components", h.comps);
    SevenRendered(s[0], s[1], s[2], s[3], s[4], s[5], s[6]);
    assert s == [s[0], s[1], s[2], s[3], s[4], s[5], s[6]];
  }

  lemma SevenRendered(a: Field, b: Field, c: Field, d: Field, e: Field, f: Field, g: Field)
    ensures Render([a, b, c, d, e, f, g]) ==
              RenderField(a) + RenderField(b) + RenderField(c) + RenderField(d) + RenderField(e) + RenderField(f) +
                  RenderField(g)
  {
    RenderOne(a);
    RenderSnoc([a], b);
    RenderSnoc([a, b], c);
    RenderSnoc([a, b, c], d);
    RenderSnoc([a, b, c, d], e);
    RenderSnoc([a, b, c, d, e], f);
    RenderSnoc([a, b, c, d, e, f], g);
    assert [a] + [b] == [a, b] && [a, b] + [c] == [a, b, c] && [a, b, c] + [d] == [a, b, c, d];
    assert [a, b, c, d] + [e] == [a, b, c, d, e] && [a, b, c, d, e] + [f] == [a, b, c, d, e, f];
    assert [a, b, c, d, e, f] + [g] == [a, b, c, d, e, f, g];
  }

  lemma RenderSnoc(s: Stanza, f: Field)
    ensures Render(s + [f]) == Render(s) + RenderField(f)
  {
    assert (s + [f])[..|s|] == s;
  }

  /** The document is the printed stanza. */
  lemma ReleaseIsStanza(cr: Crypto, h: Heading, files: seq<IndexFile>)
    requires h.Plain()
    ensures Render(ReleaseStanza(cr, h, files))
         == ReleaseText(cr, h, files)
  {
    HeaderRendered(h);
    SectionRendered("MD5Sum", Listing(cr.md5, files));
    SectionRendered("SHA1", Listing(cr.sha1, files));
    SectionRendered("SHA256", Listing(cr.sha256, files));
    var a, s := HeaderStanza(h), SectionsStanza(cr, files);
    RenderSnoc(a, s[0]);
    RenderSnoc(a + [s[0]], s[1]);
    RenderSnoc(a + [s[0]] + [s[1]], s[2]);
    assert a + s == a + [s[0]] + [s[1]] + [s[2]];
  }

  // ---- What a client reads ----

  /** Digests and paths are words. */
  ghost predicate FilesPrint(cr: Crypto, files: seq<IndexFile>) {
    forall f | f in files ::
      Word(cr.md5(f.data)) && Word(cr.sha1(f.data)) && Word(cr.sha256(f.data)) && Word(f.path)
  }

  /** What the document is printed from: one-line header values, and digests and
      paths without white space, in lines the scanner takes. */
  ghost predicate ReleasePrintable(cr: Crypto, h: Heading, files: seq<IndexFile>)
  {
    && h.Plain()
    && FilesPrint(cr, files)
    && StanzaFits(ReleaseStanza(cr, h, files), LIMIT)
  }

  lemma ListingLineContinues(sum: string, f: IndexFile)
    requires Word(sum) && Word(f.path)
    ensures Continuation(ListingLine(sum, f))
  {
    var line := ListingLine(sum, f);
    assert line[0] == ' ';
    assert line[1] == sum[0];
    assert line[|line| - 1] == f.path[|f.path| - 1];
    assert IsSpace('\r') && IsSpace('\n');
    ItoaWord(|f.data|);
    SpacesNoNewline(if |Itoa(|f.data|)| < 8 then 8 - |Itoa(|f.data|)| else 0);
    assert '\n' !in sum && '\n' !in Itoa(|f.data|) && '\n' !in f.path;
  }

  lemma SpacesNoNewline(n: nat)
    ensures '\n' !in Spaces(n)
  {
  }

  lemma SectionWellFormed(k: string, sum: Bytes -> string, files: seq<IndexFile>)
    requires WfKey(k) && forall f | f in files :: Word(sum(f.data)) && Word(f.path)
    ensures WfField(Section(k, Listing(sum, files)))
    ensures Split(Section(k, Listing(sum, files)).v, '\n') == [""] + Listing(sum, files)
  {
    var lines := [""] + Listing(sum, files);
    forall i | 1 <= i < |lines|
      ensures Continuation(lines[i])
    {
      assert files[i - 1] in files;
      ListingLineContinues(sum(files[i - 1].data), files[i - 1]);
    }
    SplitJoin(lines, '\n');
  }

  lemma OneLineWellFormed(k: string, v: string)
    requires WfKey(k) && OneLine(v)
    ensures WfField(Field(k, v))
  {
    assert Split(v, '\n') == [v];
  }

  lemma PlainKey(k: string)
    requires k != "" && forall i | 0 <= i < |k| :: IsLetter(k[i]) || IsDigit(k[i])
    ensures WfKey(k)
  {
  }

  lemma HeaderWellFormed(h: Heading)
    requires h.Plain()
    ensures forall f | f in HeaderStanza(h) :: WfField(f)
  {
    var s := HeaderStanza(h);
    forall f | f in s
      ensures WfField(f)
    {
      PlainKey(f.k);
      OneLineWellFormed(f.k, f.v);
    }
  }

  lemma SectionsWellFormed(cr: Crypto, h: Heading, files: seq<IndexFile>)
    requires ReleasePrintable(cr, h, files)
    ensures forall f | f in SectionsStanza(cr, files) :: WfField(f)
  {
    SectionWellFormed("MD5Sum", cr.md5, files);
    SectionWellFormed("SHA1", cr.sha1, files);
    SectionWellFormed("SHA256", cr.sha256, files);
  }

  /** The Release document parses to exactly the stanza it was printed from. */
  lemma ReleaseParses(cr: Crypto, h: Heading, files: seq<IndexFile>)
    requires ReleasePrintable(cr, h, files)
    ensures Parse(ReleaseText(cr, h, files)) == [ReleaseStanza(cr, h, files)]
  {
    HeaderWellFormed(h);
    SectionsWellFormed(cr, h, files);
    ReleaseIsStanza(cr, h, files);
    OneStanzaRead(ReleaseStanza(cr, h, files));
  }

  lemma OneStanzaRead(s: Stanza)
    requires s != [] && (forall f | f in s :: WfField(f)) && StanzaFits(s, LIMIT)
    ensures Parse(Render(s)) == [s]
  {
    StanzaRead(Reader([], []), s, "");
    assert Render(s) + "" == Render(s);
    assert [] + s == s;
  }

  lemma {:induction false} GetAt(s: Stanza, i: nat)
    requires i < |s| && forall p | 0 <= p < i :: !SameKey(s[p].k, s[i].k)
    ensures Get(s, s[i].k) == s[i].v
  {
    if i > 0 {
      GetAt(s[1..], i - 1);
    }
  }

  const RELEASE_KEYS: seq<string> :=
    ["Origin", "Label", "Suite", "Codename", "Date", "Architectures", "Components", "MD5Sum", "SHA1", "SHA256"]

  lemma SectionAt(s: Stanza, i: nat)
    requires i < 10 == |s| && forall p | 0 <= p < 10 :: s[p].k == RELEASE_KEYS[p]
    ensures Get(s, s[i].k) == s[i].v
  {
    ReleaseKeysDiffer(RELEASE_KEYS);
    forall p | 0 <= p < i
      ensures !SameKey(s[p].k, s[i].k)
    {
      assert s[p].k == RELEASE_KEYS[p];
    }
    GetAt(s, i);
  }

  lemma ReleaseKeysDiffer(keys: seq<string>)
    requires keys == ["Origin", "Label", "Suite", "Codename", "Date", "Architectures", "Components", "MD5Sum", "SHA1",
                "SHA256"]
    ensures forall i, j | 0 <= i < j < 10 :: !SameKey(keys[i], keys[j])
  {
    forall i, j | 0 <= i < j < 10
      ensures !SameKey(keys[i], keys[j])
    {
      if |keys[i]| == |keys[j]| {
        NotSameKey(keys[i], keys[j], 0);
      }
    }
  }

  /** The lines of a section split into digest, size and path. */
  ghost predicate Lists(value: string, sum: Bytes -> string, files: seq<IndexFile>) {
    var lines := Split(value, '\n');
    && |lines| == |files| + 1 && Fields(lines[0]) == []
    && forall i | 0 <= i < |files| :: Fields(lines[i + 1]) == [sum(files[i].data), Itoa(|files[i].data|), files[i].path]
  }

  lemma SectionLists(k: string, sum: Bytes -> string, files: seq<IndexFile>)
    requires WfKey(k) && forall f | f in files :: Word(sum(f.data)) && Word(f.path)
    ensures Lists(Section(k, Listing(sum, files)).v, sum, files)
  {
    SectionWellFormed(k, sum, files);
    forall i | 0 <= i < |files|
      ensures Fields(([""] + Listing(sum, files))[i + 1]) == [sum(files[i].data), Itoa(|files[i].data|), files[i].path]
    {
      assert files[i] in files;
      ListingLineFields(sum(files[i].data), files[i]);
    }
  }

  lemma SectionListed(s: Stanza, i: nat, k: string, sum: Bytes -> string, files: seq<IndexFile>)
    requires i < |s| && s[i] == Section(k, Listing(sum, files)) && WfKey(k) && Get(s, k) == s[i].v
    requires forall f | f in files :: Word(sum(f.data)) && Word(f.path)
    ensures Lists(Get(s, k), sum, files)
  {
    SectionLists(k, sum, files);
  }

  lemma SectionsFound(s: Stanza)
    requires |s| == 10 && forall p | 0 <= p < 10 :: s[p].k == RELEASE_KEYS[p]
    ensures Get(s, "MD5Sum") == s[7].v && Get(s, "SHA1") == s[8].v && Get(s, "SHA256") == s[9].v
  {
    SectionAt(s, 7);
    SectionAt(s, 8);
    SectionAt(s, 9);
  }

  lemma SectionKeys()
    ensures WfKey("MD5Sum") && WfKey("SHA1") && WfKey("SHA256")
  {
  }

  lemma ReleaseStanzaShape(cr: Crypto, h: Heading, files: seq<IndexFile>)
    ensures var s := ReleaseStanza(cr, h, files);
            && |s| == 10 && (forall p | 0 <= p < 10 :: s[p].k == RELEASE_KEYS[p])
            && s[7] == Section("MD5Sum", Listing(cr.md5, files))
            && s[8] == Section("SHA1", Listing(cr.sha1, files))
            && s[9] == Section("SHA256", Listing(cr.sha256, files))
            && s[0] == Field("Origin", "kutu") && s[1] == Field("Label", h.repo)
            && s[2] == Field("Suite", h.dist) && s[3] == Field("Codename", h.dist) && s[4] == Field("Date", h.date)
            && s[5] == Field("Architectures", h.arches) && s[6] == Field("Components", h.comps)
  {
  }

  /** Read by a client, Release lists every generated file, in order, with its
      true digest and size, in each of its three sections. */
  lemma ReleaseListsFiles(cr: Crypto, h: Heading, files: seq<IndexFile>)
    requires ReleasePrintable(cr, h, files)
    ensures var stanzas := Parse(ReleaseText(cr, h, files));
            && |stanzas| == 1
            && Lists(Get(stanzas[0], "MD5Sum"), cr.md5, files)
            && Lists(Get(stanzas[0], "SHA1"), cr.sha1, files)
            && Lists(Get(stanzas[0], "SHA256"), cr.sha256, files)
  {
    ReleaseParses(cr, h, files);
    StanzaLists(cr, h, files);
  }

  /** And the values of its header, each under its own key. */
  lemma ReleaseHeader(cr: Crypto, h: Heading, files: seq<IndexFile>)
    requires ReleasePrintable(cr, h, files)
    ensures var stanzas := Parse(ReleaseText(cr, h, files));
            |stanzas| == 1 && Headed(stanzas[0], h)
  {
    ReleaseParses(cr, h, files);
    ReleaseStanzaShape(cr, h, files);
    HeaderFound(ReleaseStanza(cr, h, files), h);
  }

  ghost predicate Headed(s: Stanza, h: Heading) {
    && Get(s, "Origin") == "kutu" && Get(s, "Label") == h.repo
    && Get(s, "Suite") == h.dist && Get(s, "Codename") == h.dist
    && Get(s, "Date") == h.date
    && Get(s, "Architectures") == h.arches && Get(s, "Components") == h.comps
  }

  lemma HeaderFound(s: Stanza, h: Heading)
    requires |s| == 10 && forall p | 0 <= p < 10 :: s[p].k == RELEASE_KEYS[p]
    requires s[0] == Field("Origin", "kutu") && s[1] == Field("Label", h.repo)
    requires s[2] == Field("Suite", h.dist) && s[3] == Field("Codename", h.dist) && s[4] == Field("Date", h.date)
    requires s[5] == Field("Architectures", h.arches) && s[6] == Field("Components", h.comps)
    ensures Headed(s, h)
  {
    SectionAt(s, 0);
    SectionAt(s, 1);
    SectionAt(s, 2);
    SectionAt(s, 3);
    SectionAt(s, 4);
    SectionAt(s, 5);
    SectionAt(s, 6);
  }

  lemma StanzaLists(cr: Crypto, h: Heading, files: seq<IndexFile>)
    requires FilesPrint(cr, files)
    ensures var s := ReleaseStanza(cr, h, files);
            && Lists(Get(s, "MD5Sum"), cr.md5, files)
            && Lists(Get(s, "SHA1"), cr.sha1, files)
            && Lists(Get(s, "SHA256"), cr.sha256, files)
  {
    var s := ReleaseStanza(cr, h, files);
    ReleaseStanzaShape(cr, h, files);
    SectionsFound(s);
    SectionKeys();
    SectionListed(s, 7, "MD5Sum", cr.md5, files);
    SectionListed(s, 8, "SHA1", cr.sha1, files);
    SectionListed(s, 9, "SHA256", cr.sha256, files);
  }

  /** The reader of the SHA256 section, path to digest. */
  method ReleaseFiles(release: Bytes) returns (out: map<string, string>)
    ensures out == var st := Parse(release); if st == [] then map[] else DigestsOf(Split(Get(st[0], "SHA256"), '\n'))
  {
    out := map[];
    var st := ParseStanzas(release);
    if |st| == 0 {
      return;
    }
    var lines := Split(Get(st[0], "SHA256"), '\n');
    for i := 0 to |lines|
      invariant out == DigestsOf(lines[..i])
    {
      TakeNext(lines, i);
      var f := Fields(lines[i]);
      if |f| == 3 {
        out := out[f[2] := f[0]];
      }
    }
    assert lines[..|lines|] == lines;
  }

  function DigestsOf(lines: seq<string>): map<string, string> {
    if lines == [] then map[]
    else
      var front := DigestsOf(lines[..|lines| - 1]);
      var f := Fields(lines[|lines| - 1]);
      if |f| == 3 then front[f[2] := f[0]] else front
  }

  /** What is in the files once all are written: a path written twice keeps the
      later data. */
  function Contents(files: seq<IndexFile>): map<string, Bytes> {
    if files == [] then map[]
    else Contents(files[..|files| - 1])[files[|files| - 1].path := files[|files| - 1].data]
  }

  /** The reader finds every file's SHA256, and nothing else. */
  lemma ReleaseFilesExact(value: string, sum: Bytes -> string, files: seq<IndexFile>)
    requires Lists(value, sum, files)
    ensures var out := DigestsOf(Split(value, '\n'));
            out.Keys == Contents(files).Keys && forall p | p in out :: out[p] == sum(Contents(files)[p])
  {
    DigestsOfLines(Split(value, '\n'), sum, files);
  }

  lemma {:induction false} DigestsOfLines(lines: seq<string>, sum: Bytes -> string, files: seq<IndexFile>)
    requires |lines| == |files| + 1 && Fields(lines[0]) == []
    requires forall i | 0 <= i < |files| ::
                Fields(lines[i + 1]) == [sum(files[i].data), Itoa(|files[i].data|), files[i].path]
    ensures var out := DigestsOf(lines);
            out.Keys == Contents(files).Keys && forall p | p in out :: out[p] == sum(Contents(files)[p])
    decreases |files|
  {
    var n := |files|;
    if n == 0 {
      assert lines[..0] == [];
    } else {
      DigestsOfLines(lines[..n], sum, files[..n - 1]);
      assert Fields(lines[n - 1 + 1]) == [sum(files[n - 1].data), Itoa(|files[n - 1].data|), files[n - 1].path];
    }
  }
}
