/** Debian control data: the parser and the printer of internal/registry/apt/deb.go,
    section 5.1 of the Debian Policy Manual. */
module Deb822 {
  import opened Strings

  /** `v` is the trimmed first line, then the continuation lines with their
      leading white space, joined by newlines. */
  datatype Field = Field(k: string, v: string)

  type Stanza = seq<Field>

  // ---- The scanner ----

  /** The longest token the scanner takes, newline included. */
  const LIMIT: nat := 16 * 1024 * 1024

  /** The first line and what follows it. */
  function CutLine(data: Bytes): (r: (string, Bytes))
    requires data != ""
    ensures '\n' !in r.0 && |r.1| < |data|
  {
    match IndexOf(data, '\n')
    case None => (data, "")
    case Some(i) => (data[..i], data[i + 1..])
  }

  lemma CutLineOf(line: string, rest: Bytes)
    requires '\n' !in line
    ensures CutLine(line + "\n" + rest) == (line, rest)
  {
    var data := line + "\n" + rest;
    assert data[..|line|] == line;
    IndexOfUnique(data, '\n', |line|);
    assert data[|line| + 1..] == rest;
  }

  // ---- The parser ----

  /** The finished stanzas and the one being read. */
  datatype Reader = Reader(out: seq<Stanza>, cur: Stanza)
  {
    function Finish(): seq<Stanza> {
      if cur != [] then out + [cur] else out
    }

    /** `cur[len(cur)-1].V += "\n" + line`. */
    function Continue(line: string): Reader
      requires cur != []
    {
      var last := cur[|cur| - 1];
      this.(cur := cur[..|cur| - 1] + [Field(last.k, last.v + "\n" + line)])
    }
  }

  /** What one line does, its carriage returns stripped. */
  function Feed(r: Reader, line: string): Reader {
    if Blank(line) then Reader(r.Finish(), [])
    else if line[0] == '#' then r
    else if line[0] == ' ' || line[0] == '\t' then
      if r.cur != [] then r.Continue(line) else r
    else
      match IndexOf(line, ':')
      case None => r
      case Some(i) =>
        if i == 0 then r else r.(cur := r.cur + [Field(line[..i], TrimSpace(line[i + 1..]))])
  }

  function ParseFrom(r: Reader, data: Bytes): seq<Stanza>
    decreases |data|
  {
    if data == "" then r.Finish()
    else
      var (line, rest) := CutLine(data);
      if |line| >= LIMIT then r.Finish()
      else ParseFrom(Feed(r, TrimRight(line, '\r')), rest)
  }

  function Parse(data: Bytes): seq<Stanza> {
    ParseFrom(Reader([], []), data)
  }

  method ParseStanzas(data: Bytes) returns (out: seq<Stanza>)
    ensures out == Parse(data)
  {
    out := [];
    var cur: Stanza := [];
    var rest := data;
    while rest != ""
      invariant Parse(data) == ParseFrom(Reader(out, cur), rest)
      decreases |rest|
    {
      var (text, after) := CutLine(rest);
      if |text| >= LIMIT {
        break;
      }
      var line := TrimRight(text, '\r');
      rest := after;
      TrimSpaceBlank(line);
      if TrimSpace(line) == "" {
        if |cur| > 0 {
          out := out + [cur];
          cur := [];
        }
        continue;
      }
      if line[0] == '#' {
        continue;
      }
      if line[0] == ' ' || line[0] == '\t' {
        if |cur| > 0 {
          var last := cur[|cur| - 1];
          cur := cur[..|cur| - 1] + [Field(last.k, last.v + "\n" + line)];
        }
        continue;
      }
      var i := IndexOf(line, ':');
      if i.None? || i.value == 0 {
        continue;
      }
      cur := cur + [Field(line[..i.value], TrimSpace(line[i.value + 1..]))];
    }
    if |cur| > 0 {
      out := out + [cur];
    }
  }

  // ---- The printer ----

  function RenderField(f: Field): Bytes {
    f.k + ":" + (if f.v != "" && f.v[0] != '\n' then " " else "") + f.v + "\n"
  }

  function Render(s: Stanza): Bytes {
    if s == [] then "" else Render(s[..|s| - 1]) + RenderField(s[|s| - 1])
  }

  method RenderTo(buf: Bytes, s: Stanza) returns (r: Bytes)
    ensures r == buf + Render(s)
  {
    r := buf;
    for i := 0 to |s|
      invariant r == buf + Render(s[..i])
    {
      TakeNext(s, i);
      var f := s[i];
      r := r + f.k;
      r := r + ":";
      if f.v != "" && f.v[0] != '\n' {
        r := r + " ";
      }
      r := r + f.v;
      r := r + "\n";
      assert r == buf + (Render(s[..i]) + RenderField(f));
    }
    assert s[..|s|] == s;
  }

  /** Each stanza followed by a blank line, as in a Packages file. */
  function RenderAll(stanzas: seq<Stanza>): Bytes {
    if stanzas == [] then "" else Render(stanzas[0]) + "\n" + RenderAll(stanzas[1..])
  }

  // ---- What the parser produces ----

  /** A line that continues a value. */
  predicate Continuation(line: string) {
    line != "" && (line[0] == ' ' || line[0] == '\t') && !Blank(line) && line[|line| - 1] != '\r' && '\n' !in line
  }

  predicate WfKey(k: string) {
    k != "" && k[0] != ' ' && k[0] != '\t' && k[0] != '#' && ':' !in k && '\n' !in k
  }

  predicate WfLines(lines: seq<string>) {
    lines != [] && Trimmed(lines[0]) && '\n' !in lines[0] && forall i | 1 <= i < |lines| :: Continuation(lines[i])
  }

  predicate WfField(f: Field) {
    WfKey(f.k) && WfLines(Split(f.v, '\n'))
  }

  ghost predicate WfStanza(s: Stanza) {
    s != [] && forall f | f in s :: WfField(f)
  }

  ghost predicate WfStanzas(stanzas: seq<Stanza>) {
    forall s | s in stanzas :: WfStanza(s)
  }

  /** The printed line of the key. */
  function KeyLine(k: string, first: string): string {
    k + ":" + (if first != "" then " " + first else "")
  }

  /** Every printed line of the field is within `limit`. */
  predicate FieldFits(f: Field, limit: nat) {
    var lines := Split(f.v, '\n');
    |KeyLine(f.k, lines[0])| < limit && forall i | 1 <= i < |lines| :: |lines[i]| < limit
  }

  ghost predicate StanzaFits(s: Stanza, limit: nat) {
    forall f | f in s :: FieldFits(f, limit)
  }

  ghost predicate AllFit(stanzas: seq<Stanza>, limit: nat) {
    forall s | s in stanzas :: StanzaFits(s, limit)
  }

  /** Every line of the text has at most `n` characters. */
  ghost predicate LinesUpTo(data: Bytes, n: nat)
    decreases |data|
  {
    data == "" || (|CutLine(data).0| <= n && LinesUpTo(CutLine(data).1, n))
  }

  ghost predicate GoodReader(r: Reader, limit: nat) {
    && WfStanzas(r.out) && AllFit(r.out, limit)
    && (forall f | f in r.cur :: WfField(f) && FieldFits(f, limit))
  }

  lemma KeyLineParses(line: string, limit: nat)
    requires '\n' !in line && line != "" && line[0] != ' ' && line[0] != '\t' && line[0] != '#'
    requires IndexOf(line, ':').Some? && IndexOf(line, ':').value > 0 && |line| + 1 < limit
    ensures var i := IndexOf(line, ':').value;
            var f := Field(line[..i], TrimSpace(line[i + 1..]));
            WfField(f) && FieldFits(f, limit)
  {
    var i := IndexOf(line, ':').value;
    var first := TrimSpace(line[i + 1..]);
    assert '\n' !in first;
    KeyLineField(line[..i], first, limit);
  }

  lemma KeyLineField(k: string, first: string, limit: nat)
    requires WfKey(k) && Trimmed(first) && '\n' !in first && |k| + |first| + 2 < limit
    ensures WfField(Field(k, first)) && FieldFits(Field(k, first), limit)
  {
    SplitJoin([first], '\n');
    KeyLineSize(k, first);
  }

  lemma KeyLineSize(k: string, first: string)
    ensures |KeyLine(k, first)| <= |k| + |first| + 2
  {
  }

  lemma FinishKeepsGood(r: Reader, limit: nat)
    requires GoodReader(r, limit)
    ensures GoodReader(Reader(r.Finish(), []), limit)
  {
  }

  lemma AppendKeepsGood(r: Reader, f: Field, limit: nat)
    requires GoodReader(r, limit) && WfField(f) && FieldFits(f, limit)
    ensures GoodReader(r.(cur := r.cur + [f]), limit)
  {
  }

  lemma ContinuedField(f: Field, line: string, limit: nat)
    requires WfField(f) && FieldFits(f, limit) && Continuation(line) && |line| < limit
    ensures var f' := Field(f.k, f.v + "\n" + line); WfField(f') && FieldFits(f', limit)
  {
    assert f.v + "\n" + line == f.v + ['\n'] + line;
    SplitConcat(f.v, line, '\n');
    assert Split(line, '\n') == [line];
  }

  lemma ContinueKeepsGood(r: Reader, line: string, limit: nat)
    requires GoodReader(r, limit) && r.cur != [] && Continuation(line) && |line| < limit
    ensures GoodReader(r.Continue(line), limit)
  {
    var n := |r.cur| - 1;
    assert r.cur[n] in r.cur;
    ContinuedField(r.cur[n], line, limit);
    assert forall f | f in r.cur[..n] :: f in r.cur;
  }

  lemma FeedKeepsGood(r: Reader, line: string, limit: nat)
    requires GoodReader(r, limit) && '\n' !in line && |line| + 1 < limit
    requires line != "" ==> line[|line| - 1] != '\r'
    ensures GoodReader(Feed(r, line), limit)
  {
    if Blank(line) {
      FinishKeepsGood(r, limit);
    } else if line[0] == '#' {
    } else if line[0] == ' ' || line[0] == '\t' {
      if r.cur != [] {
        ContinueKeepsGood(r, line, limit);
      }
    } else {
      match IndexOf(line, ':') {
        case None =>
        case Some(i) =>
          if i > 0 {
            KeyLineParses(line, limit);
            AppendKeepsGood(r, Field(line[..i], TrimSpace(line[i + 1..])), limit);
          }
      }
    }
  }

  /** Whatever is parsed, the stanzas are well formed; and if every line of the
      input is two short of `limit`, every printed line fits it. */
  lemma {:induction false} ParseFromGood(r: Reader, data: Bytes, limit: nat)
    requires GoodReader(r, limit) && limit <= LIMIT + 1
    requires limit >= 2 && (limit == LIMIT + 1 || LinesUpTo(data, limit - 2))
    ensures WfStanzas(ParseFrom(r, data)) && AllFit(ParseFrom(r, data), limit)
    decreases |data|
  {
    if data != "" {
      var (line, rest) := CutLine(data);
      if |line| < LIMIT {
        var trimmed := TrimRight(line, '\r');
        FeedKeepsGood(r, trimmed, limit);
        ParseFromGood(Feed(r, trimmed), rest, limit);
      }
    }
  }

  // ---- The round trip ----

  /** Lines, each with its newline. */
  function LinesText(lines: seq<string>): Bytes {
    if lines == [] then "" else lines[0] + "\n" + LinesText(lines[1..])
  }

  lemma {:induction false} JoinIsLinesText(lines: seq<string>)
    requires lines != []
    ensures Join(lines, '\n') + "\n" == LinesText(lines)
  {
    if |lines| > 1 {
      JoinIsLinesText(lines[1..]);
    }
  }

  lemma FirstLineShown(v: string)
    ensures v != "" && v[0] != '\n' <==> Split(v, '\n')[0] != ""
  {
  }

  /** A printed field is its key line and its continuation lines. */
  lemma RenderFieldLines(f: Field)
    requires WfField(f)
    ensures var lines := Split(f.v, '\n');
            RenderField(f) == KeyLine(f.k, lines[0]) + "\n" + LinesText(lines[1..])
  {
    var lines := Split(f.v, '\n');
    JoinSplit(f.v, '\n');
    JoinIsLinesText(lines);
    FirstLineShown(f.v);
    Glue(f.k, if lines[0] != "" then " " else "", lines[0], LinesText(lines[1..]), f.v);
  }

  lemma Glue(k: string, space: string, first: string, more: Bytes, v: string)
    requires v + "\n" == first + "\n" + more
    ensures k + ":" + space + v + "\n" == k + ":" + (space + first) + "\n" + more
  {
    assert k + ":" + space + v + "\n" == k + ":" + space + (v + "\n");
  }

  lemma ReadLine(r: Reader, line: string, rest: Bytes)
    requires '\n' !in line && (line != "" ==> line[|line| - 1] != '\r')
    ensures ParseFrom(r, line + "\n" + rest) ==
              if |line| >= LIMIT then r.Finish() else ParseFrom(Feed(r, line), rest)
  {
    CutLineOf(line, rest);
  }

  lemma KeyLineFed(r: Reader, k: string, tail: string)
    requires WfKey(k)
    ensures Feed(r, k + ":" + tail) == r.(cur := r.cur + [Field(k, TrimSpace(tail))])
  {
    var line := k + ":" + tail;
    assert line[|k|] == ':' && line[0] == k[0];
    assert line[..|k|] == k;
    assert line[|k| + 1..] == tail;
    IndexOfUnique(line, ':', |k|);
    assert !IsSpace(line[|k|]);
  }

  lemma KeyLineEnds(k: string, first: string)
    requires WfKey(k) && Trimmed(first) && '\n' !in first
    ensures '\n' !in KeyLine(k, first) && KeyLine(k, first)[|KeyLine(k, first)| - 1] != '\r'
  {
    if first != "" {
      var line := KeyLine(k, first);
      assert line[|line| - 1] == first[|first| - 1];
      assert IsSpace('\r');
    }
  }

  lemma KeyLineRead(r: Reader, k: string, first: string, rest: Bytes)
    requires WfKey(k) && Trimmed(first) && '\n' !in first
    ensures ParseFrom(r, KeyLine(k, first) + "\n" + rest) ==
              if |KeyLine(k, first)| >= LIMIT then r.Finish()
              else ParseFrom(Reader(r.out, r.cur + [Field(k, first)]), rest)
  {
    var tail := if first != "" then " " + first else "";
    KeyLineEnds(k, first);
    ReadLine(r, KeyLine(k, first), rest);
    KeyLineFed(r, k, tail);
    TrimSpaceOfTrimmed(first);
  }

  lemma LinesTextFrom(lines: seq<string>, j: nat, rest: Bytes)
    requires j < |lines|
    ensures LinesText(lines[j..]) + rest == lines[j] + "\n" + (LinesText(lines[j + 1..]) + rest)
  {
    assert lines[j..][1..] == lines[j + 1..];
  }

  /** The reader in the middle of a field: its first j lines are read. */
  function Midway(out: seq<Stanza>, cur: Stanza, k: string, lines: seq<string>, j: nat): Reader
    requires j <= |lines|
  {
    Reader(out, cur + [Field(k, Join(lines[..j], '\n'))])
  }

  lemma MidwayFed(out: seq<Stanza>, cur: Stanza, k: string, lines: seq<string>, j: nat)
    requires WfLines(lines) && 1 <= j < |lines|
    ensures Feed(Midway(out, cur, k, lines, j), lines[j]) == Midway(out, cur, k, lines, j + 1)
  {
    JoinSnoc(lines[..j], lines[j], '\n');
    assert lines[..j] + [lines[j]] == lines[..j + 1];
  }

  lemma MidwayStep(out: seq<Stanza>, cur: Stanza, k: string, lines: seq<string>, j: nat, rest: Bytes)
    requires WfLines(lines) && 1 <= j < |lines|
    ensures ParseFrom(Midway(out, cur, k, lines, j), LinesText(lines[j..]) + rest) ==
              if |lines[j]| >= LIMIT then Midway(out, cur, k, lines, j).Finish()
              else ParseFrom(Midway(out, cur, k, lines, j + 1), LinesText(lines[j + 1..]) + rest)
  {
    LinesTextFrom(lines, j, rest);
    ReadLine(Midway(out, cur, k, lines, j), lines[j], LinesText(lines[j + 1..]) + rest);
    MidwayFed(out, cur, k, lines, j);
  }

  /** From the j-th line on, the parser ends with `result`. */
  ghost predicate ReadsTo(
    out: seq<Stanza>, cur: Stanza, k: string, lines: seq<string>, rest: Bytes, result: seq<Stanza>, j: nat)
  {
    j <= |lines| && ParseFrom(Midway(out, cur, k, lines, j), LinesText(lines[j..]) + rest) == result
  }

  ghost predicate Back(p: nat -> bool, i: nat) {
    p(i + 1) ==> p(i)
  }

  lemma {:induction false} Backwards(p: nat -> bool, n: nat)
    requires n >= 1 && p(n) && forall i | 1 <= i < n :: Back(p, i)
    ensures p(1)
  {
    if n > 1 {
      assert Back(p, n - 1);
      Backwards(p, n - 1);
    }
  }

  lemma StepBack(
    out: seq<Stanza>, cur: Stanza, k: string, lines: seq<string>, rest: Bytes, result: seq<Stanza>, j: nat)
    requires WfLines(lines) && 1 <= j < |lines| && |lines[j]| < LIMIT
    ensures ReadsTo(out, cur, k, lines, rest, result, j + 1) ==> ReadsTo(out, cur, k, lines, rest, result, j)
  {
    MidwayStep(out, cur, k, lines, j, rest);
  }

  /** The continuation lines before the n-th are read back onto the value: the
      parser is then where the rest leads it. */
  lemma ContinuationsRead(
    out: seq<Stanza>, cur: Stanza, k: string, lines: seq<string>, n: nat, rest: Bytes, result: seq<Stanza>)
    requires WfLines(lines) && 1 <= n <= |lines|
    requires forall i | 1 <= i < n :: |lines[i]| < LIMIT
    requires ReadsTo(out, cur, k, lines, rest, result, n)
    ensures ReadsTo(out, cur, k, lines, rest, result, 1)
  {
    ghost var p := (j: nat) => ReadsTo(out, cur, k, lines, rest, result, j);
    forall i | 1 <= i < n
      ensures Back(p, i)
    {
      StepBack(out, cur, k, lines, rest, result, i);
    }
    Backwards(p, n);
  }

  lemma FieldRead(r: Reader, f: Field, rest: Bytes)
    requires WfField(f) && FieldFits(f, LIMIT)
    ensures ParseFrom(r, RenderField(f) + rest) == ParseFrom(Reader(r.out, r.cur + [f]), rest)
  {
    var lines := Split(f.v, '\n');
    RenderFieldLines(f);
    JoinSplit(f.v, '\n');
    var tail := LinesText(lines[1..]) + rest;
    assert RenderField(f) + rest == KeyLine(f.k, lines[0]) + "\n" + tail;
    KeyLineRead(r, f.k, lines[0], tail);
    assert lines[..1] == [lines[0]] && lines[..|lines|] == lines;
    assert LinesText(lines[|lines|..]) + rest == rest;
    ContinuationsRead(r.out, r.cur, f.k, lines, |lines|, rest, ParseFrom(Reader(r.out, r.cur + [f]), rest));
  }

  lemma {:induction false} StanzaRead(r: Reader, s: Stanza, rest: Bytes)
    requires (forall f | f in s :: WfField(f)) && StanzaFits(s, LIMIT)
    ensures ParseFrom(r, Render(s) + rest) == ParseFrom(Reader(r.out, r.cur + s), rest)
  {
    if s == [] {
      assert Render(s) + rest == rest && r.cur + s == r.cur;
    } else {
      var front, f := s[..|s| - 1], s[|s| - 1];
      assert Render(s) + rest == Render(front) + (RenderField(f) + rest);
      StanzaRead(r, front, RenderField(f) + rest);
      FieldRead(Reader(r.out, r.cur + front), f, rest);
      assert r.cur + front + [f] == r.cur + s;
    }
  }

  lemma BlankLineRead(out: seq<Stanza>, cur: Stanza, rest: Bytes)
    requires cur != []
    ensures ParseFrom(Reader(out, cur), "\n" + rest) == ParseFrom(Reader(out + [cur], []), rest)
  {
    ReadLine(Reader(out, cur), "", rest);
    assert "" + "\n" + rest == "\n" + rest;
  }

  lemma FirstStanzaRead(out: seq<Stanza>, stanzas: seq<Stanza>)
    requires stanzas != [] && WfStanza(stanzas[0]) && StanzaFits(stanzas[0], LIMIT)
    ensures ParseFrom(Reader(out, []), RenderAll(stanzas)) ==
                ParseFrom(Reader(out + [stanzas[0]], []), RenderAll(stanzas[1..]))
  {
    var s, more := stanzas[0], stanzas[1..];
    assert RenderAll(stanzas) == Render(s) + ("\n" + RenderAll(more));
    StanzaRead(Reader(out, []), s, "\n" + RenderAll(more));
    assert [] + s == s;
    BlankLineRead(out, s, RenderAll(more));
  }

  lemma NothingRead(out: seq<Stanza>)
    ensures ParseFrom(Reader(out, []), RenderAll([])) == out
  {
  }

  lemma {:induction false} StanzasRead(out: seq<Stanza>, stanzas: seq<Stanza>)
    requires WfStanzas(stanzas) && AllFit(stanzas, LIMIT)
    ensures ParseFrom(Reader(out, []), RenderAll(stanzas)) == out + stanzas
    decreases |stanzas|
  {
    if stanzas == [] {
      NothingRead(out);
      assert out + stanzas == out;
    } else {
      var s, more := stanzas[0], stanzas[1..];
      FirstFits(stanzas);
      assert out + [s] + more == out + stanzas;
      StanzasRead(out + [s], more);
      FirstStanzaRead(out, stanzas);
    }
  }

  lemma FirstFits(stanzas: seq<Stanza>)
    requires stanzas != [] && WfStanzas(stanzas) && AllFit(stanzas, LIMIT)
    ensures WfStanza(stanzas[0]) && StanzaFits(stanzas[0], LIMIT)
    ensures WfStanzas(stanzas[1..]) && AllFit(stanzas[1..], LIMIT)
  {
    assert stanzas[0] in stanzas;
    assert forall s | s in stanzas[1..] :: s in stanzas;
  }

  // ---- Exactly when it holds ----

  /** The lines of a field, of a stanza, of stanzas. */
  function FieldLines(f: Field): nat {
    |Split(f.v, '\n')|
  }

  function StanzaLines(s: Stanza): nat {
    if s == [] then 0 else StanzaLines(s[..|s| - 1]) + FieldLines(s[|s| - 1])
  }

  function TotalLines(stanzas: seq<Stanza>): nat {
    if stanzas == [] then 0 else TotalLines(stanzas[..|stanzas| - 1]) + StanzaLines(stanzas[|stanzas| - 1])
  }

  function ReaderLines(r: Reader): nat {
    TotalLines(r.out) + StanzaLines(r.cur)
  }

  lemma FinishLines(r: Reader)
    ensures TotalLines(r.Finish()) == ReaderLines(r)
  {
    if r.cur != [] {
      assert (r.out + [r.cur])[..|r.out|] == r.out;
    }
  }

  lemma StanzaLinesSnoc(s: Stanza, f: Field)
    ensures StanzaLines(s + [f]) == StanzaLines(s) + FieldLines(f)
  {
    assert (s + [f])[..|s|] == s;
  }

  lemma MidwayLines(out: seq<Stanza>, cur: Stanza, k: string, lines: seq<string>, j: nat)
    requires WfLines(lines) && 1 <= j <= |lines|
    ensures TotalLines(Midway(out, cur, k, lines, j).Finish()) == TotalLines(out) + StanzaLines(cur) + j
  {
    FinishLines(Midway(out, cur, k, lines, j));
    StanzaLinesSnoc(cur, Field(k, Join(lines[..j], '\n')));
    SplitJoin(lines[..j], '\n');
  }

  lemma {:induction false} FirstLong(lines: seq<string>, j: nat) returns (n: nat)
    requires exists i :: j <= i < |lines| && |lines[i]| >= LIMIT
    ensures j <= n < |lines| && |lines[n]| >= LIMIT && forall i | j <= i < n :: |lines[i]| < LIMIT
    decreases |lines| - j
  {
    if |lines[j]| >= LIMIT {
      n := j;
    } else {
      n := FirstLong(lines, j + 1);
    }
  }

  /** Where a continuation line is too long the scan stops short. */
  lemma ContinuationsCut(out: seq<Stanza>, cur: Stanza, k: string, lines: seq<string>, rest: Bytes)
    requires WfLines(lines) && exists i :: 1 <= i < |lines| && |lines[i]| >= LIMIT
    ensures TotalLines(ParseFrom(Midway(out, cur, k, lines, 1), LinesText(lines[1..]) + rest))
          < TotalLines(out) + StanzaLines(cur) + |lines|
  {
    var n := FirstLong(lines, 1);
    MidwayStep(out, cur, k, lines, n, rest);
    ContinuationsRead(out, cur, k, lines, n, rest, Midway(out, cur, k, lines, n).Finish());
    MidwayLines(out, cur, k, lines, n);
  }

  lemma FieldCut(r: Reader, f: Field, rest: Bytes)
    requires WfField(f) && !FieldFits(f, LIMIT)
    ensures TotalLines(ParseFrom(r, RenderField(f) + rest)) < ReaderLines(r) + FieldLines(f)
  {
    var lines := Split(f.v, '\n');
    RenderFieldLines(f);
    var tail := LinesText(lines[1..]) + rest;
    assert RenderField(f) + rest == KeyLine(f.k, lines[0]) + "\n" + tail;
    KeyLineRead(r, f.k, lines[0], tail);
    if |KeyLine(f.k, lines[0])| >= LIMIT {
      FinishLines(r);
    } else {
      assert lines[..1] == [lines[0]];
      ContinuationsCut(r.out, r.cur, f.k, lines, rest);
    }
  }

  lemma {:induction false} StanzaCut(r: Reader, s: Stanza, rest: Bytes)
    requires (forall f | f in s :: WfField(f)) && !StanzaFits(s, LIMIT)
    ensures TotalLines(ParseFrom(r, Render(s) + rest)) < ReaderLines(r) + StanzaLines(s)
  {
    var front, f := s[..|s| - 1], s[|s| - 1];
    assert s == front + [f];
    assert Render(s) + rest == Render(front) + (RenderField(f) + rest);
    if StanzaFits(front, LIMIT) {
      StanzaRead(r, front, RenderField(f) + rest);
      StanzaLinesConcat(r.cur, front);
      FieldCut(Reader(r.out, r.cur + front), f, rest);
    } else {
      StanzaCut(r, front, RenderField(f) + rest);
    }
  }

  lemma {:induction false} StanzaLinesConcat(a: Stanza, b: Stanza)
    ensures StanzaLines(a + b) == StanzaLines(a) + StanzaLines(b)
  {
    if b == [] {
      assert a + b == a;
    } else {
      StanzaLinesConcat(a, b[..|b| - 1]);
      assert a + b == a + b[..|b| - 1] + [b[|b| - 1]];
      StanzaLinesSnoc(a + b[..|b| - 1], b[|b| - 1]);
    }
  }

  lemma {:induction false} StanzasCut(out: seq<Stanza>, stanzas: seq<Stanza>)
    requires WfStanzas(stanzas) && !AllFit(stanzas, LIMIT)
    ensures TotalLines(ParseFrom(Reader(out, []), RenderAll(stanzas))) < TotalLines(out + stanzas)
    decreases |stanzas|
  {
    var s, more := stanzas[0], stanzas[1..];
    var tail := "\n" + RenderAll(more);
    assert stanzas == [s] + more;
    assert RenderAll(stanzas) == Render(s) + tail;
    assert out + stanzas == out + [s] + more;
    assert s in stanzas && WfStanza(s);
    if StanzaFits(s, LIMIT) {
      FirstStanzaRead(out, stanzas);
      StanzasCut(out + [s], more);
    } else {
      StanzaCut(Reader(out, []), s, tail);
      assert (out + [s])[..|out|] == out;
      TotalLinesGrow(out + [s], more);
    }
  }

  lemma {:induction false} TotalLinesGrow(a: seq<Stanza>, b: seq<Stanza>)
    ensures TotalLines(a) <= TotalLines(a + b)
  {
    if b == [] {
      assert a + b == a;
    } else {
      TotalLinesGrow(a, b[..|b| - 1]);
      assert (a + b)[..|a + b| - 1] == a + b[..|b| - 1];
    }
  }

  /** The parser undoes the printer exactly on the stanzas whose printed lines
      the scanner takes. */
  lemma RoundTripExact(stanzas: seq<Stanza>)
    requires WfStanzas(stanzas)
    ensures Parse(RenderAll(stanzas)) == stanzas <==> AllFit(stanzas, LIMIT)
  {
    assert [] + stanzas == stanzas;
    if AllFit(stanzas, LIMIT) {
      StanzasRead([], stanzas);
    } else {
      StanzasCut([], stanzas);
    }
  }

  /** For every input: what is parsed is well formed, so printing and parsing
      again gives the same stanzas, if the printed lines fit. */
  lemma ReparseExact(data: Bytes)
    ensures WfStanzas(Parse(data))
    ensures Parse(RenderAll(Parse(data))) == Parse(data) <==> AllFit(Parse(data), LIMIT)
  {
    ParseFromGood(Reader([], []), data, LIMIT + 1);
    RoundTripExact(Parse(data));
  }

  /** They do for every input whose lines are two short of the scanner's limit,
      since printing adds at most the space behind the colon. */
  lemma ReparseSameStanzas(data: Bytes)
    requires LinesUpTo(data, LIMIT - 2)
    ensures Parse(RenderAll(Parse(data))) == Parse(data)
  {
    ParseFromGood(Reader([], []), data, LIMIT);
    ReparseExact(data);
  }

  /** A line of the greatest length the scanner takes, with no space behind its
      colon, is not read back: printing it makes it one too long. */
  lemma LongestLineLost(k: string, v: string)
    requires WfKey(k) && v != "" && Trimmed(v) && '\n' !in v
    requires |k| + 1 + |v| == LIMIT - 1
    ensures Parse(k + ":" + v) == [[Field(k, v)]]
    ensures Parse(RenderAll([[Field(k, v)]])) != [[Field(k, v)]]
  {
    OnlyLineRead(k, v);
    TooLongField(k, v);
  }

  lemma OnlyLineRead(k: string, v: string)
    requires WfKey(k) && v != "" && Trimmed(v) && '\n' !in v && |k| + 1 + |v| < LIMIT
    ensures Parse(k + ":" + v) == [[Field(k, v)]]
  {
    var line := k + ":" + v;
    assert line[|line| - 1] == v[|v| - 1] && IsSpace('\r');
    LastLineRead(Reader([], []), line);
    KeyLineFed(Reader([], []), k, v);
    TrimSpaceOfTrimmed(v);
    assert Feed(Reader([], []), line) == Reader([], [Field(k, v)]);
  }

  lemma TooLongField(k: string, v: string)
    requires WfKey(k) && v != "" && Trimmed(v) && '\n' !in v
    requires |k| + 1 + |v| == LIMIT - 1
    ensures Parse(RenderAll([[Field(k, v)]])) != [[Field(k, v)]]
  {
    var f := Field(k, v);
    assert Split(v, '\n') == [v];
    assert WfField(f) && !FieldFits(f, LIMIT);
    assert f in [f] && [f] in [[f]];
    assert !StanzaFits([f], LIMIT);
    RoundTripExact([[f]]);
  }

  lemma LastLineRead(r: Reader, line: string)
    requires '\n' !in line && 0 < |line| < LIMIT && line[|line| - 1] != '\r'
    ensures ParseFrom(r, line) == Feed(r, line).Finish()
  {
    assert CutLine(line) == (line, "");
  }

  // ---- Single lines ----

  lemma OneLineRead(r: Reader, line: string, rest: Bytes)
    requires '\n' !in line && |line| < LIMIT
    ensures ParseFrom(r, line + "\n" + rest) == ParseFrom(Feed(r, TrimRight(line, '\r')), rest)
  {
    CutLineOf(line, rest);
  }

  /** Comments, lines without a key, and continuations of nothing are passed
      over. */
  lemma LinesIgnored(r: Reader, line: string, rest: Bytes)
    requires '\n' !in line && |line| < LIMIT && !Blank(line) && line[|line| - 1] != '\r'
    requires line[0] == '#' || (line[0] != ' ' && line[0] != '\t' && (':' !in line || line[0] == ':'))
          || (r.cur == [] && (line[0] == ' ' || line[0] == '\t'))
    ensures ParseFrom(r, line + "\n" + rest) == ParseFrom(r, rest)
  {
    OneLineRead(r, line, rest);
    assert TrimRight(line, '\r') == line;
    if ':' in line && line[0] == ':' {
      IndexOfUnique(line, ':', 0);
    }
  }

  /** A blank line ends a stanza, and further ones end nothing. */
  lemma BlankLineEnds(r: Reader, line: string, rest: Bytes)
    requires '\n' !in line && |line| < LIMIT && Blank(line)
    ensures ParseFrom(r, line + "\n" + rest) ==
              ParseFrom(Reader(if r.cur == [] then r.out else r.out + [r.cur], []), rest)
  {
    OneLineRead(r, line, rest);
    assert TrimRight(line, '\r') <= line;
  }

  /** A key up to the first colon and its value without white space around it;
      then every line that starts with a space or a tab goes to that value. */
  lemma KeyAndValueRead(r: Reader, k: string, v: string, rest: Bytes)
    requires WfKey(k) && '\n' !in v && |k| + 1 + |v| < LIMIT && (v != "" ==> v[|v| - 1] != '\r')
    ensures ParseFrom(r, k + ":" + v + "\n" + rest) == ParseFrom(r.(cur := r.cur + [Field(k, TrimSpace(v))]), rest)
  {
    var line := k + ":" + v;
    KeyLineLast(line, k, v);
    OneLineRead(r, line, rest);
    KeyLineFed(r, k, v);
  }

  lemma KeyLineLast(line: string, k: string, v: string)
    requires WfKey(k) && line == k + ":" + v && '\n' !in v && (v != "" ==> v[|v| - 1] != '\r')
    ensures TrimRight(line, '\r') == line && '\n' !in line && |line| == |k| + 1 + |v|
  {
    assert line[|line| - 1] == if v != "" then v[|v| - 1] else ':';
  }

  lemma ContinuationRead(r: Reader, f: Field, line: string, rest: Bytes)
    requires Continuation(line) && |line| < LIMIT && r.cur != [] && r.cur[|r.cur| - 1] == f
    ensures ParseFrom(r, line + "\n" + rest) ==
              ParseFrom(r.(cur := r.cur[|r.cur| - 1 := Field(f.k, f.v + "\n" + line)]), rest)
  {
    OneLineRead(r, line, rest);
    assert TrimRight(line, '\r') == line;
    var n := |r.cur| - 1;
    assert r.cur[..n] + [Field(f.k, f.v + "\n" + line)] == r.cur[n := Field(f.k, f.v + "\n" + line)];
  }

  /** Carriage returns at the end of a line make no difference. */
  lemma CarriageReturns(r: Reader, line: string, rest: Bytes)
    requires '\n' !in line && |line| + 1 < LIMIT
    ensures ParseFrom(r, line + "\r" + "\n" + rest) == ParseFrom(r, line + "\n" + rest)
  {
    OneLineRead(r, line + "\r", rest);
    OneLineRead(r, line, rest);
    assert (line + "\r")[..|line|] == line;
  }
}
