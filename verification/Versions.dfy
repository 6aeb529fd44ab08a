/** The version order the registries sort by
    (internal/registry/pkgbase/version.go), on ASCII versions. */
module Versions {
  import opened Strings
  import opened Sorting

  /** A run of digits or of letters. */
  datatype Token = Num(n: nat) | Word(s: string)

  const MAX_INT64: nat := 0x7FFF_FFFF_FFFF_FFFF

  /** `strconv.ParseInt` saturates, and the error is ignored. */
  function Saturate(n: nat): nat {
    if n > MAX_INT64 then MAX_INT64 else n
  }

  /** A pending run: nothing yet, digits or letters. */
  datatype Run = NoRun | Digits(value: nat) | Letters(text: string)

  function Flush(run: Run): seq<Token> {
    match run
    case NoRun => []
    case Digits(v) => [Num(Saturate(v))]
    case Letters(t) => [Word(t)]
  }

  function TokenizeFrom(v: string, run: Run): seq<Token> {
    if v == "" then Flush(run)
    else
      var c := v[0];
      if IsDigit(c) then
        var d := (c - '0') as int;
        match run
        case Digits(n) => TokenizeFrom(v[1..], Digits(n * 10 + d))
        case _ => Flush(run) + TokenizeFrom(v[1..], Digits(d))
      else if IsLetter(c) then
        match run
        case Letters(t) => TokenizeFrom(v[1..], Letters(t + [LowerChar(c)]))
        case _ => Flush(run) + TokenizeFrom(v[1..], Letters([LowerChar(c)]))
      else Flush(run) + TokenizeFrom(v[1..], NoRun)
  }

  function Tokenize(v: string): seq<Token> {
    TokenizeFrom(v, NoRun)
  }

  function CompareStrings(a: string, b: string): int {
    if a == b then 0 else if StrLeq(a, b) then -1 else 1
  }

  function CompareToken(x: Token, y: Token): int {
    match (x, y)
    case (Num(m), Num(n)) => if m < n then -1 else if m > n then 1 else 0
    case (Num(_), Word(_)) => 1
    case (Word(_), Num(_)) => -1
    case (Word(s), Word(t)) => CompareStrings(s, t)
  }

  /** A missing token is above a word and below a number. */
  function CompareTokens(a: seq<Token>, b: seq<Token>): int {
    if a == [] && b == [] then 0
    else if a == [] then (if b[0].Num? then -1 else 1)
    else if b == [] then (if a[0].Num? then 1 else -1)
    else
      var c := CompareToken(a[0], b[0]);
      if c != 0 then c else CompareTokens(a[1..], b[1..])
  }

  function StripV(v: string): string {
    var w := if "v" <= v then v[1..] else v;
    if "V" <= w then w[1..] else w
  }

  function StripBuild(v: string): string {
    match IndexOf(v, '+')
    case None => v
    case Some(i) => v[..i]
  }

  function SplitPre(v: string): (string, string) {
    match IndexOf(v, '-')
    case None => (v, "")
    case Some(i) => if i > 0 then (v[..i], v[i + 1..]) else (v, "")
  }

  function CompareVersions(a: string, b: string): int {
    if a == b then 0
    else
      var (ac, apre) := SplitPre(StripBuild(StripV(a)));
      var (bc, bpre) := SplitPre(StripBuild(StripV(b)));
      var c := CompareTokens(Tokenize(ac), Tokenize(bc));
      if c != 0 then c
      else if apre == "" && bpre == "" then 0
      else if apre == "" then 1
      else if bpre == "" then -1
      else CompareTokens(Tokenize(apre), Tokenize(bpre))
  }

  predicate VersionLeq(a: string, b: string) {
    CompareVersions(a, b) <= 0
  }

  // ---- The order is a total preorder ----

  lemma CompareStringsOrder(a: string, b: string, c: string)
    ensures CompareStrings(a, b) == -CompareStrings(b, a)
    ensures CompareStrings(a, b) <= 0 && CompareStrings(b, c) <= 0 ==> CompareStrings(a, c) <= 0
    ensures CompareStrings(a, b) == 0 ==> a == b
  {
    StrLeqTotal(a, b);
    StrLeqTotal(a, c);
    StrLeqReflexive(a);
    if StrLeq(a, b) && StrLeq(b, c) {
      StrLeqTransitive(a, b, c);
    }
  }

  lemma CompareTokenOrder(a: Token, b: Token, c: Token)
    ensures CompareToken(a, b) == -CompareToken(b, a)
    ensures CompareToken(a, b) <= 0 && CompareToken(b, c) <= 0 ==> CompareToken(a, c) <= 0
    ensures CompareToken(a, b) == 0 ==> a == b
  {
    if a.Word? && b.Word? {
      CompareStringsOrder(a.s, b.s, if c.Word? then c.s else "");
    }
  }

  lemma {:induction false} CompareTokensAntisymmetric(a: seq<Token>, b: seq<Token>)
    ensures CompareTokens(a, b) == -CompareTokens(b, a)
  {
    if a != [] && b != [] {
      CompareTokenOrder(a[0], b[0], b[0]);
      CompareTokensAntisymmetric(a[1..], b[1..]);
    }
  }

  lemma {:induction false} CompareTokensTransitive(a: seq<Token>, b: seq<Token>, c: seq<Token>)
    requires CompareTokens(a, b) <= 0 && CompareTokens(b, c) <= 0
    ensures CompareTokens(a, c) <= 0
    ensures CompareTokens(a, c) == 0 ==> CompareTokens(a, b) == 0 && CompareTokens(b, c) == 0
  {
    if a != [] && b != [] && c != [] {
      CompareTokenOrder(a[0], b[0], c[0]);
      CompareTokenOrder(b[0], c[0], a[0]);
      CompareTokenOrder(c[0], a[0], b[0]);
      if a[0] == b[0] == c[0] {
        CompareTokensTransitive(a[1..], b[1..], c[1..]);
      }
    }
  }

  /** Sorting by version is well defined: the comparator never contradicts
      itself, whatever the versions look like. */
  lemma VersionOrder()
    ensures TotalPreorder(VersionLeq)
  {
    forall a, b
      ensures VersionLeq(a, b) || VersionLeq(b, a)
    {
      CompareAntisymmetric(a, b);
    }
    forall a, b, c | VersionLeq(a, b) && VersionLeq(b, c)
      ensures VersionLeq(a, c)
    {
      CompareTransitive(a, b, c);
    }
  }

  lemma CompareAntisymmetric(a: string, b: string)
    ensures CompareVersions(a, b) == -CompareVersions(b, a)
  {
    var (ac, apre) := SplitPre(StripBuild(StripV(a)));
    var (bc, bpre) := SplitPre(StripBuild(StripV(b)));
    CompareTokensAntisymmetric(Tokenize(ac), Tokenize(bc));
    CompareTokensAntisymmetric(Tokenize(apre), Tokenize(bpre));
  }

  lemma CompareTransitive(a: string, b: string, c: string)
    requires VersionLeq(a, b) && VersionLeq(b, c)
    ensures VersionLeq(a, c)
  {
    if a != b && b != c && a != c {
      var (ac, apre) := SplitPre(StripBuild(StripV(a)));
      var (bc, bpre) := SplitPre(StripBuild(StripV(b)));
      var (cc, cpre) := SplitPre(StripBuild(StripV(c)));
      CompareTokensTransitive(Tokenize(ac), Tokenize(bc), Tokenize(cc));
      if apre != "" && bpre != "" && cpre != ""
         && CompareTokens(Tokenize(apre), Tokenize(bpre)) <= 0 && CompareTokens(Tokenize(bpre), Tokenize(cpre)) <= 0 {
        CompareTokensTransitive(Tokenize(apre), Tokenize(bpre), Tokenize(cpre));
      }
    }
  }

  // ---- What the order means ----

  /** Digits after digits make one number. */
  lemma {:induction false} DigitsGather(s: string, i: nat, rest: string)
    requires AllDigits(s) && i <= |s|
    ensures TokenizeFrom(s[i..] + rest, Digits(DigitsValue(s[..i]))) == TokenizeFrom(rest, Digits(DigitsValue(s)))
    decreases |s| - i
  {
    if i == |s| {
      assert s[i..] + rest == rest && s[..i] == s;
    } else {
      var v := s[i..] + rest;
      assert v[0] == s[i] && v[1..] == s[i + 1..] + rest;
      assert s[..i + 1][..i] == s[..i];
      DigitsGather(s, i + 1, rest);
    }
  }

  lemma NumberToken(s: string, rest: string)
    requires s != "" && AllDigits(s)
    ensures TokenizeFrom(s + rest, NoRun) == TokenizeFrom(rest, Digits(DigitsValue(s)))
  {
    assert (s + rest)[0] == s[0] && (s + rest)[1..] == s[1..] + rest;
    assert s[..1][..0] == "" && s[..1] == [s[0]];
    assert DigitsValue(s[..1]) == (s[0] - '0') as int;
    DigitsGather(s, 1, rest);
  }

  /** Numbers between dots, as in "1.10.0". */
  function Dotted(numbers: seq<nat>): string {
    if numbers == [] then ""
    else if |numbers| == 1 then Itoa(numbers[0])
    else Itoa(numbers[0]) + "." + Dotted(numbers[1..])
  }

  /** Within what an int64 holds. */
  predicate Small(numbers: seq<nat>) {
    forall n | n in numbers :: n <= MAX_INT64
  }

  function Nums(numbers: seq<nat>): seq<Token> {
    seq(|numbers|, i requires 0 <= i < |numbers| => Num(numbers[i]))
  }

  lemma {:induction false} DottedTokens(numbers: seq<nat>)
    requires Small(numbers)
    ensures Tokenize(Dotted(numbers)) == Nums(numbers)
    decreases |numbers|
  {
    if numbers != [] {
      var n := numbers[0];
      DigitsValueOfItoa(n);
      assert n in numbers;
      if |numbers| == 1 {
        NumberToken(Itoa(n), "");
        assert Itoa(n) + "" == Itoa(n);
      } else {
        var rest := Dotted(numbers[1..]);
        assert forall m | m in numbers[1..] :: m in numbers;
        DottedTokens(numbers[1..]);
        NumberToken(Itoa(n), "." + rest);
        assert ("." + rest)[1..] == rest;
        assert Itoa(n) + "." + rest == Itoa(n) + ("." + rest);
        assert Nums(numbers) == [Num(n)] + Nums(numbers[1..]);
      }
    }
  }

  /** Number by number; of two versions that agree as far as they go, the shorter
      is below. */
  function Order(a: seq<nat>, b: seq<nat>): int {
    if a == [] && b == [] then 0
    else if a == [] || (b != [] && a[0] < b[0]) then -1
    else if b == [] || a[0] > b[0] then 1
    else Order(a[1..], b[1..])
  }

  lemma {:induction false} NumsOrder(a: seq<nat>, b: seq<nat>)
    ensures CompareTokens(Nums(a), Nums(b)) == Order(a, b)
  {
    if a != [] && b != [] {
      NumsOrder(a[1..], b[1..]);
      assert Nums(a)[1..] == Nums(a[1..]) && Nums(b)[1..] == Nums(b[1..]);
    }
  }

  lemma {:induction false} DottedPlain(numbers: seq<nat>)
    ensures '+' !in Dotted(numbers) && '-' !in Dotted(numbers)
    ensures Dotted(numbers) != "" ==> IsDigit(Dotted(numbers)[0])
    decreases |numbers|
  {
    if |numbers| > 1 {
      DottedPlain(numbers[1..]);
    }
  }

  /** What stands before a pre-release or build. */
  predicate Plain(core: string) {
    core != "" && '+' !in core && '-' !in core && core[0] != 'v' && core[0] != 'V'
  }

  lemma PlainParts(core: string)
    requires Plain(core)
    ensures SplitPre(StripBuild(StripV(core))) == (core, "")
  {
    assert StripV(core) == core;
  }

  lemma BuildParts(core: string, build: string)
    requires Plain(core)
    ensures SplitPre(StripBuild(StripV(core + "+" + build))) == (core, "")
  {
    var v := core + "+" + build;
    assert v[0] == core[0] && StripV(v) == v;
    IndexOfUnique(v, '+', |core|);
    assert v[..|core|] == core;
  }

  lemma PreParts(core: string, pre: string)
    requires Plain(core) && '+' !in pre
    ensures SplitPre(StripBuild(StripV(core + "-" + pre))) == (core, pre)
  {
    var v := core + "-" + pre;
    assert v[0] == core[0] && StripV(v) == v;
    assert v[..|core|] == core;
    IndexOfUnique(v, '-', |core|);
    assert v[|core| + 1..] == pre;
  }

  lemma VParts(core: string)
    requires Plain(core)
    ensures SplitPre(StripBuild(StripV("v" + core))) == (core, "")
  {
    assert ("v" + core)[1..] == core;
  }

  lemma {:induction false} SameTokens(a: seq<Token>)
    ensures CompareTokens(a, a) == 0
  {
    if a != [] {
      CompareTokenOrder(a[0], a[0], a[0]);
      SameTokens(a[1..]);
    }
  }

  /** Releases are ordered number by number, so that 1.9 is below 1.10. */
  lemma ReleasesByNumber(a: seq<nat>, b: seq<nat>)
    requires a != [] && b != [] && Small(a) && Small(b)
    ensures CompareVersions(Dotted(a), Dotted(b)) == Order(a, b)
  {
    DottedTokens(a);
    DottedTokens(b);
    NumsOrder(a, b);
    SameTokens(Nums(a));
    DottedStarts(a);
    DottedStarts(b);
    PlainParts(Dotted(a));
    PlainParts(Dotted(b));
  }

  lemma DottedStarts(numbers: seq<nat>)
    requires numbers != []
    ensures Plain(Dotted(numbers))
  {
    DottedPlain(numbers);
    assert Itoa(numbers[0]) <= Dotted(numbers);
  }

  /** A pre-release is below its release, a build and a leading "v" count for
      nothing. */
  lemma SuffixOrder(core: string, pre: string, build: string)
    requires Plain(core) && pre != "" && '+' !in pre
    ensures CompareVersions(core + "-" + pre, core) == -1 && CompareVersions(core, core + "-" + pre) == 1
    ensures CompareVersions(core + "+" + build, core) == 0
    ensures CompareVersions("v" + core, core) == 0
  {
    PlainParts(core);
    PreParts(core, pre);
    BuildParts(core, build);
    VParts(core);
    SameTokens(Tokenize(core));
    assert |core + "-" + pre| > |core|;
  }

  lemma StripVs(core: string, v: string, rest: string)
    requires Plain(core) && (v == "V" || (v == "vV")) && rest == v + core
    ensures SplitPre(StripBuild(StripV(rest))) == (core, "")
  {
    if v == "V" {
      assert rest[1..] == core && rest[0] == 'V';
    } else {
      assert rest[1..][1..] == core && rest[0] == 'v' && rest[1] == 'V';
    }
  }

  /** A capital "V" counts for nothing either, nor does it behind a small one; and
      a dash in front starts no pre-release. */
  lemma PrefixOrder(core: string, v: string, rest: string)
    requires Plain(core) && (v == "V" || v == "vV") && rest == v + core
    ensures CompareVersions(rest, core) == 0
    ensures CompareVersions("-" + core, core) == 0
  {
    PlainParts(core);
    StripVs(core, v, rest);
    SameTokens(Tokenize(core));
    DashParts(core);
  }

  lemma DashParts(core: string)
    requires Plain(core)
    ensures SplitPre(StripBuild(StripV("-" + core))) == ("-" + core, "")
    ensures Tokenize("-" + core) == Tokenize(core)
  {
    var v := "-" + core;
    assert v[1..] == core && v[0] == '-';
    IndexOfUnique(v, '-', 0);
    assert Flush(NoRun) + Tokenize(core) == Tokenize(core);
  }

  /** Numbers past an int64 are all the same. */
  lemma BigNumbersTie(m: nat, n: nat)
    requires m > MAX_INT64 && n > MAX_INT64
    ensures CompareVersions(Itoa(m), Itoa(n)) == 0
    ensures CompareVersions(Itoa(m), Itoa(MAX_INT64)) == 0
  {
    NumberVersion(m);
    NumberVersion(n);
    NumberVersion(MAX_INT64);
    SameTokens([Num(MAX_INT64)]);
  }

  lemma NumberVersion(n: nat)
    requires n >= MAX_INT64
    ensures SplitPre(StripBuild(StripV(Itoa(n)))) == (Itoa(n), "") && Tokenize(Itoa(n)) == [Num(MAX_INT64)]
  {
    DottedStarts([n]);
    PlainParts(Itoa(n));
    DigitsValueOfItoa(n);
    NumberToken(Itoa(n), "");
    assert Itoa(n) + "" == Itoa(n);
  }

  // ---- Words ----

  lemma {:induction false} LettersGather(s: string, i: nat, rest: string)
    requires (forall j | 0 <= j < |s| :: IsLetter(s[j])) && i <= |s|
    ensures TokenizeFrom(s[i..] + rest, Letters(Lower(s[..i]))) == TokenizeFrom(rest, Letters(Lower(s)))
    decreases |s| - i
  {
    if i == |s| {
      assert s[i..] + rest == rest && s[..i] == s;
    } else {
      var v := s[i..] + rest;
      assert v[0] == s[i] && v[1..] == s[i + 1..] + rest;
      assert Lower(s[..i + 1]) == Lower(s[..i]) + [LowerChar(s[i])];
      LettersGather(s, i + 1, rest);
    }
  }

  lemma LetterStarts(v: string)
    requires v != "" && IsLetter(v[0])
    ensures Tokenize(v) == TokenizeFrom(v[1..], Letters([LowerChar(v[0])]))
  {
  }

  lemma FirstLetter(s: string, rest: string)
    requires s != "" && forall j | 0 <= j < |s| :: IsLetter(s[j])
    ensures Tokenize(s + rest) == TokenizeFrom(rest, Letters(Lower(s)))
  {
    LetterStarts(s + rest);
    assert Lower(s[..1]) == [LowerChar(s[0])];
    assert (s + rest)[0] == s[0] && (s + rest)[1..] == s[1..] + rest;
    LettersGather(s, 1, rest);
  }

  /** A run of letters is a word, in any case, and anything else but a digit ends
      it and counts for nothing. */
  lemma WordToken(s: string, sep: char, rest: string)
    requires s != "" && forall j | 0 <= j < |s| :: IsLetter(s[j])
    requires !IsLetter(sep) && !IsDigit(sep)
    ensures Tokenize(s) == [Word(Lower(s))]
    ensures Tokenize(s + ([sep] + rest)) == [Word(Lower(s))] + Tokenize(rest)
  {
    FirstLetter(s, "");
    FirstLetter(s, [sep] + rest);
    assert s + "" == s;
    assert ([sep] + rest)[1..] == rest;
  }

  /** The same front decides nothing. */
  lemma {:induction false} SameFront(front: seq<Token>, a: seq<Token>, b: seq<Token>)
    ensures CompareTokens(front + a, front + b) == CompareTokens(a, b)
  {
    if front == [] {
      assert front + a == a && front + b == b;
    } else {
      assert (front + a)[1..] == front[1..] + a && (front + b)[1..] == front[1..] + b;
      CompareTokenOrder(front[0], front[0], front[0]);
      SameFront(front[1..], a, b);
    }
  }

  /** Then a number is above the end, and the end above a word; words are ordered
      as strings. So 1.0rc1 is below 1.0, which is below 1.0.1. */
  lemma FirstDifference(front: seq<Token>, a: seq<Token>, b: seq<Token>, n: nat, w: string, x: string)
    requires w != x
    ensures CompareTokens(front + ([Num(n)] + a), front) == 1
    ensures CompareTokens(front, front + ([Word(w)] + a)) == 1
    ensures CompareTokens(front + ([Num(n)] + a), front + ([Word(w)] + b)) == 1
    ensures CompareTokens(front + ([Word(w)] + a), front + ([Word(x)] + b)) == if StrLeq(w, x) then -1 else 1
  {
    assert front + [] == front;
    SameFront(front, [Num(n)] + a, []);
    SameFront(front, [], [Word(w)] + a);
    SameFront(front, [Num(n)] + a, [Word(w)] + b);
    SameFront(front, [Word(w)] + a, [Word(x)] + b);
  }
}
