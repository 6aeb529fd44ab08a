/** The string operations of Go's `strings` and `strconv` packages that the
    modelled code relies on. A Go string and a Go `[]byte` are both modelled as
    `seq<char>`, one character a byte. */
module Strings {

  /** The bytes of a file: one character a byte. */
  type Bytes = string

  datatype Option<+T> = None | Some(value: T)

  /** One more step of a loop over `s`. */
  lemma TakeNext<T>(s: seq<T>, i: nat)
    requires i < |s|
    ensures s[..i + 1] == s[..i] + [s[i]] && s[..i + 1][..i] == s[..i]
  {
  }

  // ---- Characters ----

  predicate IsSpace(c: char) {
    c == ' ' || c == '\t' || c == '\n' || c == '\r' || c == '\U{0B}' || c == '\U{0C}'
  }

  predicate IsDigit(c: char) {
    '0' <= c <= '9'
  }

  predicate IsUpper(c: char) {
    'A' <= c <= 'Z'
  }

  predicate IsLetter(c: char) {
    'A' <= c <= 'Z' || 'a' <= c <= 'z'
  }

  function LowerChar(c: char): char {
    if IsUpper(c) then 'a' + (c - 'A') else c
  }

  /** `strings.ToLower`, on ASCII. */
  function Lower(s: string): (r: string)
    ensures |r| == |s|
    ensures forall i | 0 <= i < |s| :: r[i] == LowerChar(s[i])
  {
    if s == "" then "" else [LowerChar(s[0])] + Lower(s[1..])
  }

  lemma LowerIdempotent(s: string)
    ensures Lower(Lower(s)) == Lower(s)
  {
  }

  lemma LowerConcat(s: string, t: string)
    ensures Lower(s + t) == Lower(s) + Lower(t)
  {
  }

  // ---- Searching ----

  /** `strings.IndexByte`: the first position of `c`, if any. */
  function IndexOf(s: string, c: char): (r: Option<nat>)
    ensures r.Some? ==> r.value < |s| && s[r.value] == c && c !in s[..r.value]
    ensures r.None? ==> c !in s
  {
    if s == "" then None
    else if s[0] == c then Some(0)
    else
      match IndexOf(s[1..], c)
      case None => None
      case Some(i) =>
        assert s[..i + 1] == [s[0]] + s[1..][..i];
        Some(i + 1)
  }

  lemma IndexOfUnique(s: string, c: char, i: nat)
    requires i < |s| && s[i] == c && c !in s[..i]
    ensures IndexOf(s, c) == Some(i)
  {
    assert s[i] in s;
    assert forall j: nat, k: nat | j < k <= |s| :: s[..k][j] == s[j] && s[j] in s[..k];
  }

  /** `s[strings.LastIndexByte(s, c)+1:]`: what follows the last `c`. */
  function AfterLast(s: string, c: char): (r: string)
    ensures c !in r
  {
    if c !in s then s else AfterLast(s[1..], c)
  }

  lemma AfterLastOf(a: string, b: string, c: char)
    requires c !in b
    ensures AfterLast(a + [c] + b, c) == b
  {
    var s := a + [c] + b;
    assert s[|a|] == c;
    if a == "" {
      assert s[1..] == b;
    } else {
      assert s[1..] == a[1..] + [c] + b;
      AfterLastOf(a[1..], b, c);
    }
  }

  // ---- Split and Join ----

  /** `strings.Split` with a one-byte separator. */
  function Split(s: string, c: char): (r: seq<string>)
    ensures r != []
  {
    match IndexOf(s, c)
    case None => [s]
    case Some(i) => [s[..i]] + Split(s[i + 1..], c)
  }

  /** `strings.Join` with a one-byte separator. */
  function Join(parts: seq<string>, c: char): string {
    if |parts| == 0 then ""
    else if |parts| == 1 then parts[0]
    else parts[0] + [c] + Join(parts[1..], c)
  }

  ghost predicate Free(parts: seq<string>, c: char) {
    forall p | p in parts :: c !in p
  }

  lemma SplitFirst(p: string, rest: string, c: char)
    requires c !in p
    ensures Split(p + [c] + rest, c) == [p] + Split(rest, c)
  {
    var s := p + [c] + rest;
    assert s[..|p|] == p;
    IndexOfUnique(s, c, |p|);
    assert s[|p| + 1..] == rest;
  }

  lemma {:induction false} SplitJoin(parts: seq<string>, c: char)
    requires parts != [] && Free(parts, c)
    ensures Split(Join(parts, c), c) == parts
  {
    assert parts[0] in parts;
    if |parts| == 1 {
      NothingToSplit(parts[0], c);
    } else {
      assert forall p | p in parts[1..] :: p in parts;
      SplitJoin(parts[1..], c);
      SplitFirst(parts[0], Join(parts[1..], c), c);
    }
  }

  lemma NothingToSplit(s: string, c: char)
    requires c !in s
    ensures Split(s, c) == [s]
  {
  }

  lemma {:induction false} JoinSnoc(parts: seq<string>, x: string, c: char)
    requires parts != []
    ensures Join(parts + [x], c) == Join(parts, c) + [c] + x
  {
    if |parts| > 1 {
      JoinSnoc(parts[1..], x, c);
      assert (parts + [x])[1..] == parts[1..] + [x];
    } else {
      assert (parts + [x])[1..] == [x];
    }
  }

  lemma {:induction false} JoinSplit(s: string, c: char)
    ensures Join(Split(s, c), c) == s
    ensures Free(Split(s, c), c)
  {
    match IndexOf(s, c) {
      case None =>
      case Some(i) =>
        JoinSplit(s[i + 1..], c);
        JoinFirst(s[..i], Split(s[i + 1..], c), c);
        assert s == s[..i] + [c] + s[i + 1..];
    }
  }

  lemma JoinFirst(p: string, rest: seq<string>, c: char)
    requires rest != []
    ensures Join([p] + rest, c) == p + [c] + Join(rest, c)
  {
    assert ([p] + rest)[1..] == rest;
  }

  lemma {:induction false} JoinConcat(a: seq<string>, b: seq<string>, c: char)
    requires a != [] && b != []
    ensures Join(a + b, c) == Join(a, c) + [c] + Join(b, c)
  {
    if |a| == 1 {
      JoinFirst(a[0], b, c);
      assert [a[0]] == a;
    } else {
      JoinConcat(a[1..], b, c);
      assert (a + b)[1..] == a[1..] + b;
    }
  }

  /** Splitting distributes over a separator. */
  lemma {:induction false} SplitConcat(a: string, b: string, c: char)
    ensures Split(a + [c] + b, c) == Split(a, c) + Split(b, c)
    decreases |a|
  {
    match IndexOf(a, c) {
      case None =>
        SplitFirst(a, b, c);
      case Some(i) =>
        var p, rest := a[..i], a[i + 1..];
        assert a + [c] + b == p + [c] + (rest + [c] + b);
        SplitFirst(p, rest + [c] + b, c);
        SplitConcat(rest, b, c);
        assert [p] + (Split(rest, c) + Split(b, c)) == [p] + Split(rest, c) + Split(b, c);
    }
  }

  /** A separator that occurs in neither front determines the cut. */
  lemma CutUnique(a: string, x: string, b: string, y: string, c: char)
    requires c !in a && c !in b && a + [c] + x == b + [c] + y
    ensures a == b && x == y
  {
    var s := a + [c] + x;
    assert s[|a|] == c && s[|b|] == c;
    assert s[..|a|] == a && s[..|b|] == b;
    IndexOfUnique(s, c, |a|);
    IndexOfUnique(s, c, |b|);
    assert s[|a| + 1..] == x && s[|b| + 1..] == y;
  }

  // ---- Trimming ----

  /** `strings.TrimLeft(s, string(c))`. */
  function TrimLeft(s: string, c: char): (r: string)
    ensures r != "" ==> r[0] != c
    ensures |r| <= |s| && r == s[|s| - |r|..]
  {
    if s != "" && s[0] == c then TrimLeft(s[1..], c) else s
  }

  /** `strings.TrimRight(s, string(c))`. */
  function TrimRight(s: string, c: char): (r: string)
    ensures r != "" ==> r[|r| - 1] != c
    ensures r <= s
  {
    if s != "" && s[|s| - 1] == c then TrimRight(s[..|s| - 1], c) else s
  }

  /** `strings.Trim(s, string(c))`. */
  function Trim(s: string, c: char): (r: string)
    ensures r != "" ==> r[0] != c && r[|r| - 1] != c
  {
    TrimRight(TrimLeft(s, c), c)
  }

  predicate Only(s: string, c: char) {
    forall i | 0 <= i < |s| :: s[i] == c
  }

  lemma {:induction false} TrimLeftCut(s: string, c: char)
    ensures Only(s[..|s| - |TrimLeft(s, c)|], c)
  {
    if s != "" && s[0] == c {
      TrimLeftCut(s[1..], c);
      var n := |s| - |TrimLeft(s, c)|;
      assert s[..n] == [s[0]] + s[1..][..n - 1];
    }
  }

  lemma {:induction false} TrimRightCut(s: string, c: char)
    ensures Only(s[|TrimRight(s, c)|..], c)
  {
    if s != "" && s[|s| - 1] == c {
      TrimRightCut(s[..|s| - 1], c);
      var n := |TrimRight(s, c)|;
      assert s[n..] == s[..|s| - 1][n..] + [s[|s| - 1]];
    }
  }

  lemma ThreeParts(s: string, t: string, u: string) returns (left: string, right: string)
    requires |t| <= |s| && t == s[|s| - |t|..] && u <= t
    ensures s == left + u + right && left == s[..|s| - |t|] && right == t[|u|..]
  {
    left, right := s[..|s| - |t|], t[|u|..];
    assert s == left + t && t == u + right;
  }

  /** Trimming takes away nothing but what it is asked to. */
  lemma TrimCut(s: string, c: char) returns (left: string, right: string)
    ensures s == left + Trim(s, c) + right && Only(left, c) && Only(right, c)
  {
    TrimLeftCut(s, c);
    TrimRightCut(TrimLeft(s, c), c);
    left, right := ThreeParts(s, TrimLeft(s, c), Trim(s, c));
  }

  function TrimLeftSpace(s: string): (r: string)
    ensures r != "" ==> !IsSpace(r[0])
    ensures |r| <= |s| && r == s[|s| - |r|..]
  {
    if s != "" && IsSpace(s[0]) then TrimLeftSpace(s[1..]) else s
  }

  function TrimRightSpace(s: string): (r: string)
    ensures r != "" ==> !IsSpace(r[|r| - 1])
    ensures r <= s
  {
    if s != "" && IsSpace(s[|s| - 1]) then TrimRightSpace(s[..|s| - 1]) else s
  }

  /** `strings.TrimSpace`, on ASCII. */
  function TrimSpace(s: string): (r: string)
    ensures Trimmed(r)
    ensures |r| <= |s|
    ensures forall x | x in r :: x in s
  {
    TrimRightSpace(TrimLeftSpace(s))
  }

  /** No white space at either end. */
  predicate Trimmed(s: string) {
    s != "" ==> !IsSpace(s[0]) && !IsSpace(s[|s| - 1])
  }

  lemma TrimSpaceOfTrimmed(s: string)
    requires Trimmed(s)
    ensures TrimSpace(s) == s && TrimSpace(" " + s) == s
  {
    assert TrimLeftSpace(s) == s && TrimRightSpace(s) == s;
    assert (" " + s)[1..] == s;
    assert TrimLeftSpace(" " + s) == TrimLeftSpace(s);
  }

  predicate Blank(s: string) {
    forall i | 0 <= i < |s| :: IsSpace(s[i])
  }

  lemma TrimSpaceBlank(s: string)
    ensures TrimSpace(s) == "" <==> Blank(s)
  {
    if Blank(s) {
      BlankLeft(s);
    } else if TrimSpace(s) == "" {
      var l := TrimLeftSpace(s);
      NotBlankLeft(s);
      NotBlankRight(l);
    }
  }

  lemma BlankLeft(s: string)
    requires Blank(s)
    ensures TrimLeftSpace(s) == ""
  {
  }

  lemma NotBlankLeft(s: string)
    requires !Blank(s)
    ensures !Blank(TrimLeftSpace(s))
  {
    if IsSpace(s[0]) {
      NotBlankLeft(s[1..]);
    }
  }

  lemma NotBlankRight(s: string)
    requires !Blank(s)
    ensures TrimRightSpace(s) != ""
  {
    var n := |s| - 1;
    if IsSpace(s[n]) {
      assert !Blank(s[..n]) by {
        var i :| 0 <= i < |s| && !IsSpace(s[i]);
        assert s[..n][i] == s[i];
      }
      NotBlankRight(s[..n]);
    }
  }

  lemma {:induction false} TrimLeftSpaceCut(s: string)
    ensures Blank(s[..|s| - |TrimLeftSpace(s)|])
  {
    if s != "" && IsSpace(s[0]) {
      TrimLeftSpaceCut(s[1..]);
      var n := |s| - |TrimLeftSpace(s)|;
      assert s[..n] == [s[0]] + s[1..][..n - 1];
    }
  }

  lemma {:induction false} TrimRightSpaceCut(s: string)
    ensures Blank(s[|TrimRightSpace(s)|..])
  {
    if s != "" && IsSpace(s[|s| - 1]) {
      TrimRightSpaceCut(s[..|s| - 1]);
      var n := |TrimRightSpace(s)|;
      assert s[n..] == s[..|s| - 1][n..] + [s[|s| - 1]];
    }
  }

  /** Trimming white space takes away nothing else. */
  lemma TrimSpaceCut(s: string) returns (left: string, right: string)
    ensures s == left + TrimSpace(s) + right && Blank(left) && Blank(right)
  {
    TrimLeftSpaceCut(s);
    TrimRightSpaceCut(TrimLeftSpace(s));
    left, right := ThreeParts(s, TrimLeftSpace(s), TrimSpace(s));
  }

  lemma {:induction false} TrimLeftSpaceOf(left: string, rest: string)
    requires Blank(left) && rest != "" && !IsSpace(rest[0])
    ensures TrimLeftSpace(left + rest) == rest
  {
    if left == "" {
      assert left + rest == rest;
    } else {
      assert (left + rest)[1..] == left[1..] + rest;
      TrimLeftSpaceOf(left[1..], rest);
    }
  }

  lemma {:induction false} TrimRightSpaceOf(front: string, right: string)
    requires Blank(right) && front != "" && !IsSpace(front[|front| - 1])
    ensures TrimRightSpace(front + right) == front
  {
    if right == "" {
      assert front + right == front;
    } else {
      var n := |right| - 1;
      assert (front + right)[..|front + right| - 1] == front + right[..n];
      TrimRightSpaceOf(front, right[..n]);
    }
  }

  lemma TrimSpaceBetween(left: string, s: string, right: string)
    requires Blank(left) && Blank(right) && Trimmed(s) && s != ""
    ensures TrimSpace(left + s + right) == s
  {
    var front := s + right;
    TrimRightSpaceOf(s, right);
    TrimLeftSpaceOf(left, front);
    SameGrouping(left, s, right);
  }

  lemma SameGrouping(a: string, b: string, c: string)
    ensures a + b + c == a + (b + c)
  {
  }

  // ---- Replacing ----

  /** `strings.ReplaceAll`: every non-overlapping occurrence, left to right. */
  function ReplaceAll(s: string, from: string, to: string): string
    requires from != ""
  {
    if |s| < |from| then s
    else if s[..|from|] == from then to + ReplaceAll(s[|from|..], from, to)
    else [s[0]] + ReplaceAll(s[1..], from, to)
  }

  lemma {:induction false} ReplaceAbsent(s: string, from: string, to: string)
    requires from != "" && from[0] !in s
    ensures ReplaceAll(s, from, to) == s
  {
    if |s| >= |from| {
      assert s[..|from|][0] == s[0] && s[0] in s;
      ReplaceAbsent(s[1..], from, to);
    }
  }

  // ---- Decimal numbers ----

  function DigitChar(d: nat): (c: char)
    requires d < 10
    ensures IsDigit(c) && (c - '0') as int == d
  {
    '0' + d as char
  }

  /** `strconv.Itoa` on a natural number. */
  function Itoa(n: nat): (s: string)
    ensures s != "" && AllDigits(s)
    ensures n > 0 ==> s[0] != '0'
  {
    if n < 10 then [DigitChar(n)] else Itoa(n / 10) + [DigitChar(n % 10)]
  }

  predicate AllDigits(s: string) {
    forall i | 0 <= i < |s| :: IsDigit(s[i])
  }

  /** The number a run of digits denotes. */
  function DigitsValue(s: string): nat
    requires AllDigits(s)
  {
    if s == "" then 0
    else DigitsValue(s[..|s| - 1]) * 10 + (s[|s| - 1] - '0') as int
  }

  lemma {:induction false} DigitsValueOfItoa(n: nat)
    ensures AllDigits(Itoa(n)) && DigitsValue(Itoa(n)) == n
  {
    if n >= 10 {
      DigitsValueOfItoa(n / 10);
      var s := Itoa(n);
      assert s[..|s| - 1] == Itoa(n / 10);
    } else {
      assert Itoa(n)[..0] == "";
    }
  }

  // ---- Order ----

  /** The byte-wise order of Go strings. */
  predicate StrLeq(a: string, b: string) {
    a == "" || (b != "" && (a[0] < b[0] || (a[0] == b[0] && StrLeq(a[1..], b[1..]))))
  }

  lemma {:induction false} StrLeqTotal(a: string, b: string)
    ensures StrLeq(a, b) || StrLeq(b, a)
    ensures StrLeq(a, b) && StrLeq(b, a) ==> a == b
  {
    if a != "" && b != "" {
      StrLeqTotal(a[1..], b[1..]);
      assert a == [a[0]] + a[1..] && b == [b[0]] + b[1..];
    }
  }

  lemma {:induction false} StrLeqTransitive(a: string, b: string, c: string)
    requires StrLeq(a, b) && StrLeq(b, c)
    ensures StrLeq(a, c)
  {
    if a != "" && a[0] == b[0] == c[0] {
      StrLeqTransitive(a[1..], b[1..], c[1..]);
    }
  }

  /** The first byte that differs decides, and a prefix is below. */
  lemma {:induction false} StrLeqExact(a: string, b: string)
    ensures StrLeq(a, b) <==>
              a <= b || exists i :: 0 <= i < |a| && i < |b| && a[..i] == b[..i] && a[i] < b[i]
  {
    if a == "" {
      assert a <= b;
    } else if b != "" && a[0] == b[0] {
      var x, y := a[1..], b[1..];
      StrLeqExact(x, y);
      assert a <= b <==> x <= y;
      if i :| 0 <= i < |x| && i < |y| && x[..i] == y[..i] && x[i] < y[i] {
        assert a[..i + 1] == [a[0]] + x[..i] && b[..i + 1] == [b[0]] + y[..i];
        assert a[i + 1] == x[i] && b[i + 1] == y[i];
      }
      if i :| 0 <= i < |a| && i < |b| && a[..i] == b[..i] && a[i] < b[i] {
        assert i > 0;
        assert x[..i - 1] == a[..i][1..] && y[..i - 1] == b[..i][1..];
        assert x[i - 1] == a[i] && y[i - 1] == b[i];
      }
    } else if b != "" {
      assert a[..0] == b[..0];
      if i :| 0 <= i < |a| && i < |b| && a[..i] == b[..i] && a[i] < b[i] {
        assert i > 0 ==> a[..i][0] == b[..i][0];
      }
    }
  }

  lemma StrLeqReflexive(a: string)
    ensures StrLeq(a, a)
  {
  }

  predicate Lowest(s: set<string>, m: string) {
    m in s && forall x | x in s :: StrLeq(m, x)
  }

  /** The least string of a non-empty set. */
  lemma {:induction false} LeastExists(s: set<string>)
    requires s != {}
    ensures exists m :: Lowest(s, m)
  {
    var x :| x in s;
    StrLeqReflexive(x);
    if s != {x} {
      var rest := s - {x};
      assert s == rest + {x};
      LeastExists(rest);
      var m :| Lowest(rest, m);
      StrLeqTotal(x, m);
      var low := if StrLeq(x, m) then x else m;
      forall y | y in s
        ensures StrLeq(low, y)
      {
        if y != x && low == x {
          StrLeqTransitive(x, m, y);
        }
      }
      assert Lowest(s, low);
    } else {
      assert Lowest(s, x);
    }
  }

  lemma OneLowest(s: set<string>)
    ensures forall a, b | Lowest(s, a) && Lowest(s, b) :: a == b
  {
    forall a, b | Lowest(s, a) && Lowest(s, b)
      ensures a == b
    {
      StrLeqTotal(a, b);
    }
  }

  function Least(s: set<string>): (m: string)
    requires s != {}
    ensures Lowest(s, m)
  {
    LeastExists(s);
    OneLowest(s);
    var m :| Lowest(s, m);
    m
  }

  /** The members of `s` in increasing order, as `sort.Strings` lists them. */
  function SortedKeys(s: set<string>): (r: seq<string>)
    ensures |r| == |s|
    ensures forall x :: x in r <==> x in s
    ensures forall i, j | 0 <= i < j < |r| :: r[i] != r[j] && StrLeq(r[i], r[j])
  {
    if s == {} then []
    else
      var m := Least(s);
      [m] + SortedKeys(s - {m})
  }
}
