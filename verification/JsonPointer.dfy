/** Selectors into secret documents: JSON Pointers, section 4 of RFC 6901
    (internal/secretref/secretref.go). */
module JsonPointer {
  import opened Strings

  // ---- The standard's decoder ----

  /** One reference token, decoded left to right in a single pass: "~0" is "~",
      "~1" is "/", any other use of "~" is an error. */
  function Unescape(token: string): Option<string> {
    if token == "" then Some("")
    else if token[0] == '~' then
      if |token| > 1 && (token[1] == '0' || token[1] == '1') then
        match Unescape(token[2..])
        case None => None
        case Some(rest) => Some([if token[1] == '0' then '~' else '/'] + rest)
      else None
    else
      match Unescape(token[1..])
      case None => None
      case Some(rest) => Some([token[0]] + rest)
  }

  /** A key written as a reference token. */
  function Escape(key: string): (token: string)
    ensures '/' !in token
  {
    if key == "" then ""
    else (if key[0] == '~' then "~0" else if key[0] == '/' then "~1" else [key[0]]) + Escape(key[1..])
  }

  /** The pointer to a list of keys. */
  function Pointer(keys: seq<string>): string {
    if keys == [] then "" else "/" + Escape(keys[0]) + Pointer(keys[1..])
  }

  lemma {:induction false} UnescapeEscape(key: string)
    ensures Unescape(Escape(key)) == Some(key)
  {
    if key != "" {
      UnescapeEscape(key[1..]);
      var head := if key[0] == '~' then "~0" else if key[0] == '/' then "~1" else [key[0]];
      assert Escape(key)[|head|..] == Escape(key[1..]);
      assert key == [key[0]] + key[1..];
    }
  }

  /** A token has only one spelling. */
  lemma {:induction false} EscapeUnescape(token: string)
    requires '/' !in token && Unescape(token).Some?
    ensures Escape(Unescape(token).value) == token
  {
    if token != "" {
      var n := if token[0] == '~' then 2 else 1;
      assert '/' !in token[n..];
      EscapeUnescape(token[n..]);
      var key := Unescape(token).value;
      assert key[1..] == Unescape(token[n..]).value;
      assert token == token[..n] + token[n..];
      assert token[0] != '/';
    }
  }

  // ---- The selector checks ----

  /** What makes the loop reject a token: a "~" not followed by "0" or "1". */
  predicate BadEscape(token: string, i: nat)
    requires i < |token|
  {
    token[i] == '~' && (i + 1 >= |token| || (token[i + 1] != '0' && token[i + 1] != '1'))
  }

  predicate Accepted(selector: string) {
    && selector != ""
    && selector[0] == '/'
    && forall token | token in Split(selector[1..], '/') :: Unescape(token).Some?
  }

  lemma {:induction false} UnescapeFailsOn(token: string)
    ensures Unescape(token).Some? <==> forall i | 0 <= i < |token| :: !BadEscape(token, i)
  {
    if token != "" {
      if BadEscape(token, 0) {
      } else {
        var n := if token[0] == '~' then 2 else 1;
        UnescapeFailsOn(token[n..]);
        assert forall i | 0 <= i < |token| - n :: BadEscape(token[n..], i) <==> BadEscape(token, i + n);
        if !(forall i | 0 <= i < |token| :: !BadEscape(token, i)) {
          var i :| 0 <= i < |token| && BadEscape(token, i);
          assert i >= n;
          assert BadEscape(token[n..], i - n);
        }
      }
    }
  }

  /** The check accepts exactly the selectors whose every token the standard
      decodes. */
  method ValidateSelector(selector: string) returns (ok: bool)
    ensures ok == Accepted(selector)
  {
    if selector == "" {
      return false;
    }
    if !("/" <= selector) {
      return false;
    }
    var tokens := Split(selector[1..], '/');
    for k := 0 to |tokens|
      invariant forall t | t in tokens[..k] :: Unescape(t).Some?
    {
      var token := tokens[k];
      UnescapeFailsOn(token);
      for i := 0 to |token|
        invariant forall j | 0 <= j < i :: !BadEscape(token, j)
      {
        if BadEscape(token, i) {
          assert token in tokens;
          return false;
        }
      }
      TakeNext(tokens, k);
    }
    assert tokens[..|tokens|] == tokens;
    return true;
  }

  // ---- The two replacement passes ----

  function TwoPasses(token: string): string {
    ReplaceAll(ReplaceAll(token, "~1", "/"), "~0", "~")
  }

  /** The decoding of a selector, token by token. */
  function SegmentsOf(selector: string): seq<string>
    requires selector != ""
  {
    var tokens := Split(selector[1..], '/');
    seq(|tokens|, i requires 0 <= i < |tokens| => TwoPasses(tokens[i]))
  }

  method PointerSegments(selector: string) returns (parts: seq<string>)
    requires selector != ""
    ensures parts == SegmentsOf(selector)
  {
    if selector == "/" {
      assert IndexOf("", '/') == None;
      assert ReplaceAll("", "~1", "/") == "";
      return [""];
    }
    parts := Split(selector[1..], '/');
    ghost var tokens := parts;
    for i := 0 to |parts|
      invariant |parts| == |tokens|
      invariant forall j | 0 <= j < i :: parts[j] == TwoPasses(tokens[j])
      invariant forall j | i <= j < |parts| :: parts[j] == tokens[j]
    {
      var p := parts[i];
      p := ReplaceAll(p, "~1", "/");
      p := ReplaceAll(p, "~0", "~");
      parts := parts[i := p];
    }
  }

  /** After the first pass no "~" is left that does not start a "~0", and the
      second pass turns those into "~": the passes in this order are the
      standard's single pass. */
  lemma {:induction false} TwoPassesAreOne(token: string)
    requires Unescape(token).Some?
    ensures TwoPasses(token) == Unescape(token).value
  {
    if |token| < 2 {
      if token != "" {
        assert token[1..] == "";
        assert token == [token[0]];
      }
      assert ReplaceAll(token, "~1", "/") == token;
    } else if token[0] == '~' {
      TwoPassesAreOne(token[2..]);
      EscapeReplaced(token);
    } else {
      TwoPassesAreOne(token[1..]);
      FirstPassSkips(token);
      SecondPassSkips(token[0], ReplaceAll(token[1..], "~1", "/"));
    }
  }

  lemma EscapeReplaced(token: string)
    requires |token| >= 2 && token[0] == '~' && (token[1] == '0' || token[1] == '1')
    ensures TwoPasses(token) == [if token[1] == '0' then '~' else '/'] + TwoPasses(token[2..])
  {
    var rest := ReplaceAll(token[2..], "~1", "/");
    assert token[..2] == [token[0], token[1]];
    if token[1] == '1' {
      assert ReplaceAll(token, "~1", "/") == "/" + rest;
      SecondPassSkips('/', rest);
    } else {
      FirstPassSkips(token);
      FirstPassSkips(token[1..]);
      assert token[1..][1..] == token[2..];
      var once := ReplaceAll(token, "~1", "/");
      assert once == "~0" + rest;
      assert once[..2] == "~0" && once[2..] == rest;
    }
  }

  lemma FirstPassSkips(s: string)
    requires s != "" && (s[0] != '~' || (|s| > 1 && s[1] == '0'))
    ensures ReplaceAll(s, "~1", "/") == [s[0]] + ReplaceAll(s[1..], "~1", "/")
  {
    if |s| == 1 {
      assert s[1..] == "" && s == [s[0]];
    } else {
      assert s[..2] == [s[0], s[1]];
    }
  }

  lemma SecondPassSkips(c: char, rest: string)
    requires c != '~'
    ensures ReplaceAll([c] + rest, "~0", "~") == [c] + ReplaceAll(rest, "~0", "~")
  {
    var s := [c] + rest;
    assert s[1..] == rest;
    if |s| >= 2 {
      assert s[..2][0] == c;
    }
  }

  // ---- Selectors and key lists are the same thing ----

  lemma {:induction false} PointerIsJoin(keys: seq<string>, tokens: seq<string>)
    requires |keys| == |tokens| > 0
    requires forall i | 0 <= i < |keys| :: Escape(keys[i]) == tokens[i]
    ensures Pointer(keys) == "/" + Join(tokens, '/')
  {
    if |keys| > 1 {
      PointerIsJoin(keys[1..], tokens[1..]);
      assert "/" + tokens[0] + ("/" + Join(tokens[1..], '/')) == "/" + (tokens[0] + ['/'] + Join(tokens[1..], '/'));
    }
  }

  /** Every non-empty list of keys, empty keys and keys full of "~" and "/"
      included, has an accepted selector that decodes to it. */
  lemma KeysRoundTrip(keys: seq<string>)
    requires keys != []
    ensures Accepted(Pointer(keys))
    ensures SegmentsOf(Pointer(keys)) == keys
  {
    var tokens := seq(|keys|, i requires 0 <= i < |keys| => Escape(keys[i]));
    PointerIsJoin(keys, tokens);
    SplitJoin(tokens, '/');
    assert Pointer(keys)[1..] == Join(tokens, '/');
    forall i | 0 <= i < |keys|
      ensures Unescape(tokens[i]) == Some(keys[i]) && TwoPasses(tokens[i]) == keys[i]
    {
      UnescapeEscape(keys[i]);
      TwoPassesAreOne(tokens[i]);
    }
  }

  /** Every accepted selector is the pointer to the keys it decodes to, and the
      code's two passes give the standard's keys. */
  lemma SelectorRoundTrip(selector: string)
    requires Accepted(selector)
    ensures forall i | 0 <= i < |SegmentsOf(selector)| ::
              Unescape(Split(selector[1..], '/')[i]) == Some(SegmentsOf(selector)[i])
    ensures Pointer(SegmentsOf(selector)) == selector
  {
    var tokens := Split(selector[1..], '/');
    var keys := SegmentsOf(selector);
    JoinSplit(selector[1..], '/');
    forall i | 0 <= i < |tokens|
      ensures Unescape(tokens[i]) == Some(keys[i]) && Escape(keys[i]) == tokens[i]
    {
      assert tokens[i] in tokens;
      TwoPassesAreOne(tokens[i]);
      EscapeUnescape(tokens[i]);
    }
    PointerIsJoin(keys, tokens);
    assert selector == "/" + selector[1..];
  }

  // ---- Looking a value up ----

  /** A parsed document. What kind of scalar a leaf is does not matter here. */
  datatype Document =
    | Leaf(text: string)
    | Obj(fields: map<string, Document>)
    | Arr(items: seq<Document>)

  /** The largest Go int. */
  const MAX_INT: int := 0x7FFF_FFFF_FFFF_FFFF

  /** `strconv.Atoi`: an optional sign and decimal digits, within an int. */
  function Atoi(s: string): Option<int> {
    var digits := if s != "" && (s[0] == '-' || s[0] == '+') then s[1..] else s;
    if digits == "" || !AllDigits(digits) then None
    else
      var v := if s[0] == '-' then -(DigitsValue(digits) as int) else DigitsValue(digits);
      if -MAX_INT - 1 <= v <= MAX_INT then Some(v) else None
  }

  /** One segment of the descent. */
  function Step(doc: Document, seg: string): Option<Document> {
    match doc
    case Leaf(_) => None
    case Obj(fields) => if seg in fields then Some(fields[seg]) else None
    case Arr(items) =>
      match Atoi(seg)
      case None => None
      case Some(i) => if 0 <= i < |items| then Some(items[i]) else None
  }

  function Descend(doc: Document, segments: seq<string>): Option<Document>
    decreases |segments|
  {
    if segments == [] then Some(doc)
    else
      match Step(doc, segments[0])
      case None => None
      case Some(next) => Descend(next, segments[1..])
  }

  method LookupSegments(doc: Document, segments: seq<string>) returns (r: Option<Document>)
    ensures r == Descend(doc, segments)
  {
    var cur := doc;
    for k := 0 to |segments|
      invariant Descend(doc, segments) == Descend(cur, segments[k..])
    {
      var seg := segments[k];
      assert segments[k..][1..] == segments[k + 1..];
      match cur {
        case Obj(fields) =>
          if seg !in fields {
            return None;
          }
          cur := fields[seg];
        case Arr(items) =>
          var i := Atoi(seg);
          if i.None? || i.value < 0 || i.value >= |items| {
            return None;
          }
          cur := items[i.value];
        case Leaf(_) =>
          return None;
      }
    }
    return Some(cur);
  }

  /** A step from a node to one of its children, whatever a selector says. */
  datatype Child = Field(key: string) | Item(index: nat)

  function ChildOf(doc: Document, child: Child): Option<Document> {
    match (doc, child)
    case (Obj(fields), Field(k)) => if k in fields then Some(fields[k]) else None
    case (Arr(items), Item(i)) => if i < |items| && i <= MAX_INT then Some(items[i]) else None
    case _ => None
  }

  function NodeAt(doc: Document, path: seq<Child>): Option<Document>
    decreases |path|
  {
    if path == [] then Some(doc)
    else
      match ChildOf(doc, path[0])
      case None => None
      case Some(next) => NodeAt(next, path[1..])
  }

  /** The key a child is selected by. */
  function KeyOf(child: Child): string {
    match child
    case Field(k) => k
    case Item(i) => Itoa(i)
  }

  function KeysOn(path: seq<Child>): seq<string> {
    seq(|path|, i requires 0 <= i < |path| => KeyOf(path[i]))
  }

  lemma AtoiOfDigits(s: string)
    requires s != "" && AllDigits(s) && DigitsValue(s) <= MAX_INT
    ensures Atoi(s) == Some(DigitsValue(s))
  {
    assert IsDigit(s[0]);
  }

  /** Every node below the root has an accepted selector that finds it,
      whatever characters the keys on the way hold. */
  lemma EveryNodeSelectable(doc: Document, path: seq<Child>)
    requires path != [] && NodeAt(doc, path).Some?
    ensures Accepted(Pointer(KeysOn(path)))
    ensures Descend(doc, SegmentsOf(Pointer(KeysOn(path)))) == NodeAt(doc, path)
  {
    KeysRoundTrip(KeysOn(path));
    DescendFollows(doc, path);
  }

  lemma {:induction false} DescendFollows(doc: Document, path: seq<Child>)
    requires NodeAt(doc, path).Some?
    ensures Descend(doc, KeysOn(path)) == NodeAt(doc, path)
    decreases |path|
  {
    if path != [] {
      assert KeysOn(path)[1..] == KeysOn(path[1..]);
      if path[0].Item? {
        DigitsValueOfItoa(path[0].index);
        AtoiOfDigits(Itoa(path[0].index));
      }
      DescendFollows(ChildOf(doc, path[0]).value, path[1..]);
    }
  }

  /** And a selector never finds anything but a node of the document. */
  lemma {:induction false} DescentEndsAtNode(doc: Document, segments: seq<string>) returns (path: seq<Child>)
    requires Descend(doc, segments).Some?
    ensures |path| == |segments| && NodeAt(doc, path) == Descend(doc, segments)
    decreases |segments|
  {
    path := [];
    if segments != [] {
      var tail := DescentEndsAtNode(Step(doc, segments[0]).value, segments[1..]);
      var head := if doc.Obj? then Field(segments[0]) else Item(Atoi(segments[0]).value);
      path := [head] + tail;
      assert path[1..] == tail;
    }
  }

  /** The standard's array index: digits without a leading zero. */
  predicate StandardIndex(seg: string) {
    seg != "" && AllDigits(seg) && (seg[0] == '0' ==> |seg| == 1)
  }

  function StandardStep(doc: Document, seg: string): Option<Document> {
    match doc
    case Arr(items) =>
      if StandardIndex(seg) && DigitsValue(seg) < |items| then Some(items[DigitsValue(seg)]) else None
    case _ => Step(doc, seg)
  }

  /** The code is more liberal than the standard: it also takes "+1" and "01".
      It differs exactly on an array and a segment that is in range for Atoi
      but is not a standard index. */
  lemma ArrayIndexExact(doc: Document, seg: string)
    requires doc.Arr? ==> |doc.items| <= MAX_INT
    ensures Step(doc, seg) == StandardStep(doc, seg) <==>
              !(doc.Arr? && !StandardIndex(seg) && Atoi(seg).Some? && 0 <= Atoi(seg).value < |doc.items|)
  {
    if doc.Arr? && StandardIndex(seg) && DigitsValue(seg) <= MAX_INT {
      AtoiOfDigits(seg);
    }
  }

  /** For instance "+1" and "01", in every array of two items or more. */
  lemma LiberalIndices(items: seq<Document>, seg: string)
    requires 1 < |items| && (seg == "+1" || seg == "01")
    ensures Step(Arr(items), seg) == Some(items[1]) && StandardStep(Arr(items), seg) == None
  {
    if seg == "+1" {
      OneDigit(seg[1..]);
    } else {
      assert seg[..1][..0] == "" && seg[..1][0] == '0';
      assert DigitsValue(seg[..1]) == 0;
    }
  }

  lemma OneDigit(s: string)
    requires |s| == 1 && s[0] == '1'
    ensures AllDigits(s) && DigitsValue(s) == 1
  {
    assert s[..0] == "";
  }

  /** The two escapes, as section 3 of RFC 6901 has them, and how a pointer grows
      by a key. */
  lemma StandardEscapes(key: string, keys: seq<string>)
    requires '~' !in key && '/' !in key
    ensures Escape(key) == key
    ensures Escape("~") == "~0" && Escape("/") == "~1"
    ensures Pointer([key] + keys) == "/" + key + Pointer(keys)
  {
    PlainEscape(key);
    assert "~0" + "" == "~0" && "~1" + "" == "~1";
    assert "~"[1..] == "" && "/"[1..] == "";
    assert ([key] + keys)[1..] == keys;
  }

  lemma {:induction false} PlainEscape(key: string)
    requires '~' !in key && '/' !in key
    ensures Escape(key) == key
  {
    if key != "" {
      assert key == [key[0]] + key[1..];
      assert key[0] in key;
      PlainEscape(key[1..]);
    }
  }
}
