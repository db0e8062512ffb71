/** The file store's key codec: slashes to a marker, percent-encoding, and back. */
module Codec {
  import opened Types
  import opened Paths

  const MARKER: Text := "__SLASH__"

  // ---------------------------------------------------------------- strings.ReplaceAll

  function ReplaceAll(s: Text, old': Text, new': Text): Text
    requires old' != []
  {
    if s == [] then []
    else if old' <= s then new' + ReplaceAll(s[|old'|..], old', new')
    else [s[0]] + ReplaceAll(s[1..], old', new')
  }

  /** p occurs in s at place i. */
  predicate OccursAt(s: Text, p: Text, i: nat) {
    i <= |s| && p <= s[i..]
  }

  ghost predicate Contains(s: Text, p: Text) {
    exists i: nat :: OccursAt(s, p, i)
  }

  /** No occurrence of p starts in the first i places of s. */
  ghost predicate NoneBefore(s: Text, p: Text, i: nat)
    requires i <= |s|
  {
    i == 0 || (!(p <= s) && NoneBefore(s[1..], p, i - 1))
  }

  lemma {:induction false} NoneBeforeAt(s: Text, p: Text, i: nat)
    requires i <= |s| && forall j: nat :: j < i ==> !OccursAt(s, p, j)
    ensures NoneBefore(s, p, i)
  {
    if i == 0 {
    } else {
      assert !OccursAt(s, p, 0) && s[0..] == s;
      ShiftOccurrences(s, p);
      NoneBeforeAt(s[1..], p, i - 1);
    }
  }

  /** Text before the leftmost match is copied. */
  lemma {:induction false} CopyUntil(s: Text, old': Text, new': Text, i: nat)
    requires old' != [] && i <= |s| && NoneBefore(s, old', i)
    ensures ReplaceAll(s, old', new') == s[..i] + ReplaceAll(s[i..], old', new')
  {
    if i == 0 {
      assert s[0..] == s;
    } else {
      var t := s[1..];
      CopyUntil(t, old', new', i - 1);
      Regroup(s, i, ReplaceAll(s[i..], old', new'));
    }
  }

  lemma Regroup(s: Text, i: nat, rest: Text)
    requires 0 < i <= |s|
    ensures s[1..][i - 1..] == s[i..]
    ensures [s[0]] + (s[1..][..i - 1] + rest) == s[..i] + rest
  {}

  /** The library's own description: copy up to the leftmost match, replace it, go on behind it. */
  lemma ReplaceLeftmost(s: Text, old': Text, new': Text, i: nat)
    requires old' != [] && OccursAt(s, old', i) && forall j: nat :: j < i ==> !OccursAt(s, old', j)
    ensures ReplaceAll(s, old', new') == s[..i] + (new' + ReplaceAll(s[i + |old'|..], old', new'))
  {
    NoneBeforeAt(s, old', i);
    CopyUntil(s, old', new', i);
    ReplaceHere(s[i..], old', new');
    assert s[i..][|old'|..] == s[i + |old'|..];
  }

  lemma ReplaceHere(s: Text, old': Text, new': Text)
    requires old' != [] && old' <= s
    ensures ReplaceAll(s, old', new') == new' + ReplaceAll(s[|old'|..], old', new')
  {}

  lemma ShiftOccurrences(s: Text, p: Text)
    requires s != []
    ensures forall j: nat :: OccursAt(s[1..], p, j) <==> OccursAt(s, p, j + 1)
  {}

  lemma {:induction false} ReplaceNothing(s: Text, old': Text, new': Text)
    requires old' != [] && !Contains(s, old')
    ensures ReplaceAll(s, old', new') == s
  {
    if s == [] {
    } else {
      assert !OccursAt(s, old', 0) && s[0..] == s;
      ShiftOccurrences(s, old');
      ReplaceNothing(s[1..], old', new');
    }
  }

  // ---------------------------------------------------------------- url.QueryEscape

  predicate Unreserved(c: Byte) {
    'a' <= c <= 'z' || 'A' <= c <= 'Z' || '0' <= c <= '9' || c == '-' || c == '_' || c == '.' || c == '~'
  }

  function HexDigit(n: nat): Byte
    requires n < 16
  {
    if n < 10 then '0' + n as char else 'A' + (n - 10) as char
  }

  function HexValue(c: Byte): Option<nat> {
    if '0' <= c <= '9' then Some(c as int - '0' as int)
    else if 'A' <= c <= 'F' then Some(c as int - 'A' as int + 10)
    else if 'a' <= c <= 'f' then Some(c as int - 'a' as int + 10)
    else None
  }

  function EscapeByte(c: Byte): Text {
    if Unreserved(c) then [c]
    else if c == ' ' then ['+']
    else ['%', HexDigit(c as int / 16), HexDigit(c as int % 16)]
  }

  function QueryEscape(s: Text): Text {
    if s == [] then [] else EscapeByte(s[0]) + QueryEscape(s[1..])
  }

  /** None stands for the error of a malformed percent sequence. */
  function QueryUnescape(s: Text): Option<Text> {
    if s == [] then Some([])
    else if s[0] == '%' then
      if |s| < 3 || HexValue(s[1]) == None || HexValue(s[2]) == None then None
      else
        var c := HexValue(s[1]).value * 16 + HexValue(s[2]).value;
        if c >= 256 then None else Cons(c as char, QueryUnescape(s[3..]))
    else Cons(if s[0] == '+' then ' ' else s[0], QueryUnescape(s[1..]))
  }

  function Cons(c: Byte, rest: Option<Text>): Option<Text> {
    match rest
    case None => None
    case Some(t) => Some([c] + t)
  }

  lemma HexRoundTrip(n: nat)
    requires n < 16
    ensures HexValue(HexDigit(n)) == Some(n)
  {}

  lemma UnescapeByte(c: Byte, rest: Text)
    ensures QueryUnescape(EscapeByte(c) + rest) == Cons(c, QueryUnescape(rest))
    ensures '/' !in EscapeByte(c)
  {
    var e := EscapeByte(c) + rest;
    if Unreserved(c) || c == ' ' {
      assert e[1..] == rest;
    } else {
      HexRoundTrip(c as int / 16);
      HexRoundTrip(c as int % 16);
      assert e[3..] == rest;
      assert c as int / 16 * 16 + c as int % 16 == c as int;
    }
  }

  /** Percent-encoding is undone by decoding, on every byte string. */
  lemma {:induction false} EscapeRoundTrip(s: Text)
    ensures QueryUnescape(QueryEscape(s)) == Some(s)
    ensures '/' !in QueryEscape(s)
  {
    if s == [] {
    } else {
      EscapeRoundTrip(s[1..]);
      UnescapeByte(s[0], QueryEscape(s[1..]));
      assert [s[0]] + s[1..] == s;
    }
  }

  // ---------------------------------------------------------------- what is written and what is read

  /** Letters, digits, four marks and the plus sign stand alone; a percent sign has two upper-case hex digits. */
  predicate Escaped(t: Text) {
    if t == [] then true
    else if t[0] == '%' then
      |t| >= 3 && UpperHex(t[1]) && UpperHex(t[2]) && Escaped(t[3..])
    else
      StandsAlone(t[0]) && Escaped(t[1..])
  }

  predicate UpperHex(c: Byte) {
    '0' <= c <= '9' || 'A' <= c <= 'F'
  }

  predicate StandsAlone(c: Byte) {
    || 'a' <= c <= 'z' || 'A' <= c <= 'Z' || '0' <= c <= '9'
    || c == '-' || c == '_' || c == '.' || c == '~' || c == '+'
  }

  lemma {:induction false} EscapeIsEscaped(s: Text)
    ensures Escaped(QueryEscape(s))
  {
    if s == [] {
    } else {
      var e, rest := QueryEscape(s), QueryEscape(s[1..]);
      EscapeIsEscaped(s[1..]);
      if Unreserved(s[0]) || s[0] == ' ' {
        assert e[1..] == rest;
      } else {
        assert e[3..] == rest;
      }
    }
  }

  lemma UpperHexDigit(c: Byte)
    requires UpperHex(c)
    ensures HexValue(c).Some? && HexValue(c).value < 16 && HexDigit(HexValue(c).value) == c
  {}

  /** What stands for the first byte is its encoding, or a longer one. */
  lemma FirstByte(s: Text, t: Text) returns (n: nat)
    requires Escaped(t) && QueryUnescape(t) == Some(s) && t != []
    ensures 0 < n <= |t| && s != [] && Escaped(t[n..]) && QueryUnescape(t[n..]) == Some(s[1..])
    ensures t[..n] != EscapeByte(s[0]) ==> n > |EscapeByte(s[0])|
  {
    if t[0] == '%' {
      n := 3;
      UpperHexDigit(t[1]);
      UpperHexDigit(t[2]);
      assert t[..3] == [t[0], t[1], t[2]];
    } else {
      n := 1;
      assert t[..1] == [t[0]];
    }
  }

  lemma LongerText(t: Text, n: nat, head: Text, rest: Text)
    requires n <= |t| && t != head + rest
    requires (t[..n] == head || n > |head|) && (t[n..] == rest || |t[n..]| > |rest|)
    ensures |t| > |head + rest|
  {
    assert t == t[..n] + t[n..];
  }

  /** No other such text that reads as s is as short: the encoding is the only shortest one. */
  lemma {:induction false} EscapeIsShortest(s: Text, t: Text)
    requires Escaped(t) && QueryUnescape(t) == Some(s) && t != QueryEscape(s)
    ensures |t| > |QueryEscape(s)|
    decreases |t|
  {
    if t == [] {
    } else {
      var n := FirstByte(s, t);
      if t[n..] != QueryEscape(s[1..]) {
        EscapeIsShortest(s[1..], t[n..]);
      }
      LongerText(t, n, EscapeByte(s[0]), QueryEscape(s[1..]));
    }
  }

  // ---------------------------------------------------------------- what decodes, and to what

  function Prepend(s: Text, rest: Option<Text>): Option<Text> {
    match rest
    case None => None
    case Some(t) => Some(s + t)
  }

  lemma PrependCons(c: Byte, s: Text, rest: Option<Text>)
    ensures Prepend([c] + s, rest) == Cons(c, Prepend(s, rest))
    ensures Prepend([], rest) == rest
  {
    if rest.Some? {
      assert [c] + s + rest.value == [c] + (s + rest.value) && [] + rest.value == rest.value;
    }
  }

  predicate Hex(c: Byte) {
    UpperHex(c) || 'a' <= c <= 'f'
  }

  /** A percent sign without two hex digits behind it. */
  predicate BadPercentAt(t: Text, i: nat) {
    i < |t| && t[i] == '%' && !(i + 2 < |t| && Hex(t[i + 1]) && Hex(t[i + 2]))
  }

  ghost predicate Malformed(t: Text) {
    exists i: nat :: BadPercentAt(t, i)
  }

  /** Nothing changes for the rest of a text when its first letter or percent sequence is taken off. */
  lemma MalformedRest(t: Text, n: nat)
    requires 0 < n <= |t| && forall i: nat :: i < n ==> !BadPercentAt(t, i)
    ensures Malformed(t[n..]) <==> Malformed(t)
  {
    forall i: nat
      ensures BadPercentAt(t[n..], i) <==> BadPercentAt(t, n + i)
    {
    }
    if Malformed(t) {
      var i: nat :| BadPercentAt(t, i);
      assert BadPercentAt(t[n..], i - n);
    }
  }

  /** Decoding fails if and only if the text is malformed. */
  lemma {:induction false} UnescapeFailsIff(t: Text)
    ensures QueryUnescape(t) == None <==> Malformed(t)
    decreases |t|
  {
    if t == [] {
    } else if BadPercentAt(t, 0) {
      assert Malformed(t);
    } else {
      var n := if t[0] == '%' then 3 else 1;
      UnescapeFailsIff(t[n..]);
      MalformedRest(t, n);
    }
  }

  /** Text behind a text that decodes is decoded by itself. */
  lemma {:induction false} UnescapeJoin(a: Text, b: Text)
    requires QueryUnescape(a).Some?
    ensures QueryUnescape(a + b) == Prepend(QueryUnescape(a).value, QueryUnescape(b))
    decreases |a|
  {
    if a == [] {
      PrependCons(' ', [], QueryUnescape(b));
      assert a + b == b;
    } else {
      var n := if a[0] == '%' then 3 else 1;
      UnescapeJoin(a[n..], b);
      assert (a + b)[n..] == a[n..] + b;
      var s := QueryUnescape(a).value;
      assert s == [s[0]] + s[1..];
      PrependCons(s[0], s[1..], QueryUnescape(b));
    }
  }

  /** A plus sign is a space, a percent sequence the byte of that number, and any other byte stands for itself. */
  lemma UnescapeOne(c: Byte, m: nat, n: nat, x: Byte, y: Byte)
    requires m < 16 && (x == "0123456789ABCDEF"[m] || x == "0123456789abcdef"[m])
    requires n < 16 && (y == "0123456789ABCDEF"[n] || y == "0123456789abcdef"[n])
    ensures QueryUnescape("+") == Some(" ")
    ensures c != '+' && c != '%' ==> QueryUnescape([c]) == Some([c])
    ensures QueryUnescape(['%', x, y]) == Some([(16 * m + n) as char])
  {
    assert HexValue(x) == Some(m) && HexValue(y) == Some(n);
    var empty: Text := [];
    var percent: Text := ['%', x, y];
    var byte: Byte := (16 * m + n) as char;
    assert [' '] + empty == " " && [c] + empty == [c] && [byte] + empty == [byte];
    assert percent[3..] == empty;
  }

  // ---------------------------------------------------------------- slashes

  function Mark(s: Text): Text {
    ReplaceAll(s, SLASH, MARKER)
  }

  function Unmark(s: Text): Text {
    ReplaceAll(s, MARKER, SLASH)
  }

  /** What a key may not contain: text that, once its slashes are marked, reads as a marker of its own. */
  predicate FalseMarkerAt(s: Text, i: nat) {
    OccursAt(s, "__SLASH__", i) || OccursAt(s, "__SLASH_/", i) || OccursAt(s, "__SLASH/", i)
  }

  ghost predicate HasFalseMarker(s: Text) {
    exists i: nat :: FalseMarkerAt(s, i)
  }

  lemma MarkUnfold(s: Text)
    requires s != []
    ensures Mark(s) == (if s[0] == '/' then MARKER else [s[0]]) + Mark(s[1..])
  {}

  /** A letter that no marker starts with can only come from the text itself. */
  lemma PeelLetter(s: Text, c: Byte, p: Text)
    requires c != '_' && c != '/'
    ensures [c] + p <= Mark(s) <==> s != [] && s[0] == c && p <= Mark(s[1..])
  {
    if s != [] {
      MarkUnfold(s);
      PrefixCons(c, p, if s[0] == '/' then '_' else s[0], Mark(s)[1..]);
      assert Mark(s) == [Mark(s)[0]] + Mark(s)[1..];
    }
  }

  lemma PrefixCons(c: Byte, p: Text, d: Byte, q: Text)
    ensures [c] + p <= [d] + q <==> c == d && p <= q
  {
    if [c] + p <= [d] + q {
      assert ([c] + p)[0] == ([d] + q)[0];
      assert p == ([c] + p)[1..] == ([d] + q)[1..][..|p|] == q[..|p|];
    }
  }

  lemma PeelUnderscore(s: Text, p: Text)
    requires s != [] && s[0] != '/'
    ensures ['_'] + p <= Mark(s) <==> s[0] == '_' && p <= Mark(s[1..])
  {
    MarkUnfold(s);
    PrefixCons('_', p, s[0], Mark(s[1..]));
  }

  /** The same for a whole word of such letters. */
  lemma {:induction false} PeelWord(s: Text, w: Text, p: Text)
    requires '_' !in w && '/' !in w
    ensures w + p <= Mark(s) <==> w <= s && p <= Mark(s[|w|..])
  {
    if w == [] {
      assert w + p == p && s[0..] == s;
    } else {
      PeelLetter(s, w[0], w[1..] + p);
      assert w + p == [w[0]] + (w[1..] + p) && w == [w[0]] + w[1..];
      if s != [] && s[0] == w[0] {
        PeelWord(s[1..], w[1..], p);
        assert s == [s[0]] + s[1..];
        PrefixCons(w[0], w[1..], s[0], s[1..]);
        assert w <= s ==> s[1..][|w| - 1..] == s[|w|..];
      }
    }
  }

  lemma PrefixSplit(w: Text, p: Text, s: Text)
    ensures w + p <= s <==> w <= s && p <= s[|w|..]
  {}

  /** A marked text begins with SLASH__ exactly when the text begins with SLASH and one of three tails. */
  lemma LettersThenTail(s: Text)
    ensures "SLASH__" <= Mark(s) <==> "SLASH__" <= s || "SLASH_/" <= s || "SLASH/" <= s
  {
    var w: Text := "SLASH";
    PeelWord(s, w, "__");
    PrefixSplit(w, "__", s);
    PrefixSplit(w, "_/", s);
    PrefixSplit(w, "/", s);
    assert w + "__" == "SLASH__" && w + "_/" == "SLASH_/" && w + "/" == "SLASH/";
    if w <= s {
      Tail(s[|w|..]);
    }
  }

  lemma Tail(s: Text)
    ensures "__" <= Mark(s) <==> "__" <= s || "_/" <= s || "/" <= s
  {
    if s != [] {
      MarkUnfold(s);
      if s[0] == '_' && s[1..] != [] {
        MarkUnfold(s[1..]);
      }
    }
  }

  /** A marker at the head of a marked text that no slash put there is a false marker of the text. */
  lemma MarkerAtHead(s: Text)
    requires s != [] && s[0] != '/'
    ensures MARKER <= Mark(s) <==> FalseMarkerAt(s, 0)
  {
    var w: Text := "__";
    assert s[0..] == s;
    PrefixSplit(w, "SLASH__", s);
    PrefixSplit(w, "SLASH_/", s);
    PrefixSplit(w, "SLASH/", s);
    assert w + "SLASH__" == MARKER && w + "SLASH_/" == "__SLASH_/" && w + "SLASH/" == "__SLASH/";
    TwoUnderscores(s);
    if w <= s {
      LettersThenTail(s[2..]);
    }
  }

  lemma TwoUnderscores(s: Text)
    requires s != [] && s[0] != '/'
    ensures MARKER <= Mark(s) <==> "__" <= s && "SLASH__" <= Mark(s[2..])
  {
    var p1, p2: Text := "_SLASH__", "SLASH__";
    PeelUnderscore(s, p1);
    assert ['_'] + p1 == MARKER && ['_'] + p2 == p1;
    if s[0] == '_' && s[1..] != [] {
      var s1 := s[1..];
      assert s1[1..] == s[2..];
      if s1[0] == '/' {
        MarkUnfold(s1);
        assert Mark(s1)[1] == '_' && p1[1] == 'S';
      } else {
        PeelUnderscore(s1, p2);
      }
    }
  }

  /** Marking and unmarking gives the text back if and only if it has no false marker. */
  lemma {:induction false} MarkRoundTripIff(s: Text)
    ensures Unmark(Mark(s)) == s <==> !HasFalseMarker(s)
  {
    if s == [] {
      assert forall i: nat :: !FalseMarkerAt(s, i);
    } else {
      var t := s[1..];
      MarkRoundTripIff(t);
      MarkUnfold(s);
      ShiftFalseMarkers(s);
      assert s == [s[0]] + t;
      if s[0] == '/' {
        assert Mark(s)[|MARKER|..] == Mark(t);
        assert Unmark(Mark(s)) == SLASH + Unmark(Mark(t));
        assert !FalseMarkerAt(s, 0);
      } else {
        MarkerAtHead(s);
        assert Mark(s)[1..] == Mark(t);
        if FalseMarkerAt(s, 0) {
          assert Unmark(Mark(s))[0] == '/';
        } else {
          assert Unmark(Mark(s)) == [s[0]] + Unmark(Mark(t));
        }
      }
    }
  }

  lemma ShiftFalseMarkers(s: Text)
    requires s != []
    ensures HasFalseMarker(s) <==> FalseMarkerAt(s, 0) || HasFalseMarker(s[1..])
  {
    ShiftOccurrences(s, "__SLASH__");
    ShiftOccurrences(s, "__SLASH_/");
    ShiftOccurrences(s, "__SLASH/");
    if i: nat :| FalseMarkerAt(s, i) && i > 0 {
      assert FalseMarkerAt(s[1..], i - 1);
    }
    if i: nat :| FalseMarkerAt(s[1..], i) {
      assert FalseMarkerAt(s, i + 1);
    }
  }

  /** Every marker of a text without slashes can be unmarked and marked again. */
  lemma {:induction false} UnmarkRoundTrip(t: Text)
    requires '/' !in t
    ensures Mark(Unmark(t)) == t
    decreases |t|
  {
    if t == [] {
    } else {
      var n := if MARKER <= t then |MARKER| else 1;
      UnmarkRoundTrip(t[n..]);
      MarkUnfold(Unmark(t));
      assert Unmark(t)[1..] == Unmark(t[n..]);
    }
  }

  lemma {:induction false} MarkHasNoSlash(s: Text)
    ensures '/' !in Mark(s)
  {
    if s == [] {
    } else {
      MarkUnfold(s);
      MarkHasNoSlash(s[1..]);
    }
  }

  // ---------------------------------------------------------------- getPath and getKeyFromPath

  datatype FileConfig = FileConfig(directory: Text, extension: Text)

  function FileName(c: FileConfig, key: Text): Text {
    QueryEscape(Mark(key)) + c.extension
  }

  function TrimSuffix(s: Text, suffix: Text): Text {
    if |suffix| <= |s| && s[|s| - |suffix|..] == suffix then s[..|s| - |suffix|] else s
  }

  function GetPath(c: FileConfig, key: Text): Text {
    Join(c.directory, FileName(c, key))
  }

  /** The key that a last path component stands for. */
  function KeyOf(c: FileConfig, leaf: Text): Text {
    match QueryUnescape(TrimSuffix(leaf, c.extension))
    case Some(t) => Unmark(t)
    case None => Unmark([])
  }

  function GetKeyFromPath(c: FileConfig, path: Text): Text {
    KeyOf(c, Base(path))
  }

  // ---------------------------------------------------------------- extensions

  /** What an extension adds to the file name, up to its first slash. */
  function Head(x: Text): Text {
    Components(x)[0]
  }

  /** What lies behind the first slash; nothing, for an ordinary extension. */
  function Rest(x: Text): seq<Text> {
    Components(x)[1..]
  }

  function OwnName(c: FileConfig, key: Text): Text {
    QueryEscape(Mark(key)) + Head(c.extension)
  }

  /** The key has no file name of its own; only the empty key and the dots under few extensions. */
  predicate DotKey(c: FileConfig, key: Text) {
    Dots(key + Head(c.extension))
  }

  /** The extension leads nowhere else, so that the last component of a path is the file's own name. */
  predicate EndsInOwnName(c: FileConfig) {
    Below(Rest(c.extension)) == Some([])
  }

  lemma HeadAndRest(x: Text)
    ensures '/' !in Head(x) && forall n :: n in Rest(x) ==> '/' !in n
    ensures Rest(x) == [] <==> '/' !in x
    ensures Rest(x) == [] ==> Head(x) == x
  {
    ComponentsAreNames(x);
    assert Head(x) in Components(x);
    if '/' !in x {
      ComponentsOfName([], x);
    }
  }

  lemma FileNameComponents(c: FileConfig, key: Text)
    ensures Components(FileName(c, key)) == [OwnName(c, key)] + Rest(c.extension)
    ensures '/' !in OwnName(c, key)
  {
    EscapeRoundTrip(Mark(key));
    HeadAndRest(c.extension);
    ComponentsBehind(QueryEscape(Mark(key)), c.extension);
  }

  // ---------------------------------------------------------------- dots

  /** The empty text and the dot names stand for themselves, and no other text is escaped to them. */
  lemma {:induction false} EscapedDots(key: Text, dots: Text)
    requires Dots(dots)
    ensures QueryEscape(Mark(key)) == dots <==> key == dots
  {
    EscapeRoundTrip(Mark(key));
    if key != [] {
      MarkUnfold(key);
    }
    if dots != [] && key != [] {
      MarkUnfold(dots);
      EscapedDots(key[1..], dots[1..]);
      EscapeRoundTrip(Mark(key[1..]));
    }
  }

  lemma PrefixOfDots(s: Text, t: Text)
    requires Dots(s + t)
    ensures Dots(s)
  {
    assert (s + t)[..|s|] == s;
  }

  lemma DotNames(key: Text, x: Text)
    ensures Dots(QueryEscape(Mark(key)) + x) <==> Dots(key + x)
    ensures Dots(key + x) ==> QueryEscape(Mark(key)) == key && Dots(key)
  {
    var e := QueryEscape(Mark(key));
    if Dots(e + x) {
      PrefixOfDots(e, x);
      EscapedDots(key, e);
    }
    if Dots(key + x) {
      PrefixOfDots(key, x);
      EscapedDots(key, key);
    }
  }

  lemma PlainNameIff(c: FileConfig, key: Text)
    ensures PlainName(OwnName(c, key)) <==> !DotKey(c, key)
  {
    FileNameComponents(c, key);
    DotNames(key, Head(c.extension));
  }

  lemma {:induction false} UnmarkDots(t: Text, dots: Text)
    requires Dots(dots)
    ensures Unmark(t) == dots <==> t == dots
  {
    if MARKER <= t {
      assert Unmark(t)[0] == '/';
    } else if t != [] && dots != [] {
      UnmarkDots(t[1..], dots[1..]);
      assert t == [t[0]] + t[1..] && dots == [dots[0]] + dots[1..];
    }
  }

  // ---------------------------------------------------------------- where a key's path leads

  lemma PlaceOf(c: FileConfig, key: Text)
    ensures JoinStack(c.directory, FileName(c, key)) ==
      Walk(JoinRooted(c.directory, FileName(c, key)),
           Push(JoinRooted(c.directory, FileName(c, key)), Stack(c.directory), OwnName(c, key)), Rest(c.extension))
  {
    var rooted := JoinRooted(c.directory, FileName(c, key));
    FileNameComponents(c, key);
    WalkOn(rooted, Stack(c.directory), [OwnName(c, key)], Rest(c.extension));
    WalkOne(rooted, Stack(c.directory), OwnName(c, key));
  }

  /** A key with a name of its own leads one step down from the directory, and on from there. */
  lemma OwnPlace(c: FileConfig, key: Text)
    requires !DotKey(c, key)
    ensures JoinRooted(c.directory, FileName(c, key)) == Rooted(c.directory)
    ensures JoinStack(c.directory, FileName(c, key)) ==
      Walk(Rooted(c.directory), Stack(c.directory) + [OwnName(c, key)], Rest(c.extension))
  {
    PlainNameIff(c, key);
    PlaceOf(c, key);
    OwnNameFirst(c, key);
  }

  lemma OwnNameFirst(c: FileConfig, key: Text)
    requires OwnName(c, key) != []
    ensures FileName(c, key) != [] && !Rooted(FileName(c, key))
  {
    FileNameComponents(c, key);
    FirstComponent(FileName(c, key));
  }

  /** Under an ordinary extension a key's file lies in the directory, under its escaped name. */
  lemma OrdinaryPath(c: FileConfig, key: Text)
    requires '/' !in c.extension && |c.extension| > 2
    ensures var (d, name) := (Clean(c.directory), QueryEscape(Mark(key)) + c.extension);
      GetPath(c, key) ==
        if c.directory == [] || d == "." then name else if d == "/" then "/" + name else d + "/" + name
  {
    HeadAndRest(c.extension);
    PlainNameIff(c, key);
    if c.directory == [] {
      PlainJoinIs(c.directory, FileName(c, key));
    } else {
      JoinCleans(c.directory, FileName(c, key));
      CleanIff(c.directory);
      CleanIff(Clean(c.directory));
      PlainJoinIs(Clean(c.directory), FileName(c, key));
    }
  }

  /** The last path component of a key without a name of its own, read off the directory's components. */
  function DirectoryLeaf(c: FileConfig, key: Text): Text {
    var rooted := JoinRooted(c.directory, key + c.extension);
    Leaf(rooted, Walk(rooted, Push(rooted, Stack(c.directory), key + Head(c.extension)), Rest(c.extension)))
  }

  lemma DotPlace(c: FileConfig, key: Text)
    requires DotKey(c, key)
    ensures FileName(c, key) == key + c.extension && OwnName(c, key) == key + Head(c.extension)
    ensures Base(GetPath(c, key)) == DirectoryLeaf(c, key)
  {
    DotNames(key, Head(c.extension));
    PlaceOf(c, key);
    BaseOfJoin(c.directory, FileName(c, key));
  }

  /** The last path component of every other key, when it is not the file's own name: one for all of them. */
  function FixedLeaf(c: FileConfig): Text {
    Leaf(Rooted(c.directory), Walk(Rooted(c.directory), Stack(c.directory) + ["x"], Rest(c.extension)))
  }

  lemma OwnLeaf(c: FileConfig, key: Text)
    requires !DotKey(c, key)
    ensures Base(GetPath(c, key)) == if EndsInOwnName(c) then OwnName(c, key) else FixedLeaf(c)
  {
    var rooted, stack, own, rest := Rooted(c.directory), Stack(c.directory), OwnName(c, key), Rest(c.extension);
    OwnPlace(c, key);
    BaseOfJoin(c.directory, FileName(c, key));
    PlainNameIff(c, key);
    if Below(rest) == None {
      WalkAbove(rooted, stack, own, "x", rest);
    } else {
      WalkBelow(rooted, stack + [own], rest);
      WalkBelow(rooted, stack + ["x"], rest);
    }
  }

  /** Without a file name of its own a key's path is that of the directory, or of its parent for two dots. */
  lemma UnnamedPath(c: FileConfig, key: Text)
    requires DotKey(c, key)
    ensures GetPath(c, key) == Join(c.directory, key + c.extension)
    ensures c.directory != [] && (key + c.extension == "" || key + c.extension == ".") ==>
      GetPath(c, key) == Clean(c.directory)
  {
    DotPlace(c, key);
    JoinIs(c.directory, key + c.extension);
    if key + c.extension == "" || key + c.extension == "." {
      ComponentsOfName([], key + c.extension);
      WalkOne(Rooted(c.directory), Stack(c.directory), key + c.extension);
    }
  }

  // ---------------------------------------------------------------- reading a file's own name

  lemma UnescapeSomething(s: Text)
    requires s != [] && QueryUnescape(s).Some?
    ensures QueryUnescape(s).value != []
  {}

  /** Unmarking can be undone up to slashes that become markers, so it loses no letter. */
  lemma {:induction false} RemarkedIsNoShorter(t: Text)
    ensures |Mark(Unmark(t))| >= |t|
    decreases |t|
  {
    if t == [] {
    } else if MARKER <= t {
      RemarkedIsNoShorter(t[|MARKER|..]);
      MarkUnfold(Unmark(t));
      assert Unmark(t)[1..] == Unmark(t[|MARKER|..]);
    } else {
      RemarkedIsNoShorter(t[1..]);
      MarkUnfold(Unmark(t));
      assert Unmark(t)[1..] == Unmark(t[1..]);
    }
  }

  lemma SuffixLetters(s: Text, suffix: Text)
    requires |suffix| <= |s| && s[|s| - |suffix|..] == suffix
    ensures forall ch :: ch in suffix ==> ch in s
  {}

  /** An extension is trimmed from the own name unless it has a slash. */
  lemma TrimOwn(c: FileConfig, key: Text)
    ensures TrimSuffix(OwnName(c, key), c.extension) ==
      if Rest(c.extension) == [] then QueryEscape(Mark(key)) else OwnName(c, key)
  {
    var own, x := OwnName(c, key), c.extension;
    HeadAndRest(x);
    FileNameComponents(c, key);
    if Rest(x) == [] {
      assert own == QueryEscape(Mark(key)) + x;
    } else if |x| <= |own| && own[|own| - |x|..] == x {
      SuffixLetters(own, x);
    }
  }

  /** The extension is trimmed whole, or adds nothing to the name. */
  predicate KeepsName(c: FileConfig) {
    Rest(c.extension) == [] || Head(c.extension) == []
  }

  lemma OwnNameReads(c: FileConfig, key: Text)
    ensures KeyOf(c, OwnName(c, key)) == key <==>
      if KeepsName(c) then !HasFalseMarker(key) else key == [] && QueryUnescape(Head(c.extension)) == None
    ensures KeepsName(c) ==> KeyOf(c, OwnName(c, key)) == Unmark(Mark(key))
  {
    var head := Head(c.extension);
    TrimOwn(c, key);
    EscapeRoundTrip(Mark(key));
    MarkRoundTripIff(key);
    UnescapeJoin(QueryEscape(Mark(key)), head);
    if KeepsName(c) {
      assert head == [] ==> OwnName(c, key) == QueryEscape(Mark(key));
    } else if QueryUnescape(head).Some? {
      var u := QueryUnescape(head).value;
      UnescapeSomething(head);
      RemarkedIsNoShorter(Mark(key) + u);
    }
  }

  // ---------------------------------------------------------------- the codec

  /**
   * When a key reads back, case by case: for a key without a file name of its own, by what the directory's last
   * component decodes to; under an extension with a slash, by whether that changes the last component, or its head
   * stays on the name.
   */
  ghost predicate ReadsBack(c: FileConfig, key: Text, unmarks: bool) {
    if DotKey(c, key) then
      var decoded := QueryUnescape(TrimSuffix(DirectoryLeaf(c, key), c.extension));
      decoded == Some(key) || (decoded == None && key == [])
    else if !EndsInOwnName(c) then key == KeyOf(c, FixedLeaf(c))
    else if KeepsName(c) then unmarks
    else key == [] && QueryUnescape(Head(c.extension)) == None
  }

  /**
   * For every directory, extension and key: under an ordinary extension the key read back from a file's path is the key
   * that named the file, if and only if it has no false marker.
   */
  lemma KeyRoundTripIff(c: FileConfig, key: Text)
    ensures GetKeyFromPath(c, GetPath(c, key)) == key <==> ReadsBack(c, key, !HasFalseMarker(key))
  {
    if DotKey(c, key) {
      DotPlace(c, key);
      DotNames(key, Head(c.extension));
      var decoded := QueryUnescape(TrimSuffix(DirectoryLeaf(c, key), c.extension));
      UnmarkDots(if decoded.Some? then decoded.value else [], key);
    } else {
      OwnLeaf(c, key);
      OwnNameReads(c, key);
    }
  }

  /** In particular every key without the text __SLASH reads back, under an extension that leaves its name readable. */
  lemma KeyRoundTrip(c: FileConfig, key: Text)
    requires !Contains(key, "__SLASH")
    ensures GetKeyFromPath(c, GetPath(c, key)) == key <==> ReadsBack(c, key, true)
  {
    KeyRoundTripIff(c, key);
    NoFalseMarker(key);
  }

  /** Under an extension of three letters or more without a slash, such as the default one, names are readable. */
  lemma OrdinaryExtension(c: FileConfig, key: Text, unmarks: bool)
    requires '/' !in c.extension && |c.extension| > 2
    ensures ReadsBack(c, key, unmarks) == unmarks
  {
    HeadAndRest(c.extension);
  }

  lemma NoFalseMarker(key: Text)
    requires !Contains(key, "__SLASH")
    ensures !HasFalseMarker(key)
  {
    forall i: nat
      ensures !FalseMarkerAt(key, i)
    {
      if FalseMarkerAt(key, i) {
        FalseMarkerBegins(key, i);
      }
    }
  }

  lemma FalseMarkerBegins(s: Text, i: nat)
    requires FalseMarkerAt(s, i)
    ensures OccursAt(s, "__SLASH", i)
  {}

  // ---------------------------------------------------------------- keys that share a path

  /** The key's path leads to a place of its own below the directory. */
  predicate Named(c: FileConfig, key: Text) {
    !DotKey(c, key) && Below(Rest(c.extension)).Some?
  }

  lemma OwnNameGivesMark(c: FileConfig, a: Text, b: Text)
    requires OwnName(c, a) == OwnName(c, b)
    ensures Mark(a) == Mark(b)
  {
    var e, f, head := QueryEscape(Mark(a)), QueryEscape(Mark(b)), Head(c.extension);
    assert e == (e + head)[..|e|] == (f + head)[..|f|] == f;
    EscapeRoundTrip(Mark(a));
    EscapeRoundTrip(Mark(b));
  }

  lemma NamedPlace(c: FileConfig, key: Text)
    requires Named(c, key)
    ensures JoinStack(c.directory, FileName(c, key))
      == Stack(c.directory) + [OwnName(c, key)] + Below(Rest(c.extension)).value
  {
    OwnPlace(c, key);
    WalkBelow(Rooted(c.directory), Stack(c.directory) + [OwnName(c, key)], Rest(c.extension));
  }

  lemma NamedDiffer(c: FileConfig, a: Text, b: Text)
    requires Named(c, a) && Named(c, b) && GetPath(c, a) == GetPath(c, b)
    ensures Mark(a) == Mark(b)
  {
    var n := |Stack(c.directory)|;
    SameJoinIff(c.directory, FileName(c, a), FileName(c, b));
    NamedPlace(c, a);
    NamedPlace(c, b);
    assert JoinStack(c.directory, FileName(c, a))[n] == OwnName(c, a);
    assert JoinStack(c.directory, FileName(c, b))[n] == OwnName(c, b);
    OwnNameGivesMark(c, a, b);
  }

  lemma AppendCancels(p: seq<Text>, q: seq<Text>, r: seq<Text>)
    ensures p + r == q + r ==> p == q
  {
    if p + r == q + r {
      assert p == (p + r)[..|p|];
    }
  }

  lemma NamedLeavesDirectory(c: FileConfig, a: Text, b: Text)
    requires Named(c, a) && !Named(c, b)
    ensures GetPath(c, a) != GetPath(c, b)
  {
    var stack, below := Stack(c.directory), Below(Rest(c.extension)).value;
    var rooted := JoinRooted(c.directory, FileName(c, b));
    SameJoinIff(c.directory, FileName(c, a), FileName(c, b));
    NamedPlace(c, a);
    PlaceOf(c, b);
    WalkBelow(rooted, Push(rooted, stack, OwnName(c, b)), Rest(c.extension));
    PlainNameIff(c, a);
    DotPlace(c, b);
    PushDots(rooted, stack, OwnName(c, a), OwnName(c, b));
    AppendCancels(stack + [OwnName(c, a)], Push(rooted, stack, OwnName(c, b)), below);
  }

  /** Both lead to one place, be it the directory, one above it, or one that the extension leads to. */
  predicate SamePlace(c: FileConfig, a: Text, b: Text) {
    var x, y := FileName(c, a), FileName(c, b);
    && JoinRooted(c.directory, x) == JoinRooted(c.directory, y)
    && JoinStack(c.directory, x) == JoinStack(c.directory, y)
    && (c.directory == [] ==> (x == [] <==> y == []))
  }

  /** Two keys share a path if and only if they are equal once marked, or share a place that is neither's own. */
  lemma SharePathIff(c: FileConfig, a: Text, b: Text)
    ensures GetPath(c, a) == GetPath(c, b) <==>
      Mark(a) == Mark(b) || (!Named(c, a) && !Named(c, b) && SamePlace(c, a, b))
  {
    if GetPath(c, a) == GetPath(c, b) {
      if Named(c, a) && Named(c, b) {
        NamedDiffer(c, a, b);
      } else if Named(c, a) {
        NamedLeavesDirectory(c, a, b);
      } else if Named(c, b) {
        NamedLeavesDirectory(c, b, a);
      }
    }
    SameJoinIff(c.directory, FileName(c, a), FileName(c, b));
  }

  /** Under an extension that leads out of its own directory all keys with file names share one path. */
  lemma LeadingOutShares(c: FileConfig, a: Text, b: Text)
    requires Below(Rest(c.extension)) == None && !DotKey(c, a) && !DotKey(c, b)
    ensures GetPath(c, a) == GetPath(c, b)
  {
    PlainNameIff(c, a);
    PlainNameIff(c, b);
    OwnPlace(c, a);
    OwnPlace(c, b);
    OwnNameFirst(c, a);
    OwnNameFirst(c, b);
    WalkAbove(Rooted(c.directory), Stack(c.directory), OwnName(c, a), OwnName(c, b), Rest(c.extension));
    SameJoinIff(c.directory, FileName(c, a), FileName(c, b));
  }

  /** No two keys without false markers share a file, if one of them has a place of its own. */
  lemma PathsDiffer(c: FileConfig, a: Text, b: Text)
    requires Named(c, a) || Named(c, b)
    requires !HasFalseMarker(a) && !HasFalseMarker(b) && a != b
    ensures GetPath(c, a) != GetPath(c, b)
  {
    MarkRoundTripIff(a);
    MarkRoundTripIff(b);
    SharePathIff(c, a, b);
  }

  /** A key with a false marker shares its file with another key, the one read back where names are readable. */
  lemma FalseMarkerCollides(c: FileConfig, key: Text)
    requires HasFalseMarker(key)
    ensures var other := Unmark(Mark(key));
      && other != key && GetPath(c, other) == GetPath(c, key)
      && (EndsInOwnName(c) && KeepsName(c) ==> GetKeyFromPath(c, GetPath(c, key)) == other)
  {
    MarkRoundTripIff(key);
    MarkHasNoSlash(key);
    UnmarkRoundTrip(Mark(key));
    FalseMarkerIsLong(key);
    OwnLeaf(c, key);
    OwnNameReads(c, key);
  }

  lemma FalseMarkerIsLong(key: Text)
    requires HasFalseMarker(key)
    ensures |key| > 2
  {
    var i: nat :| FalseMarkerAt(key, i);
    FalseMarkerBegins(key, i);
  }
}
