/** Character classes and string operations of Rust's standard library, as far
    as the parsers use them.  A `char` is a Unicode scalar value. */
module Text {
  import opened Wrappers

  // ---------------------------------------------------------------------
  // Characters.

  /** `char::is_ascii_whitespace`: no vertical tab. */
  predicate IsAsciiWhitespace(c: char) {
    c == ' ' || c == '\t' || c == '\n' || c == '\r' || c == '\U{0C}'
  }

  /** `char::is_whitespace`: the Unicode White_Space property. */
  predicate IsWhitespace(c: char) {
    || '\U{09}' <= c <= '\U{0D}' || c == ' ' || c == '\U{85}' || c == '\U{A0}'
    || c == '\U{1680}' || '\U{2000}' <= c <= '\U{200A}' || c == '\U{2028}' || c == '\U{2029}'
    || c == '\U{202F}' || c == '\U{205F}' || c == '\U{3000}'
  }

  /** The two differ beyond ASCII and on the vertical tab. */
  lemma WhitespaceOfBothKinds(c: char)
    ensures IsAsciiWhitespace(c) <==> IsWhitespace(c) && c < '\U{80}' && c != '\U{0B}'
    ensures IsAsciiWhitespace(' ') && IsAsciiWhitespace('\t') && IsAsciiWhitespace('\n') && IsAsciiWhitespace('\r')
    ensures IsWhitespace('\U{0B}') && IsWhitespace('\U{85}') && IsWhitespace('\U{A0}') && IsWhitespace('\U{1680}')
    ensures IsWhitespace('\U{2000}') && IsWhitespace('\U{200A}') && IsWhitespace('\U{2028}') && IsWhitespace('\U{2029}')
    ensures IsWhitespace('\U{202F}') && IsWhitespace('\U{205F}') && IsWhitespace('\U{3000}')
    ensures !IsWhitespace('a') && !IsWhitespace('=') && !IsWhitespace('\U{08}') && !IsWhitespace('\U{0E}')
    ensures !IsWhitespace('\U{200B}') && !IsWhitespace('\U{2060}') && !IsWhitespace('\U{FEFF}')
  {
  }

  function ToUpper(c: char): char {
    if 'a' <= c <= 'z' then (c as int - 32) as char else c
  }

  function ToLower(c: char): char {
    if 'A' <= c <= 'Z' then (c as int + 32) as char else c
  }

  /** The two maps undo each other on letters, and no capital is left by the one
      and no small letter by the other. */
  lemma CaseMaps(c: char)
    ensures ToLower(ToUpper(c)) == ToLower(c) && ToUpper(ToLower(c)) == ToUpper(c)
    ensures !('A' <= ToLower(c) <= 'Z') && !('a' <= ToUpper(c) <= 'z')
    ensures ToLower('A') == 'a' && ToLower('Z') == 'z' && (ToLower(c) != c ==> 'A' <= c <= 'Z')
  {
  }

  function Lowercase(s: string): (t: string)
    ensures |t| == |s|
    ensures forall i :: 0 <= i < |s| ==> t[i] == ToLower(s[i])
  {
    seq(|s|, i requires 0 <= i < |s| => ToLower(s[i]))
  }

  // ---------------------------------------------------------------------
  // Hexadecimal digits, in lower case.

  function HexDigit(d: nat): (c: char)
    requires d < 16
    ensures IsHexDigit(c) && HexDigitValue(c) == d
  {
    if d < 10 then ('0' as int + d) as char else ('a' as int + (d - 10)) as char
  }

  predicate IsHexDigit(c: char) {
    '0' <= c <= '9' || 'a' <= c <= 'f'
  }

  function HexDigitValue(c: char): (d: nat)
    requires IsHexDigit(c)
    ensures d < 16
  {
    if c <= '9' then c as int - '0' as int else c as int - 'a' as int + 10
  }

  // ---------------------------------------------------------------------
  // Trimming.

  function TrimStart(s: string): string {
    if s != [] && IsWhitespace(s[0]) then TrimStart(s[1..]) else s
  }

  function TrimEnd(s: string): string {
    if s != [] && IsWhitespace(s[|s| - 1]) then TrimEnd(s[..|s| - 1]) else s
  }

  /** `str::trim`. */
  function Trim(s: string): string {
    TrimEnd(TrimStart(s))
  }

  predicate Blank(s: string) {
    forall c <- s :: IsWhitespace(c)
  }

  /** A string that neither starts nor ends in whitespace. */
  predicate Trimmed(s: string) {
    s != [] ==> !IsWhitespace(s[0]) && !IsWhitespace(s[|s| - 1])
  }

  lemma {:induction false} TrimStartResult(s: string)
    ensures TrimStart(s) != [] ==> !IsWhitespace(TrimStart(s)[0])
  {
    if s != [] && IsWhitespace(s[0]) {
      TrimStartResult(s[1..]);
    }
  }

  lemma {:induction false} TrimEndResult(s: string)
    ensures TrimEnd(s) != [] ==> !IsWhitespace(TrimEnd(s)[|TrimEnd(s)| - 1])
    ensures TrimEnd(s) <= s
  {
    if s != [] && IsWhitespace(s[|s| - 1]) {
      TrimEndResult(s[..|s| - 1]);
    }
  }

  /** Trimming leaves no whitespace at either end. */
  lemma TrimResult(s: string)
    ensures Trimmed(Trim(s))
  {
    TrimStartResult(s);
    TrimEndResult(TrimStart(s));
  }

  lemma {:induction false} TrimStartBlank(pre: string, s: string)
    requires Blank(pre)
    requires s != [] ==> !IsWhitespace(s[0])
    ensures TrimStart(pre + s) == s
  {
    if pre != [] {
      assert pre[0] in pre;
      assert forall c <- pre[1..] :: c in pre;
      assert (pre + s)[1..] == pre[1..] + s;
      TrimStartBlank(pre[1..], s);
    } else {
      assert pre + s == s;
    }
  }

  lemma {:induction false} TrimEndBlank(s: string, post: string)
    requires Blank(post)
    requires s != [] ==> !IsWhitespace(s[|s| - 1])
    ensures TrimEnd(s + post) == s
  {
    if post != [] {
      assert post[|post| - 1] in post;
      assert forall c <- post[..|post| - 1] :: c in post;
      assert (s + post)[..|s + post| - 1] == s + post[..|post| - 1];
      TrimEndBlank(s, post[..|post| - 1]);
    } else {
      assert s + post == s;
    }
  }

  /** Surrounding whitespace is exactly what `Trim` removes. */
  lemma TrimSurrounded(pre: string, s: string, post: string)
    requires Blank(pre) && Blank(post) && Trimmed(s)
    ensures Trim(pre + s + post) == s
  {
    if s == [] {
      assert pre + s + post == (pre + post) + [];
      TrimStartBlank(pre + post, []);
    } else {
      assert pre + s + post == pre + (s + post);
      TrimStartBlank(pre, s + post);
      TrimEndBlank(s, post);
    }
  }

  lemma TrimOfTrimmed(s: string)
    requires Trimmed(s)
    ensures Trim(s) == s
  {
    assert [] + s + [] == s;
    TrimSurrounded([], s, []);
  }

  // ---------------------------------------------------------------------
  // Splitting.

  /** `str::split_once`. */
  function SplitOnce(s: string, c: char): (r: Option<(string, string)>)
    ensures r.None? <==> c !in s
    ensures r.Some? ==> s == r.value.0 + [c] + r.value.1 && c !in r.value.0
  {
    if s == [] then None
    else if s[0] == c then Some(("", s[1..]))
    else
      match SplitOnce(s[1..], c)
      case None => None
      case Some((head, tail)) => Some(([s[0]] + head, tail))
  }

  lemma {:induction false} SplitOnceAt(head: string, c: char, tail: string)
    requires c !in head
    ensures SplitOnce(head + [c] + tail, c) == Some((head, tail))
  {
    if head == [] {
      assert head + [c] + tail == [c] + tail;
    } else {
      assert head[0] in head;
      assert forall x <- head[1..] :: x in head;
      assert (head + [c] + tail)[1..] == head[1..] + [c] + tail;
      SplitOnceAt(head[1..], c, tail);
      assert head == [head[0]] + head[1..];
    }
  }

  /** `str::split` on one character. */
  function Split(s: string, c: char): (parts: seq<string>)
    ensures |parts| > 0
    ensures forall p <- parts :: c !in p
    decreases |s|
  {
    match SplitOnce(s, c)
    case None => [s]
    case Some((head, tail)) => [head] + Split(tail, c)
  }

  function Join(parts: seq<string>, c: char): string
    requires |parts| > 0
  {
    if |parts| == 1 then parts[0] else parts[0] + [c] + Join(parts[1..], c)
  }

  lemma SplitStep(head: string, c: char, tail: string)
    requires c !in head
    ensures Split(head + [c] + tail, c) == [head] + Split(tail, c)
  {
    SplitOnceAt(head, c, tail);
  }

  lemma TailWithout(parts: seq<string>, c: char)
    requires parts != [] && forall p <- parts :: c !in p
    ensures c !in parts[0] && forall p <- parts[1..] :: c !in p
  {
    assert parts[0] in parts;
    assert forall p <- parts[1..] :: p in parts;
  }

  lemma SplitCons(head: string, rest: seq<string>, c: char, joined: string)
    requires c !in head && Split(joined, c) == rest
    ensures Split(head + [c] + joined, c) == [head] + rest
  {
    SplitStep(head, c, joined);
  }

  lemma SplitWhole(s: string, c: char)
    requires c !in s
    ensures Split(s, c) == [s]
  {
  }

  lemma HeadAndTail(parts: seq<string>)
    requires parts != []
    ensures parts == [parts[0]] + parts[1..]
    ensures |parts| == 1 ==> parts == [parts[0]]
  {
  }

  lemma {:induction false} SplitJoin(parts: seq<string>, c: char)
    requires |parts| > 0
    requires forall p <- parts :: c !in p
    ensures Split(Join(parts, c), c) == parts
  {
    TailWithout(parts, c);
    HeadAndTail(parts);
    if |parts| == 1 {
      SplitWhole(parts[0], c);
    } else {
      SplitJoin(parts[1..], c);
      SplitCons(parts[0], parts[1..], c, Join(parts[1..], c));
    }
  }

  lemma JoinCons(head: string, rest: seq<string>, c: char)
    requires rest != []
    ensures Join([head] + rest, c) == head + [c] + Join(rest, c)
  {
    assert ([head] + rest)[1..] == rest;
  }

  lemma {:induction false} JoinSplit(s: string, c: char)
    ensures Join(Split(s, c), c) == s
    decreases |s|
  {
    match SplitOnce(s, c)
    case None =>
    case Some((head, tail)) =>
      JoinSplit(tail, c);
      JoinCons(head, Split(tail, c), c);
  }
}
