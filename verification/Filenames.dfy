/** The two encodings of an entry name as a file name stem (src/keystore.rs). */
module Filenames {
  import opened Wrappers
  import opened Text

  predicate IsAllowed(c: char) {
    'a' <= c <= 'z' || 'A' <= c <= 'Z' || '0' <= c <= '9' || c == '-' || c == '_' || c == '.'
  }

  /** The characters that pass through, by their codes: the small letters, the
      capitals, the digits, the dash, the underscore and the dot. */
  lemma AllowedCodes(c: char)
    ensures var v := c as int;
            IsAllowed(c) <==> 97 <= v <= 122 || 65 <= v <= 90 || 48 <= v <= 57 || v in {45, 95, 46}
  {
  }

  predicate AllAllowed(s: string) {
    forall i :: 0 <= i < |s| ==> IsAllowed(s[i])
  }

  function Hex(n: nat): (s: string)
    ensures s != [] && forall i :: 0 <= i < |s| ==> IsHexDigit(s[i])
  {
    if n < 16 then [HexDigit(n)] else Hex(n / 16) + [HexDigit(n % 16)]
  }

  /** `{:02x}` of a character. */
  function HexOf(c: char): (s: string)
    ensures |s| >= 2 && forall i :: 0 <= i < |s| ==> IsHexDigit(s[i])
  {
    var s := Hex(c as int);
    if |s| < 2 then ['0'] + s else s
  }

  function Escape(c: char): string {
    if IsAllowed(c) then [c] else ['_'] + HexOf(c) + ['_']
  }

  /** Each character replaced by a text of its own. */
  function Replaced(name: string, text: char -> string): string {
    if name == [] then [] else Replaced(name[..|name| - 1], text) + text(name[|name| - 1])
  }

  function Sanitized(name: string): string {
    Replaced(name, Escape)
  }

  lemma {:induction false} ReplacedConcat(a: string, b: string, text: char -> string)
    ensures Replaced(a + b, text) == Replaced(a, text) + Replaced(b, text)
  {
    if b == [] {
      assert a + b == a;
    } else {
      assert (a + b)[..|a + b| - 1] == a + b[..|b| - 1];
      ReplacedConcat(a, b[..|b| - 1], text);
    }
  }

  lemma ReplacedChar(c: char, text: char -> string)
    ensures Replaced([c], text) == text(c)
  {
    assert [c][..0] == [];
    assert Replaced([c][..0], text) == [];
  }

  lemma SanitizedChar(c: char)
    ensures Sanitized([c]) == Escape(c)
  {
    ReplacedChar(c, Escape);
  }

  lemma SanitizedConcat(a: string, b: string)
    ensures Sanitized(a + b) == Sanitized(a) + Sanitized(b)
  {
    ReplacedConcat(a, b, Escape);
  }

  lemma SanitizedSnoc(name: string, i: nat)
    requires i < |name|
    ensures Sanitized(name[..i + 1]) == Sanitized(name[..i]) + Escape(name[i])
  {
    assert name[..i + 1] == name[..i] + [name[i]];
    SanitizedConcat(name[..i], [name[i]]);
    SanitizedChar(name[i]);
  }

  /** `sanitize_filename`. */
  method SanitizeFilename(name: string) returns (out: string)
    ensures out == Sanitized(name)
  {
    out := "";
    for i := 0 to |name|
      invariant out == Sanitized(name[..i])
    {
      var c := name[i];
      if IsAllowed(c) {
        out := out + [c];
      } else {
        out := out + ['_'] + HexOf(c) + ['_'];
      }
      SanitizedSnoc(name, i);
    }
    assert name[..|name|] == name;
  }

  /** `sanitize_filename_legacy`. */
  function Legacy(name: string): (s: string)
    ensures |s| == |name|
  {
    seq(|name|, i requires 0 <= i < |name| => if IsAllowed(name[i]) then name[i] else '_')
  }

  // ---------------------------------------------------------------------

  lemma EscapeAllowed(c: char)
    ensures Escape(c) != [] && AllAllowed(Escape(c))
    ensures !IsAllowed(c) ==> |Escape(c)| > 1
  {
  }

  lemma LastChar(name: string)
    requires name != []
    ensures var last := Escape(name[|name| - 1]);
            && Sanitized(name) == Sanitized(name[..|name| - 1]) + last
            && last != [] && AllAllowed(last)
            && (if IsAllowed(name[|name| - 1]) then last == [name[|name| - 1]] else |last| > 1)
  {
    EscapeAllowed(name[|name| - 1]);
  }

  lemma {:induction false} SanitizedAllowed(name: string)
    ensures AllAllowed(Sanitized(name))
  {
    if name != [] {
      SanitizedAllowed(name[..|name| - 1]);
      LastChar(name);
    }
  }

  lemma {:induction false} AllowedStays(name: string)
    requires AllAllowed(name)
    ensures Sanitized(name) == name
    ensures Legacy(name) == name
  {
    if name != [] {
      AllowedStays(name[..|name| - 1]);
      LastChar(name);
      assert name == name[..|name| - 1] + [name[|name| - 1]];
    }
  }

  /** Encoding twice is encoding once, and the image is made of allowed
      characters only. */
  lemma SanitizedIdempotent(name: string)
    ensures AllAllowed(Sanitized(name))
    ensures Sanitized(Sanitized(name)) == Sanitized(name)
    ensures Sanitized(name) == name <==> AllAllowed(name)
  {
    SanitizedAllowed(name);
    AllowedStays(Sanitized(name));
    if AllAllowed(name) {
      AllowedStays(name);
    }
  }

  lemma {:induction false} SanitizedLength(name: string)
    ensures |Sanitized(name)| >= |name|
    ensures !AllAllowed(name) ==> |Sanitized(name)| > |name|
  {
    if name != [] {
      SanitizedLength(name[..|name| - 1]);
      LastChar(name);
    }
  }

  /** The two encodings differ exactly on names with a character that is not
      allowed. */
  lemma LegacyDiffers(name: string)
    ensures Legacy(name) != Sanitized(name) <==> !AllAllowed(name)
  {
    SanitizedLength(name);
    if AllAllowed(name) {
      AllowedStays(name);
    }
  }

  // ---------------------------------------------------------------------
  // Decoding.

  function HexNumber(s: string): nat
    requires forall i :: 0 <= i < |s| ==> IsHexDigit(s[i])
  {
    if s == [] then 0 else 16 * HexNumber(s[..|s| - 1]) + HexDigitValue(s[|s| - 1])
  }

  lemma {:induction false} HexRoundTrip(n: nat)
    ensures HexNumber(Hex(n)) == n
  {
    if n >= 16 {
      HexRoundTrip(n / 16);
      assert Hex(n)[..|Hex(n)| - 1] == Hex(n / 16);
    } else {
      assert Hex(n)[..0] == [];
      assert HexNumber(Hex(n)[..0]) == 0;
    }
  }

  lemma {:induction false} HexValueZero(s: string)
    requires forall i :: 0 <= i < |s| ==> IsHexDigit(s[i])
    ensures HexNumber(['0'] + s) == HexNumber(s)
  {
    var t := ['0'] + s;
    if s == [] {
      assert t[..0] == [];
      assert HexNumber(t[..0]) == 0;
    } else {
      HexValueZero(s[..|s| - 1]);
      assert t[..|t| - 1] == ['0'] + s[..|s| - 1];
    }
  }

  lemma HexOfRoundTrip(c: char)
    ensures HexNumber(HexOf(c)) == c as int
  {
    HexRoundTrip(c as int);
    HexValueZero(Hex(c as int));
  }

  /** The character written as the hexadecimal digits `s`, if there is one. */
  function CharOf(s: string): Option<char> {
    if s == [] || !(forall i :: 0 <= i < |s| ==> IsHexDigit(s[i])) then None
    else
      var v := HexNumber(s);
      if v < 0xD800 || 0xE000 <= v < 0x11_0000 then Some(v as char) else None
  }

  /** Reads `_hex_` groups of any width back; everything else is literal. */
  function Decode(s: string): string
    decreases |s|
  {
    if s == [] then []
    else if s[0] != '_' then [s[0]] + Decode(s[1..])
    else
      var split := SplitOnce(s[1..], '_');
      if split.None? || CharOf(split.value.0).None? then [s[0]] + Decode(s[1..])
      else [CharOf(split.value.0).value] + Decode(split.value.1)
  }

  lemma DecodeEscape(c: char, rest: string)
    requires c != '_'
    ensures Decode(Escape(c) + rest) == [c] + Decode(rest)
  {
    var s := Escape(c) + rest;
    if IsAllowed(c) {
      assert s[1..] == rest;
    } else {
      HexOfRoundTrip(c);
      assert s[1..] == HexOf(c) + ['_'] + rest;
      SplitOnceAt(HexOf(c), '_', rest);
    }
  }

  /** A name without underscores is read back from its file name: the encoding
      loses nothing. */
  lemma {:induction false} DecodeSanitized(name: string)
    requires '_' !in name
    ensures Decode(Sanitized(name)) == name
  {
    if name != [] {
      var first, rest := [name[0]], name[1..];
      assert name == first + rest;
      SanitizedConcat(first, rest);
      SanitizedChar(name[0]);
      assert name[0] in name && forall c <- rest :: c in name;
      DecodeEscape(name[0], Sanitized(rest));
      DecodeSanitized(rest);
    }
  }

  /** So two different names without underscores never share a file. */
  lemma SanitizedInjective(a: string, b: string)
    requires '_' !in a && '_' !in b
    requires Sanitized(a) == Sanitized(b)
    ensures a == b
  {
    DecodeSanitized(a);
    DecodeSanitized(b);
  }

  /** What encoding does around one character. */
  lemma SanitizedAround(a: string, c: char, b: string)
    ensures Sanitized(a + ([c] + b)) == Sanitized(a) + (Escape(c) + Sanitized(b))
  {
    SanitizedConcat(a, [c] + b);
    SanitizedConcat([c], b);
    SanitizedChar(c);
  }

  lemma SanitizedBetween(name: string, a: string, c: char, b: string, stem: string)
    requires AllAllowed(a) && AllAllowed(b)
    requires name == a + ([c] + b) && stem == a + (Escape(c) + b)
    ensures Sanitized(name) == stem
  {
    SanitizedAround(a, c, b);
    AllowedStays(a);
    AllowedStays(b);
  }

  /** The name contains no text that stands for another character. */
  predicate NoEscapeIn(name: string) {
    forall i, j, c :: 0 <= i <= j <= |name| && !IsAllowed(c) ==> name[i..j] != Escape(c)
  }

  lemma Cut(name: string, i: nat, j: nat)
    requires i <= j <= |name|
    ensures name == name[..i] + (name[i..j] + name[j..])
  {
  }

  /** Putting the character in place of its escape gives another name with the
      same file. */
  lemma EscapeShares(name: string, i: nat, j: nat, c: char) returns (other: string)
    requires AllAllowed(name) && i <= j <= |name| && !IsAllowed(c) && name[i..j] == Escape(c)
    ensures other != name && Sanitized(other) == Sanitized(name)
  {
    other := name[..i] + ([c] + name[j..]);
    SanitizedAround(name[..i], c, name[j..]);
    AllowedStays(name[..i]);
    AllowedStays(name[j..]);
    AllowedStays(name);
    Cut(name, i, j);
    EscapeAllowed(c);
    assert |other| < |name|;
  }

  /** A name with a character that is not allowed has that character's escape in
      its file name. */
  lemma EscapeShows(name: string, k: nat)
    requires k < |name| && !IsAllowed(name[k])
    ensures !NoEscapeIn(Sanitized(name))
  {
    Cut(name, k, k + 1);
    assert name[k..k + 1] == [name[k]];
    SanitizedAround(name[..k], name[k], name[k + 1..]);
    var i, j := |Sanitized(name[..k])|, |Sanitized(name[..k])| + |Escape(name[k])|;
    MiddleOf(Sanitized(name[..k]), Escape(name[k]), Sanitized(name[k + 1..]));
    assert Sanitized(name)[i..j] == Escape(name[k]);
  }

  lemma MiddleOf(a: string, b: string, c: string)
    ensures (a + (b + c))[|a|..|a| + |b|] == b
  {
  }

  /** Exactly which names have a file to themselves: those of allowed characters
      in which no part reads as the escape of a character that is not allowed. */
  lemma NotSharedIff(name: string)
    ensures (forall other :: Sanitized(other) == Sanitized(name) ==> other == name) <==>
            AllAllowed(name) && NoEscapeIn(name)
  {
    SanitizedIdempotent(name);
    if AllAllowed(name) && !NoEscapeIn(name) {
      var i, j, c :| 0 <= i <= j <= |name| && !IsAllowed(c) && name[i..j] == Escape(c);
      var other := EscapeShares(name, i, j, c);
    }
    if AllAllowed(name) && NoEscapeIn(name) {
      forall other | Sanitized(other) == Sanitized(name) ensures other == name {
        SanitizedIdempotent(other);
        if k: nat :| k < |other| && !IsAllowed(other[k]) {
          EscapeShows(other, k);
        }
      }
    }
  }

  lemma SlashEscapes()
    ensures Escape('/') == "_2f_"
  {
    assert Hex(0x2f) == Hex(0x2f / 16) + [HexDigit(0x2f % 16)];
    assert HexOf('/') == "2f";
  }

  /** A space is written as its code, and a domain name as itself. */
  lemma SpaceExample()
    ensures Sanitized("a b") == "a_20_b" && Sanitized("example.com") == "example.com"
  {
    SpaceEscapes();
    SanitizedBetween("a b", "a", ' ', "b", "a_20_b");
    AllowedStays("example.com");
  }

  lemma SpaceEscapes()
    ensures Escape(' ') == "_20_"
  {
    assert Hex(0x20) == Hex(0x20 / 16) + [HexDigit(0x20 % 16)];
    assert HexOf(' ') == "20";
  }

  /** `a/b` and `a_2f_b` share a file. */
  lemma CollisionExample()
    ensures Sanitized("a/b") == "a_2f_b" && Sanitized("a_2f_b") == "a_2f_b"
  {
    SlashEscapes();
    SanitizedBetween("a/b", "a", '/', "b", "a_2f_b");
    AllowedStays("a_2f_b");
  }

  /** The legacy file of `a/b` is the file of `a_b`. */
  lemma LegacyCollisionExample()
    ensures Legacy("a/b") == "a_b" && Sanitized("a_b") == "a_b"
  {
    AllowedStays("a_b");
  }
}
