/** Percent decoding (src/totp.rs), against section 2.1 of RFC 3986. */
module PercentCoding {
  import opened Wrappers
  import opened Bytes
  import Text
  import Utf8

  const PERCENT: Byte := 37

  /** `hex_value`. */
  function HexValue(b: Byte): (r: Option<Byte>)
    ensures r.Some? ==> r.value < 16
  {
    if 48 <= b <= 57 then Some(b - 48)
    else if 97 <= b <= 102 then Some(b - 97 + 10)
    else if 65 <= b <= 70 then Some(b - 65 + 10)
    else None
  }

  /** The digits in both cases, and no others. */
  lemma HexValueIs(b: Byte, d: nat)
    requires d < 16
    ensures HexValue(b) == Some(d) <==> b == Text.HexDigit(d) as int || b == Text.ToUpper(Text.HexDigit(d)) as int
  {
  }

  /** A percent sign and two hexadecimal digits start the byte string. */
  predicate StartsEscape(b: Bytes) {
    |b| >= 3 && b[0] == PERCENT && HexValue(b[1]).Some? && HexValue(b[2]).Some?
  }

  function EscapedByte(b: Bytes): Byte
    requires StartsEscape(b)
  {
    HexValue(b[1]).value * 16 + HexValue(b[2]).value
  }

  function Unescaped(b: Bytes): Bytes {
    if b == [] then []
    else if StartsEscape(b) then [EscapedByte(b)] + Unescaped(b[3..])
    else [b[0]] + Unescaped(b[1..])
  }

  function PercentDecoded(s: string): string {
    Utf8.DecodeLossy(Unescaped(Utf8.Encode(s)))
  }

  lemma Shift(out: Bytes, b: Byte, rest: Bytes)
    ensures out + [b] + rest == out + ([b] + rest)
  {
  }

  /** What one step of the loop moves from the rest to the output. */
  lemma UnescapeStep(out: Bytes, rest: Bytes)
    requires rest != []
    ensures StartsEscape(rest) ==> out + [EscapedByte(rest)] + Unescaped(rest[3..]) == out + Unescaped(rest)
    ensures !StartsEscape(rest) ==> out + [rest[0]] + Unescaped(rest[1..]) == out + Unescaped(rest)
  {
    if StartsEscape(rest) {
      Shift(out, EscapedByte(rest), Unescaped(rest[3..]));
    } else {
      Shift(out, rest[0], Unescaped(rest[1..]));
    }
  }

  lemma RestOfRest(b: Bytes, i: nat, n: nat)
    requires i + n <= |b|
    ensures b[i..][n..] == b[i + n..]
  {
  }

  /** `percent_decode`. */
  method PercentDecode(input: string) returns (r: string)
    ensures r == PercentDecoded(input)
  {
    var bytes := Utf8.Encode(input);
    var out: Bytes := [];
    var i := 0;
    while i < |bytes|
      invariant 0 <= i <= |bytes|
      invariant out + Unescaped(bytes[i..]) == Unescaped(bytes)
    {
      var rest := bytes[i..];
      UnescapeStep(out, rest);
      if StartsEscape(rest) {
        RestOfRest(bytes, i, 3);
        out := out + [EscapedByte(rest)];
        i := i + 3;
      } else {
        RestOfRest(bytes, i, 1);
        out := out + [bytes[i]];
        i := i + 1;
      }
    }
    assert out == Unescaped(bytes);
    return Utf8.DecodeLossy(out);
  }

  // ---------------------------------------------------------------------

  /** `e` spells `v`: each byte stands for itself, unless it is a percent sign,
      or is written as a percent sign and two hexadecimal digits of any case. */
  predicate Spells(e: Bytes, v: Bytes)
    decreases |v|
  {
    if v == [] then e == []
    else
      || (e != [] && e[0] == v[0] && e[0] != PERCENT && Spells(e[1..], v[1..]))
      || (StartsEscape(e) && EscapedByte(e) == v[0] && Spells(e[3..], v[1..]))
  }

  lemma {:induction false} UnescapesSpelling(e: Bytes, v: Bytes)
    requires Spells(e, v)
    ensures Unescaped(e) == v
    decreases |v|
  {
    if v != [] {
      if StartsEscape(e) {
        UnescapesSpelling(e[3..], v[1..]);
      } else {
        UnescapesSpelling(e[1..], v[1..]);
      }
    }
  }

  /** The text `e` is a percent encoding of the text `v`. */
  predicate SpellsText(e: string, v: string) {
    Spells(Utf8.Encode(e), Utf8.Encode(v))
  }

  /** Every percent encoding of any text decodes to that text. */
  lemma DecodesEverySpelling(e: string, v: string)
    requires SpellsText(e, v)
    ensures PercentDecoded(e) == v
  {
    UnescapesSpelling(Utf8.Encode(e), Utf8.Encode(v));
    Utf8.RoundTrip(v);
  }

  /** A text without percent signs is its own spelling. */
  lemma {:induction false} PlainSpellsItself(v: Bytes)
    requires PERCENT !in v
    ensures Spells(v, v)
  {
    if v != [] {
      assert v[0] in v;
      assert forall x <- v[1..] :: x in v;
      PlainSpellsItself(v[1..]);
    }
  }

  function HexByte(d: nat): (b: Byte)
    requires d < 16
    ensures HexValue(b) == Some(d)
  {
    Text.HexDigit(d) as int
  }

  /** Every byte escaped: each text has at least this spelling. */
  function Escaped(v: Bytes): Bytes {
    if v == [] then [] else [PERCENT, HexByte(v[0] / 16), HexByte(v[0] % 16)] + Escaped(v[1..])
  }

  lemma {:induction false} EscapedSpells(v: Bytes)
    ensures Spells(Escaped(v), v)
  {
    if v != [] {
      EscapedSpells(v[1..]);
      assert Escaped(v)[3..] == Escaped(v[1..]);
    }
  }

  /** Both spellings of an equals sign; a percent sign without two digits stands
      for itself. */
  lemma PercentExamples()
    ensures PercentDecoded("%3D") == "=" && PercentDecoded("%3d") == "="
    ensures PercentDecoded("%3") == "%3" && PercentDecoded("%zz") == "%zz"
  {
    Escaped3D("%3D");
    Escaped3D("%3d");
    NoEscape("%3");
    NoEscape("%zz");
  }

  lemma Escaped3D(s: string)
    requires |s| == 3 && s[0] == '%' && s[1] == '3' && (s[2] == 'D' || s[2] == 'd')
    ensures PercentDecoded(s) == "="
  {
    Utf8.AsciiBytes(s);
    Utf8.AsciiBytes("=");
    var b := Utf8.Encode(s);
    assert Unescaped(b[3..]) == [];
    assert Unescaped(b) == [61];
    assert Utf8.Encode("=") == [61];
    Utf8.RoundTrip("=");
  }

  lemma {:induction false} UnescapedWithout(b: Bytes)
    requires forall i :: 0 <= i <= |b| ==> !StartsEscape(b[i..])
    ensures Unescaped(b) == b
  {
    if b != [] {
      assert b[0..] == b;
      forall i | 0 <= i <= |b| - 1 ensures !StartsEscape(b[1..][i..]) {
        assert b[1..][i..] == b[i + 1..];
      }
      UnescapedWithout(b[1..]);
    }
  }

  lemma NoEscape(s: string)
    requires Utf8.Ascii(s) && 2 <= |s| <= 3 && s[0] == '%' && s[1] != '%' && (|s| == 3 ==> s[2] != '%' && s[1] == 'z')
    ensures PercentDecoded(s) == s
  {
    Utf8.AsciiBytes(s);
    UnescapedWithout(Utf8.Encode(s));
    Utf8.RoundTrip(s);
  }
}
