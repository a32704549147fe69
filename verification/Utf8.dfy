/** UTF-8: `str::as_bytes`, and `String::from_utf8_lossy` with its replacement
    of every maximal ill-formed piece by U+FFFD. */
module Utf8 {
  import opened Bytes

  function EncodeChar(c: char): (b: Bytes)
    ensures 1 <= |b| <= 4
  {
    var v := c as int;
    var (v1, v2, v3) := (v / 0x40, v / 0x40 / 0x40, v / 0x40 / 0x40 / 0x40);
    if v < 0x80 then [v]
    else if v < 0x800 then [0xC0 + v1, 0x80 + v % 0x40]
    else if v < 0x1_0000 then [0xE0 + v2, 0x80 + v1 % 0x40, 0x80 + v % 0x40]
    else [0xF0 + v3, 0x80 + v2 % 0x40, 0x80 + v1 % 0x40, 0x80 + v % 0x40]
  }

  function Encode(s: string): Bytes {
    if s == [] then [] else EncodeChar(s[0]) + Encode(s[1..])
  }

  const REPLACEMENT := '\U{FFFD}'

  predicate IsContinuation(b: Bytes, i: nat) {
    i < |b| && 0x80 <= b[i] < 0xC0
  }

  /** Whether the second byte may follow a three-byte lead: no overlong forms,
      no surrogates. */
  predicate SecondOfThree(b: Bytes)
    requires b != []
  {
    && IsContinuation(b, 1)
    && (b[0] == 0xE0 ==> b[1] >= 0xA0)
    && (b[0] == 0xED ==> b[1] < 0xA0)
  }

  /** The same for a four-byte lead: no overlong forms, nothing past U+10FFFF. */
  predicate SecondOfFour(b: Bytes)
    requires b != []
  {
    && IsContinuation(b, 1)
    && (b[0] == 0xF0 ==> b[1] >= 0x90)
    && (b[0] == 0xF4 ==> b[1] < 0x90)
  }

  /** The first character of a byte string, and how many bytes it takes. */
  function Step(b: Bytes): (r: (char, nat))
    requires b != []
    ensures 1 <= r.1 <= |b|
  {
    var b0: int := b[0];
    if b0 < 0x80 then (b0 as char, 1)
    else if 0xC2 <= b0 < 0xE0 then
      if !IsContinuation(b, 1) then (REPLACEMENT, 1)
      else
        var v: int := (b0 - 0xC0) * 0x40 + (b[1] - 0x80);
        (v as char, 2)
    else if 0xE0 <= b0 < 0xF0 then
      if !SecondOfThree(b) then (REPLACEMENT, 1)
      else if !IsContinuation(b, 2) then (REPLACEMENT, 2)
      else
        var v: int := ((b0 - 0xE0) * 0x40 + (b[1] - 0x80)) * 0x40 + (b[2] - 0x80);
        (v as char, 3)
    else if 0xF0 <= b0 < 0xF5 then
      if !SecondOfFour(b) then (REPLACEMENT, 1)
      else if !IsContinuation(b, 2) then (REPLACEMENT, 2)
      else if !IsContinuation(b, 3) then (REPLACEMENT, 3)
      else
        var v: int := (((b0 - 0xF0) * 0x40 + (b[1] - 0x80)) * 0x40 + (b[2] - 0x80)) * 0x40 + (b[3] - 0x80);
        (v as char, 4)
    else (REPLACEMENT, 1)
  }

  function DecodeLossy(b: Bytes): string
    decreases |b|
  {
    if b == [] then [] else var (c, n) := Step(b); [c] + DecodeLossy(b[n..])
  }

  lemma StepReadsBack(c: char, rest: Bytes)
    ensures Step(EncodeChar(c) + rest) == (c, |EncodeChar(c)|)
  {
  }

  /** Decoding gives every string back. */
  lemma {:induction false} RoundTrip(s: string)
    ensures DecodeLossy(Encode(s)) == s
  {
    if s != [] {
      StepReadsBack(s[0], Encode(s[1..]));
      assert Encode(s)[|EncodeChar(s[0])|..] == Encode(s[1..]);
      RoundTrip(s[1..]);
    }
  }

  predicate Ascii(s: string) {
    forall i :: 0 <= i < |s| ==> s[i] < '\U{80}'
  }

  /** Bytes below 128 are the characters themselves. */
  lemma {:induction false} AsciiBytes(s: string)
    requires Ascii(s) || forall i :: 0 <= i < |Encode(s)| ==> Encode(s)[i] < 0x80
    ensures Ascii(s)
    ensures |Encode(s)| == |s|
    ensures forall i :: 0 <= i < |s| ==> Encode(s)[i] == s[i] as int
  {
    if s != [] {
      var b := Encode(s);
      var rest := Encode(s[1..]);
      assert b == EncodeChar(s[0]) + rest;
      assert b[0] == EncodeChar(s[0])[0];
      if !Ascii(s) {
        forall i | 0 <= i < |rest| ensures rest[i] < 0x80 {
          assert rest[i] == b[i + |EncodeChar(s[0])|];
        }
      }
      AsciiBytes(s[1..]);
      assert forall i :: 1 <= i < |s| ==> s[i] == s[1..][i - 1];
    }
  }

  lemma DecodeOne(b: Bytes)
    requires b != [] && Step(b).1 == |b|
    ensures DecodeLossy(b) == [Step(b).0]
  {
    assert b[|b|..] == [];
  }

  /** Characters of two, three and four bytes; a lone byte, a cut-off character and
      a surrogate are replaced. */
  lemma LossyExamples()
    ensures DecodeLossy([0xC3, 0xA9]) == ['\U{E9}']
    ensures DecodeLossy([0xE2, 0x82, 0xAC]) == ['\U{20AC}']
    ensures DecodeLossy([0xF0, 0x9F, 0x94, 0x91]) == ['\U{1F511}']
    ensures DecodeLossy([0xFF]) == [REPLACEMENT] && DecodeLossy([0xE2, 0x82]) == [REPLACEMENT]
    ensures DecodeLossy([0xC0, 0x80]) == [REPLACEMENT, REPLACEMENT]
    ensures DecodeLossy([0xED, 0xA0]) == [REPLACEMENT, REPLACEMENT]
  {
    DecodeOne([0xC3, 0xA9]);
    DecodeOne([0xE2, 0x82, 0xAC]);
    DecodeOne([0xF0, 0x9F, 0x94, 0x91]);
    DecodeOne([0xFF]);
    DecodeOne([0xE2, 0x82]);
    DecodeOne([0x80]);
    DecodeOne([0xA0]);
    assert [0xC0, 0x80][1..] == [0x80] && [0xED, 0xA0][1..] == [0xA0];
  }
}
