/** The decoder and the encoding of RFC 4648 section 6 are inverse to each
    other, on every input. */
module Base32Theorems {
  import opened Wrappers
  import opened Bytes
  import opened Bits
  import opened Text
  import opened Base32
  import opened Division
  import Utf8

  lemma ValuesOfChars(vs: seq<nat>)
    requires forall i :: 0 <= i < |vs| ==> vs[i] < 32
    ensures AllSymbols(Chars(vs))
    ensures Values(Chars(vs)) == vs
  {
    forall i | 0 <= i < |vs| ensures SymbolValue(Chars(vs)[i]) == Some(vs[i]) {
      AlphabetInverse(vs[i], 0);
    }
  }

  lemma CharsOfValues(data: Bytes)
    requires AllSymbols(data)
    ensures Chars(Values(data)) == data
  {
    forall i | 0 <= i < |data| ensures Chars(Values(data))[i] == data[i] {
      AlphabetInverse(0, data[i]);
    }
  }

  lemma PadFacts(bytes: nat)
    ensures PadBits(bytes) < 5
    ensures (8 * bytes + PadBits(bytes)) % 5 == 0
  {
    var q, over := 8 * bytes / 5, 8 * bytes % 5;
    DivModUnique(8 * bytes + PadBits(bytes), 5, if over == 0 then q else q + 1, 0);
  }

  /** Filling up leaves a multiple of five bits. */
  lemma FilledLength(b: Bytes)
    ensures |Filled(b)| == 8 * |b| + PadBits(|b|)
    ensures |Filled(b)| % 5 == 0
    ensures PadBits(|b|) < 5
  {
    SpreadLength(b, 8);
    PadFacts(|b|);
  }

  lemma EncodedSymbols(b: Bytes)
    ensures AllSymbols(Encode(b))
    ensures Spread(Values(Encode(b)), 5) == Filled(b)
    ensures 5 * |Encode(b)| == 8 * |b| + PadBits(|b|)
  {
    FilledLength(b);
    FivePow();
    SpreadGroups(Filled(b), 5);
    RemainderLength(Filled(b), 5);
    var vs := Groups(Filled(b), 5);
    ValuesOfChars(vs);
    SpreadLength(vs, 5);
    assert Spread(vs, 5) + Remainder(Filled(b), 5) == Spread(vs, 5);
  }

  /** The three impossible lengths never come out of the encoder. */
  lemma EncodedLength(bytes: nat, symbols: nat)
    requires bytes > 0 && 5 * symbols == 8 * bytes + PadBits(bytes)
    ensures symbols > 0 && symbols % 8 !in {1, 3, 6}
  {
    PadFacts(bytes);
    var r := symbols % 8;
    assert symbols == 8 * (symbols / 8) + r;
    assert (5 * r - PadBits(bytes)) == 8 * (bytes - 5 * (symbols / 8));
  }

  /** What the encoder writes decodes to what it was given. */
  lemma DecodesEncoded(b: Bytes)
    requires b != []
    ensures DecodedData(Encode(b)) == Ok(b)
  {
    EncodedSymbols(b);
    EncodedLength(|b|, |Encode(b)|);
    FilledLength(b);
    FivePow();
    GroupsSpread(b, Zeros(PadBits(|b|)), 8);
  }

  /** The rest of an accepted length is what the encoder fills up with. */
  lemma RestIsPadding(bytes: nat, symbols: nat, rest: nat)
    requires 5 * symbols == 8 * bytes + rest && rest < 8
    requires symbols % 8 !in {1, 3, 6}
    ensures rest == PadBits(bytes)
    ensures symbols > 0 ==> bytes > 0
  {
    var r := symbols % 8;
    assert symbols == 8 * (symbols / 8) + r;
    assert rest < 5;
    PadBitsUnique(bytes, symbols, rest);
  }

  lemma PadBitsUnique(bytes: nat, symbols: nat, rest: nat)
    requires 5 * symbols == 8 * bytes + rest && rest < 5
    ensures rest == PadBits(bytes)
  {
  }

  /** Whatever decodes is what the encoder writes for the result. */
  lemma EncodesDecoded(data: Bytes)
    requires DecodedData(data).Ok?
    ensures DecodedData(data).value != []
    ensures Encode(DecodedData(data).value) == data
  {
    var vs := Values(data);
    var bits := Spread(vs, 5);
    var b := DecodedData(data).value;
    var rest := Remainder(bits, 8);
    SpreadGroups(bits, 8);
    SpreadLength(vs, 5);
    SpreadLength(b, 8);
    RestIsPadding(|b|, |data|, |rest|);
    assert Filled(b) == bits;
    FivePow();
    GroupsSpread(vs, [], 5);
    assert bits + [] == bits;
    CharsOfValues(data);
  }

  function Pads(n: nat): Bytes {
    seq(n, _ => PAD)
  }

  lemma {:induction false} PadStartOf(data: Bytes, tail: Bytes)
    requires PAD !in data && AllPads(tail)
    ensures PadStart(data + tail) == |data|
  {
    var chars := data + tail;
    if data != [] {
      assert chars[1..] == data[1..] + tail;
      assert data[0] in data && forall c <- data[1..] :: c in data;
      PadStartOf(data[1..], tail);
    } else {
      assert chars == tail;
    }
  }

  lemma SymbolsHaveNoPad(data: Bytes)
    requires AllSymbols(data)
    ensures PAD !in data
  {
    forall c <- data ensures c != PAD {
      var i :| 0 <= i < |data| && data[i] == c;
      assert SymbolValue(data[i]).Some?;
    }
  }

  lemma EncodingDecodes(chars: Bytes, b: Bytes, p: nat)
    requires b != [] && chars == Encode(b) + Pads(p)
    ensures PadStart(chars) == |Encode(b)| > 0 && chars[..|Encode(b)|] == Encode(b) && AllPads(chars[|Encode(b)|..])
    ensures DecodedData(chars[..PadStart(chars)]) == Ok(b)
  {
    EncodedSymbols(b);
    SymbolsHaveNoPad(Encode(b));
    PadStartOf(Encode(b), Pads(p));
    assert chars[..|Encode(b)|] == Encode(b);
    assert chars[|Encode(b)|..] == Pads(p);
    DecodesEncoded(b);
    EncodedLength(|b|, |Encode(b)|);
  }

  lemma PadsAre(tail: Bytes)
    requires AllPads(tail)
    ensures tail == Pads(|tail|)
  {
  }

  lemma CutAt(chars: Bytes, p: nat)
    requires p <= |chars|
    ensures chars == chars[..p] + chars[p..]
  {
  }

  lemma DecodedIsEncoding(chars: Bytes)
    requires AllPads(chars[PadStart(chars)..]) && DecodedData(chars[..PadStart(chars)]).Ok?
    ensures var b := DecodedData(chars[..PadStart(chars)]).value;
            b != [] && chars == Encode(b) + Pads(|chars| - PadStart(chars))
  {
    var p := PadStart(chars);
    EncodesDecoded(chars[..p]);
    PadsAre(chars[p..]);
    CutAt(chars, p);
  }

  /** The whole decoder.  An input decodes to `b` exactly when, whitespace and
      case aside, it is the RFC 4648 encoding of the non-empty `b` followed by
      any number of padding characters. */
  lemma DecodesExactlyEncodings(input: string, b: Bytes)
    ensures Decoded(input) == Ok(b) <==>
            b != [] && exists p: nat :: Utf8.Encode(Normalize(input)) == Encode(b) + Pads(p)
  {
    var chars := Utf8.Encode(Normalize(input));
    if b != [] && exists p: nat :: chars == Encode(b) + Pads(p) {
      var p: nat :| chars == Encode(b) + Pads(p);
      EncodingDecodes(chars, b, p);
    }
    if Decoded(input) == Ok(b) {
      DecodedIsEncoding(chars);
    }
  }

  /** Two inputs that decode to the same secret spell the same symbols. */
  lemma {:induction false} DecodingIsInjective(s: string, t: string)
    requires Decoded(s).Ok? && Decoded(s) == Decoded(t)
    ensures var (cs, ct) := (Utf8.Encode(Normalize(s)), Utf8.Encode(Normalize(t)));
            cs[..PadStart(cs)] == ct[..PadStart(ct)]
  {
    var (cs, ct) := (Utf8.Encode(Normalize(s)), Utf8.Encode(Normalize(t)));
    EncodesDecoded(cs[..PadStart(cs)]);
    EncodesDecoded(ct[..PadStart(ct)]);
  }

  // ---------------------------------------------------------------------
  // What each error means.

  predicate FirstBadIs(data: Bytes, k: nat) {
    && k < |data| && SymbolValue(data[k]).None?
    && forall i :: 0 <= i < k ==> SymbolValue(data[i]).Some?
  }

  /** The errors about padding and missing data, in terms of what is left when
      white space is dropped: nothing; padding and no data; data after padding. */
  lemma PaddingErrors(input: string, data: Bytes, n: nat)
    requires Utf8.Encode(Normalize(input)) == data + Pads(n) && PAD !in data
    ensures Decoded(input) == Err(EmptySecret) <==> data == [] && n == 0
    ensures Decoded(input) == Err(NoData) <==> data == [] && n > 0
    ensures Decoded(input) != Err(InvalidPadding)
    ensures data != [] ==> Decoded(input) == DecodedData(data)
  {
    PadStartOf(data, Pads(n));
    assert (data + Pads(n))[..|data|] == data && (data + Pads(n))[|data|..] == Pads(n);
    DataErrors(data);
  }

  lemma {:induction false} PadStartAtMost(chars: Bytes, i: nat)
    requires i < |chars| && chars[i] == PAD
    ensures PadStart(chars) <= i
  {
    if chars[0] != PAD {
      PadStartAtMost(chars[1..], i - 1);
    }
  }

  lemma DataAfterPadding(input: string, i: nat, j: nat)
    requires var chars := Utf8.Encode(Normalize(input)); i < j < |chars| && chars[i] == PAD && chars[j] != PAD
    ensures Decoded(input) == Err(InvalidPadding)
  {
    var chars := Utf8.Encode(Normalize(input));
    var p := PadStart(chars);
    PadStartAtMost(chars, i);
    assert chars[p..][j - p] == chars[j];
  }

  /** The errors about the data, first a length that no encoding has, then the
      first character that is no symbol, then left-over bits: data of symbols that
      no bytes encode to. */
  lemma DataErrors(data: Bytes)
    ensures var r := DecodedData(data); var badLength := |data| % 8 in {1, 3, 6};
            && r != Err(EmptySecret) && r != Err(InvalidPadding)
            && (r == Err(NoData) <==> data == [])
            && (data != [] && badLength ==> r == Err(InvalidLength(|data|)))
            && (data != [] && !badLength ==>
                  && (forall k: nat :: FirstBadIs(data, k) ==> r == Err(InvalidCharacter(data[k])))
                  && (AllSymbols(data) ==>
                        (r == Err(NonCanonical) <==> forall b: Bytes :: b != [] ==> Encode(b) != data)))
  {
    if data != [] && |data| % 8 !in {1, 3, 6} {
      forall k: nat | FirstBadIs(data, k) ensures FirstBad(data) == Some(data[k]) {
        FirstBadAt(data, k);
      }
      if AllSymbols(data) {
        if DecodedData(data).Ok? {
          EncodesDecoded(data);
        }
        forall b: Bytes | b != [] && Encode(b) == data ensures DecodedData(data) == Ok(b) {
          DecodesEncoded(b);
        }
      }
    }
  }

  // ---------------------------------------------------------------------
  // Whitespace and case.

  lemma NormalizeCons(c: char, rest: string)
    ensures Normalize([c] + rest) == NormalChar(c) + Normalize(rest)
  {
    assert ([c] + rest)[1..] == rest;
  }

  lemma ConsConcat(s: string, t: string)
    requires s != []
    ensures s == [s[0]] + s[1..] && s + t == [s[0]] + (s[1..] + t)
  {
  }

  lemma {:induction false} NormalizeConcat(s: string, t: string)
    ensures Normalize(s + t) == Normalize(s) + Normalize(t)
  {
    if s == [] {
      assert s + t == t;
    } else {
      NormalizeConcat(s[1..], t);
      ConsConcat(s, t);
      NormalizeCons(s[0], s[1..] + t);
      NormalizeCons(s[0], s[1..]);
      Associate(NormalChar(s[0]), Normalize(s[1..]), Normalize(t));
    }
  }

  lemma Associate(a: string, b: string, c: string)
    ensures a + b + c == a + (b + c)
  {
  }

  lemma {:induction false} NormalizeLowercase(s: string)
    ensures Normalize(Lowercase(s)) == Normalize(s)
  {
    if s != [] {
      assert Lowercase(s)[1..] == Lowercase(s[1..]);
      NormalizeLowercase(s[1..]);
    }
  }

  lemma {:induction false} NormalizeBlank(w: string)
    requires forall c <- w :: IsAsciiWhitespace(c)
    ensures Normalize(w) == []
  {
    if w != [] {
      assert w[0] in w;
      assert forall c <- w[1..] :: c in w;
      NormalizeBlank(w[1..]);
    }
  }

  /** Whitespace put anywhere, and lower case, make no difference. */
  lemma SpellingDoesNotMatter(s: string, w: string, t: string)
    requires forall c <- w :: IsAsciiWhitespace(c)
    ensures Decoded(s + w + t) == Decoded(s + t)
    ensures Decoded(Lowercase(s)) == Decoded(s)
  {
    NormalizeConcat(s + w, t);
    NormalizeConcat(s, w);
    NormalizeConcat(s, t);
    NormalizeBlank(w);
    assert Normalize(s) + [] + Normalize(t) == Normalize(s) + Normalize(t);
    assert Normalize(s + w + t) == Normalize(s + t);
    NormalizeLowercase(s);
  }

  /** The encoding as text, with `p` padding characters. */
  function EncodedText(b: Bytes, p: nat): string {
    var chars := Encode(b) + Pads(p);
    seq(|chars|, i requires 0 <= i < |chars| => chars[i] as char)
  }

  lemma {:induction false} NormalizeSymbols(s: string)
    requires forall i :: 0 <= i < |s| ==> s[i] == '=' || IsSymbolChar(s[i])
    ensures Normalize(s) == s
  {
    if s != [] {
      assert ToUpper(s[0]) == s[0] && !IsAsciiWhitespace(s[0]);
      NormalizeSymbols(s[1..]);
    }
  }

  /** Printing a non-empty secret and decoding the print gives the secret. */
  lemma TextRoundTrip(b: Bytes, p: nat)
    requires b != []
    ensures Decoded(EncodedText(b, p)) == Ok(b)
  {
    var text := EncodedText(b, p);
    var chars := Encode(b) + Pads(p);
    EncodedSymbols(b);
    forall i | 0 <= i < |text| ensures text[i] == '=' || IsSymbolChar(text[i]) {
      assert i < |Encode(b)| ==> SymbolValue(Encode(b)[i]).Some?;
    }
    NormalizeSymbols(text);
    assert Utf8.Ascii(text);
    Utf8.AsciiBytes(text);
    assert Utf8.Encode(text) == chars;
    DecodesExactlyEncodings(text, b);
  }

  // ---------------------------------------------------------------------
  // Recognising base32.

  /** `looks_like_base32`. */
  lemma BitStep(half: nat, bit: nat, n: nat)
    requires bit < 2
    ensures ToBits(2 * half + bit, n + 1) == ToBits(half, n) + [bit == 1]
  {
  }

  lemma ExampleShift()
    ensures ShiftRight(102, 3) == 12 && ToBits(102, 3) == ToBits(6, 3)
  {
    assert ShiftRight(102, 3) == ShiftRight(51, 2) == ShiftRight(25, 1) == 12;
    assert Pow2(3) == 8;
    ToBitsOfMod(102, 3, 3);
  }

  lemma ExampleBits()
    ensures ToBits(102, 8) + Zeros(2) == ToBits(12, 5) + ToBits(24, 5)
  {
    ToBitsSplit(102, 5, 3);
    ExampleShift();
    TwoZeros(6, 3);
    Regroup(ToBits(12, 5), ToBits(6, 3), Zeros(2));
  }

  lemma TwoZeros(v: nat, n: nat)
    ensures ToBits(4 * v, n + 2) == ToBits(v, n) + Zeros(2)
  {
    BitStep(v, 0, n);
    BitStep(2 * v, 0, n + 1);
    assert ToBits(v, n) + [false] + [false] == ToBits(v, n) + Zeros(2);
  }

  lemma SpreadOne(v: nat, n: nat)
    ensures Spread([v], n) == ToBits(v, n)
  {
    assert [v][1..] == [];
    assert Spread([v][1..], n) == [];
  }

  lemma SpreadTwo(v: nat, w: nat, n: nat)
    ensures Spread([v, w], n) == ToBits(v, n) + ToBits(w, n)
  {
    assert [v, w] == [v] + [w];
    SpreadAppend([v], w, n);
    SpreadOne(v, n);
  }

  lemma ExampleFilled()
    ensures Filled([102]) == Spread([12, 24], 5)
  {
    ExampleBits();
    SpreadOne(102, 8);
    SpreadTwo(12, 24, 5);
    assert PadBits(1) == 2;
  }

  /** A test vector of RFC 4648 section 10: `f` is `MY======`. */
  lemma EncodeExample()
    ensures Encode([102]) == [77, 89]
  {
    var vs := [12, 24];
    ExampleFilled();
    FivePow();
    GroupsSpread(vs, [], 5);
    assert Spread(vs, 5) + [] == Spread(vs, 5);
    assert Chars(vs) == [SymbolChar(12), SymbolChar(24)];
  }

  lemma DecodeExample()
    ensures Decoded("MY======") == Ok([102])
  {
    EncodeExample();
    TextRoundTrip([102], 6);
    assert EncodedText([102], 6) == "MY======";
  }

  predicate LooksLikeBase32(input: string) {
    && (forall c <- input :: IsAsciiWhitespace(c) || c == '=' || IsSymbolChar(ToUpper(c)))
    && (exists c <- input :: !IsAsciiWhitespace(c))
  }

  predicate IsSymbolChar(c: char) {
    'A' <= c <= 'Z' || '2' <= c <= '7'
  }

  /** `decode_secret`. */
  function DecodeSecret(input: string, forceRaw: bool): Result<Bytes, Error> {
    if forceRaw then Ok(Utf8.Encode(input))
    else if LooksLikeBase32(input) then Decoded(input)
    else Ok(Utf8.Encode(input))
  }

  lemma {:induction false} NormalizedChars(input: string, c: char)
    requires c in input && !IsAsciiWhitespace(c)
    ensures ToUpper(c) in Normalize(input)
  {
    if c != input[0] {
      NormalizedChars(input[1..], c);
    }
  }

  lemma {:induction false} NormalizedNonEmpty(input: string)
    requires Normalize(input) != []
    ensures exists c <- input :: !IsAsciiWhitespace(c)
  {
    if IsAsciiWhitespace(input[0]) {
      NormalizedNonEmpty(input[1..]);
      var c :| c in input[1..] && !IsAsciiWhitespace(c);
      assert c in input;
    } else {
      assert input[0] in input;
    }
  }

  lemma DecodableChars(chars: Bytes)
    requires AllPads(chars[PadStart(chars)..]) && AllSymbols(chars[..PadStart(chars)])
    ensures forall i :: 0 <= i < |chars| ==> chars[i] == PAD || SymbolValue(chars[i]).Some?
  {
    var p := PadStart(chars);
    forall i | 0 <= i < |chars| ensures chars[i] == PAD || SymbolValue(chars[i]).Some? {
      if i < p {
        assert SymbolValue(chars[..p][i]).Some?;
      } else {
        assert chars[p..][i - p] == PAD;
      }
    }
  }

  lemma DecodableNormal(norm: string)
    requires var chars := Utf8.Encode(norm);
             AllPads(chars[PadStart(chars)..]) && AllSymbols(chars[..PadStart(chars)])
    ensures forall c <- norm :: c == '=' || IsSymbolChar(c)
  {
    var chars := Utf8.Encode(norm);
    DecodableChars(chars);
    Utf8.AsciiBytes(norm);
    forall c <- norm ensures c == '=' || IsSymbolChar(c) {
      var i :| 0 <= i < |norm| && norm[i] == c;
      assert chars[i] == c as int;
    }
  }

  lemma SymbolCharIs(c: char)
    ensures IsSymbolChar(c) <==> c < '\U{80}' && SymbolValue(c as int).Some?
  {
  }

  lemma {:induction false} NormalizedFrom(input: string, c: char)
    requires c in Normalize(input)
    ensures exists x <- input :: !IsAsciiWhitespace(x) && ToUpper(x) == c
  {
    if c !in NormalChar(input[0]) {
      NormalizedFrom(input[1..], c);
      var x :| x in input[1..] && !IsAsciiWhitespace(x) && ToUpper(x) == c;
      assert x in input;
    } else {
      assert input[0] in input;
    }
  }

  /** What is recognised, in the decoder's own terms: something is left without the
      white space, and all of it is padding or symbols of the alphabet. */
  lemma LooksIff(input: string)
    ensures LooksLikeBase32(input) <==>
            && Normalize(input) != []
            && (forall c <- Normalize(input) :: c == '=' || (c < '\U{80}' && SymbolValue(c as int).Some?))
  {
    var norm := Normalize(input);
    if LooksLikeBase32(input) {
      var x :| x in input && !IsAsciiWhitespace(x);
      NormalizedChars(input, x);
      forall c <- norm ensures c == '=' || (c < '\U{80}' && SymbolValue(c as int).Some?) {
        NormalizedFrom(input, c);
        SymbolCharIs(c);
      }
    }
    if norm != [] && forall c <- norm :: c == '=' || (c < '\U{80}' && SymbolValue(c as int).Some?) {
      NormalizedNonEmpty(input);
      forall c <- input | !IsAsciiWhitespace(c) ensures c == '=' || IsSymbolChar(ToUpper(c)) {
        NormalizedChars(input, c);
        SymbolCharIs(ToUpper(c));
      }
    }
  }

  /** Every input that decodes is recognised. */
  lemma DecodableLooksLikeBase32(input: string)
    requires Decoded(input).Ok?
    ensures LooksLikeBase32(input)
  {
    DecodableNormal(Normalize(input));
    forall c <- input | !IsAsciiWhitespace(c) ensures c == '=' || IsSymbolChar(ToUpper(c)) {
      NormalizedChars(input, c);
    }
    NormalizedNonEmpty(input);
  }

  /** So valid base32 is never stored as its own characters unless forced: the
      raw fallback is taken exactly for what does not look like base32. */
  lemma NeverStoresBase32Raw(input: string)
    requires Decoded(input).Ok?
    ensures DecodeSecret(input, false) == Decoded(input)
  {
    DecodableLooksLikeBase32(input);
  }
}
