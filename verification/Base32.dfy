/** Base32 secrets (src/totp.rs): the decoder with its bit accumulator, against
    the encoding of RFC 4648 section 6. */
module Base32 {
  import opened Wrappers
  import opened Bytes
  import opened Bits
  import opened Text
  import opened Division
  import Utf8

  datatype Error =
    | EmptySecret
    | InvalidPadding
    | NoData
    | InvalidLength(length: nat)
    | InvalidCharacter(byte: Byte)
    | NonCanonical

  const PAD: Byte := 61

  // ---------------------------------------------------------------------
  // The alphabet.

  /** The character, as a byte, of a five-bit symbol: A-Z, then 2-7. */
  function SymbolChar(v: nat): (c: Byte)
    requires v < 32
  {
    if v < 26 then 65 + v else 50 + (v - 26)
  }

  function SymbolValue(c: Byte): (r: Option<nat>)
    ensures r.Some? ==> r.value < 32
  {
    if 65 <= c <= 90 then Some(c - 65)
    else if 50 <= c <= 55 then Some(c - 50 + 26)
    else None
  }

  lemma AlphabetInverse(v: nat, c: Byte)
    ensures v < 32 ==> SymbolValue(SymbolChar(v)) == Some(v)
    ensures SymbolValue(c).Some? ==> SymbolChar(SymbolValue(c).value) == c
  {
  }

  predicate AllSymbols(data: Bytes) {
    forall i :: 0 <= i < |data| ==> SymbolValue(data[i]).Some?
  }

  function Values(data: Bytes): (vs: seq<nat>)
    requires AllSymbols(data)
    ensures |vs| == |data|
    ensures forall i :: 0 <= i < |vs| ==> vs[i] < 32
  {
    seq(|data|, i requires 0 <= i < |data| => SymbolValue(data[i]).value)
  }

  function Chars(vs: seq<nat>): (data: Bytes)
    requires forall i :: 0 <= i < |vs| ==> vs[i] < 32
    ensures |data| == |vs|
  {
    seq(|vs|, i requires 0 <= i < |vs| => SymbolChar(vs[i]))
  }

  // ---------------------------------------------------------------------
  // The reference: RFC 4648 section 6, without the padding characters.

  function PadBits(bytes: nat): nat {
    var over := 8 * bytes % 5;
    if over == 0 then 0 else 5 - over
  }

  /** The bits of `b`, filled up with zeros to a multiple of five. */
  function Filled(b: Bytes): Bits {
    Spread(b, 8) + Zeros(PadBits(|b|))
  }

  /** Five bits at a time, one character of the alphabet each. */
  function Encode(b: Bytes): Bytes {
    SpreadGroups(Filled(b), 5);
    FivePow();
    Chars(Groups(Filled(b), 5))
  }

  lemma FivePow()
    ensures Pow2(5) == 32 && Pow2(8) == 256
  {
    assert Pow2(3) == 8;
  }

  // ---------------------------------------------------------------------
  // What the decoder computes, without the accumulator.

  function NormalChar(c: char): string {
    if IsAsciiWhitespace(c) then [] else [ToUpper(c)]
  }

  /** Whitespace dropped, letters raised to upper case. */
  function Normalize(s: string): string {
    if s == [] then [] else NormalChar(s[0]) + Normalize(s[1..])
  }

  function PadStart(chars: Bytes): (p: nat)
    ensures p <= |chars|
    ensures PAD !in chars[..p]
    ensures p < |chars| ==> chars[p] == PAD
  {
    if chars == [] || chars[0] == PAD then 0
    else 1 + PadStart(chars[1..])
  }

  predicate AllPads(tail: Bytes) {
    forall i :: 0 <= i < |tail| ==> tail[i] == PAD
  }

  function FirstBad(data: Bytes): (r: Option<Byte>)
    ensures r.None? <==> AllSymbols(data)
  {
    if data == [] then None
    else if SymbolValue(data[0]).None? then Some(data[0])
    else FirstBad(data[1..])
  }

  /** The whole bytes that the symbols spell; what is left over, less than a
      byte, has to be zero. */
  function DecodedData(data: Bytes): Result<Bytes, Error> {
    if data == [] then Err(NoData)
    else if |data| % 8 in {1, 3, 6} then Err(InvalidLength(|data|))
    else if FirstBad(data).Some? then Err(InvalidCharacter(FirstBad(data).value))
    else
      var bits := Spread(Values(data), 5);
      var rest := Remainder(bits, 8);
      if rest != Zeros(|rest|) then Err(NonCanonical)
      else
        SpreadGroups(bits, 8);
        FivePow();
        Ok(Groups(bits, 8))
  }

  function Decoded(input: string): Result<Bytes, Error> {
    var chars := Utf8.Encode(Normalize(input));
    var p := PadStart(chars);
    if chars == [] then Err(EmptySecret)
    else if !AllPads(chars[p..]) then Err(InvalidPadding)
    else DecodedData(chars[..p])
  }

  // ---------------------------------------------------------------------
  // The decoder.

  /** The number that the symbols spell. */
  function Number(vs: seq<nat>): nat {
    if vs == [] then 0 else 32 * Number(vs[..|vs| - 1]) + vs[|vs| - 1]
  }

  /** The 32-bit shift keeps the low 27 bits. */
  lemma ShiftInValue(acc: U32, value: nat)
    requires value < 32
    ensures acc * 32 % 0x1_0000_0000 + value == 32 * (acc % 0x800_0000) + value
  {
  }

  lemma DivByFive(high: nat, low: nat)
    requires low < 32
    ensures ShiftRight(32 * high + low, 5) == high
  {
    var v := 32 * high + low;
    assert ShiftRight(v, 5) == ShiftRight(v / 2 / 2, 3);
    assert ShiftRight(v / 2 / 2, 3) == ShiftRight(v / 2 / 2 / 2 / 2, 1);
    assert ShiftRight(v / 2 / 2 / 2 / 2, 1) == v / 2 / 2 / 2 / 2 / 2;
  }

  lemma PowerValues()
    ensures Pow2(5) == 32 && Pow2(8) == 256 && Pow2(27) == 0x800_0000
  {
    FivePow();
    assert Pow2(11) == 2048;
    assert Pow2(16) == 32 * Pow2(11);
    assert Pow2(21) == 32 * Pow2(16);
    assert Pow2(27) == 64 * Pow2(21);
  }

  lemma LowFive(high: nat, low: nat)
    requires low < 32
    ensures ToBits(32 * high + low, 5) == ToBits(low, 5)
  {
    var v := 32 * high + low;
    DivModUnique(v, 32, high, low);
    FivePow();
    assert v % Pow2(5) == low;
    ToBitsOfMod(v, 5, 5);
  }

  /** Shifting a symbol into the 32-bit accumulator appends its bits to those
      not yet written, although the top five bits are lost. */
  lemma ShiftIn(acc: U32, value: nat, bits: nat)
    requires value < 32 && bits <= 27
    ensures var next := acc * 32 % 0x1_0000_0000 + value;
            && 0 <= next < 0x1_0000_0000
            && ToBits(next, bits + 5) == ToBits(acc, bits) + ToBits(value, 5)
  {
    var kept := acc % 0x800_0000;
    ShiftInValue(acc, value);
    ToBitsSplit(32 * kept + value, bits, 5);
    DivByFive(kept, value);
    LowFive(kept, value);
    PowerValues();
    ToBitsOfMod(acc, 27, bits);
  }

  /** The lowest byte of the shifted accumulator is the next byte to write. */
  lemma ShiftOut(acc: nat, bits: nat)
    ensures ToBits(acc, 8 + bits) == ToBits(ShiftRight(acc, bits) % 256, 8) + ToBits(acc, bits)
  {
    ToBitsSplit(acc, 8, bits);
    PowerValues();
    ToBitsOfMod(ShiftRight(acc, bits), 8, 8);
  }

  lemma NumberAppend(vs: seq<nat>, v: nat)
    requires v < 32
    ensures Number(vs + [v]) % 0x1_0000_0000 == Number(vs) % 0x1_0000_0000 * 32 % 0x1_0000_0000 + v
  {
    assert (vs + [v])[..|vs|] == vs;
    AccumulatorStep(Number(vs), v);
  }

  lemma AccumulatorStep(n: nat, v: nat)
    requires v < 32
    ensures (32 * n + v) % 0x1_0000_0000 == n % 0x1_0000_0000 * 32 % 0x1_0000_0000 + v
  {
    var q, r := n / 0x1_0000_0000, n % 0x1_0000_0000;
    var q', r' := r * 32 / 0x1_0000_0000, r * 32 % 0x1_0000_0000;
    assert r' == 32 * (r - 0x800_0000 * q');
    assert r' + v < 0x1_0000_0000;
    assert 32 * n + v == 0x1_0000_0000 * (32 * q + q') + (r' + v);
    DivModUnique(32 * n + v, 0x1_0000_0000, 32 * q + q', r' + v);
  }

  /** `(acc << 5) | value` on 32 bits. */
  function Shifted(acc: U32, value: nat): (next: U32)
    requires value < 32
  {
    ShiftIn(acc, value, 0);
    acc * 32 % 0x1_0000_0000 + value
  }

  /** `(acc >> bits) as u8`. */
  function ByteAt(acc: U32, bits: nat): (b: Byte) {
    ShiftRight(acc, bits) % 256
  }

  /** The bits written and the bits still held are the bits of the symbols. */
  predicate BitsKept(vs: seq<nat>, out: Bytes, acc: U32, bits: nat) {
    Spread(out, 8) + ToBits(acc, bits) == Spread(vs, 5)
  }

  /** What both loops keep; the accumulator is the number that the symbols
      spell, modulo 2^32. */
  predicate Accumulated(vs: seq<nat>, out: Bytes, acc: U32, bits: nat) {
    acc == Number(vs) % 0x1_0000_0000 && BitsKept(vs, out, acc, bits)
  }

  lemma SymbolKeepsBits(vs: seq<nat>, out: Bytes, acc: U32, bits: nat, v: nat)
    requires BitsKept(vs, out, acc, bits) && bits < 8 && v < 32
    ensures BitsKept(vs + [v], out, Shifted(acc, v), bits + 5)
  {
    ShiftIn(acc, v, bits);
    SpreadAppend(vs, v, 5);
    Regroup(Spread(out, 8), ToBits(acc, bits), ToBits(v, 5));
  }

  lemma SymbolIn(vs: seq<nat>, out: Bytes, acc: U32, bits: nat, v: nat)
    requires Accumulated(vs, out, acc, bits) && bits < 8 && v < 32
    ensures Accumulated(vs + [v], out, Shifted(acc, v), bits + 5)
  {
    SymbolKeepsBits(vs, out, acc, bits, v);
    NumberAppend(vs, v);
  }

  lemma ByteKeepsBits(vs: seq<nat>, out: Bytes, acc: U32, bits: nat)
    requires BitsKept(vs, out, acc, 8 + bits)
    ensures BitsKept(vs, out + [ByteAt(acc, bits)], acc, bits)
  {
    ShiftOut(acc, bits);
    SpreadAppend(out, ByteAt(acc, bits), 8);
    Regroup(Spread(out, 8), ToBits(ByteAt(acc, bits), 8), ToBits(acc, bits));
  }

  lemma ByteOut(vs: seq<nat>, out: Bytes, acc: U32, bits: nat)
    requires Accumulated(vs, out, acc, bits + 8)
    ensures Accumulated(vs, out + [ByteAt(acc, bits)], acc, bits)
  {
    assert 8 + bits == bits + 8;
    ByteKeepsBits(vs, out, acc, bits);
  }

  lemma Leftover(vs: seq<nat>, out: Bytes, acc: U32, bits: nat)
    requires Accumulated(vs, out, acc, bits) && bits < 8
    ensures Groups(Spread(vs, 5), 8) == out
    ensures var rest := Remainder(Spread(vs, 5), 8);
            rest != Zeros(|rest|) <==> bits > 0 && acc % Pow2(bits) != 0
  {
    FivePow();
    GroupsSpread(out, ToBits(acc, bits), 8);
    FromBitsZero(ToBits(acc, bits));
    LowBits(acc, bits);
  }

  lemma ValuesPrefix(data: Bytes, k: nat)
    requires k < |data| && AllSymbols(data[..k + 1])
    ensures AllSymbols(data[..k])
    ensures SymbolValue(data[k]).Some?
    ensures Values(data[..k + 1]) == Values(data[..k]) + [SymbolValue(data[k]).value]
  {
    assert data[..k + 1][k] == data[k];
    assert forall i :: 0 <= i < k ==> data[..k][i] == data[..k + 1][i];
  }

  lemma {:induction false} FirstBadAt(data: Bytes, k: nat)
    requires k < |data| && AllSymbols(data[..k]) && SymbolValue(data[k]).None?
    ensures FirstBad(data) == Some(data[k])
  {
    if k > 0 {
      assert data[..k][0] == data[0];
      assert data[1..][..k - 1] == data[..k][1..];
      FirstBadAt(data[1..], k - 1);
    }
  }

  lemma NothingRead()
    ensures Accumulated([], [], 0, 0)
  {
  }

  /** The inner loop of `decode_base32`: whole bytes come out. */
  method TakeBytes(ghost vs: seq<nat>, out0: Bytes, acc: U32, bits0: nat) returns (out: Bytes, bits: nat)
    requires Accumulated(vs, out0, acc, bits0)
    ensures Accumulated(vs, out, acc, bits) && bits < 8
  {
    out, bits := out0, bits0;
    while bits >= 8
      invariant Accumulated(vs, out, acc, bits)
    {
      bits := bits - 8;
      ByteOut(vs, out, acc, bits);
      out := out + [ByteAt(acc, bits)];
    }
  }

  /** The body of the loop of `decode_base32`: a symbol goes in, and whole bytes
      come out. */
  method Absorb(ghost vs: seq<nat>, out0: Bytes, acc0: U32, bits0: nat, value: nat)
    returns (out: Bytes, acc: U32, bits: nat)
    requires Accumulated(vs, out0, acc0, bits0) && bits0 < 8 && value < 32
    ensures Accumulated(vs + [value], out, acc, bits) && bits < 8
  {
    SymbolIn(vs, out0, acc0, bits0, value);
    acc := Shifted(acc0, value);
    out, bits := TakeBytes(vs + [value], out0, acc, bits0 + 5);
  }

  /** One more symbol of the data. */
  lemma NextValue(data: Bytes, k: nat)
    requires k < |data| && AllSymbols(data[..k]) && SymbolValue(data[k]).Some?
    ensures AllSymbols(data[..k + 1])
    ensures Values(data[..k + 1]) == Values(data[..k]) + [SymbolValue(data[k]).value]
  {
    assert data[..k + 1] == data[..k] + [data[k]];
    ValuesPrefix(data, k);
  }

  method ReadSymbols(data: Bytes) returns (bad: Option<Byte>, out: Bytes, acc: U32, bits: nat)
    ensures bad == FirstBad(data)
    ensures bad.None? ==> bits < 8 && Accumulated(Values(data), out, acc, bits)
  {
    out, acc, bits := [], 0, 0;
    NothingRead();
    ghost var read: seq<nat> := [];
    for k := 0 to |data|
      invariant bits < 8
      invariant AllSymbols(data[..k]) && read == Values(data[..k])
      invariant Accumulated(read, out, acc, bits)
    {
      var symbol := SymbolValue(data[k]);
      if symbol.None? {
        FirstBadAt(data, k);
        return Some(data[k]), out, acc, bits;
      }
      NextValue(data, k);
      out, acc, bits := Absorb(read, out, acc, bits, symbol.value);
      read := read + [symbol.value];
    }
    assert data[..|data|] == data;
    return None, out, acc, bits;
  }

  /** The data part of `decode_base32`. */
  method DecodeData(data: Bytes) returns (r: Result<Bytes, Error>)
    ensures r == DecodedData(data)
  {
    if data == [] {
      return Err(NoData);
    }
    if |data| % 8 in {1, 3, 6} {
      return Err(InvalidLength(|data|));
    }
    var bad, out, acc, bits := ReadSymbols(data);
    if bad.Some? {
      return Err(InvalidCharacter(bad.value));
    }
    Leftover(Values(data), out, acc, bits);
    if bits > 0 && acc % Pow2(bits) != 0 {
      return Err(NonCanonical);
    }
    return Ok(out);
  }

  /** `decode_base32`. */
  method DecodeBase32(input: string) returns (r: Result<Bytes, Error>)
    ensures r == Decoded(input)
  {
    var chars := Utf8.Encode(Normalize(input));
    if chars == [] {
      return Err(EmptySecret);
    }
    var padStart := PadStart(chars);
    if !AllPads(chars[padStart..]) {
      return Err(InvalidPadding);
    }
    r := DecodeData(chars[..padStart]);
  }
}
