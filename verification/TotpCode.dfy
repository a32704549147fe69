/** The one-time code (src/totp.rs, `generate_totp`): RFC 6238 section 4.2 over
    the dynamic truncation of RFC 4226 section 5.3. */
module TotpCode {
  import opened Wrappers
  import opened Bytes
  import opened Decimal
  import opened Division
  import opened TotpEntry

  function HashLength(a: Algorithm): nat {
    match a
    case Sha1 => 20
    case Sha256 => 32
    case Sha512 => 64
  }

  /** HMAC as a library call: any function with the right output lengths. */
  type Hmac = h: (Algorithm, Bytes, Bytes) -> Bytes |
      forall a, key, msg :: |h(a, key, msg)| == HashLength(a)
    witness (a, key, msg) => seq(HashLength(a), _ => 0)

  /** The bytes of `n`, most significant first. */
  function BigEndian(n: nat, len: nat): (b: Bytes)
    ensures |b| == len
  {
    if len == 0 then [] else BigEndian(n / 256, len - 1) + [n % 256]
  }

  function FromBigEndian(b: Bytes): nat {
    if b == [] then 0
    else
      var low: int := b[|b| - 1];
      256 * FromBigEndian(b[..|b| - 1]) + low
  }

  /** The code's truncation.  `& 0x0f` and `& 0x7f` are remainders; the shifted
      bytes do not overlap, so that `|` adds them. */
  function Truncate(hash: Bytes): (binary: U32)
    requires |hash| >= 20
  {
    var offset := hash[|hash| - 1] % 16;
    var b0: int, b1: int := hash[offset], hash[offset + 1];
    var b2: int, b3: int := hash[offset + 2], hash[offset + 3];
    b0 % 0x80 * 0x100_0000 + b1 * 0x1_0000 + b2 * 0x100 + b3
  }

  /** The keyed hash of the period that contains `timestamp`. */
  function Hash(h: Hmac, secret: Bytes, p: Params, timestamp: U64): (hash: Bytes)
    requires p.period > 0
    ensures |hash| >= 20
  {
    var counter := timestamp / p.period;
    h(p.algorithm, secret, BigEndian(counter, 8))
  }

  function Code(hash: Bytes, digits: nat): string
    requires |hash| >= 20
  {
    ZeroPadded(Truncate(hash) % Pow10(digits), digits)
  }

  /** `generate_totp`. */
  function GenerateTotp(h: Hmac, secret: Bytes, p: Params, timestamp: U64): Result<string, Error> {
    var v := Validate(p);
    if v.Err? then Err(v.error)
    else if secret == [] then Err(EmptySecret)
    else Ok(Code(Hash(h, secret, p, timestamp), p.digits))
  }

  // ---------------------------------------------------------------------

  lemma FromBigEndianFour(b: Bytes)
    requires |b| == 4
    ensures var b0: int, b1: int, b2: int, b3: int := b[0], b[1], b[2], b[3];
            FromBigEndian(b) == 256 * (256 * (256 * b0 + b1) + b2) + b3
  {
    var b0: int, b1: int, b2: int := b[0], b[1], b[2];
    assert b[..3][..2] == b[..2] && b[..2][..1] == b[..1] && b[..1][..0] == [];
    assert FromBigEndian(b[..1]) == b0;
    assert FromBigEndian(b[..2]) == 256 * b0 + b1;
    assert FromBigEndian(b[..3]) == 256 * (256 * b0 + b1) + b2;
  }

  /** The truncation is the low 31 bits of the four bytes at the offset given by
      the low four bits of the last byte. */
  lemma TruncateIsDynamicTruncation(hash: Bytes)
    requires |hash| >= 20
    ensures var offset := hash[|hash| - 1] % 16;
            && offset + 4 <= |hash|
            && Truncate(hash) == FromBigEndian(hash[offset..offset + 4]) % 0x8000_0000
  {
    var offset := hash[|hash| - 1] % 16;
    var b := hash[offset..offset + 4];
    FromBigEndianFour(b);
    DivModUnique(FromBigEndian(b), 0x8000_0000, b[0] / 0x80, Truncate(hash));
  }

  function Pow256(len: nat): (p: nat)
    ensures p > 0
  {
    if len == 0 then 1 else 256 * Pow256(len - 1)
  }

  lemma {:induction false} BigEndianRoundTrip(n: nat, len: nat)
    requires n < Pow256(len)
    ensures FromBigEndian(BigEndian(n, len)) == n
  {
    if len > 0 {
      BigEndianRoundTrip(n / 256, len - 1);
      assert BigEndian(n, len)[..len - 1] == BigEndian(n / 256, len - 1);
    }
  }

  /** The hashed message is the number of whole periods, most significant byte
      first. */
  lemma MessageIsCounter(p: Params, timestamp: U64)
    requires p.period > 0
    ensures FromBigEndian(BigEndian(timestamp / p.period, 8)) == timestamp / p.period
  {
    QuotientAtMost(timestamp, p.period);
    CounterWidth();
    BigEndianRoundTrip(timestamp / p.period, 8);
  }

  lemma CounterWidth()
    ensures Pow256(8) == 0x1_0000_0000_0000_0000
  {
    assert Pow256(4) == 0x1_0000_0000;
    assert Pow256(8) == 256 * (256 * (256 * (256 * Pow256(4))));
  }

  /** The code is the last `digits` digits of the truncation. */
  lemma CodeIsLastDigits(hash: Bytes, digits: nat)
    requires |hash| >= 20 && digits > 0
    ensures Code(hash, digits) == LastDigits(Truncate(hash), digits)
  {
    ZeroPaddedIsLastDigits(Truncate(hash) % Pow10(digits), digits);
    LastDigitsOfMod(Truncate(hash), digits);
  }

  /** The example of RFC 4226 section 5.4, by the bytes that matter: the last one
      points at the tenth. */
  lemma TruncateExample(hash: Bytes)
    requires |hash| == 20 && hash[19] == 0x5a
    requires hash[10] == 0x50 && hash[11] == 0xef && hash[12] == 0x7f && hash[13] == 0x19
    ensures Code(hash, 6) == "872921"
  {
    assert Truncate(hash) == 1357872921;
    CodeIsLastDigits(hash, 6);
    LastSixDigits(Truncate(hash), 1357, 8, 7, 2, 9, 2, 1);
  }

  lemma LastSixDigits(n: nat, high: nat, a: nat, b: nat, c: nat, d: nat, e: nat, f: nat)
    requires a < 10 && b < 10 && c < 10 && d < 10 && e < 10 && f < 10
    requires n == 1_000_000 * high + 100_000 * a + 10_000 * b + 1_000 * c + 100 * d + 10 * e + f
    ensures LastDigits(n, 6) == [DigitChar(a), DigitChar(b), DigitChar(c), DigitChar(d), DigitChar(e), DigitChar(f)]
  {
    var n5 := 100_000 * high + 10_000 * a + 1_000 * b + 100 * c + 10 * d + e;
    var n4 := 10_000 * high + 1_000 * a + 100 * b + 10 * c + d;
    var n3 := 1_000 * high + 100 * a + 10 * b + c;
    LastThreeDigits(n3, high, a, b, c);
    LastDigit(n, n5, f, 5);
    LastDigit(n5, n4, e, 4);
    LastDigit(n4, n3, d, 3);
  }

  lemma LastThreeDigits(n: nat, high: nat, a: nat, b: nat, c: nat)
    requires a < 10 && b < 10 && c < 10
    requires n == 1_000 * high + 100 * a + 10 * b + c
    ensures LastDigits(n, 3) == [DigitChar(a), DigitChar(b), DigitChar(c)]
  {
    LastDigit(n, 100 * high + 10 * a + b, c, 2);
    LastDigit(100 * high + 10 * a + b, 10 * high + a, b, 1);
    LastDigit(10 * high + a, high, a, 0);
  }

  lemma LastDigit(n: nat, rest: nat, digit: nat, width: nat)
    requires digit < 10 && n == 10 * rest + digit
    ensures LastDigits(n, width + 1) == LastDigits(rest, width) + [DigitChar(digit)]
  {
  }

  lemma {:induction false} FromBigEndianInjective(a: Bytes, b: Bytes)
    requires |a| == |b| && FromBigEndian(a) == FromBigEndian(b)
    ensures a == b
  {
    if a != [] {
      var low1: int, low2: int := a[|a| - 1], b[|b| - 1];
      DifferenceOfMultiples(256, FromBigEndian(a[..|a| - 1]), FromBigEndian(b[..|b| - 1]), low1, low2);
      FromBigEndianInjective(a[..|a| - 1], b[..|b| - 1]);
      assert a == a[..|a| - 1] + [a[|a| - 1]] && b == b[..|b| - 1] + [b[|b| - 1]];
    }
  }

  /** The code of RFC 6238 section 4.2, from the keyed hash on.  A code is
      generated for exactly the entries that can be stored, and refused with the
      error with which storing is.  The key is the secret, and the message the
      number of whole periods in eight bytes, most significant first.  The code has
      exactly `digits` decimal digits and denotes the low 31 bits of the four bytes
      at the offset that the low four bits of the last byte give, modulo
      10^digits. */
  lemma CodeMeansTruncation(h: Hmac, secret: Bytes, p: Params, timestamp: U64, message: Bytes)
    requires p.period > 0 ==> |message| == 8 && FromBigEndian(message) == timestamp / p.period
    ensures var r := GenerateTotp(h, secret, p, timestamp);
            && (r.Ok? <==> Encoded(p, secret).Ok?)
            && (r.Err? ==> Encoded(p, secret) == Err(r.error))
            && (r.Ok? ==>
                  var hash := h(p.algorithm, secret, message);
                  var offset := hash[|hash| - 1] % 16;
                  && offset + 4 <= |hash|
                  && |r.value| == p.digits && AllDigits(r.value)
                  && Value(r.value) == FromBigEndian(hash[offset..offset + 4]) % 0x8000_0000 % Pow10(p.digits))
  {
    EncodableIffValid(p, secret);
    if GenerateTotp(h, secret, p, timestamp).Ok? {
      MessageIsCounter(p, timestamp);
      FromBigEndianInjective(message, BigEndian(timestamp / p.period, 8));
      var hash := Hash(h, secret, p, timestamp);
      CodeIsLastDigits(hash, p.digits);
      LastDigitsValue(Truncate(hash), p.digits);
      TruncateIsDynamicTruncation(hash);
    }
  }

  /** All timestamps of one period give one code. */
  lemma CodeConstantInPeriod(h: Hmac, secret: Bytes, p: Params, start: nat, t1: U64, t2: U64)
    requires Valid(p)
    requires p.period * start <= t1 < p.period * start + p.period
    requires p.period * start <= t2 < p.period * start + p.period
    ensures GenerateTotp(h, secret, p, t1) == GenerateTotp(h, secret, p, t2)
  {
    DivModUnique(t1, p.period, start, t1 - p.period * start);
    DivModUnique(t2, p.period, start, t2 - p.period * start);
  }

  /** Shorter codes are suffixes of longer ones. */
  lemma ShortCodeIsSuffix(h: Hmac, secret: Bytes, p: Params, digits: Byte, timestamp: U64)
    requires GenerateTotp(h, secret, p, timestamp).Ok?
    requires 6 <= digits <= p.digits
    ensures var long := GenerateTotp(h, secret, p, timestamp).value;
            && |long| == p.digits
            && GenerateTotp(h, secret, p.(digits := digits), timestamp) == Ok(long[p.digits - digits..])
  {
    var hash := Hash(h, secret, p, timestamp);
    assert hash == Hash(h, secret, p.(digits := digits), timestamp);
    CodeIsLastDigits(hash, p.digits);
    CodeIsLastDigits(hash, digits);
    LastDigitsSuffix(Truncate(hash), digits, p.digits);
  }
}
