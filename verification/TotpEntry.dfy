/** TOTP parameters and the binary payload of a stored entry (src/totp.rs). */
module TotpEntry {
  import opened Wrappers
  import opened Bytes

  datatype Algorithm = Sha1 | Sha256 | Sha512

  function ToByte(a: Algorithm): Byte {
    match a
    case Sha1 => 0
    case Sha256 => 1
    case Sha512 => 2
  }

  function FromByte(b: Byte): Option<Algorithm> {
    if b == 0 then Some(Sha1) else if b == 1 then Some(Sha256) else if b == 2 then Some(Sha512) else None
  }

  datatype Params = Params(algorithm: Algorithm, digits: Byte, period: U32)

  datatype Error =
    | BadDigits(digits: Byte)
    | ZeroPeriod
    | LongPeriod
    | EmptySecret
    | NotAnEntry
    | PayloadTooShort
    | UnknownAlgorithmByte(byte: Byte)

  /** `TotpParams::validate`. */
  function Validate(p: Params): Result<(), Error> {
    if !(6 <= p.digits <= 8) then Err(BadDigits(p.digits))
    else if p.period == 0 then Err(ZeroPeriod)
    else if p.period > 3600 then Err(LongPeriod)
    else Ok(())
  }

  predicate Valid(p: Params) {
    6 <= p.digits <= 8 && 1 <= p.period <= 3600
  }

  /** ASCII codes of `cybercuris-totp-v1`: 18 bytes. */
  const TOTP_MAGIC: Bytes :=
    [99, 121, 98, 101, 114, 99, 117, 114, 105, 115, 45, 116, 111, 116, 112, 45, 118, 49]

  /** `u32::to_le_bytes`: the lowest byte first. */
  function LittleEndian32(n: U32): (b: Bytes)
    ensures |b| == 4
  {
    var n1 := n / 256;
    var n2 := n1 / 256;
    [n % 256, n1 % 256, n2 % 256, n2 / 256]
  }

  /** `u32::from_le_bytes`. */
  function FromLittleEndian32(b: Bytes): (n: U32)
    requires |b| == 4
  {
    var b0: int, b1: int, b2: int, b3: int := b[0], b[1], b[2], b[3];
    b0 + 256 * (b1 + 256 * (b2 + 256 * b3))
  }

  /** The payload before the secret. */
  function Header(p: Params): (h: Bytes)
    ensures |h| == 24
  {
    TOTP_MAGIC + [ToByte(p.algorithm), p.digits] + LittleEndian32(p.period)
  }

  /** `encode_entry`, which appends piece after piece to a buffer. */
  method EncodeEntry(p: Params, secret: Bytes) returns (r: Result<Bytes, Error>)
    ensures r == Encoded(p, secret)
  {
    var v := Validate(p);
    if v.Err? {
      return Err(v.error);
    }
    if secret == [] {
      return Err(EmptySecret);
    }
    var out := TOTP_MAGIC;
    out := out + [ToByte(p.algorithm)];
    out := out + [p.digits];
    out := out + LittleEndian32(p.period);
    out := out + secret;
    assert out == Header(p) + secret;
    return Ok(out);
  }

  function Encoded(p: Params, secret: Bytes): Result<Bytes, Error> {
    var v := Validate(p);
    if v.Err? then Err(v.error)
    else if secret == [] then Err(EmptySecret)
    else Ok(Header(p) + secret)
  }

  /** `decode_entry`. */
  function DecodeEntry(plain: Bytes): Result<(Params, Bytes), Error> {
    if !(TOTP_MAGIC <= plain) then Err(NotAnEntry)
    else
      var rest := plain[|TOTP_MAGIC|..];
      if |rest| < 6 then Err(PayloadTooShort)
      else
        match FromByte(rest[0])
        case None => Err(UnknownAlgorithmByte(rest[0]))
        case Some(algorithm) =>
          var p := Params(algorithm, rest[1], FromLittleEndian32(rest[2..6]));
          var v := Validate(p);
          if v.Err? then Err(v.error)
          else if rest[6..] == [] then Err(EmptySecret)
          else Ok((p, rest[6..]))
  }

  lemma LittleEndianRoundTrip(n: U32)
    ensures FromLittleEndian32(LittleEndian32(n)) == n
  {
  }

  lemma DivModByte(low: int, high: int)
    requires 0 <= low < 256
    ensures (low + 256 * high) % 256 == low
    ensures (low + 256 * high) / 256 == high
  {
  }

  lemma LittleEndianOfBytes(b: Bytes)
    requires |b| == 4
    ensures LittleEndian32(FromLittleEndian32(b)) == b
  {
    var b0: int, b1: int, b2: int, b3: int := b[0], b[1], b[2], b[3];
    DivModByte(b0, b1 + 256 * (b2 + 256 * b3));
    DivModByte(b1, b2 + 256 * b3);
    DivModByte(b2, b3);
  }

  lemma HeaderReads(p: Params, secret: Bytes)
    ensures var rest := (Header(p) + secret)[18..];
            && TOTP_MAGIC <= Header(p) + secret
            && rest[0] == ToByte(p.algorithm) && rest[1] == p.digits
            && rest[2..6] == LittleEndian32(p.period) && rest[6..] == secret
  {
    var plain := Header(p) + secret;
    assert plain[..18] == TOTP_MAGIC;
    assert plain[18..] == [ToByte(p.algorithm), p.digits] + LittleEndian32(p.period) + secret;
  }

  lemma DecodesEncoded(p: Params, secret: Bytes)
    requires Encoded(p, secret).Ok?
    ensures DecodeEntry(Encoded(p, secret).value) == Ok((p, secret))
  {
    HeaderReads(p, secret);
    LittleEndianRoundTrip(p.period);
  }

  lemma EncodesDecoded(plain: Bytes, p: Params, secret: Bytes)
    requires DecodeEntry(plain) == Ok((p, secret))
    ensures Encoded(p, secret) == Ok(plain)
  {
    var rest := plain[18..];
    LittleEndianOfBytes(rest[2..6]);
    assert rest == [rest[0], rest[1]] + rest[2..6] + rest[6..];
    assert plain == TOTP_MAGIC + rest;
    assert plain == Header(p) + secret;
  }

  /** `decode_entry` accepts exactly what `encode_entry` writes, and reads back
      exactly what was written: each is the other's inverse. */
  lemma DecodeInvertsEncode(plain: Bytes, p: Params, secret: Bytes)
    ensures DecodeEntry(plain) == Ok((p, secret)) <==> Encoded(p, secret) == Ok(plain)
  {
    if Encoded(p, secret) == Ok(plain) {
      DecodesEncoded(p, secret);
    }
    if DecodeEntry(plain) == Ok((p, secret)) {
      EncodesDecoded(plain, p, secret);
    }
  }

  /** Both refuse exactly the invalid parameters and the empty secret. */
  lemma EncodableIffValid(p: Params, secret: Bytes)
    ensures Encoded(p, secret).Ok? <==> Valid(p) && secret != []
    ensures Validate(p).Ok? <==> Valid(p)
  {
  }

  /** Each refusal of parameters, exactly. */
  lemma ValidateErrors(p: Params)
    ensures Validate(p) == Err(BadDigits(p.digits)) <==> p.digits !in {6, 7, 8}
    ensures Validate(p) == Err(ZeroPeriod) <==> p.digits in {6, 7, 8} && p.period == 0
    ensures Validate(p) == Err(LongPeriod) <==> p.digits in {6, 7, 8} && p.period > 3600
  {
  }

  /** Encoding refuses bad parameters before an empty secret. */
  lemma EncodeErrors(p: Params, secret: Bytes)
    ensures Validate(p).Err? ==> Encoded(p, secret) == Err(Validate(p).error)
    ensures Validate(p).Ok? && secret == [] ==> Encoded(p, secret) == Err(EmptySecret)
  {
  }

  /** Each refusal of a payload, by the bytes that it has. */
  lemma DecodeErrors(plain: Bytes, rest: Bytes)
    ensures DecodeEntry(plain) == Err(NotAnEntry) <==> |plain| < 18 || plain[..18] != TOTP_MAGIC
    ensures |rest| < 6 ==> DecodeEntry(TOTP_MAGIC + rest) == Err(PayloadTooShort)
    ensures |rest| >= 6 && rest[0] > 2 ==> DecodeEntry(TOTP_MAGIC + rest) == Err(UnknownAlgorithmByte(rest[0]))
    ensures |rest| >= 6 && rest[0] <= 2 ==>
              var p := Params(FromByte(rest[0]).value, rest[1], FromLittleEndian32(rest[2..6]));
              && (Validate(p).Err? ==> DecodeEntry(TOTP_MAGIC + rest) == Err(Validate(p).error))
              && (Validate(p).Ok? && |rest| == 6 ==> DecodeEntry(TOTP_MAGIC + rest) == Err(EmptySecret))
  {
    assert (TOTP_MAGIC + rest)[18..] == rest;
    assert |plain| >= 18 ==> (TOTP_MAGIC <= plain <==> plain[..18] == TOTP_MAGIC);
  }

  /** The payload byte by byte: the text `cybercuris-totp-v1`, the algorithm as 0,
      1 or 2, the number of digits, the period with its lowest byte first, and the
      secret. */
  lemma EntryLayout(p: Params, secret: Bytes, i: nat)
    requires Encoded(p, secret).Ok? && i < 18
    ensures var x := Encoded(p, secret).value;
            var b0: int, b1: int, b2: int, b3: int := x[20], x[21], x[22], x[23];
            && |x| == 24 + |secret|
            && x[i] == "cybercuris-totp-v1"[i] as int
            && x[18] == (if p.algorithm == Sha1 then 0 else if p.algorithm == Sha256 then 1 else 2)
            && x[19] == p.digits
            && b0 + 0x100 * b1 + 0x1_0000 * b2 + 0x100_0000 * b3 == p.period
            && x[24..] == secret
  {
    HeaderReads(p, secret);
    var x := Encoded(p, secret).value;
    assert x[..18] == TOTP_MAGIC;
    MagicIsText(i);
    assert x[20..24] == x[18..][2..6] == LittleEndian32(p.period);
    assert x[24..] == x[18..][6..];
    LittleEndianRoundTrip(p.period);
  }

  lemma MagicIsText(i: nat)
    requires i < 18
    ensures |"cybercuris-totp-v1"| == 18 && TOTP_MAGIC[i] == "cybercuris-totp-v1"[i] as int
  {
  }
}
