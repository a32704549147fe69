/** The `otpauth://` provisioning URI (src/totp.rs, `parse_otpauth_uri`). */
module OtpAuthUri {
  import opened Wrappers
  import opened Bytes
  import opened Text
  import opened Decimal
  import opened TotpEntry
  import opened PercentCoding
  import Base32

  datatype UriError =
    | NotOtpAuth
    | MissingQuery
    | UnsupportedType(otpType: string)
    | BadAlgorithm(text: string)
    | BadNumber(text: string)
    | MissingSecret
    | BadSecret(base32: Base32.Error)
    | BadParams(params: TotpEntry.Error)

  datatype TotpUri = TotpUri(secret: Bytes, params: Params)

  /** The variables of the parsing loop. */
  datatype Fields = Fields(secret: Option<string>, algorithm: Algorithm, digits: Byte, period: U32)

  const Defaults := Fields(None, Sha1, 6, 30)

  /** `TotpAlgorithm::from_str`. */
  function ParseAlgorithm(s: string): Option<Algorithm> {
    var lower := Lowercase(s);
    if lower == "sha1" then Some(Sha1)
    else if lower == "sha256" then Some(Sha256)
    else if lower == "sha512" then Some(Sha512)
    else None
  }

  datatype Key = SecretKey | AlgorithmKey | DigitsKey | PeriodKey | UnknownKey

  /** Keys are compared in lower case. */
  function KeyOf(rawKey: string): Key {
    var key := Lowercase(rawKey);
    if key == "secret" then SecretKey
    else if key == "algorithm" then AlgorithmKey
    else if key == "digits" then DigitsKey
    else if key == "period" then PeriodKey
    else UnknownKey
  }

  const U8_BOUND := 0x100
  const U32_BOUND := 0x1_0000_0000

  datatype Item = Item(key: Key, value: string)

  /** A `key=value` pair of the query; a text without `=` is no pair. */
  function ItemOf(pair: string): Option<Item> {
    var split := SplitOnce(pair, '=');
    if split.None? then None
    else Some(Item(KeyOf(split.value.0), PercentDecoded(split.value.1)))
  }

  function Apply(f: Fields, pair: string): Result<Fields, UriError> {
    var item := ItemOf(pair);
    if item.None? then Ok(f) else ApplyValue(f, item.value.key, item.value.value)
  }

  function ApplyValue(f: Fields, key: Key, value: string): Result<Fields, UriError> {
    match key
    case SecretKey => Ok(f.(secret := Some(value)))
    case AlgorithmKey =>
      (match ParseAlgorithm(value)
       case None => Err(BadAlgorithm(value))
       case Some(a) => Ok(f.(algorithm := a)))
    case DigitsKey =>
      (match ParseUnsigned(value, U8_BOUND)
       case None => Err(BadNumber(value))
       case Some(n) => Ok(f.(digits := n)))
    case PeriodKey =>
      (match ParseUnsigned(value, U32_BOUND)
       case None => Err(BadNumber(value))
       case Some(n) => Ok(f.(period := n)))
    case UnknownKey => Ok(f)
  }

  function ApplyAll(pairs: seq<string>): Result<Fields, UriError> {
    if pairs == [] then Ok(Defaults)
    else
      match ApplyAll(pairs[..|pairs| - 1])
      case Err(e) => Err(e)
      case Ok(f) => Apply(f, pairs[|pairs| - 1])
  }

  /** What follows the loop. */
  function Finish(f: Fields): Result<TotpUri, UriError> {
    if f.secret.None? then Err(MissingSecret)
    else
      match Base32.Decoded(f.secret.value)
      case Err(e) => Err(BadSecret(e))
      case Ok(bytes) =>
        var params := Params(f.algorithm, f.digits, f.period);
        match Validate(params)
        case Err(e) => Err(BadParams(e))
        case Ok(_) => Ok(TotpUri(bytes, params))
  }

  function ParsedPairs(pairs: seq<string>): Result<TotpUri, UriError> {
    match ApplyAll(pairs)
    case Err(e) => Err(e)
    case Ok(f) => Finish(f)
  }

  const SCHEME := "otpauth://"
  const SCHEME_UPPER := "OTPAUTH://"

  function ParsedTrimmed(trimmed: string): Result<TotpUri, UriError> {
    if !(SCHEME <= trimmed) && !(SCHEME_UPPER <= trimmed) then Err(NotOtpAuth)
    else
      var split := SplitOnce(trimmed[|SCHEME|..], '?');
      if split.None? then Err(MissingQuery)
      else
        var otpType := Split(split.value.0, '/')[0];
        if otpType != "totp" then Err(UnsupportedType(otpType))
        else ParsedPairs(Split(split.value.1, '&'))
  }

  function ParsedUri(input: string): Result<TotpUri, UriError> {
    ParsedTrimmed(Trim(input))
  }

  /** `parse_otpauth_uri`: the loop over the pairs overwrites its variables. */
  method ParseOtpAuthUri(input: string) returns (r: Result<TotpUri, UriError>)
    ensures r == ParsedUri(input)
  {
    var trimmed := Trim(input);
    if !(SCHEME <= trimmed) && !(SCHEME_UPPER <= trimmed) {
      return Err(NotOtpAuth);
    }
    var split := SplitOnce(trimmed[|SCHEME|..], '?');
    if split.None? {
      return Err(MissingQuery);
    }
    var (path, query) := split.value;
    var otpType := Split(path, '/')[0];
    if otpType != "totp" {
      return Err(UnsupportedType(otpType));
    }
    r := ParsePairs(Split(query, '&'));
  }

  lemma ApplyAllStep(pairs: seq<string>, i: nat)
    requires i < |pairs| && ApplyAll(pairs[..i]).Ok?
    ensures ApplyAll(pairs[..i + 1]) == Apply(ApplyAll(pairs[..i]).value, pairs[i])
    ensures Apply(ApplyAll(pairs[..i]).value, pairs[i]).Err? ==>
              ApplyAll(pairs) == Apply(ApplyAll(pairs[..i]).value, pairs[i])
  {
    assert pairs[..i + 1][..i] == pairs[..i];
    if ApplyAll(pairs[..i + 1]).Err? {
      FirstErrorStays(pairs, i + 1);
    }
  }

  method ParsePairs(pairs: seq<string>) returns (r: Result<TotpUri, UriError>)
    ensures r == ParsedPairs(pairs)
  {
    var secret: Option<string>, algorithm, digits: Byte, period: U32 := None, Sha1, 6, 30;
    for i := 0 to |pairs|
      invariant ApplyAll(pairs[..i]) == Ok(Fields(secret, algorithm, digits, period))
    {
      ApplyAllStep(pairs, i);
      var split := SplitOnce(pairs[i], '=');
      if split.Some? {
        var value := PercentDecode(split.value.1);
        match KeyOf(split.value.0) {
          case SecretKey =>
            secret := Some(value);
          case AlgorithmKey =>
            var a := ParseAlgorithm(value);
            if a.None? {
              return Err(BadAlgorithm(value));
            }
            algorithm := a.value;
          case DigitsKey =>
            var n := ParseUnsigned(value, U8_BOUND);
            if n.None? {
              return Err(BadNumber(value));
            }
            digits := n.value;
          case PeriodKey =>
            var n := ParseUnsigned(value, U32_BOUND);
            if n.None? {
              return Err(BadNumber(value));
            }
            period := n.value;
          case UnknownKey =>
        }
      }
    }
    assert pairs[..|pairs|] == pairs;
    return Finish(Fields(secret, algorithm, digits, period));
  }

  /** An error ends the parse with that error. */
  lemma FirstErrorStays(pairs: seq<string>, n: nat)
    requires n <= |pairs|
    requires ApplyAll(pairs[..n]).Err?
    ensures ApplyAll(pairs) == ApplyAll(pairs[..n])
    decreases |pairs|
  {
    if n == |pairs| {
      assert pairs[..n] == pairs;
    } else {
      var before := pairs[..|pairs| - 1];
      assert before[..n] == pairs[..n];
      FirstErrorStays(before, n);
    }
  }

  // ---------------------------------------------------------------------
  // The meaning of a query, without the loop.

  /** The values given for `key`, in order. */
  function ValuesFor(pairs: seq<string>, key: Key): seq<string> {
    if pairs == [] then []
    else ValuesFor(pairs[..|pairs| - 1], key) + ValueOf(pairs[|pairs| - 1], key)
  }

  function ValueOf(pair: string, key: Key): (v: seq<string>)
    ensures |v| <= 1
  {
    var item := ItemOf(pair);
    if item.Some? && item.value.key == key then [item.value.value] else []
  }

  /** A value that can be read as what its key asks for. */
  predicate Readable(key: Key, value: string) {
    match key
    case AlgorithmKey => ParseAlgorithm(value).Some?
    case DigitsKey => ParseUnsigned(value, U8_BOUND).Some?
    case PeriodKey => ParseUnsigned(value, U32_BOUND).Some?
    case _ => true
  }

  predicate AllReadable(values: seq<string>, key: Key) {
    forall v <- values :: Readable(key, v)
  }

  predicate QueryReadable(pairs: seq<string>) {
    && AllReadable(ValuesFor(pairs, AlgorithmKey), AlgorithmKey)
    && AllReadable(ValuesFor(pairs, DigitsKey), DigitsKey)
    && AllReadable(ValuesFor(pairs, PeriodKey), PeriodKey)
  }

  function LastText(values: seq<string>): Option<string> {
    if values == [] then None else Some(values[|values| - 1])
  }

  function LastAlgorithm(values: seq<string>): Algorithm {
    if values == [] then Sha1
    else var a := ParseAlgorithm(values[|values| - 1]); if a.None? then Sha1 else a.value
  }

  function LastNumber(values: seq<string>, bound: nat, default: nat): (n: nat)
    requires default < bound
    ensures n < bound
  {
    if values == [] then default
    else var n := ParseUnsigned(values[|values| - 1], bound); if n.None? then default else n.value
  }

  /** The fields as the last value of each key says, or the default. */
  function FieldsOf(secrets: seq<string>, algorithms: seq<string>, digits: seq<string>, periods: seq<string>): Fields {
    Fields(LastText(secrets), LastAlgorithm(algorithms),
           LastNumber(digits, U8_BOUND, 6), LastNumber(periods, U32_BOUND, 30))
  }

  function LastFields(pairs: seq<string>): Fields {
    FieldsOf(ValuesFor(pairs, SecretKey), ValuesFor(pairs, AlgorithmKey),
             ValuesFor(pairs, DigitsKey), ValuesFor(pairs, PeriodKey))
  }

  lemma ValuesForSnoc(before: seq<string>, pair: string, key: Key)
    ensures ValuesFor(before + [pair], key) == ValuesFor(before, key) + ValueOf(pair, key)
  {
    assert (before + [pair])[..|before|] == before;
  }

  lemma ReadableConcat(v: seq<string>, w: seq<string>, key: Key)
    ensures AllReadable(v + w, key) <==> AllReadable(v, key) && AllReadable(w, key)
  {
    assert forall x :: x in v + w <==> x in v || x in w;
  }

  lemma ReadableSnoc(before: seq<string>, pair: string)
    ensures QueryReadable(before + [pair]) <==> QueryReadable(before) && PairReadable(pair)
  {
    forall key ensures AllReadable(ValuesFor(before + [pair], key), key) <==>
                       AllReadable(ValuesFor(before, key), key) && AllReadable(ValueOf(pair, key), key)
    {
      ValuesForSnoc(before, pair, key);
      ReadableConcat(ValuesFor(before, key), ValueOf(pair, key), key);
    }
  }

  predicate PairReadable(pair: string) {
    && AllReadable(ValueOf(pair, AlgorithmKey), AlgorithmKey)
    && AllReadable(ValueOf(pair, DigitsKey), DigitsKey)
    && AllReadable(ValueOf(pair, PeriodKey), PeriodKey)
  }

  lemma ReadableValue(pair: string, key: Key)
    ensures var item := ItemOf(pair);
            AllReadable(ValueOf(pair, key), key) <==>
            (item.Some? && item.value.key == key ==> Readable(key, item.value.value))
  {
    var item := ItemOf(pair);
    if item.Some? && item.value.key == key {
      assert item.value.value in ValueOf(pair, key);
    }
  }

  lemma ApplyReadable(f: Fields, pair: string)
    ensures Apply(f, pair).Ok? <==> PairReadable(pair)
  {
    ReadableValue(pair, AlgorithmKey);
    ReadableValue(pair, DigitsKey);
    ReadableValue(pair, PeriodKey);
  }

  /** A pair sets the field of its key, which then is the last value given. */
  lemma ApplyValueLast(s: seq<string>, a: seq<string>, d: seq<string>, p: seq<string>, key: Key, value: string)
    requires ApplyValue(FieldsOf(s, a, d, p), key, value).Ok?
    ensures ApplyValue(FieldsOf(s, a, d, p), key, value) ==
            Ok(FieldsOf(if key.SecretKey? then s + [value] else s,
                        if key.AlgorithmKey? then a + [value] else a,
                        if key.DigitsKey? then d + [value] else d,
                        if key.PeriodKey? then p + [value] else p))
  {
  }

  /** What one more pair adds to the values of a key. */
  lemma ValuesForStep(before: seq<string>, pair: string, key: Key)
    ensures var item := ItemOf(pair);
            ValuesFor(before + [pair], key) ==
            if item.Some? && item.value.key == key then ValuesFor(before, key) + [item.value.value]
            else ValuesFor(before, key)
  {
    ValuesForSnoc(before, pair, key);
    assert ValuesFor(before, key) + [] == ValuesFor(before, key);
  }

  lemma ApplyLast(before: seq<string>, pair: string)
    requires Apply(LastFields(before), pair).Ok?
    ensures Apply(LastFields(before), pair) == Ok(LastFields(before + [pair]))
  {
    ValuesForStep(before, pair, SecretKey);
    ValuesForStep(before, pair, AlgorithmKey);
    ValuesForStep(before, pair, DigitsKey);
    ValuesForStep(before, pair, PeriodKey);
    var item := ItemOf(pair);
    if item.Some? {
      ApplyValueLast(ValuesFor(before, SecretKey), ValuesFor(before, AlgorithmKey),
                     ValuesFor(before, DigitsKey), ValuesFor(before, PeriodKey),
                     item.value.key, item.value.value);
    }
  }

  /** The loop succeeds exactly when every value given for the algorithm or a
      number can be read, and then the last value of each key has won. */
  lemma {:induction false} LastValueWins(pairs: seq<string>)
    ensures ApplyAll(pairs).Ok? <==> QueryReadable(pairs)
    ensures QueryReadable(pairs) ==> ApplyAll(pairs) == Ok(LastFields(pairs))
  {
    if pairs != [] {
      var before, last := pairs[..|pairs| - 1], pairs[|pairs| - 1];
      assert pairs == before + [last];
      LastValueWins(before);
      ReadableSnoc(before, last);
      ApplyReadable(LastFields(before), last);
      if QueryReadable(pairs) {
        ApplyLast(before, last);
      }
    }
  }
}
