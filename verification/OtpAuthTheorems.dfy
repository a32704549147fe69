/** The provisioning URI means what its pairs say: order, printing and what a
    successful parse can be used for. */
module OtpAuthTheorems {
  import opened Wrappers
  import opened Bytes
  import opened Text
  import opened Decimal
  import opened TotpEntry
  import opened PercentCoding
  import opened OtpAuthUri
  import TotpCode
  import Base32
  import Base32Theorems
  import Utf8

  // ---------------------------------------------------------------------
  // Order.

  /** Equal results; of two failures the first error met may differ. */
  predicate SameOutcome(r1: Result<TotpUri, UriError>, r2: Result<TotpUri, UriError>) {
    r1 == r2 || (r1.Err? && r2.Err?)
  }

  /** Two queries that give each known key the same values in the same order
      parse alike: pairs of different keys can be moved past each other, and
      unknown ones put in or taken out, anywhere. */
  lemma OrderOfKeysDoesNotMatter(pairs1: seq<string>, pairs2: seq<string>)
    requires forall key :: key != UnknownKey ==> ValuesFor(pairs1, key) == ValuesFor(pairs2, key)
    ensures SameOutcome(ParsedPairs(pairs1), ParsedPairs(pairs2))
  {
    LastValueWins(pairs1);
    LastValueWins(pairs2);
  }

  lemma {:induction false} ValuesForConcat(pairs1: seq<string>, pairs2: seq<string>, key: Key)
    ensures ValuesFor(pairs1 + pairs2, key) == ValuesFor(pairs1, key) + ValuesFor(pairs2, key)
  {
    if pairs2 == [] {
      assert pairs1 + pairs2 == pairs1;
      assert ValuesFor(pairs1, key) + [] == ValuesFor(pairs1, key);
    } else {
      var before, last := pairs2[..|pairs2| - 1], pairs2[|pairs2| - 1];
      assert pairs1 + pairs2 == (pairs1 + before) + [last];
      ValuesForSnoc(pairs1 + before, last, key);
      ValuesForConcat(pairs1, before, key);
      assert ValuesFor(pairs1, key) + (ValuesFor(before, key) + ValueOf(last, key)) ==
             ValuesFor(pairs1, key) + ValuesFor(before, key) + ValueOf(last, key);
    }
  }

  /** Not both for the same known key: unknown keys never count as the same. */
  predicate DifferentKeys(p: string, q: string) {
    ItemOf(p).Some? && ItemOf(q).Some? ==>
      ItemOf(p).value.key != ItemOf(q).value.key || ItemOf(p).value.key == UnknownKey
  }

  lemma KnownKeyText(a: string, b: string)
    requires KeyOf(a) == KeyOf(b) != UnknownKey
    ensures Lowercase(a) == Lowercase(b)
  {
  }

  /** Keys that differ in lower case are different. */
  lemma DifferInLowerCase(p: string, q: string)
    requires var (sp, sq) := (SplitOnce(p, '='), SplitOnce(q, '='));
             sp.Some? && sq.Some? ==> Lowercase(sp.value.0) != Lowercase(sq.value.0)
    ensures DifferentKeys(p, q)
  {
    var (sp, sq) := (SplitOnce(p, '='), SplitOnce(q, '='));
    if sp.Some? && sq.Some? && KeyOf(sp.value.0) == KeyOf(sq.value.0) != UnknownKey {
      KnownKeyText(sp.value.0, sq.value.0);
    }
  }

  lemma SwapTwo(before: seq<string>, p: string, q: string, key: Key)
    requires DifferentKeys(p, q) && key != UnknownKey
    ensures ValuesFor(before + [p, q], key) == ValuesFor(before + [q, p], key)
  {
    assert before + [p, q] == (before + [p]) + [q];
    assert before + [q, p] == (before + [q]) + [p];
    ValuesForStep(before, p, key);
    ValuesForStep(before + [p], q, key);
    ValuesForStep(before, q, key);
    ValuesForStep(before + [q], p, key);
  }

  /** In particular neighbours can be swapped unless they give the same known key. */
  lemma SwapNeighbours(before: seq<string>, p: string, q: string, after: seq<string>)
    requires DifferentKeys(p, q)
    ensures SameOutcome(ParsedPairs(before + [p, q] + after), ParsedPairs(before + [q, p] + after))
  {
    forall key | key != UnknownKey
      ensures ValuesFor(before + [p, q] + after, key) == ValuesFor(before + [q, p] + after, key)
    {
      ValuesForConcat(before + [p, q], after, key);
      ValuesForConcat(before + [q, p], after, key);
      SwapTwo(before, p, q, key);
    }
    OrderOfKeysDoesNotMatter(before + [p, q] + after, before + [q, p] + after);
  }

  // ---------------------------------------------------------------------
  // Printing.

  function AlgorithmName(a: Algorithm): string {
    match a
    case Sha1 => "sha1"
    case Sha256 => "sha256"
    case Sha512 => "sha512"
  }

  /** `text` is a value of `key` that says the same as `secret` and `params`. */
  predicate SaysValue(key: Key, text: string, secret: Bytes, params: Params) {
    match key
    case SecretKey => Base32.Decoded(text) == Ok(secret)
    case AlgorithmKey => Lowercase(text) == AlgorithmName(params.algorithm)
    case DigitsKey => text == Numeral(params.digits)
    case PeriodKey => text == Numeral(params.period)
    case UnknownKey => true
  }

  /** A printed pair: some text that says the right thing, percent-encoded in
      any way.  A pair of an unknown key, or no pair at all, may be anything. */
  ghost predicate SaysPair(pair: string, secret: Bytes, params: Params) {
    var split := SplitOnce(pair, '=');
    split.Some? && KeyOf(split.value.0) != UnknownKey ==>
      exists text :: SpellsText(split.value.1, text) && SaysValue(KeyOf(split.value.0), text, secret, params)
  }

  ghost predicate Says(pairs: seq<string>, secret: Bytes, params: Params) {
    && (forall pair <- pairs :: SaysPair(pair, secret, params))
    && ValuesFor(pairs, SecretKey) != []
    && (params.algorithm != Sha1 ==> ValuesFor(pairs, AlgorithmKey) != [])
    && (params.digits != 6 ==> ValuesFor(pairs, DigitsKey) != [])
    && (params.period != 30 ==> ValuesFor(pairs, PeriodKey) != [])
  }

  lemma SaysItem(pair: string, secret: Bytes, params: Params)
    requires SaysPair(pair, secret, params)
    ensures ItemOf(pair).Some? ==> SaysValue(ItemOf(pair).value.key, ItemOf(pair).value.value, secret, params)
  {
    var split := SplitOnce(pair, '=');
    if split.Some? && KeyOf(split.value.0) != UnknownKey {
      var text :| SpellsText(split.value.1, text) && SaysValue(KeyOf(split.value.0), text, secret, params);
      DecodesEverySpelling(split.value.1, text);
    }
  }

  lemma {:induction false} SaysValues(pairs: seq<string>, key: Key, secret: Bytes, params: Params)
    requires forall pair <- pairs :: SaysPair(pair, secret, params)
    ensures forall v <- ValuesFor(pairs, key) :: SaysValue(key, v, secret, params)
  {
    if pairs != [] {
      var before, last := pairs[..|pairs| - 1], pairs[|pairs| - 1];
      assert last in pairs && forall p <- before :: p in pairs;
      SaysValues(before, key, secret, params);
      SaysItem(last, secret, params);
      forall v <- ValuesFor(pairs, key) ensures SaysValue(key, v, secret, params) {
        assert v in ValuesFor(before, key) || v in ValueOf(last, key);
      }
    }
  }

  /** The three names, in any mix of cases, and no other text. */
  lemma AlgorithmNameParses(text: string, a: Algorithm)
    ensures ParseAlgorithm(text) == Some(a) <==> Lowercase(text) == AlgorithmName(a)
  {
  }

  lemma AlgorithmExamples()
    ensures ParseAlgorithm("SHA1") == Some(Sha1) && ParseAlgorithm("SHA256") == Some(Sha256)
    ensures ParseAlgorithm("sha512") == Some(Sha512) && ParseAlgorithm("md5") == None
  {
    assert Lowercase("SHA1") == "sha1" && Lowercase("SHA256") == "sha256";
    assert Lowercase("sha512") == "sha512";
    assert |Lowercase("md5")| == 3;
  }

  /** The case of a key does not matter, whatever the pair is worth. */
  lemma KeyCaseDoesNotMatter(name: string, other: string, value: string)
    requires '=' !in name && '=' !in other && Lowercase(name) == Lowercase(other)
    ensures ItemOf(name + ['='] + value) == ItemOf(other + ['='] + value)
  {
    SplitOnceAt(name, '=', value);
    SplitOnceAt(other, '=', value);
  }

  /** The four keys that are read. */
  lemma KnownKeys()
    ensures KeyOf("secret") == KeyOf("Secret") == SecretKey && KeyOf("algorithm") == AlgorithmKey
    ensures KeyOf("digits") == DigitsKey && KeyOf("period") == PeriodKey && KeyOf("issuer") == UnknownKey
  {
    assert Lowercase("secret") == "secret" == Lowercase("Secret");
    assert Lowercase("algorithm") == "algorithm" && Lowercase("digits") == "digits";
    assert Lowercase("period") == "period" && Lowercase("issuer") == "issuer";
    assert "period"[0] == 'p' && "digits"[0] == 'd' && "secret"[0] == 's' && "issuer"[0] == 'i';
  }

  /** A value that says the right thing is read as such. */
  lemma SaidValueReads(key: Key, text: string, secret: Bytes, params: Params)
    requires SaysValue(key, text, secret, params)
    ensures Readable(key, text)
    ensures key == AlgorithmKey ==> ParseAlgorithm(text) == Some(params.algorithm)
    ensures key == DigitsKey ==> ParseUnsigned(text, U8_BOUND) == Some(params.digits)
    ensures key == PeriodKey ==> ParseUnsigned(text, U32_BOUND) == Some(params.period)
  {
    match key
    case AlgorithmKey => AlgorithmNameParses(text, params.algorithm);
    case DigitsKey => ParseNumeral(params.digits, U8_BOUND);
    case PeriodKey => ParseNumeral(params.period, U32_BOUND);
    case _ =>
  }

  predicate LastSays(values: seq<string>, key: Key, secret: Bytes, params: Params) {
    values != [] ==> SaysValue(key, values[|values| - 1], secret, params)
  }

  lemma SaidLastReads(pairs: seq<string>, key: Key, secret: Bytes, params: Params)
    requires forall pair <- pairs :: SaysPair(pair, secret, params)
    ensures AllReadable(ValuesFor(pairs, key), key)
    ensures LastSays(ValuesFor(pairs, key), key, secret, params)
  {
    SaysValues(pairs, key, secret, params);
    forall v <- ValuesFor(pairs, key) ensures Readable(key, v) {
      SaidValueReads(key, v, secret, params);
    }
  }

  lemma SaidAlgorithm(values: seq<string>, secret: Bytes, params: Params)
    requires values == [] ==> params.algorithm == Sha1
    requires LastSays(values, AlgorithmKey, secret, params)
    ensures LastAlgorithm(values) == params.algorithm
  {
    if values != [] {
      SaidValueReads(AlgorithmKey, values[|values| - 1], secret, params);
    }
  }

  lemma SaidDigits(values: seq<string>, secret: Bytes, params: Params)
    requires values == [] ==> params.digits == 6
    requires LastSays(values, DigitsKey, secret, params)
    ensures LastNumber(values, U8_BOUND, 6) == params.digits
  {
    if values != [] {
      SaidValueReads(DigitsKey, values[|values| - 1], secret, params);
    }
  }

  lemma SaidPeriod(values: seq<string>, secret: Bytes, params: Params)
    requires values == [] ==> params.period == 30
    requires LastSays(values, PeriodKey, secret, params)
    ensures LastNumber(values, U32_BOUND, 30) == params.period
  {
    if values != [] {
      SaidValueReads(PeriodKey, values[|values| - 1], secret, params);
    }
  }

  lemma SaidFieldsFinish(f: Fields, secret: Bytes, params: Params)
    requires f.secret.Some? && Base32.Decoded(f.secret.value) == Ok(secret)
    requires f.algorithm == params.algorithm && f.digits == params.digits && f.period == params.period
    requires Valid(params)
    ensures Finish(f) == Ok(TotpUri(secret, params))
  {
  }

  lemma SaidPairsReadable(pairs: seq<string>, secret: Bytes, params: Params)
    requires forall pair <- pairs :: SaysPair(pair, secret, params)
    ensures QueryReadable(pairs)
    ensures forall key :: LastSays(ValuesFor(pairs, key), key, secret, params)
  {
    forall key ensures AllReadable(ValuesFor(pairs, key), key) && LastSays(ValuesFor(pairs, key), key, secret, params) {
      SaidLastReads(pairs, key, secret, params);
    }
  }

  lemma SaidPairsParse(pairs: seq<string>, secret: Bytes, params: Params)
    requires Says(pairs, secret, params) && Valid(params)
    ensures ParsedPairs(pairs) == Ok(TotpUri(secret, params))
  {
    SaidPairsReadable(pairs, secret, params);
    SaidAlgorithm(ValuesFor(pairs, AlgorithmKey), secret, params);
    SaidDigits(ValuesFor(pairs, DigitsKey), secret, params);
    SaidPeriod(ValuesFor(pairs, PeriodKey), secret, params);
    SaidFieldsFinish(LastFields(pairs), secret, params);
    LastValueWins(pairs);
  }

  /** A URI with this account and these pairs. */
  function PrintedUri(scheme: string, account: string, pairs: seq<string>): string
    requires pairs != []
  {
    scheme + ("totp/" + account + ['?'] + Join(pairs, '&'))
  }

  predicate IsScheme(scheme: string) {
    scheme == "otpauth://" || scheme == "OTPAUTH://"
  }

  lemma SchemeDropped(scheme: string, rest: string, path: string, query: string)
    requires IsScheme(scheme) && SplitOnce(rest, '?') == Some((path, query))
    ensures var otpType := Split(path, '/')[0];
            ParsedTrimmed(scheme + rest) ==
            if otpType == "totp" then ParsedPairs(Split(query, '&')) else Err(UnsupportedType(otpType))
  {
    assert (scheme + rest)[|scheme|..] == rest;
  }

  lemma TypeOf(otpType: string, account: string)
    requires '?' !in otpType && '/' !in otpType && '?' !in account
    ensures '?' !in otpType + "/" + account
    ensures Split(otpType + "/" + account, '/')[0] == otpType
  {
    assert otpType + "/" + account == otpType + ['/'] + account;
    SplitOnceAt(otpType, '/', account);
  }

  lemma PrintedUriSplits(scheme: string, account: string, pairs: seq<string>)
    requires IsScheme(scheme) && pairs != [] && '?' !in account
    requires forall pair <- pairs :: '&' !in pair
    ensures ParsedTrimmed(PrintedUri(scheme, account, pairs)) == ParsedPairs(pairs)
  {
    var path, query := "totp/" + account, Join(pairs, '&');
    TypeOf("totp", account);
    assert "totp/" + account == "totp" + "/" + account;
    SplitOnceAt(path, '?', query);
    SchemeDropped(scheme, path + ['?'] + query, path, query);
    SplitJoin(pairs, '&');
  }

  /** A URI of any other type, whatever its query, is refused for its type: a
      counter-based one, for instance. */
  lemma OtherTypeIsRefused(scheme: string, otpType: string, account: string, query: string)
    requires IsScheme(scheme) && '?' !in otpType && '/' !in otpType && '?' !in account
    requires otpType != "totp"
    ensures ParsedTrimmed(scheme + (otpType + "/" + account + ['?'] + query)) == Err(UnsupportedType(otpType))
  {
    TypeOf(otpType, account);
    SplitOnceAt(otpType + "/" + account, '?', query);
    SchemeDropped(scheme, otpType + "/" + account + ['?'] + query, otpType + "/" + account, query);
  }

  lemma HotpIsRefused(account: string, query: string)
    requires '?' !in account
    ensures ParsedTrimmed("otpauth://" + ("hotp" + "/" + account + ['?'] + query)) == Err(UnsupportedType("hotp"))
  {
    assert "hotp"[0] != "totp"[0];
    OtherTypeIsRefused("otpauth://", "hotp", account, query);
  }

  /** A URI without a query is refused. */
  lemma NoQueryIsRefused(scheme: string, path: string)
    requires IsScheme(scheme) && '?' !in path
    ensures ParsedTrimmed(scheme + path) == Err(MissingQuery)
  {
    assert (scheme + path)[|scheme|..] == path;
  }

  /** Printing and parsing.  A URI that says `secret` and valid `params` in its
      pairs, in any order, any percent encoding of the values, with any other
      pairs among them and any whitespace around, parses to just these. */
  lemma PrintedUriParses(pre: string, scheme: string, account: string, pairs: seq<string>, post: string, secret: Bytes, params: Params)
    requires Blank(pre) && Blank(post) && IsScheme(scheme)
    requires pairs != [] && '?' !in account
    requires forall pair <- pairs :: '&' !in pair
    requires Trimmed(PrintedUri(scheme, account, pairs))
    requires Says(pairs, secret, params) && Valid(params)
    ensures ParsedUri(pre + PrintedUri(scheme, account, pairs) + post) == Ok(TotpUri(secret, params))
  {
    TrimSurrounded(pre, PrintedUri(scheme, account, pairs), post);
    PrintedUriSplits(scheme, account, pairs);
    SaidPairsParse(pairs, secret, params);
  }

  function CanonicalText(key: Key, secret: Bytes, params: Params): string {
    match key
    case SecretKey => Base32Theorems.EncodedText(secret, 0)
    case AlgorithmKey => AlgorithmName(params.algorithm)
    case DigitsKey => Numeral(params.digits)
    case PeriodKey => Numeral(params.period)
    case UnknownKey => ""
  }

  function KeyName(key: Key): (name: string)
    ensures '=' !in name && KeyOf(name) == key
  {
    assert "period"[0] == 'p' && "digits"[0] == 'd' && "secret"[0] == 's' && "issuer"[0] == 'i';
    var name := match key
      case SecretKey => "secret"
      case AlgorithmKey => "algorithm"
      case DigitsKey => "digits"
      case PeriodKey => "period"
      case UnknownKey => "issuer";
    LowercaseOfLower(name);
    name
  }

  lemma LowercaseOfLower(s: string)
    requires forall i :: 0 <= i < |s| ==> !('A' <= s[i] <= 'Z')
    ensures Lowercase(s) == s
  {
  }

  /** The pair of one key, with nothing percent-encoded. */
  function CanonicalPair(key: Key, secret: Bytes, params: Params): string {
    KeyName(key) + "=" + CanonicalText(key, secret, params)
  }

  lemma AlgorithmNameIsPlain(a: Algorithm)
    ensures Plain(AlgorithmName(a)) && Lowercase(AlgorithmName(a)) == AlgorithmName(a)
  {
    LowercaseOfLower(AlgorithmName(a));
  }

  lemma CanonicalTextSays(key: Key, secret: Bytes, params: Params)
    requires secret != []
    ensures Plain(CanonicalText(key, secret, params))
    ensures SaysValue(key, CanonicalText(key, secret, params), secret, params)
  {
    match key
    case SecretKey =>
      Base32Theorems.TextRoundTrip(secret, 0);
      SymbolsArePlain(secret);
    case AlgorithmKey => AlgorithmNameIsPlain(params.algorithm);
    case DigitsKey => NumeralIsPlain(params.digits);
    case PeriodKey => NumeralIsPlain(params.period);
    case UnknownKey =>
  }

  lemma CanonicalPairSays(key: Key, secret: Bytes, params: Params)
    requires secret != []
    ensures SaysPair(CanonicalPair(key, secret, params), secret, params)
    ensures ItemOf(CanonicalPair(key, secret, params)) == Some(Item(key, CanonicalText(key, secret, params)))
  {
    CanonicalTextSays(key, secret, params);
    PlainPair(KeyName(key), key, CanonicalText(key, secret, params), secret, params);
  }

  function CanonicalPairs(keys: seq<Key>, secret: Bytes, params: Params): (pairs: seq<string>)
    ensures |pairs| == |keys|
  {
    seq(|keys|, i requires 0 <= i < |keys| => CanonicalPair(keys[i], secret, params))
  }

  lemma CanonicalPairsPresent(keys: seq<Key>, i: nat, secret: Bytes, params: Params)
    requires secret != [] && i < |keys|
    ensures ValuesFor(CanonicalPairs(keys, secret, params), keys[i]) != []
  {
    CanonicalPairSays(keys[i], secret, params);
    ValuePresent(CanonicalPairs(keys, secret, params), i, keys[i]);
  }

  lemma CanonicalPairsTrue(keys: seq<Key>, secret: Bytes, params: Params)
    requires secret != []
    ensures forall pair <- CanonicalPairs(keys, secret, params) :: SaysPair(pair, secret, params)
  {
    var pairs := CanonicalPairs(keys, secret, params);
    forall pair <- pairs ensures SaysPair(pair, secret, params) {
      var i :| 0 <= i < |pairs| && pairs[i] == pair;
      CanonicalPairSays(keys[i], secret, params);
    }
  }

  /** Such pairs exist for every non-empty secret and all parameters: the plain
      ones of the four keys, in any order. */
  lemma CanonicalPairsSay(keys: seq<Key>, secret: Bytes, params: Params)
    requires secret != []
    requires forall key: Key :: key != UnknownKey ==> key in keys
    ensures Says(CanonicalPairs(keys, secret, params), secret, params)
  {
    CanonicalPairsTrue(keys, secret, params);
    forall key: Key | key != UnknownKey ensures ValuesFor(CanonicalPairs(keys, secret, params), key) != [] {
      assert key in keys;
      var i :| 0 <= i < |keys| && keys[i] == key;
      CanonicalPairsPresent(keys, i, secret, params);
    }
  }

  predicate Plain(text: string) {
    Utf8.Ascii(text) && '%' !in text
  }

  lemma SymbolsArePlain(secret: Bytes)
    ensures Plain(Base32Theorems.EncodedText(secret, 0))
  {
    Base32Theorems.EncodedSymbols(secret);
    var text := Base32Theorems.EncodedText(secret, 0);
    forall i | 0 <= i < |text| ensures text[i] < '\U{80}' && text[i] != '%' {
      assert Base32.SymbolValue(Base32.Encode(secret)[i]).Some?;
    }
  }

  lemma PlainPair(name: string, key: Key, text: string, secret: Bytes, params: Params)
    requires '=' !in name && KeyOf(name) == key && Plain(text)
    requires SaysValue(key, text, secret, params)
    ensures SaysPair(name + "=" + text, secret, params)
    ensures ItemOf(name + "=" + text) == Some(Item(key, text))
  {
    SplitOnceAt(name, '=', text);
    assert name + "=" + text == name + ['='] + text;
    Utf8.AsciiBytes(text);
    assert PERCENT !in Utf8.Encode(text);
    PlainSpellsItself(Utf8.Encode(text));
    assert SpellsText(text, text);
    DecodesEverySpelling(text, text);
  }

  lemma NumeralIsPlain(n: nat)
    ensures Plain(Numeral(n))
  {
  }

  lemma {:induction false} ValuePresent(pairs: seq<string>, i: nat, key: Key)
    requires i < |pairs|
    requires ItemOf(pairs[i]).Some? && ItemOf(pairs[i]).value.key == key
    ensures ValuesFor(pairs, key) != []
  {
    if i < |pairs| - 1 {
      ValuePresent(pairs[..|pairs| - 1], i, key);
    }
  }

  /** What a query says, by the values that it gives for each key: all its numbers
      and algorithms are readable, the last secret decodes, and the parameters are
      the last ones given, or SHA-1, 6 digits and 30 seconds, and valid. */
  predicate QueryMeans(pairs: seq<string>, secret: Bytes, params: Params) {
    var secrets := ValuesFor(pairs, SecretKey);
    && QueryReadable(pairs)
    && secrets != [] && Base32.Decoded(secrets[|secrets| - 1]) == Ok(secret)
    && params.algorithm == LastAlgorithm(ValuesFor(pairs, AlgorithmKey))
    && params.digits == LastNumber(ValuesFor(pairs, DigitsKey), 256, 6)
    && params.period == LastNumber(ValuesFor(pairs, PeriodKey), 0x1_0000_0000, 30)
    && Valid(params)
  }

  lemma ParsedFromFields(pairs: seq<string>)
    ensures QueryReadable(pairs) ==> ParsedPairs(pairs) == Finish(LastFields(pairs))
    ensures !QueryReadable(pairs) ==> ParsedPairs(pairs).Err?
  {
    LastValueWins(pairs);
  }

  predicate FieldsMean(f: Fields, secret: Bytes, params: Params) {
    && f.secret.Some? && Base32.Decoded(f.secret.value) == Ok(secret)
    && params == Params(f.algorithm, f.digits, f.period)
    && Valid(params)
  }

  lemma FinishIff(f: Fields, secret: Bytes, params: Params)
    ensures Finish(f) == Ok(TotpUri(secret, params)) <==> FieldsMean(f, secret, params)
  {
  }

  lemma LastSecret(secrets: seq<string>, secret: Bytes)
    ensures LastText(secrets).Some? && Base32.Decoded(LastText(secrets).value) == Ok(secret) <==>
            secrets != [] && Base32.Decoded(secrets[|secrets| - 1]) == Ok(secret)
  {
  }

  lemma SameParams(p: Params, a: Algorithm, digits: Byte, period: U32)
    ensures p == Params(a, digits, period) <==> p.algorithm == a && p.digits == digits && p.period == period
  {
  }

  lemma LastFieldsMean(pairs: seq<string>, secret: Bytes, params: Params)
    requires QueryReadable(pairs)
    ensures FieldsMean(LastFields(pairs), secret, params) <==> QueryMeans(pairs, secret, params)
  {
    var f := LastFields(pairs);
    LastSecret(ValuesFor(pairs, SecretKey), secret);
    SameParams(params, f.algorithm, f.digits, f.period);
  }

  /** A query parses to exactly what it says. */
  lemma QueryParsesIff(pairs: seq<string>, secret: Bytes, params: Params)
    ensures ParsedPairs(pairs) == Ok(TotpUri(secret, params)) <==> QueryMeans(pairs, secret, params)
  {
    ParsedFromFields(pairs);
    if QueryReadable(pairs) {
      FinishIff(LastFields(pairs), secret, params);
      LastFieldsMean(pairs, secret, params);
    }
  }

  /** The first unreadable value is blamed, as an algorithm or as a number. */
  lemma UnreadableValue(pairs: seq<string>, i: nat)
    requires i < |pairs| && QueryReadable(pairs[..i]) && !PairReadable(pairs[i])
    ensures ItemOf(pairs[i]).Some?
    ensures var item := ItemOf(pairs[i]).value;
            ParsedPairs(pairs) == Err(if item.key == AlgorithmKey then BadAlgorithm(item.value) else BadNumber(item.value))
  {
    LastValueWins(pairs[..i]);
    var f := ApplyAll(pairs[..i]).value;
    ApplyReadable(f, pairs[i]);
    ApplyAllStep(pairs, i);
    BlamedValue(f, pairs[i]);
  }

  lemma BlamedValue(f: Fields, pair: string)
    requires Apply(f, pair).Err?
    ensures ItemOf(pair).Some?
    ensures var item := ItemOf(pair).value;
            Apply(f, pair) == Err(if item.key == AlgorithmKey then BadAlgorithm(item.value) else BadNumber(item.value))
  {
  }

  /** After the loop, what is blamed is a missing secret, then a secret that does
      not decode, then the parameters. */
  lemma FinishErrors(f: Fields)
    ensures f.secret.None? ==> Finish(f) == Err(MissingSecret)
    ensures f.secret.Some? && Base32.Decoded(f.secret.value).Err? ==>
              Finish(f) == Err(BadSecret(Base32.Decoded(f.secret.value).error))
    ensures var params := Params(f.algorithm, f.digits, f.period);
            f.secret.Some? && Base32.Decoded(f.secret.value).Ok? && Validate(params).Err? ==>
              Finish(f) == Err(BadParams(Validate(params).error))
  {
  }

  /** A readable query without a secret is refused for this. */
  lemma NoSecretIsRefused(pairs: seq<string>)
    requires QueryReadable(pairs)
    ensures ParsedPairs(pairs) == Err(MissingSecret) <==> ValuesFor(pairs, SecretKey) == []
  {
    ParsedFromFields(pairs);
    FinishErrors(LastFields(pairs));
  }

  lemma SchemeOf(trimmed: string)
    requires SCHEME <= trimmed || SCHEME_UPPER <= trimmed
    ensures |trimmed| >= 10 && IsScheme(trimmed[..10])
    ensures trimmed == trimmed[..10] + trimmed[10..]
  {
  }

  /** And an input only parses if it is a URI of this form, white space aside. */
  lemma ParsedHasForm(input: string) returns (scheme: string, path: string, pairs: seq<string>)
    requires ParsedUri(input).Ok?
    ensures IsScheme(scheme) && '?' !in path && Split(path, '/')[0] == "totp" && pairs != []
    ensures Trim(input) == scheme + (path + ['?'] + Join(pairs, '&'))
    ensures ParsedUri(input) == ParsedPairs(pairs)
  {
    var trimmed := Trim(input);
    SchemeOf(trimmed);
    scheme := trimmed[..10];
    var split := SplitOnce(trimmed[10..], '?').value;
    path, pairs := split.0, Split(split.1, '&');
    JoinSplit(split.1, '&');
  }

  // ---------------------------------------------------------------------
  // What a parsed URI is good for.

  lemma FinishedIsUsable(f: Fields)
    requires Finish(f).Ok?
    ensures Finish(f).value.secret != [] && Valid(Finish(f).value.params)
  {
    Base32Theorems.DecodesExactlyEncodings(f.secret.value, Finish(f).value.secret);
  }

  lemma ParsedComesFromFields(trimmed: string) returns (f: Fields)
    requires ParsedTrimmed(trimmed).Ok?
    ensures Finish(f) == ParsedTrimmed(trimmed)
  {
    var split := SplitOnce(trimmed[|SCHEME|..], '?');
    f := ApplyAll(Split(split.value.1, '&')).value;
  }

  /** Every secret and parameters that a URI yields can be stored, are read back
      from the store unchanged, and generate codes. */
  lemma ParsedUriIsUsable(input: string, h: TotpCode.Hmac, timestamp: U64)
    requires ParsedUri(input).Ok?
    ensures var uri := ParsedUri(input).value;
            && uri.secret != [] && Valid(uri.params)
            && Encoded(uri.params, uri.secret).Ok?
            && DecodeEntry(Encoded(uri.params, uri.secret).value) == Ok((uri.params, uri.secret))
            && TotpCode.GenerateTotp(h, uri.secret, uri.params, timestamp).Ok?
  {
    var uri := ParsedUri(input).value;
    var f := ParsedComesFromFields(Trim(input));
    FinishedIsUsable(f);
    EncodableIffValid(uri.params, uri.secret);
    DecodeInvertsEncode(Encoded(uri.params, uri.secret).value, uri.params, uri.secret);
  }

  // ---------------------------------------------------------------------
  // Choosing between a URI and a bare secret.

  /** `is_otpauth_uri`, which ignores the case of the scheme. */
  predicate IsOtpAuthUri(input: string) {
    SCHEME <= Lowercase(Trim(input))
  }

  datatype ResolveError = FromUri(uri: UriError) | FromSecret(base32: Base32.Error)

  /** `resolve_secret`. */
  function ResolveSecret(input: string, fallback: Params, forceRaw: bool): Result<(Bytes, Params), ResolveError> {
    var trimmed := Trim(input);
    if IsOtpAuthUri(trimmed) then
      match ParsedUri(trimmed)
      case Err(e) => Err(FromUri(e))
      case Ok(uri) => Ok((uri.secret, uri.params))
    else
      match Base32Theorems.DecodeSecret(input, forceRaw)
      case Err(e) => Err(FromSecret(e))
      case Ok(bytes) => Ok((bytes, fallback))
  }

  lemma RefusedScheme(trimmed: string)
    requires |trimmed| >= |SCHEME|
    ensures ParsedTrimmed(trimmed) == Err(NotOtpAuth) <==>
            trimmed[..|SCHEME|] != SCHEME && trimmed[..|SCHEME|] != SCHEME_UPPER
  {
    assert SCHEME <= trimmed <==> trimmed[..|SCHEME|] == SCHEME;
    assert SCHEME_UPPER <= trimmed <==> trimmed[..|SCHEME|] == SCHEME_UPPER;
    FinishNeverNotOtpAuth(trimmed);
  }

  lemma ResolveUri(input: string, fallback: Params, forceRaw: bool)
    requires IsOtpAuthUri(input)
    ensures |Trim(input)| >= |SCHEME|
    ensures var r := ParsedTrimmed(Trim(input));
            ResolveSecret(input, fallback, forceRaw) ==
            if r.Err? then Err(FromUri(r.error)) else Ok((r.value.secret, r.value.params))
  {
    TrimResult(input);
    TrimOfTrimmed(Trim(input));
  }

  lemma FinishNeverNotOtpAuth(trimmed: string)
    ensures ParsedTrimmed(trimmed) == Err(NotOtpAuth) ==> !(SCHEME <= trimmed) && !(SCHEME_UPPER <= trimmed)
  {
    if SCHEME <= trimmed || SCHEME_UPPER <= trimmed {
      var split := SplitOnce(trimmed[|SCHEME|..], '?');
      if split.Some? {
        PairsNeverNotOtpAuth(Split(split.value.1, '&'));
      }
    }
  }

  lemma ApplyNeverNotOtpAuth(f: Fields, pair: string)
    ensures Apply(f, pair) != Err(NotOtpAuth)
  {
  }

  lemma {:induction false} ApplyAllNeverNotOtpAuth(pairs: seq<string>)
    ensures ApplyAll(pairs) != Err(NotOtpAuth)
  {
    if pairs != [] {
      var before, last := pairs[..|pairs| - 1], pairs[|pairs| - 1];
      ApplyAllNeverNotOtpAuth(before);
      if ApplyAll(before).Ok? {
        ApplyNeverNotOtpAuth(ApplyAll(before).value, last);
      }
    }
  }

  lemma PairsNeverNotOtpAuth(pairs: seq<string>)
    ensures ParsedPairs(pairs) != Err(NotOtpAuth)
  {
    ApplyAllNeverNotOtpAuth(pairs);
  }

  /** The recogniser accepts the scheme in any mix of cases, the parser only in
      all lower or all upper case: exactly the other spellings are taken for a
      URI and then refused as not being one. */
  lemma MixedCaseSchemeIsRefused(input: string, fallback: Params, forceRaw: bool)
    requires IsOtpAuthUri(input)
    ensures |Trim(input)| >= |SCHEME|
    ensures var scheme := Trim(input)[..|SCHEME|];
            ResolveSecret(input, fallback, forceRaw) == Err(FromUri(NotOtpAuth)) <==>
            scheme != SCHEME && scheme != SCHEME_UPPER
  {
    ResolveUri(input, fallback, forceRaw);
    RefusedScheme(Trim(input));
  }

  /** Such a spelling, with an otherwise valid URI after it or anything else. */
  lemma MixedCaseExample(rest: string, fallback: Params, forceRaw: bool)
    requires rest != [] && !IsWhitespace(rest[|rest| - 1])
    ensures IsOtpAuthUri("Otpauth://" + rest)
    ensures ResolveSecret("Otpauth://" + rest, fallback, forceRaw) == Err(FromUri(NotOtpAuth))
  {
    var scheme := "Otpauth://";
    var input := scheme + rest;
    TrimOfTrimmed(input);
    assert input[..|scheme|] == scheme;
    assert scheme[0] == 'O' && scheme[1] == 't' && SCHEME[0] == 'o' && SCHEME_UPPER[1] == 'T';
    LowercaseScheme(input);
    MixedCaseSchemeIsRefused(input, fallback, forceRaw);
  }

  lemma LowercaseScheme(input: string)
    requires |input| >= 10 && input[..10] == "Otpauth://"
    ensures SCHEME <= Lowercase(input)
  {
    var lower := Lowercase(input);
    assert forall i :: 0 <= i < 10 ==> input[i] == "Otpauth://"[i];
    assert lower[..10] == SCHEME;
  }

  /** A bare secret that is valid base32 is stored decoded, with the parameters
      given, unless raw is asked for. */
  lemma BareSecretIsDecoded(input: string, fallback: Params)
    requires !IsOtpAuthUri(input) && Base32.Decoded(input).Ok?
    ensures ResolveSecret(input, fallback, false) == Ok((Base32.Decoded(input).value, fallback))
  {
    NotUri(input);
    Base32Theorems.NeverStoresBase32Raw(input);
  }

  /** It is stored as its own bytes exactly if raw is asked for or it cannot be
      base32; one that looks like base32 and is not valid is refused. */
  lemma BareSecretIsRaw(input: string, fallback: Params, forceRaw: bool)
    requires !IsOtpAuthUri(input)
    ensures forceRaw || !Base32Theorems.LooksLikeBase32(input) ==>
              ResolveSecret(input, fallback, forceRaw) == Ok((Utf8.Encode(input), fallback))
    ensures !forceRaw && Base32Theorems.LooksLikeBase32(input) && Base32.Decoded(input).Err? ==>
              ResolveSecret(input, fallback, forceRaw) == Err(FromSecret(Base32.Decoded(input).error))
  {
    NotUri(input);
  }

  lemma NotUri(input: string)
    ensures IsOtpAuthUri(Trim(input)) <==> IsOtpAuthUri(input)
  {
    TrimResult(input);
    TrimOfTrimmed(Trim(input));
  }

  /** A URI decides by itself: neither the fallback nor the raw option matters. */
  lemma UriDecides(input: string, fallback: Params, forceRaw: bool)
    requires IsOtpAuthUri(input)
    ensures ResolveSecret(input, fallback, forceRaw) ==
            match ParsedUri(input)
            case Err(e) => Err(FromUri(e))
            case Ok(uri) => Ok((uri.secret, uri.params))
  {
    ResolveUri(input, fallback, forceRaw);
  }

  /** A bare secret that decodes is not empty, but the raw path lets an empty
      one through. */
  lemma DecodedSecretEmpty(input: string, forceRaw: bool)
    requires Base32Theorems.DecodeSecret(input, forceRaw).Ok?
    ensures Base32Theorems.DecodeSecret(input, forceRaw).value == [] <==> input == ""
  {
    assert Utf8.Encode(input) == [] <==> input == "";
    if Base32.Decoded(input).Ok? {
      Base32Theorems.DecodesExactlyEncodings(input, Base32.Decoded(input).value);
    }
  }

  /** The empty secret is accepted, and then cannot be stored. */
  lemma EmptySecretIsAccepted(params: Params, forceRaw: bool)
    ensures Base32Theorems.DecodeSecret("", forceRaw) == Ok([])
    ensures ResolveSecret("", params, forceRaw) == Ok(([], params))
    ensures Encoded(params, []).Err?
  {
    assert !Base32Theorems.LooksLikeBase32("");
    assert Utf8.Encode("") == [];
    assert Trim("") == "";
    EncodableIffValid(params, []);
  }

  /** A resolved secret can be stored, except the empty one that the raw path
      lets through, and parameters taken from an invalid fallback. */
  lemma ResolvedSecretIsUsable(input: string, fallback: Params, forceRaw: bool)
    requires ResolveSecret(input, fallback, forceRaw).Ok?
    ensures var r := ResolveSecret(input, fallback, forceRaw).value;
            Encoded(r.1, r.0).Ok? <==> IsOtpAuthUri(input) || (input != "" && Valid(fallback))
  {
    var r := ResolveSecret(input, fallback, forceRaw).value;
    EncodableIffValid(r.1, r.0);
    if IsOtpAuthUri(input) {
      ResolveUri(input, fallback, forceRaw);
      var f := ParsedComesFromFields(Trim(input));
      FinishedIsUsable(f);
    } else {
      TrimResult(input);
      TrimOfTrimmed(Trim(input));
      DecodedSecretEmpty(input, forceRaw);
    }
  }
}
