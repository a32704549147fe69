/** Editing a TOTP entry (src/main.rs, `edit_totp`), from the text that was
    typed to the file that is written. */
module TotpEditor {
  import opened Wrappers
  import opened Bytes
  import opened Filenames
  import opened KeyDirectory
  import opened TotpEntry
  import K = Keystore
  import OtpAuthTheorems
  import Base32
  import Base32Theorems
  import OtpAuthUri
  import KeyTheorems
  import Text
  import Utf8

  datatype Outcome =
    | EmptyName | NoParams | InvalidSecret | Locked | StoreFailed | RenameFailed | RemoveFailed | Updated

  function HasTotp(d: Dir, name: string): bool {
    ResolveTotp(d, name).Some?
  }

  /** Storing the resolved secret and, under another name, removing the old
      entry. */
  function Replaced(d: Dir, oldName: string, newName: string, secret: Bytes, params: Params, seal: K.Seal): (Dir, Outcome) {
    var plain := Encoded(params, secret);
    if plain.Err? then (d, StoreFailed)
    else
      var stored := StoredTotp(d, newName, seal(plain.value));
      if oldName == newName then (stored, Updated)
      else if !HasTotp(stored, oldName) then (stored, RemoveFailed)
      else (RemovedTotp(stored, oldName), Updated)
  }

  /** `seal` is there while the session holds the main key. */
  function Edited(d: Dir, oldName: string, newName: string, input: string, params: Option<Params>, seal: Option<K.Seal>): (Dir, Outcome) {
    if newName == [] then (d, EmptyName)
    else if input == [] then
      if oldName == newName then (d, Updated)
      else if !HasTotp(d, oldName) then (d, RenameFailed)
      else (RenamedTotp(d, oldName, newName), Updated)
    else if params.None? then (d, NoParams)
    else
      var resolved := OtpAuthTheorems.ResolveSecret(input, params.value, false);
      if resolved.Err? then (d, InvalidSecret)
      else if seal.None? then (d, Locked)
      else Replaced(d, oldName, newName, resolved.value.0, resolved.value.1, seal.value)
  }

  /** `edit_totp`. */
  method EditTotp(keystore: K.Keystore, oldName: string, newName: string, input: string, params: Option<Params>, seal: Option<K.Seal>)
    returns (outcome: Outcome)
    modifies keystore`entries
    ensures (keystore.entries, outcome) == Edited(old(keystore.entries), oldName, newName, input, params, seal)
  {
    if newName == [] {
      return EmptyName;
    }
    if input == [] {
      if oldName != newName {
        var r := keystore.RenameTotp(oldName, newName);
        if r.Err? {
          return RenameFailed;
        }
      }
      return Updated;
    }
    if params.None? {
      return NoParams;
    }
    var resolved := OtpAuthTheorems.ResolveSecret(input, params.value, false);
    if resolved.Err? {
      return InvalidSecret;
    }
    if seal.None? {
      return Locked;
    }
    var stored := keystore.StoreTotp(newName, resolved.value.0, resolved.value.1, seal.value);
    if stored.Err? {
      return StoreFailed;
    }
    if oldName != newName {
      var r := keystore.RemoveTotp(oldName);
      if r.Err? {
        return RemoveFailed;
      }
    }
    return Updated;
  }

  /** Whether the file of `name` holds, sealed, an entry that reads back as this
      secret and these parameters. */
  ghost predicate HoldsEntry(d: Dir, name: string, secret: Bytes, params: Params, seal: K.Seal) {
    exists plain :: DecodeEntry(plain) == Ok((params, secret)) && ReadTotp(d, name) == Ok(seal(plain))
  }

  lemma ReplacedHolds(d: Dir, oldName: string, newName: string, secret: Bytes, params: Params, seal: K.Seal)
    requires AllAllowed(oldName) && HasTotp(d, oldName) && newName != oldName
    requires Encoded(params, secret).Ok?
    ensures var (after, outcome) := Replaced(d, oldName, newName, secret, params, seal);
            && outcome == Updated
            && !HasTotp(after, oldName)
            && (HasTotp(after, newName) <==> Sanitized(newName) != oldName)
            && (HasTotp(after, newName) ==> HoldsEntry(after, newName, secret, params, seal))
  {
    var plain := Encoded(params, secret).value;
    DecodeInvertsEncode(plain, params, secret);
    AllowedStays(oldName);
    if TotpPath(newName) == TotpPath(oldName) {
      FileNameInjective(Sanitized(newName), TOTP, oldName, TOTP);
    }
  }

  /** Giving a listed entry a new name and a new secret.  A bad secret or bad
      parameters change nothing, and are reported.  Otherwise the old entry is gone,
      the edit reports success, and the new entry reads back as what the text
      resolves to exactly when the new name's file is not the old entry's: if it
      is, the edit has deleted what it stored. */
  lemma EditWithNewSecret(d: Dir, oldName: string, newName: string, input: string, params: Params, seal: K.Seal)
    requires AllAllowed(oldName) && HasTotp(d, oldName)
    requires newName != [] && newName != oldName && input != []
    ensures var (after, outcome) := Edited(d, oldName, newName, input, Some(params), Some(seal));
            var resolved := OtpAuthTheorems.ResolveSecret(input, params, false);
            var good := resolved.Ok? && (OtpAuthTheorems.IsOtpAuthUri(input) || Valid(params));
            && (outcome == Updated <==> good)
            && (!good ==> after == d)
            && (good ==>
                  && !HasTotp(after, oldName)
                  && (HasTotp(after, newName) <==> Sanitized(newName) != oldName)
                  && (HasTotp(after, newName) ==>
                        HoldsEntry(after, newName, resolved.value.0, resolved.value.1, seal)))
  {
    var resolved := OtpAuthTheorems.ResolveSecret(input, params, false);
    if resolved.Ok? {
      OtpAuthTheorems.ResolvedSecretIsUsable(input, params, false);
      if Encoded(resolved.value.1, resolved.value.0).Ok? {
        ReplacedHolds(d, oldName, newName, resolved.value.0, resolved.value.1, seal);
      }
    }
  }

  /** A secret that is no base32 is taken as it is. */
  lemma RawSecretResolves(params: Params)
    ensures OtpAuthTheorems.ResolveSecret("!", params, false) == Ok(([33], params))
    ensures !OtpAuthTheorems.IsOtpAuthUri("!")
  {
    Text.TrimOfTrimmed("!");
    assert "!"[0] in "!";
    assert !Base32Theorems.LooksLikeBase32("!");
    Utf8.AsciiBytes("!");
    assert Utf8.Encode("!") == [33];
  }

  /** Editing `a_2f_b` into `a/b` loses the secret here too, and reports success. */
  lemma EditLosesSecret(d: Dir, seal: K.Seal)
    requires HasTotp(d, "a_2f_b")
    ensures var (after, outcome) := Edited(d, "a_2f_b", "a/b", "!", Some(Params(Sha1, 6, 30)), Some(seal));
            !HasTotp(after, "a/b") && !HasTotp(after, "a_2f_b") && outcome == Updated
  {
    CollisionExample();
    assert AllAllowed("a_2f_b") by {
      SanitizedIdempotent("a_2f_b");
    }
    assert |"a/b"| != |"a_2f_b"|;
    RawSecretResolves(Params(Sha1, 6, 30));
    EditWithNewSecret(d, "a_2f_b", "a/b", "!", Params(Sha1, 6, 30), seal);
  }

  /** A failed removal has stored the new entry; it happens exactly if the old one
      was not there and is not the new one. */
  lemma FailedRemoval(d: Dir, oldName: string, newName: string, secret: Bytes, params: Params, seal: K.Seal)
    requires Encoded(params, secret).Ok?
    ensures var (after, outcome) := Replaced(d, oldName, newName, secret, params, seal);
            && (outcome == RemoveFailed <==>
                  !HasTotp(d, oldName) && oldName != newName && Sanitized(oldName) != Sanitized(newName))
            && (outcome != RemoveFailed ==> outcome == Updated)
            && (outcome == RemoveFailed ==> HoldsEntry(after, newName, secret, params, seal))
  {
    DecodeInvertsEncode(Encoded(params, secret).value, params, secret);
    if TotpPath(newName) == TotpPath(oldName) {
      FileNameInjective(Sanitized(newName), TOTP, Sanitized(oldName), TOTP);
    }
  }

  lemma EncodedTextSymbols(b: Bytes, p: nat, i: nat)
    requires i < |Base32Theorems.EncodedText(b, p)|
    ensures var c := Base32Theorems.EncodedText(b, p)[i]; c == '=' || Base32Theorems.IsSymbolChar(c)
  {
    Base32Theorems.EncodedSymbols(b);
    if i < |Base32.Encode(b)| {
      assert Base32.SymbolValue(Base32.Encode(b)[i]).Some?;
    }
  }

  /** A URI has a colon. */
  lemma UriHasColon(text: string)
    requires Text.Trimmed(text) && OtpAuthTheorems.IsOtpAuthUri(text)
    ensures |text| >= 10 && text[7] == ':'
  {
    Text.TrimOfTrimmed(text);
    assert Text.Lowercase(text)[7] == OtpAuthUri.SCHEME[7] == ':';
  }

  lemma EncodedTextIsNoUri(b: Bytes, p: nat)
    ensures !OtpAuthTheorems.IsOtpAuthUri(Base32Theorems.EncodedText(b, p))
  {
    var text := Base32Theorems.EncodedText(b, p);
    if text != [] {
      EncodedTextSymbols(b, p, 0);
      EncodedTextSymbols(b, p, |text| - 1);
    }
    if OtpAuthTheorems.IsOtpAuthUri(text) {
      UriHasColon(text);
      EncodedTextSymbols(b, p, 7);
    }
  }

  /** Typing the base32 text of a secret, padded or not, with valid parameters
      stores just this secret under the new name, unless that name's file is the
      old entry's. */
  lemma TypedBase32IsStored(d: Dir, oldName: string, newName: string, b: Bytes, p: nat, params: Params, seal: K.Seal)
    requires AllAllowed(oldName) && HasTotp(d, oldName)
    requires newName != [] && (newName == oldName || Sanitized(newName) != oldName)
    requires b != [] && Valid(params)
    ensures var (after, outcome) := Edited(d, oldName, newName, Base32Theorems.EncodedText(b, p), Some(params), Some(seal));
            outcome == Updated && HoldsEntry(after, newName, b, params, seal)
  {
    var input := Base32Theorems.EncodedText(b, p);
    EncodedTextIsNoUri(b, p);
    Base32Theorems.TextRoundTrip(b, p);
    OtpAuthTheorems.BareSecretIsDecoded(input, params);
    EncodableIffValid(params, b);
    DecodeInvertsEncode(Encoded(params, b).value, params, b);
    if newName != oldName {
      ReplacedHolds(d, oldName, newName, b, params, seal);
    }
    assert input != [] by {
      Base32Theorems.EncodedSymbols(b);
    }
  }

  /** Without a new secret the entry is renamed, and keeps its secret. */
  lemma EditRenames(d: Dir, oldName: string, newName: string, params: Option<Params>, seal: Option<K.Seal>)
    requires newName != []
    ensures var (after, outcome) := Edited(d, oldName, newName, "", params, seal);
            if oldName == newName then after == d && outcome == Updated
            else if HasTotp(d, oldName) then outcome == Updated && ReadTotp(after, newName) == Ok(ReadTotp(d, oldName).value)
            else after == d && outcome == RenameFailed
  {
    KeyTheorems.TotpOperations(d, oldName, newName, []);
  }

  /** An edit that is refused changes nothing.  Without the main key no secret is
      stored, and without parameters none is read. */
  lemma FailedEdit(d: Dir, oldName: string, newName: string, input: string, params: Option<Params>, seal: Option<K.Seal>)
    ensures var (after, outcome) := Edited(d, oldName, newName, input, params, seal);
            && (outcome != Updated && outcome != RemoveFailed ==> after == d)
            && (outcome == EmptyName <==> newName == [])
            && (outcome == NoParams <==> newName != [] && input != [] && params.None?)
            && (outcome == InvalidSecret <==>
                  && newName != [] && input != [] && params.Some?
                  && OtpAuthTheorems.ResolveSecret(input, params.value, false).Err?)
            && (outcome == Locked <==>
                  && newName != [] && input != [] && params.Some? && seal.None?
                  && OtpAuthTheorems.ResolveSecret(input, params.value, false).Ok?)
  {
  }

  /** Two directories that hold the same under a file name. */
  predicate SameFile(d: Dir, after: Dir, f: string) {
    (f in after <==> f in d) && (f in d ==> after[f] == d[f])
  }

  lemma ReplacedFrame(d: Dir, oldName: string, newName: string, secret: Bytes, params: Params, seal: K.Seal, f: string)
    requires f != TotpPath(oldName) && f != TotpPath(newName)
    ensures SameFile(d, Replaced(d, oldName, newName, secret, params, seal).0, f)
  {
  }

  /** No file is touched but the TOTP files of the two names. */
  lemma EditFrame(d: Dir, oldName: string, newName: string, input: string, params: Option<Params>, seal: Option<K.Seal>, f: string)
    requires f != TotpPath(oldName) && f != TotpPath(newName)
    ensures SameFile(d, Edited(d, oldName, newName, input, params, seal).0, f)
  {
    if params.Some? && seal.Some? {
      var resolved := OtpAuthTheorems.ResolveSecret(input, params.value, false);
      if resolved.Ok? {
        ReplacedFrame(d, oldName, newName, resolved.value.0, resolved.value.1, seal.value, f);
      }
    }
  }

  /** So every password, whatever its name, reads as before. */
  lemma PasswordsUntouched(d: Dir, oldName: string, newName: string, input: string, params: Option<Params>, seal: Option<K.Seal>, name: string)
    ensures Read(Edited(d, oldName, newName, input, params, seal).0, name) == Read(d, name)
  {
    KeyFileUntouched(d, oldName, newName, input, params, seal, Sanitized(name));
    KeyFileUntouched(d, oldName, newName, input, params, seal, Legacy(name));
  }

  lemma KeyFileUntouched(d: Dir, oldName: string, newName: string, input: string, params: Option<Params>, seal: Option<K.Seal>, stem: string)
    ensures SameFile(d, Edited(d, oldName, newName, input, params, seal).0, FileName(stem, KEY))
  {
    if FileName(stem, KEY) == TotpPath(oldName) {
      FileNameInjective(stem, KEY, Sanitized(oldName), TOTP);
    }
    if FileName(stem, KEY) == TotpPath(newName) {
      FileNameInjective(stem, KEY, Sanitized(newName), TOTP);
    }
    EditFrame(d, oldName, newName, input, params, seal, FileName(stem, KEY));
  }
}
