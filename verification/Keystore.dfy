/** The data directory as it changes on disk (src/keystore.rs): each method
    updates it step by step and is proved against the functions of KeyDirectory
    and MainKey. */
module Keystore {
  import opened Wrappers
  import opened Bytes
  import opened Filenames
  import opened Listing
  import opened KeyDirectory
  import MainKey
  import KeyTheorems
  import TotpEntry

  /** Encryption under the password key with the nonce that was drawn. */
  type Seal = Bytes -> Bytes

  /** `top` holds the files of the data directory, `entries` those of its
      `passwords` directory, `settings` the text of the settings file.  `steps`
      are the steps that were taken on the main key file. */
  class Keystore {
    var top: Dir
    ghost var steps: seq<MainKey.FileStep>
    var entries: Dir
    var settings: Option<string>

    constructor ()
      ensures top == map[] && entries == map[] && settings == None && steps == []
    {
      top, entries, settings := map[], map[], None;
      steps := [];
    }

    // -------------------------------------------------------------------
    // Passwords.

    method StorePassword(name: string, password: Bytes, seal: Seal)
      modifies this`entries
      ensures entries == Stored(old(entries), name, seal(password))
      ensures Read(entries, name) == Ok(seal(password))
    {
      var data := seal(password);
      var stem := SanitizeFilename(name);
      var path := FileName(stem, KEY);
      var legacy := LegacyPath(name);
      if legacy.Some? && legacy.value != path {
        entries := entries - {legacy.value};
      }
      entries := entries[path := data];
      KeyTheorems.StoreThenRead(old(entries), name, data);
      PathsDiffer(name);
    }

    method ResolvePasswordPath(name: string) returns (path: Option<string>)
      ensures path == Resolve(entries, name)
    {
      var stem := SanitizeFilename(name);
      var primary := FileName(stem, KEY);
      if primary in entries {
        return Some(primary);
      }
      var legacy := LegacyPath(name);
      if legacy.Some? && legacy.value in entries {
        return legacy;
      }
      return None;
    }

    method ReadPasswordCiphertext(name: string) returns (r: Result<Bytes, Error>)
      ensures r == Read(entries, name)
    {
      var path := ResolvePasswordPath(name);
      if path.None? {
        return Err(PasswordNotFound(name));
      }
      return Ok(entries[path.value]);
    }

    method RemovePassword(name: string) returns (r: Result<(), Error>)
      modifies this`entries
      ensures entries == Removed(old(entries), name)
      ensures r == if Has(old(entries), name) then Ok(()) else Err(PasswordNotFound(name))
      ensures !Has(entries, name)
    {
      KeyTheorems.RemoveThenHasNot(entries, name);
      var path := ResolvePasswordPath(name);
      if path.None? {
        return Err(PasswordNotFound(name));
      }
      entries := entries - {path.value};
      var legacy := LegacyPath(name);
      if legacy.Some? && legacy != path {
        entries := entries - {legacy.value};
      }
      return Ok(());
    }

    /** `rename` of one file; renaming a file to itself does nothing. */
    method MoveFile(from: string, to: string)
      requires from in entries
      modifies this`entries
      ensures entries == Moved(old(entries), from, to)
    {
      var data := entries[from];
      entries := entries - {from};
      entries := entries[to := data];
    }

    method RenamePassword(oldName: string, newName: string) returns (r: Result<(), Error>)
      modifies this`entries
      ensures entries == Renamed(old(entries), oldName, newName)
      ensures r == if Has(old(entries), oldName) then Ok(()) else Err(PasswordNotFound(oldName))
    {
      var oldPath := ResolvePasswordPath(oldName);
      if oldPath.None? {
        return Err(PasswordNotFound(oldName));
      }
      var stem := SanitizeFilename(newName);
      var newPath := FileName(stem, KEY);
      MoveFile(oldPath.value, newPath);
      var oldLegacy := LegacyPath(oldName);
      if oldLegacy.Some? && oldLegacy != oldPath && oldLegacy.value != newPath {
        entries := entries - {oldLegacy.value};
      }
      var newLegacy := LegacyPath(newName);
      if newLegacy.Some? && newLegacy.value != newPath {
        entries := entries - {newLegacy.value};
      }
      PathsDiffer(newName);
      return Ok(());
    }

    // -------------------------------------------------------------------
    // TOTP entries.

    method StoreTotp(name: string, secret: Bytes, params: TotpEntry.Params, seal: Seal)
      returns (r: Result<(), TotpEntry.Error>)
      modifies this`entries
      ensures r.Ok? <==> TotpEntry.Encoded(params, secret).Ok?
      ensures entries == if r.Ok? then StoredTotp(old(entries), name, seal(TotpEntry.Encoded(params, secret).value))
                         else old(entries)
    {
      var plain := TotpEntry.EncodeEntry(params, secret);
      if plain.Err? {
        return Err(plain.error);
      }
      var stem := SanitizeFilename(name);
      entries := entries[FileName(stem, TOTP) := seal(plain.value)];
      return Ok(());
    }

    method ReadTotpCiphertext(name: string) returns (r: Result<Bytes, Error>)
      ensures r == ReadTotp(entries, name)
    {
      var stem := SanitizeFilename(name);
      var path := FileName(stem, TOTP);
      if path !in entries {
        return Err(TotpNotFound(name));
      }
      return Ok(entries[path]);
    }

    method RemoveTotp(name: string) returns (r: Result<(), Error>)
      modifies this`entries
      ensures entries == RemovedTotp(old(entries), name)
      ensures r == if ResolveTotp(old(entries), name).Some? then Ok(()) else Err(TotpNotFound(name))
    {
      var stem := SanitizeFilename(name);
      var path := FileName(stem, TOTP);
      if path !in entries {
        return Err(TotpNotFound(name));
      }
      entries := entries - {path};
      return Ok(());
    }

    method RenameTotp(oldName: string, newName: string) returns (r: Result<(), Error>)
      modifies this`entries
      ensures entries == RenamedTotp(old(entries), oldName, newName)
      ensures r == if ResolveTotp(old(entries), oldName).Some? then Ok(()) else Err(TotpNotFound(oldName))
    {
      var oldStem := SanitizeFilename(oldName);
      var oldPath := FileName(oldStem, TOTP);
      if oldPath !in entries {
        return Err(TotpNotFound(oldName));
      }
      var newStem := SanitizeFilename(newName);
      MoveFile(oldPath, FileName(newStem, TOTP));
      return Ok(());
    }

    // -------------------------------------------------------------------
    // Listing.

    /** The body of `list_passwords` and of `list_totps`: the directory is read in
        whatever order it comes. */
    method ListFiles(extension: string) returns (names: seq<string>)
      ensures Lists(names, Stems(entries, extension))
      ensures names == Listed(Stems(entries, extension))
    {
      var todo := entries.Keys;
      var seen: set<string> := {};
      names := [];
      while todo != {}
        invariant todo <= entries.Keys
        invariant Distinct(names)
        invariant seen == set x | x in names
        invariant seen == set file | file in entries.Keys - todo && IsFile(file, extension) :: Stem(file)
        decreases todo
      {
        var file :| file in todo;
        todo := todo - {file};
        if IsFile(file, extension) && Stem(file) !in seen {
          names := names + [Stem(file)];
          seen := seen + {Stem(file)};
        }
      }
      assert Stems(entries, extension) == seen;
      SortLists(names);
      names := Sort(names);
      ListedIs(names, Stems(entries, extension));
    }

    method ListPasswords() returns (names: seq<string>)
      ensures Lists(names, Stems(entries, KEY))
      ensures names == Listed(Stems(entries, KEY))
    {
      names := ListFiles(KEY);
    }

    method ListTotps() returns (names: seq<string>)
      ensures Lists(names, Stems(entries, TOTP))
      ensures names == Listed(Stems(entries, TOTP))
    {
      names := ListFiles(TOTP);
    }

    // -------------------------------------------------------------------
    // The main key.

    /** One write or rename in the data directory. */
    method Perform(step: MainKey.FileStep)
      requires step.Rename? ==> step.from in top
      modifies this`top, this`steps
      ensures top == MainKey.AfterStep(old(top), step)
      ensures steps == old(steps) + [step]
    {
      match step {
        case Write(path, data) =>
          top := top[path := data];
        case Rename(from, to) =>
          var data := top[from];
          top := top - {from};
          top := top[to := data];
      }
      steps := steps + [step];
    }

    method InitMainKey(c: MainKey.Aead, password: string, salt: MainKey.Salt, nonce: MainKey.Nonce, key: Bytes)
      requires |key| == MainKey.MAIN_KEY_SIZE
      modifies this`top, this`steps
      ensures steps == old(steps) + MainKey.InitSteps(c, password, salt, nonce, key)
      ensures top == MainKey.Initialized(c, password, old(top), salt, nonce, key)
      ensures MainKey.Opened(c, password, top) == Ok(key)
    {
      var aesKey := c.derive(password, salt, MainKey.PBKDF2_ITERATIONS);
      var ciphertext := c.encrypt(aesKey, nonce, key);
      var data: Bytes := nonce;
      data := data + salt;
      data := data + ciphertext;
      MainKey.InitIsOneWrite(c, password, top, salt, nonce, key);
      MainKey.InitThenLoad(c, password, top, salt, nonce, key);
      Perform(MainKey.Write(MainKey.MAIN, data));
    }

    /** The old format is decrypted, re-encrypted and put in place through a
        temporary file. */
    method LoadMainKey(c: MainKey.Aead, password: string, salt: MainKey.Salt, nonce: MainKey.Nonce)
      returns (r: Result<Bytes, MainKey.Error>)
      modifies this`top, this`steps
      ensures r == MainKey.Opened(c, password, old(top))
      ensures steps == old(steps) + MainKey.LoadSteps(c, password, old(top), salt, nonce)
      ensures top == MainKey.Loaded(c, password, old(top), salt, nonce)
      ensures MainKey.Opened(c, password, top) == r
      ensures r.Ok? ==> |top[MainKey.MAIN]| == MainKey.NEW_FILE_SIZE
    {
      if MainKey.MAIN !in top {
        return Err(MainKey.NoMainKey);
      }
      MainKey.LoadKeepsKey(c, password, top, salt, nonce);
      MainKey.MigrationIsTwoSteps(c, password, top, salt, nonce);
      var data := top[MainKey.MAIN];
      if |data| == MainKey.OLD_FILE_SIZE {
        r := MainKey.OpenOld(c, password, data);
        if r.Ok? {
          var aesKey := c.derive(password, salt, MainKey.PBKDF2_ITERATIONS);
          var fileData := nonce + salt + c.encrypt(aesKey, nonce, r.value);
          Perform(MainKey.Write(MainKey.TMP, fileData));
          Perform(MainKey.Rename(MainKey.TMP, MainKey.MAIN));
        }
      } else if |data| == MainKey.NEW_FILE_SIZE {
        r := MainKey.OpenNew(c, password, data);
      } else {
        r := Err(MainKey.UnrecognizedFormat);
      }
    }
  }
}
