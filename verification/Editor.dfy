/** Editing an entry (src/main.rs, `edit_password`): a new name, a new secret or
    both. */
module Editor {
  import opened Wrappers
  import opened Bytes
  import opened Filenames
  import opened KeyDirectory
  import K = Keystore
  import KeyTheorems

  datatype Outcome = EmptyName | Locked | RenameFailed | RemoveFailed | Updated

  /** `seal` is there while the session holds the main key. */
  function Edited(d: Dir, oldName: string, newName: string, password: Bytes, seal: Option<K.Seal>): (Dir, Outcome) {
    if newName == [] then (d, EmptyName)
    else if password == [] then
      if oldName == newName then (d, Updated)
      else if !Has(d, oldName) then (d, RenameFailed)
      else (Renamed(d, oldName, newName), Updated)
    else if seal.None? then (d, Locked)
    else
      var stored := Stored(d, newName, seal.value(password));
      if oldName == newName then (stored, Updated)
      else if !Has(stored, oldName) then (stored, RemoveFailed)
      else (Removed(stored, oldName), Updated)
  }

  /** `edit_password`. */
  method EditPassword(keystore: K.Keystore, oldName: string, newName: string, password: Bytes, seal: Option<K.Seal>)
    returns (outcome: Outcome)
    modifies keystore`entries
    ensures (keystore.entries, outcome) == Edited(old(keystore.entries), oldName, newName, password, seal)
  {
    if newName == [] {
      return EmptyName;
    }
    if password == [] {
      if oldName != newName {
        var r := keystore.RenamePassword(oldName, newName);
        if r.Err? {
          return RenameFailed;
        }
      }
    } else {
      if seal.None? {
        return Locked;
      }
      keystore.StorePassword(newName, password, seal.value);
      if oldName != newName {
        var r := keystore.RemovePassword(oldName);
        if r.Err? {
          return RemoveFailed;
        }
      }
    }
    return Updated;
  }

  /** Giving a listed entry a new name and a new secret.  The old entry is always
      gone.  The new secret is readable exactly when the new name's file is not
      the old entry's: otherwise the edit deletes what it has just stored.  It
      reports success exactly when the old entry's file is not the new name's
      legacy file. */
  lemma EditWithNewSecret(d: Dir, oldName: string, newName: string, password: Bytes, seal: K.Seal)
    requires AllAllowed(oldName) && Has(d, oldName)
    requires newName != [] && newName != oldName && password != []
    ensures var (after, outcome) := Edited(d, oldName, newName, password, Some(seal));
            && !Has(after, oldName)
            && (Read(after, newName) == Ok(seal(password)) <==> Sanitized(newName) != oldName)
            && (Has(after, newName) <==> Sanitized(newName) != oldName)
            && (outcome == Updated <==> AllAllowed(newName) || Legacy(newName) != oldName)
  {
    PathsDiffer(oldName);
    PathsDiffer(newName);
    AllowedStays(oldName);
    KeyTheorems.LegacyPathIs(newName, oldName);
    if PasswordPath(newName) == PasswordPath(oldName) {
      FileNameInjective(Sanitized(newName), KEY, oldName, KEY);
    }
  }

  /** Without a new secret the entry is renamed, and the secret is kept; without
      a new name its secret is replaced, whatever the name. */
  lemma EditOneThing(d: Dir, oldName: string, newName: string, password: Bytes, seal: Option<K.Seal>)
    requires newName != [] && Has(d, oldName)
    ensures password == [] ==>
              var (after, outcome) := Edited(d, oldName, newName, password, seal);
              outcome == Updated && Read(after, newName) == Ok(Read(d, oldName).value)
    ensures password != [] && seal.Some? && newName == oldName ==>
              var (after, outcome) := Edited(d, oldName, newName, password, seal);
              outcome == Updated && Read(after, newName) == Ok(seal.value(password))
  {
    if oldName != newName {
      KeyTheorems.RenameMoves(d, oldName, newName);
    }
    if seal.Some? {
      KeyTheorems.StoreThenRead(d, newName, seal.value(password));
    }
  }

  /** An edit that is refused changes nothing; one that reports a failed removal
      has stored the new secret. */
  lemma FailedEdit(d: Dir, oldName: string, newName: string, password: Bytes, seal: Option<K.Seal>)
    ensures var (after, outcome) := Edited(d, oldName, newName, password, seal);
            && (outcome in {EmptyName, Locked, RenameFailed} ==> after == d)
            && (outcome == RemoveFailed ==>
                  && seal.Some? && !Has(after, oldName)
                  && Read(after, newName) == Ok(seal.value(password)))
            && (outcome == EmptyName <==> newName == [])
            && (outcome == Locked <==> newName != [] && password != [] && seal.None?)
            && (outcome == RenameFailed <==> newName != [] && password == [] && oldName != newName && !Has(d, oldName))
            && (outcome == RemoveFailed <==>
                  && newName != [] && password != [] && seal.Some? && oldName != newName
                  && !Has(Stored(d, newName, seal.value(password)), oldName))
  {
    if seal.Some? {
      KeyTheorems.StoreThenRead(d, newName, seal.value(password));
    }
  }

  /** Comparing the names as they are is not enough: editing `a_2f_b` into `a/b`
      loses the secret and reports success. */
  lemma EditLosesSecret(d: Dir, password: Bytes, seal: K.Seal)
    requires Has(d, "a_2f_b") && password != []
    ensures var (after, outcome) := Edited(d, "a_2f_b", "a/b", password, Some(seal));
            !Has(after, "a/b") && !Has(after, "a_2f_b") && outcome == Updated
  {
    CollisionExample();
    LegacyCollisionExample();
    assert AllAllowed("a_2f_b") by {
      SanitizedIdempotent("a_2f_b");
    }
    assert "a/b"[1] != "a_2f_b"[1];
    assert |"a_b"| != |"a_2f_b"|;
    EditWithNewSecret(d, "a_2f_b", "a/b", password, seal);
  }

  /** An edit touches no file but those of the two names. */
  lemma EditFrame(d: Dir, oldName: string, newName: string, password: Bytes, seal: Option<K.Seal>)
    ensures var after := Edited(d, oldName, newName, password, seal).0;
            forall f :: f !in KeyTheorems.FilesOf(oldName) + KeyTheorems.FilesOf(newName) ==>
                          (f in after <==> f in d) && (f in d ==> after[f] == d[f])
  {
    KeyTheorems.RemoveThenHasNot(d, oldName);
    if Has(d, oldName) {
      KeyTheorems.RenameMoves(d, oldName, newName);
    }
    if seal.Some? {
      var data := seal.value(password);
      KeyTheorems.StoreThenRead(d, newName, data);
      KeyTheorems.RemoveThenHasNot(Stored(d, newName, data), oldName);
    }
  }
}
