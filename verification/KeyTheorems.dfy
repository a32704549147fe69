/** What the operations on entries do, for all names. */
module KeyTheorems {
  import opened Wrappers
  import opened Bytes
  import opened Filenames
  import opened KeyDirectory

  /** The files that a name can stand for. */
  function FilesOf(name: string): set<string> {
    {PasswordPath(name)} + if LegacyPath(name).Some? then {LegacyPath(name).value} else {}
  }

  // ---------------------------------------------------------------------
  // Any names at all.

  /** What is read: the primary file, else the legacy one, else nothing, and a
      TOTP entry from its one file. */
  lemma ReadsFirstFile(d: Dir, name: string)
    ensures PasswordPath(name) in d ==> Read(d, name) == Ok(d[PasswordPath(name)])
    ensures PasswordPath(name) !in d && LegacyPath(name).Some? && LegacyPath(name).value in d ==>
              Read(d, name) == Ok(d[LegacyPath(name).value])
    ensures FilesOf(name) !! d.Keys <==> Read(d, name) == Err(PasswordNotFound(name))
    ensures TotpPath(name) in d ==> ReadTotp(d, name) == Ok(d[TotpPath(name)])
    ensures TotpPath(name) !in d ==> ReadTotp(d, name) == Err(TotpNotFound(name))
  {
    PathsDiffer(name);
    if Read(d, name) == Err(PasswordNotFound(name)) {
      assert PasswordPath(name) !in d;
      assert LegacyPath(name).Some? ==> LegacyPath(name).value !in d;
    }
    assert PasswordPath(name) in FilesOf(name);
    assert LegacyPath(name).Some? ==> LegacyPath(name).value in FilesOf(name);
  }

  /** Storing makes the new data readable and changes no file but the two that
      the name stands for; of these the legacy one is gone. */
  lemma StoreThenRead(d: Dir, name: string, data: Bytes)
    ensures Read(Stored(d, name, data), name) == Ok(data)
    ensures forall f :: f !in FilesOf(name) ==>
                          (f in Stored(d, name, data) <==> f in d) && (f in d ==> Stored(d, name, data)[f] == d[f])
    ensures forall f :: f in FilesOf(name) && f in Stored(d, name, data) ==> f == PasswordPath(name)
  {
    PathsDiffer(name);
  }

  /** Removing leaves nothing of the name behind and touches no other file. */
  lemma RemoveThenHasNot(d: Dir, name: string)
    ensures !Has(Removed(d, name), name)
    ensures Removed(d, name) == d - FilesOf(name)
  {
    PathsDiffer(name);
    if Resolve(d, name).None? {
      assert d - FilesOf(name) == d;
    }
  }

  /** Renaming carries the data over, touches only the files of the two names,
      and leaves the old name behind exactly when the new name's file is one of
      the old name's own. */
  lemma RenameMoves(d: Dir, oldName: string, newName: string)
    requires Has(d, oldName)
    ensures Read(Renamed(d, oldName, newName), newName) == Read(d, oldName)
    ensures Has(Renamed(d, oldName, newName), oldName) <==> PasswordPath(newName) in FilesOf(oldName)
    ensures forall f :: f !in FilesOf(oldName) + FilesOf(newName) ==>
                          && (f in Renamed(d, oldName, newName) <==> f in d)
                          && (f in d ==> Renamed(d, oldName, newName)[f] == d[f])
  {
    PathsDiffer(oldName);
    PathsDiffer(newName);
  }

  /** After a rename, of all the files of the two names only the new one is left. */
  lemma RenameLeavesOneFile(d: Dir, oldName: string, newName: string)
    requires Has(d, oldName)
    ensures forall f :: f in FilesOf(oldName) + FilesOf(newName) && f in Renamed(d, oldName, newName) ==>
                          f == PasswordPath(newName)
  {
    PathsDiffer(oldName);
    PathsDiffer(newName);
  }

  /** TOTP entries have one file each: storing, removing and renaming act on the
      files of the names they are given, and an entry renamed to a name with its
      own file stays where it is. */
  lemma TotpOperations(d: Dir, name: string, newName: string, data: Bytes)
    ensures ReadTotp(StoredTotp(d, name, data), name) == Ok(data)
    ensures StoredTotp(d, name, data) - {TotpPath(name)} == d - {TotpPath(name)}
    ensures RemovedTotp(d, name) == d - {TotpPath(name)}
    ensures ResolveTotp(d, name).Some? ==>
              var after := RenamedTotp(d, name, newName);
              && ReadTotp(after, newName) == Ok(ReadTotp(d, name).value)
              && (ResolveTotp(after, name).Some? <==> TotpPath(newName) == TotpPath(name))
              && after - {TotpPath(name), TotpPath(newName)} == d - {TotpPath(name), TotpPath(newName)}
  {
    assert StoredTotp(d, name, data) - {TotpPath(name)} == d - {TotpPath(name)};
    assert ResolveTotp(d, name).None? ==> d - {TotpPath(name)} == d;
    if ResolveTotp(d, name).Some? {
      var files := {TotpPath(name), TotpPath(newName)};
      assert RenamedTotp(d, name, newName) - files == d - files;
    }
  }

  /** Renaming what is not there changes nothing. */
  lemma RenamingNothing(d: Dir, name: string, newName: string)
    ensures !Has(d, name) ==> Renamed(d, name, newName) == d
    ensures TotpPath(name) !in d ==> RenamedTotp(d, name, newName) == d
  {
  }

  /** Neither kind of operation is seen through the other. */
  lemma KindsApart(d: Dir, name: string, data: Bytes, other: string)
    ensures Read(StoredTotp(d, name, data), other) == Read(d, other)
    ensures Read(RemovedTotp(d, name), other) == Read(d, other)
    ensures ReadTotp(Stored(d, name, data), other) == ReadTotp(d, other)
    ensures ReadTotp(Removed(d, name), other) == ReadTotp(d, other)
  {
    KindsDiffer(name, Sanitized(other));
    KindsDiffer(name, Legacy(other));
    KindsDiffer(other, Sanitized(name));
    KindsDiffer(other, Legacy(name));
    RemoveThenHasNot(d, name);
  }

  lemma KindsDiffer(name: string, stem: string)
    ensures TotpPath(name) != FileName(stem, KEY)
  {
    if TotpPath(name) == FileName(stem, KEY) {
      FileNameInjective(Sanitized(name), TOTP, stem, KEY);
    }
  }

  /** An entry with a name of allowed characters is lost to the store of another
      name exactly when its file is that name's legacy file. */
  lemma StoreLosesEntry(d: Dir, name: string, data: Bytes, other: string)
    requires AllAllowed(other) && Has(d, other)
    ensures !Has(Stored(d, name, data), other) <==> LegacyPath(name) == Some(PasswordPath(other))
  {
    PathsDiffer(name);
    PathsDiffer(other);
  }

  /** A name made of allowed characters loses its entry to the store of exactly
      the names whose legacy form it is. */
  lemma LegacyPathIs(name: string, other: string)
    requires AllAllowed(other)
    ensures LegacyPath(name) == Some(PasswordPath(other)) <==> !AllAllowed(name) && Legacy(name) == other
  {
    PathsDiffer(name);
    AllowedStays(other);
    if LegacyPath(name) == Some(PasswordPath(other)) {
      FileNameInjective(Legacy(name), KEY, other, KEY);
    }
  }

  lemma StoreLosesEntryExample(d: Dir, data: Bytes)
    requires PasswordPath("a_b") in d
    ensures Has(d, "a_b") && !Has(Stored(d, "a/b", data), "a_b")
  {
    LegacyCollisionExample();
    LegacyPathIs("a/b", "a_b");
    assert !AllAllowed("a/b") by {
      assert !IsAllowed("a/b"[1]);
    }
    StoreLosesEntry(d, "a/b", data, "a_b");
  }
}
