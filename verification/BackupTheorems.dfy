/** What a restore leaves, and that it undoes a backup. */
module BackupTheorems {
  import opened Wrappers
  import opened Bytes
  import opened Filenames
  import opened Listing
  import opened KeyDirectory
  import opened Backup
  import MainKey
  import V = KeyVault
  import S = Settings

  // ---------------------------------------------------------------------
  // Failures.

  /** How far a restore got can be told from its error.  One that does not blame
      an entry has changed nothing.  One that blames an entry has already replaced
      the main key, but not the settings. */
  lemma RestoreOutcome(s: Store, parsed: Option<BackupFile>, force: bool, b64: Base64)
    ensures var (after, error) := Restored(s, parsed, force, b64);
            && (error.Some? && !error.value.BadEntry? ==> after == s)
            && (error.None? || error.value.BadEntry? ==>
                  && parsed.Some?
                  && b64.decode(parsed.value.mainKeyEncrypted).Some?
                  && after.top == s.top[MainKey.MAIN := b64.decode(parsed.value.mainKeyEncrypted).value])
            && (error.Some? ==> after.settings == s.settings)
    ensures !force && HasData(s) ==> Restored(s, parsed, force, b64).1 in {Some(AlreadyInitialized), Some(HasEntries)}
  {
    if parsed.Some? && Refusal(s, parsed, force, b64).None? {
      UnrefusedRestore(s, parsed.value, force, b64);
    }
  }

  predicate HasData(s: Store) {
    MainKey.MAIN in s.top || Stems(s.entries, KEY) != {} || Stems(s.entries, TOTP) != {}
  }

  /** Exactly when a restore changes nothing and why: without force, if there is a
      main key or any entry; else if the text is no backup; else if it has another
      version than 1; else if its main key cannot be decoded. */
  lemma RefusedIff(s: Store, parsed: Option<BackupFile>, force: bool, b64: Base64)
    ensures var (after, error) := Restored(s, parsed, force, b64);
            && (error == Some(AlreadyInitialized) <==> !force && MainKey.MAIN in s.top)
            && (error == Some(HasEntries) <==> !force && MainKey.MAIN !in s.top && HasData(s))
            && (error == Some(BadYaml) <==> (force || !HasData(s)) && parsed.None?)
            && (error.Some? && error.value.UnsupportedVersion? <==>
                  (force || !HasData(s)) && parsed.Some? && parsed.value.version != 1)
            && (error == Some(BadMainKey) <==>
                  && (force || !HasData(s)) && parsed.Some? && parsed.value.version == 1
                  && b64.decode(parsed.value.mainKeyEncrypted).None?)
            && (error.Some? && !error.value.BadEntry? ==> after == s)
  {
    if parsed.Some? && Refusal(s, parsed, force, b64).None? {
      UnrefusedRestore(s, parsed.value, force, b64);
    }
  }

  /** A backup of another version changes no store and is never accepted. */
  lemma OtherVersionIsRefused(s: Store, b: BackupFile, force: bool, b64: Base64)
    requires b.version != 1
    ensures Restored(s, Some(b), force, b64).0 == s
    ensures Restored(s, Some(b), force, b64).1.Some?
    ensures force || !HasData(s) ==> Restored(s, Some(b), force, b64).1 == Some(UnsupportedVersion(b.version))
  {
  }

  lemma UnrefusedRestore(s: Store, b: BackupFile, force: bool, b64: Base64)
    requires Refusal(s, Some(b), force, b64).None?
    ensures Restored(s, Some(b), force, b64).0.top == s.top[MainKey.MAIN := b64.decode(b.mainKeyEncrypted).value]
    ensures Restored(s, Some(b), force, b64).1.Some? ==>
              && Restored(s, Some(b), force, b64).1.value.BadEntry?
              && Restored(s, Some(b), force, b64).0.settings == s.settings
  {
    WriteErrors(s.entries, b.passwords, KEY, b64);
    WriteErrors(WriteEntries(s.entries, b.passwords, KEY, b64).0, b.totps, TOTP, b64);
  }

  /** A backup whose one entry does not decode. */
  function BrokenBackup(mainKey: string): BackupFile {
    BackupFile(1, mainKey, [Entry("a", ['\U{100}'])], [], S.DEFAULT)
  }

  /** Such a restore exists, for every store: it fails and has replaced the main key. */
  lemma FailedRestoreReplacesMainKey(s: Store, mainKey: Bytes)
    ensures Lawful(Base64Functions(AsChars, FromChars))
    ensures Restored(s, Some(BrokenBackup(AsChars(mainKey))), true, Base64Functions(AsChars, FromChars)) ==
            (s.(top := s.top[MainKey.MAIN := mainKey]), Some(BadEntry("a")))
  {
    CharsLawful();
    var b64: Base64 := Base64Functions(AsChars, FromChars);
    var b := BrokenBackup(AsChars(mainKey));
    assert b64.decode(b64.encode(mainKey)) == Some(mainKey);
    BadCharacter();
    FirstEntryBad(s.entries, b.passwords[0], KEY, b64);
  }

  lemma BadCharacter()
    ensures FromChars(['\U{100}']) == None
  {
    assert !(['\U{100}'][0] < '\U{100}');
  }

  lemma FirstEntryBad(d: Dir, entry: Entry, extension: string, b64: Base64)
    requires b64.decode(entry.encrypted).None?
    ensures WriteEntries(d, [entry], extension, b64) == (d, Some(BadEntry(entry.name)))
  {
    assert [entry][..0] == [];
    assert WriteEntries(d, [entry][..0], extension, b64) == (d, None);
  }

  predicate Decodable(entries: seq<Entry>, b64: Base64) {
    forall i :: 0 <= i < |entries| ==> b64.decode(entries[i].encrypted).Some?
  }

  lemma {:induction false} WriteErrors(d: Dir, entries: seq<Entry>, extension: string, b64: Base64)
    ensures WriteEntries(d, entries, extension, b64).1.None? <==> Decodable(entries, b64)
    ensures WriteEntries(d, entries, extension, b64).1.Some? ==> WriteEntries(d, entries, extension, b64).1.value.BadEntry?
  {
    if entries != [] {
      WriteErrors(d, entries[..|entries| - 1], extension, b64);
    }
  }

  // ---------------------------------------------------------------------
  // A successful restore, file by file.

  /** The contents that the last entry for `file` gives it. */
  function LastFor(entries: seq<Entry>, file: string, extension: string, b64: Base64): Option<Bytes> {
    if entries == [] then None
    else
      var last := entries[|entries| - 1];
      if FileName(Sanitized(last.name), extension) == file then b64.decode(last.encrypted)
      else LastFor(entries[..|entries| - 1], file, extension, b64)
  }

  /** What `file` holds after `d` is overridden by entries. */
  function Overridden(d: Dir, entries: seq<Entry>, file: string, extension: string, b64: Base64): Option<Bytes> {
    var last := LastFor(entries, file, extension, b64);
    if last.Some? then last else if file in d then Some(d[file]) else None
  }

  predicate Holds(d: Dir, file: string, content: Option<Bytes>) {
    if content.Some? then file in d && d[file] == content.value else file !in d
  }

  lemma {:induction false} WrittenFile(d: Dir, entries: seq<Entry>, extension: string, b64: Base64, file: string)
    requires Decodable(entries, b64)
    ensures Holds(WriteEntries(d, entries, extension, b64).0, file, Overridden(d, entries, file, extension, b64))
  {
    WriteErrors(d, entries, extension, b64);
    if entries != [] {
      var before := entries[..|entries| - 1];
      assert Decodable(before, b64);
      WriteErrors(d, before, extension, b64);
      WrittenFile(d, before, extension, b64, file);
    }
  }

  lemma {:induction false} LastForOther(entries: seq<Entry>, file: string, stem: string, e: string, f: string, b64: Base64)
    requires IsExtension(e) && IsExtension(f) && e != f && file == FileName(stem, e)
    ensures LastFor(entries, file, f, b64) == None
  {
    if entries != [] {
      var last := entries[|entries| - 1];
      if FileName(Sanitized(last.name), f) == file {
        FileNameInjective(Sanitized(last.name), f, stem, e);
      }
      LastForOther(entries[..|entries| - 1], file, stem, e, f, b64);
    }
  }

  /** A restore that is not refused succeeds exactly when all its entries decode.
      Then every file holds what the last backup entry for it says, or what it
      held before. */
  lemma RestoreOverrides(s: Store, b: BackupFile, force: bool, b64: Base64, file: string)
    requires Refusal(s, Some(b), force, b64).None?
    ensures Restored(s, Some(b), force, b64).1.None? <==> Decodable(b.passwords, b64) && Decodable(b.totps, b64)
    ensures var (after, error) := Restored(s, Some(b), force, b64);
            error.None? ==>
              && after.settings == Some(S.Printed(b.settings))
              && var (p, t) := (LastFor(b.passwords, file, KEY, b64), LastFor(b.totps, file, TOTP, b64));
                 && (p.None? || t.None?)
                 && Holds(after.entries, file,
                          if t.Some? then t else if p.Some? then p else if file in s.entries then Some(s.entries[file]) else None)
  {
    var passwords := WriteEntries(s.entries, b.passwords, KEY, b64).0;
    WriteErrors(s.entries, b.passwords, KEY, b64);
    WriteErrors(passwords, b.totps, TOTP, b64);
    if Decodable(b.passwords, b64) && Decodable(b.totps, b64) {
      WrittenFile(s.entries, b.passwords, KEY, b64, file);
      WrittenFile(passwords, b.totps, TOTP, b64, file);
      NotBoth(b.passwords, b.totps, file, b64);
    }
  }

  /** Entries up to the first that does not decode are written, and it is blamed. */
  lemma FirstBadEntry(d: Dir, entries: seq<Entry>, i: nat, extension: string, b64: Base64)
    requires i < |entries| && Decodable(entries[..i], b64) && b64.decode(entries[i].encrypted).None?
    ensures WriteEntries(d, entries, extension, b64) ==
            (WriteEntries(d, entries[..i], extension, b64).0, Some(BadEntry(entries[i].name)))
  {
    assert entries[..i + 1][..i] == entries[..i];
    WriteErrors(d, entries[..i], extension, b64);
    WriteErrorStays(d, entries, i + 1, extension, b64);
  }

  /** A restore that fails at its password entry `i` has written the password
      entries before it and nothing else of the entries. */
  lemma FailsAtPassword(s: Store, b: BackupFile, force: bool, b64: Base64, i: nat, file: string)
    requires Refusal(s, Some(b), force, b64).None?
    requires i < |b.passwords| && Decodable(b.passwords[..i], b64) && b64.decode(b.passwords[i].encrypted).None?
    ensures Restored(s, Some(b), force, b64).1 == Some(BadEntry(b.passwords[i].name))
    ensures Holds(Restored(s, Some(b), force, b64).0.entries, file, Overridden(s.entries, b.passwords[..i], file, KEY, b64))
  {
    FirstBadEntry(s.entries, b.passwords, i, KEY, b64);
    WrittenFile(s.entries, b.passwords[..i], KEY, b64, file);
  }

  /** One that fails at its TOTP entry `i` has written all password entries and the
      TOTP entries before it. */
  lemma FailsAtTotp(s: Store, b: BackupFile, force: bool, b64: Base64, i: nat, file: string)
    requires Refusal(s, Some(b), force, b64).None? && Decodable(b.passwords, b64)
    requires i < |b.totps| && Decodable(b.totps[..i], b64) && b64.decode(b.totps[i].encrypted).None?
    ensures Restored(s, Some(b), force, b64).1 == Some(BadEntry(b.totps[i].name))
    ensures var (p, t) := (LastFor(b.passwords, file, KEY, b64), LastFor(b.totps[..i], file, TOTP, b64));
            Holds(Restored(s, Some(b), force, b64).0.entries, file,
                  if t.Some? then t else if p.Some? then p else if file in s.entries then Some(s.entries[file]) else None)
  {
    var passwords := WriteEntries(s.entries, b.passwords, KEY, b64).0;
    WriteErrors(s.entries, b.passwords, KEY, b64);
    FirstBadEntry(passwords, b.totps, i, TOTP, b64);
    WrittenFile(s.entries, b.passwords, KEY, b64, file);
    WrittenFile(passwords, b.totps[..i], TOTP, b64, file);
  }

  lemma {:induction false} LastForNamed(entries: seq<Entry>, file: string, extension: string, b64: Base64) returns (stem: string)
    requires LastFor(entries, file, extension, b64).Some?
    ensures file == FileName(stem, extension)
  {
    var last := entries[|entries| - 1];
    if FileName(Sanitized(last.name), extension) == file {
      stem := Sanitized(last.name);
    } else {
      stem := LastForNamed(entries[..|entries| - 1], file, extension, b64);
    }
  }

  lemma NotBoth(passwords: seq<Entry>, totps: seq<Entry>, file: string, b64: Base64)
    ensures LastFor(passwords, file, KEY, b64).None? || LastFor(totps, file, TOTP, b64).None?
  {
    if LastFor(passwords, file, KEY, b64).Some? {
      var stem := LastForNamed(passwords, file, KEY, b64);
      LastForOther(totps, file, stem, KEY, TOTP, b64);
    }
  }

  // ---------------------------------------------------------------------
  // The round trip.

  /** A file of either kind whose stem is an encoded name. */
  predicate OwnFile(file: string) {
    (IsFile(file, KEY) || IsFile(file, TOTP)) && AllAllowed(Stem(file))
  }

  predicate OwnFiles(d: Dir) {
    forall file <- d :: OwnFile(file)
  }

  lemma OwnFileName(stem: string, extension: string)
    requires IsExtension(extension) && stem != []
    ensures OwnFile(FileName(stem, extension)) <==> AllAllowed(stem)
  {
    SplitFileName(stem, extension);
  }

  /** In a directory of own files every stem is read from its own file. */
  lemma OwnFileReads(d: Dir, stem: string, extension: string)
    requires OwnFiles(d) && IsExtension(extension)
    requires stem in Stems(d, extension)
    ensures AllAllowed(stem) && FileName(stem, extension) in d
    ensures ReadEntry(d, extension, stem) == Ok(d[FileName(stem, extension)])
  {
    StemsAre(d, stem, extension);
    OwnFileName(stem, extension);
    AllowedStays(stem);
  }

  /** So an initialised store of own files can always be backed up. */
  lemma OwnFilesAllReadable(d: Dir)
    requires OwnFiles(d)
    ensures AllReadable(d, KEY) && AllReadable(d, TOTP)
  {
    forall name | name in Stems(d, KEY) ensures ReadEntry(d, KEY, name).Ok? {
      OwnFileReads(d, name, KEY);
    }
    forall name | name in Stems(d, TOTP) ensures ReadEntry(d, TOTP, name).Ok? {
      OwnFileReads(d, name, TOTP);
    }
  }

  lemma ListedStem(entries: seq<Entry>, d: Dir, extension: string, b64: Base64, i: nat)
    requires IsExtension(extension) && IsListing(entries, d, extension, b64) && i < |entries|
    ensures entries[i].name in Stems(d, extension) && entries[i].name != []
    ensures Copies(entries[i], d, extension, b64)
  {
    assert NamesOf(entries)[i] in NamesOf(entries);
    StemsAre(d, entries[i].name, extension);
  }

  /** There is only one backup of a store. */
  lemma BackupUnique(b: BackupFile, other: BackupFile, s: Store, settings: S.Settings, b64: Base64)
    requires IsBackup(b, s, settings, b64) && IsBackup(other, s, settings, b64)
    ensures b == other
  {
    ListingUnique(b.passwords, other.passwords, s.entries, KEY, b64);
    ListingUnique(b.totps, other.totps, s.entries, TOTP, b64);
  }

  lemma ListingUnique(entries: seq<Entry>, other: seq<Entry>, d: Dir, extension: string, b64: Base64)
    requires IsListing(entries, d, extension, b64) && IsListing(other, d, extension, b64)
    ensures entries == other
  {
    ListsUnique(NamesOf(entries), NamesOf(other), Stems(d, extension));
    assert |NamesOf(entries)| == |NamesOf(other)|;
    forall i | 0 <= i < |entries| ensures entries[i] == other[i] {
      assert NamesOf(entries)[i] == NamesOf(other)[i];
      assert Copies(entries[i], d, extension, b64) && Copies(other[i], d, extension, b64);
    }
  }

  lemma ListingDecodes(entries: seq<Entry>, d: Dir, extension: string, b64: Base64)
    requires AllCopy(entries, d, extension, b64)
    ensures Decodable(entries, b64)
  {
    forall i | 0 <= i < |entries| ensures b64.decode(entries[i].encrypted).Some? {
      assert Copies(entries[i], d, extension, b64);
    }
  }

  /** The entry is that of an own file of `d`. */
  predicate Mirrors(entry: Entry, d: Dir, extension: string, b64: Base64) {
    && AllAllowed(entry.name)
    && FileName(entry.name, extension) in d
    && entry.encrypted == b64.encode(d[FileName(entry.name, extension)])
  }

  lemma {:induction false} MirroredFile(entries: seq<Entry>, d: Dir, extension: string, b64: Base64, file: string)
    requires forall i :: 0 <= i < |entries| ==> Mirrors(entries[i], d, extension, b64)
    ensures LastFor(entries, file, extension, b64).Some? ==>
              file in d && LastFor(entries, file, extension, b64) == Some(d[file])
    ensures forall i :: 0 <= i < |entries| && FileName(entries[i].name, extension) == file ==>
                          LastFor(entries, file, extension, b64).Some?
  {
    if entries != [] {
      var before, last := entries[..|entries| - 1], entries[|entries| - 1];
      assert Mirrors(last, d, extension, b64);
      AllowedStays(last.name);
      MirroredFile(before, d, extension, b64, file);
      forall i | 0 <= i < |entries| && FileName(entries[i].name, extension) == file
        ensures LastFor(entries, file, extension, b64).Some?
      {
        if i < |entries| - 1 {
          assert before[i] == entries[i];
        }
      }
    }
  }

  /** In a listing of own files, the last entry for a file holds its contents. */
  lemma ListingMirrors(entries: seq<Entry>, d: Dir, extension: string, b64: Base64, file: string)
    requires IsExtension(extension) && OwnFiles(d) && IsListing(entries, d, extension, b64)
    ensures LastFor(entries, file, extension, b64) ==
            if file in d && IsFile(file, extension) then Some(d[file]) else None
  {
    forall i | 0 <= i < |entries| ensures Mirrors(entries[i], d, extension, b64) {
      ListedStem(entries, d, extension, b64, i);
      OwnFileReads(d, entries[i].name, extension);
    }
    MirroredFile(entries, d, extension, b64, file);
    if LastFor(entries, file, extension, b64).Some? {
      var i := LastForAt(entries, file, extension, b64);
      ListedStem(entries, d, extension, b64, i);
      AllowedStays(entries[i].name);
      SplitFileName(entries[i].name, extension);
    }
    if file in d && IsFile(file, extension) {
      JoinedFileName(file, extension);
      assert Stem(file) in NamesOf(entries);
      var i :| 0 <= i < |entries| && NamesOf(entries)[i] == Stem(file);
      assert FileName(entries[i].name, extension) == file;
    }
  }

  lemma {:induction false} LastForAt(entries: seq<Entry>, file: string, extension: string, b64: Base64) returns (i: nat)
    requires LastFor(entries, file, extension, b64).Some?
    ensures i < |entries| && file == FileName(Sanitized(entries[i].name), extension)
  {
    var last := entries[|entries| - 1];
    if FileName(Sanitized(last.name), extension) == file {
      i := |entries| - 1;
    } else {
      i := LastForAt(entries[..|entries| - 1], file, extension, b64);
    }
  }

  /** What a restore into an empty store makes of one file. */
  lemma RestoredFile(s: Store, b: BackupFile, settings: S.Settings, force: bool, b64: Base64, file: string)
    requires IsBackup(b, s, settings, b64)
    ensures var (after, error) := Restored(EMPTY_STORE, Some(b), force, b64);
            && error == None
            && after.top == map[MainKey.MAIN := s.top[MainKey.MAIN]]
            && after.settings == Some(S.Printed(settings))
            && (OwnFiles(s.entries) ==>
                  Holds(after.entries, file, if file in s.entries then Some(s.entries[file]) else None))
            && (file in after.entries ==> OwnFile(file))
  {
    ListingDecodes(b.passwords, s.entries, KEY, b64);
    ListingDecodes(b.totps, s.entries, TOTP, b64);
    RestoreOverrides(EMPTY_STORE, b, force, b64, file);
    UnrefusedRestore(EMPTY_STORE, b, force, b64);
    if OwnFiles(s.entries) {
      ListingMirrors(b.passwords, s.entries, KEY, b64, file);
      ListingMirrors(b.totps, s.entries, TOTP, b64, file);
      assert file in s.entries ==> OwnFile(file);
    }
    if LastFor(b.passwords, file, KEY, b64).Some? {
      ListedFileIsOwn(b.passwords, s.entries, KEY, b64, file);
    }
    if LastFor(b.totps, file, TOTP, b64).Some? {
      ListedFileIsOwn(b.totps, s.entries, TOTP, b64, file);
    }
  }

  lemma ListedFileIsOwn(entries: seq<Entry>, d: Dir, extension: string, b64: Base64, file: string)
    requires IsExtension(extension) && IsListing(entries, d, extension, b64)
    requires LastFor(entries, file, extension, b64).Some?
    ensures OwnFile(file)
  {
    var i := LastForAt(entries, file, extension, b64);
    ListedStem(entries, d, extension, b64, i);
    SanitizedAllowed(entries[i].name);
    SanitizedLength(entries[i].name);
    OwnFileName(Sanitized(entries[i].name), extension);
  }

  /** Restoring a store's backup into an empty store succeeds and brings back the
      main key file and the settings; it brings back all the entries, and no
      others, exactly when the names of the store's files are all encoded ones. */
  lemma BackupRoundTrip(s: Store, b: BackupFile, settings: S.Settings, force: bool, b64: Base64)
    requires IsBackup(b, s, settings, b64)
    ensures var (after, error) := Restored(EMPTY_STORE, Some(b), force, b64);
            && error == None
            && after.top == map[MainKey.MAIN := s.top[MainKey.MAIN]]
            && (S.Loaded(after.settings) == settings <==> S.InDomain(settings))
            && (after.entries == s.entries <==> OwnFiles(s.entries))
  {
    var after := Restored(EMPTY_STORE, Some(b), force, b64).0;
    S.SaveLoadRoundTrip(settings);
    RestoredFile(s, b, settings, force, b64, "");
    forall file
      ensures OwnFiles(s.entries) ==>
                Holds(after.entries, file, if file in s.entries then Some(s.entries[file]) else None)
      ensures file in after.entries ==> OwnFile(file)
    {
      RestoredFile(s, b, settings, force, b64, file);
    }
    assert OwnFiles(after.entries);
    if OwnFiles(s.entries) {
      assert after.entries.Keys == s.entries.Keys;
    }
  }

  /** And the same password opens the same main key. */
  lemma BackupKeepsMainKey(s: Store, b: BackupFile, settings: S.Settings, force: bool, b64: Base64, c: MainKey.Aead, password: string)
    requires IsBackup(b, s, settings, b64)
    ensures MainKey.Opened(c, password, Restored(EMPTY_STORE, Some(b), force, b64).0.top) == MainKey.Opened(c, password, s.top)
  {
    BackupRoundTrip(s, b, settings, force, b64);
  }

  // ---------------------------------------------------------------------
  // Which stores have only own files.

  lemma NamedFileIsOwn(name: string, extension: string)
    requires IsExtension(extension) && name != []
    ensures OwnFile(FileName(Sanitized(name), extension))
  {
    SanitizedAllowed(name);
    SanitizedLength(name);
    OwnFileName(Sanitized(name), extension);
  }

  /** An operation that names no empty entry. */
  predicate Named(op: V.Op) {
    match op
    case ListPasswords => true
    case ListTotps => true
    case RenamePassword(name, newName) => name != [] && newName != []
    case RenameTotp(name, newName) => name != [] && newName != []
    case _ => op.name != []
  }

  lemma AddsNamedFile(d: Dir, after: Dir, name: string, extension: string)
    requires OwnFiles(d) && IsExtension(extension) && name != []
    requires after.Keys <= d.Keys + {FileName(Sanitized(name), extension)}
    ensures OwnFiles(after)
  {
    NamedFileIsOwn(name, extension);
    forall file | file in after ensures OwnFile(file) {
      assert file in d.Keys + {FileName(Sanitized(name), extension)};
    }
  }

  lemma DropsFiles(d: Dir, after: Dir)
    requires OwnFiles(d) && after.Keys <= d.Keys
    ensures OwnFiles(after)
  {
    forall file | file in after ensures OwnFile(file) {
      assert file in d.Keys;
    }
  }

  lemma RenameAddsOneFile(d: Dir, name: string, newName: string)
    ensures Renamed(d, name, newName).Keys <= d.Keys + {PasswordPath(newName)}
    ensures RenamedTotp(d, name, newName).Keys <= d.Keys + {TotpPath(newName)}
  {
  }

  lemma StepKeepsOwnFiles(d: Dir, op: V.Op)
    requires OwnFiles(d) && Named(op)
    ensures OwnFiles(V.DirStep(d, op).0)
  {
    match op
    case StorePassword(name, data) => AddsNamedFile(d, Stored(d, name, data), name, KEY);
    case StoreTotp(name, data) => AddsNamedFile(d, StoredTotp(d, name, data), name, TOTP);
    case RemovePassword(name) => DropsFiles(d, Removed(d, name));
    case RemoveTotp(name) => DropsFiles(d, RemovedTotp(d, name));
    case RenamePassword(name, newName) =>
      RenameAddsOneFile(d, name, newName);
      AddsNamedFile(d, Renamed(d, name, newName), newName, KEY);
    case RenameTotp(name, newName) =>
      RenameAddsOneFile(d, name, newName);
      AddsNamedFile(d, RenamedTotp(d, name, newName), newName, TOTP);
    case _ =>
  }

  /** Whatever operations on non-empty names, of any characters, have built up a
      directory from nothing: its backup brings it back. */
  lemma {:induction false} RunKeepsOwnFiles(ops: seq<V.Op>)
    requires forall op <- ops :: Named(op)
    ensures OwnFiles(V.DirRun(map[], ops).0)
  {
    if ops != [] {
      var before, last := ops[..|ops| - 1], ops[|ops| - 1];
      assert last in ops && forall op <- before :: op in ops;
      RunKeepsOwnFiles(before);
      StepKeepsOwnFiles(V.DirRun(map[], before).0, last);
    }
  }

  /** For every such run: the store can be backed up once it has a main key, and
      restoring the backup into an empty store brings back every entry. */
  lemma RunThenBackupRoundTrip(ops: seq<V.Op>, top: Dir, stored: Option<string>, b: BackupFile, settings: S.Settings, force: bool, b64: Base64)
    requires forall op <- ops :: Named(op)
    ensures var d := V.DirRun(map[], ops).0;
            && AllReadable(d, KEY) && AllReadable(d, TOTP)
            && (IsBackup(b, Store(top, d, stored), settings, b64) ==>
                  Restored(EMPTY_STORE, Some(b), force, b64)
                  == (Store(map[MainKey.MAIN := top[MainKey.MAIN]], d, Some(S.Printed(settings))), None))
  {
    var s := Store(top, V.DirRun(map[], ops).0, stored);
    RunKeepsOwnFiles(ops);
    OwnFilesAllReadable(s.entries);
    if IsBackup(b, s, settings, b64) {
      BackupRoundTrip(s, b, settings, force, b64);
      RestoredFile(s, b, settings, force, b64, "");
    }
  }
}
