/** Backup and restore of the whole store (src/backup.rs).  The YAML text is the
    value it spells; base64 is a pair of functions known by its law. */
module Backup {
  import opened Wrappers
  import opened Bytes
  import opened Filenames
  import opened Listing
  import opened KeyDirectory
  import MainKey
  import S = Settings
  import K = Keystore

  datatype Base64Functions = Base64Functions(encode: Bytes -> string, decode: string -> Option<Bytes>)

  ghost predicate Lawful(b: Base64Functions) {
    forall x :: b.decode(b.encode(x)) == Some(x)
  }

  function AsChars(x: Bytes): string {
    seq(|x|, i requires 0 <= i < |x| => x[i] as char)
  }

  function FromChars(s: string): Option<Bytes> {
    if forall i :: 0 <= i < |s| ==> s[i] < '\U{100}' then
      Some(seq(|s|, i requires 0 <= i < |s| => s[i] as int))
    else None
  }

  lemma CharsLawful()
    ensures Lawful(Base64Functions(AsChars, FromChars))
  {
    forall x: Bytes ensures FromChars(AsChars(x)) == Some(x) {
      assert FromChars(AsChars(x)).value == x;
    }
  }

  type Base64 = b: Base64Functions | Lawful(b)
    ghost witness (CharsLawful(); Base64Functions(AsChars, FromChars))

  datatype Entry = Entry(name: string, encrypted: string)

  datatype BackupFile = BackupFile(
    version: nat,
    mainKeyEncrypted: string,
    passwords: seq<Entry>,
    totps: seq<Entry>,
    settings: S.Settings)

  /** All that is on disk. */
  datatype Store = Store(top: Dir, entries: Dir, settings: Option<string>)

  const EMPTY_STORE := Store(map[], map[], None)

  function StoreOf(keystore: K.Keystore): Store
    reads keystore
  {
    Store(keystore.top, keystore.entries, keystore.settings)
  }

  datatype Error =
    | NoMainKey
    | Unreadable(entry: KeyDirectory.Error)
    | AlreadyInitialized
    | HasEntries
    | BadYaml
    | UnsupportedVersion(version: nat)
    | BadMainKey
    | BadEntry(name: string)

  // ---------------------------------------------------------------------
  // Backup.

  /** What reading an entry of one kind yields. */
  function ReadEntry(d: Dir, extension: string, name: string): Result<Bytes, KeyDirectory.Error> {
    if extension == KEY then Read(d, name) else ReadTotp(d, name)
  }

  function NamesOf(entries: seq<Entry>): (names: seq<string>)
    ensures |names| == |entries|
    ensures forall i :: 0 <= i < |names| ==> names[i] == entries[i].name
  {
    seq(|entries|, i requires 0 <= i < |entries| => entries[i].name)
  }

  /** The entry holds what reading its name yields. */
  predicate Copies(entry: Entry, d: Dir, extension: string, b64: Base64) {
    var r := ReadEntry(d, extension, entry.name);
    r.Ok? && entry.encrypted == b64.encode(r.value)
  }

  predicate AllCopy(entries: seq<Entry>, d: Dir, extension: string, b64: Base64) {
    forall i :: 0 <= i < |entries| ==> Copies(entries[i], d, extension, b64)
  }

  /** `entries` are the stems of one kind, in order, each with what it yields. */
  ghost predicate IsListing(entries: seq<Entry>, d: Dir, extension: string, b64: Base64) {
    Lists(NamesOf(entries), Stems(d, extension)) && AllCopy(entries, d, extension, b64)
  }

  /** `b` is a backup of the store with these settings. */
  ghost predicate IsBackup(b: BackupFile, s: Store, settings: S.Settings, b64: Base64) {
    && b.version == 1
    && MainKey.MAIN in s.top && b.mainKeyEncrypted == b64.encode(s.top[MainKey.MAIN])
    && IsListing(b.passwords, s.entries, KEY, b64)
    && IsListing(b.totps, s.entries, TOTP, b64)
    && b.settings == settings
  }

  /** A stem that is not an encoded name may not be readable under itself. */
  ghost predicate AllReadable(d: Dir, extension: string) {
    forall name <- Stems(d, extension) :: ReadEntry(d, extension, name).Ok?
  }

  lemma ListedAreRead(entries: seq<Entry>, d: Dir, extension: string, b64: Base64)
    requires IsListing(entries, d, extension, b64)
    ensures AllReadable(d, extension)
  {
    var names := NamesOf(entries);
    forall name <- Stems(d, extension) ensures ReadEntry(d, extension, name).Ok? {
      assert name in names;
      var i :| 0 <= i < |names| && names[i] == name;
      assert Copies(entries[i], d, extension, b64);
    }
  }

  /** The two loops of `backup_to_string`, one for each kind. */
  method BackupEntries(keystore: K.Keystore, extension: string, b64: Base64) returns (r: Result<seq<Entry>, Error>)
    requires IsExtension(extension)
    ensures r.Ok? <==> AllReadable(keystore.entries, extension)
    ensures r.Ok? ==> IsListing(r.value, keystore.entries, extension, b64)
  {
    var names := keystore.ListFiles(extension);
    var entries: seq<Entry> := [];
    for i := 0 to |names|
      invariant NamesOf(entries) == names[..i]
      invariant AllCopy(entries, keystore.entries, extension, b64)
    {
      var ciphertext;
      if extension == KEY {
        ciphertext := keystore.ReadPasswordCiphertext(names[i]);
      } else {
        ciphertext := keystore.ReadTotpCiphertext(names[i]);
      }
      if ciphertext.Err? {
        assert names[i] in names;
        return Err(Unreadable(ciphertext.error));
      }
      var entry := Entry(names[i], b64.encode(ciphertext.value));
      assert Copies(entry, keystore.entries, extension, b64);
      entries := entries + [entry];
    }
    ListedAreRead(entries, keystore.entries, extension, b64);
    return Ok(entries);
  }

  /** `backup_to_string`. */
  method BackupToFile(keystore: K.Keystore, settings: S.Settings, b64: Base64) returns (r: Result<BackupFile, Error>)
    ensures r.Ok? <==>
              && MainKey.MAIN in keystore.top
              && AllReadable(keystore.entries, KEY)
              && AllReadable(keystore.entries, TOTP)
    ensures r.Ok? ==> IsBackup(r.value, StoreOf(keystore), settings, b64)
  {
    if MainKey.MAIN !in keystore.top {
      return Err(NoMainKey);
    }
    var mainKey := b64.encode(keystore.top[MainKey.MAIN]);
    var passwords := BackupEntries(keystore, KEY, b64);
    if passwords.Err? {
      return Err(passwords.error);
    }
    var totps := BackupEntries(keystore, TOTP, b64);
    if totps.Err? {
      return Err(totps.error);
    }
    return Ok(BackupFile(1, mainKey, passwords.value, totps.value, settings));
  }

  // ---------------------------------------------------------------------
  // Restore.

  /** Entries written one after the other, up to the first that cannot be decoded. */
  function WriteEntries(d: Dir, entries: seq<Entry>, extension: string, b64: Base64): (Dir, Option<Error>) {
    if entries == [] then (d, None)
    else
      var before := WriteEntries(d, entries[..|entries| - 1], extension, b64);
      var last := entries[|entries| - 1];
      var data := b64.decode(last.encrypted);
      if before.1.Some? then before
      else if data.None? then (before.0, Some(BadEntry(last.name)))
      else (before.0[FileName(Sanitized(last.name), extension) := data.value], None)
  }

  /** Why a restore is refused before it writes anything. */
  function Refusal(s: Store, parsed: Option<BackupFile>, force: bool, b64: Base64): Option<Error> {
    if !force && MainKey.MAIN in s.top then Some(AlreadyInitialized)
    else if !force && (Stems(s.entries, KEY) != {} || Stems(s.entries, TOTP) != {}) then Some(HasEntries)
    else if parsed.None? then Some(BadYaml)
    else if parsed.value.version != 1 then Some(UnsupportedVersion(parsed.value.version))
    else if b64.decode(parsed.value.mainKeyEncrypted).None? then Some(BadMainKey)
    else None
  }

  /** The store and the error, if any, after a restore. */
  function Restored(s: Store, parsed: Option<BackupFile>, force: bool, b64: Base64): (Store, Option<Error>) {
    var refusal := Refusal(s, parsed, force, b64);
    if refusal.Some? then (s, refusal)
    else
      var b := parsed.value;
      var top := s.top[MainKey.MAIN := b64.decode(b.mainKeyEncrypted).value];
      var passwords := WriteEntries(s.entries, b.passwords, KEY, b64);
      if passwords.1.Some? then (Store(top, passwords.0, s.settings), passwords.1)
      else
        var totps := WriteEntries(passwords.0, b.totps, TOTP, b64);
        if totps.1.Some? then (Store(top, totps.0, s.settings), totps.1)
        else (Store(top, totps.0, Some(S.Printed(b.settings))), None)
  }

  lemma {:induction false} WriteErrorStays(d: Dir, entries: seq<Entry>, n: nat, extension: string, b64: Base64)
    requires n <= |entries| && WriteEntries(d, entries[..n], extension, b64).1.Some?
    ensures WriteEntries(d, entries, extension, b64) == WriteEntries(d, entries[..n], extension, b64)
    decreases |entries|
  {
    if n == |entries| {
      assert entries[..n] == entries;
    } else {
      var before := entries[..|entries| - 1];
      assert before[..n] == entries[..n];
      WriteErrorStays(d, before, n, extension, b64);
    }
  }

  method WriteFiles(keystore: K.Keystore, entries: seq<Entry>, extension: string, b64: Base64) returns (error: Option<Error>)
    modifies keystore`entries
    ensures (keystore.entries, error) == WriteEntries(old(keystore.entries), entries, extension, b64)
  {
    for i := 0 to |entries|
      invariant (keystore.entries, None) == WriteEntries(old(keystore.entries), entries[..i], extension, b64)
    {
      var entry := entries[i];
      assert entries[..i + 1][..i] == entries[..i];
      var ciphertext := b64.decode(entry.encrypted);
      if ciphertext.None? {
        WriteErrorStays(old(keystore.entries), entries, i + 1, extension, b64);
        return Some(BadEntry(entry.name));
      }
      var stem := SanitizeFilename(entry.name);
      keystore.entries := keystore.entries[FileName(stem, extension) := ciphertext.value];
    }
    assert entries[..|entries|] == entries;
    return None;
  }

  /** `restore_from_str`. */
  method RestoreFromFile(keystore: K.Keystore, parsed: Option<BackupFile>, force: bool, b64: Base64)
    returns (error: Option<Error>)
    modifies keystore
    ensures (StoreOf(keystore), error) == Restored(old(StoreOf(keystore)), parsed, force, b64)
  {
    if !force {
      if MainKey.MAIN in keystore.top {
        return Some(AlreadyInitialized);
      }
      var passwords := keystore.ListPasswords();
      var totps := keystore.ListTotps();
      EmptyListing(passwords, Stems(keystore.entries, KEY));
      EmptyListing(totps, Stems(keystore.entries, TOTP));
      if passwords != [] || totps != [] {
        return Some(HasEntries);
      }
    }
    if parsed.None? {
      return Some(BadYaml);
    }
    var backup := parsed.value;
    if backup.version != 1 {
      return Some(UnsupportedVersion(backup.version));
    }
    var mainKey := b64.decode(backup.mainKeyEncrypted);
    if mainKey.None? {
      return Some(BadMainKey);
    }
    keystore.top := keystore.top[MainKey.MAIN := mainKey.value];
    error := WriteFiles(keystore, backup.passwords, KEY, b64);
    if error.Some? {
      return;
    }
    error := WriteFiles(keystore, backup.totps, TOTP, b64);
    if error.Some? {
      return;
    }
    keystore.settings := Some(S.Printed(backup.settings));
  }

  lemma EmptyListing(names: seq<string>, stems: set<string>)
    requires Lists(names, stems)
    ensures names == [] <==> stems == {}
  {
    if names != [] {
      assert names[0] in stems;
    }
  }
}
