/** On names of allowed characters the directory is a plain map from names to
    contents, one for passwords and one for TOTP entries. */
module KeyVault {
  import opened Wrappers
  import opened Bytes
  import opened Filenames
  import opened Listing
  import opened KeyDirectory

  type Entries = map<string, Bytes>

  datatype Vault = Vault(passwords: Entries, totps: Entries)

  predicate GoodName(name: string) {
    name != [] && AllAllowed(name)
  }

  /** The entries that a directory holds, by the stems of its files. */
  function EntriesOf(d: Dir, extension: string): (m: Entries)
    requires IsExtension(extension)
    ensures forall stem :: stem in m <==> stem != [] && FileName(stem, extension) in d
    ensures forall stem :: stem in m ==> m[stem] == d[FileName(stem, extension)]
  {
    assert forall stem :: stem in Stems(d, extension) <==> stem != [] && FileName(stem, extension) in d by {
      forall stem ensures stem in Stems(d, extension) <==> stem != [] && FileName(stem, extension) in d {
        StemsAre(d, stem, extension);
      }
    }
    map stem | stem in Stems(d, extension) :: d[FileName(stem, extension)]
  }

  function VaultOf(d: Dir): Vault {
    Vault(EntriesOf(d, KEY), EntriesOf(d, TOTP))
  }

  // ---------------------------------------------------------------------
  // One operation, on the directory and on the vault.

  datatype Op =
    | StorePassword(name: string, data: Bytes)
    | ReadPassword(name: string)
    | RemovePassword(name: string)
    | RenamePassword(name: string, newName: string)
    | ListPasswords
    | StoreTotp(name: string, data: Bytes)
    | ReadTotpEntry(name: string)
    | RemoveTotp(name: string)
    | RenameTotp(name: string, newName: string)
    | ListTotps

  datatype Reply = Done | Data(data: Bytes) | NotFound | Names(names: seq<string>)

  predicate GoodOp(op: Op) {
    match op
    case StorePassword(name, _) => GoodName(name)
    case ReadPassword(name) => GoodName(name)
    case RemovePassword(name) => GoodName(name)
    case RenamePassword(name, newName) => GoodName(name) && GoodName(newName)
    case StoreTotp(name, _) => GoodName(name)
    case ReadTotpEntry(name) => GoodName(name)
    case RemoveTotp(name) => GoodName(name)
    case RenameTotp(name, newName) => GoodName(name) && GoodName(newName)
    case _ => true
  }

  ghost function DirStep(d: Dir, op: Op): (Dir, Reply) {
    match op
    case StorePassword(name, data) => (Stored(d, name, data), Done)
    case ReadPassword(name) =>
      (d, if Read(d, name).Ok? then Data(Read(d, name).value) else NotFound)
    case RemovePassword(name) => (Removed(d, name), if Has(d, name) then Done else NotFound)
    case RenamePassword(name, newName) => (Renamed(d, name, newName), if Has(d, name) then Done else NotFound)
    case ListPasswords => (d, Names(Listed(Stems(d, KEY))))
    case StoreTotp(name, data) => (StoredTotp(d, name, data), Done)
    case ReadTotpEntry(name) =>
      (d, if ReadTotp(d, name).Ok? then Data(ReadTotp(d, name).value) else NotFound)
    case RemoveTotp(name) => (RemovedTotp(d, name), if ResolveTotp(d, name).Some? then Done else NotFound)
    case RenameTotp(name, newName) =>
      (RenamedTotp(d, name, newName), if ResolveTotp(d, name).Some? then Done else NotFound)
    case ListTotps => (d, Names(Listed(Stems(d, TOTP))))
  }

  function Put(m: Entries, name: string, data: Bytes): (Entries, Reply) {
    (m[name := data], Done)
  }

  function Get(m: Entries, name: string): Reply {
    if name in m then Data(m[name]) else NotFound
  }

  function Delete(m: Entries, name: string): (Entries, Reply) {
    (m - {name}, if name in m then Done else NotFound)
  }

  function Move(m: Entries, name: string, newName: string): (Entries, Reply) {
    if name in m then ((m - {name})[newName := m[name]], Done) else (m, NotFound)
  }

  /** The vault is two maps: nothing here knows of files. */
  ghost function VaultStep(v: Vault, op: Op): (Vault, Reply) {
    match op
    case StorePassword(name, data) => (v.(passwords := Put(v.passwords, name, data).0), Done)
    case ReadPassword(name) => (v, Get(v.passwords, name))
    case RemovePassword(name) => (v.(passwords := Delete(v.passwords, name).0), Delete(v.passwords, name).1)
    case RenamePassword(name, newName) =>
      (v.(passwords := Move(v.passwords, name, newName).0), Move(v.passwords, name, newName).1)
    case ListPasswords => (v, Names(Listed(v.passwords.Keys)))
    case StoreTotp(name, data) => (v.(totps := Put(v.totps, name, data).0), Done)
    case ReadTotpEntry(name) => (v, Get(v.totps, name))
    case RemoveTotp(name) => (v.(totps := Delete(v.totps, name).0), Delete(v.totps, name).1)
    case RenameTotp(name, newName) =>
      (v.(totps := Move(v.totps, name, newName).0), Move(v.totps, name, newName).1)
    case ListTotps => (v, Names(Listed(v.totps.Keys)))
  }

  // ---------------------------------------------------------------------
  // The refinement.

  lemma GoodPaths(name: string)
    requires GoodName(name)
    ensures PasswordPath(name) == FileName(name, KEY)
    ensures TotpPath(name) == FileName(name, TOTP)
    ensures LegacyPath(name) == None
  {
    AllowedStays(name);
  }

  lemma OtherFiles(stem: string, e: string, f: string)
    requires IsExtension(e) && IsExtension(f)
    ensures forall x: string :: FileName(x, f) == FileName(stem, e) <==> x == stem && e == f
  {
    forall x: string ensures FileName(x, f) == FileName(stem, e) <==> x == stem && e == f {
      if FileName(x, f) == FileName(stem, e) {
        FileNameInjective(x, f, stem, e);
      }
    }
  }

  predicate SameEntry(m: Entries, after: Entries, x: string) {
    (x in after <==> x in m) && (x in m ==> after[x] == m[x])
  }

  lemma SameEntries(m: Entries, after: Entries)
    requires forall x :: SameEntry(m, after, x)
    ensures after == m
  {
    forall x ensures x in after <==> x in m {
      assert SameEntry(m, after, x);
    }
    forall x | x in m ensures after[x] == m[x] {
      assert SameEntry(m, after, x);
    }
  }

  lemma PutEntry(d: Dir, stem: string, e: string, data: Bytes, f: string, x: string)
    requires stem != [] && IsExtension(e) && IsExtension(f)
    ensures SameEntry(if e == f then EntriesOf(d, f)[stem := data] else EntriesOf(d, f),
                      EntriesOf(d[FileName(stem, e) := data], f), x)
  {
    OtherFiles(stem, e, f);
  }

  /** Writing a file of one kind puts an entry of that kind. */
  lemma PutFile(d: Dir, stem: string, e: string, data: Bytes, f: string)
    requires stem != [] && IsExtension(e) && IsExtension(f)
    ensures EntriesOf(d[FileName(stem, e) := data], f) ==
            if e == f then EntriesOf(d, f)[stem := data] else EntriesOf(d, f)
  {
    var m := if e == f then EntriesOf(d, f)[stem := data] else EntriesOf(d, f);
    var after := EntriesOf(d[FileName(stem, e) := data], f);
    forall x ensures SameEntry(m, after, x) {
      PutEntry(d, stem, e, data, f, x);
    }
    SameEntries(m, after);
  }

  /** Removing a file of one kind deletes an entry of that kind. */
  lemma DropFile(d: Dir, stem: string, e: string, f: string)
    requires stem != [] && IsExtension(e) && IsExtension(f)
    ensures EntriesOf(d - {FileName(stem, e)}, f) ==
            if e == f then EntriesOf(d, f) - {stem} else EntriesOf(d, f)
  {
    OtherFiles(stem, e, f);
  }

  lemma PutRefines(d: Dir, name: string, e: string, data: Bytes)
    requires GoodName(name) && IsExtension(e)
    ensures var v, after := VaultOf(d), VaultOf(d[FileName(name, e) := data]);
            after == if e == KEY then v.(passwords := v.passwords[name := data])
                     else v.(totps := v.totps[name := data])
  {
    PutFile(d, name, e, data, KEY);
    PutFile(d, name, e, data, TOTP);
  }

  lemma DropRefines(d: Dir, name: string, e: string)
    requires GoodName(name) && IsExtension(e)
    ensures var v, after := VaultOf(d), VaultOf(d - {FileName(name, e)});
            after == if e == KEY then v.(passwords := v.passwords - {name})
                     else v.(totps := v.totps - {name})
  {
    DropFile(d, name, e, KEY);
    DropFile(d, name, e, TOTP);
  }

  lemma ListRefines(d: Dir)
    ensures EntriesOf(d, KEY).Keys == Stems(d, KEY)
    ensures EntriesOf(d, TOTP).Keys == Stems(d, TOTP)
  {
    forall stem ensures stem in EntriesOf(d, KEY) <==> stem in Stems(d, KEY) {
      StemsAre(d, stem, KEY);
    }
    forall stem ensures stem in EntriesOf(d, TOTP) <==> stem in Stems(d, TOTP) {
      StemsAre(d, stem, TOTP);
    }
  }

  // On good names the operations touch one file each, or two to rename.

  lemma PasswordFiles(d: Dir, name: string, newName: string, data: Bytes)
    requires GoodName(name) && GoodName(newName)
    ensures Has(d, name) <==> name in EntriesOf(d, KEY)
    ensures Has(d, name) ==> Read(d, name) == Ok(EntriesOf(d, KEY)[name])
    ensures !Has(d, name) ==> Read(d, name).Err?
    ensures Stored(d, name, data) == d[FileName(name, KEY) := data]
    ensures Removed(d, name) == d - {FileName(name, KEY)}
    ensures Has(d, name) ==>
              Renamed(d, name, newName) == (d - {FileName(name, KEY)})[FileName(newName, KEY) := d[FileName(name, KEY)]]
    ensures !Has(d, name) ==> Renamed(d, name, newName) == d
  {
    GoodPaths(name);
    GoodPaths(newName);
  }

  lemma TotpFiles(d: Dir, name: string, newName: string)
    requires GoodName(name) && GoodName(newName)
    ensures ResolveTotp(d, name).Some? <==> name in EntriesOf(d, TOTP)
    ensures ResolveTotp(d, name).Some? ==> ReadTotp(d, name) == Ok(EntriesOf(d, TOTP)[name])
    ensures ResolveTotp(d, name).None? ==> ReadTotp(d, name).Err?
    ensures RemovedTotp(d, name) == d - {FileName(name, TOTP)}
    ensures ResolveTotp(d, name).Some? ==>
              RenamedTotp(d, name, newName) == (d - {FileName(name, TOTP)})[FileName(newName, TOTP) := d[FileName(name, TOTP)]]
    ensures ResolveTotp(d, name).None? ==> RenamedTotp(d, name, newName) == d
  {
    GoodPaths(name);
    GoodPaths(newName);
  }

  lemma MoveRefines(d: Dir, name: string, newName: string, e: string)
    requires GoodName(name) && GoodName(newName) && IsExtension(e)
    requires name in EntriesOf(d, e)
    ensures var v, after := VaultOf(d), VaultOf((d - {FileName(name, e)})[FileName(newName, e) := d[FileName(name, e)]]);
            after == if e == KEY then v.(passwords := Move(v.passwords, name, newName).0)
                     else v.(totps := Move(v.totps, name, newName).0)
  {
    DropRefines(d, name, e);
    PutRefines(d - {FileName(name, e)}, newName, e, d[FileName(name, e)]);
  }

  lemma PasswordStepRefines(d: Dir, op: Op)
    requires GoodOp(op)
    requires op.StorePassword? || op.ReadPassword? || op.RemovePassword?
    ensures VaultOf(DirStep(d, op).0) == VaultStep(VaultOf(d), op).0
    ensures DirStep(d, op).1 == VaultStep(VaultOf(d), op).1
  {
    PasswordFiles(d, op.name, op.name, if op.StorePassword? then op.data else []);
    if op.StorePassword? {
      PutRefines(d, op.name, KEY, op.data);
    } else if op.RemovePassword? {
      DropRefines(d, op.name, KEY);
    }
  }

  lemma RenamePasswordRefines(d: Dir, op: Op)
    requires GoodOp(op) && op.RenamePassword?
    ensures VaultOf(DirStep(d, op).0) == VaultStep(VaultOf(d), op).0
    ensures DirStep(d, op).1 == VaultStep(VaultOf(d), op).1
  {
    PasswordFiles(d, op.name, op.newName, []);
    if Has(d, op.name) {
      MoveRefines(d, op.name, op.newName, KEY);
    }
  }

  lemma TotpStepRefines(d: Dir, op: Op)
    requires GoodOp(op)
    requires op.StoreTotp? || op.ReadTotpEntry? || op.RemoveTotp?
    ensures VaultOf(DirStep(d, op).0) == VaultStep(VaultOf(d), op).0
    ensures DirStep(d, op).1 == VaultStep(VaultOf(d), op).1
  {
    TotpFiles(d, op.name, op.name);
    GoodPaths(op.name);
    if op.StoreTotp? {
      PutRefines(d, op.name, TOTP, op.data);
    } else if op.RemoveTotp? {
      DropRefines(d, op.name, TOTP);
    }
  }

  lemma RenameTotpRefines(d: Dir, op: Op)
    requires GoodOp(op) && op.RenameTotp?
    ensures VaultOf(DirStep(d, op).0) == VaultStep(VaultOf(d), op).0
    ensures DirStep(d, op).1 == VaultStep(VaultOf(d), op).1
  {
    TotpFiles(d, op.name, op.newName);
    if ResolveTotp(d, op.name).Some? {
      MoveRefines(d, op.name, op.newName, TOTP);
    }
  }

  /** Each operation on good names does to the vault what the plain maps say,
      and replies the same. */
  lemma StepRefines(d: Dir, op: Op)
    requires GoodOp(op)
    ensures VaultOf(DirStep(d, op).0) == VaultStep(VaultOf(d), op).0
    ensures DirStep(d, op).1 == VaultStep(VaultOf(d), op).1
  {
    if op.ListPasswords? || op.ListTotps? {
      ListRefines(d);
    } else if op.RenamePassword? {
      RenamePasswordRefines(d, op);
    } else if op.RenameTotp? {
      RenameTotpRefines(d, op);
    } else if op.StoreTotp? || op.ReadTotpEntry? || op.RemoveTotp? {
      TotpStepRefines(d, op);
    } else {
      PasswordStepRefines(d, op);
    }
  }

  ghost function DirRun(d: Dir, ops: seq<Op>): (Dir, seq<Reply>) {
    if ops == [] then (d, [])
    else
      var (before, replies) := DirRun(d, ops[..|ops| - 1]);
      var (after, reply) := DirStep(before, ops[|ops| - 1]);
      (after, replies + [reply])
  }

  ghost function VaultRun(v: Vault, ops: seq<Op>): (Vault, seq<Reply>) {
    if ops == [] then (v, [])
    else
      var (before, replies) := VaultRun(v, ops[..|ops| - 1]);
      var (after, reply) := VaultStep(before, ops[|ops| - 1]);
      (after, replies + [reply])
  }

  /** Over every sequence of operations on good names, starting from any
      directory, nobody can tell the directory from the vault. */
  lemma {:induction false} RunRefines(d: Dir, ops: seq<Op>)
    requires forall op <- ops :: GoodOp(op)
    ensures VaultOf(DirRun(d, ops).0) == VaultRun(VaultOf(d), ops).0
    ensures DirRun(d, ops).1 == VaultRun(VaultOf(d), ops).1
  {
    if ops != [] {
      var before, last := ops[..|ops| - 1], ops[|ops| - 1];
      assert last in ops && forall op <- before :: op in ops;
      RunRefines(d, before);
      StepRefines(DirRun(d, before).0, last);
    }
  }
}
