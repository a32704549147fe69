/** The encrypted main key file and its migration (src/keystore.rs).  The
    ciphers are library calls, known by their laws only. */
module MainKey {
  import opened Wrappers
  import opened Bytes
  import opened KeyDirectory

  // ---------------------------------------------------------------------
  // Key derivation and authenticated encryption.

  datatype Ciphers = Ciphers(
    derive: (string, Bytes, nat) -> Bytes,
    encrypt: (Bytes, Bytes, Bytes) -> Bytes,
    decrypt: (Bytes, Bytes, Bytes) -> Option<Bytes>)

  /** Decryption inverts encryption, and a tag of 16 bytes is added. */
  ghost predicate Lawful(c: Ciphers) {
    && (forall k, n, p :: c.decrypt(k, n, c.encrypt(k, n, p)) == Some(p))
    && (forall k, n, p :: |c.encrypt(k, n, p)| == |p| + 16)
    && (forall k, n, e :: c.decrypt(k, n, e).Some? ==> |e| == |c.decrypt(k, n, e).value| + 16)
  }

  function TagOnly(): Ciphers {
    Ciphers(
      (pw, salt, n) => [],
      (k, n, p) => p + seq(16, _ => 0),
      (k, n, e) => if |e| < 16 then None else Some(e[..|e| - 16]))
  }

  lemma TagOnlyLawful()
    ensures Lawful(TagOnly())
  {
    forall k: Bytes, n: Bytes, p: Bytes
      ensures TagOnly().decrypt(k, n, TagOnly().encrypt(k, n, p)) == Some(p)
    {
      assert (p + seq(16, _ => 0))[..|p|] == p;
    }
  }

  type Aead = c: Ciphers | Lawful(c) ghost witness (TagOnlyLawful(); TagOnly())

  type Nonce = b: Bytes | |b| == 12 witness seq(12, _ => 0)

  type Salt = b: Bytes | |b| == 32 witness seq(32, _ => 0)

  // ---------------------------------------------------------------------
  // Files.

  const PBKDF2_ITERATIONS_OLD := 100_000
  const PBKDF2_ITERATIONS := 600_000

  /** ASCII codes of `cybercuris-main-key-v2`. */
  const PBKDF2_SALT_PREFIX: Bytes :=
    [99, 121, 98, 101, 114, 99, 117, 114, 105, 115, 45, 109, 97, 105, 110, 45, 107, 101, 121, 45, 118, 50]

  const MAIN_KEY_SIZE := 4096
  const OLD_FILE_SIZE := 12 + 4096 + 16
  const NEW_FILE_SIZE := 12 + 32 + 4096 + 16

  const MAIN := "main.key.encrypted"
  const TMP := "main.key.tmp"

  datatype Error = NoMainKey | UnrecognizedFormat | CiphertextTooShort | WrongPassword

  function NewFormat(c: Aead, password: string, salt: Salt, nonce: Nonce, key: Bytes): Bytes {
    nonce + salt + c.encrypt(c.derive(password, salt, PBKDF2_ITERATIONS), nonce, key)
  }

  /** `decrypt_data`: a nonce, then ciphertext and tag. */
  function DecryptData(c: Aead, key: Bytes, data: Bytes): Result<Bytes, Error> {
    if |data| < 12 + 16 then Err(CiphertextTooShort)
    else
      var plain := c.decrypt(key, data[..12], data[12..]);
      if plain.None? then Err(WrongPassword) else Ok(plain.value)
  }

  function OpenOld(c: Aead, password: string, data: Bytes): Result<Bytes, Error> {
    DecryptData(c, c.derive(password, PBKDF2_SALT_PREFIX, PBKDF2_ITERATIONS_OLD), data)
  }

  function OpenNew(c: Aead, password: string, data: Bytes): Result<Bytes, Error>
    requires |data| == NEW_FILE_SIZE
  {
    DecryptData(c, c.derive(password, data[12..44], PBKDF2_ITERATIONS), data[..12] + data[44..])
  }

  /** What the main key file yields, by its size. */
  function Opened(c: Aead, password: string, d: Dir): Result<Bytes, Error> {
    if MAIN !in d then Err(NoMainKey)
    else if |d[MAIN]| == OLD_FILE_SIZE then OpenOld(c, password, d[MAIN])
    else if |d[MAIN]| == NEW_FILE_SIZE then OpenNew(c, password, d[MAIN])
    else Err(UnrecognizedFormat)
  }

  /** Whether loading rewrites the file: an old one that opens. */
  predicate Migrates(c: Aead, password: string, d: Dir) {
    MAIN in d && |d[MAIN]| == OLD_FILE_SIZE && Opened(c, password, d).Ok?
  }

  // ---------------------------------------------------------------------
  // Steps on the disk, and crashes between and during them.

  datatype FileStep = Write(path: string, data: Bytes) | Rename(from: string, to: string)

  /** The directory after a completed step. */
  function AfterStep(d: Dir, step: FileStep): Dir {
    match step
    case Write(path, data) => d[path := data]
    case Rename(from, to) => if from in d then Moved(d, from, to) else d
  }

  function AfterSteps(d: Dir, steps: seq<FileStep>): Dir
    decreases |steps|
  {
    if steps == [] then d else AfterSteps(AfterStep(d, steps[0]), steps[1..])
  }

  /** What a crash during a step can leave.  A rename is done or not done.  A write
      may have got as far as any number of bytes, and since what reached the disk
      is not known, the file may hold anything. */
  predicate CrashDuringStep(d: Dir, step: FileStep, after: Dir) {
    || after == d
    || after == AfterStep(d, step)
    || (step.Write? && step.path in after && after == d[step.path := after[step.path]])
  }

  /** A crash anywhere in a list of steps: some of them are completed, and the next
      one is not. */
  predicate CrashDuring(d: Dir, steps: seq<FileStep>, after: Dir)
    decreases |steps|
  {
    if steps == [] then after == d
    else CrashDuringStep(d, steps[0], after) || CrashDuring(AfterStep(d, steps[0]), steps[1..], after)
  }

  /** What `load_main_key` does on the disk, having drawn `salt` and `nonce`. */
  function LoadSteps(c: Aead, password: string, d: Dir, salt: Salt, nonce: Nonce): seq<FileStep> {
    if Migrates(c, password, d) then
      [Write(TMP, NewFormat(c, password, salt, nonce, Opened(c, password, d).value)), Rename(TMP, MAIN)]
    else []
  }

  function Loaded(c: Aead, password: string, d: Dir, salt: Salt, nonce: Nonce): Dir {
    AfterSteps(d, LoadSteps(c, password, d, salt, nonce))
  }

  /** What `init_main_key` does on the disk. */
  function InitSteps(c: Aead, password: string, salt: Salt, nonce: Nonce, key: Bytes): seq<FileStep> {
    [Write(MAIN, NewFormat(c, password, salt, nonce, key))]
  }

  function Initialized(c: Aead, password: string, d: Dir, salt: Salt, nonce: Nonce, key: Bytes): Dir {
    AfterSteps(d, InitSteps(c, password, salt, nonce, key))
  }

  lemma OneStep(d: Dir, step: FileStep, after: Dir)
    ensures AfterSteps(d, [step]) == AfterStep(d, step)
    ensures CrashDuring(d, [step], after) <==> CrashDuringStep(d, step, after)
  {
    assert [step][1..] == [];
    assert AfterSteps(AfterStep(d, step), [step][1..]) == AfterStep(d, step);
    assert CrashDuring(AfterStep(d, step), [step][1..], after) <==> after == AfterStep(d, step);
  }

  lemma TwoSteps(d: Dir, first: FileStep, second: FileStep, after: Dir)
    ensures AfterSteps(d, [first, second]) == AfterStep(AfterStep(d, first), second)
    ensures CrashDuring(d, [first, second], after) <==>
            CrashDuringStep(d, first, after) || CrashDuringStep(AfterStep(d, first), second, after)
  {
    assert [first, second][1..] == [second];
    OneStep(AfterStep(d, first), second, after);
  }

  lemma InitIsOneWrite(c: Aead, password: string, d: Dir, salt: Salt, nonce: Nonce, key: Bytes)
    ensures Initialized(c, password, d, salt, nonce, key) == d[MAIN := NewFormat(c, password, salt, nonce, key)]
  {
    OneStep(d, Write(MAIN, NewFormat(c, password, salt, nonce, key)), d);
  }

  /** The migration puts the new file in the place of the old one. */
  lemma MigrationIsTwoSteps(c: Aead, password: string, d: Dir, salt: Salt, nonce: Nonce)
    ensures Migrates(c, password, d) ==>
              var data := NewFormat(c, password, salt, nonce, Opened(c, password, d).value);
              Loaded(c, password, d, salt, nonce) == Moved(d[TMP := data], TMP, MAIN)
    ensures !Migrates(c, password, d) ==> Loaded(c, password, d, salt, nonce) == d
  {
    if Migrates(c, password, d) {
      var data := NewFormat(c, password, salt, nonce, Opened(c, password, d).value);
      TwoSteps(d, Write(TMP, data), Rename(TMP, MAIN), d);
    }
  }

  lemma NamesDiffer()
    ensures MAIN != TMP
    ensures FileName("main.key", "encrypted") == MAIN && FileName(Stem(MAIN), "tmp") == TMP
  {
    assert |MAIN| == 18 && |TMP| == 12;
    LastDotOf("main.key", "encrypted");
    assert MAIN == FileName("main.key", "encrypted");
    assert MAIN[..8] == "main.key";
  }

  lemma NewFormatOpens(c: Aead, password: string, salt: Salt, nonce: Nonce, key: Bytes)
    requires |key| == MAIN_KEY_SIZE
    ensures |NewFormat(c, password, salt, nonce, key)| == NEW_FILE_SIZE
    ensures OpenNew(c, password, NewFormat(c, password, salt, nonce, key)) == Ok(key)
  {
    var k := c.derive(password, salt, PBKDF2_ITERATIONS);
    var sealed := c.encrypt(k, nonce, key);
    var data := nonce + salt + sealed;
    assert data[12..44] == salt && data[..12] == nonce && data[44..] == sealed;
    var combined := nonce + sealed;
    assert combined[..12] == nonce && combined[12..] == sealed;
  }

  /** A key that opens has 4096 bytes: the file sizes leave no other. */
  lemma OpenedKeySize(c: Aead, password: string, d: Dir)
    requires Opened(c, password, d).Ok?
    ensures |Opened(c, password, d).value| == MAIN_KEY_SIZE
  {
  }

  lemma MigratedKeepsKey(c: Aead, password: string, d: Dir, salt: Salt, nonce: Nonce)
    requires Migrates(c, password, d)
    ensures var after := Loaded(c, password, d, salt, nonce);
            Opened(c, password, after) == Opened(c, password, d) && |after[MAIN]| == NEW_FILE_SIZE
  {
    NamesDiffer();
    OpenedKeySize(c, password, d);
    MigrationIsTwoSteps(c, password, d, salt, nonce);
    NewFormatOpens(c, password, salt, nonce, Opened(c, password, d).value);
  }

  /** A completed load leaves a directory that opens, or fails to open, just as
      the one before.  If it fails it has changed nothing; if not, the file is in
      the new format and is not rewritten by any later load. */
  lemma LoadKeepsKey(c: Aead, password: string, d: Dir, salt: Salt, nonce: Nonce)
    ensures var after := Loaded(c, password, d, salt, nonce);
            && Opened(c, password, after) == Opened(c, password, d)
            && (Opened(c, password, d).Err? ==> after == d)
            && (Opened(c, password, d).Ok? ==>
                  && MAIN in after && |after[MAIN]| == NEW_FILE_SIZE
                  && (forall later, salt2, nonce2 :: Loaded(c, later, after, salt2, nonce2) == after))
  {
    MigrationIsTwoSteps(c, password, d, salt, nonce);
    if Migrates(c, password, d) {
      MigratedKeepsKey(c, password, d, salt, nonce);
    }
    var after := Loaded(c, password, d, salt, nonce);
    if Opened(c, password, d).Ok? {
      forall later, salt2, nonce2 ensures Loaded(c, later, after, salt2, nonce2) == after {
        MigrationIsTwoSteps(c, later, after, salt2, nonce2);
      }
    }
  }

  // ---------------------------------------------------------------------
  // The two formats, with their numbers.

  /** The fixed salt of the old format is the text `cybercuris-main-key-v2`. */
  lemma SaltPrefixIsText(i: nat)
    requires i < 22
    ensures |PBKDF2_SALT_PREFIX| == 22 && |"cybercuris-main-key-v2"| == 22
    ensures PBKDF2_SALT_PREFIX[i] == "cybercuris-main-key-v2"[i] as int
  {
  }

  lemma Parts(a: Bytes, b: Bytes, c: Bytes)
    ensures (a + b)[..|a|] == a && (a + b)[|a|..] == b
    ensures (a + b + c)[..|a|] == a && (a + b + c)[|a|..|a| + |b|] == b && (a + b + c)[|a| + |b|..] == c
  {
  }

  /** Every file that was written in the old format, with 100,000 rounds on the
      fixed salt, opens with its password, and loading it leaves a file in the new
      format, with 600,000 rounds on the salt drawn, and nothing else changed but
      for a temporary file, which is gone. */
  lemma OldFileLoads(c: Aead, password: string, d: Dir, key: Bytes, written: Nonce, salt: Salt, nonce: Nonce)
    requires |key| == 4096 && MAIN in d
    requires d[MAIN] == written + c.encrypt(c.derive(password, PBKDF2_SALT_PREFIX, 100_000), written, key)
    ensures Opened(c, password, d) == Ok(key)
    ensures Loaded(c, password, d, salt, nonce) ==
            (d - {TMP})[MAIN := nonce + salt + c.encrypt(c.derive(password, salt, 600_000), nonce, key)]
  {
    NamesDiffer();
    Parts(written, c.encrypt(c.derive(password, PBKDF2_SALT_PREFIX, 100_000), written, key), []);
    MigrationIsTwoSteps(c, password, d, salt, nonce);
  }

  /** Every file that was written in the new format opens with its password, and
      loading it changes nothing. */
  lemma NewFileLoads(c: Aead, password: string, d: Dir, key: Bytes, written: Nonce, stored: Salt, salt: Salt, nonce: Nonce)
    requires |key| == 4096 && MAIN in d
    requires d[MAIN] == written + stored + c.encrypt(c.derive(password, stored, 600_000), written, key)
    ensures Opened(c, password, d) == Ok(key)
    ensures Loaded(c, password, d, salt, nonce) == d
  {
    NewFormatOpens(c, password, stored, written, key);
    MigrationIsTwoSteps(c, password, d, salt, nonce);
  }

  /** Every other outcome: no file, a file of neither size, or one whose contents
      the password does not decrypt. */
  lemma OpenFails(c: Aead, password: string, d: Dir)
    ensures Opened(c, password, d) == Err(NoMainKey) <==> MAIN !in d
    ensures Opened(c, password, d) == Err(UnrecognizedFormat) <==> MAIN in d && |d[MAIN]| != 4124 && |d[MAIN]| != 4156
    ensures Opened(c, password, d) == Err(WrongPassword) <==>
              && MAIN in d
              && (|d[MAIN]| == 4124 ==>
                    c.decrypt(c.derive(password, PBKDF2_SALT_PREFIX, 100_000), d[MAIN][..12], d[MAIN][12..]).None?)
              && (|d[MAIN]| == 4156 ==>
                    c.decrypt(c.derive(password, d[MAIN][12..44], 600_000), d[MAIN][..12], d[MAIN][44..]).None?)
              && (|d[MAIN]| == 4124 || |d[MAIN]| == 4156)
  {
    if MAIN in d && |d[MAIN]| == 4156 {
      Parts(d[MAIN][..12], d[MAIN][44..], []);
    }
  }

  /** What a crash during the migration can leave of the main key file: the old
      one, or the new one complete. */
  lemma CrashLeavesOldOrNew(c: Aead, password: string, d: Dir, salt: Salt, nonce: Nonce, after: Dir)
    requires CrashDuring(d, LoadSteps(c, password, d, salt, nonce), after)
    ensures after == Loaded(c, password, d, salt, nonce) || after - {TMP} == d - {TMP}
  {
    NamesDiffer();
    if Migrates(c, password, d) {
      var data := NewFormat(c, password, salt, nonce, Opened(c, password, d).value);
      TwoSteps(d, Write(TMP, data), Rename(TMP, MAIN), after);
    }
  }

  /** Wherever a load crashes, the same password opens the same key, or fails as
      it did before. */
  lemma CrashKeepsKey(c: Aead, password: string, d: Dir, salt: Salt, nonce: Nonce, after: Dir)
    requires CrashDuring(d, LoadSteps(c, password, d, salt, nonce), after)
    ensures Opened(c, password, after) == Opened(c, password, d)
  {
    NamesDiffer();
    LoadKeepsKey(c, password, d, salt, nonce);
    CrashLeavesOldOrNew(c, password, d, salt, nonce, after);
    assert MAIN in d <==> MAIN in d - {TMP};
    assert MAIN in after <==> MAIN in after - {TMP};
    assert MAIN in d ==> d[MAIN] == (d - {TMP})[MAIN];
    assert MAIN in after ==> after[MAIN] == (after - {TMP})[MAIN];
  }

  /** A history of loads with one password, each of which may crash anywhere;
      load `i` drew the salt and nonce `draws[i]`. */
  ghost predicate History(c: Aead, password: string, states: seq<Dir>, draws: seq<(Salt, Nonce)>) {
    && |states| == |draws| + 1
    && forall i :: 0 <= i < |draws| ==>
                     CrashDuring(states[i], LoadSteps(c, password, states[i], draws[i].0, draws[i].1), states[i + 1])
  }

  /** Over every such history the key never changes. */
  lemma {:induction false} HistoryKeepsKey(c: Aead, password: string, states: seq<Dir>, draws: seq<(Salt, Nonce)>, i: nat)
    requires History(c, password, states, draws) && i < |states|
    ensures Opened(c, password, states[i]) == Opened(c, password, states[0])
  {
    if i > 0 {
      HistoryKeepsKey(c, password, states, draws, i - 1);
      var draw := draws[i - 1];
      assert CrashDuring(states[i - 1], LoadSteps(c, password, states[i - 1], draw.0, draw.1), states[i - 1 + 1]);
      CrashKeepsKey(c, password, states[i - 1], draw.0, draw.1, states[i]);
    }
  }

  /** Initialising and then loading returns the generated key. */
  lemma InitThenLoad(c: Aead, password: string, d: Dir, salt: Salt, nonce: Nonce, key: Bytes)
    requires |key| == MAIN_KEY_SIZE
    ensures var after := Initialized(c, password, d, salt, nonce, key);
            Opened(c, password, after) == Ok(key) && !Migrates(c, password, after)
  {
    InitIsOneWrite(c, password, d, salt, nonce, key);
    NewFormatOpens(c, password, salt, nonce, key);
  }

  /** Initialising writes the file in place, so that a crash can leave a part of
      it.  The store then counts as initialised, and no password opens it unless
      the part has exactly the size of the old format. */
  lemma TornInitDoesNotOpen(c: Aead, password: string, d: Dir, salt: Salt, nonce: Nonce, key: Bytes, k: nat, any: string)
    requires |key| == MAIN_KEY_SIZE && k < NEW_FILE_SIZE
    ensures |NewFormat(c, password, salt, nonce, key)| == NEW_FILE_SIZE
    ensures var torn := d[MAIN := NewFormat(c, password, salt, nonce, key)[..k]];
            && CrashDuring(d, InitSteps(c, password, salt, nonce, key), torn)
            && MAIN in torn
            && (k != OLD_FILE_SIZE ==> Opened(c, any, torn) == Err(UnrecognizedFormat))
  {
    NewFormatOpens(c, password, salt, nonce, key);
    var data := NewFormat(c, password, salt, nonce, key);
    OneStep(d, Write(MAIN, data), d[MAIN := data[..k]]);
  }
}
