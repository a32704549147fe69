/** The directory of entries (src/keystore.rs): password files under a current
    and a legacy name, TOTP files under the current one.  A directory is a map
    from file names to contents; the file system does not fail. */
module KeyDirectory {
  import opened Wrappers
  import opened Bytes
  import opened Filenames

  type Dir = map<string, Bytes>

  datatype Error = PasswordNotFound(name: string) | TotpNotFound(name: string)

  const KEY := "key"
  const TOTP := "totp"

  predicate IsExtension(e: string) {
    e == KEY || e == TOTP
  }

  function FileName(stem: string, extension: string): string {
    stem + "." + extension
  }

  // ---------------------------------------------------------------------
  // Paths.

  function PasswordPath(name: string): string {
    FileName(Sanitized(name), KEY)
  }

  function TotpPath(name: string): string {
    FileName(Sanitized(name), TOTP)
  }

  function LegacyPath(name: string): Option<string> {
    if Legacy(name) != Sanitized(name) then Some(FileName(Legacy(name), KEY)) else None
  }

  /** Position of the last dot, or -1. */
  function LastDot(file: string): (p: int)
    ensures -1 <= p < |file|
    ensures p >= 0 ==> file[p] == '.'
    ensures forall i :: p < i < |file| ==> file[i] != '.'
  {
    if file == [] then -1
    else if file[|file| - 1] == '.' then |file| - 1
    else LastDot(file[..|file| - 1])
  }

  lemma {:induction false} LastDotOf(stem: string, extension: string)
    requires '.' !in extension
    ensures LastDot(FileName(stem, extension)) == |stem|
  {
    var file := FileName(stem, extension);
    if extension == [] {
      assert file[|file| - 1] == '.';
    } else {
      var n := |extension| - 1;
      assert extension[n] in extension;
      assert file[|file| - 1] == extension[n];
      assert file[..|file| - 1] == FileName(stem, extension[..n]);
      assert forall c <- extension[..n] :: c in extension;
      LastDotOf(stem, extension[..n]);
    }
  }

  /** Files of different stems, or of different kinds, are different. */
  lemma FileNameInjective(a: string, e: string, b: string, f: string)
    requires IsExtension(e) && IsExtension(f)
    requires FileName(a, e) == FileName(b, f)
    ensures a == b && e == f
  {
    LastDotOf(a, e);
    LastDotOf(b, f);
    assert a == FileName(a, e)[..|a|] && b == FileName(b, f)[..|b|];
    assert e == FileName(a, e)[|a| + 1..] && f == FileName(b, f)[|b| + 1..];
  }

  lemma PathsDiffer(name: string)
    ensures LegacyPath(name) != Some(PasswordPath(name))
    ensures LegacyPath(name).Some? <==> !AllAllowed(name)
  {
    LegacyDiffers(name);
    if LegacyPath(name) == Some(PasswordPath(name)) {
      FileNameInjective(Legacy(name), KEY, Sanitized(name), KEY);
    }
  }

  function Resolve(d: Dir, name: string): Option<string> {
    if PasswordPath(name) in d then Some(PasswordPath(name))
    else if LegacyPath(name).Some? && LegacyPath(name).value in d then LegacyPath(name)
    else None
  }

  function ResolveTotp(d: Dir, name: string): Option<string> {
    if TotpPath(name) in d then Some(TotpPath(name)) else None
  }

  // ---------------------------------------------------------------------
  // Operations, as functions of the directory.

  function Has(d: Dir, name: string): bool {
    Resolve(d, name).Some?
  }

  function Read(d: Dir, name: string): Result<Bytes, Error> {
    var path := Resolve(d, name);
    if path.None? then Err(PasswordNotFound(name)) else Ok(d[path.value])
  }

  function ReadTotp(d: Dir, name: string): Result<Bytes, Error> {
    var path := ResolveTotp(d, name);
    if path.None? then Err(TotpNotFound(name)) else Ok(d[path.value])
  }

  /** `remove_file` of a file that may not exist. */
  function Without(d: Dir, path: Option<string>): Dir {
    if path.Some? then d - {path.value} else d
  }

  function Moved(d: Dir, from: string, to: string): Dir
    requires from in d
  {
    (d - {from})[to := d[from]]
  }

  function Stored(d: Dir, name: string, data: Bytes): Dir {
    Without(d, LegacyPath(name))[PasswordPath(name) := data]
  }

  function StoredTotp(d: Dir, name: string, data: Bytes): Dir {
    d[TotpPath(name) := data]
  }

  function Removed(d: Dir, name: string): Dir {
    var path := Resolve(d, name);
    if path.None? then d else Without(d - {path.value}, LegacyPath(name))
  }

  function RemovedTotp(d: Dir, name: string): Dir {
    Without(d, ResolveTotp(d, name))
  }

  function Renamed(d: Dir, oldName: string, newName: string): Dir {
    var path := Resolve(d, oldName);
    if path.None? then d
    else
      var to := PasswordPath(newName);
      var moved := Moved(d, path.value, to);
      var cleaned := if LegacyPath(oldName) != Some(to) then Without(moved, LegacyPath(oldName)) else moved;
      Without(cleaned, LegacyPath(newName))
  }

  function RenamedTotp(d: Dir, oldName: string, newName: string): Dir {
    var path := ResolveTotp(d, oldName);
    if path.None? then d else Moved(d, path.value, TotpPath(newName))
  }

  // ---------------------------------------------------------------------
  // Listing.

  /** `Path::file_stem` and `Path::extension`: a name whose only dot comes first
      has no extension. */
  function SplitExtension(file: string): (string, Option<string>) {
    var p := LastDot(file);
    if p <= 0 || file == ".." then (file, None)
    else (file[..p], Some(file[p + 1..]))
  }

  predicate IsFile(file: string, extension: string) {
    SplitExtension(file).1 == Some(extension)
  }

  function Stem(file: string): string {
    SplitExtension(file).0
  }

  function Stems(d: Dir, extension: string): set<string> {
    set file | file in d && IsFile(file, extension) :: Stem(file)
  }

  lemma SplitFileName(stem: string, extension: string)
    requires IsExtension(extension) && stem != []
    ensures SplitExtension(FileName(stem, extension)) == (stem, Some(extension))
  {
    LastDotOf(stem, extension);
    var file := FileName(stem, extension);
    assert |file| > 2;
    assert file[..|stem|] == stem && file[|stem| + 1..] == extension;
  }

  lemma JoinedFileName(file: string, extension: string)
    requires IsFile(file, extension)
    ensures Stem(file) != [] && file == FileName(Stem(file), extension)
  {
    var p := LastDot(file);
    assert file == file[..p] + "." + file[p + 1..];
  }

  /** The stems of a directory's files with that extension: a file without
      anything before its extension is not listed. */
  lemma StemsAre(d: Dir, stem: string, extension: string)
    requires IsExtension(extension)
    ensures stem in Stems(d, extension) <==> stem != [] && FileName(stem, extension) in d
  {
    if stem in Stems(d, extension) {
      var f :| f in d && IsFile(f, extension) && Stem(f) == stem;
      JoinedFileName(f, extension);
    }
    if stem != [] && FileName(stem, extension) in d {
      SplitFileName(stem, extension);
    }
  }

  /** The files of an entry, as they are called. */
  lemma PlainFilesExample()
    ensures PasswordPath("github") == "github.key" && TotpPath("github") == "github.totp"
  {
    AllowedStays("github");
    assert FileName("github", KEY) == "github.key";
    assert FileName("github", TOTP) == "github.totp";
  }

  lemma EscapedFilesExample()
    ensures PasswordPath("a/b") == "a_2f_b.key" && LegacyPath("a/b") == Some("a_b.key")
  {
    CollisionExample();
    LegacyCollisionExample();
    assert |"a_b"| != |"a_2f_b"|;
    assert FileName("a_2f_b", KEY) == "a_2f_b.key";
    assert FileName("a_b", KEY) == "a_b.key";
  }
}
