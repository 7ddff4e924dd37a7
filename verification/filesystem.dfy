/** The file-system side of the tool over an abstract state: `fresh_file`,
    and the upward walk of `get_crate_root` and `get_cargo_manifest`. */
module FileSystem {
  import opened Wrappers

  /** An absolute path as its components below the root; the root is `[]`. */
  type Path = seq<string>

  /** What `metadata` reports for a path: a regular file with its text, a
      directory, or anything else that is not a regular file. */
  datatype Entry = File(content: string) | Directory | Special

  /** The state of the disk: the entry at each path that holds one. */
  type Disk = map<Path, Entry>

  const ManifestName: string := "Cargo.toml"

  datatype FsError =
    | PathConflict(path: Path)   // something that is not a regular file is in the way
    | ManifestNotFound           // no ancestor up to the root holds a manifest
    | ReadFailed(path: Path)     // the path holds no regular file to read

  /** `dir` holds a manifest. `Path::exists` accepts an entry of any kind. */
  predicate HasManifest(disk: Disk, dir: Path)
  {
    dir + [ManifestName] in disk
  }

  /** `dir` is the deepest ancestor of `cwd`, `cwd` included, that holds a manifest. */
  predicate IsCrateRoot(disk: Disk, cwd: Path, dir: Path)
  {
    && |dir| <= |cwd|
    && dir == cwd[..|dir|]
    && HasManifest(disk, dir)
    && forall k :: |dir| < k <= |cwd| ==> !HasManifest(disk, cwd[..k])
  }

  /** No ancestor of `cwd`, from `cwd` itself up to the root, holds a manifest. */
  predicate NoManifestAbove(disk: Disk, cwd: Path)
  {
    forall k :: 0 <= k <= |cwd| ==> !HasManifest(disk, cwd[..k])
  }

  /** There is at most one crate root for a working directory. */
  lemma CrateRootUnique(disk: Disk, cwd: Path, d1: Path, d2: Path)
    requires IsCrateRoot(disk, cwd, d1) && IsCrateRoot(disk, cwd, d2)
    ensures d1 == d2
  {
  }

  /** `get_crate_root`: look for the manifest in the working directory, then
      in each parent in turn. Each step drops the last component, so the walk
      ends; it fails only when the root has been searched too. */
  method FindCrateRoot(disk: Disk, cwd: Path) returns (r: Result<Path, FsError>)
    ensures r.Success? ==> IsCrateRoot(disk, cwd, r.value)
    ensures r.Failure? <==> NoManifestAbove(disk, cwd)
    ensures r.Failure? ==> r.error == ManifestNotFound
  {
    var dir := cwd;
    while !HasManifest(disk, dir)
      invariant |dir| <= |cwd| && dir == cwd[..|dir|]
      invariant forall k :: |dir| < k <= |cwd| ==> !HasManifest(disk, cwd[..k])
      decreases |dir|
    {
      if |dir| == 0 {
        assert cwd[..0] == dir;
        return Failure(ManifestNotFound);
      }
      dir := dir[..|dir| - 1];
      assert dir == cwd[..|dir|];
    }
    return Success(dir);
  }

  /** `get_cargo_manifest`: the same walk, yielding the manifest it opens,
      represented by its path. Opening succeeds for an entry of any kind;
      only reading it needs a regular file. */
  method OpenManifest(disk: Disk, cwd: Path) returns (r: Result<Path, FsError>)
    ensures r.Success? ==> |r.value| > 0 && r.value[|r.value| - 1] == ManifestName
    ensures r.Success? ==> IsCrateRoot(disk, cwd, r.value[..|r.value| - 1])
    ensures r.Failure? <==> NoManifestAbove(disk, cwd)
    ensures r.Failure? ==> r.error == ManifestNotFound
  {
    var root :- FindCrateRoot(disk, cwd);
    r := Success(root + [ManifestName]);
    assert r.value[..|r.value| - 1] == root;
  }

  /** Reading a path gives the text of the regular file there, and fails otherwise. */
  function ReadToString(disk: Disk, path: Path): (r: Result<string, FsError>)
    ensures r.Success? <==> path in disk && disk[path].File?
    ensures r.Success? ==> disk[path] == File(r.value)
  {
    if path in disk && disk[path].File? then Success(disk[path].content) else Failure(ReadFailed(path))
  }

  /** `fresh_file` can make a new file at `path`: it is free or holds a regular file. */
  predicate Writable(disk: Disk, path: Path)
  {
    path !in disk || disk[path].File?
  }

  /** `fresh_file`: when the path is free or holds a regular file, the result
      is the disk with a new empty file there and every other path as it
      was; a regular file in the way is removed first, at most once. Any
      other entry is an error and the disk is left as it was. */
  method FreshFile(disk: Disk, path: Path) returns (r: Result<Disk, FsError>, removals: nat)
    ensures r.Success? <==> Writable(disk, path)
    ensures r.Success? ==> r.value == disk[path := File("")]
    ensures r.Failure? ==> r.error == PathConflict(path)
    ensures removals <= 1
    ensures removals == 1 <==> path in disk && disk[path].File?
  {
    var current := disk;
    removals := 0;
    while path in current && current[path].File?
      invariant removals <= 1
      invariant removals == 0 ==> current == disk
      invariant removals == 1 ==> path in disk && disk[path].File? && current == disk - {path}
      decreases |current|
    {
      current := current - {path};
      removals := removals + 1;
    }
    if path in current {
      r := Failure(PathConflict(path));
    } else {
      r := Success(current[path := File("")]);
      assert r.value == disk[path := File("")];
    }
  }
}
