/** The sequence of steps `main` and `update_license_info` run over the
    disk. Parsing and pretty-printing TOML belong to a foreign library and
    are parameters: `parse` gives `None` for text that is not TOML and
    `serialize` gives `None` when the document cannot be printed. */
module Command {
  import opened Wrappers
  import opened Toml
  import opened Package
  import opened Render
  import opened Manifest
  import opened FileSystem

  /** Why the update of the manifest stopped. */
  datatype UpdateFailure =
    | NoManifest        // no ancestor holds a manifest
    | Unreadable        // the manifest is not a regular file
    | Unparsable        // its text is not TOML
    | NoPackageTable    // `package` is missing or not a table
    | Unserializable    // the edited document could not be printed

  /** Why a run stops before it has written the license file. */
  datatype RunError =
    | NotFound              // no ancestor holds a manifest
    | ManifestUnreadable    // the manifest is not a regular file
    | ManifestUnparsable    // its text is not TOML
    | PackageMissing        // no `package` entry: the source panics here
    | Conflict(path: Path)  // the license path holds something that is not a regular file

  /** What a successful run leaves behind: the disk, the crate root, and the
      name and the metadata of the generated license. */
  datatype Report = Report(disk: Disk, root: Path, filename: string, info: PackageInfo)

  /** The parsed manifest of the crate rooted at `root`, if it can be read and parsed. */
  function ManifestDocument(disk: Disk, root: Path, parse: string -> Option<Value>): Option<Value>
  {
    match ReadToString(disk, root + [ManifestName])
    case Success(text) => parse(text)
    case Failure(_) => None
  }

  /** `p` is the manifest of the crate that `cwd` belongs to. */
  predicate IsManifestOf(disk: Disk, cwd: Path, p: Path)
  {
    |p| > 0 && p[|p| - 1] == ManifestName && IsCrateRoot(disk, cwd, p[..|p| - 1])
  }

  /** The manifest text `update_license_info` writes, from the text it read:
      parse, edit the package table, print. */
  function EditedManifest(text: string, filename: string,
                          parse: string -> Option<Value>, serialize: Value -> Option<string>)
    : (r: Result<string, UpdateFailure>)
    ensures r.Success? <==>
      && parse(text).Some?
      && HasPackageTable(parse(text).value)
      && serialize(SetLicenseFile(parse(text).value, filename).value).Some?
    ensures r.Success? ==>
      && parse(text).Some?
      && SetLicenseFile(parse(text).value, filename).Success?
      && serialize(SetLicenseFile(parse(text).value, filename).value) == Some(r.value)
    ensures r == Failure(Unparsable) <==> parse(text).None?
    ensures r == Failure(NoPackageTable) <==> parse(text).Some? && !HasPackageTable(parse(text).value)
    ensures r.Failure? ==> r.error in {Unparsable, NoPackageTable, Unserializable}
  {
    match parse(text)
    case None => Failure(Unparsable)
    case Some(doc) =>
      match SetLicenseFile(doc, filename)
      case Failure(_) => Failure(NoPackageTable)
      case Success(edited) =>
        match serialize(edited)
        case None => Failure(Unserializable)
        case Some(out) => Success(out)
  }

  /** The disk that `update_license_info` leaves when `root` is the crate
      root: unchanged when the manifest cannot be read, parsed or edited; the
      printed edited document and a line break when every step succeeds; an
      empty manifest when only the printing fails. */
  function ManifestUpdate(disk: Disk, root: Path, filename: string,
                          parse: string -> Option<Value>, serialize: Value -> Option<string>): Disk
  {
    var m := root + [ManifestName];
    match ReadToString(disk, m)
    case Failure(_) => disk
    case Success(text) =>
      match EditedManifest(text, filename, parse, serialize)
      case Success(out) => disk[m := File(out + "\n")]
      case Failure(e) => if e == Unserializable then disk[m := File("")] else disk
  }

  /** `update_license_info`: re-read the manifest, edit it, and rewrite it
      through `fresh_file`. On success the manifest holds the printed edited
      document and no other path changes. A failure before the rewrite leaves
      the disk as it was; a printing failure comes after `fresh_file` and
      leaves the manifest empty. */
  method UpdateLicenseInfo(disk: Disk, cwd: Path, filename: string,
                           parse: string -> Option<Value>, serialize: Value -> Option<string>)
    returns (r: Result<(), UpdateFailure>, after: Disk)
    ensures NoManifestAbove(disk, cwd) ==> r == Failure(NoManifest) && after == disk
    ensures after.Keys == disk.Keys
    ensures forall p | p in disk && after[p] != disk[p] :: IsManifestOf(disk, cwd, p)
    ensures forall root | IsCrateRoot(disk, cwd, root) ::
      var m := root + [ManifestName];
      if !ReadToString(disk, m).Success? then r == Failure(Unreadable) && after == disk
      else
        var edited := EditedManifest(ReadToString(disk, m).value, filename, parse, serialize);
        if edited.Success? then r.Success? && after == disk[m := File(edited.value + "\n")]
        else if edited.error == Unserializable then r == Failure(Unserializable) && after == disk[m := File("")]
        else r == Failure(edited.error) && after == disk
  {
    after := disk;
    var found := OpenManifest(disk, cwd);
    if found.Failure? {
      return Failure(NoManifest), after;
    }
    var m := found.value;
    ghost var root := m[..|m| - 1];
    assert m == root + [ManifestName];
    forall other | IsCrateRoot(disk, cwd, other)
      ensures other == root
    {
      CrateRootUnique(disk, cwd, other, root);
    }
    var text := ReadToString(disk, m);
    if text.Failure? {
      return Failure(Unreadable), after;
    }
    var doc := parse(text.value);
    if doc.None? {
      return Failure(Unparsable), after;
    }
    var edited := SetLicenseFile(doc.value, filename);
    if edited.Failure? {
      return Failure(NoPackageTable), after;
    }
    var crateRoot := FindCrateRoot(disk, cwd);
    if crateRoot.Failure? {
      return Failure(NoManifest), after;
    }
    CrateRootUnique(disk, cwd, crateRoot.value, root);
    var created, _ := FreshFile(disk, crateRoot.value + [ManifestName]);
    if created.Failure? {
      return Failure(Unreadable), after;
    }
    after := created.value;
    var out := serialize(edited.value);
    if out.None? {
      return Failure(Unserializable), after;
    }
    after := after[m := File(out.value + "\n")];
    r := Success(());
  }

  /** `extract_package_info` with its I/O: find the manifest, read and parse
      it, then extract. The metadata is that of the crate root's manifest. */
  method ReadPackageInfo(disk: Disk, cwd: Path, parse: string -> Option<Value>)
    returns (r: Result<PackageInfo, RunError>)
    ensures NoManifestAbove(disk, cwd) ==> r == Failure(NotFound)
    ensures r.Failure? ==> (r.error == NotFound <==> NoManifestAbove(disk, cwd))
    ensures r.Failure? ==> !r.error.Conflict?
    ensures r.Success? <==> !NoManifestAbove(disk, cwd) && forall root | IsCrateRoot(disk, cwd, root) ::
      && ManifestDocument(disk, root, parse).Some?
      && ExtractPackageInfo(ManifestDocument(disk, root, parse).value).Success?
    ensures forall root | IsCrateRoot(disk, cwd, root) ::
      var text := ReadToString(disk, root + [ManifestName]);
      var doc := ManifestDocument(disk, root, parse);
      && (r == Failure(ManifestUnreadable) <==> text.Failure?)
      && (r == Failure(ManifestUnparsable) <==> text.Success? && parse(text.value).None?)
      && (r == Failure(PackageMissing) <==> doc.Some? && ExtractPackageInfo(doc.value).Failure?)
      && (r.Success? ==> doc.Some? && ExtractPackageInfo(doc.value) == Success(r.value))
  {
    var found := OpenManifest(disk, cwd);
    if found.Failure? {
      return Failure(NotFound);
    }
    var m := found.value;
    ghost var root := m[..|m| - 1];
    assert m == root + [ManifestName];
    forall other | IsCrateRoot(disk, cwd, other)
      ensures other == root
    {
      CrateRootUnique(disk, cwd, other, root);
    }
    var text := ReadToString(disk, m);
    if text.Failure? {
      return Failure(ManifestUnreadable);
    }
    var doc := parse(text.value);
    if doc.None? {
      return Failure(ManifestUnparsable);
    }
    var extracted := ExtractPackageInfo(doc.value);
    if extracted.Failure? {
      return Failure(PackageMissing);
    }
    r := Success(extracted.value);
  }

  /** Lines 51-67 of `main`: the license goes to the crate root under the
      name the prefix count selects, replacing a regular file there, and
      holds the rendered template and a line break; no other path changes. */
  method WriteLicense(disk: Disk, cwd: Path, prefixCount: Option<nat>, info: PackageInfo,
                      year: string, template: string)
    returns (r: Result<Report, RunError>)
    ensures NoManifestAbove(disk, cwd) ==> r == Failure(NotFound)
    ensures r.Failure? ==> (r.error == NotFound <==> NoManifestAbove(disk, cwd))
    ensures r.Failure? ==> r.error == NotFound || r.error.Conflict?
    ensures r.Success? <==> !NoManifestAbove(disk, cwd) && forall root | IsCrateRoot(disk, cwd, root) ::
      Writable(disk, root + [LicenseFileName(FlagOn(prefixCount))])
    ensures forall root | IsCrateRoot(disk, cwd, root) ::
      var p := root + [LicenseFileName(FlagOn(prefixCount))];
      r == Failure(Conflict(p)) <==> !Writable(disk, p)
    ensures r.Success? ==>
      && IsCrateRoot(disk, cwd, r.value.root)
      && r.value.filename == LicenseFileName(FlagOn(prefixCount))
      && r.value.info == info
      && r.value.disk == disk[r.value.root + [r.value.filename] := File(RenderLicense(template, info, year) + "\n")]
      && r.value.disk.Keys == disk.Keys + {r.value.root + [r.value.filename]}
    ensures r.Failure? && r.error.Conflict? ==>
      && r.error.path in disk && !disk[r.error.path].File?
      && |r.error.path| > 0 && r.error.path[|r.error.path| - 1] == LicenseFileName(FlagOn(prefixCount))
  {
    var crateRoot := FindCrateRoot(disk, cwd);
    if crateRoot.Failure? {
      return Failure(NotFound);
    }
    forall other | IsCrateRoot(disk, cwd, other)
      ensures other == crateRoot.value
    {
      CrateRootUnique(disk, cwd, other, crateRoot.value);
    }
    var filename := LicenseFileName(FlagOn(prefixCount));
    var path := crateRoot.value + [filename];
    var created, _ := FreshFile(disk, path);
    if created.Failure? {
      return Failure(Conflict(path));
    }
    var license := RenderLicense(template, info, year);
    r := Success(Report(created.value[path := File(license + "\n")], crateRoot.value, filename, info));
  }

  /** Writing a file other than a manifest does not move the crate root. */
  lemma CrateRootKept(disk: Disk, cwd: Path, root: Path, path: Path, e: Entry)
    requires IsCrateRoot(disk, cwd, root)
    requires |path| > 0 && path[|path| - 1] != ManifestName
    ensures IsCrateRoot(disk[path := e], cwd, root)
  {
  }

  /** Lines 70-81 of `main`: when the update flag is on, run the update and
      ignore its failure, keeping the disk it leaves. Only the crate root's
      manifest can change. */
  method UpdateIfAsked(disk: Disk, cwd: Path, root: Path, update: bool, filename: string,
                       parse: string -> Option<Value>, serialize: Value -> Option<string>)
    returns (after: Disk)
    requires IsCrateRoot(disk, cwd, root)
    ensures after.Keys == disk.Keys
    ensures forall p | p in disk && p != root + [ManifestName] :: after[p] == disk[p]
    ensures !update ==> after == disk
    ensures update ==> after == ManifestUpdate(disk, root, filename, parse, serialize)
  {
    after := disk;
    if update {
      var _, updated := UpdateLicenseInfo(disk, cwd, filename, parse, serialize);
      forall p | p in disk && updated[p] != disk[p]
        ensures p == root + [ManifestName]
      {
        assert IsManifestOf(disk, cwd, p);
        CrateRootUnique(disk, cwd, p[..|p| - 1], root);
        assert p == p[..|p| - 1] + [ManifestName];
      }
      after := updated;
    }
  }

  /** One run of the tool: read the metadata, write the license, and update
      the manifest when asked. The license file is as `WriteLicense` leaves
      it; without the update nothing else changes, and with it only the
      manifest may change besides. An update failure does not fail the run. */
  method Run(disk: Disk, cwd: Path, prefixCount: Option<nat>, updateCount: Option<nat>,
             year: string, template: string,
             parse: string -> Option<Value>, serialize: Value -> Option<string>)
    returns (r: Result<Report, RunError>)
    ensures NoManifestAbove(disk, cwd) ==> r == Failure(NotFound)
    ensures r.Success? <==> !NoManifestAbove(disk, cwd) && forall root | IsCrateRoot(disk, cwd, root) ::
      && ManifestDocument(disk, root, parse).Some?
      && ExtractPackageInfo(ManifestDocument(disk, root, parse).value).Success?
      && Writable(disk, root + [LicenseFileName(FlagOn(prefixCount))])
    ensures forall root | IsCrateRoot(disk, cwd, root) ::
      var text := ReadToString(disk, root + [ManifestName]);
      var doc := ManifestDocument(disk, root, parse);
      var p := root + [LicenseFileName(FlagOn(prefixCount))];
      && (r == Failure(ManifestUnreadable) <==> text.Failure?)
      && (r == Failure(ManifestUnparsable) <==> text.Success? && parse(text.value).None?)
      && (r == Failure(PackageMissing) <==> doc.Some? && ExtractPackageInfo(doc.value).Failure?)
      && (r == Failure(Conflict(p)) <==> doc.Some? && ExtractPackageInfo(doc.value).Success? && !Writable(disk, p))
    ensures r.Success? ==>
      var license := r.value.root + [r.value.filename];
      && IsCrateRoot(disk, cwd, r.value.root)
      && r.value.filename == LicenseFileName(FlagOn(prefixCount))
      && ManifestDocument(disk, r.value.root, parse).Some?
      && ExtractPackageInfo(ManifestDocument(disk, r.value.root, parse).value) == Success(r.value.info)
      && license in r.value.disk
      && r.value.disk[license] == File(RenderLicense(template, r.value.info, year) + "\n")
      && (forall p | p in disk && p != license && p != r.value.root + [ManifestName] ::
            p in r.value.disk && r.value.disk[p] == disk[p])
      && r.value.disk.Keys == disk.Keys + {license}
      && (!FlagOn(updateCount) ==>
            r.value.disk == disk[license := File(RenderLicense(template, r.value.info, year) + "\n")])
      && (FlagOn(updateCount) ==>
            r.value.disk == ManifestUpdate(disk[license := File(RenderLicense(template, r.value.info, year) + "\n")],
                                           r.value.root, r.value.filename, parse, serialize))
  {
    var info :- ReadPackageInfo(disk, cwd, parse);
    var written :- WriteLicense(disk, cwd, prefixCount, info, year, template);
    var root := written.root;
    forall other | IsCrateRoot(disk, cwd, other)
      ensures other == root
    {
      CrateRootUnique(disk, cwd, other, root);
    }
    var license := root + [written.filename];
    CrateRootKept(disk, cwd, root, license, written.disk[license]);
    assert written.disk == disk[license := written.disk[license]];
    var updated := UpdateIfAsked(written.disk, cwd, root, FlagOn(updateCount), written.filename,
                                 parse, serialize);
    r := Success(written.(disk := updated));
  }
}
