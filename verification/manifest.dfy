/** The table mutation of `update_license_info`: drop `license` from the
    `package` table and point `license-file` at the generated file. */
module Manifest {
  import opened Wrappers
  import opened Toml

  /** `package` is missing or is not a table: the manifest cannot be updated. */
  datatype UpdateError = CouldNotUpdate

  /** The document has a `package` entry that is a table. */
  predicate HasPackageTable(doc: Value)
  {
    doc.Table? && "package" in doc.entries && doc.entries["package"].Table?
  }

  /** The package table after the edit. The source overwrites an existing
      `license-file` in place and inserts a missing one; with key order not
      modelled, both come to the same map. */
  function EditPackage(package: map<string, Value>, filename: string): map<string, Value>
  {
    (package - {"license"})["license-file" := String(filename)]
  }

  /** Succeeds exactly when `package` is a table. Then `license` is gone,
      `license-file` names `filename`, every other package key keeps its
      value, and every other top-level entry is untouched. */
  function SetLicenseFile(doc: Value, filename: string): (r: Result<Value, UpdateError>)
    ensures r.Success? <==> HasPackageTable(doc)
    ensures r.Success? ==>
      && r.value.Table?
      && r.value.entries.Keys == doc.entries.Keys
      && (forall k :: k in doc.entries && k != "package" ==> r.value.entries[k] == doc.entries[k])
      && r.value.entries["package"].Table?
      && var before := doc.entries["package"].entries;
         var after := r.value.entries["package"].entries;
         && "license" !in after
         && "license-file" in after && after["license-file"] == String(filename)
         && after.Keys == before.Keys - {"license"} + {"license-file"}
         && (forall k :: k in before && k != "license" && k != "license-file" ==> after[k] == before[k])
  {
    if doc.Table? && "package" in doc.entries then
      match doc.entries["package"]
      case Table(package) =>
        Success(Table(doc.entries["package" := Table(EditPackage(package, filename))]))
      case _ => Failure(CouldNotUpdate)
    else
      Failure(CouldNotUpdate)
  }

  /** Updating an already updated manifest with the same file name changes nothing. */
  lemma SetLicenseFileIdempotent(doc: Value, filename: string)
    requires HasPackageTable(doc)
    ensures SetLicenseFile(SetLicenseFile(doc, filename).value, filename) == SetLicenseFile(doc, filename)
  {
    var once := SetLicenseFile(doc, filename).value;
    var twice := SetLicenseFile(once, filename).value;
    var p1 := once.entries["package"].entries;
    assert twice.entries["package"].entries == p1;
    assert twice.entries == once.entries;
  }

  /** A later update overrides an earlier one: only the last file name survives. */
  lemma SetLicenseFileLastWins(doc: Value, first: string, second: string)
    requires HasPackageTable(doc)
    ensures SetLicenseFile(SetLicenseFile(doc, first).value, second) == SetLicenseFile(doc, second)
  {
    var a := SetLicenseFile(SetLicenseFile(doc, first).value, second).value;
    var b := SetLicenseFile(doc, second).value;
    assert a.entries["package"].entries == b.entries["package"].entries;
    assert a.entries == b.entries;
  }
}
