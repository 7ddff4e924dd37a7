/** `PackageInfo` and the pure part of `extract_package_info`: reading
    `name`, `version` and `authors` out of the manifest's `package` entry. */
module Package {
  import opened Wrappers
  import opened Toml
  import opened Quotes
  import opened Authors

  const Unknown: string := "Unknown"

  /** The metadata the license template is filled with, each field display-ready. */
  datatype PackageInfo = PackageInfo(name: string, version: string, authors: string)

  /** The one way extraction fails: the document has no `package` entry, on
      which the source panics. */
  datatype ExtractError = MissingPackage

  /** A scalar field of the package: its dequoted display form, or `Unknown`. */
  function FieldText(package: Value, key: string): string
  {
    match Get(package, key)
    case Some(v) => Dequote(Display(v))
    case None => Unknown
  }

  /** Extraction fails exactly when the document has no `package` entry. */
  function ExtractPackageInfo(doc: Value): (r: Result<PackageInfo, ExtractError>)
    ensures r.Failure? <==> !(doc.Table? && "package" in doc.entries)
  {
    match Get(doc, "package")
    case None => Failure(MissingPackage)
    case Some(package) =>
      Success(PackageInfo(
        FieldText(package, "name"),
        FieldText(package, "version"),
        FormatAuthors(Get(package, "authors"))))
  }

  /** `key` is not read from `package`: either `package` is not a table or it has no `key` entry. */
  predicate Lacks(package: Value, key: string)
  {
    !(package.Table? && key in package.entries)
  }

  /** Each of `name`, `version` and `authors` falls back to `Unknown`
      independently of the others when it is missing, and a `package` entry
      that is not a table leaves all three `Unknown`. */
  lemma ExtractDefaults(doc: Value)
    requires doc.Table? && "package" in doc.entries
    ensures var p := doc.entries["package"];
      && (Lacks(p, "name") ==> ExtractPackageInfo(doc).value.name == Unknown)
      && (Lacks(p, "version") ==> ExtractPackageInfo(doc).value.version == Unknown)
      && (Lacks(p, "authors") ==> ExtractPackageInfo(doc).value.authors == Unknown)
      && (!p.Table? ==> ExtractPackageInfo(doc).value == PackageInfo(Unknown, Unknown, Unknown))
  {
    FormatAuthorsUnknown(Get(doc.entries["package"], "authors"));
  }

  /** A present field is read through its display form: a string without
      quotes at its ends comes out as itself, and `authors` is `Unknown`
      exactly when it is missing or not an array. */
  lemma ExtractPresentFields(doc: Value, name: string, version: string)
    requires doc.Table? && "package" in doc.entries && doc.entries["package"].Table?
    requires Unquoted(name) && Unquoted(version)
    ensures var p := doc.entries["package"].entries;
      && ("name" in p && p["name"] == String(name) ==> ExtractPackageInfo(doc).value.name == name)
      && ("version" in p && p["version"] == String(version) ==>
            ExtractPackageInfo(doc).value.version == version)
      && (ExtractPackageInfo(doc).value.authors == Unknown <==>
            !("authors" in p && p["authors"].Array?))
  {
    NameOfString(name);
    NameOfString(version);
    FormatAuthorsUnknown(Get(doc.entries["package"], "authors"));
  }
}
