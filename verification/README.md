# jlic in Dafny

A Dafny model of the core of `jlic`, a command that writes a license file
for a Rust crate and can point the crate's `Cargo.toml` at it. Every part of
the program is modelled except its I/O glue:

- the parsed manifest, as a TOML value with strings, integers, booleans,
  arrays and tables (`Toml`);
- `dequote_str`, which trims every leading and trailing `"` (`Quotes`);
- `format_authors`, which turns the `authors` array into one line
  (`Authors`);
- `PackageInfo` and the pure part of `extract_package_info`, with its
  `Unknown` defaults and its panic on a missing `package` (`Package`);
- the `{{name}}`/`{{version}}`/`{{year}}`/`{{authors}}` replace chain. Also
  the flag counts read as switches, and the choice between `LICENSE.md` and
  `JLICENSE.md` (`Render`);
- the table edit of `update_license_info`, which drops `license` and sets
  `license-file` (`Manifest`);
- `fresh_file` and the upward walk of `get_crate_root` and
  `get_cargo_manifest`, over an abstract disk that maps paths to entries
  (`FileSystem`);
- the order in which `main` and `update_license_info` call these steps.
  TOML parsing and printing are passed in as function parameters
  (`Command`).

The model follows the code as written. These behaviours are easy to miss:

- Two or more authors are written as ` A, B, and C`. The line starts with a
  space, every name but the last is followed by a comma, and the last is
  introduced by ` and `. Two authors give ` A, and B`, not `A and B`.
- A single author is written verbatim, without dequoting, so a string keeps
  its quotes: `"Ann"`. An empty array gives the empty line.
- `dequote_str` strips every quote at each end, not just one pair.
- The four replacements run one after the other. A placeholder that an
  earlier value brings in is filled by a later replacement.
- A directory named `Cargo.toml` also counts as a manifest during the walk,
  because the walk only asks whether the path exists. Reading it then fails.
- `update_license_info` empties the manifest with `fresh_file` before it
  prints the edited document. If printing fails, the manifest is left empty.

## Model

| member | source | states |
|---|---|---|
| `Toml.Display` | src/main.rs:207-208 | a value's display is never empty; it starts with `"` exactly when the value is a string; it never starts with `U`, so it can never be `Unknown` |
| `Quotes.TrimStart` | src/main.rs:215 | what is left is a suffix of the input that does not start with `"`, and everything removed was quotes |
| `Quotes.TrimEnd` | src/main.rs:215 | what is left is a prefix of the input that does not end with `"`, and everything removed was quotes |
| `Quotes.Dequote` | src/main.rs:214-216 | the result neither starts nor ends with `"` |
| `Quotes.DequoteSplits` | src/main.rs:214-216 | the input is a run of quotes, then the result, then a run of quotes, so interior quotes are kept |
| `Quotes.DequoteUnique` | src/main.rs:214-216 | whenever the input is quotes, then an unquoted middle, then quotes, the result is exactly that middle, however many quotes each end holds |
| `Quotes.DequoteIdempotent` | src/main.rs:214-216 | dequoting twice gives the same as dequoting once |
| `Quotes.DequoteQuoted` | src/main.rs:207-208 | dequoting the displayed form of a string without end quotes gives the string back |
| `Authors.AccumulateIsProse` | src/main.rs:225-231 | the loop, from any index and any accumulator, appends the independently defined prose of the remaining names |
| `Authors.FormatAuthorsUnknown` | src/main.rs:219-237 | the result is `Unknown` if and only if the entry is missing or is not an array |
| `Authors.FormatAuthorsShape` | src/main.rs:221-233 | an empty array gives `""`; one entry gives its display verbatim, so a string keeps its quotes; two or more give the prose of the dequoted names in order |
| `Authors.FormatStringAuthors` | src/main.rs:225-231 | string authors without end quotes give the prose of the names themselves |
| `Authors.FormatTwoAuthors` | src/main.rs:225-231 | `[A, B]` gives ` A, and B` |
| `Package.ExtractPackageInfo` | src/main.rs:202-211 | extraction fails (the source panics) exactly when the document has no `package` entry |
| `Package.ExtractDefaults` | src/main.rs:205-210 | each of `name`, `version`, `authors` is `Unknown` when missing, independently of the others; a `package` that is not a table makes all three `Unknown` |
| `Package.ExtractPresentFields` | src/main.rs:207-209 | a string `name` or `version` without end quotes comes out as itself; `authors` is `Unknown` exactly when missing or not an array |
| `Render.ReplaceAbsent` | src/main.rs:59-63 | replacing a pattern that does not occur leaves the text unchanged |
| `Render.RenderWithoutTokens` | src/main.rs:59-63 | a template with none of the four tokens is returned unchanged |
| `Render.RenderIsSequential` | src/main.rs:59-63 | the replacements run in order, so a name of `{{year}}` renders as the year |
| `Render.ReplaceSlots` | src/main.rs:60-63 | on a template of plain text and tokens, one replacement is the same as filling that placeholder's slots and leaving the other tokens in place |
| `Render.RenderFillsTemplate` | src/main.rs:59-63 | when the literal text and the values contain no `{`, the chain gives the same text as filling every placeholder in one pass |
| `Render.FlagOn` | src/main.rs:20-32 | a flag is on exactly when it was counted at least once |
| `Render.FileNameFromCount` | src/main.rs:52 | the file is `JLICENSE.md` exactly when the prefix count is at least one, and `LICENSE.md` otherwise |
| `Manifest.SetLicenseFile` | src/main.rs:169-190 | succeeds exactly when `package` is a table; then `license` is gone, `license-file` is the file name, all other package keys and top-level entries are unchanged |
| `Manifest.SetLicenseFileIdempotent` | src/main.rs:173-178 | updating an updated manifest with the same name changes nothing |
| `Manifest.SetLicenseFileLastWins` | src/main.rs:173-178 | of two updates only the last file name survives |
| `FileSystem.FindCrateRoot` | src/main.rs:144-151 | returns the deepest ancestor of the working directory, itself included, that holds a manifest; fails exactly when none up to the root does; each step shortens the path |
| `FileSystem.CrateRootUnique` | src/main.rs:144-151 | a working directory has at most one crate root |
| `FileSystem.OpenManifest` | src/main.rs:134-141 | opens the manifest in the crate root; fails exactly when no ancestor holds one |
| `FileSystem.ReadToString` | src/main.rs:154-158 | reading succeeds exactly on a regular file and gives its text |
| `FileSystem.FreshFile` | src/main.rs:119-131 | a free path or a regular file ends as a new empty file and no other path changes; at most one removal happens, and only when a file was there; any other entry is an error |
| `Command.EditedManifest` | src/main.rs:167-183 | it succeeds exactly when the text parses, `package` is a table and the edited document prints, and then gives the printed edited document; a parse failure is `Unparsable` and a missing or non-table `package` is `NoPackageTable`, each exactly |
| `Command.UpdateLicenseInfo` | src/main.rs:164-191 | only the crate root's manifest can change; on success it holds the edited document and a line break; an early failure changes nothing; a printing failure leaves the manifest empty |
| `Command.ReadPackageInfo` | src/main.rs:202-210 | it succeeds exactly when a crate root exists whose manifest reads, parses and has a `package`, and then gives that manifest's metadata; `NotFound`, `ManifestUnreadable`, `ManifestUnparsable` and `PackageMissing` each hold exactly when their cause does |
| `Command.WriteLicense` | src/main.rs:51-67 | it succeeds exactly when a crate root exists and the license path there is free or a regular file; then the disk gains that one path, named by the prefix count, holding the rendered template and a line break, and nothing else changes; a conflict on the path happens exactly when it holds a non-file entry |
| `Command.UpdateIfAsked` | src/main.rs:70-81 | with the flag off nothing changes; with it on the disk is what `update_license_info` leaves (the edited manifest, an emptied one after a printing failure, or no change after an earlier failure), and the failure itself is dropped |
| `Command.Run` | src/main.rs:40-81 | a run succeeds exactly when a crate root exists whose manifest yields metadata and whose license path is free or a regular file, whatever the update does; each failure holds exactly when its cause does; a successful run adds only the license path, writes the rendered license, and changes the manifest only as the update does when asked |

## Left out

- Argument parsing and logging (src/main.rs:8-19, 26, 33, 110-116) are glue. The prefix and update counts are inputs of type `Option<nat>`. The `u8` saturation of the counts is not modelled.
- The current year (src/main.rs:45) comes from the clock, so it is a string parameter.
- `git add` and the success message (src/main.rs:84-92) are an external process and terminal output.
- TOML parsing and pretty-printing (src/main.rs:159, 183) are foreign library calls. They are function parameters of `Command`.
- Toml.Display: string escaping is not modelled; a string displays as `"` + text + `"`. A table displays abstractly as `{...}`. Floats and datetimes are not among the value kinds.
- The template text (src/main.rs:101) is not part of this model. It is a parameter.
- Table key order is not modelled. Overwriting `license-file` in place and inserting it at the end give the same map.
- Paths are sequences of components. The `"{}/{}"` string a path is built from, and `to_string_lossy`, are not modelled.
- FileSystem.FreshFile: removal by `rm` always succeeds. The source ignores `rm`'s exit status, so a failed removal would make its recursion repeat without end. Symlinks and permissions are not modelled. `File::create` never fails. The method returns the new disk instead of an open handle.
- I/O errors of `current_dir`, `read_to_string` and `writeln!` are not modelled, except that reading needs a regular file. A write makes the file hold the text and a line break.
- The race between the metadata read and the update's second read of the manifest cannot happen here: the model is sequential.
