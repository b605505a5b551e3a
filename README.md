# react-clean-setup scaffolder core, in Dafny

The scaffolder (`cli.js`) asks for a project name and three multi-select lists: UI libraries, state management and common libraries. It copies a template directory, then patches two files of the copy:

- `src/App.jsx`: the first `<div className='main'>…</div>` on one line gets the project name as its text;
- `package.json`: `name` is set and both dependency sections are created if absent. Then each category is handled on its own. If its selection list is non-empty and does not contain "None", every selected library that has a `case` in that category's `switch` is upserted into `dependencies` from the `case`'s fixed (package, version) pairs.

This project models the deterministic part of that run and proves properties of it. The modules are:

- `NameValidation`: the validator of the name prompt.
- `Catalog`: the three choice lists and the three `switch` tables, as table functions. It also holds `Versions`, one map giving every package its single version constraint. The tables are checked against `Versions`.
- `AppFile`: the one fixed-pattern replacement `/<div className='main'>.*<\/div>/`, written as string functions for exactly this pattern:
  - the match starts at the leftmost opening marker that has a `</div>` later on the same line;
  - `.` does not cross `\n`, `\r`, U+2028 or U+2029;
  - the greedy `.*` runs to the last `</div>` on that line;
  - only the first match is replaced.
- `Manifest`:
  - the manifest is a record: `name`, `dependencies` and `devDependencies`, each possibly absent, plus the other top-level fields, kept opaque;
  - `PatchManifest` is the patch block with its loops. Each category's guarded `forEach` over `switch` rows is a loop of map writes;
  - `PatchManifest` is proved equal to `Patch`, a reference definition that does not depend on the order of the writes: the old dependencies, overridden by every contributed package at its one version;
  - the listed properties are lemmas about `Patch`.

The comment at cli.js:104 says only the text inside the div is replaced. The model follows the code instead: its `.*` is greedy, so when more `</div>` follow on the marker's line, the replaced span runs to the LAST of them, not to the one that closes the div.

## Model

| member | source | states |
|---|---|---|
| NameValidation.ValidateName | cli.js:39 | The name is accepted exactly when it is non-empty; a rejection carries the message "Project name cannot be empty." |
| Catalog.Choices | cli.js:45-96 | Definition without a contract, checked by reading: the three choice arrays, each with its nine entries in the prompt's order and the same values. Colouring of the labels is dropped. |
| Catalog.Table | cli.js:157-233 | Definition without a contract, checked by reading: for each category and value, the (package, version) pairs of its `case`, in the order they are written, and none for a value without a `case`. The versions are also checked against `Versions` by `TableAgreesWithVersions`. |
| Catalog.NoneOffered | cli.js:45-96 | Every category's choice list offers the value "None". |
| Catalog.TableAgreesWithVersions | cli.js:156-233 | Every (package, version) pair written by any `case` of any category carries the one version `Versions` gives that package, so shared packages (`@emotion/react`, `@emotion/styled`) are written with one version. |
| Catalog.TableOnlyForCatalogValues | cli.js:155-234 | Only values the prompts offer, and never "None", have `case` rows. |
| Catalog.UnmappedExactly | cli.js:45-71 | Among a prompt's values other than "None", exactly Semantic UI React, Blueprint, Evergreen, XState, Jotai and Apollo Client have no `case`. |
| AppFile.LineEnd | cli.js:106 | The position where a line ends: the stretch up to it has no line terminator, and it is the end of the text or a terminator. |
| AppFile.LastClose | cli.js:106 | The backtracking of the greedy `.*` returns a `</div>` inside the line, and no later `</div>` fits; none is returned only when no `</div>` fits. |
| AppFile.GreedyEnd | cli.js:106 | For an opening marker, the match end found is a match, and it is the longest match from that marker. |
| AppFile.FindFrom | cli.js:105-108 | The search returns a match whose start is the leftmost of all matches at or after its start position, with the longest end; it returns none exactly when there is no match. |
| AppFile.FindFirstMatch | cli.js:105-108 | A first match exists exactly when some match exists, and it is unique. |
| AppFile.PatchApp | cli.js:105-108 | With no match the text is unchanged. Otherwise the text is the part before the first match, then `<div className='main'>` + name + `</div>`, then the part after the last `</div>` on that line. The name must contain no `$`. |
| AppFile.PatchAppIdempotent | cli.js:105-108 | Patching the patched text again with the same name gives the same text, when the name holds no `$` and no line terminator. |
| Manifest.Selected | cli.js:155 | Definition without a contract: the guard `libs.length && !libs.includes("None")`, the same test at cli.js:181 and cli.js:205. |
| Manifest.Patch | cli.js:149-234 | Reference definition without a contract: name set and `devDependencies || {}`; the old dependencies (or `{}`) overridden by every package that a guarded-in category contributes, at its table version; other fields kept. `PatchManifest` is proved equal to it, and the lemmas below are about it. |
| Manifest.WriteRow | cli.js:157-176 | Writing one selection's `case` rows in order leaves the old map overridden by exactly that row's packages at their versions. |
| Manifest.AddCategory | cli.js:155-179 | One guarded category loop yields the old dependencies overridden by the category's contributed packages at their versions. Nothing is added when the list is empty or contains "None". |
| Manifest.PatchManifest | cli.js:149-234 | The sequence of writes equals the reference `Patch`. The name is the project name, `devDependencies` is the old value or `{}`, and the other fields are kept. |
| Manifest.PatchKeepsDependencies | cli.js:152-234 | No dependency key is removed. Every entry is either an old entry untouched, or a contributed package holding its table version, and every contributed package is present. |
| Manifest.GuardedCategoryAddsNothing | cli.js:155-205 | A category whose list is empty or contains "None" contributes nothing, independently of the other two categories. With all three guarded off, the dependencies are the old ones. |
| Manifest.MuiAddsExactly | cli.js:158-162 | Selecting only MUI gives the old dependencies plus exactly `@mui/material` ^5.14.11, `@emotion/react` ^11.11.1 and `@emotion/styled` ^11.11.0. |
| Manifest.ReduxAddsExactly | cli.js:184-187 | Selecting only Redux gives the old dependencies plus exactly `redux` ^4.2.1 and `react-redux` ^8.1.1. |
| Manifest.UnmappedSelectionAddsNothing | cli.js:157-201 | Inserting a value that has no `case` anywhere into a selection list does not change what the category contributes. |
| Manifest.PatchOrderIndependent | cli.js:155-234 | Lists that hold the same values give the same manifest, whatever their order or repetitions. |
| Manifest.PatchIdempotent | cli.js:149-234 | Applying `Patch` to its own result with the same answers gives the same manifest. |

## Left out

- Terminal UI is not modelled: the inquirer prompts, the instructions screen, the banner, chalk colouring and console messages (cli.js:15-31, cli.js:114-133, cli.js:239-253). Choice labels are kept as plain text without colour.
- Filesystem I/O is not modelled: `ensureDirSync`, `copySync`, reading and writing `App.jsx` and `package.json`, and path resolution (cli.js:11-12, cli.js:101-102, cli.js:110, cli.js:136-147). The patches work on in-memory strings and records.
- JSON parsing and serialisation are not modelled (cli.js:148, cli.js:236). This covers two-space indentation and the insertion order of object keys. Maps are unordered, and the other top-level fields of `package.json` are opaque strings that the patch keeps.
- Manifest.PackageJson does not require its other fields to avoid the keys `name`, `dependencies` and `devDependencies`. A value holding one of those keys in `otherFields` corresponds to no JSON document, so the model is meant for values without them. The patch only replaces the three dedicated fields and passes `otherFields` through unchanged (`PatchManifest` ensures `r.otherFields == m.otherFields`), so such a value stays as it was.
- PatchManifest treats any falsy `dependencies` or `devDependencies` as absent, which matches `|| {}`. A section that is present but is not an object (a truthy string or number) is not modelled.
- `execSync("npm install")` and its try/catch are not modelled, because they run an external process (cli.js:240-245).
- AppFile.PatchApp: the `$` patterns of `String.prototype.replace` are not modelled. A precondition excludes `$` from the name instead.
- AppFile.PatchApp works on Unicode characters, while JavaScript strings are UTF-16 code units. For this pattern that makes no difference: the pattern and the line terminators are all in the Basic Multilingual Plane, and `.` matches either half of a surrogate pair.
- No general regular-expression engine is modelled, only the one fixed pattern.
- The order of the three steps inside `runCLI` (copy, App patch, manifest patch) is not modelled as a composition, because the two patches act on different files and share only the project name.
