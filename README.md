# fs-lint, modelled in Dafny

fs-lint (`scripts/fs-lint/index.ts`) walks a directory tree. It looks for files and
directories whose names begin or end with white space. In list mode it reports them.
In fix mode (`--fix`) it renames each one to its trimmed name.

This project models that walk over an abstract file system. The tree is a datatype of
`File(name)` and `Dir(name, children)` entries. A `FileSystem` object holds the tree and
can list a directory, tell whether an entry is a directory, and rename an entry. The
linter itself is a class `FsLint` with the same operations as the original:

- `LintPath` trims one base name and either reports the path or renames it.
- `LintDirectory` is a loop over the listing. It collects issues into a sequence, and
  `LintItem` is its per-entry callback.
- `Run` makes the exit decision, and `SelectMode` chooses the mode from the arguments.

Each method is proved against pure functions of the tree:

- `PathIssue` is the issue of one path.
- `Issues` is every issue of a walk, in reporting order.
- `FixAll` is the tree a fix run leaves behind.
- `Fixable` says when a fix run can go through: every name trims to a valid name, and
  no two siblings trim to the same name.

Lemmas then state what the tool promises about those functions.

Modules:

- `TrimString` (trim.dfy) is the TrimString operation of ECMA-262 (2024 edition,
  section 22.1.3.32.1) behind `trimStart().trimEnd()`. It removes the WhiteSpace
  (section 12.2) and LineTerminator (section 12.3) code points.
- `Paths` covers paths as sequences of components; the scan root "." is the empty path.
- `FileSystem` covers the tree, and the class that stands in for `node:fs`.
- `Lint` holds the specification functions and the lemmas about them.
- `FsLint` holds the linter class, the run, and the command.

A name made only of white space trims to "". `join(dirname(p), "")` is then the directory
that holds the entry, not a sibling of it. The code does this, and the model follows it:
- the issue's fixed path is the parent directory;
- in fix mode the rename fails, and the run ends with an error.

So the fixed path has the original's parent only when the trimmed name is not empty.
`Lint.PathIssueSpec` states both cases.

## Model

| member | source | states |
|---|---|---|
| `TrimString.Trim` | scripts/fs-lint/index.ts:17 | `trimStart().trimEnd()` leaves a string with nothing strippable at either end; the result equals the input exactly when the input is already trimmed, so trimming twice changes nothing more |
| `TrimString.TrimSlice` | scripts/fs-lint/index.ts:17 | the trimmed name is a contiguous part of the name, and everything cut from either end is white space or a line terminator |
| `TrimString.TrimEmpty` | scripts/fs-lint/index.ts:17 | a name trims to "" exactly when every code point of it is white space or a line terminator |
| `Lint.PathIssueSpec` | scripts/fs-lint/index.ts:16-27 | `lintPath` yields an issue exactly when trimming changes the base name; the issue carries the run's mode and the original path; its fixed path has the same parent and the trimmed, already-trimmed base name, except that an all-white-space name gives the parent directory itself |
| `FsLint.FsLint.constructor` | scripts/fs-lint/index.ts:11-14 | the run keeps the mode and directory it is given |
| `FsLint.FsLint.LintPath` | scripts/fs-lint/index.ts:16-27 | the result is that issue; list mode, or a name needing no trimming, changes nothing; fix mode renames the entry to the trimmed sibling before returning the issue; it succeeds exactly when the rename is possible, and a failed rename changes nothing |
| `FileSystem.FileSystem.ReadDir` | scripts/fs-lint/index.ts:30 | `readdirSync` succeeds exactly on a directory and gives the names of its entries in listing order |
| `FileSystem.FileSystem.Stat` | scripts/fs-lint/index.ts:35-37 | `statSync` succeeds exactly on an existing entry and reports a directory exactly when the path lists as one |
| `FileSystem.FileSystem.Rename` | scripts/fs-lint/index.ts:20 | `renameSync` within a directory succeeds exactly when the source exists and the target is a free, valid name; it then changes that one name and keeps the tree well-formed; otherwise it changes nothing |
| `FileSystem.RenameInListing` | scripts/fs-lint/index.ts:20 | renaming entry k of a directory to t goes through exactly when t is a valid name no sibling has, and then changes entry k's name only |
| `Lint.RenameToTrimmed` | scripts/fs-lint/index.ts:41 | once a directory's insides are handled, renaming it to its trimmed name goes through exactly when that name is valid and no sibling has it, and changes only that name |
| `FsLint.FsLint.LintDirectory` | scripts/fs-lint/index.ts:29-46 | a missing directory is an error that changes nothing; otherwise the issues are `Issues` of the listing; list mode always succeeds and changes nothing; fix mode succeeds exactly when the tree is `Fixable`, and then leaves the directory holding `FixAll` of its listing |
| `FsLint.FsLint.LintItem` | scripts/fs-lint/index.ts:33-43 | for one listed item: a directory is walked first, under its original path, and then the item's own issue is appended; list mode changes nothing; fix mode succeeds exactly when the entry is `EntryFixable`, and then replaces the entry by its fixed form; when only the entry's own rename fails, the renames inside it stay made and the entry keeps its old name with its insides fixed (`InsidesFixed`) |
| `Lint.NotEntryFixable` | scripts/fs-lint/index.ts:33-43 | if an entry cannot be fixed after the entries listed before it are fixed, the tree is not fixable, so a fix run that fails has met a tree that cannot be fixed |
| `Lint.IssuesConcat` | scripts/fs-lint/index.ts:33-43 | issues follow listing order: the issues of entries `a + b` are those of `a` followed by those of `b` |
| `Lint.IssuesSplit` | scripts/fs-lint/index.ts:33-43 | the issues of entry k come after those of every entry listed before it and before those of every entry listed after it |
| `Lint.IssuesBelow` | scripts/fs-lint/index.ts:19-23 | every issue of a walk carries the run's mode as its action, and the original path of an entry strictly below the walked directory |
| `Lint.ChildrenBeforeParent` | scripts/fs-lint/index.ts:37-42 | an entry's issues end with its own issue, if it has one, and every issue before that is of an entry strictly below it, reported under its original, untrimmed path |
| `Lint.IssuesCount` | scripts/fs-lint/index.ts:29-45 | in a tree with no empty names, the number of issues is the number of entries whose names trimming would change |
| `Lint.UntrimmedZero` | scripts/fs-lint/index.ts:84 | no entry needs trimming exactly when every name in the tree is trimmed |
| `Lint.IssuesEmpty` | scripts/fs-lint/index.ts:84 | a walk reports no issues exactly when every name in the tree is already trimmed |
| `Lint.FixAllTrimmed` | scripts/fs-lint/index.ts:17-21 | after a fix run every name in the tree is trimmed |
| `Lint.FixThenListClean` | scripts/fs-lint/index.ts:29-45 | when a fix run can go through (no empty trimmed names, no sibling collisions), a list run over the fixed tree reports nothing |
| `FsLint.Includes` | scripts/fs-lint/index.ts:153 | `argv.includes(x)` holds exactly when x is one of the arguments |
| `FsLint.SelectMode` | scripts/fs-lint/index.ts:153 | the mode is fix exactly when `--fix` is among the arguments, and list otherwise |
| `FsLint.ExitStatus` | scripts/fs-lint/index.ts:84-106 | the exit status is 1 exactly for a list run with at least one issue, and 0 otherwise |
| `FsLint.FsLint.Run` | scripts/fs-lint/index.ts:48-145 | an error during the walk ends the run abnormally; a list run exits 1 exactly when some name is untrimmed and changes nothing; a fix run ends normally exactly on a fixable tree, with status 0, leaving the fixed tree |
| `FsLint.RunCommand` | scripts/fs-lint/index.ts:152-158 | the command over ".": without `--fix` it exits 0 exactly when every name is trimmed and changes nothing; with `--fix` it ends normally exactly when the tree is fixable and then leaves `FixAll` of it |
| `FsLint.FixThenList` | scripts/fs-lint/index.ts:152-158 | a fix run that ends normally is followed by a list run that exits 0, over the tree with every name trimmed |

## Left out

- Spinners, colours, tables, console messages and the `delay` timers in `run` (lines 48–145, 147–149) are presentation only. The model keeps only the walk and the exit decision.
- The entry-point check `import.meta.url === ...` (lines 160–162) concerns how the script is launched, so it is not modelled.
- `src/app.ts`, `src/app.spec.ts` and `eslint.config.js` are not part of this model: they are unrelated helpers, tests and configuration.
- `node:fs` is reduced to a tree of files and directories. Permissions, symbolic links, other file types and I/O errors are not modelled, and `statSync` is reduced to "is it a directory".
- Renaming onto an existing entry is an error. POSIX `rename` would replace an existing file or empty directory; the model is stricter here.
- A target named "." or ".." is an error. `path.join` would normalise such a name into another path, and that normalisation is not modelled.
- Paths are sequences of name components. Separators, normalisation and names containing a separator are absent.
- Only renames within one directory are modelled, since those are the only ones `lintPath` asks for.
- JavaScript strings are UTF-16 code units; here a name is a sequence of code points. Trimming agrees, because every WhiteSpace and LineTerminator code point lies in the Basic Multilingual Plane.
- `run` is `async` and its promise is not awaited (line 157). An error thrown by the file system inside it becomes a rejected promise, which the model records as `Crash`, an abnormal end, without modelling Node's handling of it.
- `FsLint.FsLint.LintDirectory`: after a fix run fails, the contract states only that the tree is still well-formed. It does not state which renames were made before the failure.
- `FsLint.FsLint.Run`: after a crashed fix run the contract likewise states only that the tree is still well-formed.
- `FsLint.FsLint.LintItem`: when the walk of a sub-directory fails in a fix run, the contract states only that the tree is still well-formed, as for `LintDirectory`. A failure of the entry's own rename is stated in full.
- `FsLint.RunCommand`: after a crashed `--fix` run the contract states only that the tree is still well-formed, as for `Run`.
- `FileSystem.FileSystem.Rename` keeps a renamed entry at its place in its directory's listing. Node does not promise any `readdirSync` order after a rename. The walk never lists a directory again after renaming inside it, so its issues do not depend on that order.
- `FsLint.FsLint.constructor` takes the directory explicitly. The default `'.'` of line 11 is not modelled; the only caller passes `'.'` (line 156).
