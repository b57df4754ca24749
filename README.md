# projects-directory: a verified model

`projects-directory` is a small command-line tool. It asks for a base path and
then works on `<base>/Projects`. With `--create` it makes `Projects` if it is
missing. It then makes one sub-folder for each project type the user ticks,
and reports which folders it created and which already existed. With
`--remove` it first asks whether to delete the whole `Projects` tree. If the
answer is yes, it deletes that tree. If no, it deletes the ticked
sub-folders, with everything inside them, and reports which ones it deleted
and which were already gone. The list of project types comes from a catalogue
file. Each entry has a name, an optional description and a colour. The colour
is either one hex colour or a list of `[hex, start, end]` ranges that colour
parts of the name.

This project models that behaviour in Dafny and proves properties of it.

- `wrappers.dfy`: `Option` and `Result`.
- `selections.dfy`: picking the elements of a sequence by a boolean mask,
  keeping their order. The reports of the two folder loops are stated this
  way.
- `paths.dfy`: the filesystem is the set of paths that exist. A path is a
  sequence of name segments, and `path.join(base, name)` appends one segment
  (`Child`). A set that a real filesystem can hold is `Closed`: it contains
  the root and the parent of each path in it. `Mkdir` models `fs.mkdirSync`,
  which is not recursive: it fails with ENOENT when the parent is missing and
  with EEXIST when the path is already there. `RemoveTree` models
  `fs.rmSync(p, { recursive: true, force: true })`.
- `folders.dfy`: `createFolders` and `deleteFolders` as pure folds over the
  selection (`CreateRun`, `DeleteRun`). Lemmas give the closed form of their
  reports and of the paths they leave behind.
- `commands.dfy`: the filesystem part of `main`. The create flow makes sure
  `Projects` exists, then runs `createFolders` inside it. The remove flow
  either deletes the whole tree or runs `deleteFolders`. The answers to the
  prompts become parameters.
- `workspace.dfy`: class `FileTree`. Its field `paths` is the filesystem, and
  the operations update it in place. `CreateFolders` and `DeleteFolders` are
  the source's loops, with loop invariants. Each method is proved equal to
  its fold.
- `labels.dfy`: `isWhitespace` and the plain text of each checkbox choice,
  without the colour codes.

The interactive prompts, the console and the current directory are left out.
The base path, the answer to the confirm prompt and the selected names are
parameters instead.

In the source, `createFolders` can throw part-way through, because
`mkdirSync` throws. The model returns the error as a `Failure` and keeps the
state reached at that point, with no rollback. In the model, though, a throw
happens only at the first `mkdirSync`, and only when the base path is
missing; nothing has changed by then (`CreateRunSucceeds`,
`CreateRunMissingBase`). A throw part-way through would need an I/O error,
and those are left out.

Behaviours of the code worth knowing:

- The selection is an array in the code, not a set. So the model allows
  repeated names. A repeated name is reported as already existing (create)
  or already deleted (remove) on its second visit.
- `Projects` is made with a non-recursive `mkdirSync`. A missing base path
  therefore ends the create flow with ENOENT. `CreateFlowOutcome` states this
  case.
- "Create then remove restores the directory" holds only when none of the
  selected folders existed before the create. Otherwise the remove also
  deletes folders, and their contents, that were there before. The lemmas
  `CreateThenDelete` and `CreateThenRemove` carry this hypothesis.
- The folder for a catalogue entry is named by the entry's `name` field, not
  by its key in the catalogue file. The code never uses the key.

## Model

| member | source | states |
|---|---|---|
| Paths.Child | index.js:57 | `path.join(base, lang)` is `base` followed by one segment `lang` |
| Paths.Mkdir | index.js:59 | `mkdirSync` succeeds exactly when the path is new and its parent exists, and then adds only that path. An absent path with a missing parent gives ENOENT. A closed filesystem stays closed |
| Paths.RemoveTree | index.js:76 | the recursive forced remove deletes the path and everything beneath it, and keeps every other path. A closed filesystem stays closed |
| Paths.RemoveAbsentTree | index.js:138-142 | removing an absent tree from a closed filesystem changes nothing |
| Selections.SelectPartition | index.js:56-63 | the two report lists, one taking the positions a mask marks and the other the positions it leaves unmarked, together hold each element of the selection exactly as often as the selection does |
| Folders.CreateRun | index.js:52-67 | the `createFolders` loop never removes a path and keeps the filesystem closed |
| Folders.DeleteRun | index.js:69-84 | the `deleteFolders` loop never adds a path and keeps the filesystem closed |
| Folders.CreateRunFailureSticks | index.js:56-60 | after `mkdirSync` throws, the rest of the selection is not visited: state and error stay those of the throw |
| Folders.CreateRunOutcome | index.js:56-63 | when the loop completes, `lang` is in `created` exactly when `base/lang` was absent at its iteration (absent at the start and not created earlier in the loop), and otherwise in `alreadyExists`. Both lists keep selection order. The new paths are exactly the old ones plus every selected `base/lang` |
| Folders.CreateRunPartition | index.js:56-63 | a completed `createFolders` reports each element of the selection exactly once, in `created` or in `alreadyExists` |
| Folders.CreateRunSucceeds | index.js:57-59 | when `base` exists, the loop never throws |
| Folders.CreateRunMissingBase | index.js:58-59 | when `base` does not exist and the selection is non-empty, the first `mkdirSync` throws ENOENT for `base/<first>` and nothing changes |
| Folders.CreateRunAllPresent | index.js:58-62 | when every selected folder exists, nothing is created, the whole selection is reported as already existing, and the paths are unchanged |
| Folders.CreateTwice | index.js:56-63 | a second `createFolders` with the same selection, after a first that completed, gives `created = []` and `alreadyExists` equal to the selection, and leaves the paths unchanged |
| Folders.DeleteRunPaths | index.js:74-79 | afterwards no selected `base/lang` exists, nor anything beneath one. Every path outside the selected folders is still there |
| Folders.DeleteRunReport | index.js:73-81 | `lang` is in `deleted` exactly when `base/lang` existed at its iteration (existed at the start and not deleted earlier in the loop), and otherwise in `alreadyDeleted`. Both lists keep selection order |
| Folders.DeleteRunPartition | index.js:73-81 | `deleteFolders` reports each element of the selection exactly once, in `deleted` or in `alreadyDeleted` |
| Folders.CreateThenDelete | index.js:56-63 | when none of the selected folders existed, `createFolders` followed by `deleteFolders` restores the original paths. For a selection without repeats, `deleted` is the selection and `alreadyDeleted` is empty |
| Commands.EnsureDir | index.js:103-108 | the `Projects` step adds the directory only when it is absent, and reports whether it did. An existing directory is left as is. In a closed filesystem it fails exactly when the base path is missing |
| Commands.DeleteWholeTree | index.js:138-143 | the whole-tree branch reports whether `Projects` existed. On a closed filesystem it removes `Projects` and everything beneath it, and removes nothing when `Projects` is absent |
| Commands.CreateFlow | index.js:99-123 | the create flow only adds paths and keeps the filesystem closed |
| Commands.RemoveFlow | index.js:125-159 | the remove flow only removes paths and keeps the filesystem closed |
| Commands.CreateFlowOutcome | index.js:100-120 | on an existing base path, the create flow completes and adds exactly `Projects` and the selected folders. On a missing base path it fails with ENOENT for `Projects` and changes nothing |
| Commands.CreateThenRemove | index.js:99-159 | when none of the selected folders existed, the create flow followed by removing the same selection restores the paths, plus `Projects`, which stays. A selection without repeats is reported deleted in full |
| Workspace.FileTree.MakeDirectory | index.js:59 | updates the paths as `Mkdir` says and returns its error |
| Workspace.FileTree.RemoveRecursive | index.js:76 | updates the paths as `RemoveTree` says |
| Workspace.FileTree.CreateFolders | index.js:52-67 | the loop's new paths and its result are those of `CreateRun`. On success the new paths are the old ones plus the selected folders. The filesystem stays closed |
| Workspace.FileTree.DeleteFolders | index.js:69-84 | the loop's new paths and its report are those of `DeleteRun`. The new paths are the old ones minus the selected trees |
| Workspace.FileTree.EnsureProjects | index.js:102-108 | updates the paths and reports as `EnsureDir` does for `base/Projects` |
| Workspace.FileTree.DeleteProjects | index.js:137-143 | updates the paths and reports as `DeleteWholeTree` does for `base/Projects` |
| Workspace.FileTree.Create | index.js:99-123 | the create branch of `main` updates the paths and reports as `CreateFlow` |
| Workspace.FileTree.Remove | index.js:125-159 | the remove branch of `main` updates the paths and reports as `RemoveFlow` |
| Labels.SpaceRun | index.js:14 | `\s*` matched from a position stops at the first non-whitespace character, or at the end |
| Labels.IsWhitespace | index.js:13-15 | true exactly when the string is missing, or when every character of it is a JavaScript `\s` character (so the empty string counts) |
| Labels.SliceIndex | index.js:28 | a `slice` argument in `0..len` is used as is. A negative one counts from the end, and becomes 0 if it reaches before the start. One beyond `len` becomes `len` |
| Labels.Slice | index.js:28 | `name.slice(start, end)` is the ordinary sub-string for in-range bounds. It is empty when the adjusted `end` is not after the adjusted `start` (in particular when `0 <= end <= start`), and never longer than `name` |
| Labels.RangesTextSingle | index.js:27-29 | one range contributes exactly `name.slice(start, end + 1)` |
| Labels.RangesTextAppend | index.js:27-29 | the `+=` loop over two range lists in turn gives the text of the first list followed by the text of the second |
| Labels.RangesTextFirst | index.js:27-29 | read from the front, the text is the first range's `name.slice(start, end + 1)` followed by the text of the remaining ranges, so the label is the ordered concatenation of the slices |
| Labels.ColoredText | index.js:26-32 | a single colour keeps the whole name. An empty range list gives the empty text |
| Labels.ContiguousRanges | index.js:27-29 | for ranges with inclusive `end` that follow each other without gap or overlap, the label is the part of the name from the first `start` to the last `end`, inclusive |
| Labels.TilingRanges | index.js:27-29 | ranges that tile the name from its first character to its last give back the name |
| Labels.MakeChoice | index.js:34-38 | `value` is always the raw name, whatever the colours. `short` is the label text. `name` is the label alone exactly when the description is blank, and otherwise the label, a newline and the description |
| Labels.Catalog | index.js:19-39 | one choice per catalogue entry, in order. Each choice's value is the entry's raw name |

## Left out

- The `inquirer` prompts are left out. So are the default answer `process.cwd()` and the checkbox `validate` callback that refuses an empty selection. These are interactive input. Their answers are parameters, and an empty selection is simply allowed.
- Parsing of `--create`/`-c` and `--remove`/`-r` with `arg` is left out. So are the choice between the two flags in `main` and the `usage` text. The flags are handled by a foreign library. The two branches are `FileTree.Create` and `FileTree.Remove`.
- All `console.log` output is left out, including the `Error:` line printed by the top-level `catch`. It is presentation. An error thrown by `mkdirSync` is the `Failure` the flow returns.
- `chalk` colouring and ANSI escape codes are left out. Only the plain text of each label is modelled. A colour's hex value is carried but never used.
- Reading and `JSON.parse` of `project_types.json` is left out, because it is file I/O. The catalogue is a parameter of `Catalog`.
- Real `fs`/`path` semantics are left out. This covers path normalisation (a name that is empty, or holds `/` or `..`), the difference between files and directories, permissions, and I/O failures of `rmSync` or `mkdirSync` beyond ENOENT and EEXIST. Every name is one path segment.
- Strings are sequences of characters (Unicode scalar values), not of UTF-16 code units as in JavaScript. So `slice` indices in the model count characters. A name holding a character outside the Basic Multilingual Plane is sliced differently: JavaScript may cut it between its two surrogates. `IsWhitespace` is unaffected, because every JavaScript `\s` character lies in that plane.
- `async`/`await` is left out. It adds no concurrency here.
- A description or colour range whose fields are not strings or integers is left out. A description is an optional string, and `start`/`end` are integers.
