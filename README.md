# GtkPacker in Dafny

GtkPacker packs a GTK 3 program built under MSYS2 so that it runs on Windows
without MSYS2. It reads the runtime dependencies of the binary from
`ntldd -R`. It copies every dependency that lives in the MSYS2 tree into
`<outdir>/bin`, each name once, and then copies the binary there. When
`libgtk-3-0.dll` was among the copied dependencies, it also copies five
resource directories into `<outdir>`: two themes, the GLib schemas, the icons
and the gdk-pixbuf loaders.

The repository has two forms of this packer. `GtkPacker.py` is a class.
`CopyDependencies.py` is a script with the constants `ucrt64` and
`D:\msys64\`. Both are modelled.

The model does not touch a file system. Each packer issues a trace of
operations:

- `MkDir(p)` stands for `os.makedirs(p)`;
- `Copy(src, dst)` stands for `cp`;
- `CopyTree(src, dst)` stands for `cp -r`.

It also keeps the set of directories that exist. `os.path.exists` asks that
set, and `makedirs` adds the path and all its ancestors to it. The dependency
scanner's output is an input: a sequence of records, each a sequence of
whitespace-separated fields.

Modules:

- `Paths`: the parts of `ntpath` the packer uses, namely `join` and
  `basename`. Both `/` and `\` are separators, and `join` inserts `\`.
- `Glob`: `fnmatch` for patterns whose only wildcard is `*`. The lemmas turn
  the packer's four patterns into prefix and substring tests.
- `Trace`: operations, directory sets, `makedirs` and "make it if it does not
  exist".
- `Classify`: `clean_path`/`pathed` and `is_msys2_dep`.
- `Selection`: the deduplicating loop over the records, as functions of the
  records read so far, with the first-occurrence lemmas.
- `Resources`: the table of five resource directories and the loop over it.
- `Planner`: the whole run as one plan, and the lemmas about its order and
  its conditional resource step.
- `GtkPacker`: the class. Its fields are the source's fields plus `trace` and
  `dirs`. Its methods update them in place, with the same loops as the
  source, and are proved against the `Planner` functions.
- `CopyDependencies`: the script, as methods that return the copied names,
  the trace and the final directory set.
- `Seqs`: two lemmas that regroup sequence concatenation, used by the loops.

Two behaviours of the source are modelled as written:

- The resource loop tests and creates `join(outdir, target)`. But `target`
  already begins with `outdir`, so this is the target itself only when
  `outdir` is empty or absolute (`ResourceDirIsTarget`). For a relative
  `outdir` it is in general a different path, with `outdir` repeated, so
  the loop makes sure of that path and not of the copy's target. The target
  then exists afterwards only when it was there already or is an ancestor
  of the path made. That happens for the icons entry with `outdir` = `share`
  and for the pixbuf entry with `outdir` = `lib`.
- The script names the binary's copy with `basename` of the path as typed.
  For a quoted path that name keeps the closing quote
  (`TypedNameKeepsQuotes`). The class uses the unquoted path.

Functions that define the model without a contract of their own have rows
too. Their third column names the lemmas that characterise them.

## Model

| member | source | states |
|---|---|---|
| Paths.Join | GtkPacker.py:13 | no contract; `os.path.join` of two parts, characterised by JoinShape, JoinKeepsAbsolute and JoinKeepsRelative |
| Paths.Basename | GtkPacker.py:40 | no contract; `os.path.basename`, characterised by BasenameIsLastComponent, BasenameNoSep and BasenameDropFront |
| Paths.JoinAll | GtkPacker.py:44-48 | no contract; `os.path.join` with more than two parts, left to right, characterised by JoinAllExtends, JoinAllKeepsKind and JoinAllUnder |
| Paths.JoinShape | GtkPacker.py:32 | `join(a, b)` is `b` when `b` is absolute or `a` is empty; otherwise it starts with `a`, ends with `b`, and has exactly one separator between them |
| Paths.JoinKeepsAbsolute | GtkPacker.py:44-48 | joining a relative component onto an absolute path gives an absolute path |
| Paths.JoinKeepsRelative | GtkPacker.py:44-48 | joining a relative component onto a non-empty relative path gives a relative path |
| Paths.JoinAllExtends | GtkPacker.py:44-48 | a multi-part `join` of relative parts starts with its base |
| Paths.JoinAllKeepsKind | GtkPacker.py:44-48 | a multi-part `join` of relative parts is absolute exactly when its base is (for a non-empty base) |
| Paths.UnderTrans | GtkPacker.py:44-48 | a path inside a directory that lies inside `a` lies inside `a` |
| Paths.JoinUnder | GtkPacker.py:44-48 | joining a non-empty relative component onto `a` names a path inside directory `a`, not merely one that begins with the string `a` |
| Paths.JoinAllUnder | GtkPacker.py:44-48 | a multi-part `join` of non-empty relative parts names a path inside its base directory |
| Paths.BasenameIsLastComponent | GtkPacker.py:40 | `basename(p)` is the longest suffix of `p` with no separator: it is a suffix, has no separator, and is preceded by one when shorter than `p` |
| Paths.BasenameNoSep | CopyDependencies.py:37 | a path with no separator is its own base name |
| Paths.BasenameDropFront | CopyDependencies.py:37 | a leading character does not change the base name of a path that has a separator |
| Paths.BasenameWrapped | CopyDependencies.py:37 | with one character in front and a non-separator behind a path that has a separator, the base name is the inner one plus that last character |
| Glob.Match | GtkPacker.py:24-25 | no contract; `fnmatch` with `*` as the only wildcard, characterised by MatchStarAll, MatchLiteralHead, PrefixPattern, LeadingStar and InfixPattern |
| Glob.MatchStarAll | GtkPacker.py:24-25 | the pattern `*` matches every string |
| Glob.MatchLiteralHead | GtkPacker.py:24-25 | a star-free pattern head matches a string exactly when the string starts with it and the rest of the pattern matches the rest |
| Glob.PrefixPattern | GtkPacker.py:24 | `lit*` matches exactly the strings starting with `lit` |
| Glob.LeadingStar | GtkPacker.py:25 | `*pat` matches exactly when `pat` matches some suffix |
| Glob.InfixPattern | GtkPacker.py:25 | `*lit*` matches exactly the strings containing `lit` |
| Trace.Created | GtkPacker.py:34 | `os.makedirs(p)`: contains `p`; characterised by CreatedIff as `p` and its ancestors |
| Trace.AncestorsIff | GtkPacker.py:34 | the ancestors of `p` are exactly its non-empty prefixes that end just before a separator |
| Trace.CreatedIff | GtkPacker.py:34 | `makedirs(p)` creates `p`, each ancestor of `p`, and nothing else |
| Trace.EnsureDir | GtkPacker.py:33-34 | "make it if it does not exist" issues a `MkDir` exactly when the directory is absent, issues nothing otherwise, and the directory exists afterwards |
| Trace.EnsureDirDirs | GtkPacker.py:33-34 | the directories reported after "make it if it does not exist" are the ones its operations leave |
| Trace.DirsAfterAppend | GtkPacker.py:55-58 | running two traces one after the other is running their concatenation |
| Trace.DirsAfterGrows | GtkPacker.py:34 | no operation removes a directory |
| Trace.DirsAfterNoMkDir | GtkPacker.py:38 | a trace without `MkDir` leaves the directories unchanged |
| Trace.TreeCopiesAppend | GtkPacker.py:53 | the recursive copies of a concatenation are those of each part, in order |
| Trace.TreeCopiesEmpty | GtkPacker.py:53 | a trace has no recursive copies exactly when none of its operations is one |
| Classify.CleanPath | GtkPacker.py:17-21 | a path that starts and ends with a quote (any mix of `'` and `"`) loses both quotes; a one-character quote becomes empty; any other path is unchanged |
| Classify.CleanPathUnquotes | CopyDependencies.py:21-25 | removing quotes undoes quoting with any pair of quote characters |
| Classify.IsMsys2Dep | GtkPacker.py:23-28 | no contract; the four `fnmatch` calls of `is_msys2_dep`, characterised by IsMsys2DepIff |
| Classify.IsMsys2DepIff | GtkPacker.py:23-28 | a path is an MSYS2 dependency exactly when it starts with `/usr/` or `/<arch>/`, or contains `\usr\` or `\<arch>\` |
| Selection.Picked | GtkPacker.py:35-39 | no contract; the dependency set after the loop over a record prefix, characterised by PickedIff |
| Selection.Chosen | GtkPacker.py:35-39 | no contract; the indices of the records the loop copies, characterised by ChosenIff and ChosenBounded |
| Selection.CopyPlan | GtkPacker.py:35-39 | no contract; the copies the loop issues, characterised by CopyPlanChosen and FirstOccurrenceWins |
| Selection.PickedIff | GtkPacker.py:35-39 | after the loop, the dependency set is the names it started with plus the name of every accepted record |
| Selection.IsFirstPrefix | GtkPacker.py:35-39 | being the first accepted record with its name does not depend on the records that come after |
| Selection.ChosenIff | GtkPacker.py:35-39 | the loop copies a record exactly when it is accepted, its name was not in the starting set, and no earlier accepted record has that name |
| Selection.ChosenBounded | GtkPacker.py:35 | the copied records are taken in increasing record order |
| Selection.CopyPlanChosen | GtkPacker.py:38 | there is one copy per chosen record, from its resolved path (field 2) to `bin/<name>` (field 0) |
| Selection.FirstOccurrenceWins | GtkPacker.py:35-39 | the first occurrence of each name is copied; every copy comes from such a record; the copied names are pairwise different |
| Resources.ResourceTable | GtkPacker.py:43-49 | no contract; the five source/target pairs in insertion order, characterised by ResourceTableUnderPrefixes |
| Resources.EntrySteps | GtkPacker.py:51-53 | no contract; one iteration of the resource loop, characterised by EntryStepsShape |
| Resources.ResourceSteps | GtkPacker.py:50-53 | no contract; the resource loop over a table prefix, characterised by ResourceStepsDirs, ResourceStepsCopies, ResourceCopyReady and ResourceMkDirPrecedes |
| Resources.ResourceTableUnderPrefixes | GtkPacker.py:43-49 | the table has five entries; each source lies inside the MSYS2 prefix directory and each target inside `outdir`: the prefix, then a separator, then at least one more component, i.e. a character that is not a separator (for an empty `outdir`, a relative path) |
| Resources.ResourceDirIsTarget | GtkPacker.py:51-52 | the directory the loop makes sure of, `join(outdir, target)`, is the target itself exactly when `outdir` is empty or absolute |
| Resources.EntryStepsShape | GtkPacker.py:51-53 | one entry issues a `MkDir` of `join(outdir, target)` exactly when it is absent, then the recursive copy, which finds that directory in place |
| Resources.ResourceStepsDirs | GtkPacker.py:50-53 | the directory set after the loop is what its operations leave |
| Resources.ResourceStepsCopies | GtkPacker.py:50-53 | the loop's recursive copies are the table entries, one each, in table order |
| Resources.ResourceCopyReady | GtkPacker.py:50-53 | each recursive copy finds its `join(outdir, target)` already in place |
| Resources.ResourceMkDirPrecedes | GtkPacker.py:51-52 | each `MkDir` names a directory that was absent and comes just before the recursive copy it serves |
| Planner.BinDir | GtkPacker.py:32 | no contract; `join(outdir, "bin")`, the directory that BinStepsOrder shows is made first when absent and that BinStepsDirs shows every bin-phase copy finds |
| Planner.BinSteps | GtkPacker.py:30-40 | no contract; the bin phase as one plan, characterised by BinStepsOrder, BinStepsDirs, BinStepsCopiesFirst and BinStepsCopiesAllFirst |
| Planner.PackSteps | GtkPacker.py:55-58 | no contract; the whole run as one plan, characterised by PackResourcesIff, NoMsys2DepsOnlyBinary and PackStepsDirs |
| Planner.CopyPlanOnlyCopies | GtkPacker.py:38 | the dependency copies are plain copies |
| Planner.BinStepsOrder | GtkPacker.py:32-40 | in the bin phase, the only `MkDir` is the first operation, issued for `bin` exactly when it is absent; the binary copy is last; nothing is copied recursively |
| Planner.BinStepsDirs | GtkPacker.py:32-40 | every copy of the bin phase finds `bin` in place, and the final directory set is what the operations leave |
| Planner.BinStepsCopiesFirst | GtkPacker.py:35-39 | every bin-phase copy before the binary's comes from the first accepted record with its name |
| Planner.BinStepsCopiesAllFirst | GtkPacker.py:35-39 | every first accepted record with a new name is copied in the bin phase |
| Planner.PackResourcesIff | GtkPacker.py:55-58 | the run's recursive copies are the five table entries in order when `libgtk-3-0.dll` was picked, and there are none otherwise |
| Planner.NoMsys2DepsOnlyBinary | GtkPacker.py:30-40 | with no MSYS2 dependency, the run only makes sure of `bin` and copies the binary |
| Planner.PackStepsDirs | GtkPacker.py:55-58 | the run's final directory set is what its operations leave |
| GtkPacker.GtkPacker.constructor | GtkPacker.py:10-15 | starts with no dependencies; the MSYS2 prefix is `join(msys2_path, mingw_arch)`; the binary path is the cleaned path |
| GtkPacker.GtkPacker.MakeDirs | GtkPacker.py:33-34 | issues and records exactly the operations of "make it if it does not exist" |
| GtkPacker.GtkPacker.CopyBinFile | GtkPacker.py:30-40 | the dependency set grows by the accepted names; the trace grows by the bin-phase plan; the directories become the plan's |
| GtkPacker.GtkPacker.CopyResourceFile | GtkPacker.py:42-53 | the trace grows by the resource loop over the five-entry table; the directories become its final set |
| GtkPacker.GtkPacker.Run | GtkPacker.py:55-58 | the dependency set and the whole trace are those of the planned run: the bin phase, then the resource step exactly when `libgtk-3-0.dll` was picked |
| CopyDependencies.MingwPath | CopyDependencies.py:41-45 | no contract; `join("D:\msys64\", "ucrt64")`, the prefix Pack passes to CopyShareFiles, so the ResourceTableUnderPrefixes containment is about this prefix |
| CopyDependencies.MakeDirs | CopyDependencies.py:29-30 | returns exactly the operations and final directories of "make it if it does not exist" |
| CopyDependencies.TypedNameKeepsQuotes | CopyDependencies.py:37 | the copy's name, `basename` of the typed path, is the unquoted base name plus the closing quote (or the whole typed path when it has no directory part); for an unquoted path it is the source's base name |
| CopyDependencies.QuotedNameWithDir | CopyDependencies.py:37 | for a quoted path with a directory part, the typed base name is the unquoted base name plus the closing quote |
| CopyDependencies.QuotedNameWithoutDir | CopyDependencies.py:37 | for a quoted path without a directory part, the typed base name is the whole typed path |
| CopyDependencies.CopyBinaries | CopyDependencies.py:27-37 | returns the accepted names and the bin-phase plan with the source `pathed(path)` and the name `basename(path)` |
| CopyDependencies.CopyShareFiles | CopyDependencies.py:40-50 | extends the trace by the resource loop over the table for the MSYS2 prefix it is given, and returns its final directories; `Pack` passes `join("D:\msys64\", "ucrt64")` |
| CopyDependencies.Pack | CopyDependencies.py:27-50 | the script's copied names, trace and final directories are those of the planned run with `ucrt64`, with the resource step exactly when `libgtk-3-0.dll` was copied |

## Left out

- Running `ntldd -R` through `os.popen` is not modelled. Its output, split into fields, is an input.
- Running `cp` and `cp -r` through `os.system` is not modelled, and neither is the shell quoting of the command line. Each becomes one operation in the trace. Whether it succeeds, and what it does to the directory tree, is not modelled.
- File contents are not modelled. So whether a second run changes anything cannot be stated.
- `fnmatch` lower-cases and normalises separators on Windows, and this is not modelled. Matching is case-sensitive, and only `*` is a wildcard.
- Classify.IsMsys2DepIff requires that the architecture name contains no `*`. An architecture with glob characters is outside the model.
- `ntpath` keeps the drive when a rooted component is joined onto a path with a drive, and this is not modelled: any absolute component replaces the base.
- Drive-relative paths such as `C:x` are treated as absolute. Their drive is not split off by `basename`.
- A base that is only a drive gets a separator: Paths.Join gives `C:\bin` for `C:` and `bin`, where `ntpath.join` gives `C:bin`.
- `os.path.exists` is modelled as exact membership of the string in the directory set. Spellings of one path that differ in `/` against `\`, in case, in a trailing separator or in `.` components count as different directories.
- The command line is not modelled: `argv` handling, the interactive prompts and `--help`.
- With exactly one command-line argument, the script ignores that argument, asks only for the output directory, and then fails because `path` was never set (CopyDependencies.py:15-16). The class's entry point does the same for any one argument except `-h` or `--help`, which print the help and exit (GtkPacker.py:65-72). That failure is not modelled.
- A scanner record with fewer than three fields makes the source fail on `item[2]`. The model requires every record to have at least three fields (`WellFormed`); `ntldd` records normally have four.
- An empty typed path makes `path[0]` fail. The model requires a non-empty path.
- The resource dictionary is modelled as its five entries in insertion order. Its keys are all different, so no entry is lost.
- Error output and exit codes of the copies are not modelled.
- GtkPacker.GtkPacker.MakeDirs, CopyDependencies.MakeDirs, CopyDependencies.CopyBinaries and CopyDependencies.CopyShareFiles are names for steps the source writes inline. Each is a helper that the methods modelling the source call.
- Selection.PlanStep, Seqs.Assoc3 and Seqs.Assoc4 are proof steps for the loop invariants, not properties of the source: the first unfolds the loop's definitions at one more record, the other two regroup sequence concatenation.
