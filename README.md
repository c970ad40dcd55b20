# dir2tar: leaf selection and tar naming

`dir2tar` walks a directory tree from the bottom up and picks the
directories to archive. Each picked directory gets one `.tar` file, named
after the last few components of its path. This project models the part
that makes the choice, `identify_tars`, together with the guard in `main`
that refuses a non-positive `--dirs-in-tar-name`. It proves what the
resulting dictionary contains and what the archive names look like.

The model has three modules:

- `PyStrings` (`py_strings.dfy`) writes out the Python `str` operations the
  naming chain uses, over `seq<char>`:
  - `startswith` is `StartsWith`;
  - `replace` is `ReplaceAll`, which replaces every occurrence, left to right;
  - `rsplit(sep, n)` is `RSplit`;
  - `xs[-n:]` is `LastN`;
  - `"".join` is `Concat`.

  It also gives an independent reference for "the segments of a path":
  `Split` and its inverse `Intercalate`. Lemmas tie the Python operations
  to that reference.
- `Naming` (`naming.dfy`) defines the archive name `TarName`, step by step
  as the source computes it. It proves what the name is in terms of path
  segments, and that it ends in `.tar` and contains no space and no
  separator.
- `Selection` (`selection.dfy`) holds the selection itself:
  - the walk entries (`WalkEntry`);
  - `os.path.join` on POSIX (`Join`);
  - the imperative steps `AlreadyStored`, `StoreLeaf`, `StoreLeaves` and
    `IdentifyTars`,
    which update the dictionary in place;
  - the `main` guard, `RunSelection`.

  Each method is proved against the functional specification `SelectKeys`,
  a left fold over the walk that gives the dictionary's keys in insertion
  order. Lemmas then prove the following about that specification:
  - the dictionary only grows;
  - no key starts with a key stored after it, and no path is stored twice;
  - every candidate is covered;
  - every key has a known origin;
  - the walk root is never a key;
  - on a bottom-up walk, no key is an ancestor directory of another.

Python dictionaries iterate in insertion order. The inner scan in
`identify_tars` therefore sees the keys in the order they were stored. The
model keeps that order as a sequence `keys` beside the `map`.

Two quirks of the source are kept on purpose:

- The covering test is `tar_dir.startswith(leaf_dir)`. It compares characters
  and runs in one direction only.
  - A stored `r/foo2/x` covers the candidate `r/foo`, so `r/foo` is never
    stored (`ExampleShadowedLeaf`).
  - A stored `r/foo` does not cover the candidate `r/foo2`, so both are kept
    (`ExampleSiblingPrefix`).

  So the test does not treat `foo2` as covered by `foo`, and a key can be a
  string prefix of another key. What does hold is proved instead:
  - `Unshadowed`: no key starts with a key stored after it;
  - `AncestorFree`: no key is an ancestor directory of another, at the level
    of path segments.

  The shadowed leaf loses its files. In `ExampleShadowedLeaf` the keys are
  `r/foo2/x` alone: `r/foo` is never stored, and the root `r` is never a key
  (`RootNeverKey`), so no archive that the keys name holds the files under
  `r/foo`.
- The root is stripped with `leaf_dir.replace(input_dir + os.sep, "")`.
  This removes every occurrence, not only the leading one
  (`TarNameExampleRootRepeated`).
  A path under the root loses its leading root (`StripRootLeading`,
  `StripRootRelative`). A root given with a trailing separator, such as
  `data/`, is never stripped, because `data//` does not occur in the walked
  paths: `data/a` is named `data_____a.tar`, not `a.tar`
  (`TarNameExampleTrailingRoot`).

`main` refuses a count `<= 0`, so a count of 1 is accepted, although its
message asks for a count "> 1". The model follows the guard.

## Model

| member | source | states |
|---|---|---|
| Selection.AlreadyStored | dir2tar/dir2tar.py:37-41 | the flag is set exactly when some stored key starts with the candidate path, character by character |
| Selection.StoreLeaf | dir2tar/dir2tar.py:35-55 | one candidate is stored exactly as the specification step `Admit` says; the dictionary's key set stays the stored keys and each value stays the tar name of its key |
| Selection.StoreLeaves | dir2tar/dir2tar.py:34-55 | after one entry's subdirectory names, the keys are those of the specification fold `ScanNames`; the dictionary's key set is exactly the stored keys and each value is the tar name of its key |
| Selection.IdentifyTars | dir2tar/dir2tar.py:26-57 | the keys, in insertion order, are `SelectKeys(walk)`; the dictionary holds exactly those keys, each with its tar name; no key starts with a later key; every subdirectory the walk lists is stored or covered by a stored key |
| Selection.RunSelection | dir2tar/dir2tar.py:88-94 | the usage error is returned if and only if the count is `<= 0`, carrying that count; otherwise the result is the selection dictionary |
| Selection.Join | dir2tar/dir2tar.py:35 | joining a non-empty directory path and a relative name drops one trailing separator of the path, if any, and puts one separator before the name |
| Selection.Admit | dir2tar/dir2tar.py:37-55 | one candidate leaves every stored key in place, adds at most one key, and afterwards some key starts with the candidate |
| Selection.ScanNames | dir2tar/dir2tar.py:34-55 | scanning one entry's subdirectory names keeps every stored key in place and adds at most one key per name |
| Selection.SelectKeys | dir2tar/dir2tar.py:32-57 | the whole walk stores at most one key per subdirectory name it lists |
| Selection.TarNamedStore | dir2tar/dir2tar.py:55 | storing a path with its tar name keeps every entry of the dictionary mapped to its own tar name |
| Selection.SelectKeysGrows | dir2tar/dir2tar.py:32-57 | the keys stored after any prefix of the walk are a prefix of the final keys: nothing is removed, reordered or overwritten |
| Selection.NameMapGrows | dir2tar/dir2tar.py:32-57 | the dictionary after any prefix of the walk is contained in the final one, with the same tar names |
| Selection.SelectKeysUnshadowed | dir2tar/dir2tar.py:37-55 | over the whole walk, no stored key starts with a key stored after it |
| Selection.SelectKeysDistinct | dir2tar/dir2tar.py:37-55 | no path is stored twice |
| Selection.SelectKeysCovers | dir2tar/dir2tar.py:33-43 | every `os.path.join(dirpath, dirname)` the walk produces is a stored key or a prefix of one |
| Selection.SelectKeysOrigin | dir2tar/dir2tar.py:33-35 | every stored key is `os.path.join(dirpath, dirname)` for an entry already walked |
| Selection.NoSubdirectoriesNoKeys | dir2tar/dir2tar.py:33-35 | a walk whose entries list no subdirectories gives an empty dictionary |
| Selection.RootNeverKey | dir2tar/dir2tar.py:33-35 | the walk root is never a key when every dirpath lies under the root and every name is a non-empty component |
| Selection.CandidateNotAncestor | dir2tar/dir2tar.py:33-35 | on a bottom-up walk, no path met before a child of the current directory is an ancestor directory of that child |
| Selection.SelectKeysAncestorFree | dir2tar/dir2tar.py:33-43 | on a bottom-up walk, no stored key is an ancestor directory of another stored key |
| Selection.ExampleSiblingPrefix | dir2tar/dir2tar.py:38-41 | the siblings `r/foo` and `r/foo2` are both stored, although one is a string prefix of the other |
| Selection.ExampleShadowedLeaf | dir2tar/dir2tar.py:38-41 | on the walk of `r` with subdirectories `foo` and `foo2/x`, the only key is `r/foo2/x`: the leaf `r/foo` is suppressed by a path that is not one of its descendants, so its files are in no archive |
| Selection.ExampleTrailingSeparatorRoot | dir2tar/dir2tar.py:33 | a walk rooted at `d/`, whose root entry's dirpath keeps the trailing separator, satisfies the bottom-up assumption |
| Selection.ExampleSlashRoot | dir2tar/dir2tar.py:33 | a walk rooted at `/` satisfies the bottom-up assumption |
| Naming.Sanitise | dir2tar/dir2tar.py:11 | the substitution keeps the length, turns every space into `_`, leaves every other character as it is, and leaves no space |
| Naming.StripRoot | dir2tar/dir2tar.py:45 | stripping the root never lengthens the path, and a path in which the root followed by a separator does not occur is left unchanged |
| Naming.StripRootLeading | dir2tar/dir2tar.py:44-45 | a path made of the root, a separator and a relative part loses that leading root; the relative part is stripped in turn |
| Naming.StripRootRelative | dir2tar/dir2tar.py:44-45 | a path under the root becomes exactly its relative part when that part does not itself contain the root followed by a separator |
| Naming.TarName | dir2tar/dir2tar.py:45-55 | every tar name ends in `.tar` and contains no space |
| Naming.TarNameFromSegments | dir2tar/dir2tar.py:45-55 | the name is the last `n` separator-delimited segments of the root-stripped path (all of them when there are fewer), joined by `_____`, sanitised, with `.tar` appended |
| Naming.TarNameHasNoSeparator | dir2tar/dir2tar.py:45-55 | a tar name never contains the path separator |
| Naming.TarNameOfShortPath | dir2tar/dir2tar.py:48-53 | when the stripped path has at most `n` segments, the whole path is used, with each separator replaced by `_____` |
| Naming.SanitiseWithoutSpace | dir2tar/dir2tar.py:11 | a string without spaces is left unchanged |
| Naming.TarNameExampleDeep | dir2tar/dir2tar.py:45-55 | under root `root`, `root/a/b/c` with 2 segments is named `b_____c.tar` |
| Naming.TarNameExampleSpace | dir2tar/dir2tar.py:45-55 | under root `root`, `root/a b/c` with 2 segments is named `a_b_____c.tar` |
| Naming.TarNameExampleRootRepeated | dir2tar/dir2tar.py:45 | under root `a`, `a/ba/c` is named `bc.tar`: every `a/` is removed, not only the leading one |
| Naming.TarNameExampleTrailingRoot | dir2tar/dir2tar.py:45-55 | under root `data/`, `data/a` with 2 segments is named `data_____a.tar`: `data//` never occurs, so nothing is stripped |
| PyStrings.StartsWithCharwise | dir2tar/dir2tar.py:39 | `startswith` holds exactly when the prefix is no longer than the string and agrees with it character by character |
| PyStrings.ReplaceAll | dir2tar/dir2tar.py:45-48 | replacing by a string no longer than the pattern never lengthens the string, and a string in which the pattern does not occur is returned unchanged |
| PyStrings.ReplaceAllAbsent | dir2tar/dir2tar.py:48 | replacing a character that does not occur changes nothing |
| PyStrings.RSplit | dir2tar/dir2tar.py:49 | `rsplit(sep, n)` gives between 1 and `n + 1` pieces, and no piece after the first contains the separator |
| PyStrings.RSplitRoundTrip | dir2tar/dir2tar.py:49 | joining the pieces of `rsplit(sep, n)` with the separator gives the string back |
| PyStrings.ConcatIsJoin | dir2tar/dir2tar.py:53 | `"".join(xs)` is the pieces joined with the empty separator |
| PyStrings.LastN | dir2tar/dir2tar.py:52 | `xs[-n:]` has `min(n, len(xs))` items and is the tail of `xs` |
| PyStrings.RSplitLastN | dir2tar/dir2tar.py:49-52 | the last `n` pieces of `rsplit(sep, n)` are the last `n` segments of the full split |
| PyStrings.SplitOfMarked | dir2tar/dir2tar.py:48-49 | replacing each separator by token plus separator, then splitting, gives the original segments with the token appended to all but the last |
| PyStrings.ConcatMarked | dir2tar/dir2tar.py:53 | concatenating segments marked with the token equals joining them with the token |
| PyStrings.ReplaceCharIsJoinOfSplit | dir2tar/dir2tar.py:48 | replacing a one-character separator equals joining the segments with the replacement |
| PyStrings.SplitRoundTrip | dir2tar/dir2tar.py:49 | joining the segments with the separator gives the string back |
| PyStrings.IntercalateRoundTrip | dir2tar/dir2tar.py:49 | splitting a join of separator-free segments gives the segments back |
| PyStrings.SplitSegmentsFree | dir2tar/dir2tar.py:49 | no segment contains the separator |

## Left out

- `create_tars` (lines 59-73) is not modelled. It creates the output directory, opens and writes the tar files, and rewrites archive member names. All of that is file-system I/O.
- `os.walk` is not modelled. Its output is an input: the sequence of `(dirpath, dirnames, filenames)` entries. What `topdown=False` guarantees is stated as the assumption `BottomUpWalk`: no dirpath is followed by one of its descendants (comparing dirpaths with one trailing separator dropped), no dirpath is empty, and every listed name is one non-empty component. `CandidateNotAncestor`, `ScanNamesAncestorFree` and `SelectKeysAncestorFree` rely on it. Walks rooted at `d/` and at `/` satisfy it (`ExampleTrailingSeparatorRoot`, `ExampleSlashRoot`).
- `info`, `error`, `print` and the `verbose` flag are console output and are not modelled.
- Option parsing with `optparse` is not modelled. That includes the `-d` default of 2 and the usage check on missing `-i`/`-o`. Only the `dirs_in_tarname <= 0` guard is.
- Selection.RunSelection: in the source the usage error writes a message and ends the process with status 1. Here it is an `Err` value.
- `SANITISE_RE` is not modelled as a regular-expression engine. Its pattern `[ ]` matches exactly one space, so `Sanitise` maps space to `_` character by character.
- The `output_dir` parameter of `identify_tars` is never used by its body, so the model has no such parameter.
- Only the POSIX separator `/` is modelled. `Join` follows `posixpath.join`.
- Python strings are modelled as sequences of characters. No Unicode normalisation or encoding is involved.
