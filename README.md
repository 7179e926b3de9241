# env_detective in Dafny

A model of `env_detective.py`, a small script that audits environment-variable
files. It finds every file whose name ends in `.env` or `.env.example` under
the current directory. It collects the names those files declare (`NAME=value`
lines), checks each name against the process environment, prints the present
and missing names, and exits with 1 when anything is missing.

The model follows the script's four functions:

- `Locator` (`locator.dfy`) is `find_env_files`. The directory walk is an input: the
  sequence of `(root, files)` entries that `os.walk('.')` would yield. `FindEnvFiles`
  runs the script's nested loop over it. It is proved equal to the selection
  function `Selected`. Lemmas give membership and order facts about `Selected`,
  and show that it has no duplicates when each directory is visited once and
  lists each file once.
- `Extractor` (`extractor.dfy`) is `extract_vars_from_file`. Python's `str.strip`
  is written out with an explicit whitespace set. The pattern
  `^([A-Z_][A-Z0-9_]*)=` is written out as character classes (`MatchKey`), and it
  is proved to accept exactly the lines whose stripped text is `KEY=...` with a
  valid `KEY` (`Declares`). `ExtractVarsFromFile` runs the per-line loop and is
  proved to build `DeclaredKeys`, the set of keys of the matching lines.
- `Comparator` (`comparator.dfy`) is `check_os_env`. The environment is a
  `map<string, string>` parameter. `CheckOsEnv` walks `sorted(vars)` and appends
  each name to `present` or `missing`. It is proved to return two strictly
  ascending lists: the declared names that are set, and the declared names that
  are not.
- `Ordering` (`ordering.dfy`) gives Python's ordering of `str`, compared by code
  point, and the builtin `sorted` over a set of strings (`SortedOf`).
- `Detective` (`detective.dfy`) is `main` together with `sys.exit`. `RunDetective`
  returns a `Report` and the value `main` returns: `None` when no file was found,
  otherwise 1 or 0. `ExitCode` turns that value into the process status the way
  `sys.exit` does. The report holds what the script prints: the per-file counts,
  the unique count, the present count, the present preview with the "... and N
  more" count, and the full missing list.

Read errors:

- A file that fails part-way through reading keeps the names from the lines read
  before the failure: `extract_vars_from_file` returns the partially filled
  `vars_set` from its `except` branch (env_detective.py:30-32).
  `FileRead` holds the lines delivered before the error and the error itself.
  An error when opening the file delivers no lines.
- The aggregate set therefore includes names from files that later failed to read.

## Model

| member | source | states |
|---|---|---|
| Locator.EndsWithMeaning | env_detective.py:14 | `s.endswith(suffix)` holds iff `s` is some text followed by `suffix` |
| Locator.IsEnvFileNameMeaning | env_detective.py:14 | a file name is picked iff it ends in `.env` or in `.env.example` |
| Locator.FindEnvFiles | env_detective.py:9-16 | the paths collected by the nested loop are exactly `Selected(walk)` |
| Locator.SelectNames | env_detective.py:13-15 | one directory listing yields at most as many paths as it has names, each under the listing's root and following the naming convention |
| Locator.Selected | env_detective.py:12-15 | every path the walk yields follows the naming convention |
| Locator.SelectNamesMembership | env_detective.py:13-15 | a path comes from a listing iff its directory is the listing's root, the name is listed, and the name ends in `.env` or `.env.example` |
| Locator.SelectedMembership | env_detective.py:12-15 | a path is found iff some walk entry lists its name under its directory and the name ends in `.env` or `.env.example` |
| Locator.SelectNamesAppend | env_detective.py:13-15 | selection distributes over concatenation of a listing, so listing order is kept |
| Locator.SelectedAppend | env_detective.py:12-15 | selection distributes over concatenation of the walk, so walk order is kept |
| Locator.SelectNamesDistinct | env_detective.py:13-15 | a listing without repeated names yields each path at most once |
| Locator.SelectedDistinct | env_detective.py:12-15 | a walk that visits each directory once, each listing its files once, yields each path at most once |
| Extractor.IsSpace | env_detective.py:24 | a character `strip()` removes is never a name character, `=` or `#` |
| Extractor.Strip | env_detective.py:24 | the stripped line is no longer than the line and neither starts nor ends with whitespace |
| Extractor.StripIgnoresPadding | env_detective.py:24 | whitespace added on either side of a stripped text is removed again |
| Extractor.MatchKey | env_detective.py:27-29 | a match only ever yields a key that the line declares (`KEY=` prefix with `KEY` in `[A-Z_][A-Z0-9_]*`) |
| Extractor.MatchKeyComplete | env_detective.py:27-29 | every declaration is matched and its key is the captured group |
| Extractor.KeyOf | env_detective.py:24-29 | a line contributes only valid variable names |
| Extractor.KeyOfSpec | env_detective.py:24-29 | a line contributes `key` iff its stripped form is `key=...` with `key` valid |
| Extractor.DeclarationYieldsKey | env_detective.py:24-29 | a `KEY=value` line padded with whitespace records exactly `KEY` |
| Extractor.CommentGuardRedundant | env_detective.py:25-27 | the blank/comment check never changes the outcome of the pattern |
| Extractor.BlankOrCommentDeclaresNothing | env_detective.py:25 | blank lines and lines starting with `#` after stripping contribute nothing |
| Extractor.SpaceBeforeEqualsRejected | env_detective.py:27 | `KEY =value` (a space before `=`) contributes nothing |
| Extractor.BadFirstCharRejected | env_detective.py:27 | a stripped line starting outside `[A-Z_]` (lowercase key, `export ` prefix) contributes nothing |
| Extractor.DeclaredKeys | env_detective.py:20-29 | the file's set holds only valid names and is no larger than the number of lines |
| Extractor.ExtractVarsFromFile | env_detective.py:18-32 | the set built by the loop is `DeclaredKeys` of the lines read |
| Extractor.DeclaredKeysSound | env_detective.py:23-29 | every name in the set is the key of some line |
| Extractor.DeclaredKeysComplete | env_detective.py:20-29 | the key of every matching line is in the set, however often it repeats |
| Extractor.DeclaredKeysOrderFree | env_detective.py:20-29 | any rearrangement of the lines gives the same set |
| Extractor.CommentsOnlyDeclareNothing | env_detective.py:23-25 | a file of only blank and comment lines gives the empty set |
| Ordering.Less | env_detective.py:38 | a string never sorts before itself, and a proper prefix sorts before the longer string |
| Ordering.LessIrreflexive | env_detective.py:38 | no string sorts before itself |
| Ordering.LessTransitive | env_detective.py:38 | string order is transitive |
| Ordering.LessTotal | env_detective.py:38 | of two different strings, one sorts before the other |
| Ordering.SortedOf | env_detective.py:38 | `sorted(vars)` is strictly ascending, holds exactly the set's members, and has one entry per member |
| Ordering.SortedUnique | env_detective.py:38 | two strictly ascending lists with the same members are equal |
| Comparator.CheckOsEnv | env_detective.py:34-43 | `present` is the ascending list of declared names set in the environment, `missing` the ascending list of those that are not |
| Comparator.FilterStep | env_detective.py:38-42 | appending the next sorted name to the list it belongs to keeps that list ascending and complete so far |
| Comparator.PartitionCovers | env_detective.py:36-43 | the two lists are disjoint, together hold every declared name, and their lengths add up to the number of names |
| Comparator.PartitionUnique | env_detective.py:38-43 | the two lists are determined by the names and the environment, so a second run gives the same lists |
| Comparator.PartitionIgnoresValues | env_detective.py:39 | only which names are set matters, not their values |
| Detective.Preview | env_detective.py:67-70 | the preview is the first `min(5, n)` present names, "... and N more" appears iff `n > 5`, and shown plus N is `n` |
| Detective.ExitCode | env_detective.py:83-84 | the process status is 0 exactly when `main` returns `None` or 0, and otherwise the returned value |
| Detective.Summary | env_detective.py:56-59 | a per-file line names its path and read error, and its count of names is at most its number of lines |
| Detective.AllDeclared | env_detective.py:55-58 | the union of the files' sets holds only valid variable names |
| Detective.Summaries | env_detective.py:56-59 | there is one per-file line for each file found |
| Detective.SummariesAt | env_detective.py:56-59 | the i-th per-file line gives the i-th path, its name count and its read error |
| Detective.ReadAll | env_detective.py:55-59 | the loop over the files yields the union of their sets and the per-file lines in walk order |
| Detective.AllDeclaredSound | env_detective.py:55-58 | every name in the union comes from some file found |
| Detective.AllDeclaredComplete | env_detective.py:55-58 | every name any found file declares is in the union |
| Detective.PreviewOfSorted | env_detective.py:67-70 | previewing the sorted present list shows the smallest present names in order |
| Detective.MissingDecidesStatus | env_detective.py:76-81 | the missing list is non-empty iff some declared name is not set |
| Detective.RunDetective | env_detective.py:45-84 | no file found gives the no-files report and `None`; otherwise the report gives the per-file lines, the unique and present counts, the smallest five present names, the "more" count and the full sorted missing list; the exit code is 1 iff some declared name is unset, else 0 |

## Left out

- The directory walk (`os.walk`), its traversal order and its silent skipping of unreadable directories: filesystem I/O. The walk is an input sequence of entries.
- Joining `Path(root) / file` and how a path prints: a path is kept as the pair of directory and name.
- Opening, decoding and splitting files into lines, and the exception text: I/O. Each file is given as the lines read before any error plus an optional error message.
- The real `os.environ`: global process state. It is a map parameter, and only its keys are consulted.
- Printing: the banner, emoji, wording and layout of the report. The report keeps only the counts and lists that are printed.
- `sys.exit` itself: `ExitCode` gives only the status it would pass to the process.
- Whitespace: Python's `str.isspace` is taken as a fixed list of code points. Unicode tables other than Python 3's current ones are not modelled.
- Python's sorting algorithm: `SortedOf` gives only the result of `sorted`, not how it is computed.
