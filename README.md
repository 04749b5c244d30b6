# supertree: a Dafny model of the `tree -afFQ` listing reader

`supertree.py` runs `tree -afFQ --noreport`, takes its output line by line,
treats the first line as the base directory and, for every further line,
prints its number, its depth below the base directory, its trailing type
indicator and the line itself. This project models the three pieces of logic
in that script and proves what they guarantee:

- **The row pattern** (`row_pattern.dfy`, module `RowPattern`). The regular
  expression `^(?P<prefix>.*)?"(?P<filepath>.*)"(?P<suffix>[^"]*)$` is stated
  without regular expressions. `IsMatch(line, r)` is the language of the
  pattern: `line` is `prefix "filepath" suffix`, where `.` matches anything
  except a newline and `[^"]` matches anything except a double quote. `Split`
  computes the match: the closing quote is the last `"` of the line, and the
  opening quote is the last `"` before it, because `prefix` is greedy.
  `SplitIsGreedyMatch` proves that `Split` returns exactly the match that
  backtracking finds first, which is the one with the longest prefix. It
  also proves that `Split` fails exactly when the pattern cannot match.
- **The depth function** (`depth.dfy`, module `Depth`). `get_depth` is
  `DepthOf`: the number of separators in the path minus a baseline. The
  baseline is the separator count of the base directory line.
- **The body of `main`** (`supertree.dfy`, module `Supertree`). `RunListing`
  is the loop. It pops the first line, computes the baseline, then numbers
  the remaining lines from 1 and reports each one as a `Record(index, depth,
  filetype, row)`. It is proved equal to the specification `Supertree`,
  which is defined one row at a time by `Emit`. The two ways the script
  crashes are modelled as `Failure` values. `EmptyListing` stands for
  `out.pop(0)` on an empty listing. `Unmatched(i, row)` stands for `m` being
  `None` at `m.groupdict()`. The records reported before a failure stay in
  `Report.emitted`, just as the script has already printed them.

`text.dfy` (module `Text`) holds the two string primitives used: `Count`,
which is Python's `str.count` with a one-character argument, and
`LastIndexBefore`, the last position of a character.

Listing lines are decoded strings. `bytes.splitlines` leaves no newline in
them (supertree.py:48), and `SplitNeedsTwoQuotes` is stated for such lines.
`Split` itself models the pattern on any string, newlines included.

## Model

| member | source | states |
|---|---|---|
| `RowPattern.SplitIsMatch` | supertree.py:37 | A successful split is a match of the pattern. Prefix, `"`, path, `"` and suffix rebuild the line exactly. Prefix and path hold no newline. Suffix and path hold no `"`, so the closing quote is the line's last `"` and the opening quote the one before it. |
| `RowPattern.SplitIsGreedyMatch` | supertree.py:37-38 | `Split` returns None exactly when no decomposition matches the pattern. Otherwise it returns the matching decomposition with the longest prefix, the one Python's backtracking returns. Every other match has a strictly shorter prefix. |
| `RowPattern.SplitNeedsTwoQuotes` | supertree.py:55-56 | A newline-free line matches exactly when it contains at least two `"`. Otherwise `row_cp.match` gives None. |
| `Text.CountIsMultiplicity` | supertree.py:51 | `str.count` of one character equals that character's multiplicity in the string. This is the count taken of the base directory line and of each path. |
| `Depth.DepthCountsSeparators` | supertree.py:63-64 | `get_depth(path, sep, start)` is the number of occurrences of `sep` in `path` minus `start`. |
| `Depth.DepthOfBaseline` | supertree.py:51 | With the baseline fixed to the base directory line's separator count, a path with the same count has depth 0. |
| `Depth.DepthOfChild` | supertree.py:63-64 | Appending a separator and a separator-free name raises the depth by exactly 1. |
| `Depth.DepthIsNotClamped` | supertree.py:64 | The depth is negative exactly when the path has fewer separators than the baseline. |
| `Depth.DepthAboveBase` | supertree.py:64 | The parent of the base directory gets depth -1, not 0. |
| `Supertree.EmitNumbering` | supertree.py:53-58 | The loop numbers the rows it reports consecutively from its start value, in input order, with no gaps. Each record carries its own row, that row's suffix group and the depth of that row's path group. |
| `Supertree.EmitStops` | supertree.py:55-56 | The loop completes exactly when every row matches, and then reports every row. Otherwise it stops at the first row that does not match. That row's number is one past the last record, and all earlier rows matched. |
| `Supertree.SupertreeNumbering` | supertree.py:48-58 | An empty listing fails at `pop(0)`. The base directory line is never numbered. Record k describes line k + 1 of the listing, is numbered k + 1, and has its depth taken against the base line's separator count. The run completes exactly when every line after the first matches, and then every such line is reported once. |
| `Supertree.RunListing` | supertree.py:48-60 | The pop-then-enumerate loop of `main` produces exactly the report `Supertree` specifies, so all the properties above hold of it. |

## Left out

- Running `tree` and reading its output (supertree.py:47-48): this is subprocess I/O. The model starts from the list of lines.
- UTF-8 decoding (supertree.py:49, 54): lines are modelled as decoded strings. A decoding error is not modelled.
- `os.stat()` (supertree.py:59): this is a filesystem call. As written it takes no argument, so it would raise `TypeError` on the first row. The model reports each row as though that line were absent.
- `print` (supertree.py:60): this is output only. The model returns the printed tuples as `Record`s.
- The unused imports `argparse`, `filecmp` and `shutil` (supertree.py:5-11).
- Depth.DepthOf: the separator is a single character, as `os.path.sep` is. Python's counting of multi-character or empty substrings is not modelled. The baseline is an `int`, as at the only call site (supertree.py:51). The default `start='0'` (supertree.py:63) is a string and would make the subtraction raise `TypeError`; that default is not modelled.
- Backslash escapes written by `tree -Q`: the script does not undo them, and neither does the model. A name containing `"` is listed as `\"`, so the pattern takes that escaped quote as the opening quote. The model reproduces this behaviour as written.
- The script has no checksums, sizes, file kinds, indicator classification, CSV output or atomic file replacement. Its suffix group is reported raw. Its depth may be negative. Its numbering starts at 1. Any line with two or more `"` is accepted, whatever the parity. The model follows the script on all these points.
