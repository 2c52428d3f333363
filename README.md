# FullControl CI test harness, modelled in Dafny

`tests/CICD_test.py` is the continuous-integration harness of the FullControl
tutorials. It runs the combined tutorial script with progress reporting,
compares the printout with a reference printout and logs the outcome, tiles the
generated images into a collage, and deletes the generated artifacts. This
project models the logic inside those steps, with the filesystem, the child
process, the diff library and the imaging library replaced by inputs:

- `Runner` (`runner.dfy`): the script rewrite in `run_tutorials`. It adds the
  `import sys` line and puts a `sys.stderr.write("Progress: P%\n")` statement in
  front of every `# In[ ]:` cell marker. The proofs read the rewrite back:
  every original line is recovered, each marker reports the percentage of its
  original index, there are as many reports as markers, and the reports lie in
  0..99 and never decrease.
- `Comparator` (`comparator.dfy`): `compare_files`. The diff keeps only its `- `
  and `+ ` lines. The result log is a class whose `CompareFiles` method appends
  either the warning and the joined diff, or the success message. The prompt's
  answer is a parameter, and what is printed is returned as `shown`.
- `Files` (`files.dfy`): the name filters of `collage_all_images` and
  `delete_redundant_files`. The directory is a class holding a set of names,
  and the deletion loop removes every listed artifact except `collage.png` and
  `collage_reference.png`.
- `Collage` (`collage.dfy`): the grid of `collage_all_images`. There are
  `isqrt(n)` rows and `ceil(n / rows)` columns, and the tiles are 200 x 125.
  Image `i` in name order goes to row `i div cols` and column `i mod cols`.
  The time stamp is drawn 150 pixels from the right edge and 20 pixels from the
  bottom edge. With no image the column count divides by zero, and the model
  returns that error as its own outcome. The paste loop fills a two-dimensional
  array of cells, each holding the name of the image pasted there.
- `Strings`, `Seqs`, `Arith`: Python's string prefix and suffix tests,
  `''.join`, `str(int)`, code-point string order and sorting; an
  order-keeping filter; multiplication facts.

Three images make one row of three tiles (`Collage.ThreeImages`). The progress
percentages stay below 100; they never reach it.

## Model

| member | source | states |
|---|---|---|
| `Runner.ProgressLine` | tests/CICD_test.py:20 | the statement `sys.stderr.write("Progress: p%\n")` followed by a line break, with `p` in decimal; `Runner.MarkedLine` proves its percentage reads back |
| `Runner.Rewrite` | tests/CICD_test.py:20 | one list element of the comprehension; it always ends with the original line, and `Runner.RewrittenAt` states both branches |
| `Runner.Instrument` | tests/CICD_test.py:19-22 | the rewritten script has one more element than the script, and its first element is `import sys\n` |
| `Runner.Percent` | tests/CICD_test.py:20 | the progress of original line `i` of `n` is `floor(100 i / n)`, characterised by `p n <= 100 i < (p + 1) n`, and it is below 100 |
| `Runner.RewrittenAt` | tests/CICD_test.py:19-21 | element `i + 1` ends with line `i`; a non-marker line is unchanged; a marker becomes the progress statement for index `i`, then the marker |
| `Runner.PlainLine` | tests/CICD_test.py:20 | a line as `readlines` yields it is read back as itself and reports no progress |
| `Runner.MarkedLine` | tests/CICD_test.py:20 | a marker behind its progress statement is read back intact, and the statement reports exactly its percentage |
| `Runner.ReportedAt` | tests/CICD_test.py:20-21 | element `i + 1` reports a percentage exactly when line `i` is the marker, and it is the percentage of original index `i` |
| `Runner.OriginalAt` | tests/CICD_test.py:20-21 | element `i + 1` gives back line `i` unchanged |
| `Runner.InstrumentRoundTrip` | tests/CICD_test.py:19-22 | dropping the import line and the progress statements restores the script exactly |
| `Runner.ProgressCount` | tests/CICD_test.py:19-22 | the rewritten script holds as many progress statements as the script has markers |
| `Runner.PercentMonotone` | tests/CICD_test.py:20 | the progress of a later original line is never smaller |
| `Runner.ProgressNonDecreasing` | tests/CICD_test.py:20-21 | the percentages of two markers are below 100 and in the order of the markers |
| `Comparator.Warning` | tests/CICD_test.py:39 | the warning with the difference count between its fixed head and tail; `Comparator.WarningStatesCount` proves the count reads back |
| `Comparator.LogEntries` | tests/CICD_test.py:38-45 | the entries one comparison appends; `Comparator.LogOutcome` states both outcomes |
| `Comparator.Shown` | tests/CICD_test.py:40-46 | the printed entries; `Comparator.ShownFromLog` proves each is a log entry and when the diff body is left out |
| `Comparator.Changes` | tests/CICD_test.py:37 | no kept diff line is a context (`  `) or hint (`? `) line |
| `Comparator.ChangesExact` | tests/CICD_test.py:37 | a line is kept exactly when it is in the diff and starts with `- ` or `+ ` |
| `Comparator.ChangesAppend` | tests/CICD_test.py:37 | the filter distributes over concatenation, so kept lines stay in diff order |
| `Comparator.WarningStatesCount` | tests/CICD_test.py:39 | the digits between the warning's fixed head and tail read back as the number of differences |
| `Comparator.LogOutcome` | tests/CICD_test.py:38-45 | the log grows by the warning and then the joined diff when differences remain, and by the success message alone otherwise; its first new entry tells which |
| `Comparator.ShownFromLog` | tests/CICD_test.py:40-46 | everything printed is an appended log entry; all entries are printed unless the answer declines the diff body |
| `Comparator.ResultLog.CompareFiles` | tests/CICD_test.py:32-46 | the log becomes the old log plus the entries for the kept diff lines, whatever the answer; earlier entries are unchanged |
| `Comparator.ResultLog.constructor` | tests/CICD_test.py:79 | the log starts with the header line |
| `Files.CollageInputs` | tests/CICD_test.py:50 | every selected name is listed, ends with `.png` and is not a collage; `Files.CollageInputsDoomed` gives the converse |
| `Files.Artifacts` | tests/CICD_test.py:72 | every candidate is listed and has one of the four artifact suffixes |
| `Files.Doomed` | tests/CICD_test.py:73-75 | every deleted name is a listed artifact other than the two collages; `Files.DoomedExact` gives the converse |
| `Files.Remaining` | tests/CICD_test.py:72-75 | the directory after the deletion holds no new name, and a name disappears only if it was deleted; `Files.RemainingSafe` states what survives |
| `Files.DoomedExact` | tests/CICD_test.py:72-75 | the deleted names are exactly the listed `.png`, `.gcode`, `.json` and `.stl` names other than the two collages |
| `Files.ReservedNeverDoomed` | tests/CICD_test.py:72-75 | both collages match the artifact filter and are still never deleted |
| `Files.CollageInputsDoomed` | tests/CICD_test.py:50-75 | the collage inputs are exactly the listed `.png` names other than the two collages, and each is deleted afterwards |
| `Files.Directory.DeleteRedundantFiles` | tests/CICD_test.py:71-75 | the directory loses exactly the deleted names and nothing else |
| `Files.RemainingSafe` | tests/CICD_test.py:72-75 | after the deletion no artifact remains except a collage, every non-artifact is still there, and a collage present before is still present |
| `Collage.GridFor` | tests/CICD_test.py:54-55 | rows are `isqrt(n)`, columns `ceil(n / rows)`, and the division fails without rows; any grid it yields has columns and room for all `n` images; `Collage.GridShape` characterises it fully |
| `Collage.Cell` | tests/CICD_test.py:63 | the column of image `i` is below `cols`, and `row cols + column` is `i` again |
| `Collage.TileOrigin` | tests/CICD_test.py:64 | the tile of image `i` never sticks out of the right edge of the canvas; `Collage.TileInsideCanvas` adds the bottom edge |
| `Collage.CanvasSize` | tests/CICD_test.py:59 | `200 cols` by `125 rows` pixels; `Collage.TileInsideCanvas` and `Collage.WatermarkInside` state what it contains |
| `Collage.WatermarkAt` | tests/CICD_test.py:66 | 150 pixels left of the right edge and 20 above the bottom edge; `Collage.WatermarkInside` proves it is on the canvas |
| `Collage.CollageOrder` | tests/CICD_test.py:50-52 | the paste order is ascending by name and a permutation of the collage inputs |
| `Collage.Isqrt` | tests/CICD_test.py:54 | the row count `r` satisfies `r r <= n < (r + 1)(r + 1)` |
| `Collage.GridShape` | tests/CICD_test.py:54-55 | the column count divides by zero exactly when there is no image; otherwise rows are the integer square root and columns are the fewest that hold all images |
| `Collage.GridNearlySquare` | tests/CICD_test.py:54-55 | columns are at least the rows and at most two more, and fewer than one row of cells stays empty |
| `Collage.ThreeImages` | tests/CICD_test.py:54-55 | three images make one row of three columns |
| `Collage.TileInsideCanvas` | tests/CICD_test.py:59-64 | every tile lies wholly inside the 200 cols x 125 rows canvas |
| `Collage.TilesDisjoint` | tests/CICD_test.py:62-64 | tiles of two different images do not overlap |
| `Collage.WatermarkInside` | tests/CICD_test.py:66 | the time stamp position lies inside the canvas |
| `Collage.CollageOrderDeterministic` | tests/CICD_test.py:50-52 | the paste order depends on which files exist, not on the order of the directory listing |
| `Collage.Paste` | tests/CICD_test.py:60-64 | the canvas has rows x cols cells; cell `(r, c)` holds image `r cols + c` when there is one and is blank otherwise |
| `Collage.ExpectedStep` | tests/CICD_test.py:62-64 | pasting image `i` fills cell `(i div cols, i mod cols)` and leaves every other cell as it was |
| `Collage.CollageAllImages` | tests/CICD_test.py:48-66 | no image gives the division error; otherwise the canvas size, watermark and every cell follow from the name-sorted collage inputs |
| `Strings.NatToString` | tests/CICD_test.py:39 | a count is written as decimal digits without a leading zero |
| `Strings.ParseNatToString` | tests/CICD_test.py:39 | the decimal text of a count reads back as that count |
| `Strings.ConcatAppend` | tests/CICD_test.py:41 | joining the diff lines puts them one after another |
| `Strings.SortNames` | tests/CICD_test.py:52 | the sorted names are in ascending code-point order and are a permutation of the input |
| `Strings.SortedUnique` | tests/CICD_test.py:52 | two ascending orders of the same names are equal |
| `Seqs.Filter` | tests/CICD_test.py:37 | a comprehension keeps only elements satisfying its condition, each taken from the input, and keeps every such element |
| `Seqs.FilterAppend` | tests/CICD_test.py:37 | a comprehension filter distributes over concatenation, so it keeps input order |
| `Seqs.FilterMultiplicity` | tests/CICD_test.py:50 | a kept element keeps its multiplicity and a dropped one has none |

## Left out

- Reading `combined_tutorials.py`, writing `temp.py`, `test_print_output.txt` and `test_result.txt`, `os.listdir` and `os.remove`: filesystem I/O. Script lines, diff lines and directory listings are inputs, and the directory is a set of names.
- `subprocess.run` and the `exit()` after `CalledProcessError` (lines 25-30): process execution.
- The `FULLCONTROL_CICD_TESTING` environment variable (lines 78 and 84): process state.
- `input()` and `print()` (lines 40-46): the answer is a parameter of `CompareFiles`, and the printed lines are its result `shown`. The other messages (lines 80-82, 88-89) are not modelled.
- `Comparator.IsYes`: `user_input.lower() == "y"` is modelled as the answer being `y` or `Y`, the only strings that lower-case to `y`.
- `difflib.ndiff` (line 36): the diff is an arbitrary sequence of lines. So the property that identical printouts give no differences is not modelled.
- PIL (lines 51, 57, 60, 64, 67-69): opening, resizing, pixel pasting, text drawing and saving are not modelled. A canvas cell records which image was pasted there, and the watermark is only a position.
- `datetime.now()` (lines 68 and 79): the log header is a constructor parameter, and the time stamp text is not modelled.
- The top-level sequence of calls and the `'\n'.join` of the log into the result file (lines 78-90) are not modelled beyond the log itself.
- `Runner.Percent`: the source computes `int(i / len(script) * 100)` in floating point. The model uses the exact `floor(100 i / n)`, which the float result can undercut by one (`i = 29`, `n = 100` gives 28). `Runner.RewrittenAt`, `Runner.ReportedAt` and `Runner.ProgressNonDecreasing` inherit that exact value. The bounds 0..99 and the non-decreasing order hold for the float computation as well.
- `Collage.Isqrt`: `int(n ** 0.5)` is a float square root truncated. It equals the integer square root for any image count below 2^52, and that is the value the model uses.
- The model returns the division by zero for an empty image list as an outcome. In the source this is an uncaught exception that ends the run before cleanup and before the result file is written.
