# rpt2csv in Dafny

This project models the converter in `rpt2csv.py`. The converter turns RPT text reports into CSV files. Its core is the line tokenizer `Rpt2Csv.parse_filedata`. For each report line it does the following:

- It splits the line on `|` if the line has one. Otherwise it splits on two spaces if the line has them.
- It strips every piece and drops the pieces that strip to empty.
- If no token survives, the row is the original line, untouched.
- Only the empty string yields no row.

The model also covers the pure parts of the driver:

- the filter in `execute` that drops empty lines and `----` banner lines;
- the case-insensitive `rpt` file-name test;
- the output-path expression in `write_to_csv`;
- the `outputDir or DEFAULT_OUTPUT_DIR` default in `__init__`.

Files and modules:

- `wrappers.dfy` (`Wrappers`): `Option`, the model of Python's `None`-or-value.
- `sequences.dfy` (`Sequences`): order-preserving `Filter`, the model of a list comprehension with an `if` clause.
- `text.dfy` (`Text`): the Python string built-ins the converter uses. These are `sub in s`, `str.split(sep)` with its inverse `sep.join`, `str.strip()`, `str.lower()`, `startswith`/`endswith`, and POSIX `os.path.splitext`.
- `rpt2csv.dfy` (`Rpt2Csv`): the row datatype, the per-line tokenizer, `parse_filedata` as a method with a loop, and the driver's pure pieces.
- `examples.dfy` (`Rpt2CsvExamples`): worked inputs, each proved from the general lemmas.

A row is `Tokenized(fields)` or `Raw(line)`. In Python it is a list of strings, or the line string itself.

Two consequences of the code are worth stating:

- A whitespace-only line such as `"  \n"` is not dropped. It contains two spaces, all its pieces strip to empty, and so it becomes the row `Raw("  \n")` (rpt2csv.py:33-36).
- The four-line report `"----banner----\n"`, `"A|B|C\n"`, `"  \n"`, `"bal200dr\n"` therefore gives three rows: `[A, B, C]`, `Raw("  \n")` and `Raw("bal200dr\n")`. `Rpt2CsvExamples.ReportRowsExample` proves this.

## Model

| member | source | states |
|---|---|---|
| `Sequences.Filter` | rpt2csv.py:75-76 | the comprehension `[x for x in s if keep(x)]`, also used at rpt2csv.py:33 and rpt2csv.py:65-68: no longer than its input, every kept element passes the test and comes from the input, and every input element that passes is kept |
| `Text.Contains` | rpt2csv.py:29-31 | `sub in s`, as in the pipe test and `spaces_2 in line`: the empty string is in every string, and nothing longer than `s` is in it |
| `Text.Split` | rpt2csv.py:29-32 | `line.split(sep)` for a non-empty separator: the pieces join back to the line, each cut is at the leftmost non-overlapping occurrence, empty pieces are kept, and no piece holds the separator |
| `Text.SplitUnique` | rpt2csv.py:29-32 | the leftmost-split property determines the pieces, so `Split` is the only function that meets it |
| `Text.SplitPiecesOccur` | rpt2csv.py:29-32 | every piece of a split is a substring of the line |
| `Text.Strip` | rpt2csv.py:33 | `datum.strip()` is no longer than the datum and has no whitespace at either end |
| `Text.StripPadded` | rpt2csv.py:33 | `datum.strip()` sits in the datum after its leading whitespace, with only whitespace before and after it |
| `Text.StripSpec` | rpt2csv.py:33 | `datum.strip()` has no whitespace at either end, is a substring of the datum, and is empty exactly when the datum is all whitespace |
| `Text.StripUnique` | rpt2csv.py:33 | a string equals `Strip(s)` if it has no whitespace at either end and `s` is that string padded with whitespace on both sides |
| `Text.StripIdempotent` | rpt2csv.py:33 | stripping twice is stripping once |
| `Text.Lower` | rpt2csv.py:68 | `.lower()` keeps the length, leaves no ASCII capital, shifts each capital to its lower-case letter, and leaves every other character as it is |
| `Text.SplitExt` | rpt2csv.py:50 | `os.path.splitext`: root and extension concatenate to the name, and the extension is empty or starts at the last dot after the last `/` that is not a leading dot |
| `Text.SplitExtOfSimpleName` | rpt2csv.py:50 | `base.ext` splits into `base` and `.ext` |
| `Text.SplitExtOfDotless` | rpt2csv.py:50 | a name without a dot has no extension |
| `Rpt2Csv.Delimiter` | rpt2csv.py:29-32 | the separator chosen for a line occurs in the line |
| `Rpt2Csv.Pieces` | rpt2csv.py:28-32 | the pieces are substrings of the line and hold no separator; there are no pieces exactly when the line has neither delimiter |
| `Rpt2Csv.Tokens` | rpt2csv.py:33 | every token of the comprehension is non-empty and has no whitespace at either end |
| `Rpt2Csv.TokensFromPieces` | rpt2csv.py:33 | every token is the stripped form of some piece |
| `Rpt2Csv.TokensKeepNonBlank` | rpt2csv.py:33 | every piece that does not strip to empty contributes its stripped form |
| `Rpt2Csv.TokensAppend` | rpt2csv.py:33 | tokens keep the left-to-right order of their pieces: the tokens of `a + b` are those of `a` followed by those of `b` |
| `Rpt2Csv.TokensSingle` | rpt2csv.py:33 | one piece gives its stripped form, or nothing if that is empty |
| `Rpt2Csv.TokensAllNonBlank` | rpt2csv.py:33 | when no piece is blank, the tokens are the stripped pieces, one each, in order |
| `Rpt2Csv.TokensAvoid` | rpt2csv.py:33 | a token holds no string that its pieces do not hold |
| `Rpt2Csv.TokensOccur` | rpt2csv.py:33 | every token is a substring of the line |
| `Rpt2Csv.ParseLine` | rpt2csv.py:28-36 | a line yields no row exactly when it is `""`; a `Raw` row is the line itself; a tokenized row is non-empty, and its fields are non-empty, stripped substrings of the line |
| `Rpt2Csv.PipeTakesPriority` | rpt2csv.py:29-30 | a line with a pipe gives the stripped non-empty pieces of its pipe split, even if it also has two spaces, and no token holds a pipe |
| `Rpt2Csv.DoubleSpaceSplit` | rpt2csv.py:31-32 | a line with two spaces and no pipe gives the stripped non-empty pieces of its double-space split, and no token holds a pipe or two spaces |
| `Rpt2Csv.NoDelimiterIsRaw` | rpt2csv.py:34-36 | a non-empty line with neither delimiter is the row `Raw(line)` |
| `Rpt2Csv.BlankLineIsRaw` | rpt2csv.py:33-36 | a non-empty whitespace-only line is the row `Raw(line)`, padding and newline included |
| `Rpt2Csv.ParseAll` | rpt2csv.py:26-37 | the rows after the loop: at most one per line |
| `Rpt2Csv.ParseAllWellFormed` | rpt2csv.py:26-37 | every row is a non-empty list of non-empty stripped fields or a non-empty raw line |
| `Rpt2Csv.ParseAllAppend` | rpt2csv.py:26-37 | rows come in input order: parsing `a + b` is parsing `a`, then `b` |
| `Rpt2Csv.ParseAllSingle` | rpt2csv.py:26-37 | one line gives its own row, or none if it is empty |
| `Rpt2CsvExamples.ParseAllOfRows` | rpt2csv.py:26-37 | lines that each yield one given row yield exactly those rows, in the same order |
| `Rpt2Csv.ParseAllOnePerLine` | rpt2csv.py:26-37 | there are as many rows as non-empty lines, and the k-th row is the row of the k-th non-empty line |
| `Rpt2Csv.ParseFiledata` | rpt2csv.py:18-37 | the loop appends the rows of the lines seen so far; the result has one row per non-empty line, in order |
| `Rpt2Csv.KeepLine` | rpt2csv.py:76 | the condition `line and not line.startswith('----')`: a kept line is non-empty, and every non-empty line not starting with a dash is kept |
| `Rpt2Csv.FilterLines` | rpt2csv.py:75-76 | every kept line is non-empty and not a banner, and comes from the input; every non-empty non-banner input line is kept |
| `Rpt2Csv.FilterLinesOrder` | rpt2csv.py:75-76 | the filter keeps the order (it distributes over concatenation), and it drops a single line exactly when that line is empty or starts with `----` |
| `Rpt2Csv.IsReportFile` | rpt2csv.py:68 | `filename.lower().endswith('rpt')`: a selected name has at least three characters, and every name ending in lower-case `rpt` is selected |
| `Rpt2Csv.IsReportFileCaseInsensitive` | rpt2csv.py:68 | a file is selected exactly when its last three characters are `r`, `p`, `t` in either case |
| `Rpt2Csv.SelectReportFiles` | rpt2csv.py:65-68 | the selected names pass the test and come from the walk; every name that passes is selected |
| `Rpt2Csv.SelectReportFilesOrder` | rpt2csv.py:65-68 | the selection keeps the walk order and every occurrence of a name, so a name found in two directories is selected twice; a single name is kept exactly when it passes the test |
| `Rpt2Csv.NewConverter` | rpt2csv.py:14-16 | a `None` or empty output directory becomes `./rpt2csvFiles`; any other is kept; the input directory is kept |
| `Rpt2Csv.OutputFile` | rpt2csv.py:50 | the output path is under `outputDir + "/"` and ends in `.csv` |
| `Rpt2Csv.OutputFileReplacesExtension` | rpt2csv.py:50 | `base.ext` becomes `outputDir/base.csv` |
| `Rpt2Csv.OutputFileWithoutExtension` | rpt2csv.py:50 | a name with no extension keeps its whole name and gains `.csv` |
| `Rpt2Csv.ConvertFile` | rpt2csv.py:70-78 | one pass of the file loop: the output path of the file, and one row per line that survives the filter, in order |
| `Rpt2CsvExamples.DoubleSpaceRunExample` | rpt2csv.py:31-33 | `"a   b"` splits into `"a"` and `" b"` and gives the fields `a`, `b` |
| `Rpt2CsvExamples.PipeRowExample` | rpt2csv.py:29-33 | the pipe-separated line of `A`, `B` and `C` with a newline gives the fields `A`, `B`, `C` |
| `Rpt2CsvExamples.NoDelimiterExample` | rpt2csv.py:34-36 | `"bal200dr\n"` is kept whole, newline included |
| `Rpt2CsvExamples.BlankLineExample` | rpt2csv.py:33-36 | `"  \n"` is kept whole, though it holds two spaces |
| `Rpt2CsvExamples.UndashedLineKept` | rpt2csv.py:75-76 | a non-empty line whose first character is not a dash passes the filter |
| `Rpt2CsvExamples.ReportFilterExample` | rpt2csv.py:75-76 | in the four-line report only the banner is dropped |
| `Rpt2CsvExamples.ReportRowsExample` | rpt2csv.py:26-37 | the three kept lines give three rows |
| `Rpt2CsvExamples.ReportFileExamples` | rpt2csv.py:68 | `report.RPT` and `xrpt` are selected; `report.doc` is not |
| `Rpt2CsvExamples.OutputFileOfBar` | rpt2csv.py:50 | `bar.rpt` becomes `bar.csv` under the output directory |
| `Rpt2CsvExamples.OutputFileDefaultExample` | rpt2csv.py:50 | with no output directory, `bar.rpt` becomes `./rpt2csvFiles/bar.csv` |
| `Rpt2CsvExamples.EmptyOutputDirExample` | rpt2csv.py:16 | an empty output directory counts as none |
| `Rpt2CsvExamples.OutputFileHiddenExample` | rpt2csv.py:50 | `.rpt` has no extension to drop and becomes `out/.rpt.csv` |
| `Rpt2CsvExamples.OutputFileDotlessExample` | rpt2csv.py:50 | `xrpt` becomes `outputDir/xrpt.csv` |

## Left out

- File reading (`open` with `utf-8-sig` decoding, BOM removal, `readlines`) is left out (rpt2csv.py:72-73). The model starts from the list of lines read.
- Creating the output directory (`check_out_dir`, rpt2csv.py:39-40) is filesystem I/O and is left out.
- CSV serialisation (`csv.writer`, quoting, rpt2csv.py:52-54) belongs to the standard library and is left out. The rows handed to it are modelled. A `Raw` row is a plain string in Python, and the writer would emit it one character per field. The model does not capture this.
- `os.walk` (rpt2csv.py:65-67) is left out because its order is filesystem behaviour. `SelectReportFiles` takes the walked file names as a list. The full path `os.path.join(root, filename)` is used only to open the file, so it is left out too.
- Two selected files with the same name in different directories get the same output path, because `OutputFile` uses the name only. The second conversion then overwrites the first one's CSV. The overwrite is file I/O and is left out; the shared path is what `OutputFile` states.
- Console output (`print`) is left out.
- The command line (`parse_cmdline`, `main`, rpt2csv.py:81-100) is argument plumbing. It is represented only by `NewConverter`'s optional output directory.
- `Text.Lower` folds ASCII letters only, not Python's full Unicode lower-casing. For the `endswith('rpt')` test this gives the same answer: no non-ASCII character lower-cases to `r`, `p` or `t`.
- `Text.IsSpace` is the set of code points Python's `str.isspace` accepts. The model takes that set as fixed rather than deriving it from the Unicode tables.
