/** The RPT-to-CSV converter: the line tokenizer `parse_filedata` and the
    pure pieces of `execute`, `write_to_csv` and the constructor around it. */
module Rpt2Csv {
  import opened Wrappers
  import opened Sequences
  import opened Text

  const DefaultOutputDir: string := "./rpt2csvFiles"
  /** The two delimiters, in the order they are tried. */
  const Pipe: string := "|"
  const Spaces2: string := "  "
  /** A line starting with this is a banner and is dropped before parsing. */
  const Banner: string := "----"

  /** A CSV row: the stripped fields of a line, or, when no field survives,
      the line itself, untouched. */
  datatype Row = Tokenized(fields: seq<string>) | Raw(line: string)

  // ---------------------------------------------------------------------
  // Tokenizing one line
  // ---------------------------------------------------------------------

  /** The separator a line is split on: the pipe if the line has one, else two
      spaces if it has them, else none. */
  function Delimiter(line: string): (d: Option<string>)
    ensures d.Some? ==> d.value != "" && Contains(line, d.value)
  {
    if Contains(line, Pipe) then Some(Pipe)
    else if Contains(line, Spaces2) then Some(Spaces2)
    else None
  }

  /** The pieces `line.split(delimiter)`, or no pieces when neither delimiter
      occurs. */
  function Pieces(line: string): (r: seq<string>)
    ensures forall k :: 0 <= k < |r| ==> Contains(line, r[k])
    ensures Delimiter(line).Some? ==> forall k :: 0 <= k < |r| ==> !Contains(r[k], Delimiter(line).value)
    ensures Delimiter(line).None? <==> r == []
  {
    match Delimiter(line)
    case None => []
    case Some(d) =>
      SplitPiecesOccur(line, d);
      Split(line, d)
  }

  /** The list comprehension `[datum.strip() for datum in pieces if
      datum.strip()]`: the non-blank pieces, stripped, in order. */
  function Tokens(pieces: seq<string>): (r: seq<string>)
    ensures forall k :: 0 <= k < |r| ==> r[k] != "" && IsStripped(r[k])
  {
    if pieces == [] then []
    else
      var t := Strip(pieces[0]);
      if t == "" then Tokens(pieces[1..])
      else
        StripSpec(pieces[0]);
        [t] + Tokens(pieces[1..])
  }

  /** `t` is the stripped form of one of `pieces`. */
  predicate StripOfSome(pieces: seq<string>, t: string) {
    exists i :: 0 <= i < |pieces| && t == Strip(pieces[i])
  }

  /** Each token is the stripped form of some piece. */
  lemma {:induction false} TokensFromPieces(pieces: seq<string>)
    ensures forall k :: 0 <= k < |Tokens(pieces)| ==> StripOfSome(pieces, Tokens(pieces)[k])
  {
    if pieces == [] {
      assert Tokens(pieces) == [];
    } else {
      var rest := Tokens(pieces[1..]);
      TokensFromPieces(pieces[1..]);
      var t := Strip(pieces[0]);
      var r := Tokens(pieces);
      assert r == if t == "" then rest else [t] + rest;
      forall k | 0 <= k < |r|
        ensures StripOfSome(pieces, r[k])
      {
        if t != "" && k == 0 {
          assert r[k] == Strip(pieces[0]);
        } else {
          var k' := if t == "" then k else k - 1;
          assert r[k] == rest[k'];
          StripOfSomeTail(pieces, rest[k']);
        }
      }
    }
  }

  /** A stripped form of a later piece is a stripped form of some piece. */
  lemma StripOfSomeTail(pieces: seq<string>, t: string)
    requires pieces != [] && StripOfSome(pieces[1..], t)
    ensures StripOfSome(pieces, t)
  {
    var i :| 0 <= i < |pieces[1..]| && t == Strip(pieces[1..][i]);
    assert pieces[1..][i] == pieces[i + 1];
  }

  /** Every piece that does not strip to empty gives a token. */
  lemma {:induction false} TokensKeepNonBlank(pieces: seq<string>)
    ensures forall i :: 0 <= i < |pieces| && Strip(pieces[i]) != "" ==> Strip(pieces[i]) in Tokens(pieces)
  {
    if pieces != [] {
      var rest := Tokens(pieces[1..]);
      TokensKeepNonBlank(pieces[1..]);
      assert forall i :: 1 <= i < |pieces| ==> pieces[i] == pieces[1..][i - 1];
      var t := Strip(pieces[0]);
      assert Tokens(pieces) == if t == "" then rest else [t] + rest;
    }
  }

  /** Tokenizing keeps the pieces' order: the tokens of a concatenation are
      the tokens of the first part followed by those of the second. */
  lemma {:induction false} TokensAppend(a: seq<string>, b: seq<string>)
    ensures Tokens(a + b) == Tokens(a) + Tokens(b)
  {
    if a == [] {
      assert a + b == b;
    } else {
      assert (a + b)[1..] == a[1..] + b;
      TokensAppend(a[1..], b);
    }
  }

  /** A single piece yields its stripped form, unless that is empty. */
  lemma TokensSingle(piece: string)
    ensures Tokens([piece]) == if Strip(piece) != "" then [Strip(piece)] else []
  {
    assert [piece][1..] == [];
  }

  /** When no piece is blank, the tokens are exactly the stripped pieces,
      one each and in order. */
  lemma {:induction false} TokensAllNonBlank(pieces: seq<string>)
    requires forall i :: 0 <= i < |pieces| ==> Strip(pieces[i]) != ""
    ensures |Tokens(pieces)| == |pieces|
    ensures forall i :: 0 <= i < |pieces| ==> Tokens(pieces)[i] == Strip(pieces[i])
  {
    if pieces != [] {
      var tail := pieces[1..];
      assert forall i :: 0 <= i < |tail| ==> tail[i] == pieces[i + 1];
      TokensAllNonBlank(tail);
      assert Tokens(pieces) == [Strip(pieces[0])] + Tokens(tail);
    }
  }

  /** No token holds `sep` if no piece does: tokens are substrings of pieces. */
  lemma TokensAvoid(pieces: seq<string>, sep: string)
    requires forall i :: 0 <= i < |pieces| ==> !Contains(pieces[i], sep)
    ensures forall k :: 0 <= k < |Tokens(pieces)| ==> !Contains(Tokens(pieces)[k], sep)
  {
    var r := Tokens(pieces);
    TokensFromPieces(pieces);
    forall k | 0 <= k < |r| ensures !Contains(r[k], sep) {
      var i :| 0 <= i < |pieces| && r[k] == Strip(pieces[i]);
      StripSpec(pieces[i]);
      if Contains(r[k], sep) {
        ContainsTransitive(pieces[i], r[k], sep);
      }
    }
  }

  /** Every token is a substring of `line` if every piece is. */
  lemma TokensOccur(pieces: seq<string>, line: string)
    requires forall i :: 0 <= i < |pieces| ==> Contains(line, pieces[i])
    ensures forall k :: 0 <= k < |Tokens(pieces)| ==> Contains(line, Tokens(pieces)[k])
  {
    var r := Tokens(pieces);
    TokensFromPieces(pieces);
    forall k | 0 <= k < |r| ensures Contains(line, r[k]) {
      var i :| 0 <= i < |pieces| && r[k] == Strip(pieces[i]);
      StripSpec(pieces[i]);
      ContainsTransitive(line, pieces[i], r[k]);
    }
  }

  /** The expression `line_data or line`: the tokens if any survive,
      otherwise the line itself. */
  function RowOf(line: string, tokens: seq<string>): Row {
    if tokens != [] then Tokenized(tokens) else Raw(line)
  }

  /** One pass of the loop body of `parse_filedata`: the row a line yields,
      or `None` when the line is skipped. */
  function ParseLine(line: string): (r: Option<Row>)
    ensures r.None? <==> line == ""
    ensures r.Some? && r.value.Raw? ==> r.value.line == line
    ensures r.Some? && r.value.Tokenized? ==>
      r.value.fields != [] &&
      forall k :: 0 <= k < |r.value.fields| ==>
        r.value.fields[k] != "" && IsStripped(r.value.fields[k]) && Contains(line, r.value.fields[k])
  {
    var tokens := Tokens(Pieces(line));
    TokensOccur(Pieces(line), line);
    var data := RowOf(line, tokens);
    if data.Raw? && data.line == "" then None else Some(data)
  }

  /** A line with a pipe is split on every pipe, whatever else it holds, and
      none of its tokens holds a pipe. */
  lemma PipeTakesPriority(line: string)
    requires Contains(line, Pipe)
    ensures ParseLine(line) == Some(RowOf(line, Tokens(Split(line, Pipe))))
    ensures forall k :: 0 <= k < |Tokens(Split(line, Pipe))| ==> !Contains(Tokens(Split(line, Pipe))[k], Pipe)
  {
    TokensAvoid(Split(line, Pipe), Pipe);
  }

  /** A line without a pipe but with two spaces is split on the leftmost
      non-overlapping double spaces; its tokens hold neither a pipe nor two
      spaces. */
  lemma DoubleSpaceSplit(line: string)
    requires !Contains(line, Pipe) && Contains(line, Spaces2)
    ensures ParseLine(line) == Some(RowOf(line, Tokens(Split(line, Spaces2))))
    ensures forall k :: 0 <= k < |Tokens(Split(line, Spaces2))| ==>
      !Contains(Tokens(Split(line, Spaces2))[k], Pipe) && !Contains(Tokens(Split(line, Spaces2))[k], Spaces2)
  {
    var pieces := Split(line, Spaces2);
    TokensAvoid(pieces, Spaces2);
    SplitPiecesOccur(line, Spaces2);
    forall i | 0 <= i < |pieces| ensures !Contains(pieces[i], Pipe) {
      if Contains(pieces[i], Pipe) {
        ContainsTransitive(line, pieces[i], Pipe);
      }
    }
    TokensAvoid(pieces, Pipe);
  }

  /** A non-empty line with neither delimiter is kept whole. */
  lemma NoDelimiterIsRaw(line: string)
    requires line != "" && !Contains(line, Pipe) && !Contains(line, Spaces2)
    ensures ParseLine(line) == Some(Raw(line))
  {
  }

  /** A non-empty whitespace-only line is kept whole, padding and newline
      included, whichever delimiter it holds. */
  lemma BlankLineIsRaw(line: string)
    requires line != "" && AllSpace(line)
    ensures ParseLine(line) == Some(Raw(line))
  {
    var pieces := Pieces(line);
    forall i | 0 <= i < |pieces| ensures Strip(pieces[i]) == "" {
      AllSpaceSubstring(line, pieces[i]);
    }
    var tokens := Tokens(pieces);
    TokensFromPieces(pieces);
    if tokens != [] {
      var i :| 0 <= i < |pieces| && tokens[0] == Strip(pieces[i]);
    }
  }

  // ---------------------------------------------------------------------
  // parse_filedata: the loop over the lines
  // ---------------------------------------------------------------------

  function RowsOfLine(line: string): seq<Row> {
    match ParseLine(line)
    case None => []
    case Some(row) => [row]
  }

  /** The rows `parse_filedata` has appended after processing `lines`. */
  function ParseAll(lines: seq<string>): (rows: seq<Row>)
    ensures |rows| <= |lines|
  {
    if lines == [] then []
    else ParseAll(lines[..|lines| - 1]) + RowsOfLine(lines[|lines| - 1])
  }

  /** Every row is well formed: no empty field, no padded field, no empty
      tokenized row and no empty raw line. */
  lemma {:induction false} ParseAllWellFormed(lines: seq<string>)
    ensures forall k :: 0 <= k < |ParseAll(lines)| ==> WellFormed(ParseAll(lines)[k])
    decreases |lines|
  {
    if lines != [] {
      var init, last := lines[..|lines| - 1], lines[|lines| - 1];
      ParseAllWellFormed(init);
      var rows, more := ParseAll(init), RowsOfLine(last);
      assert ParseAll(lines) == rows + more;
      forall k | 0 <= k < |rows + more|
        ensures WellFormed((rows + more)[k])
      {
        if k < |rows| {
          assert (rows + more)[k] == rows[k];
        } else {
          assert (rows + more)[k] == more[0] && ParseLine(last) == Some(more[0]);
        }
      }
    }
  }

  /** A row as `parse_filedata` emits it: a non-empty list of non-empty,
      stripped fields, or a non-empty line. */
  predicate WellFormed(row: Row) {
    match row
    case Tokenized(fields) =>
      fields != [] && forall k :: 0 <= k < |fields| ==> fields[k] != "" && IsStripped(fields[k])
    case Raw(line) => line != ""
  }

  predicate NonEmpty(line: string) {
    line != ""
  }

  /** Rows come in input order: parsing a concatenation parses each part. */
  lemma {:induction false} ParseAllAppend(a: seq<string>, b: seq<string>)
    ensures ParseAll(a + b) == ParseAll(a) + ParseAll(b)
    decreases |b|
  {
    if b == [] {
      assert a + b == a;
    } else {
      var b' := b[..|b| - 1];
      assert (a + b)[..|a + b| - 1] == a + b';
      assert (a + b)[|a + b| - 1] == b[|b| - 1];
      ParseAllAppend(a, b');
    }
  }

  /** A single line yields its row, or nothing when it is empty. */
  lemma ParseAllSingle(line: string)
    ensures ParseAll([line]) == RowsOfLine(line)
  {
    assert [line][..0] == [];
  }

  /** Exactly one row per non-empty line, in order, and none for `""`. */
  lemma {:induction false} ParseAllOnePerLine(lines: seq<string>)
    ensures |ParseAll(lines)| == |Filter(NonEmpty, lines)|
    ensures forall k :: 0 <= k < |ParseAll(lines)| ==>
      ParseLine(Filter(NonEmpty, lines)[k]) == Some(ParseAll(lines)[k])
    decreases |lines|
  {
    if lines != [] {
      var init, last := lines[..|lines| - 1], lines[|lines| - 1];
      LastSplit(lines);
      FilterAppend(NonEmpty, init, [last]);
      ParseAllOnePerLine(init);
      var rows, kept := ParseAll(init), Filter(NonEmpty, init);
      var lastRows, lastKept := RowsOfLine(last), Filter(NonEmpty, [last]);
      assert lastKept == if last != "" then [last] else [];
      assert |lastRows| == |lastKept|;
      assert ParseAll(lines) == rows + lastRows;
      assert Filter(NonEmpty, lines) == kept + lastKept;
      forall k | 0 <= k < |rows| + |lastRows|
        ensures ParseLine((kept + lastKept)[k]) == Some((rows + lastRows)[k])
      {
        if k < |rows| {
          assert (kept + lastKept)[k] == kept[k] && (rows + lastRows)[k] == rows[k];
        } else {
          assert (kept + lastKept)[k] == last && (rows + lastRows)[k] == lastRows[0];
        }
      }
    }
  }

  /** One more line appends that line's rows. */
  lemma ParseAllSnoc(lines: seq<string>, i: nat)
    requires i < |lines|
    ensures ParseAll(lines[..i + 1]) == ParseAll(lines[..i]) + RowsOfLine(lines[i])
  {
    assert lines[..i + 1][..i] == lines[..i];
  }

  /** `Rpt2Csv.parse_filedata(lines)`. */
  method ParseFiledata(lines: seq<string>) returns (rows: seq<Row>)
    ensures rows == ParseAll(lines)
    ensures |rows| == |Filter(NonEmpty, lines)|
    ensures forall k :: 0 <= k < |rows| ==> ParseLine(Filter(NonEmpty, lines)[k]) == Some(rows[k])
  {
    rows := [];
    for i := 0 to |lines|
      invariant rows == ParseAll(lines[..i])
    {
      var line := lines[i];
      var lineData: seq<string> := [];
      if Contains(line, Pipe) {
        lineData := Split(line, Pipe);
      } else if Contains(line, Spaces2) {
        lineData := Split(line, Spaces2);
      }
      lineData := Tokens(lineData);
      assert lineData == Tokens(Pieces(line));
      ghost var before := rows;
      if lineData != [] {
        rows := rows + [Tokenized(lineData)];
      } else if line != "" {
        rows := rows + [Raw(line)];
      }
      assert rows == before + RowsOfLine(line);
      ParseAllSnoc(lines, i);
    }
    assert lines[..|lines|] == lines;
    ParseAllOnePerLine(lines);
  }

  // ---------------------------------------------------------------------
  // The pure pieces of execute, write_to_csv and __init__
  // ---------------------------------------------------------------------

  /** The condition of the comprehension that removes unwanted lines. */
  predicate KeepLine(line: string)
    ensures KeepLine(line) ==> line != ""
    ensures line != "" && line[0] != '-' ==> KeepLine(line)
  {
    assert line != "" && line[0] != '-' && |Banner| <= |line| ==> line[..|Banner|][0] == line[0];
    line != "" && !StartsWith(line, Banner)
  }

  /** The lines `execute` hands to `parse_filedata`. */
  function FilterLines(reader: seq<string>): (lines: seq<string>)
    ensures |lines| <= |reader|
    ensures forall k :: 0 <= k < |lines| ==> lines[k] != "" && !StartsWith(lines[k], Banner) && lines[k] in reader
    ensures forall k :: 0 <= k < |reader| && reader[k] != "" && !StartsWith(reader[k], Banner) ==> reader[k] in lines
  {
    Filter(KeepLine, reader)
  }

  /** The filter keeps the lines' order and drops a line exactly when it is
      empty or a banner. */
  lemma FilterLinesOrder(a: seq<string>, b: seq<string>, line: string)
    ensures FilterLines(a + b) == FilterLines(a) + FilterLines(b)
    ensures FilterLines([line]) == if line != "" && !StartsWith(line, Banner) then [line] else []
  {
    FilterAppend(KeepLine, a, b);
    assert [line][1..] == [];
  }

  /** The test `filename.lower().endswith('rpt')`. */
  predicate IsReportFile(filename: string)
    ensures IsReportFile(filename) ==> |filename| >= 3
    ensures EndsWith(filename, "rpt") ==> IsReportFile(filename)
  {
    assert EndsWith(filename, "rpt") ==> Lower(filename)[|filename| - 3..] == filename[|filename| - 3..];
    EndsWith(Lower(filename), "rpt")
  }

  /** The file test is a case-insensitive `rpt` suffix; no dot is needed. */
  lemma IsReportFileCaseInsensitive(filename: string)
    ensures IsReportFile(filename) <==>
      |filename| >= 3 &&
      filename[|filename| - 3] in "rR" &&
      filename[|filename| - 2] in "pP" &&
      filename[|filename| - 1] in "tT"
  {
    var n := |filename|;
    if n >= 3 {
      var low := Lower(filename);
      assert low[n - 3..] == [low[n - 3], low[n - 2], low[n - 1]];
    }
  }

  /** The file names `execute` converts, in walk order. */
  function SelectReportFiles(filenames: seq<string>): (r: seq<string>)
    ensures forall k :: 0 <= k < |r| ==> IsReportFile(r[k]) && r[k] in filenames
    ensures forall k :: 0 <= k < |filenames| && IsReportFile(filenames[k]) ==> filenames[k] in r
  {
    Filter(IsReportFile, filenames)
  }

  /** The selection keeps the walk's order and every occurrence of a name,
      and keeps a single name exactly when it passes the test. */
  lemma SelectReportFilesOrder(a: seq<string>, b: seq<string>, name: string)
    ensures SelectReportFiles(a + b) == SelectReportFiles(a) + SelectReportFiles(b)
    ensures SelectReportFiles([name]) == if IsReportFile(name) then [name] else []
  {
    FilterAppend(IsReportFile, a, b);
    assert [name][1..] == [];
  }

  /** The converter's configuration, set once by `__init__`. */
  datatype Converter = Converter(inputDir: string, outputDir: string)

  /** `Rpt2Csv(inputDir, outputDir)`: a missing (`None`) or empty output
      directory falls back to the default. */
  function NewConverter(inputDir: string, outputDir: Option<string>): (c: Converter)
    ensures c.inputDir == inputDir
    ensures c.outputDir != ""
    ensures outputDir.Some? && outputDir.value != "" ==> c.outputDir == outputDir.value
    ensures outputDir.None? || outputDir.value == "" ==> c.outputDir == DefaultOutputDir
  {
    match outputDir
    case Some(d) => Converter(inputDir, if d != "" then d else DefaultOutputDir)
    case None => Converter(inputDir, DefaultOutputDir)
  }

  /** The output file name `write_to_csv` opens for `filename`: the name
      without its last extension, with `.csv`, under the output directory. */
  function OutputFile(c: Converter, filename: string): (path: string)
    ensures StartsWith(path, c.outputDir + "/")
    ensures EndsWith(path, ".csv")
  {
    c.outputDir + "/" + SplitExt(filename).0 + ".csv"
  }

  /** `base.ext` becomes `base.csv` under the output directory. */
  lemma OutputFileReplacesExtension(c: Converter, base: string, ext: string)
    requires base != "" && base[|base| - 1] != '.' && base[|base| - 1] != '/'
    requires forall k :: 0 <= k < |ext| ==> ext[k] != '.' && ext[k] != '/'
    ensures OutputFile(c, base + "." + ext) == c.outputDir + "/" + base + ".csv"
  {
    SplitExtOfSimpleName(base, ext);
  }

  /** A name with no extension, such as a dotless name or one whose only
      dots lead it, keeps the whole name and gains `.csv`. */
  lemma OutputFileWithoutExtension(c: Converter, filename: string)
    requires forall j :: !ExtensionDot(filename, j)
    ensures OutputFile(c, filename) == c.outputDir + "/" + filename + ".csv"
  {
  }

  /** One iteration of the loop in `execute`, without the file I/O: the
      lines read from `filename` are filtered and parsed, and the rows are
      destined for the returned output file. */
  method ConvertFile(c: Converter, filename: string, reader: seq<string>)
    returns (outputFile: string, rows: seq<Row>)
    ensures outputFile == OutputFile(c, filename)
    ensures rows == ParseAll(FilterLines(reader))
    ensures |rows| == |FilterLines(reader)|
    ensures forall k :: 0 <= k < |rows| ==> ParseLine(FilterLines(reader)[k]) == Some(rows[k])
  {
    var lines := FilterLines(reader);
    FilterKeepsAll(NonEmpty, lines);
    rows := ParseFiledata(lines);
    outputFile := OutputFile(c, filename);
  }
}
