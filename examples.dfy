/** Worked inputs for the converter, each proved from the general lemmas. */
module Rpt2CsvExamples {
  import opened Wrappers
  import opened Text
  import opened Rpt2Csv
  import opened Sequences

  lemma FilterLinesOfFour(a: string, b: string, c: string, d: string)
    ensures FilterLines([a, b, c, d]) ==
      FilterLines([a]) + FilterLines([b]) + FilterLines([c]) + FilterLines([d])
  {
    assert [a, b, c, d] == [a] + [b] + [c] + [d];
    FilterLinesOrder([a], [b], a);
    FilterLinesOrder([a] + [b], [c], a);
    FilterLinesOrder([a] + [b] + [c], [d], a);
  }

  lemma SplitThreeSpaces()
    ensures Split("a   b", Spaces2) == ["a", " b"]
  {
    assert "a" + Spaces2[..|Spaces2| - 1] == "a ";
    ContainsSameLength("a ", Spaces2);
    ContainsSameLength(" b", Spaces2);
    assert Join(["a", " b"], Spaces2) == "a   b";
    SplitUnique(["a", " b"], "a   b", Spaces2);
  }

  lemma TokensOfThreeSpaces()
    ensures Tokens(["a", " b"]) == ["a", "b"]
  {
    StripUnique("a", "a", 0);
    StripUnique(" b", "b", 1);
    assert ["a", " b"][1..] == [" b"];
    assert [" b"][1..] == [];
  }

  /** Three spaces split as two then one: `"a   b"` gives the pieces `"a"`
      and `" b"`, hence the fields `a` and `b`. */
  lemma DoubleSpaceRunExample()
    ensures ParseLine("a   b") == Some(Tokenized(["a", "b"]))
  {
    ContainsChar("a   b", '|');
    assert OccursAt("a   b", Spaces2, 1);
    DoubleSpaceSplit("a   b");
    SplitThreeSpaces();
    TokensOfThreeSpaces();
  }

  lemma SplitPipeRow()
    ensures Split("A|B|C\n", Pipe) == ["A", "B", "C\n"]
  {
    assert Pipe == ['|'];
    ContainsChar("A", '|');
    ContainsChar("B", '|');
    ContainsChar("C\n", '|');
    assert "A" + Pipe[..0] == "A" && "B" + Pipe[..0] == "B";
    assert Join(["A", "B", "C\n"], Pipe) == "A|B|C\n" by {
      assert ["A", "B", "C\n"][1..] == ["B", "C\n"];
      assert ["B", "C\n"][1..] == ["C\n"];
    }
    SplitUnique(["A", "B", "C\n"], "A|B|C\n", Pipe);
  }

  /** A single non-blank character strips to itself. */
  lemma StripChar(c: char)
    requires !IsSpace(c)
    ensures Strip([c]) == [c]
  {
    StripUnique([c], [c], 0);
  }

  /** A non-blank character followed by a newline strips to the character. */
  lemma StripCharNewline(c: char)
    requires !IsSpace(c)
    ensures Strip([c, '\n']) == [c]
  {
    assert [c, '\n'][0..1] == [c];
    StripUnique([c, '\n'], [c], 0);
  }

  /** Pieces of one non-blank character each, the last with a newline,
      give those characters as fields. */
  lemma TokensOfPipeRow(x: char, y: char, z: char)
    requires !IsSpace(x) && !IsSpace(y) && !IsSpace(z)
    ensures Tokens([[x], [y], [z, '\n']]) == [[x], [y], [z]]
  {
    StripChar(x);
    StripChar(y);
    StripCharNewline(z);
    TokensSingle([x]);
    TokensSingle([y]);
    TokensSingle([z, '\n']);
    TokensAppend([[x]], [[y]]);
    TokensAppend([[x]] + [[y]], [[z, '\n']]);
    assert [[x], [y], [z, '\n']] == [[x]] + [[y]] + [[z, '\n']];
  }

  /** `"A|B|C\n"` gives the fields `A`, `B` and `C`. */
  lemma PipeRowExample()
    ensures ParseLine("A|B|C\n") == Some(Tokenized(["A", "B", "C"]))
  {
    PipeRowIsSplit();
    SplitPipeRow();
    PipeRowTokens();
  }

  lemma PipeRowIsSplit()
    ensures ParseLine("A|B|C\n") == Some(RowOf("A|B|C\n", Tokens(Split("A|B|C\n", Pipe))))
  {
    assert OccursAt("A|B|C\n", Pipe, 1);
    PipeTakesPriority("A|B|C\n");
  }

  lemma PipeRowTokens()
    ensures Tokens(["A", "B", "C\n"]) == ["A", "B", "C"]
  {
    TokensOfPipeRow('A', 'B', 'C');
    assert ["A", "B", "C\n"] == [['A'], ['B'], ['C', '\n']];
    assert ["A", "B", "C"] == [['A'], ['B'], ['C']];
  }



  /** A line without either delimiter is kept whole, newline included. */
  lemma NoDelimiterExample()
    ensures ParseLine("bal200dr\n") == Some(Raw("bal200dr\n"))
  {
    var s := "bal200dr\n";
    assert Pipe == ['|'];
    ContainsChar(s, '|');
    if Contains(s, Spaces2) {
      ContainsFirstChar(s, Spaces2);
    }
    NoDelimiterIsRaw(s);
  }

  /** A whitespace-only line is kept whole, though it holds two spaces. */
  lemma BlankLineExample()
    ensures ParseLine("  \n") == Some(Raw("  \n"))
  {
    assert AllSpace("  \n");
    BlankLineIsRaw("  \n");
  }

  lemma BannerDropped()
    ensures FilterLines(["----banner----\n"]) == []
  {
    assert StartsWith("----banner----\n", Banner);
    FilterLinesOrder([], [], "----banner----\n");
  }

  /** A line whose first character is not a dash is kept. */
  lemma UndashedLineKept(line: string)
    requires line != "" && line[0] != '-'
    ensures FilterLines([line]) == [line]
  {
    assert !StartsWith(line, Banner) by {
      if |Banner| <= |line| {
        assert line[..|Banner|][0] == line[0];
      }
    }
    FilterLinesOrder([], [], line);
  }

  /** The banner is the only line of the report that the filter drops. */
  lemma ReportFilterExample()
    ensures FilterLines(["----banner----\n", "A|B|C\n", "  \n", "bal200dr\n"]) ==
      ["A|B|C\n", "  \n", "bal200dr\n"]
  {
    BannerDropped();
    UndashedLineKept("A|B|C\n");
    UndashedLineKept("  \n");
    UndashedLineKept("bal200dr\n");
    FilterLinesOfFour("----banner----\n", "A|B|C\n", "  \n", "bal200dr\n");
  }

  /** Every kept line of the report yields one row, the whitespace-only one
      included. */
  lemma ReportRowsExample()
    ensures ParseAll(["A|B|C\n", "  \n", "bal200dr\n"]) ==
      [Tokenized(["A", "B", "C"]), Raw("  \n"), Raw("bal200dr\n")]
  {
    PipeRowExample();
    BlankLineExample();
    NoDelimiterExample();
    RowsOfParsedLine("A|B|C\n", Tokenized(["A", "B", "C"]));
    RowsOfParsedLine("  \n", Raw("  \n"));
    RowsOfParsedLine("bal200dr\n", Raw("bal200dr\n"));
    ParseAllOfThreeRows("A|B|C\n", "  \n", "bal200dr\n",
      Tokenized(["A", "B", "C"]), Raw("  \n"), Raw("bal200dr\n"));
  }

  lemma RowsOfParsedLine(line: string, row: Row)
    requires ParseLine(line) == Some(row)
    ensures RowsOfLine(line) == [row]
  {
  }

  /** Three lines that each yield one row give those rows, in order. */
  lemma ParseAllOfThreeRows(a: string, b: string, c: string, ra: Row, rb: Row, rc: Row)
    requires RowsOfLine(a) == [ra] && RowsOfLine(b) == [rb] && RowsOfLine(c) == [rc]
    ensures ParseAll([a, b, c]) == [ra, rb, rc]
  {
    var lines, rows := [a, b, c], [ra, rb, rc];
    forall k | 0 <= k < 3
      ensures RowsOfLine(lines[k]) == [rows[k]]
    {
      if k == 0 {
        assert lines[k] == a && rows[k] == ra;
      } else if k == 1 {
        assert lines[k] == b && rows[k] == rb;
      } else {
        assert lines[k] == c && rows[k] == rc;
      }
    }
    ParseAllOfRows(lines, rows);
  }

  /** Lines that each yield one given row yield exactly those rows. */
  lemma {:induction false} ParseAllOfRows(lines: seq<string>, rows: seq<Row>)
    requires |lines| == |rows|
    requires forall k :: 0 <= k < |lines| ==> RowsOfLine(lines[k]) == [rows[k]]
    ensures ParseAll(lines) == rows
    decreases |lines|
  {
    if lines != [] {
      var n := |lines| - 1;
      ParseAllOfRows(lines[..n], rows[..n]);
      ParseAllSnocRow(lines, rows[..n], rows[n]);
      LastSplit(rows);
    }
  }

  lemma ParseAllSnocRow(lines: seq<string>, init: seq<Row>, row: Row)
    requires lines != [] && ParseAll(lines[..|lines| - 1]) == init
    requires RowsOfLine(lines[|lines| - 1]) == [row]
    ensures ParseAll(lines) == init + [row]
  {
  }

  /** The file test ignores case and needs no dot. */
  lemma ReportFileExamples()
    ensures IsReportFile("report.RPT")
    ensures IsReportFile("xrpt")
    ensures !IsReportFile("report.doc")
  {
    IsReportFileCaseInsensitive("report.RPT");
    IsReportFileCaseInsensitive("xrpt");
    IsReportFileCaseInsensitive("report.doc");
  }

  /** `bar.rpt` becomes `bar.csv` under any output directory. */
  lemma OutputFileOfBar(c: Converter)
    ensures OutputFile(c, "bar.rpt") == c.outputDir + "/bar.csv"
  {
    StemOfBar();
  }

  /** The stem of `bar.rpt` is `bar`. */
  lemma StemOfBar()
    ensures SplitExt("bar.rpt").0 == "bar"
  {
    var base, ext := "bar", "rpt";
    assert base[|base| - 1] == 'r';
    assert |ext| == 3 && ext[0] == 'r' && ext[1] == 'p' && ext[2] == 't';
    SplitExtOfSimpleName(base, ext);
    assert base + "." + ext == "bar.rpt";
  }

  /** With no output directory given, `bar.rpt` becomes
      `./rpt2csvFiles/bar.csv`. */
  lemma OutputFileDefaultExample()
    ensures OutputFile(NewConverter("reports", None), "bar.rpt") == "./rpt2csvFiles/bar.csv"
  {
    var c := NewConverter("reports", None);
    assert c.outputDir == "./rpt2csvFiles";
    OutputFileOfBar(c);
  }

  /** An empty output directory counts as none. */
  lemma EmptyOutputDirExample()
    ensures NewConverter("reports", Some("")).outputDir == "./rpt2csvFiles"
  {
  }

  /** The only dot of `.rpt` leads the name, so it starts no extension. */
  lemma HiddenNameHasNoExtension()
    ensures forall j :: !ExtensionDot(".rpt", j)
  {
    forall j | 0 <= j < 4 && ".rpt"[j] == '.'
      ensures j == 0
    {
    }
  }

  /** A hidden file `.rpt` has no extension to drop. */
  lemma OutputFileHiddenExample()
    ensures OutputFile(NewConverter("reports", Some("out")), ".rpt") == "out/.rpt.csv"
  {
    HiddenNameHasNoExtension();
    OutputFileWithoutExtension(Converter("reports", "out"), ".rpt");
  }
  /** A dotless report name such as `xrpt` keeps its whole name. */
  lemma OutputFileDotlessExample(c: Converter)
    ensures OutputFile(c, "xrpt") == c.outputDir + "/xrpt.csv"
  {
    assert forall k :: 0 <= k < 4 ==> "xrpt"[k] in {'x', 'r', 'p', 't'};
    SplitExtOfDotless("xrpt");
  }
}
