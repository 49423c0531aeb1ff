/**
 * The hand-maintained redirect table: a Markdown file whose table rows
 * `| source | target |` are read, line by line, into lists of cells. A row is
 * kept when its second cell looks like a target (`https...` or `/...`); the
 * header and the `---` separator row are dropped by the same test.
 */
module RedirectTable {
  import opened Wrappers
  import opened Text

  /** A line that `trim` leaves empty. */
  predicate Blank(line: string)
  {
    Trim(line) == ""
  }

  /** The lines of the file that are not blank, in file order. */
  function NonBlank(lines: seq<string>): seq<string>
  {
    if lines == [] then []
    else if Blank(lines[0]) then NonBlank(lines[1..])
    else [lines[0]] + NonBlank(lines[1..])
  }

  /** The non-blank lines are exactly the lines that are not blank. */
  lemma {:induction false} NonBlankMembers(lines: seq<string>)
    ensures forall l :: l in NonBlank(lines) <==> l in lines && !Blank(l)
  {
    if lines != [] {
      NonBlankMembers(lines[1..]);
      assert lines == [lines[0]] + lines[1..];
    }
  }

  /** The trimmed pieces that are not empty, in order. */
  function TrimmedCells(parts: seq<string>): seq<string>
  {
    if parts == [] then []
    else
      var t := Trim(parts[0]);
      (if t == "" then [] else [t]) + TrimmedCells(parts[1..])
  }

  /** The cells are exactly the non-empty trimmed pieces. */
  lemma {:induction false} TrimmedCellsMembers(parts: seq<string>)
    ensures forall c :: c in TrimmedCells(parts) <==> c != "" && c in TrimAll(parts)
  {
    if parts != [] {
      TrimmedCellsMembers(parts[1..]);
      assert TrimAll(parts) == [Trim(parts[0])] + TrimAll(parts[1..]);
    }
  }

  /** Every piece trimmed. */
  function TrimAll(parts: seq<string>): (r: seq<string>)
    ensures |r| == |parts|
    ensures forall j :: 0 <= j < |parts| ==> r[j] == Trim(parts[j])
  {
    seq(|parts|, j requires 0 <= j < |parts| => Trim(parts[j]))
  }

  /** The cells of a line: split on `|`, trimmed, empty ones dropped. */
  function Cells(line: string): seq<string>
  {
    TrimmedCells(Split(line, '|'))
  }

  /** A cell as a row holds it: not empty, trimmed, without a `|`. */
  predicate CleanCell(c: string)
  {
    c != "" && Trim(c) == c && '|' !in c
  }

  /** Every cell of a line is clean. */
  lemma CellsAreClean(line: string)
    ensures forall i :: 0 <= i < |Cells(line)| ==> CleanCell(Cells(line)[i])
  {
    var parts := Split(line, '|');
    var cells := Cells(line);
    TrimmedCellsMembers(parts);
    forall i | 0 <= i < |cells| ensures CleanCell(cells[i]) {
      var c := cells[i];
      assert c in TrimAll(parts);
      var j :| 0 <= j < |parts| && TrimAll(parts)[j] == c;
      assert c == Trim(parts[j]);
      assert '|' !in parts[j];
    }
  }

  /** A Markdown table row written without padding: `|a|b|`. */
  function Row(cells: seq<string>): string
  {
    "|" + RowTail(cells)
  }

  /** Each cell followed by its closing `|`. */
  function RowTail(cells: seq<string>): string
  {
    if cells == [] then "" else cells[0] + "|" + RowTail(cells[1..])
  }

  lemma {:induction false} SplitRowTail(cells: seq<string>)
    requires forall i :: 0 <= i < |cells| ==> '|' !in cells[i]
    ensures Split(RowTail(cells), '|') == cells + [""]
  {
    if cells != [] {
      SplitRowTail(cells[1..]);
      SplitPrefix(cells[0], '|', RowTail(cells[1..]));
      assert [cells[0]] + cells[1..] == cells;
    }
  }

  lemma {:induction false} TrimmedCellsAppend(a: seq<string>, b: seq<string>)
    ensures TrimmedCells(a + b) == TrimmedCells(a) + TrimmedCells(b)
  {
    if a != [] {
      var t := Trim(a[0]);
      assert (a + b)[1..] == a[1..] + b;
      assert (a + b)[0] == a[0];
      assert TrimmedCells(a + b) == (if t == "" then [] else [t]) + TrimmedCells(a[1..] + b);
      TrimmedCellsAppend(a[1..], b);
    } else {
      assert a + b == b;
    }
  }

  lemma {:induction false} TrimmedCellsOfClean(cells: seq<string>)
    requires forall i :: 0 <= i < |cells| ==> CleanCell(cells[i])
    ensures TrimmedCells(cells) == cells
  {
    if cells != [] {
      TrimmedCellsOfClean(cells[1..]);
      assert [cells[0]] + cells[1..] == cells;
    }
  }

  /** Reading the cells of a written row gives back the clean cells it was written from. */
  lemma RowRoundTrip(cells: seq<string>)
    requires forall i :: 0 <= i < |cells| ==> CleanCell(cells[i])
    ensures Cells(Row(cells)) == cells
  {
    SplitRowTail(cells);
    assert Split(Row(cells), '|') == [""] + (cells + [""]) by {
      SplitPrefix("", '|', RowTail(cells));
      assert Row(cells) == "" + ['|'] + RowTail(cells);
    }
    assert TrimmedCells([""]) == [];
    TrimmedCellsAppend([""], cells + [""]);
    TrimmedCellsAppend(cells, [""]);
    TrimmedCellsOfClean(cells);
  }

  /** A row of a written table holds no line break. */
  lemma RowIsOneLine(cells: seq<string>)
    requires forall i :: 0 <= i < |cells| ==> CleanCell(cells[i]) && '\n' !in cells[i]
    ensures '\n' !in Row(cells)
  {
    RowTailIsOneLine(cells);
  }

  lemma {:induction false} RowTailIsOneLine(cells: seq<string>)
    requires forall i :: 0 <= i < |cells| ==> '\n' !in cells[i]
    ensures '\n' !in RowTail(cells)
  {
    if cells != [] {
      RowTailIsOneLine(cells[1..]);
    }
  }

  /**
   * The row test exactly as written: `&&` binds tighter than `||`, so the
   * cell count is only checked on the `https` side.
   */
  predicate Keep(parts: seq<string>)
    requires |parts| >= 2
  {
    (|parts| == 2 && StartsWith(parts[1], "https")) || StartsWith(parts[1], "/")
  }

  /**
   * A row with fewer than two cells has no `parts[1]`; reading `startsWith`
   * from `undefined` throws a TypeError, which ends the whole load. The error
   * holds the cells of the row that threw.
   */
  datatype ParseError = SecondCellUndefined(row: seq<string>)

  /** The cells of every line, in order. */
  function MapCells(lines: seq<string>): seq<seq<string>>
  {
    if lines == [] then [] else [Cells(lines[0])] + MapCells(lines[1..])
  }

  /** Row `i` holds the cells of line `i`. */
  lemma {:induction false} MapCellsAt(lines: seq<string>)
    ensures |MapCells(lines)| == |lines|
    ensures forall i :: 0 <= i < |lines| ==> MapCells(lines)[i] == Cells(lines[i])
  {
    if lines != [] {
      MapCellsAt(lines[1..]);
      var rows := MapCells(lines);
      assert rows == [Cells(lines[0])] + MapCells(lines[1..]);
      forall i | 0 <= i < |lines| ensures rows[i] == Cells(lines[i]) {
        if i > 0 {
          assert rows[i] == MapCells(lines[1..])[i - 1];
          assert lines[i] == lines[1..][i - 1];
        }
      }
    }
  }

  /** The row filter over the rows of cells, stopping at the first row that throws. */
  function KeepRows(rows: seq<seq<string>>): Result<seq<seq<string>>, ParseError>
  {
    if rows == [] then Success([])
    else if |rows[0]| < 2 then Failure(SecondCellUndefined(rows[0]))
    else
      match KeepRows(rows[1..])
      case Failure(e) => Failure(e)
      case Success(kept) => Success(if Keep(rows[0]) then [rows[0]] + kept else kept)
  }

  /** The table read from the file's text. */
  function ParseRedirectTable(content: string): Result<seq<seq<string>>, ParseError>
  {
    KeepRows(MapCells(NonBlank(Split(content, '\n'))))
  }

  /** The result of reading two parts one after the other: the first failure wins. */
  function Then(a: Result<seq<seq<string>>, ParseError>, b: Result<seq<seq<string>>, ParseError>):
    (r: Result<seq<seq<string>>, ParseError>)
    ensures r.Success? <==> a.Success? && b.Success?
    ensures a.Failure? ==> r == a
    ensures r.Success? ==> r.value == a.value + b.value
  {
    match a
    case Failure(e) => Failure(e)
    case Success(ra) =>
      match b
      case Failure(e) => Failure(e)
      case Success(rb) => Success(ra + rb)
  }

  lemma {:induction false} NonBlankAppend(a: seq<string>, b: seq<string>)
    ensures NonBlank(a + b) == NonBlank(a) + NonBlank(b)
  {
    if a != [] {
      assert (a + b)[1..] == a[1..] + b;
      NonBlankAppend(a[1..], b);
      assert (a + b)[0] == a[0];
      if !Blank(a[0]) {
        assert NonBlank(a + b) == [a[0]] + NonBlank(a[1..] + b);
      }
    } else {
      assert a + b == b;
    }
  }

  lemma {:induction false} MapCellsAppend(a: seq<string>, b: seq<string>)
    ensures MapCells(a + b) == MapCells(a) + MapCells(b)
  {
    if a != [] {
      assert (a + b)[1..] == a[1..] + b;
      MapCellsAppend(a[1..], b);
      assert (a + b)[0] == a[0];
    } else {
      assert a + b == b;
    }
  }

  lemma {:induction false} KeepRowsAppend(a: seq<seq<string>>, b: seq<seq<string>>)
    ensures KeepRows(a + b) == Then(KeepRows(a), KeepRows(b))
  {
    if a != [] {
      assert (a + b)[1..] == a[1..] + b;
      KeepRowsAppend(a[1..], b);
      assert (a + b)[0] == a[0];
      if |a[0]| >= 2 && KeepRows(a[1..]).Success? && KeepRows(b).Success? {
        var ka, kb := KeepRows(a[1..]).value, KeepRows(b).value;
        assert [a[0]] + ka + kb == [a[0]] + (ka + kb);
      }
    } else {
      assert a + b == b;
      if KeepRows(b).Success? {
        assert [] + KeepRows(b).value == KeepRows(b).value;
      }
    }
  }

  /**
   * Reading two texts joined by a line break reads the first, then the
   * second: rows keep file order, and the first line that throws decides
   * the error.
   */
  lemma ParseConcat(a: string, b: string)
    ensures ParseRedirectTable(a + "\n" + b) == Then(ParseRedirectTable(a), ParseRedirectTable(b))
  {
    var la, lb := Split(a, '\n'), Split(b, '\n');
    SplitAround(a, '\n', b);
    NonBlankAppend(la, lb);
    MapCellsAppend(NonBlank(la), NonBlank(lb));
    KeepRowsAppend(MapCells(NonBlank(la)), MapCells(NonBlank(lb)));
  }

  /** What a single row contributes to the filter. */
  lemma KeepRowsOne(row: seq<string>)
    ensures |row| < 2 ==> KeepRows([row]) == Failure(SecondCellUndefined(row))
    ensures |row| >= 2 && Keep(row) ==> KeepRows([row]) == Success([row])
    ensures |row| >= 2 && !Keep(row) ==> KeepRows([row]) == Success([])
  {
    assert [row][1..] == [];
    assert [row] + [] == [row];
  }

  /** What one line contributes: nothing when blank, an error without two cells, else its row when the test keeps it. */
  lemma ParseLine(line: string)
    requires '\n' !in line
    ensures Blank(line) ==> ParseRedirectTable(line) == Success([])
    ensures !Blank(line) && |Cells(line)| < 2 ==>
      ParseRedirectTable(line) == Failure(SecondCellUndefined(Cells(line)))
    ensures !Blank(line) && |Cells(line)| >= 2 && Keep(Cells(line)) ==>
      ParseRedirectTable(line) == Success([Cells(line)])
    ensures !Blank(line) && |Cells(line)| >= 2 && !Keep(Cells(line)) ==>
      ParseRedirectTable(line) == Success([])
  {
    assert Split(line, '\n') == [line] by {
      SplitNoSeparator(line, '\n');
    }
    assert [line][1..] == [];
    if Blank(line) {
      assert NonBlank([line]) == [];
    } else {
      assert NonBlank([line]) == [line];
      assert ParseRedirectTable(line) == KeepRows([Cells(line)]) by {
        assert MapCells([line]) == [Cells(line)] + MapCells([]) == [Cells(line)];
      }
      KeepRowsOne(Cells(line));
    }
  }

  /** A blank line between two parts of the file changes nothing. */
  lemma BlankLinesIgnored(a: string, blank: string, b: string)
    requires '\n' !in blank && Blank(blank)
    ensures ParseRedirectTable(a + "\n" + blank + "\n" + b) == ParseRedirectTable(a + "\n" + b)
  {
    var r := ParseRedirectTable(blank + "\n" + b);
    assert a + "\n" + blank + "\n" + b == a + "\n" + (blank + "\n" + b);
    assert r == ParseRedirectTable(b) by {
      ParseConcat(blank, b);
      ParseLine(blank);
      if ParseRedirectTable(b).Success? {
        assert [] + ParseRedirectTable(b).value == ParseRedirectTable(b).value;
      }
    }
    ParseConcat(a, blank + "\n" + b);
    ParseConcat(a, b);
  }

  /** Row `i` is the first row with fewer than two cells. */
  predicate FirstShortRow(rows: seq<seq<string>>, i: int)
  {
    0 <= i < |rows| && |rows[i]| < 2 && forall j :: 0 <= j < i ==> |rows[j]| >= 2
  }

  /**
   * The filter fails exactly when some row has fewer than two cells, and
   * then with the first such row.
   */
  lemma {:induction false} KeepRowsFails(rows: seq<seq<string>>)
    ensures KeepRows(rows).Failure? <==> exists i :: 0 <= i < |rows| && |rows[i]| < 2
    ensures KeepRows(rows).Failure? ==>
      exists i :: FirstShortRow(rows, i) && KeepRows(rows).error == SecondCellUndefined(rows[i])
  {
    if rows != [] {
      KeepRowsFails(rows[1..]);
      assert forall i :: 1 <= i < |rows| ==> rows[i] == rows[1..][i - 1];
      if |rows[0]| < 2 {
        assert FirstShortRow(rows, 0);
      } else if KeepRows(rows[1..]).Failure? {
        var i :| FirstShortRow(rows[1..], i)
          && KeepRows(rows[1..]).error == SecondCellUndefined(rows[1..][i]);
        assert forall j :: 0 <= j < i + 1 ==> |rows[j]| >= 2 by {
          forall j | 0 <= j < i + 1 ensures |rows[j]| >= 2 {
            if j > 0 {
              assert rows[j] == rows[1..][j - 1];
            }
          }
        }
        assert FirstShortRow(rows, i + 1);
      }
    }
  }

  /** A non-blank line with fewer than two cells gives a short row. */
  lemma ShortLineGivesShortRow(lines: seq<string>, l: string)
    requires l in lines && !Blank(l) && |Cells(l)| < 2
    ensures exists i :: 0 <= i < |MapCells(NonBlank(lines))| && |MapCells(NonBlank(lines))[i]| < 2
  {
    var kept := NonBlank(lines);
    assert l in kept by {
      NonBlankMembers(lines);
    }
    var i :| 0 <= i < |kept| && kept[i] == l;
    MapCellsAt(kept);
    assert |MapCells(kept)[i]| < 2;
  }

  /** A short row comes from a non-blank line with fewer than two cells. */
  lemma ShortRowFromShortLine(lines: seq<string>, i: int)
    requires 0 <= i < |MapCells(NonBlank(lines))| && |MapCells(NonBlank(lines))[i]| < 2
    ensures exists l :: l in lines && !Blank(l) && |Cells(l)| < 2
  {
    var kept := NonBlank(lines);
    MapCellsAt(kept);
    NonBlankMembers(lines);
    assert kept[i] in kept;
    assert kept[i] in lines && !Blank(kept[i]) && |Cells(kept[i])| < 2;
  }

  /** Reading fails exactly when some non-blank line has fewer than two cells. */
  lemma ParseFailsExactlyOnShortRow(content: string)
    ensures ParseRedirectTable(content).Failure? <==>
      exists l :: l in Split(content, '\n') && !Blank(l) && |Cells(l)| < 2
  {
    var lines := Split(content, '\n');
    var rows := MapCells(NonBlank(lines));
    KeepRowsFails(rows);
    if exists l :: l in lines && !Blank(l) && |Cells(l)| < 2 {
      var l :| l in lines && !Blank(l) && |Cells(l)| < 2;
      ShortLineGivesShortRow(lines, l);
    }
    if exists i :: 0 <= i < |rows| && |rows[i]| < 2 {
      var i :| 0 <= i < |rows| && |rows[i]| < 2;
      ShortRowFromShortLine(lines, i);
    }
  }

  /**
   * A failed read reports the first row, in line order, with fewer than two
   * cells; row `i` is the cells of the `i`-th non-blank line.
   */
  lemma ParseErrorIsFirstShortRow(content: string)
    requires ParseRedirectTable(content).Failure?
    ensures exists i :: (FirstShortRow(MapCells(NonBlank(Split(content, '\n'))), i)
      && ParseRedirectTable(content).error == SecondCellUndefined(MapCells(NonBlank(Split(content, '\n')))[i]))
  {
    KeepRowsFails(MapCells(NonBlank(Split(content, '\n'))));
  }

  /**
   * A successful filter keeps exactly the rows that pass the test, each of
   * them with at least two cells.
   */
  lemma {:induction false} KeepRowsRows(rows: seq<seq<string>>)
    requires KeepRows(rows).Success?
    ensures forall r :: r in KeepRows(rows).value ==> r in rows && |r| >= 2 && Keep(r)
    ensures forall i :: 0 <= i < |rows| ==> |rows[i]| >= 2
    ensures forall i :: 0 <= i < |rows| && Keep(rows[i]) ==> rows[i] in KeepRows(rows).value
  {
    if rows != [] {
      KeepRowsRows(rows[1..]);
      assert forall i :: 1 <= i < |rows| ==> rows[i] == rows[1..][i - 1];
    }
  }

  /**
   * Every row of a successful read passes the row test, has clean cells and
   * is the cells of a non-blank line of the file.
   */
  lemma ParsedRowsComeFromLines(content: string)
    requires ParseRedirectTable(content).Success?
    ensures forall r :: r in ParseRedirectTable(content).value ==>
      |r| >= 2 && Keep(r) && (forall k :: 0 <= k < |r| ==> CleanCell(r[k]))
      && exists l :: l in Split(content, '\n') && !Blank(l) && r == Cells(l)
  {
    var lines := Split(content, '\n');
    var kept := NonBlank(lines);
    var rows := MapCells(kept);
    assert forall r :: r in KeepRows(rows).value ==> r in rows && |r| >= 2 && Keep(r) by {
      KeepRowsRows(rows);
    }
    forall r | r in KeepRows(rows).value
      ensures (forall k :: 0 <= k < |r| ==> CleanCell(r[k]))
      ensures exists l :: l in lines && !Blank(l) && r == Cells(l)
    {
      var i :| 0 <= i < |rows| && rows[i] == r;
      MapCellsAt(kept);
      NonBlankMembers(lines);
      CellsAreClean(kept[i]);
      assert kept[i] in lines && !Blank(kept[i]) && r == Cells(kept[i]);
    }
  }

  /**
   * In a successful read every non-blank line has at least two cells, and
   * each one whose cells pass the row test gives a row.
   */
  lemma EveryTargetLineRead(content: string)
    requires ParseRedirectTable(content).Success?
    ensures forall l :: l in Split(content, '\n') && !Blank(l) ==>
      |Cells(l)| >= 2 && (Keep(Cells(l)) ==> Cells(l) in ParseRedirectTable(content).value)
  {
    var lines := Split(content, '\n');
    var kept := NonBlank(lines);
    var rows := MapCells(kept);
    KeepRowsRows(rows);
    NonBlankMembers(lines);
    MapCellsAt(kept);
    forall l | l in lines && !Blank(l)
      ensures |Cells(l)| >= 2 && (Keep(Cells(l)) ==> Cells(l) in KeepRows(rows).value)
    {
      var k :| 0 <= k < |kept| && kept[k] == l;
      assert rows[k] == Cells(l);
    }
  }

  /** A row whose target is a site path or an `https` URL is read as its pair. */
  lemma PairRowKept(source: string, target: string)
    requires CleanCell(source) && CleanCell(target)
    requires '\n' !in source && '\n' !in target
    requires StartsWith(target, "https") || StartsWith(target, "/")
    ensures ParseRedirectTable(Row([source, target])) == Success([[source, target]])
  {
    RowRoundTrip([source, target]);
    RowIsOneLine([source, target]);
    assert !Blank(Row([source, target])) by {
      assert Row([source, target])[1] == source[0];
    }
    ParseLine(Row([source, target]));
  }

  /** A row whose target is neither a site path nor an `https` URL is read as nothing. */
  lemma NonTargetRowDropped(source: string, target: string)
    requires CleanCell(source) && CleanCell(target)
    requires '\n' !in source && '\n' !in target
    requires !StartsWith(target, "https") && !StartsWith(target, "/")
    ensures ParseRedirectTable(Row([source, target])) == Success([])
  {
    OneLineRowReadsAs([source, target]);
    ParseLine(Row([source, target]));
  }

  /** The header row of the table is read as nothing. */
  lemma HeaderRowDropped()
    ensures ParseRedirectTable(Row(["Source", "Target"])) == Success([])
  {
    HeaderCellsClean();
    assert !StartsWith("Target", "https") by {
      assert "Target"[0] != "https"[0];
    }
    NonTargetRowDropped("Source", "Target");
  }

  lemma HeaderCellsClean()
    ensures CleanCell("Source") && CleanCell("Target")
    ensures '\n' !in "Source" && '\n' !in "Target"
  {
    LiteralCellClean("Source");
    LiteralCellClean("Target");
  }

  /** A cell of letters and dashes is clean. */
  lemma LiteralCellClean(c: string)
    requires c != [] && forall i :: 0 <= i < |c| ==> 'A' <= c[i] <= 'z' || c[i] == '-'
    ensures CleanCell(c) && '\n' !in c
  {
    assert !IsWhiteSpace(c[0]) && !IsWhiteSpace(c[|c| - 1]);
  }

  /** The separator row of the table is read as nothing. */
  lemma SeparatorRowDropped()
    ensures ParseRedirectTable(Row(["---", "---"])) == Success([])
  {
    LiteralCellClean("---");
    NonTargetRowDropped("---", "---");
  }

  /** A written row with at least one clean cell is one non-blank line with those cells. */
  lemma OneLineRowReadsAs(cells: seq<string>)
    requires |cells| > 0
    requires forall i :: 0 <= i < |cells| ==> CleanCell(cells[i]) && '\n' !in cells[i]
    ensures '\n' !in Row(cells) && !Blank(Row(cells)) && Cells(Row(cells)) == cells
  {
    RowRoundTrip(cells);
    RowIsOneLine(cells);
    assert Row(cells)[1] == cells[0][0];
  }

  /**
   * The precedence of `&&` over `||`: a row with three cells is kept when its
   * second cell is a site path, but not when it is an `https` URL.
   */
  lemma ThreeCellRows(a: string, b: string, c: string)
    requires CleanCell(a) && CleanCell(b) && CleanCell(c)
    requires '\n' !in a && '\n' !in b && '\n' !in c
    ensures StartsWith(b, "/") ==> ParseRedirectTable(Row([a, b, c])) == Success([[a, b, c]])
    ensures !StartsWith(b, "/") ==> ParseRedirectTable(Row([a, b, c])) == Success([])
  {
    OneLineRowReadsAs([a, b, c]);
    ParseLine(Row([a, b, c]));
  }

  /** A line with a single cell, such as a Markdown heading, makes the whole read throw. */
  lemma SingleCellLineThrows(c: string)
    requires CleanCell(c) && '\n' !in c
    ensures ParseRedirectTable(Row([c])) == Failure(SecondCellUndefined([c]))
  {
    OneLineRowReadsAs([c]);
    ParseLine(Row([c]));
  }

  /** A line holding only a pipe has no cells at all and makes the whole read throw. */
  lemma PipeOnlyLineThrows()
    ensures ParseRedirectTable("|") == Failure(SecondCellUndefined([]))
  {
    RowRoundTrip([]);
    assert Row([]) == "|";
    assert !Blank("|") by {
      assert !IsWhiteSpace("|"[0]);
    }
    ParseLine("|");
  }

  /**
   * The row test the cell-count check is evidently meant to guard: exactly
   * two cells, and a second cell that is a site path or an `https` URL.
   */
  predicate IntendedKeep(row: seq<string>)
  {
    |row| == 2 && (StartsWith(row[1], "https") || StartsWith(row[1], "/"))
  }

  /** The rows the intended test keeps, in order; no row can make it throw. */
  function IntendedRows(rows: seq<seq<string>>): seq<seq<string>>
  {
    if rows == [] then []
    else (if IntendedKeep(rows[0]) then [rows[0]] else []) + IntendedRows(rows[1..])
  }

  /** The table read with the intended row test. */
  function IntendedTable(content: string): seq<seq<string>>
  {
    IntendedRows(MapCells(NonBlank(Split(content, '\n'))))
  }

  lemma {:induction false} IntendedRowsMembers(rows: seq<seq<string>>)
    ensures forall r :: r in IntendedRows(rows) <==> r in rows && IntendedKeep(r)
  {
    if rows != [] {
      IntendedRowsMembers(rows[1..]);
      assert rows == [rows[0]] + rows[1..];
    }
  }

  /**
   * The intended table holds exactly the two-cell rows of non-blank lines
   * whose target is a site path or an `https` URL.
   */
  lemma IntendedTableRowsArePairs(content: string)
    ensures forall r :: r in IntendedTable(content) ==>
      |r| == 2 && (StartsWith(r[1], "https") || StartsWith(r[1], "/"))
      && exists l :: l in Split(content, '\n') && !Blank(l) && r == Cells(l)
    ensures forall l :: l in Split(content, '\n') && !Blank(l) && IntendedKeep(Cells(l)) ==>
      Cells(l) in IntendedTable(content)
  {
    var lines := Split(content, '\n');
    var kept := NonBlank(lines);
    var rows := MapCells(kept);
    IntendedRowsMembers(rows);
    NonBlankMembers(lines);
    MapCellsAt(kept);
    forall r | r in IntendedRows(rows)
      ensures exists l :: l in lines && !Blank(l) && r == Cells(l)
    {
      var i :| 0 <= i < |rows| && rows[i] == r;
      assert kept[i] in kept;
    }
    forall l | l in lines && !Blank(l) && IntendedKeep(Cells(l))
      ensures Cells(l) in IntendedRows(rows)
    {
      var k :| 0 <= k < |kept| && kept[k] == l;
      assert rows[k] == Cells(l);
    }
  }

  lemma {:induction false} KeepRowsOfPairs(rows: seq<seq<string>>)
    requires forall i :: 0 <= i < |rows| ==> |rows[i]| == 2
    ensures KeepRows(rows) == Success(IntendedRows(rows))
  {
    if rows != [] {
      assert forall i :: 0 <= i < |rows[1..]| ==> rows[1..][i] == rows[i + 1];
      KeepRowsOfPairs(rows[1..]);
      assert [] + IntendedRows(rows[1..]) == IntendedRows(rows[1..]);
    }
  }

  /** On a file whose non-blank lines all have exactly two cells, the code as written and the intended test agree. */
  lemma IntendedAgreesOnPairTables(content: string)
    requires forall l :: l in Split(content, '\n') && !Blank(l) ==> |Cells(l)| == 2
    ensures ParseRedirectTable(content) == Success(IntendedTable(content))
  {
    var lines := Split(content, '\n');
    var kept := NonBlank(lines);
    NonBlankMembers(lines);
    MapCellsAt(kept);
    assert forall i :: 0 <= i < |kept| ==> kept[i] in kept;
    KeepRowsOfPairs(MapCells(kept));
  }

  /** The intended test drops the rows the code as written keeps or throws on. */
  lemma IntendedTableDropsOddRows(a: string, b: string, c: string)
    requires CleanCell(a) && CleanCell(b) && CleanCell(c)
    requires '\n' !in a && '\n' !in b && '\n' !in c
    ensures IntendedTable(Row([a, b, c])) == []
    ensures IntendedTable(Row([a])) == []
  {
    IntendedOneLine([a, b, c]);
    IntendedOneLine([a]);
  }

  lemma IntendedOneLine(cells: seq<string>)
    requires |cells| > 0
    requires forall i :: 0 <= i < |cells| ==> CleanCell(cells[i]) && '\n' !in cells[i]
    ensures IntendedTable(Row(cells)) == if IntendedKeep(cells) then [cells] else []
  {
    OneLineRowReadsAs(cells);
    var line := Row(cells);
    assert IntendedTable(line) == IntendedRows([cells]) by {
      assert Split(line, '\n') == [line] by {
        SplitNoSeparator(line, '\n');
      }
      assert [line][1..] == [];
      assert NonBlank([line]) == [line];
      assert MapCells([line]) == [cells] + MapCells([]) == [cells];
    }
    IntendedRowsOne(cells);
  }

  lemma IntendedRowsOne(row: seq<string>)
    ensures IntendedRows([row]) == if IntendedKeep(row) then [row] else []
  {
    assert [row][1..] == [];
    assert [row] + [] == [row];
  }
}
