/** The client's result files: rows padded to nine cells, and the merge of the
    per-test files into one, side by side. */
module CsvMerge {
  import opened Bytes

  const DELIMITER: char := ';'

  /** The cells of the header row, plus one. */
  const COL_MAX: nat := 9

  // ----- cells and lines -----

  /** The cells of a line. */
  function Cells(line: string): (cells: seq<string>)
    ensures cells != []
  {
    if line == [] then [[]]
    else if line[0] == DELIMITER then [[]] + Cells(line[1..])
    else
      var rest := Cells(line[1..]);
      [[line[0]] + rest[0]] + rest[1..]
  }

  function Semicolons(line: string): nat {
    if line == [] then 0 else (if line[0] == ';' then 1 else 0) + Semicolons(line[1..])
  }

  /** A line has one cell more than it has semicolons. */
  lemma {:induction false} CellsAreSeparated(line: string)
    ensures |Cells(line)| == Semicolons(line) + 1
    ensures Semicolons(line) == 0 ==> Cells(line) == [line]
  {
    if line != [] {
      CellsAreSeparated(line[1..]);
      assert line == [line[0]] + line[1..];
    }
  }

  function Join(cells: seq<string>): string
    requires cells != []
  {
    if |cells| == 1 then cells[0] else cells[0] + [DELIMITER] + Join(cells[1..])
  }

  /** The cells of two lines put end to end: the last cell of the one and the
      first of the other become one. */
  function Merge(ca: seq<string>, cb: seq<string>): seq<string>
    requires ca != [] && cb != []
  {
    ca[..|ca| - 1] + [ca[|ca| - 1] + cb[0]] + cb[1..]
  }

  lemma {:induction false} MergeAfterEmpty(ca: seq<string>, cb: seq<string>)
    requires ca != [] && cb != []
    ensures Merge([[]] + ca, cb) == [[]] + Merge(ca, cb)
  {}

  lemma {:induction false} MergeAfterChar(c: char, ca: seq<string>, cb: seq<string>)
    requires ca != [] && cb != []
    ensures Merge([[c] + ca[0]] + ca[1..], cb) == [[c] + Merge(ca, cb)[0]] + Merge(ca, cb)[1..]
  {
    var cs := [[c] + ca[0]] + ca[1..];
    if |ca| == 1 {
      Assoc([c], ca[0], cb[0]);
      assert cs == [[c] + ca[0]];
    } else {
      assert cs[|cs| - 1] == ca[|ca| - 1];
      assert cs[..|cs| - 1] == [[c] + ca[0]] + ca[..|ca| - 1][1..];
      assert Merge(ca, cb)[0] == ca[0];
      assert Merge(ca, cb)[1..] == ca[..|ca| - 1][1..] + [ca[|ca| - 1] + cb[0]] + cb[1..];
    }
  }

  lemma {:induction false} CellsOfConcat(a: string, b: string)
    ensures Cells(a + b) == Merge(Cells(a), Cells(b))
  {
    if a == [] {
      Unit(b);
      Unit(Cells(b)[0]);
      assert Merge([[]], Cells(b)) == [[] + Cells(b)[0]] + Cells(b)[1..];
    } else {
      assert (a + b)[0] == a[0] && (a + b)[1..] == a[1..] + b;
      CellsOfConcat(a[1..], b);
      if a[0] == DELIMITER {
        MergeAfterEmpty(Cells(a[1..]), Cells(b));
      } else {
        MergeAfterChar(a[0], Cells(a[1..]), Cells(b));
      }
    }
  }

  /** Nothing in the cell has a meaning in a CSV file, for the delimiter the
      client writes with or for the comma it reads with. */
  predicate Plain(cell: string) {
    forall k :: 0 <= k < |cell| ==> cell[k] !in [DELIMITER, ',', '"', '\r', '\n']
  }

  lemma {:induction false} CellsOfPlain(cell: string)
    requires Plain(cell)
    ensures Cells(cell) == [cell]
  {
    if cell != [] {
      CellsOfPlain(cell[1..]);
      assert [cell[0]] + cell[1..] == cell;
    }
  }

  /** What is written is read back, if no cell contains the delimiter. */
  lemma {:induction false} CellsOfJoin(cells: seq<string>)
    requires cells != [] && forall cell <- cells :: Plain(cell)
    ensures Cells(Join(cells)) == cells
  {
    CellsOfPlain(cells[0]);
    if |cells| > 1 {
      CellsOfJoin(cells[1..]);
      var tail := [DELIMITER] + Join(cells[1..]);
      assert tail[1..] == Join(cells[1..]);
      Assoc(cells[0], [DELIMITER], Join(cells[1..]));
      CellsOfConcat(cells[0], tail);
      Unit(cells[0]);
    }
  }

  // ----- save_tmp -----

  /** A line whose nine cells end with an empty one. */
  predicate NineCells(line: string) {
    |Cells(line)| == COL_MAX && Cells(line)[COL_MAX - 1] == ""
  }

  /** Extends a row with empty cells to the number of columns; a longer row
      stays as it is. */
  method PadRow(row: seq<string>) returns (padded: seq<string>)
    ensures row <= padded && |padded| == if |row| <= COL_MAX then COL_MAX else |row|
    ensures forall k :: |row| <= k < |padded| ==> padded[k] == ""
  {
    padded := row;
    while |padded| < COL_MAX
      invariant row <= padded && |padded| <= if |row| <= COL_MAX then COL_MAX else |row|
      invariant forall k :: |row| <= k < |padded| ==> padded[k] == ""
    {
      padded := padded + [""];
    }
  }

  /** A row without anything special in its cells. */
  ghost predicate PlainRow(row: seq<string>) {
    forall cell <- row :: Plain(cell)
  }

  /** The lines of a file that hold the rows, each padded; a line has nine
      cells of which the last is empty exactly when its row needs no more than
      the other eight. */
  ghost predicate Saved(rows: seq<seq<string>>, lines: seq<string>) {
    && |lines| == |rows|
    && forall r :: 0 <= r < |rows| && PlainRow(rows[r]) ==>
         && rows[r] <= Cells(lines[r]) && |Cells(lines[r])| == (if |rows[r]| < 9 then 9 else |rows[r]|)
         && (forall k :: |rows[r]| <= k < |Cells(lines[r])| ==> Cells(lines[r])[k] == "")
         && (NineCells(lines[r]) <==> |rows[r]| < COL_MAX || (|rows[r]| == COL_MAX && rows[r][COL_MAX - 1] == ""))
  }

  /** One file: every row padded and written as a line. What it says of a line
      does not depend on the other rows. */
  method SaveTmp(rows: seq<seq<string>>) returns (lines: seq<string>)
    ensures Saved(rows, lines)
  {
    lines := [];
    while |lines| < |rows|
      invariant |lines| <= |rows| && Saved(rows[..|lines|], lines)
    {
      var row := rows[|lines|];
      var padded := PadRow(row);
      if PlainRow(row) {
        CellsOfPadded(row, padded);
      }
      ghost var before := lines;
      lines := lines + [Join(padded)];
      assert rows[..|lines|] == rows[..|before|] + [row];
    }
    assert rows[..|lines|] == rows;
  }

  lemma {:induction false} CellsOfPadded(row: seq<string>, padded: seq<string>)
    requires PlainRow(row)
    requires row <= padded && |padded| == if |row| <= COL_MAX then COL_MAX else |row|
    requires forall k :: |row| <= k < |padded| ==> padded[k] == ""
    ensures Cells(Join(padded)) == padded
  {
    forall cell | cell in padded
      ensures Plain(cell)
    {
      var k :| 0 <= k < |padded| && padded[k] == cell;
      assert k < |row| ==> padded[k] == row[k] && row[k] in row;
    }
    CellsOfJoin(padded);
  }

  // ----- combine_tmp_file -----

  function Delimiters(n: nat): string {
    if n == 0 then [] else [DELIMITER] + Delimiters(n - 1)
  }

  lemma {:induction false} CellsOfDelimiters(n: nat)
    ensures |Cells(Delimiters(n))| == n + 1
    ensures forall k :: 0 <= k <= n ==> Cells(Delimiters(n))[k] == ""
  {
    if n > 0 {
      CellsOfDelimiters(n - 1);
    }
  }

  /** File j has a row r. */
  predicate Present<T>(files: seq<seq<T>>, j: nat, r: nat)
    requires j < |files|
  {
    r < |files[j]|
  }

  /** One of the first n files has a row r. */
  predicate Begun<T>(files: seq<seq<T>>, n: nat, r: nat)
    requires n <= |files|
  {
    n > 0 && (Present(files, n - 1, r) || Begun(files, n - 1, r))
  }

  /** Row r after the first n files. */
  function RowText(files: seq<seq<string>>, n: nat, r: nat): string
    requires n <= |files| && Begun(files, n, r)
  {
    if !Present(files, n - 1, r) then RowText(files, n - 1, r)
    else if Begun(files, n - 1, r) then RowText(files, n - 1, r) + files[n - 1][r]
    else Delimiters(8 * (n - 1)) + files[n - 1][r]
  }

  /** The number of rows after the first n files. */
  function Height(files: seq<seq<string>>, n: nat): nat
    requires n <= |files|
  {
    if n == 0 then 0
    else if |files[n - 1]| > Height(files, n - 1) then |files[n - 1]| else Height(files, n - 1)
  }

  lemma {:induction false} BegunBelowHeight(files: seq<seq<string>>, n: nat, r: nat)
    requires n <= |files|
    ensures Begun(files, n, r) <==> r < Height(files, n)
  {
    if n > 0 {
      BegunBelowHeight(files, n - 1, r);
    }
  }

  /** `text` is row r after the first n files. */
  predicate IsRow(files: seq<seq<string>>, n: nat, r: nat, text: string)
    requires n <= |files|
  {
    Begun(files, n, r) && text == RowText(files, n, r)
  }

  /** The merged rows while file n is being read, up to its line `num`. */
  ghost predicate Merged(fileData: seq<string>, files: seq<seq<string>>, n: nat, num: nat)
    requires n < |files|
  {
    && |fileData| == (if num > Height(files, n) then num else Height(files, n))
    && (forall r :: 0 <= r < |fileData| && r < num ==> IsRow(files, n + 1, r, fileData[r]))
    && (forall r :: num <= r < |fileData| ==> IsRow(files, n, r, fileData[r]))
  }

  /** What file n does to row r. */
  lemma {:induction false} RowTextStep(files: seq<seq<string>>, n: nat, r: nat)
    requires n < |files|
    ensures Begun(files, n + 1, r) <==> Present(files, n, r) || Begun(files, n, r)
    ensures Present(files, n, r) ==>
      RowText(files, n + 1, r) == (if Begun(files, n, r) then RowText(files, n, r) else Delimiters(8 * n)) + files[n][r]
    ensures !Present(files, n, r) && Begun(files, n, r) ==> RowText(files, n + 1, r) == RowText(files, n, r)
  {}

  lemma {:induction false} MergedStep(fileData: seq<string>, files: seq<seq<string>>, n: nat, num: nat)
    requires n < |files| && num < |files[n]| && Merged(fileData, files, n, num)
    ensures num <= |fileData|
    ensures num < |fileData| ==> Merged(fileData[num := fileData[num] + files[n][num]], files, n, num + 1)
    ensures num == |fileData| ==> Merged(fileData + [Delimiters(8 * n) + files[n][num]], files, n, num + 1)
  {
    RowTextStep(files, n, num);
    BegunBelowHeight(files, n, num);
  }

  lemma {:induction false} FileMerged(fileData: seq<string>, files: seq<seq<string>>, n: nat)
    requires n < |files| && Merged(fileData, files, n, |files[n]|)
    ensures |fileData| == Height(files, n + 1)
    ensures forall r :: 0 <= r < |fileData| ==> IsRow(files, n + 1, r, fileData[r])
  {
    forall r | 0 <= r < |fileData|
      ensures IsRow(files, n + 1, r, fileData[r])
    {
      RowTextStep(files, n, r);
    }
  }

  /** The merge: a row that is there already is extended at its end, a new one
      begins with as many delimiters as the earlier files have columns. */
  method Combine(files: seq<seq<string>>) returns (fileData: seq<string>)
    ensures |fileData| == Height(files, |files|)
    ensures forall r :: 0 <= r < |fileData| ==> IsRow(files, |files|, r, fileData[r])
  {
    fileData := [];
    var prependCol := 0;
    var filenum := 0;
    while filenum < |files|
      invariant filenum <= |files| && prependCol == 8 * filenum
      invariant |fileData| == Height(files, filenum)
      invariant forall r :: 0 <= r < |fileData| ==> IsRow(files, filenum, r, fileData[r])
    {
      var num := 0;
      while num < |files[filenum]|
        invariant num <= |files[filenum]|
        invariant Merged(fileData, files, filenum, num)
      {
        var row := files[filenum][num];
        MergedStep(fileData, files, filenum, num);
        if num < |fileData| {
          fileData := fileData[num := fileData[num] + row];
        } else {
          fileData := fileData + [Delimiters(prependCol) + row];
        }
        num := num + 1;
      }
      FileMerged(fileData, files, filenum);
      prependCol := prependCol + 8;
      filenum := filenum + 1;
    }
  }

  // ----- where the cells end up -----

  /** Every file that has row r has nine cells in it. */
  ghost predicate AllNineCells(files: seq<seq<string>>, r: nat) {
    forall j :: 0 <= j < |files| && r < |files[j]| ==> NineCells(files[j][r])
  }

  /** The column in which the cells of file j begin in row r. */
  function StartColumn<T>(files: seq<seq<T>>, j: nat, r: nat): nat
    requires j <= |files|
  {
    if j == 0 || !Begun(files, j, r) then 8 * j
    else if Present(files, j - 1, r) then StartColumn(files, j - 1, r) + 8
    else StartColumn(files, j - 1, r)
  }

  /** The text fills w columns and ends with an empty cell. */
  predicate Fills(text: string, w: nat) {
    |Cells(text)| == w + 1 && Cells(text)[w] == ""
  }

  /** Appending a line of nine cells to such a text fills eight more. */
  lemma {:induction false} AppendedCells(text: string, w: nat, line: string)
    requires NineCells(line) && Fills(text, w)
    ensures Fills(text + line, w + 8)
    ensures forall k :: 0 <= k < w ==> Cells(text + line)[k] == Cells(text)[k]
    ensures forall c :: 0 <= c < 8 ==> Cells(text + line)[w + c] == Cells(line)[c]
  {
    CellsOfConcat(text, line);
    Unit(Cells(line)[0]);
  }

  lemma {:induction false} CellKept(text: string, w: nat, line: string, k: nat)
    requires NineCells(line) && Fills(text, w) && k < w
    ensures k < |Cells(text + line)| && Cells(text + line)[k] == Cells(text)[k]
  {
    AppendedCells(text, w, line);
  }

  lemma {:induction false} CellAdded(text: string, w: nat, line: string, c: nat)
    requires NineCells(line) && Fills(text, w) && c < 8
    ensures w + c < |Cells(text + line)| && Cells(text + line)[w + c] == Cells(line)[c]
  {
    AppendedCells(text, w, line);
  }

  lemma {:induction false} LineHasNine(files: seq<seq<string>>, j: nat, r: nat)
    requires AllNineCells(files, r) && j < |files| && Present(files, j, r)
    ensures NineCells(files[j][r])
  {}

  /** The text to which file n appends its line of row r. */
  function Before(files: seq<seq<string>>, n: nat, r: nat): string
    requires n <= |files|
  {
    if Begun(files, n, r) then RowText(files, n, r) else Delimiters(8 * n)
  }

  lemma {:induction false} RowIsAppended(files: seq<seq<string>>, n: nat, r: nat)
    requires n < |files| && Present(files, n, r)
    ensures Begun(files, n + 1, r) && RowText(files, n + 1, r) == Before(files, n, r) + files[n][r]
  {}

  /** It fills the columns before the one where the file starts. */
  lemma {:induction false} BeforeFills(files: seq<seq<string>>, n: nat, r: nat)
    requires AllNineCells(files, r) && n <= |files|
    ensures Fills(Before(files, n, r), StartColumn(files, n, r))
  {
    if !Begun(files, n, r) {
      CellsOfDelimiters(8 * n);
    } else {
      var before, w := Before(files, n - 1, r), StartColumn(files, n - 1, r);
      BeforeFills(files, n - 1, r);
      if Present(files, n - 1, r) {
        LineHasNine(files, n - 1, r);
        RowIsAppended(files, n - 1, r);
        StartColumnStep(files, n - 1, r);
        AppendedCells(before, w, files[n - 1][r]);
        assert Before(files, n, r) == before + files[n - 1][r];
      } else {
        assert Before(files, n, r) == before && StartColumn(files, n, r) == w;
      }
    }
  }

  lemma {:induction false} StartColumnStep(files: seq<seq<string>>, n: nat, r: nat)
    requires n < |files| && Present(files, n, r)
    ensures StartColumn(files, n + 1, r) == StartColumn(files, n, r) + 8
  {}

  /** The text has `cell` in column k, before the empty last cell. */
  predicate HasCell(text: string, k: nat, cell: string) {
    k < |Cells(text)| - 1 && Cells(text)[k] == cell
  }

  lemma {:induction false} HasCellAfter(files: seq<seq<string>>, n: nat, r: nat, k: nat, cell: string)
    requires AllNineCells(files, r) && n < |files| && Begun(files, n, r)
    requires HasCell(RowText(files, n, r), k, cell)
    ensures HasCell(RowText(files, n + 1, r), k, cell)
  {
    RowTextStep(files, n, r);
    if Present(files, n, r) {
      var w := StartColumn(files, n, r);
      LineHasNine(files, n, r);
      BeforeFills(files, n, r);
      CellKept(RowText(files, n, r), w, files[n][r], k);
      AppendedCells(RowText(files, n, r), w, files[n][r]);
    }
  }

  lemma {:induction false} CellArrives(files: seq<seq<string>>, r: nat, j: nat, c: nat)
    requires AllNineCells(files, r) && j < |files| && Present(files, j, r) && c < 8
    ensures Begun(files, j + 1, r) && NineCells(files[j][r])
    ensures HasCell(RowText(files, j + 1, r), StartColumn(files, j, r) + c, Cells(files[j][r])[c])
  {
    LineHasNine(files, j, r);
    BeforeFills(files, j, r);
    RowIsAppended(files, j, r);
    CellAdded(Before(files, j, r), StartColumn(files, j, r), files[j][r], c);
    AppendedCells(Before(files, j, r), StartColumn(files, j, r), files[j][r]);
  }

  /** Cell c of file j's line lands c columns after the start of that file. */
  lemma {:induction false} CellPlaced(files: seq<seq<string>>, n: nat, r: nat, j: nat, c: nat)
    requires AllNineCells(files, r) && j < n <= |files| && Present(files, j, r) && c < 8
    ensures Begun(files, n, r) && NineCells(files[j][r])
    ensures HasCell(RowText(files, n, r), StartColumn(files, j, r) + c, Cells(files[j][r])[c])
  {
    if j < n - 1 {
      CellPlaced(files, n - 1, r, j, c);
      HasCellAfter(files, n - 1, r, StartColumn(files, j, r) + c, Cells(files[j][r])[c]);
    } else {
      CellArrives(files, r, j, c);
    }
  }

  lemma {:induction false} NoneBefore<T>(files: seq<seq<T>>, n: nat, r: nat)
    requires n <= |files| && !Begun(files, n, r)
    ensures forall j :: 0 <= j < n ==> !Present(files, j, r)
  {
    if n > 0 {
      NoneBefore(files, n - 1, r);
    }
  }

  /** Once a file before j has row r, all the following ones before j have it. */
  ghost predicate NoGap<T>(files: seq<seq<T>>, j: nat, r: nat)
    requires j <= |files|
  {
    forall i, k :: 0 <= i < k < j && Present(files, i, r) ==> Present(files, k, r)
  }

  lemma {:induction false} StartColumnAtMost<T>(files: seq<seq<T>>, j: nat, r: nat)
    requires j <= |files|
    ensures StartColumn(files, j, r) <= 8 * j
  {
    if j > 0 {
      StartColumnAtMost(files, j - 1, r);
    }
  }

  lemma {:induction false} SomeBefore<T>(files: seq<seq<T>>, n: nat, r: nat) returns (i: nat)
    requires n <= |files| && Begun(files, n, r)
    ensures i < n && Present(files, i, r)
  {
    if Present(files, n - 1, r) {
      i := n - 1;
    } else {
      i := SomeBefore(files, n - 1, r);
    }
  }

  lemma {:induction false} BegunIfPresent<T>(files: seq<seq<T>>, n: nat, r: nat, i: nat)
    requires i < n <= |files| && Present(files, i, r)
    ensures Begun(files, n, r)
  {
    if i < n - 1 {
      BegunIfPresent(files, n - 1, r, i);
    }
  }

  /** A file's cells stand in its own eight columns if and only if there is no
      gap in the files before it that have the row. */
  lemma {:induction false} AlignedIffNoGap<T>(files: seq<seq<T>>, j: nat, r: nat)
    requires j <= |files|
    ensures StartColumn(files, j, r) == 8 * j <==> NoGap(files, j, r)
  {
    if j == 0 || !Begun(files, j, r) {
      NoneBefore(files, j, r);
    } else {
      AlignedIffNoGap(files, j - 1, r);
      StartColumnAtMost(files, j - 1, r);
      if Present(files, j - 1, r) {
        assert NoGap(files, j, r) <==> NoGap(files, j - 1, r);
      } else {
        var i := SomeBefore(files, j - 1, r);
        assert !NoGap(files, j, r);
      }
    }
  }

  /** Column alignment: in the merged rows, cell c of file j's line r stands in
      column 8 * j + c, provided no file before j lacks the row after another
      had it. */
  lemma {:induction false} ColumnsAligned(files: seq<seq<string>>, j: nat, r: nat, c: nat)
    requires AllNineCells(files, r) && j < |files| && Present(files, j, r) && c < 8 && NoGap(files, j, r)
    ensures Begun(files, |files|, r) && NineCells(files[j][r])
    ensures HasCell(RowText(files, |files|, r), 8 * j + c, Cells(files[j][r])[c])
  {
    CellPlaced(files, |files|, r, j, c);
    AlignedIffNoGap(files, j, r);
  }

  // ----- from the tests to the merged file -----

  /** A row of at most eight cells that the merged file can keep apart. */
  ghost predicate Fitting(row: seq<string>) {
    PlainRow(row) && (|row| < COL_MAX || (|row| == COL_MAX && row[COL_MAX - 1] == ""))
  }

  /** The tests' rows of that number are such rows. */
  ghost predicate RowFits(tests: seq<seq<seq<string>>>, r: nat) {
    forall j :: 0 <= j < |tests| && r < |tests[j]| ==> Fitting(tests[j][r])
  }

  /** Cell c of a row, empty beyond its end. */
  function CellOf(row: seq<string>, c: nat): string {
    if c < |row| then row[c] else ""
  }

  /** Row r of the merged file has `cell` in column k. */
  predicate Lands(fileData: seq<string>, r: nat, k: nat, cell: string) {
    r < |fileData| && HasCell(fileData[r], k, cell)
  }

  ghost predicate AllSaved(tests: seq<seq<seq<string>>>, files: seq<seq<string>>) {
    |files| <= |tests| && forall j :: 0 <= j < |files| ==> Saved(tests[j], files[j])
  }

  lemma {:induction false} CellLands(tests: seq<seq<seq<string>>>, files: seq<seq<string>>, fileData: seq<string>,
                                     j: nat, r: nat, c: nat)
    requires RowFits(tests, r) && AllSaved(tests, files) && |files| == |tests|
    requires |fileData| == Height(files, |files|)
    requires forall i :: 0 <= i < |fileData| ==> IsRow(files, |files|, i, fileData[i])
    requires j < |tests| && Present(tests, j, r) && c < 8
    ensures Lands(fileData, r, StartColumn(tests, j, r) + c, CellOf(tests[j][r], c))
  {
    forall i | 0 <= i < |files| && r < |files[i]|
      ensures NineCells(files[i][r])
    {
      assert Saved(tests[i], files[i]) && Fitting(tests[i][r]);
    }
    assert Saved(tests[j], files[j]) && Fitting(tests[j][r]);
    assert forall i :: 0 <= i < |files| ==> Saved(tests[i], files[i]);
    SameHeights(tests, files, j, r);
    CellPlaced(files, |files|, r, j, c);
    BegunBelowHeight(files, |files|, r);
    assert IsRow(files, |files|, r, fileData[r]);
  }

  /** Where a file starts depends on the heights of the files only. */
  lemma {:induction false} SameHeights<S, T>(a: seq<seq<S>>, b: seq<seq<T>>, j: nat, r: nat)
    requires |a| == |b| && j <= |a| && forall i :: 0 <= i < |a| ==> |a[i]| == |b[i]|
    ensures Begun(a, j, r) <==> Begun(b, j, r)
    ensures StartColumn(a, j, r) == StartColumn(b, j, r)
  {
    if j > 0 {
      SameHeights(a, b, j - 1, r);
    }
  }

  /** The rows of every test, saved and merged: cell c of row r of test j, empty
      if the row is shorter, stands in row r, c columns behind the start of its test, which is column 8 * j if
      and only if no test before it lacks the row after another had it. What
      happens to one row does not depend on the others. */
  method SaveAndCombine(tests: seq<seq<seq<string>>>) returns (fileData: seq<string>)
    ensures forall j, r, c ::
      0 <= j < |tests| && 0 <= r && Present(tests, j, r) && 0 <= c < 8 && RowFits(tests, r) ==>
        Lands(fileData, r, StartColumn(tests, j, r) + c, CellOf(tests[j][r], c))
    ensures forall j, r ::
      0 <= j < |tests| && 0 <= r && Present(tests, j, r) ==> (StartColumn(tests, j, r) == 8 * j <==> NoGap(tests, j, r))
  {
    var files := [];
    while |files| < |tests|
      invariant AllSaved(tests, files)
    {
      var lines := SaveTmp(tests[|files|]);
      files := files + [lines];
    }
    fileData := Combine(files);
    forall j, r, c | 0 <= j < |tests| && 0 <= r && Present(tests, j, r) && 0 <= c < 8 && RowFits(tests, r)
      ensures Lands(fileData, r, StartColumn(tests, j, r) + c, CellOf(tests[j][r], c))
    {
      CellLands(tests, files, fileData, j, r, c);
    }
    forall j, r | 0 <= j < |tests| && 0 <= r && Present(tests, j, r)
      ensures StartColumn(tests, j, r) == 8 * j <==> NoGap(tests, j, r)
    {
      AlignedIffNoGap(tests, j, r);
    }
  }

  /** Three tests of which only the middle one lacks a row: the last one's cells
      of that row stand in the columns of the middle one. */
  lemma {:induction false} ShorterMiddleMisaligns<T>(tests: seq<seq<T>>, r: nat)
    requires |tests| >= 3 && Present(tests, 0, r) && !Present(tests, 1, r) && Present(tests, 2, r)
    ensures StartColumn(tests, 2, r) == 8 && !NoGap(tests, 2, r)
  {
    assert Begun(tests, 1, r) && Begun(tests, 2, r);
    assert StartColumn(tests, 1, r) == StartColumn(tests, 0, r) + 8;
  }

  /** For instance the second row here: its "e" belongs in column 16. */
  method MisalignedExample() returns (fileData: seq<string>)
    ensures Lands(fileData, 1, 8, "e")
  {
    var tests := [[["a"], ["b"]], [["c"]], [["d"], ["e"]]];
    assert RowFits(tests, 1);
    fileData := SaveAndCombine(tests);
    ShorterMiddleMisaligns(tests, 1);
    assert Present(tests, 2, 1) && tests[2][1][0] == "e";
    assert CellOf(tests[2][1], 0) == "e";
    assert Lands(fileData, 1, StartColumn(tests, 2, 1) + 0, CellOf(tests[2][1], 0));
  }
}
