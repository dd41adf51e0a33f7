/** Reading the judgement table and the auxiliary tables of a matrix document. */
module MatrixTable {
  import opened Wrappers
  import Splitter = TableSplitter
  import Texts
  import Status = AcceptanceStatus

  const COORDINATE_COLUMN := "定位坐标"
  const ORIGINAL_COLUMN := "验收点原文"
  const STATUS_COLUMN := "判定状态"
  const DELIVERY_COLUMN := "交付分类"
  const EVIDENCE_COLUMN := "证据"
  const NOTE_COLUMN := "备注"
  const REGISTER_COLUMN := "登记号"

  type Cells = seq<string>

  predicate IsTableLine(space: char -> bool, line: string) {
    "|" <= Texts.Strip(space, line)
  }

  function CellsOf(space: char -> bool, line: string): Cells {
    Splitter.Split(space, Texts.Strip(space, line))
  }

  /** The `| --- | :-: |` line below a header. */
  predicate IsRuler(cells: Cells) {
    forall k, i :: 0 <= k < |cells| && 0 <= i < |cells[k]| ==> cells[k][i] in "-: "
  }

  predicate IsHeader(cells: Cells) { COORDINATE_COLUMN in cells && STATUS_COLUMN in cells }

  predicate IsAuxiliaryHeader(cells: Cells) {
    REGISTER_COLUMN in cells && STATUS_COLUMN in cells && COORDINATE_COLUMN !in cells
  }

  ghost predicate AllTableLines(space: char -> bool, lines: seq<string>, low: nat, high: nat) {
    forall j :: low <= j < high && j < |lines| ==> IsTableLine(space, lines[j])
  }

  // ---- The judgement table ----

  datatype Table = Table(header: Cells, rows: seq<Cells>)

  predicate HeaderAt(space: char -> bool, lines: seq<string>, h: nat) {
    h < |lines| && IsTableLine(space, lines[h]) && IsHeader(CellsOf(space, lines[h]))
  }

  /** The first header from line `k` on, or the end of the document. */
  function FirstHeader(space: char -> bool, lines: seq<string>, k: nat): (h: nat)
    requires k <= |lines|
    ensures k <= h <= |lines|
    decreases |lines| - k
  {
    if k == |lines| || HeaderAt(space, lines, k) then k else FirstHeader(space, lines, k + 1)
  }

  /** Where the block of table lines that goes on at line `k` ends. */
  function BlockEnd(space: char -> bool, lines: seq<string>, k: nat): (end: nat)
    requires k <= |lines|
    ensures k <= end <= |lines|
    decreases |lines| - k
  {
    if k == |lines| || !IsTableLine(space, lines[k]) then k else BlockEnd(space, lines, k + 1)
  }

  predicate IsRowLine(space: char -> bool, line: string) {
    IsTableLine(space, line) && !IsRuler(CellsOf(space, line))
  }

  /** The rows of the table lines in `lines[low..high]`. */
  function RowsBetween(space: char -> bool, lines: seq<string>, low: nat, high: nat): seq<Cells>
    requires low <= high <= |lines|
    decreases high
  {
    if low == high then []
    else RowsBetween(space, lines, low, high - 1) + if IsRowLine(space, lines[high - 1]) then [CellsOf(space, lines[high - 1])] else []
  }

  /** The table is the block of table lines below the first header, up to the first line that
      is not one, without its rulers. */
  function TableIn(space: char -> bool, lines: seq<string>): Option<Table> {
    var h := FirstHeader(space, lines, 0);
    if h == |lines| then None
    else Some(Table(CellsOf(space, lines[h]), RowsBetween(space, lines, h + 1, BlockEnd(space, lines, h + 1))))
  }

  /** What is known about the table once `k` lines have been read. */
  ghost predicate Reading(space: char -> bool, lines: seq<string>, h: nat, k: nat, table: Option<Table>)
    requires k <= |lines|
  {
    if table.None? then FirstHeader(space, lines, 0) == FirstHeader(space, lines, k)
    else
      && h < k && h == FirstHeader(space, lines, 0)
      && BlockEnd(space, lines, h + 1) == BlockEnd(space, lines, k)
      && table.value == Table(CellsOf(space, lines[h]), RowsBetween(space, lines, h + 1, k))
  }

  lemma ReadingEnds(space: char -> bool, lines: seq<string>, h: nat, k: nat, table: Option<Table>)
    requires k <= |lines| && Reading(space, lines, h, k, table)
    ensures k == |lines| || (table.Some? && !IsTableLine(space, lines[k])) ==> table == TableIn(space, lines)
  {
  }

  lemma ReadingBegins(space: char -> bool, lines: seq<string>, h: nat, k: nat)
    requires k < |lines| && Reading(space, lines, h, k, None)
    ensures HeaderAt(space, lines, k) ==> Reading(space, lines, k, k + 1, Some(Table(CellsOf(space, lines[k]), [])))
    ensures !HeaderAt(space, lines, k) ==> Reading(space, lines, h, k + 1, None)
  {
  }

  lemma ReadingGoesOn(space: char -> bool, lines: seq<string>, h: nat, k: nat, t: Table)
    requires k < |lines| && Reading(space, lines, h, k, Some(t)) && IsTableLine(space, lines[k])
    ensures IsRuler(CellsOf(space, lines[k])) ==> Reading(space, lines, h, k + 1, Some(t))
    ensures !IsRuler(CellsOf(space, lines[k])) ==>
              Reading(space, lines, h, k + 1, Some(t.(rows := t.rows + [CellsOf(space, lines[k])])))
  {
  }

  method ReadCells(space: char -> bool, line: string) returns (cells: Cells)
    ensures cells == CellsOf(space, line)
  {
    cells := Splitter.SplitCells(space, Texts.Strip(space, line));
  }

  /** The table after one more table line. */
  function WithLine(cells: Cells, table: Option<Table>): Option<Table> {
    match table
    case None => if IsHeader(cells) then Some(Table(cells, [])) else None
    case Some(t) => if IsRuler(cells) then table else Some(t.(rows := t.rows + [cells]))
  }

  lemma ReadingStep(space: char -> bool, lines: seq<string>, h: nat, k: nat, table: Option<Table>)
    requires k < |lines| && Reading(space, lines, h, k, table) && IsTableLine(space, lines[k])
    ensures var next := WithLine(CellsOf(space, lines[k]), table);
            Reading(space, lines, if table.None? && next.Some? then k else h, k + 1, next)
  {
    if table.None? {
      ReadingBegins(space, lines, h, k);
      assert HeaderAt(space, lines, k) <==> IsHeader(CellsOf(space, lines[k]));
    } else {
      ReadingGoesOn(space, lines, h, k, table.value);
    }
  }

  lemma ReadingSkips(space: char -> bool, lines: seq<string>, h: nat, k: nat)
    requires k < |lines| && Reading(space, lines, h, k, None) && !IsTableLine(space, lines[k])
    ensures Reading(space, lines, h, k + 1, None)
  {
    ReadingBegins(space, lines, h, k);
  }

  method JudgementTable(space: char -> bool, lines: seq<string>) returns (table: Option<Table>)
    ensures table == TableIn(space, lines)
  {
    table := None;
    ghost var h: nat := 0;
    for k := 0 to |lines|
      invariant Reading(space, lines, h, k, table)
    {
      if !IsTableLine(space, lines[k]) {
        if table.Some? {
          ReadingEnds(space, lines, h, k, table);
          return;
        }
        ReadingSkips(space, lines, h, k);
        continue;
      }
      ReadingStep(space, lines, h, k, table);
      ghost var next := WithLine(CellsOf(space, lines[k]), table);
      h := if table.None? && next.Some? then k else h;
      var cells := ReadCells(space, lines[k]);
      if table.None? {
        if IsHeader(cells) {
          table := Some(Table(cells, []));
        }
      } else if !IsRuler(cells) {
        table := Some(table.value.(rows := table.value.rows + [cells]));
      }
      assert table == next;
    }
    ReadingEnds(space, lines, h, |lines|, table);
  }

  /** Line `h` is the first header from line `k` on, or there is none and `h` is the end. */
  ghost predicate FirstFrom(space: char -> bool, lines: seq<string>, k: nat, h: nat) {
    && k <= h <= |lines| && (h < |lines| ==> HeaderAt(space, lines, h))
    && forall j :: k <= j < h ==> !HeaderAt(space, lines, j)
  }

  lemma FirstFromHere(space: char -> bool, lines: seq<string>, k: nat, h: nat)
    requires k <= |lines|
    ensures k == |lines| || HeaderAt(space, lines, k) ==> (FirstFrom(space, lines, k, h) <==> h == k)
    ensures k < |lines| && !HeaderAt(space, lines, k) ==> (FirstFrom(space, lines, k, h) <==> FirstFrom(space, lines, k + 1, h))
  {
  }

  lemma {:induction false} FirstHeaderIsFirst(space: char -> bool, lines: seq<string>, k: nat, h: nat)
    requires k <= |lines|
    ensures FirstHeader(space, lines, k) == h <==> FirstFrom(space, lines, k, h)
    decreases |lines| - k
  {
    FirstFromHere(space, lines, k, h);
    if k < |lines| && !HeaderAt(space, lines, k) { FirstHeaderIsFirst(space, lines, k + 1, h); }
  }

  lemma {:induction false} BlockEndIsFirst(space: char -> bool, lines: seq<string>, k: nat, end: nat)
    requires k <= |lines|
    ensures BlockEnd(space, lines, k) == end <==>
            && k <= end <= |lines| && (end < |lines| ==> !IsTableLine(space, lines[end]))
            && AllTableLines(space, lines, k, end)
    decreases |lines| - k
  {
    if k < |lines| && IsTableLine(space, lines[k]) { BlockEndIsFirst(space, lines, k + 1, end); }
  }

  ghost predicate RowFromLine(space: char -> bool, lines: seq<string>, j: nat, cells: Cells) {
    j < |lines| && IsRowLine(space, lines[j]) && cells == CellsOf(space, lines[j])
  }

  ghost predicate RowFromBlock(space: char -> bool, lines: seq<string>, low: nat, high: nat, cells: Cells) {
    exists j: nat :: low <= j < high && RowFromLine(space, lines, j, cells)
  }

  lemma BlockGains(space: char -> bool, lines: seq<string>, low: nat, high: nat, cells: Cells)
    requires low < high <= |lines|
    ensures RowFromBlock(space, lines, low, high, cells) <==>
            RowFromBlock(space, lines, low, high - 1, cells) || RowFromLine(space, lines, high - 1, cells)
  {
  }

  /** Every row is a line of the block, and every line of the block that is no ruler is a row. */
  lemma {:induction false} RowsAreLines(space: char -> bool, lines: seq<string>, low: nat, high: nat, cells: Cells)
    requires low <= high <= |lines|
    ensures cells in RowsBetween(space, lines, low, high) <==> RowFromBlock(space, lines, low, high, cells)
    decreases high
  {
    if low < high {
      RowsAreLines(space, lines, low, high - 1, cells);
      BlockGains(space, lines, low, high, cells);
      assert RowsBetween(space, lines, low, high) == RowsBetween(space, lines, low, high - 1)
          + if IsRowLine(space, lines[high - 1]) then [CellsOf(space, lines[high - 1])] else [];
    }
  }

  // ---- Auxiliary tables ----

  /** Line `j` records its first cell below an auxiliary header of the same block. */
  ghost predicate RecordedAt(space: char -> bool, lines: seq<string>, j: nat, c: string) {
    && j < |lines| && IsRowLine(space, lines[j])
    && |CellsOf(space, lines[j])| > 1 && c == Texts.Strip(space, CellsOf(space, lines[j])[0])
    && InAuxiliary(space, lines, j)
  }

  /** An auxiliary header stands above line `j` in its block. */
  ghost predicate InAuxiliary(space: char -> bool, lines: seq<string>, j: nat) {
    exists h: nat :: BlockHeader(space, lines, h, j)
  }

  ghost predicate BlockHeader(space: char -> bool, lines: seq<string>, h: nat, j: nat) {
    h < j <= |lines| && IsAuxiliaryHeader(CellsOf(space, lines[h])) && AllTableLines(space, lines, h, j)
  }

  ghost predicate Recorded(space: char -> bool, lines: seq<string>, upTo: nat, c: string) {
    exists j: nat :: j < upTo && RecordedAt(space, lines, j, c)
  }

  lemma RecordedGrows(space: char -> bool, lines: seq<string>, k: nat)
    ensures forall c :: Recorded(space, lines, k + 1, c) <==> Recorded(space, lines, k, c) || RecordedAt(space, lines, k, c)
  {
    forall c ensures Recorded(space, lines, k + 1, c) <==> Recorded(space, lines, k, c) || RecordedAt(space, lines, k, c) {
      if Recorded(space, lines, k, c) {
        var j: nat :| j < k && RecordedAt(space, lines, j, c);
        assert j < k + 1;
      }
    }
  }

  lemma BlockGrows(space: char -> bool, lines: seq<string>, k: nat)
    requires k < |lines|
    ensures InAuxiliary(space, lines, k + 1) <==>
            IsTableLine(space, lines[k]) && (IsAuxiliaryHeader(CellsOf(space, lines[k])) || InAuxiliary(space, lines, k))
  {
    if IsTableLine(space, lines[k]) && IsAuxiliaryHeader(CellsOf(space, lines[k])) {
      assert BlockHeader(space, lines, k, k + 1);
    }
    if h: nat :| IsTableLine(space, lines[k]) && BlockHeader(space, lines, h, k) {
      assert BlockHeader(space, lines, h, k + 1);
    }
    var after: nat := k + 1;
    if h: nat :| BlockHeader(space, lines, h, after) {
      assert h == k || BlockHeader(space, lines, h, k);
    }
  }

  ghost predicate Collected(space: char -> bool, lines: seq<string>, counts: string -> bool, k: nat, coordinates: set<string>) {
    forall c :: c in coordinates <==> counts(c) && Recorded(space, lines, k, c)
  }

  lemma CollectedGrows(space: char -> bool, lines: seq<string>, counts: string -> bool, k: nat, coordinates: set<string>, cells: Cells)
    requires k < |lines| && Collected(space, lines, counts, k, coordinates) && cells == CellsOf(space, lines[k])
    ensures var records := InAuxiliary(space, lines, k) && IsRowLine(space, lines[k]) && |cells| > 1
                           && counts(Texts.Strip(space, cells[0]));
            Collected(space, lines, counts, k + 1, if records then coordinates + {Texts.Strip(space, cells[0])} else coordinates)
  {
    RecordedGrows(space, lines, k);
  }

  method AuxiliaryCoordinates(space: char -> bool, lines: seq<string>, counts: string -> bool) returns (coordinates: set<string>)
    ensures Collected(space, lines, counts, |lines|, coordinates)
  {
    coordinates := {};
    var inTable := false;
    for k := 0 to |lines|
      invariant inTable <==> InAuxiliary(space, lines, k)
      invariant Collected(space, lines, counts, k, coordinates)
    {
      BlockGrows(space, lines, k);
      CollectedGrows(space, lines, counts, k, coordinates, CellsOf(space, lines[k]));
      if !IsTableLine(space, lines[k]) {
        inTable := false;
        continue;
      }
      var cells := ReadCells(space, lines[k]);
      if !inTable {
        inTable := IsAuxiliaryHeader(cells);
        continue;
      }
      if !IsRuler(cells) && |cells| > 1 {
        var coordinate := Texts.Strip(space, cells[0]);
        if counts(coordinate) {
          coordinates := coordinates + {coordinate};
        }
      }
    }
  }

  // ---- Rows ----

  /** One judgement row, parsed but not yet judged. */
  datatype RowCells = RowCells(line: nat, coordinate: string, original: string, claimed: string, delivery: string, evidence: string, note: string)

  function WithoutMarkup(s: string): string {
    if s == "" then "" else (if s[0] in "*`" then "" else [s[0]]) + WithoutMarkup(s[1..])
  }

  function Title(space: char -> bool, cell: string): string {
    WithoutMarkup(Texts.Strip(space, cell))
  }

  /** The first column from `k` on with the given title, or -1. */
  function Column(space: char -> bool, header: Cells, name: string, k: nat): (at: int)
    requires k <= |header|
    ensures at == -1 ==> forall j :: k <= j < |header| ==> Title(space, header[j]) != name
    ensures at != -1 ==> k <= at < |header| && Title(space, header[at]) == name
    ensures at != -1 ==> forall j :: k <= j < at ==> Title(space, header[j]) != name
    decreases |header| - k
  {
    if k == |header| then -1
    else if Title(space, header[k]) == name then k
    else Column(space, header, name, k + 1)
  }

  method ColumnIndex(space: char -> bool, header: Cells, name: string) returns (at: int)
    ensures at == Column(space, header, name, 0)
  {
    for k := 0 to |header|
      invariant Column(space, header, name, 0) == Column(space, header, name, k)
    {
      if Title(space, header[k]) == name {
        return k;
      }
    }
    return -1;
  }

  /** A missing column reads empty. */
  function CellAt(cells: Cells, at: int): string {
    if 0 <= at < |cells| then cells[at] else ""
  }

  datatype Columns = Columns(coordinate: int, original: int, claimed: int, delivery: int, evidence: int, note: int)

  function ColumnsOf(space: char -> bool, header: Cells): Columns {
    Columns(Column(space, header, COORDINATE_COLUMN, 0), Column(space, header, ORIGINAL_COLUMN, 0),
            Column(space, header, STATUS_COLUMN, 0), Column(space, header, DELIVERY_COLUMN, 0),
            Column(space, header, EVIDENCE_COLUMN, 0), Column(space, header, NOTE_COLUMN, 0))
  }

  function RowOf(m: Status.Marks, at: Columns, line: nat, cells: Cells): RowCells {
    RowCells(line,
             Texts.Strip(m.space, CellAt(cells, at.coordinate)), CellAt(cells, at.original),
             Status.Normalize(m, CellAt(cells, at.claimed)),
             Texts.Strip(m.space, CellAt(cells, at.delivery)), CellAt(cells, at.evidence), CellAt(cells, at.note))
  }

  /** Every row is kept, in order, however few cells it has. */
  function RowsOf(m: Status.Marks, t: Table): (rows: seq<RowCells>)
    ensures |rows| == |t.rows|
  {
    seq(|t.rows|, k requires 0 <= k < |t.rows| => RowOf(m, ColumnsOf(m.space, t.header), k + 1, t.rows[k]))
  }

  method FindColumns(space: char -> bool, header: Cells) returns (columns: Columns)
    ensures columns == ColumnsOf(space, header)
  {
    var coordinateAt := ColumnIndex(space, header, COORDINATE_COLUMN);
    var claimedAt := ColumnIndex(space, header, STATUS_COLUMN);
    var deliveryAt := ColumnIndex(space, header, DELIVERY_COLUMN);
    var evidenceAt := ColumnIndex(space, header, EVIDENCE_COLUMN);
    var noteAt := ColumnIndex(space, header, NOTE_COLUMN);
    var originalAt := ColumnIndex(space, header, ORIGINAL_COLUMN);
    columns := Columns(coordinateAt, originalAt, claimedAt, deliveryAt, evidenceAt, noteAt);
  }

  lemma NextRow(m: Status.Marks, t: Table, k: nat)
    requires k < |t.rows|
    ensures RowsOf(m, t)[..k + 1] == RowsOf(m, t)[..k] + [RowOf(m, ColumnsOf(m.space, t.header), k + 1, t.rows[k])]
  {
    FrontGrows(RowsOf(m, t), k);
  }

  lemma FrontGrows<T>(xs: seq<T>, k: nat)
    requires k < |xs|
    ensures xs[..k + 1] == xs[..k] + [xs[k]]
  {
  }

  /** Column `at` is the first one with the title. */
  ghost predicate FirstTitled(space: char -> bool, header: Cells, title: string, at: nat) {
    && at < |header| && Title(space, header[at]) == title
    && forall j :: 0 <= j < at ==> Title(space, header[j]) != title
  }

  /** What a row holds under a title: the cell of the first column so titled, or nothing when
      the row is shorter or no column has the title. */
  ghost predicate Under(space: char -> bool, header: Cells, cells: Cells, title: string, text: string) {
    && (forall at: nat :: FirstTitled(space, header, title, at) ==> text == if at < |cells| then cells[at] else "")
    && ((forall at :: 0 <= at < |header| ==> Title(space, header[at]) != title) ==> text == "")
  }

  /** Which field of a row is read from which column. */
  ghost predicate ReadFrom(m: Status.Marks, header: Cells, cells: Cells, line: nat, row: RowCells) {
    && row.line == line
    && (exists raw :: Under(m.space, header, cells, "定位坐标", raw) && row.coordinate == Texts.Strip(m.space, raw))
    && Under(m.space, header, cells, "验收点原文", row.original)
    && (exists raw :: Under(m.space, header, cells, "判定状态", raw) && row.claimed == Status.Normalize(m, raw))
    && (exists raw :: Under(m.space, header, cells, "交付分类", raw) && row.delivery == Texts.Strip(m.space, raw))
    && Under(m.space, header, cells, "证据", row.evidence)
    && Under(m.space, header, cells, "备注", row.note)
  }

  lemma ColumnIsUnder(space: char -> bool, header: Cells, cells: Cells, title: string)
    ensures Under(space, header, cells, title, CellAt(cells, Column(space, header, title, 0)))
  {
    var found := Column(space, header, title, 0);
    forall at: nat | FirstTitled(space, header, title, at) ensures at == found { }
  }

  lemma RowIsReadFrom(m: Status.Marks, header: Cells, line: nat, cells: Cells)
    ensures ReadFrom(m, header, cells, line, RowOf(m, ColumnsOf(m.space, header), line, cells))
  {
    ColumnIsUnder(m.space, header, cells, "定位坐标");
    ColumnIsUnder(m.space, header, cells, "验收点原文");
    ColumnIsUnder(m.space, header, cells, "判定状态");
    ColumnIsUnder(m.space, header, cells, "交付分类");
    ColumnIsUnder(m.space, header, cells, "证据");
    ColumnIsUnder(m.space, header, cells, "备注");
  }

  ghost predicate ReadAt(m: Status.Marks, t: Table, k: nat, row: RowCells) {
    k < |t.rows| && ReadFrom(m, t.header, t.rows[k], k + 1, row)
  }

  ghost predicate AllReadFrom(m: Status.Marks, t: Table, rows: seq<RowCells>) {
    |rows| == |t.rows| && forall k: nat :: k < |rows| ==> ReadAt(m, t, k, rows[k])
  }

  lemma RowsAreReadFrom(m: Status.Marks, t: Table)
    ensures AllReadFrom(m, t, RowsOf(m, t))
  {
    forall k: nat | k < |t.rows| ensures ReadAt(m, t, k, RowsOf(m, t)[k]) { RowIsReadAt(m, t, k); }
  }

  lemma RowIsReadAt(m: Status.Marks, t: Table, k: nat)
    requires k < |t.rows|
    ensures ReadAt(m, t, k, RowsOf(m, t)[k])
  {
    RowAt(m, t, k);
    RowIsReadFrom(m, t.header, k + 1, t.rows[k]);
    KeptApart(m, t, k, RowOf(m, ColumnsOf(m.space, t.header), k + 1, t.rows[k]));
  }

  lemma KeptApart(m: Status.Marks, t: Table, k: nat, row: RowCells)
    requires k < |t.rows| && ReadFrom(m, t.header, t.rows[k], k + 1, row)
    ensures ReadAt(m, t, k, row)
  {
  }

  lemma RowAt(m: Status.Marks, t: Table, k: nat)
    requires k < |t.rows|
    ensures RowsOf(m, t)[k] == RowOf(m, ColumnsOf(m.space, t.header), k + 1, t.rows[k])
  {
  }

  lemma {:induction false} MarkupInParts(a: string, b: string)
    ensures WithoutMarkup(a + b) == WithoutMarkup(a) + WithoutMarkup(b)
  {
    if a == "" {
      assert a + b == b;
    } else {
      assert (a + b)[1..] == a[1..] + b;
      MarkupInParts(a[1..], b);
    }
  }

  /** Stars and backticks go from everywhere in a title, and nothing else does. */
  lemma MarkupIsRemoved(a: string, c: char, b: string)
    ensures WithoutMarkup("") == ""
    ensures WithoutMarkup(a + [c] + b) == WithoutMarkup(a) + (if c == '*' || c == '`' then "" else [c]) + WithoutMarkup(b)
  {
    MarkupInParts(a + [c], b);
    MarkupInParts(a, [c]);
    assert [c][1..] == "" && (c in "*`" <==> c == '*' || c == '`');
  }

  method ParseRows(m: Status.Marks, t: Table) returns (rows: seq<RowCells>)
    ensures rows == RowsOf(m, t)
    ensures AllReadFrom(m, t, rows)
  {
    RowsAreReadFrom(m, t);
    var columns := FindColumns(m.space, t.header);
    rows := [];
    for k := 0 to |t.rows|
      invariant rows == RowsOf(m, t)[..k]
    {
      NextRow(m, t, k);
      rows := rows + [RowOf(m, columns, k + 1, t.rows[k])];
    }
  }

  // ---- Printed tables ----

  /** A row as it is written, with one blank around each cell. */
  function Written(cells: Cells): string {
    if cells == [] then "" else Splitter.Print(cells, " ")
  }

  /** Cells that survive writing and reading. */
  ghost predicate Writable(space: char -> bool, cells: Cells) {
    && cells != [] && (forall cell :: cell in cells ==> Texts.Trimmed(space, cell))
    && forall k :: 0 <= k < |cells| - 1 ==> !Splitter.OddTicks(cells[k])
  }

  predicate RulerCells(cells: Cells) {
    forall k, i :: 0 <= k < |cells| && 0 <= i < |cells[k]| ==> cells[k][i] == '-' || cells[k][i] == ':' || cells[k][i] == ' '
  }

  /** Behind white space the line starts with a pipe. */
  ghost predicate StartsTableLine(space: char -> bool, line: string) {
    exists k :: 0 <= k < |line| && line[k] == '|' && forall j :: 0 <= j < k ==> space(line[j])
  }

  lemma {:induction false} LeftStripStarts(space: char -> bool, line: string)
    requires !space('|')
    ensures Texts.StripLeft(space, line) != "" && Texts.StripLeft(space, line)[0] == '|' <==> StartsTableLine(space, line)
  {
    if line != "" && space(line[0]) {
      LeftStripStarts(space, line[1..]);
      if StartsTableLine(space, line[1..]) {
        var k :| 0 <= k < |line[1..]| && line[1..][k] == '|' && forall j :: 0 <= j < k ==> space(line[1..][j]);
        assert line[k + 1] == '|' && forall j :: 0 <= j < k + 1 ==> space(line[j]);
      }
      if StartsTableLine(space, line) {
        var k :| 0 <= k < |line| && line[k] == '|' && forall j :: 0 <= j < k ==> space(line[j]);
        assert line[1..][k - 1] == '|' && forall j :: 0 <= j < k - 1 ==> space(line[1..][j]);
      }
    }
  }

  lemma TableLineExactly(space: char -> bool, line: string)
    requires !space('|')
    ensures IsTableLine(space, line) <==> StartsTableLine(space, line)
  {
    var left := Texts.StripLeft(space, line);
    LeftStripStarts(space, line);
    Texts.StripRightEnd(space, left);
    if left != "" && left[0] == '|' { Texts.StripRightKeeps(space, left); }
  }

  lemma WrittenIsRead(space: char -> bool, cells: Cells)
    requires Splitter.Proper(space) && Writable(space, cells)
    ensures IsTableLine(space, Written(cells)) && CellsOf(space, Written(cells)) == cells
  {
    var line := Written(cells);
    assert line[0] == '|' && line[|line| - 1] == '|';
    Texts.TrimmedStays(space, line);
    Splitter.SplitUndoesPrint(space, cells, " ", "", "");
    assert "" + line + "" == line;
  }

  function WrittenAll(rows: seq<Cells>): (lines: seq<string>)
    ensures |lines| == |rows| && forall k :: 0 <= k < |rows| ==> lines[k] == Written(rows[k])
  {
    seq(|rows|, k requires 0 <= k < |rows| => Written(rows[k]))
  }

  /** Neither a header line before the table nor a table line right behind it. */
  ghost predicate Surrounds(space: char -> bool, before: seq<string>, after: seq<string>) {
    && (forall line :: line in before && StartsTableLine(space, line) ==>
          "定位坐标" !in CellsOf(space, line) || "判定状态" !in CellsOf(space, line))
    && (after != [] ==> !StartsTableLine(space, after[0]))
  }

  /** Line `j` is read as this row. */
  ghost predicate RowAtLine(space: char -> bool, lines: seq<string>, j: nat, row: Cells) {
    j < |lines| && IsRowLine(space, lines[j]) && CellsOf(space, lines[j]) == row
  }

  /** The lines from `low` on are read as these rows. */
  ghost predicate RowsAt(space: char -> bool, lines: seq<string>, low: nat, rows: seq<Cells>) {
    forall k: nat :: k < |rows| ==> RowAtLine(space, lines, low + k, rows[k])
  }

  lemma WrittenAtLine(space: char -> bool, lines: seq<string>, j: nat, row: Cells)
    requires Splitter.Proper(space) && Writable(space, row) && !RulerCells(row)
    requires j < |lines| && lines[j] == Written(row)
    ensures RowAtLine(space, lines, j, row)
  {
    WrittenIsRead(space, row);
  }

  ghost predicate WritableRows(space: char -> bool, rows: seq<Cells>) {
    forall k :: 0 <= k < |rows| ==> Writable(space, rows[k]) && !RulerCells(rows[k])
  }

  lemma WrittenRowAt(space: char -> bool, front: seq<string>, rows: seq<Cells>, after: seq<string>, k: nat)
    requires Splitter.Proper(space) && k < |rows| && Writable(space, rows[k]) && !RulerCells(rows[k])
    ensures RowAtLine(space, front + WrittenAll(rows) + after, |front| + k, rows[k])
  {
    var lines := front + WrittenAll(rows) + after;
    assert lines[|front| + k] == WrittenAll(rows)[k];
    WrittenAtLine(space, lines, |front| + k, rows[k]);
  }

  lemma WrittenRowsAt(space: char -> bool, front: seq<string>, rows: seq<Cells>, after: seq<string>)
    requires Splitter.Proper(space) && WritableRows(space, rows)
    ensures RowsAt(space, front + WrittenAll(rows) + after, |front|, rows)
  {
    forall k: nat | k < |rows| ensures RowAtLine(space, front + WrittenAll(rows) + after, |front| + k, rows[k]) {
      WrittenRowAt(space, front, rows, after, k);
    }
  }

  lemma FirstRowsAt(space: char -> bool, lines: seq<string>, low: nat, rows: seq<Cells>, n: nat)
    requires RowsAt(space, lines, low, rows) && n <= |rows|
    ensures RowsAt(space, lines, low, rows[..n])
  {
    forall k: nat | k < n ensures RowAtLine(space, lines, low + k, rows[..n][k]) {
      assert RowAtLine(space, lines, low + k, rows[k]);
    }
  }

  lemma OneMoreRow(space: char -> bool, lines: seq<string>, low: nat, high: nat, row: Cells)
    requires low <= high && RowAtLine(space, lines, high, row)
    ensures RowsBetween(space, lines, low, high + 1) == RowsBetween(space, lines, low, high) + [row]
  {
  }

  lemma {:induction false} RowsAreRead(space: char -> bool, lines: seq<string>, low: nat, rows: seq<Cells>)
    requires low + |rows| <= |lines| && RowsAt(space, lines, low, rows)
    ensures RowsBetween(space, lines, low, low + |rows|) == rows
  {
    if rows != [] {
      var n := |rows| - 1;
      FirstRowsAt(space, lines, low, rows, n);
      RowsAreRead(space, lines, low, rows[..n]);
      OneMoreRow(space, lines, low, low + n, rows[n]);
      assert rows == rows[..n] + [rows[n]];
    }
  }

  lemma HeaderIsFirst(space: char -> bool, before: seq<string>, titles: Cells, rest: seq<string>)
    requires Splitter.Proper(space) && Writable(space, titles) && Surrounds(space, before, [])
    requires "定位坐标" in titles && "判定状态" in titles
    ensures FirstHeader(space, before + [Written(titles)] + rest, 0) == |before|
  {
    var lines := before + [Written(titles)] + rest;
    forall j | 0 <= j < |before| ensures !HeaderAt(space, lines, j) {
      assert lines[j] == before[j] && before[j] in before;
      TableLineExactly(space, lines[j]);
    }
    assert lines[|before|] == Written(titles);
    WrittenIsRead(space, titles);
    FirstHeaderIsFirst(space, lines, 0, |before|);
  }

  /** A document that holds one written table. */
  function Document(before: seq<string>, titles: Cells, ruler: Cells, rows: seq<Cells>, after: seq<string>): seq<string> {
    before + [Written(titles)] + ([Written(ruler)] + WrittenAll(rows) + after)
  }

  /** A written table is read back: the block below the first line that holds both titles, up
      to the next line that starts with no pipe, without the ruler. */
  lemma WrittenTableIsRead(space: char -> bool, lines: seq<string>,
                           before: seq<string>, titles: Cells, ruler: Cells, rows: seq<Cells>, after: seq<string>)
    requires lines == Document(before, titles, ruler, rows, after)
    requires Splitter.Proper(space) && Writable(space, titles) && Writable(space, ruler) && Surrounds(space, before, after)
    requires "定位坐标" in titles && "判定状态" in titles && RulerCells(ruler) && WritableRows(space, rows)
    ensures TableIn(space, lines) == Some(Table(titles, rows))
  {
    assert HoldsTable(space, lines, |before|, titles, rows) by {
      HeaderOfDocument(space, lines, before, titles, ruler, rows, after);
      BlockOfDocument(space, lines, before, titles, ruler, rows, after);
    }
    TableFromParts(space, lines, |before|, titles, rows);
  }

  /** The first header is at `h`, and the block below it is read as these rows. */
  ghost predicate HoldsTable(space: char -> bool, lines: seq<string>, h: nat, titles: Cells, rows: seq<Cells>) {
    && h < |lines| && FirstHeader(space, lines, 0) == h && CellsOf(space, lines[h]) == titles
    && RowsBetween(space, lines, h + 1, BlockEnd(space, lines, h + 1)) == rows
  }

  lemma HeaderOfDocument(space: char -> bool, lines: seq<string>, before: seq<string>, titles: Cells, ruler: Cells, rows: seq<Cells>, after: seq<string>)
    requires Splitter.Proper(space) && Writable(space, titles) && Surrounds(space, before, after)
    requires "定位坐标" in titles && "判定状态" in titles
    requires lines == Document(before, titles, ruler, rows, after)
    ensures |before| < |lines| && FirstHeader(space, lines, 0) == |before| && CellsOf(space, lines[|before|]) == titles
  {
    var rest := [Written(ruler)] + WrittenAll(rows) + after;
    HeaderIsFirst(space, before, titles, rest);
    TitlesAt(space, before, titles, rest);
  }

  lemma BlockOfDocument(space: char -> bool, lines: seq<string>, before: seq<string>, titles: Cells, ruler: Cells, rows: seq<Cells>, after: seq<string>)
    requires Splitter.Proper(space) && Writable(space, ruler) && Surrounds(space, before, after)
    requires RulerCells(ruler) && WritableRows(space, rows)
    requires lines == Document(before, titles, ruler, rows, after)
    ensures RowsBetween(space, lines, |before| + 1, BlockEnd(space, lines, |before| + 1)) == rows
  {
    InParts(before, Written(titles), Written(ruler), WrittenAll(rows), after);
    WrittenRowsAt(space, before + [Written(titles)] + [Written(ruler)], rows, after);
    RulerAt(space, lines, |before| + 1, ruler);
    EndsBlock(space, before, after);
    BlockOfRows(space, lines, |before| + 1, rows);
  }

  lemma InParts(before: seq<string>, head: string, ruler: string, body: seq<string>, after: seq<string>)
    ensures var lines := before + [head] + ([ruler] + body + after);
            && lines == (before + [head] + [ruler]) + body + after
            && lines[|before| + 1] == ruler && (after != [] ==> lines[|before| + 2 + |body|] == after[0])
  {
  }

  lemma TableFromParts(space: char -> bool, lines: seq<string>, h: nat, titles: Cells, rows: seq<Cells>)
    requires HoldsTable(space, lines, h, titles, rows)
    ensures TableIn(space, lines) == Some(Table(titles, rows))
  {
  }

  lemma TitlesAt(space: char -> bool, before: seq<string>, titles: Cells, rest: seq<string>)
    requires Splitter.Proper(space) && Writable(space, titles)
    ensures CellsOf(space, (before + [Written(titles)] + rest)[|before|]) == titles
  {
    WrittenIsRead(space, titles);
  }

  lemma RulerAt(space: char -> bool, lines: seq<string>, j: nat, ruler: Cells)
    requires Splitter.Proper(space) && Writable(space, ruler) && RulerCells(ruler) && j < |lines| && lines[j] == Written(ruler)
    ensures IsTableLine(space, lines[j]) && IsRuler(CellsOf(space, lines[j]))
  {
    WrittenIsRead(space, ruler);
  }

  lemma EndsBlock(space: char -> bool, before: seq<string>, after: seq<string>)
    requires Splitter.Proper(space) && Surrounds(space, before, after)
    ensures after != [] ==> !IsTableLine(space, after[0])
  {
    if after != [] { TableLineExactly(space, after[0]); }
  }

  lemma RowsAreTableLines(space: char -> bool, lines: seq<string>, low: nat, rows: seq<Cells>)
    requires low + 1 + |rows| <= |lines| && IsTableLine(space, lines[low]) && RowsAt(space, lines, low + 1, rows)
    ensures AllTableLines(space, lines, low, low + 1 + |rows|)
  {
    forall j | low < j < low + 1 + |rows| ensures IsTableLine(space, lines[j]) {
      assert RowAtLine(space, lines, low + 1 + (j - low - 1), rows[j - low - 1]);
    }
  }

  lemma BlockEndsAt(space: char -> bool, lines: seq<string>, low: nat, end: nat)
    requires low <= end <= |lines| && AllTableLines(space, lines, low, end) && (end < |lines| ==> !IsTableLine(space, lines[end]))
    ensures BlockEnd(space, lines, low) == end
  {
    BlockEndIsFirst(space, lines, low, end);
  }

  lemma RowsFromBlock(space: char -> bool, lines: seq<string>, low: nat, end: nat, rows: seq<Cells>)
    requires low + 1 <= end <= |lines| && IsRuler(CellsOf(space, lines[low]))
    requires RowsBetween(space, lines, low + 1, end) == rows && BlockEnd(space, lines, low) == end
    ensures RowsBetween(space, lines, low, BlockEnd(space, lines, low)) == rows
  {
    RulerIsSkipped(space, lines, low, end);
  }

  lemma BlockOfRows(space: char -> bool, lines: seq<string>, low: nat, rows: seq<Cells>)
    requires low + 1 + |rows| <= |lines| && IsTableLine(space, lines[low]) && IsRuler(CellsOf(space, lines[low]))
    requires RowsAt(space, lines, low + 1, rows)
    requires low + 1 + |rows| < |lines| ==> !IsTableLine(space, lines[low + 1 + |rows|])
    ensures RowsBetween(space, lines, low, BlockEnd(space, lines, low)) == rows
  {
    var end := low + 1 + |rows|;
    assert BlockEnd(space, lines, low) == end by {
      RowsAreTableLines(space, lines, low, rows);
      BlockEndsAt(space, lines, low, end);
    }
    assert RowsBetween(space, lines, low + 1, end) == rows by { RowsAreRead(space, lines, low + 1, rows); }
    RowsFromBlock(space, lines, low, end, rows);
  }

  lemma {:induction false} RulerIsSkipped(space: char -> bool, lines: seq<string>, low: nat, high: nat)
    requires low < high <= |lines| && IsRuler(CellsOf(space, lines[low]))
    ensures RowsBetween(space, lines, low, high) == RowsBetween(space, lines, low + 1, high)
    decreases high
  {
    if low + 1 < high { RulerIsSkipped(space, lines, low, high - 1); }
  }

  /** A written auxiliary table records the first cells of its rows exactly when its titles
      include the two auxiliary ones and not the coordinate. */
  lemma WrittenAuxiliaryIsRead(space: char -> bool, titles: Cells, rows: seq<Cells>, c: string)
    requires Splitter.Proper(space) && Writable(space, titles) && WritableRows(space, rows) && PlainRows(rows)
    ensures Recorded(space, [Written(titles)] + WrittenAll(rows), |rows| + 1, c) <==>
            && "登记号" in titles && "判定状态" in titles && "定位坐标" !in titles
            && exists k :: 0 <= k < |rows| && rows[k][0] == c
  {
    var lines := [Written(titles)] + WrittenAll(rows);
    AuxiliaryLines(space, titles, rows);
    forall j: nat | 1 <= j <= |rows| ensures RecordedAt(space, lines, j, c) <==> IsAuxiliaryHeader(titles) && c == rows[j - 1][0] {
      RecordedRow(space, lines, titles, rows, j, c);
    }
    RecordedInRows(space, lines, titles, rows, c);
  }

  lemma AuxiliaryLines(space: char -> bool, titles: Cells, rows: seq<Cells>)
    requires Splitter.Proper(space) && Writable(space, titles) && WritableRows(space, rows)
    ensures var lines := [Written(titles)] + WrittenAll(rows);
            IsTableLine(space, lines[0]) && CellsOf(space, lines[0]) == titles && RowsAt(space, lines, 1, rows)
  {
    var lines := [Written(titles)] + WrittenAll(rows);
    assert lines + [] == lines;
    WrittenRowsAt(space, [Written(titles)], rows, []);
    WrittenIsRead(space, titles);
  }

  lemma RecordedRow(space: char -> bool, lines: seq<string>, titles: Cells, rows: seq<Cells>, j: nat, c: string)
    requires PlainRows(rows) && WritableRows(space, rows) && |lines| == |rows| + 1 && 1 <= j <= |rows|
    requires IsTableLine(space, lines[0]) && CellsOf(space, lines[0]) == titles && RowsAt(space, lines, 1, rows)
    ensures RecordedAt(space, lines, j, c) <==> IsAuxiliaryHeader(titles) && c == rows[j - 1][0]
  {
    FirstCellIsRead(space, rows[j - 1]);
    BelowTitles(space, lines, titles, rows, j, c);
  }

  lemma RecordedInRows(space: char -> bool, lines: seq<string>, titles: Cells, rows: seq<Cells>, c: string)
    requires PlainRows(rows)
    requires forall j: nat :: 1 <= j <= |rows| ==> (RecordedAt(space, lines, j, c) <==> IsAuxiliaryHeader(titles) && c == rows[j - 1][0])
    ensures Recorded(space, lines, |rows| + 1, c) <==> IsAuxiliaryHeader(titles) && exists k :: 0 <= k < |rows| && rows[k][0] == c
  {
    NothingInFirst(space, lines, c);
    if k: nat :| k < |rows| && rows[k][0] == c {
      assert IsAuxiliaryHeader(titles) ==> RecordedAt(space, lines, k + 1, c);
    }
  }

  /** Rows of two cells or more that are no auxiliary headers themselves. */
  ghost predicate PlainRows(rows: seq<Cells>) {
    forall k :: 0 <= k < |rows| ==> |rows[k]| > 1 && "登记号" !in rows[k]
  }

  lemma NothingInFirst(space: char -> bool, lines: seq<string>, c: string)
    ensures !RecordedAt(space, lines, 0, c)
  {
  }

  lemma FirstCellIsRead(space: char -> bool, row: Cells)
    requires Writable(space, row)
    ensures row != [] && Texts.Strip(space, row[0]) == row[0]
  {
    Texts.TrimmedStays(space, row[0]);
  }

  lemma BelowTitles(space: char -> bool, lines: seq<string>, titles: Cells, rows: seq<Cells>, j: nat, c: string)
    requires PlainRows(rows) && |lines| == |rows| + 1 && 1 <= j <= |rows| && Texts.Strip(space, rows[j - 1][0]) == rows[j - 1][0]
    requires IsTableLine(space, lines[0]) && CellsOf(space, lines[0]) == titles && RowsAt(space, lines, 1, rows)
    ensures RecordedAt(space, lines, j, c) <==> IsAuxiliaryHeader(titles) && c == rows[j - 1][0]
  {
    assert RowAtLine(space, lines, 1 + (j - 1), rows[j - 1]);
    if IsAuxiliaryHeader(titles) {
      forall i | 0 <= i < j ensures IsTableLine(space, lines[i]) {
        assert i > 0 ==> RowAtLine(space, lines, 1 + (i - 1), rows[i - 1]);
      }
      assert BlockHeader(space, lines, 0, j);
    }
    if h: nat :| BlockHeader(space, lines, h, j) {
      assert h > 0 ==> RowAtLine(space, lines, 1 + (h - 1), rows[h - 1]);
    }
  }
}
