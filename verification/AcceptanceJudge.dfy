/** The acceptance judge: one matrix, one report, one head, and what an empty list of
    findings says about all three. */
module AcceptanceJudge {
  import opened Wrappers
  import opened Sorting
  import opened AcceptanceReport
  import opened MatrixTable
  import Scanner = CoordinateScanner
  import Status = AcceptanceStatus

  const JUDGEMENT_STATUSES := {Status.PASS, Status.FAIL, Status.NOT_RUN, Status.DEFERRED_MANUAL}
  const DELIVERY_CLASSES := {"已交付", "证据缺失", "未交付"}

  // ---- One row ----

  datatype RowFinding =
    | BadCoordinate | ImplRow | BadStatus | BadDelivery
    | PassNoCase | PassNoCommand | PassNoHead | PassOldHead | PassUnsupported
    | NoReport | DeferredElsewhere | Unregistered | RegistryNoReason | RegistryNoUnblock
    | NotCarried | CarriedNoCondition | CarriedNoTicket

  predicate IsPoint(lex: Lexicon, coordinate: string) {
    Scanner.CoordinateAt(lex.tables, coordinate, 0, |coordinate|)
  }

  predicate IsImpl(coordinate: string) { "IMPL" <= coordinate }

  /** An acceptance point, as opposed to an implementation decision. */
  predicate Counts(lex: Lexicon, coordinate: string) {
    IsPoint(lex, coordinate) && !IsImpl(coordinate)
  }

  predicate HeadMatches(lex: Lexicon, token: string, judgedHead: string) {
    lex.lower(token) <= lex.lower(judgedHead)
  }

  /** Some recorded head is the judged head or a short form of it. */
  predicate BoundToHead(lex: Lexicon, evidence: string, judgedHead: string) {
    exists k :: 0 <= k < |lex.heads(evidence)| && HeadMatches(lex, lex.heads(evidence)[k], judgedHead)
  }

  /** The first of evidence and note that names a release condition. */
  function ConditionCell(lex: Lexicon, cells: RowCells): string {
    if lex.namesCondition(cells.evidence) then cells.evidence
    else if lex.namesCondition(cells.note) then cells.note else ""
  }

  ghost predicate PassedIn(lex: Lexicon, r: Report, c: string) { PassedBy(lex, Nodes(r.passed), c) }

  ghost predicate DeferredIn(lex: Lexicon, r: Report, c: string) { DeferredBy(lex, Nodes(r.passed) + Nodes(r.notRun), c) }

  /** The first not-run entry that names the coordinate. */
  ghost predicate RegisteredAs(lex: Lexicon, r: Report, c: string, e: Entry) {
    exists k: nat :: FirstNames(lex, Nodes(r.notRun), k, c) && Nodes(r.notRun)[k].entry == e
  }

  /** The evidence is incomplete, or not bound to the judged head. */
  predicate EvidenceFault(lex: Lexicon, cells: RowCells, head: string, f: RowFinding) {
    || (f.PassNoCase? && !lex.namedCase(cells.evidence))
    || (f.PassNoCommand? && lex.commands(cells.evidence) == [])
    || (f.PassNoHead? && lex.heads(cells.evidence) == [])
    || (f.PassOldHead? && lex.heads(cells.evidence) != [] && !BoundToHead(lex, cells.evidence, head))
  }

  ghost predicate PassFault(lex: Lexicon, cells: RowCells, report: Option<Report>, head: string, f: RowFinding) {
    || EvidenceFault(lex, cells, head, f)
    || (f.NoReport? && report.None?)
    || (f.PassUnsupported? && report.Some? && !PassedIn(lex, report.value, cells.coordinate))
  }

  ghost predicate NotRunFault(lex: Lexicon, cells: RowCells, report: Option<Report>, f: RowFinding) {
    var c := cells.coordinate;
    var registrable := report.Some? && !DeferredIn(lex, report.value, c);
    match f
    case NoReport => report.None?
    case DeferredElsewhere => report.Some? && DeferredIn(lex, report.value, c)
    case Unregistered => registrable && forall e :: !RegisteredAs(lex, report.value, c, e)
    case RegistryNoReason => registrable && exists e :: RegisteredAs(lex, report.value, c, e) && Blank(lex, Shown(e, "reason"))
    case RegistryNoUnblock => registrable && exists e :: RegisteredAs(lex, report.value, c, e) && Blank(lex, Shown(e, "unblock"))
    case _ => false
  }

  ghost predicate DeferredFault(lex: Lexicon, cells: RowCells, report: Option<Report>, f: RowFinding) {
    match f
    case NoReport => report.None?
    case NotCarried => report.Some? && !DeferredIn(lex, report.value, cells.coordinate)
    case CarriedNoCondition => Blank(lex, ConditionCell(lex, cells))
    case CarriedNoTicket => !lex.namesTicket(ConditionCell(lex, cells))
    case _ => false
  }

  /** The findings a row deserves; a `FAIL` row that is well formed deserves none. */
  ghost predicate RowFault(lex: Lexicon, cells: RowCells, report: Option<Report>, head: string, f: RowFinding) {
    if !IsPoint(lex, cells.coordinate) then f.BadCoordinate?
    else if IsImpl(cells.coordinate) then f.ImplRow?
    else if cells.claimed !in JUDGEMENT_STATUSES then f.BadStatus?
    else
      || (cells.claimed == Status.PASS && (PassFault(lex, cells, report, head, f) || (f.BadDelivery? && cells.delivery !in DELIVERY_CLASSES)))
      || (cells.claimed == Status.NOT_RUN && NotRunFault(lex, cells, report, f))
      || (cells.claimed == Status.DEFERRED_MANUAL && DeferredFault(lex, cells, report, f))
  }

  /** The place of a finding among those of one row. */
  function Place(f: RowFinding): nat {
    match f
    case BadCoordinate => 0
    case ImplRow => 1
    case BadStatus => 2
    case BadDelivery => 3
    case PassNoCase => 4
    case PassNoCommand => 5
    case PassNoHead => 6
    case PassOldHead => 7
    case PassUnsupported => 8
    case NoReport => 9
    case DeferredElsewhere => 10
    case Unregistered => 11
    case RegistryNoReason => 12
    case RegistryNoUnblock => 13
    case NotCarried => 14
    case CarriedNoCondition => 15
    case CarriedNoTicket => 16
  }

  /** The findings stand in the order of the tests, and all before the given place. */
  predicate Noted(fs: seq<RowFinding>, place: nat) {
    fs != [] ==> Place(fs[|fs| - 1]) < place && Noted(fs[..|fs| - 1], Place(fs[|fs| - 1]))
  }

  lemma {:induction false} NotedAscend(fs: seq<RowFinding>, place: nat, i: nat, j: nat)
    requires Noted(fs, place) && i < j < |fs|
    ensures Place(fs[i]) < Place(fs[j]) < place
  {
    var n := |fs| - 1;
    if j < n { NotedAscend(fs[..n], Place(fs[n]), i, j); }
    else if i + 1 < n { NotedAscend(fs[..n], Place(fs[n]), i, n - 1); }
  }

  class Row {
    const cells: RowCells
    var findings: seq<RowFinding>

    constructor (cells: RowCells)
      ensures this.cells == cells && findings == []
    {
      this.cells := cells;
      findings := [];
    }

    method Note(condition: bool, finding: RowFinding)
      requires Noted(findings, Place(finding))
      modifies this`findings
      ensures forall f :: f in findings <==> f in old(findings) || (condition && f == finding)
      ensures Noted(findings, Place(finding) + 1)
    {
      if condition {
        assert (findings + [finding])[..|findings|] == findings;
        findings := findings + [finding];
      }
    }
  }

  /** What the index says is what the report says. */
  ghost predicate Agrees(lex: Lexicon, report: Option<Report>, index: Index) {
    index.hasReport == report.Some? && (report.Some? ==> Indexes(lex, report.value, index))
  }

  /** What the index says about one coordinate is what the report says about it. */
  ghost predicate Answers(lex: Lexicon, report: Option<Report>, index: Index, c: string) {
    && index.hasReport == report.Some?
    && (report.Some? ==>
          && (c in index.passed <==> PassedIn(lex, report.value, c))
          && (c in index.deferred <==> DeferredIn(lex, report.value, c))
          && (c in index.notRun ==> RegisteredAs(lex, report.value, c, index.notRun[c]))
          && forall e :: RegisteredAs(lex, report.value, c, e) ==> c in index.notRun && e == index.notRun[c])
  }

  lemma IndexAnswers(lex: Lexicon, report: Option<Report>, index: Index, c: string)
    requires Agrees(lex, report, index)
    ensures Answers(lex, report, index, c)
  {
    if report.Some? {
      var r := report.value;
      var nodes := Nodes(r.notRun);
      forall e | RegisteredAs(lex, r, c, e) ensures c in index.notRun && e == index.notRun[c] {
        var k: nat :| FirstNames(lex, nodes, k, c) && nodes[k].entry == e;
        assert c in index.notRun;
        var j: nat :| FirstNames(lex, nodes, j, c) && index.notRun[c] == nodes[j].entry;
        assert j == k;
      }
    }
  }

  method JudgeEvidence(lex: Lexicon, row: Row, head: string)
    requires Noted(row.findings, 4)
    modifies row`findings
    ensures forall f :: f in row.findings <==> f in old(row.findings) || EvidenceFault(lex, row.cells, head, f)
    ensures Noted(row.findings, 8)
  {
    var evidence := row.cells.evidence;
    row.Note(!lex.namedCase(evidence), PassNoCase);
    row.Note(lex.commands(evidence) == [], PassNoCommand);
    if lex.heads(evidence) == [] {
      row.Note(true, PassNoHead);
    } else {
      row.Note(!BoundToHead(lex, evidence, head), PassOldHead);
    }
  }

  method JudgePassRow(lex: Lexicon, row: Row, ghost report: Option<Report>, index: Index, head: string)
    requires Answers(lex, report, index, row.cells.coordinate)
    requires Noted(row.findings, 4)
    modifies row`findings
    ensures forall f :: f in row.findings <==>
              f in old(row.findings) || PassFault(lex, row.cells, report, head, f)
    ensures Noted(row.findings, 17)
  {
    JudgeEvidence(lex, row, head);
    if !index.hasReport {
      row.Note(true, NoReport);
    } else {
      row.Note(row.cells.coordinate !in index.passed, PassUnsupported);
    }
  }

  /** What a not-run row deserves, as far as the index tells. */
  predicate IndexedNotRunFault(lex: Lexicon, cells: RowCells, index: Index, f: RowFinding) {
    var c := cells.coordinate;
    if !index.hasReport then f.NoReport?
    else if c in index.deferred then f.DeferredElsewhere?
    else if c !in index.notRun then f.Unregistered?
    else
      || (f.RegistryNoReason? && Blank(lex, Shown(index.notRun[c], "reason")))
      || (f.RegistryNoUnblock? && Blank(lex, Shown(index.notRun[c], "unblock")))
  }

  lemma IndexTellsNotRun(lex: Lexicon, cells: RowCells, report: Option<Report>, index: Index, f: RowFinding)
    requires Answers(lex, report, index, cells.coordinate)
    ensures NotRunFault(lex, cells, report, f) <==> IndexedNotRunFault(lex, cells, index, f)
  {
  }

  method JudgeNotRunRow(lex: Lexicon, row: Row, index: Index)
    requires Noted(row.findings, 4)
    modifies row`findings
    ensures forall f :: f in row.findings <==>
              f in old(row.findings) || IndexedNotRunFault(lex, row.cells, index, f)
    ensures Noted(row.findings, 17)
  {
    var coordinate := row.cells.coordinate;
    if !index.hasReport {
      row.Note(true, NoReport);
      return;
    }
    if coordinate in index.deferred {
      row.Note(true, DeferredElsewhere);
      return;
    }
    if coordinate !in index.notRun {
      row.Note(true, Unregistered);
      return;
    }
    var entry := index.notRun[coordinate];
    row.Note(Blank(lex, Shown(entry, "reason")), RegistryNoReason);
    row.Note(Blank(lex, Shown(entry, "unblock")), RegistryNoUnblock);
  }

  method JudgeDeferredRow(lex: Lexicon, row: Row, ghost report: Option<Report>, index: Index)
    requires Answers(lex, report, index, row.cells.coordinate)
    requires Noted(row.findings, 4)
    modifies row`findings
    ensures forall f :: f in row.findings <==>
              f in old(row.findings) || DeferredFault(lex, row.cells, report, f)
    ensures Noted(row.findings, 17)
  {
    if !index.hasReport {
      row.Note(true, NoReport);
    } else {
      row.Note(row.cells.coordinate !in index.deferred, NotCarried);
    }
    var cell := ConditionCell(lex, row.cells);
    row.Note(Blank(lex, cell), CarriedNoCondition);
    row.Note(!lex.namesTicket(cell), CarriedNoTicket);
  }

  /** A row ends up with exactly the findings it deserves. */
  method JudgeRow(lex: Lexicon, row: Row, ghost report: Option<Report>, index: Index, head: string)
    requires row.findings == [] && Agrees(lex, report, index)
    modifies row`findings
    ensures forall f :: f in row.findings <==> RowFault(lex, row.cells, report, head, f)
    ensures Noted(row.findings, 17)
  {
    var claimed := row.cells.claimed;
    IndexAnswers(lex, report, index, row.cells.coordinate);
    if !IsPoint(lex, row.cells.coordinate) {
      row.Note(true, BadCoordinate);
      return;
    }
    if IsImpl(row.cells.coordinate) {
      row.Note(true, ImplRow);
      return;
    }
    if claimed !in JUDGEMENT_STATUSES {
      row.Note(true, BadStatus);
      return;
    }
    row.Note(claimed == Status.PASS && row.cells.delivery !in DELIVERY_CLASSES, BadDelivery);
    if claimed == Status.PASS {
      JudgePassRow(lex, row, report, index, head);
    } else if claimed == Status.NOT_RUN {
      forall f { IndexTellsNotRun(lex, row.cells, report, index, f); }
      JudgeNotRunRow(lex, row, index);
    } else if claimed == Status.DEFERRED_MANUAL {
      JudgeDeferredRow(lex, row, report, index);
    }
  }

  // ---- The whole judgement ----

  datatype Finding =
    | NoRules | NoRulesCommit | NoTotal | NoTable | WrongTotal
    | InReport(reportFinding: ReportFinding)
    | OnRow(line: nat, rowFinding: RowFinding)
    | NoRowFor(coordinate: string)

  function Points(lex: Lexicon, rows: seq<RowCells>): (n: nat)
    ensures n <= |rows|
    ensures n == |rows| <==> forall k :: 0 <= k < |rows| ==> Counts(lex, rows[k].coordinate)
  {
    if rows == [] then 0
    else
      var last := |rows| - 1;
      Points(lex, rows[..last]) + if Counts(lex, rows[last].coordinate) then 1 else 0
  }

  /** The matrix has a row for the coordinate, in its judgement table or an auxiliary one. */
  ghost predicate Seen(lex: Lexicon, lines: seq<string>, rows: seq<RowCells>, c: string) {
    HasRow(lex, rows, c) || (Counts(lex, c) && Recorded(lex.marks.space, lines, |lines|, c))
  }

  predicate HasRow(lex: Lexicon, rows: seq<RowCells>, c: string) {
    IsPoint(lex, c) && exists k :: 0 <= k < |rows| && rows[k].coordinate == c
  }

  function MatrixRows(lex: Lexicon, text: string): Option<seq<RowCells>> {
    var table := TableIn(lex.marks.space, lex.lines(text));
    if table.None? then None else Some(RowsOf(lex.marks, table.value))
  }

  predicate TotalFault(lex: Lexicon, text: string, rows: seq<RowCells>, f: Finding) {
    f.WrongTotal? && lex.declaredTotal(text).Some? && Points(lex, rows) != lex.declaredTotal(text).value
  }

  ghost predicate RowsFault(lex: Lexicon, rows: seq<RowCells>, report: Option<Report>, head: string, f: Finding) {
    f.OnRow? && 1 <= f.line <= |rows| && RowFault(lex, rows[f.line - 1], report, head, f.rowFinding)
  }

  ghost predicate MissingFault(lex: Lexicon, lines: seq<string>, rows: seq<RowCells>, report: Option<Report>, f: Finding) {
    f.NoRowFor? && report.Some? && PassedIn(lex, report.value, f.coordinate) && !Seen(lex, lines, rows, f.coordinate)
  }

  /** What is wrong with the matrix once its rows are known. */
  ghost predicate TableFault(lex: Lexicon, text: string, rows: seq<RowCells>, report: Option<Report>, head: string, f: Finding) {
    || TotalFault(lex, text, rows, f)
    || RowsFault(lex, rows, report, head, f)
    || MissingFault(lex, lex.lines(text), rows, report, f)
  }

  predicate CitationFault(lex: Lexicon, text: string, f: Finding) {
    || (f.NoRules? && !lex.namesRules(text))
    || (f.NoRulesCommit? && !lex.namesCommit(text))
    || (f.NoTotal? && lex.declaredTotal(text).None?)
  }

  ghost predicate MatrixFault(lex: Lexicon, text: string, report: Option<Report>, head: string, f: Finding) {
    if MatrixRows(lex, text).None? then f.NoTable?
    else TableFault(lex, text, MatrixRows(lex, text).value, report, head, f)
  }

  ghost predicate Fault(lex: Lexicon, text: string, report: Option<Report>, head: string, f: Finding) {
    || (text != "" && CitationFault(lex, text, f))
    || (f.InReport? && report.Some? && ReportFault(lex, report.value, f.reportFinding))
    || (text != "" && MatrixFault(lex, text, report, head, f))
  }

  method CitationProblems(lex: Lexicon, text: string) returns (findings: seq<Finding>)
    ensures forall f :: f in findings <==> CitationFault(lex, text, f)
    ensures Listed(findings, 0, 2)
  {
    findings := When(!lex.namesRules(text), NoRules);
    findings := findings + When(!lex.namesCommit(text), NoRulesCommit);
    findings := findings + When(lex.declaredTotal(text).None?, NoTotal);
  }

  // ---- The order of findings ----

  function Rank(f: Finding): nat {
    match f
    case NoRules => 0
    case NoRulesCommit => 1
    case NoTotal => 2
    case InReport(_) => 3
    case NoTable => 4
    case WrongTotal => 4
    case OnRow(_, _) => 5
    case NoRowFor(_) => 6
  }

  /** The order in which findings are listed: citation, report, table, rows by number and
      each in the order of its tests, and missing rows by coordinate. */
  predicate Follows(f: Finding, g: Finding) {
    Rank(f) < Rank(g) || (Rank(f) == Rank(g) && match f
                          case InReport(r) => Sooner(r, g.reportFinding)
                          case OnRow(line, r) => line < g.line || (line == g.line && Place(r) < Place(g.rowFinding))
                          case NoRowFor(c) => TextBefore(c, g.coordinate)
                          case _ => false)
  }

  ghost predicate Listed(fs: seq<Finding>, low: nat, high: nat) {
    Ascending(fs, Follows) && forall f :: f in fs ==> low <= Rank(f) <= high
  }

  lemma ListedOn(a: seq<Finding>, b: seq<Finding>, low: nat, high: nat)
    requires Listed(a, low, high) && Listed(b, low, high)
    requires forall f, g :: f in a && g in b ==> Follows(f, g)
    ensures Listed(a + b, low, high)
  {
    var all := a + b;
    forall i, j | 0 <= i < j < |all| ensures Follows(all[i], all[j]) {
      if i < |a| <= j { assert all[i] in a && all[j] in b; }
    }
  }

  lemma ListedAppend(a: seq<Finding>, b: seq<Finding>, low: nat, middle: nat, high: nat)
    requires low <= middle < high && Listed(a, low, middle) && Listed(b, middle + 1, high)
    ensures Listed(a + b, low, high)
  {
    ListedOn(a, b, low, high);
  }

  // ---- The loops ----

  function InReports(findings: seq<ReportFinding>): (r: seq<Finding>)
    ensures |r| == |findings| && forall k :: 0 <= k < |r| ==> r[k] == InReport(findings[k])
  {
    seq(|findings|, k requires 0 <= k < |findings| => InReport(findings[k]))
  }

  lemma InReportsHolds(findings: seq<ReportFinding>, f: Finding)
    ensures f in InReports(findings) <==> f.InReport? && f.reportFinding in findings
  {
    if f.InReport? && f.reportFinding in findings {
      var k :| 0 <= k < |findings| && findings[k] == f.reportFinding;
      assert InReports(findings)[k] == f;
    }
  }

  lemma ReportIsListed(findings: seq<ReportFinding>)
    requires InReportOrder(findings)
    ensures Listed(InReports(findings), 3, 3)
  {
    var fs := InReports(findings);
    forall i, j | 0 <= i < j < |fs| ensures Follows(fs[i], fs[j]) {
      assert fs[i] == InReport(findings[i]) && fs[j] == InReport(findings[j]);
    }
  }

  function OnLine(line: nat, findings: seq<RowFinding>): (r: seq<Finding>)
    ensures |r| == |findings| && forall k :: 0 <= k < |r| ==> r[k] == OnRow(line, findings[k])
  {
    seq(|findings|, k requires 0 <= k < |findings| => OnRow(line, findings[k]))
  }

  lemma OnLineHolds(line: nat, findings: seq<RowFinding>, f: Finding)
    ensures f in OnLine(line, findings) <==> f.OnRow? && f.line == line && f.rowFinding in findings
  {
    if f.OnRow? && f.line == line && f.rowFinding in findings {
      var k :| 0 <= k < |findings| && findings[k] == f.rowFinding;
      assert OnLine(line, findings)[k] == f;
    }
  }

  method CountPoints(lex: Lexicon, rows: seq<RowCells>) returns (counted: nat)
    ensures counted == Points(lex, rows)
  {
    counted := 0;
    for k := 0 to |rows|
      invariant counted == Points(lex, rows[..k])
    {
      assert rows[..k + 1][..k] == rows[..k];
      if Counts(lex, rows[k].coordinate) {
        counted := counted + 1;
      }
    }
    assert rows[..|rows|] == rows;
  }

  lemma RowsFaultGrows(lex: Lexicon, rows: seq<RowCells>, last: RowCells, report: Option<Report>, head: string, f: Finding)
    ensures RowsFault(lex, rows + [last], report, head, f) <==>
            || RowsFault(lex, rows, report, head, f)
            || (f.OnRow? && f.line == |rows| + 1 && RowFault(lex, last, report, head, f.rowFinding))
  {
  }

  lemma HasRowGrows(lex: Lexicon, rows: seq<RowCells>, last: RowCells, c: string)
    ensures HasRow(lex, rows + [last], c) <==> HasRow(lex, rows, c) || (IsPoint(lex, c) && last.coordinate == c)
  {
    var more := rows + [last];
    assert more[|rows|] == last;
    if HasRow(lex, rows, c) {
      var k :| 0 <= k < |rows| && rows[k].coordinate == c;
      assert more[k] == rows[k];
    }
  }

  lemma LineIsListed(line: nat, own: seq<RowFinding>)
    requires Noted(own, 17)
    ensures Listed(OnLine(line, own), 5, 5)
  {
    var fs := OnLine(line, own);
    forall i, j | 0 <= i < j < |fs| ensures Follows(fs[i], fs[j]) {
      NotedAscend(own, 17, i, j);
      assert fs[i] == OnRow(line, own[i]) && fs[j] == OnRow(line, own[j]);
    }
  }

  lemma NextLine(before: seq<Finding>, line: nat, own: seq<RowFinding>)
    requires Noted(own, 17) && Listed(before, 5, 5) && forall f :: f in before ==> f.OnRow? && f.line < line
    ensures Listed(before + OnLine(line, own), 5, 5)
  {
    LineIsListed(line, own);
    forall f, g | f in before && g in OnLine(line, own) ensures Follows(f, g) {
    }
    ListedOn(before, OnLine(line, own), 5, 5);
  }

  /** Judges every row in turn and collects the coordinates that have a row. */
  method JudgeRows(lex: Lexicon, rows: seq<RowCells>, ghost report: Option<Report>, index: Index, head: string)
    returns (findings: seq<Finding>, seen: set<string>)
    requires Agrees(lex, report, index)
    ensures forall f :: f in findings <==> RowsFault(lex, rows, report, head, f)
    ensures Listed(findings, 5, 5)
    ensures forall c :: c in seen <==> HasRow(lex, rows, c)
  {
    findings, seen := [], {};
    for k := 0 to |rows|
      invariant forall f :: f in findings <==> RowsFault(lex, rows[..k], report, head, f)
      invariant Listed(findings, 5, 5)
      invariant forall c :: c in seen <==> HasRow(lex, rows[..k], c)
    {
      assert rows[..k + 1] == rows[..k] + [rows[k]];
      forall f { RowsFaultGrows(lex, rows[..k], rows[k], report, head, f); }
      forall c { HasRowGrows(lex, rows[..k], rows[k], c); }
      var row := new Row(rows[k]);
      JudgeRow(lex, row, report, index, head);
      NextLine(findings, k + 1, row.findings);
      forall f { OnLineHolds(k + 1, row.findings, f); }
      findings := findings + OnLine(k + 1, row.findings);
      if IsPoint(lex, rows[k].coordinate) {
        seen := seen + {rows[k].coordinate};
      }
    }
    assert rows[..|rows|] == rows;
  }

  method CrossCheck(passed: set<string>, seen: set<string>) returns (findings: seq<Finding>)
    ensures forall f :: f in findings <==> f.NoRowFor? && f.coordinate in passed && f.coordinate !in seen
    ensures Listed(findings, 6, 6)
  {
    var missing := SortTexts(passed - seen);
    findings := [];
    for k := 0 to |missing|
      invariant |findings| == k && forall j :: 0 <= j < k ==> findings[j] == NoRowFor(missing[j])
    {
      findings := findings + [NoRowFor(missing[k])];
    }
    forall f ensures f in findings <==> f.NoRowFor? && f.coordinate in passed && f.coordinate !in seen {
      if f.NoRowFor? && f.coordinate in missing {
        var k :| 0 <= k < |missing| && missing[k] == f.coordinate;
        assert findings[k] == f;
      }
    }
  }

  lemma SeenIsSeen(lex: Lexicon, lines: seq<string>, rows: seq<RowCells>, seen: set<string>, auxiliary: set<string>)
    requires forall c :: c in seen <==> HasRow(lex, rows, c)
    requires Collected(lex.marks.space, lines, c => Counts(lex, c), |lines|, auxiliary)
    ensures forall c :: c in seen + auxiliary <==> Seen(lex, lines, rows, c)
  {
  }

  method JudgeTable(lex: Lexicon, text: string, rows: seq<RowCells>, report: Option<Report>, index: Index, head: string)
    returns (findings: seq<Finding>)
    requires Agrees(lex, report, index)
    ensures forall f :: f in findings <==> TableFault(lex, text, rows, report, head, f)
    ensures Listed(findings, 4, 6)
  {
    var lines := lex.lines(text);
    var counted := CountPoints(lex, rows);
    var expected := lex.declaredTotal(text);
    var onTotal: seq<Finding> := When(expected.Some? && counted != expected.value, WrongTotal);
    assert forall f :: f in onTotal <==> TotalFault(lex, text, rows, f);
    var onRows, seen := JudgeRows(lex, rows, report, index, head);
    var missing := FindMissing(lex, lines, rows, report, index, seen);
    ListedAppend(onTotal, onRows, 4, 4, 5);
    ListedAppend(onTotal + onRows, missing, 4, 5, 6);
    findings := onTotal + onRows + missing;
  }

  method FindMissing(lex: Lexicon, lines: seq<string>, rows: seq<RowCells>, report: Option<Report>, index: Index, seen: set<string>)
    returns (findings: seq<Finding>)
    requires Agrees(lex, report, index) && forall c :: c in seen <==> HasRow(lex, rows, c)
    ensures forall f :: f in findings <==> MissingFault(lex, lines, rows, report, f)
    ensures Listed(findings, 6, 6)
  {
    findings := [];
    var auxiliary := AuxiliaryCoordinates(lex.marks.space, lines, c => Counts(lex, c));
    SeenIsSeen(lex, lines, rows, seen, auxiliary);
    if report.Some? {
      findings := CrossCheck(index.passed, seen + auxiliary);
      forall c { IndexAnswers(lex, report, index, c); }
    }
  }

  // ---- What finding nothing means ----

  /** An entry of `passed[]` that ran, names the coordinate and stands up by itself. */
  ghost predicate Supported(lex: Lexicon, r: Report, c: string) {
    exists k :: 0 <= k < |Nodes(r.passed)| && Names(lex, Nodes(r.passed)[k], c) && RanPassed(lex, Nodes(r.passed)[k].entry)
                && EntryClean(lex, Nodes(r.passed)[k].entry, DocumentTicket(lex, r), true)
  }

  /** A deferred entry of either list that names the coordinate, a condition and a ticket. */
  ghost predicate Carried(lex: Lexicon, r: Report, c: string) {
    var nodes := Nodes(r.passed) + Nodes(r.notRun);
    exists k :: 0 <= k < |nodes| && Names(lex, nodes[k], c) && Deferred(lex, nodes[k].entry)
                && CarriesDeferral(lex, nodes[k].entry, DocumentTicket(lex, r))
  }

  ghost predicate PassBacked(lex: Lexicon, cells: RowCells, r: Report, head: string) {
    && HasTriple(lex, cells.evidence) && BoundToHead(lex, cells.evidence, head)
    && Supported(lex, r, cells.coordinate)
  }

  ghost predicate NotRunBacked(lex: Lexicon, cells: RowCells, r: Report) {
    && !DeferredIn(lex, r, cells.coordinate)
    && exists e :: RegisteredAs(lex, r, cells.coordinate, e) && NamesWhyAndWhen(lex, e)
  }

  ghost predicate DeferralBacked(lex: Lexicon, cells: RowCells, r: Report) {
    Carried(lex, r, cells.coordinate) && CellCarries(lex, cells)
  }

  /** A well-formed row whose status is backed by the evidence and by the report. */
  ghost predicate RowBacked(lex: Lexicon, cells: RowCells, r: Report, head: string) {
    && Counts(lex, cells.coordinate) && cells.claimed in JUDGEMENT_STATUSES
    && (cells.claimed == Status.PASS ==> cells.delivery in DELIVERY_CLASSES && PassBacked(lex, cells, r, head))
    && (cells.claimed == Status.NOT_RUN ==> NotRunBacked(lex, cells, r))
    && (cells.claimed == Status.DEFERRED_MANUAL ==> DeferralBacked(lex, cells, r))
  }

  ghost predicate TableAccepted(lex: Lexicon, text: string, rows: seq<RowCells>, r: Report, head: string) {
    && (lex.declaredTotal(text).Some? ==> lex.declaredTotal(text).value == |rows|)
    && (forall k :: 0 <= k < |rows| ==> RowBacked(lex, rows[k], r, head))
    && forall c :: PassedIn(lex, r, c) ==> Seen(lex, lex.lines(text), rows, c)
  }

  ghost predicate Accepted(lex: Lexicon, text: string, r: Report, head: string) {
    && lex.namesRules(text) && lex.namesCommit(text)
    && ReportClean(lex, r)
    && MatrixRows(lex, text).Some? && lex.declaredTotal(text).Some?
    && TableAccepted(lex, text, MatrixRows(lex, text).value, r, head)
  }

  lemma SupportedExactly(lex: Lexicon, r: Report, c: string)
    requires ReportClean(lex, r)
    ensures Supported(lex, r, c) <==> PassedIn(lex, r, c)
  {
  }

  lemma CarriedExactly(lex: Lexicon, r: Report, c: string)
    requires ReportClean(lex, r)
    ensures Carried(lex, r, c) <==> DeferredIn(lex, r, c)
  {
    var nodes := Nodes(r.passed) + Nodes(r.notRun);
    if DeferredIn(lex, r, c) {
      var k :| 0 <= k < |nodes| && Names(lex, nodes[k], c) && Deferred(lex, nodes[k].entry);
      if k < |Nodes(r.passed)| {
        assert EntryClean(lex, Nodes(r.passed)[k].entry, DocumentTicket(lex, r), true);
      } else {
        assert EntryClean(lex, Nodes(r.notRun)[k - |Nodes(r.passed)|].entry, DocumentTicket(lex, r), false);
      }
    }
  }

  lemma EvidenceFaults(lex: Lexicon, cells: RowCells, head: string)
    ensures HasTriple(lex, cells.evidence) && BoundToHead(lex, cells.evidence, head) <==>
            forall f :: !EvidenceFault(lex, cells, head, f)
  {
    if forall f :: !EvidenceFault(lex, cells, head, f) {
      assert !EvidenceFault(lex, cells, head, PassNoCase);
      assert !EvidenceFault(lex, cells, head, PassNoCommand);
      assert !EvidenceFault(lex, cells, head, PassNoHead);
      assert !EvidenceFault(lex, cells, head, PassOldHead);
    }
  }

  lemma PassFaults(lex: Lexicon, cells: RowCells, r: Report, head: string)
    ensures HasTriple(lex, cells.evidence) && BoundToHead(lex, cells.evidence, head) && PassedIn(lex, r, cells.coordinate) <==>
            forall f :: !PassFault(lex, cells, Some(r), head, f)
  {
    EvidenceFaults(lex, cells, head);
    if forall f :: !PassFault(lex, cells, Some(r), head, f) {
      forall f ensures !EvidenceFault(lex, cells, head, f) { assert !PassFault(lex, cells, Some(r), head, f); }
      assert !PassFault(lex, cells, Some(r), head, PassUnsupported);
    }
  }

  lemma PassExactly(lex: Lexicon, cells: RowCells, r: Report, head: string)
    requires ReportClean(lex, r)
    ensures PassBacked(lex, cells, r, head) <==> forall f :: !PassFault(lex, cells, Some(r), head, f)
  {
    PassFaults(lex, cells, r, head);
    SupportedExactly(lex, r, cells.coordinate);
  }

  lemma OnlyOneRegistered(lex: Lexicon, r: Report, c: string, e: Entry, other: Entry)
    requires RegisteredAs(lex, r, c, e) && RegisteredAs(lex, r, c, other)
    ensures e == other
  {
    var nodes := Nodes(r.notRun);
    var j: nat :| FirstNames(lex, nodes, j, c) && nodes[j].entry == e;
    var k: nat :| FirstNames(lex, nodes, k, c) && nodes[k].entry == other;
    assert j == k;
  }

  lemma NotRunIsIndexed(lex: Lexicon, cells: RowCells, r: Report)
    ensures NotRunFault(lex, cells, Some(r), DeferredElsewhere) <==> DeferredIn(lex, r, cells.coordinate)
    ensures NotRunFault(lex, cells, Some(r), Unregistered) <==>
            !DeferredIn(lex, r, cells.coordinate) && forall e :: !RegisteredAs(lex, r, cells.coordinate, e)
  {
  }

  lemma RegistryFaults(lex: Lexicon, cells: RowCells, r: Report, e: Entry)
    requires !DeferredIn(lex, r, cells.coordinate) && RegisteredAs(lex, r, cells.coordinate, e)
    ensures Blank(lex, Shown(e, "reason")) ==> NotRunFault(lex, cells, Some(r), RegistryNoReason)
    ensures Blank(lex, Shown(e, "unblock")) ==> NotRunFault(lex, cells, Some(r), RegistryNoUnblock)
  {
  }

  lemma NotRunFaultless(lex: Lexicon, cells: RowCells, r: Report, e: Entry, f: RowFinding)
    requires !DeferredIn(lex, r, cells.coordinate)
    requires RegisteredAs(lex, r, cells.coordinate, e) && NamesWhyAndWhen(lex, e)
    ensures !NotRunFault(lex, cells, Some(r), f)
  {
    forall other | RegisteredAs(lex, r, cells.coordinate, other) ensures other == e {
      OnlyOneRegistered(lex, r, cells.coordinate, e, other);
    }
  }

  lemma NotRunExactly(lex: Lexicon, cells: RowCells, r: Report)
    ensures NotRunBacked(lex, cells, r) <==> forall f :: !NotRunFault(lex, cells, Some(r), f)
  {
    NotRunIsIndexed(lex, cells, r);
    if forall f :: !NotRunFault(lex, cells, Some(r), f) {
      assert !NotRunFault(lex, cells, Some(r), DeferredElsewhere) && !NotRunFault(lex, cells, Some(r), Unregistered);
      var e :| RegisteredAs(lex, r, cells.coordinate, e);
      RegistryFaults(lex, cells, r, e);
    }
    if NotRunBacked(lex, cells, r) {
      var e :| RegisteredAs(lex, r, cells.coordinate, e) && NamesWhyAndWhen(lex, e);
      forall f { NotRunFaultless(lex, cells, r, e, f); }
    }
  }

  /** The condition cell carries both carriers. */
  predicate CellCarries(lex: Lexicon, cells: RowCells) {
    !Blank(lex, ConditionCell(lex, cells)) && lex.namesTicket(ConditionCell(lex, cells))
  }

  lemma DeferralIsIndexed(lex: Lexicon, cells: RowCells, r: Report)
    ensures DeferredFault(lex, cells, Some(r), NotCarried) <==> !DeferredIn(lex, r, cells.coordinate)
  {
  }

  lemma CellFaults(lex: Lexicon, cells: RowCells, report: Option<Report>)
    ensures DeferredFault(lex, cells, report, CarriedNoCondition) <==> Blank(lex, ConditionCell(lex, cells))
    ensures DeferredFault(lex, cells, report, CarriedNoTicket) <==> !lex.namesTicket(ConditionCell(lex, cells))
  {
  }

  lemma DeferralFaultless(lex: Lexicon, cells: RowCells, r: Report, f: RowFinding)
    requires DeferredIn(lex, r, cells.coordinate) && CellCarries(lex, cells)
    ensures !DeferredFault(lex, cells, Some(r), f)
  {
  }

  lemma DeferralExactly(lex: Lexicon, cells: RowCells, r: Report)
    requires ReportClean(lex, r)
    ensures DeferralBacked(lex, cells, r) <==> forall f :: !DeferredFault(lex, cells, Some(r), f)
  {
    CarriedExactly(lex, r, cells.coordinate);
    DeferralIsIndexed(lex, cells, r);
    CellFaults(lex, cells, Some(r));
    if DeferralBacked(lex, cells, r) {
      forall f { DeferralFaultless(lex, cells, r, f); }
    }
  }

  /** A row of one of the four statuses deserves what its status deserves. */
  lemma FaultsOfShaped(lex: Lexicon, cells: RowCells, report: Option<Report>, head: string, f: RowFinding)
    requires Counts(lex, cells.coordinate)
    ensures cells.claimed == Status.PASS ==>
              (RowFault(lex, cells, report, head, f) <==>
               PassFault(lex, cells, report, head, f) || (f.BadDelivery? && cells.delivery !in DELIVERY_CLASSES))
    ensures cells.claimed == Status.FAIL ==> !RowFault(lex, cells, report, head, f)
    ensures cells.claimed == Status.NOT_RUN ==> (RowFault(lex, cells, report, head, f) <==> NotRunFault(lex, cells, report, f))
    ensures cells.claimed == Status.DEFERRED_MANUAL ==>
              (RowFault(lex, cells, report, head, f) <==> DeferredFault(lex, cells, report, f))
  {
  }

  lemma FaultsOfMisshapen(lex: Lexicon, cells: RowCells, report: Option<Report>, head: string)
    requires forall f :: !RowFault(lex, cells, report, head, f)
    ensures Counts(lex, cells.coordinate) && cells.claimed in JUDGEMENT_STATUSES
  {
    assert !RowFault(lex, cells, report, head, BadCoordinate);
    assert !RowFault(lex, cells, report, head, ImplRow);
    assert !RowFault(lex, cells, report, head, BadStatus);
  }

  /** Given a clean report, a row deserves no finding exactly when it is backed. */
  lemma RowBackedExactly(lex: Lexicon, cells: RowCells, r: Report, head: string)
    requires ReportClean(lex, r)
    ensures RowBacked(lex, cells, r, head) <==> forall f :: !RowFault(lex, cells, Some(r), head, f)
  {
    if forall f :: !RowFault(lex, cells, Some(r), head, f) { FaultsOfMisshapen(lex, cells, Some(r), head); }
    if Counts(lex, cells.coordinate) {
      forall f { FaultsOfShaped(lex, cells, Some(r), head, f); }
      if cells.claimed == Status.PASS {
        PassExactly(lex, cells, r, head);
        assert PassBacked(lex, cells, r, head) && cells.delivery in DELIVERY_CLASSES ==>
            forall f :: !RowFault(lex, cells, Some(r), head, f);
        if forall f :: !RowFault(lex, cells, Some(r), head, f) {
          assert !RowFault(lex, cells, Some(r), head, BadDelivery);
        }
      } else if cells.claimed == Status.NOT_RUN {
        NotRunExactly(lex, cells, r);
      } else if cells.claimed == Status.DEFERRED_MANUAL {
        DeferralExactly(lex, cells, r);
      }
    }
  }

  lemma RowsExactly(lex: Lexicon, rows: seq<RowCells>, r: Report, head: string)
    requires ReportClean(lex, r)
    ensures (forall k :: 0 <= k < |rows| ==> RowBacked(lex, rows[k], r, head)) <==>
            forall f :: !RowsFault(lex, rows, Some(r), head, f)
  {
    if forall f :: !RowsFault(lex, rows, Some(r), head, f) {
      forall k | 0 <= k < |rows| ensures RowBacked(lex, rows[k], r, head) {
        forall g ensures !RowFault(lex, rows[k], Some(r), head, g) {
          assert !RowsFault(lex, rows, Some(r), head, OnRow(k + 1, g));
        }
        RowBackedExactly(lex, rows[k], r, head);
      }
    }
    if forall k :: 0 <= k < |rows| ==> RowBacked(lex, rows[k], r, head) {
      forall f ensures !RowsFault(lex, rows, Some(r), head, f) {
        if f.OnRow? && 1 <= f.line <= |rows| { RowBackedExactly(lex, rows[f.line - 1], r, head); }
      }
    }
  }

  lemma MissingExactly(lex: Lexicon, lines: seq<string>, rows: seq<RowCells>, r: Report)
    ensures (forall c :: PassedIn(lex, r, c) ==> Seen(lex, lines, rows, c)) <==>
            forall f :: !MissingFault(lex, lines, rows, Some(r), f)
  {
    if forall f :: !MissingFault(lex, lines, rows, Some(r), f) {
      forall c | PassedIn(lex, r, c) ensures Seen(lex, lines, rows, c) {
        assert !MissingFault(lex, lines, rows, Some(r), NoRowFor(c));
      }
    }
  }

  lemma TotalExactly(lex: Lexicon, text: string, rows: seq<RowCells>)
    requires forall k :: 0 <= k < |rows| ==> Counts(lex, rows[k].coordinate)
    ensures (lex.declaredTotal(text).Some? ==> lex.declaredTotal(text).value == |rows|) <==>
            forall f :: !TotalFault(lex, text, rows, f)
  {
    assert TotalFault(lex, text, rows, WrongTotal) || forall f :: !TotalFault(lex, text, rows, f);
  }

  lemma BackedRowsCount(lex: Lexicon, rows: seq<RowCells>, r: Report, head: string)
    requires forall k :: 0 <= k < |rows| ==> RowBacked(lex, rows[k], r, head)
    ensures forall k :: 0 <= k < |rows| ==> Counts(lex, rows[k].coordinate)
  {
  }

  lemma TableExactly(lex: Lexicon, text: string, rows: seq<RowCells>, r: Report, head: string)
    requires ReportClean(lex, r)
    ensures TableAccepted(lex, text, rows, r, head) <==> forall f :: !TableFault(lex, text, rows, Some(r), head, f)
  {
    RowsExactly(lex, rows, r, head);
    MissingExactly(lex, lex.lines(text), rows, r);
    if forall f :: !TableFault(lex, text, rows, Some(r), head, f) {
      forall f ensures !TotalFault(lex, text, rows, f) && !RowsFault(lex, rows, Some(r), head, f)
                       && !MissingFault(lex, lex.lines(text), rows, Some(r), f)
      {
        assert !TableFault(lex, text, rows, Some(r), head, f);
      }
      BackedRowsCount(lex, rows, r, head);
      TotalExactly(lex, text, rows);
    }
    if TableAccepted(lex, text, rows, r, head) {
      BackedRowsCount(lex, rows, r, head);
      TotalExactly(lex, text, rows);
    }
  }

  lemma Cited(lex: Lexicon, text: string)
    requires forall f :: !CitationFault(lex, text, f)
    ensures lex.namesRules(text) && lex.namesCommit(text) && lex.declaredTotal(text).Some?
  {
    assert !CitationFault(lex, text, NoRules);
    assert !CitationFault(lex, text, NoRulesCommit);
    assert !CitationFault(lex, text, NoTotal);
  }

  lemma MatrixExactly(lex: Lexicon, text: string, r: Report, head: string)
    requires ReportClean(lex, r)
    ensures MatrixRows(lex, text).Some? && TableAccepted(lex, text, MatrixRows(lex, text).value, r, head) <==>
            forall f :: !MatrixFault(lex, text, Some(r), head, f)
  {
    if MatrixRows(lex, text).Some? {
      var rows := MatrixRows(lex, text).value;
      TableExactly(lex, text, rows, r, head);
      forall f ensures MatrixFault(lex, text, Some(r), head, f) <==> TableFault(lex, text, rows, Some(r), head, f) {
      }
    } else {
      assert MatrixFault(lex, text, Some(r), head, NoTable);
    }
  }

  lemma ReportFaultless(lex: Lexicon, text: string, r: Report, head: string)
    requires forall f :: !Fault(lex, text, Some(r), head, f)
    ensures ReportClean(lex, r)
  {
    forall g ensures !ReportFault(lex, r, g) {
      assert !Fault(lex, text, Some(r), head, InReport(g));
    }
    ReportCleanExactly(lex, r);
  }

  lemma Faultless(lex: Lexicon, text: string, r: Report, head: string)
    requires text != "" && forall f :: !Fault(lex, text, Some(r), head, f)
    ensures Accepted(lex, text, r, head)
  {
    ReportFaultless(lex, text, r, head);
    forall f ensures !CitationFault(lex, text, f) && !MatrixFault(lex, text, Some(r), head, f) {
      assert !Fault(lex, text, Some(r), head, f);
    }
    Cited(lex, text);
    MatrixExactly(lex, text, r, head);
  }

  /** For a matrix and a report, there is nothing to find exactly when the matrix cites the
      rules, the report is clean, every row is a well-formed point whose status is backed,
      the rows are as many as declared, and every passed coordinate has a row. */
  lemma NothingFoundExactly(lex: Lexicon, text: string, r: Report, head: string)
    requires text != ""
    ensures (forall f :: !Fault(lex, text, Some(r), head, f)) <==> Accepted(lex, text, r, head)
  {
    if Accepted(lex, text, r, head) {
      ReportCleanExactly(lex, r);
      MatrixExactly(lex, text, r, head);
    }
    if forall f :: !Fault(lex, text, Some(r), head, f) {
      Faultless(lex, text, r, head);
    }
  }

  lemma OnlyFailRowIsFaultless(lex: Lexicon, cells: RowCells, head: string)
    ensures (forall report, g :: !RowFault(lex, cells, report, head, g)) <==>
            Counts(lex, cells.coordinate) && cells.claimed == Status.FAIL
  {
    if forall report, g :: !RowFault(lex, cells, report, head, g) {
      assert !RowFault(lex, cells, None, head, NoReport);
      FaultsOfMisshapen(lex, cells, None, head);
      FaultsOfShaped(lex, cells, None, head, NoReport);
    }
    if Counts(lex, cells.coordinate) && cells.claimed == Status.FAIL {
      forall report, g ensures !RowFault(lex, cells, report, head, g) {
        FaultsOfShaped(lex, cells, report, head, g);
      }
    }
  }

  lemma TableFaultOfLine(lex: Lexicon, text: string, rows: seq<RowCells>, report: Option<Report>, head: string, f: Finding)
    requires f.OnRow?
    ensures TableFault(lex, text, rows, report, head, f) <==> RowsFault(lex, rows, report, head, f)
  {
  }

  lemma MatrixFaultOfRows(lex: Lexicon, text: string, rows: seq<RowCells>, report: Option<Report>, head: string, f: Finding)
    requires MatrixRows(lex, text) == Some(rows)
    ensures MatrixFault(lex, text, report, head, f) <==> TableFault(lex, text, rows, report, head, f)
  {
  }

  lemma FaultOfLine(lex: Lexicon, text: string, rows: seq<RowCells>, report: Option<Report>, head: string, f: Finding)
    requires f.OnRow? && text != "" && MatrixRows(lex, text) == Some(rows)
    ensures Fault(lex, text, report, head, f) <==> RowsFault(lex, rows, report, head, f)
  {
    TableFaultOfLine(lex, text, rows, report, head, f);
    MatrixFaultOfRows(lex, text, rows, report, head, f);
    assert !CitationFault(lex, text, f);
  }

  lemma RowsFaultOfLine(lex: Lexicon, rows: seq<RowCells>, report: Option<Report>, head: string, line: nat, g: RowFinding)
    requires 1 <= line <= |rows|
    ensures RowsFault(lex, rows, report, head, OnRow(line, g)) <==> RowFault(lex, rows[line - 1], report, head, g)
  {
  }

  lemma FaultIsRowFault(lex: Lexicon, text: string, rows: seq<RowCells>, report: Option<Report>, head: string, line: nat, g: RowFinding)
    requires text != "" && MatrixRows(lex, text) == Some(rows) && 1 <= line <= |rows|
    ensures Fault(lex, text, report, head, OnRow(line, g)) <==> RowFault(lex, rows[line - 1], report, head, g)
  {
    FaultOfLine(lex, text, rows, report, head, OnRow(line, g));
    RowsFaultOfLine(lex, rows, report, head, line, g);
  }

  /** A row draws nothing under every report, and under none, exactly when it is a
      well-formed `FAIL` row. */
  lemma OnlyFailNeedsNothing(lex: Lexicon, text: string, rows: seq<RowCells>, head: string, line: nat)
    requires text != "" && MatrixRows(lex, text) == Some(rows) && 1 <= line <= |rows|
    ensures (forall report, g :: !Fault(lex, text, report, head, OnRow(line, g))) <==>
            Counts(lex, rows[line - 1].coordinate) && rows[line - 1].claimed == Status.FAIL
  {
    var cells := rows[line - 1];
    if forall report, g :: !Fault(lex, text, report, head, OnRow(line, g)) {
      forall report, g ensures !RowFault(lex, cells, report, head, g) {
        assert !Fault(lex, text, report, head, OnRow(line, g));
        FaultIsRowFault(lex, text, rows, report, head, line, g);
      }
    }
    if forall report, g :: !RowFault(lex, cells, report, head, g) {
      forall report, g ensures !Fault(lex, text, report, head, OnRow(line, g)) {
        FaultIsRowFault(lex, text, rows, report, head, line, g);
      }
    }
    OnlyFailRowIsFaultless(lex, rows[line - 1], head);
  }

  // ---- The recomputed summary ----

  datatype Summary = Summary(rows: nat, statuses: map<string, nat>, delivery: map<string, nat>, problems: nat)

  function ClaimedWords(rows: seq<RowCells>): seq<string> {
    seq(|rows|, k requires 0 <= k < |rows| => rows[k].claimed)
  }

  function DeliveryWords(rows: seq<RowCells>): seq<string> {
    seq(|rows|, k requires 0 <= k < |rows| => rows[k].delivery)
  }

  /** How often each of the names occurs among the words. */
  function Tally(words: seq<string>, names: set<string>): map<string, nat> {
    map name | name in names :: multiset(words)[name]
  }

  lemma TallyGrows(words: seq<string>, word: string, names: set<string>)
    ensures var counts := Tally(words, names);
            Tally(words + [word], names) == if word in names then counts[word := counts[word] + 1] else counts
  {
  }

  method Count(words: seq<string>, names: set<string>) returns (counts: map<string, nat>)
    ensures counts == Tally(words, names)
  {
    counts := map name | name in names :: 0;
    for k := 0 to |words|
      invariant counts == Tally(words[..k], names)
    {
      assert words[..k + 1] == words[..k] + [words[k]];
      TallyGrows(words[..k], words[k], names);
      if words[k] in counts {
        counts := counts[words[k] := counts[words[k]] + 1];
      }
    }
    assert words[..|words|] == words;
  }

  function SummaryOf(rows: seq<RowCells>, problems: nat): Summary {
    Summary(|rows|, Tally(ClaimedWords(rows), JUDGEMENT_STATUSES), Tally(DeliveryWords(rows), DELIVERY_CLASSES), problems)
  }

  method Recount(rows: seq<RowCells>, problems: nat) returns (summary: Summary)
    ensures summary == SummaryOf(rows, problems)
  {
    var statuses := Count(ClaimedWords(rows), JUDGEMENT_STATUSES);
    var delivery := Count(DeliveryWords(rows), DELIVERY_CLASSES);
    summary := Summary(|rows|, statuses, delivery, problems);
  }

  function OneOf(word: string): nat {
    (if word == Status.PASS then 1 else 0) + (if word == Status.FAIL then 1 else 0)
    + (if word == Status.NOT_RUN then 1 else 0) + (if word == Status.DEFERRED_MANUAL then 1 else 0)
  }

  lemma StatusesDiffer(word: string)
    ensures OneOf(word) == if word in JUDGEMENT_STATUSES then 1 else 0
  {
  }

  function FourCounts(words: seq<string>): nat {
    multiset(words)[Status.PASS] + multiset(words)[Status.FAIL]
    + multiset(words)[Status.NOT_RUN] + multiset(words)[Status.DEFERRED_MANUAL]
  }

  lemma FourCountsGrow(words: seq<string>, word: string)
    ensures FourCounts(words + [word]) == FourCounts(words) + if word in JUDGEMENT_STATUSES then 1 else 0
  {
    StatusesDiffer(word);
  }

  /** The four counts add up to the number of words exactly when each is one of the four. */
  lemma {:induction false} FourCountsExactly(words: seq<string>)
    ensures FourCounts(words) <= |words|
    ensures FourCounts(words) == |words| <==> forall k :: 0 <= k < |words| ==> words[k] in JUDGEMENT_STATUSES
  {
    if words != [] {
      var n := |words| - 1;
      FourCountsExactly(words[..n]);
      assert words == words[..n] + [words[n]];
      FourCountsGrow(words[..n], words[n]);
      assert forall k :: 0 <= k < n ==> words[..n][k] == words[k];
    }
  }

  /** In an accepted matrix the four counts of the summary add up to the declared total. */
  lemma AcceptedCountsAddUp(lex: Lexicon, text: string, r: Report, head: string, problems: nat)
    requires text != "" && Accepted(lex, text, r, head)
    ensures var statuses := SummaryOf(CountedRows(lex, text), problems).statuses;
            statuses[Status.PASS] + statuses[Status.FAIL] + statuses[Status.NOT_RUN] + statuses[Status.DEFERRED_MANUAL]
            == lex.declaredTotal(text).value
  {
    var rows := CountedRows(lex, text);
    forall k | 0 <= k < |rows| ensures ClaimedWords(rows)[k] in JUDGEMENT_STATUSES {
      assert RowBacked(lex, rows[k], r, head);
    }
    FourCountsExactly(ClaimedWords(rows));
  }

  // ---- The judge ----

  /** The rows the summary counts: none without a text or a table. */
  function CountedRows(lex: Lexicon, text: string): seq<RowCells> {
    if text == "" || MatrixRows(lex, text).None? then [] else MatrixRows(lex, text).value
  }

  /** The judge finds exactly what is at fault, in order, and counts what the table claims. */
  method Judge(lex: Lexicon, text: string, report: Option<Report>, head: string) returns (findings: seq<Finding>, summary: Summary)
    ensures forall f :: f in findings <==> Fault(lex, text, report, head, f)
    ensures Ascending(findings, Follows)
    ensures summary == SummaryOf(CountedRows(lex, text), |findings|)
    ensures text != "" && report.Some? ==> (findings == [] <==> Accepted(lex, text, report.value, head))
  {
    var onCitation: seq<Finding> := [];
    if text != "" {
      onCitation := CitationProblems(lex, text);
    }
    var index, onReport := JudgeItsReport(lex, report);
    var onMatrix, rows := JudgeMatrix(lex, text, report, index, head);
    ListedAppend(onCitation, onReport, 0, 2, 3);
    ListedAppend(onCitation + onReport, onMatrix, 0, 3, 6);
    findings := onCitation + onReport + onMatrix;
    summary := Recount(rows, |findings|);
    if text != "" && report.Some? {
      NothingFoundExactly(lex, text, report.value, head);
      assert findings != [] ==> findings[0] in findings;
    }
  }

  lemma FollowsOneWay(f: Finding, g: Finding)
    requires Follows(f, g)
    ensures !Follows(g, f)
  {
    if f.NoRowFor? && g.NoRowFor? { TextsAreOrdered(f.coordinate, g.coordinate); }
  }

  /** What the judge promises of its findings leaves one list. */
  lemma FindingsAreDetermined(lex: Lexicon, text: string, report: Option<Report>, head: string, fs: seq<Finding>, gs: seq<Finding>)
    requires Ascending(fs, Follows) && forall f :: f in fs <==> Fault(lex, text, report, head, f)
    requires Ascending(gs, Follows) && forall f :: f in gs <==> Fault(lex, text, report, head, f)
    ensures fs == gs
  {
    forall f, g | Follows(f, g) ensures !Follows(g, f) { FollowsOneWay(f, g); }
    OneAscending(fs, gs, Follows);
  }

  method JudgeItsReport(lex: Lexicon, report: Option<Report>) returns (index: Index, findings: seq<Finding>)
    ensures Agrees(lex, report, index)
    ensures forall f :: f in findings <==> f.InReport? && report.Some? && ReportFault(lex, report.value, f.reportFinding)
    ensures Listed(findings, 3, 3)
  {
    index, findings := Index({}, map[], {}, false), [];
    if report.Some? {
      index := ReportCoordinates(lex, report.value);
      var own := JudgeReport(lex, report.value);
      ReportIsListed(own);
      forall f { InReportsHolds(own, f); }
      findings := InReports(own);
    }
  }

  method JudgeMatrix(lex: Lexicon, text: string, report: Option<Report>, index: Index, head: string)
    returns (findings: seq<Finding>, rows: seq<RowCells>)
    requires Agrees(lex, report, index)
    ensures forall f :: f in findings <==> text != "" && MatrixFault(lex, text, report, head, f)
    ensures Listed(findings, 4, 6) && rows == CountedRows(lex, text)
  {
    findings, rows := [], [];
    if text != "" {
      var table := JudgementTable(lex.marks.space, lex.lines(text));
      if table.None? {
        findings := [NoTable];
      } else {
        rows := ParseRows(lex.marks, table.value);
        findings := JudgeTable(lex, text, rows, report, index, head);
      }
    }
  }

  // ---- A row's findings spelled out ----

  predicate IsPrefix(a: string, b: string) {
    |a| <= |b| && forall k :: 0 <= k < |a| ==> a[k] == b[k]
  }

  /** The coordinate begins with this word and is one as a whole. */
  ghost predicate WrittenWith(lex: Lexicon, coordinate: string, word: string) {
    exists first, groups :: Scanner.Written(lex.tables, coordinate, word, first, groups)
  }

  ghost predicate IsWritten(lex: Lexicon, coordinate: string) {
    || WrittenWith(lex, coordinate, "US") || WrittenWith(lex, coordinate, "TD")
    || WrittenWith(lex, coordinate, "AC") || WrittenWith(lex, coordinate, "IMPL")
  }

  lemma PointExactly(lex: Lexicon, coordinate: string)
    requires Scanner.Proper(lex.tables)
    ensures IsPoint(lex, coordinate) <==> IsWritten(lex, coordinate)
  {
    Scanner.CoordinateIsWritten(lex.tables, coordinate, 0, |coordinate|);
    assert coordinate[0..|coordinate|] == coordinate;
  }

  lemma ImplExactly(lex: Lexicon, coordinate: string)
    requires IsWritten(lex, coordinate)
    ensures IsImpl(coordinate) <==> WrittenWith(lex, coordinate, "IMPL")
    ensures IsImpl(coordinate) ==> !WrittenWith(lex, coordinate, "US") && !WrittenWith(lex, coordinate, "TD") && !WrittenWith(lex, coordinate, "AC")
  {
    if WrittenWith(lex, coordinate, "IMPL") { assert coordinate[0] == 'I' && coordinate[..4] == "IMPL"; }
    if WrittenWith(lex, coordinate, "US") { assert coordinate[0] == 'U'; }
    if WrittenWith(lex, coordinate, "TD") { assert coordinate[0] == 'T'; }
    if WrittenWith(lex, coordinate, "AC") { assert coordinate[0] == 'A'; }
    if IsImpl(coordinate) { assert coordinate[0] == coordinate[..4][0] == 'I'; }
  }

  predicate IsStatus(word: string) {
    word == "PASS" || word == "FAIL" || word == "NOT RUN" || word == "DEFERRED_MANUAL"
  }

  predicate IsDelivery(word: string) {
    word == "已交付" || word == "证据缺失" || word == "未交付"
  }

  /** Which rows are refused for their shape. */
  lemma ShapeFindingsExactly(lex: Lexicon, cells: RowCells, report: Option<Report>, head: string)
    requires Scanner.Proper(lex.tables)
    ensures var c := cells.coordinate;
            && (RowFault(lex, cells, report, head, BadCoordinate) <==> !IsWritten(lex, c))
            && (RowFault(lex, cells, report, head, ImplRow) <==> WrittenWith(lex, c, "IMPL"))
            && (RowFault(lex, cells, report, head, BadStatus) <==>
                IsWritten(lex, c) && !WrittenWith(lex, c, "IMPL") && !IsStatus(cells.claimed))
            && (RowFault(lex, cells, report, head, BadDelivery) <==>
                IsWritten(lex, c) && !WrittenWith(lex, c, "IMPL") && cells.claimed == "PASS" && !IsDelivery(cells.delivery))
  {
    PointExactly(lex, cells.coordinate);
    if IsWritten(lex, cells.coordinate) { ImplExactly(lex, cells.coordinate); }
    assert cells.claimed in JUDGEMENT_STATUSES <==> IsStatus(cells.claimed);
    assert cells.delivery in DELIVERY_CLASSES <==> IsDelivery(cells.delivery);
  }

  /** The evidence is bound when some recorded head, in any case, is the judged head or a
      beginning of it. */
  lemma BoundExactly(lex: Lexicon, evidence: string, head: string)
    ensures BoundToHead(lex, evidence, head) <==>
            exists token :: token in lex.heads(evidence) && IsPrefix(lex.lower(token), lex.lower(head))
  {
    forall token ensures HeadMatches(lex, token, head) <==> IsPrefix(lex.lower(token), lex.lower(head)) { }
    if token :| token in lex.heads(evidence) && IsPrefix(lex.lower(token), lex.lower(head)) {
      var k :| 0 <= k < |lex.heads(evidence)| && lex.heads(evidence)[k] == token;
      assert HeadMatches(lex, lex.heads(evidence)[k], head);
    }
  }

  /** Of a deferred row the evidence is read for the release condition when it names one, or
      else the note when that does, and nothing otherwise; the ticket must be there too. */
  lemma CarriersExactly(lex: Lexicon, cells: RowCells, report: Option<Report>)
    ensures var cell := if lex.namesCondition(cells.evidence) then cells.evidence
                        else if lex.namesCondition(cells.note) then cells.note else "";
            && (DeferredFault(lex, cells, report, CarriedNoCondition) <==> forall k :: 0 <= k < |cell| ==> lex.marks.space(cell[k]))
            && (DeferredFault(lex, cells, report, CarriedNoTicket) <==> !lex.namesTicket(cell))
  {
    CellFaults(lex, cells, report);
    BlankExactly(lex, ConditionCell(lex, cells));
  }

  lemma BlankExactly(lex: Lexicon, t: string)
    ensures Blank(lex, t) <==> forall k :: 0 <= k < |t| ==> lex.marks.space(t[k])
  {
  }

  /** Which findings a row draws for its shape, for the binding of its evidence and for the
      carriers of its deferral. */
  lemma RowFindingsExactly(lex: Lexicon, cells: RowCells, report: Option<Report>, head: string)
    requires Scanner.Proper(lex.tables)
    ensures var c := cells.coordinate;
            var cell := if lex.namesCondition(cells.evidence) then cells.evidence
                        else if lex.namesCondition(cells.note) then cells.note else "";
            var point := IsWritten(lex, c) && !WrittenWith(lex, c, "IMPL");
            && (RowFault(lex, cells, report, head, BadCoordinate) <==> !IsWritten(lex, c))
            && (RowFault(lex, cells, report, head, ImplRow) <==> WrittenWith(lex, c, "IMPL"))
            && (RowFault(lex, cells, report, head, BadStatus) <==> point && !IsStatus(cells.claimed))
            && (RowFault(lex, cells, report, head, BadDelivery) <==> point && cells.claimed == "PASS" && !IsDelivery(cells.delivery))
            && (RowFault(lex, cells, report, head, PassOldHead) <==>
                && point && cells.claimed == "PASS" && lex.heads(cells.evidence) != []
                && forall token :: token in lex.heads(cells.evidence) ==> !IsPrefix(lex.lower(token), lex.lower(head)))
            && (RowFault(lex, cells, report, head, CarriedNoCondition) <==>
                point && cells.claimed == "DEFERRED_MANUAL" && forall k :: 0 <= k < |cell| ==> lex.marks.space(cell[k]))
            && (RowFault(lex, cells, report, head, CarriedNoTicket) <==>
                point && cells.claimed == "DEFERRED_MANUAL" && !lex.namesTicket(cell))
  {
    ShapeFindingsExactly(lex, cells, report, head);
    BoundExactly(lex, cells.evidence, head);
    CarriersExactly(lex, cells, report);
    CountsExactly(lex, cells.coordinate);
    OldHeadFault(lex, cells, report, head);
    CarrierFault(lex, cells, report, head, CarriedNoCondition);
    CarrierFault(lex, cells, report, head, CarriedNoTicket);
  }

  lemma OldHeadFault(lex: Lexicon, cells: RowCells, report: Option<Report>, head: string)
    ensures RowFault(lex, cells, report, head, PassOldHead) <==>
            && Counts(lex, cells.coordinate) && cells.claimed == "PASS"
            && lex.heads(cells.evidence) != [] && !BoundToHead(lex, cells.evidence, head)
  {
    if Counts(lex, cells.coordinate) { FaultsOfShaped(lex, cells, report, head, PassOldHead); }
  }

  lemma CarrierFault(lex: Lexicon, cells: RowCells, report: Option<Report>, head: string, f: RowFinding)
    requires f.CarriedNoCondition? || f.CarriedNoTicket?
    ensures RowFault(lex, cells, report, head, f) <==>
            Counts(lex, cells.coordinate) && cells.claimed == "DEFERRED_MANUAL" && DeferredFault(lex, cells, report, f)
  {
    if Counts(lex, cells.coordinate) { FaultsOfShaped(lex, cells, report, head, f); }
  }

  /** The places of the rows with a coordinate of a word but `IMPL`. */
  ghost function CountedPlaces(lex: Lexicon, rows: seq<RowCells>): set<nat> {
    set k: nat | k < |rows| && IsAcceptancePoint(lex, rows[k].coordinate)
  }

  ghost predicate IsAcceptancePoint(lex: Lexicon, coordinate: string) {
    IsWritten(lex, coordinate) && !WrittenWith(lex, coordinate, "IMPL")
  }

  lemma CountsExactly(lex: Lexicon, coordinate: string)
    requires Scanner.Proper(lex.tables)
    ensures Counts(lex, coordinate) <==> IsAcceptancePoint(lex, coordinate)
  {
    PointExactly(lex, coordinate);
    if IsWritten(lex, coordinate) { ImplExactly(lex, coordinate); }
  }

  lemma PlacesGrow(lex: Lexicon, rows: seq<RowCells>, last: RowCells)
    ensures CountedPlaces(lex, rows + [last]) == CountedPlaces(lex, rows) + if IsAcceptancePoint(lex, last.coordinate) then {|rows|} else {}
    ensures |rows| !in CountedPlaces(lex, rows)
  {
    var more := rows + [last];
    forall k: nat ensures k in CountedPlaces(lex, more) <==> k in CountedPlaces(lex, rows) || (k == |rows| && IsAcceptancePoint(lex, last.coordinate)) {
      if k < |rows| { assert more[k] == rows[k]; }
    }
  }

  /** The rows that are counted are those with a coordinate of a word but `IMPL`. */
  lemma {:induction false} PointsExactly(lex: Lexicon, rows: seq<RowCells>)
    requires Scanner.Proper(lex.tables)
    ensures Points(lex, rows) == |CountedPlaces(lex, rows)|
  {
    if rows != [] {
      var n := |rows| - 1;
      PointsExactly(lex, rows[..n]);
      assert rows == rows[..n] + [rows[n]];
      PlacesGrow(lex, rows[..n], rows[n]);
      CountsExactly(lex, rows[n].coordinate);
    }
  }

  /** The total is found wrong exactly when the header declares another number than there are
      rows that count. */
  lemma TotalFindingExactly(lex: Lexicon, text: string, rows: seq<RowCells>, report: Option<Report>, head: string)
    requires Scanner.Proper(lex.tables)
    ensures TableFault(lex, text, rows, report, head, WrongTotal) <==>
            lex.declaredTotal(text).Some? && lex.declaredTotal(text).value != |CountedPlaces(lex, rows)|
  {
    PointsExactly(lex, rows);
  }

  // ---- The summary spelled out ----

  ghost function PlacesWith(words: seq<string>, name: string): set<nat> {
    set k: nat | k < |words| && words[k] == name
  }

  lemma {:induction false} OccurrencesAreCounted(words: seq<string>, name: string)
    ensures multiset(words)[name] == |PlacesWith(words, name)|
  {
    if words != [] {
      var n := |words| - 1;
      OccurrencesAreCounted(words[..n], name);
      assert words == words[..n] + [words[n]];
      assert PlacesWith(words, name) == PlacesWith(words[..n], name) + if words[n] == name then {n} else {};
    }
  }

  ghost function RowsClaiming(rows: seq<RowCells>, name: string): set<nat> {
    set k: nat | k < |rows| && rows[k].claimed == name
  }

  ghost function RowsDelivering(rows: seq<RowCells>, name: string): set<nat> {
    set k: nat | k < |rows| && rows[k].delivery == name
  }

  lemma RowsAreCounted(rows: seq<RowCells>, name: string)
    ensures multiset(ClaimedWords(rows))[name] == |RowsClaiming(rows, name)|
    ensures multiset(DeliveryWords(rows))[name] == |RowsDelivering(rows, name)|
  {
    OccurrencesAreCounted(ClaimedWords(rows), name);
    OccurrencesAreCounted(DeliveryWords(rows), name);
    assert PlacesWith(ClaimedWords(rows), name) == RowsClaiming(rows, name);
    assert PlacesWith(DeliveryWords(rows), name) == RowsDelivering(rows, name);
  }

  /** The summary counts the rows under the four statuses and the three delivery classes. */
  lemma SummaryExactly(rows: seq<RowCells>, problems: nat, name: string)
    ensures var summary := SummaryOf(rows, problems);
            && summary.rows == |rows| && summary.problems == problems
            && (name in summary.statuses <==> IsStatus(name)) && (name in summary.delivery <==> IsDelivery(name))
            && (IsStatus(name) ==> summary.statuses[name] == |RowsClaiming(rows, name)|)
            && (IsDelivery(name) ==> summary.delivery[name] == |RowsDelivering(rows, name)|)
  {
    RowsAreCounted(rows, name);
  }
}
