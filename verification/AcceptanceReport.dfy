/** A verification report: the coordinate index the cross-checks read, and what is wrong
    with its own entries. */
module AcceptanceReport {
  import opened Wrappers
  import opened Regex
  import Scanner = CoordinateScanner
  import Texts
  import Status = AcceptanceStatus

  /** A JSON value that is text, or another one with the text it is shown as when truthy. */
  datatype Value = Text(text: string) | Other(shown: string)

  type Entry = map<string, Value>

  datatype Node = NotAnObject | Object(entry: Entry)

  /** A field that is missing or null, one that holds no list, or a list. */
  datatype ListField = Absent | NotAList | Entries(nodes: seq<Node>)

  datatype Report = Report(fields: Entry, passed: ListField, notRun: ListField)

  /** The readers of free text; everything below holds for any of them. */
  datatype Lexicon = Lexicon(
    tables: Scanner.Tables,
    marks: Status.Marks,
    lines: string -> seq<string>,
    lower: string -> string,
    namedCase: string -> bool,
    commands: string -> seq<string>,
    heads: string -> seq<string>,
    namesTicket: string -> bool,
    namesCondition: string -> bool,
    namesRules: string -> bool,
    namesCommit: string -> bool,
    declaredTotal: string -> Option<int>)

  const STATUS_FIELDS := ["status", "matrix_status", "判定状态"]
  const UNBLOCK_FIELDS := ["unblock", "unblock_condition", "release_condition"]
  const TICKET_FIELDS := ["ticket", "follow_up_issue"]

  function Nodes(list: ListField): seq<Node> {
    if list.Entries? then list.nodes else []
  }

  function Shown(e: Entry, field: string): string {
    if field in e then (match e[field] case Text(text) => text case Other(shown) => shown) else ""
  }

  predicate Blank(lex: Lexicon, s: string) {
    forall k :: 0 <= k < |s| ==> lex.marks.space(s[k])
  }

  function FirstText(lex: Lexicon, e: Entry, fields: seq<string>): string {
    if fields == [] then ""
    else if fields[0] in e && e[fields[0]].Text? && !Blank(lex, e[fields[0]].text) then e[fields[0]].text
    else FirstText(lex, e, fields[1..])
  }

  function Found(pattern: Regex, text: string): set<string> {
    set m | m in FindAll(pattern, text, 0) && m.0 <= m.1 <= |text| :: text[m.0..m.1]
  }

  /** The coordinates an entry's id names. */
  function Named(lex: Lexicon, e: Entry): set<string> {
    Found(Scanner.JudgePattern(lex.tables), Shown(e, "id"))
  }

  predicate RanPassed(lex: Lexicon, e: Entry) {
    Status.Fold(lex.marks, Texts.Strip(lex.marks.space, Shown(e, "status"))) in {"pass", "passed"}
  }

  predicate Deferred(lex: Lexicon, e: Entry) {
    exists k :: 0 <= k < |STATUS_FIELDS| && Status.Normalize(lex.marks, Shown(e, STATUS_FIELDS[k])) == Status.DEFERRED_MANUAL
  }

  predicate Names(lex: Lexicon, n: Node, c: string) {
    n.Object? && c in Named(lex, n.entry)
  }

  ghost predicate PassedBy(lex: Lexicon, nodes: seq<Node>, c: string) {
    exists k :: 0 <= k < |nodes| && Names(lex, nodes[k], c) && RanPassed(lex, nodes[k].entry)
  }

  ghost predicate DeferredBy(lex: Lexicon, nodes: seq<Node>, c: string) {
    exists k :: 0 <= k < |nodes| && Names(lex, nodes[k], c) && Deferred(lex, nodes[k].entry)
  }

  /** Entry `k` is the first one that names the coordinate. */
  ghost predicate FirstNames(lex: Lexicon, nodes: seq<Node>, k: nat, c: string) {
    k < |nodes| && Names(lex, nodes[k], c) && forall j :: 0 <= j < k ==> !Names(lex, nodes[j], c)
  }

  // ---- The coordinate index ----

  datatype Index = Index(passed: set<string>, notRun: map<string, Entry>, deferred: set<string>, hasReport: bool)

  ghost predicate PassedIndexed(lex: Lexicon, nodes: seq<Node>, passed: set<string>) {
    forall c :: c in passed <==> PassedBy(lex, nodes, c)
  }

  ghost predicate DeferredIndexed(lex: Lexicon, nodes: seq<Node>, deferred: set<string>) {
    forall c :: c in deferred <==> DeferredBy(lex, nodes, c)
  }

  /** Each coordinate some entry names, with the first entry that does. */
  ghost predicate Registers(lex: Lexicon, nodes: seq<Node>, registry: map<string, Entry>) {
    && (forall c :: c in registry ==> exists k: nat :: FirstNames(lex, nodes, k, c) && registry[c] == nodes[k].entry)
    && (forall c, k :: 0 <= k < |nodes| && Names(lex, nodes[k], c) ==> c in registry)
  }

  ghost predicate Indexes(lex: Lexicon, r: Report, index: Index) {
    && PassedIndexed(lex, Nodes(r.passed), index.passed)
    && DeferredIndexed(lex, Nodes(r.passed) + Nodes(r.notRun), index.deferred)
    && Registers(lex, Nodes(r.notRun), index.notRun)
    && index.hasReport
  }

  lemma PassedGrows(lex: Lexicon, nodes: seq<Node>, n: Node, passed: set<string>)
    requires PassedIndexed(lex, nodes, passed)
    ensures PassedIndexed(lex, nodes + [n], if n.Object? && RanPassed(lex, n.entry) then passed + Named(lex, n.entry) else passed)
  {
    var more := nodes + [n];
    forall c ensures PassedBy(lex, more, c) <==> PassedBy(lex, nodes, c) || (Names(lex, n, c) && RanPassed(lex, n.entry)) {
      if PassedBy(lex, nodes, c) {
        var k :| 0 <= k < |nodes| && Names(lex, nodes[k], c) && RanPassed(lex, nodes[k].entry);
        assert more[k] == nodes[k];
      }
      assert more[|nodes|] == n;
    }
  }

  lemma DeferredGrows(lex: Lexicon, nodes: seq<Node>, n: Node, deferred: set<string>)
    requires DeferredIndexed(lex, nodes, deferred)
    ensures DeferredIndexed(lex, nodes + [n], if n.Object? && Deferred(lex, n.entry) then deferred + Named(lex, n.entry) else deferred)
  {
    var more := nodes + [n];
    forall c ensures DeferredBy(lex, more, c) <==> DeferredBy(lex, nodes, c) || (Names(lex, n, c) && Deferred(lex, n.entry)) {
      if DeferredBy(lex, nodes, c) {
        var k :| 0 <= k < |nodes| && Names(lex, nodes[k], c) && Deferred(lex, nodes[k].entry);
        assert more[k] == nodes[k];
      }
      assert more[|nodes|] == n;
    }
  }

  function Registered(lex: Lexicon, n: Node, registry: map<string, Entry>): map<string, Entry> {
    if n.Object? then (map c | c in Named(lex, n.entry) :: n.entry) + registry else registry
  }

  lemma FirstNamesGrows(lex: Lexicon, nodes: seq<Node>, n: Node, k: nat, c: string)
    ensures FirstNames(lex, nodes, k, c) ==> FirstNames(lex, nodes + [n], k, c)
    ensures Names(lex, n, c) && (forall j :: 0 <= j < |nodes| ==> !Names(lex, nodes[j], c)) ==>
              FirstNames(lex, nodes + [n], |nodes|, c)
  {
  }

  lemma RegistryGrows(lex: Lexicon, nodes: seq<Node>, n: Node, registry: map<string, Entry>)
    requires Registers(lex, nodes, registry)
    ensures Registers(lex, nodes + [n], Registered(lex, n, registry))
  {
    var more, after := nodes + [n], Registered(lex, n, registry);
    assert more[|nodes|] == n;
    forall c | c in after ensures exists k: nat :: FirstNames(lex, more, k, c) && after[c] == more[k].entry {
      if c in registry {
        var k: nat :| FirstNames(lex, nodes, k, c) && registry[c] == nodes[k].entry;
        FirstNamesGrows(lex, nodes, n, k, c);
        assert FirstNames(lex, more, k, c) && more[k] == nodes[k];
      } else {
        FirstNamesGrows(lex, nodes, n, 0, c);
        assert FirstNames(lex, more, |nodes|, c);
      }
    }
    forall c, k | 0 <= k < |more| && Names(lex, more[k], c) ensures c in after {
      if k < |nodes| { assert Names(lex, nodes[k], c); }
    }
  }

  method IndexPassed(lex: Lexicon, nodes: seq<Node>) returns (passed: set<string>, deferred: set<string>)
    ensures PassedIndexed(lex, nodes, passed) && DeferredIndexed(lex, nodes, deferred)
  {
    passed, deferred := {}, {};
    for k := 0 to |nodes|
      invariant PassedIndexed(lex, nodes[..k], passed) && DeferredIndexed(lex, nodes[..k], deferred)
    {
      PassedGrows(lex, nodes[..k], nodes[k], passed);
      DeferredGrows(lex, nodes[..k], nodes[k], deferred);
      assert nodes[..k + 1] == nodes[..k] + [nodes[k]];
      if nodes[k].Object? {
        if Deferred(lex, nodes[k].entry) { deferred := deferred + Named(lex, nodes[k].entry); }
        if RanPassed(lex, nodes[k].entry) { passed := passed + Named(lex, nodes[k].entry); }
      }
    }
    assert nodes[..|nodes|] == nodes;
  }

  method IndexNotRun(lex: Lexicon, ghost before: seq<Node>, nodes: seq<Node>, deferredBefore: set<string>)
    returns (notRun: map<string, Entry>, deferred: set<string>)
    requires DeferredIndexed(lex, before, deferredBefore)
    ensures DeferredIndexed(lex, before + nodes, deferred) && Registers(lex, nodes, notRun)
  {
    notRun, deferred := map[], deferredBefore;
    assert before + nodes[..0] == before;
    for k := 0 to |nodes|
      invariant DeferredIndexed(lex, before + nodes[..k], deferred)
      invariant Registers(lex, nodes[..k], notRun)
    {
      DeferredGrows(lex, before + nodes[..k], nodes[k], deferred);
      RegistryGrows(lex, nodes[..k], nodes[k], notRun);
      assert before + nodes[..k + 1] == (before + nodes[..k]) + [nodes[k]];
      assert nodes[..k + 1] == nodes[..k] + [nodes[k]];
      if nodes[k].Object? {
        if Deferred(lex, nodes[k].entry) { deferred := deferred + Named(lex, nodes[k].entry); }
        notRun := (map c | c in Named(lex, nodes[k].entry) :: nodes[k].entry) + notRun;
      }
    }
    assert nodes[..|nodes|] == nodes;
  }

  /** The index of a report: what its pass-shaped entries cover, what is registered as not
      run and by which entry first, and what is deferred in either list. */
  method ReportCoordinates(lex: Lexicon, r: Report) returns (index: Index)
    ensures Indexes(lex, r, index)
  {
    var passed, deferredPassed := IndexPassed(lex, Nodes(r.passed));
    var notRun, deferred := IndexNotRun(lex, Nodes(r.passed), Nodes(r.notRun), deferredPassed);
    index := Index(passed, notRun, deferred, true);
  }

  // ---- The report's own entries ----

  datatype EntryFinding = NoCondition | NoTicket | SilentSkip | NoCase | NoCommand | NoHead | NoReason | NoUnblock

  predicate NamesField(e: Entry, fields: seq<string>) {
    exists k :: 0 <= k < |fields| && fields[k] in e
  }

  /** The entry's own ticket; else the document's, unless the entry has an empty ticket
      field; else the condition's text. */
  function TicketOf(lex: Lexicon, e: Entry, documentTicket: string): string {
    var own := FirstText(lex, e, TICKET_FIELDS);
    var resolved := if own == "" && !NamesField(e, TICKET_FIELDS) then documentTicket else own;
    if resolved == "" then FirstText(lex, e, UNBLOCK_FIELDS) else resolved
  }

  predicate EntryFault(lex: Lexicon, e: Entry, documentTicket: string, inPassedList: bool, f: EntryFinding) {
    var ran := !Deferred(lex, e) && inPassedList && RanPassed(lex, e);
    var skipped := !Deferred(lex, e) && !inPassedList;
    match f
    case NoCondition => Deferred(lex, e) && Blank(lex, FirstText(lex, e, UNBLOCK_FIELDS))
    case NoTicket => Deferred(lex, e) && !lex.namesTicket(TicketOf(lex, e, documentTicket))
    case SilentSkip => !Deferred(lex, e) && inPassedList && !RanPassed(lex, e)
    case NoCase => ran && !lex.namedCase(Shown(e, "evidence"))
    case NoCommand => ran && lex.commands(Shown(e, "evidence")) == []
    case NoHead => ran && lex.heads(Shown(e, "evidence")) == []
    case NoReason => skipped && Blank(lex, Shown(e, "reason"))
    case NoUnblock => skipped && Blank(lex, Shown(e, "unblock"))
  }

  function When<T(!new)>(condition: bool, finding: T): (r: seq<T>)
    ensures forall f :: f in r <==> condition && f == finding
  {
    if condition then [finding] else []
  }

  /** The place of a finding among those of one entry. */
  function EntryPlace(f: EntryFinding): nat {
    match f
    case NoCondition => 0
    case NoTicket => 1
    case SilentSkip => 2
    case NoCase => 3
    case NoCommand => 4
    case NoHead => 5
    case NoReason => 6
    case NoUnblock => 7
  }

  /** The findings stand in the order of the tests, and all before the given place. */
  predicate InEntryOrder(fs: seq<EntryFinding>, place: nat) {
    fs != [] ==> EntryPlace(fs[|fs| - 1]) < place && InEntryOrder(fs[..|fs| - 1], EntryPlace(fs[|fs| - 1]))
  }

  lemma {:induction false} EntriesAscend(fs: seq<EntryFinding>, place: nat, i: nat, j: nat)
    requires InEntryOrder(fs, place) && i < j < |fs|
    ensures EntryPlace(fs[i]) < EntryPlace(fs[j]) < place
  {
    var n := |fs| - 1;
    if j < n { EntriesAscend(fs[..n], EntryPlace(fs[n]), i, j); }
    else if i + 1 < n { EntriesAscend(fs[..n], EntryPlace(fs[n]), i, n - 1); }
  }

  lemma NextInEntry(fs: seq<EntryFinding>, place: nat, condition: bool, finding: EntryFinding)
    requires InEntryOrder(fs, place) && place <= EntryPlace(finding)
    ensures InEntryOrder(fs + When(condition, finding), EntryPlace(finding) + 1)
  {
    assert (fs + [finding])[..|fs|] == fs && fs + [] == fs;
  }

  method DeferralProblems(lex: Lexicon, condition: string, ticket: string) returns (findings: seq<EntryFinding>)
    ensures forall f :: f in findings <==>
              (f.NoCondition? && Blank(lex, condition)) || (f.NoTicket? && !lex.namesTicket(ticket))
    ensures InEntryOrder(findings, 2)
  {
    findings := [];
    NextInEntry(findings, 0, Blank(lex, condition), NoCondition);
    findings := findings + When(Blank(lex, condition), NoCondition);
    NextInEntry(findings, 1, !lex.namesTicket(ticket), NoTicket);
    findings := findings + When(!lex.namesTicket(ticket), NoTicket);
  }

  method EvidenceProblems(lex: Lexicon, evidence: string) returns (findings: seq<EntryFinding>)
    ensures forall f :: f in findings <==>
              || (f == NoCase && !lex.namedCase(evidence))
              || (f == NoCommand && lex.commands(evidence) == [])
              || (f == NoHead && lex.heads(evidence) == [])
    ensures InEntryOrder(findings, 6)
  {
    var noCase, noCommand, noHead := !lex.namedCase(evidence), lex.commands(evidence) == [], lex.heads(evidence) == [];
    findings := When(noCase, NoCase);
    NextInEntry([], 3, noCase, NoCase);
    assert [] + findings == findings;
    NextInEntry(findings, 4, noCommand, NoCommand);
    findings := findings + When(noCommand, NoCommand);
    NextInEntry(findings, 5, noHead, NoHead);
    findings := findings + When(noHead, NoHead);
  }

  method RegistryProblems(lex: Lexicon, e: Entry) returns (findings: seq<EntryFinding>)
    ensures forall f :: f in findings <==>
              || (f.NoReason? && Blank(lex, Shown(e, "reason")))
              || (f.NoUnblock? && Blank(lex, Shown(e, "unblock")))
    ensures InEntryOrder(findings, 8)
  {
    findings := [];
    NextInEntry(findings, 6, Blank(lex, Shown(e, "reason")), NoReason);
    findings := findings + When(Blank(lex, Shown(e, "reason")), NoReason);
    NextInEntry(findings, 7, Blank(lex, Shown(e, "unblock")), NoUnblock);
    findings := findings + When(Blank(lex, Shown(e, "unblock")), NoUnblock);
  }

  method JudgeReportEntry(lex: Lexicon, e: Entry, documentTicket: string, inPassedList: bool) returns (findings: seq<EntryFinding>)
    ensures forall f :: f in findings <==> EntryFault(lex, e, documentTicket, inPassedList, f)
    ensures InEntryOrder(findings, 8)
  {
    findings := [];
    var evidence := Shown(e, "evidence");
    if Deferred(lex, e) {
      var condition := FirstText(lex, e, UNBLOCK_FIELDS);
      var ticket := FirstText(lex, e, TICKET_FIELDS);
      if ticket == "" && !NamesField(e, TICKET_FIELDS) {
        ticket := documentTicket;
      }
      if ticket == "" {
        ticket := condition;
      }
      findings := DeferralProblems(lex, condition, ticket);
      return;
    }
    if inPassedList && !RanPassed(lex, e) {
      return [SilentSkip];
    }
    if inPassedList {
      findings := EvidenceProblems(lex, evidence);
    } else {
      findings := RegistryProblems(lex, e);
    }
  }

  datatype ListName = PassedList | NotRunList

  datatype ReportFinding =
    | NoList(list: ListName)
    | NoObject(list: ListName, position: nat)
    | OnEntry(list: ListName, position: nat, entryFinding: EntryFinding)

  /** `passed[]` is judged before `not_run[]`, each list from the front, and each entry in the
      order of its tests. */
  predicate Sooner(f: ReportFinding, g: ReportFinding) {
    || (f.list.PassedList? && g.list.NotRunList?)
    || (f.list == g.list && !f.NoList? && !g.NoList? && f.position < g.position)
    || (f.OnEntry? && g.OnEntry? && f.list == g.list && f.position == g.position && EntryPlace(f.entryFinding) < EntryPlace(g.entryFinding))
  }

  ghost predicate InReportOrder(fs: seq<ReportFinding>) {
    forall i, j :: 0 <= i < j < |fs| ==> Sooner(fs[i], fs[j])
  }

  lemma OrderAppends(a: seq<ReportFinding>, b: seq<ReportFinding>)
    requires InReportOrder(a) && InReportOrder(b)
    requires forall f, g :: f in a && g in b ==> Sooner(f, g)
    ensures InReportOrder(a + b)
  {
    var all := a + b;
    forall i, j | 0 <= i < j < |all| ensures Sooner(all[i], all[j]) {
      if i < |a| <= j { assert all[i] in a && all[j] in b; }
    }
  }

  function ListOf(r: Report, list: ListName): ListField {
    if list.PassedList? then r.passed else r.notRun
  }

  function DocumentTicket(lex: Lexicon, r: Report): string {
    FirstText(lex, r.fields, TICKET_FIELDS)
  }

  /** Whether the entry at a position gives rise to the finding. */
  predicate NodeFault(lex: Lexicon, n: Node, documentTicket: string, list: ListName, f: ReportFinding) {
    match f
    case NoList(_) => false
    case NoObject(_, _) => n.NotAnObject?
    case OnEntry(_, _, g) => n.Object? && EntryFault(lex, n.entry, documentTicket, list.PassedList?, g)
  }

  predicate ReportFault(lex: Lexicon, r: Report, f: ReportFinding) {
    var field := ListOf(r, f.list);
    if f.NoList? then field.NotAList?
    else f.position < |Nodes(field)| && NodeFault(lex, Nodes(field)[f.position], DocumentTicket(lex, r), f.list, f)
  }

  function At(list: ListName, position: nat, findings: seq<EntryFinding>): (r: seq<ReportFinding>)
    ensures forall f :: f in r <==> f.OnEntry? && f.list == list && f.position == position && f.entryFinding in findings
    ensures |r| == |findings| && forall k :: 0 <= k < |r| ==> r[k] == OnEntry(list, position, findings[k])
  {
    if findings == [] then []
    else [OnEntry(list, position, findings[0])] + At(list, position, findings[1..])
  }

  lemma EntryIsInOrder(list: ListName, position: nat, findings: seq<EntryFinding>)
    requires InEntryOrder(findings, 8)
    ensures InReportOrder(At(list, position, findings))
  {
    forall i, j | 0 <= i < j < |findings| ensures EntryPlace(findings[i]) < EntryPlace(findings[j]) {
      EntriesAscend(findings, 8, i, j);
    }
  }

  method JudgeNode(lex: Lexicon, n: Node, documentTicket: string, list: ListName, position: nat) returns (findings: seq<ReportFinding>)
    ensures forall f :: f in findings <==>
              f.list == list && !f.NoList? && f.position == position && NodeFault(lex, n, documentTicket, list, f)
    ensures InReportOrder(findings)
  {
    if n.NotAnObject? {
      return [NoObject(list, position)];
    }
    var own := JudgeReportEntry(lex, n.entry, documentTicket, list.PassedList?);
    EntryIsInOrder(list, position, own);
    findings := At(list, position, own);
  }

  method JudgeList(lex: Lexicon, field: ListField, list: ListName, documentTicket: string) returns (findings: seq<ReportFinding>)
    ensures forall f :: f in findings <==>
              && f.list == list
              && if f.NoList? then field.NotAList?
                 else f.position < |Nodes(field)| && NodeFault(lex, Nodes(field)[f.position], documentTicket, list, f)
    ensures InReportOrder(findings)
  {
    if field.NotAList? {
      return [NoList(list)];
    }
    findings := [];
    var nodes := Nodes(field);
    for k := 0 to |nodes|
      invariant forall f :: f in findings <==>
                  f.list == list && !f.NoList? && f.position < k && NodeFault(lex, nodes[f.position], documentTicket, list, f)
      invariant InReportOrder(findings)
    {
      var own := JudgeNode(lex, nodes[k], documentTicket, list, k);
      OrderAppends(findings, own);
      findings := findings + own;
    }
  }

  /** What is wrong with a report by itself, whatever the matrix says. */
  method JudgeReport(lex: Lexicon, r: Report) returns (findings: seq<ReportFinding>)
    ensures forall f :: f in findings <==> ReportFault(lex, r, f)
    ensures InReportOrder(findings)
  {
    var ticket := DocumentTicket(lex, r);
    var passed := JudgeList(lex, r.passed, PassedList, ticket);
    var notRun := JudgeList(lex, r.notRun, NotRunList, ticket);
    OrderAppends(passed, notRun);
    findings := passed + notRun;
  }

  // ---- What a report with no finding says ----

  predicate HasTriple(lex: Lexicon, evidence: string) {
    lex.namedCase(evidence) && lex.commands(evidence) != [] && lex.heads(evidence) != []
  }

  predicate CarriesDeferral(lex: Lexicon, e: Entry, documentTicket: string) {
    !Blank(lex, FirstText(lex, e, UNBLOCK_FIELDS)) && lex.namesTicket(TicketOf(lex, e, documentTicket))
  }

  predicate NamesWhyAndWhen(lex: Lexicon, e: Entry) {
    !Blank(lex, Shown(e, "reason")) && !Blank(lex, Shown(e, "unblock"))
  }

  predicate EntryClean(lex: Lexicon, e: Entry, documentTicket: string, inPassedList: bool) {
    if Deferred(lex, e) then CarriesDeferral(lex, e, documentTicket)
    else if inPassedList then RanPassed(lex, e) && HasTriple(lex, Shown(e, "evidence"))
    else NamesWhyAndWhen(lex, e)
  }

  predicate ListClean(lex: Lexicon, field: ListField, documentTicket: string, inPassedList: bool) {
    && !field.NotAList?
    && forall k :: 0 <= k < |Nodes(field)| ==>
         Nodes(field)[k].Object? && EntryClean(lex, Nodes(field)[k].entry, documentTicket, inPassedList)
  }

  ghost predicate ReportClean(lex: Lexicon, r: Report) {
    ListClean(lex, r.passed, DocumentTicket(lex, r), true) && ListClean(lex, r.notRun, DocumentTicket(lex, r), false)
  }

  lemma EntryCleanExactly(lex: Lexicon, e: Entry, documentTicket: string, inPassedList: bool)
    ensures EntryClean(lex, e, documentTicket, inPassedList) <==>
            forall f :: !EntryFault(lex, e, documentTicket, inPassedList, f)
  {
    if forall f :: !EntryFault(lex, e, documentTicket, inPassedList, f) {
      assert !EntryFault(lex, e, documentTicket, inPassedList, NoCondition);
      assert !EntryFault(lex, e, documentTicket, inPassedList, NoTicket);
      assert !EntryFault(lex, e, documentTicket, inPassedList, SilentSkip);
      assert !EntryFault(lex, e, documentTicket, inPassedList, NoCase);
      assert !EntryFault(lex, e, documentTicket, inPassedList, NoCommand);
      assert !EntryFault(lex, e, documentTicket, inPassedList, NoHead);
      assert !EntryFault(lex, e, documentTicket, inPassedList, NoReason);
      assert !EntryFault(lex, e, documentTicket, inPassedList, NoUnblock);
    }
  }

  lemma ListCleanExactly(lex: Lexicon, r: Report, list: ListName)
    ensures ListClean(lex, ListOf(r, list), DocumentTicket(lex, r), list.PassedList?) <==>
            forall f: ReportFinding :: f.list == list ==> !ReportFault(lex, r, f)
  {
    var field, ticket := ListOf(r, list), DocumentTicket(lex, r);
    if forall f: ReportFinding :: f.list == list ==> !ReportFault(lex, r, f) {
      assert !ReportFault(lex, r, NoList(list));
      forall k | 0 <= k < |Nodes(field)|
        ensures Nodes(field)[k].Object? && EntryClean(lex, Nodes(field)[k].entry, ticket, list.PassedList?)
      {
        assert !ReportFault(lex, r, NoObject(list, k));
        EntryCleanExactly(lex, Nodes(field)[k].entry, ticket, list.PassedList?);
        forall g ensures !EntryFault(lex, Nodes(field)[k].entry, ticket, list.PassedList?, g) {
          assert !ReportFault(lex, r, OnEntry(list, k, g));
        }
      }
    }
    if ListClean(lex, field, ticket, list.PassedList?) {
      forall f: ReportFinding | f.list == list ensures !ReportFault(lex, r, f) {
        if f.OnEntry? && f.position < |Nodes(field)| {
          EntryCleanExactly(lex, Nodes(field)[f.position].entry, ticket, list.PassedList?);
        }
      }
    }
  }

  /** A report draws no finding exactly when both its lists are lists of objects and every
      entry is covered: a deferred one by a condition and a ticket, a passed one by a pass
      and the evidence triple, one not run by a reason and an unblock. */
  lemma ReportCleanExactly(lex: Lexicon, r: Report)
    ensures ReportClean(lex, r) <==> forall f :: !ReportFault(lex, r, f)
  {
    ListCleanExactly(lex, r, PassedList);
    ListCleanExactly(lex, r, NotRunList);
  }

  // ---- The summary's coverage ----

  /** What the summary's pattern finds in an entry that is pass-shaped. */
  function CoveredBy(lex: Lexicon, n: Node): set<string> {
    if n.Object? && RanPassed(lex, n.entry) then Found(Scanner.SummaryPattern(lex.tables), Shown(n.entry, "id")) else {}
  }

  ghost predicate Covered(lex: Lexicon, nodes: seq<Node>, c: string) {
    exists k :: 0 <= k < |nodes| && c in CoveredBy(lex, nodes[k])
  }

  method CoveredCoordinates(lex: Lexicon, r: Report) returns (covered: set<string>)
    ensures forall c :: c in covered <==> Covered(lex, Nodes(r.passed), c)
  {
    covered := {};
    var nodes := Nodes(r.passed);
    for k := 0 to |nodes|
      invariant forall c :: c in covered <==> Covered(lex, nodes[..k], c)
    {
      assert nodes[..k + 1] == nodes[..k] + [nodes[k]];
      forall c { CoverageGrows(lex, nodes[..k], nodes[k], c); }
      covered := covered + CoveredBy(lex, nodes[k]);
    }
    assert nodes[..|nodes|] == nodes;
  }

  lemma CoverageGrows(lex: Lexicon, nodes: seq<Node>, n: Node, c: string)
    ensures Covered(lex, nodes + [n], c) <==> Covered(lex, nodes, c) || c in CoveredBy(lex, n)
  {
    var more := nodes + [n];
    assert more[|nodes|] == n;
    if Covered(lex, nodes, c) {
      var k :| 0 <= k < |nodes| && c in CoveredBy(lex, nodes[k]);
      assert more[k] == nodes[k];
    }
  }

  lemma FoundMembers(pattern: Regex, text: string, i: nat, e: nat)
    requires (i, e) in FindAll(pattern, text, 0)
    ensures i <= e <= |text| && text[i..e] in Found(pattern, text)
  {
    assert (i, e).0 == i && (i, e).1 == e;
  }

  /** Whatever the summary counts as covered is the start of a coordinate the judge counts
      as passed. */
  lemma CoveredWithinPassed(lex: Lexicon, nodes: seq<Node>, c: string)
    requires Scanner.Proper(lex.tables)
    ensures Covered(lex, nodes, c) ==> exists judged :: PassedBy(lex, nodes, judged) && c <= judged
  {
    if Covered(lex, nodes, c) {
      var k :| 0 <= k < |nodes| && c in CoveredBy(lex, nodes[k]);
      var id := Shown(nodes[k].entry, "id");
      var m :| m in FindAll(Scanner.SummaryPattern(lex.tables), id, 0) && m.0 <= m.1 <= |id| && c == id[m.0..m.1];
      Scanner.WholeTextScans(lex.tables, id, m.0, m.1);
      assert (m.0, m.1) == m;
      var end :| (m.0, end) in FindAll(Scanner.JudgePattern(lex.tables), id, 0) && m.1 <= end && id[m.0..m.1] <= id[m.0..end];
      FoundMembers(Scanner.JudgePattern(lex.tables), id, m.0, end);
      assert Names(lex, nodes[k], id[m.0..end]);
      assert PassedBy(lex, nodes, id[m.0..end]);
    }
  }

  // ---- An entry's findings spelled out ----

  /** The field holds this text, which is not all white space. */
  ghost predicate Holds(lex: Lexicon, e: Entry, field: string, t: string) {
    field in e && e[field] == Text(t) && exists k :: 0 <= k < |t| && !lex.marks.space(t[k])
  }

  ghost predicate HoldsNone(lex: Lexicon, e: Entry, field: string) {
    forall t :: !Holds(lex, e, field, t)
  }

  /** What a deferred entry says about its release. */
  ghost predicate ConditionIs(lex: Lexicon, e: Entry, t: string) {
    if !HoldsNone(lex, e, "unblock") then Holds(lex, e, "unblock", t)
    else if !HoldsNone(lex, e, "unblock_condition") then Holds(lex, e, "unblock_condition", t)
    else if !HoldsNone(lex, e, "release_condition") then Holds(lex, e, "release_condition", t)
    else t == ""
  }

  ghost predicate OwnTicketIs(lex: Lexicon, e: Entry, t: string) {
    if !HoldsNone(lex, e, "ticket") then Holds(lex, e, "ticket", t)
    else if !HoldsNone(lex, e, "follow_up_issue") then Holds(lex, e, "follow_up_issue", t)
    else t == ""
  }

  /** The text a ticket number is looked for in: the entry's own ticket, the document's when
      the entry has no ticket field at all, or else the condition. */
  ghost predicate TicketIs(lex: Lexicon, e: Entry, documentTicket: string, t: string) {
    exists own, condition :: OwnTicketIs(lex, e, own) && ConditionIs(lex, e, condition) &&
                             t == if own != "" then own
                             else if documentTicket != "" && "ticket" !in e && "follow_up_issue" !in e then documentTicket
                             else condition
  }

  predicate SaysStatus(lex: Lexicon, e: Entry, field: string, word: string) {
    Status.Normalize(lex.marks, Shown(e, field)) == word
  }

  /** A deferral in one of the three status fields. */
  predicate IsDeferral(lex: Lexicon, e: Entry) {
    || SaysStatus(lex, e, "status", "DEFERRED_MANUAL") || SaysStatus(lex, e, "matrix_status", "DEFERRED_MANUAL")
    || SaysStatus(lex, e, "判定状态", "DEFERRED_MANUAL")
  }

  /** The run passed, as the status says in any case. */
  predicate IsPass(lex: Lexicon, e: Entry) {
    var fact := Status.Fold(lex.marks, Texts.Strip(lex.marks.space, Shown(e, "status")));
    fact == "pass" || fact == "passed"
  }

  ghost predicate Deserves(lex: Lexicon, e: Entry, documentTicket: string, inPassedList: bool, f: EntryFinding) {
    match f
    case NoCondition => IsDeferral(lex, e) && ConditionIs(lex, e, "")
    case NoTicket => IsDeferral(lex, e) && exists t :: TicketIs(lex, e, documentTicket, t) && !lex.namesTicket(t)
    case SilentSkip => !IsDeferral(lex, e) && inPassedList && !IsPass(lex, e)
    case NoCase => !IsDeferral(lex, e) && inPassedList && IsPass(lex, e) && !lex.namedCase(Shown(e, "evidence"))
    case NoCommand => !IsDeferral(lex, e) && inPassedList && IsPass(lex, e) && lex.commands(Shown(e, "evidence")) == []
    case NoHead => !IsDeferral(lex, e) && inPassedList && IsPass(lex, e) && lex.heads(Shown(e, "evidence")) == []
    case NoReason => !IsDeferral(lex, e) && !inPassedList && Blank(lex, Shown(e, "reason"))
    case NoUnblock => !IsDeferral(lex, e) && !inPassedList && Blank(lex, Shown(e, "unblock"))
  }

  lemma HeldIsFirst(lex: Lexicon, e: Entry, fields: seq<string>, t: string)
    requires fields != []
    ensures HoldsNone(lex, e, fields[0]) ==> FirstText(lex, e, fields) == FirstText(lex, e, fields[1..])
    ensures !HoldsNone(lex, e, fields[0]) ==> (Holds(lex, e, fields[0], t) <==> FirstText(lex, e, fields) == t)
  {
    var field := fields[0];
    if field in e && e[field].Text? && !Blank(lex, e[field].text) {
      assert Holds(lex, e, field, e[field].text);
    }
  }

  lemma ConditionExactly(lex: Lexicon, e: Entry, t: string)
    ensures ConditionIs(lex, e, t) <==> FirstText(lex, e, UNBLOCK_FIELDS) == t
  {
    var second, third := UNBLOCK_FIELDS[1..], UNBLOCK_FIELDS[1..][1..];
    assert second[0] == "unblock_condition" && third == ["release_condition"] && third[1..] == [];
    HeldIsFirst(lex, e, UNBLOCK_FIELDS, t);
    HeldIsFirst(lex, e, second, t);
    HeldIsFirst(lex, e, third, t);
  }

  lemma OwnTicketExactly(lex: Lexicon, e: Entry, t: string)
    ensures OwnTicketIs(lex, e, t) <==> FirstText(lex, e, TICKET_FIELDS) == t
  {
    var second := TICKET_FIELDS[1..];
    assert second == ["follow_up_issue"] && second[1..] == [];
    HeldIsFirst(lex, e, TICKET_FIELDS, t);
    HeldIsFirst(lex, e, second, t);
  }

  lemma TicketExactly(lex: Lexicon, e: Entry, documentTicket: string, t: string)
    ensures TicketIs(lex, e, documentTicket, t) <==> TicketOf(lex, e, documentTicket) == t
  {
    var own, condition := FirstText(lex, e, TICKET_FIELDS), FirstText(lex, e, UNBLOCK_FIELDS);
    forall x ensures OwnTicketIs(lex, e, x) <==> x == own { OwnTicketExactly(lex, e, x); }
    forall x ensures ConditionIs(lex, e, x) <==> x == condition { ConditionExactly(lex, e, x); }
    assert NamesField(e, TICKET_FIELDS) <==> "ticket" in e || "follow_up_issue" in e by {
      assert TICKET_FIELDS[0] == "ticket" && TICKET_FIELDS[1] == "follow_up_issue";
    }
    assert OwnTicketIs(lex, e, own) && ConditionIs(lex, e, condition);
  }

  lemma DeferralExactlySaid(lex: Lexicon, e: Entry)
    ensures Deferred(lex, e) <==> IsDeferral(lex, e)
  {
    assert STATUS_FIELDS[0] == "status" && STATUS_FIELDS[1] == "matrix_status" && STATUS_FIELDS[2] == "判定状态";
  }

  /** An entry draws a finding exactly when it deserves it by its literal fields. */
  lemma EntryFindingsExactly(lex: Lexicon, e: Entry, documentTicket: string, inPassedList: bool, f: EntryFinding)
    ensures EntryFault(lex, e, documentTicket, inPassedList, f) <==> Deserves(lex, e, documentTicket, inPassedList, f)
    ensures forall field :: field in e ==> e[field] == Text(Shown(e, field)) || e[field] == Other(Shown(e, field))
    ensures forall field :: field !in e ==> Shown(e, field) == ""
  {
    DeferralExactlySaid(lex, e);
    if f.NoCondition? {
      ConditionExactly(lex, e, "");
      FirstTextIsNoBlank(lex, e, UNBLOCK_FIELDS);
    }
    if f.NoTicket? {
      forall t { TicketExactly(lex, e, documentTicket, t); }
      assert TicketIs(lex, e, documentTicket, TicketOf(lex, e, documentTicket));
    }
  }

  lemma {:induction false} FirstTextIsNoBlank(lex: Lexicon, e: Entry, fields: seq<string>)
    ensures Blank(lex, FirstText(lex, e, fields)) <==> FirstText(lex, e, fields) == ""
  {
    if fields != [] { FirstTextIsNoBlank(lex, e, fields[1..]); }
  }

  // ---- What a report says, spelled out ----

  /** The entry's id holds the coordinate: a longest one there with no letter or digit before. */
  ghost predicate IdHolds(lex: Lexicon, e: Entry, c: string) {
    var id := Shown(e, "id");
    exists i: nat, j: nat :: i <= j <= |id| && !Scanner.LetterOrDigitBefore(id, i) && Scanner.LongestCoordinateAt(lex.tables, id, i, j) && c == id[i..j]
  }

  lemma NamesExactly(lex: Lexicon, e: Entry, c: string)
    requires Scanner.Proper(lex.tables)
    ensures Names(lex, Object(e), c) <==> IdHolds(lex, e, c)
  {
    var id, pattern := Shown(e, "id"), Scanner.JudgePattern(lex.tables);
    if Names(lex, Object(e), c) {
      var m :| m in FindAll(pattern, id, 0) && m.0 <= m.1 <= |id| && c == id[m.0..m.1];
      assert (m.0, m.1) == m;
      Scanner.WholeTextScans(lex.tables, id, m.0, m.1);
    }
    if i: nat, j: nat :| i <= j <= |id| && !Scanner.LetterOrDigitBefore(id, i) && Scanner.LongestCoordinateAt(lex.tables, id, i, j) && c == id[i..j] {
      Scanner.WholeTextScans(lex.tables, id, i, j);
      FoundMembers(pattern, id, i, j);
    }
  }

  /** A coordinate counts as passed exactly when the id of an entry holds it whose status says
      pass. */
  lemma PassedExactly(lex: Lexicon, nodes: seq<Node>, c: string)
    requires Scanner.Proper(lex.tables)
    ensures PassedBy(lex, nodes, c) <==>
            exists k :: 0 <= k < |nodes| && nodes[k].Object? && IdHolds(lex, nodes[k].entry, c) && IsPass(lex, nodes[k].entry)
  {
    forall e ensures Names(lex, Object(e), c) <==> IdHolds(lex, e, c) { NamesExactly(lex, e, c); }
    forall k | 0 <= k < |nodes| && nodes[k].Object? ensures nodes[k] == Object(nodes[k].entry) { }
  }

  /** A coordinate counts as deferred exactly when the id of an entry holds it one of whose
      status fields says so. */
  lemma DeferredExactly(lex: Lexicon, nodes: seq<Node>, c: string)
    requires Scanner.Proper(lex.tables)
    ensures DeferredBy(lex, nodes, c) <==>
            exists k :: 0 <= k < |nodes| && nodes[k].Object? && IdHolds(lex, nodes[k].entry, c) && IsDeferral(lex, nodes[k].entry)
  {
    forall e ensures Names(lex, Object(e), c) <==> IdHolds(lex, e, c) { NamesExactly(lex, e, c); }
    forall e ensures Deferred(lex, e) <==> IsDeferral(lex, e) { DeferralExactlySaid(lex, e); }
    forall k | 0 <= k < |nodes| && nodes[k].Object? ensures nodes[k] == Object(nodes[k].entry) { }
  }

  /** An entry of either list draws the findings it deserves under the report's own ticket. */
  lemma ReportFindingsExactly(lex: Lexicon, r: Report, list: ListName, position: nat, f: EntryFinding)
    ensures var nodes := if list.PassedList? then Nodes(r.passed) else Nodes(r.notRun);
            ReportFault(lex, r, OnEntry(list, position, f)) <==>
            && position < |nodes| && nodes[position].Object?
            && exists t :: OwnTicketIs(lex, r.fields, t) && Deserves(lex, nodes[position].entry, t, list.PassedList?, f)
  {
    var nodes := if list.PassedList? then Nodes(r.passed) else Nodes(r.notRun);
    forall t ensures OwnTicketIs(lex, r.fields, t) <==> t == DocumentTicket(lex, r) { OwnTicketExactly(lex, r.fields, t); }
    assert OwnTicketIs(lex, r.fields, DocumentTicket(lex, r));
    if position < |nodes| && nodes[position].Object? {
      EntryFindingsExactly(lex, nodes[position].entry, DocumentTicket(lex, r), list.PassedList?, f);
    }
  }
}
