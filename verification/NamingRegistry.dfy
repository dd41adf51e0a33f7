/** The naming registry's loader and its check of the repository: two separate validators
    that together pin down exactly how much naming debt there is. */
module NamingRegistry {
  import opened Wrappers
  import opened Sorting

  datatype NamedFile = NamedFile(path: string, ticket: int, batch: int, legacy: bool, defects: seq<string>, knowledge: string)

  datatype NamedIdentifier = NamedIdentifier(name: string, scope: string, file: string, legacy: bool, harness: bool, randomFixture: bool)

  datatype Baseline = Baseline(files: int, exported: int, private_: int)

  /** A definition site: name, scope and defining file. */
  type Site = (string, string, string)

  /** The parts of the naming policy that stay abstract: the rules about a path alone, and
      the definitions a language scanner finds in a source text. */
  datatype Policy = Policy(
    digit: char -> bool,
    space: char -> bool,
    nameBreaks: (string, string) -> bool,
    definitions: (string, string) -> seq<(string, string)>,
    rigDirectories: seq<string>,
    randomFixtures: set<string>)

  /** The scanned code files with their texts, and the paths that exist at all. */
  datatype Repository = Repository(codeFiles: seq<string>, text: string -> string, present: set<string>)

  // ---- The policy ----

  const NUMBERED_IDENTIFIERS := "numbered_identifiers"

  const RIG_EXEMPT := {"segment_number", "task_number", "numbered_identifiers"}

  /** The rules about files, in the order in which a file is tested. */
  const FILE_DEFECTS := ["numbered", "segment_number", "ticket_number", "task_number", "numbered_identifiers",
                         "frontend_kebab", "frontend_vue_case", "frontend_camel", "weak_name"]

  const BATCH_BY_TICKET := map[362 := 4, 363 := 4, 364 := 4, 365 := 3, 366 := 3, 367 := 4, 368 := 5, 369 := 5, 370 := 1]

  const VACUOUS := ["相关代码", "相关逻辑", "相关实现", "相关文件", "待补充", "TODO"]

  const MIN_KNOWLEDGE := 10

  predicate WorkNumbered(p: Policy, name: string) {
    || (|name| >= 2 && name[0] in {'g', 'G', 't', 'T'} && p.digit(name[1]))
    || (|name| >= 4 && name[0] in {'s', 'S'} && name[1] in {'e', 'E'} && name[2] in {'g', 'G'} && p.digit(name[3]))
  }

  predicate InRig(p: Policy, path: string) {
    exists k :: 0 <= k < |p.rigDirectories| && p.rigDirectories[k] <= path
  }

  /** A file breaks a rule by its path, or by the numbered identifiers it defines. */
  predicate Breaks(p: Policy, r: Repository, path: string, rule: string) {
    && (if rule == NUMBERED_IDENTIFIERS then NumberedSites(p, p.definitions(path, r.text(path)), path) != {}
        else p.nameBreaks(path, rule))
    && !(InRig(p, path) && rule in RIG_EXEMPT)
  }

  /** Those of some rules that a file breaks, in their order. */
  function Broken(p: Policy, r: Repository, path: string, rules: seq<string>): seq<string> {
    if rules == [] then [] else (if Breaks(p, r, path, rules[0]) then [rules[0]] else []) + Broken(p, r, path, rules[1..])
  }

  function FileDefects(p: Policy, r: Repository, path: string): seq<string> {
    Broken(p, r, path, FILE_DEFECTS)
  }

  lemma {:induction false} BrokenRules(p: Policy, r: Repository, path: string, rules: seq<string>, rule: string)
    ensures rule in Broken(p, r, path, rules) <==> rule in rules && Breaks(p, r, path, rule)
  {
    if rules != [] { BrokenRules(p, r, path, rules[1..], rule); }
  }

  function Breaking(p: Policy, r: Repository): set<string> {
    set path | path in r.codeFiles && FileDefects(p, r, path) != []
  }

  function NumberedSites(p: Policy, definitions: seq<(string, string)>, path: string): set<Site> {
    set d | d in definitions && WorkNumbered(p, d.0) :: (d.0, d.1, path)
  }

  function LiveSites(p: Policy, r: Repository): set<Site> {
    set path, site | path in r.codeFiles && site in NumberedSites(p, p.definitions(path, r.text(path)), path) :: site
  }

  // ---- The loader ----

  predicate Contains(text: string, part: string) {
    exists k :: 0 <= k <= |text| && part <= text[k..]
  }

  predicate Escapes(path: string) {
    || path == ".." || "../" <= path || Contains(path, "/../")
    || (|path| >= 3 && path[|path| - 3..] == "/..")
  }

  predicate Blank(p: Policy, text: string) {
    forall k :: 0 <= k < |text| ==> p.space(text[k])
  }

  predicate RepoPath(p: Policy, path: string) {
    !Blank(p, path) && path[0] != '/' && '\\' !in path && !Escapes(path)
  }

  predicate FileRecordOk(p: Policy, f: NamedFile) {
    && RepoPath(p, f.path)
    && f.ticket in BATCH_BY_TICKET && BATCH_BY_TICKET[f.ticket] == f.batch
    && f.defects != [] && (forall d :: d in f.defects ==> d in FILE_DEFECTS)
    && !Blank(p, f.knowledge) && |f.knowledge| >= MIN_KNOWLEDGE
    && (forall v :: v in VACUOUS ==> !Contains(f.knowledge, v))
  }

  predicate IdentifierRecordOk(p: Policy, i: NamedIdentifier) {
    && WorkNumbered(p, i.name)
    && i.scope in {"exported", "private"}
    && RepoPath(p, i.file)
    && (i.harness ==> InRig(p, i.file))
    && (i.randomFixture ==> i.name in p.randomFixtures)
    && (i.legacy <==> !(i.harness || i.randomFixture))
  }

  predicate BaselineOk(b: Baseline) { b.files >= 0 && b.exported >= 0 && b.private_ >= 0 }

  datatype Field = Path | Ticket | Batch | Defects | Knowledge | Name | Scope | DefiningFile | Harness | RandomFixture | Legacy

  datatype Segment = Files | Exported | Private

  datatype LoadError =
    | BadFile(index: nat, field: Field) | BadIdentifier(index: nat, field: Field) | BadBaseline
    | PathTwice(path: string) | KnowledgeTwice(knowledge: string) | IdentifierTwice(site: Site)
    | SegmentGrew(segment: Segment) | BaselineMismatch

  /** The first field of a file record that is refused. */
  function FileFault(p: Policy, f: NamedFile): Option<Field> {
    if !RepoPath(p, f.path) then Some(Path)
    else if f.ticket !in BATCH_BY_TICKET then Some(Ticket)
    else if BATCH_BY_TICKET[f.ticket] != f.batch then Some(Batch)
    else if f.defects == [] || exists d :: d in f.defects && d !in FILE_DEFECTS then Some(Defects)
    else if Blank(p, f.knowledge) || |f.knowledge| < MIN_KNOWLEDGE || exists v :: v in VACUOUS && Contains(f.knowledge, v) then Some(Knowledge)
    else None
  }

  /** The first field of an identifier record that is refused. */
  function IdentifierFault(p: Policy, i: NamedIdentifier): Option<Field> {
    if !WorkNumbered(p, i.name) then Some(Name)
    else if i.scope !in {"exported", "private"} then Some(Scope)
    else if !RepoPath(p, i.file) then Some(DefiningFile)
    else if i.harness && !InRig(p, i.file) then Some(Harness)
    else if i.randomFixture && i.name !in p.randomFixtures then Some(RandomFixture)
    else if i.legacy != !(i.harness || i.randomFixture) then Some(Legacy)
    else None
  }

  lemma NoFaultIsOk(p: Policy, f: NamedFile, i: NamedIdentifier)
    ensures FileFault(p, f).None? <==> FileRecordOk(p, f)
    ensures IdentifierFault(p, i).None? <==> IdentifierRecordOk(p, i)
  {
  }

  function SiteOf(i: NamedIdentifier): Site { (i.name, i.scope, i.file) }

  function LegacyFiles(files: seq<NamedFile>): nat {
    if files == [] then 0 else LegacyFiles(files[..|files| - 1]) + if files[|files| - 1].legacy then 1 else 0
  }

  function LegacyIn(ids: seq<NamedIdentifier>, scope: string): nat {
    if ids == [] then 0
    else LegacyIn(ids[..|ids| - 1], scope) + if ids[|ids| - 1].legacy && ids[|ids| - 1].scope == scope then 1 else 0
  }

  ghost predicate DistinctFiles(files: seq<NamedFile>) {
    forall i, j :: 0 <= i < j < |files| ==> files[i].path != files[j].path
  }

  ghost predicate DistinctKnowledge(files: seq<NamedFile>) {
    forall i, j :: 0 <= i < j < |files| ==> files[i].knowledge != files[j].knowledge
  }

  ghost predicate DistinctSites(ids: seq<NamedIdentifier>) {
    forall i, j :: 0 <= i < j < |ids| ==> SiteOf(ids[i]) != SiteOf(ids[j])
  }

  /** Every record is well formed, nothing is declared twice, and each legacy segment is
      exactly as long as the baseline says. */
  ghost predicate RegistryValid(p: Policy, files: seq<NamedFile>, ids: seq<NamedIdentifier>, b: Baseline) {
    && (forall f :: f in files ==> FileRecordOk(p, f))
    && (forall i :: i in ids ==> IdentifierRecordOk(p, i))
    && DistinctFiles(files) && DistinctKnowledge(files) && DistinctSites(ids)
    && LegacyFiles(files) == b.files
    && LegacyIn(ids, "exported") == b.exported && LegacyIn(ids, "private") == b.private_
  }

  ghost predicate RecordsOk(p: Policy, files: seq<NamedFile>, ids: seq<NamedIdentifier>) {
    (forall f :: f in files ==> FileRecordOk(p, f)) && (forall i :: i in ids ==> IdentifierRecordOk(p, i))
  }

  ghost predicate NothingTwice(files: seq<NamedFile>, ids: seq<NamedIdentifier>) {
    DistinctFiles(files) && DistinctKnowledge(files) && DistinctSites(ids)
  }

  /** Some legacy segment is longer than the baseline allows; the first one in this order. */
  function GrownSegment(files: seq<NamedFile>, ids: seq<NamedIdentifier>, b: Baseline): Option<Segment> {
    if LegacyFiles(files) > b.files then Some(Files)
    else if LegacyIn(ids, "exported") > b.exported then Some(Exported)
    else if LegacyIn(ids, "private") > b.private_ then Some(Private)
    else None
  }

  /** What each refusal says: the first record with its first bad field, the first repeated
      value, or the first segment that grew, with everything checked before in order. */
  ghost predicate Refuses(p: Policy, files: seq<NamedFile>, ids: seq<NamedIdentifier>, b: Baseline, e: LoadError) {
    match e
    case BadFile(k, field) =>
      k < |files| && FileFault(p, files[k]) == Some(field) && forall f :: f in files[..k] ==> FileRecordOk(p, f)
    case BadIdentifier(k, field) =>
      && (forall f :: f in files ==> FileRecordOk(p, f))
      && k < |ids| && IdentifierFault(p, ids[k]) == Some(field) && forall i :: i in ids[..k] ==> IdentifierRecordOk(p, i)
    case BadBaseline => RecordsOk(p, files, ids) && !BaselineOk(b)
    case PathTwice(_) => RecordsOk(p, files, ids) && BaselineOk(b) && RepeatRefused(files, ids, e)
    case KnowledgeTwice(_) => RecordsOk(p, files, ids) && BaselineOk(b) && RepeatRefused(files, ids, e)
    case IdentifierTwice(_) => RecordsOk(p, files, ids) && BaselineOk(b) && RepeatRefused(files, ids, e)
    case SegmentGrew(segment) =>
      RecordsOk(p, files, ids) && BaselineOk(b) && NothingTwice(files, ids) && GrownSegment(files, ids, b) == Some(segment)
    case BaselineMismatch =>
      && RecordsOk(p, files, ids) && BaselineOk(b) && NothingTwice(files, ids) && GrownSegment(files, ids, b).None?
      && (LegacyFiles(files), LegacyIn(ids, "exported"), LegacyIn(ids, "private")) != (b.files, b.exported, b.private_)
  }

  ghost predicate RepeatRefused(files: seq<NamedFile>, ids: seq<NamedIdentifier>, e: LoadError) {
    match e
    case PathTwice(path) =>
      exists k: nat :: k < |files| && files[k].path == path && DistinctFiles(files[..k])
                       && exists j :: 0 <= j < k && files[j].path == path
    case KnowledgeTwice(knowledge) =>
      && DistinctFiles(files)
      && exists k: nat :: k < |files| && files[k].knowledge == knowledge && DistinctKnowledge(files[..k])
                          && exists j :: 0 <= j < k && files[j].knowledge == knowledge
    case IdentifierTwice(site) =>
      && DistinctFiles(files) && DistinctKnowledge(files)
      && exists k: nat :: k < |ids| && SiteOf(ids[k]) == site && DistinctSites(ids[..k])
                          && exists j :: 0 <= j < k && SiteOf(ids[j]) == site
    case _ => false
  }

  method CheckRecords(p: Policy, files: seq<NamedFile>, ids: seq<NamedIdentifier>, ghost b: Baseline) returns (error: Option<LoadError>)
    ensures error.None? <==> RecordsOk(p, files, ids)
    ensures error.Some? ==> Refuses(p, files, ids, b, error.value)
  {
    for k := 0 to |files|
      invariant forall f :: f in files[..k] ==> FileRecordOk(p, f)
    {
      forall i { NoFaultIsOk(p, files[k], i); }
      var fault := FileFault(p, files[k]);
      if fault.Some? {
        assert files[k] in files;
        return Some(BadFile(k, fault.value));
      }
    }
    assert files[..|files|] == files;
    for k := 0 to |ids|
      invariant forall i :: i in ids[..k] ==> IdentifierRecordOk(p, i)
    {
      forall f { NoFaultIsOk(p, f, ids[k]); }
      var fault := IdentifierFault(p, ids[k]);
      if fault.Some? {
        assert ids[k] in ids;
        return Some(BadIdentifier(k, fault.value));
      }
    }
    assert ids[..|ids|] == ids;
    error := None;
  }

  method CheckPaths(files: seq<NamedFile>, ghost ids: seq<NamedIdentifier>) returns (error: Option<LoadError>)
    ensures error.None? <==> DistinctFiles(files)
    ensures error.Some? ==> error.value.PathTwice? && RepeatRefused(files, ids, error.value)
  {
    var seenPaths: set<string> := {};
    for k := 0 to |files|
      invariant seenPaths == set j | 0 <= j < k :: files[j].path
      invariant DistinctFiles(files[..k])
    {
      if files[k].path in seenPaths { return Some(PathTwice(files[k].path)); }
      seenPaths := seenPaths + {files[k].path};
    }
    assert files[..|files|] == files;
    error := None;
  }

  method CheckKnowledge(files: seq<NamedFile>, ghost ids: seq<NamedIdentifier>) returns (error: Option<LoadError>)
    requires DistinctFiles(files)
    ensures error.None? <==> DistinctKnowledge(files)
    ensures error.Some? ==> error.value.KnowledgeTwice? && RepeatRefused(files, ids, error.value)
  {
    var seenKnowledge: map<string, string> := map[];
    for k := 0 to |files|
      invariant seenKnowledge.Keys == set j | 0 <= j < k :: files[j].knowledge
      invariant DistinctKnowledge(files[..k])
    {
      if files[k].knowledge in seenKnowledge { return Some(KnowledgeTwice(files[k].knowledge)); }
      seenKnowledge := seenKnowledge[files[k].knowledge := files[k].path];
    }
    assert files[..|files|] == files;
    error := None;
  }

  method CheckIdentifiers(ghost files: seq<NamedFile>, ids: seq<NamedIdentifier>) returns (error: Option<LoadError>)
    requires DistinctFiles(files) && DistinctKnowledge(files)
    ensures error.None? <==> DistinctSites(ids)
    ensures error.Some? ==> error.value.IdentifierTwice? && RepeatRefused(files, ids, error.value)
  {
    var seenSites: set<Site> := {};
    for k := 0 to |ids|
      invariant seenSites == set j | 0 <= j < k :: SiteOf(ids[j])
      invariant DistinctSites(ids[..k])
    {
      if SiteOf(ids[k]) in seenSites { return Some(IdentifierTwice(SiteOf(ids[k]))); }
      seenSites := seenSites + {SiteOf(ids[k])};
    }
    assert ids[..|ids|] == ids;
    error := None;
  }

  /** Refuses exactly the first value that is declared twice. */
  method CheckDuplicates(files: seq<NamedFile>, ids: seq<NamedIdentifier>) returns (error: Option<LoadError>)
    ensures error.None? <==> NothingTwice(files, ids)
    ensures error.Some? ==> RepeatRefused(files, ids, error.value)
  {
    error := CheckPaths(files, ids);
    if error.Some? { return; }
    error := CheckKnowledge(files, ids);
    if error.Some? { return; }
    error := CheckIdentifiers(files, ids);
  }

  method CheckSegments(files: seq<NamedFile>, ids: seq<NamedIdentifier>, b: Baseline) returns (error: Option<LoadError>)
    ensures error == match GrownSegment(files, ids, b)
              case Some(segment) => Some(SegmentGrew(segment))
              case None =>
                if (LegacyFiles(files), LegacyIn(ids, "exported"), LegacyIn(ids, "private")) != (b.files, b.exported, b.private_)
                then Some(BaselineMismatch) else None
  {
    var legacyFiles, exported, private_ := 0, 0, 0;
    for k := 0 to |files|
      invariant legacyFiles == LegacyFiles(files[..k])
    {
      assert files[..k + 1][..k] == files[..k];
      if files[k].legacy { legacyFiles := legacyFiles + 1; }
    }
    for k := 0 to |ids|
      invariant exported == LegacyIn(ids[..k], "exported") && private_ == LegacyIn(ids[..k], "private")
    {
      assert ids[..k + 1][..k] == ids[..k];
      if ids[k].legacy && ids[k].scope == "exported" { exported := exported + 1; }
      if ids[k].legacy && ids[k].scope == "private" { private_ := private_ + 1; }
    }
    assert files[..|files|] == files && ids[..|ids|] == ids;
    if legacyFiles > b.files { return Some(SegmentGrew(Files)); }
    if exported > b.exported { return Some(SegmentGrew(Exported)); }
    if private_ > b.private_ { return Some(SegmentGrew(Private)); }
    if (legacyFiles, exported, private_) != (b.files, b.exported, b.private_) { return Some(BaselineMismatch); }
    error := None;
  }

  /** Accepts exactly the valid registries, and names the first thing wrong with any other. */
  method ValidateRecords(p: Policy, files: seq<NamedFile>, ids: seq<NamedIdentifier>, b: Baseline)
    returns (error: Option<LoadError>)
    ensures error.None? <==> RegistryValid(p, files, ids, b)
    ensures error.Some? ==> Refuses(p, files, ids, b, error.value)
  {
    error := CheckRecords(p, files, ids, b);
    if error.Some? { return; }
    if !BaselineOk(b) { return Some(BadBaseline); }
    error := CheckDuplicates(files, ids);
    if error.Some? { return; }
    error := CheckSegments(files, ids, b);
  }

  // ---- The repository check ----

  datatype Complaint =
    | Undeclared(path: string, rules: seq<string>)
    | LegacyButClean(path: string)
    | RenamedButBreaking(path: string, rules: seq<string>)
    | NotThere(path: string)
    | UndeclaredSite(site: Site)
    | VanishedSite(site: Site)
    | FilesGrew(n: nat) | ExportedGrew(n: nat) | PrivateGrew(n: nat)

  /** The record a path finds: of several records under one path, the last. */
  function ByPath(files: seq<NamedFile>): map<string, NamedFile> {
    if files == [] then map[] else ByPath(files[..|files| - 1])[files[|files| - 1].path := files[|files| - 1]]
  }

  lemma {:induction false} ByPathIsLast(files: seq<NamedFile>, k: nat)
    requires k < |files| && forall j :: k < j < |files| ==> files[j].path != files[k].path
    ensures files[k].path in ByPath(files) && ByPath(files)[files[k].path] == files[k]
  {
    if k < |files| - 1 { ByPathIsLast(files[..|files| - 1], k); }
  }

  function Declared(files: seq<NamedFile>): set<string> { ByPath(files).Keys }

  function LegacyPaths(files: seq<NamedFile>): set<string> {
    set path | path in ByPath(files) && ByPath(files)[path].legacy
  }

  function DeclaredSites(ids: seq<NamedIdentifier>): set<Site> {
    set i | i in ids :: SiteOf(i)
  }

  function OutsideRigs(p: Policy, sites: set<Site>, scope: string): set<Site> {
    set s | s in sites && s.1 == scope && !InRig(p, s.2)
  }

  ghost predicate FilesAgree(breaking: set<string>, files: seq<NamedFile>, present: set<string>) {
    && breaking <= Declared(files)
    && forall path :: path in Declared(files) ==> (path in LegacyPaths(files) <==> path in breaking) && path in present
  }

  /** The code files that break a rule, each with the rules it breaks. */
  function LiveDefects(p: Policy, r: Repository): map<string, seq<string>> {
    map path | path in Breaking(p, r) :: FileDefects(p, r, path)
  }

  method ScanFileDefects(p: Policy, r: Repository) returns (found: map<string, seq<string>>)
    ensures found == LiveDefects(p, r)
  {
    found := map[];
    for k := 0 to |r.codeFiles|
      invariant found == map path | path in r.codeFiles[..k] && FileDefects(p, r, path) != [] :: FileDefects(p, r, path)
    {
      assert r.codeFiles[..k + 1] == r.codeFiles[..k] + [r.codeFiles[k]];
      var defects := FileDefects(p, r, r.codeFiles[k]);
      if defects != [] { found := found[r.codeFiles[k] := defects]; }
    }
    assert r.codeFiles[..|r.codeFiles|] == r.codeFiles;
  }

  function Sites(found: seq<Site>): set<Site> {
    set s | s in found
  }

  lemma NumberedSitesAppend(p: Policy, definitions: seq<(string, string)>, d: (string, string), path: string)
    ensures NumberedSites(p, definitions + [d], path) ==
            NumberedSites(p, definitions, path) + if WorkNumbered(p, d.0) then {(d.0, d.1, path)} else {}
  {
    var all := NumberedSites(p, definitions + [d], path);
    forall site | site in NumberedSites(p, definitions, path) ensures site in all {
      var e :| e in definitions && WorkNumbered(p, e.0) && site == (e.0, e.1, path);
      assert e in definitions + [d];
    }
    if WorkNumbered(p, d.0) {
      assert d in definitions + [d];
    }
  }

  method ScanDefinitions(p: Policy, definitions: seq<(string, string)>, path: string, before: seq<Site>) returns (found: seq<Site>)
    ensures Sites(found) == Sites(before) + NumberedSites(p, definitions, path)
  {
    found := before;
    for j := 0 to |definitions|
      invariant Sites(found) == Sites(before) + NumberedSites(p, definitions[..j], path)
    {
      NumberedSitesAppend(p, definitions[..j], definitions[j], path);
      assert definitions[..j + 1] == definitions[..j] + [definitions[j]];
      var site := (definitions[j].0, definitions[j].1, path);
      assert Sites(found + [site]) == Sites(found) + {site};
      if WorkNumbered(p, definitions[j].0) && site !in found { found := found + [site]; }
    }
    assert definitions[..|definitions|] == definitions;
  }

  /** The numbered definition sites, in scan order, each once. */
  method ScanIdentifierDefinitions(p: Policy, r: Repository) returns (found: seq<Site>)
    ensures Sites(found) == LiveSites(p, r)
  {
    found := [];
    for k := 0 to |r.codeFiles|
      invariant Sites(found) == LiveSites(p, r.(codeFiles := r.codeFiles[..k]))
    {
      assert r.codeFiles[..k + 1] == r.codeFiles[..k] + [r.codeFiles[k]];
      found := ScanDefinitions(p, p.definitions(r.codeFiles[k], r.text(r.codeFiles[k])), r.codeFiles[k], found);
    }
    assert r.codeFiles[..|r.codeFiles|] == r.codeFiles;
  }

  // ---- The order of complaints ----

  predicate SiteBefore(a: Site, b: Site) {
    || TextBefore(a.0, b.0)
    || (a.0 == b.0 && (TextBefore(a.1, b.1) || (a.1 == b.1 && TextBefore(a.2, b.2))))
  }

  lemma SiteOrderIsTotal()
    ensures TotalOrder(SiteBefore)
  {
    TextOrderIsTotal();
  }

  function Rank(c: Complaint): nat {
    match c
    case Undeclared(_, _) => 0
    case LegacyButClean(_) => 1
    case RenamedButBreaking(_, _) => 2
    case NotThere(_) => 2
    case UndeclaredSite(_) => 3
    case VanishedSite(_) => 4
    case FilesGrew(_) => 5
    case ExportedGrew(_) => 6
    case PrivateGrew(_) => 7
  }

  /** The order in which complaints are printed: kind by kind, and within a kind by path or
      by site. */
  predicate Precedes(c: Complaint, d: Complaint) {
    || Rank(c) < Rank(d)
    || (Rank(c) == Rank(d) <= 2 && (TextBefore(c.path, d.path) || (c.path == d.path && c.RenamedButBreaking? && d.NotThere?)))
    || (3 <= Rank(c) == Rank(d) <= 4 && SiteBefore(c.site, d.site))
  }

  ghost predicate Ordered(cs: seq<Complaint>, low: nat, high: nat) {
    Ascending(cs, Precedes) && forall c :: c in cs ==> low <= Rank(c) <= high
  }

  lemma OrderedAppend(a: seq<Complaint>, b: seq<Complaint>, low: nat, middle: nat, high: nat)
    requires low <= middle < high && Ordered(a, low, middle) && Ordered(b, middle + 1, high)
    ensures Ordered(a + b, low, high)
  {
    var all := a + b;
    forall i, j | 0 <= i < j < |all| ensures Precedes(all[i], all[j]) {
      if i < |a| { assert all[i] in a; }
      if j >= |a| { assert all[j] in b; }
    }
  }

  // ---- The complaints themselves ----

  ghost predicate FileComplaint(c: Complaint, live: map<string, seq<string>>, files: seq<NamedFile>, present: set<string>) {
    match c
    case Undeclared(path, rules) => path in live && rules == live[path] && path !in Declared(files)
    case LegacyButClean(path) => path in LegacyPaths(files) && path !in live
    case RenamedButBreaking(path, rules) =>
      path in Declared(files) && path !in LegacyPaths(files) && path in live && rules == live[path]
    case NotThere(path) => path in Declared(files) && path !in present
    case _ => false
  }

  predicate SiteComplaint(c: Complaint, live: set<Site>, declared: set<Site>) {
    || (c.UndeclaredSite? && c.site in live && c.site !in declared)
    || (c.VanishedSite? && c.site in declared && c.site !in live)
  }

  method CheckUndeclared(files: seq<NamedFile>, live: map<string, seq<string>>, ghost present: set<string>) returns (complaints: seq<Complaint>)
    ensures forall c :: c in complaints <==> Rank(c) == 0 && FileComplaint(c, live, files, present)
    ensures Ordered(complaints, 0, 0)
  {
    var paths := SortTexts(live.Keys - Declared(files));
    assert forall j :: 0 <= j < |paths| ==> paths[j] in paths;
    complaints := [];
    for k := 0 to |paths|
      invariant |complaints| == k && forall j :: 0 <= j < k ==> complaints[j] == Undeclared(paths[j], live[paths[j]])
    {
      complaints := complaints + [Undeclared(paths[k], live[paths[k]])];
    }
    UndeclaredAreTold(complaints, paths, files, live, present);
  }

  lemma UndeclaredAreTold(cs: seq<Complaint>, paths: seq<string>, files: seq<NamedFile>, live: map<string, seq<string>>, present: set<string>)
    requires Ascending(paths, TextBefore) && forall path :: path in paths <==> path in live.Keys - Declared(files)
    requires |cs| == |paths| && forall j :: 0 <= j < |paths| ==> paths[j] in live && cs[j] == Undeclared(paths[j], live[paths[j]])
    ensures forall c :: c in cs <==> Rank(c) == 0 && FileComplaint(c, live, files, present)
    ensures Ordered(cs, 0, 0)
  {
    forall c | Rank(c) == 0 && FileComplaint(c, live, files, present) ensures c in cs {
      assert c.path in paths;
      var k :| 0 <= k < |paths| && paths[k] == c.path;
      assert cs[k] == c;
    }
    forall c | c in cs ensures Rank(c) == 0 && FileComplaint(c, live, files, present) {
      var k :| 0 <= k < |cs| && cs[k] == c;
      assert paths[k] in paths;
    }
  }

  /** Exactly the complaints of one rank about some of the paths, in order. */
  ghost predicate Told(cs: seq<Complaint>, rank: nat, paths: seq<string>,
                       files: seq<NamedFile>, live: map<string, seq<string>>, present: set<string>)
    requires rank <= 2
  {
    && Ordered(cs, rank, rank)
    && forall c :: c in cs <==> Rank(c) == rank && c.path in paths && FileComplaint(c, live, files, present)
  }

  /** What one path gives rise to, in the order in which it is said. */
  function PathComplaints(rank: nat, path: string, files: seq<NamedFile>, live: map<string, seq<string>>, present: set<string>): seq<Complaint>
    requires path in ByPath(files)
  {
    var legacy := ByPath(files)[path].legacy;
    if rank == 1 then if legacy && path !in live then [LegacyButClean(path)] else []
    else (if !legacy && path in live then [RenamedButBreaking(path, live[path])] else [])
         + if path !in present then [NotThere(path)] else []
  }

  lemma PathIsTold(c: Complaint, rank: nat, path: string, files: seq<NamedFile>, live: map<string, seq<string>>, present: set<string>)
    requires 1 <= rank <= 2 && path in ByPath(files)
    ensures c in PathComplaints(rank, path, files, live, present) <==>
            Rank(c) == rank && c.path == path && FileComplaint(c, live, files, present)
  {
  }

  lemma TellPath(cs: seq<Complaint>, rank: nat, paths: seq<string>, k: nat,
                 files: seq<NamedFile>, live: map<string, seq<string>>, present: set<string>)
    requires 1 <= rank <= 2 && k < |paths| && paths[k] in ByPath(files) && Ascending(paths, TextBefore)
    requires Told(cs, rank, paths[..k], files, live, present)
    ensures Told(cs + PathComplaints(rank, paths[k], files, live, present), rank, paths[..k + 1], files, live, present)
  {
    var own := PathComplaints(rank, paths[k], files, live, present);
    forall c { PathIsTold(c, rank, paths[k], files, live, present); }
    assert paths[..k + 1] == paths[..k] + [paths[k]];
    var more := cs + own;
    forall i, j | 0 <= i < j < |more| ensures Precedes(more[i], more[j]) {
      if i < |cs| <= j { assert more[i] in cs && more[j] in own; }
    }
  }

  lemma AllTold(cs: seq<Complaint>, rank: nat, paths: seq<string>, files: seq<NamedFile>, live: map<string, seq<string>>, present: set<string>)
    requires rank <= 2 && Told(cs, rank, paths, files, live, present)
    requires forall c: Complaint :: Rank(c) == rank && FileComplaint(c, live, files, present) ==> c.path in paths
    ensures Ordered(cs, rank, rank) && forall c :: c in cs <==> Rank(c) == rank && FileComplaint(c, live, files, present)
  {
  }

  method CheckCleared(files: seq<NamedFile>, live: map<string, seq<string>>, ghost present: set<string>) returns (complaints: seq<Complaint>)
    ensures forall c :: c in complaints <==> Rank(c) == 1 && FileComplaint(c, live, files, present)
    ensures Ordered(complaints, 1, 1)
  {
    var declared := ByPath(files);
    var paths := SortTexts(declared.Keys - live.Keys);
    assert forall j :: 0 <= j < |paths| ==> paths[j] in paths;
    complaints := [];
    for k := 0 to |paths|
      invariant Told(complaints, 1, paths[..k], files, live, present)
    {
      TellPath(complaints, 1, paths, k, files, live, present);
      if declared[paths[k]].legacy {
        complaints := complaints + [LegacyButClean(paths[k])];
      }
    }
    assert paths[..|paths|] == paths;
    AllTold(complaints, 1, paths, files, live, present);
  }

  method CheckPath(ghost files: seq<NamedFile>, path: string, f: NamedFile, live: map<string, seq<string>>, present: set<string>)
    returns (complaints: seq<Complaint>)
    requires path in ByPath(files) && f == ByPath(files)[path]
    ensures complaints == PathComplaints(2, path, files, live, present)
  {
    complaints := [];
    if !f.legacy && path in live {
      complaints := complaints + [RenamedButBreaking(path, live[path])];
    }
    if path !in present {
      complaints := complaints + [NotThere(path)];
    }
  }

  method CheckDeclared(files: seq<NamedFile>, live: map<string, seq<string>>, present: set<string>) returns (complaints: seq<Complaint>)
    ensures forall c :: c in complaints <==> Rank(c) == 2 && FileComplaint(c, live, files, present)
    ensures Ordered(complaints, 2, 2)
  {
    var declared := ByPath(files);
    var paths := SortTexts(declared.Keys);
    assert forall j :: 0 <= j < |paths| ==> paths[j] in paths;
    complaints := [];
    for k := 0 to |paths|
      invariant Told(complaints, 2, paths[..k], files, live, present)
    {
      TellPath(complaints, 2, paths, k, files, live, present);
      var own := CheckPath(files, paths[k], declared[paths[k]], live, present);
      complaints := complaints + own;
    }
    assert paths[..|paths|] == paths;
    AllTold(complaints, 2, paths, files, live, present);
  }

  method CheckFiles(files: seq<NamedFile>, live: map<string, seq<string>>, present: set<string>) returns (complaints: seq<Complaint>)
    ensures forall c :: c in complaints <==> FileComplaint(c, live, files, present)
    ensures Ordered(complaints, 0, 2)
  {
    var undeclared := CheckUndeclared(files, live, present);
    var cleared := CheckCleared(files, live, present);
    var declared := CheckDeclared(files, live, present);
    OrderedAppend(undeclared, cleared, 0, 0, 1);
    OrderedAppend(undeclared + cleared, declared, 0, 1, 2);
    complaints := undeclared + cleared + declared;
  }

  method CheckSites(live: seq<Site>, ids: seq<NamedIdentifier>) returns (complaints: seq<Complaint>)
    ensures forall c :: c in complaints <==> SiteComplaint(c, Sites(live), DeclaredSites(ids))
    ensures Ordered(complaints, 3, 4)
  {
    SiteOrderIsTotal();
    var declared := DeclaredSites(ids);
    var undeclared := Sort(Sites(live) - declared, SiteBefore);
    var vanished := Sort(declared - Sites(live), SiteBefore);
    var first: seq<Complaint> := [];
    for k := 0 to |undeclared|
      invariant |first| == k && forall j :: 0 <= j < k ==> first[j] == UndeclaredSite(undeclared[j])
    {
      first := first + [UndeclaredSite(undeclared[k])];
    }
    var second: seq<Complaint> := [];
    for k := 0 to |vanished|
      invariant |second| == k && forall j :: 0 <= j < k ==> second[j] == VanishedSite(vanished[j])
    {
      second := second + [VanishedSite(vanished[k])];
    }
    OrderedAppend(first, second, 3, 3, 4);
    complaints := first + second;
    forall c ensures c in complaints <==> SiteComplaint(c, Sites(live), declared) {
      if c.UndeclaredSite? && c.site in undeclared {
        var k :| 0 <= k < |undeclared| && undeclared[k] == c.site;
        assert first[k] == c;
      }
      if c.VanishedSite? && c.site in vanished {
        var k :| 0 <= k < |vanished| && vanished[k] == c.site;
        assert second[k] == c;
      }
    }
  }

  predicate Growth(legacyLive: nat, exported: nat, private_: nat, b: Baseline, c: Complaint) {
    match c
    case FilesGrew(n) => n == legacyLive > b.files
    case ExportedGrew(n) => n == exported > b.exported
    case PrivateGrew(n) => n == private_ > b.private_
    case _ => false
  }

  /** What the check reads off the repository: which code files break which rules, which
      numbered identifiers are defined where, how many of each scope lie outside the rigs,
      and which paths exist. */
  datatype Findings = Findings(live: map<string, seq<string>>, sites: set<Site>, exported: nat, private_: nat, present: set<string>)

  ghost function Scanned(p: Policy, r: Repository): Findings {
    Findings(LiveDefects(p, r), LiveSites(p, r), |OutsideRigs(p, LiveSites(p, r), "exported")|,
             |OutsideRigs(p, LiveSites(p, r), "private")|, r.present)
  }

  /** A complaint about a file, a site, or the length of a segment. */
  ghost predicate Due(f: Findings, files: seq<NamedFile>, ids: seq<NamedIdentifier>, b: Baseline, c: Complaint) {
    || FileComplaint(c, f.live, files, f.present)
    || SiteComplaint(c, f.sites, DeclaredSites(ids))
    || Growth(|f.live.Keys * LegacyPaths(files)|, f.exported, f.private_, b, c)
  }

  /** The check has nothing to say about any file or site. */
  ghost predicate Accounted(f: Findings, files: seq<NamedFile>, ids: seq<NamedIdentifier>) {
    FilesAgree(f.live.Keys, files, f.present) && f.sites == DeclaredSites(ids)
  }

  /** Registry and repository agree, and the live debt is within the baseline. */
  ghost predicate Agreed(f: Findings, files: seq<NamedFile>, ids: seq<NamedIdentifier>, b: Baseline) {
    && Accounted(f, files, ids)
    && |f.live.Keys * LegacyPaths(files)| <= b.files && f.exported <= b.exported && f.private_ <= b.private_
  }

  method CheckGrowth(legacyLive: nat, exported: nat, private_: nat, b: Baseline) returns (complaints: seq<Complaint>)
    ensures forall c :: c in complaints <==> Growth(legacyLive, exported, private_, b, c)
    ensures Ordered(complaints, 5, 7)
  {
    complaints := [];
    if legacyLive > b.files {
      complaints := complaints + [FilesGrew(legacyLive)];
    }
    if exported > b.exported {
      complaints := complaints + [ExportedGrew(exported)];
    }
    if private_ > b.private_ {
      complaints := complaints + [PrivateGrew(private_)];
    }
  }

  method Compare(f: Findings, live: seq<Site>, files: seq<NamedFile>, ids: seq<NamedIdentifier>, b: Baseline)
    returns (complaints: seq<Complaint>)
    requires Sites(live) == f.sites
    ensures forall c :: c in complaints <==> Due(f, files, ids, b, c)
    ensures Ascending(complaints, Precedes)
  {
    var onFiles := CheckFiles(files, f.live, f.present);
    var onSites := CheckSites(live, ids);
    var onGrowth := CheckGrowth(|f.live.Keys * LegacyPaths(files)|, f.exported, f.private_, b);
    OrderedAppend(onFiles, onSites, 0, 2, 4);
    OrderedAppend(onFiles + onSites, onGrowth, 0, 4, 7);
    complaints := onFiles + onSites + onGrowth;
  }

  /** Makes exactly the complaints that are due, in their order, and none exactly when
      repository and registry agree. */
  method CheckRepository(p: Policy, r: Repository, files: seq<NamedFile>, ids: seq<NamedIdentifier>, b: Baseline)
    returns (complaints: seq<Complaint>)
    ensures forall c :: c in complaints <==> Due(Scanned(p, r), files, ids, b, c)
    ensures Ascending(complaints, Precedes)
    ensures complaints == [] <==> Agreed(Scanned(p, r), files, ids, b)
  {
    var defects := ScanFileDefects(p, r);
    var live := ScanIdentifierDefinitions(p, r);
    var findings := Findings(defects, Sites(live), |OutsideRigs(p, Sites(live), "exported")|,
                             |OutsideRigs(p, Sites(live), "private")|, r.present);
    complaints := Compare(findings, live, files, ids, b);
    NothingDue(findings, files, ids, b);
    assert complaints != [] ==> complaints[0] in complaints;
  }

  lemma NoFileComplaint(live: map<string, seq<string>>, files: seq<NamedFile>, present: set<string>)
    ensures (forall c :: !FileComplaint(c, live, files, present)) <==> FilesAgree(live.Keys, files, present)
  {
    if forall c :: !FileComplaint(c, live, files, present) {
      forall path | path in live ensures path in Declared(files) {
        assert !FileComplaint(Undeclared(path, live[path]), live, files, present);
      }
      forall path | path in Declared(files)
        ensures (path in LegacyPaths(files) <==> path in live) && path in present
      {
        assert !FileComplaint(LegacyButClean(path), live, files, present);
        if path in live { assert !FileComplaint(RenamedButBreaking(path, live[path]), live, files, present); }
        assert !FileComplaint(NotThere(path), live, files, present);
      }
    }
  }

  lemma NoSiteComplaint(live: set<Site>, declared: set<Site>)
    ensures (forall c :: !SiteComplaint(c, live, declared)) <==> live == declared
  {
    if forall c :: !SiteComplaint(c, live, declared) {
      forall site ensures site in live <==> site in declared {
        assert !SiteComplaint(UndeclaredSite(site), live, declared) && !SiteComplaint(VanishedSite(site), live, declared);
      }
    }
  }

  lemma WithinBaseline(legacyLive: nat, exported: nat, private_: nat, b: Baseline)
    ensures (forall c :: !Growth(legacyLive, exported, private_, b, c)) <==>
            legacyLive <= b.files && exported <= b.exported && private_ <= b.private_
  {
    assert Growth(legacyLive, exported, private_, b, FilesGrew(legacyLive)) <==> legacyLive > b.files;
    assert Growth(legacyLive, exported, private_, b, ExportedGrew(exported)) <==> exported > b.exported;
    assert Growth(legacyLive, exported, private_, b, PrivateGrew(private_)) <==> private_ > b.private_;
  }

  lemma NothingDue(f: Findings, files: seq<NamedFile>, ids: seq<NamedIdentifier>, b: Baseline)
    ensures (forall c :: !Due(f, files, ids, b, c)) <==> Agreed(f, files, ids, b)
  {
    NoFileComplaint(f.live, files, f.present);
    NoSiteComplaint(f.sites, DeclaredSites(ids));
    WithinBaseline(|f.live.Keys * LegacyPaths(files)|, f.exported, f.private_, b);
    if forall c :: !Due(f, files, ids, b, c) {
      forall c ensures !FileComplaint(c, f.live, files, f.present) && !SiteComplaint(c, f.sites, DeclaredSites(ids))
                       && !Growth(|f.live.Keys * LegacyPaths(files)|, f.exported, f.private_, b, c)
      {
        assert !Due(f, files, ids, b, c);
      }
    }
  }

  // ---- What the two validators prove together ----

  lemma {:induction false} DeclaredRecords(files: seq<NamedFile>)
    requires DistinctFiles(files)
    ensures forall path :: path in ByPath(files) ==> ByPath(files)[path] in files && ByPath(files)[path].path == path
    ensures |LegacyPaths(files)| == LegacyFiles(files)
  {
    if files != [] {
      var n := |files| - 1;
      DeclaredRecords(files[..n]);
      assert files == files[..n] + [files[n]];
      assert files[n].path !in ByPath(files[..n]);
      LegacyPathsGrow(files);
    }
  }

  lemma LegacyPathsGrow(files: seq<NamedFile>)
    requires files != [] && files[|files| - 1].path !in ByPath(files[..|files| - 1])
    ensures var last := files[|files| - 1];
            && LegacyPaths(files) == LegacyPaths(files[..|files| - 1]) + (if last.legacy then {last.path} else {})
            && last.path !in LegacyPaths(files[..|files| - 1])
  {
  }

  /** With a registry that loads and a check without complaints about files and sites, the
      files that break a rule are exactly the legacy entries and number exactly the baseline,
      and the numbered identifiers in the code are exactly the declared ones. */
  lemma DebtIsExact(p: Policy, r: Repository, files: seq<NamedFile>, ids: seq<NamedIdentifier>, b: Baseline)
    requires RegistryValid(p, files, ids, b) && Accounted(Scanned(p, r), files, ids)
    ensures Breaking(p, r) == LegacyPaths(files) && |Breaking(p, r)| == b.files
    ensures LiveSites(p, r) == DeclaredSites(ids)
    ensures forall s :: s in LiveSites(p, r) ==> s.1 in {"exported", "private"}
  {
    DeclaredRecords(files);
    assert LiveDefects(p, r).Keys == Breaking(p, r) == LegacyPaths(files);
    forall s | s in LiveSites(p, r) ensures s.1 in {"exported", "private"} {
      var i :| i in ids && SiteOf(i) == s;
    }
  }

  /** A file outside the rigs that defines a numbered identifier breaks a rule. */
  lemma NumberedBodyBreaks(p: Policy, r: Repository, s: Site)
    requires s in LiveSites(p, r) && !InRig(p, s.2)
    ensures s.2 in Breaking(p, r)
  {
    assert FILE_DEFECTS[4] == NUMBERED_IDENTIFIERS;
    BrokenRules(p, r, s.2, FILE_DEFECTS, NUMBERED_IDENTIFIERS);
  }

  /** With no files left in the baseline no file breaks a rule, and every numbered identifier
      that is left lies in an acceptance rig. */
  lemma PaidOffMeansClean(p: Policy, r: Repository, files: seq<NamedFile>, ids: seq<NamedIdentifier>, b: Baseline)
    requires RegistryValid(p, files, ids, b) && Accounted(Scanned(p, r), files, ids)
    requires b.files == 0
    ensures Breaking(p, r) == {}
    ensures forall s :: s in LiveSites(p, r) ==> InRig(p, s.2)
  {
    DebtIsExact(p, r, files, ids, b);
    forall s | s in LiveSites(p, r) ensures InRig(p, s.2) {
      if !InRig(p, s.2) { NumberedBodyBreaks(p, r, s); }
    }
  }

  /** With a registry that loads, the check's test of the file segment never adds anything:
      the other tests already force the exact count. */
  lemma FileRatchetIsImplied(p: Policy, r: Repository, files: seq<NamedFile>, b: Baseline)
    requires DistinctFiles(files) && LegacyFiles(files) == b.files
    ensures |Breaking(p, r) * LegacyPaths(files)| <= b.files
  {
    DeclaredRecords(files);
    var both, legacy := Breaking(p, r) * LegacyPaths(files), LegacyPaths(files);
    assert legacy == both + (legacy - both);
  }

  // ---- The identifier part of the ratchet ----

  /** Random fixture strings that lie outside the rigs. */
  function StrayFixtures(p: Policy, ids: seq<NamedIdentifier>, scope: string): set<Site> {
    set i | i in ids && i.scope == scope && i.randomFixture && !InRig(p, i.file) :: SiteOf(i)
  }

  function LegacySites(ids: seq<NamedIdentifier>, scope: string): set<Site> {
    set i | i in ids && i.scope == scope && i.legacy :: SiteOf(i)
  }

  function LegacyInRigs(p: Policy, ids: seq<NamedIdentifier>, scope: string): set<Site> {
    set i | i in ids && i.scope == scope && i.legacy && InRig(p, i.file) :: SiteOf(i)
  }

  lemma LegacySitesGrow(ids: seq<NamedIdentifier>, last: NamedIdentifier, scope: string)
    ensures LegacySites(ids + [last], scope) ==
            LegacySites(ids, scope) + if last.legacy && last.scope == scope then {SiteOf(last)} else {}
  {
    var more := ids + [last];
    forall i | i in ids ensures i in more {
    }
    assert last in more;
  }

  lemma {:induction false} LegacySiteCount(ids: seq<NamedIdentifier>, scope: string)
    requires DistinctSites(ids)
    ensures |LegacySites(ids, scope)| == LegacyIn(ids, scope)
  {
    if ids != [] {
      var n := |ids| - 1;
      LegacySiteCount(ids[..n], scope);
      assert ids == ids[..n] + [ids[n]];
      LegacySitesGrow(ids[..n], ids[n], scope);
      assert SiteOf(ids[n]) !in LegacySites(ids[..n], scope);
    }
  }

  lemma SameSiteSameRecord(ids: seq<NamedIdentifier>, i: NamedIdentifier, j: NamedIdentifier)
    requires DistinctSites(ids) && i in ids && j in ids && SiteOf(i) == SiteOf(j)
    ensures i == j
  {
    var m :| 0 <= m < |ids| && ids[m] == i;
    var n :| 0 <= n < |ids| && ids[n] == j;
    assert m == n;
  }

  lemma LegacyIsNoStray(p: Policy, ids: seq<NamedIdentifier>, i: NamedIdentifier, scope: string)
    requires DistinctSites(ids) && i in ids && i.legacy && IdentifierRecordOk(p, i)
    ensures SiteOf(i) !in StrayFixtures(p, ids, scope)
  {
    forall j | j in ids && j.randomFixture && SiteOf(j) == SiteOf(i) ensures i == j {
      SameSiteSameRecord(ids, i, j);
    }
  }

  /** Outside the rigs lie the legacy identifiers that are not in them, and the strays. */
  lemma OutsideSplits(p: Policy, ids: seq<NamedIdentifier>, scope: string)
    requires DistinctSites(ids) && forall i :: i in ids ==> IdentifierRecordOk(p, i)
    ensures OutsideRigs(p, DeclaredSites(ids), scope) ==
            (LegacySites(ids, scope) - LegacyInRigs(p, ids, scope)) + StrayFixtures(p, ids, scope)
    ensures LegacySites(ids, scope) !! StrayFixtures(p, ids, scope)
    ensures LegacyInRigs(p, ids, scope) <= LegacySites(ids, scope)
  {
    forall s | s in LegacySites(ids, scope) ensures s !in StrayFixtures(p, ids, scope) {
      var i :| i in ids && i.scope == scope && i.legacy && SiteOf(i) == s;
      LegacyIsNoStray(p, ids, i, scope);
    }
    forall s | s in OutsideRigs(p, DeclaredSites(ids), scope)
      ensures s in (LegacySites(ids, scope) - LegacyInRigs(p, ids, scope)) + StrayFixtures(p, ids, scope)
    {
      var i :| i in ids && SiteOf(i) == s;
      assert IdentifierRecordOk(p, i);
    }
  }

  function BaselineIn(b: Baseline, scope: string): int {
    if scope == "exported" then b.exported else b.private_
  }

  /** With a registry that loads and declares exactly the live identifiers, the check still
      says that a segment grew exactly when the random fixtures outside the rigs outnumber
      the legacy identifiers inside them: the loader counts neither, or both. */
  lemma IdentifierGrowthExactly(p: Policy, r: Repository, files: seq<NamedFile>, ids: seq<NamedIdentifier>, b: Baseline, scope: string)
    requires RegistryValid(p, files, ids, b) && LiveSites(p, r) == DeclaredSites(ids)
    requires scope in {"exported", "private"}
    ensures |OutsideRigs(p, LiveSites(p, r), scope)| > BaselineIn(b, scope) <==>
            |StrayFixtures(p, ids, scope)| > |LegacyInRigs(p, ids, scope)|
  {
    OutsideSplits(p, ids, scope);
    LegacySiteCount(ids, scope);
    ExchangedCount(LegacySites(ids, scope), LegacyInRigs(p, ids, scope), StrayFixtures(p, ids, scope));
  }

  lemma ExchangedCount(legacy: set<Site>, inRigs: set<Site>, strays: set<Site>)
    requires inRigs <= legacy && legacy !! strays
    ensures |(legacy - inRigs) + strays| == |legacy| - |inRigs| + |strays|
  {
    assert |(legacy - inRigs) + strays| == |legacy - inRigs| + |strays|;
    assert legacy == (legacy - inRigs) + inRigs && |legacy| == |legacy - inRigs| + |inRigs|;
  }

  lemma OneOutside(p: Policy, s: Site, scope: string)
    requires s.1 == scope && !InRig(p, s.2)
    ensures |OutsideRigs(p, {s}, scope)| == 1
  {
    assert OutsideRigs(p, {s}, scope) == {s};
  }

  lemma GrowthIsDue(f: Findings, files: seq<NamedFile>, ids: seq<NamedIdentifier>, b: Baseline)
    ensures f.exported > b.exported ==> Due(f, files, ids, b, ExportedGrew(f.exported))
  {
  }

  lemma StrayAlone(p: Policy, i: NamedIdentifier)
    requires IdentifierRecordOk(p, i) && i.randomFixture
    ensures LegacyFiles([]) == 0 && LegacyIn([i], "exported") == 0 && LegacyIn([i], "private") == 0
    ensures RegistryValid(p, [], [i], Baseline(0, 0, 0))
  {
    assert [i][..0] == [];
  }

  /** A registry that holds one random fixture outside the rigs loads, and the check then
      complains of growth. */
  lemma StrayFixtureIsCounted(p: Policy, r: Repository, i: NamedIdentifier)
    requires IdentifierRecordOk(p, i) && i.randomFixture && i.scope == "exported" && !InRig(p, i.file)
    requires LiveSites(p, r) == {SiteOf(i)}
    ensures RegistryValid(p, [], [i], Baseline(0, 0, 0))
    ensures Due(Scanned(p, r), [], [i], Baseline(0, 0, 0), ExportedGrew(1))
  {
    StrayAlone(p, i);
    OneOutside(p, SiteOf(i), "exported");
    GrowthIsDue(Scanned(p, r), [], [i], Baseline(0, 0, 0));
  }

  // ---- The rules spelled out ----

  /** The name begins with the small letters of `w` in either case, and a digit follows. */
  predicate NumberedAs(p: Policy, name: string, w: string) {
    && |w| < |name| && p.digit(name[|w|])
    && forall k :: 0 <= k < |w| ==> name[k] == w[k] || name[k] as int == w[k] as int - 32
  }

  lemma WorkNumberedExactly(p: Policy, name: string)
    ensures WorkNumbered(p, name) <==> NumberedAs(p, name, "g") || NumberedAs(p, name, "t") || NumberedAs(p, name, "seg")
  {
    if NumberedAs(p, name, "seg") {
      assert name[0] == 's' || name[0] == 'S';
      assert name[1] == 'e' || name[1] == 'E';
      assert name[2] == 'g' || name[2] == 'G';
    }
  }

  ghost predicate BeginsIn(path: string, directories: seq<string>) {
    exists k :: 0 <= k < |directories| && |directories[k]| <= |path| && path[..|directories[k]|] == directories[k]
  }

  ghost predicate DefinesNumber(p: Policy, r: Repository, path: string) {
    exists name, scope :: (name, scope) in p.definitions(path, r.text(path)) && WorkNumbered(p, name)
  }

  predicate IsRule(rule: string) {
    || rule == "numbered" || rule == "segment_number" || rule == "ticket_number" || rule == "task_number"
    || rule == "numbered_identifiers" || rule == "frontend_kebab" || rule == "frontend_vue_case"
    || rule == "frontend_camel" || rule == "weak_name"
  }

  lemma RuleExactly(rule: string)
    ensures rule in FILE_DEFECTS <==> IsRule(rule)
  {
    assert FILE_DEFECTS[0] == "numbered" && FILE_DEFECTS[1] == "segment_number" && FILE_DEFECTS[2] == "ticket_number";
    assert FILE_DEFECTS[3] == "task_number" && FILE_DEFECTS[4] == "numbered_identifiers" && FILE_DEFECTS[5] == "frontend_kebab";
    assert FILE_DEFECTS[6] == "frontend_vue_case" && FILE_DEFECTS[7] == "frontend_camel" && FILE_DEFECTS[8] == "weak_name";
  }

  lemma DefinesNumberExactly(p: Policy, r: Repository, path: string)
    ensures NumberedSites(p, p.definitions(path, r.text(path)), path) != {} <==> DefinesNumber(p, r, path)
  {
    var sites := NumberedSites(p, p.definitions(path, r.text(path)), path);
    if DefinesNumber(p, r, path) {
      var name, scope :| (name, scope) in p.definitions(path, r.text(path)) && WorkNumbered(p, name);
      assert (name, scope).0 == name;
      assert (name, scope, path) in sites;
    }
    if sites != {} {
      var site: Site :| site in sites;
      var d :| d in p.definitions(path, r.text(path)) && WorkNumbered(p, d.0) && site == (d.0, d.1, path);
      assert d == (d.0, d.1);
    }
  }

  /** A file is listed under a rule by its path, or for the body rule by a definition with a
      work number; in the rigs the rules about segment and task numbers and about numbered
      identifiers do not hold, and all others do. */
  lemma FileDefectsExactly(p: Policy, r: Repository, path: string, rule: string)
    ensures rule in FileDefects(p, r, path) <==>
            && IsRule(rule)
            && (if rule == "numbered_identifiers" then DefinesNumber(p, r, path) else p.nameBreaks(path, rule))
            && (BeginsIn(path, p.rigDirectories) ==>
                  rule != "segment_number" && rule != "task_number" && rule != "numbered_identifiers")
  {
    BrokenRules(p, r, path, FILE_DEFECTS, rule);
    RuleExactly(rule);
    DefinesNumberExactly(p, r, path);
    assert InRig(p, path) <==> BeginsIn(path, p.rigDirectories);
  }

  /** The batch a ticket belongs to; other tickets own no record. */
  predicate BatchFits(ticket: int, batch: int) {
    || ((ticket == 362 || ticket == 363 || ticket == 364 || ticket == 367) && batch == 4)
    || ((ticket == 365 || ticket == 366) && batch == 3)
    || ((ticket == 368 || ticket == 369) && batch == 5)
    || (ticket == 370 && batch == 1)
  }

  predicate OccursAt(text: string, part: string, k: nat) {
    k + |part| <= |text| && text[k..k + |part|] == part
  }

  ghost predicate Occurs(text: string, part: string) {
    exists k: nat :: OccursAt(text, part, k)
  }

  /** Two dots between slashes, or between a slash and an end of the path. */
  predicate ClimbsAt(path: string, k: nat) {
    && k + 2 <= |path| && path[k] == '.' && path[k + 1] == '.'
    && (k == 0 || path[k - 1] == '/') && (k + 2 == |path| || path[k + 2] == '/')
  }

  ghost predicate ClimbsOut(path: string) {
    exists k: nat :: ClimbsAt(path, k)
  }

  ghost predicate NamesRepoFile(p: Policy, path: string) {
    && (exists k :: 0 <= k < |path| && !p.space(path[k]))
    && path[0] != '/' && (forall k :: 0 <= k < |path| ==> path[k] != '\\') && !ClimbsOut(path)
  }

  ghost predicate TellsSomething(p: Policy, knowledge: string) {
    && (exists k :: 0 <= k < |knowledge| && !p.space(knowledge[k])) && |knowledge| >= 10
    && !Occurs(knowledge, "相关代码") && !Occurs(knowledge, "相关逻辑") && !Occurs(knowledge, "相关实现")
    && !Occurs(knowledge, "相关文件") && !Occurs(knowledge, "待补充") && !Occurs(knowledge, "TODO")
  }

  lemma ContainsExactly(text: string, part: string)
    ensures Contains(text, part) <==> Occurs(text, part)
  {
    if Contains(text, part) {
      var k: nat :| k <= |text| && part <= text[k..];
      assert text[k..][..|part|] == text[k..k + |part|];
      assert OccursAt(text, part, k);
    }
    if k: nat :| OccursAt(text, part, k) {
      assert text[k..][..|part|] == part;
    }
  }

  lemma ClimbEscapes(path: string, k: nat)
    requires ClimbsAt(path, k)
    ensures Escapes(path)
  {
    if k == 0 {
      assert if |path| == 2 then path == ".." else path[..3] == "../";
    } else if k + 2 == |path| {
      assert path[|path| - 3..] == [path[k - 1], path[k], path[k + 1]] == "/..";
    } else {
      assert path[k - 1..k + 3] == [path[k - 1], path[k], path[k + 1], path[k + 2]] == "/../";
      assert OccursAt(path, "/../", k - 1);
      ContainsExactly(path, "/../");
    }
  }

  lemma EscapeClimbs(path: string)
    requires Escapes(path)
    ensures ClimbsOut(path)
  {
    if path == ".." || "../" <= path {
      assert path[..2] == "..";
      assert path[0] == path[..2][0] && path[1] == path[..2][1] && (|path| > 2 ==> path[2] == path[..3][2]);
      assert ClimbsAt(path, 0);
    } else if Contains(path, "/../") {
      ContainsExactly(path, "/../");
      var k: nat :| OccursAt(path, "/../", k);
      var part := path[k..k + 4];
      assert path[k] == part[0] && path[k + 1] == part[1] && path[k + 2] == part[2] && path[k + 3] == part[3];
      assert ClimbsAt(path, k + 1);
    } else {
      var n := |path| - 3;
      var part := path[n..];
      assert path[n] == part[0] && path[n + 1] == part[1] && path[n + 2] == part[2];
      assert ClimbsAt(path, n + 1);
    }
  }

  lemma EscapesExactly(path: string)
    ensures Escapes(path) <==> ClimbsOut(path)
  {
    if k: nat :| ClimbsAt(path, k) { ClimbEscapes(path, k); }
    if Escapes(path) { EscapeClimbs(path); }
  }

  lemma TellsExactly(p: Policy, knowledge: string)
    ensures !Blank(p, knowledge) && |knowledge| >= MIN_KNOWLEDGE && (forall v :: v in VACUOUS ==> !Contains(knowledge, v)) <==>
            TellsSomething(p, knowledge)
  {
    ContainsExactly(knowledge, "相关代码");
    ContainsExactly(knowledge, "相关逻辑");
    ContainsExactly(knowledge, "相关实现");
    ContainsExactly(knowledge, "相关文件");
    ContainsExactly(knowledge, "待补充");
    ContainsExactly(knowledge, "TODO");
    assert VACUOUS[0] == "相关代码" && VACUOUS[1] == "相关逻辑" && VACUOUS[2] == "相关实现";
    assert VACUOUS[3] == "相关文件" && VACUOUS[4] == "待补充" && VACUOUS[5] == "TODO";
  }

  lemma BatchExactly(ticket: int, batch: int)
    ensures ticket in BATCH_BY_TICKET && BATCH_BY_TICKET[ticket] == batch <==> BatchFits(ticket, batch)
  {
  }

  /** What the loader accepts as a file record. */
  lemma FileRecordExactly(p: Policy, f: NamedFile)
    ensures FileRecordOk(p, f) <==>
            && NamesRepoFile(p, f.path) && BatchFits(f.ticket, f.batch)
            && f.defects != [] && (forall d :: d in f.defects ==> IsRule(d))
            && TellsSomething(p, f.knowledge)
  {
    EscapesExactly(f.path);
    BatchExactly(f.ticket, f.batch);
    forall d { RuleExactly(d); }
    TellsExactly(p, f.knowledge);
  }

  /** What the loader accepts as an identifier record. */
  lemma IdentifierRecordExactly(p: Policy, i: NamedIdentifier)
    ensures IdentifierRecordOk(p, i) <==>
            && (NumberedAs(p, i.name, "g") || NumberedAs(p, i.name, "t") || NumberedAs(p, i.name, "seg"))
            && (i.scope == "exported" || i.scope == "private") && NamesRepoFile(p, i.file)
            && (i.harness ==> BeginsIn(i.file, p.rigDirectories)) && (i.randomFixture ==> i.name in p.randomFixtures)
            && i.legacy == !(i.harness || i.randomFixture)
  {
    WorkNumberedExactly(p, i.name);
    EscapesExactly(i.file);
    assert InRig(p, i.file) <==> BeginsIn(i.file, p.rigDirectories);
  }
}
