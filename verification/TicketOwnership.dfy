/** Reading the paths a face ticket declares, against rendering such a ticket. */
module TicketOwnership {
  import opened Wrappers
  import Texts

  /** The interpreter's Unicode tables: whitespace, letters equal up to case, lower-casing. */
  datatype Unicode = Unicode(space: char -> bool, same: (char, char) -> bool, lower: string -> string)

  ghost predicate Proper(u: Unicode) {
    && (forall c :: u.same(c, c))
    && u.space(' ') && u.space('\t') && u.space('\n')
    && !u.space('`') && !u.space('#') && !u.space('-') && !u.space('*') && !u.space('+')
  }

  predicate Blank(c: char) { c == ' ' || c == '\t' }

  function SkipBlanks(s: string): string {
    if s != "" && Blank(s[0]) then SkipBlanks(s[1..]) else s
  }

  predicate AllBlank(s: string) {
    forall k :: 0 <= k < |s| ==> Blank(s[k])
  }

  // ---- Lines ----

  function LinesFrom(text: string, i: nat, line: string): seq<string>
    requires i <= |text|
    decreases |text| - i
  {
    if i == |text| then [line]
    else if text[i] == '\n' then [line] + LinesFrom(text, i + 1, "")
    else LinesFrom(text, i + 1, line + [text[i]])
  }

  function Join(lines: seq<string>): string
    requires lines != []
  {
    if |lines| == 1 then lines[0] else lines[0] + "\n" + Join(lines[1..])
  }

  /** What `splitlines` splits at. */
  predicate IsBreak(c: char) {
    '\n' <= c <= '\r' || '\U{1C}' <= c <= '\U{1E}' || c == '\U{85}' || c == '\U{2028}' || c == '\U{2029}'
  }

  /** The pieces of a line between breaks; pieces that `splitlines` would not list are empty
      and so never list items. */
  function Pieces(text: string, i: nat, piece: string): seq<string>
    requires i <= |text|
    decreases |text| - i
  {
    if i == |text| then [piece]
    else if IsBreak(text[i]) then [piece] + Pieces(text, i + 1, "")
    else Pieces(text, i + 1, piece + [text[i]])
  }

  // ---- Headings and list items ----

  const WORDS := ["文件所有权", "File ownership", "路径集", "Path set"]

  function Hashes(s: string): nat {
    if s != "" && s[0] == '#' then 1 + Hashes(s[1..]) else 0
  }

  lemma {:induction false} HashesBounded(s: string)
    ensures Hashes(s) <= |s|
  {
    if s != "" && s[0] == '#' { HashesBounded(s[1..]); }
  }

  predicate StartsWith(u: Unicode, s: string, w: string) {
    |w| <= |s| && forall k :: 0 <= k < |w| ==> u.same(s[k], w[k])
  }

  predicate Opens(c: char) { c == '(' || c == '（' }

  predicate Closes(c: char) { c == ')' || c == '）' }

  /** The rest of a line behind the first closing parenthesis, if there is one. */
  function AfterClose(s: string): Option<string> {
    if s == "" then None else if Closes(s[0]) then Some(s[1..]) else AfterClose(s[1..])
  }

  /** Blanks, or a note in parentheses between blanks. */
  predicate NoteOnly(s: string) {
    var rest := SkipBlanks(s);
    || rest == ""
    || (Opens(rest[0]) && AfterClose(rest[1..]).Some? && SkipBlanks(AfterClose(rest[1..]).value) == "")
  }

  predicate OwnershipHeading(u: Unicode, line: string) {
    var mark := SkipBlanks(line);
    HashesBounded(mark);
    var title := SkipBlanks(mark[Hashes(mark)..]);
    && 1 <= Hashes(mark) <= 6
    && exists k :: 0 <= k < |WORDS| && StartsWith(u, title, WORDS[k]) && NoteOnly(title[|WORDS[k]|..])
  }

  /** Whitespace must follow the marks; the newline that ends the line counts. */
  predicate AnyHeading(u: Unicode, line: string, newlineFollows: bool) {
    HashesBounded(line);
    && 1 <= Hashes(line) <= 6
    && (if Hashes(line) < |line| then u.space(line[Hashes(line)]) else newlineFollows)
  }

  predicate Bullet(c: char) { c == '-' || c == '*' || c == '+' }

  predicate ListItem(u: Unicode, line: string) {
    var mark := SkipBlanks(line);
    && |mark| >= 2 && Bullet(mark[0]) && Blank(mark[1])
    && var rest := SkipBlanks(mark[1..]);
       rest != "" && !u.space(rest[0])
  }

  // ---- The section ----

  function FirstHeading(u: Unicode, lines: seq<string>, i: nat): nat
    requires i <= |lines|
    ensures i <= FirstHeading(u, lines, i) <= |lines|
    decreases |lines| - i
  {
    if i == |lines| || OwnershipHeading(u, lines[i]) then i else FirstHeading(u, lines, i + 1)
  }

  function NextHeading(u: Unicode, lines: seq<string>, i: nat): nat
    requires i <= |lines|
    ensures i <= NextHeading(u, lines, i) <= |lines|
    decreases |lines| - i
  {
    if i == |lines| || AnyHeading(u, lines[i], i + 1 < |lines|) then i else NextHeading(u, lines, i + 1)
  }

  function OwnershipSection(u: Unicode, body: string): Option<seq<string>> {
    var lines := LinesFrom(body, 0, "");
    var at := FirstHeading(u, lines, 0);
    if at == |lines| then None else Some(lines[at + 1..NextHeading(u, lines, at + 1)])
  }

  // ---- The tokens ----

  function RunEnd(line: string, i: nat): (j: nat)
    requires i <= |line|
    ensures i <= j <= |line|
    decreases |line| - i
  {
    if i == |line| || line[i] == '`' then i else RunEnd(line, i + 1)
  }

  /** The non-empty texts between two backticks, left to right without overlap. */
  function Tokens(line: string, i: nat): seq<string>
    requires i <= |line|
    decreases |line| - i
  {
    if i == |line| then []
    else if line[i] != '`' then Tokens(line, i + 1)
    else
      var j := RunEnd(line, i + 1);
      if i + 1 < j < |line| then [line[i + 1..j]] + Tokens(line, j + 1) else Tokens(line, i + 1)
  }

  /** Adds the stripped tokens that are not empty and not there yet. */
  function Collect(u: Unicode, found: seq<string>, tokens: seq<string>): seq<string>
    decreases |tokens|
  {
    if tokens == [] then found
    else
      var token := Texts.Strip(u.space, tokens[0]);
      Collect(u, if token != "" && token !in found then found + [token] else found, tokens[1..])
  }

  function LineTokens(u: Unicode, pieces: seq<string>): seq<string> {
    if pieces == [] then []
    else (if ListItem(u, pieces[0]) then Tokens(pieces[0], 0) else []) + LineTokens(u, pieces[1..])
  }

  function SectionTokens(u: Unicode, section: seq<string>): seq<string> {
    if section == [] then [] else LineTokens(u, Pieces(section[0], 0, "")) + SectionTokens(u, section[1..])
  }

  lemma {:induction false} CollectInTurn(u: Unicode, found: seq<string>, a: seq<string>, b: seq<string>)
    ensures Collect(u, found, a + b) == Collect(u, Collect(u, found, a), b)
    decreases |a|
  {
    if a == [] {
      assert a + b == b;
    } else {
      assert (a + b)[1..] == a[1..] + b;
      var token := Texts.Strip(u.space, a[0]);
      CollectInTurn(u, if token != "" && token !in found then found + [token] else found, a[1..], b);
    }
  }

  method CollectPieces(u: Unicode, pieces: seq<string>, before: seq<string>) returns (found: seq<string>)
    ensures found == Collect(u, before, LineTokens(u, pieces))
  {
    found := before;
    for k := 0 to |pieces|
      invariant Collect(u, before, LineTokens(u, pieces)) == Collect(u, found, LineTokens(u, pieces[k..]))
    {
      assert pieces[k..][1..] == pieces[k + 1..];
      if !ListItem(u, pieces[k]) {
        assert [] + LineTokens(u, pieces[k + 1..]) == LineTokens(u, pieces[k + 1..]);
        continue;
      }
      var tokens := Tokens(pieces[k], 0);
      CollectInTurn(u, found, tokens, LineTokens(u, pieces[k + 1..]));
      ghost var entry := found;
      for t := 0 to |tokens|
        invariant Collect(u, entry, tokens) == Collect(u, found, tokens[t..])
      {
        assert tokens[t..][1..] == tokens[t + 1..];
        var token := Texts.Strip(u.space, tokens[t]);
        if token != "" && token !in found {
          found := found + [token];
        }
      }
    }
  }

  function DeclaredTokens(u: Unicode, body: string): seq<string> {
    var section := OwnershipSection(u, body);
    if section.None? then [] else Collect(u, [], SectionTokens(u, section.value))
  }

  method DeclarationTokens(u: Unicode, body: string) returns (found: seq<string>)
    ensures found == DeclaredTokens(u, body)
  {
    var section := OwnershipSection(u, body);
    if section.None? {
      return [];
    }
    found := [];
    var lines := section.value;
    for k := 0 to |lines|
      invariant Collect(u, [], SectionTokens(u, lines)) == Collect(u, found, SectionTokens(u, lines[k..]))
    {
      assert lines[k..][1..] == lines[k + 1..];
      CollectInTurn(u, found, LineTokens(u, Pieces(lines[k], 0, "")), SectionTokens(u, lines[k + 1..]));
      found := CollectPieces(u, Pieces(lines[k], 0, ""), found);
    }
  }

  // ---- Which tokens are paths ----

  const EXTENSIONS := {
    "go", "py", "ts", "tsx", "js", "jsx", "vue", "json", "sql", "md", "yaml", "yml", "sh", "ps1", "toml",
    "ini", "cfg", "html", "css", "txt", "proto", "lock", "mod", "sum"
  }

  function Segments(path: string, i: nat, segment: string): seq<string>
    requires i <= |path|
    decreases |path| - i
  {
    if i == |path| then [segment]
    else if path[i] == '/' then [segment] + Segments(path, i + 1, "")
    else Segments(path, i + 1, segment + [path[i]])
  }

  function LastDotSuffix(name: string): string {
    if name == "" || name[|name| - 1] == '.' then "" else LastDotSuffix(name[..|name| - 1]) + [name[|name| - 1]]
  }

  predicate NoOddSegment(t: string) {
    forall s :: s in Segments(t, 0, "") ==> s !in {"", ".", ".."}
  }

  predicate IsPathToken(u: Unicode, raw: string) {
    var token := Texts.Strip(u.space, raw);
    && token != ""
    && (forall c :: c in token ==> !u.space(c))
    && !(exists k :: 0 <= k < |token| && "://" <= token[k..])
    && token[0] != '-' && token[0] != '/' && token[|token| - 1] != '/'
    && (if '/' in token then NoOddSegment(token)
        else '.' in token && u.lower(LastDotSuffix(token)) in EXTENSIONS)
  }

  function OnlyPaths(u: Unicode, tokens: seq<string>): seq<string> {
    if tokens == [] then []
    else (if IsPathToken(u, tokens[0]) then [tokens[0]] else []) + OnlyPaths(u, tokens[1..])
  }

  method ExtractDeclaredPaths(u: Unicode, body: string) returns (paths: Option<seq<string>>)
    ensures paths == DeclaredPaths(u, body)
    ensures paths.Some? ==> KeepsPaths(u, DeclaredTokens(u, body), paths.value)
  {
    var section := OwnershipSection(u, body);
    if section.None? {
      return None;
    }
    var tokens := DeclarationTokens(u, body);
    DeclaredPathsKeep(u, section.value);
    paths := Some(OnlyPaths(u, tokens));
  }

  function DeclaredPaths(u: Unicode, body: string): Option<seq<string>> {
    var section := OwnershipSection(u, body);
    if section.None? then None else Some(OnlyPaths(u, Collect(u, [], SectionTokens(u, section.value))))
  }

  // ---- Rendering a ticket ----

  datatype Heading = Heading(indent: string, marks: nat, gap: string, word: string, before: string, note: Option<string>, after: string)

  /** A list item with paths in prose, or any other line of the section. */
  datatype Line = Item(indent: string, bullet: char, gap: string, lead: string, tokens: seq<(string, string)>) | Other(text: string)

  function Repeat(c: char, n: nat): string {
    if n == 0 then "" else [c] + Repeat(c, n - 1)
  }

  function RenderHeading(h: Heading): string {
    h.indent + (Repeat('#', h.marks) + (h.gap + (h.word + (h.before + RenderNote(h)))))
  }

  function RenderNote(h: Heading): string {
    if h.note.Some? then "（" + (h.note.value + ("）" + h.after)) else ""
  }

  function RenderToken(t: (string, string)): string {
    "`" + t.0 + "`" + t.1
  }

  function RenderTokens(tokens: seq<(string, string)>): string {
    if tokens == [] then "" else RenderToken(tokens[0]) + RenderTokens(tokens[1..])
  }

  function RenderLine(l: Line): string {
    match l
    case Item(indent, bullet, gap, lead, tokens) => indent + ([bullet] + (gap + (lead + RenderTokens(tokens))))
    case Other(text) => text
  }

  function TokensOf(lines: seq<Line>): seq<string> {
    if lines == [] then []
    else (if lines[0].Item? then Firsts(lines[0].tokens) else []) + TokensOf(lines[1..])
  }

  function Firsts(tokens: seq<(string, string)>): seq<string> {
    if tokens == [] then [] else [tokens[0].0] + Firsts(tokens[1..])
  }

  ghost predicate HeadingOk(u: Unicode, h: Heading) {
    && AllBlank(h.indent) && AllBlank(h.gap) && AllBlank(h.before) && AllBlank(h.after)
    && 1 <= h.marks <= 6
    && (exists k :: 0 <= k < |WORDS| && |h.word| == |WORDS[k]| && StartsWith(u, h.word, WORDS[k]))
    && !Blank(h.word[0]) && h.word[0] != '#'
    && (h.note.Some? ==> forall c :: c in h.note.value ==> !Closes(c))
  }

  /** Text without backticks and line breaks. */
  predicate Plain(s: string) {
    forall c :: c in s ==> c != '`' && !IsBreak(c)
  }

  ghost predicate LineOk(u: Unicode, l: Line) {
    match l
    case Item(indent, bullet, gap, lead, tokens) =>
      && AllBlank(indent) && Bullet(bullet) && gap != "" && AllBlank(gap)
      && Plain(lead) && (lead != "" ==> !u.space(lead[0])) && tokens != []
      && (forall t :: t in tokens ==> t.0 != "" && Plain(t.0) && Plain(t.1))
    case Other(text) => Plain(text) && !ListItem(u, text) && !AnyHeading(u, text, true)
  }

  // ---- Rendered tickets read back ----

  lemma {:induction false} LinesShift(front: string, text: string, i: nat, line: string)
    requires i <= |text|
    ensures LinesFrom(front + text, |front| + i, line) == LinesFrom(text, i, line)
    decreases |text| - i
  {
    if i < |text| {
      assert (front + text)[|front| + i] == text[i];
      LinesShift(front, text, i + 1, if text[i] == '\n' then "" else line + [text[i]]);
    }
  }

  lemma {:induction false} LinesWithin(line: string, rest: string, i: nat)
    requires '\n' !in line && i <= |line|
    ensures LinesFrom(line + "\n" + rest, i, line[..i]) == [line] + LinesFrom(rest, 0, "")
    ensures LinesFrom(line, i, line[..i]) == [line]
    decreases |line| - i
  {
    var text := line + "\n" + rest;
    if i == |line| {
      assert text[i] == '\n' && line[..i] == line && text == (line + "\n") + rest;
      LinesShift(line + "\n", rest, 0, "");
    } else {
      assert text[i] == line[i] && line[i] in line && line[..i] + [line[i]] == line[..i + 1];
      LinesWithin(line, rest, i + 1);
    }
  }

  lemma {:induction false} LinesOfJoin(lines: seq<string>)
    requires lines != [] && forall l :: l in lines ==> '\n' !in l
    ensures LinesFrom(Join(lines), 0, "") == lines
  {
    assert lines[0] in lines && lines[0][..0] == "";
    if |lines| == 1 {
      LinesWithin(lines[0], "", 0);
    } else {
      LinesOfJoin(lines[1..]);
      LinesWithin(lines[0], Join(lines[1..]), 0);
    }
  }

  predicate Unbroken(s: string) {
    forall c :: c in s ==> !IsBreak(c)
  }

  lemma {:induction false} PiecesOfPlain(text: string, i: nat)
    requires i <= |text| && Unbroken(text)
    ensures Pieces(text, i, text[..i]) == [text]
    decreases |text| - i
  {
    if i < |text| {
      assert text[i] in text && text[..i] + [text[i]] == text[..i + 1];
      PiecesOfPlain(text, i + 1);
    } else {
      assert text[..i] == text;
    }
  }

  lemma {:induction false} SkipsBlanks(blanks: string, rest: string)
    requires AllBlank(blanks)
    ensures SkipBlanks(blanks + rest) == SkipBlanks(rest)
  {
    if blanks == "" {
      assert blanks + rest == rest;
    } else {
      SkipsBlanks(blanks[1..], rest);
      assert (blanks + rest)[1..] == blanks[1..] + rest;
    }
  }

  lemma {:induction false} CountsHashes(n: nat, rest: string)
    requires rest == "" || rest[0] != '#'
    ensures Hashes(Repeat('#', n) + rest) == n && |Repeat('#', n)| == n
    ensures n > 0 ==> Repeat('#', n)[0] == '#'
  {
    if n == 0 {
      assert Repeat('#', n) + rest == rest;
    } else {
      CountsHashes(n - 1, rest);
      assert (Repeat('#', n) + rest)[1..] == Repeat('#', n - 1) + rest;
    }
  }

  lemma {:induction false} FindsClose(note: string, rest: string)
    requires forall c :: c in note ==> !Closes(c)
    ensures AfterClose(note + ("）" + rest)) == Some(rest)
  {
    var text := note + ("）" + rest);
    if note == "" {
      assert text == "）" + rest && text[1..] == rest;
    } else {
      assert note[0] in note && text[1..] == note[1..] + ("）" + rest);
      FindsClose(note[1..], rest);
    }
  }

  lemma NoteIsRead(h: Heading)
    requires AllBlank(h.before) && AllBlank(h.after)
    requires h.note.Some? ==> forall c :: c in h.note.value ==> !Closes(c)
    ensures NoteOnly(h.before + RenderNote(h))
  {
    SkipsBlanks(h.before, RenderNote(h));
    if h.note.Some? {
      var rest := RenderNote(h);
      assert rest[0] == '（' && rest[1..] == h.note.value + ("）" + h.after);
      FindsClose(h.note.value, h.after);
      SkipsBlanks(h.after, "");
      assert h.after + "" == h.after;
    }
  }

  /** What follows the marks of a rendered heading. */
  function Title(h: Heading): string {
    h.word + (h.before + RenderNote(h))
  }

  lemma TitleIsRead(u: Unicode, h: Heading, k: nat)
    requires HeadingOk(u, h) && k < |WORDS| && |h.word| == |WORDS[k]| && StartsWith(u, h.word, WORDS[k])
    ensures StartsWith(u, Title(h), WORDS[k]) && NoteOnly(Title(h)[|WORDS[k]|..])
  {
    assert Title(h)[|h.word|..] == h.before + RenderNote(h);
    NoteIsRead(h);
  }

  lemma GapStartsNoMark(u: Unicode, h: Heading)
    requires HeadingOk(u, h)
    ensures h.word != "" && h.gap + Title(h) != "" && (h.gap + Title(h))[0] != '#'
    ensures Title(h)[0] == h.word[0]
  {
    if h.gap != "" { assert Blank(h.gap[0]); }
  }

  lemma MarksAreRead(u: Unicode, h: Heading)
    requires HeadingOk(u, h)
    ensures var mark := Repeat('#', h.marks) + (h.gap + Title(h));
            && SkipBlanks(RenderHeading(h)) == mark
            && Hashes(mark) == h.marks <= |mark| && SkipBlanks(mark[h.marks..]) == Title(h)
  {
    var marks, rest := Repeat('#', h.marks), h.gap + Title(h);
    GapStartsNoMark(u, h);
    CountsHashes(h.marks, rest);
    assert (marks + rest)[0] == '#';
    SkipsBlanks(h.indent, marks + rest);
    assert SkipBlanks(marks + rest) == marks + rest;
    assert (marks + rest)[h.marks..] == rest;
    SkipsBlanks(h.gap, Title(h));
  }

  lemma HeadingIsRead(u: Unicode, h: Heading)
    requires Proper(u) && HeadingOk(u, h)
    ensures OwnershipHeading(u, RenderHeading(h))
  {
    var k :| 0 <= k < |WORDS| && |h.word| == |WORDS[k]| && StartsWith(u, h.word, WORDS[k]);
    MarksAreRead(u, h);
    TitleIsRead(u, h, k);
  }

  lemma {:induction false} TokensSkip(line: string, i: nat, j: nat)
    requires i <= j <= |line| && forall k :: i <= k < j ==> line[k] != '`'
    ensures Tokens(line, i) == Tokens(line, j)
    decreases j - i
  {
    if i < j { TokensSkip(line, i + 1, j); }
  }

  lemma {:induction false} RunEndsAt(line: string, i: nat, j: nat)
    requires i <= j < |line| && line[j] == '`' && forall k :: i <= k < j ==> line[k] != '`'
    ensures RunEnd(line, i) == j
    decreases j - i
  {
    if i < j { RunEndsAt(line, i + 1, j); }
  }

  lemma TokenIsRead(front: string, t: (string, string), tail: string)
    requires t.0 != "" && Plain(t.0) && Plain(t.1)
    ensures Tokens(front + RenderToken(t) + tail, |front|) ==
            [t.0] + Tokens(front + RenderToken(t) + tail, |front + RenderToken(t)|)
  {
    var piece := RenderToken(t);
    var line, i := front + piece + tail, |front|;
    var j, end := i + 1 + |t.0|, |front + piece|;
    assert forall k :: i <= k < end ==> line[k] == piece[k - i];
    forall k | i + 1 <= k < j ensures line[k] != '`' {
      assert line[k] == t.0[k - (i + 1)] && t.0[k - (i + 1)] in t.0;
    }
    forall k | j + 1 <= k < end ensures line[k] != '`' {
      assert line[k] == t.1[k - (j + 1)] && t.1[k - (j + 1)] in t.1;
    }
    RunEndsAt(line, i + 1, j);
    assert line[i + 1..j] == t.0;
    TokensSkip(line, j + 1, end);
  }

  lemma {:induction false} TokensAreRead(front: string, tokens: seq<(string, string)>)
    requires forall t :: t in tokens ==> t.0 != "" && Plain(t.0) && Plain(t.1)
    ensures Tokens(front + RenderTokens(tokens), |front|) == Firsts(tokens)
    decreases |tokens|
  {
    if tokens != [] {
      var piece, tail := RenderToken(tokens[0]), RenderTokens(tokens[1..]);
      assert tokens[0] in tokens;
      assert front + RenderTokens(tokens) == front + piece + tail;
      TokenIsRead(front, tokens[0], tail);
      TokensAreRead(front + piece, tokens[1..]);
    }
  }

  lemma UnbrokenSum(a: string, b: string)
    requires Unbroken(a) && Unbroken(b)
    ensures Unbroken(a + b)
  {
  }

  lemma BlanksAreUnbroken(s: string)
    requires AllBlank(s)
    ensures Unbroken(s)
  {
  }

  lemma {:induction false} TokensAreUnbroken(tokens: seq<(string, string)>)
    requires forall t :: t in tokens ==> Plain(t.0) && Plain(t.1)
    ensures Unbroken(RenderTokens(tokens))
  {
    if tokens != [] {
      assert tokens[0] in tokens;
      TokensAreUnbroken(tokens[1..]);
      UnbrokenSum(RenderToken(tokens[0]), RenderTokens(tokens[1..]));
    }
  }

  lemma ItemIsListItem(u: Unicode, l: Line)
    requires Proper(u) && LineOk(u, l) && l.Item?
    ensures ListItem(u, RenderLine(l))
  {
    var content := l.lead + RenderTokens(l.tokens);
    var mark := [l.bullet] + (l.gap + content);
    SkipsBlanks(l.indent, mark);
    assert mark[1..] == l.gap + content && mark[1] == l.gap[0];
    assert content[0] == (if l.lead == "" then '`' else l.lead[0]);
    SkipsBlanks(l.gap, content);
    assert SkipBlanks(content) == content;
  }

  lemma TokensSkipFront(front: string, rest: string)
    requires '`' !in front
    ensures Tokens(front + rest, 0) == Tokens(front + rest, |front|)
  {
    forall k | 0 <= k < |front| ensures (front + rest)[k] != '`' {
      assert (front + rest)[k] == front[k] && front[k] in front;
    }
    TokensSkip(front + rest, 0, |front|);
  }

  lemma ItemTokens(u: Unicode, l: Line)
    requires LineOk(u, l) && l.Item?
    ensures Tokens(RenderLine(l), 0) == Firsts(l.tokens)
  {
    var front := l.indent + [l.bullet] + l.gap + l.lead;
    assert RenderLine(l) == front + RenderTokens(l.tokens);
    assert '`' !in l.indent && '`' !in [l.bullet] && '`' !in l.gap && '`' !in l.lead;
    TokensSkipFront(front, RenderTokens(l.tokens));
    TokensAreRead(front, l.tokens);
  }

  lemma ItemIsOneLine(u: Unicode, l: Line)
    requires LineOk(u, l) && l.Item?
    ensures Unbroken(RenderLine(l))
  {
    var content := l.lead + RenderTokens(l.tokens);
    TokensAreUnbroken(l.tokens);
    UnbrokenSum(l.lead, RenderTokens(l.tokens));
    BlanksAreUnbroken(l.gap);
    UnbrokenSum(l.gap, content);
    UnbrokenSum([l.bullet], l.gap + content);
    BlanksAreUnbroken(l.indent);
    UnbrokenSum(l.indent, [l.bullet] + (l.gap + content));
  }

  lemma NoMarkNoHeading(u: Unicode, line: string, newlineFollows: bool)
    requires line != "" && line[0] != '#'
    ensures !AnyHeading(u, line, newlineFollows)
  {
  }

  lemma ItemIsNoHeading(u: Unicode, l: Line, newlineFollows: bool)
    requires LineOk(u, l) && l.Item?
    ensures !AnyHeading(u, RenderLine(l), newlineFollows)
  {
    if l.indent != "" { assert Blank(l.indent[0]); }
    NoMarkNoHeading(u, RenderLine(l), newlineFollows);
  }

  lemma ItemIsRead(u: Unicode, l: Line)
    requires Proper(u) && LineOk(u, l) && l.Item?
    ensures var line := RenderLine(l);
            && ListItem(u, line) && Tokens(line, 0) == Firsts(l.tokens)
            && Pieces(line, 0, "") == [line] && '\n' !in line
            && !AnyHeading(u, line, true) && !AnyHeading(u, line, false)
  {
    ItemIsListItem(u, l);
    ItemTokens(u, l);
    ItemIsOneLine(u, l);
    ItemIsNoHeading(u, l, true);
    ItemIsNoHeading(u, l, false);
    PiecesOfPlain(RenderLine(l), 0);
    assert RenderLine(l)[..0] == "";
  }

  function RenderAll(lines: seq<Line>): (r: seq<string>)
    ensures |r| == |lines|
    ensures forall k :: 0 <= k < |lines| ==> r[k] == RenderLine(lines[k])
  {
    if lines == [] then [] else [RenderLine(lines[0])] + RenderAll(lines[1..])
  }

  lemma LineIsRead(u: Unicode, l: Line)
    requires Proper(u) && LineOk(u, l)
    ensures var line := RenderLine(l);
            && LineTokens(u, Pieces(line, 0, "")) == (if l.Item? then Firsts(l.tokens) else [])
            && '\n' !in line && !AnyHeading(u, line, true) && !AnyHeading(u, line, false)
  {
    if l.Item? {
      ItemIsRead(u, l);
      assert [RenderLine(l)][1..] == [];
    } else {
      PiecesOfPlain(l.text, 0);
      assert l.text[..0] == "" && [l.text][1..] == [];
    }
  }

  lemma {:induction false} SectionIsRead(u: Unicode, lines: seq<Line>)
    requires Proper(u) && forall l :: l in lines ==> LineOk(u, l)
    ensures SectionTokens(u, RenderAll(lines)) == TokensOf(lines)
  {
    if lines != [] {
      assert lines[0] in lines;
      LineIsRead(u, lines[0]);
      SectionIsRead(u, lines[1..]);
    }
  }

  lemma {:induction false} FirstHeadingAt(u: Unicode, lines: seq<string>, i: nat, at: nat)
    requires i <= at < |lines| && OwnershipHeading(u, lines[at])
    requires forall k :: i <= k < at ==> !OwnershipHeading(u, lines[k])
    ensures FirstHeading(u, lines, i) == at
    decreases at - i
  {
    if i < at { FirstHeadingAt(u, lines, i + 1, at); }
  }

  lemma {:induction false} NextHeadingAt(u: Unicode, lines: seq<string>, i: nat, at: nat)
    requires i <= at <= |lines| && (at < |lines| ==> AnyHeading(u, lines[at], at + 1 < |lines|))
    requires forall k :: i <= k < at ==> !AnyHeading(u, lines[k], k + 1 < |lines|)
    ensures NextHeading(u, lines, i) == at
    decreases at - i
  {
    if i < at { NextHeadingAt(u, lines, i + 1, at); }
  }

  /** A rendered ownership section parses back to exactly its distinct path tokens in the
      order of their first occurrence, whatever precedes the heading and whatever follows
      the next one. */
  lemma RenderedSectionParsesBack(u: Unicode, before: seq<string>, h: Heading, lines: seq<Line>, after: seq<string>)
    requires Proper(u) && HeadingOk(u, h) && '\n' !in RenderHeading(h)
    requires forall l :: l in before ==> '\n' !in l && !OwnershipHeading(u, l)
    requires forall l :: l in lines ==> LineOk(u, l)
    requires forall l :: l in after ==> '\n' !in l
    requires after != [] ==> AnyHeading(u, after[0], |after| > 1)
    ensures DeclaredPaths(u, Join(before + [RenderHeading(h)] + RenderAll(lines) + after))
         == Some(OnlyPaths(u, Collect(u, [], TokensOf(lines))))
    ensures KeepsPaths(u, Collect(u, [], TokensOf(lines)), OnlyPaths(u, Collect(u, [], TokensOf(lines))))
  {
    CollectTrims(u, TokensOf(lines));
    OnlyPathsKeeps(u, Collect(u, [], TokensOf(lines)));
    HeadingIsRead(u, h);
    RenderedLinesStay(u, lines);
    SectionFound(u, before, RenderHeading(h), RenderAll(lines), after);
    SectionIsRead(u, lines);
  }

  lemma SectionFound(u: Unicode, before: seq<string>, heading: string, section: seq<string>, after: seq<string>)
    requires '\n' !in heading && forall l :: l in before || l in section || l in after ==> '\n' !in l
    requires OwnershipHeading(u, heading) && forall l :: l in before ==> !OwnershipHeading(u, l)
    requires forall l :: l in section ==> !AnyHeading(u, l, true) && !AnyHeading(u, l, false)
    requires after != [] ==> AnyHeading(u, after[0], |after| > 1)
    ensures OwnershipSection(u, Join(before + [heading] + section + after)) == Some(section)
  {
    var all := before + [heading] + section + after;
    var at, end := |before|, |before| + 1 + |section|;
    LinesAreWhole(before, heading, section, after);
    HeadingAfter(u, before, heading, section + after);
    HeadingBehind(u, before + [heading], section, after);
    SumsAgree(before, heading, section, after);
    SectionAt(u, all, at, end);
  }

  lemma SumsAgree(before: seq<string>, heading: string, section: seq<string>, after: seq<string>)
    ensures before + [heading] + section + after == before + [heading] + (section + after)
    ensures (before + [heading] + section + after)[|before| + 1..|before| + 1 + |section|] == section
  {
  }

  lemma HeadingAfter(u: Unicode, before: seq<string>, heading: string, rest: seq<string>)
    requires OwnershipHeading(u, heading) && forall l :: l in before ==> !OwnershipHeading(u, l)
    ensures FirstHeading(u, before + [heading] + rest, 0) == |before|
  {
    var all := before + [heading] + rest;
    forall k | 0 <= k < |before| ensures !OwnershipHeading(u, all[k]) {
      assert all[k] == before[k] && before[k] in before;
    }
    assert all[|before|] == heading;
    FirstHeadingAt(u, all, 0, |before|);
  }

  lemma HeadingBehind(u: Unicode, front: seq<string>, section: seq<string>, after: seq<string>)
    requires forall l :: l in section ==> !AnyHeading(u, l, true) && !AnyHeading(u, l, false)
    requires after != [] ==> AnyHeading(u, after[0], |after| > 1)
    ensures NextHeading(u, front + section + after, |front|) == |front| + |section|
  {
    var all, end := front + section + after, |front| + |section|;
    assert all[|front|..end] == section;
    NoHeadingInside(u, all, |front|, end, section);
    if after != [] { assert all[end] == after[0]; }
    NextHeadingAt(u, all, |front|, end);
  }

  lemma RenderedLinesStay(u: Unicode, lines: seq<Line>)
    requires Proper(u) && forall l :: l in lines ==> LineOk(u, l)
    ensures forall l :: l in RenderAll(lines) ==> '\n' !in l && !AnyHeading(u, l, true) && !AnyHeading(u, l, false)
  {
    forall k | 0 <= k < |lines|
      ensures '\n' !in RenderAll(lines)[k]
      ensures !AnyHeading(u, RenderAll(lines)[k], true) && !AnyHeading(u, RenderAll(lines)[k], false)
    {
      assert lines[k] in lines;
      LineIsRead(u, lines[k]);
    }
  }

  lemma NoHeadingInside(u: Unicode, all: seq<string>, low: nat, high: nat, part: seq<string>)
    requires low <= high <= |all| && all[low..high] == part
    requires forall l :: l in part ==> !AnyHeading(u, l, true) && !AnyHeading(u, l, false)
    ensures forall k :: low <= k < high ==> !AnyHeading(u, all[k], k + 1 < |all|)
  {
    forall k | low <= k < high ensures !AnyHeading(u, all[k], k + 1 < |all|) {
      assert all[k] == part[k - low] && part[k - low] in part;
    }
  }

  lemma LinesAreWhole(before: seq<string>, heading: string, section: seq<string>, after: seq<string>)
    requires '\n' !in heading && forall l :: l in before || l in section || l in after ==> '\n' !in l
    ensures forall l :: l in before + [heading] + section + after ==> '\n' !in l
  {
  }

  lemma SectionBetween(u: Unicode, body: string, all: seq<string>, at: nat, end: nat)
    requires LinesFrom(body, 0, "") == all && FirstHeading(u, all, 0) == at < |all| && NextHeading(u, all, at + 1) == end
    ensures OwnershipSection(u, body) == Some(all[at + 1..end])
  {
  }

  lemma SectionAt(u: Unicode, all: seq<string>, at: nat, end: nat)
    requires at < end <= |all| && forall l :: l in all ==> '\n' !in l
    requires FirstHeading(u, all, 0) == at && NextHeading(u, all, at + 1) == end
    ensures OwnershipSection(u, Join(all)) == Some(all[at + 1..end])
  {
    LinesOfJoin(all);
    SectionBetween(u, Join(all), all, at, end);
  }

  // ---- What collecting means ----

  function FirstIndex(u: Unicode, tokens: seq<string>, token: string): (i: nat)
    ensures i <= |tokens|
    ensures i < |tokens| ==> Texts.Strip(u.space, tokens[i]) == token
    ensures forall k :: 0 <= k < i ==> Texts.Strip(u.space, tokens[k]) != token
  {
    if tokens == [] || Texts.Strip(u.space, tokens[0]) == token then 0 else 1 + FirstIndex(u, tokens[1..], token)
  }

  /** Every non-empty stripped token is there, and once, in order of first occurrence. */
  ghost predicate FirstOccurrences(u: Unicode, found: seq<string>, tokens: seq<string>) {
    && (forall token :: token in found <==> token != "" && FirstIndex(u, tokens, token) < |tokens|)
    && (forall i, j :: 0 <= i < j < |found| ==> FirstIndex(u, tokens, found[i]) < FirstIndex(u, tokens, found[j]))
  }

  lemma {:induction false} CollectKeepsFirstOccurrences(u: Unicode, tokens: seq<string>)
    ensures FirstOccurrences(u, Collect(u, [], tokens), tokens)
    decreases |tokens|
  {
    if tokens != [] {
      var n := |tokens| - 1;
      var front, last := tokens[..n], tokens[n];
      assert tokens == front + [last] && [last][1..] == [];
      CollectKeepsFirstOccurrences(u, front);
      CollectInTurn(u, [], front, [last]);
      OneMoreToken(u, Collect(u, [], front), front, last);
    }
  }

  lemma OneMoreToken(u: Unicode, found: seq<string>, front: seq<string>, last: string)
    requires FirstOccurrences(u, found, front)
    ensures var token := Texts.Strip(u.space, last);
            FirstOccurrences(u, if token != "" && token !in found then found + [token] else found, front + [last])
  {
    var stripped, tokens := Texts.Strip(u.space, last), front + [last];
    var more := if stripped != "" && stripped !in found then found + [stripped] else found;
    forall token ensures token in more <==> token != "" && FirstIndex(u, tokens, token) < |tokens| {
      FirstIndexAppend(u, front, last, token);
      assert token in found <==> token != "" && FirstIndex(u, front, token) < |front|;
      assert token in more <==> token in found || (token == stripped && stripped != "");
    }
    forall i, j | 0 <= i < j < |more| ensures FirstIndex(u, tokens, more[i]) < FirstIndex(u, tokens, more[j]) {
      FirstIndexAppend(u, front, last, more[i]);
      FirstIndexAppend(u, front, last, more[j]);
      assert more[i] == found[i] && found[i] in found;
      if j < |found| { assert found[j] in found; }
    }
  }

  lemma {:induction false} FirstIndexAppend(u: Unicode, front: seq<string>, last: string, token: string)
    ensures FirstIndex(u, front + [last], token) ==
            if FirstIndex(u, front, token) < |front| then FirstIndex(u, front, token)
            else if token == Texts.Strip(u.space, last) then |front| else |front| + 1
    decreases |front|
  {
    if front == [] {
      assert front + [last] == [last] && [last][1..] == [];
    } else {
      assert (front + [last])[1..] == front[1..] + [last];
      FirstIndexAppend(u, front[1..], last, token);
    }
  }

  // ---- A ticket with carriage returns ----

  /** A carriage return is no letter that ends one of the words. */
  predicate ReturnEndsNoWord(u: Unicode) {
    !u.same('\r', '权') && !u.same('\r', '集') && !u.same('\r', 'p') && !u.same('\r', 't')
  }

  /** A line that keeps a carriage return at its end is never read as the heading. */
  lemma CarriageReturnHidesHeading(u: Unicode, text: string)
    requires ReturnEndsNoWord(u) && EndsInReturn(text)
    ensures !OwnershipHeading(u, text)
  {
    SkipKeepsEnd(text);
    var mark := SkipBlanks(text);
    HashesBounded(mark);
    HashesKeepEnd(mark);
    SkipKeepsEnd(mark[Hashes(mark)..]);
    var title := SkipBlanks(mark[Hashes(mark)..]);
    forall k | 0 <= k < |WORDS| && StartsWith(u, title, WORDS[k]) ensures !NoteOnly(title[|WORDS[k]|..]) {
      var rest := title[|WORDS[k]|..];
      var w := WORDS[k];
      assert w[|w| - 1] in {'权', '集', 'p', 't'};
      assert u.same(title[|w| - 1], w[|w| - 1]);
      assert rest != "" && rest[|rest| - 1] == '\r';
      SkipKeepsEnd(rest);
      var note := SkipBlanks(rest);
      if note[1..] != "" { AfterCloseKeepsEnd(note[1..]); }
      if note[1..] != "" && AfterClose(note[1..]).Some? { SkipKeepsEnd(AfterClose(note[1..]).value); }
    }
  }

  predicate EndsInReturn(s: string) { s != "" && s[|s| - 1] == '\r' }

  lemma {:induction false} SkipKeepsEnd(s: string)
    requires EndsInReturn(s)
    ensures EndsInReturn(SkipBlanks(s))
  {
    if Blank(s[0]) { SkipKeepsEnd(s[1..]); }
  }

  lemma {:induction false} HashesKeepEnd(s: string)
    requires EndsInReturn(s)
    ensures Hashes(s) < |s|
  {
    if s[0] == '#' { HashesKeepEnd(s[1..]); }
  }

  lemma {:induction false} AfterCloseKeepsEnd(s: string)
    requires EndsInReturn(s)
    ensures AfterClose(s).Some? ==> EndsInReturn(AfterClose(s).value)
  {
    if !Closes(s[0]) && |s| > 1 { AfterCloseKeepsEnd(s[1..]); }
  }

  lemma {:induction false} NoHeadingBefore(u: Unicode, lines: seq<string>, i: nat)
    requires i < |lines| && forall k :: i <= k < |lines| - 1 ==> !OwnershipHeading(u, lines[k])
    ensures FirstHeading(u, lines, i) == if OwnershipHeading(u, lines[|lines| - 1]) then |lines| - 1 else |lines|
    decreases |lines| - i
  {
    if i < |lines| - 1 { NoHeadingBefore(u, lines, i + 1); }
  }

  lemma ReturnsHideHeadings(u: Unicode, lines: seq<string>)
    requires ReturnEndsNoWord(u) && forall k :: 0 <= k < |lines| - 1 ==> EndsInReturn(lines[k])
    ensures forall k :: 0 <= k < |lines| - 1 ==> !OwnershipHeading(u, lines[k])
  {
    forall k | 0 <= k < |lines| - 1 ensures !OwnershipHeading(u, lines[k]) {
      CarriageReturnHidesHeading(u, lines[k]);
    }
  }

  lemma SectionOfLines(u: Unicode, lines: seq<string>)
    requires lines != [] && forall l :: l in lines ==> '\n' !in l
    ensures OwnershipSection(u, Join(lines)).None? <==> FirstHeading(u, lines, 0) == |lines|
  {
    LinesOfJoin(lines);
  }

  lemma OnlyLastCanBeHeading(u: Unicode, lines: seq<string>)
    requires ReturnEndsNoWord(u) && lines != []
    requires forall k :: 0 <= k < |lines| - 1 ==> EndsInReturn(lines[k])
    ensures FirstHeading(u, lines, 0) == if OwnershipHeading(u, lines[|lines| - 1]) then |lines| - 1 else |lines|
  {
    ReturnsHideHeadings(u, lines);
    NoHeadingBefore(u, lines, 0);
  }

  /** A ticket whose lines are ended by a carriage return and a newline has no ownership
      section unless its last line, which nothing ends, is the heading itself. */
  lemma CrlfTicketHasNoSection(u: Unicode, lines: seq<string>)
    requires ReturnEndsNoWord(u)
    requires lines != [] && forall l :: l in lines ==> '\n' !in l
    requires forall k :: 0 <= k < |lines| - 1 ==> EndsInReturn(lines[k])
    ensures OwnershipSection(u, Join(lines)).None? <==> !OwnershipHeading(u, lines[|lines| - 1])
  {
    SectionOfLines(u, lines);
    OnlyLastCanBeHeading(u, lines);
  }

  // ---- What counts as a path ----

  /** The text of `t` between two slashes, or between a slash and an end of `t`. */
  ghost predicate SegmentOf(t: string, i: nat, j: nat) {
    && i <= j <= |t| && (i == 0 || t[i - 1] == '/') && (j == |t| || t[j] == '/')
    && forall k :: i <= k < j ==> t[k] != '/'
  }

  ghost predicate NamesScheme(t: string) {
    exists k: nat :: k + 2 < |t| && t[k] == ':' && t[k + 1] == '/' && t[k + 2] == '/'
  }

  /** No dot follows the one at `k`. */
  ghost predicate LastDot(t: string, k: nat) {
    k < |t| && t[k] == '.' && forall j :: k < j < |t| ==> t[j] != '.'
  }

  /** What a declared path looks like: one word, no option and no address; with a slash a
      relative path whose segments are names, without one a file of a known kind. */
  ghost predicate PathShaped(u: Unicode, t: string) {
    && t != "" && (forall k :: 0 <= k < |t| ==> !u.space(t[k])) && !NamesScheme(t) && t[0] != '-'
    && if exists k :: 0 <= k < |t| && t[k] == '/'
       then t[0] != '/' && NamedSegments(t)
       else exists k: nat :: LastDot(t, k) && NamesKind(u.lower(t[k + 1..]))
  }

  predicate NamesKind(x: string) {
    || x == "go" || x == "py" || x == "ts" || x == "tsx" || x == "js" || x == "jsx" || x == "vue" || x == "json"
    || x == "sql" || x == "md" || x == "yaml" || x == "yml" || x == "sh" || x == "ps1" || x == "toml" || x == "ini"
    || x == "cfg" || x == "html" || x == "css" || x == "txt" || x == "proto" || x == "lock" || x == "mod" || x == "sum"
  }

  lemma KindExactly(x: string)
    ensures x in EXTENSIONS <==> NamesKind(x)
  {
  }

  lemma {:induction false} SegmentsAt(t: string, i: nat, start: nat)
    requires start <= i <= |t| && (start == 0 || t[start - 1] == '/') && forall k :: start <= k < i ==> t[k] != '/'
    ensures forall x :: x in Segments(t, i, t[start..i]) <==> exists a: nat, b: nat :: start <= a && SegmentOf(t, a, b) && x == t[a..b]
    decreases |t| - i
  {
    if i == |t| || t[i] == '/' {
      assert SegmentOf(t, start, i);
      forall a: nat, b: nat | start <= a <= i && SegmentOf(t, a, b) ensures a == start && b == i { }
    }
    if i < |t| {
      assert t[start..i] + [t[i]] == t[start..i + 1];
      if t[i] == '/' {
        assert t[i + 1..i + 1] == "";
        SegmentsAt(t, i + 1, i + 1);
      } else {
        SegmentsAt(t, i + 1, start);
      }
    }
  }

  lemma {:induction false} SuffixBehindDot(t: string, k: nat)
    requires LastDot(t, k)
    ensures LastDotSuffix(t) == t[k + 1..]
  {
    var n := |t| - 1;
    if k < n {
      assert LastDot(t[..n], k);
      SuffixBehindDot(t[..n], k);
      assert t[..n][k + 1..] + [t[n]] == t[k + 1..];
    }
  }

  lemma {:induction false} SomeLastDot(t: string) returns (k: nat)
    requires '.' in t
    ensures LastDot(t, k)
  {
    var n := |t| - 1;
    if t[n] == '.' {
      k := n;
    } else {
      assert t == t[..n] + [t[n]];
      k := SomeLastDot(t[..n]);
    }
  }

  lemma SchemeExactly(t: string)
    ensures (exists k :: 0 <= k < |t| && "://" <= t[k..]) <==> NamesScheme(t)
  {
    if k :| 0 <= k < |t| && "://" <= t[k..] {
      assert t[k..][0] == ':' && t[k..][1] == '/' && t[k..][2] == '/';
    }
    if k: nat :| k + 2 < |t| && t[k] == ':' && t[k + 1] == '/' && t[k + 2] == '/' {
      assert t[k..][..3] == "://";
    }
  }

  /** A token without white space at its ends is taken for a path exactly when it looks like
      one. */
  lemma PathTokenExactly(u: Unicode, t: string)
    requires Texts.Trimmed(u.space, t)
    ensures IsPathToken(u, t) <==> PathShaped(u, t)
  {
    Texts.TrimmedStays(u.space, t);
    if t != "" {
      SchemeExactly(t);
      assert (forall c :: c in t ==> !u.space(c)) <==> forall k :: 0 <= k < |t| ==> !u.space(t[k]);
      assert '/' in t <==> exists k :: 0 <= k < |t| && t[k] == '/';
      if '/' in t {
        SlashedExactly(t);
      } else {
        SuffixExactly(u, t);
      }
    }
  }

  /** Every segment of the text is a name. */
  ghost predicate NamedSegments(t: string) {
    forall i: nat, j: nat :: SegmentOf(t, i, j) ==> t[i..j] != "" && t[i..j] != "." && t[i..j] != ".."
  }

  lemma NamedHasNoOdd(t: string)
    requires NamedSegments(t)
    ensures NoOddSegment(t)
  {
    assert t[0..0] == "";
    SegmentsAt(t, 0, 0);
    forall s | s in Segments(t, 0, "") ensures s !in {"", ".", ".."} {
      var i: nat, j: nat :| SegmentOf(t, i, j) && s == t[i..j];
    }
  }

  lemma NoOddIsNamed(t: string)
    requires NoOddSegment(t)
    ensures NamedSegments(t)
  {
    assert t[0..0] == "";
    SegmentsAt(t, 0, 0);
    forall i: nat, j: nat | SegmentOf(t, i, j) ensures t[i..j] != "" && t[i..j] != "." && t[i..j] != ".." {
      assert t[i..j] in Segments(t, 0, "");
    }
  }

  lemma NamedEndsInName(t: string)
    requires t != "" && NamedSegments(t)
    ensures t[|t| - 1] != '/'
  {
    assert t[|t|..|t|] == "";
  }

  lemma SlashedExactly(t: string)
    requires t != ""
    ensures t[|t| - 1] != '/' && NoOddSegment(t) <==> NamedSegments(t)
  {
    if NamedSegments(t) {
      NamedHasNoOdd(t);
      NamedEndsInName(t);
    }
    if NoOddSegment(t) { NoOddIsNamed(t); }
  }

  lemma SuffixExactly(u: Unicode, t: string)
    requires t != "" && '/' !in t
    ensures t[0] != '/' && t[|t| - 1] != '/'
    ensures '.' in t && u.lower(LastDotSuffix(t)) in EXTENSIONS <==>
            exists k: nat :: LastDot(t, k) && NamesKind(u.lower(t[k + 1..]))
  {
    KindExactly(u.lower(LastDotSuffix(t)));
    if '.' in t {
      var k := SomeLastDot(t);
      SuffixBehindDot(t, k);
    }
    forall k: nat | LastDot(t, k) ensures LastDotSuffix(t) == t[k + 1..] { SuffixBehindDot(t, k); }
  }

  /** From tokens that are all different, exactly the paths are kept, in their order. */
  ghost predicate KeepsPaths(u: Unicode, tokens: seq<string>, paths: seq<string>) {
    && (forall t :: t in paths <==> t in tokens && PathShaped(u, t))
    && forall i, j :: 0 <= i < j < |paths| ==>
                        forall a, b :: 0 <= a < |tokens| && 0 <= b < |tokens| && tokens[a] == paths[i] && tokens[b] == paths[j] ==> a < b
  }

  ghost predicate TrimmedTokens(u: Unicode, tokens: seq<string>) {
    && (forall t :: t in tokens ==> Texts.Trimmed(u.space, t))
    && forall i, j :: 0 <= i < j < |tokens| ==> tokens[i] != tokens[j]
  }

  lemma {:induction false} OnlyPathsKeeps(u: Unicode, tokens: seq<string>)
    requires TrimmedTokens(u, tokens)
    ensures KeepsPaths(u, tokens, OnlyPaths(u, tokens))
  {
    if tokens != [] {
      var first, rest, kept := tokens[0], tokens[1..], OnlyPaths(u, tokens[1..]);
      assert tokens == [first] + rest;
      OnlyPathsKeeps(u, rest);
      PathTokenExactly(u, first);
      KeepsOneMore(u, first, rest, kept);
      assert [] + kept == kept;
    }
  }

  lemma KeepsOneMore(u: Unicode, first: string, rest: seq<string>, kept: seq<string>)
    requires KeepsPaths(u, rest, kept) && first !in rest
    ensures KeepsPaths(u, [first] + rest, (if PathShaped(u, first) then [first] else []) + kept)
  {
    var tokens, paths := [first] + rest, (if PathShaped(u, first) then [first] else []) + kept;
    var n := |paths| - |kept|;
    forall i, j, a, b | 0 <= i < j < |paths| && 0 <= a < |tokens| && 0 <= b < |tokens| && tokens[a] == paths[i] && tokens[b] == paths[j]
      ensures a < b
    {
      assert paths[j] == kept[j - n] && kept[j - n] in kept;
      assert paths[j] in rest;
      if i >= n {
        assert paths[i] == kept[i - n] && kept[i - n] in kept;
        assert tokens[a] == rest[a - 1] && tokens[b] == rest[b - 1];
      }
    }
  }

  lemma CollectTrims(u: Unicode, tokens: seq<string>)
    ensures TrimmedTokens(u, Collect(u, [], tokens))
  {
    var found := Collect(u, [], tokens);
    CollectKeepsFirstOccurrences(u, tokens);
    forall t | t in found ensures Texts.Trimmed(u.space, t) {
      assert Texts.Strip(u.space, tokens[FirstIndex(u, tokens, t)]) == t;
      Texts.StripTrims(u.space, tokens[FirstIndex(u, tokens, t)]);
    }
  }

  /** The declared paths are the declared tokens that look like paths, in their order. */
  lemma DeclaredPathsKeep(u: Unicode, section: seq<string>)
    ensures KeepsPaths(u, Collect(u, [], SectionTokens(u, section)), OnlyPaths(u, Collect(u, [], SectionTokens(u, section))))
  {
    CollectTrims(u, SectionTokens(u, section));
    OnlyPathsKeeps(u, Collect(u, [], SectionTokens(u, section)));
  }

  lemma {:induction false} AllPathsStay(u: Unicode, tokens: seq<string>)
    requires forall t :: t in tokens ==> IsPathToken(u, t)
    ensures OnlyPaths(u, tokens) == tokens
  {
    if tokens != [] {
      assert tokens[0] in tokens;
      AllPathsStay(u, tokens[1..]);
      assert tokens == [tokens[0]] + tokens[1..];
    }
  }

  lemma ShapedIsTrimmed(u: Unicode, t: string)
    requires PathShaped(u, t)
    ensures Texts.Trimmed(u.space, t) && Texts.Strip(u.space, t) == t && IsPathToken(u, t)
  {
    Texts.TrimmedStays(u.space, t);
    PathTokenExactly(u, t);
  }

  /** Each of the texts once, in the order in which they first occur. */
  ghost predicate OnceEach(found: seq<string>, texts: seq<string>) {
    && (forall t :: t in found <==> t in texts)
    && forall i, j :: 0 <= i < j < |found| ==>
                        FirstBefore(texts, found[i], found[j])
  }

  /** The first text occurs before the second does. */
  ghost predicate FirstBefore(texts: seq<string>, first: string, second: string) {
    exists a :: 0 <= a < |texts| && texts[a] == first && forall b :: 0 <= b <= a ==> texts[b] != second
  }

  lemma FirstIndexOfTrimmed(u: Unicode, texts: seq<string>, t: string)
    requires forall x :: x in texts ==> x != "" && Texts.Strip(u.space, x) == x
    ensures FirstIndex(u, texts, t) < |texts| <==> t in texts
    ensures t in texts ==> texts[FirstIndex(u, texts, t)] == t
    ensures forall b :: 0 <= b < FirstIndex(u, texts, t) ==> texts[b] != t
  {
    var a := FirstIndex(u, texts, t);
    if a < |texts| { assert texts[a] in texts; }
    if t in texts {
      var k :| 0 <= k < |texts| && texts[k] == t;
      assert Texts.Strip(u.space, texts[k]) == t;
    }
    forall b | 0 <= b < a ensures texts[b] != t { assert texts[b] in texts; }
  }

  lemma CollectOfTrimmed(u: Unicode, texts: seq<string>)
    requires forall t :: t in texts ==> t != "" && Texts.Strip(u.space, t) == t
    ensures OnceEach(Collect(u, [], texts), texts)
  {
    var found := Collect(u, [], texts);
    CollectKeepsFirstOccurrences(u, texts);
    forall t ensures t in found <==> t in texts { FirstIndexOfTrimmed(u, texts, t); }
    forall i, j | 0 <= i < j < |found| ensures FirstBefore(texts, found[i], found[j]) {
      assert found[i] in found && found[j] in found;
      FirstIndexOfTrimmed(u, texts, found[i]);
      FirstIndexOfTrimmed(u, texts, found[j]);
      var a := FirstIndex(u, texts, found[i]);
      assert texts[a] == found[i];
    }
  }

  /** A rendered section whose tokens all look like paths parses back to the tokens
      themselves, each once, in the order of their first occurrence. */
  lemma RenderedPathsParseBack(u: Unicode, before: seq<string>, h: Heading, lines: seq<Line>, after: seq<string>)
    requires Proper(u) && HeadingOk(u, h) && '\n' !in RenderHeading(h)
    requires forall l :: l in before ==> '\n' !in l && !OwnershipHeading(u, l)
    requires forall l :: l in lines ==> LineOk(u, l)
    requires forall l :: l in after ==> '\n' !in l
    requires after != [] ==> AnyHeading(u, after[0], |after| > 1)
    requires forall t :: t in TokensOf(lines) ==> PathShaped(u, t)
    ensures var paths := DeclaredPaths(u, Join(before + [RenderHeading(h)] + RenderAll(lines) + after));
            paths.Some? && OnceEach(paths.value, TokensOf(lines))
  {
    var tokens := TokensOf(lines);
    RenderedSectionParsesBack(u, before, h, lines, after);
    forall t | t in tokens ensures t != "" && Texts.Strip(u.space, t) == t && IsPathToken(u, t) { ShapedIsTrimmed(u, t); }
    CollectOfTrimmed(u, tokens);
    AllPathsStay(u, Collect(u, [], tokens));
  }

  // ---- An example ----

  ghost predicate LowersAscii(u: Unicode) {
    u.lower("go") == "go" && u.lower("Body") == "body"
  }

  ghost predicate NoSpaces(u: Unicode, t: string) {
    forall k :: 0 <= k < |t| ==> !u.space(t[k])
  }

  /** A file name is a path and a dotted identifier is none. */
  lemma DottedNames(u: Unicode)
    requires LowersAscii(u) && NoSpaces(u, "a.go")
    ensures PathShaped(u, "a.go") && !PathShaped(u, "Request.Body")
  {
    var file, name := "a.go", "Request.Body";
    assert LastDot(file, 1) && file[2..] == "go";
    assert !NamesScheme(file);
    assert LastDot(name, 7) && name[8..] == "Body";
    assert forall k :: LastDot(name, k) ==> k == 7;
  }

  // ---- Headings, list items and tokens spelled out ----

  predicate SpelledLike(u: Unicode, word: string, w: string) {
    |word| == |w| && forall k :: 0 <= k < |w| ==> u.same(word[k], w[k])
  }

  predicate NamesOwnership(u: Unicode, word: string) {
    || SpelledLike(u, word, "文件所有权") || SpelledLike(u, word, "File ownership")
    || SpelledLike(u, word, "路径集") || SpelledLike(u, word, "Path set")
  }

  predicate Blanks(s: string) {
    forall k :: 0 <= k < |s| ==> s[k] == ' ' || s[k] == '\t'
  }

  /** Nothing, or a text in parentheses of either width without a closing one inside. */
  predicate NoteShape(note: string) {
    note == "" ||
    (&& |note| >= 2 && (note[0] == '(' || note[0] == '（') && (note[|note| - 1] == ')' || note[|note| - 1] == '）')
     && forall k :: 0 < k < |note| - 1 ==> note[k] != ')' && note[k] != '）')
  }

  ghost predicate HeadingShape(u: Unicode, line: string, indent: string, marks: string, gap: string, word: string, before: string, note: string, after: string) {
    && line == indent + (marks + (gap + (word + (before + (note + after)))))
    && Blanks(indent) && Blanks(gap) && Blanks(before) && Blanks(after)
    && 1 <= |marks| <= 6 && (forall k :: 0 <= k < |marks| ==> marks[k] == '#')
    && NamesOwnership(u, word) && NoteShape(note)
  }

  /** Neither a blank nor a mark is equal to a letter the words begin with. */
  predicate WordsBegin(u: Unicode) {
    forall c :: c == ' ' || c == '\t' || c == '#' ==> !u.same(c, '文') && !u.same(c, 'F') && !u.same(c, '路') && !u.same(c, 'P')
  }

  lemma WordExactly(u: Unicode, word: string)
    ensures NamesOwnership(u, word) <==> exists k :: 0 <= k < |WORDS| && |word| == |WORDS[k]| && StartsWith(u, word, WORDS[k])
  {
    assert |WORDS| == 4 && WORDS[0] == "文件所有权" && WORDS[1] == "File ownership" && WORDS[2] == "路径集" && WORDS[3] == "Path set";
  }

  lemma {:induction false} SkipSplits(s: string) returns (blanks: string)
    ensures s == blanks + SkipBlanks(s) && Blanks(blanks)
    ensures SkipBlanks(s) != "" ==> SkipBlanks(s)[0] != ' ' && SkipBlanks(s)[0] != '\t'
  {
    blanks := "";
    if s != "" && Blank(s[0]) {
      blanks := SkipSplits(s[1..]);
      assert s == [s[0]] + s[1..];
      blanks := [s[0]] + blanks;
    }
  }

  lemma SkipsAll(blanks: string, rest: string)
    requires Blanks(blanks) && (rest != "" ==> rest[0] != ' ' && rest[0] != '\t')
    ensures SkipBlanks(blanks + rest) == rest
  {
    assert AllBlank(blanks);
    SkipsBlanks(blanks, rest);
  }

  lemma {:induction false} HashesOf(marks: string, rest: string)
    requires (forall k :: 0 <= k < |marks| ==> marks[k] == '#') && (rest != "" ==> rest[0] != '#')
    ensures Hashes(marks + rest) == |marks|
  {
    if marks == "" {
      assert marks + rest == rest;
    } else {
      assert (marks + rest)[1..] == marks[1..] + rest;
      HashesOf(marks[1..], rest);
    }
  }

  lemma {:induction false} HashesAre(s: string)
    ensures Hashes(s) <= |s| && (forall k :: 0 <= k < Hashes(s) ==> s[k] == '#') && (Hashes(s) < |s| ==> s[Hashes(s)] != '#')
  {
    if s != "" && s[0] == '#' { HashesAre(s[1..]); }
  }

  lemma {:induction false} ClosesAt(inner: string, c: char, rest: string)
    requires (forall k :: 0 <= k < |inner| ==> inner[k] != ')' && inner[k] != '）') && (c == ')' || c == '）')
    ensures AfterClose(inner + ([c] + rest)) == Some(rest)
  {
    var text := inner + ([c] + rest);
    if inner == "" {
      assert text == [c] + rest && text[1..] == rest;
    } else {
      assert text[1..] == inner[1..] + ([c] + rest);
      ClosesAt(inner[1..], c, rest);
    }
  }

  lemma {:induction false} ClosesSplits(s: string) returns (inner: string, c: char)
    requires AfterClose(s).Some?
    ensures s == inner + ([c] + AfterClose(s).value) && (c == ')' || c == '）')
    ensures forall k :: 0 <= k < |inner| ==> inner[k] != ')' && inner[k] != '）'
  {
    assert s == [s[0]] + s[1..];
    if Closes(s[0]) {
      inner, c := "", s[0];
      assert "" + ([c] + s[1..]) == s;
    } else {
      inner, c := ClosesSplits(s[1..]);
      inner := [s[0]] + inner;
    }
  }

  lemma NoteInRest(rest: string) returns (note: string, after: string)
    requires rest != "" && Opens(rest[0]) && AfterClose(rest[1..]).Some? && SkipBlanks(AfterClose(rest[1..]).value) == ""
    ensures rest == note + after && Blanks(after) && NoteShape(note)
  {
    var inner, c := ClosesSplits(rest[1..]);
    after := AfterClose(rest[1..]).value;
    var blanks := SkipSplits(after);
    assert after == blanks + "" == blanks;
    note := [rest[0]] + inner + [c];
    assert rest == [rest[0]] + rest[1..] && note + after == [rest[0]] + (inner + ([c] + after));
  }

  lemma NoteSplits(s: string) returns (before: string, note: string, after: string)
    requires NoteOnly(s)
    ensures s == before + (note + after) && Blanks(before) && Blanks(after) && NoteShape(note)
  {
    before := SkipSplits(s);
    note, after := "", "";
    if SkipBlanks(s) != "" {
      note, after := NoteInRest(SkipBlanks(s));
    } else {
      assert before + ("" + "") == before + SkipBlanks(s);
    }
  }

  lemma NoteJoins(before: string, note: string, after: string)
    requires Blanks(before) && Blanks(after) && NoteShape(note)
    ensures NoteOnly(before + (note + after))
  {
    if note == "" {
      SkipsAll(before + after, "");
      assert before + after + "" == before + (note + after);
    } else {
      var inner, c, tail := note[1..|note| - 1], note[|note| - 1], note + after;
      SkipsAll(before, tail);
      assert tail[1..] == inner + ([c] + after);
      ClosesAt(inner, c, after);
      SkipsAll(after, "");
      assert after + "" == after;
    }
  }

  lemma TitleHasParts(u: Unicode, title: string, k: nat) returns (word: string, before: string, note: string, after: string)
    requires k < |WORDS| && StartsWith(u, title, WORDS[k]) && NoteOnly(title[|WORDS[k]|..])
    ensures title == word + (before + (note + after)) && NamesOwnership(u, word) && Blanks(before) && Blanks(after) && NoteShape(note)
  {
    word := title[..|WORDS[k]|];
    assert StartsWith(u, word, WORDS[k]);
    WordExactly(u, word);
    before, note, after := NoteSplits(title[|WORDS[k]|..]);
    assert title == word + title[|WORDS[k]|..];
  }

  lemma MarkHasParts(mark: string) returns (marks: string, gap: string)
    requires 1 <= Hashes(mark) <= 6 && Hashes(mark) <= |mark|
    ensures mark == marks + (gap + SkipBlanks(mark[Hashes(mark)..])) && Blanks(gap)
    ensures 1 <= |marks| <= 6 && forall k :: 0 <= k < |marks| ==> marks[k] == '#'
  {
    HashesAre(mark);
    marks := mark[..Hashes(mark)];
    gap := SkipSplits(mark[Hashes(mark)..]);
    assert mark == marks + mark[Hashes(mark)..];
  }

  lemma HeadingHasParts(u: Unicode, line: string)
    requires OwnershipHeading(u, line)
    ensures exists indent, marks, gap, word, before, note, after :: HeadingShape(u, line, indent, marks, gap, word, before, note, after)
  {
    var indent := SkipSplits(line);
    var mark := SkipBlanks(line);
    HashesBounded(mark);
    var title := SkipBlanks(mark[Hashes(mark)..]);
    var k :| 0 <= k < |WORDS| && StartsWith(u, title, WORDS[k]) && NoteOnly(title[|WORDS[k]|..]);
    var marks, gap := MarkHasParts(mark);
    var word, before, note, after := TitleHasParts(u, title, k);
    assert HeadingShape(u, line, indent, marks, gap, word, before, note, after);
  }

  lemma PartsMakeHeading(u: Unicode, line: string, indent: string, marks: string, gap: string, word: string, before: string, note: string, after: string)
    requires WordsBegin(u) && HeadingShape(u, line, indent, marks, gap, word, before, note, after)
    ensures OwnershipHeading(u, line)
  {
    var title := word + (before + (note + after));
    WordExactly(u, word);
    var k :| 0 <= k < |WORDS| && |word| == |WORDS[k]| && StartsWith(u, word, WORDS[k]);
    WordStarts(u, word);
    assert title[0] == word[0];
    SkipsAll(gap, title);
    assert (gap + title)[0] != '#';
    HashesOf(marks, gap + title);
    assert (marks + (gap + title))[|marks|..] == gap + title;
    SkipsAll(indent, marks + (gap + title));
    NoteJoins(before, note, after);
    assert title[|WORDS[k]|..] == before + (note + after) && StartsWith(u, title, WORDS[k]);
  }

  lemma WordStarts(u: Unicode, word: string)
    requires WordsBegin(u) && NamesOwnership(u, word)
    ensures word != "" && word[0] != ' ' && word[0] != '\t' && word[0] != '#'
  {
    assert u.same(word[0], '文') || u.same(word[0], 'F') || u.same(word[0], '路') || u.same(word[0], 'P');
  }

  /** A line is the ownership heading exactly when it has this shape: one to six marks, one of
      the four names, and a note in parentheses at most, with blanks around each. */
  lemma HeadingExactly(u: Unicode, line: string)
    requires WordsBegin(u)
    ensures OwnershipHeading(u, line) <==>
            exists indent, marks, gap, word, before, note, after :: HeadingShape(u, line, indent, marks, gap, word, before, note, after)
  {
    if OwnershipHeading(u, line) { HeadingHasParts(u, line); }
    if indent, marks, gap, word, before, note, after :| HeadingShape(u, line, indent, marks, gap, word, before, note, after) {
      PartsMakeHeading(u, line, indent, marks, gap, word, before, note, after);
    }
  }

  ghost predicate MarkedBy(line: string, n: nat) {
    1 <= n <= 6 && n <= |line| && forall k :: 0 <= k < n ==> line[k] == '#'
  }

  /** A line ends the section exactly when one to six marks begin it and white space follows
      them, be it the newline. */
  lemma NextHeadingExactly(u: Unicode, line: string, newlineFollows: bool)
    requires Proper(u)
    ensures AnyHeading(u, line, newlineFollows) <==>
            exists n: nat :: MarkedBy(line, n) && if n < |line| then u.space(line[n]) else newlineFollows
  {
    HashesAre(line);
    if AnyHeading(u, line, newlineFollows) { assert MarkedBy(line, Hashes(line)); }
    if n: nat :| MarkedBy(line, n) && if n < |line| then u.space(line[n]) else newlineFollows {
      HashesOf(line[..n], line[n..]);
      assert line == line[..n] + line[n..];
    }
  }

  ghost predicate ItemAt(u: Unicode, line: string, i: nat, j: nat) {
    && i + 1 < j < |line| && Blanks(line[..i]) && (line[i] == '-' || line[i] == '*' || line[i] == '+')
    && Blanks(line[i + 1..j]) && !u.space(line[j])
  }

  lemma PlacesOf(u: Unicode, line: string, indent: string, c: char, gap: string, rest: string)
    requires line == indent + ([c] + (gap + rest)) && rest != "" && gap != "" && !u.space(rest[0])
    requires Blanks(indent) && Blanks(gap) && (c == '-' || c == '*' || c == '+')
    ensures ItemAt(u, line, |indent|, |indent| + 1 + |gap|)
  {
    assert line[..|indent|] == indent && line[|indent|] == c;
    assert line[|indent| + 1..] == gap + rest;
    assert line[|indent| + 1..|indent| + 1 + |gap|] == gap && line[|indent| + 1 + |gap|] == rest[0];
  }

  lemma ItemHasParts(u: Unicode, line: string) returns (i: nat, j: nat)
    requires Proper(u) && ListItem(u, line)
    ensures ItemAt(u, line, i, j)
  {
    var indent := SkipSplits(line);
    var mark := SkipBlanks(line);
    var behind := mark[1..];
    var gap := SkipSplits(behind);
    i, j := |indent|, |indent| + 1 + |gap|;
    assert mark == [mark[0]] + behind && behind[0] == mark[1];
    PlacesOf(u, line, indent, mark[0], gap, SkipBlanks(behind));
  }

  lemma PartsMakeItem(u: Unicode, line: string, i: nat, j: nat)
    requires Proper(u) && ItemAt(u, line, i, j)
    ensures ListItem(u, line)
  {
    assert line == line[..i] + line[i..] && line[i..][1..] == line[i + 1..];
    assert line[i + 1..] == line[i + 1..j] + line[j..];
    SkipsAll(line[..i], line[i..]);
    assert line[j] != ' ' && line[j] != '\t';
    SkipsAll(line[i + 1..j], line[j..]);
    assert line[i + 1] == line[i + 1..j][0];
  }

  /** A line is a list item exactly when it is a bullet between blanks with text behind it. */
  lemma ListItemExactly(u: Unicode, line: string)
    requires Proper(u)
    ensures ListItem(u, line) <==> exists i: nat, j: nat :: ItemAt(u, line, i, j)
  {
    if ListItem(u, line) { var i, j := ItemHasParts(u, line); }
    if i: nat, j: nat :| ItemAt(u, line, i, j) { PartsMakeItem(u, line, i, j); }
  }

  /** What is read at a backtick, when the next one or the end is at `j`. */
  lemma TokensAtTick(line: string, i: nat, j: nat)
    requires i < |line| && line[i] == '`' && RunEnd(line, i + 1) == j
    ensures Tokens(line, i) == if i + 1 < j < |line| then [line[i + 1..j]] + Tokens(line, j + 1) else Tokens(line, i + 1)
  {
  }

  lemma TickElsewhere(all: string, text: string, n: nat, i: nat, j: nat)
    requires i < j <= |text| && |all| == n + |text| && all[n + i] == '`' == text[i]
    requires RunEnd(text, i + 1) == j && RunEnd(all, n + i + 1) == n + j && all[n + i + 1..n + j] == text[i + 1..j]
    requires Tokens(all, n + i + 1) == Tokens(text, i + 1)
    requires j < |text| ==> Tokens(all, n + j + 1) == Tokens(text, j + 1)
    ensures Tokens(all, n + i) == Tokens(text, i)
  {
    TokensAtTick(text, i, j);
    TokensAtTick(all, n + i, n + j);
  }

  /** Behind any front the same tokens are read. */
  ghost predicate Shifted(front: string, text: string, i: nat)
    requires i <= |text|
  {
    Tokens(front + text, |front| + i) == Tokens(text, i)
  }

  lemma ShiftedPlain(front: string, text: string, i: nat)
    requires i < |text| && text[i] != '`' && Shifted(front, text, i + 1)
    ensures Shifted(front, text, i)
  {
    TokensSkip(text, i, i + 1);
    TokensSkip(front + text, |front| + i, |front| + i + 1);
  }

  lemma ShiftedTick(front: string, text: string, i: nat)
    requires i < |text| && text[i] == '`' && Shifted(front, text, i + 1)
    requires RunEnd(text, i + 1) < |text| ==> Shifted(front, text, RunEnd(text, i + 1) + 1)
    ensures Shifted(front, text, i)
  {
    var j := RunEnd(text, i + 1);
    RunEndShift(front, text, i + 1);
    SameToken(front, text, i + 1, j);
    TickElsewhere(front + text, text, |front|, i, j);
  }

  lemma {:induction false} TokensShift(front: string, text: string, i: nat)
    requires i <= |text|
    ensures Shifted(front, text, i)
    decreases |text| - i
  {
    if i < |text| {
      TokensShift(front, text, i + 1);
      if text[i] == '`' {
        if RunEnd(text, i + 1) < |text| { TokensShift(front, text, RunEnd(text, i + 1) + 1); }
        ShiftedTick(front, text, i);
      } else {
        ShiftedPlain(front, text, i);
      }
    }
  }

  lemma SameToken(front: string, text: string, i: nat, j: nat)
    requires i <= j <= |text|
    ensures (front + text)[|front| + i..|front| + j] == text[i..j]
  {
  }

  lemma {:induction false} RunEndShift(front: string, text: string, i: nat)
    requires i <= |text|
    ensures RunEnd(front + text, |front| + i) == |front| + RunEnd(text, i)
    decreases |text| - i
  {
    if i < |text| {
      assert (front + text)[|front| + i] == text[i];
      if text[i] != '`' { RunEndShift(front, text, i + 1); }
    }
  }

  lemma {:induction false} NoTickNoToken(line: string, i: nat)
    requires i <= |line| && forall k :: i <= k < |line| ==> line[k] != '`'
    ensures Tokens(line, i) == [] && RunEnd(line, i) == |line|
    decreases |line| - i
  {
    if i < |line| { NoTickNoToken(line, i + 1); }
  }

  lemma OneTick(a: string, t: string)
    requires '`' !in a && '`' !in t
    ensures Tokens(a + ("`" + t), 0) == []
  {
    var line, n := a + ("`" + t), |a|;
    TicklessFront(a, "`" + t);
    forall k | n + 1 <= k < |line| ensures line[k] != '`' { assert line[k] == t[k - n - 1] && t[k - n - 1] in t; }
    NoTickNoToken(line, n + 1);
  }

  lemma TwoTicks(a: string, t: string, b: string)
    requires '`' !in a && '`' !in t && t != ""
    ensures Tokens(a + ("`" + t + "`" + b), 0) == [t] + Tokens(b, 0)
  {
    var line, n, j := a + ("`" + t + "`" + b), |a|, |a| + 1 + |t|;
    TicklessFront(a, "`" + t + "`" + b);
    forall k | n + 1 <= k < j ensures line[k] != '`' { assert line[k] == t[k - n - 1] && t[k - n - 1] in t; }
    assert line[j] == '`';
    RunEndsAt(line, n + 1, j);
    assert line[n + 1..j] == t && line == (a + "`" + t + "`") + b;
    TokensShift(a + "`" + t + "`", b, 0);
  }

  lemma EmptyTicks(a: string, b: string)
    requires '`' !in a
    ensures Tokens(a + ("`" + ("`" + b)), 0) == Tokens("`" + b, 0)
  {
    var line, n := a + ("`" + ("`" + b)), |a|;
    TicklessFront(a, "`" + ("`" + b));
    assert line[n + 1] == '`';
    RunEndsAt(line, n + 1, n + 1);
    assert line == (a + "`") + ("`" + b);
    TokensShift(a + "`", "`" + b, 0);
  }

  /** Tokens are read from the left: text without backticks has none and precedes none, the
      text between two backticks is one unless it is empty, then the second backtick may
      open one, and a backtick without another opens none. */
  lemma TokensExactly(a: string, t: string, b: string)
    requires '`' !in a && '`' !in t
    ensures Tokens(a, 0) == [] && Tokens(a + ("`" + t), 0) == []
    ensures t != "" ==> Tokens(a + ("`" + t + "`" + b), 0) == [t] + Tokens(b, 0)
    ensures Tokens(a + ("`" + ("`" + b)), 0) == Tokens("`" + b, 0)
  {
    NoTickNoToken(a, 0);
    OneTick(a, t);
    if t != "" { TwoTicks(a, t, b); }
    EmptyTicks(a, b);
  }

  lemma TicklessFront(a: string, rest: string)
    requires '`' !in a
    ensures Tokens(a + rest, 0) == Tokens(a + rest, |a|)
  {
    TokensSkipFront(a, rest);
  }

  predicate EndsLine(c: char) {
    || c == '\n' || c == '\U{0B}' || c == '\U{0C}' || c == '\r' || c == '\U{1C}' || c == '\U{1D}' || c == '\U{1E}'
    || c == '\U{85}' || c == '\U{2028}' || c == '\U{2029}'
  }

  lemma {:induction false} PiecesShift(front: string, text: string, i: nat, piece: string)
    requires i <= |text|
    ensures Pieces(front + text, |front| + i, piece) == Pieces(text, i, piece)
    decreases |text| - i
  {
    if i < |text| {
      assert (front + text)[|front| + i] == text[i];
      PiecesShift(front, text, i + 1, if IsBreak(text[i]) then "" else piece + [text[i]]);
    }
  }

  lemma {:induction false} PieceGoesOn(a: string, rest: string, i: nat)
    requires i <= |a| && Unbroken(a)
    ensures Pieces(a + rest, i, a[..i]) == Pieces(a + rest, |a|, a)
    decreases |a| - i
  {
    if i < |a| {
      assert (a + rest)[i] == a[i] && a[i] in a && a[..i] + [a[i]] == a[..i + 1];
      PieceGoesOn(a, rest, i + 1);
    } else {
      assert a[..i] == a;
    }
  }

  /** A line is cut at each of these characters and nowhere else. */
  lemma PiecesExactly(a: string, c: char, b: string)
    requires forall k :: 0 <= k < |a| ==> !EndsLine(a[k])
    ensures Pieces(a, 0, "") == [a]
    ensures EndsLine(c) ==> Pieces(a + ([c] + b), 0, "") == [a] + Pieces(b, 0, "")
  {
    assert forall x :: EndsLine(x) <==> IsBreak(x);
    PiecesOfPlain(a, 0);
    assert a[..0] == "";
    if EndsLine(c) {
      PieceGoesOn(a, [c] + b, 0);
      var text := a + ([c] + b);
      assert text[|a|] == c && text == (a + [c]) + b;
      PiecesShift(a + [c], b, 0, "");
    }
  }
}
