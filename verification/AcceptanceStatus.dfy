/** The status vocabulary: which word a cell or a field is read as. */
module AcceptanceStatus {
  import Texts

  /** The Unicode facts the reader depends on; case folding maps each character by itself. */
  datatype Marks = Marks(space: char -> bool, alnum: char -> bool, foldOne: char -> string)

  function LowerOne(c: char): char {
    if 'A' <= c <= 'Z' then c + ('a' - 'A') else c
  }

  predicate Ascii(c: char) { c < '\U{80}' }

  ghost predicate Proper(m: Marks) {
    && (forall c :: Ascii(c) ==> m.foldOne(c) == [LowerOne(c)])
    && (forall c :: 'A' <= c <= 'Z' || 'a' <= c <= 'z' ==> m.alnum(c) && !m.space(c))
    && !m.space(')') && !m.space('*')
  }

  const PASS := "PASS"
  const PASS_FOLLOW_UP := "PASS (follow-up)"
  const FAIL := "FAIL"
  const NOT_RUN := "NOT RUN"
  const BLOCKED := "BLOCKED"
  const TODO := "TODO"
  const WARNING := "WARNING"
  const NA := "N/A"
  const DEFERRED_MANUAL := "DEFERRED_MANUAL"
  const ALL_STATUSES := {PASS, PASS_FOLLOW_UP, FAIL, NOT_RUN, BLOCKED, TODO, WARNING, NA, DEFERRED_MANUAL}

  /** A folded spelling and the word it is read as. */
  datatype Spelling = Spelling(folded: string, word: string)

  /** The words from long to short, then the blocking spellings from long to short. */
  const SPELLINGS := [
    Spelling("pass (follow-up)", PASS_FOLLOW_UP), Spelling("deferred_manual", DEFERRED_MANUAL),
    Spelling("warning", WARNING), Spelling("not run", NOT_RUN), Spelling("blocked", BLOCKED),
    Spelling("todo", TODO), Spelling("pass", PASS), Spelling("fail", FAIL), Spelling("n/a", NA),
    Spelling("blocked", BLOCKED), Spelling("not_run", NOT_RUN), Spelling("failed", FAIL)]

  function Fold(m: Marks, s: string): string {
    if s == "" then "" else m.foldOne(s[0]) + Fold(m, s[1..])
  }

  function WithoutStars(s: string): string {
    if |s| >= 2 && s[0] == '*' && s[1] == '*' then WithoutStars(s[2..])
    else if s == "" then "" else [s[0]] + WithoutStars(s[1..])
  }

  function WithoutTicks(s: string): string {
    if s == "" then "" else (if s[0] == '`' then "" else [s[0]]) + WithoutTicks(s[1..])
  }

  /** A cell without its surrounding space and its markup. */
  function Bare(m: Marks, raw: string): string {
    Texts.Strip(m.space, WithoutTicks(WithoutStars(Texts.Strip(m.space, raw))))
  }

  /** The text starts with the spelling and the spelling is not the start of a longer word. */
  predicate Carries(m: Marks, text: string, spelling: string) {
    spelling <= text && (|text| == |spelling| || (!m.alnum(text[|spelling|]) && text[|spelling|] != '_'))
  }

  function FirstCarried(m: Marks, folded: string, spellings: seq<Spelling>, otherwise: string): string {
    if spellings == [] then otherwise
    else if Carries(m, folded, spellings[0].folded) then spellings[0].word
    else FirstCarried(m, folded, spellings[1..], otherwise)
  }

  function Normalize(m: Marks, raw: string): string {
    FirstCarried(m, Fold(m, Bare(m, raw)), SPELLINGS, Bare(m, raw))
  }

  // ---- Which word is read ----

  predicate AllAscii(s: string) {
    forall k :: 0 <= k < |s| ==> Ascii(s[k])
  }

  function Lower(s: string): string {
    seq(|s|, k requires 0 <= k < |s| => LowerOne(s[k]))
  }

  lemma {:induction false} FoldAscii(m: Marks, s: string)
    requires Proper(m) && AllAscii(s)
    ensures Fold(m, s) == Lower(s)
  {
    if s != "" { FoldAscii(m, s[1..]); }
  }

  lemma {:induction false} FirstCarriedIsFirst(m: Marks, folded: string, spellings: seq<Spelling>, otherwise: string, k: nat)
    requires k < |spellings| && Carries(m, folded, spellings[k].folded)
    requires forall j :: 0 <= j < k ==> !Carries(m, folded, spellings[j].folded)
    ensures FirstCarried(m, folded, spellings, otherwise) == spellings[k].word
  {
    if k > 0 { FirstCarriedIsFirst(m, folded, spellings[1..], otherwise, k - 1); }
  }

  lemma {:induction false} NoneCarried(m: Marks, folded: string, spellings: seq<Spelling>, otherwise: string)
    requires forall j :: 0 <= j < |spellings| ==> !Carries(m, folded, spellings[j].folded)
    ensures FirstCarried(m, folded, spellings, otherwise) == otherwise
  {
    if spellings != [] { NoneCarried(m, folded, spellings[1..], otherwise); }
  }

  ghost predicate IsWord(m: Marks, raw: string) {
    exists k :: 0 <= k < |SPELLINGS| && Carries(m, Fold(m, Bare(m, raw)), SPELLINGS[k].folded)
  }

  /** No text carries two of the spellings, except `blocked`, which is listed twice. */
  lemma SpellingsExclude(m: Marks, text: string, j: nat, k: nat)
    requires Proper(m) && j < k < |SPELLINGS|
    requires Carries(m, text, SPELLINGS[j].folded) && Carries(m, text, SPELLINGS[k].folded)
    ensures SPELLINGS[j].word == SPELLINGS[k].word || (SPELLINGS[j].word == PASS_FOLLOW_UP && SPELLINGS[k].word == PASS)
  {
    assert text[0] == SPELLINGS[j].folded[0] == SPELLINGS[k].folded[0];
    if text[0] == 'n' { assert text[1] == SPELLINGS[j].folded[1] == SPELLINGS[k].folded[1]; }
  }

  /** The longest spelling the text carries decides the word. */
  lemma LongestIsRead(m: Marks, raw: string, k: nat)
    requires Proper(m) && k < |SPELLINGS|
    requires Carries(m, Fold(m, Bare(m, raw)), SPELLINGS[k].folded)
    requires forall j :: 0 <= j < |SPELLINGS| && Carries(m, Fold(m, Bare(m, raw)), SPELLINGS[j].folded) ==>
               |SPELLINGS[j].folded| <= |SPELLINGS[k].folded|
    ensures Normalize(m, raw) == SPELLINGS[k].word
  {
    var folded := Fold(m, Bare(m, raw));
    var first := FirstCarriedAt(m, folded, k);
    FirstCarriedIsFirst(m, folded, SPELLINGS, Bare(m, raw), first);
    if first < k { SpellingsExclude(m, folded, first, k); }
  }

  lemma {:induction false} FirstCarriedAt(m: Marks, folded: string, k: nat) returns (first: nat)
    requires k < |SPELLINGS| && Carries(m, folded, SPELLINGS[k].folded)
    ensures first <= k && Carries(m, folded, SPELLINGS[first].folded)
    ensures forall j :: 0 <= j < first ==> !Carries(m, folded, SPELLINGS[j].folded)
  {
    first := 0;
    while !Carries(m, folded, SPELLINGS[first].folded)
      invariant first <= k && forall j :: 0 <= j < first ==> !Carries(m, folded, SPELLINGS[j].folded)
      decreases k - first
    {
      first := first + 1;
    }
  }

  predicate Lowers(w: string, low: string) {
    |w| == |low| && forall k :: 0 <= k < |w| ==> Ascii(w[k]) && low[k] == LowerOne(w[k])
  }

  lemma FoldLowers(m: Marks, w: string, low: string)
    requires Proper(m) && Lowers(w, low)
    ensures Fold(m, w) == low
  {
    FoldAscii(m, w);
  }

  function FoldedWord(w: string): string {
    if w == PASS_FOLLOW_UP then "pass (follow-up)" else if w == DEFERRED_MANUAL then "deferred_manual"
    else if w == WARNING then "warning" else if w == NOT_RUN then "not run" else if w == BLOCKED then "blocked"
    else if w == TODO then "todo" else if w == PASS then "pass" else if w == FAIL then "fail" else "n/a"
  }

  function PlaceOf(w: string): (k: nat)
    requires w in ALL_STATUSES
    ensures k < |SPELLINGS| && SPELLINGS[k] == Spelling(FoldedWord(w), w)
  {
    if w == PASS_FOLLOW_UP then 0 else if w == DEFERRED_MANUAL then 1 else if w == WARNING then 2
    else if w == NOT_RUN then 3 else if w == BLOCKED then 4 else if w == TODO then 5
    else if w == PASS then 6 else if w == FAIL then 7 else 8
  }

  lemma LongWordsLower()
    ensures Lowers(PASS_FOLLOW_UP, "pass (follow-up)") && Lowers(DEFERRED_MANUAL, "deferred_manual")
  {
  }

  lemma MiddleWordsLower()
    ensures Lowers(WARNING, "warning") && Lowers(NOT_RUN, "not run") && Lowers(BLOCKED, "blocked")
  {
  }

  lemma ShortWordsLower()
    ensures Lowers(TODO, "todo") && Lowers(PASS, "pass") && Lowers(FAIL, "fail") && Lowers(NA, "n/a")
  {
  }

  lemma WordLowers(w: string)
    requires w in ALL_STATUSES
    ensures Lowers(w, FoldedWord(w))
  {
    LongWordsLower();
    MiddleWordsLower();
    ShortWordsLower();
  }

  lemma WordCarried(m: Marks, w: string)
    requires Proper(m) && w in ALL_STATUSES
    ensures Carries(m, Fold(m, w), SPELLINGS[PlaceOf(w)].folded) && |SPELLINGS[PlaceOf(w)].folded| == |Fold(m, w)|
  {
    WordLowers(w);
    FoldLowers(m, w, FoldedWord(w));
  }

  lemma SpellingsReadWords(k: nat)
    requires k < |SPELLINGS|
    ensures SPELLINGS[k].word in ALL_STATUSES
  {
  }

  lemma CarriedReadsWord(m: Marks, folded: string, k: nat, otherwise: string)
    requires k < |SPELLINGS| && Carries(m, folded, SPELLINGS[k].folded)
    ensures FirstCarried(m, folded, SPELLINGS, otherwise) in ALL_STATUSES
  {
    var first := FirstCarriedAt(m, folded, k);
    FirstCarriedIsFirst(m, folded, SPELLINGS, otherwise, first);
    SpellingsReadWords(first);
  }

  /** A text becomes a known word exactly when it carries a spelling; any other text is
      returned bare. */
  lemma UnknownIsKept(m: Marks, raw: string)
    requires Proper(m)
    ensures Normalize(m, raw) in ALL_STATUSES <==> IsWord(m, raw)
    ensures !IsWord(m, raw) ==> Normalize(m, raw) == Bare(m, raw)
  {
    var bare := Bare(m, raw);
    if IsWord(m, raw) {
      var k: nat :| k < |SPELLINGS| && Carries(m, Fold(m, bare), SPELLINGS[k].folded);
      CarriedReadsWord(m, Fold(m, bare), k, bare);
    } else {
      NoneCarried(m, Fold(m, bare), SPELLINGS, bare);
      if bare in ALL_STATUSES { WordCarried(m, bare); }
    }
  }

  lemma {:induction false} Unmarked(s: string)
    requires '*' !in s && '`' !in s
    ensures WithoutStars(s) == s && WithoutTicks(s) == s
  {
    if s != "" { Unmarked(s[1..]); }
  }

  predicate Plain(m: Marks, s: string) {
    s != "" && !m.space(s[0]) && !m.space(s[|s| - 1]) && '*' !in s && '`' !in s
  }

  lemma PlainIsBare(m: Marks, s: string)
    requires Plain(m, s)
    ensures Bare(m, s) == s
  {
    Unmarked(s);
  }

  lemma WordIsPlain(m: Marks, w: string)
    requires Proper(m) && w in ALL_STATUSES
    ensures Plain(m, w)
  {
  }

  /** Every known word is read as itself. */
  lemma WordsAreFixed(m: Marks, w: string)
    requires Proper(m) && w in ALL_STATUSES
    ensures Normalize(m, w) == w
  {
    WordIsPlain(m, w);
    PlainIsBare(m, w);
    WordCarried(m, w);
    LongestIsRead(m, w, PlaceOf(w));
  }

  // ---- Which texts a second reading changes ----

  /** A star comes first, behind backticks alone. */
  predicate StarAhead(s: string) {
    s != "" && (s[0] == '*' || (s[0] == '`' && StarAhead(s[1..])))
  }

  /** Two stars with nothing but backticks between them. */
  predicate StarsMeet(s: string) {
    s != "" && ((s[0] == '*' && StarAhead(s[1..])) || StarsMeet(s[1..]))
  }

  predicate StarPair(s: string) {
    |s| >= 2 && ((s[0] == '*' && s[1] == '*') || StarPair(s[1..]))
  }

  lemma {:induction false} StarAheadWithoutTicks(s: string)
    ensures StarAhead(s) <==> WithoutTicks(s) != "" && WithoutTicks(s)[0] == '*'
  {
    if s != "" { StarAheadWithoutTicks(s[1..]); }
  }

  lemma StarPairCons(c: char, s: string)
    ensures StarPair([c] + s) <==> (c == '*' && s != "" && s[0] == '*') || StarPair(s)
  {
    assert ([c] + s)[1..] == s;
  }

  /** Removing the backticks makes a pair of stars exactly where two stars meet. */
  lemma {:induction false} StarPairWithoutTicks(s: string)
    ensures StarPair(WithoutTicks(s)) <==> StarsMeet(s)
  {
    if s != "" {
      StarPairWithoutTicks(s[1..]);
      StarAheadWithoutTicks(s[1..]);
      if s[0] == '`' { TickGoes(s); } else { StarPairCons(s[0], WithoutTicks(s[1..])); }
    }
  }

  lemma {:induction false} StarPairSnoc(s: string, c: char)
    requires c != '*'
    ensures StarPair(s + [c]) <==> StarPair(s)
  {
    if s != "" {
      StarPairSnoc(s[1..], c);
      assert (s + [c])[1..] == s[1..] + [c];
    }
  }

  lemma {:induction false} StarPairStripLeft(space: char -> bool, s: string)
    requires !space('*')
    ensures StarPair(Texts.StripLeft(space, s)) <==> StarPair(s)
  {
    if s != "" && space(s[0]) { StarPairStripLeft(space, s[1..]); }
  }

  lemma {:induction false} StarPairStripRight(space: char -> bool, s: string)
    requires !space('*')
    ensures StarPair(Texts.StripRight(space, s)) <==> StarPair(s)
  {
    if s != "" && space(s[|s| - 1]) {
      var front := s[..|s| - 1];
      assert s == front + [s[|s| - 1]];
      StarPairSnoc(front, s[|s| - 1]);
      StarPairStripRight(space, front);
    }
  }

  lemma {:induction false} StarAheadSnoc(s: string, c: char)
    requires c != '*'
    ensures StarAhead(s + [c]) <==> StarAhead(s)
  {
    if s != "" {
      StarAheadSnoc(s[1..], c);
      assert (s + [c])[1..] == s[1..] + [c];
    } else {
      assert ([c])[1..] == "";
    }
  }

  lemma {:induction false} StarsMeetSnoc(s: string, c: char)
    requires c != '*'
    ensures StarsMeet(s + [c]) <==> StarsMeet(s)
  {
    if s != "" {
      StarsMeetSnoc(s[1..], c);
      StarAheadSnoc(s[1..], c);
      assert (s + [c])[1..] == s[1..] + [c];
    } else {
      assert ([c])[1..] == "";
    }
  }

  lemma {:induction false} WithoutStarsSnoc(s: string, c: char)
    requires c != '*'
    ensures WithoutStars(s + [c]) == WithoutStars(s) + [c]
  {
    if |s| >= 2 && s[0] == '*' && s[1] == '*' {
      WithoutStarsSnoc(s[2..], c);
      assert (s + [c])[2..] == s[2..] + [c];
    } else if s != "" {
      WithoutStarsSnoc(s[1..], c);
      assert (s + [c])[1..] == s[1..] + [c];
    } else {
      assert ([c])[1..] == "";
    }
  }

  lemma {:induction false} MeetStripLeft(space: char -> bool, s: string)
    requires !space('*')
    ensures StarsMeet(WithoutStars(Texts.StripLeft(space, s))) <==> StarsMeet(WithoutStars(s))
  {
    if s != "" && space(s[0]) {
      MeetStripLeft(space, s[1..]);
      assert WithoutStars(s)[1..] == WithoutStars(s[1..]);
    }
  }

  lemma {:induction false} MeetStripRight(space: char -> bool, s: string)
    requires !space('*')
    ensures StarsMeet(WithoutStars(Texts.StripRight(space, s))) <==> StarsMeet(WithoutStars(s))
  {
    if s != "" && space(s[|s| - 1]) {
      var front, last := s[..|s| - 1], s[|s| - 1];
      assert s == front + [last];
      WithoutStarsSnoc(front, last);
      StarsMeetSnoc(WithoutStars(front), last);
      MeetStripRight(space, front);
    }
  }

  lemma {:induction false} PairlessStays(s: string)
    requires !StarPair(s)
    ensures WithoutStars(s) == s
  {
    if s != "" { PairlessStays(s[1..]); }
  }

  lemma {:induction false} PairGoes(s: string)
    ensures |WithoutStars(s)| <= |s|
    ensures StarPair(s) ==> |WithoutStars(s)| < |s|
  {
    if |s| >= 2 && s[0] == '*' && s[1] == '*' { PairGoes(s[2..]); }
    else if s != "" { PairGoes(s[1..]); }
  }

  lemma {:induction false} TicksGo(s: string)
    ensures |WithoutTicks(s)| <= |s| && '`' !in WithoutTicks(s)
  {
    if s != "" { TicksGo(s[1..]); }
  }

  lemma BareIsBare(m: Marks, s: string)
    requires Texts.Trimmed(m.space, s) && '`' !in s
    ensures Bare(m, s) == s <==> !StarPair(s)
  {
    assert Texts.Strip(m.space, s) == s;
    if StarPair(s) {
      PairGoes(s);
      TicksGo(WithoutStars(s));
      Texts.StripShortens(m.space, WithoutTicks(WithoutStars(s)));
    } else {
      PairlessStays(s);
      TicklessStays(s);
    }
  }

  lemma PairOfBare(m: Marks, raw: string)
    requires Proper(m)
    ensures StarPair(Bare(m, raw)) <==> StarsMeet(WithoutStars(raw))
  {
    var stripped := Texts.Strip(m.space, raw);
    var ticked := WithoutTicks(WithoutStars(stripped));
    StarPairStripLeft(m.space, ticked);
    StarPairStripRight(m.space, Texts.StripLeft(m.space, ticked));
    StarPairWithoutTicks(WithoutStars(stripped));
    MeetStripLeft(m.space, raw);
    MeetStripRight(m.space, Texts.StripLeft(m.space, raw));
  }

  /** Reading twice changes nothing exactly for texts that carry a word and for texts in
      which, once the pairs of stars are gone, no two stars meet across backticks. */
  lemma IdempotentExactly(m: Marks, raw: string)
    requires Proper(m)
    ensures Normalize(m, Normalize(m, raw)) == Normalize(m, raw) <==>
            IsWord(m, raw) || !StarsMeet(WithoutStars(raw))
  {
    UnknownIsKept(m, raw);
    if IsWord(m, raw) {
      WordsAreFixed(m, Normalize(m, raw));
    } else {
      var bare := Bare(m, raw);
      UnknownIsKept(m, bare);
      PairOfBare(m, raw);
      Texts.StripTrims(m.space, WithoutTicks(WithoutStars(Texts.Strip(m.space, raw))));
      TicksGo(WithoutStars(Texts.Strip(m.space, raw)));
      Texts.StripShortens(m.space, WithoutTicks(WithoutStars(Texts.Strip(m.space, raw))));
      BareIsBare(m, bare);
      UnknownAgain(m, raw);
    }
  }

  /** A text that is returned bare is no known word, so neither is what it reads as again
      unless the second round changes it. */
  lemma UnknownAgain(m: Marks, raw: string)
    requires Proper(m) && !IsWord(m, raw)
    ensures Normalize(m, Bare(m, raw)) == Bare(m, raw) <==> Bare(m, Bare(m, raw)) == Bare(m, raw)
  {
    UnknownIsKept(m, raw);
    UnknownIsKept(m, Bare(m, raw));
  }

  lemma {:induction false} StarsOfSingle(s: string)
    requires forall k :: 0 <= k < |s| - 1 ==> s[k] != '*' || s[k + 1] != '*'
    ensures WithoutStars(s) == s
  {
    if s != "" { StarsOfSingle(s[1..]); }
  }

  lemma TickGoes(s: string)
    requires s != "" && s[0] == '`'
    ensures WithoutTicks(s) == WithoutTicks(s[1..])
  {
  }

  lemma {:induction false} TicklessStays(s: string)
    requires '`' !in s
    ensures WithoutTicks(s) == s
  {
    if s != "" { TicklessStays(s[1..]); }
  }

  lemma TickBetweenStars(rest: string)
    requires '`' !in rest
    ensures WithoutTicks("*`*" + rest) == "**" + rest
  {
    var s := "*`*" + rest;
    assert s[1..] == "`*" + rest && s[1..][1..] == "*" + rest;
    TickGoes(s[1..]);
    TicklessStays("*" + rest);
    assert ['*'] + ("*" + rest) == "**" + rest;
  }

  lemma BareOnce(m: Marks, word: string)
    requires Proper(m) && Plain(m, word)
    ensures Bare(m, "*`*" + word) == "**" + word
  {
    StarsOfSingle("*`*" + word);
    TickBetweenStars(word);
  }

  lemma BareTwice(m: Marks, word: string)
    requires Proper(m) && Plain(m, word)
    ensures Bare(m, "**" + word) == word
  {
    Unmarked(word);
    Texts.TrimmedStays(m.space, "**" + word);
    Texts.TrimmedStays(m.space, word);
    assert ("**" + word)[2..] == word;
    assert WithoutStars("**" + word) == WithoutStars(word);
  }

  lemma NothingStartsWithStar(m: Marks, text: string, otherwise: string)
    requires text != "" && text[0] == '*'
    ensures FirstCarried(m, text, SPELLINGS, otherwise) == otherwise
  {
    forall j | 0 <= j < |SPELLINGS| ensures !Carries(m, text, SPELLINGS[j].folded) {
      assert SPELLINGS[j].folded[0] != '*';
    }
    NoneCarried(m, text, SPELLINGS, otherwise);
  }

  /** Removing the backtick of "*`*PASS" forms a pair of stars, which only a second reading
      removes. */
  lemma SecondReadingDiffers(m: Marks)
    requires Proper(m)
    ensures Normalize(m, "*`*PASS") == "**PASS" && Normalize(m, "**PASS") == PASS
  {
    WordIsPlain(m, PASS);
    PlainIsBare(m, PASS);
    BareOnce(m, PASS);
    BareTwice(m, PASS);
    assert "*`*" + PASS == "*`*PASS" && "**" + PASS == "**PASS";
    NothingStartsWithStar(m, Fold(m, "**PASS"), "**PASS");
    WordsAreFixed(m, PASS);
  }

  // ---- The reading spelled out ----

  /** The text begins with the word, and no letter, digit or underscore follows it. */
  ghost predicate BeginsWith(m: Marks, text: string, w: string) {
    && |w| <= |text| && (forall k :: 0 <= k < |w| ==> text[k] == w[k])
    && (|w| < |text| ==> !m.alnum(text[|w|]) && text[|w|] != '_')
  }

  /** Which word a folded text stands for. */
  ghost predicate StandsFor(m: Marks, text: string, word: string) {
    || (word == "PASS (follow-up)" && BeginsWith(m, text, "pass (follow-up)"))
    || (word == "PASS" && BeginsWith(m, text, "pass") && !BeginsWith(m, text, "pass (follow-up)"))
    || (word == "FAIL" && (BeginsWith(m, text, "fail") || BeginsWith(m, text, "failed")))
    || (word == "NOT RUN" && (BeginsWith(m, text, "not run") || BeginsWith(m, text, "not_run")))
    || (word == "BLOCKED" && BeginsWith(m, text, "blocked"))
    || (word == "TODO" && BeginsWith(m, text, "todo"))
    || (word == "WARNING" && BeginsWith(m, text, "warning"))
    || (word == "N/A" && BeginsWith(m, text, "n/a"))
    || (word == "DEFERRED_MANUAL" && BeginsWith(m, text, "deferred_manual"))
  }

  lemma BeginsIsCarries(m: Marks, text: string, w: string)
    ensures BeginsWith(m, text, w) <==> Carries(m, text, w)
  {
  }

  predicate SpellingAt(k: nat, folded: string, word: string) {
    k < |SPELLINGS| && SPELLINGS[k] == Spelling(folded, word)
  }

  lemma LongSpellings()
    ensures SpellingAt(0, "pass (follow-up)", "PASS (follow-up)") && SpellingAt(1, "deferred_manual", "DEFERRED_MANUAL")
    ensures SpellingAt(2, "warning", "WARNING") && SpellingAt(3, "not run", "NOT RUN") && SpellingAt(4, "blocked", "BLOCKED")
  {
  }

  lemma ShortSpellings()
    ensures SpellingAt(5, "todo", "TODO") && SpellingAt(6, "pass", "PASS") && SpellingAt(7, "fail", "FAIL") && SpellingAt(8, "n/a", "N/A")
    ensures SpellingAt(9, "blocked", "BLOCKED") && SpellingAt(10, "not_run", "NOT RUN") && SpellingAt(11, "failed", "FAIL")
    ensures |SPELLINGS| == 12
  {
  }

  lemma CarriedIsRead(m: Marks, raw: string, k: nat)
    requires Proper(m) && k < |SPELLINGS| && Carries(m, Fold(m, Bare(m, raw)), SPELLINGS[k].folded)
    requires SPELLINGS[k].word == PASS ==> !Carries(m, Fold(m, Bare(m, raw)), SPELLINGS[0].folded)
    ensures Normalize(m, raw) == SPELLINGS[k].word
  {
    var folded := Fold(m, Bare(m, raw));
    var first := FirstCarriedAt(m, folded, k);
    FirstCarriedIsFirst(m, folded, SPELLINGS, Bare(m, raw), first);
    if first < k {
      SpellingsExclude(m, folded, first, k);
      if SPELLINGS[first].word != SPELLINGS[k].word { OnlyFirstFollowsUp(first); }
    }
  }

  lemma OnlyFirstFollowsUp(k: nat)
    requires k < |SPELLINGS| && SPELLINGS[k].word == PASS_FOLLOW_UP
    ensures k == 0
  {
  }

  /** The index of a spelling that a text stands for its word by. */
  lemma StandsByIndex(m: Marks, text: string, word: string) returns (k: nat)
    requires StandsFor(m, text, word)
    ensures k < |SPELLINGS| && Carries(m, text, SPELLINGS[k].folded) && SPELLINGS[k].word == word
  {
    LongSpellings();
    ShortSpellings();
    k :| k < |SPELLINGS| && BeginsWith(m, text, SPELLINGS[k].folded) && SPELLINGS[k].word == word;
    BeginsIsCarries(m, text, SPELLINGS[k].folded);
  }

  lemma CarriedStands(m: Marks, text: string, k: nat)
    requires k < |SPELLINGS| && Carries(m, text, SPELLINGS[k].folded)
    ensures exists word :: StandsFor(m, text, word)
  {
    LongSpellings();
    ShortSpellings();
    BeginsIsCarries(m, text, SPELLINGS[k].folded);
    if k == 6 && BeginsWith(m, text, "pass (follow-up)") {
      assert StandsFor(m, text, "PASS (follow-up)");
    } else {
      assert StandsFor(m, text, SPELLINGS[k].word);
    }
  }

  /** A text is read as the word it stands for, and kept bare when it stands for none. */
  lemma ReadingIsSpelledOut(m: Marks, raw: string)
    requires Proper(m)
    ensures forall word :: StandsFor(m, Fold(m, Bare(m, raw)), word) ==> Normalize(m, raw) == word
    ensures (forall word :: !StandsFor(m, Fold(m, Bare(m, raw)), word)) ==> Normalize(m, raw) == Bare(m, raw)
  {
    var text := Fold(m, Bare(m, raw));
    forall word | StandsFor(m, text, word) ensures Normalize(m, raw) == word {
      var k := StandsByIndex(m, text, word);
      LongSpellings();
      BeginsIsCarries(m, text, "pass (follow-up)");
      CarriedIsRead(m, raw, k);
    }
    if forall word :: !StandsFor(m, text, word) {
      if IsWord(m, raw) {
        var k: nat :| k < |SPELLINGS| && Carries(m, text, SPELLINGS[k].folded);
        CarriedStands(m, text, k);
      } else {
        UnknownIsKept(m, raw);
      }
    }
  }

  /** Folding and the removal of backticks go part by part. */
  lemma {:induction false} PartByPart(m: Marks, a: string, b: string)
    ensures Fold(m, a + b) == Fold(m, a) + Fold(m, b)
    ensures WithoutTicks(a + b) == WithoutTicks(a) + WithoutTicks(b)
  {
    if a == "" {
      assert a + b == b;
    } else {
      assert (a + b)[1..] == a[1..] + b;
      PartByPart(m, a[1..], b);
    }
  }

  /** A character is folded by itself, and only a backtick goes. */
  lemma OneCharacter(m: Marks, c: char)
    ensures Fold(m, "") == WithoutTicks("") == ""
    ensures Fold(m, [c]) == m.foldOne(c) && WithoutTicks([c]) == if c == '`' then "" else [c]
  {
    assert [c][1..] == "" && m.foldOne(c) + "" == m.foldOne(c);
  }

  /** The leftmost pair of stars goes, then the leftmost one behind it, and so on. */
  lemma {:induction false} StarsGoInPairs(a: string, b: string)
    requires !StarPair(a) && (a != "" ==> a[|a| - 1] != '*')
    ensures WithoutStars(a) == a && WithoutStars(a + "**" + b) == a + WithoutStars(b)
  {
    if a == "" {
      assert a + "**" + b == "**" + b && ("**" + b)[2..] == b;
    } else {
      assert (a + "**" + b)[1..] == a[1..] + "**" + b;
      assert (a + "**" + b)[0] == a[0] && (|a| > 1 ==> (a + "**" + b)[1] == a[1]);
      StarsGoInPairs(a[1..], b);
    }
  }

  lemma TicksGoAround(m: Marks, w: string)
    requires '`' !in w && '*' !in w
    ensures WithoutTicks("`" + w + "`") == w
  {
    Unmarked(w);
    OneCharacter(m, '`');
    PartByPart(m, "`" + w, "`");
    PartByPart(m, "`", w);
  }

  lemma StarsGoAround(t: string)
    requires '*' !in t && t != ""
    ensures WithoutStars("**" + t + "**") == t
  {
    NoStars(t);
    StarsGoInPairs("", t + "**");
    assert "" + "**" + (t + "**") == "**" + t + "**";
    StarsGoInPairs(t, "");
    assert t + "**" + "" == t + "**" && t + "" == t;
  }

  /** Stars, backticks and white space around a plain text go. */
  lemma DecorationGoes(m: Marks, w: string, before: string, after: string)
    requires Plain(m, w) && !m.space('*')
    requires forall k :: 0 <= k < |before| ==> m.space(before[k])
    requires forall k :: 0 <= k < |after| ==> m.space(after[k])
    ensures Bare(m, before + ("**" + ("`" + w + "`") + "**") + after) == w
  {
    var ticked := "`" + w + "`";
    var starred := "**" + ticked + "**";
    assert starred[0] == '*' && starred[|starred| - 1] == '*';
    Texts.StripBetween(m.space, before, starred, after);
    StarsGoAround(ticked);
    TicksGoAround(m, w);
    Texts.TrimmedStays(m.space, w);
  }

  /** A word between stars, backticks and white space is read as the word. */
  lemma DecoratedWordIsRead(m: Marks, w: string, before: string, after: string)
    requires Proper(m) && w in ALL_STATUSES
    requires forall k :: 0 <= k < |before| ==> m.space(before[k])
    requires forall k :: 0 <= k < |after| ==> m.space(after[k])
    ensures Normalize(m, before + ("**" + ("`" + w + "`") + "**") + after) == w
  {
    WordIsPlain(m, w);
    PlainIsBare(m, w);
    DecorationGoes(m, w, before, after);
    WordsAreFixed(m, w);
  }

  lemma {:induction false} NoStars(s: string)
    requires '*' !in s
    ensures !StarPair(s)
  {
    if s != "" { NoStars(s[1..]); }
  }
}
