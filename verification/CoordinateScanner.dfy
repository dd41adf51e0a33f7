/** The two coordinate patterns, the acceptance judge's and the acceptance summary's, read
    by a backtracking engine and compared on every text. */
module CoordinateScanner {
  import opened Wrappers
  import opened Regex

  /** The engine's Unicode tables for `\d` and `\w`, as far as the patterns depend on them. */
  datatype Tables = Tables(digit: char -> bool, word: char -> bool)

  predicate AsciiDigit(c: char) { '0' <= c <= '9' }

  predicate AsciiAlnum(c: char) { AsciiDigit(c) || 'A' <= c <= 'Z' || 'a' <= c <= 'z' }

  predicate Separator(c: char) { c == '.' || c == '-' }

  ghost predicate Proper(u: Tables) {
    && (forall c :: AsciiDigit(c) ==> u.digit(c))
    && (forall c :: u.digit(c) || AsciiAlnum(c) ==> u.word(c))
    && (forall c :: 'A' <= c <= 'Z' ==> !u.digit(c))
    && !u.word('.') && !u.word('-')
  }

  // ---- The grammar of coordinates, independent of any engine ----

  predicate WordAt(w: string, s: string, i: nat) {
    i + |w| <= |s| && forall k :: i <= k < i + |w| ==> s[k] == w[k - i]
  }

  function PrefixEnd(s: string, i: nat): (k: Option<nat>)
    ensures k.Some? ==> i + 2 <= k.value <= |s|
  {
    if WordAt("US", s, i) || WordAt("TD", s, i) || WordAt("AC", s, i) then Some(i + 2)
    else if WordAt("IMPL", s, i) then Some(i + 4)
    else None
  }

  /** Where the digits of a coordinate that starts at `i` would begin. */
  function HeadEnd(s: string, i: nat): (k: Option<nat>)
    ensures k.Some? ==> i + 3 <= k.value <= |s|
  {
    var p := PrefixEnd(s, i);
    if p.Some? && At(Is('-'), s, p.value) then Some(p.value + 1) else None
  }

  /** `s[i..e]` continues a list of digit groups; `after` says whether a digit came last. */
  predicate Groups(u: Tables, s: string, i: nat, e: nat, after: bool)
    requires i <= e <= |s|
    decreases e - i
  {
    if i == e then after
    else if u.digit(s[i]) then Groups(u, s, i + 1, e, true)
    else after && Separator(s[i]) && Groups(u, s, i + 1, e, false)
  }

  predicate CoordinateAt(u: Tables, s: string, i: nat, e: nat) {
    && e <= |s|
    && HeadEnd(s, i).Some? && HeadEnd(s, i).value <= e
    && Groups(u, s, HeadEnd(s, i).value, e, false)
  }

  ghost predicate LongestCoordinateAt(u: Tables, s: string, i: nat, e: nat) {
    CoordinateAt(u, s, i, e) && forall x: nat :: CoordinateAt(u, s, i, x) ==> x <= e
  }

  // ---- The patterns ----

  function Is(c: char): char -> bool { x => x == c }

  function Literal(w: string): Regex
    requires w != ""
  {
    if |w| == 1 then One(Is(w[0])) else Then(One(Is(w[0])), Literal(w[1..]))
  }

  const PREFIX := Or(Literal("US"), Or(Literal("TD"), Or(Literal("IMPL"), Literal("AC"))))

  const DASH := One(Is('-'))

  const HEAD := Then(PREFIX, DASH)

  function Run(u: Tables): Regex { Then(One(u.digit), Many(One(u.digit))) }

  function Tail(u: Tables): Regex { Many(Then(One(Separator), Run(u))) }

  function Core(u: Tables): Regex { Then(HEAD, Then(Run(u), Tail(u))) }

  function JudgePattern(u: Tables): Regex {
    Then(NotBehind(AsciiAlnum), Then(Core(u), NotAhead(AsciiDigit)))
  }

  function SummaryPattern(u: Tables): Regex {
    Then(Boundary(u.word), Then(Core(u), Boundary(u.word)))
  }

  // ---- What the engine finds for the parts ----

  lemma WordByLetter(w: string, s: string, i: nat)
    requires w != "" && i <= |s|
    ensures WordAt(w, s, i) <==> At(Is(w[0]), s, i) && WordAt(w[1..], s, i + 1)
  {
    if At(Is(w[0]), s, i) && WordAt(w[1..], s, i + 1) {
      forall k | i <= k < i + |w| ensures s[k] == w[k - i] {
        if k > i { assert s[k] == w[1..][k - (i + 1)]; }
      }
    }
  }

  lemma {:induction false} LiteralEnds(w: string, s: string, i: nat)
    requires w != "" && i <= |s|
    ensures Ends(Literal(w), s, i) == if WordAt(w, s, i) then [i + |w|] else []
  {
    if |w| > 1 {
      ThenOneUnfolds(Is(w[0]), Literal(w[1..]), s, i);
      WordByLetter(w, s, i);
      if At(Is(w[0]), s, i) { LiteralEnds(w[1..], s, i + 1); }
    }
  }

  lemma PrefixEnds(s: string, i: nat)
    requires i <= |s|
    ensures Ends(PREFIX, s, i) == if PrefixEnd(s, i).Some? then [PrefixEnd(s, i).value] else []
  {
    LiteralEnds("US", s, i);
    LiteralEnds("TD", s, i);
    LiteralEnds("IMPL", s, i);
    LiteralEnds("AC", s, i);
    assert WordAt("US", s, i) ==> s[i] == 'U';
    assert WordAt("TD", s, i) ==> s[i] == 'T';
    assert WordAt("IMPL", s, i) ==> s[i] == 'I';
    assert WordAt("AC", s, i) ==> s[i] == 'A';
    assert Ends(PREFIX.right.right, s, i) == Ends(Literal("IMPL"), s, i) + Ends(Literal("AC"), s, i);
    assert Ends(PREFIX.right, s, i) == Ends(Literal("TD"), s, i) + Ends(PREFIX.right.right, s, i);
    assert Ends(PREFIX, s, i) == Ends(Literal("US"), s, i) + Ends(PREFIX.right, s, i);
  }

  lemma HeadEnds(s: string, i: nat)
    requires i <= |s|
    ensures Ends(HEAD, s, i) == if HeadEnd(s, i).Some? then [HeadEnd(s, i).value] else []
  {
    PrefixEnds(s, i);
    if PrefixEnd(s, i).Some? { EndsFromOne(DASH, s, i, PrefixEnd(s, i).value); }
  }

  ghost predicate AllDigits(u: Tables, s: string, i: nat, e: nat) {
    i <= e <= |s| && forall k :: i <= k < e ==> u.digit(s[k])
  }

  /** The ends of a digit run, longest first. */
  function DigitEnds(u: Tables, s: string, i: nat): (ends: seq<nat>)
    requires i <= |s|
    ensures Falling(ends) && Within(ends, i, |s|)
    decreases |s| - i
  {
    if At(u.digit, s, i) then
      FallingAppend(DigitEnds(u, s, i + 1), i);
      DigitEnds(u, s, i + 1) + [i]
    else [i]
  }

  lemma {:induction false} DigitEndsMembers(u: Tables, s: string, i: nat, e: nat)
    requires i <= |s|
    ensures e in DigitEnds(u, s, i) <==> AllDigits(u, s, i, e)
    decreases |s| - i
  {
    if At(u.digit, s, i) {
      DigitEndsMembers(u, s, i + 1, e);
      assert AllDigits(u, s, i, e) <==> e == i || AllDigits(u, s, i + 1, e);
    }
  }

  lemma ManyAtDigit(u: Tables, s: string, i: nat)
    requires At(u.digit, s, i)
    ensures Ends(Many(One(u.digit)), s, i) == Ends(Many(One(u.digit)), s, i + 1) + [i]
  {
    ManyUnfolds(One(u.digit), s, i);
    EndsFromOne(Many(One(u.digit)), s, i + 1, i + 1);
  }

  lemma ManyAtNoDigit(u: Tables, s: string, i: nat)
    requires i <= |s| && !At(u.digit, s, i)
    ensures Ends(Many(One(u.digit)), s, i) == [i]
  {
    if i < |s| { ManyUnfolds(One(u.digit), s, i); }
  }

  lemma {:induction false} ManyDigitEnds(u: Tables, s: string, i: nat)
    requires i <= |s|
    ensures Ends(Many(One(u.digit)), s, i) == DigitEnds(u, s, i)
    decreases |s| - i
  {
    if At(u.digit, s, i) {
      ManyAtDigit(u, s, i);
      ManyDigitEnds(u, s, i + 1);
    } else {
      ManyAtNoDigit(u, s, i);
    }
  }

  lemma RunUnfolds(u: Tables, s: string, i: nat)
    requires i <= |s|
    ensures Ends(Run(u), s, i) == if At(u.digit, s, i) then DigitEnds(u, s, i + 1) else []
  {
    ThenOneUnfolds(u.digit, Many(One(u.digit)), s, i);
    if At(u.digit, s, i) { ManyDigitEnds(u, s, i + 1); }
  }

  lemma RunMembers(u: Tables, s: string, i: nat, e: nat)
    requires i <= |s|
    ensures e in Ends(Run(u), s, i) <==> i < e && AllDigits(u, s, i, e)
  {
    RunUnfolds(u, s, i);
    if At(u.digit, s, i) {
      DigitEndsMembers(u, s, i + 1, e);
      assert i < e && AllDigits(u, s, i, e) <==> AllDigits(u, s, i + 1, e);
    }
  }

  lemma RunEnds(u: Tables, s: string, i: nat)
    requires i <= |s|
    ensures Falling(Ends(Run(u), s, i))
    ensures forall e: nat :: e in Ends(Run(u), s, i) <==> i < e && AllDigits(u, s, i, e)
  {
    RunUnfolds(u, s, i);
    forall e: nat { RunMembers(u, s, i, e); }
  }

  ghost predicate TailAt(u: Tables, s: string, i: nat, e: nat) {
    i <= e <= |s| && (i == e || (Separator(s[i]) && Groups(u, s, i + 1, e, false)))
  }

  lemma {:induction false} GroupsSplit(u: Tables, s: string, i: nat, e: nat, after: bool)
    requires Proper(u) && i <= e <= |s|
    ensures Groups(u, s, i, e, after) <==>
            exists x: nat :: (after || i < x) && AllDigits(u, s, i, x) && TailAt(u, s, x, e)
    decreases e - i
  {
    if i < e && u.digit(s[i]) {
      GroupsSplit(u, s, i + 1, e, true);
      forall x: nat ensures i < x && AllDigits(u, s, i, x) <==> AllDigits(u, s, i + 1, x) {
      }
      assert !TailAt(u, s, i, e);
    } else if Groups(u, s, i, e, after) {
      assert AllDigits(u, s, i, i) && TailAt(u, s, i, e);
    }
  }

  lemma {:induction false} TailsOfDigits(u: Tables, s: string, low: nat, starts: seq<nat>)
    requires Proper(u) && low <= |s| && Within(starts, low, |s|)
    requires forall k :: 0 <= k < |starts| ==> At(u.digit, s, starts[k])
    ensures EndsFrom(Tail(u), s, low, starts) == starts
  {
    if starts != [] {
      TailsOfDigits(u, s, low, starts[1..]);
      TailAtDigit(u, s, starts[0]);
      assert EndsFrom(Tail(u), s, low, starts) == Ends(Tail(u), s, starts[0]) + EndsFrom(Tail(u), s, low, starts[1..]);
    }
  }

  lemma TailAtDigit(u: Tables, s: string, i: nat)
    requires Proper(u) && At(u.digit, s, i)
    ensures Ends(Tail(u), s, i) == [i]
  {
    TailUnfolds(u, s, i);
    assert !Separator(s[i]);
  }

  ghost predicate TailRead(u: Tables, s: string, x: nat) {
    && x <= |s| && Falling(Ends(Tail(u), s, x))
    && forall e :: e in Ends(Tail(u), s, x) <==> 0 <= e && TailAt(u, s, x, e)
  }

  lemma AfterRunMembers(u: Tables, s: string, i: nat, starts: seq<nat>, e: nat)
    requires Proper(u) && i <= |s| && Within(starts, i, |s|)
    requires forall x :: x in starts <==> i < x && AllDigits(u, s, i, x)
    requires forall k :: 0 <= k < |starts| ==> TailRead(u, s, starts[k])
    ensures e in EndsFrom(Tail(u), s, i, starts) <==> i <= e <= |s| && Groups(u, s, i, e, false)
  {
    EndsFromMembers(Tail(u), s, i, starts, e);
    if i <= e <= |s| && Groups(u, s, i, e, false) {
      GroupsSplit(u, s, i, e, false);
      var x: nat :| i < x && AllDigits(u, s, i, x) && TailAt(u, s, x, e);
      assert x in starts;
      var k :| 0 <= k < |starts| && starts[k] == x;
      assert TailRead(u, s, starts[k]) && e in Ends(Tail(u), s, starts[k]);
    }
    if e in EndsFrom(Tail(u), s, i, starts) {
      var k :| 0 <= k < |starts| && e in Ends(Tail(u), s, starts[k]);
      assert starts[k] in starts && TailAt(u, s, starts[k], e);
      GroupsSplit(u, s, i, e, false);
    }
  }

  lemma AfterRunFalls(u: Tables, s: string, i: nat, starts: seq<nat>)
    requires Proper(u) && i <= |s| && Within(starts, i, |s|) && Falling(starts)
    requires forall k :: 0 <= k < |starts| ==> i < starts[k] && AllDigits(u, s, i, starts[k])
    requires starts != [] ==> TailRead(u, s, starts[0])
    ensures Falling(EndsFrom(Tail(u), s, i, starts))
  {
    if starts != [] {
      var rest, first := starts[1..], Ends(Tail(u), s, starts[0]);
      forall k | 0 <= k < |rest| ensures rest[k] < starts[0] && At(u.digit, s, rest[k]) {
        assert rest[k] == starts[k + 1];
      }
      TailsOfDigits(u, s, i, rest);
      assert EndsFrom(Tail(u), s, i, starts) == first + rest;
      assert Within(first, starts[0], |s|);
    }
  }

  /** After a run of digits the engine tries the longest run first, and only there can more
      groups follow, so all ends come out in falling order. */
  lemma {:induction false} AfterRun(u: Tables, s: string, i: nat)
    requires Proper(u) && i <= |s|
    ensures var ends := EndsFrom(Tail(u), s, i, Ends(Run(u), s, i));
            Falling(ends) && forall e :: e in ends <==> i <= e <= |s| && Groups(u, s, i, e, false)
    decreases |s| - i, 0
  {
    RunEnds(u, s, i);
    var starts := Ends(Run(u), s, i);
    forall k | 0 <= k < |starts|
      ensures i < starts[k] && AllDigits(u, s, i, starts[k]) && TailRead(u, s, starts[k])
    {
      assert starts[k] in starts;
      TailEnds(u, s, starts[k]);
    }
    AfterRunFalls(u, s, i, starts);
    forall e: nat ensures e in EndsFrom(Tail(u), s, i, starts) <==> i <= e <= |s| && Groups(u, s, i, e, false) {
      AfterRunMembers(u, s, i, starts, e);
    }
  }

  lemma TailUnfolds(u: Tables, s: string, i: nat)
    requires i <= |s|
    ensures Ends(Tail(u), s, i) ==
            if At(Separator, s, i) then EndsFrom(Tail(u), s, i + 1, Ends(Run(u), s, i + 1)) + [i] else [i]
  {
    if i < |s| {
      ThenOneUnfolds(Separator, Run(u), s, i);
      ManyUnfolds(Then(One(Separator), Run(u)), s, i);
    }
  }

  lemma TailFromRun(u: Tables, s: string, i: nat, more: seq<nat>)
    requires i < |s| && Separator(s[i]) && Ends(Tail(u), s, i) == more + [i]
    requires Falling(more) && forall e :: e in more <==> i + 1 <= e <= |s| && Groups(u, s, i + 1, e, false)
    ensures TailRead(u, s, i)
  {
    assert forall k :: 0 <= k < |more| ==> more[k] in more;
    FallingAppend(more, i);
  }

  lemma NoTail(u: Tables, s: string, i: nat)
    requires i <= |s| && !At(Separator, s, i) && Ends(Tail(u), s, i) == [i]
    ensures TailRead(u, s, i)
  {
  }

  lemma {:induction false} TailEnds(u: Tables, s: string, i: nat)
    requires Proper(u) && i <= |s|
    ensures TailRead(u, s, i)
    decreases |s| - i, 1
  {
    TailUnfolds(u, s, i);
    if At(Separator, s, i) {
      AfterRun(u, s, i + 1);
      TailFromRun(u, s, i, EndsFrom(Tail(u), s, i + 1, Ends(Run(u), s, i + 1)));
    } else {
      NoTail(u, s, i);
    }
  }

  /** The engine finds exactly the coordinates, longest first. */
  lemma CoreEnds(u: Tables, s: string, i: nat)
    requires Proper(u) && i <= |s|
    ensures Falling(Ends(Core(u), s, i))
    ensures forall e :: e in Ends(Core(u), s, i) <==> 0 <= e && CoordinateAt(u, s, i, e)
  {
    HeadEnds(s, i);
    if HeadEnd(s, i).Some? {
      var k := HeadEnd(s, i).value;
      EndsFromOne(Then(Run(u), Tail(u)), s, i, k);
      AfterRun(u, s, k);
    }
  }

  // ---- The judge's scanner ----

  lemma {:induction false} GroupsGrow(u: Tables, s: string, i: nat, e: nat, after: bool)
    requires i <= e < |s| && Groups(u, s, i, e, after) && u.digit(s[e])
    ensures Groups(u, s, i, e + 1, after)
    decreases e - i
  {
    if i < e { GroupsGrow(u, s, i + 1, e, u.digit(s[i])); }
  }

  /** No digit follows the longest coordinate, so the lookahead always passes there. */
  lemma LongestIsUnfollowed(u: Tables, s: string, i: nat, e: nat)
    requires Proper(u) && LongestCoordinateAt(u, s, i, e)
    ensures !At(u.digit, s, e) && Passes(NotAhead(AsciiDigit), s, e)
  {
    if At(u.digit, s, e) {
      GroupsGrow(u, s, HeadEnd(s, i).value, e, false);
      assert CoordinateAt(u, s, i, e + 1);
    }
  }

  lemma {:induction false} LongestExists(u: Tables, s: string, i: nat, e: nat) returns (longest: nat)
    requires CoordinateAt(u, s, i, e)
    ensures e <= longest && LongestCoordinateAt(u, s, i, longest)
    decreases |s| - e
  {
    if x: nat :| e < x && CoordinateAt(u, s, i, x) {
      longest := LongestExists(u, s, i, x);
    } else {
      longest := e;
    }
  }

  /** The judge reads at each place exactly the longest coordinate there, whatever follows
      it, unless an ASCII letter or digit stands before. */
  lemma JudgeReadsLongest(u: Tables, s: string, i: nat, e: nat)
    requires Proper(u) && i <= |s|
    ensures Match(JudgePattern(u), s, i) == Some(e) <==> !At(AsciiAlnum, s, i - 1) && LongestCoordinateAt(u, s, i, e)
  {
    CoreEnds(u, s, i);
    GuardedMatch(NotBehind(AsciiAlnum), Core(u), NotAhead(AsciiDigit), s, i, e);
    if CoordinateAt(u, s, i, e) {
      var longest := LongestExists(u, s, i, e);
      LongestIsUnfollowed(u, s, i, longest);
    }
  }

  /** The summary reads the longest coordinate that ends at a word boundary, and only where
      no word character stands before. */
  lemma SummaryReadsLongestBounded(u: Tables, s: string, i: nat, e: nat)
    requires Proper(u) && i <= |s|
    ensures Match(SummaryPattern(u), s, i) == Some(e) <==>
            && !At(u.word, s, i - 1)
            && CoordinateAt(u, s, i, e) && !At(u.word, s, e)
            && forall x: nat :: CoordinateAt(u, s, i, x) && !At(u.word, s, x) ==> x <= e
  {
    CoreEnds(u, s, i);
    GuardedMatch(Boundary(u.word), Core(u), Boundary(u.word), s, i, e);
    forall x: nat | CoordinateAt(u, s, i, x)
      ensures At(u.word, s, i) && At(u.word, s, x - 1) && x <= |s|
    {
      CoordinateEdges(u, s, i, x);
    }
  }

  lemma {:induction false} GroupsEndInDigit(u: Tables, s: string, i: nat, e: nat, after: bool)
    requires i < e <= |s| && Groups(u, s, i, e, after)
    ensures u.digit(s[e - 1])
    decreases e - i
  {
    if i + 1 < e { GroupsEndInDigit(u, s, i + 1, e, u.digit(s[i])); }
  }

  /** A coordinate begins with a capital letter and ends with a digit. */
  lemma CoordinateEdges(u: Tables, s: string, i: nat, e: nat)
    requires Proper(u) && CoordinateAt(u, s, i, e)
    ensures i + 3 < e && 'A' <= s[i] <= 'Z' && At(u.word, s, i)
    ensures At(u.word, s, e - 1)
  {
    GroupsEndInDigit(u, s, HeadEnd(s, i).value, e, false);
    PrefixLetters(s, i);
  }

  lemma PrefixLetters(s: string, i: nat)
    requires PrefixEnd(s, i).Some?
    ensures s[i] in {'U', 'T', 'I', 'A'}
    ensures forall k :: i <= k < PrefixEnd(s, i).value ==> 'A' <= s[k] <= 'Z'
  {
    if WordAt("US", s, i) { assert s[i] == 'U'; }
    else if WordAt("TD", s, i) { assert s[i] == 'T'; }
    else if WordAt("AC", s, i) { assert s[i] == 'A'; }
    else { assert s[i] == 'I'; }
  }

  // ---- The two scanners against each other ----

  /** Whatever the summary reads is a prefix of what the judge reads at the same place. */
  lemma SummaryWithinJudge(u: Tables, s: string, i: nat)
    requires Proper(u) && i <= |s| && Match(SummaryPattern(u), s, i).Some?
    ensures var judged := Match(JudgePattern(u), s, i);
            judged.Some? && Match(SummaryPattern(u), s, i).value <= judged.value
  {
    var e := Match(SummaryPattern(u), s, i).value;
    SummaryReadsLongestBounded(u, s, i, e);
    var longest := LongestExists(u, s, i, e);
    JudgeReadsLongest(u, s, i, longest);
  }

  /** They read the same coordinate exactly when no word character touches it on either
      side; before Chinese prose or after an underscore the summary reads less or nothing. */
  lemma ScannersAgreeExactly(u: Tables, s: string, i: nat, e: nat)
    requires Proper(u) && i <= |s| && Match(JudgePattern(u), s, i) == Some(e)
    ensures Match(SummaryPattern(u), s, i) == Some(e) <==> !At(u.word, s, i - 1) && !At(u.word, s, e)
  {
    JudgeReadsLongest(u, s, i, e);
    SummaryReadsLongestBounded(u, s, i, e);
  }

  /** Inside a coordinate no other one can start. */
  lemma NoInnerStart(u: Tables, s: string, i: nat, e: nat, j: nat)
    requires Proper(u) && CoordinateAt(u, s, i, e) && i < j < e && HeadEnd(s, j).Some?
    ensures At(AsciiAlnum, s, j - 1)
  {
    PrefixLetters(s, i);
    PrefixLetters(s, j);
    var k := HeadEnd(s, i).value;
    if k <= j { GroupsCharacters(u, s, k, e, false, j); }
  }

  lemma {:induction false} GroupsCharacters(u: Tables, s: string, i: nat, e: nat, after: bool, j: nat)
    requires i <= j < e <= |s| && Groups(u, s, i, e, after)
    ensures u.digit(s[j]) || Separator(s[j])
    decreases e - i
  {
    if i < j { GroupsCharacters(u, s, i + 1, e, u.digit(s[i]), j); }
  }

  /** Either pattern; a match of it is a coordinate with no letter or digit before it. */
  ghost predicate ReadsCoordinates(u: Tables, r: Regex, s: string) {
    forall i: nat :: i <= |s| && Match(r, s, i).Some? ==>
                       CoordinateAt(u, s, i, Match(r, s, i).value) && !At(AsciiAlnum, s, i - 1)
  }

  lemma NothingInside(u: Tables, r: Regex, s: string, i: nat, j: nat)
    requires Proper(u) && ReadsCoordinates(u, r, s) && i < j <= |s|
    requires Match(r, s, i).Some? && j < Match(r, s, i).value
    ensures Match(r, s, j).None?
  {
    if Match(r, s, j).Some? {
      CoordinateEdges(u, s, j, Match(r, s, j).value);
      NoInnerStart(u, s, i, Match(r, s, i).value, j);
    }
  }

  /** Matches of either pattern are not empty and none starts inside another one. */
  lemma CoordinatesAreSparse(u: Tables, r: Regex, s: string)
    requires Proper(u) && ReadsCoordinates(u, r, s)
    ensures Sparse(r, s)
  {
    forall i: nat | i <= |s| ensures SparseAt(r, s, i) {
      if Match(r, s, i).Some? {
        CoordinateEdges(u, s, i, Match(r, s, i).value);
        forall j: nat | i < j < Match(r, s, i).value ensures Match(r, s, j).None? {
          NothingInside(u, r, s, i, j);
        }
      }
    }
  }

  lemma PatternsReadCoordinates(u: Tables, s: string)
    requires Proper(u)
    ensures ReadsCoordinates(u, JudgePattern(u), s) && ReadsCoordinates(u, SummaryPattern(u), s)
  {
    forall i: nat | i <= |s| && Match(JudgePattern(u), s, i).Some?
      ensures CoordinateAt(u, s, i, Match(JudgePattern(u), s, i).value) && !At(AsciiAlnum, s, i - 1)
    {
      JudgeReadsLongest(u, s, i, Match(JudgePattern(u), s, i).value);
    }
    forall i: nat | i <= |s| && Match(SummaryPattern(u), s, i).Some?
      ensures CoordinateAt(u, s, i, Match(SummaryPattern(u), s, i).value) && !At(AsciiAlnum, s, i - 1)
    {
      SummaryReadsLongestBounded(u, s, i, Match(SummaryPattern(u), s, i).value);
    }
  }

  lemma BothFindEach(u: Tables, s: string, i: nat, e: nat)
    requires Proper(u)
    ensures Finds(JudgePattern(u), s, 0, i, e) && Finds(SummaryPattern(u), s, 0, i, e)
  {
    PatternsReadCoordinates(u, s);
    CoordinatesAreSparse(u, JudgePattern(u), s);
    CoordinatesAreSparse(u, SummaryPattern(u), s);
    FindAllFindsEach(JudgePattern(u), s, 0, i, e);
    FindAllFindsEach(SummaryPattern(u), s, 0, i, e);
  }

  lemma SummaryFindIsJudged(u: Tables, s: string, i: nat, e: nat) returns (judged: nat)
    requires Proper(u) && (i, e) in FindAll(SummaryPattern(u), s, 0)
    ensures (i, judged) in FindAll(JudgePattern(u), s, 0) && e <= judged && s[i..e] <= s[i..judged]
  {
    BothFindEach(u, s, i, e);
    SummaryWithinJudge(u, s, i);
    judged := Match(JudgePattern(u), s, i).value;
    BothFindEach(u, s, i, judged);
    assert s[i..judged][..e - i] == s[i..e];
  }

  predicate LetterOrDigitBefore(s: string, i: nat) {
    0 < i <= |s| && ('0' <= s[i - 1] <= '9' || 'A' <= s[i - 1] <= 'Z' || 'a' <= s[i - 1] <= 'z')
  }

  /** Over a whole text: the judge finds exactly the longest coordinates, and every
      coordinate the summary finds is a prefix of one the judge finds at the same place. */
  lemma WholeTextScans(u: Tables, s: string, i: nat, e: nat)
    requires Proper(u)
    ensures (i, e) in FindAll(JudgePattern(u), s, 0) <==> !LetterOrDigitBefore(s, i) && LongestCoordinateAt(u, s, i, e)
    ensures (i, e) in FindAll(SummaryPattern(u), s, 0) ==>
              exists judged :: (i, judged) in FindAll(JudgePattern(u), s, 0) && e <= judged && s[i..e] <= s[i..judged]
  {
    BothFindEach(u, s, i, e);
    if i <= |s| { JudgeReadsLongest(u, s, i, e); }
    if (i, e) in FindAll(SummaryPattern(u), s, 0) { var judged := SummaryFindIsJudged(u, s, i, e); }
  }

  // ---- Coordinates written down ----

  ghost predicate DigitText(u: Tables, t: string) {
    t != "" && forall k :: 0 <= k < |t| ==> u.digit(t[k])
  }

  /** More groups, each behind a dot or a dash. */
  function WriteGroups(groups: seq<(char, string)>): string {
    if groups == [] then "" else [groups[0].0] + groups[0].1 + WriteGroups(groups[1..])
  }

  ghost predicate GroupsOk(u: Tables, groups: seq<(char, string)>) {
    forall k :: 0 <= k < |groups| ==> (groups[k].0 == '.' || groups[k].0 == '-') && DigitText(u, groups[k].1)
  }

  /** A text of the kind `AC-04-03`. */
  ghost predicate Written(u: Tables, t: string, word: string, first: string, groups: seq<(char, string)>) {
    && (word == "US" || word == "TD" || word == "IMPL" || word == "AC")
    && DigitText(u, first) && GroupsOk(u, groups) && t == word + "-" + first + WriteGroups(groups)
  }

  /** The rest of a list of groups, of which a digit came last. */
  lemma {:induction false} RestIsWritten(u: Tables, t: string) returns (more: string, groups: seq<(char, string)>)
    requires Proper(u) && Groups(u, t, 0, |t|, true)
    ensures (forall k :: 0 <= k < |more| ==> u.digit(more[k])) && GroupsOk(u, groups) && t == more + WriteGroups(groups)
    decreases |t|
  {
    more, groups := "", [];
    if t != "" {
      GroupsShift(u, t, 1, |t|, u.digit(t[0]));
      assert t == [t[0]] + t[1..];
      if u.digit(t[0]) {
        more, groups := RestIsWritten(u, t[1..]);
        more := [t[0]] + more;
      } else {
        var first, rest := GroupIsWritten(u, t[1..]);
        groups := [(t[0], first)] + rest;
        assert groups[1..] == rest;
      }
    }
  }

  /** A list of groups from its start on. */
  lemma {:induction false} GroupIsWritten(u: Tables, t: string) returns (first: string, groups: seq<(char, string)>)
    requires Proper(u) && Groups(u, t, 0, |t|, false)
    ensures DigitText(u, first) && GroupsOk(u, groups) && t == first + WriteGroups(groups)
    decreases |t|
  {
    GroupsShift(u, t, 1, |t|, true);
    var more;
    more, groups := RestIsWritten(u, t[1..]);
    first := [t[0]] + more;
    assert t == [t[0]] + t[1..];
  }

  /** Reading on in a text is reading its rest from the front. */
  lemma {:induction false} GroupsShift(u: Tables, t: string, i: nat, e: nat, after: bool)
    requires 1 <= i <= e <= |t|
    ensures Groups(u, t, i, e, after) <==> Groups(u, t[1..], i - 1, e - 1, after)
    decreases e - i
  {
    if i < e { GroupsShift(u, t, i + 1, e, u.digit(t[i])); }
  }

  lemma {:induction false} DigitsGoOn(u: Tables, digits: string, rest: string, after: bool)
    requires Proper(u) && (forall k :: 0 <= k < |digits| ==> u.digit(digits[k])) && (digits != "" || after)
    requires Groups(u, rest, 0, |rest|, true)
    ensures Groups(u, digits + rest, 0, |digits + rest|, after)
  {
    var t := digits + rest;
    if digits == "" {
      assert t == rest;
    } else {
      DigitsGoOn(u, digits[1..], rest, true);
      assert t[1..] == digits[1..] + rest && t[0] == digits[0];
      GroupsShift(u, t, 1, |t|, true);
    }
  }

  lemma {:induction false} WrittenGroupsAreRead(u: Tables, groups: seq<(char, string)>)
    requires Proper(u) && GroupsOk(u, groups)
    ensures Groups(u, WriteGroups(groups), 0, |WriteGroups(groups)|, true)
  {
    if groups != [] {
      var sep, digits, rest := groups[0].0, groups[0].1, WriteGroups(groups[1..]);
      WrittenGroupsAreRead(u, groups[1..]);
      DigitsGoOn(u, digits, rest, false);
      var t := WriteGroups(groups);
      assert t == [sep] + (digits + rest) && t[1..] == digits + rest;
      assert !u.digit(sep) by { assert u.digit(sep) ==> u.word(sep); }
      GroupsShift(u, t, 1, |t|, false);
    }
  }

  lemma {:induction false} GroupsBehind(u: Tables, front: string, t: string, after: bool)
    ensures Groups(u, front + t, |front|, |front + t|, after) <==> Groups(u, t, 0, |t|, after)
  {
    if front == "" {
      assert front + t == t;
    } else {
      assert (front + t)[1..] == front[1..] + t;
      GroupsShift(u, front + t, |front|, |front + t|, after);
      GroupsBehind(u, front[1..], t, after);
    }
  }

  lemma HeadOfWord(word: string, t: string)
    requires word == "US" || word == "TD" || word == "IMPL" || word == "AC"
    ensures HeadEnd(word + "-" + t, 0) == Some(|word| + 1)
  {
    var s := word + "-" + t;
    assert s[|word|] == '-' && forall k :: 0 <= k < |word| ==> s[k] == word[k];
    assert WordAt(word, s, 0);
    if word == "IMPL" { assert s[0] == 'I'; }
  }

  lemma WordOfHead(s: string) returns (word: string)
    requires HeadEnd(s, 0).Some?
    ensures word == "US" || word == "TD" || word == "IMPL" || word == "AC"
    ensures HeadEnd(s, 0) == Some(|word| + 1) && s == word + "-" + s[|word| + 1..]
  {
    var n := PrefixEnd(s, 0).value;
    word := s[..n];
    assert s == word + [s[n]] + s[n + 1..] && s[n] == '-';
  }

  lemma CoordinateHasParts(u: Tables, t: string) returns (word: string, first: string, groups: seq<(char, string)>)
    requires Proper(u) && CoordinateAt(u, t, 0, |t|)
    ensures Written(u, t, word, first, groups)
  {
    word := WordOfHead(t);
    var rest := t[|word| + 1..];
    assert t == (word + "-") + rest;
    GroupsBehind(u, word + "-", rest, false);
    first, groups := GroupIsWritten(u, rest);
  }

  lemma WrittenIsCoordinate(u: Tables, t: string, word: string, first: string, groups: seq<(char, string)>)
    requires Proper(u) && Written(u, t, word, first, groups)
    ensures CoordinateAt(u, t, 0, |t|)
  {
    var rest := first + WriteGroups(groups);
    WrittenGroupsAreRead(u, groups);
    DigitsGoOn(u, first, WriteGroups(groups), false);
    assert t == (word + "-") + rest;
    HeadOfWord(word, rest);
    GroupsBehind(u, word + "-", rest, false);
  }

  lemma {:induction false} GroupsInside(u: Tables, s: string, i: nat, e: nat, k: nat, after: bool)
    requires i <= k <= e <= |s|
    ensures Groups(u, s, k, e, after) <==> Groups(u, s[i..e], k - i, e - i, after)
    decreases e - k
  {
    if k < e { GroupsInside(u, s, i, e, k + 1, u.digit(s[k])); }
  }

  lemma WordInside(w: string, s: string, i: nat, e: nat)
    requires i <= e <= |s|
    ensures WordAt(w, s[i..e], 0) <==> WordAt(w, s, i) && i + |w| <= e
  {
    if WordAt(w, s[i..e], 0) {
      forall k | i <= k < i + |w| ensures s[k] == w[k - i] { assert s[i..e][k - i] == w[k - i]; }
    }
  }

  lemma HeadInside(s: string, i: nat, e: nat)
    requires i <= e <= |s|
    ensures HeadEnd(s[i..e], 0).Some? <==> HeadEnd(s, i).Some? && HeadEnd(s, i).value <= e
    ensures HeadEnd(s[i..e], 0).Some? ==> HeadEnd(s, i).value == HeadEnd(s[i..e], 0).value + i
  {
    WordInside("US", s, i, e);
    WordInside("TD", s, i, e);
    WordInside("AC", s, i, e);
    WordInside("IMPL", s, i, e);
  }

  /** A stretch of a text is a coordinate exactly when it is one of the four words, a dash and
      a group of digits, with further groups behind a dot or a dash each. */
  lemma CoordinateIsWritten(u: Tables, s: string, i: nat, e: nat)
    requires Proper(u) && i <= e <= |s|
    ensures CoordinateAt(u, s, i, e) <==> exists word, first, groups :: Written(u, s[i..e], word, first, groups)
  {
    var t := s[i..e];
    HeadInside(s, i, e);
    if HeadEnd(t, 0).Some? { GroupsInside(u, s, i, e, HeadEnd(s, i).value, false); }
    if CoordinateAt(u, t, 0, |t|) { var word, first, groups := CoordinateHasParts(u, t); }
    if word, first, groups :| Written(u, t, word, first, groups) { WrittenIsCoordinate(u, t, word, first, groups); }
  }
}
