/** The backtracking reading of a regular expression: all the ends a match starting at a
    place can have, in the order a backtracking engine tries them. */
module Regex {
  import opened Wrappers

  datatype Regex =
    | One(accepts: char -> bool)
    | Then(first: Regex, second: Regex)
    | Or(left: Regex, right: Regex)
    | Many(body: Regex)
    | NotBehind(barred: char -> bool)
    | NotAhead(barred: char -> bool)
    | Boundary(word: char -> bool)

  predicate Within(ends: seq<nat>, low: nat, high: nat) {
    forall k :: 0 <= k < |ends| ==> low <= ends[k] <= high
  }

  predicate At(kind: char -> bool, s: string, i: int) {
    0 <= i < |s| && kind(s[i])
  }

  /** Greedy repetition tries another non-empty round before it tries to stop. */
  function Ends(r: Regex, s: string, i: nat): (ends: seq<nat>)
    requires i <= |s|
    ensures Within(ends, i, |s|)
    decreases r, |s| - i, 0
  {
    match r
    case One(accepts) => if At(accepts, s, i) then [i + 1] else []
    case Then(first, second) => EndsFrom(second, s, i, Ends(first, s, i))
    case Or(left, right) => Ends(left, s, i) + Ends(right, s, i)
    case Many(body) => (if i == |s| then [] else EndsFrom(r, s, i + 1, Beyond(i, Ends(body, s, i)))) + [i]
    case NotBehind(barred) => if At(barred, s, i - 1) then [] else [i]
    case NotAhead(barred) => if At(barred, s, i) then [] else [i]
    case Boundary(word) => if At(word, s, i - 1) == At(word, s, i) then [] else [i]
  }

  /** Continues with `r` from each start in turn. */
  function EndsFrom(r: Regex, s: string, low: nat, starts: seq<nat>): (ends: seq<nat>)
    requires low <= |s| && Within(starts, low, |s|)
    ensures Within(ends, low, |s|)
    decreases r, |s| - low, 1 + |starts|
  {
    if starts == [] then [] else Ends(r, s, starts[0]) + EndsFrom(r, s, low, starts[1..])
  }

  function Beyond(i: nat, ends: seq<nat>): (r: seq<nat>)
    ensures forall k :: 0 <= k < |r| ==> i < r[k] && r[k] in ends
    ensures forall high :: Within(ends, 0, high) ==> Within(r, i + 1, high)
  {
    if ends == [] then [] else (if i < ends[0] then [ends[0]] else []) + Beyond(i, ends[1..])
  }

  /** Where a match starting at `i` ends: the first end the engine finds. */
  function Match(r: Regex, s: string, i: nat): (m: Option<nat>)
    requires i <= |s|
    ensures m.Some? ==> i <= m.value <= |s|
  {
    if Ends(r, s, i) == [] then None else Some(Ends(r, s, i)[0])
  }

  /** All non-empty matches from left to right, each search going on where the last match ended. */
  function FindAll(r: Regex, s: string, i: nat): (found: seq<(nat, nat)>)
    requires i <= |s|
    ensures forall m :: m in found ==> i <= m.0 <= m.1 <= |s|
    decreases |s| - i
  {
    if i == |s| then []
    else
      var m := Match(r, s, i);
      if m.Some? && i < m.value then [(i, m.value)] + FindAll(r, s, m.value) else FindAll(r, s, i + 1)
  }

  // ---- Facts used by readers of a pattern ----

  lemma EndsFromOne(r: Regex, s: string, low: nat, x: nat)
    requires low <= x <= |s|
    ensures EndsFrom(r, s, low, [x]) == Ends(r, s, x)
  {
    assert EndsFrom(r, s, low, [x]) == Ends(r, s, x) + EndsFrom(r, s, low, []);
  }

  lemma {:induction false} EndsFromMembers(r: Regex, s: string, low: nat, starts: seq<nat>, e: nat)
    requires low <= |s| && Within(starts, low, |s|)
    ensures e in EndsFrom(r, s, low, starts) <==> exists k :: 0 <= k < |starts| && e in Ends(r, s, starts[k])
  {
    if starts != [] {
      EndsFromMembers(r, s, low, starts[1..], e);
      var rest := starts[1..];
      if k :| 0 <= k < |starts| && e in Ends(r, s, starts[k]) {
        assert k == 0 || rest[k - 1] == starts[k];
      }
      if k :| 0 <= k < |rest| && e in Ends(r, s, rest[k]) {
        assert rest[k] == starts[k + 1];
      }
    }
  }

  lemma {:induction false} BeyondAll(i: nat, ends: seq<nat>)
    requires forall k :: 0 <= k < |ends| ==> i < ends[k]
    ensures Beyond(i, ends) == ends
  {
    if ends != [] { BeyondAll(i, ends[1..]); }
  }

  lemma ManyUnfolds(body: Regex, s: string, i: nat)
    requires i < |s| && forall k :: 0 <= k < |Ends(body, s, i)| ==> i < Ends(body, s, i)[k]
    ensures Within(Ends(body, s, i), i + 1, |s|)
    ensures Ends(Many(body), s, i) == EndsFrom(Many(body), s, i + 1, Ends(body, s, i)) + [i]
  {
    BeyondAll(i, Ends(body, s, i));
  }

  lemma ThenOneUnfolds(accepts: char -> bool, second: Regex, s: string, i: nat)
    requires i <= |s|
    ensures Ends(Then(One(accepts), second), s, i) == if At(accepts, s, i) then Ends(second, s, i + 1) else []
  {
    if At(accepts, s, i) { EndsFromOne(second, s, i, i + 1); }
  }

  predicate Falling(ends: seq<nat>) {
    forall j, k :: 0 <= j < k < |ends| ==> ends[k] < ends[j]
  }

  lemma FallingAppend(ends: seq<nat>, i: nat)
    requires Falling(ends) && forall k :: 0 <= k < |ends| ==> i < ends[k]
    ensures Falling(ends + [i])
    ensures forall e :: e in ends + [i] <==> e in ends || e == i
  {
  }

  /** In a falling list of ends the engine's first choice is the largest. */
  lemma FirstIsLargest(ends: seq<nat>, e: nat)
    requires Falling(ends) && ends != []
    ensures ends[0] == e <==> e in ends && forall x :: x in ends ==> x <= e
  {
    assert ends[0] in ends;
  }

  // ---- Patterns closed by a zero-width test ----

  predicate ZeroWidth(g: Regex) { g.NotBehind? || g.NotAhead? || g.Boundary? }

  predicate Passes(g: Regex, s: string, i: nat)
    requires i <= |s|
  {
    Ends(g, s, i) != []
  }

  lemma ZeroWidthEnds(g: Regex, s: string, i: nat)
    requires ZeroWidth(g) && i <= |s|
    ensures Ends(g, s, i) == if Passes(g, s, i) then [i] else []
  {
  }

  lemma FallingCons(i: nat, ends: seq<nat>)
    requires Falling(ends) && forall e :: e in ends ==> e < i
    ensures Falling([i] + ends)
  {
    assert forall k :: 0 <= k < |ends| ==> ends[k] in ends;
  }

  lemma {:induction false} GuardFilters(g: Regex, s: string, low: nat, starts: seq<nat>)
    requires ZeroWidth(g) && low <= |s| && Within(starts, low, |s|) && Falling(starts)
    ensures Falling(EndsFrom(g, s, low, starts))
    ensures forall e :: e in EndsFrom(g, s, low, starts) <==> e in starts && Passes(g, s, e)
  {
    if starts != [] {
      var rest := starts[1..];
      GuardFilters(g, s, low, rest);
      ZeroWidthEnds(g, s, starts[0]);
      assert starts == [starts[0]] + rest;
      assert forall e :: e in rest ==> e < starts[0];
      FallingCons(starts[0], EndsFrom(g, s, low, rest));
    }
  }

  /** What the engine finds for a falling core between two zero-width tests. */
  lemma GuardedMatch(before: Regex, core: Regex, after: Regex, s: string, i: nat, e: nat)
    requires ZeroWidth(before) && ZeroWidth(after) && i <= |s| && Falling(Ends(core, s, i))
    ensures Match(Then(before, Then(core, after)), s, i) == Some(e) <==>
            && Passes(before, s, i)
            && e in Ends(core, s, i) && Passes(after, s, e)
            && forall x :: x in Ends(core, s, i) && Passes(after, s, x) ==> x <= e
  {
    var inner := Then(core, after);
    var ends := Ends(Then(before, inner), s, i);
    if Passes(before, s, i) {
      assert Ends(before, s, i) == [i];
      EndsFromOne(inner, s, i, i);
      GuardFilters(after, s, i, Ends(core, s, i));
      assert ends == EndsFrom(after, s, i, Ends(core, s, i));
      assert forall x :: x in ends <==> x in Ends(core, s, i) && Passes(after, s, x);
      if ends != [] { FirstIsLargest(ends, e); }
    } else {
      assert ends == EndsFrom(inner, s, i, []);
    }
  }

  // ---- Searching on after each match ----

  /** A match that starts here is not empty and no other one starts inside it. */
  ghost predicate SparseAt(r: Regex, s: string, i: nat)
    requires i <= |s|
  {
    var m := Match(r, s, i);
    m.Some? ==> i < m.value && forall j: nat :: i < j < m.value ==> Match(r, s, j).None?
  }

  ghost predicate Sparse(r: Regex, s: string) {
    forall i: nat :: i <= |s| ==> SparseAt(r, s, i)
  }

  /** The search from some place on finds exactly the matches that start there. */
  ghost predicate Finds(r: Regex, s: string, from: nat, i: nat, e: nat)
    requires from <= |s|
  {
    (i, e) in FindAll(r, s, from) <==> from <= i <= |s| && Match(r, s, i) == Some(e)
  }

  /** Where the search goes on. */
  function GoesOn(r: Regex, s: string, from: nat): (next: nat)
    requires from < |s|
    ensures from < next <= |s|
  {
    var m := Match(r, s, from);
    if m.Some? && from < m.value then m.value else from + 1
  }

  lemma FindAllUnfolds(r: Regex, s: string, from: nat)
    requires from < |s| && SparseAt(r, s, from)
    ensures FindAll(r, s, from) ==
            (if Match(r, s, from).Some? then [(from, Match(r, s, from).value)] else []) + FindAll(r, s, GoesOn(r, s, from))
  {
  }

  lemma NothingSkipped(r: Regex, s: string, from: nat, i: nat)
    requires from < |s| && SparseAt(r, s, from) && from < i < GoesOn(r, s, from)
    ensures Match(r, s, i).None?
  {
  }

  lemma FindsStep(r: Regex, s: string, from: nat, i: nat, e: nat)
    requires from < |s| && SparseAt(r, s, from) && Finds(r, s, GoesOn(r, s, from), i, e)
    ensures Finds(r, s, from, i, e)
  {
    FindAllUnfolds(r, s, from);
    if from < i < GoesOn(r, s, from) { NothingSkipped(r, s, from, i); }
  }

  lemma FindsAtEnd(r: Regex, s: string, i: nat, e: nat)
    requires SparseAt(r, s, |s|)
    ensures Finds(r, s, |s|, i, e)
  {
  }

  /** When matches do not overlap, going on after each one loses nothing: every place that
      matches is found. */
  lemma {:induction false} FindAllFindsEach(r: Regex, s: string, from: nat, i: nat, e: nat)
    requires Sparse(r, s) && from <= |s|
    ensures Finds(r, s, from, i, e)
    decreases |s| - from
  {
    assert SparseAt(r, s, from);
    if from == |s| {
      FindsAtEnd(r, s, i, e);
    } else {
      FindAllFindsEach(r, s, GoesOn(r, s, from), i, e);
      FindsStep(r, s, from, i, e);
    }
  }
}
