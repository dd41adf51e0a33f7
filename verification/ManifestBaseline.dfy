/** The baseline comparison of the parallel-face manifest: which manifests count as a step
    forward from a baseline, and what a whole chain of accepted steps preserves. */
module ManifestBaseline {
  import opened Sorting

  /** The loader accepts no other status word. */
  datatype Status = Available | Claimed | Blocked | Done

  datatype Kind = File | Dir

  datatype PathClaim = PathClaim(path: string, kind: Kind)

  datatype Face = Face(name: string, issue: int, status: Status, paths: seq<PathClaim>)

  type Manifest = seq<Face>

  /** One reported backwards move; the fields are what the printed detail is built from. */
  datatype Regression =
    | FaceRemoved(issue: int)
    | StatusRegression(issue: int, was: Status, became: Status)
    | PathSetShrunk(issue: int, lost: set<string>)
    | PathUnowned(paths: set<string>)

  // ---- Reading one manifest ----

  function PathSet(face: Face): set<string> {
    set claim | claim in face.paths :: claim.path
  }

  function Backed(face: Face, unbacked: set<string>): set<string> {
    PathSet(face) - unbacked
  }

  /** Every path some face of the manifest owns. */
  function Owned(m: Manifest): set<string> {
    set face, claim | face in m && claim in face.paths :: claim.path
  }

  /** The face a lookup by issue finds: of several faces under one issue, the last. */
  function ByIssue(m: Manifest): map<int, Face> {
    if m == [] then map[] else ByIssue(m[..|m| - 1])[m[|m| - 1].issue := m[|m| - 1]]
  }

  lemma {:induction false} ByIssueFinds(m: Manifest)
    ensures forall i :: i in ByIssue(m) ==> ByIssue(m)[i] in m && ByIssue(m)[i].issue == i
    ensures forall f :: f in m ==> f.issue in ByIssue(m)
  {
    if m != [] {
      var n := |m| - 1;
      ByIssueFinds(m[..n]);
      assert m == m[..n] + [m[n]];
    }
  }

  /** The last face listed under an issue is the one that is found. */
  lemma {:induction false} ByIssueIsLast(m: Manifest, k: nat)
    requires k < |m| && forall j :: k < j < |m| ==> m[j].issue != m[k].issue
    ensures m[k].issue in ByIssue(m) && ByIssue(m)[m[k].issue] == m[k]
  {
    if k < |m| - 1 { ByIssueIsLast(m[..|m| - 1], k); }
  }

  // ---- What a step forward is, independently of how it is computed ----

  predicate Backwards(was: Status, became: Status) {
    || (was == Done && became != Done)
    || (was == Claimed && (became == Available || became == Blocked))
  }

  /** Every face of the baseline persists without going back, and every backed path of the
      baseline is owned by somebody. */
  ghost predicate StepsForward(baseline: Manifest, current: Manifest, unbacked: set<string>) {
    var old', new' := ByIssue(baseline), ByIssue(current);
    && (forall i :: i in old' ==> i in new' && !Backwards(old'[i].status, new'[i].status))
    && Owned(baseline) - unbacked <= Owned(current)
  }

  /** What each kind of report means. */
  ghost predicate Reported(r: Regression, baseline: Manifest, current: Manifest, unbacked: set<string>) {
    var old', new' := ByIssue(baseline), ByIssue(current);
    match r
    case FaceRemoved(i) => i in old' && i !in new'
    case StatusRegression(i, was, became) =>
      i in old' && i in new' && was == old'[i].status && became == new'[i].status && Backwards(was, became)
    case PathSetShrunk(i, lost) =>
      i in old' && i in new' && new'[i].status != Done && lost != {}
      && lost == Backed(old'[i], unbacked) - Owned(current)
    case PathUnowned(paths) => paths != {} && paths == (Owned(baseline) - unbacked) - Owned(current)
  }

  // ---- The comparison itself ----

  predicate IssueBefore(a: int, b: int) { a < b }

  /** The reports about the face one issue number finds in the baseline. */
  ghost predicate ReportedFor(r: Regression, issue: int, baseline: Manifest, current: Manifest, unbacked: set<string>) {
    !r.PathUnowned? && r.issue == issue && Reported(r, baseline, current, unbacked)
  }

  method CompareFace(issue: int, was: Face, currentByIssue: map<int, Face>, currentUnion: set<string>,
                     ghost baseline: Manifest, ghost current: Manifest, unbacked: set<string>)
    returns (found: seq<Regression>)
    requires issue in ByIssue(baseline) && was == ByIssue(baseline)[issue]
    requires currentByIssue == ByIssue(current) && currentUnion == Owned(current)
    ensures forall r :: r in found <==> ReportedFor(r, issue, baseline, current, unbacked)
  {
    if issue !in currentByIssue {
      return [FaceRemoved(issue)];
    }
    found := [];
    var became := currentByIssue[issue];
    if was.status == Done && became.status != Done {
      found := found + [StatusRegression(issue, was.status, became.status)];
    } else if was.status == Claimed && became.status == Available {
      found := found + [StatusRegression(issue, was.status, became.status)];
    } else if was.status == Claimed && became.status == Blocked {
      found := found + [StatusRegression(issue, was.status, became.status)];
    }
    var released := Backed(was, unbacked) - PathSet(became);
    var lost := set path | path in released && path !in currentUnion;
    ByIssueFinds(current);
    assert lost == Backed(was, unbacked) - Owned(current);
    if lost != {} && became.status != Done {
      found := found + [PathSetShrunk(issue, lost)];
    }
  }

  method UnionOfPaths(m: Manifest, unbacked: set<string>) returns (union: set<string>)
    ensures union == Owned(m) - unbacked
  {
    union := {};
    for k := 0 to |m|
      invariant union == Owned(m[..k]) - unbacked
    {
      assert m[..k + 1] == m[..k] + [m[k]];
      union := union + Backed(m[k], unbacked);
    }
    assert m[..|m|] == m;
  }

  /** By issue number, with the report about the union last. */
  predicate InOrder(rs: seq<Regression>) {
    forall i, j :: 0 <= i < j < |rs| ==> !rs[i].PathUnowned? && (rs[j].PathUnowned? || rs[i].issue <= rs[j].issue)
  }

  lemma AppendInOrder(rs: seq<Regression>, found: seq<Regression>, issue: int)
    requires InOrder(rs) && forall r :: r in rs ==> !r.PathUnowned? && r.issue < issue
    requires forall r :: r in found ==> !r.PathUnowned? && r.issue == issue
    ensures InOrder(rs + found)
  {
    var all := rs + found;
    forall i, j | 0 <= i < j < |all|
      ensures !all[i].PathUnowned? && (all[j].PathUnowned? || all[i].issue <= all[j].issue)
    {
      assert all[i] in rs || all[i] in found;
      assert all[j] in rs || all[j] in found;
    }
  }

  /** The first loop: face by face in the order of the issue numbers. */
  method ComparePerFace(baseline: Manifest, current: Manifest, currentUnion: set<string>, unbacked: set<string>)
    returns (regressions: seq<Regression>)
    requires currentUnion == Owned(current)
    ensures forall r :: r in regressions <==> !r.PathUnowned? && Reported(r, baseline, current, unbacked)
    ensures InOrder(regressions)
  {
    var baselineByIssue, currentByIssue := ByIssue(baseline), ByIssue(current);
    var issues := Sort(baselineByIssue.Keys, IssueBefore);
    regressions := [];
    for k := 0 to |issues|
      invariant forall r :: r in regressions ==> !r.PathUnowned? && r.issue in issues[..k]
      invariant forall r :: r in regressions ==> Reported(r, baseline, current, unbacked)
      invariant forall i, r :: i in issues[..k] && ReportedFor(r, i, baseline, current, unbacked) ==> r in regressions
      invariant InOrder(regressions)
    {
      var issue := issues[k];
      var found := CompareFace(issue, baselineByIssue[issue], currentByIssue, currentUnion, baseline, current, unbacked);
      AppendInOrder(regressions, found, issue);
      regressions := regressions + found;
    }
    assert issues[..|issues|] == issues;
    forall r: Regression | !r.PathUnowned? && Reported(r, baseline, current, unbacked) ensures r in regressions {
      assert ReportedFor(r, r.issue, baseline, current, unbacked);
    }
  }

  /** Reports a move exactly when it is one of the four kinds, and reports nothing exactly
      when the step is a step forward. */
  method CompareFaces(baseline: Manifest, current: Manifest, unbacked: set<string>)
    returns (regressions: seq<Regression>)
    ensures forall r :: r in regressions <==> Reported(r, baseline, current, unbacked)
    ensures InOrder(regressions)
    ensures regressions == [] <==> StepsForward(baseline, current, unbacked)
  {
    var baselineUnion := UnionOfPaths(baseline, unbacked);
    var currentUnion := UnionOfPaths(current, {});
    regressions := ComparePerFace(baseline, current, currentUnion, unbacked);
    var unowned := baselineUnion - currentUnion;
    if unowned != {} {
      regressions := regressions + [PathUnowned(unowned)];
    }
    CleanMeansForward(baseline, current, unbacked, regressions);
  }

  /** A list that holds exactly the reportable moves is empty exactly on a step forward. */
  lemma CleanMeansForward(baseline: Manifest, current: Manifest, unbacked: set<string>, rs: seq<Regression>)
    requires forall r :: r in rs <==> Reported(r, baseline, current, unbacked)
    ensures rs == [] <==> StepsForward(baseline, current, unbacked)
  {
    var old', new' := ByIssue(baseline), ByIssue(current);
    if rs != [] {
      var r := rs[0];
      assert Reported(r, baseline, current, unbacked);
      if r.PathSetShrunk? { ShrinkingIsUnowning(r, baseline, current, unbacked); }
    } else {
      forall i | i in old'
        ensures i in new' && !Backwards(old'[i].status, new'[i].status)
      {
        assert !Reported(FaceRemoved(i), baseline, current, unbacked);
        if i in new' {
          assert !Reported(StatusRegression(i, old'[i].status, new'[i].status), baseline, current, unbacked);
        }
      }
      var unowned := (Owned(baseline) - unbacked) - Owned(current);
      assert !Reported(PathUnowned(unowned), baseline, current, unbacked);
      assert unowned == {};
      forall path | path in Owned(baseline) - unbacked ensures path in Owned(current) {
        assert path !in unowned;
      }
    }
  }

  /** The per-face shrink test never rejects anything the union test accepts. */
  lemma ShrinkingIsUnowning(r: Regression, baseline: Manifest, current: Manifest, unbacked: set<string>)
    requires r.PathSetShrunk? && Reported(r, baseline, current, unbacked)
    ensures r.lost <= (Owned(baseline) - unbacked) - Owned(current)
    ensures Reported(PathUnowned((Owned(baseline) - unbacked) - Owned(current)), baseline, current, unbacked)
  {
    ByIssueFinds(baseline);
    var p :| p in r.lost;
    assert p in (Owned(baseline) - unbacked) - Owned(current);
  }

  /** A finished face that lets go of paths nobody takes over is reported, by the union test
      alone: the paths are in no other face, and the face was and stays done. */
  lemma DoneFaceMayNotRelease(was: Face, kept: seq<PathClaim>)
    requires was.status == Done && PathSet(was) - PathSet(was.(paths := kept)) != {}
    ensures var baseline, current, lost := [was], [was.(paths := kept)], PathSet(was) - PathSet(was.(paths := kept));
            && !StepsForward(baseline, current, {})
            && forall r :: Reported(r, baseline, current, {}) <==> r == PathUnowned(lost)
  {
    var became := was.(paths := kept);
    assert ByIssue([was]) == map[was.issue := was] && ByIssue([became]) == map[was.issue := became] by {
      assert [was][..0] == [] && [became][..0] == [];
    }
    OwnedByOne(was);
    OwnedByOne(became);
  }

  lemma OwnedByOne(face: Face)
    ensures Owned([face]) == PathSet(face)
  {
    assert face in [face];
  }

  // ---- Chains of accepted steps ----

  ghost predicate Chain(ms: seq<Manifest>, unbacked: seq<set<string>>) {
    && |ms| == |unbacked| + 1
    && forall k :: 0 <= k < |unbacked| ==> StepsForward(ms[k], ms[k + 1], unbacked[k])
  }

  function AllOf(sets: seq<set<string>>): set<string> {
    set s, path | s in sets && path in s :: path
  }

  lemma StepsCompose(a: Manifest, b: Manifest, c: Manifest, u: set<string>, v: set<string>)
    requires StepsForward(a, b, u) && StepsForward(b, c, v)
    ensures StepsForward(a, c, u + v)
  {
    assert Owned(a) - (u + v) <= Owned(b) - v;
  }

  /** Clean steps compose, even when each step was compared under its own unbacked set: the
      first manifest against the last is clean once every set used on the way is exempt. */
  lemma {:induction false} ChainComposes(ms: seq<Manifest>, unbacked: seq<set<string>>)
    requires Chain(ms, unbacked)
    ensures StepsForward(ms[0], ms[|ms| - 1], AllOf(unbacked))
  {
    if |unbacked| > 0 {
      var n := |unbacked| - 1;
      var before := unbacked[..n];
      assert unbacked == before + [unbacked[n]];
      assert AllOf(unbacked) == AllOf(before) + unbacked[n];
      ChainComposes(ms[..n + 1], before);
      StepsCompose(ms[0], ms[n], ms[n + 1], AllOf(before), unbacked[n]);
    }
  }

  /** Between any two points of a chain compared under one fixed exempt set: no face
      vanishes, done stays done, claimed stays claimed or becomes done, every backed path is
      still owned, and comparing the two points directly is clean as well. */
  lemma ChainKeepsProgress(ms: seq<Manifest>, unbacked: set<string>, i: nat, j: nat, issue: int)
    requires forall k :: 0 <= k < |ms| - 1 ==> StepsForward(ms[k], ms[k + 1], unbacked)
    requires i <= j < |ms|
    ensures StepsForward(ms[i], ms[j], unbacked)
    ensures issue in ByIssue(ms[i]) ==>
              && issue in ByIssue(ms[j])
              && (ByIssue(ms[i])[issue].status == Done ==> ByIssue(ms[j])[issue].status == Done)
              && (ByIssue(ms[i])[issue].status == Claimed ==> ByIssue(ms[j])[issue].status in {Claimed, Done})
    ensures forall path :: path in Owned(ms[i]) && path !in unbacked ==> path in Owned(ms[j])
  {
    var us := seq(j - i, k => unbacked);
    var part := ms[i..j + 1];
    forall k | 0 <= k < |us| ensures StepsForward(part[k], part[k + 1], us[k]) {
      assert part[k] == ms[i + k] && part[k + 1] == ms[i + k + 1];
    }
    ChainComposes(part, us);
    assert AllOf(us) <= unbacked;
  }

  // ---- The exempt set the tool really uses ----

  /** The file claims no tracked file backs. */
  method UnbackedClaims(m: Manifest, tracked: set<string>) returns (names: set<string>)
    ensures names == Unbacked(m, tracked)
    ensures forall path :: path in names <==>
              path !in tracked && exists face :: face in m && PathClaim(path, File) in face.paths
  {
    names := {};
    for i := 0 to |m|
      invariant names == Unbacked(m[..i], tracked)
    {
      ghost var before := names;
      for j := 0 to |m[i].paths|
        invariant names == before + set claim | claim in m[i].paths[..j] && claim.kind == File && claim.path !in tracked :: claim.path
      {
        assert m[i].paths[..j + 1] == m[i].paths[..j] + [m[i].paths[j]];
        var claim := m[i].paths[j];
        if claim.kind == File && claim.path !in tracked {
          names := names + {claim.path};
        }
      }
      assert m[i].paths[..|m[i].paths|] == m[i].paths;
      assert m[..i + 1] == m[..i] + [m[i]];
    }
    assert m[..|m|] == m;
    UnbackedIsUntracked(m, tracked);
  }

  lemma UnbackedIsUntracked(m: Manifest, tracked: set<string>)
    ensures forall path :: path in Unbacked(m, tracked) <==>
              path !in tracked && exists face :: face in m && PathClaim(path, File) in face.paths
  {
    forall path | path !in tracked && exists face :: face in m && PathClaim(path, File) in face.paths
      ensures path in Unbacked(m, tracked)
    {
      var face :| face in m && PathClaim(path, File) in face.paths;
      assert PathClaim(path, File).path == path;
    }
    forall path | path in Unbacked(m, tracked) ensures exists face :: face in m && PathClaim(path, File) in face.paths {
      var face, claim :| face in m && claim in face.paths && claim.kind == File && claim.path == path;
      assert claim == PathClaim(path, File);
    }
  }

  ghost function Unbacked(m: Manifest, tracked: set<string>): set<string> {
    set face, claim | face in m && claim in face.paths && claim.kind == File && claim.path !in tracked :: claim.path
  }

  ghost predicate KindsBy(m: Manifest, kindOf: string -> Kind) {
    forall face, claim :: face in m && claim in face.paths ==> claim.kind == kindOf(claim.path)
  }

  lemma BackedStaysBacked(a: Manifest, b: Manifest, before: set<string>, after: set<string>, kindOf: string -> Kind, path: string)
    requires before <= after && KindsBy(a, kindOf) && KindsBy(b, kindOf)
    requires path in Owned(a) && path !in Unbacked(a, before)
    ensures path !in Unbacked(b, after)
  {
    var f, c :| f in a && c in f.paths && c.path == path;
    assert c.kind == kindOf(path);
  }

  /** With the exempt set recomputed from git at every step, a path that was backed once
      stays owned for good, as long as tracked files are never deleted on the way and a path
      is not claimed as a file here and as a directory there. */
  lemma {:induction false} RecomputedExemptionsCompose(ms: seq<Manifest>, tracked: seq<set<string>>, kindOf: string -> Kind)
    requires |ms| == |tracked| > 0
    requires forall k :: 0 <= k < |ms| - 1 ==> StepsForward(ms[k], ms[k + 1], Unbacked(ms[k], tracked[k]))
    requires forall k :: 0 <= k < |ms| - 1 ==> tracked[k] <= tracked[k + 1]
    requires forall k :: 0 <= k < |ms| ==> KindsBy(ms[k], kindOf)
    ensures StepsForward(ms[0], ms[|ms| - 1], Unbacked(ms[0], tracked[0]))
    ensures tracked[0] <= tracked[|ms| - 1]
  {
    var n := |ms| - 1;
    if n > 0 {
      RecomputedExemptionsCompose(ms[..n], tracked[..n], kindOf);
      var first, last := Unbacked(ms[0], tracked[0]), Unbacked(ms[n - 1], tracked[n - 1]);
      forall path | path in Owned(ms[0]) - first ensures path in Owned(ms[n]) {
        BackedStaysBacked(ms[0], ms[n - 1], tracked[0], tracked[n - 1], kindOf, path);
        assert path in Owned(ms[n - 1]) - last;
      }
    }
  }

  // ---- Several faces under one issue ----

  function Rank(s: Status): nat {
    match s
    case Done => 2
    case Claimed => 1
    case _ => 0
  }

  /** Every face of the manifest, not only the one a lookup finds, has a successor under its
      own issue that did not go back. */
  ghost predicate EveryFaceKept(baseline: Manifest, current: Manifest) {
    forall f :: f in baseline ==> HasSuccessor(f, current)
  }

  ghost predicate HasSuccessor(f: Face, current: Manifest) {
    exists g :: g in current && g.issue == f.issue && !Backwards(f.status, g.status)
  }

  predicate LastIsFurthest(f: Face, baseline: Manifest) {
    f.issue in ByIssue(baseline) && Rank(f.status) <= Rank(ByIssue(baseline)[f.issue].status)
  }

  /** The loader checks that names are unique, not that issues are. A clean comparison
      protects every face exactly when the last face listed under each issue is the most
      advanced one listed there. */
  lemma SharedIssuesExactly(baseline: Manifest)
    ensures (forall current, unbacked :: StepsForward(baseline, current, unbacked) ==> EveryFaceKept(baseline, current))
       <==> (forall f :: f in baseline ==> LastIsFurthest(f, baseline))
  {
    ByIssueFinds(baseline);
    if forall f :: f in baseline ==> LastIsFurthest(f, baseline) {
      forall current, unbacked | StepsForward(baseline, current, unbacked)
        ensures EveryFaceKept(baseline, current)
      {
        ByIssueFinds(current);
        forall f: Face | f in baseline ensures HasSuccessor(f, current) {
          var g := ByIssue(current)[f.issue];
          assert g in current && g.issue == f.issue;
        }
      }
    } else {
      var f :| f in baseline && !LastIsFurthest(f, baseline);
      ReopeningGoesUnseen(baseline, f);
    }
  }

  function WithStatus(m: Manifest, issue: int, s: Status): (r: Manifest)
    ensures |r| == |m|
    ensures forall k :: 0 <= k < |m| ==> r[k] == if m[k].issue == issue then m[k].(status := s) else m[k]
  {
    seq(|m|, k requires 0 <= k < |m| => if m[k].issue == issue then m[k].(status := s) else m[k])
  }

  lemma {:induction false} ByIssueWithStatus(m: Manifest, issue: int, s: Status)
    ensures ByIssue(WithStatus(m, issue, s)).Keys == ByIssue(m).Keys
    ensures forall i :: i in ByIssue(m) ==>
                          ByIssue(WithStatus(m, issue, s))[i] == if i == issue then ByIssue(m)[i].(status := s) else ByIssue(m)[i]
  {
    if m != [] {
      var n := |m| - 1;
      ByIssueWithStatus(m[..n], issue, s);
      assert WithStatus(m, issue, s)[..n] == WithStatus(m[..n], issue, s);
    }
  }

  lemma OwnedWithStatus(m: Manifest, issue: int, s: Status)
    ensures Owned(m) <= Owned(WithStatus(m, issue, s))
  {
    var r := WithStatus(m, issue, s);
    forall path | path in Owned(m) ensures path in Owned(r) {
      var g, c :| g in m && c in g.paths && c.path == path;
      var k :| 0 <= k < |m| && m[k] == g;
      assert r[k] in r && c in r[k].paths;
    }
  }

  /** A face hidden behind a less advanced one under the same issue can be reopened without
      any report. */
  lemma ReopeningGoesUnseen(baseline: Manifest, f: Face)
    requires f in baseline && f.issue in ByIssue(baseline) && !LastIsFurthest(f, baseline)
    ensures exists current :: StepsForward(baseline, current, {}) && !EveryFaceKept(baseline, current)
  {
    var s := ByIssue(baseline)[f.issue].status;
    var current := WithStatus(baseline, f.issue, s);
    ByIssueWithStatus(baseline, f.issue, s);
    OwnedWithStatus(baseline, f.issue, s);
    assert !Backwards(s, s) && Backwards(f.status, s);
    assert StepsForward(baseline, current, {});
    assert !HasSuccessor(f, current);
  }
}
