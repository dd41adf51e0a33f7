/** Trimming a text at its ends. */
module Texts {

  type Spaces = char -> bool

  function StripLeft(space: Spaces, s: string): string {
    if s != "" && space(s[0]) then StripLeft(space, s[1..]) else s
  }

  function StripRight(space: Spaces, s: string): string {
    if s != "" && space(s[|s| - 1]) then StripRight(space, s[..|s| - 1]) else s
  }

  function Strip(space: Spaces, s: string): string {
    StripRight(space, StripLeft(space, s))
  }

  predicate Trimmed(space: Spaces, s: string) {
    s != "" ==> !space(s[0]) && !space(s[|s| - 1])
  }

  lemma {:induction false} StripRightEnd(space: Spaces, s: string)
    ensures StripRight(space, s) <= s
    ensures StripRight(space, s) == "" || !space(StripRight(space, s)[|StripRight(space, s)| - 1])
  {
    if s != "" && space(s[|s| - 1]) { StripRightEnd(space, s[..|s| - 1]); }
  }

  lemma {:induction false} StripLeftStart(space: Spaces, s: string)
    ensures StripLeft(space, s) == "" || !space(StripLeft(space, s)[0])
  {
    if s != "" && space(s[0]) { StripLeftStart(space, s[1..]); }
  }

  lemma StripTrims(space: Spaces, s: string)
    ensures Trimmed(space, Strip(space, s))
  {
    StripLeftStart(space, s);
    StripRightEnd(space, StripLeft(space, s));
  }

  lemma TrimmedStays(space: Spaces, s: string)
    requires Trimmed(space, s)
    ensures Strip(space, s) == s
  {
  }

  lemma {:induction false} StripLeftShortens(space: Spaces, s: string)
    ensures |StripLeft(space, s)| <= |s| && forall c :: c in StripLeft(space, s) ==> c in s
  {
    if s != "" && space(s[0]) { StripLeftShortens(space, s[1..]); }
  }

  lemma {:induction false} StripRightShortens(space: Spaces, s: string)
    ensures |StripRight(space, s)| <= |s| && forall c :: c in StripRight(space, s) ==> c in s
  {
    if s != "" && space(s[|s| - 1]) { StripRightShortens(space, s[..|s| - 1]); }
  }

  lemma StripShortens(space: Spaces, s: string)
    ensures |Strip(space, s)| <= |s| && forall c :: c in Strip(space, s) ==> c in s
  {
    StripLeftShortens(space, s);
    StripRightShortens(space, StripLeft(space, s));
  }

  lemma {:induction false} StripLeftBehind(space: Spaces, pad: string, s: string)
    requires forall k :: 0 <= k < |pad| ==> space(pad[k])
    ensures StripLeft(space, pad + s) == StripLeft(space, s)
  {
    if pad == "" {
      assert pad + s == s;
    } else {
      assert (pad + s)[1..] == pad[1..] + s;
      StripLeftBehind(space, pad[1..], s);
    }
  }

  lemma {:induction false} StripRightBefore(space: Spaces, s: string, pad: string)
    requires forall k :: 0 <= k < |pad| ==> space(pad[k])
    ensures StripRight(space, s + pad) == StripRight(space, s)
  {
    if pad == "" {
      assert s + pad == s;
    } else {
      var n := |pad| - 1;
      assert (s + pad)[..|s + pad| - 1] == s + pad[..n];
      StripRightBefore(space, s, pad[..n]);
    }
  }

  /** Stripping takes the white space at both ends, and nothing from a text without any. */
  lemma StripBetween(space: Spaces, before: string, s: string, after: string)
    requires forall k :: 0 <= k < |before| ==> space(before[k])
    requires forall k :: 0 <= k < |after| ==> space(after[k])
    requires Trimmed(space, s)
    ensures Strip(space, before + s + after) == s
  {
    assert before + s + after == before + (s + after);
    StripLeftBehind(space, before, s + after);
    if s == "" {
      assert s + after == after + "";
      StripLeftBehind(space, after, "");
    } else {
      StripRightBefore(space, s, after);
    }
  }

  /** A first character that is no white space stays. */
  lemma {:induction false} StripRightKeeps(space: Spaces, s: string)
    requires s != "" && !space(s[0])
    ensures StripRight(space, s) != "" && StripRight(space, s)[0] == s[0]
  {
    if space(s[|s| - 1]) { StripRightKeeps(space, s[..|s| - 1]); }
  }
}
