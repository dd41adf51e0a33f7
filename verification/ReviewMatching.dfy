/** Matching review items with review decisions when a chapter of the demo document is built. */
module ReviewMatching {

  datatype Decision = Decision(itemId: string, disposition: string, reason: string)

  datatype Item = Item(id: string, statement: string)

  datatype Reviewed = Reviewed(id: string, statement: string, disposition: string, reason: string)

  datatype Chapter = Chapter(title: string, items: seq<Item>, decisions: seq<Decision>)

  datatype Error = DuplicateDecision(id: string) | MissingDecision(id: string) | OrphanDecision

  datatype Result<+T> = Built(value: T) | Rejected(error: Error)

  function DecisionIds(ds: seq<Decision>): seq<string> {
    seq(|ds|, k requires 0 <= k < |ds| => ds[k].itemId)
  }

  function ItemIds(items: seq<Item>): seq<string> {
    seq(|items|, k requires 0 <= k < |items| => items[k].id)
  }

  ghost predicate Distinct(ids: seq<string>) {
    forall i, j :: 0 <= i < j < |ids| ==> ids[i] != ids[j]
  }

  ghost predicate SameIds(a: seq<string>, b: seq<string>) {
    forall id :: id in a <==> id in b
  }

  /** Each item once, in order, with the decision made about it. */
  ghost predicate Pairs(items: seq<Item>, ds: seq<Decision>, out: seq<Reviewed>) {
    && |out| == |items|
    && forall k :: 0 <= k < |items| ==>
                     Decision(items[k].id, out[k].disposition, out[k].reason) in ds
                     && out[k].id == items[k].id && out[k].statement == items[k].statement
  }

  lemma IdsOfDecisions(ds: seq<Decision>)
    ensures forall id :: id in DecisionIds(ds) <==> id in set d | d in ds :: d.itemId
  {
    forall d | d in ds ensures d.itemId in DecisionIds(ds) {
      var k :| 0 <= k < |ds| && ds[k] == d;
      assert DecisionIds(ds)[k] == d.itemId;
    }
  }

  /** The chapter's decisions by item, or the first item decided twice. */
  method IndexDecisions(ds: seq<Decision>) returns (r: Result<map<string, Decision>>)
    ensures r.Built? <==> Distinct(DecisionIds(ds))
    ensures r.Built? ==> r.value.Keys == set d | d in ds :: d.itemId
    ensures r.Built? ==> forall id :: id in r.value ==> r.value[id] in ds && r.value[id].itemId == id
    ensures r.Rejected? ==> exists j :: 0 <= j < |ds| && r.error == DuplicateDecision(ds[j].itemId)
                                        && Distinct(DecisionIds(ds[..j])) && ds[j].itemId in DecisionIds(ds[..j])
  {
    var decisions: map<string, Decision> := map[];
    for k := 0 to |ds|
      invariant decisions.Keys == set d | d in ds[..k] :: d.itemId
      invariant forall id :: id in decisions ==> decisions[id] in ds[..k] && decisions[id].itemId == id
      invariant Distinct(DecisionIds(ds[..k]))
    {
      if ds[k].itemId in decisions {
        var d := decisions[ds[k].itemId];
        var j :| 0 <= j < k && ds[j] == d;
        assert DecisionIds(ds[..k])[j] == ds[k].itemId && DecisionIds(ds)[j] == DecisionIds(ds)[k];
        return Rejected(DuplicateDecision(ds[k].itemId));
      }
      assert ds[..k + 1] == ds[..k] + [ds[k]];
      IdsOfDecisions(ds[..k]);
      assert DecisionIds(ds[..k + 1]) == DecisionIds(ds[..k]) + [ds[k].itemId];
      decisions := decisions[ds[k].itemId := ds[k]];
    }
    assert ds[..|ds|] == ds;
    r := Built(decisions);
  }

  /** The first k items are paired, and the decisions about the others are left. */
  ghost predicate PairedSoFar(chapter: Chapter, k: nat, left: map<string, Decision>, out: seq<Reviewed>)
    requires k <= |chapter.items|
  {
    var done := chapter.items[..k];
    && (forall id :: id in left <==> id in DecisionIds(chapter.decisions) && id !in ItemIds(done))
    && (forall id :: id in left ==> left[id] in chapter.decisions && left[id].itemId == id)
    && Distinct(ItemIds(done)) && (forall id :: id in ItemIds(done) ==> id in DecisionIds(chapter.decisions))
    && Pairs(done, chapter.decisions, out)
  }

  lemma PairNext(chapter: Chapter, k: nat, left: map<string, Decision>, out: seq<Reviewed>)
    requires k < |chapter.items| && PairedSoFar(chapter, k, left, out) && chapter.items[k].id in left
    ensures var item := chapter.items[k];
            PairedSoFar(chapter, k + 1, left - {item.id},
              out + [Reviewed(item.id, item.statement, left[item.id].disposition, left[item.id].reason)])
  {
    ItemIdsGrow(chapter.items, k);
  }

  /** Succeeds exactly when decision ids are pairwise distinct, item ids are pairwise
      distinct and the two id sets are equal. */
  method BuildChapter(chapter: Chapter) returns (r: Result<seq<Reviewed>>)
    ensures r.Built? <==> Matches(chapter)
    ensures r.Built? ==> Pairs(chapter.items, chapter.decisions, r.value)
    ensures r.Rejected? ==> Refused(chapter, r.error)
  {
    var indexed := IndexDecisions(chapter.decisions);
    if indexed.Rejected? {
      return Rejected(indexed.error);
    }
    var items, decisions := chapter.items, indexed.value;
    IdsOfDecisions(chapter.decisions);
    var out: seq<Reviewed> := [];
    for k := 0 to |items|
      invariant PairedSoFar(chapter, k, decisions, out)
    {
      var item := items[k];
      if item.id !in decisions {
        UnmatchedItem(chapter, k);
        return Rejected(MissingDecision(item.id));
      }
      PairNext(chapter, k, decisions, out);
      out := out + [Reviewed(item.id, item.statement, decisions[item.id].disposition, decisions[item.id].reason)];
      decisions := decisions - {item.id};
    }
    assert items[..|items|] == items;
    WhatIsLeft(chapter, decisions);
    if |decisions| != 0 {
      return Rejected(OrphanDecision);
    }
    r := Built(out);
  }

  /** Decisions are left over exactly when some are about no item. */
  lemma WhatIsLeft(chapter: Chapter, left: map<string, Decision>)
    requires Distinct(DecisionIds(chapter.decisions)) && Distinct(ItemIds(chapter.items))
    requires forall id :: id in ItemIds(chapter.items) ==> id in DecisionIds(chapter.decisions)
    requires forall id :: id in left <==> id in DecisionIds(chapter.decisions) && id !in ItemIds(chapter.items)
    ensures |left| == 0 <==> Matches(chapter)
    ensures |left| != 0 ==> exists d :: d in chapter.decisions && d.itemId !in ItemIds(chapter.items)
  {
    if |left| != 0 {
      assert left.Keys != {};
      var id :| id in left;
      IdsOfDecisions(chapter.decisions);
    } else {
      assert left.Keys == {};
    }
  }

  lemma ItemIdsGrow(items: seq<Item>, k: nat)
    requires k < |items|
    ensures items[..k + 1] == items[..k] + [items[k]]
    ensures ItemIds(items[..k + 1]) == ItemIds(items[..k]) + [items[k].id]
  {
  }

  /** An item whose decision is missing or used up keeps the chapter from matching. */
  lemma UnmatchedItem(chapter: Chapter, k: nat)
    requires k < |chapter.items|
    requires var id := chapter.items[k].id; id !in DecisionIds(chapter.decisions) || id in ItemIds(chapter.items[..k])
    requires Distinct(ItemIds(chapter.items[..k]))
    requires forall id :: id in ItemIds(chapter.items[..k]) ==> id in DecisionIds(chapter.decisions)
    ensures !Matches(chapter) && FirstUnmatched(chapter, chapter.items[k].id)
  {
    var items, id := chapter.items, chapter.items[k].id;
    assert ItemIds(items)[k] == id;
    forall j | 0 <= j < k ensures items[j].id in DecisionIds(chapter.decisions) {
      assert ItemIds(items[..k])[j] == items[j].id;
    }
    if id in ItemIds(items[..k]) {
      var j :| 0 <= j < k && ItemIds(items[..k])[j] == id;
      assert ItemIds(items)[j] == ItemIds(items)[k];
    }
  }

  ghost predicate Matches(chapter: Chapter) {
    && Distinct(DecisionIds(chapter.decisions)) && Distinct(ItemIds(chapter.items))
    && SameIds(DecisionIds(chapter.decisions), ItemIds(chapter.items))
  }

  /** The first item that has no decision, or none left. */
  ghost predicate FirstUnmatched(chapter: Chapter, id: string) {
    exists k :: 0 <= k < |chapter.items| && chapter.items[k].id == id
                && (id !in DecisionIds(chapter.decisions) || id in ItemIds(chapter.items[..k]))
                && Distinct(ItemIds(chapter.items[..k]))
                && forall j :: 0 <= j < k ==> chapter.items[j].id in DecisionIds(chapter.decisions)
  }

  /** What each error says: the first item decided twice; with every item decided once at most,
      the first item without a decision of its own; or, with every item decided exactly once,
      that a decision is about no item. */
  ghost predicate Refused(chapter: Chapter, error: Error) {
    var ds := chapter.decisions;
    match error
    case DuplicateDecision(id) =>
      exists j :: 0 <= j < |ds| && ds[j].itemId == id && Distinct(DecisionIds(ds[..j])) && id in DecisionIds(ds[..j])
    case MissingDecision(id) => Distinct(DecisionIds(ds)) && FirstUnmatched(chapter, id)
    case OrphanDecision =>
      && Distinct(DecisionIds(ds)) && Distinct(ItemIds(chapter.items))
      && (forall id :: id in ItemIds(chapter.items) ==> id in DecisionIds(ds))
      && exists d :: d in ds && d.itemId !in ItemIds(chapter.items)
  }

  /** All chapters are built in order, and the first one that does not match ends the run. */
  method BuildChapters(chapters: seq<Chapter>) returns (r: Result<seq<seq<Reviewed>>>)
    ensures r.Built? <==> forall c :: c in chapters ==> Matches(c)
    ensures r.Rejected? ==> exists k :: 0 <= k < |chapters| && Refused(chapters[k], r.error) && forall j :: 0 <= j < k ==> Matches(chapters[j])
    ensures r.Built? ==> |r.value| == |chapters| && forall k :: 0 <= k < |chapters| ==> Pairs(chapters[k].items, chapters[k].decisions, r.value[k])
  {
    var out: seq<seq<Reviewed>> := [];
    for k := 0 to |chapters|
      invariant forall j :: 0 <= j < k ==> Matches(chapters[j])
      invariant |out| == k && forall j :: 0 <= j < k ==> Pairs(chapters[j].items, chapters[j].decisions, out[j])
    {
      var chapter := BuildChapter(chapters[k]);
      if chapter.Rejected? {
        assert chapters[k] in chapters;
        return Rejected(chapter.error);
      }
      out := out + [chapter.value];
    }
    r := Built(out);
  }

  /** A matching chapter leaves no choice: the pairing is determined by the ids. */
  lemma PairingIsUnique(chapter: Chapter, a: seq<Reviewed>, b: seq<Reviewed>)
    requires Matches(chapter) && Pairs(chapter.items, chapter.decisions, a) && Pairs(chapter.items, chapter.decisions, b)
    ensures a == b
  {
    var ds := chapter.decisions;
    forall k | 0 <= k < |a| ensures a[k] == b[k] {
      var d, e := Decision(chapter.items[k].id, a[k].disposition, a[k].reason), Decision(chapter.items[k].id, b[k].disposition, b[k].reason);
      var i :| 0 <= i < |ds| && ds[i] == d;
      var j :| 0 <= j < |ds| && ds[j] == e;
      assert DecisionIds(ds)[i] == DecisionIds(ds)[j];
    }
  }
}
