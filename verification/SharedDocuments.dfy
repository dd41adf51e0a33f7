/** The pipeline parser over document objects that its stages may keep and hand out again:
    the last one is updated in place. */
module SharedDocuments {
  import opened ChainParser

  class StoredDocument {
    const content: string
    const chunks: seq<string>
    var images: map<string, string>
    var metadata: map<string, string>

    ghost function Value(): Document
      reads this
    {
      Document(content, images, metadata, chunks)
    }

    constructor ()
      ensures Value() == EMPTY
    {
      content, images, metadata, chunks := "", map[], map[], [];
    }

    method Update(moreImages: map<string, string>, moreMetadata: map<string, string>)
      modifies this
      ensures Value() == old(Value()).(images := old(images) + moreImages, metadata := old(metadata) + moreMetadata)
    {
      images := images + moreImages;
      metadata := metadata + moreMetadata;
    }
  }

  /** What a stage hands over: a document object, new or kept from before, or an exception. */
  datatype Handed = Object(document: StoredDocument) | Exception(error: string) | Abort

  type Stage = Bytes -> Handed

  /** What the objects hold at some moment. */
  type View = map<StoredDocument, Document>

  ghost function Held(pool: set<StoredDocument>): (v: View)
    reads pool
    ensures v.Keys == pool
  {
    map d | d in pool :: d.Value()
  }

  function Seen(h: Handed, view: View): Outcome {
    match h
    case Object(d) => if d in view then Parsed(view[d]) else Aborted
    case Exception(error) => Raised(error)
    case Abort => Aborted
  }

  function LeafOf(stage: Stage, view: View): Parser { Leaf(content => Seen(stage(content), view)) }

  /** The stages as parsers of values, with the objects as they are in the view. */
  function Leaves(stages: seq<Stage>, view: View): (parts: seq<Parser>)
    ensures |parts| == |stages| && forall k :: 0 <= k < |stages| ==> parts[k] == LeafOf(stages[k], view)
  {
    seq(|stages|, k requires 0 <= k < |stages| => LeafOf(stages[k], view))
  }

  ghost predicate HandOut(stages: seq<Stage>, pool: set<StoredDocument>) {
    forall k, content :: 0 <= k < |stages| && stages[k](content).Object? ==> stages[k](content).document in pool
  }

  /** What the value pipeline gives. */
  function Given(stages: seq<Stage>, view: View, encode: Encoding, input: Bytes): Outcome {
    Parse(Pipeline(Leaves(stages, view)), encode, input)
  }

  /** The pipeline gets as far as stage `k`, which hands over this object. */
  predicate HandedAt(stages: seq<Stage>, view: View, encode: Encoding, input: Bytes, k: nat, d: StoredDocument) {
    && k < |stages|
    && var before := Stages(Leaves(stages, view)[..k], encode, input);
       before.Done? && stages[k](InputAfter(before.documents, encode, input)) == Object(d)
  }

  lemma OneMoreObject(stages: seq<Stage>, view: View, encode: Encoding, input: Bytes, k: nat, ds: seq<Document>)
    requires HandOut(stages, view.Keys) && k < |stages| && Stages(Leaves(stages, view)[..k], encode, input) == Done(ds)
    ensures var h := stages[k](InputAfter(ds, encode, input));
            if h.Object? then
              && h.document in view && HandedAt(stages, view, encode, input, k, h.document)
              && Stages(Leaves(stages, view)[..k + 1], encode, input) == Done(ds + [view[h.document]])
            else Given(stages, view, encode, input) == Seen(h, map[])
  {
    OneMoreStage(Leaves(stages, view), k, encode, input, ds);
  }

  method UpdateHeld(d: StoredDocument, moreImages: map<string, string>, moreMetadata: map<string, string>, ghost pool: set<StoredDocument>)
    modifies d
    ensures d.Value() == old(d.Value()).(images := old(d.images) + moreImages, metadata := old(d.metadata) + moreMetadata)
    ensures Held(pool) == if d in pool then old(Held(pool))[d := d.Value()] else old(Held(pool))
  {
    d.Update(moreImages, moreMetadata);
  }

  /** Hands over the object of the last stage, or one of its own without stages, with what the
      value pipeline gives, and changes no other object. */
  method ParseInPlace(stages: seq<Stage>, encode: Encoding, input: Bytes, ghost pool: set<StoredDocument>) returns (h: Handed)
    requires HandOut(stages, pool)
    modifies pool
    ensures var given := Given(stages, old(Held(pool)), encode, input);
            if given.Parsed? then
              && h.Object? && h.document.Value() == given.document
              && (if stages == [] then fresh(h.document) && Held(pool) == old(Held(pool))
                  else HandedAt(stages, old(Held(pool)), encode, input, |stages| - 1, h.document)
                       && Held(pool) == old(Held(pool))[h.document := given.document])
            else !h.Object? && Seen(h, map[]) == given && Held(pool) == old(Held(pool))
  {
    ghost var view := Held(pool);
    ghost var parts := Leaves(stages, view);
    ghost var ds: seq<Document> := [];
    var images: map<string, string>, metadata: map<string, string> := map[], map[];
    var document := new StoredDocument();
    var content := input;
    for k := 0 to |stages|
      invariant Stages(parts[..k], encode, input) == Done(ds)
      invariant content == InputAfter(ds, encode, input)
      invariant SoFar(ds, document.Value(), images, metadata)
      invariant Held(pool) == view
      invariant if k == 0 then fresh(document) else document in pool && HandedAt(stages, view, encode, input, k - 1, document)
    {
      OneMoreObject(stages, view, encode, input, k, ds);
      h := stages[k](content);
      if !h.Object? {
        return;
      }
      document := h.document;
      assert view[document] == document.Value();
      content := encode(document.content);
      MergedExtend(ds, document.Value());
      images := images + document.images;
      metadata := metadata + document.metadata;
      ds := ds + [document.Value()];
    }
    assert parts[..|parts|] == parts;
    MergedAtLast(ds, document.Value());
    UpdateHeld(document, images, metadata, pool);
    h := Object(document);
  }

  // ---- Running again over the updated object ----

  /** The documents differ at most where the one was `was`, which is now `now`. */
  ghost predicate Replaced(ds: seq<Document>, es: seq<Document>, was: Document, now: Document) {
    |ds| == |es| && forall k :: 0 <= k < |ds| ==> es[k] == ds[k] || (ds[k] == was && es[k] == now)
  }

  lemma {:induction false} SameSteps(stages: seq<Stage>, view: View, d: StoredDocument, now: Document, encode: Encoding, input: Bytes, k: nat)
    requires k <= |stages| && d in view && now.content == view[d].content
    requires Stages(Leaves(stages, view)[..k], encode, input).Done?
    ensures var before := Stages(Leaves(stages, view)[..k], encode, input);
            var after := Stages(Leaves(stages, view[d := now])[..k], encode, input);
            after.Done? && Replaced(before.documents, after.documents, view[d], now)
  {
    if k > 0 {
      var parts, others := Leaves(stages, view), Leaves(stages, view[d := now]);
      StepBefore(parts, k, encode, input);
      SameSteps(stages, view, d, now, encode, input, k - 1);
      var ds, es := Stages(parts[..k - 1], encode, input).documents, Stages(others[..k - 1], encode, input).documents;
      OneMoreStage(others, k - 1, encode, input, es);
      assert InputAfter(ds, encode, input) == InputAfter(es, encode, input);
    }
  }

  /** A run that gets through the first `k` stages got through those before. */
  lemma StepBefore(parts: seq<Parser>, k: nat, encode: Encoding, input: Bytes)
    requires 0 < k <= |parts| && Stages(parts[..k], encode, input).Done?
    ensures var before := Stages(parts[..k - 1], encode, input);
            && before.Done?
            && var stage := Parse(parts[k - 1], encode, InputAfter(before.documents, encode, input));
               stage.Parsed? && Stages(parts[..k], encode, input) == Done(before.documents + [stage.document])
  {
    assert parts[..k][..k - 1] == parts[..k - 1];
    if Stages(parts[..k - 1], encode, input).Broke? {
      BrokenStaysBroken(parts[..k], k - 1, encode, input);
    } else {
      StagesExtend(parts[..k - 1], parts[k - 1], encode, input);
      assert parts[..k] == parts[..k - 1] + [parts[k - 1]];
    }
  }

  lemma {:induction false} KeysInMerge(maps: seq<map<string, string>>, k: nat)
    requires k < |maps|
    ensures maps[k].Keys <= MergeAll(maps).Keys
  {
    var n := |maps| - 1;
    if k < n { KeysInMerge(maps[..n], k); }
  }

  lemma {:induction false} MergeWithin(maps: seq<map<string, string>>, keys: set<string>)
    requires forall m :: m in maps ==> m.Keys <= keys
    ensures MergeAll(maps).Keys <= keys
  {
    if maps != [] { MergeWithin(maps[..|maps| - 1], keys); }
  }

  /** A last map that has all the keys decides the merge. */
  lemma LastDecides(maps: seq<map<string, string>>)
    requires maps != [] && forall m :: m in maps ==> m.Keys <= maps[|maps| - 1].Keys
    ensures MergeAll(maps) == maps[|maps| - 1]
  {
    MergeWithin(maps[..|maps| - 1], maps[|maps| - 1].Keys);
  }

  lemma MergingAgain(ds: seq<Document>, es: seq<Document>)
    requires ds != [] && Replaced(ds, es, ds[|ds| - 1], Merged(ds)) && es[|es| - 1] == Merged(ds)
    ensures Merged(es) == Merged(ds)
  {
    forall k | 0 <= k < |es| ensures es[k].images.Keys <= Merged(ds).images.Keys && es[k].metadata.Keys <= Merged(ds).metadata.Keys {
      KeysInMerge(ImagesOf(ds), k);
      KeysInMerge(MetadataOf(ds), k);
    }
    LastDecides(ImagesOf(es));
    LastDecides(MetadataOf(es));
  }

  /** Run again after its last object was updated, whoever else hands that object out, the
      pipeline gives the same document. */
  lemma AgainTheSame(stages: seq<Stage>, view: View, encode: Encoding, input: Bytes, d: StoredDocument)
    requires stages != [] && HandedAt(stages, view, encode, input, |stages| - 1, d) && d in view
    requires Given(stages, view, encode, input).Parsed?
    ensures Given(stages, view[d := Given(stages, view, encode, input).document], encode, input) == Given(stages, view, encode, input)
  {
    var n, now := |stages|, Given(stages, view, encode, input).document;
    var parts, others := Leaves(stages, view), Leaves(stages, view[d := now]);
    assert parts[..n] == parts && others[..n] == others;
    var ds := Stages(parts, encode, input).documents;
    StepBefore(parts, n, encode, input);
    assert ds[n - 1] == view[d];
    SameSteps(stages, view, d, now, encode, input, n);
    var es := Stages(others, encode, input).documents;
    StepBefore(others, n, encode, input);
    SameSteps(stages, view, d, now, encode, input, n - 1);
    assert es[n - 1] == now;
    MergingAgain(ds, es);
  }
}
