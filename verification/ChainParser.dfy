/** First-success and pipeline parsers, nested to any depth, and what flattening them keeps. */
module ChainParser {

  type Bytes = seq<bv8>

  datatype Document = Document(content: string, images: map<string, string>, metadata: map<string, string>, chunks: seq<string>)

  const EMPTY := Document("", map[], map[], [])

  predicate IsValid(d: Document) { d.content != "" }

  /** An exception is what `except Exception` catches; an abort passes through it. */
  datatype Outcome = Parsed(document: Document) | Raised(error: string) | Aborted

  datatype Parser = Leaf(parse: Bytes -> Outcome) | First(parts: seq<Parser>) | Pipeline(parts: seq<Parser>)

  type Encoding = string -> Bytes

  // ---- What a parser means ----

  function Parse(p: Parser, encode: Encoding, content: Bytes): Outcome
    decreases p, 1
  {
    match p
    case Leaf(parse) => parse(content)
    case First(parts) => FirstOf(parts, encode, content)
    case Pipeline(parts) => AsOutcome(Stages(parts, encode, content))
  }

  /** The first valid document; exceptions and empty documents are passed over. */
  function FirstOf(parts: seq<Parser>, encode: Encoding, content: Bytes): (o: Outcome)
    ensures !o.Raised? && (o.Parsed? ==> IsValid(o.document) || o.document == EMPTY)
    decreases parts, 0
  {
    if parts == [] then Parsed(EMPTY)
    else
      match Parse(parts[0], encode, content)
      case Aborted => Aborted
      case Raised(_) => FirstOf(parts[1..], encode, content)
      case Parsed(d) => if IsValid(d) then Parsed(d) else FirstOf(parts[1..], encode, content)
  }

  /** The documents of all stages, each parsed from the one before, or what broke the chain. */
  datatype Trace = Done(documents: seq<Document>) | Broke(outcome: Outcome)

  function Stages(parts: seq<Parser>, encode: Encoding, content: Bytes): (t: Trace)
    ensures t.Done? ==> |t.documents| == |parts|
    ensures t.Broke? ==> !t.outcome.Parsed?
    decreases parts, 0
  {
    if parts == [] then Done([])
    else
      match Parse(parts[0], encode, content)
      case Parsed(d) =>
        (match Stages(parts[1..], encode, encode(d.content))
         case Done(rest) => Done([d] + rest)
         case Broke(o) => Broke(o))
      case o => Broke(o)
  }

  /** The right-biased merge of a list of maps. */
  function MergeAll(maps: seq<map<string, string>>): map<string, string> {
    if maps == [] then map[] else MergeAll(maps[..|maps| - 1]) + maps[|maps| - 1]
  }

  function ImagesOf(ds: seq<Document>): seq<map<string, string>> { seq(|ds|, k requires 0 <= k < |ds| => ds[k].images) }

  function MetadataOf(ds: seq<Document>): seq<map<string, string>> { seq(|ds|, k requires 0 <= k < |ds| => ds[k].metadata) }

  /** The last stage's text with the images and metadata of all stages, later ones winning. */
  function Merged(ds: seq<Document>): Document {
    if ds == [] then EMPTY
    else ds[|ds| - 1].(images := MergeAll(ImagesOf(ds)), metadata := MergeAll(MetadataOf(ds)))
  }

  function AsOutcome(t: Trace): Outcome {
    match t
    case Done(ds) => Parsed(Merged(ds))
    case Broke(o) => o
  }

  // ---- The two parser loops ----

  method ParseFirst(parts: seq<Parser>, encode: Encoding, content: Bytes) returns (o: Outcome)
    ensures o == Parse(First(parts), encode, content)
  {
    for k := 0 to |parts|
      invariant FirstOf(parts, encode, content) == FirstOf(parts[k..], encode, content)
    {
      assert parts[k..][1..] == parts[k + 1..];
      var attempt := Parse(parts[k], encode, content);
      if attempt.Aborted? {
        return attempt;
      }
      if attempt.Raised? {
        continue;
      }
      if IsValid(attempt.document) {
        return attempt;
      }
    }
    o := Parsed(EMPTY);
  }

  lemma {:induction false} StagesExtend(parts: seq<Parser>, last: Parser, encode: Encoding, content: Bytes)
    ensures Stages(parts + [last], encode, content) ==
            match Stages(parts, encode, content)
            case Broke(o) => Broke(o)
            case Done(ds) =>
              match Parse(last, encode, if ds == [] then content else encode(ds[|ds| - 1].content))
              case Parsed(d) => Done(ds + [d])
              case o => Broke(o)
    decreases |parts|
  {
    if parts == [] {
      assert parts + [last] == [last] && [last][1..] == [];
    } else {
      assert (parts + [last])[1..] == parts[1..] + [last];
      var first := Parse(parts[0], encode, content);
      if first.Parsed? { StagesExtend(parts[1..], last, encode, encode(first.document.content)); }
    }
  }

  lemma {:induction false} BrokenStaysBroken(parts: seq<Parser>, k: nat, encode: Encoding, content: Bytes)
    requires k <= |parts| && Stages(parts[..k], encode, content).Broke?
    ensures Stages(parts, encode, content) == Stages(parts[..k], encode, content)
    decreases |parts|
  {
    if k > 0 {
      var first := Parse(parts[0], encode, content);
      assert parts[..k][0] == parts[0] && parts[..k][1..] == parts[1..][..k - 1];
      if first.Parsed? { BrokenStaysBroken(parts[1..], k - 1, encode, encode(first.document.content)); }
    }
  }

  lemma MergedExtend(ds: seq<Document>, d: Document)
    ensures MergeAll(ImagesOf(ds + [d])) == MergeAll(ImagesOf(ds)) + d.images
    ensures MergeAll(MetadataOf(ds + [d])) == MergeAll(MetadataOf(ds)) + d.metadata
  {
    assert ImagesOf(ds + [d])[..|ds|] == ImagesOf(ds);
    assert MetadataOf(ds + [d])[..|ds|] == MetadataOf(ds);
  }

  /** What the loop's variables are once the stages have given these documents. */
  ghost predicate SoFar(ds: seq<Document>, document: Document, images: map<string, string>, metadata: map<string, string>) {
    && document == (if ds == [] then EMPTY else ds[|ds| - 1])
    && images == MergeAll(ImagesOf(ds)) && metadata == MergeAll(MetadataOf(ds))
  }

  /** Where the stages after these documents read from. */
  function InputAfter(ds: seq<Document>, encode: Encoding, input: Bytes): Bytes {
    if ds == [] then input else encode(ds[|ds| - 1].content)
  }

  lemma OneMoreStage(parts: seq<Parser>, k: nat, encode: Encoding, input: Bytes, ds: seq<Document>)
    requires k < |parts| && Stages(parts[..k], encode, input) == Done(ds)
    ensures var stage := Parse(parts[k], encode, InputAfter(ds, encode, input));
            && (stage.Parsed? ==> Stages(parts[..k + 1], encode, input) == Done(ds + [stage.document]))
            && (!stage.Parsed? ==> Parse(Pipeline(parts), encode, input) == stage)
  {
    StagesExtend(parts[..k], parts[k], encode, input);
    assert parts[..k + 1] == parts[..k] + [parts[k]];
    var stage := Parse(parts[k], encode, InputAfter(ds, encode, input));
    if !stage.Parsed? { BrokenStaysBroken(parts, k + 1, encode, input); }
  }

  method ParsePipeline(parts: seq<Parser>, encode: Encoding, input: Bytes) returns (o: Outcome)
    ensures o == Parse(Pipeline(parts), encode, input)
  {
    var images: map<string, string>, metadata: map<string, string> := map[], map[];
    var document, content := EMPTY, input;
    ghost var ds: seq<Document> := [];
    for k := 0 to |parts|
      invariant Stages(parts[..k], encode, input) == Done(ds)
      invariant content == InputAfter(ds, encode, input)
      invariant SoFar(ds, document, images, metadata)
    {
      OneMoreStage(parts, k, encode, input, ds);
      var stage := Parse(parts[k], encode, content);
      if !stage.Parsed? {
        return stage;
      }
      document := stage.document;
      content := encode(document.content);
      MergedExtend(ds, document);
      images := images + document.images;
      metadata := metadata + document.metadata;
      ds := ds + [document];
    }
    assert parts[..|parts|] == parts;
    MergedAtLast(ds, document);
    document := document.(images := document.images + images, metadata := document.metadata + metadata);
    o := Parsed(document);
  }

  lemma LastAlreadyMerged(ds: seq<Document>)
    requires ds != []
    ensures ds[|ds| - 1].images + MergeAll(ImagesOf(ds)) == MergeAll(ImagesOf(ds))
    ensures ds[|ds| - 1].metadata + MergeAll(MetadataOf(ds)) == MergeAll(MetadataOf(ds))
  {
    var front, last := ds[..|ds| - 1], ds[|ds| - 1];
    assert ds == front + [last];
    MergedExtend(front, last);
  }

  lemma MergedAtLast(ds: seq<Document>, document: Document)
    requires document == if ds == [] then EMPTY else ds[|ds| - 1]
    ensures document.(images := document.images + MergeAll(ImagesOf(ds)),
                      metadata := document.metadata + MergeAll(MetadataOf(ds))) == Merged(ds)
  {
    if ds == [] {
      assert EMPTY.images + map[] == map[] && EMPTY.metadata + map[] == map[];
    } else {
      LastAlreadyMerged(ds);
    }
  }

  // ---- Flattening ----

  /** Splices first-success parsers into first-success parsers and non-empty pipelines into
      pipelines, at every depth. */
  function Flatten(p: Parser): Parser
    decreases p, 1
  {
    match p
    case Leaf(_) => p
    case First(parts) => First(SpliceFirst(parts))
    case Pipeline(parts) => Pipeline(SplicePipeline(parts))
  }

  function SpliceFirst(parts: seq<Parser>): seq<Parser>
    decreases parts, 0
  {
    if parts == [] then []
    else
      var flat := Flatten(parts[0]);
      (if flat.First? then flat.parts else [flat]) + SpliceFirst(parts[1..])
  }

  function SplicePipeline(parts: seq<Parser>): seq<Parser>
    decreases parts, 0
  {
    if parts == [] then []
    else
      var flat := Flatten(parts[0]);
      (if flat.Pipeline? && flat.parts != [] then flat.parts else [flat]) + SplicePipeline(parts[1..])
  }

  /** Trying one list and then another. */
  lemma {:induction false} FirstOfAppend(a: seq<Parser>, b: seq<Parser>, encode: Encoding, content: Bytes)
    ensures FirstOf(a + b, encode, content) ==
            var o := FirstOf(a, encode, content);
            if o == Parsed(EMPTY) then FirstOf(b, encode, content) else o
    decreases |a|
  {
    if a == [] {
      assert a + b == b;
    } else {
      assert (a + b)[1..] == a[1..] + b;
      FirstOfAppend(a[1..], b, encode, content);
    }
  }

  function Then(first: Document, second: Document): Document {
    second.(images := first.images + second.images, metadata := first.metadata + second.metadata)
  }

  lemma {:induction false} MergeAllAppend(a: seq<map<string, string>>, b: seq<map<string, string>>)
    ensures MergeAll(a + b) == MergeAll(a) + MergeAll(b)
    decreases |b|
  {
    if b == [] {
      assert a + b == a;
    } else {
      var n := |b| - 1;
      assert (a + b)[..|a + b| - 1] == a + b[..n];
      MergeAllAppend(a, b[..n]);
      MapsInTurn(MergeAll(a), MergeAll(b[..n]), b[n]);
    }
  }

  lemma MapsInTurn(a: map<string, string>, b: map<string, string>, c: map<string, string>)
    ensures (a + b) + c == a + (b + c)
  {
  }

  lemma MergedAppend(a: seq<Document>, b: seq<Document>)
    requires a != [] && b != []
    ensures Merged(a + b) == Then(Merged(a), Merged(b))
  {
    assert ImagesOf(a + b) == ImagesOf(a) + ImagesOf(b);
    assert MetadataOf(a + b) == MetadataOf(a) + MetadataOf(b);
    MergeAllAppend(ImagesOf(a), ImagesOf(b));
    MergeAllAppend(MetadataOf(a), MetadataOf(b));
  }

  function Glue(t: Trace, u: Trace): Trace {
    if t.Done? && u.Done? then Done(t.documents + u.documents) else if t.Done? then u else t
  }

  lemma {:induction false} StagesAppend(a: seq<Parser>, b: seq<Parser>, encode: Encoding, content: Bytes)
    ensures var t := Stages(a, encode, content);
            Stages(a + b, encode, content) ==
            if t.Done? then Glue(t, Stages(b, encode, InputAfter(t.documents, encode, content))) else t
    decreases |a|
  {
    if a == [] {
      assert a + b == b;
      var u := Stages(b, encode, content);
      if u.Done? { assert [] + u.documents == u.documents; }
    } else {
      assert (a + b)[1..] == a[1..] + b && (a + b)[0] == a[0];
      var first := Parse(a[0], encode, content);
      if first.Parsed? { StagesAppendStep(a, b, first.document, encode, content); }
    }
  }

  lemma StagesAppendStep(a: seq<Parser>, b: seq<Parser>, d: Document, encode: Encoding, content: Bytes)
    requires a != [] && Parse(a[0], encode, content) == Parsed(d)
    requires (a + b)[1..] == a[1..] + b && (a + b)[0] == a[0]
    ensures var t := Stages(a, encode, content);
            Stages(a + b, encode, content) ==
            if t.Done? then Glue(t, Stages(b, encode, InputAfter(t.documents, encode, content))) else t
    decreases |a|, 0
  {
    var next := encode(d.content);
    StagesAppend(a[1..], b, encode, next);
    var t := Stages(a[1..], encode, next);
    if t.Done? {
      var u := Stages(b, encode, InputAfter(t.documents, encode, next));
      assert InputAfter([d] + t.documents, encode, content) == InputAfter(t.documents, encode, next);
      if u.Done? { assert [d] + (t.documents + u.documents) == ([d] + t.documents) + u.documents; }
    }
  }

  /** A pipeline in two non-empty halves is the second run on the output of the first. */
  lemma PipelineAppend(a: seq<Parser>, b: seq<Parser>, encode: Encoding, content: Bytes)
    requires a != [] && b != []
    ensures Parse(Pipeline(a + b), encode, content) ==
            match Parse(Pipeline(a), encode, content)
            case Parsed(d) =>
              (match Parse(Pipeline(b), encode, encode(d.content))
               case Parsed(e) => Parsed(Then(d, e))
               case o => o)
            case o => o
  {
    StagesAppend(a, b, encode, content);
    var t := Stages(a, encode, content);
    if t.Done? {
      var u := Stages(b, encode, encode(t.documents[|t.documents| - 1].content));
      if u.Done? { MergedAppend(t.documents, u.documents); }
    }
  }

  lemma SingleStage(p: Parser, encode: Encoding, content: Bytes)
    ensures Parse(Pipeline([p]), encode, content) == Parse(p, encode, content)
  {
    var o := Parse(p, encode, content);
    assert [p][1..] == [];
    if o.Parsed? {
      var ds := [o.document];
      assert Stages([p], encode, content) == Done(ds);
      assert ImagesOf(ds) == [o.document.images] && MetadataOf(ds) == [o.document.metadata];
      assert MergeAll([o.document.images][..0] ) == map[] && MergeAll([o.document.metadata][..0]) == map[];
      assert Merged(ds) == o.document;
    }
  }

  lemma SingleAttempt(p: Parser, encode: Encoding, content: Bytes)
    ensures FirstOf([p], encode, content) ==
            match Parse(p, encode, content)
            case Parsed(d) => Parsed(if IsValid(d) then d else EMPTY)
            case Raised(_) => Parsed(EMPTY)
            case Aborted => Aborted
  {
    assert [p][1..] == [];
  }

  /** Flattening keeps the outcome on every input: content, images, metadata, chunks and the
      exception that escapes. */
  lemma {:induction false} FlattenKeepsMeaning(p: Parser, encode: Encoding, content: Bytes)
    ensures Parse(Flatten(p), encode, content) == Parse(p, encode, content)
    decreases p, 1
  {
    match p
    case Leaf(_) =>
    case First(parts) => SpliceFirstKeeps(parts, encode, content);
    case Pipeline(parts) => SplicePipelineKeeps(parts, encode, content);
  }

  lemma {:induction false} SpliceFirstKeeps(parts: seq<Parser>, encode: Encoding, content: Bytes)
    ensures FirstOf(SpliceFirst(parts), encode, content) == FirstOf(parts, encode, content)
    decreases parts, 0
  {
    if parts != [] {
      var flat := Flatten(parts[0]);
      var piece := if flat.First? then flat.parts else [flat];
      FlattenKeepsMeaning(parts[0], encode, content);
      SpliceFirstKeeps(parts[1..], encode, content);
      FirstOfAppend(piece, SpliceFirst(parts[1..]), encode, content);
      SingleAttempt(flat, encode, content);
      assert FirstOf(piece, encode, content) == FirstOf([flat], encode, content);
    }
  }

  lemma {:induction false} SplicePipelineKeeps(parts: seq<Parser>, encode: Encoding, content: Bytes)
    ensures Parse(Pipeline(SplicePipeline(parts)), encode, content) == Parse(Pipeline(parts), encode, content)
    ensures (SplicePipeline(parts) == []) <==> (parts == [])
    decreases parts, 0
  {
    if parts != [] {
      var flat, rest := Flatten(parts[0]), parts[1..];
      var piece := if flat.Pipeline? && flat.parts != [] then flat.parts else [flat];
      FlattenKeepsMeaning(parts[0], encode, content);
      SingleStage(flat, encode, content);
      SingleStage(parts[0], encode, content);
      var o := Parse(parts[0], encode, content);
      assert parts == [parts[0]] + rest;
      if rest == [] {
        assert SplicePipeline(parts) == piece + [] == piece;
      } else {
        if o.Parsed? { SplicePipelineKeeps(rest, encode, encode(o.document.content)); }
        else { SplicePipelineKeeps(rest, encode, content); }
        PipelineAppend(piece, SplicePipeline(rest), encode, content);
        PipelineAppend([parts[0]], rest, encode, content);
      }
    }
  }

  // ---- Empty nested pipelines ----

  /** Splicing in a nested pipeline is right for every stage after it, every encoding and
      every input exactly when the nested pipeline is not empty. */
  lemma SplicingNeedsAStage(nested: seq<Parser>)
    ensures (forall next, encode, content ::
               Parse(Pipeline([Pipeline(nested)] + [next]), encode, content) == Parse(Pipeline(nested + [next]), encode, content))
       <==> nested != []
  {
    if nested != [] {
      forall next, encode, content
        ensures Parse(Pipeline([Pipeline(nested)] + [next]), encode, content) == Parse(Pipeline(nested + [next]), encode, content)
      {
        SingleStage(Pipeline(nested), encode, content);
        PipelineAppend([Pipeline(nested)], [next], encode, content);
        PipelineAppend(nested, [next], encode, content);
      }
    } else {
      EmptyPipelineForgetsInput();
    }
  }

  lemma EmptyPipelineForgetsInput()
    ensures exists next, encode, content ::
              Parse(Pipeline([Pipeline([])] + [next]), encode, content) != Parse(Pipeline([] + [next]), encode, content)
  {
    var next := Leaf(content => if content == [] then Aborted else Raised(""));
    var encode: Encoding := text => [];
    var content: Bytes := [0];
    SingleStage(Pipeline([]), encode, content);
    PipelineAppend([Pipeline([])], [next], encode, content);
    SingleStage(next, encode, []);
    SingleStage(next, encode, content);
    assert [] + [next] == [next];
    assert Parse(Pipeline([]), encode, content) == Parsed(EMPTY);
    assert Parse(Pipeline([Pipeline([])] + [next]), encode, content) == Aborted;
    assert Parse(Pipeline([] + [next]), encode, content) == Raised("");
  }

  // ---- First success spelled out ----

  /** An exception that is caught, or a document without text. */
  predicate PassedOver(o: Outcome) {
    o.Raised? || (o.Parsed? && o.document.content == "")
  }

  /** Part `k` is the first one that is not passed over. */
  ghost predicate FirstKept(parts: seq<Parser>, encode: Encoding, content: Bytes, k: nat) {
    && k < |parts| && !PassedOver(Parse(parts[k], encode, content))
    && forall j :: 0 <= j < k ==> PassedOver(Parse(parts[j], encode, content))
  }

  /** The outcome is that of the first part that neither raises an exception nor gives a
      document without text, and an empty document when there is none. */
  lemma {:induction false} FirstIsSpelledOut(parts: seq<Parser>, encode: Encoding, content: Bytes)
    ensures forall k: nat :: FirstKept(parts, encode, content, k) ==>
                               Parse(First(parts), encode, content) == Parse(parts[k], encode, content)
    ensures (forall j :: 0 <= j < |parts| ==> PassedOver(Parse(parts[j], encode, content))) ==>
              Parse(First(parts), encode, content) == Parsed(Document("", map[], map[], []))
    decreases |parts|
  {
    if parts != [] {
      var rest := parts[1..];
      FirstIsSpelledOut(rest, encode, content);
      FirstUnfolds(parts, encode, content);
      forall k: nat | FirstKept(parts, encode, content, k)
        ensures Parse(First(parts), encode, content) == Parse(parts[k], encode, content)
      {
        if k > 0 {
          assert forall j :: 0 <= j < k - 1 ==> rest[j] == parts[j + 1];
          assert FirstKept(rest, encode, content, k - 1);
        }
      }
      assert forall j :: 0 <= j < |rest| ==> rest[j] == parts[j + 1];
    }
  }

  lemma FirstUnfolds(parts: seq<Parser>, encode: Encoding, content: Bytes)
    requires parts != []
    ensures Parse(First(parts), encode, content) ==
            if PassedOver(Parse(parts[0], encode, content)) then Parse(First(parts[1..]), encode, content)
            else Parse(parts[0], encode, content)
  {
  }

  // ---- What flattening leaves ----

  /** No first-success parser directly in another one, and no pipeline with stages directly in
      a pipeline, at any depth. */
  ghost predicate Flat(p: Parser) {
    match p
    case Leaf(_) => true
    case First(parts) => forall q :: q in parts ==> Flat(q) && !q.First?
    case Pipeline(parts) => forall q :: q in parts ==> Flat(q) && !(q.Pipeline? && q.parts != [])
  }

  lemma {:induction false} FlattenIsFlat(p: Parser)
    ensures Flat(Flatten(p))
    decreases p, 1
  {
    match p
    case Leaf(_) =>
    case First(parts) => SplicedFirstIsFlat(parts);
    case Pipeline(parts) => SplicedPipelineIsFlat(parts);
  }

  lemma {:induction false} SplicedFirstIsFlat(parts: seq<Parser>)
    ensures forall q :: q in SpliceFirst(parts) ==> Flat(q) && !q.First?
    decreases parts, 0
  {
    if parts != [] {
      FlattenIsFlat(parts[0]);
      SplicedFirstIsFlat(parts[1..]);
    }
  }

  lemma {:induction false} SplicedPipelineIsFlat(parts: seq<Parser>)
    ensures forall q :: q in SplicePipeline(parts) ==> Flat(q) && !(q.Pipeline? && q.parts != [])
    decreases parts, 0
  {
    if parts != [] {
      FlattenIsFlat(parts[0]);
      SplicedPipelineIsFlat(parts[1..]);
    }
  }
}
