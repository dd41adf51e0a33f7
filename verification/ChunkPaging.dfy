/** The paging loop that lists the chunks of one document, against the servers it may meet. */
module ChunkPaging {
  import opened Numbers

  type Chunk = string

  /** One answer: a transport or parse error, or a page with the total the server reports. */
  datatype Response = Broken | Page(chunks: seq<Chunk>, total: int)

  /** What the server answers for page 1, 2, and so on. */
  type Server = nat -> Response

  datatype Listing = Error | Chunks(chunks: seq<Chunk>)

  const PAGE_SIZE := 100

  /** The chunks of pages 1 to n. */
  function Collected(server: Server, n: nat): seq<Chunk> {
    if n == 0 then [] else Collected(server, n - 1) + if server(n).Page? then server(n).chunks else []
  }

  /** The loop ends behind this page. */
  predicate Stops(server: Server, n: nat) {
    server(n).Page? && (server(n).chunks == [] || |Collected(server, n)| >= server(n).total)
  }

  /** The loop asks exactly for pages 1 to n. */
  ghost predicate Asks(server: Server, n: nat) {
    && 1 <= n && (server(n).Broken? || Stops(server, n))
    && forall k :: 1 <= k < n ==> server(k).Page? && !Stops(server, k)
  }

  /** `bound` is any number the reported totals never exceed; a 64-bit total always has one. */
  method ListChunks(server: Server, ghost bound: nat) returns (listing: Listing, requests: nat)
    requires forall p :: server(p).Page? ==> server(p).total <= bound
    ensures Asks(server, requests)
    ensures forall k :: 1 <= k < requests ==> server(k).Page? && server(k).chunks != [] && |Collected(server, k)| < server(k).total
    ensures requests >= 1 && (server(requests).Page? ==>
              server(requests).chunks == [] || |Collected(server, requests)| >= server(requests).total)
    ensures listing == if server(requests).Broken? then Error else Chunks(Collected(server, requests))
    ensures requests <= if bound < 1 then 1 else bound
  {
    var chunks: seq<Chunk> := [];
    var page := 1;
    while true
      invariant 1 <= page && chunks == Collected(server, page - 1)
      invariant forall k :: 1 <= k < page ==> server(k).Page? && !Stops(server, k)
      invariant page - 1 <= |chunks| && (page > 1 ==> |chunks| < bound)
      decreases bound - |chunks|
    {
      var response := server(page);
      if response.Broken? {
        return Error, page;
      }
      chunks := chunks + response.chunks;
      assert chunks == Collected(server, page);
      if |response.chunks| == 0 || |chunks| >= response.total {
        return Chunks(chunks), page;
      }
      page := page + 1;
    }
  }

  // ---- Servers that slice a list ----

  function Pages(n: nat): nat { (n + PAGE_SIZE - 1) / PAGE_SIZE }

  /** Slices a fixed list into pages and reports some total with each of them. */
  ghost predicate Slices(server: Server, all: seq<Chunk>, total: int) {
    forall p: nat :: 1 <= p ==>
                       server(p) == Page(all[Min((p - 1) * PAGE_SIZE, |all|)..Min(p * PAGE_SIZE, |all|)], total)
  }

  lemma {:induction false} SlicesCollect(server: Server, all: seq<Chunk>, total: int, n: nat)
    requires Slices(server, all, total)
    ensures Collected(server, n) == all[..Min(n * PAGE_SIZE, |all|)]
  {
    if n > 0 { SlicesCollect(server, all, total, n - 1); }
  }

  /** With the true total the listing is the whole list after max(1, ceil(n/100)) requests. */
  lemma TrueTotalListsAll(server: Server, all: seq<Chunk>, requests: nat)
    requires Slices(server, all, |all|) && Asks(server, requests)
    ensures Collected(server, requests) == all
    ensures requests == if all == [] then 1 else (|all| + 99) / 100
  {
    SlicesCollect(server, all, |all|, requests);
    SlicesCollect(server, all, |all|, requests - 1);
    if requests > 1 { assert !Stops(server, requests - 1); }
  }

  /** With any other reported total the listing is complete exactly when the list fits one
      page or the total exceeds what all pages but the last hold. */
  lemma ReportedTotalListsAllExactly(server: Server, all: seq<Chunk>, total: int, requests: nat)
    requires Slices(server, all, total) && Asks(server, requests)
    ensures Collected(server, requests) == all <==>
            |all| <= 100 || total > ((|all| + 99) / 100 - 1) * 100
  {
    SlicesCollect(server, all, total, requests);
    var last := Pages(|all|) - 1;
    assert Collected(server, requests) == all <==> requests * PAGE_SIZE >= |all|;
    if |all| > PAGE_SIZE {
      SlicesCollect(server, all, total, last);
      if requests > last { assert !Stops(server, last); }
      else { SlicesCollect(server, all, total, requests); }
    }
  }
}
