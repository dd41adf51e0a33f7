/** The three line-driven readers of server-sent events: two session readers that differ in
    when they dispatch a block, and the agent reader. */
module SseReaders {
  import opened Wrappers

  /** A decoded frame, as far as the readers look at it. */
  datatype Frame = Frame(isError: bool, done: bool, content: string)

  /** JSON decoding, and a callback that may depend on everything delivered so far. */
  datatype Handler = Handler(decode: string -> Option<Frame>, callback: seq<Frame> -> Option<string>)

  datatype Outcome = Completed | ParseFailed | CallbackFailed(error: string) | TerminalError(content: string) | ReadFailed

  /** The frames the callback was invoked with, in order, and how the call ended. */
  datatype Result = Result(delivered: seq<Frame>, outcome: Outcome)

  /** Handing payloads to the callback until the first one that ends the call. */
  function Deliver(h: Handler, payloads: seq<string>, before: seq<Frame>, readFails: bool): Result
    decreases |payloads|
  {
    if payloads == [] then Result(before, if readFails then ReadFailed else Completed)
    else
      match h.decode(payloads[0])
      case None => Result(before, ParseFailed)
      case Some(frame) =>
        var delivered := before + [frame];
        match h.callback(delivered)
        case Some(error) => Result(delivered, CallbackFailed(error))
        case None =>
          if frame.isError && frame.done then Result(delivered, TerminalError(frame.content))
          else Deliver(h, payloads[1..], delivered, readFails)
  }

  // ---- How a call ends, payload by payload ----

  /** The first `n` payloads, decoded; all of them decode. */
  ghost predicate Decoded(h: Handler, payloads: seq<string>, n: nat, frames: seq<Frame>) {
    n <= |payloads| && |frames| == n && forall k :: 0 <= k < n ==> h.decode(payloads[k]) == Some(frames[k])
  }

  /** Payload `k` lets the call go on. */
  ghost predicate LetsGoOn(h: Handler, frames: seq<Frame>, k: nat)
    requires k < |frames|
  {
    h.callback(frames[..k + 1]) == None && !(frames[k].isError && frames[k].done)
  }

  /** Payload `n` ends the call: it does not decode, or its frame was delivered and the callback
      fails on it or it is an error frame with `done`. */
  ghost predicate EndsCall(h: Handler, payloads: seq<string>, n: nat, frames: seq<Frame>, r: Result) {
    && n < |payloads|
    && match r.outcome
       case ParseFailed => Decoded(h, payloads, n, frames) && h.decode(payloads[n]) == None
       case CallbackFailed(error) => Decoded(h, payloads, n + 1, frames) && h.callback(frames) == Some(error)
       case TerminalError(content) =>
         && Decoded(h, payloads, n + 1, frames) && h.callback(frames) == None
         && frames[n].isError && frames[n].done && content == frames[n].content
       case _ => false
  }

  /** The frames of the payloads before the first one that ends the call are delivered, and that
      one says how it ends; without such a one it ends as the stream does. */
  ghost predicate HandedOver(h: Handler, payloads: seq<string>, readFails: bool, r: Result) {
    exists n: nat :: n <= |payloads| && HandedUpTo(h, payloads, readFails, r, n)
  }

  ghost predicate HandedUpTo(h: Handler, payloads: seq<string>, readFails: bool, r: Result, n: nat) {
    && n <= |r.delivered| && (forall k :: 0 <= k < n ==> LetsGoOn(h, r.delivered, k))
    && if n == |payloads| then Decoded(h, payloads, n, r.delivered) && r.outcome == (if readFails then ReadFailed else Completed)
       else EndsCall(h, payloads, n, r.delivered, r)
  }

  lemma {:induction false} DeliverHandsOver(h: Handler, payloads: seq<string>, k: nat, before: seq<Frame>, readFails: bool)
    requires k <= |payloads| && Decoded(h, payloads, k, before) && forall j :: 0 <= j < k ==> LetsGoOn(h, before, j)
    ensures HandedOver(h, payloads, readFails, Deliver(h, payloads[k..], before, readFails))
    decreases |payloads| - k
  {
    var r := Deliver(h, payloads[k..], before, readFails);
    if k == |payloads| {
      assert HandedUpTo(h, payloads, readFails, r, k);
    } else {
      assert payloads[k..][0] == payloads[k] && payloads[k..][1..] == payloads[k + 1..];
      var decoded := h.decode(payloads[k]);
      if decoded.Some? {
        var more := before + [decoded.value];
        assert more[..k + 1] == more;
        forall j | 0 <= j < k ensures LetsGoOn(h, more, j) {
          assert LetsGoOn(h, before, j) && more[..j + 1] == before[..j + 1];
        }
        if LetsGoOn(h, more, k) {
          DeliverHandsOver(h, payloads, k + 1, more, readFails);
        } else {
          assert HandedUpTo(h, payloads, readFails, r, k);
        }
      } else {
        assert HandedUpTo(h, payloads, readFails, r, k);
      }
    }
  }

  lemma DeliveryIsSpelledOut(h: Handler, payloads: seq<string>, readFails: bool)
    ensures HandedOver(h, payloads, readFails, Deliver(h, payloads, [], readFails))
  {
    assert payloads[0..] == payloads;
    DeliverHandsOver(h, payloads, 0, [], readFails);
  }

  // ---- Lines ----

  predicate IsEvent(line: string) { "event:" <= line }

  predicate IsData(line: string) { "data:" <= line }

  // ---- The session readers ----

  /** What a reader dispatches from line `i` on that keeps `read` of the last data line in its
      buffer and dispatches the buffer at a blank line when it is not empty. */
  function DataPayloads(read: string -> string, lines: seq<string>, i: nat, data: string): seq<string>
    requires i <= |lines|
    decreases |lines| - i
  {
    if i == |lines| then []
    else if lines[i] == "" then
      if data != "" then [data] + DataPayloads(read, lines, i + 1, "") else DataPayloads(read, lines, i + 1, "")
    else DataPayloads(read, lines, i + 1, if IsData(lines[i]) then read(lines[i][5..]) else data)
  }

  function Whole(s: string): string { s }

  /** What `KnowledgeQAStream` dispatches. */
  function KnowledgePayloads(lines: seq<string>, i: nat, data: string): seq<string>
    requires i <= |lines|
  {
    DataPayloads(Whole, lines, i, data)
  }

  /** What `ContinueStream` dispatches: only under the event type `message`; buffers that are
      not dispatched are carried on. */
  function ContinuePayloads(lines: seq<string>, i: nat, data: string, event: string): seq<string>
    requires i <= |lines|
    decreases |lines| - i
  {
    if i == |lines| then []
    else if lines[i] == "" then
      if data != "" && event == "message" then [data] + ContinuePayloads(lines, i + 1, "", "")
      else ContinuePayloads(lines, i + 1, data, event)
    else
      ContinuePayloads(lines, i + 1,
                       if IsData(lines[i]) then lines[i][5..] else data,
                       if IsEvent(lines[i]) then lines[i][6..] else event)
  }

  method KnowledgeQAStream(h: Handler, lines: seq<string>, readFails: bool) returns (r: Result)
    ensures r == Deliver(h, KnowledgePayloads(lines, 0, ""), [], readFails)
    ensures HandedOver(h, KnowledgePayloads(lines, 0, ""), readFails, r)
  {
    DeliveryIsSpelledOut(h, KnowledgePayloads(lines, 0, ""), readFails);
    var dataBuffer, eventType, messageCount := "", "", 0;
    var delivered: seq<Frame> := [];
    for i := 0 to |lines|
      invariant Deliver(h, KnowledgePayloads(lines, 0, ""), [], readFails) ==
                Deliver(h, KnowledgePayloads(lines, i, dataBuffer), delivered, readFails)
      invariant messageCount == |delivered|
    {
      var line := lines[i];
      if line == "" {
        if dataBuffer != "" {
          assert KnowledgePayloads(lines, i, dataBuffer)[1..] == KnowledgePayloads(lines, i + 1, "");
          var decoded := h.decode(dataBuffer);
          if decoded.None? {
            return Result(delivered, ParseFailed);
          }
          messageCount := messageCount + 1;
          delivered := delivered + [decoded.value];
          var failed := h.callback(delivered);
          if failed.Some? {
            return Result(delivered, CallbackFailed(failed.value));
          }
          if decoded.value.isError && decoded.value.done {
            return Result(delivered, TerminalError(decoded.value.content));
          }
          dataBuffer := "";
          eventType := "";
        }
        continue;
      }
      if IsEvent(line) {
        eventType := line[6..];
      }
      if IsData(line) {
        dataBuffer := line[5..];
      }
    }
    r := Result(delivered, if readFails then ReadFailed else Completed);
  }

  method ContinueStream(h: Handler, lines: seq<string>, readFails: bool) returns (r: Result)
    ensures r == Deliver(h, ContinuePayloads(lines, 0, "", ""), [], readFails)
    ensures HandedOver(h, ContinuePayloads(lines, 0, "", ""), readFails, r)
  {
    DeliveryIsSpelledOut(h, ContinuePayloads(lines, 0, "", ""), readFails);
    var dataBuffer, eventType := "", "";
    var delivered: seq<Frame> := [];
    for i := 0 to |lines|
      invariant Deliver(h, ContinuePayloads(lines, 0, "", ""), [], readFails) ==
                Deliver(h, ContinuePayloads(lines, i, dataBuffer, eventType), delivered, readFails)
    {
      var line := lines[i];
      if line == "" {
        if dataBuffer != "" && eventType == "message" {
          assert ContinuePayloads(lines, i, dataBuffer, eventType)[1..] == ContinuePayloads(lines, i + 1, "", "");
          var decoded := h.decode(dataBuffer);
          if decoded.None? {
            return Result(delivered, ParseFailed);
          }
          delivered := delivered + [decoded.value];
          var failed := h.callback(delivered);
          if failed.Some? {
            return Result(delivered, CallbackFailed(failed.value));
          }
          if decoded.value.isError && decoded.value.done {
            return Result(delivered, TerminalError(decoded.value.content));
          }
          dataBuffer := "";
          eventType := "";
        }
        continue;
      }
      if IsEvent(line) {
        eventType := line[6..];
      }
      if IsData(line) {
        dataBuffer := line[5..];
      }
    }
    r := Result(delivered, if readFails then ReadFailed else Completed);
  }

  /** No payload that missed its event type is overwritten by a later data line or left over
      at the end; `waiting` says that the buffered one has missed it. */
  predicate NothingLost(lines: seq<string>, i: nat, data: string, event: string, waiting: bool)
    requires i <= |lines|
    decreases |lines| - i
  {
    if i == |lines| then !waiting
    else if lines[i] == "" then
      if data != "" && event == "message" then NothingLost(lines, i + 1, "", "", false)
      else NothingLost(lines, i + 1, data, event, data != "")
    else
      && !(waiting && IsData(lines[i]))
      && NothingLost(lines, i + 1,
                     if IsData(lines[i]) then lines[i][5..] else data,
                     if IsEvent(lines[i]) then lines[i][6..] else event, waiting)
  }

  /** `ContinueStream` never dispatches more, and dispatches the same list exactly when
      nothing is lost on the way; a list of the same length is the same list. */
  lemma {:induction false} PayloadsAgree(lines: seq<string>, i: nat, data: string, event: string, waiting: bool)
    requires i <= |lines| && (waiting ==> data != "")
    ensures var all := (if waiting then [data] else []) + KnowledgePayloads(lines, i, if waiting then "" else data);
            var some := ContinuePayloads(lines, i, data, event);
            && |some| <= |all| && (some == all <==> NothingLost(lines, i, data, event, waiting))
            && (|some| == |all| ==> some == all)
    decreases |lines| - i
  {
    if i < |lines| {
      if lines[i] == "" {
        if data != "" && event == "message" {
          PayloadsAgree(lines, i + 1, "", "", false);
          var all', some' := KnowledgePayloads(lines, i + 1, ""), ContinuePayloads(lines, i + 1, "", "");
          assert ([data] + all')[1..] == [] + all' && ([data] + some')[1..] == some';
        } else {
          PayloadsAgree(lines, i + 1, data, event, data != "");
        }
      } else {
        var data' := if IsData(lines[i]) then lines[i][5..] else data;
        var event' := if IsEvent(lines[i]) then lines[i][6..] else event;
        PayloadsAgree(lines, i + 1, data', event', waiting && !IsData(lines[i]));
      }
    }
  }

  /** Every handler gets the same from both lists. */
  ghost predicate SameForAll(all: seq<string>, some: seq<string>) {
    forall h, readFails :: Deliver(h, all, [], readFails) == Deliver(h, some, [], readFails)
  }

  lemma EchoTellsApart(h: Handler, all: seq<string>, some: seq<string>)
    requires forall p :: h.decode(p) == Some(Frame(false, false, p))
    requires forall frames :: h.callback(frames) == None
    requires Deliver(h, all, [], false) == Deliver(h, some, [], false)
    ensures all == some
  {
    EchoDelivers(h, all, []);
    EchoDelivers(h, some, []);
    var delivered := Deliver(h, all, [], false).delivered;
    forall k | 0 <= k < |all| ensures all[k] == some[k] {
      assert all[k] == delivered[0 + k].content == some[k];
    }
  }

  lemma SameForAllExactly(all: seq<string>, some: seq<string>)
    ensures SameForAll(all, some) <==> all == some
  {
    var echo := Handler(payload => Some(Frame(false, false, payload)), frames => None);
    if Deliver(echo, all, [], false) == Deliver(echo, some, [], false) { EchoTellsApart(echo, all, some); }
  }

  /** Under every handler and with or without a read failure at the end, the two session
      readers make the same callbacks and end the same way exactly when nothing is lost. */
  lemma SessionReadersAgreeExactly(lines: seq<string>)
    ensures SameForAll(KnowledgePayloads(lines, 0, ""), ContinuePayloads(lines, 0, "", "")) <==> NothingLost(lines, 0, "", "", false)
  {
    var all, some := KnowledgePayloads(lines, 0, ""), ContinuePayloads(lines, 0, "", "");
    PayloadsAgree(lines, 0, "", "", false);
    assert [] + all == all;
    SameForAllExactly(all, some);
  }

  lemma {:induction false} EchoDelivers(h: Handler, payloads: seq<string>, before: seq<Frame>)
    requires forall p :: h.decode(p) == Some(Frame(false, false, p))
    requires forall frames :: h.callback(frames) == None
    ensures var r := Deliver(h, payloads, before, false);
            && r.outcome == Completed && |r.delivered| == |before| + |payloads|
            && r.delivered[..|before|] == before
            && forall k :: 0 <= k < |payloads| ==> r.delivered[|before| + k].content == payloads[k]
    decreases |payloads|
  {
    if payloads != [] {
      var next := before + [Frame(false, false, payloads[0])];
      EchoDelivers(h, payloads[1..], next);
      var r := Deliver(h, payloads, before, false);
      assert r.delivered[..|next|] == next && r.delivered[|before|] == next[|before|];
      assert r.delivered[..|before|] == r.delivered[..|next|][..|before|];
      forall k | 0 < k < |payloads| ensures r.delivered[|before| + k].content == payloads[k] {
        assert r.delivered[|next| + (k - 1)].content == payloads[1..][k - 1];
      }
    }
  }

  /** Every finished block that holds a data line has `event:message` as its last event
      line; `event` is the last one of the current block. */
  predicate MessageBlocks(lines: seq<string>, i: nat, sawData: bool, event: Option<string>)
    requires i <= |lines|
    decreases |lines| - i
  {
    if i == |lines| then true
    else if lines[i] == "" then (sawData ==> event == Some("message")) && MessageBlocks(lines, i + 1, false, None)
    else MessageBlocks(lines, i + 1, sawData || IsData(lines[i]), if IsEvent(lines[i]) then Some(lines[i][6..]) else event)
  }

  lemma {:induction false} MessageBlocksLoseNothing(lines: seq<string>, i: nat, data: string, event: string,
                                                    sawData: bool, last: Option<string>)
    requires i <= |lines| && MessageBlocks(lines, i, sawData, last)
    requires (data != "" ==> sawData) && (last.Some? ==> event == last.value)
    ensures NothingLost(lines, i, data, event, false)
    decreases |lines| - i
  {
    if i < |lines| {
      if lines[i] == "" {
        MessageBlocksLoseNothing(lines, i + 1, "", if data != "" then "" else event, false, None);
      } else {
        MessageBlocksLoseNothing(lines, i + 1,
                                 if IsData(lines[i]) then lines[i][5..] else data,
                                 if IsEvent(lines[i]) then lines[i][6..] else event,
                                 sawData || IsData(lines[i]),
                                 if IsEvent(lines[i]) then Some(lines[i][6..]) else last);
      }
    }
  }

  /** On streams of `message` blocks the two session readers are interchangeable. */
  lemma MessageStreamsAgree(h: Handler, lines: seq<string>, readFails: bool)
    requires MessageBlocks(lines, 0, false, None)
    ensures Deliver(h, KnowledgePayloads(lines, 0, ""), [], readFails)
         == Deliver(h, ContinuePayloads(lines, 0, "", ""), [], readFails)
  {
    MessageBlocksLoseNothing(lines, 0, "", "", false, None);
    SessionReadersAgreeExactly(lines);
  }

  // ---- The agent reader, from the bytes of the stream on ----

  /** `strings.TrimSpace`. */
  predicate IsSpace(c: char) {
    || '\t' <= c <= '\r' || c == ' ' || c == '\U{85}' || c == '\U{A0}' || c == '\U{1680}'
    || '\U{2000}' <= c <= '\U{200A}' || c == '\U{2028}' || c == '\U{2029}' || c == '\U{202F}'
    || c == '\U{205F}' || c == '\U{3000}'
  }

  function TrimSpace(s: string): string {
    if s == "" then s
    else if IsSpace(s[|s| - 1]) then TrimSpace(s[..|s| - 1])
    else if IsSpace(s[0]) then TrimSpace(s[1..])
    else s
  }

  /** `bufio.ScanLines`: one trailing carriage return is dropped, and a last line without a
      newline counts when it is not empty. */
  function DropCr(line: string): string {
    if line != "" && line[|line| - 1] == '\r' then line[..|line| - 1] else line
  }

  function ScanLines(text: string, i: nat, line: string): seq<string>
    requires i <= |text|
    decreases |text| - i
  {
    if i == |text| then (if line == "" then [] else [DropCr(line)])
    else if text[i] == '\n' then [DropCr(line)] + ScanLines(text, i + 1, "")
    else ScanLines(text, i + 1, line + [text[i]])
  }

  function Lines(text: string): seq<string> { ScanLines(text, 0, "") }

  /** What the agent reader dispatches. */
  function AgentPayloads(lines: seq<string>, i: nat, data: string): seq<string>
    requires i <= |lines|
  {
    DataPayloads(TrimSpace, lines, i, data)
  }

  lemma EventLineIsNoData(line: string)
    ensures IsEvent(line) ==> !IsData(line)
  {
    if IsEvent(line) { assert line[0] == "event:"[0] != "data:"[0]; }
  }

  method ProcessAgentSSEStream(h: Handler, lines: seq<string>, readFails: bool) returns (r: Result)
    ensures r == Deliver(h, AgentPayloads(lines, 0, ""), [], readFails)
    ensures HandedOver(h, AgentPayloads(lines, 0, ""), readFails, r)
  {
    DeliveryIsSpelledOut(h, AgentPayloads(lines, 0, ""), readFails);
    var dataBuffer := "";
    var delivered: seq<Frame> := [];
    for i := 0 to |lines|
      invariant Deliver(h, AgentPayloads(lines, 0, ""), [], readFails) ==
                Deliver(h, AgentPayloads(lines, i, dataBuffer), delivered, readFails)
    {
      var line := lines[i];
      if line == "" {
        if dataBuffer != "" {
          assert AgentPayloads(lines, i, dataBuffer)[1..] == AgentPayloads(lines, i + 1, "");
          var decoded := h.decode(dataBuffer);
          if decoded.None? {
            return Result(delivered, ParseFailed);
          }
          delivered := delivered + [decoded.value];
          var failed := h.callback(delivered);
          if failed.Some? {
            return Result(delivered, CallbackFailed(failed.value));
          }
          if decoded.value.isError && decoded.value.done {
            return Result(delivered, TerminalError(decoded.value.content));
          }
          dataBuffer := "";
        }
        continue;
      }
      EventLineIsNoData(line);
      if IsEvent(line) {
        continue;
      }
      if IsData(line) {
        dataBuffer := TrimSpace(line[5..]);
      }
    }
    r := Result(delivered, if readFails then ReadFailed else Completed);
  }

  // ---- Printed frames ----

  /** Optional event lines, then one data line. */
  datatype Block = Block(events: seq<string>, data: string)

  predicate OneLine(s: string) { '\n' !in s }

  predicate Printable(b: Block) {
    (forall e :: e in b.events ==> OneLine(e)) && OneLine(b.data) && TrimSpace(b.data) != ""
  }

  function EventsText(events: seq<string>): string {
    if events == [] then "" else "event:" + events[0] + "\n" + EventsText(events[1..])
  }

  function BlockText(b: Block): string {
    EventsText(b.events) + ("data:" + b.data + "\n" + "\n")
  }

  function StreamText(blocks: seq<Block>): string {
    if blocks == [] then "" else BlockText(blocks[0]) + StreamText(blocks[1..])
  }

  function Payloads(blocks: seq<Block>): seq<string> {
    if blocks == [] then [] else [TrimSpace(blocks[0].data)] + Payloads(blocks[1..])
  }

  /** A stream after which a reader stands at the start of a line with an empty buffer. */
  predicate Complete(text: string) {
    text == "" || (text[|text| - 1] == '\n' && Lines(text) != [] && Lines(text)[|Lines(text)| - 1] == "")
  }

  lemma {:induction false} ScanShift(front: string, text: string, i: nat, line: string)
    requires i <= |text|
    ensures ScanLines(front + text, |front| + i, line) == ScanLines(text, i, line)
    decreases |text| - i
  {
    if i < |text| {
      assert (front + text)[|front| + i] == text[i];
      ScanShift(front, text, i + 1, if text[i] == '\n' then "" else line + [text[i]]);
    }
  }

  lemma {:induction false} ScanWithin(line: string, rest: string, i: nat)
    requires OneLine(line) && i <= |line|
    ensures ScanLines(line + "\n" + rest, i, line[..i]) == [DropCr(line)] + Lines(rest)
    decreases |line| - i
  {
    var text := line + "\n" + rest;
    if i == |line| {
      assert text[i] == '\n' && line[..i] == line;
      assert text == (line + "\n") + rest;
      ScanShift(line + "\n", rest, 0, "");
    } else {
      assert text[i] == line[i] && line[i] in line;
      assert line[..i] + [line[i]] == line[..i + 1];
      ScanWithin(line, rest, i + 1);
    }
  }

  lemma LinesOfFirst(line: string, rest: string)
    requires OneLine(line)
    ensures Lines(line + "\n" + rest) == [DropCr(line)] + Lines(rest)
  {
    ScanWithin(line, rest, 0);
    assert line[..0] == "";
  }

  lemma {:induction false} PayloadsShift(front: seq<string>, lines: seq<string>, i: nat, data: string)
    requires i <= |lines|
    ensures AgentPayloads(front + lines, |front| + i, data) == AgentPayloads(lines, i, data)
    decreases |lines| - i
  {
    if i < |lines| {
      assert (front + lines)[|front| + i] == lines[i];
      PayloadsShift(front, lines, i + 1,
                    if lines[i] == "" then "" else if IsData(lines[i]) then TrimSpace(lines[i][5..]) else data);
    }
  }

  lemma PayloadsOfFirst(line: string, rest: seq<string>, data: string)
    ensures AgentPayloads([line] + rest, 0, data) ==
            if line == "" then (if data != "" then [data] else []) + AgentPayloads(rest, 0, "")
            else AgentPayloads(rest, 0, if IsData(line) then TrimSpace(line[5..]) else data)
  {
    PayloadsShift([line], rest, 0, if line == "" then "" else if IsData(line) then TrimSpace(line[5..]) else data);
  }

  lemma {:induction false} EventsAreSkipped(events: seq<string>, rest: string, data: string)
    requires forall e :: e in events ==> OneLine(e)
    ensures AgentPayloads(Lines(EventsText(events) + rest), 0, data) == AgentPayloads(Lines(rest), 0, data)
  {
    if events == [] {
      assert EventsText(events) + rest == rest;
    } else {
      var line, more := "event:" + events[0], EventsText(events[1..]) + rest;
      assert EventsText(events) + rest == line + "\n" + more;
      assert events[0] in events;
      LinesOfFirst(line, more);
      assert DropCr(line)[..6] == "event:";
      EventLineIsNoData(DropCr(line));
      PayloadsOfFirst(DropCr(line), Lines(more), data);
      EventsAreSkipped(events[1..], rest, data);
    }
  }

  lemma DataLineTrims(data: string)
    requires TrimSpace(data) != ""
    ensures var line := DropCr("data:" + data);
            line != "" && IsData(line) && TrimSpace(line[5..]) == TrimSpace(data)
  {
    var line := "data:" + data;
    assert line[5..] == data && line[..5] == "data:";
    if data != "" && data[|data| - 1] == '\r' {
      assert DropCr(line) == "data:" + data[..|data| - 1];
      assert DropCr(line)[5..] == data[..|data| - 1];
    } else {
      assert DropCr(line) == line;
    }
  }

  lemma BlockIsDelivered(b: Block, rest: string)
    requires Printable(b)
    ensures AgentPayloads(Lines(BlockText(b) + rest), 0, "") == [TrimSpace(b.data)] + AgentPayloads(Lines(rest), 0, "")
  {
    var line := "data:" + b.data;
    var tail := "" + "\n" + rest;
    assert BlockText(b) + rest == EventsText(b.events) + (line + "\n" + tail);
    EventsAreSkipped(b.events, line + "\n" + tail, "");
    LinesOfFirst(line, tail);
    LinesOfFirst("", rest);
    DataLineTrims(b.data);
    PayloadsOfFirst(DropCr(line), Lines(tail), "");
    PayloadsOfFirst("", Lines(rest), TrimSpace(b.data));
  }

  lemma {:induction false} StreamIsDelivered(blocks: seq<Block>, rest: string)
    requires forall b :: b in blocks ==> Printable(b)
    ensures AgentPayloads(Lines(StreamText(blocks) + rest), 0, "") == Payloads(blocks) + AgentPayloads(Lines(rest), 0, "")
  {
    if blocks == [] {
      assert StreamText(blocks) + rest == rest;
    } else {
      var more := StreamText(blocks[1..]) + rest;
      assert StreamText(blocks) + rest == BlockText(blocks[0]) + more;
      assert blocks[0] in blocks;
      BlockIsDelivered(blocks[0], more);
      StreamIsDelivered(blocks[1..], rest);
    }
  }

  lemma {:induction false} NoBlankNoPayload(lines: seq<string>, i: nat, data: string)
    requires i <= |lines| && "" !in lines
    ensures AgentPayloads(lines, i, data) == []
    decreases |lines| - i
  {
    if i < |lines| {
      assert lines[i] in lines;
      NoBlankNoPayload(lines, i + 1, if IsData(lines[i]) then TrimSpace(lines[i][5..]) else data);
    }
  }

  /** The agent reader hands over exactly the trimmed payloads of the printed blocks, in
      order, up to the first one that ends the call; a last block that lost its blank line
      is dropped. */
  lemma PrintedStreamIsRead(h: Handler, blocks: seq<Block>, unfinished: string, readFails: bool)
    requires forall b :: b in blocks ==> Printable(b)
    requires "" !in Lines(unfinished)
    ensures Deliver(h, AgentPayloads(Lines(StreamText(blocks) + unfinished), 0, ""), [], readFails)
         == Deliver(h, Payloads(blocks), [], readFails)
  {
    StreamIsDelivered(blocks, unfinished);
    NoBlankNoPayload(Lines(unfinished), 0, "");
    assert Payloads(blocks) + [] == Payloads(blocks);
  }

  // ---- Streams one after the other ----

  lemma {:induction false} DeliverInTurn(h: Handler, first: seq<string>, second: seq<string>, before: seq<Frame>, readFails: bool)
    ensures Deliver(h, first + second, before, readFails) ==
            var r := Deliver(h, first, before, false);
            if r.outcome == Completed then Deliver(h, second, r.delivered, readFails) else r
    decreases |first|
  {
    if first == [] {
      assert first + second == second;
    } else {
      assert (first + second)[1..] == first[1..] + second;
      var decoded := h.decode(first[0]);
      if decoded.Some? { DeliverInTurn(h, first[1..], second, before + [decoded.value], readFails); }
    }
  }

  lemma {:induction false} ScanJoin(a: string, b: string, i: nat, line: string)
    requires i <= |a| && (if i == |a| then line == "" else a[|a| - 1] == '\n')
    ensures ScanLines(a + b, i, line) == ScanLines(a, i, line) + Lines(b)
    decreases |a| - i
  {
    if i == |a| {
      ScanShift(a, b, 0, "");
    } else {
      assert (a + b)[i] == a[i];
      ScanJoin(a, b, i + 1, if a[i] == '\n' then "" else line + [a[i]]);
      if a[i] == '\n' { ConsSum(DropCr(line), ScanLines(a, i + 1, ""), Lines(b)); }
    }
  }

  lemma ConsSum(x: string, xs: seq<string>, ys: seq<string>)
    ensures [x] + (xs + ys) == ([x] + xs) + ys
  {
  }

  lemma {:induction false} PayloadsJoin(a: seq<string>, b: seq<string>, i: nat, data: string)
    requires i <= |a| && (if i == |a| then data == "" else a[|a| - 1] == "")
    ensures AgentPayloads(a + b, i, data) == AgentPayloads(a, i, data) + AgentPayloads(b, 0, "")
    decreases |a| - i
  {
    if i == |a| {
      PayloadsShift(a, b, 0, "");
    } else {
      assert (a + b)[i] == a[i];
      PayloadsJoin(a, b, i + 1, if a[i] == "" then "" else if IsData(a[i]) then TrimSpace(a[i][5..]) else data);
    }
  }

  /** Reading a complete stream with another behind it is reading one, then the other. */
  lemma ConcatenationIsReadInTurn(h: Handler, a: string, b: string, readFails: bool)
    requires Complete(a)
    ensures Deliver(h, AgentPayloads(Lines(a + b), 0, ""), [], readFails) ==
            var r := Deliver(h, AgentPayloads(Lines(a), 0, ""), [], false);
            if r.outcome == Completed then Deliver(h, AgentPayloads(Lines(b), 0, ""), r.delivered, readFails) else r
  {
    ScanJoin(a, b, 0, "");
    PayloadsJoin(Lines(a), Lines(b), 0, "");
    DeliverInTurn(h, AgentPayloads(Lines(a), 0, ""), AgentPayloads(Lines(b), 0, ""), [], readFails);
  }

  // ---- The dispatch rule of section 9.2.6 of the WHATWG HTML Standard ----

  /** A dispatched event with its type. */
  datatype Event = Event(kind: string, data: string)

  /** Where the first colon of the line is, or the length of the line. */
  function Colon(line: string): (n: nat)
    ensures n <= |line| && (n < |line| ==> line[n] == ':')
    ensures forall k :: 0 <= k < n ==> line[k] != ':'
  {
    if line == "" || line[0] == ':' then 0 else 1 + Colon(line[1..])
  }

  /** The field a line sets; a comment has the empty name. */
  function Field(line: string): string { line[..Colon(line)] }

  function Unspaced(s: string): string {
    if s != "" && s[0] == ' ' then s[1..] else s
  }

  /** What stands behind the colon, less one space. */
  function Value(line: string): string {
    if Colon(line) < |line| then Unspaced(line[Colon(line) + 1..]) else ""
  }

  /** Every data line adds its value and a newline; a blank line dispatches the data less its
      last newline if there is any, and clears both buffers; what no blank line ends is
      dropped. */
  function RuleEvents(lines: seq<string>, i: nat, data: string, kind: string): seq<Event>
    requires i <= |lines|
    decreases |lines| - i
  {
    if i == |lines| then []
    else if lines[i] == "" then
      (if data == "" then [] else [Event(if kind == "" then "message" else kind, data[..|data| - 1])])
      + RuleEvents(lines, i + 1, "", "")
    else
      RuleEvents(lines, i + 1,
                 if Field(lines[i]) == "data" then data + Value(lines[i]) + "\n" else data,
                 if Field(lines[i]) == "event" then Value(lines[i]) else kind)
  }

  function DataOf(events: seq<Event>): seq<string> {
    seq(|events|, k requires 0 <= k < |events| => events[k].data)
  }

  /** Every finished block has one line for the data field at most, and `plain` holds of it;
      `seen` and `ok` say whether the current block has one and is of this form. */
  predicate PlainBlocks(plain: string -> bool, lines: seq<string>, i: nat, seen: bool, ok: bool)
    requires i <= |lines|
    decreases |lines| - i
  {
    if i == |lines| then true
    else if lines[i] == "" then ok && PlainBlocks(plain, lines, i + 1, false, true)
    else if Field(lines[i]) == "data" then PlainBlocks(plain, lines, i + 1, true, !seen && plain(lines[i]))
    else PlainBlocks(plain, lines, i + 1, seen, ok)
  }

  /** A data line that a reader keeping `read` of it takes as the rule does. */
  predicate Kept(read: string -> string, line: string) {
    IsData(line) && read(line[5..]) != "" && read(line[5..]) == Value(line)
  }

  ghost predicate Reads(read: string -> string, plain: string -> bool) {
    && (forall s :: OneLine(s) ==> OneLine(read(s)))
    && (forall line :: OneLine(line) && Field(line) == "data" ==> (plain(line) <==> Kept(read, line)))
  }

  /** The buffers of a reader and of the rule within a block. */
  predicate SideBySide(buffer: string, data: string, seen: bool, ok: bool) {
    && OneLine(buffer) && (!seen ==> ok && buffer == data == "")
    && (seen ==> data != "" && data[|data| - 1] == '\n' && (ok <==> buffer != "" && data == buffer + "\n"))
  }

  /** The word of a line that begins with `data`. */
  predicate SpellsData(line: string) {
    |line| >= 4 && line[0] == 'd' && line[1] == 'a' && line[2] == 't' && line[3] == 'a'
  }

  lemma DataLineSpelled(line: string)
    ensures IsData(line) <==> |line| > 4 && SpellsData(line) && line[4] == ':'
  {
    if |line| > 4 && SpellsData(line) && line[4] == ':' { assert line[..5] == "data:"; }
  }

  lemma DataFieldSpelled(line: string)
    ensures Field(line) == "data" <==> SpellsData(line) && Colon(line) == 4
  {
    if SpellsData(line) && Colon(line) == 4 { assert line[..4] == "data"; }
    if Field(line) == "data" { assert forall k :: 0 <= k < 4 ==> line[k] == Field(line)[k]; }
  }

  lemma DataFieldLine(line: string)
    ensures IsData(line) <==> Field(line) == "data" && Colon(line) < |line|
    ensures IsData(line) ==> Value(line) == Unspaced(line[5..])
  {
    DataLineSpelled(line);
    DataFieldSpelled(line);
  }

  lemma DataLineSideBySide(read: string -> string, plain: string -> bool, line: string, buffer: string, data: string, seen: bool, ok: bool)
    requires Reads(read, plain) && OneLine(line) && Field(line) == "data" && SideBySide(buffer, data, seen, ok)
    ensures SideBySide(if IsData(line) then read(line[5..]) else buffer, data + Value(line) + "\n", true, !seen && plain(line))
  {
    var buffer' := if IsData(line) then read(line[5..]) else buffer;
    assert IsData(line) ==> OneLine(line[5..]);
    if seen {
      var sum := data + Value(line);
      assert sum[|data| - 1] == '\n';
      assert (sum + "\n")[..|sum|] == sum && (buffer' + "\n")[..|buffer'|] == buffer';
    } else {
      assert data + Value(line) + "\n" == Value(line) + "\n";
      if Value(line) + "\n" == buffer' + "\n" { assert Value(line) == (buffer' + "\n")[..|buffer'|] == buffer'; }
    }
  }

  lemma BlankSideBySide(buffer: string, data: string, seen: bool, ok: bool, payloads: seq<string>, events: seq<Event>, kind: string)
    requires SideBySide(buffer, data, seen, ok) && |payloads| <= |events|
    ensures var handed := if buffer != "" then [buffer] + payloads else payloads;
            var due := (if data == "" then [] else [Event(kind, data[..|data| - 1])]) + events;
            |handed| <= |due| && (handed == DataOf(due) <==> ok && payloads == DataOf(events))
  {
    var handed := if buffer != "" then [buffer] + payloads else payloads;
    var due := (if data == "" then [] else [Event(kind, data[..|data| - 1])]) + events;
    if seen {
      assert DataOf(due) == [data[..|data| - 1]] + DataOf(events);
      assert ok ==> data[..|data| - 1] == buffer;
      assert data == data[..|data| - 1] + "\n";
      if handed == DataOf(due) {
        assert handed[0] == DataOf(due)[0] && handed[1..] == payloads && DataOf(due)[1..] == DataOf(events);
      }
    } else {
      assert due == events;
    }
  }

  /** From line `i` on the reader hands over what the rule dispatches exactly on plain blocks. */
  ghost predicate FollowsFrom(read: string -> string, plain: string -> bool, lines: seq<string>, i: nat,
                              buffer: string, data: string, kind: string, seen: bool, ok: bool)
    requires i <= |lines|
  {
    var payloads, events := DataPayloads(read, lines, i, buffer), RuleEvents(lines, i, data, kind);
    |payloads| <= |events| && (payloads == DataOf(events) <==> PlainBlocks(plain, lines, i, seen, ok))
  }

  lemma BlankFollows(read: string -> string, plain: string -> bool, lines: seq<string>, i: nat,
                     buffer: string, data: string, kind: string, seen: bool, ok: bool)
    requires i < |lines| && lines[i] == "" && SideBySide(buffer, data, seen, ok)
    requires FollowsFrom(read, plain, lines, i + 1, "", "", "", false, true)
    ensures FollowsFrom(read, plain, lines, i, buffer, data, kind, seen, ok)
  {
    BlankSideBySide(buffer, data, seen, ok, DataPayloads(read, lines, i + 1, ""), RuleEvents(lines, i + 1, "", ""),
                    if kind == "" then "message" else kind);
  }

  lemma {:induction false} ReaderAndRule(read: string -> string, plain: string -> bool, lines: seq<string>, i: nat,
                                         buffer: string, data: string, kind: string, seen: bool, ok: bool)
    requires i <= |lines| && Reads(read, plain) && SideBySide(buffer, data, seen, ok)
    requires forall line :: line in lines ==> OneLine(line)
    ensures FollowsFrom(read, plain, lines, i, buffer, data, kind, seen, ok)
    decreases |lines| - i
  {
    if i < |lines| {
      assert lines[i] in lines;
      if lines[i] == "" {
        ReaderAndRule(read, plain, lines, i + 1, "", "", "", false, true);
        BlankFollows(read, plain, lines, i, buffer, data, kind, seen, ok);
      } else {
        LineFollows(read, plain, lines, i, buffer, data, kind, seen, ok);
      }
    }
  }

  lemma {:induction false} LineFollows(read: string -> string, plain: string -> bool, lines: seq<string>, i: nat,
                                       buffer: string, data: string, kind: string, seen: bool, ok: bool)
    requires i < |lines| && lines[i] != "" && OneLine(lines[i])
    requires Reads(read, plain) && SideBySide(buffer, data, seen, ok)
    requires forall line :: line in lines ==> OneLine(line)
    ensures FollowsFrom(read, plain, lines, i, buffer, data, kind, seen, ok)
    decreases |lines| - i, 0
  {
    var kind' := if Field(lines[i]) == "event" then Value(lines[i]) else kind;
    DataFieldLine(lines[i]);
    if Field(lines[i]) == "data" {
      DataLineSideBySide(read, plain, lines[i], buffer, data, seen, ok);
      ReaderAndRule(read, plain, lines, i + 1, if IsData(lines[i]) then read(lines[i][5..]) else buffer,
                    data + Value(lines[i]) + "\n", kind', true, !seen && plain(lines[i]));
    } else {
      ReaderAndRule(read, plain, lines, i + 1, buffer, data, kind', seen, ok);
    }
  }

  /** A data line with something behind the colon that is no space. */
  predicate WholeLine(line: string) {
    IsData(line) && |line| > 5 && line[5] != ' '
  }

  const SPACES := "\t\n\U{0B}\U{0C}\r \U{85}\U{A0}\U{1680}\U{2000}\U{2001}\U{2002}\U{2003}\U{2004}\U{2005}\U{2006}"
    + "\U{2007}\U{2008}\U{2009}\U{200A}\U{2028}\U{2029}\U{202F}\U{205F}\U{3000}"

  /** The characters `strings.TrimSpace` takes away. */
  lemma SpacesExactly(c: char)
    ensures IsSpace(c) <==> c in SPACES
  {
  }

  /** A data line whose value has no white space at its ends. */
  predicate TrimmedLine(line: string) {
    var value := Value(line);
    IsData(line) && value != "" && value[0] !in SPACES && value[|value| - 1] !in SPACES
  }

  lemma {:induction false} TrimSpaceWithin(s: string)
    ensures forall c :: c in TrimSpace(s) ==> c in s
    decreases |s|
  {
    if s != "" {
      if IsSpace(s[|s| - 1]) { TrimSpaceWithin(s[..|s| - 1]); } else if IsSpace(s[0]) { TrimSpaceWithin(s[1..]); }
    }
  }

  lemma {:induction false} TrimSpaceEdges(s: string)
    ensures TrimSpace(s) != "" ==> !IsSpace(TrimSpace(s)[0]) && !IsSpace(TrimSpace(s)[|TrimSpace(s)| - 1])
    decreases |s|
  {
    if s != "" {
      if IsSpace(s[|s| - 1]) { TrimSpaceEdges(s[..|s| - 1]); } else if IsSpace(s[0]) { TrimSpaceEdges(s[1..]); }
    }
  }

  lemma TrimSpaceEnds(s: string)
    ensures OneLine(s) ==> OneLine(TrimSpace(s))
    ensures TrimSpace(s) != "" ==> !IsSpace(TrimSpace(s)[0]) && !IsSpace(TrimSpace(s)[|TrimSpace(s)| - 1])
  {
    TrimSpaceWithin(s);
    TrimSpaceEdges(s);
  }

  lemma UnspacedTrims(s: string)
    requires Unspaced(s) != "" && !IsSpace(Unspaced(s)[0]) && !IsSpace(Unspaced(s)[|Unspaced(s)| - 1])
    ensures TrimSpace(s) == Unspaced(s)
  {
    if s != Unspaced(s) {
      assert s[|s| - 1] == s[1..][|s| - 2];
      assert TrimSpace(s) == TrimSpace(s[1..]);
    }
  }

  lemma TrimmedLineIsKept(line: string)
    requires Field(line) == "data"
    ensures TrimmedLine(line) <==> Kept(TrimSpace, line)
  {
    DataFieldLine(line);
    var value := Value(line);
    if value != "" {
      SpacesExactly(value[0]);
      SpacesExactly(value[|value| - 1]);
    }
    if TrimmedLine(line) { UnspacedTrims(line[5..]); }
    if IsData(line) { TrimSpaceEnds(line[5..]); }
  }

  lemma WholeLineIsKept(line: string)
    requires Field(line) == "data"
    ensures WholeLine(line) <==> Kept(Whole, line)
  {
    DataFieldLine(line);
  }

  /** `KnowledgeQAStream` hands over the data of all events of the rule exactly when every
      finished block with data has one data line and no space behind its colon. */
  lemma KnowledgeFollowsRuleExactly(lines: seq<string>)
    requires forall line :: line in lines ==> OneLine(line)
    ensures KnowledgePayloads(lines, 0, "") == DataOf(RuleEvents(lines, 0, "", "")) <==> PlainBlocks(WholeLine, lines, 0, false, true)
  {
    forall line | Field(line) == "data" ensures WholeLine(line) <==> Kept(Whole, line) { WholeLineIsKept(line); }
    ReaderAndRule(Whole, WholeLine, lines, 0, "", "", "", false, true);
  }

  /** The agent reader does so exactly when the value of that line has no white space at
      its ends. */
  lemma AgentFollowsRuleExactly(lines: seq<string>)
    requires forall line :: line in lines ==> OneLine(line)
    ensures AgentPayloads(lines, 0, "") == DataOf(RuleEvents(lines, 0, "", "")) <==> PlainBlocks(TrimmedLine, lines, 0, false, true)
  {
    forall s ensures OneLine(s) ==> OneLine(TrimSpace(s)) { TrimSpaceEnds(s); }
    forall line | Field(line) == "data" ensures TrimmedLine(line) <==> Kept(TrimSpace, line) { TrimmedLineIsKept(line); }
    ReaderAndRule(TrimSpace, TrimmedLine, lines, 0, "", "", "", false, true);
  }

  /** `ContinueStream` does so exactly when moreover no payload misses its event type. */
  lemma ContinueFollowsRuleExactly(lines: seq<string>)
    requires forall line :: line in lines ==> OneLine(line)
    ensures ContinuePayloads(lines, 0, "", "") == DataOf(RuleEvents(lines, 0, "", ""))
       <==> PlainBlocks(WholeLine, lines, 0, false, true) && NothingLost(lines, 0, "", "", false)
  {
    var all := KnowledgePayloads(lines, 0, "");
    PayloadsAgree(lines, 0, "", "", false);
    assert [] + all == all;
    forall line | Field(line) == "data" ensures WholeLine(line) <==> Kept(Whole, line) { WholeLineIsKept(line); }
    ReaderAndRule(Whole, WholeLine, lines, 0, "", "", "", false, true);
  }

  lemma OneDataLine(read: string -> string, line: string)
    requires IsData(line) && read(line[5..]) != ""
    ensures RuleEvents([line, ""], 0, "", "") == [Event("message", Value(line))]
    ensures DataPayloads(read, [line, ""], 0, "") == [read(line[5..])]
  {
    var lines, data := [line, ""], "" + Value(line) + "\n";
    DataFieldLine(line);
    assert data[..|data| - 1] == Value(line);
    assert RuleEvents(lines, 0, "", "") == RuleEvents(lines, 1, data, "");
    assert DataPayloads(read, lines, 0, "") == DataPayloads(read, lines, 1, read(line[5..]));
  }

  /** A block without an event line is an event of type `message` under the rule, reaches the
      callback of `KnowledgeQAStream` and is lost in `ContinueStream`. */
  lemma DefaultTypeExample()
    ensures RuleEvents(["data:x", ""], 0, "", "") == [Event("message", "x")]
    ensures KnowledgePayloads(["data:x", ""], 0, "") == ["x"] && ContinuePayloads(["data:x", ""], 0, "", "") == []
    ensures !NothingLost(["data:x", ""], 0, "", "", false)
  {
    var lines := ["data:x", ""];
    assert lines[0][5..] == "x";
    DataFieldLine(lines[0]);
    OneDataLine(Whole, lines[0]);
    assert ContinuePayloads(lines, 0, "", "") == ContinuePayloads(lines, 1, "x", "");
    assert NothingLost(lines, 0, "", "", false) == NothingLost(lines, 1, "x", "", false);
  }

  /** The space behind the colon that the rule drops is handed over by `KnowledgeQAStream`. */
  lemma SpacedValueExample()
    ensures RuleEvents(["data: x", ""], 0, "", "") == [Event("message", "x")]
    ensures KnowledgePayloads(["data: x", ""], 0, "") == [" x"]
  {
    var line := "data: x";
    assert line[5..] == " x" && " x"[1..] == "x";
    DataFieldLine(line);
    OneDataLine(Whole, line);
  }

  // ---- Lines and event types ----

  /** A text is cut behind every newline; a carriage return before it goes, and what no newline
      ends is a line when it is not empty. */
  lemma LinesAreCut(line: string, rest: string)
    requires OneLine(line)
    ensures Lines("") == []
    ensures (line == "" || line[|line| - 1] != '\r') ==> Lines(line + "\n" + rest) == Lines(line + "\r" + "\n" + rest) == [line] + Lines(rest)
    ensures line != "" && line[|line| - 1] != '\r' ==> Lines(line) == Lines(line + "\r") == [line]
  {
    LinesOfFirst(line, rest);
    LinesOfFirst(line + "\r", rest);
    assert DropCr(line + "\r") == line;
    LastLine(line, 0);
    LastLine(line + "\r", 0);
    assert line[..0] == "" && (line + "\r")[..0] == "";
  }

  lemma {:induction false} LastLine(line: string, i: nat)
    requires OneLine(line) && i <= |line|
    ensures ScanLines(line, i, line[..i]) == if line == "" then [] else [DropCr(line)]
    decreases |line| - i
  {
    if i < |line| {
      assert line[i] in line && line[..i] + [line[i]] == line[..i + 1];
      LastLine(line, i + 1);
    } else {
      assert line[..i] == line;
    }
  }

  predicate SpellsEvent(line: string) {
    |line| >= 5 && line[0] == 'e' && line[1] == 'v' && line[2] == 'e' && line[3] == 'n' && line[4] == 't'
  }

  lemma EventLineSpelled(line: string)
    ensures IsEvent(line) <==> |line| > 5 && SpellsEvent(line) && line[5] == ':'
  {
    if |line| > 5 && SpellsEvent(line) && line[5] == ':' { assert line[..6] == "event:"; }
  }

  lemma EventFieldSpelled(line: string)
    ensures Field(line) == "event" <==> SpellsEvent(line) && Colon(line) == 5
  {
    if SpellsEvent(line) && Colon(line) == 5 { assert line[..5] == "event"; }
    if Field(line) == "event" { assert forall k :: 0 <= k < 5 ==> line[k] == Field(line)[k]; }
  }

  /** The lines that set an event type. */
  lemma EventFieldLine(line: string)
    ensures IsEvent(line) <==> Field(line) == "event" && Colon(line) < |line|
    ensures IsEvent(line) ==> Value(line) == Unspaced(line[6..])
  {
    EventLineSpelled(line);
    EventFieldSpelled(line);
  }

  /** Every finished block is empty of data and type, or has one plain data line and event
      lines with a type that no space precedes; `seen` and `typed` say what the current block
      has so far. */
  predicate TypedBlocks(lines: seq<string>, i: nat, seen: bool, typed: bool)
    requires i <= |lines|
    decreases |lines| - i
  {
    if i == |lines| then true
    else if lines[i] == "" then seen == typed && TypedBlocks(lines, i + 1, false, false)
    else if Field(lines[i]) == "data" then !seen && WholeLine(lines[i]) && TypedBlocks(lines, i + 1, true, typed)
    else if Field(lines[i]) == "event" then IsEvent(lines[i]) && |lines[i]| > 6 && lines[i][6] != ' ' && TypedBlocks(lines, i + 1, seen, true)
    else TypedBlocks(lines, i + 1, seen, typed)
  }

  /** The events of type `message`. */
  function Messages(events: seq<Event>): seq<string> {
    if events == [] then [] else (if events[0].kind == "message" then [events[0].data] else []) + Messages(events[1..])
  }

  /** The buffers of `ContinueStream` and of the rule within such a block; what an earlier
      block left over is no message. */
  predicate TypedSideBySide(buffer: string, event: string, data: string, kind: string, seen: bool, typed: bool) {
    && (if seen then buffer != "" && data == buffer + "\n" else data == "")
    && (if typed then kind != "" && event == kind else kind == "")
    && (!seen && !typed ==> event != "message" || buffer == "")
  }

  lemma {:induction false} TypedFollows(lines: seq<string>, i: nat, buffer: string, event: string, data: string, kind: string, seen: bool, typed: bool)
    requires i <= |lines| && TypedBlocks(lines, i, seen, typed) && TypedSideBySide(buffer, event, data, kind, seen, typed)
    ensures ContinuePayloads(lines, i, buffer, event) == Messages(RuleEvents(lines, i, data, kind))
    decreases |lines| - i
  {
    if i < |lines| {
      if lines[i] == "" {
        TypedBlank(lines, i, buffer, event, data, kind, seen);
      } else {
        var line := lines[i];
        DataFieldLine(line);
        EventFieldLine(line);
        TypedFollows(lines, i + 1,
                     if IsData(line) then line[5..] else buffer, if IsEvent(line) then line[6..] else event,
                     if Field(line) == "data" then data + Value(line) + "\n" else data,
                     if Field(line) == "event" then Value(line) else kind,
                     seen || Field(line) == "data", typed || Field(line) == "event");
      }
    }
  }

  lemma {:induction false} TypedBlank(lines: seq<string>, i: nat, buffer: string, event: string, data: string, kind: string, seen: bool)
    requires i < |lines| && lines[i] == "" && TypedBlocks(lines, i, seen, seen) && TypedSideBySide(buffer, event, data, kind, seen, seen)
    ensures ContinuePayloads(lines, i, buffer, event) == Messages(RuleEvents(lines, i, data, kind))
    decreases |lines| - i, 0
  {
    var rest := RuleEvents(lines, i + 1, "", "");
    if seen {
      assert data[..|data| - 1] == buffer;
      assert ([Event(kind, buffer)] + rest)[1..] == rest;
      if kind == "message" {
        TypedFollows(lines, i + 1, "", "", "", "", false, false);
      } else {
        TypedFollows(lines, i + 1, buffer, event, "", "", false, false);
      }
    } else {
      assert [] + rest == rest;
      TypedFollows(lines, i + 1, buffer, event, "", "", false, false);
    }
  }

  /** On streams whose blocks say their type, `ContinueStream` hands over exactly the data of
      the events that the rule gives the type `message`. */
  lemma ContinueKeepsMessages(lines: seq<string>)
    requires TypedBlocks(lines, 0, false, false)
    ensures ContinuePayloads(lines, 0, "", "") == Messages(RuleEvents(lines, 0, "", ""))
  {
    TypedFollows(lines, 0, "", "", "", "", false, false);
  }
}
