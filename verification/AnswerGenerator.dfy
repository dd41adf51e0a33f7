/** Crash and resume of the answer generator: two tables saved one after the other, an id
    counter rebuilt from one of them, and runs that may be killed between any two saves. */
module AnswerGenerator {

  datatype Answer = Answer(id: int, text: string)

  datatype Pair = Pair(qid: string, aid: int)

  datatype Table<T> = Missing | Saved(rows: seq<T>)

  datatype Disk = Disk(answers: Table<Answer>, qas: Table<Pair>)

  /** What one call to the language model does; a fatal error escapes the retry loop. */
  datatype Reply = Answered(text: string) | Retryable | Fatal

  /** One run: the queries, the model's replies by position in that list and attempt, the
      retry limit, and how many table writes happen before the process is killed. */
  datatype Plan = Plan(queries: seq<string>, reply: (nat, nat) -> Reply, maxRetries: int, writes: nat)

  /** The disk and the memory of a run in progress; `calls` lists the query of every call. */
  datatype Run = Run(disk: Disk, answers: seq<Answer>, pairs: seq<Pair>, writes: nat, alive: bool, calls: seq<string>)

  function Rows<T>(t: Table<T>): seq<T> {
    if t.Saved? then t.rows else []
  }

  // ---- The steps of a run ----

  /** A missing table, or a pairs table without rows (which has no `qid` column), restarts
      from the empty state. */
  function Load(d: Disk, writes: nat): Run {
    if d.answers.Saved? && d.qas.Saved? && d.qas.rows != [] then
      Run(d, d.answers.rows, d.qas.rows, writes, true, [])
    else
      Run(d, [], [], writes, true, [])
  }

  function SaveAnswers(r: Run): Run {
    if !r.alive || r.writes == 0 then r.(alive := false)
    else r.(disk := r.disk.(answers := Saved(r.answers)), writes := r.writes - 1)
  }

  function SaveQas(r: Run): Run {
    if !r.alive || r.writes == 0 then r.(alive := false)
    else r.(disk := r.disk.(qas := Saved(r.pairs)), writes := r.writes - 1)
  }

  function Record(r: Run, qid: string, text: string): Run {
    var aid := |r.answers| + 1;
    r.(answers := r.answers + [Answer(aid, text)], pairs := r.pairs + [Pair(qid, aid)])
  }

  /** The attempts at the query in one position. */
  function TryQuery(plan: Plan, r: Run, pos: nat, attempt: nat): Run
    requires pos < |plan.queries|
    decreases plan.maxRetries - attempt
  {
    if attempt > plan.maxRetries then r
    else
      var called := r.(calls := r.calls + [plan.queries[pos]]);
      match plan.reply(pos, attempt)
      case Answered(text) => SaveQas(SaveAnswers(Record(called, plan.queries[pos], text)))
      case Retryable =>
        if attempt == plan.maxRetries then SaveQas(SaveAnswers(called))
        else TryQuery(plan, called, pos, attempt + 1)
      case Fatal => called.(alive := false)
  }

  function TryAll(plan: Plan, r: Run, skip: set<string>, from: nat): Run
    requires from <= |plan.queries|
    decreases |plan.queries| - from
  {
    if from == |plan.queries| || !r.alive then r
    else if plan.queries[from] in skip then TryAll(plan, r, skip, from + 1)
    else TryAll(plan, TryQuery(plan, r, from, 0), skip, from + 1)
  }

  function Qids(pairs: seq<Pair>): set<string> {
    set p | p in pairs :: p.qid
  }

  function FinalRun(d: Disk, plan: Plan): Run {
    var start := Load(d, plan.writes);
    TryAll(plan, start, Qids(start.pairs), 0)
  }

  function AfterRuns(d: Disk, plans: seq<Plan>): Disk
    decreases |plans|
  {
    if plans == [] then d else AfterRuns(FinalRun(d, plans[0]).disk, plans[1..])
  }

  // ---- The generator itself ----

  class Directory {
    var answers: Table<Answer>
    var qas: Table<Pair>

    ghost function Contents(): Disk
      reads this
    {
      Disk(answers, qas)
    }

    constructor ()
      ensures Contents() == Disk(Missing, Missing)
    {
      answers, qas := Missing, Missing;
    }

    /** Ends in the disk state, the liveness and the calls that the run's steps define. */
    method GenerateAnswers(plan: Plan) returns (finished: bool, calls: seq<string>)
      modifies this
      ensures Contents() == FinalRun(old(Contents()), plan).disk
      ensures finished == FinalRun(old(Contents()), plan).alive
      ensures calls == FinalRun(old(Contents()), plan).calls
      ensures Sound(old(Contents())) ==> SpelledOut(old(Contents()), plan, Contents(), finished, calls)
    {
      if Sound(Contents()) { RunIsSpelledOut(Contents(), plan); }
      var answerRows: seq<Answer>, pairs: seq<Pair> := [], [];
      if answers.Saved? && qas.Saved? && qas.rows != [] {
        answerRows, pairs := answers.rows, qas.rows;
      }
      finished, calls := AnswerNewQueries(plan, answerRows, pairs);
    }

    method AnswerNewQueries(plan: Plan, savedRows: seq<Answer>, savedPairs: seq<Pair>) returns (finished: bool, calls: seq<string>)
      modifies this
      ensures var result := TryAll(plan, Run(old(Contents()), savedRows, savedPairs, plan.writes, true, []), Qids(savedPairs), 0);
              Contents() == result.disk && finished == result.alive && calls == result.calls
    {
      var answerRows, pairs := savedRows, savedPairs;
      ghost var result := TryAll(plan, Run(Contents(), answerRows, pairs, plan.writes, true, []), Qids(pairs), 0);
      var processed := Qids(pairs);
      var counter := |answerRows| + 1;
      var writes := plan.writes;
      calls := [];
      for k := 0 to |plan.queries|
        invariant counter == |answerRows| + 1
        invariant result == TryAll(plan, Run(Contents(), answerRows, pairs, writes, true, calls), processed, k)
      {
        var qid := plan.queries[k];
        if qid !in processed {
          var retryCount: nat := 0;
          ghost var entry := Run(Contents(), answerRows, pairs, writes, true, calls);
          ghost var exit := TryQuery(plan, entry, k, 0);
          while retryCount <= plan.maxRetries
            invariant counter == |answerRows| + 1
            invariant exit == TryQuery(plan, Run(Contents(), answerRows, pairs, writes, true, calls), k, retryCount)
            decreases plan.maxRetries - retryCount
          {
            calls := calls + [qid];
            match plan.reply(k, retryCount) {
              case Answered(text) =>
                answerRows := answerRows + [Answer(counter, text)];
                pairs := pairs + [Pair(qid, counter)];
                counter := counter + 1;
                if writes == 0 { return false, calls; }
                answers, writes := Saved(answerRows), writes - 1;
                if writes == 0 { return false, calls; }
                qas, writes := Saved(pairs), writes - 1;
                break;
              case Retryable =>
                retryCount := retryCount + 1;
                if retryCount > plan.maxRetries {
                  if writes == 0 { return false, calls; }
                  answers, writes := Saved(answerRows), writes - 1;
                  if writes == 0 { return false, calls; }
                  qas, writes := Saved(pairs), writes - 1;
                }
              case Fatal =>
                return false, calls;
            }
          }
        }
      }
      finished := true;
    }
  }

  // ---- What the saved tables are worth ----

  /** Answer ids are exactly 1..n. */
  predicate Numbered(answers: seq<Answer>) {
    forall k :: 0 <= k < |answers| ==> answers[k].id == k + 1
  }

  /** Every pair names one of n answers, and no two pairs the same one. */
  predicate PointsInto(pairs: seq<Pair>, n: nat) {
    && (forall k :: 0 <= k < |pairs| ==> 1 <= pairs[k].aid <= n)
    && (forall i, j :: 0 <= i < j < |pairs| ==> pairs[i].aid < pairs[j].aid)
  }

  predicate DistinctQids(pairs: seq<Pair>) {
    forall i, j :: 0 <= i < j < |pairs| ==> pairs[i].qid != pairs[j].qid
  }

  predicate Sound(d: Disk) {
    && Numbered(Rows(d.answers))
    && PointsInto(Rows(d.qas), |Rows(d.answers)|)
  }

  /** Nothing a reader could resolve before is lost or altered later. */
  predicate Extends(before: Disk, after: Disk) {
    && Rows(before.qas) <= Rows(after.qas)
    && (Rows(before.qas) != [] ==> Rows(before.answers) <= Rows(after.answers))
  }

  /** The questions with their answers, looked up by answer id as the reader does. */
  function Resolve(pairs: seq<Pair>, answers: seq<Answer>): (r: seq<(string, string)>)
    requires PointsInto(pairs, |answers|)
    ensures |r| == |pairs|
    ensures forall k :: 0 <= k < |pairs| ==> r[k] == (pairs[k].qid, answers[pairs[k].aid - 1].text)
  {
    seq(|pairs|, k requires 0 <= k < |pairs| => (pairs[k].qid, answers[pairs[k].aid - 1].text))
  }

  /** What a saved state says: its questions with their answers. */
  function Stored(d: Disk): seq<(string, string)>
    requires Sound(d)
  {
    Resolve(Rows(d.qas), Rows(d.answers))
  }

  predicate InStep(r: Run, start: Disk) {
    && Sound(r.disk) && Numbered(r.answers) && PointsInto(r.pairs, |r.answers|)
    && Rows(r.disk.qas) <= r.pairs
    && (Rows(r.disk.qas) != [] ==> Rows(r.disk.answers) <= r.answers)
    && Extends(start, r.disk)
  }

  /** Between questions the saved tables resolve to what memory resolves to. */
  predicate Settled(r: Run, start: Disk) {
    InStep(r, start) && Rows(r.disk.qas) == r.pairs
  }

  lemma LoadSettles(d: Disk, writes: nat)
    requires Sound(d)
    ensures Settled(Load(d, writes), d)
    ensures Resolve(Load(d, writes).pairs, Load(d, writes).answers) == Stored(d)
  {
    if Rows(d.qas) != [] { assert 1 <= Rows(d.qas)[0].aid <= |Rows(d.answers)|; }
  }

  lemma SavesKeep(r: Run, start: Disk)
    requires InStep(r, start)
    ensures InStep(SaveQas(SaveAnswers(r)), start)
  {
    var a := SaveAnswers(r);
    assert InStep(a, start);
  }

  /** One attempt that does not go on to another one. */
  function LastAttempt(plan: Plan, r: Run, pos: nat, attempt: nat): Run
    requires pos < |plan.queries|
  {
    var called := r.(calls := r.calls + [plan.queries[pos]]);
    match plan.reply(pos, attempt)
    case Answered(text) => SaveQas(SaveAnswers(Record(called, plan.queries[pos], text)))
    case Retryable => SaveQas(SaveAnswers(called))
    case Fatal => called.(alive := false)
  }

  predicate GoesOn(plan: Plan, pos: nat, attempt: nat) {
    attempt < plan.maxRetries && plan.reply(pos, attempt).Retryable?
  }

  function Asked(plan: Plan, r: Run, pos: nat): Run
    requires pos < |plan.queries|
  {
    r.(calls := r.calls + [plan.queries[pos]])
  }

  lemma TryQueryUnfolds(plan: Plan, r: Run, pos: nat, attempt: nat)
    requires pos < |plan.queries| && attempt <= plan.maxRetries
    ensures TryQuery(plan, r, pos, attempt) ==
            if GoesOn(plan, pos, attempt) then TryQuery(plan, Asked(plan, r, pos), pos, attempt + 1)
            else LastAttempt(plan, r, pos, attempt)
  {
  }

  lemma RecordKeeps(r: Run, start: Disk, qid: string, text: string)
    requires InStep(r, start)
    ensures InStep(Record(r, qid, text), start)
  {
  }

  lemma LastAttemptKeeps(plan: Plan, r: Run, start: Disk, pos: nat, attempt: nat)
    requires pos < |plan.queries| && InStep(r, start)
    ensures InStep(LastAttempt(plan, r, pos, attempt), start)
  {
    var called := Asked(plan, r, pos);
    match plan.reply(pos, attempt)
    case Answered(text) =>
      RecordKeeps(called, start, plan.queries[pos], text);
      SavesKeep(Record(called, plan.queries[pos], text), start);
    case Retryable => SavesKeep(called, start);
    case Fatal =>
  }

  lemma {:induction false} TryQueryKeeps(plan: Plan, r: Run, start: Disk, pos: nat, attempt: nat)
    requires pos < |plan.queries| && InStep(r, start)
    ensures InStep(TryQuery(plan, r, pos, attempt), start)
    decreases plan.maxRetries - attempt
  {
    if attempt <= plan.maxRetries {
      TryQueryUnfolds(plan, r, pos, attempt);
      if GoesOn(plan, pos, attempt) {
        TryQueryKeeps(plan, Asked(plan, r, pos), start, pos, attempt + 1);
      } else {
        LastAttemptKeeps(plan, r, start, pos, attempt);
      }
    }
  }

  lemma {:induction false} TryAllKeeps(plan: Plan, r: Run, start: Disk, skip: set<string>, from: nat)
    requires from <= |plan.queries| && InStep(r, start)
    ensures InStep(TryAll(plan, r, skip, from), start)
    decreases |plan.queries| - from
  {
    if from < |plan.queries| && r.alive {
      if plan.queries[from] in skip {
        TryAllKeeps(plan, r, start, skip, from + 1);
      } else {
        TryQueryKeeps(plan, r, start, from, 0);
        TryAllKeeps(plan, TryQuery(plan, r, from, 0), start, skip, from + 1);
      }
    }
  }

  lemma RunKeeps(d: Disk, plan: Plan)
    requires Sound(d)
    ensures Sound(FinalRun(d, plan).disk) && Extends(d, FinalRun(d, plan).disk)
  {
    var start := Load(d, plan.writes);
    LoadSettles(d, plan.writes);
    TryAllKeeps(plan, start, d, Qids(start.pairs), 0);
  }

  lemma LongerResolves(pairs: seq<Pair>, answers: seq<Answer>, morePairs: seq<Pair>, moreAnswers: seq<Answer>)
    requires PointsInto(pairs, |answers|) && PointsInto(morePairs, |moreAnswers|)
    requires pairs <= morePairs && (pairs != [] ==> answers <= moreAnswers)
    ensures Resolve(pairs, answers) <= Resolve(morePairs, moreAnswers)
  {
    forall k | 0 <= k < |pairs| ensures Resolve(pairs, answers)[k] == Resolve(morePairs, moreAnswers)[k] {
      assert pairs[k] == morePairs[k] && answers[pairs[k].aid - 1] == moreAnswers[pairs[k].aid - 1];
    }
  }

  lemma ExtendingResolves(d: Disk, after: Disk)
    requires Sound(d) && Sound(after) && Extends(d, after)
    ensures Stored(d) <= Stored(after)
  {
    LongerResolves(Rows(d.qas), Rows(d.answers), Rows(after.qas), Rows(after.answers));
  }

  /** Over any sequence of runs, each killed anywhere and each with its own queries: answer
      ids stay exactly 1..n, every pair names its own saved answer, and what a reader
      resolves only grows at the end. */
  lemma {:induction false} AnyRunsKeep(d: Disk, plans: seq<Plan>)
    requires Sound(d)
    ensures Sound(AfterRuns(d, plans)) && Extends(d, AfterRuns(d, plans))
    ensures Stored(d) <= Stored(AfterRuns(d, plans))
    decreases |plans|
  {
    if plans != [] {
      RunKeeps(d, plans[0]);
      AnyRunsKeep(FinalRun(d, plans[0]).disk, plans[1..]);
    }
    ExtendingResolves(d, AfterRuns(d, plans));
  }

  // ---- No question answered twice ----

  predicate NoRepeats(qs: seq<string>) {
    forall i, j :: 0 <= i < j < |qs| ==> qs[i] != qs[j]
  }

  /** No query outside the given ones is listed twice. */
  predicate NewListedOnce(queries: seq<string>, skip: set<string>) {
    forall i, j :: 0 <= i < j < |queries| ==> queries[i] in skip || queries[i] != queries[j]
  }

  predicate FreshPairs(r: Run, skip: set<string>, queries: seq<string>, from: nat)
    requires from <= |queries|
  {
    && DistinctQids(r.pairs) && DistinctQids(Rows(r.disk.qas))
    && (forall q :: q in Qids(r.pairs) ==> q in skip || q in queries[..from])
  }

  lemma RecordFresh(r: Run, qid: string, text: string)
    requires DistinctQids(r.pairs) && qid !in Qids(r.pairs)
    ensures DistinctQids(Record(r, qid, text).pairs) && Qids(Record(r, qid, text).pairs) == Qids(r.pairs) + {qid}
  {
    assert forall p :: p in r.pairs ==> p.qid in Qids(r.pairs);
    var pairs := Record(r, qid, text).pairs;
    assert pairs[|r.pairs|] in pairs;
    forall q | q in Qids(r.pairs) ensures q in Qids(pairs) {
      var p :| p in r.pairs && p.qid == q;
      assert p in pairs;
    }
  }

  lemma {:induction false} TryQueryFresh(plan: Plan, r: Run, pos: nat, attempt: nat)
    requires pos < |plan.queries|
    requires DistinctQids(r.pairs) && DistinctQids(Rows(r.disk.qas)) && plan.queries[pos] !in Qids(r.pairs)
    ensures var q := TryQuery(plan, r, pos, attempt);
            DistinctQids(q.pairs) && DistinctQids(Rows(q.disk.qas)) && Qids(q.pairs) <= Qids(r.pairs) + {plan.queries[pos]}
    decreases plan.maxRetries - attempt
  {
    if attempt <= plan.maxRetries {
      TryQueryUnfolds(plan, r, pos, attempt);
      if GoesOn(plan, pos, attempt) {
        TryQueryFresh(plan, Asked(plan, r, pos), pos, attempt + 1);
      } else if plan.reply(pos, attempt).Answered? {
        RecordFresh(Asked(plan, r, pos), plan.queries[pos], plan.reply(pos, attempt).text);
      }
    }
  }

  lemma {:induction false} TryAllFresh(plan: Plan, r: Run, skip: set<string>, from: nat)
    requires from <= |plan.queries| && NewListedOnce(plan.queries, skip)
    requires FreshPairs(r, skip, plan.queries, from)
    ensures DistinctQids(Rows(TryAll(plan, r, skip, from).disk.qas))
    decreases |plan.queries| - from
  {
    if from < |plan.queries| && r.alive {
      var qid := plan.queries[from];
      assert plan.queries[..from + 1] == plan.queries[..from] + [qid];
      if qid in skip {
        TryAllFresh(plan, r, skip, from + 1);
      } else {
        assert qid !in plan.queries[..from];
        TryQueryFresh(plan, r, from, 0);
        TryAllFresh(plan, TryQuery(plan, r, from, 0), skip, from + 1);
      }
    }
  }

  /** A run, killed anywhere and whatever the replies, keeps query ids unique when no query
      without a saved pair is listed twice. */
  lemma RunPairsOnce(d: Disk, plan: Plan)
    requires Sound(d) && DistinctQids(Rows(d.qas)) && NewListedOnce(plan.queries, Qids(Rows(d.qas)))
    ensures DistinctQids(Rows(FinalRun(d, plan).disk.qas))
  {
    var start := Load(d, plan.writes);
    LoadSettles(d, plan.writes);
    TryAllFresh(plan, start, Qids(start.pairs), 0);
  }

  /** Each question is in at most one pair, over any sequence of runs whose query ids are
      distinct within each run. */
  lemma {:induction false} AnyRunsPairOnce(d: Disk, plans: seq<Plan>)
    requires Sound(d) && DistinctQids(Rows(d.qas))
    requires forall k :: 0 <= k < |plans| ==> NoRepeats(plans[k].queries)
    ensures DistinctQids(Rows(AfterRuns(d, plans).qas))
    decreases |plans|
  {
    if plans != [] {
      RunPairsOnce(d, plans[0]);
      RunKeeps(d, plans[0]);
      AnyRunsPairOnce(FinalRun(d, plans[0]).disk, plans[1..]);
    }
  }

  // ---- How often a question is asked ----

  function Limit(plan: Plan): nat {
    if plan.maxRetries < 0 then 0 else plan.maxRetries + 1
  }

  lemma LastAttemptCalls(plan: Plan, r: Run, pos: nat, attempt: nat)
    requires pos < |plan.queries|
    ensures LastAttempt(plan, r, pos, attempt).calls == r.calls + [plan.queries[pos]]
  {
  }

  lemma {:induction false} TryQueryCalls(plan: Plan, r: Run, pos: nat, attempt: nat, q: string)
    requires pos < |plan.queries|
    ensures multiset(TryQuery(plan, r, pos, attempt).calls)[q] <=
            multiset(r.calls)[q] + if q == plan.queries[pos] && attempt <= plan.maxRetries then plan.maxRetries + 1 - attempt else 0
    decreases plan.maxRetries - attempt
  {
    if attempt <= plan.maxRetries {
      TryQueryUnfolds(plan, r, pos, attempt);
      if GoesOn(plan, pos, attempt) {
        TryQueryCalls(plan, Asked(plan, r, pos), pos, attempt + 1, q);
      } else {
        LastAttemptCalls(plan, r, pos, attempt);
      }
    }
  }

  lemma {:induction false} TryAllCalls(plan: Plan, r: Run, skip: set<string>, from: nat, q: string)
    requires from <= |plan.queries| && NewListedOnce(plan.queries, skip)
    ensures multiset(TryAll(plan, r, skip, from).calls)[q] <=
            multiset(r.calls)[q] + if q in plan.queries[from..] && q !in skip then Limit(plan) else 0
    decreases |plan.queries| - from
  {
    if from < |plan.queries| && r.alive {
      var qid := plan.queries[from];
      assert plan.queries[from..] == [qid] + plan.queries[from + 1..];
      if qid in skip {
        TryAllCalls(plan, r, skip, from + 1, q);
      } else {
        TryQueryCalls(plan, r, from, 0, q);
        TryAllCalls(plan, TryQuery(plan, r, from, 0), skip, from + 1, q);
      }
    }
  }

  /** A run asks each question at most `maxRetries + 1` times, and never one that already
      has a saved pair. */
  lemma CallsBounded(d: Disk, plan: Plan, q: string)
    requires Sound(d) && NewListedOnce(plan.queries, Qids(Rows(d.qas)))
    ensures multiset(FinalRun(d, plan).calls)[q] <= Limit(plan)
    ensures q in Qids(Rows(d.qas)) ==> q !in FinalRun(d, plan).calls
  {
    var start := Load(d, plan.writes);
    LoadSettles(d, plan.writes);
    TryAllCalls(plan, start, Qids(start.pairs), 0, q);
  }

  // ---- What a run that is not killed stores ----

  /** The text of the first answered attempt, when only retryable errors precede it. */
  function FirstAnswer(plan: Plan, pos: nat, attempt: nat): seq<string>
    decreases plan.maxRetries - attempt
  {
    if attempt > plan.maxRetries then []
    else
      match plan.reply(pos, attempt)
      case Answered(text) => [text]
      case Retryable => FirstAnswer(plan, pos, attempt + 1)
      case Fatal => []
  }

  function OneRow(qid: string, text: seq<string>): seq<(string, string)> {
    if text == [] then [] else [(qid, text[0])]
  }

  /** What one position of the query list adds. */
  function Added(plan: Plan, skip: set<string>, pos: nat): seq<(string, string)>
    requires pos < |plan.queries|
  {
    if plan.queries[pos] in skip then [] else OneRow(plan.queries[pos], FirstAnswer(plan, pos, 0))
  }

  function Harvest(plan: Plan, skip: set<string>, from: nat): seq<(string, string)>
    requires from <= |plan.queries|
    decreases |plan.queries| - from
  {
    if from == |plan.queries| then [] else Added(plan, skip, from) + Harvest(plan, skip, from + 1)
  }

  lemma RecordResolves(r: Run, qid: string, text: string)
    requires PointsInto(r.pairs, |r.answers|)
    ensures PointsInto(Record(r, qid, text).pairs, |Record(r, qid, text).answers|)
    ensures Resolve(Record(r, qid, text).pairs, Record(r, qid, text).answers) == Resolve(r.pairs, r.answers) + [(qid, text)]
  {
  }

  lemma SavesSettle(r: Run, start: Disk)
    requires InStep(r, start) && SaveQas(SaveAnswers(r)).alive
    ensures Settled(SaveQas(SaveAnswers(r)), start)
    ensures SaveQas(SaveAnswers(r)).pairs == r.pairs && SaveQas(SaveAnswers(r)).answers == r.answers
  {
    SavesKeep(r, start);
  }

  /** In memory every attempt counts at once, saved or not. */
  lemma LastAttemptRemembers(plan: Plan, r: Run, pos: nat, attempt: nat)
    requires pos < |plan.queries| && PointsInto(r.pairs, |r.answers|)
    ensures var q := LastAttempt(plan, r, pos, attempt);
            && PointsInto(q.pairs, |q.answers|)
            && Resolve(q.pairs, q.answers) == Resolve(r.pairs, r.answers)
               + if plan.reply(pos, attempt).Answered? then [(plan.queries[pos], plan.reply(pos, attempt).text)] else []
  {
    if plan.reply(pos, attempt).Answered? {
      RecordResolves(Asked(plan, r, pos), plan.queries[pos], plan.reply(pos, attempt).text);
    }
  }

  lemma {:induction false} TryQueryRemembers(plan: Plan, r: Run, pos: nat, attempt: nat)
    requires pos < |plan.queries| && PointsInto(r.pairs, |r.answers|)
    ensures var q := TryQuery(plan, r, pos, attempt);
            && PointsInto(q.pairs, |q.answers|)
            && Resolve(q.pairs, q.answers) ==
               Resolve(r.pairs, r.answers) + OneRow(plan.queries[pos], FirstAnswer(plan, pos, attempt))
    decreases plan.maxRetries - attempt
  {
    if attempt <= plan.maxRetries {
      TryQueryUnfolds(plan, r, pos, attempt);
      if GoesOn(plan, pos, attempt) {
        TryQueryRemembers(plan, Asked(plan, r, pos), pos, attempt + 1);
      } else {
        LastAttemptRemembers(plan, r, pos, attempt);
      }
    }
  }

  lemma {:induction false} TryAllRemembers(plan: Plan, r: Run, skip: set<string>, from: nat)
    requires from <= |plan.queries| && PointsInto(r.pairs, |r.answers|)
    ensures var q := TryAll(plan, r, skip, from);
            && PointsInto(q.pairs, |q.answers|)
            && Resolve(q.pairs, q.answers) <= Resolve(r.pairs, r.answers) + Harvest(plan, skip, from)
            && (q.alive ==> Resolve(q.pairs, q.answers) == Resolve(r.pairs, r.answers) + Harvest(plan, skip, from))
    decreases |plan.queries| - from
  {
    if from < |plan.queries| && r.alive {
      if plan.queries[from] in skip {
        assert [] + Harvest(plan, skip, from + 1) == Harvest(plan, skip, from + 1);
        TryAllRemembers(plan, r, skip, from + 1);
      } else {
        TryQueryRemembers(plan, r, from, 0);
        TryAllRemembers(plan, TryQuery(plan, r, from, 0), skip, from + 1);
        AddInTurn(Resolve(r.pairs, r.answers), Added(plan, skip, from), Harvest(plan, skip, from + 1));
      }
    }
  }

  lemma AddInTurn(a: seq<(string, string)>, b: seq<(string, string)>, c: seq<(string, string)>)
    ensures (a + b) + c == a + (b + c)
  {
  }

  /** The files are never ahead of the memory. */
  lemma DiskWithinMemory(r: Run, start: Disk)
    requires InStep(r, start)
    ensures Stored(r.disk) <= Resolve(r.pairs, r.answers)
  {
    LongerResolves(Rows(r.disk.qas), Rows(r.disk.answers), r.pairs, r.answers);
  }

  lemma LastAttemptSettles(plan: Plan, r: Run, start: Disk, pos: nat, attempt: nat)
    requires pos < |plan.queries| && Settled(r, start) && LastAttempt(plan, r, pos, attempt).alive
    ensures Settled(LastAttempt(plan, r, pos, attempt), start)
  {
    var called := Asked(plan, r, pos);
    match plan.reply(pos, attempt)
    case Answered(text) =>
      RecordKeeps(called, start, plan.queries[pos], text);
      SavesSettle(Record(called, plan.queries[pos], text), start);
    case Retryable => SavesSettle(called, start);
  }

  lemma {:induction false} TryQuerySettles(plan: Plan, r: Run, start: Disk, pos: nat, attempt: nat)
    requires pos < |plan.queries| && Settled(r, start) && TryQuery(plan, r, pos, attempt).alive
    ensures Settled(TryQuery(plan, r, pos, attempt), start)
    decreases plan.maxRetries - attempt
  {
    if attempt <= plan.maxRetries {
      TryQueryUnfolds(plan, r, pos, attempt);
      if GoesOn(plan, pos, attempt) {
        TryQuerySettles(plan, Asked(plan, r, pos), start, pos, attempt + 1);
      } else {
        LastAttemptSettles(plan, r, start, pos, attempt);
      }
    }
  }

  lemma {:induction false} TryAllSettles(plan: Plan, r: Run, start: Disk, skip: set<string>, from: nat)
    requires from <= |plan.queries| && Settled(r, start) && TryAll(plan, r, skip, from).alive
    ensures Settled(TryAll(plan, r, skip, from), start)
    decreases |plan.queries| - from
  {
    if from < |plan.queries| {
      if plan.queries[from] in skip {
        TryAllSettles(plan, r, start, skip, from + 1);
      } else {
        TryQuerySettles(plan, r, start, from, 0);
        TryAllSettles(plan, TryQuery(plan, r, from, 0), start, skip, from + 1);
      }
    }
  }

  /** Killed between any two saves or ended by an error, a run has stored what was there
      before and then a beginning of what the whole run would add, in query order. */
  lemma KilledRunStores(d: Disk, plan: Plan)
    requires Sound(d)
    ensures var after := FinalRun(d, plan).disk;
            && Sound(after)
            && Stored(d) <= Stored(after) <= Stored(d) + Harvest(plan, Qids(Rows(d.qas)), 0)
  {
    var start := Load(d, plan.writes);
    LoadSettles(d, plan.writes);
    TryAllKeeps(plan, start, d, Qids(start.pairs), 0);
    TryAllRemembers(plan, start, Qids(start.pairs), 0);
    DiskWithinMemory(FinalRun(d, plan), d);
    ExtendingResolves(d, FinalRun(d, plan).disk);
  }

  /** A run that ends by itself adds, in query order, exactly the questions not saved before
      whose first non-retryable reply is an answer, each with that answer's text. */
  lemma FinishedRunStores(d: Disk, plan: Plan)
    requires Sound(d) && FinalRun(d, plan).alive
    ensures var after := FinalRun(d, plan).disk;
            && Sound(after)
            && Stored(after) == Stored(d) + Harvest(plan, Qids(Rows(d.qas)), 0)
  {
    var start := Load(d, plan.writes);
    LoadSettles(d, plan.writes);
    TryAllSettles(plan, start, d, Qids(start.pairs), 0);
    TryAllRemembers(plan, start, Qids(start.pairs), 0);
  }

  // ---- Repeated query ids ----

  /** The query in this position has no saved pair and gets an answer. */
  predicate IsAnswered(plan: Plan, skip: set<string>, pos: nat) {
    pos < |plan.queries| && plan.queries[pos] !in skip && FirstAnswer(plan, pos, 0) != []
  }

  /** No query is answered in two positions. */
  ghost predicate AnsweredOnce(plan: Plan, skip: set<string>, from: nat) {
    forall i: nat, j: nat :: from <= i < j && IsAnswered(plan, skip, i) && IsAnswered(plan, skip, j) ==>
                               plan.queries[i] != plan.queries[j]
  }

  ghost predicate AnsweredAfter(plan: Plan, skip: set<string>, from: nat, q: string) {
    exists i: nat :: from <= i && IsAnswered(plan, skip, i) && plan.queries[i] == q
  }

  function Ids(rows: seq<(string, string)>): seq<string> {
    seq(|rows|, k requires 0 <= k < |rows| => rows[k].0)
  }

  lemma IdsOfSum(a: seq<(string, string)>, b: seq<(string, string)>)
    ensures Ids(a + b) == Ids(a) + Ids(b)
  {
  }

  lemma HarvestIds(plan: Plan, skip: set<string>, from: nat)
    requires from < |plan.queries|
    ensures Ids(Harvest(plan, skip, from)) ==
            (if IsAnswered(plan, skip, from) then [plan.queries[from]] else []) + Ids(Harvest(plan, skip, from + 1))
  {
    IdsOfSum(Added(plan, skip, from), Harvest(plan, skip, from + 1));
  }

  lemma AnsweredHereOrAfter(plan: Plan, skip: set<string>, from: nat, q: string)
    requires from < |plan.queries|
    ensures AnsweredAfter(plan, skip, from, q) <==>
            AnsweredAfter(plan, skip, from + 1, q) || (IsAnswered(plan, skip, from) && plan.queries[from] == q)
  {
  }

  lemma {:induction false} HarvestHolds(plan: Plan, skip: set<string>, from: nat, q: string)
    requires from <= |plan.queries|
    ensures q in Ids(Harvest(plan, skip, from)) <==> AnsweredAfter(plan, skip, from, q)
    decreases |plan.queries| - from
  {
    if from < |plan.queries| {
      HarvestIds(plan, skip, from);
      HarvestHolds(plan, skip, from + 1, q);
      AnsweredHereOrAfter(plan, skip, from, q);
    }
  }

  lemma ConsRepeats(q: string, rest: seq<string>)
    ensures NoRepeats([q] + rest) <==> q !in rest && NoRepeats(rest)
  {
    var all := [q] + rest;
    if NoRepeats(all) {
      forall k | 0 <= k < |rest| ensures rest[k] != q { assert all[k + 1] == rest[k] && all[0] == q; }
      forall i, j | 0 <= i < j < |rest| ensures rest[i] != rest[j] { assert all[i + 1] != all[j + 1]; }
    }
  }

  lemma HeadAnsweredOnce(plan: Plan, skip: set<string>, from: nat)
    requires IsAnswered(plan, skip, from)
    ensures AnsweredOnce(plan, skip, from) <==>
            && AnsweredOnce(plan, skip, from + 1)
            && !AnsweredAfter(plan, skip, from + 1, plan.queries[from])
  {
  }

  lemma UnansweredHead(plan: Plan, skip: set<string>, from: nat)
    requires !IsAnswered(plan, skip, from)
    ensures AnsweredOnce(plan, skip, from) <==> AnsweredOnce(plan, skip, from + 1)
  {
  }

  /** Whether the appended query ids are distinct, said of the query list. */
  ghost predicate RepeatsRead(plan: Plan, skip: set<string>, from: nat)
    requires from <= |plan.queries|
  {
    NoRepeats(Ids(Harvest(plan, skip, from))) <==> AnsweredOnce(plan, skip, from)
  }

  lemma RepeatsReadAnswered(plan: Plan, skip: set<string>, from: nat)
    requires from < |plan.queries| && RepeatsRead(plan, skip, from + 1) && IsAnswered(plan, skip, from)
    ensures RepeatsRead(plan, skip, from)
  {
    HarvestIds(plan, skip, from);
    ConsRepeats(plan.queries[from], Ids(Harvest(plan, skip, from + 1)));
    HarvestHolds(plan, skip, from + 1, plan.queries[from]);
    HeadAnsweredOnce(plan, skip, from);
  }

  lemma RepeatsReadUnanswered(plan: Plan, skip: set<string>, from: nat)
    requires from < |plan.queries| && RepeatsRead(plan, skip, from + 1) && !IsAnswered(plan, skip, from)
    ensures RepeatsRead(plan, skip, from)
  {
    HarvestIds(plan, skip, from);
    var rest := Ids(Harvest(plan, skip, from + 1));
    assert [] + rest == rest;
    UnansweredHead(plan, skip, from);
  }

  lemma {:induction false} HarvestRepeats(plan: Plan, skip: set<string>, from: nat)
    requires from <= |plan.queries|
    ensures RepeatsRead(plan, skip, from)
    decreases |plan.queries| - from
  {
    if from < |plan.queries| {
      HarvestRepeats(plan, skip, from + 1);
      if IsAnswered(plan, skip, from) {
        RepeatsReadAnswered(plan, skip, from);
      } else {
        RepeatsReadUnanswered(plan, skip, from);
      }
    }
  }

  lemma RepeatsOnlyInTail(all: seq<string>, head: seq<string>, tail: seq<string>)
    requires all == head + tail && NoRepeats(head)
    requires forall q :: q in tail ==> q !in head
    ensures NoRepeats(all) <==> NoRepeats(tail)
  {
    if NoRepeats(all) {
      forall i, j | 0 <= i < j < |tail| ensures tail[i] != tail[j] {
        assert all[|head| + i] != all[|head| + j];
      }
    }
    if NoRepeats(tail) {
      forall i, j | 0 <= i < j < |all| ensures all[i] != all[j] {
        if |head| <= j { assert all[j] in tail; }
      }
    }
  }

  lemma ResolvedIds(pairs: seq<Pair>, answers: seq<Answer>)
    requires PointsInto(pairs, |answers|)
    ensures DistinctQids(pairs) <==> NoRepeats(Ids(Resolve(pairs, answers)))
    ensures forall q :: q in Ids(Resolve(pairs, answers)) ==> q in Qids(pairs)
  {
    var ids := Ids(Resolve(pairs, answers));
    assert forall k :: 0 <= k < |pairs| ==> ids[k] == pairs[k].qid && pairs[k] in pairs;
  }

  /** The processed set is not updated during a run, so a finished run keeps query ids unique
      exactly when no query without a saved pair is answered in two positions of the list. */
  lemma UniqueExactlyWithoutRepeats(d: Disk, plan: Plan)
    requires Sound(d) && DistinctQids(Rows(d.qas)) && FinalRun(d, plan).alive
    ensures DistinctQids(Rows(FinalRun(d, plan).disk.qas)) <==> AnsweredOnce(plan, Qids(Rows(d.qas)), 0)
  {
    var skip, after := Qids(Rows(d.qas)), FinalRun(d, plan).disk;
    var was, added := Ids(Stored(d)), Ids(Harvest(plan, skip, 0));
    FinishedRunStores(d, plan);
    ResolvedIds(Rows(d.qas), Rows(d.answers));
    ResolvedIds(Rows(after.qas), Rows(after.answers));
    IdsOfSum(Stored(d), Harvest(plan, skip, 0));
    forall q | q in added ensures q !in was { HarvestHolds(plan, skip, 0, q); }
    RepeatsOnlyInTail(was + added, was, added);
    HarvestRepeats(plan, skip, 0);
  }

  // ---- Which query lists are safe for all replies ----

  function Obliging(queries: seq<string>, maxRetries: int): Plan {
    Plan(queries, (pos, attempt) => Answered(""), maxRetries, 2 * |queries|)
  }

  lemma {:induction false} ObligingEnds(plan: Plan, r: Run, skip: set<string>, from: nat)
    requires from <= |plan.queries| && plan.maxRetries >= 0 && r.alive && r.writes >= 2 * (|plan.queries| - from)
    requires forall pos, attempt :: plan.reply(pos, attempt) == Answered("")
    ensures TryAll(plan, r, skip, from).alive
    decreases |plan.queries| - from
  {
    if from < |plan.queries| {
      if plan.queries[from] in skip {
        ObligingEnds(plan, r, skip, from + 1);
      } else {
        TryQueryUnfolds(plan, r, from, 0);
        ObligingEnds(plan, TryQuery(plan, r, from, 0), skip, from + 1);
      }
    }
  }

  /** Query ids stay unique whatever the replies and wherever the run is killed exactly when
      no query without a saved pair is listed twice. */
  lemma UniqueForAllRepliesExactly(d: Disk, queries: seq<string>, maxRetries: nat)
    requires Sound(d) && DistinctQids(Rows(d.qas))
    ensures (forall reply, writes ::
               DistinctQids(Rows(FinalRun(d, Plan(queries, reply, maxRetries, writes)).disk.qas)))
       <==> NewListedOnce(queries, Qids(Rows(d.qas)))
  {
    var skip := Qids(Rows(d.qas));
    if NewListedOnce(queries, skip) {
      forall reply, writes ensures DistinctQids(Rows(FinalRun(d, Plan(queries, reply, maxRetries, writes)).disk.qas)) {
        RunPairsOnce(d, Plan(queries, reply, maxRetries, writes));
      }
    } else {
      ListedTwiceIsPairedTwice(d, queries, maxRetries);
    }
  }

  /** A new query that is listed twice gets two pairs when the model answers every call. */
  lemma ListedTwiceIsPairedTwice(d: Disk, queries: seq<string>, maxRetries: nat)
    requires Sound(d) && DistinctQids(Rows(d.qas)) && !NewListedOnce(queries, Qids(Rows(d.qas)))
    ensures !DistinctQids(Rows(FinalRun(d, Obliging(queries, maxRetries)).disk.qas))
  {
    var skip, plan := Qids(Rows(d.qas)), Obliging(queries, maxRetries);
    var start := Load(d, plan.writes);
    LoadSettles(d, plan.writes);
    ObligingEnds(plan, start, Qids(start.pairs), 0);
    UniqueExactlyWithoutRepeats(d, plan);
    var i: nat, j: nat :| i < j < |queries| && queries[i] !in skip && queries[i] == queries[j];
    assert IsAnswered(plan, skip, i) && IsAnswered(plan, skip, j);
  }

  /** From an empty directory the list ["q", "q"] yields two pairs under one query id when
      both calls answer, and one when the first call fails and there is no retry. */
  lemma RepeatedQueryExample()
    ensures Rows(FinalRun(Disk(Missing, Missing), Obliging(["q", "q"], 0)).disk.qas) == [Pair("q", 1), Pair("q", 2)]
    ensures var failsFirst := Plan(["q", "q"], (pos, attempt) => if pos == 0 then Retryable else Answered(""), 0, 4);
            Rows(FinalRun(Disk(Missing, Missing), failsFirst).disk.qas) == [Pair("q", 1)]
  {
    var queries := ["q", "q"];
    var r0 := Load(Disk(Missing, Missing), 4);
    var both := Obliging(queries, 0);
    var b1 := TryQuery(both, r0, 0, 0);
    assert TryAll(both, r0, {}, 0) == TryAll(both, b1, {}, 1) == TryAll(both, TryQuery(both, b1, 1, 0), {}, 2);
    var failsFirst := Plan(queries, (pos, attempt) => if pos == 0 then Retryable else Answered(""), 0, 4);
    var f1 := TryQuery(failsFirst, r0, 0, 0);
    assert TryAll(failsFirst, r0, {}, 0) == TryAll(failsFirst, f1, {}, 1) == TryAll(failsFirst, TryQuery(failsFirst, f1, 1, 0), {}, 2);
  }

  // ---- Killed runs, resumed ----

  /** The same work on a first part of the queries, or with another number of saves. */
  ghost predicate PartOf(part: Plan, plan: Plan) {
    part.queries <= plan.queries && part.reply == plan.reply && part.maxRetries == plan.maxRetries
  }

  lemma {:induction false} FirstAnswerOfPart(part: Plan, plan: Plan, pos: nat, attempt: nat)
    requires PartOf(part, plan)
    ensures FirstAnswer(part, pos, attempt) == FirstAnswer(plan, pos, attempt)
    decreases plan.maxRetries - attempt
  {
    if attempt <= plan.maxRetries { FirstAnswerOfPart(part, plan, pos, attempt + 1); }
  }

  lemma {:induction false} HarvestOfPart(part: Plan, plan: Plan, skip: set<string>, from: nat)
    requires PartOf(part, plan) && from <= |part.queries|
    ensures Harvest(plan, skip, from) == Harvest(part, skip, from) + Harvest(plan, skip, |part.queries|)
    decreases |part.queries| - from
  {
    if from == |part.queries| {
      assert [] + Harvest(plan, skip, from) == Harvest(plan, skip, from);
    } else {
      FirstAnswerOfPart(part, plan, from, 0);
      HarvestOfPart(part, plan, skip, from + 1);
      AddInTurn(Added(plan, skip, from), Harvest(part, skip, from + 1), Harvest(plan, skip, |part.queries|));
    }
  }

  lemma {:induction false} TryQueryOfPart(part: Plan, plan: Plan, r: Run, pos: nat, attempt: nat)
    requires PartOf(part, plan) && pos < |part.queries|
    ensures TryQuery(part, r, pos, attempt) == TryQuery(plan, r, pos, attempt)
    decreases plan.maxRetries - attempt
  {
    if attempt <= plan.maxRetries {
      TryQueryUnfolds(part, r, pos, attempt);
      TryQueryUnfolds(plan, r, pos, attempt);
      TryQueryOfPart(part, plan, Asked(plan, r, pos), pos, attempt + 1);
    }
  }

  lemma {:induction false} TryAllOfPart(part: Plan, plan: Plan, r: Run, skip: set<string>, from: nat)
    requires PartOf(part, plan) && from <= |part.queries|
    ensures TryAll(plan, r, skip, from) == TryAll(plan, TryAll(part, r, skip, from), skip, |part.queries|)
    decreases |part.queries| - from
  {
    if from < |part.queries| && r.alive {
      if part.queries[from] in skip {
        TryAllOfPart(part, plan, r, skip, from + 1);
      } else {
        TryQueryOfPart(part, plan, r, from, 0);
        TryAllOfPart(part, plan, TryQuery(part, r, from, 0), skip, from + 1);
      }
    }
  }

  /** The ids of some stored rows. */
  function IdSet(rows: seq<(string, string)>): set<string> {
    set q | q in Ids(rows)
  }

  lemma IdSetOfSum(a: seq<(string, string)>, b: seq<(string, string)>)
    ensures IdSet(a + b) == IdSet(a) + IdSet(b)
  {
    IdsOfSum(a, b);
  }

  lemma IdSetGrows(a: seq<(string, string)>, b: seq<(string, string)>)
    requires a <= b
    ensures IdSet(a) <= IdSet(b)
  {
    assert b == a + b[|a|..];
    IdSetOfSum(a, b[|a|..]);
  }

  lemma SavedIds(d: Disk)
    requires Sound(d)
    ensures Qids(Rows(d.qas)) == IdSet(Stored(d))
  {
    var pairs, ids := Rows(d.qas), Ids(Stored(d));
    assert forall k :: 0 <= k < |pairs| ==> ids[k] == pairs[k].qid && pairs[k] in pairs && ids[k] in ids;
  }

  /** Skipping a query that is not answered any more changes nothing. */
  lemma {:induction false} HarvestIgnores(plan: Plan, skip: set<string>, from: nat, q: string)
    requires from <= |plan.queries| && !AnsweredAfter(plan, skip, from, q)
    ensures Harvest(plan, skip + {q}, from) == Harvest(plan, skip, from)
    decreases |plan.queries| - from
  {
    if from < |plan.queries| {
      AnsweredHereOrAfter(plan, skip, from, q);
      HarvestIgnores(plan, skip, from + 1, q);
    }
  }

  lemma FewerAnswered(plan: Plan, skip: set<string>, more: set<string>, from: nat)
    requires skip <= more
    ensures AnsweredOnce(plan, skip, from) ==> AnsweredOnce(plan, more, from)
    ensures forall q :: AnsweredAfter(plan, more, from, q) ==> AnsweredAfter(plan, skip, from, q)
  {
    forall i: nat | IsAnswered(plan, more, i) ensures IsAnswered(plan, skip, i) { }
  }

  /** With the ids of the first `k` rows skipped, the work adds the other rows. */
  lemma {:induction false} HarvestResumes(plan: Plan, skip: set<string>, from: nat, k: nat)
    requires from <= |plan.queries| && AnsweredOnce(plan, skip, from) && k <= |Harvest(plan, skip, from)|
    ensures Harvest(plan, skip + IdSet(Harvest(plan, skip, from)[..k]), from) == Harvest(plan, skip, from)[k..]
    decreases |plan.queries| - from
  {
    var all := Harvest(plan, skip, from);
    if k == 0 {
      assert skip + IdSet(all[..0]) == skip;
    } else if !IsAnswered(plan, skip, from) {
      UnansweredHead(plan, skip, from);
      assert all == Harvest(plan, skip, from + 1);
      HarvestResumes(plan, skip, from + 1, k);
    } else {
      HeadResumes(plan, skip, from, k);
    }
  }

  lemma {:induction false} HeadResumes(plan: Plan, skip: set<string>, from: nat, k: nat)
    requires from < |plan.queries| && AnsweredOnce(plan, skip, from) && 1 <= k <= |Harvest(plan, skip, from)|
    requires IsAnswered(plan, skip, from)
    ensures Harvest(plan, skip + IdSet(Harvest(plan, skip, from)[..k]), from) == Harvest(plan, skip, from)[k..]
    decreases |plan.queries| - from, 0
  {
    var q, rest := plan.queries[from], Harvest(plan, skip, from + 1);
    var more := skip + IdSet(rest[..k - 1]);
    HeadAnsweredOnce(plan, skip, from);
    HarvestResumes(plan, skip, from + 1, k - 1);
    FewerAnswered(plan, skip, more, from + 1);
    HarvestIgnores(plan, more, from + 1, q);
    HeadIds(plan, skip, from, k);
    assert [] + rest[k - 1..] == Harvest(plan, skip, from)[k..];
  }

  lemma HeadIds(plan: Plan, skip: set<string>, from: nat, k: nat)
    requires IsAnswered(plan, skip, from) && 1 <= k <= |Harvest(plan, skip, from)|
    ensures skip + IdSet(Harvest(plan, skip, from)[..k]) ==
            (skip + IdSet(Harvest(plan, skip, from + 1)[..k - 1])) + {plan.queries[from]}
  {
    var row, rest := Added(plan, skip, from), Harvest(plan, skip, from + 1);
    assert Harvest(plan, skip, from)[..k] == row + rest[..k - 1];
    IdSetOfSum(row, rest[..k - 1]);
    assert IdSet(row) == {plan.queries[from]} by { assert Ids(row) == [plan.queries[from]]; }
  }

  /** The work started once for each number of saves and killed behind them. */
  function Attempts(plan: Plan, kills: seq<nat>): seq<Plan> {
    seq(|kills|, k requires 0 <= k < |kills| => plan.(writes := kills[k]))
  }

  lemma BeginningIsSaved(d: Disk, after: Disk, all: seq<(string, string)>) returns (k: nat)
    requires Sound(d) && Sound(after) && Stored(d) <= Stored(after) <= Stored(d) + all
    ensures k <= |all| && Stored(after) == Stored(d) + all[..k]
    ensures Qids(Rows(after.qas)) == Qids(Rows(d.qas)) + IdSet(all[..k])
  {
    k := |Stored(after)| - |Stored(d)|;
    assert Stored(after) == (Stored(d) + all)[..|Stored(after)|] == Stored(d) + all[..k];
    IdSetOfSum(Stored(d), all[..k]);
    SavedIds(d);
    SavedIds(after);
  }

  /** What is saved and what is still to be added make up the same rows. */
  ghost predicate KeepsTheWork(plan: Plan, d: Disk, after: Disk) {
    && Sound(d) && Sound(after) && Stored(d) <= Stored(after)
    && Stored(after) + Harvest(plan, Qids(Rows(after.qas)), 0) == Stored(d) + Harvest(plan, Qids(Rows(d.qas)), 0)
  }

  lemma KilledOnce(d: Disk, plan: Plan, writes: nat)
    requires Sound(d) && AnsweredOnce(plan, Qids(Rows(d.qas)), 0)
    ensures KeepsTheWork(plan, d, FinalRun(d, plan.(writes := writes)).disk)
    ensures AnsweredOnce(plan, Qids(Rows(FinalRun(d, plan.(writes := writes)).disk.qas)), 0)
  {
    var skip := Qids(Rows(d.qas));
    var after, all := FinalRun(d, plan.(writes := writes)).disk, Harvest(plan, skip, 0);
    KilledRunStores(d, plan.(writes := writes));
    SavesAreNoWork(plan, writes, skip);
    var k := BeginningIsSaved(d, after, all);
    HarvestResumes(plan, skip, 0, k);
    FewerAnswered(plan, skip, Qids(Rows(after.qas)), 0);
    SplitSum(Stored(d), all, k);
  }

  lemma SplitSum(a: seq<(string, string)>, all: seq<(string, string)>, k: nat)
    requires k <= |all|
    ensures (a + all[..k]) + all[k..] == a + all
  {
  }

  lemma SavesAreNoWork(plan: Plan, writes: nat, skip: set<string>)
    ensures Harvest(plan.(writes := writes), skip, 0) == Harvest(plan, skip, 0)
  {
    HarvestOfPart(plan.(writes := writes), plan, skip, 0);
  }

  lemma AttemptsUnfold(d: Disk, plan: Plan, kills: seq<nat>)
    requires kills != []
    ensures AfterRuns(d, Attempts(plan, kills)) ==
            AfterRuns(FinalRun(d, plan.(writes := kills[0])).disk, Attempts(plan, kills[1..]))
  {
    assert Attempts(plan, kills)[1..] == Attempts(plan, kills[1..]);
  }

  /** When no query is answered in two positions, what is saved and what is still to be added
      make up the same rows before and after any number of killed runs. */
  lemma {:induction false} KilledRunsKeepTheWork(d: Disk, plan: Plan, kills: seq<nat>)
    requires Sound(d) && AnsweredOnce(plan, Qids(Rows(d.qas)), 0)
    ensures KeepsTheWork(plan, d, AfterRuns(d, Attempts(plan, kills)))
    decreases |kills|
  {
    if kills != [] {
      AttemptsUnfold(d, plan, kills);
      KilledOnce(d, plan, kills[0]);
      KilledRunsKeepTheWork(FinalRun(d, plan.(writes := kills[0])).disk, plan, kills[1..]);
    }
  }

  // ---- How many saves a run takes ----

  lemma {:induction false} TryQueryEnds(plan: Plan, r: Run, other: Run, pos: nat, attempt: nat)
    requires pos < |plan.queries| && TryQuery(plan, r, pos, attempt).alive
    requires other.alive && other.writes >= r.writes
    ensures TryQuery(plan, other, pos, attempt).alive
    ensures TryQuery(plan, other, pos, attempt).writes >= TryQuery(plan, r, pos, attempt).writes
    ensures TryQuery(plan, r, pos, attempt).writes <= r.writes
    decreases plan.maxRetries - attempt
  {
    if attempt <= plan.maxRetries {
      TryQueryUnfolds(plan, r, pos, attempt);
      TryQueryUnfolds(plan, other, pos, attempt);
      if GoesOn(plan, pos, attempt) {
        TryQueryEnds(plan, Asked(plan, r, pos), Asked(plan, other, pos), pos, attempt + 1);
      }
    }
  }

  /** A run with more queries skipped and as many saves left ends by itself too. */
  lemma {:induction false} ResumingEnds(plan: Plan, r: Run, other: Run, skip: set<string>, more: set<string>, from: nat)
    requires from <= |plan.queries| && TryAll(plan, r, skip, from).alive
    requires other.alive && other.writes >= r.writes && skip <= more
    ensures TryAll(plan, other, more, from).alive
    decreases |plan.queries| - from
  {
    if from < |plan.queries| {
      if plan.queries[from] in skip {
        ResumingEnds(plan, r, other, skip, more, from + 1);
      } else {
        var q := TryQuery(plan, r, from, 0);
        TryQueryEnds(plan, r, other, from, 0);
        ResumingEnds(plan, q, if plan.queries[from] in more then other else TryQuery(plan, other, from, 0), skip, more, from + 1);
      }
    }
  }

  lemma {:induction false} TryQuerySpends(plan: Plan, r: Run, pos: nat, attempt: nat, k: nat)
    requires pos < |plan.queries| && TryQuery(plan, r, pos, attempt).alive && k <= TryQuery(plan, r, pos, attempt).writes
    ensures TryQuery(plan, r, pos, attempt).writes <= r.writes
    ensures TryQuery(plan, r.(writes := r.writes - k), pos, attempt) ==
            TryQuery(plan, r, pos, attempt).(writes := TryQuery(plan, r, pos, attempt).writes - k)
    decreases plan.maxRetries - attempt
  {
    if attempt <= plan.maxRetries {
      TryQueryUnfolds(plan, r, pos, attempt);
      if GoesOn(plan, pos, attempt) {
        TryQuerySpends(plan, Asked(plan, r, pos), pos, attempt + 1, k);
      }
      TryQueryUnfolds(plan, r.(writes := r.writes - k), pos, attempt);
    }
  }

  /** Saves that a run leaves over change nothing when they are taken away. */
  lemma {:induction false} TryAllSpends(plan: Plan, r: Run, skip: set<string>, from: nat, k: nat)
    requires from <= |plan.queries| && TryAll(plan, r, skip, from).alive && k <= TryAll(plan, r, skip, from).writes
    ensures TryAll(plan, r, skip, from).writes <= r.writes
    ensures TryAll(plan, r.(writes := r.writes - k), skip, from) ==
            TryAll(plan, r, skip, from).(writes := TryAll(plan, r, skip, from).writes - k)
    decreases |plan.queries| - from
  {
    if from < |plan.queries| {
      if plan.queries[from] in skip {
        TryAllSpends(plan, r, skip, from + 1, k);
      } else {
        TryAllSpends(plan, TryQuery(plan, r, from, 0), skip, from + 1, k);
        TryQuerySpends(plan, r, from, 0, k);
      }
    }
  }

  lemma {:induction false} TryQueryUnsaved(plan: Plan, r: Run, pos: nat, attempt: nat)
    requires pos < |plan.queries| && r.writes == 0
    ensures TryQuery(plan, r, pos, attempt).disk == r.disk && TryQuery(plan, r, pos, attempt).writes == 0
    decreases plan.maxRetries - attempt
  {
    if attempt <= plan.maxRetries {
      TryQueryUnfolds(plan, r, pos, attempt);
      if GoesOn(plan, pos, attempt) { TryQueryUnsaved(plan, Asked(plan, r, pos), pos, attempt + 1); }
    }
  }

  lemma {:induction false} TryAllUnsaved(plan: Plan, r: Run, skip: set<string>, from: nat)
    requires from <= |plan.queries| && r.writes == 0
    ensures TryAll(plan, r, skip, from).disk == r.disk
    decreases |plan.queries| - from
  {
    if from < |plan.queries| && r.alive {
      if plan.queries[from] in skip {
        TryAllUnsaved(plan, r, skip, from + 1);
      } else {
        TryQueryUnsaved(plan, r, from, 0);
        TryAllUnsaved(plan, TryQuery(plan, r, from, 0), skip, from + 1);
      }
    }
  }

  function FirstQueries(plan: Plan, n: nat): Plan
    requires n <= |plan.queries|
  {
    plan.(queries := plan.queries[..n])
  }

  /** A run that would end by itself can be killed with the files as they are behind its
      first `n` queries. */
  lemma KillBehind(d: Disk, plan: Plan, n: nat) returns (writes: nat)
    requires Sound(d) && FinalRun(d, plan).alive && n <= |plan.queries|
    ensures FinalRun(d, FirstQueries(plan, n)).alive
    ensures FinalRun(d, plan.(writes := writes)).disk == FinalRun(d, FirstQueries(plan, n)).disk
  {
    var start := Load(d, plan.writes);
    var skip, part := Qids(start.pairs), FirstQueries(plan, n);
    var left := TryAll(part, start, skip, 0);
    TryAllOfPart(part, plan, start, skip, 0);
    TryAllSpends(part, start, skip, 0, left.writes);
    writes := start.writes - left.writes;
    var killed := plan.(writes := writes);
    TryAllOfPart(part, killed, start.(writes := writes), skip, 0);
    TryAllUnsaved(killed, left.(writes := 0), skip, n);
    assert Load(d, writes) == start.(writes := writes);
  }

  // ---- Kills do not matter ----

  /** After these kills one more start ends by itself and leaves what a single run leaves. */
  ghost predicate ResumesToTheSame(d: Disk, plan: Plan, kills: seq<nat>) {
    var resumed := FinalRun(AfterRuns(d, Attempts(plan, kills)), plan);
    && resumed.alive && Sound(resumed.disk) && Sound(FinalRun(d, plan).disk)
    && Stored(resumed.disk) == Stored(FinalRun(d, plan).disk)
  }

  /** A run that would end by itself can be killed any number of times behind any numbers of
      saves, and one more start then stores what it would have stored, exactly when no query
      without a saved pair is answered in two positions of the list. */
  lemma KillsDoNotMatterExactly(d: Disk, plan: Plan)
    requires Sound(d) && FinalRun(d, plan).alive
    ensures (forall kills :: ResumesToTheSame(d, plan, kills)) <==> AnsweredOnce(plan, Qids(Rows(d.qas)), 0)
  {
    if AnsweredOnce(plan, Qids(Rows(d.qas)), 0) {
      forall kills ensures ResumesToTheSame(d, plan, kills) { AnsweredOnceResumes(d, plan, kills); }
    } else {
      var kills := AnsweredTwiceDiffers(d, plan);
    }
  }

  lemma AnsweredOnceResumes(d: Disk, plan: Plan, kills: seq<nat>)
    requires Sound(d) && FinalRun(d, plan).alive && AnsweredOnce(plan, Qids(Rows(d.qas)), 0)
    ensures ResumesToTheSame(d, plan, kills)
  {
    var after := AfterRuns(d, Attempts(plan, kills));
    KilledRunsKeepTheWork(d, plan, kills);
    SavedIdsGrow(d, after);
    ResumedEnds(d, after, plan);
    FinishedRunStores(after, plan);
    FinishedRunStores(d, plan);
  }

  lemma SavedIdsGrow(d: Disk, after: Disk)
    requires Sound(d) && Sound(after) && Stored(d) <= Stored(after)
    ensures Qids(Rows(d.qas)) <= Qids(Rows(after.qas))
  {
    SavedIds(d);
    SavedIds(after);
    IdSetGrows(Stored(d), Stored(after));
  }

  lemma ResumedEnds(d: Disk, after: Disk, plan: Plan)
    requires Sound(d) && Sound(after) && FinalRun(d, plan).alive && Qids(Rows(d.qas)) <= Qids(Rows(after.qas))
    ensures FinalRun(after, plan).alive
  {
    LoadSettles(d, plan.writes);
    LoadSettles(after, plan.writes);
    var start, other := Load(d, plan.writes), Load(after, plan.writes);
    ResumingEnds(plan, start, other, Qids(start.pairs), Qids(other.pairs), 0);
  }

  lemma OneAttempt(d: Disk, plan: Plan, writes: nat)
    ensures AfterRuns(d, Attempts(plan, [writes])) == FinalRun(d, plan.(writes := writes)).disk
  {
    AttemptsUnfold(d, plan, [writes]);
  }

  /** Behind an answered position its query is saved and the later positions are to come. */
  lemma PairedBehind(d: Disk, plan: Plan, i: nat)
    requires Sound(d) && IsAnswered(plan, Qids(Rows(d.qas)), i) && FinalRun(d, FirstQueries(plan, i + 1)).alive
    ensures var after, skip := FinalRun(d, FirstQueries(plan, i + 1)).disk, Qids(Rows(d.qas));
            && Sound(after) && plan.queries[i] in Qids(Rows(after.qas))
            && Stored(after) + Harvest(plan, skip, i + 1) == Stored(d) + Harvest(plan, skip, 0)
  {
    var skip, q, part := Qids(Rows(d.qas)), plan.queries[i], FirstQueries(plan, i + 1);
    FinishedRunStores(d, part);
    HarvestOfPart(part, plan, skip, 0);
    AddInTurn(Stored(d), Harvest(part, skip, 0), Harvest(plan, skip, i + 1));
    FirstAnswerOfPart(part, plan, i, 0);
    assert IsAnswered(part, skip, i) && part.queries[i] == q;
    HarvestHolds(part, skip, 0, q);
    IdSetOfSum(Stored(d), Harvest(part, skip, 0));
    SavedIds(FinalRun(d, part).disk);
  }

  /** From files that hold the query of position `i`, a run does not add its later answers. */
  lemma LaterAnswerIsLost(d: Disk, after: Disk, plan: Plan, i: nat)
    requires Sound(d) && Sound(after) && FinalRun(d, plan).alive && FinalRun(after, plan).alive && i < |plan.queries|
    requires Stored(after) + Harvest(plan, Qids(Rows(d.qas)), i + 1) == Stored(d) + Harvest(plan, Qids(Rows(d.qas)), 0)
    requires plan.queries[i] in Qids(Rows(after.qas))
    requires AnsweredAfter(plan, Qids(Rows(d.qas)), i + 1, plan.queries[i])
    ensures Sound(FinalRun(d, plan).disk) && Sound(FinalRun(after, plan).disk)
    ensures Stored(FinalRun(after, plan).disk) != Stored(FinalRun(d, plan).disk)
  {
    var skip, more := Qids(Rows(d.qas)), Qids(Rows(after.qas));
    FinishedRunStores(after, plan);
    FinishedRunStores(d, plan);
    HarvestHolds(plan, skip, i + 1, plan.queries[i]);
    HarvestHolds(plan, more, 0, plan.queries[i]);
    if Stored(after) + Harvest(plan, more, 0) == Stored(after) + Harvest(plan, skip, i + 1) {
      SameTail(Stored(after), Harvest(plan, more, 0), Harvest(plan, skip, i + 1));
    }
  }

  lemma SecondAnswer(plan: Plan, skip: set<string>) returns (i: nat)
    requires !AnsweredOnce(plan, skip, 0)
    ensures IsAnswered(plan, skip, i) && AnsweredAfter(plan, skip, i + 1, plan.queries[i])
  {
    var j: nat;
    i, j :| i < j && IsAnswered(plan, skip, i) && IsAnswered(plan, skip, j) && plan.queries[i] == plan.queries[j];
  }

  /** Killed behind the first of two answers to one query, the work never gives the second. */
  lemma AnsweredTwiceDiffers(d: Disk, plan: Plan) returns (kills: seq<nat>)
    requires Sound(d) && FinalRun(d, plan).alive && !AnsweredOnce(plan, Qids(Rows(d.qas)), 0)
    ensures !ResumesToTheSame(d, plan, kills)
  {
    var i := SecondAnswer(plan, Qids(Rows(d.qas)));
    var writes := KillBehind(d, plan, i + 1);
    kills := [writes];
    var after := FinalRun(d, FirstQueries(plan, i + 1)).disk;
    OneAttempt(d, plan, writes);
    PairedBehind(d, plan, i);
    if FinalRun(after, plan).alive { LaterAnswerIsLost(d, after, plan, i); }
  }

  lemma SameTail(a: seq<(string, string)>, b: seq<(string, string)>, c: seq<(string, string)>)
    requires a + b == a + c
    ensures b == c
  {
    assert (a + b)[|a|..] == b && (a + c)[|a|..] == c;
  }

  // ---- The run spelled out ----

  /** The reply that ends the attempts at a position: the first that is no retryable error. */
  ghost predicate EndsAttempts(plan: Plan, pos: nat, attempt: nat) {
    && attempt <= plan.maxRetries && !plan.reply(pos, attempt).Retryable?
    && forall a: nat :: a < attempt ==> plan.reply(pos, a).Retryable?
  }

  ghost predicate MeetsFatal(plan: Plan, pos: nat) {
    exists attempt: nat :: EndsAttempts(plan, pos, attempt) && plan.reply(pos, attempt).Fatal?
  }

  /** The model is called `n` times at a position. */
  ghost predicate CalledAt(plan: Plan, pos: nat, n: nat) {
    if n > 0 && EndsAttempts(plan, pos, n - 1) then true
    else n == Limit(plan) && forall a: nat :: a <= plan.maxRetries ==> plan.reply(pos, a).Retryable?
  }

  /** The calls of the new positions in `from..n`, each query as often as it is tried. */
  ghost predicate AsksBetween(plan: Plan, skip: set<string>, from: nat, n: nat, calls: seq<string>)
    decreases n - from
  {
    if from >= n then calls == []
    else if from >= |plan.queries| then false
    else if plan.queries[from] in skip then AsksBetween(plan, skip, from + 1, n, calls)
    else exists k: nat :: k <= |calls| && CalledAt(plan, from, k) && (forall i :: 0 <= i < k ==> calls[i] == plan.queries[from])
                          && AsksBetween(plan, skip, from + 1, n, calls[k..])
  }

  /** The saves that the new positions in `from..n` take, two for each that is tried. */
  function SavesBetween(plan: Plan, skip: set<string>, from: nat, n: nat): nat
    requires n <= |plan.queries|
    decreases n - from
  {
    if from >= n then 0
    else SavesBetween(plan, skip, from + 1, n) + if plan.queries[from] in skip || plan.maxRetries < 0 then 0 else 2
  }

  /** The run cannot get past this position: a fatal reply, or too few saves. */
  ghost predicate EndsAt(plan: Plan, skip: set<string>, pos: nat) {
    && pos < |plan.queries| && plan.queries[pos] !in skip
    && (MeetsFatal(plan, pos) || plan.writes < SavesBetween(plan, skip, 0, pos + 1))
  }

  /** What a run does, said of the replies: it ends by itself exactly when no position ends
      it; then it has asked every new query and stored every answer. Otherwise it ends at the
      first such position, with the answers of the positions before stored. */
  ghost predicate SpelledOut(d: Disk, plan: Plan, after: Disk, finished: bool, calls: seq<string>)
    requires Sound(d)
  {
    var skip := Qids(Rows(d.qas));
    && Sound(after)
    && (finished <==> forall pos: nat :: !EndsAt(plan, skip, pos))
    && (finished ==> AsksBetween(plan, skip, 0, |plan.queries|, calls) && Stored(after) == Stored(d) + Harvest(plan, skip, 0))
    && forall pos: nat :: EndsAt(plan, skip, pos) && (forall p :: 0 <= p < pos ==> !EndsAt(plan, skip, p)) ==>
                       && AsksBetween(plan, skip, 0, pos + 1, calls)
                       && Stored(after) == Stored(d) + Harvest(FirstQueries(plan, pos), skip, 0)
  }

  /** A position adds the answer that ends its attempts, and nothing without one. */
  lemma {:induction false} FirstAnswerExactly(plan: Plan, pos: nat, attempt: nat, text: string)
    requires forall a: nat :: a < attempt ==> plan.reply(pos, a).Retryable?
    ensures |FirstAnswer(plan, pos, attempt)| <= 1
    ensures FirstAnswer(plan, pos, attempt) == [text] <==>
            exists a: nat :: EndsAttempts(plan, pos, a) && plan.reply(pos, a) == Answered(text)
    decreases plan.maxRetries - attempt
  {
    if attempt <= plan.maxRetries {
      if plan.reply(pos, attempt).Retryable? {
        FirstAnswerExactly(plan, pos, attempt + 1, text);
      } else {
        assert EndsAttempts(plan, pos, attempt);
        OneEnd(plan, pos, attempt);
      }
    }
  }

  lemma OneEnd(plan: Plan, pos: nat, attempt: nat)
    requires EndsAttempts(plan, pos, attempt)
    ensures forall a: nat :: EndsAttempts(plan, pos, a) ==> a == attempt
  {
  }

  /** Attempts that lie ahead end in the same way as all of them. */
  lemma {:induction false} TryQueryOutcome(plan: Plan, r: Run, pos: nat, attempt: nat)
    requires pos < |plan.queries| && r.alive && attempt <= plan.maxRetries
    requires forall a: nat :: a < attempt ==> plan.reply(pos, a).Retryable?
    ensures var q := TryQuery(plan, r, pos, attempt);
            && (q.alive <==> !MeetsFatal(plan, pos) && r.writes >= 2)
            && (q.alive ==> q.writes == r.writes - 2)
            && (!q.alive ==> Rows(q.disk.qas) == Rows(r.disk.qas))
    decreases plan.maxRetries - attempt
  {
    TryQueryUnfolds(plan, r, pos, attempt);
    if GoesOn(plan, pos, attempt) {
      TryQueryOutcome(plan, Asked(plan, r, pos), pos, attempt + 1);
    } else if !plan.reply(pos, attempt).Retryable? {
      assert EndsAttempts(plan, pos, attempt);
      OneEnd(plan, pos, attempt);
    }
  }

  function Copies(q: string, n: nat): seq<string> {
    seq(n, _ => q)
  }

  lemma {:induction false} TryQueryAsks(plan: Plan, r: Run, pos: nat, attempt: nat) returns (n: nat)
    requires pos < |plan.queries| && forall a: nat :: a < attempt && a <= plan.maxRetries ==> plan.reply(pos, a).Retryable?
    requires attempt <= Limit(plan)
    ensures CalledAt(plan, pos, n) && n >= attempt
    ensures TryQuery(plan, r, pos, attempt).calls == r.calls + Copies(plan.queries[pos], n - attempt)
    decreases plan.maxRetries - attempt
  {
    if attempt > plan.maxRetries {
      n := attempt;
      assert r.calls + [] == r.calls;
    } else {
      TryQueryUnfolds(plan, r, pos, attempt);
      LastAttemptCalls(plan, r, pos, attempt);
      if GoesOn(plan, pos, attempt) {
        n := TryQueryAsks(plan, Asked(plan, r, pos), pos, attempt + 1);
        assert Copies(plan.queries[pos], n - attempt) == [plan.queries[pos]] + Copies(plan.queries[pos], n - attempt - 1);
      } else {
        n := attempt + 1;
        assert Copies(plan.queries[pos], 1) == [plan.queries[pos]];
        if !plan.reply(pos, attempt).Retryable? { assert EndsAttempts(plan, pos, attempt); }
      }
    }
  }

  lemma AsksOneMore(plan: Plan, skip: set<string>, from: nat, to: nat, n: nat, rest: seq<string>)
    requires from < to <= |plan.queries| && plan.queries[from] !in skip && CalledAt(plan, from, n)
    requires AsksBetween(plan, skip, from + 1, to, rest)
    ensures AsksBetween(plan, skip, from, to, Copies(plan.queries[from], n) + rest)
  {
    var calls := Copies(plan.queries[from], n) + rest;
    assert calls[n..] == rest;
  }

  /** The positions in front of `to`, none of which ends the run. */
  lemma {:induction false} TryAllGoesOn(plan: Plan, r: Run, skip: set<string>, from: nat) returns (calls: seq<string>)
    requires from <= |plan.queries| && r.alive && r.writes >= SavesBetween(plan, skip, from, |plan.queries|)
    requires forall pos :: from <= pos < |plan.queries| && plan.queries[pos] !in skip ==> !MeetsFatal(plan, pos)
    ensures var q := TryAll(plan, r, skip, from);
            q.alive && q.writes == r.writes - SavesBetween(plan, skip, from, |plan.queries|) && q.calls == r.calls + calls
    ensures AsksBetween(plan, skip, from, |plan.queries|, calls)
    decreases |plan.queries| - from
  {
    if from == |plan.queries| {
      calls := [];
    } else if plan.queries[from] in skip {
      calls := TryAllGoesOn(plan, r, skip, from + 1);
    } else {
      var q := TryQuery(plan, r, from, 0);
      var n := OnePosition(plan, r, from);
      var rest := TryAllGoesOn(plan, q, skip, from + 1);
      calls := Copies(plan.queries[from], n) + rest;
      AsksOneMore(plan, skip, from, |plan.queries|, n, rest);
      CallsInTurn(r.calls, Copies(plan.queries[from], n), rest);
    }
  }

  lemma CallsInTurn(a: seq<string>, b: seq<string>, c: seq<string>)
    ensures (a + b) + c == a + (b + c)
  {
  }

  /** A position that does not end the run takes its saves. */
  lemma OnePosition(plan: Plan, r: Run, pos: nat) returns (n: nat)
    requires pos < |plan.queries| && r.alive && !MeetsFatal(plan, pos) && (plan.maxRetries < 0 || r.writes >= 2)
    ensures var q := TryQuery(plan, r, pos, 0);
            && q.alive && q.writes == r.writes - (if plan.maxRetries < 0 then 0 else 2)
            && q.calls == r.calls + Copies(plan.queries[pos], n)
    ensures CalledAt(plan, pos, n)
  {
    if plan.maxRetries >= 0 { TryQueryOutcome(plan, r, pos, 0); }
    n := TryQueryAsks(plan, r, pos, 0);
  }

  lemma {:induction false} SavesGrow(plan: Plan, skip: set<string>, from: nat, n: nat)
    requires from <= n < |plan.queries|
    ensures SavesBetween(plan, skip, from, n + 1) ==
            SavesBetween(plan, skip, from, n) + if plan.queries[n] in skip || plan.maxRetries < 0 then 0 else 2
    decreases n - from
  {
    if from < n { SavesGrow(plan, skip, from + 1, n); }
  }

  lemma {:induction false} SavesOfPart(part: Plan, plan: Plan, skip: set<string>, from: nat, n: nat)
    requires PartOf(part, plan) && n <= |part.queries|
    ensures SavesBetween(part, skip, from, n) == SavesBetween(plan, skip, from, n)
    decreases n - from
  {
    if from < n { SavesOfPart(part, plan, skip, from + 1, n); }
  }

  lemma {:induction false} EnoughUpTo(plan: Plan, skip: set<string>, n: nat)
    requires n <= |plan.queries| && forall p :: 0 <= p < n ==> !EndsAt(plan, skip, p)
    ensures SavesBetween(plan, skip, 0, n) <= plan.writes
  {
    if n > 0 {
      EnoughUpTo(plan, skip, n - 1);
      SavesGrow(plan, skip, 0, n - 1);
      assert !EndsAt(plan, skip, n - 1);
    }
  }

  lemma FatalOfPart(part: Plan, plan: Plan, pos: nat)
    requires PartOf(part, plan)
    ensures MeetsFatal(part, pos) <==> MeetsFatal(plan, pos)
  {
    assert forall a: nat :: EndsAttempts(part, pos, a) <==> EndsAttempts(plan, pos, a);
  }

  lemma {:induction false} AsksOfPart(part: Plan, plan: Plan, skip: set<string>, from: nat, n: nat, calls: seq<string>)
    requires PartOf(part, plan) && n <= |part.queries| && AsksBetween(part, skip, from, n, calls)
    ensures AsksBetween(plan, skip, from, n, calls)
    decreases n - from
  {
    if from < n {
      if part.queries[from] in skip {
        AsksOfPart(part, plan, skip, from + 1, n, calls);
      } else {
        var k: nat :| k <= |calls| && CalledAt(part, from, k) && (forall i :: 0 <= i < k ==> calls[i] == part.queries[from])
                      && AsksBetween(part, skip, from + 1, n, calls[k..]);
        AsksOfPart(part, plan, skip, from + 1, n, calls[k..]);
        assert CalledAt(plan, from, k);
      }
    }
  }

  /** Then the calls of position `n` follow. */
  lemma {:induction false} AsksAtEnd(plan: Plan, skip: set<string>, from: nat, n: nat, calls: seq<string>, k: nat)
    requires from <= n < |plan.queries| && AsksBetween(plan, skip, from, n, calls)
    requires plan.queries[n] !in skip && CalledAt(plan, n, k)
    ensures AsksBetween(plan, skip, from, n + 1, calls + Copies(plan.queries[n], k))
    decreases n - from
  {
    if from == n {
      AsksOneMore(plan, skip, n, n + 1, k, []);
      assert calls + Copies(plan.queries[n], k) == Copies(plan.queries[n], k) + [];
    } else if plan.queries[from] in skip {
      AsksAtEnd(plan, skip, from + 1, n, calls, k);
    } else {
      var j: nat :| j <= |calls| && CalledAt(plan, from, j) && (forall i :: 0 <= i < j ==> calls[i] == plan.queries[from])
                    && AsksBetween(plan, skip, from + 1, n, calls[j..]);
      AsksAtEnd(plan, skip, from + 1, n, calls[j..], k);
      assert (calls + Copies(plan.queries[n], k))[j..] == calls[j..] + Copies(plan.queries[n], k);
    }
  }

  lemma RunGoesOn(d: Disk, plan: Plan)
    requires Sound(d) && forall pos: nat :: !EndsAt(plan, Qids(Rows(d.qas)), pos)
    ensures FinalRun(d, plan).alive
    ensures FinalRun(d, plan).writes == plan.writes - SavesBetween(plan, Qids(Rows(d.qas)), 0, |plan.queries|)
    ensures AsksBetween(plan, Qids(Rows(d.qas)), 0, |plan.queries|, FinalRun(d, plan).calls)
  {
    var start := Load(d, plan.writes);
    LoadSettles(d, plan.writes);
    EnoughUpTo(plan, Qids(start.pairs), |plan.queries|);
    forall pos | 0 <= pos < |plan.queries| && plan.queries[pos] !in Qids(start.pairs) ensures !MeetsFatal(plan, pos) {
      assert !EndsAt(plan, Qids(start.pairs), pos);
    }
    var calls := TryAllGoesOn(plan, start, Qids(start.pairs), 0);
    assert [] + calls == calls;
  }

  /** Nothing is stored at the position that ends the run. */
  lemma EndStoresNothing(plan: Plan, r: Run, start: Disk, pos: nat)
    requires pos < |plan.queries| && Settled(r, start) && r.alive && plan.maxRetries >= 0
    requires MeetsFatal(plan, pos) || r.writes < 2
    ensures var q := TryQuery(plan, r, pos, 0); !q.alive && Sound(q.disk) && Stored(q.disk) == Stored(r.disk)
  {
    TryQueryOutcome(plan, r, pos, 0);
    TryQueryKeeps(plan, r, r.disk, pos, 0);
    ExtendingResolves(r.disk, TryQuery(plan, r, pos, 0).disk);
  }

  lemma PartGoesOn(d: Disk, plan: Plan, pos: nat)
    requires Sound(d) && pos <= |plan.queries| && forall p :: 0 <= p < pos ==> !EndsAt(plan, Qids(Rows(d.qas)), p)
    ensures var part, skip := FirstQueries(plan, pos), Qids(Rows(d.qas));
            var left := FinalRun(d, part);
            && left.alive && left.writes == plan.writes - SavesBetween(plan, skip, 0, pos)
            && AsksBetween(plan, skip, 0, pos, left.calls)
  {
    var part, skip := FirstQueries(plan, pos), Qids(Rows(d.qas));
    forall p: nat ensures !EndsAt(part, skip, p) {
      if p < pos {
        assert !EndsAt(plan, skip, p);
        FatalOfPart(part, plan, p);
        SavesOfPart(part, plan, skip, 0, p + 1);
      }
    }
    RunGoesOn(d, part);
    SavesOfPart(part, plan, skip, 0, pos);
    AsksOfPart(part, plan, skip, 0, pos, FinalRun(d, part).calls);
  }

  lemma EndingRun(d: Disk, plan: Plan, pos: nat)
    requires Sound(d) && pos < |plan.queries| && plan.queries[pos] !in Qids(Rows(d.qas))
    requires var left := FinalRun(d, FirstQueries(plan, pos)); left.alive && !TryQuery(plan, left, pos, 0).alive
    ensures FinalRun(d, plan) == TryQuery(plan, FinalRun(d, FirstQueries(plan, pos)), pos, 0)
  {
    LoadSettles(d, plan.writes);
    TryAllOfPart(FirstQueries(plan, pos), plan, Load(d, plan.writes), Qids(Rows(d.qas)), 0);
  }

  lemma PartSettles(d: Disk, plan: Plan)
    requires Sound(d) && FinalRun(d, plan).alive
    ensures Settled(FinalRun(d, plan), d)
  {
    LoadSettles(d, plan.writes);
    TryAllSettles(plan, Load(d, plan.writes), d, Qids(Rows(d.qas)), 0);
  }

  lemma RunEnds(d: Disk, plan: Plan, pos: nat)
    requires Sound(d) && EndsAt(plan, Qids(Rows(d.qas)), pos)
    requires forall p :: 0 <= p < pos ==> !EndsAt(plan, Qids(Rows(d.qas)), p)
    ensures var run, skip := FinalRun(d, plan), Qids(Rows(d.qas));
            && !run.alive && Sound(run.disk) && AsksBetween(plan, skip, 0, pos + 1, run.calls)
            && Stored(run.disk) == Stored(d) + Harvest(FirstQueries(plan, pos), skip, 0)
  {
    var part, skip := FirstQueries(plan, pos), Qids(Rows(d.qas));
    var left := FinalRun(d, part);
    PartGoesOn(d, plan, pos);
    FinishedRunStores(d, part);
    PartSettles(d, part);
    SavesGrow(plan, skip, 0, pos);
    EndStoresNothing(plan, left, d, pos);
    EndingRun(d, plan, pos);
    var k := TryQueryAsks(plan, left, pos, 0);
    AsksAtEnd(plan, skip, 0, pos, left.calls, k);
  }

  lemma {:induction false} FirstEnd(plan: Plan, skip: set<string>, n: nat) returns (pos: nat)
    requires EndsAt(plan, skip, n)
    ensures EndsAt(plan, skip, pos) && forall p :: 0 <= p < pos ==> !EndsAt(plan, skip, p)
  {
    pos := n;
    if p: nat :| p < n && EndsAt(plan, skip, p) { pos := FirstEnd(plan, skip, p); }
  }

  /** Every run is as its replies, its saves and the saved pairs spell it out. */
  lemma RunIsSpelledOut(d: Disk, plan: Plan)
    requires Sound(d)
    ensures SpelledOut(d, plan, FinalRun(d, plan).disk, FinalRun(d, plan).alive, FinalRun(d, plan).calls)
  {
    var skip := Qids(Rows(d.qas));
    RunKeeps(d, plan);
    if forall pos: nat :: !EndsAt(plan, skip, pos) {
      RunGoesOn(d, plan);
      FinishedRunStores(d, plan);
    } else {
      var n: nat :| EndsAt(plan, skip, n);
      var first := FirstEnd(plan, skip, n);
      RunEnds(d, plan, first);
      forall pos: nat | EndsAt(plan, skip, pos) && (forall p :: 0 <= p < pos ==> !EndsAt(plan, skip, p)) ensures pos == first {
        assert !(pos < first) && !(first < pos);
      }
    }
  }
}
