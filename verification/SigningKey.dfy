/** First-writer-wins creation of the desktop signing key, as interleaved steps of any number
    of processes on one directory. Writing the key is one step. */
module SigningKey {
  import opened Wrappers

  type Bytes = seq<bv8>

  /** A key is 32 random bytes in unpadded base64. */
  const KEY_LENGTH := 43

  const MIN_LENGTH := 32

  datatype Phase =
    | Starting
    | Missing(key: Bytes)
    | Created(key: Bytes)
    | Existing
    | Loaded(key: Bytes)
    | Succeeded(key: Bytes)
    | Failed

  /** The key file, and every process that ever ran. */
  datatype System = System(file: Option<Bytes>, phases: map<nat, Phase>)

  /** What a step of a process meets: a random key, a fault of the system, a write cut short
      that reports an error, a failing close, or a kill. */
  datatype Event =
    | Start
    | FirstRead(random: Bytes)
    | Open
    | SecondRead
    | Write
    | ShortWrite(length: nat)
    | CloseFails
    | CheckLength
    | Fault

  function PhaseOf(s: System, process: nat): Option<Phase> {
    if process in s.phases then Some(s.phases[process]) else None
  }

  function To(s: System, process: nat, phase: Phase): System {
    s.(phases := s.phases[process := phase])
  }

  /** One step of one process; a step that is not enabled leaves everything as it is. */
  function Next(s: System, process: nat, event: Event): System {
    match (PhaseOf(s, process), event)
    case (None, Start) => To(s, process, Starting)
    case (None, _) => s
    case (Some(Succeeded(_)), _) => s
    case (Some(_), Fault) => To(s, process, Failed)
    case (Some(Starting), FirstRead(random)) =>
      if s.file.Some? then To(s, process, Loaded(s.file.value))
      else if |random| == KEY_LENGTH then To(s, process, Missing(random)) else s
    case (Some(Missing(key)), Open) =>
      if s.file.Some? then To(s, process, Existing)
      else To(s, process, Created(key)).(file := Some([]))
    case (Some(Existing), SecondRead) =>
      To(s, process, if s.file.Some? then Loaded(s.file.value) else Failed)
    case (Some(Created(key)), Write) => To(s, process, Loaded(key)).(file := Some(key))
    case (Some(Created(key)), ShortWrite(length)) =>
      To(s, process, Failed).(file := Some(key[..if length <= |key| then length else |key|]))
    case (Some(Created(key)), CloseFails) => To(s, process, Failed).(file := Some(key))
    case (Some(Loaded(key)), CheckLength) =>
      To(s, process, if |key| < MIN_LENGTH then Failed else Succeeded(key))
    case _ => s
  }

  function Execute(s: System, schedule: seq<(nat, Event)>): System
    decreases |schedule|
  {
    if schedule == [] then s else Execute(Next(s, schedule[0].0, schedule[0].1), schedule[1..])
  }

  /** A directory with any file content, before any process runs. */
  function Fresh(file: Option<Bytes>): System { System(file, map[]) }

  // ---- What every interleaving keeps ----

  ghost predicate PhaseOk(s: System, phase: Phase) {
    match phase
    case Missing(key) => |key| == KEY_LENGTH
    case Created(key) => |key| == KEY_LENGTH && s.file == Some([])
    case Existing => s.file.Some?
    case Loaded(key) => s.file.Some? && (key != [] ==> s.file.value == key)
    case Succeeded(key) => s.file == Some(key) && |key| >= MIN_LENGTH
    case _ => true
  }

  /** Nobody can write any more unless it alone created the file, which is then empty. */
  ghost predicate Invariant(s: System) {
    && (forall p :: p in s.phases ==> PhaseOk(s, s.phases[p]))
    && (forall p, q :: p in s.phases && q in s.phases && s.phases[p].Created? && s.phases[q].Created? ==> p == q)
  }

  lemma StepKeeps(s: System, process: nat, event: Event)
    requires Invariant(s)
    ensures var t := Next(s, process, event);
            && Invariant(t)
            && (s.file.Some? ==> t.file.Some?)
            && (s.file.Some? && s.file.value != [] ==> t.file == s.file)
  {
    var t := Next(s, process, event);
    forall p | p in t.phases ensures PhaseOk(t, t.phases[p]) {
      if p in s.phases {
        assert PhaseOk(s, s.phases[p]);
      }
    }
  }

  /** Once the file has content, no interleaving changes it. */
  lemma {:induction false} ContentIsFinal(s: System, schedule: seq<(nat, Event)>)
    requires Invariant(s)
    ensures var t := Execute(s, schedule);
            && Invariant(t)
            && (s.file.Some? ==> t.file.Some?)
            && (s.file.Some? && s.file.value != [] ==> t.file == s.file)
    decreases |schedule|
  {
    if schedule != [] {
      StepKeeps(s, schedule[0].0, schedule[0].1);
      ContentIsFinal(Next(s, schedule[0].0, schedule[0].1), schedule[1..]);
    }
  }

  /** All processes that succeed end with the same key, and it is what the file holds. */
  lemma SuccessesAgree(file: Option<Bytes>, schedule: seq<(nat, Event)>, p: nat, q: nat)
    requires var s := Execute(Fresh(file), schedule);
             p in s.phases && q in s.phases && s.phases[p].Succeeded? && s.phases[q].Succeeded?
    ensures var s := Execute(Fresh(file), schedule);
            && s.phases[p].key == s.phases[q].key
            && s.file == Some(s.phases[p].key) && |s.phases[p].key| >= 32
            && (file.Some? ==> file == s.file)
  {
    ContentIsFinal(Fresh(file), schedule);
    var s := Execute(Fresh(file), schedule);
    assert PhaseOk(s, s.phases[p]) && PhaseOk(s, s.phases[q]);
    if file == Some([]) { NobodyRepairs(Fresh(file), schedule); }
  }

  // ---- When anybody can succeed at all ----

  ghost predicate Unrepairable(s: System) {
    && Invariant(s) && s.file.Some? && |s.file.value| < MIN_LENGTH
    && forall p :: p in s.phases ==> !s.phases[p].Created?
  }

  /** A short file whose creator is gone stays short, and every process fails on it. */
  lemma {:induction false} NobodyRepairs(s: System, schedule: seq<(nat, Event)>)
    requires Unrepairable(s)
    ensures Unrepairable(Execute(s, schedule)) && Execute(s, schedule).file == s.file
    ensures forall p :: p in Execute(s, schedule).phases ==> !Execute(s, schedule).phases[p].Succeeded?
    decreases |schedule|
  {
    if schedule != [] {
      var t := Next(s, schedule[0].0, schedule[0].1);
      StepKeeps(s, schedule[0].0, schedule[0].1);
      assert schedule[0].0 in s.phases ==> PhaseOk(s, s.phases[schedule[0].0]);
      assert t.file == s.file;
      NobodyRepairs(t, schedule[1..]);
    } else {
      forall p | p in s.phases ensures !s.phases[p].Succeeded? {
        assert PhaseOk(s, s.phases[p]);
      }
    }
  }

  /** Some interleaving lets a process succeed exactly when the directory starts without a
      key file or with one of at least 32 bytes. */
  lemma SomebodyCanSucceedExactly(file: Option<Bytes>)
    ensures (exists schedule, p :: PhaseOf(Execute(Fresh(file), schedule), p).Some? && PhaseOf(Execute(Fresh(file), schedule), p).value.Succeeded?)
       <==> (file.Some? ==> |file.value| >= 32)
  {
    if file.Some? && |file.value| < MIN_LENGTH {
      forall schedule, p | PhaseOf(Execute(Fresh(file), schedule), p).Some?
        ensures !PhaseOf(Execute(Fresh(file), schedule), p).value.Succeeded?
      {
        NobodyRepairs(Fresh(file), schedule);
      }
    } else {
      var random: Bytes := seq(KEY_LENGTH, _ => 0);
      SoloRun(file, 0, random);
      var schedule := Solo(file, 0, random);
      assert PhaseOf(Execute(Fresh(file), schedule), 0).Some?;
    }
  }

  // ---- Who fails when nothing goes wrong ----

  /** No fault of the system, no short write, no failing close, no kill. */
  predicate Smooth(event: Event) {
    !event.Fault? && !event.ShortWrite? && !event.CloseFails?
  }

  predicate AllSmooth(schedule: seq<(nat, Event)>) {
    forall k :: 0 <= k < |schedule| ==> Smooth(schedule[k].1)
  }

  /** The file is there and empty: its creator has not written yet. */
  ghost predicate HalfMade(s: System) {
    s.file == Some([]) && exists q :: q in s.phases && s.phases[q].Created?
  }

  /** This step of the process is its first or second read, and it meets the file between
      the create and the write of another process. */
  ghost predicate ReadsHalfMade(s: System, process: nat, step: (nat, Event)) {
    && step.0 == process && HalfMade(s) && process in s.phases
    && ((s.phases[process].Starting? && step.1.FirstRead?) || (s.phases[process].Existing? && step.1.SecondRead?))
  }

  /** Some read of the process in this schedule meets the file half made. */
  ghost predicate SeesHalfMade(s: System, process: nat, schedule: seq<(nat, Event)>)
    decreases |schedule|
  {
    schedule != [] &&
    (ReadsHalfMade(s, process, schedule[0]) || SeesHalfMade(Next(s, schedule[0].0, schedule[0].1), process, schedule[1..]))
  }

  /** What holds from a directory without a key file while nothing goes wrong. */
  ghost predicate SmoothState(s: System) {
    && Invariant(s)
    && (s.file.Some? ==> HalfMade(s) || |s.file.value| == KEY_LENGTH)
    && forall p :: p in s.phases ==>
         match s.phases[p]
         case Loaded(key) => key == [] || |key| == KEY_LENGTH
         case _ => true
  }

  /** The process has failed, or holds the empty key it is about to fail on. */
  predicate Doomed(s: System, p: nat) {
    p in s.phases && (s.phases[p].Failed? || s.phases[p] == Loaded([]))
  }

  lemma SmoothStepKeepsFile(s: System, p: nat, event: Event)
    requires SmoothState(s) && Smooth(event)
    ensures var t := Next(s, p, event); t.file.Some? ==> HalfMade(t) || |t.file.value| == KEY_LENGTH
  {
    var t := Next(s, p, event);
    assert p in s.phases ==> PhaseOk(s, s.phases[p]);
    if HalfMade(s) && t.file == s.file {
      var q :| q in s.phases && s.phases[q].Created?;
      assert q in t.phases && t.phases[q].Created?;
    }
    if t.file != s.file && t.phases[p].Created? {
      assert HalfMade(t);
    }
  }

  lemma SmoothStep(s: System, p: nat, event: Event, process: nat)
    requires SmoothState(s) && Smooth(event)
    ensures SmoothState(Next(s, p, event))
    ensures Doomed(Next(s, p, event), process) <==> Doomed(s, process) || ReadsHalfMade(s, process, (p, event))
  {
    StepKeeps(s, p, event);
    SmoothStepKeepsFile(s, p, event);
    assert p in s.phases ==> PhaseOk(s, s.phases[p]);
  }

  lemma {:induction false} DoomedExactly(s: System, schedule: seq<(nat, Event)>, process: nat)
    requires SmoothState(s) && AllSmooth(schedule)
    ensures SmoothState(Execute(s, schedule))
    ensures Doomed(Execute(s, schedule), process) <==> Doomed(s, process) || SeesHalfMade(s, process, schedule)
    decreases |schedule|
  {
    if schedule != [] {
      var p, event := schedule[0].0, schedule[0].1;
      SmoothStep(s, p, event, process);
      assert forall k :: 0 <= k < |schedule[1..]| ==> schedule[1..][k] == schedule[k + 1];
      DoomedExactly(Next(s, p, event), schedule[1..], process);
      assert (p, event) == schedule[0];
    }
  }

  /** From a directory without a key file and with nothing going wrong, a process that has
      ended failed exactly when one of its reads met the file between another process's
      create and its write. */
  lemma SmoothFailuresExactly(schedule: seq<(nat, Event)>, process: nat)
    requires AllSmooth(schedule)
    requires var end := PhaseOf(Execute(Fresh(None), schedule), process); end.Some? && (end.value.Succeeded? || end.value.Failed?)
    ensures PhaseOf(Execute(Fresh(None), schedule), process).value.Failed? <==> SeesHalfMade(Fresh(None), process, schedule)
  {
    DoomedExactly(Fresh(None), schedule, process);
  }

  // ---- Errors ----

  lemma {:induction false} FailedStaysFailed(s: System, schedule: seq<(nat, Event)>, process: nat)
    requires PhaseOf(s, process) == Some(Failed)
    ensures PhaseOf(Execute(s, schedule), process) == Some(Failed)
    decreases |schedule|
  {
    if schedule != [] { FailedStaysFailed(Next(s, schedule[0].0, schedule[0].1), schedule[1..], process); }
  }

  /** A process that meets a fault, a write cut short or a failing close before it is done has
      failed for good; what was written by then stays in the file. */
  lemma ErrorEndsTheProcess(s: System, process: nat, event: Event, schedule: seq<(nat, Event)>)
    requires PhaseOf(s, process).Some? && !PhaseOf(s, process).value.Succeeded?
    requires event.Fault? || (PhaseOf(s, process).value.Created? && (event.ShortWrite? || event.CloseFails?))
    ensures PhaseOf(Execute(s, [(process, event)] + schedule), process) == Some(Failed)
    ensures event.Fault? ==> Next(s, process, event).file == s.file
    ensures event.CloseFails? ==> Next(s, process, event).file == Some(PhaseOf(s, process).value.key)
    ensures event.ShortWrite? ==> Next(s, process, event).file.Some? && Next(s, process, event).file.value <= PhaseOf(s, process).value.key
  {
    ExecuteOne(s, process, event, schedule);
    FailedStaysFailed(Next(s, process, event), schedule, process);
  }

  function Solo(file: Option<Bytes>, p: nat, random: Bytes): seq<(nat, Event)> {
    if file.Some? then [(p, Start), (p, FirstRead(random)), (p, CheckLength)]
    else [(p, Start), (p, FirstRead(random)), (p, Open), (p, Write), (p, CheckLength)]
  }

  lemma {:induction false} ExecuteOne(s: System, process: nat, event: Event, rest: seq<(nat, Event)>)
    ensures Execute(s, [(process, event)] + rest) == Execute(Next(s, process, event), rest)
  {
    assert ([(process, event)] + rest)[1..] == rest;
  }

  /** A process alone, without faults, keeps the key that is there or stores its own. */
  lemma SoloRun(file: Option<Bytes>, p: nat, random: Bytes)
    requires |random| == 43 && (file.Some? ==> |file.value| >= 32)
    ensures var key := if file.Some? then file.value else random;
            Execute(Fresh(file), Solo(file, p, random)) == System(Some(key), map[p := Succeeded(key)])
  {
    var s0 := Fresh(file);
    var s1 := Next(s0, p, Start);
    var s2 := Next(s1, p, FirstRead(random));
    var key := if file.Some? then file.value else random;
    var last := [(p, CheckLength)];
    assert last == [(p, CheckLength)] + [];
    if file.Some? {
      ExecuteOne(s2, p, CheckLength, []);
      ExecuteOne(s1, p, FirstRead(random), last);
      ExecuteOne(s0, p, Start, [(p, FirstRead(random))] + last);
      assert Solo(file, p, random) == [(p, Start)] + ([(p, FirstRead(random))] + last);
    } else {
      var s3 := Next(s2, p, Open);
      var s4 := Next(s3, p, Write);
      ExecuteOne(s4, p, CheckLength, []);
      ExecuteOne(s3, p, Write, last);
      ExecuteOne(s2, p, Open, [(p, Write)] + last);
      ExecuteOne(s1, p, FirstRead(random), [(p, Open)] + ([(p, Write)] + last));
      ExecuteOne(s0, p, Start, [(p, FirstRead(random))] + ([(p, Open)] + ([(p, Write)] + last)));
      assert Solo(file, p, random) == [(p, Start)] + ([(p, FirstRead(random))] + ([(p, Open)] + ([(p, Write)] + last)));
    }
  }
}
