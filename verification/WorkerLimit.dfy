/** The process-wide worker limiter, as interleaved steps of any number of calls. A nested
    call of one thread counts as a call of its own. */
module WorkerLimit {
  import opened Wrappers

  datatype Request = Request(name: string, maxWorkers: int)

  /** Where one call of `parser_worker_limit` stands. */
  datatype Phase =
    | Idle
    | WantLock(request: Request)
    | Looking(request: Request)
    | Creating(request: Request)
    | Unlocking(request: Request, limiter: nat)
    | Waiting(request: Request, limiter: nat)
    | Inside(request: Request, limiter: nat)
    | Leaving(request: Request, limiter: nat)
    | Unthrottled(request: Request)
    | OverReleased

  /** A bounded semaphore with its initial value. */
  datatype Semaphore = Semaphore(bound: int, permits: int)

  /** The registry, the semaphores it refers to, the registry lock, and every call; `log`
      lists the requests in the order in which they got the lock. */
  datatype System = System(
    limiters: map<string, nat>,
    semaphores: seq<Semaphore>,
    lock: Option<nat>,
    phases: map<nat, Phase>,
    log: seq<Request>)

  /** The body of a call may return or raise; either way the limiter is released. */
  datatype Action = Call(request: Request) | TakeLock | Look | Create | Unlock | Acquire | Finish(raises: bool) | Release

  const START := System(map[], [], None, map[], [])

  function PhaseOf(s: System, call: nat): Phase {
    if call in s.phases then s.phases[call] else Idle
  }

  function To(s: System, call: nat, phase: Phase): System {
    s.(phases := s.phases[call := phase])
  }

  /** One step of one call; a step that is not enabled leaves everything as it is. */
  function Next(s: System, call: nat, action: Action): System {
    match (PhaseOf(s, call), action)
    case (Idle, Call(request)) =>
      To(s, call, if request.maxWorkers <= 0 then Unthrottled(request) else WantLock(request))
    case (WantLock(request), TakeLock) =>
      if s.lock.Some? then s
      else To(s, call, Looking(request)).(lock := Some(call), log := s.log + [request])
    case (Looking(request), Look) =>
      To(s, call, if request.name in s.limiters then Unlocking(request, s.limiters[request.name]) else Creating(request))
    case (Creating(request), Create) =>
      To(s, call, Unlocking(request, |s.semaphores|)).(
        semaphores := s.semaphores + [Semaphore(request.maxWorkers, request.maxWorkers)],
        limiters := s.limiters[request.name := |s.semaphores|])
    case (Unlocking(request, limiter), Unlock) =>
      To(s, call, Waiting(request, limiter)).(lock := None)
    case (Waiting(request, limiter), Acquire) =>
      if limiter < |s.semaphores| && s.semaphores[limiter].permits > 0
      then AddPermits(To(s, call, Inside(request, limiter)), limiter, -1) else s
    case (Inside(request, limiter), Finish(_)) => To(s, call, Leaving(request, limiter))
    case (Leaving(request, limiter), Release) =>
      if limiter < |s.semaphores| && s.semaphores[limiter].permits < s.semaphores[limiter].bound
      then AddPermits(To(s, call, Idle), limiter, 1) else To(s, call, OverReleased)
    case (Unthrottled(_), Finish(_)) => To(s, call, Idle)
    case _ => s
  }

  function AddPermits(s: System, limiter: nat, n: int): System
    requires limiter < |s.semaphores|
  {
    var semaphore := s.semaphores[limiter];
    s.(semaphores := s.semaphores[limiter := semaphore.(permits := semaphore.permits + n)])
  }

  /** An interleaving: which call takes which step, in turn. */
  function Execute(s: System, schedule: seq<(nat, Action)>): System
    decreases |schedule|
  {
    if schedule == [] then s else Execute(Next(s, schedule[0].0, schedule[0].1), schedule[1..])
  }

  // ---- What every interleaving keeps ----

  /** The bound of the first request logged under a name. */
  function FirstBound(log: seq<Request>, name: string): Option<int> {
    if log == [] then None
    else if log[0].name == name then Some(log[0].maxWorkers)
    else FirstBound(log[1..], name)
  }

  predicate Holds(phase: Phase, limiter: nat) {
    (phase.Inside? || phase.Leaving?) && phase.limiter == limiter
  }

  function Holders(s: System, limiter: nat): set<nat> {
    set call | call in s.phases && Holds(s.phases[call], limiter)
  }

  predicate InLock(phase: Phase) {
    phase.Looking? || phase.Creating? || phase.Unlocking?
  }

  predicate PhaseOk(s: System, phase: Phase) {
    match phase
    case WantLock(request) => request.maxWorkers > 0
    case Looking(request) => request.maxWorkers > 0
    case Creating(request) => request.maxWorkers > 0 && request.name !in s.limiters
    case Unlocking(request, limiter) => request.name in s.limiters && s.limiters[request.name] == limiter
    case Waiting(request, limiter) => request.name in s.limiters && s.limiters[request.name] == limiter
    case Inside(request, limiter) => request.name in s.limiters && s.limiters[request.name] == limiter
    case Leaving(request, limiter) => request.name in s.limiters && s.limiters[request.name] == limiter
    case OverReleased => false
    case _ => true
  }

  ghost predicate LockOk(s: System) {
    forall call: nat :: InLock(PhaseOf(s, call)) <==> s.lock == Some(call)
  }

  ghost predicate PhasesOk(s: System) {
    forall call :: call in s.phases ==> PhaseOk(s, s.phases[call])
  }

  /** Free permits and holders together make up the bound. */
  ghost predicate PermitsOk(s: System) {
    forall k :: 0 <= k < |s.semaphores| ==>
                  && 0 <= s.semaphores[k].permits && 0 < s.semaphores[k].bound
                  && s.semaphores[k].permits + |Holders(s, k)| == s.semaphores[k].bound
  }

  /** The call in the lock is about to register this name. */
  ghost predicate Registering(s: System, name: string) {
    && s.lock.Some?
    && var phase := PhaseOf(s, s.lock.value);
       && (phase.Looking? || phase.Creating?) && phase.request.name == name
       && FirstBound(s.log, name) == Some(phase.request.maxWorkers)
  }

  ghost predicate LogOk(s: System) {
    && (forall name :: name in s.limiters ==> s.limiters[name] < |s.semaphores|)
    && (forall name :: name in s.limiters ==> FirstBound(s.log, name) == Some(s.semaphores[s.limiters[name]].bound))
    && (forall name :: name !in s.limiters && FirstBound(s.log, name).Some? ==> Registering(s, name))
    && (s.lock.Some? ==> var phase := PhaseOf(s, s.lock.value);
                         (phase.Looking? || phase.Creating?) ==> FirstBound(s.log, phase.request.name).Some?)
    && (forall m, n :: m in s.limiters && n in s.limiters && s.limiters[m] == s.limiters[n] ==> m == n)
  }

  ghost predicate Invariant(s: System) {
    LockOk(s) && PhasesOk(s) && PermitsOk(s) && LogOk(s)
  }

  lemma {:induction false} FirstBoundAppend(log: seq<Request>, request: Request, name: string)
    ensures FirstBound(log + [request], name) ==
            if FirstBound(log, name).Some? then FirstBound(log, name)
            else if request.name == name then Some(request.maxWorkers) else None
  {
    if log == [] {
      assert log + [request] == [request];
    } else {
      assert (log + [request])[1..] == log[1..] + [request];
      FirstBoundAppend(log[1..], request, name);
    }
  }

  lemma HoldersAfter(s: System, call: nat, phase: Phase, limiter: nat)
    ensures Holders(To(s, call, phase), limiter) ==
            if Holds(phase, limiter) then Holders(s, limiter) + {call} else Holders(s, limiter) - {call}
    ensures call in Holders(s, limiter) <==> Holds(PhaseOf(s, call), limiter)
  {
  }

  /** A call that neither gains nor gives up a permit changes no holder set. */
  lemma SameHolders(s: System, call: nat, phase: Phase)
    requires forall k :: Holds(PhaseOf(s, call), k) <==> Holds(phase, k)
    ensures forall k :: Holders(To(s, call, phase), k) == Holders(s, k)
  {
    forall k: nat ensures Holders(To(s, call, phase), k) == Holders(s, k) { HoldersAfter(s, call, phase, k); }
  }

  lemma AcquireKeepsPermits(s: System, call: nat, request: Request, limiter: nat)
    requires PermitsOk(s) && PhaseOf(s, call) == Waiting(request, limiter)
    requires limiter < |s.semaphores| && s.semaphores[limiter].permits > 0
    ensures PermitsOk(AddPermits(To(s, call, Inside(request, limiter)), limiter, -1))
  {
    var t := AddPermits(To(s, call, Inside(request, limiter)), limiter, -1);
    forall k | 0 <= k < |t.semaphores|
      ensures 0 <= t.semaphores[k].permits && t.semaphores[k].permits + |Holders(t, k)| == t.semaphores[k].bound
    {
      HoldersAfter(s, call, Inside(request, limiter), k);
      assert Holders(t, k) == Holders(To(s, call, Inside(request, limiter)), k);
    }
  }

  /** A call that is about to release holds a permit, so the release is never one too many. */
  lemma ReleaseKeepsPermits(s: System, call: nat, request: Request, limiter: nat)
    requires PermitsOk(s) && PhaseOf(s, call) == Leaving(request, limiter) && limiter < |s.semaphores|
    ensures s.semaphores[limiter].permits < s.semaphores[limiter].bound
    ensures PermitsOk(AddPermits(To(s, call, Idle), limiter, 1))
  {
    HoldersAfter(s, call, Idle, limiter);
    var t := AddPermits(To(s, call, Idle), limiter, 1);
    forall k | 0 <= k < |t.semaphores|
      ensures 0 <= t.semaphores[k].permits && t.semaphores[k].permits + |Holders(t, k)| == t.semaphores[k].bound
    {
      HoldersAfter(s, call, Idle, k);
      assert Holders(t, k) == Holders(To(s, call, Idle), k);
    }
  }

  lemma NobodyHoldsTheNext(s: System)
    requires PhasesOk(s) && LogOk(s)
    ensures Holders(s, |s.semaphores|) == {}
  {
    forall call | call in s.phases ensures !Holds(s.phases[call], |s.semaphores|) {
      assert PhaseOk(s, s.phases[call]);
    }
  }

  lemma CreateKeepsPermits(s: System, call: nat, request: Request)
    requires PermitsOk(s) && PhaseOf(s, call) == Creating(request) && request.maxWorkers > 0
    requires Holders(s, |s.semaphores|) == {}
    ensures PermitsOk(Next(s, call, Create))
  {
    var t := Next(s, call, Create);
    SameHolders(s, call, PhaseOf(t, call));
    forall k | 0 <= k < |t.semaphores|
      ensures && 0 <= t.semaphores[k].permits && 0 < t.semaphores[k].bound
              && t.semaphores[k].permits + |Holders(t, k)| == t.semaphores[k].bound
    {
      assert Holders(t, k) == Holders(To(s, call, PhaseOf(t, call)), k);
    }
  }

  lemma StepKeepsPermits(s: System, call: nat, action: Action)
    requires Invariant(s)
    ensures PermitsOk(Next(s, call, action))
    ensures PhaseOf(Next(s, call, action), call) != OverReleased
  {
    var phase := PhaseOf(s, call);
    assert PhaseOk(s, phase);
    if phase.Creating? && action.Create? {
      NobodyHoldsTheNext(s);
      CreateKeepsPermits(s, call, phase.request);
    } else if phase.Waiting? && action.Acquire? {
      if s.semaphores[phase.limiter].permits > 0 { AcquireKeepsPermits(s, call, phase.request, phase.limiter); }
    } else if phase.Leaving? && action.Release? {
      ReleaseKeepsPermits(s, call, phase.request, phase.limiter);
    } else {
      OtherStepKeepsPermits(s, call, action);
    }
  }

  lemma OtherStepKeepsPermits(s: System, call: nat, action: Action)
    requires Invariant(s)
    requires (!action.Release? && !action.Acquire? && !action.Create?) || Next(s, call, action) == s
    ensures PermitsOk(Next(s, call, action))
  {
    var t := Next(s, call, action);
    if t != s {
      SameHolders(s, call, PhaseOf(t, call));
      forall k: nat ensures Holders(t, k) == Holders(s, k) {
        assert Holders(t, k) == Holders(To(s, call, PhaseOf(t, call)), k);
      }
    }
  }

  lemma StepMovesLock(s: System, call: nat, action: Action)
    requires InLock(PhaseOf(s, call)) <==> s.lock == Some(call)
    ensures InLock(PhaseOf(Next(s, call, action), call)) <==> Next(s, call, action).lock == Some(call)
    ensures var t := Next(s, call, action);
            t.lock == s.lock || (s.lock == None && t.lock == Some(call)) || (s.lock == Some(call) && t.lock == None)
    ensures forall other: nat :: other != call ==> PhaseOf(Next(s, call, action), other) == PhaseOf(s, other)
  {
  }

  lemma StepKeepsLock(s: System, call: nat, action: Action)
    requires LockOk(s)
    ensures LockOk(Next(s, call, action))
  {
    StepMovesLock(s, call, action);
    var t := Next(s, call, action);
    forall other: nat ensures InLock(PhaseOf(t, other)) <==> t.lock == Some(other) {
      assert InLock(PhaseOf(s, other)) <==> s.lock == Some(other);
    }
  }

  lemma StepKeepsPhases(s: System, call: nat, action: Action)
    requires Invariant(s)
    ensures PhasesOk(Next(s, call, action))
  {
    var t := Next(s, call, action);
    StepKeepsPermits(s, call, action);
    assert InLock(PhaseOf(s, call)) <==> s.lock == Some(call);
    assert PhaseOk(s, PhaseOf(s, call));
    forall other | other in t.phases ensures PhaseOk(t, t.phases[other]) {
      if other != call { OtherPhaseStaysOk(s, call, action, other); }
    }
  }

  lemma OtherPhaseStaysOk(s: System, call: nat, action: Action, other: nat)
    requires Invariant(s) && other in s.phases && other != call
    ensures other in Next(s, call, action).phases && PhaseOk(Next(s, call, action), s.phases[other])
    ensures Next(s, call, action).phases[other] == s.phases[other]
  {
    assert PhaseOk(s, s.phases[other]);
    assert InLock(PhaseOf(s, other)) <==> s.lock == Some(other);
    assert InLock(PhaseOf(s, call)) <==> s.lock == Some(call);
  }

  lemma TakeLockKeepsLog(s: System, call: nat, request: Request)
    requires Invariant(s) && PhaseOf(s, call) == WantLock(request) && s.lock.None?
    ensures LogOk(Next(s, call, TakeLock))
  {
    var t := Next(s, call, TakeLock);
    FirstBoundAppend(s.log, request, request.name);
    forall name | name in t.limiters
      ensures FirstBound(t.log, name) == Some(t.semaphores[t.limiters[name]].bound)
    {
      FirstBoundAppend(s.log, request, name);
    }
    forall name | name !in t.limiters && FirstBound(t.log, name).Some? ensures Registering(t, name) {
      FirstBoundAppend(s.log, request, name);
    }
  }

  lemma CreateKeepsLog(s: System, call: nat, request: Request)
    requires Invariant(s) && PhaseOf(s, call) == Creating(request)
    ensures LogOk(Next(s, call, Create))
  {
    var t := Next(s, call, Create);
    assert InLock(PhaseOf(s, call)) <==> s.lock == Some(call);
    forall name | name in t.limiters
      ensures t.limiters[name] < |t.semaphores| && FirstBound(t.log, name) == Some(t.semaphores[t.limiters[name]].bound)
    {
      if name == request.name { assert Registering(s, name); }
    }
    forall name | name !in t.limiters && FirstBound(t.log, name).Some? ensures Registering(t, name) {
      assert Registering(s, name);
    }
  }

  lemma OtherStepKeepsBounds(s: System, call: nat, action: Action)
    requires Next(s, call, action).limiters == s.limiters && !(PhaseOf(s, call).Creating? && action.Create?)
    ensures var t := Next(s, call, action);
            && |t.semaphores| == |s.semaphores|
            && forall k :: 0 <= k < |s.semaphores| ==> t.semaphores[k].bound == s.semaphores[k].bound
  {
  }

  lemma OtherStepKeepsRegistering(s: System, call: nat, action: Action, name: string)
    requires Invariant(s) && Next(s, call, action).log == s.log && Next(s, call, action).limiters == s.limiters
    requires !(PhaseOf(s, call).Creating? && action.Create?) && Registering(s, name) && name !in s.limiters
    ensures Registering(Next(s, call, action), name)
  {
    assert InLock(PhaseOf(s, call)) <==> s.lock == Some(call);
    assert PhaseOk(s, PhaseOf(s, call));
  }

  lemma OtherStepKeepsRequest(s: System, call: nat, action: Action)
    requires Invariant(s) && Next(s, call, action).log == s.log && Next(s, call, action).limiters == s.limiters
    requires !(PhaseOf(s, call).Creating? && action.Create?)
    ensures var t := Next(s, call, action);
            t.lock.Some? && (PhaseOf(t, t.lock.value).Looking? || PhaseOf(t, t.lock.value).Creating?) ==>
              FirstBound(t.log, PhaseOf(t, t.lock.value).request.name).Some?
  {
    assert InLock(PhaseOf(s, call)) <==> s.lock == Some(call);
  }

  lemma OtherStepKeepsLog(s: System, call: nat, action: Action)
    requires Invariant(s) && Next(s, call, action).log == s.log && Next(s, call, action).limiters == s.limiters
    requires !(PhaseOf(s, call).Creating? && action.Create?)
    ensures LogOk(Next(s, call, action))
  {
    var t := Next(s, call, action);
    OtherStepKeepsBounds(s, call, action);
    OtherStepKeepsRequest(s, call, action);
    forall name | name !in t.limiters && FirstBound(t.log, name).Some? ensures Registering(t, name) {
      assert Registering(s, name);
      OtherStepKeepsRegistering(s, call, action, name);
    }
  }

  lemma StepKeepsLog(s: System, call: nat, action: Action)
    requires Invariant(s)
    ensures LogOk(Next(s, call, action))
  {
    var phase := PhaseOf(s, call);
    if phase.WantLock? && action.TakeLock? && s.lock.None? {
      TakeLockKeepsLog(s, call, phase.request);
    } else if phase.Creating? && action.Create? {
      CreateKeepsLog(s, call, phase.request);
    } else {
      OtherStepKeepsLog(s, call, action);
    }
  }

  lemma StepKeepsInvariant(s: System, call: nat, action: Action)
    requires Invariant(s)
    ensures Invariant(Next(s, call, action))
  {
    StepKeepsLock(s, call, action);
    StepKeepsPermits(s, call, action);
    StepKeepsPhases(s, call, action);
    StepKeepsLog(s, call, action);
  }

  lemma {:induction false} ExecutionKeepsInvariant(s: System, schedule: seq<(nat, Action)>)
    requires Invariant(s)
    ensures Invariant(Execute(s, schedule))
    decreases |schedule|
  {
    if schedule != [] {
      StepKeepsInvariant(s, schedule[0].0, schedule[0].1);
      ExecutionKeepsInvariant(Next(s, schedule[0].0, schedule[0].1), schedule[1..]);
    }
  }

  // ---- What the limiter promises ----

  ghost predicate Reachable(s: System) {
    exists schedule :: s == Execute(START, schedule)
  }

  lemma ReachableKeepsInvariant(s: System)
    requires Reachable(s)
    ensures Invariant(s)
  {
    var schedule :| s == Execute(START, schedule);
    ExecutionKeepsInvariant(START, schedule);
  }

  /** Under every interleaving, for every registered name: the free permits and the holders
      together make the bound of the first positive request logged under that name. */
  lemma PermitsAndHoldersMakeFirstBound(s: System, name: string)
    requires Reachable(s) && name in s.limiters
    ensures var limiter := s.limiters[name];
            && limiter < |s.semaphores|
            && FirstBound(s.log, name) == Some(s.semaphores[limiter].permits + |Holders(s, limiter)|)
            && |Holders(s, limiter)| <= FirstBound(s.log, name).value
  {
    ReachableKeepsInvariant(s);
  }

  /** No release is ever one too many, whether the body returned or raised. */
  lemma NoReleaseTooMany(s: System, call: nat)
    requires Reachable(s)
    ensures PhaseOf(s, call) != OverReleased
    ensures PhaseOf(s, call).Leaving? ==>
              var t := Next(s, call, Release);
              && PhaseOf(t, call) == Idle
              && Holders(t, PhaseOf(s, call).limiter) == Holders(s, PhaseOf(s, call).limiter) - {call}
  {
    ReachableKeepsInvariant(s);
    StepKeepsPermits(s, call, Release);
    assert call in s.phases ==> PhaseOk(s, s.phases[call]);
    var phase := PhaseOf(s, call);
    if phase.Leaving? {
      HoldersAfter(s, call, Idle, phase.limiter);
      assert Holders(Next(s, call, Release), phase.limiter) == Holders(To(s, call, Idle), phase.limiter);
    }
  }

  /** A waiting call gets in as soon as it steps while nobody holds its limiter. */
  lemma FreeLimiterAdmits(s: System, call: nat)
    requires Reachable(s) && PhaseOf(s, call).Waiting? && Holders(s, PhaseOf(s, call).limiter) == {}
    ensures PhaseOf(Next(s, call, Acquire), call) == Inside(PhaseOf(s, call).request, PhaseOf(s, call).limiter)
  {
    ReachableKeepsInvariant(s);
    assert PhaseOk(s, s.phases[call]);
  }

  lemma StepKeepsLimiter(s: System, call: nat, action: Action, name: string)
    requires PhasesOk(s) && name in s.limiters && s.limiters[name] < |s.semaphores|
    ensures var t := Next(s, call, action);
            && name in t.limiters && t.limiters[name] == s.limiters[name] < |t.semaphores|
            && t.semaphores[t.limiters[name]].bound == s.semaphores[s.limiters[name]].bound
  {
    assert PhaseOk(s, PhaseOf(s, call));
  }

  /** A name keeps its limiter and its bound, whatever is requested later. */
  lemma {:induction false} LaterRequestsChangeNothing(s: System, schedule: seq<(nat, Action)>, name: string)
    requires Invariant(s) && name in s.limiters
    ensures var t := Execute(s, schedule);
            && name in t.limiters && t.limiters[name] == s.limiters[name] < |t.semaphores|
            && t.semaphores[t.limiters[name]].bound == s.semaphores[s.limiters[name]].bound
    decreases |schedule|
  {
    if schedule != [] {
      var call, action := schedule[0].0, schedule[0].1;
      StepKeepsInvariant(s, call, action);
      StepKeepsLimiter(s, call, action, name);
      LaterRequestsChangeNothing(Next(s, call, action), schedule[1..], name);
    }
  }

  /** While some call is unfinished, some call can take a step that is not a new request. */
  lemma SomeCallCanStep(s: System, unfinished: nat)
    requires Reachable(s) && PhaseOf(s, unfinished) != Idle
    ensures exists call, action: Action :: !action.Call? && Next(s, call, action) != s
  {
    ReachableKeepsInvariant(s);
    if s.lock.Some? {
      StepsOn(s, s.lock.value);
    } else {
      var phase := PhaseOf(s, unfinished);
      assert PhaseOk(s, phase);
      assert !InLock(phase);
      if phase.Waiting? && Holders(s, phase.limiter) != {} {
        assert exists call :: call in Holders(s, phase.limiter);
        var call :| call in Holders(s, phase.limiter);
        StepsOn(s, call);
      } else {
        if phase.Waiting? { FreeLimiterAdmits(s, unfinished); }
        StepsOn(s, unfinished);
      }
    }
  }

  lemma StepsOn(s: System, call: nat)
    requires Invariant(s) && PhaseOf(s, call) != Idle
    requires PhaseOf(s, call).WantLock? ==> s.lock.None?
    requires PhaseOf(s, call).Waiting? ==> PhaseOf(Next(s, call, Acquire), call) != PhaseOf(s, call)
    ensures exists action: Action :: !action.Call? && Next(s, call, action) != s
  {
    var phase := PhaseOf(s, call);
    assert PhaseOk(s, phase);
    var action := match phase
      case WantLock(_) => TakeLock
      case Looking(_) => Look
      case Creating(_) => Create
      case Unlocking(_, _) => Unlock
      case Waiting(_, _) => Acquire
      case Leaving(_, _) => Release
      case _ => Finish(false);
    if phase.Leaving? { ReleaseKeepsPermits(s, call, phase.request, phase.limiter); }
    assert PhaseOf(Next(s, call, action), call) != phase;
    assert !action.Call? && Next(s, call, action) != s;
  }

  // ---- Which bodies run at once ----

  /** The body of the call is running. */
  predicate Runs(phase: Phase) { phase.Inside? || phase.Unthrottled? }

  /** What the call was last requested with: the last request it made while it was idle. */
  function Requested(schedule: seq<(nat, Action)>, call: nat): Option<Request>
    decreases |schedule|
  {
    if schedule == [] then None
    else
      var n := |schedule| - 1;
      if schedule[n].0 == call && schedule[n].1.Call? && PhaseOf(Execute(START, schedule[..n]), call).Idle?
      then Some(schedule[n].1.request) else Requested(schedule[..n], call)
  }

  lemma {:induction false} ExecuteAppend(s: System, schedule: seq<(nat, Action)>, step: (nat, Action))
    ensures Execute(s, schedule + [step]) == Next(Execute(s, schedule), step.0, step.1)
    decreases |schedule|
  {
    if schedule == [] {
      assert schedule + [step] == [step];
    } else {
      assert (schedule + [step])[1..] == schedule[1..] + [step];
      ExecuteAppend(Next(s, schedule[0].0, schedule[0].1), schedule[1..], step);
    }
  }

  /** The phase is one that a request of this kind can lead to. */
  predicate Fits(phase: Phase, request: Request) {
    match phase
    case Idle => true
    case OverReleased => true
    case Unthrottled(r) => r == request && request.maxWorkers <= 0
    case _ => phase.request == request && request.maxWorkers > 0
  }

  lemma StepFits(s: System, call: nat, action: Action, request: Request)
    requires PhaseOf(s, call).Idle? && action.Call? ==> request == action.request
    requires !(PhaseOf(s, call).Idle? && action.Call?) ==> Fits(PhaseOf(s, call), request)
    ensures Fits(PhaseOf(Next(s, call, action), call), request)
  {
  }

  lemma {:induction false} RunFits(schedule: seq<(nat, Action)>, call: nat)
    ensures var phase := PhaseOf(Execute(START, schedule), call);
            !phase.Idle? && !phase.OverReleased? ==> Requested(schedule, call).Some? && Fits(phase, Requested(schedule, call).value)
    decreases |schedule|
  {
    if schedule != [] {
      var n := |schedule| - 1;
      var s, step := Execute(START, schedule[..n]), schedule[n];
      RunFits(schedule[..n], call);
      assert schedule == schedule[..n] + [step];
      ExecuteAppend(START, schedule[..n], step);
      OnlyIdleStaysIdle(s, call, step);
      if step.0 == call {
        if PhaseOf(s, call).Idle? && step.1.Call? {
          StepFits(s, call, step.1, step.1.request);
        } else if Requested(schedule, call).Some? {
          StepFits(s, call, step.1, Requested(schedule, call).value);
        }
      }
    }
  }

  lemma OnlyIdleStaysIdle(s: System, call: nat, step: (nat, Action))
    ensures step.0 != call ==> PhaseOf(Next(s, step.0, step.1), call) == PhaseOf(s, call)
    ensures PhaseOf(s, call).Idle? && !step.1.Call? ==> PhaseOf(Next(s, step.0, step.1), call).Idle?
  {
  }

  /** In every reachable state a running body runs outside a limiter exactly when its own
      request was not positive. */
  lemma UnthrottledExactly(schedule: seq<(nat, Action)>, call: nat)
    requires Runs(PhaseOf(Execute(START, schedule), call))
    ensures Requested(schedule, call).Some?
    ensures PhaseOf(Execute(START, schedule), call).Unthrottled? <==> Requested(schedule, call).value.maxWorkers <= 0
  {
    RunFits(schedule, call);
  }

  /** The calls whose body runs and that asked for a positive bound under the name. */
  ghost function Bodies(schedule: seq<(nat, Action)>, name: string): set<nat> {
    var s := Execute(START, schedule);
    set call | call in s.phases && Runs(s.phases[call]) && Requested(schedule, call).Some?
               && Requested(schedule, call).value.name == name && Requested(schedule, call).value.maxWorkers > 0
  }

  /** The bodies that were requested with a positive bound under one name and run at once are
      never more than the first positive bound requested under that name. */
  lemma BodiesWithinFirstBound(schedule: seq<(nat, Action)>, name: string)
    requires Bodies(schedule, name) != {}
    ensures var first := FirstBound(Execute(START, schedule).log, name);
            first.Some? && |Bodies(schedule, name)| <= first.value
  {
    var s, bodies := Execute(START, schedule), Bodies(schedule, name);
    ReachableKeepsInvariant(s);
    forall call | call in bodies ensures name in s.limiters && call in Holders(s, s.limiters[name]) {
      RunFits(schedule, call);
      assert PhaseOk(s, s.phases[call]);
    }
    assert exists call :: call in bodies;
    PermitsAndHoldersMakeFirstBound(s, name);
    Subset(bodies, Holders(s, s.limiters[name]));
  }

  lemma Subset(a: set<nat>, b: set<nat>)
    requires a <= b
    ensures |a| <= |b|
  {
    assert b == a + (b - a);
  }

  /** A request that is not positive runs at once, whoever holds, and touches no limiter. */
  lemma NonPositiveRunsAtOnce(schedule: seq<(nat, Action)>, call: nat, request: Request)
    requires PhaseOf(Execute(START, schedule), call).Idle? && request.maxWorkers <= 0
    ensures var more := schedule + [(call, Call(request))];
            var s, t := Execute(START, schedule), Execute(START, more);
            && Runs(PhaseOf(t, call)) && Requested(more, call) == Some(request)
            && (forall other: nat :: other != call ==> PhaseOf(t, other) == PhaseOf(s, other))
            && t.limiters == s.limiters && t.semaphores == s.semaphores && t.lock == s.lock && t.log == s.log
  {
    var more := schedule + [(call, Call(request))];
    ExecuteAppend(START, schedule, (call, Call(request)));
    assert more[..|schedule|] == schedule;
  }

  /** A waiting call gets in exactly when fewer calls hold its limiter than the first bound. */
  lemma AcquireExactly(s: System, call: nat)
    requires Reachable(s) && PhaseOf(s, call).Waiting?
    ensures var phase := PhaseOf(s, call);
            && FirstBound(s.log, phase.request.name).Some?
            && (Runs(PhaseOf(Next(s, call, Acquire), call)) <==>
                |Holders(s, phase.limiter)| < FirstBound(s.log, phase.request.name).value)
  {
    ReachableKeepsInvariant(s);
    assert PhaseOk(s, s.phases[call]);
    PermitsAndHoldersMakeFirstBound(s, PhaseOf(s, call).request.name);
  }

  /** The log is the requests of the calls in the order in which they take the free lock. */
  lemma LogGrowsByOwnRequest(schedule: seq<(nat, Action)>, call: nat, action: Action)
    ensures var s, own := Execute(START, schedule), Requested(schedule, call);
            var t := Next(s, call, action);
            || t.log == s.log
            || (s.lock.None? && t.lock == Some(call) && own.Some? && t.log == s.log + [own.value])
  {
    RunFits(schedule, call);
  }

  /** The steps of a call whose request is positive, up to its body. */
  function Entry(s: System, call: nat, request: Request): seq<(nat, Action)> {
    [(call, Call(request)), (call, TakeLock), (call, Look)]
    + (if request.name in s.limiters then [] else [(call, Create)])
    + [(call, Unlock), (call, Acquire)]
  }

  lemma OneStep(s: System, step: (nat, Action), rest: seq<(nat, Action)>)
    ensures Execute(s, [step] + rest) == Execute(Next(s, step.0, step.1), rest)
  {
  }

  lemma LooksUp(s: System, call: nat, request: Request, rest: seq<(nat, Action)>) returns (t: System)
    requires s.lock.None? && PhaseOf(s, call).Idle? && request.maxWorkers > 0
    ensures t.limiters == s.limiters && t.semaphores == s.semaphores && t.lock == Some(call)
    ensures PhaseOf(t, call) ==
            if request.name in s.limiters then Unlocking(request, s.limiters[request.name]) else Creating(request)
    ensures Execute(s, [(call, Call(request)), (call, TakeLock), (call, Look)] + rest) == Execute(t, rest)
  {
    var s1 := Next(s, call, Call(request));
    var s2 := Next(s1, call, TakeLock);
    t := Next(s2, call, Look);
    OneStep(s, (call, Call(request)), [(call, TakeLock), (call, Look)] + rest);
    OneStep(s1, (call, TakeLock), [(call, Look)] + rest);
    OneStep(s2, (call, Look), rest);
    assert [(call, Call(request)), (call, TakeLock), (call, Look)] + rest == [(call, Call(request))] + ([(call, TakeLock), (call, Look)] + rest);
    assert [(call, TakeLock), (call, Look)] + rest == [(call, TakeLock)] + ([(call, Look)] + rest);
  }

  /** A call that holds the lock and has its limiter, which has a permit, enters. */
  lemma EntersFromLock(s: System, call: nat, request: Request, limiter: nat)
    requires PhaseOf(s, call) == Unlocking(request, limiter) && limiter < |s.semaphores| && s.semaphores[limiter].permits > 0
    ensures PhaseOf(Execute(s, [(call, Unlock), (call, Acquire)]), call) == Inside(request, limiter)
  {
    var t := Next(s, call, Unlock);
    OneStep(s, (call, Unlock), [(call, Acquire)]);
    OneStep(t, (call, Acquire), []);
    assert [(call, Unlock), (call, Acquire)] == [(call, Unlock)] + [(call, Acquire)] && [(call, Acquire)] == [(call, Acquire)] + [];
  }

  /** A call with a positive bound that nobody disturbs gets to its body when the lock is free
      and its name is new or held by fewer calls than the first bound. */
  lemma UndisturbedCallEnters(s: System, call: nat, request: Request)
    requires Reachable(s) && s.lock.None? && PhaseOf(s, call).Idle? && request.maxWorkers > 0
    requires request.name in s.limiters ==>
               FirstBound(s.log, request.name).Some?
               && |Holders(s, s.limiters[request.name])| < FirstBound(s.log, request.name).value
    ensures PhaseOf(Execute(s, Entry(s, call, request)), call).Inside?
  {
    if request.name in s.limiters {
      KnownNameEnters(s, call, request);
    } else {
      NewNameEnters(s, call, request);
    }
  }

  lemma KnownNameEnters(s: System, call: nat, request: Request)
    requires Reachable(s) && s.lock.None? && PhaseOf(s, call).Idle? && request.maxWorkers > 0 && request.name in s.limiters
    requires FirstBound(s.log, request.name).Some?
             && |Holders(s, s.limiters[request.name])| < FirstBound(s.log, request.name).value
    ensures PhaseOf(Execute(s, Entry(s, call, request)), call).Inside?
  {
    var last := [(call, Unlock), (call, Acquire)];
    PermitsAndHoldersMakeFirstBound(s, request.name);
    var t := LooksUp(s, call, request, last);
    EntersFromLock(t, call, request, s.limiters[request.name]);
    assert Entry(s, call, request) == [(call, Call(request)), (call, TakeLock), (call, Look)] + last;
  }

  lemma NewNameEnters(s: System, call: nat, request: Request)
    requires s.lock.None? && PhaseOf(s, call).Idle? && request.maxWorkers > 0 && request.name !in s.limiters
    ensures PhaseOf(Execute(s, Entry(s, call, request)), call).Inside?
  {
    var last := [(call, Unlock), (call, Acquire)];
    var t := LooksUp(s, call, request, [(call, Create)] + last);
    OneStep(t, (call, Create), last);
    EntersFromLock(Next(t, call, Create), call, request, |s.semaphores|);
    assert Entry(s, call, request) == [(call, Call(request)), (call, TakeLock), (call, Look)] + ([(call, Create)] + last);
  }
}
