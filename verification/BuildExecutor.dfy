/**
 The build executor: build records under a lock, a bounded number of runs in the background,
 and records that expire. Each lock-protected call and each remote answer of a run is one
 step; steps of all calls and runs interleave freely, and clocks may read anything.
 */
module BuildExecutor {
  import opened Common

  const RECORD_TTL := 3600

  datatype Status = Waiting | Building | Ready | Failed

  datatype Record = Record(status: Status, registered: int, finished: Option<int>)

  /** What a run has to do: its step count and which optional calls it makes. */
  datatype Spec = Spec(steps: nat, start: bool, ready: bool, publish: bool)

  /** A remote call that succeeded, or the release, which is made whether or not it succeeds. */
  datatype Call = Claimed | StepDone(i: nat) | InitDone | Started | BecameReady | Promoted | Published | Released

  /** Where a run stands: the call it is waiting for, or what it does next. */
  datatype Pc =
    | Claiming | Stepping(i: nat) | Starting | AwaitingReady | Promoting | Publishing
    | Releasing(ok: bool) | Finishing(ok: bool) | Freeing

  datatype StartResult = Accepted | UnknownBuild | Busy

  // ---------------------------------------------------------------- the records

  predicate Expired(r: Record, now: int) {
    || (r.finished.Some? && now - r.finished.value > RECORD_TTL)
    || (r.status.Waiting? && now - r.registered > RECORD_TTL)
  }

  /**
   A record lives on for an hour after it finished, or while it waits after it was registered, and
   for ever in between.
   */
  predicate Lives(r: Record, now: int) {
    && (r.finished.Some? ==> now <= r.finished.value + 3600)
    && (r.status.Waiting? ==> now <= r.registered + 3600)
  }

  function Swept(builds: map<string, Record>, now: int): map<string, Record> {
    map id | id in builds && !Expired(builds[id], now) :: builds[id]
  }

  function StartOf(builds: map<string, Record>, slots: nat, capacity: nat, id: string): StartResult {
    if id !in builds then UnknownBuild
    else if builds[id].status.Waiting? && slots >= capacity then Busy
    else Accepted
  }

  /** Only a waiting build with a free slot begins to run; a retried start changes nothing. */
  predicate Begins(builds: map<string, Record>, slots: nat, capacity: nat, id: string) {
    id in builds && builds[id].status.Waiting? && slots < capacity
  }

  function Finished(builds: map<string, Record>, id: string, ok: bool, now: int): map<string, Record> {
    if id in builds
    then builds[id := builds[id].(status := if ok then Ready else Failed, finished := Some(now))]
    else builds
  }

  /** The executor's own state and its lock-protected calls. */
  class Executor {
    const capacity: nat
    var slots: nat
    var builds: map<string, Record>

    constructor (parallel: nat)
      ensures capacity == parallel && slots == 0 && builds == map[]
    {
      capacity, slots, builds := parallel, 0, map[];
    }

    method Sweep(now: int)
      modifies this`builds
      ensures builds == Swept(old(builds), now)
      ensures forall id <- old(builds) :: id in builds <==> Lives(old(builds)[id], now)
    {
      var todo := builds.Keys;
      ghost var before := builds;
      while todo != {}
        invariant todo <= before.Keys && builds.Keys <= before.Keys
        invariant forall id <- builds :: builds[id] == before[id]
        invariant forall id <- before :: id in builds <==> id in todo || !Expired(before[id], now)
        decreases |todo|
      {
        var id :| id in todo;
        todo := todo - {id};
        if Expired(builds[id], now) {
          builds := builds - {id};
        }
      }
    }

    method Register(id: string, now: int, later: int)
      modifies this`builds
      ensures builds == Swept(old(builds), now)[id := Record(Waiting, later, None)]
      ensures forall other <- old(builds) :: other != id ==> (other in builds <==> Lives(old(builds)[other], now))
    {
      Sweep(now);
      builds := builds[id := Record(Waiting, later, None)];
    }

    /** Takes a slot and marks the record building; the run itself goes on in the background. */
    method Start(id: string) returns (r: StartResult, runs: bool)
      modifies this
      ensures r == StartOf(old(builds), old(slots), capacity, id)
      ensures r.UnknownBuild? <==> id !in old(builds)
      ensures r.Busy? <==> id in old(builds) && old(builds)[id].status.Waiting? && old(slots) >= capacity
      ensures runs <==> id in old(builds) && old(builds)[id].status.Waiting? && old(slots) < capacity
      ensures runs <==> Begins(old(builds), old(slots), capacity, id)
      ensures slots == old(slots) + (if runs then 1 else 0)
      ensures builds == if runs then old(builds)[id := old(builds)[id].(status := Building)] else old(builds)
    {
      if id !in builds {
        return UnknownBuild, false;
      }
      if !builds[id].status.Waiting? {
        return Accepted, false;
      }
      if slots >= capacity {
        return Busy, false;
      }
      slots := slots + 1;
      builds := builds[id := builds[id].(status := Building)];
      return Accepted, true;
    }

    method Poll(id: string, now: int) returns (r: Option<Record>)
      modifies this`builds
      ensures builds == Swept(old(builds), now)
      ensures r.Some? <==> id in old(builds) && Lives(old(builds)[id], now)
      ensures r == if id in builds then Some(builds[id]) else None
    {
      Sweep(now);
      r := if id in builds then Some(builds[id]) else None;
    }

    method Finish(id: string, ok: bool, now: int)
      modifies this`builds
      ensures builds == Finished(old(builds), id, ok, now)
      ensures id in builds ==> builds[id].finished == Some(now) && builds[id].status == if ok then Ready else Failed
    {
      if id in builds {
        builds := builds[id := builds[id].(status := if ok then Ready else Failed, finished := Some(now))];
      }
    }
  }

  // ---------------------------------------------------------------- interleaved runs

  /** The executor with its runs in flight and, for the record, what each build was to do and has done. */
  datatype State = State(
    capacity: nat, slots: nat, builds: map<string, Record>, runs: map<string, Pc>,
    used: set<string>, specs: map<string, Spec>, traces: map<string, seq<Call>>)

  datatype Step =
    | Register(id: string, now: int, later: int)
    | Start(id: string, spec: Spec)
    | Poll(now: int)
    | Advance(id: string, ok: bool, now: int)

  /** Build ids are fresh; a run can advance while it is in flight. */
  predicate Enabled(s: State, step: Step) {
    match step
    case Register(id, _, _) => id !in s.used
    case Advance(id, _, _) => id in s.runs && id in s.specs && id in s.traces && (s.runs[id].Freeing? ==> s.slots > 0)
    case _ => true
  }

  function AfterStart(spec: Spec): Pc {
    if spec.ready then AwaitingReady else Promoting
  }

  function AfterInit(spec: Spec): Pc {
    if spec.start then Starting else AfterStart(spec)
  }

  /** The call a run at `pc` is waiting for. */
  function CallAt(spec: Spec, pc: Pc): Option<Call> {
    match pc
    case Claiming => Some(Claimed)
    case Stepping(i) => Some(if i < spec.steps then StepDone(i) else InitDone)
    case Starting => Some(Started)
    case AwaitingReady => Some(BecameReady)
    case Promoting => Some(Promoted)
    case Publishing => Some(Published)
    case Releasing(_) => Some(Released)
    case _ => None
  }

  /** Where a run goes once the call it waits for has succeeded, or failed. */
  function NextPc(spec: Spec, pc: Pc, ok: bool): Pc {
    match pc
    case Claiming => if ok then Stepping(0) else Finishing(false)
    case Stepping(i) => if !ok then Releasing(false) else if i < spec.steps then Stepping(i + 1) else AfterInit(spec)
    case Starting => if ok then AfterStart(spec) else Releasing(false)
    case AwaitingReady => if ok then Promoting else Releasing(false)
    case Promoting => if !ok then Releasing(false) else if spec.publish then Publishing else Releasing(true)
    case Publishing => Releasing(ok)
    case Releasing(good) => Finishing(good)
    case _ => Freeing
  }

  function Apply(s: State, step: Step): State
    requires Enabled(s, step)
  {
    match step
    case Register(id, now, later) =>
      s.(builds := Swept(s.builds, now)[id := Record(Waiting, later, None)], used := s.used + {id})
    case Start(id, spec) =>
      if Begins(s.builds, s.slots, s.capacity, id) then
        s.(slots := s.slots + 1, builds := s.builds[id := s.builds[id].(status := Building)],
           runs := s.runs[id := Claiming], specs := s.specs[id := spec], traces := s.traces[id := []])
      else s
    case Poll(now) => s.(builds := Swept(s.builds, now))
    case Advance(id, ok, now) =>
      var pc, spec := s.runs[id], s.specs[id];
      if pc.Freeing? then s.(slots := s.slots - 1, runs := s.runs - {id})
      else
        var call := CallAt(spec, pc);
        var made := call.Some? && (ok || pc.Releasing?);
        s.(runs := s.runs[id := NextPc(spec, pc, ok)],
           traces := if made then s.traces[id := s.traces[id] + [call.value]] else s.traces,
           builds := if pc.Finishing? then Finished(s.builds, id, pc.ok, now) else s.builds)
  }

  ghost predicate Legal(s: State, steps: seq<Step>)
    decreases |steps|
  {
    steps == [] || (Enabled(s, steps[0]) && Legal(Apply(s, steps[0]), steps[1..]))
  }

  ghost function Exec(s: State, steps: seq<Step>): State
    requires Legal(s, steps)
    decreases |steps|
  {
    if steps == [] then s else Exec(Apply(s, steps[0]), steps[1..])
  }

  ghost predicate Init(s: State) {
    s == State(s.capacity, 0, map[], map[], {}, map[], map[])
  }

  // ---------------------------------------------------------------- what a run has done

  function StepCalls(n: nat): seq<Call> {
    if n == 0 then [] else StepCalls(n - 1) + [StepDone(n - 1)]
  }

  /** The calls of a run that has succeeded in everything up to `pc`, in order. */
  function Done(spec: Spec, pc: Pc): seq<Call> {
    var prepared := [Claimed] + StepCalls(spec.steps) + [InitDone];
    var started := prepared + (if spec.start then [Started] else []);
    var ready := started + (if spec.ready then [BecameReady] else []);
    var published := ready + [Promoted] + (if spec.publish then [Published] else []);
    match pc
    case Claiming => []
    case Stepping(i) => [Claimed] + StepCalls(i)
    case Starting => prepared
    case AwaitingReady => started
    case Promoting => ready
    case Publishing => ready + [Promoted]
    case Releasing(_) => published
    case _ => published + [Released]
  }

  /** A whole successful build: claim, every step, init, start, ready, promote, publish, release, in that order. */
  function FullTrace(spec: Spec): seq<Call> {
    Done(spec, Freeing)
  }

  /** A place a run gets to by successes alone, with the optional calls its build asks for. */
  predicate Reached(spec: Spec, pc: Pc) {
    match pc
    case Claiming => true
    case Stepping(i) => i <= spec.steps
    case Starting => spec.start
    case AwaitingReady => spec.ready
    case Promoting => true
    case Publishing => spec.publish
    case Releasing(ok) => ok
    case _ => false
  }

  /** The call a run waited for at `at` failed: it made every call before that one, in order, and no other. */
  predicate FailedAt(spec: Spec, at: Pc, trace: seq<Call>) {
    Reached(spec, at) && !at.Claiming? && !at.Releasing? && trace == Done(spec, at)
  }

  predicate FailedThenReleased(spec: Spec, at: Pc, trace: seq<Call>) {
    trace != [] && FailedAt(spec, at, trace[..|trace| - 1]) && trace[|trace| - 1] == Released
  }

  /** A failed run never had a claim, or it failed at some call and then released once. */
  ghost predicate FailedTrace(spec: Spec, trace: seq<Call>) {
    trace == [] || exists at :: FailedThenReleased(spec, at, trace)
  }

  ghost predicate TraceFits(spec: Spec, pc: Pc, trace: seq<Call>) {
    match pc
    case Releasing(ok) => if ok then trace == Done(spec, pc) else exists at :: FailedAt(spec, at, trace)
    case Finishing(ok) => if ok then trace == FullTrace(spec) else FailedTrace(spec, trace)
    case Freeing => trace == FullTrace(spec) || FailedTrace(spec, trace)
    case _ => Reached(spec, pc) && trace == Done(spec, pc)
  }

  /** Every trace a build ever has: successes up to some call, in order, then perhaps the one release. */
  ghost predicate InOrder(spec: Spec, trace: seq<Call>) {
    exists at :: Follows(spec, at, trace)
  }

  predicate Follows(spec: Spec, at: Pc, trace: seq<Call>) {
    Reached(spec, at) && (trace == Done(spec, at) || (!at.Claiming? && trace == Done(spec, at) + [Released]))
  }

  lemma {:induction false} StepCallsAreSteps(n: nat)
    ensures forall c <- StepCalls(n) :: c.StepDone?
  {
    if n > 0 {
      StepCallsAreSteps(n - 1);
    }
  }

  /** Nothing before the release is a release, and the first call is the claim. */
  lemma DoneHasNoRelease(spec: Spec, pc: Pc)
    requires !pc.Finishing? && !pc.Freeing?
    ensures Released !in Done(spec, pc)
    ensures !pc.Claiming? ==> Done(spec, pc) != [] && Done(spec, pc)[0] == Claimed
  {
    StepCallsAreSteps(spec.steps);
    if pc.Stepping? {
      StepCallsAreSteps(pc.i);
    }
  }

  /** A run that advances keeps its calls in order: where it goes, its trace is still a fitting one. */
  lemma TraceAdvances(spec: Spec, pc: Pc, trace: seq<Call>, ok: bool)
    requires TraceFits(spec, pc, trace) && !pc.Freeing?
    ensures var call := CallAt(spec, pc);
            var made := call.Some? && (ok || pc.Releasing?);
            TraceFits(spec, NextPc(spec, pc, ok), if made then trace + [call.value] else trace)
  {
    if pc.Releasing? {
      assert (trace + [Released])[..|trace|] == trace;
      if !pc.ok {
        var at :| FailedAt(spec, at, trace);
        assert FailedThenReleased(spec, at, trace + [Released]);
      }
    } else if !pc.Finishing? && !ok {
      assert pc.Claiming? || FailedAt(spec, pc, trace);
    }
  }

  lemma FullIsInOrder(spec: Spec)
    ensures InOrder(spec, FullTrace(spec))
  {
    assert Follows(spec, Releasing(true), FullTrace(spec));
  }

  lemma FailedIsInOrder(spec: Spec, at: Pc, trace: seq<Call>)
    requires FailedAt(spec, at, trace)
    ensures InOrder(spec, trace) && InOrder(spec, trace + [Released])
  {
    assert Follows(spec, at, trace) && Follows(spec, at, trace + [Released]);
  }

  lemma FailedTraceIsInOrder(spec: Spec, trace: seq<Call>)
    requires FailedTrace(spec, trace)
    ensures InOrder(spec, trace)
  {
    if trace == [] {
      assert Follows(spec, Claiming, trace);
    } else {
      var at :| FailedThenReleased(spec, at, trace);
      ReleasedIsInOrder(spec, at, trace);
    }
  }

  lemma ReleasedIsInOrder(spec: Spec, at: Pc, trace: seq<Call>)
    requires FailedThenReleased(spec, at, trace)
    ensures InOrder(spec, trace)
  {
    FailedIsInOrder(spec, at, trace[..|trace| - 1]);
    assert trace == trace[..|trace| - 1] + [Released];
  }

  /** A trace that fits is in order. */
  lemma FittingIsInOrder(spec: Spec, pc: Pc, trace: seq<Call>)
    requires TraceFits(spec, pc, trace)
    ensures InOrder(spec, trace)
  {
    if pc.Finishing? || pc.Freeing? {
      FullIsInOrder(spec);
      if trace != FullTrace(spec) {
        FailedTraceIsInOrder(spec, trace);
      }
    } else if pc.Releasing? && !pc.ok {
      var at :| FailedAt(spec, at, trace);
      FailedIsInOrder(spec, at, trace);
    } else {
      assert Follows(spec, pc, trace);
    }
  }

  // ---------------------------------------------------------------- invariants of every run

  ghost predicate RunInv(s: State, id: string)
    requires id in s.runs
  {
    && id in s.used && id in s.specs && id in s.traces
    && TraceFits(s.specs[id], s.runs[id], s.traces[id])
    && (!s.runs[id].Freeing? ==> id in s.builds && s.builds[id].status.Building?)
    && (id in s.builds ==> !s.builds[id].status.Waiting?)
  }

  ghost predicate RecordInv(s: State, id: string)
    requires id in s.builds
  {
    && id in s.used
    && (s.builds[id].status.Building? ==> id in s.runs && !s.runs[id].Freeing?)
    && ((s.builds[id].status.Ready? || s.builds[id].status.Failed?) <==> s.builds[id].finished.Some?)
    && (s.builds[id].status.Ready? ==> id in s.specs && id in s.traces && s.traces[id] == FullTrace(s.specs[id]))
    && (s.builds[id].status.Failed? ==> id in s.specs && id in s.traces && FailedTrace(s.specs[id], s.traces[id]))
  }

  /** Occupied slots are the runs in flight and never exceed the capacity; every run and every record is in order. */
  ghost predicate Inv(s: State) {
    && s.slots == |s.runs| <= s.capacity
    && (forall id <- s.runs :: RunInv(s, id))
    && (forall id <- s.builds :: RecordInv(s, id))
  }

  lemma SweptInv(s: State, now: int)
    requires Inv(s)
    ensures Inv(s.(builds := Swept(s.builds, now)))
    ensures forall id <- s.builds :: s.builds[id].status.Building? ==> id in Swept(s.builds, now)
  {
  }

  lemma RegisterInv(s: State, id: string, later: int)
    requires Inv(s) && id !in s.used
    ensures Inv(s.(builds := s.builds[id := Record(Waiting, later, None)], used := s.used + {id}))
  {
  }

  lemma WaitingHasNoRun(s: State, id: string)
    requires Inv(s) && id in s.builds && s.builds[id].status.Waiting?
    ensures id !in s.runs
  {
  }

  lemma StartRuns(s: State, step: Step, other: string)
    requires Inv(s) && step.Start? && Begins(s.builds, s.slots, s.capacity, step.id) && other in Apply(s, step).runs
    ensures RunInv(Apply(s, step), other)
  {
    assert RecordInv(s, step.id);
    assert other != step.id ==> RunInv(s, other);
  }

  lemma StartRecords(s: State, step: Step, other: string)
    requires Inv(s) && step.Start? && Begins(s.builds, s.slots, s.capacity, step.id) && other in s.builds
    ensures RecordInv(Apply(s, step), other)
  {
    assert RecordInv(s, other);
  }

  lemma StartInv(s: State, step: Step)
    requires Inv(s) && step.Start?
    ensures Inv(Apply(s, step))
  {
    var s', id := Apply(s, step), step.id;
    if Begins(s.builds, s.slots, s.capacity, id) {
      WaitingHasNoRun(s, id);
      assert s'.runs.Keys == s.runs.Keys + {id};
      forall other <- s'.runs
        ensures RunInv(s', other)
      {
        StartRuns(s, step, other);
      }
      forall other <- s'.builds
        ensures RecordInv(s', other)
      {
        StartRecords(s, step, other);
      }
    }
  }

  lemma FreeInv(s: State, step: Step)
    requires Inv(s) && step.Advance? && Enabled(s, step) && s.runs[step.id].Freeing?
    ensures Inv(Apply(s, step))
  {
  }

  lemma AdvanceRuns(s: State, step: Step, other: string)
    requires Inv(s) && step.Advance? && Enabled(s, step) && !s.runs[step.id].Freeing? && other in s.runs
    ensures RunInv(Apply(s, step), other)
  {
    assert RunInv(s, step.id) && RecordInv(s, step.id) && RunInv(s, other);
    TraceAdvances(s.specs[step.id], s.runs[step.id], s.traces[step.id], step.ok);
  }

  lemma AdvanceRecords(s: State, step: Step, other: string)
    requires Inv(s) && step.Advance? && Enabled(s, step) && !s.runs[step.id].Freeing? && other in s.builds
    ensures RecordInv(Apply(s, step), other)
  {
    assert RunInv(s, step.id) && RecordInv(s, other);
  }

  lemma AdvanceInv(s: State, step: Step)
    requires Inv(s) && step.Advance? && Enabled(s, step) && !s.runs[step.id].Freeing?
    ensures Inv(Apply(s, step))
  {
    var s', id := Apply(s, step), step.id;
    assert RunInv(s, id);
    assert s'.runs.Keys == s.runs.Keys;
    forall other <- s'.runs
      ensures RunInv(s', other)
    {
      AdvanceRuns(s, step, other);
    }
    forall other <- s'.builds
      ensures RecordInv(s', other)
    {
      AdvanceRecords(s, step, other);
    }
  }

  lemma StepInv(s: State, step: Step)
    requires Inv(s) && Enabled(s, step)
    ensures Inv(Apply(s, step))
  {
    match step
    case Register(id, now, later) =>
      SweptInv(s, now);
      RegisterInv(s.(builds := Swept(s.builds, now)), id, later);
    case Start(_, _) => StartInv(s, step);
    case Poll(now) => SweptInv(s, now);
    case Advance(id, _, _) =>
      if s.runs[id].Freeing? {
        FreeInv(s, step);
      } else {
        AdvanceInv(s, step);
      }
  }

  lemma {:induction false} RunsKeepInv(s: State, steps: seq<Step>)
    requires Inv(s) && Legal(s, steps)
    ensures Inv(Exec(s, steps))
    decreases |steps|
  {
    if steps != [] {
      StepInv(s, steps[0]);
      RunsKeepInv(Apply(s, steps[0]), steps[1..]);
    }
  }

  // ---------------------------------------------------------------- the theorems

  /**
   In every interleaving: occupied slots are exactly the runs in flight, at most the
   capacity, and every building record has its run; a record that reads ready went through
   every call in order and released its claim; a failed one made the calls before the failing
   one, in order, and released its claim exactly once if it had one.
   */
  lemma EveryRunIsSound(s: State, steps: seq<Step>, id: string)
    requires Init(s) && Legal(s, steps)
    ensures var e := Exec(s, steps);
            && e.slots == |e.runs| <= e.capacity
            && (id in e.builds && e.builds[id].status.Building? ==> id in e.runs && !e.runs[id].Freeing?)
            && (id in e.builds && e.builds[id].status.Ready? ==>
                id in e.specs && id in e.traces && e.traces[id] == FullTrace(e.specs[id]))
            && (id in e.builds && e.builds[id].status.Failed? ==>
                  id in e.specs && id in e.traces && FailedTrace(e.specs[id], e.traces[id]))
  {
    RunsKeepInv(s, steps);
    var e := Exec(s, steps);
    if id in e.builds {
      assert RecordInv(e, id);
    }
  }

  /** A status may only stay, or go from waiting to building to ready or failed. */
  predicate MayBecome(before: Status, after: Status) {
    before == after || (before.Waiting? && after.Building?) || (before.Building? && (after.Ready? || after.Failed?))
  }

  /** After any run, whatever step comes next moves every status forward only and removes no building record. */
  lemma StatusMovesForward(s: State, steps: seq<Step>, next: Step, id: string)
    requires Init(s) && Legal(s, steps) && Enabled(Exec(s, steps), next)
    requires id in Exec(s, steps).builds
    ensures var e, e' := Exec(s, steps), Apply(Exec(s, steps), next);
            && (e.builds[id].status.Building? ==> id in e'.builds)
            && (id in e'.builds ==> MayBecome(e.builds[id].status, e'.builds[id].status))
            && (id in e'.builds && e.builds[id].finished.Some? ==> e'.builds[id] == e.builds[id])
  {
    RunsKeepInv(s, steps);
    var e := Exec(s, steps);
    assert RecordInv(e, id);
    match next
    case Register(other, now, _) => SweptInv(e, now);
    case Poll(now) => SweptInv(e, now);
    case Advance(other, _, _) => assert RunInv(e, other);
    case Start(_, _) =>
  }

  /**
   The claim is released before the record turns terminal: the step that ends a build finds its one
   release already made.
   */
  lemma ReleaseComesFirst(s: State, steps: seq<Step>, next: Step, id: string)
    requires Init(s) && Legal(s, steps) && Enabled(Exec(s, steps), next)
    requires id in Exec(s, steps).builds && Exec(s, steps).builds[id].finished.None?
    requires id in Apply(Exec(s, steps), next).builds && Apply(Exec(s, steps), next).builds[id].finished.Some?
    ensures var e := Exec(s, steps);
            id in e.traces && (Claimed in e.traces[id] ==> multiset(e.traces[id])[Released] == 1)
  {
    RunsKeepInv(s, steps);
    var e := Exec(s, steps);
    assert RecordInv(e, id);
    assert next.Advance? && next.id == id;
    assert RunInv(e, id);
    var pc, t := e.runs[id], e.traces[id];
    assert pc.Finishing?;
    OneRelease(e.specs[id], t);
  }

  lemma OneRelease(spec: Spec, t: seq<Call>)
    requires t == FullTrace(spec) || FailedTrace(spec, t)
    ensures t != [] ==> multiset(t)[Released] == 1
  {
    if t == FullTrace(spec) {
      DoneHasNoRelease(spec, Releasing(true));
      CountsLast(Done(spec, Releasing(true)), Released, t);
    } else if t != [] {
      var at :| FailedThenReleased(spec, at, t);
      DoneHasNoRelease(spec, at);
      CountsLast(t[..|t| - 1], Released, t);
    }
  }

  lemma CountsLast(front: seq<Call>, last: Call, t: seq<Call>)
    requires last !in front && t == front + [last]
    ensures multiset(t)[last] == 1
  {
    assert last !in multiset(front);
  }

  // ---------------------------------------------------------------- calls in order, for good

  /** Every trace on record is in order, also once its run and record are gone. */
  ghost predicate TracesInOrder(s: State) {
    forall id <- s.traces :: id in s.specs && InOrder(s.specs[id], s.traces[id])
  }

  lemma StepKeepsOrder(s: State, step: Step)
    requires Inv(s) && TracesInOrder(s) && Enabled(s, step)
    ensures TracesInOrder(Apply(s, step))
  {
    if step.Advance? && !s.runs[step.id].Freeing? {
      var id, s' := step.id, Apply(s, step);
      assert RunInv(s, id);
      TraceAdvances(s.specs[id], s.runs[id], s.traces[id], step.ok);
      FittingIsInOrder(s.specs[id], s'.runs[id], s'.traces[id]);
    } else if step.Start? {
      FittingIsInOrder(step.spec, Claiming, []);
    }
  }

  lemma {:induction false} RunsKeepOrder(s: State, steps: seq<Step>)
    requires Inv(s) && TracesInOrder(s) && Legal(s, steps)
    ensures TracesInOrder(Exec(s, steps))
    decreases |steps|
  {
    if steps != [] {
      StepInv(s, steps[0]);
      StepKeepsOrder(s, steps[0]);
      RunsKeepOrder(Apply(s, steps[0]), steps[1..]);
    }
  }

  /**
   In every run: a build that promoted had claimed, done every step, initialized, started and
   become ready before, in this order; one that published had promoted right before.
   */
  lemma PromotedMeansPrepared(s: State, steps: seq<Step>, id: string)
    requires Init(s) && Legal(s, steps) && id in Exec(s, steps).traces
    ensures var e := Exec(s, steps);
            && id in e.specs && InOrder(e.specs[id], e.traces[id])
            && (Promoted in e.traces[id] ==> Done(e.specs[id], Promoting) + [Promoted] <= e.traces[id])
            && (Published in e.traces[id] ==> Done(e.specs[id], Promoting) + [Promoted, Published] <= e.traces[id])
  {
    RunsKeepOrder(s, steps);
    var e := Exec(s, steps);
    var spec, trace := e.specs[id], e.traces[id];
    var at :| Follows(spec, at, trace);
    DonePromotes(spec, at);
  }

  lemma DonePromotes(spec: Spec, at: Pc)
    requires Reached(spec, at)
    ensures Promoted in Done(spec, at) ==> Done(spec, Promoting) + [Promoted] <= Done(spec, at)
    ensures Published in Done(spec, at) ==> Done(spec, Promoting) + [Promoted, Published] <= Done(spec, at)
    ensures Promoted in Done(spec, at) <==> at.Publishing? || at.Releasing?
    ensures Published in Done(spec, at) ==> at.Releasing?
  {
    StepCallsAreSteps(spec.steps);
    if at.Stepping? {
      StepCallsAreSteps(at.i);
    }
  }

  /** The build `id` is over after the calls `t`: nothing but the release can follow. */
  ghost predicate Over(s: State, id: string, t: seq<Call>) {
    && id in s.used && id in s.traces && (id in s.builds ==> !s.builds[id].status.Waiting?)
    && (s.traces[id] == t || s.traces[id] == t + [Released])
    && (id in s.runs ==>
          || s.runs[id].Finishing? || s.runs[id].Freeing?
          || (s.runs[id].Releasing? && s.traces[id] == t))
  }

  lemma {:induction false} StaysOver(s: State, id: string, t: seq<Call>, steps: seq<Step>)
    requires Over(s, id, t) && Legal(s, steps)
    ensures Over(Exec(s, steps), id, t)
    decreases |steps|
  {
    if steps != [] {
      StaysOver(Apply(s, steps[0]), id, t, steps[1..]);
    }
  }

  /**
   Once a call of a run has failed, that build makes no call but its release, whatever else
   happens later; so a build whose step, init, start, ready check or promote failed never
   promotes and never publishes.
   */
  lemma NothingFollowsFailure(s: State, steps: seq<Step>, id: string, now: int, more: seq<Step>)
    requires Init(s) && Legal(s, steps) && Enabled(Exec(s, steps), Advance(id, false, now))
    requires var pc := Exec(s, steps).runs[id]; !pc.Releasing? && !pc.Finishing? && !pc.Freeing?
    requires Legal(Apply(Exec(s, steps), Advance(id, false, now)), more)
    ensures var e, f := Exec(s, steps), Exec(Apply(Exec(s, steps), Advance(id, false, now)), more);
            && id in f.traces && (f.traces[id] == e.traces[id] || f.traces[id] == e.traces[id] + [Released])
            && (!e.runs[id].Publishing? ==> Promoted !in f.traces[id])
            && Published !in f.traces[id]
  {
    RunsKeepInv(s, steps);
    var e := Exec(s, steps);
    assert RunInv(e, id);
    DonePromotes(e.specs[id], e.runs[id]);
    StaysOver(Apply(e, Advance(id, false, now)), id, e.traces[id], more);
  }

  // ---------------------------------------------------------------- how long a record lives

  /** The clock a step sweeps with, if it sweeps. */
  function SweepClock(step: Step): Option<int> {
    match step
    case Register(_, now, _) => Some(now)
    case Poll(now) => Some(now)
    case _ => None
  }

  /** No sweep of these steps reads a clock past `limit`. */
  ghost predicate SweepsBy(steps: seq<Step>, limit: int) {
    forall step <- steps :: SweepClock(step).Some? ==> SweepClock(step).value <= limit
  }

  /**
   A finished record stays as it is, for every poll to return, until a sweep reads a clock more
   than an hour past its end.
   */
  lemma {:induction false} FinishedIsKept(s: State, steps: seq<Step>, id: string)
    requires Inv(s) && Legal(s, steps)
    requires id in s.builds && s.builds[id].finished.Some? && SweepsBy(steps, s.builds[id].finished.value + 3600)
    ensures id in Exec(s, steps).builds && Exec(s, steps).builds[id] == s.builds[id]
    decreases |steps|
  {
    if steps != [] {
      var step := steps[0];
      assert RecordInv(s, id) && step in steps;
      assert step.Advance? ==> RunInv(s, step.id);
      StepInv(s, step);
      FinishedIsKept(Apply(s, step), steps[1..], id);
    }
  }

  /**
   A waiting record stays, so that a start finds it, until a sweep reads a clock more than an hour
   past its registration.
   */
  lemma {:induction false} WaitingIsKept(s: State, steps: seq<Step>, id: string)
    requires Inv(s) && Legal(s, steps) && (forall step <- steps :: step.Start? ==> step.id != id)
    requires id in s.builds && s.builds[id].status.Waiting? && SweepsBy(steps, s.builds[id].registered + 3600)
    ensures id in Exec(s, steps).builds && Exec(s, steps).builds[id] == s.builds[id]
    ensures var e := Exec(s, steps); !StartOf(e.builds, e.slots, e.capacity, id).UnknownBuild?
    decreases |steps|
  {
    if steps != [] {
      var step := steps[0];
      assert RecordInv(s, id) && step in steps;
      assert step.Advance? ==> RunInv(s, step.id);
      StepInv(s, step);
      WaitingIsKept(Apply(s, step), steps[1..], id);
    }
  }

  /** The first sweep later than that removes it, and no later step brings it back. */
  lemma ExpiredIsGone(s: State, step: Step, more: seq<Step>, id: string)
    requires Inv(s) && Enabled(s, step) && Legal(Apply(s, step), more) && id in s.builds && SweepClock(step).Some?
    requires
      || (s.builds[id].finished.Some? && SweepClock(step).value > s.builds[id].finished.value + 3600)
      || (s.builds[id].status.Waiting? && SweepClock(step).value > s.builds[id].registered + 3600)
    ensures id !in Exec(Apply(s, step), more).builds
  {
    assert RecordInv(s, id);
    StaysGone(Apply(s, step), more, id);
  }

  lemma {:induction false} StaysGone(s: State, steps: seq<Step>, id: string)
    requires id in s.used && id !in s.builds && Legal(s, steps)
    ensures id !in Exec(s, steps).builds
    decreases |steps|
  {
    if steps != [] {
      StaysGone(Apply(s, steps[0]), steps[1..], id);
    }
  }

  // ---------------------------------------------------------------- that runs end

  /** How many advances a run still takes at most. */
  function StepsLeft(spec: Spec, pc: Pc): nat {
    match pc
    case Claiming => spec.steps + 9
    case Stepping(i) => (if i <= spec.steps then spec.steps - i else 0) + 8
    case Starting => 7
    case AwaitingReady => 6
    case Promoting => 5
    case Publishing => 4
    case Releasing(_) => 3
    case Finishing(_) => 2
    case Freeing => 1
  }

  /** Whatever the answers, every advance of a run brings it nearer to its end, and the last one frees its slot. */
  lemma RunsEnd(s: State, id: string, ok: bool, now: int)
    requires Enabled(s, Advance(id, ok, now)) && Inv(s)
    ensures var s' := Apply(s, Advance(id, ok, now));
            if s.runs[id].Freeing? then id !in s'.runs && s'.slots == s.slots - 1
            else id in s'.runs && s'.specs == s.specs && s'.slots == s.slots
                 && StepsLeft(s.specs[id], s'.runs[id]) < StepsLeft(s.specs[id], s.runs[id])
  {
    assert RunInv(s, id);
  }

  /**
   A waiting build that is started with a slot free and whose calls all succeed ends ready,
   having made every call in order, with its slot free again.
   */
  lemma GoodBuildEndsReady(s: State, id: string, spec: Spec, now: int) returns (steps: seq<Step>)
    requires Inv(s) && id in s.builds && s.builds[id].status.Waiting? && s.slots < s.capacity
    ensures Legal(s, steps) && steps != [] && steps[0] == Start(id, spec)
    ensures forall step <- steps[1..] :: step == Advance(id, true, now)
    ensures var e := Exec(s, steps);
            && id in e.builds && e.builds[id] == s.builds[id].(status := Ready, finished := Some(now))
            && id !in e.runs && e.slots == s.slots && id in e.traces && e.traces[id] == FullTrace(spec)
  {
    StartInv(s, Start(id, spec));
    var s1 := Apply(s, Start(id, spec));
    steps := GoodRunEndsReady(s1, id, now);
    steps := [Start(id, spec)] + steps;
    assert steps[1..] + [] == steps[1..];
  }

  lemma {:induction false} GoodRunEndsReady(s: State, id: string, now: int) returns (steps: seq<Step>)
    requires Inv(s) && id in s.runs && id in s.specs && GoodSoFar(s, id, now)
    ensures Legal(s, steps) && forall step <- steps :: step == Advance(id, true, now)
    ensures var e := Exec(s, steps);
            && id in e.builds && e.builds[id] == EndRecord(s, id, now)
            && id !in e.runs && e.slots == s.slots - 1 && id in e.traces && e.traces[id] == FullTrace(s.specs[id])
    decreases StepsLeft(s.specs[id], s.runs[id])
  {
    assert RunInv(s, id);
    var step := Advance(id, true, now);
    StepInv(s, step);
    RunsEnd(s, id, true, now);
    var s' := Apply(s, step);
    if s.runs[id].Freeing? {
      steps := [step];
      assert steps[1..] == [] && Legal(s', []);
    } else {
      assert RunInv(s', id);
      var rest := GoodRunEndsReady(s', id, now);
      steps := [step] + rest;
      assert steps[1..] == rest;
    }
  }

  /** The run has not failed yet, or has just ended well. */
  predicate GoodSoFar(s: State, id: string, now: int)
    requires id in s.runs
  {
    && (s.runs[id].Releasing? ==> s.runs[id].ok) && (s.runs[id].Finishing? ==> s.runs[id].ok)
    && (s.runs[id].Freeing? ==> id in s.builds && id in s.specs && id in s.traces
                                && s.builds[id].status.Ready? && s.builds[id].finished == Some(now)
                                && s.traces[id] == FullTrace(s.specs[id]))
    && id in s.builds
  }

  function EndRecord(s: State, id: string, now: int): Record
    requires id in s.builds
  {
    s.builds[id].(status := Ready, finished := Some(now))
  }
}
