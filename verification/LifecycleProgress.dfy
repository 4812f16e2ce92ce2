/** What the lifecycle grants: every operation ends, and an undisturbed one succeeds when it may. */
module LifecycleProgress {
  import opened LifecycleProtocol
  import opened LifecycleSafety
  import opened LifecycleTheorems

  // ---- Every operation is over after a bounded number of its own steps

  /** An upper bound on the accesses a thread has still to make before it is at rest. */
  function StepsLeft(pc: Pc): nat {
    match pc
    case Idle | Admitted(_) | Reserved(_, _) | Committed(_, _) | Constructing => 0
    case AdmitUndo | ReserveUndo | RollbackUndo | CommitExchange(_, _) | UseHandle(_, _) => 1
    case CloseGeneration | CleanLost | StoreClosed | OpenAdmitted => 1
    case AdmitRecheck(_) | ReserveRevert(_) | CommitLifecycle(_, _) | UseLifecycle(_, _) => 2
    case ReleaseInput | OpenGeneration => 2
    case AdmitGeneration | ReserveConfirmGeneration(_, _) | UseProjection(_, _) | ReleaseParser | OpenOwned => 3
    case AdmitAdd | ReserveConfirm(_, _) | ReleaseDocument => 4
    case ReserveExchange(_, _) | CleanClaim => 5
    case ReserveRecheck(_, _) | CleanAdmitted => 6
    case ReserveGeneration(_) | CleanLifecycle => 7
    case ReserveAdd(_) => 8
    case ReserveLifecycle(_) => 9
  }

  /** Whatever other threads do in between, each own step brings a thread closer to rest: no operation
    * ever waits or retries. */
  lemma EveryStepCounts(m: Shared, pc: Pc, request: Request)
    ensures StepsLeft(pc) > 0 ==> StepsLeft(Step(m, pc, request).1) < StepsLeft(pc)
    ensures StepsLeft(Step(m, pc, request).1) <= 9
  {
  }

  // ---- One thread, undisturbed

  lemma Again(s: State, e: Event, n: nat)
    ensures Repeat(s, e, n + 1) == Next(Repeat(s, e, n), e)
    ensures Repeat(s, e, 0) == s
  {
  }

  // One step that only moves the thread, or that also changes the shared state.
  lemma Moves(s: State, e: Event, n: nat, m: Shared, pc: Pc)
    requires Repeat(s, e, n).shared == m && Repeat(s, e, n).At(e.thread) == pc
    ensures Repeat(s, e, n + 1).shared == Step(m, pc, e.request).0
    ensures Repeat(s, e, n + 1).At(e.thread) == Step(m, pc, e.request).1
  {
    Again(s, e, n);
  }

  /** On an open document an undisturbed admission is granted in four accesses. */
  lemma AdmissionIsGranted(events: seq<Event>, t: nat)
    requires Execute(events).shared.lifecycle == Open && Execute(events).At(t) == Idle
    ensures
      var s := Execute(events);
      var after := Repeat(s, Event(t, Admit), 4);
      && after.At(t) == Admitted(s.shared.generation)
      && after.shared == s.shared.(admitted := s.shared.admitted + 1)
  {
    OpenIsFirstGeneration(events);
    var s, e := Execute(events), Event(t, Admit);
    var m := s.shared;
    var counted := m.(admitted := m.admitted + 1);
    AdmissionSteps(m);
    hide Execute, Repeat, Step;
    Again(s, e, 0);
    Moves(s, e, 0, m, Idle);
    Moves(s, e, 1, m, AdmitAdd);
    Moves(s, e, 2, counted, AdmitGeneration);
    Moves(s, e, 3, counted, AdmitRecheck(m.generation));
  }

  lemma AdmissionSteps(m: Shared)
    requires m.lifecycle == Open && m.generation > 0
    ensures
      var counted := m.(admitted := m.admitted + 1);
      && Step(m, Idle, Admit) == (m, AdmitAdd)
      && Step(m, AdmitAdd, Admit) == (counted, AdmitGeneration)
      && Step(counted, AdmitGeneration, Admit) == (counted, AdmitRecheck(m.generation))
      && Step(counted, AdmitRecheck(m.generation), Admit) == (counted, Admitted(m.generation))
  {
  }

  lemma OpenIsFirstGeneration(events: seq<Event>)
    ensures Execute(events).shared.generation > 0
    ensures Execute(events).shared.lifecycle == Open ==> Execute(events).shared.generation == 1
  {
    ReachableInv(events);
  }

  /** With the cursor fresh as well, an undisturbed reservation is granted in eight accesses. */
  lemma ReservationIsGranted(events: seq<Event>, t: nat, kind: Kind)
    requires Execute(events).shared.lifecycle == Open && Execute(events).At(t) == Idle
    requires Execute(events).shared.projection == Fresh
    ensures
      var s := Execute(events);
      var after := Repeat(s, Event(t, Reserve(kind)), 8);
      && after.At(t) == Reserved(kind, s.shared.generation)
      && after.shared == s.shared.(admitted := s.shared.admitted + 1, projection := Transient(kind))
  {
    OpenIsFirstGeneration(events);
    var s, e := Execute(events), Event(t, Reserve(kind));
    var m := s.shared;
    var counted := m.(admitted := m.admitted + 1);
    var taken := counted.(projection := Transient(kind));
    var g := m.generation;
    ReservationCounts(m, kind);
    ReservationTakes(counted, kind);
    hide Execute, Repeat, Step;
    Again(s, e, 0);
    Moves(s, e, 0, m, Idle);
    Moves(s, e, 1, m, ReserveLifecycle(kind));
    Moves(s, e, 2, m, ReserveAdd(kind));
    Moves(s, e, 3, counted, ReserveGeneration(kind));
    Moves(s, e, 4, counted, ReserveRecheck(kind, g));
    Moves(s, e, 5, counted, ReserveExchange(kind, g));
    Moves(s, e, 6, taken, ReserveConfirm(kind, g));
    Moves(s, e, 7, taken, ReserveConfirmGeneration(kind, g));
  }

  lemma ReservationCounts(m: Shared, kind: Kind)
    requires m.lifecycle == Open && m.generation > 0 && m.projection == Fresh
    ensures
      var counted := m.(admitted := m.admitted + 1);
      && Step(m, Idle, Reserve(kind)) == (m, ReserveLifecycle(kind))
      && Step(m, ReserveLifecycle(kind), Reserve(kind)) == (m, ReserveAdd(kind))
      && Step(m, ReserveAdd(kind), Reserve(kind)) == (counted, ReserveGeneration(kind))
      && Step(counted, ReserveGeneration(kind), Reserve(kind)) == (counted, ReserveRecheck(kind, m.generation))
  {
  }

  lemma ReservationTakes(m: Shared, kind: Kind)
    requires m.lifecycle == Open && m.generation > 0 && m.projection == Fresh
    ensures
      var taken := m.(projection := Transient(kind));
      var g := m.generation;
      && Step(m, ReserveRecheck(kind, g), Reserve(kind)) == (m, ReserveExchange(kind, g))
      && Step(m, ReserveExchange(kind, g), Reserve(kind)) == (taken, ReserveConfirm(kind, g))
      && Step(taken, ReserveConfirm(kind, g), Reserve(kind)) == (taken, ReserveConfirmGeneration(kind, g))
      && Step(taken, ReserveConfirmGeneration(kind, g), Reserve(kind)) == (taken, Reserved(kind, g))
  {
  }

  lemma ReservedHolds(events: seq<Event>, t: nat)
    requires Execute(events).At(t).Reserved?
    ensures
      var s := Execute(events);
      && s.shared.projection == Transient(s.At(t).kind) && s.At(t).generation == 1 && s.shared.commits == 0
  {
    ReachableInv(events);
    assert Local(Execute(events).shared, Execute(events).At(t));
  }

  /** On an open document a reservation's holder commits in three accesses, the one commit there is. */
  lemma CommitSucceeds(events: seq<Event>, t: nat)
    requires Execute(events).shared.lifecycle == Open && Execute(events).At(t).Reserved?
    ensures
      var s := Execute(events);
      var after := Repeat(s, Event(t, Commit), 3);
      && after.At(t) == Committed(s.At(t).kind, s.At(t).generation)
      && after.shared == s.shared.(projection := Consumed, commits := 1)
  {
    OpenIsFirstGeneration(events);
    ReservedHolds(events, t);
    var s, e := Execute(events), Event(t, Commit);
    var m, kind := s.shared, s.At(t).kind;
    hide Execute, Repeat;
    Again(s, e, 0);
    Moves(s, e, 0, m, Reserved(kind, 1));
    Moves(s, e, 1, m, CommitLifecycle(kind, 1));
    Moves(s, e, 2, m, CommitExchange(kind, 1));
  }

  /** Once closing has begun a commit is refused, and the reservation is still held. */
  lemma CommitIsRefused(events: seq<Event>, t: nat)
    requires Execute(events).shared.lifecycle != Open && Execute(events).At(t).Reserved?
    ensures
      var s := Execute(events);
      exists n: nat ::
        0 < n <= 2 && Repeat(s, Event(t, Commit), n).At(t) == s.At(t)
        && Repeat(s, Event(t, Commit), n).shared == s.shared
  {
    ReservedHolds(events, t);
    var s, e := Execute(events), Event(t, Commit);
    var m, kind := s.shared, s.At(t).kind;
    hide Execute, Repeat;
    Again(s, e, 0);
    Moves(s, e, 0, m, Reserved(kind, 1));
    if m.generation == 1 {
      Moves(s, e, 1, m, CommitLifecycle(kind, 1));
      assert Repeat(s, e, 2).At(t) == s.At(t);
    } else {
      assert Repeat(s, e, 1).At(t) == s.At(t);
    }
  }

  lemma CommittedHolds(events: seq<Event>, t: nat)
    requires Execute(events).At(t).Committed?
    ensures Execute(events).shared.projection == Consumed && Execute(events).At(t).generation == 1
  {
    ReachableInv(events);
    assert Local(Execute(events).shared, Execute(events).At(t));
  }

  /** While the document is open, its committed operation reaches the handle in three accesses, and is
    * back with its claim after the fourth. */
  lemma HandleIsReached(events: seq<Event>, t: nat)
    requires Execute(events).shared.lifecycle == Open && Execute(events).At(t).Committed?
    ensures
      var s, e := Execute(events), Event(t, Use);
      && Repeat(s, e, 3).At(t) == UseHandle(s.At(t).kind, s.At(t).generation)
      && Repeat(s, e, 4).At(t) == s.At(t)
      && Repeat(s, e, 3).shared == Repeat(s, e, 4).shared == s.shared
  {
    OpenIsFirstGeneration(events);
    CommittedHolds(events, t);
    var s, e := Execute(events), Event(t, Use);
    var m, kind := s.shared, s.At(t).kind;
    hide Execute, Repeat;
    Again(s, e, 0);
    Moves(s, e, 0, m, Committed(kind, 1));
    Moves(s, e, 1, m, UseProjection(kind, 1));
    Moves(s, e, 2, m, UseLifecycle(kind, 1));
    Moves(s, e, 3, m, UseHandle(kind, 1));
  }

  /** A release gives its claim back at once. */
  lemma ReleaseGivesBack(events: seq<Event>, t: nat)
    requires Execute(events).At(t).Admitted? || Execute(events).At(t).Committed?
    ensures
      var s := Execute(events);
      var after := Next(s, Event(t, Release));
      after.At(t) == Idle && after.shared == s.shared.(admitted := s.shared.admitted - 1)
  {
  }

  /** Closing an open document takes two accesses, and outdates every earlier generation. */
  lemma CloseSucceeds(events: seq<Event>, t: nat)
    requires Execute(events).shared.lifecycle == Open && Execute(events).At(t) == Idle
    ensures
      var s := Execute(events);
      var after := Repeat(s, Event(t, Close), 2);
      after.At(t) == Idle && after.shared == s.shared.(lifecycle := Closing, generation := s.shared.generation + 1)
  {
    var s, e := Execute(events), Event(t, Close);
    var m := s.shared;
    hide Execute, Repeat;
    Again(s, e, 0);
    Moves(s, e, 0, m, Idle);
    Moves(s, e, 1, m.(lifecycle := Closing), CloseGeneration);
  }

  /** What is not open admits nobody, a cursor in use or used up is reserved for nobody, and a request
    * that is refused at once leaves no trace. */
  lemma RefusedAtOnce(events: seq<Event>, t: nat, kind: Kind)
    requires Execute(events).At(t) == Idle
    ensures
      var s := Execute(events);
      var m := s.shared;
      && (m.lifecycle != Open ==>
            var r := Next(s, Event(t, Admit)); r.At(t) == Idle && r.shared == m)
      && (m.lifecycle != Open ==>
            var r := Next(s, Event(t, Close)); r.At(t) == Idle && r.shared == m)
      && (m.projection != Fresh ==>
            var r := Next(s, Event(t, Reserve(kind))); r.At(t) == Idle && r.shared == m)
      && (m.projection == Fresh && m.lifecycle != Open ==>
            var r := Repeat(s, Event(t, Reserve(kind)), 2); r.At(t) == Idle && r.shared == m)
  {
    var s, e := Execute(events), Event(t, Reserve(kind));
    Again(s, e, 0);
    Moves(s, e, 0, s.shared, Idle);
    if s.shared.projection == Fresh {
      Moves(s, e, 1, s.shared, ReserveLifecycle(kind));
    }
  }
}
