/** The promises of the document lifecycle, over every interleaving of any number of threads. */
module LifecycleTheorems {
  import opened LifecycleProtocol
  import opened LifecycleSafety

  /** The admission count is always the number of threads with an outstanding admission. */
  lemma AdmittedIsHolders(events: seq<Event>)
    ensures
      var s := Execute(events);
      s.shared.admitted == |Members(s.threads, counts)| >= 0
  {
    ReachableInv(events);
  }

  /** Owned fields are released at most once each, document before parser before input. */
  lemma ReleasedOnceInOrder(events: seq<Event>)
    ensures
      var m := Execute(events).shared;
      && m.released <= RELEASE_ORDER
      && (forall r: Resource :: r in m.owned <==> r !in m.released)
  {
    ReachableInv(events);
    var m := Execute(events).shared;
    assert RELEASE_ORDER == RELEASE_ORDER[..|m.released|] + RELEASE_ORDER[|m.released|..];
    forall r: Resource ensures r in m.owned <==> r !in m.released {
      match r {
        case DocumentHandle => assert RELEASE_ORDER[0] == r;
        case ParserHandle => assert RELEASE_ORDER[1] == r;
        case InputBuffer => assert RELEASE_ORDER[2] == r;
      }
    }
  }

  /** Nothing is ever released while some thread holds an admission, a reservation or a commit. */
  lemma NothingReleasedUnderAHolder(events: seq<Event>, e: Event, holder: nat)
    requires
      var s := Execute(events);
      s.At(holder).Protected() || Next(s, e).At(holder).Protected()
    ensures
      var s := Execute(events);
      && Next(s, e).shared.released == s.shared.released == []
      && s.shared.owned == {DocumentHandle, ParserHandle, InputBuffer}
  {
    var s := Execute(events);
    ReachableInv(events);
    StepKeepsInv(s, e);
    assert Local(s.shared, s.At(e.thread));
    hide *;
    HolderOwnsAll(s, holder);
    HolderOwnsAll(Next(s, e), holder);
    StepReleasesNothing(s, e);
  }

  lemma StepReleasesNothing(s: State, e: Event)
    requires Local(s.shared, s.At(e.thread))
    ensures
      var after := Next(s, e);
      && s.shared.released <= after.shared.released
      && (after.shared.released == s.shared.released ==> after.shared.owned == s.shared.owned)
      && (!s.shared.cleanupStarted ==> after.shared.released == s.shared.released)
  {
    ReleasedNeverShrinks(s.shared, s.At(e.thread), e.request);
    OnlyCleanupReleases(s.shared, s.At(e.thread), e.request);
  }

  lemma OnlyCleanupReleases(m: Shared, pc: Pc, request: Request)
    requires Local(m, pc)
    ensures !m.cleanupStarted ==> Step(m, pc, request).0.released == m.released
  {
  }

  lemma HolderOwnsAll(s: State, holder: nat)
    requires Inv(s)
    ensures s.At(holder).Protected() ==>
              && !s.shared.cleanupStarted && s.shared.released == []
              && s.shared.owned == {DocumentHandle, ParserHandle, InputBuffer}
  {
    MemberCounts(s, holder, protected);
    assert RELEASE_ORDER[..0] == [] && RELEASE_ORDER[0..] == RELEASE_ORDER;
  }

  lemma ReleasedNeverShrinks(m: Shared, pc: Pc, request: Request)
    ensures m.released <= Step(m, pc, request).0.released && Step(m, pc, request).0.owned <= m.owned
    ensures Step(m, pc, request).0.released == m.released ==> Step(m, pc, request).0.owned == m.owned
  {
  }

  /** A committed operation that reaches the document handle finds it alive. */
  lemma HandleIsLive(events: seq<Event>, t: nat)
    requires Execute(events).At(t).UseHandle?
    ensures DocumentHandle in Execute(events).shared.owned
  {
    ReachableInv(events);
    HolderOwnsAll(Execute(events), t);
  }

  /** Selection and streaming exclude each other: at most one thread has the cursor, at most one
    * commit ever succeeds, and at most one thread holds it. */
  lemma OneCursor(events: seq<Event>, t: nat, u: nat)
    ensures
      var s := Execute(events);
      && (s.At(t).Owns() && s.At(u).Owns() ==> t == u)
      && (s.At(t).HoldsCommit() && s.At(u).HoldsCommit() ==> t == u)
      && !(s.At(t).Owns() && s.At(u).HoldsCommit())
      && s.shared.commits <= 1
      && (s.shared.projection.Transient? <==> exists w: nat :: s.At(w).Owns())
  {
    ReachableInv(events);
    var s := Execute(events);
    MemberCounts(s, t, owns);
    MemberCounts(s, u, holdsCommit);
    if s.At(t).Owns() && s.At(u).Owns() {
      TwoMembers(s, t, u, owns);
    }
    if s.At(t).HoldsCommit() && s.At(u).HoldsCommit() {
      TwoMembers(s, t, u, holdsCommit);
    }
    assert (exists w: nat :: owns(s.At(w))) <==> exists w: nat :: s.At(w).Owns();
  }

  /** An uncommitted holder's rollback always succeeds, whether or not closing has begun. */
  lemma RollbackSucceeds(events: seq<Event>, t: nat)
    requires Execute(events).At(t).Reserved?
    ensures
      var s := Execute(events);
      var after := Next(s, Event(t, Rollback));
      && after.At(t) == RollbackUndo && after.shared.projection == Fresh
      && Next(after, Event(t, Rollback)).At(t) == Idle
      && Next(after, Event(t, Rollback)).shared.admitted == s.shared.admitted - 1
  {
    ReachableInv(events);
    assert Local(Execute(events).shared, Execute(events).At(t));
  }

  // What a release asserts about its claim.
  lemma ReleaseIsSound(events: seq<Event>, t: nat)
    ensures
      var s := Execute(events);
      && (s.At(t).Admitted? ==> 0 < s.At(t).generation <= s.shared.generation && s.shared.admitted > 0)
      && (s.At(t).Committed? ==>
            s.At(t).generation != 0 && s.shared.projection == Consumed && s.shared.admitted > 0)
  {
    ReachableInv(events);
    var s := Execute(events);
    MemberCounts(s, t, counts);
    assert Local(s.shared, s.At(t));
  }

  // ---- What never comes back

  function Rank(l: Lifecycle): nat {
    match l
    case Open => 0
    case Closing => 1
    case Closed => 2
  }

  lemma StepAdvances(m: Shared, pc: Pc, request: Request)
    requires SharedInv(m) && Local(m, pc)
    ensures
      var after := Step(m, pc, request).0;
      && Rank(m.lifecycle) <= Rank(after.lifecycle)
      && (m.projection == Consumed ==> after.projection == Consumed)
      && m.generation <= after.generation
  {
  }

  /** The lifecycle only moves forward, a closed document is never opened again, and a consumed cursor
    * stays consumed. */
  lemma {:induction false} NothingComesBack(events: seq<Event>, more: seq<Event>)
    ensures
      var s, later := Execute(events), Execute(events + more);
      && Rank(s.shared.lifecycle) <= Rank(later.shared.lifecycle)
      && (s.shared.projection == Consumed ==> later.shared.projection == Consumed)
      && (forall t: nat :: !later.At(t).Constructing?)
    decreases |more|
  {
    NeverConstructing(events + more);
    hide Next;
    if more == [] {
      assert events + more == events;
    } else {
      var init := more[..|more| - 1];
      assert (events + more)[..|events + more| - 1] == events + init;
      NothingComesBack(events, init);
      ExecuteAdvances(events + init, more[|more| - 1]);
    }
  }

  lemma NeverConstructing(events: seq<Event>)
    ensures forall t: nat :: !Execute(events).At(t).Constructing?
  {
    ReachableInv(events);
    var s := Execute(events);
    forall t: nat ensures !s.At(t).Constructing? {
      assert Local(s.shared, s.At(t));
    }
  }

  lemma ExecuteAdvances(events: seq<Event>, e: Event)
    ensures
      var s := Execute(events);
      var after := Next(s, e);
      && Rank(s.shared.lifecycle) <= Rank(after.shared.lifecycle)
      && (s.shared.projection == Consumed ==> after.shared.projection == Consumed)
  {
    ReachableInv(events);
    var s := Execute(events);
    assert Local(s.shared, s.At(e.thread));
    StepAdvances(s.shared, s.At(e.thread), e.request);
  }

  /** Once closing has begun, no step admits anyone or reserves for anyone who was not already counted. */
  lemma NobodyEntersAfterClose(events: seq<Event>, e: Event)
    requires Execute(events).shared.lifecycle != Open && !Execute(events).At(e.thread).Protected()
    ensures !Next(Execute(events), e).At(e.thread).Protected()
  {
    ReachableInv(events);
    var s := Execute(events);
    assert Local(s.shared, s.At(e.thread));
    StepProtects(s.shared, s.At(e.thread), e.request);
  }

  /** Exactly one close wins and exactly one cleanup releases; a closed document has released all. */
  lemma OneCleanup(events: seq<Event>, t: nat, u: nat)
    ensures
      var s := Execute(events);
      && 1 <= s.shared.generation <= 2
      && (s.At(t).Closes() && s.At(u).Closes() ==> t == u)
      && (s.At(t).Releases() && s.At(u).Releases() ==> t == u)
      && (s.shared.lifecycle == Closed ==> s.shared.released == RELEASE_ORDER && s.shared.owned == {})
      && (s.shared.lifecycle == Closed ==> !s.At(t).Releases() && !s.At(t).Protected())
  {
    ReachableInv(events);
    var s := Execute(events);
    MemberCounts(s, t, releases);
    HolderOwnsAll(s, t);
    if s.At(t).Closes() && s.At(u).Closes() {
      TwoMembers(s, t, u, closes);
    }
    if s.At(t).Releases() && s.At(u).Releases() {
      TwoMembers(s, t, u, releases);
    }
    assert RELEASE_ORDER[..3] == RELEASE_ORDER && RELEASE_ORDER[3..] == [];
  }

  // ---- Cleanup gets done

  /** The same thread taking `n` steps of one request. */
  function Repeat(s: State, e: Event, n: nat): State {
    if n == 0 then s else Next(Repeat(s, e, n - 1), e)
  }

  ghost predicate AllIdle(s: State) {
    forall t: nat :: s.At(t) == Idle
  }

  lemma IdleCountsNothing(s: State, p: Pc -> bool)
    requires AllIdle(s) && !p(Idle)
    ensures |Members(s.threads, p)| == 0
  {
    MemberCounts(s, 0, p);
  }

  /** When every claim on a closing document has been given up, one cleanup by any thread releases
    * everything and closes it. */
  lemma CleanupCompletes(events: seq<Event>, t: nat)
    requires AllIdle(Execute(events)) && Execute(events).shared.lifecycle == Closing
    ensures
      var after := Repeat(Execute(events), Event(t, Cleanup), 8).shared;
      && after.lifecycle == Closed && after.released == RELEASE_ORDER && after.owned == {}
      && after.admitted == 0 && after.generation == 2
  {
    ReachableInv(events);
    var s := Execute(events);
    IdleCountsNothing(s, counts);
    IdleCountsNothing(s, releases);
    IdleCountsNothing(s, closes);
    var e := Event(t, Cleanup);
    CleanupRuns(s, e);
  }

  lemma CleanupRuns(s: State, e: Event)
    requires s.At(e.thread) == Idle && e.request == Cleanup
    requires s.shared.lifecycle == Closing && s.shared.admitted == 0 && !s.shared.cleanupStarted
    requires ReleasedUpTo(s.shared, 0) && s.shared.generation == 2
    ensures
      var after := Repeat(s, e, 8).shared;
      && after.lifecycle == Closed && after.released == RELEASE_ORDER && after.owned == {}
      && after.admitted == 0 && after.generation == 2
  {
    var claimed := Repeat(s, e, 4);
    CleanupClaims(s, e);
    assert RELEASE_ORDER[..0] == [] && RELEASE_ORDER[0..] == RELEASE_ORDER;
    hide Repeat;
    CleanupReleases(claimed, e);
    RepeatAgain(s, e, 4, 4);
  }

  lemma {:induction false} RepeatAgain(s: State, e: Event, n: nat, k: nat)
    ensures Repeat(Repeat(s, e, n), e, k) == Repeat(s, e, n + k)
    decreases k
  {
    hide Next;
    if k > 0 {
      RepeatAgain(s, e, n, k - 1);
    }
  }

  lemma CleanupClaims(s: State, e: Event)
    requires s.At(e.thread) == Idle && e.request == Cleanup
    requires s.shared.lifecycle == Closing && s.shared.admitted == 0 && !s.shared.cleanupStarted
    ensures
      var claimed := Repeat(s, e, 4);
      claimed.At(e.thread) == ReleaseDocument && claimed.shared == s.shared.(cleanupStarted := true)
  {
    assert Repeat(s, e, 1).At(e.thread) == CleanLifecycle && Repeat(s, e, 1).shared == s.shared;
    assert Repeat(s, e, 2).At(e.thread) == CleanAdmitted && Repeat(s, e, 2).shared == s.shared;
    assert Repeat(s, e, 3).At(e.thread) == CleanClaim && Repeat(s, e, 3).shared == s.shared;
  }

  lemma CleanupReleases(s: State, e: Event)
    requires s.At(e.thread) == ReleaseDocument
    requires s.shared.released == [] && s.shared.owned == {DocumentHandle, ParserHandle, InputBuffer}
    ensures
      var after := Repeat(s, e, 4).shared;
      after == s.shared.(lifecycle := Closed, released := RELEASE_ORDER, owned := {})
  {
    DestroyAll(s.shared);
    var r1 := ReleaseStep(s, e, DocumentHandle);
    var r2 := ReleaseStep(r1, e, ParserHandle);
    var r3 := ReleaseStep(r2, e, InputBuffer);
    hide Destroy, Step;
    assert Repeat(s, e, 1) == r1 && Repeat(s, e, 2) == r2 && Repeat(s, e, 3) == r3;
    CloseStep(r3, e);
  }

  function Releasing(r: Resource): Pc {
    match r
    case DocumentHandle => ReleaseDocument
    case ParserHandle => ReleaseParser
    case InputBuffer => ReleaseInput
  }

  lemma ReleaseStep(s: State, e: Event, r: Resource) returns (after: State)
    requires s.At(e.thread) == Releasing(r)
    ensures after == Next(s, e) && after.shared == Destroy(s.shared, r)
    ensures after.At(e.thread) == match r
              case DocumentHandle => ReleaseParser
              case ParserHandle => ReleaseInput
              case InputBuffer => StoreClosed
  {
    after := Next(s, e);
  }

  lemma CloseStep(s: State, e: Event)
    requires s.At(e.thread) == StoreClosed
    ensures Next(s, e).shared == s.shared.(lifecycle := Closed)
  {
  }

  lemma DestroyAll(m: Shared)
    requires m.released == [] && m.owned == {DocumentHandle, ParserHandle, InputBuffer}
    ensures Destroy(Destroy(Destroy(m, DocumentHandle), ParserHandle), InputBuffer) ==
              m.(released := RELEASE_ORDER, owned := {})
  {
    assert m.owned - {DocumentHandle} == {ParserHandle, InputBuffer};
    assert m.owned - {DocumentHandle} - {ParserHandle} == {InputBuffer};
    assert m.owned - {DocumentHandle} - {ParserHandle} - {InputBuffer} == {};
  }
}
