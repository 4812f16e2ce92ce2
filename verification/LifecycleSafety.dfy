/** What every interleaving of the document lifecycle keeps. */
module LifecycleSafety {
  import opened Arithmetic
  import opened LifecycleProtocol
  import opened FiniteSets

  // ---- Counting threads

  /** The threads whose position satisfies `p`. */
  ghost function Members(threads: map<nat, Pc>, p: Pc -> bool): set<nat> {
    set t | t in threads && p(threads[t])
  }

  lemma MembersUpdate(s: State, t: nat, pc: Pc, p: Pc -> bool)
    requires !p(Idle)
    ensures |Members(s.threads[t := pc], p)| + One(p(s.At(t))) == |Members(s.threads, p)| + One(p(pc))
  {
    MembersAfter(s, t, pc, p);
    hide Members;
    OneMoreOrLess(Members(s.threads, p), t);
  }

  lemma MembersAfter(s: State, t: nat, pc: Pc, p: Pc -> bool)
    requires !p(Idle)
    ensures t in Members(s.threads, p) <==> p(s.At(t))
    ensures Members(s.threads[t := pc], p) ==
            if p(pc) then Members(s.threads, p) + {t} else Members(s.threads, p) - {t}
  {
  }

  lemma OneMoreOrLess(a: set<nat>, t: nat)
    ensures |a + {t}| == |a| + One(t !in a)
    ensures |a - {t}| + One(t in a) == |a|
  {
    if t in a {
      assert a + {t} == a;
    } else {
      assert a - {t} == a;
    }
  }

  lemma MemberCounts(s: State, t: nat, p: Pc -> bool)
    requires !p(Idle)
    ensures p(s.At(t)) ==> |Members(s.threads, p)| > 0
    ensures |Members(s.threads, p)| > 0 <==> exists u: nat :: p(s.At(u))
  {
    var members := Members(s.threads, p);
    if p(s.At(t)) {
      assert t in members;
    }
    if members != {} {
      var u :| u in members;
      assert p(s.At(u));
    }
    if u: nat :| p(s.At(u)) {
      assert u in members;
    }
  }

  lemma TwoMembers(s: State, t: nat, u: nat, p: Pc -> bool)
    requires !p(Idle) && |Members(s.threads, p)| <= 1 && p(s.At(t)) && p(s.At(u))
    ensures t == u
  {
    var members := Members(s.threads, p);
    if t != u {
      assert {t, u} <= members;
      SubsetSize({t, u}, members);
    }
  }

  // The positions counted.
  const counts := (pc: Pc) => pc.Counts()
  const owns := (pc: Pc) => pc.Owns()
  const holdsCommit := (pc: Pc) => pc.HoldsCommit()
  const protected := (pc: Pc) => pc.Protected()
  const pastCheck := (pc: Pc) => pc.PastCheck()
  const releases := (pc: Pc) => pc.Releases()
  const closes := (pc: Pc) => pc.Closes()

  // ---- The invariant

  // What has been destroyed is a prefix of the release order, and the rest is owned.
  ghost predicate ReleasedUpTo(m: Shared, n: nat) {
    && n <= 3 && m.released == RELEASE_ORDER[..n]
    && m.owned == Remaining(n)
  }

  // What is still owned after `n` releases.
  ghost function Remaining(n: nat): set<Resource>
    requires n <= 3
  {
    set r: Resource | r in RELEASE_ORDER[n..]
  }

  ghost predicate SharedInv(m: Shared) {
    && m.generation > 0
    && (m.lifecycle == Open ==> m.generation == 1 && !m.cleanupStarted)
    && (!m.cleanupStarted ==> ReleasedUpTo(m, 0))
    && (m.lifecycle == Closed ==> m.cleanupStarted && ReleasedUpTo(m, 3))
    && ReleasedUpTo(m, |m.released|)
    && m.commits == One(m.projection == Consumed)
  }

  // What a thread may rely on where it stands.
  ghost predicate Local(m: Shared, pc: Pc) {
    match pc
    case AdmitRecheck(g) => 0 < g && (m.lifecycle == Open ==> g == 1)
    case ReserveRecheck(_, g) => 0 < g && (m.lifecycle == Open ==> g == 1)
    case Admitted(g) => g == 1
    case ReserveExchange(_, g) => g == 1
    case ReserveConfirm(kind, g) => m.projection == Transient(kind) && g == 1
    case ReserveConfirmGeneration(kind, g) => m.projection == Transient(kind) && g == 1
    case ReserveRevert(kind) => m.projection == Transient(kind)
    case Reserved(kind, g) => m.projection == Transient(kind) && g == 1
    case CommitLifecycle(kind, g) => m.projection == Transient(kind) && g == 1
    case CommitExchange(kind, g) => m.projection == Transient(kind) && g == 1
    case Committed(_, g) => m.projection == Consumed && g == 1
    case UseProjection(_, g) => m.projection == Consumed && g == 1
    case UseLifecycle(_, g) => m.projection == Consumed && g == 1
    case UseHandle(_, g) => m.projection == Consumed && g == 1
    case CloseGeneration | CleanAdmitted | CleanClaim => m.lifecycle != Open
    case ReleaseDocument => m.lifecycle == Closing && m.cleanupStarted && ReleasedUpTo(m, 0)
    case ReleaseParser => m.lifecycle == Closing && m.cleanupStarted && ReleasedUpTo(m, 1)
    case ReleaseInput => m.lifecycle == Closing && m.cleanupStarted && ReleasedUpTo(m, 2)
    case StoreClosed => m.lifecycle == Closing && m.cleanupStarted && ReleasedUpTo(m, 3)
    case OpenAdmitted | Constructing => false
    case _ => true
  }

  ghost predicate CountsAgree(s: State) {
    && s.shared.admitted == |Members(s.threads, counts)|
    && |Members(s.threads, owns)| == One(s.shared.projection.Transient?)
    && |Members(s.threads, holdsCommit)| <= s.shared.commits
    && |Members(s.threads, closes)| + s.shared.generation == 1 + One(s.shared.lifecycle != Open)
    && |Members(s.threads, releases)| + One(s.shared.lifecycle == Closed) == One(s.shared.cleanupStarted)
  }

  // Once cleanup may begin, nobody is protected any more.
  ghost predicate Unprotected(s: State) {
    s.shared.cleanupStarted || |Members(s.threads, pastCheck)| > 0 ==> |Members(s.threads, protected)| == 0
  }

  ghost predicate Inv(s: State) {
    && SharedInv(s.shared)
    && (forall t: nat :: Local(s.shared, s.At(t)))
    && CountsAgree(s)
    && Unprotected(s)
  }

  // ---- One step, seen by the thread that takes it and by another

  lemma StepKeepsShared(m: Shared, pc: Pc, request: Request)
    requires SharedInv(m) && Local(m, pc)
    ensures SharedInv(Step(m, pc, request).0)
  {
    DestroyAny(m);
  }

  lemma StepKeepsOwn(m: Shared, pc: Pc, request: Request)
    requires SharedInv(m) && Local(m, pc)
    ensures Local(Step(m, pc, request).0, Step(m, pc, request).1)
  {
    DestroyAny(m);
  }

  lemma DestroyAny(m: Shared)
    ensures ReleasedUpTo(m, 0) ==> ReleasedUpTo(Destroy(m, DocumentHandle), 1)
    ensures ReleasedUpTo(m, 1) ==> ReleasedUpTo(Destroy(m, ParserHandle), 2)
    ensures ReleasedUpTo(m, 2) ==> ReleasedUpTo(Destroy(m, InputBuffer), 3)
  {
    DestroyNext(m, 0);
    DestroyNext(m, 1);
    DestroyNext(m, 2);
  }

  lemma DestroyNext(m: Shared, n: nat)
    requires n < 3
    ensures ReleasedUpTo(m, n) ==> ReleasedUpTo(Destroy(m, RELEASE_ORDER[n]), n + 1)
  {
    if ReleasedUpTo(m, n) {
      var r := RELEASE_ORDER[n];
      NextRemains(n);
      assert RELEASE_ORDER[..n + 1] == RELEASE_ORDER[..n] + [r];
      assert r in m.owned;
    }
  }

  lemma NextRemains(n: nat)
    requires n < 3
    ensures RELEASE_ORDER[n] in Remaining(n) && Remaining(n + 1) == Remaining(n) - {RELEASE_ORDER[n]}
  {
    var r := RELEASE_ORDER[n];
    assert RELEASE_ORDER[n..] == [r] + RELEASE_ORDER[n + 1..];
    assert r !in RELEASE_ORDER[n + 1..] by {
      assert forall k :: n < k < 3 ==> RELEASE_ORDER[k] != r;
    }
  }

  /** Another thread keeps what it relies on, unless both claim the same exclusive role. */
  lemma StepKeepsOther(m: Shared, pc: Pc, request: Request, other: Pc)
    requires SharedInv(m) && Local(m, pc) && Local(m, other)
    requires !(pc.Owns() && other.Owns()) && !(pc.Releases() && other.Releases())
    requires other.Releases() ==> m.cleanupStarted
    ensures Local(Step(m, pc, request).0, other)
  {
  }

  // The four groups of positions, by the operation a thread is in.
  predicate Admitting(pc: Pc) {
    pc.AdmitAdd? || pc.AdmitGeneration? || pc.AdmitRecheck? || pc.AdmitUndo? || pc.Admitted?
  }

  predicate Reserving(pc: Pc) {
    || pc.ReserveLifecycle? || pc.ReserveAdd? || pc.ReserveGeneration? || pc.ReserveRecheck? || pc.ReserveExchange?
    || pc.ReserveConfirm? || pc.ReserveConfirmGeneration? || pc.ReserveRevert? || pc.ReserveUndo?
  }

  predicate Holding(pc: Pc) {
    || pc.Reserved? || pc.RollbackUndo? || pc.CommitLifecycle? || pc.CommitExchange? || pc.Committed?
    || pc.UseProjection? || pc.UseLifecycle? || pc.UseHandle?
  }

  lemma StepAdmitted(m: Shared, pc: Pc, request: Request)
    ensures
      var r := Step(m, pc, request);
      r.0.admitted - m.admitted == One(r.1.Counts()) - One(pc.Counts())
  {
    if Admitting(pc) {
      AdmittingCounts(m, pc, request);
    } else if Reserving(pc) {
      ReservingCounts(m, pc, request);
    } else if Holding(pc) {
      HoldingCounts(m, pc, request);
    } else {
      OthersCountNothing(m, pc, request);
    }
    hide Step;
  }

  lemma AdmittingCounts(m: Shared, pc: Pc, request: Request)
    requires Admitting(pc)
    ensures
      var r := Step(m, pc, request);
      r.0.admitted - m.admitted == One(r.1.Counts()) - One(pc.Counts())
  {
  }

  lemma ReservingCounts(m: Shared, pc: Pc, request: Request)
    requires Reserving(pc)
    ensures
      var r := Step(m, pc, request);
      r.0.admitted - m.admitted == One(r.1.Counts()) - One(pc.Counts())
  {
  }

  lemma HoldingCounts(m: Shared, pc: Pc, request: Request)
    requires Holding(pc)
    ensures
      var r := Step(m, pc, request);
      r.0.admitted - m.admitted == One(r.1.Counts()) - One(pc.Counts())
  {
  }

  lemma OthersCountNothing(m: Shared, pc: Pc, request: Request)
    requires !Admitting(pc) && !Reserving(pc) && !Holding(pc)
    ensures
      var r := Step(m, pc, request);
      r.0.admitted == m.admitted && !r.1.Counts() && !pc.Counts()
  {
  }

  lemma StepOwner(m: Shared, pc: Pc, request: Request)
    requires Local(m, pc)
    ensures
      var r := Step(m, pc, request);
      One(r.0.projection.Transient?) - One(m.projection.Transient?) == One(r.1.Owns()) - One(pc.Owns())
  {
  }

  lemma StepCommitter(m: Shared, pc: Pc, request: Request)
    ensures
      var r := Step(m, pc, request);
      One(r.1.HoldsCommit()) - One(pc.HoldsCommit()) <= r.0.commits - m.commits
  {
  }

  lemma StepCloser(m: Shared, pc: Pc, request: Request)
    requires Local(m, pc)
    ensures
      var r := Step(m, pc, request);
      && One(r.1.Closes()) + r.0.generation - One(r.0.lifecycle != Open) ==
           One(pc.Closes()) + m.generation - One(m.lifecycle != Open)
  {
  }

  lemma StepReleaser(m: Shared, pc: Pc, request: Request)
    requires Local(m, pc)
    ensures
      var r := Step(m, pc, request);
      && One(r.1.Releases()) + One(r.0.lifecycle == Closed) - One(r.0.cleanupStarted) ==
           One(pc.Releases()) + One(m.lifecycle == Closed) - One(m.cleanupStarted)
  {
    if !pc.CleanClaim? && !pc.Releases() {
      OthersReleaseNothing(m, pc, request);
    } else {
      ReleaserSteps(m, pc, request);
    }
    hide Step, Local;
  }

  lemma OthersReleaseNothing(m: Shared, pc: Pc, request: Request)
    requires !pc.CleanClaim? && !pc.Releases()
    ensures
      var r := Step(m, pc, request);
      !r.1.Releases() && r.0.cleanupStarted == m.cleanupStarted && (r.0.lifecycle == Closed <==> m.lifecycle == Closed)
  {
  }

  lemma ReleaserSteps(m: Shared, pc: Pc, request: Request)
    requires Local(m, pc) && (pc.CleanClaim? || pc.Releases())
    ensures
      var r := Step(m, pc, request);
      && One(r.1.Releases()) + One(r.0.lifecycle == Closed) - One(r.0.cleanupStarted) ==
           One(pc.Releases()) + One(m.lifecycle == Closed) - One(m.cleanupStarted)
  {
  }

  /** Protection is only gained while the document is open. */
  lemma StepProtects(m: Shared, pc: Pc, request: Request)
    requires Local(m, pc)
    ensures
      var r := Step(m, pc, request);
      && (r.1.Protected() && !pc.Protected() ==> m.lifecycle == Open && r.0 == m)
      && (pc.Protected() ==> pc.Counts())
  {
    hide Local;
  }

  /** Cleanup only begins after a check that found no admission. */
  lemma StepPastCheck(m: Shared, pc: Pc, request: Request)
    requires Local(m, pc)
    ensures
      var r := Step(m, pc, request);
      && (r.1.PastCheck() && !pc.PastCheck() ==> m.admitted == 0 && r.0 == m)
      && (r.0.cleanupStarted && !m.cleanupStarted ==> pc.PastCheck())
      && (pc.PastCheck() ==> m.lifecycle != Open)
  {
    PastCheckIsClosing(m, pc);
    hide Local;
    OnlyCheckPasses(m, pc, request);
  }

  lemma PastCheckIsClosing(m: Shared, pc: Pc)
    requires Local(m, pc)
    ensures pc.PastCheck() ==> m.lifecycle != Open
  {
  }

  lemma OnlyCheckPasses(m: Shared, pc: Pc, request: Request)
    ensures
      var r := Step(m, pc, request);
      && (r.1.PastCheck() && !pc.PastCheck() ==> pc.CleanAdmitted? && m.admitted == 0 && r.0 == m)
      && (r.0.cleanupStarted && !m.cleanupStarted ==> pc.CleanClaim?)
  {
  }

  // ---- The invariant is inductive

  lemma OthersKeepLocal(s: State, e: Event, u: nat)
    requires Inv(s) && u != e.thread
    ensures Local(Next(s, e).shared, s.At(u))
  {
    var pc, other := s.At(e.thread), s.At(u);
    if pc.Owns() && other.Owns() {
      TwoMembers(s, e.thread, u, owns);
    }
    if pc.Releases() && other.Releases() {
      TwoMembers(s, e.thread, u, releases);
    }
    MemberCounts(s, u, releases);
    StepKeepsOther(s.shared, pc, e.request, other);
  }

  lemma CountsKept(s: State, e: Event)
    requires Inv(s)
    ensures CountsAgree(Next(s, e))
  {
    var m, pc := s.shared, s.At(e.thread);
    var r := Step(m, pc, e.request);
    StepAdmitted(m, pc, e.request);
    StepOwner(m, pc, e.request);
    StepCommitter(m, pc, e.request);
    StepCloser(m, pc, e.request);
    StepReleaser(m, pc, e.request);
    hide Step, SharedInv, Local;
    MembersUpdate(s, e.thread, r.1, counts);
    MembersUpdate(s, e.thread, r.1, owns);
    MembersUpdate(s, e.thread, r.1, holdsCommit);
    MembersUpdate(s, e.thread, r.1, closes);
    MembersUpdate(s, e.thread, r.1, releases);
  }

  lemma ProtectedAreCounted(s: State)
    requires |Members(s.threads, counts)| == 0
    ensures |Members(s.threads, protected)| == 0
  {
    assert Members(s.threads, protected) <= Members(s.threads, counts);
  }

  lemma UnprotectedKept(s: State, e: Event)
    requires Inv(s)
    ensures Unprotected(Next(s, e))
  {
    var m, pc := s.shared, s.At(e.thread);
    var r := Step(m, pc, e.request);
    StepProtects(m, pc, e.request);
    StepPastCheck(m, pc, e.request);
    MemberCounts(s, e.thread, pastCheck);
    PastCheckIsNotOpen(s);
    hide Step, Local, SharedInv, CountsAgree;
    MembersUpdate(s, e.thread, r.1, protected);
    MembersUpdate(s, e.thread, r.1, pastCheck);
    if m.admitted == 0 {
      ProtectedAreCounted(s);
    }
  }

  lemma PastCheckIsNotOpen(s: State)
    requires Inv(s)
    ensures |Members(s.threads, pastCheck)| > 0 ==> s.shared.lifecycle != Open
  {
    MemberCounts(s, 0, pastCheck);
    if u: nat :| pastCheck(s.At(u)) {
      StepPastCheck(s.shared, s.At(u), Use);
    }
  }

  /** Every step of every thread keeps the invariant. */
  lemma StepKeepsInv(s: State, e: Event)
    requires Inv(s)
    ensures Inv(Next(s, e))
  {
    StepKeepsShared(s.shared, s.At(e.thread), e.request);
    StepKeepsOwn(s.shared, s.At(e.thread), e.request);
    CountsKept(s, e);
    UnprotectedKept(s, e);
    forall u: nat ensures Local(Next(s, e).shared, Next(s, e).At(u)) {
      if u != e.thread {
        OthersKeepLocal(s, e, u);
      }
    }
  }

  lemma PublishedInv()
    ensures Inv(PUBLISHED)
  {
    assert RELEASE_ORDER[..0] == [] && RELEASE_ORDER[0..] == RELEASE_ORDER;
    assert Members(PUBLISHED.threads, counts) == {} && Members(PUBLISHED.threads, owns) == {}
        && Members(PUBLISHED.threads, holdsCommit) == {} && Members(PUBLISHED.threads, closes) == {}
        && Members(PUBLISHED.threads, releases) == {} && Members(PUBLISHED.threads, protected) == {};
  }

  /** The invariant holds after every interleaving. */
  lemma {:induction false} ReachableInv(events: seq<Event>)
    ensures Inv(Execute(events))
    decreases |events|
  {
    if events == [] {
      PublishedInv();
    } else {
      ReachableInv(events[..|events| - 1]);
      StepKeepsInv(Execute(events[..|events| - 1]), events[|events| - 1]);
    }
  }
}
