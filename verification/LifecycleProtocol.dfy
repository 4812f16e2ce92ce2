/** The lock-free document lifecycle: any number of threads, one atomic access a step. */
module LifecycleProtocol {

  datatype Lifecycle = Open | Closing | Closed

  datatype Kind = Selecting | Streaming

  datatype Projection = Fresh | Transient(kind: Kind) | Consumed

  datatype Resource = DocumentHandle | ParserHandle | InputBuffer

  const RELEASE_ORDER: seq<Resource> := [DocumentHandle, ParserHandle, InputBuffer]

  /** The shared atomics and owned fields of one document. `released` and `commits` are history. */
  datatype Shared = Shared(
    lifecycle: Lifecycle,
    generation: nat,
    admitted: int,
    projection: Projection,
    cleanupStarted: bool,
    owned: set<Resource>,
    released: seq<Resource>,
    commits: nat)

  /** Where a thread stands: the atomic access it performs next, or the claim it holds at rest. */
  datatype Pc =
    | Idle
    // Admission of an ordinary operation
    | AdmitAdd
    | AdmitGeneration
    | AdmitRecheck(generation: nat)
    | AdmitUndo
    | Admitted(generation: nat)
    // Reservation of the one-shot cursor, for selection or for streaming
    | ReserveLifecycle(kind: Kind)
    | ReserveAdd(kind: Kind)
    | ReserveGeneration(kind: Kind)
    | ReserveRecheck(kind: Kind, generation: nat)
    | ReserveExchange(kind: Kind, generation: nat)
    | ReserveConfirm(kind: Kind, generation: nat)
    | ReserveConfirmGeneration(kind: Kind, generation: nat)
    | ReserveRevert(kind: Kind)
    | ReserveUndo
    | Reserved(kind: Kind, generation: nat)
    | RollbackUndo
    | CommitLifecycle(kind: Kind, generation: nat)
    | CommitExchange(kind: Kind, generation: nat)
    | Committed(kind: Kind, generation: nat)
    // A committed operation asks for the document handle
    | UseProjection(kind: Kind, generation: nat)
    | UseLifecycle(kind: Kind, generation: nat)
    | UseHandle(kind: Kind, generation: nat)
    // Closing
    | CloseGeneration
    // Deferred cleanup
    | CleanLifecycle
    | CleanAdmitted
    | CleanClaim
    | CleanLost
    | ReleaseDocument
    | ReleaseParser
    | ReleaseInput
    | StoreClosed
    // The guard of a second construction
    | OpenOwned
    | OpenGeneration
    | OpenAdmitted
    | Constructing
  {
    // The thread's increment of the admission count is outstanding.
    predicate Counts() {
      || AdmitGeneration? || AdmitRecheck? || AdmitUndo? || Admitted?
      || ReserveGeneration? || ReserveRecheck? || ReserveExchange? || ReserveUndo? || RollbackUndo?
      || Owns() || HoldsCommit()
    }

    // The thread has the cursor's transient state to itself.
    predicate Owns() {
      || ReserveConfirm? || ReserveConfirmGeneration? || ReserveRevert? || Reserved?
      || CommitLifecycle? || CommitExchange?
    }

    predicate HoldsCommit() {
      Committed? || UseProjection? || UseLifecycle? || UseHandle?
    }

    // The thread saw the document open after it was counted, and has not given that up.
    predicate Protected() {
      Admitted? || ReserveExchange? || Owns() || HoldsCommit()
    }

    // The thread saw no admission after closing began.
    predicate PastCheck() {
      CleanClaim? || Releases()
    }

    predicate Releases() {
      ReleaseDocument? || ReleaseParser? || ReleaseInput? || StoreClosed?
    }

    predicate Closes() {
      CloseGeneration?
    }
  }

  /** What a thread at rest may ask for. A request that its claim does not allow changes nothing. */
  datatype Request = Admit | Reserve(kind: Kind) | Release | Rollback | Commit | Use | Close | Cleanup | Reopen

  function Step(m: Shared, pc: Pc, request: Request): (Shared, Pc) {
    match pc
    case Idle => Begin(m, request)
    case AdmitAdd => (m.(admitted := m.admitted + 1), AdmitGeneration)
    case AdmitGeneration => (m, AdmitRecheck(m.generation))
    case AdmitRecheck(g) => (m, if m.lifecycle == Open && g != 0 then Admitted(g) else AdmitUndo)
    case AdmitUndo => (m.(admitted := m.admitted - 1), Idle)
    case Admitted(_) => if request == Release then (m.(admitted := m.admitted - 1), Idle) else (m, pc)
    case ReserveLifecycle(kind) => (m, if m.lifecycle == Open then ReserveAdd(kind) else Idle)
    case ReserveAdd(kind) => (m.(admitted := m.admitted + 1), ReserveGeneration(kind))
    case ReserveGeneration(kind) => (m, ReserveRecheck(kind, m.generation))
    case ReserveRecheck(kind, g) =>
      (m, if m.lifecycle == Open && g != 0 then ReserveExchange(kind, g) else ReserveUndo)
    case ReserveExchange(kind, g) =>
      if m.projection == Fresh then (m.(projection := Transient(kind)), ReserveConfirm(kind, g)) else (m, ReserveUndo)
    case ReserveConfirm(kind, g) =>
      (m, if m.lifecycle == Open then ReserveConfirmGeneration(kind, g) else ReserveRevert(kind))
    case ReserveConfirmGeneration(kind, g) => (m, if g == m.generation then Reserved(kind, g) else ReserveRevert(kind))
    case ReserveRevert(kind) =>
      (if m.projection == Transient(kind) then m.(projection := Fresh) else m, ReserveUndo)
    case ReserveUndo => (m.(admitted := m.admitted - 1), Idle)
    case Reserved(kind, g) => FromReserved(m, kind, g, request)
    case RollbackUndo => (m.(admitted := m.admitted - 1), Idle)
    case CommitLifecycle(kind, g) => (m, if m.lifecycle == Open then CommitExchange(kind, g) else Reserved(kind, g))
    case CommitExchange(kind, g) =>
      if m.projection == Transient(kind)
      then (m.(projection := Consumed, commits := m.commits + 1), Committed(kind, g))
      else (m, Reserved(kind, g))
    case Committed(kind, g) =>
      if request == Release then (m.(admitted := m.admitted - 1), Idle)
      else if request == Use && g == m.generation then (m, UseProjection(kind, g))
      else (m, pc)
    case UseProjection(kind, g) => (m, if m.projection == Consumed then UseLifecycle(kind, g) else Committed(kind, g))
    case UseLifecycle(kind, g) => (m, if m.lifecycle == Open then UseHandle(kind, g) else Committed(kind, g))
    case UseHandle(kind, g) => (m, Committed(kind, g))
    case CloseGeneration => (m.(generation := m.generation + 1), Idle)
    case CleanLifecycle => (m, if m.lifecycle == Closing then CleanAdmitted else Idle)
    case CleanAdmitted => (m, if m.admitted == 0 then CleanClaim else Idle)
    case CleanClaim => if m.cleanupStarted then (m, CleanLost) else (m.(cleanupStarted := true), ReleaseDocument)
    case CleanLost => (m, Idle)
    case ReleaseDocument => (Destroy(m, DocumentHandle), ReleaseParser)
    case ReleaseParser => (Destroy(m, ParserHandle), ReleaseInput)
    case ReleaseInput => (Destroy(m, InputBuffer), StoreClosed)
    case StoreClosed => (m.(lifecycle := Closed), Idle)
    case OpenOwned => (m, if m.owned == {} then OpenGeneration else Idle)
    case OpenGeneration => (m, if m.generation == 0 then OpenAdmitted else Idle)
    case OpenAdmitted => (m, if m.admitted == 0 then Constructing else Idle)
    case Constructing => (m, pc)
  }

  // The first access of each operation.
  function Begin(m: Shared, request: Request): (Shared, Pc) {
    match request
    case Admit => (m, if m.lifecycle == Open then AdmitAdd else Idle)
    case Reserve(kind) => (m, if m.projection == Fresh then ReserveLifecycle(kind) else Idle)
    case Close => if m.lifecycle == Open then (m.(lifecycle := Closing), CloseGeneration) else (m, Idle)
    case Cleanup => (m, if m.lifecycle == Closed then Idle else CleanLifecycle)
    case Reopen => (m, if m.lifecycle == Closed then OpenOwned else Idle)
    case _ => (m, Idle)
  }

  // A reservation's holder may roll it back or commit it. A failed commit leaves the reservation held.
  function FromReserved(m: Shared, kind: Kind, g: nat, request: Request): (Shared, Pc) {
    if request == Rollback && g != 0 && m.projection == Transient(kind) then
      (m.(projection := Fresh), RollbackUndo)
    else if request == Commit && g != 0 && g == m.generation then (m, CommitLifecycle(kind, g))
    else (m, Reserved(kind, g))
  }

  // Destroys a field if it is still owned.
  function Destroy(m: Shared, r: Resource): Shared {
    if r in m.owned then m.(owned := m.owned - {r}, released := m.released + [r]) else m
  }

  // ---- Many threads

  /** A published document and the threads that ever touched it. */
  datatype State = State(shared: Shared, threads: map<nat, Pc>)
  {
    function At(t: nat): Pc {
      if t in threads then threads[t] else Idle
    }
  }

  const PUBLISHED := State(
    Shared(Open, 1, 0, Fresh, false, {DocumentHandle, ParserHandle, InputBuffer}, [], 0), map[])

  datatype Event = Event(thread: nat, request: Request)

  function Next(s: State, e: Event): State {
    var r := Step(s.shared, s.At(e.thread), e.request);
    State(r.0, s.threads[e.thread := r.1])
  }

  /** The state after an interleaving of steps. */
  function Execute(events: seq<Event>): State {
    if events == [] then PUBLISHED
    else Next(Execute(events[..|events| - 1]), events[|events| - 1])
  }
}
