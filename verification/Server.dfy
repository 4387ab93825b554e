/** The queues of the render server (server.c) as a state machine: one listener, any number of
    readers and one renderer, each a sequence of atomic steps, with the two queues, their
    mutexes, and the condition variables the readers and the renderer wait on. A session is
    known by the number of its connection. */
module Server {
  import opened Wrappers

  datatype Thread = Listener | Reader(i: nat) | Renderer

  /** Where serv_listenthr_main is. */
  datatype Listening =
    | Accepting
    | LockingRead(s: nat)
    | Inserting(s: nat)       // from here to Leaving it holds readq_lock
    | Signalling
    | Leaving

  /** Where a serv_readthr_main is. */
  datatype Reading =
    | Locking                 // awake, and about to look at the queue
    | Checking                // holds readq_lock
    | Blocked                 // in pthread_cond_wait, without the lock
    | Found(s: nat)           // holds readq_lock
    | Serving(s: nat)
    | LockingRender(s: nat)
    | Passing(s: nat)         // from here to LeavingRender it holds renderq_lock
    | SignallingRender
    | LeavingRender

  /** Where serv_displayh is. */
  datatype Rendering =
    | LockingQueue
    | Looking                 // holds renderq_lock
    | Got(s: nat)             // holds renderq_lock
    | Missed                  // holds renderq_lock
    | Drawing(s: nat)
    | LockingAgain
    | LookingAgain            // holds renderq_lock
    | Sleeping                // in pthread_cond_timedwait, without the lock
    | Waking
    | LeavingQueue            // holds renderq_lock

  /** The last six components are history: how many connections have been accepted, the sessions
      the readers have taken off readq, those they have dropped and those they have read in full,
      the sessions that have entered renderq, and those the renderer has taken off it, each in
      order. closed are the sessions whose descriptors have been closed. */
  datatype State = State(
    readLock: Option<Thread>, renderLock: Option<Thread>,
    readq: seq<nat>, renderq: seq<nat>,
    listener: Listening, readers: seq<Reading>, renderer: Rendering,
    closed: seq<nat>, accepted: nat, begun: seq<nat>,
    dropped: seq<nat>, done: seq<nat>, entered: seq<nat>, taken: seq<nat>)

  ghost predicate Init(s: State) {
    && s.readLock == None && s.renderLock == None && s.readq == [] && s.renderq == []
    && s.listener == Accepting && s.renderer == LockingQueue
    && (forall i | 0 <= i < |s.readers| :: s.readers[i] == Locking)
    && s.closed == [] && s.accepted == 0 && s.begun == [] && s.dropped == [] && s.done == []
    && s.entered == [] && s.taken == []
  }

  datatype Step =
    // the listener
    | Accept | ListenerLock | ListenerInsert | ListenerSignal(woken: set<nat>) | ListenerUnlock
    // reader i
    | ReaderLock(i: nat) | ReaderFind(i: nat) | ReaderBlock(i: nat) | ReaderWake(i: nat) | ReaderUnlock(i: nat)
    | ReaderDone(i: nat) | ReaderDrop(i: nat)
    | ReaderLockRender(i: nat) | ReaderInsert(i: nat) | ReaderSignal(i: nat) | ReaderUnlockRender(i: nat)
    // the renderer
    | RenderLock | RenderTake | RenderMiss | RenderUnlock | RenderClose
    | RenderLockAgain | RenderSkipSleep | RenderSleep | RenderWake | RenderRelock | RenderLeave

  /** pthread_cond_signal wakes some of the waiting readers, at least one if there is any. */
  ghost predicate MayWake(readers: seq<Reading>, woken: set<nat>) {
    && (forall i | i in woken :: i < |readers| && readers[i] == Blocked)
    && (Blocked in readers ==> woken != {})
  }

  ghost predicate Enabled(s: State, step: Step) {
    match step
    case Accept => s.listener == Accepting
    case ListenerLock => s.listener.LockingRead? && s.readLock == None
    case ListenerInsert => s.listener.Inserting?
    case ListenerSignal(woken) => s.listener == Signalling && MayWake(s.readers, woken)
    case ListenerUnlock => s.listener == Leaving
    case ReaderLock(i) => i < |s.readers| && s.readers[i] == Locking && s.readLock == None
    case ReaderFind(i) => i < |s.readers| && s.readers[i] == Checking && s.readq != []
    case ReaderBlock(i) => i < |s.readers| && s.readers[i] == Checking && s.readq == []
    case ReaderWake(i) => i < |s.readers| && s.readers[i] == Blocked
    case ReaderUnlock(i) => i < |s.readers| && s.readers[i].Found?
    case ReaderDone(i) => i < |s.readers| && s.readers[i].Serving?
    case ReaderDrop(i) => i < |s.readers| && s.readers[i].Serving?
    case ReaderLockRender(i) => i < |s.readers| && s.readers[i].LockingRender? && s.renderLock == None
    case ReaderInsert(i) => i < |s.readers| && s.readers[i].Passing?
    case ReaderSignal(i) => i < |s.readers| && s.readers[i] == SignallingRender
    case ReaderUnlockRender(i) => i < |s.readers| && s.readers[i] == LeavingRender
    case RenderLock => s.renderer == LockingQueue && s.renderLock == None
    case RenderTake => s.renderer == Looking && s.renderq != []
    case RenderMiss => s.renderer == Looking && s.renderq == []
    case RenderUnlock => s.renderer.Got? || s.renderer == Missed
    case RenderClose => s.renderer.Drawing?
    case RenderLockAgain => s.renderer == LockingAgain && s.renderLock == None
    case RenderSkipSleep => s.renderer == LookingAgain && s.renderq != []
    case RenderSleep => s.renderer == LookingAgain && s.renderq == []
    case RenderWake => s.renderer == Sleeping
    case RenderRelock => s.renderer == Waking && s.renderLock == None
    case RenderLeave => s.renderer == LeavingQueue
  }

  function Wake(readers: seq<Reading>, woken: set<nat>): (r: seq<Reading>)
    ensures |r| == |readers|
  {
    seq(|readers|, j requires 0 <= j < |readers| => if j in woken then Locking else readers[j])
  }

  ghost function Do(s: State, step: Step): State
    requires Enabled(s, step)
  {
    match step
    case Accept => s.(listener := LockingRead(s.accepted), accepted := s.accepted + 1)
    case ListenerLock => s.(listener := Inserting(s.listener.s), readLock := Some(Listener))
    case ListenerInsert => s.(listener := Signalling, readq := s.readq + [s.listener.s])
    case ListenerSignal(woken) => s.(listener := Leaving, readers := Wake(s.readers, woken))
    case ListenerUnlock => s.(listener := Accepting, readLock := None)
    case ReaderLock(i) => s.(readers := s.readers[i := Checking], readLock := Some(Reader(i)))
    case ReaderFind(i) =>
      s.(readers := s.readers[i := Found(s.readq[0])], readq := s.readq[1..], begun := s.begun + [s.readq[0]])
    case ReaderBlock(i) => s.(readers := s.readers[i := Blocked], readLock := None)
    case ReaderWake(i) => s.(readers := s.readers[i := Locking])
    case ReaderUnlock(i) => s.(readers := s.readers[i := Serving(s.readers[i].s)], readLock := None)
    case ReaderDone(i) =>
      s.(readers := s.readers[i := LockingRender(s.readers[i].s)], done := s.done + [s.readers[i].s])
    case ReaderDrop(i) =>
      s.(readers := s.readers[i := Locking], closed := s.closed + [s.readers[i].s],
         dropped := s.dropped + [s.readers[i].s])
    case ReaderLockRender(i) => s.(readers := s.readers[i := Passing(s.readers[i].s)], renderLock := Some(Reader(i)))
    case ReaderInsert(i) =>
      s.(readers := s.readers[i := SignallingRender], renderq := s.renderq + [s.readers[i].s],
         entered := s.entered + [s.readers[i].s])
    case ReaderSignal(i) => s.(readers := s.readers[i := LeavingRender])
    case ReaderUnlockRender(i) => s.(readers := s.readers[i := Locking], renderLock := None)
    case RenderLock => s.(renderer := Looking, renderLock := Some(Renderer))
    case RenderTake =>
      s.(renderer := Got(s.renderq[0]), renderq := s.renderq[1..], taken := s.taken + [s.renderq[0]])
    case RenderMiss => s.(renderer := Missed)
    case RenderUnlock =>
      s.(renderer := if s.renderer.Got? then Drawing(s.renderer.s) else LockingAgain, renderLock := None)
    case RenderClose => s.(renderer := LockingQueue, closed := s.closed + [s.renderer.s])
    case RenderLockAgain => s.(renderer := LookingAgain, renderLock := Some(Renderer))
    case RenderSkipSleep => s.(renderer := LeavingQueue)
    case RenderSleep => s.(renderer := Sleeping, renderLock := None)
    case RenderWake => s.(renderer := Waking)
    case RenderRelock => s.(renderer := LeavingQueue, renderLock := Some(Renderer))
    case RenderLeave => s.(renderer := LockingQueue, renderLock := None)
  }

  // ---- mutual exclusion ----

  ghost predicate HoldsRead(r: Reading) {
    r == Checking || r.Found?
  }

  ghost predicate HoldsRender(r: Reading) {
    r.Passing? || r == SignallingRender || r == LeavingRender
  }

  ghost predicate RendererHolds(d: Rendering) {
    d == Looking || d.Got? || d == Missed || d == LookingAgain || d == LeavingQueue
  }

  /** A lock is owned exactly by the thread that is in its critical section. */
  ghost predicate Exclusion(s: State) {
    && (s.readLock == Some(Listener) <==> s.listener.Inserting? || s.listener == Signalling || s.listener == Leaving)
    && (forall i: nat :: s.readLock == Some(Reader(i)) <==> i < |s.readers| && HoldsRead(s.readers[i]))
    && s.readLock != Some(Renderer) && s.renderLock != Some(Listener)
    && (forall i: nat :: s.renderLock == Some(Reader(i)) <==> i < |s.readers| && HoldsRender(s.readers[i]))
    && (s.renderLock == Some(Renderer) <==> RendererHolds(s.renderer))
  }

  predicate ByListener(step: Step) {
    step.Accept? || step.ListenerLock? || step.ListenerInsert? || step.ListenerSignal? || step.ListenerUnlock?
  }

  predicate ByRenderer(step: Step) {
    || step.RenderLock? || step.RenderTake? || step.RenderMiss? || step.RenderUnlock? || step.RenderClose?
    || step.RenderLockAgain? || step.RenderSkipSleep? || step.RenderSleep? || step.RenderWake?
    || step.RenderRelock? || step.RenderLeave?
  }

  lemma ExclusionByListener(s: State, step: Step)
    requires Exclusion(s) && Enabled(s, step) && ByListener(step)
    ensures Exclusion(Do(s, step))
  {
  }

  lemma ExclusionByRenderer(s: State, step: Step)
    requires Exclusion(s) && Enabled(s, step) && ByRenderer(step)
    ensures Exclusion(Do(s, step))
  {
  }

  lemma ExclusionByReader(s: State, step: Step)
    requires Exclusion(s) && Enabled(s, step) && !ByListener(step) && !ByRenderer(step)
    ensures Exclusion(Do(s, step))
  {
  }

  // ---- order ----

  function Upto(n: nat): (s: seq<nat>)
    ensures |s| == n && forall k | 0 <= k < n :: s[k] == k
  {
    seq(n, k => k)
  }

  function InListener(l: Listening): seq<nat> {
    if l.LockingRead? || l.Inserting? then [l.s] else []
  }

  ghost predicate ReadInOrder(s: State) {
    s.begun + (s.readq + InListener(s.listener)) == Upto(s.accepted)
  }

  ghost predicate RenderInOrder(s: State) {
    s.entered == s.taken + s.renderq
  }

  ghost predicate DrawsLastTaken(s: State) {
    s.renderer.Got? || s.renderer.Drawing? ==> s.taken != [] && s.taken[|s.taken| - 1] == s.renderer.s
  }

  /** Both queues are first in, first out: sessions are begun in the order in which they were
      accepted, and taken to be rendered in the order in which they entered renderq; what is
      rendered is the one taken last. */
  ghost predicate InOrder(s: State) {
    ReadInOrder(s) && RenderInOrder(s) && DrawsLastTaken(s)
  }

  lemma FirstMoves(a: seq<nat>, q: seq<nat>, c: seq<nat>)
    requires q != []
    ensures a + [q[0]] + (q[1..] + c) == a + (q + c)
    ensures a + [q[0]] + q[1..] == a + q
  {
    assert q == [q[0]] + q[1..];
  }

  lemma LastMoves(a: seq<nat>, q: seq<nat>, x: nat)
    ensures a + (q + [x] + []) == a + (q + [x]) == a + q + [x]
    ensures a + (q + []) == a + q
  {
  }

  lemma ReadInOrderByListener(s: State, step: Step)
    requires ReadInOrder(s) && Enabled(s, step) && ByListener(step)
    ensures ReadInOrder(Do(s, step))
  {
    match step {
      case Accept =>
        LastMoves(s.begun, s.readq, s.accepted);
        assert Upto(s.accepted + 1) == Upto(s.accepted) + [s.accepted];
      case ListenerInsert => LastMoves(s.begun, s.readq, s.listener.s);
      case _ =>
    }
  }

  lemma ReadInOrderByOthers(s: State, step: Step)
    requires ReadInOrder(s) && Enabled(s, step) && !ByListener(step)
    ensures ReadInOrder(Do(s, step))
  {
    if step.ReaderFind? {
      FirstMoves(s.begun, s.readq, InListener(s.listener));
    }
  }

  lemma RenderInOrderByRenderer(s: State, step: Step)
    requires RenderInOrder(s) && Enabled(s, step) && ByRenderer(step)
    ensures RenderInOrder(Do(s, step))
  {
    if step.RenderTake? {
      FirstMoves(s.taken, s.renderq, []);
    }
  }

  lemma RenderInOrderByOthers(s: State, step: Step)
    requires RenderInOrder(s) && Enabled(s, step) && !ByRenderer(step)
    ensures RenderInOrder(Do(s, step))
  {
    if step.ReaderInsert? {
      LastMoves(s.taken, s.renderq, s.readers[step.i].s);
    }
  }

  lemma DrawsLastTakenKept(s: State, step: Step)
    requires DrawsLastTaken(s) && Enabled(s, step)
    ensures DrawsLastTaken(Do(s, step))
  {
  }

  lemma InOrderKept(s: State, step: Step)
    requires InOrder(s) && Enabled(s, step)
    ensures InOrder(Do(s, step))
  {
    if ByListener(step) {
      ReadInOrderByListener(s, step);
    } else {
      ReadInOrderByOthers(s, step);
    }
    if ByRenderer(step) {
      RenderInOrderByRenderer(s, step);
    } else {
      RenderInOrderByOthers(s, step);
    }
    DrawsLastTakenKept(s, step);
  }

  // ---- conservation ----

  function Is(x: nat, id: nat): nat {
    if x == id then 1 else 0
  }

  /** How often session id is on a queue. */
  function On(q: seq<nat>, id: nat): nat {
    multiset(q)[id]
  }

  /** Whether the reader has session id, and has yet to read it, or, if `read`, has read it in full. */
  function InHand(r: Reading, read: bool, id: nat): nat {
    if (if read then r.LockingRender? || r.Passing? else r.Found? || r.Serving?) then Is(r.s, id) else 0
  }

  function InHands(readers: seq<Reading>, read: bool, id: nat): nat {
    if readers == [] then 0
    else InHands(readers[..|readers| - 1], read, id) + InHand(readers[|readers| - 1], read, id)
  }

  function WithListener(l: Listening, id: nat): nat {
    if l.LockingRead? || l.Inserting? then Is(l.s, id) else 0
  }

  function WithRenderer(d: Rendering, id: nat): nat {
    if d.Got? || d.Drawing? then Is(d.s, id) else 0
  }

  /** In how many places session id is: with the listener, on readq, with a reader, on renderq,
      with the renderer, or among the closed. */
  function Places(s: State, id: nat): nat {
    WithListener(s.listener, id) + On(s.readq, id) + InHands(s.readers, false, id)
    + InHands(s.readers, true, id) + On(s.renderq, id) + WithRenderer(s.renderer, id) + On(s.closed, id)
  }

  ghost predicate InOnePlace(s: State, id: nat) {
    Places(s, id) == if id < s.accepted then 1 else 0
  }

  /** Every accepted session is in exactly one place, and no other session is anywhere. */
  ghost predicate Conserved(s: State) {
    forall id: nat :: InOnePlace(s, id)
  }

  lemma OnAppended(q: seq<nat>, x: nat, id: nat)
    ensures On(q + [x], id) == On(q, id) + Is(x, id)
  {
  }

  lemma OnRest(q: seq<nat>, id: nat)
    requires q != []
    ensures On(q, id) == Is(q[0], id) + On(q[1..], id)
  {
    assert q == [q[0]] + q[1..];
  }

  lemma {:induction false} InHandsUpdate(readers: seq<Reading>, i: nat, r: Reading, read: bool, id: nat)
    requires i < |readers|
    ensures InHands(readers[i := r], read, id) + InHand(readers[i], read, id)
         == InHands(readers, read, id) + InHand(r, read, id)
    decreases |readers|
  {
    var n := |readers| - 1;
    if i == n {
      assert readers[i := r][..n] == readers[..n];
    } else {
      assert readers[i := r][..n] == readers[..n][i := r];
      InHandsUpdate(readers[..n], i, r, read, id);
    }
  }

  lemma {:induction false} InHandsWake(readers: seq<Reading>, woken: set<nat>, read: bool, id: nat)
    requires forall i | i in woken :: i < |readers| ==> readers[i] == Blocked
    ensures InHands(Wake(readers, woken), read, id) == InHands(readers, read, id)
    decreases |readers|
  {
    if readers != [] {
      var n := |readers| - 1;
      assert Wake(readers, woken)[..n] == Wake(readers[..n], woken);
      InHandsWake(readers[..n], woken, read, id);
    }
  }

  lemma PlacesByListener(s: State, step: Step, id: nat)
    requires Enabled(s, step) && ByListener(step)
    ensures Places(Do(s, step), id) == Places(s, id) + if step.Accept? then Is(s.accepted, id) else 0
  {
    match step {
      case ListenerInsert => OnAppended(s.readq, s.listener.s, id);
      case ListenerSignal(woken) =>
        InHandsWake(s.readers, woken, false, id);
        InHandsWake(s.readers, woken, true, id);
      case _ =>
    }
  }

  lemma PlacesByRenderer(s: State, step: Step, id: nat)
    requires Enabled(s, step) && ByRenderer(step)
    ensures Places(Do(s, step), id) == Places(s, id)
  {
    match step {
      case RenderTake => OnRest(s.renderq, id);
      case RenderClose => OnAppended(s.closed, s.renderer.s, id);
      case _ =>
    }
  }

  lemma PlacesByReader(s: State, step: Step, id: nat)
    requires Enabled(s, step) && !ByListener(step) && !ByRenderer(step)
    ensures Places(Do(s, step), id) == Places(s, id)
  {
    InHandsUpdate(s.readers, step.i, Do(s, step).readers[step.i], false, id);
    InHandsUpdate(s.readers, step.i, Do(s, step).readers[step.i], true, id);
    match step {
      case ReaderFind(_) => OnRest(s.readq, id);
      case ReaderDrop(i) => OnAppended(s.closed, s.readers[i].s, id);
      case ReaderInsert(i) => OnAppended(s.renderq, s.readers[i].s, id);
      case _ =>
    }
  }

  lemma ConservedKept(s: State, step: Step)
    requires Conserved(s) && Enabled(s, step)
    ensures Conserved(Do(s, step))
  {
    var t := Do(s, step);
    forall id: nat
      ensures InOnePlace(t, id)
    {
      assert InOnePlace(s, id);
      if ByListener(step) {
        PlacesByListener(s, step, id);
      } else if ByRenderer(step) {
        PlacesByRenderer(s, step, id);
      } else {
        PlacesByReader(s, step, id);
      }
    }
  }

  // ---- what becomes of a session ----

  /** A session that has been taken off readq is being read, has been dropped, or has been read in
      full. */
  ghost predicate BegunFate(s: State, id: nat) {
    On(s.begun, id) == InHands(s.readers, false, id) + On(s.dropped, id) + On(s.done, id)
  }

  /** What has been read in full is on its way to renderq or has entered it. */
  ghost predicate DoneFate(s: State, id: nat) {
    On(s.done, id) == InHands(s.readers, true, id) + On(s.entered, id)
  }

  /** What has been closed, or is being drawn, has been dropped or taken off renderq. */
  ghost predicate ClosedFate(s: State, id: nat) {
    On(s.closed, id) + WithRenderer(s.renderer, id) == On(s.dropped, id) + On(s.taken, id)
  }

  ghost predicate FateOf(s: State, id: nat) {
    BegunFate(s, id) && DoneFate(s, id) && ClosedFate(s, id)
  }

  ghost predicate Fates(s: State) {
    forall id: nat :: FateOf(s, id)
  }

  lemma BegunFateByReader(s: State, step: Step, id: nat)
    requires BegunFate(s, id) && Enabled(s, step) && !ByListener(step) && !ByRenderer(step)
    ensures BegunFate(Do(s, step), id)
  {
    InHandsUpdate(s.readers, step.i, Do(s, step).readers[step.i], false, id);
    match step {
      case ReaderFind(_) => OnAppended(s.begun, s.readq[0], id);
      case ReaderDone(i) => OnAppended(s.done, s.readers[i].s, id);
      case ReaderDrop(i) => OnAppended(s.dropped, s.readers[i].s, id);
      case _ =>
    }
  }

  lemma DoneFateByReader(s: State, step: Step, id: nat)
    requires DoneFate(s, id) && Enabled(s, step) && !ByListener(step) && !ByRenderer(step)
    ensures DoneFate(Do(s, step), id)
  {
    InHandsUpdate(s.readers, step.i, Do(s, step).readers[step.i], true, id);
    match step {
      case ReaderDone(i) => OnAppended(s.done, s.readers[i].s, id);
      case ReaderInsert(i) => OnAppended(s.entered, s.readers[i].s, id);
      case _ =>
    }
  }

  lemma ReadFatesByListener(s: State, step: Step, id: nat)
    requires BegunFate(s, id) && DoneFate(s, id) && Enabled(s, step) && ByListener(step)
    ensures BegunFate(Do(s, step), id) && DoneFate(Do(s, step), id)
  {
    if step.ListenerSignal? {
      InHandsWake(s.readers, step.woken, false, id);
      InHandsWake(s.readers, step.woken, true, id);
    }
  }

  lemma ReadFatesByRenderer(s: State, step: Step, id: nat)
    requires BegunFate(s, id) && DoneFate(s, id) && Enabled(s, step) && ByRenderer(step)
    ensures BegunFate(Do(s, step), id) && DoneFate(Do(s, step), id)
  {
  }

  lemma ClosedFateByRenderer(s: State, step: Step, id: nat)
    requires ClosedFate(s, id) && Enabled(s, step) && ByRenderer(step)
    ensures ClosedFate(Do(s, step), id)
  {
    match step {
      case RenderTake => OnAppended(s.taken, s.renderq[0], id);
      case RenderClose => OnAppended(s.closed, s.renderer.s, id);
      case _ =>
    }
  }

  lemma ClosedFateByOthers(s: State, step: Step, id: nat)
    requires ClosedFate(s, id) && Enabled(s, step) && !ByRenderer(step)
    ensures ClosedFate(Do(s, step), id)
  {
    if step.ReaderDrop? {
      OnAppended(s.closed, s.readers[step.i].s, id);
      OnAppended(s.dropped, s.readers[step.i].s, id);
    }
  }

  lemma FatesKept(s: State, step: Step)
    requires Fates(s) && Enabled(s, step)
    ensures Fates(Do(s, step))
  {
    var t := Do(s, step);
    forall id: nat
      ensures FateOf(t, id)
    {
      assert FateOf(s, id);
      if ByListener(step) {
        ReadFatesByListener(s, step, id);
      } else if ByRenderer(step) {
        ReadFatesByRenderer(s, step, id);
      } else {
        BegunFateByReader(s, step, id);
        DoneFateByReader(s, step, id);
      }
      if ByRenderer(step) {
        ClosedFateByRenderer(s, step, id);
      } else {
        ClosedFateByOthers(s, step, id);
      }
    }
  }

  // ---- no lost work ----

  /** Readers that are awake and about to look at the queue. */
  function Awake(readers: seq<Reading>): nat {
    if readers == [] then 0
    else Awake(readers[..|readers| - 1]) + AboutToLook(readers[|readers| - 1])
  }

  function AboutToLook(r: Reading): nat {
    if r == Locking || r == Checking then 1 else 0
  }

  /** While some reader is blocked, there are no more sessions on readq than readers about to
      look there, not counting the session for which the listener is about to signal. */
  ghost predicate NoLostWork(s: State) {
    Blocked in s.readers ==> |s.readq| <= Awake(s.readers) + if s.listener == Signalling then 1 else 0
  }

  lemma {:induction false} AwakeUpdate(readers: seq<Reading>, i: nat, r: Reading)
    requires i < |readers|
    ensures Awake(readers[i := r]) + AboutToLook(readers[i]) == Awake(readers) + AboutToLook(r)
    decreases |readers|
  {
    var n := |readers| - 1;
    if i == n {
      assert readers[i := r][..n] == readers[..n];
    } else {
      assert readers[i := r][..n] == readers[..n][i := r];
      AwakeUpdate(readers[..n], i, r);
    }
  }

  lemma {:induction false} AwakeWake(readers: seq<Reading>, woken: set<nat>)
    requires forall i | i in woken :: i < |readers| ==> readers[i] == Blocked
    ensures Awake(Wake(readers, woken)) >= Awake(readers)
    ensures (exists i :: i in woken && i < |readers|) ==> Awake(Wake(readers, woken)) > Awake(readers)
    decreases |readers|
  {
    if readers != [] {
      var n := |readers| - 1;
      assert Wake(readers, woken)[..n] == Wake(readers[..n], woken);
      AwakeWake(readers[..n], woken);
    }
  }

  lemma NoLostWorkSignal(s: State, step: Step)
    requires NoLostWork(s) && Enabled(s, step) && step.ListenerSignal?
    ensures NoLostWork(Do(s, step))
  {
    var t := Do(s, step);
    AwakeWake(s.readers, step.woken);
    if Blocked in t.readers {
      var j :| 0 <= j < |t.readers| && t.readers[j] == Blocked;
      assert s.readers[j] == Blocked;
      var i :| i in step.woken;
      assert i < |s.readers|;
    }
  }

  lemma StillBlocked(readers: seq<Reading>, i: nat, r: Reading)
    requires i < |readers| && r != Blocked && Blocked in readers[i := r]
    ensures Blocked in readers
  {
    var j :| 0 <= j < |readers| && readers[i := r][j] == Blocked;
    assert readers[j] == Blocked;
  }

  /** A reader that leaves the queue has either found a session there, or found none at all. */
  lemma NoLostWorkReader(s: State, step: Step)
    requires NoLostWork(s) && Exclusion(s) && Enabled(s, step) && !ByListener(step) && !ByRenderer(step)
    ensures NoLostWork(Do(s, step))
  {
    var t := Do(s, step);
    var r := t.readers[step.i];
    AwakeUpdate(s.readers, step.i, r);
    if r != Blocked && Blocked in t.readers {
      StillBlocked(s.readers, step.i, r);
    }
  }

  lemma NoLostWorkListener(s: State, step: Step)
    requires NoLostWork(s) && Enabled(s, step) && ByListener(step) && !step.ListenerSignal?
    ensures NoLostWork(Do(s, step))
  {
  }

  lemma NoLostWorkRenderer(s: State, step: Step)
    requires NoLostWork(s) && Enabled(s, step) && ByRenderer(step)
    ensures NoLostWork(Do(s, step))
  {
  }

  lemma NoLostWorkKept(s: State, step: Step)
    requires NoLostWork(s) && Exclusion(s) && Enabled(s, step)
    ensures NoLostWork(Do(s, step))
  {
    if step.ListenerSignal? {
      NoLostWorkSignal(s, step);
    } else if ByListener(step) {
      NoLostWorkListener(s, step);
    } else if ByRenderer(step) {
      NoLostWorkRenderer(s, step);
    } else {
      NoLostWorkReader(s, step);
    }
  }

  // ---- runs ----

  ghost predicate Inv(s: State) {
    Exclusion(s) && InOrder(s) && Conserved(s) && Fates(s) && NoLostWork(s)
  }

  lemma {:induction false} NoHands(readers: seq<Reading>, read: bool, id: nat)
    requires forall i | 0 <= i < |readers| :: readers[i] == Locking
    ensures InHands(readers, read, id) == 0
  {
    if readers != [] {
      NoHands(readers[..|readers| - 1], read, id);
    }
  }

  lemma InvInit(s: State)
    requires Init(s)
    ensures Inv(s)
  {
    forall id: nat
      ensures InOnePlace(s, id) && FateOf(s, id)
    {
      NoHands(s.readers, false, id);
      NoHands(s.readers, true, id);
    }
    assert Upto(0) == [];
  }

  lemma InvKept(s: State, step: Step)
    requires Inv(s) && Enabled(s, step)
    ensures Inv(Do(s, step))
  {
    if ByListener(step) {
      ExclusionByListener(s, step);
    } else if ByRenderer(step) {
      ExclusionByRenderer(s, step);
    } else {
      ExclusionByReader(s, step);
    }
    InOrderKept(s, step);
    ConservedKept(s, step);
    FatesKept(s, step);
    NoLostWorkKept(s, step);
  }

  /** A run: the states that the steps lead through. */
  ghost predicate IsRun(states: seq<State>, steps: seq<Step>) {
    && |states| == |steps| + 1 && Init(states[0])
    && forall k | 0 <= k < |steps| :: Enabled(states[k], steps[k]) && states[k + 1] == Do(states[k], steps[k])
  }

  /** Everything holds in every state of every run, with any number of readers. */
  lemma {:induction false} InvAlways(states: seq<State>, steps: seq<Step>, k: nat)
    requires IsRun(states, steps) && k < |states|
    ensures Inv(states[k])
  {
    if k == 0 {
      InvInit(states[0]);
    } else {
      InvAlways(states, steps, k - 1);
      InvKept(states[k - 1], steps[k - 1]);
    }
  }

  lemma DistinctIfOnce(q: seq<nat>, i: nat, j: nat)
    requires i < j < |q| && q[i] == q[j]
    ensures On(q, q[i]) >= 2
  {
    assert q == q[..j] + q[j..];
    assert q[i] in multiset(q[..j]) by { assert q[..j][i] == q[i]; }
    assert q[j] in multiset(q[j..]) by { assert q[j..][0] == q[j]; }
  }

  /** No descriptor is closed twice, in any run. */
  lemma ClosedOnce(states: seq<State>, steps: seq<Step>, k: nat, i: nat, j: nat)
    requires IsRun(states, steps) && k < |states| && i < j < |states[k].closed|
    ensures states[k].closed[i] != states[k].closed[j]
  {
    InvAlways(states, steps, k);
    var q := states[k].closed;
    assert InOnePlace(states[k], q[i]);
    if q[i] == q[j] {
      DistinctIfOnce(q, i, j);
    }
  }

  lemma OnNone(q: seq<nat>, id: nat)
    ensures On(q, id) == 0 <==> id !in q
  {
  }

  /** A session is closed either because a reader dropped it, or after the renderer took it off
      renderq, never both; and what a reader has read in full is not dropped, and is closed only
      after it has been on renderq. */
  lemma ClosedWhy(states: seq<State>, steps: seq<Step>, k: nat, id: nat)
    requires IsRun(states, steps) && k < |states| && id in states[k].closed
    ensures var s := states[k];
            (id in s.dropped && id !in s.done) || (id in s.done && id in s.taken && id !in s.dropped)
  {
    InvAlways(states, steps, k);
    var s := states[k];
    assert InOnePlace(s, id) && FateOf(s, id);
    OnNone(s.closed, id);
    OnNone(s.dropped, id);
    OnNone(s.done, id);
    OnNone(s.taken, id);
    BegunOnce(s, id);
    TakenEntered(s, id);
  }

  lemma TakenEntered(s: State, id: nat)
    requires RenderInOrder(s)
    ensures On(s.taken, id) <= On(s.entered, id)
  {
  }

  lemma {:induction false} UptoOnce(n: nat, id: nat)
    ensures On(Upto(n), id) <= 1
  {
    if n > 0 {
      UptoOnce(n - 1, id);
      assert Upto(n) == Upto(n - 1) + [n - 1];
      OnAppended(Upto(n - 1), n - 1, id);
      OnNone(Upto(n - 1), id);
    }
  }

  lemma BegunOnce(s: State, id: nat)
    requires ReadInOrder(s)
    ensures On(s.begun, id) <= 1
  {
    UptoOnce(s.accepted, id);
    assert multiset(Upto(s.accepted)) == multiset(s.begun) + multiset(s.readq + InListener(s.listener));
  }

  lemma {:induction false} NoneAwake(readers: seq<Reading>)
    requires forall i | 0 <= i < |readers| :: readers[i] == Blocked
    ensures Awake(readers) == 0
  {
    if readers != [] {
      NoneAwake(readers[..|readers| - 1]);
    }
  }

  /** The readers never all sleep over a waiting session: if they are all blocked, and the
      listener is not about to signal, readq is empty. */
  lemma NeverAllAsleep(states: seq<State>, steps: seq<Step>, k: nat)
    requires IsRun(states, steps) && k < |states| && states[k].readers != []
    requires states[k].listener != Signalling
    requires forall i | 0 <= i < |states[k].readers| :: states[k].readers[i] == Blocked
    ensures states[k].readq == []
  {
    InvAlways(states, steps, k);
    NoneAwake(states[k].readers);
    assert states[k].readers[0] == Blocked;
  }
}
