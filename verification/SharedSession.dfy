/**
 * Several duplexes, one session lock, one backend session (src/duplex/index.ts with src/utils/session-lock.ts) as a
 * transition system. A duplex runs protocol calls from its drain loop and, after a client let go of a suspended
 * portal, a recovery Sync of its own; final, destroy and Terminate roll back and give up the lock. Whatever goes to the
 * backend asks for a turn in `runExclusive`, and turns are given in the order they are asked for.
 *
 * About the environment the system assumes: PGlite is ready, so that asking for a turn takes no time; the ROLLBACK of
 * a teardown succeeds; a call reports a ReadyForQuery after it last changed the transaction status; within a call no
 * transaction is opened, and no portal left suspended, after an idle status was reported; a bare Sync opens none and
 * reports exactly once; an acquire that was resolved has asked for its turn before a Sync of the same duplex is
 * answered.
 */
module SharedSession {
  import opened Wrappers
  import opened SessionLock

  const IN_TRANSACTION: Status := 0x54
  const FAILED: Status := 0x45

  /** A protocol call of the drain loop: waiting for the session, waiting for its turn, or at the backend. */
  datatype Call = NoCall | Waiting | Queued | Running

  /** The recovery Sync for an abandoned portal: waiting for its turn, or at the backend. */
  datatype Recovery = NoRecovery | Requested | Delivering

  /** The rollback shared by all teardown paths. */
  datatype Rollback = NotAsked | AwaitingCall | Committed | Done

  /**
   * `orphaned` says of the current call that it was waiting for its turn when the duplex's own Sync gave up the
   * session.
   */
  datatype Duplex = Duplex(call: Call, orphaned: bool, recovery: Recovery, lastSeen: Option<Status>,
                           portalSuspended: bool, finished: bool, terminated: bool, tornDown: bool, rollback: Rollback)

  const NEW_DUPLEX: Duplex := Duplex(NoCall, false, NoRecovery, None, false, false, false, false, NotAsked)

  datatype Kind = CallTurn | SyncTurn | RollbackTurn

  /** A turn at the backend. */
  datatype Turn = Turn(id: Id, kind: Kind)

  /** A batch that reached the backend, and whose transaction was open when it did. */
  datatype Executed = Executed(id: Id, inTransactionOf: Option<Id>)

  datatype State = State(
    lock: Lock,
    turns: seq<Turn>,         // who waits in runExclusive, in order
    running: Option<Turn>,    // who is inside
    reported: bool,           // it has reported a status
    idleReported: bool,       // it has reported an idle status
    unreported: bool,         // it has changed the transaction status since its last report
    transaction: Option<Id>,  // who opened the transaction block the backend is in
    duplexes: seq<Duplex>,
    log: seq<Executed>)

  datatype Action =
    | Submit(id: Id)               // the drain loop asks for the session
    | Wake(id: Id)                 // its acquire was resolved
    | StartCall(id: Id)
    | OpenTransaction(id: Id)
    | CloseTransaction(id: Id)
    | Report(id: Id, status: Status)
    | FinishCall(id: Id, suspends: bool, doomed: bool)
    | RequestRecovery(id: Id, first: bool)  // `first`: it asks for its turn just before the call submitted with it
    | StartRecovery(id: Id)
    | FinishRecovery(id: Id)
    | Final(id: Id)
    | Destroy(id: Id)
    | Terminate(id: Id)
    | CheckRollback(id: Id)
    | RunRollback(id: Id)
    | EndFinal(id: Id)
    | EndDestroy(id: Id)
    | EndTerminate(id: Id)

  predicate OpenStatus(status: Option<Status>) {
    status == Some(IN_TRANSACTION) || status == Some(FAILED)
  }

  predicate Live(d: Duplex) {
    !d.tornDown && !d.terminated
  }

  /** The acquire of `id` is still pending. */
  predicate InLine(l: Lock, id: Id) {
    exists i :: 0 <= i < |l.queue| && l.queue[i].id == id
  }

  function With(s: State, id: Id, d: Duplex): State
    requires id < |s.duplexes|
  {
    s.(duplexes := s.duplexes[id := d])
  }

  predicate IsRunning(s: State, id: Id) {
    s.running.Some? && s.running.value.id == id
  }

  predicate NextTurn(s: State, t: Turn) {
    s.running.None? && s.turns != [] && s.turns[0] == t
  }

  /** The guards of the code, and the assumptions about the backend. */
  predicate Enabled(s: State, a: Action) {
    a.id < |s.duplexes| &&
    var d := s.duplexes[a.id];
    match a
    case Submit(_) => d.call.NoCall? && Live(d) && !d.finished
    case Wake(id) => d.call.Waiting? && !InLine(s.lock, id)
    case StartCall(id) => NextTurn(s, Turn(id, CallTurn))
    case OpenTransaction(id) =>
      s.running == Some(Turn(id, CallTurn)) && s.transaction.None? && !s.idleReported
    case CloseTransaction(id) => IsRunning(s, id) && s.transaction.Some?
    case Report(id, status) =>
      && IsRunning(s, id)
      && (if s.transaction.None? then status == STATUS_IDLE else OpenStatus(Some(status)))
      && (s.running.value.kind.SyncTurn? ==> !s.reported && !(d.call.Waiting? && !InLine(s.lock, id)))
    case FinishCall(id, suspends, doomed) =>
      s.running == Some(Turn(id, CallTurn)) && !s.unreported && (suspends ==> !doomed && !s.idleReported)
    case RequestRecovery(id, first) =>
      && !d.terminated && d.recovery.NoRecovery? && d.portalSuspended
      && (first ==> s.turns != [] && s.turns[|s.turns| - 1] == Turn(id, CallTurn))
    case StartRecovery(id) => NextTurn(s, Turn(id, SyncTurn))
    case FinishRecovery(id) => s.running == Some(Turn(id, SyncTurn)) && s.reported && !s.unreported
    case Final(_) => d.call.NoCall? && !d.finished
    case Destroy(_) => !d.tornDown
    case Terminate(_) => d.call.NoCall? && Live(d) && !d.finished
    case CheckRollback(id) => d.rollback.AwaitingCall? && !IsRunning(s, id)
    case RunRollback(id) => NextTurn(s, Turn(id, RollbackTurn))
    case EndFinal(_) => d.finished && d.rollback.Done?
    case EndDestroy(_) => d.tornDown && d.rollback.Done?
    case EndTerminate(_) => d.terminated && d.rollback.Done?
  }

  function AskRollback(d: Duplex): Duplex {
    if d.rollback.NotAsked? then d.(rollback := AwaitingCall) else d
  }

  function Ask(s: State, t: Turn): State {
    s.(turns := s.turns + [t])
  }

  /** The head of the queue goes inside. */
  function Enter(s: State, t: Turn): State
    requires s.turns != []
  {
    s.(running := Some(t), turns := s.turns[1..], reported := false, idleReported := false, unreported := false,
       log := s.log + [Executed(t.id, s.transaction)])
  }

  /** A status is an idle one of the owner: the session is given up. */
  predicate GivesUp(s: State, id: Id, status: Status)
    requires id < |s.duplexes|
  {
    !s.duplexes[id].terminated && status == STATUS_IDLE && s.lock.owner == Some(id)
  }

  /** `t` asks for its turn just before the one that asked last. */
  function JoinBeforeLast(turns: seq<Turn>, t: Turn): seq<Turn>
    requires turns != []
  {
    var last := |turns| - 1;
    turns[..last] + [t, turns[last]]
  }

  function Next(s: State, a: Action): State
    requires Enabled(s, a)
  {
    var d := s.duplexes[a.id];
    match a
    case Submit(id) =>
      var lock := Apply(s.lock, Op.Acquire(id));
      if lock.owner == Some(id) then
        Ask(With(s, id, d.(call := Queued, orphaned := false)), Turn(id, CallTurn)).(lock := lock)
      else With(s, id, d.(call := Waiting)).(lock := lock)
    case Wake(id) => Ask(With(s, id, d.(call := Queued, orphaned := false)), Turn(id, CallTurn))
    case StartCall(id) =>
      if !Live(d) then With(s, id, d.(call := NoCall)).(turns := s.turns[1..])
      else Enter(With(s, id, d.(call := Running)), Turn(id, CallTurn))
    case OpenTransaction(id) => s.(transaction := Some(id), unreported := true)
    case CloseTransaction(id) => s.(transaction := None, unreported := true)
    case Report(id, status) =>
      var orphaned := d.orphaned || (d.call.Queued? && GivesUp(s, id, status));
      With(s, id, d.(lastSeen := Some(status), portalSuspended := false, orphaned := orphaned)).(
        reported := true, idleReported := s.idleReported || status == STATUS_IDLE, unreported := false,
        lock := if d.terminated then s.lock else Apply(s.lock, Op.UpdateStatus(id, status)))
    case FinishCall(id, suspends, doomed) =>
      With(s, id, d.(call := NoCall, portalSuspended := suspends)).(
        running := None,
        lock := if doomed && !OpenStatus(d.lastSeen) then Apply(s.lock, Op.Release(id)) else s.lock)
    case RequestRecovery(id, first) =>
      if s.lock.owner != Some(id) then With(s, id, d.(portalSuspended := false))
      else if first then
        With(s, id, d.(recovery := Requested)).(turns := JoinBeforeLast(s.turns, Turn(id, SyncTurn)))
      else Ask(With(s, id, d.(recovery := Requested)), Turn(id, SyncTurn))
    case StartRecovery(id) =>
      if !Live(d) then With(s, id, d.(recovery := NoRecovery)).(turns := s.turns[1..])
      else Enter(With(s, id, d.(recovery := Delivering)), Turn(id, SyncTurn))
    case FinishRecovery(id) => With(s, id, d.(recovery := NoRecovery)).(running := None)
    case Final(id) => With(s, id, AskRollback(d.(finished := true)))
    case Destroy(id) => With(s, id, AskRollback(d.(tornDown := true)))
    case Terminate(id) => With(s, id, AskRollback(d.(terminated := true, portalSuspended := false)))
    case CheckRollback(id) =>
      if OpenStatus(d.lastSeen) && s.lock.owner == Some(id) then
        Ask(With(s, id, d.(rollback := Committed)), Turn(id, RollbackTurn))
      else With(s, id, d.(rollback := Done))
    case RunRollback(id) =>
      With(s, id, d.(rollback := Done, lastSeen := Some(STATUS_IDLE))).(
        turns := s.turns[1..], transaction := None, log := s.log + [Executed(id, s.transaction)])
    case EndFinal(id) => if d.terminated then s else s.(lock := Apply(s.lock, Op.Release(id)))
    case EndDestroy(id) =>
      With(s, id, if d.call.Waiting? && InLine(s.lock, id) then d.(call := NoCall) else d).(
        lock := Apply(s.lock, Op.Cancel(id)))
    case EndTerminate(id) => s.(lock := Apply(s.lock, Op.Release(id)))
  }

  /**
   * What the code relies on its callers for: a batch sent before the recovery Sync was answered opens no transaction.
   * pg sends nothing but the rest of the abandoned cursor then, since its query is still active.
   */
  predicate Orderly(s: State, a: Action)
    requires Enabled(s, a)
  {
    a.OpenTransaction? ==> !s.duplexes[a.id].orphaned
  }

  // ---- Invariant ----

  /** No batch of one duplex ran inside another's transaction. */
  predicate Isolated(log: seq<Executed>) {
    forall i :: 0 <= i < |log| ==> log[i].inTransactionOf.None? || log[i].inTransactionOf == Some(log[i].id)
  }

  /** The turn will reach the backend. */
  predicate Effective(ds: seq<Duplex>, t: Turn) {
    t.id < |ds| && (t.kind.RollbackTurn? || Live(ds[t.id]))
  }

  /** The turn is a call that may open a transaction. */
  predicate Fresh(ds: seq<Duplex>, t: Turn) {
    t.id < |ds| && t.kind.CallTurn? && Live(ds[t.id]) && !ds[t.id].orphaned
  }

  ghost predicate LockInv(s: State) {
    && (s.lock.owner.None? ==> s.lock.queue == [])
    && OneClaimEach(s.lock)
    && (s.lock.owner.Some? ==> s.lock.owner.value < |s.duplexes|)
    && (forall i :: 0 <= i < |s.lock.queue| ==>
          s.lock.queue[i].id < |s.duplexes| && s.duplexes[s.lock.queue[i].id].call.Waiting?)
  }

  ghost predicate TurnsInv(s: State) {
    && (forall i, j :: 0 <= i < j < |s.turns| ==> s.turns[i] != s.turns[j])
    && (forall i :: 0 <= i < |s.turns| ==> s.turns[i].id < |s.duplexes|)
    && (s.running.Some? ==> s.running.value.id < |s.duplexes| && !s.running.value.kind.RollbackTurn?)
  }

  /** Every turn that will reach the backend is of `id`. */
  ghost predicate AllOf(s: State, id: Id) {
    forall i :: 0 <= i < |s.turns| && Effective(s.duplexes, s.turns[i]) ==> s.turns[i].id == id
  }

  /** The running call may still open a transaction. */
  predicate MayOpen(s: State) {
    && s.running.Some? && s.running.value.kind.CallTurn? && s.running.value.id < |s.duplexes|
    && !s.duplexes[s.running.value.id].orphaned && !s.idleReported
  }

  /**
   * The opener of a transaction owns the session and nobody else will reach the backend; a call that may open one is
   * the owner's, and what comes after it is the owner's too.
   */
  ghost predicate OrderInv(s: State) {
    && (s.transaction.Some? ==>
          && s.lock.owner == s.transaction && AllOf(s, s.transaction.value)
          && (s.running.Some? ==> s.running.value.id == s.transaction.value))
    && (s.running.Some? && s.idleReported ==> s.transaction.None?)
    && (MayOpen(s) ==> s.lock.owner == Some(s.running.value.id) && AllOf(s, s.running.value.id))
    && (forall i :: 0 <= i < |s.turns| && Fresh(s.duplexes, s.turns[i]) ==> s.lock.owner == Some(s.turns[i].id))
    && (forall i, j :: 0 <= i < j < |s.turns| && Fresh(s.duplexes, s.turns[i]) && Effective(s.duplexes, s.turns[j]) ==>
          s.turns[j].id == s.turns[i].id)
  }

  predicate Closing(d: Duplex) {
    d.tornDown || d.terminated || d.finished
  }

  predicate DuplexInv(s: State, id: Id)
    requires id < |s.duplexes|
  {
    var d := s.duplexes[id];
    && (d.call.Running? <==> s.running == Some(Turn(id, CallTurn)))
    && (d.recovery.Delivering? <==> s.running == Some(Turn(id, SyncTurn)))
    && (d.call.Queued? <==> Turn(id, CallTurn) in s.turns)
    && (d.recovery.Requested? <==> Turn(id, SyncTurn) in s.turns)
    && (d.rollback.Committed? <==> Turn(id, RollbackTurn) in s.turns)
    && (d.call.Waiting? && Live(d) && !InLine(s.lock, id) ==> s.lock.owner == Some(id))
    && (d.terminated || d.finished ==> d.call.NoCall?)
    && (d.rollback.NotAsked? <==> !Closing(d))
    && (d.rollback.Done? ==> s.transaction != Some(id) && !d.call.Running?)
    && (s.transaction == Some(id) && !(IsRunning(s, id) && s.unreported) ==> OpenStatus(d.lastSeen))
  }

  ghost predicate Inv(s: State) {
    && LockInv(s) && TurnsInv(s) && OrderInv(s) && Isolated(s.log)
    && (s.transaction.Some? ==> s.transaction.value < |s.duplexes|)
    && DuplexesInv(s)
  }

  ghost predicate DuplexesInv(s: State) {
    forall id :: 0 <= id < |s.duplexes| ==> DuplexInv(s, id)
  }

  /** The cancel that ends a destroy: the queue loses the duplex's claim and nobody else's. */
  lemma {:induction false} CancelKeepsLock(l: Lock, id: Id)
    requires OneClaimEach(l) && (l.owner.None? ==> l.queue == [])
    ensures var l' := Apply(l, Op.Cancel(id));
            && OneClaimEach(l') && (l'.owner.None? ==> l'.queue == [])
            && (l.owner != Some(id) ==> l'.owner == l.owner)
            && (l.owner == Some(id) && l.queue == [] ==> l'.owner == None)
            && (l.owner == Some(id) && l.queue != [] ==> l'.owner == Some(l.queue[0].id) && l.queue[0].id != id)
            && (forall i :: 0 <= i < |l'.queue| ==> l'.queue[i] in l.queue && l'.queue[i].id != id)
            && (forall j: Id :: j != id && InLine(l, j) && l'.owner != Some(j) ==> InLine(l', j))
  {
    DisciplineKeepsOneClaim(l, Op.Cancel(id));
    CancelForgets(l, id);
    OthersMembers(VacateIf(l, id).queue, id);
    var l' := Apply(l, Op.Cancel(id));
    forall i | 0 <= i < |l'.queue| ensures l'.queue[i] in l.queue && l'.queue[i].id != id {
      assert l'.queue[i] in VacateIf(l, id).queue;
    }
    forall j: Id | j != id && InLine(l, j) && l'.owner != Some(j) ensures InLine(l', j) {
      var i :| 0 <= i < |l.queue| && l.queue[i].id == j;
      assert l.queue[i] in VacateIf(l, id).queue;
      assert l.queue[i] in l'.queue;
    }
  }

  /** The first turn leaves the queue. */
  lemma {:induction false} FirstLeaves(turns: seq<Turn>)
    requires turns != [] && forall i, j :: 0 <= i < j < |turns| ==> turns[i] != turns[j]
    ensures forall t :: t in turns[1..] <==> t in turns && t != turns[0]
    ensures forall i, j :: 0 <= i < j < |turns[1..]| ==> turns[1..][i] != turns[1..][j]
  {
    assert turns == [turns[0]] + turns[1..];
  }

  lemma {:induction false} HeadLeaves(s: State)
    requires TurnsInv(s) && s.turns != []
    ensures forall t :: t in s.turns[1..] <==> t in s.turns && t != s.turns[0]
  {
    FirstLeaves(s.turns);
  }

  /** A turn is asked for just before the last one. */
  lemma {:induction false} JoinsBeforeLast(turns: seq<Turn>, t: Turn)
    requires turns != [] && t !in turns && forall i, j :: 0 <= i < j < |turns| ==> turns[i] != turns[j]
    ensures var joined := JoinBeforeLast(turns, t);
      && (forall u :: u in joined <==> u in turns || u == t)
      && (forall i :: 0 <= i < |joined| ==> joined[i] in joined)
      && (forall i, j :: 0 <= i < j < |joined| ==> joined[i] != joined[j])
  {
    var last := |turns| - 1;
    var joined := turns[..last] + [t, turns[last]];
    assert turns == turns[..last] + [turns[last]];
    assert joined[last] == t && joined[last + 1] == turns[last];
  }

  /** What happens to the line when an owner gives up. */
  lemma {:induction false} LineAfterVacate(l: Lock, id: Id)
    requires OneClaimEach(l)
    ensures forall j: Id :: InLine(VacateIf(l, id), j) <==> InLine(l, j) && VacateIf(l, id).owner != Some(j)
  {
    var l' := VacateIf(l, id);
    forall j: Id ensures InLine(l', j) <==> InLine(l, j) && l'.owner != Some(j) {
      if InLine(l, j) && l'.owner != Some(j) {
        var i :| 0 <= i < |l.queue| && l.queue[i].id == j;
        if l.owner == Some(id) {
          assert l'.queue[i - 1].id == j;
        } else {
          assert l'.queue[i].id == j;
        }
      }
      if InLine(l', j) {
        var i :| 0 <= i < |l'.queue| && l'.queue[i].id == j;
        if l.owner == Some(id) {
          assert l.queue[i + 1].id == j;
        } else {
          assert l.queue[i].id == j;
        }
      }
    }
  }

  lemma {:induction false} LineAfterAcquire(l: Lock, id: Id)
    ensures var l' := Apply(l, Op.Acquire(id));
      forall j: Id :: InLine(l', j) <==> InLine(l, j) || (j == id && l'.owner != Some(id))
  {
    var l' := Apply(l, Op.Acquire(id));
    forall j: Id ensures InLine(l', j) <==> InLine(l, j) || (j == id && l'.owner != Some(id)) {
      if InLine(l, j) {
        var i :| 0 <= i < |l.queue| && l.queue[i].id == j;
        assert l'.queue[i].id == j;
      }
      if l'.owner != Some(id) {
        assert l'.queue[|l.queue|].id == id;
      }
    }
  }

  lemma {:induction false} SubmitGivesOrQueues(l: Lock, id: Id)
    ensures var l' := Apply(l, Op.Acquire(id)); l'.owner == l.owner || (l.owner == None && l'.owner == Some(id))
  {
  }

  /** Turns that would not have reached the backend before still do not, and none has become fresh. */
  ghost predicate SeesLess(s: State, s': State) {
    forall t :: t in s.turns ==>
      && (Effective(s'.duplexes, t) ==> Effective(s.duplexes, t))
      && (Fresh(s'.duplexes, t) ==> Fresh(s.duplexes, t))
  }

  /** The transaction of `id` is open, and no status of the call that is inside is still to come. */
  predicate Settled(s: State, id: Id) {
    s.transaction == Some(id) && !(IsRunning(s, id) && s.unreported)
  }

  /** A step of another duplex changes nothing that matters to `id`. */
  predicate Undisturbed(s: State, s': State, id: Id)
    requires id < |s.duplexes| == |s'.duplexes|
  {
    && s'.duplexes[id] == s.duplexes[id]
    && (Turn(id, CallTurn) in s'.turns <==> Turn(id, CallTurn) in s.turns)
    && (Turn(id, SyncTurn) in s'.turns <==> Turn(id, SyncTurn) in s.turns)
    && (Turn(id, RollbackTurn) in s'.turns <==> Turn(id, RollbackTurn) in s.turns)
    && (s'.running == s.running || (!IsRunning(s, id) && !IsRunning(s', id)))
    && (InLine(s.lock, id) || s.lock.owner == Some(id) ==> InLine(s'.lock, id) || s'.lock.owner == Some(id))
    && (InLine(s'.lock, id) ==> InLine(s.lock, id))
    && (s'.transaction == Some(id) ==> s.transaction == Some(id))
    && (Settled(s', id) ==> Settled(s, id))
  }

  lemma {:induction false} UndisturbedKeeps(s: State, s': State, id: Id)
    requires id < |s.duplexes| == |s'.duplexes| && Undisturbed(s, s', id) && DuplexInv(s, id)
    ensures DuplexInv(s', id)
  {
    hide InLine, Live, Closing, OpenStatus;
  }

  lemma {:induction false} WithSeesLess(s: State, id: Id, d: Duplex)
    requires id < |s.duplexes| && (Live(d) ==> Live(s.duplexes[id]))
    requires d.orphaned || !s.duplexes[id].orphaned || Turn(id, CallTurn) !in s.turns
    ensures SeesLess(s, With(s, id, d))
  {
    forall t | t in s.turns
      ensures (Effective(With(s, id, d).duplexes, t) ==> Effective(s.duplexes, t))
              && (Fresh(With(s, id, d).duplexes, t) ==> Fresh(s.duplexes, t))
    {
      assert t.id == id && t.kind.CallTurn? ==> t == Turn(id, CallTurn);
    }
  }

  /** The queue stays as it is. */
  lemma {:induction false} SameTurnsKeepOrder(s: State, s': State)
    requires OrderInv(s) && SeesLess(s, s') && s'.turns == s.turns
    requires s'.lock.owner == s.lock.owner && s'.transaction == s.transaction && s'.running == s.running
    requires s.idleReported ==> s'.idleReported
    requires s'.running.Some? && s'.idleReported ==> s'.transaction.None?
    requires MayOpen(s') ==> MayOpen(s)
    ensures OrderInv(s')
  {
    hide Effective, Fresh, MayOpen;
    assert forall i :: 0 <= i < |s.turns| ==> s.turns[i] in s.turns;
  }

  /** A turn of the owner joins the queue, or one that will not reach the backend. */
  lemma {:induction false} AskKeepsOrder(s: State, s': State, t: Turn)
    requires OrderInv(s) && SeesLess(s, s') && s'.turns == s.turns + [t]
    requires s.lock.owner.Some? ==> s'.lock.owner == s.lock.owner
    requires s'.transaction == s.transaction && s'.running == s.running && s'.idleReported == s.idleReported
    requires MayOpen(s') ==> MayOpen(s)
    requires Effective(s'.duplexes, t) ==> s'.lock.owner == Some(t.id)
    ensures OrderInv(s')
  {
    hide Effective, Fresh, MayOpen;
    assert forall i :: 0 <= i < |s.turns| ==> s.turns[i] in s.turns && s'.turns[i] == s.turns[i];
    FreshIsEffective(s'.duplexes, t);
  }

  lemma {:induction false} FreshIsEffective(ds: seq<Duplex>, t: Turn)
    ensures Fresh(ds, t) ==> Effective(ds, t)
  {
  }

  /** The first turn leaves the queue, and perhaps goes inside. */
  lemma {:induction false} LeaveKeepsOrder(s: State, s': State)
    requires OrderInv(s) && SeesLess(s, s') && s.turns != [] && s'.turns == s.turns[1..] && s.running.None?
    requires s'.lock.owner == s.lock.owner
    requires s'.transaction.None? || s'.transaction == s.transaction
    requires s'.running.Some? ==> s'.running == Some(s.turns[0]) && Effective(s.duplexes, s.turns[0])
                                  && !s'.idleReported
    requires MayOpen(s') ==> Fresh(s.duplexes, s.turns[0])
    ensures OrderInv(s')
  {
    hide Effective, Fresh;
    assert forall i :: 0 <= i < |s'.turns| ==> s'.turns[i] == s.turns[i + 1] && s'.turns[i] in s.turns;
    assert s.transaction.Some? && s'.running.Some? ==> s.turns[0].id == s.transaction.value;
  }

  /** A Sync of the owner joins just before the owner's own call. */
  lemma {:induction false} JoinKeepsOrder(s: State, s': State, t: Turn)
    requires OrderInv(s) && SeesLess(s, s') && s.turns != []
    requires s'.turns == JoinBeforeLast(s.turns, t) && s.turns[|s.turns| - 1].id == t.id
    requires s'.lock.owner == s.lock.owner == Some(t.id) && !t.kind.CallTurn?
    requires s'.transaction == s.transaction && s'.running == s.running && s'.idleReported == s.idleReported
    requires MayOpen(s') ==> MayOpen(s)
    ensures OrderInv(s')
  {
    hide Effective, MayOpen;
    var last := |s.turns| - 1;
    forall i | 0 <= i < |s'.turns|
      ensures s'.turns[i] == t || s'.turns[i] in s.turns
      ensures s'.turns[i] == t || exists k :: 0 <= k < |s.turns| && s'.turns[i] == s.turns[k]
    {
      assert i < last ==> s'.turns[i] == s.turns[i];
      assert i == last + 1 ==> s'.turns[i] == s.turns[last];
    }
    forall i, j | 0 <= i < j < |s'.turns| && Fresh(s'.duplexes, s'.turns[i]) && Effective(s'.duplexes, s'.turns[j])
      ensures s'.turns[j].id == s'.turns[i].id
    {
      assert i < last && s'.turns[i] == s.turns[i] && s.turns[i] in s.turns;
      if j < last {
        assert s'.turns[j] == s.turns[j];
      } else if j == last + 1 {
        assert s'.turns[j] == s.turns[last];
      }
    }
  }

  /** The owner gives up: no call in the queue is fresh any more. */
  lemma {:induction false} GivingUpKeepsOrder(s: State, s': State)
    requires OrderInv(s) && SeesLess(s, s') && s'.turns == s.turns
    requires s.transaction.None? && s'.transaction.None? && !MayOpen(s')
    requires forall t :: t in s.turns && Fresh(s'.duplexes, t) ==> s.lock.owner != Some(t.id)
    ensures OrderInv(s')
  {
    hide Effective, Fresh, MayOpen;
    assert forall i :: 0 <= i < |s.turns| ==> s.turns[i] in s.turns;
  }

  lemma {:induction false} SubmitOrder(s: State, a: Action)
    requires Inv(s) && Enabled(s, a) && Orderly(s, a)
    requires a.Submit?
    ensures OrderInv(Next(s, a))
  {
    hide Effective, AllOf, OneClaimEach, Isolated, LockInv, TurnsInv, InLine;
    var s', id := Next(s, a), a.id;
    assert DuplexInv(s, id);
    if s'.lock.owner == Some(id) {
      WithSeesLess(s, id, s'.duplexes[id]);
      AskKeepsOrder(s, s', Turn(id, CallTurn));
    } else {
      WithSeesLess(s, id, s'.duplexes[id]);
      SameTurnsKeepOrder(s, s');
    }
  }

  lemma {:induction false} SubmitLock(s: State, a: Action)
    requires Inv(s) && Enabled(s, a) && Orderly(s, a)
    requires a.Submit?
    ensures LockInv(Next(s, a))
  {
    hide Effective, Fresh, MayOpen, InLine, OrderInv, Isolated, TurnsInv, DuplexInv;
  }

  lemma {:induction false} SubmitTurns(s: State, a: Action)
    requires Inv(s) && Enabled(s, a) && Orderly(s, a)
    requires a.Submit?
    ensures TurnsInv(Next(s, a)) && Isolated(Next(s, a).log)
  {
    hide Effective, Fresh, MayOpen, InLine, OrderInv, LockInv, OneClaimEach, Apply;
    assert DuplexInv(s, a.id);
  }

  lemma {:induction false} SubmitOwn(s: State, a: Action)
    requires Inv(s) && Enabled(s, a) && Orderly(s, a)
    requires a.Submit?
    ensures DuplexInv(Next(s, a), a.id)
  {
    hide OneClaimEach, Isolated, OrderInv, LockInv, TurnsInv, Apply, InLine;
    assert DuplexInv(s, a.id);
    LineAfterAcquire(s.lock, a.id);
    SubmitGivesOrQueues(s.lock, a.id);
  }

  lemma {:induction false} SubmitAside(s: State, a: Action, id: Id)
    requires Inv(s) && Enabled(s, a) && Orderly(s, a)
    requires a.Submit? && id < |s.duplexes| && id != a.id
    ensures |Next(s, a).duplexes| == |s.duplexes| && Undisturbed(s, Next(s, a), id)
  {
    hide Apply, InLine, DuplexInv, OneClaimEach, OrderInv, Isolated, Live;
    LineAfterAcquire(s.lock, a.id);
    SubmitGivesOrQueues(s.lock, a.id);
  }

  lemma {:induction false} SubmitDuplex(s: State, a: Action, id: Id)
    requires Inv(s) && Enabled(s, a) && Orderly(s, a)
    requires a.Submit? && id < |s.duplexes|
    ensures DuplexInv(Next(s, a), id)
  {
    hide Enabled, Next, DuplexInv, Orderly, LockInv, TurnsInv, OrderInv, Undisturbed;
    assert DuplexInv(s, id);
    if id == a.id {
      SubmitOwn(s, a);
    } else {
      SubmitAside(s, a, id);
      UndisturbedKeeps(s, Next(s, a), id);
    }
  }

  lemma {:induction false} SubmitKeeps(s: State, a: Action)
    requires Inv(s) && Enabled(s, a) && Orderly(s, a)
    requires a.Submit?
    ensures Inv(Next(s, a))
  {
    hide LockInv, TurnsInv, OrderInv, DuplexInv, Isolated;
    SubmitLock(s, a);
    SubmitTurns(s, a);
    SubmitOrder(s, a);
    forall id | 0 <= id < |s.duplexes| { SubmitDuplex(s, a, id); }
  }

  lemma {:induction false} WakeOrder(s: State, a: Action)
    requires Inv(s) && Enabled(s, a) && Orderly(s, a)
    requires a.Wake?
    ensures OrderInv(Next(s, a))
  {
    hide AllOf, OneClaimEach, Isolated, LockInv, TurnsInv, InLine;
    var s', id := Next(s, a), a.id;
    assert DuplexInv(s, id);
    WithSeesLess(s, id, s'.duplexes[id]);
    AskKeepsOrder(s, s', Turn(id, CallTurn));
  }

  lemma {:induction false} WakeQueues(s: State, a: Action)
    requires Inv(s) && Enabled(s, a) && Orderly(s, a)
    requires a.Wake?
    ensures LockInv(Next(s, a)) && TurnsInv(Next(s, a)) && Isolated(Next(s, a).log)
  {
    hide Effective, Fresh, MayOpen;
    assert DuplexInv(s, a.id);
  }

  lemma {:induction false} WakeDuplex(s: State, a: Action, id: Id)
    requires Inv(s) && Enabled(s, a) && Orderly(s, a)
    requires a.Wake? && id < |s.duplexes|
    ensures DuplexInv(Next(s, a), id)
  {
    hide OneClaimEach, Isolated, Fresh, Effective, MayOpen;
    assert DuplexInv(s, a.id) && DuplexInv(s, id);
  }

  lemma {:induction false} WakeKeeps(s: State, a: Action)
    requires Inv(s) && Enabled(s, a) && Orderly(s, a)
    requires a.Wake?
    ensures Inv(Next(s, a))
  {
    hide LockInv, TurnsInv, OrderInv, DuplexInv, Isolated;
    WakeQueues(s, a);
    WakeOrder(s, a);
    forall id | 0 <= id < |s.duplexes| { WakeDuplex(s, a, id); }
  }

  lemma {:induction false} StartCallOrder(s: State, a: Action)
    requires Inv(s) && Enabled(s, a) && Orderly(s, a)
    requires a.StartCall?
    ensures OrderInv(Next(s, a))
  {
    hide AllOf, OneClaimEach, Isolated, LockInv, TurnsInv, InLine;
    var s', id := Next(s, a), a.id;
    assert DuplexInv(s, id);
    WithSeesLess(s, id, s'.duplexes[id]);
    LeaveKeepsOrder(s, s');
  }

  lemma {:induction false} StartCallQueues(s: State, a: Action)
    requires Inv(s) && Enabled(s, a) && Orderly(s, a)
    requires a.StartCall?
    ensures LockInv(Next(s, a)) && TurnsInv(Next(s, a)) && Isolated(Next(s, a).log)
  {
    hide Fresh, MayOpen, OneClaimEach, Apply, InLine;
    assert DuplexInv(s, a.id);
    FirstLeaves(s.turns);
  }

  lemma {:induction false} StartCallOwn(s: State, a: Action)
    requires Inv(s) && Enabled(s, a) && Orderly(s, a)
    requires a.StartCall?
    ensures DuplexInv(Next(s, a), a.id)
  {
    hide TurnsInv, OneClaimEach, Isolated, Fresh, Effective, MayOpen, OrderInv, LockInv, InLine, Apply;
    assert DuplexInv(s, a.id);
    HeadLeaves(s);
  }

  lemma {:induction false} StartCallAside(s: State, a: Action, id: Id)
    requires Inv(s) && Enabled(s, a) && Orderly(s, a)
    requires a.StartCall? && id < |s.duplexes| && id != a.id
    ensures |Next(s, a).duplexes| == |s.duplexes| && Undisturbed(s, Next(s, a), id)
  {
    hide TurnsInv, OneClaimEach, OrderInv, Isolated, InLine, Live, LockInv, DuplexInv;
    HeadLeaves(s);
  }

  lemma {:induction false} StartCallDuplex(s: State, a: Action, id: Id)
    requires Inv(s) && Enabled(s, a) && Orderly(s, a)
    requires a.StartCall? && id < |s.duplexes|
    ensures DuplexInv(Next(s, a), id)
  {
    hide Enabled, Next, DuplexInv, Orderly, LockInv, TurnsInv, OrderInv, Undisturbed;
    assert DuplexInv(s, id);
    if id == a.id {
      StartCallOwn(s, a);
    } else {
      StartCallAside(s, a, id);
      UndisturbedKeeps(s, Next(s, a), id);
    }
  }

  lemma {:induction false} StartCallKeeps(s: State, a: Action)
    requires Inv(s) && Enabled(s, a) && Orderly(s, a)
    requires a.StartCall?
    ensures Inv(Next(s, a))
  {
    hide LockInv, TurnsInv, OrderInv, DuplexInv, Isolated;
    StartCallQueues(s, a);
    StartCallOrder(s, a);
    forall id | 0 <= id < |s.duplexes| { StartCallDuplex(s, a, id); }
  }

  lemma {:induction false} TransactionOrder(s: State, a: Action)
    requires Inv(s) && Enabled(s, a) && Orderly(s, a)
    requires a.OpenTransaction? || a.CloseTransaction?
    ensures LockInv(Next(s, a)) && TurnsInv(Next(s, a)) && OrderInv(Next(s, a))
  {
    assert DuplexInv(s, a.id);
  }

  lemma {:induction false} TransactionKeeps(s: State, a: Action)
    requires Inv(s) && Enabled(s, a) && Orderly(s, a)
    requires a.OpenTransaction? || a.CloseTransaction?
    ensures Inv(Next(s, a))
  {
    TransactionOrder(s, a);
    var s' := Next(s, a);
    assert DuplexInv(s, a.id);
    forall id | 0 <= id < |s'.duplexes| ensures DuplexInv(s', id) {
      assert DuplexInv(s, id);
    }
  }

  lemma {:induction false} ReportOrder(s: State, a: Action)
    requires Inv(s) && Enabled(s, a) && Orderly(s, a)
    requires a.Report?
    ensures OrderInv(Next(s, a))
  {
    hide Effective, AllOf, OneClaimEach, Isolated, LockInv, TurnsInv, InLine;
    var s', id := Next(s, a), a.id;
    assert DuplexInv(s, id);
    WithSeesLess(s, id, s'.duplexes[id]);
    if GivesUp(s, id, a.status) {
      forall t | t in s.turns && Fresh(s'.duplexes, t) ensures s.lock.owner != Some(t.id) {
        assert t.id == id ==> t == Turn(id, CallTurn);
      }
      GivingUpKeepsOrder(s, s');
    } else {
      SameTurnsKeepOrder(s, s');
    }
  }

  lemma {:induction false} ReportQueues(s: State, a: Action)
    requires Inv(s) && Enabled(s, a) && Orderly(s, a)
    requires a.Report?
    ensures LockInv(Next(s, a)) && TurnsInv(Next(s, a)) && Isolated(Next(s, a).log)
  {
    hide Effective, Fresh, MayOpen;
    assert DuplexInv(s, a.id);
    LineAfterVacate(s.lock, a.id);
  }

  lemma {:induction false} ReportDuplex(s: State, a: Action, id: Id)
    requires Inv(s) && Enabled(s, a) && Orderly(s, a)
    requires a.Report? && id < |s.duplexes|
    ensures DuplexInv(Next(s, a), id)
  {
    hide OneClaimEach, Isolated, Fresh, Effective, MayOpen;
    assert DuplexInv(s, a.id) && DuplexInv(s, id);
    LineAfterVacate(s.lock, a.id);
  }

  lemma {:induction false} ReportKeeps(s: State, a: Action)
    requires Inv(s) && Enabled(s, a) && Orderly(s, a)
    requires a.Report?
    ensures Inv(Next(s, a))
  {
    hide LockInv, TurnsInv, OrderInv, DuplexInv, Isolated;
    ReportQueues(s, a);
    ReportOrder(s, a);
    forall id | 0 <= id < |s.duplexes| { ReportDuplex(s, a, id); }
  }

  lemma {:induction false} FinishCallQueues(s: State, a: Action)
    requires Inv(s) && Enabled(s, a) && Orderly(s, a)
    requires a.FinishCall?
    ensures LockInv(Next(s, a)) && TurnsInv(Next(s, a))
  {
    hide OrderInv, Isolated, Fresh, Effective, MayOpen, InLine;
    assert DuplexInv(s, a.id);
  }

  lemma {:induction false} FinishCallOrder(s: State, a: Action)
    requires Inv(s) && Enabled(s, a) && Orderly(s, a)
    requires a.FinishCall?
    ensures OrderInv(Next(s, a))
  {
    hide LockInv, OneClaimEach, Isolated, InLine;
    assert DuplexInv(s, a.id);
  }

  lemma {:induction false} FinishCallKeeps(s: State, a: Action)
    requires Inv(s) && Enabled(s, a) && Orderly(s, a)
    requires a.FinishCall?
    ensures Inv(Next(s, a))
  {
    hide OneClaimEach, Fresh, Effective, MayOpen;
    FinishCallQueues(s, a);
    FinishCallOrder(s, a);
    LineAfterVacate(s.lock, a.id);
    var s' := Next(s, a);
    assert DuplexInv(s, a.id);
    forall id | 0 <= id < |s'.duplexes| ensures DuplexInv(s', id) {
      assert DuplexInv(s, id);
    }
  }

  lemma {:induction false} SyncIsNew(s: State, id: Id)
    requires Inv(s) && id < |s.duplexes| && s.duplexes[id].recovery.NoRecovery?
    ensures Turn(id, SyncTurn) !in s.turns
  {
    hide LockInv, TurnsInv, OrderInv, Isolated;
    assert DuplexInv(s, id);
  }

  lemma {:induction false} RequestOrder(s: State, a: Action)
    requires Inv(s) && Enabled(s, a) && Orderly(s, a)
    requires a.RequestRecovery?
    ensures OrderInv(Next(s, a))
  {
    hide JoinBeforeLast, Effective, AllOf, OneClaimEach, Isolated, LockInv, TurnsInv, DuplexInv, InLine;
    var s', id := Next(s, a), a.id;
    WithSeesLess(s, id, s'.duplexes[id]);
    if s.lock.owner != Some(id) {
      SameTurnsKeepOrder(s, s');
    } else if a.first {
      JoinKeepsOrder(s, s', Turn(id, SyncTurn));
    } else {
      AskKeepsOrder(s, s', Turn(id, SyncTurn));
    }
  }

  lemma {:induction false} RequestLock(s: State, a: Action)
    requires Inv(s) && Enabled(s, a) && Orderly(s, a)
    requires a.RequestRecovery?
    ensures LockInv(Next(s, a))
  {
    hide Effective, Fresh, MayOpen, InLine, OrderInv, Isolated, TurnsInv, DuplexInv, OneClaimEach;
  }

  lemma {:induction false} JoinKeepsTurns(s: State, s': State, t: Turn)
    requires TurnsInv(s) && s.turns != [] && s'.turns == JoinBeforeLast(s.turns, t) && t !in s.turns
    requires t.id < |s.duplexes| == |s'.duplexes| && s'.running == s.running
    ensures TurnsInv(s')
  {
    hide JoinBeforeLast;
    JoinsBeforeLast(s.turns, t);
    forall i | 0 <= i < |s'.turns| ensures s'.turns[i].id < |s.duplexes| {
      assert s'.turns[i] in s.turns || s'.turns[i] == t;
    }
  }

  lemma {:induction false} RequestTurns(s: State, a: Action)
    requires Inv(s) && Enabled(s, a) && Orderly(s, a)
    requires a.RequestRecovery?
    ensures TurnsInv(Next(s, a)) && Isolated(Next(s, a).log)
  {
    hide JoinBeforeLast, DuplexInv, OrderInv, LockInv, TurnsInv, Isolated, Apply, Live, OpenStatus, InLine;
    var s', t := Next(s, a), Turn(a.id, SyncTurn);
    SyncIsNew(s, a.id);
    if s.lock.owner != Some(a.id) {
      SameKeepsTurns(s, s');
    } else if a.first {
      JoinKeepsTurns(s, s', t);
    } else {
      AskKeepsTurns(s, s', t);
    }
  }

  lemma {:induction false} SameKeepsTurns(s: State, s': State)
    requires TurnsInv(s) && s'.turns == s.turns && |s'.duplexes| == |s.duplexes| && s'.running == s.running
    ensures TurnsInv(s')
  {
  }

  /** The duplex asks for a turn for its Sync, or drops its portal. */
  lemma {:induction false} AsksForSync(s: State, s': State, id: Id)
    requires id < |s.duplexes| == |s'.duplexes| && DuplexInv(s, id) && s.duplexes[id].recovery.NoRecovery?
    requires s'.lock == s.lock && s'.running == s.running && s'.unreported == s.unreported
    requires s'.transaction == s.transaction
    requires var d := s.duplexes[id];
      if s.lock.owner == Some(id)
      then s'.duplexes[id] == d.(recovery := Requested) &&
           forall t :: t in s'.turns <==> t in s.turns || t == Turn(id, SyncTurn)
      else s'.duplexes[id] == d.(portalSuspended := false) && s'.turns == s.turns
    ensures DuplexInv(s', id)
  {
    hide InLine, OpenStatus;
  }

  lemma {:induction false} RequestOwn(s: State, a: Action)
    requires Inv(s) && Enabled(s, a) && Orderly(s, a)
    requires a.RequestRecovery?
    ensures DuplexInv(Next(s, a), a.id)
  {
    hide JoinBeforeLast, OneClaimEach, Isolated, OrderInv, LockInv, InLine, Apply, OpenStatus, Effective;
    assert DuplexInv(s, a.id);
    if a.first { JoinsBeforeLast(s.turns, Turn(a.id, SyncTurn)); }
    AsksForSync(s, Next(s, a), a.id);
  }

  lemma {:induction false} RequestFirstAside(s: State, a: Action, id: Id)
    requires Inv(s) && Enabled(s, a) && Orderly(s, a)
    requires a.RequestRecovery? && id < |s.duplexes| && id != a.id && a.first
    ensures |Next(s, a).duplexes| == |s.duplexes| && Undisturbed(s, Next(s, a), id)
  {
    hide JoinBeforeLast, DuplexInv, OneClaimEach, OrderInv, Isolated, InLine, Live, LockInv;
    SyncIsNew(s, a.id);
    JoinsBeforeLast(s.turns, Turn(a.id, SyncTurn));
  }

  lemma {:induction false} RequestLastAside(s: State, a: Action, id: Id)
    requires Inv(s) && Enabled(s, a) && Orderly(s, a)
    requires a.RequestRecovery? && id < |s.duplexes| && id != a.id && !a.first
    ensures |Next(s, a).duplexes| == |s.duplexes| && Undisturbed(s, Next(s, a), id)
  {
    hide OneClaimEach, OrderInv, Isolated, InLine, Live, LockInv, DuplexInv, TurnsInv, OpenStatus, Apply;
    hide JoinBeforeLast;
  }

  lemma {:induction false} RequestDuplex(s: State, a: Action, id: Id)
    requires Inv(s) && Enabled(s, a) && Orderly(s, a)
    requires a.RequestRecovery? && id < |s.duplexes|
    ensures DuplexInv(Next(s, a), id)
  {
    hide Enabled, Next, DuplexInv, Orderly, LockInv, TurnsInv, OrderInv, Undisturbed;
    assert DuplexInv(s, id);
    if id == a.id {
      RequestOwn(s, a);
    } else {
      if a.first { RequestFirstAside(s, a, id); } else { RequestLastAside(s, a, id); }
      UndisturbedKeeps(s, Next(s, a), id);
    }
  }

  lemma {:induction false} RequestKeeps(s: State, a: Action)
    requires Inv(s) && Enabled(s, a) && Orderly(s, a)
    requires a.RequestRecovery?
    ensures Inv(Next(s, a))
  {
    hide LockInv, TurnsInv, OrderInv, DuplexInv, Isolated;
    RequestLock(s, a);
    RequestTurns(s, a);
    RequestOrder(s, a);
    forall id | 0 <= id < |s.duplexes| { RequestDuplex(s, a, id); }
  }

  lemma {:induction false} StartRecoveryOrder(s: State, a: Action)
    requires Inv(s) && Enabled(s, a) && Orderly(s, a)
    requires a.StartRecovery?
    ensures OrderInv(Next(s, a))
  {
    hide AllOf, OneClaimEach, Isolated, LockInv, TurnsInv, InLine;
    var s', id := Next(s, a), a.id;
    assert DuplexInv(s, id);
    WithSeesLess(s, id, s'.duplexes[id]);
    LeaveKeepsOrder(s, s');
  }

  lemma {:induction false} StartRecoveryQueues(s: State, a: Action)
    requires Inv(s) && Enabled(s, a) && Orderly(s, a)
    requires a.StartRecovery?
    ensures LockInv(Next(s, a)) && TurnsInv(Next(s, a))
  {
    hide OrderInv, DuplexInv, Isolated, OneClaimEach, Apply, InLine;
    FirstLeaves(s.turns);
  }

  lemma {:induction false} StartRecoveryLog(s: State, a: Action)
    requires Inv(s) && Enabled(s, a) && Orderly(s, a)
    requires a.StartRecovery?
    ensures Isolated(Next(s, a).log)
  {
    hide LockInv, TurnsInv, DuplexInv, Fresh, MayOpen;
    assert NextTurn(s, s.turns[0]) && s.turns[0].id == a.id;
    assert Live(s.duplexes[a.id]) ==> Effective(s.duplexes, s.turns[0]);
  }

  lemma {:induction false} StartRecoveryOwn(s: State, a: Action)
    requires Inv(s) && Enabled(s, a) && Orderly(s, a)
    requires a.StartRecovery?
    ensures DuplexInv(Next(s, a), a.id)
  {
    hide TurnsInv, OneClaimEach, Isolated, Fresh, Effective, MayOpen, OrderInv, LockInv, InLine, Apply;
    assert DuplexInv(s, a.id);
    HeadLeaves(s);
  }

  lemma {:induction false} StartRecoveryAside(s: State, a: Action, id: Id)
    requires Inv(s) && Enabled(s, a) && Orderly(s, a)
    requires a.StartRecovery? && id < |s.duplexes| && id != a.id
    ensures |Next(s, a).duplexes| == |s.duplexes| && Undisturbed(s, Next(s, a), id)
  {
    hide TurnsInv, OneClaimEach, OrderInv, Isolated, InLine, Live, LockInv, DuplexInv;
    HeadLeaves(s);
  }

  lemma {:induction false} StartRecoveryDuplex(s: State, a: Action, id: Id)
    requires Inv(s) && Enabled(s, a) && Orderly(s, a)
    requires a.StartRecovery? && id < |s.duplexes|
    ensures DuplexInv(Next(s, a), id)
  {
    hide Enabled, Next, DuplexInv, Orderly, LockInv, TurnsInv, OrderInv, Undisturbed;
    assert DuplexInv(s, id);
    if id == a.id {
      StartRecoveryOwn(s, a);
    } else {
      StartRecoveryAside(s, a, id);
      UndisturbedKeeps(s, Next(s, a), id);
    }
  }

  lemma {:induction false} StartRecoveryKeeps(s: State, a: Action)
    requires Inv(s) && Enabled(s, a) && Orderly(s, a)
    requires a.StartRecovery?
    ensures Inv(Next(s, a))
  {
    hide LockInv, TurnsInv, OrderInv, DuplexInv, Isolated;
    StartRecoveryQueues(s, a);
    StartRecoveryLog(s, a);
    StartRecoveryOrder(s, a);
    forall id | 0 <= id < |s.duplexes| { StartRecoveryDuplex(s, a, id); }
  }

  lemma {:induction false} FinishRecoveryOrder(s: State, a: Action)
    requires Inv(s) && Enabled(s, a) && Orderly(s, a)
    requires a.FinishRecovery?
    ensures LockInv(Next(s, a)) && TurnsInv(Next(s, a)) && OrderInv(Next(s, a))
  {
    assert DuplexInv(s, a.id);
  }

  lemma {:induction false} FinishRecoveryKeeps(s: State, a: Action)
    requires Inv(s) && Enabled(s, a) && Orderly(s, a)
    requires a.FinishRecovery?
    ensures Inv(Next(s, a))
  {
    FinishRecoveryOrder(s, a);
    var s' := Next(s, a);
    assert DuplexInv(s, a.id);
    forall id | 0 <= id < |s'.duplexes| ensures DuplexInv(s', id) {
      assert DuplexInv(s, id);
    }
  }

  lemma {:induction false} TeardownStartOrder(s: State, a: Action)
    requires Inv(s) && Enabled(s, a) && Orderly(s, a)
    requires a.Final? || a.Destroy? || a.Terminate?
    ensures OrderInv(Next(s, a))
  {
    hide Effective, AllOf, OneClaimEach, Isolated, LockInv, TurnsInv, InLine;
    var s', id := Next(s, a), a.id;
    assert DuplexInv(s, id);
    WithSeesLess(s, id, s'.duplexes[id]);
    SameTurnsKeepOrder(s, s');
  }

  lemma {:induction false} TeardownStartQueues(s: State, a: Action)
    requires Inv(s) && Enabled(s, a) && Orderly(s, a)
    requires a.Final? || a.Destroy? || a.Terminate?
    ensures LockInv(Next(s, a)) && TurnsInv(Next(s, a)) && Isolated(Next(s, a).log)
  {
    hide Effective, Fresh, MayOpen;
    assert DuplexInv(s, a.id);
  }

  lemma {:induction false} TeardownStartDuplex(s: State, a: Action, id: Id)
    requires Inv(s) && Enabled(s, a) && Orderly(s, a)
    requires (a.Final? || a.Destroy? || a.Terminate?) && id < |s.duplexes|
    ensures DuplexInv(Next(s, a), id)
  {
    hide OneClaimEach, Isolated, Fresh, Effective, MayOpen;
    assert DuplexInv(s, a.id) && DuplexInv(s, id);
  }

  lemma {:induction false} TeardownStartKeeps(s: State, a: Action)
    requires Inv(s) && Enabled(s, a) && Orderly(s, a)
    requires a.Final? || a.Destroy? || a.Terminate?
    ensures Inv(Next(s, a))
  {
    hide LockInv, TurnsInv, OrderInv, DuplexInv, Isolated;
    TeardownStartQueues(s, a);
    TeardownStartOrder(s, a);
    forall id | 0 <= id < |s.duplexes| { TeardownStartDuplex(s, a, id); }
  }

  lemma {:induction false} CheckRollbackOrder(s: State, a: Action)
    requires Inv(s) && Enabled(s, a) && Orderly(s, a)
    requires a.CheckRollback?
    ensures OrderInv(Next(s, a))
  {
    hide Effective, AllOf, OneClaimEach, Isolated, LockInv, TurnsInv, InLine;
    var s', id := Next(s, a), a.id;
    WithSeesLess(s, id, s'.duplexes[id]);
    if s'.turns == s.turns {
      SameTurnsKeepOrder(s, s');
    } else {
      AskKeepsOrder(s, s', Turn(id, RollbackTurn));
    }
  }

  lemma {:induction false} AskKeepsTurns(s: State, s': State, t: Turn)
    requires TurnsInv(s) && s'.turns == s.turns + [t] && t !in s.turns && t.id < |s.duplexes|
    requires |s'.duplexes| == |s.duplexes| && s'.running == s.running
    ensures TurnsInv(s')
  {
  }

  lemma {:induction false} RollbackIsNew(s: State, id: Id)
    requires Inv(s) && id < |s.duplexes| && s.duplexes[id].rollback.AwaitingCall?
    ensures Turn(id, RollbackTurn) !in s.turns
  {
    hide LockInv, TurnsInv, OrderInv, Isolated;
    assert DuplexInv(s, id);
  }

  lemma {:induction false} CheckRollbackQueues(s: State, a: Action)
    requires Inv(s) && Enabled(s, a) && Orderly(s, a)
    requires a.CheckRollback?
    ensures LockInv(Next(s, a)) && TurnsInv(Next(s, a)) && Isolated(Next(s, a).log)
  {
    hide OrderInv, InLine, Apply, OneClaimEach, DuplexInv;
    RollbackIsNew(s, a.id);
    if Next(s, a).turns != s.turns { AskKeepsTurns(s, Next(s, a), Turn(a.id, RollbackTurn)); }
  }

  lemma {:induction false} OpenersOwn(s: State)
    requires OrderInv(s)
    ensures s.transaction.Some? ==> s.lock.owner == s.transaction
  {
  }

  /** The duplex asks for a turn for its rollback, or finds nothing to roll back. */
  lemma {:induction false} AsksForRollback(s: State, s': State, id: Id)
    requires id < |s.duplexes| == |s'.duplexes| && DuplexInv(s, id) && s.duplexes[id].rollback.AwaitingCall?
    requires s'.lock == s.lock && s'.running == s.running && s'.unreported == s.unreported
    requires s'.transaction == s.transaction && !IsRunning(s, id)
    requires s.transaction == Some(id) ==> s.lock.owner == Some(id)
    requires var d := s.duplexes[id];
      if OpenStatus(d.lastSeen) && s.lock.owner == Some(id)
      then s'.duplexes[id] == d.(rollback := Committed) &&
           forall t :: t in s'.turns <==> t in s.turns || t == Turn(id, RollbackTurn)
      else s'.duplexes[id] == d.(rollback := Done) && s'.turns == s.turns
    ensures DuplexInv(s', id)
  {
    hide InLine, OpenStatus;
  }

  lemma {:induction false} CheckRollbackOwn(s: State, a: Action)
    requires Inv(s) && Enabled(s, a) && Orderly(s, a)
    requires a.CheckRollback?
    ensures DuplexInv(Next(s, a), a.id)
  {
    hide OneClaimEach, Isolated, OrderInv, LockInv, TurnsInv, InLine, Apply, OpenStatus, DuplexInv;
    assert DuplexInv(s, a.id);
    OpenersOwn(s);
    AsksForRollback(s, Next(s, a), a.id);
  }

  lemma {:induction false} CheckRollbackAside(s: State, a: Action, id: Id)
    requires Inv(s) && Enabled(s, a) && Orderly(s, a)
    requires a.CheckRollback? && id < |s.duplexes| && id != a.id
    ensures |Next(s, a).duplexes| == |s.duplexes| && Undisturbed(s, Next(s, a), id)
  {
    hide OneClaimEach, OrderInv, Isolated, InLine, Live, LockInv, DuplexInv, TurnsInv, OpenStatus, Apply;
  }

  lemma {:induction false} CheckRollbackDuplex(s: State, a: Action, id: Id)
    requires Inv(s) && Enabled(s, a) && Orderly(s, a)
    requires a.CheckRollback? && id < |s.duplexes|
    ensures DuplexInv(Next(s, a), id)
  {
    hide Enabled, Next, DuplexInv, Orderly, LockInv, TurnsInv, OrderInv, Undisturbed;
    assert DuplexInv(s, id);
    if id == a.id {
      CheckRollbackOwn(s, a);
    } else {
      CheckRollbackAside(s, a, id);
      UndisturbedKeeps(s, Next(s, a), id);
    }
  }

  lemma {:induction false} CheckRollbackKeeps(s: State, a: Action)
    requires Inv(s) && Enabled(s, a) && Orderly(s, a)
    requires a.CheckRollback?
    ensures Inv(Next(s, a))
  {
    hide LockInv, TurnsInv, OrderInv, DuplexInv, Isolated;
    CheckRollbackQueues(s, a);
    CheckRollbackOrder(s, a);
    forall id | 0 <= id < |s.duplexes| { CheckRollbackDuplex(s, a, id); }
  }

  lemma {:induction false} RunRollbackQueues(s: State, a: Action)
    requires Inv(s) && Enabled(s, a) && Orderly(s, a)
    requires a.RunRollback?
    ensures LockInv(Next(s, a)) && TurnsInv(Next(s, a))
  {
    hide OrderInv, DuplexInv, Isolated, OneClaimEach, Apply, InLine;
    FirstLeaves(s.turns);
  }

  lemma {:induction false} RunRollbackOrder(s: State, a: Action)
    requires Inv(s) && Enabled(s, a) && Orderly(s, a)
    requires a.RunRollback?
    ensures OrderInv(Next(s, a)) && Isolated(Next(s, a).log)
  {
    hide AllOf, OneClaimEach, LockInv, TurnsInv, InLine, DuplexInv;
    var s', id := Next(s, a), a.id;
    WithSeesLess(s, id, s'.duplexes[id]);
    LeaveKeepsOrder(s, s');
    assert s.transaction.Some? ==> s.transaction == Some(id) by { RollbackIsOwners(s, id); }
  }

  /** A rollback whose turn has come is that of the transaction's opener. */
  lemma {:induction false} RollbackIsOwners(s: State, id: Id)
    requires OrderInv(s) && id < |s.duplexes| && NextTurn(s, Turn(id, RollbackTurn))
    ensures s.transaction.Some? ==> s.transaction == Some(id)
  {
    assert Effective(s.duplexes, s.turns[0]);
  }

  lemma {:induction false} RunRollbackOwn(s: State, a: Action)
    requires Inv(s) && Enabled(s, a) && Orderly(s, a)
    requires a.RunRollback?
    ensures DuplexInv(Next(s, a), a.id)
  {
    hide TurnsInv, OneClaimEach, Isolated, OrderInv, LockInv, InLine, Apply;
    assert DuplexInv(s, a.id);
    HeadLeaves(s);
  }

  lemma {:induction false} RunRollbackAside(s: State, a: Action, id: Id)
    requires Inv(s) && Enabled(s, a) && Orderly(s, a)
    requires a.RunRollback? && id < |s.duplexes| && id != a.id
    ensures |Next(s, a).duplexes| == |s.duplexes| && Undisturbed(s, Next(s, a), id)
  {
    hide TurnsInv, OneClaimEach, Isolated, OrderInv, LockInv, InLine, Apply, DuplexInv, Live;
    HeadLeaves(s);
  }

  lemma {:induction false} RunRollbackDuplex(s: State, a: Action, id: Id)
    requires Inv(s) && Enabled(s, a) && Orderly(s, a)
    requires a.RunRollback? && id < |s.duplexes|
    ensures DuplexInv(Next(s, a), id)
  {
    hide Enabled, Next, DuplexInv, Orderly, LockInv, TurnsInv, OrderInv, Undisturbed;
    assert DuplexInv(s, id);
    if id == a.id {
      RunRollbackOwn(s, a);
    } else {
      RunRollbackAside(s, a, id);
      UndisturbedKeeps(s, Next(s, a), id);
    }
  }

  lemma {:induction false} RunRollbackKeeps(s: State, a: Action)
    requires Inv(s) && Enabled(s, a) && Orderly(s, a)
    requires a.RunRollback?
    ensures Inv(Next(s, a))
  {
    hide LockInv, TurnsInv, OrderInv, DuplexInv, Isolated;
    RunRollbackQueues(s, a);
    RunRollbackOrder(s, a);
    forall id | 0 <= id < |s.duplexes| { RunRollbackDuplex(s, a, id); }
  }

  lemma {:induction false} ReleaseQueues(s: State, a: Action)
    requires Inv(s) && Enabled(s, a) && Orderly(s, a)
    requires a.EndFinal? || a.EndTerminate?
    ensures LockInv(Next(s, a)) && TurnsInv(Next(s, a))
  {
    hide OrderInv, Isolated, Fresh, Effective, MayOpen, InLine, DuplexInv;
  }

  lemma {:induction false} ReleaseOrder(s: State, a: Action)
    requires Inv(s) && Enabled(s, a) && Orderly(s, a)
    requires a.EndFinal? || a.EndTerminate?
    ensures OrderInv(Next(s, a))
  {
    hide LockInv, OneClaimEach, Isolated, InLine;
    assert DuplexInv(s, a.id);
  }

  lemma {:induction false} ReleaseKeeps(s: State, a: Action)
    requires Inv(s) && Enabled(s, a) && Orderly(s, a)
    requires a.EndFinal? || a.EndTerminate?
    ensures Inv(Next(s, a))
  {
    hide OneClaimEach, Fresh, Effective, MayOpen;
    ReleaseQueues(s, a);
    ReleaseOrder(s, a);
    LineAfterVacate(s.lock, a.id);
    var s' := Next(s, a);
    assert DuplexInv(s, a.id);
    forall id | 0 <= id < |s'.duplexes| ensures DuplexInv(s', id) {
      assert DuplexInv(s, id);
    }
  }

  lemma {:induction false} EndDestroyQueues(s: State, a: Action)
    requires Inv(s) && Enabled(s, a) && Orderly(s, a)
    requires a.EndDestroy?
    ensures LockInv(Next(s, a)) && TurnsInv(Next(s, a))
  {
    hide Apply, OneClaimEach, OrderInv, Isolated, InLine, Fresh, Effective, MayOpen;
    assert DuplexInv(s, a.id);
    CancelKeepsLock(s.lock, a.id);
  }

  lemma {:induction false} EndDestroyOrder(s: State, a: Action)
    requires Inv(s) && Enabled(s, a) && Orderly(s, a)
    requires a.EndDestroy?
    ensures OrderInv(Next(s, a))
  {
    hide Apply, OneClaimEach, Isolated, InLine, TurnsInv, Effective, AllOf, DuplexInv;
    var s', id := Next(s, a), a.id;
    CancelKeepsLock(s.lock, id);
    WithSeesLess(s, id, s'.duplexes[id]);
    if s.lock.owner == Some(id) {
      DoneHasNothing(s, id);
      GivingUpKeepsOrder(s, s');
    } else {
      SameTurnsKeepOrder(s, s');
    }
  }

  /** A duplex torn down that owns the session but has nothing left: no transaction is open. */
  lemma {:induction false} DoneHasNothing(s: State, id: Id)
    requires Inv(s) && id < |s.duplexes| && s.lock.owner == Some(id)
    requires s.duplexes[id].rollback.Done? && s.duplexes[id].tornDown
    ensures s.transaction.None? && !MayOpen(s)
    ensures forall t :: t in s.turns && Fresh(s.duplexes, t) ==> s.lock.owner != Some(t.id)
  {
    hide LockInv, TurnsInv, Isolated, Effective, AllOf;
    assert DuplexInv(s, id);
  }

  lemma {:induction false} EndDestroyKeeps(s: State, a: Action)
    requires Inv(s) && Enabled(s, a) && Orderly(s, a)
    requires a.EndDestroy?
    ensures Inv(Next(s, a))
  {
    hide Apply, OneClaimEach, Effective, Fresh, MayOpen;
    EndDestroyQueues(s, a);
    EndDestroyOrder(s, a);
    CancelKeepsLock(s.lock, a.id);
    var s' := Next(s, a);
    assert DuplexInv(s, a.id);
    forall id | 0 <= id < |s'.duplexes| ensures DuplexInv(s', id) {
      assert DuplexInv(s, id);
    }
  }

  /** Every step of the system keeps the invariant, as long as the callers are orderly. */
  lemma {:induction false} NextKeepsInv(s: State, a: Action)
    requires Inv(s) && Enabled(s, a) && Orderly(s, a)
    ensures Inv(Next(s, a))
  {
    hide Inv, Next;
    match a {
      case Submit(_) => SubmitKeeps(s, a);
      case Wake(_) => WakeKeeps(s, a);
      case StartCall(_) => StartCallKeeps(s, a);
      case OpenTransaction(_) | CloseTransaction(_) => TransactionKeeps(s, a);
      case Report(_, _) => ReportKeeps(s, a);
      case FinishCall(_, _, _) => FinishCallKeeps(s, a);
      case RequestRecovery(_, _) => RequestKeeps(s, a);
      case StartRecovery(_) => StartRecoveryKeeps(s, a);
      case FinishRecovery(_) => FinishRecoveryKeeps(s, a);
      case Final(_) | Destroy(_) | Terminate(_) => TeardownStartKeeps(s, a);
      case CheckRollback(_) => CheckRollbackKeeps(s, a);
      case RunRollback(_) => RunRollbackKeeps(s, a);
      case EndFinal(_) | EndTerminate(_) => ReleaseKeeps(s, a);
      case EndDestroy(_) => EndDestroyKeeps(s, a);
    }
  }

  // ---- Runs ----

  function Initial(n: nat): State {
    State(FREE, [], None, false, false, false, None, seq(n, _ => NEW_DUPLEX), [])
  }

  /** The state after a run, if every step of it was enabled and orderly. */
  ghost function After(n: nat, run: seq<Action>): Option<State> {
    if run == [] then Some(Initial(n)) else
    var s := After(n, run[..|run| - 1]);
    var a := run[|run| - 1];
    if s.Some? && Enabled(s.value, a) && Orderly(s.value, a) then Some(Next(s.value, a)) else None
  }

  /**
   * Main result. In every run of `n` duplexes, whenever the backend is in a transaction block its opener owns the
   * session and no other duplex's call is at the backend, and no batch ever ran inside another duplex's transaction.
   */
  lemma {:induction false} SessionsAreIsolated(n: nat, run: seq<Action>)
    requires After(n, run).Some?
    ensures Inv(After(n, run).value) && |After(n, run).value.duplexes| == n
    ensures var s := After(n, run).value;
            && Isolated(s.log)
            && (s.transaction.Some? ==> s.lock.owner == s.transaction
                                        && (s.running.Some? ==> s.running.value.id == s.transaction.value))
  {
    hide Next, Enabled, Orderly;
    if run != [] {
      SessionsAreIsolated(n, run[..|run| - 1]);
      var s, a := After(n, run[..|run| - 1]).value, run[|run| - 1];
      NextKeepsInv(s, a);
      NextKeepsDuplexes(s, a);
    }
  }

  lemma {:induction false} CallsKeepDuplexes(s: State, a: Action)
    requires Enabled(s, a)
    requires a.Submit? || a.Wake? || a.StartCall? || a.Report? || a.FinishCall? || a.EndDestroy?
    ensures |Next(s, a).duplexes| == |s.duplexes|
  {
    hide Apply, JoinBeforeLast, InLine, OpenStatus, Live, GivesUp;
  }

  lemma {:induction false} NextKeepsDuplexes(s: State, a: Action)
    requires Enabled(s, a)
    ensures |Next(s, a).duplexes| == |s.duplexes|
  {
    hide Apply, JoinBeforeLast, InLine, OpenStatus, Live, GivesUp;
    if a.Submit? || a.Wake? || a.StartCall? || a.Report? || a.FinishCall? || a.EndDestroy? {
      CallsKeepDuplexes(s, a);
    }
  }

  /**
   * A duplex whose teardown is complete has no transaction open, none of its batches is at the backend, and those
   * still queued for a turn will not reach it.
   */
  lemma {:induction false} TeardownLeavesNoTransaction(n: nat, run: seq<Action>, id: Id)
    requires After(n, run).Some? && id < |After(n, run).value.duplexes|
    requires After(n, run).value.duplexes[id].rollback.Done?
    ensures var s := After(n, run).value;
            && s.transaction != Some(id) && s.running != Some(Turn(id, CallTurn))
            && (Turn(id, CallTurn) in s.turns ==> !Effective(s.duplexes, Turn(id, CallTurn)))
            && Turn(id, RollbackTurn) !in s.turns
  {
    hide Next, Enabled, Orderly, LockInv, TurnsInv, OrderInv, Isolated;
    SessionsAreIsolated(n, run);
    assert DuplexInv(After(n, run).value, id);
  }

  // ---- Orderly callers are exactly what is needed ----

  /** Whoever opened the transaction block the backend is in owns the session. */
  predicate OpenerOwns(s: State) {
    s.transaction.Some? ==> s.lock.owner == s.transaction
  }

  /** A call that its duplex gave up the session for does not make it the owner again. */
  predicate OrphanOwnsNothing(s: State, id: Id)
    requires id < |s.duplexes|
  {
    var d := s.duplexes[id];
    d.orphaned && Calling(d) ==> s.lock.owner != Some(id)
  }

  ghost predicate OrphansOwnNothing(s: State) {
    forall id :: 0 <= id < |s.duplexes| ==> OrphanOwnsNothing(s, id)
  }

  /** Ownership passes to somebody in line, or to an acquirer. */
  lemma {:induction false} OwnerComesFromLine(l: Lock, op: Op)
    requires !op.Hold?
    ensures var l' := Apply(l, op);
      || l'.owner == l.owner || l'.owner == None
      || (op.Acquire? && l'.owner == Some(op.id)) || InLine(l, l'.owner.value)
  {
    if l.queue != [] { assert InLine(l, l.queue[0].id); }
  }

  lemma {:induction false} InLineWaits(s: State, id: Id)
    requires LockInv(s) && InLine(s.lock, id)
    ensures id < |s.duplexes| && s.duplexes[id].call.Waiting? && s.lock.owner != Some(id)
  {
  }

  /** The operation that a step applies to the lock. */
  function OpOf(s: State, a: Action): Option<Op>
    requires Enabled(s, a)
  {
    var d := s.duplexes[a.id];
    match a
    case Submit(id) => Some(Op.Acquire(id))
    case Report(id, status) => if d.terminated then None else Some(Op.UpdateStatus(id, status))
    case FinishCall(id, _, doomed) => if doomed && !OpenStatus(d.lastSeen) then Some(Op.Release(id)) else None
    case EndFinal(id) => if d.terminated then None else Some(Op.Release(id))
    case EndDestroy(id) => Some(Op.Cancel(id))
    case EndTerminate(id) => Some(Op.Release(id))
    case _ => None
  }

  lemma {:induction false} NextLock(s: State, a: Action)
    requires Enabled(s, a)
    ensures Next(s, a).lock == if OpOf(s, a).Some? then Apply(s.lock, OpOf(s, a).value) else s.lock
    ensures OpOf(s, a).Some? ==> !OpOf(s, a).value.Hold?
    ensures OpOf(s, a).Some? && OpOf(s, a).value.Acquire? ==> s.duplexes[a.id].call.NoCall?
    ensures OpOf(s, a).Some? ==> OpOf(s, a).value.id == a.id
  {
    hide Apply, InLine, OpenStatus, JoinBeforeLast;
  }

  /** The step is a report on which `id` gives up the session. */
  predicate GaveUp(s: State, a: Action, id: Id)
    requires id < |s.duplexes|
  {
    a.Report? && a.id == id && GivesUp(s, id, a.status)
  }

  lemma {:induction false} CallsLeaveOthers(s: State, a: Action, id: Id)
    requires Enabled(s, a) && id < |s.duplexes| && id != a.id
    requires a.Submit? || a.Wake? || a.StartCall? || a.Report? || a.FinishCall? || a.EndDestroy?
    ensures |Next(s, a).duplexes| == |s.duplexes| && Next(s, a).duplexes[id] == s.duplexes[id]
  {
    hide Apply, InLine, OpenStatus, JoinBeforeLast, Live, GivesUp;
  }

  lemma {:induction false} NextLeavesOthers(s: State, a: Action, id: Id)
    requires Enabled(s, a) && id < |s.duplexes| && id != a.id
    ensures |Next(s, a).duplexes| == |s.duplexes| && Next(s, a).duplexes[id] == s.duplexes[id]
  {
    hide Apply, InLine, OpenStatus, JoinBeforeLast, Live, GivesUp;
    if a.Submit? || a.Wake? || a.StartCall? || a.Report? || a.FinishCall? || a.EndDestroy? {
      CallsLeaveOthers(s, a, id);
    }
  }

  predicate Calling(d: Duplex) {
    d.call.Queued? || d.call.Running?
  }

  /** What a step does to its duplex's call: it is orphaned by giving up the session and by nothing else. */
  predicate OrphanedOnlyByGivingUp(s: State, a: Action)
    requires Enabled(s, a)
  {
    |Next(s, a).duplexes| == |s.duplexes| &&
    var d, d' := s.duplexes[a.id], Next(s, a).duplexes[a.id];
    d'.orphaned && Calling(d') ==> Calling(d) && (d.orphaned || GaveUp(s, a, a.id))
  }

  lemma {:induction false} CallsOrphaned(s: State, a: Action)
    requires Enabled(s, a) && (a.StartCall? ==> s.duplexes[a.id].call.Queued?)
    requires a.Submit? || a.Wake? || a.StartCall? || a.Report? || a.FinishCall? || a.EndDestroy?
    ensures OrphanedOnlyByGivingUp(s, a)
  {
    hide Apply, InLine, OpenStatus, JoinBeforeLast, Live;
  }

  lemma {:induction false} TeardownsOrphaned(s: State, a: Action)
    requires Enabled(s, a)
    requires a.Final? || a.Destroy? || a.Terminate? || a.CheckRollback? || a.RunRollback?
    ensures OrphanedOnlyByGivingUp(s, a)
  {
    hide Apply, InLine, OpenStatus, JoinBeforeLast, Live, GaveUp, GivesUp;
  }

  lemma {:induction false} OthersOrphaned(s: State, a: Action)
    requires Enabled(s, a)
    requires !(a.Submit? || a.Wake? || a.StartCall? || a.Report? || a.FinishCall? || a.EndDestroy?)
    ensures OrphanedOnlyByGivingUp(s, a)
  {
    hide Apply, InLine, OpenStatus, JoinBeforeLast, Live, GaveUp, GivesUp;
    if a.Final? || a.Destroy? || a.Terminate? || a.CheckRollback? || a.RunRollback? { TeardownsOrphaned(s, a); }
  }

  lemma {:induction false} NextCall(s: State, a: Action)
    requires Enabled(s, a) && (a.StartCall? ==> s.duplexes[a.id].call.Queued?)
    ensures OrphanedOnlyByGivingUp(s, a)
  {
    hide OrphanedOnlyByGivingUp, Enabled;
    if a.Submit? || a.Wake? || a.StartCall? || a.Report? || a.FinishCall? || a.EndDestroy? {
      CallsOrphaned(s, a);
    } else {
      OthersOrphaned(s, a);
    }
  }

  lemma {:induction false} StartsQueued(s: State, a: Action)
    requires Inv(s) && Enabled(s, a) && a.StartCall?
    ensures s.duplexes[a.id].call.Queued?
  {
    hide LockInv, TurnsInv, OrderInv, Isolated;
    assert DuplexInv(s, a.id);
  }

  lemma {:induction false} NextKeepsOrphan(s: State, a: Action, id: Id)
    requires Inv(s) && Enabled(s, a) && id < |s.duplexes| && OrphanOwnsNothing(s, id)
    ensures id < |Next(s, a).duplexes| && OrphanOwnsNothing(Next(s, a), id)
  {
    hide Next, Enabled, LockInv, TurnsInv, OrderInv, DuplexInv, Isolated, OpOf, InLine, Apply, GaveUp;
    NextLock(s, a);
    if a.StartCall? { StartsQueued(s, a); }
    if id == a.id { NextCall(s, a); } else { NextLeavesOthers(s, a, id); }
    if OpOf(s, a).Some? { OwnerComesFromLine(s.lock, OpOf(s, a).value); }
    if InLine(s.lock, id) { InLineWaits(s, id); }
    if GaveUp(s, a, id) { GivingUpLosesOwnership(s, a, id); }
  }

  lemma {:induction false} GivingUpLosesOwnership(s: State, a: Action, id: Id)
    requires LockInv(s) && Enabled(s, a) && id < |s.duplexes| && GaveUp(s, a, id)
    ensures Next(s, a).lock.owner != Some(id)
  {
  }

  lemma {:induction false} OrphansReached(n: nat, run: seq<Action>)
    requires After(n, run).Some?
    ensures OrphansOwnNothing(After(n, run).value)
  {
    hide Next, Enabled, Orderly, OrphanOwnsNothing, Inv;
    if run == [] {
      forall id | 0 <= id < n ensures OrphanOwnsNothing(Initial(n), id) { NewOwnsNothing(n, id); }
    } else {
      var s, a := After(n, run[..|run| - 1]).value, run[|run| - 1];
      OrphansReached(n, run[..|run| - 1]);
      SessionsAreIsolated(n, run[..|run| - 1]);
      NextKeepsDuplexes(s, a);
      forall id | 0 <= id < |Next(s, a).duplexes| ensures OrphanOwnsNothing(Next(s, a), id) {
        NextKeepsOrphan(s, a, id);
      }
    }
  }

  lemma {:induction false} NewOwnsNothing(n: nat, id: Id)
    requires id < n
    ensures OrphanOwnsNothing(Initial(n), id)
  {
  }

  /** After an orderly run, the next step is orderly if and only if it leaves the opener as owner. */
  lemma {:induction false} OrderlyIffOpenerOwns(n: nat, run: seq<Action>, a: Action)
    requires After(n, run).Some? && Enabled(After(n, run).value, a)
    ensures var s := After(n, run).value; Orderly(s, a) <==> OpenerOwns(Next(s, a))
  {
    hide After, Inv, Next, Enabled;
    var s := After(n, run).value;
    SessionsAreIsolated(n, run);
    if Orderly(s, a) {
      NextKeepsInv(s, a);
      InvOpenerOwns(Next(s, a));
    } else {
      OrphansReached(n, run);
      DisorderlyTakes(s, a);
    }
  }

  lemma {:induction false} InvOpenerOwns(s: State)
    requires Inv(s)
    ensures OpenerOwns(s)
  {
    hide LockInv, TurnsInv, DuplexesInv, Isolated;
  }

  lemma {:induction false} DisorderlyTakes(s: State, a: Action)
    requires Inv(s) && OrphansOwnNothing(s) && Enabled(s, a) && !Orderly(s, a)
    ensures !OpenerOwns(Next(s, a))
  {
    hide LockInv, TurnsInv, OrderInv, Isolated;
    assert DuplexInv(s, a.id) && OrphanOwnsNothing(s, a.id);
  }

  /** The state after a run of steps that are enabled, orderly or not. */
  ghost function Reached(n: nat, run: seq<Action>): Option<State> {
    if run == [] then Some(Initial(n)) else
    var s := Reached(n, run[..|run| - 1]);
    var a := run[|run| - 1];
    if s.Some? && Enabled(s.value, a) then Some(Next(s.value, a)) else None
  }

  /** Every step of the run is orderly. */
  ghost predicate OrderlyRun(n: nat, run: seq<Action>)
    requires Reached(n, run).Some?
  {
    run != [] ==>
      && OrderlyRun(n, run[..|run| - 1])
      && Orderly(Reached(n, run[..|run| - 1]).value, run[|run| - 1])
  }

  /** In every state of the run the opener of a transaction owns the session. */
  ghost predicate OpenerAlwaysOwns(n: nat, run: seq<Action>)
    requires Reached(n, run).Some?
  {
    OpenerOwns(Reached(n, run).value) && (run != [] ==> OpenerAlwaysOwns(n, run[..|run| - 1]))
  }

  lemma {:induction false} OrderlyRunsAreRuns(n: nat, run: seq<Action>)
    requires Reached(n, run).Some?
    ensures OrderlyRun(n, run) <==> After(n, run).Some?
    ensures OrderlyRun(n, run) ==> After(n, run) == Reached(n, run)
  {
    hide Next, Enabled, Orderly;
    if run != [] { OrderlyRunsAreRuns(n, run[..|run| - 1]); }
  }

  /**
   * Main result. Whatever steps are taken, the opener of a transaction owns the session in every state of the run if
   * and only if the callers are orderly in every step.
   */
  lemma {:induction false} OpenerOwnsIffOrderly(n: nat, run: seq<Action>)
    requires Reached(n, run).Some?
    ensures OpenerAlwaysOwns(n, run) <==> OrderlyRun(n, run)
  {
    hide Next, Enabled, Orderly, OpenerOwns, Inv;
    if run == [] {
      NewHasNoOpener(n);
    } else {
      var init := run[..|run| - 1];
      OpenerOwnsIffOrderly(n, init);
      OrderlyRunsAreRuns(n, init);
      if OrderlyRun(n, init) { OrderlyIffOpenerOwns(n, init, run[|run| - 1]); }
    }
  }

  lemma {:induction false} NewHasNoOpener(n: nat)
    ensures OpenerOwns(Initial(n))
  {
  }

  // ---- Why orderly callers are needed ----

  /** The steps of `run` from step `k` on, enabled but not necessarily orderly. */
  function StepsFrom(s: State, run: seq<Action>, k: nat): Option<State>
    requires k <= |run|
    decreases |run| - k
  {
    if k == |run| then Some(s)
    else if Enabled(s, run[k]) then StepsFrom(Next(s, run[k]), run, k + 1) else None
  }

  /** A portal is suspended, its recovery Sync asks for a turn and a batch right behind it; duplex 1 waits. */
  const OVERLAPPING: seq<Action> := [
    Submit(0), StartCall(0), FinishCall(0, true, false), RequestRecovery(0, false), Submit(0), Submit(1),
    StartRecovery(0), Report(0, STATUS_IDLE), FinishRecovery(0)]

  /**
   * Duplex 0 leaves a portal suspended, and its recovery Sync asks for a turn. Before that is answered, duplex 0
   * submits a batch, as owner. The Sync's idle status hands the session to duplex 1; the batch runs all the same and
   * opens a transaction, and the call of duplex 1 runs inside it.
   */
  const DISORDERLY: seq<Action> := OVERLAPPING + [
    StartCall(0), OpenTransaction(0), Report(0, IN_TRANSACTION), FinishCall(0, false, false),
    Wake(1), StartCall(1)]

  /** After step 3: duplex 0 owns the session because its portal is suspended. */
  const SUSPENDED: State := State(
    Lock(Some(0), [], 1, [Settlement(0, Immediate)]), [], None, false, false, false, None,
    [NEW_DUPLEX.(portalSuspended := true), NEW_DUPLEX], [Executed(0, None)])

  /** After step 6: the Sync is first in the queue, a batch of duplex 0 behind it, and duplex 1 waits. */
  const BEFORE_SYNC: State := SUSPENDED.(
    lock := Lock(Some(0), [Waiter(1, 2)], 3, [Settlement(0, Immediate), Settlement(1, Immediate)]),
    turns := [Turn(0, SyncTurn), Turn(0, CallTurn)],
    duplexes := [NEW_DUPLEX.(call := Queued, recovery := Requested, portalSuspended := true),
                 NEW_DUPLEX.(call := Waiting)])

  /** After step 9: the Sync has handed the session to duplex 1, and the batch of duplex 0 is next. */
  const AFTER_SYNC: State := State(
    Lock(Some(1), [], 3, [Settlement(0, Immediate), Settlement(1, Immediate), Settlement(2, Granted)]),
    [Turn(0, CallTurn)], None, true, true, false, None,
    [NEW_DUPLEX.(call := Queued, orphaned := true, lastSeen := Some(STATUS_IDLE)), NEW_DUPLEX.(call := Waiting)],
    [Executed(0, None), Executed(0, None)])

  /** After step 12: duplex 0 has opened a transaction. */
  const OPENED: State := AFTER_SYNC.(
    turns := [], running := Some(Turn(0, CallTurn)), idleReported := false, transaction := Some(0),
    duplexes := [NEW_DUPLEX.(call := Running, orphaned := true, lastSeen := Some(IN_TRANSACTION)),
                 NEW_DUPLEX.(call := Waiting)],
    log := AFTER_SYNC.log + [Executed(0, None)])

  lemma OverlappingSuspends(r: seq<Action>)
    requires OVERLAPPING <= r
    ensures StepsFrom(Initial(2), r, 0) == StepsFrom(SUSPENDED, r, 3)
  {
    var s1 := Next(Initial(2), r[0]);
    var s2 := Next(s1, r[1]);
    assert Next(s2, r[2]) == SUSPENDED;
    assert StepsFrom(s1, r, 1) == StepsFrom(SUSPENDED, r, 3);
  }

  lemma OverlappingSubmits(r: seq<Action>)
    requires OVERLAPPING <= r
    ensures StepsFrom(SUSPENDED, r, 3) == StepsFrom(BEFORE_SYNC, r, 6)
  {
    var s4 := Next(SUSPENDED, r[3]);
    var s5 := Next(s4, r[4]);
    assert Next(s5, r[5]) == BEFORE_SYNC;
    assert StepsFrom(s4, r, 4) == StepsFrom(BEFORE_SYNC, r, 6);
  }

  lemma OverlappingSyncs(r: seq<Action>)
    requires OVERLAPPING <= r
    ensures StepsFrom(BEFORE_SYNC, r, 6) == StepsFrom(AFTER_SYNC, r, 9)
  {
    var s7 := Next(BEFORE_SYNC, r[6]);
    var s8 := Next(s7, r[7]);
    assert Next(s8, r[8]) == AFTER_SYNC;
    assert StepsFrom(s7, r, 7) == StepsFrom(AFTER_SYNC, r, 9);
  }

  lemma Overlaps(r: seq<Action>)
    requires OVERLAPPING <= r
    ensures StepsFrom(Initial(2), r, 0) == StepsFrom(AFTER_SYNC, r, 9)
  {
    hide StepsFrom, Initial;
    OverlappingSuspends(r);
    OverlappingSubmits(r);
    OverlappingSyncs(r);
  }

  lemma DisorderlyOpens()
    ensures StepsFrom(AFTER_SYNC, DISORDERLY, 9) == StepsFrom(OPENED, DISORDERLY, 12)
  {
    var r := DISORDERLY;
    var s10 := Next(AFTER_SYNC, r[9]);
    var s11 := Next(s10, r[10]);
    assert Next(s11, r[11]) == OPENED;
    assert StepsFrom(s10, r, 10) == StepsFrom(OPENED, r, 12);
  }

  lemma DisorderlyBreaksIn()
    ensures StepsFrom(OPENED, DISORDERLY, 12).Some?
    ensures Executed(1, Some(0)) in StepsFrom(OPENED, DISORDERLY, 12).value.log
  {
    var r := DISORDERLY;
    var s13 := Next(OPENED, r[12]);
    var s14 := Next(s13, r[13]);
    var s15 := Next(s14, r[14]);
    assert s15.log[3] == Executed(1, Some(0));
    assert StepsFrom(s15, r, 15) == Some(s15);
    assert StepsFrom(s13, r, 13) == Some(s15);
  }

  /**
   * A transaction opened by a batch that was sent before the recovery Sync was answered takes in another duplex's
   * batch, so the condition of `Orderly` cannot be dropped.
   */
  lemma OrphansMustNotOpen()
    ensures StepsFrom(Initial(2), DISORDERLY, 0).Some?
    ensures Executed(1, Some(0)) in StepsFrom(Initial(2), DISORDERLY, 0).value.log
  {
    hide StepsFrom, Initial;
    Overlaps(DISORDERLY);
    DisorderlyOpens();
    DisorderlyBreaksIn();
  }
}
