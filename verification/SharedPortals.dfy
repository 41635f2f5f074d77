/**
 * Suspended portals on a shared session (src/utils/session-lock.ts, src/duplex/index.ts): a batch that ends in Flush
 * leaves its portal suspended without any ReadyForQuery, and its duplex keeps the session for it.
 */
module SharedPortals {
  import opened Wrappers
  import opened SessionLock
  import opened SharedSession

  /** A live duplex has a suspended portal: no status reported since the batch that left it, no teardown begun. */
  predicate Holds(s: State, id: Id)
    requires id < |s.duplexes|
  {
    var d := s.duplexes[id];
    d.portalSuspended && Live(d) && !d.finished
  }

  /** `id` owns the session, and nothing of another duplex is at the backend or will get there. */
  ghost predicate Alone(s: State, id: Id) {
    && s.lock.owner == Some(id)
    && (s.running.Some? ==> s.running.value.id == id)
    && forall t :: t in s.turns && Effective(s.duplexes, t) ==> t.id == id
  }

  ghost predicate PortalSafe(s: State, id: Id)
    requires id < |s.duplexes|
  {
    Holds(s, id) ==> Alone(s, id)
  }

  ghost predicate PortalsAreSafe(s: State) {
    forall id: Id :: id < |s.duplexes| ==> PortalSafe(s, id)
  }

  /** A batch that was sent before a recovery Sync of its duplex was answered leaves no portal suspended. */
  predicate Considerate(s: State, a: Action)
    requires Enabled(s, a)
  {
    a.FinishCall? && a.suspends ==> !s.duplexes[a.id].orphaned || !Live(s.duplexes[a.id])
  }

  // ---- Who gets to the backend ----

  /** What a step adds to the queue is the owner's or will not reach the backend; what goes inside was in the queue. */
  ghost predicate TurnsStep(s: State, s': State) {
    && (forall t :: t in s'.turns && Effective(s'.duplexes, t) ==>
          (t in s.turns && Effective(s.duplexes, t)) || s'.lock.owner == Some(t.id))
    && (s'.running.Some? ==>
          s'.running == s.running || (s'.running.value in s.turns && Effective(s.duplexes, s'.running.value)))
  }

  lemma {:induction false} AloneKept(s: State, s': State, id: Id)
    requires Alone(s, id) && TurnsStep(s, s') && s'.lock.owner == Some(id)
    ensures Alone(s', id)
  {
    hide Effective;
  }

  lemma {:induction false} QuietStep(s: State, a: Action)
    requires Enabled(s, a)
    requires a.OpenTransaction? || a.CloseTransaction? || a.Report? || a.FinishCall? || a.FinishRecovery?
             || a.EndFinal? || a.EndTerminate? || a.EndDestroy?
    ensures TurnsStep(s, Next(s, a))
  {
    hide Apply, InLine, OpenStatus;
  }

  lemma {:induction false} TeardownStep(s: State, a: Action)
    requires Enabled(s, a) && (a.Final? || a.Destroy? || a.Terminate?)
    ensures TurnsStep(s, Next(s, a))
  {
    hide Apply, InLine, OpenStatus;
  }

  /** The head of the queue leaves, and perhaps goes inside. */
  lemma {:induction false} HeadLeavesStep(s: State, s': State)
    requires s.turns != [] && s'.turns == s.turns[1..] && SeesLess(s, s')
    requires s'.running.Some? ==>
               s'.running == s.running || (s'.running.value == s.turns[0] && Effective(s.duplexes, s.turns[0]))
    ensures TurnsStep(s, s')
  {
    hide Effective, Fresh;
    assert forall t :: t in s.turns[1..] ==> t in s.turns;
  }

  lemma {:induction false} StartCallStep(s: State, a: Action)
    requires Enabled(s, a) && a.StartCall?
    ensures TurnsStep(s, Next(s, a))
  {
    hide Apply, InLine, OpenStatus, JoinBeforeLast, GivesUp, TurnsStep, Fresh;
    var s', id := Next(s, a), a.id;
    WithSeesLess(s, id, s'.duplexes[id]);
    HeadLeavesStep(s, s');
  }

  lemma {:induction false} StartRecoveryStep(s: State, a: Action)
    requires Enabled(s, a) && a.StartRecovery?
    ensures TurnsStep(s, Next(s, a))
  {
    hide Apply, InLine, OpenStatus, JoinBeforeLast, GivesUp, TurnsStep, Fresh;
    var s', id := Next(s, a), a.id;
    WithSeesLess(s, id, s'.duplexes[id]);
    HeadLeavesStep(s, s');
  }

  lemma {:induction false} RollingBackStep(s: State, a: Action)
    requires Enabled(s, a) && a.RunRollback?
    ensures TurnsStep(s, Next(s, a))
  {
    hide Apply, InLine, OpenStatus, JoinBeforeLast, GivesUp;
    assert forall t :: t in s.turns[1..] ==> t in s.turns;
  }

  lemma {:induction false} AskedStep(s: State, s': State, t: Turn)
    requires s'.turns == s.turns + [t] && SeesLess(s, s') && s'.running == s.running
    requires Effective(s'.duplexes, t) ==> s'.lock.owner == Some(t.id)
    ensures TurnsStep(s, s')
  {
    hide Effective, Fresh;
  }

  lemma {:induction false} SameTurnsStep(s: State, s': State)
    requires s'.turns == s.turns && SeesLess(s, s') && s'.running == s.running
    ensures TurnsStep(s, s')
  {
    hide Effective, Fresh;
  }

  /** Who asks for the session has no call in the queue, and who was woken owns it. */
  lemma {:induction false} CallNotQueued(s: State, a: Action)
    requires SharedSession.Inv(s) && Enabled(s, a)
    ensures a.Submit? || a.Wake? ==> Turn(a.id, CallTurn) !in s.turns
    ensures a.Wake? && Live(s.duplexes[a.id]) ==> s.lock.owner == Some(a.id)
  {
    hide LockInv, TurnsInv, OrderInv, Isolated, InLine;
    assert DuplexInv(s, a.id);
  }

  lemma {:induction false} SubmitStep(s: State, a: Action)
    requires SharedSession.Inv(s) && Enabled(s, a) && a.Submit?
    ensures TurnsStep(s, Next(s, a))
  {
    hide SharedSession.Inv, InLine, OpenStatus, Apply, TurnsStep, SeesLess, Fresh;
    var s', id := Next(s, a), a.id;
    CallNotQueued(s, a);
    WithSeesLess(s, id, s'.duplexes[id]);
    SeesLessAlike(s, With(s, id, s'.duplexes[id]), s');
    if s'.turns == s.turns {
      SameTurnsStep(s, s');
    } else {
      AskedStep(s, s', Turn(id, CallTurn));
    }
  }

  lemma {:induction false} WakeStep(s: State, a: Action)
    requires SharedSession.Inv(s) && Enabled(s, a) && a.Wake?
    ensures TurnsStep(s, Next(s, a))
  {
    hide SharedSession.Inv, InLine, OpenStatus, Apply, TurnsStep, SeesLess, Fresh;
    var s', id := Next(s, a), a.id;
    CallNotQueued(s, a);
    WithSeesLess(s, id, s'.duplexes[id]);
    SeesLessAlike(s, With(s, id, s'.duplexes[id]), s');
    if s'.turns == s.turns {
      SameTurnsStep(s, s');
    } else {
      AskedStep(s, s', Turn(id, CallTurn));
    }
  }

  lemma {:induction false} CheckRollbackStep(s: State, a: Action)
    requires SharedSession.Inv(s) && Enabled(s, a) && a.CheckRollback?
    ensures TurnsStep(s, Next(s, a))
  {
    hide SharedSession.Inv, InLine, OpenStatus, Apply, TurnsStep, SeesLess, Fresh;
    var s', id := Next(s, a), a.id;
    CallNotQueued(s, a);
    WithSeesLess(s, id, s'.duplexes[id]);
    SeesLessAlike(s, With(s, id, s'.duplexes[id]), s');
    if s'.turns == s.turns {
      SameTurnsStep(s, s');
    } else {
      AskedStep(s, s', Turn(id, RollbackTurn));
    }
  }

  lemma {:induction false} SeesLessAlike(s: State, t: State, s': State)
    requires SeesLess(s, t) && s'.duplexes == t.duplexes
    ensures SeesLess(s, s')
  {
    hide Effective, Fresh;
  }

  lemma {:induction false} RequestingStep(s: State, a: Action)
    requires SharedSession.Inv(s) && Enabled(s, a) && a.RequestRecovery?
    ensures TurnsStep(s, Next(s, a))
  {
    hide LockInv, OrderInv, Isolated, InLine, OpenStatus, DuplexInv, JoinBeforeLast;
    if a.first && s.lock.owner == Some(a.id) {
      SyncIsNew(s, a.id);
      JoinsBeforeLast(s.turns, Turn(a.id, SyncTurn));
    }
  }

  lemma {:induction false} EveryStep(s: State, a: Action)
    requires SharedSession.Inv(s) && Enabled(s, a)
    ensures TurnsStep(s, Next(s, a))
  {
    hide SharedSession.Inv, Enabled, Next, TurnsStep;
    match a {
      case Submit(_) => SubmitStep(s, a);
      case Wake(_) => WakeStep(s, a);
      case CheckRollback(_) => CheckRollbackStep(s, a);
      case RequestRecovery(_, _) => RequestingStep(s, a);
      case StartCall(_) => StartCallStep(s, a);
      case StartRecovery(_) => StartRecoveryStep(s, a);
      case RunRollback(_) => RollingBackStep(s, a);
      case Final(_) | Destroy(_) | Terminate(_) => TeardownStep(s, a);
      case _ => QuietStep(s, a);
    }
  }

  // ---- Who keeps the session ----

  /**
   * The step makes duplex `id` give the session up: an idle status or a doomed call outside a transaction while it is
   * live, or the end of its teardown.
   */
  predicate Relinquishes(s: State, a: Action, id: Id)
    requires Enabled(s, a)
  {
    var d := s.duplexes[a.id];
    a.id == id &&
    match a
    case Report(_, status) => status == 0x49 && !d.terminated
    case FinishCall(_, _, doomed) => doomed && d.lastSeen !in {Some(0x54), Some(0x45)}
    case EndFinal(_) => !d.terminated
    case EndDestroy(_) => true
    case EndTerminate(_) => true
    case _ => false
  }

  /** The owner keeps the session until it relinquishes it; then it goes to the first in line. */
  lemma {:induction false} OwnerKeepsOrPassesOn(s: State, a: Action, id: Id)
    requires Enabled(s, a) && s.lock.owner == Some(id)
    ensures Next(s, a).lock.owner ==
      if !Relinquishes(s, a, id) then Some(id)
      else if s.lock.queue == [] then None else Some(s.lock.queue[0].id)
  {
    hide Next, Enabled, OpOf, Apply;
    NextLock(s, a);
    RelinquishesIff(s, a, id);
    if OpOf(s, a).Some? { OwnershipMoves(s.lock, OpOf(s, a).value); }
  }

  lemma {:induction false} RelinquishesIff(s: State, a: Action, id: Id)
    requires Enabled(s, a) && s.lock.owner == Some(id)
    ensures Relinquishes(s, a, id) <==> OpOf(s, a).Some? && Vacates(s.lock, OpOf(s, a).value)
  {
  }

  /** The owner loses the session only by its own idle status, its own release or its own cancellation. */
  lemma {:induction false} OnlyTheOwnerGivesUp(s: State, a: Action, id: Id)
    requires Enabled(s, a) && s.lock.owner == Some(id) && Next(s, a).lock.owner != Some(id)
    ensures a.id == id
    ensures || (a.Report? && a.status == STATUS_IDLE) || (a.FinishCall? && a.doomed)
            || a.EndFinal? || a.EndDestroy? || a.EndTerminate?
  {
    hide Next, Enabled;
    OwnerKeepsOrPassesOn(s, a, id);
  }

  /** Where a portal can have been left suspended, and that no giving up goes with it. */
  predicate HeldBefore(s: State, a: Action)
    requires Enabled(s, a)
  {
    && (Holds(s, a.id) || (a.FinishCall? && a.suspends && Live(s.duplexes[a.id])))
    && !a.Report? && (a.FinishCall? ==> a.suspends && !a.doomed)
    && !a.EndFinal? && !a.EndDestroy? && !a.EndTerminate?
  }

  lemma {:induction false} CallsHold(s: State, a: Action)
    requires Enabled(s, a) && a.id < |Next(s, a).duplexes| && Holds(Next(s, a), a.id)
    requires a.Submit? || a.Wake? || a.StartCall? || a.Report? || a.FinishCall? || a.EndDestroy?
    ensures HeldBefore(s, a)
  {
    hide Apply, InLine, OpenStatus, JoinBeforeLast, GivesUp;
  }

  lemma {:induction false} TeardownsHold(s: State, a: Action)
    requires Enabled(s, a) && a.id < |Next(s, a).duplexes| && Holds(Next(s, a), a.id)
    requires a.Final? || a.Destroy? || a.Terminate? || a.CheckRollback? || a.RunRollback?
    ensures HeldBefore(s, a)
  {
  }

  lemma {:induction false} OthersHold(s: State, a: Action)
    requires Enabled(s, a) && a.id < |Next(s, a).duplexes| && Holds(Next(s, a), a.id)
    requires !(a.Submit? || a.Wake? || a.StartCall? || a.Report? || a.FinishCall? || a.EndDestroy?)
    ensures HeldBefore(s, a)
  {
    hide Apply, InLine, OpenStatus, JoinBeforeLast, GivesUp;
    if a.Final? || a.Destroy? || a.Terminate? || a.CheckRollback? || a.RunRollback? { TeardownsHold(s, a); }
  }

  lemma {:induction false} HoldsAfter(s: State, a: Action, id: Id)
    requires Enabled(s, a) && id < |s.duplexes| == |Next(s, a).duplexes| && Holds(Next(s, a), id)
    ensures if a.id == id then HeldBefore(s, a) else Holds(s, id)
  {
    hide Enabled, Next, HeldBefore;
    if a.id != id {
      NextLeavesOthers(s, a, id);
    } else if a.Submit? || a.Wake? || a.StartCall? || a.Report? || a.FinishCall? || a.EndDestroy? {
      CallsHold(s, a);
    } else {
      OthersHold(s, a);
    }
  }

  lemma {:induction false} SuspendingIsAlone(s: State, a: Action)
    requires SharedSession.Inv(s) && Enabled(s, a) && Considerate(s, a)
    requires a.FinishCall? && a.suspends && Live(s.duplexes[a.id])
    ensures Alone(s, a.id)
  {
    hide LockInv, TurnsInv, DuplexInv, Isolated, Effective;
    assert MayOpen(s);
    forall t | t in s.turns && Effective(s.duplexes, t) ensures t.id == a.id {
      var i :| 0 <= i < |s.turns| && s.turns[i] == t;
    }
  }

  lemma {:induction false} StepKeepsPortals(s: State, a: Action)
    requires SharedSession.Inv(s) && Enabled(s, a) && Considerate(s, a) && PortalsAreSafe(s)
    ensures PortalsAreSafe(Next(s, a))
  {
    hide SharedSession.Inv, Enabled, Next, Holds, Alone, TurnsStep, Considerate;
    NextKeepsDuplexes(s, a);
    EveryStep(s, a);
    forall id: Id | id < |s.duplexes| && Holds(Next(s, a), id) ensures Alone(Next(s, a), id) {
      HoldsAfter(s, a, id);
      if Holds(s, id) {
        assert PortalSafe(s, id);
      } else {
        SuspendingIsAlone(s, a);
      }
      AloneOwns(s, id);
      if Next(s, a).lock.owner != Some(id) { OnlyTheOwnerGivesUp(s, a, id); }
      AloneKept(s, Next(s, a), id);
    }
  }

  lemma {:induction false} AloneOwns(s: State, id: Id)
    ensures Alone(s, id) ==> s.lock.owner == Some(id)
  {
  }

  // ---- Runs ----

  ghost predicate ConsiderateRun(n: nat, run: seq<Action>)
    requires After(n, run).Some?
  {
    run != [] ==>
      && ConsiderateRun(n, run[..|run| - 1])
      && Considerate(After(n, run[..|run| - 1]).value, run[|run| - 1])
  }

  /**
   * Main result. In every run of orderly and considerate callers, a live duplex with a suspended portal owns the
   * session, and no batch or Sync of another duplex is at the backend or will get there, until a status is reported
   * or its teardown begins.
   */
  lemma {:induction false} PortalsAreProtected(n: nat, run: seq<Action>)
    requires After(n, run).Some? && ConsiderateRun(n, run)
    ensures PortalsAreSafe(After(n, run).value)
  {
    hide Next, Enabled, Orderly, Considerate, SharedSession.Inv, PortalSafe;
    if run == [] {
      NewHoldsNothing(n);
    } else {
      var init := run[..|run| - 1];
      PortalsAreProtected(n, init);
      SessionsAreIsolated(n, init);
      StepKeepsPortals(After(n, init).value, run[|run| - 1]);
    }
  }

  lemma {:induction false} NewHoldsNothing(n: nat)
    ensures PortalsAreSafe(Initial(n))
  {
  }

  /** After such a run the next step is considerate if and only if it leaves every suspended portal safe. */
  lemma {:induction false} ConsiderateIffSafe(n: nat, run: seq<Action>, a: Action)
    requires After(n, run).Some? && ConsiderateRun(n, run) && Enabled(After(n, run).value, a)
    ensures var s := After(n, run).value; Considerate(s, a) <==> PortalsAreSafe(Next(s, a))
  {
    hide After, SharedSession.Inv, Next, Enabled, Considerate, PortalsAreSafe;
    var s := After(n, run).value;
    PortalsAreProtected(n, run);
    SessionsAreIsolated(n, run);
    if Considerate(s, a) {
      StepKeepsPortals(s, a);
    } else {
      OrphansReached(n, run);
      InconsiderateExposes(s, a);
    }
  }

  lemma {:induction false} InconsiderateExposes(s: State, a: Action)
    requires SharedSession.Inv(s) && OrphansOwnNothing(s) && Enabled(s, a) && !Considerate(s, a)
    ensures !PortalsAreSafe(Next(s, a))
  {
    hide LockInv, TurnsInv, OrderInv, Isolated, Effective;
    assert DuplexInv(s, a.id) && OrphanOwnsNothing(s, a.id);
    assert !PortalSafe(Next(s, a), a.id);
  }

  /** In every state of the run every suspended portal is safe. */
  ghost predicate PortalsAlwaysSafe(n: nat, run: seq<Action>)
    requires After(n, run).Some?
  {
    PortalsAreSafe(After(n, run).value) && (run != [] ==> PortalsAlwaysSafe(n, run[..|run| - 1]))
  }

  /** Over an orderly run, suspended portals are safe in every state if and only if the callers are considerate. */
  lemma {:induction false} SafeIffConsiderate(n: nat, run: seq<Action>)
    requires After(n, run).Some?
    ensures PortalsAlwaysSafe(n, run) <==> ConsiderateRun(n, run)
  {
    hide Next, Enabled, Orderly, Considerate, SharedSession.Inv, PortalsAreSafe;
    if run == [] {
      NewHoldsNothing(n);
    } else {
      var init := run[..|run| - 1];
      SafeIffConsiderate(n, init);
      if ConsiderateRun(n, init) { ConsiderateIffSafe(n, init, run[|run| - 1]); }
    }
  }

  /** A batch sent before the recovery Sync was answered leaves a portal suspended, and duplex 1 comes in between. */
  const INCONSIDERATE: seq<Action> := OVERLAPPING + [StartCall(0), FinishCall(0, true, false), Wake(1), StartCall(1)]

  lemma OrphansMustNotSuspend()
    ensures var s := StepsFrom(Initial(2), INCONSIDERATE, 0);
      s.Some? && |s.value.duplexes| == 2 && Holds(s.value, 0) && s.value.running == Some(Turn(1, CallTurn))
  {
    hide StepsFrom, Initial;
    Overlaps(INCONSIDERATE);
    InconsiderateEnds();
  }

  lemma InconsiderateEnds()
    ensures var s := StepsFrom(AFTER_SYNC, INCONSIDERATE, 9);
      s.Some? && |s.value.duplexes| == 2 && Holds(s.value, 0) && s.value.running == Some(Turn(1, CallTurn))
  {
    var r := INCONSIDERATE;
    var s10 := Next(AFTER_SYNC, r[9]);
    var s11 := Next(s10, r[10]);
    var s12 := Next(s11, r[11]);
    var s13 := Next(s12, r[12]);
    assert StepsFrom(s13, r, 13) == Some(s13);
    assert StepsFrom(s11, r, 11) == Some(s13);
    assert StepsFrom(AFTER_SYNC, r, 9) == StepsFrom(s11, r, 11);
  }
}
