/**
 * The session lock (src/utils/session-lock.ts): ownership is taken when an operation is admitted and given up on
 * the owner's idle status, by release, or by cancel. A pending acquire is a ticket; settling its promise is an
 * entry of the settlement log.
 */
module SessionLock {
  import opened Wrappers

  type Id = nat
  type Ticket = nat
  type Status = nat

  const STATUS_IDLE: Status := 0x49

  datatype Waiter = Waiter(id: Id, ticket: Ticket)

  /** How an acquire ended: at once, from the queue, or by cancellation. */
  datatype Outcome = Immediate | Granted | Rejected

  datatype Settlement = Settlement(ticket: Ticket, outcome: Outcome)

  datatype Lock = Lock(owner: Option<Id>, queue: seq<Waiter>, next: Ticket, settled: seq<Settlement>)

  datatype Op =
    | Acquire(id: Id)
    | Hold(id: Id)
    | UpdateStatus(id: Id, status: Status)
    | Release(id: Id)
    | Cancel(id: Id)

  const FREE: Lock := Lock(None, [], 0, [])

  // ---- Meaning of the operations ----

  /** Gives up ownership and grants it to the first waiter, if any. */
  function Vacate(l: Lock): Lock {
    if l.queue == [] then l.(owner := None)
    else l.(owner := Some(l.queue[0].id), queue := l.queue[1..],
            settled := l.settled + [Settlement(l.queue[0].ticket, Granted)])
  }

  function VacateIf(l: Lock, id: Id): Lock {
    if l.owner == Some(id) then Vacate(l) else l
  }

  function Others(queue: seq<Waiter>, id: Id): seq<Waiter> {
    if queue == [] then []
    else Others(queue[..|queue| - 1], id)
         + if queue[|queue| - 1].id == id then [] else [queue[|queue| - 1]]
  }

  lemma {:induction false} OthersMembers(queue: seq<Waiter>, id: Id)
    ensures forall w :: w in Others(queue, id) <==> w in queue && w.id != id
  {
    if queue != [] {
      var init, last := queue[..|queue| - 1], queue[|queue| - 1];
      OthersMembers(init, id);
      assert queue == init + [last];
    }
  }

  /** Looking at one more waiter. */
  lemma {:induction false} LookAtOne(queue: seq<Waiter>, id: Id, i: nat)
    requires i < |queue|
    ensures Others(queue[..i + 1], id) == Others(queue[..i], id) + if queue[i].id == id then [] else [queue[i]]
    ensures Rejections(queue[..i + 1], id)
         == Rejections(queue[..i], id) + if queue[i].id == id then [Settlement(queue[i].ticket, Rejected)] else []
  {
    assert queue[..i + 1][..i] == queue[..i];
  }

  function Rejections(queue: seq<Waiter>, id: Id): seq<Settlement> {
    if queue == [] then []
    else Rejections(queue[..|queue| - 1], id)
         + if queue[|queue| - 1].id == id then [Settlement(queue[|queue| - 1].ticket, Rejected)] else []
  }

  lemma {:induction false} NothingYet(id: Id)
    ensures Others([], id) == [] && Rejections([], id) == []
  {
  }

  lemma {:induction false} RejectsSomeone(queue: seq<Waiter>, id: Id)
    ensures Rejections(queue, id) != [] <==> exists w :: w in queue && w.id == id
  {
    if queue != [] {
      var init, last := queue[..|queue| - 1], queue[|queue| - 1];
      RejectsSomeone(init, id);
      assert queue == init + [last];
    }
  }

  function Forget(l: Lock, id: Id): Lock {
    l.(queue := Others(l.queue, id), settled := l.settled + Rejections(l.queue, id))
  }

  function Apply(l: Lock, op: Op): Lock {
    match op
    case Acquire(id) =>
      var l' := l.(next := l.next + 1);
      if l.owner.None? || l.owner == Some(id) then
        l'.(owner := Some(id), settled := l.settled + [Settlement(l.next, Immediate)])
      else l'.(queue := l.queue + [Waiter(id, l.next)])
    case Hold(id) => if l.owner.None? then l.(owner := Some(id)) else l
    case UpdateStatus(id, status) => if status == STATUS_IDLE then VacateIf(l, id) else l
    case Release(id) => VacateIf(l, id)
    case Cancel(id) => Forget(VacateIf(l, id), id)
  }

  function Run(l: Lock, ops: seq<Op>): Lock {
    if ops == [] then l else Apply(Run(l, ops[..|ops| - 1]), ops[|ops| - 1])
  }

  // ---- Invariant of every run ----

  ghost predicate IsSettled(l: Lock, t: Ticket) {
    exists i :: 0 <= i < |l.settled| && l.settled[i].ticket == t
  }

  ghost predicate IsQueued(l: Lock, t: Ticket) {
    exists i :: 0 <= i < |l.queue| && l.queue[i].ticket == t
  }

  /** Waiters are queued in ticket order, and no ticket is settled twice. */
  ghost predicate Ordered(l: Lock) {
    && (forall i, j :: 0 <= i < j < |l.queue| ==> l.queue[i].ticket < l.queue[j].ticket)
    && (forall i, j :: 0 <= i < j < |l.settled| ==> l.settled[i].ticket != l.settled[j].ticket)
  }

  /** Every issued ticket is queued or settled, never both; no other ticket is. */
  ghost predicate Accounted(l: Lock) {
    && (forall t: Ticket :: t < l.next <==> IsSettled(l, t) || IsQueued(l, t))
    && (forall t: Ticket :: !(IsSettled(l, t) && IsQueued(l, t)))
  }

  /** Grants from the queue come in ticket order and before everyone who still waits. */
  ghost predicate GrantsInOrder(l: Lock) {
    && (forall i, j :: 0 <= i < j < |l.settled| && l.settled[i].outcome.Granted? && l.settled[j].outcome.Granted? ==>
          l.settled[i].ticket < l.settled[j].ticket)
    && (forall i, j :: 0 <= i < |l.settled| && 0 <= j < |l.queue| && l.settled[i].outcome.Granted? ==>
          l.settled[i].ticket < l.queue[j].ticket)
  }

  ghost predicate Inv(l: Lock) {
    && (l.owner.None? ==> l.queue == [])
    && Ordered(l) && Accounted(l) && GrantsInOrder(l)
  }

  lemma {:induction false} VacateKeepsInv(l: Lock)
    requires Inv(l)
    ensures Inv(Vacate(l))
  {
    var l' := Vacate(l);
    if l.queue != [] {
      assert l'.queue == l.queue[..0] + l.queue[0 + 1..];
      SettleWaiter(l, l', 0, Granted);
    } else {
      assert forall t: Ticket :: IsQueued(l', t) == IsQueued(l, t) && IsSettled(l', t) == IsSettled(l, t);
    }
  }

  /** Moving waiter `i` from the queue to the log keeps the invariant; only the first waiter may be granted. */
  lemma {:induction false} SettleWaiter(l: Lock, l': Lock, i: nat, outcome: Outcome)
    requires Inv(l) && i < |l.queue| && (outcome.Rejected? || (outcome.Granted? && i == 0))
    requires l'.queue == l.queue[..i] + l.queue[i + 1..] && l'.next == l.next && l'.owner.Some?
    requires l'.settled == l.settled + [Settlement(l.queue[i].ticket, outcome)]
    ensures Inv(l')
  {
    hide IsQueued, IsSettled;
    var t := l.queue[i].ticket;
    SettledSnoc(l, l', Settlement(t, outcome));
    QueuedRemove(l, l', i);
    SettledKnown(l);
    assert Accounted(l');
    assert Ordered(l');
    assert GrantsInOrder(l');
  }

  lemma {:induction false} SettledKnown(l: Lock)
    ensures forall j :: 0 <= j < |l.settled| ==> IsSettled(l, l.settled[j].ticket)
  {
  }

  lemma {:induction false} RemoveAt(q: seq<Waiter>, q': seq<Waiter>, i: nat)
    requires i < |q| && q' == q[..i] + q[i + 1..]
    ensures |q'| == |q| - 1
    ensures forall j :: 0 <= j < i ==> q'[j] == q[j]
    ensures forall j :: i <= j < |q'| ==> q'[j] == q[j + 1]
  {
  }

  /** Taking out waiter `i` takes out its ticket and no other. */
  lemma {:induction false} QueuedRemove(l: Lock, l': Lock, i: nat)
    requires Ordered(l) && i < |l.queue| && l'.queue == l.queue[..i] + l.queue[i + 1..]
    ensures forall t: Ticket :: IsQueued(l', t) <==> IsQueued(l, t) && t != l.queue[i].ticket
    ensures IsQueued(l, l.queue[i].ticket)
    ensures |l'.queue| == |l.queue| - 1
    ensures forall j :: 0 <= j < i ==> l'.queue[j] == l.queue[j]
    ensures forall j :: i <= j < |l'.queue| ==> l'.queue[j] == l.queue[j + 1]
  {
    RemoveAt(l.queue, l'.queue, i);
    forall t: Ticket | IsQueued(l, t) && t != l.queue[i].ticket ensures IsQueued(l', t) {
      var j :| 0 <= j < |l.queue| && l.queue[j].ticket == t;
      assert l'.queue[if j < i then j else j - 1].ticket == t;
    }
    forall t: Ticket | IsQueued(l', t) ensures IsQueued(l, t) && t != l.queue[i].ticket {
      var j :| 0 <= j < |l'.queue| && l'.queue[j].ticket == t;
      assert l.queue[if j < i then j else j + 1].ticket == t;
    }
  }

  lemma {:induction false} SettledSnoc(l: Lock, l': Lock, s: Settlement)
    requires l'.settled == l.settled + [s]
    ensures forall t: Ticket :: IsSettled(l', t) <==> IsSettled(l, t) || t == s.ticket
  {
    forall t: Ticket ensures IsSettled(l', t) <==> IsSettled(l, t) || t == s.ticket {
      if IsSettled(l, t) {
        var i :| 0 <= i < |l.settled| && l.settled[i].ticket == t;
        assert l'.settled[i].ticket == t;
      }
      if t == s.ticket {
        assert l'.settled[|l.settled|].ticket == t;
      }
    }
  }

  /** Rejecting the waiters of `id` one by one, from the back of the queue to be scanned. */
  lemma {:induction false} ForgetKeepsInv(l: Lock, id: Id)
    requires Inv(l)
    ensures Inv(Forget(l, id))
  {
    ForgetTail(l, id, |l.queue|);
    assert l.queue[..|l.queue|] == l.queue && l.queue[|l.queue|..] == [];
    assert Others(l.queue, id) + [] == Others(l.queue, id);
  }

  /** The state after the first `n` waiters have been looked at. */
  function ForgetUpTo(l: Lock, id: Id, n: nat): Lock
    requires n <= |l.queue|
  {
    l.(queue := Others(l.queue[..n], id) + l.queue[n..], settled := l.settled + Rejections(l.queue[..n], id))
  }

  lemma {:induction false} ForgetTail(l: Lock, id: Id, n: nat)
    requires Inv(l) && n <= |l.queue|
    ensures Inv(ForgetUpTo(l, id, n))
  {
    hide Inv;
    if n == 0 {
      assert l.queue[0..] == l.queue && [] + l.queue == l.queue && l.settled + [] == l.settled;
      assert ForgetUpTo(l, id, 0) == l;
    } else {
      ForgetTail(l, id, n - 1);
      var k, w := ForgetUpTo(l, id, n - 1), l.queue[n - 1];
      ForgetStep(l, id, n);
      if w.id == id {
        OwnedWhenQueued(k);
        SettleWaiter(k, ForgetUpTo(l, id, n), |Others(l.queue[..n - 1], id)|, Rejected);
      }
    }
  }

  lemma {:induction false} OwnedWhenQueued(l: Lock)
    requires Inv(l)
    ensures l.queue != [] ==> l.owner.Some?
  {
  }

  lemma {:induction false} ForgetStep(l: Lock, id: Id, n: nat)
    requires 0 < n <= |l.queue|
    ensures var k, l', i := ForgetUpTo(l, id, n - 1), ForgetUpTo(l, id, n), |Others(l.queue[..n - 1], id)|;
            && i < |k.queue| && k.queue[i] == l.queue[n - 1]
            && if l.queue[n - 1].id == id
               then l' == k.(queue := k.queue[..i] + k.queue[i + 1..],
                             settled := k.settled + [Settlement(k.queue[i].ticket, Rejected)])
               else l' == k
  {
    var w, front := l.queue[n - 1], Others(l.queue[..n - 1], id);
    hide Others, Rejections;
    LookAtOne(l.queue, id, n - 1);
    assert l.queue[n - 1..] == [w] + l.queue[n..];
    var k := ForgetUpTo(l, id, n - 1);
    assert k.queue[..|front|] == front && k.queue[|front| + 1..] == l.queue[n..];
    if w.id != id {
      assert front + [w] + l.queue[n..] == front + ([w] + l.queue[n..]);
      assert Rejections(l.queue[..n - 1], id) + [] == Rejections(l.queue[..n - 1], id);
    } else {
      assert front + [] == front;
      var r, x := Rejections(l.queue[..n - 1], id), [Settlement(w.ticket, Rejected)];
      assert l.settled + (r + x) == l.settled + r + x;
    }
  }

  lemma {:induction false} AcquireKeepsInv(l: Lock, id: Id)
    requires Inv(l)
    ensures Inv(Apply(l, Acquire(id)))
  {
    var l' := Apply(l, Acquire(id));
    forall i | 0 <= i < |l.queue| ensures l.queue[i].ticket < l.next {
      assert IsQueued(l, l.queue[i].ticket);
    }
    forall i | 0 <= i < |l.settled| ensures l.settled[i].ticket < l.next {
      assert IsSettled(l, l.settled[i].ticket);
    }
    if l.owner.None? || l.owner == Some(id) {
      SettledSnoc(l, l', Settlement(l.next, Immediate));
      assert forall t: Ticket :: IsQueued(l', t) == IsQueued(l, t);
    } else {
      assert forall t: Ticket :: IsSettled(l', t) == IsSettled(l, t);
      assert l'.queue[|l.queue|].ticket == l.next;
      forall t: Ticket ensures IsQueued(l', t) <==> IsQueued(l, t) || t == l.next {
        if IsQueued(l, t) {
          var i :| 0 <= i < |l.queue| && l.queue[i].ticket == t;
          assert l'.queue[i].ticket == t;
        }
      }
    }
  }

  lemma {:induction false} ApplyKeepsInv(l: Lock, op: Op)
    requires Inv(l)
    ensures Inv(Apply(l, op))
  {
    hide Inv;
    match op {
      case Acquire(id) => AcquireKeepsInv(l, id);
      case Hold(id) => HoldKeepsInv(l, id);
      case UpdateStatus(id, status) => if status == STATUS_IDLE && l.owner == Some(id) { VacateKeepsInv(l); }
      case Release(id) => if l.owner == Some(id) { VacateKeepsInv(l); }
      case Cancel(id) =>
        if l.owner == Some(id) { VacateKeepsInv(l); }
        ForgetKeepsInv(VacateIf(l, id), id);
    }
  }

  lemma {:induction false} HoldKeepsInv(l: Lock, id: Id)
    requires Inv(l)
    ensures Inv(Apply(l, Hold(id)))
  {
    var l' := Apply(l, Hold(id));
    assert forall t: Ticket :: IsQueued(l', t) == IsQueued(l, t) && IsSettled(l', t) == IsSettled(l, t);
  }

  /**
   * Every run from the free lock: a free lock has no waiters; every acquire is settled exactly once or still waits;
   * grants from the queue follow acquire order, ahead of everyone who still waits.
   */
  lemma {:induction false} RunsKeepInv(ops: seq<Op>)
    ensures Inv(Run(FREE, ops))
  {
    if ops != [] {
      RunsKeepInv(ops[..|ops| - 1]);
      ApplyKeepsInv(Run(FREE, ops[..|ops| - 1]), ops[|ops| - 1]);
    } else {
      assert forall t: Ticket :: !IsQueued(FREE, t) && !IsSettled(FREE, t);
    }
  }

  // ---- Why an acquire ends as it does ----

  /** The operation makes its owner give the session up. */
  predicate Vacates(l: Lock, op: Op) {
    l.owner == Some(op.id) && (op.Release? || op.Cancel? || (op.UpdateStatus? && op.status == 0x49))
  }

  /**
   * A free session goes to whoever acquires or holds it. An owned one passes on exactly when the owner gives it up: to
   * the first in line, or to nobody.
   */
  lemma {:induction false} OwnershipMoves(l: Lock, op: Op)
    ensures Apply(l, op).owner ==
      if l.owner == None then if op.Acquire? || op.Hold? then Some(op.id) else None
      else if !Vacates(l, op) then l.owner
      else if l.queue == [] then None else Some(l.queue[0].id)
  {
  }

  /** The settlement is what `op` does to the lock: admission, the turn of the first waiter, or its own cancellation. */
  predicate ExplainedBy(l: Lock, op: Op, s: Settlement) {
    var owner := Apply(l, op).owner;
    match s.outcome
    case Immediate =>
      op.Acquire? && s.ticket == l.next && (l.owner == None || l.owner == Some(op.id)) && owner == Some(op.id)
    case Granted => Vacates(l, op) && l.queue != [] && s.ticket == l.queue[0].ticket && owner == Some(l.queue[0].id)
    case Rejected => op.Cancel? && Waiter(op.id, s.ticket) in l.queue
  }

  lemma {:induction false} RejectionsMembers(queue: seq<Waiter>, id: Id)
    ensures forall s :: s in Rejections(queue, id) ==> s.outcome.Rejected? && Waiter(id, s.ticket) in queue
  {
    if queue != [] {
      RejectionsMembers(queue[..|queue| - 1], id);
      assert queue == queue[..|queue| - 1] + [queue[|queue| - 1]];
    }
  }

  lemma {:induction false} StepSettles(l: Lock, op: Op, i: nat)
    requires (l.owner.None? ==> l.queue == []) && |l.settled| <= i < |Apply(l, op).settled|
    ensures ExplainedBy(l, op, Apply(l, op).settled[i])
  {
    if op.Cancel? {
      var k := VacateIf(l, op.id);
      RejectionsMembers(k.queue, op.id);
      if i >= |k.settled| {
        assert Apply(l, op).settled[i] in Rejections(k.queue, op.id);
      }
    }
  }

  lemma {:induction false} SettledStay(l: Lock, op: Op)
    ensures l.settled <= Apply(l, op).settled
  {
  }

  /**
   * Over every run, each settlement has its reason: an acquire is admitted at once as the owner, it is granted when it
   * is first in line and the owner gives up, or it is rejected by a cancellation of its own id.
   */
  lemma {:induction false} SettlementsAreExplained(ops: seq<Op>, i: nat)
    requires i < |Run(FREE, ops).settled|
    ensures exists j :: 0 <= j < |ops| && ExplainedBy(Run(FREE, ops[..j]), ops[j], Run(FREE, ops).settled[i])
  {
    hide Apply, ExplainedBy;
    if ops != [] {
      var init, op := ops[..|ops| - 1], ops[|ops| - 1];
      var l := Run(FREE, init);
      RunsKeepInv(init);
      SettledStay(l, op);
      if i < |l.settled| {
        SettlementsAreExplained(init, i);
        var j :| 0 <= j < |init| && ExplainedBy(Run(FREE, init[..j]), init[j], l.settled[i]);
        assert init[..j] == ops[..j] && init[j] == ops[j];
      } else {
        StepSettles(l, op, i);
        assert ExplainedBy(Run(FREE, ops[..|ops| - 1]), ops[|ops| - 1], Run(FREE, ops).settled[i]);
      }
    }
  }

  // ---- Cancellation ----

  /**
   * After cancel no waiter of `id` is left, and `id` owns the session exactly if it owned it before and its own
   * second acquire was next in line.
   */
  lemma {:induction false} CancelForgets(l: Lock, id: Id)
    ensures forall w :: w in Apply(l, Cancel(id)).queue ==> w.id != id
    ensures Apply(l, Cancel(id)).owner == Some(id) <==>
              l.owner == Some(id) && l.queue != [] && l.queue[0].id == id
  {
    OthersMembers(VacateIf(l, id).queue, id);
  }

  /** The owner never waits and nobody waits twice. */
  ghost predicate OneClaimEach(l: Lock) {
    && (forall i :: 0 <= i < |l.queue| ==> l.owner != Some(l.queue[i].id))
    && (forall i, j :: 0 <= i < j < |l.queue| ==> l.queue[i].id != l.queue[j].id)
  }

  /** The callers' discipline: an id acquires only when it has no acquire outstanding. */
  ghost predicate Disciplined(l: Lock, op: Op) {
    op.Acquire? ==> forall i :: 0 <= i < |l.queue| ==> l.queue[i].id != op.id
  }

  ghost predicate DisciplinedRun(ops: seq<Op>) {
    ops != [] ==> DisciplinedRun(ops[..|ops| - 1]) && Disciplined(Run(FREE, ops[..|ops| - 1]), ops[|ops| - 1])
  }

  lemma {:induction false} OthersDistinct(queue: seq<Waiter>, id: Id)
    requires forall i, j :: 0 <= i < j < |queue| ==> queue[i].id != queue[j].id
    ensures forall i, j :: 0 <= i < j < |Others(queue, id)| ==> Others(queue, id)[i].id != Others(queue, id)[j].id
  {
    if queue != [] {
      var init, last := queue[..|queue| - 1], queue[|queue| - 1];
      OthersDistinct(init, id);
      OthersMembers(init, id);
      forall i | 0 <= i < |Others(init, id)| ensures Others(init, id)[i].id != last.id {
        assert Others(init, id)[i] in init;
      }
    }
  }

  lemma {:induction false} DisciplineKeepsOneClaim(l: Lock, op: Op)
    requires OneClaimEach(l) && Disciplined(l, op) && (l.owner.None? ==> l.queue == [])
    ensures OneClaimEach(Apply(l, op))
  {
    if op.Cancel? {
      var k := VacateIf(l, op.id);
      assert OneClaimEach(k);
      OthersDistinct(k.queue, op.id);
      OthersMembers(k.queue, op.id);
      var rest := Others(k.queue, op.id);
      forall i | 0 <= i < |rest| ensures k.owner != Some(rest[i].id) {
        assert rest[i] in k.queue;
      }
    }
  }

  /** In a disciplined run a cancelled id neither owns the session nor waits for it. */
  lemma {:induction false} DisciplinedCancelIsFinal(ops: seq<Op>, id: Id)
    requires DisciplinedRun(ops)
    ensures OneClaimEach(Run(FREE, ops))
    ensures Apply(Run(FREE, ops), Cancel(id)).owner != Some(id)
    ensures forall w :: w in Apply(Run(FREE, ops), Cancel(id)).queue ==> w.id != id
  {
    if ops != [] {
      var init := ops[..|ops| - 1];
      DisciplinedCancelIsFinal(init, id);
      RunsKeepInv(init);
      DisciplineKeepsOneClaim(Run(FREE, init), ops[|ops| - 1]);
    }
    CancelForgets(Run(FREE, ops), id);
  }

  /** Without the discipline, an id that acquires twice while another owns ends up owner of what it cancels. */
  lemma {:induction false} UndisciplinedCancelLeavesOwner()
    ensures var ops := [Acquire(1), Acquire(2), Acquire(2), Release(1), Cancel(2)];
            Run(FREE, ops).owner == Some(2)
  {
    var a, b, c, d, e := Acquire(1), Acquire(2), Acquire(2), Release(1), Cancel(2);
    var l1 := Apply(FREE, a);
    var l2 := Apply(l1, b);
    var l3 := Apply(l2, c);
    var l4 := Apply(l3, d);
    assert Run(FREE, [a]) == l1 by { assert [a][..0] == []; }
    assert Run(FREE, [a, b]) == l2 by { assert [a, b][..1] == [a]; }
    assert Run(FREE, [a, b, c]) == l3 by { assert [a, b, c][..2] == [a, b]; }
    assert Run(FREE, [a, b, c, d]) == l4 by { assert [a, b, c, d][..3] == [a, b, c]; }
    assert [a, b, c, d, e][..4] == [a, b, c, d];
    assert l4.owner == Some(2) && l4.queue == [Waiter(2, 2)];
    CancelForgets(l4, 2);
  }

  // ---- The class ----

  class SessionLock {
    var owner: Option<Id>
    var waitQueue: seq<Waiter>
    var nextTicket: Ticket
    var settled: seq<Settlement>

    function State(): Lock
      reads this
    {
      Lock(owner, waitQueue, nextTicket, settled)
    }

    constructor ()
      ensures State() == FREE
    {
      owner, waitQueue, nextTicket, settled := None, [], 0, [];
    }

    method Settle(ticket: Ticket, outcome: Outcome)
      modifies this`settled
      ensures settled == old(settled) + [Settlement(ticket, outcome)]
    {
      settled := settled + [Settlement(ticket, outcome)];
    }

    /** Takes the session if it is free, admits its owner again, and queues everyone else. */
    method Acquire(id: Id) returns (ticket: Ticket)
      modifies this
      ensures State() == Apply(old(State()), Op.Acquire(id)) && ticket == old(nextTicket)
    {
      ticket := nextTicket;
      nextTicket := nextTicket + 1;
      if owner == None {
        owner := Some(id);
        Settle(ticket, Immediate);
        return;
      }
      if owner == Some(id) {
        Settle(ticket, Immediate);
        return;
      }
      waitQueue := waitQueue + [Waiter(id, ticket)];
    }

    method IsOwner(id: Id) returns (owns: bool)
      ensures owns == (State().owner == Some(id))
    {
      owns := owner == Some(id);
    }

    method Hold(id: Id) returns (held: bool)
      modifies this
      ensures State() == Apply(old(State()), Op.Hold(id)) && held == (owner == Some(id))
    {
      if owner == None {
        owner := Some(id);
        return true;
      }
      held := owner == Some(id);
    }

    /** The only effect of a status: the owner's idle status ends its ownership. */
    method UpdateStatus(id: Id, status: Status) returns (released: bool)
      modifies this
      ensures State() == Apply(old(State()), Op.UpdateStatus(id, status))
      ensures released == (status == STATUS_IDLE && old(owner) == Some(id))
      ensures !released ==> State() == old(State())
    {
      if status == STATUS_IDLE && owner == Some(id) {
        owner := None;
        DrainWaitQueue();
        return true;
      }
      released := false;
    }

    method Release(id: Id) returns (released: bool)
      modifies this
      ensures State() == Apply(old(State()), Op.Release(id)) && released == (old(owner) == Some(id))
    {
      if owner == Some(id) {
        owner := None;
        DrainWaitQueue();
        return true;
      }
      released := false;
    }

    method Cancel(id: Id) returns (cancelled: bool)
      modifies this
      ensures State() == Apply(old(State()), Op.Cancel(id))
      ensures cancelled <==> old(owner) == Some(id) || exists w :: w in old(waitQueue) && w.id == id
    {
      cancelled := false;
      if owner == Some(id) {
        owner := None;
        DrainWaitQueue();
        cancelled := true;
      }
      var rejected := RejectWaiters(id);
      cancelled := cancelled || rejected;
    }

    /** Rejects every pending acquire of `id` and keeps the others in order. */
    method RejectWaiters(id: Id) returns (rejected: bool)
      modifies this
      ensures State() == Forget(old(State()), id)
      ensures rejected == exists w :: w in old(waitQueue) && w.id == id
    {
      hide Others, Rejections;
      rejected := false;
      var remaining: seq<Waiter> := [];
      NothingYet(id);
      assert settled + [] == settled;
      for i := 0 to |waitQueue|
        invariant waitQueue == old(waitQueue) && owner == old(owner) && nextTicket == old(nextTicket)
        invariant remaining == Others(waitQueue[..i], id)
        invariant settled == old(settled) + Rejections(waitQueue[..i], id)
        invariant rejected <==> Rejections(waitQueue[..i], id) != []
      {
        var waiter := waitQueue[i];
        LookAtOne(waitQueue, id, i);
        if waiter.id == id {
          Settle(waiter.ticket, Rejected);
          rejected := true;
        } else {
          remaining := remaining + [waiter];
        }
      }
      assert waitQueue[..|waitQueue|] == waitQueue;
      RejectsSomeone(waitQueue, id);
      waitQueue := remaining;
    }

    method DrainWaitQueue()
      requires owner == None
      modifies this
      ensures State() == Vacate(old(State()))
    {
      if |waitQueue| == 0 { return; }
      var next := waitQueue[0];
      waitQueue := waitQueue[1..];
      owner := Some(next.id);
      Settle(next.ticket, Granted);
    }
  }
}
