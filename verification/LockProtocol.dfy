/** Record locks as a transition system.

    One step is one region executed under the manager's latch, or one call
    prologue that reads only the calling transaction.  Waiting on the condition
    variable is the `Waiting` program counter; a `Wake` step re-evaluates the
    wait predicate.  Transaction states may be changed from outside at any time. */
module LockProtocol {
  import opened Common

  type TxnId = nat

  datatype Mode = Shared | Exclusive

  datatype Request = Request(txn: TxnId, mode: Mode, granted: bool)

  datatype Queue = Queue(requests: seq<Request>, upgrading: bool, upgradingTxn: TxnId)

  const EMPTY_QUEUE := Queue([], false, 0)

  datatype TxnStatus = Active | Committed | Aborted

  /** What a transaction is asking for. */
  datatype Want = WantShared | WantExclusive | WantUpgrade

  datatype Pc =
    | Idle
    | Called(want: Want, rid: RID)          // past the prologue, before the latch
    | Waiting(want: Want, rid: RID)         // blocked on the condition variable
    | ReleasingShared(todo: set<RID>)
    | ReleasingExclusive(todo: set<RID>)

  datatype Txn = Txn(status: TxnStatus, shared: set<RID>, exclusive: set<RID>, pc: Pc)

  datatype State = State(table: map<RID, Queue>, txns: map<TxnId, Txn>)

  datatype Event =
    | Begin(txn: TxnId)
    | SetStatus(txn: TxnId, status: TxnStatus)
    | Call(txn: TxnId, want: Want, rid: RID)
    | Enter(txn: TxnId)
    | Wake(txn: TxnId)
    | Unlock(txn: TxnId, rid: RID)
    | StartRelease(txn: TxnId)
    | ReleaseOne(txn: TxnId, rid: RID)
    | ReleaseNext(txn: TxnId)

  /** The state after a step, and the queue whose waiters it notified. */
  datatype Outcome = Outcome(state: State, notified: Option<RID>)

  function QueueOf(s: State, rid: RID): Queue {
    if rid in s.table then s.table[rid] else EMPTY_QUEUE
  }

  // ---- Grant predicates --------------------------------------------------

  /** Whether `txn` has a request and no exclusive request stands before it. */
  predicate ReachedShared(requests: seq<Request>, txn: TxnId) {
    requests != [] && (requests[0].txn == txn
                       || (requests[0].mode != Exclusive && ReachedShared(requests[1..], txn)))
  }

  predicate CanGrantShared(q: Queue, txn: TxnId) {
    !(q.upgrading && q.upgradingTxn != txn) && ReachedShared(q.requests, txn)
  }

  predicate CanGrantExclusive(q: Queue, txn: TxnId) {
    && (forall i :: 0 <= i < |q.requests| && q.requests[i].granted ==> q.requests[i].txn == txn)
    && q.requests != [] && q.requests[0].txn == txn
  }

  predicate CanGrant(q: Queue, txn: TxnId, want: Want) {
    if want == WantShared then CanGrantShared(q, txn) else CanGrantExclusive(q, txn)
  }

  // ---- Queue updates -----------------------------------------------------

  function Grant(requests: seq<Request>, txn: TxnId): seq<Request> {
    if requests == [] then []
    else if requests[0].txn == txn then [requests[0].(granted := true)] + requests[1..]
    else [requests[0]] + Grant(requests[1..], txn)
  }

  function Drop(requests: seq<Request>, txn: TxnId): seq<Request> {
    if requests == [] then []
    else if requests[0].txn == txn then requests[1..]
    else [requests[0]] + Drop(requests[1..], txn)
  }

  /** The request of an upgrader becomes an ungranted exclusive one, in place. */
  function Demote(requests: seq<Request>, txn: TxnId): seq<Request> {
    if requests == [] then []
    else if requests[0].txn == txn then [Request(txn, Exclusive, false)] + requests[1..]
    else [requests[0]] + Demote(requests[1..], txn)
  }

  // ---- Steps -------------------------------------------------------------

  function Put(s: State, rid: RID, q: Queue, txn: TxnId, t: Txn): State {
    State(s.table[rid := q], s.txns[txn := t])
  }

  /** The wait predicate and what follows it: give up when aborted, take the lock
      when it can be granted, wait otherwise. */
  function Settle(s: State, txn: TxnId, t: Txn, q: Queue, want: Want, rid: RID): Outcome {
    if t.status == Aborted then
      var q' := Queue(Drop(q.requests, txn),
                      if want == WantUpgrade then false else q.upgrading,
                      if want == WantUpgrade then 0 else q.upgradingTxn);
      Outcome(Put(s, rid, q', txn, t.(pc := Idle)), Some(rid))
    else if CanGrant(q, txn, want) then
      var q' := Queue(Grant(q.requests, txn),
                      if want == WantUpgrade then false else q.upgrading,
                      if want == WantUpgrade then 0 else q.upgradingTxn);
      var t' := if want == WantShared then t.(shared := t.shared + {rid}, pc := Idle)
                else t.(exclusive := t.exclusive + {rid}, pc := Idle);
      Outcome(Put(s, rid, q', txn, t'), None)
    else
      Outcome(Put(s, rid, q, txn, t.(pc := Waiting(want, rid))), None)
  }

  function CallStep(s: State, txn: TxnId, t: Txn, want: Want, rid: RID): Outcome {
    var refused := Outcome(s, None);
    if t.status == Aborted then refused
    else match want
      case WantShared =>
        if rid in t.shared || rid in t.exclusive then refused
        else Outcome(s.(txns := s.txns[txn := t.(pc := Called(want, rid))]), None)
      case WantExclusive =>
        if rid in t.exclusive then refused
        else if rid in t.shared then Outcome(s.(txns := s.txns[txn := t.(status := Aborted)]), None)
        else Outcome(s.(txns := s.txns[txn := t.(pc := Called(want, rid))]), None)
      case WantUpgrade =>
        Outcome(s.(txns := s.txns[txn := t.(pc := Called(want, rid))]), None)
  }

  function EnterStep(s: State, txn: TxnId, t: Txn, want: Want, rid: RID): Outcome {
    var q := QueueOf(s, rid);
    match want
    case WantShared =>
      Settle(s, txn, t, q.(requests := q.requests + [Request(txn, Shared, false)]), want, rid)
    case WantExclusive =>
      Settle(s, txn, t, q.(requests := q.requests + [Request(txn, Exclusive, false)]), want, rid)
    case WantUpgrade =>
      if rid !in t.shared || q.upgrading then
        Outcome(Put(s, rid, q, txn, t.(status := Aborted, pc := Idle)), None)
      else
        Settle(s, txn, t.(shared := t.shared - {rid}), Queue(Demote(q.requests, txn), true, txn), want, rid)
  }

  /** Gives up a lock that is held, and wakes everybody waiting for the record. */
  function UnlockStep(s: State, txn: TxnId, t: Txn, rid: RID): Outcome {
    if rid !in t.shared && rid !in t.exclusive then Outcome(s.(txns := s.txns[txn := t]), None)
    else
      var q := QueueOf(s, rid);
      Outcome(Put(s, rid, q.(requests := Drop(q.requests, txn)), txn,
                  t.(shared := t.shared - {rid}, exclusive := t.exclusive - {rid})), Some(rid))
  }

  predicate Enabled(s: State, ev: Event) {
    if ev.Begin? then ev.txn !in s.txns
    else
      && ev.txn in s.txns
      && var pc := s.txns[ev.txn].pc;
        match ev
        case Begin(_) => false
        case SetStatus(_, _) => true
        case Call(_, _, _) => pc == Idle
        case Enter(_) => pc.Called?
        case Wake(_) => pc.Waiting?
        case Unlock(_, _) => pc == Idle
        case StartRelease(_) => pc == Idle
        case ReleaseOne(_, rid) => (pc.ReleasingShared? || pc.ReleasingExclusive?) && rid in pc.todo
        case ReleaseNext(_) => (pc.ReleasingShared? || pc.ReleasingExclusive?) && pc.todo == {}
  }

  function Next(s: State, ev: Event): Outcome
    requires Enabled(s, ev)
  {
    if ev.Begin? then Outcome(s.(txns := s.txns[ev.txn := Txn(Active, {}, {}, Idle)]), None)
    else
      var t := s.txns[ev.txn];
      match ev
      case SetStatus(txn, status) => Outcome(s.(txns := s.txns[txn := t.(status := status)]), None)
      case Call(txn, want, rid) => CallStep(s, txn, t, want, rid)
      case Enter(txn) => EnterStep(s, txn, t, t.pc.want, t.pc.rid)
      case Wake(txn) => Settle(s, txn, t, QueueOf(s, t.pc.rid), t.pc.want, t.pc.rid)
      case Unlock(txn, rid) => UnlockStep(s, txn, t, rid)
      case StartRelease(txn) => Outcome(s.(txns := s.txns[txn := t.(pc := ReleasingShared(t.shared))]), None)
      case ReleaseOne(txn, rid) =>
        UnlockStep(s, txn, if t.pc.ReleasingShared? then t.(pc := ReleasingShared(t.pc.todo - {rid}))
                           else t.(pc := ReleasingExclusive(t.pc.todo - {rid})), rid)
      case ReleaseNext(txn) =>
        Outcome(s.(txns := s.txns[txn := t.(pc := if t.pc.ReleasingShared? then ReleasingExclusive(t.exclusive)
                                                  else Idle)]), None)
  }

  // ---- Invariant ---------------------------------------------------------

  ghost predicate DistinctTxns(requests: seq<Request>) {
    forall i, j :: 0 <= i < j < |requests| ==> requests[i].txn != requests[j].txn
  }

  ghost predicate HasRequest(requests: seq<Request>, txn: TxnId) {
    exists i :: 0 <= i < |requests| && requests[i].txn == txn
  }

  /** A granted exclusive request is at the front and is the only granted one. */
  ghost predicate ExclusiveAlone(requests: seq<Request>) {
    forall i, j :: 0 <= i < |requests| && 0 <= j < |requests| ==>
      requests[i].granted && requests[i].mode == Exclusive && requests[j].granted ==> i == 0 && j == 0
  }

  /** Only an upgrader can stand before a granted shared request. */
  ghost predicate SharedUnobstructed(q: Queue) {
    forall i, j :: 0 <= i < j < |q.requests| ==>
      q.requests[j].granted && q.requests[j].mode == Shared && q.requests[i].mode == Exclusive ==>
        q.upgrading && q.requests[i].txn == q.upgradingTxn
  }

  /** The lock sets and the program counter of a transaction say exactly which
      request it has in the queue of a record. */
  ghost predicate Linked(q: Queue, rid: RID, txn: TxnId, t: Txn) {
    && (rid in t.shared <==> Request(txn, Shared, true) in q.requests)
    && (rid in t.exclusive <==> Request(txn, Exclusive, true) in q.requests)
    && (t.pc == Waiting(WantShared, rid) <==> Request(txn, Shared, false) in q.requests)
    && (t.pc == Waiting(WantExclusive, rid) || t.pc == Waiting(WantUpgrade, rid) <==>
        Request(txn, Exclusive, false) in q.requests)
    && (t.pc == Waiting(WantUpgrade, rid) <==> q.upgrading && q.upgradingTxn == txn)
  }

  ghost predicate QueueOk(q: Queue, rid: RID, txns: map<TxnId, Txn>) {
    && DistinctTxns(q.requests)
    && ExclusiveAlone(q.requests)
    && SharedUnobstructed(q)
    && (forall i :: 0 <= i < |q.requests| ==> q.requests[i].txn in txns)
    && (q.upgrading ==> q.upgradingTxn in txns)
    && (forall txn :: txn in txns ==> Linked(q, rid, txn, txns[txn]))
  }

  ghost predicate TxnOk(t: Txn) {
    && (t.pc.Called? && t.pc.want != WantUpgrade ==> t.pc.rid !in t.shared && t.pc.rid !in t.exclusive)
    && (t.pc.ReleasingShared? ==> t.shared == t.pc.todo)
    && (t.pc.ReleasingExclusive? ==> t.shared == {} && t.exclusive == t.pc.todo)
  }

  ghost predicate Inv(s: State) {
    && (forall rid :: QueueOk(QueueOf(s, rid), rid, s.txns))
    && (forall txn :: txn in s.txns ==> TxnOk(s.txns[txn]))
  }
}
