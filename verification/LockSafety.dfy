/** What every interleaving of the lock protocol keeps. */
module LockSafety {
  import opened Common
  import opened LockProtocol

  // ---- The list updates by index -----------------------------------------

  lemma {:induction false} GrantAt(requests: seq<Request>, i: nat)
    requires DistinctTxns(requests) && i < |requests|
    ensures Grant(requests, requests[i].txn) == requests[i := requests[i].(granted := true)]
  {
    var rest, x := requests[1..], requests[i].(granted := true);
    if i > 0 {
      assert requests[0].txn != requests[i].txn && rest[i - 1] == requests[i];
      GrantAt(rest, i - 1);
      assert requests[i := x] == [requests[0]] + rest[i - 1 := x];
    } else {
      assert requests[0 := x] == [x] + rest;
    }
  }

  lemma {:induction false} DropAt(requests: seq<Request>, i: nat)
    requires DistinctTxns(requests) && i < |requests|
    ensures Drop(requests, requests[i].txn) == requests[..i] + requests[i + 1..]
  {
    var rest := requests[1..];
    if i > 0 {
      assert requests[0].txn != requests[i].txn && rest[i - 1] == requests[i];
      DropAt(rest, i - 1);
      assert requests[..i] == [requests[0]] + rest[..i - 1];
      assert requests[i + 1..] == rest[i..];
    } else {
      assert requests[..0] == [];
    }
  }

  lemma {:induction false} DemoteAt(requests: seq<Request>, i: nat)
    requires DistinctTxns(requests) && i < |requests|
    ensures Demote(requests, requests[i].txn) == requests[i := Request(requests[i].txn, Exclusive, false)]
  {
    var rest, x := requests[1..], Request(requests[i].txn, Exclusive, false);
    if i > 0 {
      assert requests[0].txn != requests[i].txn && rest[i - 1] == requests[i];
      DemoteAt(rest, i - 1);
      assert requests[i := x] == [requests[0]] + rest[i - 1 := x];
    } else {
      assert requests[0 := x] == [x] + rest;
    }
  }

  /** Reaching a request means that no exclusive request stands before it. */
  lemma {:induction false} ReachedSharedAt(requests: seq<Request>, i: nat)
    requires DistinctTxns(requests) && i < |requests|
    ensures ReachedShared(requests, requests[i].txn) <==> forall j :: 0 <= j < i ==> requests[j].mode != Exclusive
  {
    if i > 0 {
      var rest := requests[1..];
      ReachedSharedAt(rest, i - 1);
      assert forall j :: 0 <= j < i - 1 ==> rest[j] == requests[j + 1];
      if forall j :: 0 <= j < i - 1 ==> rest[j].mode != Exclusive {
        forall j | 1 <= j < i
          ensures requests[j].mode != Exclusive
        {
          assert rest[j - 1].mode != Exclusive;
        }
      }
    }
  }

  // ---- What a grant means --------------------------------------------------

  /** Nothing stands in the way of a shared request: no exclusive request before it, and no
      upgrade of another transaction. */
  ghost predicate SharedClear(q: Queue, i: nat)
    requires i < |q.requests|
  {
    && (forall j :: 0 <= j < i ==> q.requests[j].mode == Shared)
    && (q.upgrading ==> q.upgradingTxn == q.requests[i].txn)
  }

  /** Nothing stands in the way of an exclusive request: it is at the front, and no other is granted. */
  ghost predicate ExclusiveClear(q: Queue, i: nat)
    requires i < |q.requests|
  {
    i == 0 && forall j :: 1 <= j < |q.requests| ==> !q.requests[j].granted
  }

  ghost predicate Clear(q: Queue, i: nat, want: Want)
    requires i < |q.requests|
  {
    if want == WantShared then SharedClear(q, i) else ExclusiveClear(q, i)
  }

  /** The grant tests say exactly that about the request of a transaction. */
  lemma GrantMeans(q: Queue, i: nat, want: Want)
    requires DistinctTxns(q.requests) && i < |q.requests|
    ensures CanGrant(q, q.requests[i].txn, want) <==> Clear(q, i, want)
  {
    if want == WantShared {
      ReachedSharedAt(q.requests, i);
    } else if ExclusiveClear(q, i) {
      forall j | 0 <= j < |q.requests| && q.requests[j].granted
        ensures q.requests[j].txn == q.requests[i].txn
      {
        assert j == 0;
      }
    }
  }

  /** A transaction without a request is granted nothing. */
  lemma {:induction false} NoRequestNoGrant(q: Queue, txn: TxnId, want: Want)
    requires !HasRequest(q.requests, txn)
    ensures !CanGrant(q, txn, want)
    decreases |q.requests|
  {
    if q.requests != [] {
      assert q.requests[0].txn != txn;
      var rest := q.(requests := q.requests[1..]);
      assert forall j :: 0 <= j < |rest.requests| ==> rest.requests[j] == q.requests[j + 1];
      NoRequestNoGrant(rest, txn, want);
    }
  }

  // ---- Local steps -------------------------------------------------------

  /** `t` and `t'` say the same about every record but `rid`. */
  ghost predicate SameElsewhere(t: Txn, t': Txn, rid: RID) {
    && (forall r :: r != rid ==> (r in t.shared <==> r in t'.shared) && (r in t.exclusive <==> r in t'.exclusive))
    && (forall r, w :: r != rid ==> (t.pc == Waiting(w, r) <==> t'.pc == Waiting(w, r)))
  }

  /** A step of one transaction on one record leaves every other record alone. */
  lemma LocalStep(s: State, s': State, rid: RID, txn: TxnId)
    requires Inv(s) && txn in s.txns && s'.txns.Keys == s.txns.Keys
    requires forall u :: u in s.txns && u != txn ==> s'.txns[u] == s.txns[u]
    requires forall r :: r != rid ==> QueueOf(s', r) == QueueOf(s, r)
    requires SameElsewhere(s.txns[txn], s'.txns[txn], rid)
    requires QueueOk(QueueOf(s', rid), rid, s'.txns) && TxnOk(s'.txns[txn])
    ensures Inv(s')
  {
    forall r
      ensures QueueOk(QueueOf(s', r), r, s'.txns)
    {
      assert QueueOk(QueueOf(s, r), r, s.txns);
      if r != rid {
        forall u | u in s'.txns
          ensures Linked(QueueOf(s', r), r, u, s'.txns[u])
        {
          assert Linked(QueueOf(s, r), r, u, s.txns[u]);
        }
      }
    }
  }

  ghost predicate Granting(q: Queue, rid: RID, txns: map<TxnId, Txn>, txn: TxnId, want: Want, i: nat) {
    && QueueOk(q, rid, txns) && txn in txns && txns[txn].pc == Waiting(want, rid)
    && i < |q.requests| && q.requests[i].txn == txn
  }

  /** A waiting transaction has exactly the request it waits for. */
  lemma WaiterAt(q: Queue, rid: RID, txns: map<TxnId, Txn>, txn: TxnId, want: Want) returns (i: nat)
    requires QueueOk(q, rid, txns) && txn in txns && txns[txn].pc == Waiting(want, rid)
    ensures Granting(q, rid, txns, txn, want, i)
    ensures q.requests[i] == Request(txn, if want == WantShared then Shared else Exclusive, false)
    ensures want == WantUpgrade <==> q.upgrading && q.upgradingTxn == txn
    ensures rid !in txns[txn].shared && rid !in txns[txn].exclusive
  {
    assert Linked(q, rid, txn, txns[txn]);
    var r := Request(txn, if want == WantShared then Shared else Exclusive, false);
    i :| 0 <= i < |q.requests| && q.requests[i] == r;
  }

  function Cleared(q: Queue, requests: seq<Request>, want: Want): Queue {
    Queue(requests, if want == WantUpgrade then false else q.upgrading, if want == WantUpgrade then 0 else q.upgradingTxn)
  }

  /** Granting a grantable request keeps the queue in order. */
  lemma GrantKeeps(q: Queue, rid: RID, txns: map<TxnId, Txn>, txn: TxnId, want: Want, t': Txn)
    requires QueueOk(q, rid, txns) && txn in txns && txns[txn].pc == Waiting(want, rid)
    requires CanGrant(q, txn, want)
    requires t' == (if want == WantShared then txns[txn].(shared := txns[txn].shared + {rid}, pc := Idle)
                    else txns[txn].(exclusive := txns[txn].exclusive + {rid}, pc := Idle))
    ensures QueueOk(Cleared(q, Grant(q.requests, txn), want), rid, txns[txn := t'])
  {
    var i := WaiterAt(q, rid, txns, txn, want);
    GrantAt(q.requests, i);
    if want == WantShared {
      ReachedSharedAt(q.requests, i);
    }
    GrantLinks(q, rid, txns, txn, want, t', i);
  }

  lemma GrantLinks(q: Queue, rid: RID, txns: map<TxnId, Txn>, txn: TxnId, want: Want, t': Txn, i: nat)
    requires Granting(q, rid, txns, txn, want, i)
    requires t' == (if want == WantShared then txns[txn].(shared := txns[txn].shared + {rid}, pc := Idle)
                    else txns[txn].(exclusive := txns[txn].exclusive + {rid}, pc := Idle))
    ensures forall u :: u in txns ==>
      Linked(Cleared(q, q.requests[i := q.requests[i].(granted := true)], want), rid, u, txns[txn := t'][u])
  {
    var rs := q.requests[i := q.requests[i].(granted := true)];
    var k := WaiterAt(q, rid, txns, txn, want);
    forall u | u in txns
      ensures Linked(Cleared(q, rs, want), rid, u, txns[txn := t'][u])
    {
      assert Linked(q, rid, u, txns[u]);
      UpdatedRequest(q.requests, i, rs[i], u);
    }
  }

  /** Changing the request of one transaction does not touch those of others. */
  lemma UpdatedRequest(requests: seq<Request>, i: nat, r: Request, u: TxnId)
    requires DistinctTxns(requests) && i < |requests| && r.txn == requests[i].txn
    ensures forall m, g :: u != r.txn ==>
      (Request(u, m, g) in requests[i := r] <==> Request(u, m, g) in requests)
    ensures forall m, g :: u == r.txn ==> (Request(u, m, g) in requests[i := r] <==> Request(u, m, g) == r)
  {
    var rs := requests[i := r];
    forall m, g | u != r.txn && Request(u, m, g) in requests
      ensures Request(u, m, g) in rs
    {
      var k :| 0 <= k < |requests| && requests[k] == Request(u, m, g);
      assert rs[k] == Request(u, m, g);
    }
    assert rs[i] == r;
  }

  lemma DroppedRequest(requests: seq<Request>, i: nat, u: TxnId)
    requires DistinctTxns(requests) && i < |requests|
    ensures forall m, g :: Request(u, m, g) in requests[..i] + requests[i + 1..] <==>
                           u != requests[i].txn && Request(u, m, g) in requests
  {
    var rs := requests[..i] + requests[i + 1..];
    forall m, g | u != requests[i].txn && Request(u, m, g) in requests
      ensures Request(u, m, g) in rs
    {
      var k :| 0 <= k < |requests| && requests[k] == Request(u, m, g);
      assert rs[if k < i then k else k - 1] == Request(u, m, g);
    }
  }

  lemma DropShape(q: Queue, i: nat, q': Queue)
    requires DistinctTxns(q.requests) && ExclusiveAlone(q.requests) && SharedUnobstructed(q) && i < |q.requests|
    requires q'.requests == q.requests[..i] + q.requests[i + 1..]
    requires if q.upgrading && q.upgradingTxn == q.requests[i].txn then !q'.upgrading
             else q'.upgrading == q.upgrading && q'.upgradingTxn == q.upgradingTxn
    ensures DistinctTxns(q'.requests) && ExclusiveAlone(q'.requests) && SharedUnobstructed(q')
  {
    var rs, was := q'.requests, q.requests;
    assert forall k :: 0 <= k < i ==> rs[k] == was[k];
    assert forall k :: i <= k < |rs| ==> rs[k] == was[k + 1];
    forall j, k | 0 <= j < k < |rs| && rs[k].granted && rs[k].mode == Shared && rs[j].mode == Exclusive
      ensures q'.upgrading && rs[j].txn == q'.upgradingTxn
    {
      var j', k' := if j < i then j else j + 1, if k < i then k else k + 1;
      assert was[k'].granted && was[k'].mode == Shared && was[j'].mode == Exclusive;
    }
    forall j, k | 0 <= j < |rs| && 0 <= k < |rs| && rs[j].granted && rs[j].mode == Exclusive && rs[k].granted
      ensures j == 0 && k == 0
    {
      var j', k' := if j < i then j else j + 1, if k < i then k else k + 1;
      assert was[j'].granted && was[j'].mode == Exclusive && was[k'].granted;
    }
  }

  /** Taking a request out keeps the rest in order. */
  lemma DropKeeps(q: Queue, rid: RID, txns: map<TxnId, Txn>, txn: TxnId, i: nat, t': Txn, q': Queue)
    requires QueueOk(q, rid, txns) && txn in txns && i < |q.requests| && q.requests[i].txn == txn
    requires rid !in t'.shared && rid !in t'.exclusive && (forall w :: t'.pc != Waiting(w, rid))
    requires q'.requests == Drop(q.requests, txn)
    requires if q.upgrading && q.upgradingTxn == txn then !q'.upgrading
             else q'.upgrading == q.upgrading && q'.upgradingTxn == q.upgradingTxn
    ensures QueueOk(q', rid, txns[txn := t'])
  {
    DropAt(q.requests, i);
    DropShape(q, i, q');
    forall k | 0 <= k < |q'.requests|
      ensures q'.requests[k].txn in txns
    {
      assert q'.requests[k] == q.requests[if k < i then k else k + 1];
    }
    forall u | u in txns
      ensures Linked(q', rid, u, txns[txn := t'][u])
    {
      assert Linked(q, rid, u, txns[u]);
      DroppedRequest(q.requests, i, u);
    }
  }

  /** The wait predicate and what follows it. */
  lemma SettleKeeps(s: State, txn: TxnId, t: Txn, q: Queue, want: Want, rid: RID)
    requires txn in s.txns && Inv(Put(s, rid, q, txn, t.(pc := Waiting(want, rid))))
    ensures Inv(Settle(s, txn, t, q, want, rid).state)
  {
    if t.status == Aborted {
      GiveUpKeeps(s, txn, t, q, want, rid);
    } else if CanGrant(q, txn, want) {
      TakeKeeps(s, txn, t, q, want, rid);
    }
  }

  lemma GiveUpKeeps(s: State, txn: TxnId, t: Txn, q: Queue, want: Want, rid: RID)
    requires txn in s.txns && Inv(Put(s, rid, q, txn, t.(pc := Waiting(want, rid)))) && t.status == Aborted
    ensures Inv(Settle(s, txn, t, q, want, rid).state)
  {
    var s1 := Put(s, rid, q, txn, t.(pc := Waiting(want, rid)));
    var s2 := Settle(s, txn, t, q, want, rid).state;
    assert QueueOk(QueueOf(s1, rid), rid, s1.txns) && QueueOf(s1, rid) == q && TxnOk(s1.txns[txn]);
    var i := WaiterAt(q, rid, s1.txns, txn, want);
    DropKeeps(q, rid, s1.txns, txn, i, s2.txns[txn], QueueOf(s2, rid));
    assert s1.txns[txn := s2.txns[txn]] == s2.txns;
    LocalStep(s1, s2, rid, txn);
  }

  lemma TakeKeeps(s: State, txn: TxnId, t: Txn, q: Queue, want: Want, rid: RID)
    requires txn in s.txns && Inv(Put(s, rid, q, txn, t.(pc := Waiting(want, rid))))
    requires t.status != Aborted && CanGrant(q, txn, want)
    ensures Inv(Settle(s, txn, t, q, want, rid).state)
  {
    var s1 := Put(s, rid, q, txn, t.(pc := Waiting(want, rid)));
    var s2 := Settle(s, txn, t, q, want, rid).state;
    assert QueueOk(QueueOf(s1, rid), rid, s1.txns) && QueueOf(s1, rid) == q && TxnOk(s1.txns[txn]);
    GrantKeeps(q, rid, s1.txns, txn, want, s2.txns[txn]);
    assert s1.txns[txn := s2.txns[txn]] == s2.txns;
    LocalStep(s1, s2, rid, txn);
  }

  /** A transaction with a request in a queue holds the record or waits for it. */
  lemma RequestKind(q: Queue, rid: RID, txn: TxnId, t: Txn, i: nat)
    requires Linked(q, rid, txn, t) && i < |q.requests| && q.requests[i].txn == txn
    ensures rid in t.shared || rid in t.exclusive || (t.pc.Waiting? && t.pc.rid == rid)
  {
    var x := q.requests[i];
    match x.mode {
      case Shared => assert x == Request(txn, Shared, true) || x == Request(txn, Shared, false);
      case Exclusive => assert x == Request(txn, Exclusive, true) || x == Request(txn, Exclusive, false);
    }
    assert x in q.requests;
  }

  /** A new request goes to the end of its queue. */
  lemma EnqueueKeeps(s: State, txn: TxnId, want: Want, rid: RID)
    requires Inv(s) && txn in s.txns && s.txns[txn].pc == Called(want, rid) && want != WantUpgrade
    ensures var q := QueueOf(s, rid);
      var r := Request(txn, if want == WantShared then Shared else Exclusive, false);
      Inv(Put(s, rid, q.(requests := q.requests + [r]), txn, s.txns[txn].(pc := Waiting(want, rid))))
  {
    var q, t := QueueOf(s, rid), s.txns[txn];
    var r := Request(txn, if want == WantShared then Shared else Exclusive, false);
    var t' := t.(pc := Waiting(want, rid));
    var q' := q.(requests := q.requests + [r]);
    var s' := Put(s, rid, q', txn, t');
    assert QueueOk(q, rid, s.txns) && TxnOk(t) && Linked(q, rid, txn, t);
    EnqueueShape(q, rid, s.txns, txn, want, r);
    LocalStep(s, s', rid, txn);
  }

  lemma EnqueueShape(q: Queue, rid: RID, txns: map<TxnId, Txn>, txn: TxnId, want: Want, r: Request)
    requires QueueOk(q, rid, txns) && txn in txns && TxnOk(txns[txn])
    requires txns[txn].pc == Called(want, rid) && want != WantUpgrade
    requires r == Request(txn, if want == WantShared then Shared else Exclusive, false)
    ensures QueueOk(q.(requests := q.requests + [r]), rid, txns[txn := txns[txn].(pc := Waiting(want, rid))])
  {
    var q', txns' := q.(requests := q.requests + [r]), txns[txn := txns[txn].(pc := Waiting(want, rid))];
    assert Linked(q, rid, txn, txns[txn]);
    forall i | 0 <= i < |q.requests|
      ensures q.requests[i].txn != txn
    {
      if q.requests[i].txn == txn {
        RequestKind(q, rid, txn, txns[txn], i);
      }
    }
    forall u | u in txns'
      ensures Linked(q', rid, u, txns'[u])
    {
      assert Linked(q, rid, u, txns[u]);
      assert forall m, g :: Request(u, m, g) in q'.requests <==> Request(u, m, g) in q.requests || Request(u, m, g) == r;
    }
  }

  /** Starting an upgrade turns the held shared lock into a waiting exclusive request. */
  lemma DemoteKeeps(s: State, txn: TxnId, rid: RID)
    requires Inv(s) && txn in s.txns && s.txns[txn].pc == Called(WantUpgrade, rid)
    requires rid in s.txns[txn].shared && !QueueOf(s, rid).upgrading
    ensures var q, t := QueueOf(s, rid), s.txns[txn];
      Inv(Put(s, rid, Queue(Demote(q.requests, txn), true, txn), txn,
              t.(shared := t.shared - {rid}, pc := Waiting(WantUpgrade, rid))))
  {
    var q, t := QueueOf(s, rid), s.txns[txn];
    assert QueueOk(q, rid, s.txns) && TxnOk(t) && Linked(q, rid, txn, t);
    var i :| 0 <= i < |q.requests| && q.requests[i] == Request(txn, Shared, true);
    DemoteAt(q.requests, i);
    var r := Request(txn, Exclusive, false);
    var q' := Queue(q.requests[i := r], true, txn);
    var t' := t.(shared := t.shared - {rid}, pc := Waiting(WantUpgrade, rid));
    var s' := Put(s, rid, q', txn, t');
    DemoteLinks(q, rid, s.txns, txn, t', i);
    LocalStep(s, s', rid, txn);
  }

  lemma DemoteLinks(q: Queue, rid: RID, txns: map<TxnId, Txn>, txn: TxnId, t': Txn, i: nat)
    requires QueueOk(q, rid, txns) && txn in txns && !q.upgrading && !txns[txn].pc.Waiting?
    requires i < |q.requests| && q.requests[i] == Request(txn, Shared, true)
    requires t' == txns[txn].(shared := txns[txn].shared - {rid}, pc := Waiting(WantUpgrade, rid))
    ensures forall u :: u in txns ==>
      Linked(Queue(q.requests[i := Request(txn, Exclusive, false)], true, txn), rid, u, txns[txn := t'][u])
  {
    var r := Request(txn, Exclusive, false);
    forall u | u in txns
      ensures Linked(Queue(q.requests[i := r], true, txn), rid, u, txns[txn := t'][u])
    {
      assert Linked(q, rid, u, txns[u]);
      UpdatedRequest(q.requests, i, r, u);
      UpdatedRequest(q.requests, i, q.requests[i], u);
      assert q.requests[i := q.requests[i]] == q.requests;
    }
  }

  /** Giving up a lock. */
  lemma UnlockKeeps(s: State, txn: TxnId, t: Txn, rid: RID)
    requires Inv(s) && txn in s.txns
    requires t == s.txns[txn].(pc := t.pc) && !t.pc.Waiting? && !s.txns[txn].pc.Waiting? && !t.pc.Called?
    requires t.pc.ReleasingShared? ==> t.shared - {rid} == t.pc.todo
    requires t.pc.ReleasingExclusive? ==> t.shared == {} && t.exclusive - {rid} == t.pc.todo
    ensures Inv(UnlockStep(s, txn, t, rid).state)
  {
    var s' := UnlockStep(s, txn, t, rid).state;
    var q := QueueOf(s, rid);
    assert QueueOk(q, rid, s.txns) && Linked(q, rid, txn, s.txns[txn]);
    if rid in t.shared || rid in t.exclusive {
      var r := Request(txn, if rid in t.shared then Shared else Exclusive, true);
      var i :| 0 <= i < |q.requests| && q.requests[i] == r;
      DropKeeps(q, rid, s.txns, txn, i, s'.txns[txn], QueueOf(s', rid));
    } else {
      forall u | u in s'.txns
        ensures Linked(q, rid, u, s'.txns[u])
      {
        assert Linked(q, rid, u, s.txns[u]);
      }
      assert t.shared - {rid} == t.shared && t.exclusive - {rid} == t.exclusive;
    }
    LocalStep(s, s', rid, txn);
  }

  /** A step that changes neither a queue, nor a lock set, nor a wait. */
  lemma QuietStep(s: State, s': State, txn: TxnId)
    requires Inv(s) && txn in s.txns && s'.txns.Keys == s.txns.Keys
    requires forall u :: u in s.txns && u != txn ==> s'.txns[u] == s.txns[u]
    requires forall r :: QueueOf(s', r) == QueueOf(s, r)
    requires s'.txns[txn].shared == s.txns[txn].shared && s'.txns[txn].exclusive == s.txns[txn].exclusive
    requires s'.txns[txn].pc == s.txns[txn].pc || (!s'.txns[txn].pc.Waiting? && !s.txns[txn].pc.Waiting?)
    requires TxnOk(s'.txns[txn])
    ensures Inv(s')
  {
    var rid := RID(INVALID, 0);
    var q := QueueOf(s, rid);
    assert QueueOk(q, rid, s.txns);
    forall u | u in s'.txns
      ensures Linked(q, rid, u, s'.txns[u])
    {
      assert Linked(q, rid, u, s.txns[u]);
    }
    LocalStep(s, s', rid, txn);
  }

  lemma BeginKeeps(s: State, txn: TxnId)
    requires Inv(s) && txn !in s.txns
    ensures Inv(s.(txns := s.txns[txn := Txn(Active, {}, {}, Idle)]))
  {
    var s' := s.(txns := s.txns[txn := Txn(Active, {}, {}, Idle)]);
    forall r
      ensures QueueOk(QueueOf(s', r), r, s'.txns)
    {
      var q := QueueOf(s, r);
      assert QueueOk(q, r, s.txns);
      forall u | u in s'.txns
        ensures Linked(q, r, u, s'.txns[u])
      {
        if u != txn {
          assert Linked(q, r, u, s.txns[u]);
        } else {
          assert forall m, g :: Request(txn, m, g) in q.requests ==> txn in s.txns;
        }
      }
    }
  }

  lemma EnterKeeps(s: State, txn: TxnId)
    requires Inv(s) && txn in s.txns && s.txns[txn].pc.Called?
    ensures Inv(Next(s, Enter(txn)).state)
  {
    var want, rid := s.txns[txn].pc.want, s.txns[txn].pc.rid;
    if want != WantUpgrade {
      EnterLockKeeps(s, txn, want, rid);
    } else {
      EnterUpgradeKeeps(s, txn, rid);
    }
  }

  lemma EnterLockKeeps(s: State, txn: TxnId, want: Want, rid: RID)
    requires Inv(s) && txn in s.txns && s.txns[txn].pc == Called(want, rid) && want != WantUpgrade
    ensures Inv(EnterStep(s, txn, s.txns[txn], want, rid).state)
  {
    var q := QueueOf(s, rid);
    EnqueueKeeps(s, txn, want, rid);
    var r := Request(txn, if want == WantShared then Shared else Exclusive, false);
    SettleKeeps(s, txn, s.txns[txn], q.(requests := q.requests + [r]), want, rid);
  }

  lemma EnterUpgradeKeeps(s: State, txn: TxnId, rid: RID)
    requires Inv(s) && txn in s.txns && s.txns[txn].pc == Called(WantUpgrade, rid)
    ensures Inv(EnterStep(s, txn, s.txns[txn], WantUpgrade, rid).state)
  {
    var q, t := QueueOf(s, rid), s.txns[txn];
    if rid !in t.shared || q.upgrading {
      QuietStep(s, EnterStep(s, txn, t, WantUpgrade, rid).state, txn);
    } else {
      DemoteKeeps(s, txn, rid);
      SettleKeeps(s, txn, t.(shared := t.shared - {rid}), Queue(Demote(q.requests, txn), true, txn), WantUpgrade, rid);
    }
  }

  /** Every step of every transaction, and every outside change of a state, keeps the invariant. */
  lemma StepKeeps(s: State, ev: Event)
    requires Inv(s) && Enabled(s, ev)
    ensures Inv(Next(s, ev).state)
  {
    var s' := Next(s, ev).state;
    if !ev.Begin? {
      assert TxnOk(s.txns[ev.txn]);
    }
    match ev {
      case Begin(txn) => BeginKeeps(s, txn);
      case Enter(txn) => EnterKeeps(s, txn);
      case Wake(txn) =>
        var t := s.txns[txn];
        WakeIsPut(s, txn);
        SettleKeeps(s, txn, t, QueueOf(s, t.pc.rid), t.pc.want, t.pc.rid);
      case Unlock(txn, rid) => UnlockKeeps(s, txn, s.txns[txn], rid);
      case ReleaseOne(txn, rid) =>
        var t := s.txns[txn];
        UnlockKeeps(s, txn, if t.pc.ReleasingShared? then t.(pc := ReleasingShared(t.pc.todo - {rid}))
                            else t.(pc := ReleasingExclusive(t.pc.todo - {rid})), rid);
      case SetStatus(txn, _) => QuietStep(s, s', txn);
      case Call(txn, _, _) => QuietStep(s, s', txn);
      case StartRelease(txn) => QuietStep(s, s', txn);
      case ReleaseNext(txn) => QuietStep(s, s', txn);
    }
  }

  lemma WakeIsPut(s: State, txn: TxnId)
    requires Inv(s) && txn in s.txns && s.txns[txn].pc.Waiting?
    ensures var t := s.txns[txn];
      Inv(Put(s, t.pc.rid, QueueOf(s, t.pc.rid), txn, t.(pc := Waiting(t.pc.want, t.pc.rid))))
  {
    var t := s.txns[txn];
    var s' := Put(s, t.pc.rid, QueueOf(s, t.pc.rid), txn, t.(pc := Waiting(t.pc.want, t.pc.rid)));
    assert s'.txns == s.txns;
    assert TxnOk(t);
    QuietStep(s, s', txn);
  }

  // ---- Runs --------------------------------------------------------------

  const START := State(map[], map[])

  /** A run: each event is enabled in the state the previous ones lead to. */
  ghost predicate IsRun(events: seq<Event>) {
    events == [] ||
    (IsRun(events[..|events| - 1]) && Enabled(After(events[..|events| - 1]), events[|events| - 1]))
  }

  ghost function After(events: seq<Event>): State {
    if events == [] then START
    else
      var s := After(events[..|events| - 1]);
      if Enabled(s, events[|events| - 1]) then Next(s, events[|events| - 1]).state else s
  }

  /** The invariant holds after every run. */
  lemma {:induction false} RunKeeps(events: seq<Event>)
    requires IsRun(events)
    ensures Inv(After(events))
  {
    if events == [] {
      assert forall rid :: QueueOf(START, rid) == EMPTY_QUEUE;
    } else {
      RunKeeps(events[..|events| - 1]);
      StepKeeps(After(events[..|events| - 1]), events[|events| - 1]);
    }
  }

  /** An exclusive lock excludes every other lock on the record, its request is at
      the front of the queue and nobody has two requests for one record. */
  lemma MutualExclusion(events: seq<Event>, rid: RID, a: TxnId, b: TxnId)
    requires IsRun(events)
    requires a in After(events).txns && b in After(events).txns && rid in After(events).txns[a].exclusive
    ensures rid in After(events).txns[b].shared || rid in After(events).txns[b].exclusive ==> a == b
    ensures var rs := QueueOf(After(events), rid).requests;
      && rs != [] && rs[0] == Request(a, Exclusive, true)
      && (forall i :: 1 <= i < |rs| ==> !rs[i].granted && rs[i].txn != a)
  {
    RunKeeps(events);
    var s := After(events);
    var q := QueueOf(s, rid);
    assert QueueOk(q, rid, s.txns) && Linked(q, rid, a, s.txns[a]) && Linked(q, rid, b, s.txns[b]);
    var i :| 0 <= i < |q.requests| && q.requests[i] == Request(a, Exclusive, true);
    if rid in s.txns[b].shared || rid in s.txns[b].exclusive {
      var m := if rid in s.txns[b].shared then Shared else Exclusive;
      var j :| 0 <= j < |q.requests| && q.requests[j] == Request(b, m, true);
    }
  }

  /** The lock sets of a transaction are exactly its granted requests, and an idle
      transaction has no others. */
  lemma LockSetsAreGrants(events: seq<Event>, rid: RID, a: TxnId)
    requires IsRun(events) && a in After(events).txns
    ensures var s, rs := After(events), QueueOf(After(events), rid).requests;
      && (rid in s.txns[a].shared <==> Request(a, Shared, true) in rs)
      && (rid in s.txns[a].exclusive <==> Request(a, Exclusive, true) in rs)
      && (s.txns[a].pc == Idle ==> (HasRequest(rs, a) <==> rid in s.txns[a].shared || rid in s.txns[a].exclusive))
  {
    RunKeeps(events);
    var s := After(events);
    var q := QueueOf(s, rid);
    assert QueueOk(q, rid, s.txns) && Linked(q, rid, a, s.txns[a]);
    if s.txns[a].pc == Idle && HasRequest(q.requests, a) {
      var i :| 0 <= i < |q.requests| && q.requests[i].txn == a;
      RequestKind(q, rid, a, s.txns[a], i);
    }
  }

  /** When `releaseAll` returns, the transaction holds nothing and no queue has a
      request of it, whatever other transactions did in between. */
  lemma ReleaseAllReleases(events: seq<Event>, a: TxnId, rid: RID)
    requires IsRun(events) && a in After(events).txns
    requires Enabled(After(events), ReleaseNext(a)) && After(events).txns[a].pc.ReleasingExclusive?
    ensures var s := Next(After(events), ReleaseNext(a)).state;
      && s.txns[a].pc == Idle && s.txns[a].shared == {} && s.txns[a].exclusive == {}
      && !HasRequest(QueueOf(s, rid).requests, a)
  {
    RunKeeps(events);
    assert TxnOk(After(events).txns[a]);
    var longer := events + [ReleaseNext(a)];
    assert longer[..|longer| - 1] == events;
    LockSetsAreGrants(longer, rid, a);
  }

  // ---- No lost wake-up ---------------------------------------------------

  ghost predicate Grantable(s: State, txn: TxnId) {
    && txn in s.txns && s.txns[txn].pc.Waiting?
    && CanGrant(QueueOf(s, s.txns[txn].pc.rid), txn, s.txns[txn].pc.want)
  }

  ghost predicate Blocked(s: State, txn: TxnId) {
    txn in s.txns && s.txns[txn].pc.Waiting? && !Grantable(s, txn)
  }

  /** Granting one request makes no other waiting request grantable. */
  lemma GrantEnablesNobody(q: Queue, rid: RID, txns: map<TxnId, Txn>, a: TxnId, want: Want, b: TxnId, other: Want)
    requires QueueOk(q, rid, txns) && a in txns && b in txns && a != b
    requires txns[a].pc == Waiting(want, rid) && txns[b].pc == Waiting(other, rid)
    requires CanGrant(q, a, want) && !CanGrant(q, b, other)
    ensures !CanGrant(Cleared(q, Grant(q.requests, a), want), b, other)
  {
    var i := WaiterAt(q, rid, txns, a, want);
    var k := WaiterAt(q, rid, txns, b, other);
    GrantAt(q.requests, i);
    var rs := q.requests[i := q.requests[i].(granted := true)];
    if other == WantShared {
      GrantKeepsReach(q.requests, i, k);
      if want != WantShared {
        assert rs[0].mode == Exclusive && k > 0;
      }
    } else {
      assert rs[i].granted && rs[i].txn == a;
    }
  }

  /** Granting changes no mode, hence not which shared requests are reached. */
  lemma GrantKeepsReach(requests: seq<Request>, i: nat, k: nat)
    requires DistinctTxns(requests) && i < |requests| && k < |requests| && i != k
    ensures var rs := requests[i := requests[i].(granted := true)];
      && (ReachedShared(rs, requests[k].txn) <==> ReachedShared(requests, requests[k].txn))
      && (requests[0].mode == Exclusive && k > 0 ==> !ReachedShared(rs, requests[k].txn))
  {
    var rs := requests[i := requests[i].(granted := true)];
    ReachedSharedAt(requests, k);
    ReachedSharedAt(rs, k);
    assert forall j :: 0 <= j < |rs| ==> rs[j].mode == requests[j].mode;
  }

  /** Starting an upgrade makes no waiting request grantable. */
  lemma DemoteEnablesNobody(q: Queue, rid: RID, txns: map<TxnId, Txn>, a: TxnId, b: TxnId, other: Want)
    requires QueueOk(q, rid, txns) && a in txns && b in txns && a != b
    requires rid in txns[a].shared && !q.upgrading && txns[b].pc == Waiting(other, rid)
    requires !CanGrant(q, b, other)
    ensures !CanGrant(Queue(Demote(q.requests, a), true, a), b, other)
  {
    assert Linked(q, rid, a, txns[a]);
    var i :| 0 <= i < |q.requests| && q.requests[i] == Request(a, Shared, true);
    var k := WaiterAt(q, rid, txns, b, other);
    DemoteAt(q.requests, i);
    var rs := q.requests[i := Request(a, Exclusive, false)];
    assert other != WantShared ==> k != 0;
    assert rs[k] == q.requests[k] && rs[0].txn == q.requests[0].txn;
    assert k != 0 ==> q.requests[0].txn != b;
  }

  /** A new request at the end of a queue makes no waiting request grantable. */
  lemma EnqueueEnablesNobody(q: Queue, rid: RID, txns: map<TxnId, Txn>, r: Request, b: TxnId, other: Want)
    requires QueueOk(q, rid, txns) && b in txns && r.txn != b && !r.granted
    requires txns[b].pc == Waiting(other, rid) && !CanGrant(q, b, other)
    requires DistinctTxns(q.requests + [r])
    ensures !CanGrant(q.(requests := q.requests + [r]), b, other)
  {
    var k := WaiterAt(q, rid, txns, b, other);
    var rs := q.requests + [r];
    assert forall j :: 0 <= j < |q.requests| ==> rs[j] == q.requests[j];
    if other == WantShared {
      ReachedSharedAt(q.requests, k);
      ReachedSharedAt(rs, k);
    }
  }

  /** A wait predicate that does not notify anybody makes nobody else grantable. */
  lemma SettleEnablesNobody(s: State, txn: TxnId, t: Txn, q: Queue, want: Want, rid: RID, b: TxnId)
    requires txn in s.txns && b in s.txns && b != txn && s.txns[b].pc.Waiting?
    requires Inv(Put(s, rid, q, txn, t.(pc := Waiting(want, rid))))
    requires Settle(s, txn, t, q, want, rid).notified == None
    requires s.txns[b].pc.rid == rid ==> !CanGrant(q, b, s.txns[b].pc.want)
    requires s.txns[b].pc.rid != rid ==> Blocked(s, b)
    ensures Blocked(Settle(s, txn, t, q, want, rid).state, b)
  {
    var s1 := Put(s, rid, q, txn, t.(pc := Waiting(want, rid)));
    assert QueueOk(QueueOf(s1, rid), rid, s1.txns) && QueueOf(s1, rid) == q;
    if s.txns[b].pc.rid == rid && CanGrant(q, txn, want) {
      GrantEnablesNobody(q, rid, s1.txns, txn, want, b, s.txns[b].pc.want);
    }
  }

  /** Entering to ask for a new lock joins the queue, and then tries. */
  lemma EnterSettles(s: State, a: TxnId)
    requires a in s.txns && s.txns[a].pc.Called? && s.txns[a].pc.want != WantUpgrade
    ensures var t := s.txns[a];
      var q := QueueOf(s, t.pc.rid);
      var r := Request(a, if t.pc.want == WantShared then Shared else Exclusive, false);
      Next(s, Enter(a)) == Settle(s, a, t, q.(requests := q.requests + [r]), t.pc.want, t.pc.rid)
  {
  }

  lemma EnqueueWakes(s: State, a: TxnId, b: TxnId)
    requires Inv(s) && a in s.txns && s.txns[a].pc.Called? && b != a && Blocked(s, b)
    requires s.txns[a].pc.want != WantUpgrade && Next(s, Enter(a)).notified == None
    ensures Blocked(Next(s, Enter(a)).state, b)
  {
    var t := s.txns[a];
    var want, rid := t.pc.want, t.pc.rid;
    var q := QueueOf(s, rid);
    EnterSettles(s, a);
    assert QueueOk(q, rid, s.txns);
    EnqueueKeeps(s, a, want, rid);
    var r := Request(a, if want == WantShared then Shared else Exclusive, false);
    var q' := q.(requests := q.requests + [r]);
    var s1 := Put(s, rid, q', a, t.(pc := Waiting(want, rid)));
    assert QueueOk(QueueOf(s1, rid), rid, s1.txns);
    if s.txns[b].pc.rid == rid {
      EnqueueEnablesNobody(q, rid, s.txns, r, b, s.txns[b].pc.want);
    }
    SettleEnablesNobody(s, a, t, q', want, rid, b);
  }

  lemma UpgradeWakes(s: State, a: TxnId, b: TxnId)
    requires Inv(s) && a in s.txns && s.txns[a].pc.Called? && b != a && Blocked(s, b)
    requires s.txns[a].pc.want == WantUpgrade && Next(s, Enter(a)).notified == None
    ensures Blocked(Next(s, Enter(a)).state, b)
  {
    var t := s.txns[a];
    var rid := t.pc.rid;
    var q := QueueOf(s, rid);
    assert QueueOk(q, rid, s.txns);
    if rid in t.shared && !q.upgrading {
      DemoteKeeps(s, a, rid);
      if s.txns[b].pc.rid == rid {
        DemoteEnablesNobody(q, rid, s.txns, a, b, s.txns[b].pc.want);
      }
      SettleEnablesNobody(s, a, t.(shared := t.shared - {rid}), Queue(Demote(q.requests, a), true, a),
                          WantUpgrade, rid, b);
    }
  }

  /** Entering the queue: only giving up on an aborted request can enable others, and it notifies. */
  lemma EnterWakes(s: State, a: TxnId, b: TxnId)
    requires Inv(s) && a in s.txns && s.txns[a].pc.Called? && b != a && Blocked(s, b)
    requires Grantable(Next(s, Enter(a)).state, b)
    ensures Next(s, Enter(a)).notified == Some(s.txns[b].pc.rid)
  {
    if Next(s, Enter(a)).notified == None {
      if s.txns[a].pc.want == WantUpgrade {
        UpgradeWakes(s, a, b);
      } else {
        EnqueueWakes(s, a, b);
      }
    }
  }

  /** No wake-up is lost: whenever a step makes the wait predicate of another
      transaction true, it notifies the queue that this transaction waits in. */
  lemma NoLostWakeUp(s: State, ev: Event, b: TxnId)
    requires Inv(s) && Enabled(s, ev) && ev.txn != b && Blocked(s, b)
    requires Grantable(Next(s, ev).state, b)
    ensures Next(s, ev).notified == Some(s.txns[b].pc.rid)
  {
    match ev {
      case Enter(a) => EnterWakes(s, a, b);
      case Wake(a) =>
        var t := s.txns[a];
        WakeIsPut(s, a);
        if Next(s, ev).notified == None {
          SettleEnablesNobody(s, a, t, QueueOf(s, t.pc.rid), t.pc.want, t.pc.rid, b);
        }
      case Begin(_) =>
      case SetStatus(_, _) =>
      case Call(_, _, _) =>
      case Unlock(_, _) =>
      case StartRelease(_) =>
      case ReleaseOne(_, _) =>
      case ReleaseNext(_) =>
    }
  }

  // ---- Who gets the lock, and when -----------------------------------------

  function ModeOf(want: Want): Mode {
    if want == WantShared then Shared else Exclusive
  }

  /** The state once transaction `txn` has left its place `i` in the queue of `rid` with the lock,
      or goes on waiting there. */
  ghost function Settled(s: State, txn: TxnId, t: Txn, q: Queue, want: Want, rid: RID, i: nat, clear: bool): State
    requires i < |q.requests|
  {
    var rs := q.requests[i := Request(txn, ModeOf(want), clear)];
    var over := clear && want == WantUpgrade;
    State(s.table[rid := Queue(rs, q.upgrading && !over, if over then 0 else q.upgradingTxn)],
          s.txns[txn := t.(shared := t.shared + (if clear && want == WantShared then {rid} else {}),
                           exclusive := t.exclusive + (if clear && want != WantShared then {rid} else {}),
                           pc := if clear then Idle else Waiting(want, rid))])
  }

  /** Evaluating the wait predicate of the request at place `i`. */
  lemma SettleExactly(s: State, txn: TxnId, t: Txn, q: Queue, want: Want, rid: RID, i: nat)
    requires DistinctTxns(q.requests) && i < |q.requests| && q.requests[i] == Request(txn, ModeOf(want), false)
    requires t.status != Aborted && (want == WantUpgrade ==> q.upgrading)
    ensures Settle(s, txn, t, q, want, rid).state == Settled(s, txn, t, q, want, rid, i, Clear(q, i, want))
  {
    GrantMeans(q, i, want);
    GrantAt(q.requests, i);
    assert q.requests[i := q.requests[i]] == q.requests;
    assert t.shared + {} == t.shared && t.exclusive + {} == t.exclusive;
  }

  /** Giving up leaves the queue without the request, and wakes it. */
  lemma GiveUpExactly(s: State, txn: TxnId, t: Txn, q: Queue, want: Want, rid: RID, i: nat)
    requires DistinctTxns(q.requests) && i < |q.requests| && q.requests[i].txn == txn && t.status == Aborted
    ensures var upgrade := want == WantUpgrade;
      Settle(s, txn, t, q, want, rid) ==
      Outcome(State(s.table[rid := Queue(q.requests[..i] + q.requests[i + 1..],
                                         !upgrade && q.upgrading, if upgrade then 0 else q.upgradingTxn)],
                    s.txns[txn := t.(pc := Idle)]), Some(rid))
  {
    DropAt(q.requests, i);
  }

  /** A waiting transaction that looks again: aborted, it gives up; else it has the lock
      afterwards exactly if its request is clear, and goes on waiting otherwise. */
  lemma WakeExactly(s: State, txn: TxnId, i: nat)
    requires Inv(s) && Enabled(s, Wake(txn))
    requires i < |QueueOf(s, s.txns[txn].pc.rid).requests| && QueueOf(s, s.txns[txn].pc.rid).requests[i].txn == txn
    ensures var t, s' := s.txns[txn], Next(s, Wake(txn)).state;
      var want, rid := t.pc.want, t.pc.rid;
      var q := QueueOf(s, rid);
      if t.status == Aborted then
        && s'.txns == s.txns[txn := t.(pc := Idle)]
        && QueueOf(s', rid).requests == q.requests[..i] + q.requests[i + 1..]
        && (forall r :: r != rid ==> QueueOf(s', r) == QueueOf(s, r))
      else s' == Settled(s, txn, t, q, want, rid, i, Clear(q, i, want))
  {
    var t := s.txns[txn];
    var q := QueueOf(s, t.pc.rid);
    assert QueueOk(q, t.pc.rid, s.txns);
    var k := WaiterAt(q, t.pc.rid, s.txns, txn, t.pc.want);
    assert i == k;
    if t.status == Aborted {
      GiveUpExactly(s, txn, t, q, t.pc.want, t.pc.rid, i);
    } else {
      SettleExactly(s, txn, t, q, t.pc.want, t.pc.rid, i);
    }
  }

  /** A new request can be granted at once. */
  ghost predicate ClearBehind(q: Queue, want: Want) {
    if want == WantShared then !q.upgrading && forall j :: 0 <= j < |q.requests| ==> q.requests[j].mode == Shared
    else q.requests == []
  }

  lemma ClearAtEnd(q: Queue, r: Request, want: Want)
    requires q.upgrading ==> q.upgradingTxn != r.txn
    ensures Clear(q.(requests := q.requests + [r]), |q.requests|, want) <==> ClearBehind(q, want)
  {
    var q' := q.(requests := q.requests + [r]);
    assert forall j :: 0 <= j < |q.requests| ==> q'.requests[j] == q.requests[j];
  }

  /** A transaction that was not aborted and asks for a new lock goes to the end of the
      queue.  It has a shared lock at once exactly if no exclusive request stands there and
      no upgrade is pending, an exclusive lock exactly if the queue is empty. */
  lemma EnterExactly(s: State, txn: TxnId)
    requires Inv(s) && Enabled(s, Enter(txn)) && s.txns[txn].status != Aborted && s.txns[txn].pc.want != WantUpgrade
    ensures var t := s.txns[txn];
      var want, rid := t.pc.want, t.pc.rid;
      var q := QueueOf(s, rid);
      var q' := q.(requests := q.requests + [Request(txn, ModeOf(want), false)]);
      Next(s, Enter(txn)).state == Settled(s, txn, t, q', want, rid, |q.requests|, ClearBehind(q, want))
  {
    var t := s.txns[txn];
    var want, rid := t.pc.want, t.pc.rid;
    var q, n := QueueOf(s, rid), |QueueOf(s, rid).requests|;
    var r := Request(txn, ModeOf(want), false);
    EnterSettles(s, txn);
    NewRequest(s, txn);
    ClearAtEnd(q, r, want);
    SettleExactly(s, txn, t, q.(requests := q.requests + [r]), want, rid, n);
  }

  lemma NewRequest(s: State, txn: TxnId)
    requires Inv(s) && txn in s.txns && s.txns[txn].pc.Called? && s.txns[txn].pc.want != WantUpgrade
    ensures var t := s.txns[txn];
      var q := QueueOf(s, t.pc.rid);
      DistinctTxns(q.requests + [Request(txn, ModeOf(t.pc.want), false)]) && (q.upgrading ==> q.upgradingTxn != txn)
  {
    var t := s.txns[txn];
    var q := QueueOf(s, t.pc.rid);
    assert QueueOk(q, t.pc.rid, s.txns) && Linked(q, t.pc.rid, txn, t) && TxnOk(t);
    EnqueueShape(q, t.pc.rid, s.txns, txn, t.pc.want, Request(txn, ModeOf(t.pc.want), false));
  }

  /** Asked while aborted, nothing is queued and nothing gained. */
  lemma EnterAborted(s: State, txn: TxnId)
    requires Inv(s) && Enabled(s, Enter(txn)) && s.txns[txn].status == Aborted && s.txns[txn].pc.want != WantUpgrade
    ensures var s' := Next(s, Enter(txn)).state;
      s'.txns == s.txns[txn := s.txns[txn].(pc := Idle)] && forall r :: QueueOf(s', r) == QueueOf(s, r)
  {
    var t := s.txns[txn];
    var q, n := QueueOf(s, t.pc.rid), |QueueOf(s, t.pc.rid).requests|;
    var r := Request(txn, ModeOf(t.pc.want), false);
    var q' := q.(requests := q.requests + [r]);
    EnterSettles(s, txn);
    NewRequest(s, txn);
    GiveUpExactly(s, txn, t, q', t.pc.want, t.pc.rid, n);
    assert q'.requests[..n] + q'.requests[n + 1..] == q.requests;
  }

  lemma DemotedClear(q: Queue, txn: TxnId, i: nat)
    requires DistinctTxns(q.requests) && i < |q.requests| && q.requests[i].txn == txn
    ensures var q' := Queue(q.requests[i := Request(txn, Exclusive, false)], true, txn);
      DistinctTxns(q'.requests) && (ExclusiveClear(q', i) <==> ExclusiveClear(q, i))
  {
    var rs := q.requests[i := Request(txn, Exclusive, false)];
    assert forall j :: 0 <= j < |rs| ==> rs[j].txn == q.requests[j].txn && (j != i ==> rs[j] == q.requests[j]);
  }

  /** An upgrade that is not refused keeps its place in the queue.  It has the exclusive lock
      at once exactly if its request is at the front and no other is granted; aborted
      meanwhile, it loses the shared lock and its place. */
  lemma UpgradeExactly(s: State, txn: TxnId, i: nat)
    requires Inv(s) && Enabled(s, Enter(txn)) && s.txns[txn].pc.want == WantUpgrade
    requires s.txns[txn].pc.rid in s.txns[txn].shared && !QueueOf(s, s.txns[txn].pc.rid).upgrading
    requires i < |QueueOf(s, s.txns[txn].pc.rid).requests| && QueueOf(s, s.txns[txn].pc.rid).requests[i].txn == txn
    ensures var rid := s.txns[txn].pc.rid;
      var t, q := s.txns[txn].(shared := s.txns[txn].shared - {rid}), QueueOf(s, rid);
      var s' := Next(s, Enter(txn)).state;
      if t.status == Aborted then
        && s'.txns == s.txns[txn := t.(pc := Idle)] && !QueueOf(s', rid).upgrading
        && QueueOf(s', rid).requests == q.requests[..i] + q.requests[i + 1..]
        && (forall r :: r != rid ==> QueueOf(s', r) == QueueOf(s, r))
      else s' == Settled(s, txn, t, Queue(q.requests, true, txn), WantUpgrade, rid, i, ExclusiveClear(q, i))
  {
    var rid := s.txns[txn].pc.rid;
    var t, q := s.txns[txn].(shared := s.txns[txn].shared - {rid}), QueueOf(s, rid);
    assert QueueOk(q, rid, s.txns) && Linked(q, rid, txn, s.txns[txn]);
    DemoteAt(q.requests, i);
    DemotedClear(q, txn, i);
    var rs := q.requests[i := Request(txn, Exclusive, false)];
    var q' := Queue(rs, true, txn);
    assert Next(s, Enter(txn)) == Settle(s, txn, t, q', WantUpgrade, rid);
    if t.status == Aborted {
      GiveUpExactly(s, txn, t, q', WantUpgrade, rid, i);
      assert rs[..i] == q.requests[..i] && rs[i + 1..] == q.requests[i + 1..];
    } else {
      SettleExactly(s, txn, t, q', WantUpgrade, rid, i);
      assert rs[i := Request(txn, Exclusive, ExclusiveClear(q, i))] == q.requests[i := Request(txn, Exclusive, ExclusiveClear(q, i))];
    }
  }

  /** Unlocking takes the one request of the transaction out of the one queue, and changes
      nothing but its lock sets otherwise; a lock that is not held stays so. */
  lemma UnlockExactly(s: State, txn: TxnId, rid: RID, i: nat)
    requires Inv(s) && Enabled(s, Unlock(txn, rid)) && (rid in s.txns[txn].shared || rid in s.txns[txn].exclusive)
    requires i < |QueueOf(s, rid).requests| && QueueOf(s, rid).requests[i].txn == txn
    ensures var s', t, q := Next(s, Unlock(txn, rid)).state, s.txns[txn], QueueOf(s, rid);
      && s'.txns == s.txns[txn := t.(shared := t.shared - {rid}, exclusive := t.exclusive - {rid})]
      && QueueOf(s', rid) == q.(requests := q.requests[..i] + q.requests[i + 1..])
      && (forall r :: r != rid ==> QueueOf(s', r) == QueueOf(s, r))
  {
    assert QueueOk(QueueOf(s, rid), rid, s.txns);
    DropAt(QueueOf(s, rid).requests, i);
  }

  /** The request of a waiting or upgrading transaction is clear. */
  ghost predicate RequestClear(s: State, txn: TxnId)
    requires txn in s.txns && (s.txns[txn].pc.Waiting? || s.txns[txn].pc.Called?)
  {
    var t := s.txns[txn];
    var q := QueueOf(s, t.pc.rid);
    exists i :: 0 <= i < |q.requests| && q.requests[i].txn == txn && Clear(q, i, t.pc.want)
  }

  /** What decides at the latch: the queue for a new request, the request itself for an upgrade. */
  ghost predicate EntersClear(s: State, txn: TxnId)
    requires txn in s.txns && s.txns[txn].pc.Called?
  {
    if s.txns[txn].pc.want == WantUpgrade then RequestClear(s, txn)
    else ClearBehind(QueueOf(s, s.txns[txn].pc.rid), s.txns[txn].pc.want)
  }

  lemma WakeGrants(s: State, txn: TxnId)
    requires Inv(s) && Enabled(s, Wake(txn)) && s.txns[txn].status != Aborted
    ensures Next(s, Wake(txn)).state.txns[txn].pc == Idle <==> RequestClear(s, txn)
  {
    var t := s.txns[txn];
    var q := QueueOf(s, t.pc.rid);
    assert QueueOk(q, t.pc.rid, s.txns);
    var i := WaiterAt(q, t.pc.rid, s.txns, txn, t.pc.want);
    WakeExactly(s, txn, i);
    assert forall j :: 0 <= j < |q.requests| && q.requests[j].txn == txn ==> j == i;
  }

  lemma EnterGrants(s: State, txn: TxnId)
    requires Inv(s) && Enabled(s, Enter(txn)) && s.txns[txn].status != Aborted
    requires s.txns[txn].pc.want == WantUpgrade ==>
      s.txns[txn].pc.rid in s.txns[txn].shared && !QueueOf(s, s.txns[txn].pc.rid).upgrading
    ensures Next(s, Enter(txn)).state.txns[txn].pc == Idle <==> EntersClear(s, txn)
  {
    var t := s.txns[txn];
    var q := QueueOf(s, t.pc.rid);
    if t.pc.want == WantUpgrade {
      assert QueueOk(q, t.pc.rid, s.txns) && Linked(q, t.pc.rid, txn, t);
      var i :| 0 <= i < |q.requests| && q.requests[i] == Request(txn, Shared, true);
      UpgradeExactly(s, txn, i);
      assert forall j :: 0 <= j < |q.requests| && q.requests[j].txn == txn ==> j == i;
    } else {
      EnterExactly(s, txn);
    }
  }
}
