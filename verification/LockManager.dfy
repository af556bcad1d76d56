/** The lock manager's own code, region by region, against the protocol's steps. */
module LockManager {
  import opened Common
  import opened LockProtocol
  import opened LockSafety

  lemma GrantsMean(q: Queue, txn: TxnId, want: Want)
    ensures forall i :: 0 <= i < |q.requests| && q.requests[i].txn == txn && DistinctTxns(q.requests) ==>
      (CanGrant(q, txn, want) <==> Clear(q, i, want))
    ensures !HasRequest(q.requests, txn) ==> !CanGrant(q, txn, want)
  {
    forall i | 0 <= i < |q.requests| && q.requests[i].txn == txn && DistinctTxns(q.requests)
      ensures CanGrant(q, txn, want) <==> Clear(q, i, want)
    {
      GrantMeans(q, i, want);
    }
    if !HasRequest(q.requests, txn) {
      NoRequestNoGrant(q, txn, want);
    }
  }

  /** The loop of `canGrantShared`. */
  method CheckShared(q: Queue, txn: TxnId) returns (ok: bool)
    ensures ok == CanGrantShared(q, txn)
    ensures forall i :: 0 <= i < |q.requests| && q.requests[i].txn == txn && DistinctTxns(q.requests) ==>
      (ok <==> SharedClear(q, i))
    ensures !HasRequest(q.requests, txn) ==> !ok
  {
    GrantsMean(q, txn, WantShared);
    if q.upgrading && q.upgradingTxn != txn {
      return false;
    }
    var i := 0;
    while i < |q.requests|
      invariant i <= |q.requests|
      invariant ReachedShared(q.requests, txn) == ReachedShared(q.requests[i..], txn)
    {
      if q.requests[i].txn == txn {
        return true;
      }
      if q.requests[i].mode == Exclusive {
        return false;
      }
      assert q.requests[i..][1..] == q.requests[i + 1..];
      i := i + 1;
    }
    ok := false;
  }

  /** The two loops of `canGrantExclusive`; the second looks at the front only. */
  method CheckExclusive(q: Queue, txn: TxnId) returns (ok: bool)
    ensures ok == CanGrantExclusive(q, txn)
    ensures forall i :: 0 <= i < |q.requests| && q.requests[i].txn == txn && DistinctTxns(q.requests) ==>
      (ok <==> ExclusiveClear(q, i))
    ensures !HasRequest(q.requests, txn) ==> !ok
  {
    GrantsMean(q, txn, WantExclusive);
    var i := 0;
    while i < |q.requests|
      invariant i <= |q.requests|
      invariant forall j :: 0 <= j < i && q.requests[j].granted ==> q.requests[j].txn == txn
    {
      if q.requests[i].txn != txn && q.requests[i].granted {
        return false;
      }
      i := i + 1;
    }
    ok := q.requests != [] && q.requests[0].txn == txn;
  }

  method GrantLock(requests: seq<Request>, txn: TxnId) returns (r: seq<Request>)
    ensures r == Grant(requests, txn)
  {
    var i := 0;
    while i < |requests|
      invariant i <= |requests|
      invariant Grant(requests, txn) == requests[..i] + Grant(requests[i..], txn)
    {
      assert requests[i..][1..] == requests[i + 1..];
      if requests[i].txn == txn {
        return requests[i := requests[i].(granted := true)];
      }
      i := i + 1;
    }
    r := requests;
  }

  method RemoveRequest(requests: seq<Request>, txn: TxnId) returns (r: seq<Request>)
    ensures r == Drop(requests, txn)
  {
    var i := 0;
    while i < |requests|
      invariant i <= |requests|
      invariant Drop(requests, txn) == requests[..i] + Drop(requests[i..], txn)
    {
      assert requests[i..][1..] == requests[i + 1..];
      if requests[i].txn == txn {
        return requests[..i] + requests[i + 1..];
      }
      i := i + 1;
    }
    r := requests;
  }

  /** The transaction holds the lock that a call asks for. */
  ghost predicate Holds(t: Txn, pc: Pc)
    requires pc.Called? || pc.Waiting?
  {
    pc.rid in if pc.want == WantShared then t.shared else t.exclusive
  }

  /** An upgrade that is turned down at once: no shared lock to upgrade, or an upgrade pending. */
  ghost predicate UpgradeRefused(s: State, txn: TxnId)
    requires txn in s.txns && s.txns[txn].pc.Called?
  {
    var t := s.txns[txn];
    t.pc.want == WantUpgrade && (t.pc.rid !in t.shared || QueueOf(s, t.pc.rid).upgrading)
  }

  /** Asking to upgrade a lock that is held exclusively aborts the transaction; it keeps
      the lock, and nothing changes for anybody else. */
  lemma ExclusiveUpgradeAborts(s: State, txn: TxnId, rid: RID)
    requires Inv(s) && txn in s.txns && s.txns[txn].pc == Called(WantUpgrade, rid) && rid in s.txns[txn].exclusive
    ensures UpgradeRefused(s, txn)
    ensures var s' := Next(s, Enter(txn)).state;
      && s'.txns == s.txns[txn := s.txns[txn].(status := Aborted, pc := Idle)] && rid in s'.txns[txn].exclusive
      && (forall r :: QueueOf(s', r) == QueueOf(s, r))
  {
    var q := QueueOf(s, rid);
    assert QueueOk(q, rid, s.txns) && Linked(q, rid, txn, s.txns[txn]);
  }

  class LockManager {
    var table: map<RID, Queue>
    var txns: map<TxnId, Txn>

    ghost function Abstract(): State
      reads this
    {
      State(table, txns)
    }

    constructor ()
      ensures Abstract() == START
    {
      table, txns := map[], map[];
    }

    /** The tail of each lock call under the latch: the wait predicate, then giving
        up, taking the lock, or going to sleep.  `answer` is the call's result, if
        it returns. */
    method Conclude(txn: TxnId, t: Txn, q: Queue, want: Want, rid: RID) returns (answer: Option<bool>, notify: bool)
      requires txn in txns
      modifies this
      ensures var out := Settle(old(Abstract()), txn, t, q, want, rid);
        Abstract() == out.state && notify == out.notified.Some?
      ensures answer == if t.status == Aborted then Some(false) else if CanGrant(q, txn, want) then Some(true) else None
    {
      var flag := if want == WantUpgrade then false else q.upgrading;
      var who := if want == WantUpgrade then 0 else q.upgradingTxn;
      if t.status == Aborted {
        var rest := RemoveRequest(q.requests, txn);
        table := table[rid := Queue(rest, flag, who)];
        txns := txns[txn := t.(pc := Idle)];
        return Some(false), true;
      }
      var ok;
      if want == WantShared {
        ok := CheckShared(q, txn);
      } else {
        ok := CheckExclusive(q, txn);
      }
      if ok {
        var granted := GrantLock(q.requests, txn);
        table := table[rid := Queue(granted, flag, who)];
        if want == WantShared {
          txns := txns[txn := t.(shared := t.shared + {rid}, pc := Idle)];
        } else {
          txns := txns[txn := t.(exclusive := t.exclusive + {rid}, pc := Idle)];
        }
        return Some(true), false;
      }
      table := table[rid := q];
      txns := txns[txn := t.(pc := Waiting(want, rid))];
      return None, false;
    }

    /** The prologue of a lock call, which reads the calling transaction only; it
        answers at once, or the call goes on to the latch. */
    method Ask(txn: TxnId, want: Want, rid: RID) returns (answer: Option<bool>)
      requires txn in txns && txns[txn].pc == Idle && Inv(Abstract())
      modifies this`txns
      ensures Abstract() == Next(old(Abstract()), Call(txn, want, rid)).state && Inv(Abstract())
      ensures answer.None? <==> txns[txn].pc == Called(want, rid)
      ensures answer == Some(true) <==>
        && old(txns[txn].status) != Aborted && want != WantUpgrade
        && (rid in old(txns[txn].exclusive) || (want == WantShared && rid in old(txns[txn].shared)))
      ensures answer == Some(false) <==>
        || old(txns[txn].status) == Aborted
        || (want == WantExclusive && rid in old(txns[txn].shared) && rid !in old(txns[txn].exclusive))
      ensures txns == old(txns)[txn := old(txns[txn]).(
        status := if answer == Some(false) then Aborted else old(txns[txn].status),
        pc := if answer == None then Called(want, rid) else Idle)]
    {
      StepKeeps(Abstract(), Call(txn, want, rid));
      var t := txns[txn];
      if t.status == Aborted {
        return Some(false);
      }
      if want == WantShared && (rid in t.shared || rid in t.exclusive) {
        return Some(true);
      }
      if want == WantExclusive {
        if rid in t.exclusive {
          return Some(true);
        }
        if rid in t.shared {
          txns := txns[txn := t.(status := Aborted)];
          return Some(false);
        }
      }
      txns := txns[txn := t.(pc := Called(want, rid))];
      return None;
    }

    /** From taking the latch to returning or waiting. */
    method Acquire(txn: TxnId) returns (answer: Option<bool>, notify: bool)
      requires txn in txns && txns[txn].pc.Called? && Inv(Abstract())
      modifies this
      ensures var out := Next(old(Abstract()), Enter(txn));
        Abstract() == out.state && notify == out.notified.Some?
      ensures Inv(Abstract())
      ensures answer.None? <==> txns[txn].pc.Waiting?
      ensures answer == Some(true) ==> Holds(txns[txn], old(txns[txn].pc))
      ensures answer == Some(false) <==> old(txns[txn].status) == Aborted || UpgradeRefused(old(Abstract()), txn)
      ensures answer == Some(true) <==>
        old(txns[txn].status) != Aborted && !UpgradeRefused(old(Abstract()), txn) && EntersClear(old(Abstract()), txn)
      ensures answer == Some(false) ==>
        txns[txn].status == Aborted && (Holds(txns[txn], old(txns[txn].pc)) ==> Holds(old(txns[txn]), old(txns[txn].pc)))
    {
      StepKeeps(Abstract(), Enter(txn));
      if txns[txn].status != Aborted && !UpgradeRefused(Abstract(), txn) {
        EnterGrants(Abstract(), txn);
      }
      var t := txns[txn];
      var rid, want := t.pc.rid, t.pc.want;
      var q := if rid in table then table[rid] else EMPTY_QUEUE;
      match want {
        case WantShared =>
          answer, notify := Conclude(txn, t, q.(requests := q.requests + [Request(txn, Shared, false)]), want, rid);
        case WantExclusive =>
          answer, notify := Conclude(txn, t, q.(requests := q.requests + [Request(txn, Exclusive, false)]), want, rid);
        case WantUpgrade =>
          if rid !in t.shared || q.upgrading {
            table := table[rid := q];
            txns := txns[txn := t.(status := Aborted, pc := Idle)];
            return Some(false), false;
          }
          var waiting := Demote(q.requests, txn);
          answer, notify := Conclude(txn, t.(shared := t.shared - {rid}), Queue(waiting, true, txn), want, rid);
      }
    }

    /** One return from the condition variable. */
    method Resume(txn: TxnId) returns (answer: Option<bool>, notify: bool)
      requires txn in txns && txns[txn].pc.Waiting? && Inv(Abstract())
      modifies this
      ensures var out := Next(old(Abstract()), Wake(txn));
        Abstract() == out.state && notify == out.notified.Some?
      ensures Inv(Abstract())
      ensures answer.None? <==> txns[txn].pc.Waiting?
      ensures answer == Some(true) ==> Holds(txns[txn], old(txns[txn].pc))
      ensures answer == Some(false) <==> old(txns[txn].status) == Aborted
      ensures answer == Some(false) ==> txns[txn].status == Aborted && !Holds(txns[txn], old(txns[txn].pc))
      ensures answer == Some(true) <==> old(txns[txn].status) != Aborted && RequestClear(old(Abstract()), txn)
    {
      StepKeeps(Abstract(), Wake(txn));
      if txns[txn].status != Aborted {
        WakeGrants(Abstract(), txn);
      }
      var t := txns[txn];
      var q := if t.pc.rid in table then table[t.pc.rid] else EMPTY_QUEUE;
      answer, notify := Conclude(txn, t, q, t.pc.want, t.pc.rid);
    }

    method Release(txn: TxnId, rid: RID) returns (ok: bool)
      requires txn in txns && txns[txn].pc == Idle && Inv(Abstract())
      modifies this
      ensures Abstract() == Next(old(Abstract()), Unlock(txn, rid)).state && Inv(Abstract())
      ensures txns == old(txns)[txn := old(txns[txn]).(
        shared := old(txns[txn].shared) - {rid}, exclusive := old(txns[txn].exclusive) - {rid})]
      ensures forall r :: r != rid ==> QueueOf(Abstract(), r) == QueueOf(old(Abstract()), r)
      ensures ok <==> rid in old(txns[txn].shared) || rid in old(txns[txn].exclusive)
    {
      StepKeeps(Abstract(), Unlock(txn, rid));
      var t := txns[txn];
      if rid !in t.shared && rid !in t.exclusive {
        assert txns[txn := t] == txns && t.shared - {rid} == t.shared && t.exclusive - {rid} == t.exclusive;
        return false;
      }
      var q := if rid in table then table[rid] else EMPTY_QUEUE;
      var rest := RemoveRequest(q.requests, txn);
      table := table[rid := q.(requests := rest)];
      txns := txns[txn := t.(shared := t.shared - {rid}, exclusive := t.exclusive - {rid})];
      ok := true;
    }

    /** Unlocks a copy of the shared set, then a copy of the exclusive set. */
    method ReleaseAll(txn: TxnId)
      requires txn in txns && txns[txn].pc == Idle && Inv(Abstract())
      modifies this
      ensures Inv(Abstract()) && txns.Keys == old(txns.Keys)
      ensures txns[txn] == old(txns[txn]).(shared := {}, exclusive := {})
      ensures forall u :: u in txns && u != txn ==> txns[u] == old(txns[u])
    {
      ghost var t := txns[txn];
      var todo := txns[txn].shared;
      while todo != {}
        invariant txn in txns && Inv(Abstract()) && txns.Keys == old(txns.Keys)
        invariant todo == txns[txn].shared
        invariant txns[txn] == t.(shared := txns[txn].shared, exclusive := txns[txn].exclusive)
        invariant forall u :: u in txns && u != txn ==> txns[u] == old(txns[u])
        decreases todo
      {
        var rid :| rid in todo;
        var ok := Release(txn, rid);
        todo := todo - {rid};
      }
      todo := txns[txn].exclusive;
      while todo != {}
        invariant txn in txns && Inv(Abstract()) && txns.Keys == old(txns.Keys)
        invariant todo == txns[txn].exclusive && txns[txn].shared == {}
        invariant txns[txn] == t.(shared := txns[txn].shared, exclusive := txns[txn].exclusive)
        invariant forall u :: u in txns && u != txn ==> txns[u] == old(txns[u])
        decreases todo
      {
        var rid :| rid in todo;
        var ok := Release(txn, rid);
        todo := todo - {rid};
      }
    }
  }
}
