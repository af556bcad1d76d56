/** The LRU-K replacement policy, against backward K-distances of the full access log. */
module LruKReplacer {
  import opened Common

  datatype Entry = Entry(history: seq<nat>, evictable: bool)

  /** How far back the K-th most recent access lies. */
  datatype Distance = Infinite | Finite(ticks: nat)

  /** The backward K-distance at time `now`, from all accesses since the frame was last removed. */
  ghost function BackwardDistance(accesses: seq<nat>, k: nat, now: nat): Distance {
    if |accesses| < k || k == 0 then Infinite
    else if accesses[|accesses| - k] <= now then Finite(now - accesses[|accesses| - k])
    else Finite(0)
  }

  ghost predicate Further(d: Distance, e: Distance) {
    match (d, e)
    case (Infinite, Finite(_)) => true
    case (Finite(x), Finite(y)) => x > y
    case _ => false
  }

  /** LRU-K prefers the victim with the larger distance; among infinite ones, the
      one whose first access is older. */
  ghost predicate Preferred(a: seq<nat>, b: seq<nat>, k: nat, now: nat) {
    var d, e := BackwardDistance(a, k, now), BackwardDistance(b, k, now);
    || Further(d, e)
    || (d == Infinite && e == Infinite && a != [] && b != [] && a[0] < b[0])
  }

  function LastK(s: seq<nat>, k: nat): seq<nat> {
    if |s| <= k then s else s[|s| - k..]
  }

  ghost predicate Increasing(s: seq<nat>) {
    forall i, j :: 0 <= i < j < |s| ==> s[i] < s[j]
  }

  ghost function EvictableSet(entries: seq<Entry>): set<nat> {
    set f: nat | f < |entries| && entries[f].evictable
  }

  lemma WithoutOne(s: set<nat>, f: nat)
    ensures |s| == |s - {f}| + if f in s then 1 else 0
  {
    if f !in s {
      assert s - {f} == s;
    }
  }

  lemma CountUpdate(entries: seq<Entry>, f: nat, e: Entry)
    requires f < |entries|
    ensures |EvictableSet(entries[f := e])| + (if entries[f].evictable then 1 else 0)
         == |EvictableSet(entries)| + (if e.evictable then 1 else 0)
  {
    var was, now := EvictableSet(entries), EvictableSet(entries[f := e]);
    assert was - {f} == now - {f};
    WithoutOne(was, f);
    WithoutOne(now, f);
  }

  /** Time `x` of the access log belongs to frame `f`. */
  ghost predicate Owns(events: seq<nat>, x: nat, f: nat) {
    0 < x <= |events| && events[x - 1] == f
  }

  /** `accesses` are times at which frame `f` was accessed, the last K of them kept. */
  ghost predicate HistoryOk(history: seq<nat>, accesses: seq<nat>, events: seq<nat>, f: nat, k: nat) {
    && history == LastK(accesses, k)
    && Increasing(accesses)
    && (forall i :: 0 <= i < |accesses| ==> Owns(events, accesses[i], f))
  }

  ghost predicate RepOk(entries: seq<Entry>, log: seq<seq<nat>>, events: seq<nat>, k: nat) {
    && |entries| == |log|
    && (forall f :: 0 <= f < |entries| && entries[f].evictable ==> entries[f].history != [])
    && (forall f {:trigger HistoryOk(entries[f].history, log[f], events, f, k)} ::
        0 <= f < |entries| ==> HistoryOk(entries[f].history, log[f], events, f, k))
  }

  lemma AccessOk(entries: seq<Entry>, log: seq<seq<nat>>, events: seq<nat>, k: nat, f: nat)
    requires RepOk(entries, log, events, k) && f < |entries|
    ensures var now := |events| + 1;
      var h := entries[f].history + [now];
      var e := Entry(if |h| > k then h[1..] else h, entries[f].evictable);
      && e.history == LastK(log[f] + [now], k)
      && RepOk(entries[f := e], log[f := log[f] + [now]], events + [f], k)
  {
    var now := |events| + 1;
    assert HistoryOk(entries[f].history, log[f], events, f, k);
    var h := entries[f].history + [now];
    var e := Entry(if |h| > k then h[1..] else h, entries[f].evictable);
    assert e.history == LastK(log[f] + [now], k);
    var entries', log' := entries[f := e], log[f := log[f] + [now]];
    forall g | 0 <= g < |entries'|
      ensures HistoryOk(entries'[g].history, log'[g], events + [f], g, k)
    {
      assert HistoryOk(entries[g].history, log[g], events, g, k);
      forall i | 0 <= i < |log'[g]|
        ensures Owns(events + [f], log'[g][i], g)
      {
        assert i < |log[g]| ==> Owns(events, log[g][i], g);
      }
    }
  }

  /** Replacing an entry by one with the same history, or forgetting it. */
  lemma EntryOk(entries: seq<Entry>, log: seq<seq<nat>>, events: seq<nat>, k: nat, f: nat, evictable: bool)
    requires RepOk(entries, log, events, k) && f < |entries|
    ensures entries[f].history != [] ==> RepOk(entries[f := entries[f].(evictable := evictable)], log, events, k)
    ensures RepOk(entries[f := Entry([], false)], log[f := []], events, k)
  {
    var a, b, c := entries[f := entries[f].(evictable := evictable)], entries[f := Entry([], false)], log[f := []];
    forall g | 0 <= g < |entries|
      ensures HistoryOk(a[g].history, log[g], events, g, k) && HistoryOk(b[g].history, c[g], events, g, k)
    {
      assert HistoryOk(entries[g].history, log[g], events, g, k);
    }
  }

  /** The comparison that the selection loop makes on the kept histories. */
  ghost predicate Wins(x: seq<nat>, y: seq<nat>, k: nat)
    requires x != [] && y != []
  {
    || (|x| < k && |y| >= k)
    || (((|x| < k) == (|y| < k)) && x[0] < y[0])
  }

  /** On histories that are the last K accesses, it is the order by distance. */
  lemma WinsIsPreferred(entries: seq<Entry>, log: seq<seq<nat>>, events: seq<nat>, k: nat, f: nat, g: nat)
    requires RepOk(entries, log, events, k) && f < |entries| && g < |entries| && f != g
    requires entries[f].history != [] && entries[g].history != []
    ensures Wins(entries[f].history, entries[g].history, k) <==> Preferred(log[f], log[g], k, |events|)
    ensures entries[f].history[0] != entries[g].history[0]
  {
    assert HistoryOk(entries[f].history, log[f], events, f, k);
    assert HistoryOk(entries[g].history, log[g], events, g, k);
    var i := if |log[f]| <= k then 0 else |log[f]| - k;
    var j := if |log[g]| <= k then 0 else |log[g]| - k;
    assert entries[f].history[0] == log[f][i] && entries[g].history[0] == log[g][j];
    assert Owns(events, log[f][i], f) && Owns(events, log[g][j], g);
  }

  class Replacer {
    const k: nat
    const numFrames: nat
    var size: nat
    var now: nat
    var entries: seq<Entry>
    ghost var events: seq<nat>     // the frame accessed at each time
    ghost var log: seq<seq<nat>>   // per frame, the times of its accesses since it was removed

    ghost predicate Valid()
      reads this
    {
      && |entries| == numFrames && |events| == now
      && size == |EvictableSet(entries)|
      && RepOk(entries, log, events, k)
    }

    constructor (numFrames: nat, k: nat)
      ensures Valid() && this.numFrames == numFrames && this.k == k && size == 0 && now == 0
      ensures log == seq(numFrames, _ => []) && entries == seq(numFrames, _ => Entry([], false))
    {
      this.numFrames, this.k, size, now := numFrames, k, 0, 0;
      entries := seq(numFrames, _ => Entry([], false));
      log, events := seq(numFrames, _ => []), [];
      new;
      assert EvictableSet(entries) == {};
    }

    /** Logs an access; false stands for the exception on an unknown frame. */
    method RecordAccess(f: nat) returns (ok: bool)
      requires Valid()
      modifies this
      ensures Valid() && ok == (f < numFrames) && size == old(size)
      ensures !ok ==> now == old(now) && entries == old(entries) && log == old(log) && events == old(events)
      ensures ok ==>
        && now == old(now) + 1 && events == old(events) + [f]
        && log == old(log)[f := old(log)[f] + [now]]
        && entries == old(entries)[f := Entry(LastK(log[f], k), old(entries)[f].evictable)]
    {
      if f >= numFrames {
        return false;
      }
      AccessOk(entries, log, events, k, f);
      now := now + 1;
      var history := entries[f].history + [now];
      if |history| > k {
        history := history[1..];
      }
      CountUpdate(entries, f, entries[f].(history := history));
      log, events := log[f := log[f] + [now]], events + [f];
      entries := entries[f := entries[f].(history := history)];
      ok := true;
    }

    method SetEvictable(f: nat, evictable: bool) returns (ok: bool)
      requires Valid()
      modifies this
      ensures Valid() && ok == (f < numFrames) && now == old(now) && log == old(log) && events == old(events)
      ensures !ok ==> entries == old(entries) && size == old(size)
      ensures ok ==>
        var e := old(entries)[f];
        entries == old(entries)[f := e.(evictable := e.history != [] && evictable)]
    {
      if f >= numFrames {
        return false;
      }
      EntryOk(entries, log, events, k, f, evictable);
      if entries[f].history == [] {
        return true;
      }
      if entries[f].evictable != evictable {
        CountUpdate(entries, f, entries[f].(evictable := evictable));
        entries := entries[f := entries[f].(evictable := evictable)];
        if evictable {
          size := size + 1;
        } else {
          size := size - 1;
        }
      }
      ok := true;
    }

    /** The victim is the evictable frame with the largest backward K-distance. */
    method Evict() returns (found: bool, victim: nat)
      requires Valid()
      ensures found <==> exists f :: 0 <= f < numFrames && entries[f].evictable
      ensures found <==> size > 0
      ensures found ==>
        && victim < numFrames && entries[victim].evictable
        && (forall g :: 0 <= g < numFrames && g != victim && entries[g].evictable ==>
            Preferred(log[victim], log[g], k, now))
    {
      found, victim := false, 0;
      var bestInf, bestTime := false, 0;
      var i: nat := 0;
      while i < numFrames
        invariant i <= numFrames
        invariant !found ==> forall g :: 0 <= g < i ==> !entries[g].evictable
        invariant found ==>
          && victim < i && entries[victim].evictable
          && bestInf == (|entries[victim].history| < k) && bestTime == entries[victim].history[0]
          && (forall g :: 0 <= g < i && g != victim && entries[g].evictable ==>
              Wins(entries[victim].history, entries[g].history, k))
      {
        var e := entries[i];
        if e.evictable && e.history != [] {
          var isInf, earliest := |e.history| < k, e.history[0];
          if !found {
            found, victim, bestInf, bestTime := true, i, isInf, earliest;
          } else {
            WinsIsPreferred(entries, log, events, k, victim, i);
            if isInf && !bestInf {
              victim, bestInf, bestTime := i, isInf, earliest;
            } else if isInf == bestInf {
              if earliest < bestTime {
                victim, bestTime := i, earliest;
              } else if earliest == bestTime && i < victim {
                victim := i;
              }
            }
          }
        }
        i := i + 1;
      }
      forall g | found && 0 <= g < numFrames && g != victim && entries[g].evictable
        ensures Preferred(log[victim], log[g], k, now)
      {
        WinsIsPreferred(entries, log, events, k, victim, g);
      }
      if found {
        assert victim in EvictableSet(entries);
      } else {
        assert EvictableSet(entries) == {};
      }
    }

    /** Forgets a frame; false stands for the exception on an unknown or pinned one. */
    method Remove(f: nat) returns (ok: bool)
      requires Valid()
      modifies this
      ensures Valid() && now == old(now) && events == old(events)
      ensures ok == (f < numFrames && (old(entries)[f].history == [] || old(entries)[f].evictable))
      ensures !ok || old(entries)[f].history == [] ==> entries == old(entries) && log == old(log) && size == old(size)
      ensures ok && old(entries)[f].history != [] ==>
        entries == old(entries)[f := Entry([], false)] && log == old(log)[f := []]
    {
      if f >= numFrames {
        return false;
      }
      if entries[f].history == [] {
        return true;
      }
      if !entries[f].evictable {
        return false;
      }
      CountUpdate(entries, f, Entry([], false));
      EntryOk(entries, log, events, k, f, false);
      entries := entries[f := Entry([], false)];
      log := log[f := []];
      size := size - 1;
      ok := true;
    }
  }
}
