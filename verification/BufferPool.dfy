/** The buffer pool: a cache of disk pages with pinning and eviction.

    Holders of a pin are ghost tokens, so that "whoever writes a page unpins it
    dirty" can be said; disk failures are inputs of the operations. */
module BufferPool {
  import opened Common
  import opened LruKReplacer

  type Body = seq<nat>

  function ZeroPage(): (b: Body)
    ensures |b| == 4096 && forall i :: 0 <= i < |b| ==> b[i] == 0
  {
    seq(4096, _ => 0)
  }

  datatype Frame = Frame(pageId: PageId, body: Body, pins: nat, dirty: bool, valid: bool)

  const FREE_FRAME := Frame(INVALID, ZeroPage(), 0, false, false)

  /** Who holds a pin on a frame, and which of them have written to it. */
  datatype Usage = Usage(holders: set<nat>, writers: set<nat>)

  const UNUSED := Usage({}, {})

  type Table = map<PageId, nat>
  type Disk = map<PageId, Body>

  /** Frame `f`: pinned once per holder, evictable exactly when valid and unpinned,
      and equal to the disk unless dirty or written by someone still holding it. */
  ghost predicate FrameOk(x: Frame, u: Usage, e: Entry, f: nat, table: Table, disk: Disk) {
    && x.pins == |u.holders| && u.writers <= u.holders
    && (e.evictable <==> x.valid && x.pins == 0)
    && (e.history != [] <==> x.valid)
    && (!x.valid ==> x.pins == 0)
    && (x.valid ==>
        && x.pageId in table && table[x.pageId] == f
        && x.pageId in disk
        && (!x.dirty && u.writers == {} && x.pageId >= 1 ==> x.body == disk[x.pageId]))
  }

  ghost predicate PoolOk(frames: seq<Frame>, usage: seq<Usage>, entries: seq<Entry>, table: Table, disk: Disk, count: nat) {
    && |frames| == |usage| == |entries|
    && (forall f {:trigger FrameOk(frames[f], usage[f], entries[f], f, table, disk)} ::
        0 <= f < |frames| ==> FrameOk(frames[f], usage[f], entries[f], f, table, disk))
    && (forall p :: p in table ==>
        p in disk && table[p] < |frames| && frames[table[p]].valid && frames[table[p]].pageId == p)
    && (forall p :: p in disk <==> 0 <= p < count)
  }

  /** What a reader of page `p` sees: the cached frame if there is one, else the disk. */
  ghost function Content(frames: seq<Frame>, table: Table, disk: Disk, p: PageId): Body
    requires p in disk
  {
    if p in table && table[p] < |frames| then frames[table[p]].body else disk[p]
  }

  /** The logical contents of all pages with ids from 1 on. */
  ghost function ContentsOf(frames: seq<Frame>, table: Table, disk: Disk): map<PageId, Body> {
    map p | p in disk && p >= 1 :: Content(frames, table, disk, p)
  }

  ghost predicate AllPinned(frames: seq<Frame>) {
    forall f :: 0 <= f < |frames| ==> frames[f].valid && frames[f].pins > 0
  }

  /** The frame to use next: the first unused one, else the unpinned one with the
      largest backward K-distance. */
  ghost predicate IsChoice(frames: seq<Frame>, log: seq<seq<nat>>, now: nat, f: nat) {
    && f < |frames| == |log|
    && if !frames[f].valid then forall g :: 0 <= g < f ==> frames[g].valid
       else
         && frames[f].pins == 0
         && (forall g :: 0 <= g < |frames| ==> frames[g].valid)
         && (forall g :: 0 <= g < |frames| && g != f && frames[g].pins == 0 ==> Preferred(log[f], log[g], 2, now))
  }

  /** Changing one cached frame, its users and its replacer entry. */
  lemma FrameUpdate(frames: seq<Frame>, usage: seq<Usage>, entries: seq<Entry>, table: Table, disk: Disk, count: nat,
                    f: nat, x: Frame, u: Usage, entries': seq<Entry>)
    requires PoolOk(frames, usage, entries, table, disk, count) && f < |frames| && |entries'| == |entries|
    requires forall g :: 0 <= g < |entries| && g != f ==> entries'[g] == entries[g]
    requires frames[f].valid && x.valid && x.pageId == frames[f].pageId
    requires FrameOk(x, u, entries'[f], f, table, disk)
    ensures PoolOk(frames[f := x], usage[f := u], entries', table, disk, count)
  {
    forall g | 0 <= g < |frames|
      ensures FrameOk(frames[f := x][g], usage[f := u][g], entries'[g], g, table, disk)
    {
      assert FrameOk(frames[g], usage[g], entries[g], g, table, disk);
    }
  }

  /** The pool after a new holder `h` pins the cached frame `f`. */
  lemma PinnedPool(frames: seq<Frame>, usage: seq<Usage>, entries: seq<Entry>, table: Table, disk: Disk, count: nat,
                   f: nat, h: nat, entries': seq<Entry>)
    requires PoolOk(frames, usage, entries, table, disk, count) && f < |frames| && frames[f].valid
    requires h !in usage[f].holders && |entries'| == |entries|
    requires entries'[f].history != [] && !entries'[f].evictable
    requires forall g :: 0 <= g < |entries| && g != f ==> entries'[g] == entries[g]
    ensures var x, u := frames[f].(pins := frames[f].pins + 1), Usage(usage[f].holders + {h}, usage[f].writers);
      && PoolOk(frames[f := x], usage[f := u], entries', table, disk, count)
      && ContentsOf(frames[f := x], table, disk) == ContentsOf(frames, table, disk)
  {
    assert FrameOk(frames[f], usage[f], entries[f], f, table, disk);
    FrameUpdate(frames, usage, entries, table, disk, count, f, frames[f].(pins := frames[f].pins + 1),
                Usage(usage[f].holders + {h}, usage[f].writers), entries');
  }

  /** The pool after page `p` is put into the free frame `f` for holder `h`. */
  lemma InstalledPool(frames: seq<Frame>, usage: seq<Usage>, entries: seq<Entry>, table: Table, disk: Disk, count: nat,
                      f: nat, p: PageId, h: nat, entries': seq<Entry>)
    requires PoolOk(frames, usage, entries, table, disk, count) && f < |frames| && !frames[f].valid
    requires p in disk && p !in table && |entries'| == |entries|
    requires entries'[f].history != [] && !entries'[f].evictable
    requires forall g :: 0 <= g < |entries| && g != f ==> entries'[g] == entries[g]
    ensures var frames' := frames[f := Frame(p, disk[p], 1, false, true)];
      && PoolOk(frames', usage[f := Usage({h}, {})], entries', table[p := f], disk, count)
      && ContentsOf(frames', table[p := f], disk) == ContentsOf(frames, table, disk)
  {
    var frames', usage', table' := frames[f := Frame(p, disk[p], 1, false, true)], usage[f := Usage({h}, {})], table[p := f];
    forall g | 0 <= g < |frames'|
      ensures FrameOk(frames'[g], usage'[g], entries'[g], g, table', disk)
    {
      assert FrameOk(frames[g], usage[g], entries[g], g, table, disk);
    }
  }

  /** The pool after an unpinned, clean frame is emptied. */
  lemma DiscardedPool(frames: seq<Frame>, usage: seq<Usage>, entries: seq<Entry>, table: Table, disk: Disk, count: nat, f: nat)
    requires PoolOk(frames, usage, entries, table, disk, count) && f < |frames|
    requires frames[f].valid && frames[f].pins == 0 && !frames[f].dirty
    ensures entries[f].history != [] && entries[f].evictable
    ensures var frames', table' := frames[f := FREE_FRAME], table - {frames[f].pageId};
      && PoolOk(frames', usage, entries[f := Entry([], false)], table', disk, count)
      && ContentsOf(frames', table', disk) == ContentsOf(frames, table, disk)
  {
    assert FrameOk(frames[f], usage[f], entries[f], f, table, disk);
    var frames', entries', table' := frames[f := FREE_FRAME], entries[f := Entry([], false)], table - {frames[f].pageId};
    forall g | 0 <= g < |frames'|
      ensures FrameOk(frames'[g], usage[g], entries'[g], g, table', disk)
    {
      assert FrameOk(frames[g], usage[g], entries[g], g, table, disk);
    }
  }

  lemma UnpinnedFrame(x: Frame, u: Usage, e: Entry, e': Entry, f: nat, table: Table, disk: Disk, h: nat, dirty: bool)
    requires FrameOk(x, u, e, f, table, disk) && x.valid && h in u.holders && (h in u.writers ==> dirty)
    requires e'.history != [] && (e'.evictable <==> x.pins == 1)
    ensures x.pins > 0
    ensures FrameOk(x.(pins := x.pins - 1, dirty := x.dirty || dirty), Usage(u.holders - {h}, u.writers - {h}),
                    e', f, table, disk)
  {
    assert u.holders == (u.holders - {h}) + {h};
    if !dirty {
      assert u.writers - {h} == u.writers;
    }
  }

  /** The pool after holder `h` gives its pin on frame `f` back. */
  lemma UnpinnedPool(frames: seq<Frame>, usage: seq<Usage>, entries: seq<Entry>, table: Table, disk: Disk, count: nat,
                     f: nat, h: nat, dirty: bool)
    requires PoolOk(frames, usage, entries, table, disk, count) && f < |frames| && frames[f].valid
    requires h in usage[f].holders && (h in usage[f].writers ==> dirty)
    ensures frames[f].pins > 0 && entries[f].history != [] && !entries[f].evictable
    ensures var x := frames[f].(pins := frames[f].pins - 1, dirty := frames[f].dirty || dirty);
      var u := Usage(usage[f].holders - {h}, usage[f].writers - {h});
      && PoolOk(frames[f := x], usage[f := u], entries[f := entries[f].(evictable := x.pins == 0)], table, disk, count)
      && ContentsOf(frames[f := x], table, disk) == ContentsOf(frames, table, disk)
  {
    var e := entries[f];
    assert FrameOk(frames[f], usage[f], e, f, table, disk);
    var x := frames[f].(pins := frames[f].pins - 1, dirty := frames[f].dirty || dirty);
    var u := Usage(usage[f].holders - {h}, usage[f].writers - {h});
    UnpinnedFrame(frames[f], usage[f], e, e.(evictable := x.pins == 0), f, table, disk, h, dirty);
    FrameUpdate(frames, usage, entries, table, disk, count, f, x, u, entries[f := e.(evictable := x.pins == 0)]);
  }

  lemma AllocatedOk(frames: seq<Frame>, usage: seq<Usage>, entries: seq<Entry>, table: Table, disk: Disk, count: nat,
                    body: Body, meta: Body)
    requires PoolOk(frames, usage, entries, table, disk, count) && 0 < count
    ensures PoolOk(frames, usage, entries, table, disk[0 := meta][count := body], count + 1)
    ensures count !in table && count !in disk
  {
    var disk' := disk[0 := meta][count := body];
    forall g | 0 <= g < |frames|
      ensures FrameOk(frames[g], usage[g], entries[g], g, table, disk')
    {
      assert FrameOk(frames[g], usage[g], entries[g], g, table, disk);
    }
    forall q | q in table
      ensures q != count
    {
      assert FrameOk(frames[table[q]], usage[table[q]], entries[table[q]], table[q], table, disk);
    }
  }

  class Pool {
    const replacer: Replacer
    var frames: seq<Frame>
    var table: Table
    var disk: Disk
    var count: nat
    ghost var usage: seq<Usage>
    ghost var nextHolder: nat

    ghost predicate Valid()
      reads this, replacer
    {
      && replacer.Valid() && replacer.k == 2 && replacer.numFrames == |frames|
      && PoolOk(frames, usage, replacer.entries, table, disk, count)
      && (forall f, h :: 0 <= f < |usage| && h in usage[f].holders ==> h < nextHolder)
    }

    ghost function Contents(): map<PageId, Body>
      reads this
    {
      ContentsOf(frames, table, disk)
    }

    constructor (poolSize: nat, disk: Disk, count: nat)
      requires forall p :: p in disk <==> 0 <= p < count
      ensures Valid() && fresh(replacer) && |frames| == poolSize && this.count == count && this.disk == disk
      ensures forall f :: 0 <= f < |usage| ==> usage[f].holders == {}
      ensures Contents() == map p | p in disk && p >= 1 :: disk[p]
    {
      replacer := new Replacer(poolSize, 2);
      frames := seq(poolSize, _ => FREE_FRAME);
      usage := seq(poolSize, _ => UNUSED);
      table, this.disk, this.count, nextHolder := map[], disk, count, 0;
    }

    /** Writes a dirty frame back; `ok` is whether the disk write succeeds. */
    method FlushPage(p: PageId, ok: bool) returns (status: Status)
      requires Valid()
      modifies this`frames, this`disk
      ensures Valid() && Contents() == old(Contents()) && disk.Keys == old(disk.Keys)
      ensures status == (if p !in table then NotFound
                         else if old(frames)[table[p]].dirty && !ok then IoError else Ok)
      ensures status == Ok ==>
        && frames == old(frames)[table[p] := old(frames)[table[p]].(dirty := false)]
        && (old(frames)[table[p]].dirty ==> disk == old(disk)[p := frames[table[p]].body])
      ensures status != Ok ==> frames == old(frames) && disk == old(disk)
    {
      if p !in table {
        return NotFound;
      }
      var f := table[p];
      if !frames[f].valid {
        return InvalidArg;
      }
      if !frames[f].dirty {
        assert frames[f := frames[f].(dirty := false)] == frames;
        return Ok;
      }
      if !ok {
        return IoError;
      }
      disk := disk[p := frames[f].body];
      frames := frames[f := frames[f].(dirty := false)];
      forall g | 0 <= g < |frames|
        ensures FrameOk(frames[g], usage[g], replacer.entries[g], g, table, disk)
      {
        assert FrameOk(old(frames)[g], usage[g], replacer.entries[g], g, table, old(disk));
        assert FrameOk(old(frames)[f], usage[f], replacer.entries[f], f, table, old(disk));
      }
      status := Ok;
    }

    /** Empties an unpinned, clean frame, as the last part of an eviction. */
    method Discard(f: nat)
      requires Valid() && f < |frames| && frames[f].valid && frames[f].pins == 0 && !frames[f].dirty
      modifies this`frames, this`table, replacer
      ensures Valid() && Contents() == old(Contents())
      ensures frames == old(frames)[f := FREE_FRAME] && table == old(table) - {old(frames)[f].pageId}
      ensures replacer.log == old(replacer.log)[f := []] && replacer.now == old(replacer.now)
    {
      assert FrameOk(frames[f], usage[f], replacer.entries[f], f, table, disk);
      DiscardedPool(frames, usage, replacer.entries, table, disk, count, f);
      table := table - {frames[f].pageId};
      frames := frames[f := FREE_FRAME];
      var removed := replacer.Remove(f);
    }

    /** Writes a victim back if need be, then empties its frame. */
    method EvictFrame(victim: nat, ok: bool) returns (status: Status)
      requires Valid() && victim < |frames| && frames[victim].valid && frames[victim].pins == 0
      modifies this`frames, this`table, this`disk, replacer
      ensures Valid() && Contents() == old(Contents()) && disk.Keys == old(disk.Keys)
      ensures status in {Ok, IoError} && (status == IoError ==> !ok)
      ensures status != Ok ==> frames == old(frames) && table == old(table) && disk == old(disk)
      ensures status == Ok ==> frames == old(frames)[victim := FREE_FRAME] && table.Keys <= old(table.Keys)
      ensures replacer.now == old(replacer.now)
      ensures replacer.log == if status == Ok then old(replacer.log)[victim := []] else old(replacer.log)
    {
      assert FrameOk(frames[victim], usage[victim], replacer.entries[victim], victim, table, disk);
      if frames[victim].dirty {
        status := FlushPage(frames[victim].pageId, ok);
        if status != Ok {
          return;
        }
      }
      Discard(victim);
      status := Ok;
    }

    /** A frame for a new page: an unused one, or the replacer's victim after it
        was written back.  `ok` is whether that disk write succeeds. */
    method FindFreeFrame(ok: bool) returns (status: Status, f: nat)
      requires Valid()
      modifies this`frames, this`table, this`disk, replacer
      ensures Valid() && Contents() == old(Contents()) && disk.Keys == old(disk.Keys)
      ensures status == BufferPoolFull <==> AllPinned(old(frames))
      ensures status in {Ok, BufferPoolFull, IoError} && (status == IoError ==> !ok)
      ensures status != Ok ==> frames == old(frames) && table == old(table) && disk == old(disk)
      ensures |frames| == |old(frames)| && table.Keys <= old(table.Keys)
      ensures status == Ok ==>
        && f < |frames| && !frames[f].valid && old(frames)[f].pins == 0
        && (forall g :: 0 <= g < |frames| && g != f ==> frames[g] == old(frames)[g])
      ensures status == Ok ==> IsChoice(old(frames), old(replacer.log), old(replacer.now), f)
      ensures replacer.now == old(replacer.now)
      ensures replacer.log == if status == Ok then old(replacer.log)[f := []] else old(replacer.log)
    {
      f := 0;
      while f < |frames|
        invariant f <= |frames|
        invariant forall g :: 0 <= g < f ==> frames[g].valid
      {
        if !frames[f].valid {
          assert FrameOk(frames[f], usage[f], replacer.entries[f], f, table, disk);
          NoAccesses(replacer, f);
          return Ok, f;
        }
        f := f + 1;
      }
      var found, victim := replacer.Evict();
      if !found {
        forall g | 0 <= g < |frames|
          ensures frames[g].valid && frames[g].pins > 0
        {
          assert FrameOk(frames[g], usage[g], replacer.entries[g], g, table, disk);
        }
        return BufferPoolFull, 0;
      }
      forall g | 0 <= g < |frames|
        ensures replacer.entries[g].evictable <==> frames[g].valid && frames[g].pins == 0
      {
        assert FrameOk(frames[g], usage[g], replacer.entries[g], g, table, disk);
      }
      status := EvictFrame(victim, ok);
      f := victim;
    }

    /** Frame `f` was accessed just now, and no other frame. */
    twostate predicate Accessed(f: nat)
      reads replacer
    {
      && f < |old(replacer.log)| && replacer.now == old(replacer.now) + 1
      && replacer.log == old(replacer.log)[f := old(replacer.log)[f] + [replacer.now]]
    }

    /** A frame without a history was not accessed since it was emptied. */
    lemma NoAccesses(r: Replacer, f: nat)
      requires r.Valid() && r.k == 2 && f < r.numFrames && r.entries[f].history == []
      ensures r.log[f := []] == r.log
    {
      assert HistoryOk(r.entries[f].history, r.log[f], r.events, f, r.k);
      assert r.log[f] == [];
    }

    /** Tells the replacer that frame `f` is in use. */
    method Touch(f: nat)
      requires replacer.Valid() && replacer.k == 2 && f < replacer.numFrames
      modifies replacer
      ensures replacer.Valid() && |replacer.entries| == replacer.numFrames
      ensures replacer.entries[f].history != [] && !replacer.entries[f].evictable
      ensures Accessed(f)
      ensures forall g :: 0 <= g < replacer.numFrames && g != f ==> replacer.entries[g] == old(replacer.entries)[g]
    {
      var recorded := replacer.RecordAccess(f);
      var set_ := replacer.SetEvictable(f, false);
    }

    /** Tells the replacer about the pins left on frame `f`. */
    method NoteUnpinned(f: nat, pins: nat)
      requires replacer.Valid() && f < replacer.numFrames
      requires replacer.entries[f].history != [] && !replacer.entries[f].evictable
      modifies replacer
      ensures replacer.Valid() && |replacer.entries| == replacer.numFrames
      ensures replacer.entries == old(replacer.entries)[f := old(replacer.entries)[f].(evictable := pins == 0)]
      ensures replacer.log == old(replacer.log) && replacer.now == old(replacer.now)
    {
      if pins == 0 {
        var set_ := replacer.SetEvictable(f, true);
      } else {
        assert replacer.entries[f].(evictable := false) == replacer.entries[f];
      }
    }

    /** One more pin on a cached page. */
    method PinCached(p: PageId) returns (f: nat, ghost h: nat)
      requires Valid() && p in table
      modifies this`frames, this`usage, this`nextHolder, replacer
      ensures Valid() && Contents() == old(Contents())
      ensures f == table[p] && h == old(nextHolder) && nextHolder == h + 1 && h !in old(usage)[f].writers
      ensures frames == old(frames)[f := old(frames)[f].(pins := old(frames)[f].pins + 1)] && Accessed(f)
      ensures usage == old(usage)[f := Usage(old(usage)[f].holders + {h}, old(usage)[f].writers)]
    {
      f := table[p];
      h := nextHolder;
      assert h !in usage[f].holders;
      assert FrameOk(frames[f], usage[f], replacer.entries[f], f, table, disk);
      Touch(f);
      PinnedPool(frames, usage, old(replacer.entries), table, disk, count, f, h, replacer.entries);
      frames := frames[f := frames[f].(pins := frames[f].pins + 1)];
      usage := usage[f := Usage(usage[f].holders + {h}, usage[f].writers)];
      nextHolder := nextHolder + 1;
    }

    /** Puts page `p` into the free frame `f`, pinned once. */
    method Install(f: nat, p: PageId, body: Body) returns (ghost h: nat)
      requires Valid() && f < |frames| && !frames[f].valid
      requires p in disk && p !in table && body == disk[p]
      modifies this`frames, this`table, this`usage, this`nextHolder, replacer
      ensures Valid() && Contents() == old(Contents())
      ensures h == old(nextHolder) && nextHolder == h + 1
      ensures table == old(table)[p := f]
      ensures frames == old(frames)[f := Frame(p, body, 1, false, true)] && Accessed(f)
      ensures usage == old(usage)[f := Usage({h}, {})]
    {
      h := nextHolder;
      Touch(f);
      InstalledPool(frames, usage, old(replacer.entries), table, disk, count, f, p, h, replacer.entries);
      frames := frames[f := Frame(p, body, 1, false, true)];
      usage := usage[f := Usage({h}, {})];
      nextHolder := nextHolder + 1;
      table := table[p := f];
    }

    /** The access is logged for the frame of the page; a page that was not cached starts a
        new log, in the frame that was to be used next. */
    twostate predicate Logged(p: PageId, f: nat)
      reads this, replacer
    {
      && f < |old(replacer.log)| && replacer.now == old(replacer.now) + 1
      && replacer.log == old(replacer.log)[f := (if p in old(table) then old(replacer.log)[f] else []) + [replacer.now]]
      && (p !in old(table) ==> IsChoice(old(frames), old(replacer.log), old(replacer.now), f))
    }

    /** What fetching guarantees: on success the page is cached, its frame holds its
        content and the caller is one more holder; on failure no pin changes. */
    twostate predicate Fetched(p: PageId, status: Status, f: nat, h: nat)
      reads this, replacer
    {
      && |frames| == |old(frames)| == |usage| == |old(usage)|
      && (status == Ok ==>
          && p in table && table[p] == f && f < |frames| && f < |usage|
          && frames[f].valid && frames[f].pageId == p
          && h == old(nextHolder) && h !in old(usage)[f].writers
          && usage == old(usage)[f := Usage(old(usage)[f].holders + {h}, old(usage)[f].writers)]
          && frames[f] == (if p in old(table) then old(frames)[f].(pins := old(frames)[f].pins + 1)
                           else Frame(p, frames[f].body, 1, false, true))
          && (if p in old(table) then old(frames)[f].valid && old(frames)[f].pageId == p
              else old(frames)[f].pins == 0)
          && (forall g :: 0 <= g < |frames| && g != f ==> frames[g] == old(frames)[g]))
      && (status != Ok ==>
          && usage == old(usage)
          && (forall g :: 0 <= g < |frames| ==> frames[g] == old(frames)[g] || old(frames)[g].pins == 0))
    }

    /** Pins page `p`, reading it from disk if it is not cached. */
    method FetchPage(p: PageId, readOk: bool, writeOk: bool) returns (status: Status, f: nat, ghost h: nat)
      requires Valid()
      modifies this`frames, this`table, this`disk, this`usage, this`nextHolder, replacer
      ensures Valid() && Contents() == old(Contents()) && disk.Keys == old(disk.Keys)
      ensures Fetched(p, status, f, h) && (status == Ok ==> Logged(p, f))
      ensures status == Ok && p >= 1 ==> frames[f].body == Contents()[p]
      ensures status == BufferPoolFull <==> p !in old(table) && AllPinned(old(frames))
      ensures p in old(table) ==> status == Ok
      ensures readOk && writeOk && p in old(disk) && !AllPinned(old(frames)) ==> status == Ok
    {
      h := nextHolder;
      if p in table {
        f, h := PinCached(p);
        return Ok, f, h;
      }
      status, f := FindFreeFrame(writeOk);
      if status != Ok {
        return;
      }
      if !(0 <= p < count) || !readOk {
        status := if 0 <= p < count then IoError else InvalidArg;
        ResetFree(f);
        return;
      }
      assert FrameOk(frames[f], usage[f], replacer.entries[f], f, table, disk);
      assert usage[f] == UNUSED && UNUSED.holders + {nextHolder} == {nextHolder};
      h := Install(f, p, disk[p]);
    }

    /** A frame that was reset for a page which could not be read is invalidated again. */
    method ResetFree(f: nat)
      requires Valid() && f < |frames| && !frames[f].valid
      modifies this`frames
      ensures Valid() && Contents() == old(Contents()) && frames == old(frames)[f := FREE_FRAME]
    {
      assert FrameOk(frames[f], usage[f], replacer.entries[f], f, table, disk);
      frames := frames[f := FREE_FRAME];
      forall g | 0 <= g < |frames|
        ensures FrameOk(frames[g], usage[g], replacer.entries[g], g, table, disk)
      {
        assert FrameOk(old(frames)[g], usage[g], replacer.entries[g], g, table, disk);
      }
    }

    /** Allocates a page on disk and caches it, zeroed.  `allocOk` is whether the
        disk write succeeds; if not, the new page holds `torn`.  Allocation also
        rewrites the metadata page 0, behind the pool. */
    method NewPage(allocOk: bool, torn: Body, meta: Body, writeOk: bool)
      returns (status: Status, p: PageId, f: nat, ghost h: nat)
      requires Valid() && 0 < count
      modifies this
      modifies replacer
      ensures Valid() && Fetched(p, status, f, h) && count >= old(count) && (status == Ok ==> Logged(p, f))
      ensures status == BufferPoolFull <==> AllPinned(old(frames))
      ensures allocOk && writeOk && !AllPinned(old(frames)) ==> status == Ok
      ensures status == Ok ==>
        && p == old(count) && count == p + 1 && p !in old(disk)
        && Contents() == old(Contents())[p := ZeroPage()]
      ensures status != Ok ==> forall q :: q in old(Contents()) ==> q in Contents() && Contents()[q] == old(Contents())[q]
    {
      p := INVALID;
      h := nextHolder;
      status, f := FindFreeFrame(writeOk);
      if status != Ok {
        return;
      }
      var id := count;
      Allocate(if allocOk then ZeroPage() else torn, meta);
      if !allocOk {
        return IoError, INVALID, f, h;
      }
      p := id;
      assert FrameOk(frames[f], usage[f], replacer.entries[f], f, table, disk);
      assert usage[f] == UNUSED && UNUSED.holders + {nextHolder} == {nextHolder};
      h := Install(f, p, ZeroPage());
    }

    method Allocate(body: Body, meta: Body)
      requires Valid() && 0 < count
      modifies this`disk, this`count
      ensures Valid() && count == old(count) + 1 && old(count) !in old(disk) && old(count) !in table
      ensures disk == old(disk)[0 := meta][old(count) := body]
      ensures Contents() == old(Contents())[old(count) := body]
    {
      AllocatedOk(frames, usage, replacer.entries, table, disk, count, body, meta);
      disk := disk[0 := meta][count := body];
      count := count + 1;
    }

    /** Gives a pin back.  Holder `h` is the one that gives it back, and if it wrote
        the page it says so. */
    method UnpinPage(p: PageId, dirty: bool, ghost h: nat) returns (status: Status)
      requires Valid()
      requires p in table && frames[table[p]].pins > 0 ==>
        h in usage[table[p]].holders && (h in usage[table[p]].writers ==> dirty)
      modifies this`frames, this`usage, replacer
      ensures Valid() && Contents() == old(Contents())
      ensures status == (if p !in table then NotFound else if old(frames)[table[p]].pins == 0 then InvalidArg else Ok)
      ensures replacer.log == old(replacer.log) && replacer.now == old(replacer.now)
      ensures status != Ok ==> frames == old(frames) && usage == old(usage)
      ensures status == Ok ==>
        var f := table[p];
        var x, u := old(frames)[f], old(usage)[f];
        && frames == old(frames)[f := x.(pins := x.pins - 1, dirty := x.dirty || dirty)]
        && usage == old(usage)[f := Usage(u.holders - {h}, u.writers - {h})]
    {
      if p !in table {
        return NotFound;
      }
      var f := table[p];
      if frames[f].pins <= 0 {
        return InvalidArg;
      }
      UnpinFrame(f, dirty, h);
      status := Ok;
    }

    method UnpinFrame(f: nat, dirty: bool, ghost h: nat)
      requires Valid() && f < |frames| && frames[f].valid
      requires h in usage[f].holders && (h in usage[f].writers ==> dirty)
      modifies this`frames, this`usage, replacer
      ensures Valid() && Contents() == old(Contents()) && old(frames)[f].pins > 0
      ensures frames == old(frames)[f := old(frames)[f].(pins := old(frames)[f].pins - 1,
                                                         dirty := old(frames)[f].dirty || dirty)]
      ensures replacer.log == old(replacer.log) && replacer.now == old(replacer.now)
      ensures usage == old(usage)[f := Usage(old(usage)[f].holders - {h}, old(usage)[f].writers - {h})]
    {
      UnpinnedPool(frames, usage, replacer.entries, table, disk, count, f, h, dirty);
      var x := frames[f].(pins := frames[f].pins - 1, dirty := frames[f].dirty || dirty);
      ghost var u := Usage(usage[f].holders - {h}, usage[f].writers - {h});
      NoteUnpinned(f, x.pins);
      frames := frames[f := x];
      usage := usage[f := u];
    }

    /** A holder of a pin changes the page. */
    method Write(p: PageId, body: Body, ghost h: nat)
      requires Valid() && p in table && h in usage[table[p]].holders
      modifies this`frames, this`usage
      ensures Valid()
      ensures Contents() == if p >= 1 then old(Contents())[p := body] else old(Contents())
      ensures frames == old(frames)[table[p] := old(frames)[table[p]].(body := body)]
      ensures usage == old(usage)[table[p] := old(usage)[table[p]].(writers := old(usage)[table[p]].writers + {h})]
    {
      var f := table[p];
      assert FrameOk(frames[f], usage[f], replacer.entries[f], f, table, disk);
      FrameUpdate(frames, usage, replacer.entries, table, disk, count, f, frames[f].(body := body),
                  usage[f].(writers := usage[f].writers + {h}), replacer.entries);
      usage := usage[f := usage[f].(writers := usage[f].writers + {h})];
      frames := frames[f := frames[f].(body := body)];
    }

    /** Writes every dirty frame back, until a write fails. */
    method FlushAllPages(ok: seq<bool>) returns (status: Status)
      requires Valid() && |ok| == |frames|
      modifies this`frames, this`disk
      ensures Valid() && Contents() == old(Contents()) && |frames| == |old(frames)|
      ensures (forall f :: 0 <= f < |ok| ==> ok[f]) ==> status == Ok
      ensures status == Ok ==> forall f :: 0 <= f < |frames| && frames[f].valid ==> !frames[f].dirty
    {
      var i := 0;
      while i < |frames|
        invariant Valid() && Contents() == old(Contents()) && |frames| == |ok| && i <= |frames|
        invariant forall f :: 0 <= f < i && frames[f].valid ==> !frames[f].dirty
      {
        if frames[i].valid && frames[i].dirty {
          assert FrameOk(frames[i], usage[i], replacer.entries[i], i, table, disk);
          status := FlushPage(frames[i].pageId, ok[i]);
          if status != Ok {
            return;
          }
        }
        i := i + 1;
      }
      status := Ok;
    }
  }
}
