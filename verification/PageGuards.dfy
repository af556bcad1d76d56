/** Page guards: each owns one pin, whatever moves and repeated drops do to it. */
module PageGuards {
  import opened Common
  import opened BufferPool

  /** A guard variable; one that owns nothing is as after `drop()`. */
  datatype Guard = Empty | Owning(frame: nat, pageId: PageId, dirty: bool)

  type Guards = map<nat, Guard>

  /** For each owning guard variable, the holder of the pin it owns. */
  type Tokens = map<nat, nat>

  /** The guard variables that own a pin on frame `f`. */
  ghost function OwnersOf(guards: Guards, f: nat): set<nat> {
    set i | i in guards && guards[i].Owning? && guards[i].frame == f
  }

  ghost predicate OwnsPin(g: Guard, token: nat, frames: seq<Frame>, usage: seq<Usage>)
    requires g.Owning?
  {
    && g.frame < |frames| && g.frame < |usage|
    && token in usage[g.frame].holders
    && frames[g.frame].valid && frames[g.frame].pageId == g.pageId
  }

  ghost predicate OwnerOf(guards: Guards, tokens: Tokens, i: nat, f: nat, h: nat) {
    i in guards && guards[i].Owning? && guards[i].frame == f && i in tokens && tokens[i] == h
  }

  /** Every pin belongs to exactly one guard variable. */
  ghost predicate OneOwnerPerPin(guards: Guards, tokens: Tokens, frames: seq<Frame>, usage: seq<Usage>) {
    && |frames| == |usage|
    && (forall i :: i in guards && guards[i].Owning? ==> i in tokens && OwnsPin(guards[i], tokens[i], frames, usage))
    && (forall i, j :: i in guards && j in guards && i != j && guards[i].Owning? && guards[j].Owning? ==>
        i in tokens && j in tokens && tokens[i] != tokens[j])
    && (forall f, h :: 0 <= f < |usage| && h in usage[f].holders ==> exists i :: OwnerOf(guards, tokens, i, f, h))
  }

  /** A set and its image under an injection have the same size. */
  lemma {:induction false} InjectiveImage(tokens: Tokens, s: set<nat>, image: set<nat>)
    requires forall i :: i in s ==> i in tokens && tokens[i] in image
    requires forall i, j :: i in s && j in s && i != j ==> tokens[i] != tokens[j]
    requires forall h :: h in image ==> exists i :: i in s && tokens[i] == h
    ensures |s| == |image|
  {
    if s == {} {
      assert image == {};
    } else {
      var i :| i in s;
      InjectiveImage(tokens, s - {i}, image - {tokens[i]});
    }
  }

  /** The pin count of a frame is the number of guards on it. */
  lemma PinsAreGuards(guards: Guards, tokens: Tokens, frames: seq<Frame>, usage: seq<Usage>, f: nat)
    requires OneOwnerPerPin(guards, tokens, frames, usage) && f < |frames|
    requires frames[f].pins == |usage[f].holders|
    ensures frames[f].pins == |OwnersOf(guards, f)|
  {
    forall h | h in usage[f].holders
      ensures exists i :: i in OwnersOf(guards, f) && tokens[i] == h
    {
      var i :| OwnerOf(guards, tokens, i, f, h);
      assert i in OwnersOf(guards, f);
    }
    InjectiveImage(tokens, OwnersOf(guards, f), usage[f].holders);
  }

  /** Letting go of a pin. */
  lemma DropOwner(guards: Guards, tokens: Tokens, frames: seq<Frame>, usage: seq<Usage>, i: nat,
                  frames': seq<Frame>, usage': seq<Usage>)
    requires OneOwnerPerPin(guards, tokens, frames, usage) && i in guards && guards[i].Owning?
    requires |frames'| == |frames| && |usage'| == |usage|
    requires forall f :: 0 <= f < |frames| ==> frames'[f].valid == frames[f].valid && frames'[f].pageId == frames[f].pageId
    requires forall f :: 0 <= f < |usage| ==>
      usage'[f].holders == if f == guards[i].frame then usage[f].holders - {tokens[i]} else usage[f].holders
    ensures OneOwnerPerPin(guards[i := Empty], tokens, frames', usage')
  {
    var guards' := guards[i := Empty];
    forall f, h | 0 <= f < |usage'| && h in usage'[f].holders
      ensures exists j :: OwnerOf(guards', tokens, j, f, h)
    {
      var j :| OwnerOf(guards, tokens, j, f, h);
      assert OwnerOf(guards', tokens, j, f, h);
    }
  }

  /** An empty guard variable takes a new pin. */
  lemma AddOwner(guards: Guards, tokens: Tokens, frames: seq<Frame>, usage: seq<Usage>, i: nat, g: Guard, h: nat,
                 frames': seq<Frame>, usage': seq<Usage>)
    requires OneOwnerPerPin(guards, tokens, frames, usage) && (i in guards ==> guards[i].Empty?)
    requires g.Owning? && |frames'| == |frames| && |usage'| == |usage| && OwnsPin(g, h, frames', usage')
    requires forall f :: 0 <= f < |usage| ==> h !in usage[f].holders
    requires forall f :: 0 <= f < |usage| ==>
      usage'[f].holders == if f == g.frame then usage[f].holders + {h} else usage[f].holders
    requires forall f :: 0 <= f < |frames| && usage[f].holders != {} ==>
      frames'[f].valid == frames[f].valid && frames'[f].pageId == frames[f].pageId
    ensures OneOwnerPerPin(guards[i := g], tokens[i := h], frames', usage')
  {
    var guards', tokens' := guards[i := g], tokens[i := h];
    forall f, x | 0 <= f < |usage'| && x in usage'[f].holders
      ensures exists j :: OwnerOf(guards', tokens', j, f, x)
    {
      if x == h && f == g.frame {
        assert OwnerOf(guards', tokens', i, f, x);
      } else {
        var j :| OwnerOf(guards, tokens, j, f, x);
        assert OwnerOf(guards', tokens', j, f, x);
      }
    }
  }

  /** Frames without a pin may be reused. */
  lemma KeepOwners(guards: Guards, tokens: Tokens, frames: seq<Frame>, usage: seq<Usage>, frames': seq<Frame>)
    requires OneOwnerPerPin(guards, tokens, frames, usage) && |frames'| == |frames|
    requires forall f :: 0 <= f < |frames| && usage[f].holders != {} ==>
      frames'[f].valid == frames[f].valid && frames'[f].pageId == frames[f].pageId
    ensures OneOwnerPerPin(guards, tokens, frames', usage)
  {
  }

  ghost function MovedTokens(tokens: Tokens, i: nat, j: nat): Tokens {
    if j in tokens then tokens[i := tokens[j]] else tokens
  }

  /** A move hands the pin from one guard variable to another. */
  lemma MoveOwner(guards: Guards, tokens: Tokens, frames: seq<Frame>, usage: seq<Usage>, i: nat, j: nat)
    requires OneOwnerPerPin(guards, tokens, frames, usage)
    requires i in guards && j in guards && i != j && guards[i].Empty?
    ensures OneOwnerPerPin(guards[i := guards[j]][j := Empty], MovedTokens(tokens, i, j), frames, usage)
  {
    var guards', tokens' := guards[i := guards[j]][j := Empty], MovedTokens(tokens, i, j);
    forall f, x | 0 <= f < |usage| && x in usage[f].holders
      ensures exists m :: OwnerOf(guards', tokens', m, f, x)
    {
      var m :| OwnerOf(guards, tokens, m, f, x);
      assert OwnerOf(guards', tokens', if m == j then i else m, f, x);
    }
  }

  class Session {
    const pool: Pool
    var guards: Guards
    ghost var tokens: Tokens

    ghost predicate Valid()
      reads this, pool, pool.replacer
    {
      pool.Valid() && OneOwnerPerPin(guards, tokens, pool.frames, pool.usage)
    }

    constructor (pool: Pool)
      requires pool.Valid() && forall f :: 0 <= f < |pool.usage| ==> pool.usage[f].holders == {}
      ensures Valid() && this.pool == pool && guards == map[]
    {
      this.pool, guards, tokens := pool, map[], map[];
    }

    /** A guard whose holder wrote to the page has been marked dirty. */
    ghost predicate Disciplined(i: nat)
      reads this, pool
    {
      i in guards && guards[i].Owning? && i in tokens && guards[i].frame < |pool.usage| ==>
        tokens[i] in pool.usage[guards[i].frame].writers ==> guards[i].dirty
    }

    /** In every state, the pin count of a frame is the number of guards that own it. */
    lemma PinCount(f: nat)
      requires Valid() && f < |pool.frames|
      ensures pool.frames[f].pins == |OwnersOf(guards, f)|
    {
      assert FrameOk(pool.frames[f], pool.usage[f], pool.replacer.entries[f], f, pool.table, pool.disk);
      PinsAreGuards(guards, tokens, pool.frames, pool.usage, f);
    }

    /** Unpins the page; a second call does nothing. */
    method Drop(i: nat)
      requires Valid() && i in guards && Disciplined(i)
      modifies this, pool`frames, pool`usage, pool.replacer
      ensures Valid() && guards == old(guards)[i := Empty] && tokens == old(tokens)
      ensures pool.Contents() == old(pool.Contents())
      ensures old(guards)[i].Empty? ==> pool.frames == old(pool.frames) && pool.usage == old(pool.usage)
      ensures old(guards)[i].Owning? ==>
        var g := old(guards)[i];
        g.frame < |old(pool.frames)| == |pool.frames| && pool.frames[g.frame].pins + 1 == old(pool.frames)[g.frame].pins
        && pool.frames == old(pool.frames)[g.frame := old(pool.frames)[g.frame].(
          pins := pool.frames[g.frame].pins, dirty := old(pool.frames)[g.frame].dirty || g.dirty)]
    {
      if guards[i].Owning? {
        var g := guards[i];
        assert FrameOk(pool.frames[g.frame], pool.usage[g.frame], pool.replacer.entries[g.frame], g.frame,
                       pool.table, pool.disk);
        var status := pool.UnpinPage(g.pageId, g.dirty, tokens[i]);
        DropOwner(guards, tokens, old(pool.frames), old(pool.usage), i, pool.frames, pool.usage);
      }
      guards := guards[i := Empty];
      assert old(guards)[i].Empty? ==> guards == old(guards);
    }

    /** Move assignment: releases what `i` owns, then takes over what `j` owns. */
    method Move(i: nat, j: nat)
      requires Valid() && i in guards && j in guards && Disciplined(i)
      modifies this, pool`frames, pool`usage, pool.replacer
      ensures Valid() && pool.Contents() == old(pool.Contents())
      ensures i != j ==> guards == old(guards)[i := old(guards)[j]][j := Empty]
      ensures i == j ==> guards == old(guards)
    {
      if i != j {
        Drop(i);
        TakeOver(i, j);
      }
    }

    method TakeOver(i: nat, j: nat)
      requires Valid() && i in guards && j in guards && i != j && guards[i].Empty?
      modifies this
      ensures Valid() && guards == old(guards)[i := old(guards)[j]][j := Empty]
    {
      MoveOwner(guards, tokens, pool.frames, pool.usage, i, j);
      tokens := MovedTokens(tokens, i, j);
      guards := guards[i := guards[j]][j := Empty];
    }

    method MarkDirty(i: nat)
      requires Valid() && i in guards && guards[i].Owning?
      modifies this`guards
      ensures Valid() && Disciplined(i) && guards == old(guards)[i := old(guards)[i].(dirty := true)]
    {
      guards := guards[i := guards[i].(dirty := true)];
      forall f, h | 0 <= f < |pool.usage| && h in pool.usage[f].holders
        ensures exists m :: OwnerOf(guards, tokens, m, f, h)
      {
        var m :| OwnerOf(old(guards), tokens, m, f, h);
        assert OwnerOf(guards, tokens, m, f, h);
      }
    }

    /** Writes the page through the guard. */
    method Write(i: nat, body: Body)
      requires Valid() && i in guards && guards[i].Owning?
      modifies pool`frames, pool`usage
      ensures Valid() && guards == old(guards)
      ensures var p := guards[i].pageId;
        pool.Contents() == if p >= 1 then old(pool.Contents())[p := body] else old(pool.Contents())
    {
      var g := guards[i];
      assert FrameOk(pool.frames[g.frame], pool.usage[g.frame], pool.replacer.entries[g.frame], g.frame,
                     pool.table, pool.disk);
      pool.Write(g.pageId, body, tokens[i]);
    }

    /** Pins page `p` for an empty guard variable. */
    method Take(i: nat, p: PageId, readOk: bool, writeOk: bool) returns (status: Status)
      requires Valid() && i in guards && guards[i].Empty?
      modifies this, pool, pool.replacer
      ensures Valid() && pool.Contents() == old(pool.Contents()) && i in guards
      ensures status == Ok ==>
        && guards[i].Owning? && guards[i].pageId == p && guards == old(guards)[i := guards[i]]
        && (p >= 1 ==> p in pool.Contents() && pool.frames[guards[i].frame].body == pool.Contents()[p])
      ensures status != Ok ==> guards == old(guards)
    {
      ghost var frames, usage := pool.frames, pool.usage;
      PinnedHaveHolders();
      ghost var h;
      var f;
      status, f, h := pool.FetchPage(p, readOk, writeOk);
      if status == Ok {
        AddOwner(guards, tokens, frames, usage, i, Owning(f, p, false), h, pool.frames, pool.usage);
        guards := guards[i := Owning(f, p, false)];
        tokens := tokens[i := h];
      } else {
        KeepOwners(guards, tokens, frames, usage, pool.frames);
      }
    }

    /** Drops what the guard owns, then pins page `p` for it. */
    method Fetch(i: nat, p: PageId, readOk: bool, writeOk: bool) returns (status: Status)
      requires Valid() && i in guards && Disciplined(i)
      modifies this, pool, pool.replacer
      ensures Valid() && pool.Contents() == old(pool.Contents()) && i in guards
      ensures status == Ok ==>
        && guards[i].Owning? && guards[i].pageId == p && guards == old(guards)[i := guards[i]]
        && (p >= 1 ==> p in pool.Contents() && pool.frames[guards[i].frame].body == pool.Contents()[p])
      ensures status != Ok ==> guards == old(guards)[i := Empty]
    {
      Drop(i);
      status := Take(i, p, readOk, writeOk);
    }

    /** Drops what the guard owns, then allocates a page and pins it for the guard. */
    method New(i: nat, allocOk: bool, torn: Body, meta: Body, writeOk: bool) returns (status: Status, p: PageId)
      requires Valid() && i in guards && Disciplined(i) && 0 < pool.count
      modifies this, pool, pool.replacer
      ensures Valid() && i in guards
      ensures status == Ok ==>
        && guards[i].Owning? && guards[i] == Owning(guards[i].frame, p, false) && guards == old(guards)[i := guards[i]]
        && p == old(pool.count) && pool.Contents() == old(pool.Contents())[p := ZeroPage()]
      ensures status != Ok ==>
        && guards == old(guards)[i := Empty]
        && (forall q :: q in old(pool.Contents()) ==>
            q in pool.Contents() && pool.Contents()[q] == old(pool.Contents())[q])
    {
      Drop(i);
      status, p := TakeNew(i, allocOk, torn, meta, writeOk);
    }

    /** Pins a new page for an empty guard variable. */
    method TakeNew(i: nat, allocOk: bool, torn: Body, meta: Body, writeOk: bool) returns (status: Status, p: PageId)
      requires Valid() && i in guards && guards[i].Empty? && 0 < pool.count
      modifies this, pool, pool.replacer
      ensures Valid() && i in guards
      ensures status == Ok ==>
        && guards[i].Owning? && guards[i] == Owning(guards[i].frame, p, false) && guards == old(guards)[i := guards[i]]
        && p == old(pool.count) && pool.Contents() == old(pool.Contents())[p := ZeroPage()]
      ensures status != Ok ==>
        && guards == old(guards)
        && (forall q :: q in old(pool.Contents()) ==>
            q in pool.Contents() && pool.Contents()[q] == old(pool.Contents())[q])
    {
      ghost var frames, usage := pool.frames, pool.usage;
      PinnedHaveHolders();
      ghost var h;
      var f;
      status, p, f, h := pool.NewPage(allocOk, torn, meta, writeOk);
      if status == Ok {
        AddOwner(guards, tokens, frames, usage, i, Owning(f, p, false), h, pool.frames, pool.usage);
        guards := guards[i := Owning(f, p, false)];
        tokens := tokens[i := h];
      } else {
        KeepOwners(guards, tokens, frames, usage, pool.frames);
      }
    }

    lemma PinnedHaveHolders()
      requires pool.Valid()
      ensures forall f :: 0 <= f < |pool.frames| ==> pool.frames[f].pins == |pool.usage[f].holders|
      ensures |pool.frames| == |pool.usage|
    {
      forall f | 0 <= f < |pool.frames|
        ensures pool.frames[f].pins == |pool.usage[f].holders|
      {
        assert FrameOk(pool.frames[f], pool.usage[f], pool.replacer.entries[f], f, pool.table, pool.disk);
      }
    }
  }
}
