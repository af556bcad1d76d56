/** Whole runs against the buffer pool: the cache is invisible. */
module PoolRuns {
  import opened Common
  import opened BufferPool

  /** An operation by a client that holds no pin in between; the flags say which
      disk transfers succeed. */
  datatype Op =
    | Create(allocOk: bool, torn: Body, meta: Body, writeOk: bool)
    | Read(page: PageId, readOk: bool, writeOk: bool)
    | Update(page: PageId, body: Body, readOk: bool, writeOk: bool)
    | Flush(page: PageId, ok: bool)

  datatype Out = Failed | Created(page: PageId) | Got(body: Body) | Done

  /** The pages after a run, according to what the operations reported. */
  ghost function PagesAfter(ops: seq<Op>, outs: seq<Out>): map<PageId, Body>
    requires |ops| == |outs|
  {
    if ops == [] then map[]
    else
      var n := |ops| - 1;
      PagesNext(PagesAfter(ops[..n], outs[..n]), ops[n], outs[n])
  }

  ghost function PagesNext(m: map<PageId, Body>, op: Op, out: Out): map<PageId, Body> {
    if op.Create? && out.Created? then m[out.page := ZeroPage()]
    else if op.Update? && out.Done? && op.page >= 1 then m[op.page := op.body]
    else m
  }

  /** The operation names pages that exist, and its disk transfers succeed. */
  ghost predicate Fair(m: map<PageId, Body>, op: Op) {
    match op
    case Create(allocOk, _, _, writeOk) => allocOk && writeOk
    case Read(p, readOk, writeOk) => readOk && writeOk && p in m
    case Update(p, _, readOk, writeOk) => readOk && writeOk && p in m
    case Flush(_, _) => false
  }

  /** A right answer where the pages are `m`: a read that succeeds returns the page as `m`
      has it, and with a frame to use nothing fails but what the disk fails. */
  ghost predicate RightAnswer(poolSize: nat, m: map<PageId, Body>, op: Op, out: Out) {
    && (op.Read? && out.Got? && op.page >= 1 && op.page in m ==> out.body == m[op.page])
    && (poolSize >= 1 && Fair(m, op) ==> !out.Failed?)
  }

  ghost predicate RightAt(poolSize: nat, ops: seq<Op>, outs: seq<Out>, i: nat)
    requires i < |ops| == |outs|
  {
    RightAnswer(poolSize, PagesAfter(ops[..i], outs[..i]), ops[i], outs[i])
  }

  /** Every operation is answered as a plain map of pages would answer it. */
  ghost predicate Transparent(poolSize: nat, ops: seq<Op>, outs: seq<Out>)
    requires |ops| == |outs|
  {
    forall i :: 0 <= i < |ops| ==> RightAt(poolSize, ops, outs, i)
  }

  ghost predicate NoHolders(usage: seq<Usage>) {
    forall f :: 0 <= f < |usage| ==> usage[f].holders == {}
  }

  /** Only `h` holds a pin, on frame `f`. */
  ghost predicate HeldBy(usage: seq<Usage>, f: nat, h: nat) {
    && f < |usage| && usage[f].holders == {h}
    && (forall g :: 0 <= g < |usage| && g != f ==> usage[g].holders == {})
  }

  lemma Taken(usage: seq<Usage>, f: nat, h: nat, writers: set<nat>)
    requires NoHolders(usage) && f < |usage|
    ensures HeldBy(usage[f := Usage(usage[f].holders + {h}, writers)], f, h)
  {
  }

  lemma GivenBack(usage: seq<Usage>, f: nat, h: nat, writers: set<nat>)
    requires HeldBy(usage, f, h)
    ensures NoHolders(usage[f := Usage(usage[f].holders - {h}, writers)])
  {
  }

  ghost predicate PartOf(m: map<PageId, Body>, c: map<PageId, Body>) {
    forall p :: p in m ==> p in c && c[p] == m[p]
  }

  lemma PartChanges(m: map<PageId, Body>, c: map<PageId, Body>, p: PageId, body: Body)
    requires PartOf(m, c)
    ensures PartOf(m[p := body], c[p := body])
  {
  }

  /** The map is part of what the pool stores; the rest are pages whose creation failed.
      Between operations nothing is pinned. */
  ghost predicate Agrees(pool: Pool, m: map<PageId, Body>)
    reads pool, pool.replacer
  {
    && pool.Valid() && 0 < pool.count
    && NoHolders(pool.usage)
    && PartOf(m, pool.Contents())
  }

  /** A pool that nobody uses has an unpinned frame, if it has one at all. */
  lemma NotAllPinned(pool: Pool, m: map<PageId, Body>)
    requires Agrees(pool, m) && |pool.frames| >= 1
    ensures !AllPinned(pool.frames)
  {
    assert FrameOk(pool.frames[0], pool.usage[0], pool.replacer.entries[0], 0, pool.table, pool.disk);
  }

  /** The only holder of a page, which has not written it, gives its pin back. */
  method GiveBack(pool: Pool, p: PageId, ghost h: nat)
    requires pool.Valid() && p in pool.table && HeldBy(pool.usage, pool.table[p], h)
    requires h !in pool.usage[pool.table[p]].writers
    modifies pool, pool.replacer
    ensures pool.Valid() && pool.count == old(pool.count) && |pool.frames| == old(|pool.frames|) && NoHolders(pool.usage)
    ensures pool.Contents() == old(pool.Contents())
  {
    ghost var f := pool.table[p];
    assert FrameOk(pool.frames[f], pool.usage[f], pool.replacer.entries[f], f, pool.table, pool.disk);
    GivenBack(pool.usage, f, h, pool.usage[f].writers - {h});
    var unpinned := pool.UnpinPage(p, false, h);
  }

  method DoRead(pool: Pool, p: PageId, readOk: bool, writeOk: bool, ghost m: map<PageId, Body>) returns (out: Out)
    requires Agrees(pool, m)
    modifies pool, pool.replacer
    ensures Agrees(pool, m) && |pool.frames| == old(|pool.frames|) && pool.count == old(pool.count)
    ensures out.Got? && p in m && p >= 1 ==> out.body == m[p]
    ensures out.Got? ==> 0 <= p < pool.count
    ensures out.Failed? || out.Got?
    ensures old(|pool.frames|) >= 1 && readOk && writeOk && p in m ==> out.Got?
  {
    if |pool.frames| >= 1 {
      NotAllPinned(pool, m);
    }
    ghost var u := pool.usage;
    var status, f, h := pool.FetchPage(p, readOk, writeOk);
    if status != Ok {
      return Failed;
    }
    out := Got(pool.frames[f].body);
    Taken(u, f, h, u[f].writers);
    GiveBack(pool, p, h);
  }

  method DoUpdate(pool: Pool, p: PageId, body: Body, readOk: bool, writeOk: bool, ghost m: map<PageId, Body>)
    returns (out: Out)
    requires Agrees(pool, m)
    modifies pool, pool.replacer
    ensures out.Failed? || out.Done?
    ensures Agrees(pool, if out.Done? && p >= 1 then m[p := body] else m) && |pool.frames| == old(|pool.frames|)
    ensures pool.count == old(pool.count) && (out.Done? ==> 0 <= p < pool.count)
    ensures old(|pool.frames|) >= 1 && readOk && writeOk && p in m ==> out.Done?
  {
    if |pool.frames| >= 1 {
      NotAllPinned(pool, m);
    }
    ghost var u := pool.usage;
    var status, f, h := pool.FetchPage(p, readOk, writeOk);
    if status != Ok {
      return Failed;
    }
    Taken(u, f, h, u[f].writers);
    PartChanges(m, pool.Contents(), p, body);
    WriteBack(pool, p, body, h);
    out := Done;
  }

  /** The only holder of a page changes it and gives its pin back. */
  method WriteBack(pool: Pool, p: PageId, body: Body, ghost h: nat)
    requires pool.Valid() && p in pool.table && HeldBy(pool.usage, pool.table[p], h)
    modifies pool, pool.replacer
    ensures pool.Valid() && pool.count == old(pool.count) && |pool.frames| == old(|pool.frames|) && NoHolders(pool.usage)
    ensures pool.Contents() == if p >= 1 then old(pool.Contents())[p := body] else old(pool.Contents())
  {
    ghost var f := pool.table[p];
    assert FrameOk(pool.frames[f], pool.usage[f], pool.replacer.entries[f], f, pool.table, pool.disk);
    pool.Write(p, body, h);
    GivenBack(pool.usage, f, h, pool.usage[f].writers - {h});
    var unpinned := pool.UnpinPage(p, true, h);
  }

  method DoCreate(pool: Pool, allocOk: bool, torn: Body, meta: Body, writeOk: bool, ghost m: map<PageId, Body>)
    returns (out: Out)
    requires Agrees(pool, m)
    modifies pool, pool.replacer
    ensures out.Failed? || out.Created?
    ensures Agrees(pool, if out.Created? then m[out.page := ZeroPage()] else m) && |pool.frames| == old(|pool.frames|)
    ensures out.Created? ==> out.page == old(pool.count) && pool.count == out.page + 1
    ensures old(|pool.frames|) >= 1 && allocOk && writeOk ==> out.Created?
  {
    if |pool.frames| >= 1 {
      NotAllPinned(pool, m);
    }
    ghost var u, c := pool.usage, pool.Contents();
    var status, p, f, h := pool.NewPage(allocOk, torn, meta, writeOk);
    if status != Ok {
      return Failed;
    }
    Taken(u, f, h, u[f].writers);
    PartChanges(m, c, p, ZeroPage());
    GiveBack(pool, p, h);
    out := Created(p);
  }

  method Perform(pool: Pool, op: Op, ghost m: map<PageId, Body>) returns (out: Out)
    requires Agrees(pool, m)
    modifies pool, pool.replacer
    ensures Agrees(pool, PagesNext(m, op, out)) && |pool.frames| == old(|pool.frames|)
    ensures RightAnswer(old(|pool.frames|), m, op, out)
  {
    match op {
      case Create(allocOk, torn, meta, writeOk) =>
        out := DoCreate(pool, allocOk, torn, meta, writeOk, m);
      case Read(p, readOk, writeOk) =>
        out := DoRead(pool, p, readOk, writeOk, m);
      case Update(p, body, readOk, writeOk) =>
        out := DoUpdate(pool, p, body, readOk, writeOk, m);
      case Flush(p, ok) =>
        var status := pool.FlushPage(p, ok);
        out := if status == Ok then Done else Failed;
    }
  }

  /** For every pool size, every run of operations and every pattern of disk failures,
      the cache is invisible. */
  method Replay(poolSize: nat, meta: Body, ops: seq<Op>) returns (outs: seq<Out>)
    ensures |outs| == |ops| && Transparent(poolSize, ops, outs)
  {
    var pool := new Pool(poolSize, map[0 := meta], 1);
    outs := [];
    ghost var m := map[];
    while |outs| < |ops|
      invariant |outs| <= |ops| && fresh(pool) && fresh(pool.replacer) && |pool.frames| == poolSize
      invariant Agrees(pool, m) && m == PagesAfter(ops[..|outs|], outs)
      invariant Transparent(poolSize, ops[..|outs|], outs)
    {
      var op := ops[|outs|];
      var out := Perform(pool, op, m);
      Extend(poolSize, ops[..|outs|], outs, op, out);
      assert ops[..|outs| + 1] == ops[..|outs|] + [op];
      m := PagesNext(m, op, out);
      outs := outs + [out];
    }
    assert ops[..|outs|] == ops;
  }

  /** One more operation does not change how earlier ones had to be answered. */
  lemma Extend(poolSize: nat, ops: seq<Op>, outs: seq<Out>, op: Op, out: Out)
    requires |ops| == |outs| && Transparent(poolSize, ops, outs)
    requires RightAnswer(poolSize, PagesAfter(ops, outs), op, out)
    ensures PagesAfter(ops + [op], outs + [out]) == PagesNext(PagesAfter(ops, outs), op, out)
    ensures Transparent(poolSize, ops + [op], outs + [out])
  {
    var n, ops', outs' := |ops|, ops + [op], outs + [out];
    assert ops'[..n] == ops && outs'[..n] == outs;
    forall i | 0 <= i < |ops'|
      ensures RightAt(poolSize, ops', outs', i)
    {
      if i < n {
        assert ops'[..i] == ops[..i] && outs'[..i] == outs[..i];
        assert RightAt(poolSize, ops, outs, i);
      }
    }
  }

  // ---- Clients of a page store ---------------------------------------------

  /** What a client asks of its page store. */
  datatype Ask = MakePage | GetPage(page: PageId) | PutPage(page: PageId, body: Body)

  /** A client decides from the answers so far what to ask next: any deterministic program
      over pages, such as an index that descends, splits and merges. */
  type Client = seq<Out> -> Ask

  /** The answer of a plain list of pages, numbered from 1, and the list afterwards. */
  function ListReply(store: seq<Body>, ask: Ask): (seq<Body>, Out) {
    match ask
    case MakePage => (store + [ZeroPage()], Created(|store| + 1))
    case GetPage(p) => if 1 <= p <= |store| then (store, Got(store[p - 1])) else (store, Failed)
    case PutPage(p, body) => if 1 <= p <= |store| then (store[p - 1 := body], Done) else (store, Failed)
  }

  /** The first `n` rounds of a client with such a list. */
  function ListHistory(client: Client, n: nat): (seq<Body>, seq<Out>) {
    if n == 0 then ([], [])
    else
      var (store, outs) := ListHistory(client, n - 1);
      var (store', out) := ListReply(store, client(outs));
      (store', outs + [out])
  }

  ghost function PageAt(store: seq<Body>, p: PageId): Body
    requires 1 <= p <= |store|
  {
    store[p - 1]
  }

  ghost function PagesOf(store: seq<Body>): map<PageId, Body> {
    map p | 1 <= p <= |store| :: PageAt(store, p)
  }

  lemma PagesChange(store: seq<Body>, p: PageId, body: Body)
    ensures PagesOf(store + [body]) == PagesOf(store)[|store| + 1 := body]
    ensures 1 <= p <= |store| ==> PagesOf(store[p - 1 := body]) == PagesOf(store)[p := body]
  {
  }

  /** One round, with the disk in order. */
  method Answer(pool: Pool, ask: Ask, meta: Body, ghost store: seq<Body>) returns (out: Out)
    requires Agrees(pool, PagesOf(store)) && pool.count == |store| + 1 && |pool.frames| >= 1
    requires !ask.MakePage? ==> ask.page != 0
    modifies pool, pool.replacer
    ensures var (store', reply) := ListReply(store, ask);
      out == reply && Agrees(pool, PagesOf(store')) && pool.count == |store'| + 1 && |pool.frames| == old(|pool.frames|)
  {
    ghost var m := PagesOf(store);
    match ask {
      case MakePage =>
        PagesChange(store, 0, ZeroPage());
        out := DoCreate(pool, true, ZeroPage(), meta, true, m);
      case GetPage(p) =>
        out := DoRead(pool, p, true, true, m);
      case PutPage(p, body) =>
        PagesChange(store, p, body);
        out := DoUpdate(pool, p, body, true, true, m);
    }
  }

  /** No client that leaves page 0 alone can tell the pool from the list, whatever the size of
      the pool: it gets the same answers and so asks the same questions. */
  method Serve(client: Client, poolSize: nat, meta: Body, n: nat) returns (outs: seq<Out>)
    requires poolSize >= 1 && forall answers :: client(answers).MakePage? || client(answers).page != 0
    ensures outs == ListHistory(client, n).1
  {
    var pool := new Pool(poolSize, map[0 := meta], 1);
    outs := [];
    ghost var store := [];
    var i := 0;
    while i < n
      invariant i <= n && fresh(pool) && fresh(pool.replacer) && |pool.frames| == poolSize
      invariant Agrees(pool, PagesOf(store)) && pool.count == |store| + 1 && (store, outs) == ListHistory(client, i)
    {
      var ask := client(outs);
      var out := Answer(pool, ask, meta, store);
      store := ListReply(store, ask).0;
      outs := outs + [out];
      i := i + 1;
    }
  }
}
