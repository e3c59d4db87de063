/**
 * The buffer pool as a state machine, refined to a plain page store in which
 * callers hold handles to pages.
 */
module PoolStates {
  import opened Bytes
  import opened Wrappers
  import opened ClockSweep

  type Page = seq<byte>

  /** `blank` is what a page reads as when the heap file has just allocated it. */
  datatype Pool = Pool(
    frames: seq<Page>,
    descriptors: seq<Descriptor>,
    clock: nat,
    table: map<nat, nat>,
    disk: seq<Page>,
    blank: Page)

  const MAX_BUFFER_FRAMES: nat := 131_072
  const MAX_USAGE: nat := 255

  function Saturated(usage: nat): nat {
    if usage < MAX_USAGE then usage + 1 else MAX_USAGE
  }

  // --------------------------------------------------------------- operations

  /** The victim's page goes back to disk if dirty, and out of the page table. */
  function Freed(pool: Pool, i: nat): Pool
    requires i < |pool.descriptors| && i < |pool.frames|
  {
    var d := pool.descriptors[i];
    pool.(descriptors := pool.descriptors[i := Descriptor(None, false, d.pins, d.usage)],
          table := if d.page.Some? then map p | p in pool.table && p != d.page.value :: pool.table[p] else pool.table,
          disk := Written(pool, i))
  }

  /** The disk once frame `i` has been written back, if it is dirty and holds a page. */
  function Written(pool: Pool, i: nat): seq<Page>
    requires i < |pool.descriptors| && i < |pool.frames|
  {
    var d := pool.descriptors[i];
    if d.dirty && d.page.Some? && d.page.value < |pool.disk| then pool.disk[d.page.value := pool.frames[i]]
    else pool.disk
  }

  function SweptPool(pool: Pool): Pool
    requires |pool.descriptors| > 0
  {
    var r := Sweep(pool.descriptors, pool.clock, 2 * |pool.descriptors|);
    pool.(descriptors := r.descriptors, clock := r.clock)
  }

  function VictimOf(pool: Pool): Option<nat>
    requires |pool.descriptors| > 0
  {
    Sweep(pool.descriptors, pool.clock, 2 * |pool.descriptors|).victim
  }

  function EvictOf(pool: Pool): Pool
    requires 0 < |pool.descriptors| == |pool.frames|
  {
    if VictimOf(pool).None? then SweptPool(pool) else Freed(SweptPool(pool), VictimOf(pool).value)
  }

  /** The heap file, grown until it has page `p`. */
  function Grown(disk: seq<Page>, p: nat, blank: Page): (r: seq<Page>)
    ensures |r| == if p < |disk| then |disk| else p + 1
    ensures forall q :: 0 <= q < |r| ==> r[q] == if q < |disk| then disk[q] else blank
  {
    if p < |disk| then disk else disk + seq(p + 1 - |disk|, q => blank)
  }

  function Loaded(pool: Pool, p: nat, i: nat): Pool
    requires i < |pool.descriptors| && i < |pool.frames|
  {
    var disk := Grown(pool.disk, p, pool.blank);
    pool.(frames := pool.frames[i := disk[p]],
          descriptors := pool.descriptors[i := Descriptor(Some(p), false, 1, 1)],
          table := pool.table[p := i],
          disk := disk)
  }

  predicate Hit(pool: Pool, p: nat) {
    p in pool.table && pool.table[p] < |pool.descriptors| && pool.descriptors[pool.table[p]].page == Some(p)
  }

  function Pinned(pool: Pool, i: nat): Pool
    requires i < |pool.descriptors|
  {
    var d := pool.descriptors[i];
    pool.(descriptors := pool.descriptors[i := Descriptor(d.page, d.dirty, d.pins + 1, Saturated(d.usage))])
  }

  /** The frame a pin of page `p` answers with; none when every frame was found pinned or in use. */
  function PinAnswer(pool: Pool, p: nat): Option<nat>
    requires |pool.descriptors| > 0
  {
    if Hit(pool, p) then Some(pool.table[p]) else VictimOf(pool)
  }

  function PinOf(pool: Pool, p: nat): Pool
    requires 0 < |pool.descriptors| == |pool.frames|
  {
    if Hit(pool, p) then Pinned(pool, pool.table[p])
    else if VictimOf(pool).None? then SweptPool(pool)
    else Loaded(EvictOf(pool), p, VictimOf(pool).value)
  }

  function UnpinOf(pool: Pool, i: nat, dirty: bool): Pool
    requires i < |pool.descriptors|
  {
    var d := pool.descriptors[i];
    pool.(descriptors := pool.descriptors[i :=
      Descriptor(d.page, d.dirty || dirty, if d.pins > 0 then d.pins - 1 else 0, d.usage)])
  }

  function FlushOf(pool: Pool, i: nat): Pool
    requires i < |pool.descriptors| && i < |pool.frames|
  {
    var d := pool.descriptors[i];
    pool.(descriptors := pool.descriptors[i := Descriptor(d.page, false, d.pins, d.usage)], disk := Written(pool, i))
  }

  /** Frames `0..k` flushed in turn. */
  function FlushedTo(pool: Pool, k: nat): (r: Pool)
    requires |pool.descriptors| == |pool.frames|
    ensures |r.descriptors| == |r.frames| == |pool.frames|
  {
    if k == 0 then pool
    else
      var r := FlushedTo(pool, k - 1);
      if k - 1 < |r.frames| then FlushOf(r, k - 1) else r
  }

  function WriteOf(pool: Pool, i: nat, page: Page): Pool
    requires i < |pool.frames|
  {
    pool.(frames := pool.frames[i := page])
  }

  // ------------------------------------------------------- the plain store

  /** A caller's hold on a frame: the page asked for, how often, and whether a write is still unreported. */
  datatype Handle = Handle(page: nat, count: nat, unreported: bool)

  /** Pages never written read as blank ones. */
  datatype Store = Store(pages: map<nat, Page>, handles: map<nat, Handle>, blank: Page)

  function Reads(st: Store, p: nat): Page {
    if p in st.pages then st.pages[p] else st.blank
  }

  /** What the pool holds for a page: the frame's content if cached, else the disk's. */
  function Content(pool: Pool, p: nat): Page {
    if p in pool.table && pool.table[p] < |pool.frames| then pool.frames[pool.table[p]]
    else if p < |pool.disk| then pool.disk[p]
    else pool.blank
  }

  // ------------------------------------------------------------ the invariant

  /** Table and descriptors are inverse to each other at page `p`. */
  predicate TableAt(pool: Pool, p: nat) {
    p in pool.table ==>
      pool.table[p] < |pool.descriptors| && pool.descriptors[pool.table[p]].page == Some(p) && p < |pool.disk|
  }

  /** The same at frame `i`, and: content differs from disk only when that is known or will be reported. */
  predicate FrameAt(pool: Pool, st: Store, i: nat) {
    i < |pool.descriptors| && i < |pool.frames| ==>
      var d := pool.descriptors[i];
      && d.usage <= MAX_USAGE
      && (d.page.Some? ==> d.page.value in pool.table && pool.table[d.page.value] == i)
      && (d.page.Some? && !d.dirty && !(i in st.handles && st.handles[i].unreported) ==>
            d.page.value < |pool.disk| && pool.frames[i] == pool.disk[d.page.value])
      && (if i in st.handles then
            d.pins == st.handles[i].count > 0 && d.page == Some(st.handles[i].page)
          else d.pins == 0)
  }

  predicate PageAt(pool: Pool, st: Store, p: nat) {
    Content(pool, p) == Reads(st, p)
  }

  predicate Sized(pool: Pool) {
    0 < |pool.descriptors| == |pool.frames| <= MAX_BUFFER_FRAMES && pool.clock < WORD
  }

  ghost predicate Refines(pool: Pool, st: Store) {
    && Sized(pool)
    && pool.blank == st.blank
    && (forall i :: i in st.handles ==> i < |pool.frames|)
    && (forall p: nat {:trigger TableAt(pool, p)} :: TableAt(pool, p))
    && (forall i: nat {:trigger FrameAt(pool, st, i)} :: i < |pool.frames| ==> FrameAt(pool, st, i))
    && (forall p: nat {:trigger PageAt(pool, st, p)} :: PageAt(pool, st, p))
  }

  // --------------------------------------------------------- each operation

  lemma SweepRefines(pool: Pool, st: Store)
    requires Refines(pool, st)
    ensures Refines(SweptPool(pool), st)
  {
    var next, k := SweptPool(pool), 2 * |pool.descriptors|;
    SweepClock(pool.descriptors, pool.clock, k);
    forall i: nat | i < |pool.frames| ensures FrameAt(next, st, i) {
      assert FrameAt(pool, st, i);
      SweepFrame(pool.descriptors, pool.clock, k, i);
    }
    forall p: nat ensures TableAt(next, p) && PageAt(next, st, p) {
      assert TableAt(pool, p) && PageAt(pool, st, p);
      if p in pool.table { SweepFrame(pool.descriptors, pool.clock, k, pool.table[p]); }
    }
  }

  lemma FreedRefines(pool: Pool, st: Store, i: nat)
    requires Refines(pool, st) && i < |pool.frames| && pool.descriptors[i].pins == 0
    ensures Refines(Freed(pool, i), st) && Freed(pool, i).descriptors[i].page.None?
  {
    var next := Freed(pool, i);
    assert FrameAt(pool, st, i);
    forall j: nat | j < |pool.frames| ensures FrameAt(next, st, j) {
      assert FrameAt(pool, st, j);
    }
    forall p: nat ensures TableAt(next, p) && PageAt(next, st, p) {
      assert TableAt(pool, p) && PageAt(pool, st, p);
    }
  }

  /** Evicting refines doing nothing, and leaves a free frame. */
  lemma EvictRefines(pool: Pool, st: Store)
    requires Refines(pool, st)
    ensures Refines(EvictOf(pool), st)
    ensures VictimOf(pool).Some? ==>
      && EvictOf(pool).descriptors[VictimOf(pool).value] == Descriptor(None, false, 0, 0)
      && VictimOf(pool).value !in st.handles
  {
    SweepRefines(pool, st);
    if VictimOf(pool).Some? {
      var i := VictimOf(pool).value;
      SweepFrame(pool.descriptors, pool.clock, 2 * |pool.descriptors|, i);
      assert FrameAt(pool, st, i);
      FreedRefines(SweptPool(pool), st, i);
    }
  }

  /** A pin that was answered: one more hold on the page, under the frame's number. */
  function Holding(st: Store, i: nat, p: nat): Store {
    Store(st.pages,
          st.handles[i := if i in st.handles then Handle(p, st.handles[i].count + 1, st.handles[i].unreported)
                          else Handle(p, 1, false)],
          st.blank)
  }

  lemma HitRefines(pool: Pool, st: Store, p: nat)
    requires Refines(pool, st) && Hit(pool, p)
    ensures Refines(Pinned(pool, pool.table[p]), Holding(st, pool.table[p], p))
  {
    var i := pool.table[p];
    var next, st' := Pinned(pool, i), Holding(st, i, p);
    forall j: nat | j < |pool.frames| ensures FrameAt(next, st', j) {
      assert FrameAt(pool, st, j);
    }
    forall q: nat ensures TableAt(next, q) && PageAt(next, st', q) {
      assert TableAt(pool, q) && PageAt(pool, st, q);
    }
  }

  lemma LoadedRefines(pool: Pool, st: Store, p: nat, i: nat)
    requires Refines(pool, st) && p !in pool.table
    requires i < |pool.frames| && pool.descriptors[i].page.None? && i !in st.handles
    ensures Refines(Loaded(pool, p, i), Holding(st, i, p))
  {
    var next, st' := Loaded(pool, p, i), Holding(st, i, p);
    assert PageAt(pool, st, p);
    forall j: nat | j < |pool.frames| ensures FrameAt(next, st', j) {
      assert FrameAt(pool, st, j);
    }
    forall q: nat ensures TableAt(next, q) && PageAt(next, st', q) {
      assert TableAt(pool, q) && PageAt(pool, st, q);
    }
  }

  lemma NotCached(pool: Pool, st: Store, p: nat)
    requires Refines(pool, st) && !Hit(pool, p)
    ensures p !in EvictOf(pool).table
  {
    assert TableAt(pool, p);
  }

  /** Pinning never takes a frame another caller holds for another page. */
  lemma PinRefines(pool: Pool, st: Store, p: nat)
    requires Refines(pool, st)
    ensures PinAnswer(pool, p).None? ==> Refines(PinOf(pool, p), st)
    ensures PinAnswer(pool, p).Some? ==> Refines(PinOf(pool, p), Holding(st, PinAnswer(pool, p).value, p))
    ensures PinAnswer(pool, p).Some? && PinAnswer(pool, p).value in st.handles ==>
      st.handles[PinAnswer(pool, p).value].page == p
  {
    if Hit(pool, p) {
      HitRefines(pool, st, p);
      assert FrameAt(pool, st, pool.table[p]);
    } else {
      EvictRefines(pool, st);
      NotCached(pool, st, p);
      if VictimOf(pool).Some? {
        LoadedRefines(EvictOf(pool), st, p, VictimOf(pool).value);
      }
    }
  }

  /** A pin is answered exactly when the page is cached or two rounds of the clock can take a frame. */
  lemma PinAnsweredExact(pool: Pool, st: Store, p: nat)
    requires Refines(pool, st)
    ensures VictimOf(pool).Some? <==>
      exists i: nat :: Takes(pool.descriptors, pool.clock, 2 * |pool.descriptors|, i)
    ensures PinAnswer(pool, p).Some? <==> p in pool.table || VictimOf(pool).Some?
    ensures p in pool.table ==> PinAnswer(pool, p) == Some(pool.table[p])
  {
    assert TableAt(pool, p);
    SweepTakes(pool.descriptors, pool.clock, 2 * |pool.descriptors|);
  }

  /** Which frame it is: the one the first tick comes past that can take any. */
  lemma VictimExact(pool: Pool, v: nat)
    requires |pool.descriptors| > 0
    ensures VictimOf(pool) == Some(v) <==>
      exists j: nat :: j < 2 * |pool.descriptors| && FoundAt(pool.descriptors, pool.clock, j, v)
  {
    var ds, k := pool.descriptors, 2 * |pool.descriptors|;
    SweepTakes(ds, pool.clock, k);
    hide Sweep, Takes;
    if j: nat :| j < k && FoundAt(ds, pool.clock, j, v) {
      FoundTakes(ds, pool.clock, j, k, v);
      var j' := SweepStops(ds, pool.clock, k);
      FoundOnce(ds, pool.clock, j, v, j', VictimOf(pool).value);
    }
    if VictimOf(pool) == Some(v) {
      var j := SweepStops(ds, pool.clock, k);
    }
  }

  lemma FoundTakes(ds: seq<Descriptor>, clock: nat, j: nat, k: nat, v: nat)
    requires 0 < |ds| && j < k && FoundAt(ds, clock, j, v)
    ensures Takes(ds, clock, k, v)
  {
    MoreVisits(|ds|, clock, j + 1, k, v);
  }

  /** While the hand does not wrap unevenly: cached, or some frame nobody holds was used at most once. */
  lemma PinAnsweredEven(pool: Pool, st: Store, p: nat)
    requires Refines(pool, st) && Even(|pool.descriptors|, pool.clock, 2 * |pool.descriptors|)
    ensures PinAnswer(pool, p).Some? <==>
      p in pool.table || exists i: nat :: i < |pool.frames| && i !in st.handles && pool.descriptors[i].usage <= 1
  {
    var n, k := |pool.descriptors|, 2 * |pool.descriptors|;
    PinAnsweredExact(pool, st, p);
    hide Visits, Sweep, Even, VictimOf, PinAnswer;
    forall i: nat | i < n
      ensures Takes(pool.descriptors, pool.clock, k, i) <==> i !in st.handles && pool.descriptors[i].usage <= 1 {
      VisitsEven(n, pool.clock, 2, k, i);
      assert FrameAt(pool, st, i);
    }
    if i: nat :| Takes(pool.descriptors, pool.clock, k, i) { assert i < n; }
  }

  /** A new pool answers every pin. */
  lemma NewPoolAnswers(pool: Pool, st: Store, p: nat)
    requires Refines(pool, st)
    requires forall i :: 0 <= i < |pool.frames| ==> pool.descriptors[i] == Descriptor(None, false, 0, 0)
    ensures PinAnswer(pool, p) == Some(pool.clock % |pool.frames|)
  {
    assert TableAt(pool, p);
  }

  /** A loaded page has been used once, a cached one once more, up to 255; neither is dirtier than before. */
  lemma PinCounts(pool: Pool, st: Store, p: nat)
    requires Refines(pool, st) && PinAnswer(pool, p).Some?
    ensures var i, next := PinAnswer(pool, p).value, PinOf(pool, p);
      && i < |next.descriptors| == |pool.descriptors|
      && if p in pool.table then
           && next.descriptors[i].dirty == pool.descriptors[i].dirty
           && next.descriptors[i].usage
              == if pool.descriptors[i].usage == 255 then 255 else pool.descriptors[i].usage + 1
         else next.descriptors[i].usage == 1 && !next.descriptors[i].dirty
  {
    PinRefines(pool, st, p);
    assert TableAt(pool, p);
    if p in pool.table { assert FrameAt(pool, st, pool.table[p]); }
  }

  /** Giving back a hold: the last one may not leave an unreported write behind. */
  predicate MayUnpin(st: Store, i: nat, dirty: bool) {
    i in st.handles && (st.handles[i].unreported && !dirty ==> st.handles[i].count > 1)
  }

  function Unheld(st: Store, i: nat, dirty: bool): Store
    requires i in st.handles
  {
    var h := st.handles[i];
    Store(st.pages,
          if h.count > 1 then st.handles[i := Handle(h.page, h.count - 1, h.unreported && !dirty)]
          else map j | j in st.handles && j != i :: st.handles[j],
          st.blank)
  }

  lemma UnpinRefines(pool: Pool, st: Store, i: nat, dirty: bool)
    requires Refines(pool, st) && MayUnpin(st, i, dirty)
    ensures Refines(UnpinOf(pool, i, dirty), Unheld(st, i, dirty))
  {
    var next, st' := UnpinOf(pool, i, dirty), Unheld(st, i, dirty);
    forall j: nat | j < |pool.frames| ensures FrameAt(next, st', j) {
      assert FrameAt(pool, st, j) && FrameAt(pool, st, i);
    }
    forall q: nat ensures TableAt(next, q) && PageAt(next, st', q) {
      assert TableAt(pool, q) && PageAt(pool, st, q);
    }
  }

  function WrittenStore(st: Store, i: nat, page: Page): Store
    requires i in st.handles
  {
    var h := st.handles[i];
    Store(st.pages[h.page := page], st.handles[i := Handle(h.page, h.count, true)], st.blank)
  }

  /** Writing a held frame writes the page it was pinned for, and no other. */
  lemma WriteRefines(pool: Pool, st: Store, i: nat, page: Page)
    requires Refines(pool, st) && i in st.handles
    ensures Refines(WriteOf(pool, i, page), WrittenStore(st, i, page))
  {
    var next, st' := WriteOf(pool, i, page), WrittenStore(st, i, page);
    assert FrameAt(pool, st, i);
    forall j: nat | j < |pool.frames| ensures FrameAt(next, st', j) {
      assert FrameAt(pool, st, j);
    }
    forall q: nat ensures TableAt(next, q) && PageAt(next, st', q) {
      assert TableAt(pool, q) && PageAt(pool, st, q);
    }
  }

  /** Reading a held frame reads the page it was pinned for. */
  lemma ReadRefines(pool: Pool, st: Store, i: nat)
    requires Refines(pool, st) && i in st.handles
    ensures pool.frames[i] == Reads(st, st.handles[i].page)
  {
    assert FrameAt(pool, st, i);
    assert PageAt(pool, st, st.handles[i].page);
  }

  lemma FlushRefines(pool: Pool, st: Store, i: nat)
    requires Refines(pool, st) && i < |pool.frames|
    ensures Refines(FlushOf(pool, i), st)
    ensures |FlushOf(pool, i).disk| == |pool.disk|
  {
    var next := FlushOf(pool, i);
    assert FrameAt(pool, st, i);
    if pool.descriptors[i].page.Some? { assert TableAt(pool, pool.descriptors[i].page.value); }
    forall j: nat | j < |pool.frames| ensures FrameAt(next, st, j) {
      assert FrameAt(pool, st, j);
    }
    forall q: nat ensures TableAt(next, q) && PageAt(next, st, q) {
      assert TableAt(pool, q) && PageAt(pool, st, q);
    }
  }

  lemma {:induction false} FlushedRefines(pool: Pool, st: Store, k: nat)
    requires Refines(pool, st) && k <= |pool.frames|
    ensures Refines(FlushedTo(pool, k), st)
    ensures |FlushedTo(pool, k).disk| == |pool.disk| && FlushedTo(pool, k).table == pool.table
    ensures forall i :: 0 <= i < k ==> !FlushedTo(pool, k).descriptors[i].dirty
  {
    if k > 0 {
      FlushedRefines(pool, st, k - 1);
      FlushRefines(FlushedTo(pool, k - 1), st, k - 1);
    }
  }

  /** With no write unreported, flushing everything leaves the store on disk. */
  lemma FlushAllOnDisk(pool: Pool, st: Store, p: nat)
    requires Refines(pool, st)
    requires forall i :: i in st.handles ==> !st.handles[i].unreported
    ensures var disk := FlushedTo(pool, |pool.frames|).disk;
      Reads(st, p) == if p < |disk| then disk[p] else pool.blank
  {
    var flushed := FlushedTo(pool, |pool.frames|);
    FlushedRefines(pool, st, |pool.frames|);
    assert PageAt(flushed, st, p) && TableAt(flushed, p);
    if p in flushed.table {
      assert FrameAt(flushed, st, flushed.table[p]);
    }
  }

  // ------------------------------------------------------------ whole runs

  datatype Call =
    | Pin(p: nat)
    | Unpin(i: nat, dirty: bool)
    | Read(i: nat)
    | Write(i: nat, page: Page)
    | Flush(i: nat)
    | FlushAll
    | Evict

  /** What callers owe the pool: to use only frames they hold, and to report their writes. */
  predicate MayCall(st: Store, c: Call, frames: nat) {
    match c
    case Unpin(i, dirty) => MayUnpin(st, i, dirty)
    case Read(i) => i in st.handles
    case Write(i, _) => i in st.handles
    case Flush(i) => i < frames
    case _ => true
  }

  function PoolStep(pool: Pool, c: Call): Pool
    requires Sized(pool)
  {
    match c
    case Pin(p) => PinOf(pool, p)
    case Unpin(i, dirty) => if i < |pool.frames| then UnpinOf(pool, i, dirty) else pool
    case Read(i) => pool
    case Write(i, page) => if i < |pool.frames| then WriteOf(pool, i, page) else pool
    case Flush(i) => if i < |pool.frames| then FlushOf(pool, i) else pool
    case FlushAll => FlushedTo(pool, |pool.frames|)
    case Evict => EvictOf(pool)
  }

  /** The plain store's step; which frame a pin is given is the pool's choice. */
  function StoreStep(st: Store, c: Call, given: Option<nat>): Store {
    match c
    case Pin(p) => if given.Some? then Holding(st, given.value, p) else st
    case Unpin(i, dirty) => if i in st.handles then Unheld(st, i, dirty) else st
    case Write(i, page) => if i in st.handles then WrittenStore(st, i, page) else st
    case _ => st
  }

  function Given(pool: Pool, c: Call): Option<nat>
    requires Sized(pool)
  {
    if c.Pin? then PinAnswer(pool, c.p) else None
  }

  lemma CallRefines(pool: Pool, st: Store, c: Call)
    requires Refines(pool, st) && MayCall(st, c, |pool.frames|)
    ensures Refines(PoolStep(pool, c), StoreStep(st, c, Given(pool, c)))
    ensures |PoolStep(pool, c).frames| == |pool.frames|
  {
    match c
    case Pin(p) => PinRefines(pool, st, p);
    case Unpin(i, dirty) => UnpinRefines(pool, st, i, dirty);
    case Read(i) =>
    case Write(i, page) => WriteRefines(pool, st, i, page);
    case Flush(i) => FlushRefines(pool, st, i);
    case FlushAll => FlushedRefines(pool, st, |pool.frames|);
    case Evict => EvictRefines(pool, st);
  }

  /** What the reads of a run return, from the frames. */
  ghost function PoolAnswers(pool: Pool, calls: seq<Call>): seq<Page>
    decreases |calls|
  {
    if calls == [] || !Sized(pool) then []
    else
      var c := calls[0];
      (if c.Read? && c.i < |pool.frames| then [pool.frames[c.i]] else []) + PoolAnswers(PoolStep(pool, c), calls[1..])
  }

  /** The same from the plain store. */
  ghost function StoreAnswers(pool: Pool, st: Store, calls: seq<Call>): seq<Page>
    decreases |calls|
  {
    if calls == [] || !Sized(pool) then []
    else
      var c := calls[0];
      (if c.Read? && c.i in st.handles then [Reads(st, st.handles[c.i].page)] else [])
      + StoreAnswers(PoolStep(pool, c), StoreStep(st, c, Given(pool, c)), calls[1..])
  }

  ghost predicate MayRun(pool: Pool, st: Store, calls: seq<Call>)
    decreases |calls|
  {
    calls == [] || (&& Sized(pool) && MayCall(st, calls[0], |pool.frames|)
                    && MayRun(PoolStep(pool, calls[0]), StoreStep(st, calls[0], Given(pool, calls[0])), calls[1..]))
  }

  ghost function EndPool(pool: Pool, calls: seq<Call>): Pool
    decreases |calls|
  {
    if calls == [] || !Sized(pool) then pool else EndPool(PoolStep(pool, calls[0]), calls[1..])
  }

  ghost function EndStore(pool: Pool, st: Store, calls: seq<Call>): Store
    decreases |calls|
  {
    if calls == [] || !Sized(pool) then st
    else EndStore(PoolStep(pool, calls[0]), StoreStep(st, calls[0], Given(pool, calls[0])), calls[1..])
  }

  lemma {:induction false} RunRefines(pool: Pool, st: Store, calls: seq<Call>)
    requires Refines(pool, st) && MayRun(pool, st, calls)
    ensures Refines(EndPool(pool, calls), EndStore(pool, st, calls))
    decreases |calls|
  {
    if calls != [] {
      CallRefines(pool, st, calls[0]);
      RunRefines(PoolStep(pool, calls[0]), StoreStep(st, calls[0], Given(pool, calls[0])), calls[1..]);
    }
  }

  /** Every run of callers that keep their side reads what the plain store would give. */
  lemma {:induction false} RunReads(pool: Pool, st: Store, calls: seq<Call>)
    requires Refines(pool, st) && MayRun(pool, st, calls)
    ensures PoolAnswers(pool, calls) == StoreAnswers(pool, st, calls)
    decreases |calls|
  {
    if calls != [] {
      var c := calls[0];
      CallRefines(pool, st, c);
      if c.Read? { ReadRefines(pool, st, c.i); }
      RunReads(PoolStep(pool, c), StoreStep(st, c, Given(pool, c)), calls[1..]);
    }
  }

  /** At the end of every run each held frame still has the page it was pinned for, once per hold. */
  lemma HeldFramesStay(pool: Pool, st: Store, calls: seq<Call>, i: nat)
    requires Refines(pool, st) && MayRun(pool, st, calls) && i in EndStore(pool, st, calls).handles
    ensures var last, hold := EndPool(pool, calls), EndStore(pool, st, calls).handles[i];
      && i < |last.descriptors|
      && last.descriptors[i].page == Some(hold.page) && last.descriptors[i].pins == hold.count
      && hold.page in last.table && last.table[hold.page] == i
  {
    RunRefines(pool, st, calls);
    assert FrameAt(EndPool(pool, calls), EndStore(pool, st, calls), i);
  }
}
