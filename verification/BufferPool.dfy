/** The buffer pool as an object, and its whole runs against the plain page store. */
module Buffer {
  import opened Wrappers
  import opened ClockSweep
  import opened PoolStates

  class BufferPool {
    var frames: seq<Page>
    var descriptors: seq<Descriptor>
    var clock: nat
    var table: map<nat, nat>
    var disk: seq<Page>
    const blank: Page

    /** The plain store the pool stands for. */
    ghost var store: Store

    function State(): Pool
      reads this
    {
      Pool(frames, descriptors, clock, table, disk, blank)
    }

    ghost predicate Valid()
      reads this
    {
      Refines(State(), store)
    }

    /** An empty pool over a heap file: the store is what the file holds, nobody holds a page. */
    constructor (heap: seq<Page>, count: nat, newPage: Page)
      requires count > 0
      ensures Valid() && disk == heap && store.handles == map[] && blank == newPage
      ensures |frames| == if count <= 131_072 then count else 131_072
      ensures forall p: nat :: Reads(store, p) == if p < |heap| then heap[p] else newPage
    {
      var n := if count <= MAX_BUFFER_FRAMES then count else MAX_BUFFER_FRAMES;
      frames := seq(n, i => newPage);
      descriptors := seq(n, i => Descriptor(None, false, 0, 0));
      clock, table, disk, blank := 0, map[], heap, newPage;
      store := Store(map p | 0 <= p < |heap| :: heap[p], map[], newPage);
    }

    /** Two rounds of the clock; the first frame found unpinned and unused is freed. */
    method EvictFrame() returns (victim: Option<nat>)
      requires Sized(State())
      modifies this`descriptors, this`clock, this`table, this`disk
      ensures victim == VictimOf(old(State())) && State() == EvictOf(old(State()))
      ensures victim.Some? <==> exists i: nat :: Takes(old(descriptors), old(clock), 2 * |old(descriptors)|, i)
      ensures old(Valid()) ==> Valid()
    {
      SweepTakes(descriptors, clock, 2 * |frames|);
      if Valid() { EvictRefines(State(), store); }
      var n := |frames|;
      ghost var goal := Sweep(descriptors, clock, 2 * n);
      var k := 2 * n;
      while k > 0
        invariant 0 <= k && |descriptors| == n && frames == old(frames)
        invariant table == old(table) && disk == old(disk)
        invariant Sweep(descriptors, clock, k) == goal
      {
        var hand := clock % n;
        clock := Next(clock);
        k := k - 1;
        var d := descriptors[hand];
        if d.pins > 0 {
          continue;
        }
        if d.usage > 0 {
          descriptors := descriptors[hand := Descriptor(d.page, d.dirty, d.pins, d.usage - 1)];
          continue;
        }
        Free(hand);
        return Some(hand);
      }
      return None;
    }

    method Free(i: nat)
      requires i < |frames| == |descriptors|
      modifies this`descriptors, this`table, this`disk
      ensures State() == Freed(old(State()), i)
    {
      var d := descriptors[i];
      if d.dirty {
        WriteBack(i);
      }
      if d.page.Some? {
        table := map p | p in table && p != d.page.value :: table[p];
      }
      descriptors := descriptors[i := Descriptor(None, false, d.pins, d.usage)];
    }

    method WriteBack(i: nat)
      requires i < |frames| == |descriptors|
      modifies this`disk
      ensures disk == if descriptors[i].page.Some? && descriptors[i].page.value < |old(disk)|
        then old(disk)[descriptors[i].page.value := frames[i]] else old(disk)
    {
      var d := descriptors[i];
      if d.page.Some? && d.page.value < |disk| {
        disk := disk[d.page.value := frames[i]];
      }
    }

    /** Grows the heap file page by page until it has page `p`. */
    method Allocate(p: nat)
      modifies this`disk
      ensures disk == Grown(old(disk), p, blank)
    {
      while |disk| <= p
        invariant |old(disk)| <= |disk|
        invariant |disk| <= p + 1 || disk == old(disk)
        invariant forall q :: 0 <= q < |disk| ==> disk[q] == if q < |old(disk)| then old(disk)[q] else blank
      {
        disk := disk + [blank];
      }
    }

    /** Pins page `p`: afterwards frame `r.value` is held for it, and no other hold has changed. */
    method PinPage(p: nat) returns (r: Option<nat>)
      requires Valid()
      modifies this
      ensures Valid() && r == PinAnswer(old(State()), p) && State() == PinOf(old(State()), p)
      ensures r.Some? <==>
        p in old(table) || exists i: nat :: Takes(old(descriptors), old(clock), 2 * |old(descriptors)|, i)
      ensures r.None? ==> store == old(store)
      ensures r.Some? ==> r.value < |frames| && store == Holding(old(store), r.value, p)
      ensures r.Some? && r.value in old(store.handles) ==> old(store.handles)[r.value].page == p
    {
      PinRefines(State(), store, p);
      PinAnsweredExact(State(), store, p);
      if p in table && descriptors[HomeOf(p)].page == Some(p) {
        var i := table[p];
        var d := descriptors[i];
        descriptors := descriptors[i := Descriptor(d.page, d.dirty, d.pins + 1, Saturated(d.usage))];
        store := Holding(store, i, p);
        return Some(i);
      }
      r := EvictFrame();
      if r.Some? {
        Allocate(p);
        frames := frames[r.value := disk[p]];
        descriptors := descriptors[r.value := Descriptor(Some(p), false, 1, 1)];
        table := table[p := r.value];
        store := Holding(store, r.value, p);
      }
    }

    function HomeOf(p: nat): (i: nat)
      requires Valid() && p in table
      reads this
      ensures i < |descriptors| && i == table[p]
    {
      assert TableAt(State(), p);
      table[p]
    }

    method UnpinPage(i: nat, dirty: bool)
      requires Valid() && MayUnpin(store, i, dirty)
      modifies this
      ensures Valid() && State() == UnpinOf(old(State()), i, dirty) && store == Unheld(old(store), i, dirty)
    {
      UnpinRefines(State(), store, i, dirty);
      var d := descriptors[i];
      if d.pins > 0 {
        d := Descriptor(d.page, d.dirty, d.pins - 1, d.usage);
      }
      if dirty {
        d := Descriptor(d.page, true, d.pins, d.usage);
      }
      descriptors := descriptors[i := d];
      store := Unheld(store, i, dirty);
    }

    method FlushFrame(i: nat)
      requires i < |frames| == |descriptors|
      modifies this`descriptors, this`disk
      ensures State() == FlushOf(old(State()), i)
      ensures !descriptors[i].dirty
    {
      var d := descriptors[i];
      if d.dirty {
        WriteBack(i);
        descriptors := descriptors[i := Descriptor(d.page, false, d.pins, d.usage)];
      }
    }

    /** Afterwards the disk is the store, unless a caller still owes the report of a write. */
    method FlushAllDirty()
      requires Valid()
      modifies this`descriptors, this`disk
      ensures Valid() && State() == FlushedTo(old(State()), |frames|)
      ensures (forall i :: i in store.handles ==> !store.handles[i].unreported) ==>
        forall p: nat :: Reads(store, p) == if p < |disk| then disk[p] else blank
    {
      var i := 0;
      while i < |frames|
        invariant 0 <= i <= |frames| == |descriptors|
        invariant State() == FlushedTo(old(State()), i)
      {
        FlushFrame(i);
        i := i + 1;
      }
      FlushedRefines(old(State()), store, i);
      if forall j :: j in store.handles ==> !store.handles[j].unreported {
        forall p: nat ensures Reads(store, p) == if p < |disk| then disk[p] else blank {
          FlushAllOnDisk(old(State()), store, p);
        }
      }
    }

    /** What a holder reads is the page of the plain store. */
    method ReadFrame(i: nat) returns (page: Page)
      requires Valid() && i in store.handles
      ensures page == Reads(store, store.handles[i].page)
    {
      ReadRefines(State(), store, i);
      page := frames[i];
    }

    /** What a holder writes goes to the page it pinned. */
    method WriteFrame(i: nat, page: Page)
      requires Valid() && i in store.handles
      modifies this
      ensures Valid() && State() == WriteOf(old(State()), i, page) && store == WrittenStore(old(store), i, page)
    {
      WriteRefines(State(), store, i, page);
      frames := frames[i := page];
      store := WrittenStore(store, i, page);
    }
  }
}
