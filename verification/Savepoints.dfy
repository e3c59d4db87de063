/**
 * Sessions, savepoints and the flat undo log, over the tuple headers they change.
 *
 * Each SQL statement is one atomic step.  A tuple carries the transaction that
 * made it (`xmin`) and the one that deleted it (`xmax`, 0 for none).
 */
module Savepoints {
  import opened Bytes
  import opened BTreeNodes

  type Xid = nat
  const INVALID_XID: Xid := 0

  datatype TupleId = TupleId(oid: nat, tid: Tid)
  datatype Tuple = Tuple(xmin: Xid, xmax: Xid, data: seq<byte>)
  type Tuples = map<TupleId, Tuple>

  datatype UndoEntry = Inserted(id: TupleId) | Deleted(id: TupleId)
  datatype Frame = Frame(name: string, start: nat)
  datatype Session = Session(xid: Xid, savepoints: seq<Frame>, undoLog: seq<UndoEntry>)

  /** The write locks are keyed by page and slot only, whatever the table. */
  datatype Engine = Engine(
    tuples: Tuples,
    sessions: map<string, Session>,
    committed: set<Xid>,
    locks: map<Tid, Xid>,
    nextXid: Xid)

  // ---------------------------------------------------------------- undoing

  function WithXmax(t: Tuple, xmax: Xid): Tuple {
    Tuple(t.xmin, xmax, t.data)
  }

  /** Undoes one entry: only an own insert, only an own delete. */
  function UndoOne(t: Tuples, xid: Xid, entry: UndoEntry): Tuples {
    if entry.id !in t then t
    else match entry
      case Inserted(id) => if t[id].xmin != xid then t else t[id := WithXmax(t[id], xid)]
      case Deleted(id) => if t[id].xmax != xid then t else t[id := WithXmax(t[id], INVALID_XID)]
  }

  /** Undoes entries from the last to the first. */
  function UndoAll(t: Tuples, xid: Xid, es: seq<UndoEntry>): Tuples
    decreases |es|
  {
    if es == [] then t
    else UndoAll(UndoOne(t, xid, es[|es| - 1]), xid, es[..|es| - 1])
  }

  predicate Own(t: Tuples, xid: Xid, id: TupleId) { id in t && t[id].xmin == xid }
  predicate Dead(t: Tuples, xid: Xid, id: TupleId) { id in t && t[id].xmax == xid }

  /** What a transaction has done so far: its live inserts and its deletes of others' tuples. */
  datatype View = View(added: set<TupleId>, removed: set<TupleId>)

  function ViewOf(t: Tuples, xid: Xid): View {
    View(set id | id in t && Own(t, xid, id) && !Dead(t, xid, id),
         set id | id in t && !Own(t, xid, id) && Dead(t, xid, id))
  }

  /** How a log first mentions a tuple. */
  datatype Mention = Never | AsInsert | AsDelete

  function MentionIn(entry: UndoEntry, id: TupleId): Mention {
    if entry.id != id then Never else if entry.Inserted? then AsInsert else AsDelete
  }

  function First(es: seq<UndoEntry>, id: TupleId): Mention {
    if es == [] then Never
    else if es[0].id == id then MentionIn(es[0], id)
    else First(es[1..], id)
  }

  lemma {:induction false} FirstAppend(es: seq<UndoEntry>, fs: seq<UndoEntry>, id: TupleId)
    ensures First(es + fs, id) == if First(es, id) != Never then First(es, id) else First(fs, id)
  {
    if es == [] {
      assert es + fs == fs;
    } else {
      assert (es + fs)[1..] == es[1..] + fs;
      FirstAppend(es[1..], fs, id);
    }
  }

  lemma FirstSnoc(es: seq<UndoEntry>, id: TupleId)
    requires es != []
    ensures First(es, id) == if First(es[..|es| - 1], id) != Never then First(es[..|es| - 1], id)
                             else MentionIn(es[|es| - 1], id)
  {
    var last := [es[|es| - 1]];
    assert es == es[..|es| - 1] + last;
    FirstAppend(es[..|es| - 1], last, id);
  }

  lemma {:induction false} FirstMentioned(es: seq<UndoEntry>, id: TupleId)
    ensures First(es, id) != Never ==>
      exists i :: 0 <= i < |es| && es[i].id == id && MentionIn(es[i], id) == First(es, id)
  {
    if es != [] && es[0].id != id {
      FirstMentioned(es[1..], id);
      if First(es, id) != Never {
        var i :| 0 <= i < |es[1..]| && es[1..][i].id == id && MentionIn(es[1..][i], id) == First(es[1..], id);
        assert es[i + 1] == es[1..][i];
      }
    }
  }

  /** The status undoing leaves on one tuple, read off the first mention alone. */
  predicate Undone(t: Tuples, u: Tuples, xid: Xid, m: Mention, id: TupleId) {
    && (id in u <==> id in t)
    && (Own(u, xid, id) <==> Own(t, xid, id))
    && match m
       case Never => Dead(u, xid, id) <==> Dead(t, xid, id)
       case AsInsert => Own(t, xid, id) ==> Dead(u, xid, id)
       case AsDelete => !Dead(u, xid, id)
  }

  lemma {:induction false} UndoStatus(t: Tuples, xid: Xid, es: seq<UndoEntry>, id: TupleId)
    requires xid != INVALID_XID
    ensures Undone(t, UndoAll(t, xid, es), xid, First(es, id), id)
    decreases |es|
  {
    if es != [] {
      FirstSnoc(es, id);
      UndoStatus(UndoOne(t, xid, es[|es| - 1]), xid, es[..|es| - 1], id);
    }
  }

  // ----------------------------------------- what a piece of log brings back

  /** Undoing `es` from `t` brings tuple `id` back to its status in `v`. */
  predicate RestoresAt(t: Tuples, xid: Xid, m: Mention, v: View, id: TupleId) {
    match m
    case Never => && (id in v.added <==> Own(t, xid, id) && !Dead(t, xid, id))
                  && (id in v.removed <==> !Own(t, xid, id) && Dead(t, xid, id))
    case AsInsert => Own(t, xid, id) && id !in v.added && id !in v.removed
    case AsDelete => id in t && (id in v.added <==> Own(t, xid, id)) && id !in v.removed
  }

  ghost predicate Restores(t: Tuples, xid: Xid, es: seq<UndoEntry>, v: View) {
    forall id: TupleId {:trigger First(es, id)} :: RestoresAt(t, xid, First(es, id), v, id)
  }

  /** The meaning of `Restores`. */
  lemma RestoresMeans(t: Tuples, xid: Xid, es: seq<UndoEntry>, v: View)
    requires xid != INVALID_XID && Restores(t, xid, es, v)
    ensures ViewOf(UndoAll(t, xid, es), xid) == v
  {
    var u := UndoAll(t, xid, es);
    forall id ensures id in ViewOf(u, xid).added <==> id in v.added
              ensures id in ViewOf(u, xid).removed <==> id in v.removed {
      UndoStatus(t, xid, es, id);
      assert RestoresAt(t, xid, First(es, id), v, id);
    }
    assert ViewOf(u, xid).added == v.added;
    assert ViewOf(u, xid).removed == v.removed;
  }

  lemma RestoresNow(t: Tuples, xid: Xid)
    ensures Restores(t, xid, [], ViewOf(t, xid))
  {
  }

  /** Undoing the end of a log leaves a state from which the rest still restores. */
  lemma RestoresSplit(t: Tuples, xid: Xid, es: seq<UndoEntry>, fs: seq<UndoEntry>, v: View)
    requires xid != INVALID_XID && Restores(t, xid, es + fs, v)
    ensures Restores(UndoAll(t, xid, fs), xid, es, v)
  {
    var u := UndoAll(t, xid, fs);
    forall id: TupleId ensures RestoresAt(u, xid, First(es, id), v, id) {
      FirstAppend(es, fs, id);
      UndoStatus(t, xid, fs, id);
      assert RestoresAt(t, xid, First(es + fs, id), v, id);
    }
  }

  /** Nothing that concerns `xid` changes at `id`. */
  predicate SameFor(t: Tuples, u: Tuples, xid: Xid, id: TupleId) {
    && (id in t ==> id in u)
    && (Own(t, xid, id) <==> Own(u, xid, id))
    && (Dead(t, xid, id) <==> Dead(u, xid, id))
  }

  lemma RestoresSame(t: Tuples, u: Tuples, xid: Xid, es: seq<UndoEntry>, v: View)
    requires Restores(t, xid, es, v)
    requires forall id: TupleId {:trigger SameFor(t, u, xid, id)} :: SameFor(t, u, xid, id)
    ensures Restores(u, xid, es, v)
  {
    forall id: TupleId ensures RestoresAt(u, xid, First(es, id), v, id) {
      assert RestoresAt(t, xid, First(es, id), v, id) && SameFor(t, u, xid, id);
    }
  }

  // ------------------------------------------------------------ one write

  /** One tuple write of a statement; `Fail` is an error raised by the executor. */
  datatype Write = Put(id: TupleId, data: seq<byte>) | Drop(id: TupleId) | Fail

  /** The tuples a transaction sees: made by itself or committed, not deleted by itself or committed. */
  predicate Live(e: Engine, xid: Xid, id: TupleId) {
    && id in e.tuples
    && (e.tuples[id].xmin == xid || e.tuples[id].xmin in e.committed)
    && e.tuples[id].xmax != xid && e.tuples[id].xmax !in e.committed
  }

  /** A delete is refused when another transaction holds the lock, or the tuple is gone. */
  predicate Refused(e: Engine, xid: Xid, w: Write) {
    match w
    case Put(_, _) => false
    case Drop(id) => (id.tid in e.locks && e.locks[id.tid] != xid) || id !in e.tuples
    case Fail => true
  }

  function Apply(e: Engine, xid: Xid, w: Write): Engine
    requires !Refused(e, xid, w)
  {
    match w
    case Put(id, data) => e.(tuples := e.tuples[id := Tuple(xid, INVALID_XID, data)])
    case Drop(id) => e.(tuples := e.tuples[id := WithXmax(e.tuples[id], xid)],
                        locks := e.locks[id.tid := xid])
  }

  function EntryFor(w: Write): UndoEntry
    requires !w.Fail?
  {
    if w.Put? then Inserted(w.id) else Deleted(w.id)
  }

  /**
   * The executor's discipline: an insert takes a free slot; a delete targets a
   * tuple some scan of the statement saw, so one that is live or that the
   * statement itself has already written.
   */
  predicate Allowed(e: Engine, xid: Xid, done: seq<UndoEntry>, w: Write) {
    match w
    case Put(id, _) => id !in e.tuples
    case Drop(id) => Live(e, xid, id) || First(done, id) != Never
    case Fail => true
  }

  /** A write appended to a log keeps what the log restores. */
  lemma RestoresWrite(e: Engine, xid: Xid, es: seq<UndoEntry>, done: seq<UndoEntry>, w: Write, v: View)
    requires xid != INVALID_XID
    requires !Refused(e, xid, w) && Allowed(e, xid, done, w)
    requires forall id: TupleId {:trigger First(es, id)} :: First(done, id) != Never ==> First(es, id) != Never
    requires Restores(e.tuples, xid, es, v)
    ensures Restores(Apply(e, xid, w).tuples, xid, es + [EntryFor(w)], v)
  {
    var u := Apply(e, xid, w).tuples;
    forall id: TupleId ensures RestoresAt(u, xid, First(es + [EntryFor(w)], id), v, id) {
      FirstAppend(es, [EntryFor(w)], id);
      assert RestoresAt(e.tuples, xid, First(es, id), v, id);
    }
  }

  // ------------------------------------------------- a running transaction

  /** A running transaction's marks on a tuple: own ones are untouched by others, deletes hold the lock. */
  predicate Held(e: Engine, xid: Xid, id: TupleId) {
    id in e.tuples ==>
      && (e.tuples[id].xmin == xid ==> e.tuples[id].xmax == INVALID_XID || e.tuples[id].xmax == xid)
      && (e.tuples[id].xmax == xid && e.tuples[id].xmin != xid ==>
            e.tuples[id].xmin in e.committed && id.tid in e.locks && e.locks[id.tid] == xid)
  }

  predicate EntryOk(e: Engine, xid: Xid, entry: UndoEntry) {
    && entry.id in e.tuples
    && e.tuples[entry.id].xmax !in e.committed
    && (e.tuples[entry.id].xmin == xid
        || (entry.Deleted? && e.tuples[entry.id].xmin in e.committed
            && entry.id.tid in e.locks && e.locks[entry.id.tid] == xid))
  }

  ghost predicate Running(e: Engine, xid: Xid, log: seq<UndoEntry>) {
    && INVALID_XID < xid < e.nextXid
    && INVALID_XID !in e.committed
    && xid !in e.committed
    && (forall id: TupleId {:trigger Held(e, xid, id)} :: Held(e, xid, id))
    && (forall i: nat {:trigger log[i]} :: i < |log| ==> EntryOk(e, xid, log[i]))
  }

  lemma MentionOk(e: Engine, xid: Xid, log: seq<UndoEntry>, id: TupleId)
    requires Running(e, xid, log) && First(log, id) != Never
    ensures id in e.tuples && e.tuples[id].xmax !in e.committed
    ensures e.tuples[id].xmin == xid || e.tuples[id].xmin in e.committed
  {
    FirstMentioned(log, id);
  }

  /** One step of transaction `xid` at tuple `id`, seen from the others. */
  predicate StepAt(e: Engine, f: Engine, xid: Xid, id: TupleId) {
    if id in e.tuples then
      && id in f.tuples
      && f.tuples[id].xmin == e.tuples[id].xmin
      && f.tuples[id].data == e.tuples[id].data
      && (f.tuples[id].xmax == e.tuples[id].xmax
          || (&& (f.tuples[id].xmax == xid || f.tuples[id].xmax == INVALID_XID)
              && e.tuples[id].xmax !in e.committed
              && (e.tuples[id].xmin == xid
                  || (e.tuples[id].xmin in e.committed && id.tid in f.locks && f.locks[id.tid] == xid))))
    else
      id in f.tuples ==> f.tuples[id].xmin == xid && f.tuples[id].xmax == INVALID_XID
  }

  /** Locks of others are left alone, own locks are kept. */
  predicate LockStep(e: Engine, f: Engine, xid: Xid, tid: Tid) {
    && (tid in e.locks ==> tid in f.locks && f.locks[tid] == e.locks[tid])
    && (tid in f.locks && tid !in e.locks ==> f.locks[tid] == xid)
  }

  ghost predicate OwnStep(e: Engine, f: Engine, xid: Xid) {
    && f.committed == e.committed && f.nextXid == e.nextXid && f.sessions == e.sessions
    && (forall id: TupleId {:trigger StepAt(e, f, xid, id)} :: StepAt(e, f, xid, id))
    && (forall tid: Tid {:trigger LockStep(e, f, xid, tid)} :: LockStep(e, f, xid, tid))
  }

  lemma WriteIsOwnStep(e: Engine, xid: Xid, log: seq<UndoEntry>, done: seq<UndoEntry>, w: Write)
    requires Running(e, xid, log)
    requires forall id: TupleId {:trigger First(log, id)} :: First(done, id) != Never ==> First(log, id) != Never
    requires !Refused(e, xid, w) && Allowed(e, xid, done, w)
    ensures OwnStep(e, Apply(e, xid, w), xid)
  {
    var f := Apply(e, xid, w);
    if w.Drop? && First(log, w.id) != Never {
      MentionOk(e, xid, log, w.id);
    }
    forall id: TupleId ensures StepAt(e, f, xid, id) {
    }
  }

  lemma UndoIsOwnStep(e: Engine, xid: Xid, log: seq<UndoEntry>, entry: UndoEntry)
    requires Running(e, xid, log)
    ensures OwnStep(e, e.(tuples := UndoOne(e.tuples, xid, entry)), xid)
  {
    var f := e.(tuples := UndoOne(e.tuples, xid, entry));
    forall id: TupleId ensures StepAt(e, f, xid, id) {
      assert Held(e, xid, id);
    }
  }

  /** The other running transaction `y` does not notice. */
  lemma OthersSame(e: Engine, f: Engine, xid: Xid, log: seq<UndoEntry>, y: Xid, ylog: seq<UndoEntry>)
    requires Running(e, xid, log) && Running(e, y, ylog) && y != xid && OwnStep(e, f, xid)
    ensures forall id: TupleId {:trigger SameFor(e.tuples, f.tuples, y, id)} :: SameFor(e.tuples, f.tuples, y, id)
    ensures forall id: TupleId {:trigger Held(f, y, id)} :: Held(f, y, id)
  {
    forall id: TupleId ensures SameFor(e.tuples, f.tuples, y, id) && Held(f, y, id) {
      assert StepAt(e, f, xid, id) && Held(e, y, id);
      assert LockStep(e, f, xid, id.tid);
    }
  }

  lemma OwnHeld(e: Engine, f: Engine, xid: Xid, log: seq<UndoEntry>)
    requires Running(e, xid, log) && OwnStep(e, f, xid)
    ensures forall id: TupleId {:trigger Held(f, xid, id)} :: Held(f, xid, id)
  {
    forall id: TupleId ensures Held(f, xid, id) {
      assert StepAt(e, f, xid, id) && Held(e, xid, id);
      assert LockStep(e, f, xid, id.tid);
    }
  }

  lemma EntryKept(e: Engine, f: Engine, xid: Xid, log: seq<UndoEntry>, y: Xid, entry: UndoEntry)
    requires Running(e, xid, log) && OwnStep(e, f, xid)
    requires EntryOk(e, y, entry)
    ensures EntryOk(f, y, entry)
  {
    assert StepAt(e, f, xid, entry.id);
    assert LockStep(e, f, xid, entry.id.tid);
  }

  lemma RunningKept(e: Engine, f: Engine, xid: Xid, log: seq<UndoEntry>, y: Xid, ylog: seq<UndoEntry>)
    requires Running(e, xid, log) && Running(e, y, ylog) && OwnStep(e, f, xid)
    ensures Running(f, y, ylog)
  {
    if y == xid {
      OwnHeld(e, f, xid, log);
    } else {
      OthersSame(e, f, xid, log, y, ylog);
    }
    forall i: nat | i < |ylog| ensures EntryOk(f, y, ylog[i]) {
      EntryKept(e, f, xid, log, y, ylog[i]);
    }
  }

  lemma WriteRunning(e: Engine, xid: Xid, log: seq<UndoEntry>, done: seq<UndoEntry>, w: Write)
    requires Running(e, xid, log)
    requires forall id: TupleId {:trigger First(log, id)} :: First(done, id) != Never ==> First(log, id) != Never
    requires !Refused(e, xid, w) && Allowed(e, xid, done, w)
    ensures Running(Apply(e, xid, w), xid, log + [EntryFor(w)])
  {
    var f := Apply(e, xid, w);
    WriteIsOwnStep(e, xid, log, done, w);
    RunningKept(e, f, xid, log, xid, log);
    if w.Drop? && First(log, w.id) != Never {
      MentionOk(e, xid, log, w.id);
    }
    assert EntryOk(f, xid, EntryFor(w));
  }

  // ---------------------------------------- what others see: committed data

  /** A tuple every later transaction would see. */
  predicate Public(e: Engine, id: TupleId) {
    id in e.tuples && e.tuples[id].xmin in e.committed && e.tuples[id].xmax !in e.committed
  }

  /** A transaction sees the public tuples it has not removed, and those it has added. */
  lemma LiveByView(e: Engine, xid: Xid, log: seq<UndoEntry>, id: TupleId)
    requires Running(e, xid, log)
    ensures Live(e, xid, id) <==>
      (id in ViewOf(e.tuples, xid).added || (Public(e, id) && id !in ViewOf(e.tuples, xid).removed))
  {
    assert Held(e, xid, id);
  }

  /** A running transaction's step leaves the public tuples and their data alone. */
  lemma PublicKept(e: Engine, f: Engine, xid: Xid, log: seq<UndoEntry>, id: TupleId)
    requires Running(e, xid, log) && OwnStep(e, f, xid)
    ensures Public(f, id) <==> Public(e, id)
    ensures id in e.tuples ==> id in f.tuples && f.tuples[id].data == e.tuples[id].data
  {
    assert StepAt(e, f, xid, id);
  }
}
