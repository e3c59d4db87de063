/** The session engine as an object: each statement changes it as `SavepointRuns.Step` says. */
module SessionEngine {
  import opened BTreeNodes
  import opened Savepoints
  import opened SavepointRuns
  import opened SessionOutcomes

  /** The answer to a request for a write lock. */
  datatype Grant =
    | Granted
    | Conflict(holder: Xid)
    | Deadlock(xid: Xid, holder: Xid)

  class QueryEngine {
    var tuples: Tuples
    var sessions: map<string, Session>
    var committed: set<Xid>
    var locks: map<Tid, Xid>
    var nextXid: Xid

    /** Which transaction waits for which, as far as the lock table records it. */
    var waitFor: map<Xid, Xid>

    /** What the snapshots of the savepoints have to say, kept beside the engine. */
    ghost var marks: Marks

    function State(): Engine
      reads this
    {
      Engine(tuples, sessions, committed, locks, nextXid)
    }

    ghost predicate Valid()
      reads this
    {
      Tracks(State(), marks) && waitFor == map[]
    }

    /** An engine over a heap left by earlier transactions, none of them open. */
    constructor (heap: Tuples, done: set<Xid>, next: Xid)
      requires Numbered(Engine(heap, map[], done, map[], next))
      ensures State() == Engine(heap, map[], done, map[], next) && marks == map[] && Valid()
    {
      tuples, sessions, committed, locks, nextXid, marks := heap, map[], done, map[], next, map[];
      waitFor := map[];
    }

    /** The one transition all statements share: the model's step, with the snapshots brought along. */
    ghost method Note(before: Engine, op: Op)
      requires Tracks(before, marks) && Legal(before, op) && State() == Step(before, op) && waitFor == map[]
      modifies this`marks
      ensures Valid() && marks == Remember(before, State(), old(marks), op)
    {
      StepTracks(before, marks, op);
      marks := Remember(before, Step(before, op), marks, op);
    }

    method BeginTransaction() returns (xid: Xid)
      modifies this`nextXid
      ensures xid == old(nextXid) && nextXid == old(nextXid) + 1
    {
      xid := nextXid;
      nextXid := nextXid + 1;
    }

    method CloseSession(s: string)
      modifies this`sessions
      ensures State() == Closed(old(State()), s)
    {
      sessions := map k | k in sessions && k != s :: sessions[k];
    }

    /** Commits or aborts: the locks go in either case. */
    method EndTransaction(xid: Xid, commit: bool)
      modifies this`committed, this`locks, this`waitFor
      ensures State() == Finish(old(State()), xid, commit) && waitFor == old(waitFor) - {xid}
    {
      if commit {
        committed := committed + {xid};
      }
      locks := map t | t in locks && locks[t] != xid :: locks[t];
      waitFor := waitFor - {xid};
    }

    method Begin(s: string)
      requires Valid()
      modifies this
      ensures Valid() && State() == Step(old(State()), Op.Begin(s))
      ensures marks == Remember(old(State()), State(), old(marks), Op.Begin(s))
    {
      if s !in sessions {
        var xid := BeginTransaction();
        sessions := sessions[s := Session(xid, [], [])];
      }
      Note(old(State()), Op.Begin(s));
    }

    method EndSession(s: string, commit: bool)
      requires Valid()
      modifies this
      ensures Valid() && State() == EndOf(old(State()), s, commit)
      ensures s in old(sessions) ==> forall id: TupleId :: Public(State(), id) <==>
        if commit then Live(old(State()), old(sessions[s]).xid, id) else Public(old(State()), id)
      ensures marks == map k | k in old(marks) && k != s :: old(marks)[k]
    {
      if s in sessions {
        var xid := sessions[s].xid;
        CloseSession(s);
        EndTransaction(xid, commit);
      }
      Note(old(State()), if commit then Op.Commit(s) else Op.Rollback(s));
      if s in old(sessions) { forall id: TupleId { EndOutcome(old(State()), s, id); } }
    }

    method Savepoint(s: string, name: string)
      requires Valid()
      modifies this
      ensures Valid() && State() == Step(old(State()), Op.Savepoint(s, name))
      ensures marks == Remember(old(State()), State(), old(marks), Op.Savepoint(s, name))
    {
      if s !in sessions {
        var xid := BeginTransaction();
        sessions := sessions[s := Session(xid, [], [])];
      }
      var se := sessions[s];
      sessions := sessions[s := Session(se.xid, se.savepoints + [Frame(name, |se.undoLog|)], se.undoLog)];
      Note(old(State()), Op.Savepoint(s, name));
    }

    /** The last frame of that name, searched from the end. */
    method FindFrame(frames: seq<Frame>, name: string) returns (p: int)
      ensures p == Position(frames, name)
    {
      p := |frames| - 1;
      assert frames[..|frames|] == frames;
      while p >= 0 && frames[p].name != name
        invariant -1 <= p < |frames|
        invariant Position(frames, name) == Position(frames[..p + 1], name)
      {
        assert frames[..p + 1][..p] == frames[..p];
        p := p - 1;
      }
    }

    /** Replays a piece of the log backwards over the tuple headers. */
    method ApplyUndo(xid: Xid, entries: seq<UndoEntry>)
      modifies this`tuples
      ensures tuples == UndoAll(old(tuples), xid, entries)
    {
      var i := |entries|;
      assert entries[..i] == entries;
      while i > 0
        invariant 0 <= i <= |entries|
        invariant UndoAll(old(tuples), xid, entries) == UndoAll(tuples, xid, entries[..i])
      {
        i := i - 1;
        var entry := entries[i];
        assert entries[..i + 1][..i] == entries[..i];
        match entry {
          case Inserted(id) => UndoInsert(xid, id);
          case Deleted(id) => UndoDelete(xid, id);
        }
      }
    }

    method UndoInsert(xid: Xid, id: TupleId)
      modifies this`tuples
      ensures tuples == UndoOne(old(tuples), xid, Inserted(id))
    {
      if id in tuples && tuples[id].xmin == xid {
        tuples := tuples[id := Tuple(tuples[id].xmin, xid, tuples[id].data)];
      }
    }

    method UndoDelete(xid: Xid, id: TupleId)
      modifies this`tuples
      ensures tuples == UndoOne(old(tuples), xid, Deleted(id))
    {
      if id in tuples && tuples[id].xmax == xid {
        tuples := tuples[id := Tuple(tuples[id].xmin, INVALID_XID, tuples[id].data)];
      }
    }

    /** Fails, changing nothing, unless a savepoint of that name survives; else its snapshot is back. */
    method RollbackTo(s: string, name: string) returns (ok: bool)
      requires Valid()
      modifies this
      ensures Valid() && State() == Step(old(State()), Op.RollbackTo(s, name))
      ensures ok <==> s in old(marks) && InnermostMark(old(marks)[s], name) >= 0
      ensures ok ==> marks == old(marks)[s := old(marks)[s][..InnermostMark(old(marks)[s], name) + 1]]
      ensures ok ==> s in sessions
      ensures ok ==> ViewOf(tuples, sessions[s].xid) == old(marks)[s][InnermostMark(old(marks)[s], name)].view
      ensures !ok ==> State() == old(State()) && marks == old(marks)
    {
      if s !in sessions {
        Note(old(State()), Op.RollbackTo(s, name));
        return false;
      }
      var se := sessions[s];
      TrackedPosition(State(), se, marks[s], name);
      var p := FindFrame(se.savepoints, name);
      if p < 0 {
        Note(old(State()), Op.RollbackTo(s, name));
        return false;
      }
      assert FrameAt(se, p) && MarkAt(tuples, se, marks[s], p);
      RestoresMeans(tuples, se.xid, Suffix(se, p), marks[s][p].view);
      var start := se.savepoints[p].start;
      sessions := sessions[s := Session(se.xid, se.savepoints[..p + 1], se.undoLog[..start])];
      ApplyUndo(se.xid, se.undoLog[start..]);
      Note(old(State()), Op.RollbackTo(s, name));
      return true;
    }

    method Release(s: string, name: string) returns (ok: bool)
      requires Valid()
      modifies this
      ensures Valid() && State() == Step(old(State()), Op.Release(s, name))
      ensures ok <==> Known(old(State()), s, name)
      ensures marks == Remember(old(State()), State(), old(marks), Op.Release(s, name))
    {
      ok := false;
      if s in sessions {
        var se := sessions[s];
        var p := FindFrame(se.savepoints, name);
        if p >= 0 {
          sessions := sessions[s := Session(se.xid, se.savepoints[..p] + se.savepoints[p + 1..], se.undoLog)];
          ok := true;
        }
      }
      Note(old(State()), Op.Release(s, name));
    }

    /** The chain of waiters from `a` meets `xid`, or ends, within `n` steps. */
    static ghost predicate Ends(w: map<Xid, Xid>, a: Xid, xid: Xid, n: nat)
      decreases n
    {
      a in w && w[a] != xid ==> n > 0 && Ends(w, w[a], xid, n - 1)
    }

    /** The chain of waiters from `a` leads to `xid` in at most `n + 1` steps. */
    static ghost predicate Leads(w: map<Xid, Xid>, a: Xid, xid: Xid, n: nat)
      decreases n
    {
      a in w && (w[a] == xid || (n > 0 && Leads(w, w[a], xid, n - 1)))
    }

    /** Walks the chain of waiters: does it come back to the transaction that asks? */
    method WaitsFor(holder: Xid, xid: Xid, ghost n: nat) returns (cycle: bool)
      requires Ends(waitFor, holder, xid, n)
      ensures cycle <==> Leads(waitFor, holder, xid, n)
    {
      var current := holder;
      ghost var left := n;
      while current in waitFor
        invariant Ends(waitFor, current, xid, left)
        invariant Leads(waitFor, holder, xid, n) <==> Leads(waitFor, current, xid, left)
        decreases left
      {
        if waitFor[current] == xid {
          return true;
        }
        current, left := waitFor[current], left - 1;
      }
      return false;
    }

    /**
     * Asks for the write lock of a tuple. A lock never changes hands, and whoever is refused is told who holds
     * it. The waiting is recorded only while the chain of waiters is walked, so no chain is ever longer than one
     * step: a deadlock is never reported.
     */
    method AcquireWriteLock(xid: Xid, tid: Tid) returns (r: Grant)
      requires waitFor == map[]
      modifies this`locks, this`waitFor
      ensures waitFor == map[] && !r.Deadlock?
      ensures r.Granted? <==> tid in locks && locks[tid] == xid
      ensures r.Conflict? ==> tid in locks && locks[tid] == r.holder && r.holder != xid
      ensures forall t :: t in old(locks) ==> t in locks && locks[t] == old(locks)[t]
      ensures forall t :: t in locks ==> t in old(locks) || (t == tid && locks[t] == xid)
    {
      if tid !in locks || locks[tid] == xid {
        locks := locks[tid := xid];
        return Granted;
      }
      var holder := locks[tid];
      waitFor := waitFor[xid := holder];
      var cycle := WaitsFor(holder, xid, 0);
      waitFor := waitFor - {xid};
      return if cycle then Deadlock(xid, holder) else Conflict(holder);
    }

    /** One tuple write; a refused one stops the statement. */
    method PerformWrite(xid: Xid, w: Write) returns (ok: bool)
      requires waitFor == map[]
      modifies this`tuples, this`locks, this`waitFor
      ensures waitFor == map[]
      ensures ok <==> !Refused(old(State()), xid, w)
      ensures ok ==> State() == Apply(old(State()), xid, w)
      ensures !ok ==> State() == old(State())
    {
      match w
      case Fail => return false;
      case Put(id, data) =>
        tuples := tuples[id := Tuple(xid, INVALID_XID, data)];
        return true;
      case Drop(id) =>
        if id !in tuples {
          return false;
        }
        var r := AcquireWriteLock(xid, id.tid);
        ok := r.Granted?;
        assert locks == if ok then old(locks)[id.tid := xid] else old(locks);
        if ok {
          tuples := tuples[id := Tuple(tuples[id].xmin, xid, tuples[id].data)];
        }
    }

    /** The writes of a statement in order, up to the first refused one, with what they log. */
    method PerformWrites(xid: Xid, ws: seq<Write>) returns (ok: bool, entries: seq<UndoEntry>)
      requires waitFor == map[]
      modifies this`tuples, this`locks, this`waitFor
      ensures waitFor == map[]
      ensures var r := RunWrites(old(State()), xid, ws);
        ok == r.ok && State() == r.engine && entries == r.entries
    {
      entries := [];
      var i := 0;
      while i < |ws|
        invariant 0 <= i <= |ws|
        invariant sessions == old(sessions) && committed == old(committed) && nextXid == old(nextXid)
        invariant waitFor == map[]
        invariant var r := RunWrites(State(), xid, ws[i..]);
          RunWrites(old(State()), xid, ws) == Outcome(r.ok, r.engine, entries + r.entries)
      {
        ghost var rest := RunWrites(State(), xid, ws[i..]);
        ok := PerformWrite(xid, ws[i]);
        if !ok {
          return false, entries;
        }
        assert ws[i..][1..] == ws[i + 1..];
        ghost var next := RunWrites(State(), xid, ws[i + 1..]);
        assert entries + ([EntryFor(ws[i])] + next.entries) == entries + [EntryFor(ws[i])] + next.entries;
        entries := entries + [EntryFor(ws[i])];
        i := i + 1;
      }
      ok := true;
    }

    /** A statement: inside the session's transaction, or in one of its own that ends with it. */
    method Execute(s: string, ws: seq<Write>) returns (ok: bool)
      requires Valid() && Legal(State(), Dml(s, ws))
      modifies this
      ensures Valid() && State() == Step(old(State()), Dml(s, ws))
      ensures marks == Remember(old(State()), State(), old(marks), Dml(s, ws))
      ensures s in old(sessions) ==> (ok <==> s in sessions)
      ensures s !in old(sessions) ==> forall id: TupleId :: Autocommitted(old(State()), State(), ws, id)
    {
      var entries;
      if s in sessions {
        var se := sessions[s];
        ok, entries := PerformWrites(se.xid, ws);
        if ok {
          sessions := sessions[s := Session(se.xid, se.savepoints, se.undoLog + entries)];
        } else {
          CloseSession(s);
          EndTransaction(se.xid, false);
        }
      } else {
        var xid := BeginTransaction();
        ok, entries := PerformWrites(xid, ws);
        EndTransaction(xid, ok);
        forall id: TupleId { Autocommits(old(State()), old(marks), s, ws, id); }
      }
      Note(old(State()), Dml(s, ws));
    }
  }
}
