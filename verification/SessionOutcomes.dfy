/** What statements, COMMIT and ROLLBACK do to the tuples a transaction and everyone else can see. */
module SessionOutcomes {
  import opened Bytes
  import opened BTreeNodes
  import opened Savepoints
  import opened SavepointRuns

  // ------------------------------------------------------------ the writes

  /** The last write that a statement makes at a tuple. */
  datatype Last = Untouched | Stored(data: seq<byte>) | Dropped

  function LastWrite(ws: seq<Write>, id: TupleId): Last {
    if ws == [] then Untouched
    else
      var w := ws[|ws| - 1];
      if w.Put? && w.id == id then Stored(w.data)
      else if w.Drop? && w.id == id then Dropped
      else LastWrite(ws[..|ws| - 1], id)
  }

  /** What a tuple is to the transaction after its last write. */
  predicate Shows(e: Engine, f: Engine, xid: Xid, id: TupleId, last: Last) {
    match last
    case Untouched => (id in f.tuples <==> id in e.tuples) && (id in e.tuples ==> f.tuples[id] == e.tuples[id])
    case Stored(data) => Live(f, xid, id) && f.tuples[id].data == data
    case Dropped => !Live(f, xid, id)
  }

  lemma {:induction false} LastWriteFirst(w: Write, ws: seq<Write>, id: TupleId)
    ensures LastWrite([w] + ws, id)
         == if LastWrite(ws, id).Untouched? then LastWrite([w], id) else LastWrite(ws, id)
    decreases |ws|
  {
    if ws == [] {
      assert [w] + ws == [w];
    } else {
      var n := |ws| - 1;
      LastWriteFirst(w, ws[..n], id);
      assert ([w] + ws)[..n + 1] == [w] + ws[..n] && ([w] + ws)[n + 1] == ws[n];
    }
  }

  /** A statement that ends well: each tuple is as its last write left it, the others are as they were. */
  lemma {:induction false} WritesShow(e: Engine, xid: Xid, ws: seq<Write>, id: TupleId)
    requires xid != INVALID_XID && INVALID_XID !in e.committed && RunWrites(e, xid, ws).ok
    ensures RunWrites(e, xid, ws).engine.committed == e.committed
    ensures Shows(e, RunWrites(e, xid, ws).engine, xid, id, LastWrite(ws, id))
    decreases |ws|
  {
    if ws != [] {
      var f := Apply(e, xid, ws[0]);
      WritesShow(f, xid, ws[1..], id);
      assert ws == [ws[0]] + ws[1..];
      LastWriteFirst(ws[0], ws[1..], id);
      assert [ws[0]][..0] == [];
    }
  }

  /** A tuple that one of the writes makes. */
  predicate Makes(ws: seq<Write>, id: TupleId) { exists i :: 0 <= i < |ws| && ws[i].Put? && ws[i].id == id }

  /** Write `i` is not refused: no error, and for a delete a tuple that is there and that nobody else has locked. */
  predicate Accepted(e: Engine, xid: Xid, ws: seq<Write>, i: nat)
    requires i < |ws|
  {
    match ws[i]
    case Put(_, _) => true
    case Drop(id) =>
      && (id in e.tuples || Makes(ws[..i], id))
      && !(id.tid in e.locks && e.locks[id.tid] != xid)
    case Fail => false
  }

  /** A statement ends well exactly when each of its writes is accepted. */
  lemma {:induction false} SucceedsExact(e: Engine, xid: Xid, ws: seq<Write>)
    ensures RunWrites(e, xid, ws).ok <==> forall i :: 0 <= i < |ws| ==> Accepted(e, xid, ws, i)
    decreases |ws|
  {
    if ws != [] {
      if Refused(e, xid, ws[0]) {
        assert ws[..0] == [];
        assert !Accepted(e, xid, ws, 0);
      } else {
        var f := Apply(e, xid, ws[0]);
        SucceedsExact(f, xid, ws[1..]);
        forall i | 0 < i < |ws| ensures Accepted(e, xid, ws, i) <==> Accepted(f, xid, ws[1..], i - 1) {
          AcceptedLater(e, xid, ws, i);
        }
        assert ws[..0] == [] && Accepted(e, xid, ws, 0);
        if forall i :: 0 <= i < |ws| ==> Accepted(e, xid, ws, i) {
          forall i | 0 <= i < |ws[1..]| ensures Accepted(f, xid, ws[1..], i) { assert Accepted(e, xid, ws, i + 1); }
        }
      }
    }
  }

  lemma AcceptedLater(e: Engine, xid: Xid, ws: seq<Write>, i: nat)
    requires 0 < i < |ws| && !Refused(e, xid, ws[0])
    ensures Accepted(e, xid, ws, i) <==> Accepted(Apply(e, xid, ws[0]), xid, ws[1..], i - 1)
  {
    if ws[i].Drop? {
      var id := ws[i].id;
      MakesFirst(ws[..i], id);
      assert ws[..i][1..] == ws[1..][..i - 1];
    }
  }

  lemma MakesFirst(ws: seq<Write>, id: TupleId)
    requires ws != []
    ensures Makes(ws, id) <==> (ws[0].Put? && ws[0].id == id) || Makes(ws[1..], id)
  {
    if Makes(ws[1..], id) {
      var i :| 0 <= i < |ws[1..]| && ws[1..][i].Put? && ws[1..][i].id == id;
      assert ws[i + 1].Put? && ws[i + 1].id == id;
    }
    if Makes(ws, id) && !(ws[0].Put? && ws[0].id == id) {
      var i :| 0 <= i < |ws| && ws[i].Put? && ws[i].id == id;
      assert ws[1..][i - 1].Put? && ws[1..][i - 1].id == id;
    }
  }

  /** Ending well or not, the writes of a running transaction leave alone what everyone else can see. */
  lemma {:induction false} WritesPublic(e: Engine, xid: Xid, log: seq<UndoEntry>, done: seq<UndoEntry>, ws: seq<Write>,
                                        id: TupleId)
    requires Running(e, xid, log) && LegalWrites(e, xid, done, ws) && |done| <= |log| && log[|log| - |done|..] == done
    ensures Public(RunWrites(e, xid, ws).engine, id) <==> Public(e, id)
    ensures RunWrites(e, xid, ws).engine.committed == e.committed
    decreases |ws|
  {
    if ws != [] && !Refused(e, xid, ws[0]) {
      var f := Apply(e, xid, ws[0]);
      var next, now := log + [EntryFor(ws[0])], done + [EntryFor(ws[0])];
      SinceMentions(log, done, 0);
      assert log[0..] == log;
      WriteIsOwnStep(e, xid, log, done, ws[0]);
      PublicKept(e, f, xid, log, id);
      WriteRunning(e, xid, log, done, ws[0]);
      assert next[|next| - |now|..] == log[|log| - |done|..] + [EntryFor(ws[0])];
      WritesPublic(f, xid, next, now, ws[1..], id);
    }
  }

  // ------------------------------------------------------------- the ends

  /** Nobody waits for the transaction any more; the locks of others stand. */
  ghost predicate Released(f: Engine, g: Engine, xid: Xid) {
    forall t: Tid {:trigger t in g.locks} {:trigger t in f.locks} ::
      && (t in g.locks <==> t in f.locks && f.locks[t] != xid)
      && (t in g.locks ==> g.locks[t] == f.locks[t])
  }

  /** The session is gone, the others are as they were. */
  ghost predicate Gone(f: Engine, g: Engine, s: string) {
    g.sessions == map k | k in f.sessions && k != s :: f.sessions[k]
  }

  /**
   * COMMIT makes public exactly what the transaction saw, and ROLLBACK leaves public what was; either ends the
   * session and releases its locks, and no tuple is touched.
   */
  lemma EndOutcome(f: Engine, s: string, id: TupleId)
    requires s in f.sessions
    ensures var xid, g, h := f.sessions[s].xid, Step(f, Commit(s)), Step(f, Rollback(s));
      && (Public(g, id) <==> Live(f, xid, id)) && (Public(h, id) <==> Public(f, id))
      && g.tuples == h.tuples == f.tuples
      && Gone(f, g, s) && Gone(f, h, s) && Released(f, g, xid) && Released(f, h, xid)
  {
  }

  /** Without a session COMMIT and ROLLBACK do nothing. */
  lemma NothingToEnd(e: Engine, s: string)
    requires s !in e.sessions
    ensures Step(e, Commit(s)) == e && Step(e, Rollback(s)) == e
  {
  }

  /** A transaction begins with what is public, under a number that nobody has. */
  lemma BeginOutcome(e: Engine, m: Marks, s: string, id: TupleId)
    requires Tracks(e, m) && s !in e.sessions
    ensures var g := Step(e, Begin(s));
      && s in g.sessions && g.sessions[s].xid !in g.committed && (Live(g, g.sessions[s].xid, id) <==> Public(e, id))
      && (forall r :: r in e.sessions ==> r in g.sessions && g.sessions[r] == e.sessions[r])
      && (forall r :: r in e.sessions ==> e.sessions[r].xid != g.sessions[s].xid)
      && g.sessions[s] == Session(e.nextXid, [], []) && g.nextXid == e.nextXid + 1
  {
    NumberedTuple(e, id);
    forall r: string | r in e.sessions ensures e.sessions[r].xid < e.nextXid {
      SessionRuns(e, e.sessions[r], m[r]);
    }
  }

  // ----------------------------------------------------------- statements

  /**
   * In every run a statement of an open session either ends well, and its transaction sees each tuple as its
   * last write left it and all others as before, or ends the transaction as ROLLBACK does. Nobody else sees
   * anything of it.
   */
  lemma StatementInRun(e: Engine, ops: seq<Op>, s: string, ws: seq<Write>, id: TupleId)
    requires Numbered(e) && e.sessions == map[] && LegalRun(e, ops) && s in Run(e, ops).sessions
    requires Legal(Run(e, ops), Dml(s, ws))
    ensures var f, g := Run(e, ops), Step(Run(e, ops), Dml(s, ws));
      var xid := f.sessions[s].xid;
      && (s in g.sessions <==> forall i :: 0 <= i < |ws| ==> Accepted(f, xid, ws, i))
      && (Public(g, id) <==> Public(f, id))
      && (s in g.sessions ==> g.sessions[s].xid == xid && Shows(f, g, xid, id, LastWrite(ws, id)))
      && (s !in g.sessions ==> Gone(f, g, s) && forall t: Tid :: t in g.locks ==> g.locks[t] != xid)
  {
    RunTracks(e, map[], ops);
    var f, g := Run(e, ops), Step(Run(e, ops), Dml(s, ws));
    var se := f.sessions[s];
    assert Tracked(f, se, Recall(e, map[], ops)[s]);
    hide Run, Recall, LegalRun, Numbered, Tracked;
    SucceedsExact(f, se.xid, ws);
    SessionRuns(f, se, Recall(e, map[], ops)[s]);
    assert se.undoLog[|se.undoLog|..] == [];
    WritesPublic(f, se.xid, se.undoLog, [], ws, id);
    if RunWrites(f, se.xid, ws).ok { WritesShow(f, se.xid, ws, id); }
  }

  lemma SessionRuns(e: Engine, se: Session, ms: seq<Mark>)
    requires Tracked(e, se, ms)
    ensures Running(e, se.xid, se.undoLog)
  {
  }

  /** What a tuple is to everyone after a statement on its own. */
  predicate Published(f: Engine, g: Engine, id: TupleId, last: Last) {
    match last
    case Untouched => Public(g, id) <==> Public(f, id)
    case Stored(data) => Public(g, id) && g.tuples[id].data == data
    case Dropped => !Public(g, id)
  }

  /**
   * In every run a statement without a session is a transaction of its own: if all its writes are accepted
   * everyone sees each tuple as its last write left it and all others as before, otherwise nothing of it; its
   * locks are released and the sessions are as they were.
   */
  lemma AutocommitInRun(e: Engine, ops: seq<Op>, s: string, ws: seq<Write>, id: TupleId)
    requires Numbered(e) && e.sessions == map[] && LegalRun(e, ops) && s !in Run(e, ops).sessions
    requires Legal(Run(e, ops), Dml(s, ws))
    ensures Autocommitted(Run(e, ops), Step(Run(e, ops), Dml(s, ws)), ws, id)
  {
    RunTracks(e, map[], ops);
    hide Run, Recall, LegalRun, Step, Autocommitted;
    Autocommits(Run(e, ops), Recall(e, map[], ops), s, ws, id);
  }

  ghost predicate Autocommitted(f: Engine, g: Engine, ws: seq<Write>, id: TupleId) {
    && g.sessions == f.sessions && (forall t: Tid :: t in g.locks ==> g.locks[t] != f.nextXid)
    && if forall i :: 0 <= i < |ws| ==> Accepted(f, f.nextXid, ws, i)
       then Published(f, g, id, LastWrite(ws, id)) else Public(g, id) <==> Public(f, id)
  }

  lemma Autocommits(f: Engine, m: Marks, s: string, ws: seq<Write>, id: TupleId)
    requires Tracks(f, m) && s !in f.sessions && Legal(f, Dml(s, ws))
    ensures Autocommitted(f, Step(f, Dml(s, ws)), ws, id)
  {
    var xid := f.nextXid;
    var o := f.(nextXid := xid + 1);
    var r := RunWrites(o, xid, ws);
    assert Step(f, Dml(s, ws)) == Finish(r.engine, xid, r.ok) && LegalWrites(o, xid, [], ws);
    NumberedTuple(f, id);
    hide Step, Tracks, Numbered, RunWrites, LegalWrites, LastWrite;
    FreshTracked(f);
    SessionRuns(o, Session(xid, [], []), []);
    SucceedsExact(o, xid, ws);
    forall i | 0 <= i < |ws| ensures Accepted(o, xid, ws, i) <==> Accepted(f, xid, ws, i) { }
    WritesPublic(o, xid, [], [], ws, id);
    WritesSessions(o, xid, ws);
    if r.ok { WritesShow(o, xid, ws, id); }
  }

  lemma WritesSessions(e: Engine, xid: Xid, ws: seq<Write>)
    ensures RunWrites(e, xid, ws).engine.sessions == e.sessions
  {
  }

  lemma NumberedTuple(e: Engine, id: TupleId)
    requires Numbered(e)
    ensures id in e.tuples ==> e.tuples[id].xmin < e.nextXid && e.tuples[id].xmax < e.nextXid
  {
    assert Below(e, id);
  }
}
