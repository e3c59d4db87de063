/** ROLLBACK TO brings back the very state that the SAVEPOINT statement left, as far as the transaction sees it. */
module SavepointReturns {
  import opened Savepoints
  import opened SavepointRuns
  import opened BTreeNodes

  // ------------------------------------------------------------- tuple data

  ghost predicate DataAt(t: Tuples, u: Tuples, id: TupleId) {
    id in t ==> id in u && u[id].data == t[id].data
  }

  /** Every tuple is still there with its data. */
  ghost predicate DataKept(t: Tuples, u: Tuples) {
    forall id: TupleId {:trigger DataAt(t, u, id)} :: DataAt(t, u, id)
  }

  lemma DataThrough(t: Tuples, u: Tuples, v: Tuples)
    requires DataKept(t, u) && DataKept(u, v)
    ensures DataKept(t, v)
  {
    forall id: TupleId ensures DataAt(t, v, id) { assert DataAt(t, u, id) && DataAt(u, v, id); }
  }

  lemma {:induction false} UndoData(t: Tuples, xid: Xid, es: seq<UndoEntry>)
    ensures DataKept(t, UndoAll(t, xid, es))
    decreases |es|
  {
    if es == [] {
      forall id: TupleId ensures DataAt(t, t, id) { }
    } else {
      var u := UndoOne(t, xid, es[|es| - 1]);
      forall id: TupleId ensures DataAt(t, u, id) { }
      UndoData(u, xid, es[..|es| - 1]);
      DataThrough(t, u, UndoAll(t, xid, es));
    }
  }

  lemma {:induction false} WritesData(e: Engine, xid: Xid, done: seq<UndoEntry>, ws: seq<Write>)
    requires LegalWrites(e, xid, done, ws)
    ensures DataKept(e.tuples, RunWrites(e, xid, ws).engine.tuples)
    decreases |ws|
  {
    if ws == [] || Refused(e, xid, ws[0]) {
      forall id: TupleId ensures DataAt(e.tuples, e.tuples, id) { }
    } else {
      var f := Apply(e, xid, ws[0]);
      forall id: TupleId ensures DataAt(e.tuples, f.tuples, id) { }
      WritesData(f, xid, done + [EntryFor(ws[0])], ws[1..]);
      DataThrough(e.tuples, f.tuples, RunWrites(e, xid, ws).engine.tuples);
    }
  }

  lemma StepData(e: Engine, op: Op)
    requires Legal(e, op)
    ensures DataKept(e.tuples, Step(e, op).tuples)
  {
    forall id: TupleId ensures DataAt(e.tuples, e.tuples, id) { }
    match op
    case RollbackTo(s, name) =>
      if Known(e, s, name) {
        var se := e.sessions[s];
        UndoData(e.tuples, se.xid, Suffix(se, Position(se.savepoints, name)));
      }
    case Dml(s, ws) =>
      if s in e.sessions {
        WritesData(e, e.sessions[s].xid, [], ws);
      } else {
        WritesData(e.(nextXid := e.nextXid + 1), e.nextXid, [], ws);
      }
    case _ =>
  }

  lemma {:induction false} RunData(e: Engine, ops: seq<Op>)
    requires LegalRun(e, ops)
    ensures DataKept(e.tuples, Run(e, ops).tuples)
    decreases |ops|
  {
    if ops == [] {
      forall id: TupleId ensures DataAt(e.tuples, e.tuples, id) { }
    } else {
      StepData(e, ops[0]);
      RunData(Step(e, ops[0]), ops[1..]);
      DataThrough(e.tuples, Step(e, ops[0]).tuples, Run(e, ops).tuples);
    }
  }

  lemma {:induction false} RunSplit(e: Engine, ops: seq<Op>, i: nat)
    requires i <= |ops| && LegalRun(e, ops)
    ensures LegalRun(e, ops[..i]) && LegalRun(Run(e, ops[..i]), ops[i..])
    ensures Run(Run(e, ops[..i]), ops[i..]) == Run(e, ops)
    decreases i
  {
    hide Step, Legal;
    if i == 0 {
      assert ops[..0] == [] && ops[0..] == ops;
    } else {
      RunSplit(Step(e, ops[0]), ops[1..], i - 1);
      assert ops[..i][0] == ops[0] && ops[..i][1..] == ops[1..][..i - 1] && ops[1..][i - 1..] == ops[i..];
    }
  }

  // --------------------------------------------------- where a snapshot was taken

  /** Statement `i` set the savepoint: the transaction's work was then what the snapshot says. */
  ghost predicate SetAt(e: Engine, ops: seq<Op>, s: string, xid: Xid, mark: Mark, i: nat) {
    && i < |ops| && ops[i] == Op.Savepoint(s, mark.name)
    && var h := Run(e, ops[..i + 1]);
    s in h.sessions && h.sessions[s].xid == xid && ViewOf(h.tuples, xid) == mark.view
  }

  function NameIn(op: Op): string { if op.Savepoint? || op.RollbackTo? || op.Release? then op.name else "" }

  /** What a statement does to the savepoints of a session that goes on, if the one it names is at `p`. */
  function Changed<T>(op: Op, s: string, stack: seq<T>, p: int, pushed: T): seq<T> {
    if op == Op.Savepoint(s, NameIn(op)) then stack + [pushed]
    else if op == RollbackTo(s, NameIn(op)) && 0 <= p < |stack| then stack[..p + 1]
    else if op == Release(s, NameIn(op)) && 0 <= p < |stack| then RemoveAt(stack, p)
    else stack
  }

  function PlaceOf(e: Engine, s: string, name: string): int {
    if s in e.sessions then Position(e.sessions[s].savepoints, name) else -1
  }

  /** The statements that set the savepoints a session still has, oldest first. */
  function Standing(e: Engine, ops: seq<Op>, s: string): seq<nat>
    decreases |ops|
  {
    if ops == [] then []
    else
      var n := |ops| - 1;
      var f := Run(e, ops[..n]);
      if s !in Step(f, ops[n]).sessions then []
      else Changed<nat>(ops[n], s, Standing(e, ops[..n], s), PlaceOf(f, s, NameIn(ops[n])), n)
  }

  lemma SameKeys(e: Engine, m: Marks)
    requires Tracks(e, m)
    ensures m.Keys == e.sessions.Keys
  {
  }

  /** The newest savepoint has nothing logged after it. */
  lemma LastMark(f: Engine, se: Session, ms: seq<Mark>)
    requires Tracked(f, se, ms) && ms != [] && se.savepoints != []
    requires se.savepoints[|se.savepoints| - 1].start == |se.undoLog|
    ensures ViewOf(f.tuples, se.xid) == ms[|ms| - 1].view
  {
    var k := |ms| - 1;
    assert MarkAt(f.tuples, se, ms, k);
    assert Suffix(se, k) == [];
    RestoresMeans(f.tuples, se.xid, Suffix(se, k), ms[k].view);
  }

  /** A session that goes on stays in its transaction. */
  lemma SameXid(e: Engine, op: Op, s: string)
    requires s in e.sessions && s in Step(e, op).sessions
    ensures Step(e, op).sessions[s].xid == e.sessions[s].xid
  {
    hide ViewOf, UndoAll, RunWrites;
  }

  lemma RunLast(e: Engine, ops: seq<Op>)
    requires ops != [] && LegalRun(e, ops)
    ensures var n := |ops| - 1;
      && LegalRun(e, ops[..n]) && Legal(Run(e, ops[..n]), ops[n]) && Run(e, ops) == Step(Run(e, ops[..n]), ops[n])
  {
    hide Step, Legal;
    var n := |ops| - 1;
    RunSplit(e, ops, n);
    var f, none: seq<Op> := Run(e, ops[..n]), [];
    assert ops[n..] == [ops[n]] && [ops[n]][1..] == none;
    assert Run(f, [ops[n]]) == Run(Step(f, ops[n]), none) == Step(f, ops[n]);
  }

  lemma {:induction false} RecallLast(e: Engine, m: Marks, ops: seq<Op>)
    requires ops != [] && LegalRun(e, ops)
    ensures var n := |ops| - 1;
      var f := Run(e, ops[..n]);
      Recall(e, m, ops) == Remember(f, Step(f, ops[n]), Recall(e, m, ops[..n]), ops[n])
    decreases |ops|
  {
    hide Step, Legal, Remember;
    var n := |ops| - 1;
    var e', m' := Step(e, ops[0]), Remember(e, Step(e, ops[0]), m, ops[0]);
    if n == 0 {
      assert ops[..0] == [] && ops[1..] == [];
    } else {
      RecallLast(e', m', ops[1..]);
      assert ops[1..][..n - 1] == ops[..n][1..] && ops[1..][n - 1] == ops[n] && ops[..n][0] == ops[0];
    }
  }

  function MarksOf(m: Marks, s: string): seq<Mark> { if s in m then m[s] else [] }

  /** Each surviving savepoint was set by the statement that stands for it. */
  ghost predicate Stands(e: Engine, ops: seq<Op>, s: string, xid: Xid, ms: seq<Mark>, at: seq<nat>) {
    && |ms| == |at|
    && (forall k :: 0 <= k < |ms| ==> SetAt(e, ops, s, xid, ms[k], at[k]))
  }

  lemma SetLonger(e: Engine, ops: seq<Op>, op: Op, s: string, xid: Xid, mark: Mark, i: nat)
    requires SetAt(e, ops, s, xid, mark, i)
    ensures SetAt(e, ops + [op], s, xid, mark, i)
  {
    hide ViewOf;
    assert (ops + [op])[..i + 1] == ops[..i + 1];
  }

  lemma StandsLonger(e: Engine, ops: seq<Op>, op: Op, s: string, xid: Xid, ms: seq<Mark>, at: seq<nat>)
    requires Stands(e, ops, s, xid, ms, at)
    ensures Stands(e, ops + [op], s, xid, ms, at)
  {
    hide SetAt;
    forall k | 0 <= k < |ms| ensures SetAt(e, ops + [op], s, xid, ms[k], at[k]) {
      SetLonger(e, ops, op, s, xid, ms[k], at[k]);
    }
  }

  function MarkNow(e: Engine, s: string, name: string): Mark
    requires s in e.sessions
  {
    Mark(name, ViewOf(e.tuples, e.sessions[s].xid))
  }

  /** The snapshots change as the savepoints do. */
  lemma RememberOne(e: Engine, m: Marks, op: Op, s: string)
    requires Tracks(e, m) && Legal(e, op) && s in Step(e, op).sessions
    ensures s in Remember(e, Step(e, op), m, op)
    ensures Remember(e, Step(e, op), m, op)[s]
         == Changed(op, s, MarksOf(m, s), PlaceOf(e, s, NameIn(op)), MarkNow(Step(e, op), s, NameIn(op)))
  {
    hide Tracks, Remember, Step, ViewOf, SavepointOf;
    StepTracks(e, m, op);
    SameKeys(e, m);
    SameKeys(Step(e, op), Remember(e, Step(e, op), m, op));
    if s in e.sessions {
      assert Tracked(e, e.sessions[s], m[s]) by { TracksOne(e, m, s); }
      TrackedPosition(e, e.sessions[s], m[s], NameIn(op));
    }
    if op == Op.Savepoint(s, NameIn(op)) {
      SavepointMark(e, m, s, NameIn(op));
    } else {
      OtherMarks(e, m, op, s);
    }
  }

  lemma TracksOne(e: Engine, m: Marks, s: string)
    requires Tracks(e, m) && s in e.sessions
    ensures s in m && Tracked(e, e.sessions[s], m[s])
  {
  }

  lemma OtherMarks(e: Engine, m: Marks, op: Op, s: string)
    requires m.Keys == e.sessions.Keys && s in Step(e, op).sessions && op != Op.Savepoint(s, NameIn(op))
    requires Remember(e, Step(e, op), m, op).Keys == Step(e, op).sessions.Keys
    ensures Remember(e, Step(e, op), m, op)[s]
         == Changed(op, s, MarksOf(m, s), InnermostMark(MarksOf(m, s), NameIn(op)),
                    MarkNow(Step(e, op), s, NameIn(op)))
  {
    hide ViewOf, UndoAll, RunWrites;
  }

  lemma SavepointMark(e: Engine, m: Marks, s: string, name: string)
    requires Tracks(e, m)
    requires var op := Op.Savepoint(s, name); Tracks(Step(e, op), Remember(e, Step(e, op), m, op))
    ensures var f := Step(e, Op.Savepoint(s, name));
      && s in f.sessions && s in Remember(e, f, m, Op.Savepoint(s, name))
      && Remember(e, f, m, Op.Savepoint(s, name))[s] == MarksOf(m, s) + [MarkNow(f, s, name)]
  {
    hide ViewOf, Tracked, Numbered, Distinct;
    var f := SavepointOf(e, s, name);
    var ms := Remember(e, f, m, Op.Savepoint(s, name))[s];
    assert s in f.sessions && Tracked(f, f.sessions[s], ms);
    LastMark(f, f.sessions[s], ms);
  }

  lemma StandsNone(e: Engine, ops: seq<Op>, s: string, xid: Xid)
    ensures Stands(e, ops, s, xid, [], [])
  {
  }

  /** One statement keeps the two in step. */
  lemma StandsChanged(e: Engine, ops: seq<Op>, s: string, xid: Xid, ms: seq<Mark>, at: seq<nat>, op: Op, p: int,
                      mark: Mark, n: nat)
    requires Stands(e, ops, s, xid, ms, at)
    requires op == Op.Savepoint(s, NameIn(op)) ==> SetAt(e, ops, s, xid, mark, n)
    ensures Stands(e, ops, s, xid, Changed(op, s, ms, p, mark), Changed<nat>(op, s, at, p, n))
  {
    hide SetAt;
  }

  lemma SetNow(e: Engine, ops: seq<Op>, s: string, mark: Mark)
    requires ops != [] && ops[|ops| - 1] == Op.Savepoint(s, mark.name) && s in Run(e, ops).sessions
    requires mark.view == ViewOf(Run(e, ops).tuples, Run(e, ops).sessions[s].xid)
    ensures SetAt(e, ops, s, Run(e, ops).sessions[s].xid, mark, |ops| - 1)
  {
    hide Run, ViewOf;
    assert ops[..|ops|] == ops;
  }

  lemma NoneStand(e: Engine, ops: seq<Op>, s: string)
    requires LegalRun(e, ops) && s !in Run(e, ops).sessions
    ensures Standing(e, ops, s) == []
  {
    hide Step, Legal, Run, LegalRun;
    if ops != [] { RunLast(e, ops); }
  }

  /** In every run. */
  lemma {:induction false} StandingSet(e: Engine, ops: seq<Op>, s: string)
    requires Numbered(e) && e.sessions == map[] && LegalRun(e, ops) && s in Run(e, ops).sessions
    ensures s in Recall(e, map[], ops)
    ensures Stands(e, ops, s, Run(e, ops).sessions[s].xid, Recall(e, map[], ops)[s], Standing(e, ops, s))
    decreases |ops|
  {
    hide Step, Legal, Remember, Recall, Run, SetAt, ViewOf, Tracks, Numbered, Stands, LegalRun, Changed, Standing;
    if ops == [] {
      NoStatements(e);
    } else {
      var n := |ops| - 1;
      var before, op, m := ops[..n], ops[n], Recall(e, map[], ops[..n]);
      assert ops == before + [op];
      RunLast(e, ops);
      RecallLast(e, map[], ops);
      StartTracks(e);
      RunTracks(e, map[], before);
      SameKeys(Run(e, before), m);
      if s in Run(e, before).sessions { StandingSet(e, before, s); } else { NoneStand(e, before, s); }
      StandingNext(e, before, op, s, m);
    }
  }

  lemma NoStatements(e: Engine)
    ensures Run(e, []) == e
  {
  }

  lemma StandingNext(e: Engine, before: seq<Op>, op: Op, s: string, m: Marks)
    requires Tracks(Run(e, before), m) && Legal(Run(e, before), op) && Run(e, before + [op]) == Step(Run(e, before), op)
    requires s in Run(e, before + [op]).sessions
    requires var f := Run(e, before);
      if s in f.sessions then s in m && Stands(e, before, s, f.sessions[s].xid, m[s], Standing(e, before, s))
      else s !in m && Standing(e, before, s) == []
    ensures var f, g := Run(e, before), Run(e, before + [op]);
      && s in Remember(f, g, m, op)
      && Stands(e, before + [op], s, g.sessions[s].xid, Remember(f, g, m, op)[s], Standing(e, before + [op], s))
  {
    var ops, f, g := before + [op], Run(e, before), Run(e, before + [op]);
    hide Step, Legal, Remember, Run, SetAt, ViewOf, Tracks, Stands, Changed;
    assert ops[..|before|] == before && ops[|before|] == op;
    var at := Standing(e, before, s);
    assert Standing(e, ops, s) == Changed<nat>(op, s, at, PlaceOf(f, s, NameIn(op)), |before|);
    hide Standing, PlaceOf;
    RememberOne(f, m, op, s);
    var xid, mark := g.sessions[s].xid, MarkNow(g, s, NameIn(op));
    if s in f.sessions {
      SameXid(f, op, s);
      StandsLonger(e, before, op, s, f.sessions[s].xid, m[s], at);
    } else {
      StandsNone(e, ops, s, xid);
    }
    if op == Op.Savepoint(s, NameIn(op)) { SetNow(e, ops, s, mark); }
    assert Stands(e, ops, s, xid, MarksOf(m, s), at);
    var p := PlaceOf(f, s, NameIn(op));
    assert Remember(f, g, m, op)[s] == Changed(op, s, MarksOf(m, s), p, mark);
    assert Standing(e, ops, s) == Changed<nat>(op, s, at, p, |before|);
    StandsChanged(e, ops, s, xid, MarksOf(m, s), at, op, p, mark, |before|);
  }

  // --------------------------------------------------------------- the theorem

  ghost predicate LiveAsBefore(f: Engine, g: Engine, h: Engine, xid: Xid, id: TupleId) {
    (Public(f, id) <==> Public(h, id)) ==> (Live(g, xid, id) <==> Live(h, xid, id))
  }

  /** Of the statements that set the savepoints a session still has, the last one with that name. */
  predicate Innermost(e: Engine, ops: seq<Op>, s: string, name: string, i: nat) {
    var at := Standing(e, ops, s);
    exists k ::
      && 0 <= k < |at| && at[k] == i && IsSavepoint(ops, s, name, at[k])
      && forall j :: k < j < |at| ==> !IsSavepoint(ops, s, name, at[j])
  }

  predicate IsSavepoint(ops: seq<Op>, s: string, name: string, i: nat) {
    i < |ops| && ops[i] == Op.Savepoint(s, name)
  }

  /**
   * Statement `i` set the innermost savepoint of that name that is still there, in the same transaction; `h`
   * is the engine it left, `f` the one before ROLLBACK TO and `g` the one after. What is live after it is what
   * was live then, tuple by tuple, but for what others have committed in between; no tuple's data has changed.
   */
  ghost predicate Returned(e: Engine, ops: seq<Op>, s: string, name: string, i: nat) {
    && i < |ops| && Innermost(e, ops, s, name, i)
    && var f, h := Run(e, ops), Run(e, ops[..i + 1]);
    var g := Step(f, RollbackTo(s, name));
    && s in f.sessions && s in h.sessions && h.sessions[s].xid == f.sessions[s].xid
    && (forall id: TupleId {:trigger LiveAsBefore(f, g, h, f.sessions[s].xid, id)} ::
          LiveAsBefore(f, g, h, f.sessions[s].xid, id))
    && DataKept(h.tuples, g.tuples) && DataKept(f.tuples, g.tuples)
  }

  lemma RollbackReturns(e: Engine, ops: seq<Op>, s: string, name: string)
    requires Numbered(e) && e.sessions == map[] && LegalRun(e, ops) && Known(Run(e, ops), s, name)
    ensures exists i: nat :: Returned(e, ops, s, name, i)
  {
    hide Known, Step, InnermostMark, Live, Public, ViewOf, Tracks, Numbered, Standing, SetAt;
    RollbackRestores(e, ops, s, name);
    KnownSession(Run(e, ops), s, name);
    StandingSet(e, ops, s);
    var ms, at := Recall(e, map[], ops)[s], Standing(e, ops, s);
    var p := InnermostMark(ms, name);
    forall k | 0 <= k < |at| ensures IsSavepoint(ops, s, ms[k].name, at[k]) { SetIs(e, ops, s, ms[k], at[k]); }
    assert Innermost(e, ops, s, name, at[p]);
    ReturnedAt(e, ops, s, name, ms[p], at[p]);
  }

  lemma KnownSession(e: Engine, s: string, name: string)
    requires Known(e, s, name)
    ensures s in e.sessions
  {
  }

  lemma SetIs(e: Engine, ops: seq<Op>, s: string, mark: Mark, i: nat)
    requires s in Run(e, ops).sessions && SetAt(e, ops, s, Run(e, ops).sessions[s].xid, mark, i)
    ensures IsSavepoint(ops, s, mark.name, i)
  {
  }

  lemma StartTracks(e: Engine)
    requires Numbered(e) && e.sessions == map[]
    ensures Tracks(e, map[])
  {
  }

  lemma ReturnedAt(e: Engine, ops: seq<Op>, s: string, name: string, mark: Mark, i: nat)
    requires Numbered(e) && e.sessions == map[] && LegalRun(e, ops) && Known(Run(e, ops), s, name)
    requires var ms := Recall(e, map[], ops);
      s in ms && InnermostMark(ms[s], name) >= 0 && mark == ms[s][InnermostMark(ms[s], name)]
    requires s in Run(e, ops).sessions && SetAt(e, ops, s, Run(e, ops).sessions[s].xid, mark, i)
    requires Innermost(e, ops, s, name, i)
    ensures Returned(e, ops, s, name, i)
  {
    hide Known, Step, Live, Public, ViewOf, Numbered, Innermost;
    var f, h := Run(e, ops), Run(e, ops[..i + 1]);
    var g, xid := Step(f, RollbackTo(s, name)), f.sessions[s].xid;
    RollbackRestores(e, ops, s, name);
    RunSplit(e, ops, i + 1);
    forall id: TupleId ensures LiveAsBefore(f, g, h, xid, id) {
      LiveInRun(e, ops[..i + 1], s, id);
      assert Live(g, xid, id) <==> (id in mark.view.added || (Public(f, id) && id !in mark.view.removed));
    }
    RunData(h, ops[i + 1..]);
    StepData(f, RollbackTo(s, name));
    DataThrough(h.tuples, f.tuples, g.tuples);
  }

  // ------------------------------------------------- a delete that is not logged

  /** The tuple deleted, without an entry in any log. */
  function DeletedSilently(t: Tuples, xid: Xid, id: TupleId): Tuples
    requires id in t
  {
    t[id := WithXmax(t[id], xid)]
  }

  /** Undoing then still gives the view if and only if the log mentions the tuple. */
  lemma SilentDeleteExact(t: Tuples, xid: Xid, es: seq<UndoEntry>, v: View, id: TupleId)
    requires xid != INVALID_XID && Restores(t, xid, es, v) && id in t && !Dead(t, xid, id)
    ensures ViewOf(UndoAll(DeletedSilently(t, xid, id), xid, es), xid) == v <==> First(es, id) != Never
  {
    var t' := DeletedSilently(t, xid, id);
    assert RestoresAt(t, xid, First(es, id), v, id);
    if First(es, id) != Never {
      forall x: TupleId ensures RestoresAt(t', xid, First(es, x), v, x) {
        assert RestoresAt(t, xid, First(es, x), v, x);
      }
      RestoresMeans(t', xid, es, v);
    } else {
      UndoStatus(t', xid, es, id);
    }
  }

  /**
   * A cascaded update whose insertion fails leaves its child row deleted and nothing logged. In every run:
   * ROLLBACK TO then brings the transaction's work back if and only if the log since the savepoint mentions
   * that row.
   */
  lemma SilentDeleteInRun(e: Engine, ops: seq<Op>, s: string, name: string, id: TupleId)
    requires Numbered(e) && e.sessions == map[] && LegalRun(e, ops) && Known(Run(e, ops), s, name)
    requires var f := Run(e, ops); id in f.tuples && f.tuples[id].xmax != f.sessions[s].xid
    ensures var f, ms := Run(e, ops), Recall(e, map[], ops);
      var xid, se := f.sessions[s].xid, f.sessions[s];
      var g := Step(f.(tuples := DeletedSilently(f.tuples, xid, id)), RollbackTo(s, name));
      && s in ms && InnermostMark(ms[s], name) >= 0
      && (ViewOf(g.tuples, xid) == ms[s][InnermostMark(ms[s], name)].view <==>
          First(Suffix(se, Position(se.savepoints, name)), id) != Never)
  {
    StartTracks(e);
    RunTracks(e, map[], ops);
    var f, ms := Run(e, ops), Recall(e, map[], ops);
    var se := f.sessions[s];
    var p := Position(se.savepoints, name);
    hide Run, Recall, LegalRun, ViewOf, Numbered;
    assert Tracked(f, se, ms[s]);
    TrackedPosition(f, se, ms[s], name);
    assert MarkAt(f.tuples, se, ms[s], p);
    SilentDeleteExact(f.tuples, se.xid, Suffix(se, p), ms[s][p].view, id);
  }

  /** A committed row and a savepoint set while it is live; deleted silently, it does not come back. */
  lemma SilentDeleteLost(id: TupleId, name: string)
    ensures var e := Engine(map[id := Tuple(1, INVALID_XID, [])], map[], {1}, map[], 2);
      var h := Run(e, [Op.Savepoint("s", name)]);
      var g := Step(h.(tuples := DeletedSilently(e.tuples, 2, id)), RollbackTo("s", name));
      && Known(h, "s", name) && h.sessions["s"].xid == 2 && h.tuples == e.tuples
      && Live(h, 2, id) && !Live(g, 2, id)
  {
    var e := Engine(map[id := Tuple(1, INVALID_XID, [])], map[], {1}, map[], 2);
    var op, none: seq<Op> := Op.Savepoint("s", name), [];
    var h := Step(e, op);
    assert [op][1..] == none && Run(e, [op]) == Run(h, none) == h;
    var se := h.sessions["s"];
    assert se == Session(2, [Frame(name, 0)], []);
    assert Position(se.savepoints, name) == 0 && Suffix(se, 0) == [];
  }
}
