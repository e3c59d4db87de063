/**
 * Whole runs of the session engine: every interleaving of statements of many
 * sessions, checked against snapshots of each transaction's work taken when a
 * savepoint was set.
 */
module SavepointRuns {
  import opened BTreeNodes
  import opened Savepoints

  // ------------------------------------------------------------- statements

  /** What running the writes of a statement gives; `entries` is what it logs. */
  datatype Outcome = Outcome(ok: bool, engine: Engine, entries: seq<UndoEntry>)

  function RunWrites(e: Engine, xid: Xid, ws: seq<Write>): (r: Outcome)
    ensures r.engine.sessions == e.sessions
    decreases |ws|
  {
    if ws == [] then Outcome(true, e, [])
    else if Refused(e, xid, ws[0]) then Outcome(false, e, [])
    else
      var r := RunWrites(Apply(e, xid, ws[0]), xid, ws[1..]);
      Outcome(r.ok, r.engine, [EntryFor(ws[0])] + r.entries)
  }

  /** Every write keeps to the executor's discipline at the time it is made. */
  predicate LegalWrites(e: Engine, xid: Xid, done: seq<UndoEntry>, ws: seq<Write>)
    decreases |ws|
  {
    ws == [] || Refused(e, xid, ws[0]) ||
    (&& Allowed(e, xid, done, ws[0])
     && LegalWrites(Apply(e, xid, ws[0]), xid, done + [EntryFor(ws[0])], ws[1..]))
  }

  function Unlocked(locks: map<Tid, Xid>, xid: Xid): map<Tid, Xid> {
    map t | t in locks && locks[t] != xid :: locks[t]
  }

  /** Ends a transaction and releases its locks. */
  function Finish(e: Engine, xid: Xid, commit: bool): Engine {
    e.(committed := if commit then e.committed + {xid} else e.committed,
       locks := Unlocked(e.locks, xid))
  }

  function Closed(e: Engine, s: string): Engine {
    e.(sessions := map k | k in e.sessions && k != s :: e.sessions[k])
  }

  function Opened(e: Engine, s: string): Engine {
    if s in e.sessions then e
    else e.(nextXid := e.nextXid + 1, sessions := e.sessions[s := Session(e.nextXid, [], [])])
  }

  function WithSession(e: Engine, s: string, se: Session): Engine {
    e.(sessions := e.sessions[s := se])
  }

  /** The innermost savepoint of that name. */
  function Position(frames: seq<Frame>, name: string): (p: int)
    ensures -1 <= p < |frames|
    ensures p >= 0 ==> frames[p].name == name
    ensures forall i :: p < i < |frames| ==> frames[i].name != name
  {
    if frames == [] then -1
    else if frames[|frames| - 1].name == name then |frames| - 1
    else Position(frames[..|frames| - 1], name)
  }

  datatype Op =
    | Begin(s: string)
    | Commit(s: string)
    | Rollback(s: string)
    | Savepoint(s: string, name: string)
    | RollbackTo(s: string, name: string)
    | Release(s: string, name: string)
    | Dml(s: string, writes: seq<Write>)

  function EndOf(e: Engine, s: string, commit: bool): Engine {
    if s in e.sessions then Finish(Closed(e, s), e.sessions[s].xid, commit) else e
  }

  function SavepointOf(e: Engine, s: string, name: string): Engine {
    var o := Opened(e, s);
    var se := o.sessions[s];
    WithSession(o, s, Session(se.xid, se.savepoints + [Frame(name, |se.undoLog|)], se.undoLog))
  }

  predicate Known(e: Engine, s: string, name: string) {
    s in e.sessions && Position(e.sessions[s].savepoints, name) >= 0
  }

  /** The session after rolling back to frame `p`: later frames go, the log is cut back. */
  function CutBack(se: Session, p: nat): Session
    requires p < |se.savepoints|
  {
    var start := se.savepoints[p].start;
    Session(se.xid, se.savepoints[..p + 1], if start <= |se.undoLog| then se.undoLog[..start] else se.undoLog)
  }

  function Suffix(se: Session, p: nat): seq<UndoEntry>
    requires p < |se.savepoints|
  {
    var start := se.savepoints[p].start;
    if start <= |se.undoLog| then se.undoLog[start..] else []
  }

  function RollbackToOf(e: Engine, s: string, name: string): Engine {
    if !Known(e, s, name) then e
    else
      var se := e.sessions[s];
      var p := Position(se.savepoints, name);
      WithSession(e.(tuples := UndoAll(e.tuples, se.xid, Suffix(se, p))), s, CutBack(se, p))
  }

  /** Only the named frame goes; the log keeps its entries. */
  function ReleaseOf(e: Engine, s: string, name: string): Engine {
    if !Known(e, s, name) then e
    else
      var se := e.sessions[s];
      var p := Position(se.savepoints, name);
      WithSession(e, s, Session(se.xid, RemoveAt(se.savepoints, p), se.undoLog))
  }

  function DmlOf(e: Engine, s: string, ws: seq<Write>): Engine {
    if s in e.sessions then
      var se := e.sessions[s];
      var r := RunWrites(e, se.xid, ws);
      if r.ok then WithSession(r.engine, s, Session(se.xid, se.savepoints, se.undoLog + r.entries))
      else Finish(Closed(r.engine, s), se.xid, false)
    else
      var r := RunWrites(e.(nextXid := e.nextXid + 1), e.nextXid, ws);
      Finish(r.engine, e.nextXid, r.ok)
  }

  function Step(e: Engine, op: Op): Engine {
    match op
    case Begin(s) => Opened(e, s)
    case Commit(s) => EndOf(e, s, true)
    case Rollback(s) => EndOf(e, s, false)
    case Savepoint(s, name) => SavepointOf(e, s, name)
    case RollbackTo(s, name) => RollbackToOf(e, s, name)
    case Release(s, name) => ReleaseOf(e, s, name)
    case Dml(s, ws) => DmlOf(e, s, ws)
  }

  predicate Legal(e: Engine, op: Op) {
    match op
    case Dml(s, ws) =>
      if s in e.sessions then LegalWrites(e, e.sessions[s].xid, [], ws)
      else LegalWrites(e.(nextXid := e.nextXid + 1), e.nextXid, [], ws)
    case _ => true
  }

  // -------------------------------------------- the snapshots to compare with

  /** A savepoint as it should be: its name and what the transaction had done then. */
  datatype Mark = Mark(name: string, view: View)
  type Marks = map<string, seq<Mark>>

  function InnermostMark(marks: seq<Mark>, name: string): (p: int)
    ensures -1 <= p < |marks|
    ensures p >= 0 ==> marks[p].name == name
    ensures forall i :: p < i < |marks| ==> marks[i].name != name
  {
    if marks == [] then -1
    else if marks[|marks| - 1].name == name then |marks| - 1
    else InnermostMark(marks[..|marks| - 1], name)
  }

  /** The snapshots after an operation, given the engine before and after it. */
  function Remember(e: Engine, f: Engine, m: Marks, op: Op): Marks {
    match op
    case Begin(s) => if s in m then m else m[s := []]
    case Commit(s) => map k | k in m && k != s :: m[k]
    case Rollback(s) => map k | k in m && k != s :: m[k]
    case Savepoint(s, name) =>
      var ms := if s in m then m[s] else [];
      m[s := ms + [Mark(name, if s in e.sessions then ViewOf(e.tuples, e.sessions[s].xid) else View({}, {}))]]
    case RollbackTo(s, name) =>
      if s in m && InnermostMark(m[s], name) >= 0 then m[s := m[s][..InnermostMark(m[s], name) + 1]] else m
    case Release(s, name) =>
      if s in m && InnermostMark(m[s], name) >= 0 then m[s := RemoveAt(m[s], InnermostMark(m[s], name))] else m
    case Dml(s, ws) => if s in m && s !in f.sessions then map k | k in m && k != s :: m[k] else m
  }

  // ------------------------------------------------------------ the invariant

  /** Frames lie within the log, in order of their age. */
  predicate FrameAt(se: Session, k: nat) {
    k < |se.savepoints| ==>
      se.savepoints[k].start <= |se.undoLog| && (k > 0 ==> se.savepoints[k - 1].start <= se.savepoints[k].start)
  }

  ghost predicate FramesOk(se: Session) {
    forall k: nat {:trigger FrameAt(se, k)} :: FrameAt(se, k)
  }

  /** Frame `k` carries the name of mark `k` and its part of the log restores the mark's view. */
  ghost predicate MarkAt(t: Tuples, se: Session, ms: seq<Mark>, k: nat) {
    k < |ms| && k < |se.savepoints| ==>
      && se.savepoints[k].name == ms[k].name
      && Restores(t, se.xid, Suffix(se, k), ms[k].view)
  }

  ghost predicate Tracked(e: Engine, se: Session, ms: seq<Mark>) {
    && Running(e, se.xid, se.undoLog)
    && FramesOk(se)
    && |ms| == |se.savepoints|
    && (forall k: nat {:trigger MarkAt(e.tuples, se, ms, k)} :: MarkAt(e.tuples, se, ms, k))
  }

  /** Transaction numbers in use are below the next one. */
  predicate Below(e: Engine, id: TupleId) {
    id in e.tuples ==> e.tuples[id].xmin < e.nextXid && e.tuples[id].xmax < e.nextXid
  }

  ghost predicate Numbered(e: Engine) {
    && e.nextXid > INVALID_XID
    && INVALID_XID !in e.committed
    && (forall x: Xid :: x in e.committed ==> x < e.nextXid)
    && (forall id: TupleId {:trigger Below(e, id)} :: Below(e, id))
  }

  ghost predicate Distinct(e: Engine) {
    forall s: string, r: string {:trigger e.sessions[s], e.sessions[r]} ::
      s in e.sessions && r in e.sessions && s != r ==> e.sessions[s].xid != e.sessions[r].xid
  }

  ghost predicate Tracks(e: Engine, m: Marks) {
    && Numbered(e) && Distinct(e)
    && m.Keys == e.sessions.Keys
    && (forall s: string {:trigger s in e.sessions} :: s in e.sessions ==> Tracked(e, e.sessions[s], m[s]))
  }

  // --------------------------------------------------- steps of one session

  /** The tracking of a session looks at no other session. */
  lemma Reframe(e: Engine, f: Engine, se: Session, ms: seq<Mark>)
    requires Tracked(e, se, ms)
    requires f.tuples == e.tuples && f.locks == e.locks && f.committed == e.committed && f.nextXid >= e.nextXid
    ensures Tracked(f, se, ms)
  {
    forall id: TupleId ensures Held(f, se.xid, id) { assert Held(e, se.xid, id); }
    forall i: nat | i < |se.undoLog| ensures EntryOk(f, se.xid, se.undoLog[i]) {
      assert EntryOk(e, se.xid, se.undoLog[i]);
    }
    forall k: nat ensures MarkAt(f.tuples, se, ms, k) { assert MarkAt(e.tuples, se, ms, k); }
  }

  /** Steps of one transaction leave the other sessions tracked. */
  lemma TrackedKept(e: Engine, f: Engine, xid: Xid, log: seq<UndoEntry>, se: Session, ms: seq<Mark>)
    requires Running(e, xid, log) && OwnStep(e, f, xid)
    requires Tracked(e, se, ms) && se.xid != xid
    ensures Tracked(f, se, ms)
  {
    RunningKept(e, f, xid, log, se.xid, se.undoLog);
    OthersSame(e, f, xid, log, se.xid, se.undoLog);
    forall k: nat ensures MarkAt(f.tuples, se, ms, k) {
      assert MarkAt(e.tuples, se, ms, k);
      if k < |ms| {
        RestoresSame(e.tuples, f.tuples, se.xid, Suffix(se, k), ms[k].view);
      }
    }
  }

  /** The entries `done` of the statement under way come after every savepoint. */
  predicate Since(se: Session, done: seq<UndoEntry>) {
    && |done| <= |se.undoLog|
    && se.undoLog[|se.undoLog| - |done|..] == done
    && forall k :: 0 <= k < |se.savepoints| ==> se.savepoints[k].start <= |se.undoLog| - |done|
  }

  function Logged(se: Session, entries: seq<UndoEntry>): Session {
    Session(se.xid, se.savepoints, se.undoLog + entries)
  }

  lemma SinceMentions(log: seq<UndoEntry>, done: seq<UndoEntry>, start: nat)
    requires |done| <= |log| && log[|log| - |done|..] == done && start <= |log| - |done|
    ensures forall id: TupleId {:trigger First(log[start..], id)} :: First(done, id) != Never ==>
        First(log[start..], id) != Never
  {
    assert log[start..] == log[start..|log| - |done|] + done;
    forall id: TupleId ensures First(done, id) != Never ==> First(log[start..], id) != Never {
      FirstAppend(log[start..|log| - |done|], done, id);
    }
  }

  lemma WriteMark(e: Engine, se: Session, ms: seq<Mark>, done: seq<UndoEntry>, w: Write, k: nat)
    requires se.xid != INVALID_XID && Since(se, done)
    requires !Refused(e, se.xid, w) && Allowed(e, se.xid, done, w)
    requires MarkAt(e.tuples, se, ms, k)
    ensures MarkAt(Apply(e, se.xid, w).tuples, Logged(se, [EntryFor(w)]), ms, k)
  {
    if k < |ms| && k < |se.savepoints| {
      var start := se.savepoints[k].start;
      SinceMentions(se.undoLog, done, start);
      RestoresWrite(e, se.xid, Suffix(se, k), done, w, ms[k].view);
      assert (se.undoLog + [EntryFor(w)])[start..] == se.undoLog[start..] + [EntryFor(w)];
    }
  }

  lemma WriteSince(se: Session, done: seq<UndoEntry>, entry: UndoEntry)
    requires Since(se, done)
    ensures Since(Logged(se, [entry]), done + [entry])
  {
    var log := se.undoLog + [entry];
    assert log[|log| - |done + [entry]|..] == se.undoLog[|se.undoLog| - |done|..] + [entry];
  }

  lemma WriteTracked(e: Engine, se: Session, ms: seq<Mark>, done: seq<UndoEntry>, w: Write)
    requires Tracked(e, se, ms) && Since(se, done)
    requires !Refused(e, se.xid, w) && Allowed(e, se.xid, done, w)
    ensures Tracked(Apply(e, se.xid, w), Logged(se, [EntryFor(w)]), ms)
    ensures OwnStep(e, Apply(e, se.xid, w), se.xid)
  {
    var f, next := Apply(e, se.xid, w), Logged(se, [EntryFor(w)]);
    SinceMentions(se.undoLog, done, 0);
    assert se.undoLog[0..] == se.undoLog;
    WriteIsOwnStep(e, se.xid, se.undoLog, done, w);
    WriteRunning(e, se.xid, se.undoLog, done, w);
    forall k: nat ensures MarkAt(f.tuples, next, ms, k) {
      assert MarkAt(e.tuples, se, ms, k);
      WriteMark(e, se, ms, done, w, k);
    }
    forall k: nat ensures FrameAt(next, k) { assert FrameAt(se, k); }
  }

  lemma NumberedKept(e: Engine, f: Engine, xid: Xid)
    requires Numbered(e) && OwnStep(e, f, xid) && xid < e.nextXid
    ensures Numbered(f)
  {
    forall id: TupleId ensures Below(f, id) { assert Below(e, id) && StepAt(e, f, xid, id); }
  }

  /** Running a statement: its own session goes on with a longer log. */
  lemma {:induction false} RunTracked(e: Engine, se: Session, ms: seq<Mark>, done: seq<UndoEntry>, ws: seq<Write>)
    requires Tracked(e, se, ms) && Since(se, done) && Numbered(e)
    requires LegalWrites(e, se.xid, done, ws)
    ensures Tracked(RunWrites(e, se.xid, ws).engine, Logged(se, RunWrites(e, se.xid, ws).entries), ms)
    ensures Numbered(RunWrites(e, se.xid, ws).engine)
    ensures RunWrites(e, se.xid, ws).engine.nextXid == e.nextXid
    ensures RunWrites(e, se.xid, ws).engine.committed == e.committed
    decreases |ws|
  {
    if ws == [] || Refused(e, se.xid, ws[0]) {
      assert se.undoLog + [] == se.undoLog;
    } else {
      var f, entry := Apply(e, se.xid, ws[0]), EntryFor(ws[0]);
      WriteTracked(e, se, ms, done, ws[0]);
      NumberedKept(e, f, se.xid);
      WriteSince(se, done, entry);
      RunTracked(f, Logged(se, [entry]), ms, done + [entry], ws[1..]);
      var rest := RunWrites(f, se.xid, ws[1..]).entries;
      assert (se.undoLog + [entry]) + rest == se.undoLog + ([entry] + rest);
    }
  }

  /** Running a statement: the other sessions stay tracked. */
  lemma {:induction false} RunOthers(e: Engine, se: Session, ms: seq<Mark>, done: seq<UndoEntry>, ws: seq<Write>,
                                     other: Session, oms: seq<Mark>)
    requires Tracked(e, se, ms) && Since(se, done)
    requires LegalWrites(e, se.xid, done, ws)
    requires Tracked(e, other, oms) && other.xid != se.xid
    ensures Tracked(RunWrites(e, se.xid, ws).engine, other, oms)
    decreases |ws|
  {
    if ws != [] && !Refused(e, se.xid, ws[0]) {
      var f, entry := Apply(e, se.xid, ws[0]), EntryFor(ws[0]);
      WriteTracked(e, se, ms, done, ws[0]);
      TrackedKept(e, f, se.xid, se.undoLog, other, oms);
      WriteSince(se, done, entry);
      RunOthers(f, Logged(se, [entry]), ms, done + [entry], ws[1..], other, oms);
    }
  }

  /** Ending a transaction leaves the other sessions tracked. */
  lemma FinishTracked(e: Engine, xid: Xid, log: seq<UndoEntry>, commit: bool, se: Session, ms: seq<Mark>)
    requires Running(e, xid, log) && Tracked(e, se, ms) && se.xid != xid
    ensures Tracked(Finish(e, xid, commit), se, ms)
  {
    var f := Finish(e, xid, commit);
    forall id: TupleId ensures Held(f, se.xid, id) { assert Held(e, se.xid, id); }
    forall i: nat | i < |se.undoLog| ensures EntryOk(f, se.xid, se.undoLog[i]) {
      assert EntryOk(e, se.xid, se.undoLog[i]);
      assert Held(e, xid, se.undoLog[i].id) && Held(e, se.xid, se.undoLog[i].id);
    }
    forall k: nat ensures MarkAt(f.tuples, se, ms, k) { assert MarkAt(e.tuples, se, ms, k); }
  }

  // ------------------------------------------------------------ rolling back

  function Undoing(e: Engine, xid: Xid, es: seq<UndoEntry>): Engine {
    e.(tuples := UndoAll(e.tuples, xid, es))
  }

  lemma {:induction false} UndoRunning(e: Engine, xid: Xid, log: seq<UndoEntry>, es: seq<UndoEntry>)
    requires Running(e, xid, log) && Numbered(e)
    ensures Running(Undoing(e, xid, es), xid, log) && Numbered(Undoing(e, xid, es))
    decreases |es|
  {
    if es != [] {
      var f := e.(tuples := UndoOne(e.tuples, xid, es[|es| - 1]));
      UndoIsOwnStep(e, xid, log, es[|es| - 1]);
      RunningKept(e, f, xid, log, xid, log);
      NumberedKept(e, f, xid);
      UndoRunning(f, xid, log, es[..|es| - 1]);
    }
  }

  lemma {:induction false} UndoOthers(e: Engine, xid: Xid, log: seq<UndoEntry>, es: seq<UndoEntry>,
                                      se: Session, ms: seq<Mark>)
    requires Running(e, xid, log) && Tracked(e, se, ms) && se.xid != xid
    ensures Tracked(Undoing(e, xid, es), se, ms)
    decreases |es|
  {
    if es != [] {
      var f := e.(tuples := UndoOne(e.tuples, xid, es[|es| - 1]));
      UndoIsOwnStep(e, xid, log, es[|es| - 1]);
      RunningKept(e, f, xid, log, xid, log);
      TrackedKept(e, f, xid, log, se, ms);
      UndoOthers(f, xid, log, es[..|es| - 1], se, ms);
    }
  }

  /** Public tuples do not change under a rollback to a savepoint. */
  lemma {:induction false} UndoPublic(e: Engine, xid: Xid, log: seq<UndoEntry>, es: seq<UndoEntry>, id: TupleId)
    requires Running(e, xid, log)
    ensures Public(Undoing(e, xid, es), id) <==> Public(e, id)
    decreases |es|
  {
    if es != [] {
      var f := e.(tuples := UndoOne(e.tuples, xid, es[|es| - 1]));
      UndoIsOwnStep(e, xid, log, es[|es| - 1]);
      RunningKept(e, f, xid, log, xid, log);
      PublicKept(e, f, xid, log, id);
      UndoPublic(f, xid, log, es[..|es| - 1], id);
    }
  }

  lemma {:induction false} FramesOrdered(se: Session, i: nat, k: nat)
    requires FramesOk(se) && i <= k < |se.savepoints|
    ensures se.savepoints[i].start <= se.savepoints[k].start <= |se.undoLog|
    decreases k
  {
    assert FrameAt(se, k);
    if i < k {
      FramesOrdered(se, i, k - 1);
    }
  }

  lemma CutMark(t: Tuples, se: Session, ms: seq<Mark>, p: nat, k: nat)
    requires se.xid != INVALID_XID && FramesOk(se) && |ms| == |se.savepoints| && p < |ms|
    requires MarkAt(t, se, ms, k)
    ensures MarkAt(UndoAll(t, se.xid, Suffix(se, p)), CutBack(se, p), ms[..p + 1], k)
  {
    if k <= p {
      FramesOrdered(se, k, p);
      var a, b := se.savepoints[k].start, se.savepoints[p].start;
      assert se.undoLog[a..] == se.undoLog[a..b] + se.undoLog[b..];
      RestoresSplit(t, se.xid, se.undoLog[a..b], se.undoLog[b..], ms[k].view);
      assert se.undoLog[..b][a..] == se.undoLog[a..b];
    }
  }

  lemma CutRunning(e: Engine, se: Session, p: nat)
    requires Running(e, se.xid, se.undoLog) && FramesOk(se) && p < |se.savepoints|
    ensures Running(e, se.xid, CutBack(se, p).undoLog) && FramesOk(CutBack(se, p))
  {
    var cut := CutBack(se, p);
    assert FrameAt(se, p);
    forall i: nat | i < |cut.undoLog| ensures EntryOk(e, se.xid, cut.undoLog[i]) {
      assert cut.undoLog[i] == se.undoLog[i];
    }
    forall k: nat ensures FrameAt(cut, k) {
      assert FrameAt(se, k);
      if k <= p { FramesOrdered(se, k, p); }
    }
  }

  lemma CutTracked(e: Engine, se: Session, ms: seq<Mark>, p: nat)
    requires Tracked(e, se, ms) && Numbered(e) && p < |ms|
    ensures Tracked(Undoing(e, se.xid, Suffix(se, p)), CutBack(se, p), ms[..p + 1])
    ensures Numbered(Undoing(e, se.xid, Suffix(se, p)))
  {
    var f, cut := Undoing(e, se.xid, Suffix(se, p)), CutBack(se, p);
    UndoRunning(e, se.xid, se.undoLog, Suffix(se, p));
    CutRunning(f, se, p);
    var kept := ms[..p + 1];
    forall k: nat ensures MarkAt(f.tuples, cut, kept, k) {
      assert MarkAt(e.tuples, se, ms, k);
      CutMark(e.tuples, se, ms, p, k);
    }
  }

  // ------------------------------------------------------- other statements

  lemma PushTracked(e: Engine, se: Session, ms: seq<Mark>, name: string)
    requires Tracked(e, se, ms)
    ensures Tracked(e, Session(se.xid, se.savepoints + [Frame(name, |se.undoLog|)], se.undoLog),
                    ms + [Mark(name, ViewOf(e.tuples, se.xid))])
  {
    var next := Session(se.xid, se.savepoints + [Frame(name, |se.undoLog|)], se.undoLog);
    var ms' := ms + [Mark(name, ViewOf(e.tuples, se.xid))];
    forall k: nat ensures FrameAt(next, k) {
      assert FrameAt(se, k);
      if k == |se.savepoints| && k > 0 { var j := k - 1; assert FrameAt(se, j); }
    }
    forall k: nat ensures MarkAt(e.tuples, next, ms', k) {
      assert MarkAt(e.tuples, se, ms, k);
      RestoresNow(e.tuples, se.xid);
    }
  }

  lemma DropTracked(e: Engine, se: Session, ms: seq<Mark>, p: nat)
    requires Tracked(e, se, ms) && p < |ms|
    ensures Tracked(e, Session(se.xid, RemoveAt(se.savepoints, p), se.undoLog), RemoveAt(ms, p))
  {
    var next := Session(se.xid, RemoveAt(se.savepoints, p), se.undoLog);
    forall k: nat ensures FrameAt(next, k) {
      var up := k + 1;
      assert FrameAt(se, k) && FrameAt(se, up);
    }
    forall k: nat ensures MarkAt(e.tuples, next, RemoveAt(ms, p), k) {
      var up := k + 1;
      assert MarkAt(e.tuples, se, ms, k) && MarkAt(e.tuples, se, ms, up);
    }
  }

  lemma {:induction false} SamePosition(frames: seq<Frame>, ms: seq<Mark>, name: string)
    requires |frames| == |ms|
    requires forall k :: 0 <= k < |ms| ==> frames[k].name == ms[k].name
    ensures Position(frames, name) == InnermostMark(ms, name)
  {
    if frames != [] && frames[|frames| - 1].name != name {
      SamePosition(frames[..|frames| - 1], ms[..|ms| - 1], name);
    }
  }

  lemma TrackedPosition(e: Engine, se: Session, ms: seq<Mark>, name: string)
    requires Tracked(e, se, ms)
    ensures Position(se.savepoints, name) == InnermostMark(ms, name)
  {
    forall k: nat | k < |ms| ensures se.savepoints[k].name == ms[k].name {
      assert MarkAt(e.tuples, se, ms, k);
    }
    SamePosition(se.savepoints, ms, name);
  }

  /** A transaction just begun: nothing done, nothing held. */
  lemma FreshTracked(e: Engine)
    requires Numbered(e)
    ensures Tracked(e.(nextXid := e.nextXid + 1), Session(e.nextXid, [], []), [])
    ensures Numbered(e.(nextXid := e.nextXid + 1))
    ensures ViewOf(e.tuples, e.nextXid) == View({}, {})
  {
    var f := e.(nextXid := e.nextXid + 1);
    forall id: TupleId ensures Held(f, e.nextXid, id) { assert Below(e, id); }
    forall id: TupleId ensures Below(f, id) { assert Below(e, id); }
    forall id: TupleId | id in e.tuples
      ensures !Own(e.tuples, e.nextXid, id) && !Dead(e.tuples, e.nextXid, id) { assert Below(e, id); }
  }

  // ------------------------------------------------------------- every step

  lemma BeginTracks(e: Engine, m: Marks, s: string)
    requires Tracks(e, m)
    ensures Tracks(Opened(e, s), if s in m then m else m[s := []])
  {
    var f := Opened(e, s);
    if s !in e.sessions {
      FreshTracked(e);
      var m' := m[s := []];
      forall r: string | r in f.sessions ensures Tracked(f, f.sessions[r], m'[r]) {
        if r == s {
          Reframe(e.(nextXid := e.nextXid + 1), f, f.sessions[r], m'[r]);
        } else {
          assert r in e.sessions;
          Reframe(e, f, f.sessions[r], m'[r]);
        }
      }
      forall id: TupleId ensures Below(f, id) { assert Below(e, id); }
    }
  }

  /** Closing one session, and ending its transaction, leaves the others. */
  lemma CloseTracks(e: Engine, m: Marks, s: string, xid: Xid, log: seq<UndoEntry>, commit: bool)
    requires Numbered(e) && Distinct(e) && Running(e, xid, log) && m.Keys == e.sessions.Keys
    requires forall r: string {:trigger r in e.sessions} ::
               r in e.sessions && r != s ==> Tracked(e, e.sessions[r], m[r]) && e.sessions[r].xid != xid
    ensures Tracks(Finish(Closed(e, s), xid, commit), map k | k in m && k != s :: m[k])
  {
    var f := Finish(Closed(e, s), xid, commit);
    forall r: string | r in f.sessions ensures Tracked(f, f.sessions[r], m[r]) {
      assert r in e.sessions;
      FinishTracked(e, xid, log, commit, e.sessions[r], m[r]);
      Reframe(Finish(e, xid, commit), f, f.sessions[r], m[r]);
    }
    forall id: TupleId ensures Below(f, id) { assert Below(e, id); }
  }

  lemma EndTracks(e: Engine, m: Marks, s: string, commit: bool)
    requires Tracks(e, m)
    ensures Tracks(EndOf(e, s, commit), map k | k in m && k != s :: m[k])
  {
    if s in e.sessions {
      CloseTracks(e, m, s, e.sessions[s].xid, e.sessions[s].undoLog, commit);
    } else {
      assert (map k | k in m && k != s :: m[k]) == m;
    }
  }

  /** Replacing one session by a tracked one, the others being tracked already. */
  lemma ReplaceTracks(e: Engine, m: Marks, s: string, se: Session, ms: seq<Mark>)
    requires Numbered(e) && Distinct(e) && m.Keys == e.sessions.Keys
    requires s in e.sessions && se.xid == e.sessions[s].xid && Tracked(e, se, ms)
    requires forall r: string {:trigger r in e.sessions} :: r in e.sessions && r != s ==>
        Tracked(e, e.sessions[r], m[r])
    ensures Tracks(WithSession(e, s, se), m[s := ms])
  {
    var f := WithSession(e, s, se);
    var m' := m[s := ms];
    forall r: string | r in f.sessions ensures Tracked(f, f.sessions[r], m'[r]) {
      if r == s { Reframe(e, f, se, ms); } else { assert r in e.sessions; Reframe(e, f, e.sessions[r], m[r]); }
    }
    forall id: TupleId ensures Below(f, id) { assert Below(e, id); }
  }

  lemma SavepointTracks(e: Engine, m: Marks, s: string, name: string)
    requires Tracks(e, m)
    ensures Tracks(SavepointOf(e, s, name), Remember(e, SavepointOf(e, s, name), m, Savepoint(s, name)))
  {
    BeginTracks(e, m, s);
    var o := Opened(e, s);
    var m' := if s in m then m else m[s := []];
    var se := o.sessions[s];
    if s !in e.sessions { FreshTracked(e); }
    PushTracked(o, se, m'[s], name);
    ReplaceTracks(o, m', s, Session(se.xid, se.savepoints + [Frame(name, |se.undoLog|)], se.undoLog),
                  m'[s] + [Mark(name, ViewOf(o.tuples, se.xid))]);
    assert Remember(e, SavepointOf(e, s, name), m, Savepoint(s, name))
        == m'[s := m'[s] + [Mark(name, ViewOf(o.tuples, se.xid))]];
  }

  lemma ReleaseTracks(e: Engine, m: Marks, s: string, name: string)
    requires Tracks(e, m)
    ensures Tracks(ReleaseOf(e, s, name), Remember(e, ReleaseOf(e, s, name), m, Release(s, name)))
  {
    if s in e.sessions {
      var se := e.sessions[s];
      TrackedPosition(e, se, m[s], name);
      var p := Position(se.savepoints, name);
      if p >= 0 {
        DropTracked(e, se, m[s], p);
        ReplaceTracks(e, m, s, Session(se.xid, RemoveAt(se.savepoints, p), se.undoLog), RemoveAt(m[s], p));
      }
    }
  }

  lemma UndoneTracks(e: Engine, m: Marks, s: string, es: seq<UndoEntry>)
    requires Tracks(e, m) && s in e.sessions
    ensures forall r: string {:trigger r in e.sessions} ::
      r in e.sessions && r != s ==> Tracked(Undoing(e, e.sessions[s].xid, es), e.sessions[r], m[r])
  {
    var se := e.sessions[s];
    forall r: string | r in e.sessions && r != s ensures Tracked(Undoing(e, se.xid, es), e.sessions[r], m[r]) {
      UndoOthers(e, se.xid, se.undoLog, es, e.sessions[r], m[r]);
    }
  }

  lemma RollbackTracks(e: Engine, m: Marks, s: string, name: string)
    requires Tracks(e, m)
    ensures Tracks(RollbackToOf(e, s, name), Remember(e, RollbackToOf(e, s, name), m, RollbackTo(s, name)))
  {
    if s in e.sessions {
      var se := e.sessions[s];
      TrackedPosition(e, se, m[s], name);
      var p := Position(se.savepoints, name);
      if p >= 0 {
        var f := Undoing(e, se.xid, Suffix(se, p));
        CutTracked(e, se, m[s], p);
        UndoneTracks(e, m, s, Suffix(se, p));
        ReplaceTracks(f, m, s, CutBack(se, p), m[s][..p + 1]);
      }
    }
  }

  lemma OpenDmlTracks(e: Engine, m: Marks, s: string, ws: seq<Write>)
    requires Tracks(e, m) && Legal(e, Dml(s, ws)) && s in e.sessions
    ensures Tracks(DmlOf(e, s, ws), Remember(e, DmlOf(e, s, ws), m, Dml(s, ws)))
  {
    var se := e.sessions[s];
    var r := RunWrites(e, se.xid, ws);
    SinceNothing(se);
    RunTracked(e, se, m[s], [], ws);
    forall k: string | k in e.sessions && k != s ensures Tracked(r.engine, e.sessions[k], m[k]) {
      RunOthers(e, se, m[s], [], ws, e.sessions[k], m[k]);
    }
    if r.ok {
      ReplaceTracks(r.engine, m, s, Logged(se, r.entries), m[s]);
      assert m[s := m[s]] == m;
    } else {
      CloseTracks(r.engine, m, s, se.xid, Logged(se, r.entries).undoLog, false);
    }
  }

  lemma SinceNothing(se: Session)
    requires FramesOk(se)
    ensures Since(se, [])
  {
    assert se.undoLog[|se.undoLog|..] == [];
    forall k | 0 <= k < |se.savepoints| ensures se.savepoints[k].start <= |se.undoLog| { assert FrameAt(se, k); }
  }

  lemma NothingClosed(e: Engine, m: Marks, s: string)
    requires s !in e.sessions && s !in m
    ensures Closed(e, s) == e && (map k | k in m && k != s :: m[k]) == m
  {
    assert (map k | k in m && k != s :: m[k]) == m;
    assert (map k | k in e.sessions && k != s :: e.sessions[k]) == e.sessions;
  }

  lemma AutoDmlTracks(e: Engine, m: Marks, s: string, ws: seq<Write>)
    requires Tracks(e, m) && Legal(e, Dml(s, ws)) && s !in e.sessions
    ensures Tracks(DmlOf(e, s, ws), m)
  {
    var b, se := e.(nextXid := e.nextXid + 1), Session(e.nextXid, [], []);
    var r := RunWrites(b, se.xid, ws);
    FreshTracked(e);
    SinceNothing(se);
    RunTracked(b, se, [], [], ws);
    forall k: string | k in e.sessions ensures Tracked(r.engine, e.sessions[k], m[k]) {
      Reframe(e, b, e.sessions[k], m[k]);
      RunOthers(b, se, [], [], ws, e.sessions[k], m[k]);
    }
    CloseTracks(r.engine, m, s, se.xid, Logged(se, r.entries).undoLog, r.ok);
    NothingClosed(r.engine, m, s);
  }

  /** Every statement of every session keeps the snapshots and the undo logs together. */
  lemma StepTracks(e: Engine, m: Marks, op: Op)
    requires Tracks(e, m) && Legal(e, op)
    ensures Tracks(Step(e, op), Remember(e, Step(e, op), m, op))
  {
    match op
    case Begin(s) => BeginTracks(e, m, s);
    case Commit(s) => EndTracks(e, m, s, true);
    case Rollback(s) => EndTracks(e, m, s, false);
    case Savepoint(s, name) => SavepointTracks(e, m, s, name);
    case RollbackTo(s, name) => RollbackTracks(e, m, s, name);
    case Release(s, name) => ReleaseTracks(e, m, s, name);
    case Dml(s, ws) => if s in e.sessions { OpenDmlTracks(e, m, s, ws); } else { AutoDmlTracks(e, m, s, ws); }
  }

  // --------------------------------------------------------------- the runs

  function Run(e: Engine, ops: seq<Op>): Engine
    decreases |ops|
  {
    if ops == [] then e else Run(Step(e, ops[0]), ops[1..])
  }

  predicate LegalRun(e: Engine, ops: seq<Op>)
    decreases |ops|
  {
    ops == [] || (Legal(e, ops[0]) && LegalRun(Step(e, ops[0]), ops[1..]))
  }

  function Recall(e: Engine, m: Marks, ops: seq<Op>): Marks
    decreases |ops|
  {
    if ops == [] then m
    else Recall(Step(e, ops[0]), Remember(e, Step(e, ops[0]), m, ops[0]), ops[1..])
  }

  lemma {:induction false} RunTracks(e: Engine, m: Marks, ops: seq<Op>)
    requires Tracks(e, m) && LegalRun(e, ops)
    ensures Tracks(Run(e, ops), Recall(e, m, ops))
    decreases |ops|
  {
    if ops != [] {
      StepTracks(e, m, ops[0]);
      RunTracks(Step(e, ops[0]), Remember(e, Step(e, ops[0]), m, ops[0]), ops[1..]);
    }
  }

  /**
   * The theorem.  Start from any heap with no session open and run any
   * statements of any sessions.  `ROLLBACK TO name` then succeeds exactly when
   * a savepoint of that name survives, and leaves the transaction's work as it
   * was when the innermost such savepoint was set; what is public stays.  So the
   * live tuples are those of that moment, but for what others committed since.
   */
  lemma RollbackRestores(e: Engine, ops: seq<Op>, s: string, name: string)
    requires Numbered(e) && e.sessions == map[] && LegalRun(e, ops)
    ensures Known(Run(e, ops), s, name) <==>
      (s in Recall(e, map[], ops) && InnermostMark(Recall(e, map[], ops)[s], name) >= 0)
    ensures Known(Run(e, ops), s, name) ==>
      var f := Run(e, ops);
      var g := Step(f, RollbackTo(s, name));
      var ms := Recall(e, map[], ops)[s];
      && ViewOf(g.tuples, f.sessions[s].xid) == ms[InnermostMark(ms, name)].view
      && (forall id: TupleId {:trigger Public(g, id)} :: Public(g, id) <==> Public(f, id))
    ensures Known(Run(e, ops), s, name) ==>
      var f := Run(e, ops);
      var g := Step(f, RollbackTo(s, name));
      var ms := Recall(e, map[], ops)[s];
      var mark := ms[InnermostMark(ms, name)].view;
      forall id: TupleId {:trigger Live(g, f.sessions[s].xid, id)} ::
        Live(g, f.sessions[s].xid, id) <==> (id in mark.added || (Public(f, id) && id !in mark.removed))
    ensures !Known(Run(e, ops), s, name) ==> Step(Run(e, ops), RollbackTo(s, name)) == Run(e, ops)
  {
    RunTracks(e, map[], ops);
    var f, m := Run(e, ops), Recall(e, map[], ops);
    if s in f.sessions {
      var se := f.sessions[s];
      TrackedPosition(f, se, m[s], name);
      if Known(f, s, name) {
        var p := Position(se.savepoints, name);
        assert MarkAt(f.tuples, se, m[s], p);
        RestoresMeans(f.tuples, se.xid, Suffix(se, p), m[s][p].view);
        var g := Step(f, RollbackTo(s, name));
        UndoRunning(f, se.xid, se.undoLog, Suffix(se, p));
        forall id: TupleId ensures Public(g, id) <==> Public(f, id) {
          UndoPublic(f, se.xid, se.undoLog, Suffix(se, p), id);
        }
        forall id: TupleId ensures Live(g, se.xid, id) <==>
            (id in m[s][p].view.added || (Public(f, id) && id !in m[s][p].view.removed)) {
          LiveByView(Undoing(f, se.xid, Suffix(se, p)), se.xid, se.undoLog, id);
          assert Public(g, id) <==> Public(f, id);
        }
      }
    }
  }

  /** Frames always lie within the log, oldest first. */
  lemma FramesInLog(e: Engine, ops: seq<Op>, s: string, i: nat, k: nat)
    requires Numbered(e) && e.sessions == map[] && LegalRun(e, ops) && s in Run(e, ops).sessions
    requires i <= k < |Run(e, ops).sessions[s].savepoints|
    ensures var se := Run(e, ops).sessions[s];
      se.savepoints[i].start <= se.savepoints[k].start <= |se.undoLog|
  {
    RunTracks(e, map[], ops);
    FramesOrdered(Run(e, ops).sessions[s], i, k);
  }

  /** At every point of a run a session sees the public tuples, less its deletes, plus its inserts. */
  lemma LiveInRun(e: Engine, ops: seq<Op>, s: string, id: TupleId)
    requires Numbered(e) && e.sessions == map[] && LegalRun(e, ops) && s in Run(e, ops).sessions
    ensures var f := Run(e, ops);
      var view := ViewOf(f.tuples, f.sessions[s].xid);
      Live(f, f.sessions[s].xid, id) <==> (id in view.added || (Public(f, id) && id !in view.removed))
  {
    RunTracks(e, map[], ops);
    var f := Run(e, ops);
    LiveByView(f, f.sessions[s].xid, f.sessions[s].undoLog, id);
  }
}
