/** Which transaction a rollback finds, at any point of any run, and when it brings back the state
    before the tip was connected (RollbackOnlineBlock and ReadConnectTransaction in src/forest.cpp). */
module UndoRuns {
  import opened Common
  import opened Records
  import opened Layering
  import opened Transactions
  import opened DeltaStore
  import opened Durability
  import opened CleanRecords
  import opened LogRecords
  import opened LogSteps
  import opened OnlineRuns

  // ---- what is found --------------------------------------------------------------------

  function Tip(s: Sys): Mark
    requires s.history != [] && LastSnap(s).marks != []
  { LastSnap(s).marks[|LastSnap(s).marks| - 1] }

  /** A connect in the log, good or left over, was made on top of a chain as long as its height. */
  lemma RecHeight(base: Base, history: seq<Snap>, log: seq<Tx>, recs: seq<Rec>, k: nat)
    requires Logged(base, history, log) && Recorded(base, history, log, recs) && k < |recs| && recs[k].tx.kind == CONNECT
    ensures base.lsn < recs[k].tx.lsn && recs[k].tx.lsn - base.lsn - 1 < |history|
    ensures var a := history[recs[k].tx.lsn - base.lsn - 1].state; |a.chain| == recs[k].tx.point.height && |base.chain| <= |a.chain|
  {
    hide StepTo, Sane, Logged, InOrder;
    assert RecOk(base, history, log, recs[k]);
    var i := recs[k].tx.lsn - base.lsn - 1;
    LoggedLength(base, history, log);
    if recs[k].failed {
      LoggedState(base, history, log, i);
      StepHeight(base, history[i], recs[k].tx, recs[k].after);
    } else {
      LoggedStep(base, history, log, i);
      LoggedState(base, history, log, i);
      StepHeight(base, history[i], recs[k].tx, history[i + 1]);
    }
  }

  lemma StepHeight(base: Base, a: Snap, tx: Tx, b: Snap)
    requires StepTo(base, a, tx, b) && tx.kind == CONNECT && Sane(base, a.state)
    ensures |a.state.chain| == tx.point.height && |base.chain| <= |a.state.chain|
  {
    hide Rewrites, CleanChanges, Images, LinksOk, RootsOk;
  }

  /** A retained connect of the tip's point was not written after the tip's own. */
  lemma NoLaterConnect(base: Base, s: Sys, k: nat)
    requires Inv(base, s) && k < |Recs(s)| && Recs(s)[k].tx.kind == CONNECT && Recs(s)[k].tx.point == s.m.point
    ensures s.history != [] && LastSnap(s).marks != [] && Recs(s)[k].tx.lsn <= Tip(s).tx.lsn
  {
    hide OnDisk, DurableOk, Current, StepTo, Logged, Recorded, Holds, UnloggedOk, Adjacent, NoneOpen, Trailing, Flat, Sane, Same, Links, Images, CleanChanges, MarkLinks;
    RecHeight(base, s.history, s.log, Recs(s), k);
    LastMarked(base, s);
    TipHeight(base, s);
    TipLinks(base, s);
    assert MarkStays(base, s.history, s.log, |s.history| - 1, Tip(s));
  }

  lemma TipHeight(base: Base, s: Sys)
    requires Inv(base, s)
    ensures s.m.point.height + 1 == |base.chain| + |LastSnap(s).marks|
  {
    hide OnDisk, DurableOk, LogHeld, MarkLinks, MarkStays, Similar, View, LinksOk, RootsOk;
    LastMarked(base, s);
  }

  /** A rollback that succeeds found the tip's own transaction, or an older connect of the same
      point while the tip's own is no longer retained. */
  lemma FoundIs(base: Base, s: Sys)
    requires Inv(base, s) && Found(s).Some?
    ensures s.history != [] && LastSnap(s).marks != []
    ensures var t, own := Found(s).value, Tip(s).tx;
            && t.kind == CONNECT && t.point == s.m.point == own.point && t.lsn <= own.lsn
            && (Has(Recs(s), own) ==> t == own)
  {
    hide Inv, LastConnect, Flat, Links, Images, CleanChanges, Sane;
    var txs := Txs(Recs(s));
    LastConnectIn(txs, s.m.point);
    var k :| 0 <= k < |txs| && txs[k] == Found(s).value;
    NoLaterConnect(base, s, k);
    TipLinks(base, s);
    if Has(Recs(s), Tip(s).tx) { OwnFound(base, s); }
  }

  lemma OwnFound(base: Base, s: Sys)
    requires Inv(base, s) && LastSnap(s).marks != [] && Has(Recs(s), Tip(s).tx)
    ensures Found(s) == Some(Tip(s).tx)
  {
    hide Inv, LastConnect, Flat, Links, Images, CleanChanges, Sane;
    TipLinks(base, s);
    var recs, txs := Recs(s), Txs(Recs(s));
    var k :| 0 <= k < |recs| && !recs[k].failed && recs[k].tx == Tip(s).tx;
    InvOrder(base, s);
    forall j | k < j < |txs| ensures !(txs[j].kind == CONNECT && txs[j].point == txs[k].point) {
      if txs[j].kind == CONNECT && txs[j].point == txs[k].point { NoLaterConnect(base, s, j); }
    }
    LastConnectAt(txs, k);
  }

  lemma InvOrder(base: Base, s: Sys)
    requires Inv(base, s)
    ensures InOrder(Recs(s))
  {
    hide OnDisk, DurableOk, Current, Logged, RecOk, Holds, UnloggedOk, Adjacent, NoneOpen, Trailing, Flat;
  }

  // ---- what it restores -----------------------------------------------------------------

  /** The record at `id` once the before-images of `t` are back. */
  function Back(l: Layers, t: Tx, id: NodeId): NodeRecord {
    var image := LastChange(Inverse(t.changes), id);
    if image.Some? then image.value else Read(l, id)
  }

  /** `t` puts back the same header and, up to free slots, the same records as `own` would. */
  ghost predicate Agrees(l: Layers, own: Tx, t: Tx) {
    && t.beforeLeaves == own.beforeLeaves && t.beforeNext == own.beforeNext && t.beforeRoots == own.beforeRoots
    && forall id: NodeId | id < own.beforeNext :: Alike(Back(l, t, id), Back(l, own, id))
  }

  /** The before-images of the tip's own transaction are the records before it. */
  lemma BackIs(m: Memory, a: State, own: Tx, id: NodeId)
    requires own.kind == CONNECT && Links(a, own, Logical(m).(lsn := own.lsn)) && Images(a, own) && own.beforeNext <= own.afterNext && InShape(a)
    requires id < a.next
    ensures id in a.view && Alike(Back(m.layers, own, id), a.view[id])
  {
    hide LastChange, Read, Inverse, ChainValid, Chained;
    InverseTouches(own.changes, id);
    if LastChange(Inverse(own.changes), id).Some? {
      var i := LastInverse(own.changes, id);
    } else {
      ViewAt(m.layers, m.next, id);
    }
  }

  lemma UndoneRead(m: Memory, t: Tx, id: NodeId)
    requires m.chain != []
    ensures Read(Undone(m, Reversal(m, t)).layers, id) == Back(m.layers, t, id)
  {
    hide LastChange, Read, Inverse, Overlay;
    OverlayRead(m.layers, Reversal(m, t).changes, id);
  }

  /** The state before the tip is back exactly when the transaction found agrees with the tip's own. */
  lemma RestoredIff(m: Memory, a: State, own: Tx, t: Tx)
    requires own.kind == CONNECT && Links(a, own, Logical(m).(lsn := own.lsn)) && Images(a, own) && own.beforeNext <= own.afterNext && InShape(a)
    requires |m.chain| >= 2 && ChainValid(m.point, m.chain, Reversal(m, t))
    ensures Same(Logical(Undone(m, Reversal(m, t))).(lsn := a.lsn), a) <==> Agrees(m.layers, own, t)
  {
    hide Back, Images, Rewrites, Read, Inverse, Overlay;
    var m' := Undone(m, Reversal(m, t));
    HeaderBack(m, a, own, t);
    forall id: NodeId | id < a.next
      ensures id in a.view && (Alike(Read(m'.layers, id), a.view[id]) <==> Alike(Back(m.layers, t, id), Back(m.layers, own, id)))
    {
      BackIs(m, a, own, id);
      UndoneRead(m, t, id);
    }
    if m'.next == a.next { ViewsBack(m', a); }
  }

  /** Point and chain are right in any case; the rest of the header is what `t` says. */
  lemma HeaderBack(m: Memory, a: State, own: Tx, t: Tx)
    requires own.kind == CONNECT && Links(a, own, Logical(m).(lsn := own.lsn)) && InShape(a)
    requires |m.chain| >= 2 && ChainValid(m.point, m.chain, Reversal(m, t))
    ensures var m' := Undone(m, Reversal(m, t));
            && m'.point == a.point && m'.chain == a.chain && m'.leaves == t.beforeLeaves && m'.next == t.beforeNext && m'.roots == t.beforeRoots
            && a.leaves == own.beforeLeaves && a.next == own.beforeNext && a.roots == own.beforeRoots
  {
    hide Rewrites, View, Overlay, Inverse;
    assert m.chain == a.chain + [own.point.hash];
    assert m.chain[..|m.chain| - 1] == a.chain;
  }

  lemma ViewsBack(m: Memory, a: State)
    requires m.next == a.next && InShape(a)
    ensures Similar(View(m.layers, m.next), a.view) <==> forall id: NodeId | id < a.next :: id in a.view && Alike(Read(m.layers, id), a.view[id])
  {
    hide Read, Alike;
    assert View(m.layers, m.next).Keys == a.view.Keys;
    forall id: NodeId | id < a.next ensures id in a.view && id in View(m.layers, m.next) && View(m.layers, m.next)[id] == Read(m.layers, id) {
      ViewAt(m.layers, m.next, id);
    }
  }

  /** In every state of the invariant: a rollback that succeeds found the tip's own transaction and
      restored the state before it, or an older connect of the same point whose own is not retained;
      then the state is restored if and only if the two agree. */
  lemma UndoExact(base: Base, s: Sys, m': Memory)
    requires Inv(base, s) && Rollback(s.m, Txs(Recs(s))) == Ok(m')
    ensures s.history != [] && LastSnap(s).marks != [] && Found(s).Some?
    ensures var t, own, before := Found(s).value, Tip(s).tx, Tip(s).before;
            && t.point == own.point && t.lsn <= own.lsn && (t == own || !Has(Recs(s), own))
            && (Same(Logical(m').(lsn := before.lsn), before) <==> t == own || Agrees(s.m.layers, own, t))
  {
    hide Inv, LastConnect, Flat, Links, Images, CleanChanges, Sane, Rollback, Same, Agrees, Has;
    RollbackIs(s.m, Txs(Recs(s)));
    FoundIs(base, s);
    TipLinks(base, s);
    SaneShape(base, Tip(s).before);
    RestoredIff(s.m, Tip(s).before, Tip(s).tx, Found(s).value);
    AgreesRefl(s.m.layers, Tip(s).tx);
  }

  /** At or above the pruning floor, a tip that was logged at all has its transaction retained. */
  lemma WindowRetained(base: Base, s: Sys)
    requires Inv(base, s) && LastSnap(s).marks != [] && s.m.point.height >= s.floor && Tip(s).tx.lsn !in s.unlogged
    ensures s.history != [] && Has(Recs(s), Tip(s).tx)
  {
    hide OnDisk, DurableOk, Current, Logged, Recorded, UnloggedOk, Adjacent, NoneOpen, Trailing, Flat, Sane, Same, Links, Images, CleanChanges, MarkLinks, Has;
    LastMarked(base, s);
    TipLinks(base, s);
    assert MarkStays(base, s.history, s.log, |s.history| - 1, Tip(s));
  }

  lemma AgreesRefl(l: Layers, t: Tx)
    ensures Agrees(l, t, t)
  {
    hide Back;
  }

  // ---- where the marks come from --------------------------------------------------------

  predicate ByStep(step: Step, tx: Tx) {
    match step
    case Connect(t, _) => t == tx
    case ConnectUnlogged(t) => t == tx
    case FailConnect(t, _, _) => t == tx
    case _ => false
  }

  /** The mark was made by an earlier step of the run. */
  ghost predicate Real(states: seq<Sys>, steps: seq<Step>, i: nat, mark: Mark)
    requires i <= |steps| && |states| == |steps| + 1
  {
    exists j :: 0 <= j < i && ByStep(steps[j], mark.tx) && mark.before == Logical(states[j].m)
  }

  /** The state was that of the running store, or the one a failed append would have led to. */
  ghost predicate Seen(states: seq<Sys>, steps: seq<Step>, i: nat, state: State)
    requires i <= |steps| && |states| == |steps| + 1
  {
    || (exists j :: 0 <= j <= i && state == Logical(states[j].m))
    || (exists j :: 0 <= j < i && (steps[j].FailConnect? || steps[j].FailDisconnect?) && state == Logical(steps[j].after))
  }

  /** In the history, or behind a record of the log. */
  ghost predicate Known(s: Sys, snap: Snap) { snap in s.history || exists r :: r in Recs(s) && r.after == snap }

  ghost predicate RealSnap(states: seq<Sys>, steps: seq<Step>, i: nat, snap: Snap)
    requires i <= |steps| && |states| == |steps| + 1
  {
    Seen(states, steps, i, snap.state) && forall k | 0 <= k < |snap.marks| :: Real(states, steps, i, snap.marks[k])
  }

  lemma RealLater(states: seq<Sys>, steps: seq<Step>, i: nat, snap: Snap)
    requires i < |steps| && |states| == |steps| + 1 && RealSnap(states, steps, i, snap)
    ensures RealSnap(states, steps, i + 1, snap)
  {
    forall k | 0 <= k < |snap.marks| ensures Real(states, steps, i + 1, snap.marks[k]) {
      assert Real(states, steps, i, snap.marks[k]);
      var j :| 0 <= j < i && ByStep(steps[j], snap.marks[k].tx) && snap.marks[k].before == Logical(states[j].m);
    }
  }

  /** What a step adds to what is known. */
  ghost predicate Fresh(s: Sys, step: Step, s': Sys, snap: Snap)
    requires s.history != []
  {
    match step
    case Connect(tx, _) => snap == Pushed(s, tx, s'.m)
    case ConnectUnlogged(tx) => snap == Pushed(s, tx, s'.m)
    case FailConnect(tx, m', _) => snap == Pushed(s, tx, m')
    case Disconnect(_) => snap == PoppedTo(s, s'.m)
    case FailDisconnect(m', _) => snap == PoppedTo(s, m')
    case _ => false
  }

  lemma KnownStep(base: Base, depth: nat, s: Sys, step: Step, s': Sys, snap: Snap)
    requires Next(base, depth, s, step, s') && Known(s', snap)
    ensures Known(s, snap) || Fresh(s, step, s', snap)
  {
    hide Connects, Disconnects, Logical, Flat, LastConnect, Writable, FileOk, SealFile, SnapshotFile, Recover, Cut, Adopted, PastStates, PastLog, Appended, CutAllowed;
    match step
    case Connect(tx, newSegment) => FlatAppended(s.wal, Rec(tx, false, Pushed(s, tx, s'.m)), newSegment);
    case FailConnect(tx, m', newSegment) => FlatAppended(s.wal, Rec(tx, true, Pushed(s, tx, m')), newSegment);
    case Disconnect(newSegment) =>
      FoundSome(s, s'.m);
      FlatAppended(s.wal, Rec(Undoing(s), false, PoppedTo(s, s'.m)), newSegment);
    case FailDisconnect(m', newSegment) =>
      FoundSome(s, m');
      FlatAppended(s.wal, Rec(Undoing(s), true, PoppedTo(s, m')), newSegment);
    case Prune(i, _) => var before, after := FlatRemoved(s.wal, i);
    case Crash(keep, _) => KnownCrash(base, s, keep, s', snap);
    case _ =>
  }

  lemma KnownCrash(base: Base, s: Sys, keep: nat, s': Sys, snap: Snap)
    requires s'.wal == Adopted(Cut(s.wal, keep), s.m.durableLsn) && Known(s', snap)
    requires s'.history == PastStates(base, s.history, s.m.durableLsn, Flat(Cut(s.wal, keep)))
    ensures Known(s, snap)
  {
    hide Cut, Flat, Adopted;
    var kept := Flat(Cut(s.wal, keep));
    FlatCut(s.wal, keep);
    FlatAdopted(Cut(s.wal, keep), s.m.durableLsn);
    assert forall k | 0 <= k < |kept| :: kept[k] == Recs(s)[k];
    if snap !in s'.history {
      var r :| r in Recs(s') && r.after == snap;
      var k :| 0 <= k < |kept| && Recs(s')[k] == r;
      assert Recs(s)[k].after == snap;
    }
  }

  lemma FreshReal(base: Base, depth: nat, states: seq<Sys>, steps: seq<Step>, i: nat, snap: Snap)
    requires |states| == |steps| + 1 && i < |steps| && states[i].history != [] && RealSnap(states, steps, i, LastSnap(states[i]))
    requires Fresh(states[i], steps[i], states[i + 1], snap)
    ensures RealSnap(states, steps, i + 1, snap)
  {
    hide Logical;
    var last := LastSnap(states[i]);
    RealLater(states, steps, i, last);
    forall k | 0 <= k < |snap.marks| ensures Real(states, steps, i + 1, snap.marks[k]) {
      if k < |last.marks| { assert snap.marks[k] == last.marks[k]; }
    }
  }

  /** Every state in the history, and behind every record, is one the store was in or one that a
      failed append would have led to; every mark was made by a step of the run. */
  lemma {:induction false} HistoryIsReal(base: Base, depth: nat, states: seq<Sys>, steps: seq<Step>, i: nat, snap: Snap)
    requires IsRun(base, depth, states, steps) && i < |states| && Known(states[i], snap)
    ensures RealSnap(states, steps, i, snap)
    decreases i
  {
    hide Next, RealSnap, Known, Fresh;
    if i == 0 {
      StartReal(base, states, steps, snap);
    } else {
      assert Next(base, depth, states[i - 1], steps[i - 1], states[i]);
      NextStarts(base, depth, states[i - 1], steps[i - 1], states[i]);
      KnownStep(base, depth, states[i - 1], steps[i - 1], states[i], snap);
      if Known(states[i - 1], snap) {
        HistoryIsReal(base, depth, states, steps, i - 1, snap);
        RealLater(states, steps, i - 1, snap);
      } else {
        HistoryIsReal(base, depth, states, steps, i - 1, LastSnap(states[i - 1]));
        FreshReal(base, depth, states, steps, i - 1, snap);
      }
    }
  }

  lemma NextStarts(base: Base, depth: nat, s: Sys, step: Step, s': Sys)
    requires Next(base, depth, s, step, s')
    ensures s.history != [] && Known(s, LastSnap(s))
  {}

  lemma StartReal(base: Base, states: seq<Sys>, steps: seq<Step>, snap: Snap)
    requires |states| == |steps| + 1 && Init(base, states[0]) && Known(states[0], snap)
    ensures RealSnap(states, steps, 0, snap)
  {
    hide Logical, BaseOk, CleanLayers;
    assert Recs(states[0]) == [];
    assert snap.state == Logical(states[0].m) && snap.marks == [];
  }

  /** At every point of every run, for every tip: a rollback that succeeds found either the tip's
      own transaction, and the state in which that block was connected is back; or an older connect
      of the same point, the tip's own being no longer retained, and that state is back if and only
      if the two transactions agree. */
  lemma UndoSafety(base: Base, depth: nat, states: seq<Sys>, steps: seq<Step>, i: nat, m': Memory) returns (j: nat)
    requires IsRun(base, depth, states, steps) && i < |states| && Rollback(states[i].m, Txs(Recs(states[i]))) == Ok(m')
    ensures states[i].history != [] && LastSnap(states[i]).marks != [] && Found(states[i]).Some?
    ensures j < i && ByStep(steps[j], Tip(states[i]).tx) && Tip(states[i]).tx.point == states[i].m.point
    ensures var t, own, before := Found(states[i]).value, Tip(states[i]).tx, Logical(states[j].m);
            && t.point == own.point && t.lsn <= own.lsn && (t == own || !Has(Recs(states[i]), own))
            && (Same(Logical(m').(lsn := before.lsn), before) <==> t == own || Agrees(states[i].m.layers, own, t))
  {
    hide Next, Init, Same, Logical, Rollback, Flat, Inv, Links, LastConnect, Agrees, Has, Known, Sane, Images, CleanChanges;
    var s := states[i];
    RunKeeps(base, depth, states, steps, i);
    UndoExact(base, s, m');
    TipLinks(base, s);
    KnownLast(s);
    HistoryIsReal(base, depth, states, steps, i, LastSnap(s));
    assert Real(states, steps, i, LastSnap(s).marks[|LastSnap(s).marks| - 1]);
    j :| 0 <= j < i && ByStep(steps[j], Tip(s).tx) && Tip(s).before == Logical(states[j].m);
  }

  lemma KnownLast(s: Sys)
    requires s.history != []
    ensures Known(s, LastSnap(s))
  {}

  /** At every point of every run: a tip at or above the pruning floor that was logged at all is
      restored by every rollback that succeeds. */
  lemma WindowUndo(base: Base, depth: nat, states: seq<Sys>, steps: seq<Step>, i: nat, m': Memory) returns (j: nat)
    requires IsRun(base, depth, states, steps) && i < |states| && Rollback(states[i].m, Txs(Recs(states[i]))) == Ok(m')
    requires states[i].m.point.height >= states[i].floor
    requires states[i].history != [] && LastSnap(states[i]).marks != [] && Tip(states[i]).tx.lsn !in states[i].unlogged
    ensures j < i && ByStep(steps[j], Tip(states[i]).tx) && Tip(states[i]).tx.point == states[i].m.point
    ensures var before := Logical(states[j].m); Same(Logical(m').(lsn := before.lsn), before)
  {
    hide Next, Init, Same, Logical, Rollback, Flat, Inv, LastConnect, Agrees, Has, ByStep;
    RunKeeps(base, depth, states, steps, i);
    WindowRetained(base, states[i]);
    j := UndoSafety(base, depth, states, steps, i, m');
  }
}
