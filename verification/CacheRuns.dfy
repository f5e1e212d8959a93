/** Every run after a startup cache was saved is a sequence of the moves that keep the cache good: so at
    every point of it, starting from the cache is exact (LoadValidatedStartupCache in src/forest.cpp). */
module CacheRuns {
  import opened Common
  import opened Records
  import opened Ordered
  import opened Layering
  import opened Transactions
  import opened DeltaStore
  import opened Durability
  import opened LogRecords
  import opened LogSteps
  import opened OnlineRuns
  import opened UndoRuns
  import opened StartupCache
  import ForestState
  import GenuineRuns
  import SameBlocks
  import Blocks
  import CleanRecords
  import LeafTable
  import DeltaRuns
  import RunMerge

  // ---- sequences of moves ---------------------------------------------------------------

  ghost predicate Chain(cache: Cache, stores: seq<Store>) { stores != [] && forall k | 0 <= k < |stores| - 1 :: Moves(cache, stores[k], stores[k + 1]) }

  ghost predicate Leads(cache: Cache, a: Store, b: Store) { exists stores :: Chain(cache, stores) && stores[0] == a && stores[|stores| - 1] == b }

  lemma LeadsNowhere(cache: Cache, a: Store)
    ensures Leads(cache, a, a)
  {
    hide Moves;
    assert Chain(cache, [a]);
  }

  lemma LeadsOn(cache: Cache, a: Store, b: Store, c: Store)
    requires Leads(cache, a, b) && Moves(cache, b, c)
    ensures Leads(cache, a, c)
  {
    hide Moves;
    var stores :| Chain(cache, stores) && stores[0] == a && stores[|stores| - 1] == b;
    var more := stores + [c];
    forall k | 0 <= k < |more| - 1 ensures Moves(cache, more[k], more[k + 1]) {
      if k < |stores| - 1 { assert more[k] == stores[k] && more[k + 1] == stores[k + 1]; } else { assert more[k] == b && more[k + 1] == c; }
    }
    assert Chain(cache, more) && more[0] == a && more[|more| - 1] == c;
  }

  lemma {:induction false} LeadsThrough(cache: Cache, a: Store, b: Store, stores: seq<Store>, k: nat)
    requires Leads(cache, a, b) && Chain(cache, stores) && stores[0] == b && k < |stores|
    ensures Leads(cache, a, stores[k])
    decreases k
  {
    hide Moves, Leads;
    if k > 0 {
      LeadsThrough(cache, a, b, stores, k - 1);
      assert Moves(cache, stores[k - 1], stores[k - 1 + 1]);
      LeadsOn(cache, a, stores[k - 1], stores[k]);
    }
  }

  lemma LeadsBoth(cache: Cache, a: Store, b: Store, c: Store)
    requires Leads(cache, a, b) && Leads(cache, b, c)
    ensures Leads(cache, a, c)
  {
    hide Moves;
    var stores :| Chain(cache, stores) && stores[0] == b && stores[|stores| - 1] == c;
    LeadsThrough(cache, a, b, stores, |stores| - 1);
  }

  // ---- a transaction as moves -----------------------------------------------------------

  function StoreOf(m: Memory): Store { Store(m.layers, m.next) }

  /** A connect lists its ids in order, every new one among them; a disconnect lists ids that exist. */
  ghost predicate Movable(tx: Tx) {
    && (tx.kind == CONNECT ==> StrictlySorted(Blocks.IdsOf(tx.changes)) && Blocks.Touches(tx) && tx.beforeNext <= tx.afterNext)
    && (tx.kind == DISCONNECT ==> (forall i | 0 <= i < |tx.changes| :: tx.changes[i].id < tx.beforeNext) && tx.afterNext <= tx.beforeNext)
  }

  /** The end of the arena after the first k changes. */
  function EndAfter(tx: Tx, k: nat): nat
    requires k <= |tx.changes|
  { if k > 0 && tx.changes[k - 1].id >= tx.beforeNext then tx.changes[k - 1].id + 1 else tx.beforeNext }

  lemma NextWrite(tx: Tx, k: nat)
    requires tx.kind == CONNECT && Movable(tx) && k < |tx.changes|
    ensures tx.changes[k].id <= EndAfter(tx, k) && EndAfter(tx, k + 1) == if tx.changes[k].id < EndAfter(tx, k) then EndAfter(tx, k) else EndAfter(tx, k) + 1
  {
    var ids := Blocks.IdsOf(tx.changes);
    assert k > 0 ==> ids[k - 1] < ids[k];
    if ids[k] > tx.beforeNext {
      var x := ids[k] - 1;
      assert x in ids;
      var j :| 0 <= j < |ids| && ids[j] == x;
      assert j == k - 1;
    }
  }

  lemma LastWrite(tx: Tx)
    requires tx.kind == CONNECT && Movable(tx)
    ensures EndAfter(tx, |tx.changes|) == tx.afterNext
  {
    var ids := Blocks.IdsOf(tx.changes);
    var n := |ids|;
    if tx.afterNext > tx.beforeNext {
      var last := tx.afterNext - 1;
      assert last in ids;
      var j :| 0 <= j < n && ids[j] == last;
    }
  }

  lemma {:induction false} ConnectWrites(cache: Cache, l: Layers, tx: Tx, k: nat)
    requires tx.kind == CONNECT && Movable(tx) && k <= |tx.changes|
    ensures Leads(cache, Store(l, tx.beforeNext), Store(l.(dirty := Overlay(l.dirty, tx.changes[..k])), EndAfter(tx, k)))
    decreases k
  {
    hide Leads, Movable, Moves, EndAfter;
    if k == 0 {
      EndNone(tx);
      assert tx.changes[..0] == [] && l.(dirty := Overlay(l.dirty, [])) == l;
      LeadsNowhere(cache, Store(l, tx.beforeNext));
    } else {
      ConnectWrites(cache, l, tx, k - 1);
      NextWrite(tx, k - 1);
      var b := Store(l.(dirty := Overlay(l.dirty, tx.changes[..k - 1])), EndAfter(tx, k - 1));
      var c := tx.changes[k - 1];
      assert tx.changes[..k][..k - 1] == tx.changes[..k - 1];
      var next := Store(Written(b.l, c.id, c.after), if c.id < b.n then b.n else b.n + 1);
      WriteMoves(cache, b, c.id, c.after);
      LeadsOn(cache, Store(l, tx.beforeNext), b, next);
    }
  }

  lemma EndNone(tx: Tx)
    ensures EndAfter(tx, 0) == tx.beforeNext
  {}

  lemma WriteMoves(cache: Cache, b: Store, id: NodeId, record: NodeRecord)
    requires id <= b.n
    ensures Moves(cache, b, Store(Written(b.l, id, record), if id < b.n then b.n else b.n + 1))
  {}

  lemma {:induction false} DisconnectWrites(cache: Cache, l: Layers, tx: Tx, k: nat)
    requires tx.kind == DISCONNECT && Movable(tx) && k <= |tx.changes|
    ensures Leads(cache, Store(l, tx.beforeNext), Store(l.(dirty := Overlay(l.dirty, tx.changes[..k])), tx.beforeNext))
    decreases k
  {
    hide Leads, Moves;
    if k == 0 {
      assert tx.changes[..0] == [] && l.(dirty := Overlay(l.dirty, [])) == l;
      LeadsNowhere(cache, Store(l, tx.beforeNext));
    } else {
      DisconnectWrites(cache, l, tx, k - 1);
      var b := Store(l.(dirty := Overlay(l.dirty, tx.changes[..k - 1])), tx.beforeNext);
      var c := tx.changes[k - 1];
      assert tx.changes[..k][..k - 1] == tx.changes[..k - 1];
      WriteMoves(cache, b, c.id, c.after);
      LeadsOn(cache, Store(l, tx.beforeNext), b, Store(Written(b.l, c.id, c.after), b.n));
    }
  }

  /** Writing what a transaction lists, and moving the end, is a sequence of moves. */
  lemma TxMoves(cache: Cache, l: Layers, tx: Tx)
    requires Movable(tx)
    ensures Leads(cache, Store(l, tx.beforeNext), Store(l.(dirty := Overlay(l.dirty, tx.changes)), tx.afterNext))
  {
    hide Leads, Moves, Movable, Overlay;
    var n := |tx.changes|;
    assert tx.changes[..n] == tx.changes;
    if tx.kind == CONNECT {
      ConnectWrites(cache, l, tx, n);
      LastWrite(tx);
    } else {
      DisconnectWrites(cache, l, tx, n);
      var b := Store(l.(dirty := Overlay(l.dirty, tx.changes)), tx.beforeNext);
      ShrinkMoves(cache, b, tx);
      LeadsOn(cache, Store(l, tx.beforeNext), b, b.(n := tx.afterNext));
    }
  }

  lemma ShrinkMoves(cache: Cache, b: Store, tx: Tx)
    requires Movable(tx) && tx.kind == DISCONNECT && b.n == tx.beforeNext
    ensures Moves(cache, b, b.(n := tx.afterNext))
  {}

  // ---- the transactions of a run --------------------------------------------------------

  lemma BlockMovable(m: Memory, tx: Tx, m': Memory)
    requires Blocks.Block(m, tx, m')
    ensures Movable(tx) && tx.kind == CONNECT && tx.beforeNext == m.next && tx.afterNext == m'.next && m'.layers == m.layers.(dirty := Overlay(m.layers.dirty, tx.changes))
  {
    hide Images, Rewrites, CleanRecords.CleanLayers, CleanChanges, Read, Overlay, ChainValid;
  }

  lemma ReversalMovable(m: Memory, t: Tx)
    requires Movable(t) && t.kind == CONNECT
    ensures Movable(Reversal(m, t))
  {}

  /** The block that a connecting step made is movable. */
  lemma StepMovable(parentHash: Combine, base: Base, rows: seq<ForestState.Row>, blocks: Point -> GenuineRuns.BlockInfo, states: seq<Sys>, steps: seq<Step>, j: nat, tx: Tx)
    requires GenuineRuns.GenuineRun(parentHash, base, rows, blocks, states, steps) && j < |steps| && ByStep(steps[j], tx)
    ensures Movable(tx) && tx.kind == CONNECT && Blocks.Block(states[j].m, tx, GenuineRuns.Outcome(steps[j], states[j + 1]))
  {
    hide Blocks.Block, Blocks.Holds, GenuineRuns.PlainDistinct, Movable, Logical, Injective;
    assert GenuineRuns.Connecting(steps[j]) && steps[j].tx == tx;
    var m, m' := states[j].m, GenuineRuns.Outcome(steps[j], states[j + 1]);
    var r, r', dead :| GenuineRuns.GenuineBy(parentHash, blocks, m, tx, m', r, r', dead);
    BlockMovable(m, tx, m');
  }

  /** So is the transaction that connected the tip. */
  lemma TipMovable(parentHash: Combine, base: Base, depth: nat, rows: seq<ForestState.Row>, blocks: Point -> GenuineRuns.BlockInfo, states: seq<Sys>, steps: seq<Step>, i: nat)
    requires IsRun(base, depth, states, steps) && GenuineRuns.GenuineRun(parentHash, base, rows, blocks, states, steps) && i < |states|
    requires states[i].history != [] && LastSnap(states[i]).marks != []
    ensures Movable(Tip(states[i]).tx) && Tip(states[i]).tx.kind == CONNECT
  {
    hide Next, Init, GenuineRuns.GenuineRun, Movable, RealSnap, Known, Logical, ByStep, Blocks.Block;
    var s := states[i];
    KnownLast(s);
    HistoryIsReal(base, depth, states, steps, i, LastSnap(s));
    GenuineRuns.RealMark(states, steps, i, LastSnap(s), |LastSnap(s).marks| - 1);
    var k :| 0 <= k < i && ByStep(steps[k], Tip(s).tx) && Tip(s).before == Logical(states[k].m);
    StepMovable(parentHash, base, rows, blocks, states, steps, k, Tip(s).tx);
  }

  /** What a rollback logs is the reversal of the tip's own transaction. */
  lemma UndoingMovable(parentHash: Combine, base: Base, depth: nat, rows: seq<ForestState.Row>, blocks: Point -> GenuineRuns.BlockInfo, states: seq<Sys>, steps: seq<Step>, i: nat, m': Memory)
    requires IsRun(base, depth, states, steps) && GenuineRuns.GenuineRun(parentHash, base, rows, blocks, states, steps) && i < |states|
    requires states[i].history != [] && Disconnects(states[i], m')
    ensures Found(states[i]).Some? && Movable(Undoing(states[i])) && Undoing(states[i]).kind == DISCONNECT
  {
    hide Next, Init, GenuineRuns.GenuineRun, Movable, Rollback, LastConnect, Flat;
    TipMovable(parentHash, base, depth, rows, blocks, states, steps, i);
    ReversalMovable(states[i].m, Tip(states[i]).tx);
  }

  /** Every record of the log is movable. */
  lemma {:induction false} RecMovable(parentHash: Combine, base: Base, depth: nat, rows: seq<ForestState.Row>, blocks: Point -> GenuineRuns.BlockInfo, states: seq<Sys>, steps: seq<Step>, i: nat, r: Rec)
    requires IsRun(base, depth, states, steps) && GenuineRuns.GenuineRun(parentHash, base, rows, blocks, states, steps) && i < |states| && r in Recs(states[i])
    ensures Movable(r.tx)
    decreases i
  {
    hide Next, Init, GenuineRuns.GenuineRun, Movable, Recs;
    if i == 0 {
      GenuineRuns.NoRecords(base, states[0]);
    } else {
      assert Next(base, depth, states[i - 1], steps[i - 1], states[i]);
      RecOrigin(base, depth, states[i - 1], steps[i - 1], states[i], r);
      if ByStep(steps[i - 1], r.tx) {
        StepMovable(parentHash, base, rows, blocks, states, steps, i - 1, r.tx);
      } else if OnUndo(states[i - 1], steps[i - 1], states[i], r.tx) {
        NextStarts(base, depth, states[i - 1], steps[i - 1], states[i]);
        UndoneBy(parentHash, base, depth, rows, blocks, states, steps, i - 1, r.tx);
      } else {
        var r0 :| r0 in Recs(states[i - 1]) && r0.tx == r.tx;
        RecMovable(parentHash, base, depth, rows, blocks, states, steps, i - 1, r0);
      }
    }
  }

  /** The step logged a rollback. */
  ghost predicate OnUndo(s: Sys, step: Step, s': Sys, tx: Tx) {
    s.history != [] && Found(s).Some? && tx == Undoing(s)
    && ((step.Disconnect? && Disconnects(s, s'.m)) || (step.FailDisconnect? && Disconnects(s, step.after)))
  }

  lemma UndoneBy(parentHash: Combine, base: Base, depth: nat, rows: seq<ForestState.Row>, blocks: Point -> GenuineRuns.BlockInfo, states: seq<Sys>, steps: seq<Step>, i: nat, tx: Tx)
    requires IsRun(base, depth, states, steps) && GenuineRuns.GenuineRun(parentHash, base, rows, blocks, states, steps) && i < |steps|
    requires OnUndo(states[i], steps[i], states[i + 1], tx)
    ensures Movable(tx)
  {
    hide Next, Init, GenuineRuns.GenuineRun, Movable, Disconnects, Found;
    UndoingMovable(parentHash, base, depth, rows, blocks, states, steps, i, if steps[i].Disconnect? then states[i + 1].m else steps[i].after);
  }

  lemma RecOrigin(base: Base, depth: nat, s: Sys, step: Step, s': Sys, r: Rec)
    requires Next(base, depth, s, step, s') && r in Recs(s')
    ensures ByStep(step, r.tx) || OnUndo(s, step, s', r.tx) || exists r0 :: r0 in Recs(s) && r0.tx == r.tx
  {
    hide Connects, Disconnects, Logical, Flat, LastConnect, Writable, FileOk, SealFile, SnapshotFile, Recover, Cut, Adopted, PastStates, PastLog, Appended, CutAllowed;
    match step
    case Connect(tx, newSegment) => FlatAppended(s.wal, Rec(tx, false, Pushed(s, tx, s'.m)), newSegment);
    case FailConnect(tx, m', newSegment) => FlatAppended(s.wal, Rec(tx, true, Pushed(s, tx, m')), newSegment);
    case Disconnect(newSegment) =>
      FoundSome(s, s'.m);
      FlatAppended(s.wal, Rec(Undoing(s), false, PoppedTo(s, s'.m)), newSegment);
    case FailDisconnect(m', newSegment) =>
      FoundSome(s, m');
      FlatAppended(s.wal, Rec(Undoing(s), true, PoppedTo(s, m')), newSegment);
    case Prune(i, _) => var before, after := FlatRemoved(s.wal, i);
    case Crash(keep, _) => GenuineRuns.RecCrash(s, keep, s', r);
    case _ =>
  }

  // ---- replay ---------------------------------------------------------------------------

  lemma RedoMoves(cache: Cache, m: Memory, state: State, tx: Tx, b: State)
    requires Same(Logical(m), state) && Links(state, tx, b) && Redo(m, tx).Ok? && Movable(tx)
    ensures Leads(cache, StoreOf(m), StoreOf(Redo(m, tx).value))
  {
    hide Leads, Movable, Overlay, Rewrites, View, ChainValid, Chained;
    if tx.lsn <= m.durableLsn { LeadsNowhere(cache, StoreOf(m)); } else { TxMoves(cache, m.layers, tx); }
  }

  lemma SkipMoves(cache: Cache, m: Memory, tx: Tx)
    requires tx.lsn <= m.durableLsn
    ensures Redo(m, tx) == Ok(m) && Leads(cache, StoreOf(m), StoreOf(m))
  {
    LeadsNowhere(cache, StoreOf(m));
  }

  ghost predicate AllMovable(recs: seq<Rec>) { forall k | 0 <= k < |recs| :: Movable(recs[k].tx) }

  lemma {:induction false} PrefixMoves(cache: Cache, base: Base, d: Memory, history: seq<Snap>, log: seq<Tx>, unlogged: set<nat>, floor: nat, recs: seq<Rec>, j: nat)
    requires LogOk(base, history, log, unlogged, d.durableLsn, floor, recs) && j <= |recs| && NoneOpen(recs[..j], d.durableLsn) && Starts(base, d, history) && AllMovable(recs)
    ensures RedoAll(d, Txs(recs[..j])).Ok? && Leads(cache, StoreOf(d), StoreOf(RedoAll(d, Txs(recs[..j])).value))
    decreases j
  {
    hide Replayed, Redo, LogOk, NoneOpen, StepTo, Leads, Movable;
    RedoPrefix(base, d, history, log, unlogged, floor, recs, j);
    if j == 0 {
      assert recs[..0] == [] && Txs([]) == [];
      LeadsNowhere(cache, StoreOf(d));
    } else {
      NoneOpenPrefix(recs, d.durableLsn, j);
      PrefixMoves(cache, base, d, history, log, unlogged, floor, recs, j - 1);
      RedoPrefix(base, d, history, log, unlogged, floor, recs, j - 1);
      RedoSnoc(d, recs, j - 1);
      var m := RedoAll(d, Txs(recs[..j - 1])).value;
      var r, a := recs[j - 1], history[Reach(d.durableLsn, recs[..j - 1]) - base.lsn].state;
      ReplayedLsn(base, d, m, a);
      if r.tx.lsn > d.durableLsn {
        GoodStep(base, history, log, unlogged, d.durableLsn, floor, recs, j - 1);
        OneMoves(cache, base, d, m, history[r.tx.lsn - base.lsn - 1], r.tx, history[r.tx.lsn - base.lsn]);
        LeadsBoth(cache, StoreOf(d), StoreOf(m), StoreOf(Redo(m, r.tx).value));
      } else {
        SkipMoves(cache, m, r.tx);
      }
    }
  }

  lemma OneMoves(cache: Cache, base: Base, d: Memory, m: Memory, a: Snap, tx: Tx, b: Snap)
    requires Replayed(base, d, m, a.state) && StepTo(base, a, tx, b) && tx.lsn > d.durableLsn && Movable(tx)
    ensures Redo(m, tx).Ok? && Leads(cache, StoreOf(m), StoreOf(Redo(m, tx).value))
  {
    hide Leads, Movable, Links, Sane, CleanChanges, Redo, Same, Logical;
    ReplayStep(base, d, m, a, tx, b);
    RedoMoves(cache, m, a.state, tx, b.state);
  }

  /** Replaying what a crash left is a sequence of moves from the last publication. */
  lemma ReplayMoves(cache: Cache, base: Base, d: Memory, history: seq<Snap>, log: seq<Tx>, unlogged: set<nat>, floor: nat, recs: seq<Rec>, kept: seq<Rec>)
    requires LogOk(base, history, log, unlogged, d.durableLsn, floor, recs) && Starts(base, d, history) && kept <= recs && AllMovable(recs) && Healthy(kept, d.durableLsn)
    ensures RedoAll(d, Txs(kept)).Ok? && Leads(cache, StoreOf(d), StoreOf(RedoAll(d, Txs(kept)).value))
  {
    hide Replayed, Redo, LogOk, RedoAll, Starts, Open, Leads, Movable, StepTo;
    var n := |kept|;
    assert recs[..n] == kept;
    HealthyPrefix(recs, kept, d.durableLsn);
    if n > 0 && Open(kept[n - 1], d.durableLsn) {
      PrefixMoves(cache, base, d, history, log, unlogged, floor, recs, n - 1);
      RedoPrefix(base, d, history, log, unlogged, floor, recs, n - 1);
      StartsAbove(base, d, history);
      LeftoverStep(base, history, log, unlogged, d.durableLsn, floor, recs, n - 1);
      OpenAbove(recs[n - 1], d.durableLsn);
      RedoSnoc(d, recs, n - 1);
      var m := RedoAll(d, Txs(recs[..n - 1])).value;
      OneMoves(cache, base, d, m, history[recs[n - 1].tx.lsn - base.lsn - 1], recs[n - 1].tx, recs[n - 1].after);
      LeadsBoth(cache, StoreOf(d), StoreOf(m), StoreOf(Redo(m, recs[n - 1].tx).value));
    } else {
      HealthyNone(kept, d.durableLsn);
      PrefixMoves(cache, base, d, history, log, unlogged, floor, recs, n);
    }
  }

  // ---- every step -----------------------------------------------------------------------

  /** A compaction takes the anchor's runs away, unless the cache is anchored at the base itself. */
  ghost predicate Anchored(base: Base, cache: Cache, step: Step) { step.CompactRuns? ==> cache.runs == 0 && cache.next == |base.records| }

  lemma ConnectStepMoves(cache: Cache, parentHash: Combine, base: Base, depth: nat, rows: seq<ForestState.Row>, blocks: Point -> GenuineRuns.BlockInfo, states: seq<Sys>, steps: seq<Step>, i: nat)
    requires IsRun(base, depth, states, steps) && GenuineRuns.GenuineRun(parentHash, base, rows, blocks, states, steps) && i < |steps|
    requires steps[i].Connect? || steps[i].ConnectUnlogged?
    ensures Leads(cache, StoreOf(states[i].m), StoreOf(states[i + 1].m))
  {
    hide Next, Init, GenuineRuns.GenuineRun, Movable, Leads, Blocks.Block;
    StepMovable(parentHash, base, rows, blocks, states, steps, i, steps[i].tx);
    BlockMovable(states[i].m, steps[i].tx, states[i + 1].m);
    TxMoves(cache, states[i].m.layers, steps[i].tx);
  }

  lemma DisconnectStepMoves(cache: Cache, parentHash: Combine, base: Base, depth: nat, rows: seq<ForestState.Row>, blocks: Point -> GenuineRuns.BlockInfo, states: seq<Sys>, steps: seq<Step>, i: nat)
    requires IsRun(base, depth, states, steps) && GenuineRuns.GenuineRun(parentHash, base, rows, blocks, states, steps) && i < |steps| && steps[i].Disconnect?
    ensures Leads(cache, StoreOf(states[i].m), StoreOf(states[i + 1].m))
  {
    hide Init, GenuineRuns.GenuineRun, Movable, Leads, Inv, Rollback, Overlay, LastConnect, Flat, Links, Images, CleanChanges, Sane, Logical;
    var s := states[i];
    assert Next(base, depth, s, steps[i], states[i + 1]);
    RunKeeps(base, depth, states, steps, i);
    UndoingMovable(parentHash, base, depth, rows, blocks, states, steps, i, states[i + 1].m);
    RollbackIs(s.m, Txs(Recs(s)));
    TipLinks(base, s);
    LinksPoint(Tip(s).before, Tip(s).tx, Logical(s.m).(lsn := Tip(s).tx.lsn));
    LogicalNext(s.m);
    TxMoves(cache, s.m.layers, Undoing(s));
  }

  lemma LogicalNext(m: Memory)
    ensures Logical(m).next == m.next
  {}

  lemma PublishMoves(cache: Cache, base: Base, depth: nat, s: Sys, step: Step, s': Sys)
    requires Inv(base, s) && Next(base, depth, s, step, s') && (step.SealRun? || step.CompactRuns?) && Anchored(base, cache, step)
    ensures Leads(cache, StoreOf(s.m), StoreOf(s'.m))
  {
    hide Leads, Stored, LoadAll, LogHeld, DurableOk, Current, Writable, FileOk, SealFile, SnapshotFile, Seal, Compact, Sane;
    BaseLayers(base, s.active);
    LeadsNowhere(cache, StoreOf(s.m));
    LeadsOn(cache, StoreOf(s.m), StoreOf(s.m), StoreOf(s'.m));
  }

  lemma CrashMoves(cache: Cache, parentHash: Combine, base: Base, depth: nat, rows: seq<ForestState.Row>, blocks: Point -> GenuineRuns.BlockInfo, states: seq<Sys>, steps: seq<Step>, i: nat)
    requires IsRun(base, depth, states, steps) && GenuineRuns.GenuineRun(parentHash, base, rows, blocks, states, steps) && i < |steps| && steps[i].Crash?
    ensures Leads(cache, StoreOf(Published(base, states, steps, i)), StoreOf(states[i + 1].m))
  {
    hide Init, GenuineRuns.GenuineRun, Movable, Leads, Published, Cut, TxWal, RedoAll, Recovered, LoadAll, LogOk, Starts, Healthy, Same, Target, Reach, OnDisk, DurableOk, Trailing,
         NoneOpen, Sane, CleanRecords.CleanLayers, Adopted, PastStates, PastLog, CutAllowed, CleanRecords.CleanMap;
    var s, step := states[i], steps[i];
    assert Next(base, depth, s, step, states[i + 1]);
    RunKeeps(base, depth, states, steps, i);
    RecoverIff(base, s, step.keep);
    ReplayStarts(base, s);
    PublishedSafety(base, depth, states, steps, i);
    FlatCut(s.wal, step.keep);
    FlatTxWal(Cut(s.wal, step.keep));
    forall k | 0 <= k < |Recs(s)| ensures Movable(Recs(s)[k].tx) { RecMovable(parentHash, base, depth, rows, blocks, states, steps, i, Recs(s)[k]); }
    ReplayMoves(cache, base, LoadAll(base, s.active).value, s.history, s.log, s.unlogged, s.floor, Recs(s), Flat(Cut(s.wal, step.keep)));
  }

  /** Steps that leave the store alone. */
  lemma OtherSteps(base: Base, depth: nat, s: Sys, step: Step, s': Sys)
    requires Next(base, depth, s, step, s')
    ensures step.FailConnect? || step.FailDisconnect? || step.Unlink? || step.Prune? ==> s'.m == s.m
  {
    hide Connects, Disconnects, Appended, LastConnect, Flat, Logical, Recover, Writable, FileOk;
  }

  /** At every point after the anchor, in every run of genuine blocks that does not compact the anchor's
      runs away: moves lead from the anchor to the running store, and to the last publication. */
  lemma {:induction false} RunMoves(cache: Cache, parentHash: Combine, base: Base, depth: nat, rows: seq<ForestState.Row>, blocks: Point -> GenuineRuns.BlockInfo, states: seq<Sys>, steps: seq<Step>,
                                    from: nat, i: nat)
    requires IsRun(base, depth, states, steps) && GenuineRuns.GenuineRun(parentHash, base, rows, blocks, states, steps) && from <= i < |states|
    requires Published(base, states, steps, from) == states[from].m && forall j | from <= j < i :: Anchored(base, cache, steps[j])
    ensures Leads(cache, StoreOf(states[from].m), StoreOf(states[i].m)) && Leads(cache, StoreOf(states[from].m), StoreOf(Published(base, states, steps, i)))
    decreases i
  {
    hide Init, Next, GenuineRuns.GenuineRun, Leads, Anchored, Inv;
    var anchor := StoreOf(states[from].m);
    if i == from {
      LeadsNowhere(cache, anchor);
    } else {
      RunMoves(cache, parentHash, base, depth, rows, blocks, states, steps, from, i - 1);
      var s, step, s' := states[i - 1], steps[i - 1], states[i];
      assert Next(base, depth, s, step, s') && Anchored(base, cache, steps[i - 1]);
      RunKeeps(base, depth, states, steps, i - 1);
      OtherSteps(base, depth, s, step, s');
      if step.Connect? || step.ConnectUnlogged? {
        ConnectStepMoves(cache, parentHash, base, depth, rows, blocks, states, steps, i - 1);
        LeadsBoth(cache, anchor, StoreOf(s.m), StoreOf(s'.m));
      } else if step.Disconnect? {
        DisconnectStepMoves(cache, parentHash, base, depth, rows, blocks, states, steps, i - 1);
        LeadsBoth(cache, anchor, StoreOf(s.m), StoreOf(s'.m));
      } else if step.SealRun? || step.CompactRuns? {
        PublishMoves(cache, base, depth, s, step, s');
        LeadsBoth(cache, anchor, StoreOf(s.m), StoreOf(s'.m));
      } else if step.Crash? {
        CrashMoves(cache, parentHash, base, depth, rows, blocks, states, steps, i - 1);
        LeadsBoth(cache, anchor, StoreOf(Published(base, states, steps, i - 1)), StoreOf(s'.m));
      }
    }
  }

  /** So a cache saved at a publication can be started from at every later point of the run. */
  lemma CacheStaysGood(cache: Cache, bucket: Hash -> nat, t: LeafTable.Table, parentHash: Combine, base: Base, depth: nat, rows: seq<ForestState.Row>, blocks: Point -> GenuineRuns.BlockInfo,
                       states: seq<Sys>, steps: seq<Step>, from: nat, i: nat) returns (stores: seq<Store>)
    requires IsRun(base, depth, states, steps) && GenuineRuns.GenuineRun(parentHash, base, rows, blocks, states, steps) && from <= i < |states|
    requires Published(base, states, steps, from) == states[from].m && forall j | from <= j < i :: Anchored(base, cache, steps[j])
    requires Saved(states[from].m.layers, cache, bucket, t) && states[from].m.next == cache.next && RunMerge.Sorted(states[from].m.layers.runs)
    ensures Since(cache, bucket, t, stores) && stores[|stores| - 1] == StoreOf(states[i].m)
  {
    hide IsRun, GenuineRuns.GenuineRun, Moves, Saved, Anchored, Published, DeltaRuns.SortedRun;
    RunMoves(cache, parentHash, base, depth, rows, blocks, states, steps, from, i);
    stores :| Chain(cache, stores) && stores[0] == StoreOf(states[from].m) && stores[|stores| - 1] == StoreOf(states[i].m);
  }
}
