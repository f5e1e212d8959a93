/** What a block's transaction lists, that it says exactly what the block did, and what the blocks
    on the chain leave behind for their undoing (TransactionChanges in src/forest.cpp). */
module Blocks {
  import opened Common
  import opened Records
  import opened Ordered
  import opened Arena
  import opened ArenaTrees
  import opened ForestState
  import opened Layering
  import opened Transactions
  import opened CleanRecords
  import Trees
  import Durability

  // ---- the changes of a transaction -----------------------------------------------------

  /** The touched ids in order, each with the record it had and the record it has. */
  function ChangesOf(l: Layers, saved: map<NodeId, Original>): seq<Change> {
    var ids := Ascending(saved.Keys);
    AscendingIs(saved.Keys);
    seq(|ids|, i requires 0 <= i < |ids| => assert ids[i] in Elements(ids); Change(ids[i], saved[ids[i]].record, Read(l, ids[i])))
  }

  lemma NoChanges(l: Layers)
    ensures ChangesOf(l, map[]) == []
  {
    var saved: map<NodeId, Original> := map[];
    AscendingIs(saved.Keys);
  }

  lemma ChangesAt(l: Layers, saved: map<NodeId, Original>, i: nat)
    requires i < |ChangesOf(l, saved)|
    ensures var c := ChangesOf(l, saved)[i]; c.id in saved && c.before == saved[c.id].record && c.after == Read(l, c.id)
  {
    hide Ascending, Read;
    AscendingIs(saved.Keys);
    assert Ascending(saved.Keys)[i] in Elements(Ascending(saved.Keys));
  }

  lemma ChangesHave(l: Layers, saved: map<NodeId, Original>, id: NodeId)
    ensures LastChange(ChangesOf(l, saved), id) == if id in saved then Some(Read(l, id)) else None
  {
    hide Ascending, Read, LastChange, ChangesOf;
    var changes := ChangesOf(l, saved);
    if id in saved {
      var i := ChangesIndex(l, saved, id);
      ChangeFound(changes, i);
    }
    if LastChange(changes, id).Some? {
      var i := ChangeIndex(changes, id);
      ChangesAt(l, saved, i);
    }
  }

  lemma ChangesIndex(l: Layers, saved: map<NodeId, Original>, id: NodeId) returns (i: nat)
    requires id in saved
    ensures i < |ChangesOf(l, saved)| && ChangesOf(l, saved)[i].id == id
  {
    hide Ascending, Read;
    AscendingIs(saved.Keys);
    assert id in Elements(Ascending(saved.Keys));
    i :| 0 <= i < |Ascending(saved.Keys)| && Ascending(saved.Keys)[i] == id;
  }

  /** Outside the touched ids nothing changed; the before-images are what was there. */
  lemma ChangesLink(l: Layers, saved: map<NodeId, Original>, held: Held, next: nat, id: NodeId)
    requires Journal(l.dirty, saved, held.dirty) && Tracked(l, saved, held, next)
    ensures id < next && id !in saved ==> id < held.books.next && Read(l, id) == Read(l.(dirty := held.dirty), id)
    ensures id in saved ==> saved[id].record == Read(l.(dirty := held.dirty), id)
  {
    hide LookupAll;
  }

  function IdsOf(changes: seq<Change>): (r: seq<NodeId>)
    ensures |r| == |changes| && forall i | 0 <= i < |r| :: r[i] == changes[i].id
  {
    seq(|changes|, i requires 0 <= i < |changes| => changes[i].id)
  }

  // ---- a block --------------------------------------------------------------------------

  /** The log record of a block that took `m` to `m'` through these saved originals. */
  function BlockTx(m: Memory, m': Memory, saved: map<NodeId, Original>): Tx {
    Tx(CONNECT, m.lsn + 1, m.point, m'.point, m.leaves, m'.leaves, m.next, m'.next, m.roots, m'.roots, ChangesOf(m'.layers, saved))
  }

  /** The ids are below the new end, and every id beyond the old end is among them. */
  ghost predicate Touches(tx: Tx) {
    && (forall i | 0 <= i < |tx.changes| :: tx.changes[i].id < tx.afterNext)
    && (forall id: NodeId | tx.beforeNext <= id < tx.afterNext :: id in IdsOf(tx.changes))
  }

  /** `tx` says what the block did, and what it needs to be undone. */
  ghost predicate Block(m: Memory, tx: Tx, m': Memory) {
    && tx.kind == CONNECT && tx.beforeNext <= tx.afterNext && Touches(tx) && Durability.CleanChanges(tx.changes)
    && Links(Logical(m), tx, Logical(m')) && Images(Logical(m), tx)
    && (forall i | 0 <= i < |tx.changes| :: tx.changes[i].before == Read(m.layers, tx.changes[i].id))
    && (forall i | 0 <= i < |tx.changes| :: tx.changes[i].after == Read(m'.layers, tx.changes[i].id)) && StrictlySorted(IdsOf(tx.changes))
    && m'.layers == m.layers.(dirty := Overlay(m.layers.dirty, tx.changes)) && m'.durableLsn == m.durableLsn && m'.generation == m.generation
    && CleanLayers(m'.layers)
  }

  lemma BlockLinks(m: Memory, m': Memory, saved: map<NodeId, Original>, held: Held)
    requires Journal(m'.layers.dirty, saved, held.dirty) && Tracked(m'.layers, saved, held, m'.next)
    requires m'.layers == m.layers.(dirty := m'.layers.dirty) && held.dirty == m.layers.dirty && held.books.next == m.next
    requires m'.durableLsn == m.durableLsn && m'.generation == m.generation && m'.lsn == m.lsn + 1
    requires CleanLayers(m.layers) && CleanLayers(m'.layers)
    requires m'.point.height == |m.chain| && m'.chain == m.chain + [m'.point.hash]
    ensures Block(m, BlockTx(m, m', saved), m')
  {
    hide Read, ChangesOf, LastChange, Journal, Tracked, Touches, CleanLayers, Clean;
    var tx := BlockTx(m, m', saved);
    assert m'.layers.(dirty := held.dirty) == m.layers;
    forall id: NodeId | id < m'.next
      ensures id in Logical(m').view && if LastChange(tx.changes, id).Some? then Alike(Logical(m').view[id], LastChange(tx.changes, id).value)
              else id in Logical(m).view && Alike(Logical(m').view[id], Logical(m).view[id])
    {
      ChangesHave(m'.layers, saved, id);
      ChangesLink(m'.layers, saved, held, m'.next, id);
    }
    forall i | 0 <= i < |tx.changes|
      ensures tx.changes[i].before == Read(m.layers, tx.changes[i].id) && Clean(tx.changes[i].before) && Clean(tx.changes[i].after)
              && tx.changes[i].after == Read(m'.layers, tx.changes[i].id)
    {
      CleanRead(m.layers, tx.changes[i].id);
      CleanRead(m'.layers, tx.changes[i].id);
      ChangesAt(m'.layers, saved, i);
      ChangesLink(m'.layers, saved, held, m'.next, tx.changes[i].id);
    }
    TrackedNext(m'.layers, saved, held, m'.next);
    ChangesOverlay(m'.layers, saved, held, m'.next);
    BlockTouches(m'.layers, saved, held, m'.next, tx);
    ChangesSorted(m'.layers, saved);
  }

  /** What was written is what the changes list. */
  lemma ChangesOverlay(l: Layers, saved: map<NodeId, Original>, held: Held, next: nat)
    requires Journal(l.dirty, saved, held.dirty) && Tracked(l, saved, held, next)
    ensures l.dirty == Overlay(held.dirty, ChangesOf(l, saved))
  {
    hide ChangesOf, LastChange, LookupAll, Overlay;
    var dirty := Overlay(held.dirty, ChangesOf(l, saved));
    forall id ensures (id in dirty <==> id in l.dirty) && (id in dirty ==> dirty[id] == l.dirty[id]) {
      OverlayAt(held.dirty, ChangesOf(l, saved), id);
      ChangesHave(l, saved, id);
    }
  }

  lemma ChangesSorted(l: Layers, saved: map<NodeId, Original>)
    ensures StrictlySorted(IdsOf(ChangesOf(l, saved)))
  {
    hide Ascending, Read;
    AscendingIs(saved.Keys);
    assert IdsOf(ChangesOf(l, saved)) == Ascending(saved.Keys);
  }

  lemma BlockTouches(l: Layers, saved: map<NodeId, Original>, held: Held, next: nat, tx: Tx)
    requires Tracked(l, saved, held, next) && tx.changes == ChangesOf(l, saved) && tx.beforeNext == held.books.next && tx.afterNext == next
    ensures Touches(tx)
  {
    hide Read, ChangesOf;
    forall i | 0 <= i < |tx.changes| ensures tx.changes[i].id < tx.afterNext { ChangesAt(l, saved, i); }
    forall id: NodeId | tx.beforeNext <= id < tx.afterNext ensures id in IdsOf(tx.changes) {
      var i := ChangesIndex(l, saved, id);
      assert IdsOf(tx.changes)[i] == id;
    }
  }

  lemma ConnectedFacts(m: Memory, before: State, t: Tx)
    requires Links(before, t, Logical(m).(lsn := t.lsn)) && t.kind == CONNECT && InShape(before)
    ensures t.afterLeaves == m.leaves && t.afterNext == m.next && t.afterRoots == m.roots
    ensures t.beforeLeaves == before.leaves && t.beforeNext == before.next && t.beforeRoots == before.roots && t.previous == before.point
    ensures |m.chain| == before.point.height + 2
  {}

  lemma InverseIds(t: Tx)
    requires Touches(t) && Durability.CleanChanges(t.changes)
    ensures Durability.CleanChanges(Inverse(t.changes))
    ensures forall i | 0 <= i < |Inverse(t.changes)| :: Inverse(t.changes)[i].id < t.afterNext
    ensures forall id: NodeId | t.beforeNext <= id < t.afterNext :: id in IdsOf(Inverse(t.changes))
  {
    assert IdsOf(Inverse(t.changes)) == IdsOf(t.changes);
  }

  /** Free slots do not matter to what the records stand for. */
  lemma RestoredForest(parentHash: Combine, a: State, before: State, rows: seq<Row>)
    requires Same(a.(lsn := before.lsn), before) && Represents(parentHash, before.view, rows)
    ensures Represents(parentHash, a.view, rows)
  {
    hide Laid, AllIds;
    assert LiveIds(a.view) == LiveIds(before.view);
    LaidFrame(parentHash, before.view, a.view, rows);
  }

  /** Undoing a block leaves nothing live beyond the restored end exactly when nothing live lay
      there when the block was connected. */
  lemma UndoBalanced(m: Memory, t: Tx, m': Memory, l: Layers)
    requires Block(m, t, m')
    ensures LiveFrom(l.(dirty := Overlay(l.dirty, Inverse(t.changes))), t.beforeNext, t.afterNext) == {}
            <==> LiveFrom(m.layers, m.next, m'.next) == {}
  {
    hide Read, Overlay, LastChange, Inverse, Images, Rewrites, ChainValid;
    var undone := l.(dirty := Overlay(l.dirty, Inverse(t.changes)));
    forall id: NodeId | t.beforeNext <= id < t.afterNext ensures Read(undone, id) == Read(m.layers, id) {
      assert id in IdsOf(t.changes);
      var i :| 0 <= i < |t.changes| && IdsOf(t.changes)[i] == id;
      ChangeFound(t.changes, i);
      Durability.InverseTouches(t.changes, id);
      var k := Durability.LastInverse(t.changes, id);
      OverlayRead(l, Inverse(t.changes), id);
    }
    assert LiveFrom(undone, t.beforeNext, t.afterNext) == LiveFrom(m.layers, m.next, m'.next);
  }

  /** The ids beyond the old end that undoing the block makes live again. */
  ghost function Stale(t: Tx): set<NodeId> {
    set id: NodeId | t.beforeNext <= id < t.afterNext && LastChange(Inverse(t.changes), id).Some? && LastChange(Inverse(t.changes), id).value.kind != FREE
  }

  lemma StaleBeyond(t: Tx, l: Layers)
    requires Touches(t)
    ensures LiveFrom(l.(dirty := Overlay(l.dirty, Inverse(t.changes))), t.beforeNext, t.afterNext) == Stale(t)
  {
    hide Read, Overlay, LastChange, Inverse;
    forall id: NodeId | t.beforeNext <= id < t.afterNext
      ensures LastChange(Inverse(t.changes), id).Some?
              && Read(l.(dirty := Overlay(l.dirty, Inverse(t.changes))), id) == LastChange(Inverse(t.changes), id).value
    {
      assert id in IdsOf(t.changes);
      var i :| 0 <= i < |t.changes| && IdsOf(t.changes)[i] == id;
      ChangeFound(t.changes, i);
      Durability.InverseTouches(t.changes, id);
      OverlayRead(l, Inverse(t.changes), id);
    }
  }

  /** Right after a block, the records are what its undoing expects. */
  lemma FreshExpected(m: Memory, t: Tx, m': Memory)
    requires Block(m, t, m')
    ensures Durability.Expected(m'.layers, Inverse(t.changes))
  {
    hide Read, Overlay, LastChange, Images, Rewrites, ChainValid, Touches, CleanLayers, Durability.CleanChanges;
    var changes := Inverse(t.changes);
    forall i | 0 <= i < |changes| ensures Read(m'.layers.(dirty := Overlay(m'.layers.dirty, changes[..i])), changes[i].id) == changes[i].before {
      OverlayRead(m'.layers, changes[..i], changes[i].id);
      NotBefore(t.changes, i);
    }
  }

  lemma NotBefore(changes: seq<Change>, i: nat)
    requires StrictlySorted(IdsOf(changes)) && i < |changes|
    ensures LastChange(Inverse(changes)[..i], changes[i].id).None?
  {
    hide LastChange;
    var before := Inverse(changes)[..i];
    if LastChange(before, changes[i].id).Some? {
      var k := ChangeIndex(before, changes[i].id);
    }
  }

  // ---- the blocks on the chain ----------------------------------------------------------

  /** A block on the chain: the state and the trees it was connected to, and its transaction. */
  datatype Past = Past(before: State, rows: seq<Row>, tx: Tx)

  /** The trees are those of the state. */
  ghost predicate Holds(parentHash: Combine, s: State, rows: seq<Row>) {
    && |s.roots| == Trees.ROWS == |rows| && (forall i | 0 <= i < |rows| :: s.roots[i] == RootId(rows[i]))
    && Trees.WellFormed(Trees.Forest(s.leaves, rows)) && Represents(parentHash, s.view, rows)
  }

  /** The transaction leads from the state before the block to the one after it, and can be undone. */
  ghost predicate PastOk(parentHash: Combine, p: Past, after: State) {
    && p.tx.kind == CONNECT && p.tx.beforeNext <= p.tx.afterNext && Touches(p.tx) && Durability.CleanChanges(p.tx.changes)
    && InShape(p.before) && Images(p.before, p.tx) && Links(p.before, p.tx, after.(lsn := p.tx.lsn)) && Holds(parentHash, p.before, p.rows)
  }

  function After(blocks: seq<Past>, k: nat, now: State): State
    requires k < |blocks|
  { if k + 1 < |blocks| then blocks[k + 1].before else now }

  ghost predicate Remembered(parentHash: Combine, blocks: seq<Past>, now: State) {
    forall k | 0 <= k < |blocks| :: PastOk(parentHash, blocks[k], After(blocks, k, now))
  }

  /** The transaction is in the log, and everything connected since stands higher. */
  ghost predicate InLog(log: seq<Tx>, tx: Tx) {
    exists i :: 0 <= i < |log| && log[i] == tx && forall j | i < j < |log| :: log[j].kind == CONNECT ==> log[j].point.height > tx.point.height
  }

  /** The blocks on the chain, above the height `start`, are in the log. */
  ghost predicate AllInLog(log: seq<Tx>, blocks: seq<Past>, start: nat) {
    && (forall j | 0 <= j < |log| && log[j].kind == CONNECT :: log[j].point.height > start)
    && (forall k | 0 <= k < |blocks| :: blocks[k].tx.point.height == start + k + 1 && InLog(log, blocks[k].tx))
  }

  /** The log's last connect of the tip is the tip's own. */
  lemma TipInLog(log: seq<Tx>, blocks: seq<Past>, start: nat, point: Point)
    requires AllInLog(log, blocks, start) && point.height == start + |blocks|
    requires blocks != [] ==> blocks[|blocks| - 1].tx.point == point && blocks[|blocks| - 1].tx.kind == CONNECT
    ensures Durability.LastConnect(log, point) == if blocks == [] then None else Some(blocks[|blocks| - 1].tx)
  {
    hide Durability.LastConnect;
    if blocks == [] {
      if Durability.LastConnect(log, point).Some? { Durability.LastConnectIn(log, point); }
    } else {
      var tx := blocks[|blocks| - 1].tx;
      assert InLog(log, tx);
      var i :| 0 <= i < |log| && log[i] == tx && forall j | i < j < |log| :: log[j].kind == CONNECT ==> log[j].point.height > tx.point.height;
      Durability.LastConnectAt(log, i);
    }
  }

  lemma InLogMore(log: seq<Tx>, tx: Tx, t: Tx)
    requires InLog(log, t) && (tx.kind == CONNECT ==> tx.point.height > t.point.height)
    ensures InLog(log + [tx], t)
  {
    var i :| 0 <= i < |log| && log[i] == t && forall j | i < j < |log| :: log[j].kind == CONNECT ==> log[j].point.height > t.point.height;
    var more := log + [tx];
    assert more[i] == t;
  }

  lemma PushBlock(parentHash: Combine, blocks: seq<Past>, p: Past, now: State, log: seq<Tx>, start: nat)
    requires Remembered(parentHash, blocks, p.before) && PastOk(parentHash, p, now) && AllInLog(log, blocks, start) && p.tx.point.height == start + |blocks| + 1
    ensures Remembered(parentHash, blocks + [p], now) && AllInLog(log + [p.tx], blocks + [p], start)
  {
    hide PastOk, InLog;
    var more, log' := blocks + [p], log + [p.tx];
    forall k | 0 <= k < |more| ensures PastOk(parentHash, more[k], After(more, k, now)) {
      if k < |blocks| { assert PastOk(parentHash, blocks[k], After(blocks, k, p.before)); }
    }
    PastConnects(parentHash, p, now);
    LogEnds(log, p.tx);
    forall k | 0 <= k < |more| ensures more[k].tx.point.height == start + k + 1 && InLog(log', more[k].tx) {
      if k < |blocks| { InLogMore(log, p.tx, blocks[k].tx); }
    }
  }

  lemma PastConnects(parentHash: Combine, p: Past, now: State)
    requires PastOk(parentHash, p, now)
    ensures p.tx.kind == CONNECT && p.tx.point == now.point && now.point.height == |p.before.chain| && InShape(p.before)
  {
    hide Images, Rewrites, Holds;
  }

  lemma LogEnds(log: seq<Tx>, tx: Tx)
    ensures InLog(log + [tx], tx)
  {
    assert (log + [tx])[|log|] == tx;
  }

  lemma PopBlock(parentHash: Combine, blocks: seq<Past>, now: State, now': State, log: seq<Tx>, tx: Tx, start: nat)
    requires blocks != [] && Remembered(parentHash, blocks, now) && AllInLog(log, blocks, start) && tx.kind == DISCONNECT
    requires var before := blocks[|blocks| - 1].before; Same(now'.(lsn := before.lsn), before)
    ensures Remembered(parentHash, blocks[..|blocks| - 1], now') && AllInLog(log + [tx], blocks[..|blocks| - 1], start)
  {
    hide PastOk, InLog, Same;
    var less, before := blocks[..|blocks| - 1], blocks[|blocks| - 1].before;
    forall k | 0 <= k < |less| ensures PastOk(parentHash, less[k], After(less, k, now')) {
      assert PastOk(parentHash, blocks[k], After(blocks, k, now));
      if k + 1 == |less| { PastSame(parentHash, blocks[k], before, now'); }
    }
    forall k | 0 <= k < |less| ensures InLog(log + [tx], less[k].tx) { InLogMore(log, tx, less[k].tx); }
  }

  lemma PastSame(parentHash: Combine, p: Past, a: State, b: State)
    requires PastOk(parentHash, p, a) && Same(b.(lsn := a.lsn), a)
    ensures PastOk(parentHash, p, b)
  {
    hide Links, Images, InShape, Holds, Touches, Durability.CleanChanges;
    Durability.SameRefl(p.before);
    SameFlip(a, b, p.tx.lsn);
    SameLinks(p.before, p.before, p.tx, a.(lsn := p.tx.lsn), b.(lsn := p.tx.lsn));
  }

  lemma SameFlip(a: State, b: State, lsn: nat)
    requires Same(b.(lsn := a.lsn), a)
    ensures Same(a.(lsn := lsn), b.(lsn := lsn))
  {}
}
