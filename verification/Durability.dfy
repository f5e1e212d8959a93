/** Recovery of the whole store, and the rollback of its tip (OnlineStore and RollbackOnlineBlock
    in src/forest.cpp). */
module Durability {
  import opened Common
  import opened Records
  import opened Layering
  import opened Transactions
  import opened DeltaStore
  import opened DeltaRuns
  import opened CleanRecords

  /** The segments one after the other. */
  function Flat<T>(wal: seq<seq<T>>): seq<T> {
    if wal == [] then [] else Flat(wal[..|wal| - 1]) + wal[|wal| - 1]
  }

  /** Delta runs first, then the log. */
  function Recover(base: Base, disk: map<nat, File>, wal: seq<seq<Tx>>): Result<Memory> {
    var m := Recovered(base, disk);
    if m.Err? then m else RedoAll(m.value, Flat(wal))
  }

  method RecoverStore(base: Base, disk: map<nat, File>, wal: seq<seq<Tx>>) returns (r: Result<Memory>)
    ensures r == Recover(base, disk, wal)
  {
    r := RecoverDeltas(base, disk);
    if r.Ok? { r := Replay(r.value, Flat(wal)); }
  }

  // ---- free records carry no links ------------------------------------------------------

  ghost predicate CleanChanges(changes: seq<Change>) {
    forall i | 0 <= i < |changes| :: Clean(changes[i].before) && Clean(changes[i].after)
  }

  lemma {:induction false} CleanOverlay(records: map<NodeId, NodeRecord>, changes: seq<Change>)
    requires CleanMap(records) && CleanChanges(changes)
    ensures CleanMap(Overlay(records, changes))
    decreases |changes|
  {
    hide Clean;
    if changes != [] { CleanOverlay(records, changes[..|changes| - 1]); }
  }

  /** What is alike a publishable state and clean is publishable. */
  lemma SaneSame(base: Base, a: State, b: State)
    requires Same(a, b) && Sane(base, a) && CleanMap(b.view)
    ensures Sane(base, b)
  {
    forall id: NodeId | id in b.view ensures LinksOk(b.view[id], b.next) { assert id in a.view; }
  }

  lemma CleanView(m: Memory)
    requires CleanLayers(m.layers)
    ensures CleanMap(Logical(m).view)
  {
    hide Read, Clean, CleanLayers;
    forall id | id in Logical(m).view ensures Clean(Logical(m).view[id]) { CleanRead(m.layers, id); }
  }

  lemma SaneBelow(base: Base, s: State)
    requires Sane(base, s)
    ensures forall id | id in s.view :: id < s.next
  {}

  lemma SaneShape(base: Base, a: State)
    requires Sane(base, a)
    ensures InShape(a)
  {}

  lemma SameRefl(a: State)
    ensures Same(a, a)
  {}

  lemma RedoSkips(m: Memory, tx: Tx)
    requires tx.lsn <= m.durableLsn
    ensures Redo(m, tx) == Ok(m)
  {}

  // ---- undoing a block ------------------------------------------------------------------

  /** The most recent retained transaction that connected `point`. */
  function LastConnect(txs: seq<Tx>, point: Point): Option<Tx> {
    if txs == [] then None
    else
      var last := txs[|txs| - 1];
      if last.kind == CONNECT && last.point == point then Some(last) else LastConnect(txs[..|txs| - 1], point)
  }

  /** The last place that connects the point. */
  lemma {:induction false} LastConnectAt(txs: seq<Tx>, i: nat)
    requires i < |txs| && txs[i].kind == CONNECT
    requires forall j | i < j < |txs| :: !(txs[j].kind == CONNECT && txs[j].point == txs[i].point)
    ensures LastConnect(txs, txs[i].point) == Some(txs[i])
    decreases |txs|
  {
    if i < |txs| - 1 {
      assert txs[..|txs| - 1][i] == txs[i];
      LastConnectAt(txs[..|txs| - 1], i);
    }
  }

  lemma {:induction false} LastConnectIn(txs: seq<Tx>, point: Point)
    requires LastConnect(txs, point).Some?
    ensures LastConnect(txs, point).value in txs && LastConnect(txs, point).value.kind == CONNECT
    ensures LastConnect(txs, point).value.point == point
    decreases |txs|
  {
    var last := txs[|txs| - 1];
    if !(last.kind == CONNECT && last.point == point) { LastConnectIn(txs[..|txs| - 1], point); }
  }

  /** Every record still is what the change expects, each looked at just before it is replaced. */
  predicate Expected(l: Layers, changes: seq<Change>) {
    forall i | 0 <= i < |changes| :: Read(l.(dirty := Overlay(l.dirty, changes[..i])), changes[i].id) == changes[i].before
  }

  /** The DISCONNECT transaction for a tip that `t` connected. */
  function Reversal(m: Memory, t: Tx): Tx {
    Tx(DISCONNECT, m.lsn + 1, m.point, t.previous, t.afterLeaves, t.beforeLeaves, t.afterNext, t.beforeNext,
       t.afterRoots, t.beforeRoots, Inverse(t.changes))
  }

  function Undone(m: Memory, tx: Tx): Memory
    requires tx.kind == DISCONNECT ==> m.chain != []
  {
    m.(layers := m.layers.(dirty := Overlay(m.layers.dirty, tx.changes)), next := tx.afterNext, roots := tx.afterRoots,
       leaves := tx.afterLeaves, point := tx.point, chain := Chained(m.chain, tx), lsn := tx.lsn)
  }

  /** Take the tip off: find what connected it, check its after-images, put its before-images back. */
  function Rollback(m: Memory, txs: seq<Tx>): Result<Memory> {
    if m.point.height == 0 then Err("cannot roll back the genesis point")
    else
      var t := LastConnect(txs, m.point);
      if t.None? then Err("tip before-images are outside the retained WAL window")
      else
        var tx := Reversal(m, t.value);
        if !Expected(m.layers, tx.changes) then Err("WAL before-image does not match the current mapped node")
        else if !ChainValid(m.point, m.chain, tx) then Err("WAL transaction does not extend the online chain")
        else Ok(Undone(m, tx))
  }

  /** Inverting twice finds the before-image of the last change. */
  lemma {:induction false} LastInverse(changes: seq<Change>, id: NodeId) returns (i: nat)
    requires LastChange(Inverse(changes), id).Some?
    ensures i < |changes| && changes[i].id == id && LastChange(Inverse(changes), id).value == changes[i].before
  {
    i := ChangeIndex(Inverse(changes), id);
  }

  lemma InverseTouches(changes: seq<Change>, id: NodeId)
    ensures LastChange(Inverse(changes), id).Some? <==> LastChange(changes, id).Some?
  {
    hide LastChange;
    if LastChange(Inverse(changes), id).Some? {
      var i := ChangeIndex(Inverse(changes), id);
      ChangeFound(changes, i);
    }
    if LastChange(changes, id).Some? {
      var i := ChangeIndex(changes, id);
      ChangeFound(Inverse(changes), i);
    }
  }

  /** After a successful rollback of the block that `t` connected, the state before it is back. */
  lemma UndoRestores(m: Memory, a: State, t: Tx)
    requires t.kind == CONNECT && Links(a, t, Logical(m).(lsn := t.lsn)) && Images(a, t) && t.beforeNext <= t.afterNext && InShape(a)
    ensures ChainValid(m.point, m.chain, Reversal(m, t)) <==> |m.chain| >= 2
    ensures |m.chain| >= 2 ==> var m' := Undone(m, Reversal(m, t)); Same(Logical(m').(lsn := a.lsn), a)
  {
    hide LastChange, Read, Overlay, Inverse;
    if |m.chain| >= 2 {
      var tx := Reversal(m, t);
      var m' := Undone(m, tx);
      forall id: NodeId | id < a.next ensures id in a.view && Alike(Read(m'.layers, id), a.view[id]) {
        OverlayRead(m.layers, tx.changes, id);
        InverseTouches(t.changes, id);
        if LastChange(tx.changes, id).Some? {
          var i := LastInverse(t.changes, id);
        } else {
          ViewAt(m.layers, m.next, id);
        }
      }
    }
  }

  /** The reversal is itself a transaction that leads from the state before it to the state after. */
  lemma ReversalLinks(m: Memory, t: Tx)
    requires |m.chain| >= 2 && t.afterLeaves == m.leaves && t.afterNext == m.next && t.afterRoots == m.roots
    requires t.beforeNext <= t.afterNext && ChainValid(m.point, m.chain, Reversal(m, t))
    ensures Links(Logical(m), Reversal(m, t), Logical(Undone(m, Reversal(m, t))))
  {
    hide LastChange, Read, Overlay, Inverse, ChainValid;
    var tx := Reversal(m, t);
    var m' := Undone(m, tx);
    forall id: NodeId | id < m'.next
      ensures id in Logical(m').view && if LastChange(tx.changes, id).Some? then Alike(Logical(m').view[id], LastChange(tx.changes, id).value)
              else id in Logical(m).view && Alike(Logical(m').view[id], Logical(m).view[id])
    {
      OverlayRead(m.layers, tx.changes, id);
    }
  }
}
