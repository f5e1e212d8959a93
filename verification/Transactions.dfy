/** Block transactions (WalTransaction in src/forest.cpp), the logical state they act on, and
    what applying one means. */
module Transactions {
  import opened Common
  import opened Records
  import opened Layering

  /** A position on the block chain. */
  datatype Point = Point(height: nat, hash: Hash)

  datatype Change = Change(id: NodeId, before: NodeRecord, after: NodeRecord)

  datatype Direction = CONNECT | DISCONNECT

  datatype Tx = Tx(kind: Direction, lsn: nat, previous: Point, point: Point, beforeLeaves: nat, afterLeaves: nat,
                   beforeNext: nat, afterNext: nat, beforeRoots: seq<NodeId>, afterRoots: seq<NodeId>, changes: seq<Change>)

  /** What a reader of the forest can see: no layers, no caches. */
  datatype State = State(view: map<NodeId, NodeRecord>, next: nat, roots: seq<NodeId>, leaves: nat, point: Point, chain: seq<Hash>, lsn: nat)

  /** Equal up to the leftover contents of free slots. */
  ghost predicate Same(a: State, b: State) {
    Similar(a.view, b.view) && a.(view := b.view) == b
  }

  lemma SameTrans(a: State, b: State, c: State)
    requires Same(a, b) && Same(b, c)
    ensures Same(a, c) && Same(b, a)
  {
    SimilarTrans(a.view, b.view, c.view);
  }

  /** The view has a record for every id below `next`, and the chain ends at the point. */
  ghost predicate InShape(s: State) {
    && (forall id: NodeId :: id in s.view <==> id < s.next)
    && |s.chain| == s.point.height + 1 && s.chain[|s.chain| - 1] == s.point.hash
  }

  // ---- the records a transaction writes -------------------------------------------------

  /** The last record the changes write at `id`. */
  function LastChange(changes: seq<Change>, id: NodeId): Option<NodeRecord> {
    if changes == [] then None
    else
      var last := changes[|changes| - 1];
      if last.id == id then Some(last.after) else LastChange(changes[..|changes| - 1], id)
  }

  function Overlay(records: map<NodeId, NodeRecord>, changes: seq<Change>): map<NodeId, NodeRecord> {
    if changes == [] then records
    else
      var last := changes[|changes| - 1];
      Overlay(records, changes[..|changes| - 1])[last.id := last.after]
  }

  lemma {:induction false} OverlayAt(records: map<NodeId, NodeRecord>, changes: seq<Change>, id: NodeId)
    ensures id in Overlay(records, changes) <==> id in records || LastChange(changes, id).Some?
    ensures LastChange(changes, id).Some? ==> Overlay(records, changes)[id] == LastChange(changes, id).value
    ensures LastChange(changes, id).None? && id in records ==> Overlay(records, changes)[id] == records[id]
    decreases |changes|
  {
    if changes != [] { OverlayAt(records, changes[..|changes| - 1], id); }
  }

  lemma OverlayRead(l: Layers, changes: seq<Change>, id: NodeId)
    ensures Read(l.(dirty := Overlay(l.dirty, changes)), id)
            == if LastChange(changes, id).Some? then LastChange(changes, id).value else Read(l, id)
  {
    hide LookupAll, Overlay, LastChange;
    OverlayAt(l.dirty, changes, id);
  }

  /** Swap before- and after-images. */
  function Inverse(changes: seq<Change>): (r: seq<Change>)
    ensures |r| == |changes|
    ensures forall i | 0 <= i < |r| :: r[i] == Change(changes[i].id, changes[i].after, changes[i].before)
  {
    seq(|changes|, i requires 0 <= i < |changes| => Change(changes[i].id, changes[i].after, changes[i].before))
  }

  lemma {:induction false} ChangeIndex(changes: seq<Change>, id: NodeId) returns (i: nat)
    requires LastChange(changes, id).Some?
    ensures i < |changes| && changes[i].id == id && LastChange(changes, id).value == changes[i].after
    ensures forall j | i < j < |changes| :: changes[j].id != id
    decreases |changes|
  {
    i := |changes| - 1;
    if changes[i].id != id { i := ChangeIndex(changes[..i], id); }
  }

  lemma {:induction false} ChangeFound(changes: seq<Change>, i: nat)
    requires i < |changes|
    ensures LastChange(changes, changes[i].id).Some?
    decreases |changes|
  {
    if changes[|changes| - 1].id != changes[i].id {
      assert changes[..|changes| - 1][i] == changes[i];
      ChangeFound(changes[..|changes| - 1], i);
    }
  }

  // ---- the chain ------------------------------------------------------------------------

  /** The transaction extends, or takes the tip off, the chain. */
  predicate ChainValid(point: Point, chain: seq<Hash>, tx: Tx) {
    && tx.previous == point
    && (tx.kind == CONNECT ==> tx.point.height == |chain|)
    && (tx.kind == DISCONNECT ==>
        && |chain| >= 2
        && tx.previous.height + 1 == |chain|
        && tx.point.height + 1 == tx.previous.height
        && chain[tx.point.height] == tx.point.hash)
  }

  function Chained(chain: seq<Hash>, tx: Tx): seq<Hash>
    requires tx.kind == DISCONNECT ==> chain != []
  {
    if tx.kind == CONNECT then chain + [tx.point.hash] else chain[..|chain| - 1]
  }

  // ---- one transaction, from state to state ---------------------------------------------

  ghost predicate Rewrites(a: State, tx: Tx, b: State) {
    && (forall id: NodeId | id < b.next ::
          id in b.view && if LastChange(tx.changes, id).Some? then Alike(b.view[id], LastChange(tx.changes, id).value)
                          else id in a.view && Alike(b.view[id], a.view[id]))
  }

  /** `tx` takes the forest from `a` to `b`, up to the contents of free slots. */
  ghost predicate Links(a: State, tx: Tx, b: State) {
    && tx.lsn == a.lsn + 1 && b.lsn == tx.lsn
    && ChainValid(a.point, a.chain, tx) && b.chain == Chained(a.chain, tx) && b.point == tx.point
    && tx.beforeLeaves == a.leaves && tx.afterLeaves == b.leaves
    && tx.beforeNext == a.next && tx.afterNext == b.next
    && tx.beforeRoots == a.roots && tx.afterRoots == b.roots
    && Rewrites(a, tx, b)
  }

  /** The before-images are the records `a` showed. */
  ghost predicate Images(a: State, tx: Tx) {
    forall i | 0 <= i < |tx.changes| && tx.changes[i].id in a.view :: Alike(tx.changes[i].before, a.view[tx.changes[i].id])
  }

  lemma SameLinks(a: State, a': State, tx: Tx, b: State, b': State)
    requires Same(a, a') && Same(b, b') && Links(a, tx, b)
    ensures Links(a', tx, b')
  {
    hide LastChange, ChainValid, Chained;
    forall id: NodeId | id < b'.next
      ensures id in b'.view && if LastChange(tx.changes, id).Some? then Alike(b'.view[id], LastChange(tx.changes, id).value)
              else id in a'.view && Alike(b'.view[id], a'.view[id])
    {
      assert id in b.view;
    }
  }

  // ---- the running store ----------------------------------------------------------------

  /** The arena's layers with the header fields kept beside them. */
  datatype Memory = Memory(layers: Layers, next: nat, roots: seq<NodeId>, leaves: nat, point: Point, chain: seq<Hash>,
                           lsn: nat, durableLsn: nat, generation: nat)

  function Logical(m: Memory): State {
    State(View(m.layers, m.next), m.next, m.roots, m.leaves, m.point, m.chain, m.lsn)
  }

  /** Replay one transaction on top of what is already there. */
  function Redo(m: Memory, tx: Tx): Result<Memory> {
    if tx.lsn <= m.durableLsn then Ok(m)
    else if tx.lsn != m.lsn + 1 then Err("non-contiguous WAL LSN after durable base")
    else if !ChainValid(m.point, m.chain, tx) || tx.beforeLeaves != m.leaves then Err("WAL does not extend the recovered online state")
    else
      Ok(m.(layers := m.layers.(dirty := Overlay(m.layers.dirty, tx.changes)), next := tx.afterNext, roots := tx.afterRoots,
            leaves := tx.afterLeaves, point := tx.point, chain := Chained(m.chain, tx), lsn := tx.lsn))
  }

  /** Replaying the transaction that led from `a` to `b` leads from anything like `a` to something like `b`. */
  lemma RedoLinks(m: Memory, a: State, tx: Tx, b: State)
    requires Same(Logical(m), a) && Links(a, tx, b) && tx.lsn > m.durableLsn
    requires forall id | id in b.view :: id < b.next
    ensures Redo(m, tx).Ok? && Same(Logical(Redo(m, tx).value), b)
    ensures Redo(m, tx).value.durableLsn == m.durableLsn && Redo(m, tx).value.lsn == tx.lsn
  {
    hide LastChange, ChainValid, Chained, Overlay, Read;
    var m' := Redo(m, tx).value;
    forall id: NodeId | id < b.next ensures id in b.view && Alike(Read(m'.layers, id), b.view[id]) {
      OverlayRead(m.layers, tx.changes, id);
      assert LastChange(tx.changes, id).None? ==> id in Logical(m).view && Alike(Logical(m).view[id], a.view[id]);
    }
  }

  function RedoAll(m: Memory, txs: seq<Tx>): Result<Memory> {
    if txs == [] then Ok(m)
    else
      var before := RedoAll(m, txs[..|txs| - 1]);
      if before.Err? then before else Redo(before.value, txs[|txs| - 1])
  }

  /** The recovery loop over the transactions of the log. */
  method Replay(m: Memory, txs: seq<Tx>) returns (r: Result<Memory>)
    ensures r == RedoAll(m, txs)
  {
    var current := m;
    var i := 0;
    while i < |txs|
      invariant 0 <= i <= |txs| && RedoAll(m, txs[..i]) == Ok(current)
    {
      assert txs[..i + 1][..i] == txs[..i];
      var next := Redo(current, txs[i]);
      if next.Err? {
        RedoStops(m, txs, i + 1);
        return next;
      }
      current := next.value;
      i := i + 1;
    }
    assert txs[..i] == txs;
    return Ok(current);
  }

  /** A refused transaction ends the recovery. */
  lemma {:induction false} RedoStops(m: Memory, txs: seq<Tx>, i: nat)
    requires i <= |txs| && RedoAll(m, txs[..i]).Err?
    ensures RedoAll(m, txs) == RedoAll(m, txs[..i])
    decreases |txs|
  {
    if i == |txs| {
      assert txs[..i] == txs;
    } else {
      assert txs[..|txs| - 1][..i] == txs[..i];
      RedoStops(m, txs[..|txs| - 1], i);
    }
  }
}
