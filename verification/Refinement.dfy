/** The forest class takes the steps of the state machine: whatever is called on it, the machine can
    follow, and the two stay in step. */
module Refinement {
  import opened Common
  import opened Records
  import opened CleanRecords
  import opened ArenaTrees
  import opened ForestState
  import opened Arena
  import opened Packed
  import opened Transactions
  import opened DeltaStore
  import opened Durability
  import opened LogRecords
  import opened LogSteps
  import opened OnlineRuns
  import opened UndoRuns
  import opened Accumulator
  import GenuineRuns
  import SameBlocks
  import Bits
  import Position
  import opened Blocks
  import opened Online

  /** Every link of a forest's records stays inside the arena. */
  lemma LinksInside(forest: PackedForest, id: NodeId)
    requires forest.Valid() && id in forest.arena.Nodes()
    ensures id < forest.arena.next && LinksOk(forest.arena.Nodes()[id], forest.arena.next)
  {
    hide Read, Represents, Balanced, InTransaction, StackHolds, Clean, CleanLayers;
    var nodes := forest.arena.Nodes();
    ValidClean(forest.arena);
    CleanRead(forest.arena.Stack(), id);
    if nodes[id].kind == FREE {
      FreeLinks(nodes[id], forest.arena.next);
    } else {
      var row := LiveFits(forest.parentHash, nodes, forest.rows, id);
    }
  }

  lemma FreeLinks(r: NodeRecord, next: nat)
    requires Clean(r) && r.kind == FREE
    ensures LinksOk(r, next)
  {}

  lemma RootsInside(forest: PackedForest)
    requires forest.Valid()
    ensures RootsOk(forest.roots, forest.arena.next)
  {
    hide Read, Represents, Balanced, InTransaction, StackHolds;
    forall i | 0 <= i < |forest.roots| ensures LinkOk(forest.roots[i], forest.arena.next) {
      if forest.rows[i].Some? { RootFits(forest.parentHash, forest.arena.Nodes(), forest.rows, i); }
    }
  }

  /** What a block leaves can be published over the base. */
  lemma BlockSane(f: OnlineForest, base: Base, m: Memory, tx: Tx)
    requires f.Valid() && Block(m, tx, f.Mem()) && base.chain <= m.chain && base.lsn <= m.lsn && f.forest.arena.next < NO_NODE
    ensures Sane(base, Logical(f.Mem()))
  {
    hide Read, Represents, Balanced, InTransaction, StackHolds, LinksOk, RootsOk, Images, Rewrites, CleanLayers, CleanChanges, Touches;
    RootsInside(f.forest);
    forall id: NodeId | id in Logical(f.Mem()).view ensures LinksOk(Logical(f.Mem()).view[id], f.forest.arena.next) {
      LinksInside(f.forest, id);
    }
  }

  /** A block that ModifyBlock connected is a Connect step. */
  lemma ModifyBlockConnects(f: OnlineForest, base: Base, m: Memory, tx: Tx)
    requires f.Valid() && Block(m, tx, f.Mem()) && base.chain <= m.chain && base.lsn <= m.lsn && f.forest.arena.next < NO_NODE
    ensures Connects(base, m, tx, f.Mem())
  {
    hide Sane, Links, Images, CleanChanges, Touches, Logical, CleanRun;
    BlockSane(f, base, m, tx);
  }

  /** The machine's store is the forest's, and both know the same blocks on the chain. */
  ghost predicate Matches(base: Base, s: Sys, f: OnlineForest)
    reads f, f.forest, f.forest.arena
  {
    && Inv(base, s) && s.logged && s.m == f.Mem()
    && |LastSnap(s).marks| == |f.blocks| && forall k | 0 <= k < |f.blocks| :: LastSnap(s).marks[k] == Mark(f.blocks[k].before, f.blocks[k].tx)
  }

  /** The base that a forest without layers above its base stands for. */
  function BaseOf(f: OnlineForest, generation: nat, fingerprint: Hash): Base
    reads f, f.forest, f.forest.arena
  {
    Base(generation, f.lsn, fingerprint, f.point, f.chain, f.forest.numLeaves, f.forest.roots, f.forest.arena.base, f.forest.arena.blank)
  }

  function Opening(base: Base): Sys { Sys(Start(base), [], map[], {}, [], 0, true, {}, [Snap(Logical(Start(base)), [])], []) }

  /** Nothing was written, connected or published since the forest was opened. */
  ghost predicate Untouched(f: OnlineForest)
    reads f, f.forest, f.forest.arena
  {
    && f.forest.arena.dirty == map[] && f.forest.arena.runs == [] && f.forest.arena.next == |f.forest.arena.base|
    && f.durableLsn == f.lsn && f.generation == 0 && f.log == [] && f.blocks == []
  }

  /** A forest just opened is in step with the machine's initial state. */
  lemma InitMatches(f: OnlineForest, generation: nat, fingerprint: Hash)
    requires f.Valid() && Untouched(f) && f.forest.arena.next < NO_NODE
    ensures var base := BaseOf(f, generation, fingerprint); Init(base, Opening(base)) && Matches(base, Opening(base), f)
  {
    hide Read, Represents, Balanced, InTransaction, StackHolds, LinksOk, RootsOk, CleanLayers, OpenedRuns, Inv, Remembered, AllInLog;
    var base := BaseOf(f, generation, fingerprint);
    assert Start(base) == f.Mem();
    RootsInside(f.forest);
    forall id: NodeId | id in Logical(f.Mem()).view ensures LinksOk(Logical(f.Mem()).view[id], f.forest.arena.next) { LinksInside(f.forest, id); }
    ValidClean(f.forest.arena);
    BlankFree(f.forest.arena);
    InitKeeps(base, Opening(base));
  }

  lemma BlankFree(arena: NodeArena)
    requires arena.Valid()
    ensures arena.blank.kind == FREE
  {
    hide Read, FreeIds, CleanLayers, InTransaction, StackHolds, OpenedRuns;
  }

  /** The machine's log holds what the class's does: nothing was pruned. */
  ghost predicate Unpruned(s: Sys, f: OnlineForest)
    reads f
  { Txs(Recs(s)) == f.log }

  /** In the machine's log, too, the last connect of the tip is the tip's own. */
  ghost predicate FindsOwn(s: Sys, f: OnlineForest)
    reads f
  { f.blocks != [] && Found(s) == Some(f.blocks[|f.blocks| - 1].tx) }

  lemma UnprunedFinds(base: Base, s: Sys, f: OnlineForest)
    requires f.Valid() && Matches(base, s, f) && Unpruned(s, f) && f.blocks != []
    ensures FindsOwn(s, f)
  {
    hide Inv, Txs, Recs, f.Valid, LastConnect, PastOk;
    TipFound(f);
  }

  lemma RetainedFinds(base: Base, s: Sys, f: OnlineForest)
    requires Matches(base, s, f) && f.blocks != [] && Has(Recs(s), f.blocks[|f.blocks| - 1].tx)
    ensures FindsOwn(s, f)
  {
    hide Inv, Txs, Recs, LastConnect, Has;
    OwnFound(base, s);
  }

  /** Only the transaction found matters to a rollback. */
  lemma SameFound(m: Memory, txs: seq<Tx>, txs': seq<Tx>)
    requires LastConnect(txs, m.point) == LastConnect(txs', m.point)
    ensures Rollback(m, txs) == Rollback(m, txs')
  {
    hide LastConnect, Expected, ChainValid, Overlay;
  }

  lemma MatchesBase(base: Base, s: Sys)
    requires Inv(base, s)
    ensures s.history != [] && base.chain <= s.m.chain && base.lsn <= s.m.lsn
  {
    hide OnDisk, DurableOk, LogHeld, Same, CleanLayers, View, LinksOk, RootsOk;
  }

  lemma DoneTxs(s: Sys, tx: Tx, snap: Snap, newSegment: bool, m': Memory)
    ensures Txs(Recs(Done(s, m', tx, snap, newSegment))) == Txs(Recs(s)) + [tx]
  {
    hide Flat, Appended;
    FlatAppended(s.wal, Rec(tx, false, snap), newSegment);
  }

  lemma DoConnect(base: Base, depth: nat, s: Sys, tx: Tx, m': Memory, newSegment: bool) returns (s': Sys)
    requires Inv(base, s) && s.logged && Connects(base, s.m, tx, m') && s.history != []
    ensures Next(base, depth, s, Connect(tx, newSegment), s') && Inv(base, s') && s'.logged && s'.m == m' && Txs(Recs(s')) == Txs(Recs(s)) + [tx]
    ensures s'.history != [] && LastSnap(s').marks == LastSnap(s).marks + [Mark(Logical(s.m), tx)]
  {
    hide Inv, Connects, Logical, Recs;
    s' := Done(s, m', tx, Pushed(s, tx, m'), newSegment);
    DoneTxs(s, tx, Pushed(s, tx, m'), newSegment, m');
    StepKeeps(base, depth, s, Connect(tx, newSegment), s');
  }

  lemma DoDisconnect(base: Base, depth: nat, s: Sys, m': Memory, newSegment: bool) returns (s': Sys)
    requires Inv(base, s) && s.logged && s.history != [] && Disconnects(s, m')
    ensures Found(s).Some? && Next(base, depth, s, Disconnect(newSegment), s') && Inv(base, s') && s'.logged && s'.m == m'
    ensures Txs(Recs(s')) == Txs(Recs(s)) + [Undoing(s)] && s'.history != [] && LastSnap(s').marks == Popped(LastSnap(s).marks)
  {
    hide Inv, Disconnects, Logical, Recs, LastConnect;
    FoundSome(s, m');
    s' := Done(s, m', Undoing(s), PoppedTo(s, m'), newSegment);
    DoneTxs(s, Undoing(s), PoppedTo(s, m'), newSegment, m');
    StepKeeps(base, depth, s, Disconnect(newSegment), s');
  }

  /** Connecting a block is a Connect step; a block that fails is none. */
  method ConnectStep(f: OnlineForest, ghost base: Base, ghost depth: nat, ghost s: Sys, additions: seq<Hash>, deletions: seq<Hash>, newPoint: Point, written: bool,
                     ghost newSegment: bool) returns (r: Result<()>, ghost s': Sys, ghost tx: Tx, ghost dead: set<NodeId>)
    requires f.Valid() && Matches(base, s, f) && f.forest.numLeaves + |additions| <= Bits.Pow2(Position.MAX_ROWS)
    modifies f`point, f`chain, f`lsn, f`log, f`blocks, f.forest, f.forest.arena, f.forest.index
    ensures r.Ok? <==> newPoint.height == old(f.point).height + 1 && written && old(f.Applies(additions, deletions))
    ensures r.Ok? && f.forest.arena.next < NO_NODE ==>
              f.Valid() && Next(base, depth, s, Connect(tx, newSegment), s') && Matches(base, s', f) && (old(Unpruned(s, f)) ==> Unpruned(s', f))
    ensures r.Ok? ==> f.Valid() && f.point == newPoint && f.log == old(f.log) + [tx] && Block(old(f.Mem()), tx, f.Mem())
                      && f.blocks == old(f.blocks) + [Past(old(Logical(f.Mem())), old(f.forest.rows), tx)]
                      && (additions == [] && deletions == [] ==> tx.changes == [] && f.forest.roots == old(f.forest.roots))
    ensures r.Ok? ==> Applied(f.forest.rows, f.forest.numLeaves, old(f.forest.arena.Nodes()), old(f.forest.rows), old(f.forest.numLeaves), additions, deletions, dead)
                      && Spends(old(f.forest.arena.Ledger()), f.forest.arena.Ledger(), dead, |additions|)
    ensures r.Ok? && old(f.forest.arena.Neat()) ==>
              f.forest.arena.Neat() && Restacks(old(f.forest.arena.free), old(f.forest.arena.next), f.forest.arena.free, f.forest.arena.next, dead, |additions|,
                                                old(f.forest.numLeaves), f.forest.roots)
    ensures r.Err? ==> s' == s && Matches(base, s, f) && f.log == old(f.log)
  {
    hide Inv, Next, Connects, Block, Txs, Recs, f.Valid, Applied, Spends, f.Applies, Restacks, Exact;
    s' := s;
    ghost var m := f.Mem();
    MatchesBase(base, s);
    r, dead := f.ModifyBlock(additions, deletions, newPoint, written);
    if r.Ok? {
      tx := f.log[|old(f.log)|];
      assert f.log == old(f.log) + [tx];
      if f.forest.arena.next < NO_NODE {
        ModifyBlockConnects(f, base, m, tx);
        s' := DoConnect(base, depth, s, tx, f.Mem(), newSegment);
      }
    } else {
      tx := Tx(CONNECT, 0, newPoint, newPoint, 0, 0, 0, 0, [], [], []);
    }
  }

  /** A block that ModifyBlock connected is genuine: it did to the trees what its contents say, and the
      arena grew just as far as the live nodes needed. */
  lemma BlockGenuine(f: OnlineForest, m: Memory, tx: Tx, rows: seq<Row>, books: Books, additions: seq<Hash>, deletions: seq<Hash>, dead: set<NodeId>,
                     blocks: Point -> GenuineRuns.BlockInfo)
    requires f.Valid() && Block(m, tx, f.Mem()) && Blocks.Holds(f.forest.parentHash, Logical(m), rows)
    requires Applied(f.forest.rows, f.forest.numLeaves, Logical(m).view, rows, m.leaves, additions, deletions, dead)
    requires Spends(books, f.forest.arena.Ledger(), dead, |additions|) && books.next == m.next
    requires blocks(tx.point) == GenuineRuns.BlockInfo(m.point, additions, deletions)
    requires GenuineRuns.PlainDistinct(f.forest.parentHash, StripRows(rows)) && GenuineRuns.PlainDistinct(f.forest.parentHash, StripRows(f.forest.rows))
    ensures GenuineRuns.Genuine(f.forest.parentHash, blocks, m, tx, f.Mem())
  {
    hide Block, Blocks.Holds, Applied, GenuineRuns.PlainDistinct, LiveIds, View, f.Valid, StripRows;
    ValidHolds(f);
    LiveBooks(f);
    SameBlocks.BlockHeader(m, tx, f.Mem());
    assert GenuineRuns.GenuineBy(f.forest.parentHash, blocks, m, tx, f.Mem(), rows, f.forest.rows, dead);
  }

  lemma LiveBooks(f: OnlineForest)
    requires f.Valid()
    ensures |LiveIds(Logical(f.Mem()).view)| == f.forest.arena.live && f.forest.arena.live + |f.forest.arena.freeSet| == f.forest.arena.next
  {
    hide Read, InTransaction, OpenedRuns, StackHolds, CleanLayers, Remembered, AllInLog, Represents;
    var l, n := f.forest.arena.Stack(), f.forest.arena.next;
    FromCount(l, 0, n);
    assert FreeFrom(l, 0, n) == FreeIds(l, n);
    assert LiveFrom(l, 0, n) == LiveIds(f.forest.arena.Nodes());
  }

  /** Connecting a block with distinct leaf hashes, the one its point stands for, is a genuine step. */
  method GenuineStep(f: OnlineForest, ghost base: Base, ghost depth: nat, ghost s: Sys, ghost blocks: Point -> GenuineRuns.BlockInfo, additions: seq<Hash>,
                     deletions: seq<Hash>, newPoint: Point, written: bool, ghost newSegment: bool) returns (r: Result<()>, ghost s': Sys, ghost tx: Tx)
    requires f.Valid() && Matches(base, s, f) && f.forest.numLeaves + |additions| <= Bits.Pow2(Position.MAX_ROWS)
    requires blocks(newPoint) == GenuineRuns.BlockInfo(f.point, additions, deletions) && GenuineRuns.PlainDistinct(f.forest.parentHash, StripRows(f.forest.rows))
    modifies f`point, f`chain, f`lsn, f`log, f`blocks, f.forest, f.forest.arena, f.forest.index
    ensures r.Ok? && f.forest.arena.next < NO_NODE ==> Next(base, depth, s, Connect(tx, newSegment), s') && Matches(base, s', f)
    ensures r.Ok? && GenuineRuns.PlainDistinct(f.forest.parentHash, StripRows(f.forest.rows)) ==> GenuineRuns.Genuine(f.forest.parentHash, blocks, s.m, tx, f.Mem())
  {
    hide Inv, Next, Block, f.Valid, Applied, Spends, GenuineRuns.PlainDistinct, StripRows, Blocks.Holds, View, Bits.Pow2;
    ValidHolds(f);
    ghost var m, rows, books := f.Mem(), f.forest.rows, f.forest.arena.Ledger();
    ghost var dead;
    r, s', tx, dead := ConnectStep(f, base, depth, s, additions, deletions, newPoint, written, newSegment);
    if r.Ok? && GenuineRuns.PlainDistinct(f.forest.parentHash, StripRows(f.forest.rows)) {
      SameBlocks.BlockHeader(m, tx, f.Mem());
      BlockGenuine(f, m, tx, rows, books, additions, deletions, dead, blocks);
    }
  }

  /** Rolling the tip back is a Disconnect step as long as the machine's log finds the tip's own
      transaction; a rollback that fails is none. */
  method DisconnectStep(f: OnlineForest, ghost base: Base, ghost depth: nat, ghost s: Sys, written: bool, ghost newSegment: bool) returns (r: Result<Point>, ghost s': Sys)
    requires f.Valid() && Matches(base, s, f)
    modifies f`point, f`chain, f`lsn, f`log, f`blocks, f.forest, f.forest.arena, f.forest.index
    ensures r.Ok? <==> written && old(f.blocks) != [] && Expected(old(f.forest.arena.Stack()), Inverse(old(f.blocks)[|old(f.blocks)| - 1].tx.changes))
    ensures r.Ok? && old(FindsOwn(s, f)) ==>
              Next(base, depth, s, Disconnect(newSegment), s') && Matches(base, s', f) && (old(Unpruned(s, f)) ==> Unpruned(s', f))
    ensures r.Ok? ==> f.RolledBack(old(f.blocks)[|old(f.blocks)| - 1]) && f.lsn == old(f.lsn) + 1 && f.blocks == old(f.blocks)[..|old(f.blocks)| - 1]
                      && f.log == old(f.log) + [Reversal(old(f.Mem()), old(f.blocks)[|old(f.blocks)| - 1].tx)]
                      && (f.Valid() <==> Stale(old(f.blocks)[|old(f.blocks)| - 1].tx) == {}) && |old(f.chain)| >= 2
                      && f.Mem() == Undone(old(f.Mem()), Reversal(old(f.Mem()), old(f.blocks)[|old(f.blocks)| - 1].tx))
    ensures r.Ok? && old(f.forest.arena.Neat()) ==>
              var t := old(f.blocks)[|old(f.blocks)| - 1].tx;
              t.beforeNext == t.afterNext && NoneRevived(Inverse(t.changes)) ==>
                f.forest.arena.Neat() && f.forest.arena.free == old(f.forest.arena.free) + FreedBy(Inverse(t.changes))
    ensures r.Err? ==> s' == s && Matches(base, s, f) && f.log == old(f.log)
  {
    hide Inv, Next, Txs, Recs, f.Valid, LastConnect, Rollback, Expected, Same, Stale, Inverse, f.RolledBack, Undone, NoneRevived, FreedBy, Exact, ChainValid;
    s' := s;
    TipFound(f);
    MatchesBase(base, s);
    ghost var finds, m := FindsOwn(s, f), f.Mem();
    r := f.RollbackOnlineBlock(written);
    if r.Ok? { RollbackIs(m, old(f.log)); }
    if r.Ok? && finds {
      SameFound(m, old(f.log), Txs(Recs(s)));
      s' := DoDisconnect(base, depth, s, f.Mem(), newSegment);
    }
  }

  /** Publishing a seal is a SealRun step. */
  method SealStep(f: OnlineForest, ghost base: Base, ghost depth: nat, ghost s: Sys) returns (ghost s': Sys)
    requires f.Valid() && Matches(base, s, f)
    modifies f`durableLsn, f`generation, f.forest.arena`dirty, f.forest.arena`runs, f.forest.arena`indexes
    ensures f.Valid() && Next(base, depth, s, SealRun, s') && Matches(base, s', f) && (old(Unpruned(s, f)) ==> Unpruned(s', f))
    ensures Logical(f.Mem()) == old(Logical(f.Mem())) && s'.wal == s.wal
  {
    hide Inv, Txs, f.Valid, Writable, FileOk, SealFile, Logical;
    MatchesBase(base, s);
    SealAccepted(base, s);
    ghost var file := SealFile(base, s.m);
    f.SealDelta();
    s' := s.(m := Sealed(s.m), active := s.active + [file], disk := s.disk[file.generation := file]);
    StepKeeps(base, depth, s, SealRun, s');
  }

  /** Publishing a snapshot is a CompactRuns step. */
  method CompactStep(f: OnlineForest, ghost base: Base, ghost depth: nat, ghost s: Sys) returns (ghost s': Sys)
    requires f.Valid() && Matches(base, s, f) && f.forest.arena.dirty == map[] && f.lsn == f.durableLsn
    modifies f`generation, f.forest.arena`runs, f.forest.arena`indexes
    ensures f.Valid() && Next(base, depth, s, CompactRuns, s') && Matches(base, s', f) && (old(Unpruned(s, f)) ==> Unpruned(s', f))
  {
    hide Inv, Txs, f.Valid, Writable, FileOk, SnapshotFile, Logical, Same;
    MatchesBase(base, s);
    SealAccepted(base, s);
    ghost var file := SnapshotFile(base, s.m);
    f.CompactDeltas();
    s' := s.(m := Compacted(s.m), active := [file], disk := s.disk[file.generation := file], obsolete := Generation(s.active));
    StepKeeps(base, depth, s, CompactRuns, s');
  }
}
