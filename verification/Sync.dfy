/** Following the active chain (SequentialSync in src/sync.cpp): blocks are connected to the online
    forest, after a proof of their deletions where one is wanted, and taken off until the store's
    chain agrees with the active one. */
module Sync {
  import opened Common
  import opened Records
  import opened ForestState
  import opened Arena
  import opened Transactions
  import opened Layering
  import opened LeafTable
  import opened LeafIndex
  import opened Packed
  import opened Online
  import opened Blocks
  import Accumulator
  import Durability
  import Trees
  import Verify
  import Complete
  import ProofPlan
  import Bits
  import Position

  /** The chain vector ends at the store's point. */
  predicate Tipped(m: Memory) { |m.chain| == m.point.height + 1 && m.chain[|m.chain| - 1] == m.point.hash }

  /** A rollback that succeeds takes exactly one hash off the chain and lands on the one below. */
  lemma RollbackChain(m: Memory, txs: seq<Tx>)
    requires Tipped(m) && Durability.Rollback(m, txs).Ok?
    ensures |m.chain| >= 2 && Tipped(Durability.Rollback(m, txs).value)
    ensures Durability.Rollback(m, txs).value.chain == m.chain[..|m.chain| - 1]
    ensures Durability.Rollback(m, txs).value.point.height + 1 == m.point.height
  {
    hide Durability.LastConnect, Durability.Expected, Overlay;
  }

  const MAX_HEIGHT: nat := 0xFFFF_FFFF

  /** A connected block extends the chain by its hash. */
  lemma BlockExtends(m: Memory, tx: Tx, m': Memory)
    requires Block(m, tx, m')
    ensures m'.point == tx.point && m'.chain == m.chain + [tx.point.hash] && tx.point.height == |m.chain|
  {
    hide Touches, Durability.CleanChanges, Images, Rewrites;
  }

  /** What a block brings: where it stands, the leaves it creates and those it spends. */
  datatype Delta = Delta(point: Point, previous: Hash, additions: seq<Hash>, deletions: seq<Hash>)

  /** The state and the trees are those of when only the first `n` of the blocks were connected. */
  ghost predicate BackAt(now: State, rows: seq<Row>, blocks: seq<Past>, n: nat, last: State, lastRows: seq<Row>) {
    && n <= |blocks|
    && var was := if n == |blocks| then last else blocks[n].before;
       Same(now.(lsn := was.lsn), was) && rows == if n == |blocks| then lastRows else blocks[n].rows
  }

  class SequentialSync {
    var chainHashes: seq<Hash>
    const forest: OnlineForest

    /** The chain vector is the store's. */
    ghost predicate Valid()
      reads this, forest, forest.forest, forest.forest.arena, forest.forest.index
    { forest.Valid() && chainHashes == forest.chain }

    constructor (forest: OnlineForest)
      requires forest.Valid()
      ensures Valid() && this.forest == forest
    {
      this.forest := forest;
      chainHashes := forest.chain;
    }

    function CurrentPoint(): Option<Point>
      reads this
    {
      if chainHashes == [] then None else Some(Point(|chainHashes| - 1, chainHashes[|chainHashes| - 1]))
    }

    // ---- taking blocks off --------------------------------------------------------------

    /** No block on the chain extended the arena over records that were live. */
    ghost predicate Restorable()
      reads this, forest
    { forall past | past in forest.blocks :: Stale(past.tx) == {} }

    /** Where the store is after taking blocks off. */
    ghost predicate Retreated(chain: seq<Hash>, blocks: seq<Past>, last: State, lastRows: seq<Row>)
      reads this, forest, forest.forest, forest.forest.arena
    {
      && chainHashes == forest.chain <= chain && forest.blocks <= blocks
      && |chain| - |chainHashes| == |blocks| - |forest.blocks|
      && BackAt(Logical(forest.Mem()), forest.forest.rows, blocks, |forest.blocks|, last, lastRows)
    }

    /** One disconnected block; the non-contiguous outcome the source guards against cannot occur. */
    method DisconnectTip(written: bool) returns (r: Result<()>)
      requires Valid() && Restorable()
      modifies this, forest`point, forest`chain, forest`lsn, forest`log, forest`blocks, forest.forest, forest.forest.arena, forest.forest.index
      ensures r.Ok? <==> written && Durability.Rollback(old(forest.Mem()), old(forest.log)).Ok?
      ensures r.Ok? ==> Valid() && Restorable() && old(forest.blocks) != [] && |old(chainHashes)| >= 2
                        && chainHashes == old(chainHashes)[..|old(chainHashes)| - 1]
                        && forest.blocks == old(forest.blocks)[..|old(forest.blocks)| - 1]
                        && forest.RolledBack(old(forest.blocks)[|old(forest.blocks)| - 1])
                        && forest.forest.arena.next <= old(forest.forest.arena.next)
      ensures r.Err? ==> forest.Mem() == old(forest.Mem()) && forest.log == old(forest.log) && forest.forest.rows == old(forest.forest.rows)
                         && forest.blocks == old(forest.blocks) && chainHashes == old(chainHashes)
                         && (old(forest.forest.arena.next) < NO_NODE ==> Valid())
    {
      hide PackedForest.Valid, PackedForest.TreesValid, Same, Durability.Rollback, Stale, Tipped, OnlineForest.Undoes;
      ghost var m, log := forest.Mem(), forest.log;
      var point := CurrentPoint();
      TipBounds(forest);
      ChainTipped(forest);
      var rolledBack := forest.RollbackOnlineBlock(written);
      if rolledBack.Err? { return Err(rolledBack.error); }
      RollbackChain(m, log);
      TippedAt(m);
      TippedAt(forest.Mem());
      SameHeader(Logical(forest.Mem()), old(forest.blocks)[|old(forest.blocks)| - 1].before);
      if |chainHashes| < 2 || rolledBack.value.height + 1 != point.value.height || chainHashes[rolledBack.value.height] != rolledBack.value.hash {
        assert false;
      }
      chainHashes := chainHashes[..|chainHashes| - 1];
      return Ok(());
    }

    /** The tip was taken off by DisconnectTip, so the store is one block further back. */
    lemma FurtherBack(blocks: seq<Past>, last: State, lastRows: seq<Row>, n: nat)
      requires 0 < n <= |blocks| && forest.blocks == blocks[..n - 1] && forest.RolledBack(blocks[n - 1])
      ensures BackAt(Logical(forest.Mem()), forest.forest.rows, blocks, |forest.blocks|, last, lastRows)
    {
      hide PackedForest.TreesValid, Same, OnlineForest.Undoes, View;
    }

    /** Disconnect until the active chain has the tip. Success stops at the highest height where the
        two chains agree, with the records, roots, leaf count and trees from when that block was the
        tip; failure stops on the way, where a block could not be looked up or taken off. */
    method ReconcileCurrentPoint(active: nat -> Option<Hash>, written: nat -> bool) returns (r: Result<nat>)
      requires Valid() && Restorable()
      modifies this, forest`point, forest`chain, forest`lsn, forest`log, forest`blocks, forest.forest, forest.forest.arena, forest.forest.index
      ensures Retreated(old(chainHashes), old(forest.blocks), old(Logical(forest.Mem())), old(forest.forest.rows))
      ensures r.Ok? || old(forest.forest.arena.next) < NO_NODE ==> Valid()
      ensures forall k | |chainHashes| <= k < |old(chainHashes)| :: active(k).Some? && active(k) != Some(old(chainHashes)[k])
      ensures chainHashes != [] && (r.Ok? <==> active(|chainHashes| - 1) == Some(chainHashes[|chainHashes| - 1]))
      ensures r.Ok? ==> r.value == |old(chainHashes)| - |chainHashes|
      ensures r.Err? ==> active(|chainHashes| - 1).None? || !written(|chainHashes| - 1) || Durability.Rollback(forest.Mem(), forest.log).Err?
    {
      hide PackedForest.Valid, PackedForest.TreesValid, OnlineForest.RolledBack, Same, Durability.Rollback, Stale, OnlineForest.Undoes, BackAt;
      ghost var chain, blocks, last, rows := chainHashes, forest.blocks, Logical(forest.Mem()), forest.forest.rows;
      NotYetBack(last, rows, blocks);
      var disconnected := 0;
      while true
        invariant Valid() && Restorable() && disconnected == |chain| - |chainHashes| && Retreated(chain, blocks, last, rows)
        invariant forest.forest.arena.next <= old(forest.forest.arena.next)
        invariant forall k | |chainHashes| <= k < |chain| :: active(k).Some? && active(k) != Some(chain[k])
        decreases |chainHashes|
      {
        ChainTipped(forest);
        TippedAt(forest.Mem());
        var point := CurrentPoint();
        var activeHash := active(point.value.height);
        if activeHash.None? { return Err("active chain lookup failed"); }
        if activeHash.value == point.value.hash { return Ok(disconnected); }
        ghost var n := |forest.blocks|;
        assert n > 0 ==> forest.blocks[n - 1] == blocks[n - 1] && forest.blocks[..n - 1] == blocks[..n - 1];
        var taken := DisconnectTip(written(point.value.height));
        if taken.Err? { return Err(taken.error); }
        FurtherBack(blocks, last, rows, n);
        disconnected := disconnected + 1;
      }
    }

    /** Disconnect down to a given point. Success ends there, with the state from when it was the
        tip; a target off the chain is reported after the blocks above its height came off. */
    method RollbackTo(target: Point, written: nat -> bool) returns (r: Result<nat>)
      requires Valid() && Restorable()
      modifies this, forest`point, forest`chain, forest`lsn, forest`log, forest`blocks, forest.forest, forest.forest.arena, forest.forest.index
      ensures Retreated(old(chainHashes), old(forest.blocks), old(Logical(forest.Mem())), old(forest.forest.rows))
      ensures r.Ok? || old(forest.forest.arena.next) < NO_NODE ==> Valid()
      ensures r.Ok? <==> CurrentPoint() == Some(target)
      ensures r.Ok? ==> r.value == |old(chainHashes)| - |chainHashes|
      ensures r.Ok? ==> target.height < |old(chainHashes)| && old(chainHashes)[target.height] == target.hash
      ensures target.height >= |old(chainHashes)| ==> r.Err? && chainHashes == old(chainHashes) && forest.Mem() == old(forest.Mem())
      ensures r.Err? && target.height < |old(chainHashes)| ==>
              target.height < |chainHashes|
              && if |chainHashes| == target.height + 1 then old(chainHashes)[target.height] != target.hash
                 else !written(|chainHashes| - 1) || Durability.Rollback(forest.Mem(), forest.log).Err?
    {
      hide PackedForest.Valid, PackedForest.TreesValid, OnlineForest.RolledBack, Same, Durability.Rollback, Stale, OnlineForest.Undoes, BackAt;
      ghost var chain, blocks, last, rows := chainHashes, forest.blocks, Logical(forest.Mem()), forest.forest.rows;
      NotYetBack(last, rows, blocks);
      ChainTipped(forest);
      TippedAt(forest.Mem());
      var current := CurrentPoint();
      if target.height > current.value.height { return Err("rollback target is above the current point"); }
      var disconnected := 0;
      while |chainHashes| - 1 > target.height
        invariant Valid() && Restorable() && disconnected == |chain| - |chainHashes| && Retreated(chain, blocks, last, rows)
        invariant forest.forest.arena.next <= old(forest.forest.arena.next) && |chainHashes| > target.height
        decreases |chainHashes|
      {
        ghost var n := |forest.blocks|;
        assert n > 0 ==> forest.blocks[n - 1] == blocks[n - 1] && forest.blocks[..n - 1] == blocks[..n - 1];
        var taken := DisconnectTip(written(|chainHashes| - 1));
        if taken.Err? { return Err(taken.error); }
        FurtherBack(blocks, last, rows, n);
        disconnected := disconnected + 1;
      }
      if CurrentPoint() != Some(target) { return Err("rollback target hash is not in the retained online chain"); }
      return Ok(disconnected);
    }

    // ---- connecting a block -------------------------------------------------------------

    /** The fetched block, if it is the one that extends the chain. */
    function NextBlock(fetched: Result<Point>, delta: Result<Delta>): (r: Result<Delta>)
      requires chainHashes != []
      reads this
      ensures r.Ok? <==> && |chainHashes| <= MAX_HEIGHT && fetched.Ok? && fetched.value.height == |chainHashes|
                         && delta.Ok? && delta.value.point == fetched.value && delta.value.previous == chainHashes[|chainHashes| - 1]
      ensures r.Ok? ==> r == delta
    {
      var height := |chainHashes|;
      if height > MAX_HEIGHT then Err("chain height exceeds the sidecar format")
      else if fetched.Err? then Err(fetched.error)
      else if fetched.value.height != height then Err("fetched block height does not match the requested height")
      else if delta.Err? then delta
      else if delta.value.point.height != height || delta.value.point.hash != fetched.value.hash then
        Err("getblock result does not match the requested active-chain block")
      else if delta.value.previous != chainHashes[height - 1] then Err("block does not connect to the sidecar chain tip")
      else delta
    }

    /** Prove the deletions and check the proof against the current roots. For distinct deletions it
        fails exactly when one is not in the forest or a tree of the forest was emptied. */
    method ProveDeletions(deletions: seq<Hash>) returns (r: Result<Verify.Proof>)
      requires Valid()
      ensures NoRepeat(deletions) ==> (r.Ok? <==> (forall h | h in deletions :: forest.forest.Contains(h)) && Verify.AllPresent(forest.forest.Abstract()))
      ensures r.Ok? ==> Proves(r.value, deletions, forest.forest.parentHash, forest.forest.Abstract())
    {
      hide Represents, Read, Balanced, View, Sound, Count, Entries, Trees.WellFormed, InTransaction, OpenedRuns, StackHolds, KeysOf, Verify.VerifyOf,
           Complete.LeafTargets, Complete.RightHashes, ProofPlan.ProofPositionsOf, Verify.RootsMatch, Verify.AllPresent, Listed, Position.TreeRows,
           Remembered, AllInLog, PackedForest.Contains, Complete.NoRepeat;
      ghost var f := forest.forest.Abstract();
      var generated := forest.forest.Prove(deletions);
      if generated.Err? { return Err("could not generate pre-block proof: " + generated.error); }
      var listed := forest.forest.Roots();
      var roots: seq<Hash> := [];
      var i := 0;
      Complete.RowsBound(f);
      while i < |listed|
        invariant 0 <= i == |roots| <= |listed| && forall j | 0 <= j < i :: listed[j] == Some(roots[j])
      {
        if listed[i].None? {
          MissingRoot(forest.forest.parentHash, f, listed, 0, i);
          return Err("pre-block forest contains a missing root");
        }
        roots := roots + [listed[i].value];
        i := i + 1;
      }
      ListedRoots(forest.forest.parentHash, f, listed, roots);
      if NoRepeat(deletions) {
        DistinctPositions(f, generated.value.targets, deletions);
        Complete.VerifyComplete(forest.forest.parentHash, f, generated.value, deletions, roots);
      }
      var verified := Verify.VerifyProof(forest.forest.parentHash, generated.value, deletions, roots, forest.forest.numLeaves);
      if verified.Err? { return Err("could not verify generated pre-block proof: " + verified.error); }
      if !verified.value { return Err("generated pre-block proof does not match forest roots"); }
      return generated;
    }

    /** The vector grows before the forest changes and shrinks again when the forest refuses. */
    method Connect(block: Delta, written: bool) returns (r: Result<()>)
      requires Valid() && forest.forest.numLeaves + |block.additions| <= Bits.Pow2(Position.MAX_ROWS) && block.point.height == |chainHashes|
      modifies this, forest`point, forest`chain, forest`lsn, forest`log, forest`blocks, forest.forest, forest.forest.arena, forest.forest.index
      ensures r.Ok? <==> written && old(forest.Applies(block.additions, block.deletions))
      ensures r.Ok? ==> Valid() && chainHashes == old(chainHashes) + [block.point.hash]
      ensures r.Ok? ==> exists tx, dead ::
                && forest.log == old(forest.log) + [tx] && Block(old(forest.Mem()), tx, forest.Mem())
                && forest.blocks == old(forest.blocks) + [Past(old(Logical(forest.Mem())), old(forest.forest.rows), tx)]
                && Applied(forest.forest.rows, forest.forest.numLeaves, old(forest.forest.arena.Nodes()), old(forest.forest.rows),
                           old(forest.forest.numLeaves), block.additions, block.deletions, dead)
      ensures r.Err? ==> chainHashes == old(chainHashes) && forest.Mem() == old(forest.Mem()) && forest.log == old(forest.log)
                         && forest.blocks == old(forest.blocks) && forest.forest.rows == old(forest.forest.rows)
                         && forest.forest.arena.Ledger() == old(forest.forest.arena.Ledger())
                         && (old(forest.forest.arena.next) < NO_NODE ==> Valid())
    {
      hide PackedForest.Valid, PackedForest.TreesValid, OnlineForest.Undoes, OnlineForest.Applies, Block, Applied, Named, Spends;
      ghost var m := forest.Mem();
      ChainTipped(forest);
      TippedAt(forest.Mem());
      chainHashes := chainHashes + [block.point.hash];
      var modified, dead := forest.ModifyBlock(block.additions, block.deletions, block.point, written);
      if modified.Err? {
        chainHashes := chainHashes[..|chainHashes| - 1];
        return Err("could not apply block transition: " + modified.error);
      }
      ghost var tx := forest.log[|old(forest.log)|];
      BlockExtends(m, tx, forest.Mem());
      return Ok(());
    }

    /** Connect the next block of the active chain: where the policy wants it, its deletions are
        proved first. A block that the forest would take is refused under the policy exactly when
        some tree of the forest was emptied. */
    method ProcessNext(fetched: Result<Point>, delta: Result<Delta>, policy: Result<bool>, written: bool) returns (r: Result<Option<Verify.Proof>>)
      requires Valid() && (delta.Ok? ==> forest.forest.numLeaves + |delta.value.additions| <= Bits.Pow2(Position.MAX_ROWS))
      modifies this, forest`point, forest`chain, forest`lsn, forest`log, forest`blocks, forest.forest, forest.forest.arena, forest.forest.index
      ensures r.Ok? <==>
              && |old(chainHashes)| <= MAX_HEIGHT && fetched.Ok? && fetched.value.height == |old(chainHashes)|
              && delta.Ok? && delta.value.point == fetched.value && delta.value.previous == old(chainHashes)[|old(chainHashes)| - 1]
              && policy.Ok? && (policy.value ==> old(Verify.AllPresent(forest.forest.Abstract())))
              && written && old(forest.Applies(delta.value.additions, delta.value.deletions))
      ensures r.Ok? ==> Valid() && chainHashes == old(chainHashes) + [fetched.value.hash] && CurrentPoint() == Some(delta.value.point)
      ensures r.Ok? ==> r.value.Some? == policy.value
      ensures r.Ok? && policy.value ==> Proves(r.value.value, delta.value.deletions, forest.forest.parentHash, old(forest.forest.Abstract()))
      ensures r.Ok? ==> exists tx, dead ::
                && forest.log == old(forest.log) + [tx] && Block(old(forest.Mem()), tx, forest.Mem())
                && forest.blocks == old(forest.blocks) + [Past(old(Logical(forest.Mem())), old(forest.forest.rows), tx)]
                && Applied(forest.forest.rows, forest.forest.numLeaves, old(forest.forest.arena.Nodes()), old(forest.forest.rows),
                           old(forest.forest.numLeaves), delta.value.additions, delta.value.deletions, dead)
      ensures r.Err? ==> chainHashes == old(chainHashes) && forest.Mem() == old(forest.Mem()) && forest.log == old(forest.log)
                         && forest.blocks == old(forest.blocks) && forest.forest.rows == old(forest.forest.rows)
                         && forest.forest.arena.Ledger() == old(forest.forest.arena.Ledger())
                         && (old(forest.forest.arena.next) < NO_NODE ==> Valid())
    {
      hide PackedForest.Valid, PackedForest.TreesValid, PackedForest.Contains, OnlineForest.Undoes, NoRepeat, Block, Applied, Verify.AllPresent, Proves, View, Read,
           Accumulator.Branches;
      ChainTipped(forest);
      TippedAt(forest.Mem());
      var next := NextBlock(fetched, delta);
      if next.Err? { return Err(next.error); }
      var block := next.value;
      if policy.Err? { return Err("proof-generation policy failed: " + policy.error); }
      var proof: Option<Verify.Proof> := None;
      if policy.value {
        var generated := ProveDeletions(block.deletions);
        if generated.Err? { return Err(generated.error); }
        proof := Some(generated.value);
      }
      var connected := Connect(block, written);
      if connected.Err? { return Err(connected.error); }
      return Ok(proof);
    }
  }

  /** The proof names the positions of the leaves in the forest, with the hashes they need there. */
  ghost predicate Proves(proof: Verify.Proof, targets: seq<Hash>, parentHash: Combine, f: Trees.Forest) {
    && Trees.Rows(f) <= Position.MAX_ROWS && ProofPlan.Words(proof.targets) && Complete.LeafTargets(f, proof.targets, targets)
    && Complete.RightHashes(parentHash, f, ProofPlan.ProofPositionsOf(Complete.ShapeOf(f), proof.targets), proof.hashes)
  }

  lemma NotYetBack(now: State, rows: seq<Row>, blocks: seq<Past>)
    ensures BackAt(now, rows, blocks, |blocks|, now, rows)
  {}

  lemma TippedAt(m: Memory)
    requires Tipped(m)
    ensures |m.chain| == m.point.height + 1 && m.chain[|m.chain| - 1] == m.point.hash
  {}

  lemma ChainTipped(f: OnlineForest)
    requires f.Valid()
    ensures Tipped(f.Mem())
  {
    hide PackedForest.Valid, OnlineForest.Undoes;
  }

  /** The arena was no longer before the tip. */
  lemma TipBounds(f: OnlineForest)
    requires f.Valid()
    ensures f.blocks != [] ==> f.blocks[|f.blocks| - 1].before.point.height < f.point.height && f.blocks[|f.blocks| - 1].before.next <= f.forest.arena.next
  {
    hide PackedForest.Valid;
    if f.blocks != [] {
      TipFound(f);
      TipUndoes(f.forest.parentHash, f.Mem(), f.blocks[|f.blocks| - 1]);
    }
  }
}
