/** The online store as a state machine: what every run keeps, and what a crash at any point of
    it leaves for recovery (OnlineStore, FlushOnline and RollbackOnlineBlock in src/forest.cpp). */
module OnlineRuns {
  import opened Common
  import opened Records
  import opened Layering
  import opened Transactions
  import opened DeltaStore
  import opened Durability
  import opened CleanRecords
  import opened LogRecords
  import opened LogSteps

  /** The running store, its files, and the history behind them. With `logged` unset, blocks are
      connected without writing to the log; `unlogged` are their LSNs. */
  datatype Sys = Sys(m: Memory, active: seq<File>, disk: map<nat, File>, obsolete: set<nat>, wal: seq<seq<Rec>>, floor: nat, logged: bool,
                     unlogged: set<nat>, history: seq<Snap>, log: seq<Tx>)

  datatype Step =
    | Connect(tx: Tx, newSegment: bool)
    | ConnectUnlogged(tx: Tx)
    | FailConnect(tx: Tx, after: Memory, newSegment: bool)
    | Disconnect(newSegment: bool)
    | FailDisconnect(after: Memory, newSegment: bool)
    | SealRun
    | CompactRuns
    | Unlink(generation: nat)
    | Prune(segment: nat, bound: nat)
    | Crash(keep: nat, logged: bool)

  /** Heights below this are outside the undo window. */
  function Floor(height: nat, depth: nat): nat { if height > depth then height - depth else 0 }

  /** A block changes the dirty records and the header, and its transaction says how. */
  ghost predicate Connects(base: Base, m: Memory, tx: Tx, m': Memory) {
    && tx.kind == CONNECT && tx.beforeNext <= tx.afterNext
    && Links(Logical(m), tx, Logical(m')) && Images(Logical(m), tx) && CleanChanges(tx.changes)
    && m'.layers == m.layers.(dirty := m'.layers.dirty) && CleanMap(m'.layers.dirty)
    && m'.durableLsn == m.durableLsn && m'.generation == m.generation
    && Sane(base, Logical(m'))
  }

  function LastSnap(s: Sys): Snap
    requires s.history != []
  { s.history[|s.history| - 1] }

  function Recs(s: Sys): seq<Rec> { Flat(s.wal) }

  /** The transaction that a rollback of the tip finds. */
  function Found(s: Sys): Option<Tx> { LastConnect(Txs(Recs(s)), s.m.point) }

  function Undoing(s: Sys): Tx
    requires Found(s).Some?
  { Reversal(s.m, Found(s).value) }

  /** A rollback of the tip succeeds, having found the transaction that connected it. */
  ghost predicate Disconnects(s: Sys, m': Memory)
    requires s.history != []
  {
    && LastSnap(s).marks != [] && Found(s) == Some(LastSnap(s).marks[|LastSnap(s).marks| - 1].tx)
    && Rollback(s.m, Txs(Recs(s))) == Ok(m')
  }

  function Pushed(s: Sys, tx: Tx, m': Memory): Snap
    requires s.history != []
  { Snap(Logical(m'), LastSnap(s).marks + [Mark(Logical(s.m), tx)]) }

  function PoppedTo(s: Sys, m': Memory): Snap
    requires s.history != []
  { Snap(Logical(m'), Popped(LastSnap(s).marks)) }

  /** The block is done: it is in the log and in the history. */
  function Done(s: Sys, m': Memory, tx: Tx, snap: Snap, newSegment: bool): Sys {
    s.(m := m', wal := Appended(s.wal, Rec(tx, false, snap), newSegment), log := s.log + [tx], history := s.history + [snap])
  }

  /** The append failed: the store is as before, and the record stays behind. */
  function Failed(s: Sys, tx: Tx, snap: Snap, newSegment: bool): Sys {
    s.(wal := Appended(s.wal, Rec(tx, true, snap), newSegment))
  }

  function Generation(active: seq<File>): set<nat> { set f | f in active :: f.generation }

  /** No acknowledged record that was durable at the last publication is lost. */
  ghost predicate CutAllowed(recs: seq<Rec>, kept: seq<Rec>, durable: nat) {
    forall k | 0 <= k < |recs| && !recs[k].failed && recs[k].tx.lsn <= durable :: k < |kept|
  }

  ghost predicate Next(base: Base, depth: nat, s: Sys, step: Step, s': Sys) {
    s.history != [] &&
    match step
    case Connect(tx, newSegment) =>
      s.logged && Connects(base, s.m, tx, s'.m) && s' == Done(s, s'.m, tx, Pushed(s, tx, s'.m), newSegment)
    case ConnectUnlogged(tx) =>
      && !s.logged && Connects(base, s.m, tx, s'.m)
      && s' == s.(m := s'.m, unlogged := s.unlogged + {tx.lsn}, log := s.log + [tx], history := s.history + [Pushed(s, tx, s'.m)])
    case FailConnect(tx, m', newSegment) =>
      s.logged && Connects(base, s.m, tx, m') && s' == Failed(s, tx, Pushed(s, tx, m'), newSegment)
    case Disconnect(newSegment) =>
      s.logged && Disconnects(s, s'.m) && s' == Done(s, s'.m, Undoing(s), PoppedTo(s, s'.m), newSegment)
    case FailDisconnect(m', newSegment) =>
      s.logged && Disconnects(s, m') && s' == Failed(s, Undoing(s), PoppedTo(s, m'), newSegment)
    case SealRun =>
      var f := SealFile(base, s.m);
      && Writable(s.disk, f, s.m.chain) && FileOk(f)
      && s' == s.(m := Sealed(s.m), active := s.active + [f], disk := s.disk[f.generation := f])
    case CompactRuns =>
      var f := SnapshotFile(base, s.m);
      && s.m.layers.dirty == map[] && s.m.lsn == s.m.durableLsn
      && Writable(s.disk, f, s.m.chain) && FileOk(f)
      && s' == s.(m := Compacted(s.m), active := [f], disk := s.disk[f.generation := f], obsolete := Generation(s.active))
    case Unlink(g) =>
      g in s.obsolete && s' == s.(disk := s.disk - {g})
    case Prune(i, bound) =>
      // Without a log there is no undo window to keep.
      && i < |s.wal| && (s.logged ==> bound == Floor(s.m.point.height, depth))
      && (forall r | r in s.wal[i] :: r.tx.lsn <= s.m.durableLsn && r.tx.point.height < bound)
      && s' == s.(wal := s.wal[..i] + s.wal[i + 1..], floor := if bound > s.floor then bound else s.floor)
    case Crash(keep, logged) =>
      var kept := Flat(Cut(s.wal, keep));
      && CutAllowed(Recs(s), kept, s.m.durableLsn)
      && Recover(base, s.disk, TxWal(Cut(s.wal, keep))) == Ok(s'.m)
      && s' == s.(m := s'.m, wal := Adopted(Cut(s.wal, keep), s.m.durableLsn), obsolete := {}, logged := logged,
                  unlogged := PastUnlogged(s.m.durableLsn, s.unlogged), log := PastLog(base, s.log, s.m.durableLsn, kept),
                  history := PastStates(base, s.history, s.m.durableLsn, kept))
  }

  // ---- the invariant --------------------------------------------------------------------

  ghost predicate OnDisk(base: Base, s: Sys) {
    && BaseOk(base) && Stored(base, s.disk, s.active) && Behind(base, s.m, s.active)
    && (forall g | g in s.obsolete :: s.active != [] && g < s.active[0].generation)
  }

  /** The runs in use stand for the state at the durable LSN. */
  ghost predicate DurableOk(base: Base, m: Memory, active: seq<File>, history: seq<Snap>) {
    && base.lsn <= m.durableLsn && m.durableLsn - base.lsn < |history|
    && LoadAll(base, active).Ok? && Same(Logical(LoadAll(base, active).value), history[m.durableLsn - base.lsn].state)
  }

  ghost predicate Current(base: Base, m: Memory, log: seq<Tx>, history: seq<Snap>) {
    && history != [] && m.lsn == base.lsn + |log| && CleanLayers(m.layers)
    && Same(Logical(m), history[|history| - 1].state) && Sane(base, Logical(m))
  }

  ghost predicate LogHeld(base: Base, s: Sys) {
    && LogOk(base, s.history, s.log, s.unlogged, s.m.durableLsn, s.floor, Recs(s)) && Trailing(Recs(s), s.m.durableLsn, base.lsn + |s.log|)
    && (if s.logged then forall u | u in s.unlogged :: u <= s.m.durableLsn else NoneOpen(Recs(s), s.m.durableLsn))
  }

  ghost predicate Inv(base: Base, s: Sys) {
    OnDisk(base, s) && DurableOk(base, s.m, s.active, s.history) && Current(base, s.m, s.log, s.history) && LogHeld(base, s)
  }

  // ---- recovery, at any point -----------------------------------------------------------

  lemma DurableLsn(base: Base, active: seq<File>)
    requires LoadAll(base, active).Ok?
    ensures LoadAll(base, active).value.lsn == LoadAll(base, active).value.durableLsn
  {}

  lemma BaseClean(base: Base, m: Memory, active: seq<File>)
    requires Behind(base, m, active) && CleanLayers(m.layers)
    ensures CleanMap(LoadAll(base, active).value.layers.dirty) && CleanLayers(LoadAll(base, active).value.layers)
  {
    hide LoadAll, CleanRun, Clean;
  }

  /** The last publication is where replay starts. */
  lemma ReplayStarts(base: Base, s: Sys)
    requires OnDisk(base, s) && DurableOk(base, s.m, s.active, s.history) && CleanLayers(s.m.layers)
    ensures Recovered(base, s.disk) == LoadAll(base, s.active) && LoadAll(base, s.active).Ok?
    ensures var d := LoadAll(base, s.active).value; d.durableLsn == s.m.durableLsn && Starts(base, d, s.history)
  {
    hide Stored, Sane, Same, Logical, Recovered, LoadAll, CleanRun, CleanMap, BaseOk;
    RecoversActive(base, s.disk, s.active);
    BaseClean(base, s.m, s.active);
    DurableLsn(base, s.active);
  }

  /** Whatever is left of the last segment, recovery succeeds exactly when no leftover record is
      followed by another, and reaches the state after the last record. */
  lemma RecoverIff(base: Base, s: Sys, keep: nat)
    requires Inv(base, s)
    ensures var r, kept := Recover(base, s.disk, TxWal(Cut(s.wal, keep))), Flat(Cut(s.wal, keep));
            && (r.Ok? <==> Healthy(kept, s.m.durableLsn))
            && (r.Ok? ==>
                var target := Target(base, s.history, s.m.durableLsn, kept);
                && target.Some? && Same(Logical(r.value), target.value.state) && r.value.lsn == Reach(s.m.durableLsn, kept)
                && r.value.generation == s.m.generation && r.value.durableLsn == s.m.durableLsn
                && r.value.layers == s.m.layers.(dirty := r.value.layers.dirty) && CleanMap(r.value.layers.dirty))
  {
    hide OnDisk, Same, Logical, Recovered, RedoAll, LoadAll, LogOk, Starts, CleanMap, Healthy, Target, Reach, Trailing, CleanRun, Sane, DurableOk, Cut;
    ReplayStarts(base, s);
    var d := LoadAll(base, s.active).value;
    LoadedIs(base, s);
    FlatCut(s.wal, keep);
    FlatTxWal(Cut(s.wal, keep));
    RedoIff(base, d, s.history, s.log, s.unlogged, s.floor, Recs(s), Flat(Cut(s.wal, keep)));
  }

  lemma LoadedIs(base: Base, s: Sys)
    requires OnDisk(base, s)
    ensures LoadAll(base, s.active).Ok?
    ensures var d := LoadAll(base, s.active).value; d.layers == s.m.layers.(dirty := map[]) && d.generation == s.m.generation
  {
    hide Stored, BaseOk, LoadAll;
  }

  // ---- publications keep the invariant --------------------------------------------------

  lemma SameLogical(base: Base, m: Memory, m': Memory, log: seq<Tx>, history: seq<Snap>)
    requires Current(base, m, log, history) && Same(Logical(m'), Logical(m)) && CleanLayers(m'.layers)
    ensures Current(base, m', log, history)
  {
    hide CleanLayers, Sane, Logical;
    CleanView(m');
    SameTrans(Logical(m'), Logical(m), history[|history| - 1].state);
    SaneSame(base, Logical(m), Logical(m'));
    SameLsn(m', m);
  }

  lemma SameLsn(a: Memory, b: Memory)
    requires Same(Logical(a), Logical(b))
    ensures a.lsn == b.lsn
  {}

  lemma CurrentClean(base: Base, m: Memory, log: seq<Tx>, history: seq<Snap>)
    requires Current(base, m, log, history)
    ensures CleanLayers(m.layers) && Sane(base, Logical(m)) && m.lsn == base.lsn + |log|
  {}

  lemma SealSame(m: Memory)
    ensures Same(Logical(Sealed(m)), Logical(m)) && Logical(Sealed(m)) == Logical(m)
  {
    hide Seal, Similar;
    SealView(m.layers, m.next);
    SameRefl(Logical(m));
  }

  lemma SealKeeps(base: Base, depth: nat, s: Sys, s': Sys)
    requires Inv(base, s) && Next(base, depth, s, SealRun, s')
    ensures Inv(base, s')
  {
    hide LogOk, Stored, Sane, Similar, Logical, LoadAll, CleanLayers, FileOk, Writable, SealFile, Current, Trailing, NoneOpen, Seal, DurableOk, Behind;
    CurrentClean(base, s.m, s.log, s.history);
    SealPublishes(base, s.disk, s.active, s.m);
    SealSame(s.m);
    CleanSeal(s.m.layers, s.m.next);
    SameLogical(base, s.m, s'.m, s.log, s.history);
    LogOkLength(base, s.history, s.log, s.unlogged, s.m.durableLsn, s.floor, Recs(s));
    BehindLsn(base, s.m, s.active);
    PublishedDurable(base, s'.m, s.log, s.history, s'.active);
    SealLog(base, s, s');
  }

  lemma BehindLsn(base: Base, m: Memory, active: seq<File>)
    requires Behind(base, m, active)
    ensures base.lsn <= m.durableLsn <= m.lsn
  {}

  lemma SealLog(base: Base, s: Sys, s': Sys)
    requires LogHeld(base, s) && s'.m == Sealed(s.m) && s' == s.(m := s'.m, active := s'.active, disk := s'.disk)
    requires s.m.durableLsn <= s.m.lsn == base.lsn + |s.log|
    ensures LogHeld(base, s')
  {
    hide LogOk, Seal, Trailing, NoneOpen;
    DurableKeeps(base, s.history, s.log, s.unlogged, s.m.durableLsn, s.floor, Recs(s));
    TrailingLess(Recs(s), s.m.durableLsn, s'.m.durableLsn, base.lsn + |s.log|);
    UnloggedBelow(base, s.history, s.log, s.unlogged, s.m.durableLsn, s.floor, Recs(s));
  }

  lemma UnloggedBelow(base: Base, history: seq<Snap>, log: seq<Tx>, unlogged: set<nat>, durable: nat, floor: nat, recs: seq<Rec>)
    requires LogOk(base, history, log, unlogged, durable, floor, recs)
    ensures forall u | u in unlogged :: u <= base.lsn + |log|
  {
    hide Logged, Recorded, Holds, Adjacent;
  }

  lemma TrailingLess(recs: seq<Rec>, durable: nat, durable': nat, lsn: nat)
    requires Trailing(recs, durable, lsn) && durable <= durable'
    ensures Trailing(recs, durable', lsn) && (NoneOpen(recs, durable) ==> NoneOpen(recs, durable'))
  {}

  /** What was just published stands for the current state. */
  lemma PublishedDurable(base: Base, m: Memory, log: seq<Tx>, history: seq<Snap>, active: seq<File>)
    requires Current(base, m, log, history) && |history| == |log| + 1 && m.durableLsn == m.lsn && LoadAll(base, active) == Ok(m)
    ensures DurableOk(base, m, active, history)
  {
    hide LoadAll, Same, Sane, CleanLayers, Logical;
  }

  /** In a state the invariant describes, no seal is refused. */
  lemma SealAccepted(base: Base, s: Sys)
    requires Inv(base, s)
    ensures Writable(s.disk, SealFile(base, s.m), s.m.chain) && FileOk(SealFile(base, s.m))
    ensures s.m.layers.dirty == map[] && s.m.lsn == s.m.durableLsn
            ==> Writable(s.disk, SnapshotFile(base, s.m), s.m.chain) && FileOk(SnapshotFile(base, s.m))
  {
    hide Stored, LogHeld, Sane, Similar, LoadAll, CleanLayers, FileOk, Writable, View, SealFile, SnapshotFile;
    SealPublishes(base, s.disk, s.active, s.m);
    if s.m.layers.dirty == map[] && s.m.lsn == s.m.durableLsn { CompactPublishes(base, s.disk, s.active, s.m); }
  }

  lemma CompactSame(m: Memory)
    ensures Same(Logical(Compacted(m)), Logical(m))
  {
    hide Compact, Similar;
    CompactView(m.layers, m.next);
  }

  lemma CompactKeeps(base: Base, depth: nat, s: Sys, s': Sys)
    requires Inv(base, s) && Next(base, depth, s, CompactRuns, s')
    ensures Inv(base, s')
  {
    hide LogOk, Stored, Sane, Similar, LoadAll, CleanLayers, FileOk, Writable, Logical, Compact, CleanMap, Current, Behind, DurableOk, SnapshotFile, Generation;
    CurrentClean(base, s.m, s.log, s.history);
    CompactPublishes(base, s.disk, s.active, s.m);
    CompactSame(s.m);
    CleanCompact(s.m.layers, s.m.next);
    SameLogical(base, s.m, s'.m, s.log, s.history);
    LogOkLength(base, s.history, s.log, s.unlogged, s.m.durableLsn, s.floor, Recs(s));
    PublishedDurable(base, s'.m, s.log, s.history, s'.active);
    CompactObsolete(base, s, s');
  }

  lemma CompactObsolete(base: Base, s: Sys, s': Sys)
    requires OnDisk(base, s) && s'.active == [SnapshotFile(base, s.m)] && s'.obsolete == Generation(s.active)
    ensures forall g | g in s'.obsolete :: s'.active != [] && g < s'.active[0].generation
  {
    hide LoadAll, Readable, RunOf, BaseOk;
    forall g | g in s'.obsolete ensures g < s'.active[0].generation {
      var f :| f in s.active && f.generation == g;
      var i :| 0 <= i < |s.active| && s.active[i] == f;
    }
  }

  lemma UnlinkKeeps(base: Base, depth: nat, s: Sys, g: nat, s': Sys)
    requires Inv(base, s) && Next(base, depth, s, Unlink(g), s')
    ensures Inv(base, s')
  {
    hide LogOk, LoadAll, Current, DurableOk, FileOk, Behind, BaseOk, Trailing, NoneOpen;
  }

  lemma OnDiskSame(base: Base, s: Sys, s': Sys)
    requires OnDisk(base, s) && s'.active == s.active && s'.disk == s.disk && s'.obsolete <= s.obsolete
    requires s'.m.layers == s.m.layers.(dirty := s'.m.layers.dirty) && s'.m.generation == s.m.generation && s'.m.durableLsn == s.m.durableLsn <= s'.m.lsn
    ensures OnDisk(base, s')
  {
    hide BaseOk, Stored, LoadAll;
  }

  /** Pruning keeps every record that redo needs and every one at or above the floor. */
  lemma PruneKeeps(base: Base, depth: nat, s: Sys, i: nat, bound: nat, s': Sys)
    requires Inv(base, s) && Next(base, depth, s, Prune(i, bound), s')
    ensures Inv(base, s')
    ensures forall k | 0 <= k < |Recs(s)| && Needed(Recs(s)[k].tx, s.m.durableLsn, s'.floor) :: Recs(s)[k] in Recs(s')
  {
    hide LogOk, Current, DurableOk, OnDisk, Flat, Trailing, NoneOpen;
    var before, after := FlatRemoved(s.wal, i);
    BehindDisk(base, s);
    OnDiskSame(base, s, s');
    RemoveKeeps(base, s.history, s.log, s.unlogged, s.m.durableLsn, s.floor, s'.floor, before, s.wal[i], after);
    forall k | 0 <= k < |Recs(s)| && Needed(Recs(s)[k].tx, s.m.durableLsn, s'.floor) ensures Recs(s)[k] in Recs(s') {
      Stays(before, s.wal[i], after, k);
    }
  }

  lemma Stays(before: seq<Rec>, segment: seq<Rec>, after: seq<Rec>, k: nat)
    requires k < |before + segment + after| && (before + segment + after)[k] !in segment
    ensures (before + segment + after)[k] in before + after
  {
    var recs := before + segment + after;
    var r := recs[k];
    assert |before| <= k < |before| + |segment| ==> r in segment;
    if k < |before| { assert (before + after)[k] == r; } else { assert (before + after)[k - |segment|] == r; }
  }

  lemma BehindDisk(base: Base, s: Sys)
    requires OnDisk(base, s)
    ensures s.m.durableLsn <= s.m.lsn && base.lsn <= s.m.durableLsn
  {
    hide BaseOk, Stored, LoadAll;
  }

  // ---- blocks ---------------------------------------------------------------------------

  lemma CleanDirty(l: Layers, l': Layers)
    requires CleanLayers(l) && l' == l.(dirty := l'.dirty) && CleanMap(l'.dirty)
    ensures CleanLayers(l')
  {}

  /** What a block, either way, does to the running store. */
  ghost predicate Shifts(base: Base, m: Memory, m': Memory) {
    && m'.layers == m.layers.(dirty := m'.layers.dirty) && CleanMap(m'.layers.dirty)
    && m'.durableLsn == m.durableLsn && m'.generation == m.generation && Sane(base, Logical(m')) && m'.lsn == m.lsn + 1
  }

  /** What a block, either way, leaves alone. */
  lemma BlockKeeps(base: Base, s: Sys, tx: Tx, snap: Snap, s': Sys)
    requires Inv(base, s) && Shifts(base, s.m, s'.m) && StepTo(base, LastSnap(s), tx, snap) && snap.state == Logical(s'.m)
    requires s' == s.(m := s'.m, wal := s'.wal, unlogged := s'.unlogged, log := s.log + [tx], history := s.history + [snap])
    ensures OnDisk(base, s') && DurableOk(base, s'.m, s'.active, s'.history) && Current(base, s'.m, s'.log, s'.history)
  {
    hide OnDisk, LogHeld, Sane, Similar, LoadAll, CleanLayers, Logical, CleanMap, StepTo;
    BehindDisk(base, s);
    OnDiskSame(base, s, s');
    CleanDirty(s.m.layers, s'.m.layers);
    SameRefl(snap.state);
  }

  /** A logged block keeps the invariant. */
  lemma DoneKeeps(base: Base, s: Sys, tx: Tx, snap: Snap, newSegment: bool, s': Sys)
    requires Inv(base, s) && s.logged && Shifts(base, s.m, s'.m) && StepTo(base, LastSnap(s), tx, snap) && snap.state == Logical(s'.m)
    requires s' == Done(s, s'.m, tx, snap, newSegment)
    ensures Inv(base, s')
  {
    hide OnDisk, DurableOk, Current, Shifts, StepTo, LogOk, Logical, Appended, Flat;
    BlockKeeps(base, s, tx, snap, s');
    MovesDurable(base, s.m, s'.m);
    FlatAppended(s.wal, Rec(tx, false, snap), newSegment);
    AppendKeeps(base, s.history, s.log, s.unlogged, s.m.durableLsn, s.floor, Recs(s), tx, snap);
  }

  lemma MovesDurable(base: Base, m: Memory, m': Memory)
    requires Shifts(base, m, m')
    ensures m'.durableLsn == m.durableLsn
  {}

  lemma UnloggedStep(base: Base, s: Sys, tx: Tx, snap: Snap, s': Sys)
    requires Inv(base, s) && !s.logged && Shifts(base, s.m, s'.m) && StepTo(base, LastSnap(s), tx, snap) && snap.state == Logical(s'.m)
    requires s' == s.(m := s'.m, unlogged := s.unlogged + {tx.lsn}, log := s.log + [tx], history := s.history + [snap])
    ensures Inv(base, s')
  {
    hide OnDisk, DurableOk, Current, Shifts, StepTo, LogOk, Logical, Flat, NoneOpen;
    BlockKeeps(base, s, tx, snap, s');
    MovesDurable(base, s.m, s'.m);
    UnloggedKeeps(base, s.history, s.log, s.unlogged, s.m.durableLsn, s.floor, Recs(s), tx, snap);
    NoneTrails(Recs(s), s.m.durableLsn, base.lsn + |s'.log|);
  }

  /** A failed append keeps the invariant. */
  lemma FailedKeeps(base: Base, s: Sys, tx: Tx, snap: Snap, newSegment: bool, s': Sys)
    requires Inv(base, s) && s.logged && StepTo(base, LastSnap(s), tx, snap) && s' == Failed(s, tx, snap, newSegment)
    ensures Inv(base, s')
  {
    hide OnDisk, DurableOk, Current, StepTo, LogOk, Logical, Appended, Flat;
    BehindDisk(base, s);
    OnDiskSame(base, s, s');
    FlatAppended(s.wal, Rec(tx, true, snap), newSegment);
    FailKeeps(base, s.history, s.log, s.unlogged, s.m.durableLsn, s.floor, Recs(s), tx, snap);
  }

  lemma ConnectMoves(base: Base, m: Memory, tx: Tx, m': Memory)
    requires Connects(base, m, tx, m')
    ensures Shifts(base, m, m')
  {
    hide Sane, CleanMap, View, Images, CleanChanges, ChainValid, Rewrites, Chained;
  }

  /** Connecting a block is a step of the history. */
  lemma ConnectSteps(base: Base, s: Sys, tx: Tx, m': Memory)
    requires Inv(base, s) && Connects(base, s.m, tx, m')
    ensures StepTo(base, LastSnap(s), tx, Pushed(s, tx, m'))
  {
    hide OnDisk, DurableOk, LogHeld, Sane, Similar, Logical, CleanMap, CleanLayers, Links, Images, CleanChanges;
    var last := LastSnap(s).state;
    SameRefl(last);
    SameTrans(Logical(s.m), last, last);
    SameRefl(Logical(m'));
    SameLinks(Logical(s.m), last, tx, Logical(m'), Logical(m'));
  }

  // ---- rollbacks ------------------------------------------------------------------------

  lemma LastMarked(base: Base, s: Sys)
    requires Inv(base, s)
    ensures |s.history| == |s.log| + 1 && Marked(base, s.history, s.log, |s.history| - 1)
    ensures Same(LastSnap(s).state, Logical(s.m)) && Sane(base, Logical(s.m))
  {
    hide OnDisk, DurableOk, Sane, Similar, Logical, CleanLayers, Marked, Logged, Recorded, Holds, UnloggedOk, Adjacent, NoneOpen, Trailing;
    LoggedLength(base, s.history, s.log);
    MarksFollow(base, s.history, s.log, |s.history| - 1);
    SameRefl(LastSnap(s).state);
    SameTrans(Logical(s.m), LastSnap(s).state, LastSnap(s).state);
  }

  /** The transaction that connected the tip leads to the running store. */
  lemma TipLinks(base: Base, s: Sys)
    requires Inv(base, s) && LastSnap(s).marks != []
    ensures s.history != []
    ensures var mark := LastSnap(s).marks[|LastSnap(s).marks| - 1];
            && mark.tx.kind == CONNECT && mark.tx.beforeNext <= mark.tx.afterNext && mark.tx.point == s.m.point
            && Links(mark.before, mark.tx, Logical(s.m).(lsn := mark.tx.lsn)) && Images(mark.before, mark.tx) && CleanChanges(mark.tx.changes)
            && Sane(base, mark.before)
  {
    hide Inv, Sane, Similar, CleanChanges, MarkStays, Images, View, Links;
    LastMarked(base, s);
    var n := |LastSnap(s).marks| - 1;
    var mark := LastSnap(s).marks[n];
    assert MarkLinks(base, LastSnap(s), n);
    SameRefl(mark.before);
    SameLinks(mark.before, mark.before, mark.tx, LastSnap(s).state.(lsn := mark.tx.lsn), Logical(s.m).(lsn := mark.tx.lsn));
    LinksPoint(mark.before, mark.tx, Logical(s.m).(lsn := mark.tx.lsn));
  }

  lemma LinksPoint(a: State, tx: Tx, b: State)
    requires Links(a, tx, b)
    ensures tx.point == b.point && tx.afterLeaves == b.leaves && tx.afterNext == b.next && tx.afterRoots == b.roots
  {}

  lemma CleanInverse(changes: seq<Change>)
    requires CleanChanges(changes)
    ensures CleanChanges(Inverse(changes))
  {}

  lemma RollbackIs(m: Memory, txs: seq<Tx>)
    requires Rollback(m, txs).Ok?
    ensures var t := LastConnect(txs, m.point); t.Some? && |m.chain| >= 2 && ChainValid(m.point, m.chain, Reversal(m, t.value))
    ensures Rollback(m, txs) == Ok(Undone(m, Reversal(m, LastConnect(txs, m.point).value)))
    ensures Expected(m.layers, Inverse(LastConnect(txs, m.point).value.changes))
  {
    hide Expected, LastConnect;
  }

  /** Taking off a tip whose own transaction was found is a step of the history. */
  lemma DisconnectSteps(base: Base, s: Sys, m': Memory)
    requires Inv(base, s) && Disconnects(s, m')
    ensures StepTo(base, LastSnap(s), Undoing(s), PoppedTo(s, m')) && Shifts(base, s.m, m')
  {
    hide Inv, Same, Links, Sane, CleanChanges, Images, LastConnect, Flat, Undone, Rollback, ChainValid, View, MarkLinks, MarkStays, Shifts;
    RollbackIs(s.m, Txs(Recs(s)));
    TipLinks(base, s);
    LastMarked(base, s);
    var mark := LastSnap(s).marks[|LastSnap(s).marks| - 1];
    LinksPoint(mark.before, mark.tx, Logical(s.m).(lsn := mark.tx.lsn));
    SaneShape(base, mark.before);
    UndoRestores(s.m, mark.before, mark.tx);
    ReversalLinks(s.m, mark.tx);
    CleanInverse(mark.tx.changes);
    UndoneMoves(base, s, mark.before, Undoing(s));
    UndoneSteps(base, s, mark.before, Undoing(s), m');
  }

  lemma UndoneSteps(base: Base, s: Sys, before: State, tx: Tx, m': Memory)
    requires s.history != [] && LastSnap(s).marks != [] && before == LastSnap(s).marks[|LastSnap(s).marks| - 1].before
    requires Same(LastSnap(s).state, Logical(s.m)) && Links(Logical(s.m), tx, Logical(m')) && CleanChanges(tx.changes)
    requires tx.kind == DISCONNECT && Same(Logical(m').(lsn := before.lsn), before) && Shifts(base, s.m, m')
    ensures StepTo(base, LastSnap(s), tx, PoppedTo(s, m'))
  {
    hide Links, Sane, CleanChanges, Similar, View;
    var last := LastSnap(s).state;
    SameTrans(last, Logical(s.m), Logical(s.m)) by { SameRefl(Logical(s.m)); }
    SameRefl(Logical(m'));
    SameLinks(Logical(s.m), last, tx, Logical(m'), Logical(m'));
    SameLater(before, Logical(m'));
  }

  lemma SameLater(a: State, b: State)
    requires Same(b.(lsn := a.lsn), a)
    ensures Same(a.(lsn := b.lsn), b)
  {}

  lemma SaneLater(base: Base, a: State, b: State)
    requires Sane(base, a) && Same(a.(lsn := b.lsn), b) && CleanMap(b.view) && base.lsn <= b.lsn
    ensures Sane(base, b)
  {
    SaneSame(base, a.(lsn := b.lsn), b);
  }

  lemma UndoneMoves(base: Base, s: Sys, before: State, tx: Tx)
    requires Inv(base, s) && CleanChanges(tx.changes) && s.m.chain != [] && tx.lsn == s.m.lsn + 1 && Sane(base, before)
    requires Same(Logical(Undone(s.m, tx)).(lsn := before.lsn), before)
    ensures Shifts(base, s.m, Undone(s.m, tx))
  {
    hide CleanRun, Clean, Overlay, Sane, Same, LogHeld, OnDisk, DurableOk, View, Chained, CleanMap;
    CleanOverlay(s.m.layers.dirty, tx.changes);
    var m' := Undone(s.m, tx);
    CleanDirty(s.m.layers, m'.layers);
    CleanView(m');
    SameLater(before, Logical(m'));
    SaneLater(base, before, Logical(m'));
  }

  // ---- crashes --------------------------------------------------------------------------

  lemma CrashKeeps(base: Base, depth: nat, s: Sys, keep: nat, logged: bool, s': Sys)
    requires Inv(base, s) && Next(base, depth, s, Crash(keep, logged), s')
    ensures Inv(base, s')
  {
    hide Sane, Same, Logical, CleanLayers, Recover, Cut, Flat, OnDisk, LoadAll, LogOk, Adopted, PastStates, PastLog, Target, Reach, Healthy, NoneOpen, Trailing, CleanMap, Open;
    RecoverIff(base, s, keep);
    var kept := Flat(Cut(s.wal, keep));
    FlatCut(s.wal, keep);
    BehindDisk(base, s);
    FlatAdopted(Cut(s.wal, keep), s.m.durableLsn);
    CrashLog(base, s.history, s.log, s.unlogged, s.m.durableLsn, s.floor, Recs(s), kept);
    ReachLeast(s.m.durableLsn, kept);
    NoneTrails(Recs(s'), s'.m.durableLsn, base.lsn + |s'.log|);
    OnDiskSame(base, s, s');
    CleanDirty(s.m.layers, s'.m.layers);
    CleanView(s'.m);
    LastSane(base, s', Recs(s'));
  }

  lemma ReachLeast(durable: nat, recs: seq<Rec>)
    ensures Reach(durable, recs) >= durable
  {}

  lemma LastSane(base: Base, s: Sys, recs: seq<Rec>)
    requires LogOk(base, s.history, s.log, s.unlogged, s.m.durableLsn, s.floor, recs) && s.history != []
    requires Same(Logical(s.m), LastSnap(s).state) && CleanMap(Logical(s.m).view)
    ensures Sane(base, Logical(s.m))
  {
    hide Sane, Similar, View, Logged, Recorded, Holds, UnloggedOk, Adjacent, CleanMap;
    var a := LastSnap(s).state;
    LoggedState(base, s.history, s.log, |s.history| - 1);
    SameRefl(a);
    SameTrans(Logical(s.m), a, a);
    SaneSame(base, a, Logical(s.m));
  }

  // ---- runs -----------------------------------------------------------------------------

  /** A store over a fresh base: nothing published, nothing logged. */
  ghost predicate Init(base: Base, s: Sys) {
    && BaseOk(base) && CleanLayers(Start(base).layers)
    && s == Sys(Start(base), [], map[], {}, [], 0, s.logged, {}, [Snap(Logical(Start(base)), [])], [])
  }

  lemma InitKeeps(base: Base, s: Sys)
    requires Init(base, s)
    ensures Inv(base, s)
  {
    SameRefl(Logical(Start(base)));
  }

  lemma StepKeeps(base: Base, depth: nat, s: Sys, step: Step, s': Sys)
    requires Inv(base, s) && Next(base, depth, s, step, s')
    ensures Inv(base, s')
  {
    hide Inv, Next;
    match step
    case Connect(_, _) => BlockStepKeeps(base, depth, s, step, s');
    case ConnectUnlogged(_) => BlockStepKeeps(base, depth, s, step, s');
    case FailConnect(_, _, _) => BlockStepKeeps(base, depth, s, step, s');
    case Disconnect(_) => BlockStepKeeps(base, depth, s, step, s');
    case FailDisconnect(_, _) => BlockStepKeeps(base, depth, s, step, s');
    case SealRun => SealKeeps(base, depth, s, s');
    case CompactRuns => CompactKeeps(base, depth, s, s');
    case Unlink(g) => UnlinkKeeps(base, depth, s, g, s');
    case Prune(i, bound) => PruneKeeps(base, depth, s, i, bound, s');
    case Crash(keep, logged) => CrashKeeps(base, depth, s, keep, logged, s');
  }

  predicate OnBlock(step: Step) { step.Connect? || step.ConnectUnlogged? || step.FailConnect? || step.Disconnect? || step.FailDisconnect? }

  lemma BlockStepKeeps(base: Base, depth: nat, s: Sys, step: Step, s': Sys)
    requires Inv(base, s) && Next(base, depth, s, step, s') && OnBlock(step)
    ensures Inv(base, s')
  {
    hide Inv, Connects, Disconnects, StepTo, Shifts, Logical, Appended, Flat, LastConnect, Done, Failed;
    match step
    case Connect(tx, newSegment) =>
      ConnectMoves(base, s.m, tx, s'.m);
      ConnectSteps(base, s, tx, s'.m);
      DoneKeeps(base, s, tx, Pushed(s, tx, s'.m), newSegment, s');
    case ConnectUnlogged(tx) =>
      ConnectMoves(base, s.m, tx, s'.m);
      ConnectSteps(base, s, tx, s'.m);
      UnloggedStep(base, s, tx, Pushed(s, tx, s'.m), s');
    case FailConnect(tx, m', newSegment) =>
      ConnectSteps(base, s, tx, m');
      FailedKeeps(base, s, tx, Pushed(s, tx, m'), newSegment, s');
    case Disconnect(newSegment) =>
      FoundSome(s, s'.m);
      DisconnectSteps(base, s, s'.m);
      DoneKeeps(base, s, Undoing(s), PoppedTo(s, s'.m), newSegment, s');
    case FailDisconnect(m', newSegment) =>
      FoundSome(s, m');
      DisconnectSteps(base, s, m');
      FailedKeeps(base, s, Undoing(s), PoppedTo(s, m'), newSegment, s');
  }

  lemma FoundSome(s: Sys, m': Memory)
    requires s.history != [] && Disconnects(s, m')
    ensures Found(s).Some?
  {
    hide Rollback, LastConnect, Flat;
  }

  ghost predicate IsRun(base: Base, depth: nat, states: seq<Sys>, steps: seq<Step>) {
    && |states| == |steps| + 1 && Init(base, states[0])
    && (forall i | 0 <= i < |steps| :: Next(base, depth, states[i], steps[i], states[i + 1]))
  }

  lemma {:induction false} RunKeeps(base: Base, depth: nat, states: seq<Sys>, steps: seq<Step>, i: nat)
    requires IsRun(base, depth, states, steps) && i < |states|
    ensures Inv(base, states[i])
    decreases i
  {
    hide Inv, Next, Init;
    if i == 0 {
      InitKeeps(base, states[0]);
    } else {
      RunKeeps(base, depth, states, steps, i - 1);
      StepKeeps(base, depth, states[i - 1], steps[i - 1], states[i]);
    }
  }

  /** At every point of every run, and for every cut of the last log segment: recovery succeeds if
      and only if no record left over from a failed append, above the durable LSN, is followed by
      another record. It then has the records, roots, leaf count, next id, point and chain after
      the last record that is whole on disk, or after the last publication if that is later. */
  lemma CrashSafety(base: Base, depth: nat, states: seq<Sys>, steps: seq<Step>, i: nat, keep: nat)
    requires IsRun(base, depth, states, steps) && i < |states|
    ensures var s := states[i];
            var r, kept := Recover(base, s.disk, TxWal(Cut(s.wal, keep))), Flat(Cut(s.wal, keep));
            && (r.Ok? <==> Healthy(kept, s.m.durableLsn))
            && (r.Ok? ==>
                var target := Target(base, s.history, s.m.durableLsn, kept);
                target.Some? && r.value.lsn == Reach(s.m.durableLsn, kept) && Same(Logical(r.value), target.value.state))
  {
    hide IsRun, Same, Logical, Recover, Cut, Flat, Inv, Healthy, Target, Reach;
    RunKeeps(base, depth, states, steps, i);
    RecoverIff(base, states[i], keep);
  }

  /** A crash that loses nothing of the log loses nothing: at every point of every logged run without
      a leftover record, recovery gives back the store as it is, every acknowledged block included. */
  lemma NothingLost(base: Base, depth: nat, states: seq<Sys>, steps: seq<Step>, i: nat)
    requires IsRun(base, depth, states, steps) && i < |states| && states[i].logged && NoneOpen(Recs(states[i]), states[i].m.durableLsn)
    ensures var r := Recover(base, states[i].disk, TxWal(states[i].wal));
            && r.Ok? && Same(Logical(r.value), Logical(states[i].m))
            && r.value.durableLsn == states[i].m.durableLsn && r.value.generation == states[i].m.generation
  {
    hide IsRun, Same, Logical, Recover, Flat, LogOk, OnDisk, Target, Trailing, Sane, CleanLayers, DurableOk, NoneOpen;
    var s := states[i];
    RunKeeps(base, depth, states, steps, i);
    var keep := if s.wal == [] then 0 else |s.wal[|s.wal| - 1]|;
    assert Cut(s.wal, keep) == s.wal by { CutNothing(s.wal); }
    RecoverIff(base, s, keep);
    NoneHealthy(Recs(s), s.m.durableLsn);
    BehindDisk(base, s);
    ReachesNow(base, s.history, s.log, s.unlogged, s.m.durableLsn, s.floor, Recs(s));
    SameBack(Logical(Recover(base, s.disk, TxWal(s.wal)).value), LastSnap(s).state, Logical(s.m));
  }

  lemma CutNothing<T>(wal: seq<seq<T>>)
    ensures wal != [] ==> Cut(wal, |wal[|wal| - 1]|) == wal
    ensures wal == [] ==> Cut(wal, 0) == wal
  {
    if wal != [] {
      var last := wal[|wal| - 1];
      assert last[..|last|] == last && wal[..|wal| - 1] + [last] == wal;
    }
  }

  lemma NoneHealthy(recs: seq<Rec>, durable: nat)
    requires NoneOpen(recs, durable)
    ensures Healthy(recs, durable)
  {
    hide Open;
  }

  lemma SameBack(a: State, b: State, c: State)
    requires Same(a, b) && Same(c, b)
    ensures Same(a, c)
  {
    SameRefl(b);
    SameTrans(c, b, b);
    SameTrans(a, b, c);
  }

  /** With everything logged and nothing left over, replay reaches the end of the history. */
  lemma ReachesNow(base: Base, history: seq<Snap>, log: seq<Tx>, unlogged: set<nat>, durable: nat, floor: nat, recs: seq<Rec>)
    requires LogOk(base, history, log, unlogged, durable, floor, recs) && NoneOpen(recs, durable) && base.lsn <= durable <= base.lsn + |log|
    requires forall u | u in unlogged :: u <= durable
    ensures history != [] && Target(base, history, durable, recs) == Some(history[|history| - 1]) && Reach(durable, recs) == base.lsn + |log|
  {
    hide StepTo, Logged, RecOk, InOrder, UnloggedOk, Adjacent, Needed, Holds;
    LoggedLength(base, history, log);
    ReachIs(base, history, log, unlogged, durable, floor, recs, recs);
    if durable < base.lsn + |log| {
      LoggedStep(base, history, log, |log| - 1);
      KeptAt(log, unlogged, durable, floor, recs, |log| - 1);
      var k :| 0 <= k < |recs| && !recs[k].failed && recs[k].tx == log[|log| - 1];
      ReachBounds(durable, recs, k);
    }
  }

  /** What the last seal or compaction before point `i` published. */
  function Published(base: Base, states: seq<Sys>, steps: seq<Step>, i: nat): Memory
    requires i < |states| == |steps| + 1
  {
    if i == 0 then Start(base)
    else if steps[i - 1].SealRun? || steps[i - 1].CompactRuns? then states[i].m
    else Published(base, states, steps, i - 1)
  }

  lemma StepPublishes(base: Base, depth: nat, s: Sys, step: Step, s': Sys)
    requires Inv(base, s) && Next(base, depth, s, step, s')
    ensures if step.SealRun? || step.CompactRuns? then LoadAll(base, s'.active) == Ok(s'.m) else s'.active == s.active
  {
    hide LoadAll, Stored, Behind, BaseOk, LogHeld, DurableOk, Sane, CleanLayers, SealFile, SnapshotFile, Connects, Disconnects, Recover, FileOk, Writable, Logical,
         Cut, Adopted, PastStates, PastLog, Done, Failed, CutAllowed;
    if step.SealRun? { SealPublishes(base, s.disk, s.active, s.m); }
    if step.CompactRuns? { CompactPublishes(base, s.disk, s.active, s.m); }
    if step.Connect? || step.Disconnect? || step.FailConnect? || step.FailDisconnect? { BlockActive(base, depth, s, step, s'); }
  }

  lemma BlockActive(base: Base, depth: nat, s: Sys, step: Step, s': Sys)
    requires Next(base, depth, s, step, s') && OnBlock(step)
    ensures s'.active == s.active
  {
    hide Connects, Disconnects, Logical, Appended, LastConnect, Flat;
  }

  /** At every point of every run, recovering the runs on disk gives back exactly the store that
      the last seal or compaction published: layers, next id, roots, leaf count, point, chain, LSN
      and generation. */
  lemma {:induction false} PublishedSafety(base: Base, depth: nat, states: seq<Sys>, steps: seq<Step>, i: nat)
    requires IsRun(base, depth, states, steps) && i < |states|
    ensures Recovered(base, states[i].disk) == Ok(Published(base, states, steps, i))
  {
    hide IsRun, Inv, Recovered, LoadAll, Published;
    RunKeeps(base, depth, states, steps, i);
    ActiveStored(base, states[i]);
    ActivePublished(base, depth, states, steps, i);
  }

  lemma ActiveStored(base: Base, s: Sys)
    requires Inv(base, s)
    ensures Recovered(base, s.disk) == LoadAll(base, s.active)
  {
    hide Stored, LoadAll, Recovered, BaseOk, Behind, DurableOk, Current, LogHeld;
    RecoversActive(base, s.disk, s.active);
  }

  lemma {:induction false} ActivePublished(base: Base, depth: nat, states: seq<Sys>, steps: seq<Step>, i: nat)
    requires IsRun(base, depth, states, steps) && i < |states|
    ensures LoadAll(base, states[i].active) == Ok(Published(base, states, steps, i))
    decreases i
  {
    hide Inv, Next, LoadAll, BaseOk, CleanLayers;
    if i == 0 {
      NoRuns(base);
    } else {
      ActivePublished(base, depth, states, steps, i - 1);
      RunKeeps(base, depth, states, steps, i - 1);
      StepPublishes(base, depth, states[i - 1], steps[i - 1], states[i]);
    }
  }

  /** A run that never logs: whatever was connected, a crash goes back exactly to the last
      publication. */
  lemma UnloggedCrash(base: Base, depth: nat, states: seq<Sys>, steps: seq<Step>, i: nat, keep: nat)
    requires IsRun(base, depth, states, steps) && i < |states| && forall j | 0 <= j <= i :: !states[j].logged
    ensures Recover(base, states[i].disk, TxWal(Cut(states[i].wal, keep))) == Ok(Published(base, states, steps, i))
  {
    hide IsRun, Recovered, Published;
    NothingLogged(base, depth, states, steps, i);
    PublishedSafety(base, depth, states, steps, i);
    assert TxWal(Cut(states[i].wal, keep)) == [];
  }

  lemma {:induction false} NothingLogged(base: Base, depth: nat, states: seq<Sys>, steps: seq<Step>, i: nat)
    requires IsRun(base, depth, states, steps) && i < |states| && forall j | 0 <= j <= i :: !states[j].logged
    ensures states[i].wal == []
    decreases i
  {
    hide Connects, Disconnects, Recover, Logical, BaseOk, CleanLayers, FileOk, Writable, SealFile, SnapshotFile, PastStates, PastLog, CutAllowed;
    if i > 0 {
      NothingLogged(base, depth, states, steps, i - 1);
      assert Next(base, depth, states[i - 1], steps[i - 1], states[i]);
    }
  }
}
