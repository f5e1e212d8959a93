/** The log on disk and the history behind it: which records it holds, records left behind by appends
    that failed, and what replaying any prefix of it reaches. */
module LogRecords {
  import opened Common
  import opened Records
  import opened CleanRecords
  import opened Transactions
  import opened DeltaStore
  import opened Durability

  /** A block on the chain: the state it was connected to, and the transaction that did it. */
  datatype Mark = Mark(before: State, tx: Tx)

  /** A past state with the blocks above the base that led to it. */
  datatype Snap = Snap(state: State, marks: seq<Mark>)

  /** A record in a log file. One that `failed` was written although its append reported a failure;
      `after` is the state it would have led to. */
  datatype Rec = Rec(tx: Tx, failed: bool, after: Snap)

  function Txs(recs: seq<Rec>): (r: seq<Tx>)
    ensures |r| == |recs| && forall i | 0 <= i < |r| :: r[i] == recs[i].tx
  { seq(|recs|, i requires 0 <= i < |recs| => recs[i].tx) }

  // ---- the history ----------------------------------------------------------------------

  function Popped(marks: seq<Mark>): seq<Mark> { if marks == [] then [] else marks[..|marks| - 1] }

  /** `tx` connected a block to the first state, or took its tip off again. */
  ghost predicate StepTo(base: Base, a: Snap, tx: Tx, b: Snap) {
    && Links(a.state, tx, b.state) && Sane(base, b.state) && CleanChanges(tx.changes)
    && (tx.kind == CONNECT ==>
        && b.marks != [] && b.marks == a.marks + [b.marks[|b.marks| - 1]]
        && var mark := b.marks[|b.marks| - 1];
        && mark.tx == tx && Same(a.state, mark.before) && Sane(base, mark.before) && Links(mark.before, tx, b.state)
        && Images(mark.before, tx) && tx.beforeNext <= tx.afterNext)
    && (tx.kind == DISCONNECT ==>
        && a.marks != [] && b.marks == Popped(a.marks)
        && Same(a.marks[|a.marks| - 1].before.(lsn := b.state.lsn), b.state))
  }

  /** Every logged transaction is a step between the states around it. */
  ghost predicate Logged(base: Base, history: seq<Snap>, log: seq<Tx>) {
    && |history| == |log| + 1 && history[0].marks == [] && |history[0].state.chain| == |base.chain|
    && (forall i | 0 <= i < |history| :: history[i].state.lsn == base.lsn + i && Sane(base, history[i].state))
    && (forall i | 0 <= i < |log| :: log[i].lsn == base.lsn + i + 1 && StepTo(base, history[i], log[i], history[i + 1]))
  }

  lemma LoggedStep(base: Base, history: seq<Snap>, log: seq<Tx>, i: nat)
    requires Logged(base, history, log) && i < |log|
    ensures StepTo(base, history[i], log[i], history[i + 1]) && log[i].lsn == base.lsn + i + 1 && history[i + 1].state.lsn == base.lsn + i + 1
  {
    hide StepTo, Sane;
  }

  lemma LoggedState(base: Base, history: seq<Snap>, log: seq<Tx>, i: nat)
    requires Logged(base, history, log) && i < |history|
    ensures |history| == |log| + 1 && history[i].state.lsn == base.lsn + i && Sane(base, history[i].state)
  {
    hide StepTo, Sane;
  }

  lemma LoggedLength(base: Base, history: seq<Snap>, log: seq<Tx>)
    requires Logged(base, history, log)
    ensures |history| == |log| + 1
  {
    hide StepTo, Sane;
  }

  lemma LoggedSnoc(base: Base, history: seq<Snap>, log: seq<Tx>, tx: Tx, snap: Snap)
    requires Logged(base, history, log) && StepTo(base, history[|history| - 1], tx, snap)
    ensures Logged(base, history + [snap], log + [tx]) && tx.lsn == base.lsn + |log| + 1
  {
    hide Sane, CleanChanges, Same, Images;
    StepLsn(base, history[|history| - 1], tx, snap);
    StepSane(base, history[|history| - 1], tx, snap);
    LoggedGrows(base, history, log, tx, snap);
  }

  lemma LoggedGrows(base: Base, history: seq<Snap>, log: seq<Tx>, tx: Tx, snap: Snap)
    requires Logged(base, history, log) && StepTo(base, history[|history| - 1], tx, snap) && Sane(base, snap.state)
    requires tx.lsn == base.lsn + |log| + 1 == snap.state.lsn
    ensures Logged(base, history + [snap], log + [tx])
  {
    hide StepTo, Sane;
    var history', log' := history + [snap], log + [tx];
    forall i | 0 <= i < |log'| ensures log'[i].lsn == base.lsn + i + 1 && StepTo(base, history'[i], log'[i], history'[i + 1]) {
      if i < |log| { assert log'[i] == log[i] && history'[i] == history[i] && history'[i + 1] == history[i + 1]; }
    }
  }

  lemma StepLsn(base: Base, a: Snap, tx: Tx, b: Snap)
    requires StepTo(base, a, tx, b)
    ensures tx.lsn == a.state.lsn + 1 == b.state.lsn
  {}

  lemma StepSane(base: Base, a: Snap, tx: Tx, b: Snap)
    requires StepTo(base, a, tx, b)
    ensures Sane(base, b.state) && Links(a.state, tx, b.state) && CleanChanges(tx.changes)
  {
    hide Sane, Links, CleanChanges;
  }

  lemma LoggedPrefix(base: Base, history: seq<Snap>, log: seq<Tx>, e: nat)
    requires Logged(base, history, log) && e <= |log|
    ensures Logged(base, history[..e + 1], log[..e])
  {
    hide StepTo, Sane;
  }

  // ---- the blocks on the chain ----------------------------------------------------------

  /** The state reached after block `k` above the base. */
  function Top(snap: Snap, k: nat): State
    requires k < |snap.marks|
  {
    if k + 1 < |snap.marks| then snap.marks[k + 1].before else snap.state
  }

  /** The transaction stands in the log at the place its LSN says. */
  ghost predicate FromLog(base: Base, log: seq<Tx>, tx: Tx) {
    base.lsn < tx.lsn <= base.lsn + |log| && tx == log[tx.lsn - base.lsn - 1]
  }

  /** What connected the block leads from the state before it to the state after it. */
  ghost predicate MarkLinks(base: Base, snap: Snap, k: nat)
    requires k < |snap.marks|
  {
    var mark := snap.marks[k];
    && mark.tx.kind == CONNECT && mark.tx.beforeNext <= mark.tx.afterNext
    && Links(mark.before, mark.tx, Top(snap, k).(lsn := mark.tx.lsn)) && Images(mark.before, mark.tx) && CleanChanges(mark.tx.changes)
    && Sane(base, mark.before) && |mark.before.chain| == |base.chain| + k
  }

  /** The block was logged, and has been on the chain ever since. */
  ghost predicate MarkStays(base: Base, history: seq<Snap>, log: seq<Tx>, i: nat, mark: Mark)
    requires i < |history|
  {
    && FromLog(base, log, mark.tx) && mark.tx.lsn <= base.lsn + i
    && forall j: nat | j <= i && mark.tx.lsn <= base.lsn + j :: |history[j].state.chain| > mark.tx.point.height
  }

  ghost predicate Marked(base: Base, history: seq<Snap>, log: seq<Tx>, i: nat)
    requires i < |history|
  {
    var snap := history[i];
    && |snap.state.chain| == |base.chain| + |snap.marks|
    && (forall k | 0 <= k < |snap.marks| :: MarkLinks(base, snap, k) && MarkStays(base, history, log, i, snap.marks[k]))
  }

  lemma ConnectGrows(a: State, tx: Tx, b: State)
    requires Links(a, tx, b) && tx.kind == CONNECT
    ensures |b.chain| == |a.chain| + 1 && tx.point.height == |a.chain| && b.lsn == tx.lsn && b.point == tx.point
  {}

  lemma DisconnectShrinks(a: State, tx: Tx, b: State)
    requires Links(a, tx, b) && tx.kind == DISCONNECT
    ensures |b.chain| == |a.chain| - 1
  {}

  /** Replacing the state by one like it keeps what the marks say. */
  lemma MarkLinksSame(base: Base, snap: Snap, state: State, k: nat)
    requires k < |snap.marks| && MarkLinks(base, snap, k) && Same(snap.state.(lsn := state.lsn), state)
    ensures MarkLinks(base, snap.(state := state), k)
  {
    hide Links, Images, Sane, CleanChanges;
    if k + 1 == |snap.marks| {
      var tx := snap.marks[k].tx;
      SameRefl(snap.marks[k].before);
      SameLinks(snap.marks[k].before, snap.marks[k].before, tx, snap.state.(lsn := tx.lsn), state.(lsn := tx.lsn));
    }
  }

  /** A block connected on top keeps the blocks below it. */
  lemma MarkLinksPush(base: Base, a: Snap, tx: Tx, b: Snap, k: nat)
    requires StepTo(base, a, tx, b) && tx.kind == CONNECT && k < |b.marks| && |a.state.chain| == |base.chain| + |a.marks|
    requires k < |a.marks| ==> MarkLinks(base, a, k)
    ensures MarkLinks(base, b, k)
  {
    hide Links, Images, Sane, CleanChanges;
    var mark := b.marks[|b.marks| - 1];
    if k < |a.marks| {
      MarkLinksSame(base, a, mark.before.(lsn := a.state.lsn), k);
      assert b.marks[k] == a.marks[k];
      if k + 1 == |a.marks| {
        SameRefl(a.marks[k].before);
        SameLinks(a.marks[k].before, a.marks[k].before, a.marks[k].tx, a.state.(lsn := a.marks[k].tx.lsn), mark.before.(lsn := a.marks[k].tx.lsn));
      } else {
        assert b.marks[k + 1] == a.marks[k + 1];
      }
    } else {
      ConnectGrows(mark.before, tx, b.state);
    }
  }

  lemma MarkLinksPop(base: Base, a: Snap, tx: Tx, b: Snap, k: nat)
    requires StepTo(base, a, tx, b) && tx.kind == DISCONNECT && k < |b.marks| && MarkLinks(base, a, k)
    ensures MarkLinks(base, b, k)
  {
    hide Links, Images, Sane, CleanChanges;
    assert b.marks[k] == a.marks[k];
    var n := |a.marks| - 1;
    var below := Snap(a.marks[n].before, b.marks);
    assert k + 1 < n ==> b.marks[k + 1] == a.marks[k + 1];
    assert MarkLinks(base, below, k);
    MarkLinksSame(base, below, b.state, k);
  }

  /** In every logged history the marks are right. */
  lemma {:induction false} MarksFollow(base: Base, history: seq<Snap>, log: seq<Tx>, i: nat)
    requires Logged(base, history, log) && i < |history|
    ensures Marked(base, history, log, i)
    decreases i
  {
    hide StepTo, Logged, MarkLinks, MarkStays;
    if i == 0 {
      LoggedStart(base, history, log);
    } else {
      MarksFollow(base, history, log, i - 1);
      LoggedState(base, history, log, i);
      LoggedStep(base, history, log, i - 1);
      MarkedChain(base, history, log, i);
      forall k: nat | k < |history[i].marks| ensures MarkLinks(base, history[i], k) && MarkStays(base, history, log, i, history[i].marks[k]) {
        MarkedNext(base, history, log, i, k);
      }
    }
  }

  lemma LoggedStart(base: Base, history: seq<Snap>, log: seq<Tx>)
    requires Logged(base, history, log)
    ensures history[0].marks == [] && |history[0].state.chain| == |base.chain|
  {
    hide StepTo, Sane;
  }

  lemma MarkedChain(base: Base, history: seq<Snap>, log: seq<Tx>, i: nat)
    requires 0 < i < |history| && i <= |log| && Marked(base, history, log, i - 1) && StepTo(base, history[i - 1], log[i - 1], history[i])
    ensures |history[i].state.chain| == |base.chain| + |history[i].marks|
  {
    hide Links, Sane, Images, CleanChanges, MarkLinks, MarkStays;
    if log[i - 1].kind == CONNECT { ConnectGrows(history[i - 1].state, log[i - 1], history[i].state); }
    else { DisconnectShrinks(history[i - 1].state, log[i - 1], history[i].state); }
  }

  lemma MarkedNext(base: Base, history: seq<Snap>, log: seq<Tx>, i: nat, k: nat)
    requires 0 < i < |history| && |history| == |log| + 1 && Marked(base, history, log, i - 1) && StepTo(base, history[i - 1], log[i - 1], history[i])
    requires log[i - 1].lsn == base.lsn + i && k < |history[i].marks| && |history[i].state.chain| == |base.chain| + |history[i].marks|
    ensures MarkLinks(base, history[i], k) && MarkStays(base, history, log, i, history[i].marks[k])
  {
    hide Links, Sane, Images, CleanChanges, MarkLinks;
    var a, tx, b := history[i - 1], log[i - 1], history[i];
    if tx.kind == CONNECT {
      ConnectGrows(a.state, tx, b.state);
      MarkLinksPush(base, a, tx, b, k);
      if k < |a.marks| { assert b.marks[k] == a.marks[k]; }
    } else {
      assert b.marks[k] == a.marks[k];
      MarkLinksPop(base, a, tx, b, k);
    }
    MarkHeight(base, b, k);
  }

  lemma MarkHeight(base: Base, snap: Snap, k: nat)
    requires k < |snap.marks| && MarkLinks(base, snap, k)
    ensures snap.marks[k].tx.point.height == |base.chain| + k
  {}

  // ---- the records in the files ---------------------------------------------------------

  /** A record of the log, or one left behind where the log stood when its append failed. */
  ghost predicate RecOk(base: Base, history: seq<Snap>, log: seq<Tx>, r: Rec) {
    if !r.failed then FromLog(base, log, r.tx)
    else base.lsn < r.tx.lsn <= base.lsn + |history| && StepTo(base, history[r.tx.lsn - base.lsn - 1], r.tx, r.after)
  }

  /** Records come in order; only a failed one can share its LSN with the next. */
  ghost predicate InOrder(recs: seq<Rec>) {
    forall i, j | 0 <= i < j < |recs| :: recs[i].tx.lsn <= recs[j].tx.lsn && (!recs[i].failed ==> recs[i].tx.lsn < recs[j].tx.lsn)
  }

  ghost predicate Recorded(base: Base, history: seq<Snap>, log: seq<Tx>, recs: seq<Rec>) {
    InOrder(recs) && forall k | 0 <= k < |recs| :: RecOk(base, history, log, recs[k])
  }

  ghost predicate Has(recs: seq<Rec>, tx: Tx) { exists k :: 0 <= k < |recs| && !recs[k].failed && recs[k].tx == tx }

  predicate Needed(tx: Tx, durable: nat, floor: nat) { tx.lsn > durable || tx.point.height >= floor }

  /** Of the transactions that were logged at all, the files hold every one above the durable LSN and
      every one at or above the pruning floor. */
  ghost predicate Holds(log: seq<Tx>, unlogged: set<nat>, durable: nat, floor: nat, recs: seq<Rec>) {
    forall i | 0 <= i < |log| && Needed(log[i], durable, floor) && log[i].lsn !in unlogged :: Has(recs, log[i])
  }

  /** Blocks connected without logging: above the durable LSN they are the last ones, and then no
      record is left behind. */
  ghost predicate UnloggedOk(base: Base, log: seq<Tx>, unlogged: set<nat>, durable: nat, recs: seq<Rec>) {
    && (forall u | u in unlogged :: u <= base.lsn + |log|)
    && (forall u, v: nat | u in unlogged && durable < u <= v <= base.lsn + |log| :: v in unlogged)
    && (forall k | 0 <= k < |recs| && !recs[k].failed :: recs[k].tx.lsn !in unlogged)
    && (forall k, u | 0 <= k < |recs| && recs[k].failed && recs[k].tx.lsn > durable && u in unlogged :: u <= durable)
  }

  /** The record is left over from a failed append and recovery will not skip it. */
  predicate Open(r: Rec, durable: nat) { r.failed && r.tx.lsn > durable }

  /** The next append after a failed one uses the same LSN. */
  ghost predicate Adjacent(recs: seq<Rec>, durable: nat) {
    forall k | 0 <= k < |recs| - 1 && Open(recs[k], durable) :: recs[k + 1].tx.lsn == recs[k].tx.lsn
  }

  ghost predicate NoneOpen(recs: seq<Rec>, durable: nat) { forall k | 0 <= k < |recs| :: !Open(recs[k], durable) }

  /** No record left over from a failed append is followed by another record. */
  ghost predicate Healthy(recs: seq<Rec>, durable: nat) { forall k | 0 <= k < |recs| - 1 :: !Open(recs[k], durable) }

  ghost predicate LogOk(base: Base, history: seq<Snap>, log: seq<Tx>, unlogged: set<nat>, durable: nat, floor: nat, recs: seq<Rec>) {
    && Logged(base, history, log) && Recorded(base, history, log, recs) && Holds(log, unlogged, durable, floor, recs)
    && UnloggedOk(base, log, unlogged, durable, recs) && Adjacent(recs, durable)
  }

  /** The LSN that recovery reaches. */
  function Reach(durable: nat, recs: seq<Rec>): nat {
    if recs != [] && recs[|recs| - 1].tx.lsn > durable then recs[|recs| - 1].tx.lsn else durable
  }

  /** The state that recovery reaches. */
  function Target(base: Base, history: seq<Snap>, durable: nat, recs: seq<Rec>): Option<Snap> {
    if recs != [] && Open(recs[|recs| - 1], durable) then Some(recs[|recs| - 1].after)
    else if base.lsn <= Reach(durable, recs) && Reach(durable, recs) - base.lsn < |history| then Some(history[Reach(durable, recs) - base.lsn])
    else None
  }

  /** Above the durable LSN, and before any leftover record, the records have no gap. */
  lemma NoGap(base: Base, history: seq<Snap>, log: seq<Tx>, unlogged: set<nat>, durable: nat, floor: nat, recs: seq<Rec>, j: nat)
    requires LogOk(base, history, log, unlogged, durable, floor, recs) && j < |recs| && recs[j].tx.lsn > durable >= base.lsn
    requires NoneOpen(recs[..j], durable)
    ensures Reach(durable, recs[..j]) + 1 == recs[j].tx.lsn
  {
    hide StepTo, Sane, Logged, Holds;
    var l := recs[j].tx.lsn;
    RecBound(base, history, log, recs, j);
    if l > durable + 1 {
      var i := l - base.lsn - 2;
      LoggedStep(base, history, log, i);
      assert log[i].lsn !in unlogged;
      KeptAt(log, unlogged, durable, floor, recs, i);
      var k :| 0 <= k < |recs| && !recs[k].failed && recs[k].tx == log[i];
      PredecessorIs(recs, durable, k, j);
    } else if j > 0 {
      NotAbove(recs, durable, j);
    }
  }

  lemma KeptAt(log: seq<Tx>, unlogged: set<nat>, durable: nat, floor: nat, recs: seq<Rec>, i: nat)
    requires Holds(log, unlogged, durable, floor, recs) && i < |log| && log[i].lsn > durable && log[i].lsn !in unlogged
    ensures Has(recs, log[i])
  {}

  lemma RecBound(base: Base, history: seq<Snap>, log: seq<Tx>, recs: seq<Rec>, j: nat)
    requires Recorded(base, history, log, recs) && j < |recs| && Logged(base, history, log)
    ensures base.lsn < recs[j].tx.lsn <= base.lsn + |log| + 1 && (!recs[j].failed ==> recs[j].tx.lsn <= base.lsn + |log|)
  {
    hide StepTo, Sane;
    assert RecOk(base, history, log, recs[j]);
  }

  lemma PredecessorIs(recs: seq<Rec>, durable: nat, k: nat, j: nat)
    requires InOrder(recs) && k < |recs| && j < |recs| && !recs[k].failed && recs[k].tx.lsn + 1 == recs[j].tx.lsn && recs[j].tx.lsn > durable
    requires NoneOpen(recs[..j], durable)
    ensures k == j - 1
  {
    if k + 1 < j { InBetween(recs, durable, k, j); }
  }

  lemma InBetween(recs: seq<Rec>, durable: nat, k: nat, j: nat)
    requires InOrder(recs) && k + 1 < j < |recs| && !recs[k].failed && recs[k].tx.lsn + 1 == recs[j].tx.lsn && recs[j].tx.lsn > durable
    ensures !NoneOpen(recs[..j], durable)
  {
    var before := recs[..j];
    assert before[k + 1] == recs[k + 1];
    assert recs[k].tx.lsn < recs[k + 1].tx.lsn <= recs[j].tx.lsn;
    assert Open(before[k + 1], durable);
  }

  lemma NotAbove(recs: seq<Rec>, durable: nat, j: nat)
    requires InOrder(recs) && 0 < j < |recs| && recs[j].tx.lsn == durable + 1 && NoneOpen(recs[..j], durable)
    ensures recs[j - 1].tx.lsn <= durable
  {
    assert recs[..j][j - 1] == recs[j - 1];
    assert !Open(recs[j - 1], durable);
  }

  /** `m` has replayed the log up to its LSN on top of the durable store `d`. */
  ghost predicate Replayed(base: Base, d: Memory, m: Memory, state: State) {
    && m.durableLsn == d.durableLsn && m.generation == d.generation && m.layers == d.layers.(dirty := m.layers.dirty)
    && CleanMap(m.layers.dirty) && Same(Logical(m), state)
  }

  /** Replaying one more step. */
  lemma ReplayStep(base: Base, d: Memory, m: Memory, a: Snap, tx: Tx, b: Snap)
    requires Replayed(base, d, m, a.state) && StepTo(base, a, tx, b) && tx.lsn > d.durableLsn
    ensures Redo(m, tx).Ok? && Redo(m, tx).value.lsn == tx.lsn && Replayed(base, d, Redo(m, tx).value, b.state)
  {
    hide Links, Same, Sane, CleanChanges, CleanMap, Overlay, ChainValid, Chained, Logical, CleanLayers;
    StepSane(base, a, tx, b);
    CleanOverlay(m.layers.dirty, tx.changes);
    SaneBelow(base, b.state);
    RedoLinks(m, a.state, tx, b.state);
  }

  lemma ReplayedLsn(base: Base, d: Memory, m: Memory, state: State)
    requires Replayed(base, d, m, state)
    ensures m.lsn == state.lsn && m.durableLsn == d.durableLsn
  {}

  /** The durable store, before anything is replayed. */
  ghost predicate Starts(base: Base, d: Memory, history: seq<Snap>) {
    && base.lsn <= d.lsn == d.durableLsn && d.lsn - base.lsn < |history| && Replayed(base, d, d, history[d.lsn - base.lsn].state)
  }

  /** Replaying a prefix without leftovers reaches the state after its last record. */
  lemma {:induction false} RedoPrefix(base: Base, d: Memory, history: seq<Snap>, log: seq<Tx>, unlogged: set<nat>, floor: nat, recs: seq<Rec>, j: nat)
    requires LogOk(base, history, log, unlogged, d.durableLsn, floor, recs) && j <= |recs| && NoneOpen(recs[..j], d.durableLsn) && Starts(base, d, history)
    ensures base.lsn <= Reach(d.durableLsn, recs[..j]) && Reach(d.durableLsn, recs[..j]) - base.lsn < |history|
    ensures var r := RedoAll(d, Txs(recs[..j])); r.Ok? && Replayed(base, d, r.value, history[Reach(d.durableLsn, recs[..j]) - base.lsn].state)
    decreases j
  {
    hide Replayed, Redo, LogOk, NoneOpen, StepTo;
    if j == 0 {
      assert recs[..0] == [] && Txs([]) == [];
    } else {
      NoneOpenPrefix(recs, d.durableLsn, j);
      RedoPrefix(base, d, history, log, unlogged, floor, recs, j - 1);
      RedoSnoc(d, recs, j - 1);
      var m := RedoAll(d, Txs(recs[..j - 1])).value;
      var r := recs[j - 1];
      ReplayedLsn(base, d, m, history[Reach(d.durableLsn, recs[..j - 1]) - base.lsn].state);
      if r.tx.lsn > d.durableLsn {
        GoodStep(base, history, log, unlogged, d.durableLsn, floor, recs, j - 1);
        ReplayStep(base, d, m, history[r.tx.lsn - base.lsn - 1], r.tx, history[r.tx.lsn - base.lsn]);
      } else {
        Older(base, history, log, unlogged, d.durableLsn, floor, recs, j - 1);
        RedoSkips(m, r.tx);
      }
    }
  }

  lemma NoneOpenPrefix(recs: seq<Rec>, durable: nat, j: nat)
    requires 0 < j <= |recs| && NoneOpen(recs[..j], durable)
    ensures NoneOpen(recs[..j - 1], durable) && !Open(recs[j - 1], durable)
  {
    var longer, shorter := recs[..j], recs[..j - 1];
    assert longer[j - 1] == recs[j - 1];
    forall k | 0 <= k < |shorter| ensures !Open(shorter[k], durable) { assert longer[k] == shorter[k]; }
  }

  lemma RedoSnoc(d: Memory, recs: seq<Rec>, j: nat)
    requires j < |recs|
    ensures RedoAll(d, Txs(recs[..j + 1])) == var before := RedoAll(d, Txs(recs[..j])); if before.Err? then before else Redo(before.value, recs[j].tx)
  {
    hide Redo;
    var txs := Txs(recs[..j + 1]);
    assert txs[..j] == Txs(recs[..j]) && txs[j] == recs[j].tx;
  }

  lemma GoodStep(base: Base, history: seq<Snap>, log: seq<Tx>, unlogged: set<nat>, durable: nat, floor: nat, recs: seq<Rec>, j: nat)
    requires LogOk(base, history, log, unlogged, durable, floor, recs) && j < |recs| && recs[j].tx.lsn > durable >= base.lsn && !recs[j].failed
    requires NoneOpen(recs[..j], durable)
    ensures Reach(durable, recs[..j]) + 1 == recs[j].tx.lsn == Reach(durable, recs[..j + 1])
    ensures recs[j].tx.lsn - base.lsn < |history| && StepTo(base, history[recs[j].tx.lsn - base.lsn - 1], recs[j].tx, history[recs[j].tx.lsn - base.lsn])
  {
    hide StepTo, Sane, Logged, Holds;
    NoGap(base, history, log, unlogged, durable, floor, recs, j);
    assert RecOk(base, history, log, recs[j]);
    LoggedLength(base, history, log);
    LoggedStep(base, history, log, recs[j].tx.lsn - base.lsn - 1);
  }

  lemma Older(base: Base, history: seq<Snap>, log: seq<Tx>, unlogged: set<nat>, durable: nat, floor: nat, recs: seq<Rec>, j: nat)
    requires LogOk(base, history, log, unlogged, durable, floor, recs) && j < |recs| && recs[j].tx.lsn <= durable
    ensures Reach(durable, recs[..j]) == durable == Reach(durable, recs[..j + 1])
  {
    hide StepTo, Logged, Holds, RecOk;
  }

  /** Replaying one leftover at the end reaches the state its append would have led to. */
  lemma RedoLeftover(base: Base, d: Memory, history: seq<Snap>, log: seq<Tx>, unlogged: set<nat>, floor: nat, recs: seq<Rec>, j: nat)
    requires LogOk(base, history, log, unlogged, d.durableLsn, floor, recs) && j < |recs| && NoneOpen(recs[..j], d.durableLsn) && Starts(base, d, history)
    requires Open(recs[j], d.durableLsn)
    ensures var r := RedoAll(d, Txs(recs[..j + 1])); r.Ok? && r.value.lsn == recs[j].tx.lsn && Replayed(base, d, r.value, recs[j].after.state)
  {
    hide Replayed, Redo, LogOk, NoneOpen, StepTo;
    RedoPrefix(base, d, history, log, unlogged, floor, recs, j);
    RedoSnoc(d, recs, j);
    LeftoverStep(base, history, log, unlogged, d.durableLsn, floor, recs, j);
    var m := RedoAll(d, Txs(recs[..j])).value;
    ReplayStep(base, d, m, history[recs[j].tx.lsn - base.lsn - 1], recs[j].tx, recs[j].after);
  }

  lemma LeftoverStep(base: Base, history: seq<Snap>, log: seq<Tx>, unlogged: set<nat>, durable: nat, floor: nat, recs: seq<Rec>, j: nat)
    requires LogOk(base, history, log, unlogged, durable, floor, recs) && j < |recs| && Open(recs[j], durable) && durable >= base.lsn
    requires NoneOpen(recs[..j], durable)
    ensures Reach(durable, recs[..j]) + 1 == recs[j].tx.lsn && base.lsn < recs[j].tx.lsn && recs[j].tx.lsn - base.lsn - 1 < |history|
    ensures StepTo(base, history[recs[j].tx.lsn - base.lsn - 1], recs[j].tx, recs[j].after)
  {
    hide StepTo, Sane, Logged, Holds;
    NoGap(base, history, log, unlogged, durable, floor, recs, j);
    assert RecOk(base, history, log, recs[j]);
  }

  /** The first leftover that something follows. */
  lemma {:induction false} FirstOpen(recs: seq<Rec>, durable: nat, n: nat) returns (k: nat)
    requires n <= |recs| && !NoneOpen(recs[..n], durable)
    ensures k < n && Open(recs[k], durable) && NoneOpen(recs[..k], durable)
    decreases n
  {
    if NoneOpen(recs[..n - 1], durable) {
      k := n - 1;
      forall i | 0 <= i < n - 1 ensures !Open(recs[..n][i], durable) { assert recs[..n - 1][i] == recs[..n][i]; }
    } else {
      k := FirstOpen(recs, durable, n - 1);
    }
  }

  /** Any prefix of the records replays if and only if no leftover in it is followed by another
      record; and then it reaches the state after the last record, a leftover included. */
  lemma RedoIff(base: Base, d: Memory, history: seq<Snap>, log: seq<Tx>, unlogged: set<nat>, floor: nat, recs: seq<Rec>, kept: seq<Rec>)
    requires LogOk(base, history, log, unlogged, d.durableLsn, floor, recs) && Starts(base, d, history) && kept <= recs
    ensures RedoAll(d, Txs(kept)).Ok? <==> Healthy(kept, d.durableLsn)
    ensures Healthy(kept, d.durableLsn) ==>
              var r, target := RedoAll(d, Txs(kept)).value, Target(base, history, d.durableLsn, kept);
              target.Some? && r.lsn == Reach(d.durableLsn, kept) && Replayed(base, d, r, target.value.state)
  {
    hide Replayed, Redo, LogOk, RedoAll, Starts, Open;
    var n := |kept|;
    assert recs[..n] == kept;
    if Healthy(kept, d.durableLsn) {
      HealthyPrefix(recs, kept, d.durableLsn);
      StartsAbove(base, d, history);
      if n > 0 && Open(kept[n - 1], d.durableLsn) {
        RedoLeftover(base, d, history, log, unlogged, floor, recs, n - 1);
        OpenAbove(kept[n - 1], d.durableLsn);
      } else {
        assert NoneOpen(recs[..n], d.durableLsn);
        RedoPrefix(base, d, history, log, unlogged, floor, recs, n);
        TargetLsn(base, d, history, log, unlogged, floor, recs, kept);
        ReplayedLsn(base, d, RedoAll(d, Txs(kept)).value, history[Reach(d.durableLsn, kept) - base.lsn].state);
      }
    } else {
      var k := FollowedOpen(recs, kept, d.durableLsn);
      RedoLeftover(base, d, history, log, unlogged, floor, recs, k);
      ReplayedLsn(base, d, RedoAll(d, Txs(recs[..k + 1])).value, recs[k].after.state);
      RedoSnoc(d, recs, k + 1);
      RefusedAgain(base, d, history, log, unlogged, floor, recs, k);
      assert Txs(kept)[..k + 2] == Txs(recs[..k + 2]);
      RedoStops(d, Txs(kept), k + 2);
    }
  }

  lemma OpenAbove(r: Rec, durable: nat)
    requires Open(r, durable)
    ensures r.tx.lsn > durable
  {}

  lemma StartsAbove(base: Base, d: Memory, history: seq<Snap>)
    requires Starts(base, d, history)
    ensures base.lsn <= d.durableLsn
  {}

  lemma HealthyPrefix(recs: seq<Rec>, kept: seq<Rec>, durable: nat)
    requires kept <= recs && Healthy(kept, durable)
    ensures kept != [] ==> NoneOpen(recs[..|kept| - 1], durable)
  {
    hide Open;
    forall k | 0 <= k < |kept| - 1 ensures !Open(recs[k], durable) { assert recs[k] == kept[k]; }
  }

  lemma FollowedOpen(recs: seq<Rec>, kept: seq<Rec>, durable: nat) returns (k: nat)
    requires kept <= recs && !Healthy(kept, durable)
    ensures k + 1 < |kept| && Open(recs[k], durable) && NoneOpen(recs[..k], durable)
  {
    hide Open;
    var n := |kept| - 1;
    var i :| 0 <= i < n && Open(kept[i], durable);
    assert recs[..n][i] == kept[i];
    k := FirstOpen(recs, durable, n);
  }

  lemma TargetLsn(base: Base, d: Memory, history: seq<Snap>, log: seq<Tx>, unlogged: set<nat>, floor: nat, recs: seq<Rec>, kept: seq<Rec>)
    requires LogOk(base, history, log, unlogged, d.durableLsn, floor, recs) && kept <= recs
    requires base.lsn <= Reach(d.durableLsn, kept) && Reach(d.durableLsn, kept) - base.lsn < |history|
    ensures history[Reach(d.durableLsn, kept) - base.lsn].state.lsn == Reach(d.durableLsn, kept)
  {
    hide StepTo, Sane, Recorded, Holds;
  }

  /** The record after a leftover has its LSN again, and is refused. */
  lemma RefusedAgain(base: Base, d: Memory, history: seq<Snap>, log: seq<Tx>, unlogged: set<nat>, floor: nat, recs: seq<Rec>, k: nat)
    requires LogOk(base, history, log, unlogged, d.durableLsn, floor, recs) && k + 1 < |recs| && Open(recs[k], d.durableLsn)
    requires var r := RedoAll(d, Txs(recs[..k + 1])); r.Ok? && r.value.lsn == recs[k].tx.lsn && r.value.durableLsn == d.durableLsn
    ensures Redo(RedoAll(d, Txs(recs[..k + 1])).value, recs[k + 1].tx).Err?
  {
    hide StepTo, Logged, Recorded, Holds, RedoAll, ChainValid, Chained, Overlay;
  }
}
