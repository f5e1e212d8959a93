/** What each step of the store does to its log, and that the log stays good. */
module LogSteps {
  import opened Common
  import opened Records
  import opened Transactions
  import opened DeltaStore
  import opened Durability
  import opened LogRecords

  // ---- the files ------------------------------------------------------------------------

  function Map<T, U>(f: T -> U, s: seq<T>): (r: seq<U>)
    ensures |r| == |s| && forall i | 0 <= i < |s| :: r[i] == f(s[i])
  { seq(|s|, i requires 0 <= i < |s| => f(s[i])) }

  function MapAll<T, U>(f: T -> U, wal: seq<seq<T>>): (r: seq<seq<U>>)
    ensures |r| == |wal| && forall i | 0 <= i < |wal| :: r[i] == Map(f, wal[i])
  { seq(|wal|, i requires 0 <= i < |wal| => Map(f, wal[i])) }

  lemma {:induction false} FlatMap<T, U>(f: T -> U, wal: seq<seq<T>>)
    ensures Flat(MapAll(f, wal)) == Map(f, Flat(wal))
    decreases |wal|
  {
    if wal != [] {
      var n := |wal| - 1;
      FlatMap(f, wal[..n]);
      assert MapAll(f, wal)[..n] == MapAll(f, wal[..n]);
      assert Map(f, Flat(wal[..n]) + wal[n]) == Map(f, Flat(wal[..n])) + Map(f, wal[n]);
    }
  }

  /** A record goes to the open segment, or starts a new one. */
  function Appended<T>(wal: seq<seq<T>>, r: T, newSegment: bool): seq<seq<T>> {
    if newSegment || wal == [] then wal + [[r]] else wal[..|wal| - 1] + [wal[|wal| - 1] + [r]]
  }

  /** Only the first `keep` records of the last segment are whole on disk. */
  function Cut<T>(wal: seq<seq<T>>, keep: nat): seq<seq<T>> {
    if wal == [] then [] else wal[..|wal| - 1] + [if keep <= |wal[|wal| - 1]| then wal[|wal| - 1][..keep] else wal[|wal| - 1]]
  }

  lemma FlatSnoc<T>(wal: seq<seq<T>>, segment: seq<T>)
    ensures Flat(wal + [segment]) == Flat(wal) + segment
  {
    assert (wal + [segment])[..|wal|] == wal;
  }

  lemma FlatAppended<T>(wal: seq<seq<T>>, r: T, newSegment: bool)
    ensures Flat(Appended(wal, r, newSegment)) == Flat(wal) + [r]
  {
    FlatSnoc(wal, [r]);
    if wal != [] { FlatSnoc(wal[..|wal| - 1], wal[|wal| - 1] + [r]); }
  }

  lemma FlatCut<T>(wal: seq<seq<T>>, keep: nat)
    ensures Flat(Cut(wal, keep)) <= Flat(wal)
  {
    if wal != [] {
      var last := wal[|wal| - 1];
      FlatSnoc(wal[..|wal| - 1], if keep <= |last| then last[..keep] else last);
    }
  }

  lemma {:induction false} FlatConcat<T>(a: seq<seq<T>>, b: seq<seq<T>>)
    ensures Flat(a + b) == Flat(a) + Flat(b)
    decreases |b|
  {
    if b == [] {
      assert a + b == a;
    } else {
      FlatConcat(a, b[..|b| - 1]);
      assert a + b == (a + b[..|b| - 1]) + [b[|b| - 1]];
      FlatSnoc(a + b[..|b| - 1], b[|b| - 1]);
    }
  }

  lemma FlatRemoved<T>(wal: seq<seq<T>>, i: nat) returns (before: seq<T>, after: seq<T>)
    requires i < |wal|
    ensures Flat(wal) == before + wal[i] + after && Flat(wal[..i] + wal[i + 1..]) == before + after
  {
    before, after := Flat(wal[..i]), Flat(wal[i + 1..]);
    FlatConcat(wal[..i], wal[i + 1..]);
    FlatSnoc(wal[..i], wal[i]);
    FlatConcat(wal[..i + 1], wal[i + 1..]);
    assert wal[..i] + [wal[i]] == wal[..i + 1] && wal[..i + 1] + wal[i + 1..] == wal;
  }

  /** What recovery reads: the transactions. */
  function TxWal(wal: seq<seq<Rec>>): seq<seq<Tx>> { MapAll((r: Rec) => r.tx, wal) }

  lemma FlatTxWal(wal: seq<seq<Rec>>)
    ensures Flat(TxWal(wal)) == Txs(Flat(wal))
  {
    FlatMap((r: Rec) => r.tx, wal);
  }

  /** Recovery takes a leftover record for a good one. */
  function Adopt(r: Rec, durable: nat): Rec { if Open(r, durable) then r.(failed := false) else r }

  function Adopted(wal: seq<seq<Rec>>, durable: nat): seq<seq<Rec>> { MapAll((r: Rec) => Adopt(r, durable), wal) }

  function AdoptedAll(recs: seq<Rec>, durable: nat): (r: seq<Rec>)
    ensures |r| == |recs| && forall i | 0 <= i < |recs| :: r[i] == Adopt(recs[i], durable)
  { Map((r: Rec) => Adopt(r, durable), recs) }

  lemma FlatAdopted(wal: seq<seq<Rec>>, durable: nat)
    ensures Flat(Adopted(wal, durable)) == AdoptedAll(Flat(wal), durable)
  {
    FlatMap((r: Rec) => Adopt(r, durable), wal);
  }

  // ---- one more record ------------------------------------------------------------------

  /** A leftover at the end of the log has the LSN that the next transaction will get. */
  ghost predicate Trailing(recs: seq<Rec>, durable: nat, lsn: nat) {
    recs != [] && Open(recs[|recs| - 1], durable) ==> recs[|recs| - 1].tx.lsn == lsn + 1
  }

  lemma FromLogGrows(base: Base, log: seq<Tx>, tx: Tx, t: Tx)
    requires FromLog(base, log, t)
    ensures FromLog(base, log + [tx], t)
  {}

  lemma RecGrows(base: Base, history: seq<Snap>, log: seq<Tx>, tx: Tx, snap: Snap, r: Rec)
    requires RecOk(base, history, log, r)
    ensures RecOk(base, history + [snap], log + [tx], r)
  {
    hide StepTo;
    if !r.failed { FromLogGrows(base, log, tx, r.tx); }
  }

  lemma OrderedSnoc(recs: seq<Rec>, r: Rec)
    requires InOrder(recs) && forall k | 0 <= k < |recs| :: recs[k].tx.lsn <= r.tx.lsn && (!recs[k].failed ==> recs[k].tx.lsn < r.tx.lsn)
    ensures InOrder(recs + [r])
  {}

  lemma HasGrows(recs: seq<Rec>, r: Rec, tx: Tx)
    requires Has(recs, tx) || (!r.failed && r.tx == tx)
    ensures Has(recs + [r], tx)
  {
    var more := recs + [r];
    if Has(recs, tx) {
      var k :| 0 <= k < |recs| && !recs[k].failed && recs[k].tx == tx;
      assert more[k] == recs[k];
    } else {
      assert more[|recs|] == r;
    }
  }

  /** Every record is below the next LSN, or is left over from an append that used it. */
  lemma RecordsBelow(base: Base, history: seq<Snap>, log: seq<Tx>, recs: seq<Rec>, r: Rec)
    requires Logged(base, history, log) && Recorded(base, history, log, recs) && r.tx.lsn == base.lsn + |log| + 1
    ensures InOrder(recs + [r])
  {
    hide Logged, RecOk, InOrder;
    forall k | 0 <= k < |recs| ensures recs[k].tx.lsn <= r.tx.lsn && (!recs[k].failed ==> recs[k].tx.lsn < r.tx.lsn) {
      RecBound(base, history, log, recs, k);
    }
    OrderedIs(base, history, log, recs);
    OrderedSnoc(recs, r);
  }

  lemma OrderedIs(base: Base, history: seq<Snap>, log: seq<Tx>, recs: seq<Rec>)
    requires Recorded(base, history, log, recs)
    ensures InOrder(recs)
  {
    hide RecOk;
  }

  lemma AdjacentSnoc(recs: seq<Rec>, durable: nat, lsn: nat, r: Rec)
    requires Adjacent(recs, durable) && Trailing(recs, durable, lsn) && r.tx.lsn == lsn + 1
    ensures Adjacent(recs + [r], durable)
  {}

  /** A block was connected or taken off, and logged. */
  lemma AppendKeeps(base: Base, history: seq<Snap>, log: seq<Tx>, unlogged: set<nat>, durable: nat, floor: nat, recs: seq<Rec>, tx: Tx, snap: Snap)
    requires LogOk(base, history, log, unlogged, durable, floor, recs) && StepTo(base, history[|history| - 1], tx, snap)
    requires Trailing(recs, durable, base.lsn + |log|) && forall u | u in unlogged :: u <= durable
    ensures LogOk(base, history + [snap], log + [tx], unlogged, durable, floor, recs + [Rec(tx, false, snap)])
  {
    hide StepTo, Logged, RecOk, InOrder, Adjacent, Holds, Has, Needed, UnloggedOk;
    var r := Rec(tx, false, snap);
    var history', log', recs' := history + [snap], log + [tx], recs + [r];
    LoggedSnoc(base, history, log, tx, snap);
    LoggedLength(base, history, log);
    RecordsBelow(base, history, log, recs, r);
    forall k | 0 <= k < |recs'| ensures RecOk(base, history', log', recs'[k]) {
      if k < |recs| { RecGrows(base, history, log, tx, snap, recs[k]); } else { NewRec(base, history', log', r); }
    }
    KeptSnoc(log, unlogged, durable, floor, recs, r);
    AdjacentSnoc(recs, durable, base.lsn + |log|, r);
    UnloggedSnoc(base, log, unlogged, durable, recs, r);
  }

  lemma NewRec(base: Base, history: seq<Snap>, log: seq<Tx>, r: Rec)
    requires !r.failed && log != [] && r.tx == log[|log| - 1] && r.tx.lsn == base.lsn + |log|
    ensures RecOk(base, history, log, r)
  {}

  lemma KeptSnoc(log: seq<Tx>, unlogged: set<nat>, durable: nat, floor: nat, recs: seq<Rec>, r: Rec)
    requires Holds(log, unlogged, durable, floor, recs) && !r.failed
    ensures Holds(log + [r.tx], unlogged, durable, floor, recs + [r])
  {
    hide Has, Needed;
    var log', recs' := log + [r.tx], recs + [r];
    forall i | 0 <= i < |log'| && Needed(log'[i], durable, floor) && log'[i].lsn !in unlogged ensures Has(recs', log'[i]) {
      assert i < |log| ==> log'[i] == log[i];
      HasGrows(recs, r, log'[i]);
    }
  }

  lemma UnloggedSnoc(base: Base, log: seq<Tx>, unlogged: set<nat>, durable: nat, recs: seq<Rec>, r: Rec)
    requires UnloggedOk(base, log, unlogged, durable, recs) && forall u | u in unlogged :: u <= durable
    requires !r.failed ==> r.tx.lsn == base.lsn + |log| + 1
    ensures UnloggedOk(base, if r.failed then log else log + [r.tx], unlogged, durable, recs + [r])
  {}

  /** An append failed, and left its record. */
  lemma FailKeeps(base: Base, history: seq<Snap>, log: seq<Tx>, unlogged: set<nat>, durable: nat, floor: nat, recs: seq<Rec>, tx: Tx, snap: Snap)
    requires LogOk(base, history, log, unlogged, durable, floor, recs) && StepTo(base, history[|history| - 1], tx, snap)
    requires Trailing(recs, durable, base.lsn + |log|) && forall u | u in unlogged :: u <= durable
    ensures LogOk(base, history, log, unlogged, durable, floor, recs + [Rec(tx, true, snap)]) && tx.lsn == base.lsn + |log| + 1
  {
    hide StepTo, Logged, RecOk, InOrder, Adjacent, Holds, Has, Needed, UnloggedOk;
    var r := Rec(tx, true, snap);
    var recs' := recs + [r];
    LoggedSnoc(base, history, log, tx, snap);
    LoggedLength(base, history, log);
    RecordsBelow(base, history, log, recs, r);
    forall k | 0 <= k < |recs'| ensures RecOk(base, history, log, recs'[k]) {
      if k == |recs| { LeftRec(base, history, log, r); }
    }
    KeptLeft(log, unlogged, durable, floor, recs, r);
    AdjacentSnoc(recs, durable, base.lsn + |log|, r);
    UnloggedSnoc(base, log, unlogged, durable, recs, r);
  }

  lemma LeftRec(base: Base, history: seq<Snap>, log: seq<Tx>, r: Rec)
    requires r.failed && history != [] && r.tx.lsn == base.lsn + |history| && StepTo(base, history[|history| - 1], r.tx, r.after)
    ensures RecOk(base, history, log, r)
  {
    hide StepTo;
  }

  lemma KeptLeft(log: seq<Tx>, unlogged: set<nat>, durable: nat, floor: nat, recs: seq<Rec>, r: Rec)
    requires Holds(log, unlogged, durable, floor, recs)
    ensures Holds(log, unlogged, durable, floor, recs + [r])
  {
    hide Has, Needed;
    forall i | 0 <= i < |log| && Needed(log[i], durable, floor) && log[i].lsn !in unlogged ensures Has(recs + [r], log[i]) {
      HasGrows(recs, r, log[i]);
    }
  }

  /** A block was connected without logging. */
  lemma UnloggedKeeps(base: Base, history: seq<Snap>, log: seq<Tx>, unlogged: set<nat>, durable: nat, floor: nat, recs: seq<Rec>, tx: Tx, snap: Snap)
    requires LogOk(base, history, log, unlogged, durable, floor, recs) && StepTo(base, history[|history| - 1], tx, snap)
    requires NoneOpen(recs, durable)
    ensures LogOk(base, history + [snap], log + [tx], unlogged + {tx.lsn}, durable, floor, recs)
  {
    hide StepTo, Logged, RecOk, InOrder, Adjacent, Has, Needed, NoneOpen;
    var history', log' := history + [snap], log + [tx];
    LoggedSnoc(base, history, log, tx, snap);
    forall k | 0 <= k < |recs| ensures RecOk(base, history', log', recs[k]) { RecGrows(base, history, log, tx, snap, recs[k]); }
    forall k | 0 <= k < |recs| && !recs[k].failed ensures recs[k].tx.lsn !in unlogged + {tx.lsn} { RecBound(base, history, log, recs, k); }
    forall k | 0 <= k < |recs| && recs[k].failed ensures recs[k].tx.lsn <= durable { NotOpen(recs, durable, k); }
  }

  lemma NotOpen(recs: seq<Rec>, durable: nat, k: nat)
    requires NoneOpen(recs, durable) && k < |recs| && recs[k].failed
    ensures recs[k].tx.lsn <= durable
  {}

  // ---- publication and pruning ----------------------------------------------------------

  /** Less has to be kept once everything is durable. */
  lemma DurableKeeps(base: Base, history: seq<Snap>, log: seq<Tx>, unlogged: set<nat>, durable: nat, floor: nat, recs: seq<Rec>)
    requires LogOk(base, history, log, unlogged, durable, floor, recs) && durable <= base.lsn + |log|
    ensures LogOk(base, history, log, unlogged, base.lsn + |log|, floor, recs)
  {
    hide StepTo, Logged, RecOk, InOrder, Has;
  }

  lemma Shifted(before: seq<Rec>, segment: seq<Rec>, after: seq<Rec>, k: nat)
    requires k < |before + after|
    ensures var j := if k < |before| then k else k + |segment|;
            j < |before + segment + after| && (before + segment + after)[j] == (before + after)[k]
  {}

  lemma OrderedRemoved(before: seq<Rec>, segment: seq<Rec>, after: seq<Rec>)
    requires InOrder(before + segment + after)
    ensures InOrder(before + after)
  {
    var recs, recs' := before + segment + after, before + after;
    forall i, j | 0 <= i < j < |recs'| ensures recs'[i].tx.lsn <= recs'[j].tx.lsn && (!recs'[i].failed ==> recs'[i].tx.lsn < recs'[j].tx.lsn) {
      Shifted(before, segment, after, i);
      Shifted(before, segment, after, j);
    }
  }

  lemma HasRemoved(before: seq<Rec>, segment: seq<Rec>, after: seq<Rec>, tx: Tx)
    requires Has(before + segment + after, tx) && forall r | r in segment :: r.tx != tx
    ensures Has(before + after, tx)
  {
    var recs, recs' := before + segment + after, before + after;
    var k :| 0 <= k < |recs| && !recs[k].failed && recs[k].tx == tx;
    var r := recs[k];
    assert |before| <= k < |before| + |segment| ==> r in segment;
    if k < |before| {
      assert recs'[k] == recs[k];
    } else {
      assert recs'[k - |segment|] == recs[k];
    }
  }

  /** A leftover is not followed by a durable record, so removing those moves no leftover's neighbour. */
  lemma AdjacentRemoved(before: seq<Rec>, segment: seq<Rec>, after: seq<Rec>, durable: nat, lsn: nat)
    requires InOrder(before + segment + after) && Adjacent(before + segment + after, durable) && Trailing(before + segment + after, durable, lsn)
    requires forall r | r in segment :: r.tx.lsn <= durable
    ensures Adjacent(before + after, durable) && Trailing(before + after, durable, lsn)
  {
    hide Trailing, Adjacent;
    var recs, recs' := before + segment + after, before + after;
    if segment == [] {
      assert recs == recs';
    } else {
      forall k | 0 <= k < |before| ensures !Open(before[k], durable) {
        assert recs[k] == before[k] && recs[|before|] == segment[0] && segment[0] in segment;
      }
      AdjacentTail(before, segment, after, durable, lsn);
    }
  }

  lemma AdjacentTail(before: seq<Rec>, segment: seq<Rec>, after: seq<Rec>, durable: nat, lsn: nat)
    requires Adjacent(before + segment + after, durable) && Trailing(before + segment + after, durable, lsn)
    requires forall k | 0 <= k < |before| :: !Open(before[k], durable)
    ensures Adjacent(before + after, durable) && Trailing(before + after, durable, lsn)
  {
    hide Open;
    var recs, recs', n := before + segment + after, before + after, |segment|;
    forall k | 0 <= k < |recs'| - 1 && Open(recs'[k], durable) ensures recs'[k + 1].tx.lsn == recs'[k].tx.lsn {
      assert k >= |before| && recs[k + n] == recs'[k] && recs[k + n + 1] == recs'[k + 1];
    }
    assert recs' != [] && Open(recs'[|recs'| - 1], durable) ==> recs[|recs| - 1] == recs'[|recs'| - 1];
  }

  lemma KeptRemoved(log: seq<Tx>, unlogged: set<nat>, durable: nat, floor: nat, floor': nat, before: seq<Rec>, segment: seq<Rec>, after: seq<Rec>)
    requires Holds(log, unlogged, durable, floor, before + segment + after) && floor <= floor'
    requires forall r | r in segment :: !Needed(r.tx, durable, floor')
    ensures Holds(log, unlogged, durable, floor', before + after)
  {
    hide Has;
    forall i | 0 <= i < |log| && Needed(log[i], durable, floor') && log[i].lsn !in unlogged ensures Has(before + after, log[i]) {
      HasRemoved(before, segment, after, log[i]);
    }
  }

  /** Deleting a segment loses nothing that redo needs, nor anything at or above the floor. */
  lemma RemoveKeeps(base: Base, history: seq<Snap>, log: seq<Tx>, unlogged: set<nat>, durable: nat, floor: nat, floor': nat,
                    before: seq<Rec>, segment: seq<Rec>, after: seq<Rec>)
    requires LogOk(base, history, log, unlogged, durable, floor, before + segment + after) && floor <= floor'
    requires Trailing(before + segment + after, durable, base.lsn + |log|)
    requires forall r | r in segment :: r.tx.lsn <= durable && r.tx.point.height < floor'
    ensures LogOk(base, history, log, unlogged, durable, floor', before + after) && Trailing(before + after, durable, base.lsn + |log|)
    ensures NoneOpen(before + segment + after, durable) ==> NoneOpen(before + after, durable)
  {
    hide StepTo, Logged, RecOk, InOrder, Holds, Adjacent, Trailing, Open;
    var recs, recs' := before + segment + after, before + after;
    OrderedRemoved(before, segment, after);
    KeptRemoved(log, unlogged, durable, floor, floor', before, segment, after);
    AdjacentRemoved(before, segment, after, durable, base.lsn + |log|);
    forall k | 0 <= k < |recs'| ensures RecOk(base, history, log, recs'[k]) { Shifted(before, segment, after, k); }
    forall k | 0 <= k < |recs'| ensures exists j :: 0 <= j < |recs| && recs[j] == recs'[k] { Shifted(before, segment, after, k); }
  }

  // ---- crashes --------------------------------------------------------------------------

  function Take<T>(s: seq<T>, n: int): seq<T> { if 0 <= n <= |s| then s[..n] else s }

  /** The history that recovery continues. */
  function PastStates(base: Base, history: seq<Snap>, durable: nat, kept: seq<Rec>): seq<Snap> {
    if kept != [] && Open(kept[|kept| - 1], durable) then Take(history, kept[|kept| - 1].tx.lsn - base.lsn) + [kept[|kept| - 1].after]
    else Take(history, Reach(durable, kept) - base.lsn + 1)
  }

  function PastLog(base: Base, log: seq<Tx>, durable: nat, kept: seq<Rec>): seq<Tx> {
    if kept != [] && Open(kept[|kept| - 1], durable) then Take(log, kept[|kept| - 1].tx.lsn - base.lsn - 1) + [kept[|kept| - 1].tx]
    else Take(log, Reach(durable, kept) - base.lsn)
  }

  function PastUnlogged(durable: nat, unlogged: set<nat>): set<nat> { set u | u in unlogged && u <= durable }

  lemma ReachBounds(durable: nat, recs: seq<Rec>, i: nat)
    requires InOrder(recs) && i < |recs|
    ensures recs[i].tx.lsn <= Reach(durable, recs)
  {
    assert i < |recs| - 1 ==> recs[i].tx.lsn <= recs[|recs| - 1].tx.lsn;
  }

  lemma AdoptNone(kept: seq<Rec>, durable: nat)
    requires NoneOpen(kept, durable)
    ensures AdoptedAll(kept, durable) == kept
  {}

  /** What is left of the log, without a leftover, holds everything that is left of the history. */
  lemma CutKeeps(base: Base, history: seq<Snap>, log: seq<Tx>, unlogged: set<nat>, durable: nat, floor: nat, recs: seq<Rec>, kept: seq<Rec>, e: nat)
    requires LogOk(base, history, log, unlogged, durable, floor, recs) && kept <= recs && NoneOpen(kept, durable)
    requires base.lsn + e == Reach(durable, kept) && e <= |log|
    requires forall k | 0 <= k < |recs| && !recs[k].failed && recs[k].tx.lsn <= durable :: k < |kept|
    ensures LogOk(base, history[..e + 1], log[..e], PastUnlogged(durable, unlogged), durable, floor, kept)
  {
    hide StepTo, Logged, InOrder, Holds, UnloggedOk, RecOk, NoneOpen, Open;
    LoggedPrefix(base, history, log, e);
    LoggedLength(base, history, log);
    PrefixOrdered(recs, kept);
    forall k | 0 <= k < |kept| ensures RecOk(base, history[..e + 1], log[..e], kept[k]) {
      assert kept[k] == recs[k];
      ReachBounds(durable, kept, k);
      RecCut(base, history, log, e, kept[k]);
    }
    CutHolds(base, history, log, unlogged, durable, floor, recs, kept, e);
    CutUnlogged(base, log, unlogged, durable, recs, kept, e);
    CutAdjacent(kept, durable);
  }

  lemma PrefixOrdered(recs: seq<Rec>, kept: seq<Rec>)
    requires InOrder(recs) && kept <= recs
    ensures InOrder(kept)
  {}

  lemma CutAdjacent(kept: seq<Rec>, durable: nat)
    requires NoneOpen(kept, durable)
    ensures Adjacent(kept, durable)
  {}

  lemma RecCut(base: Base, history: seq<Snap>, log: seq<Tx>, e: nat, r: Rec)
    requires RecOk(base, history, log, r) && e <= |log| && |history| == |log| + 1 && r.tx.lsn <= base.lsn + e
    ensures RecOk(base, history[..e + 1], log[..e], r)
  {
    hide StepTo;
  }

  lemma CutUnlogged(base: Base, log: seq<Tx>, unlogged: set<nat>, durable: nat, recs: seq<Rec>, kept: seq<Rec>, e: nat)
    requires UnloggedOk(base, log, unlogged, durable, recs) && kept <= recs && base.lsn + e >= durable && e <= |log|
    ensures UnloggedOk(base, log[..e], PastUnlogged(durable, unlogged), durable, kept)
  {
    assert forall k | 0 <= k < |kept| :: kept[k] == recs[k];
  }

  lemma CutHolds(base: Base, history: seq<Snap>, log: seq<Tx>, unlogged: set<nat>, durable: nat, floor: nat, recs: seq<Rec>, kept: seq<Rec>, e: nat)
    requires LogOk(base, history, log, unlogged, durable, floor, recs) && kept <= recs && NoneOpen(kept, durable)
    requires base.lsn + e == Reach(durable, kept) && e <= |log|
    requires forall k | 0 <= k < |recs| && !recs[k].failed && recs[k].tx.lsn <= durable :: k < |kept|
    ensures Holds(log[..e], PastUnlogged(durable, unlogged), durable, floor, kept)
  {
    hide StepTo, Logged, RecOk, Adjacent, Needed, Has, NoneOpen, InOrder;
    forall i | 0 <= i < e && Needed(log[i], durable, floor) && log[i].lsn !in PastUnlogged(durable, unlogged) ensures Has(kept, log[i]) {
      LoggedStep(base, history, log, i);
      if log[i].lsn > durable { LateUnlogged(base, history, log, unlogged, durable, floor, recs, kept, log[i].lsn); }
      HasCut(durable, recs, kept, log[i]);
    }
  }

  /** Nothing connected without logging is reached by replay. */
  lemma LateUnlogged(base: Base, history: seq<Snap>, log: seq<Tx>, unlogged: set<nat>, durable: nat, floor: nat, recs: seq<Rec>, kept: seq<Rec>, u: nat)
    requires LogOk(base, history, log, unlogged, durable, floor, recs) && kept <= recs && NoneOpen(kept, durable)
    requires durable < u <= Reach(durable, kept) <= base.lsn + |log|
    ensures u !in unlogged
  {
    hide StepTo, Logged, RecOk, InOrder, Adjacent, Holds;
    var n := |kept| - 1;
    assert kept[n] == recs[n] && !Open(kept[n], durable);
  }

  lemma HasCut(durable: nat, recs: seq<Rec>, kept: seq<Rec>, tx: Tx)
    requires InOrder(recs) && kept <= recs && Has(recs, tx) && tx.lsn <= Reach(durable, kept) && NoneOpen(kept, durable)
    requires forall k | 0 <= k < |recs| && !recs[k].failed && recs[k].tx.lsn <= durable :: k < |kept|
    ensures Has(kept, tx)
  {
    var k :| 0 <= k < |recs| && !recs[k].failed && recs[k].tx == tx;
    assert kept != [] ==> kept[|kept| - 1] == recs[|kept| - 1] && !Open(kept[|kept| - 1], durable);
    assert k < |kept|;
    assert kept[k] == recs[k];
  }

  /** What recovery continues with, when the last record kept is left over from a failed append. */
  lemma LeftoverCrash(base: Base, history: seq<Snap>, log: seq<Tx>, unlogged: set<nat>, durable: nat, floor: nat, recs: seq<Rec>, kept: seq<Rec>)
    requires LogOk(base, history, log, unlogged, durable, floor, recs) && kept <= recs && kept != [] && base.lsn <= durable
    requires Open(kept[|kept| - 1], durable) && NoneOpen(kept[..|kept| - 1], durable)
    requires forall k | 0 <= k < |recs| && !recs[k].failed && recs[k].tx.lsn <= durable :: k < |kept|
    ensures LogOk(base, PastStates(base, history, durable, kept), PastLog(base, log, durable, kept), PastUnlogged(durable, unlogged), durable, floor,
                  AdoptedAll(kept, durable))
    ensures base.lsn + |PastLog(base, log, durable, kept)| == Reach(durable, kept)
    ensures durable - base.lsn < |history| ==> durable - base.lsn < |PastStates(base, history, durable, kept)|
    ensures durable - base.lsn < |history| ==> PastStates(base, history, durable, kept)[durable - base.lsn] == history[durable - base.lsn]
  {
    hide StepTo, LogOk, InOrder, NoneOpen, Open;
    var n := |kept| - 1;
    var r, kept' := kept[n], kept[..n];
    assert recs[..n] == kept' && recs[n] == r;
    LeftoverStep(base, history, log, unlogged, durable, floor, recs, n);
    var e := r.tx.lsn - base.lsn - 1;
    LogOkLength(base, history, log, unlogged, durable, floor, recs);
    KeptFailed(durable, recs, kept);
    CutKeeps(base, history, log, unlogged, durable, floor, recs, kept', e);
    NoneTrails(kept', durable, base.lsn + e);
    OpenAbove(r, durable);
    AppendKeeps(base, history[..e + 1], log[..e], PastUnlogged(durable, unlogged), durable, floor, kept', r.tx, r.after);
    AdoptLast(base, history[..e + 1], r, kept, durable);
  }

  lemma KeptFailed(durable: nat, recs: seq<Rec>, kept: seq<Rec>)
    requires kept <= recs && kept != [] && Open(kept[|kept| - 1], durable)
    requires forall k | 0 <= k < |recs| && !recs[k].failed && recs[k].tx.lsn <= durable :: k < |kept|
    ensures forall k | 0 <= k < |recs| && !recs[k].failed && recs[k].tx.lsn <= durable :: k < |kept| - 1
  {
    assert kept[|kept| - 1] == recs[|kept| - 1];
  }

  lemma LogOkLength(base: Base, history: seq<Snap>, log: seq<Tx>, unlogged: set<nat>, durable: nat, floor: nat, recs: seq<Rec>)
    requires LogOk(base, history, log, unlogged, durable, floor, recs)
    ensures |history| == |log| + 1
  {
    LoggedLength(base, history, log);
  }

  lemma NoneTrails(recs: seq<Rec>, durable: nat, lsn: nat)
    requires NoneOpen(recs, durable)
    ensures Trailing(recs, durable, lsn)
  {}

  lemma AdoptLast(base: Base, history: seq<Snap>, r: Rec, kept: seq<Rec>, durable: nat)
    requires kept != [] && r == kept[|kept| - 1] && Open(r, durable) && NoneOpen(kept[..|kept| - 1], durable)
    ensures AdoptedAll(kept, durable) == kept[..|kept| - 1] + [Rec(r.tx, false, r.after)]
  {
    var before := kept[..|kept| - 1];
    forall k | 0 <= k < |before| ensures !Open(kept[k], durable) { assert before[k] == kept[k]; }
  }

  /** After any crash that recovery survives, the log is good again and nothing is left over. */
  lemma CrashLog(base: Base, history: seq<Snap>, log: seq<Tx>, unlogged: set<nat>, durable: nat, floor: nat, recs: seq<Rec>, kept: seq<Rec>)
    requires LogOk(base, history, log, unlogged, durable, floor, recs) && kept <= recs && Healthy(kept, durable)
    requires base.lsn <= durable <= base.lsn + |log|
    requires forall k | 0 <= k < |recs| && !recs[k].failed && recs[k].tx.lsn <= durable :: k < |kept|
    ensures LogOk(base, PastStates(base, history, durable, kept), PastLog(base, log, durable, kept), PastUnlogged(durable, unlogged), durable, floor,
                  AdoptedAll(kept, durable))
    ensures base.lsn + |PastLog(base, log, durable, kept)| == Reach(durable, kept) && NoneOpen(AdoptedAll(kept, durable), durable)
    ensures durable - base.lsn < |PastStates(base, history, durable, kept)| && durable - base.lsn < |history|
    ensures PastStates(base, history, durable, kept)[durable - base.lsn] == history[durable - base.lsn]
    ensures var past := PastStates(base, history, durable, kept); past != [] && Target(base, history, durable, kept) == Some(past[|past| - 1])
  {
    hide StepTo, LogOk, InOrder, NoneOpen, Open;
    LogOkLength(base, history, log, unlogged, durable, floor, recs);
    AdoptCloses(kept, durable);
    HealthyPrefix(recs, kept, durable);
    if kept != [] && Open(kept[|kept| - 1], durable) {
      assert recs[..|kept| - 1] == kept[..|kept| - 1];
      LeftoverCrash(base, history, log, unlogged, durable, floor, recs, kept);
    } else {
      HealthyNone(kept, durable);
      ReachIs(base, history, log, unlogged, durable, floor, recs, kept);
      var e := Reach(durable, kept) - base.lsn;
      CutKeeps(base, history, log, unlogged, durable, floor, recs, kept, e);
      AdoptNone(kept, durable);
    }
  }

  lemma AdoptCloses(kept: seq<Rec>, durable: nat)
    ensures NoneOpen(AdoptedAll(kept, durable), durable)
  {}

  lemma HealthyNone(kept: seq<Rec>, durable: nat)
    requires Healthy(kept, durable) && (kept != [] ==> !Open(kept[|kept| - 1], durable))
    ensures NoneOpen(kept, durable)
  {
    hide Open;
  }

  lemma ReachIs(base: Base, history: seq<Snap>, log: seq<Tx>, unlogged: set<nat>, durable: nat, floor: nat, recs: seq<Rec>, kept: seq<Rec>)
    requires LogOk(base, history, log, unlogged, durable, floor, recs) && kept <= recs && NoneOpen(kept, durable)
    requires base.lsn <= durable <= base.lsn + |log|
    ensures durable <= Reach(durable, kept) <= base.lsn + |log|
  {
    hide StepTo, Logged, RecOk, InOrder, Holds, Adjacent, UnloggedOk;
    if kept != [] && kept[|kept| - 1].tx.lsn > durable {
      var n := |kept| - 1;
      assert kept[n] == recs[n] && !Open(kept[n], durable);
      RecBound(base, history, log, recs, n);
    }
  }
}
