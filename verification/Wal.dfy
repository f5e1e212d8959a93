/** Log records as bytes, and the scan of a segment that may end in a torn record
    (SerializeWal, ParseWal and RecoverSegment in src/forest.cpp). */
module Wal {
  import opened Common
  import opened Records
  import opened Transactions
  import opened Bytes
  import Durability
  import DeltaStore
  import LogRecords
  import LogSteps
  import OnlineRuns

  const MAGIC: seq<Byte> := [85, 84, 82, 87, 65, 76, 48, 49]
  const COMMIT: seq<Byte> := [67, 79, 77, 77, 73, 84, 48, 49]
  const VERSION: nat := 2
  const LEGACY_VERSION: nat := 1
  const ROOT_COUNT: nat := 64

  /** Magic, length, checksum and commit marker. */
  const FRAME: nat := 32

  /** How hashes are laid out, and the checksum over everything before it. */
  datatype Form = Form(hashes: HashForm, checksum: seq<Byte> -> nat)

  ghost predicate FormOk(form: Form) { Faithful(form.hashes) && forall b :: form.checksum(b) < Span(8) }

  // ---- fields ---------------------------------------------------------------------------

  function PutPoint(form: Form, p: Point): seq<Byte> { Le(p.height, 4) + form.hashes.bytes(p.hash) }

  function ReadPoint(form: Form, bytes: seq<Byte>): Option<Got<Point>> {
    var height :- ReadLe(bytes, 4);
    var hash :- ReadHash(form.hashes, height.rest);
    Some(Got(Point(height.value, hash.value), hash.rest))
  }

  lemma PointRoundTrip(form: Form, p: Point, rest: seq<Byte>)
    requires FormOk(form) && p.height < Span(4)
    ensures ReadPoint(form, PutPoint(form, p) + rest) == Some(Got(p, rest))
    ensures |PutPoint(form, p)| == 36
  {
    var hash := form.hashes.bytes(p.hash);
    assert PutPoint(form, p) + rest == Le(p.height, 4) + (hash + rest);
    ReadLeAppended(p.height, 4, hash + rest);
    ReadHashAppended(form.hashes, p.hash, rest);
  }

  function KindCode(k: Kind): nat { match k case FREE => 0 case LEAF => 1 case BRANCH => 2 }

  function PutRecord(form: Form, r: NodeRecord): seq<Byte> {
    form.hashes.bytes(r.hash) + Le(r.parent, 4) + Le(r.left, 4) + Le(r.right, 4) + Le(KindCode(r.kind), 1) + [0, 0, 0]
  }

  function ReadRecord(form: Form, bytes: seq<Byte>): Option<Got<NodeRecord>> {
    var hash :- ReadHash(form.hashes, bytes);
    var parent :- ReadLe(hash.rest, 4);
    var left :- ReadLe(parent.rest, 4);
    var right :- ReadLe(left.rest, 4);
    var kind :- ReadLe(right.rest, 1);
    if kind.value > 2 || |kind.rest| < 3 then None
    else
      var k := if kind.value == 0 then FREE else if kind.value == 1 then LEAF else BRANCH;
      Some(Got(NodeRecord(hash.value, parent.value, left.value, right.value, k), kind.rest[3..]))
  }

  predicate RecordFits(r: NodeRecord) { r.parent < Span(4) && r.left < Span(4) && r.right < Span(4) }

  lemma RecordRoundTrip(form: Form, r: NodeRecord, rest: seq<Byte>)
    requires FormOk(form) && RecordFits(r)
    ensures ReadRecord(form, PutRecord(form, r) + rest) == Some(Got(r, rest))
    ensures |PutRecord(form, r)| == 48
  {
    hide FromLe, Le, Span;
    var pad: seq<Byte> := [0, 0, 0];
    var h, p, l, t, k := form.hashes.bytes(r.hash), Le(r.parent, 4), Le(r.left, 4), Le(r.right, 4), Le(KindCode(r.kind), 1);
    assert PutRecord(form, r) + rest == h + (p + (l + (t + (k + (pad + rest)))));
    ReadHashAppended(form.hashes, r.hash, p + (l + (t + (k + (pad + rest)))));
    ReadLeAppended(r.parent, 4, l + (t + (k + (pad + rest))));
    ReadLeAppended(r.left, 4, t + (k + (pad + rest)));
    ReadLeAppended(r.right, 4, k + (pad + rest));
    Spans();
    ReadLeAppended(KindCode(r.kind), 1, pad + rest);
    assert (pad + rest)[3..] == rest;
  }

  function PutChange(form: Form, c: Change): seq<Byte> { Le(c.id, 4) + PutRecord(form, c.before) + PutRecord(form, c.after) }

  function ReadChange(form: Form, bytes: seq<Byte>): Option<Got<Change>> {
    var id :- ReadLe(bytes, 4);
    var before :- ReadRecord(form, id.rest);
    var after :- ReadRecord(form, before.rest);
    Some(Got(Change(id.value, before.value, after.value), after.rest))
  }

  predicate ChangeFits(c: Change) { c.id < Span(4) && RecordFits(c.before) && RecordFits(c.after) }

  lemma ChangeRoundTrip(form: Form, c: Change, rest: seq<Byte>)
    requires FormOk(form) && ChangeFits(c)
    ensures ReadChange(form, PutChange(form, c) + rest) == Some(Got(c, rest))
    ensures |PutChange(form, c)| == 100
  {
    hide FromLe, Le, Span, PutRecord, ReadRecord;
    var b, a := PutRecord(form, c.before), PutRecord(form, c.after);
    assert PutChange(form, c) + rest == Le(c.id, 4) + (b + (a + rest));
    ReadLeAppended(c.id, 4, b + (a + rest));
    RecordRoundTrip(form, c.before, a + rest);
    RecordRoundTrip(form, c.after, rest);
  }

  function PutIds(ids: seq<NodeId>): seq<Byte> { if ids == [] then [] else Le(ids[0], 4) + PutIds(ids[1..]) }

  function ReadIds(n: nat, bytes: seq<Byte>): Option<Got<seq<NodeId>>> {
    if n == 0 then Some(Got([], bytes))
    else
      var first :- ReadLe(bytes, 4);
      var others :- ReadIds(n - 1, first.rest);
      Some(Got([first.value] + others.value, others.rest))
  }

  lemma {:induction false} IdsRoundTrip(ids: seq<NodeId>, rest: seq<Byte>)
    requires forall i | 0 <= i < |ids| :: ids[i] < Span(4)
    ensures ReadIds(|ids|, PutIds(ids) + rest) == Some(Got(ids, rest))
    ensures |PutIds(ids)| == 4 * |ids|
    decreases |ids|
  {
    hide FromLe, Le, Span;
    if ids == [] {
      assert PutIds(ids) + rest == rest;
    } else {
      assert PutIds(ids) + rest == Le(ids[0], 4) + (PutIds(ids[1..]) + rest);
      ReadLeAppended(ids[0], 4, PutIds(ids[1..]) + rest);
      IdsRoundTrip(ids[1..], rest);
      assert [ids[0]] + ids[1..] == ids;
    }
  }

  function PutChanges(form: Form, cs: seq<Change>): seq<Byte> {
    if cs == [] then [] else PutChange(form, cs[0]) + PutChanges(form, cs[1..])
  }

  function ReadChanges(form: Form, n: nat, bytes: seq<Byte>): Option<Got<seq<Change>>> {
    if n == 0 then Some(Got([], bytes))
    else
      var first :- ReadChange(form, bytes);
      var others :- ReadChanges(form, n - 1, first.rest);
      Some(Got([first.value] + others.value, others.rest))
  }

  lemma {:induction false} ChangesRoundTrip(form: Form, cs: seq<Change>, rest: seq<Byte>)
    requires FormOk(form) && forall i | 0 <= i < |cs| :: ChangeFits(cs[i])
    ensures ReadChanges(form, |cs|, PutChanges(form, cs) + rest) == Some(Got(cs, rest))
    ensures |PutChanges(form, cs)| == 100 * |cs|
    decreases |cs|
  {
    hide ChangeFits, PutChange, ReadChange, FormOk;
    if cs == [] {
      assert PutChanges(form, cs) + rest == rest;
    } else {
      assert PutChanges(form, cs) + rest == PutChange(form, cs[0]) + (PutChanges(form, cs[1..]) + rest);
      ChangeRoundTrip(form, cs[0], PutChanges(form, cs[1..]) + rest);
      ChangesRoundTrip(form, cs[1..], rest);
      assert [cs[0]] + cs[1..] == cs;
    }
  }

  // ---- one transaction ------------------------------------------------------------------

  function DirectionCode(d: Direction): nat { if d == CONNECT then 1 else 2 }

  datatype Ends = Ends(version: nat, kind: nat, lsn: nat, previous: Point, point: Point)

  function PutEnds(form: Form, e: Ends): seq<Byte> {
    Le(e.version, 4) + Le(e.kind, 4) + Le(e.lsn, 8) + PutPoint(form, e.previous) + PutPoint(form, e.point)
  }

  function ReadEnds(form: Form, bytes: seq<Byte>): Option<Got<Ends>> {
    var version :- ReadLe(bytes, 4);
    var kind :- ReadLe(version.rest, 4);
    var lsn :- ReadLe(kind.rest, 8);
    var previous :- ReadPoint(form, lsn.rest);
    var point :- ReadPoint(form, previous.rest);
    Some(Got(Ends(version.value, kind.value, lsn.value, previous.value, point.value), point.rest))
  }

  predicate EndsFit(e: Ends) {
    e.version < Span(4) && e.kind < Span(4) && e.lsn < Span(8) && e.previous.height < Span(4) && e.point.height < Span(4)
  }

  lemma EndsRoundTrip(form: Form, e: Ends, rest: seq<Byte>)
    requires FormOk(form) && EndsFit(e)
    ensures ReadEnds(form, PutEnds(form, e) + rest) == Some(Got(e, rest))
    ensures |PutEnds(form, e)| == 88
  {
    hide FromLe, Le, Span, PutPoint, ReadPoint, FormOk;
    var v, k, l, q, p := Le(e.version, 4), Le(e.kind, 4), Le(e.lsn, 8), PutPoint(form, e.previous), PutPoint(form, e.point);
    assert PutEnds(form, e) + rest == v + (k + (l + (q + (p + rest))));
    ReadLeAppended(e.version, 4, k + (l + (q + (p + rest))));
    ReadLeAppended(e.kind, 4, l + (q + (p + rest)));
    ReadLeAppended(e.lsn, 8, q + (p + rest));
    PointRoundTrip(form, e.previous, p + rest);
    PointRoundTrip(form, e.point, rest);
  }

  datatype Counts = Counts(beforeLeaves: nat, afterLeaves: nat, beforeNext: nat, afterNext: nat)

  function PutCounts(c: Counts): seq<Byte> { Le(c.beforeLeaves, 8) + Le(c.afterLeaves, 8) + Le(c.beforeNext, 4) + Le(c.afterNext, 4) }

  function ReadCounts(bytes: seq<Byte>): Option<Got<Counts>> {
    var beforeLeaves :- ReadLe(bytes, 8);
    var afterLeaves :- ReadLe(beforeLeaves.rest, 8);
    var beforeNext :- ReadLe(afterLeaves.rest, 4);
    var afterNext :- ReadLe(beforeNext.rest, 4);
    Some(Got(Counts(beforeLeaves.value, afterLeaves.value, beforeNext.value, afterNext.value), afterNext.rest))
  }

  predicate CountsFit(c: Counts) {
    c.beforeLeaves < Span(8) && c.afterLeaves < Span(8) && c.beforeNext < Span(4) && c.afterNext < Span(4)
  }

  lemma CountsRoundTrip(c: Counts, rest: seq<Byte>)
    requires CountsFit(c)
    ensures ReadCounts(PutCounts(c) + rest) == Some(Got(c, rest))
    ensures |PutCounts(c)| == 24
  {
    hide FromLe, Le, Span;
    var a, b, n, m := Le(c.beforeLeaves, 8), Le(c.afterLeaves, 8), Le(c.beforeNext, 4), Le(c.afterNext, 4);
    assert PutCounts(c) + rest == a + (b + (n + (m + rest)));
    ReadLeAppended(c.beforeLeaves, 8, b + (n + (m + rest)));
    ReadLeAppended(c.afterLeaves, 8, n + (m + rest));
    ReadLeAppended(c.beforeNext, 4, m + rest);
    ReadLeAppended(c.afterNext, 4, rest);
  }

  function EndsOf(tx: Tx): Ends { Ends(VERSION, DirectionCode(tx.kind), tx.lsn, tx.previous, tx.point) }

  function CountsOf(tx: Tx): Counts { Counts(tx.beforeLeaves, tx.afterLeaves, tx.beforeNext, tx.afterNext) }

  function Payload(form: Form, tx: Tx): seq<Byte> {
    PutEnds(form, EndsOf(tx)) + PutCounts(CountsOf(tx)) + PutIds(tx.beforeRoots) + PutIds(tx.afterRoots)
      + Le(|tx.changes|, 8) + PutChanges(form, tx.changes)
  }

  predicate HeightsOk(tx: Tx) {
    if tx.kind == CONNECT then tx.point.height == tx.previous.height + 1 else tx.previous.height == tx.point.height + 1
  }

  function ParsePayload(form: Form, bytes: seq<Byte>): Option<Tx> {
    var ends :- ReadEnds(form, bytes);
    var counts :- ReadCounts(ends.rest);
    var before :- ReadIds(ROOT_COUNT, counts.rest);
    var after :- ReadIds(ROOT_COUNT, before.rest);
    var n :- ReadLe(after.rest, 8);
    var e, c := ends.value, counts.value;
    if (e.version != LEGACY_VERSION && e.version != VERSION) || e.kind < 1 || e.kind > 2 || n.value > NO_NODE then None
    else
      var changes :- ReadChanges(form, n.value, n.rest);
      var tx := Tx(if e.kind == 1 then CONNECT else DISCONNECT, e.lsn, e.previous, e.point, c.beforeLeaves, c.afterLeaves,
                   c.beforeNext, c.afterNext, before.value, after.value, changes.value);
      if changes.rest != [] || !HeightsOk(tx) || tx.afterNext >= NO_NODE then None else Some(tx)
  }

  predicate RootsFit(roots: seq<NodeId>) { |roots| == ROOT_COUNT && forall i | 0 <= i < |roots| :: roots[i] < Span(4) }

  /** The transaction's fields fit the widths of the format. */
  predicate FieldsFit(tx: Tx) {
    && EndsFit(EndsOf(tx)) && CountsFit(CountsOf(tx)) && RootsFit(tx.beforeRoots) && RootsFit(tx.afterRoots)
    && |tx.changes| <= NO_NODE && (forall i | 0 <= i < |tx.changes| :: ChangeFits(tx.changes[i]))
  }

  /** The heights are one apart, and the id NO_NODE is not in use. */
  predicate Consistent(tx: Tx) { HeightsOk(tx) && tx.afterNext < NO_NODE }

  predicate Fits(tx: Tx) { FieldsFit(tx) && Consistent(tx) }

  lemma PayloadRoundTrip(form: Form, tx: Tx)
    requires FormOk(form) && FieldsFit(tx)
    ensures ParsePayload(form, Payload(form, tx)) == if Consistent(tx) then Some(tx) else None
    ensures |Payload(form, tx)| == 632 + 100 * |tx.changes|
  {
    hide FromLe, Le, Span, PutEnds, ReadEnds, PutCounts, ReadCounts, PutIds, ReadIds, PutChanges, ReadChanges, FormOk, EndsFit, CountsFit,
         ReadLe, ChangeFits;
    var e, c, b, a := PutEnds(form, EndsOf(tx)), PutCounts(CountsOf(tx)), PutIds(tx.beforeRoots), PutIds(tx.afterRoots);
    var n, cs := Le(|tx.changes|, 8), PutChanges(form, tx.changes);
    assert Payload(form, tx) == e + (c + (b + (a + (n + cs))));
    EndsRoundTrip(form, EndsOf(tx), c + (b + (a + (n + cs))));
    CountsRoundTrip(CountsOf(tx), b + (a + (n + cs)));
    IdsRoundTrip(tx.beforeRoots, a + (n + cs));
    IdsRoundTrip(tx.afterRoots, n + cs);
    Spans();
    ReadLeAppended(|tx.changes|, 8, cs);
    ChangesRoundTrip(form, tx.changes, []);
    assert cs + [] == cs;
  }

  // ---- the frame around it --------------------------------------------------------------

  function Headed(form: Form, tx: Tx): seq<Byte> { MAGIC + Le(|Payload(form, tx)|, 8) + Payload(form, tx) }

  function SerializeWal(form: Form, tx: Tx): seq<Byte> {
    Headed(form, tx) + Le(form.checksum(Headed(form, tx)), 8) + COMMIT
  }

  function ParseWal(form: Form, record: seq<Byte>): Result<Tx> {
    var n := |record|;
    if n < FRAME then Err("WAL record is truncated")
    else if record[n - 8..] != COMMIT then Err("WAL commit marker is missing")
    else if form.checksum(record[..n - 16]) != FromLe(record[n - 16..n - 8]) then Err("committed WAL checksum mismatch")
    else if record[..8] != MAGIC || FromLe(record[8..16]) != n - FRAME then Err("invalid WAL record header")
    else
      var tx := ParsePayload(form, record[16..n - 16]);
      if tx.None? then Err("WAL transaction is inconsistent") else Ok(tx.value)
  }

  lemma FrameParts(form: Form, tx: Tx)
    requires FormOk(form) && FieldsFit(tx)
    ensures var r := SerializeWal(form, tx);
            var n := |r|;
            && n == FRAME + |Payload(form, tx)| && n - FRAME < Span(8) - FRAME
            && r[..8] == MAGIC && r[8..16] == Le(|Payload(form, tx)|, 8) && r[16..n - 16] == Payload(form, tx)
            && r[..n - 16] == Headed(form, tx) && r[n - 16..n - 8] == Le(form.checksum(Headed(form, tx)), 8) && r[n - 8..] == COMMIT
  {
    hide Payload, Le, FromLe, Span;
    PayloadRoundTrip(form, tx);
    Spans();
    Slices(MAGIC, Le(|Payload(form, tx)|, 8), Payload(form, tx), Le(form.checksum(Headed(form, tx)), 8), COMMIT);
  }

  lemma Slices(m: seq<Byte>, l: seq<Byte>, p: seq<Byte>, c: seq<Byte>, k: seq<Byte>)
    requires |m| == 8 && |l| == 8 && |c| == 8 && |k| == 8
    ensures var r := m + l + p + c + k;
            var n := FRAME + |p|;
            && |r| == n && r[..8] == m && r[8..16] == l && r[16..n - 16] == p && r[..n - 16] == m + l + p
            && r[n - 16..n - 8] == c && r[n - 8..] == k
  {
    var h := m + l + p;
    assert |h| == FRAME + |p| - 16;
  }

  /** A record read back is the transaction that was written, if and only if the transaction is
      consistent: one that hands out the last id is written, and refused when read. */
  lemma WalRoundTrip(form: Form, tx: Tx)
    requires FormOk(form) && FieldsFit(tx)
    ensures ParseWal(form, SerializeWal(form, tx)) == if Consistent(tx) then Ok(tx) else Err("WAL transaction is inconsistent")
  {
    hide Payload, ParsePayload, Le, FromLe, Span, SerializeWal, Consistent;
    FrameParts(form, tx);
    PayloadRoundTrip(form, tx);
    LeRoundTrip(|Payload(form, tx)|, 8);
    LeRoundTrip(form.checksum(Headed(form, tx)), 8);
  }

  // ---- a segment ------------------------------------------------------------------------

  function SegmentBytes(form: Form, txs: seq<Tx>): seq<Byte> {
    if txs == [] then [] else SerializeWal(form, txs[0]) + SegmentBytes(form, txs[1..])
  }

  /** The transactions found, and how many bytes they take. */
  datatype Scanned = Scanned(txs: seq<Tx>, size: nat)

  /** The length of the record at the head, in 64-bit arithmetic. */
  function TotalSize(bytes: seq<Byte>): nat
    requires |bytes| >= 16
  { (FRAME + FromLe(bytes[8..16])) % Span(8) }

  /** Read whole records; stop at one that is cut short, and refuse one that is damaged. */
  function Scan(form: Form, bytes: seq<Byte>): Result<Scanned>
    decreases |bytes|
  {
    if |bytes| < 16 then Ok(Scanned([], 0))
    else if bytes[..8] != MAGIC then Err("invalid WAL magic")
    else if TotalSize(bytes) > |bytes| then Ok(Scanned([], 0))
    else
      var tx := ParseWal(form, bytes[..TotalSize(bytes)]);
      if tx.Err? then Err(tx.error)
      else
        var others := Scan(form, bytes[TotalSize(bytes)..]);
        if others.Err? then others else Ok(Scanned([tx.value] + others.value.txs, TotalSize(bytes) + others.value.size))
  }

  /** How many transactions are whole in the first n bytes. */
  function WholeCount(form: Form, txs: seq<Tx>, n: nat): (k: nat)
    ensures k <= |txs|
  {
    if txs == [] || |SerializeWal(form, txs[0])| > n then 0
    else 1 + WholeCount(form, txs[1..], n - |SerializeWal(form, txs[0])|)
  }

  /** It is the largest number whose bytes fit. */
  lemma {:induction false} WholeCountIs(form: Form, txs: seq<Tx>, n: nat)
    ensures var k := WholeCount(form, txs, n);
            && |SegmentBytes(form, txs[..k])| <= n
            && (k < |txs| ==> |SegmentBytes(form, txs[..k + 1])| > n)
    decreases |txs|
  {
    hide SerializeWal;
    var k := WholeCount(form, txs, n);
    if k > 0 {
      WholeCountIs(form, txs[1..], n - |SerializeWal(form, txs[0])|);
      assert txs[..k][1..] == txs[1..][..k - 1];
      if k < |txs| { assert txs[..k + 1][1..] == txs[1..][..k]; }
    } else if txs != [] {
      assert txs[..1][0] == txs[0];
    }
  }

  /** A record cut short ends the scan. */
  lemma ScanTorn(form: Form, tx: Tx, rest: seq<Byte>, n: nat)
    requires FormOk(form) && Fits(tx) && n < |SerializeWal(form, tx)|
    ensures Scan(form, (SerializeWal(form, tx) + rest)[..n]) == Ok(Scanned([], 0))
  {
    hide Payload, ParseWal, Le, FromLe, Span, SerializeWal;
    FrameParts(form, tx);
    var bytes := (SerializeWal(form, tx) + rest)[..n];
    if n >= 16 {
      assert bytes[..8] == SerializeWal(form, tx)[..8] && bytes[8..16] == SerializeWal(form, tx)[8..16];
      SizeRead(form, tx, bytes);
    }
  }

  lemma SizeRead(form: Form, tx: Tx, bytes: seq<Byte>)
    requires FormOk(form) && Fits(tx) && |bytes| >= 16 && bytes[8..16] == Le(|Payload(form, tx)|, 8)
    ensures TotalSize(bytes) == |SerializeWal(form, tx)|
  {
    hide Payload, Le, FromLe, Span, SerializeWal;
    FrameParts(form, tx);
    LeRoundTrip(|Payload(form, tx)|, 8);
    Spans();
  }

  /** A whole record is read, and the scan goes on behind it. */
  lemma ScanWhole(form: Form, tx: Tx, rest: seq<Byte>)
    requires FormOk(form) && Fits(tx)
    ensures Scan(form, SerializeWal(form, tx) + rest)
            == var others := Scan(form, rest);
               if others.Err? then others else Ok(Scanned([tx] + others.value.txs, |SerializeWal(form, tx)| + others.value.size))
  {
    hide Payload, ParseWal, Le, FromLe, Span, SerializeWal, TotalSize;
    FrameParts(form, tx);
    var r := SerializeWal(form, tx);
    var bytes := r + rest;
    assert bytes[..8] == r[..8] && bytes[8..16] == r[8..16];
    SizeRead(form, tx, bytes);
    assert bytes[..|r|] == r && bytes[|r|..] == rest;
    WalRoundTrip(form, tx);
  }

  /** Whatever length a segment is cut to, the scan returns exactly the transactions that are
      whole in it, and the length to truncate it to. */
  lemma {:induction false} ScanPrefix(form: Form, txs: seq<Tx>, n: nat)
    requires FormOk(form) && (forall i | 0 <= i < |txs| :: Fits(txs[i])) && n <= |SegmentBytes(form, txs)|
    ensures var k := WholeCount(form, txs, n);
            Scan(form, SegmentBytes(form, txs)[..n]) == Ok(Scanned(txs[..k], |SegmentBytes(form, txs[..k])|))
    decreases |txs|
  {
    hide Scan, SerializeWal, Fits, FormOk;
    var k := WholeCount(form, txs, n);
    if txs == [] {
      ScanNothing(form);
    } else {
      var r, rest := SerializeWal(form, txs[0]), SegmentBytes(form, txs[1..]);
      if |r| > n {
        ScanTorn(form, txs[0], rest, n);
      } else {
        assert (r + rest)[..n] == r + rest[..n - |r|];
        ScanWhole(form, txs[0], rest[..n - |r|]);
        ScanPrefix(form, txs[1..], n - |r|);
        assert txs[..k] == [txs[0]] + txs[1..][..k - 1] && txs[..k][1..] == txs[1..][..k - 1];
      }
    }
  }

  lemma ScanNothing(form: Form)
    ensures Scan(form, []) == Ok(Scanned([], 0))
  {}

  /** The recovery loop over one segment file. */
  method RecoverSegment(form: Form, bytes: seq<Byte>) returns (r: Result<Scanned>)
    ensures r == Scan(form, bytes)
  {
    hide ParseWal, FromLe, Span, TotalSize, Scan, Behind;
    assert bytes[0..] == bytes;
    BehindNothing(Scanned([], 0), Scan(form, bytes));
    var offset: nat := 0;
    var txs: seq<Tx> := [];
    while true
      invariant offset <= |bytes|
      invariant Scan(form, bytes) == Behind(Scanned(txs, offset), Scan(form, bytes[offset..]))
      decreases |bytes| - offset
    {
      var rest := bytes[offset..];
      ScanStep(form, rest);
      BehindNothing(Scanned(txs, offset), Scan(form, rest));
      if |rest| < 16 { break; }
      if rest[..8] != MAGIC {
        BehindRefused(Scanned(txs, offset), "invalid WAL magic");
        return Err("invalid WAL magic");
      }
      var total := TotalSize(rest);
      if total > |rest| { break; }
      var tx := ParseWal(form, rest[..total]);
      if tx.Err? {
        BehindRefused(Scanned(txs, offset), tx.error);
        return Err(tx.error);
      }
      BehindBoth(Scanned(txs, offset), Scanned([tx.value], total), Scan(form, rest[total..]));
      ParsedWhole(form, rest[..total]);
      assert rest[total..] == bytes[offset + total..];
      txs := txs + [tx.value];
      offset := offset + total;
    }
    return Ok(Scanned(txs, offset));
  }

  /** What a scan finds, with what was found before it. */
  function Behind(done: Scanned, r: Result<Scanned>): Result<Scanned> {
    if r.Err? then r else Ok(Scanned(done.txs + r.value.txs, done.size + r.value.size))
  }

  lemma BehindNothing(done: Scanned, r: Result<Scanned>)
    ensures Behind(Scanned([], 0), r) == r && Behind(done, Ok(Scanned([], 0))) == Ok(done)
  {
    assert done.txs + [] == done.txs;
    assert r.Ok? ==> [] + r.value.txs == r.value.txs;
  }

  lemma BehindRefused(done: Scanned, error: string)
    ensures Behind(done, Err(error)) == Err(error)
  {}

  lemma BehindBoth(a: Scanned, b: Scanned, r: Result<Scanned>)
    ensures Behind(a, Behind(b, r)) == Behind(Scanned(a.txs + b.txs, a.size + b.size), r)
  {
    assert r.Ok? ==> a.txs + (b.txs + r.value.txs) == a.txs + b.txs + r.value.txs;
  }

  lemma ParsedWhole(form: Form, record: seq<Byte>)
    requires ParseWal(form, record).Ok?
    ensures |record| >= FRAME
  {}

  lemma ScanStep(form: Form, bytes: seq<Byte>)
    ensures |bytes| < 16 ==> Scan(form, bytes) == Ok(Scanned([], 0))
    ensures |bytes| >= 16 && bytes[..8] != MAGIC ==> Scan(form, bytes) == Err("invalid WAL magic")
    ensures |bytes| >= 16 && bytes[..8] == MAGIC && TotalSize(bytes) > |bytes| ==> Scan(form, bytes) == Ok(Scanned([], 0))
    ensures |bytes| >= 16 && bytes[..8] == MAGIC && TotalSize(bytes) <= |bytes| ==>
              var tx := ParseWal(form, bytes[..TotalSize(bytes)]);
              Scan(form, bytes) == if tx.Err? then Err(tx.error)
                else Behind(Scanned([tx.value], TotalSize(bytes)), Scan(form, bytes[TotalSize(bytes)..]))
  {
    hide ParseWal, FromLe, Span, TotalSize;
  }

  // ---- the whole log --------------------------------------------------------------------

  /** The segment files one after the other. */
  function ScanAll(form: Form, files: seq<seq<Byte>>): Result<seq<seq<Tx>>> {
    if files == [] then Ok([])
    else
      var n := |files| - 1;
      var before := ScanAll(form, files[..n]);
      if before.Err? then before
      else
        var last := Scan(form, files[n]);
        if last.Err? then Err(last.error) else Ok(before.value + [last.value.txs])
  }

  function RecoverBytes(form: Form, base: DeltaStore.Base, disk: map<nat, DeltaStore.File>, files: seq<seq<Byte>>): Result<Memory> {
    var wal := ScanAll(form, files);
    if wal.Err? then Err(wal.error) else Durability.Recover(base, disk, wal.value)
  }

  function FilesOf(form: Form, wal: seq<seq<Tx>>): (r: seq<seq<Byte>>)
    ensures |r| == |wal| && forall i | 0 <= i < |wal| :: r[i] == SegmentBytes(form, wal[i])
  { seq(|wal|, i requires 0 <= i < |wal| => SegmentBytes(form, wal[i])) }

  ghost predicate AllFit(wal: seq<seq<Tx>>) { forall i, k | 0 <= i < |wal| && 0 <= k < |wal[i]| :: Fits(wal[i][k]) }

  lemma {:induction false} ScanAllWhole(form: Form, wal: seq<seq<Tx>>)
    requires FormOk(form) && AllFit(wal)
    ensures ScanAll(form, FilesOf(form, wal)) == Ok(wal)
    decreases |wal|
  {
    hide Scan, SegmentBytes, Fits, FormOk;
    if wal != [] {
      var n := |wal| - 1;
      ScanAllWhole(form, wal[..n]);
      assert FilesOf(form, wal)[..n] == FilesOf(form, wal[..n]);
      ScanSegment(form, wal[n]);
      assert wal[..n] + [wal[n]] == wal;
    }
  }

  lemma ScanSegment(form: Form, txs: seq<Tx>)
    requires FormOk(form) && forall i | 0 <= i < |txs| :: Fits(txs[i])
    ensures Scan(form, SegmentBytes(form, txs)) == Ok(Scanned(txs, |SegmentBytes(form, txs)|))
  {
    hide Scan, SegmentBytes, Fits, FormOk;
    var bytes := SegmentBytes(form, txs);
    assert bytes[..|bytes|] == bytes && txs[..|txs|] == txs;
    ScanPrefix(form, txs, |bytes|);
    WholeAll(form, txs);
  }

  lemma {:induction false} WholeAll(form: Form, txs: seq<Tx>)
    ensures WholeCount(form, txs, |SegmentBytes(form, txs)|) == |txs|
    decreases |txs|
  {
    hide SerializeWal;
    if txs != [] { WholeAll(form, txs[1..]); }
  }

  /** The files with the last one cut to its first n bytes. */
  function CutFiles(files: seq<seq<Byte>>, n: nat): seq<seq<Byte>> {
    if files == [] then [] else files[..|files| - 1] + [if n <= |files[|files| - 1]| then files[|files| - 1][..n] else files[|files| - 1]]
  }

  /** At every point of every run of the store, and whatever length its last log file is cut to:
      the bytes read back as all but the last few records, recovery from them succeeds if and only
      if no record left over from a failed append is followed by another, and reaches the state
      after the last record that is whole in them, or after the last publication if that is later. */
  lemma TornLogRecovers(form: Form, base: DeltaStore.Base, depth: nat, states: seq<OnlineRuns.Sys>, steps: seq<OnlineRuns.Step>, i: nat, n: nat) returns (keep: nat)
    requires FormOk(form) && OnlineRuns.IsRun(base, depth, states, steps) && i < |states| && AllFit(LogSteps.TxWal(states[i].wal))
    ensures var s := states[i];
            var files := CutFiles(FilesOf(form, LogSteps.TxWal(s.wal)), n);
            var r, kept := RecoverBytes(form, base, s.disk, files), Durability.Flat(LogSteps.Cut(s.wal, keep));
            && (r.Ok? <==> LogRecords.Healthy(kept, s.m.durableLsn))
            && (r.Ok? ==>
                var target := LogRecords.Target(base, s.history, s.m.durableLsn, kept);
                target.Some? && r.value.lsn == LogRecords.Reach(s.m.durableLsn, kept) && Same(Logical(r.value), target.value.state))
    ensures states[i].wal != [] ==>
              var last := LogSteps.TxWal(states[i].wal)[|states[i].wal| - 1];
              keep == if n <= |SegmentBytes(form, last)| then WholeCount(form, last, n) else |last|
  {
    hide Scan, SegmentBytes, Fits, FormOk, WholeCount, OnlineRuns.IsRun, Durability.Recover, Durability.Flat, LogRecords.Reach, LogRecords.Healthy, LogRecords.Target,
         Same, Logical;
    var s := states[i];
    var wal := LogSteps.TxWal(s.wal);
    if s.wal == [] {
      keep := 0;
      assert CutFiles(FilesOf(form, wal), n) == [];
    } else {
      var last := wal[|wal| - 1];
      keep := if n <= |SegmentBytes(form, last)| then WholeCount(form, last, n) else |last|;
      ScanCut(form, wal, n, keep);
    }
    CutTxWal(s.wal, keep);
    OnlineRuns.CrashSafety(base, depth, states, steps, i, keep);
  }

  lemma CutTxWal(wal: seq<seq<LogRecords.Rec>>, keep: nat)
    ensures LogSteps.TxWal(LogSteps.Cut(wal, keep)) == LogSteps.Cut(LogSteps.TxWal(wal), keep)
  {
    if wal != [] {
      var f := (r: LogRecords.Rec) => r.tx;
      var last := wal[|wal| - 1];
      assert keep <= |last| ==> LogSteps.Map(f, last[..keep]) == LogSteps.Map(f, last)[..keep];
    }
  }

  lemma ScanCut(form: Form, wal: seq<seq<Tx>>, n: nat, keep: nat)
    requires FormOk(form) && AllFit(wal) && wal != []
    requires var last := wal[|wal| - 1]; keep == (if n <= |SegmentBytes(form, last)| then WholeCount(form, last, n) else |last|) && keep <= |last|
    ensures ScanAll(form, CutFiles(FilesOf(form, wal), n)) == Ok(LogSteps.Cut(wal, keep))
  {
    hide Scan, SegmentBytes, Fits, FormOk, WholeCount;
    var k := |wal| - 1;
    var files := CutFiles(FilesOf(form, wal), n);
    assert files[..k] == FilesOf(form, wal[..k]);
    ScanAllWhole(form, wal[..k]);
    if n <= |SegmentBytes(form, wal[k])| { ScanPrefix(form, wal[k], n); } else { ScanSegment(form, wal[k]); assert wal[k][..keep] == wal[k]; }
  }
}
