/** Log files in which failed writes left parts of records, and what recovery makes of them
    (Append, RecoverSegment and Recover in src/forest.cpp). */
module WalParts {
  import opened Common
  import opened Transactions
  import opened Bytes
  import opened Wal
  import Durability
  import DeltaStore
  import LogRecords
  import LogSteps
  import OnlineRuns
  import CleanRecords

  /** What stands in a log file: a whole record, or the first n bytes of one. */
  datatype Item = Whole(tx: Tx) | Part(tx: Tx, n: nat)

  ghost predicate ItemOk(form: Form, i: Item) { Fits(i.tx) && (i.Part? ==> 0 < i.n < |SerializeWal(form, i.tx)|) }

  ghost predicate ItemsOk(form: Form, items: seq<Item>) { forall k | 0 <= k < |items| :: ItemOk(form, items[k]) }

  function ItemBytes(form: Form, i: Item): seq<Byte> {
    var record := SerializeWal(form, i.tx);
    if i.Part? && i.n <= |record| then record[..i.n] else record
  }

  function ItemsBytes(form: Form, items: seq<Item>): seq<Byte> {
    if items == [] then [] else ItemBytes(form, items[0]) + ItemsBytes(form, items[1..])
  }

  /** The records that were written whole. */
  function Wholes(items: seq<Item>): seq<Tx> {
    if items == [] then [] else (if items[0].Whole? then [items[0].tx] else []) + Wholes(items[1..])
  }

  // ---- the first bytes behind a part ----------------------------------------------------

  lemma ItemHead(form: Form, i: Item, j: nat)
    requires FormOk(form) && ItemOk(form, i) && j < 8 && j < |ItemBytes(form, i)|
    ensures ItemBytes(form, i)[j] == MAGIC[j] && |ItemBytes(form, i)| > 0
  {
    hide Payload, Le, Span, FormOk, SerializeWal;
    FrameParts(form, i.tx);
    var record := SerializeWal(form, i.tx);
    assert record[..8][j] == record[j];
  }

  /** Whatever follows begins like a record, and its first eight bytes are bytes of the magic. */
  lemma {:induction false} ItemsHead(form: Form, items: seq<Item>, j: nat)
    requires FormOk(form) && ItemsOk(form, items) && j < 8 && j < |ItemsBytes(form, items)|
    ensures ItemsBytes(form, items)[0] == 85 && 48 <= ItemsBytes(form, items)[j] <= 87
    decreases |items|
  {
    hide SerializeWal, FormOk, Fits, ItemBytes;
    var first := ItemBytes(form, items[0]);
    ItemLength(form, items[0]);
    ItemHead(form, items[0], 0);
    if j < |first| { ItemHead(form, items[0], j); } else { ItemsHead(form, items[1..], j - |first|); }
  }

  lemma ItemLength(form: Form, i: Item)
    requires FormOk(form) && ItemOk(form, i)
    ensures |ItemBytes(form, i)| == (if i.Part? then i.n else |SerializeWal(form, i.tx)|) > 0 && |SerializeWal(form, i.tx)| >= FRAME
  {
    hide Payload, Le, Span, FormOk, SerializeWal;
    FrameParts(form, i.tx);
  }

  // ---- what a scan finds ----------------------------------------------------------------

  /** The bytes that a part's length field claims for the part. */
  function Mixed(form: Form, tx: Tx, n: nat, rest: seq<Byte>): seq<Byte>
    requires n <= |SerializeWal(form, tx)| <= n + |rest|
  { (SerializeWal(form, tx)[..n] + rest)[..|SerializeWal(form, tx)|] }

  /** What the scan makes of a part with these bytes behind it. */
  datatype Verdict = Stops | Refuses(error: string) | Takes(tx: Tx)

  function Judged(form: Form, tx: Tx, n: nat, rest: seq<Byte>): Verdict {
    var record := SerializeWal(form, tx);
    if n + |rest| < 16 then Stops
    else if n < 8 then Refuses("invalid WAL magic")
    else if n < 16 || n + |rest| < |record| || n > |record| then Stops
    else
      var parsed := ParseWal(form, Mixed(form, tx, n, rest));
      if parsed.Err? then Refuses(parsed.error) else Takes(parsed.value)
  }

  /** Below this a length field that ends in bytes of the magic exceeds the file. */
  const FILE_LIMIT: nat := 48 * 0x100_0000_0000_0000

  lemma TopByte(b: seq<Byte>)
    requires |b| == 8
    ensures 0x100_0000_0000_0000 * (b[7] as int) <= FromLe(b) < 0x100_0000_0000_0000 * (b[7] as int + 1)
  {
    assert FromLe(b[7..]) == b[7] + 256 * FromLe(b[7..][1..]) && b[7..][1..] == [];
    assert b[6..][1..] == b[7..] && b[5..][1..] == b[6..] && b[4..][1..] == b[5..] && b[3..][1..] == b[4..];
    assert b[2..][1..] == b[3..] && b[1..][1..] == b[2..] && b[0..][1..] == b[1..] && b[0..] == b;
    assert FromLe(b[6..]) == b[6] + 256 * FromLe(b[7..]);
    assert FromLe(b[5..]) == b[5] + 256 * FromLe(b[6..]);
    assert FromLe(b[4..]) == b[4] + 256 * FromLe(b[5..]);
    assert FromLe(b[3..]) == b[3] + 256 * FromLe(b[4..]);
    assert FromLe(b[2..]) == b[2] + 256 * FromLe(b[3..]);
    assert FromLe(b[1..]) == b[1] + 256 * FromLe(b[2..]);
    assert FromLe(b) == b[0] + 256 * FromLe(b[1..]);
  }

  /** A part of fewer than eight bytes, with anything behind it, spoils the magic. */
  lemma ShortPart(form: Form, tx: Tx, n: nat, items: seq<Item>)
    requires FormOk(form) && Fits(tx) && 0 < n < 8 && ItemsOk(form, items) && n + |ItemsBytes(form, items)| >= 16
    ensures Scan(form, SerializeWal(form, tx)[..n] + ItemsBytes(form, items)) == Err("invalid WAL magic")
  {
    hide Payload, Le, Span, FormOk, SerializeWal, Scan, ItemsBytes, FieldsFit, FromLe, ParseWal;
    FrameParts(form, tx);
    ItemsHead(form, items, 0);
    var record := SerializeWal(form, tx);
    var bytes := record[..n] + ItemsBytes(form, items);
    assert bytes[..8][n] == ItemsBytes(form, items)[0] == 85;
    assert MAGIC[n] != 85;
    ScanStep(form, bytes);
  }

  /** A part that ends inside the length field claims more than the file holds. */
  lemma HeaderPart(form: Form, tx: Tx, n: nat, items: seq<Item>)
    requires FormOk(form) && Fits(tx) && 8 <= n < 16 && ItemsOk(form, items)
    requires 16 <= n + |ItemsBytes(form, items)| < FILE_LIMIT
    ensures Scan(form, SerializeWal(form, tx)[..n] + ItemsBytes(form, items)) == Ok(Scanned([], 0))
  {
    hide Payload, Le, Span, FormOk, SerializeWal, Scan, ItemsBytes, FieldsFit, FromLe, ParseWal;
    FrameParts(form, tx);
    ItemsHead(form, items, 15 - n);
    var record := SerializeWal(form, tx);
    var bytes := record[..n] + ItemsBytes(form, items);
    assert bytes[..8] == record[..8];
    assert bytes[8..16][7] == bytes[15] == ItemsBytes(form, items)[15 - n];
    TopByte(bytes[8..16]);
    ScanStep(form, bytes);
    SizeIs(bytes);
  }

  lemma SizeIs(bytes: seq<Byte>)
    requires |bytes| >= 16 && FRAME + FromLe(bytes[8..16]) < 0x1_0000_0000_0000_0000
    ensures TotalSize(bytes) == FRAME + FromLe(bytes[8..16])
  {
    hide FromLe, Span;
    Spans();
  }

  /** A part with its header whole is taken for a record of the length it says. */
  lemma LongPart(form: Form, tx: Tx, n: nat, rest: seq<Byte>)
    requires FormOk(form) && Fits(tx) && 16 <= n < |SerializeWal(form, tx)|
    ensures var v, bytes := Judged(form, tx, n, rest), SerializeWal(form, tx)[..n] + rest;
            && (v.Stops? ==> Scan(form, bytes) == Ok(Scanned([], 0)))
            && (v.Refuses? ==> Scan(form, bytes) == Err(v.error))
            && (v.Takes? ==> Scan(form, bytes) == Behind(Scanned([v.tx], |SerializeWal(form, tx)|), Scan(form, bytes[|SerializeWal(form, tx)|..])))
  {
    hide Payload, Le, Span, FormOk, SerializeWal, Scan, FieldsFit, FromLe, ParseWal, Behind;
    FrameParts(form, tx);
    var record := SerializeWal(form, tx);
    var bytes := record[..n] + rest;
    assert bytes[..8] == record[..8] && bytes[8..16] == record[8..16];
    SizeRead(form, tx, bytes);
    ScanStep(form, bytes);
  }

  /** The scan, exactly, for every part of every record with any items behind it. */
  lemma PartJudged(form: Form, tx: Tx, n: nat, items: seq<Item>)
    requires FormOk(form) && ItemOk(form, Part(tx, n)) && ItemsOk(form, items) && n + |ItemsBytes(form, items)| < FILE_LIMIT
    ensures var v, bytes := Judged(form, tx, n, ItemsBytes(form, items)), SerializeWal(form, tx)[..n] + ItemsBytes(form, items);
            && (v.Stops? ==> Scan(form, bytes) == Ok(Scanned([], 0)))
            && (v.Refuses? ==> Scan(form, bytes) == Err(v.error))
            && (v.Takes? ==> Scan(form, bytes) == Behind(Scanned([v.tx], |SerializeWal(form, tx)|), Scan(form, bytes[|SerializeWal(form, tx)|..])))
  {
    hide SerializeWal, Scan, Fits, FormOk, ItemsBytes, ParseWal, Behind;
    ItemLength(form, Part(tx, n));
    var bytes := SerializeWal(form, tx)[..n] + ItemsBytes(form, items);
    if |bytes| < 16 {
      ScanStep(form, bytes);
    } else if n < 8 {
      ShortPart(form, tx, n, items);
    } else if n < 16 {
      HeaderPart(form, tx, n, items);
    } else {
      LongPart(form, tx, n, ItemsBytes(form, items));
    }
  }

  // ---- a file, and all files ------------------------------------------------------------

  /** The records before the first part, and those behind it. */
  function Before(items: seq<Item>): seq<Tx> { if items == [] || items[0].Part? then [] else [items[0].tx] + Before(items[1..]) }

  function Hidden(items: seq<Item>): seq<Tx> {
    if items == [] then [] else if items[0].Part? then Wholes(items[1..]) else Hidden(items[1..])
  }

  lemma {:induction false} WholesSplit(items: seq<Item>)
    ensures Wholes(items) == Before(items) + Hidden(items)
    decreases |items|
  {
    if items != [] && items[0].Whole? { WholesSplit(items[1..]); }
  }

  /** What the scan makes of the first part. */
  function VerdictOf(form: Form, items: seq<Item>): Verdict {
    if items == [] then Stops
    else if items[0].Part? then Judged(form, items[0].tx, items[0].n, ItemsBytes(form, items[1..]))
    else VerdictOf(form, items[1..])
  }

  /** The items are writable, the file is not absurdly long, and no part together with what follows
      passes for a record of its own: the checksum does its work. */
  ghost predicate FileOk(form: Form, items: seq<Item>) {
    ItemsOk(form, items) && |ItemsBytes(form, items)| < FILE_LIMIT && !VerdictOf(form, items).Takes?
  }

  /** A file reads as the records before its first part, unless that part makes it unreadable. */
  lemma {:induction false} ScanItems(form: Form, items: seq<Item>)
    requires FormOk(form) && FileOk(form, items)
    ensures VerdictOf(form, items).Stops? ==> Scan(form, ItemsBytes(form, items)) == Ok(Scanned(Before(items), |SegmentBytes(form, Before(items))|))
    ensures VerdictOf(form, items).Refuses? ==> Scan(form, ItemsBytes(form, items)).Err?
    decreases |items|
  {
    hide SerializeWal, Scan, Fits, FormOk, Judged;
    if items == [] {
      ScanNothing(form);
    } else {
      ItemLength(form, items[0]);
      if items[0].Part? {
        PartJudged(form, items[0].tx, items[0].n, items[1..]);
      } else {
        ScanItems(form, items[1..]);
        ScanWhole(form, items[0].tx, ItemsBytes(form, items[1..]));
      }
    }
  }

  function FilesBytes(form: Form, files: seq<seq<Item>>): (r: seq<seq<Byte>>)
    ensures |r| == |files| && forall i | 0 <= i < |files| :: r[i] == ItemsBytes(form, files[i])
  { seq(|files|, i requires 0 <= i < |files| => ItemsBytes(form, files[i])) }

  function AllWholes(files: seq<seq<Item>>): (r: seq<seq<Tx>>)
    ensures |r| == |files| && forall i | 0 <= i < |files| :: r[i] == Wholes(files[i])
  { seq(|files|, i requires 0 <= i < |files| => Wholes(files[i])) }

  function AllBefore(files: seq<seq<Item>>): (r: seq<seq<Tx>>)
    ensures |r| == |files| && forall i | 0 <= i < |files| :: r[i] == Before(files[i])
  { seq(|files|, i requires 0 <= i < |files| => Before(files[i])) }

  ghost predicate FilesOk(form: Form, files: seq<seq<Item>>) { forall i | 0 <= i < |files| :: FileOk(form, files[i]) }

  ghost predicate NoneRefused(form: Form, files: seq<seq<Item>>) { forall i | 0 <= i < |files| :: !VerdictOf(form, files[i]).Refuses? }

  lemma {:induction false} ScanFiles(form: Form, files: seq<seq<Item>>)
    requires FormOk(form) && FilesOk(form, files)
    ensures ScanAll(form, FilesBytes(form, files)).Ok? <==> NoneRefused(form, files)
    ensures NoneRefused(form, files) ==> ScanAll(form, FilesBytes(form, files)) == Ok(AllBefore(files))
    decreases |files|
  {
    hide Scan, FormOk, ItemsBytes, VerdictOf, FileOk, Before, SegmentBytes;
    if files != [] {
      var n := |files| - 1;
      ScanFiles(form, files[..n]);
      ScanItems(form, files[n]);
      NotTaken(form, files[n]);
      assert FilesBytes(form, files)[..n] == FilesBytes(form, files[..n]);
      assert NoneRefused(form, files) ==> AllBefore(files) == AllBefore(files[..n]) + [Before(files[n])];
      assert NoneRefused(form, files) <==> NoneRefused(form, files[..n]) && !VerdictOf(form, files[n]).Refuses? by {
        if NoneRefused(form, files[..n]) && !VerdictOf(form, files[n]).Refuses? {
          forall i | 0 <= i < |files| ensures !VerdictOf(form, files[i]).Refuses? { assert i < n ==> files[..n][i] == files[i]; }
        }
      }
    }
  }

  lemma NotTaken(form: Form, items: seq<Item>)
    requires FileOk(form, items)
    ensures VerdictOf(form, items).Stops? || VerdictOf(form, items).Refuses?
  {
    hide VerdictOf, ItemsBytes;
  }

  // ---- replay over what was read --------------------------------------------------------

  lemma {:induction false} RedoConcat(m: Memory, a: seq<Tx>, b: seq<Tx>)
    ensures RedoAll(m, a + b) == var first := RedoAll(m, a); if first.Err? then first else RedoAll(first.value, b)
    decreases |b|
  {
    hide Redo;
    if b == [] {
      assert a + b == a;
    } else {
      var n := |b| - 1;
      RedoConcat(m, a, b[..n]);
      assert (a + b)[..|a + b| - 1] == a + b[..n] && (a + b)[|a + b| - 1] == b[n];
    }
  }

  lemma {:induction false} RedoDurable(m: Memory, txs: seq<Tx>)
    requires RedoAll(m, txs).Ok?
    ensures RedoAll(m, txs).value.durableLsn == m.durableLsn
    decreases |txs|
  {
    hide Overlay, ChainValid, Chained;
    if txs != [] { RedoDurable(m, txs[..|txs| - 1]); }
  }

  lemma {:induction false} RedoOld(m: Memory, txs: seq<Tx>)
    requires forall k | 0 <= k < |txs| :: txs[k].lsn <= m.durableLsn
    ensures RedoAll(m, txs) == Ok(m)
    decreases |txs|
  {
    hide Redo;
    if txs != [] {
      var n := |txs| - 1;
      RedoOld(m, txs[..n]);
      Durability.RedoSkips(m, txs[n]);
    }
  }

  /** Every LSN that replay passes was in the log. */
  lemma {:induction false} RedoCovers(m: Memory, txs: seq<Tx>, lsn: nat) returns (k: nat)
    requires RedoAll(m, txs).Ok? && m.lsn < lsn <= RedoAll(m, txs).value.lsn
    ensures k < |txs| && txs[k].lsn == lsn
    decreases |txs|
  {
    hide Overlay, ChainValid, Chained;
    var n := |txs| - 1;
    if lsn <= RedoAll(m, txs[..n]).value.lsn { k := RedoCovers(m, txs[..n], lsn); } else { k := n; }
  }

  /** What is hidden behind parts is durable already. */
  ghost predicate HiddenDurable(files: seq<seq<Item>>, durable: nat) {
    forall i, k | 0 <= i < |files| && 0 <= k < |Hidden(files[i])| :: Hidden(files[i])[k].lsn <= durable
  }

  /** Records that are durable do not matter to replay. */
  lemma {:induction false} RedoHidden(m: Memory, files: seq<seq<Item>>)
    requires HiddenDurable(files, m.durableLsn)
    ensures RedoAll(m, Durability.Flat(AllBefore(files))) == RedoAll(m, Durability.Flat(AllWholes(files)))
    decreases |files|
  {
    hide Redo, RedoAll, Before, Hidden, Wholes;
    if files == [] {
      assert AllBefore(files) == AllWholes(files);
    } else {
      var n := |files| - 1;
      RedoHidden(m, files[..n]);
      assert AllBefore(files)[..n] == AllBefore(files[..n]) && AllWholes(files)[..n] == AllWholes(files[..n]);
      var a, b := Durability.Flat(AllBefore(files[..n])), Durability.Flat(AllWholes(files[..n]));
      WholesSplit(files[n]);
      RedoConcat(m, a, Before(files[n]));
      RedoConcat(m, b, Before(files[n]) + Hidden(files[n]));
      if RedoAll(m, b).Ok? {
        var m' := RedoAll(m, b).value;
        RedoDurable(m, b);
        RedoConcat(m', Before(files[n]), Hidden(files[n]));
        if RedoAll(m', Before(files[n])).Ok? {
          RedoDurable(m', Before(files[n]));
          RedoOld(RedoAll(m', Before(files[n])).value, Hidden(files[n]));
        }
      }
    }
  }

  /** Above the durable LSN every record has an LSN of its own. */
  ghost predicate Rising(txs: seq<Tx>, durable: nat) { forall i, j | 0 <= i < j < |txs| && txs[i].lsn > durable :: txs[i].lsn < txs[j].lsn }

  lemma RisingCross(a: seq<Tx>, b: seq<Tx>, durable: nat)
    requires Rising(a + b, durable)
    ensures Rising(a, durable) && Rising(b, durable)
    ensures forall x, y | x in a && y in b && x.lsn > durable :: x.lsn < y.lsn
  {
    var all := a + b;
    forall i, j | 0 <= i < j < |a| && a[i].lsn > durable ensures a[i].lsn < a[j].lsn { assert all[i] == a[i] && all[j] == a[j]; }
    forall i, j | 0 <= i < j < |b| && b[i].lsn > durable ensures b[i].lsn < b[j].lsn { assert all[|a| + i] == b[i] && all[|a| + j] == b[j]; }
    forall x, y | x in a && y in b && x.lsn > durable ensures x.lsn < y.lsn {
      var i :| 0 <= i < |a| && a[i] == x;
      var j :| 0 <= j < |b| && b[j] == y;
      assert all[i] == x && all[|a| + j] == y;
    }
  }

  /** A hidden record above the durable LSN was read nowhere else. */
  lemma {:induction false} HiddenMissing(files: seq<seq<Item>>, durable: nat, f: nat, x: Tx, y: Tx)
    requires Rising(Durability.Flat(AllWholes(files)), durable) && x in Durability.Flat(AllBefore(files))
    requires f < |files| && y in Hidden(files[f]) && y.lsn > durable
    ensures x.lsn != y.lsn && x in Durability.Flat(AllWholes(files)) && y in Durability.Flat(AllWholes(files))
    decreases |files|
  {
    hide Before, Hidden, Wholes, Rising;
    var n := |files| - 1;
    assert AllBefore(files)[..n] == AllBefore(files[..n]) && AllWholes(files)[..n] == AllWholes(files[..n]);
    var earlier, here := Durability.Flat(AllWholes(files[..n])), Wholes(files[n]);
    WholesSplit(files[n]);
    RisingCross(earlier, here, durable);
    RisingCross(Before(files[n]), Hidden(files[n]), durable);
    HiddenIn(files, f, y);
    BeforeIn(files[..n]);
    if x in Durability.Flat(AllBefore(files[..n])) && f < n { HiddenMissing(files[..n], durable, f, x, y); }
    if f < n { HiddenIn(files[..n], f, y); }
  }

  lemma {:induction false} HiddenIn(files: seq<seq<Item>>, f: nat, y: Tx)
    requires f < |files| && y in Hidden(files[f])
    ensures y in Durability.Flat(AllWholes(files))
    decreases |files|
  {
    hide Before, Hidden, Wholes;
    var n := |files| - 1;
    assert AllWholes(files)[..n] == AllWholes(files[..n]);
    WholesSplit(files[f]);
    if f < n { HiddenIn(files[..n], f, y); }
  }

  lemma {:induction false} BeforeIn(files: seq<seq<Item>>)
    ensures forall x | x in Durability.Flat(AllBefore(files)) :: x in Durability.Flat(AllWholes(files))
    decreases |files|
  {
    hide Before, Hidden, Wholes;
    if files != [] {
      var n := |files| - 1;
      assert AllBefore(files)[..n] == AllBefore(files[..n]) && AllWholes(files)[..n] == AllWholes(files[..n]);
      WholesSplit(files[n]);
      BeforeIn(files[..n]);
    }
  }

  // ---- crashes --------------------------------------------------------------------------

  lemma KeptRises(recs: seq<LogRecords.Rec>, durable: nat)
    requires LogRecords.InOrder(recs) && LogRecords.Healthy(recs, durable)
    ensures Rising(LogRecords.Txs(recs), durable)
  {
    var txs := LogRecords.Txs(recs);
    forall i, j | 0 <= i < j < |txs| && txs[i].lsn > durable ensures txs[i].lsn < txs[j].lsn {
      assert !LogRecords.Open(recs[i], durable);
    }
  }

  lemma ReachedLess(d: Memory, files: seq<seq<Item>>, reach: nat)
    requires Rising(Durability.Flat(AllWholes(files)), d.durableLsn) && d.lsn == d.durableLsn && !HiddenDurable(files, d.durableLsn)
    requires forall x | x in Durability.Flat(AllWholes(files)) :: x.lsn <= reach
    ensures var r := RedoAll(d, Durability.Flat(AllBefore(files))); r.Ok? ==> r.value.lsn != reach
  {
    hide RedoAll, Redo, Hidden, Durability.Flat, Rising;
    var f, k :| 0 <= f < |files| && 0 <= k < |Hidden(files[f])| && Hidden(files[f])[k].lsn > d.durableLsn;
    var y := Hidden(files[f])[k];
    HiddenIn(files, f, y);
    var txs := Durability.Flat(AllBefore(files));
    if RedoAll(d, txs).Ok? && RedoAll(d, txs).value.lsn == reach {
      var j := RedoCovers(d, txs, y.lsn);
      HiddenMissing(files, d.durableLsn, f, txs[j], y);
    }
  }

  /** At every point of every run, whatever parts of records failed writes left anywhere in the log
      files, and whatever the crash cut off: recovery from the bytes reaches the state after the last
      whole record if and only if no part makes a file unreadable and no record above the durable LSN
      stands behind a part in its file. */
  lemma PartsCrash(form: Form, base: DeltaStore.Base, depth: nat, states: seq<OnlineRuns.Sys>, steps: seq<OnlineRuns.Step>, i: nat, keep: nat, files: seq<seq<Item>>)
    requires FormOk(form) && OnlineRuns.IsRun(base, depth, states, steps) && i < |states| && FilesOk(form, files)
    requires AllWholes(files) == LogSteps.TxWal(LogSteps.Cut(states[i].wal, keep))
    requires LogRecords.Healthy(Durability.Flat(LogSteps.Cut(states[i].wal, keep)), states[i].m.durableLsn)
    ensures var s := states[i];
            var r, kept := RecoverBytes(form, base, s.disk, FilesBytes(form, files)), Durability.Flat(LogSteps.Cut(s.wal, keep));
            && ((r.Ok? && r.value.lsn == LogRecords.Reach(s.m.durableLsn, kept)) <==> NoneRefused(form, files) && HiddenDurable(files, s.m.durableLsn))
            && (r.Ok? && r.value.lsn == LogRecords.Reach(s.m.durableLsn, kept) ==>
                var target := LogRecords.Target(base, s.history, s.m.durableLsn, kept);
                target.Some? && Same(Logical(r.value), target.value.state))
  {
    hide FormOk, OnlineRuns.IsRun, FilesOk, LogRecords.Healthy, LogRecords.Target, Durability.Flat, LogSteps.Cut, RedoAll, Same, Logical,
         OnlineRuns.Inv, DeltaStore.Recovered, DeltaStore.LoadAll, NoneRefused, HiddenDurable, Rising, LogRecords.Starts;
    var s := states[i];
    var kept := Durability.Flat(LogSteps.Cut(s.wal, keep));
    OnlineRuns.CrashSafety(base, depth, states, steps, i, keep);
    ScanFiles(form, files);
    OnlineRuns.RunKeeps(base, depth, states, steps, i);
    var d := Published(base, s);
    LogSteps.FlatTxWal(LogSteps.Cut(s.wal, keep));
    if HiddenDurable(files, s.m.durableLsn) {
      RedoHidden(d, files);
    } else {
      KeptOrdered(base, s, keep);
      KeptRises(kept, s.m.durableLsn);
      AllBelow(kept, s.m.durableLsn);
      ReachedLess(d, files, LogRecords.Reach(s.m.durableLsn, kept));
    }
  }

  lemma AllBelow(kept: seq<LogRecords.Rec>, durable: nat)
    requires LogRecords.InOrder(kept)
    ensures forall x | x in LogRecords.Txs(kept) :: x.lsn <= LogRecords.Reach(durable, kept)
  {
    hide LogRecords.InOrder, LogRecords.Reach;
    forall x | x in LogRecords.Txs(kept) ensures x.lsn <= LogRecords.Reach(durable, kept) {
      var k :| 0 <= k < |kept| && LogRecords.Txs(kept)[k] == x;
      LogSteps.ReachBounds(durable, kept, k);
    }
  }

  lemma Published(base: DeltaStore.Base, s: OnlineRuns.Sys) returns (d: Memory)
    requires OnlineRuns.Inv(base, s)
    ensures DeltaStore.Recovered(base, s.disk) == Ok(d) && d.lsn == d.durableLsn == s.m.durableLsn
  {
    hide OnlineRuns.OnDisk, OnlineRuns.DurableOk, OnlineRuns.LogHeld, DeltaStore.Recovered, DeltaStore.LoadAll, LogRecords.Replayed, Same;
    OnlineRuns.ReplayStarts(base, s);
    d := DeltaStore.LoadAll(base, s.active).value;
  }

  lemma KeptOrdered(base: DeltaStore.Base, s: OnlineRuns.Sys, keep: nat)
    requires OnlineRuns.Inv(base, s)
    ensures LogRecords.InOrder(Durability.Flat(LogSteps.Cut(s.wal, keep)))
  {
    hide OnlineRuns.OnDisk, OnlineRuns.DurableOk, OnlineRuns.Current, LogRecords.Logged, LogRecords.RecOk, LogRecords.Holds, LogRecords.UnloggedOk, LogRecords.Adjacent,
         LogRecords.InOrder, LogRecords.NoneOpen, LogSteps.Trailing, Durability.Flat, LogSteps.Cut;
    LogSteps.FlatCut(s.wal, keep);
    LogSteps.PrefixOrdered(OnlineRuns.Recs(s), Durability.Flat(LogSteps.Cut(s.wal, keep)));
  }

  /** Acknowledged blocks survive exactly then: at every point of every logged run without a leftover
      record, recovery from the files gives back the store as it is if and only if no part makes a
      file unreadable and no record above the durable LSN stands behind a part. */
  lemma AcknowledgedSurvive(form: Form, base: DeltaStore.Base, depth: nat, states: seq<OnlineRuns.Sys>, steps: seq<OnlineRuns.Step>, i: nat, files: seq<seq<Item>>)
    requires FormOk(form) && OnlineRuns.IsRun(base, depth, states, steps) && i < |states| && FilesOk(form, files)
    requires states[i].logged && LogRecords.NoneOpen(OnlineRuns.Recs(states[i]), states[i].m.durableLsn)
    requires AllWholes(files) == LogSteps.TxWal(states[i].wal)
    ensures var s := states[i];
            var r := RecoverBytes(form, base, s.disk, FilesBytes(form, files));
            (r.Ok? && Same(Logical(r.value), Logical(s.m))) <==> NoneRefused(form, files) && HiddenDurable(files, s.m.durableLsn)
  {
    hide FormOk, OnlineRuns.IsRun, FilesOk, LogRecords.Healthy, LogRecords.Target, Durability.Flat, RedoAll, Same, Logical,
         NoneRefused, HiddenDurable, LogRecords.NoneOpen, RecoverBytes, LogRecords.Reach, OnlineRuns.OnDisk, OnlineRuns.DurableOk, LogRecords.LogOk, LogSteps.Trailing,
         DeltaStore.Sane, CleanRecords.CleanLayers;
    var s := states[i];
    OnlineRuns.RunKeeps(base, depth, states, steps, i);
    var keep := if s.wal == [] then 0 else |s.wal[|s.wal| - 1]|;
    assert LogSteps.Cut(s.wal, keep) == s.wal by { OnlineRuns.CutNothing(s.wal); }
    OnlineRuns.NoneHealthy(OnlineRuns.Recs(s), s.m.durableLsn);
    OnlineRuns.BehindDisk(base, s);
    OnlineRuns.ReachesNow(base, s.history, s.log, s.unlogged, s.m.durableLsn, s.floor, OnlineRuns.Recs(s));
    PartsCrash(form, base, depth, states, steps, i, keep, files);
    var r := RecoverBytes(form, base, s.disk, FilesBytes(form, files));
    if r.Ok? && Same(Logical(r.value), Logical(s.m)) { OnlineRuns.SameLsn(r.value, s.m); }
    if r.Ok? && Same(Logical(r.value), OnlineRuns.LastSnap(s).state) { OnlineRuns.SameBack(Logical(r.value), OnlineRuns.LastSnap(s).state, Logical(s.m)); }
  }

  /** Cutting a file at any byte leaves items again: the whole ones before the cut, and a part. */
  lemma {:induction false} CutItems(form: Form, items: seq<Item>, k: nat) returns (left: seq<Item>)
    requires FormOk(form) && ItemsOk(form, items) && k <= |ItemsBytes(form, items)|
    ensures ItemsOk(form, left) && ItemsBytes(form, left) == ItemsBytes(form, items)[..k] && Wholes(left) <= Wholes(items)
    decreases |items|
  {
    hide SerializeWal, Fits, FormOk;
    if k == 0 {
      left := [];
    } else {
      var i := items[0];
      ItemLength(form, i);
      var first := ItemBytes(form, i);
      if k < |first| {
        left := [Part(i.tx, k)];
        assert ItemsBytes(form, left) == ItemBytes(form, left[0]) + [];
        assert ItemBytes(form, left[0]) == first[..k];
      } else {
        var rest := CutItems(form, items[1..], k - |first|);
        left := [i] + rest;
        assert left[1..] == rest;
      }
    }
  }
}
