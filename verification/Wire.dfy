/** The uproof message: what it measures, how it is laid out, and how it is read back
    (src/p2p.cpp). */
module Wire {
  import opened Common
  import opened Bytes
  import opened Bits
  import opened Transactions
  import WireTargets

  const MAX_INPUTS: nat := 24386
  const MAX_SCRIPT: nat := 10000
  const OTHER: nat := 0
  const LAST_SCRIPT_TYPE: nat := 4

  datatype CompactLeaf = CompactLeaf(headerCode: nat, amount: nat, scriptType: nat, script: seq<Byte>)

  datatype BlockProof = BlockProof(point: Point, targets: seq<nat>, hashes: seq<Hash>, leaves: seq<CompactLeaf>)

  /** Bit 0 asks for the targets, bit 1 for all hashes, bit 2 for all leaves. */
  datatype Request = Request(blockHash: Hash, bitmap: nat, proofIndexes: seq<Byte>, leafIndexes: seq<Byte>)

  // ---- CompactSize ----------------------------------------------------------------------

  function CompactBytes(n: nat): nat {
    if n < 253 then 1 else if n <= 0xffff then 3 else if n <= 0xffff_ffff then 5 else 9
  }

  function PutCompact(n: nat): seq<Byte> {
    if n < 253 then [n] else if n <= 0xffff then [253] + Le(n, 2) else if n <= 0xffff_ffff then [254] + Le(n, 4) else [255] + Le(n, 8)
  }

  /** Only the shortest form is accepted. */
  function ReadCompact(bytes: seq<Byte>): Option<Got<nat>> {
    var prefix :- ReadLe(bytes, 1);
    if prefix.value < 253 then Some(prefix)
    else if prefix.value == 253 then
      var n :- ReadLe(prefix.rest, 2);
      if n.value < 253 then None else Some(n)
    else if prefix.value == 254 then
      var n :- ReadLe(prefix.rest, 4);
      if n.value <= 0xffff then None else Some(n)
    else
      var n :- ReadLe(prefix.rest, 8);
      if n.value <= 0xffff_ffff then None else Some(n)
  }

  lemma OneByte(b: nat, rest: seq<Byte>)
    requires b < 256
    ensures ReadLe([b] + rest, 1) == Some(Got(b, rest))
  {
    assert ([b] + rest)[..1] == [b] && ([b] + rest)[1..] == rest && [b][1..] == [];
    assert FromLe([b]) == b + 256 * FromLe([]);
  }

  lemma CompactLength(n: nat)
    ensures |PutCompact(n)| == CompactBytes(n)
  {}

  lemma CompactRoundTrip(n: nat, rest: seq<Byte>)
    requires n < U64
    ensures ReadCompact(PutCompact(n) + rest) == Some(Got(n, rest))
  {
    hide ReadLe, Le, Span;
    Spans();
    if n < 253 {
      OneByte(n, rest);
    } else {
      var width := CompactBytes(n) - 1;
      var mark: nat := if n <= 0xffff then 253 else if n <= 0xffff_ffff then 254 else 255;
      assert PutCompact(n) + rest == [mark] + (Le(n, width) + rest);
      OneByte(mark, Le(n, width) + rest);
      ReadLeAppended(n, width, rest);
    }
  }

  lemma {:induction false} LeInverse(bytes: seq<Byte>)
    ensures Le(FromLe(bytes), |bytes|) == bytes && FromLe(bytes) < Span(|bytes|)
    decreases |bytes|
  {
    if bytes != [] {
      LeInverse(bytes[1..]);
      assert bytes == [bytes[0]] + bytes[1..];
    }
  }

  lemma ReadLeInverse(bytes: seq<Byte>, width: nat)
    requires ReadLe(bytes, width).Some?
    ensures var g := ReadLe(bytes, width).value; bytes == Le(g.value, width) + g.rest && g.value < Span(width)
  {
    LeInverse(bytes[..width]);
  }

  /** What was read is the only encoding of its value. */
  lemma CompactCanonical(bytes: seq<Byte>)
    requires ReadCompact(bytes).Some?
    ensures var g := ReadCompact(bytes).value; bytes == PutCompact(g.value) + g.rest && g.value < U64
  {
    hide ReadLe, Le, Span;
    Spans();
    ReadLeInverse(bytes, 1);
    var prefix := ReadLe(bytes, 1).value;
    SingleLe(prefix.value);
    if prefix.value >= 253 {
      var width := if prefix.value == 253 then 2 else if prefix.value == 254 then 4 else 8;
      ReadLeInverse(prefix.rest, width);
      var g := ReadLe(prefix.rest, width).value;
      assert bytes == [prefix.value] + Le(g.value, width) + g.rest;
    }
  }

  lemma SingleLe(n: nat)
    requires n < 256
    ensures Le(n, 1) == [n]
  {
    assert Le(n / 256, 0) == [];
  }

  // ---- lists of fields ------------------------------------------------------------------

  function PutAll<T>(put: T -> seq<Byte>, xs: seq<T>): seq<Byte> {
    if xs == [] then [] else put(xs[0]) + PutAll(put, xs[1..])
  }

  function ReadAll<T>(read: seq<Byte> -> Option<Got<T>>, n: nat, bytes: seq<Byte>): Option<Got<seq<T>>> {
    if n == 0 then Some(Got([], bytes))
    else
      var first :- read(bytes);
      var others :- ReadAll(read, n - 1, first.rest);
      Some(Got([first.value] + others.value, others.rest))
  }

  lemma {:induction false} PutSnoc<T>(put: T -> seq<Byte>, xs: seq<T>, x: T)
    ensures PutAll(put, xs + [x]) == PutAll(put, xs) + put(x)
    decreases |xs|
  {
    if xs == [] {
      assert PutAll(put, [x]) == put(x) + PutAll(put, [x][1..]);
    } else {
      PutSnoc(put, xs[1..], x);
      assert (xs + [x])[1..] == xs[1..] + [x];
    }
  }

  /** Reading one element back undoes writing it. */
  ghost predicate Reads<T>(put: T -> seq<Byte>, read: seq<Byte> -> Option<Got<T>>, x: T) {
    forall rest :: read(put(x) + rest) == Some(Got(x, rest))
  }

  lemma {:induction false} AllRoundTrip<T>(put: T -> seq<Byte>, read: seq<Byte> -> Option<Got<T>>, xs: seq<T>, rest: seq<Byte>)
    requires forall i | 0 <= i < |xs| :: Reads(put, read, xs[i])
    ensures ReadAll(read, |xs|, PutAll(put, xs) + rest) == Some(Got(xs, rest))
    decreases |xs|
  {
    if xs == [] {
      assert PutAll(put, xs) + rest == rest;
    } else {
      assert PutAll(put, xs) + rest == put(xs[0]) + (PutAll(put, xs[1..]) + rest);
      assert Reads(put, read, xs[0]);
      AllRoundTrip(put, read, xs[1..], rest);
      assert [xs[0]] + xs[1..] == xs;
    }
  }

  /** Writing what was read gives back the bytes. */
  ghost predicate Canonical<T>(put: T -> seq<Byte>, read: seq<Byte> -> Option<Got<T>>) {
    forall bytes :: read(bytes).Some? ==> bytes == put(read(bytes).value.value) + read(bytes).value.rest
  }

  lemma {:induction false} AllCanonical<T>(put: T -> seq<Byte>, read: seq<Byte> -> Option<Got<T>>, n: nat, bytes: seq<Byte>)
    requires Canonical(put, read) && ReadAll(read, n, bytes).Some?
    ensures var g := ReadAll(read, n, bytes).value; |g.value| == n && bytes == PutAll(put, g.value) + g.rest
    decreases n
  {
    if n > 0 {
      var first := read(bytes).value;
      AllCanonical(put, read, n - 1, first.rest);
      var others := ReadAll(read, n - 1, first.rest).value;
      assert ([first.value] + others.value)[1..] == others.value;
    }
  }

  // ---- one leaf -------------------------------------------------------------------------

  function PutLeaf(l: CompactLeaf): seq<Byte> {
    Le(l.headerCode, 4) + Le(l.amount, 8) + Le(l.scriptType, 1)
      + if l.scriptType == OTHER then PutCompact(|l.script|) + l.script else []
  }

  function LeafBytes(l: CompactLeaf): nat {
    13 + if l.scriptType == OTHER then CompactBytes(|l.script|) + |l.script| else 0
  }

  function ReadScript(bytes: seq<Byte>): Option<Got<seq<Byte>>> {
    var size :- ReadCompact(bytes);
    if size.value > MAX_SCRIPT || size.value > |size.rest| then None
    else Some(Got(size.rest[..size.value], size.rest[size.value..]))
  }

  function ReadLeaf(bytes: seq<Byte>): Option<Got<CompactLeaf>> {
    var headerCode :- ReadLe(bytes, 4);
    var amount :- ReadLe(headerCode.rest, 8);
    var scriptType :- ReadLe(amount.rest, 1);
    if scriptType.value > LAST_SCRIPT_TYPE then None
    else if scriptType.value == OTHER then
      var script :- ReadScript(scriptType.rest);
      Some(Got(CompactLeaf(headerCode.value, amount.value, scriptType.value, script.value), script.rest))
    else Some(Got(CompactLeaf(headerCode.value, amount.value, scriptType.value, []), scriptType.rest))
  }

  /** A leaf the measurement accepts: a known type, and a script only where it is sent. */
  predicate LeafOk(l: CompactLeaf) {
    l.scriptType <= LAST_SCRIPT_TYPE && if l.scriptType == OTHER then |l.script| <= MAX_SCRIPT else l.script == []
  }

  predicate LeafFits(l: CompactLeaf) { l.headerCode < Span(4) && l.amount < Span(8) }

  lemma LeafLength(l: CompactLeaf)
    ensures |PutLeaf(l)| == LeafBytes(l)
  {
    CompactLength(|l.script|);
  }

  lemma ScriptRoundTrip(script: seq<Byte>, rest: seq<Byte>)
    requires |script| <= MAX_SCRIPT
    ensures ReadScript(PutCompact(|script|) + script + rest) == Some(Got(script, rest))
  {
    hide ReadCompact, PutCompact;
    assert PutCompact(|script|) + script + rest == PutCompact(|script|) + (script + rest);
    CompactRoundTrip(|script|, script + rest);
  }

  lemma LeafRoundTrip(l: CompactLeaf, rest: seq<Byte>)
    requires LeafOk(l) && LeafFits(l)
    ensures ReadLeaf(PutLeaf(l) + rest) == Some(Got(l, rest))
  {
    hide ReadLe, Le, Span, ReadScript, PutCompact;
    var h, a, t := Le(l.headerCode, 4), Le(l.amount, 8), Le(l.scriptType, 1);
    var tail := if l.scriptType == OTHER then PutCompact(|l.script|) + l.script else [];
    assert PutLeaf(l) + rest == h + (a + (t + (tail + rest)));
    Spans();
    ReadLeAppended(l.headerCode, 4, a + (t + (tail + rest)));
    ReadLeAppended(l.amount, 8, t + (tail + rest));
    ReadLeAppended(l.scriptType, 1, tail + rest);
    if l.scriptType == OTHER { ScriptRoundTrip(l.script, rest); } else { assert tail + rest == rest; }
  }

  lemma ScriptCanonical(bytes: seq<Byte>)
    requires ReadScript(bytes).Some?
    ensures var g := ReadScript(bytes).value; bytes == PutCompact(|g.value|) + g.value + g.rest && |g.value| <= MAX_SCRIPT
  {
    hide ReadCompact, PutCompact;
    CompactCanonical(bytes);
  }

  lemma LeafCanonical(bytes: seq<Byte>)
    requires ReadLeaf(bytes).Some?
    ensures var g := ReadLeaf(bytes).value; bytes == PutLeaf(g.value) + g.rest && LeafOk(g.value) && LeafFits(g.value)
  {
    hide ReadLe, Le, Span, ReadScript, PutCompact;
    var h := ReadLe(bytes, 4).value;
    ReadLeInverse(bytes, 4);
    var a := ReadLe(h.rest, 8).value;
    ReadLeInverse(h.rest, 8);
    var t := ReadLe(a.rest, 1).value;
    ReadLeInverse(a.rest, 1);
    assert bytes == Le(h.value, 4) + Le(a.value, 8) + Le(t.value, 1) + t.rest;
    if t.value == OTHER {
      ScriptCanonical(t.rest);
      var s := ReadScript(t.rest).value;
      assert bytes == Le(h.value, 4) + Le(a.value, 8) + Le(t.value, 1) + (PutCompact(|s.value|) + s.value) + s.rest;
    } else {
      assert Le(h.value, 4) + Le(a.value, 8) + Le(t.value, 1) + [] == Le(h.value, 4) + Le(a.value, 8) + Le(t.value, 1);
    }
  }

  // ---- the whole message ----------------------------------------------------------------

  function PutTarget(): nat -> seq<Byte> { (n: nat) => PutCompact(n) }

  function ReadTarget(): seq<Byte> -> Option<Got<nat>> { (b: seq<Byte>) => ReadCompact(b) }

  function PutOneLeaf(): CompactLeaf -> seq<Byte> { (l: CompactLeaf) => PutLeaf(l) }

  function ReadOneLeaf(): seq<Byte> -> Option<Got<CompactLeaf>> { (b: seq<Byte>) => ReadLeaf(b) }

  function ReadOneHash(form: HashForm): seq<Byte> -> Option<Got<Hash>> { (b: seq<Byte>) => ReadHash(form, b) }

  function Message(form: HashForm, blockHash: Hash, hashes: seq<Hash>, targets: seq<nat>, leaves: seq<CompactLeaf>): seq<Byte> {
    form.bytes(blockHash) + PutCompact(|hashes|) + PutAll(form.bytes, hashes) + PutCompact(|targets|) + PutAll(PutTarget(), targets)
      + PutCompact(|leaves|) + PutAll(PutOneLeaf(), leaves)
  }

  function Parsed(form: HashForm, height: nat, payload: seq<Byte>): Option<BlockProof> {
    var blockHash :- ReadHash(form, payload);
    var hashCount :- ReadCompact(blockHash.rest);
    if hashCount.value > |hashCount.rest| / HASH_SIZE then None
    else
      var hashes :- ReadAll(ReadOneHash(form), hashCount.value, hashCount.rest);
      var targetCount :- ReadCompact(hashes.rest);
      if targetCount.value > MAX_INPUTS then None
      else
        var targets :- ReadAll(ReadTarget(), targetCount.value, targetCount.rest);
        var leafCount :- ReadCompact(targets.rest);
        if leafCount.value != targetCount.value then None
        else
          var leaves :- ReadAll(ReadOneLeaf(), leafCount.value, leafCount.rest);
          if leaves.rest != [] then None
          else Some(BlockProof(Point(height, blockHash.value), targets.value, hashes.value, leaves.value))
  }

  /** A proof that can be sent in full. */
  predicate ProofOk(p: BlockProof) {
    && |p.targets| == |p.leaves| <= MAX_INPUTS && |p.hashes| < U64
    && (forall i | 0 <= i < |p.targets| :: p.targets[i] < U64)
    && (forall i | 0 <= i < |p.leaves| :: LeafOk(p.leaves[i]) && LeafFits(p.leaves[i]))
  }

  function FullMessage(form: HashForm, p: BlockProof): seq<Byte> { Message(form, p.point.hash, p.hashes, p.targets, p.leaves) }

  lemma {:induction false} PutHashesLength(form: HashForm, hashes: seq<Hash>)
    requires Faithful(form)
    ensures |PutAll(form.bytes, hashes)| == HASH_SIZE * |hashes|
    decreases |hashes|
  {
    if hashes != [] { PutHashesLength(form, hashes[1..]); }
  }

  lemma HashesRoundTrip(form: HashForm, hashes: seq<Hash>, rest: seq<Byte>)
    requires Faithful(form)
    ensures ReadAll(ReadOneHash(form), |hashes|, PutAll(form.bytes, hashes) + rest) == Some(Got(hashes, rest))
  {
    forall i | 0 <= i < |hashes| ensures Reads(form.bytes, ReadOneHash(form), hashes[i]) {
      forall more ensures ReadOneHash(form)(form.bytes(hashes[i]) + more) == Some(Got(hashes[i], more)) {
        ReadHashAppended(form, hashes[i], more);
      }
    }
    AllRoundTrip(form.bytes, ReadOneHash(form), hashes, rest);
  }

  lemma TargetsRoundTrip(targets: seq<nat>, rest: seq<Byte>)
    requires forall i | 0 <= i < |targets| :: targets[i] < U64
    ensures ReadAll(ReadTarget(), |targets|, PutAll(PutTarget(), targets) + rest) == Some(Got(targets, rest))
  {
    hide PutCompact, ReadCompact;
    forall i | 0 <= i < |targets| ensures Reads(PutTarget(), ReadTarget(), targets[i]) {
      forall more ensures ReadTarget()(PutTarget()(targets[i]) + more) == Some(Got(targets[i], more)) { CompactRoundTrip(targets[i], more); }
    }
    AllRoundTrip(PutTarget(), ReadTarget(), targets, rest);
  }

  lemma LeavesRoundTrip(leaves: seq<CompactLeaf>, rest: seq<Byte>)
    requires forall i | 0 <= i < |leaves| :: LeafOk(leaves[i]) && LeafFits(leaves[i])
    ensures ReadAll(ReadOneLeaf(), |leaves|, PutAll(PutOneLeaf(), leaves) + rest) == Some(Got(leaves, rest))
  {
    hide PutLeaf, ReadLeaf, LeafFits, LeafOk;
    forall i | 0 <= i < |leaves| ensures Reads(PutOneLeaf(), ReadOneLeaf(), leaves[i]) {
      forall more ensures ReadOneLeaf()(PutOneLeaf()(leaves[i]) + more) == Some(Got(leaves[i], more)) { LeafRoundTrip(leaves[i], more); }
    }
    AllRoundTrip(PutOneLeaf(), ReadOneLeaf(), leaves, rest);
  }

  /** Reading a full message gives back the proof that was sent. */
  lemma MessageRoundTrip(form: HashForm, p: BlockProof)
    requires Faithful(form) && ProofOk(p)
    ensures Parsed(form, p.point.height, FullMessage(form, p)) == Some(p)
  {
    hide PutCompact, ReadCompact, PutAll, ReadAll, LeafOk, LeafFits, ReadHash, Faithful;
    var b, hs, ts, ls := form.bytes(p.point.hash), PutAll(form.bytes, p.hashes), PutAll(PutTarget(), p.targets), PutAll(PutOneLeaf(), p.leaves);
    var h, t, l := PutCompact(|p.hashes|), PutCompact(|p.targets|), PutCompact(|p.leaves|);
    assert FullMessage(form, p) == b + (h + (hs + (t + (ts + (l + (ls + []))))));
    ReadHashAppended(form, p.point.hash, h + (hs + (t + (ts + (l + (ls + []))))));
    CompactRoundTrip(|p.hashes|, hs + (t + (ts + (l + (ls + [])))));
    PutHashesLength(form, p.hashes);
    HashesRoundTrip(form, p.hashes, t + (ts + (l + (ls + []))));
    CompactRoundTrip(|p.targets|, ts + (l + (ls + [])));
    TargetsRoundTrip(p.targets, l + (ls + []));
    CompactRoundTrip(|p.leaves|, ls + []);
    LeavesRoundTrip(p.leaves, []);
  }

  /** Every 32 bytes are a hash. */
  ghost predicate Exact(form: HashForm) {
    Faithful(form) && forall b: seq<Byte> | |b| == HASH_SIZE :: form.bytes(form.hash(b)) == b
  }

  lemma FieldsCanonical(form: HashForm)
    requires Exact(form)
    ensures Canonical(form.bytes, ReadOneHash(form)) && Canonical(PutTarget(), ReadTarget()) && Canonical(PutOneLeaf(), ReadOneLeaf())
  {
    hide PutCompact, ReadCompact, PutLeaf, ReadLeaf;
    forall b: seq<Byte> | ReadTarget()(b).Some? ensures b == PutTarget()(ReadTarget()(b).value.value) + ReadTarget()(b).value.rest {
      CompactCanonical(b);
    }
    forall b: seq<Byte> | ReadOneLeaf()(b).Some? ensures b == PutOneLeaf()(ReadOneLeaf()(b).value.value) + ReadOneLeaf()(b).value.rest {
      LeafCanonical(b);
    }
  }

  lemma {:induction false} TargetsFit(n: nat, bytes: seq<Byte>)
    requires ReadAll(ReadTarget(), n, bytes).Some?
    ensures forall i | 0 <= i < |ReadAll(ReadTarget(), n, bytes).value.value| :: ReadAll(ReadTarget(), n, bytes).value.value[i] < U64
    decreases n
  {
    hide ReadCompact, PutCompact;
    if n > 0 {
      CompactCanonical(bytes);
      TargetsFit(n - 1, ReadCompact(bytes).value.rest);
    }
  }

  lemma {:induction false} LeavesFit(n: nat, bytes: seq<Byte>)
    requires ReadAll(ReadOneLeaf(), n, bytes).Some?
    ensures var ls := ReadAll(ReadOneLeaf(), n, bytes).value.value; forall i | 0 <= i < |ls| :: LeafOk(ls[i]) && LeafFits(ls[i])
    decreases n
  {
    hide ReadLeaf, PutLeaf, LeafOk, LeafFits;
    if n > 0 {
      LeafCanonical(bytes);
      LeavesFit(n - 1, ReadLeaf(bytes).value.rest);
    }
  }

  /** Whatever payload is accepted is the message of the proof it is read as, and of no other. */
  lemma ParsedCanonical(form: HashForm, height: nat, payload: seq<Byte>)
    requires Exact(form) && Parsed(form, height, payload).Some?
    ensures var p := Parsed(form, height, payload).value;
            p.point.height == height && ProofOk(p) && payload == FullMessage(form, p)
  {
    hide PutCompact, ReadCompact, PutAll, ReadAll, LeafOk, LeafFits, PutTarget, PutOneLeaf, ReadTarget, ReadOneLeaf, ReadOneHash, Canonical;
    FieldsCanonical(form);
    var b := ReadHash(form, payload).value;
    assert payload == form.bytes(b.value) + b.rest;
    CompactCanonical(b.rest);
    var h := ReadCompact(b.rest).value;
    AllCanonical(form.bytes, ReadOneHash(form), h.value, h.rest);
    var hs := ReadAll(ReadOneHash(form), h.value, h.rest).value;
    CompactCanonical(hs.rest);
    var t := ReadCompact(hs.rest).value;
    AllCanonical(PutTarget(), ReadTarget(), t.value, t.rest);
    var ts := ReadAll(ReadTarget(), t.value, t.rest).value;
    TargetsFit(t.value, t.rest);
    CompactCanonical(ts.rest);
    var l := ReadCompact(ts.rest).value;
    AllCanonical(PutOneLeaf(), ReadOneLeaf(), l.value, l.rest);
    LeavesFit(l.value, l.rest);
    var ls := ReadAll(ReadOneLeaf(), l.value, l.rest).value;
    assert PutAll(PutOneLeaf(), ls.value) + ls.rest == PutAll(PutOneLeaf(), ls.value);
    Reassociate(form.bytes(b.value), PutCompact(h.value), PutAll(form.bytes, hs.value), PutCompact(t.value),
                PutAll(PutTarget(), ts.value), PutCompact(l.value), PutAll(PutOneLeaf(), ls.value));
  }

  lemma Reassociate(a: seq<Byte>, b: seq<Byte>, c: seq<Byte>, d: seq<Byte>, e: seq<Byte>, f: seq<Byte>, g: seq<Byte>)
    ensures a + (b + (c + (d + (e + (f + g))))) == a + b + c + d + e + f + g
  {}

  // ---- the reader's loops ---------------------------------------------------------------

  /** Elements already read, in front of those still to come. */
  function Behind<T>(done: seq<T>, r: Option<Got<seq<T>>>): Option<Got<seq<T>>> {
    if r.None? then None else Some(Got(done + r.value.value, r.value.rest))
  }

  method ReadList<T>(read: seq<Byte> -> Option<Got<T>>, n: nat, bytes: seq<Byte>) returns (r: Option<Got<seq<T>>>)
    ensures r == ReadAll(read, n, bytes)
  {
    var done: seq<T> := [];
    var cursor := bytes;
    var i: nat := 0;
    BehindNothing(ReadAll(read, n, bytes), done);
    while i < n
      invariant i <= n && ReadAll(read, n, bytes) == Behind(done, ReadAll(read, n - i, cursor))
    {
      var one := read(cursor);
      if one.None? { return None; }
      BehindOne(done, one.value.value, ReadAll(read, n - i - 1, one.value.rest));
      done := done + [one.value.value];
      cursor := one.value.rest;
      i := i + 1;
    }
    BehindNothing(Some(Got([], cursor)), done);
    return Some(Got(done, cursor));
  }

  lemma BehindNothing<T>(r: Option<Got<seq<T>>>, done: seq<T>)
    ensures Behind([], r) == r
    ensures r.Some? && r.value.value == [] ==> Behind(done, r) == Some(Got(done, r.value.rest))
  {
    assert r.Some? ==> [] + r.value.value == r.value.value;
    assert done + [] == done;
  }

  lemma BehindOne<T>(done: seq<T>, x: T, r: Option<Got<seq<T>>>)
    ensures Behind(done, Behind([x], r)) == Behind(done + [x], r)
  {
    assert r.Some? ==> done + ([x] + r.value.value) == done + [x] + r.value.value;
  }

  /** Read a full message, with a cursor over the payload. */
  method ParseFullUtreexoProof(form: HashForm, height: nat, payload: seq<Byte>) returns (r: Result<BlockProof>)
    ensures r == (if Parsed(form, height, payload).Some? then Ok(Parsed(form, height, payload).value) else Err("invalid uproof"))
  {
    hide ReadAll, ReadCompact, ReadHash, ReadOneHash, ReadTarget, ReadOneLeaf;
    var blockHash := ReadHash(form, payload);
    if blockHash.None? { return Err("invalid uproof"); }
    var hashCount := ReadCompact(blockHash.value.rest);
    if hashCount.None? || hashCount.value.value > |hashCount.value.rest| / HASH_SIZE { return Err("invalid uproof"); }
    var hashes := ReadList(ReadOneHash(form), hashCount.value.value, hashCount.value.rest);
    if hashes.None? { return Err("invalid uproof"); }
    var targetCount := ReadCompact(hashes.value.rest);
    if targetCount.None? || targetCount.value.value > MAX_INPUTS { return Err("invalid uproof"); }
    var targets := ReadList(ReadTarget(), targetCount.value.value, targetCount.value.rest);
    if targets.None? { return Err("invalid uproof"); }
    var leafCount := ReadCompact(targets.value.rest);
    if leafCount.None? || leafCount.value.value != targetCount.value.value { return Err("invalid uproof"); }
    var leaves := ReadList(ReadOneLeaf(), leafCount.value.value, leafCount.value.rest);
    if leaves.None? || leaves.value.rest != [] { return Err("invalid uproof"); }
    return Ok(BlockProof(Point(height, blockHash.value.value), targets.value.value, hashes.value.value, leaves.value.value));
  }

  // ---- what a request selects -----------------------------------------------------------

  predicate BitmapBit(bitmap: seq<Byte>, index: nat) {
    index / 8 < |bitmap| && And(bitmap[index / 8], Pow2(index % 8)) != 0
  }

  predicate Wants(all: bool, bitmap: seq<Byte>, index: nat) { all || BitmapBit(bitmap, index) }

  /** The wanted ones among the first n. */
  function Selected<T>(xs: seq<T>, all: bool, bitmap: seq<Byte>, n: nat): seq<T>
    requires n <= |xs|
  {
    if n == 0 then [] else Selected(xs, all, bitmap, n - 1) + if Wants(all, bitmap, n - 1) then [xs[n - 1]] else []
  }

  lemma SelectedStep<T>(xs: seq<T>, all: bool, bitmap: seq<Byte>, i: nat)
    requires i < |xs|
    ensures Selected(xs, all, bitmap, i + 1)
            == if Wants(all, bitmap, i) then Selected(xs, all, bitmap, i) + [xs[i]] else Selected(xs, all, bitmap, i)
  {
    assert Selected(xs, all, bitmap, i) + [] == Selected(xs, all, bitmap, i);
  }

  lemma {:induction false} SelectedAll<T>(xs: seq<T>, bitmap: seq<Byte>, n: nat)
    requires n <= |xs|
    ensures Selected(xs, true, bitmap, n) == xs[..n]
    decreases n
  {
    if n > 0 { SelectedAll(xs, bitmap, n - 1); }
  }

  predicate AllHashes(request: Request) { And(request.bitmap, 2) != 0 }
  predicate TargetsWanted(request: Request) { And(request.bitmap, 1) != 0 }
  predicate AllLeaves(request: Request) { And(request.bitmap, 4) != 0 }

  function SentHashes(p: BlockProof, request: Request): seq<Hash> {
    Selected(p.hashes, AllHashes(request), request.proofIndexes, |p.hashes|)
  }

  function SentTargets(p: BlockProof, request: Request, wire: Option<seq<nat>>): seq<nat> {
    if !TargetsWanted(request) then [] else if wire.Some? then wire.value else p.targets
  }

  function SentLeaves(p: BlockProof, request: Request): seq<CompactLeaf> {
    Selected(p.leaves, AllLeaves(request), request.leafIndexes, |p.leaves|)
  }

  /** The reply to a request, with targets as given or translated. */
  function Answer(form: HashForm, p: BlockProof, request: Request, wire: Option<seq<nat>>): seq<Byte> {
    Message(form, p.point.hash, SentHashes(p, request), SentTargets(p, request, wire), SentLeaves(p, request))
  }

  datatype Layout = Layout(payloadBytes: nat, hashCount: nat, targetCount: nat, leafCount: nat, wire: Option<seq<nat>>)

  // ---- measuring ------------------------------------------------------------------------

  lemma {:induction false} PutConcat<T>(put: T -> seq<Byte>, xs: seq<T>, ys: seq<T>)
    ensures PutAll(put, xs + ys) == PutAll(put, xs) + PutAll(put, ys)
    decreases |xs|
  {
    if xs == [] {
      assert xs + ys == ys;
    } else {
      assert (xs + ys)[1..] == xs[1..] + ys;
      PutConcat(put, xs[1..], ys);
    }
  }

  lemma PutPrefix<T>(put: T -> seq<Byte>, xs: seq<T>, i: nat)
    requires i <= |xs|
    ensures |PutAll(put, xs[..i])| <= |PutAll(put, xs)|
  {
    assert xs == xs[..i] + xs[i..];
    PutConcat(put, xs[..i], xs[i..]);
  }

  method MeasureTargets(targets: seq<nat>, start: nat, max: nat) returns (total: Option<nat>)
    ensures total == if start + |PutAll(PutTarget(), targets)| <= max || targets == [] then Some(start + |PutAll(PutTarget(), targets)|) else None
  {
    hide PutAll, PutTarget;
    var size: nat := start;
    var i: nat := 0;
    NothingPut(PutTarget());
    assert targets[..0] == [];
    while i < |targets|
      invariant i <= |targets| && size == start + |PutAll(PutTarget(), targets[..i])|
      invariant i > 0 ==> size <= max
    {
      assert targets[..i + 1] == targets[..i] + [targets[i]];
      TargetPut(targets[..i], targets[i]);
      PutPrefix(PutTarget(), targets, i + 1);
      var bytes := CompactBytes(targets[i]);
      if size > max || bytes > max - size { return None; }
      size := size + bytes;
      i := i + 1;
    }
    assert targets[..i] == targets;
    return Some(size);
  }

  lemma NothingPut<T>(put: T -> seq<Byte>)
    ensures PutAll(put, []) == []
  {}

  lemma TargetPut(targets: seq<nat>, t: nat)
    ensures |PutAll(PutTarget(), targets + [t])| == |PutAll(PutTarget(), targets)| + CompactBytes(t)
  {
    PutSnoc(PutTarget(), targets, t);
    CompactLength(t);
  }

  lemma LeafPut(leaves: seq<CompactLeaf>, l: CompactLeaf)
    ensures |PutAll(PutOneLeaf(), leaves + [l])| == |PutAll(PutOneLeaf(), leaves)| + LeafBytes(l)
  {
    PutSnoc(PutOneLeaf(), leaves, l);
    LeafLength(l);
  }

  lemma {:induction false} SelectedPrefix<T>(xs: seq<T>, all: bool, bitmap: seq<Byte>, i: nat, n: nat)
    requires i <= n <= |xs|
    ensures Selected(xs, all, bitmap, i) <= Selected(xs, all, bitmap, n)
    decreases n
  {
    if i < n { SelectedPrefix(xs, all, bitmap, i, n - 1); }
  }

  lemma NothingSelected<T>(xs: seq<T>, all: bool, bitmap: seq<Byte>)
    ensures Selected(xs, all, bitmap, 0) == []
  {}

  /** The wanted leaves are well formed and fit behind `start`. */
  ghost predicate LeavesMeasure(leaves: seq<CompactLeaf>, start: nat, max: nat) {
    (forall i | 0 <= i < |leaves| :: LeafOk(leaves[i])) && (leaves == [] || start + |PutAll(PutOneLeaf(), leaves)| <= max)
  }

  method MeasureLeaves(leaves: seq<CompactLeaf>, all: bool, bitmap: seq<Byte>, start: nat, max: nat) returns (total: Result<nat>)
    ensures total.Ok? <==> LeavesMeasure(Selected(leaves, all, bitmap, |leaves|), start, max)
    ensures total.Ok? ==> total.value == start + |PutAll(PutOneLeaf(), Selected(leaves, all, bitmap, |leaves|))|
  {
    hide PutAll, PutOneLeaf, LeafOk, LeafBytes, Wants, Selected;
    ghost var wanted := Selected(leaves, all, bitmap, |leaves|);
    var size: nat := start;
    var i: nat := 0;
    NothingPut(PutOneLeaf());
    NothingSelected(leaves, all, bitmap);
    while i < |leaves|
      invariant i <= |leaves|
      invariant size == start + |PutAll(PutOneLeaf(), Selected(leaves, all, bitmap, i))|
      invariant LeavesMeasure(Selected(leaves, all, bitmap, i), start, max)
    {
      SelectedStep(leaves, all, bitmap, i);
      if Wants(all, bitmap, i) {
        var leaf := leaves[i];
        ghost var sent := Selected(leaves, all, bitmap, i);
        SelectedPrefix(leaves, all, bitmap, i + 1, |leaves|);
        LeafPut(sent, leaf);
        PutPrefix(PutOneLeaf(), wanted, |sent| + 1);
        assert Selected(leaves, all, bitmap, i + 1) == sent + [leaf] == wanted[..|sent| + 1];
        assert wanted[|sent|] == leaf;
        if !LeafOk(leaf) { return Err("cached compact leaf is malformed"); }
        var bytes := LeafBytes(leaf);
        if size > max || bytes > max - size { return Err("uproof response exceeds configured maximum"); }
        size := size + bytes;
      }
      i := i + 1;
    }
    return Ok(size);
  }

  method CountSelected<T>(xs: seq<T>, all: bool, bitmap: seq<Byte>) returns (n: nat)
    ensures n == |Selected(xs, all, bitmap, |xs|)|
  {
    hide Wants;
    n := 0;
    var i: nat := 0;
    while i < |xs|
      invariant i <= |xs| && n == |Selected(xs, all, bitmap, i)|
    {
      if Wants(all, bitmap, i) { n := n + 1; }
      i := i + 1;
    }
  }

  /** The bytes before the targets, the targets with the count behind them, and the leaves. */
  lemma AnswerLength(form: HashForm, p: BlockProof, request: Request, wire: Option<seq<nat>>)
    requires Faithful(form)
    ensures |Answer(form, p, request, wire)|
            == HASH_SIZE + CompactBytes(|SentHashes(p, request)|) + HASH_SIZE * |SentHashes(p, request)|
               + CompactBytes(|SentTargets(p, request, wire)|) + |PutAll(PutTarget(), SentTargets(p, request, wire))|
               + CompactBytes(|SentLeaves(p, request)|) + |PutAll(PutOneLeaf(), SentLeaves(p, request))|
  {
    hide PutAll, CompactBytes, PutCompact, SentHashes, SentTargets, SentLeaves, Wants;
    PutHashesLength(form, SentHashes(p, request));
    CompactLength(|SentHashes(p, request)|);
    CompactLength(|SentTargets(p, request, wire)|);
    CompactLength(|SentLeaves(p, request)|);
  }

  /** The targets as the reply carries them, if they translate. */
  ghost predicate WireOk(p: BlockProof, wireLeaves: Option<nat>, wire: Option<seq<nat>>)
    requires forall i | 0 <= i < |p.targets| :: p.targets[i] < U64
  {
    && wire.Some? == wireLeaves.Some?
    && (wire.Some? ==>
        && wireLeaves.value <= Pow2(63) && |wire.value| == |p.targets|
        && forall i | 0 <= i < |p.targets| :: WireTargets.Translate(wireLeaves.value, p.targets[i]) == Ok(wire.value[i]))
  }

  /** What makes a request answerable within `max` bytes. */
  ghost predicate Answerable(form: HashForm, p: BlockProof, request: Request, wire: Option<seq<nat>>, max: nat) {
    && p.point.hash == request.blockHash && |p.targets| == |p.leaves| <= MAX_INPUTS
    && (forall i | 0 <= i < |SentLeaves(p, request)| :: LeafOk(SentLeaves(p, request)[i]))
    && |Answer(form, p, request, wire)| <= max
  }

  /** The size of the reply, found without building it: exactly its length, and refused exactly
      when the reply is malformed or too long. */
  method MeasureUtreexoProof(form: HashForm, p: BlockProof, request: Request, max: nat, wireLeaves: Option<nat>) returns (r: Result<Layout>)
    requires Faithful(form) && forall i | 0 <= i < |p.targets| :: p.targets[i] < U64
    ensures r.Ok? ==> WireOk(p, wireLeaves, r.value.wire) && Answerable(form, p, request, r.value.wire, max)
    ensures r.Ok? ==> r.value.payloadBytes == |Answer(form, p, request, r.value.wire)|
    ensures r.Ok? ==> r.value.hashCount == |SentHashes(p, request)| && r.value.leafCount == |SentLeaves(p, request)|
                      && r.value.targetCount == |SentTargets(p, request, r.value.wire)|
    ensures r.Err? ==> forall wire :: WireOk(p, wireLeaves, wire) ==> !Answerable(form, p, request, wire, max)
  {
    hide PutAll, CompactBytes, Answer, PutTarget, PutOneLeaf, LeafOk, BitmapBit, WireTargets.Translate, And, Pow2, Selected, Faithful;
    if p.point.hash != request.blockHash { return Err("getuproof block hash does not match cached proof"); }
    if |p.targets| != |p.leaves| || |p.leaves| > MAX_INPUTS { return Err("cached proof target/leaf counts are invalid"); }
    var wire: Option<seq<nat>> := None;
    if wireLeaves.Some? {
      var translated := WireTargets.TranslateAll(wireLeaves.value, p.targets);
      if translated.Err? { return Err(translated.error); }
      wire := Some(translated.value);
    }
    forall other | WireOk(p, wireLeaves, other) ensures other == wire { WireUnique(p, wireLeaves, wire, other); }
    r := MeasureFields(form, p, request, max, wire);
  }

  lemma WireUnique(p: BlockProof, wireLeaves: Option<nat>, a: Option<seq<nat>>, b: Option<seq<nat>>)
    requires forall i | 0 <= i < |p.targets| :: p.targets[i] < U64
    requires WireOk(p, wireLeaves, a) && WireOk(p, wireLeaves, b)
    ensures a == b
  {
    hide WireTargets.Translate, Pow2;
    if a.Some? {
      forall i | 0 <= i < |p.targets| ensures a.value[i] == b.value[i] {
        assert WireTargets.Translate(wireLeaves.value, p.targets[i]) == Ok(a.value[i]);
      }
      assert a.value == b.value;
    }
  }

  method MeasureFields(form: HashForm, p: BlockProof, request: Request, max: nat, wire: Option<seq<nat>>) returns (r: Result<Layout>)
    requires Faithful(form) && p.point.hash == request.blockHash && |p.targets| == |p.leaves| <= MAX_INPUTS
    requires wire.Some? ==> |wire.value| == |p.targets|
    ensures r.Ok? <==> Answerable(form, p, request, wire, max)
    ensures r.Ok? ==> r.value == Layout(|Answer(form, p, request, wire)|, |SentHashes(p, request)|, |SentTargets(p, request, wire)|,
                                        |SentLeaves(p, request)|, wire)
  {
    hide PutAll, CompactBytes, Answer, PutTarget, PutOneLeaf, LeafOk, BitmapBit, And, Pow2, Selected, Faithful;
    AnswerLength(form, p, request, wire);
    var hashCount := CountSelected(p.hashes, AllHashes(request), request.proofIndexes);
    var targetCount := if TargetsWanted(request) then |p.targets| else 0;
    var leafCount := CountSelected(p.leaves, AllLeaves(request), request.leafIndexes);
    assert targetCount == |SentTargets(p, request, wire)|;
    var head := HASH_SIZE + CompactBytes(hashCount) + hashCount * HASH_SIZE + CompactBytes(targetCount);
    if head > max { return Err("uproof response exceeds configured maximum"); }
    var upToTargets := MeasureTargets(SentTargets(p, request, wire), head, max);
    if upToTargets.None? || CompactBytes(leafCount) > max - upToTargets.value { return Err("uproof response exceeds configured maximum"); }
    var start := upToTargets.value + CompactBytes(leafCount);
    var total := MeasureLeaves(p.leaves, AllLeaves(request), request.leafIndexes, start, max);
    NothingPut(PutOneLeaf());
    if total.Err? { return Err(total.error); }
    return Ok(Layout(total.value, hashCount, targetCount, leafCount, wire));
  }

  // ---- serializing ----------------------------------------------------------------------

  method AppendSelected<T>(put: T -> seq<Byte>, xs: seq<T>, all: bool, bitmap: seq<Byte>, start: seq<Byte>) returns (output: seq<Byte>)
    ensures output == start + PutAll(put, Selected(xs, all, bitmap, |xs|))
  {
    hide PutAll, Selected, Wants;
    output := start;
    var i: nat := 0;
    NothingPut(put);
    NothingSelected(xs, all, bitmap);
    while i < |xs|
      invariant i <= |xs| && output == start + PutAll(put, Selected(xs, all, bitmap, i))
    {
      SelectedStep(xs, all, bitmap, i);
      if Wants(all, bitmap, i) {
        PutSnoc(put, Selected(xs, all, bitmap, i), xs[i]);
        output := output + put(xs[i]);
      }
      i := i + 1;
    }
  }

  method SerializeUtreexoProofWithLayout(form: HashForm, p: BlockProof, request: Request, layout: Layout) returns (r: Result<seq<Byte>>)
    requires layout.hashCount == |SentHashes(p, request)| && layout.leafCount == |SentLeaves(p, request)|
    requires layout.targetCount == |SentTargets(p, request, layout.wire)|
    ensures r.Ok? <==> |Answer(form, p, request, layout.wire)| == layout.payloadBytes
    ensures r.Ok? ==> r.value == Answer(form, p, request, layout.wire)
  {
    hide PutAll, PutCompact, PutTarget, PutOneLeaf, Selected, And;
    var output := form.bytes(p.point.hash) + PutCompact(layout.hashCount);
    output := AppendSelected(form.bytes, p.hashes, AllHashes(request), request.proofIndexes, output);
    output := output + PutCompact(layout.targetCount);
    ghost var before := output;
    NothingPut(PutTarget());
    if TargetsWanted(request) {
      var targets := if layout.wire.Some? then layout.wire.value else p.targets;
      SelectedAll(targets, [], |targets|);
      assert targets[..|targets|] == targets;
      output := AppendSelected(PutTarget(), targets, true, [], output);
    }
    assert output == before + PutAll(PutTarget(), SentTargets(p, request, layout.wire));
    output := output + PutCompact(layout.leafCount);
    output := AppendSelected(PutOneLeaf(), p.leaves, AllLeaves(request), request.leafIndexes, output);
    if |output| != layout.payloadBytes { return Err("internal uproof serialized-size mismatch"); }
    return Ok(output);
  }

  /** The reply is sent whenever it can be; the size check behind it never fails. */
  method SerializeUtreexoProof(form: HashForm, p: BlockProof, request: Request, max: nat, wireLeaves: Option<nat>)
    returns (r: Result<seq<Byte>>, ghost wire: Option<seq<nat>>)
    requires Faithful(form) && forall i | 0 <= i < |p.targets| :: p.targets[i] < U64
    ensures r.Ok? <==> WireOk(p, wireLeaves, wire) && Answerable(form, p, request, wire, max)
    ensures r.Ok? ==> r.value == Answer(form, p, request, wire) && |r.value| <= max
    ensures r.Err? ==> forall w :: WireOk(p, wireLeaves, w) ==> !Answerable(form, p, request, w, max)
  {
    hide Answer, WireOk, SentHashes, SentTargets, SentLeaves, Faithful;
    wire := None;
    var layout := MeasureUtreexoProof(form, p, request, max, wireLeaves);
    if layout.Err? { return Err(layout.error), wire; }
    wire := layout.value.wire;
    r := SerializeUtreexoProofWithLayout(form, p, request, layout.value);
  }

  /** The proof with its targets as they are sent. */
  function OnWire(p: BlockProof, wire: Option<seq<nat>>): BlockProof { if wire.Some? then p.(targets := wire.value) else p }

  lemma WireProofOk(p: BlockProof, wireLeaves: Option<nat>, wire: Option<seq<nat>>)
    requires ProofOk(p) && WireOk(p, wireLeaves, wire)
    ensures ProofOk(OnWire(p, wire))
  {
    hide Pow2, WireTargets.Translate, LeafOk, LeafFits;
    if wire.Some? {
      forall i | 0 <= i < |wire.value| ensures wire.value[i] < U64 { WireTargets.TranslateWord(wireLeaves.value, p.targets[i]); }
    }
  }

  /** A reply to a request for everything reads back as the proof itself, its targets translated
      where translation was asked for. */
  lemma FullReplyRoundTrip(form: HashForm, p: BlockProof, request: Request, wireLeaves: Option<nat>, wire: Option<seq<nat>>)
    requires Faithful(form) && ProofOk(p) && AllHashes(request) && TargetsWanted(request) && AllLeaves(request)
    requires WireOk(p, wireLeaves, wire)
    ensures Parsed(form, p.point.height, Answer(form, p, request, wire)) == Some(OnWire(p, wire))
  {
    hide Message, Parsed, Faithful, And, WireOk, ProofOk;
    SelectedAll(p.hashes, request.proofIndexes, |p.hashes|);
    SelectedAll(p.leaves, request.leafIndexes, |p.leaves|);
    assert p.hashes[..|p.hashes|] == p.hashes && p.leaves[..|p.leaves|] == p.leaves;
    WireProofOk(p, wireLeaves, wire);
    MessageRoundTrip(form, OnWire(p, wire));
  }
}
