/** Open-addressing tables that store only node ids (KeylessLeafIndex in src/forest.cpp), as
    values: when a table is sound, and what single writes do to it. */
module LeafTable {
  import opened Bits
  import opened Common

  datatype Control = Empty | Full | Deleted

  datatype Table = Table(slots: seq<NodeId>, control: seq<Control>)

  /** The hash of every live leaf of the arena, and the mixing function of the table. */
  datatype Keys = Keys(hashes: map<NodeId, Hash>, bucket: Hash -> nat)

  ghost predicate PowerOfTwo(cap: nat) { exists k: nat :: cap == Pow2(k) }

  // ---- masked slot arithmetic -----------------------------------------------------------

  /** (slot + 1) & mask. */
  function Next(slot: nat, cap: nat): (r: nat)
    requires PowerOfTwo(cap) && slot < cap
    ensures r == if slot + 1 == cap then 0 else slot + 1
  {
    MaskNext(slot, cap);
    And(slot + 1, cap - 1)
  }

  lemma MaskNext(slot: nat, cap: nat)
    requires PowerOfTwo(cap) && slot < cap
    ensures And(slot + 1, cap - 1) == if slot + 1 == cap then 0 else slot + 1
  {
    hide And, Up;
    var k: nat :| cap == Pow2(k);
    AndMask(slot + 1, k);
    if slot + 1 == cap { Unique(1, 0, k); } else { ShrSmall(slot + 1, k); }
  }

  /** Cyclic distance (b - a) & mask. */
  function Dist(a: nat, b: nat, cap: nat): nat
    requires a < cap && b < cap
  { if b >= a then b - a else b + cap - a }

  lemma MaskDist(a: nat, b: nat, cap: nat)
    requires PowerOfTwo(cap) && a < cap <= U64 && b < cap
    ensures And(Sub(b, a), cap - 1) == Dist(a, b, cap)
  {
    hide And, Up, Low, Shr;
    var k: nat :| cap == Pow2(k);
    AndMask(Sub(b, a), k);
    if b >= a {
      ShrSmall(b - a, k);
    } else {
      Pow2Word(64);
      if k > 64 { Pow2Mono(64, k); }
      UpOnes(64 - k, k);
      LowUpBelow(Pow2(64 - k) - 1, b + cap - a, k, k);
      ShrSmall(b + cap - a, k);
    }
  }

  /** The distance as the register computes it; a table never outgrows the register. */
  function MaskedDistance(a: nat, b: nat, cap: nat): nat
    requires PowerOfTwo(cap) && a < cap && b < cap
  { if cap <= U64 then And(Sub(b, a), cap - 1) else Dist(a, b, cap) }

  lemma MaskedIs(a: nat, b: nat, cap: nat)
    requires PowerOfTwo(cap) && a < cap && b < cap
    ensures MaskedDistance(a, b, cap) == Dist(a, b, cap)
  {
    hide And, PowerOfTwo;
    if cap <= U64 { MaskDist(a, b, cap); }
  }

  /** Bucket(hash) & mask. */
  function Home(keys: Keys, hash: Hash, cap: nat): (r: nat)
    requires cap > 0
    ensures r < cap
  {
    AndBelow(keys.bucket(hash), cap - 1);
    And(keys.bucket(hash), cap - 1)
  }

  lemma {:induction false} AndBelow(x: nat, y: nat)
    ensures And(x, y) <= y
    decreases y
  {
    if x > 0 && y > 0 { AndBelow(x / 2, y / 2); }
  }

  // ---- soundness of a table -------------------------------------------------------------

  function Cap(t: Table): nat { |t.slots| }

  ghost predicate Shaped(t: Table) {
    |t.slots| == |t.control| && PowerOfTwo(Cap(t)) && Cap(t) > 0
  }

  predicate IsFull(t: Table, s: nat)
    requires |t.slots| == |t.control|
  { s < Cap(t) && t.control[s] == Full }

  ghost predicate Keyed(keys: Keys, t: Table)
    requires Shaped(t)
  { forall s: nat | IsFull(t, s) :: t.slots[s] in keys.hashes }

  ghost predicate Distinct(t: Table)
    requires Shaped(t)
  { forall s: nat, u: nat | IsFull(t, s) && IsFull(t, u) && t.slots[s] == t.slots[u] :: s == u }

  function HomeOf(keys: Keys, t: Table, s: nat): (r: nat)
    requires Shaped(t) && s < Cap(t) && t.slots[s] in keys.hashes
    ensures r < Cap(t)
  { Home(keys, keys.hashes[t.slots[s]], Cap(t)) }

  /** Slot q lies on the probe path of the entry in slot s. */
  predicate OnPath(keys: Keys, t: Table, s: nat, q: nat)
    requires Shaped(t) && s < Cap(t) && q < Cap(t) && t.slots[s] in keys.hashes
  {
    Dist(HomeOf(keys, t, s), q, Cap(t)) < Dist(HomeOf(keys, t, s), s, Cap(t))
  }

  /** No entry is stranded behind an empty slot. */
  ghost predicate Reachable(keys: Keys, t: Table)
    requires Shaped(t) && Keyed(keys, t)
  {
    forall s: nat, q: nat | IsFull(t, s) && q < Cap(t) && OnPath(keys, t, s, q) :: t.control[q] != Empty
  }

  ghost predicate Sound(keys: Keys, t: Table) {
    Shaped(t) && Keyed(keys, t) && Distinct(t) && Reachable(keys, t)
  }

  ghost function Entries(t: Table): set<NodeId>
    requires |t.slots| == |t.control|
  { set s: nat | s < Cap(t) && IsFull(t, s) :: t.slots[s] }

  function Count(cs: seq<Control>, c: Control): nat {
    if cs == [] then 0 else (if cs[0] == c then 1 else 0) + Count(cs[1..], c)
  }

  lemma {:induction false} CountUpdate(cs: seq<Control>, i: nat, v: Control, c: Control)
    requires i < |cs|
    ensures Count(cs[i := v], c) == Count(cs, c) - (if cs[i] == c then 1 else 0) + (if v == c then 1 else 0)
    decreases i
  {
    if i > 0 {
      assert cs[i := v][1..] == cs[1..][i - 1 := v];
      CountUpdate(cs[1..], i - 1, v, c);
    }
  }

  lemma {:induction false} CountTotal(cs: seq<Control>)
    ensures Count(cs, Empty) + Count(cs, Full) + Count(cs, Deleted) == |cs|
    decreases cs
  {
    if cs != [] { CountTotal(cs[1..]); }
  }

  lemma {:induction false} CountZero(cs: seq<Control>, c: Control) returns (i: nat)
    requires Count(cs, c) > 0
    ensures i < |cs| && cs[i] == c
    decreases cs
  {
    if cs[0] == c { i := 0; } else { i := CountZero(cs[1..], c); i := i + 1; }
  }

  /** The load bound leaves an empty slot. */
  lemma EmptySlot(t: Table) returns (e: nat)
    requires Shaped(t) && Count(t.control, Full) + Count(t.control, Deleted) < Cap(t)
    ensures e < Cap(t) && t.control[e] == Empty
  {
    CountTotal(t.control);
    e := CountZero(t.control, Empty);
  }

  function Put(t: Table, s: nat, id: NodeId, c: Control): Table
    requires s < |t.slots| == |t.control|
  { Table(t.slots[s := id], t.control[s := c]) }

  /** Writing an entry into a free slot at the end of an unbroken probe path. */
  lemma PutSound(keys: Keys, t: Table, d: nat, id: NodeId)
    requires Sound(keys, t) && d < Cap(t) && !IsFull(t, d) && id in keys.hashes && id !in Entries(t)
    requires forall q: nat | q < Cap(t) && Dist(Home(keys, keys.hashes[id], Cap(t)), q, Cap(t))
                                         < Dist(Home(keys, keys.hashes[id], Cap(t)), d, Cap(t)) :: t.control[q] != Empty
    ensures Sound(keys, Put(t, d, id, Full)) && Entries(Put(t, d, id, Full)) == Entries(t) + {id}
  {
    hide Home, Dist, PowerOfTwo;
    var t' := Put(t, d, id, Full);
    PutEntries(t, d, id);
    forall s: nat, q: nat | IsFull(t', s) && q < Cap(t') && OnPath(keys, t', s, q) ensures t'.control[q] != Empty {
      if s != d && q != d { assert IsFull(t, s) && OnPath(keys, t, s, q); }
    }
    forall s: nat, u: nat | IsFull(t', s) && IsFull(t', u) && t'.slots[s] == t'.slots[u] ensures s == u {
      assert s != d ==> IsFull(t, s) && t.slots[s] in Entries(t);
      assert u != d ==> IsFull(t, u) && t.slots[u] in Entries(t);
    }
  }

  lemma PutEntries(t: Table, d: nat, id: NodeId)
    requires |t.slots| == |t.control| && d < Cap(t) && !IsFull(t, d)
    ensures Entries(Put(t, d, id, Full)) == Entries(t) + {id}
  {
    var t' := Put(t, d, id, Full);
    assert IsFull(t', d) && t'.slots[d] == id;
    forall x | x in Entries(t) ensures x in Entries(t') {
      var s: nat :| s < Cap(t) && IsFull(t, s) && t.slots[s] == x;
      assert IsFull(t', s) && t'.slots[s] == x;
    }
    forall x | x in Entries(t') ensures x in Entries(t) + {id} {
      var s: nat :| s < Cap(t') && IsFull(t', s) && t'.slots[s] == x;
      assert s == d || IsFull(t, s);
    }
  }

  // ---- back-shift deletion --------------------------------------------------------------

  /** The table while the cluster behind a deleted entry is shifted back: the entry in `hole`
      no longer counts, and only entries at or after `cursor` may still need to cross it. */
  ghost predicate Holed(keys: Keys, t: Table, hole: nat, cursor: nat) {
    && Shaped(t) && hole < Cap(t) && cursor < Cap(t) && hole != cursor
    && IsFull(t, hole)
    && (forall s: nat | IsFull(t, s) && s != hole :: t.slots[s] in keys.hashes)
    && (forall s: nat, u: nat | IsFull(t, s) && IsFull(t, u) && s != hole && u != hole && t.slots[s] == t.slots[u] :: s == u)
    && (forall s: nat, q: nat | IsFull(t, s) && s != hole && q < Cap(t) && OnPath(keys, t, s, q) ::
          t.control[q] != Empty && (q == hole ==> Dist(hole, cursor, Cap(t)) <= Dist(hole, s, Cap(t))))
  }

  ghost function EntriesBut(t: Table, hole: nat): set<NodeId>
    requires |t.slots| == |t.control|
  { set s: nat | s < Cap(t) && s != hole && IsFull(t, s) :: t.slots[s] }

  lemma HoleOpens(keys: Keys, t: Table, hole: nat)
    requires Sound(keys, t) && IsFull(t, hole) && Cap(t) > 1
    ensures Holed(keys, t, hole, Next(hole, Cap(t)))
    ensures EntriesBut(t, hole) == Entries(t) - {t.slots[hole]}
  {
    hide Home, PowerOfTwo;
    forall x | x in EntriesBut(t, hole) ensures x in Entries(t) && x != t.slots[hole] {
      var s: nat :| s < Cap(t) && s != hole && IsFull(t, s) && t.slots[s] == x;
    }
    forall x | x in Entries(t) && x != t.slots[hole] ensures x in EntriesBut(t, hole) {
      var s: nat :| s < Cap(t) && IsFull(t, s) && t.slots[s] == x;
    }
  }

  /** Passing over an entry that does not need to move, or over a deleted slot. */
  lemma HolePasses(keys: Keys, t: Table, hole: nat, cursor: nat)
    requires Holed(keys, t, hole, cursor) && Next(cursor, Cap(t)) != hole
    requires IsFull(t, cursor) ==> !OnPath(keys, t, cursor, hole)
    ensures Holed(keys, t, hole, Next(cursor, Cap(t)))
  {
    hide Home, PowerOfTwo;
    var next := Next(cursor, Cap(t));
    forall s: nat, q: nat | IsFull(t, s) && s != hole && q < Cap(t) && OnPath(keys, t, s, q)
      ensures t.control[q] != Empty && (q == hole ==> Dist(hole, next, Cap(t)) <= Dist(hole, s, Cap(t)))
    {
      assert q == hole ==> s != cursor;
    }
  }

  /** Moving the entry at the cursor into the hole opens a new hole at the cursor. */
  lemma HoleMoves(keys: Keys, t: Table, hole: nat, cursor: nat)
    requires Holed(keys, t, hole, cursor) && Cap(t) > 1
    requires IsFull(t, cursor) && OnPath(keys, t, cursor, hole)
    ensures Holed(keys, Put(t, hole, t.slots[cursor], Full), cursor, Next(cursor, Cap(t)))
    ensures EntriesBut(Put(t, hole, t.slots[cursor], Full), cursor) == EntriesBut(t, hole)
  {
    hide Home, PowerOfTwo;
    var t' := Put(t, hole, t.slots[cursor], Full);
    var next := Next(cursor, Cap(t));
    forall s: nat, q: nat | IsFull(t', s) && s != cursor && q < Cap(t') && OnPath(keys, t', s, q)
      ensures t'.control[q] != Empty && (q == cursor ==> Dist(cursor, next, Cap(t)) <= Dist(cursor, s, Cap(t)))
    {
      if s == hole {
        assert q != cursor && OnPath(keys, t, cursor, q);
      } else {
        assert OnPath(keys, t, s, q);
      }
    }
    MovedEntries(t, hole, cursor);
  }

  lemma MovedEntries(t: Table, hole: nat, cursor: nat)
    requires Shaped(t) && hole < Cap(t) && cursor < Cap(t) && hole != cursor && IsFull(t, hole) && IsFull(t, cursor)
    ensures EntriesBut(Put(t, hole, t.slots[cursor], Full), cursor) == EntriesBut(t, hole)
  {
    var t' := Put(t, hole, t.slots[cursor], Full);
    forall x | x in EntriesBut(t', cursor) ensures x in EntriesBut(t, hole) {
      var s: nat :| s < Cap(t') && s != cursor && IsFull(t', s) && t'.slots[s] == x;
      assert if s == hole then t.slots[cursor] == x else IsFull(t, s) && t.slots[s] == x;
    }
    forall x | x in EntriesBut(t, hole) ensures x in EntriesBut(t', cursor) {
      var s: nat :| s < Cap(t) && s != hole && IsFull(t, s) && t.slots[s] == x;
      if s == cursor { assert IsFull(t', hole) && t'.slots[hole] == x; }
      else { assert IsFull(t', s) && t'.slots[s] == x; }
    }
  }

  /** A probe path that goes through `hole` to a slot beyond `cursor` goes through `cursor`. */
  lemma PathCrosses(keys: Keys, t: Table, s: nat, hole: nat, cursor: nat)
    requires Shaped(t) && s < Cap(t) && hole < Cap(t) && cursor < Cap(t) && t.slots[s] in keys.hashes
    ensures OnPath(keys, t, s, hole) && Dist(hole, cursor, Cap(t)) < Dist(hole, s, Cap(t)) ==> OnPath(keys, t, s, cursor)
  {
    hide Home, PowerOfTwo;
  }

  /** At an empty slot the hole can be emptied: nothing is stranded. */
  lemma HoleCloses(keys: Keys, t: Table, hole: nat, cursor: nat)
    requires Holed(keys, t, hole, cursor) && t.control[cursor] == Empty
    ensures Sound(keys, Put(t, hole, NO_NODE, Empty))
    ensures Entries(Put(t, hole, NO_NODE, Empty)) == EntriesBut(t, hole)
  {
    hide Home, PowerOfTwo;
    var t' := Put(t, hole, NO_NODE, Empty);
    forall s: nat | IsFull(t', s) ensures IsFull(t, s) && s != hole && t'.slots[s] == t.slots[s] {}
    forall s: nat, q: nat | IsFull(t', s) && q < Cap(t') && OnPath(keys, t', s, q) ensures t'.control[q] != Empty {
      assert OnPath(keys, t, s, q);
      PathCrosses(keys, t, s, hole, cursor);
    }
    ClosedEntries(t, hole);
  }

  lemma ClosedEntries(t: Table, hole: nat)
    requires Shaped(t) && hole < Cap(t)
    ensures Entries(Put(t, hole, NO_NODE, Empty)) == EntriesBut(t, hole)
  {
    var t' := Put(t, hole, NO_NODE, Empty);
    forall x | x in Entries(t') ensures x in EntriesBut(t, hole) {
      var s: nat :| s < Cap(t') && IsFull(t', s) && t'.slots[s] == x;
      assert s != hole && IsFull(t, s);
    }
    forall x | x in EntriesBut(t, hole) ensures x in Entries(t') {
      var s: nat :| s < Cap(t) && s != hole && IsFull(t, s) && t.slots[s] == x;
      assert IsFull(t', s);
    }
  }
}
