/** The keyless leaf index: an open-addressing table of node ids whose keys live in the arena.
    Each method takes the arena's live leaves as `keys`. */
module LeafIndex {
  import opened Bits
  import opened Common
  import opened LeafTable

  /** std::bit_ceil. */
  function BitCeil(x: nat): (r: nat)
    ensures PowerOfTwo(r)
  {
    if x <= 1 then assert Pow2(0) == 1; 1 else Pow2(BitWidth(x - 1))
  }

  lemma BitCeilBounds(x: nat)
    ensures x <= BitCeil(x)
  {
    if x > 1 { BitWidthBounds(x - 1); }
  }

  function Blank(cap: nat): Table {
    Table(seq(cap, _ => NO_NODE), seq(cap, _ => Empty))
  }

  lemma {:induction false} BlankCount(cap: nat)
    ensures Count(seq(cap, _ => Empty), Full) == 0 && Count(seq(cap, _ => Empty), Deleted) == 0
    decreases cap
  {
    if cap > 0 {
      var cs := seq(cap, _ => Empty);
      assert cs[1..] == seq(cap - 1, _ => Empty);
      BlankCount(cap - 1);
    }
  }

  /** Place one entry in a table under construction: Rehash's inner loop. */
  method Reinsert(keys: Keys, t: Table, id: NodeId) returns (t': Table)
    requires Sound(keys, t) && id in keys.hashes && id !in Entries(t)
    requires Count(t.control, Full) < Cap(t) && Count(t.control, Deleted) == 0
    ensures Sound(keys, t') && Cap(t') == Cap(t) == |t'.control| && Entries(t') == Entries(t) + {id}
    ensures Count(t'.control, Full) == Count(t.control, Full) + 1 && Count(t'.control, Deleted) == 0
  {
    hide Home, PowerOfTwo, Count, Entries;
    var cap := |t.slots|;
    ghost var e := EmptySlot(t);
    var home := Home(keys, keys.hashes[id], cap);
    var slot: nat := home;
    while t.control[slot] == Full
      invariant slot < cap && Dist(home, slot, cap) <= Dist(home, e, cap)
      invariant PathFull(keys, t, keys.hashes[id], slot)
      decreases Dist(home, e, cap) - Dist(home, slot, cap)
    {
      slot := Next(slot, cap);
    }
    PutCounts(t, slot, id);
    PutSoundAt(keys, t, slot, id);
    t' := Put(t, slot, id, Full);
  }

  class KeylessLeafIndex {
    var slots: seq<NodeId>
    var control: seq<Control>
    var size: nat
    var tombstones: nat
    /** How often the table was rebuilt. */
    ghost var rehashes: nat

    ghost function View(): Table
      reads this
    { Table(slots, control) }

    /** The load bound keeps an empty slot in every table. */
    ghost predicate Valid(keys: Keys)
      reads this
    {
      && Sound(keys, View())
      && |slots| >= 16
      && size == Count(control, Full)
      && tombstones == Count(control, Deleted)
      && (size + tombstones) * 10 < |slots| * 8
    }

    ghost function Ids(): set<NodeId>
      requires |slots| == |control|
      reads this
    { Entries(View()) }

    constructor (keys: Keys)
      ensures Valid(keys) && Ids() == {} && |slots| == 16
    {
      slots := seq(16, _ => NO_NODE);
      control := seq(16, _ => Empty);
      size, tombstones, rehashes := 0, 0, 0;
      new;
      BlankCount(16);
      assert PowerOfTwo(16) by { assert Pow2(4) == 16; }
    }

    /** Forget every entry. */
    method Clear(keys: Keys, capacity: nat)
      modifies this`slots, this`control, this`size, this`tombstones
      ensures Valid(keys) && Ids() == {} && |slots| == if BitCeil(capacity) <= 16 then 16 else BitCeil(capacity)
    {
      hide BitCeil, Sound, Count, Entries;
      var cap := if BitCeil(capacity) <= 16 then 16 else BitCeil(capacity);
      BlankSound(keys, capacity);
      slots, control, size, tombstones := seq(cap, _ => NO_NODE), seq(cap, _ => Empty), 0, 0;
      assert View() == Blank(cap);
    }

    /** Hits exactly when some indexed live leaf has the hash. */
    method Find(keys: Keys, hash: Hash) returns (r: Option<NodeId>)
      requires Valid(keys)
      ensures r.Some? ==> r.value in Ids() && keys.hashes[r.value] == hash
      ensures r.None? ==> forall id | id in Ids() :: keys.hashes[id] != hash
    {
      hide Home, PowerOfTwo, Count;
      ghost var t := View();
      var cap := |slots|;
      var home := Home(keys, hash, cap);
      var slot: nat := home;
      var probes: nat := 0;
      while probes < cap
        invariant 0 <= probes <= cap && slot < cap
        invariant probes < cap ==> Dist(home, slot, cap) == probes
        invariant forall q: nat | q < cap && Dist(home, q, cap) < probes ::
                    t.control[q] != Empty && (IsFull(t, q) ==> keys.hashes[t.slots[q]] != hash)
      {
        if control[slot] == Empty {
          MissAt(keys, t, hash, slot);
          return None;
        }
        if control[slot] == Full {
          var id := slots[slot];
          assert IsFull(t, slot);
          if id in keys.hashes && keys.hashes[id] == hash { return Some(id); }
        }
        slot := Next(slot, cap);
        probes := probes + 1;
      }
      forall id | id in Ids() ensures keys.hashes[id] != hash {
        var s: nat :| s < cap && IsFull(t, s) && t.slots[s] == id;
        assert Dist(home, s, cap) < probes;
      }
      return None;
    }

    /** First empty slot from the home of a hash; also the first deleted one before it. */
    method FreeSlot(keys: Keys, hash: Hash) returns (destination: nat, reused: bool)
      requires Sound(keys, View()) && Count(control, Full) + Count(control, Deleted) < |slots|
      ensures destination < |slots|
      ensures control[destination] == if reused then Deleted else Empty
      ensures PathFull(keys, View(), hash, destination)
    {
      hide Home, PowerOfTwo, Count, Entries;
      ghost var t := View();
      ghost var e := EmptySlot(t);
      var cap := |slots|;
      var home := Home(keys, hash, cap);
      var slot: nat := home;
      var tombstone: nat := cap;
      while control[slot] != Empty
        invariant slot < cap && Dist(home, slot, cap) <= Dist(home, e, cap)
        invariant PathFull(keys, t, hash, slot)
        invariant tombstone == cap || (tombstone < cap && control[tombstone] == Deleted && PathFull(keys, t, hash, tombstone))
        decreases Dist(home, e, cap) - Dist(home, slot, cap)
      {
        if control[slot] == Deleted && tombstone == cap { tombstone := slot; }
        slot := Next(slot, cap);
      }
      if tombstone != cap { return tombstone, true; }
      return slot, false;
    }

    /** Rebuild the table at the given capacity, dropping deleted slots. */
    method Rehash(keys: Keys, capacity: nat)
      requires Sound(keys, View()) && size == Count(control, Full)
      requires size < BitCeil(capacity) || size < 16
      modifies this
      ensures Sound(keys, View()) && Ids() == old(Ids())
      ensures |slots| == if BitCeil(capacity) <= 16 then 16 else BitCeil(capacity)
      ensures size == old(size) == Count(control, Full) && tombstones == 0 == Count(control, Deleted) && rehashes == old(rehashes) + 1
    {
      hide Home, PowerOfTwo, Count, Entries, BitCeil, Sound;
      var cap := if BitCeil(capacity) <= 16 then 16 else BitCeil(capacity);
      ghost var t := View();
      SoundLengths(keys, t);
      BlankSound(keys, capacity);
      var fresh' := Blank(cap);
      var n: nat := 0;
      CountPrefix(control, 0);
      for i := 0 to |slots|
        invariant |slots| == |control| && View() == t && size == old(size) && rehashes == old(rehashes)
        invariant Sound(keys, fresh') && |fresh'.slots| == cap == |fresh'.control|
        invariant Entries(fresh') == EntriesBefore(t, i)
        invariant n == Count(fresh'.control, Full) == Count(control[..i], Full) && Count(fresh'.control, Deleted) == 0
      {
        CountPrefix(control, i);
        EntriesBeforeStep(keys, t, i);
        if control[i] == Full && slots[i] in keys.hashes {
          CountPrefixBound(control, i + 1, Full);
          fresh' := Reinsert(keys, fresh', slots[i]);
          n := n + 1;
        }
      }
      assert control[..|slots|] == control;
      EntriesBeforeAll(t);
      slots, control, size, tombstones := fresh'.slots, fresh'.control, n, 0;
      rehashes := rehashes + 1;
    }

    /** Index a live leaf; the table grows or drops deleted slots when its load requires it. */
    method Insert(keys: Keys, hash: Hash, id: NodeId)
      requires Valid(keys) && id in keys.hashes && keys.hashes[id] == hash && id !in Ids()
      modifies this
      ensures Valid(keys) && Ids() == old(Ids()) + {id} && size == old(size) + 1
      ensures (old(size) + old(tombstones) + 1) * 10 < |old(slots)| * 8
              ==> |slots| == |old(slots)| && tombstones <= old(tombstones) && rehashes == old(rehashes)
      ensures (old(size) + old(tombstones) + 1) * 10 >= |old(slots)| * 8 ==> rehashes == old(rehashes) + 1
    {
      hide Home, PowerOfTwo, Count, Entries, BitCeil, Sound;
      SoundLengths(keys, View());
      if (size + tombstones + 1) * 10 >= |slots| * 8 {
        SoundCeil(keys, View());
        if (size + 1) * 10 < |slots| * 8 { Rehash(keys, |slots|); } else { Rehash(keys, |slots| * 2); }
      }
      SoundLengths(keys, View());
      var destination, reused := FreeSlot(keys, hash);
      ghost var t := View();
      PutCounts(t, destination, id);
      if reused { tombstones := tombstones - 1; }
      PutSoundAt(keys, t, destination, id);
      slots := slots[destination := id];
      control := control[destination := Full];
      size := size + 1;
    }

    /** Shift the cluster behind a deleted entry back over its slot. */
    method BackShift(keys: Keys, slot: nat)
      requires Sound(keys, View()) && slot < |slots| && control[slot] == Full && |slots| > 1
      requires Count(control, Full) + Count(control, Deleted) < |slots|
      modifies this`slots, this`control
      ensures size == old(size) && tombstones == old(tombstones) && |slots| == |old(slots)| == |control|
      ensures Sound(keys, View()) && Ids() == old(Ids()) - {old(slots[slot])}
      ensures Count(control, Full) == Count(old(control), Full) - 1
      ensures Count(control, Deleted) == Count(old(control), Deleted)
    {
      hide Home, PowerOfTwo, Count, Entries, EntriesBut, Holed, Sound;
      SoundLengths(keys, View());
      ghost var t0 := View();
      ghost var e := EmptySlot(t0);
      var cap := |slots|;
      var hole: nat := slot;
      var cursor: nat := Next(slot, cap);
      HoleOpens(keys, t0, slot);
      while control[cursor] != Empty
        invariant cap == |slots| == |control| && hole < cap && cursor < cap && control == old(control)
        invariant size == old(size) && tombstones == old(tombstones)
        invariant Holed(keys, View(), hole, cursor)
        invariant EntriesBut(View(), hole) == EntriesBut(t0, slot)
        invariant control[hole] == Full && Dist(hole, cursor, cap) <= Dist(hole, e, cap)
        decreases Dist(cursor, e, cap)
      {
        ghost var t := View();
        HoledKeys(keys, t, hole, cursor);
        var moves := false;
        if control[cursor] == Full {
          var home := Home(keys, keys.hashes[slots[cursor]], cap);
          MaskedIs(home, hole, cap);
          MaskedIs(home, cursor, cap);
          moves := MaskedDistance(home, hole, cap) < MaskedDistance(home, cursor, cap);
        }
        if moves {
          HoleMoves(keys, t, hole, cursor);
          assert control[hole := Full] == control;
          slots := slots[hole := slots[cursor]];
          hole := cursor;
        } else {
          HolePasses(keys, t, hole, cursor);
        }
        cursor := Next(cursor, cap);
      }
      HoleCloses(keys, View(), hole, cursor);
      HoleCounts(View(), hole);
      slots := slots[hole := NO_NODE];
      control := control[hole := Empty];
    }

    /** Remove the entry of a live leaf. */
    method Erase(keys: Keys, hash: Hash, id: NodeId) returns (erased: bool)
      requires Valid(keys) && (id in Ids() ==> keys.hashes[id] == hash)
      modifies this`slots, this`control, this`size
      ensures Valid(keys) && erased == (id in old(Ids())) && Ids() == old(Ids()) - {id}
      ensures size == old(size) - (if erased then 1 else 0) && tombstones == old(tombstones) && |slots| == |old(slots)|
    {
      hide Home, PowerOfTwo, Count;
      ghost var t := View();
      ghost var e := EmptySlot(t);
      var cap := |slots|;
      var home := Home(keys, hash, cap);
      var slot: nat := home;
      while control[slot] != Empty
        invariant View() == t && size == old(size) && tombstones == old(tombstones)
        invariant slot < cap && Dist(home, slot, cap) <= Dist(home, e, cap)
        invariant forall q: nat | q < cap && Dist(home, q, cap) < Dist(home, slot, cap) :: IsFull(t, q) ==> t.slots[q] != id
        decreases Dist(home, e, cap) - Dist(home, slot, cap)
      {
        if control[slot] == Full && slots[slot] == id {
          assert IsFull(t, slot);
          CountPositive(control, slot, Full);
          BackShift(keys, slot);
          size := size - 1;
          return true;
        }
        slot := Next(slot, cap);
      }
      AbsentAt(keys, t, hash, id, slot);
      return false;
    }

    /** Make room so that a block's insertions cannot rehash while the forest is modified. */
    method PrepareInsertions(keys: Keys, deletions: nat, additions: nat)
      requires Valid(keys)
      modifies this
      ensures Valid(keys) && Ids() == old(Ids()) && size == old(size)
      ensures (size + tombstones + additions + 1) * 10 <= |slots| * 8
      ensures rehashes == old(rehashes) + if (old(size) + old(tombstones) + additions + 1) * 10 <= |old(slots)| * 8 then 0 else 1
    {
      hide Home, PowerOfTwo, Count, Entries, Sound, BitCeil;
      var needed := size + tombstones + additions + 1;
      var capacityNeeded := (needed * 10 + 7) / 8;
      if capacityNeeded > |slots| {
        var liveNeeded := size + additions + 1;
        var liveCapacity := (liveNeeded * 10 + 7) / 8;
        var capacity := if |slots| >= liveCapacity then |slots| else liveCapacity;
        BitCeilBounds(capacity);
        Rehash(keys, capacity);
      }
    }
  }

  lemma CountPositive(cs: seq<Control>, i: nat, c: Control)
    requires i < |cs| && cs[i] == c
    ensures Count(cs, c) > 0
  {
    if i > 0 { CountPositive(cs[1..], i - 1, c); }
  }

  lemma HoledKeys(keys: Keys, t: Table, hole: nat, cursor: nat)
    requires Holed(keys, t, hole, cursor)
    ensures Shaped(t) && hole < Cap(t) && cursor < Cap(t) && hole != cursor
    ensures IsFull(t, cursor) ==> t.slots[cursor] in keys.hashes
  {}

  lemma HoleCounts(t: Table, hole: nat)
    requires |t.slots| == |t.control| && hole < Cap(t) && t.control[hole] == Full
    ensures var c := Put(t, hole, NO_NODE, Empty).control;
            Count(c, Full) == Count(t.control, Full) - 1 && Count(c, Deleted) == Count(t.control, Deleted)
  {
    CountUpdate(t.control, hole, Empty, Full);
    CountUpdate(t.control, hole, Empty, Deleted);
  }

  /** An empty slot on the probe path of its hash shows that an id is not indexed. */
  lemma AbsentAt(keys: Keys, t: Table, hash: Hash, id: NodeId, slot: nat)
    requires Sound(keys, t) && slot < Cap(t) && t.control[slot] == Empty
    requires id in Entries(t) ==> id in keys.hashes && keys.hashes[id] == hash
    requires var home := Home(keys, hash, Cap(t));
             forall q: nat | q < Cap(t) && Dist(home, q, Cap(t)) < Dist(home, slot, Cap(t)) :: IsFull(t, q) ==> t.slots[q] != id
    ensures id !in Entries(t)
  {
    hide Home, PowerOfTwo;
    forall s: nat | s < Cap(t) && IsFull(t, s) ensures t.slots[s] != id {
      assert !OnPath(keys, t, s, slot);
      assert t.slots[s] in Entries(t);
    }
  }

  /** Every slot before `d` on the probe path of the hash is occupied. */
  ghost predicate PathFull(keys: Keys, t: Table, hash: Hash, d: nat)
    requires Shaped(t) && d < Cap(t)
  {
    var home := Home(keys, hash, Cap(t));
    forall q: nat | q < Cap(t) && Dist(home, q, Cap(t)) < Dist(home, d, Cap(t)) :: t.control[q] != Empty
  }

  lemma PutSoundAt(keys: Keys, t: Table, d: nat, id: NodeId)
    requires Sound(keys, t) && d < Cap(t) && t.control[d] != Full && id in keys.hashes && id !in Entries(t)
    requires PathFull(keys, t, keys.hashes[id], d)
    ensures Sound(keys, Put(t, d, id, Full)) && Entries(Put(t, d, id, Full)) == Entries(t) + {id}
  {
    PutSound(keys, t, d, id);
  }

  lemma PutCounts(t: Table, d: nat, id: NodeId)
    requires |t.slots| == |t.control| && d < Cap(t) && t.control[d] != Full
    ensures var c := Put(t, d, id, Full).control;
            && Count(c, Full) == Count(t.control, Full) + 1
            && Count(c, Deleted) == Count(t.control, Deleted) - (if t.control[d] == Deleted then 1 else 0)
  {
    CountUpdate(t.control, d, Full, Full);
    CountUpdate(t.control, d, Full, Deleted);
  }

  lemma SoundLengths(keys: Keys, t: Table)
    requires Sound(keys, t)
    ensures |t.slots| == |t.control| && Shaped(t)
  {}

  lemma {:induction false} CountPrefix(cs: seq<Control>, i: nat)
    requires i <= |cs|
    ensures Count(cs[..0], Full) == 0
    ensures i < |cs| ==> Count(cs[..i + 1], Full) == Count(cs[..i], Full) + (if cs[i] == Full then 1 else 0)
    decreases i
  {
    if i < |cs| && i > 0 {
      assert cs[..i + 1][1..] == cs[1..][..i] && cs[..i][1..] == cs[1..][..i - 1];
      CountPrefix(cs[1..], i - 1);
    } else if i < |cs| {
      assert cs[..1][1..] == [];
    }
  }

  lemma {:induction false} CountPrefixBound(cs: seq<Control>, i: nat, c: Control)
    requires i <= |cs|
    ensures Count(cs[..i], c) <= Count(cs, c)
    decreases i
  {
    if i > 0 {
      assert cs[..i][1..] == cs[1..][..i - 1];
      CountPrefixBound(cs[1..], i - 1, c);
    }
  }

  /** The power of two of a sound table is its own ceiling. */
  lemma SoundCeil(keys: Keys, t: Table)
    requires Sound(keys, t)
    ensures BitCeil(Cap(t)) == Cap(t) && BitCeil(2 * Cap(t)) == 2 * Cap(t)
  {
    var k: nat :| Cap(t) == Pow2(k);
    CeilPow2(k);
    CeilPow2(k + 1);
  }

  lemma CeilPow2(k: nat)
    ensures BitCeil(Pow2(k)) == Pow2(k)
  {
    if k > 0 { WidthPow2(k); }
  }

  lemma {:induction false} WidthPow2(k: nat)
    ensures BitWidth(Pow2(k) - 1) == k
    decreases k
  {
    if k > 0 {
      WidthPow2(k - 1);
      assert (Pow2(k) - 1) / 2 == Pow2(k - 1) - 1;
    }
  }

  lemma BlankSound(keys: Keys, capacity: nat)
    ensures var cap := if BitCeil(capacity) <= 16 then 16 else BitCeil(capacity);
            && Sound(keys, Blank(cap)) && Entries(Blank(cap)) == {}
            && Count(Blank(cap).control, Full) == 0 && Count(Blank(cap).control, Deleted) == 0
  {
    var cap := if BitCeil(capacity) <= 16 then 16 else BitCeil(capacity);
    BlankCount(cap);
    assert PowerOfTwo(16) by { assert Pow2(4) == 16; }
  }

  ghost function EntriesBefore(t: Table, i: nat): set<NodeId>
    requires |t.slots| == |t.control|
  { set s: nat | s < Cap(t) && s < i && IsFull(t, s) :: t.slots[s] }

  lemma EntriesBeforeStep(keys: Keys, t: Table, i: nat)
    requires Sound(keys, t) && i < Cap(t)
    ensures EntriesBefore(t, 0) == {}
    ensures EntriesBefore(t, i + 1) == EntriesBefore(t, i) + (if IsFull(t, i) then {t.slots[i]} else {})
    ensures IsFull(t, i) ==> t.slots[i] !in EntriesBefore(t, i) && t.slots[i] in keys.hashes
  {
    forall x | x in EntriesBefore(t, i) ensures x in EntriesBefore(t, i + 1) {
      var s: nat :| s < Cap(t) && s < i && IsFull(t, s) && t.slots[s] == x;
      assert s < i + 1;
    }
    forall x | x in EntriesBefore(t, i + 1) ensures x in EntriesBefore(t, i) || (IsFull(t, i) && x == t.slots[i]) {
      var s: nat :| s < Cap(t) && s < i + 1 && IsFull(t, s) && t.slots[s] == x;
      assert s < i || s == i;
    }
    if IsFull(t, i) { assert t.slots[i] in EntriesBefore(t, i + 1); }
  }

  lemma EntriesBeforeAll(t: Table)
    requires |t.slots| == |t.control|
    ensures EntriesBefore(t, Cap(t)) == Entries(t)
  {}

  /** An empty slot on the probe path of a hash ends its search. */
  lemma MissAt(keys: Keys, t: Table, hash: Hash, slot: nat)
    requires Sound(keys, t) && slot < Cap(t) && t.control[slot] == Empty
    requires var home := Home(keys, hash, Cap(t));
             forall q: nat | q < Cap(t) && Dist(home, q, Cap(t)) < Dist(home, slot, Cap(t)) ::
               IsFull(t, q) ==> keys.hashes[t.slots[q]] != hash
    ensures forall id | id in Entries(t) :: keys.hashes[id] != hash
  {
    hide Home, PowerOfTwo;
    var home := Home(keys, hash, Cap(t));
    forall id | id in Entries(t) ensures keys.hashes[id] != hash {
      var s: nat :| s < Cap(t) && IsFull(t, s) && t.slots[s] == id;
      assert !OnPath(keys, t, s, slot);
    }
  }
}
