/** Starting from a validated cache (LoadValidatedStartupCache in src/forest.cpp): the index slots
    and free list saved at an anchor, patched with the runs and dirty records written since. */
module StartupCache {
  import opened Common
  import opened Records
  import opened Ordered
  import opened DeltaRuns
  import opened RunMerge
  import opened LeafTable
  import opened LeafIndex
  import opened Packed
  import opened Repair
  import opened Layering
  import opened Windows
  import Bits
  import Online
  import Validator

  datatype CacheEntry = CacheEntry(id: NodeId, slot: nat)

  /** What was saved when the first `runs` runs were the newest: the index entries with their
      slots, and the free ids. */
  datatype Cache = Cache(runs: nat, next: nat, capacity: nat, entries: seq<CacheEntry>, freeIds: seq<NodeId>)

  // ---- records since the anchor ---------------------------------------------------------

  function AnchorLayers(l: Layers, runs: nat): Layers
    requires runs <= |l.runs|
  { Layers(map[], l.runs[..runs], l.base, l.blank) }

  /** Some layer above the anchor holds a record of this id. */
  predicate ChangedSince(l: Layers, runs: nat, id: NodeId)
    requires runs <= |l.runs|
  { id in l.dirty || LookupAll(l.runs[runs..], id).Some? }

  lemma {:induction false} LookupSplit(runs: seq<Run>, first: nat, id: NodeId)
    requires first <= |runs|
    ensures LookupAll(runs, id) == if LookupAll(runs[first..], id).Some? then LookupAll(runs[first..], id) else LookupAll(runs[..first], id)
    decreases |runs|
  {
    hide Lookup;
    if first == |runs| {
      assert runs[first..] == [] && runs[..first] == runs;
    } else {
      var last := |runs| - 1;
      assert runs[first..][..last - first] == runs[..last][first..] && runs[first..][last - first] == runs[last];
      assert runs[..last][..first] == runs[..first];
      LookupSplit(runs[..last], first, id);
    }
  }

  lemma ReadSince(l: Layers, runs: nat, id: NodeId)
    requires runs <= |l.runs|
    ensures !ChangedSince(l, runs, id) ==> Read(l, id) == Read(AnchorLayers(l, runs), id)
    ensures id !in l.dirty && LookupAll(l.runs[runs..], id).Some? ==> Read(l, id) == LookupAll(l.runs[runs..], id).value
  {
    hide LookupAll;
    LookupSplit(l.runs, runs, id);
  }

  /** Every id given out since the anchor was written since, or is free. */
  ghost predicate Covered(l: Layers, cache: Cache, n: nat)
    requires cache.runs <= |l.runs|
  {
    forall id: NodeId | cache.next <= id < n && !ChangedSince(l, cache.runs, id) :: Read(l, id).kind == FREE
  }

  // ---- what was saved -------------------------------------------------------------------

  ghost predicate ListsTable(entries: seq<CacheEntry>, t: Table)
    requires |t.slots| == |t.control|
  {
    && (forall i | 0 <= i < |entries| :: IsFull(t, entries[i].slot) && t.slots[entries[i].slot] == entries[i].id)
    && (forall i, j | 0 <= i < j < |entries| :: entries[i].slot < entries[j].slot)
    && (forall s: nat | s < |t.slots| :: t.control[s] == Empty || (t.control[s] == Full && CacheEntry(t.slots[s], s) in entries))
  }

  function AnchorKeys(l: Layers, cache: Cache, bucket: Hash -> nat): Keys
    requires cache.runs <= |l.runs|
  { KeysOf(View(AnchorLayers(l, cache.runs), cache.next), bucket) }

  function KeysNow(l: Layers, n: nat, bucket: Hash -> nat): Keys { KeysOf(View(l, n), bucket) }

  /** The cache holds the index, below its load bound, and the free list of the anchor. */
  ghost predicate Saved(l: Layers, cache: Cache, bucket: Hash -> nat, t: Table) {
    && cache.runs <= |l.runs| && Sound(AnchorKeys(l, cache, bucket), t) && cache.capacity == Cap(t) >= 16
    && Entries(t) == AnchorKeys(l, cache, bucket).hashes.Keys && ListsTable(cache.entries, t)
    && Count(t.control, Full) * 10 < cache.capacity * 8
    && StrictlySorted(cache.freeIds)
    && (forall id: NodeId :: id in cache.freeIds <==> id in FreeIds(AnchorLayers(l, cache.runs), cache.next))
  }

  // ---- loading the slots ----------------------------------------------------------------

  /** An entry whose record changed since the anchor is dropped. */
  predicate Dropped(l: Layers, cache: Cache, n: nat, id: NodeId)
    requires cache.runs <= |l.runs|
  { id >= n || ChangedSince(l, cache.runs, id) }

  /** The table with dropped entries marked deleted, up to slot `m`. */
  function Masked(l: Layers, cache: Cache, n: nat, t: Table, m: nat): (r: Table)
    requires cache.runs <= |l.runs| && |t.slots| == |t.control|
    ensures |r.slots| == |r.control| == |t.slots|
    ensures forall s: nat | s < |t.slots| ::
              && r.control[s] == (if s >= m || t.control[s] != Full then Empty else if Dropped(l, cache, n, t.slots[s]) then Deleted else Full)
              && r.slots[s] == (if s >= m || t.control[s] != Full || Dropped(l, cache, n, t.slots[s]) then NO_NODE else t.slots[s])
  {
    Table(seq(|t.slots|, s requires 0 <= s < |t.slots| =>
                if s >= m || t.control[s] != Full || Dropped(l, cache, n, t.slots[s]) then NO_NODE else t.slots[s]),
          seq(|t.slots|, s requires 0 <= s < |t.slots| =>
                if s >= m || t.control[s] != Full then Empty else if Dropped(l, cache, n, t.slots[s]) then Deleted else Full))
  }

  function EntryIds(entries: seq<CacheEntry>): set<NodeId> { set e | e in entries :: e.id }

  /** Ids and slots are in range, and none comes twice. */
  predicate EntriesOk(cache: Cache) { PrefixOk(cache, |cache.entries|) }

  predicate PrefixOk(cache: Cache, k: nat)
    requires k <= |cache.entries|
  {
    && (forall i | 0 <= i < k :: cache.entries[i].id < cache.next && cache.entries[i].slot < cache.capacity)
    && (forall i, j | 0 <= i < j < k :: cache.entries[i].id != cache.entries[j].id && cache.entries[i].slot != cache.entries[j].slot)
  }

  /** The first k entries are in their slots, dropped ones as deleted, and nothing else is. */
  ghost predicate LaidOut(l: Layers, cache: Cache, n: nat, t: Table, k: nat)
    requires cache.runs <= |l.runs| && k <= |cache.entries|
  {
    && |t.slots| == |t.control| == cache.capacity
    && (forall i | 0 <= i < k ::
          var e := cache.entries[i];
          e.slot < cache.capacity && t.control[e.slot] == (if Dropped(l, cache, n, e.id) then Deleted else Full)
          && t.slots[e.slot] == if Dropped(l, cache, n, e.id) then NO_NODE else e.id)
    && (forall s: nat | s < cache.capacity && (forall i | 0 <= i < k :: cache.entries[i].slot != s) :: t.control[s] == Empty && t.slots[s] == NO_NODE)
  }

  /** Place the saved entries; anything out of range, repeated or colliding is a miss. */
  method LoadSlots(l: Layers, n: nat, cache: Cache) returns (r: Option<Table>, seen: set<NodeId>)
    requires cache.runs <= |l.runs|
    ensures r.Some? <==> EntriesOk(cache)
    ensures r.Some? ==> LaidOut(l, cache, n, r.value, |cache.entries|) && seen == EntryIds(cache.entries)
  {
    hide Dropped, LaidOut, PrefixOk, EntryIds;
    var table := Blank(cache.capacity);
    LaidNothing(l, cache, n);
    seen := {};
    var i: nat := 0;
    while i < |cache.entries|
      invariant i <= |cache.entries| && LaidOut(l, cache, n, table, i) && PrefixOk(cache, i) && seen == EntryIds(cache.entries[..i])
    {
      var entry := cache.entries[i];
      LaidSizes(l, cache, n, table, i);
      EntryRefused(l, cache, n, table, i);
      if entry.id >= cache.next || entry.id in seen { return None, seen; }
      if entry.slot >= |table.slots| || table.control[entry.slot] != Empty { return None, seen; }
      LaidStep(l, cache, n, table, i);
      table := if Dropped(l, cache, n, entry.id) then Table(table.slots, table.control[entry.slot := Deleted])
               else Table(table.slots[entry.slot := entry.id], table.control[entry.slot := Full]);
      seen := seen + {entry.id};
      SeenMore(cache.entries, i);
      i := i + 1;
    }
    assert cache.entries[..i] == cache.entries;
    return Some(table), seen;
  }

  lemma LaidNothing(l: Layers, cache: Cache, n: nat)
    requires cache.runs <= |l.runs|
    ensures LaidOut(l, cache, n, Blank(cache.capacity), 0) && PrefixOk(cache, 0) && EntryIds(cache.entries[..0]) == {}
  {}

  lemma LaidSizes(l: Layers, cache: Cache, n: nat, t: Table, i: nat)
    requires cache.runs <= |l.runs| && i <= |cache.entries| && LaidOut(l, cache, n, t, i)
    ensures |t.slots| == |t.control| == cache.capacity
  {}

  lemma SeenMore(entries: seq<CacheEntry>, i: nat)
    requires i < |entries|
    ensures EntryIds(entries[..i + 1]) == EntryIds(entries[..i]) + {entries[i].id}
  {
    assert entries[..i + 1] == entries[..i] + [entries[i]];
  }

  /** An entry is refused exactly when it cannot belong to a good list. */
  lemma EntryRefused(l: Layers, cache: Cache, n: nat, t: Table, i: nat)
    requires cache.runs <= |l.runs| && i < |cache.entries| && LaidOut(l, cache, n, t, i) && PrefixOk(cache, i)
    ensures var e := cache.entries[i];
            var good := e.id < cache.next && e.id !in EntryIds(cache.entries[..i]) && e.slot < cache.capacity && t.control[e.slot] == Empty;
            (good ==> PrefixOk(cache, i + 1)) && (!good ==> !EntriesOk(cache))
  {
    hide Dropped;
    SeenAt(cache.entries, i);
    var e := cache.entries[i];
    if e.slot < cache.capacity && t.control[e.slot] != Empty { var j :| 0 <= j < i && cache.entries[j].slot == e.slot; }
  }

  lemma SeenAt(entries: seq<CacheEntry>, i: nat)
    requires i < |entries|
    ensures entries[i].id in EntryIds(entries[..i]) <==> exists j :: 0 <= j < i && entries[j].id == entries[i].id
  {
    if j :| 0 <= j < i && entries[j].id == entries[i].id { assert entries[..i][j] == entries[j]; }
  }

  lemma LaidStep(l: Layers, cache: Cache, n: nat, t: Table, i: nat)
    requires cache.runs <= |l.runs| && i < |cache.entries| && LaidOut(l, cache, n, t, i)
    requires cache.entries[i].slot < |t.slots| && t.control[cache.entries[i].slot] == Empty
    ensures forall j | 0 <= j < i :: cache.entries[j].slot != cache.entries[i].slot
    ensures var entry := cache.entries[i];
            LaidOut(l, cache, n, if Dropped(l, cache, n, entry.id) then Table(t.slots, t.control[entry.slot := Deleted])
                                 else Table(t.slots[entry.slot := entry.id], t.control[entry.slot := Full]), i + 1)
  {
    hide Dropped;
    var entry := cache.entries[i];
    assert t.slots[entry.slot] == NO_NODE;
  }

  /** What was saved at the anchor loads, as the saved table with the changed entries deleted. */
  lemma SavedLoads(l: Layers, n: nat, cache: Cache, bucket: Hash -> nat, t: Table)
    requires Saved(l, cache, bucket, t)
    ensures EntriesOk(cache)
    ensures forall r | LaidOut(l, cache, n, r, |cache.entries|) :: r == Masked(l, cache, n, t, cache.capacity)
  {
    hide Saved, LaidOut, Masked;
    SavedLengths(l, cache, bucket, t);
    forall i | 0 <= i < |cache.entries| ensures cache.entries[i].id < cache.next && cache.entries[i].slot < cache.capacity { SavedEntry(l, cache, bucket, t, i); }
    forall i, j | 0 <= i < j < |cache.entries| ensures cache.entries[i].id != cache.entries[j].id && cache.entries[i].slot != cache.entries[j].slot {
      SavedApart(l, cache, bucket, t, i, j);
    }
    forall r | LaidOut(l, cache, n, r, |cache.entries|) ensures r == Masked(l, cache, n, t, cache.capacity) { LaidMasked(l, n, cache, bucket, t, r); }
  }

  lemma LaidMasked(l: Layers, n: nat, cache: Cache, bucket: Hash -> nat, t: Table, r: Table)
    requires Saved(l, cache, bucket, t) && LaidOut(l, cache, n, r, |cache.entries|)
    ensures cache.runs <= |l.runs| && r == Masked(l, cache, n, t, cache.capacity)
  {
    hide Sound, Entries, Count, FreeIds, AnchorKeys, Dropped;
    SavedLengths(l, cache, bucket, t);
    var m := Masked(l, cache, n, t, cache.capacity);
    forall s: nat | s < cache.capacity ensures r.control[s] == m.control[s] && r.slots[s] == m.slots[s] {
      if t.control[s] == Full {
        assert CacheEntry(t.slots[s], s) in cache.entries;
        var i :| 0 <= i < |cache.entries| && cache.entries[i] == CacheEntry(t.slots[s], s);
      } else {
        forall i | 0 <= i < |cache.entries| ensures cache.entries[i].slot != s { assert IsFull(t, cache.entries[i].slot); }
      }
    }
    assert r.control == m.control && r.slots == m.slots;
  }

  /** Every saved entry is a leaf of the anchor. */
  lemma SavedEntry(l: Layers, cache: Cache, bucket: Hash -> nat, t: Table, i: nat)
    requires Saved(l, cache, bucket, t) && i < |cache.entries|
    ensures var e := cache.entries[i]; e.id < cache.next && e.slot < cache.capacity
    ensures Read(AnchorLayers(l, cache.runs), cache.entries[i].id).kind == LEAF
  {
    hide Read, Reachable, Distinct, FreeIds, PowerOfTwo, Count;
    var e := cache.entries[i];
    assert IsFull(t, e.slot) && t.slots[e.slot] == e.id;
  }

  lemma SavedApart(l: Layers, cache: Cache, bucket: Hash -> nat, t: Table, i: nat, j: nat)
    requires Saved(l, cache, bucket, t) && i < j < |cache.entries|
    ensures cache.entries[i].id != cache.entries[j].id && cache.entries[i].slot != cache.entries[j].slot
  {
    hide Read, Reachable, FreeIds, PowerOfTwo, Count, AnchorKeys;
    assert IsFull(t, cache.entries[i].slot) && IsFull(t, cache.entries[j].slot);
  }

  /** The leaves still indexed after the drop: those unchanged since the anchor. */
  ghost function Unchanged(l: Layers, cache: Cache, n: nat, keys: Keys): set<NodeId>
    requires cache.runs <= |l.runs|
  { set id | id in keys.hashes && id < cache.next && !ChangedSince(l, cache.runs, id) }

  lemma KeptLeaf(l: Layers, cache: Cache, n: nat, bucket: Hash -> nat, id: NodeId)
    requires cache.runs <= |l.runs| && !Dropped(l, cache, n, id)
    ensures id in AnchorKeys(l, cache, bucket).hashes <==> id in KeysNow(l, n, bucket).hashes && id < cache.next
    ensures id in AnchorKeys(l, cache, bucket).hashes ==> KeysNow(l, n, bucket).hashes[id] == AnchorKeys(l, cache, bucket).hashes[id]
  {
    hide Read, ChangedSince;
    ReadSince(l, cache.runs, id);
  }

  lemma MaskedFull(l: Layers, cache: Cache, n: nat, bucket: Hash -> nat, t: Table, s: nat)
    requires Saved(l, cache, bucket, t) && IsFull(Masked(l, cache, n, t, Cap(t)), s)
    ensures IsFull(t, s) && t.slots[s] == Masked(l, cache, n, t, Cap(t)).slots[s] && !Dropped(l, cache, n, t.slots[s])
    ensures t.slots[s] in AnchorKeys(l, cache, bucket).hashes && t.slots[s] in KeysNow(l, n, bucket).hashes
  {
    hide Read, ChangedSince, FreeIds, Reachable, Distinct, KeysOf;
    KeptLeaf(l, cache, n, bucket, t.slots[s]);
  }

  /** Marking entries deleted strands nothing. */
  lemma MaskedSound(l: Layers, cache: Cache, n: nat, bucket: Hash -> nat, t: Table)
    requires Saved(l, cache, bucket, t)
    ensures Sound(KeysNow(l, n, bucket), Masked(l, cache, n, t, Cap(t)))
    ensures Entries(Masked(l, cache, n, t, Cap(t))) == Unchanged(l, cache, n, KeysNow(l, n, bucket))
  {
    hide Read, ChangedSince, FreeIds, KeysOf, PowerOfTwo, Home, ListsTable;
    var r, keys, was := Masked(l, cache, n, t, Cap(t)), KeysNow(l, n, bucket), AnchorKeys(l, cache, bucket);
    SameBucket(l, cache, n, bucket);
    forall s: nat | IsFull(r, s) ensures r.slots[s] in keys.hashes { MaskedFull(l, cache, n, bucket, t, s); }
    forall s: nat, u: nat | IsFull(r, s) && IsFull(r, u) && r.slots[s] == r.slots[u] ensures s == u {
      MaskedFull(l, cache, n, bucket, t, s);
      MaskedFull(l, cache, n, bucket, t, u);
    }
    forall s: nat, q: nat | IsFull(r, s) && q < Cap(r) && OnPath(keys, r, s, q) ensures r.control[q] != Empty {
      MaskedFull(l, cache, n, bucket, t, s);
      KeptLeaf(l, cache, n, bucket, t.slots[s]);
      SameHome(was, keys, t, s);
      assert OnPath(was, t, s, q);
      InUse(l, cache, bucket, t, q);
    }
    MaskedEntries(l, cache, n, bucket, t);
  }

  lemma SameBucket(l: Layers, cache: Cache, n: nat, bucket: Hash -> nat)
    requires cache.runs <= |l.runs|
    ensures KeysNow(l, n, bucket).bucket == AnchorKeys(l, cache, bucket).bucket == bucket
  {}

  lemma InUse(l: Layers, cache: Cache, bucket: Hash -> nat, t: Table, q: nat)
    requires Saved(l, cache, bucket, t) && q < Cap(t) && t.control[q] != Empty
    ensures t.control[q] == Full
  {
    hide Read, FreeIds, KeysOf, Sound;
  }

  lemma MaskedEntries(l: Layers, cache: Cache, n: nat, bucket: Hash -> nat, t: Table)
    requires Saved(l, cache, bucket, t)
    ensures Entries(Masked(l, cache, n, t, Cap(t))) == Unchanged(l, cache, n, KeysNow(l, n, bucket))
  {
    hide Read, ChangedSince, FreeIds, KeysOf, PowerOfTwo, Home, Reachable, Distinct, ListsTable;
    var r, keys := Masked(l, cache, n, t, Cap(t)), KeysNow(l, n, bucket);
    forall x | x in Entries(r) ensures x in Unchanged(l, cache, n, keys) {
      var s: nat :| s < Cap(r) && IsFull(r, s) && r.slots[s] == x;
      MaskedFull(l, cache, n, bucket, t, s);
      KeptLeaf(l, cache, n, bucket, x);
    }
    forall x | x in Unchanged(l, cache, n, keys) ensures x in Entries(r) {
      KeyBelow(l, n, bucket, x);
      KeptLeaf(l, cache, n, bucket, x);
      assert x in Entries(t);
      var s: nat :| s < Cap(t) && IsFull(t, s) && t.slots[s] == x;
      assert IsFull(r, s) && r.slots[s] == x;
    }
  }

  lemma KeyBelow(l: Layers, n: nat, bucket: Hash -> nat, id: NodeId)
    ensures id in KeysNow(l, n, bucket).hashes <==> id < n && Read(l, id).kind == LEAF
    ensures id in KeysNow(l, n, bucket).hashes ==> KeysNow(l, n, bucket).hashes[id] == Read(l, id).hash
  {
    hide Read;
  }

  // ---- patching -------------------------------------------------------------------------

  ghost predicate Whole(t: Table)
    requires |t.slots| == |t.control|
  { forall s: nat | s < |t.slots| :: t.control[s] != Deleted }

  /** Put an entry into the first empty slot from its home; a full table is a miss. */
  method InsertValidationHome(keys: Keys, t: Table, hash: Hash, id: NodeId) returns (r: Option<Table>)
    requires Sound(keys, t) && Whole(t) && id in keys.hashes && keys.hashes[id] == hash && id !in Entries(t)
    ensures r.Some? <==> exists e: nat :: e < Cap(t) && t.control[e] == Empty
    ensures r.Some? ==> Sound(keys, r.value) && Cap(r.value) == Cap(t) && Whole(r.value) && Entries(r.value) == Entries(t) + {id}
  {
    hide Home, PowerOfTwo, Entries, Reachable, Distinct, Keyed;
    var cap := |t.slots|;
    var home := Home(keys, hash, cap);
    var slot: nat := home;
    var probes: nat := 0;
    while probes < cap
      invariant probes <= cap && slot < cap && (probes < cap ==> Dist(home, slot, cap) == probes)
      invariant forall q: nat | q < cap && Dist(home, q, cap) < probes :: t.control[q] != Empty
    {
      if t.control[slot] == Empty {
        PutSoundAt(keys, t, slot, id);
        return Some(Put(t, slot, id, Full));
      }
      slot := LeafTable.Next(slot, cap);
      probes := probes + 1;
    }
    return None;
  }

  /** These records put the id into the index. */
  ghost predicate Placed(records: Run, skip: set<NodeId>, id: NodeId) {
    Lookup(records, id).Some? && Lookup(records, id).value.kind == LEAF && id !in skip
  }

  ghost predicate PlacedOk(keys: Keys, t: Table, records: Run, skip: set<NodeId>)
    requires |t.slots| == |t.control|
  {
    forall id | Placed(records, skip, id) :: id in keys.hashes && keys.hashes[id] == Lookup(records, id).value.hash && id !in Entries(t)
  }

  /** The free ids after the first k records. */
  ghost predicate Patched(records: Run, k: nat, free: set<NodeId>, free': set<NodeId>)
    requires k <= |records|
  {
    forall id: NodeId :: id in free' <==> if Lookup(records[..k], id).Some? then Lookup(records[..k], id).value.kind == FREE else id in free
  }

  ghost predicate Indexed(records: Run, k: nat, skip: set<NodeId>, entries: set<NodeId>, entries': set<NodeId>)
    requires k <= |records|
  {
    forall id: NodeId :: id in entries' <==> id in entries || Placed(records[..k], skip, id)
  }

  /** Go over the records of one layer: mark free ids, and index the leaves not to be skipped. */
  method Patch(keys: Keys, t: Table, free: set<NodeId>, records: Run, skip: set<NodeId>) returns (r: Option<Table>, free': set<NodeId>)
    requires Sound(keys, t) && Whole(t) && SortedRun(records) && PlacedOk(keys, t, records, skip)
    ensures r.Some? ==> Sound(keys, r.value) && Cap(r.value) == Cap(t) && Whole(r.value)
                        && Indexed(records, |records|, skip, Entries(t), Entries(r.value)) && Patched(records, |records|, free, free')
    ensures r.None? ==> forall all | Indexed(records, |records|, skip, Entries(t), all) :: |all| > Cap(t)
  {
    hide Sound, Whole, Entries, Lookup, SortedRun;
    var table := t;
    free' := free;
    var k: nat := 0;
    SoundLengths(keys, t);
    PatchNothing(records, skip, free, t);
    while k < |records|
      invariant k <= |records| && Sound(keys, table) && |table.slots| == |table.control| == |t.slots| && Whole(table)
      invariant Indexed(records, k, skip, Entries(t), Entries(table)) && Patched(records, k, free, free')
    {
      var entry := records[k];
      ghost var was := free';
      free' := if entry.record.kind == FREE then free' + {entry.id} else free' - {entry.id};
      PatchedStep(records, k, free, was);
      IndexedStep(records, k, skip, Entries(t), Entries(table));
      if entry.record.kind == LEAF && entry.id !in skip {
        PlacedAt(keys, t, table, records, k, skip);
        var one := InsertValidationHome(keys, table, entry.record.hash, entry.id);
        if one.None? {
          forall all | Indexed(records, |records|, skip, Entries(t), all) ensures |all| > Cap(t) { Overfull(keys, t, table, records, k, skip, all); }
          return None, free';
        }
        table := one.value;
        SoundLengths(keys, table);
      }
      k := k + 1;
    }
    return Some(table), free';
  }

  /** A table without an empty slot, and one more id to index: not all fit. */
  lemma Overfull(keys: Keys, t: Table, table: Table, records: Run, k: nat, skip: set<NodeId>, all: set<NodeId>)
    requires |t.slots| == |t.control| == |table.slots| && Sound(keys, table) && Whole(table) && SortedRun(records) && k < |records|
    requires Indexed(records, k, skip, Entries(t), Entries(table)) && records[k].record.kind == LEAF && records[k].id !in skip && records[k].id !in Entries(table)
    requires !exists e: nat :: e < Cap(table) && table.control[e] == Empty
    requires Indexed(records, |records|, skip, Entries(t), all)
    ensures |all| > Cap(t)
  {
    hide Lookup, Entries, Sound, Indexed;
    SoundLengths(keys, table);
    AllFull(keys, table);
    forall id | id in Entries(table) + {records[k].id} ensures id in all { IndexedMore(records, k, skip, Entries(t), Entries(table), all, id); }
    SmallerSet(Entries(table) + {records[k].id}, all);
  }

  lemma SmallerSet(a: set<NodeId>, b: set<NodeId>)
    requires forall id | id in a :: id in b
    ensures |a| <= |b|
    decreases |a|
  {
    if a != {} {
      var x :| x in a;
      SmallerSet(a - {x}, b - {x});
    }
  }

  lemma IndexedMore(records: Run, k: nat, skip: set<NodeId>, entries: set<NodeId>, some: set<NodeId>, all: set<NodeId>, id: NodeId)
    requires SortedRun(records) && k < |records| && Indexed(records, k, skip, entries, some) && Indexed(records, |records|, skip, entries, all)
    requires records[k].record.kind == LEAF && records[k].id !in skip && id in some + {records[k].id}
    ensures id in all
  {
    hide Lookup;
    assert records[..|records|] == records;
    LookupFound(records, k);
    if id in some && id !in entries {
      var i := LookupSome(records[..k], id);
      assert records[..k][i] == records[i];
      LookupFound(records, i);
      LookupFound(records[..k], i);
    }
  }

  /** Without empty or deleted slots, the ids are as many as the slots. */
  lemma AllFull(keys: Keys, t: Table)
    requires Sound(keys, t) && Whole(t) && !exists e: nat :: e < Cap(t) && t.control[e] == Empty
    ensures |Entries(t)| == Cap(t)
  {
    hide PowerOfTwo, Reachable, Keyed, Count, Entries;
    FullCount(keys, t);
    WholeCount(t.control);
    CountTotal(t.control);
    if Count(t.control, Empty) > 0 { var e := CountZero(t.control, Empty); }
  }

  /** In a sound table every full slot holds an id of its own. */
  lemma FullCount(keys: Keys, t: Table)
    requires Sound(keys, t)
    ensures |Entries(t)| == Count(t.control, Full) <= Cap(t)
  {
    hide PowerOfTwo, Reachable, Keyed, Count;
    FullFrom(t, 0);
    assert t.control[0..] == t.control;
    assert SlotsFrom(t, 0) == Entries(t);
    CountTotal(t.control);
  }

  ghost function SlotsFrom(t: Table, m: nat): set<NodeId>
    requires |t.slots| == |t.control|
  { set s: nat | m <= s < Cap(t) && IsFull(t, s) :: t.slots[s] }

  lemma {:induction false} FullFrom(t: Table, m: nat)
    requires Shaped(t) && Distinct(t) && m <= Cap(t)
    ensures |SlotsFrom(t, m)| == Count(t.control[m..], Full)
    decreases Cap(t) - m
  {
    hide PowerOfTwo;
    if m < Cap(t) {
      FullFrom(t, m + 1);
      assert t.control[m..][1..] == t.control[m + 1..];
      if t.control[m] == Full {
        assert IsFull(t, m);
        assert SlotsFrom(t, m) == SlotsFrom(t, m + 1) + {t.slots[m]};
        assert t.slots[m] !in SlotsFrom(t, m + 1);
      } else {
        assert SlotsFrom(t, m) == SlotsFrom(t, m + 1);
      }
    } else {
      assert SlotsFrom(t, m) == {};
    }
  }

  lemma PatchNothing(records: Run, skip: set<NodeId>, free: set<NodeId>, t: Table)
    requires |t.slots| == |t.control|
    ensures Patched(records, 0, free, free) && Indexed(records, 0, skip, Entries(t), Entries(t))
  {
    assert records[..0] == [];
  }

  lemma PatchedStep(records: Run, k: nat, free: set<NodeId>, free': set<NodeId>)
    requires SortedRun(records) && k < |records| && Patched(records, k, free, free')
    ensures Patched(records, k + 1, free, if records[k].record.kind == FREE then free' + {records[k].id} else free' - {records[k].id})
  {
    hide Lookup;
    var free'' := if records[k].record.kind == FREE then free' + {records[k].id} else free' - {records[k].id};
    forall id: NodeId ensures id in free'' <==> if Lookup(records[..k + 1], id).Some? then Lookup(records[..k + 1], id).value.kind == FREE else id in free {
      LookupPrefix(records, k, id);
    }
  }

  lemma IndexedStep(records: Run, k: nat, skip: set<NodeId>, entries: set<NodeId>, entries': set<NodeId>)
    requires SortedRun(records) && k < |records| && Indexed(records, k, skip, entries, entries')
    ensures Indexed(records, k + 1, skip, entries,
                    if records[k].record.kind == LEAF && records[k].id !in skip then entries' + {records[k].id} else entries')
  {
    hide Lookup;
    var entries'' := if records[k].record.kind == LEAF && records[k].id !in skip then entries' + {records[k].id} else entries';
    forall id: NodeId ensures id in entries'' <==> id in entries || Placed(records[..k + 1], skip, id) { LookupPrefix(records, k, id); }
  }

  lemma PlacedAt(keys: Keys, t: Table, table: Table, records: Run, k: nat, skip: set<NodeId>)
    requires |t.slots| == |t.control| && |table.slots| == |table.control| && SortedRun(records) && k < |records| && PlacedOk(keys, t, records, skip)
    requires Indexed(records, k, skip, Entries(t), Entries(table)) && records[k].record.kind == LEAF && records[k].id !in skip
    ensures records[k].id in keys.hashes && keys.hashes[records[k].id] == records[k].record.hash && records[k].id !in Entries(table)
  {
    hide Lookup, Entries;
    LookupPrefix(records, k, records[k].id);
    assert Placed(records, skip, records[k].id);
  }

  // ---- the whole load -------------------------------------------------------------------

  /** The smallest capacity the load bound allows. */
  function ValidatedIndexCapacity(entries: nat): Option<nat> {
    var most := 0x1_0000_0000;
    if entries > (most * 8 - 7) / 10 then None
    else
      var required := if entries * 10 + 7 < 128 then 16 else (entries * 10 + 7) / 8;
      if required > most then None else Some(BitCeil(required))
  }

  lemma {:induction false} NoFives(k: nat)
    ensures Bits.Pow2(k) % 5 != 0
    decreases k
  {
    if k > 0 { NoFives(k - 1); }
  }

  lemma LoadBound(entries: nat, cap: nat)
    requires ValidatedIndexCapacity(entries).Some? && cap >= ValidatedIndexCapacity(entries).value && PowerOfTwo(cap)
    ensures entries * 10 < cap * 8
  {
    hide BitCeil, Bits.Pow2;
    var required := if entries * 10 + 7 < 128 then 16 else (entries * 10 + 7) / 8;
    BitCeilBounds(required);
    var k: nat :| cap == Bits.Pow2(k);
    NoFives(k);
  }

  /** The saved free list is ascending, below the anchor's end, and names no indexed leaf. */
  ghost predicate FreeListOk(cache: Cache, seen: set<NodeId>) {
    StrictlySorted(cache.freeIds) && forall i | 0 <= i < |cache.freeIds| :: cache.freeIds[i] < cache.next && cache.freeIds[i] !in seen
  }

  /** Free at the anchor, or beyond it; a free list out of order, out of range or naming a leaf is a
      miss. */
  method AnchorFree(cache: Cache, n: nat, seen: set<NodeId>) returns (r: Option<set<NodeId>>)
    ensures r.Some? <==> FreeListOk(cache, seen)
    ensures r.Some? ==> forall id: NodeId :: id in r.value <==> id < n && (id in cache.freeIds || cache.next <= id)
  {
    var free: set<NodeId> := {};
    var i: nat := 0;
    while i < |cache.freeIds|
      invariant i <= |cache.freeIds| && StrictlySorted(cache.freeIds[..i]) && forall j | 0 <= j < i :: cache.freeIds[j] < cache.next && cache.freeIds[j] !in seen
      invariant forall x: NodeId :: x in free <==> x < n && x in cache.freeIds[..i]
    {
      var id := cache.freeIds[i];
      if id >= cache.next || (i > 0 && id <= cache.freeIds[i - 1]) || id in seen { return None; }
      if id < n { free := free + {id}; }
      i := i + 1;
    }
    assert cache.freeIds[..i] == cache.freeIds;
    var id := cache.next;
    while id < n
      invariant forall x: NodeId :: x in free <==> x < n && (x in cache.freeIds || cache.next <= x < id)
    {
      free := free + {id};
      id := id + 1;
    }
    return Some(free);
  }

  lemma SavedFree(l: Layers, cache: Cache, bucket: Hash -> nat, t: Table)
    requires Saved(l, cache, bucket, t)
    ensures FreeListOk(cache, EntryIds(cache.entries))
  {
    hide Read, Sound, Entries, Count, AnchorKeys, ListsTable;
    forall i | 0 <= i < |cache.freeIds| ensures cache.freeIds[i] < cache.next && cache.freeIds[i] !in EntryIds(cache.entries) {
      assert cache.freeIds[i] in FreeIds(AnchorLayers(l, cache.runs), cache.next);
      if cache.freeIds[i] in EntryIds(cache.entries) {
        var k :| 0 <= k < |cache.entries| && cache.entries[k].id == cache.freeIds[i];
        SavedEntry(l, cache, bucket, t, k);
      }
    }
  }

  lemma RunsPlaced(l: Layers, n: nat, cache: Cache, bucket: Hash -> nat, t: Table, merged: Run)
    requires cache.runs <= |l.runs| && |t.slots| == |t.control| && Entries(t) == Unchanged(l, cache, n, KeysNow(l, n, bucket))
    requires forall id: NodeId :: Lookup(merged, id) == if id < n then LookupAll(l.runs[cache.runs..], id) else None
    ensures PlacedOk(KeysNow(l, n, bucket), t, merged, l.dirty.Keys)
  {
    hide Read, Lookup, LookupAll, KeysNow;
    forall id | Placed(merged, l.dirty.Keys, id)
      ensures id in KeysNow(l, n, bucket).hashes && KeysNow(l, n, bucket).hashes[id] == Lookup(merged, id).value.hash && id !in Entries(t)
    {
      ReadSince(l, cache.runs, id);
      KeyBelow(l, n, bucket, id);
    }
  }

  lemma DirtyPlaced(l: Layers, n: nat, cache: Cache, bucket: Hash -> nat, t: Table, merged: Run, was: set<NodeId>)
    requires cache.runs <= |l.runs| && |t.slots| == |t.control| && was == Unchanged(l, cache, n, KeysNow(l, n, bucket))
    requires Indexed(merged, |merged|, l.dirty.Keys, was, Entries(t))
    ensures PlacedOk(KeysNow(l, n, bucket), t, RunOf(Visible(l.dirty, n)), {})
  {
    hide Lookup, LookupAll, KeysNow, RunOf;
    var run := RunOf(Visible(l.dirty, n));
    forall id | Placed(run, {}, id) ensures id in KeysNow(l, n, bucket).hashes && KeysNow(l, n, bucket).hashes[id] == Lookup(run, id).value.hash && id !in Entries(t) {
      RunOfIs(Visible(l.dirty, n), id);
      KeyBelow(l, n, bucket, id);
    }
  }

  /** The ids the patched index holds. */
  ghost function IndexedNow(l: Layers, n: nat, cache: Cache, keys: Keys): set<NodeId>
    requires cache.runs <= |l.runs|
  { set id | id in keys.hashes && (id < cache.next || ChangedSince(l, cache.runs, id)) }

  lemma FinalEntries(l: Layers, n: nat, cache: Cache, bucket: Hash -> nat, merged: Run, a: set<NodeId>, b: set<NodeId>)
    requires cache.runs <= |l.runs|
    requires forall id: NodeId :: Lookup(merged, id) == if id < n then LookupAll(l.runs[cache.runs..], id) else None
    requires Indexed(merged, |merged|, l.dirty.Keys, Unchanged(l, cache, n, KeysNow(l, n, bucket)), a)
    requires var run := RunOf(Visible(l.dirty, n)); Indexed(run, |run|, {}, a, b)
    ensures b == IndexedNow(l, n, cache, KeysNow(l, n, bucket))
  {
    hide Lookup, LookupAll, KeysNow, RunOf;
    var run := RunOf(Visible(l.dirty, n));
    assert merged[..|merged|] == merged && run[..|run|] == run;
    forall id: NodeId ensures id in b <==> id in IndexedNow(l, n, cache, KeysNow(l, n, bucket)) {
      RunOfIs(Visible(l.dirty, n), id);
      ReadSince(l, cache.runs, id);
      KeyBelow(l, n, bucket, id);
      DirtyRead(l, id);
    }
  }

  lemma DirtyRead(l: Layers, id: NodeId)
    ensures id in l.dirty ==> Read(l, id) == l.dirty[id]
  {}

  /** What the patched free list says of one id. */
  lemma FinalFree(l: Layers, n: nat, cache: Cache, bucket: Hash -> nat, t: Table, merged: Run, a: set<NodeId>, b: set<NodeId>, c: set<NodeId>, id: NodeId)
    requires Saved(l, cache, bucket, t)
    requires forall x: NodeId :: Lookup(merged, x) == if x < n then LookupAll(l.runs[cache.runs..], x) else None
    requires forall x: NodeId :: x in a <==> x < n && (x in cache.freeIds || cache.next <= x)
    requires Patched(merged, |merged|, a, b)
    requires var run := RunOf(Visible(l.dirty, n)); Patched(run, |run|, b, c)
    ensures id in c <==> id < n && (Read(l, id).kind == FREE || (cache.next <= id && !ChangedSince(l, cache.runs, id)))
  {
    hide Lookup, LookupAll, RunOf, Sound, Entries, ListsTable, AnchorKeys, Read;
    var run := RunOf(Visible(l.dirty, n));
    assert merged[..|merged|] == merged && run[..|run|] == run;
    RunOfIs(Visible(l.dirty, n), id);
    ReadSince(l, cache.runs, id);
    DirtyRead(l, id);
    assert id in cache.freeIds <==> id in FreeIds(AnchorLayers(l, cache.runs), cache.next);
  }

  /** The patched free list is right exactly when nothing live was handed out unseen. */
  lemma FreeIff(l: Layers, n: nat, cache: Cache, c: set<NodeId>)
    requires cache.runs <= |l.runs|
    requires forall id: NodeId :: id in c <==> id < n && (Read(l, id).kind == FREE || (cache.next <= id && !ChangedSince(l, cache.runs, id)))
    ensures c == FreeIds(l, n) <==> Covered(l, cache, n)
  {
    hide Read, ChangedSince;
    if c == FreeIds(l, n) {
      forall id: NodeId | cache.next <= id < n && !ChangedSince(l, cache.runs, id) ensures Read(l, id).kind == FREE { assert id in c; }
    }
  }

  lemma CoveredIndex(l: Layers, n: nat, cache: Cache, bucket: Hash -> nat)
    requires cache.runs <= |l.runs| && Covered(l, cache, n)
    ensures IndexedNow(l, n, cache, KeysNow(l, n, bucket)) == KeysNow(l, n, bucket).hashes.Keys
  {
    hide Read, ChangedSince;
    forall id | id in KeysNow(l, n, bucket).hashes ensures id < cache.next || ChangedSince(l, cache.runs, id) { KeyBelow(l, n, bucket, id); }
  }

  method Repaired(keys: Keys, t: Table) returns (r: Option<Table>)
    requires Sound(keys, t)
    ensures (exists e: nat :: e < Cap(t) && t.control[e] == Empty) ==> r.Some?
    ensures r.Some? ==> Sound(keys, r.value) && Cap(r.value) == Cap(t) && Entries(r.value) == Entries(t) && Whole(r.value)
  {
    hide Sound, Entries, Count;
    SoundLengths(keys, t);
    if Count(t.control, Deleted) == 0 {
      NoneDeleted(t);
      return Some(t);
    }
    r := RepairDeletions(keys, t);
    if r.Some? { SoundLengths(keys, r.value); }
  }

  lemma NoneDeleted(t: Table)
    requires |t.slots| == |t.control| && Count(t.control, Deleted) == 0
    ensures Whole(t)
  {
    forall s: nat | s < |t.slots| ensures t.control[s] != Deleted { if t.control[s] == Deleted { CountPositive(t.control, s, Deleted); } }
  }

  lemma {:induction false} WholeCount(cs: seq<Control>)
    requires forall s | 0 <= s < |cs| :: cs[s] != Deleted
    ensures Count(cs, Deleted) == 0
    decreases cs
  {
    if cs != [] { WholeCount(cs[1..]); }
  }

  predicate RootsLive(l: Layers, n: nat, roots: seq<NodeId>) {
    forall i | 0 <= i < |roots| && roots[i] != NO_NODE :: roots[i] < n && Read(l, roots[i]).kind != FREE && Read(l, roots[i]).parent == NO_NODE
  }

  /** Slots, free list, repair and replay: the index and the free ids at the end. It is a miss
      exactly when the table would overflow. */
  method LoadTable(l: Layers, n: nat, cache: Cache, bucket: Hash -> nat, ghost t: Table) returns (r: Option<Table>, free: set<NodeId>)
    requires Saved(l, cache, bucket, t) && Sorted(l.runs)
    ensures r.Some? ==> Sound(KeysNow(l, n, bucket), r.value) && Cap(r.value) == cache.capacity && Whole(r.value)
                        && Entries(r.value) == IndexedNow(l, n, cache, KeysNow(l, n, bucket))
    ensures r.Some? ==> forall id: NodeId :: id in free <==> id < n && (Read(l, id).kind == FREE || (cache.next <= id && !ChangedSince(l, cache.runs, id)))
    ensures r.None? ==> |IndexedNow(l, n, cache, KeysNow(l, n, bucket))| > cache.capacity
  {
    hide Sound, Entries, Lookup, LookupAll, Read, ChangedSince, KeysNow, FreeIds, Whole, ListsTable, AnchorKeys, RunOf, Masked, SortedRun, PlacedOk, Indexed, Patched,
         LaidOut, EntriesOk, FreeListOk, EntryIds, Saved, IndexedNow;
    free := {};
    SavedLengths(l, cache, bucket, t);
    SavedLoads(l, n, cache, bucket, t);
    SavedFree(l, cache, bucket, t);
    var keys := KeysNow(l, n, bucket);
    var loaded, seen := LoadSlots(l, n, cache);
    var anchorFree := AnchorFree(cache, n, seen);
    MaskedSound(l, cache, n, bucket, t);
    MaskedRoom(l, cache, n, bucket, t);
    var repaired := Repaired(keys, loaded.value);
    SoundLengths(keys, repaired.value);
    r, free := Replay(l, n, cache, bucket, t, repaired.value, anchorFree.value);
  }

  /** Replay the records since the anchor on the repaired table. */
  method Replay(l: Layers, n: nat, cache: Cache, bucket: Hash -> nat, ghost t: Table, table: Table, free0: set<NodeId>) returns (r: Option<Table>, free: set<NodeId>)
    requires Saved(l, cache, bucket, t) && Sorted(l.runs) && Sound(KeysNow(l, n, bucket), table) && Cap(table) == cache.capacity && Whole(table)
    requires Entries(table) == Unchanged(l, cache, n, KeysNow(l, n, bucket))
    requires forall id: NodeId :: id in free0 <==> id < n && (id in cache.freeIds || cache.next <= id)
    ensures r.Some? ==> Sound(KeysNow(l, n, bucket), r.value) && Cap(r.value) == cache.capacity && Whole(r.value)
                        && Entries(r.value) == IndexedNow(l, n, cache, KeysNow(l, n, bucket))
    ensures r.Some? ==> forall id: NodeId :: id in free <==> id < n && (Read(l, id).kind == FREE || (cache.next <= id && !ChangedSince(l, cache.runs, id)))
    ensures r.None? ==> |IndexedNow(l, n, cache, KeysNow(l, n, bucket))| > cache.capacity
  {
    hide Sound, Entries, Lookup, LookupAll, Read, ChangedSince, KeysNow, FreeIds, Whole, ListsTable, AnchorKeys, RunOf, SortedRun, PlacedOk, Indexed, Patched, Saved, IndexedNow,
         Unchanged;
    SavedLengths(l, cache, bucket, t);
    var keys := KeysNow(l, n, bucket);
    SoundLengths(keys, table);
    var merged := Latest(l.runs[cache.runs..], n);
    RunsPlaced(l, n, cache, bucket, table, merged);
    var patched, free1 := Patch(keys, table, free0, merged, l.dirty.Keys);
    if patched.None? {
      RunsOverflow(l, n, cache, bucket, merged, cache.capacity);
      return None, free1;
    }
    SoundLengths(keys, patched.value);
    DirtyPlaced(l, n, cache, bucket, patched.value, merged, Entries(table));
    RunOfIs(Visible(l.dirty, n), 0);
    r, free := Patch(keys, patched.value, free1, RunOf(Visible(l.dirty, n)), {});
    if r.Some? {
      SoundLengths(keys, r.value);
      FinalEntries(l, n, cache, bucket, merged, Entries(patched.value), Entries(r.value));
      forall id: NodeId ensures id in free <==> id < n && (Read(l, id).kind == FREE || (cache.next <= id && !ChangedSince(l, cache.runs, id))) {
        FinalFree(l, n, cache, bucket, t, merged, free0, free1, free, id);
      }
    } else {
      DirtyOverflow(l, n, cache, bucket, merged, Entries(patched.value), cache.capacity);
    }
  }

  /** The loaded table has an empty slot, as the saved one had. */
  lemma MaskedRoom(l: Layers, cache: Cache, n: nat, bucket: Hash -> nat, t: Table)
    requires Saved(l, cache, bucket, t)
    ensures exists e: nat :: e < cache.capacity && Masked(l, cache, n, t, cache.capacity).control[e] == Empty
  {
    hide Read, FreeIds, AnchorKeys, Reachable, Distinct, Keyed, Entries, Dropped, PowerOfTwo, Count;
    WholeCount(t.control);
    var e := EmptySlot(t);
    assert Masked(l, cache, n, t, cache.capacity).control[e] == Empty;
  }

  /** What the first patch would index is among what is indexed in the end. */
  lemma RunsOverflow(l: Layers, n: nat, cache: Cache, bucket: Hash -> nat, merged: Run, cap: nat)
    requires cache.runs <= |l.runs|
    requires forall id: NodeId :: Lookup(merged, id) == if id < n then LookupAll(l.runs[cache.runs..], id) else None
    requires forall all | Indexed(merged, |merged|, l.dirty.Keys, Unchanged(l, cache, n, KeysNow(l, n, bucket)), all) :: |all| > cap
    ensures |IndexedNow(l, n, cache, KeysNow(l, n, bucket))| > cap
  {
    hide Lookup, LookupAll, KeysNow, Read;
    var keys := KeysNow(l, n, bucket);
    var all := set id | id in IndexedNow(l, n, cache, keys) && (id in Unchanged(l, cache, n, keys) || Placed(merged, l.dirty.Keys, id));
    assert merged[..|merged|] == merged;
    forall id: NodeId ensures id in all <==> id in Unchanged(l, cache, n, keys) || Placed(merged[..|merged|], l.dirty.Keys, id) {
      ReadSince(l, cache.runs, id);
      KeyBelow(l, n, bucket, id);
    }
    assert Indexed(merged, |merged|, l.dirty.Keys, Unchanged(l, cache, n, keys), all);
    SmallerSet(all, IndexedNow(l, n, cache, keys));
  }

  lemma DirtyOverflow(l: Layers, n: nat, cache: Cache, bucket: Hash -> nat, merged: Run, a: set<NodeId>, cap: nat)
    requires cache.runs <= |l.runs|
    requires forall id: NodeId :: Lookup(merged, id) == if id < n then LookupAll(l.runs[cache.runs..], id) else None
    requires Indexed(merged, |merged|, l.dirty.Keys, Unchanged(l, cache, n, KeysNow(l, n, bucket)), a)
    requires var run := RunOf(Visible(l.dirty, n)); forall all | Indexed(run, |run|, {}, a, all) :: |all| > cap
    ensures |IndexedNow(l, n, cache, KeysNow(l, n, bucket))| > cap
  {
    hide Lookup, LookupAll, KeysNow, RunOf, Indexed;
    var run, now := RunOf(Visible(l.dirty, n)), IndexedNow(l, n, cache, KeysNow(l, n, bucket));
    DirtyIndexed(l, n, cache, bucket, merged, a);
    assert Indexed(run, |run|, {}, a, now);
  }

  lemma DirtyIndexed(l: Layers, n: nat, cache: Cache, bucket: Hash -> nat, merged: Run, a: set<NodeId>)
    requires cache.runs <= |l.runs|
    requires forall id: NodeId :: Lookup(merged, id) == if id < n then LookupAll(l.runs[cache.runs..], id) else None
    requires Indexed(merged, |merged|, l.dirty.Keys, Unchanged(l, cache, n, KeysNow(l, n, bucket)), a)
    ensures var run := RunOf(Visible(l.dirty, n)); Indexed(run, |run|, {}, a, IndexedNow(l, n, cache, KeysNow(l, n, bucket)))
  {
    hide Lookup, LookupAll, KeysNow, RunOf;
    var run := RunOf(Visible(l.dirty, n));
    assert merged[..|merged|] == merged && run[..|run|] == run;
    forall id: NodeId ensures id in IndexedNow(l, n, cache, KeysNow(l, n, bucket)) <==> id in a || Placed(run[..|run|], {}, id) {
      RunOfIs(Visible(l.dirty, n), id);
      ReadSince(l, cache.runs, id);
      KeyBelow(l, n, bucket, id);
      DirtyRead(l, id);
    }
  }

  lemma SavedLengths(l: Layers, cache: Cache, bucket: Hash -> nat, t: Table)
    requires Saved(l, cache, bucket, t)
    ensures cache.runs <= |l.runs| && |t.slots| == |t.control| == cache.capacity >= 16 && ListsTable(cache.entries, t) && PowerOfTwo(cache.capacity)
  {
    hide FreeIds, AnchorKeys, Reachable, Distinct, Keyed, Entries, PowerOfTwo, Count;
  }

  /** So many entries stay within the table's load bound. */
  predicate HasRoom(entries: nat, capacity: nat) {
    var least := ValidatedIndexCapacity(entries);
    least.Some? && least.value <= capacity
  }

  /** Start from the cache. It is a hit exactly when there are ids left, the roots are live roots and
      the index has room; then the index is sound, and index and free list are those a full scan
      would build exactly when every id handed out since the anchor was written since or is free. */
  method LoadValidatedStartupCache(l: Layers, n: nat, roots: seq<NodeId>, cache: Cache, bucket: Hash -> nat, index: KeylessLeafIndex, ghost t: Table)
    returns (hit: bool, freeIds: seq<NodeId>)
    requires Saved(l, cache, bucket, t) && Sorted(l.runs)
    modifies index
    ensures hit <==> n < NO_NODE && RootsLive(l, n, roots) && HasRoom(|IndexedNow(l, n, cache, KeysNow(l, n, bucket))|, cache.capacity)
    ensures hit ==> StrictlySorted(freeIds)
    ensures hit ==> index.Valid(KeysNow(l, n, bucket)) && index.Ids() == IndexedNow(l, n, cache, KeysNow(l, n, bucket))
    ensures hit ==> (Elements(freeIds) == FreeIds(l, n) <==> Covered(l, cache, n))
    ensures hit && Covered(l, cache, n) ==> index.Ids() == KeysNow(l, n, bucket).hashes.Keys
  {
    hide Sound, Entries, Read, ChangedSince, KeysNow, FreeIds, Whole, Saved, IndexedNow, Count, ValidatedIndexCapacity, Covered, Elements, StrictlySorted, Ascending, PowerOfTwo;
    SavedLengths(l, cache, bucket, t);
    if n >= NO_NODE { return false, []; }
    var loaded, free := LoadTable(l, n, cache, bucket, t);
    if loaded.None? {
      NoRoom(|IndexedNow(l, n, cache, KeysNow(l, n, bucket))|, cache.capacity);
      return false, [];
    }
    var keys := KeysNow(l, n, bucket);
    SoundLengths(keys, loaded.value);
    var size := Count(loaded.value.control, Full);
    FullCount(keys, loaded.value);
    var least := ValidatedIndexCapacity(size);
    if least.None? || |loaded.value.slots| < least.value { return false, []; }
    LoadBound(size, |loaded.value.slots|);
    WholeControl(loaded.value);
    index.slots, index.control, index.size, index.tombstones := loaded.value.slots, loaded.value.control, size, 0;
    assert index.View() == loaded.value;
    if !RootsLive(l, n, roots) { return false, []; }
    AscendingIs(free);
    FreeIff(l, n, cache, free);
    if Covered(l, cache, n) { CoveredIndex(l, n, cache, bucket); }
    return true, Ascending(free);
  }

  /** A table that overflows has no room. */
  lemma NoRoom(entries: nat, capacity: nat)
    requires entries > capacity && PowerOfTwo(capacity)
    ensures !HasRoom(entries, capacity)
  {
    hide BitCeil, PowerOfTwo;
    if HasRoom(entries, capacity) { LoadBound(entries, capacity); }
  }

  lemma WholeControl(t: Table)
    requires |t.slots| == |t.control| && Whole(t)
    ensures Count(t.control, Deleted) == 0
  {
    WholeCount(t.control);
  }

  // ---- why everything handed out since the anchor was written since ---------------------

  datatype Store = Store(l: Layers, n: nat)

  /** One thing that can happen to the records after the anchor: a write, which may hand out the next
      id; shrinking; a seal; or, over a cache anchored at the base itself, a compaction. */
  ghost predicate Moves(cache: Cache, a: Store, b: Store) {
    || (exists id: NodeId, record :: id <= a.n && b == Store(Written(a.l, id, record), if id < a.n then a.n else a.n + 1))
    || (b.l == a.l && b.n <= a.n)
    || b == Store(Seal(a.l, a.n), a.n)
    || (cache.runs == 0 && cache.next == |a.l.base| && a.l.blank.kind == FREE && a.l.dirty == map[] && b == Store(Compact(a.l, a.n), a.n))
  }

  lemma CoveredWritten(cache: Cache, l: Layers, n: nat, id: NodeId, record: NodeRecord)
    requires cache.runs <= |l.runs| && Covered(l, cache, n) && id <= n
    ensures Covered(Written(l, id, record), cache, if id < n then n else n + 1)
  {
    hide LookupAll;
    var l', n' := Written(l, id, record), if id < n then n else n + 1;
    forall x: NodeId | cache.next <= x < n' && !ChangedSince(l', cache.runs, x) ensures Read(l', x).kind == FREE {
      assert x != id && !ChangedSince(l, cache.runs, x);
      assert Read(l', x) == Read(l, x);
    }
  }

  lemma SealedSince(l: Layers, runs: nat, n: nat, id: NodeId)
    requires runs <= |l.runs| && id < n && ChangedSince(l, runs, id)
    ensures ChangedSince(Seal(l, n), runs, id)
  {
    hide Lookup, RunOf;
    var run := RunOf(Visible(l.dirty, n));
    RunOfIs(Visible(l.dirty, n), id);
    var later := Seal(l, n).runs[runs..];
    assert later == l.runs[runs..] + [run];
    assert later[..|later| - 1] == l.runs[runs..];
  }

  lemma CoveredSealed(cache: Cache, l: Layers, n: nat)
    requires cache.runs <= |l.runs| && Covered(l, cache, n)
    ensures cache.runs <= |Seal(l, n).runs| && Covered(Seal(l, n), cache, n)
  {
    hide Read, ChangedSince, RunOf;
    forall x: NodeId | cache.next <= x < n && !ChangedSince(Seal(l, n), cache.runs, x) ensures Read(Seal(l, n), x).kind == FREE {
      if ChangedSince(l, cache.runs, x) { SealedSince(l, cache.runs, n, x); }
      SealRead(l, n, x);
    }
  }

  lemma CoveredCompacted(cache: Cache, l: Layers, n: nat)
    requires cache.runs == 0 && cache.next == |l.base| && l.blank.kind == FREE && l.dirty == map[]
    ensures Covered(Compact(l, n), cache, n)
  {
    hide Lookup, LookupAll, RunOf, Changed;
    var l' := Compact(l, n);
    assert l'.runs[0..] == l'.runs;
    forall x: NodeId | cache.next <= x < n && !ChangedSince(l', 0, x) ensures Read(l', x).kind == FREE {
      assert LookupAll(l'.runs, x).None?;
    }
  }

  lemma CoveredMoves(cache: Cache, a: Store, b: Store)
    requires cache.runs <= |a.l.runs| && Covered(a.l, cache, a.n) && Moves(cache, a, b)
    ensures cache.runs <= |b.l.runs| && Covered(b.l, cache, b.n)
  {
    hide Read, ChangedSince, Covered, Seal, Compact;
    if b.l == a.l && b.n <= a.n {
      CoveredShrunk(cache, a.l, a.n, b.n);
    } else if b == Store(Seal(a.l, a.n), a.n) {
      CoveredSealed(cache, a.l, a.n);
    } else if id: NodeId, record :| id <= a.n && b == Store(Written(a.l, id, record), if id < a.n then a.n else a.n + 1) {
      CoveredWritten(cache, a.l, a.n, id, record);
    } else {
      CoveredCompacted(cache, a.l, a.n);
    }
  }

  lemma CoveredShrunk(cache: Cache, l: Layers, n: nat, n': nat)
    requires cache.runs <= |l.runs| && Covered(l, cache, n) && n' <= n
    ensures Covered(l, cache, n')
  {}

  /** A move leaves what the anchor was taken of as it is. */
  lemma AnchorStays(cache: Cache, a: Store, b: Store)
    requires cache.runs <= |a.l.runs| && Moves(cache, a, b)
    ensures cache.runs <= |b.l.runs| && AnchorLayers(b.l, cache.runs) == AnchorLayers(a.l, cache.runs)
    ensures Sorted(a.l.runs) ==> Sorted(b.l.runs)
  {
    hide Read, RunOf, Changed, SortedRun, Visible;
    if b == Store(Seal(a.l, a.n), a.n) { RunOfIs(Visible(a.l.dirty, a.n), 0); }
    if b == Store(Compact(a.l, a.n), a.n) { RunOfIs(Changed(a.l, a.n), 0); }
    assert cache.runs == 0 ==> b.l.runs[..0] == a.l.runs[..0];
  }

  lemma SavedMoves(cache: Cache, bucket: Hash -> nat, t: Table, a: Store, b: Store)
    requires Saved(a.l, cache, bucket, t) && Moves(cache, a, b)
    ensures Saved(b.l, cache, bucket, t)
  {
    hide Moves, Sound, Entries, Count, ListsTable, AnchorLayers, FreeIds, KeysOf;
    AnchorStays(cache, a, b);
  }

  /** The stores since the anchor, from the moment the cache was saved. */
  ghost predicate Since(cache: Cache, bucket: Hash -> nat, t: Table, stores: seq<Store>) {
    && stores != [] && stores[0].n == cache.next && Saved(stores[0].l, cache, bucket, t) && Sorted(stores[0].l.runs)
    && forall k | 0 <= k < |stores| - 1 :: Moves(cache, stores[k], stores[k + 1])
  }

  /** Whatever is written, shrunk, sealed or compacted after the anchor, what was saved stays good for
      the anchor, and every id handed out since was written since or is free. */
  lemma {:induction false} AlwaysCovered(cache: Cache, bucket: Hash -> nat, t: Table, stores: seq<Store>, i: nat)
    requires Since(cache, bucket, t, stores) && i < |stores|
    ensures Saved(stores[i].l, cache, bucket, t) && Sorted(stores[i].l.runs) && Covered(stores[i].l, cache, stores[i].n)
    decreases i
  {
    hide Moves, Covered, Saved, SortedRun;
    if i == 0 {
      SavedLengths(stores[0].l, cache, bucket, t);
      CoveredAnchor(cache, stores[0].l);
    } else {
      AlwaysCovered(cache, bucket, t, stores, i - 1);
      assert Moves(cache, stores[i - 1], stores[i - 1 + 1]);
      SavedLengths(stores[i - 1].l, cache, bucket, t);
      SavedMoves(cache, bucket, t, stores[i - 1], stores[i]);
      AnchorStays(cache, stores[i - 1], stores[i]);
      CoveredMoves(cache, stores[i - 1], stores[i]);
    }
  }

  /** After any moves since the anchor, starting from the cache is a hit exactly when there are ids
      left, the roots are live roots and the live leaves leave room in the table; and a hit gives
      exactly the free ids and the indexed leaves that a full scan of the records would. */
  method StartFromCache(ghost stores: seq<Store>, l: Layers, n: nat, roots: seq<NodeId>, cache: Cache, bucket: Hash -> nat, index: KeylessLeafIndex, ghost t: Table)
    returns (hit: bool, freeIds: seq<NodeId>)
    requires Since(cache, bucket, t, stores) && stores[|stores| - 1] == Store(l, n)
    modifies index
    ensures hit <==> n < NO_NODE && RootsLive(l, n, roots) && HasRoom(|Elements(Validator.LeavesBelow(RecordsOf(l, n), n))|, cache.capacity)
    ensures hit ==> freeIds == Validator.FreeBelow(RecordsOf(l, n), n)
    ensures hit ==> index.Valid(KeysNow(l, n, bucket)) && index.Ids() == Elements(Validator.LeavesBelow(RecordsOf(l, n), n))
  {
    hide Sound, Entries, Read, ChangedSince, FreeIds, Saved, IndexedNow, Count, Covered, Elements, StrictlySorted, Since, SortedRun, HasRoom, RootsLive,
         Validator.LeavesBelow, Validator.FreeBelow, RecordsOf, KeysOf, View;
    SinceLast(cache, bucket, t, stores);
    SavedLengths(l, cache, bucket, t);
    CoveredIndex(l, n, cache, bucket);
    ScanIs(l, n, bucket);
    RecordsLength(l, n);
    hit, freeIds := LoadValidatedStartupCache(l, n, roots, cache, bucket, index, t);
    if hit { Ordered.SortedUnique(freeIds, Validator.FreeBelow(RecordsOf(l, n), n)); }
  }

  lemma SinceLast(cache: Cache, bucket: Hash -> nat, t: Table, stores: seq<Store>)
    requires Since(cache, bucket, t, stores)
    ensures stores != []
    ensures var last := stores[|stores| - 1];
            Saved(last.l, cache, bucket, t) && Sorted(last.l.runs) && cache.runs <= |last.l.runs| && Covered(last.l, cache, last.n)
  {
    hide Moves, Covered, Saved, SortedRun;
    AlwaysCovered(cache, bucket, t, stores, |stores| - 1);
    SavedLengths(stores[|stores| - 1].l, cache, bucket, t);
  }

  /** What a full scan finds. */
  lemma ScanIs(l: Layers, n: nat, bucket: Hash -> nat)
    ensures KeysNow(l, n, bucket).hashes.Keys == Elements(Validator.LeavesBelow(RecordsOf(l, n), n))
    ensures var ids := Validator.FreeBelow(RecordsOf(l, n), n); StrictlySorted(ids) && Elements(ids) == FreeIds(l, n)
  {
    hide Read, Validator.LeavesBelow, Validator.FreeBelow, RecordsOf, KeysOf, FreeIds, StrictlySorted, Elements;
    RecordsLength(l, n);
    Online.RecordsShow(l, n);
    Online.LeavesAreKeys(View(l, n), RecordsOf(l, n), bucket);
    Online.FreeListed(l, n);
  }

  lemma CoveredAnchor(cache: Cache, l: Layers)
    requires cache.runs <= |l.runs|
    ensures Covered(l, cache, cache.next)
  {}
}
