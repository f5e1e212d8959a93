/** Repairing the probe clusters of a loaded leaf index (RepairValidationDeletions in
    src/forest.cpp). Slots are counted from an empty one, so no probe path wraps around. */
module Repair {
  import opened Common
  import opened LeafTable

  /** The table unrolled from an empty slot. */
  datatype Line = Line(ids: seq<NodeId>, control: seq<Control>)

  /** The entry at `o` is found by probing from its home. */
  ghost predicate Found(home: NodeId -> nat, l: Line, o: nat)
    requires o < |l.ids| == |l.control|
  {
    home(l.ids[o]) <= o && forall q | home(l.ids[o]) <= q < o :: l.control[q] != Empty
  }

  ghost predicate Straight(home: NodeId -> nat, l: Line) {
    && |l.ids| == |l.control| > 0 && l.control[0] == Empty
    && (forall o | 0 <= o < |l.ids| && l.control[o] == Full :: Found(home, l, o))
    && (forall o, p | 0 <= o < |l.ids| && 0 <= p < |l.ids| && l.control[o] == Full && l.control[p] == Full && l.ids[o] == l.ids[p] :: o == p)
  }

  ghost function LineEntries(l: Line): set<NodeId>
    requires |l.ids| == |l.control|
  { set o | 0 <= o < |l.ids| && l.control[o] == Full :: l.ids[o] }

  /** A cluster: slots a..b are in use, the ones around them are empty. */
  ghost predicate Cluster(l: Line, a: nat, b: nat) {
    && |l.ids| == |l.control| && 0 < a <= b <= |l.ids|
    && l.control[a - 1] == Empty && (b < |l.ids| ==> l.control[b] == Empty)
    && (forall o | a <= o < b :: l.control[o] != Empty)
  }

  /** The entries of a cluster in order, with where they stood. */
  ghost predicate Listed(l: Line, a: nat, b: nat, survivors: seq<NodeId>, places: seq<nat>)
    requires |l.ids| == |l.control|
  {
    && |survivors| == |places|
    && (forall j | 0 <= j < |places| :: a <= places[j] < b <= |l.ids| && l.control[places[j]] == Full && l.ids[places[j]] == survivors[j])
    && (forall i, j | 0 <= i < j < |places| :: places[i] < places[j])
    && (forall o | a <= o < b <= |l.ids| && l.control[o] == Full :: o in places)
  }

  method Gather(l: Line, a: nat) returns (survivors: seq<NodeId>, b: nat, deleted: nat, ghost places: seq<nat>)
    requires |l.ids| == |l.control| && 0 < a < |l.ids| && l.control[a - 1] == Empty
    ensures Cluster(l, a, b) && Listed(l, a, b, survivors, places)
    ensures l.control[a] != Empty ==> a < b
    ensures deleted == 0 <==> forall o | a <= o < b :: l.control[o] != Deleted
  {
    survivors, b, deleted, places := [], a, 0, [];
    while b < |l.ids| && l.control[b] != Empty
      invariant a <= b <= |l.ids| && (forall o | a <= o < b :: l.control[o] != Empty)
      invariant Listed(l, a, b, survivors, places)
      invariant deleted == 0 <==> forall o | a <= o < b :: l.control[o] != Deleted
    {
      if l.control[b] == Full {
        survivors := survivors + [l.ids[b]];
        places := places + [b];
      } else {
        deleted := deleted + 1;
      }
      b := b + 1;
    }
  }

  function Cleared(l: Line, a: nat, b: nat): (r: Line)
    requires |l.ids| == |l.control| && a <= b <= |l.ids|
    ensures |r.ids| == |r.control| == |l.ids|
    ensures forall o | 0 <= o < |l.ids| :: r.control[o] == (if a <= o < b then Empty else l.control[o]) && r.ids[o] == (if a <= o < b then NO_NODE else l.ids[o])
  {
    Line(seq(|l.ids|, o requires 0 <= o < |l.ids| => if a <= o < b then NO_NODE else l.ids[o]),
         seq(|l.ids|, o requires 0 <= o < |l.ids| => if a <= o < b then Empty else l.control[o]))
  }

  method ClearRange(l: Line, a: nat, b: nat) returns (r: Line)
    requires |l.ids| == |l.control| && a <= b <= |l.ids|
    ensures r == Cleared(l, a, b)
  {
    r := l;
    var o := a;
    while o < b
      invariant a <= o <= b && r == Cleared(l, a, o)
    {
      r := Line(r.ids[o := NO_NODE], r.control[o := Empty]);
      o := o + 1;
    }
  }

  /** Removing a whole cluster strands nothing outside it. */
  lemma ClearedStraight(home: NodeId -> nat, l: Line, a: nat, b: nat)
    requires Straight(home, l) && Cluster(l, a, b)
    ensures Straight(home, Cleared(l, a, b))
  {
    var r := Cleared(l, a, b);
    forall o | 0 <= o < |r.ids| && r.control[o] == Full ensures Found(home, r, o) {
      assert Found(home, l, o) && r.ids[o] == l.ids[o];
      assert o >= b ==> l.control[b] == Empty && home(l.ids[o]) > b;
    }
  }

  /** Filling an empty slot that a probe from the id's home reaches. */
  lemma FilledStraight(home: NodeId -> nat, l: Line, d: nat, id: NodeId)
    requires Straight(home, l) && 0 < d < |l.ids| && l.control[d] == Empty && id !in LineEntries(l)
    requires home(id) <= d && forall q | home(id) <= q < d :: l.control[q] != Empty
    ensures Straight(home, Line(l.ids[d := id], l.control[d := Full]))
    ensures LineEntries(Line(l.ids[d := id], l.control[d := Full])) == LineEntries(l) + {id}
  {
    var r := Line(l.ids[d := id], l.control[d := Full]);
    forall o | 0 <= o < |r.ids| && r.control[o] == Full ensures Found(home, r, o) {
      if o != d { assert Found(home, l, o); }
    }
    forall o, p | 0 <= o < |r.ids| && 0 <= p < |r.ids| && r.control[o] == Full && r.control[p] == Full && r.ids[o] == r.ids[p] ensures o == p {
      assert o != d ==> l.ids[o] in LineEntries(l);
      assert p != d ==> l.ids[p] in LineEntries(l);
    }
    FilledEntries(l, d, id);
  }

  lemma FilledEntries(l: Line, d: nat, id: NodeId)
    requires d < |l.ids| == |l.control| && l.control[d] == Empty
    ensures LineEntries(Line(l.ids[d := id], l.control[d := Full])) == LineEntries(l) + {id}
  {
    var r := Line(l.ids[d := id], l.control[d := Full]);
    assert r.control[d] == Full && r.ids[d] == id;
    forall x | x in LineEntries(l) ensures x in LineEntries(r) {
      var o :| 0 <= o < |l.ids| && l.control[o] == Full && l.ids[o] == x;
      assert r.control[o] == Full && r.ids[o] == x;
    }
    forall x | x in LineEntries(r) ensures x in LineEntries(l) + {id} {
      var o :| 0 <= o < |r.ids| && r.control[o] == Full && r.ids[o] == x;
      assert o == d || l.control[o] == Full;
    }
  }

  /** While the cluster is refilled: outside it nothing changes, and behind the last entry put back
      it is still empty. */
  ghost predicate Refilling(home: NodeId -> nat, cleared: Line, a: nat, b: nat, t: Line, end: nat) {
    && Straight(home, t) && |cleared.ids| == |cleared.control| == |t.ids| && a <= end <= b <= |t.ids|
    && (forall q | 0 <= q < |t.ids| && !(a <= q < b) :: t.control[q] == cleared.control[q])
    && (forall q | end <= q < b :: t.control[q] == Empty)
    && (forall q | a <= q < b :: t.control[q] != Deleted)
  }

  lemma RefillStep(home: NodeId -> nat, cleared: Line, a: nat, b: nat, t: Line, end: nat, d: nat, p: nat, id: NodeId)
    requires Refilling(home, cleared, a, b, t, end) && end <= p < b && a <= d <= p && 0 < a && t.control[d] == Empty && id !in LineEntries(t)
    requires home(id) <= d && forall q | home(id) <= q < d :: t.control[q] != Empty
    ensures Refilling(home, cleared, a, b, Line(t.ids[d := id], t.control[d := Full]), p + 1)
    ensures LineEntries(Line(t.ids[d := id], t.control[d := Full])) == LineEntries(t) + {id}
  {
    hide Straight, LineEntries;
    StraightLengths(home, t);
    FilledStraight(home, t, d, id);
  }

  lemma StraightLengths(home: NodeId -> nat, l: Line)
    requires Straight(home, l)
    ensures |l.ids| == |l.control| > 0 && l.control[0] == Empty
  {}

  /** A probe from a survivor's home finds an empty slot no later than where it stood. */
  method ProbeLine(home: NodeId -> nat, t: Line, id: NodeId, ghost limit: nat) returns (d: nat)
    requires |t.ids| == |t.control| && home(id) <= limit < |t.ids| && t.control[limit] == Empty
    ensures home(id) <= d <= limit && t.control[d] == Empty && forall q | home(id) <= q < d :: t.control[q] != Empty
  {
    d := home(id);
    while t.control[d] != Empty
      invariant home(id) <= d <= limit && forall q | home(id) <= q < d :: t.control[q] != Empty
      decreases limit - d
    {
      d := d + 1;
    }
  }

  /** Survivors are put back in the order they stood. */
  method Refill(home: NodeId -> nat, ghost l: Line, cleared: Line, a: nat, b: nat, survivors: seq<NodeId>, ghost places: seq<nat>)
    returns (t: Line)
    requires Straight(home, l) && Cluster(l, a, b) && cleared == Cleared(l, a, b) && Listed(l, a, b, survivors, places)
    ensures Refilling(home, cleared, a, b, t, b) && LineEntries(t) == LineEntries(l)
  {
    hide Straight, LineEntries, Listed, Cluster;
    ClusterBounds(l, a, b);
    ClearedStraight(home, l, a, b);
    t := cleared;
    var j: nat := 0;
    ghost var end := a;
    ListedLengths(l, a, b, survivors, places);
    StraightLengths(home, cleared);
    assert survivors[..0] == [];
    RefillStart(home, l, a, b);
    while j < |survivors|
      invariant j <= |survivors| == |places| && end == (if j == 0 then a else places[j - 1] + 1)
      invariant Refilling(home, cleared, a, b, t, end)
      invariant |t.ids| == |t.control| && LineEntries(t) == LineEntries(cleared) + (set x | x in survivors[..j])
    {
      ListedAt(home, l, a, b, survivors, places, j);
      NotYetBack(home, l, a, b, survivors, places, j);
      var d := ProbeLine(home, t, survivors[j], places[j]);
      RefillStep(home, cleared, a, b, t, end, d, places[j], survivors[j]);
      t := Line(t.ids[d := survivors[j]], t.control[d := Full]);
      assert survivors[..j + 1] == survivors[..j] + [survivors[j]];
      end := places[j] + 1;
      j := j + 1;
    }
    assert survivors[..j] == survivors;
    RefillEntries(l, a, b, survivors, places);
  }

  lemma RefillStart(home: NodeId -> nat, l: Line, a: nat, b: nat)
    requires |l.ids| == |l.control| && a <= b <= |l.ids| && Straight(home, Cleared(l, a, b))
    ensures Refilling(home, Cleared(l, a, b), a, b, Cleared(l, a, b), a)
  {
    hide Straight;
  }

  lemma ClusterBounds(l: Line, a: nat, b: nat)
    requires Cluster(l, a, b)
    ensures |l.ids| == |l.control| && 0 < a <= b <= |l.ids|
  {}

  lemma ListedLengths(l: Line, a: nat, b: nat, survivors: seq<NodeId>, places: seq<nat>)
    requires |l.ids| == |l.control| && Listed(l, a, b, survivors, places)
    ensures |survivors| == |places|
  {}

  /** A survivor stood behind the previous one, and its home is in its cluster. */
  lemma ListedAt(home: NodeId -> nat, l: Line, a: nat, b: nat, survivors: seq<NodeId>, places: seq<nat>, j: nat)
    requires Straight(home, l) && Cluster(l, a, b) && Listed(l, a, b, survivors, places) && j < |places|
    ensures (if j == 0 then a else places[j - 1] + 1) <= places[j] < b && a <= home(survivors[j]) <= places[j]
  {
    assert l.control[places[j]] == Full && l.ids[places[j]] == survivors[j];
    assert Found(home, l, places[j]);
    assert l.control[a - 1] == Empty;
  }

  lemma NotYetBack(home: NodeId -> nat, l: Line, a: nat, b: nat, survivors: seq<NodeId>, places: seq<nat>, j: nat)
    requires Straight(home, l) && Cluster(l, a, b) && Listed(l, a, b, survivors, places) && j < |places|
    ensures survivors[j] !in LineEntries(Cleared(l, a, b)) + (set x | x in survivors[..j])
  {
    var r := Cleared(l, a, b);
    assert l.control[places[j]] == Full && l.ids[places[j]] == survivors[j];
    forall o | 0 <= o < |r.ids| && r.control[o] == Full ensures r.ids[o] != survivors[j] { assert l.ids[o] == r.ids[o] && l.control[o] == Full; }
    forall i | 0 <= i < j ensures survivors[i] != survivors[j] {
      assert l.control[places[i]] == Full && l.ids[places[i]] == survivors[i] && places[i] < places[j];
    }
  }

  lemma RefillEntries(l: Line, a: nat, b: nat, survivors: seq<NodeId>, places: seq<nat>)
    requires Cluster(l, a, b) && Listed(l, a, b, survivors, places)
    ensures LineEntries(Cleared(l, a, b)) + (set x | x in survivors) == LineEntries(l)
  {
    var r := Cleared(l, a, b);
    forall x | x in LineEntries(l) ensures x in LineEntries(r) || x in survivors {
      var o :| 0 <= o < |l.ids| && l.control[o] == Full && l.ids[o] == x;
      if a <= o < b {
        assert o in places;
        var j :| 0 <= j < |places| && places[j] == o;
        assert survivors[j] == x;
      } else {
        assert r.control[o] == Full && r.ids[o] == x;
      }
    }
    forall x | x in LineEntries(r) ensures x in LineEntries(l) {
      var o :| 0 <= o < |r.ids| && r.control[o] == Full && r.ids[o] == x;
      assert l.control[o] == Full && l.ids[o] == x;
    }
    forall x | x in survivors ensures x in LineEntries(l) {
      var j :| 0 <= j < |survivors| && survivors[j] == x;
      assert l.control[places[j]] == Full && l.ids[places[j]] == x;
    }
  }

  ghost predicate NoDeleted(l: Line, n: nat)
    requires n <= |l.control|
  { forall q | 0 <= q < n :: l.control[q] != Deleted }

  /** Cluster by cluster, drop the deleted slots and put the survivors back: no entry is lost or
      stranded, and no deleted slot remains. */
  method RepairLine(home: NodeId -> nat, l: Line) returns (t: Line)
    requires Straight(home, l)
    ensures Straight(home, t) && |t.ids| == |l.ids| == |t.control| && LineEntries(t) == LineEntries(l) && NoDeleted(t, |t.control|)
  {
    hide Straight, LineEntries, Listed, Cluster, Refilling;
    t := l;
    var o: nat := 1;
    StraightLengths(home, l);
    while o < |t.ids|
      invariant 1 <= o <= |t.ids| == |t.control| == |l.ids| && Straight(home, t) && LineEntries(t) == LineEntries(l)
      invariant NoDeleted(t, o) && (t.control[o - 1] == Empty || o == |t.ids| || t.control[o] == Empty)
      decreases |t.ids| - o
    {
      if t.control[o] == Empty {
        o := o + 1;
      } else {
        var survivors, b, deleted, places := Gather(t, o);
        ClusterBounds(t, o, b);
        ClusterEnd(t, o, b);
        if deleted != 0 {
          var cleared := ClearRange(t, o, b);
          ghost var was := t;
          t := Refill(home, t, cleared, o, b, survivors, places);
          RefillDone(home, was, o, b, t);
        }
        o := b;
      }
    }
  }

  lemma ClusterEnd(l: Line, a: nat, b: nat)
    requires Cluster(l, a, b)
    ensures b < |l.ids| ==> l.control[b] == Empty
  {}

  lemma RefillDone(home: NodeId -> nat, l: Line, a: nat, b: nat, t: Line)
    requires Cluster(l, a, b) && Refilling(home, Cleared(l, a, b), a, b, t, b) && NoDeleted(l, a)
    ensures Straight(home, t) && |t.ids| == |t.control| == |l.ids| && NoDeleted(t, b) && (b < |t.ids| ==> t.control[b] == Empty)
  {
    hide Found;
  }

  // ---- rolling the table up again -------------------------------------------------------

  /** The slot `o` places after `e`. */
  function SlotAt(e: nat, o: nat, cap: nat): (s: nat)
    requires e < cap && o < cap
    ensures s < cap && Dist(e, s, cap) == o
  { if e + o < cap then e + o else e + o - cap }

  lemma SlotOf(e: nat, s: nat, cap: nat)
    requires e < cap && s < cap
    ensures Dist(e, s, cap) < cap && SlotAt(e, Dist(e, s, cap), cap) == s
  {}

  function Unrolled(t: Table, e: nat): (l: Line)
    requires e < |t.slots| == |t.control|
    ensures |l.ids| == |l.control| == |t.slots|
    ensures forall o: nat | o < |t.slots| :: l.ids[o] == t.slots[SlotAt(e, o, |t.slots|)] && l.control[o] == t.control[SlotAt(e, o, |t.slots|)]
  {
    var cap := |t.slots|;
    Line(seq(cap, o requires 0 <= o < cap => t.slots[SlotAt(e, o, cap)]), seq(cap, o requires 0 <= o < cap => t.control[SlotAt(e, o, cap)]))
  }

  function Rolled(l: Line, e: nat): (t: Table)
    requires e < |l.ids| == |l.control|
    ensures |t.slots| == |t.control| == |l.ids|
    ensures forall s: nat | s < |l.ids| :: Dist(e, s, |l.ids|) < |l.ids| && t.slots[s] == l.ids[Dist(e, s, |l.ids|)] && t.control[s] == l.control[Dist(e, s, |l.ids|)]
  {
    var cap := |l.ids|;
    Table(seq(cap, s requires 0 <= s < cap => l.ids[Dist(e, s, cap)]), seq(cap, s requires 0 <= s < cap => l.control[Dist(e, s, cap)]))
  }

  /** Where probing for an id starts, counted from `e`. */
  function HomeLine(keys: Keys, e: nat, cap: nat): NodeId -> nat {
    (id: NodeId) => if id in keys.hashes && e < cap then Dist(e, Home(keys, keys.hashes[id], cap), cap) else 0
  }

  /** A path from h to s that avoids e is the same stretch counted from e. */
  lemma AvoidsEmpty(e: nat, h: nat, s: nat, q: nat, cap: nat)
    requires e < cap && h < cap && s < cap && q < cap && s != e && Dist(h, e, cap) >= Dist(h, s, cap)
    ensures Dist(e, h, cap) <= Dist(e, s, cap)
    ensures Dist(h, q, cap) < Dist(h, s, cap) <==> Dist(e, h, cap) <= Dist(e, q, cap) < Dist(e, s, cap)
  {}

  lemma UnrolledFound(keys: Keys, t: Table, e: nat, o: nat)
    requires Sound(keys, t) && e < Cap(t) && t.control[e] == Empty && o < Cap(t) && Unrolled(t, e).control[o] == Full
    ensures Found(HomeLine(keys, e, Cap(t)), Unrolled(t, e), o)
  {
    hide PowerOfTwo, Home;
    var cap := Cap(t);
    var s := SlotAt(e, o, cap);
    assert IsFull(t, s);
    var h := HomeOf(keys, t, s);
    assert !OnPath(keys, t, s, e);
    AvoidsEmpty(e, h, s, s, cap);
    forall q | HomeLine(keys, e, cap)(t.slots[s]) <= q < o ensures Unrolled(t, e).control[q] != Empty {
      AvoidsEmpty(e, h, s, SlotAt(e, q, cap), cap);
      assert OnPath(keys, t, s, SlotAt(e, q, cap));
    }
  }

  lemma UnrolledStraight(keys: Keys, t: Table, e: nat)
    requires Sound(keys, t) && e < Cap(t) && t.control[e] == Empty
    ensures Straight(HomeLine(keys, e, Cap(t)), Unrolled(t, e)) && LineEntries(Unrolled(t, e)) == Entries(t)
  {
    hide PowerOfTwo, Home, Found, Reachable, Keyed;
    var l, cap := Unrolled(t, e), Cap(t);
    assert SlotAt(e, 0, cap) == e;
    forall o | 0 <= o < cap && l.control[o] == Full ensures Found(HomeLine(keys, e, cap), l, o) { UnrolledFound(keys, t, e, o); }
    forall o, p | 0 <= o < cap && 0 <= p < cap && l.control[o] == Full && l.control[p] == Full && l.ids[o] == l.ids[p] ensures o == p {
      assert IsFull(t, SlotAt(e, o, cap)) && IsFull(t, SlotAt(e, p, cap));
    }
    UnrolledEntries(t, e);
  }

  lemma UnrolledEntries(t: Table, e: nat)
    requires e < |t.slots| == |t.control|
    ensures LineEntries(Unrolled(t, e)) == Entries(t)
  {
    var l, cap := Unrolled(t, e), Cap(t);
    forall x | x in Entries(t) ensures x in LineEntries(l) {
      var s: nat :| s < cap && IsFull(t, s) && t.slots[s] == x;
      SlotOf(e, s, cap);
      assert l.control[Dist(e, s, cap)] == Full && l.ids[Dist(e, s, cap)] == x;
    }
    forall x | x in LineEntries(l) ensures x in Entries(t) {
      var o: nat :| o < cap && l.control[o] == Full && l.ids[o] == x;
      assert IsFull(t, SlotAt(e, o, cap)) && t.slots[SlotAt(e, o, cap)] == x;
    }
  }

  lemma RolledEntries(l: Line, e: nat)
    requires e < |l.ids| == |l.control|
    ensures Entries(Rolled(l, e)) == LineEntries(l)
  {
    var t, cap := Rolled(l, e), |l.ids|;
    forall x | x in Entries(t) ensures x in LineEntries(l) {
      var s: nat :| s < cap && IsFull(t, s) && t.slots[s] == x;
      assert l.control[Dist(e, s, cap)] == Full && l.ids[Dist(e, s, cap)] == x;
    }
    forall x | x in LineEntries(l) ensures x in Entries(t) {
      var o: nat :| o < cap && l.control[o] == Full && l.ids[o] == x;
      assert IsFull(t, SlotAt(e, o, cap)) && t.slots[SlotAt(e, o, cap)] == x;
    }
  }

  /** A straight line rolls up to a sound table. */
  lemma RolledSound(keys: Keys, l: Line, e: nat)
    requires e < |l.ids| == |l.control| && PowerOfTwo(|l.ids|) && Straight(HomeLine(keys, e, |l.ids|), l)
    requires LineEntries(l) <= keys.hashes.Keys
    ensures Sound(keys, Rolled(l, e)) && Entries(Rolled(l, e)) == LineEntries(l)
  {
    hide PowerOfTwo, Home;
    var t, cap := Rolled(l, e), |l.ids|;
    RolledEntries(l, e);
    forall s: nat | IsFull(t, s) ensures t.slots[s] in keys.hashes { assert t.slots[s] in Entries(t); }
    forall s: nat, u: nat | IsFull(t, s) && IsFull(t, u) && t.slots[s] == t.slots[u] ensures s == u {
      SlotOf(e, s, cap);
      SlotOf(e, u, cap);
    }
    forall s: nat, q: nat | IsFull(t, s) && q < cap && OnPath(keys, t, s, q) ensures t.control[q] != Empty {
      RolledPath(keys, l, e, s, q);
    }
  }

  lemma RolledPath(keys: Keys, l: Line, e: nat, s: nat, q: nat)
    requires e < |l.ids| == |l.control| && PowerOfTwo(|l.ids|) && Straight(HomeLine(keys, e, |l.ids|), l)
    requires IsFull(Rolled(l, e), s) && q < |l.ids| && Rolled(l, e).slots[s] in keys.hashes && OnPath(keys, Rolled(l, e), s, q)
    ensures Rolled(l, e).control[q] != Empty
  {
    hide PowerOfTwo, Home;
    var t, cap := Rolled(l, e), |l.ids|;
    var o := Dist(e, s, cap);
    assert Found(HomeLine(keys, e, cap), l, o);
    var h := HomeOf(keys, t, s);
    assert s != e;
    BehindEmpty(e, h, s, q, cap);
  }

  lemma BehindEmpty(e: nat, h: nat, s: nat, q: nat, cap: nat)
    requires e < cap && h < cap && s < cap && q < cap && s != e && Dist(e, h, cap) <= Dist(e, s, cap)
    ensures Dist(h, q, cap) < Dist(h, s, cap) ==> Dist(e, h, cap) <= Dist(e, q, cap) < Dist(e, s, cap)
  {}

  /** Drop every deleted slot of a sound table; refused when the table has no empty slot. */
  method RepairDeletions(keys: Keys, t: Table) returns (r: Option<Table>)
    requires Sound(keys, t)
    ensures r.Some? <==> exists e: nat :: e < Cap(t) && t.control[e] == Empty
    ensures r.Some? ==> Sound(keys, r.value) && Cap(r.value) == Cap(t) && Entries(r.value) == Entries(t)
    ensures r.Some? ==> forall s: nat | s < Cap(t) :: r.value.control[s] != Deleted
  {
    hide PowerOfTwo, Home, Reachable, Distinct, Straight, LineEntries, Entries;
    var e: nat := 0;
    while e < |t.control| && t.control[e] != Empty
      invariant e <= |t.control| && forall s: nat | s < e :: t.control[s] != Empty
    {
      e := e + 1;
    }
    if e == |t.control| { return None; }
    UnrolledStraight(keys, t, e);
    var line := RepairLine(HomeLine(keys, e, |t.slots|), Unrolled(t, e));
    EntriesKeyed(keys, t);
    RolledSound(keys, line, e);
    return Some(Rolled(line, e));
  }

  lemma EntriesKeyed(keys: Keys, t: Table)
    requires Sound(keys, t)
    ensures Entries(t) <= keys.hashes.Keys
  {}
}
