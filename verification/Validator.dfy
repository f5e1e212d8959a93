/** The out-of-core validator (RebuildIndexAndValidate in src/forest.cpp): two passes over
    fixed windows of records, spilling only the child edges that cross windows. */
module Validator {
  import opened Common
  import opened Records

  const WINDOW: nat := 256 * 1024

  // ---- what a valid forest is -----------------------------------------------------------

  ghost predicate RootOk(rs: seq<NodeRecord>, root: NodeId) {
    root == NO_NODE || (root < |rs| && rs[root].kind != FREE && rs[root].parent == NO_NODE)
  }

  /** The record of one id, seen by itself and through its parent link. */
  ghost predicate NodeOk(rs: seq<NodeRecord>, roots: seq<NodeId>, id: NodeId)
    requires id < |rs|
  {
    var r := rs[id];
    r.kind != FREE ==>
      && (r.kind == LEAF ==> r.left == NO_NODE && r.right == NO_NODE)
      && (r.kind == BRANCH ==> r.left < |rs| && r.right < |rs| && r.left != r.right)
      && (if r.parent == NO_NODE then id in roots
          else r.parent < |rs| && r.parent != id && rs[r.parent].kind == BRANCH
               && (rs[r.parent].left == id || rs[r.parent].right == id))
  }

  /** The children of a branch are live, point back, and hash to the branch. */
  ghost predicate BranchOk(parentHash: Combine, rs: seq<NodeRecord>, id: NodeId)
    requires id < |rs|
  {
    var r := rs[id];
    r.kind == BRANCH ==>
      && r.left < |rs| && r.right < |rs|
      && rs[r.left].kind != FREE && rs[r.left].parent == id
      && rs[r.right].kind != FREE && rs[r.right].parent == id
      && r.hash == parentHash(rs[r.left].hash, rs[r.right].hash)
  }

  ghost predicate ValidForest(parentHash: Combine, rs: seq<NodeRecord>, roots: seq<NodeId>) {
    && (forall root | root in roots :: RootOk(rs, root))
    && (forall id | 0 <= id < |rs| :: NodeOk(rs, roots, id))
    && (forall id | 0 <= id < |rs| :: BranchOk(parentHash, rs, id))
  }

  // ---- the first pass -------------------------------------------------------------------

  datatype Edge = Edge(hash: Hash, child: NodeId, parent: NodeId)

  function Bucket(id: NodeId): nat { id / WINDOW }

  /** The record's parent lies in another window. */
  predicate Spills(r: NodeRecord, id: NodeId) {
    r.kind != FREE && r.parent != NO_NODE && Bucket(r.parent) != Bucket(id)
  }

  /** What the first pass checks of one record, in its window. */
  predicate FirstCheck(rs: seq<NodeRecord>, roots: seq<NodeId>, id: NodeId)
    requires id < |rs|
  {
    var r := rs[id];
    r.kind == FREE ||
    (&& (r.kind == LEAF ==> r.left == NO_NODE && r.right == NO_NODE)
     && (r.kind == BRANCH ==> r.left < |rs| && r.right < |rs| && r.left != r.right)
     && (if r.parent == NO_NODE then id in roots
         else r.parent < |rs| && r.parent != id
              && (Bucket(r.parent) == Bucket(id) ==>
                    rs[r.parent].kind == BRANCH && (rs[r.parent].left == id || rs[r.parent].right == id))))
  }

  /** The edges the first `n` records spill into bucket b, in order. */
  function Spilled(rs: seq<NodeRecord>, n: nat, b: nat): seq<Edge>
    requires n <= |rs|
  {
    if n == 0 then []
    else
      var id, r := n - 1, rs[n - 1];
      Spilled(rs, n - 1, b) + (if Spills(r, id) && Bucket(r.parent) == b then [Edge(r.hash, id, r.parent)] else [])
  }

  lemma {:induction false} SpilledEdge(rs: seq<NodeRecord>, n: nat, b: nat, k: nat)
    requires n <= |rs| && k < |Spilled(rs, n, b)|
    ensures var e := Spilled(rs, n, b)[k];
            e.child < n && Spills(rs[e.child], e.child) && e == Edge(rs[e.child].hash, e.child, rs[e.child].parent) && Bucket(e.parent) == b
    decreases n
  {
    if k < |Spilled(rs, n - 1, b)| { SpilledEdge(rs, n - 1, b, k); }
  }

  lemma {:induction false} SpilledOnce(rs: seq<NodeRecord>, n: nat, b: nat, j: nat, k: nat)
    requires n <= |rs| && j < k < |Spilled(rs, n, b)|
    ensures Spilled(rs, n, b)[j].child < Spilled(rs, n, b)[k].child
    decreases n
  {
    if k < |Spilled(rs, n - 1, b)| { SpilledOnce(rs, n - 1, b, j, k); }
    else { SpilledEdge(rs, n - 1, b, j); }
  }

  lemma {:induction false} SpilledHas(rs: seq<NodeRecord>, n: nat, b: nat, id: NodeId) returns (k: nat)
    requires id < n <= |rs| && Spills(rs[id], id) && Bucket(rs[id].parent) == b
    ensures k < |Spilled(rs, n, b)| && Spilled(rs, n, b)[k] == Edge(rs[id].hash, id, rs[id].parent)
    decreases n
  {
    if id == n - 1 { k := |Spilled(rs, n - 1, b)|; } else { k := SpilledHas(rs, n - 1, b, id); }
  }

  // ---- no bucket overflows in a valid forest --------------------------------------------

  ghost predicate Distinct(xs: seq<nat>) { forall i, j | 0 <= i < j < |xs| :: xs[i] != xs[j] }

  lemma {:induction false} Pigeonhole(xs: seq<nat>, n: nat)
    requires Distinct(xs) && forall i | 0 <= i < |xs| :: xs[i] < n
    ensures |xs| <= n
    decreases n
  {
    if xs != [] {
      if n - 1 in xs {
        var k :| 0 <= k < |xs| && xs[k] == n - 1;
        var ys := xs[..k] + xs[k + 1..];
        forall i | 0 <= i < |ys| ensures ys[i] < n - 1 { assert ys[i] == if i < k then xs[i] else xs[i + 1]; }
        forall i, j | 0 <= i < j < |ys| ensures ys[i] != ys[j] {
          assert ys[i] == if i < k then xs[i] else xs[i + 1];
          assert ys[j] == if j < k then xs[j] else xs[j + 1];
        }
        Pigeonhole(ys, n - 1);
      } else {
        forall i | 0 <= i < |xs| ensures xs[i] < n - 1 { assert xs[i] in xs; }
        Pigeonhole(xs, n - 1);
      }
    }
  }

  /** The place of a child among the two slots of every branch of its parent's window. */
  function SlotOf(rs: seq<NodeRecord>, e: Edge): nat
    requires e.parent < |rs|
  { 2 * (e.parent % WINDOW) + (if rs[e.parent].left == e.child then 0 else 1) }

  lemma SpilledBound(parentHash: Combine, rs: seq<NodeRecord>, roots: seq<NodeId>, n: nat, b: nat)
    requires n <= |rs| && ValidForest(parentHash, rs, roots)
    ensures |Spilled(rs, n, b)| <= 2 * WINDOW
  {
    hide Spilled, BranchOk, RootOk;
    var es := Spilled(rs, n, b);
    forall k | 0 <= k < |es| ensures es[k].parent < |rs| && SlotOf(rs, es[k]) < 2 * WINDOW {
      SpilledEdge(rs, n, b, k);
      assert NodeOk(rs, roots, es[k].child);
    }
    var slots := seq(|es|, k requires 0 <= k < |es| => SlotOf(rs, es[k]));
    forall i, j | 0 <= i < j < |slots| ensures slots[i] != slots[j] {
      SpilledEdge(rs, n, b, i);
      SpilledEdge(rs, n, b, j);
      SpilledOnce(rs, n, b, i, j);
      SlotsDiffer(rs, roots, es[i], es[j]);
    }
    Pigeonhole(slots, 2 * WINDOW);
  }

  lemma SlotsDiffer(rs: seq<NodeRecord>, roots: seq<NodeId>, d: Edge, e: Edge)
    requires d.child < |rs| && e.child < |rs| && d.child != e.child && NodeOk(rs, roots, d.child) && NodeOk(rs, roots, e.child)
    requires Spills(rs[d.child], d.child) && rs[d.child].parent == d.parent < |rs|
    requires Spills(rs[e.child], e.child) && rs[e.child].parent == e.parent < |rs|
    requires Bucket(d.parent) == Bucket(e.parent)
    ensures SlotOf(rs, d) != SlotOf(rs, e)
  {}

  // ---- the second pass ------------------------------------------------------------------

  /** Which children of a branch were met, and the hash of the first. */
  datatype Seen = Seen(left: bool, right: bool, pending: Option<Hash>)

  /** Meet one child of a parent record: the updated state, or a refusal. */
  function Meet(parentHash: Combine, parent: NodeRecord, seen: Seen, child: NodeId, hash: Hash): Option<Seen> {
    var isLeft := parent.left == child;
    var isRight := !isLeft && parent.right == child;
    if parent.kind != BRANCH || (!isLeft && !isRight) || (isLeft && seen.left) || (isRight && seen.right) then None
    else if !seen.left && !seen.right then Some(Seen(isLeft, isRight, Some(hash)))
    else if seen.pending.None? then None
    else
      var combined := if isLeft then parentHash(hash, seen.pending.value) else parentHash(seen.pending.value, hash);
      if combined != parent.hash then None else Some(Seen(true, true, seen.pending))
  }

  /** What `seen` must say of branch `id` once the children in `met` were met. */
  ghost predicate Tracks(parentHash: Combine, rs: seq<NodeRecord>, id: NodeId, seen: Seen, met: set<NodeId>)
    requires id < |rs|
  {
    var r := rs[id];
    && (r.kind == BRANCH ==>
        && r.left < |rs| && r.right < |rs| && r.left != r.right
        && (seen.left <==> r.left in met) && (seen.right <==> r.right in met)
        && (seen.left || seen.right <==> seen.pending.Some?)
        && (seen.left && !seen.right ==> seen.pending.value == rs[r.left].hash)
        && (seen.right && !seen.left ==> seen.pending.value == rs[r.right].hash)
        && (seen.left && seen.right ==> r.hash == parentHash(rs[r.left].hash, rs[r.right].hash)))
    && (r.kind != BRANCH ==> seen == Seen(false, false, None))
  }

  /** Meeting a child that has not been met: accepted unless the branch or its hash is wrong. */
  lemma MeetTracks(parentHash: Combine, rs: seq<NodeRecord>, id: NodeId, seen: Seen, met: set<NodeId>, child: NodeId)
    requires id < |rs| && child < |rs| && Tracks(parentHash, rs, id, seen, met) && child !in met
    ensures var r := rs[id];
            var m := Meet(parentHash, r, seen, child, rs[child].hash);
            && (m.Some? ==> r.kind == BRANCH && (r.left == child || r.right == child) && Tracks(parentHash, rs, id, m.value, met + {child}))
            && (m.None? ==> !(r.kind == BRANCH && (r.left == child || r.right == child)) || !BranchOk(parentHash, rs, id))
  {}

  // ---- the passes as loops --------------------------------------------------------------

  function FreeBelow(rs: seq<NodeRecord>, n: nat): seq<NodeId>
    requires n <= |rs|
  { if n == 0 then [] else FreeBelow(rs, n - 1) + (if rs[n - 1].kind == FREE then [n - 1] else []) }

  function LeavesBelow(rs: seq<NodeRecord>, n: nat): seq<NodeId>
    requires n <= |rs|
  { if n == 0 then [] else LeavesBelow(rs, n - 1) + (if rs[n - 1].kind == LEAF then [n - 1] else []) }

  function Buckets(n: nat): nat { (n + WINDOW - 1) / WINDOW }

  function WindowEnd(first: nat, n: nat): nat { if first + WINDOW <= n then first + WINDOW else n }

  ghost predicate EdgesUpTo(rs: seq<NodeRecord>, edges: seq<seq<Edge>>, n: nat)
    requires n <= |rs|
  { |edges| == Buckets(|rs|) && forall b | 0 <= b < |edges| :: edges[b] == Spilled(rs, n, b) }

  /** Roots are in range, and those of this window are live and parentless. */
  method CheckRoots(rs: seq<NodeRecord>, roots: seq<NodeId>, first: nat) returns (ok: bool)
    ensures ok <==> forall root | root in roots ::
              root == NO_NODE || (root < |rs| && (first <= root < WindowEnd(first, |rs|) ==> RootOk(rs, root)))
  {
    var end := WindowEnd(first, |rs|);
    for i := 0 to |roots|
      invariant forall j | 0 <= j < i ::
                  roots[j] == NO_NODE || (roots[j] < |rs| && (first <= roots[j] < end ==> RootOk(rs, roots[j])))
    {
      var root := roots[i];
      assert root in roots;
      if root != NO_NODE {
        if root >= |rs| { return false; }
        if first <= root < end && (rs[root].kind == FREE || rs[root].parent != NO_NODE) { return false; }
      }
    }
    return true;
  }

  method ScanWindow(ghost parentHash: Combine, rs: seq<NodeRecord>, roots: seq<NodeId>, first: nat, edges: seq<seq<Edge>>, freeIds: seq<NodeId>)
    returns (ok: bool, edges': seq<seq<Edge>>, freeIds': seq<NodeId>)
    requires first < |rs| && first % WINDOW == 0 && EdgesUpTo(rs, edges, first) && freeIds == FreeBelow(rs, first)
    ensures ok ==> EdgesUpTo(rs, edges', WindowEnd(first, |rs|)) && freeIds' == FreeBelow(rs, WindowEnd(first, |rs|))
    ensures ok ==> forall id | first <= id < WindowEnd(first, |rs|) :: FirstCheck(rs, roots, id)
    ensures ok ==> forall root | root in roots && root != NO_NODE ::
                     root < |rs| && (first <= root < WindowEnd(first, |rs|) ==> RootOk(rs, root))
    ensures !ok ==> !ValidForest(parentHash, rs, roots)
  {
    hide Spilled, BranchOk;
    edges', freeIds' := edges, freeIds;
    var end := WindowEnd(first, |rs|);
    ok := CheckRoots(rs, roots, first);
    if !ok { return; }
    var id := first;
    while id < end
      invariant first <= id <= end && EdgesUpTo(rs, edges', id) && freeIds' == FreeBelow(rs, id)
      invariant forall j | first <= j < id :: FirstCheck(rs, roots, j)
    {
      ok := FirstCheck(rs, roots, id);
      if !ok { NodeRefused(parentHash, rs, roots, id); return; }
      var r := rs[id];
      if r.kind == FREE { freeIds' := freeIds' + [id]; }
      var added, grown := AppendEdge(parentHash, rs, roots, id, edges');
      ok := added;
      if !ok { return; }
      edges' := grown;
      id := id + 1;
    }
  }

  lemma NodeRefused(parentHash: Combine, rs: seq<NodeRecord>, roots: seq<NodeId>, id: NodeId)
    requires id < |rs| && !FirstCheck(rs, roots, id)
    ensures !ValidForest(parentHash, rs, roots)
  {
    hide BranchOk;
    assert !NodeOk(rs, roots, id);
  }

  /** Spill the edge of a record whose parent lies in another window; a bucket never holds more
      than two children for each slot of its window. */
  method AppendEdge(ghost parentHash: Combine, rs: seq<NodeRecord>, roots: seq<NodeId>, id: NodeId, edges: seq<seq<Edge>>)
    returns (ok: bool, edges': seq<seq<Edge>>)
    requires id < |rs| && FirstCheck(rs, roots, id) && EdgesUpTo(rs, edges, id)
    ensures ok ==> EdgesUpTo(rs, edges', id + 1)
    ensures !ok ==> !ValidForest(parentHash, rs, roots)
  {
    hide BranchOk, NodeOk, ValidForest;
    edges' := edges;
    var r := rs[id];
    if Spills(r, id) {
      var b := Bucket(r.parent);
      if |edges[b]| >= 2 * WINDOW {
        if ValidForest(parentHash, rs, roots) { SpilledBound(parentHash, rs, roots, id + 1, b); }
        return false, edges;
      }
      edges' := edges[b := edges[b] + [Edge(r.hash, id, r.parent)]];
    }
    ok := true;
  }

  // ---- second pass ----------------------------------------------------------------------

  /** The children met so far are live and point back at their branch. */
  ghost predicate MetOk(rs: seq<NodeRecord>, id: NodeId, met: set<NodeId>) {
    forall c | c in met :: c < |rs| && rs[c].kind != FREE && rs[c].parent == id
  }

  /** State of the second pass over the window that starts at `first`. */
  ghost predicate Window(parentHash: Combine, rs: seq<NodeRecord>, first: nat, seen: seq<Seen>, met: seq<set<NodeId>>) {
    && first + |seen| <= |rs| && |met| == |seen|
    && forall o | 0 <= o < |seen| :: Tracks(parentHash, rs, first + o, seen[o], met[o]) && MetOk(rs, first + o, met[o])
  }

  /** A child of `id` that lies in its own window. */
  predicate Inside(first: nat, count: nat, c: NodeId) { first <= c < first + count }

  /** Met sets only hold children of this window, before edges are read. */
  ghost predicate Local(first: nat, met: seq<set<NodeId>>) {
    forall o, c | 0 <= o < |met| && c in met[o] :: Inside(first, |met|, c)
  }

  /** Meet one in-window child of a branch. */
  method MeetInside(parentHash: Combine, rs: seq<NodeRecord>, roots: seq<NodeId>, first: nat, o: nat, c: NodeId, seen: seq<Seen>, ghost met: seq<set<NodeId>>)
    returns (ok: bool, seen': seq<Seen>, ghost met': seq<set<NodeId>>)
    requires Window(parentHash, rs, first, seen, met) && Local(first, met) && o < |seen| && rs[first + o].kind == BRANCH
    requires (c == rs[first + o].left || c == rs[first + o].right) && c !in met[o]
    ensures |seen'| == |seen|
    ensures ok ==> Window(parentHash, rs, first, seen', met') && Local(first, met')
    ensures ok ==> met' == if Inside(first, |seen|, c) then met[o := met[o] + {c}] else met
    ensures !ok ==> !ValidForest(parentHash, rs, roots)
  {
    hide Tracks, Meet, NodeOk;
    seen', met' := seen, met;
    var id := first + o;
    if !Inside(first, |seen|, c) { return true, seen, met; }
    if rs[c].kind == FREE || rs[c].parent != id {
      assert !BranchOk(parentHash, rs, id);
      return false, seen, met;
    }
    assert Tracks(parentHash, rs, id, seen[o], met[o]);
    MeetTracks(parentHash, rs, id, seen[o], met[o], c);
    var m := Meet(parentHash, rs[id], seen[o], c, rs[c].hash);
    if m.None? { return false, seen, met; }
    seen' := seen[o := m.value];
    met' := met[o := met[o] + {c}];
    ok := true;
  }

  /** Every in-window child of the first n branches of the window was met. */
  ghost predicate MetInside(rs: seq<NodeRecord>, first: nat, met: seq<set<NodeId>>, n: nat)
    requires n <= |met| && first + |met| <= |rs|
  {
    && (forall o | n <= o < |met| :: met[o] == {})
    && forall o | 0 <= o < n && rs[first + o].kind == BRANCH ::
         && (Inside(first, |met|, rs[first + o].left) ==> rs[first + o].left in met[o])
         && (Inside(first, |met|, rs[first + o].right) ==> rs[first + o].right in met[o])
  }

  method MeetWindow(parentHash: Combine, rs: seq<NodeRecord>, roots: seq<NodeId>, first: nat, count: nat)
    returns (ok: bool, seen: seq<Seen>, ghost met: seq<set<NodeId>>)
    requires first + count <= |rs| && forall id | first <= id < first + count :: FirstCheck(rs, roots, id)
    ensures ok ==> |seen| == count && Window(parentHash, rs, first, seen, met) && Local(first, met) && MetInside(rs, first, met, count)
    ensures !ok ==> !ValidForest(parentHash, rs, roots)
  {
    hide ValidForest, Meet, NodeOk;
    seen := seq(count, _ => Seen(false, false, None));
    met := seq(count, _ => {});
    FreshWindow(parentHash, rs, roots, first, count);
    var o := 0;
    while o < count
      invariant 0 <= o <= count && |seen| == count && Window(parentHash, rs, first, seen, met) && Local(first, met)
      invariant MetInside(rs, first, met, o)
    {
      var r := rs[first + o];
      if r.kind == BRANCH {
        assert FirstCheck(rs, roots, first + o);
        ghost var was := met;
        ok, seen, met := MeetInside(parentHash, rs, roots, first, o, r.left, seen, met);
        if !ok { return; }
        ok, seen, met := MeetInside(parentHash, rs, roots, first, o, r.right, seen, met);
        if !ok { return; }
        MetNext(rs, first, was, met, o);
      }
      o := o + 1;
    }
    ok := true;
  }

  lemma FreshWindow(parentHash: Combine, rs: seq<NodeRecord>, roots: seq<NodeId>, first: nat, count: nat)
    requires first + count <= |rs| && forall id | first <= id < first + count :: FirstCheck(rs, roots, id)
    ensures Window(parentHash, rs, first, seq(count, _ => Seen(false, false, None)), seq(count, _ => {}))
  {
    var seen: seq<Seen> := seq(count, _ => Seen(false, false, None));
    var met: seq<set<NodeId>> := seq(count, _ => {});
    forall o | 0 <= o < |seen| ensures Tracks(parentHash, rs, first + o, seen[o], met[o]) && MetOk(rs, first + o, met[o]) {
      assert FirstCheck(rs, roots, first + o);
    }
  }

  lemma MetNext(rs: seq<NodeRecord>, first: nat, was: seq<set<NodeId>>, met: seq<set<NodeId>>, o: nat)
    requires o < |was| == |met| && first + |met| <= |rs| && MetInside(rs, first, was, o)
    requires forall j | 0 <= j < |met| && j != o :: met[j] == was[j]
    requires Inside(first, |met|, rs[first + o].left) ==> rs[first + o].left in met[o]
    requires Inside(first, |met|, rs[first + o].right) ==> rs[first + o].right in met[o]
    ensures MetInside(rs, first, met, o + 1)
  {}

  /** The first k edges of the bucket were met. */
  ghost predicate MetEdges(rs: seq<NodeRecord>, first: nat, met: seq<set<NodeId>>, es: seq<Edge>, k: nat)
    requires k <= |es|
  {
    && (forall j | 0 <= j < k :: first <= es[j].parent < first + |met| && es[j].child in met[es[j].parent - first]
                                 && es[j].parent < |rs| && rs[es[j].parent].kind == BRANCH
                                 && (rs[es[j].parent].left == es[j].child || rs[es[j].parent].right == es[j].child))
    && (forall o, c | 0 <= o < |met| && c in met[o] :: Inside(first, |met|, c) || exists j :: 0 <= j < k && es[j].child == c)
  }

  method ReadEdges(parentHash: Combine, rs: seq<NodeRecord>, roots: seq<NodeId>, first: nat, es: seq<Edge>, seen0: seq<Seen>, ghost met0: seq<set<NodeId>>)
    returns (ok: bool, seen: seq<Seen>, ghost met: seq<set<NodeId>>)
    requires first % WINDOW == 0 && |seen0| == WindowEnd(first, |rs|) - first && first < |rs|
    requires es == Spilled(rs, |rs|, Bucket(first))
    requires forall id | 0 <= id < |rs| :: FirstCheck(rs, roots, id)
    requires Window(parentHash, rs, first, seen0, met0) && Local(first, met0)
    ensures ok ==> |seen| == |seen0| == |met| && Window(parentHash, rs, first, seen, met) && MetEdges(rs, first, met, es, |es|)
    ensures ok ==> forall o | 0 <= o < |met| :: met0[o] <= met[o]
    ensures !ok ==> !ValidForest(parentHash, rs, roots)
  {
    hide ValidForest, Meet, Tracks, NodeOk, BranchOk, Spilled, Window, MetEdges, FirstCheck;
    seen, met := seen0, met0;
    WindowSizes(parentHash, rs, first, seen, met);
    NoEdges(rs, first, met, es);
    var k := 0;
    while k < |es|
      invariant 0 <= k <= |es| && |seen| == |seen0| == |met| && Window(parentHash, rs, first, seen, met)
      invariant MetEdges(rs, first, met, es, k) && forall o | 0 <= o < |met| :: met0[o] <= met[o]
    {
      EdgeInWindow(rs, roots, first, k);
      var e := es[k];
      var o := e.parent - first;
      EdgeFresh(rs, first, met, es, k, o);
      WindowAt(parentHash, rs, first, seen, met, o);
      MeetTracks(parentHash, rs, e.parent, seen[o], met[o], e.child);
      var m := Meet(parentHash, rs[e.parent], seen[o], e.child, e.hash);
      if m.None? { EdgeRefused(parentHash, rs, roots, e); return false, seen, met; }
      WindowSet(parentHash, rs, first, seen, met, o, m.value, e.child);
      MetEdgesNext(rs, first, met, es, k);
      seen := seen[o := m.value];
      met := met[o := met[o] + {e.child}];
      k := k + 1;
    }
    ok := true;
  }

  lemma WindowSizes(parentHash: Combine, rs: seq<NodeRecord>, first: nat, seen: seq<Seen>, met: seq<set<NodeId>>)
    requires Window(parentHash, rs, first, seen, met)
    ensures |met| == |seen| && first + |seen| <= |rs|
  {}

  lemma NoEdges(rs: seq<NodeRecord>, first: nat, met: seq<set<NodeId>>, es: seq<Edge>)
    requires Local(first, met)
    ensures MetEdges(rs, first, met, es, 0)
  {}

  lemma WindowAt(parentHash: Combine, rs: seq<NodeRecord>, first: nat, seen: seq<Seen>, met: seq<set<NodeId>>, o: nat)
    requires Window(parentHash, rs, first, seen, met) && o < |seen|
    ensures o < |met| && first + o < |rs| && Tracks(parentHash, rs, first + o, seen[o], met[o])
  {}

  lemma WindowSet(parentHash: Combine, rs: seq<NodeRecord>, first: nat, seen: seq<Seen>, met: seq<set<NodeId>>, o: nat, m: Seen, c: NodeId)
    requires Window(parentHash, rs, first, seen, met) && o < |seen| && o < |met|
    requires c < |rs| && rs[c].kind != FREE && rs[c].parent == first + o < |rs| && Tracks(parentHash, rs, first + o, m, met[o] + {c})
    ensures Window(parentHash, rs, first, seen[o := m], met[o := met[o] + {c}])
  {
    hide Tracks;
  }

  lemma MetEdgesNext(rs: seq<NodeRecord>, first: nat, met: seq<set<NodeId>>, es: seq<Edge>, k: nat)
    requires k < |es| && MetEdges(rs, first, met, es, k)
    requires var e := es[k];
             && first <= e.parent < first + |met| && e.parent < |rs| && rs[e.parent].kind == BRANCH
             && (rs[e.parent].left == e.child || rs[e.parent].right == e.child)
    ensures var o := es[k].parent - first;
            MetEdges(rs, first, met[o := met[o] + {es[k].child}], es, k + 1)
  {
    var o := es[k].parent - first;
    var met' := met[o := met[o] + {es[k].child}];
    forall p, c | 0 <= p < |met'| && c in met'[p] && !Inside(first, |met'|, c)
      ensures exists j :: 0 <= j < k + 1 && es[j].child == c
    {
      if c in met[p] {
        var j :| 0 <= j < k && es[j].child == c;
        assert 0 <= j < k + 1;
      } else {
        assert es[k].child == c;
      }
    }
  }

  lemma EdgeInWindow(rs: seq<NodeRecord>, roots: seq<NodeId>, first: nat, k: nat)
    requires first % WINDOW == 0 && first < |rs| && k < |Spilled(rs, |rs|, Bucket(first))|
    requires forall id | 0 <= id < |rs| :: FirstCheck(rs, roots, id)
    ensures var e := Spilled(rs, |rs|, Bucket(first))[k];
            && first <= e.parent < WindowEnd(first, |rs|) && e.child < |rs| && e.hash == rs[e.child].hash
            && rs[e.child].kind != FREE && rs[e.child].parent == e.parent != NO_NODE && !Inside(first, WindowEnd(first, |rs|) - first, e.child)
  {
    SpilledEdge(rs, |rs|, Bucket(first), k);
    var e := Spilled(rs, |rs|, Bucket(first))[k];
    assert FirstCheck(rs, roots, e.child);
  }

  lemma EdgeFresh(rs: seq<NodeRecord>, first: nat, met: seq<set<NodeId>>, es: seq<Edge>, k: nat, o: nat)
    requires es == Spilled(rs, |rs|, Bucket(first)) && k < |es| && o < |met|
    requires MetEdges(rs, first, met, es, k) && !Inside(first, |met|, es[k].child)
    ensures es[k].child !in met[o]
  {
    forall j | 0 <= j < k ensures es[j].child != es[k].child { SpilledOnce(rs, |rs|, Bucket(first), j, k); }
  }

  lemma EdgeRefused(parentHash: Combine, rs: seq<NodeRecord>, roots: seq<NodeId>, e: Edge)
    requires e.child < |rs| && e.parent < |rs| && rs[e.child].kind != FREE && rs[e.child].parent == e.parent && e.parent != NO_NODE
    requires !(rs[e.parent].kind == BRANCH && (rs[e.parent].left == e.child || rs[e.parent].right == e.child))
             || !BranchOk(parentHash, rs, e.parent)
    ensures !ValidForest(parentHash, rs, roots)
  {
    assert !NodeOk(rs, roots, e.child) || !BranchOk(parentHash, rs, e.parent);
  }

  /** After both children of every branch were met, the window's branches are right. */
  method CheckSeen(parentHash: Combine, rs: seq<NodeRecord>, roots: seq<NodeId>, first: nat, es: seq<Edge>, seen: seq<Seen>, ghost met: seq<set<NodeId>>)
    returns (ok: bool)
    requires first % WINDOW == 0 && first < |rs| && |seen| == WindowEnd(first, |rs|) - first == |met|
    requires es == Spilled(rs, |rs|, Bucket(first)) && Window(parentHash, rs, first, seen, met)
    requires MetInside(rs, first, met, |met|) && MetEdges(rs, first, met, es, |es|) && |rs| <= NO_NODE
    ensures ok ==> forall id | first <= id < first + |seen| :: BranchOk(parentHash, rs, id)
    ensures !ok ==> !ValidForest(parentHash, rs, roots)
  {
    hide Spilled, MetInside, MetEdges, Window, Tracks, NodeOk;
    for o := 0 to |seen|
      invariant forall id | first <= id < first + o :: BranchOk(parentHash, rs, id)
    {
      if rs[first + o].kind == BRANCH {
        BothSeen(parentHash, rs, roots, first, es, seen, met, o);
        if !seen[o].left || !seen[o].right { return false; }
      }
    }
    return true;
  }

  lemma BothSeen(parentHash: Combine, rs: seq<NodeRecord>, roots: seq<NodeId>, first: nat, es: seq<Edge>, seen: seq<Seen>, met: seq<set<NodeId>>, o: nat)
    requires first % WINDOW == 0 && first < |rs| && |seen| == WindowEnd(first, |rs|) - first == |met| && o < |seen|
    requires es == Spilled(rs, |rs|, Bucket(first)) && Window(parentHash, rs, first, seen, met)
    requires MetInside(rs, first, met, |met|) && MetEdges(rs, first, met, es, |es|)
    requires rs[first + o].kind == BRANCH && |rs| <= NO_NODE
    ensures seen[o].left && seen[o].right ==> BranchOk(parentHash, rs, first + o)
    ensures !(seen[o].left && seen[o].right) ==> !ValidForest(parentHash, rs, roots)
  {
    hide Spilled, ValidForest, MetEdges, MetInside, Spills, NodeOk;
    var r := rs[first + o];
    assert Tracks(parentHash, rs, first + o, seen[o], met[o]) && MetOk(rs, first + o, met[o]);
    if ValidForest(parentHash, rs, roots) {
      ChildMet(parentHash, rs, roots, first, es, met, o, r.left);
      ChildMet(parentHash, rs, roots, first, es, met, o, r.right);
    }
  }

  lemma ChildMet(parentHash: Combine, rs: seq<NodeRecord>, roots: seq<NodeId>, first: nat, es: seq<Edge>, met: seq<set<NodeId>>, o: nat, c: NodeId)
    requires first % WINDOW == 0 && first < |rs| && |met| == WindowEnd(first, |rs|) - first && o < |met|
    requires es == Spilled(rs, |rs|, Bucket(first)) && MetInside(rs, first, met, |met|) && MetEdges(rs, first, met, es, |es|)
    requires rs[first + o].kind == BRANCH && (c == rs[first + o].left || c == rs[first + o].right)
    requires ValidForest(parentHash, rs, roots) && |rs| <= NO_NODE
    ensures c in met[o]
  {
    hide Spilled, NodeOk, Bucket, MetEdges, MetInside, ValidForest, BranchOk;
    ChildLinks(parentHash, rs, roots, first + o);
    if Inside(first, |met|, c) {
      InsideMet(rs, first, met, o);
    } else {
      CrossWindow(first, |rs|, o, c);
      var k := SpilledHas(rs, |rs|, Bucket(first), c);
      EdgeMet(rs, first, met, es, k);
    }
  }

  lemma ChildLinks(parentHash: Combine, rs: seq<NodeRecord>, roots: seq<NodeId>, id: NodeId)
    requires ValidForest(parentHash, rs, roots) && id < |rs| && rs[id].kind == BRANCH
    ensures rs[id].left < |rs| && rs[id].right < |rs|
    ensures rs[rs[id].left].kind != FREE && rs[rs[id].left].parent == id
    ensures rs[rs[id].right].kind != FREE && rs[rs[id].right].parent == id
  {
    hide NodeOk;
    assert BranchOk(parentHash, rs, id);
  }

  lemma InsideMet(rs: seq<NodeRecord>, first: nat, met: seq<set<NodeId>>, o: nat)
    requires first + |met| <= |rs| && MetInside(rs, first, met, |met|) && o < |met| && rs[first + o].kind == BRANCH
    ensures Inside(first, |met|, rs[first + o].left) ==> rs[first + o].left in met[o]
    ensures Inside(first, |met|, rs[first + o].right) ==> rs[first + o].right in met[o]
  {}

  lemma EdgeMet(rs: seq<NodeRecord>, first: nat, met: seq<set<NodeId>>, es: seq<Edge>, k: nat)
    requires MetEdges(rs, first, met, es, |es|) && k < |es|
    ensures first <= es[k].parent < first + |met| && es[k].child in met[es[k].parent - first]
  {
  }

  lemma CrossWindow(first: nat, n: nat, o: nat, c: NodeId)
    requires first % WINDOW == 0 && first < n && o < WindowEnd(first, n) - first && c < n && !Inside(first, WindowEnd(first, n) - first, c)
    ensures Bucket(first + o) == Bucket(first) && Bucket(c) != Bucket(first)
  {}

  // ---- both passes ----------------------------------------------------------------------

  /** What a successful validation rebuilds: free ids and indexed leaves, ascending. */
  datatype Rebuilt = Rebuilt(freeIds: seq<NodeId>, leafIds: seq<NodeId>)

  method FirstPass(ghost parentHash: Combine, rs: seq<NodeRecord>, roots: seq<NodeId>)
    returns (ok: bool, edges: seq<seq<Edge>>, freeIds: seq<NodeId>)
    ensures ok ==> EdgesUpTo(rs, edges, |rs|) && freeIds == FreeBelow(rs, |rs|)
    ensures ok ==> forall id | 0 <= id < |rs| :: FirstCheck(rs, roots, id)
    ensures ok ==> forall root | root in roots :: RootOk(rs, root)
    ensures !ok ==> !ValidForest(parentHash, rs, roots)
  {
    hide Spilled, FirstCheck, BranchOk, NodeOk, FreeBelow, Buckets;
    edges := seq(Buckets(|rs|), _ => []);
    freeIds := [];
    NothingYet(rs, edges);
    var first := 0;
    while first < |rs|
      invariant first % WINDOW == 0 || first == |rs|
      invariant 0 <= first <= |rs| && EdgesUpTo(rs, edges, first) && freeIds == FreeBelow(rs, first)
      invariant forall id | 0 <= id < first :: FirstCheck(rs, roots, id)
      invariant forall root | root in roots && root < first && root != NO_NODE :: RootOk(rs, root)
    {
      ok, edges, freeIds := ScanWindow(parentHash, rs, roots, first, edges, freeIds);
      if !ok { return; }
      first := WindowEnd(first, |rs|);
    }
    // The empty forest has no windows in which to check its roots.
    for i := 0 to |roots|
      invariant forall j | 0 <= j < i :: RootOk(rs, roots[j])
    {
      assert roots[i] in roots;
      if roots[i] != NO_NODE && roots[i] >= |rs| { return false, edges, freeIds; }
    }
    ok := true;
  }

  lemma NothingYet(rs: seq<NodeRecord>, edges: seq<seq<Edge>>)
    requires edges == seq(Buckets(|rs|), _ => [])
    ensures EdgesUpTo(rs, edges, 0) && FreeBelow(rs, 0) == []
  {}

  method SecondPass(parentHash: Combine, rs: seq<NodeRecord>, roots: seq<NodeId>, edges: seq<seq<Edge>>) returns (ok: bool)
    requires EdgesUpTo(rs, edges, |rs|) && |rs| <= NO_NODE && forall id | 0 <= id < |rs| :: FirstCheck(rs, roots, id)
    ensures ok ==> forall id | 0 <= id < |rs| :: BranchOk(parentHash, rs, id)
    ensures ok ==> forall b, k | 0 <= b < |edges| && 0 <= k < |edges[b]| :: EdgeOk(rs, edges[b][k])
    ensures !ok ==> !ValidForest(parentHash, rs, roots)
  {
    hide Spilled, FirstCheck, BranchOk, NodeOk, ValidForest, EdgesUpTo, EdgeOk, Bucket, Buckets, WindowEnd;
    var first: nat := 0;
    ghost var w: nat := 0;
    EdgesCount(rs, edges);
    WindowStep(0, |rs|);
    while first < |rs|
      invariant w <= |edges| == Buckets(|rs|) && first == Reached(w, |rs|)
      invariant forall id | 0 <= id < first :: BranchOk(parentHash, rs, id)
      invariant forall b, k | 0 <= b < w && 0 <= k < |edges[b]| :: EdgeOk(rs, edges[b][k])
      decreases |rs| - first
    {
      WindowStep(w, |rs|);
      EdgesAt(rs, edges, w);
      var b := Bucket(first);
      ok := CheckWindow(parentHash, rs, roots, first, edges[b]);
      if !ok { return; }
      first := WindowEnd(first, |rs|);
      w := w + 1;
    }
    WindowStep(w, |rs|);
    ok := true;
  }

  /** Where w windows end. */
  function Reached(w: nat, n: nat): (r: nat)
    ensures r <= n
  { if w * WINDOW <= n then w * WINDOW else n }

  lemma WindowStep(w: nat, n: nat)
    ensures Reached(0, n) == 0
    ensures Reached(w, n) < n ==> Reached(w, n) % WINDOW == 0 && Bucket(Reached(w, n)) == w < Buckets(n)
    ensures Reached(w, n) < n ==> WindowEnd(Reached(w, n), n) == Reached(w + 1, n) > Reached(w, n)
    ensures Reached(w, n) == n ==> Buckets(n) <= w
  {}

  lemma EdgesCount(rs: seq<NodeRecord>, edges: seq<seq<Edge>>)
    requires EdgesUpTo(rs, edges, |rs|)
    ensures |edges| == Buckets(|rs|)
  {}

  lemma EdgesAt(rs: seq<NodeRecord>, edges: seq<seq<Edge>>, b: nat)
    requires EdgesUpTo(rs, edges, |rs|)
    ensures b < |edges| ==> edges[b] == Spilled(rs, |rs|, b)
  {
    hide Spilled;
  }

  /** A spilled child is one of the two children of its parent branch. */
  ghost predicate EdgeOk(rs: seq<NodeRecord>, e: Edge) {
    e.parent < |rs| && rs[e.parent].kind == BRANCH && (rs[e.parent].left == e.child || rs[e.parent].right == e.child)
  }

  method CheckWindow(parentHash: Combine, rs: seq<NodeRecord>, roots: seq<NodeId>, first: nat, es: seq<Edge>) returns (ok: bool)
    requires first % WINDOW == 0 && first < |rs| <= NO_NODE && es == Spilled(rs, |rs|, Bucket(first))
    requires forall id | 0 <= id < |rs| :: FirstCheck(rs, roots, id)
    ensures ok ==> forall id | first <= id < WindowEnd(first, |rs|) :: BranchOk(parentHash, rs, id)
    ensures ok ==> forall k | 0 <= k < |es| :: EdgeOk(rs, es[k])
    ensures !ok ==> !ValidForest(parentHash, rs, roots)
  {
    hide Spilled, FirstCheck, BranchOk, NodeOk, ValidForest, Window, MetInside, MetEdges, Tracks;
    var seen: seq<Seen>;
    ghost var met: seq<set<NodeId>>;
    ok, seen, met := MeetWindow(parentHash, rs, roots, first, WindowEnd(first, |rs|) - first);
    if !ok { return; }
    WindowSizes(parentHash, rs, first, seen, met);
    ghost var met0 := met;
    ok, seen, met := ReadEdges(parentHash, rs, roots, first, es, seen, met);
    if !ok { return; }
    MetGrows(rs, first, met0, met);
    EdgesMet(rs, first, met, es);
    ok := CheckSeen(parentHash, rs, roots, first, es, seen, met);
  }

  lemma MetGrows(rs: seq<NodeRecord>, first: nat, met: seq<set<NodeId>>, met': seq<set<NodeId>>)
    requires |met| == |met'| && first + |met| <= |rs| && MetInside(rs, first, met, |met|)
    requires forall o | 0 <= o < |met'| :: met[o] <= met'[o]
    ensures MetInside(rs, first, met', |met'|)
  {}

  lemma EdgesMet(rs: seq<NodeRecord>, first: nat, met: seq<set<NodeId>>, es: seq<Edge>)
    requires MetEdges(rs, first, met, es, |es|)
    ensures forall k | 0 <= k < |es| :: EdgeOk(rs, es[k])
  {}

  /** Accepts exactly the valid forests whose ids fit in 32 bits. */
  method Validate(parentHash: Combine, rs: seq<NodeRecord>, roots: seq<NodeId>) returns (r: Result<Rebuilt>)
    ensures r.Ok? <==> ValidForest(parentHash, rs, roots) && |rs| < NO_NODE
    ensures r.Ok? ==> r.value == Rebuilt(FreeBelow(rs, |rs|), LeavesBelow(rs, |rs|))
  {
    hide Spilled, FirstCheck, BranchOk, ValidForest, FreeBelow, LeavesBelow, EdgeOk, NodeOk, RootOk;
    var ok, edges, freeIds := FirstPass(parentHash, rs, roots);
    if !ok { return Err("online forest records are inconsistent"); }
    if |rs| >= NO_NODE { return Err("validated startup cache has invalid free-node bookkeeping"); }
    ok := SecondPass(parentHash, rs, roots, edges);
    if !ok { return Err("online forest branches are inconsistent"); }
    PassesValid(parentHash, rs, roots, edges);
    r := Ok(Rebuilt(freeIds, LeavesBelow(rs, |rs|)));
  }

  lemma PassesValid(parentHash: Combine, rs: seq<NodeRecord>, roots: seq<NodeId>, edges: seq<seq<Edge>>)
    requires EdgesUpTo(rs, edges, |rs|) && (forall id | 0 <= id < |rs| :: FirstCheck(rs, roots, id))
    requires forall root | root in roots :: RootOk(rs, root)
    requires forall id | 0 <= id < |rs| :: BranchOk(parentHash, rs, id)
    requires forall b, k | 0 <= b < |edges| && 0 <= k < |edges[b]| :: EdgeOk(rs, edges[b][k])
    ensures ValidForest(parentHash, rs, roots)
  {
    hide Spilled, BranchOk, RootOk;
    forall id | 0 <= id < |rs| ensures NodeOk(rs, roots, id) {
      assert FirstCheck(rs, roots, id);
      if Spills(rs[id], id) {
        var b := Bucket(rs[id].parent);
        ParentBucket(rs[id].parent, |rs|);
        var k := SpilledHas(rs, |rs|, b, id);
        assert EdgeOk(rs, edges[b][k]);
      }
    }
  }

  lemma ParentBucket(p: NodeId, n: nat)
    requires p < n
    ensures Bucket(p) < Buckets(n)
  {}
}
