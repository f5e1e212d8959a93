/** When the arena's records, taken together, are exactly a list of trees. */
module ForestState {
  import opened Common
  import opened Records
  import opened Trees
  import opened ArenaTrees

  type Row = Option<Tree>

  function RowIds(o: Row): set<NodeId> { if o.Some? then Ids(o.value) else {} }

  function RowLeaves(o: Row): set<NodeId> { if o.Some? then LeafIds(o.value) else {} }

  function AllIds(rows: seq<Row>): set<NodeId> {
    set i, id | 0 <= i < |rows| && id in RowIds(rows[i]) :: id
  }

  function LiveIds(nodes: Nodes): set<NodeId> { set id | id in nodes && nodes[id].kind != FREE }

  /** A whole tree, with nothing above its root. */
  ghost predicate Stands(parentHash: Combine, nodes: Nodes, t: Tree) {
    && Linked(nodes, t, NO_NODE) && Proper(t) && NO_NODE !in Ids(t)
    && Ids(t) <= nodes.Keys && Hashed(parentHash, nodes, t, NO_NODE)
  }

  ghost predicate Apart(rows: seq<Row>) {
    forall i, j | 0 <= i < j < |rows| :: RowIds(rows[i]) !! RowIds(rows[j])
  }

  /** Every row's tree stands in the records and no two rows share an id. */
  ghost predicate Laid(parentHash: Combine, nodes: Nodes, rows: seq<Row>) {
    && (forall i | 0 <= i < |rows| && rows[i].Some? :: Stands(parentHash, nodes, rows[i].value))
    && Apart(rows)
  }

  function RootId(o: Row): NodeId { if o.Some? then o.value.id else NO_NODE }

  /** The live records are the trees, and nothing else. */
  ghost predicate Represents(parentHash: Combine, nodes: Nodes, rows: seq<Row>) {
    Laid(parentHash, nodes, rows) && AllIds(rows) == LiveIds(nodes) && NO_NODE !in nodes
  }

  // ---- changing one row -----------------------------------------------------------------

  lemma RowsCleared(rows: seq<Row>, i: nat)
    requires i < |rows| && Apart(rows)
    ensures Apart(rows[i := None]) && AllIds(rows[i := None]) == AllIds(rows) - RowIds(rows[i])
  {
    var rows' := rows[i := None];
    forall id | id in AllIds(rows') ensures id in AllIds(rows) - RowIds(rows[i]) {
      var j :| 0 <= j < |rows'| && id in RowIds(rows'[j]);
      assert j != i && rows[j] == rows'[j];
      assert j < i || i < j;
    }
    forall id | id in AllIds(rows) - RowIds(rows[i]) ensures id in AllIds(rows') {
      var j :| 0 <= j < |rows| && id in RowIds(rows[j]);
      assert rows'[j] == rows[j];
    }
  }

  lemma RowsFilled(rows: seq<Row>, i: nat, o: Row)
    requires i < |rows| && Apart(rows) && rows[i].None? && RowIds(o) !! AllIds(rows)
    ensures Apart(rows[i := o]) && AllIds(rows[i := o]) == AllIds(rows) + RowIds(o)
  {
    var rows' := rows[i := o];
    assert rows'[i] == o;
    forall id | id in AllIds(rows') ensures id in AllIds(rows) + RowIds(o) {
      var j :| 0 <= j < |rows'| && id in RowIds(rows'[j]);
      assert j != i ==> rows[j] == rows'[j];
    }
    forall id | id in AllIds(rows) + RowIds(o) ensures id in AllIds(rows') {
      if id !in RowIds(o) {
        var j :| 0 <= j < |rows| && id in RowIds(rows[j]);
        assert rows'[j] == rows[j];
      }
    }
    forall j, k | 0 <= j < k < |rows'| ensures RowIds(rows'[j]) !! RowIds(rows'[k]) {
      RowInside(rows, j);
      RowInside(rows, k);
    }
  }

  lemma RowInside(rows: seq<Row>, i: nat)
    requires i < |rows|
    ensures RowIds(rows[i]) <= AllIds(rows)
  {}

  lemma StandsFrame(parentHash: Combine, nodes: Nodes, nodes': Nodes, t: Tree)
    requires Stands(parentHash, nodes, t)
    requires forall id | id in Ids(t) :: id in nodes && id in nodes' && nodes'[id] == nodes[id]
    ensures Stands(parentHash, nodes', t)
  {
    LinkedFrame(nodes, nodes', t, NO_NODE);
    HashedFrame(parentHash, nodes, nodes', t, NO_NODE, NO_NODE);
  }

  ghost predicate SameOn(nodes: Nodes, nodes': Nodes, ids: set<NodeId>) {
    forall id | id in ids :: id in nodes && id in nodes' && nodes'[id] == nodes[id]
  }

  lemma LaidFrame(parentHash: Combine, nodes: Nodes, nodes': Nodes, rows: seq<Row>)
    requires Laid(parentHash, nodes, rows) && SameOn(nodes, nodes', AllIds(rows))
    ensures Laid(parentHash, nodes', rows)
  {
    hide Stands, AllIds, Apart;
    forall i | 0 <= i < |rows| && rows[i].Some? ensures Stands(parentHash, nodes', rows[i].value) {
      RowInside(rows, i);
      StandsFrame(parentHash, nodes, nodes', rows[i].value);
    }
  }

  lemma LaidCleared(parentHash: Combine, nodes: Nodes, rows: seq<Row>, i: nat)
    requires Laid(parentHash, nodes, rows) && i < |rows|
    ensures Laid(parentHash, nodes, rows[i := None])
  {
    hide Stands, Apart;
    RowsCleared(rows, i);
  }

  lemma LaidFilled(parentHash: Combine, nodes: Nodes, rows: seq<Row>, i: nat, t: Tree)
    requires Laid(parentHash, nodes, rows) && i < |rows| && rows[i].None?
    requires Stands(parentHash, nodes, t) && Ids(t) !! AllIds(rows)
    ensures Laid(parentHash, nodes, rows[i := Some(t)])
  {
    hide Stands, Apart;
    RowsFilled(rows, i, Some(t));
  }

  /** Replace the tree of one row when only its records, or free ones, changed. */
  lemma RepresentsSet(parentHash: Combine, nodes: Nodes, nodes': Nodes, rows: seq<Row>, i: nat, o: Row)
    requires Represents(parentHash, nodes, rows) && i < |rows| && NO_NODE !in nodes'
    requires o.Some? ==> Stands(parentHash, nodes', o.value)
    requires SameOn(nodes, nodes', AllIds(rows) - RowIds(rows[i]))
    requires RowIds(o) !! AllIds(rows) - RowIds(rows[i])
    requires LiveIds(nodes') == AllIds(rows) - RowIds(rows[i]) + RowIds(o)
    ensures Represents(parentHash, nodes', rows[i := o])
  {
    hide Stands, Apart, AllIds, LiveIds, RowIds, Laid;
    var rest := rows[i := None];
    LaidApart(parentHash, nodes, rows);
    RowsCleared(rows, i);
    LaidCleared(parentHash, nodes, rows, i);
    LaidFrame(parentHash, nodes, nodes', rest);
    RowsFilled(rest, i, o);
    assert rest[i := o] == rows[i := o];
    if o.Some? {
      SomeIds(o);
      LaidFilled(parentHash, nodes', rest, i, o.value);
    } else {
      assert rest == rows[i := o];
    }
  }

  lemma LaidApart(parentHash: Combine, nodes: Nodes, rows: seq<Row>)
    requires Laid(parentHash, nodes, rows)
    ensures Apart(rows)
  {}

  lemma SomeIds(o: Row)
    ensures o.Some? ==> RowIds(o) == Ids(o.value)
  {}

  // ---- adding ---------------------------------------------------------------------------

  function LeafRecord(hash: Hash): NodeRecord { NodeRecord(hash, NO_NODE, NO_NODE, NO_NODE, LEAF) }

  /** An id the allocator may give out. */
  predicate Available(nodes: Nodes, id: NodeId) { id !in nodes || nodes[id].kind == FREE }

  lemma RepresentsLeaf(parentHash: Combine, nodes: Nodes, rows: seq<Row>, i: nat, id: NodeId, hash: Hash)
    requires Represents(parentHash, nodes, rows) && i < |rows| && rows[i].None?
    requires Available(nodes, id) && id != NO_NODE
    ensures Represents(parentHash, nodes[id := LeafRecord(hash)], rows[i := Some(Leaf(id, hash))])
  {
    hide Laid, AllIds;
    var nodes' := nodes[id := LeafRecord(hash)];
    assert Ids(Leaf(id, hash)) == {id};
    assert Stands(parentHash, nodes', Leaf(id, hash));
    LiveLeaf(nodes, id, nodes'[id]);
    RepresentsSet(parentHash, nodes, nodes', rows, i, Some(Leaf(id, hash)));
  }

  lemma LiveLeaf(nodes: Nodes, id: NodeId, record: NodeRecord)
    ensures LiveIds(nodes[id := record]) == if record.kind == FREE then LiveIds(nodes) - {id} else LiveIds(nodes) + {id}
  {}

  /** The records after branch `id` was put above the roots a and b. */
  function Joined(parentHash: Combine, nodes: Nodes, a: NodeId, b: NodeId, id: NodeId): Nodes
    requires a in nodes && b in nodes && a != b && a != id && b != id
  {
    var nodes1 := nodes[id := NodeRecord(parentHash(nodes[a].hash, nodes[b].hash), NO_NODE, a, b, BRANCH)];
    var nodes2 := nodes1[a := nodes1[a].(parent := id)];
    nodes2[b := nodes2[b].(parent := id)]
  }

  lemma StandsJoined(parentHash: Combine, nodes: Nodes, a: Tree, b: Tree, id: NodeId)
    requires Stands(parentHash, nodes, a) && Stands(parentHash, nodes, b) && Ids(a) !! Ids(b)
    requires id !in Ids(a) && id !in Ids(b) && id != NO_NODE
    ensures Stands(parentHash, Joined(parentHash, nodes, a.id, b.id, id), Node(id, a, b))
  {
    var nodes' := Joined(parentHash, nodes, a.id, b.id, id);
    Reparented(nodes, nodes', a, NO_NODE, id);
    Reparented(nodes, nodes', b, NO_NODE, id);
    HashedFrame(parentHash, nodes, nodes', a, NO_NODE, NO_NODE);
    HashedFrame(parentHash, nodes, nodes', b, NO_NODE, NO_NODE);
  }

  /** Join the tree of row i below the tree of row k, under a fresh branch kept in row k. */
  lemma RepresentsJoined(parentHash: Combine, nodes: Nodes, rows: seq<Row>, i: nat, k: nat, id: NodeId)
    requires Represents(parentHash, nodes, rows) && i < |rows| && k < |rows| && i != k && rows[i].Some? && rows[k].Some?
    requires Available(nodes, id) && id != NO_NODE
    ensures var a, b := rows[i].value, rows[k].value;
            && a.id in nodes && b.id in nodes && a.id != b.id && a.id != id && b.id != id
            && Represents(parentHash, Joined(parentHash, nodes, a.id, b.id, id), rows[i := None][k := Some(Node(id, a, b))])
  {
    hide Apart, AllIds, Linked, Hashed, Proper;
    var a, b := rows[i].value, rows[k].value;
    RowsApart(parentHash, nodes, rows, i, k);
    RowInside(rows, i);
    RowInside(rows, k);
    assert id !in AllIds(rows);
    StandsJoined(parentHash, nodes, a, b, id);
    JoinedRows(parentHash, nodes, rows, i, k, id);
  }

  lemma RowsApart(parentHash: Combine, nodes: Nodes, rows: seq<Row>, i: nat, k: nat)
    requires Laid(parentHash, nodes, rows) && i < |rows| && k < |rows| && i != k
    ensures RowIds(rows[i]) !! RowIds(rows[k])
  {
    assert i < k || k < i;
  }

  lemma JoinedRows(parentHash: Combine, nodes: Nodes, rows: seq<Row>, i: nat, k: nat, id: NodeId)
    requires Represents(parentHash, nodes, rows) && i < |rows| && k < |rows| && i != k && rows[i].Some? && rows[k].Some?
    requires id !in AllIds(rows) && id != NO_NODE
    requires var a, b := rows[i].value, rows[k].value;
             a.id in nodes && b.id in nodes && a.id != b.id && a.id != id && b.id != id
             && Stands(parentHash, Joined(parentHash, nodes, a.id, b.id, id), Node(id, a, b))
    ensures var a, b := rows[i].value, rows[k].value;
            Represents(parentHash, Joined(parentHash, nodes, a.id, b.id, id), rows[i := None][k := Some(Node(id, a, b))])
  {
    hide Apart, AllIds, Stands, Laid, LiveIds, Ids;
    var a, b := rows[i].value, rows[k].value;
    var nodes' := Joined(parentHash, nodes, a.id, b.id, id);
    var rows1 := rows[i := None];
    var rows2 := rows1[k := None];
    LaidApart(parentHash, nodes, rows);
    RowsApart(parentHash, nodes, rows, i, k);
    RowInside(rows, i);
    RowInside(rows, k);
    RowsCleared(rows, i);
    RowsCleared(rows1, k);
    LaidCleared(parentHash, nodes, rows, i);
    LaidCleared(parentHash, nodes, rows1, k);
    assert SameOn(nodes, nodes', AllIds(rows2)) by { LiveInside(nodes); }
    LaidFrame(parentHash, nodes, nodes', rows2);
    NodeIds(id, a, b);
    RowsFilled(rows2, k, Some(Node(id, a, b)));
    LaidFilled(parentHash, nodes', rows2, k, Node(id, a, b));
    assert rows2[k := Some(Node(id, a, b))] == rows1[k := Some(Node(id, a, b))];
    JoinedLive(parentHash, nodes, a.id, b.id, id);
  }

  lemma LiveInside(nodes: Nodes)
    ensures LiveIds(nodes) <= nodes.Keys
  {}

  lemma NodeIds(id: NodeId, a: Tree, b: Tree)
    ensures Ids(Node(id, a, b)) == {id} + Ids(a) + Ids(b)
    ensures a.id in Ids(a) && b.id in Ids(b)
  {}

  lemma JoinedLive(parentHash: Combine, nodes: Nodes, a: NodeId, b: NodeId, id: NodeId)
    requires a in nodes && b in nodes && a != b && a != id && b != id
    ensures LiveIds(Joined(parentHash, nodes, a, b, id)) == LiveIds(nodes) + {id}
  {}

  /** A tree may be registered under any empty row. */
  lemma RepresentsMoved(parentHash: Combine, nodes: Nodes, rows: seq<Row>, i: nat, k: nat)
    requires Represents(parentHash, nodes, rows) && i < |rows| && k < |rows| && i != k && rows[i].None?
    ensures Represents(parentHash, nodes, rows[i := rows[k]][k := None])
  {
    hide Apart, AllIds, Stands;
    var o := rows[k];
    var rows1 := rows[k := None];
    LaidApart(parentHash, nodes, rows);
    RowsCleared(rows, k);
    LaidCleared(parentHash, nodes, rows, k);
    RowInside(rows, k);
    RowsFilled(rows1, i, o);
    if o.Some? { LaidFilled(parentHash, nodes, rows1, i, o.value); } else { assert rows1[i := o] == rows1; }
    assert rows1[i := o] == rows[i := rows[k]][k := None];
  }

  // ---- deleting -------------------------------------------------------------------------

  /** Finish a deletion: `mid` holds the pruned tree, and the ids it lost are freed. */
  lemma RepresentsPruned(parentHash: Combine, nodes: Nodes, mid: Nodes, rows: seq<Row>, i: nat, o: Row, nodes': Nodes)
    requires Represents(parentHash, nodes, rows) && i < |rows| && rows[i].Some?
    requires mid.Keys == nodes.Keys && nodes'.Keys == nodes.Keys && LiveIds(mid) == LiveIds(nodes)
    requires forall id | id in nodes && id !in RowIds(rows[i]) :: mid[id] == nodes[id]
    requires o.Some? ==> Stands(parentHash, mid, o.value)
    requires RowIds(o) <= RowIds(rows[i])
    requires forall id | id in nodes :: if id in RowIds(rows[i]) && id !in RowIds(o) then nodes'[id].kind == FREE else nodes'[id] == mid[id]
    ensures Represents(parentHash, nodes', rows[i := o])
  {
    hide Apart, AllIds, Linked, Hashed, Proper, Ids, Laid;
    RowInside(rows, i);
    if o.Some? {
      SomeIds(o);
      StandsFrame(parentHash, mid, nodes', o.value);
    }
    assert SameOn(nodes, nodes', AllIds(rows) - RowIds(rows[i])) by { LiveInside(nodes); }
    assert LiveIds(nodes') == AllIds(rows) - RowIds(rows[i]) + RowIds(o);
    RepresentsSet(parentHash, nodes, nodes', rows, i, o);
  }

  lemma StandsDirect(parentHash: Combine, nodes: Nodes, t: Tree, x: NodeId)
    requires Stands(parentHash, nodes, t) && t.Node? && x in LeafIds(t) && Direct(t, x)
    ensures var s := SiblingOf(t, x);
            && s.id in nodes && Prune(t, {x}) == Some(s)
            && Stands(parentHash, nodes[s.id := nodes[s.id].(parent := NO_NODE)], s)
  {
    var s := SiblingOf(t, x);
    LinkedIds(nodes, t, NO_NODE);
    PruneNone(s, {x});
    var nodes' := nodes[s.id := nodes[s.id].(parent := NO_NODE)];
    Reparented(nodes, nodes', s, t.id, NO_NODE);
    HashedFrame(parentHash, nodes, nodes', s, NO_NODE, NO_NODE);
  }

  /** A tree with at most one stale branch hash. */
  ghost predicate StandsBut(parentHash: Combine, nodes: Nodes, t: Tree, x: NodeId) {
    && Linked(nodes, t, NO_NODE) && Proper(t) && NO_NODE !in Ids(t)
    && Ids(t) <= nodes.Keys && Hashed(parentHash, nodes, t, x)
    && (x == NO_NODE || (x in Ids(t) && nodes[x].kind == BRANCH))
  }

  lemma StandsDeep(parentHash: Combine, nodes: Nodes, nodes': Nodes, t: Tree, x: NodeId)
    requires Stands(parentHash, nodes, t) && t.Node? && x in LeafIds(t) && !Direct(t, x)
    requires Promoted(nodes, nodes', ParentOf(t, x).id, SiblingOf(t, x).id, GrandOf(t, x, NO_NODE))
    ensures Prune(t, {x}).Some?
    ensures StandsBut(parentHash, nodes', Prune(t, {x}).value, GrandOf(t, x, NO_NODE))
  {
    hide Linked, Hashed, Prune, ParentOf, SiblingOf, GrandOf, Ids, LeafIds;
    PruneOne(t, x);
    PruneShape(t, {x});
    AroundLeaf(nodes, t, x, NO_NODE);
    Spliced(nodes, nodes', t, x, NO_NODE);
    SplicedHashes(parentHash, nodes, nodes', t, x, NO_NODE);
    var g, p := GrandOf(t, x, NO_NODE), ParentOf(t, x).id;
    assert g != x;
  }

  lemma StandsRehash(parentHash: Combine, nodes: Nodes, t: Tree, x: NodeId)
    requires StandsBut(parentHash, nodes, t, x) && x != NO_NODE
    ensures x in nodes && nodes[x].left in nodes && nodes[x].right in nodes
    ensures StandsBut(parentHash, Rehashed(parentHash, nodes, x), t, nodes[x].parent)
    ensures nodes[x].parent != NO_NODE ==> nodes[x].parent in Ids(t) && Depth(t, x) == 1 + Depth(t, nodes[x].parent)
  {
    hide Linked, Hashed, Ids, Proper, LeafIds;
    LinkedIds(nodes, t, NO_NODE);
    BranchLinks(nodes, t, NO_NODE, x);
    ParentDepth(nodes, t, NO_NODE, x);
    RehashLinked(parentHash, nodes, t, NO_NODE, x);
    RehashStep(parentHash, nodes, t, NO_NODE, x);
  }
}
