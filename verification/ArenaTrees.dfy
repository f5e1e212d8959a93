/** How trees lie in the arena's records: links, local branch hashes, and what promoting a
    sibling and recomputing hashes upwards do to them. */
module ArenaTrees {
  import opened Common
  import opened Records
  import opened Trees

  type Nodes = map<NodeId, NodeRecord>

  function Ids(t: Tree): (s: set<NodeId>)
    ensures t.id in s
  {
    match t
    case Leaf(id, _) => {id}
    case Node(id, l, r) => {id} + Ids(l) + Ids(r)
  }

  function LeafIds(t: Tree): (s: set<NodeId>)
    ensures s <= Ids(t)
  {
    match t
    case Leaf(id, _) => {id}
    case Node(_, l, r) => LeafIds(l) + LeafIds(r)
  }

  /** No id occurs twice. */
  ghost predicate Proper(t: Tree) {
    match t
    case Leaf(_, _) => true
    case Node(id, l, r) => id !in Ids(l) && id !in Ids(r) && Ids(l) !! Ids(r) && Proper(l) && Proper(r)
  }

  /** The records link the tree both ways, and leaf records carry the leaf hashes. */
  ghost predicate Linked(nodes: Nodes, t: Tree, parent: NodeId) {
    && t.id in nodes && nodes[t.id].parent == parent
    && match t
       case Leaf(id, h) => nodes[id] == NodeRecord(h, parent, NO_NODE, NO_NODE, LEAF)
       case Node(id, l, r) =>
         && nodes[id].kind == BRANCH && nodes[id].left == l.id && nodes[id].right == r.id
         && Linked(nodes, l, id) && Linked(nodes, r, id)
  }

  /** Every branch other than `x` combines the hashes of its children. */
  ghost predicate Hashed(parentHash: Combine, nodes: Nodes, t: Tree, x: NodeId)
    requires Ids(t) <= nodes.Keys
  {
    match t
    case Leaf(_, _) => true
    case Node(id, l, r) =>
      && (id == x || nodes[id].hash == parentHash(nodes[l.id].hash, nodes[r.id].hash))
      && Hashed(parentHash, nodes, l, x) && Hashed(parentHash, nodes, r, x)
  }

  lemma {:induction false} LinkedIds(nodes: Nodes, t: Tree, parent: NodeId)
    requires Linked(nodes, t, parent)
    ensures Ids(t) <= nodes.Keys
    ensures forall id | id in Ids(t) :: nodes[id].kind == if id in LeafIds(t) then LEAF else BRANCH
    decreases t
  {
    if t.Node? { LinkedIds(nodes, t.left, t.id); LinkedIds(nodes, t.right, t.id); }
  }

  /** Records outside the tree do not matter. */
  lemma {:induction false} LinkedFrame(nodes: Nodes, nodes': Nodes, t: Tree, parent: NodeId)
    requires Linked(nodes, t, parent)
    requires forall id | id in Ids(t) :: id in nodes && id in nodes' && nodes'[id] == nodes[id]
    ensures Linked(nodes', t, parent)
    decreases t
  {
    if t.Node? { LinkedFrame(nodes, nodes', t.left, t.id); LinkedFrame(nodes, nodes', t.right, t.id); }
  }

  lemma {:induction false} HashedFrame(parentHash: Combine, nodes: Nodes, nodes': Nodes, t: Tree, x: NodeId, x': NodeId)
    requires Ids(t) <= nodes.Keys && Ids(t) <= nodes'.Keys && Hashed(parentHash, nodes, t, x)
    requires forall id | id in Ids(t) :: nodes'[id].hash == nodes[id].hash
    requires x !in Ids(t) || x == x'
    ensures Hashed(parentHash, nodes', t, x')
    decreases t
  {
    if t.Node? {
      HashedFrame(parentHash, nodes, nodes', t.left, x, x');
      HashedFrame(parentHash, nodes, nodes', t.right, x, x');
    }
  }

  /** With every branch right locally, the root record carries the hash of the tree. */
  lemma {:induction false} RootHash(parentHash: Combine, nodes: Nodes, t: Tree, parent: NodeId, x: NodeId)
    requires Linked(nodes, t, parent) && Ids(t) <= nodes.Keys && Hashed(parentHash, nodes, t, x) && x !in Ids(t)
    ensures nodes[t.id].hash == HashOf(parentHash, t)
    decreases t
  {
    if t.Node? {
      RootHash(parentHash, nodes, t.left, t.id, x);
      RootHash(parentHash, nodes, t.right, t.id, x);
    }
  }

  // ---- around a leaf --------------------------------------------------------------------

  predicate IsLeaf(t: Tree, x: NodeId) { t.Leaf? && t.id == x }

  predicate Direct(t: Tree, x: NodeId)
    requires t.Node?
  { IsLeaf(t.left, x) || IsLeaf(t.right, x) }

  /** The branch whose child is leaf x. */
  function ParentOf(t: Tree, x: NodeId): (p: Tree)
    requires t.Node? && x in LeafIds(t)
    ensures p.Node?
  {
    if Direct(t, x) then t
    else if x in LeafIds(t.left) then ParentOf(t.left, x)
    else ParentOf(t.right, x)
  }

  function SiblingOf(t: Tree, x: NodeId): Tree
    requires t.Node? && x in LeafIds(t)
  {
    var p := ParentOf(t, x);
    if IsLeaf(p.left, x) then p.right else p.left
  }

  /** The id above ParentOf, `above` when that is the whole tree. */
  function GrandOf(t: Tree, x: NodeId, above: NodeId): NodeId
    requires t.Node? && x in LeafIds(t)
  {
    if Direct(t, x) then above
    else if x in LeafIds(t.left) then GrandOf(t.left, x, t.id)
    else GrandOf(t.right, x, t.id)
  }

  lemma {:induction false} AroundLeaf(nodes: Nodes, t: Tree, x: NodeId, above: NodeId)
    requires t.Node? && x in LeafIds(t) && Linked(nodes, t, above) && Proper(t) && above !in Ids(t)
    ensures var p, s, g := ParentOf(t, x), SiblingOf(t, x), GrandOf(t, x, above);
            && x in nodes && nodes[x].kind == LEAF && nodes[x].parent == p.id
            && p.id in nodes && nodes[p.id].parent == g && p.id in Ids(t) && p.id !in LeafIds(t)
            && s.id == (if nodes[p.id].left == x then nodes[p.id].right else nodes[p.id].left)
            && s.id in Ids(t) && s.id != x && s.id != p.id && s.id in nodes
            && p.id != x && (g == above || g in Ids(t)) && g != p.id && (!Direct(t, x) ==> g in Ids(t) && g in nodes && nodes[g].kind == BRANCH)
    decreases t
  {
    LinkedIds(nodes, t, above);
    if Direct(t, x) {
    } else if x in LeafIds(t.left) {
      AroundLeaf(nodes, t.left, x, t.id);
    } else {
      AroundLeaf(nodes, t.right, x, t.id);
    }
  }

  // ---- deletion of leaves ---------------------------------------------------------------

  /** The tree restricted to its surviving leaves, with single-child paths compressed. */
  function Prune(t: Tree, dead: set<NodeId>): Option<Tree> {
    match t
    case Leaf(id, _) => if id in dead then None else Some(t)
    case Node(id, l, r) =>
      var l', r' := Prune(l, dead), Prune(r, dead);
      if l'.None? then r' else if r'.None? then l' else Some(Node(id, l'.value, r'.value))
  }

  function PruneSome(t: Option<Tree>, dead: set<NodeId>): Option<Tree> {
    if t.None? then None else Prune(t.value, dead)
  }

  /** Deleting in several steps, in any order, is deleting all at once. */
  lemma {:induction false} PruneTwice(t: Tree, a: set<NodeId>, b: set<NodeId>)
    ensures PruneSome(Prune(t, a), b) == Prune(t, a + b)
    decreases t
  {
    if t.Node? { PruneTwice(t.left, a, b); PruneTwice(t.right, a, b); }
  }

  lemma {:induction false} PruneNone(t: Tree, dead: set<NodeId>)
    requires dead !! LeafIds(t)
    ensures Prune(t, dead) == Some(t)
    decreases t
  {
    if t.Node? { PruneNone(t.left, dead); PruneNone(t.right, dead); }
  }

  lemma {:induction false} PruneShape(t: Tree, dead: set<NodeId>)
    requires Proper(t)
    ensures var t' := Prune(t, dead);
            t'.Some? ==> Ids(t'.value) <= Ids(t) && LeafIds(t'.value) == LeafIds(t) - dead && Proper(t'.value)
                         && Height(t'.value) <= Height(t)
    ensures Prune(t, dead).None? ==> LeafIds(t) <= dead
    decreases t
  {
    if t.Node? { PruneShape(t.left, dead); PruneShape(t.right, dead); }
  }

  /** Deleting one leaf of a branch removes that leaf and its parent. */
  lemma {:induction false} PruneOne(t: Tree, x: NodeId)
    requires t.Node? && x in LeafIds(t) && Proper(t)
    ensures Prune(t, {x}).Some?
    ensures Ids(Prune(t, {x}).value) == Ids(t) - {x} - {ParentOf(t, x).id}
    decreases t
  {
    if x in LeafIds(t.left) {
      PruneNone(t.right, {x});
      if t.left.Node? { PruneOne(t.left, x); ParentInside(t.left, x); }
    } else {
      PruneNone(t.left, {x});
      if t.right.Node? { PruneOne(t.right, x); ParentInside(t.right, x); }
    }
  }

  lemma {:induction false} ParentInside(t: Tree, x: NodeId)
    requires t.Node? && x in LeafIds(t)
    ensures ParentOf(t, x).id in Ids(t) && SiblingOf(t, x).id in Ids(t)
    decreases t
  {
    if Direct(t, x) {
    } else if x in LeafIds(t.left) {
      ParentInside(t.left, x);
    } else {
      ParentInside(t.right, x);
    }
  }

  /** A subtree moved under another parent. */
  lemma Reparented(nodes: Nodes, nodes': Nodes, t: Tree, parent: NodeId, parent': NodeId)
    requires Linked(nodes, t, parent) && Proper(t) && Ids(t) <= nodes.Keys && Ids(t) <= nodes'.Keys
    requires nodes'[t.id] == nodes[t.id].(parent := parent')
    requires forall id | id in Ids(t) && id != t.id :: nodes'[id] == nodes[id]
    ensures Linked(nodes', t, parent')
  {
    if t.Node? {
      LinkedFrame(nodes, nodes', t.left, t.id);
      LinkedFrame(nodes, nodes', t.right, t.id);
    }
  }

  /** Records after the sibling s took the place of p below g. */
  ghost predicate Promoted(nodes: Nodes, nodes': Nodes, p: NodeId, s: NodeId, g: NodeId) {
    && nodes'.Keys == nodes.Keys && s in nodes && g in nodes && s != g
    && nodes'[s] == nodes[s].(parent := g)
    && nodes'[g] == (if nodes[g].left == p then nodes[g].(left := s) else nodes[g].(right := s))
    && forall id | id in nodes && id != s && id != g :: nodes'[id] == nodes[id]
  }

  /** The child of t on the way to leaf x, and the other one. */
  function Toward(t: Tree, x: NodeId): Tree
    requires t.Node?
  { if x in LeafIds(t.left) then t.left else t.right }

  function Away(t: Tree, x: NodeId): Tree
    requires t.Node?
  { if x in LeafIds(t.left) then t.right else t.left }

  /** One step down a deep deletion. */
  lemma PruneDeep(t: Tree, x: NodeId)
    requires t.Node? && x in LeafIds(t) && Proper(t) && !Direct(t, x)
    ensures var c, o := Toward(t, x), Away(t, x);
            && c.Node? && x in LeafIds(c) && Proper(c) && Proper(o) && t.id !in Ids(c) && t.id !in Ids(o) && Ids(c) !! Ids(o)
            && Ids(c) < Ids(t) && Ids(o) < Ids(t)
            && ParentOf(t, x) == ParentOf(c, x) && SiblingOf(t, x) == SiblingOf(c, x)
            && (forall above :: GrandOf(t, x, above) == GrandOf(c, x, t.id))
            && Prune(c, {x}).Some?
            && Prune(t, {x}) == Some(if x in LeafIds(t.left) then Node(t.id, Prune(c, {x}).value, o)
                                     else Node(t.id, o, Prune(c, {x}).value))
  {
    var c, o := Toward(t, x), Away(t, x);
    PruneNone(o, {x});
    PruneOne(c, x);
  }

  /** The whole tree after a leaf two or more levels down is deleted and its sibling promoted. */
  lemma {:induction false} Spliced(nodes: Nodes, nodes': Nodes, t: Tree, x: NodeId, above: NodeId)
    requires t.Node? && x in LeafIds(t) && Linked(nodes, t, above) && Proper(t) && above !in Ids(t)
    requires !Direct(t, x)
    requires Promoted(nodes, nodes', ParentOf(t, x).id, SiblingOf(t, x).id, GrandOf(t, x, above))
    ensures Prune(t, {x}).Some? && Linked(nodes', Prune(t, {x}).value, above)
    decreases t
  {
    hide Prune, Ids, LeafIds, ParentOf, SiblingOf, GrandOf, Proper;
    LinkedIds(nodes, t, above);
    PruneDeep(t, x);
    var c, o := Toward(t, x), Away(t, x);
    assert Linked(nodes, c, t.id) && Linked(nodes, o, t.id);
    LinkedIds(nodes, c, t.id);
    LinkedIds(nodes, o, t.id);
    AroundLeaf(nodes, c, x, t.id);
    LinkedFrame(nodes, nodes', o, t.id);
    if Direct(c, x) {
      GrandDirect(c, x, t.id);
      SplicedHere(nodes, nodes', c, x, t.id);
    } else {
      Spliced(nodes, nodes', c, x, t.id);
      PruneRoot(c, x);
    }
  }

  lemma SplicedHere(nodes: Nodes, nodes': Nodes, c: Tree, x: NodeId, g: NodeId)
    requires c.Node? && x in LeafIds(c) && Linked(nodes, c, g) && Proper(c) && g !in Ids(c)
    requires Direct(c, x) && Promoted(nodes, nodes', c.id, SiblingOf(c, x).id, g)
    ensures Prune(c, {x}) == Some(SiblingOf(c, x)) && Linked(nodes', SiblingOf(c, x), g)
  {
    LinkedIds(nodes, c, g);
    var s := SiblingOf(c, x);
    PruneNone(s, {x});
    Reparented(nodes, nodes', s, c.id, g);
  }

  /** Deep deletions keep the root of a branch. */
  lemma PruneRoot(t: Tree, x: NodeId)
    requires t.Node? && x in LeafIds(t) && Proper(t) && !Direct(t, x)
    ensures Prune(t, {x}).Some? && Prune(t, {x}).value.Node? && Prune(t, {x}).value.id == t.id
  {
    if x in LeafIds(t.left) { PruneNone(t.right, {x}); PruneOne(t.left, x); }
    else { PruneNone(t.left, {x}); PruneOne(t.right, x); }
  }

  /** ... where only the grandparent's hash is stale. */
  lemma {:induction false} SplicedHashes(parentHash: Combine, nodes: Nodes, nodes': Nodes, t: Tree, x: NodeId, above: NodeId)
    requires t.Node? && x in LeafIds(t) && Linked(nodes, t, above) && Proper(t) && above !in Ids(t)
    requires !Direct(t, x) && Ids(t) <= nodes.Keys && Hashed(parentHash, nodes, t, NO_NODE) && NO_NODE !in Ids(t)
    requires Promoted(nodes, nodes', ParentOf(t, x).id, SiblingOf(t, x).id, GrandOf(t, x, above))
    ensures Prune(t, {x}).Some? && Ids(Prune(t, {x}).value) <= nodes'.Keys
    ensures Hashed(parentHash, nodes', Prune(t, {x}).value, GrandOf(t, x, above))
    decreases t
  {
    hide Prune, Ids, LeafIds, ParentOf, SiblingOf, GrandOf, Proper, Linked;
    PruneOne(t, x);
    PruneDeep(t, x);
    var c, o := Toward(t, x), Away(t, x);
    var g := GrandOf(t, x, above);
    assert Linked(nodes, c, t.id) by { LinkedToward(nodes, t, x, above); }
    AroundLeaf(nodes, c, x, t.id);
    HashedFrame(parentHash, nodes, nodes', o, NO_NODE, g);
    if Direct(c, x) {
      GrandDirect(c, x, t.id);
      SplicedHere(nodes, nodes', c, x, t.id);
      DirectHashes(parentHash, nodes, c, x);
      HashedFrame(parentHash, nodes, nodes', SiblingOf(c, x), NO_NODE, g);
    } else {
      SplicedHashes(parentHash, nodes, nodes', c, x, t.id);
      PruneRoot(c, x);
    }
  }

  lemma LinkedToward(nodes: Nodes, t: Tree, x: NodeId, above: NodeId)
    requires t.Node? && Linked(nodes, t, above)
    ensures Linked(nodes, Toward(t, x), t.id) && Linked(nodes, Away(t, x), t.id)
  {}

  lemma GrandDirect(c: Tree, x: NodeId, above: NodeId)
    requires c.Node? && x in LeafIds(c) && Direct(c, x)
    ensures GrandOf(c, x, above) == above && ParentOf(c, x) == c
  {}

  lemma DirectHashes(parentHash: Combine, nodes: Nodes, c: Tree, x: NodeId)
    requires c.Node? && x in LeafIds(c) && Direct(c, x) && Proper(c) && Ids(c) <= nodes.Keys && Hashed(parentHash, nodes, c, NO_NODE)
    requires NO_NODE !in Ids(c)
    ensures Ids(SiblingOf(c, x)) <= Ids(c) && NO_NODE !in Ids(SiblingOf(c, x)) && c.id !in Ids(SiblingOf(c, x))
    ensures Hashed(parentHash, nodes, SiblingOf(c, x), NO_NODE)
  {}

  // ---- recomputing hashes upwards -------------------------------------------------------

  function Depth(t: Tree, x: NodeId): nat
    requires x in Ids(t)
  {
    if t.id == x then 0
    else if x in Ids(t.left) then 1 + Depth(t.left, x)
    else 1 + Depth(t.right, x)
  }

  lemma {:induction false} ParentDepth(nodes: Nodes, t: Tree, above: NodeId, x: NodeId)
    requires Linked(nodes, t, above) && x in Ids(t) && Proper(t)
    ensures x in nodes
    ensures x == t.id ==> nodes[x].parent == above
    ensures x != t.id ==> nodes[x].parent in Ids(t) && nodes[x].parent in nodes && Depth(t, x) == 1 + Depth(t, nodes[x].parent) && nodes[nodes[x].parent].kind == BRANCH
    decreases t
  {
    LinkedIds(nodes, t, above);
    if x != t.id {
      if x in Ids(t.left) { ParentDepth(nodes, t.left, t.id, x); } else { ParentDepth(nodes, t.right, t.id, x); }
    }
  }

  function Rehashed(parentHash: Combine, nodes: Nodes, x: NodeId): Nodes
    requires x in nodes && nodes[x].left in nodes && nodes[x].right in nodes
  {
    nodes[x := nodes[x].(hash := parentHash(nodes[nodes[x].left].hash, nodes[nodes[x].right].hash))]
  }

  lemma {:induction false} BranchLinks(nodes: Nodes, t: Tree, above: NodeId, x: NodeId)
    requires Linked(nodes, t, above) && x in Ids(t) && x in nodes && nodes[x].kind == BRANCH
    ensures nodes[x].left in Ids(t) && nodes[x].right in Ids(t) && nodes[x].left in nodes && nodes[x].right in nodes
    decreases t
  {
    LinkedIds(nodes, t, above);
    if t.Node? && x != t.id {
      if x in Ids(t.left) { BranchLinks(nodes, t.left, t.id, x); } else { BranchLinks(nodes, t.right, t.id, x); }
    }
  }

  lemma {:induction false} RehashLinked(parentHash: Combine, nodes: Nodes, t: Tree, above: NodeId, x: NodeId)
    requires Linked(nodes, t, above) && x in nodes && nodes[x].left in nodes && nodes[x].right in nodes
    requires x !in LeafIds(t)
    ensures Linked(Rehashed(parentHash, nodes, x), t, above)
    decreases t
  {
    if t.Node? {
      RehashLinked(parentHash, nodes, t.left, t.id, x);
      RehashLinked(parentHash, nodes, t.right, t.id, x);
    }
  }

  /** Fixing the one stale branch leaves at most its parent stale. */
  lemma {:induction false} RehashStep(parentHash: Combine, nodes: Nodes, t: Tree, above: NodeId, x: NodeId)
    requires Linked(nodes, t, above) && Proper(t) && above !in Ids(t) && x in Ids(t) && Ids(t) <= nodes.Keys
    requires nodes[x].kind == BRANCH && nodes[x].left in nodes && nodes[x].right in nodes
    requires Hashed(parentHash, nodes, t, x)
    ensures Ids(t) <= Rehashed(parentHash, nodes, x).Keys
    ensures Hashed(parentHash, Rehashed(parentHash, nodes, x), t, nodes[x].parent)
    decreases t
  {
    LinkedIds(nodes, t, above);
    var nodes' := Rehashed(parentHash, nodes, x);
    var up := nodes[x].parent;
    if x == t.id {
      HashedFrame(parentHash, nodes, nodes', t.left, x, up);
      HashedFrame(parentHash, nodes, nodes', t.right, x, up);
    } else if x in Ids(t.left) {
      RehashStep(parentHash, nodes, t.left, t.id, x);
      ParentDepth(nodes, t.left, t.id, x);
      HashedFrame(parentHash, nodes, nodes', t.right, x, up);
    } else {
      RehashStep(parentHash, nodes, t.right, t.id, x);
      ParentDepth(nodes, t.right, t.id, x);
      HashedFrame(parentHash, nodes, nodes', t.left, x, up);
    }
  }
}
