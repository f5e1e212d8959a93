/** The accumulator's operations on the mathematical forest: pruning deletes, and a binary
    counter adds. */
module Accumulator {
  import opened Bits
  import opened Position
  import opened Common
  import opened Trees
  import opened ArenaTrees
  import opened ForestState

  /** A tree without its node ids. */
  datatype Plain = PLeaf(hash: Hash) | PNode(left: Plain, right: Plain)

  function Strip(t: Tree): Plain {
    match t
    case Leaf(_, h) => PLeaf(h)
    case Node(_, l, r) => PNode(Strip(l), Strip(r))
  }

  function StripRow(o: Row): Option<Plain> { if o.Some? then Some(Strip(o.value)) else None }

  function StripRows(rows: seq<Row>): (r: seq<Option<Plain>>)
    ensures |r| == |rows|
  {
    seq(|rows|, i requires 0 <= i < |rows| => StripRow(rows[i]))
  }

  /** Add `node` at `row` of a counter whose remaining bits are `bits`: every set bit hands its
      tree, if it still has one, on to the next row. */
  function Carry(rows: seq<Option<Plain>>, bits: nat, row: nat, node: Plain): (r: seq<Option<Plain>>)
    requires row + TrailingOnes(bits) < |rows|
    ensures |r| == |rows|
    decreases bits
  {
    if bits % 2 == 1 then
      Carry(rows[row := None], bits / 2, row + 1, if rows[row].Some? then PNode(rows[row].value, node) else node)
    else rows[row := Some(node)]
  }

  function PruneRows(rows: seq<Row>, dead: set<NodeId>): (r: seq<Row>)
    ensures |r| == |rows|
  {
    seq(|rows|, i requires 0 <= i < |rows| => PruneSome(rows[i], dead))
  }

  lemma PruneRowsTwice(rows: seq<Row>, a: set<NodeId>, b: set<NodeId>)
    ensures PruneRows(PruneRows(rows, a), b) == PruneRows(rows, a + b)
  {
    hide Prune;
    forall i | 0 <= i < |rows| && rows[i].Some? ensures PruneSome(Prune(rows[i].value, a), b) == Prune(rows[i].value, a + b) {
      PruneTwice(rows[i].value, a, b);
    }
  }

  /** Pruning a leaf of one row touches that row only. */
  lemma PruneOneRow(rows: seq<Row>, i: nat, x: NodeId)
    requires i < |rows| && rows[i].Some? && Apart(rows) && x in RowLeaves(rows[i])
    ensures PruneRows(rows, {x}) == rows[i := Prune(rows[i].value, {x})]
  {
    hide Prune, LeafIds, Ids;
    forall j | 0 <= j < |rows| && j != i ensures PruneSome(rows[j], {x}) == rows[j] {
      assert j < i || i < j;
      if rows[j].Some? { PruneNone(rows[j].value, {x}); }
    }
  }

  // ---- the order of the leaves ----------------------------------------------------------

  function LeafHashes(t: Plain): seq<Hash> {
    match t
    case PLeaf(h) => [h]
    case PNode(l, r) => LeafHashes(l) + LeafHashes(r)
  }

  function RowHashes(o: Option<Plain>): seq<Hash> { if o.Some? then LeafHashes(o.value) else [] }

  /** Every leaf hash, from row k - 1 down to row 0, left to right. */
  function Order(rows: seq<Option<Plain>>, k: nat): seq<Hash>
    requires k <= |rows|
  { if k == 0 then [] else RowHashes(rows[k - 1]) + Order(rows, k - 1) }

  ghost predicate EmptyBelow(rows: seq<Option<Plain>>, row: nat)
    requires row <= |rows|
  { forall j | 0 <= j < row :: rows[j].None? }

  lemma {:induction false} OrderEmpty(rows: seq<Option<Plain>>, k: nat)
    requires k <= |rows| && EmptyBelow(rows, k)
    ensures Order(rows, k) == []
    decreases k
  {
    if k > 0 { OrderEmpty(rows, k - 1); }
  }

  lemma {:induction false} OrderSet(rows: seq<Option<Plain>>, k: nat, row: nat, o: Option<Plain>)
    requires row < k <= |rows| && EmptyBelow(rows, row + 1)
    ensures Order(rows[row := o], k) == Order(rows, k) + RowHashes(o)
    decreases k
  {
    if row == k - 1 {
      OrderEmpty(rows, k);
      OrderEmpty(rows[row := o], k - 1);
    } else {
      OrderSet(rows, k - 1, row, o);
    }
  }

  /** Adding a leaf appends it to the order of the leaves. */
  lemma {:induction false} CarryOrder(rows: seq<Option<Plain>>, bits: nat, row: nat, node: Plain)
    requires row + TrailingOnes(bits) < |rows| && EmptyBelow(rows, row)
    requires rows[row + TrailingOnes(bits)].None?
    ensures Order(Carry(rows, bits, row, node), |rows|) == Order(rows, |rows|) + LeafHashes(node)
    decreases bits
  {
    hide Order;
    if bits % 2 == 1 {
      var rows1 := rows[row := None];
      assert row + 1 + TrailingOnes(bits / 2) == row + TrailingOnes(bits);
      var node' := if rows[row].Some? then PNode(rows[row].value, node) else node;
      CarryOrder(rows1, bits / 2, row + 1, node');
      assert rows1[row := rows[row]] == rows;
      OrderSet(rows1, |rows|, row, rows[row]);
      assert LeafHashes(node') == RowHashes(rows[row]) + LeafHashes(node);
    } else {
      OrderSet(rows, |rows|, row, Some(node));
    }
  }

  // ---- the order after deletions --------------------------------------------------------

  datatype Item = Item(id: NodeId, hash: Hash)

  function Items(t: Tree): seq<Item> {
    match t
    case Leaf(id, h) => [Item(id, h)]
    case Node(_, l, r) => Items(l) + Items(r)
  }

  function RowItems(o: Row): seq<Item> { if o.Some? then Items(o.value) else [] }

  function AllItems(rows: seq<Row>, k: nat): seq<Item>
    requires k <= |rows|
  { if k == 0 then [] else RowItems(rows[k - 1]) + AllItems(rows, k - 1) }

  function Survivors(items: seq<Item>, dead: set<NodeId>): seq<Item> {
    if items == [] then []
    else (if items[0].id in dead then [] else [items[0]]) + Survivors(items[1..], dead)
  }

  function HashesOf(items: seq<Item>): seq<Hash> {
    seq(|items|, i requires 0 <= i < |items| => items[i].hash)
  }

  lemma {:induction false} SurvivorsAppend(a: seq<Item>, b: seq<Item>, dead: set<NodeId>)
    ensures Survivors(a + b, dead) == Survivors(a, dead) + Survivors(b, dead)
    decreases a
  {
    if a == [] {
      assert a + b == b;
    } else {
      assert (a + b)[1..] == a[1..] + b;
      SurvivorsAppend(a[1..], b, dead);
    }
  }

  lemma {:induction false} PruneItems(t: Tree, dead: set<NodeId>)
    ensures RowItems(Prune(t, dead)) == Survivors(Items(t), dead)
    decreases t
  {
    if t.Node? {
      PruneItems(t.left, dead);
      PruneItems(t.right, dead);
      SurvivorsAppend(Items(t.left), Items(t.right), dead);
    } else {
      assert Items(t)[1..] == [];
    }
  }

  /** Deleting leaves removes them from the order and moves no other leaf. */
  lemma {:induction false} PruneOrder(rows: seq<Row>, k: nat, dead: set<NodeId>)
    requires k <= |rows|
    ensures AllItems(PruneRows(rows, dead), k) == Survivors(AllItems(rows, k), dead)
    decreases k
  {
    if k > 0 {
      PruneOrder(rows, k - 1, dead);
      SurvivorsAppend(RowItems(rows[k - 1]), AllItems(rows, k - 1), dead);
      if rows[k - 1].Some? { PruneItems(rows[k - 1].value, dead); }
    }
  }

  lemma {:induction false} StripItems(t: Tree)
    ensures LeafHashes(Strip(t)) == HashesOf(Items(t))
    decreases t
  {
    if t.Node? {
      StripItems(t.left);
      StripItems(t.right);
    }
  }

  lemma {:induction false} StripOrder(rows: seq<Row>, k: nat)
    requires k <= |rows|
    ensures Order(StripRows(rows), k) == HashesOf(AllItems(rows, k))
    decreases k
  {
    if k > 0 {
      StripOrder(rows, k - 1);
      if rows[k - 1].Some? { StripItems(rows[k - 1].value); }
    }
  }

  // ---- shape of the counter -------------------------------------------------------------

  /** Where the increment of the leaf count puts its bit. */
  lemma {:induction false} IncrementBits(n: nat, j: nat)
    ensures j < TrailingOnes(n) ==> Bit(n, j)
    ensures j == TrailingOnes(n) ==> !Bit(n, j) && Bit(n + 1, j)
    ensures j > TrailingOnes(n) ==> Bit(n + 1, j) == Bit(n, j)
    decreases j
  {
    if n % 2 == 1 {
      assert (n + 1) / 2 == n / 2 + 1;
      if j > 0 { IncrementBits(n / 2, j - 1); }
    } else {
      assert (n + 1) / 2 == n / 2;
    }
  }

  lemma {:induction false} TrailingOnesBound(n: nat, k: nat)
    requires n < Pow2(k)
    ensures TrailingOnes(n) <= k
    decreases k
  {
    if n % 2 == 1 { TrailingOnesBound(n / 2, k - 1); }
  }

  // ---- counting -------------------------------------------------------------------------

  lemma {:induction false} TreeCount(t: Tree)
    requires Proper(t)
    ensures |Ids(t)| == 2 * |LeafIds(t)| - 1 && |LeafIds(t)| == |Items(t)|
    decreases t
  {
    if t.Node? {
      TreeCount(t.left);
      TreeCount(t.right);
      assert |{t.id} + Ids(t.left) + Ids(t.right)| == 1 + |Ids(t.left)| + |Ids(t.right)|;
      assert LeafIds(t.left) !! LeafIds(t.right);
    }
  }

  function Standing(rows: seq<Row>): nat {
    if rows == [] then 0 else Standing(rows[..|rows| - 1]) + if rows[|rows| - 1].Some? then 1 else 0
  }

  /** Live nodes are twice the leaves less one for every tree. */
  lemma {:induction false} RowsCount(rows: seq<Row>)
    requires Apart(rows) && forall i | 0 <= i < |rows| && rows[i].Some? :: Proper(rows[i].value)
    ensures |AllIds(rows)| == 2 * |AllItems(rows, |rows|)| - Standing(rows)
    decreases |rows|
  {
    hide Apart, AllIds, RowIds, Proper;
    if rows != [] {
      var init, last := rows[..|rows| - 1], rows[|rows| - 1];
      assert init + [last] == rows;
      RowsSnoc(init, last);
      RowsCount(init);
      AllItemsPrefix(rows, |init|);
      RowIdsCount(last);
    } else {
      NoRowIds();
    }
  }

  lemma NoRowIds()
    ensures AllIds([]) == {}
  {}

  lemma RowIdsCount(o: Row)
    requires o.Some? ==> Proper(o.value)
    ensures |RowIds(o)| == 2 * |RowItems(o)| - (if o.Some? then 1 else 0)
  {
    if o.Some? { TreeCount(o.value); }
  }

  lemma RowsSnoc(init: seq<Row>, last: Row)
    requires Apart(init + [last])
    ensures AllIds(init + [last]) == AllIds(init) + RowIds(last) && AllIds(init) !! RowIds(last) && Apart(init)
  {
    var rows := init + [last];
    assert rows[|init|] == last;
    forall i | 0 <= i < |init| ensures rows[i] == init[i] && RowIds(init[i]) !! RowIds(last) {}
    forall id | id in AllIds(rows) ensures id in AllIds(init) + RowIds(last) {
      var i :| 0 <= i < |rows| && id in RowIds(rows[i]);
      assert i < |init| ==> rows[i] == init[i];
    }
    forall id | id in AllIds(init) ensures id in AllIds(rows) {
      var i :| 0 <= i < |init| && id in RowIds(init[i]);
      assert rows[i] == init[i];
    }
    forall i, j | 0 <= i < j < |init| ensures RowIds(init[i]) !! RowIds(init[j]) { assert rows[i] == init[i] && rows[j] == init[j]; }
  }

  lemma {:induction false} AllItemsPrefix(rows: seq<Row>, k: nat)
    requires k < |rows|
    ensures AllItems(rows[..|rows| - 1], k) == AllItems(rows, k)
    decreases k
  {
    if k > 0 { AllItemsPrefix(rows, k - 1); }
  }

  // ---- blocks of additions --------------------------------------------------------------

  /** Trees stand only on set bits of the leaf count. */
  ghost predicate Fits(rows: seq<Option<Plain>>, n: nat) {
    |rows| == ROWS && forall i | 0 <= i < ROWS && rows[i].Some? :: Bit(n, i)
  }

  function CarryAll(rows: seq<Option<Plain>>, n: nat, hashes: seq<Hash>): (r: seq<Option<Plain>>)
    requires |rows| == ROWS && n + |hashes| <= Pow2(MAX_ROWS)
    ensures |r| == ROWS
    decreases hashes
  {
    if hashes == [] then rows
    else
      TrailingOnesBound(n, MAX_ROWS);
      CarryAll(Carry(rows, n, 0, PLeaf(hashes[0])), n + 1, hashes[1..])
  }

  lemma {:induction false} CarryAt(rows: seq<Option<Plain>>, bits: nat, row: nat, node: Plain, j: nat)
    requires row + TrailingOnes(bits) < |rows| && j < |rows|
    ensures var last := row + TrailingOnes(bits);
            var r := Carry(rows, bits, row, node)[j];
            if row <= j < last then r.None? else if j == last then r.Some? else r == rows[j]
    decreases bits
  {
    if bits % 2 == 1 {
      CarryAt(rows[row := None], bits / 2, row + 1, if rows[row].Some? then PNode(rows[row].value, node) else node, j);
    }
  }

  lemma CarryFits(rows: seq<Option<Plain>>, n: nat, hash: Hash)
    requires Fits(rows, n) && n < Pow2(MAX_ROWS)
    ensures TrailingOnes(n) < ROWS && Fits(Carry(rows, n, 0, PLeaf(hash)), n + 1) && rows[TrailingOnes(n)].None?
  {
    hide Bit, Carry;
    TrailingOnesBound(n, MAX_ROWS);
    IncrementBits(n, TrailingOnes(n));
    forall i | 0 <= i < ROWS && Carry(rows, n, 0, PLeaf(hash))[i].Some? ensures Bit(n + 1, i) {
      CarryAt(rows, n, 0, PLeaf(hash), i);
      IncrementBits(n, i);
    }
  }

  /** A block of additions appends its hashes, in order, to the leaves. */
  lemma {:induction false} CarryAllOrder(rows: seq<Option<Plain>>, n: nat, hashes: seq<Hash>)
    requires Fits(rows, n) && n + |hashes| <= Pow2(MAX_ROWS)
    ensures Order(CarryAll(rows, n, hashes), ROWS) == Order(rows, ROWS) + hashes
    decreases hashes
  {
    hide Order, Carry, Bit;
    if hashes == [] {
      assert Order(rows, ROWS) + hashes == Order(rows, ROWS);
    } else {
      CarryFits(rows, n, hashes[0]);
      CarryOrder(rows, n, 0, PLeaf(hashes[0]));
      var rows' := Carry(rows, n, 0, PLeaf(hashes[0]));
      CarryAllOrder(rows', n + 1, hashes[1..]);
      assert LeafHashes(PLeaf(hashes[0])) == [hashes[0]];
      assert [hashes[0]] + hashes[1..] == hashes;
      assert Order(rows, ROWS) + [hashes[0]] + hashes[1..] == Order(rows, ROWS) + hashes;
    }
  }

  /** Branches created by `additions` leaves after the first n: one per trailing one. */
  function Branches(n: nat, additions: nat): nat
    decreases additions
  { if additions == 0 then 0 else TrailingOnes(n) + Branches(n + 1, additions - 1) }

  lemma BranchesStep(n: nat, additions: nat)
    requires additions > 0
    ensures Branches(n, additions) == TrailingOnes(n) + Branches(n + 1, additions - 1)
  {}

  lemma CarryAllStep(rows: seq<Option<Plain>>, n: nat, hashes: seq<Hash>)
    requires |rows| == ROWS && n + |hashes| <= Pow2(MAX_ROWS) && hashes != []
    ensures TrailingOnes(n) < ROWS
    ensures CarryAll(rows, n, hashes) == CarryAll(Carry(rows, n, 0, PLeaf(hashes[0])), n + 1, hashes[1..])
  {
    hide TrailingOnes, Carry, Pow2;
    TrailingOnesBound(n, MAX_ROWS);
  }

  lemma CarryAllNone(rows: seq<Option<Plain>>, n: nat)
    requires |rows| == ROWS && n <= Pow2(MAX_ROWS)
    ensures CarryAll(rows, n, []) == rows
  {}

  /** The branch allowance telescopes. */
  lemma {:induction false} BranchesTelescope(n: nat, additions: nat)
    ensures Branches(n, additions) + Popcount(n + additions) == additions + Popcount(n)
    decreases additions
  {
    if additions > 0 {
      PopcountIncrement(n);
      BranchesTelescope(n + 1, additions - 1);
    }
  }

  lemma {:induction false} BranchesSnoc(n: nat, additions: nat)
    ensures Branches(n, additions + 1) == Branches(n, additions) + TrailingOnes(n + additions)
    decreases additions
  {
    if additions > 0 { BranchesSnoc(n + 1, additions - 1); }
  }

  // ---- the order of a whole block -------------------------------------------------------

  /** After a block: the surviving leaves in their old order, then the additions. */
  lemma BlockOrder(rows: seq<Row>, n: nat, dead: set<NodeId>, additions: seq<Hash>)
    requires WellFormed(Forest(n, rows)) && n + |additions| <= Pow2(MAX_ROWS)
    ensures Order(CarryAll(StripRows(PruneRows(rows, dead)), n, additions), ROWS)
         == HashesOf(Survivors(AllItems(rows, ROWS), dead)) + additions
  {
    hide Order, CarryAll, Bit, TreeRows, Height, Prune, Strip, AllItems, Survivors;
    var pruned := PruneRows(rows, dead);
    CarryAllOrder(StripRows(pruned), n, additions);
    StripOrder(pruned, ROWS);
    PruneOrder(rows, ROWS, dead);
  }
}
