/** The streaming batch verifier (VerifyProof in src/forest.cpp), and why it is right. */
module Verify {
  import opened Bits
  import opened Position
  import opened Ordered
  import opened Common
  import opened Trees
  import opened ProofPlan

  datatype Proof = Proof(targets: seq<nat>, hashes: seq<Hash>)

  datatype Claim = Claim(pos: nat, hash: Hash)

  // ---- sorting the provided nodes by position -------------------------------------------

  function Insert(c: Claim, cs: seq<Claim>): seq<Claim> {
    if cs == [] || c.pos <= cs[0].pos then [c] + cs else [cs[0]] + Insert(c, cs[1..])
  }

  function Sort(cs: seq<Claim>): seq<Claim> {
    if cs == [] then [] else Insert(cs[0], Sort(cs[1..]))
  }

  ghost predicate Sorted(cs: seq<Claim>) { forall i | 1 <= i < |cs| :: cs[i - 1].pos <= cs[i].pos }

  lemma {:induction false} InsertKeeps(c: Claim, cs: seq<Claim>)
    ensures multiset(Insert(c, cs)) == multiset{c} + multiset(cs)
    decreases cs
  {
    if cs != [] && c.pos > cs[0].pos {
      InsertKeeps(c, cs[1..]);
      assert cs == [cs[0]] + cs[1..];
    }
  }

  lemma {:induction false} InsertSorts(c: Claim, cs: seq<Claim>)
    requires Sorted(cs)
    ensures Sorted(Insert(c, cs))
    decreases cs
  {
    if cs != [] && c.pos > cs[0].pos {
      InsertSorts(c, cs[1..]);
      var r := Insert(c, cs[1..]);
      assert r[0] == c || r[0] == cs[1];
    }
  }

  lemma {:induction false} SortIs(cs: seq<Claim>)
    ensures Sorted(Sort(cs)) && multiset(Sort(cs)) == multiset(cs)
    decreases cs
  {
    if cs != [] {
      SortIs(cs[1..]);
      InsertKeeps(cs[0], Sort(cs[1..]));
      InsertSorts(cs[0], Sort(cs[1..]));
      assert cs == [cs[0]] + cs[1..];
    }
  }

  function Zip(ps: seq<nat>, hs: seq<Hash>): (r: seq<Claim>)
    requires |ps| == |hs|
    ensures |r| == |ps| && forall i | 0 <= i < |ps| :: r[i] == Claim(ps[i], hs[i])
  {
    seq(|ps|, i requires 0 <= i < |ps| => Claim(ps[i], hs[i]))
  }

  predicate HasDuplicate(cs: seq<Claim>) {
    exists i | 1 <= i < |cs| :: cs[i - 1].pos == cs[i].pos
  }

  // ---- the roots to check against -------------------------------------------------------

  /** Root position to listed root hash, for rows k - 1 down to 0; roots are listed from the
      highest row. */
  function ExpectedRoots(s: Shape, roots: seq<Hash>, k: nat): map<nat, Hash>
    requires ValidShape(s) && |roots| == Popcount(s.leaves) && k <= s.rows + 1
  {
    if k == 0 then map[]
    else
      var rest := ExpectedRoots(s, roots, k - 1);
      if Bit(s.leaves, k - 1) then
        RootIndex(s.leaves, k - 1);
        rest[RootPosition(s.leaves, k - 1, s.rows) := roots[Popcount(Shr(s.leaves, k))]]
      else rest
  }

  lemma {:induction false} PopcountShr(x: nat, k: nat)
    ensures Popcount(Shr(x, k)) <= Popcount(x)
    decreases k
  {
    if k > 0 { PopcountShr(x / 2, k - 1); }
  }

  lemma RootIndex(leaves: nat, row: nat)
    requires Bit(leaves, row)
    ensures Popcount(Shr(leaves, row + 1)) < Popcount(leaves)
  {
    PopcountStep(leaves, row);
    PopcountShr(leaves, row);
  }

  lemma {:induction false} ExpectedRootsIs(s: Shape, roots: seq<Hash>, k: nat, row: nat)
    requires ValidShape(s) && |roots| == Popcount(s.leaves) && row < k <= s.rows + 1
    requires Bit(s.leaves, row)
    ensures Popcount(Shr(s.leaves, row + 1)) < |roots|
    ensures var p := RootPosition(s.leaves, row, s.rows);
            var m := ExpectedRoots(s, roots, k);
            p in m && m[p] == roots[Popcount(Shr(s.leaves, row + 1))]
    decreases k
  {
    hide RootPosition, Popcount, Shr, Bit, TreeRows;
    RootIndex(s.leaves, row);
    if row < k - 1 {
      ExpectedRootsIs(s, roots, k - 1, row);
      TreeRowsBound(s.leaves);
      if Bit(s.leaves, k - 1) { RootsDiffer(s.leaves, row, k - 1, s.rows); }
    }
  }

  lemma RootsDiffer(leaves: nat, a: nat, b: nat, rows: nat)
    requires rows <= MAX_ROWS && leaves <= Pow2(rows) && a < b <= rows && Bit(leaves, a) && Bit(leaves, b)
    ensures RootPosition(leaves, a, rows) != RootPosition(leaves, b, rows)
  {
    hide RootPosition, Shr, Bit, RowOf;
    RootPositionIs(leaves, a, rows);
    RootPositionIs(leaves, b, rows);
    RootEven(leaves, a);
    RootEven(leaves, b);
    PopulatedInRow(leaves, a, RootOffset(leaves, a), rows);
    PopulatedInRow(leaves, b, RootOffset(leaves, b), rows);
    RowOfPlace(a, RootOffset(leaves, a), rows);
    RowOfPlace(b, RootOffset(leaves, b), rows);
  }

  // ---- the stream -----------------------------------------------------------------------

  /** The next node comes from the computed queue when its position is strictly lower. */
  predicate TakesComputed(computed: seq<Claim>, provided: seq<Claim>) {
    computed != [] && (provided == [] || computed[0].pos < provided[0].pos)
  }

  function Head(computed: seq<Claim>, provided: seq<Claim>): Claim
    requires computed != [] || provided != []
  { if TakesComputed(computed, provided) then computed[0] else provided[0] }

  function Rest(computed: seq<Claim>, provided: seq<Claim>): (r: (seq<Claim>, seq<Claim>))
    requires computed != [] || provided != []
    ensures |r.0| + |r.1| == |computed| + |provided| - 1
  { if TakesComputed(computed, provided) then (computed[1..], provided) else (computed, provided[1..]) }

  function Stream(parentHash: Combine, s: Shape, expected: map<nat, Hash>,
                  computed: seq<Claim>, provided: seq<Claim>): Result<bool>
    requires s.rows <= MAX_ROWS
    decreases |computed| + |provided|
  {
    if computed == [] && provided == [] then Ok(true)
    else
      var node, rest := Head(computed, provided), Rest(computed, provided);
      if IsRoot(s, node.pos) then
        if node.pos !in expected || expected[node.pos] != node.hash then Ok(false)
        else Stream(parentHash, s, expected, rest.0, rest.1)
      else if node.pos % 2 != 0 then Err("proof is missing a left sibling")
      else if rest.0 == [] && rest.1 == [] then Err("proof is missing a right sibling")
      else
        var sibling, rest' := Head(rest.0, rest.1), Rest(rest.0, rest.1);
        if sibling.pos != Or(node.pos, 1) then Err("proof is missing a right sibling")
        else
          var parent := Claim(Up1(s, node.pos), parentHash(node.hash, sibling.hash));
          Stream(parentHash, s, expected, rest'.0 + [parent], rest'.1)
  }

  function VerifyOf(parentHash: Combine, proof: Proof, targetHashes: seq<Hash>, roots: seq<Hash>,
                    leaves: nat): Result<bool>
    requires TreeRows(leaves) <= MAX_ROWS && Words(proof.targets)
  {
    if |proof.targets| != |targetHashes| then Err("proof target and target-hash counts differ")
    else if proof.targets == [] then Ok(true)
    else if leaves == 0 then Err("non-empty proof for an empty forest")
    else if |roots| != Popcount(leaves) then Err("root count does not match the forest leaf count")
    else
      var s := Shape(leaves, TreeRows(leaves));
      var positions := ProofPositionsOf(s, proof.targets);
      if |positions| != |proof.hashes| then Err("proof hash count does not match its required positions")
      else
        var provided := Sort(Zip(proof.targets, targetHashes) + Zip(positions, proof.hashes));
        if HasDuplicate(provided) then Err("proof contains duplicate node positions")
        else Stream(parentHash, s, ExpectedRoots(s, roots, s.rows + 1), [], provided)
  }

  // ---- the loops of VerifyProof ---------------------------------------------------------

  method FindDuplicate(cs: seq<Claim>) returns (found: bool)
    ensures found == HasDuplicate(cs)
  {
    var i := 1;
    while i < |cs|
      invariant 1 <= i && forall j | 1 <= j < i && j < |cs| :: cs[j - 1].pos != cs[j].pos
    {
      if cs[i - 1].pos == cs[i].pos { return true; }
      i := i + 1;
    }
    return false;
  }

  method ListExpectedRoots(s: Shape, roots: seq<Hash>) returns (expected: map<nat, Hash>)
    requires ValidShape(s) && |roots| == Popcount(s.leaves)
    ensures expected == ExpectedRoots(s, roots, s.rows + 1)
  {
    hide RootPosition, Popcount, Shr, TreeRows, Bit;
    expected := map[];
    var rootIndex: nat := 0;
    var k := s.rows + 1;
    TreeRowsBound(s.leaves);
    assert Shr(s.leaves, k) == 0 by { Pow2Mono(s.rows, k); ShrSmall(s.leaves, k); }
    PopcountZero();
    while k > 0
      invariant 0 <= k <= s.rows + 1
      invariant rootIndex == Popcount(Shr(s.leaves, k))
      invariant forall p | p in expected :: RootAbove(s, k, p)
      invariant ExpectedRoots(s, roots, k) + expected == ExpectedRoots(s, roots, s.rows + 1)
    {
      k := k - 1;
      PopcountStep(s.leaves, k);
      if Bit(s.leaves, k) {
        RootIndex(s.leaves, k);
        var p := RootPosition(s.leaves, k, s.rows);
        if RootAbove(s, k + 1, p) { RootsUnique(s, k); }
        expected := if p in expected then expected else expected[p := roots[rootIndex]];
        rootIndex := rootIndex + 1;
      }
    }
  }

  /** A root position of a row at or above k. */
  ghost predicate RootAbove(s: Shape, k: nat, p: nat)
    requires s.rows <= MAX_ROWS
  { exists row :: k <= row <= s.rows && Bit(s.leaves, row) && RootPosition(s.leaves, row, s.rows) == p }

  lemma RootsUnique(s: Shape, row: nat)
    requires ValidShape(s) && row <= s.rows && Bit(s.leaves, row)
    ensures !RootAbove(s, row + 1, RootPosition(s.leaves, row, s.rows))
  {
    hide RootPosition, Bit, TreeRows;
    TreeRowsBound(s.leaves);
    forall b | row + 1 <= b <= s.rows && Bit(s.leaves, b)
      ensures RootPosition(s.leaves, b, s.rows) != RootPosition(s.leaves, row, s.rows)
    {
      RootsDiffer(s.leaves, row, b, s.rows);
    }
  }

  lemma DropTwo(cs: seq<Claim>, i: nat)
    requires i < |cs|
    ensures cs[i..][1..] == cs[i + 1..] && cs[i..][0] == cs[i]
  {}

  method NextNode(computed: seq<Claim>, provided: seq<Claim>, ci: nat, pi: nat)
    returns (node: Claim, ci': nat, pi': nat)
    requires ci <= |computed| && pi <= |provided| && (ci < |computed| || pi < |provided|)
    ensures ci' <= |computed| && pi' <= |provided|
    ensures node == Head(computed[ci..], provided[pi..])
    ensures Rest(computed[ci..], provided[pi..]) == (computed[ci'..], provided[pi'..])
    ensures ci' + pi' == ci + pi + 1
  {
    if ci < |computed| { DropTwo(computed, ci); }
    if pi < |provided| { DropTwo(provided, pi); }
    if ci < |computed| && (pi >= |provided| || computed[ci].pos < provided[pi].pos) {
      return computed[ci], ci + 1, pi;
    }
    return provided[pi], ci, pi + 1;
  }

  method StreamNodes(parentHash: Combine, s: Shape, expected: map<nat, Hash>, provided: seq<Claim>)
    returns (r: Result<bool>)
    requires s.rows <= MAX_ROWS
    ensures r == Stream(parentHash, s, expected, [], provided)
  {
    hide IsRootPosition, Parent, Head, Rest;
    var computed: seq<Claim> := [];
    var ci, pi := 0, 0;
    assert computed[ci..] == [] && provided[pi..] == provided;
    while ci < |computed| || pi < |provided|
      invariant 0 <= ci <= |computed| && 0 <= pi <= |provided|
      invariant Stream(parentHash, s, expected, computed[ci..], provided[pi..])
             == Stream(parentHash, s, expected, [], provided)
      decreases |computed| - ci + |provided| - pi
    {
      var node;
      node, ci, pi := NextNode(computed, provided, ci, pi);
      if IsRoot(s, node.pos) {
        if node.pos !in expected || expected[node.pos] != node.hash { return Ok(false); }
        continue;
      }
      if node.pos % 2 != 0 { return Err("proof is missing a left sibling"); }
      if ci >= |computed| && pi >= |provided| { return Err("proof is missing a right sibling"); }
      var sibling;
      sibling, ci, pi := NextNode(computed, provided, ci, pi);
      if sibling.pos != Or(node.pos, 1) { return Err("proof is missing a right sibling"); }
      var parent := Claim(Up1(s, node.pos), parentHash(node.hash, sibling.hash));
      assert (computed + [parent])[ci..] == computed[ci..] + [parent];
      computed := computed + [parent];
    }
    assert computed[ci..] == [] && provided[pi..] == [];
    r := Ok(true);
  }

  /** Verify a batch proof against the roots, listed from the highest row. */
  method VerifyProof(parentHash: Combine, proof: Proof, targetHashes: seq<Hash>, roots: seq<Hash>, numLeaves: nat)
    returns (r: Result<bool>)
    requires TreeRows(numLeaves) <= MAX_ROWS && Words(proof.targets)
    ensures r == VerifyOf(parentHash, proof, targetHashes, roots, numLeaves)
  {
    hide Stream, ProofPositionsOf, HasDuplicate, Sort, ExpectedRoots, TreeRows, Popcount;
    if |proof.targets| != |targetHashes| { return Err("proof target and target-hash counts differ"); }
    if proof.targets == [] { return Ok(true); }
    if numLeaves == 0 { return Err("non-empty proof for an empty forest"); }
    if |roots| != Popcount(numLeaves) { return Err("root count does not match the forest leaf count"); }
    var s := Shape(numLeaves, TreeRows(numLeaves));
    var positions := ProofPositions(proof.targets, numLeaves, s.rows);
    if |positions| != |proof.hashes| { return Err("proof hash count does not match its required positions"); }
    var provided := Sort(Zip(proof.targets, targetHashes) + Zip(positions, proof.hashes));
    var duplicate := FindDuplicate(provided);
    if duplicate { return Err("proof contains duplicate node positions"); }
    var expected := ListExpectedRoots(s, roots);
    r := StreamNodes(parentHash, s, expected, provided);
  }

  // ---- soundness ------------------------------------------------------------------------

  /** No leaf of the tree has a hash that is also the hash of some branch. */
  ghost predicate LeavesApart(parentHash: Combine, t: Tree) {
    match t
    case Leaf(_, h) => forall a, b :: parentHash(a, b) != h
    case Node(_, l, r) => LeavesApart(parentHash, l) && LeavesApart(parentHash, r)
  }

  ghost predicate ForestApart(parentHash: Combine, f: Forest) {
    forall row | 0 <= row < |f.trees| && f.trees[row].Some? :: LeavesApart(parentHash, f.trees[row].value)
  }

  /** Every tree the leaf count stands for is present. */
  ghost predicate AllPresent(f: Forest) {
    |f.trees| == ROWS && forall row | 0 <= row < ROWS && Bit(f.leaves, row) :: f.trees[row].Some?
  }

  /** The listed root hashes are the forest's, with any value for a tree that was emptied. */
  ghost predicate RootsMatch(parentHash: Combine, f: Forest, roots: seq<Hash>) {
    && |roots| == Popcount(f.leaves)
    && |f.trees| == ROWS
    && forall row | 0 <= row < ROWS && f.trees[row].Some? ::
        && Popcount(Shr(f.leaves, row + 1)) < |roots|
        && roots[Popcount(Shr(f.leaves, row + 1))] == HashOf(parentHash, f.trees[row].value)
  }

  /** The claim holds: a subtree stands at the position and has the hash. */
  ghost predicate Holds(parentHash: Combine, f: Forest, c: Claim) {
    At(f, c.pos).Some? && HashOf(parentHash, At(f, c.pos).value) == c.hash
  }

  lemma {:induction false} DescendApart(parentHash: Combine, t: Tree, k: nat, path: nat)
    requires LeavesApart(parentHash, t) && Descend(t, k, path).Some?
    ensures LeavesApart(parentHash, Descend(t, k, path).value)
    decreases k
  {
    if k > 0 { DescendApart(parentHash, if Bit(path, k - 1) then t.right else t.left, k - 1, path); }
  }

  lemma AtApart(parentHash: Combine, f: Forest, pos: nat)
    requires ForestApart(parentHash, f) && At(f, pos).Some?
    ensures LeavesApart(parentHash, At(f, pos).value)
  {
    hide LeavesApart, Low, RowOf, Shr, RootRow, Descend, TreeRows;
    var rows := Rows(f);
    var p := Low(pos, rows + 1);
    var row := RowOf(p, rows);
    var off := p - RowStart(row, rows);
    var k := RootRow(Shr(f.leaves, row), off);
    DescendApart(parentHash, f.trees[row + k].value, k, off);
  }

  /** If the combined hash holds one step up, both children hold. */
  lemma ChildrenHold(parentHash: Combine, f: Forest, node: Claim, sibling: Claim)
    requires Rows(f) <= MAX_ROWS && Injective(parentHash) && ForestApart(parentHash, f)
    requires node.pos % 2 == 0 && sibling.pos == node.pos + 1
    requires Holds(parentHash, f, Claim(Parent(node.pos, Rows(f)), parentHash(node.hash, sibling.hash)))
    ensures Holds(parentHash, f, node) && Holds(parentHash, f, sibling)
  {
    hide At, Parent, TreeRows;
    var up := Parent(node.pos, Rows(f));
    AtApart(parentHash, f, up);
    AtChildren(f, node.pos);
    ParentOfPair(node.pos, Rows(f));
    AtChildren(f, sibling.pos);
    var t := At(f, up).value;
    assert t.Node?;
  }

  lemma ParentOfPair(p: nat, rows: nat)
    requires p % 2 == 0 && rows <= MAX_ROWS
    ensures Parent(p + 1, rows) == Parent(p, rows)
  {
    assert Shr(p, 1) == p / 2 && Shr(p + 1, 1) == p / 2;
  }

  lemma RootHolds(parentHash: Combine, f: Forest, roots: seq<Hash>, c: Claim)
    requires WellFormed(f) && RootsMatch(parentHash, f, roots) && IsRootPosition(c.pos, f.leaves, Rows(f))
    ensures var m := ExpectedRoots(Shape(f.leaves, Rows(f)), roots, Rows(f) + 1);
            && c.pos in m
            && (At(f, c.pos).Some? ==> (m[c.pos] == c.hash <==> Holds(parentHash, f, c)))
    ensures AllPresent(f) ==> At(f, c.pos).Some?
  {
    hide At, RowOf, IsRootPosition, TreeRows, RootPosition, ExpectedRoots, Popcount, Shr, Height;
    AtRoot(f, c.pos);
    ExpectedRootsIs(Shape(f.leaves, Rows(f)), roots, Rows(f) + 1, RowOf(c.pos, Rows(f)));
  }

  lemma RestOf(computed: seq<Claim>, provided: seq<Claim>, c: Claim)
    requires computed != [] || provided != []
    ensures var rest := Rest(computed, provided);
            c in computed || c in provided <==> c == Head(computed, provided) || c in rest.0 || c in rest.1
  {
    assert computed != [] ==> computed == [computed[0]] + computed[1..];
    assert provided != [] ==> provided == [provided[0]] + provided[1..];
  }

  ghost predicate AllHold(parentHash: Combine, f: Forest, computed: seq<Claim>, provided: seq<Claim>) {
    forall c :: c in computed || c in provided ==> Holds(parentHash, f, c)
  }

  lemma HeadHolds(parentHash: Combine, f: Forest, computed: seq<Claim>, provided: seq<Claim>)
    requires computed != [] || provided != []
    requires AllHold(parentHash, f, Rest(computed, provided).0, Rest(computed, provided).1)
    requires Holds(parentHash, f, Head(computed, provided))
    ensures AllHold(parentHash, f, computed, provided)
  {
    hide Holds, Head, Rest;
    forall c | c in computed || c in provided ensures Holds(parentHash, f, c) { RestOf(computed, provided, c); }
  }

  /** What the soundness argument assumes of the forest, its listed roots and the hash. */
  ghost predicate Trusted(parentHash: Combine, f: Forest, roots: seq<Hash>) {
    && WellFormed(f) && AllPresent(f) && RootsMatch(parentHash, f, roots)
    && Injective(parentHash) && ForestApart(parentHash, f)
  }

  lemma {:induction false} StreamSound(parentHash: Combine, f: Forest, roots: seq<Hash>,
                                       computed: seq<Claim>, provided: seq<Claim>)
    requires Trusted(parentHash, f, roots)
    requires var s := Shape(f.leaves, Rows(f));
             Stream(parentHash, s, ExpectedRoots(s, roots, s.rows + 1), computed, provided) == Ok(true)
    ensures AllHold(parentHash, f, computed, provided)
    decreases |computed| + |provided|
  {
    hide Holds, IsRootPosition, Parent, TreeRows, ExpectedRoots, RootsMatch, Injective, ForestApart, AllPresent,
         Head, Rest, AllHold, Height;
    var s := Shape(f.leaves, Rows(f));
    if computed == [] && provided == [] {
      NoneHold(parentHash, f);
    } else {
      var node, rest := Head(computed, provided), Rest(computed, provided);
      if IsRoot(s, node.pos) {
        StreamSound(parentHash, f, roots, rest.0, rest.1);
        RootHolds(parentHash, f, roots, node);
      } else {
        var sibling, rest' := Head(rest.0, rest.1), Rest(rest.0, rest.1);
        var parent := Claim(Up1(s, node.pos), parentHash(node.hash, sibling.hash));
        StreamSound(parentHash, f, roots, rest'.0 + [parent], rest'.1);
        LastHolds(parentHash, f, rest'.0, parent, rest'.1);
        OrOne(node.pos);
        ChildrenHold(parentHash, f, node, sibling);
        HeadHolds(parentHash, f, rest.0, rest.1);
      }
      HeadHolds(parentHash, f, computed, provided);
    }
  }

  lemma NoneHold(parentHash: Combine, f: Forest)
    ensures AllHold(parentHash, f, [], [])
  {}

  lemma LastHolds(parentHash: Combine, f: Forest, computed: seq<Claim>, c: Claim, provided: seq<Claim>)
    requires AllHold(parentHash, f, computed + [c], provided)
    ensures AllHold(parentHash, f, computed, provided) && Holds(parentHash, f, c)
  {
    assert c in computed + [c];
    assert forall x :: x in computed ==> x in computed + [c];
  }

  /** Soundness: when every root is present, ParentHash is injective and no leaf hash lies in
      its range, a proof the verifier accepts claims only hashes that stand in the forest, for
      any 64-bit targets: NodeAt finds the node and it has the claimed hash. */
  lemma VerifySound(parentHash: Combine, f: Forest, proof: Proof, targetHashes: seq<Hash>, roots: seq<Hash>, i: nat)
    requires Trusted(parentHash, f, roots) && Words(proof.targets)
    requires VerifyOf(parentHash, proof, targetHashes, roots, f.leaves) == Ok(true)
    requires i < |proof.targets|
    ensures i < |targetHashes|
    ensures Populated(f.leaves, proof.targets[i])
    ensures Locate(f, proof.targets[i]).Some?
    ensures HashOf(parentHash, Locate(f, proof.targets[i]).value) == targetHashes[i]
  {
    hide IsRootPosition, TreeRows, ExpectedRoots, RootsMatch, Injective, ForestApart, AllPresent, At, Locate,
         Height, Stream, ProofPositionsOf, Sort, HasDuplicate, Populated, Popcount;
    var s := Shape(f.leaves, Rows(f));
    var positions := ProofPositionsOf(s, proof.targets);
    var claims := Zip(proof.targets, targetHashes);
    var all := claims + Zip(positions, proof.hashes);
    StreamSound(parentHash, f, roots, [], Sort(all));
    SortIs(all);
    assert all[i] == claims[i];
    assert all[i] in multiset(all);
    assert all[i] in Sort(all);
    AtPopulated(f, proof.targets[i]);
    LocateIs(f, proof.targets[i]);
  }
}
