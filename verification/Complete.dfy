/** Completeness of the streaming verifier: proofs made for live leaves are accepted. */
module Complete {
  import opened Bits
  import opened Position
  import opened Ordered
  import opened Common
  import opened Trees
  import opened ProofPlan
  import opened Verify

  function ShapeOf(f: Forest): Shape { Shape(f.leaves, Rows(f)) }

  /** A set of denoting positions that holds, with every position that is not a root, its
      sibling and its parent. */
  ghost predicate Plan(f: Forest, plan: set<nat>)
    requires Rows(f) <= MAX_ROWS
  {
    forall x | x in plan ::
      && x < Pow2(Rows(f) + 1)
      && At(f, x).Some?
      && (!IsRoot(ShapeOf(f), x) ==> Up1(ShapeOf(f), x) in plan && Sibling(x) in plan)
  }

  /** Facts about one planned position that is not a root. */
  lemma PlanStep(f: Forest, plan: set<nat>, x: nat)
    requires Rows(f) <= MAX_ROWS && Plan(f, plan) && x in plan && !IsRoot(ShapeOf(f), x)
    ensures Sibling(x) in plan && !IsRoot(ShapeOf(f), Sibling(x))
    ensures Up1(ShapeOf(f), x) in plan && x < Up1(ShapeOf(f), x) && Sibling(x) < Up1(ShapeOf(f), x)
    ensures Up1(ShapeOf(f), Sibling(x)) == Up1(ShapeOf(f), x)
    ensures Up1(ShapeOf(f), x) == Pow2(Rows(f)) + x / 2
  {
    hide At, IsRootPosition, Parent, Sibling, Populated, TreeRows;
    AtPopulated(f, x);
    AtPopulated(f, Sibling(x));
    PopulatedUp(f.leaves, x);
    PopulatedUp(f.leaves, Sibling(x));
    ParentIs(x, Rows(f));
  }

  lemma PlanRoot(f: Forest, plan: set<nat>, x: nat)
    requires Rows(f) <= MAX_ROWS && Plan(f, plan) && x in plan && IsRoot(ShapeOf(f), x)
    ensures x % 2 == 0 && x + 1 !in plan
  {
    hide At, IsRootPosition, Populated, TreeRows, RowOf, Shr, Bit, RowStart;
    var rows := Rows(f);
    RootSibling(f.leaves, x);
    RootBelow(x, f.leaves, rows);
    var row, off := PlaceOf(x, rows);
    TreeRowsBound(f.leaves);
    RootPlace(f.leaves, row, off, rows);
    RootEven(f.leaves, row);
    RowStartEven(row, rows);
    XorOne(x);
    if x + 1 in plan { AtPopulated(f, x + 1); }
  }

  /** What is still to be streamed: `c` computed and `d` provided positions, all of the plan
      from `lo` on being there or still to be computed from what is there. */
  ghost predicate Feed(f: Forest, plan: set<nat>, c: set<nat>, d: set<nat>, lo: nat)
    requires Rows(f) <= MAX_ROWS
  {
    && lo % 2 == 0
    && c <= plan && d <= plan && c !! d
    && (forall x | x in c :: lo <= x < Pow2(Rows(f)) + lo / 2)
    && (forall x | x in d :: lo <= x)
    && (forall x | x in plan && !IsRoot(ShapeOf(f), x) :: Up1(ShapeOf(f), x) !in d)
    && (forall x | x in plan && lo <= x :: Fed(f, plan, c, d, lo, x))
  }

  ghost predicate Fed(f: Forest, plan: set<nat>, c: set<nat>, d: set<nat>, lo: nat, x: nat)
    requires Rows(f) <= MAX_ROWS
  {
    x in c || x in d || exists y :: y in plan && lo <= y && !IsRoot(ShapeOf(f), y) && Up1(ShapeOf(f), y) == x
  }

  /** Every planned position from `lo` on has a queued one at or below it. */
  lemma {:induction false} QueuedBelow(f: Forest, plan: set<nat>, c: set<nat>, d: set<nat>, lo: nat, x: nat)
    requires Rows(f) <= MAX_ROWS && Plan(f, plan) && Feed(f, plan, c, d, lo) && x in plan && lo <= x
    ensures exists z :: (z in c || z in d) && z <= x
    decreases x
  {
    hide Plan, IsRoot, Up1, Rows;
    assert Fed(f, plan, c, d, lo, x);
    if x !in c && x !in d {
      var y :| y in plan && lo <= y && !IsRoot(ShapeOf(f), y) && Up1(ShapeOf(f), y) == x;
      PlanStep(f, plan, y);
      QueuedBelow(f, plan, c, d, lo, y);
    }
  }

  lemma LowestQueued(f: Forest, plan: set<nat>, c: set<nat>, d: set<nat>, lo: nat, x: nat, s: nat)
    requires Rows(f) <= MAX_ROWS && Plan(f, plan) && Feed(f, plan, c, d, lo)
    requires forall z :: z in c || z in d ==> x <= z
    requires s in plan && lo <= s
    ensures x <= s
  {
    QueuedBelow(f, plan, c, d, lo, s);
  }

  lemma FeedRoot(f: Forest, plan: set<nat>, c: set<nat>, d: set<nat>, lo: nat, x: nat)
    requires Rows(f) <= MAX_ROWS && Plan(f, plan) && Feed(f, plan, c, d, lo)
    requires (x in c || x in d) && forall z :: z in c || z in d ==> x <= z
    requires IsRoot(ShapeOf(f), x)
    ensures Feed(f, plan, c - {x}, d - {x}, x + 2)
  {
    hide Plan, IsRoot, Up1, Rows;
    PlanRoot(f, plan, x);
    forall s | s in plan && x + 2 <= s ensures Fed(f, plan, c - {x}, d - {x}, x + 2, s) {
      assert Fed(f, plan, c, d, lo, s);
      if s !in c && s !in d {
        var y :| y in plan && lo <= y && !IsRoot(ShapeOf(f), y) && Up1(ShapeOf(f), y) == s;
        LowestQueued(f, plan, c, d, lo, x, y);
        assert y != x && y != x + 1;
      }
    }
  }

  lemma PairQueued(f: Forest, plan: set<nat>, c: set<nat>, d: set<nat>, lo: nat, x: nat)
    requires Rows(f) <= MAX_ROWS && Plan(f, plan) && Feed(f, plan, c, d, lo)
    requires (x in c || x in d) && forall z :: z in c || z in d ==> x <= z
    requires !IsRoot(ShapeOf(f), x)
    ensures x % 2 == 0 && Sibling(x) == x + 1 && (x + 1 in c || x + 1 in d)
  {
    hide Plan, IsRoot, Up1, Rows, Sibling;
    PlanStep(f, plan, x);
    assert Sibling(x) == if x % 2 == 0 then x + 1 else x - 1 by { SiblingIs(x); }
    if x % 2 == 1 {
      LowestQueued(f, plan, c, d, lo, x, Sibling(x));
      assert false;
    }
    assert Fed(f, plan, c, d, lo, x + 1);
    if x + 1 !in c && x + 1 !in d {
      var y :| y in plan && lo <= y && !IsRoot(ShapeOf(f), y) && Up1(ShapeOf(f), y) == x + 1;
      LowestQueued(f, plan, c, d, lo, x, y);
      PlanStep(f, plan, y);
      assert false;
    }
  }

  lemma SiblingIs(x: nat)
    ensures Sibling(x) == if x % 2 == 0 then x + 1 else x - 1
  {
    XorOne(x);
  }

  lemma FeedPair(f: Forest, plan: set<nat>, c: set<nat>, d: set<nat>, lo: nat, x: nat)
    requires Rows(f) <= MAX_ROWS && Plan(f, plan) && Feed(f, plan, c, d, lo)
    requires (x in c || x in d) && forall z :: z in c || z in d ==> x <= z
    requires !IsRoot(ShapeOf(f), x) && x % 2 == 0 && Sibling(x) == x + 1
    ensures var up := Up1(ShapeOf(f), x);
            && Feed(f, plan, (c - {x} - {x + 1}) + {up}, d - {x} - {x + 1}, x + 2)
            && up !in d && forall z | z in c :: z < up
  {
    hide Plan, IsRoot, Up1, Rows, Sibling;
    var up := Up1(ShapeOf(f), x);
    PlanStep(f, plan, x);
    var c', d' := (c - {x} - {x + 1}) + {up}, d - {x} - {x + 1};
    forall s | s in plan && x + 2 <= s ensures Fed(f, plan, c', d', x + 2, s) {
      assert Fed(f, plan, c, d, lo, s);
      if s !in c && s !in d && s != up {
        var y :| y in plan && lo <= y && !IsRoot(ShapeOf(f), y) && Up1(ShapeOf(f), y) == s;
        LowestQueued(f, plan, c, d, lo, x, y);
        assert y != x && y != x + 1;
      }
    }
  }

  // ---- from sets of positions to the two queues -----------------------------------------

  ghost function Pos(cs: seq<Claim>): set<nat> { set c | c in cs :: c.pos }

  ghost predicate Strict(cs: seq<Claim>) { forall i, j | 0 <= i < j < |cs| :: cs[i].pos < cs[j].pos }

  lemma PosUncons(cs: seq<Claim>)
    requires cs != [] && Strict(cs)
    ensures Pos(cs[1..]) == Pos(cs) - {cs[0].pos} && Strict(cs[1..])
    ensures cs[0].pos in Pos(cs) && forall z | z in Pos(cs) :: cs[0].pos <= z
  {
    assert cs == [cs[0]] + cs[1..];
    assert cs[0] in cs;
    forall z | z in Pos(cs[1..]) ensures z in Pos(cs) && z != cs[0].pos {
      var c :| c in cs[1..] && c.pos == z;
      assert c in cs;
    }
    forall z | z in Pos(cs) ensures z == cs[0].pos || z in Pos(cs[1..]) {
      var c :| c in cs && c.pos == z;
      assert c == cs[0] || c in cs[1..];
    }
  }

  lemma PosSnoc(cs: seq<Claim>, c: Claim)
    requires Strict(cs) && forall z | z in Pos(cs) :: z < c.pos
    ensures Pos(cs + [c]) == Pos(cs) + {c.pos} && Strict(cs + [c])
  {
    forall z | z in Pos(cs) ensures z in Pos(cs + [c]) {
      var e :| e in cs && e.pos == z;
      assert e in cs + [c];
    }
    assert c in cs + [c];
    forall i | 0 <= i < |cs| ensures cs[i].pos < c.pos { assert cs[i] in cs; assert cs[i].pos in Pos(cs); }
  }

  lemma HeadLowest(computed: seq<Claim>, provided: seq<Claim>)
    requires computed != [] || provided != []
    requires Strict(computed) && Strict(provided) && Pos(computed) !! Pos(provided)
    ensures var x := Head(computed, provided).pos;
            var rest := Rest(computed, provided);
            && (x in Pos(computed) || x in Pos(provided))
            && (forall z :: z in Pos(computed) || z in Pos(provided) ==> x <= z)
            && Pos(rest.0) == Pos(computed) - {x} && Pos(rest.1) == Pos(provided) - {x}
            && Strict(rest.0) && Strict(rest.1)
  {
    if computed != [] { PosUncons(computed); }
    if provided != [] { PosUncons(provided); }
  }

  ghost predicate Queue(parentHash: Combine, f: Forest, plan: set<nat>, computed: seq<Claim>, provided: seq<Claim>, lo: nat)
    requires Rows(f) <= MAX_ROWS
  {
    && Plan(f, plan) && Feed(f, plan, Pos(computed), Pos(provided), lo)
    && Strict(computed) && Strict(provided)
    && AllHold(parentHash, f, computed, provided)
  }

  lemma HoldSplit(parentHash: Combine, f: Forest, computed: seq<Claim>, provided: seq<Claim>)
    requires computed != [] || provided != []
    requires AllHold(parentHash, f, computed, provided)
    ensures Holds(parentHash, f, Head(computed, provided))
    ensures AllHold(parentHash, f, Rest(computed, provided).0, Rest(computed, provided).1)
  {
    hide Holds, Head, Rest;
    var rest := Rest(computed, provided);
    RestOf(computed, provided, Head(computed, provided));
    forall c | c in rest.0 || c in rest.1 ensures Holds(parentHash, f, c) { RestOf(computed, provided, c); }
  }

  lemma HoldSnoc(parentHash: Combine, f: Forest, computed: seq<Claim>, c: Claim, provided: seq<Claim>)
    requires AllHold(parentHash, f, computed, provided) && Holds(parentHash, f, c)
    ensures AllHold(parentHash, f, computed + [c], provided)
  {}

  lemma ParentHolds(parentHash: Combine, f: Forest, node: Claim, sibling: Claim)
    requires Rows(f) <= MAX_ROWS && node.pos < Pow2(Rows(f) + 1)
    requires Holds(parentHash, f, node) && Holds(parentHash, f, sibling) && !IsRoot(ShapeOf(f), node.pos)
    requires node.pos % 2 == 0 && sibling.pos == node.pos + 1
    ensures Holds(parentHash, f, Claim(Up1(ShapeOf(f), node.pos), parentHash(node.hash, sibling.hash)))
  {
    hide At, Parent, TreeRows, IsRootPosition;
    AtNonRoot(f, node.pos);
    AtChildren(f, node.pos);
    ParentOfPair(node.pos, Rows(f));
    AtChildren(f, sibling.pos);
  }

  lemma QueueRoot(parentHash: Combine, f: Forest, plan: set<nat>, computed: seq<Claim>, provided: seq<Claim>, lo: nat)
    requires Rows(f) <= MAX_ROWS && Queue(parentHash, f, plan, computed, provided, lo)
    requires computed != [] || provided != []
    requires IsRoot(ShapeOf(f), Head(computed, provided).pos)
    ensures Holds(parentHash, f, Head(computed, provided))
    ensures var rest := Rest(computed, provided);
            Queue(parentHash, f, plan, rest.0, rest.1, Head(computed, provided).pos + 2)
  {
    hide Plan, Feed, Rows, Head, Rest, IsRoot, Pos, Strict, AllHold, Holds;
    FeedDisjoint(f, plan, Pos(computed), Pos(provided), lo);
    HeadLowest(computed, provided);
    FeedRoot(f, plan, Pos(computed), Pos(provided), lo, Head(computed, provided).pos);
    HoldSplit(parentHash, f, computed, provided);
  }

  lemma FeedDisjoint(f: Forest, plan: set<nat>, c: set<nat>, d: set<nat>, lo: nat)
    requires Rows(f) <= MAX_ROWS && Feed(f, plan, c, d, lo)
    ensures c !! d && c <= plan && d <= plan
  {}

  lemma PlanBelow(f: Forest, plan: set<nat>, x: nat)
    requires Rows(f) <= MAX_ROWS && Plan(f, plan) && x in plan
    ensures x < Pow2(Rows(f) + 1)
  {}

  lemma QueuePair(parentHash: Combine, f: Forest, plan: set<nat>, computed: seq<Claim>, provided: seq<Claim>, lo: nat)
    requires Rows(f) <= MAX_ROWS && Queue(parentHash, f, plan, computed, provided, lo)
    requires computed != [] || provided != []
    requires !IsRoot(ShapeOf(f), Head(computed, provided).pos)
    ensures var node, rest := Head(computed, provided), Rest(computed, provided);
            && node.pos % 2 == 0 && (rest.0 != [] || rest.1 != [])
            && var sibling, rest' := Head(rest.0, rest.1), Rest(rest.0, rest.1);
            && sibling.pos == node.pos + 1
            && var up := Claim(Up1(ShapeOf(f), node.pos), parentHash(node.hash, sibling.hash));
            && Queue(parentHash, f, plan, rest'.0 + [up], rest'.1, node.pos + 2)
  {
    hide Plan, Feed, Rows, Head, Rest, IsRoot, Pos, Strict, AllHold, Holds, Up1, Sibling;
    var c, d := Pos(computed), Pos(provided);
    FeedDisjoint(f, plan, c, d, lo);
    HeadLowest(computed, provided);
    HoldSplit(parentHash, f, computed, provided);
    var node, rest := Head(computed, provided), Rest(computed, provided);
    var x := node.pos;
    PairQueued(f, plan, c, d, lo, x);
    FeedPair(f, plan, c, d, lo, x);
    assert x + 1 in Pos(rest.0) || x + 1 in Pos(rest.1);
    SomeQueued(rest.0, rest.1, x + 1);
    HeadLowest(rest.0, rest.1);
    HoldSplit(parentHash, f, rest.0, rest.1);
    var sibling, rest' := Head(rest.0, rest.1), Rest(rest.0, rest.1);
    PlanBelow(f, plan, x);
    ParentHolds(parentHash, f, node, sibling);
    var up := Claim(Up1(ShapeOf(f), x), parentHash(node.hash, sibling.hash));
    PosSnoc(rest'.0, up);
    HoldSnoc(parentHash, f, rest'.0, up, rest'.1);
  }

  lemma SomeQueued(computed: seq<Claim>, provided: seq<Claim>, x: nat)
    requires x in Pos(computed) || x in Pos(provided)
    ensures computed != [] || provided != []
  {}

  lemma {:induction false} StreamComplete(parentHash: Combine, f: Forest, roots: seq<Hash>, plan: set<nat>,
                                          computed: seq<Claim>, provided: seq<Claim>, lo: nat)
    requires WellFormed(f) && RootsMatch(parentHash, f, roots)
    requires Queue(parentHash, f, plan, computed, provided, lo)
    ensures var s := ShapeOf(f);
            Stream(parentHash, s, ExpectedRoots(s, roots, s.rows + 1), computed, provided) == Ok(true)
    decreases |computed| + |provided|
  {
    hide Queue, IsRootPosition, Parent, TreeRows, ExpectedRoots, RootsMatch, Head, Rest, Height, At;
    var s := ShapeOf(f);
    if computed != [] || provided != [] {
      var node, rest := Head(computed, provided), Rest(computed, provided);
      if IsRoot(s, node.pos) {
        QueueRoot(parentHash, f, plan, computed, provided, lo);
        RootHolds(parentHash, f, roots, node);
        StreamComplete(parentHash, f, roots, plan, rest.0, rest.1, node.pos + 2);
      } else {
        QueuePair(parentHash, f, plan, computed, provided, lo);
        OrOne(node.pos);
        var sibling, rest' := Head(rest.0, rest.1), Rest(rest.0, rest.1);
        var up := Claim(Up1(s, node.pos), parentHash(node.hash, sibling.hash));
        StreamComplete(parentHash, f, roots, plan, rest'.0 + [up], rest'.1, node.pos + 2);
      }
    }
  }

  // ---- the plan of a list of live leaves ------------------------------------------------

  /** Each target is the position of a live leaf with the target hash. */
  ghost predicate LeafTargets(f: Forest, targets: seq<nat>, hashes: seq<Hash>) {
    && |targets| == |hashes|
    && (forall i | 0 <= i < |targets| ::
        && targets[i] < Pow2(Rows(f) + 1)
        && At(f, targets[i]).Some? && At(f, targets[i]).value.Leaf? && At(f, targets[i]).value.hash == hashes[i])
  }

  ghost predicate NoRepeat(xs: seq<nat>) { forall i, j | 0 <= i < j < |xs| :: xs[i] != xs[j] }

  ghost function Denoting(f: Forest): set<nat> { set p: nat | p < Pow2(Rows(f) + 1) && At(f, p).Some? }

  lemma DenotingClosed(f: Forest)
    requires Rows(f) <= MAX_ROWS
    ensures ClosedUp(ShapeOf(f), Denoting(f))
  {
    hide At, IsRootPosition, Parent, TreeRows;
    forall x | x in Denoting(f) && !IsRoot(ShapeOf(f), x) ensures Up1(ShapeOf(f), x) in Denoting(f) { AtNonRoot(f, x); }
  }

  lemma TargetsDenote(f: Forest, targets: seq<nat>, hashes: seq<Hash>)
    requires WellFormed(f) && LeafTargets(f, targets, hashes)
    ensures Words(targets) && Elements(targets) <= Denoting(f) && Denoting(f) <= PopulatedSet(f.leaves)
  {
    hide At, Populated, TreeRows, Height;
    Pow2Word(Rows(f) + 1);
    forall p | p in Denoting(f) ensures p in PopulatedSet(f.leaves) { AtPopulated(f, p); }
  }

  lemma PlanDenotes(f: Forest, targets: seq<nat>, hashes: seq<Hash>)
    requires WellFormed(f) && LeafTargets(f, targets, hashes)
    ensures Words(targets)
    ensures var k := PlanOf(ShapeOf(f), targets).known;
            Elements(targets) <= k <= Denoting(f) && ClosedUp(ShapeOf(f), k)
  {
    hide At, Populated, TreeRows, Height, PlanOf, LeafTargets, IsRoot, Up1;
    TargetsDenote(f, targets, hashes);
    DenotingClosed(f);
    KnownIsClosure(ShapeOf(f), targets, Denoting(f));
  }

  lemma NeededDenotes(f: Forest, known: set<nat>, q: nat)
    requires Rows(f) <= MAX_ROWS && known <= Denoting(f) && Needed(ShapeOf(f), known, q)
    ensures q in Denoting(f) && !IsRoot(ShapeOf(f), q) && Up1(ShapeOf(f), q) == Up1(ShapeOf(f), Sibling(q))
  {
    hide At, Populated, TreeRows, IsRootPosition, Parent, Sibling;
    var x := Sibling(q);
    SiblingTwice(q);
    AtPopulated(f, x);
    PopulatedUp(f.leaves, x);
    AtNonRoot(f, x);
    AtChildren(f, q);
  }

  lemma PlanIsPlan(f: Forest, known: set<nat>, proofs: set<nat>)
    requires Rows(f) <= MAX_ROWS && known <= Denoting(f) && ClosedUp(ShapeOf(f), known)
    requires forall q :: q in proofs <==> Needed(ShapeOf(f), known, q)
    ensures Plan(f, known + proofs)
  {
    hide At, TreeRows, IsRoot, Up1, Sibling;
    forall x | x in known + proofs
      ensures x in Denoting(f) && (!IsRoot(ShapeOf(f), x) ==> Up1(ShapeOf(f), x) in known + proofs && Sibling(x) in known + proofs)
    {
      SiblingTwice(x);
      if x in known {
        assert x in Denoting(f);
        if !IsRoot(ShapeOf(f), x) && Sibling(x) !in known { assert Needed(ShapeOf(f), known, Sibling(x)); }
      } else {
        NeededDenotes(f, known, x);
      }
    }
  }

  lemma PlanPart(f: Forest, targets: seq<nat>, hashes: seq<Hash>) returns (known: set<nat>, proofs: set<nat>)
    requires WellFormed(f) && LeafTargets(f, targets, hashes)
    ensures Words(targets)
    ensures PlanOf(ShapeOf(f), targets) == Found(known, proofs)
    ensures Elements(targets) <= known <= Denoting(f) && ClosedUp(ShapeOf(f), known)
    ensures forall q :: q in proofs <==> Needed(ShapeOf(f), known, q)
    ensures Plan(f, known + proofs)
  {
    hide At, Populated, TreeRows, Height, PlanOf, LeafTargets, IsRoot, Up1, Needed, Ascending, WellFormed, ClosedUp, Plan;
    RowsBound(f);
    PlanDenotes(f, targets, hashes);
    TargetsDenote(f, targets, hashes);
    var plan := PlanOf(ShapeOf(f), targets);
    known, proofs := plan.known, plan.proofs;
    AscendingIs(proofs);
    forall q ensures q in proofs <==> Needed(ShapeOf(f), known, q) {
      PopulatedPlan(ShapeOf(f), targets, q);
      assert q in Ascending(proofs) <==> q in Elements(Ascending(proofs));
    }
    PlanIsPlan(f, known, proofs);
  }

  lemma RowsBound(f: Forest)
    requires WellFormed(f)
    ensures Rows(f) <= MAX_ROWS
  {}

  /** Positions of the closure other than the targets are parents of planned positions. */
  lemma KnownIsParent(s: Shape, targets: seq<nat>, x: nat)
    requires s.rows <= MAX_ROWS && Words(targets)
    requires x in PlanOf(s, targets).known && x !in Elements(targets)
    ensures exists y :: y in PlanOf(s, targets).known && !IsRoot(s, y) && Up1(s, y) == x
  {
    hide IsRoot, Up1, PlanOf;
    var k := PlanOf(s, targets).known;
    KnownIsClosure(s, targets, {});
    if !exists y :: y in k && !IsRoot(s, y) && Up1(s, y) == x {
      KnownIsClosure(s, targets, k - {x});
      assert false;
    }
  }

  /** A parent in the plan is a branch, so it is neither a target nor a needed sibling. */
  lemma ParentNotProvided(f: Forest, targets: seq<nat>, hashes: seq<Hash>, known: set<nat>, proofs: set<nat>, x: nat)
    requires WellFormed(f) && LeafTargets(f, targets, hashes)
    requires known <= Denoting(f) && ClosedUp(ShapeOf(f), known)
    requires forall q :: q in proofs <==> Needed(ShapeOf(f), known, q)
    requires x in known + proofs && !IsRoot(ShapeOf(f), x)
    ensures Up1(ShapeOf(f), x) !in Elements(targets) && Up1(ShapeOf(f), x) !in proofs
  {
    hide At, TreeRows, IsRootPosition, Parent, Sibling, Height;
    var y := if x in known then x else Sibling(x);
    if x !in known { NeededDenotes(f, known, x); }
    assert y in known && Up1(ShapeOf(f), x) == Up1(ShapeOf(f), y) && !IsRoot(ShapeOf(f), y);
    AtNonRoot(f, y);
    forall i | 0 <= i < |targets| ensures targets[i] != Up1(ShapeOf(f), x) {}
  }

  lemma FirstFeed(f: Forest, targets: seq<nat>, hashes: seq<Hash>, known: set<nat>, proofs: set<nat>)
    requires WellFormed(f) && LeafTargets(f, targets, hashes) && Words(targets)
    requires PlanOf(ShapeOf(f), targets) == Found(known, proofs)
    requires Elements(targets) <= known <= Denoting(f) && ClosedUp(ShapeOf(f), known)
    requires forall q :: q in proofs <==> Needed(ShapeOf(f), known, q)
    ensures Feed(f, known + proofs, {}, Elements(targets) + proofs, 0)
  {
    hide At, TreeRows, IsRoot, Up1, Height, PlanOf, Needed, LeafTargets, ClosedUp, Denoting, WellFormed;
    RowsBound(f);
    var plan, d := known + proofs, Elements(targets) + proofs;
    forall x | x in plan && !IsRoot(ShapeOf(f), x) ensures Up1(ShapeOf(f), x) !in d {
      ParentNotProvided(f, targets, hashes, known, proofs, x);
    }
    forall x | x in plan ensures Fed(f, plan, {}, d, 0, x) {
      if x !in d { KnownIsParent(ShapeOf(f), targets, x); }
    }
  }

  // ---- the provided nodes, sorted -------------------------------------------------------

  lemma {:induction false} InsertStrict(c: Claim, cs: seq<Claim>)
    requires Strict(cs) && c.pos !in Pos(cs)
    ensures Strict(Insert(c, cs)) && Pos(Insert(c, cs)) == Pos(cs) + {c.pos}
    decreases cs
  {
    if cs == [] || c.pos <= cs[0].pos {
      assert cs == [] || cs[0] in cs;
      ConsStrict(c, cs);
    } else {
      PosUncons(cs);
      InsertStrict(c, cs[1..]);
      ConsStrict(cs[0], Insert(c, cs[1..]));
    }
  }

  lemma ConsStrict(c: Claim, cs: seq<Claim>)
    requires Strict(cs) && (cs == [] || c.pos < cs[0].pos || (c.pos == cs[0].pos && c.pos !in Pos(cs)) || forall z | z in Pos(cs) :: c.pos < z)
    ensures Strict([c] + cs) && Pos([c] + cs) == {c.pos} + Pos(cs)
  {
    forall i | 0 <= i < |cs| ensures c.pos < cs[i].pos { assert cs[i] in cs; assert cs[i].pos in Pos(cs); }
    forall z | z in Pos(cs) ensures z in Pos([c] + cs) {
      var e :| e in cs && e.pos == z;
      assert e in [c] + cs;
    }
    assert c in [c] + cs;
  }

  lemma {:induction false} SortStrict(cs: seq<Claim>)
    requires forall i, j | 0 <= i < j < |cs| :: cs[i].pos != cs[j].pos
    ensures Strict(Sort(cs)) && Pos(Sort(cs)) == Pos(cs)
    decreases cs
  {
    if cs != [] {
      SortStrict(cs[1..]);
      assert cs == [cs[0]] + cs[1..];
      InsertStrict(cs[0], Sort(cs[1..]));
      forall z | z in Pos(cs[1..]) ensures z in Pos(cs) {
        var e :| e in cs[1..] && e.pos == z;
        assert e in cs;
      }
      assert cs[0] in cs;
    }
  }

  lemma PosZip(ps: seq<nat>, hs: seq<Hash>, qs: seq<nat>, gs: seq<Hash>)
    requires |ps| == |hs| && |qs| == |gs|
    ensures Pos(Zip(ps, hs) + Zip(qs, gs)) == Elements(ps) + Elements(qs)
  {
    var a, b := Zip(ps, hs), Zip(qs, gs);
    forall x | x in ps ensures x in Pos(a + b) { var i :| 0 <= i < |ps| && ps[i] == x; assert (a + b)[i] in a + b; }
    forall x | x in qs ensures x in Pos(a + b) { var i :| 0 <= i < |qs| && qs[i] == x; assert (a + b)[|ps| + i] in a + b; }
  }

  /** Every needed hash of the proof is the hash standing at its position. */
  ghost predicate RightHashes(parentHash: Combine, f: Forest, positions: seq<nat>, hashes: seq<Hash>) {
    |positions| == |hashes| && forall j | 0 <= j < |positions| :: Holds(parentHash, f, Claim(positions[j], hashes[j]))
  }

  lemma AllProvidedHold(parentHash: Combine, f: Forest, targets: seq<nat>, targetHashes: seq<Hash>,
                        positions: seq<nat>, hashes: seq<Hash>)
    requires LeafTargets(f, targets, targetHashes) && RightHashes(parentHash, f, positions, hashes)
    ensures AllHold(parentHash, f, [], Sort(Zip(targets, targetHashes) + Zip(positions, hashes)))
  {
    hide At, Rows;
    var all := Zip(targets, targetHashes) + Zip(positions, hashes);
    SortIs(all);
    forall c | c in Sort(all) ensures Holds(parentHash, f, c) {
      assert c in multiset(Sort(all));
      assert c in all;
      var i :| 0 <= i < |all| && all[i] == c;
      if i >= |targets| { assert c == Claim(positions[i - |targets|], hashes[i - |targets|]); }
    }
  }

  lemma ProvidedDistinct(targets: seq<nat>, targetHashes: seq<Hash>, positions: seq<nat>, hashes: seq<Hash>)
    requires |targets| == |targetHashes| && |positions| == |hashes|
    requires NoRepeat(targets) && StrictlySorted(positions)
    requires Elements(targets) !! Elements(positions)
    ensures var provided := Sort(Zip(targets, targetHashes) + Zip(positions, hashes));
            Strict(provided) && !HasDuplicate(provided) && Pos(provided) == Elements(targets) + Elements(positions)
  {
    var all := Zip(targets, targetHashes) + Zip(positions, hashes);
    forall i, j | 0 <= i < j < |all| ensures all[i].pos != all[j].pos {
      if i < |targets| <= j {
        assert targets[i] in Elements(targets) && positions[j - |targets|] in Elements(positions);
      }
    }
    SortStrict(all);
    PosZip(targets, targetHashes, positions, hashes);
  }

  /** Completeness: in every well-formed forest, promoted leaves and emptied roots included, a
      proof for distinct live leaves carrying the hashes that stand at the needed positions is
      accepted, whatever value is listed for an empty root. */
  lemma VerifyComplete(parentHash: Combine, f: Forest, proof: Proof, targetHashes: seq<Hash>, roots: seq<Hash>)
    requires WellFormed(f) && RootsMatch(parentHash, f, roots)
    requires LeafTargets(f, proof.targets, targetHashes) && NoRepeat(proof.targets) && Words(proof.targets)
    requires RightHashes(parentHash, f, ProofPositionsOf(ShapeOf(f), proof.targets), proof.hashes)
    ensures VerifyOf(parentHash, proof, targetHashes, roots, f.leaves) == Ok(true)
  {
    hide At, TreeRows, Height, PlanOf, Needed, Feed, Plan, AllHold, ClosedUp, RightHashes, Denoting, Sort,
         HasDuplicate, Stream, ExpectedRoots, Popcount, Shr, Ascending, Strict, Pos;
    var s := ShapeOf(f);
    var known, proofs := PlanPart(f, proof.targets, targetHashes);
    var positions := ProofPositionsOf(s, proof.targets);
    if proof.targets != [] {
      LeavesPositive(f, proof.targets[0]);
      HashCount(parentHash, f, positions, proof.hashes);
      AscendingIs(proofs);
      assert Elements(proof.targets) !! Elements(positions) by {
        NeededOutside(s, known, proofs);
      }
      ProvidedDistinct(proof.targets, targetHashes, positions, proof.hashes);
      AllProvidedHold(parentHash, f, proof.targets, targetHashes, positions, proof.hashes);
      FirstFeed(f, proof.targets, targetHashes, known, proofs);
      var provided := Sort(Zip(proof.targets, targetHashes) + Zip(positions, proof.hashes));
      EmptyStrict();
      StreamComplete(parentHash, f, roots, known + proofs, [], provided, 0);
    }
  }

  lemma EmptyStrict()
    ensures Strict([]) && Pos([]) == {}
  {}

  lemma NeededOutside(s: Shape, known: set<nat>, proofs: set<nat>)
    requires s.rows <= MAX_ROWS && forall q :: q in proofs <==> Needed(s, known, q)
    ensures known !! proofs
  {}

  lemma HashCount(parentHash: Combine, f: Forest, positions: seq<nat>, hashes: seq<Hash>)
    requires RightHashes(parentHash, f, positions, hashes)
    ensures |positions| == |hashes|
  {}

  lemma LeavesPositive(f: Forest, p: nat)
    requires At(f, p).Some?
    ensures f.leaves > 0
  {
    hide RowOf, TreeRows, Low;
    ShrSmall(0, RowOf(Low(p, Rows(f) + 1), Rows(f)));
  }
}
