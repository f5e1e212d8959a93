/** Which hashes a batch proof needs (position::ProofPositions in src/position.cpp). */
module ProofPlan {
  import opened Bits
  import opened Position
  import opened Ordered

  /** The forest a plan is made for. */
  datatype Shape = Shape(leaves: nat, rows: nat)

  ghost predicate ValidShape(s: Shape) { s.rows == TreeRows(s.leaves) <= MAX_ROWS }

  predicate IsRoot(s: Shape, pos: nat)
    requires s.rows <= MAX_ROWS
  { IsRootPosition(pos, s.leaves, s.rows) }

  function Up1(s: Shape, pos: nat): nat
    requires s.rows <= MAX_ROWS
  { Parent(pos, s.rows) }

  ghost predicate Words(xs: seq<nat>) { forall i | 0 <= i < |xs| :: xs[i] < U64 }

  predicate IsWord(x: nat) { x < U64 }

  ghost function AllWords(): set<nat> { set x: nat | x < U64 && IsWord(x) }

  datatype Found = Found(known: set<nat>, proofs: set<nat>)

  /** One pass over the growing worklist. */
  function Explore(s: Shape, pending: seq<nat>, known: set<nat>, proofs: set<nat>): Found
    requires s.rows <= MAX_ROWS && Words(pending)
    decreases AllWords() - known, |pending|
  {
    if pending == [] then Found(known, proofs)
    else
      var pos, rest := pending[0], pending[1..];
      if IsRoot(s, pos) then Explore(s, rest, known, proofs)
      else
        var sibling := Sibling(pos);
        var proofs' := if sibling !in known then proofs + {sibling} else proofs - {pos};
        var parent := Up1(s, pos);
        ParentIs(pos, s.rows);
        if parent in known then Explore(s, rest, known, proofs')
        else
          assert parent in AllWords() - known;
          Explore(s, rest + [parent], known + {parent}, proofs')
  }

  function PlanOf(s: Shape, targets: seq<nat>): Found
    requires s.rows <= MAX_ROWS && Words(targets)
  { Explore(s, targets, Elements(targets), {}) }

  function ProofPositionsOf(s: Shape, targets: seq<nat>): seq<nat>
    requires s.rows <= MAX_ROWS && Words(targets)
  { Ascending(PlanOf(s, targets).proofs) }

  method ProofPositions(targets: seq<nat>, leaves: nat, forestRows: nat) returns (r: seq<nat>)
    requires forestRows <= MAX_ROWS && Words(targets)
    ensures r == ProofPositionsOf(Shape(leaves, forestRows), targets)
  {
    ghost var s := Shape(leaves, forestRows);
    var proofPositions: set<nat> := {};
    var known := Elements(targets);
    var computed := targets;
    var i := 0;
    while i < |computed|
      invariant 0 <= i <= |computed| && Words(computed)
      invariant Explore(s, computed[i..], known, proofPositions) == PlanOf(s, targets)
      decreases AllWords() - known, |computed| - i
    {
      var pos := computed[i];
      ghost var was := computed[i..];
      assert was[0] == pos && was[1..] == computed[i + 1..];
      i := i + 1;
      if IsRootPosition(pos, leaves, forestRows) { continue; }
      var sibling := Sibling(pos);
      if sibling !in known { proofPositions := proofPositions + {sibling}; }
      else { proofPositions := proofPositions - {pos}; }
      var parent := Parent(pos, forestRows);
      ParentIs(pos, forestRows);
      if parent !in known {
        assert parent in AllWords() - known;
        known := known + {parent};
        computed := computed + [parent];
        assert computed[i..] == was[1..] + [parent];
      }
    }
    assert computed[i..] == [];
    r := Ascending(proofPositions);
  }

  // ---- what the plan is -----------------------------------------------------------------

  /** Closed under taking the parent of every position that is not a root. */
  ghost predicate ClosedUp(s: Shape, c: set<nat>)
    requires s.rows <= MAX_ROWS
  { forall x | x in c && !IsRoot(s, x) :: Up1(s, x) in c }

  /** The siblings, outside the closure, of its positions that are not roots. */
  ghost predicate Needed(s: Shape, closure: set<nat>, q: nat)
    requires s.rows <= MAX_ROWS
  { q !in closure && Sibling(q) in closure && !IsRoot(s, Sibling(q)) }

  /** A root in the closure together with its sibling, which then lies under no root. */
  ghost predicate Stray(s: Shape, closure: set<nat>, q: nat)
    requires s.rows <= MAX_ROWS
  { q in closure && IsRoot(s, q) && Sibling(q) in closure && !IsRoot(s, Sibling(q)) }

  /** State of the loop: `done` has been processed. */
  ghost predicate Explored(s: Shape, pending: seq<nat>, known: set<nat>, proofs: set<nat>, done: set<nat>)
    requires s.rows <= MAX_ROWS
  {
    && known == done + Elements(pending)
    && (forall x | x in done && !IsRoot(s, x) :: Up1(s, x) in known)
    && (forall q | q in proofs :: Sibling(q) in done && !IsRoot(s, Sibling(q)) && (q in done ==> IsRoot(s, q)))
    && (forall x | x in done && !IsRoot(s, x) :: Sibling(x) in known || Sibling(x) in proofs)
  }

  lemma SiblingTwice(x: nat)
    ensures Sibling(Sibling(x)) == x && Sibling(x) != x
    ensures Sibling(x) / 2 == x / 2
  {
    XorOne(x);
    XorOne(Sibling(x));
  }

  lemma ExploreStep(s: Shape, pending: seq<nat>, known: set<nat>, proofs: set<nat>, done: set<nat>)
    requires s.rows <= MAX_ROWS && pending != [] && Explored(s, pending, known, proofs, done)
    requires !IsRoot(s, pending[0])
    ensures var pos, rest := pending[0], pending[1..];
            var proofs' := if Sibling(pos) !in known then proofs + {Sibling(pos)} else proofs - {pos};
            if Up1(s, pos) in known then Explored(s, rest, known, proofs', done + {pos})
            else Explored(s, rest + [Up1(s, pos)], known + {Up1(s, pos)}, proofs', done + {pos})
  {
    hide IsRoot, Up1, Sibling;
    var pos, rest := pending[0], pending[1..];
    SiblingTwice(pos);
    assert pending == [pos] + rest;
    assert Elements(pending) == {pos} + Elements(rest);
    assert Elements(rest + [Up1(s, pos)]) == Elements(rest) + {Up1(s, pos)};
    assert pos in proofs ==> Sibling(pos) in known;
  }

  lemma {:induction false} ExploreIs(s: Shape, pending: seq<nat>, known: set<nat>, proofs: set<nat>, done: set<nat>)
    requires s.rows <= MAX_ROWS && Words(pending) && Explored(s, pending, known, proofs, done)
    ensures var r := Explore(s, pending, known, proofs);
            known <= r.known && Explored(s, [], r.known, r.proofs, r.known)
    decreases AllWords() - known, |pending|
  {
    hide IsRoot, Up1, Sibling, Explored;
    if pending == [] {
      assert known == done by { DoneIsKnown(s, known, proofs, done); }
    } else {
      var pos, rest := pending[0], pending[1..];
      if IsRoot(s, pos) {
        RootStep(s, pending, known, proofs, done);
        ExploreIs(s, rest, known, proofs, done + {pos});
      } else {
        ExploreStep(s, pending, known, proofs, done);
        var sibling, parent := Sibling(pos), Up1(s, pos);
        var proofs' := if sibling !in known then proofs + {sibling} else proofs - {pos};
        UpWord(s, pos);
        if parent in known {
          ExploreIs(s, rest, known, proofs', done + {pos});
        } else {
          assert parent in AllWords() - known;
          ExploreIs(s, rest + [parent], known + {parent}, proofs', done + {pos});
        }
      }
    }
  }

  lemma UpWord(s: Shape, pos: nat)
    requires s.rows <= MAX_ROWS && pos < U64
    ensures Up1(s, pos) < U64
  {
    ParentIs(pos, s.rows);
  }

  lemma DoneIsKnown(s: Shape, known: set<nat>, proofs: set<nat>, done: set<nat>)
    requires s.rows <= MAX_ROWS && Explored(s, [], known, proofs, done)
    ensures known == done
  {}

  lemma RootStep(s: Shape, pending: seq<nat>, known: set<nat>, proofs: set<nat>, done: set<nat>)
    requires s.rows <= MAX_ROWS && pending != [] && Explored(s, pending, known, proofs, done)
    requires IsRoot(s, pending[0])
    ensures Explored(s, pending[1..], known, proofs, done + {pending[0]})
  {
    hide IsRoot, Up1, Sibling;
    assert pending == [pending[0]] + pending[1..];
    assert Elements(pending) == {pending[0]} + Elements(pending[1..]);
  }

  lemma {:induction false} ExploreLeast(s: Shape, pending: seq<nat>, known: set<nat>, proofs: set<nat>, c: set<nat>)
    requires s.rows <= MAX_ROWS && Words(pending)
    requires ClosedUp(s, c) && known <= c && Elements(pending) <= c
    ensures Explore(s, pending, known, proofs).known <= c
    decreases AllWords() - known, |pending|
  {
    hide IsRoot, Up1, Sibling;
    if pending != [] {
      var pos, rest := pending[0], pending[1..];
      assert pending == [pos] + rest;
      assert Elements(pending) == {pos} + Elements(rest);
      if IsRoot(s, pos) {
        ExploreLeast(s, rest, known, proofs, c);
      } else {
        var sibling, parent := Sibling(pos), Up1(s, pos);
        var proofs' := if sibling !in known then proofs + {sibling} else proofs - {pos};
        UpWord(s, pos);
        if parent in known {
          ExploreLeast(s, rest, known, proofs', c);
        } else {
          assert parent in AllWords() - known;
          assert Elements(rest + [parent]) == Elements(rest) + {parent};
          ExploreLeast(s, rest + [parent], known + {parent}, proofs', c);
        }
      }
    }
  }

  /** For any 64-bit targets in any order, repeated or not: the known positions are the least
      set closed under parents that holds the targets. */
  lemma KnownIsClosure(s: Shape, targets: seq<nat>, c: set<nat>)
    requires s.rows <= MAX_ROWS && Words(targets)
    ensures Elements(targets) <= PlanOf(s, targets).known
    ensures ClosedUp(s, PlanOf(s, targets).known)
    ensures Elements(targets) <= c && ClosedUp(s, c) ==> PlanOf(s, targets).known <= c
  {
    hide IsRoot, Up1, Sibling, Explore;
    ExploreIs(s, targets, Elements(targets), {}, {});
    if Elements(targets) <= c && ClosedUp(s, c) {
      ExploreLeast(s, targets, Elements(targets), {}, c);
    }
  }

  /** ... and the proof positions are the needed siblings, plus at most some strays. */
  lemma ProofsAreNeeded(s: Shape, targets: seq<nat>, q: nat)
    requires s.rows <= MAX_ROWS && Words(targets)
    ensures var plan := PlanOf(s, targets);
            && (Needed(s, plan.known, q) ==> q in plan.proofs)
            && (q in plan.proofs ==> Needed(s, plan.known, q) || Stray(s, plan.known, q))
  {
    hide IsRoot, Up1, Sibling, Explore;
    ExploreIs(s, targets, Elements(targets), {}, {});
    SiblingTwice(q);
  }

  ghost function PopulatedSet(leaves: nat): set<nat> {
    set p: nat | p < Pow2(TreeRows(leaves) + 1) && Populated(leaves, p)
  }

  lemma PopulatedClosed(s: Shape)
    requires ValidShape(s)
    ensures ClosedUp(s, PopulatedSet(s.leaves))
  {
    hide Populated, IsRootPosition, TreeRows, Parent, Sibling;
    forall x | x in PopulatedSet(s.leaves) && !IsRoot(s, x)
      ensures Up1(s, x) in PopulatedSet(s.leaves)
    {
      PopulatedUp(s.leaves, x);
    }
  }

  lemma PopulatedBound(s: Shape, targets: seq<nat>)
    requires ValidShape(s) && Words(targets) && Elements(targets) <= PopulatedSet(s.leaves)
    ensures PlanOf(s, targets).known <= PopulatedSet(s.leaves)
  {
    hide Populated, IsRoot, TreeRows, Up1, Sibling, PlanOf;
    PopulatedClosed(s);
    KnownIsClosure(s, targets, PopulatedSet(s.leaves));
  }

  /** For targets inside the forest there are no strays: whatever their order, and even when
      they repeat or sit on different rows, the answer is exactly the needed siblings. */
  lemma PopulatedPlan(s: Shape, targets: seq<nat>, q: nat)
    requires ValidShape(s) && Words(targets) && Elements(targets) <= PopulatedSet(s.leaves)
    ensures q in ProofPositionsOf(s, targets) <==> Needed(s, PlanOf(s, targets).known, q)
    ensures StrictlySorted(ProofPositionsOf(s, targets))
  {
    hide Populated, TreeRows, Up1, Sibling, PlanOf, IsRootPosition, Ascending;
    PopulatedBound(s, targets);
    ProofsAreNeeded(s, targets, q);
    var plan := PlanOf(s, targets);
    AscendingIs(plan.proofs);
    assert q in Ascending(plan.proofs) <==> q in Elements(Ascending(plan.proofs));
    if Stray(s, plan.known, q) { RootSibling(s.leaves, q); }
  }

  // ---- targets outside the forest -------------------------------------------------------

  lemma SmallPowers()
    ensures Pow2(0) == 1 && Pow2(1) == 2 && Pow2(2) == 4 && Pow2(3) == 8 && Pow2(4) == 16
  {}

  lemma SixBits()
    ensures !Bit(6, 0) && Bit(6, 1) && Bit(6, 2) && !Bit(6, 3) && RootOffset(6, 1) == 2 && RootOffset(6, 2) == 0
  {}

  /** Roots of a forest of six leaves: 12 (four leaves) and 10 (two). */
  lemma SixRoots()
    ensures !IsRoot(Shape(6, 3), 11) && !IsRoot(Shape(6, 3), 4) && IsRoot(Shape(6, 3), 10)
    ensures !IsRoot(Shape(6, 3), 13) && !IsRoot(Shape(6, 3), 14) && !IsRoot(Shape(6, 3), 15)
  {
    hide Pow2, Bit, RootOffset, IsRootPosition;
    SmallPowers();
    SixBits();
    RootPlace(6, 1, 3, 3);
    RootPlace(6, 0, 4, 3);
    RootPlace(6, 1, 2, 3);
    RootPlace(6, 2, 1, 3);
    RootPlace(6, 3, 0, 3);
    if IsRoot(Shape(6, 3), 15) { RootBelow(15, 6, 3); }
  }

  /** A root that entered the answer stays. */
  lemma {:induction false} RootStays(s: Shape, pending: seq<nat>, known: set<nat>, proofs: set<nat>, q: nat)
    requires s.rows <= MAX_ROWS && Words(pending) && IsRoot(s, q) && q in proofs
    ensures q in Explore(s, pending, known, proofs).proofs
    decreases AllWords() - known, |pending|
  {
    hide IsRoot, Up1, Sibling;
    if pending != [] {
      var pos, rest := pending[0], pending[1..];
      if IsRoot(s, pos) {
        RootStays(s, rest, known, proofs, q);
      } else {
        var proofs' := if Sibling(pos) !in known then proofs + {Sibling(pos)} else proofs - {pos};
        var parent := Up1(s, pos);
        UpWord(s, pos);
        if parent in known { RootStays(s, rest, known, proofs', q); }
        else {
          assert parent in AllWords() - known;
          RootStays(s, rest + [parent], known + {parent}, proofs', q);
        }
      }
    }
  }

  /** A position that is known, and not in the answer yet, never enters it. */
  lemma {:induction false} KnownStaysOut(s: Shape, pending: seq<nat>, known: set<nat>, proofs: set<nat>, q: nat)
    requires s.rows <= MAX_ROWS && Words(pending) && q in known && q !in proofs
    ensures q !in Explore(s, pending, known, proofs).proofs
    decreases AllWords() - known, |pending|
  {
    hide IsRoot, Up1, Sibling;
    if pending != [] {
      var pos, rest := pending[0], pending[1..];
      if IsRoot(s, pos) {
        KnownStaysOut(s, rest, known, proofs, q);
      } else {
        var proofs' := if Sibling(pos) !in known then proofs + {Sibling(pos)} else proofs - {pos};
        var parent := Up1(s, pos);
        UpWord(s, pos);
        if parent in known { KnownStaysOut(s, rest, known, proofs', q); }
        else {
          assert parent in AllWords() - known;
          KnownStaysOut(s, rest + [parent], known + {parent}, proofs', q);
        }
      }
    }
  }

  /** Targets are never asked for. */
  lemma TargetsStayOut(s: Shape, targets: seq<nat>, q: nat)
    requires s.rows <= MAX_ROWS && Words(targets) && q in targets
    ensures q !in PlanOf(s, targets).proofs
  {
    KnownStaysOut(s, targets, Elements(targets), {}, q);
  }

  /** With a target outside the forest the order counts: a root is asked for although it can be
      computed when its sibling comes first, and is not when the root's own leaf comes first. */
  lemma OrderMatters()
    ensures 10 in PlanOf(Shape(6, 3), [11, 4]).proofs && 10 !in PlanOf(Shape(6, 3), [4, 11]).proofs
  {
    hide IsRoot, Explore, Pow2, Xor, Parent;
    var s := Shape(6, 3);
    SixRoots();
    SmallPowers();
    XorOne(11);
    XorOne(4);
    ParentIs(11, 3);
    ParentIs(4, 3);
    FirstStep(s, 11, [4], {11, 4});
    assert [11] + [4] == [11, 4] && Elements([11, 4]) == {11, 4};
    RootStays(s, [4] + [13], {11, 4} + {13}, {} + {10}, 10);
    FirstStep(s, 4, [11], {4, 11});
    assert [4] + [11] == [4, 11] && Elements([4, 11]) == {4, 11};
    KnownStaysOut(s, [11] + [10], {4, 11} + {10}, {} + {5}, 10);
  }

  lemma FirstStep(s: Shape, pos: nat, rest: seq<nat>, known: set<nat>)
    requires s.rows <= MAX_ROWS && Words([pos] + rest) && Words(rest) && !IsRoot(s, pos) && Sibling(pos) !in known && Up1(s, pos) !in known
    ensures Words(rest + [Up1(s, pos)])
    ensures Explore(s, [pos] + rest, known, {}) == Explore(s, rest + [Up1(s, pos)], known + {Up1(s, pos)}, {} + {Sibling(pos)})
  {
    hide IsRoot, Up1, Sibling;
    assert ([pos] + rest)[0] == pos && ([pos] + rest)[1..] == rest;
    UpWord(s, pos);
  }
}
