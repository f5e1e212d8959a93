/** In which order the proof search visits positions, and when that order shows in its answer
    (position::ProofPositions in src/position.cpp). */
module ProofOrder {
  import opened Bits
  import opened Position
  import opened Ordered
  import opened ProofPlan

  /** The positions in the order the worklist yields them. */
  function Visits(s: Shape, pending: seq<nat>, known: set<nat>): seq<nat>
    requires s.rows <= MAX_ROWS && Words(pending)
    decreases AllWords() - known, |pending|
  {
    if pending == [] then []
    else
      var pos, rest := pending[0], pending[1..];
      if IsRoot(s, pos) then [pos] + Visits(s, rest, known)
      else
        var parent := Up1(s, pos);
        ParentIs(pos, s.rows);
        if parent in known then [pos] + Visits(s, rest, known)
        else
          assert parent in AllWords() - known;
          [pos] + Visits(s, rest + [parent], known + {parent})
  }

  predicate IsChild(s: Shape, c: nat, q: nat)
    requires s.rows <= MAX_ROWS
  { !IsRoot(s, c) && Up1(s, c) == q }

  predicate IsSibling(s: Shape, p: nat, q: nat)
    requires s.rows <= MAX_ROWS
  { p == Sibling(q) && !IsRoot(s, p) }

  /** The sibling of q is visited, and before every child of q. */
  predicate SiblingFirst(s: Shape, visits: seq<nat>, q: nat)
    requires s.rows <= MAX_ROWS
  {
    visits != [] && (IsSibling(s, visits[0], q) || (!IsChild(s, visits[0], q) && SiblingFirst(s, visits[1..], q)))
  }

  lemma {:induction false} SiblingFirstIs(s: Shape, visits: seq<nat>, q: nat)
    requires s.rows <= MAX_ROWS
    ensures SiblingFirst(s, visits, q)
       <==> exists i :: 0 <= i < |visits| && IsSibling(s, visits[i], q) && forall j | 0 <= j < i :: !IsChild(s, visits[j], q)
    decreases |visits|
  {
    hide IsSibling, IsChild;
    if visits != [] {
      var rest := visits[1..];
      SiblingFirstIs(s, rest, q);
      if i :| 0 <= i < |rest| && IsSibling(s, rest[i], q) && forall j | 0 <= j < i :: !IsChild(s, rest[j], q) {
        if !IsChild(s, visits[0], q) {
          forall j | 0 <= j < i + 1 ensures !IsChild(s, visits[j], q) { if j > 0 { assert rest[j - 1] == visits[j]; } }
          assert visits[i + 1] == rest[i];
        }
      }
      if i :| 0 <= i < |visits| && IsSibling(s, visits[i], q) && forall j | 0 <= j < i :: !IsChild(s, visits[j], q) {
        if i > 0 {
          assert !IsChild(s, visits[0], q);
          forall j | 0 <= j < i - 1 ensures !IsChild(s, rest[j], q) { assert rest[j] == visits[j + 1]; }
          assert rest[i - 1] == visits[i];
        }
      }
    }
  }

  /** A root enters the answer exactly when its sibling is visited before it becomes known. */
  lemma {:induction false} RootIff(s: Shape, pending: seq<nat>, known: set<nat>, proofs: set<nat>, q: nat)
    requires s.rows <= MAX_ROWS && Words(pending) && IsRoot(s, q) && q !in proofs
    ensures q in Explore(s, pending, known, proofs).proofs <==> q !in known && SiblingFirst(s, Visits(s, pending, known), q)
    decreases AllWords() - known, |pending|
  {
    hide IsRoot, Up1, Sibling;
    if q in known {
      KnownStaysOut(s, pending, known, proofs, q);
    } else if pending != [] {
      var pos, rest := pending[0], pending[1..];
      UpWord(s, pos);
      var v := Visits(s, pending, known);
      if IsRoot(s, pos) {
        RootIff(s, rest, known, proofs, q);
        assert v[1..] == Visits(s, rest, known);
      } else {
        var proofs' := if Sibling(pos) !in known then proofs + {Sibling(pos)} else proofs - {pos};
        var parent := Up1(s, pos);
        SiblingTwice(pos);
        SiblingTwice(q);
        var rest', known' := if parent in known then rest else rest + [parent], if parent in known then known else known + {parent};
        assert parent !in known ==> parent in AllWords() - known;
        assert v == [pos] + Visits(s, rest', known') && v[1..] == Visits(s, rest', known');
        if Sibling(pos) == q {
          RootStays(s, rest', known', proofs', q);
        } else {
          RootIff(s, rest', known', proofs', q);
        }
      }
    }
  }

  /** Exactly what is returned, for any 64-bit targets in any order. */
  lemma ProofsExactly(s: Shape, targets: seq<nat>, q: nat)
    requires s.rows <= MAX_ROWS && Words(targets)
    ensures var plan := PlanOf(s, targets);
            q in plan.proofs <==>
              (Needed(s, plan.known, q)
               || (Stray(s, plan.known, q) && q !in targets && SiblingFirst(s, Visits(s, targets, Elements(targets)), q)))
  {
    hide IsRoot, Up1, Sibling, Explore, Visits, SiblingFirst;
    ProofsAreNeeded(s, targets, q);
    if IsRoot(s, q) { RootIff(s, targets, Elements(targets), {}, q); }
  }

  // ---- steps from the targets -----------------------------------------------------------

  ghost function Ups(s: Shape, w: set<nat>): set<nat>
    requires s.rows <= MAX_ROWS
  { set x | x in w && !IsRoot(s, x) :: Up1(s, x) }

  /** The positions within k steps up from the targets. */
  ghost function Within(s: Shape, t: set<nat>, k: nat): set<nat>
    requires s.rows <= MAX_ROWS
  { if k == 0 then t else Within(s, t, k - 1) + Ups(s, Within(s, t, k - 1)) }

  ghost predicate Reached(s: Shape, t: set<nat>, x: nat)
    requires s.rows <= MAX_ROWS
  { exists k: nat :: x in Within(s, t, k) }

  /** A root that is reached at all is reached in no more steps than its sibling. */
  ghost predicate RootsFirst(s: Shape, t: set<nat>)
    requires s.rows <= MAX_ROWS
  {
    forall q, k: nat | IsRoot(s, q) && Reached(s, t, q) && !IsRoot(s, Sibling(q)) && Sibling(q) in Within(s, t, k) :: q in Within(s, t, k)
  }

  /** The answer is exactly the needed siblings. */
  ghost predicate Exact(s: Shape, targets: seq<nat>)
    requires s.rows <= MAX_ROWS && Words(targets)
  { forall q :: q in PlanOf(s, targets).proofs <==> Needed(s, PlanOf(s, targets).known, q) }

  lemma {:induction false} WithinMono(s: Shape, t: set<nat>, j: nat, k: nat)
    requires s.rows <= MAX_ROWS && j <= k
    ensures Within(s, t, j) <= Within(s, t, k)
    decreases k
  {
    hide IsRoot, Up1;
    if j < k { WithinMono(s, t, j, k - 1); }
  }

  /** Reached positions are the known ones. */
  lemma ReachedIsKnown(s: Shape, targets: seq<nat>, x: nat)
    requires s.rows <= MAX_ROWS && Words(targets)
    ensures Reached(s, Elements(targets), x) <==> x in PlanOf(s, targets).known
  {
    hide IsRoot, Up1, PlanOf, Within;
    var t, known := Elements(targets), PlanOf(s, targets).known;
    var c := set y | y in known && Reached(s, t, y);
    KnownIsClosure(s, targets, c);
    forall y | y in t ensures y in c { assert y in Within(s, t, 0) by { WithinZero(s, t); } }
    forall y | y in c && !IsRoot(s, y) ensures Up1(s, y) in c {
      var k: nat :| y in Within(s, t, k);
      WithinNext(s, t, k, y);
    }
    if k: nat :| x in Within(s, t, k) { WithinKnown(s, targets, k); }
  }

  lemma WithinZero(s: Shape, t: set<nat>)
    requires s.rows <= MAX_ROWS
    ensures Within(s, t, 0) == t
  {}

  lemma WithinNext(s: Shape, t: set<nat>, k: nat, y: nat)
    requires s.rows <= MAX_ROWS && y in Within(s, t, k) && !IsRoot(s, y)
    ensures Up1(s, y) in Within(s, t, k + 1)
  {
    hide IsRoot, Up1;
  }

  lemma {:induction false} WithinKnown(s: Shape, targets: seq<nat>, k: nat)
    requires s.rows <= MAX_ROWS && Words(targets)
    ensures Within(s, Elements(targets), k) <= PlanOf(s, targets).known
    decreases k
  {
    hide IsRoot, Up1, PlanOf;
    KnownIsClosure(s, targets, {});
    if k > 0 { WithinKnown(s, targets, k - 1); }
  }

  // ---- the search goes step by step -----------------------------------------------------

  /** The first m pending positions finish what is within g steps; the others are one step on. */
  ghost predicate Phase(s: Shape, t: set<nat>, pending: seq<nat>, known: set<nat>, done: set<nat>, g: nat, m: nat)
    requires s.rows <= MAX_ROWS
  {
    && m <= |pending| && known == done + Elements(pending)
    && done + Elements(pending[..m]) == Within(s, t, g)
    && Elements(pending[m..]) <= Within(s, t, g + 1)
    && (forall x | x in done && !IsRoot(s, x) :: Up1(s, x) in known)
    && (g > 0 ==> Within(s, t, g - 1) <= done)
  }

  lemma PhaseStep(s: Shape, t: set<nat>, pending: seq<nat>, known: set<nat>, done: set<nat>, g: nat, m: nat)
    requires s.rows <= MAX_ROWS && Phase(s, t, pending, known, done, g, m) && m > 0
    ensures pending[0] in Within(s, t, g)
    ensures var pos, rest := pending[0], pending[1..];
            if IsRoot(s, pos) || Up1(s, pos) in known then Phase(s, t, rest, known, done + {pos}, g, m - 1)
            else Phase(s, t, rest + [Up1(s, pos)], known + {Up1(s, pos)}, done + {pos}, g, m - 1)
  {
    hide IsRoot, Up1, Within, Elements;
    var pos, rest := pending[0], pending[1..];
    PhaseSplit(pending, m);
    if !IsRoot(s, pos) {
      WithinNext(s, t, g, pos);
      PhaseAppend(rest, m - 1, Up1(s, pos));
    }
  }

  lemma PhaseSplit(pending: seq<nat>, m: nat)
    requires 0 < m <= |pending|
    ensures var pos, rest := pending[0], pending[1..];
            && Elements(pending) == {pos} + Elements(rest) && Elements(pending[..m]) == {pos} + Elements(rest[..m - 1])
            && pending[m..] == rest[m - 1..]
  {
    var pos, rest := pending[0], pending[1..];
    assert pending == [pos] + rest && pending[..m] == [pos] + rest[..m - 1];
    AppendedElements([pos], rest);
    AppendedElements([pos], rest[..m - 1]);
    assert Elements([pos]) == {pos};
  }

  lemma PhaseAppend(rest: seq<nat>, m: nat, up: nat)
    requires m <= |rest|
    ensures Elements(rest + [up]) == Elements(rest) + {up} && (rest + [up])[..m] == rest[..m]
    ensures Elements((rest + [up])[m..]) == Elements(rest[m..]) + {up}
  {
    assert (rest + [up])[m..] == rest[m..] + [up];
    AppendedElements(rest, [up]);
    AppendedElements(rest[m..], [up]);
    assert Elements([up]) == {up};
  }

  lemma PhaseTurn(s: Shape, t: set<nat>, pending: seq<nat>, known: set<nat>, done: set<nat>, g: nat)
    requires s.rows <= MAX_ROWS && Phase(s, t, pending, known, done, g, 0)
    ensures Phase(s, t, pending, known, done, g + 1, |pending|)
  {
    hide IsRoot, Up1;
    assert pending[..0] == [] && pending[0..] == pending && pending[..|pending|] == pending && pending[|pending|..] == [];
    assert Elements([]) == {};
    assert Within(s, t, g + 1) == done + Ups(s, done);
    WithinMono(s, t, g + 1, g + 2);
  }

  /** A child that is fewer steps away than the sibling is visited before it. */
  lemma {:induction false} ChildComesFirst(s: Shape, t: set<nat>, pending: seq<nat>, known: set<nat>, done: set<nat>, g: nat, m: nat, q: nat, c: nat, k: nat)
    requires s.rows <= MAX_ROWS && Words(pending) && Phase(s, t, pending, known, done, g, m)
    requires IsChild(s, c, q) && c in Within(s, t, k) && Sibling(q) !in Within(s, t, k) && c !in done
    ensures !SiblingFirst(s, Visits(s, pending, known), q)
    decreases AllWords() - known, |pending|
  {
    hide IsRoot, Up1, Sibling, Within, Phase;
    if pending != [] {
      var g', m' := g, m;
      if m == 0 {
        PhaseTurn(s, t, pending, known, done, g);
        g', m' := g + 1, |pending|;
      }
      PhaseStep(s, t, pending, known, done, g', m');
      var pos, rest := pending[0], pending[1..];
      UpWord(s, pos);
      if pos == Sibling(q) { VisitedLate(s, t, pending, known, done, g', m', c, k); }
      var v := Visits(s, pending, known);
      if !IsChild(s, pos, q) {
        if IsRoot(s, pos) || Up1(s, pos) in known {
          ChildComesFirst(s, t, rest, known, done + {pos}, g', m' - 1, q, c, k);
          assert v[1..] == Visits(s, rest, known);
        } else {
          var up := Up1(s, pos);
          assert up in AllWords() - known;
          ChildComesFirst(s, t, rest + [up], known + {up}, done + {pos}, g', m' - 1, q, c, k);
          assert v[1..] == Visits(s, rest + [up], known + {up});
        }
      }
    }
  }

  /** What is visited now was not within k steps, so everything within k steps is done. */
  lemma VisitedLate(s: Shape, t: set<nat>, pending: seq<nat>, known: set<nat>, done: set<nat>, g: nat, m: nat, c: nat, k: nat)
    requires s.rows <= MAX_ROWS && Phase(s, t, pending, known, done, g, m) && m > 0 && c in Within(s, t, k) && pending[0] !in Within(s, t, k)
    ensures c in done
  {
    hide IsRoot, Up1, Within;
    assert pending[..m][0] == pending[0];
    assert pending[0] in Elements(pending[..m]);
    if g <= k { WithinMono(s, t, g, k); }
    WithinMono(s, t, k, if g <= k then k else g - 1);
  }

  // ---- a chain of first visits ----------------------------------------------------------

  /** Each element is one step above the one before it, and no fewer steps from the targets. */
  ghost predicate Chain(s: Shape, t: set<nat>, chain: seq<nat>)
    requires s.rows <= MAX_ROWS
  {
    && chain != [] && chain[0] in t
    && (forall i | 0 <= i < |chain| - 1 :: IsChild(s, chain[i], chain[i + 1]))
    && (forall i: nat | i < |chain| :: chain[i] in Within(s, t, i))
    && (forall i: nat | 0 < i < |chain| :: chain[i] !in Within(s, t, i - 1))
  }

  lemma {:induction false} ChainTo(s: Shape, t: set<nat>, k: nat, p: nat) returns (chain: seq<nat>)
    requires s.rows <= MAX_ROWS && p in Within(s, t, k) && (k > 0 ==> p !in Within(s, t, k - 1))
    ensures Chain(s, t, chain) && |chain| == k + 1 && chain[k] == p
    decreases k
  {
    hide IsRoot, Up1, Chain, Within;
    WithinZero(s, t);
    if k == 0 {
      ChainOne(s, t, p);
      chain := [p];
    } else {
      var x := ChildBefore(s, t, p, k);
      if k > 1 { NotSooner(s, t, k - 2, x, p); }
      var below := ChainTo(s, t, k - 1, x);
      ChainSnoc(s, t, below, p);
      chain := below + [p];
    }
  }

  lemma NotSooner(s: Shape, t: set<nat>, j: nat, x: nat, p: nat)
    requires s.rows <= MAX_ROWS && IsChild(s, x, p) && p !in Within(s, t, j + 1)
    ensures x !in Within(s, t, j)
  {
    hide IsRoot, Up1, Within;
    if x in Within(s, t, j) { WithinNext(s, t, j, x); }
  }

  lemma ChainOne(s: Shape, t: set<nat>, p: nat)
    requires s.rows <= MAX_ROWS && p in t
    ensures Chain(s, t, [p])
  {}

  lemma ChainSnoc(s: Shape, t: set<nat>, chain: seq<nat>, p: nat)
    requires s.rows <= MAX_ROWS && Chain(s, t, chain) && IsChild(s, chain[|chain| - 1], p)
    requires p in Within(s, t, |chain|) && p !in Within(s, t, |chain| - 1)
    ensures Chain(s, t, chain + [p])
  {
    hide IsRoot, Up1, Within, IsChild;
    var longer := chain + [p];
    forall i | 0 <= i < |longer| - 1 ensures IsChild(s, longer[i], longer[i + 1]) {
      if i < |chain| - 1 { assert longer[i] == chain[i] && longer[i + 1] == chain[i + 1]; }
    }
  }

  /** The chain leads each phase: it stands at the front of this one, or of the next. */
  ghost predicate Leads(chain: seq<nat>, pending: seq<nat>, g: nat, m: nat, front: bool) {
    if front then m == |pending| > 0 && g < |chain| && pending[0] == chain[g]
    else m < |pending| && g + 1 < |chain| && pending[m] == chain[g + 1]
  }

  /** A chain that leads reaches its end, the sibling of q, before any child of q is visited. */
  lemma {:induction false} ChainComesFirst(s: Shape, t: set<nat>, pending: seq<nat>, known: set<nat>, done: set<nat>, g: nat, m: nat, front: bool, chain: seq<nat>, q: nat)
    requires s.rows <= MAX_ROWS && Words(pending) && Phase(s, t, pending, known, done, g, m) && Chain(s, t, chain) && Leads(chain, pending, g, m, front)
    requires var k := |chain| - 1; IsSibling(s, chain[k], q) && q !in Within(s, t, k)
    ensures SiblingFirst(s, Visits(s, pending, known), q)
    decreases AllWords() - known, |pending|, if front || m > 0 then 0 else 1
  {
    hide IsRoot, Up1, Sibling, Within, Phase, Chain;
    var k := |chain| - 1;
    if !front && m == 0 {
      PhaseTurn(s, t, pending, known, done, g);
      ChainComesFirst(s, t, pending, known, done, g + 1, |pending|, true, chain, q);
    } else {
      PhaseStep(s, t, pending, known, done, g, m);
      var pos, rest := pending[0], pending[1..];
      UpWord(s, pos);
      var v := Visits(s, pending, known);
      if !IsSibling(s, pos, q) {
        NoChildYet(s, t, pending, known, done, g, m, front, chain, q);
        if IsRoot(s, pos) || Up1(s, pos) in known {
          ChainComesFirst(s, t, rest, known, done + {pos}, g, m - 1, false, chain, q);
          assert v[1..] == Visits(s, rest, known);
        } else {
          var up := Up1(s, pos);
          assert up in AllWords() - known;
          ChainComesFirst(s, t, rest + [up], known + {up}, done + {pos}, g, m - 1, false, chain, q);
          assert v[1..] == Visits(s, rest + [up], known + {up});
        }
      }
    }
  }

  /** Before the end of the chain no child of q can be visited, and the chain keeps its lead. */
  lemma NoChildYet(s: Shape, t: set<nat>, pending: seq<nat>, known: set<nat>, done: set<nat>, g: nat, m: nat, front: bool, chain: seq<nat>, q: nat)
    requires s.rows <= MAX_ROWS && Phase(s, t, pending, known, done, g, m) && m > 0 && Chain(s, t, chain) && Leads(chain, pending, g, m, front)
    requires var k := |chain| - 1; IsSibling(s, chain[k], q) && q !in Within(s, t, k)
    requires !IsSibling(s, pending[0], q)
    ensures !IsChild(s, pending[0], q)
    ensures var pos, rest := pending[0], pending[1..];
            if IsRoot(s, pos) || Up1(s, pos) in known then Leads(chain, rest, g, m - 1, false)
            else Leads(chain, rest + [Up1(s, pos)], g, m - 1, false)
  {
    hide IsRoot, Up1, Sibling, Within;
    var k := |chain| - 1;
    var pos, rest := pending[0], pending[1..];
    assert pending[..m][0] == pos;
    assert pos in Elements(pending[..m]);
    assert g < k;
    WithinMono(s, t, g + 1, k);
    if !IsRoot(s, pos) { WithinNext(s, t, g, pos); }
    if front {
      assert IsChild(s, chain[g], chain[g + 1]);
      assert pending[m..] == [] && Elements([]) == {};
      assert known == Within(s, t, g) by { assert pending[..m] == pending; }
    }
  }

  // ---- when the order cannot show -------------------------------------------------------

  lemma PhaseStart(s: Shape, targets: seq<nat>)
    requires s.rows <= MAX_ROWS
    ensures Phase(s, Elements(targets), targets, Elements(targets), {}, 0, |targets|)
  {
    hide IsRoot, Up1;
    assert targets[..|targets|] == targets && targets[|targets|..] == [];
  }

  lemma {:induction false} FirstStepTo(s: Shape, t: set<nat>, x: nat, k: nat) returns (j: nat)
    requires s.rows <= MAX_ROWS && x in Within(s, t, k)
    ensures j <= k && x in Within(s, t, j) && (j > 0 ==> x !in Within(s, t, j - 1))
    decreases k
  {
    hide IsRoot, Up1;
    j := k;
    if k > 0 && x in Within(s, t, k - 1) { j := FirstStepTo(s, t, x, k - 1); }
  }

  lemma RootsFirstSuffices(s: Shape, targets: seq<nat>, q: nat)
    requires s.rows <= MAX_ROWS && Words(targets) && RootsFirst(s, Elements(targets))
    ensures q in PlanOf(s, targets).proofs <==> Needed(s, PlanOf(s, targets).known, q)
  {
    hide IsRoot, Up1, Sibling, Explore, Visits, SiblingFirst, PlanOf, Within;
    var t := Elements(targets);
    ProofsExactly(s, targets, q);
    if Stray(s, PlanOf(s, targets).known, q) && q !in targets {
      var p := Sibling(q);
      ReachedIsKnown(s, targets, q);
      ReachedIsKnown(s, targets, p);
      var k: nat :| p in Within(s, t, k);
      var j := FirstStepTo(s, t, p, k);
      var i := FirstStepTo(s, t, q, j);
      WithinZero(s, t);
      var c := ChildBefore(s, t, q, i);
      WithinMono(s, t, i - 1, j - 1);
      PhaseStart(s, targets);
      ChildComesFirst(s, t, targets, t, {}, 0, |targets|, q, c, j - 1);
    }
  }

  lemma ChildBefore(s: Shape, t: set<nat>, q: nat, i: nat) returns (c: nat)
    requires s.rows <= MAX_ROWS && i > 0 && q in Within(s, t, i) && q !in Within(s, t, i - 1)
    ensures IsChild(s, c, q) && c in Within(s, t, i - 1)
  {
    hide IsRoot, Up1;
    assert q in Ups(s, Within(s, t, i - 1));
    c :| c in Within(s, t, i - 1) && !IsRoot(s, c) && Up1(s, c) == q;
  }

  /** If some root is reached later than its sibling, putting the chain to the sibling first makes
      the search return that root although it can be computed. */
  lemma LateRootShows(s: Shape, t: set<nat>, q: nat, k: nat) returns (targets: seq<nat>)
    requires s.rows <= MAX_ROWS && (forall x | x in t :: x < U64)
    requires IsRoot(s, q) && Reached(s, t, q) && !IsRoot(s, Sibling(q)) && Sibling(q) in Within(s, t, k) && q !in Within(s, t, k)
    ensures Words(targets) && Elements(targets) == t && !Exact(s, targets)
  {
    hide IsRoot, Up1, Sibling, Explore, Visits, SiblingFirst, PlanOf, Within, Chain, Phase, Words;
    var j := FirstStepTo(s, t, Sibling(q), k);
    WithinMono(s, t, j, k);
    var chain := ChainTo(s, t, j, Sibling(q));
    assert chain[0] in t by { ChainStarts(s, t, chain); }
    targets := StartingWith(t, chain[0]);
    PhaseStart(s, targets);
    ChainComesFirst(s, t, targets, t, {}, 0, |targets|, true, chain, q);
    WithinZero(s, t);
    WithinMono(s, t, 0, k);
    ReachedIsKnown(s, targets, q);
    ReachedIsKnown(s, targets, Sibling(q));
    ProofsExactly(s, targets, q);
    assert q in PlanOf(s, targets).proofs && !Needed(s, PlanOf(s, targets).known, q);
  }

  lemma StartingWith(t: set<nat>, a: nat) returns (targets: seq<nat>)
    requires a in t && forall x | x in t :: x < U64
    ensures Words(targets) && Elements(targets) == t && targets != [] && targets[0] == a
  {
    hide Ascending;
    AscendingIs(t);
    targets := [a] + Ascending(t);
    AppendedElements([a], Ascending(t));
    assert Elements([a]) == {a};
    forall i | 0 <= i < |targets| ensures targets[i] < U64 { assert targets[i] in Elements(targets); }
  }

  lemma ChainStarts(s: Shape, t: set<nat>, chain: seq<nat>)
    requires s.rows <= MAX_ROWS && Chain(s, t, chain)
    ensures chain[0] in t
  {}

  /** The answer is exactly the needed siblings in every order of the targets if and only if every
      root that is reached is reached in no more steps than its sibling. */
  lemma ExactInEveryOrder(s: Shape, t: set<nat>)
    requires s.rows <= MAX_ROWS && (forall x | x in t :: x < U64)
    ensures (forall targets | Words(targets) && Elements(targets) == t :: Exact(s, targets)) <==> RootsFirst(s, t)
  {
    hide IsRoot, Up1, Sibling, PlanOf, Within;
    if RootsFirst(s, t) {
      forall targets | Words(targets) && Elements(targets) == t ensures Exact(s, targets) {
        forall q ensures q in PlanOf(s, targets).proofs <==> Needed(s, PlanOf(s, targets).known, q) { RootsFirstSuffices(s, targets, q); }
      }
    } else {
      var q, k: nat :| IsRoot(s, q) && Reached(s, t, q) && !IsRoot(s, Sibling(q)) && Sibling(q) in Within(s, t, k) && q !in Within(s, t, k);
      var targets := LateRootShows(s, t, q, k);
    }
  }

  /** Targets inside the forest meet the condition: no sibling of a root is ever reached. */
  lemma PopulatedRootsFirst(s: Shape, t: set<nat>)
    requires ValidShape(s) && t <= PopulatedSet(s.leaves)
    ensures RootsFirst(s, t)
  {
    hide IsRoot, Up1, Sibling, Within, TreeRows, Populated;
    forall q, k: nat | IsRoot(s, q) ensures Sibling(q) !in Within(s, t, k) {
      WithinPopulated(s, t, k);
      SiblingOutside(s, q);
    }
  }

  lemma SiblingOutside(s: Shape, q: nat)
    requires ValidShape(s) && IsRoot(s, q)
    ensures Sibling(q) !in PopulatedSet(s.leaves)
  {
    RootSibling(s.leaves, q);
  }

  lemma {:induction false} WithinPopulated(s: Shape, t: set<nat>, k: nat)
    requires ValidShape(s) && t <= PopulatedSet(s.leaves)
    ensures Within(s, t, k) <= PopulatedSet(s.leaves)
    decreases k
  {
    hide IsRoot, Up1, PopulatedSet, TreeRows;
    PopulatedClosed(s);
    if k > 0 { WithinPopulated(s, t, k - 1); }
  }
}
