/** Published delta runs and their recovery (WriteDeltaRun, SealDelta, CompactDeltas and
    RecoverDeltas in src/forest.cpp). */
module DeltaStore {
  import opened Common
  import opened Records
  import opened Ordered
  import opened DeltaRuns
  import opened Layering
  import opened Transactions
  import opened Arena

  /** What ties a run to the mapped base it was written over. */
  datatype Anchor = Anchor(generation: nat, lsn: nat, fingerprint: Hash, chainCount: nat)

  datatype Base = Base(generation: nat, lsn: nat, fingerprint: Hash, point: Point, chain: seq<Hash>, leaves: nat,
                       roots: seq<NodeId>, records: seq<NodeRecord>, blank: NodeRecord)

  function AnchorOf(base: Base): Anchor { Anchor(base.generation, base.lsn, base.fingerprint, |base.chain|) }

  datatype File = File(snapshot: bool, generation: nat, previousGeneration: nat, anchor: Anchor, previousLsn: nat, endLsn: nat,
                       point: Point, leaves: nat, next: nat, chainCount: nat, roots: seq<NodeId>, suffix: seq<Hash>, run: Run)

  /** The state the base alone describes. */
  function Start(base: Base): Memory {
    Memory(Layers(map[], [], base.records, base.blank), |base.records|, base.roots, base.leaves, base.point, base.chain,
           base.lsn, base.lsn, 0)
  }

  // ---- records fit to be published ------------------------------------------------------

  predicate LinkOk(link: NodeId, next: nat) { link == NO_NODE || link < next }

  predicate LinksOk(r: NodeRecord, next: nat) { LinkOk(r.parent, next) && LinkOk(r.left, next) && LinkOk(r.right, next) }

  predicate RootsOk(roots: seq<NodeId>, next: nat) { forall i | 0 <= i < |roots| :: LinkOk(roots[i], next) }

  predicate RunOk(run: Run, next: nat) {
    && (forall i | 0 <= i < |run| :: run[i].id < next && LinksOk(run[i].record, next))
    && (forall i | 0 < i < |run| :: run[i - 1].id < run[i].id)
  }

  /** What opening a run checks before using it. */
  predicate FileOk(f: File) {
    && f.generation != 0 && f.previousGeneration < f.generation && f.previousLsn <= f.endLsn
    && f.next < NO_NODE && f.anchor.chainCount != 0
    && f.chainCount == f.anchor.chainCount + |f.suffix| && f.chainCount == f.point.height + 1
    && RunOk(f.run, f.next) && RootsOk(f.roots, f.next)
    && (f.suffix != [] ==> f.suffix[|f.suffix| - 1] == f.point.hash)
  }

  // ---- recovery -------------------------------------------------------------------------

  predicate Anchored(base: Base, f: File) { f.anchor == AnchorOf(base) && f.endLsn >= base.lsn }

  predicate ExtendsBase(base: Base, f: File) {
    var chain := base.chain + f.suffix;
    && chain != [] && chain[|chain| - 1] == f.point.hash
    && (f.suffix == [] ==> f.point == base.point)
  }

  /** A snapshot stands alone, and only at the start; any other run continues its predecessor. */
  predicate Continues(m: Memory, f: File, first: bool) {
    if first && f.snapshot then true
    else !f.snapshot && f.previousGeneration == m.generation && f.generation == m.generation + 1 && f.previousLsn == m.durableLsn
  }

  function Load(base: Base, m: Memory, f: File): Memory {
    Memory(m.layers.(runs := m.layers.runs + [f.run]), f.next, f.roots, f.leaves, f.point, base.chain + f.suffix,
           f.endLsn, f.endLsn, f.generation)
  }

  function LoadStep(base: Base, m: Memory, f: File, first: bool): Result<Memory> {
    if !Anchored(base, f) then Err("forest delta is anchored to a different mmap base")
    else if !Continues(m, f, first) then Err("forest delta generations or LSNs are not contiguous")
    else if !ExtendsBase(base, f) then Err("forest delta chain does not extend its mmap base")
    else Ok(Load(base, m, f))
  }

  function LoadAll(base: Base, files: seq<File>): Result<Memory> {
    if files == [] then Ok(Start(base))
    else
      var n := |files| - 1;
      var before := LoadAll(base, files[..n]);
      if before.Err? then before else LoadStep(base, before.value, files[n], n == 0)
  }

  /** The last snapshot, or the first run when there is none. */
  function LatestSnapshot(files: seq<File>): (r: nat)
    ensures r < |files| || r == 0
  {
    if files == [] then 0
    else if files[|files| - 1].snapshot then |files| - 1
    else LatestSnapshot(files[..|files| - 1])
  }

  /** The runs on disk in the order of their generations. */
  function SortedFiles(disk: map<nat, File>): seq<File> {
    var ids := Ascending(disk.Keys);
    AscendingIs(disk.Keys);
    seq(|ids|, i requires 0 <= i < |ids| => assert ids[i] in Elements(ids); disk[ids[i]])
  }

  predicate Readable(disk: map<nat, File>) { forall g | g in disk :: disk[g].generation == g && FileOk(disk[g]) }

  function Recovered(base: Base, disk: map<nat, File>): Result<Memory> {
    if !Readable(disk) then Err("forest delta fields are inconsistent")
    else
      var files := SortedFiles(disk);
      LoadAll(base, files[LatestSnapshot(files)..])
  }

  lemma SortedFilesAt(disk: map<nat, File>, i: nat)
    requires i < |Ascending(disk.Keys)|
    ensures |SortedFiles(disk)| == |Ascending(disk.Keys)| && Ascending(disk.Keys)[i] in disk
    ensures SortedFiles(disk)[i] == disk[Ascending(disk.Keys)[i]]
  {
    hide Ascending;
    AscendingIs(disk.Keys);
    assert Ascending(disk.Keys)[i] in Elements(Ascending(disk.Keys));
  }

  lemma LatestSnoc(files: seq<File>, f: File)
    ensures LatestSnapshot(files + [f]) == if f.snapshot then |files| else LatestSnapshot(files)
  {
    assert (files + [f])[..|files|] == files;
  }

  lemma AllReadable(disk: map<nat, File>)
    requires forall k | 0 <= k < |Ascending(disk.Keys)| :: var g := Ascending(disk.Keys)[k]; g in disk ==> disk[g].generation == g && FileOk(disk[g])
    ensures Readable(disk)
  {
    hide FileOk, Ascending;
    AscendingIs(disk.Keys);
    forall g | g in disk ensures disk[g].generation == g && FileOk(disk[g]) { assert g in Elements(Ascending(disk.Keys)); }
  }

  /** The scan of the runs, oldest generation first, keeping the place of the last snapshot. */
  method OpenRuns(disk: map<nat, File>) returns (r: Result<seq<File>>, first: nat)
    ensures r.Ok? <==> Readable(disk)
    ensures r.Ok? ==> r.value == SortedFiles(disk) && first == LatestSnapshot(r.value)
  {
    hide FileOk, Ascending, SortedFiles, LatestSnapshot;
    var ids := Ascending(disk.Keys);
    var runs: seq<File> := [];
    SortedLength(disk);
    first := 0;
    var i: nat := 0;
    while i < |ids|
      invariant i <= |ids| == |SortedFiles(disk)| && runs == SortedFiles(disk)[..i] && first == LatestSnapshot(runs)
      invariant forall k | 0 <= k < i :: ids[k] in disk ==> disk[ids[k]].generation == ids[k] && FileOk(disk[ids[k]])
    {
      SortedFilesAt(disk, i);
      var run := disk[ids[i]];
      if !FileOk(run) || run.generation != ids[i] { return Err("forest delta fields are inconsistent"), 0; }
      LatestSnoc(runs, run);
      if run.snapshot { first := |runs|; }
      runs := runs + [run];
      i := i + 1;
    }
    AllReadable(disk);
    return Ok(runs), first;
  }

  lemma SortedLength(disk: map<nat, File>)
    ensures |SortedFiles(disk)| == |Ascending(disk.Keys)| && LatestSnapshot([]) == 0
  {}

  lemma LoadPrefix(base: Base, files: seq<File>, i: nat, m: Memory)
    requires i < |files| && LoadAll(base, files[..i]) == Ok(m)
    ensures LoadAll(base, files[..i + 1]) == LoadStep(base, m, files[i], i == 0)
  {
    hide LoadStep;
    assert files[..i + 1][..i] == files[..i];
  }

  method RecoverDeltas(base: Base, disk: map<nat, File>) returns (r: Result<Memory>)
    ensures r == Recovered(base, disk)
  {
    hide SortedFiles, FileOk, LatestSnapshot, LoadStep, LoadAll, Readable;
    var scanned, first := OpenRuns(disk);
    if scanned.Err? { return Err("forest delta fields are inconsistent"); }
    var runs := scanned.value;
    r := LoadRuns(base, runs, first);
  }

  /** Load the runs from the latest snapshot on. */
  method LoadRuns(base: Base, runs: seq<File>, first: nat) returns (r: Result<Memory>)
    requires first <= |runs|
    ensures r == LoadAll(base, runs[first..])
  {
    hide LoadStep, LoadAll;
    ghost var used := runs[first..];
    var current := Start(base);
    NoRuns(base);
    var i: nat := first;
    assert used[..0] == [];
    while i < |runs|
      invariant first <= i <= |runs| && LoadAll(base, used[..i - first]) == Ok(current)
    {
      LoadPrefix(base, used, i - first, current);
      var next := LoadStep(base, current, runs[i], i == first);
      if next.Err? {
        LoadStops(base, used, i + 1 - first);
        return next;
      }
      current := next.value;
      i := i + 1;
    }
    assert used[..i - first] == used;
    return Ok(current);
  }

  lemma NoRuns(base: Base)
    ensures LoadAll(base, []) == Ok(Start(base))
  {}

  lemma {:induction false} LoadStops(base: Base, files: seq<File>, i: nat)
    requires i <= |files| && LoadAll(base, files[..i]).Err?
    ensures LoadAll(base, files) == LoadAll(base, files[..i])
    decreases |files|
  {
    if i == |files| {
      assert files[..i] == files;
    } else {
      assert files[..|files| - 1][..i] == files[..i];
      LoadStops(base, files[..|files| - 1], i);
    }
  }

  // ---- what a run of seals and compactions leaves on disk -------------------------------

  /** `active` are the runs in use; whatever else is on disk is older than all of them. */
  ghost predicate Stored(base: Base, disk: map<nat, File>, active: seq<File>) {
    && Readable(disk)
    && (forall i | 0 <= i < |active| :: active[i].generation in disk && disk[active[i].generation] == active[i])
    && (forall i | 0 <= i < |active| :: active[i].generation == active[0].generation + i)
    && (forall i | 0 < i < |active| :: !active[i].snapshot)
    && (active != [] && !active[0].snapshot ==> active[0].generation == 1)
    && (forall g | g in disk :: active != [] && g < active[0].generation + |active|)
  }

  function Generations(files: seq<File>): (r: seq<nat>)
    ensures |r| == |files| && forall i | 0 <= i < |r| :: r[i] == files[i].generation
  {
    seq(|files|, i requires 0 <= i < |files| => files[i].generation)
  }

  lemma ActiveKeys(base: Base, disk: map<nat, File>, active: seq<File>)
    requires Stored(base, disk, active) && active != []
    ensures StrictlySorted(Generations(active))
    ensures Elements(Generations(active)) == disk.Keys - Under(disk.Keys, active[0].generation)
  {
    hide FileOk;
    forall g | g in disk && g >= active[0].generation ensures g in Generations(active) {
      assert Generations(active)[g - active[0].generation] == g;
    }
  }

  /** The runs in use are the tail of the sorted runs. */
  lemma ActiveTail(base: Base, disk: map<nat, File>, active: seq<File>)
    requires Stored(base, disk, active) && active != []
    ensures |SortedFiles(disk)| >= |active|
    ensures SortedFiles(disk)[|SortedFiles(disk)| - |active|..] == active
  {
    hide Ascending, FileOk, SortedFiles;
    ActiveKeys(base, disk, active);
    SplitKeys(disk.Keys, active[0].generation, Generations(active));
    SortedLength(disk);
    var k := |SortedFiles(disk)| - |active|;
    forall i | 0 <= i < |active| ensures SortedFiles(disk)[k..][i] == active[i] { SortedFilesAt(disk, k + i); }
  }

  lemma {:induction false} LatestIs(files: seq<File>, k: nat)
    requires k < |files| && (files[k].snapshot || k == 0) && forall i | k < i < |files| :: !files[i].snapshot
    ensures LatestSnapshot(files) == k
    decreases |files|
  {
    if k < |files| - 1 {
      LatestIs(files[..|files| - 1], k);
    } else if !files[k].snapshot {
      assert files[..|files| - 1] == [];
    }
  }

  /** Recovery uses exactly the runs in use, whatever obsolete ones are still on disk. */
  lemma RecoversActive(base: Base, disk: map<nat, File>, active: seq<File>)
    requires Stored(base, disk, active)
    ensures Recovered(base, disk) == LoadAll(base, active)
  {
    hide Ascending, FileOk, SortedFiles, LatestSnapshot, LoadAll, Stored;
    StoredParts(base, disk, active);
    if active == [] {
      SortedNone(disk);
    } else {
      var files := SortedFiles(disk);
      ActiveTail(base, disk, active);
      var k := |files| - |active|;
      assert forall i | k <= i < |files| :: files[i] == files[k..][i - k];
      if !active[0].snapshot { OldestFirst(base, disk, active); }
      LatestIs(files, k);
    }
  }

  lemma StoredParts(base: Base, disk: map<nat, File>, active: seq<File>)
    requires Stored(base, disk, active)
    ensures Readable(disk) && (active == [] ==> disk == map[]) && (forall i | 0 < i < |active| :: !active[i].snapshot)
  {
    assert active == [] ==> forall g | g in disk :: false;
  }

  lemma SortedNone(disk: map<nat, File>)
    requires disk == map[]
    ensures SortedFiles(disk) == [] && LatestSnapshot([]) == 0
  {
    AscendingIs(disk.Keys);
  }

  lemma OldestFirst(base: Base, disk: map<nat, File>, active: seq<File>)
    requires Stored(base, disk, active) && active != [] && !active[0].snapshot
    ensures |SortedFiles(disk)| == |active|
  {
    hide FileOk, Ascending;
    AscendingIs(disk.Keys);
    var ids := Ascending(disk.Keys);
    forall g | g in disk ensures 1 <= g < 1 + |active| { FilePositive(disk, g); }
    SortedBounded(ids, 1, |active|);
    ActiveTail(base, disk, active);
  }

  lemma FilePositive(disk: map<nat, File>, g: nat)
    requires Readable(disk) && g in disk
    ensures g >= 1
  {}

  lemma {:induction false} SortedBounded(ids: seq<nat>, low: nat, n: nat)
    requires StrictlySorted(ids) && forall x | x in Elements(ids) :: low <= x < low + n
    ensures |ids| <= n
    decreases n
  {
    if ids != [] {
      var last := |ids| - 1;
      assert ids[last] in Elements(ids);
      forall x | x in Elements(ids[..last]) ensures low <= x < low + n - 1 {
        assert x in Elements(ids);
      }
      SortedBounded(ids[..last], low, n - 1);
    }
  }

  // ---- publication ----------------------------------------------------------------------

  /** A state that can be published over the base. */
  ghost predicate Sane(base: Base, s: State) {
    && s.next < NO_NODE && RootsOk(s.roots, s.next)
    && (forall id: NodeId :: id in s.view <==> id < s.next)
    && (forall id: NodeId | id in s.view :: LinksOk(s.view[id], s.next))
    && |s.chain| == s.point.height + 1 && s.chain[|s.chain| - 1] == s.point.hash
    && base.chain <= s.chain && base.lsn <= s.lsn
  }

  /** The chain of the base ends at its point, and its records are publishable. */
  ghost predicate BaseOk(base: Base) {
    && base.chain != [] && base.blank.kind == FREE && Sane(base, Logical(Start(base)))
  }

  /** The runs in use are those under the running store. */
  ghost predicate Behind(base: Base, m: Memory, active: seq<File>) {
    var d := LoadAll(base, active);
    && d.Ok? && d.value.layers == m.layers.(dirty := map[])
    && d.value.generation == m.generation && d.value.durableLsn == m.durableLsn
    && base.lsn <= m.durableLsn <= m.lsn
    && m.generation == if active == [] then 0 else active[0].generation + |active| - 1
  }

  /** What WriteDeltaRun demands before it writes. */
  predicate Writable(disk: map<nat, File>, f: File, chain: seq<Hash>) {
    && f.generation != 0 && |f.run| < NO_NODE && f.anchor.chainCount != 0
    && f.chainCount == |chain| && f.anchor.chainCount <= |chain| && chain != []
    && chain[|chain| - 1] == f.point.hash
    && f.generation !in disk
  }

  function SuffixOf(base: Base, chain: seq<Hash>): seq<Hash> { if |base.chain| <= |chain| then chain[|base.chain|..] else [] }

  function SealFile(base: Base, m: Memory): File {
    File(false, m.generation + 1, m.generation, AnchorOf(base), m.durableLsn, m.lsn, m.point, m.leaves, m.next, |m.chain|,
         m.roots, SuffixOf(base, m.chain), RunOf(Visible(m.layers.dirty, m.next)))
  }

  function SnapshotFile(base: Base, m: Memory): File {
    File(true, m.generation + 1, m.generation, AnchorOf(base), m.durableLsn, m.durableLsn, m.point, m.leaves, m.next, |m.chain|,
         m.roots, SuffixOf(base, m.chain), RunOf(Changed(m.layers, m.next)))
  }

  function Sealed(m: Memory): Memory {
    m.(layers := Seal(m.layers, m.next), durableLsn := m.lsn, generation := m.generation + 1)
  }

  function Compacted(m: Memory): Memory {
    m.(layers := Compact(m.layers, m.next), generation := m.generation + 1)
  }

  lemma RunOfOk(m: map<NodeId, NodeRecord>, next: nat)
    requires forall id | id in m :: id < next && LinksOk(m[id], next)
    ensures RunOk(RunOf(m), next) && |RunOf(m)| <= next
  {
    hide Ascending, LinksOk;
    var ids := Ascending(m.Keys);
    AscendingIs(m.Keys);
    FreeBound(m.Keys, next);
    forall i | 0 <= i < |ids| ensures ids[i] in m { assert ids[i] in Elements(ids); }
  }

  lemma SealRunOk(l: Layers, next: nat)
    requires forall id: NodeId | id < next :: LinksOk(Read(l, id), next)
    ensures RunOk(RunOf(Visible(l.dirty, next)), next) && |RunOf(Visible(l.dirty, next))| <= next
  {
    hide RunOf, RunOk, LinksOk, LookupAll;
    forall id | id in Visible(l.dirty, next) ensures LinksOk(Visible(l.dirty, next)[id], next) { assert Read(l, id) == l.dirty[id]; }
    RunOfOk(Visible(l.dirty, next), next);
  }

  lemma CompactRunOk(l: Layers, next: nat)
    requires l.dirty == map[] && forall id: NodeId | id < next :: LinksOk(Read(l, id), next)
    ensures RunOk(RunOf(Changed(l, next)), next) && |RunOf(Changed(l, next))| <= next
  {
    hide RunOf, RunOk, LinksOk, LookupAll, Changed;
    forall id | id in Changed(l, next) ensures id < next && LinksOk(Changed(l, next)[id], next) {
      ChangedIs(l, next, id);
      assert Read(l, id) == LookupAll(l.runs, id).value;
    }
    RunOfOk(Changed(l, next), next);
  }

  /** The checks on a published file that do not concern its records. */
  lemma HeaderOk(base: Base, s: State, f: File)
    requires BaseOk(base) && Sane(base, s)
    requires f.anchor == AnchorOf(base) && f.point == s.point && f.chainCount == |s.chain| && f.suffix == SuffixOf(base, s.chain)
    ensures f.chainCount == f.anchor.chainCount + |f.suffix| && f.chainCount == f.point.height + 1 && f.anchor.chainCount != 0
    ensures f.suffix != [] ==> f.suffix[|f.suffix| - 1] == f.point.hash
    ensures base.chain + f.suffix == s.chain && ExtendsBase(base, f)
  {
    hide LinksOk, RootsOk;
    assert f.suffix == [] ==> s.chain == base.chain;
  }

  /** The new generation is not on disk yet, and comes next. */
  lemma NextGeneration(base: Base, disk: map<nat, File>, active: seq<File>, m: Memory, f: File)
    requires Stored(base, disk, active) && Behind(base, m, active) && f.generation == m.generation + 1 && FileOk(f)
    ensures f.generation !in disk
    ensures !f.snapshot ==> Stored(base, disk[f.generation := f], active + [f])
    ensures f.snapshot ==> Stored(base, disk[f.generation := f], [f])
  {
    hide FileOk, LoadAll;
    assert active == [] ==> f.generation == 1;
  }

  lemma LoadSnoc(base: Base, active: seq<File>, f: File)
    requires LoadAll(base, active).Ok?
    ensures LoadAll(base, active + [f]) == LoadStep(base, LoadAll(base, active).value, f, active == [])
  {
    hide LoadStep;
    assert (active + [f])[..|active|] == active;
  }

  /** A seal is accepted, and recovery from then on gives back the sealed store. */
  lemma SealPublishes(base: Base, disk: map<nat, File>, active: seq<File>, m: Memory)
    requires BaseOk(base) && Stored(base, disk, active) && Behind(base, m, active) && Sane(base, Logical(m))
    ensures var f := SealFile(base, m);
            && Writable(disk, f, m.chain) && FileOk(f)
            && Stored(base, disk[f.generation := f], active + [f])
            && LoadAll(base, active + [f]) == Ok(Sealed(m))
            && Behind(base, Sealed(m), active + [f])
  {
    hide Stored, LoadAll, RunOf, Read, LinksOk, RootsOk, RunOk;
    var f := SealFile(base, m);
    HeaderOk(base, Logical(m), f);
    forall id: NodeId | id < m.next ensures LinksOk(Read(m.layers, id), m.next) { assert LinksOk(Logical(m).view[id], m.next); }
    SealRunOk(m.layers, m.next);
    NextGeneration(base, disk, active, m, f);
    LoadSnoc(base, active, f);
  }

  /** A compaction is accepted, and recovery from then on gives back the compacted store. */
  lemma CompactPublishes(base: Base, disk: map<nat, File>, active: seq<File>, m: Memory)
    requires BaseOk(base) && Stored(base, disk, active) && Behind(base, m, active) && Sane(base, Logical(m))
    requires m.layers.dirty == map[] && m.lsn == m.durableLsn
    ensures var f := SnapshotFile(base, m);
            && Writable(disk, f, m.chain) && FileOk(f)
            && Stored(base, disk[f.generation := f], [f])
            && LoadAll(base, [f]) == Ok(Compacted(m))
            && Behind(base, Compacted(m), [f])
  {
    hide Stored, LoadAll, RunOf, Read, LinksOk, RootsOk, RunOk, Changed;
    var f := SnapshotFile(base, m);
    HeaderOk(base, Logical(m), f);
    forall id: NodeId | id < m.next ensures LinksOk(Read(m.layers, id), m.next) { assert LinksOk(Logical(m).view[id], m.next); }
    CompactRunOk(m.layers, m.next);
    NextGeneration(base, disk, active, m, f);
    NoRuns(base);
    BaseLayers(base, active);
    LoadSnoc(base, [], f);
    assert [] + [f] == [f] && Start(base).layers.runs + [f.run] == [f.run];
    assert Load(base, Start(base), f).layers == Compacted(m).layers;
  }

  lemma {:induction false} BaseLayers(base: Base, active: seq<File>)
    requires LoadAll(base, active).Ok?
    ensures LoadAll(base, active).value.layers.base == base.records && LoadAll(base, active).value.layers.blank == base.blank
    decreases |active|
  {
    if active != [] { BaseLayers(base, active[..|active| - 1]); }
  }
}
