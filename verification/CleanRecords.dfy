/** Free records carry no links: Free clears them (src/forest.cpp:955-967), and so no layer ever
    holds a free record that points anywhere. */
module CleanRecords {
  import opened Common
  import opened Records
  import opened Layering
  import opened DeltaRuns

  predicate Clean(r: NodeRecord) { r.kind == FREE ==> r.parent == NO_NODE && r.left == NO_NODE && r.right == NO_NODE }

  ghost predicate CleanMap(records: map<NodeId, NodeRecord>) { forall id | id in records :: Clean(records[id]) }

  ghost predicate CleanRun(run: Run) { forall id: NodeId :: Lookup(run, id).Some? ==> Clean(Lookup(run, id).value) }

  ghost predicate CleanLayers(l: Layers) {
    && CleanMap(l.dirty) && Clean(l.blank)
    && (forall i | 0 <= i < |l.runs| :: CleanRun(l.runs[i]))
    && (forall i | 0 <= i < |l.base| :: Clean(l.base[i]))
  }

  lemma {:induction false} CleanDelta(runs: seq<Run>, id: NodeId)
    requires forall i | 0 <= i < |runs| :: CleanRun(runs[i])
    ensures LookupAll(runs, id).Some? ==> Clean(LookupAll(runs, id).value)
    decreases |runs|
  {
    hide Lookup, Clean;
    if runs != [] {
      assert CleanRun(runs[|runs| - 1]);
      CleanDelta(runs[..|runs| - 1], id);
    }
  }

  lemma CleanRead(l: Layers, id: NodeId)
    requires CleanLayers(l)
    ensures Clean(Read(l, id))
  {
    hide LookupAll, CleanRun, Clean;
    CleanDelta(l.runs, id);
  }

  lemma CleanSeal(l: Layers, next: nat)
    requires CleanLayers(l)
    ensures CleanLayers(Seal(l, next))
  {
    hide Lookup, RunOf, Clean;
    forall id: NodeId ensures Lookup(RunOf(Visible(l.dirty, next)), id).Some? ==> Clean(Lookup(RunOf(Visible(l.dirty, next)), id).value) {
      RunOfIs(Visible(l.dirty, next), id);
    }
  }

  lemma CleanCompact(l: Layers, next: nat)
    requires CleanLayers(l)
    ensures CleanLayers(Compact(l, next))
  {
    hide Lookup, RunOf, Clean, Changed, LookupAll;
    forall id: NodeId ensures Lookup(RunOf(Changed(l, next)), id).Some? ==> Clean(Lookup(RunOf(Changed(l, next)), id).value) {
      RunOfIs(Changed(l, next), id);
      ChangedIs(l, next, id);
      CleanDelta(l.runs, id);
    }
  }

  lemma CleanWritten(l: Layers, id: NodeId, record: NodeRecord)
    requires CleanLayers(l) && Clean(record)
    ensures CleanLayers(Written(l, id, record))
  {
    hide Clean, CleanRun;
  }
}
