/** Node records and the layers a read goes through: the dirty map, then the delta runs from
    newest to oldest, then the read-only base. */
module Records {
  import opened Common

  datatype Kind = FREE | LEAF | BRANCH

  datatype NodeRecord = NodeRecord(hash: Hash, parent: NodeId, left: NodeId, right: NodeId, kind: Kind)

  datatype Entry = Entry(id: NodeId, record: NodeRecord)

  /** One immutable run of overrides, sorted by id. */
  type Run = seq<Entry>

  function Lookup(run: Run, id: NodeId): Option<NodeRecord> {
    if run == [] then None
    else if run[0].id == id then Some(run[0].record)
    else Lookup(run[1..], id)
  }

  function LookupAll(runs: seq<Run>, id: NodeId): Option<NodeRecord> {
    if runs == [] then None
    else
      var newest := Lookup(runs[|runs| - 1], id);
      if newest.Some? then newest else LookupAll(runs[..|runs| - 1], id)
  }

  /** `blank` is the record of a slot no layer has written: free, with no links. */
  datatype Layers = Layers(dirty: map<NodeId, NodeRecord>, runs: seq<Run>, base: seq<NodeRecord>, blank: NodeRecord)

  function BaseRecord(l: Layers, id: NodeId): NodeRecord {
    if id < |l.base| then l.base[id] else l.blank
  }

  function Read(l: Layers, id: NodeId): NodeRecord {
    if id in l.dirty then l.dirty[id]
    else
      var delta := LookupAll(l.runs, id);
      if delta.Some? then delta.value else BaseRecord(l, id)
  }

  /** The record of every id below `next`, as one flat map. */
  function View(l: Layers, next: nat): map<NodeId, NodeRecord> {
    map id: NodeId | id < next :: Read(l, id)
  }

  ghost function FreeIds(l: Layers, next: nat): set<NodeId> {
    set id: NodeId | id < next && Read(l, id).kind == FREE
  }

  lemma ViewAt(l: Layers, next: nat, id: NodeId)
    ensures id in View(l, next) <==> id < next
    ensures id < next ==> View(l, next)[id] == Read(l, id)
  {}

  function Written(l: Layers, id: NodeId, record: NodeRecord): Layers {
    l.(dirty := l.dirty[id := record])
  }

  lemma ViewWritten(l: Layers, next: nat, id: NodeId, record: NodeRecord)
    requires id <= next
    ensures View(Written(l, id, record), if id < next then next else next + 1) == View(l, next)[id := record]
  {}

  lemma FreeWritten(l: Layers, next: nat, id: NodeId, record: NodeRecord)
    requires id <= next
    ensures var free := FreeIds(l, next) - {id};
            FreeIds(Written(l, id, record), if id < next then next else next + 1)
              == if record.kind == FREE then free + {id} else free
  {}
}
