/**
  The record-to-view-model transformation of the graph explorer's fetch:
  every query record (a source node `a`, a relationship `r`, a target node
  `b`) is turned into node entries, de-duplicated by identity in a `Map`,
  and into exactly one relationship entry.
 */
module GraphExplorer {
  import opened Wrappers
  import opened OrderedMaps

  /** A node or relationship identity, already turned into its string form. */
  type Id = string

  /** A property value as the database hands it over. */
  datatype PropertyValue = Str(s: string) | Num(x: real) | Bool(b: bool) | Null

  type Properties = map<string, PropertyValue>

  /** A node of a query record: `identity`, `labels` and `properties`. */
  datatype DbNode = DbNode(identity: Id, labels: seq<string>, properties: Properties)

  /** A relationship of a query record: `identity` and `type`. */
  datatype DbRelationship = DbRelationship(identity: Id, relType: string)

  /** One row of `MATCH (a)-[r]->(b) RETURN a, r, b`. */
  datatype Record = Record(a: DbNode, r: DbRelationship, b: DbNode)

  /** A node of the view model: `{ id, label, properties }` (`label` is a Dafny keyword, hence `primaryLabel`). */
  datatype Node = Node(id: Id, primaryLabel: Option<string>, properties: Properties)

  /** A relationship of the view model: `{ id, from, to, type }`. */
  datatype Relationship = Relationship(id: Id, from: Id, to: Id, relType: string)

  /** `labels[0]`, which is `undefined` when the label list is empty. */
  function FirstLabel(labels: seq<string>): (l: Option<string>)
    ensures l.None? <==> |labels| == 0
    ensures l.Some? ==> l.value == labels[0]
  {
    if |labels| == 0 then None else Some(labels[0])
  }

  /** The value stored in the node map for one occurrence of a node. */
  function ToNode(n: DbNode): (v: Node)
    ensures v.id == n.identity
    ensures v.primaryLabel == FirstLabel(n.labels)
    ensures v.properties == n.properties
  {
    Node(n.identity, FirstLabel(n.labels), n.properties)
  }

  /** The relationship entry pushed for one record. */
  function ToRelationship(record: Record): (rel: Relationship)
    ensures rel.id == record.r.identity
    ensures rel.from == record.a.identity && rel.to == record.b.identity
    ensures rel.relType == record.r.relType
  {
    Relationship(record.r.identity, record.a.identity, record.b.identity, record.r.relType)
  }

  /**
    The node occurrences in the order the loop writes them into the node
    map: for each record, `a` and then `b`.
   */
  function Writes(records: seq<Record>): (ws: seq<DbNode>)
    ensures |ws| == 2 * |records|
    ensures forall i :: 0 <= i < |records| ==> ws[2 * i] == records[i].a && ws[2 * i + 1] == records[i].b
  {
    if |records| == 0 then []
    else Writes(records[..|records| - 1]) + [records[|records| - 1].a, records[|records| - 1].b]
  }

  /** The identities written by a sequence of node writes. */
  ghost function WriteIds(ws: seq<DbNode>): set<Id> {
    set k | 0 <= k < |ws| :: ws[k].identity
  }

  /** The identities of all source and target nodes of the records. */
  ghost function Endpoints(records: seq<Record>): set<Id> {
    (set i | 0 <= i < |records| :: records[i].a.identity) + (set i | 0 <= i < |records| :: records[i].b.identity)
  }

  /** Write `k` of `ws` is the last one that concerns identity `x`. */
  ghost predicate IsLastWrite(ws: seq<DbNode>, x: Id, k: int) {
    && 0 <= k < |ws|
    && ws[k].identity == x
    && forall j :: k < j < |ws| ==> ws[j].identity != x
  }

  /** Write `k` of `ws` is the first one that concerns identity `x`. */
  ghost predicate IsFirstWrite(ws: seq<DbNode>, x: Id, k: int) {
    && 0 <= k < |ws|
    && ws[k].identity == x
    && forall j :: 0 <= j < k ==> ws[j].identity != x
  }

  /** The node map after the writes `ws`, starting from `new Map()`. */
  function Accumulate(ws: seq<DbNode>): (m: OrderedMap<Id, Node>)
    ensures m.Valid()
    ensures m.entries.Keys == WriteIds(ws)
    ensures KeyedById(m)
  {
    if |ws| == 0 then Empty()
    else
      var w := ws[|ws| - 1];
      var prev := ws[..|ws| - 1];
      assert WriteIds(ws) == WriteIds(prev) + {w.identity} by {
        assert forall k :: 0 <= k < |prev| ==> prev[k] == ws[k];
      }
      Accumulate(prev).Put(w.identity, ToNode(w))
  }

  /** `Array.from(nodeMap.values())` at the end of the loop. */
  function Nodes(records: seq<Record>): (nodes: seq<Node>)
    ensures |records| == 0 ==> nodes == []
  {
    Accumulate(Writes(records)).Values()
  }

  /** The `relationships` array at the end of the loop. */
  function Relationships(records: seq<Record>): (rels: seq<Relationship>)
    ensures |rels| == |records|
    ensures forall i :: 0 <= i < |records| ==>
      && rels[i].id == records[i].r.identity
      && rels[i].from == records[i].a.identity
      && rels[i].to == records[i].b.identity
      && rels[i].relType == records[i].r.relType
  {
    if |records| == 0 then []
    else Relationships(records[..|records| - 1]) + [ToRelationship(records[|records| - 1])]
  }

  /** Record `i` adds its `a` and then its `b` to the writes. */
  lemma WritesStep(records: seq<Record>, i: int)
    requires 0 <= i < |records|
    ensures Writes(records[..i + 1]) == Writes(records[..i]) + [records[i].a, records[i].b]
  {
    assert records[..i + 1][..i] == records[..i];
  }

  /** Writing `w` after `ws` is one more `set` call on the node map. */
  lemma AccumulateOne(ws: seq<DbNode>, w: DbNode)
    ensures Accumulate(ws + [w]) == Accumulate(ws).Put(w.identity, ToNode(w))
  {
    assert (ws + [w])[..|ws|] == ws;
  }

  /** Writing `a` and then `b` after `ws` is two `set` calls on the node map. */
  lemma AccumulateTwo(ws: seq<DbNode>, a: DbNode, b: DbNode)
    ensures Accumulate(ws + [a, b]) == Accumulate(ws).Put(a.identity, ToNode(a)).Put(b.identity, ToNode(b))
  {
    assert ws + [a, b] == (ws + [a]) + [b];
    AccumulateOne(ws + [a], b);
    AccumulateOne(ws, a);
  }

  /** Record `i` pushes one relationship. */
  lemma RelationshipsStep(records: seq<Record>, i: int)
    requires 0 <= i < |records|
    ensures Relationships(records[..i + 1]) == Relationships(records[..i]) + [ToRelationship(records[i])]
  {
    assert records[..i + 1][..i] == records[..i];
  }

  /**
    The loop of the fetch: one pass over the records that sets `a` and then
    `b` in the node map and pushes one relationship per record.
   */
  method FetchGraph(records: seq<Record>) returns (nodes: seq<Node>, relationships: seq<Relationship>)
    ensures nodes == Nodes(records)
    ensures relationships == Relationships(records)
  {
    var nodeMap := new MapObject<Id, Node>();
    relationships := [];
    var i := 0;
    while i < |records|
      invariant 0 <= i <= |records|
      invariant nodeMap.Valid()
      invariant nodeMap.Model() == Accumulate(Writes(records[..i]))
      invariant relationships == Relationships(records[..i])
    {
      var record := records[i];
      WritesStep(records, i);
      AccumulateTwo(Writes(records[..i]), record.a, record.b);
      RelationshipsStep(records, i);
      nodeMap.Set(record.a.identity, ToNode(record.a));
      nodeMap.Set(record.b.identity, ToNode(record.b));
      relationships := relationships + [ToRelationship(record)];
      i := i + 1;
    }
    assert records[..i] == records;
    nodes := nodeMap.Values();
  }

  /** Write `j` of the loop belongs to record `j / 2`: its `a` when `j` is even, its `b` when odd. */
  lemma WriteOwner(records: seq<Record>, j: int)
    requires 0 <= j < |Writes(records)|
    ensures 0 <= j / 2 < |records|
    ensures j % 2 == 0 ==> j == 2 * (j / 2) && Writes(records)[j] == records[j / 2].a
    ensures j % 2 == 1 ==> j == 2 * (j / 2) + 1 && Writes(records)[j] == records[j / 2].b
  {
  }

  /** The identities written by the loop are exactly the records' endpoints. */
  lemma WriteIdsAreEndpoints(records: seq<Record>)
    ensures WriteIds(Writes(records)) == Endpoints(records)
  {
    var ws := Writes(records);
    forall x | x in WriteIds(ws) ensures x in Endpoints(records) {
      var k :| 0 <= k < |ws| && ws[k].identity == x;
      WriteOwner(records, k);
    }
    forall x | x in Endpoints(records) ensures x in WriteIds(ws) {
      if i :| 0 <= i < |records| && records[i].a.identity == x {
        assert ws[2 * i].identity == x;
      } else {
        var i :| 0 <= i < |records| && records[i].b.identity == x;
        assert ws[2 * i + 1].identity == x;
      }
    }
  }

  /** Every value of the map is stored under its own id. */
  ghost predicate KeyedById(m: OrderedMap<Id, Node>) {
    forall k :: k in m.entries ==> m.entries[k].id == k
  }

  /** In a map keyed by id, the values carry the keys, in key order. */
  lemma ValuesCarryKeys(m: OrderedMap<Id, Node>)
    requires m.Valid() && KeyedById(m)
    ensures forall i :: 0 <= i < |m.Values()| ==> m.Values()[i].id == m.keys[i]
  {
  }

  /** In a map keyed by id, the values have pairwise distinct ids, namely the keys. */
  lemma ValuesIds(m: OrderedMap<Id, Node>)
    requires m.Valid() && KeyedById(m)
    ensures forall i, j :: 0 <= i < j < |m.Values()| ==> m.Values()[i].id != m.Values()[j].id
    ensures (set n | n in m.Values() :: n.id) == m.entries.Keys
    ensures |m.Values()| == |m.entries|
  {
    var vs := m.Values();
    ValuesCarryKeys(m);
    forall x | x in m.entries ensures x in (set n | n in vs :: n.id) {
      var i :| 0 <= i < |m.keys| && m.keys[i] == x;
      assert vs[i].id == x;
    }
    ValuesCount(m);
  }

  /** In a map keyed by id, the value under `x` is the one value whose id is `x`. */
  lemma ValueForId(m: OrderedMap<Id, Node>, x: Id)
    requires m.Valid() && KeyedById(m)
    requires x in m.entries
    ensures m.entries[x] in m.Values()
    ensures forall n :: n in m.Values() && n.id == x ==> n == m.entries[x]
  {
    var p :| 0 <= p < |m.keys| && m.keys[p] == x;
    assert m.Values()[p] == m.entries[x];
  }

  /**
    Node ids are pairwise distinct, they are exactly the identities of all
    `a` and `b` nodes, so there is one node per distinct identity.
   */
  lemma NodeIdentities(records: seq<Record>)
    ensures forall i, j :: 0 <= i < j < |Nodes(records)| ==> Nodes(records)[i].id != Nodes(records)[j].id
    ensures (set n | n in Nodes(records) :: n.id) == Endpoints(records)
    ensures |Nodes(records)| == |Endpoints(records)|
  {
    WriteIdsAreEndpoints(records);
    ValuesIds(Accumulate(Writes(records)));
  }

  /** The write that is last for its identity decides the value stored under it. */
  lemma {:induction false} AccumulateLastWrite(ws: seq<DbNode>, k: int)
    requires 0 <= k < |ws|
    requires IsLastWrite(ws, ws[k].identity, k)
    ensures ws[k].identity in Accumulate(ws).entries
    ensures Accumulate(ws).entries[ws[k].identity] == ToNode(ws[k])
  {
    var prev := ws[..|ws| - 1];
    if k < |ws| - 1 {
      assert forall j :: k < j < |prev| ==> prev[j] == ws[j];
      AccumulateLastWrite(prev, k);
    }
  }

  /** A write before the last one is among the earlier writes. */
  lemma WrittenBeforeLast(ws: seq<DbNode>, k: int)
    requires 0 <= k < |ws| - 1
    ensures ws[k].identity in WriteIds(ws[..|ws| - 1])
  {
    assert ws[..|ws| - 1][k] == ws[k];
  }

  /** Every written identity has a first write. */
  lemma {:induction false} FirstWriteExists(ws: seq<DbNode>, x: Id)
    requires x in WriteIds(ws)
    ensures exists k :: IsFirstWrite(ws, x, k)
  {
    var prev := ws[..|ws| - 1];
    if x in WriteIds(prev) {
      FirstWriteExists(prev, x);
      var k :| IsFirstWrite(prev, x, k);
      assert ws[k] == prev[k];
      assert forall j :: 0 <= j < k ==> ws[j] == prev[j];
      assert IsFirstWrite(ws, x, k);
    } else {
      var k :| 0 <= k < |ws| && ws[k].identity == x;
      if k < |prev| {
        WrittenBeforeLast(ws, k);
        assert false;
      }
      assert forall j :: 0 <= j < |prev| ==> ws[j] == prev[j];
      assert IsFirstWrite(ws, x, |prev|);
    }
  }

  /** Every output node's identity has a first write, so `NodeOrder` covers every pair of nodes. */
  lemma NodeHasFirstWrite(records: seq<Record>, p: int)
    requires 0 <= p < |Nodes(records)|
    ensures exists k :: IsFirstWrite(Writes(records), Nodes(records)[p].id, k)
  {
    var m := Accumulate(Writes(records));
    ValuesCarryKeys(m);
    assert Nodes(records)[p].id == m.keys[p];
    FirstWriteExists(Writes(records), m.keys[p]);
  }

  /** A first write to an identity that the earlier writes already contain lies among them. */
  lemma FirstWriteInPrefix(ws: seq<DbNode>, x: Id, k: int)
    requires |ws| > 0
    requires IsFirstWrite(ws, x, k)
    requires x in WriteIds(ws[..|ws| - 1])
    ensures k < |ws| - 1 && IsFirstWrite(ws[..|ws| - 1], x, k)
  {
    var prev := ws[..|ws| - 1];
    var j :| 0 <= j < |prev| && prev[j].identity == x;
    assert ws[j].identity == x;
  }

  /** Re-setting a key never reorders the keys: they stay in first-write order. */
  lemma {:induction false} AccumulateFirstWriteOrder(ws: seq<DbNode>, p: int, q: int, k1: int, k2: int)
    requires 0 <= p < q < |Accumulate(ws).keys|
    requires IsFirstWrite(ws, Accumulate(ws).keys[p], k1)
    requires IsFirstWrite(ws, Accumulate(ws).keys[q], k2)
    ensures k1 < k2
  {
    var prev := ws[..|ws| - 1];
    var w := ws[|ws| - 1];
    var before := Accumulate(prev);
    var keys := Accumulate(ws).keys;
    assert keys[p] == before.keys[p];
    FirstWriteInPrefix(ws, keys[p], k1);
    if q < |before.keys| {
      assert keys[q] == before.keys[q];
      FirstWriteInPrefix(ws, keys[q], k2);
      AccumulateFirstWriteOrder(prev, p, q, k1, k2);
    } else {
      assert keys[q] == w.identity && w.identity !in WriteIds(prev);
      if k2 < |prev| {
        WrittenBeforeLast(ws, k2);
        assert false;
      }
    }
  }

  /** The last record that mentions `x` holds the last write to `x`: its `b` if `b` is `x`, else its `a`. */
  lemma LastRecordHoldsLastWrite(records: seq<Record>, i: int, x: Id)
    requires 0 <= i < |records|
    requires x == records[i].a.identity || x == records[i].b.identity
    requires forall j :: i < j < |records| ==> records[j].a.identity != x && records[j].b.identity != x
    ensures IsLastWrite(Writes(records), x, if records[i].b.identity == x then 2 * i + 1 else 2 * i)
  {
    var ws := Writes(records);
    var k := if records[i].b.identity == x then 2 * i + 1 else 2 * i;
    forall j | k < j < |ws| ensures ws[j].identity != x {
      WriteOwner(records, j);
      var r := j / 2;
      if r == i {
        assert j == 2 * i + 1 && ws[j] == records[i].b && records[i].b.identity != x;
      } else {
        assert i < r < |records|;
      }
    }
  }

  /**
    Last write wins. Suppose record `i` is the last record that mentions
    identity `x`. Then the node for `x` carries `b`'s label and properties
    when `b` is `x`, because `b` is written after `a`; otherwise it carries `a`'s.
   */
  lemma LastWriteWins(records: seq<Record>, i: int, x: Id)
    requires 0 <= i < |records|
    requires x == records[i].a.identity || x == records[i].b.identity
    requires forall j :: i < j < |records| ==> records[j].a.identity != x && records[j].b.identity != x
    ensures ToNode(if records[i].b.identity == x then records[i].b else records[i].a) in Nodes(records)
    ensures forall n :: n in Nodes(records) && n.id == x ==>
      n == ToNode(if records[i].b.identity == x then records[i].b else records[i].a)
  {
    var ws := Writes(records);
    var k := if records[i].b.identity == x then 2 * i + 1 else 2 * i;
    LastRecordHoldsLastWrite(records, i, x);
    AccumulateLastWrite(ws, k);
    ValueForId(Accumulate(ws), x);
  }

  /** A self-loop record that is the last to mention its node keeps `b`'s data. */
  lemma SelfLoopKeepsTarget(records: seq<Record>, i: int)
    requires 0 <= i < |records|
    requires records[i].a.identity == records[i].b.identity
    requires forall j :: i < j < |records| ==>
      records[j].a.identity != records[i].a.identity && records[j].b.identity != records[i].a.identity
    ensures ToNode(records[i].b) in Nodes(records)
    ensures forall n :: n in Nodes(records) && n.id == records[i].a.identity ==> n == ToNode(records[i].b)
  {
    LastWriteWins(records, i, records[i].a.identity);
  }

  /**
    Nodes come out in the order in which their identity was first written
    (positions in `Writes(records)`: `2 * i` for record `i`'s `a`, `2 * i + 1`
    for its `b`); later writes to an identity do not move it.
   */
  lemma NodeOrder(records: seq<Record>, p: int, q: int, k1: int, k2: int)
    requires 0 <= p < q < |Nodes(records)|
    requires IsFirstWrite(Writes(records), Nodes(records)[p].id, k1)
    requires IsFirstWrite(Writes(records), Nodes(records)[q].id, k2)
    ensures k1 < k2
  {
    ValuesCarryKeys(Accumulate(Writes(records)));
    AccumulateFirstWriteOrder(Writes(records), p, q, k1, k2);
  }

  /** The node map after a single record: `a` then `b`, or just one key for a self-loop. */
  lemma SingleRecordMap(record: Record)
    ensures Accumulate(Writes([record])).keys
      == if record.a.identity == record.b.identity then [record.a.identity] else [record.a.identity, record.b.identity]
    ensures Accumulate(Writes([record])).entries[record.b.identity] == ToNode(record.b)
    ensures record.a.identity != record.b.identity ==> Accumulate(Writes([record])).entries[record.a.identity] == ToNode(record.a)
  {
    var a, b := record.a, record.b;
    assert Writes([record]) == [] + [a, b];
    AccumulateTwo([], a, b);
    var m1 := Empty<Id, Node>().Put(a.identity, ToNode(a));
    assert m1 == OrderedMap([a.identity], map[a.identity := ToNode(a)]);
    var m2 := m1.Put(b.identity, ToNode(b));
    if a.identity == b.identity {
      assert m2 == OrderedMap([a.identity], map[a.identity := ToNode(b)]);
    } else {
      assert m2 == OrderedMap([a.identity, b.identity], map[a.identity := ToNode(a), b.identity := ToNode(b)]);
    }
  }

  /**
    A single record yields the nodes `a` and `b`, in that order, or only `b`
    when it is a self-loop, and the one relationship from `a` to `b`.
   */
  lemma SingleRecord(record: Record)
    ensures Nodes([record]) == if record.a.identity == record.b.identity then [ToNode(record.b)]
                               else [ToNode(record.a), ToNode(record.b)]
    ensures Relationships([record]) == [Relationship(record.r.identity, record.a.identity, record.b.identity, record.r.relType)]
  {
    SingleRecordMap(record);
  }
}
