# Graph explorer: records to view model

This project models the data transformation at the heart of the graph
explorer's `fetchGraph`. The query `MATCH (a)-[r]->(b) RETURN a, r, b` returns
records, and each record holds a source node `a`, a relationship `r` and a
target node `b`. One pass over the records builds two things:

- a node list. It is de-duplicated by node identity through a JavaScript `Map`.
  For each record, `a` is set and then `b` is set. A later `set` on an identity
  already present replaces the stored node but keeps the identity's original
  position. The list is `Array.from(nodeMap.values())`.
- a relationship list. It gets exactly one `{ id, from, to, type }` entry per
  record, in input order, with no de-duplication.

Files:

- `wrappers.dfy`: `Option`. `None` stands for `undefined`, which is what
  `labels[0]` gives on an empty label list.
- `ordered_maps.dfy`: the JavaScript `Map`. `OrderedMap` is its state as a
  value: the keys in insertion order plus the key-to-value map. `Put` is
  `set` and `Values` is `Array.from(map.values())`. `MapObject` is the mutable
  object the loop updates in place.
- `graph_explorer.dfy`: the record, node and relationship types, and the pure
  specification. `Writes` is the order of the `set` calls and `Accumulate` is
  the map after those calls. `Nodes` and `Relationships` are the two outputs.
  `FetchGraph` is the imperative `forEach` loop, proved equal to the
  specification. The lemmas state what the output means.

Identities arrive as strings, as produced by `identity.toString()`.
Property maps are passed through unchanged.

## Model

| member | source | states |
|---|---|---|
| `OrderedMaps.OrderedMap.Put` | src/GraphExplorer.jsx:36-45 | `Map.set`: the key set grows by `k`; `k` now maps to `v` and every other key keeps its value; a key already present keeps its position, a new key is appended last; keys stay free of duplicates |
| `OrderedMaps.OrderedMap.Values` | src/GraphExplorer.jsx:55 | `Array.from(map.values())`: one value per key, key `i`'s value at position `i` |
| `OrderedMaps.ValuesCount` | src/GraphExplorer.jsx:55 | the values list is as long as the map has distinct keys |
| `OrderedMaps.Empty` | src/GraphExplorer.jsx:28 | `new Map()`: no keys, no entries, well formed |
| `OrderedMaps.MapObject.constructor` | src/GraphExplorer.jsx:28 | `new Map()` is empty and well formed |
| `OrderedMaps.MapObject.Set` | src/GraphExplorer.jsx:36-45 | updating the object in place moves its state from `m` to `m.Put(k, v)` and keeps it well formed |
| `OrderedMaps.MapObject.Values` | src/GraphExplorer.jsx:55 | `Array.from(nodeMap.values())` on the object: one value per key (as many as distinct keys), key `i`'s value at position `i` |
| `GraphExplorer.FirstLabel` | src/GraphExplorer.jsx:38-43 | `labels[0]`: absent exactly when the label list is empty, otherwise the first label |
| `GraphExplorer.ToNode` | src/GraphExplorer.jsx:36-45 | the object stored for one occurrence: `id` is the occurrence's identity, the label is `FirstLabel` of its label list, the properties are its property map passed through unchanged |
| `GraphExplorer.ToRelationship` | src/GraphExplorer.jsx:47-52 | the object pushed for a record: `id` is `r`'s identity, `from` is `a`'s identity, `to` is `b`'s identity, the type is `r.type` |
| `GraphExplorer.Writes` | src/GraphExplorer.jsx:31-45 | the loop makes two `set` calls per record: record `i`'s `a` is write `2i` and its `b` is write `2i+1` |
| `GraphExplorer.WriteOwner` | src/GraphExplorer.jsx:31-45 | the converse of `Writes`: write `j` belongs to record `j / 2`, as its `a` when `j` is even and as its `b` when `j` is odd |
| `GraphExplorer.Accumulate` | src/GraphExplorer.jsx:28-45 | after the writes, the map is well formed, its keys are exactly the written identities, and every node is stored under its own `id` |
| `GraphExplorer.Nodes` | src/GraphExplorer.jsx:28-55 | no records give no nodes |
| `GraphExplorer.Relationships` | src/GraphExplorer.jsx:29-52 | one relationship per record, in input order; entry `i` has record `i`'s `r` identity as `id`, its `a` identity as `from`, its `b` identity as `to` and its `r.type` as type |
| `GraphExplorer.FetchGraph` | src/GraphExplorer.jsx:28-56 | the loop that updates the `Map` object and pushes onto the array returns exactly `Nodes(records)` and `Relationships(records)` |
| `GraphExplorer.WriteIdsAreEndpoints` | src/GraphExplorer.jsx:31-45 | the identities written are exactly the `a` and `b` identities of the records |
| `GraphExplorer.ValuesIds` | src/GraphExplorer.jsx:36-55 | in a map where each node is stored under its own id, the values have pairwise distinct ids, their id set is the key set, and there is one value per key |
| `GraphExplorer.ValueForId` | src/GraphExplorer.jsx:36-55 | in such a map, the node under `x` is in the values and is the only value with id `x` |
| `GraphExplorer.NodeIdentities` | src/GraphExplorer.jsx:28-55 | output node ids are pairwise distinct; their set is the set of all `a` and `b` identities; so the node count equals the number of distinct identities |
| `GraphExplorer.AccumulateLastWrite` | src/GraphExplorer.jsx:36-45 | last write wins: the node stored under an identity is built from the last write to it |
| `GraphExplorer.AccumulateFirstWriteOrder` | src/GraphExplorer.jsx:36-45 | keys are ordered by the position of their first write; overwriting does not move a key |
| `GraphExplorer.FirstWriteExists` | src/GraphExplorer.jsx:36-45 | every written identity has a first write |
| `GraphExplorer.NodeHasFirstWrite` | src/GraphExplorer.jsx:31-55 | every output node's identity has a first write, so the order statement of `NodeOrder` applies to every pair of output nodes |
| `GraphExplorer.LastRecordHoldsLastWrite` | src/GraphExplorer.jsx:31-45 | in the last record that mentions `x`, the last write to `x` is `b` when `b` is `x`, otherwise `a` |
| `GraphExplorer.LastWriteWins` | src/GraphExplorer.jsx:31-45 | if record `i` is the last record to mention `x`, the only node with id `x` is built from `b` when `b` is `x` (it is written after `a`), otherwise from `a`; its label is that occurrence's first label and its properties are that occurrence's properties |
| `GraphExplorer.SelfLoopKeepsTarget` | src/GraphExplorer.jsx:36-45 | for a self-loop record (`a` and `b` have the same identity) that is the last to mention that node, `b`'s node is in the output and is the only node with that id |
| `GraphExplorer.NodeOrder` | src/GraphExplorer.jsx:31-55 | if output node `p` comes before node `q`, the first write of `p`'s identity comes before the first write of `q`'s identity; with distinct ids this fixes the whole order |
| `GraphExplorer.SingleRecordMap` | src/GraphExplorer.jsx:28-45 | after one record the map's keys are `[a, b]`, or `[a]` for a self-loop; `b`'s identity holds `b`'s node and, when distinct, `a`'s identity holds `a`'s |
| `GraphExplorer.SingleRecord` | src/GraphExplorer.jsx:28-56 | one record gives nodes `[a, b]`, or `[b]` for a self-loop, and the single relationship `a -> b` |

## Left out

- Driver creation, authentication from environment variables, `session.run` of the fixed query with `LIMIT 50`, and closing the session and the driver (src/GraphExplorer.jsx:11-26, 59-62). These are asynchronous I/O against an external library. The records are a parameter of `FetchGraph` instead.
- The `catch` branch (src/GraphExplorer.jsx:57-58): it only logs to the console.
- The React state hooks, `useEffect`, and the `BasicNvlWrapper` widget that renders the result (src/GraphExplorer.jsx:5-9, 64-82). `FetchGraph` returns what is handed to `setNodes` and `setRels`. `src/App.js` is a presentation shell with no logic.
- The conversion of driver integer identities by `identity.toString()`. Identities are taken as already-normalised strings.
- A malformed-record error. The code validates no record field: a missing field would throw inside the driver's accessors or yield `undefined`. The model follows the code, so every record is well formed and there is no error value.
- Property values are a closed union of string, number, boolean and null. Numbers are `real`, so floating point is not modelled. Lists, temporal values and driver integers are not modelled. The model only passes values through, so this does not change any property.
- Idempotence of two builds on the same input has no separate lemma: `Nodes` and `Relationships` are functions, so a second build is equal by definition.
- Overlapping fetches that race and overwrite each other's results are not modelled. They are asynchronous UI behaviour outside the transformation.
