# NodeDB: the node directory of a mesh-radio client, in Dafny

This project models `NodeDB`, the directory of peer nodes kept by the
meshtastic-js client library (`src/nodedb.ts`). The directory maps each
node number to a `NodeInfo` record. A record holds the node's user identity
and its last reported position. The directory's operations are:
- `addNode` inserts a record wholesale.
- `addUserData` and `addPositionData` each update one half of a record, and
  create the record with defaults when the node is unknown.
- `removeNode` deletes a node, and does nothing when the node is unknown.
- Three lookups never fail on a miss.

Every mutation dispatches one `"nodeListChanged"` event.

Layout:

- `wrappers.dfy`: module `Wrappers` holds `Option`, which stands for a value
  that may be `undefined`.
- `ordered_map.dfy`: module `OrderedMap` models a JavaScript `Map` with number
  keys as a value, `OMap`. It holds the entries and the keys in insertion order,
  which is the order `forEach` visits them in. It provides `Get`, `Set` and
  `Delete` with the `Map` semantics:
  - setting a new key appends it;
  - setting a present key keeps its position;
  - deleting a key removes it and keeps the others in order.
- `nodedb.dfy`: module `NodeDb` holds these parts:
  - the `Position`, `User`, `NodeInfo` and `Event` records;
  - the upsert functions `WithUser` and `WithPosition`;
  - the specification `LastMatchIn` of the user-id scan;
  - the class `NodeDB`, with the fields `nodes` (the map) and `events` (the
    events dispatched so far);
  - lemmas about these.
- `scenarios.dfy`: client methods that use only `NodeDB`'s contracts to walk
  through concrete histories:
  - add node 7, then remove it;
  - remove a missing node;
  - look up a user id before and after its user is added;
  - interleave user and position updates;
  - store two nodes with the same user id; the one inserted last wins;
  - remove a node from the middle; the others keep their order.

`NodeDB.Valid()` is the object invariant:
- the map is well formed: every key is listed once, in insertion order;
- every record is stored under its own `num`.

Every mutator keeps this invariant. The mutators state their whole new state
through the `OrderedMap` and `NodeDb` functions. The properties of those
functions are the contracts and lemmas listed below.

Three behaviours of the source matter to the model:
- `addUserData` dispatches a `null` payload in both branches
  (src/nodedb.ts:59, :65). Every other mutator dispatches the node number.
- `userIdToNodeNum` returns the LAST matching node in insertion order, not
  the first, because the scan overwrites its result at each match
  (src/nodedb.ts:159-165).
- The directory's iteration order is insertion order, because that is the
  order of a JavaScript `Map`. `userIdToNodeNum` depends on it, so the model
  keeps it, and deleting a node keeps the other nodes in their order.

## Model

| member | source | states |
|---|---|---|
| `OrderedMap.Empty` | src/nodedb.ts:16 | the new map is well formed, holds no key and lists no key |
| `OrderedMap.Get` | src/nodedb.ts:36 | a record is found exactly when the key is held, and it is the held record; on a well-formed map, exactly when iteration visits the key |
| `OrderedMap.Set` | src/nodedb.ts:25 | afterwards the key maps to the value and every other key maps to what it did before; a present key keeps its place in iteration order and a new key goes last; well-formedness is kept |
| `OrderedMap.Without` | src/nodedb.ts:110 | removing a key from the key order keeps exactly the other keys, changes nothing when the key is absent, and creates no repeats |
| `OrderedMap.WithoutAt` | src/nodedb.ts:110 | on a key order without repeats, deleting a key cuts out just its own position and keeps the others in their order |
| `OrderedMap.WithoutCutsOut` | src/nodedb.ts:110 | on a key order without repeats, removing a key gives the order with that key's position cut out, wherever it sits |
| `OrderedMap.Delete` | src/nodedb.ts:110 | afterwards the key is missing and every other key maps to what it did before; well-formedness is kept; the key's position is cut out of the iteration order and the other keys keep their order; deleting a missing key leaves the map identical |
| `OrderedMap.SizeIsKeyCount` | src/nodedb.ts:132-134 | the map's size equals the number of keys iteration visits |
| `NodeDb.HasUserId` | src/nodedb.ts:160-161 | the per-record test of the user-id scan: a record without a user of its own never matches, a user whose id is unknown never matches, a user with another id never matches, and a user whose id is the requested one does |
| `NodeDb.WithUser` | src/nodedb.ts:35-68 | an unknown node is appended with `num` = the number, the given user and a position whose fields are all unknown (None, not 0); a known node gets only its user replaced and keeps its place; no other node changes; the directory invariant is kept |
| `NodeDb.WithPosition` | src/nodedb.ts:75-102 | an unknown node is appended with `num` = the number, the given position and the codec's default user; a known node gets only its position replaced and keeps its place; no other node changes; the directory invariant is kept |
| `NodeDb.LastMatchSpec` | src/nodedb.ts:156-168 | the scan finds nothing exactly when no visited record has a user with that id; otherwise it returns the `num` of the last record in iteration order that has one |
| `NodeDb.LastMatchIsOwner` | src/nodedb.ts:141-168 | whatever the scan returns is a stored node whose user has the requested id, so `nodeNumToUserId` of it gives the id back |
| `NodeDb.LastMatchFindsOwner` | src/nodedb.ts:141-168 | when no two nodes share a user id, the scan for the id stored at node n returns n |
| `NodeDb.PatchesKeepLatest` | src/nodedb.ts:35-102 | after any sequence of user and position updates for one new node, its user is the last user reported (the default user if none was) and its position is the last position reported (unknown if none was); no other node changes |
| `NodeDb.NodeDB.constructor` | src/nodedb.ts:13-17 | the directory starts empty, with the invariant, and has dispatched nothing |
| `NodeDb.NodeDB.DispatchInterfaceEvent` | src/nodedb.ts:175-177 | exactly one event with the given kind and payload is appended to the event log |
| `NodeDb.NodeDB.AddNode` | src/nodedb.ts:24-28 | the record is stored under its `num`, which is returned; afterwards looking up that number gives the record and every other lookup is unchanged; the invariant is kept; one "nodeListChanged" event with the number is appended |
| `NodeDb.NodeDB.AddUserData` | src/nodedb.ts:35-68 | the map becomes `WithUser` of the old map; the number is returned; the invariant is kept; one "nodeListChanged" event with a null payload is appended in both branches |
| `NodeDb.NodeDB.AddPositionData` | src/nodedb.ts:75-102 | the map becomes `WithPosition` of the old map with the codec's default user; the number is returned; the invariant is kept; one "nodeListChanged" event with the number is appended in both branches |
| `NodeDb.NodeDB.RemoveNode` | src/nodedb.ts:109-113 | the number is missing afterwards and every other lookup is unchanged; removing a missing node leaves the map unchanged; the number is returned; one "nodeListChanged" event with the number is appended in every case |
| `NodeDb.NodeDB.GetNodeByNum` | src/nodedb.ts:119-125 | a record is returned exactly when the number is stored; it is the stored record and its `num` is the number asked for |
| `NodeDb.NodeDB.GetNodeList` | src/nodedb.ts:132-134 | the directory's current map is returned; its size equals its key count and every record sits under its own `num` |
| `NodeDb.NodeDB.NodeNumToUserId` | src/nodedb.ts:141-149 | None exactly when the node is missing or its user has no id; otherwise an id that the stored node's user has |
| `NodeDb.NodeDB.UserIdToNodeNum` | src/nodedb.ts:156-168 | the loop over the records in insertion order computes `LastMatchIn`: None exactly when no record's user has the id, and otherwise the number of the last record in insertion order whose user has it |

## Left out

- packages/transport-web-bluetooth/src/transport.ts is not part of this model. It adapts Web Bluetooth GATT characteristics and WHATWG streams through asynchronous event handlers. That is I/O and concurrency.
- Listener fan-out: `EventTarget` and `CustomEvent` delivery to subscribers is not modelled. Dispatching an event appends it to the `events` log.
- The `try`/`catch` around `Map.set` in `addUserData` and `addPositionData` is not modelled. `Map.set` cannot throw for these arguments, so the rethrow path is unreachable.
- Object aliasing: records are values. The source updates the stored record object in place (`node.user = user`). A caller that kept a reference to a record passed to `addNode` would see that change. The model does not capture it.
- Protobuf records: `NodeInfo`, `User` and `Position` keep only the fields the directory uses or that the records are known for. The codec's other fields and its class internals are not modelled.
- NodeDb.NodeDB.GetNodeList: returns a value, a snapshot of the directory's current map. The source hands out its own `Map` object. A caller holding it would see later changes. A caller could also change the directory through it, with no "nodeListChanged" event and possibly under a key other than the record's `num`. That escaped `Map` is not modelled.
- Default user: the codec's `new User()` is a value the model cannot see. It is the parameter `defaultUser` of the `NodeDB` constructor, kept in a constant field.
- NodeDb.NodeDB.NodeNumToUserId: requires that a stored node has a user of its own. The source reads `node.user.id` without checking, and fails when the user is missing. That failure is not modelled.
- Node numbers are unbounded integers. JavaScript numbers that are not integers, NaN and -0 as map keys are not modelled.
