/**
  The node directory of the mesh-radio client: a `NodeDB` keeps, for every peer
  node number, the metadata last reported for that peer (its user identity and
  its position), and announces every change with a "nodeListChanged" event.
 */
module NodeDb {
  import opened Wrappers
  import opened OrderedMap

  /** A reported position; every field may be unknown (`undefined`), which is not the same as 0. */
  datatype Position = Position(
    latitudeI: Option<int>,
    longitudeI: Option<int>,
    altitude: Option<int>,
    time: Option<int>,
    batteryLevel: Option<int>)

  /** The position record `addUserData` stores for a node it creates: nothing is known yet. */
  const UnknownPosition := Position(None, None, None, None, None)

  /** A peer's identity as decoded by the protocol codec. */
  datatype User = User(
    id: Option<string>,
    longName: Option<string>,
    shortName: Option<string>,
    macaddr: Option<seq<bv8>>,
    hwModel: Option<int>)

  /**
    A peer's metadata. `user` and `position` are None when the record has no
    such field of its own.
   */
  datatype NodeInfo = NodeInfo(num: int, user: Option<User>, position: Option<Position>)

  /** The one event kind the directory dispatches. */
  const NodeListChanged := "nodeListChanged"

  /** A dispatched event: its kind and its `detail`, a node number or `null` (None). */
  datatype Event = Event(kind: string, detail: Option<int>)

  type Nodes = OMap<NodeInfo>

  /** Every stored record is stored under its own node number. */
  ghost predicate KeyedByNum(m: Nodes) {
    forall k :: k in m.entries ==> m.entries[k].num == k
  }

  /**
    The test `userIdToNodeNum` applies to each record: a record without a user
    of its own never matches, nor does a user whose id is unknown or another
    string; a user whose id is `id` does.
   */
  predicate HasUserId(info: NodeInfo, id: string): (r: bool)
    ensures r ==> info.user.Some?
    ensures info.user.Some? && info.user.value.id.None? ==> !r
    ensures info.user.Some? && info.user.value.id.Some? && info.user.value.id.value != id ==> !r
    ensures info.user.Some? && info.user.value.id == Some(id) ==> r
  {
    info.user.Some? && info.user.value.id == Some(id)
  }

  /**
    The map after `addUserData(n, u)`: a missing node is created with user `u`
    and an unknown position; a present node gets user `u` and keeps the rest.
   */
  function WithUser(m: Nodes, n: int, u: User): (r: Nodes)
    ensures n !in m.entries ==> Get(r, n) == Some(NodeInfo(n, Some(u), Some(UnknownPosition)))
    ensures n !in m.entries ==> r.keys == m.keys + [n]
    ensures n in m.entries ==> Get(r, n) == Some(m.entries[n].(user := Some(u)))
    ensures n in m.entries ==> r.keys == m.keys
    ensures forall k :: k != n ==> Get(r, k) == Get(m, k)
    ensures WellFormed(m) && KeyedByNum(m) ==> WellFormed(r) && KeyedByNum(r)
  {
    match Get(m, n)
    case None => Set(m, n, NodeInfo(n, Some(u), Some(UnknownPosition)))
    case Some(node) => Set(m, n, node.(user := Some(u)))
  }

  /**
    The map after `addPositionData(n, p)`: a missing node is created with
    position `p` and the codec's default user `defaultUser`; a present node gets
    position `p` and keeps the rest.
   */
  function WithPosition(m: Nodes, n: int, p: Position, defaultUser: User): (r: Nodes)
    ensures n !in m.entries ==> Get(r, n) == Some(NodeInfo(n, Some(defaultUser), Some(p)))
    ensures n !in m.entries ==> r.keys == m.keys + [n]
    ensures n in m.entries ==> Get(r, n) == Some(m.entries[n].(position := Some(p)))
    ensures n in m.entries ==> r.keys == m.keys
    ensures forall k :: k != n ==> Get(r, k) == Get(m, k)
    ensures WellFormed(m) && KeyedByNum(m) ==> WellFormed(r) && KeyedByNum(r)
  {
    match Get(m, n)
    case None => Set(m, n, NodeInfo(n, Some(defaultUser), Some(p)))
    case Some(node) => Set(m, n, node.(position := Some(p)))
  }

  /**
    What `userIdToNodeNum(id)` computes over the keys `keys`, visited in order:
    the `num` of the last record whose user has id `id`, or None.
   */
  function LastMatchIn(entries: map<int, NodeInfo>, keys: seq<int>, id: string): Option<int>
    requires forall i :: 0 <= i < |keys| ==> keys[i] in entries
  {
    if keys == [] then None
    else
      var last := entries[keys[|keys| - 1]];
      if HasUserId(last, id) then Some(last.num)
      else LastMatchIn(entries, keys[..|keys| - 1], id)
  }

  /** Position `i` of `keys` holds a record with user id `id`, and no later position does. */
  ghost predicate IsLastMatch(entries: map<int, NodeInfo>, keys: seq<int>, id: string, i: int) {
    && 0 <= i < |keys|
    && keys[i] in entries
    && HasUserId(entries[keys[i]], id)
    && forall j :: i < j < |keys| ==> keys[j] in entries && !HasUserId(entries[keys[j]], id)
  }

  /**
    `LastMatchIn` is None exactly when no visited record has user id `id`, and
    otherwise the `num` of the last visited record that has.
   */
  lemma {:induction false} LastMatchSpec(entries: map<int, NodeInfo>, keys: seq<int>, id: string)
    requires forall i :: 0 <= i < |keys| ==> keys[i] in entries
    ensures LastMatchIn(entries, keys, id).None? <==>
              forall i :: 0 <= i < |keys| ==> !HasUserId(entries[keys[i]], id)
    ensures LastMatchIn(entries, keys, id).Some? ==>
              exists i :: IsLastMatch(entries, keys, id, i) &&
                          LastMatchIn(entries, keys, id).value == entries[keys[i]].num
  {
    if keys != [] {
      var n := |keys| - 1;
      var init := keys[..n];
      assert forall i :: 0 <= i < n ==> init[i] == keys[i];
      LastMatchSpec(entries, init, id);
      if HasUserId(entries[keys[n]], id) {
        assert IsLastMatch(entries, keys, id, n);
      } else if LastMatchIn(entries, init, id).Some? {
        var i :| IsLastMatch(entries, init, id, i) &&
                 LastMatchIn(entries, init, id).value == entries[init[i]].num;
        assert IsLastMatch(entries, keys, id, i);
      }
    }
  }

  /** Whatever `userIdToNodeNum(id)` finds is a stored node whose user id is `id`. */
  lemma LastMatchIsOwner(m: Nodes, id: string)
    requires WellFormed(m) && KeyedByNum(m)
    requires LastMatchIn(m.entries, m.keys, id).Some?
    ensures LastMatchIn(m.entries, m.keys, id).value in m.entries
    ensures HasUserId(m.entries[LastMatchIn(m.entries, m.keys, id).value], id)
  {
    LastMatchSpec(m.entries, m.keys, id);
  }

  /** No two stored nodes share a user id. */
  ghost predicate UniqueUserIds(m: Nodes) {
    forall a, b, id ::
      a in m.entries && b in m.entries && HasUserId(m.entries[a], id) && HasUserId(m.entries[b], id)
      ==> a == b
  }

  /**
    When user ids are unique, `userIdToNodeNum` inverts `nodeNumToUserId`: the
    id stored for node `n` leads back to `n`.
   */
  lemma LastMatchFindsOwner(m: Nodes, n: int, id: string)
    requires WellFormed(m) && KeyedByNum(m) && UniqueUserIds(m)
    requires n in m.entries && HasUserId(m.entries[n], id)
    ensures LastMatchIn(m.entries, m.keys, id) == Some(n)
  {
    LastMatchSpec(m.entries, m.keys, id);
    var i0 :| 0 <= i0 < |m.keys| && m.keys[i0] == n;
    assert HasUserId(m.entries[m.keys[i0]], id);
    var i :| IsLastMatch(m.entries, m.keys, id, i) &&
             LastMatchIn(m.entries, m.keys, id).value == m.entries[m.keys[i]].num;
    assert m.keys[i] == n;
  }

  /** One field update that `addUserData` or `addPositionData` reports for a node. */
  datatype Patch = UserPatch(user: User) | PositionPatch(position: Position)

  /** The map after the patches `ps`, in order, for node `n`. */
  function ApplyPatches(m: Nodes, n: int, ps: seq<Patch>, defaultUser: User): Nodes
    decreases |ps|
  {
    if ps == [] then m
    else
      var prev := ApplyPatches(m, n, ps[..|ps| - 1], defaultUser);
      match ps[|ps| - 1]
      case UserPatch(u) => WithUser(prev, n, u)
      case PositionPatch(p) => WithPosition(prev, n, p, defaultUser)
  }

  /** The user carried by the last user patch of `ps`, if any. */
  function LatestUser(ps: seq<Patch>): Option<User> {
    if ps == [] then None
    else if ps[|ps| - 1].UserPatch? then Some(ps[|ps| - 1].user)
    else LatestUser(ps[..|ps| - 1])
  }

  /** The position carried by the last position patch of `ps`, if any. */
  function LatestPosition(ps: seq<Patch>): Option<Position> {
    if ps == [] then None
    else if ps[|ps| - 1].PositionPatch? then Some(ps[|ps| - 1].position)
    else LatestPosition(ps[..|ps| - 1])
  }

  /**
    Starting from a node that is not yet stored, any mix of user and position
    updates leaves one record whose user is the last user reported (the codec's
    default user if none was) and whose position is the last position reported
    (unknown if none was): neither kind of update clobbers the other, and no
    other node changes.
   */
  lemma {:induction false} PatchesKeepLatest(m: Nodes, n: int, ps: seq<Patch>, defaultUser: User)
    requires n !in m.entries && ps != []
    ensures Get(ApplyPatches(m, n, ps, defaultUser), n) ==
            Some(NodeInfo(n, Some(LatestUser(ps).GetOr(defaultUser)),
                          Some(LatestPosition(ps).GetOr(UnknownPosition))))
    ensures forall k :: k != n ==> Get(ApplyPatches(m, n, ps, defaultUser), k) == Get(m, k)
  {
    var init := ps[..|ps| - 1];
    var prev := ApplyPatches(m, n, init, defaultUser);
    if init == [] {
      assert prev == m;
    } else {
      PatchesKeepLatest(m, n, init, defaultUser);
      assert n in prev.entries;
    }
  }

  /**
    The directory. `nodes` is the JavaScript `Map` from node number to record;
    `events` is the sequence of events dispatched so far; `defaultUser` stands
    for the record the protocol codec builds with `new User()`.
   */
  class NodeDB {
    var nodes: Nodes
    var events: seq<Event>
    const defaultUser: User

    /** The map is well formed and every record sits under its own number. */
    ghost predicate Valid()
      reads this
    {
      WellFormed(nodes) && KeyedByNum(nodes)
    }

    /** An empty directory that has dispatched nothing. */
    constructor (defaultUser: User)
      ensures Valid()
      ensures nodes == Empty() && events == []
      ensures this.defaultUser == defaultUser
    {
      nodes := Empty();
      events := [];
      this.defaultUser := defaultUser;
    }

    /** Dispatches one event to the directory's listeners, recorded in `events`. */
    method DispatchInterfaceEvent(eventType: string, payload: Option<int>)
      modifies this`events
      ensures events == old(events) + [Event(eventType, payload)]
    {
      events := events + [Event(eventType, payload)];
    }

    /** Stores `nodeInfo` under its number, replacing any earlier record. */
    method AddNode(nodeInfo: NodeInfo) returns (n: int)
      requires Valid()
      modifies this
      ensures Valid()
      ensures n == nodeInfo.num
      ensures nodes == Set(old(nodes), nodeInfo.num, nodeInfo)
      ensures GetNodeByNum(nodeInfo.num) == Some(nodeInfo)
      ensures forall k :: k != nodeInfo.num ==> GetNodeByNum(k) == old(GetNodeByNum(k))
      ensures events == old(events) + [Event(NodeListChanged, Some(nodeInfo.num))]
    {
      nodes := Set(nodes, nodeInfo.num, nodeInfo);
      DispatchInterfaceEvent(NodeListChanged, Some(nodeInfo.num));
      n := nodeInfo.num;
    }

    /** Records `user` for node `nodeNumber`, creating the node if it is missing. */
    method AddUserData(nodeNumber: int, user: User) returns (n: int)
      requires Valid()
      modifies this
      ensures Valid()
      ensures n == nodeNumber
      ensures nodes == WithUser(old(nodes), nodeNumber, user)
      ensures events == old(events) + [Event(NodeListChanged, None)]
    {
      var node := Get(nodes, nodeNumber);
      if node.None? {
        var nodeInfo := NodeInfo(nodeNumber, Some(user), Some(UnknownPosition));
        nodes := Set(nodes, nodeNumber, nodeInfo);
        DispatchInterfaceEvent(NodeListChanged, None);
        return nodeNumber;
      }
      nodes := Set(nodes, nodeNumber, node.value.(user := Some(user)));
      DispatchInterfaceEvent(NodeListChanged, None);
      n := nodeNumber;
    }

    /** Records `position` for node `nodeNumber`, creating the node if it is missing. */
    method AddPositionData(nodeNumber: int, position: Position) returns (n: int)
      requires Valid()
      modifies this
      ensures Valid()
      ensures n == nodeNumber
      ensures nodes == WithPosition(old(nodes), nodeNumber, position, defaultUser)
      ensures events == old(events) + [Event(NodeListChanged, Some(nodeNumber))]
    {
      var node := Get(nodes, nodeNumber);
      if node.None? {
        var nodeInfo := NodeInfo(nodeNumber, Some(defaultUser), Some(position));
        nodes := Set(nodes, nodeNumber, nodeInfo);
        DispatchInterfaceEvent(NodeListChanged, Some(nodeNumber));
        return nodeNumber;
      }
      nodes := Set(nodes, nodeNumber, node.value.(position := Some(position)));
      DispatchInterfaceEvent(NodeListChanged, Some(nodeNumber));
      n := nodeNumber;
    }

    /** Forgets node `nodeNumber`; forgetting a missing node changes no record. */
    method RemoveNode(nodeNumber: int) returns (n: int)
      requires Valid()
      modifies this
      ensures Valid()
      ensures n == nodeNumber
      ensures nodes == Delete(old(nodes), nodeNumber)
      ensures GetNodeByNum(nodeNumber) == None
      ensures forall k :: k != nodeNumber ==> GetNodeByNum(k) == old(GetNodeByNum(k))
      ensures old(nodeNumber !in nodes.entries) ==> nodes == old(nodes)
      ensures events == old(events) + [Event(NodeListChanged, Some(nodeNumber))]
    {
      nodes := Delete(nodes, nodeNumber);
      DispatchInterfaceEvent(NodeListChanged, Some(nodeNumber));
      n := nodeNumber;
    }

    /** The record stored for `nodeNumber`, or None when there is none. */
    function GetNodeByNum(nodeNumber: int): (r: Option<NodeInfo>)
      reads this
      requires Valid()
      ensures r.Some? <==> nodeNumber in nodes.entries
      ensures r.Some? ==> r.value == nodes.entries[nodeNumber] && r.value.num == nodeNumber
    {
      if Get(nodes, nodeNumber).None? then None else Get(nodes, nodeNumber)
    }

    /** The directory's current map: one record per key, each under its own number. */
    function GetNodeList(): (r: Nodes)
      reads this
      requires Valid()
      ensures r == nodes
      ensures |r.entries| == |r.keys|
      ensures forall k :: k in r.entries ==> r.entries[k].num == k
    {
      SizeIsKeyCount(nodes);
      nodes
    }

    /**
      The user id stored for `nodeNumber`, or None when the node is missing or
      its user has no id. A stored node must have a user of its own.
     */
    function NodeNumToUserId(nodeNumber: int): (r: Option<string>)
      reads this
      requires nodeNumber in nodes.entries ==> nodes.entries[nodeNumber].user.Some?
      ensures r.None? <==>
                nodeNumber !in nodes.entries || nodes.entries[nodeNumber].user.value.id.None?
      ensures r.Some? ==> nodeNumber in nodes.entries && HasUserId(nodes.entries[nodeNumber], r.value)
    {
      var node := Get(nodes, nodeNumber);
      if node.None? || node.value.user.value.id.None? then None
      else node.value.user.value.id
    }

    /**
      The number of the node whose user has id `userId`, scanning every record
      in insertion order and keeping the last match; None when nothing matches.
     */
    method UserIdToNodeNum(userId: string) returns (r: Option<int>)
      requires Valid()
      ensures r == LastMatchIn(nodes.entries, nodes.keys, userId)
      ensures r.None? <==>
                forall i :: 0 <= i < |nodes.keys| ==> !HasUserId(nodes.entries[nodes.keys[i]], userId)
      ensures r.Some? ==>
                exists i :: IsLastMatch(nodes.entries, nodes.keys, userId, i) &&
                            r.value == nodes.keys[i]
    {
      r := None;
      var i := 0;
      while i < |nodes.keys|
        invariant 0 <= i <= |nodes.keys|
        invariant r == LastMatchIn(nodes.entries, nodes.keys[..i], userId)
      {
        var node := nodes.entries[nodes.keys[i]];
        if HasUserId(node, userId) {
          r := Some(node.num);
        }
        assert nodes.keys[..i + 1][..i] == nodes.keys[..i];
        i := i + 1;
      }
      assert nodes.keys[..i] == nodes.keys;
      LastMatchSpec(nodes.entries, nodes.keys, userId);
    }
  }
}
