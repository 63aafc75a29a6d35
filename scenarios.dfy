/** Client code that uses only the contracts of `NodeDB`, walking through concrete histories. */
module Scenarios {
  import opened Wrappers
  import opened OrderedMap
  import opened NodeDb

  function UserWithId(id: string): User {
    User(Some(id), None, None, None, None)
  }

  /** Adding node 7 and removing it again: sizes 1 then 0, and two events in order. */
  method AddThenRemove(defaultUser: User) {
    var db := new NodeDB(defaultUser);
    var info := NodeInfo(7, Some(UserWithId("!abc")), Some(UnknownPosition));
    var n := db.AddNode(info);
    assert n == 7;
    var list := db.GetNodeList();
    assert list.keys == [7] && 7 in list.entries && |list.entries| == 1;
    assert db.GetNodeByNum(7) == Some(info);
    n := db.RemoveNode(7);
    list := db.GetNodeList();
    assert list.keys == [] && |list.entries| == 0;
    assert db.events == [Event(NodeListChanged, Some(7)), Event(NodeListChanged, Some(7))];
  }

  /** Removing a node that is not there changes nothing but still dispatches one event. */
  method RemoveMissing(defaultUser: User) {
    var db := new NodeDB(defaultUser);
    var n := db.AddUserData(1, UserWithId("a"));
    ghost var before := db.nodes;
    n := db.RemoveNode(5);
    assert db.nodes == before;
    assert db.events == [Event(NodeListChanged, None), Event(NodeListChanged, Some(5))];
  }

  /** A lookup by user id misses on an empty directory and finds the node after its user is added. */
  method LookupByUserId(defaultUser: User) {
    var db := new NodeDB(defaultUser);
    var r := db.UserIdToNodeNum("u1");
    assert r == None;
    var n := db.AddUserData(42, UserWithId("u1"));
    r := db.UserIdToNodeNum("u1");
    assert r == Some(42);
    var id := db.NodeNumToUserId(42);
    assert id == Some("u1");
  }

  /** User and position reports for one node do not clobber each other. */
  method UpsertsKeepBothHalves(defaultUser: User, p: Position, q: Position) {
    var db := new NodeDB(defaultUser);
    var n := db.AddPositionData(3, p);
    assert db.GetNodeByNum(3) == Some(NodeInfo(3, Some(defaultUser), Some(p)));
    n := db.AddUserData(3, UserWithId("x"));
    n := db.AddPositionData(3, q);
    assert db.GetNodeByNum(3) == Some(NodeInfo(3, Some(UserWithId("x")), Some(q)));
    assert db.events == [Event(NodeListChanged, Some(3)), Event(NodeListChanged, None),
                         Event(NodeListChanged, Some(3))];
  }

  /** Two nodes sharing a user id: the lookup returns the one inserted last. */
  method SharedUserIdLastWins(defaultUser: User) {
    var db := new NodeDB(defaultUser);
    var n := db.AddUserData(9, UserWithId("dup"));
    n := db.AddUserData(4, UserWithId("dup"));
    var r := db.UserIdToNodeNum("dup");
    assert r == Some(4);
    n := db.AddUserData(9, UserWithId("dup"));
    r := db.UserIdToNodeNum("dup");
    assert r == Some(4);
  }

  /** Removing a node from the middle keeps the others in insertion order, so later lookups scan them in that order. */
  method RemoveKeepsOrder(defaultUser: User, p: Position) {
    var db := new NodeDB(defaultUser);
    var n := db.AddUserData(1, UserWithId("dup"));
    n := db.AddPositionData(2, p);
    n := db.AddUserData(3, UserWithId("dup"));
    ghost var before := db.nodes.keys;
    assert before == [1, 2, 3] && before[1] == 2;
    n := db.RemoveNode(2);
    assert db.nodes.keys == before[..1] + before[2..] == [1, 3];
    n := db.RemoveNode(3);
    var r := db.UserIdToNodeNum("dup");
    assert r == Some(1);
  }
}
