/**
  A JavaScript `Map` with number keys, as a value: the key/value pairs it holds together with its
  keys in insertion order, which is the order `forEach` visits them in.
  `Set` of a new key appends it, `Set` of a present key keeps its position and
  `Delete` removes it; `Get` of a missing key is `undefined` (None).
 */
module OrderedMap {
  import opened Wrappers

  datatype OMap<V> = OMap(entries: map<int, V>, keys: seq<int>)

  /** No key occurs twice in `s`. */
  ghost predicate Distinct(s: seq<int>) {
    forall i, j :: 0 <= i < j < |s| ==> s[i] != s[j]
  }

  /** The key sequence lists every key of the map exactly once. */
  ghost predicate WellFormed<V>(m: OMap<V>) {
    && Distinct(m.keys)
    && (forall k :: k in m.entries ==> k in m.keys)
    && (forall i :: 0 <= i < |m.keys| ==> m.keys[i] in m.entries)
  }

  /** `new Map()`. */
  function Empty<V>(): (m: OMap<V>)
    ensures WellFormed(m)
    ensures forall k :: Get(m, k) == None
    ensures m.keys == []
  {
    OMap(map[], [])
  }

  /** `m.get(k)`: `undefined` (None) exactly for a key the map does not hold. */
  function Get<V>(m: OMap<V>, k: int): (r: Option<V>)
    ensures r.Some? <==> k in m.entries
    ensures r.Some? ==> r.value == m.entries[k]
    ensures WellFormed(m) ==> (r.Some? <==> k in m.keys)
  {
    if k in m.entries then Some(m.entries[k]) else None
  }

  /** `m.set(k, v)`. */
  function Set<V>(m: OMap<V>, k: int, v: V): (r: OMap<V>)
    ensures Get(r, k) == Some(v)
    ensures forall j :: j != k ==> Get(r, j) == Get(m, j)
    ensures k in m.entries ==> r.keys == m.keys
    ensures k !in m.entries ==> r.keys == m.keys + [k]
    ensures WellFormed(m) ==> WellFormed(r)
  {
    OMap(m.entries[k := v], if k in m.entries then m.keys else m.keys + [k])
  }

  /** `s` with every occurrence of `k` taken out, the rest in their order. */
  function Without(s: seq<int>, k: int): (r: seq<int>)
    ensures forall x :: x in r <==> x in s && x != k
    ensures k !in s ==> r == s
    ensures Distinct(s) ==> Distinct(r)
  {
    if s == [] then []
    else if s[0] == k then Without(s[1..], k)
    else
      DistinctTail(s);
      [s[0]] + Without(s[1..], k)
  }

  /** Dropping the head of a sequence without repeats leaves one without repeats and without the head. */
  lemma DistinctTail(s: seq<int>)
    requires s != []
    ensures Distinct(s) ==> Distinct(s[1..]) && s[0] !in s[1..]
  {
  }

  /** On a key sequence without repeats, `Without` cuts out the one position holding `k`. */
  lemma {:induction false} WithoutAt(s: seq<int>, k: int, i: nat)
    requires Distinct(s)
    requires i < |s| && s[i] == k
    ensures Without(s, k) == s[..i] + s[i + 1..]
  {
    if i == 0 {
      DistinctTail(s);
      assert s[..0] + s[1..] == s[1..];
    } else {
      var tail := s[1..];
      assert Distinct(tail) by { DistinctTail(s); }
      WithoutAt(tail, k, i - 1);
      assert Without(s, k) == [s[0]] + Without(tail, k) by { assert s[0] != k by { DistinctTail(s); } }
      assert [s[0]] + tail[..i - 1] == s[..i];
      assert tail[i..] == s[i + 1..];
    }
  }

  /** On a key sequence without repeats, wherever `k` sits, `Without` cuts out just that position. */
  lemma {:induction false} WithoutCutsOut(s: seq<int>, k: int)
    ensures Distinct(s) ==>
              forall i :: 0 <= i < |s| && s[i] == k ==> Without(s, k) == s[..i] + s[i + 1..]
  {
    if Distinct(s) {
      forall i | 0 <= i < |s| && s[i] == k ensures Without(s, k) == s[..i] + s[i + 1..] {
        WithoutAt(s, k, i);
      }
    }
  }

  /**
    `m.delete(k)`: the key is cut out of the iteration order and the other keys
    keep theirs; deleting a missing key changes nothing.
   */
  function Delete<V>(m: OMap<V>, k: int): (r: OMap<V>)
    ensures Get(r, k) == None
    ensures forall j :: j != k ==> Get(r, j) == Get(m, j)
    ensures WellFormed(m) ==> WellFormed(r)
    ensures WellFormed(m) ==>
              forall i :: 0 <= i < |m.keys| && m.keys[i] == k ==> r.keys == m.keys[..i] + m.keys[i + 1..]
    ensures WellFormed(m) && k !in m.entries ==> r == m
  {
    WithoutCutsOut(m.keys, k);
    var keys := Without(m.keys, k);
    assert forall i :: 0 <= i < |keys| ==> keys[i] in keys;
    OMap(m.entries - {k}, keys)
  }

  /** A sequence without repeats has as many distinct elements as it has positions. */
  lemma {:induction false} DistinctCard(s: seq<int>)
    requires Distinct(s)
    ensures |set x | x in s| == |s|
  {
    if s != [] {
      var tail := s[1..];
      DistinctTail(s);
      DistinctCard(tail);
      assert (set x | x in s) == (set x | x in tail) + {s[0]} by {
        assert s == [s[0]] + tail;
      }
    }
  }

  /** `m.size` equals the number of keys `forEach` visits. */
  lemma SizeIsKeyCount<V>(m: OMap<V>)
    requires WellFormed(m)
    ensures |m.entries| == |m.keys|
  {
    DistinctCard(m.keys);
    var inKeys := set x | x in m.keys;
    forall x | x in inKeys ensures x in m.entries.Keys {
      var i :| 0 <= i < |m.keys| && m.keys[i] == x;
    }
    forall x | x in m.entries.Keys ensures x in inKeys {
      assert x in m.entries;
    }
    assert m.entries.Keys == inKeys;
  }
}
