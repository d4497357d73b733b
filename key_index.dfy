/** The in-memory key index: each entity id maps to a `TreeSet<NodeInfo>`,
    here the ascending sequence of its elements. */
module KeyIndex {
  import opened Domain

  /** `NodeInfo`: a sample's timestamp (`secondKey`) and the slot holding it. */
  datatype NodeInfo = NodeInfo(secondKey: int, pos: nat)

  /** `NodeInfo.compareTo`: nodes are compared by timestamp alone; the slot
      number is never consulted. */
  function CompareTo(a: NodeInfo, b: NodeInfo): (c: int)
    ensures c < 0 <==> a.secondKey < b.secondKey
    ensures c == 0 <==> a.secondKey == b.secondKey
    ensures -1 <= c <= 1
  {
    if a.secondKey < b.secondKey then -1 else if a.secondKey == b.secondKey then 0 else 1
  }

  /** The order a `TreeSet` keeps its elements in: strictly ascending by
      `CompareTo`, so no two nodes share a timestamp. */
  ghost predicate Ascending(s: seq<NodeInfo>)
  {
    forall i, j :: 0 <= i < j < |s| ==> s[i].secondKey < s[j].secondKey
  }

  /** Some node of `s` compares equal to a node with timestamp `t`. */
  ghost predicate HasSecondKey(s: seq<NodeInfo>, t: int)
  {
    exists m :: m in s && m.secondKey == t
  }

  /** `TreeSet.add`: walk the ascending elements; a node comparing equal to
      an element already present leaves the set as it is, any other node is
      placed before the first element it compares below. */
  function Insert(s: seq<NodeInfo>, n: NodeInfo): seq<NodeInfo>
  {
    if s == [] then [n]
    else if CompareTo(n, s[0]) < 0 then [n] + s
    else if CompareTo(n, s[0]) == 0 then s
    else [s[0]] + Insert(s[1..], n)
  }

  /** `r` is what adding `n` to the ordered set `s` must give: still
      ordered; `s` itself when a node with the same timestamp is present;
      otherwise `s` with exactly `n` added. */
  ghost predicate AddedTo(s: seq<NodeInfo>, n: NodeInfo, r: seq<NodeInfo>)
  {
    && Ascending(r)
    && (HasSecondKey(s, n.secondKey) ==> r == s)
    && (!HasSecondKey(s, n.secondKey) ==> |r| == |s| + 1 && forall m :: m in r <==> m in s || m == n)
  }

  /** `Insert` adds a node to an ordered set as `TreeSet.add` does. */
  lemma {:induction false} InsertSpec(s: seq<NodeInfo>, n: NodeInfo)
    requires Ascending(s)
    ensures AddedTo(s, n, Insert(s, n))
  {
    if s == [] {
    } else if CompareTo(n, s[0]) < 0 {
      InsertBeforeHead(s, n);
    } else if CompareTo(n, s[0]) == 0 {
      assert s[0] in s;
    } else {
      Uncons(s);
      InsertSpec(s[1..], n);
      InsertAfterHead(s, n, Insert(s[1..], n));
    }
  }

  lemma InsertBeforeHead(s: seq<NodeInfo>, n: NodeInfo)
    requires Ascending(s) && s != [] && n.secondKey < s[0].secondKey
    ensures AddedTo(s, n, [n] + s)
  {
    Uncons(s);
    AscendingCons(n, s);
  }

  lemma InsertAfterHead(s: seq<NodeInfo>, n: NodeInfo, rest: seq<NodeInfo>)
    requires Ascending(s) && s != [] && s[0].secondKey < n.secondKey
    requires AddedTo(s[1..], n, rest)
    ensures AddedTo(s, n, [s[0]] + rest)
  {
    Uncons(s);
    AscendingCons(s[0], rest);
    if HasSecondKey(s, n.secondKey) {
      assert [s[0]] + s[1..] == s;
    }
  }

  /** A sequence split into its head and its tail. */
  lemma Uncons(s: seq<NodeInfo>)
    requires s != []
    ensures forall m :: m in s <==> m == s[0] || m in s[1..]
    ensures forall t :: HasSecondKey(s, t) <==> s[0].secondKey == t || HasSecondKey(s[1..], t)
    ensures Ascending(s) ==> Ascending(s[1..]) && forall m :: m in s[1..] ==> s[0].secondKey < m.secondKey
  {
    assert s == [s[0]] + s[1..];
  }

  lemma AscendingCons(x: NodeInfo, s: seq<NodeInfo>)
    ensures Ascending(s) && (forall m :: m in s ==> x.secondKey < m.secondKey) ==> Ascending([x] + s)
    ensures forall m :: m in [x] + s <==> m == x || m in s
  {
    var r := [x] + s;
    if Ascending(s) && (forall m :: m in s ==> x.secondKey < m.secondKey) {
      forall i, j | 0 <= i < j < |r|
        ensures r[i].secondKey < r[j].secondKey
      {
        if i == 0 {
          assert r[j] == s[j - 1];
          assert s[j - 1] in s;
        }
      }
    }
  }

  /** `TreeSet.subSet(from, to)`: the elements comparing at or above `from`
      and below `to`, in order. The source's `TreeSet` rejects `from` above
      `to`. */
  function SubSet(s: seq<NodeInfo>, from: NodeInfo, to: NodeInfo): (r: seq<NodeInfo>)
    requires CompareTo(from, to) <= 0
    ensures forall m :: m in r <==> m in s && CompareTo(m, from) >= 0 && CompareTo(m, to) < 0
    ensures Ascending(s) ==> Ascending(r)
  {
    if s == [] then []
    else
      Uncons(s);
      var rest := SubSet(s[1..], from, to);
      if CompareTo(s[0], from) >= 0 && CompareTo(s[0], to) < 0 then
        AscendingCons(s[0], rest);
        [s[0]] + rest
      else rest
  }

  /** `TreeSet.last`: the greatest element. */
  function Last(s: seq<NodeInfo>): (r: NodeInfo)
    requires s != []
    ensures r in s
    ensures Ascending(s) ==> forall m :: m in s ==> m.secondKey <= r.secondKey
  {
    s[|s| - 1]
  }

  /** `keyIndex`: entity id to that entity's ordered node set. */
  type Index = map<string, seq<NodeInfo>>

  /** Every node set present is non-empty and ordered. */
  ghost predicate WellFormed(index: Index)
  {
    forall k :: k in index ==> index[k] != [] && Ascending(index[k])
  }

  /** `addIndex(entity, pos, index)`: record that slot `pos` holds `e`. A key
      not yet present gets a one-node set, a present key gets the node added
      to its set (a no-op when a node with the same timestamp is there), and
      no other key's set changes. */
  function AddIndex(index: Index, e: LocationData, pos: nat): (r: Index)
    requires WellFormed(index)
    ensures WellFormed(r)
    ensures r.Keys == index.Keys + {e.Key()}
    ensures forall k :: k in index && k != e.Key() ==> r[k] == index[k]
    ensures forall m :: m in r[e.Key()] <==>
      (e.Key() in index && m in index[e.Key()])
      || (m == NodeInfo(e.SecondKey(), pos) && !(e.Key() in index && HasSecondKey(index[e.Key()], e.SecondKey())))
    ensures e.Key() in index && HasSecondKey(index[e.Key()], e.SecondKey()) ==> r == index
  {
    var node := NodeInfo(e.SecondKey(), pos);
    if e.Key() in index then
      InsertSpec(index[e.Key()], node);
      var s := Insert(index[e.Key()], node);
      assert HasSecondKey(index[e.Key()], e.SecondKey()) ==> index[e.Key() := s] == index;
      index[e.Key() := s]
    else
      index[e.Key() := [node]]
  }

  /** The index the engine holds after slots `0 .. |slots| - 1` were added in
      slot order, starting from an empty map. */
  function BuildIndex(slots: seq<LocationData>): (r: Index)
    ensures WellFormed(r)
    decreases |slots|
  {
    if slots == [] then map[]
    else AddIndex(BuildIndex(slots[..|slots| - 1]), slots[|slots| - 1], |slots| - 1)
  }

  lemma BuildIndexAppend(slots: seq<LocationData>, e: LocationData)
    ensures BuildIndex(slots + [e]) == AddIndex(BuildIndex(slots), e, |slots|)
  {
    assert (slots + [e])[..|slots|] == slots;
  }

  /** Slot `p` is the first slot holding its (id, timestamp) pair. */
  ghost predicate FirstOfItsKeys(slots: seq<LocationData>, p: nat)
    requires p < |slots|
  {
    forall j :: 0 <= j < p ==> !(slots[j].Key() == slots[p].Key() && slots[j].SecondKey() == slots[p].SecondKey())
  }

  /** Among the slots holding the same (id, timestamp) as slot `j` there is a first one. */
  lemma {:induction false} FirstExists(slots: seq<LocationData>, j: nat)
    requires j < |slots|
    ensures exists p :: 0 <= p <= j && slots[p].Key() == slots[j].Key() && slots[p].SecondKey() == slots[j].SecondKey() && FirstOfItsKeys(slots, p)
    decreases j
  {
    if FirstOfItsKeys(slots, j) {
    } else {
      var i :| 0 <= i < j && slots[i].Key() == slots[j].Key() && slots[i].SecondKey() == slots[j].SecondKey();
      FirstExists(slots, i);
    }
  }

  /** Every indexed node names a slot that exists and holds a sample with
      that id and timestamp, the first slot holding that pair. */
  ghost predicate IndexSound(index: Index, slots: seq<LocationData>)
  {
    forall k, m :: k in index && m in index[k] ==>
      m.pos < |slots| && slots[m.pos].Key() == k && slots[m.pos].SecondKey() == m.secondKey && FirstOfItsKeys(slots, m.pos)
  }

  /** Every slot that is the first holding its (id, timestamp) is indexed. */
  ghost predicate IndexComplete(index: Index, slots: seq<LocationData>)
  {
    forall p :: 0 <= p < |slots| && FirstOfItsKeys(slots, p) ==>
      slots[p].Key() in index && NodeInfo(slots[p].SecondKey(), p) in index[slots[p].Key()]
  }

  /** The consistency invariant between the index and the slots. */
  ghost predicate Mirrors(index: Index, slots: seq<LocationData>)
  {
    IndexSound(index, slots) && IndexComplete(index, slots)
  }

  /** Appending a slot does not change which earlier slots are first. */
  lemma FirstOfItsKeysPrefix(init: seq<LocationData>, e: LocationData, p: nat)
    requires p < |init|
    ensures FirstOfItsKeys(init + [e], p) == FirstOfItsKeys(init, p)
  {
    assert forall j :: 0 <= j <= p ==> (init + [e])[j] == init[j];
  }

  /** The appended slot is the first with its pair exactly when the index of
      the earlier slots holds no node with its id and timestamp. */
  lemma AppendedIsFirst(index: Index, init: seq<LocationData>, e: LocationData)
    requires WellFormed(index) && Mirrors(index, init)
    ensures FirstOfItsKeys(init + [e], |init|) <==> !(e.Key() in index && HasSecondKey(index[e.Key()], e.SecondKey()))
  {
    if e.Key() in index && HasSecondKey(index[e.Key()], e.SecondKey()) {
      IndexedPairRepeats(index, init, e);
    } else if !FirstOfItsKeys(init + [e], |init|) {
      RepeatedPairIsIndexed(index, init, e);
    }
  }

  lemma IndexedPairRepeats(index: Index, init: seq<LocationData>, e: LocationData)
    requires IndexSound(index, init)
    requires e.Key() in index && HasSecondKey(index[e.Key()], e.SecondKey())
    ensures !FirstOfItsKeys(init + [e], |init|)
  {
    var m: NodeInfo :| m in index[e.Key()] && m.secondKey == e.SecondKey();
    assert (init + [e])[m.pos] == init[m.pos];
  }

  lemma RepeatedPairIsIndexed(index: Index, init: seq<LocationData>, e: LocationData)
    requires IndexComplete(index, init)
    requires !FirstOfItsKeys(init + [e], |init|)
    ensures e.Key() in index && HasSecondKey(index[e.Key()], e.SecondKey())
  {
    var slots, n := init + [e], |init|;
    var j :| 0 <= j < n && slots[j].Key() == e.Key() && slots[j].SecondKey() == e.SecondKey();
    assert init[j] == slots[j];
    FirstExists(init, j);
    var p :| 0 <= p <= j && init[p].Key() == e.Key() && init[p].SecondKey() == e.SecondKey() && FirstOfItsKeys(init, p);
    assert NodeInfo(init[p].SecondKey(), p) in index[e.Key()];
  }

  lemma AddIndexSound(index: Index, init: seq<LocationData>, e: LocationData)
    requires WellFormed(index) && Mirrors(index, init)
    ensures IndexSound(AddIndex(index, e, |init|), init + [e])
  {
    var slots, n := init + [e], |init|;
    var idx := AddIndex(index, e, n);
    AppendedIsFirst(index, init, e);
    forall k: string, m: NodeInfo | k in idx && m in idx[k]
      ensures m.pos < |slots| && slots[m.pos].Key() == k && slots[m.pos].SecondKey() == m.secondKey && FirstOfItsKeys(slots, m.pos)
    {
      if k in index && m in index[k] {
        assert slots[m.pos] == init[m.pos];
        FirstOfItsKeysPrefix(init, e, m.pos);
      }
    }
  }

  lemma AddIndexComplete(index: Index, init: seq<LocationData>, e: LocationData)
    requires WellFormed(index) && Mirrors(index, init)
    ensures IndexComplete(AddIndex(index, e, |init|), init + [e])
  {
    var slots, n := init + [e], |init|;
    var idx := AddIndex(index, e, n);
    AppendedIsFirst(index, init, e);
    forall p | 0 <= p < |slots| && FirstOfItsKeys(slots, p)
      ensures slots[p].Key() in idx && NodeInfo(slots[p].SecondKey(), p) in idx[slots[p].Key()]
    {
      if p < n {
        assert slots[p] == init[p];
        FirstOfItsKeysPrefix(init, e, p);
      }
    }
  }

  /** Replaying the slots in order builds an index that mirrors them. */
  lemma {:induction false} BuildIndexMirrors(slots: seq<LocationData>)
    ensures Mirrors(BuildIndex(slots), slots)
    decreases |slots|
  {
    if slots != [] {
      var n := |slots| - 1;
      var init, e := slots[..n], slots[n];
      assert slots == init + [e];
      BuildIndexMirrors(init);
      BuildIndexAppend(init, e);
      AddIndexSound(BuildIndex(init), init, e);
      AddIndexComplete(BuildIndex(init), init, e);
    }
  }

  /** The keys of the replayed index are exactly the ids of the slots. */
  lemma IndexedKeys(slots: seq<LocationData>)
    ensures BuildIndex(slots).Keys == set j | 0 <= j < |slots| :: slots[j].Key()
  {
    var index := BuildIndex(slots);
    BuildIndexMirrors(slots);
    forall k | k in index
      ensures k in set j | 0 <= j < |slots| :: slots[j].Key()
    {
      var m := index[k][0];
      assert m in index[k];
    }
    forall j | 0 <= j < |slots|
      ensures slots[j].Key() in index
    {
      FirstExists(slots, j);
    }
  }

  /** `last()` of a key's node set names the first slot holding that key's
      greatest timestamp: no slot of that key has a later timestamp. */
  lemma LastIsLatest(slots: seq<LocationData>, key: string)
    requires key in BuildIndex(slots)
    ensures var m := Last(BuildIndex(slots)[key]);
      m.pos < |slots| && slots[m.pos].Key() == key && slots[m.pos].SecondKey() == m.secondKey && FirstOfItsKeys(slots, m.pos)
    ensures forall j :: 0 <= j < |slots| && slots[j].Key() == key ==> slots[j].SecondKey() <= Last(BuildIndex(slots)[key]).secondKey
  {
    var index := BuildIndex(slots);
    BuildIndexMirrors(slots);
    var s := index[key];
    forall j | 0 <= j < |slots| && slots[j].Key() == key
      ensures slots[j].SecondKey() <= Last(s).secondKey
    {
      FirstExists(slots, j);
      var p :| 0 <= p <= j && slots[p].Key() == key && slots[p].SecondKey() == slots[j].SecondKey() && FirstOfItsKeys(slots, p);
      assert NodeInfo(slots[p].SecondKey(), p) in s;
    }
  }

  /** A node later than every element goes to the end of the set. */
  lemma {:induction false} InsertGreatest(s: seq<NodeInfo>, n: NodeInfo)
    requires Ascending(s)
    requires forall m :: m in s ==> m.secondKey < n.secondKey
    ensures Insert(s, n) == s + [n]
  {
    if s != [] {
      assert s[0] in s;
      Uncons(s);
      InsertGreatest(s[1..], n);
      assert [s[0]] + (s[1..] + [n]) == s + [n];
    }
  }

  /** Every node indexed under an id carries the timestamp of some slot of that id. */
  lemma IndexedBelow(slots: seq<LocationData>, e: LocationData)
    requires forall j :: 0 <= j < |slots| && slots[j].Key() == e.Key() ==> slots[j].SecondKey() < e.SecondKey()
    requires e.Key() in BuildIndex(slots)
    ensures forall m :: m in BuildIndex(slots)[e.Key()] ==> m.secondKey < e.SecondKey()
  {
    BuildIndexMirrors(slots);
  }

  /** Appending a sample later than every earlier sample of its id makes it
      that id's last node. */
  lemma LastAfterAppend(slots: seq<LocationData>, e: LocationData)
    requires forall j :: 0 <= j < |slots| && slots[j].Key() == e.Key() ==> slots[j].SecondKey() < e.SecondKey()
    ensures e.Key() in BuildIndex(slots + [e])
    ensures Last(BuildIndex(slots + [e])[e.Key()]) == NodeInfo(e.SecondKey(), |slots|)
  {
    var index := BuildIndex(slots);
    var n := NodeInfo(e.SecondKey(), |slots|);
    BuildIndexAppend(slots, e);
    if e.Key() in index {
      var s := index[e.Key()];
      IndexedBelow(slots, e);
      InsertGreatest(s, n);
      assert !HasSecondKey(s, e.SecondKey());
      assert AddIndex(index, e, |slots|)[e.Key()] == s + [n];
    }
  }

  /** Timestamp collision: appending a sample whose id and timestamp an
      earlier slot already holds leaves the index unchanged, so the earlier
      slot stays the one indexed. */
  lemma CollidingAppendKeepsIndex(slots: seq<LocationData>, e: LocationData, j: nat)
    requires j < |slots| && slots[j].Key() == e.Key() && slots[j].SecondKey() == e.SecondKey()
    ensures BuildIndex(slots + [e]) == BuildIndex(slots)
  {
    var index := BuildIndex(slots);
    BuildIndexAppend(slots, e);
    BuildIndexMirrors(slots);
    FirstExists(slots, j);
    var p :| 0 <= p <= j && slots[p].Key() == e.Key() && slots[p].SecondKey() == e.SecondKey() && FirstOfItsKeys(slots, p);
    assert NodeInfo(e.SecondKey(), p) in index[e.Key()];
  }

  /** The nodes `subSet` selects for a key are exactly the indexed slots of
      that key whose timestamp lies in `[from, to)`, ascending. */
  lemma SubSetOfIndex(index: Index, slots: seq<LocationData>, key: string, from: int, to: int)
    requires WellFormed(index) && Mirrors(index, slots)
    requires key in index && from <= to
    ensures Ascending(SubSet(index[key], NodeInfo(from, 0), NodeInfo(to, 0)))
    ensures forall m :: m in SubSet(index[key], NodeInfo(from, 0), NodeInfo(to, 0)) ==>
      (&& m.pos < |slots| && slots[m.pos].Key() == key && slots[m.pos].SecondKey() == m.secondKey
       && from <= m.secondKey < to && FirstOfItsKeys(slots, m.pos))
    ensures forall p :: 0 <= p < |slots| && FirstOfItsKeys(slots, p) && slots[p].Key() == key && from <= slots[p].SecondKey() < to ==>
      NodeInfo(slots[p].SecondKey(), p) in SubSet(index[key], NodeInfo(from, 0), NodeInfo(to, 0))
  {
    var sub := SubSet(index[key], NodeInfo(from, 0), NodeInfo(to, 0));
    forall m | m in sub
      ensures m.pos < |slots| && slots[m.pos].Key() == key && slots[m.pos].SecondKey() == m.secondKey
      ensures from <= m.secondKey < to && FirstOfItsKeys(slots, m.pos)
    {
      assert m in index[key];
    }
  }
}
