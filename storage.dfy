/** The storage engine `StorageRepositoryImpl`: the slot file, the write
    frontier `currentPosition` and the key index, with append, recovery and
    the three queries. Each call runs alone, as if every call were atomic. */
module Storage {
  import opened Domain
  import opened SlotFile
  import opened Codec
  import opened KeyIndex

  /** `readOneData`: decode slot `pos`, not checking for end of file. A slot
      at or past the end leaves the buffer all zeros, which trims to the
      empty text, so the mapper is handed the empty text. */
  function ReadOneData(c: Codec, file: seq<byte>, pos: nat): (r: Option<LocationData>)
    ensures |file| <= FilePosition(pos) ==> r == c.parse([])
  {
    TrimAllBlank(SlotBuffer(file, pos));
    FromByteBuffer(c, SlotBuffer(file, pos))
  }

  /** What `readData` yields: an `EOFException`, or the decoded entity
      (`None` for the `null` a rejected slot decodes to). */
  datatype SlotRead = Eof | Entity(entity: Option<LocationData>)

  /** `readData`: end of file exactly when the slot starts at or past the end
      of the file, otherwise what `readOneData` returns for that slot. */
  function ReadData(c: Codec, file: seq<byte>, pos: nat): (r: SlotRead)
    ensures r.Eof? <==> |file| <= FilePosition(pos)
    ensures r.Entity? ==> r.entity == ReadOneData(c, file, pos)
  {
    match ReadAt(file, FilePosition(pos))
    case EndOfFile => Eof
    case Bytes(b) => Entity(FromByteBuffer(c, b))
  }

  /** The engine's consistency invariant. `slots` lists the samples the file
      holds: the file has exactly `frontier` slots, slot `k` decodes to
      `slots[k]`, and the index is what adding the slots in slot order builds. */
  ghost predicate Consistent(c: Codec, file: seq<byte>, frontier: nat, index: Index, slots: seq<LocationData>)
  {
    && Sound(c)
    && FrontierOf(file, frontier)
    && |slots| == frontier
    && (forall k {:trigger ReadOneData(c, file, k)} :: 0 <= k < frontier ==> ReadOneData(c, file, k) == Some(slots[k]))
    && index == BuildIndex(slots)
  }

  /** The file alone determines a consistent state: restarting on a file
      rebuilds the frontier, the samples and the index it was written with. */
  lemma RecoveryIsUnique(c: Codec, file: seq<byte>,
                         n1: nat, index1: Index, slots1: seq<LocationData>,
                         n2: nat, index2: Index, slots2: seq<LocationData>)
    requires Consistent(c, file, n1, index1, slots1)
    requires Consistent(c, file, n2, index2, slots2)
    ensures n1 == n2 && slots1 == slots2 && index1 == index2
  {
    FrontierUnique(file, n1, n2);
    forall k | 0 <= k < n1
      ensures slots1[k] == slots2[k]
    {
      assert Some(slots1[k]) == ReadOneData(c, file, k) == Some(slots2[k]);
    }
  }

  /** Every slot that starts inside the file decodes to a sample. */
  ghost predicate AllSlotsDecode(c: Codec, file: seq<byte>)
  {
    forall k :: FilePosition(k) < |file| ==> ReadOneData(c, file, k).Some?
  }

  /** A consistent file has no slot that fails to decode. */
  lemma ConsistentDecodes(c: Codec, file: seq<byte>, frontier: nat, index: Index, slots: seq<LocationData>)
    ensures Consistent(c, file, frontier, index, slots) ==> AllSlotsDecode(c, file)
  {
    if Consistent(c, file, frontier, index, slots) {
      forall k | FilePosition(k) < |file|
        ensures ReadOneData(c, file, k).Some?
      {
        EndOfFileAtFrontier(file, frontier, k);
      }
    }
  }

  /** The state of recovery after scanning slots `0 .. pos - 1`: each of them
      decoded to the matching sample of `loaded`, and `index` is built from
      those samples in slot order. */
  ghost predicate Scanned(c: Codec, file: seq<byte>, pos: nat, index: Index, loaded: seq<LocationData>)
  {
    && |loaded| == pos
    && (pos == 0 || FilePosition(pos - 1) < |file|)
    && (forall k :: 0 <= k < pos ==> ReadOneData(c, file, k) == Some(loaded[k]))
    && index == BuildIndex(loaded)
  }

  /** A slot that decodes extends the scan by one sample. */
  lemma ScanStep(c: Codec, file: seq<byte>, pos: nat, index: Index, loaded: seq<LocationData>, e: LocationData)
    requires Scanned(c, file, pos, index, loaded)
    requires ReadData(c, file, pos) == Entity(Some(e))
    ensures Scanned(c, file, pos + 1, AddIndex(index, e, pos), loaded + [e])
    ensures pos < |file|
  {
    BuildIndexAppend(loaded, e);
    ScanReads(c, file, pos, loaded, e);
  }

  lemma ScanReads(c: Codec, file: seq<byte>, pos: nat, loaded: seq<LocationData>, e: LocationData)
    requires |loaded| == pos
    requires forall k :: 0 <= k < pos ==> ReadOneData(c, file, k) == Some(loaded[k])
    requires ReadData(c, file, pos) == Entity(Some(e))
    ensures FilePosition(pos) < |file|
    ensures forall k :: 0 <= k < pos + 1 ==> ReadOneData(c, file, k) == Some((loaded + [e])[k])
  {
    forall k | 0 <= k < pos + 1
      ensures ReadOneData(c, file, k) == Some((loaded + [e])[k])
    {
      if k < pos {
        assert (loaded + [e])[k] == loaded[k];
      }
    }
  }

  /** A scan that reaches end of file has found the consistent state, and
      the only one: any consistent state of the same file is the same. */
  lemma ScanComplete(c: Codec, file: seq<byte>, pos: nat, index: Index, loaded: seq<LocationData>,
                     n0: nat, index0: Index, slots0: seq<LocationData>)
    requires Sound(c)
    requires Scanned(c, file, pos, index, loaded)
    requires |file| <= FilePosition(pos)
    ensures Consistent(c, file, pos, index, loaded)
    ensures AllSlotsDecode(c, file)
    ensures Consistent(c, file, n0, index0, slots0) ==> n0 == pos && index0 == index && slots0 == loaded
  {
    ConsistentDecodes(c, file, pos, index, loaded);
    if Consistent(c, file, n0, index0, slots0) {
      RecoveryIsUnique(c, file, pos, index, loaded, n0, index0, slots0);
    }
  }

  /** A scan that meets a slot that does not decode shows the file has one. */
  lemma ScanCorrupt(c: Codec, file: seq<byte>, pos: nat, index: Index, loaded: seq<LocationData>)
    requires Scanned(c, file, pos, index, loaded)
    requires ReadData(c, file, pos) == Entity(None)
    ensures FilePosition(pos) < |file| && ReadOneData(c, file, pos) == None
    ensures !AllSlotsDecode(c, file)
  {
  }

  /** Appending a sample whose encoding fits in one slot, at the frontier,
      keeps the state consistent: the sample becomes slot `frontier`, the
      frontier moves up by one and the index gains the sample. */
  lemma AppendKeepsConsistent(c: Codec, file: seq<byte>, frontier: nat, index: Index, slots: seq<LocationData>, e: LocationData)
    requires Consistent(c, file, frontier, index, slots)
    requires |c.encode(e)| <= NodeLength
    ensures Consistent(c, WriteAt(file, FilePosition(frontier), c.encode(e)), frontier + 1,
                       AddIndex(index, e, frontier), slots + [e])
  {
    AppendedSlotsRead(c, file, frontier, slots, e);
    BuildIndexAppend(slots, e);
  }

  lemma AppendedSlotsRead(c: Codec, file: seq<byte>, frontier: nat, slots: seq<LocationData>, e: LocationData)
    requires Sound(c) && FrontierOf(file, frontier) && |slots| == frontier
    requires forall k :: 0 <= k < frontier ==> ReadOneData(c, file, k) == Some(slots[k])
    requires |c.encode(e)| <= NodeLength
    ensures FrontierOf(WriteAt(file, FilePosition(frontier), c.encode(e)), frontier + 1)
    ensures forall k :: 0 <= k < frontier + 1 ==> ReadOneData(c, WriteAt(file, FilePosition(frontier), c.encode(e)), k) == Some((slots + [e])[k])
  {
    var data := c.encode(e);
    var f' := WriteAt(file, FilePosition(frontier), data);
    AppendAtFrontier(file, frontier, data);
    AppendedSlotRead(c, f', frontier, e);
    forall k | 0 <= k < frontier
      ensures ReadOneData(c, f', k) == Some(slots[k])
    {
      SameBufferSameRead(c, f', file, k);
    }
  }

  lemma AppendedSlotRead(c: Codec, f: seq<byte>, pos: nat, e: LocationData)
    requires Sound(c) && |c.encode(e)| <= NodeLength
    requires SlotBuffer(f, pos) == c.encode(e) + Zeros(NodeLength - |c.encode(e)|)
    ensures ReadOneData(c, f, pos) == Some(e)
  {
    ReadBackEncoded(c, e, NodeLength - |c.encode(e)|);
  }

  lemma SameBufferSameRead(c: Codec, f1: seq<byte>, f2: seq<byte>, pos: nat)
    requires SlotBuffer(f1, pos) == SlotBuffer(f2, pos)
    ensures ReadOneData(c, f1, pos) == ReadOneData(c, f2, pos)
  {
  }

  /** The records `findHistory` reads for the nodes of a key's `subSet`. */
  function ReadAll(c: Codec, file: seq<byte>, nodes: seq<NodeInfo>): (r: seq<Option<LocationData>>)
    ensures |r| == |nodes|
    ensures forall i :: 0 <= i < |nodes| ==> r[i] == ReadOneData(c, file, nodes[i].pos)
  {
    seq(|nodes|, i requires 0 <= i < |nodes| => ReadOneData(c, file, nodes[i].pos))
  }

  /** `r` lists exactly the samples of `key` with a timestamp in `[from,
      to)` that the index keeps (for each such timestamp, the first slot
      stored with it), strictly ascending by timestamp. */
  ghost predicate HistoryOf(r: seq<Option<LocationData>>, slots: seq<LocationData>, key: string, from: int, to: int)
  {
    && (forall i :: 0 <= i < |r| ==>
          && r[i].Some? && r[i].value.Key() == key && from <= r[i].value.SecondKey() < to
          && exists p :: 0 <= p < |slots| && FirstOfItsKeys(slots, p) && r[i] == Some(slots[p]))
    && (forall i, j :: 0 <= i < j < |r| ==> r[i].Some? && r[j].Some? && r[i].value.SecondKey() < r[j].value.SecondKey())
    && (forall p :: 0 <= p < |slots| && FirstOfItsKeys(slots, p) && slots[p].Key() == key && from <= slots[p].SecondKey() < to
          ==> Some(slots[p]) in r)
  }

  /** A history is exactly the indexed samples of `key` with a timestamp in
      `[from, to)`, each read back from its slot, in ascending timestamp
      order. */
  lemma HistoryIsRange(c: Codec, file: seq<byte>, frontier: nat, index: Index, slots: seq<LocationData>,
                       key: string, from: int, to: int)
    requires Consistent(c, file, frontier, index, slots)
    requires key in index && from <= to
    ensures HistoryOf(ReadAll(c, file, SubSet(index[key], NodeInfo(from, 0), NodeInfo(to, 0))), slots, key, from, to)
    ensures from == to ==> ReadAll(c, file, SubSet(index[key], NodeInfo(from, 0), NodeInfo(to, 0))) == []
  {
    var sub := SubSet(index[key], NodeInfo(from, 0), NodeInfo(to, 0));
    BuildIndexMirrors(slots);
    SubSetOfIndex(index, slots, key, from, to);
    ReadNodes(c, file, slots, sub);
    RangeOfNodes(slots, key, from, to, sub, ReadAll(c, file, sub));
  }

  /** Reading nodes that name existing slots yields the samples of those slots. */
  lemma ReadNodes(c: Codec, file: seq<byte>, slots: seq<LocationData>, nodes: seq<NodeInfo>)
    requires forall k :: 0 <= k < |slots| ==> ReadOneData(c, file, k) == Some(slots[k])
    requires forall m :: m in nodes ==> m.pos < |slots|
    ensures forall i :: 0 <= i < |nodes| ==> nodes[i].pos < |slots| && ReadAll(c, file, nodes)[i] == Some(slots[nodes[i].pos])
  {
    assert forall i :: 0 <= i < |nodes| ==> nodes[i] in nodes;
  }

  lemma RangeOfNodes(slots: seq<LocationData>, key: string, from: int, to: int, sub: seq<NodeInfo>, r: seq<Option<LocationData>>)
    requires Ascending(sub)
    requires forall m :: m in sub ==>
      && m.pos < |slots| && slots[m.pos].Key() == key && slots[m.pos].SecondKey() == m.secondKey
      && from <= m.secondKey < to && FirstOfItsKeys(slots, m.pos)
    requires forall p ::
      0 <= p < |slots| && FirstOfItsKeys(slots, p) && slots[p].Key() == key && from <= slots[p].SecondKey() < to ==>
      NodeInfo(slots[p].SecondKey(), p) in sub
    requires |r| == |sub| && forall i :: 0 <= i < |sub| ==> r[i] == Some(slots[sub[i].pos])
    ensures HistoryOf(r, slots, key, from, to)
    ensures from == to ==> sub == []
  {
    forall i | 0 <= i < |r|
      ensures sub[i] in sub && r[i] == Some(slots[sub[i].pos])
      ensures r[i].Some? && r[i].value.Key() == key && from <= r[i].value.SecondKey() < to
      ensures exists p :: 0 <= p < |slots| && FirstOfItsKeys(slots, p) && r[i] == Some(slots[p])
    {
      assert sub[i] in sub;
    }
    forall i, j | 0 <= i < j < |r|
      ensures r[i].Some? && r[j].Some? && r[i].value.SecondKey() < r[j].value.SecondKey()
    {
      assert sub[i] in sub && sub[j] in sub;
    }
    forall p | 0 <= p < |slots| && FirstOfItsKeys(slots, p) && slots[p].Key() == key && from <= slots[p].SecondKey() < to
      ensures Some(slots[p]) in r
    {
      var i :| 0 <= i < |sub| && sub[i] == NodeInfo(slots[p].SecondKey(), p);
      assert r[i] == Some(slots[p]);
    }
    if sub != [] {
      assert sub[0] in sub;
    }
  }

  /** How recovery ended: the whole file was indexed, or slot `pos` did not
      decode, its `null` entity made `addIndex` fail and nothing was
      installed. */
  datatype LoadOutcome = Loaded | CorruptSlot(pos: nat)

  class StorageRepositoryImpl {
    /** `jsonMapper` */
    const codec: Codec
    /** the content of the data file behind `fc` */
    var file: seq<byte>
    /** the write frontier: the next free slot */
    var currentPosition: nat
    var keyIndex: Index
    /** the samples the file's slots hold, in slot order */
    ghost var slots: seq<LocationData>

    ghost predicate Valid()
      reads this
    {
      Consistent(codec, file, currentPosition, keyIndex, slots)
    }

    /** Construction and `openDataFile`: the data file holds `contents`;
        `init` then runs `LoadKeyIndex`. */
    constructor (c: Codec, contents: seq<byte>)
      ensures codec == c && file == contents
      ensures currentPosition == 0 && keyIndex == map[] && slots == []
    {
      codec := c;
      file := contents;
      currentPosition := 0;
      keyIndex := map[];
      slots := [];
    }

    /** `save`: append `entity` and hand it back. */
    method Save(entity: LocationData) returns (saved: LocationData)
      requires Valid()
      requires |codec.encode(entity)| <= NodeLength
      modifies this
      ensures Valid()
      ensures saved == entity
      ensures slots == old(slots) + [entity]
      ensures currentPosition == old(currentPosition) + 1
      ensures (forall j :: 0 <= j < |old(slots)| && old(slots)[j].Key() == entity.Key() ==> old(slots)[j].SecondKey() < entity.SecondKey())
              ==> FindLastLocation(entity.Key()) == Some(entity)
      ensures (exists j :: 0 <= j < |old(slots)| && old(slots)[j].Key() == entity.Key() && old(slots)[j].SecondKey() == entity.SecondKey())
              ==> keyIndex == old(keyIndex)
    {
      ghost var before := slots;
      Write(entity);
      saved := entity;
      if forall j :: 0 <= j < |before| && before[j].Key() == entity.Key() ==> before[j].SecondKey() < entity.SecondKey() {
        LastAfterAppend(before, entity);
      }
      if j :| 0 <= j < |before| && before[j].Key() == entity.Key() && before[j].SecondKey() == entity.SecondKey() {
        CollidingAppendKeepsIndex(before, entity, j);
      }
    }

    /** `write`: store `entity` at the frontier slot, index it under that
        slot, and advance the frontier by one. */
    method Write(entity: LocationData)
      requires Valid()
      requires |codec.encode(entity)| <= NodeLength
      modifies this
      ensures Valid()
      ensures file == WriteAt(old(file), FilePosition(old(currentPosition)), codec.encode(entity))
      ensures keyIndex == KeyIndex.AddIndex(old(keyIndex), entity, old(currentPosition))
      ensures currentPosition == old(currentPosition) + 1
      ensures slots == old(slots) + [entity]
    {
      ghost var file0, frontier0, index0, slots0 := file, currentPosition, keyIndex, slots;
      WriteTo(entity, currentPosition);
      AddIndex(entity, currentPosition);
      currentPosition := currentPosition + 1;
      slots := slots + [entity];
      AppendKeepsConsistent(codec, file0, frontier0, index0, slots0, entity);
      assert Consistent(codec, file, currentPosition, keyIndex, slots);
    }

    /** `writeTo`: write the encoding of `entity` at the start of slot `pos`. */
    method WriteTo(entity: LocationData, pos: nat)
      modifies this`file
      ensures file == WriteAt(old(file), FilePosition(pos), codec.encode(entity))
    {
      file := WriteAt(file, FilePosition(pos), codec.encode(entity));
    }

    /** `addIndex(entity, pos)`: add to the engine's own index. */
    method AddIndex(entity: LocationData, pos: nat)
      requires WellFormed(keyIndex)
      modifies this`keyIndex
      ensures keyIndex == KeyIndex.AddIndex(old(keyIndex), entity, pos)
    {
      keyIndex := KeyIndex.AddIndex(keyIndex, entity, pos);
    }

    /** The loop of `loadKeyIndex`: read slots 0, 1, 2, ... until a read
        reports end of file, adding each decoded slot to a fresh index under
        its slot number. It stops early at the first slot that does not
        decode, where the source's `addIndex` dereferences a `null` entity
        and throws. */
    method ScanSlots() returns (outcome: LoadOutcome, pos: nat, indexMap: Index, ghost loaded: seq<LocationData>)
      ensures Scanned(codec, file, pos, indexMap, loaded)
      ensures outcome == Loaded ==> |file| <= FilePosition(pos)
      ensures outcome.CorruptSlot? ==> outcome.pos == pos && ReadData(codec, file, pos) == Entity(None)
    {
      indexMap := map[];
      var fullLoaded := false;
      pos := 0;
      loaded := [];
      while !fullLoaded
        invariant Scanned(codec, file, pos, indexMap, loaded)
        invariant fullLoaded ==> |file| <= FilePosition(pos)
        decreases !fullLoaded, |file| - pos
      {
        match ReadData(codec, file, pos)
        case Eof =>
          fullLoaded := true;
        case Entity(entity) =>
          if entity.None? {
            return CorruptSlot(pos), pos, indexMap, loaded;
          }
          ScanStep(codec, file, pos, indexMap, loaded, entity.value);
          indexMap := KeyIndex.AddIndex(indexMap, entity.value, pos);
          loaded := loaded + [entity.value];
          pos := pos + 1;
      }
      outcome := Loaded;
    }

    /** `loadKeyIndex`: scan the slots; when every slot up to end of file
        decoded, install the count of slots read as the frontier and the new
        index. On a file the engine wrote itself this changes nothing. */
    method LoadKeyIndex() returns (outcome: LoadOutcome)
      requires Sound(codec)
      modifies this
      ensures file == old(file)
      ensures outcome == Loaded <==> AllSlotsDecode(codec, file)
      ensures outcome == Loaded ==> Valid()
      ensures outcome.CorruptSlot? ==>
        && FilePosition(outcome.pos) < |file| && ReadOneData(codec, file, outcome.pos) == None
        && (forall k :: 0 <= k < outcome.pos ==> ReadOneData(codec, file, k).Some?)
        && currentPosition == old(currentPosition) && keyIndex == old(keyIndex) && slots == old(slots)
      ensures old(Valid()) ==> outcome == Loaded && currentPosition == old(currentPosition) && keyIndex == old(keyIndex)
    {
      ConsistentDecodes(codec, file, currentPosition, keyIndex, slots);
      var pos, indexMap;
      ghost var loaded;
      outcome, pos, indexMap, loaded := ScanSlots();
      if outcome.CorruptSlot? {
        // `addIndex` threw: nothing is installed
        ScanCorrupt(codec, file, pos, indexMap, loaded);
        return;
      }
      ScanComplete(codec, file, pos, indexMap, loaded, currentPosition, keyIndex, slots);
      currentPosition := pos;
      keyIndex := indexMap;
      slots := loaded;
    }

    /** `findLastLocation`: the sample at the last node of `key`'s set, that
        is a sample of `key` with the greatest timestamp stored for it (the
        first slot stored with that timestamp). An absent key makes the source
        dereference `null`. */
    function FindLastLocation(key: string): (r: Option<LocationData>)
      reads this
      requires Valid()
      requires key in keyIndex
      ensures r.Some? && r.value.Key() == key
      ensures exists p :: 0 <= p < |slots| && FirstOfItsKeys(slots, p) && slots[p] == r.value
      ensures forall j :: 0 <= j < |slots| && slots[j].Key() == key ==> slots[j].SecondKey() <= r.value.SecondKey()
    {
      LastIsLatest(slots, key);
      ReadOneData(codec, file, Last(keyIndex[key]).pos)
    }

    /** `findHistory`: the samples of `key` with `startTime <= timestamp <
        endTime`, ascending by timestamp; empty for an absent key. A present
        key with `startTime > endTime` makes `subSet` throw. */
    function FindHistory(key: string, startTime: int, endTime: int): (r: seq<Option<LocationData>>)
      reads this
      requires Valid()
      requires key in keyIndex ==> startTime <= endTime
      ensures key !in keyIndex ==> r == []
      ensures startTime == endTime ==> r == []
      ensures HistoryOf(r, slots, key, startTime, endTime)
    {
      if key in keyIndex then
        HistoryIsRange(codec, file, currentPosition, keyIndex, slots, key, startTime, endTime);
        ReadAll(codec, file, SubSet(keyIndex[key], NodeInfo(startTime, 0), NodeInfo(endTime, 0)))
      else
        // no slot holds `key`, so its history is empty
        BuildIndexMirrors(slots);
        []
    }

    /** `getAllLastLocation`: one sample per indexed key, that key's last
        sample; the source's list has no particular order. */
    function GetAllLastLocation(): (r: set<Option<LocationData>>)
      reads this
      requires Valid()
      ensures forall x :: x in r ==> x.Some? && x.value.Key() in keyIndex && x == FindLastLocation(x.value.Key())
      ensures forall key :: key in keyIndex ==> FindLastLocation(key) in r
    {
      // per key, `TreeSet::last` then `readOneData`: what `findLastLocation` reads
      set key | key in keyIndex :: FindLastLocation(key)
    }
  }
}
