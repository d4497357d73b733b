# LocationServer storage engine in Dafny

This project models `StorageRepositoryImpl`, the storage engine of the
LocationServer. The engine keeps geolocation samples (`LocationData`: an
entity id, a millisecond timestamp and two coordinates) in one append-only
data file. The file is cut into fixed 200-byte slots. Each slot holds the
JSON text of one sample, padded with zero bytes.

The engine's state has three parts:

- the file;
- the write frontier `currentPosition`, the next free slot;
- the key index, a map from entity id to an ordered set of
  `NodeInfo(timestamp, slot)`.

`write` encodes a sample into the frontier slot, adds a node for it to the
index and advances the frontier. On start-up, `loadKeyIndex` rebuilds the
frontier and the index by scanning the slots from 0 until a read reports end
of file. The queries (`findLastLocation`, `findHistory`,
`getAllLastLocation`) find nodes in the index and decode the slots they name.

Modules, one file each:

- `Domain` (domain.dfy): the sample and an `Option` type.
- `SlotFile` (slot_file.dfy): the file as a byte sequence, and slot
  addressing.
- `Codec` (codec.dfy): `fromByteBuffer`, `String.trim` on bytes, and the
  JSON mapper as a parameter.
- `KeyIndex` (key_index.dfy): `NodeInfo` ordering, `TreeSet` operations and
  `addIndex`.
- `Storage` (storage.dfy): the engine itself, as the class
  `StorageRepositoryImpl`.

The central invariant is `Storage.Consistent`. It says:

- the file has exactly `currentPosition` slots;
- slot `k` decodes to the `k`-th stored sample;
- the index equals `BuildIndex` of the stored samples, that is, what calling
  `addIndex` on each slot in slot order produces.

`KeyIndex.BuildIndexMirrors` turns that into a direct description of the
index. Every node names the first slot that holds its (id, timestamp) pair,
and every such first slot is indexed.

Three behaviours of the code could reasonably have been designed otherwise.
The model follows the code in each:

- **Index ordering.** Index nodes are ordered and compared by timestamp
  alone (`NodeInfo.compareTo`). A second sample with the same id and
  timestamp is written to the file, but `TreeSet.add` drops its node, so the
  earlier slot stays indexed (`KeyIndex.CollidingAppendKeepsIndex`). A
  (timestamp, slot) key would keep both nodes; the code keeps the first.
- **Undecodable slot during recovery.** A slot that does not decode yields
  `null`. `addIndex` then dereferences it, and the exception escapes
  `loadKeyIndex`, so recovery stops and installs nothing
  (`LoadOutcome.CorruptSlot`). It does not skip the slot.
- **Empty results.** `findHistory` with `startTime > endTime` on a present
  key makes `TreeSet.subSet` throw. `findLastLocation` on an absent key
  dereferences `null`. Both are preconditions here, not empty results.

## Model

| member | source | states |
|---|---|---|
| SlotFile.FilePosition | src/main/java/net/flycamel/locationserver/domain/StorageRepositoryImpl.java:211-213 | slot `pos` starts at a multiple of 200 bytes, and dividing that offset by 200 gives back `pos` |
| SlotFile.SlotOfOffset | src/main/java/net/flycamel/locationserver/domain/StorageRepositoryImpl.java:211-213 | a byte offset lies in the range of slot `pos` (starting at `pos * 200`, 200 bytes long) exactly when `pos == offset / 200`, so every byte belongs to one slot |
| SlotFile.SlotsDisjoint | src/main/java/net/flycamel/locationserver/domain/StorageRepositoryImpl.java:211-213 | the byte ranges of two distinct slots do not overlap |
| SlotFile.WriteAtContents | src/main/java/net/flycamel/locationserver/domain/StorageRepositoryImpl.java:203 | a positioned write puts the data at the offset, keeps the bytes before and after it, and fills a gap past the old end with zeros |
| SlotFile.ReadAt | src/main/java/net/flycamel/locationserver/domain/StorageRepositoryImpl.java:138-141 | a positioned read into a 200-byte buffer reports end of file exactly when the offset is at or past the end; otherwise the buffer is 200 bytes long |
| SlotFile.EndOfFileAtFrontier | src/main/java/net/flycamel/locationserver/domain/StorageRepositoryImpl.java:139-142 | in a file whose last byte lies in slot `frontier - 1`, reading slot `k` reports end of file exactly when `k >= frontier` |
| SlotFile.AppendAtFrontier | src/main/java/net/flycamel/locationserver/domain/StorageRepositoryImpl.java:196-209 | writing an encoding of at most 200 bytes at the frontier slot makes that slot read back as the encoding padded with zeros, leaves every earlier slot's bytes unchanged, and moves the frontier up by one |
| Codec.Trim | src/main/java/net/flycamel/locationserver/domain/StorageRepositoryImpl.java:183 | the trimmed text is a contiguous slice of the buffer; every byte outside it is at or below 0x20; when it is non-empty, it starts and ends with a byte above 0x20 |
| Codec.TrimAllBlank | src/main/java/net/flycamel/locationserver/domain/StorageRepositoryImpl.java:183 | a buffer of bytes at or below 0x20 only, such as an all-zero one, trims to the empty text |
| Codec.FromByteBuffer | src/main/java/net/flycamel/locationserver/domain/StorageRepositoryImpl.java:178-189 | with a mapper whose encodings parse back, a buffer whose trimmed text is a sample's encoding decodes to that sample |
| Codec.TrimPadded | src/main/java/net/flycamel/locationserver/domain/StorageRepositoryImpl.java:178-189 | trimming a JSON text followed by any number of zero padding bytes gives back exactly the text |
| Codec.ReadBackEncoded | src/main/java/net/flycamel/locationserver/domain/StorageRepositoryImpl.java:178-189 | with a mapper whose encodings parse back, decoding a slot buffer that holds a sample's encoding plus zero padding yields that sample |
| KeyIndex.CompareTo | src/main/java/net/flycamel/locationserver/domain/StorageRepositoryImpl.java:220-223 | nodes compare below, equal or above exactly as their timestamps do; the slot number is never consulted |
| KeyIndex.InsertSpec | src/main/java/net/flycamel/locationserver/domain/StorageRepositoryImpl.java:125 | `TreeSet.add` on an ordered set keeps it strictly ascending; if a node with the same timestamp is present the set is unchanged, otherwise it grows by one and holds exactly the old nodes plus the new one |
| KeyIndex.SubSet | src/main/java/net/flycamel/locationserver/domain/StorageRepositoryImpl.java:62 | `subSet(from, to)` holds exactly the nodes comparing at or above `from` and below `to`, and stays ascending; it is only defined for `from <= to` |
| KeyIndex.Last | src/main/java/net/flycamel/locationserver/domain/StorageRepositoryImpl.java:54 | `TreeSet.last` is an element of the set, and of an ascending set, one whose timestamp is at least that of every element |
| KeyIndex.AddIndex | src/main/java/net/flycamel/locationserver/domain/StorageRepositoryImpl.java:117-132 | a new key gets a one-node set; a present key's set gains the node unless its timestamp is already there, in which case the whole index is unchanged; other keys keep their sets; the key set grows by exactly the sample's id; no set is ever empty or unordered |
| KeyIndex.BuildIndex | src/main/java/net/flycamel/locationserver/domain/StorageRepositoryImpl.java:92-104 | the index the recovery loop builds by calling `addIndex` on each slot's sample in slot order, starting from an empty map; every node set in it is non-empty and ascending |
| KeyIndex.BuildIndexAppend | src/main/java/net/flycamel/locationserver/domain/StorageRepositoryImpl.java:96-99 | states the defining equation of `BuildIndex` for one more slot, which is one iteration of the recovery loop: `addIndex` of the new slot's sample under its slot number, applied to the replay of the earlier slots |
| KeyIndex.AppendedIsFirst | src/main/java/net/flycamel/locationserver/domain/StorageRepositoryImpl.java:118-129 | a newly appended slot gets a node exactly when no earlier slot holds the same id and timestamp |
| KeyIndex.BuildIndexMirrors | src/main/java/net/flycamel/locationserver/domain/StorageRepositoryImpl.java:87-111 | the replayed index is sound and complete: every node names an existing slot below the frontier with that id and timestamp, the first such slot, and every first slot of an (id, timestamp) pair is indexed |
| KeyIndex.IndexedKeys | src/main/java/net/flycamel/locationserver/domain/StorageRepositoryImpl.java:87-111 | the keys of the replayed index are exactly the ids held by the slots |
| KeyIndex.LastIsLatest | src/main/java/net/flycamel/locationserver/domain/StorageRepositoryImpl.java:54-55 | the last node of a key's set names the first slot holding that key's greatest timestamp; no slot of that key has a later timestamp |
| KeyIndex.LastAfterAppend | src/main/java/net/flycamel/locationserver/domain/StorageRepositoryImpl.java:191-194 | appending a sample later than every earlier sample of its id makes its own node, at its slot, the last node of that id |
| KeyIndex.CollidingAppendKeepsIndex | src/main/java/net/flycamel/locationserver/domain/StorageRepositoryImpl.java:124-127 | appending a sample whose id and timestamp an earlier slot already holds leaves the replayed index unchanged, so the earlier slot stays the one indexed |
| KeyIndex.SubSetOfIndex | src/main/java/net/flycamel/locationserver/domain/StorageRepositoryImpl.java:62 | the `subSet` of a key's set is ascending and holds exactly the indexed slots of that key whose timestamp lies in `[from, to)` |
| Storage.ReadOneData | src/main/java/net/flycamel/locationserver/domain/StorageRepositoryImpl.java:159-176 | `readOneData` ignores end of file: a slot at or past the end leaves the buffer all zeros, which trims to the empty text, so the result is what the mapper makes of the empty text |
| Storage.ReadData | src/main/java/net/flycamel/locationserver/domain/StorageRepositoryImpl.java:134-157 | `readData` signals end of file exactly when the slot starts at or past the end of the file, and otherwise yields what `readOneData` decodes for that slot |
| Storage.RecoveryIsUnique | src/main/java/net/flycamel/locationserver/domain/StorageRepositoryImpl.java:87-111 | two consistent states over the same file have the same frontier, samples and index: the file alone determines what recovery must rebuild |
| Storage.ScanComplete | src/main/java/net/flycamel/locationserver/domain/StorageRepositoryImpl.java:100-107 | a scan that reached end of file with every slot decoded yields a consistent state, the only one for that file |
| Storage.AppendKeepsConsistent | src/main/java/net/flycamel/locationserver/domain/StorageRepositoryImpl.java:191-194 | writing a sample's encoding at the frontier slot, adding it to the index under that slot and advancing the frontier preserves the consistency invariant with the sample appended |
| Storage.ReadAll | src/main/java/net/flycamel/locationserver/domain/StorageRepositoryImpl.java:63-65 | states the definition: one `readOneData` result per node, in the nodes' order; what that list holds is `HistoryIsRange` |
| Storage.HistoryIsRange | src/main/java/net/flycamel/locationserver/domain/StorageRepositoryImpl.java:60-67 | the history of a present key lists exactly the indexed samples of that key with `from <= timestamp < to`, each read back from its slot, strictly ascending by timestamp, and is empty when `from == to` |
| Storage.StorageRepositoryImpl.constructor | src/main/java/net/flycamel/locationserver/domain/StorageRepositoryImpl.java:78-85 | the opened data file holds the given contents; the frontier, the index and the stored samples start empty |
| Storage.StorageRepositoryImpl.Save | src/main/java/net/flycamel/locationserver/domain/StorageRepositoryImpl.java:47-50 | `save` returns its argument and appends it; a sample later than every earlier sample of its id is what `findLastLocation` returns right afterwards; a sample colliding with an earlier (id, timestamp) leaves the index unchanged |
| Storage.StorageRepositoryImpl.Write | src/main/java/net/flycamel/locationserver/domain/StorageRepositoryImpl.java:191-194 | the sample's encoding is written at the old frontier slot and indexed under that slot, the frontier grows by exactly one, the stored samples gain the sample, and the consistency invariant is kept |
| Storage.StorageRepositoryImpl.WriteTo | src/main/java/net/flycamel/locationserver/domain/StorageRepositoryImpl.java:196-209 | the file becomes the old file with the sample's encoding written at the start of slot `pos`; nothing else changes |
| Storage.StorageRepositoryImpl.AddIndex | src/main/java/net/flycamel/locationserver/domain/StorageRepositoryImpl.java:113-115 | the engine's own index becomes `addIndex` of the old index; nothing else changes |
| Storage.StorageRepositoryImpl.ScanSlots | src/main/java/net/flycamel/locationserver/domain/StorageRepositoryImpl.java:87-104 | the scan reads slots 0, 1, 2 ... in order; every scanned slot decoded to the matching loaded sample and the index is their replay; it ends at end of file, or at the first slot that does not decode, which it reports |
| Storage.StorageRepositoryImpl.LoadKeyIndex | src/main/java/net/flycamel/locationserver/domain/StorageRepositoryImpl.java:87-111 | recovery succeeds exactly when every slot of the file decodes, and then installs the consistent state; otherwise it reports the first undecodable slot and changes nothing; on a file the engine wrote itself it changes nothing |
| Storage.StorageRepositoryImpl.FindLastLocation | src/main/java/net/flycamel/locationserver/domain/StorageRepositoryImpl.java:53-57 | for an indexed id it returns a stored sample of that id whose timestamp is at least that of every stored sample of that id, the first slot holding that timestamp |
| Storage.StorageRepositoryImpl.FindHistory | src/main/java/net/flycamel/locationserver/domain/StorageRepositoryImpl.java:60-67 | an absent id gives the empty list; otherwise exactly the indexed samples of the id with `startTime <= timestamp < endTime`, strictly ascending by timestamp; empty when `startTime == endTime` |
| Storage.StorageRepositoryImpl.GetAllLastLocation | src/main/java/net/flycamel/locationserver/domain/StorageRepositoryImpl.java:70-75 | the result holds exactly one entry per indexed id, that id's last sample as `findLastLocation` reads it, in no particular order |

## Left out

- Storage.StorageRepositoryImpl.Write: does not model the 32-bit wrap-around of `currentPosition` (`AtomicInteger`). Slot numbers are unbounded naturals here, so the frontier never wraps after 2^31 writes.
- Storage.StorageRepositoryImpl.Write: requires the sample's encoding to fit in one slot (200 bytes). `writeTo` does not check the length: a longer encoding runs into the next slot, and the model does not cover that case.
- Storage.StorageRepositoryImpl.Save: carries the same one-slot precondition as `Write`.
- Storage.StorageRepositoryImpl.FindLastLocation: requires the id to be indexed. The source throws a `NullPointerException` for an absent id, and the model does not represent exceptions.
- Storage.StorageRepositoryImpl.FindHistory: requires `startTime <= endTime` when the id is indexed, because `TreeSet.subSet` throws `IllegalArgumentException` otherwise.
- Storage.StorageRepositoryImpl.LoadKeyIndex: when a slot does not decode, the source's exception leaves the object without an index or frontier and start-up fails. The model instead reports `CorruptSlot` and keeps the fields it had.
- SlotFile.WriteAt: assumes that a write past the end leaves zeros in the gap, as a hole in a sparse file does. `FileChannel.write` leaves those bytes unspecified. A sample's encoding is shorter than its slot, so the gap is the padding of the previous slot, and proving that slot still decodes depends on that padding being blank.
- Codec.Sound: assumes the mapper returns exactly the sample it encoded. For coordinates, that holds only up to NaN bit patterns: Jackson writes every NaN as `NaN` and reads it back as the standard NaN, so another NaN bit pattern does not come back unchanged.
- Timestamps (`long`) are unbounded integers. The source never does arithmetic on them, only comparison.
- Coordinates (`double`) are kept as 64-bit patterns and never computed with. Floating point is not part of this model.
- Jackson's `ObjectMapper` is not part of this model. It is the parameter `Codec`, and `Sound` states what the engine relies on: every encoding starts and ends with a non-blank byte and parses back to the same sample.
- The platform charset decoding in `new String(buffer.array())` is not modelled. Trimming works on bytes, which agrees with the source for every byte at or below 0x20.
- I/O faults and `exit(n)` in `openDataFile`, `readData`, `readOneData` and `writeTo` are left out, as is the unreachable `return null` after them.
- Short reads and writes are left out. A positioned read returns everything available up to 200 bytes, and a write writes the whole buffer.
- Concurrency is left out: `synchronized`, `AtomicInteger`, `ConcurrentHashMap.compute` and `parallelStream`. Every call runs alone.
- `init` is the constructor followed by `LoadKeyIndex`. The Spring annotations and the configured file name are left out.
- Logging is left out.
- The `getAllLastLocation` result is a set rather than a list. The list's order is unspecified, and ids are distinct, so no entry is lost.
- Appending several samples in one step has no lemma of its own. It follows by applying `Write`'s contract once per call, which keeps `Valid()` and adds exactly one slot each time.
- The distance computation (DistanceServiceImpl.java) is left out because it is floating-point trigonometry.
- The service layer (LocationDataServiceImpl.java) is thin filtering and sorting over `double` distances, and is left out.
- The gRPC layer (LocationService.java, LocationAssembler.java) is left out.
- The interface-only files (StorageRepository.java, LocationDataService.java, Indexable.java) have no behaviour to model.
