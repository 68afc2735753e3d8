# ARGoS core, modelled in Dafny

This project models the core of ARGoS, a simulator for large swarms of robots. The model covers these parts:

- **Byte arrays** (`CByteArray`). Big-endian integer and NUL-terminated string serialisation, buffer append and fetch.
- **Sorted sets** (`CSet`). A sorted linked list without duplicates.
- **Positional indices.**
  - The uniform grid (`CGrid`): cell clamping, cell updates and timestamps, whole-grid and box iteration, and the ray walk.
  - The native and generic space hashes (`CSpaceHashNative`, `CSpaceHash`): buckets keyed by a cell hash, timestamps, and the cell test.
- **The space** (`CSpace`). The entity registry by id, by type and as a tree; adding entities to physics engines; grid generators. Also the thread-balancing quantity arithmetic (`CSpaceMultiThreadBalanceQuantity`).
- **Entities.**
  - Embodied entities: physics-engine anchors, model lookup, origin anchor.
  - Composable entities: the component map, removal and lookup.
  - Component paths and the entity tree operations.
  - The gripper, directional LED and tag equipped entities.
  - The dynamics2d gripper and grippable logic.
- **The command-line argument parser** (`CCommandLineArgParser`).
- **Colours** (`CColor`): setting channels, comparison, printing and parsing.
- **The kilobot controller library** (`kilolib.c`): the Mersenne-Twister seeding and draws, the 8-bit xorshift generator, RGB packing, the uid parser, message transmission, clocks and delays.
- **The Qt-OpenGL main window's experiment state machine.**
- **The Qt-OpenGL OBJ model loader** (`CQTOpenGLObjModel`): material-file parsing, geometry import with vertex de-duplication and face triangulation, mesh building ordered by alpha, and the OpenGL vector generation.

Code that mutates state is modelled as Dafny classes. A class's `seq`/`map` fields stand for the C++ vectors, lists and maps, and methods with `modifies` clauses update them. Each such method is proved against a pure specification function. The properties the source promises (round trips, ordering, permutation, uniqueness, error conditions) are proved as lemmas about those functions.

Fixed-width integer arithmetic is written out explicitly (`% 0x1_0000_0000`, or bit-vectors for the Mersenne Twister). Exceptions thrown by the source (`THROW_ARGOSEXCEPTION`) become `Result.Fail` or `Status.Thrown` values that carry the source's message where it is fixed text.

## Model

| member | source | states |
|---|---|---|
| `ByteArrays.Pow256` | src/core/utility/datatypes/byte_array.cpp:165-336 | the range of an n-byte unsigned value: at least 1, and at least 256 for a non-empty width |
| `ByteArrays.EncodeBE` | src/core/utility/datatypes/byte_array.cpp:165-336 | the network-order (htons/htonl/htonll) encoding of a value has exactly as many bytes as the width |
| `ByteArrays.DecodeBEBound` | src/core/utility/datatypes/byte_array.cpp:176-336 | decoding n bytes in network order yields a value that fits in n bytes |
| `ByteArrays.DecodeEncode` | src/core/utility/datatypes/byte_array.cpp:165-336 | `<<` followed by `>>` of the same width gives back any value that fits the width |
| `ByteArrays.EncodeDecode` | src/core/utility/datatypes/byte_array.cpp:165-336 | re-encoding a decoded value reproduces the same bytes, so the codec is a bijection on n-byte buffers |
| `ByteArrays.EncodeBEMostSignificantFirst` | src/core/utility/datatypes/byte_array.cpp:165-336 | network order puts the most significant byte first |
| `ByteArrays.Half` | src/core/utility/datatypes/byte_array.cpp:147-160 | half of the n-byte range is the bound of the signed type of that width (at least 128) |
| `ByteArrays.ToUnsigned` | src/core/utility/datatypes/byte_array.cpp:189-198 | a signed value reinterpreted as unsigned is itself when non-negative and the value plus 2^(8n) when negative |
| `ByteArrays.ToSigned` | src/core/utility/datatypes/byte_array.cpp:200-211 | an unsigned n-byte value reinterpreted as signed lies in the signed range |
| `ByteArrays.SignedRoundTrip` | src/core/utility/datatypes/byte_array.cpp:189-211 | signed reinterpretation inverts unsigned reinterpretation, so signed `<<`/`>>` round-trips |
| `ByteArrays.UntilNul` | src/core/utility/datatypes/byte_array.cpp:502-515 | the extracted string is the longest NUL-free prefix of the buffer; it stops at a NUL when one follows |
| `ByteArrays.StringConsumed` | src/core/utility/datatypes/byte_array.cpp:502-515 | the number of bytes string extraction erases never exceeds the buffer size |
| `ByteArrays.StringRoundTrip` | src/core/utility/datatypes/byte_array.cpp:489-515 | reading back a NUL-free string written with its terminator returns the string and consumes it plus the terminator |
| `ByteArrays.StringProbeAsWritten` | src/core/utility/datatypes/byte_array.cpp:508-513 | the index the source tests after its scan loop is at most the buffer size |
| `ByteArrays.StringProbeOutOfRange` | src/core/utility/datatypes/byte_array.cpp:508-513 | on a non-empty buffer without a NUL, the source reads `m_vecBuffer[Size()]`, one past the end |
| `ByteArrays.StringProbeExample` | src/core/utility/datatypes/byte_array.cpp:508-513 | a concrete two-byte buffer "AB" that makes the source read past the end |
| `ByteArrays.UntilNulOfPrefix` | src/core/utility/datatypes/byte_array.cpp:506-513 | a NUL-free prefix that ends at a NUL or at the end is exactly the extracted string |
| `ByteArrays.ByteArray.constructor` | src/core/utility/datatypes/byte_array.h:34 | a new byte array is empty |
| `ByteArrays.ByteArray.At` | src/core/utility/datatypes/byte_array.h:156-170 | indexing succeeds exactly for indices below the size and yields that byte |
| `ByteArrays.ByteArray.ToCArray` | src/core/utility/datatypes/byte_array.h:111-125 | the C array is NULL exactly when the byte array is empty; otherwise it starts at the first byte |
| `ByteArrays.ByteArray.Equals` | src/core/utility/datatypes/byte_array.cpp:98-100 | two byte arrays are equal iff they have the same size and the same bytes at every index |
| `ByteArrays.ByteArray.Zero` | src/core/utility/datatypes/byte_array.cpp:81-83 | zeroing keeps the size and sets every byte to 0 |
| `ByteArrays.ByteArray.Assign` | src/core/utility/datatypes/byte_array.cpp:88-93 | assignment copies the other buffer, including self-assignment |
| `ByteArrays.ByteArray.AddBuffer` | src/core/utility/datatypes/byte_array.cpp:105-111 | the first `size` bytes of the source buffer are appended in order |
| `ByteArrays.ByteArray.FetchBuffer` | src/core/utility/datatypes/byte_array.cpp:116-124 | throws (leaving the buffer unchanged) iff more bytes are requested than available; otherwise returns the prefix and removes it |
| `ByteArrays.ByteArray.PushUnsigned` | src/core/utility/datatypes/byte_array.cpp:129-388 | appending an unsigned integer adds its network-order encoding of the given width (the 8-, 16-, 32- and 64-bit `<<`, and the `long` forms that delegate to the 32- or 64-bit one) |
| `ByteArrays.ByteArray.PopUnsigned` | src/core/utility/datatypes/byte_array.cpp:137-388 | extracting throws iff fewer bytes than the width remain; otherwise yields the decoded prefix and removes it (the 8- to 64-bit and `long` `>>`) |
| `ByteArrays.ByteArray.PushSigned` | src/core/utility/datatypes/byte_array.cpp:147-388 | appending a signed integer adds the encoding of its two's-complement reinterpretation (the SInt8/16/32/64 `<<`) |
| `ByteArrays.ByteArray.PopSigned` | src/core/utility/datatypes/byte_array.cpp:155-388 | extracting a signed integer throws iff too few bytes remain; otherwise yields the signed reinterpretation of the decoded prefix |
| `ByteArrays.ByteArray.PopFront` | src/core/utility/datatypes/byte_array.h:208-212 | for an unsigned width, PopFront throws iff too few bytes are held and otherwise returns exactly what `>>` extracts and removes the same bytes |
| `ByteArrays.ByteArray.PopFrontSigned` | src/core/utility/datatypes/byte_array.h:208-212 | for a signed width, PopFront throws iff too few bytes are held and otherwise returns the two's-complement value `>>` extracts, within the signed range, and removes the same bytes |
| `ByteArrays.ByteArray.PushString` | src/core/utility/datatypes/byte_array.cpp:489-497 | a string is appended byte by byte followed by a NUL terminator |
| `ByteArrays.ByteArray.PopString` | src/core/utility/datatypes/byte_array.cpp:502-515 | throws iff the array is empty; otherwise yields the bytes up to the first NUL and erases them and the NUL |
| `ByteArrays.ByteArray.Resize` | src/core/utility/datatypes/byte_array.h:82-85 | resizing keeps the common prefix and fills any new positions with the given value |
| `ByteArrays.ByteArray.Swap` | src/core/utility/datatypes/byte_array.h:91-93 | the two arrays exchange their contents |
| `ByteArrays.ByteArray.Clear` | src/core/utility/datatypes/byte_array.h:133-135 | after clearing, the array is empty and has size 0 |
| `SortedSets.InsertSpec` | src/core/utility/datatypes/set.h:235-281 | inserting into a strictly ascending list keeps it strictly ascending, adds exactly the new element, and grows it by one iff the element was absent |
| `SortedSets.InsertMembers` | src/core/utility/datatypes/set.h:235-281 | after insertion, an element is present iff it was present before or is the inserted one |
| `SortedSets.InsertAscending` | src/core/utility/datatypes/set.h:246-279 | insertion before the first element not smaller than the new one keeps the list strictly ascending |
| `SortedSets.InsertLength` | src/core/utility/datatypes/set.h:261-265 | inserting a present element changes nothing; inserting an absent one adds exactly one node |
| `SortedSets.RemoveSpec` | src/core/utility/datatypes/set.h:287-335 | erasing keeps the list strictly ascending, removes exactly the erased element, and shrinks it by one iff the element was present |
| `SortedSets.RemoveMembers` | src/core/utility/datatypes/set.h:287-335 | after erasure, an element is present iff it was present before and differs from the erased one |
| `SortedSets.RemoveAscending` | src/core/utility/datatypes/set.h:309-334 | unlinking a node keeps the list strictly ascending |
| `SortedSets.RemoveLength` | src/core/utility/datatypes/set.h:309-334 | erasing a present element removes exactly one node |
| `SortedSets.InsertAt` | src/core/utility/datatypes/set.h:247-279 | once the scan stops at the first element not smaller than the new one, the four cases of the source (end of list, already present, new first, middle) give the inserted list |
| `SortedSets.RemoveAt` | src/core/utility/datatypes/set.h:410-425 | the node `find_impl` stops at is removed iff it holds the element, and the list is unchanged otherwise |
| `SortedSets.RemoveAbsent` | src/core/utility/datatypes/set.h:289-292 | erasing an absent element, including from an empty list, leaves the list unchanged |
| `SortedSets.Set.constructor` | src/core/utility/datatypes/set.h:123-126 | a new set is empty and well formed |
| `SortedSets.Set.Scan` | src/core/utility/datatypes/set.h:410-418 | the scan stops at the first element not smaller than the target: every earlier element is smaller |
| `SortedSets.Set.Insert` | src/core/utility/datatypes/set.h:235-281 | the list becomes the sorted insertion of the element, the element is present, and the size grows by one iff it was absent |
| `SortedSets.Set.Exists` | src/core/utility/datatypes/set.h:380-382 | `exists` answers true iff the element is in the set |
| `SortedSets.Set.Erase` | src/core/utility/datatypes/set.h:287-335 | the list becomes the sorted removal of the element, the element is absent, and the size shrinks by one iff it was present |
| `SortedSets.Set.Clear` | src/core/utility/datatypes/set.h:350-373 | after clearing the set is empty with size 0 |
| `SortedSets.Set.Assign` | src/core/utility/datatypes/set.h:152-196 | assignment makes the set hold exactly the other set's elements in the same order |
| `Grid.Clamp` | src/core/simulator/space/positional_indices/grid_impl.h:948-957 | a clamped cell coordinate is always inside the grid; in-range coordinates are kept, negative ones become 0, too-large ones become size-1 |
| `Grid.CellIndexInRange` | src/core/simulator/space/positional_indices/grid_impl.h:976-982 | the flat index I*J*k + I*j + i of a cell inside the grid lies inside the cell array |
| `Grid.CellIndexInjective` | src/core/simulator/space/positional_indices/grid_impl.h:976-982 | distinct cells of the grid have distinct flat indices, so no two cells share storage |
| `Grid.RowShape` | src/core/simulator/space/positional_indices/grid_impl.h:624-641 | the innermost loop over i visits exactly the cells lo..hi of one row, in ascending order, once each |
| `Grid.PlaneShape` | src/core/simulator/space/positional_indices/grid_impl.h:624-641 | the middle loop over j visits exactly the cells of one k-plane of the box, in loop order |
| `Grid.BoxOrderShape` | src/core/simulator/space/positional_indices/grid_impl.h:624-641 | the triple loop visits exactly the cells of the box, in k-j-i order, with no cell twice |
| `Grid.RowPrefix` | src/core/simulator/space/positional_indices/grid_impl.h:631-635 | the cells visited by a row loop that stops early are a prefix of the whole row |
| `Grid.PlanePrefix` | src/core/simulator/space/positional_indices/grid_impl.h:630-636 | the rows completed so far in a plane are a prefix of the whole plane |
| `Grid.BoxPrefix` | src/core/simulator/space/positional_indices/grid_impl.h:629-637 | the planes completed so far are a prefix of the whole box order |
| `Grid.StopPrefix` | src/core/simulator/space/positional_indices/grid_impl.h:38-42 | the cells visited before the operation refuses cell (i,j,k) form a prefix of the box order, so an early return never skips or repeats a cell |
| `Grid.Move` | src/core/simulator/space/positional_indices/grid_impl.h:736-772 | one step on an axis changes that coordinate by the step and leaves the other two alone |
| `Grid.Secondary` | src/core/simulator/space/positional_indices/grid_impl.h:728-831 | the two non-driving axes are distinct from the driving axis and from each other |
| `Grid.DrivingAxis` | src/core/simulator/space/positional_indices/grid_impl.h:728-831 | the driving axis has the largest displacement between the two ray cells (ties go to I, then J) |
| `Grid.ErrorStep` | src/core/simulator/space/positional_indices/grid_impl.h:731-776 | one iteration keeps the error-term invariant (e = 3d - D + 2d*step - 2D*moves, within its bounds), and a positive error means the secondary axis has moves left |
| `Grid.ErrorFinal` | src/core/simulator/space/positional_indices/grid_impl.h:731-776 | after D drive steps a secondary axis with displacement d has moved exactly d times, so the walk ends in the end cell |
| `Grid.Stamped` | src/core/simulator/space/positional_indices/grid_impl.h:888-897 | updating a cell stamped before the current timestamp restarts it with just the entity; a current cell gains the entity |
| `Grid.Grid.constructor` | src/core/simulator/space/positional_indices/grid_impl.h:48-70 | a new grid has the given sizes, timestamp 0 and every cell empty at timestamp 0, so no cell is stamped later than the grid |
| `Grid.Grid.ClampCell` | src/core/simulator/space/positional_indices/grid_impl.h:948-957 | clamping yields a cell inside the grid and leaves cells inside the grid unchanged |
| `Grid.Grid.Slot` | src/core/simulator/space/positional_indices/grid_impl.h:976-982 | the storage slot of a grid cell is I*J*k + I*j + i and lies inside the cell array |
| `Grid.Grid.GetEntitiesAt` | src/core/simulator/space/positional_indices/grid_impl.h:139-156 | fails iff the cell is outside the grid; a stale cell reads as empty and a current one yields its entities |
| `Grid.Grid.UpdateCell` | src/core/simulator/space/positional_indices/grid_impl.h:884-901 | throws iff the index is outside the grid, leaving the cells unchanged; otherwise only that cell changes, as Stamped says; no cell is ever stamped later than the grid's timestamp |
| `Grid.Grid.Update` | src/core/simulator/space/positional_indices/grid_impl.h:130-133 | the timestamp advances by one, throws iff some entity lies outside the grid, and on success every cell holds exactly the entities placed in it in this update; no cell is stamped later than the new timestamp |
| `Grid.Grid.Reset` | src/core/simulator/space/positional_indices/grid_impl.h:91-101 | after a reset the timestamp is 1 and every cell holds exactly the entities placed in it by the update that follows, older contents forgotten |
| `Grid.Grid.ForCellsInBoxRange` | src/core/simulator/space/positional_indices/grid_impl.h:624-641 | the operation is applied to the cells of the clamped box in k-j-i order until it first refuses one, and every visited cell is inside the grid |
| `Grid.Grid.ForAllCells` | src/core/simulator/space/positional_indices/grid_impl.h:521-529 | the operation is applied to all cells of the grid in k-j-i order until it first refuses one |
| `Grid.Grid.ForCellsAlongRay` | src/core/simulator/space/positional_indices/grid_impl.h:706-878 | the walk starts at the clamped start cell, visits a chain of face-adjacent grid cells, and if the operation never refuses it ends at the clamped end cell after exactly 1 + Manhattan-distance cells |
| `Grid.VisitRow` | src/core/simulator/space/positional_indices/grid_impl.h:631-635 | one row loop appends the row's cells until the operation refuses one, and reports where it stopped |
| `Grid.VisitPlane` | src/core/simulator/space/positional_indices/grid_impl.h:630-636 | one plane loop appends complete rows and the partial row where the operation refused |
| `Grid.VisitBox` | src/core/simulator/space/positional_indices/grid_impl.h:629-637 | the triple loop applies the operation in box order until it first refuses a cell |
| `Grid.Advance` | src/core/simulator/space/positional_indices/grid_impl.h:736-737 | one step toward the end cell on an axis, followed by the cell operation: the new cell neighbours the previous one and stays between start and end |
| `Grid.SecondarySteps` | src/core/simulator/space/positional_indices/grid_impl.h:738-776 | the secondary axes move when their error terms are positive, in the order the source picks when both move, and the error terms are updated as in the source |
| `Grid.Iterate` | src/core/simulator/space/positional_indices/grid_impl.h:734-777 | one loop iteration keeps the walk state: an accepted chain of neighbours with the drive and secondary step counts and error invariants |
| `Grid.Walk` | src/core/simulator/space/positional_indices/grid_impl.h:728-877 | the full walk along the driving axis is a chain of neighbours from start to end of length 1 + Manhattan distance, unless the operation refuses a cell |
| `Grid.WalkStart` | src/core/simulator/space/positional_indices/grid_impl.h:728-733 | the walk state holds at the start cell with the initial error terms 3d - D |
| `Grid.WalkEnd` | src/core/simulator/space/positional_indices/grid_impl.h:734-777 | when the drive count reaches the drive displacement, the last cell is the end cell and the walk has 1 + Manhattan distance cells |
| `SpaceHash.CoordinateHash` | src/core/simulator/space/positional_indices/space_hash.h:220-228 | the coordinate hash, computed on wrapping unsigned 32-bit words, always names a bucket below the table size |
| `SpaceHash.HashWrapsAround` | src/core/simulator/space/positional_indices/space_hash.h:220-228 | the hash sees each coordinate only modulo 2^32, so coordinates that agree on their 32-bit words share a bucket |
| `SpaceHash.WordPeriodic` | src/core/simulator/space/positional_indices/space_hash.h:223-226 | converting a signed coordinate to its unsigned 32-bit word is periodic in 2^32 |
| `SpaceHashNative.Add` | src/core/simulator/space/positional_indices/space_hash_native.h:125-131 | adding to a bucket pushes the item onto the front of its list and keeps its timestamp |
| `SpaceHashNative.Clear` | src/core/simulator/space/positional_indices/space_hash_native.h:105-117 | clearing a bucket empties its list and keeps its timestamp |
| `SpaceHashNative.Exists` | src/core/simulator/space/positional_indices/space_hash_native.h:140-153 | the bucket scan answers true iff the same entity with the same cell coordinates is in the bucket |
| `SpaceHashNative.SpaceHashNative.constructor` | src/core/simulator/space/positional_indices/space_hash_native.h:166-196 | a new space hash, once sized, has no entities, store timestamp 0 and every bucket empty at timestamp 0 |
| `SpaceHashNative.SpaceHashNative.Hash` | src/core/simulator/space/positional_indices/space_hash.h:220-228 | the bucket index of a cell is below the number of buckets |
| `SpaceHashNative.SpaceHashNative.AddEntity` | src/core/simulator/space/positional_indices/space_hash.h:63-65 | adding an entity inserts it into the ordered entity set, leaving the buckets and timestamp alone |
| `SpaceHashNative.SpaceHashNative.RemoveEntity` | src/core/simulator/space/positional_indices/space_hash.h:79-87 | removal throws iff the entity is not held (leaving the set unchanged) and otherwise removes exactly that entity |
| `SpaceHashNative.SpaceHashNative.UpdateCell` | src/core/simulator/space/positional_indices/space_hash_native.h:217-242 | only the cell's bucket changes: a current bucket gains the item unless it already holds it, a stale one is restarted at the current timestamp with just the item |
| `SpaceHashNative.SpaceHashNative.Update` | src/core/simulator/space/positional_indices/space_hash_native.h:203-208 | after an update the timestamp has advanced by one, no current bucket holds an item twice, and every cell's query returns exactly the entities whose updater places them in that cell |
| `SpaceHashNative.SpaceHashNative.StoreStep` | src/core/simulator/space/positional_indices/space_hash.h:309-315 | storing one more (entity, cell) item keeps every bucket duplicate-free and holding exactly the items stored so far that hash to it |
| `SpaceHashNative.SpaceHashNative.NextEntity` | src/core/simulator/space/positional_indices/space_hash.h:311-314 | finishing one entity's cells and moving to the next entity keeps the stored-items invariant |
| `SpaceHashNative.SpaceHashNative.CheckCell` | src/core/simulator/space/positional_indices/space_hash_native.h:249-280 | the found set grows by exactly the entities stored in that cell, and the result is true iff the cell's current bucket holds an item for that cell |
| `Space.AscendingErase` | src/core/simulator/space/space.h:302-305 | erasing one entity from the entity vector keeps it ordered by entity index and removes exactly that entity |
| `Space.Indexes.GetEntity` | src/core/simulator/space/space.h:146-153 | the lookup by qualified name succeeds iff the name is registered, and then yields an entity of the entity vector with that name |
| `Space.NextIndex` | src/core/simulator/space/space.h:275-279 | the index given to a new entity (last index + 1, or 0 when empty) exceeds every index in use |
| `Space.Register` | src/core/simulator/space/space.h:259-285 | registering an entity under a free name keeps the four indexes (vector, roots, by id, by type and id) consistent with each other |
| `Space.Unregister` | src/core/simulator/space/space.h:292-323 | unregistering a registered entity keeps the four indexes consistent |
| `Space.AddAscending` | src/core/simulator/space/space.h:275-282 | appending an entity with an index above all others keeps the vector ordered by index |
| `Space.AddIds` | src/core/simulator/space/space.h:283 | the id map and the entity vector still describe the same entities after an insertion |
| `Space.AddTypes` | src/core/simulator/space/space.h:284 | the per-type maps and the id map still agree after an insertion |
| `Space.AddRoots` | src/core/simulator/space/space.h:271-273 | the root vector still holds exactly the parentless entities, in vector order, after an insertion |
| `Space.AddKeepsRegistry` | src/core/simulator/space/space.h:259-285 | the state AddEntity builds from a consistent registry is consistent |
| `Space.RemoveTypes` | src/core/simulator/space/space.h:296-308 | the removed entity's type has a per-type map, and removing the name from it and from the id map keeps the two in agreement |
| `Space.EraseFirstMembers` | src/core/simulator/space/space.h:302-305 | erasing the found element from an ordered vector keeps it ordered and removes exactly that entity |
| `Space.RemoveIds` | src/core/simulator/space/space.h:302-308 | the id map without the name and the vector without the entity still agree |
| `Space.RemoveRoots` | src/core/simulator/space/space.h:309-314 | the root vector without the entity still holds exactly the parentless entities |
| `Space.RemoveKeepsRegistry` | src/core/simulator/space/space.h:292-323 | the state RemoveEntity builds from a consistent registry is consistent |
| `Space.RegisterFinds` | src/core/simulator/space/space.h:259-285 | after AddEntity the new entity is found under its name, and every other name finds what it found before |
| `Space.RegisterOrder` | src/core/simulator/space/space.h:271-282 | the new entity goes to the end of the entity vector with an index above all others, and into the roots iff it has no parent |
| `Space.UnregisterSpec` | src/core/simulator/space/space.h:292-323 | after RemoveEntity the name is unknown, other names are unaffected, and the entity leaves the entity and root vectors |
| `Space.MapRestore` | src/core/simulator/space/space.h:283 | removing a freshly added key restores the map |
| `Space.TypesRestore` | src/core/simulator/space/space.h:284 | removing a freshly added name from its type's map restores the per-type maps |
| `Space.UnregisterUndoesRegister` | src/core/simulator/space/space.h:259-323 | removing an entity right after adding it restores the entity vector, the roots, the id map and the per-type maps |
| `Space.Space.constructor` | src/core/simulator/space/space.cpp:27-32 | a new space has no entities, clock 0 and no controllable entities |
| `Space.Space.AddEntity` | src/core/simulator/space/space.h:259-285 | throws iff the qualified name (context + id) is already registered, leaving the indexes unchanged; otherwise registers the entity |
| `Space.Remove` | src/core/simulator/space/space.h:292-323 | on the registry's values: refused iff the entity is not registered, with the indexes unchanged; otherwise the entity is unregistered and the indexes stay consistent |
| `Space.RemoveOtherTypeThrows` | src/core/simulator/space/space.h:295-323 | an entity whose name is held by an entity of another type is missing from its type's map, so removal throws "has not been found in the indexes" and changes nothing |
| `Space.Space.RemoveEntity` | src/core/simulator/space/space.h:292-323 | throws iff the entity is not registered, leaving the indexes unchanged; otherwise unregisters it |
| `Space.Space.SetSimulationClock` | src/core/simulator/space/space.h:340-342 | the clock takes the given value and nothing else changes |
| `Space.Space.IncreaseSimulationClock` | src/core/simulator/space/space.h:349-351 | the clock advances by the increase modulo 2^32 (exactly by the increase when it does not overflow) and nothing else changes |
| `Space.Space.Reset` | src/core/simulator/space/space.cpp:73-80 | the clock is reset to 0 and every entity is reset once, in entity-vector order |
| `Space.Space.AddControllableEntity` | src/core/simulator/space/space.cpp:142-144 | the controllable entity is appended to the controllable vector |
| `Space.Space.RemoveControllableEntity` | src/core/simulator/space/space.cpp:149-156 | the first occurrence of the entity is erased from the controllable vector, which is unchanged if it is absent |
| `Space.Matching` | src/core/simulator/space/space.cpp:166-172 | the potential engines are indices of engines |
| `Space.MatchingSpec` | src/core/simulator/space/space.cpp:166-172 | an engine is a potential engine iff it contains the entity's position, and potential engines keep the engine order |
| `Space.UntilAcceptedSpec` | src/core/simulator/space/space.cpp:201-204 | a movable entity is offered to the potential engines in order until one accepts it: the offers are a prefix, all but the last refused, and some engine accepted iff the last offer was accepted |
| `Space.CollectMatching` | src/core/simulator/space/space.cpp:166-172 | the loop collects exactly the engines that contain the position |
| `Space.OfferAll` | src/core/simulator/space/space.cpp:178-181 | offering a non-movable entity to every potential engine succeeds iff some engine accepts it |
| `Space.OfferUntilAccepted` | src/core/simulator/space/space.cpp:201-204 | the loop offers the entity to engines until the first acceptance and reports whether one accepted |
| `Space.AddEntityToPhysicsEngine` | src/core/simulator/space/space.cpp:161-214 | throws when no engine contains the position; a non-movable entity is offered to all potential engines and a movable one until the first acceptance; it succeeds iff some potential engine accepts it |
| `Space.SlotInLayout` | src/core/simulator/space/space.cpp:299-309 | every entity placed while the count is below the wrapped layout product gets a slot inside the layout, and the x*y product used as divisor is non-zero |
| `Space.SlotRoundTrip` | src/core/simulator/space/space.cpp:305-307 | when the layout product does not wrap, the slot decomposition gives back the placement number (x + l0*y + l0*l1*z) |
| `Space.GridGenerator.constructor` | src/core/simulator/space/space.cpp:284-297 | a new generator keeps the centre, layout and distances and has placed nothing |
| `Space.GridGenerator.Next` | src/core/simulator/space/space.cpp:299-315 | throws iff the call is a retry or the layout is full, placing nothing; otherwise places the next entity at the position of its slot and counts it |
| `Space.NewGridGenerator` | src/core/simulator/space/space.cpp:284-297 | construction throws iff some layout value is 0 |
| `ThreadBalance.StartStep` | src/core/simulator/space/space_multi_thread_balance_quantity.cpp:256-287 | consecutive thread start points differ by total / threads, plus one for the first total % threads threads |
| `ThreadBalance.StartEnds` | src/core/simulator/space/space_multi_thread_balance_quantity.cpp:256-287 | the first thread starts at plugin 0 and the ranges end at the total |
| `ThreadBalance.RangeIsSliceExactly` | src/core/simulator/space/space_multi_thread_balance_quantity.cpp:273-285 | with at least one plugin per thread, both range formulas of the source give the slice from the thread's start to the next thread's start |
| `ThreadBalance.RangeIsSlice` | src/core/simulator/space/space_multi_thread_balance_quantity.cpp:256-287 | a thread's range holds exactly the plugins between its start and the next thread's start, in all branches |
| `ThreadBalance.RangeBounds` | src/core/simulator/space/space_multi_thread_balance_quantity.cpp:256-287 | every range is well formed, within the plugin count, and has the balanced size |
| `ThreadBalance.StartMonotone` | src/core/simulator/space/space_multi_thread_balance_quantity.cpp:256-287 | start points never decrease with the thread id |
| `ThreadBalance.FewPlugins` | src/core/simulator/space/space_multi_thread_balance_quantity.cpp:263-272 | with fewer plugins than threads, thread id < total gets plugin id alone and every other thread gets the empty range |
| `ThreadBalance.Partition` | src/core/simulator/space/space_multi_thread_balance_quantity.cpp:256-287 | the ranges of threads 0 .. threads-1 partition the plugins: each plugin belongs to exactly one thread |
| `ThreadBalance.Owner` | src/core/simulator/space/space_multi_thread_balance_quantity.cpp:256-287 | each plugin has an owning thread whose slice contains it |
| `EmbodiedEntity.CountKeepsIds` | src/core/simulator/entity/embodied_entity.cpp:159 | changing an anchor's in-use count keeps the anchor map keyed by anchor id |
| `EmbodiedEntity.EnableKeepsEnabled` | src/core/simulator/entity/embodied_entity.cpp:159-163 | after one more use, the enabled vector still holds exactly the anchors in use, each once |
| `EmbodiedEntity.DisableKeepsEnabled` | src/core/simulator/entity/embodied_entity.cpp:180-184 | an enabled anchor has a positive count, and after one use less the enabled vector still holds exactly the anchors in use |
| `EmbodiedEntity.WithAnchor` | src/core/simulator/entity/embodied_entity.cpp:121-145 | a new anchor gets the next index (the map size), starts unused and disabled, and no other anchor changes |
| `EmbodiedEntity.Enable` | src/core/simulator/entity/embodied_entity.cpp:150-164 | enabling raises the anchor's in-use count by one and appends it to the enabled vector only on its first use |
| `EmbodiedEntity.Disable` | src/core/simulator/entity/embodied_entity.cpp:169-185 | disabling the origin or an anchor that is not enabled changes nothing; otherwise the count drops by one and the anchor leaves the enabled vector when it reaches 0 |
| `EmbodiedEntity.DisableUndoesEnable` | src/core/simulator/entity/embodied_entity.cpp:150-185 | disabling an anchor right after enabling it restores the anchors exactly |
| `EmbodiedEntity.RestoresMap` | src/core/simulator/entity/embodied_entity.cpp:159-180 | enable then disable restores every anchor's in-use count |
| `EmbodiedEntity.RestoresVector` | src/core/simulator/entity/embodied_entity.cpp:161-184 | enable then disable restores the enabled vector |
| `EmbodiedEntity.CountRestored` | src/core/simulator/entity/embodied_entity.cpp:159-180 | raising and then lowering one in-use count restores the anchor |
| `EmbodiedEntity.StillEnabledAfterOneDisable` | src/core/simulator/entity/embodied_entity.cpp:159-184 | an anchor enabled twice stays enabled after one disable (the count is a use count, not a flag) |
| `EmbodiedEntity.EmbodiedEntity.constructor` | src/core/simulator/entity/embodied_entity.cpp:27-48 | a new embodied entity has only the origin anchor, with index 0, enabled once, and no physics model |
| `EmbodiedEntity.EmbodiedEntity.AddAnchor` | src/core/simulator/entity/embodied_entity.cpp:121-145 | throws iff the id is already taken, leaving the anchors unchanged; otherwise adds the anchor with the next index and returns that index |
| `EmbodiedEntity.EmbodiedEntity.EnableAnchor` | src/core/simulator/entity/embodied_entity.cpp:150-164 | throws iff the anchor does not exist; otherwise the anchors become Enable's result |
| `EmbodiedEntity.EmbodiedEntity.DisableAnchor` | src/core/simulator/entity/embodied_entity.cpp:169-185 | the anchors become Disable's result (silently ignoring the origin and anchors that are not enabled) |
| `EmbodiedEntity.EmbodiedEntity.GetAnchor` | src/core/simulator/entity/embodied_entity.cpp:190-213 | the lookup fails iff the anchor does not exist; otherwise it yields the anchor with that id |
| `EmbodiedEntity.EmbodiedEntity.IsAnchorEnabled` | src/core/simulator/entity/embodied_entity.cpp:218-227 | throws iff the anchor does not exist; otherwise answers whether it is in the enabled vector, and the origin always answers true |
| `EmbodiedEntity.EmbodiedEntity.AddPhysicsModel` | src/core/simulator/entity/embodied_entity.cpp:250-258 | throws iff the entity is movable and already has a model, changing nothing; otherwise records the model under the engine id and appends it to the vector |
| `EmbodiedEntity.EmbodiedEntity.RemovePhysicsModel` | src/core/simulator/entity/embodied_entity.cpp:263-274 | throws iff the engine has no model for the entity; otherwise removes it from the map and its single occurrence from the vector |
| `EmbodiedEntity.EmbodiedEntity.GetPhysicsModelAsWritten` | src/core/simulator/entity/embodied_entity.cpp:279-284 | the index guard as written refuses only indices above the size, and reads the slot at the index |
| `EmbodiedEntity.EmbodiedEntity.GetPhysicsModel` | src/core/simulator/entity/embodied_entity.cpp:279-284 | the corrected lookup succeeds iff the index is inside the model vector and yields a model of the vector |
| `EmbodiedEntity.EmbodiedEntity.GetPhysicsModelOf` | src/core/simulator/entity/embodied_entity.cpp:299-305 | the lookup by engine id fails iff the engine has no model for the entity and otherwise yields one of its models |
| `EmbodiedEntity.GetPhysicsModelReadsPastEnd` | src/core/simulator/entity/embodied_entity.cpp:279-284 | the as-written guard accepts the index equal to the size, whose slot is one past the end of the vector |
| `EmbodiedEntity.GetPhysicsModelCorrected` | src/core/simulator/entity/embodied_entity.cpp:279-284 | the corrected guard accepts exactly the as-written accepted indices whose slot is inside the vector, and yields the model there |
| `ComposableEntity.ParseName` | src/core/simulator/entity/composable_entity.cpp:185-232 | a segment without '[' is a plain type name; a parsed id is the text between the first '[' and the last ']', with a bracket-free base before it |
| `ComposableEntity.ParseNameRoundTrip` | src/core/simulator/entity/composable_entity.cpp:187-202 | "base[id]" with a bracket-free base parses back to that base and that id |
| `ComposableEntity.UnclosedBracketRefused` | src/core/simulator/entity/composable_entity.cpp:188-225 | a segment with '[' and no ']' after it is a syntax error |
| `ComposableEntity.FirstMatch` | src/core/simulator/entity/composable_entity.cpp:209-211 | the search stops at the first component matching the type (and the id, when given); no earlier component matches |
| `ComposableEntity.OfTypeMembers` | src/core/simulator/entity/composable_entity.cpp:204-205 | the equal range of a type holds exactly the components of that type |
| `ComposableEntity.FindIn` | src/core/simulator/entity/composable_entity.cpp:185-232 | a segment fails iff it is malformed; otherwise it finds a component of the vector matching type and id, or reports that none matches |
| `ComposableEntity.HasPathAgreesWithGetPath` | src/core/simulator/entity/composable_entity.cpp:109-180 | HasComponent answers true exactly where GetComponent finds a component, false exactly where GetComponent throws for a missing or non-composable component, and both fail on a malformed segment |
| `ComposableEntity.PathStep` | src/core/simulator/entity/composable_entity.cpp:112-135 | a path "a.rest" is looked up as rest inside the composable component a names, and fails if that component is not composable |
| `ComposableEntity.SingleSegment` | src/core/simulator/entity/composable_entity.cpp:112-121 | a path without '.' finds exactly the component its one segment names |
| `ComposableEntity.FirstMatchOfType` | src/core/simulator/entity/composable_entity.cpp:204-215 | the first match within the type's equal range is the first match in the whole component vector |
| `ComposableEntity.OfTypeAppend` | src/core/simulator/entity/composable_entity.cpp:72-78 | appending a component adds it at the end of its own type's range and leaves the other ranges alone |
| `ComposableEntity.OfTypeErase` | src/core/simulator/entity/composable_entity.cpp:90-95 | erasing a component from the vector erases it from its own type's range only |
| `ComposableEntity.OfTypeEraseOwn` | src/core/simulator/entity/composable_entity.cpp:90-95 | erasing a component from the vector erases its first occurrence from its type's range |
| `ComposableEntity.OfTypeEraseOther` | src/core/simulator/entity/composable_entity.cpp:90-95 | erasing a component does not change the ranges of other types |
| `ComposableEntity.EnabledAppend` | src/core/simulator/entity/composable_entity.cpp:59-67 | the enabled components of a concatenation are those of each part, in order |
| `ComposableEntity.EnabledOneMoreType` | src/core/simulator/entity/composable_entity.cpp:59-67 | walking one more type range adds exactly that type's enabled components |
| `ComposableEntity.EnabledAllTypes` | src/core/simulator/entity/composable_entity.cpp:59-67 | walking the ranges of all types present reaches every enabled component |
| `ComposableEntity.ComposableEntity.constructor` | src/core/simulator/entity/composable_entity.cpp:22-24 | a new composable entity has no components |
| `ComposableEntity.ComposableEntity.FindComponent` | src/core/simulator/entity/composable_entity.cpp:185-232 | a found slot lies inside the multimap range of its type |
| `ComposableEntity.ComposableEntity.FindComponentAgrees` | src/core/simulator/entity/composable_entity.cpp:185-232 | the search through the multimap fails, finds and misses exactly as the search through the component vector, and finds the same component |
| `ComposableEntity.ComposableEntity.GetComponent` | src/core/simulator/entity/composable_entity.cpp:109-145 | the multimap lookup of a dotted path is the path lookup over the component vector |
| `ComposableEntity.ComposableEntity.HasComponent` | src/core/simulator/entity/composable_entity.cpp:150-180 | the multimap presence test of a dotted path is the path test over the component vector |
| `ComposableEntity.ComposableEntity.AddComponent` | src/core/simulator/entity/composable_entity.cpp:72-78 | the component is appended to the vector and to the end of its type's range in the multimap, which still mirrors the vector |
| `ComposableEntity.ComposableEntity.RemoveComponent` | src/core/simulator/entity/composable_entity.cpp:83-104 | throws iff the segment is malformed or names no component, changing nothing; otherwise returns that component and erases it from the vector and the multimap |
| `ComposableEntity.ComposableEntity.UpdateComponents` | src/core/simulator/entity/composable_entity.cpp:59-67 | the enabled components are updated in multimap order: type by type in ascending type-name order, and within a type in insertion order; counted with multiplicity, exactly the enabled components, each once |
| `ComposableEntity.BelowIsStrictTotalOrder` | src/core/simulator/entity/entity.h:103 | the multimap's key order, std::string `<`, is irreflexive and transitive, and any two different type names are comparable |
| `ComposableEntity.LeastExists` | src/core/simulator/entity/entity.h:103 | every non-empty set of type names has a least one, where the multimap walk starts |
| `ComposableEntity.LeastUnique` | src/core/simulator/entity/entity.h:103 | that least type name is unique |
| `ComposableEntity.Least` | src/core/simulator/entity/entity.h:103 | the chosen type name belongs to the set and comes before every other one |
| `ComposableEntity.SortedKeysAscending` | src/core/simulator/entity/composable_entity.cpp:60-62 | the walk from begin() to end() meets every type key exactly once, in strictly ascending order |
| `ComposableEntity.ByTypesCounts` | src/core/simulator/entity/composable_entity.cpp:59-67 | walking the type keys of a set in order updates, counted with multiplicity, exactly the enabled components of those types |
| `ComposableEntity.ComposableEntity.TypesAllKeys` | src/core/simulator/entity/composable_entity.cpp:72-78 | every component's type is a key of the multimap |
| `ComposableEntity.UpdateRange` | src/core/simulator/entity/composable_entity.cpp:60-66 | walking one type range updates its enabled components in order |
| `ComposableEntity.FoundIsFirst` | src/core/simulator/entity/composable_entity.cpp:89-95 | the component FindComponent returns is the first of its kind in the range, so erasing at its position erases its first occurrence, as the vector search does |
| `ComposableEntity.EraseKeepsRanges` | src/core/simulator/entity/composable_entity.cpp:90-95 | erasing the found entry from the multimap and the component from the vector keeps the multimap mirroring the vector |
| `ComposableEntity.EnabledOfNoTypes` | src/core/simulator/entity/composable_entity.cpp:59-67 | walking no type ranges updates nothing |
| `EntityOperations.LessIsStrictWeakOrder` | src/core/simulator/entity/entity.h:318-325 | the entity comparator (by index) is irreflexive, transitive and asymmetric, and two entities are equivalent iff they have the same index |
| `EntityOperations.Lookup` | src/core/simulator/entity/entity.h:387-392 | an index beyond the slots reads as no operation; otherwise it reads that slot |
| `EntityOperations.Stored` | src/core/simulator/entity/entity.h:374-386 | storing grows the slot vector to tag + 1 only when it is too short |
| `EntityOperations.Empty` | src/core/simulator/entity/entity.h:383 | new slots are created empty |
| `EntityOperations.Table` | src/core/simulator/entity/entity.h:374-392 | the slot vector denotes a partial map from tags to operations |
| `EntityOperations.StoredTable` | src/core/simulator/entity/entity.h:374-392 | storing an operation under a tag updates exactly that tag in the denoted map |
| `EntityOperations.OperationHolder.constructor` | src/core/simulator/entity/entity.h:362-395 | a new holder has no slots |
| `EntityOperations.OperationHolder.Add` | src/core/simulator/entity/entity.h:374-386 | Add resizes the slots with empty ones when needed and sets the tag's slot |
| `EntityOperations.OperationHolder.Get` | src/core/simulator/entity/entity.h:387-392 | lookup yields the operation stored for the tag, or nothing |
| `EntityOperations.CallEntityOperation` | src/core/simulator/entity/entity.h:417-428 | the call returns the default value unless the entity's type has a function and an operation instance, and otherwise the operation applied to the entity |
| `CommandLine.FindLong` | src/core/utility/configuration/command_line_arg_parser.cpp:109-110 | the search stops at the first registered argument with that long name, or at the end when none has it |
| `CommandLine.FindShort` | src/core/utility/configuration/command_line_arg_parser.cpp:146-147 | the search stops at the first registered argument with that short letter, or at the end when none has it |
| `CommandLine.ParseGroup` | src/core/utility/configuration/command_line_arg_parser.cpp:177-222 | parsing a group of short letters moves the cursor by at most one, and on success the cursor is still on an argument |
| `CommandLine.Step` | src/core/utility/configuration/command_line_arg_parser.cpp:64-93 | one argument (with its value, if any) moves the cursor by at most one, and on success the cursor is still on an argument |
| `CommandLine.ParseFrom` | src/core/utility/configuration/command_line_arg_parser.cpp:48-98 | the cursor never goes back, and a successful parse consumes every argument |
| `CommandLine.NonOptionRefused` | src/core/utility/configuration/command_line_arg_parser.cpp:66-81 | an argument that does not start with '-', or is "-" or "--", stops the parse with "Unrecognized option" |
| `CommandLine.LongOptionParsed` | src/core/utility/configuration/command_line_arg_parser.cpp:103-135 | "--name": an unknown name throws; a flag is set to "true"; an option with a value takes the next argument, or throws when there is none |
| `CommandLine.ShortOptionIsGroupOfOne` | src/core/utility/configuration/command_line_arg_parser.cpp:140-172 | "-x" is handled exactly as a group of the single letter x |
| `CommandLine.FlagKeys` | src/core/utility/configuration/command_line_arg_parser.cpp:182-211 | every letter of a group of flags names a registered flag |
| `CommandLine.GroupOfFlags` | src/core/utility/configuration/command_line_arg_parser.cpp:182-211 | a group made only of registered flags succeeds without moving the cursor and sets exactly those flags to "true" |
| `CommandLine.GroupRefused` | src/core/utility/configuration/command_line_arg_parser.cpp:196-219 | a group throws when one of its letters names no option, or when a letter other than the last takes a value |
| `CommandLine.GroupAsWrittenAgrees` | src/core/utility/configuration/command_line_arg_parser.cpp:196-202 | the grouped-letter parse as written agrees with the corrected one, except exactly where the corrected one throws for a missing value at argc and the code as written reads argv[argc] |
| `CommandLine.GroupReadsPastArgc` | src/core/utility/configuration/command_line_arg_parser.cpp:199-202 | "argos3 -fv" with f a flag and v an option taking a value: the code as written reads argv[argc]; the corrected parse throws |
| `CommandLine.ProgramNameIgnored` | src/core/utility/configuration/command_line_arg_parser.cpp:54 | parsing starts at argument 1, so the program name never influences the outcome |
| `CommandLine.StepSameArgs` | src/core/utility/configuration/command_line_arg_parser.cpp:64-93 | one step depends only on the arguments after the program name |
| `CommandLine.GroupSameArgs` | src/core/utility/configuration/command_line_arg_parser.cpp:177-222 | a group's parse depends only on the arguments after the program name |
| `CommandLine.GroupGiven` | src/core/utility/configuration/command_line_arg_parser.cpp:177-222 | a group gives each option it sets either "true" (a flag) or an argument from the cursor on |
| `CommandLine.GivenTrans` | src/core/utility/configuration/command_line_arg_parser.cpp:56-97 | values given by consecutive steps compose |
| `CommandLine.ParsedValuesFromArgv` | src/core/utility/configuration/command_line_arg_parser.cpp:48-98 | every value the parse records belongs to a registered option and is "true" for a flag or an argument from argv |
| `CommandLine.StepGiven` | src/core/utility/configuration/command_line_arg_parser.cpp:64-93 | one step records only "true" for flags or arguments from argv for registered options |
| `CommandLine.CommandLineArgParser.constructor` | src/core/utility/configuration/command_line_arg_parser.cpp:15-17 | a new parser has the registered arguments, no values and cursor 0 |
| `CommandLine.CommandLineArgParser.Parse` | src/core/utility/configuration/command_line_arg_parser.cpp:48-98 | the loop's values, cursor and outcome are those of the parse specification from argument 1 |
| `CommandLine.CommandLineArgParser.ParseLongOption` | src/core/utility/configuration/command_line_arg_parser.cpp:103-135 | the long-option search loop gives the values, cursor and outcome of the long-option specification |
| `CommandLine.CommandLineArgParser.ParseShortOption` | src/core/utility/configuration/command_line_arg_parser.cpp:140-172 | the short-option search loop gives the values, cursor and outcome of the short-option specification |
| `CommandLine.CommandLineArgParser.ParseShortOptions` | src/core/utility/configuration/command_line_arg_parser.cpp:177-222 | the letter-by-letter loop gives the values, cursor and outcome of the corrected group specification |
| `Color.NameIndex` | src/core/utility/datatypes/color.h:145-165 | the result is the position of the first predefined name equal to the string, or the number of names when none matches |
| `Color.Equal` | src/core/utility/datatypes/color.h:290-296 | two channel tuples are equal exactly when they are the same tuple |
| `Color.Differ` | src/core/utility/datatypes/color.h:298-304 | `!=` holds exactly when `==` does not |
| `Color.NamesDistinct` | src/core/utility/datatypes/color.h:145-164 | the twenty predefined names are pairwise different |
| `Color.NoCommaInNames` | src/core/utility/datatypes/color.h:145-164 | no predefined name contains a comma |
| `Color.NameIndexOfName` | src/core/utility/datatypes/color.h:145-164 | looking up a predefined name finds that very name |
| `Color.NameIndexWithComma` | src/core/utility/datatypes/color.h:165-167 | a string with a comma never matches a name and goes to the numeric branch |
| `Color.Split` | src/core/utility/datatypes/color.h:167 | splitting at the separator always gives at least one field |
| `Color.SplitOne` | src/core/utility/datatypes/color.h:167 | a string without the separator is a single field |
| `Color.SplitJoin` | src/core/utility/datatypes/color.h:167 | a field followed by the separator splits off as the first field |
| `Color.ParseValues` | src/core/utility/datatypes/color.h:166-167 | a successful parse yields exactly four values |
| `Color.FromValues` | src/core/utility/datatypes/color.h:168-173 | four values are accepted iff none exceeds 255, and then they become the channels unchanged |
| `Color.SplitFour` | src/core/utility/datatypes/color.h:167 | four comma-free fields joined by commas split back into those four |
| `Color.ParseValuesOfDecimals` | src/core/utility/datatypes/color.h:166-167 | four decimals joined by commas parse back to their values |
| `Color.PrintParseRoundTrip` | src/core/utility/datatypes/color.h:143-247 | parsing the printed form of any colour gives that colour back |
| `Color.NamedRoundTrip` | src/core/utility/datatypes/color.h:145-239 | a predefined colour prints as its name and the name parses back to it |
| `Color.NumericRoundTrip` | src/core/utility/datatypes/color.h:165-245 | any other colour prints as four decimals and parses back to itself |
| `Color.PrintAsWrittenDoesNotReadBack` | src/core/utility/datatypes/color.h:241-244 | with the channels streamed as characters, (65,66,67,68) prints "A,B,C,D", which the model's strict field parser refuses (see `Color.ParseValues` under Left out) |
| `Color.Color.constructor` | src/core/utility/datatypes/color.h:275-279 | a default colour is black with alpha 255 |
| `Color.Color.FromChannels` | src/core/utility/datatypes/color.h:58-62 | the colour holds the given channels, alpha 255 by default |
| `Color.Color.Set` | src/core/utility/datatypes/color.h:126-134 | the channels become the given values, alpha 255 by default |
| `Color.Color.SetFromString` | src/core/utility/datatypes/color.h:143-179 | succeeds iff the string is a name or four values of at most 255, then holds the parsed colour; on failure nothing changes |
| `Numerals.Digit` | src/core/utility/datatypes/color.h:241-244 | a digit value becomes a character between '0' and '9' |
| `Numerals.Decimal` | src/core/utility/datatypes/color.h:241-244 | a number prints as a non-empty run of digits with no comma |
| `Numerals.DecimalRoundTrip` | src/core/utility/datatypes/color.h:241-244 | reading a printed decimal gives the number back |
| `Equipped.EnableAll` | src/plugins/simulator/entities/directional_led_equipped_entity.cpp:120-127 | enabling the anchors of the instances one by one keeps the body's anchors consistent and their ids unchanged |
| `Equipped.DisableAll` | src/plugins/simulator/entities/directional_led_equipped_entity.cpp:132-139 | disabling the anchors of the instances one by one keeps the body's anchors consistent and their ids unchanged |
| `Equipped.EnableAllKeepsEnabled` | src/plugins/simulator/entities/directional_led_equipped_entity.cpp:124-126 | enabling more anchors never disables an anchor that was enabled |
| `Equipped.EnableAllEnables` | src/plugins/simulator/entities/directional_led_equipped_entity.cpp:124-126 | after the loop every instance's anchor is enabled |
| `Equipped.EnableLeavesOthers` | src/plugins/simulator/entities/directional_led_equipped_entity.cpp:124-126 | an anchor no instance uses is left exactly as it was by Enable |
| `Equipped.DisableLeavesOthers` | src/plugins/simulator/entities/directional_led_equipped_entity.cpp:136-138 | an anchor no instance uses is left exactly as it was by Disable |
| `Equipped.EnableThenDisableOne` | src/plugins/simulator/entities/directional_led_equipped_entity.cpp:120-139 | for one instance on an anchor other than the origin, Disable right after Enable restores the anchors |
| `Equipped.OriginUseRemains` | src/plugins/simulator/entities/directional_led_equipped_entity.cpp:120-139 | for an instance on the origin anchor, Enable then Disable leaves one extra use count on the origin, because the origin cannot be disabled |
| `Equipped.WithValue` | src/plugins/simulator/entities/directional_led_equipped_entity.cpp:172-182 | only instance i changes, and only its value |
| `Equipped.WithAll` | src/plugins/simulator/entities/directional_led_equipped_entity.cpp:187-191 | every instance gets the value and keeps its id and anchor |
| `Equipped.WithEach` | src/plugins/simulator/entities/directional_led_equipped_entity.cpp:196-201 | instance k gets value k and keeps its id and anchor |
| `Equipped.SetEnabledAll` | src/core/simulator/entity/composable_entity.cpp:47-54 | every component's enabled flag becomes the given one, and its id, value and anchor are unchanged |
| `Equipped.SwitchedKeepsIds` | src/core/simulator/entity/composable_entity.cpp:47-54 | switching the component flags keeps the component ids and the anchor ids, so the container stays consistent with its body |
| `Equipped.SwitchedTwice` | src/core/simulator/entity/composable_entity.cpp:47-54 | two switches in a row leave only the last flag set on every component |
| `Equipped.AllIsEach` | src/plugins/simulator/entities/directional_led_equipped_entity.cpp:187-201 | setting every value to v is the per-instance update with n copies of v |
| `LedEquipped.DirectionalLEDEquippedEntity.constructor` | src/plugins/simulator/entities/directional_led_equipped_entity.cpp:29-32 | a new container has no LED and no component, is disabled, and leaves the body's anchors alone |
| `LedEquipped.DirectionalLEDEquippedEntity.AddLED` | src/plugins/simulator/entities/directional_led_equipped_entity.cpp:93-115 | appends one LED with its id, colour and anchor, its entity disabled as the LED constructor leaves it (directional_led_entity.cpp line 40), and one component with its id |
| `LedEquipped.DirectionalLEDEquippedEntity.Enable` | src/plugins/simulator/entities/directional_led_equipped_entity.cpp:120-127 | enables the container and every LED entity (flags only, nothing else of the LEDs changes), then each LED's anchor once, in order, so every LED anchor ends enabled; physics models untouched |
| `LedEquipped.DirectionalLEDEquippedEntity.Disable` | src/plugins/simulator/entities/directional_led_equipped_entity.cpp:132-139 | disables the container and every LED entity (flags only), then each LED's anchor once, in order; physics models untouched |
| `LedEquipped.DirectionalLEDEquippedEntity.GetLED` | src/plugins/simulator/entities/directional_led_equipped_entity.cpp:144-153 | with an index in range, returns that LED, whose id is the matching component and whose anchor is on the body |
| `LedEquipped.DirectionalLEDEquippedEntity.SetLEDColor` | src/plugins/simulator/entities/directional_led_equipped_entity.cpp:172-182 | with an index in range, only that LED's colour changes |
| `LedEquipped.DirectionalLEDEquippedEntity.SetLEDColors` | src/plugins/simulator/entities/directional_led_equipped_entity.cpp:187-191 | every LED gets the colour; ids, anchors and components are unchanged |
| `LedEquipped.DirectionalLEDEquippedEntity.SetLEDColorsEach` | src/plugins/simulator/entities/directional_led_equipped_entity.cpp:196-212 | throws iff the vector's size differs from the number of LEDs, changing nothing; otherwise LED i gets colour i |
| `TagEquipped.TagEquippedEntity.constructor` | src/plugins/simulator/entities/tag_equipped_entity.cpp:29-32 | a new container has no tag and no component, is disabled, and leaves the body's anchors alone |
| `TagEquipped.TagEquippedEntity.AddTag` | src/plugins/simulator/entities/tag_equipped_entity.cpp:116-140 | appends one tag with its id, payload, anchor and starting flag, and one component with its id |
| `TagEquipped.TagEquippedEntity.Enable` | src/plugins/simulator/entities/tag_equipped_entity.cpp:92-99 | enables the container and every tag entity (flags only), then each tag's anchor once, in order, so every tag anchor ends enabled |
| `TagEquipped.TagEquippedEntity.Disable` | src/plugins/simulator/entities/tag_equipped_entity.cpp:104-111 | disables the container and every tag entity (flags only), then each tag's anchor once, in order |
| `TagEquipped.TagEquippedEntity.GetTag` | src/plugins/simulator/entities/tag_equipped_entity.cpp:145-154 | with an index in range, returns that tag, whose id is the matching component and whose anchor is on the body |
| `TagEquipped.TagEquippedEntity.SetTagPayload` | src/plugins/simulator/entities/tag_equipped_entity.cpp:159-169 | with an index in range, only that tag's payload changes |
| `TagEquipped.TagEquippedEntity.SetTagPayloads` | src/plugins/simulator/entities/tag_equipped_entity.cpp:174-178 | every tag gets the payload; ids, anchors and components are unchanged |
| `TagEquipped.TagEquippedEntity.SetTagPayloadsEach` | src/plugins/simulator/entities/tag_equipped_entity.cpp:183-199 | throws iff the vector's size differs from the number of tags, changing nothing; otherwise tag i gets payload i |
| `GripperEquipped.GripperEquippedEntity.constructor` | src/plugins/simulator/entities/gripper_equipped_entity.h:52-67 | a standalone gripper has the given offset and direction as current and initial values, the given threshold (0.5 by default), holds nothing and is not gripping |
| `GripperEquipped.GripperEquippedEntity.GetGrippedEntity` | src/plugins/simulator/entities/gripper_equipped_entity.h:198-204 | fails exactly when nothing is gripped, and otherwise returns the gripped entity |
| `GripperEquipped.GripperEquippedEntity.SetGrippedEntity` | src/plugins/simulator/entities/gripper_equipped_entity.h:210-212 | the gripper grips the given entity; lock state, threshold, offsets and directions are unchanged |
| `GripperEquipped.GripperEquippedEntity.ClearGrippedEntity` | src/plugins/simulator/entities/gripper_equipped_entity.h:217-219 | the gripper no longer grips; everything else is unchanged |
| `GripperEquipped.GripperEquippedEntity.SetOffset` | src/plugins/simulator/entities/gripper_equipped_entity.h:101-103 | only the offset changes |
| `GripperEquipped.GripperEquippedEntity.SetInitOffset` | src/plugins/simulator/entities/gripper_equipped_entity.h:110-112 | only the initial offset changes |
| `GripperEquipped.GripperEquippedEntity.SetDirection` | src/plugins/simulator/entities/gripper_equipped_entity.h:135-137 | only the direction changes |
| `GripperEquipped.GripperEquippedEntity.SetInitDirection` | src/plugins/simulator/entities/gripper_equipped_entity.h:144-146 | only the initial direction changes |
| `Gripping.BeginCollision` | src/plugins/simulator/physics_engines/dynamics2d/dynamics2d_gripping.cpp:143-154 | a collision is processed exactly when gripper and grippable belong to different entities |
| `Gripping.ManageCollision` | src/plugins/simulator/physics_engines/dynamics2d/dynamics2d_gripping.cpp:173-193 | a grip is scheduled only for a locked gripper holding nothing and a release only for an unlocked gripper holding something |
| `Gripping.CollisionFollowsLock` | src/plugins/simulator/physics_engines/dynamics2d/dynamics2d_gripping.cpp:173-193 | a grip is scheduled only for a gripper holding nothing, a release only for one holding something, nothing is scheduled exactly when gripping already matches the lock, and after the scheduled action the gripper grips iff it is locked (IsLocked: state above threshold, src/plugins/simulator/entities/gripper_equipped_entity.h:187-189) |
| `Gripping.Gripper.constructor` | src/plugins/simulator/physics_engines/dynamics2d/dynamics2d_gripping.cpp:19-31 | a new gripper holds no grippable |
| `Gripping.Gripper.Grip` | src/plugins/simulator/physics_engines/dynamics2d/dynamics2d_gripping.cpp:56-68 | the gripper entity records the grippee's body, the gripper holds the grippee and is appended to its list, and the grippee's consistency is kept |
| `Gripping.Gripper.Release` | src/plugins/simulator/physics_engines/dynamics2d/dynamics2d_gripping.cpp:73-82 | a gripper holding nothing is left alone; otherwise its entity is cleared and the grippee's list loses this gripper's first occurrence, keeping the grippee consistent |
| `Gripping.Grippable.constructor` | src/plugins/simulator/physics_engines/dynamics2d/dynamics2d_gripping.cpp:87-93 | a new grippable has no grippers |
| `Gripping.Grippable.Attach` | src/plugins/simulator/physics_engines/dynamics2d/dynamics2d_gripping.cpp:105-107 | the gripper is appended to the list |
| `Gripping.Grippable.Remove` | src/plugins/simulator/physics_engines/dynamics2d/dynamics2d_gripping.cpp:112-118 | the first occurrence of the gripper is erased, and a gripper not in the list changes nothing |
| `Gripping.Grippable.Release` | src/plugins/simulator/physics_engines/dynamics2d/dynamics2d_gripping.cpp:123-129 | a listed gripper lets go and leaves the list; an unlisted one is left as it was; consistency is kept |
| `Gripping.Grippable.ReleaseAll` | src/plugins/simulator/physics_engines/dynamics2d/dynamics2d_gripping.cpp:134-138 | the loop empties the list and every gripper that held the body holds nothing afterwards |
| `Kilolib.Seeded` | src/plugins/robots/kilobot/control_interface/kilolib.c:29-36 | word 0 of the seeded state is the seed and each next word follows from the one before by the reference MT19937 seeding step |
| `Kilolib.SeedWordAgreesBelowTopBit` | src/plugins/robots/kilobot/control_interface/kilolib.c:25-33 | while the previous word's top bit is clear, the signed shift of the code gives the reference seeding word |
| `Kilolib.SeedingAsWrittenDiffers` | src/plugins/robots/kilobot/control_interface/kilolib.c:25-33 | seed 0x80000000: the signed state makes the second word differ from the reference one |
| `Kilolib.Extend` | src/plugins/robots/kilobot/control_interface/kilolib.c:43-56 | the extension of N words by k words of a recurrence has N + k words |
| `Kilolib.ExtendRecurs` | src/plugins/robots/kilobot/control_interface/kilolib.c:43-56 | the full extension satisfies x[N+k] = f(x[k], x[k+1], x[k+M]) for every k |
| `Kilolib.Regenerated` | src/plugins/robots/kilobot/control_interface/kilolib.c:43-56 | regeneration yields N new words |
| `Kilolib.MtRecurrence` | src/plugins/robots/kilobot/control_interface/kilolib.c:43-56 | old state followed by the regenerated state satisfies the MT19937 recurrence, so the three in-place loops compute the reference generator |
| `Kilolib.Regenerate` | src/plugins/robots/kilobot/control_interface/kilolib.c:43-56 | the three in-place loops over the array leave exactly the next N words of the recurrence |
| `Kilolib.UnsoftSoft` | src/plugins/robots/kilobot/control_interface/kilolib.c:160-165 | for a fixed accumulator, rand_soft's update can be undone, so it loses no seed |
| `Kilolib.SoftUnsoft` | src/plugins/robots/kilobot/control_interface/kilolib.c:160-165 | the undoing is also a right inverse, so rand_soft permutes the 256 seeds |
| `Kilolib.RgbChannels` | src/plugins/robots/kilobot/control_interface/kilolib.h:38-41 | channels below 4 packed by RGB are read back by RED, GREEN and BLUE, and the packed byte is below 64 |
| `Kilolib.RgbOfChannels` | src/plugins/robots/kilobot/control_interface/kilolib.h:38-41 | every byte below 64 is the packing of its own channels |
| `Kilolib.RgbMasksChannels` | src/plugins/robots/kilobot/control_interface/kilolib.h:38 | RGB keeps only the two low bits of each channel |
| `Kilolib.FirstDigit` | src/plugins/robots/kilobot/control_interface/kilolib.c:231-232 | the position found is the first digit at or after the start, or the end when there is none |
| `Kilolib.LeadingDigits` | src/plugins/robots/kilobot/control_interface/kilolib.c:236 | the result is the longest all-digit prefix of the text |
| `Kilolib.Strtoul` | src/plugins/robots/kilobot/control_interface/kilolib.c:236 | a decimal parse saturates at ULONG_MAX |
| `Kilolib.UidWithoutDigits` | src/plugins/robots/kilobot/control_interface/kilolib.c:232-234 | an id without digits gives uid 0 |
| `Kilolib.UidOfNumberedId` | src/plugins/robots/kilobot/control_interface/kilolib.c:229-237 | an id made of a digit-free prefix and the decimal n gives n truncated to 16 bits, or 0xFFFF when strtoul saturates |
| `Kilolib.ArgosIdToKiloUid` | src/plugins/robots/kilobot/control_interface/kilolib.c:229-237 | the character-skipping loop computes the uid specification |
| `Kilolib.EstimateDistance` | src/plugins/robots/kilobot/control_interface/kilolib.c:128-130 | the result is the high-gain reading modulo 256 |
| `Kilolib.EstimateDistanceRange` | src/plugins/robots/kilobot/control_interface/kilolib.c:128-130 | a reading below 256 is returned unchanged; a reading in 256..511 loses 256 |
| `Kilolib.Plus` | src/plugins/robots/kilobot/control_interface/kilolib.c:94-98 | counters add modulo 2^32 |
| `Kilolib.Kilobot.Deliver` | src/plugins/robots/kilobot/control_interface/kilolib.c:106-111 | the messages waiting are handed to the behaviour in arrival order, after every message delivered before |
| `Kilolib.PreloopDeliversOnce` | src/plugins/robots/kilobot/control_interface/kilolib.c:105-112 | preloop delivers every received message, and a second preloop with no new arrival delivers nothing more |
| `Kilolib.PostloopIdempotent` | src/plugins/robots/kilobot/control_interface/kilolib.c:115-126 | a second postloop changes nothing |
| `Kilolib.PostloopSends` | src/plugins/robots/kilobot/control_interface/kilolib.c:115-126 | postloop starts a transmission exactly when nothing is pending, the clock is past the period and the callback offers a message, which is then the one sent |
| `Kilolib.AcknowledgeThenWait` | src/plugins/robots/kilobot/control_interface/kilolib.c:96-118 | an acknowledged message counts one success and restarts the clock, so postloop sends nothing right after |
| `Kilolib.DelayRounds` | src/plugins/robots/kilobot/control_interface/kilolib.c:132-154 | the wait loop for d milliseconds is n suspended steps followed by a final preloop, when d lies in the n-th tick |
| `Kilolib.Kilobot.constructor` | src/plugins/robots/kilobot/control_interface/kilolib.c:279-284 | start-up: uid from the id, tick count 0, period 100, seed 0xAA, nothing pending, and the generator seeded with the given seed |
| `Kilolib.Kilobot.MtSetSeed` | src/plugins/robots/kilobot/control_interface/kilolib.c:29-36 | the state array holds the reference seeding and the index is N; nothing else changes |
| `Kilolib.Kilobot.MtUniform32` | src/plugins/robots/kilobot/control_interface/kilolib.c:39-64 | when the words are used up the array is regenerated and the index restarts; the result is the tempering of the word taken |
| `Kilolib.Kilobot.RandHard` | src/plugins/robots/kilobot/control_interface/kilolib.c:156-158 | the low byte of the next generator output |
| `Kilolib.Kilobot.RandSoft` | src/plugins/robots/kilobot/control_interface/kilolib.c:160-165 | the seed takes one rand_soft step with the current accumulator, which then counts one more draw |
| `Kilolib.Kilobot.RandSeed` | src/plugins/robots/kilobot/control_interface/kilolib.c:167-169 | only the soft seed changes |
| `Kilolib.Kilobot.Suspend` | src/plugins/robots/kilobot/control_interface/kilolib.c:138-140 | while the process is stopped, only the simulator's writes change the shared state |
| `Kilolib.Kilobot.Preloop` | src/plugins/robots/kilobot/control_interface/kilolib.c:91-113 | the shared state becomes the preloop specification of the old one |
| `Kilolib.Kilobot.Postloop` | src/plugins/robots/kilobot/control_interface/kilolib.c:115-126 | the shared state becomes the postloop specification of the old one |
| `Kilolib.Kilobot.Delay` | src/plugins/robots/kilobot/control_interface/kilolib.c:132-154 | the waiting loop gives the delay specification, and the delay counter ends at 0 unless the wait was shorter than a tick |
| `MainWindow.StartedNeverEmittedAsWritten` | src/plugins/simulator/visualizations/qt-opengl/qtopengl_main_window.cpp:689-724 | as written no handler ever emits ExperimentStarted, and the written handlers differ from the intended ones exactly for Play and FastForward from the initialized state |
| `MainWindow.StartedOnFirstRun` | src/plugins/simulator/visualizations/qt-opengl/qtopengl_main_window.cpp:667-726 | ExperimentStarted is emitted iff Play or FastForward runs on an initialized experiment; the wrong-state report appears iff the state is not accepted, and then the state is kept |
| `MainWindow.OnlyResetInitializes` | src/plugins/simulator/visualizations/qt-opengl/qtopengl_main_window.cpp:667-903 | no handler other than Reset leads from another state to the initialized one |
| `MainWindow.DoneIsFinal` | src/plugins/simulator/visualizations/qt-opengl/qtopengl_main_window.cpp:786-903 | only Reset and Suspend leave a finished experiment |
| `MainWindow.StartedAtMostOncePerRun` | src/plugins/simulator/visualizations/qt-opengl/qtopengl_main_window.cpp:667-903 | over any run of handlers without Reset, ExperimentStarted is emitted at most once, and never if the run starts outside the initialized state |
| `MainWindow.MainWindow.constructor` | src/plugins/simulator/visualizations/qt-opengl/qtopengl_main_window.cpp:127-168 | the window starts with an initialized experiment and no event; with autoplay it runs Play at once (the corrected Play of the Findings row), so the experiment is playing after the play widget call, the started signal and the playing signal |
| `MainWindow.MainWindow.ReportWrongState` | src/plugins/simulator/visualizations/qt-opengl/qtopengl_main_window.cpp:671-675 | the wrong-state report is logged and the state does not change |
| `MainWindow.MainWindow.PlayExperiment` | src/plugins/simulator/visualizations/qt-opengl/qtopengl_main_window.cpp:667-695 | the new state and the events follow the intended transition and effects of Play |
| `MainWindow.MainWindow.PlayExperimentAsWritten` | src/plugins/simulator/visualizations/qt-opengl/qtopengl_main_window.cpp:667-695 | the new state and the events follow Play as written, with the initialized test after the state change |
| `MainWindow.MainWindow.FastForwardExperiment` | src/plugins/simulator/visualizations/qt-opengl/qtopengl_main_window.cpp:700-726 | the new state and the events follow the intended transition and effects of FastForward |
| `MainWindow.MainWindow.FastForwardExperimentAsWritten` | src/plugins/simulator/visualizations/qt-opengl/qtopengl_main_window.cpp:700-726 | the new state and the events follow FastForward as written |
| `MainWindow.MainWindow.StepExperiment` | src/plugins/simulator/visualizations/qt-opengl/qtopengl_main_window.cpp:731-752 | accepted from initialized or paused: widget step, then paused |
| `MainWindow.MainWindow.PauseExperiment` | src/plugins/simulator/visualizations/qt-opengl/qtopengl_main_window.cpp:757-781 | accepted while playing or fast-forwarding: widget pause, then paused |
| `MainWindow.MainWindow.TerminateExperiment` | src/plugins/simulator/visualizations/qt-opengl/qtopengl_main_window.cpp:786-819 | accepted unless initialized or done: widget pause, simulator terminate, post-experiment, then done |
| `MainWindow.MainWindow.ResetExperiment` | src/plugins/simulator/visualizations/qt-opengl/qtopengl_main_window.cpp:824-855 | accepted when suspended or done: widget reset, user functions reset, then initialized |
| `MainWindow.MainWindow.SuspendExperiment` | src/plugins/simulator/visualizations/qt-opengl/qtopengl_main_window.cpp:860-877 | accepted in every state: widget pause, then suspended |
| `MainWindow.MainWindow.ResumeExperiment` | src/plugins/simulator/visualizations/qt-opengl/qtopengl_main_window.cpp:882-903 | accepted only when suspended: then paused, signalling resumed |
| `ObjMaterials.WithAlpha` | src/plugins/simulator/visualizations/qt-opengl/qtopengl_obj_model.cpp:333-352 | the alpha is stored; a value below 1 makes the material transparent and sets the alpha of its ambient, diffuse and specular colours, and any other value leaves the colours alone |
| `ObjMaterials.MtlStep` | src/plugins/simulator/visualizations/qt-opengl/qtopengl_obj_model.cpp:305-357 | one MTL line keeps the state consistent, and throws exactly on a "newmtl" whose name is already defined, then changing nothing |
| `ObjMaterials.ReadMtl` | src/plugins/simulator/visualizations/qt-opengl/qtopengl_obj_model.cpp:302-358 | reading the lines in order keeps the state consistent |
| `ObjMaterials.ReadMtlKeepsMaterials` | src/plugins/simulator/visualizations/qt-opengl/qtopengl_obj_model.cpp:295-359 | reading never loses a defined material, even when it stops on an error |
| `ObjMaterials.NewMaterial` | src/plugins/simulator/visualizations/qt-opengl/qtopengl_obj_model.cpp:309-317 | a fresh "newmtl" name gets a default material and becomes current; a repeated one throws |
| `ObjMaterials.AlphaLines` | src/plugins/simulator/visualizations/qt-opengl/qtopengl_obj_model.cpp:333-352 | "Tr v" gives the current material alpha 1 - v and "d v" alpha v, and only the current material changes |
| `ObjGeometry.AdjustIndex` | src/plugins/simulator/visualizations/qt-opengl/qtopengl_obj_model.cpp:118-122 | a negative index counts back from the end, a positive one is made zero-based |
| `ObjGeometry.AdjustIndexInRange` | src/plugins/simulator/visualizations/qt-opengl/qtopengl_obj_model.cpp:118-122 | an adjusted index names an item exactly when the written one is in 1..count or in -count..-1; index 0 names nothing |
| `ObjGeometry.Field` | src/plugins/simulator/visualizations/qt-opengl/qtopengl_obj_model.cpp:145-201 | a missing or empty field reads as 0, as an empty string's toInt does; a present field gives its value |
| `ObjGeometry.FormatOf` | src/plugins/simulator/visualizations/qt-opengl/qtopengl_obj_model.cpp:141-228 | the face format follows from the first corner's field count: 1 plain, 2 textured, 3 with an empty middle normal-only, 3 otherwise full; more than 3 matches no branch |
| `ObjGeometry.PositionField` | src/plugins/simulator/visualizations/qt-opengl/qtopengl_obj_model.cpp:143-153 | a plain face reads each corner's whole text as a number, which is 0 for a corner with a slash |
| `ObjGeometry.Resolve` | src/plugins/simulator/visualizations/qt-opengl/qtopengl_obj_model.cpp:145-258 | a corner resolves exactly when each index its format uses names an existing item; its key is the adjusted position index and its normal and texture are zero when the format has none |
| `ObjGeometry.FirstMatch` | src/plugins/simulator/visualizations/qt-opengl/qtopengl_obj_model.cpp:375-382 | the result is the first entry whose vertex equals the one sought, or the number of entries |
| `ObjGeometry.Entries` | src/plugins/simulator/visualizations/qt-opengl/qtopengl_obj_model.cpp:372-373 | the entries under a key are those cached under it, or none |
| `ObjGeometry.AddVertex` | src/plugins/simulator/visualizations/qt-opengl/qtopengl_obj_model.cpp:364-389 | the cache stays valid, existing vertices are kept, and the returned index names the vertex sought |
| `ObjGeometry.AddVertexReuses` | src/plugins/simulator/visualizations/qt-opengl/qtopengl_obj_model.cpp:384-388 | the cache is left unchanged exactly when an equal vertex is cached under the key; otherwise the vertex is appended and its index cached under the key |
| `ObjGeometry.AddVertexKeepsUnique` | src/plugins/simulator/visualizations/qt-opengl/qtopengl_obj_model.cpp:364-389 | no two equal vertices are ever cached under one key |
| `ObjGeometry.AppendUnique` | src/plugins/simulator/visualizations/qt-opengl/qtopengl_obj_model.cpp:384-387 | appending a vertex not cached under its key keeps the cache valid and free of duplicates |
| `ObjGeometry.AddCorners` | src/plugins/simulator/visualizations/qt-opengl/qtopengl_obj_model.cpp:155-158 | the vertices of a list of corners can be added exactly when every corner resolves; the result extends the cache and its indices name each corner's vertex |
| `ObjGeometry.AddCornersKeepsUnique` | src/plugins/simulator/visualizations/qt-opengl/qtopengl_obj_model.cpp:155-158 | adding corners never caches two equal vertices under one key |
| `ObjGeometry.FanSize` | src/plugins/simulator/visualizations/qt-opengl/qtopengl_obj_model.cpp:151 | a face of n corners yields n - 2 triangles, none when n < 3 |
| `ObjGeometry.FanPosition` | src/plugins/simulator/visualizations/qt-opengl/qtopengl_obj_model.cpp:155-160 | position e of fan triangle t comes from corner 0, t + 1 or t + 2 |
| `ObjGeometry.FanCorners` | src/plugins/simulator/visualizations/qt-opengl/qtopengl_obj_model.cpp:151-161 | the fan's corner list has three entries per triangle, each a corner of the face |
| `ObjGeometry.FanCornerPlaced` | src/plugins/simulator/visualizations/qt-opengl/qtopengl_obj_model.cpp:151-161 | every corner of a face of at least three corners appears in its fan |
| `ObjGeometry.FanCornersCover` | src/plugins/simulator/visualizations/qt-opengl/qtopengl_obj_model.cpp:151-161 | the fan's corners all resolve exactly when the face's corners all do |
| `ObjGeometry.Chunks` | src/plugins/simulator/visualizations/qt-opengl/qtopengl_obj_model.cpp:155-159 | indices taken three at a time make triangles of the selected material |
| `ObjGeometry.First` | src/plugins/simulator/visualizations/qt-opengl/qtopengl_obj_model.cpp:141 | the first corner of a face, or a single empty field when the face has none |
| `ObjGeometry.Face` | src/plugins/simulator/visualizations/qt-opengl/qtopengl_obj_model.cpp:139-266 | a face read without error keeps the geometry valid and the coordinates unchanged, extends the vertices and triangles, and every new triangle has the selected material |
| `ObjGeometry.ChunksWithin` | src/plugins/simulator/visualizations/qt-opengl/qtopengl_obj_model.cpp:155-159 | triangles cut from indices that name vertices have three indices that name vertices |
| `ObjGeometry.FanTriangleCorners` | src/plugins/simulator/visualizations/qt-opengl/qtopengl_obj_model.cpp:151-161 | fan triangle t is made of corners 0, t + 1 and t + 2 |
| `ObjGeometry.FaceTriangles` | src/plugins/simulator/visualizations/qt-opengl/qtopengl_obj_model.cpp:139-266 | a face of fewer than three corners adds nothing; otherwise it succeeds exactly when all corners resolve, and adds n - 2 triangles, the t-th of the selected material and made of the vertices of corners 0, t + 1 and t + 2 |
| `ObjImport.Select` | src/plugins/simulator/visualizations/qt-opengl/qtopengl_obj_model.cpp:267-274 | "usemtl" selects a defined name, and the default material otherwise |
| `ObjImport.ObjStep` | src/plugins/simulator/visualizations/qt-opengl/qtopengl_obj_model.cpp:129-288 | one line keeps the model consistent and loses no material; only a face line can reach undefined behaviour and only an "mtllib" line can throw |
| `ObjImport.Import` | src/plugins/simulator/visualizations/qt-opengl/qtopengl_obj_model.cpp:113-290 | reading the lines keeps the model consistent and loses no material |
| `ObjImport.Start` | src/plugins/simulator/visualizations/qt-opengl/qtopengl_obj_model.cpp:114-116 | a model with only the default material, selected, is consistent |
| `ObjImport.UseMtlSelects` | src/plugins/simulator/visualizations/qt-opengl/qtopengl_obj_model.cpp:267-274 | "usemtl" only changes the selection, to the name when defined and to the default otherwise |
| `ObjImport.StepCollects` | src/plugins/simulator/visualizations/qt-opengl/qtopengl_obj_model.cpp:275-288 | a line read without error appends exactly the position, normal or texture coordinate it carries |
| `ObjImport.ImportCollects` | src/plugins/simulator/visualizations/qt-opengl/qtopengl_obj_model.cpp:126-289 | lines read to the end append every position, normal and texture coordinate they carry, in order |
| `ObjImport.ImportKeepsUnique` | src/plugins/simulator/visualizations/qt-opengl/qtopengl_obj_model.cpp:113-290 | reading lines never caches two equal vertices under one key |
| `ObjMeshes.Group` | src/plugins/simulator/visualizations/qt-opengl/qtopengl_obj_model.cpp:395-406 | there are no more meshes than triangles, and the last mesh has the last triangle's material |
| `ObjMeshes.GroupKeepsIndices` | src/plugins/simulator/visualizations/qt-opengl/qtopengl_obj_model.cpp:396-406 | the meshes hold exactly the triangles' indices, in order |
| `ObjMeshes.GroupRuns` | src/plugins/simulator/visualizations/qt-opengl/qtopengl_obj_model.cpp:397-402 | no two neighbouring meshes share a material |
| `ObjMeshes.GroupMaterials` | src/plugins/simulator/visualizations/qt-opengl/qtopengl_obj_model.cpp:397-401 | every mesh's material is one of the triangles' materials |
| `ObjMeshes.GroupWithin` | src/plugins/simulator/visualizations/qt-opengl/qtopengl_obj_model.cpp:403-405 | meshes of triangles whose indices name vertices hold only such indices |
| `ObjMeshes.PermutedBelow` | src/plugins/simulator/visualizations/qt-opengl/qtopengl_obj_model.cpp:409-414 | reordering the meshes keeps their indices naming vertices |
| `ObjMeshes.SortDescending` | src/plugins/simulator/visualizations/qt-opengl/qtopengl_obj_model.cpp:407-414 | the result is a permutation of the meshes in descending order of alpha |
| `ObjMeshes.InsertionPoint` | src/plugins/simulator/visualizations/qt-opengl/qtopengl_obj_model.cpp:409-414 | the insertion point comes after every mesh with an alpha at least as large and before a smaller one |
| `ObjMeshes.InsertKeepsOrder` | src/plugins/simulator/visualizations/qt-opengl/qtopengl_obj_model.cpp:409-414 | inserting at that point keeps the order descending |
| `ObjMeshes.InsertCounts` | src/plugins/simulator/visualizations/qt-opengl/qtopengl_obj_model.cpp:409-414 | inserting adds exactly one occurrence |
| `ObjMeshes.GlArray` | src/plugins/simulator/visualizations/qt-opengl/qtopengl_obj_model.cpp:425-434 | the OpenGL array holds x, y and z of every vertex's position or normal, vertex after vertex |
| `ObjModel.Alpha` | src/plugins/simulator/visualizations/qt-opengl/qtopengl_obj_model.cpp:413 | a mesh's sort key is the alpha of its material |
| `ObjModel.FindVertex` | src/plugins/simulator/visualizations/qt-opengl/qtopengl_obj_model.cpp:375-382 | the search loop finds the first cached entry equal to the vertex, or none |
| `ObjModel.GroupAfter` | src/plugins/simulator/visualizations/qt-opengl/qtopengl_obj_model.cpp:396-406 | the loop over the triangles appends exactly their grouping to the meshes |
| `ObjModel.ObjModel.constructor` | src/plugins/simulator/visualizations/qt-opengl/qtopengl_obj_model.cpp:23-25 | a new model has only the default material, no geometry, no mesh and empty OpenGL arrays |
| `ObjModel.ObjModel.GetMaterial` | src/plugins/simulator/visualizations/qt-opengl/qtopengl_obj_model.cpp:50-56 | fails, naming the material, exactly when it is undefined; otherwise returns it |
| `ObjModel.ObjModel.AddVertex` | src/plugins/simulator/visualizations/qt-opengl/qtopengl_obj_model.cpp:364-389 | the cache and index follow the vertex-cache specification; nothing else changes |
| `ObjModel.ObjModel.ImportMaterials` | src/plugins/simulator/visualizations/qt-opengl/qtopengl_obj_model.cpp:295-359 | the materials and the outcome are those of reading the MTL lines from the default material on |
| `ObjModel.ObjModel.AddTriangle` | src/plugins/simulator/visualizations/qt-opengl/qtopengl_obj_model.cpp:155-159 | the three vertices are added in order and one triangle of their indices is appended |
| `ObjModel.ObjModel.AddFace` | src/plugins/simulator/visualizations/qt-opengl/qtopengl_obj_model.cpp:139-266 | the geometry becomes that of the face specification |
| `ObjModel.ObjModel.AddFan` | src/plugins/simulator/visualizations/qt-opengl/qtopengl_obj_model.cpp:151-161 | the fan loop adds the vertices of the fan's corners and the triangles cut from their indices |
| `ObjModel.ObjModel.ImportLine` | src/plugins/simulator/visualizations/qt-opengl/qtopengl_obj_model.cpp:127-288 | one line changes the model and the selection as the line specification says |
| `ObjModel.ObjModel.ImportGeometry` | src/plugins/simulator/visualizations/qt-opengl/qtopengl_obj_model.cpp:113-290 | the line loop gives the model and outcome of the import specification |
| `ObjModel.ObjModel.BuildMeshes` | src/plugins/simulator/visualizations/qt-opengl/qtopengl_obj_model.cpp:394-415 | the meshes become a permutation of the existing ones plus the grouped triangles, in descending order of alpha |
| `ObjModel.ObjModel.GenerateOpenGLVectors` | src/plugins/simulator/visualizations/qt-opengl/qtopengl_obj_model.cpp:420-435 | the OpenGL arrays gain the positions and normals of every vertex |
| `ObjModel.ObjModel.Load` | src/plugins/simulator/visualizations/qt-opengl/qtopengl_obj_model.cpp:23-45 | the model is the import of the lines; an import error is passed on with no mesh; otherwise the meshes are the grouped triangles sorted by alpha with valid indices, a model without normals is refused, and on success the OpenGL arrays hold every vertex |

## Left out

- Floating-point encoding in the byte array (the `double`/`float` stream operators, byte_array.cpp:393-484): IEEE-754 bit layouts are outside integer reasoning.
- Floating-point geometry: `PositionToCell`, the sphere and circle cell ranges of the grid, and entity positions and orientations. Cells are given as integer coordinates, and the arena box an engine covers is a predicate parameter.
- Physics engines and physics models: foreign libraries over floats. An engine is represented by whether it contains the position and whether it accepts the entity, given as a sequence of booleans.
- `EmbodiedEntity.EmbodiedEntity.AddPhysicsModel` requires a model that is not yet stored, because each engine creates a fresh model before it adds it.
- The space-hash updater and the grid updater compute cells from float positions. The cells an entity occupies are given as parameters.
- `SpaceHashNative` `Dump`: a debugging printer.
- `EntityOperations.HasParent` is a plain predicate (parent is present), so it has no contract and no row.
- `GripperEquipped.GripperEquippedEntity.IsLocked` (gripper_equipped_entity.h:187-189), `GripperEquipped.GripperEquippedEntity.IsGripping` (gripper_equipped_entity.h:194-197), `Gripping.Gripper.IsGripping`, `ByteArrays.ByteArray.Size`, `ByteArrays.ByteArray.Empty`, `EmbodiedEntity.EmbodiedEntity.GetPhysicsModelsNum` and `Space.Space.SimulationClock` are plain accessors that read one field or its size, so they have no contract and no row; the contracts that use them state what they mean.
- OpenGL drawing of the OBJ model (qtopengl_obj_model.cpp:61-97) and `GetModelDir`: rendering and file-system paths.
- File I/O of OBJ and MTL files and the Qt whitespace split: the model takes lines already split into tokens. A missing `mtllib` file reads as no lines. File names are left out of error messages.
- Float parsing of OBJ and MTL numbers: values are given as `real`. Index text that is not a number is left out; indices are given as integers.
- `ObjModel.ObjModel.ImportGeometry` and `ObjModel.ObjModel.Load`: a face index outside the vertex list is undefined behaviour in C++ and is modelled as an `Undefined` outcome. The methods require the import to succeed instead of modelling the corrupted memory.
- `ObjModel.ObjModel.BuildMeshes` requires three indices per triangle, which the triangulation always produces.
- `ObjModel.ObjModel.BuildMeshes`: `std::sort` is not stable, so meshes with equal alpha may come out in any order. The contract states only a permutation in descending alpha order; the stable insertion sort used is one admissible outcome.
- The default-constructed material's values are declared in a header that is not part of this model, so the blank material is a parameter. Emission and shininess are not read by the importer and are left out.
- Indices are modelled as unbounded integers; the 32-bit `SInt32` overflow of face indices in the importer is not modelled.
- The OBJ model constructor is split into `constructor` and `Load`, so that the import can report an error.
- Colour constants (color.cpp) are not part of this model: their channel values are a `Palette` parameter with the 20 names of color.h.
- gripper_equipped_entity.cpp is not part of this model: the lock-state setters, `Init`, `Reset` and the anchor update are left out. Only the inline accessors of the header are modelled.
- The chipmunk constraint and anchor computations of the gripping model (`CalculateAnchor`, constraint creation and destruction): physics over floats. The release and grip decisions are modelled, and the constraints are represented by the bookkeeping they accompany.
- Main window widgets: enabling and disabling of buttons and actions, timers and signal connections. Only the experiment state and the emitted signals are modelled.
- Kilobot runtime: `main`, shared memory, signals, the user callbacks (given as values), motors and sensors. The tick length per step is a parameter.
- LED and tag equipment: positions, offsets, the communication medium (which an LED joins or leaves when its flag changes) and `Init` from XML. The containers' and the instances' enabled flags, colours and payloads are modelled.
- tag_entity.cpp is not part of this model: the enabled flag a new tag entity starts with is a parameter of `TagEquipped.TagEquippedEntity.AddTag`.
- `CommandLine.CommandLineArgParser.Parse`: the conversion of the text value to the option's C++ type through stream extraction is left out. Values are recorded as the text given.
- `Color.ParseValues` and `Color.Color.SetFromString`: string_utilities.h is not part of this model, and the field parser is modelled as strict parsing of exactly four comma-separated decimal fields below 65536. The C++ `ParseValues` reads up to four fields with `std::getline` and converts each with stream extraction, so it also accepts extra fields (ignored), leading blanks, and non-numeric fields (read as 0). The model refuses those strings.
- `Kilolib.Kilobot.Delay` and `Kilolib.DelaySpec`: they require a positive tick length whenever `ms` is not 0. The tick length comes from an unchecked `strtoul` of the program's second argument (kilolib.c:280). With a tick length of 0 and `ms > 0`, the loop at kilolib.c:144-146 subtracts 0 forever and `delay` never returns. That non-terminating call is not modelled.
- `Space.Space.RemoveEntity` and `Space.Remove`: they require that, when the per-type map of the entity's type holds its qualified name, the entity is the one registered under that name. Otherwise the C++ code looks for the object in the entity vector with `std::find`, gets `end()`, and erases that iterator (space.h:301-304). That is undefined behaviour and is not modelled. A name taken by an entity of another type is allowed: the per-type lookup misses and the call throws (space.h:321-323, proved by `Space.RemoveOtherTypeThrows`). Entities are compared as values, where the C++ compares object addresses.
- `ByteArrays.ByteArray.PopFront` and `ByteArrays.ByteArray.PopFrontSigned`: only the integer instantiations of `PopFront<T>` are modelled. The `Real`, `float` and string instantiations follow the floating-point operators (left out above) and `PopString`.
- Concurrency: only the thread range function of the multi-thread space is modelled; threads and their synchronisation are not.

## Findings

| source | as written | input that shows it | evidently intended | confidence | as-written member | corrected member |
|---|---|---|---|---|---|---|
| src/core/utility/datatypes/byte_array.cpp:502-515 | reading a string with no NUL byte reads the element one past the buffer | buffer [0x41, 0x42] | stop at the end of the buffer and return all of its bytes | not executed | `ByteArrays.StringProbeExample` | `ByteArrays.ByteArray.PopString` |
| src/core/simulator/entity/embodied_entity.cpp:279-284 | the index guard is `un_idx > size`, so index == size is dereferenced | one physics model, index 1 | reject `un_idx >= size` | not executed | `EmbodiedEntity.GetPhysicsModelReadsPastEnd` | `EmbodiedEntity.GetPhysicsModelCorrected` |
| src/core/utility/configuration/command_line_arg_parser.cpp:194-204 | the last letter of a group that takes a value reads the next argument without checking that it exists | argv ["argos3", "-fv"] with f a flag and v an option with a value | report an error, as the single-option forms do when the value is missing | not executed | `CommandLine.GroupReadsPastArgc` | `CommandLine.ParseGroup` |
| src/core/utility/datatypes/color.h:241-244 | the 8-bit channels are streamed as characters, not numbers | channels (65, 66, 67, 68) print as "A,B,C,D" | print decimal numbers that the string setter reads back | not executed | `Color.PrintAsWrittenDoesNotReadBack` | `Color.PrintParseRoundTrip` |
| src/plugins/robots/kilobot/control_interface/kilolib.c:25-33 | the state words are signed, so the right shift by 30 is arithmetic | seed 0x80000000 | the logical shift of the reference Mersenne Twister | not executed | `Kilolib.SeedingAsWrittenDiffers` | `Kilolib.Seeded` |
| src/plugins/simulator/visualizations/qt-opengl/qtopengl_main_window.cpp:689-724 | the state is changed before it is compared with INITIALIZED, so the experiment-started signal is never sent | Play from INITIALIZED | emit the signal on the first run | not executed | `MainWindow.StartedNeverEmittedAsWritten` | `MainWindow.StartedOnFirstRun` |
