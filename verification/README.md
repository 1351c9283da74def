# EntityDataReader model

A Dafny model of `EntityDataReader<TEntity>` from EntityFramework.Extended.
The reader is a forward-only, read-once `IDataReader`. It presents a sequence
of entities as rows and columns, so that a bulk-copy consumer can stream them
into a table. The columns come from the entity map's ordered list of property
descriptors. Each descriptor has a column name, a property name and an
auto-generated flag.

The reader is modelled as an immutable value, `EntityDataReader.Reader`. Each
member of the class is a function from the reader and its arguments to
`Result<T, Error>`. `Error` stands for the exception the member throws. `Read`
also returns the reader's next state.

A null reference is `None`. Disposing the reader clears its references, so
every member that dereferences one of them yields `NullReference`.

The constructor is the method `EntityDataReader.New`. It calls
`ColumnIndex.BuildColumns`, which runs the source's loop:

- `idx` runs down from `N-1` while `i` runs up from 0, with `idx + i == N-1`;
- the column name of descriptor `idx` is registered at position `i` in a
  case-insensitive name index;
- slot `i` of the accessor table gets the accessor of descriptor `idx`.

The index is a `map<string, int>` keyed by case-folded names (`CaseFold`).
Reflection is a map lookup: `Mapping.GetProperty` finds a property of the
entity type by exact name, or yields `None`. An entity is its getter function
from property name to boxed value.

Files:

- `wrappers.dfy`: `Option` and `Result`.
- `case_fold.dfy`: ordinal-ignore-case comparison, as ASCII upper-case folding.
- `mapping.dfy`: descriptors, the entity type, entities, and the accessor a
  descriptor gets.
- `column_index.dfy`: the constructor loop and what it establishes about the
  name index and the accessor table.
- `data_reader.dfy`: the reader's state, its invariant, and every member.
- `reader_properties.dfy`: properties that relate several calls, and a worked
  example.

The reader uses two orders. `GetName(i)` and
`GetFieldType(i)` index the descriptors in declaration order. The name index
and the value slots use the reversed order. So, with distinct names, the
ordinal of `GetName(i)` is `N-1-i`. With distinct names, after a read, a
column with an accessor read by its own name gives its own property's value,
because the two reversals cancel (`ReaderProperties.ItemAfterRead`). A column
without an accessor keeps its previous value. When names are equal ignoring
case, all of them read the earliest descriptor's slot.

Three behaviours of the code are easy to miss, and the model keeps them:

- The code leaves `_propInfos` in place on `Dispose`; it is not cleared.
- The code keeps the enumerator after `Read` returns false; it is not released.
- `GetName` does not use the reversed order. For the two-column example
  `[Id (auto-generated), Name]`, `GetName(0)` is `"Id"` and `GetName(1)` is
  `"Name"`. The ordinals are `Name` at 0 and `Id` at 1
  (`ReaderProperties.ExampleNames`, `ReaderProperties.ExampleOrdinals`).

## Model

| member | source | states |
|---|---|---|
| EntityDataReader.New | Source/EntityFramework.Extended/Batch/EntityDataReader.cs:19-43 | A null entity sequence throws ArgumentNull("entities") before the mapping is examined. A null mapping throws ArgumentNull("entityMap"). Otherwise the reader is valid and fresh: the enumerator is at the start, nothing is current, and all N buffer slots are null. The field count and the accessor table's length are both N. |
| ColumnIndex.BuildColumns | Source/EntityFramework.Extended/Batch/EntityDataReader.cs:31-41 | The reverse two-counter loop yields the case-insensitive name index of all descriptors. The loop keeps idx + i == N-1. It also yields the accessor table, whose slot i holds descriptor N-1-i's accessor. |
| ColumnIndex.RegisterStep | Source/EntityFramework.Extended/Batch/EntityDataReader.cs:35-38 | Registering descriptor idx's key at position N-1-idx turns an index of descriptors idx+1..N-1 into an index of descriptors idx..N-1. Each key points at its earliest occurrence in that range. |
| ColumnIndex.FillStep | Source/EntityFramework.Extended/Batch/EntityDataReader.cs:39-40 | One loop step fills slot i with descriptor N-1-i's accessor. An auto-generated column skips the write (continue) and leaves the slot null. |
| ColumnIndex.KeyLookup | Source/EntityFramework.Extended/Batch/EntityDataReader.cs:35-38 | A key is in the built index iff some descriptor has it, and then it points at the first such descriptor. |
| ColumnIndex.KeyMatchesName | Source/EntityFramework.Extended/Batch/EntityDataReader.cs:32 | A descriptor's registered key equals the folded name iff its column name equals the name ignoring case. |
| ColumnIndex.IndexHoldsExactlyTheColumnNames | Source/EntityFramework.Extended/Batch/EntityDataReader.cs:32-38 | The index contains a name (ignoring case) iff some descriptor's column name equals it ignoring case. |
| ColumnIndex.NameLookup | Source/EntityFramework.Extended/Batch/EntityDataReader.cs:49-50 | A lookup of a name finds an entry iff some column name matches it ignoring case (lines 197-198 too). The entry is N-1-j for the earliest matching descriptor j. |
| ColumnIndex.IndexPointsAtEarliest | Source/EntityFramework.Extended/Batch/EntityDataReader.cs:35-38 | A registered name maps to N-1-j, where j is the earliest descriptor whose name matches it ignoring case: the loop writes that descriptor last. |
| ColumnIndex.DistinctNamesReversed | Source/EntityFramework.Extended/Batch/EntityDataReader.cs:35-38 | With distinct names, descriptor j is registered at exactly N-1-j. |
| ColumnIndex.DistinctKeysReversed | Source/EntityFramework.Extended/Batch/EntityDataReader.cs:35-38 | DistinctNamesReversed, stated on the key sequence. |
| ColumnIndex.EarliestDescriptorWins | Source/EntityFramework.Extended/Batch/EntityDataReader.cs:35-38 | When descriptors j1 < j2 have names equal ignoring case, their shared entry is at least N-1-j1. The later write, from the smaller idx, wins. |
| CaseFold.EqualsIgnoreCaseCharwise | Source/EntityFramework.Extended/Batch/EntityDataReader.cs:32 | Two names are equal ignoring case iff they have the same length and agree character by character after folding. |
| Mapping.GetProperty | Source/EntityFramework.Extended/Batch/EntityDataReader.cs:40 | The lookup succeeds iff the entity type has a property of exactly that name, and then it yields that property. |
| Mapping.AccessorOf | Source/EntityFramework.Extended/Batch/EntityDataReader.cs:39-40 | A descriptor has an accessor iff it is not auto-generated and its property name resolves on the entity type. The accessor is that property. |
| EntityDataReader.FieldCount | Source/EntityFramework.Extended/Batch/EntityDataReader.cs:70-76 | Throws NullReference iff the reader is closed. Otherwise it equals the length of both the value buffer and the accessor table. |
| EntityDataReader.GetOrdinal | Source/EntityFramework.Extended/Batch/EntityDataReader.cs:195-199 | Throws NullReference on a closed reader. On an open one it succeeds iff some column name equals the name ignoring case, and otherwise throws IndexOutOfRange("No column named '<name>'"). The ordinal is N-1-j for the earliest such descriptor j. |
| EntityDataReader.Item | Source/EntityFramework.Extended/Batch/EntityDataReader.cs:45-52 | The same failure cases and messages as GetOrdinal. On success it is the buffered value at GetOrdinal(name). |
| EntityDataReader.ValueAt | Source/EntityFramework.Extended/Batch/EntityDataReader.cs:54-60 | Integer indexer and GetValue (lines 211-214). Succeeds iff 0 <= i < FieldCount, and then returns buffer slot i. Otherwise it throws IndexOutOfRange with the array-bounds message, or NullReference once closed. |
| EntityDataReader.IsDBNull | Source/EntityFramework.Extended/Batch/EntityDataReader.cs:222-225 | Throws exactly when ValueAt throws, with the same error. Otherwise it is true iff the value at i is null. |
| EntityDataReader.GetName | Source/EntityFramework.Extended/Batch/EntityDataReader.cs:190-193 | Succeeds iff 0 <= i < FieldCount, and then returns descriptor i's column name in declaration order, not the name registered at ordinal i. Otherwise it throws ArgumentOutOfRange, or NullReference once closed. |
| EntityDataReader.GetFieldType | Source/EntityFramework.Extended/Batch/EntityDataReader.cs:160-163 | Throws NullReference once closed and ArgumentOutOfRange outside 0..N-1. Otherwise it succeeds iff descriptor i's property resolves, and then returns that property's declared type. An unresolved property throws NullReference, because `.PropertyType` is read on a null lookup result. Descriptor i is taken in declaration order, and an auto-generated column still reports its property's type. |
| EntityDataReader.GetValues | Source/EntityFramework.Extended/Batch/EntityDataReader.cs:216-220 | Once closed, throws NullReference. A null destination throws ArgumentNull("destinationArray"), and one shorter than FieldCount throws Argument. Otherwise it returns FieldCount, copies the N buffer slots into dest[0..N), and leaves the rest of dest as it was. |
| EntityDataReader.GetData | Source/EntityFramework.Extended/Batch/EntityDataReader.cs:134-138 | Returns the reader itself iff i == 0, and null otherwise. |
| EntityDataReader.Dispose | Source/EntityFramework.Extended/Batch/EntityDataReader.cs:99-107 | The result is valid and closed (phase Closed). The accessor table and entity type are left as they were. |
| EntityDataReader.Close | Source/EntityFramework.Extended/Batch/EntityDataReader.cs:94-97 | Close is Dispose. |
| EntityDataReader.ProjectWritesRow | Source/EntityFramework.Extended/Batch/EntityDataReader.cs:236 | Writing an entity through the accessor table fills slot i with the value of descriptor N-1-i's property when it has an accessor, and leaves every other slot unchanged. |
| EntityDataReader.Read | Source/EntityFramework.Extended/Batch/EntityDataReader.cs:232-238 | Throws NullReference iff closed. It returns true iff an entity is left, and keeps the reader valid without touching the index, mapping or accessor table. At the end, current becomes null, the buffer and position are unchanged, and the phase is Exhausted. Otherwise the next entity becomes current and the phase is Active. A null entity leaves the buffer unchanged; a non-null one writes its row. |
| ReaderProperties.ReadTimes | Source/EntityFramework.Extended/Batch/EntityDataReader.cs:232-238 | k successive reads on a valid reader give k results and a valid reader with the same tables. On a closed reader they throw NullReference. |
| ReaderProperties.ReadResults | Source/EntityFramework.Extended/Batch/EntityDataReader.cs:234-237 | On an open reader p entities into M, the j-th of k reads returns true iff p + j < M. The enumerator ends min(p + k, M) entities in, and after k > 0 reads the reader is Exhausted iff p + k > M. |
| ReaderProperties.ReadTrueExactlyM | Source/EntityFramework.Extended/Batch/EntityDataReader.cs:232-238 | A fresh reader over M entities returns true exactly M times, then false, and ends Exhausted. |
| ReaderProperties.UnboundSlotNeverWritten | Source/EntityFramework.Extended/Batch/EntityDataReader.cs:39-40 | Slot i keeps its value through any number of reads when descriptor N-1-i is auto-generated or its property does not resolve. |
| ReaderProperties.NameThenOrdinal | Source/EntityFramework.Extended/Batch/EntityDataReader.cs:190-199 | GetName(i) is descriptor i's column name, and its ordinal is at least N-1-i. With distinct names the ordinal is exactly N-1-i. |
| ReaderProperties.DistinctNameThenOrdinal | Source/EntityFramework.Extended/Batch/EntityDataReader.cs:190-199 | With distinct names, the ordinal of descriptor i's column name is exactly N-1-i. |
| ReaderProperties.OrdinalIgnoresCase | Source/EntityFramework.Extended/Batch/EntityDataReader.cs:45-52 | Names that agree character by character after folding (the ordinal-ignore-case comparison of line 32) succeed or fail together. On success they give the same ordinal (lines 195-199) and the same indexer value. |
| ReaderProperties.ItemAfterRead | Source/EntityFramework.Extended/Batch/EntityDataReader.cs:35-51 | With distinct names, after a read that produces an entity, the indexer finds every column by its own name. A column with an accessor reads the value of its own property. A column without one keeps the value it had before. |
| ReaderProperties.GetValuesAgreesWithIndexer | Source/EntityFramework.Extended/Batch/EntityDataReader.cs:216-220 | After a successful GetValues, position k of the destination is what the integer indexer returns for k when k < FieldCount; beyond FieldCount the indexer throws (lines 54-60). |
| ReaderProperties.FieldTypeMirrorsSlot | Source/EntityFramework.Extended/Batch/EntityDataReader.cs:160-163 | When slot i has an accessor, GetFieldType(N-1-i) is that property's declared type. Field types and value slots run in opposite orders. |
| ReaderProperties.DisposedReaderThrows | Source/EntityFramework.Extended/Batch/EntityDataReader.cs:94-107 | After Dispose, the reader is closed and every member that dereferences a cleared field throws NullReference: Read, FieldCount, both indexers, IsDBNull, GetName, GetOrdinal, GetFieldType and GetValues. A second Dispose changes nothing, and Close equals Dispose. |
| ReaderProperties.FixedAnswers | Source/EntityFramework.Extended/Batch/EntityDataReader.cs:62-68 | Depth is 0, RecordsAffected is -1 (lines 86-92) and NextResult is false (lines 227-230). All three hold before and after a read and after disposal. |
| ReaderProperties.PhaseTransitions | Source/EntityFramework.Extended/Batch/EntityDataReader.cs:78-84 | The phase is Closed iff IsClosed. Nothing leaves Closed. Read takes Ready or Active to Active iff it returns true (lines 232-238), and Exhausted stays Exhausted. |
| ReaderProperties.ExampleKeys | Source/EntityFramework.Extended/Batch/EntityDataReader.cs:32 | The worked example's names, "Id" and "Name", fold to distinct keys. |
| ReaderProperties.ExampleNames | Source/EntityFramework.Extended/Batch/EntityDataReader.cs:190-193 | For the descriptors [Id (auto-generated), Name], GetName(0) is "Id" and GetName(1) is "Name". This is declaration order. |
| ReaderProperties.ExampleOrdinals | Source/EntityFramework.Extended/Batch/EntityDataReader.cs:35-38 | For the same descriptors, GetOrdinal("Name") is 0 and GetOrdinal("id") is 1. The index is reversed and ignores case. |
| ReaderProperties.ExampleRow | Source/EntityFramework.Extended/Batch/EntityDataReader.cs:45-52 | After one read of the entity {Id = 5, Name = "Ann"}, the indexer gives "Ann" for "Name" (line 236). |
| ReaderProperties.ExampleIdNeverPopulated | Source/EntityFramework.Extended/Batch/EntityDataReader.cs:39-40 | After the same read, the indexer gives null for "ID". The auto-generated column is never populated, even though the entity has an Id. |
| ReaderProperties.ExampleEnd | Source/EntityFramework.Extended/Batch/EntityDataReader.cs:232-238 | On the one-entity example the first read returns true and the second false. |

## Left out

- The typed getters (`GetBoolean` through `GetString`, lines 109-208) are only unboxing casts of the buffered value. `GetDouble` and `GetFloat` also involve floating point.
- `GetBytes`, `GetChars`, `GetDataTypeName` and `GetSchemaTable` only throw `NotImplementedException`.
- `IEnumerator.Reset` on an arbitrary enumerable is not modelled. The entity sequence is a finite `seq`, and its enumerator starts at the beginning. An enumerator whose `Reset` throws is out of scope.
- Case folding is ASCII upper-casing only. The ordinal-ignore-case comparer's full Unicode case mapping is not modelled.
- Reflection is reduced to exact-name lookup in a property map. An ambiguous-match exception from `GetProperty` is not modelled, and neither is an exception thrown by a property getter during `Read`.
- Null arguments and null mapping data are not modelled: names, descriptors and lists are never null here. The unmodelled cases are:
  - a null `name` argument;
  - a null column name in a descriptor;
  - a null `PropertyMaps` list;
  - a null element of `PropertyMaps`, which would throw NullReference at `propMap.ColumnName` (line 38);
  - a null `PropertyName`, which would make `GetProperty` throw ArgumentNull (line 40).
- `PropertyMaps` is taken to be a list, so an out-of-range index into it throws `ArgumentOutOfRange`.
- Exception messages are kept only for "No column named '<name>'" and the array-bounds message. Every other exception is identified by its type alone.
- The exception thrown by an out-of-range value-buffer index is modelled as `IndexOutOfRange`. The runtime's own message text is taken as given.
- Concurrency and thread safety: the reader is single-threaded.
- The entity map and the entity collection are shared references in the code. `FieldCount`, `GetName` and `GetFieldType` re-read `PropertyMaps` on each call, while the buffer, the accessor table and the index are sized once at construction. The model takes the map and the collection to be unchanged while the reader is open. A caller that changes them mid-read is outside the model.
- Boxed values are a small closed datatype (`Mapping.Value`), because the reader never looks inside them.
- EntityDataReader.GetData: returns the reader as a value. Reference identity is not modelled, because the model has no heap.
- ColumnIndex.EarliestDescriptorWins: states only a lower bound (at least N-1-j1) for colliding names. The exact position is given by ColumnIndex.IndexPointsAtEarliest.
- EntityDataReader.GetFieldType: returns the declared type's name as a string, not a CLR `Type` object.
