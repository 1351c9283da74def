/** The forward-only, read-once tabular reader over a sequence of entities
    (`EntityDataReader<TEntity>`). The reader is an immutable value: every
    operation is a function from the reader (and its arguments) to the
    returned value or the thrown exception, and `Read` also returns the
    reader's next state. */
module EntityDataReader {
  import opened Wrappers
  import opened CaseFold
  import opened Mapping
  import opened ColumnIndex

  /** The exceptions the reader's members can throw. */
  datatype Error =
    | ArgumentNull(paramName: string)   // a required argument was null
    | Argument                          // destination array too short
    | IndexOutOfRange(message: string)  // unknown column name, or array index out of bounds
    | ArgumentOutOfRange                // list index out of bounds
    | NullReference                     // member used after the reader was disposed

  /** The runtime's message for an array index out of bounds. */
  const ArrayBoundsMessage: string := "Index was outside the bounds of the array."

  /** The message of the error for an unregistered column name. */
  function NoColumnMessage(name: string): string
  {
    "No column named '" + name + "'"
  }

  /** The entity enumerator: the sequence, how many elements `MoveNext` has
      produced, and whether `MoveNext` has already reported the end. */
  datatype Cursor = Cursor(items: seq<Option<Entity>>, position: nat, finished: bool)

  /** The reader's fields. `None` is a null reference; `propInfos` is never
      null, since disposing the reader leaves it in place. */
  datatype Reader = Reader(
    entityType: EntityType,
    entities: Option<seq<Option<Entity>>>,
    enumerator: Option<Cursor>,
    entityMap: Option<EntityMap>,
    columnNameIndex: Option<map<string, int>>,
    propInfos: seq<Option<string>>,
    values: Option<seq<Slot>>,
    current: Option<Entity>)

  /** The life-cycle states of the reader. */
  datatype Phase = Ready | Active | Exhausted | Closed

  /** The reader's invariant. A closed reader has every reference cleared.
      An open one has a descriptor list of `N` entries, a value buffer of `N`
      slots, the name index and accessor table of that list, an enumerator
      over the entity sequence, and the current entity is the one the
      enumerator last produced. */
  ghost predicate Valid(r: Reader)
  {
    if r.entities.None? then
      && r.enumerator.None? && r.entityMap.None? && r.columnNameIndex.None?
      && r.values.None? && r.current.None?
    else
      && r.enumerator.Some? && r.entityMap.Some? && r.columnNameIndex.Some? && r.values.Some?
      && r.enumerator.value.items == r.entities.value
      && r.enumerator.value.position <= |r.enumerator.value.items|
      && (r.enumerator.value.finished ==> r.enumerator.value.position == |r.enumerator.value.items|)
      && |r.values.value| == |r.entityMap.value.propertyMaps|
      && IsColumnIndex(r.entityMap.value.propertyMaps, r.columnNameIndex.value)
      && IsAccessorTable(r.entityMap.value.propertyMaps, r.entityType, r.propInfos)
      && (r.current.Some? ==>
            0 < r.enumerator.value.position && r.enumerator.value.items[r.enumerator.value.position - 1] == r.current)
  }

  /** `IsClosed`: the reader is closed when its entity sequence is null. */
  predicate IsClosed(r: Reader)
  {
    r.entities.None?
  }

  /** The descriptor list of an open reader. */
  function Maps(r: Reader): seq<PropertyMap>
    requires r.entityMap.Some?
  {
    r.entityMap.value.propertyMaps
  }

  /** Where the reader is in its life cycle. */
  function PhaseOf(r: Reader): Phase
  {
    match r.enumerator
    case None => Closed
    case Some(c) => if c.finished then Exhausted else if c.position == 0 then Ready else Active
  }

  /** The state right after construction: the enumerator is at the start of
      the sequence, nothing is current, and every buffer slot is null. */
  ghost predicate IsFreshReader(r: Reader, items: seq<Option<Entity>>, em: EntityMap, t: EntityType)
  {
    && r.entityType == t
    && r.entities == Some(items)
    && r.entityMap == Some(em)
    && r.enumerator == Some(Cursor(items, 0, false))
    && r.current.None?
    && r.values.Some?
    && forall i :: 0 <= i < |r.values.value| ==> r.values.value[i].None?
  }

  /** The constructor. A null entity sequence is rejected before the mapping
      is looked at; the enumerator is reset to the start; the value buffer
      has one null slot per descriptor; the name index and the accessor
      table are built by the reverse loop of `BuildColumns`. */
  method New(entities: Option<seq<Option<Entity>>>, entityMap: Option<EntityMap>, t: EntityType)
    returns (res: Result<Reader, Error>)
    ensures entities.None? ==> res == Failure(ArgumentNull("entities"))
    ensures entities.Some? && entityMap.None? ==> res == Failure(ArgumentNull("entityMap"))
    ensures entities.Some? && entityMap.Some? ==>
              && res.Success?
              && Valid(res.value)
              && IsFreshReader(res.value, entities.value, entityMap.value, t)
              && PhaseOf(res.value) == Ready
              && FieldCount(res.value) == Success(|entityMap.value.propertyMaps|)
              && |res.value.propInfos| == |entityMap.value.propertyMaps|
  {
    if entities.None? {
      return Failure(ArgumentNull("entities"));
    }
    var enumerator := Cursor(entities.value, 0, false);
    if entityMap.None? {
      return Failure(ArgumentNull("entityMap"));
    }
    var n := |entityMap.value.propertyMaps|;
    var values: seq<Slot> := seq(n, _ => None);
    var index, propInfos := BuildColumns(entityMap.value.propertyMaps, t);
    return Success(Reader(t, entities, Some(enumerator), entityMap, Some(index), propInfos, Some(values), None));
  }

  /** `FieldCount`: the number of descriptors, which is also the length of
      the value buffer and of the accessor table; throws once disposed. */
  function FieldCount(r: Reader): (res: Result<int, Error>)
    requires Valid(r)
    ensures res.Failure? <==> IsClosed(r)
    ensures res.Failure? ==> res.error == NullReference
    ensures res.Success? ==> res.value == |r.values.value| == |r.propInfos|
  {
    match r.entityMap
    case None => Failure(NullReference)
    case Some(em) => Success(|em.propertyMaps|)
  }

  /** `GetOrdinal`: the position registered for the name, compared ignoring
      case; an unregistered name throws "No column named". */
  function GetOrdinal(r: Reader, name: string): (res: Result<int, Error>)
    requires Valid(r)
    ensures IsClosed(r) ==> res == Failure(NullReference)
    ensures !IsClosed(r) ==> (res.Success? <==> NamesAColumn(Maps(r), name))
    ensures !IsClosed(r) && res.Failure? ==> res.error == IndexOutOfRange(NoColumnMessage(name))
    ensures res.Success? ==> 0 <= res.value < |Maps(r)| && EarliestMatch(Maps(r), name, |Maps(r)| - 1 - res.value)
  {
    match r.columnNameIndex
    case None => Failure(NullReference)
    case Some(index) =>
      NameLookup(Maps(r), index, name);
      if Fold(name) !in index then Failure(IndexOutOfRange(NoColumnMessage(name)))
      else Success(index[Fold(name)])
  }

  /** `this[string]`: the buffered value of the column with that name,
      compared ignoring case; an unregistered name throws "No column named". */
  function Item(r: Reader, name: string): (res: Result<Slot, Error>)
    requires Valid(r)
    ensures IsClosed(r) ==> res == Failure(NullReference)
    ensures !IsClosed(r) ==> (res.Success? <==> NamesAColumn(Maps(r), name))
    ensures !IsClosed(r) && res.Failure? ==> res.error == IndexOutOfRange(NoColumnMessage(name))
    ensures res.Success? ==>
              GetOrdinal(r, name).Success? && Success(res.value) == ValueAt(r, GetOrdinal(r, name).value)
  {
    match r.columnNameIndex
    case None => Failure(NullReference)
    case Some(index) =>
      NameLookup(Maps(r), index, name);
      if Fold(name) !in index then Failure(IndexOutOfRange(NoColumnMessage(name)))
      else Success(r.values.value[index[Fold(name)]])
  }

  /** `this[int]` and `GetValue`: the buffered value at a position; a
      position outside the buffer throws. */
  function ValueAt(r: Reader, i: int): (res: Result<Slot, Error>)
    requires Valid(r)
    ensures IsClosed(r) ==> res == Failure(NullReference)
    ensures !IsClosed(r) ==> (res.Success? <==> FieldCount(r).Success? && 0 <= i < FieldCount(r).value)
    ensures !IsClosed(r) && res.Failure? ==> res.error == IndexOutOfRange(ArrayBoundsMessage)
    ensures res.Success? ==> res.value == r.values.value[i]
  {
    match r.values
    case None => Failure(NullReference)
    case Some(vals) =>
      if 0 <= i < |vals| then Success(vals[i]) else Failure(IndexOutOfRange(ArrayBoundsMessage))
  }

  /** `IsDBNull`: whether the buffered value at a position is null. */
  function IsDBNull(r: Reader, i: int): (res: Result<bool, Error>)
    requires Valid(r)
    ensures res.Failure? <==> ValueAt(r, i).Failure?
    ensures res.Failure? ==> res.error == ValueAt(r, i).error
    ensures res.Success? ==> (res.value <==> ValueAt(r, i) == Success(None))
  {
    match r.values
    case None => Failure(NullReference)
    case Some(vals) =>
      if 0 <= i < |vals| then Success(vals[i].None?) else Failure(IndexOutOfRange(ArrayBoundsMessage))
  }

  /** `GetName`: the column name of descriptor `i` in declaration order.
      This is NOT the name registered at position `i`, which belongs to
      descriptor `N-1-i`. */
  function GetName(r: Reader, i: int): (res: Result<string, Error>)
    requires Valid(r)
    ensures IsClosed(r) ==> res == Failure(NullReference)
    ensures !IsClosed(r) ==> (res.Success? <==> FieldCount(r).Success? && 0 <= i < FieldCount(r).value)
    ensures !IsClosed(r) && res.Failure? ==> res.error == ArgumentOutOfRange
    ensures res.Success? ==> res.value == Maps(r)[i].columnName
  {
    match r.entityMap
    case None => Failure(NullReference)
    case Some(em) =>
      if 0 <= i < |em.propertyMaps| then Success(em.propertyMaps[i].columnName) else Failure(ArgumentOutOfRange)
  }

  /** `GetFieldType`: the declared type of descriptor `i`'s property, looked
      up afresh on every call and in declaration order; a property the type
      does not have makes the lookup null and the call throw. */
  function GetFieldType(r: Reader, i: int): (res: Result<string, Error>)
    requires Valid(r)
    ensures IsClosed(r) ==> res == Failure(NullReference)
    ensures !IsClosed(r) && !(0 <= i < |Maps(r)|) ==> res == Failure(ArgumentOutOfRange)
    ensures !IsClosed(r) && 0 <= i < |Maps(r)| ==>
              (res.Success? <==> GetProperty(r.entityType, Maps(r)[i].propertyName).Some?)
    ensures !IsClosed(r) && 0 <= i < |Maps(r)| && res.Failure? ==> res.error == NullReference
    ensures res.Success? ==>
              && Maps(r)[i].propertyName in r.entityType.properties
              && res.value == r.entityType.properties[Maps(r)[i].propertyName]
  {
    match r.entityMap
    case None => Failure(NullReference)
    case Some(em) =>
      if !(0 <= i < |em.propertyMaps|) then Failure(ArgumentOutOfRange)
      else
        match GetProperty(r.entityType, em.propertyMaps[i].propertyName)
        case None => Failure(NullReference)
        case Some(p) => Success(r.entityType.properties[p])
  }

  /** What `GetValues` returns: the field count and the destination array's
      new contents. */
  datatype Copied = Copied(count: int, destination: seq<Slot>)

  /** `GetValues`: copy the whole value buffer to the front of the
      destination and return the field count. A null destination, or one
      shorter than the buffer, throws and copies nothing. */
  function GetValues(r: Reader, dest: Option<seq<Slot>>): (res: Result<Copied, Error>)
    requires Valid(r)
    ensures IsClosed(r) ==> res == Failure(NullReference)
    ensures !IsClosed(r) && dest.None? ==> res == Failure(ArgumentNull("destinationArray"))
    ensures !IsClosed(r) && dest.Some? ==> (res.Success? <==> |dest.value| >= |Maps(r)|)
    ensures !IsClosed(r) && dest.Some? && res.Failure? ==> res.error == Argument
    ensures res.Success? ==>
              && FieldCount(r) == Success(res.value.count)
              && |res.value.destination| == |dest.value|
              && (forall k :: 0 <= k < res.value.count ==> res.value.destination[k] == r.values.value[k])
              && (forall k :: res.value.count <= k < |dest.value| ==> res.value.destination[k] == dest.value[k])
  {
    match r.values
    case None => Failure(NullReference)
    case Some(vals) =>
      match dest
      case None => Failure(ArgumentNull("destinationArray"))
      case Some(d) =>
        if |d| < |vals| then Failure(Argument)
        else Success(Copied(|vals|, vals + d[|vals|..]))
  }

  /** `GetData`: the reader itself for column 0, null for any other column. */
  function GetData(r: Reader, i: int): (res: Option<Reader>)
    ensures res.Some? <==> i == 0
    ensures res.Some? ==> res.value == r
  {
    if i == 0 then Some(r) else None
  }

  /** `Depth`: no nested result sets. */
  function Depth(r: Reader): int
  {
    0
  }

  /** `RecordsAffected`: not applicable to a reader. */
  function RecordsAffected(r: Reader): int
  {
    -1
  }

  /** `NextResult`: there is only one result set. */
  function NextResult(r: Reader): bool
  {
    false
  }

  /** `Dispose`: clear the entity sequence, enumerator, mapping, name index,
      value buffer and current entity. The accessor table is left as it is. */
  function Dispose(r: Reader): (d: Reader)
    requires Valid(r)
    ensures Valid(d)
    ensures IsClosed(d) && PhaseOf(d) == Closed
    ensures d.propInfos == r.propInfos && d.entityType == r.entityType
  {
    r.(entities := None, enumerator := None, entityMap := None, columnNameIndex := None,
       values := None, current := None)
  }

  /** `Close`: the same as `Dispose`. */
  function Close(r: Reader): (d: Reader)
    requires Valid(r)
    ensures d == Dispose(r)
  {
    Dispose(r)
  }

  /** The row a non-null entity writes into the buffer: slot `i` with an
      accessor gets that property's value, any other slot is left alone. */
  function Project(vals: seq<Slot>, propInfos: seq<Option<string>>, e: Entity): seq<Slot>
    requires |propInfos| == |vals|
  {
    seq(|vals|, i requires 0 <= i < |vals| =>
      if propInfos[i].Some? then e.getValue(propInfos[i].value) else vals[i])
  }

  /** The buffer `after` is `before` with the entity's row written in:
      slot `i` holds the value of descriptor `N-1-i`'s property when that
      descriptor has an accessor, and is unchanged otherwise. */
  ghost predicate RowWritten(maps: seq<PropertyMap>, t: EntityType, e: Entity, before: seq<Slot>, after: seq<Slot>)
  {
    && |before| == |after| == |maps|
    && forall i {:trigger after[i]} :: 0 <= i < |maps| ==> SlotWritten(AccessorOf(maps[|maps| - 1 - i], t), e, before[i], after[i])
  }

  /** A slot with accessor `acc` goes from `before` to `after` when entity `e` is read. */
  ghost predicate SlotWritten(acc: Option<string>, e: Entity, before: Slot, after: Slot)
  {
    match acc
    case Some(p) => after == e.getValue(p)
    case None => after == before
  }

  /** Writing an entity through the accessor table fills exactly the slots
      whose reversed descriptor has an accessor. */
  lemma ProjectWritesRow(maps: seq<PropertyMap>, t: EntityType, propInfos: seq<Option<string>>, vals: seq<Slot>, e: Entity)
    requires IsAccessorTable(maps, t, propInfos)
    requires |vals| == |maps|
    ensures RowWritten(maps, t, e, vals, Project(vals, propInfos, e))
  {
    var row := Project(vals, propInfos, e);
    forall i | 0 <= i < |maps|
      ensures SlotWritten(AccessorOf(maps[|maps| - 1 - i], t), e, vals[i], row[i])
    {
      assert propInfos[i] == AccessorOf(maps[|maps| - 1 - i], t);
    }
  }

  /** The parts of the reader that only construction and disposal change. */
  ghost predicate SameTables(r: Reader, r': Reader)
  {
    && r'.entityType == r.entityType
    && r'.entities == r.entities
    && r'.entityMap == r.entityMap
    && r'.columnNameIndex == r.columnNameIndex
    && r'.propInfos == r.propInfos
  }

  /** What `Read` returns: whether a row was produced, and the next state. */
  datatype Step = Step(more: bool, next: Reader)

  /** `Read`: advance the enumerator. At the end the current entity becomes
      null and the buffer is untouched; otherwise the produced entity becomes
      current and, when it is not null, its row is written into the buffer. */
  function Read(r: Reader): (res: Result<Step, Error>)
    requires Valid(r)
    ensures res.Failure? <==> IsClosed(r)
    ensures res.Failure? ==> res.error == NullReference
    ensures res.Success? ==>
              && Valid(res.value.next)
              && SameTables(r, res.value.next)
              && (res.value.more <==> r.enumerator.value.position < |r.entities.value|)
    ensures res.Success? && !res.value.more ==>
              && res.value.next.current.None?
              && res.value.next.values == r.values
              && res.value.next.enumerator.value.position == r.enumerator.value.position
              && PhaseOf(res.value.next) == Exhausted
    ensures res.Success? && res.value.more ==>
              && res.value.next.enumerator.value.position == r.enumerator.value.position + 1
              && res.value.next.current == r.entities.value[r.enumerator.value.position]
              && PhaseOf(res.value.next) == Active
    ensures res.Success? && res.value.more && res.value.next.current.None? ==>
              res.value.next.values == r.values
    ensures res.Success? && res.value.more && res.value.next.current.Some? ==>
              RowWritten(Maps(r), r.entityType, res.value.next.current.value,
                         r.values.value, res.value.next.values.value)
  {
    match r.enumerator
    case None => Failure(NullReference)
    case Some(c) =>
      if c.position == |c.items| then
        Success(Step(false, r.(enumerator := Some(c.(finished := true)), current := None)))
      else
        var cur := c.items[c.position];
        var next := r.(enumerator := Some(c.(position := c.position + 1)), current := cur);
        if cur.None? then Success(Step(true, next))
        else
          ProjectWritesRow(Maps(r), r.entityType, r.propInfos, r.values.value, cur.value);
          Success(Step(true, next.(values := Some(Project(r.values.value, r.propInfos, cur.value)))))
  }
}
