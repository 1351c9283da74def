/** Properties of the entity reader that relate several calls: how many rows
    a sequence yields, how names, ordinals and buffer slots line up, what
    survives a row, and what a disposed reader does. */
module ReaderProperties {
  import opened Wrappers
  import opened CaseFold
  import opened Mapping
  import opened ColumnIndex
  import opened EntityDataReader

  /** The outcome of `k` consecutive `Read` calls: each call's result and the final state. */
  datatype Run = Run(results: seq<bool>, last: Reader)

  /** Call `Read` `k` times, stopping at the first exception. */
  function ReadTimes(r: Reader, k: nat): (res: Result<Run, Error>)
    requires Valid(r)
    ensures res.Success? ==> Valid(res.value.last) && |res.value.results| == k && SameTables(r, res.value.last)
    ensures k > 0 && IsClosed(r) ==> res == Failure(NullReference)
    decreases k
  {
    if k == 0 then Success(Run([], r))
    else
      match Read(r)
      case Failure(e) => Failure(e)
      case Success(step) =>
        match ReadTimes(step.next, k - 1)
        case Failure(e) => Failure(e)
        case Success(run) => Success(Run([step.more] + run.results, run.last))
  }

  /** On an open reader whose enumerator has produced `p` of `M` entities,
      call `j` of a run of `Read` calls returns true exactly when `p + j < M`,
      and the enumerator ends up `min(p + k, M)` entities in. */
  lemma {:induction false} ReadResults(r: Reader, k: nat)
    requires Valid(r) && !IsClosed(r)
    ensures ReadTimes(r, k).Success?
    ensures forall j :: 0 <= j < k ==>
              (ReadTimes(r, k).value.results[j] <==> r.enumerator.value.position + j < |r.entities.value|)
    ensures !IsClosed(ReadTimes(r, k).value.last)
    ensures ReadTimes(r, k).value.last.enumerator.value.position ==
              if r.enumerator.value.position + k <= |r.entities.value| then r.enumerator.value.position + k
              else |r.entities.value|
    ensures k > 0 ==>
              (PhaseOf(ReadTimes(r, k).value.last) == Exhausted <==> r.enumerator.value.position + k > |r.entities.value|)
    decreases k
  {
    if k > 0 {
      var step := Read(r).value;
      ReadResults(step.next, k - 1);
      var run := ReadTimes(step.next, k - 1).value;
      assert ReadTimes(r, k).value.results == [step.more] + run.results;
      forall j | 1 <= j < k
        ensures ReadTimes(r, k).value.results[j] == run.results[j - 1]
      {
      }
    }
  }

  /** A freshly constructed reader over `M` entities returns true from `Read`
      exactly `M` times and then false; after the false nothing is current
      and the reader is exhausted. */
  lemma ReadTrueExactlyM(r: Reader, items: seq<Option<Entity>>, em: EntityMap, t: EntityType)
    requires Valid(r) && IsFreshReader(r, items, em, t)
    ensures ReadTimes(r, |items| + 1).Success?
    ensures ReadTimes(r, |items| + 1).Success? &&
            false !in ReadTimes(r, |items| + 1).value.results[..|items|]
    ensures ReadTimes(r, |items| + 1).Success? && !ReadTimes(r, |items| + 1).value.results[|items|]
    ensures ReadTimes(r, |items| + 1).Success? && PhaseOf(ReadTimes(r, |items| + 1).value.last) == Exhausted
  {
    ReadResults(r, |items| + 1);
  }

  /** A slot whose reversed descriptor has no accessor (the column is
      auto-generated, or the entity type has no such property) is never
      written: it keeps its value through any number of reads. */
  lemma {:induction false} UnboundSlotNeverWritten(r: Reader, k: nat, i: int)
    requires Valid(r) && !IsClosed(r)
    requires 0 <= i < |Maps(r)|
    requires Maps(r)[|Maps(r)| - 1 - i].autoGeneratedColumn
             || Maps(r)[|Maps(r)| - 1 - i].propertyName !in r.entityType.properties
    ensures ReadTimes(r, k).Success?
    ensures ReadTimes(r, k).value.last.values.value[i] == r.values.value[i]
    decreases k
  {
    ReadResults(r, k);
    if k > 0 {
      var step := Read(r).value;
      if step.more && step.next.current.Some? {
        assert SlotWritten(AccessorOf(Maps(r)[|Maps(r)| - 1 - i], r.entityType), step.next.current.value,
                           r.values.value[i], step.next.values.value[i]);
      }
      assert step.next.values.value[i] == r.values.value[i];
      UnboundSlotNeverWritten(step.next, k - 1, i);
    }
  }

  /** The quirk of `GetName`: it answers in declaration order while the name
      index is reversed, so looking a column's name back up gives position
      `N-1-i` or, when an earlier descriptor has an equal-ignoring-case
      name, a position above it. */
  lemma NameThenOrdinal(r: Reader, i: int)
    requires Valid(r) && !IsClosed(r)
    requires 0 <= i < |Maps(r)|
    ensures GetName(r, i) == Success(Maps(r)[i].columnName)
    ensures GetOrdinal(r, GetName(r, i).value).Success?
    ensures GetOrdinal(r, GetName(r, i).value).value >= |Maps(r)| - 1 - i
    ensures DistinctColumnNames(Maps(r)) ==> GetOrdinal(r, GetName(r, i).value) == Success(|Maps(r)| - 1 - i)
  {
    var name := Maps(r)[i].columnName;
    assert EqualsIgnoreCase(Maps(r)[i].columnName, name);
    assert NamesAColumn(Maps(r), name);
    if DistinctColumnNames(Maps(r)) {
      DistinctNameThenOrdinal(r, i);
    }
  }

  /** `NameThenOrdinal` for distinct names: the ordinal of descriptor `i`'s
      name is exactly `N-1-i`. */
  lemma DistinctNameThenOrdinal(r: Reader, i: int)
    requires Valid(r) && !IsClosed(r)
    requires DistinctColumnNames(Maps(r))
    requires 0 <= i < |Maps(r)|
    ensures GetOrdinal(r, Maps(r)[i].columnName).Success?
    ensures GetOrdinal(r, Maps(r)[i].columnName).value == |Maps(r)| - 1 - i
  {
    var index := r.columnNameIndex.value;
    var name := Maps(r)[i].columnName;
    DistinctNamesReversed(Maps(r), index, i);
    assert Fold(name) == ColumnKey(Maps(r)[i]);
    var pos := index[Fold(name)];
    assert pos == |Maps(r)| - 1 - i;
    assert GetOrdinal(r, name) == Success(pos);
  }

  /** Names that agree character by character once each character is folded
      (the ordinal-ignore-case comparison) are the same column: they succeed
      or fail together, and on success give the same ordinal and value. */
  lemma OrdinalIgnoresCase(r: Reader, a: string, b: string)
    requires Valid(r)
    requires |a| == |b| && forall k :: 0 <= k < |a| ==> FoldChar(a[k]) == FoldChar(b[k])
    ensures GetOrdinal(r, a).Success? <==> GetOrdinal(r, b).Success?
    ensures GetOrdinal(r, a).Success? ==> GetOrdinal(r, a) == GetOrdinal(r, b) && Item(r, a) == Item(r, b)
  {
    EqualsIgnoreCaseCharwise(a, b);
  }

  /** The two reversals cancel: after a row is read, looking a column up by
      its own name gives the value of that column's property (when names are
      distinct), and an auto-generated column's value is whatever the slot
      held before. */
  lemma ItemAfterRead(r: Reader, j: int)
    requires Valid(r) && !IsClosed(r)
    requires DistinctColumnNames(Maps(r))
    requires 0 <= j < |Maps(r)|
    requires Read(r).Success? && Read(r).value.more && Read(r).value.next.current.Some?
    ensures Item(Read(r).value.next, Maps(r)[j].columnName).Success?
    ensures AccessorOf(Maps(r)[j], r.entityType).Some? ==>
              Item(Read(r).value.next, Maps(r)[j].columnName)
                == Success(Read(r).value.next.current.value.getValue(Maps(r)[j].propertyName))
    ensures AccessorOf(Maps(r)[j], r.entityType).None? ==>
              Item(Read(r).value.next, Maps(r)[j].columnName) == Item(r, Maps(r)[j].columnName)
  {
    var r1 := Read(r).value.next;
    var n := |Maps(r)|;
    DistinctNamesReversed(Maps(r), r.columnNameIndex.value, j);
    var i := n - 1 - j;
    assert n - 1 - i == j;
    assert SlotWritten(AccessorOf(Maps(r)[n - 1 - i], r.entityType), r1.current.value,
                       r.values.value[i], r1.values.value[i]);
  }

  /** `GetValues` agrees with the integer indexer: each slot it copies is
      what `this[k]` returns for that position, and it copies `FieldCount` of them. */
  lemma GetValuesAgreesWithIndexer(r: Reader, dest: Option<seq<Slot>>, k: int)
    requires Valid(r)
    requires GetValues(r, dest).Success?
    requires 0 <= k < |dest.value|
    ensures k < FieldCount(r).value <==> ValueAt(r, k).Success?
    ensures k < FieldCount(r).value ==> ValueAt(r, k) == Success(GetValues(r, dest).value.destination[k])
  {
  }

  /** The type `GetFieldType` reports at ordinal `N-1-i` is the type of the
      property whose values land in slot `i`: the field types are listed in
      the opposite order to the values. */
  lemma FieldTypeMirrorsSlot(r: Reader, i: int)
    requires Valid(r) && !IsClosed(r)
    requires 0 <= i < |r.propInfos|
    requires r.propInfos[i].Some?
    ensures r.propInfos[i].value in r.entityType.properties
    ensures GetFieldType(r, |Maps(r)| - 1 - i) == Success(r.entityType.properties[r.propInfos[i].value])
  {
    var n := |Maps(r)|;
    var pm := Maps(r)[n - 1 - i];
    assert r.propInfos[i] == AccessorTable(Maps(r), r.entityType)[i] == AccessorOf(pm, r.entityType);
    assert r.propInfos[i].value == pm.propertyName;
  }

  /** Every member that dereferences a cleared field throws once the reader
      is disposed, a second disposal changes nothing, and `Close` is the
      same as `Dispose`. */
  lemma DisposedReaderThrows(r: Reader, name: string, i: int, dest: Option<seq<Slot>>)
    requires Valid(r)
    ensures var d := Dispose(r);
      && IsClosed(d)
      && Dispose(d) == d
      && Close(r) == d
      && Read(d) == Failure(NullReference)
      && FieldCount(d) == Failure(NullReference)
      && Item(d, name) == Failure(NullReference)
      && ValueAt(d, i) == Failure(NullReference)
      && IsDBNull(d, i) == Failure(NullReference)
      && GetName(d, i) == Failure(NullReference)
      && GetOrdinal(d, name) == Failure(NullReference)
      && GetFieldType(d, i) == Failure(NullReference)
      && GetValues(d, dest) == Failure(NullReference)
  {
  }

  /** `Depth`, `RecordsAffected` and `NextResult` read no field: they give
      the same fixed answers before and after a row is read and after the
      reader is disposed, when every other member throws. */
  lemma FixedAnswers(r: Reader)
    requires Valid(r)
    ensures Depth(r) == Depth(Dispose(r)) == 0
    ensures RecordsAffected(r) == RecordsAffected(Dispose(r)) == -1
    ensures !NextResult(r) && !NextResult(Dispose(r))
    ensures Read(r).Success? ==>
              && Depth(Read(r).value.next) == 0
              && RecordsAffected(Read(r).value.next) == -1
              && !NextResult(Read(r).value.next)
  {
  }

  /** The life cycle: Ready and Active go to Active or Exhausted on `Read`,
      Exhausted stays Exhausted, and nothing leaves Closed. */
  lemma PhaseTransitions(r: Reader)
    requires Valid(r)
    ensures PhaseOf(r) == Closed <==> IsClosed(r)
    ensures PhaseOf(r) == Closed ==> Read(r).Failure? && PhaseOf(Dispose(r)) == Closed
    ensures PhaseOf(r) != Closed ==>
              Read(r).Success? && (PhaseOf(Read(r).value.next) == Active <==> Read(r).value.more)
    ensures PhaseOf(r) == Exhausted ==> Read(r).Success? && PhaseOf(Read(r).value.next) == Exhausted
  {
  }

  /** The descriptor list of the worked example: an auto-generated `Id`
      column declared before a `Name` column. */
  function ExampleMaps(): seq<PropertyMap>
  {
    [PropertyMap("Id", "Id", true), PropertyMap("Name", "Name", false)]
  }

  /** The example's names fold to `ID` and `NAME`, so they are distinct. */
  lemma ExampleKeys()
    ensures ColumnKeys(ExampleMaps()) == ["ID", "NAME"]
    ensures Fold("id") == "ID" && Fold("ID") == "ID"
    ensures DistinctColumnNames(ExampleMaps())
  {
    assert Fold("Id") == "ID";
    assert Fold("id") == "ID";
    assert Fold("ID") == "ID";
    assert Fold("Name") == "NAME";
  }

  /** The worked example's entity type and its one entity: `Id` 5 and `Name` "Ann". */
  function ExampleType(): EntityType
  {
    EntityType(map["Id" := "Int32", "Name" := "String"])
  }

  function ExampleItems(): seq<Option<Entity>>
  {
    [Some(Entity(p => if p == "Id" then Some(Int(5)) else if p == "Name" then Some(Text("Ann")) else None))]
  }

  /** The reader of the worked example right after construction. */
  ghost predicate IsExampleReader(r: Reader)
  {
    IsFreshReader(r, ExampleItems(), EntityMap(ExampleMaps()), ExampleType())
  }

  /** The worked example's names: `GetName` answers in declaration order,
      `Id` at 0 and `Name` at 1. */
  lemma ExampleNames(r: Reader)
    requires Valid(r) && IsExampleReader(r)
    ensures GetName(r, 0) == Success("Id") && GetName(r, 1) == Success("Name")
  {
  }

  /** The worked example's ordinals: the index reverses the two columns,
      `Name` at 0 and `Id` (asked for as "id") at 1. */
  lemma ExampleOrdinals(r: Reader)
    requires Valid(r) && IsExampleReader(r)
    ensures GetOrdinal(r, "Name").Success? && GetOrdinal(r, "Name").value == 0
    ensures GetOrdinal(r, "id").Success? && GetOrdinal(r, "id").value == 1
  {
    ExampleKeys();
    assert Maps(r) == ExampleMaps();
    DistinctNameThenOrdinal(r, 1);
    assert EqualsIgnoreCase(Maps(r)[0].columnName, "id");
    assert NamesAColumn(Maps(r), "id");
  }

  /** The worked example's row: after one `Read` the `Name` column holds the
      entity's name. */
  lemma ExampleRow(r: Reader)
    requires Valid(r) && IsExampleReader(r)
    ensures Read(r).Success? && Read(r).value.more
    ensures Item(Read(r).value.next, "Name") == Success(Some(Text("Ann")))
  {
    ExampleKeys();
    ItemAfterRead(r, 1);
  }

  /** The worked example's auto-generated column: after one `Read` the `Id`
      column, looked up as "ID", is still null. */
  lemma ExampleIdNeverPopulated(r: Reader)
    requires Valid(r) && IsExampleReader(r)
    ensures Read(r).Success? && Read(r).value.more
    ensures Item(Read(r).value.next, "ID") == Success(None)
  {
    ExampleKeys();
    ItemAfterRead(r, 0);
    assert Fold("ID") == Fold("Id");
  }

  /** The worked example's end: the second `Read` reports that no row is left. */
  lemma ExampleEnd(r: Reader)
    requires Valid(r) && IsExampleReader(r)
    ensures Read(r).Success? && Read(r).value.more
    ensures Read(Read(r).value.next).Success? && !Read(Read(r).value.next).value.more
  {
  }
}
