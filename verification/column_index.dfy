/** The two tables the reader's constructor builds from the descriptor list:
    the case-insensitive column-name index and the parallel accessor table.
    Both are filled by one loop that walks the descriptors from last to first
    while counting positions up from zero, so descriptor `j` lands at
    position `N-1-j`. */
module ColumnIndex {
  import opened Wrappers
  import opened CaseFold
  import opened Mapping

  /** `keys[j]` is the first occurrence of `key` at or after `lo`. */
  ghost predicate FirstFrom(keys: seq<string>, lo: int, key: string, j: int)
  {
    && 0 <= lo <= j < |keys|
    && keys[j] == key
    && forall j' :: lo <= j' < j ==> keys[j'] != key
  }

  /** `index` is the name index built from the keys `keys[lo..]`: it holds
      exactly those keys, and each key sits at position `N-1-j` for the
      earliest `j` carrying it. */
  ghost predicate IndexFrom(keys: seq<string>, lo: int, index: map<string, int>)
  {
    && 0 <= lo <= |keys|
    && (forall j :: lo <= j < |keys| ==> keys[j] in index)
    && (forall key :: key in index ==>
          0 <= index[key] < |keys| - lo && FirstFrom(keys, lo, key, |keys| - 1 - index[key]))
  }

  /** The name index of the whole descriptor list. */
  ghost predicate IsColumnIndex(maps: seq<PropertyMap>, index: map<string, int>)
  {
    IndexFrom(ColumnKeys(maps), 0, index)
  }

  /** The accessor table of the descriptors: slot `i` holds the accessor of
      descriptor `N-1-i`. */
  function AccessorTable(maps: seq<PropertyMap>, t: EntityType): seq<Option<string>>
  {
    seq(|maps|, i requires 0 <= i < |maps| => AccessorOf(maps[|maps| - 1 - i], t))
  }

  /** `acc` is the accessor table of the descriptors. */
  ghost predicate IsAccessorTable(maps: seq<PropertyMap>, t: EntityType, acc: seq<Option<string>>)
  {
    acc == AccessorTable(maps, t)
  }

  /** One loop step: registering `keys[idx]` at position `N-1-idx` on top of
      the index of `keys[idx+1..]` gives the index of `keys[idx..]`; an
      earlier registration of an equal key is overwritten. */
  lemma {:induction false} RegisterStep(keys: seq<string>, idx: int, index: map<string, int>, added: string, pos: int)
    requires 0 <= idx < |keys|
    requires added == keys[idx] && pos == |keys| - 1 - idx
    requires IndexFrom(keys, idx + 1, index)
    ensures IndexFrom(keys, idx, index[added := pos])
  {
    var n := |keys|;
    var index' := index[added := pos];
    forall key | key in index'
      ensures 0 <= index'[key] < n - idx && FirstFrom(keys, idx, key, n - 1 - index'[key])
    {
      if key != added {
        assert FirstFrom(keys, idx + 1, key, n - 1 - index[key]);
      }
    }
  }

  /** The accessor table after the first `i` loop steps: slots below `i`
      are final, the others still hold the null they were created with. */
  ghost predicate FilledUpTo(maps: seq<PropertyMap>, t: EntityType, propInfos: seq<Option<string>>, i: int)
  {
    && |propInfos| == |maps|
    && (forall k {:trigger propInfos[k]} :: 0 <= k < i && k < |maps| ==> propInfos[k] == AccessorOf(maps[|maps| - 1 - k], t))
    && (forall k :: i <= k < |maps| && 0 <= k ==> propInfos[k] == None)
  }

  /** One loop step on the accessor table: an auto-generated column leaves
      slot `i` null, any other stores the property lookup's result there. */
  lemma FillStep(maps: seq<PropertyMap>, t: EntityType, propInfos: seq<Option<string>>, i: int, propMap: PropertyMap)
    requires 0 <= i < |maps| && propMap == maps[|maps| - 1 - i]
    requires FilledUpTo(maps, t, propInfos, i)
    ensures propMap.autoGeneratedColumn ==> FilledUpTo(maps, t, propInfos, i + 1)
    ensures !propMap.autoGeneratedColumn ==>
              FilledUpTo(maps, t, propInfos[i := GetProperty(t, propMap.propertyName)], i + 1)
  {
  }

  /** The constructor's loop: for `idx` from `N-1` down to 0 with `i` from 0
      up, register descriptor `idx`'s column name at `i` (a later write to an
      equal-ignoring-case name replaces the earlier one) and, unless the column
      is auto-generated, store the property accessor in slot `i`. */
  method BuildColumns(maps: seq<PropertyMap>, t: EntityType)
    returns (index: map<string, int>, propInfos: seq<Option<string>>)
    ensures IsColumnIndex(maps, index)
    ensures IsAccessorTable(maps, t, propInfos)
  {
    var n := |maps|;
    ghost var keys := ColumnKeys(maps);
    propInfos := seq(n, _ => None);
    index := map[];
    var idx := n - 1;
    var i := 0;
    while idx >= 0
      invariant -1 <= idx < n
      invariant idx + i == n - 1
      invariant |propInfos| == n
      invariant IndexFrom(keys, idx + 1, index)
      invariant FilledUpTo(maps, t, propInfos, i)
    {
      var propMap := maps[idx];
      RegisterStep(keys, idx, index, ColumnKey(propMap), i);
      index := index[ColumnKey(propMap) := i];
      FillStep(maps, t, propInfos, i, propMap);
      if !propMap.autoGeneratedColumn {
        propInfos := propInfos[i := GetProperty(t, propMap.propertyName)];
      }
      idx := idx - 1;
      i := i + 1;
    }
    assert forall k :: 0 <= k < n ==> propInfos[k] == AccessorTable(maps, t)[k];
  }

  /** Looking a key up in the index of the whole key sequence: it is there
      exactly when it occurs, and then it points at its first occurrence. */
  lemma KeyLookup(keys: seq<string>, index: map<string, int>, key: string)
    requires IndexFrom(keys, 0, index)
    ensures key in index <==> exists j :: 0 <= j < |keys| && keys[j] == key
    ensures key in index ==> FirstFrom(keys, 0, key, |keys| - 1 - index[key])
  {
    if j :| 0 <= j < |keys| && keys[j] == key {
      assert keys[j] in index;
    }
  }

  /** Descriptor `j`'s column name equals `name` ignoring case exactly when its key is the folded name. */
  lemma KeyMatchesName(maps: seq<PropertyMap>, j: int, name: string)
    requires 0 <= j < |maps|
    ensures ColumnKeys(maps)[j] == Fold(name) <==> EqualsIgnoreCase(maps[j].columnName, name)
  {
  }

  /** Some descriptor's column name equals `name` ignoring case. */
  ghost predicate NamesAColumn(maps: seq<PropertyMap>, name: string)
  {
    exists j :: 0 <= j < |maps| && EqualsIgnoreCase(maps[j].columnName, name)
  }

  /** Descriptor `j` is the first whose column name equals `name` ignoring case. */
  ghost predicate EarliestMatch(maps: seq<PropertyMap>, name: string, j: int)
  {
    && 0 <= j < |maps|
    && EqualsIgnoreCase(maps[j].columnName, name)
    && forall j' :: 0 <= j' < j ==> !EqualsIgnoreCase(maps[j'].columnName, name)
  }

  /** A name is in the index exactly when some descriptor's column name
      equals it ignoring case. */
  lemma IndexHoldsExactlyTheColumnNames(maps: seq<PropertyMap>, index: map<string, int>, name: string)
    requires IsColumnIndex(maps, index)
    ensures Fold(name) in index <==> NamesAColumn(maps, name)
  {
    var keys := ColumnKeys(maps);
    KeyLookup(keys, index, Fold(name));
    if j :| 0 <= j < |keys| && keys[j] == Fold(name) {
      KeyMatchesName(maps, j, name);
    }
    if j :| 0 <= j < |maps| && EqualsIgnoreCase(maps[j].columnName, name) {
      KeyMatchesName(maps, j, name);
    }
  }

  /** The position of a registered name is that of the earliest descriptor
      whose column name equals it ignoring case. */
  lemma IndexPointsAtEarliest(maps: seq<PropertyMap>, index: map<string, int>, name: string)
    requires IsColumnIndex(maps, index)
    requires Fold(name) in index
    ensures 0 <= index[Fold(name)] < |maps|
    ensures EarliestMatch(maps, name, |maps| - 1 - index[Fold(name)])
  {
    var keys := ColumnKeys(maps);
    var key := Fold(name);
    KeyLookup(keys, index, key);
    var first := |maps| - 1 - index[key];
    KeyMatchesName(maps, first, name);
    forall j | 0 <= j < first
      ensures !EqualsIgnoreCase(maps[j].columnName, name)
    {
      KeyMatchesName(maps, j, name);
    }
  }

  /** What a lookup of `name` in the index finds: an entry exactly when some
      column name matches ignoring case, and then the position of the
      earliest match. */
  lemma NameLookup(maps: seq<PropertyMap>, index: map<string, int>, name: string)
    requires IsColumnIndex(maps, index)
    ensures Fold(name) in index <==> NamesAColumn(maps, name)
    ensures Fold(name) in index ==>
              0 <= index[Fold(name)] < |maps| && EarliestMatch(maps, name, |maps| - 1 - index[Fold(name)])
  {
    IndexHoldsExactlyTheColumnNames(maps, index, name);
    if Fold(name) in index {
      IndexPointsAtEarliest(maps, index, name);
    }
  }

  /** With distinct column names the index is the exact reversal of the
      descriptor list: descriptor `j` is at position `N-1-j`. */
  lemma DistinctNamesReversed(maps: seq<PropertyMap>, index: map<string, int>, j: int)
    requires IsColumnIndex(maps, index)
    requires DistinctColumnNames(maps)
    requires 0 <= j < |maps|
    ensures ColumnKey(maps[j]) in index
    ensures index[ColumnKey(maps[j])] == |maps| - 1 - j
  {
    var keys := ColumnKeys(maps);
    DistinctKeysReversed(keys, index, j);
    assert keys[j] == ColumnKey(maps[j]);
  }

  /** `DistinctNamesReversed` on the key sequence. */
  lemma DistinctKeysReversed(keys: seq<string>, index: map<string, int>, j: int)
    requires IndexFrom(keys, 0, index)
    requires forall j1, j2 :: 0 <= j1 < j2 < |keys| ==> keys[j1] != keys[j2]
    requires 0 <= j < |keys|
    ensures keys[j] in index
    ensures index[keys[j]] == |keys| - 1 - j
  {
    assert FirstFrom(keys, 0, keys[j], |keys| - 1 - index[keys[j]]);
  }

  /** When names collide ignoring case, the earliest descriptor wins: the
      loop visits it last, so its position overwrites the others'. */
  lemma EarliestDescriptorWins(maps: seq<PropertyMap>, index: map<string, int>, j1: int, j2: int)
    requires IsColumnIndex(maps, index)
    requires 0 <= j1 < j2 < |maps|
    requires EqualsIgnoreCase(maps[j1].columnName, maps[j2].columnName)
    ensures ColumnKey(maps[j2]) in index
    ensures index[ColumnKey(maps[j2])] >= |maps| - 1 - j1
  {
    var keys := ColumnKeys(maps);
    KeyMatchesName(maps, j1, maps[j2].columnName);
    KeyMatchesName(maps, j2, maps[j2].columnName);
    KeyLookup(keys, index, keys[j2]);
  }
}
