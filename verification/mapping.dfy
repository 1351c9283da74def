/** The external mapping contract the reader consumes: an ordered list of
    column descriptors, the entity type's properties, and entities as values. */
module Mapping {
  import opened Wrappers
  import opened CaseFold

  /** A boxed property value; the reader never looks inside it. */
  datatype Value = Int(i: int) | Text(s: string) | Flag(b: bool)

  /** A buffer slot or property value: `None` is a null object. */
  type Slot = Option<Value>

  /** One column descriptor: column name, source property name, auto-generated flag. */
  datatype PropertyMap = PropertyMap(columnName: string, propertyName: string, autoGeneratedColumn: bool)

  /** The entity-to-table mapping; only its ordered descriptor list is used here. */
  datatype EntityMap = EntityMap(propertyMaps: seq<PropertyMap>)

  /** The entity type: its public properties, each with the name of its declared type. */
  datatype EntityType = EntityType(properties: map<string, string>)

  /** An entity instance, seen through its property getters: the value the
      getter of each property returns. The reader only ever asks for
      properties the entity type declares. */
  datatype Entity = Entity(getValue: string -> Slot)

  /** Property lookup by exact name on the entity type; `None` when the type has no such property. */
  function GetProperty(t: EntityType, name: string): (p: Option<string>)
    ensures p.Some? <==> name in t.properties
    ensures p.Some? ==> p.value == name
  {
    if name in t.properties then Some(name) else None
  }

  /** The accessor the constructor stores for a descriptor: none for an
      auto-generated column, otherwise whatever the property lookup returns. */
  function AccessorOf(pm: PropertyMap, t: EntityType): (p: Option<string>)
    ensures p.Some? <==> !pm.autoGeneratedColumn && pm.propertyName in t.properties
    ensures p.Some? ==> p.value == pm.propertyName
  {
    if pm.autoGeneratedColumn then None else GetProperty(t, pm.propertyName)
  }

  /** The key under which a descriptor's column name is registered in the name index. */
  function ColumnKey(pm: PropertyMap): string
  {
    Fold(pm.columnName)
  }

  /** The registration key of every descriptor, in declaration order. */
  function ColumnKeys(maps: seq<PropertyMap>): seq<string>
  {
    seq(|maps|, j requires 0 <= j < |maps| => ColumnKey(maps[j]))
  }

  /** No two descriptors have column names that are equal ignoring case. */
  predicate DistinctColumnNames(maps: seq<PropertyMap>)
  {
    var keys := ColumnKeys(maps);
    forall j1, j2 :: 0 <= j1 < j2 < |keys| ==> keys[j1] != keys[j2]
  }
}
