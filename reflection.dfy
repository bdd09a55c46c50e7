/** The reflection metadata the core consults: per type, its `RegistrySerializable`
    attribute, its public properties and public fields with their attributes, and the
    instance `Activator.CreateInstance` builds; per (declared type, seed type), whether
    a one-argument constructor exists and what it builds. */
module Reflection {
  import opened Wrappers
  import opened Values
  import opened RegistryStore

  /** A public property (`PropertyInfo`) and the attributes it carries. */
  datatype Property = Property(
    name: string,
    propType: TypeRef,
    nonSerialized: bool,         // [RegistryNonSerialized]
    subSection: bool,            // [RegistrySubSection]
    convert: Option<TypeRef>,    // [RegistryPropertyConvert(seed type)]
    canRead: bool,               // has a public get accessor
    canWrite: bool)              // has a public set accessor

  /** A public field (`FieldInfo`) and the attributes the older engine inspects. */
  datatype Field = Field(
    name: string,
    fieldType: TypeRef,
    nonSerialized: bool,         // [NonSerialized]
    subSection: bool)            // [RegistrySubSection]

  /** What reflection knows about one type. `rootSection` is the key opened by the type's
      `RegistrySerializable` attribute, `None` when the type does not carry it. */
  datatype TypeInfo = TypeInfo(
    rootSection: Option<Key>,
    properties: seq<Property>,
    fields: seq<Field>,
    defaults: map<string, Value>)

  /** The metadata of the whole program. Types absent from `types` carry no attribute and
      expose no property and no field. */
  datatype Metadata = Metadata(
    types: map<TypeRef, TypeInfo>,
    constructors: set<(TypeRef, TypeRef)>,
    construct: (TypeRef, TypeRef, Value) -> Value)

  /** `type.GetCustomAttribute<RegistrySerializableAttribute>()?.MainSection`. */
  function RootAttribute(meta: Metadata, t: TypeRef): Option<Key>
  {
    if t in meta.types then meta.types[t].rootSection else None
  }

  /** `type.IsDefined(typeof(RegistrySerializableAttribute))`. */
  predicate IsSerializable(meta: Metadata, t: TypeRef)
  {
    RootAttribute(meta, t).Some?
  }

  /** `type.GetProperties()`, in the order reflection returns them. */
  function PropertiesOf(meta: Metadata, t: TypeRef): seq<Property>
  {
    if t in meta.types then meta.types[t].properties else []
  }

  /** `type.GetFields()`, in the order reflection returns them. */
  function FieldsOf(meta: Metadata, t: TypeRef): seq<Field>
  {
    if t in meta.types then meta.types[t].fields else []
  }

  /** `Activator.CreateInstance(t)`: a fresh instance holding the type's default values. */
  function CreateInstance(meta: Metadata, t: TypeRef): (r: Value)
    ensures r.Object? && r.typ == t
  {
    Object(t, if t in meta.types then meta.types[t].defaults else map[])
  }

  /** No two properties share a name. */
  predicate DistinctNames(props: seq<Property>)
  {
    forall j, k :: 0 <= j < k < |props| ==> props[j].name != props[k].name
  }

  /** No two fields share a name. */
  predicate DistinctFieldNames(fields: seq<Field>)
  {
    forall j, k :: 0 <= j < k < |fields| ==> fields[j].name != fields[k].name
  }

  /** Some property of `props` at index `i` or later is named `n`. */
  predicate NamedFrom(props: seq<Property>, i: nat, n: string)
  {
    exists j :: i <= j < |props| && props[j].name == n
  }
}
