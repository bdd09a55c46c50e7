/** Run-time types and in-memory values of the object graphs that are (de)serialized. */
module Values {

  /** The identity of a .NET type; `name` is what `Type.Name` returns. */
  datatype TypeRef = TypeRef(namespace: string, name: string)

  const StringType := TypeRef("System", "String")
  const Int32Type := TypeRef("System", "Int32")

  /** An object reference: `null`, a boxed primitive, or an instance whose properties
      and public fields are named slots. A slot missing from `fields` holds `null`. */
  datatype Value =
    | Null
    | Str(s: string)
    | Int(i: int)
    | Object(typ: TypeRef, fields: map<string, Value>)

  /** `value.GetType()`; calling it on `null` is not possible. */
  function TypeOf(v: Value): (t: TypeRef)
    requires v != Null
    ensures v.Object? ==> t == v.typ
  {
    match v
    case Str(_) => StringType
    case Int(_) => Int32Type
    case Object(t, _) => t
  }

  /** `PropertyInfo.SetValue` accepts `v` for a property of type `t`: `null`, or a value of
      exactly that type (the model has no subtyping). */
  predicate AssignableTo(v: Value, t: TypeRef)
  {
    v == Null || TypeOf(v) == t
  }

  /** `PropertyInfo.GetValue` / `FieldInfo.GetValue`: the slot `name` of `v`. */
  function FieldOf(v: Value, name: string): (r: Value)
    ensures r != Null ==> v.Object? && name in v.fields && r == v.fields[name]
  {
    if v.Object? && name in v.fields then v.fields[name] else Null
  }

  /** `PropertyInfo.SetValue`: `v` with slot `name` set to `x`. */
  function SetField(v: Value, name: string, x: Value): (r: Value)
    requires v.Object?
    ensures r.Object? && r.typ == v.typ
    ensures FieldOf(r, name) == x
    ensures forall n :: n != name ==> FieldOf(r, n) == FieldOf(v, n)
  {
    v.(fields := v.fields[name := x])
  }
}
