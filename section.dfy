/** `RegistrySection` (RegistrySection.cs): the current engine. A section binds a type to
    the sub-key `sectionName` of the key `mainSection`; `GetSection` reads an instance from
    that sub-key and `Update` writes one into it, recursing into nested sections. */
module RegistrySections {
  import opened Wrappers
  import opened Values
  import opened RegistryStore
  import opened Reflection

  datatype RegistrySection = RegistrySection(
    objectType: TypeRef,
    sectionName: string,
    mainSection: Key,
    objectProperties: seq<Property>)

  /** The property table is the one the constructors compute for the bound type. */
  predicate Valid(meta: Metadata, s: RegistrySection)
  {
    s.objectProperties == GetProperties(meta, s.objectType)
  }

  // ---------------------------------------------------------------------------------------
  // Property table

  /** The properties not marked `RegistryNonSerialized`, in their original order. */
  function Serialized(props: seq<Property>): (r: seq<Property>)
    ensures forall p :: p in r <==> p in props && !p.nonSerialized
    ensures |r| <= |props|
  {
    if props == [] then []
    else (if props[0].nonSerialized then [] else [props[0]]) + Serialized(props[1..])
  }

  /** The filter keeps relative order: it distributes over concatenation. */
  lemma {:induction false} SerializedAppend(a: seq<Property>, b: seq<Property>)
    ensures Serialized(a + b) == Serialized(a) + Serialized(b)
    decreases |a|
  {
    if a == [] {
      assert a + b == b;
    } else {
      assert (a + b)[0] == a[0] && (a + b)[1..] == a[1..] + b;
      SerializedAppend(a[1..], b);
    }
  }

  /** `GetProperties(type)`. */
  function GetProperties(meta: Metadata, t: TypeRef): seq<Property>
  {
    Serialized(PropertiesOf(meta, t))
  }

  // ---------------------------------------------------------------------------------------
  // Constructors

  /** `new RegistrySection(sectionType)`: the root section at the key opened by the type's
      `RegistrySerializable` attribute, named after the type. */
  function NewRoot(meta: Metadata, sectionType: Option<TypeRef>): (r: Result<RegistrySection>)
    ensures sectionType.None? ==> r == Err(ArgumentNull)
    ensures sectionType.Some? && !IsSerializable(meta, sectionType.value) ==> r == Err(NullReference)
    ensures sectionType.Some? && IsSerializable(meta, sectionType.value) ==> r.Ok?
    ensures r.Ok? ==>
      && Valid(meta, r.value) && r.value.objectType == sectionType.value
      && r.value.sectionName == sectionType.value.name
      && RootAttribute(meta, sectionType.value) == Some(r.value.mainSection)
  {
    match sectionType
    case None => Err(ArgumentNull)
    case Some(t) =>
      match RootAttribute(meta, t)
      case None => Err(NullReference)
      case Some(key) => Ok(RegistrySection(t, t.name, key, GetProperties(meta, t)))
  }

  /** `new RegistrySection(sectionType, mainSection)`: a section named after the type at an
      explicitly given key. */
  function NewAt(meta: Metadata, sectionType: Option<TypeRef>, mainSection: Option<Key>): (r: Result<RegistrySection>)
    ensures r.Err? <==> sectionType.None? || mainSection.None?
    ensures r.Err? ==> r.error == ArgumentNull
    ensures r.Ok? ==>
      && Valid(meta, r.value) && r.value.objectType == sectionType.value
      && r.value.sectionName == sectionType.value.name && r.value.mainSection == mainSection.value
  {
    if sectionType.None? || mainSection.None? then Err(ArgumentNull)
    else
      var t := sectionType.value;
      Ok(RegistrySection(t, t.name, mainSection.value, GetProperties(meta, t)))
  }

  /** The private `new RegistrySection(property, mainSection)`: a nested section bound to the
      property's type and named after the property. */
  function NewNested(meta: Metadata, property: Property, mainSection: Key): (r: RegistrySection)
    ensures Valid(meta, r)
    ensures r.objectType == property.propType && r.sectionName == property.name
    ensures r.mainSection == mainSection
  {
    RegistrySection(property.propType, property.name, mainSection, GetProperties(meta, property.propType))
  }

  // ---------------------------------------------------------------------------------------
  // Conversion

  /** `RegistryFieldValueConvert`: the raw value itself when the property has no
      `RegistryPropertyConvert`, otherwise the declared type built from it by the constructor
      taking the seed type, or `ArgumentException` when there is no such constructor. */
  function RegistryFieldValueConvert(meta: Metadata, p: Property, value: Value): (r: Result<Value>)
    ensures p.convert.None? ==> r == Ok(value)
    ensures r.Err? <==> p.convert.Some? && (p.propType, p.convert.value) !in meta.constructors
    ensures r.Err? ==> r.error == Argument
    ensures r.Ok? && p.convert.Some? ==> r.value == meta.construct(p.propType, p.convert.value, value)
  {
    match p.convert
    case None => Ok(value)
    case Some(seed) =>
      if (p.propType, seed) in meta.constructors then Ok(meta.construct(p.propType, seed, value))
      else Err(Argument)
  }

  // ---------------------------------------------------------------------------------------
  // Read path: what `GetSection` computes

  /** Reads an instance of `t` from the sub-key `name` of `parent`; `null` when it is absent. */
  function ReadSection(meta: Metadata, t: TypeRef, name: string, parent: Node): Result<Value>
    decreases parent, 0, 0
  {
    if name !in parent.children then Ok(Null)
    else ReadFrom(meta, GetProperties(meta, t), 0, parent.children[name], CreateInstance(meta, t))
  }

  /** The key the properties are read from is closed when property `j` comes to be read:
      property `j - 1` has a type carrying `RegistrySerializable`, and the `using` around its
      nested section disposed that section, which closes the key it is rooted at, this
      section's own key. A read of any earlier property leaves the key open. */
  predicate ClosedAt(meta: Metadata, props: seq<Property>, j: nat)
  {
    0 < j <= |props| && IsSerializable(meta, props[j - 1].propType)
  }

  /** Assigns the properties `props[i..]` read from `node` to `obj`, one after the other;
      reading from the closed key throws `ObjectDisposedException`. */
  function ReadFrom(meta: Metadata, props: seq<Property>, i: nat, node: Node, obj: Value): Result<Value>
    requires i <= |props| && obj.Object?
    decreases node, 2, |props| - i
  {
    if i == |props| then Ok(obj)
    else if ClosedAt(meta, props, i) then Err(ObjectDisposed)
    else
      match ReadProperty(meta, props[i], node)
      case Err(e) => Err(e)
      case Ok(None) => ReadFrom(meta, props, i + 1, node, obj)
      case Ok(Some(x)) => ReadFrom(meta, props, i + 1, node, SetField(obj, props[i].name, x))
  }

  /** The value one property receives: `None` when it is skipped (left at its default). A
      property whose type carries `RegistrySerializable` is read from the sub-key named after
      it; any other from the value named after it. */
  function ReadProperty(meta: Metadata, p: Property, node: Node): Result<Option<Value>>
    decreases node, 1, 0
  {
    if IsSerializable(meta, p.propType) then
      match ReadSection(meta, p.propType, p.name, node)
      case Err(e) => Err(e)
      case Ok(raw) => Assigned(RegistryFieldValueConvert(meta, p, raw), p)
    else
      var raw := GetValue(node, p.name);
      if raw == Null then Ok(None) else Assigned(RegistryFieldValueConvert(meta, p, raw), p)
  }

  /** `PropertyInfo.SetValue` of a converted value: `ArgumentException` when the property
      has no set accessor or the value does not fit the property's type. */
  function Assigned(c: Result<Value>, p: Property): (r: Result<Option<Value>>)
    ensures r.Ok? <==> c.Ok? && p.canWrite && AssignableTo(c.value, p.propType)
    ensures r.Ok? ==> r.value == Some(c.value)
    ensures c.Err? ==> r == Err(c.error)
    ensures c.Ok? && !(p.canWrite && AssignableTo(c.value, p.propType)) ==> r == Err(Argument)
  {
    match c
    case Err(e) => Err(e)
    case Ok(x) => if p.canWrite && AssignableTo(x, p.propType) then Ok(Some(x)) else Err(Argument)
  }

  // ---------------------------------------------------------------------------------------
  // Write path: what `Update` computes

  /** A node after a write, and how the write ended. */
  datatype Written = Written(node: Node, outcome: Outcome)

  /** `Update` refuses the value before touching the store. */
  predicate Rejected(t: TypeRef, v: Value)
  {
    v == Null || TypeOf(v) != t
  }

  /** Writes `v` as an instance of `t` into the sub-key `name` of `parent`. */
  function WriteSection(meta: Metadata, t: TypeRef, name: string, parent: Node, v: Value): Written
    decreases v, 2, 0
  {
    if v == Null then Written(parent, Fail(ArgumentNull))
    else if TypeOf(v) != t then Written(parent, Fail(Argument))
    else
      var w := WriteFrom(meta, GetProperties(meta, t), 0, ChildOr(parent, name), v);
      Written(parent.(children := parent.children[name := w.node]), w.outcome)
  }

  /** Writes the properties `props[i..]` of `v` into `node`, stopping at the first failure. */
  function WriteFrom(meta: Metadata, props: seq<Property>, i: nat, node: Node, v: Value): Written
    requires i <= |props|
    decreases v, 1, |props| - i
  {
    if i == |props| then Written(node, Pass)
    else
      var w := WriteProperty(meta, props[i], node, v);
      if w.outcome.Fail? then w else WriteFrom(meta, props, i + 1, w.node, v)
  }

  /** Writes one property: a `RegistrySubSection` property recursively (skipped when `null`),
      any other as the value named after it, without conversion. */
  function WriteProperty(meta: Metadata, p: Property, node: Node, v: Value): Written
    decreases v, 0, 0
  {
    var fv := FieldOf(v, p.name);
    if !p.canRead then Written(node, Fail(Argument))
    else if p.subSection then
      if fv == Null then Written(node, Pass) else WriteSection(meta, p.propType, p.name, node, fv)
    else Written(node.(values := node.values[p.name := fv]), Pass)
  }

  /** The properties `i..` write property `i` and, unless it fails, go on from its node. */
  lemma WriteStep(meta: Metadata, props: seq<Property>, i: nat, node: Node, v: Value)
    requires i < |props|
    ensures var w := WriteProperty(meta, props[i], node, v);
      WriteFrom(meta, props, i, node, v) == if w.outcome.Fail? then w else WriteFrom(meta, props, i + 1, w.node, v)
  {
  }

  // ---------------------------------------------------------------------------------------
  // The methods

  /** `GetSection()`: opens (never creates) the section's sub-key and reads an instance. */
  method GetSection(meta: Metadata, s: RegistrySection, reg: Registry) returns (r: Result<Value>)
    requires Valid(meta, s)
    ensures r == ReadSection(meta, s.objectType, s.sectionName, At(reg.root, s.mainSection))
    decreases At(reg.root, s.mainSection)
  {
    var currentSection := reg.OpenSubKey(s.mainSection, s.sectionName);
    if currentSection.None? {
      return Ok(Null);
    }
    var cur := currentSection.value;
    ghost var node := At(reg.root, cur);
    var props := s.objectProperties;
    var newObject := CreateInstance(meta, s.objectType);
    var closed := false;
    var i := 0;
    while i < |props|
      invariant i <= |props| && newObject.Object?
      invariant closed <==> ClosedAt(meta, props, i)
      invariant ReadFrom(meta, props, i, node, newObject) == ReadSection(meta, s.objectType, s.sectionName, At(reg.root, s.mainSection))
    {
      if closed {
        return Err(ObjectDisposed);
      }
      var p := props[i];
      var registryValue: Value;
      if IsSerializable(meta, p.propType) {
        var propertySection := NewNested(meta, p, cur);
        var sub := GetSection(meta, propertySection, reg);
        // disposing the nested section closes the key it is rooted at: `cur`
        closed := true;
        if sub.Err? {
          return Err(sub.error);
        }
        registryValue := sub.value;
      } else {
        registryValue := reg.GetValueAt(cur, p.name);
        if registryValue == Null {
          i := i + 1;
          continue;
        }
      }
      var value := RegistryFieldValueConvert(meta, p, registryValue);
      if value.Err? {
        return Err(value.error);
      }
      if !p.canWrite || !AssignableTo(value.value, p.propType) {
        return Err(Argument);
      }
      newObject := SetField(newObject, p.name, value.value);
      i := i + 1;
    }
    r := Ok(newObject);
  }

  /** Opening-or-creating the sub-key `name` of `p` and then replacing it is replacing the
      sub-key in `p`'s node. */
  lemma CreateThenPut(root: Node, p: Key, name: string, n: Node)
    ensures Put(Put(root, p, CreateChild(At(root, p), name)), p + [name], n)
         == Put(root, p, At(root, p).(children := At(root, p).children[name := n]))
  {
    var x := CreateChild(At(root, p), name);
    var root1 := Put(root, p, x);
    PutChild(root1, p, name, n);
    AtPut(root, p, x);
    assert x.(children := x.children[name := n]) == At(root, p).(children := At(root, p).children[name := n]);
    PutPut(root, p, x, At(root, p).(children := At(root, p).children[name := n]));
  }

  /** `Update(value)`: rejects `null` and any value whose run-time type is not the bound
      type, then creates the section's sub-key and writes the properties into it. */
  method Update(meta: Metadata, s: RegistrySection, reg: Registry, value: Value) returns (outcome: Outcome)
    requires Valid(meta, s)
    modifies reg
    ensures var w := WriteSection(meta, s.objectType, s.sectionName, At(old(reg.root), s.mainSection), value);
      outcome == w.outcome &&
      reg.root == if Rejected(s.objectType, value) then old(reg.root) else Put(old(reg.root), s.mainSection, w.node)
    decreases value
  {
    if value == Null {
      return Fail(ArgumentNull);
    }
    if TypeOf(value) != s.objectType {
      return Fail(Argument);
    }
    ghost var root0 := reg.root;
    var currentSection := reg.CreateSubKey(s.mainSection, s.sectionName);
    ghost var root1 := reg.root;
    ghost var start := ChildOr(At(root0, s.mainSection), s.sectionName);
    ghost var node := start;
    CreateThenPut(root0, s.mainSection, s.sectionName, start);
    assert CreateChild(At(root0, s.mainSection), s.sectionName)
        == At(root0, s.mainSection).(children := At(root0, s.mainSection).children[s.sectionName := start]);
    var props := s.objectProperties;
    var i := 0;
    while i < |props|
      invariant i <= |props|
      invariant reg.root == Put(root1, currentSection, node)
      invariant WriteFrom(meta, props, 0, start, value) == WriteFrom(meta, props, i, node, value)
    {
      var p := props[i];
      WriteStep(meta, props, i, node, value);
      if !p.canRead {
        assert WriteProperty(meta, p, node, value) == Written(node, Fail(Argument));
        CreateThenPut(root0, s.mainSection, s.sectionName, node);
        return Fail(Argument);
      }
      var fieldValue := FieldOf(value, p.name);
      if p.subSection {
        if fieldValue == Null {
          assert WriteProperty(meta, p, node, value) == Written(node, Pass);
          i := i + 1;
          continue;
        }
        var sectionManager := NewNested(meta, p, currentSection);
        AtPut(root1, currentSection, node);
        var o := Update(meta, sectionManager, reg, fieldValue);
        var w := WriteSection(meta, p.propType, p.name, node, fieldValue);
        assert WriteProperty(meta, p, node, value) == w;
        PutPut(root1, currentSection, node, w.node);
        node := w.node;
        if o.Fail? {
          CreateThenPut(root0, s.mainSection, s.sectionName, node);
          return o;
        }
        i := i + 1;
        continue;
      }
      assert WriteProperty(meta, p, node, value) == Written(node.(values := node.values[p.name := fieldValue]), Pass);
      AtPut(root1, currentSection, node);
      reg.SetValue(currentSection, p.name, fieldValue);
      PutPut(root1, currentSection, node, node.(values := node.values[p.name := fieldValue]));
      node := node.(values := node.values[p.name := fieldValue]);
      i := i + 1;
    }
    CreateThenPut(root0, s.mainSection, s.sectionName, node);
    outcome := Pass;
  }
}
