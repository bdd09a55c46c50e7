/** What `GetSection` and `Update` promise, proved about their specification functions. */
module SectionLaws {
  import opened Wrappers
  import opened Values
  import opened RegistryStore
  import opened Reflection
  import opened RegistrySections

  // ---------------------------------------------------------------------------------------
  // Read path

  /** The value a property ends up with: the default it had, or the one assigned to it. */
  function Received(r: Option<Value>, default: Value): Value
  {
    match r
    case None => default
    case Some(x) => x
  }

  /** Reading the properties `props[i..]` succeeds exactly when the key is still open for
      each of them and each of them is read without an exception. */
  lemma {:induction false} ReadFromOkIff(meta: Metadata, props: seq<Property>, i: nat, node: Node, obj: Value)
    requires i <= |props| && obj.Object?
    ensures ReadFrom(meta, props, i, node, obj).Ok?
        <==> forall j :: i <= j < |props| ==> !ClosedAt(meta, props, j) && ReadProperty(meta, props[j], node).Ok?
    decreases |props| - i
  {
    if i < |props| && !ClosedAt(meta, props, i) {
      match ReadProperty(meta, props[i], node)
      case Err(_) =>
      case Ok(None) =>
        ReadFromOkIff(meta, props, i + 1, node, obj);
      case Ok(Some(x)) =>
        ReadFromOkIff(meta, props, i + 1, node, SetField(obj, props[i].name, x));
    }
  }

  /** Each property ends up with the value read for it, or keeps its default when it was
      skipped; a name that no property carries keeps its default. */
  lemma {:induction false} ReadFromFields(meta: Metadata, props: seq<Property>, i: nat, node: Node, obj: Value)
    requires i <= |props| && obj.Object? && DistinctNames(props)
    requires ReadFrom(meta, props, i, node, obj).Ok?
    ensures var o := ReadFrom(meta, props, i, node, obj).value;
      && o.Object? && o.typ == obj.typ
      && (forall j :: i <= j < |props| ==>
            && ReadProperty(meta, props[j], node).Ok?
            && FieldOf(o, props[j].name)
               == Received(ReadProperty(meta, props[j], node).value, FieldOf(obj, props[j].name)))
      && (forall n :: !NamedFrom(props, i, n) ==> FieldOf(o, n) == FieldOf(obj, n))
    decreases |props| - i
  {
    if i < |props| {
      var p := props[i];
      var rp := ReadProperty(meta, p, node);
      var obj' := match rp.value case None => obj case Some(x) => SetField(obj, p.name, x);
      ReadFromFields(meta, props, i + 1, node, obj');
      var o := ReadFrom(meta, props, i, node, obj).value;
      assert o == ReadFrom(meta, props, i + 1, node, obj').value;
      assert !NamedFrom(props, i + 1, p.name);
      forall j | i < j < |props|
        ensures FieldOf(obj', props[j].name) == FieldOf(obj, props[j].name)
      {
        assert props[j].name != p.name;
      }
      forall n | !NamedFrom(props, i, n)
        ensures FieldOf(o, n) == FieldOf(obj, n)
      {
        assert n != p.name;
      }
    }
  }

  /** `GetSection` on a present sub-key builds a fresh instance of the bound type in which
      every serialized property holds what was read for it: for a property whose type
      carries `RegistrySerializable`, the converted result of reading the sub-key named
      after it (`null` when that sub-key is absent); for any other property, the converted
      value named after it, or its default when that value is absent. Every other slot
      keeps the default of the fresh instance. */
  lemma ReadSectionFields(meta: Metadata, t: TypeRef, name: string, parent: Node)
    requires DistinctNames(GetProperties(meta, t))
    requires name in parent.children
    requires ReadSection(meta, t, name, parent).Ok?
    ensures var o := ReadSection(meta, t, name, parent).value;
      var props := GetProperties(meta, t);
      var node := parent.children[name];
      && o.Object? && o.typ == t
      && (forall j :: 0 <= j < |props| - 1 ==> !IsSerializable(meta, props[j].propType))
      && (forall j :: 0 <= j < |props| && IsSerializable(meta, props[j].propType) ==>
            var sub := ReadSection(meta, props[j].propType, props[j].name, node);
            && sub.Ok?
            && (props[j].name !in node.children ==> sub.value == Null)
            && RegistryFieldValueConvert(meta, props[j], sub.value).Ok?
            && props[j].canWrite
            && AssignableTo(RegistryFieldValueConvert(meta, props[j], sub.value).value, props[j].propType)
            && FieldOf(o, props[j].name) == RegistryFieldValueConvert(meta, props[j], sub.value).value)
      && (forall j :: 0 <= j < |props| && !IsSerializable(meta, props[j].propType) ==>
            var raw := GetValue(node, props[j].name);
            if raw == Null then FieldOf(o, props[j].name) == FieldOf(CreateInstance(meta, t), props[j].name)
            else
              && RegistryFieldValueConvert(meta, props[j], raw).Ok?
              && props[j].canWrite
              && AssignableTo(RegistryFieldValueConvert(meta, props[j], raw).value, props[j].propType)
              && FieldOf(o, props[j].name) == RegistryFieldValueConvert(meta, props[j], raw).value)
      && (forall n :: !NamedFrom(props, 0, n) ==> FieldOf(o, n) == FieldOf(CreateInstance(meta, t), n))
  {
    var props := GetProperties(meta, t);
    ReadFromOkIff(meta, props, 0, parent.children[name], CreateInstance(meta, t));
    ReadFromFields(meta, props, 0, parent.children[name], CreateInstance(meta, t));
    forall j | 0 <= j < |props| - 1
      ensures !IsSerializable(meta, props[j].propType)
    {
      assert !ClosedAt(meta, props, j + 1);
    }
  }

  lemma {:induction false} ReadFromDisposed(meta: Metadata, props: seq<Property>, i: nat, node: Node, obj: Value, j: nat)
    requires i <= j + 1 < |props| && obj.Object? && ClosedAt(meta, props, j + 1)
    requires forall k :: i <= k <= j ==> !ClosedAt(meta, props, k) && ReadProperty(meta, props[k], node).Ok?
    ensures ReadFrom(meta, props, i, node, obj) == Err(ObjectDisposed)
    decreases j + 1 - i
  {
    if i <= j {
      match ReadProperty(meta, props[i], node)
      case Ok(None) =>
        ReadFromDisposed(meta, props, i + 1, node, obj, j);
      case Ok(Some(x)) =>
        ReadFromDisposed(meta, props, i + 1, node, SetField(obj, props[i].name, x), j);
    }
  }

  /** A present sub-key whose properties read without an exception up to the first one
      whose type carries `RegistrySerializable` fails with `ObjectDisposedException` when
      another property follows that one: the nested read closed the key. */
  lemma ReadSectionDisposed(meta: Metadata, t: TypeRef, name: string, parent: Node, j: nat)
    requires name in parent.children
    requires j + 1 < |GetProperties(meta, t)| && IsSerializable(meta, GetProperties(meta, t)[j].propType)
    requires forall k :: 0 <= k < j ==> !IsSerializable(meta, GetProperties(meta, t)[k].propType)
    requires forall k :: 0 <= k <= j ==> ReadProperty(meta, GetProperties(meta, t)[k], parent.children[name]).Ok?
    ensures ReadSection(meta, t, name, parent) == Err(ObjectDisposed)
  {
    ReadFromDisposed(meta, GetProperties(meta, t), 0, parent.children[name], CreateInstance(meta, t), j);
  }

  /** `GetSection` yields `null` when the section's sub-key is absent. */
  lemma ReadAbsent(meta: Metadata, t: TypeRef, name: string, parent: Node)
    requires name !in parent.children
    ensures ReadSection(meta, t, name, parent) == Ok(Null)
  {
  }

  // ---------------------------------------------------------------------------------------
  // Write path

  /** How the node `after` records the property `p` of `v`, written over `before`: a plain
      property as the value named after it, a `RegistrySubSection` property as the sub-key
      named after it (left as it was when the property is `null`). The other slot of the
      same name is left as it was. */
  predicate WrittenAs(meta: Metadata, p: Property, before: Node, v: Value, after: Node)
  {
    var fv := FieldOf(v, p.name);
    if !p.subSection then
      LookupValue(after, p.name) == Some(fv) && LookupChild(after, p.name) == LookupChild(before, p.name)
    else
      && LookupValue(after, p.name) == LookupValue(before, p.name)
      && if fv == Null then LookupChild(after, p.name) == LookupChild(before, p.name)
         else
           && TypeOf(fv) == p.propType
           && LookupChild(after, p.name)
              == Some(WriteFrom(meta, GetProperties(meta, p.propType), 0, ChildOr(before, p.name), fv).node)
  }

  /** The node slots `before` and `after` agree on for the name `n`. */
  predicate SameSlots(before: Node, after: Node, n: string)
  {
    LookupValue(after, n) == LookupValue(before, n) && LookupChild(after, n) == LookupChild(before, n)
  }

  /** Writing one property touches only the slots named after it. */
  lemma WritePropertyFrame(meta: Metadata, p: Property, node: Node, v: Value)
    requires WriteProperty(meta, p, node, v).outcome == Pass
    ensures WrittenAs(meta, p, node, v, WriteProperty(meta, p, node, v).node)
    ensures forall n :: n != p.name ==> SameSlots(node, WriteProperty(meta, p, node, v).node, n)
  {
  }

  /** After a successful write of `props[i..]`, each of them is recorded as `WrittenAs`
      says, and every slot not named after one of them is unchanged. */
  lemma {:induction false} WriteFromFields(meta: Metadata, props: seq<Property>, i: nat, node: Node, v: Value)
    requires i <= |props| && DistinctNames(props)
    requires WriteFrom(meta, props, i, node, v).outcome == Pass
    ensures var after := WriteFrom(meta, props, i, node, v).node;
      && (forall j :: i <= j < |props| ==> WrittenAs(meta, props[j], node, v, after))
      && (forall n :: !NamedFrom(props, i, n) ==> SameSlots(node, after, n))
    decreases |props| - i
  {
    if i < |props| {
      var p := props[i];
      var mid := WriteProperty(meta, p, node, v).node;
      WritePropertyFrame(meta, p, node, v);
      WriteFromFields(meta, props, i + 1, mid, v);
      var after := WriteFrom(meta, props, i, node, v).node;
      assert after == WriteFrom(meta, props, i + 1, mid, v).node;
      assert !NamedFrom(props, i + 1, p.name);
      forall j | i < j < |props|
        ensures WrittenAs(meta, props[j], node, v, after)
      {
        assert props[j].name != p.name;
        assert SameSlots(node, mid, props[j].name);
        assert ChildOr(mid, props[j].name) == ChildOr(node, props[j].name);
      }
      forall n | !NamedFrom(props, i, n)
        ensures SameSlots(node, after, n)
      {
        assert n != p.name;
        assert !NamedFrom(props, i + 1, n);
        assert SameSlots(node, mid, n) && SameSlots(mid, after, n);
      }
    }
  }

  /** `Update` refuses `null` and a value of another run-time type, and then leaves the
      parent key exactly as it was: the section's sub-key is not created. */
  lemma UpdateRejects(meta: Metadata, t: TypeRef, name: string, parent: Node, v: Value)
    requires Rejected(t, v)
    ensures WriteSection(meta, t, name, parent, v).node == parent
    ensures WriteSection(meta, t, name, parent, v).outcome
         == if v == Null then Fail(ArgumentNull) else Fail(Argument)
  {
  }

  /** A successful `Update` changes nothing in the parent key but its sub-key `name`, and in
      that sub-key records each serialized property as `WrittenAs` says and changes no slot
      that is not named after one of them. */
  lemma UpdateFields(meta: Metadata, t: TypeRef, name: string, parent: Node, v: Value)
    requires DistinctNames(GetProperties(meta, t))
    requires WriteSection(meta, t, name, parent, v).outcome == Pass
    ensures var after := WriteSection(meta, t, name, parent, v).node;
      var props := GetProperties(meta, t);
      && v != Null && TypeOf(v) == t
      && after.values == parent.values
      && name in after.children
      && (forall n :: n in parent.children && n != name ==> n in after.children && after.children[n] == parent.children[n])
      && (forall n :: n in after.children ==> n == name || n in parent.children)
      && (forall j :: 0 <= j < |props| ==> WrittenAs(meta, props[j], ChildOr(parent, name), v, after.children[name]))
      && (forall n :: !NamedFrom(props, 0, n) ==> SameSlots(ChildOr(parent, name), after.children[name], n))
  {
    WriteFromFields(meta, GetProperties(meta, t), 0, ChildOr(parent, name), v);
  }

  // ---------------------------------------------------------------------------------------
  // Conditional round trip

  /** The properties of one type allow a round trip: distinct names, no converter, a get
      and a set accessor on every property, a property is marked `RegistrySubSection` exactly when its type carries
      `RegistrySerializable` (the write path and the read path then agree), and only the
      last property may have such a type (reading it closes the key for any later one). */
  predicate SchemaRoundTrips(meta: Metadata, props: seq<Property>)
  {
    && DistinctNames(props)
    && (forall j :: 0 <= j < |props| ==>
         && props[j].convert.None? && props[j].canRead && props[j].canWrite
         && (props[j].subSection <==> IsSerializable(meta, props[j].propType)))
    && (forall j :: 0 <= j < |props| - 1 ==> !IsSerializable(meta, props[j].propType))
  }

  predicate RoundTripSchema(meta: Metadata)
  {
    forall t :: t in meta.types ==> SchemaRoundTrips(meta, GetProperties(meta, t))
  }

  lemma RoundTripSchemaAt(meta: Metadata, t: TypeRef)
    requires RoundTripSchema(meta)
    ensures SchemaRoundTrips(meta, GetProperties(meta, t))
  {
    if t !in meta.types {
      assert GetProperties(meta, t) == [];
    }
  }

  /** `v` is an instance of exactly `t` whose properties all have a get accessor, whose
      plain properties are all non-null strings or integers of exactly their property's
      type (a registry value holds no object), and whose non-null sub-sections are
      instances of exactly their property's type, recursively. */
  predicate Fits(meta: Metadata, t: TypeRef, v: Value)
    decreases v
  {
    && v.Object? && v.typ == t
    && var props := GetProperties(meta, t);
       forall j :: 0 <= j < |props| ==>
         var fv := FieldOf(v, props[j].name);
         props[j].canRead &&
         if props[j].subSection then fv == Null || Fits(meta, props[j].propType, fv)
         else fv != Null && !fv.Object? && TypeOf(fv) == props[j].propType
  }

  /** `r`, read back, agrees with `v` field by field: every serialized property holds the
      same value (recursively for sub-sections, whose non-serialized slots hold defaults),
      and every other slot holds the default of a fresh instance. */
  ghost predicate Agrees(meta: Metadata, t: TypeRef, r: Value, v: Value)
    decreases v
  {
    && r.Object? && r.typ == t
    && var props := GetProperties(meta, t);
       && (forall j :: 0 <= j < |props| ==>
             var fv := FieldOf(v, props[j].name);
             if props[j].subSection && fv != Null then Agrees(meta, props[j].propType, FieldOf(r, props[j].name), fv)
             else FieldOf(r, props[j].name) == fv)
       && (forall n :: !NamedFrom(props, 0, n) ==> FieldOf(r, n) == FieldOf(CreateInstance(meta, t), n))
  }

  /** Writing a fitting instance never fails, whatever the node holds. */
  lemma {:induction false} FitsWritePasses(meta: Metadata, t: TypeRef, node: Node, v: Value)
    requires Fits(meta, t, v)
    ensures WriteFrom(meta, GetProperties(meta, t), 0, node, v).outcome == Pass
    decreases v, 1
  {
    WriteFromPasses(meta, t, 0, node, v);
  }

  lemma {:induction false} WriteFromPasses(meta: Metadata, t: TypeRef, i: nat, node: Node, v: Value)
    requires Fits(meta, t, v) && i <= |GetProperties(meta, t)|
    ensures WriteFrom(meta, GetProperties(meta, t), i, node, v).outcome == Pass
    decreases v, 0, |GetProperties(meta, t)| - i
  {
    var props := GetProperties(meta, t);
    if i < |props| {
      var p := props[i];
      var fv := FieldOf(v, p.name);
      assert p.subSection ==> fv == Null || Fits(meta, p.propType, fv);
      if p.subSection && fv != Null {
        FitsWritePasses(meta, p.propType, ChildOr(node, p.name), fv);
        assert TypeOf(fv) == p.propType;
      }
      assert WriteProperty(meta, p, node, v).outcome == Pass;
      WriteFromPasses(meta, t, i + 1, WriteProperty(meta, p, node, v).node, v);
    }
  }

  /** Writing a fitting instance into an empty key and reading it back gives an instance
      that agrees with it field by field. */
  lemma {:induction false} RoundTripNode(meta: Metadata, t: TypeRef, v: Value)
    requires RoundTripSchema(meta) && Fits(meta, t, v)
    ensures var props := GetProperties(meta, t);
      var w := WriteFrom(meta, props, 0, Empty, v);
      && w.outcome == Pass
      && ReadFrom(meta, props, 0, w.node, CreateInstance(meta, t)).Ok?
      && Agrees(meta, t, ReadFrom(meta, props, 0, w.node, CreateInstance(meta, t)).value, v)
    decreases v
  {
    var props := GetProperties(meta, t);
    RoundTripSchemaAt(meta, t);
    FitsWritePasses(meta, t, Empty, v);
    var after := WriteFrom(meta, props, 0, Empty, v).node;
    WriteFromFields(meta, props, 0, Empty, v);
    var init := CreateInstance(meta, t);
    forall j | 0 <= j < |props|
      ensures ReadProperty(meta, props[j], after).Ok?
      ensures var fv := FieldOf(v, props[j].name);
        var got := ReadProperty(meta, props[j], after).value;
        if props[j].subSection && fv != Null then got.Some? && Agrees(meta, props[j].propType, got.value, fv)
        else got == Some(fv)
    {
      var p := props[j];
      var fv := FieldOf(v, p.name);
      assert WrittenAs(meta, p, Empty, v, after);
      if p.subSection {
        if fv != Null {
          RoundTripNode(meta, p.propType, fv);
        }
      }
    }
    ReadFromOkIff(meta, props, 0, after, init);
    ReadFromFields(meta, props, 0, after, init);
  }

  /** The conditional round trip: a fitting instance written into a section whose sub-key
      does not exist yet reads back as an instance agreeing with it field by field. */
  lemma RoundTrip(meta: Metadata, t: TypeRef, name: string, parent: Node, v: Value)
    requires RoundTripSchema(meta) && Fits(meta, t, v)
    requires name !in parent.children
    ensures var w := WriteSection(meta, t, name, parent, v);
      && w.outcome == Pass
      && ReadSection(meta, t, name, w.node).Ok?
      && Agrees(meta, t, ReadSection(meta, t, name, w.node).value, v)
  {
    RoundTripNode(meta, t, v);
  }
}
