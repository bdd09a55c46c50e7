/** `RegistrySerializer<T>` (RegistrySerializer.cs): the public facade over the root
    section of `T`. The type parameter `T` is the root section's bound type. */
module RegistrySerializers {
  import opened Wrappers
  import opened Values
  import opened RegistryStore
  import opened Reflection
  import opened RegistrySections
  import opened SectionLaws
  import opened ManagerLaws

  datatype RegistrySerializer = RegistrySerializer(mainSection: RegistrySection)

  /** A serializer for `t` as its constructors leave it: its root section is bound to `t`
      and named after it. */
  predicate SerializerOf(meta: Metadata, ser: RegistrySerializer, t: TypeRef)
  {
    && Valid(meta, ser.mainSection)
    && ser.mainSection.objectType == t
    && ser.mainSection.sectionName == t.name
  }

  /** `new RegistrySerializer<T>()`: the root section at the key named by `T`'s
      `RegistrySerializable` attribute; fails when `T` does not carry it. */
  function NewSerializer(meta: Metadata, t: TypeRef): (r: Result<RegistrySerializer>)
    ensures r.Err? <==> !IsSerializable(meta, t)
    ensures r.Err? ==> r.error == NullReference
    ensures r.Ok? ==> SerializerOf(meta, r.value, t) && RootAttribute(meta, t) == Some(r.value.mainSection.mainSection)
  {
    match NewRoot(meta, Some(t))
    case Err(e) => Err(e)
    case Ok(s) => Ok(RegistrySerializer(s))
  }

  /** `new RegistrySerializer<T>(mainSection)`: rejects a null key, then binds the root
      section named after `T` at that key. */
  function NewSerializerAt(meta: Metadata, t: TypeRef, mainSection: Option<Key>): (r: Result<RegistrySerializer>)
    ensures r.Err? <==> mainSection.None?
    ensures r.Err? ==> r.error == ArgumentNull
    ensures r.Ok? ==> SerializerOf(meta, r.value, t) && r.value.mainSection.mainSection == mainSection.value
  {
    if mainSection.None? then Err(ArgumentNull)
    else
      match NewAt(meta, Some(t), mainSection)
      case Err(e) => Err(e)
      case Ok(s) => Ok(RegistrySerializer(s))
  }

  /** `Serialize(value)`: exactly the root section's `Update(value)`, rejections included. */
  method Serialize(meta: Metadata, ser: RegistrySerializer, reg: Registry, value: Value) returns (outcome: Outcome)
    requires Valid(meta, ser.mainSection)
    modifies reg
    ensures var s := ser.mainSection;
      var w := WriteSection(meta, s.objectType, s.sectionName, At(old(reg.root), s.mainSection), value);
      outcome == w.outcome &&
      reg.root == if Rejected(s.objectType, value) then old(reg.root) else Put(old(reg.root), s.mainSection, w.node)
  {
    outcome := Update(meta, ser.mainSection, reg, value);
  }

  /** `Deserialize()`: the root section's `GetSection()`, cast to `T`. The cast never fails:
      the result is `null` (always so when the root sub-key is absent) or an instance of
      exactly `T`. */
  method Deserialize(meta: Metadata, ser: RegistrySerializer, reg: Registry) returns (r: Result<Value>)
    requires Valid(meta, ser.mainSection)
    ensures var s := ser.mainSection;
      r == ReadSection(meta, s.objectType, s.sectionName, At(reg.root, s.mainSection))
    ensures r.Ok? && r.value != Null ==> r.value.Object? && r.value.typ == ser.mainSection.objectType
    ensures ser.mainSection.sectionName !in At(reg.root, ser.mainSection.mainSection).children ==> r == Ok(Null)
  {
    r := GetSection(meta, ser.mainSection, reg);
    ReadSectionType(meta, ser.mainSection.objectType, ser.mainSection.sectionName, At(reg.root, ser.mainSection.mainSection));
  }

  /** Filling in properties keeps the instance's type. */
  lemma {:induction false} ReadFromType(meta: Metadata, props: seq<Property>, i: nat, node: Node, obj: Value)
    requires i <= |props| && obj.Object?
    ensures var r := ReadFrom(meta, props, i, node, obj);
      r.Ok? ==> r.value.Object? && r.value.typ == obj.typ
    decreases |props| - i
  {
    if i < |props| {
      match ReadProperty(meta, props[i], node)
      case Err(_) =>
      case Ok(None) =>
        ReadFromType(meta, props, i + 1, node, obj);
      case Ok(Some(x)) =>
        ReadFromType(meta, props, i + 1, node, SetField(obj, props[i].name, x));
    }
  }

  /** A section reads as `null` or as an instance of exactly its bound type. */
  lemma ReadSectionType(meta: Metadata, t: TypeRef, name: string, parent: Node)
    ensures var r := ReadSection(meta, t, name, parent);
      r.Ok? ==> r.value == Null || (r.value.Object? && r.value.typ == t)
  {
    if name in parent.children {
      ReadFromType(meta, GetProperties(meta, t), 0, parent.children[name], CreateInstance(meta, t));
    }
  }

  /** The conditional round trip through the store: `Serialize(v)` on a store where `T`'s
      root sub-key does not exist yet, then `Deserialize()`, yields an instance agreeing with
      `v` field by field, provided every sub-section property is marked `RegistrySubSection`
      exactly when its type carries `RegistrySerializable`, only the last property of a type
      can have such a type, no property has a converter, every property has a get and a set
      accessor, and every plain property of `v` is
      a non-null string or integer of exactly its property's type (`Fits`). */
  lemma SerializeDeserialize(meta: Metadata, ser: RegistrySerializer, root: Node, v: Value)
    requires Valid(meta, ser.mainSection)
    requires RoundTripSchema(meta) && Fits(meta, ser.mainSection.objectType, v)
    requires ser.mainSection.sectionName !in At(root, ser.mainSection.mainSection).children
    ensures var s := ser.mainSection;
      var w := WriteSection(meta, s.objectType, s.sectionName, At(root, s.mainSection), v);
      var stored := Put(root, s.mainSection, w.node);
      var r := ReadSection(meta, s.objectType, s.sectionName, At(stored, s.mainSection));
      && !Rejected(s.objectType, v)
      && w.outcome == Pass
      && r.Ok?
      && Agrees(meta, s.objectType, r.value, v)
  {
    var s := ser.mainSection;
    var w := WriteSection(meta, s.objectType, s.sectionName, At(root, s.mainSection), v);
    AtPut(root, s.mainSection, w.node);
    RoundTrip(meta, s.objectType, s.sectionName, At(root, s.mainSection), v);
  }

  // ---------------------------------------------------------------------------------------
  // A worked instance: Settings { Port: int; [RegistrySubSection] Sub: Sub } (the types of ManagerLaws)

  const Port := Property("Port", Int32Type, false, false, None, true, true)
  const Sub := Property("Sub", SubType, false, true, None, true, true)
  const Name := Property("Name", StringType, false, false, None, true, true)

  function ScenarioMeta(): Metadata
  {
    Metadata(map[SettingsType := TypeInfo(Some(["Software"]), [Port, Sub], [], map[]),
                 SubType := TypeInfo(Some(["Software"]), [Name], [], map[])],
             {}, (declared, seed, raw) => raw)
  }

  function ScenarioValue(): Value
  {
    Object(SettingsType, map["Port" := Int(8080), "Sub" := Object(SubType, map["Name" := Str("alpha")])])
  }

  function SubValue(): Value
  {
    Object(SubType, map["Name" := Str("alpha")])
  }

  /** The key `Settings` as the scenario leaves it. */
  function SettingsNode(): Node
  {
    Node(map["Port" := Int(8080)], map["Sub" := Node(map["Name" := Str("alpha")], map[])])
  }

  lemma ScenarioProperties()
    ensures GetProperties(ScenarioMeta(), SettingsType) == [Port, Sub]
    ensures GetProperties(ScenarioMeta(), SubType) == [Name]
  {
    assert [Port, Sub][1..] == [Sub];
    assert [Sub][1..] == [];
    assert [Name][1..] == [];
  }

  lemma ScenarioWrite()
    ensures WriteSection(ScenarioMeta(), SettingsType, "Settings", Empty, ScenarioValue())
         == Written(Node(map[], map["Settings" := SettingsNode()]), Pass)
  {
    var meta := ScenarioMeta();
    ScenarioProperties();
    var inner := Node(map["Name" := Str("alpha")], map[]);
    var node1 := Node(map["Port" := Int(8080)], map[]);
    assert FieldOf(SubValue(), "Name") == Str("alpha");
    assert WriteFrom(meta, [Name], 1, inner, SubValue()) == Written(inner, Pass);
    assert WriteFrom(meta, [Name], 0, Empty, SubValue()) == Written(inner, Pass);
    assert WriteSection(meta, SubType, "Sub", node1, SubValue()) == Written(SettingsNode(), Pass);
    assert FieldOf(ScenarioValue(), "Sub") == SubValue();
    assert FieldOf(ScenarioValue(), "Port") == Int(8080);
    assert WriteFrom(meta, [Port, Sub], 2, SettingsNode(), ScenarioValue()) == Written(SettingsNode(), Pass);
    assert WriteFrom(meta, [Port, Sub], 1, node1, ScenarioValue()) == Written(SettingsNode(), Pass);
    assert WriteFrom(meta, [Port, Sub], 0, Empty, ScenarioValue()) == Written(SettingsNode(), Pass);
  }

  lemma ScenarioRead()
    ensures ReadSection(ScenarioMeta(), SettingsType, "Settings", Node(map[], map["Settings" := SettingsNode()]))
         == Ok(ScenarioValue())
  {
    var meta := ScenarioMeta();
    ScenarioProperties();
    var inner := Node(map["Name" := Str("alpha")], map[]);
    var sub0 := CreateInstance(meta, SubType);
    assert sub0 == Object(SubType, map[]);
    assert ReadProperty(meta, Name, inner) == Ok(Some(Str("alpha")));
    assert SetField(sub0, "Name", Str("alpha")) == SubValue();
    assert ReadFrom(meta, [Name], 1, inner, SubValue()) == Ok(SubValue());
    assert ReadFrom(meta, [Name], 0, inner, sub0) == Ok(SubValue());
    assert ReadSection(meta, SubType, "Sub", SettingsNode()) == Ok(SubValue());
    assert ReadProperty(meta, Sub, SettingsNode()) == Ok(Some(SubValue()));
    assert ReadProperty(meta, Port, SettingsNode()) == Ok(Some(Int(8080)));
    var obj0 := CreateInstance(meta, SettingsType);
    var obj1 := SetField(obj0, "Port", Int(8080));
    assert SetField(obj1, "Sub", SubValue()) == ScenarioValue();
    assert ReadFrom(meta, [Port, Sub], 2, SettingsNode(), ScenarioValue()) == Ok(ScenarioValue());
    assert ReadFrom(meta, [Port, Sub], 1, SettingsNode(), obj1) == Ok(ScenarioValue());
    assert ReadFrom(meta, [Port, Sub], 0, SettingsNode(), obj0) == Ok(ScenarioValue());
  }

  /** Serializing `Settings { Port = 8080, Sub = { Name = "alpha" } }` into an empty store
      stores `Port` in the key `Settings` and `Name` in its sub-key `Sub`; deserializing
      gives back exactly the same instance. */
  lemma Scenario()
    ensures var ser := NewSerializer(ScenarioMeta(), SettingsType);
      && ser.Ok?
      && var s := ser.value.mainSection;
         var w := WriteSection(ScenarioMeta(), SettingsType, s.sectionName, At(Empty, s.mainSection), ScenarioValue());
         var stored := Put(Empty, s.mainSection, w.node);
         && w.outcome == Pass
         && At(stored, ["Software", "Settings"]).values == map["Port" := Int(8080)]
         && At(stored, ["Software", "Settings", "Sub"]).values == map["Name" := Str("alpha")]
         && ReadSection(ScenarioMeta(), SettingsType, s.sectionName, At(stored, s.mainSection)) == Ok(ScenarioValue())
  {
    var meta := ScenarioMeta();
    var s := NewSerializer(meta, SettingsType).value.mainSection;
    assert s.mainSection == ["Software"] && s.sectionName == "Settings";
    assert At(Empty, ["Software"]) == Empty;
    ScenarioWrite();
    var top := Node(map[], map["Settings" := SettingsNode()]);
    var stored := Put(Empty, ["Software"], top);
    AtPut(Empty, ["Software"], top);
    AtChild(stored, ["Software"], "Settings");
    AtChild(stored, ["Software", "Settings"], "Sub");
    assert ["Software"] + ["Settings"] == ["Software", "Settings"];
    assert ["Software", "Settings"] + ["Sub"] == ["Software", "Settings", "Sub"];
    ScenarioRead();
  }
}
