# Registry serialization, modelled in Dafny

This project models the core of a small .NET library that maps typed object graphs onto the Windows Registry. The registry is a tree of keys. Each key holds named values and named sub-keys. The library has two engines:

- **`RegistrySection`**, behind the `RegistrySerializer<T>` facade. It reads and writes an instance property by property. A sub-section property is stored as a sub-key named after the property, and every other property as a value named after it.
  - The read path (`GetSection`) treats a property as a sub-section when the property's *type* carries `RegistrySerializable`.
  - The write path (`Update`) treats it as one when the *property* carries `RegistrySubSection`.
  - The model keeps the two tests separate.
- **`SectionManager`**, the older engine. It is field-based and write-only. It builds the whole tree of child managers when it is constructed, and `Update` then writes an instance through that tree.

## How the model is organised

The registry is the only mutable state. `RegistryStore.Registry` is a class whose one field, `root`, is the whole tree as a `Node` value. A `RegistryKey` handle is the path of its node from the root.

- `OpenSubKey` is a function. It reads the registry and never changes it.
- `CreateSubKey` and `SetValue` are methods that reassign `root`.

`RegistrySection`, `SectionManager` and `RegistrySerializer<T>` hold only `readonly` fields, so they are datatypes. Their operations are methods that take the registry. Each of these methods is proved equal to a specification function:

- `GetSection` against `ReadSection`;
- `RegistrySection.Update` against `WriteSection`;
- `SectionManager.Update` against `ManagerWrite`.

The lemmas in `SectionLaws` and `ManagerLaws` state what those functions promise.

Reflection is a value, `Reflection.Metadata`. For each type it gives:

- the key of its `RegistrySerializable` attribute;
- its public properties and fields, with their attributes;
- the property values of a fresh instance.

It also gives the table of one-argument constructors that `RegistryPropertyConvert` looks up.

Exceptions become values:
- an operation that can throw returns a `Result` or an `Outcome`;
- the `Error` names the exception kind (`ArgumentNull`, `Argument`, `NullReference`, `System`, `InvalidOperation`, `ObjectDisposed`).

Some behaviours of the code are easy to miss:

- **An absent sub-key is still assigned.** On the read path, an absent sub-section sub-key yields `null`. That `null` is converted and assigned to the property rather than skipped (RegistrySection.cs:106-124).
- **Self-reference is detected one level deep.** `SectionManager` detects only a field whose type is its own section type (SectionManager.cs:79-82). A longer cycle of sub-section types is not detected. The model therefore requires an acyclic schema through a ghost rank (`SectionManagers.Ranked`). `RegistrySection` detects no cycle at all.
- **The two sub-section tests stay different.** Each path uses its own test, as described above.
- **A nested read closes the key it was opened on.** The `using` at RegistrySection.cs:108 disposes the nested section, and its `Dispose` (RegistrySection.cs:171-174) closes that section's main key, which is the key the outer read is iterating over. Every later `GetValue` or `OpenSubKey` on it throws `ObjectDisposedException`. The read path therefore succeeds only when no property follows one whose type carries `RegistrySerializable` (`RegistrySections.ClosedAt`).
- **The assignment is checked.** `PropertyInfo.SetValue` (RegistrySection.cs:124) throws `ArgumentException` when the converted value cannot be assigned to the property. The model takes "can be assigned" to mean `null` or exactly the property's type (`Values.AssignableTo`), which is stricter than .NET (see "## Left out").

## Model

| member | source | states |
|---|---|---|
| RegistryStore.Registry.OpenSubKey | RegistrySection.cs:92-97 | Returns the sub-key's handle exactly when the sub-key exists, and that handle names the existing node. It reads the registry only, so nothing is created. |
| RegistryStore.Registry.CreateSubKey | RegistrySection.cs:144 | Afterwards the sub-key exists. An existing sub-key keeps its content. Only the one node is replaced, and the store is only extended: no value changes and no key disappears. Every key it creates lies on the way to the sub-key and holds no values. |
| RegistryStore.Registry.SetValue | RegistrySection.cs:165 | The new store is the old one with the single value slot set in the named key. |
| RegistryStore.Registry.GetValueAt | RegistrySection.cs:114 | `GetValue(name)` returns the value stored under `name` in the key, and `null` when the key holds no such value. |
| RegistrySections.Serialized | RegistrySection.cs:57-64 | A property is in the table exactly when it is a property of the type not marked `RegistryNonSerialized`. The table is no longer than the type's property list. |
| RegistrySections.SerializedAppend | RegistrySection.cs:57-64 | The filter keeps relative order: filtering a concatenation concatenates the filtered parts. |
| RegistrySections.NewRoot | RegistrySection.cs:14-32 | A null type gives `ArgumentNullException`. A type without `RegistrySerializable` gives `NullReferenceException`. Otherwise the section is bound to the type, named after it, rooted at the attribute's key, and holds the type's serialized properties. |
| RegistrySections.NewAt | RegistrySection.cs:34-50 | Fails with `ArgumentNullException` exactly when the type or the key is null. Otherwise the section is named after the type and rooted at the given key. |
| RegistrySections.NewNested | RegistrySection.cs:52-55 | The nested section is bound to the property's type, named after the property, and rooted at the given key. |
| RegistrySections.RegistryFieldValueConvert | RegistrySection.cs:66-88 | Without `RegistryPropertyConvert` the raw value is returned unchanged. It fails with `ArgumentException` exactly when the declared type has no constructor from the seed type. Otherwise it returns what that constructor builds from the raw value. |
| RegistrySections.ReadSection | RegistrySection.cs:90-128 | The specification of the read path: an absent sub-key reads as `null`; otherwise a fresh instance of the bound type receives the properties in table order. Its properties are stated by `ReadAbsent`, `ReadFromOkIff`, `ReadSectionFields`, `ReadSectionDisposed` and `ReadSectionType`. |
| RegistrySections.ReadProperty | RegistrySection.cs:103-124 | One property: a property whose type carries `RegistrySerializable` is read as the nested section named after it; any other is the value named after it, and an absent value is skipped. The result is converted and then assigned through `Assigned`. |
| RegistrySections.ClosedAt | RegistrySection.cs:106-111 | The key being read is closed when property `j` comes to be read exactly when property `j - 1` has a type carrying `RegistrySerializable`, because disposing its nested section (RegistrySection.cs:171-174) closed that key. |
| RegistrySections.Assigned | RegistrySection.cs:122-124 | The assignment succeeds exactly when the conversion succeeded, the property has a set accessor, and the value can be assigned to the property's type; it then yields that value. A conversion error is passed on. A missing set accessor or a value that cannot be assigned gives `ArgumentException`. |
| RegistrySections.GetSection | RegistrySection.cs:90-128 | The loop computes exactly `ReadSection` of the section's parent node. That includes `ObjectDisposedException` for a property read after a nested section closed the key, and `ArgumentException` when the property has no set accessor or a converted value does not fit it. It has no `modifies` clause, so the store is never changed. |
| RegistrySections.WriteSection | RegistrySection.cs:130-169 | The specification of the write path: a null value gives `ArgumentNullException` and a value of another run-time type `ArgumentException`, both with the parent unchanged; otherwise the sub-key is opened or created and the properties are written into it in table order, stopping at the first failure. Its properties are stated by `UpdateRejects`, `UpdateFields`, `WriteFromFields` and `FitsWritePasses`. |
| RegistrySections.WriteProperty | RegistrySection.cs:148-165 | One property: a property without a get accessor gives `ArgumentException` from `GetValue` with the node unchanged; a `RegistrySubSection` property that is null is skipped, a non-null one is written as the nested section named after it; any other property is stored as the value named after it. `WritePropertyFrame` states what it changes. |
| RegistrySections.Update | RegistrySection.cs:130-169 | The outcome is `WriteSection`'s. A rejected value leaves the store unchanged. Otherwise the parent node is replaced by the written one, including partial writes before a failure. |
| SectionLaws.ReadSectionDisposed | RegistrySection.cs:106-114 | When a property whose type carries `RegistrySerializable` is read successfully and another property follows it, the read fails with `ObjectDisposedException`: the nested section's disposal closed the key. |
| SectionLaws.ReadAbsent | RegistrySection.cs:92-97 | `GetSection` on an absent sub-key returns `null`. |
| SectionLaws.ReadFromOkIff | RegistrySection.cs:101-125 | Reading succeeds exactly when no property comes after one whose type carries `RegistrySerializable` (the key is closed by then) and every property is read, converted and assigned without an exception. |
| SectionLaws.ReadFromFields | RegistrySection.cs:101-125 | Each property ends up with the value read for it, or keeps its default when skipped. A slot no property names keeps its default. |
| SectionLaws.ReadSectionFields | RegistrySection.cs:99-127 | A present sub-key that reads successfully reads as a fresh instance of the bound type, and only its last property can have a `RegistrySerializable` type. Every assigned property has a set accessor, and every assigned value fits its property's type. A property whose type carries `RegistrySerializable` gets the converted result of reading the sub-key named after it; that result is `null` when the sub-key is absent, and it is still assigned. Any other property gets its converted value, or keeps its default when the value is absent. |
| SectionLaws.WritePropertyFrame | RegistrySection.cs:148-165 | Writing one property records it as `WrittenAs` says and leaves every slot of another name unchanged. |
| SectionLaws.WriteFromFields | RegistrySection.cs:146-166 | After a successful write, every property is recorded as `WrittenAs` says. `WrittenAs` means: a plain property becomes a value; a non-null sub-section becomes its sub-key, written recursively; a null sub-section is skipped. Every slot not named after a property is unchanged. |
| SectionLaws.UpdateRejects | RegistrySection.cs:132-142 | A null value fails with `ArgumentNullException` and a value of another run-time type with `ArgumentException`. In both cases the parent key is unchanged and the sub-key is not created. |
| SectionLaws.UpdateFields | RegistrySection.cs:144-166 | A successful `Update` changes only the sub-key `sectionName` of the parent. That sub-key holds the properties as `WrittenAs` says and is otherwise unchanged. |
| SectionLaws.FitsWritePasses | RegistrySection.cs:146-166 | Writing an instance that fits the schema (every property has a get accessor, every plain property is a non-null string or integer of exactly its type, every non-null sub-section fits) never fails. |
| SectionLaws.RoundTripNode | RegistrySection.cs:99-166 | Writing a fitting instance (every property with a get accessor, every plain property a non-null string or integer of exactly its type, every sub-section null or fitting) into an empty key and reading it back gives an instance that agrees with it field by field. |
| SectionLaws.RoundTrip | RegistrySection.cs:130-169 | The round trip holds for an instance that fits the schema (every plain property a non-null string or integer of exactly its type, every sub-section null or fitting) when the section's sub-key does not exist yet, every property has both accessors, and in every type only the last property can have a `RegistrySerializable` type: the write passes, and the read succeeds and agrees with the written instance. |
| SectionManagers.Kept | SectionManager.cs:68-77 | A field is kept exactly when it is one of the type's fields not marked `NonSerialized`. |
| SectionManagers.KeptAppend | SectionManager.cs:70-77 | The filter keeps relative order: filtering a concatenation concatenates the filtered parts. |
| SectionManagers.NewSectionManager | SectionManager.cs:20-40 | A null type or key gives `ArgumentNullException` with the store unchanged. Otherwise the sub-key named after the type exists afterwards, even when construction throws. Construction throws `SystemException` exactly when `BuildFails`; otherwise the manager is `Built`, and the sub-keys of the manager and of all its child managers exist (`SubKeysExist`). The store is only extended, and every key it gains lies on the way to the new sub-key or below it; when the main key already exists, every new key lies below the new sub-key. Every key construction creates holds no values. |
| SectionManagers.NewSubSectionManager | SectionManager.cs:42-62 | As above, with the section named by the caller. |
| SectionManagers.GetObjectFields | SectionManager.cs:64-97 | The table lists the type's fields not marked `NonSerialized`, in order. A `RegistrySubSection` field maps to a well-formed child named after the field and rooted at this manager's sub-key; any other field maps to null. It throws `SystemException` exactly when some kept field has the section's own type, or a child's construction throws. The store is only extended, every new key lies below this manager's sub-key, and the sub-keys of every child manager in the table exist. Every key construction creates holds no values. |
| SectionManagers.GetEntry | SectionManager.cs:84-93 | One kept field becomes a child manager exactly when it is marked `RegistrySubSection`, and a null entry otherwise. The store is only extended, every new key lies below this manager's sub-key, and the child's sub-keys exist. Every key construction creates holds no values. |
| SectionManagers.ManagerWrite | SectionManager.cs:99-123 | The specification of `Update`: `null` faults with `NullReferenceException` and another run-time type gives `ArgumentException`; otherwise every entry is visited in table order, a null field skipped, a scalar field stored under its name, a sub-section handed to its child manager, stopping at the first failure. Its properties are stated by the `ManagerLaws` lemmas. |
| SectionManagers.Update | SectionManager.cs:99-126 | The loop computes exactly `ManagerWrite`: the store and the outcome are `ManagerWrite`'s. |
| SectionManagers.FirstNamed | SectionManager.cs:135 | `First` succeeds exactly when a child named `name` comes before any null entry, and returns the first child of that name. A null entry met first faults with `NullReferenceException`; no match gives `InvalidOperationException`. |
| SectionManagers.GetSubSection | SectionManager.cs:128-136 | A blank name gives `ArgumentNullException`; otherwise the result is the `First` scan over the table as written. |
| SectionManagers.FindSubSection | SectionManager.cs:128-136 | The corrected lookup. A blank name gives `ArgumentNullException`. Otherwise it succeeds exactly when some child is named `name`, returns the first child of that name in table order, and otherwise gives `InvalidOperationException`. |
| ManagerLaws.ManagerRejects | SectionManager.cs:99-104 | A null instance faults with `NullReferenceException`, and an instance of another run-time type is refused with `ArgumentException`. The store is untouched in both cases. |
| ManagerLaws.ManagerSkipsNulls | SectionManager.cs:106-113 | An instance whose listed fields are all null writes nothing and succeeds. |
| ManagerLaws.NullSubSectionUntouched | SectionManager.cs:108-113 | A null sub-section field is skipped: the values of its child manager's sub-key, and of every key below it, are unchanged, whether the write succeeds or fails. |
| ManagerLaws.ChildWritten | SectionManager.cs:115-122 | After a successful `Update`, the sub-key of the child manager of a non-null sub-section field holds every non-null scalar field of that field's value under its name. |
| ManagerLaws.SplitWrite | SectionManager.cs:106-123 | Running the table entries from `i` is running the entries `i..j-1` one after another and then, unless one of them failed, the entries from `j` on: the loop stops at the first failing child `Update` and keeps what was written before it. |
| ManagerLaws.UntouchedFrom | SectionManager.cs:106-123 | The remaining entries leave alone every key other than the manager's own sub-key that lies below none of the child managers they hand a non-null field to. |
| ManagerLaws.ChildrenApart | SectionManager.cs:88 | Two different fields of a type with distinct field names get child managers whose sub-keys are disjoint subtrees. |
| ManagerLaws.ManagerOutcome | SectionManager.cs:99-123 | `Update` succeeds exactly when the instance conforms to the manager tree. Below a non-null instance, any failure is `ArgumentException`. |
| ManagerLaws.ManagerWriteElsewhere | SectionManager.cs:115-122 | Every value outside the manager's own sub-key subtree is unchanged, whether the write succeeds or fails. |
| ManagerLaws.ManagerScalarsWritten | SectionManager.cs:115-120 | After success, every non-null scalar field is stored under its name in the manager's sub-key. Any other value slot of that sub-key is unchanged. |
| ManagerLaws.GetSubSectionFaults | SectionManager.cs:135 | A table whose first entry is a scalar field faults on every non-blank name. |
| ManagerLaws.SubSectionLookupFaults | SectionManager.cs:84-93 | Take any manager built for `Settings { Port; [RegistrySubSection] Sub }`. `GetSubSection("Sub")` faults on it, while `FindSubSection("Sub")` returns the child. |
| ManagerLaws.SettingsBuilds | SectionManager.cs:64-97 | The settings types nest without a cycle and `BuildFails` does not hold, so the constructor returns a manager rather than throwing. |
| ManagerLaws.SettingsManagerBuilt | SectionManager.cs:20-97 | The constructor returns a manager for that type (it is ranked and does not fail), and a concrete manager satisfies `Built`, so the fault is reachable. |
| RegistrySerializers.NewSerializer | RegistrySerializer.cs:9-14 | Fails with `NullReferenceException` exactly when `T` lacks `RegistrySerializable`. Otherwise the root section is named after `T` and rooted at the attribute's key. |
| RegistrySerializers.NewSerializerAt | RegistrySerializer.cs:16-26 | Fails with `ArgumentNullException` exactly when the key is null. Otherwise the root section is named after `T` and rooted at that key. |
| RegistrySerializers.Serialize | RegistrySerializer.cs:28 | Same store and outcome as the root section's `Update`, rejections included. |
| RegistrySerializers.Deserialize | RegistrySerializer.cs:30 | Returns the root section's `GetSection` result, which is `null` when the root sub-key is absent. The cast to `T` cannot fail. |
| RegistrySerializers.ReadSectionType | RegistrySerializer.cs:30 | A section reads as `null` or as an instance of exactly its bound type. |
| RegistrySerializers.SerializeDeserialize | RegistrySerializer.cs:28-30 | The round trip at the store level holds under five conditions: every property has a get and a set accessor, a property is marked `RegistrySubSection` exactly when its type carries `RegistrySerializable`, only the last property of a type can have such a type, there are no converters, and every plain property is a non-null string or integer of exactly its type. Then `Serialize` into a store without the root sub-key is accepted, and `Deserialize` returns an instance agreeing with the value field by field. |
| RegistrySerializers.Scenario | RegistrySerializer.cs:28-30 | `Settings { Port = 8080, Sub = { Name = "alpha" } }` is serialized into an empty store. `Port` lands in the key `Settings` and `Name` in its sub-key `Sub`. Reading back gives exactly the same instance. |

## Left out

- Real registry I/O is left out: hives, views, value kinds and case-insensitive names. The store is an in-memory tree.
- `SetValue`'s own argument checks are left out, such as a null scalar at RegistrySection.cs:165: a null plain property is stored as a `null` value.
- RegistryStore.Registry.SetValue: stores the model's `Value` itself. `RegistryKey.SetValue(name, object)` stores an `Int32` as a DWORD, a string as a string value, and any other object as the string its `ToString()` returns; registry value kinds are not modelled. For a plain property or scalar field that holds an object, SectionLaws.WriteFromFields and ManagerLaws.ManagerScalarsWritten therefore state that the object is stored where the source stores that string. For this reason the round trip (`SectionLaws.Fits`) admits only strings and integers as plain property values: an object stored as a string would fail the assignment when read back.
- `Flush`, `Close` and `Dispose` change no data and are left out as operations: the `Flush` at SectionManager.cs:125, the `Dispose` at RegistrySection.cs:168, the `using` at RegistrySection.cs:92, and SectionManager.cs:138-142. The one closed handle the core uses again, the key closed by the `using` at RegistrySection.cs:108 through RegistrySection.cs:171-174, is modelled by `ClosedAt` and `ObjectDisposedException`; other handle lifetimes, such as a caller's key closed by disposing a serializer's section, are not.
- The mechanics of reflection are left out: the order of `GetProperties`/`GetFields`, `IsDefined`, `Activator.CreateInstance` and `ConstructorInfo.Invoke`. They are given by `Reflection.Metadata`. A constructor invoked by a converter is a total function, so exceptions it might throw are not modelled.
- SectionManagers.NewSectionManager: requires an acyclic schema of sub-section field types (`Ranked`). A longer cycle overflows the stack in the source, and that failure is not modelled. `Ranked` ranges over every type of the metadata, not only those reachable from the section type, and it also excludes some schemas the source builds: for `A { A Self; [RegistrySubSection] B b }` and `B { [RegistrySubSection] A a }`, the source throws `SystemException` at `A.Self` before it recurses, but the model has no rank for the pair.
- The null-type check of `new RegistrySection(type)` is modelled through an `Option` argument. The null checks of the private constructors (SectionManager.cs:44-52) are not modelled, because their arguments are never null where they are called. The same holds for the null checks of `RegistrySection`'s nested constructor.
- `RegistrySerializer<T>`'s generic parameter is not modelled as a type parameter. `T` is the type the root section is bound to, and `Serialize` accepts any value, as the run-time type check does.
- Object graphs that share an instance or contain a cycle cannot be expressed: `Value` is an inductive tree, so every field holds its own copy. `RegistrySection.Update` on a self-referential instance recurses without end in the source, and that is not modelled.
- Values.AssignableTo: a value fits a property only when it is `null` or of exactly the property's type. The conversions `PropertyInfo.SetValue` also accepts are not modelled: subtyping, primitive widening (an `Int32` read into a `long` or `double` property), an enum from its underlying integer, and a boxed value into `Nullable<T>`. In those cases the model gives `ArgumentException` where the source succeeds. A `null` assigned to a value-type property, which .NET turns into that type's default, is assigned as `null`.
- SectionManagers.GetSubSection: the name is a non-null string. A null name behaves as a blank one, and that case is not modelled separately.
- SectionManagers.IsBlank: covers the ASCII white-space characters only, not every Unicode white-space character that `string.IsNullOrWhiteSpace` recognises.
- Exception messages are not modelled; only the exception kind is.
- The attribute classes (`RegistrySerializableAttribute`, `RegistrySubSectionAttribute`, `RegistryNonSerializedAttribute`, `RegistryPropertyConvertAttribute`) appear only as fields of `Property`, `Field` and `TypeInfo`.
  - Opening a hive in the `RegistrySerializable` constructor is I/O. Its two-argument form also throws `ArgumentNullException` on a blank sub-path and opens or creates that sub-path key under the hive (Attributes/RegistrySerializableAttribute.cs:12-23); the model takes the resulting key as given, as `TypeInfo.rootSection`.
  - `RegistryFieldConvertAttribute` is not used by the core.
- `Dictionary` iteration order in `SectionManager` is taken to be insertion order, that is, the type's field order.

## Findings

| source | as written | input that shows it | evidently intended | confidence | as-written member | corrected member |
|---|---|---|---|---|---|---|
| SectionManager.cs:135 | `mr_ObjectFields.Values.First(c => c.mr_SectionName == name)` dereferences every entry it meets. Scalar fields are stored with a `null` entry (SectionManager.cs:93), so the lambda faults with `NullReferenceException` on the first scalar field before a matching child. | A manager for `Settings { int Port; [RegistrySubSection] Sub Sub; }` with `GetSubSection("Sub")`: the entry for `Port` comes first and is `null`. | Return the first child manager named `name`, passing over the `null` entries of scalar fields; `InvalidOperationException` only when no child has that name. | not executed | SectionManagers.GetSubSection (fault shown by ManagerLaws.SubSectionLookupFaults) | SectionManagers.FindSubSection |
