/** `SectionManager` (SectionManager.cs): the older, field-based, write-only engine. A
    manager creates its section's sub-key and the whole tree of child managers when it is
    constructed, and `Update` then writes an instance's public fields through that tree. */
module SectionManagers {
  import opened Wrappers
  import opened Values
  import opened RegistryStore
  import opened Reflection

  /** One entry of the field table: the field and its child manager (`null` for a field
      that is not a sub-section). */
  type Entry = (Field, Option<SectionManager>)

  datatype SectionManager = SectionManager(
    objectType: TypeRef,
    sectionName: string,
    objectFields: seq<Entry>,
    mainSection: Key,
    currentSection: Key)

  // ---------------------------------------------------------------------------------------
  // The field table

  /** The fields not marked `NonSerialized`, in their original order. */
  function Kept(fields: seq<Field>): (r: seq<Field>)
    ensures forall f :: f in r <==> f in fields && !f.nonSerialized
  {
    if fields == [] then []
    else (if fields[0].nonSerialized then [] else [fields[0]]) + Kept(fields[1..])
  }

  lemma {:induction false} KeptAppend(a: seq<Field>, b: seq<Field>)
    ensures Kept(a + b) == Kept(a) + Kept(b)
    decreases |a|
  {
    if a == [] {
      assert a + b == b;
    } else {
      assert (a + b)[0] == a[0] && (a + b)[1..] == a[1..] + b;
      KeptAppend(a[1..], b);
    }
  }

  lemma KeptStep(fields: seq<Field>, i: nat)
    requires i < |fields|
    ensures Kept(fields[..i + 1]) == Kept(fields[..i]) + (if fields[i].nonSerialized then [] else [fields[i]])
  {
    KeptAppend(fields[..i], [fields[i]]);
    assert fields[..i + 1] == fields[..i] + [fields[i]];
    assert Kept([fields[i]]) == (if fields[i].nonSerialized then [] else [fields[i]]) + Kept([]);
  }

  /** The fields of a table, in order. */
  function Keys(entries: seq<Entry>): (r: seq<Field>)
    ensures |r| == |entries| && forall j :: 0 <= j < |r| ==> r[j] == entries[j].0
  {
    seq(|entries|, j requires 0 <= j < |entries| => entries[j].0)
  }

  lemma KeysAppend(entries: seq<Entry>, e: Entry)
    ensures Keys(entries + [e]) == Keys(entries) + [e.0]
  {
  }

  /** Entry `j` of `m`'s table: a field not of `m`'s own type, with a child manager exactly
      when it is marked `RegistrySubSection`; that child is bound to the field's type, named
      after the field, rooted at `m`'s own sub-key and itself well formed. */
  ghost predicate EntryOk(meta: Metadata, m: SectionManager, j: nat)
    requires j < |m.objectFields|
    decreases m, 0
  {
    var f := m.objectFields[j].0;
    var c := m.objectFields[j].1;
    && f.fieldType != m.objectType
    && (c.Some? <==> f.subSection)
    && (c.Some? ==>
          && c.value.objectType == f.fieldType && c.value.sectionName == f.name
          && c.value.mainSection == m.currentSection
          && ManagerValid(meta, c.value))
  }

  /** A manager as its constructors leave it: its own sub-key is the key `sectionName` under
      `mainSection`, and its table lists the type's kept fields in order, each as
      `EntryOk` says. */
  ghost predicate ManagerValid(meta: Metadata, m: SectionManager)
    decreases m, 2
  {
    && m.currentSection == m.mainSection + [m.sectionName]
    && Keys(m.objectFields) == Kept(FieldsOf(meta, m.objectType))
    && TableOk(meta, m)
  }

  /** Every entry of `m`'s table is as `EntryOk` says. */
  ghost predicate TableOk(meta: Metadata, m: SectionManager)
    decreases m, 1
  {
    forall j :: 0 <= j < |m.objectFields| ==> EntryOk(meta, m, j)
  }

  /** `m` is a well-formed manager for `t`, named `name`, rooted at `main`. */
  ghost predicate Built(meta: Metadata, m: SectionManager, t: TypeRef, name: string, main: Key)
  {
    ManagerValid(meta, m) && m.objectType == t && m.sectionName == name && m.mainSection == main
  }

  // ---------------------------------------------------------------------------------------
  // The keys construction creates

  /** The sub-keys of `m` and of all its child managers, recursively, exist in `root`. */
  ghost predicate SubKeysExist(root: Node, m: SectionManager)
    decreases m
  {
    && Exists(root, m.currentSection)
    && forall j :: 0 <= j < |m.objectFields| && m.objectFields[j].1.Some? ==>
         SubKeysExist(root, m.objectFields[j].1.value)
  }

  /** The sub-keys of every child manager of a table exist in `root`. */
  ghost predicate ChildKeysExist(root: Node, entries: seq<Entry>)
  {
    forall j :: 0 <= j < |entries| && entries[j].1.Some? ==> SubKeysExist(root, entries[j].1.value)
  }

  /** Every key of `b` that `a` lacks lies in the subtree of `p`. */
  ghost predicate NewKeysUnder(a: Node, b: Node, p: Key)
  {
    forall q :: Exists(b, q) && !Exists(a, q) ==> IsPrefix(p, q)
  }

  /** Every key of `b` that `a` lacks lies on the way to `p` or in its subtree. */
  ghost predicate NewKeysAlong(a: Node, b: Node, p: Key)
  {
    forall q :: Exists(b, q) && !Exists(a, q) ==> IsPrefix(q, p) || IsPrefix(p, q)
  }

  /** `b` is `a` with keys added, all of them empty and inside the subtree of `p`. */
  ghost predicate Grown(a: Node, b: Node, p: Key)
  {
    Extends(a, b) && NewKeysUnder(a, b, p) && NewKeysEmpty(a, b)
  }

  /** One more construction step keeps the store grown from where it started, and keeps the
      sub-keys of the entries built so far. */
  lemma GrownStep(a: Node, b: Node, c: Node, p: Key, entries: seq<Entry>)
    requires Grown(a, b, p) && Grown(b, c, p) && ChildKeysExist(b, entries)
    ensures Grown(a, c, p) && ChildKeysExist(c, entries)
  {
    ExtendsTrans(a, b, c);
    NewKeysEmptyTrans(a, b, c);
    ExtendsChildKeys(b, c, entries);
    forall q | Exists(c, q) && !Exists(a, q)
      ensures IsPrefix(p, q)
    {
    }
  }

  lemma {:induction false} ExtendsSubKeys(a: Node, b: Node, m: SectionManager)
    requires Extends(a, b) && SubKeysExist(a, m)
    ensures SubKeysExist(b, m)
    decreases m
  {
    ExtendsExists(a, b, m.currentSection);
    forall j | 0 <= j < |m.objectFields| && m.objectFields[j].1.Some?
      ensures SubKeysExist(b, m.objectFields[j].1.value)
    {
      ExtendsSubKeys(a, b, m.objectFields[j].1.value);
    }
  }

  lemma ExtendsChildKeys(a: Node, b: Node, entries: seq<Entry>)
    requires Extends(a, b) && ChildKeysExist(a, entries)
    ensures ChildKeysExist(b, entries)
  {
    forall j | 0 <= j < |entries| && entries[j].1.Some?
      ensures SubKeysExist(b, entries[j].1.value)
    {
      ExtendsSubKeys(a, b, entries[j].1.value);
    }
  }

  /** When `p` already exists, the keys created on the way to `p + [n]` or below it all lie
      in the subtree of `p + [n]`. */
  lemma AlongToUnder(a: Node, b: Node, p: Key, n: string)
    requires NewKeysAlong(a, b, p + [n]) && Exists(a, p)
    ensures NewKeysUnder(a, b, p + [n])
  {
    forall q | Exists(b, q) && !Exists(a, q)
      ensures IsPrefix(p + [n], q)
    {
      if IsPrefix(q, p + [n]) && |q| <= |p| {
        assert IsPrefix(q, p);
        ExistsPrefix(a, p, q);
      }
    }
  }

  lemma UnderWiden(a: Node, b: Node, p: Key, n: string)
    requires NewKeysUnder(a, b, p + [n])
    ensures NewKeysUnder(a, b, p)
  {
    forall q | Exists(b, q) && !Exists(a, q)
      ensures IsPrefix(p, q)
    {
      assert IsPrefix(p + [n], q);
      assert q[..|p|] == (p + [n])[..|p|];
    }
  }

  // ---------------------------------------------------------------------------------------
  // Termination of construction and when it fails

  /** Field `f` of type `t` makes construction recurse: a kept sub-section of another type. */
  predicate Nests(f: Field, t: TypeRef)
  {
    !f.nonSerialized && f.subSection && f.fieldType != t
  }

  function RankOf(rank: map<TypeRef, nat>, t: TypeRef): nat
  {
    if t in rank then rank[t] else 0
  }

  /** `rank` decreases along every nesting: the types form no cycle of sub-sections. Only a
      direct self-reference is detected by the constructor; a longer cycle would recurse
      without end. */
  ghost predicate Ranked(meta: Metadata, rank: map<TypeRef, nat>)
  {
    forall t, j :: 0 <= j < |FieldsOf(meta, t)| && Nests(FieldsOf(meta, t)[j], t) ==>
      RankOf(rank, FieldsOf(meta, t)[j].fieldType) < RankOf(rank, t)
  }

  /** Field `j` of `t` makes the construction of a manager for `t` throw: a kept field of
      `t`'s own type, or a kept sub-section whose own construction throws. */
  ghost predicate FailsAt(meta: Metadata, rank: map<TypeRef, nat>, t: TypeRef, j: nat)
    requires Ranked(meta, rank) && j < |FieldsOf(meta, t)|
    decreases RankOf(rank, t), 0
  {
    var f := FieldsOf(meta, t)[j];
    !f.nonSerialized && (f.fieldType == t || (f.subSection && BuildFails(meta, rank, f.fieldType)))
  }

  ghost predicate NoFailureBefore(meta: Metadata, rank: map<TypeRef, nat>, t: TypeRef, i: nat)
    requires Ranked(meta, rank) && i <= |FieldsOf(meta, t)|
  {
    forall j :: 0 <= j < i ==> !FailsAt(meta, rank, t, j)
  }

  ghost predicate BuildFails(meta: Metadata, rank: map<TypeRef, nat>, t: TypeRef)
    requires Ranked(meta, rank)
    decreases RankOf(rank, t), 1
  {
    exists j :: 0 <= j < |FieldsOf(meta, t)| && FailsAt(meta, rank, t, j)
  }

  // ---------------------------------------------------------------------------------------
  // Construction

  /** One iteration of `GetObjectFields` for a kept field `f` not of type `t`: a child
      manager for a `RegistrySubSection` field, a null entry for any other. */
  method GetEntry(meta: Metadata, ghost rank: map<TypeRef, nat>, reg: Registry,
                  t: TypeRef, f: Field, currentSection: Key)
    returns (r: Result<Entry>)
    requires Ranked(meta, rank) && f in FieldsOf(meta, t) && !f.nonSerialized && f.fieldType != t
    requires Exists(reg.root, currentSection)
    modifies reg
    ensures Extends(old(reg.root), reg.root)
    ensures NewKeysUnder(old(reg.root), reg.root, currentSection)
    ensures NewKeysEmpty(old(reg.root), reg.root)
    ensures r.Ok? && r.value.1.Some? ==> SubKeysExist(reg.root, r.value.1.value)
    ensures r.Err? <==> f.subSection && BuildFails(meta, rank, f.fieldType)
    ensures r.Err? ==> r.error == System
    ensures r.Ok? ==> r.value.0 == f && (r.value.1.Some? <==> f.subSection)
    ensures r.Ok? && r.value.1.Some? ==> Built(meta, r.value.1.value, f.fieldType, f.name, currentSection)
    decreases RankOf(rank, t), 0
  {
    if f.subSection {
      ghost var root0 := reg.root;
      var child := NewSubSectionManager(meta, rank, reg, f.name, f.fieldType, currentSection);
      AlongToUnder(root0, reg.root, currentSection, f.name);
      UnderWiden(root0, reg.root, currentSection, f.name);
      match child
      case Err(e) => r := Err(e);
      case Ok(c) => r := Ok((f, Some(c)));
    } else {
      ExtendsRefl(reg.root);
      NewKeysEmptyRefl(reg.root);
      r := Ok((f, None));
    }
  }

  lemma NoFailureStep(meta: Metadata, rank: map<TypeRef, nat>, t: TypeRef, i: nat)
    requires Ranked(meta, rank) && i < |FieldsOf(meta, t)|
    requires NoFailureBefore(meta, rank, t, i) && !FailsAt(meta, rank, t, i)
    ensures NoFailureBefore(meta, rank, t, i + 1)
  {
  }

  /** Construction succeeds when no field makes it throw. */
  lemma NoFailure(meta: Metadata, rank: map<TypeRef, nat>, t: TypeRef)
    requires Ranked(meta, rank)
    requires NoFailureBefore(meta, rank, t, |FieldsOf(meta, t)|)
    ensures !BuildFails(meta, rank, t)
  {
  }

  /** Appending a well-formed entry keeps a partial table well formed. */
  lemma AppendEntry(meta: Metadata, t: TypeRef, name: string, main: Key, cur: Key, entries: seq<Entry>, e: Entry)
    requires TableOk(meta, SectionManager(t, name, entries, main, cur))
    requires e.0.fieldType != t && (e.1.Some? <==> e.0.subSection)
    requires e.1.Some? ==> Built(meta, e.1.value, e.0.fieldType, e.0.name, cur)
    ensures TableOk(meta, SectionManager(t, name, entries + [e], main, cur))
  {
    var m0 := SectionManager(t, name, entries, main, cur);
    var m1 := SectionManager(t, name, entries + [e], main, cur);
    forall j | 0 <= j < |entries| + 1
      ensures EntryOk(meta, m1, j)
    {
      if j < |entries| {
        assert EntryOk(meta, m0, j);
        assert m1.objectFields[j] == m0.objectFields[j];
      }
    }
  }

  /** Appending the entry built for kept field `i` keeps the table well formed, its keys
      the kept fields so far, and the sub-keys of its child managers in place. */
  lemma TableStep(meta: Metadata, t: TypeRef, name: string, main: Key, cur: Key, fields: seq<Field>, i: nat,
                  entries: seq<Entry>, e: Entry, root: Node)
    requires i < |fields| && !fields[i].nonSerialized && e.0 == fields[i] && e.0.fieldType != t
    requires TableOk(meta, SectionManager(t, name, entries, main, cur)) && Keys(entries) == Kept(fields[..i])
    requires (e.1.Some? <==> e.0.subSection) && (e.1.Some? ==> Built(meta, e.1.value, e.0.fieldType, e.0.name, cur))
    requires ChildKeysExist(root, entries) && (e.1.Some? ==> SubKeysExist(root, e.1.value))
    ensures TableOk(meta, SectionManager(t, name, entries + [e], main, cur))
    ensures Keys(entries + [e]) == Kept(fields[..i + 1])
    ensures ChildKeysExist(root, entries + [e])
  {
    KeptStep(fields, i);
    AppendEntry(meta, t, name, main, cur, entries, e);
    KeysAppend(entries, e);
    assert ChildKeysExist(root, entries + [e]) by {
      forall j | 0 <= j < |entries + [e]| && (entries + [e])[j].1.Some?
        ensures SubKeysExist(root, (entries + [e])[j].1.value)
      {
        if j < |entries| {
          assert (entries + [e])[j] == entries[j];
        }
      }
    }
  }

  /** `new SectionManager(sectionType, mainSection)`: rejects a null type or key, then
      creates the sub-key named after the type and builds the field table. */
  method NewSectionManager(meta: Metadata, ghost rank: map<TypeRef, nat>, reg: Registry,
                           sectionType: Option<TypeRef>, mainSection: Option<Key>)
    returns (r: Result<SectionManager>)
    requires Ranked(meta, rank)
    modifies reg
    ensures Extends(old(reg.root), reg.root)
    ensures sectionType.None? || mainSection.None? ==> r == Err(ArgumentNull) && reg.root == old(reg.root)
    ensures sectionType.Some? && mainSection.Some? ==>
      && Exists(reg.root, mainSection.value + [sectionType.value.name])
      && (r.Err? <==> BuildFails(meta, rank, sectionType.value))
      && (r.Err? ==> r.error == System)
      && (r.Ok? ==> Built(meta, r.value, sectionType.value, sectionType.value.name, mainSection.value))
      && (r.Ok? ==> SubKeysExist(reg.root, r.value))
      && NewKeysAlong(old(reg.root), reg.root, mainSection.value + [sectionType.value.name])
      && NewKeysEmpty(old(reg.root), reg.root)
      && (Exists(old(reg.root), mainSection.value) ==>
            NewKeysUnder(old(reg.root), reg.root, mainSection.value + [sectionType.value.name]))
  {
    if sectionType.None? || mainSection.None? {
      ExtendsRefl(reg.root);
      NewKeysEmptyRefl(reg.root);
      return Err(ArgumentNull);
    }
    r := NewSubSectionManager(meta, rank, reg, sectionType.value.name, sectionType.value, mainSection.value);
  }

  /** The private `new SectionManager(sectionName, sectionType, mainSection)`: the same with
      an explicit name (its arguments are never null where it is called). */
  method NewSubSectionManager(meta: Metadata, ghost rank: map<TypeRef, nat>, reg: Registry,
                              sectionName: string, sectionType: TypeRef, mainSection: Key)
    returns (r: Result<SectionManager>)
    requires Ranked(meta, rank)
    modifies reg
    ensures Extends(old(reg.root), reg.root)
    ensures Exists(reg.root, mainSection + [sectionName])
    ensures r.Err? <==> BuildFails(meta, rank, sectionType)
    ensures r.Err? ==> r.error == System
    ensures r.Ok? ==> Built(meta, r.value, sectionType, sectionName, mainSection)
    ensures r.Ok? ==> SubKeysExist(reg.root, r.value)
    ensures NewKeysAlong(old(reg.root), reg.root, mainSection + [sectionName])
    ensures NewKeysEmpty(old(reg.root), reg.root)
    ensures Exists(old(reg.root), mainSection) ==> NewKeysUnder(old(reg.root), reg.root, mainSection + [sectionName])
    decreases RankOf(rank, sectionType), 2
  {
    ghost var root0 := reg.root;
    var currentSection := reg.CreateSubKey(mainSection, sectionName);
    ghost var root1 := reg.root;
    var fields := GetObjectFields(meta, rank, reg, sectionType, sectionName, mainSection, currentSection);
    ExtendsTrans(root0, root1, reg.root);
    NewKeysEmptyTrans(root0, root1, reg.root);
    ExtendsExists(root1, reg.root, currentSection);
    if Exists(root0, mainSection) {
      AlongToUnder(root0, reg.root, mainSection, sectionName);
    }
    match fields
    case Err(e) => r := Err(e);
    case Ok(entries) => r := Ok(SectionManager(sectionType, sectionName, entries, mainSection, currentSection));
  }

  /** `GetObjectFields()`: walks the type's fields in order, skipping `NonSerialized` ones,
      throwing `SystemException` on a field of the section's own type, building a child
      manager for each `RegistrySubSection` field and a null entry for every other. */
  method GetObjectFields(meta: Metadata, ghost rank: map<TypeRef, nat>, reg: Registry,
                         t: TypeRef, ghost name: string, ghost main: Key, currentSection: Key)
    returns (r: Result<seq<Entry>>)
    requires Ranked(meta, rank) && currentSection == main + [name]
    requires Exists(reg.root, currentSection)
    modifies reg
    ensures Extends(old(reg.root), reg.root)
    ensures NewKeysUnder(old(reg.root), reg.root, currentSection)
    ensures NewKeysEmpty(old(reg.root), reg.root)
    ensures r.Ok? ==> ChildKeysExist(reg.root, r.value)
    ensures r.Err? <==> BuildFails(meta, rank, t)
    ensures r.Err? ==> r.error == System
    ensures r.Ok? ==> ManagerValid(meta, SectionManager(t, name, r.value, main, currentSection))
    decreases RankOf(rank, t), 1
  {
    ExtendsRefl(reg.root);
    NewKeysEmptyRefl(reg.root);
    var fields := FieldsOf(meta, t);
    var currentFields: seq<Entry> := [];
    var i := 0;
    while i < |fields|
      invariant i <= |fields|
      invariant Grown(old(reg.root), reg.root, currentSection)
      invariant ChildKeysExist(reg.root, currentFields)
      invariant Keys(currentFields) == Kept(fields[..i])
      invariant TableOk(meta, SectionManager(t, name, currentFields, main, currentSection))
      invariant NoFailureBefore(meta, rank, t, i)
    {
      var f := fields[i];
      if f.nonSerialized {
        KeptStep(fields, i);
        NoFailureStep(meta, rank, t, i);
        i := i + 1;
        continue;
      }
      if f.fieldType == t {
        assert FailsAt(meta, rank, t, i);
        return Err(System);
      }
      ghost var before := reg.root;
      ExtendsExists(old(reg.root), before, currentSection);
      var built := GetEntry(meta, rank, reg, t, f, currentSection);
      GrownStep(old(reg.root), before, reg.root, currentSection, currentFields);
      if built.Err? {
        assert FailsAt(meta, rank, t, i);
        return Err(built.error);
      }
      var entry := built.value;
      NoFailureStep(meta, rank, t, i);
      TableStep(meta, t, name, main, currentSection, fields, i, currentFields, entry, reg.root);
      currentFields := currentFields + [entry];
      i := i + 1;
    }
    assert fields[..i] == fields;
    NoFailure(meta, rank, t);
    r := Ok(currentFields);
  }

  // ---------------------------------------------------------------------------------------
  // Write path: what `Update` computes

  /** The store after a write, and how the write ended. */
  datatype Stored = Stored(root: Node, outcome: Outcome)

  /** `Update(value)` on the whole store: `value.GetType()` on `null` throws
      `NullReferenceException`; a value of another run-time type is refused. */
  function ManagerWrite(m: SectionManager, root: Node, v: Value): Stored
    decreases v, 1
  {
    if v == Null then Stored(root, Fail(NullReference))
    else if TypeOf(v) != m.objectType then Stored(root, Fail(Argument))
    else ManagerWriteFrom(m, 0, root, v)
  }

  /** Writes the table entries `i..` of `m`: a null field is skipped; a field without a child
      manager is written under its name into `m`'s sub-key; a sub-section is handed to its
      child manager. */
  function ManagerWriteFrom(m: SectionManager, i: nat, root: Node, v: Value): Stored
    requires i <= |m.objectFields|
    decreases v, 0, |m.objectFields| - i
  {
    if i == |m.objectFields| then Stored(root, Pass)
    else
      var f := m.objectFields[i].0;
      var c := m.objectFields[i].1;
      var fv := FieldOf(v, f.name);
      if fv == Null then ManagerWriteFrom(m, i + 1, root, v)
      else if c.None? then ManagerWriteFrom(m, i + 1, SetValueAt(root, m.currentSection, f.name, fv), v)
      else
        var w := ManagerWrite(c.value, root, fv);
        if w.outcome.Fail? then w else ManagerWriteFrom(m, i + 1, w.root, v)
  }

  /** `Update(value)`: checks the run-time type, writes every non-null field through the
      table, then flushes the section's sub-key (a flush changes no data). */
  method Update(m: SectionManager, reg: Registry, value: Value) returns (outcome: Outcome)
    modifies reg
    ensures reg.root == ManagerWrite(m, old(reg.root), value).root
    ensures outcome == ManagerWrite(m, old(reg.root), value).outcome
    decreases value
  {
    if value == Null {
      return Fail(NullReference);
    }
    if TypeOf(value) != m.objectType {
      return Fail(Argument);
    }
    var i := 0;
    while i < |m.objectFields|
      invariant i <= |m.objectFields|
      invariant ManagerWriteFrom(m, 0, old(reg.root), value) == ManagerWriteFrom(m, i, reg.root, value)
    {
      var currentField := m.objectFields[i].0;
      var currentManager := m.objectFields[i].1;
      var fieldValue := FieldOf(value, currentField.name);
      if fieldValue == Null {
        i := i + 1;
        continue;
      }
      if currentManager.None? {
        reg.SetValue(m.currentSection, currentField.name, fieldValue);
        i := i + 1;
        continue;
      }
      var o := Update(currentManager.value, reg, fieldValue);
      if o.Fail? {
        return o;
      }
      i := i + 1;
    }
    outcome := Pass;
  }

  // ---------------------------------------------------------------------------------------
  // Sub-section lookup

  predicate IsWhiteSpace(c: char)
  {
    c == ' ' || c == '\t' || c == '\n' || c == '\r' || c == '\U{000B}' || c == '\U{000C}'
  }

  /** `string.IsNullOrWhiteSpace` for a non-null string. */
  predicate IsBlank(s: string)
  {
    forall k :: 0 <= k < |s| ==> IsWhiteSpace(s[k])
  }

  /** Entry `j` holds a child manager named `name`. */
  predicate Holds(entries: seq<Entry>, j: nat, name: string)
    requires j < |entries|
  {
    entries[j].1.Some? && entries[j].1.value.sectionName == name
  }

  /** `entries.Values.First(c => c.mr_SectionName == name)` from index `i` on: the predicate
      dereferences each entry in turn, so a null entry met before a match throws
      `NullReferenceException`; no match throws `InvalidOperationException`. */
  function FirstNamed(entries: seq<Entry>, i: nat, name: string): (r: Result<SectionManager>)
    requires i <= |entries|
    ensures r.Ok? <==> (exists j :: i <= j < |entries| && Holds(entries, j, name)
                                 && forall k :: i <= k < j ==> entries[k].1.Some?)
    ensures r.Ok? ==> r.value.sectionName == name && (exists j :: i <= j < |entries| && entries[j].1 == Some(r.value)
                                                        && forall k :: i <= k < j ==> !Holds(entries, k, name))
    ensures r.Err? ==> r.error == (if exists j :: i <= j < |entries| && entries[j].1.None? && forall k :: i <= k < j ==> !Holds(entries, k, name)
                                   then NullReference else InvalidOperation)
    decreases |entries| - i
  {
    if i == |entries| then Err(InvalidOperation)
    else if entries[i].1.None? then Err(NullReference)
    else if entries[i].1.value.sectionName == name then assert Holds(entries, i, name); Ok(entries[i].1.value)
    else FirstNamed(entries, i + 1, name)
  }

  /** `GetSubSection(name)` as written: rejects a blank name, then the first-match scan. */
  function GetSubSection(m: SectionManager, subSectionName: string): (r: Result<SectionManager>)
    ensures IsBlank(subSectionName) ==> r == Err(ArgumentNull)
    ensures !IsBlank(subSectionName) ==> r == FirstNamed(m.objectFields, 0, subSectionName)
  {
    if IsBlank(subSectionName) then Err(ArgumentNull) else FirstNamed(m.objectFields, 0, subSectionName)
  }

  /** The first child manager named `name` from index `i` on, passing over null entries. */
  function FirstChildNamed(entries: seq<Entry>, i: nat, name: string): (r: Option<SectionManager>)
    requires i <= |entries|
    ensures r.Some? <==> exists j :: i <= j < |entries| && Holds(entries, j, name)
    ensures r.Some? ==> r.value.sectionName == name && (exists j :: i <= j < |entries| && entries[j].1 == Some(r.value)
                                                          && forall k :: i <= k < j ==> !Holds(entries, k, name))
    decreases |entries| - i
  {
    if i == |entries| then None
    else if Holds(entries, i, name) then Some(entries[i].1.value)
    else FirstChildNamed(entries, i + 1, name)
  }

  /** `GetSubSection(name)` as evidently intended: the first child manager named `name`,
      whatever null entries the scalar fields left in the table. */
  function FindSubSection(m: SectionManager, subSectionName: string): (r: Result<SectionManager>)
    ensures IsBlank(subSectionName) ==> r == Err(ArgumentNull)
    ensures !IsBlank(subSectionName) ==>
      (r.Ok? <==> exists j :: 0 <= j < |m.objectFields| && Holds(m.objectFields, j, subSectionName))
    ensures !IsBlank(subSectionName) && r.Err? ==> r.error == InvalidOperation
    ensures r.Ok? ==> r.value.sectionName == subSectionName
    ensures r.Ok? ==> exists j :: 0 <= j < |m.objectFields| && m.objectFields[j].1 == Some(r.value)
                                && forall k :: 0 <= k < j ==> !Holds(m.objectFields, k, subSectionName)
  {
    if IsBlank(subSectionName) then Err(ArgumentNull)
    else match FirstChildNamed(m.objectFields, 0, subSectionName)
      case None => Err(InvalidOperation)
      case Some(c) => Ok(c)
  }
}
