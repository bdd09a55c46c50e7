/** What a `SectionManager` write promises, proved about `ManagerWrite`, and the fault of
    `GetSubSection` on a table that holds scalar fields. */
module ManagerLaws {
  import opened Wrappers
  import opened Values
  import opened RegistryStore
  import opened Reflection
  import opened SectionManagers

  // ---------------------------------------------------------------------------------------
  // Rejections and skipped fields

  /** A `null` instance faults and an instance of another run-time type is refused; neither
      touches the store. */
  lemma ManagerRejects(m: SectionManager, root: Node, v: Value)
    ensures v == Null ==> ManagerWrite(m, root, v) == Stored(root, Fail(NullReference))
    ensures v != Null && TypeOf(v) != m.objectType ==> ManagerWrite(m, root, v) == Stored(root, Fail(Argument))
  {
  }

  lemma {:induction false} SkipsNullsFrom(m: SectionManager, i: nat, root: Node, v: Value)
    requires i <= |m.objectFields|
    requires forall j :: i <= j < |m.objectFields| ==> FieldOf(v, m.objectFields[j].0.name) == Null
    ensures ManagerWriteFrom(m, i, root, v) == Stored(root, Pass)
    decreases |m.objectFields| - i
  {
    if i < |m.objectFields| {
      SkipsNullsFrom(m, i + 1, root, v);
    }
  }

  /** An instance of the bound type whose every listed field is `null` writes nothing and
      succeeds. */
  lemma ManagerSkipsNulls(m: SectionManager, root: Node, v: Value)
    requires v != Null && TypeOf(v) == m.objectType
    requires forall j :: 0 <= j < |m.objectFields| ==> FieldOf(v, m.objectFields[j].0.name) == Null
    ensures ManagerWrite(m, root, v) == Stored(root, Pass)
  {
    SkipsNullsFrom(m, 0, root, v);
  }

  // ---------------------------------------------------------------------------------------
  // When a write succeeds

  /** `v` fits the manager tree of `m`: it is an instance of `m`'s type, and every non-null
      field that has a child manager fits that child. */
  predicate Conforms(m: SectionManager, v: Value)
    decreases v
  {
    v != Null && TypeOf(v) == m.objectType &&
    forall j :: 0 <= j < |m.objectFields| && FieldOf(v, m.objectFields[j].0.name) != Null && m.objectFields[j].1.Some? ==>
      Conforms(m.objectFields[j].1.value, FieldOf(v, m.objectFields[j].0.name))
  }

  /** Entry `j` of `m` accepts its field of `v`. */
  predicate ConformsAt(m: SectionManager, j: nat, v: Value)
    requires j < |m.objectFields|
  {
    var fv := FieldOf(v, m.objectFields[j].0.name);
    fv != Null && m.objectFields[j].1.Some? ==> Conforms(m.objectFields[j].1.value, fv)
  }

  lemma {:induction false} PassesIff(m: SectionManager, root: Node, v: Value)
    ensures ManagerWrite(m, root, v).outcome == Pass <==> Conforms(m, v)
    decreases v, 1
  {
    if v != Null && TypeOf(v) == m.objectType {
      PassesFromIff(m, 0, root, v);
      assert ManagerWrite(m, root, v) == ManagerWriteFrom(m, 0, root, v);
      if forall j :: 0 <= j < |m.objectFields| ==> ConformsAt(m, j, v) {
        forall j | 0 <= j < |m.objectFields| && FieldOf(v, m.objectFields[j].0.name) != Null && m.objectFields[j].1.Some?
          ensures Conforms(m.objectFields[j].1.value, FieldOf(v, m.objectFields[j].0.name))
        {
          assert ConformsAt(m, j, v);
        }
      }
    }
  }

  lemma {:induction false} PassesFromIff(m: SectionManager, i: nat, root: Node, v: Value)
    requires i <= |m.objectFields|
    ensures ManagerWriteFrom(m, i, root, v).outcome == Pass
            <==> forall j :: i <= j < |m.objectFields| ==> ConformsAt(m, j, v)
    decreases v, 0, |m.objectFields| - i
  {
    if i < |m.objectFields| {
      var f := m.objectFields[i].0;
      var c := m.objectFields[i].1;
      var fv := FieldOf(v, f.name);
      if fv == Null {
        PassesFromIff(m, i + 1, root, v);
      } else if c.None? {
        PassesFromIff(m, i + 1, SetValueAt(root, m.currentSection, f.name, fv), v);
      } else {
        var w := ManagerWrite(c.value, root, fv);
        PassesIff(c.value, root, fv);
        if w.outcome.Pass? {
          PassesFromIff(m, i + 1, w.root, v);
        } else {
          assert !ConformsAt(m, i, v);
        }
      }
    }
  }

  /** `Update` succeeds exactly on an instance that fits the manager tree; a nested failure
      is always a type mismatch, since `null` field values are never handed down. */
  lemma ManagerOutcome(m: SectionManager, root: Node, v: Value)
    ensures ManagerWrite(m, root, v).outcome == Pass <==> Conforms(m, v)
    ensures v != Null && ManagerWrite(m, root, v).outcome.Fail? ==> ManagerWrite(m, root, v).outcome == Fail(Argument)
  {
    PassesIff(m, root, v);
    if v != Null {
      ArgumentOnly(m, root, v);
    }
  }

  lemma {:induction false} ArgumentOnly(m: SectionManager, root: Node, v: Value)
    requires v != Null
    ensures ManagerWrite(m, root, v).outcome.Fail? ==> ManagerWrite(m, root, v).outcome == Fail(Argument)
    decreases v, 1
  {
    if TypeOf(v) == m.objectType {
      ArgumentOnlyFrom(m, 0, root, v);
    }
  }

  lemma {:induction false} ArgumentOnlyFrom(m: SectionManager, i: nat, root: Node, v: Value)
    requires i <= |m.objectFields|
    ensures ManagerWriteFrom(m, i, root, v).outcome.Fail? ==> ManagerWriteFrom(m, i, root, v).outcome == Fail(Argument)
    decreases v, 0, |m.objectFields| - i
  {
    if i < |m.objectFields| {
      var f := m.objectFields[i].0;
      var c := m.objectFields[i].1;
      var fv := FieldOf(v, f.name);
      if fv == Null {
        ArgumentOnlyFrom(m, i + 1, root, v);
      } else if c.None? {
        ArgumentOnlyFrom(m, i + 1, SetValueAt(root, m.currentSection, f.name, fv), v);
      } else {
        var w := ManagerWrite(c.value, root, fv);
        ArgumentOnly(c.value, root, fv);
        if w.outcome.Pass? {
          ArgumentOnlyFrom(m, i + 1, w.root, v);
        }
      }
    }
  }

  // ---------------------------------------------------------------------------------------
  // Where a write lands

  lemma {:induction false} WriteElsewhere(meta: Metadata, m: SectionManager, root: Node, v: Value, q: Key)
    requires ManagerValid(meta, m) && !IsPrefix(m.currentSection, q)
    ensures At(ManagerWrite(m, root, v).root, q).values == At(root, q).values
    decreases v, 2, 0
  {
    if v != Null && TypeOf(v) == m.objectType {
      WriteFromElsewhere(meta, m, 0, root, v, q);
    }
  }

  lemma {:induction false} WriteFromElsewhere(meta: Metadata, m: SectionManager, i: nat, root: Node, v: Value, q: Key)
    requires ManagerValid(meta, m) && i <= |m.objectFields| && !IsPrefix(m.currentSection, q)
    ensures At(ManagerWriteFrom(m, i, root, v).root, q).values == At(root, q).values
    decreases v, 1, |m.objectFields| - i
  {
    if i < |m.objectFields| {
      EntryStep(m, i, root, v);
      EntryElsewhere(meta, m, i, root, v, q);
      var e := EntryWrite(m, i, root, v);
      if e.outcome.Pass? {
        WriteFromElsewhere(meta, m, i + 1, e.root, v, q);
      }
    }
  }

  /** One entry of `m` leaves the values of a key outside `m`'s sub-key alone. */
  lemma {:induction false} EntryElsewhere(meta: Metadata, m: SectionManager, i: nat, root: Node, v: Value, q: Key)
    requires ManagerValid(meta, m) && i < |m.objectFields| && !IsPrefix(m.currentSection, q)
    ensures At(EntryWrite(m, i, root, v).root, q).values == At(root, q).values
    decreases v, 0, 0
  {
    var f := m.objectFields[i].0;
    var c := m.objectFields[i].1;
    var fv := FieldOf(v, f.name);
    if fv != Null {
      if c.None? {
        PutKeepsValuesElsewhere(root, m.currentSection, At(root, m.currentSection).(values := At(root, m.currentSection).values[f.name := fv]), q);
      } else {
        assert EntryOk(meta, m, i);
        var child := c.value;
        assert ManagerValid(meta, child);
        assert child.currentSection == m.currentSection + [f.name];
        assert !IsPrefix(child.currentSection, q);
        WriteElsewhere(meta, child, root, fv, q);
      }
    }
  }

  /** `Update` writes only inside the manager's own sub-key: every value outside that
      subtree is unchanged, whether the write succeeds or stops on a failure. */
  lemma ManagerWriteElsewhere(meta: Metadata, m: SectionManager, root: Node, v: Value)
    requires ManagerValid(meta, m)
    ensures forall q :: !IsPrefix(m.currentSection, q) ==>
      At(ManagerWrite(m, root, v).root, q).values == At(root, q).values
  {
    forall q | !IsPrefix(m.currentSection, q)
      ensures At(ManagerWrite(m, root, v).root, q).values == At(root, q).values
    {
      WriteElsewhere(meta, m, root, v, q);
    }
  }

  /** Entry `k` of `m` hands a non-null field of `v` to a child manager. */
  predicate Nested(m: SectionManager, k: nat, v: Value)
    requires k < |m.objectFields|
  {
    m.objectFields[k].1.Some? && FieldOf(v, m.objectFields[k].0.name) != Null
  }

  /** No entry from `i` on hands a field of `v` to a child manager whose sub-key holds `q`. */
  predicate ChildrenMiss(m: SectionManager, i: nat, v: Value, q: Key)
  {
    forall k :: i <= k < |m.objectFields| && Nested(m, k, v) ==>
      !IsPrefix(m.objectFields[k].1.value.currentSection, q)
  }

  /** The entries `i..` of `m` leave the values of key `q` alone when `q` is not `m`'s own
      sub-key and lies below none of the child managers they hand a field to. */
  lemma {:induction false} UntouchedFrom(meta: Metadata, m: SectionManager, i: nat, root: Node, v: Value, q: Key)
    requires ManagerValid(meta, m) && i <= |m.objectFields| && q != m.currentSection
    requires ChildrenMiss(m, i, v, q)
    ensures At(ManagerWriteFrom(m, i, root, v).root, q).values == At(root, q).values
    decreases |m.objectFields| - i
  {
    if i < |m.objectFields| {
      EntryStep(m, i, root, v);
      assert Nested(m, i, v) ==> !IsPrefix(m.objectFields[i].1.value.currentSection, q);
      EntryUntouched(meta, m, i, root, v, q);
      var e := EntryWrite(m, i, root, v);
      if e.outcome.Pass? {
        UntouchedFrom(meta, m, i + 1, e.root, v, q);
      }
    }
  }

  /** One entry of `m` leaves the values of key `q` alone when `q` is not `m`'s own sub-key
      and, if the entry hands its field to a child manager, lies outside that child's sub-key. */
  lemma EntryUntouched(meta: Metadata, m: SectionManager, i: nat, root: Node, v: Value, q: Key)
    requires ManagerValid(meta, m) && i < |m.objectFields| && q != m.currentSection
    requires Nested(m, i, v) ==> !IsPrefix(m.objectFields[i].1.value.currentSection, q)
    ensures At(EntryWrite(m, i, root, v).root, q).values == At(root, q).values
  {
    var f := m.objectFields[i].0;
    var c := m.objectFields[i].1;
    var fv := FieldOf(v, f.name);
    if fv != Null {
      if c.None? {
        SetValueKeeps(root, m.currentSection, f.name, fv, q);
      } else {
        assert EntryOk(meta, m, i);
        WriteElsewhere(meta, c.value, root, fv, q);
      }
    }
  }

  /** The child manager of entry `j` is rooted at `m`'s sub-key, under the field's name. */
  lemma ChildSection(meta: Metadata, m: SectionManager, j: nat)
    requires ManagerValid(meta, m) && j < |m.objectFields| && m.objectFields[j].1.Some?
    ensures m.objectFields[j].1.value.currentSection == m.currentSection + [m.objectFields[j].0.name]
  {
    assert EntryOk(meta, m, j);
    assert ManagerValid(meta, m.objectFields[j].1.value);
  }

  /** Two entries of a table with distinct field names hand their fields to child managers
      whose sub-keys lie apart: neither is a prefix of a key below the other. */
  lemma ChildrenApart(meta: Metadata, m: SectionManager, j: nat, k: nat, q: Key)
    requires ManagerValid(meta, m) && DistinctFieldNames(FieldsOf(meta, m.objectType))
    requires j < |m.objectFields| && k < |m.objectFields| && j != k
    requires m.objectFields[j].1.Some? && m.objectFields[k].1.Some?
    requires IsPrefix(m.objectFields[j].1.value.currentSection, q)
    ensures !IsPrefix(m.objectFields[k].1.value.currentSection, q)
  {
    KeptDistinct(FieldsOf(meta, m.objectType));
    ChildSection(meta, m, j);
    ChildSection(meta, m, k);
    var cur := m.currentSection;
    var nj := m.objectFields[j].0.name;
    var nk := m.objectFields[k].0.name;
    assert Keys(m.objectFields)[j] == m.objectFields[j].0 && Keys(m.objectFields)[k] == m.objectFields[k].0;
    assert nj != nk;
    assert q[..|cur| + 1] == cur + [nj];
    assert (cur + [nj])[|cur|] == nj && (cur + [nk])[|cur|] == nk;
  }

  /** A `null` sub-section field is skipped: the values of its child manager's sub-key, and
      of every key below it, are as they were, whether or not the write succeeds. */
  lemma NullSubSectionUntouched(meta: Metadata, m: SectionManager, root: Node, v: Value, j: nat)
    requires ManagerValid(meta, m) && DistinctFieldNames(FieldsOf(meta, m.objectType))
    requires j < |m.objectFields| && m.objectFields[j].1.Some?
    requires FieldOf(v, m.objectFields[j].0.name) == Null
    ensures forall q :: IsPrefix(m.objectFields[j].1.value.currentSection, q) ==>
      At(ManagerWrite(m, root, v).root, q).values == At(root, q).values
  {
    ChildSection(meta, m, j);
    forall q | IsPrefix(m.objectFields[j].1.value.currentSection, q)
      ensures At(ManagerWrite(m, root, v).root, q).values == At(root, q).values
    {
      if v != Null && TypeOf(v) == m.objectType {
        forall k | 0 <= k < |m.objectFields| && Nested(m, k, v)
          ensures !IsPrefix(m.objectFields[k].1.value.currentSection, q)
        {
          ChildrenApart(meta, m, j, k, q);
        }
        assert |q| > |m.currentSection|;
        UntouchedFrom(meta, m, 0, root, v, q);
      }
    }
  }

  /** The sub-key of `c` in `root` holds every non-null scalar field of `fv`. */
  ghost predicate ScalarsStored(c: SectionManager, fv: Value, root: Node)
  {
    forall k :: 0 <= k < |c.objectFields| && Scalar(c, k, fv) ==>
      GetValue(At(root, c.currentSection), c.objectFields[k].0.name) == FieldOf(fv, c.objectFields[k].0.name)
  }

  lemma ScalarsStoredAfter(meta: Metadata, c: SectionManager, root: Node, fv: Value)
    requires ManagerValid(meta, c) && DistinctFieldNames(FieldsOf(meta, c.objectType))
    ensures ManagerWrite(c, root, fv).outcome == Pass ==> ScalarsStored(c, fv, ManagerWrite(c, root, fv).root)
  {
    ManagerScalarsWritten(meta, c, root, fv);
  }

  lemma ScalarsStoredKept(c: SectionManager, fv: Value, a: Node, b: Node)
    requires ScalarsStored(c, fv, a) && At(a, c.currentSection).values == At(b, c.currentSection).values
    ensures ScalarsStored(c, fv, b)
  {
  }

  /** What entry `i` of `m` does on its own: nothing for a `null` field, one value for a
      scalar field, a whole child write for a sub-section field. */
  function EntryWrite(m: SectionManager, i: nat, root: Node, v: Value): Stored
    requires i < |m.objectFields|
  {
    var f := m.objectFields[i].0;
    var c := m.objectFields[i].1;
    var fv := FieldOf(v, f.name);
    if fv == Null then Stored(root, Pass)
    else if c.None? then Stored(SetValueAt(root, m.currentSection, f.name, fv), Pass)
    else ManagerWrite(c.value, root, fv)
  }

  /** The entries `i..` run entry `i` and, unless it fails, go on from its root. */
  lemma EntryStep(m: SectionManager, i: nat, root: Node, v: Value)
    requires i < |m.objectFields|
    ensures var e := EntryWrite(m, i, root, v);
      ManagerWriteFrom(m, i, root, v) == if e.outcome.Fail? then e else ManagerWriteFrom(m, i + 1, e.root, v)
  {
  }

  /** The entries `i..j-1` of `m` run one after another, stopping at the first failure. */
  function WriteBetween(m: SectionManager, i: nat, j: nat, root: Node, v: Value): Stored
    requires i <= j <= |m.objectFields|
    decreases j - i
  {
    if i == j then Stored(root, Pass)
    else
      var e := EntryWrite(m, i, root, v);
      if e.outcome.Fail? then e else WriteBetween(m, i + 1, j, e.root, v)
  }

  /** Running the entries `i..` is running `i..j-1` and then, unless that failed, `j..`. */
  lemma {:induction false} SplitWrite(m: SectionManager, i: nat, j: nat, root: Node, v: Value)
    requires i <= j <= |m.objectFields|
    ensures var p := WriteBetween(m, i, j, root, v);
      ManagerWriteFrom(m, i, root, v) == if p.outcome.Fail? then p else ManagerWriteFrom(m, j, p.root, v)
    decreases j - i
  {
    if i < j {
      EntryStep(m, i, root, v);
      var e := EntryWrite(m, i, root, v);
      if e.outcome.Pass? {
        SplitWrite(m, i + 1, j, e.root, v);
      }
    }
  }

  /** The child managers of the entries after `j` lie apart from the child manager of `j`. */
  lemma LaterChildrenApart(meta: Metadata, m: SectionManager, j: nat, v: Value)
    requires ManagerValid(meta, m) && DistinctFieldNames(FieldsOf(meta, m.objectType))
    requires j < |m.objectFields| && m.objectFields[j].1.Some?
    ensures forall k :: j + 1 <= k < |m.objectFields| && Nested(m, k, v) ==>
      !IsPrefix(m.objectFields[k].1.value.currentSection, m.objectFields[j].1.value.currentSection)
  {
    var p := m.objectFields[j].1.value.currentSection;
    assert IsPrefix(p, p);
    forall k | j + 1 <= k < |m.objectFields| && Nested(m, k, v)
      ensures !IsPrefix(m.objectFields[k].1.value.currentSection, p)
    {
      ChildrenApart(meta, m, j, k, p);
    }
  }

  lemma ChildWrittenAt(meta: Metadata, m: SectionManager, root: Node, v: Value, j: nat)
    requires ManagerValid(meta, m) && DistinctFieldNames(FieldsOf(meta, m.objectType))
    requires j < |m.objectFields| && Nested(m, j, v)
    requires DistinctFieldNames(FieldsOf(meta, m.objectFields[j].1.value.objectType))
    ensures ManagerWriteFrom(m, j, root, v).outcome == Pass ==>
      ScalarsStored(m.objectFields[j].1.value, FieldOf(v, m.objectFields[j].0.name), ManagerWriteFrom(m, j, root, v).root)
  {
    var c := m.objectFields[j].1.value;
    var fv := FieldOf(v, m.objectFields[j].0.name);
    assert EntryOk(meta, m, j);
    var w := ManagerWrite(c, root, fv);
    EntryStep(m, j, root, v);
    assert EntryWrite(m, j, root, v) == w;
    if w.outcome.Pass? {
      ScalarsStoredAfter(meta, c, root, fv);
      ChildSection(meta, m, j);
      LaterChildrenApart(meta, m, j, v);
      UntouchedFrom(meta, m, j + 1, w.root, v, c.currentSection);
      ScalarsStoredKept(c, fv, w.root, ManagerWriteFrom(m, j + 1, w.root, v).root);
    }
  }

  /** After a successful `Update`, the sub-key of the child manager of a non-null
      sub-section field holds every non-null scalar field of that field's value. */
  lemma ChildWritten(meta: Metadata, m: SectionManager, root: Node, v: Value, j: nat)
    requires ManagerValid(meta, m) && DistinctFieldNames(FieldsOf(meta, m.objectType))
    requires j < |m.objectFields| && m.objectFields[j].1.Some?
    requires DistinctFieldNames(FieldsOf(meta, m.objectFields[j].1.value.objectType))
    ensures var s := ManagerWrite(m, root, v);
      var c := m.objectFields[j].1.value;
      var fv := FieldOf(v, m.objectFields[j].0.name);
      s.outcome == Pass ==>
        forall k :: 0 <= k < |c.objectFields| && Scalar(c, k, fv) ==>
          GetValue(At(s.root, c.currentSection), c.objectFields[k].0.name) == FieldOf(fv, c.objectFields[k].0.name)
  {
    if v != Null && TypeOf(v) == m.objectType && Nested(m, j, v) {
      var p := WriteBetween(m, 0, j, root, v);
      SplitWrite(m, 0, j, root, v);
      if p.outcome.Pass? {
        ChildWrittenAt(meta, m, p.root, v, j);
      }
    }
  }

  /** Entry `j` is a scalar field whose value in `v` is not `null`: one `Update` writes. */
  predicate Scalar(m: SectionManager, j: nat, v: Value)
    requires j < |m.objectFields|
  {
    m.objectFields[j].1.None? && FieldOf(v, m.objectFields[j].0.name) != Null
  }

  /** Some written scalar entry at index `i` or later is named `n`. */
  predicate ScalarNamedFrom(m: SectionManager, i: nat, v: Value, n: string)
  {
    exists j :: i <= j < |m.objectFields| && Scalar(m, j, v) && m.objectFields[j].0.name == n
  }

  lemma NamedStep(m: SectionManager, i: nat, v: Value, n: string)
    requires i < |m.objectFields|
    ensures ScalarNamedFrom(m, i, v, n)
            <==> (Scalar(m, i, v) && m.objectFields[i].0.name == n) || ScalarNamedFrom(m, i + 1, v, n)
  {
    if ScalarNamedFrom(m, i, v, n) && !(Scalar(m, i, v) && m.objectFields[i].0.name == n) {
      var j :| i <= j < |m.objectFields| && Scalar(m, j, v) && m.objectFields[j].0.name == n;
      assert j != i;
    }
  }

  lemma NamedOnce(m: SectionManager, i: nat, v: Value)
    requires i < |m.objectFields| && DistinctFieldNames(Keys(m.objectFields))
    ensures !ScalarNamedFrom(m, i + 1, v, m.objectFields[i].0.name)
  {
    forall j | i + 1 <= j < |m.objectFields|
      ensures m.objectFields[j].0.name != m.objectFields[i].0.name
    {
      assert Keys(m.objectFields)[j] == m.objectFields[j].0;
      assert Keys(m.objectFields)[i] == m.objectFields[i].0;
    }
  }

  lemma SetValueSlot(root: Node, cur: Key, name: string, x: Value, n: string)
    ensures LookupValue(At(SetValueAt(root, cur, name, x), cur), n)
            == if n == name then Some(x) else LookupValue(At(root, cur), n)
  {
    AtPut(root, cur, At(root, cur).(values := At(root, cur).values[name := x]));
  }

  lemma {:induction false} ScalarsFrom(meta: Metadata, m: SectionManager, i: nat, root: Node, v: Value, n: string)
    requires TableOk(meta, m) && i <= |m.objectFields|
    requires DistinctFieldNames(Keys(m.objectFields))
    ensures var s := ManagerWriteFrom(m, i, root, v);
      && (ScalarNamedFrom(m, i, v, n) && s.outcome == Pass ==>
            LookupValue(At(s.root, m.currentSection), n) == Some(FieldOf(v, n)))
      && (!ScalarNamedFrom(m, i, v, n) ==>
            LookupValue(At(s.root, m.currentSection), n) == LookupValue(At(root, m.currentSection), n))
    decreases |m.objectFields| - i
  {
    if i < |m.objectFields| {
      var cur := m.currentSection;
      var f := m.objectFields[i].0;
      var c := m.objectFields[i].1;
      var fv := FieldOf(v, f.name);
      NamedStep(m, i, v, n);
      if fv == Null {
        ScalarsFrom(meta, m, i + 1, root, v, n);
      } else if c.None? {
        SetValueSlot(root, cur, f.name, fv, n);
        ScalarsFrom(meta, m, i + 1, SetValueAt(root, cur, f.name, fv), v, n);
        if n == f.name {
          NamedOnce(m, i, v);
        }
      } else {
        assert EntryOk(meta, m, i);
        var w := ManagerWrite(c.value, root, fv);
        WriteElsewhere(meta, c.value, root, fv, cur);
        if w.outcome.Pass? {
          ScalarsFrom(meta, m, i + 1, w.root, v, n);
        }
      }
    }
  }

  /** After a successful `Update`, the manager's sub-key holds every non-null scalar field
      under the field's name; whether or not it succeeds, every other value slot of that
      sub-key keeps what it held. */
  lemma ManagerScalarsWritten(meta: Metadata, m: SectionManager, root: Node, v: Value)
    requires ManagerValid(meta, m)
    requires DistinctFieldNames(FieldsOf(meta, m.objectType))
    ensures var s := ManagerWrite(m, root, v);
      && (s.outcome == Pass ==>
            forall j :: 0 <= j < |m.objectFields| && Scalar(m, j, v) ==>
              GetValue(At(s.root, m.currentSection), m.objectFields[j].0.name) == FieldOf(v, m.objectFields[j].0.name))
      && (forall n :: !ScalarNamedFrom(m, 0, v, n) ==>
            LookupValue(At(s.root, m.currentSection), n) == LookupValue(At(root, m.currentSection), n))
  {
    KeptDistinct(FieldsOf(meta, m.objectType));
    var s := ManagerWrite(m, root, v);
    if v != Null && TypeOf(v) == m.objectType {
      forall j | 0 <= j < |m.objectFields| && Scalar(m, j, v) && s.outcome == Pass
        ensures GetValue(At(s.root, m.currentSection), m.objectFields[j].0.name) == FieldOf(v, m.objectFields[j].0.name)
      {
        var n := m.objectFields[j].0.name;
        assert ScalarNamedFrom(m, 0, v, n);
        ScalarsFrom(meta, m, 0, root, v, n);
      }
      forall n | !ScalarNamedFrom(m, 0, v, n)
        ensures LookupValue(At(s.root, m.currentSection), n) == LookupValue(At(root, m.currentSection), n)
      {
        ScalarsFrom(meta, m, 0, root, v, n);
      }
    }
  }

  lemma {:induction false} KeptDistinct(fields: seq<Field>)
    requires DistinctFieldNames(fields)
    ensures DistinctFieldNames(Kept(fields))
    decreases |fields|
  {
    if fields != [] {
      var tail := fields[1..];
      assert DistinctFieldNames(tail) by {
        forall j, k | 0 <= j < k < |tail|
          ensures tail[j].name != tail[k].name
        {
          assert tail[j] == fields[j + 1] && tail[k] == fields[k + 1];
        }
      }
      KeptDistinct(tail);
      var kt := Kept(tail);
      forall g | g in kt
        ensures g.name != fields[0].name
      {
        var k :| 0 <= k < |tail| && tail[k] == g;
        assert fields[k + 1] == g;
      }
    }
  }

  // ---------------------------------------------------------------------------------------
  // The sub-section lookup

  /** As written, `GetSubSection` faults whenever the table starts with a scalar field,
      whatever name is asked for. */
  lemma GetSubSectionFaults(m: SectionManager, name: string)
    requires |m.objectFields| > 0 && m.objectFields[0].1.None? && !IsBlank(name)
    ensures GetSubSection(m, name) == Err(NullReference)
  {
  }

  /** A settings type with a scalar field `Port` followed by a sub-section field `Sub`. */
  const SettingsType := TypeRef("App", "Settings")
  const SubType := TypeRef("App", "Sub")
  const PortField := Field("Port", Int32Type, false, false)
  const SubField := Field("Sub", SubType, false, true)

  function SettingsMeta(): Metadata
  {
    Metadata(map[SettingsType := TypeInfo(None, [], [PortField, SubField], map[]),
                 SubType := TypeInfo(None, [], [], map[])],
             {}, (declared, seed, raw) => raw)
  }

  /** Both fields of the settings type are kept, in order. */
  lemma SettingsKept()
    ensures Kept(FieldsOf(SettingsMeta(), SettingsType)) == [PortField, SubField]
  {
    assert [PortField, SubField][1..] == [SubField];
    assert [SubField][1..] == [];
    assert Kept([SubField]) == [SubField] + Kept([]);
    assert Kept([PortField, SubField]) == [PortField] + Kept([SubField]);
  }

  /** Every manager the constructors can build for the settings type faults on
      `GetSubSection("Sub")`, although its table holds a child named `Sub`, which the
      corrected lookup returns. */
  lemma SubSectionLookupFaults(m: SectionManager, main: Key)
    requires Built(SettingsMeta(), m, SettingsType, SettingsType.name, main)
    ensures GetSubSection(m, "Sub") == Err(NullReference)
    ensures FindSubSection(m, "Sub").Ok? && FindSubSection(m, "Sub").value.objectType == SubType
  {
    var meta := SettingsMeta();
    assert FieldsOf(meta, SettingsType) == [PortField, SubField];
    SettingsKept();
    assert TableOk(meta, m);
    assert Keys(m.objectFields)[0] == PortField && Keys(m.objectFields)[1] == SubField;
    assert EntryOk(meta, m, 0) && EntryOk(meta, m, 1);
    assert !IsWhiteSpace("Sub"[0]);
    GetSubSectionFaults(m, "Sub");
    assert Holds(m.objectFields, 1, "Sub");
  }

  /** The manager `new SectionManager(typeof(Settings), key)` builds at the root key. */
  function SettingsManager(): SectionManager
  {
    var child := SectionManager(SubType, "Sub", [], ["Settings"], ["Settings", "Sub"]);
    SectionManager(SettingsType, "Settings", [(PortField, None), (SubField, Some(child))], [], ["Settings"])
  }

  /** The settings types nest without a cycle, and building a manager for them throws
      nothing: the constructor returns a manager. */
  lemma SettingsBuilds()
    ensures Ranked(SettingsMeta(), map[SettingsType := 1])
    ensures !BuildFails(SettingsMeta(), map[SettingsType := 1], SettingsType)
  {
    var meta := SettingsMeta();
    var rank := map[SettingsType := 1];
    assert FieldsOf(meta, SettingsType) == [PortField, SubField];
    assert FieldsOf(meta, SubType) == [];
    forall t, j | 0 <= j < |FieldsOf(meta, t)| && Nests(FieldsOf(meta, t)[j], t)
      ensures RankOf(rank, FieldsOf(meta, t)[j].fieldType) < RankOf(rank, t)
    {
      assert t == SettingsType;
    }
    assert !BuildFails(meta, rank, SubType);
    assert !FailsAt(meta, rank, SettingsType, 0) && !FailsAt(meta, rank, SettingsType, 1);
  }

  /** The manager above is the one the constructors build, so the fault is reachable. */
  lemma SettingsManagerBuilt()
    ensures Ranked(SettingsMeta(), map[SettingsType := 1])
    ensures !BuildFails(SettingsMeta(), map[SettingsType := 1], SettingsType)
    ensures Built(SettingsMeta(), SettingsManager(), SettingsType, SettingsType.name, [])
    ensures GetSubSection(SettingsManager(), "Sub") == Err(NullReference)
  {
    SettingsBuilds();
    var meta := SettingsMeta();
    var m := SettingsManager();
    var child := m.objectFields[1].1.value;
    assert FieldsOf(meta, SubType) == [];
    assert ManagerValid(meta, child);
    SettingsKept();
    assert Keys(m.objectFields) == [PortField, SubField];
    assert EntryOk(meta, m, 0) && EntryOk(meta, m, 1);
    SubSectionLookupFaults(m, []);
  }
}
