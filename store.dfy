/** The hierarchical key/value store (the Windows Registry) as an in-memory tree.
    A `RegistryKey` handle is the path of its node from the store's root. */
module RegistryStore {
  import opened Wrappers
  import opened Values

  /** A registry key: named values and named sub-keys. */
  datatype Node = Node(values: map<string, Value>, children: map<string, Node>)

  const Empty := Node(map[], map[])

  /** A `RegistryKey` handle: the names of the sub-keys leading to its node. */
  type Key = seq<string>

  /** The sub-key `name` of `n`, or an empty key when there is none. */
  function ChildOr(n: Node, name: string): Node
  {
    if name in n.children then n.children[name] else Empty
  }

  /** Whether a node exists at `path`. */
  predicate Exists(root: Node, path: Key)
    decreases |path|
  {
    path == [] || (path[0] in root.children && Exists(root.children[path[0]], path[1..]))
  }

  /** The node at `path`; a missing node reads as an empty one. */
  function At(root: Node, path: Key): Node
    decreases |path|
  {
    if path == [] then root else At(ChildOr(root, path[0]), path[1..])
  }

  /** `root` with the node at `path` replaced by `n`, creating missing keys on the way. */
  function Put(root: Node, path: Key, n: Node): Node
    decreases |path|
  {
    if path == [] then n
    else root.(children := root.children[path[0] := Put(ChildOr(root, path[0]), path[1..], n)])
  }

  /** `RegistryKey.CreateSubKey(name)` on the node itself: opens the sub-key when present,
      creates an empty one otherwise. */
  function CreateChild(n: Node, name: string): (r: Node)
    ensures r.values == n.values && name in r.children
    ensures r.children[name] == ChildOr(n, name)
    ensures forall k :: k in n.children ==> k in r.children && r.children[k] == n.children[k]
    ensures forall k :: k in r.children ==> k == name || k in n.children
  {
    if name in n.children then n else n.(children := n.children[name := Empty])
  }

  /** `root` after `SetValue(name, value)` on the key `key`. */
  function SetValueAt(root: Node, key: Key, name: string, value: Value): Node
  {
    Put(root, key, At(root, key).(values := At(root, key).values[name := value]))
  }

  /** `RegistryKey.GetValue(name)`: the stored value, `null` when there is none. */
  function GetValue(n: Node, name: string): Value
  {
    if name in n.values then n.values[name] else Null
  }

  /** The value slot `name` of `n`, as a presence-and-value pair. */
  function LookupValue(n: Node, name: string): Option<Value>
  {
    if name in n.values then Some(n.values[name]) else None
  }

  /** The sub-key `name` of `n`, as a presence-and-node pair. */
  function LookupChild(n: Node, name: string): Option<Node>
  {
    if name in n.children then Some(n.children[name]) else None
  }

  /** `p` is a prefix of `q`: `q` names `p`'s node or one below it. */
  predicate IsPrefix(p: Key, q: Key)
  {
    |p| <= |q| && q[..|p|] == p
  }

  /** `b` extends `a`: every key of `a` is still in `b` with the same values;
      `b` may hold more sub-keys. Opening or creating keys only ever extends the store. */
  predicate Extends(a: Node, b: Node)
  {
    a.values == b.values &&
    forall k :: k in a.children ==> k in b.children && Extends(a.children[k], b.children[k])
  }

  lemma {:induction false} AtPut(root: Node, p: Key, n: Node)
    ensures At(Put(root, p, n), p) == n
    ensures Exists(Put(root, p, n), p)
    decreases |p|
  {
    if p != [] {
      AtPut(ChildOr(root, p[0]), p[1..], n);
    }
  }

  lemma {:induction false} PutPut(root: Node, p: Key, a: Node, b: Node)
    ensures Put(Put(root, p, a), p, b) == Put(root, p, b)
    decreases |p|
  {
    if p != [] {
      PutPut(ChildOr(root, p[0]), p[1..], a, b);
    }
  }

  /** Replacing the sub-key `k` below `p` is replacing `p`'s node by its updated copy. */
  lemma {:induction false} PutChild(root: Node, p: Key, k: string, c: Node)
    ensures Put(root, p + [k], c) == Put(root, p, At(root, p).(children := At(root, p).children[k := c]))
    decreases |p|
  {
    if p == [] {
      assert p + [k] == [k];
    } else {
      assert (p + [k])[0] == p[0] && (p + [k])[1..] == p[1..] + [k];
      PutChild(ChildOr(root, p[0]), p[1..], k, c);
    }
  }

  lemma {:induction false} AtChild(root: Node, p: Key, k: string)
    ensures At(root, p + [k]) == ChildOr(At(root, p), k)
    ensures Exists(root, p + [k]) <==> Exists(root, p) && k in At(root, p).children
    decreases |p|
  {
    if p == [] {
      assert p + [k] == [k];
      assert [k][1..] == [];
    } else {
      assert (p + [k])[0] == p[0] && (p + [k])[1..] == p[1..] + [k];
      AtChild(ChildOr(root, p[0]), p[1..], k);
    }
  }

  /** Writing below `p` changes no value outside `p`'s subtree. */
  lemma {:induction false} PutKeepsValuesElsewhere(root: Node, p: Key, n: Node, q: Key)
    requires !IsPrefix(p, q)
    ensures At(Put(root, p, n), q).values == At(root, q).values
    decreases |p|
  {
    if q == [] {
    } else if p == [] {
      assert false;
    } else if p[0] != q[0] {
      if q[0] !in root.children {
        assert At(Put(root, p, n), q) == At(Empty, q[1..]);
        EmptyAt(q[1..]);
      }
    } else {
      PutKeepsValuesElsewhere(ChildOr(root, p[0]), p[1..], n, q[1..]);
    }
  }

  /** The node at `p + r` is the node at `r` below the node at `p`. */
  lemma {:induction false} AtAppend(root: Node, p: Key, r: Key)
    ensures At(root, p + r) == At(At(root, p), r)
    decreases |p|
  {
    if p != [] {
      assert (p + r)[0] == p[0] && (p + r)[1..] == p[1..] + r;
      AtAppend(ChildOr(root, p[0]), p[1..], r);
    } else {
      assert p + r == r;
    }
  }

  lemma {:induction false} PutAppend(root: Node, p: Key, n: Node, r: Key)
    ensures At(Put(root, p, n), p + r) == At(n, r)
    decreases |p|
  {
    if p != [] {
      assert (p + r)[0] == p[0] && (p + r)[1..] == p[1..] + r;
      PutAppend(ChildOr(root, p[0]), p[1..], n, r);
      assert ChildOr(Put(root, p, n), p[0]) == Put(ChildOr(root, p[0]), p[1..], n);
    } else {
      assert p + r == r;
    }
  }

  /** Setting a value at `p` changes the values of no other key. */
  lemma SetValueKeeps(root: Node, p: Key, name: string, x: Value, q: Key)
    requires q != p
    ensures At(SetValueAt(root, p, name, x), q).values == At(root, q).values
  {
    var n := At(root, p).(values := At(root, p).values[name := x]);
    if !IsPrefix(p, q) {
      PutKeepsValuesElsewhere(root, p, n, q);
    } else {
      var r := q[|p|..];
      assert q == p + r;
      PutAppend(root, p, n, r);
      AtAppend(root, p, r);
      assert r != [];
      assert At(n, r) == At(At(root, p), r);
    }
  }

  lemma {:induction false} EmptyAt(q: Key)
    ensures At(Empty, q) == Empty
    decreases |q|
  {
    if q != [] {
      EmptyAt(q[1..]);
    }
  }

  /** Every key on the way to an existing key exists. */
  lemma {:induction false} ExistsPrefix(root: Node, p: Key, q: Key)
    requires Exists(root, p) && IsPrefix(q, p)
    ensures Exists(root, q)
    decreases |q|
  {
    if q != [] {
      assert p[0] == q[0] && p[1..][..|q| - 1] == q[1..];
      ExistsPrefix(root.children[p[0]], p[1..], q[1..]);
    }
  }

  /** Opening or creating the sub-key `name` of `p` creates no key but those on the way to
      it: `p`'s own missing ancestors and the sub-key itself. */
  lemma {:induction false} CreateKeys(root: Node, p: Key, name: string, q: Key)
    ensures Exists(Put(root, p, CreateChild(At(root, p), name)), q) ==> Exists(root, q) || IsPrefix(q, p + [name])
    decreases |p|
  {
    var r' := Put(root, p, CreateChild(At(root, p), name));
    if q != [] && Exists(r', q) {
      if p == [] {
        if q[0] !in root.children {
          assert q[0] == name && r'.children[name] == Empty;
          assert Exists(Empty, q[1..]);
          assert Empty.children == map[];
          assert q[1..] == [];
        }
      } else if q[0] == p[0] {
        CreateKeys(ChildOr(root, p[0]), p[1..], name, q[1..]);
        assert At(root, p) == At(ChildOr(root, p[0]), p[1..]);
        assert Exists(Put(ChildOr(root, p[0]), p[1..], CreateChild(At(root, p), name)), q[1..]);
        assert (p + [name])[0] == p[0] && (p + [name])[1..] == p[1..] + [name];
        if p[0] !in root.children && !IsPrefix(q[1..], p[1..] + [name]) {
          assert Exists(Empty, q[1..]);
          assert Empty.children == map[];
          assert q[1..] == [];
        }
      }
    }
  }

  lemma {:induction false} ExtendsRefl(a: Node)
    ensures Extends(a, a)
  {
    forall k | k in a.children
      ensures Extends(a.children[k], a.children[k])
    {
      ExtendsRefl(a.children[k]);
    }
  }

  lemma {:induction false} ExtendsTrans(a: Node, b: Node, c: Node)
    requires Extends(a, b) && Extends(b, c)
    ensures Extends(a, c)
  {
    forall k | k in a.children
      ensures k in c.children && Extends(a.children[k], c.children[k])
    {
      ExtendsTrans(a.children[k], b.children[k], c.children[k]);
    }
  }

  lemma {:induction false} ExtendsExists(a: Node, b: Node, p: Key)
    requires Extends(a, b) && Exists(a, p)
    ensures Exists(b, p)
    decreases |p|
  {
    if p != [] {
      ExtendsExists(a.children[p[0]], b.children[p[0]], p[1..]);
    }
  }

  /** Opening or creating a sub-key anywhere writes no value and removes nothing. */
  /** A key that does not exist reads as an empty node. */
  lemma {:induction false} MissingAt(root: Node, q: Key)
    requires !Exists(root, q)
    ensures At(root, q) == Empty
    decreases |q|
  {
    if q[0] in root.children {
      MissingAt(root.children[q[0]], q[1..]);
    } else {
      EmptyAt(q[1..]);
    }
  }

  /** A key of `a` holds the same values in every extension of `a`. */
  lemma {:induction false} ExtendsValues(a: Node, b: Node, q: Key)
    requires Extends(a, b) && Exists(a, q)
    ensures At(b, q).values == At(a, q).values
    decreases |q|
  {
    if q != [] {
      ExtendsValues(a.children[q[0]], b.children[q[0]], q[1..]);
    }
  }

  /** Every key that opening or creating the sub-key `name` of `p` brings into being holds
      no values. */
  lemma CreatedEmpty(root: Node, p: Key, name: string, q: Key)
    requires Exists(Put(root, p, CreateChild(At(root, p), name)), q) && !Exists(root, q)
    ensures At(Put(root, p, CreateChild(At(root, p), name)), q).values == map[]
  {
    var c := CreateChild(At(root, p), name);
    MissingAt(root, q);
    if !IsPrefix(p, q) {
      PutKeepsValuesElsewhere(root, p, c, q);
    } else if q == p {
      AtPut(root, p, c);
    } else {
      CreateKeys(root, p, name, q);
      var r := q[|p|..];
      assert q == p + r;
      assert q[..|p| + 1] == p + [name];
      assert r == [name];
      PutAppend(root, p, c, r);
      AtAppend(root, p, r);
      assert At(c, r) == ChildOr(At(root, p), name) == At(At(root, p), r);
    }
  }

  lemma {:induction false} CreateExtends(root: Node, p: Key, name: string)
    ensures Extends(root, Put(root, p, CreateChild(At(root, p), name)))
    decreases |p|
  {
    var r' := Put(root, p, CreateChild(At(root, p), name));
    if p == [] {
      forall k | k in root.children
        ensures Extends(root.children[k], r'.children[k])
      {
        ExtendsRefl(root.children[k]);
      }
    } else {
      forall k | k in root.children
        ensures k in r'.children && Extends(root.children[k], r'.children[k])
      {
        if k == p[0] {
          CreateExtends(root.children[k], p[1..], name);
        } else {
          ExtendsRefl(root.children[k]);
        }
      }
    }
  }

  /** Every key of `b` that `a` lacks lies on the way to `p`. */
  ghost predicate NewKeysTo(a: Node, b: Node, p: Key)
  {
    forall q :: Exists(b, q) && !Exists(a, q) ==> IsPrefix(q, p)
  }

  /** Every key of `b` that `a` lacks holds no values: keys are only ever created empty. */
  ghost predicate NewKeysEmpty(a: Node, b: Node)
  {
    forall q :: Exists(b, q) && !Exists(a, q) ==> At(b, q).values == map[]
  }

  lemma NewKeysEmptyRefl(a: Node)
    ensures NewKeysEmpty(a, a)
  {
  }

  lemma NewKeysEmptyTrans(a: Node, b: Node, c: Node)
    requires NewKeysEmpty(a, b) && NewKeysEmpty(b, c) && Extends(b, c)
    ensures NewKeysEmpty(a, c)
  {
    forall q | Exists(c, q) && !Exists(a, q)
      ensures At(c, q).values == map[]
    {
      if Exists(b, q) {
        ExtendsValues(b, c, q);
      }
    }
  }

  /** The mutable registry: every open `RegistryKey` is a path into `root`. */
  class Registry {
    var root: Node

    constructor (root: Node)
      ensures this.root == root
    {
      this.root := root;
    }

    /** `key.OpenSubKey(name)`: the sub-key's handle, or `null` when it is absent.
        Never creates anything. */
    function OpenSubKey(key: Key, name: string): (r: Option<Key>)
      reads this
      ensures r.Some? <==> name in At(root, key).children
      ensures r.Some? ==> r.value == key + [name] && At(root, r.value) == At(root, key).children[name]
    {
      AtChild(root, key, name);
      if name in At(root, key).children then Some(key + [name]) else None
    }

    /** `key.GetValue(name)`. */
    function GetValueAt(key: Key, name: string): (r: Value)
      reads this
      ensures name !in At(root, key).values ==> r == Null
      ensures name in At(root, key).values ==> r == At(root, key).values[name]
    {
      GetValue(At(root, key), name)
    }

    /** `key.CreateSubKey(name)`: opens or creates the sub-key and returns its handle. */
    method CreateSubKey(key: Key, name: string) returns (sub: Key)
      modifies this
      ensures sub == key + [name]
      ensures root == Put(old(root), key, CreateChild(At(old(root), key), name))
      ensures At(root, sub) == ChildOr(At(old(root), key), name)
      ensures Exists(root, sub)
      ensures Extends(old(root), root)
      ensures NewKeysTo(old(root), root, sub)
      ensures NewKeysEmpty(old(root), root)
    {
      var n := CreateChild(At(root, key), name);
      AtPut(root, key, n);
      CreateExtends(root, key, name);
      forall q {
        CreateKeys(root, key, name, q);
      }
      var r' := Put(root, key, n);
      forall q | Exists(r', q) && !Exists(root, q)
        ensures At(r', q).values == map[]
      {
        CreatedEmpty(root, key, name, q);
      }
      root := r';
      sub := key + [name];
      AtChild(root, key, name);
    }

    /** `key.SetValue(name, value)`. */
    method SetValue(key: Key, name: string, value: Value)
      modifies this
      ensures root == SetValueAt(old(root), key, name, value)
    {
      root := SetValueAt(root, key, name, value);
    }
  }
}
