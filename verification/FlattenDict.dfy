/** Flattening nested JSON objects into one dictionary with dot-joined keys. */
module FlattenDict {
  import opened Options
  import opened Sums
  import opened Text

  /** A JSON value; the fields of an object are in order. */
  datatype Json = Scalar(text: string) | List(items: seq<Json>) | Dict(fields: seq<Field>)

  datatype Field = Field(key: string, value: Json)

  function IsDot(): char -> bool { c => c == '.' }

  function Get(m: map<string, Json>, key: string): Option<Json> {
    if key in m then Some(m[key]) else None
  }

  // -------------------------------------------------------------- flattening

  lemma PrefixInjective(k: string)
    ensures forall x: string, y: string :: k + "." + x == k + "." + y ==> x == y
  {
    forall x: string, y: string | k + "." + x == k + "." + y ensures x == y {
      assert (k + "." + x)[|k| + 1..] == x && (k + "." + y)[|k| + 1..] == y;
    }
  }

  function Prefixed(k: string, m: map<string, Json>): map<string, Json> {
    PrefixInjective(k);
    map x | x in m :: k + "." + x := m[x]
  }

  /** The items of a list as they are, under their positions: one level only. */
  function Indexed(k: string, items: seq<Json>): map<string, Json> {
    if items == [] then map[]
    else
      var n := |items| - 1;
      Indexed(k, items[..n])[k + "." + Decimal(n) := items[n]]
  }

  function Flatten(d: seq<Field>): map<string, Json>
    decreases d
  {
    if d == [] then map[]
    else
      var earlier, k, v := Flatten(d[..|d| - 1]), d[|d| - 1].key, d[|d| - 1].value;
      match v
      case Dict(fields) => earlier + Prefixed(k, Flatten(fields))
      case List(items) => earlier + Indexed(k, items)
      case Scalar(_) => earlier[k := v]
  }

  method FlattenFields(d: seq<Field>) returns (flattened: map<string, Json>)
    ensures flattened == Flatten(d)
    decreases d
  {
    flattened := map[];
    for i := 0 to |d|
      invariant flattened == Flatten(d[..i])
    {
      var Field(key, value) := d[i];
      assert d[..i + 1][..i] == d[..i];
      match value
      case Dict(fields) =>
        var inner := FlattenFields(fields);
        flattened := flattened + Prefixed(key, inner);
      case List(items) =>
        flattened := flattened + Indexed(key, items);
      case Scalar(_) =>
        flattened := flattened[key := value];
    }
    assert d[..|d|] == d;
  }

  // --------------------------------------------------- walking the original

  function ValueAt(d: seq<Field>, k: string): (v: Option<Json>)
    ensures v.Some? ==> Field(k, v.value) in d
    ensures v.None? <==> forall f :: f in d ==> f.key != k
  {
    if d == [] then None
    else
      assert d == d[..|d| - 1] + [d[|d| - 1]];
      if d[|d| - 1].key == k then Some(d[|d| - 1].value) else ValueAt(d[..|d| - 1], k)
  }

  function ItemAt(items: seq<Json>, position: string): Option<Json> {
    if items == [] then None
    else if Decimal(|items| - 1) == position then Some(items[|items| - 1])
    else ItemAt(items[..|items| - 1], position)
  }

  /** Follow a path of keys; a list takes one position and its items are not entered. */
  function Lookup(d: seq<Field>, path: seq<string>): Option<Json>
    decreases |path|, 1
  {
    if path == [] then None
    else
      var v := ValueAt(d, path[0]);
      if v.None? then None else Descend(v.value, path[1..])
  }

  function Descend(v: Json, rest: seq<string>): Option<Json>
    decreases |rest|, 2
  {
    match v
    case Scalar(_) => if rest == [] then Some(v) else None
    case List(items) => if |rest| == 1 then ItemAt(items, rest[0]) else None
    case Dict(fields) => Lookup(fields, rest)
  }

  /** No key contains a dot or occurs twice, at any depth that is flattened. */
  predicate PlainKeys(d: seq<Field>)
    decreases d
  {
    d == [] ||
    (var Field(k, v) := d[|d| - 1];
     && PlainKeys(d[..|d| - 1])
     && ValueAt(d[..|d| - 1], k).None? && Without(k, IsDot())
     && (v.Dict? ==> PlainKeys(v.fields)))
  }

  // ------------------------------------------------------------- path strings

  function Path(key: string): (path: seq<string>)
    ensures path != []
  {
    Split(key, IsDot())
  }

  lemma PathOfKey(k: string)
    requires Without(k, IsDot())
    ensures Path(k) == [k]
  {
    SplitWhole(k, IsDot());
  }

  lemma PathOfNested(k: string, rest: string)
    requires Without(k, IsDot())
    ensures Path(k + "." + rest) == [k] + Path(rest)
  {
    SplitAt(k, '.', rest, IsDot());
    SplitWhole(k, IsDot());
  }

  /** Every string is its path joined by dots, so its first piece is either all of it or ends at a dot. */
  lemma {:induction false} PathParts(key: string)
    ensures |Path(key)| == 1 ==> key == Path(key)[0]
    ensures |Path(key)| > 1 ==> exists rest :: key == Path(key)[0] + "." + rest
    ensures Without(Path(key)[0], IsDot())
  {
    SplitPieces(key, IsDot());
    assert Path(key)[0] in Path(key);
    if key != "" {
      var front, c := key[..|key| - 1], key[|key| - 1];
      assert key == front + [c];
      SplitAppend(front, c, IsDot());
      PathParts(front);
      if |Path(front)| > 1 {
        var rest :| front == Path(front)[0] + "." + rest;
        assert key == Path(key)[0] + "." + (rest + [c]);
      } else if c == '.' {
        assert key == Path(key)[0] + "." + "";
      }
    }
  }

  // ---------------------------------------------------------------- one field

  lemma GetPrefixed(k: string, m: map<string, Json>, rest: string)
    ensures Get(Prefixed(k, m), k + "." + rest) == Get(m, rest)
  {
    PrefixInjective(k);
    assert k + "." + rest in Prefixed(k, m) <==> rest in m;
  }

  lemma PrefixedKeys(k: string, m: map<string, Json>, key: string)
    requires Without(k, IsDot()) && key in Prefixed(k, m)
    ensures Path(key)[0] == k && |Path(key)| > 1
  {
    var x :| x in m && key == k + "." + x;
    PathOfNested(k, x);
  }

  /** Under a plain key an object's flattened fields are found below that key and nowhere else. */
  lemma DictEntries(k: string, fields: seq<Field>, key: string)
    requires Without(k, IsDot())
    requires forall r :: Get(Flatten(fields), r) == Lookup(fields, Path(r))
    ensures Get(Prefixed(k, Flatten(fields)), key)
            == if Path(key)[0] == k then Lookup(fields, Path(key)[1..]) else None
  {
    PathParts(key);
    var m := Flatten(fields);
    if Path(key)[0] == k && |Path(key)| > 1 {
      var rest :| key == k + "." + rest;
      PathOfNested(k, rest);
      assert Path(key)[1..] == Path(rest);
      GetPrefixed(k, m, rest);
    } else if key in Prefixed(k, m) {
      PrefixedKeys(k, m, key);
    }
  }

  lemma {:induction false} ListEntries(k: string, items: seq<Json>, key: string)
    requires Without(k, IsDot())
    ensures Get(Indexed(k, items), key)
            == if Path(key)[0] == k && |Path(key)| == 2 then ItemAt(items, Path(key)[1]) else None
  {
    if items == [] {
    } else {
      var n := |items| - 1;
      ListEntries(k, items[..n], key);
      PathOfNested(k, Decimal(n));
      PathOfKey(Decimal(n));
      PathParts(key);
      if Path(key)[0] == k && |Path(key)| == 2 && Path(key)[1] == Decimal(n) {
        var rest :| key == k + "." + rest;
        PathOfNested(k, rest);
        assert Path(rest) == Path(key)[1..];
        PathParts(rest);
      }
    }
  }

  lemma ScalarEntry(k: string, key: string)
    requires Without(k, IsDot())
    ensures key == k <==> Path(key) == [k]
  {
    PathParts(key);
    PathOfKey(k);
  }

  function FlattenField(k: string, v: Json): map<string, Json> {
    match v
    case Dict(fields) => Prefixed(k, Flatten(fields))
    case List(items) => Indexed(k, items)
    case Scalar(_) => map[k := v]
  }

  lemma FieldEntries(k: string, v: Json, key: string)
    requires Without(k, IsDot())
    requires v.Dict? ==> forall r :: Get(Flatten(v.fields), r) == Lookup(v.fields, Path(r))
    ensures Get(FlattenField(k, v), key) == if Path(key)[0] == k then Descend(v, Path(key)[1..]) else None
  {
    match v
    case Dict(fields) => DictEntries(k, fields, key);
    case List(items) => ListEntries(k, items, key);
    case Scalar(_) =>
      ScalarEntry(k, key);
      if Path(key)[0] == k && Path(key)[1..] == [] { assert Path(key) == [k]; }
  }

  lemma FlattenLast(front: seq<Field>, k: string, v: Json, d: seq<Field>)
    requires d == front + [Field(k, v)]
    ensures Flatten(d) == Flatten(front) + FlattenField(k, v)
  {
    assert d[..|d| - 1] == front;
  }

  lemma LookupLast(front: seq<Field>, k: string, v: Json, path: seq<string>)
    requires path != [] && ValueAt(front, k).None?
    ensures Lookup(front + [Field(k, v)], path) == if path[0] == k then Descend(v, path[1..]) else Lookup(front, path)
    ensures path[0] == k ==> Lookup(front, path).None?
  {
    hide Descend;
    assert (front + [Field(k, v)])[..|front|] == front;
  }

  /**
   * For plain keys the flattened dictionary has exactly the dot-joined paths of the original as keys,
   * each with the value found by following its path.
   */
  lemma {:induction false} FlattenIsLookup(d: seq<Field>)
    requires PlainKeys(d)
    ensures forall key :: Get(Flatten(d), key) == Lookup(d, Path(key))
    decreases d
  {
    if d == [] {
    } else {
      hide Flatten, FlattenField, Lookup, Descend, Path;
      var front, k, v := d[..|d| - 1], d[|d| - 1].key, d[|d| - 1].value;
      assert d == front + [Field(k, v)];
      FlattenIsLookup(front);
      if v.Dict? { FlattenIsLookup(v.fields); }
      FlattenLast(front, k, v, d);
      forall key ensures Get(Flatten(d), key) == Lookup(d, Path(key)) {
        FieldEntries(k, v, key);
        LookupLast(front, k, v, Path(key));
        assert Get(Flatten(front), key) == Lookup(front, Path(key));
      }
    }
  }

  /** The other way round: the joined path leads to what following the path finds. */
  lemma JoinedPathFinds(d: seq<Field>, path: seq<string>)
    requires PlainKeys(d) && path != [] && forall k :: k in path ==> Without(k, IsDot())
    ensures Get(Flatten(d), Join(path, ".")) == Lookup(d, path)
  {
    hide Flatten, PlainKeys;
    FlattenIsLookup(d);
    SplitJoin(path, '.', IsDot());
    assert Path(Join(path, ".")) == path;
  }

  // ------------------------------------------------------- field by field

  /** Fields are flattened one after the other; a later one wins a key that an earlier one has. */
  lemma {:induction false} FlattenConcat(a: seq<Field>, b: seq<Field>)
    ensures Flatten(a + b) == Flatten(a) + Flatten(b)
    decreases |b|
  {
    if b == [] {
      assert a + b == a;
    } else {
      hide Flatten, FlattenField;
      var front, k, v := b[..|b| - 1], b[|b| - 1].key, b[|b| - 1].value;
      assert b == front + [Field(k, v)] && a + b == (a + front) + [Field(k, v)];
      FlattenConcat(a, front);
      FlattenLast(front, k, v, b);
      FlattenLast(a + front, k, v, a + b);
    }
  }

  /** One field: a scalar under its key, list items by position, and an object's entries, after a dot. */
  lemma FlattenOne(k: string, v: Json, key: string)
    ensures v.Scalar? ==> Flatten([Field(k, v)]) == map[k := v]
    ensures v.Dict? ==>
              Get(Flatten([Field(k, v)]), k + "." + key) == Get(Flatten(v.fields), key)
              && forall x :: x in Flatten([Field(k, v)]) ==> exists r :: r in Flatten(v.fields) && x == k + "." + r
    ensures v.List? ==>
              && (forall i :: 0 <= i < |v.items| ==>
                    Get(Flatten([Field(k, v)]), k + "." + Decimal(i)) == Some(v.items[i]))
              && forall x :: x in Flatten([Field(k, v)]) ==> exists i: nat :: i < |v.items| && x == k + "." + Decimal(i)
  {
    hide Flatten;
    FlattenNone();
    FlattenLast([], k, v, [Field(k, v)]);
    match v
    case Dict(fields) => GetPrefixed(k, Flatten(fields), key);
    case List(items) =>
      forall i | 0 <= i < |items| ensures Get(Indexed(k, items), k + "." + Decimal(i)) == Some(items[i]) {
        IndexedAt(k, items, i);
      }
      forall x | x in Indexed(k, items) ensures exists i: nat :: i < |items| && x == k + "." + Decimal(i) {
        var i := IndexedOnly(k, items, x);
      }
    case Scalar(_) =>
  }

  lemma FlattenNone()
    ensures Flatten([]) == map[]
  {
  }

  lemma {:induction false} IndexedAt(k: string, items: seq<Json>, i: nat)
    requires i < |items|
    ensures Get(Indexed(k, items), k + "." + Decimal(i)) == Some(items[i])
  {
    var n := |items| - 1;
    if i == n {
    } else {
      IndexedAt(k, items[..n], i);
      PrefixInjective(k);
      if k + "." + Decimal(i) == k + "." + Decimal(n) { DecimalInjective(i, n); }
    }
  }

  lemma {:induction false} IndexedOnly(k: string, items: seq<Json>, key: string) returns (i: nat)
    requires key in Indexed(k, items)
    ensures i < |items| && key == k + "." + Decimal(i)
  {
    var n := |items| - 1;
    if key == k + "." + Decimal(n) {
      i := n;
    } else {
      i := IndexedOnly(k, items[..n], key);
    }
  }

  // --------------------------------------------------- any keys: the last leaf wins

  /** A scalar or a list item: what should become an entry, and the keys that lead to it. */
  datatype Leaf = Leaf(path: seq<string>, value: Json)

  function Under(k: string, leaves: seq<Leaf>): (r: seq<Leaf>)
    ensures |r| == |leaves|
    ensures forall i :: 0 <= i < |r| ==> r[i] == Leaf([k] + leaves[i].path, leaves[i].value)
  {
    seq(|leaves|, i requires 0 <= i < |leaves| => Leaf([k] + leaves[i].path, leaves[i].value))
  }

  function ItemLeaves(k: string, items: seq<Json>): (r: seq<Leaf>)
    ensures |r| == |items| && forall i :: 0 <= i < |r| ==> r[i] == Leaf([k, Decimal(i)], items[i])
  {
    seq(|items|, i requires 0 <= i < |items| => Leaf([k, Decimal(i)], items[i]))
  }

  /** The leaves in the order in which the source meets them. */
  function LeavesOf(d: seq<Field>): (r: seq<Leaf>)
    ensures forall l :: l in r ==> l.path != []
    decreases d
  {
    if d == [] then []
    else
      var k, v := d[|d| - 1].key, d[|d| - 1].value;
      LeavesOf(d[..|d| - 1]) + match v
                               case Dict(fields) => Under(k, LeavesOf(fields))
                               case List(items) => ItemLeaves(k, items)
                               case Scalar(_) => [Leaf([k], v)]
  }

  function FieldLeaves(k: string, v: Json): seq<Leaf> {
    match v
    case Dict(fields) => Under(k, LeavesOf(fields))
    case List(items) => ItemLeaves(k, items)
    case Scalar(_) => [Leaf([k], v)]
  }

  lemma LeavesLast(front: seq<Field>, k: string, v: Json, d: seq<Field>)
    requires d == front + [Field(k, v)]
    ensures LeavesOf(d) == LeavesOf(front) + FieldLeaves(k, v)
  {
    assert d[..|d| - 1] == front;
  }

  /** The dot-joined path of each leaf. */
  function Keys(leaves: seq<Leaf>): (keys: seq<string>)
    ensures |keys| == |leaves| && forall i :: 0 <= i < |keys| ==> keys[i] == Join(leaves[i].path, ".")
  {
    seq(|leaves|, i requires 0 <= i < |leaves| => Join(leaves[i].path, "."))
  }

  /** The value of the last leaf whose path joins to the key. */
  function LastAt(leaves: seq<Leaf>, key: string): (v: Option<Json>)
    ensures v.None? <==> key !in Keys(leaves)
    ensures v.Some? ==> exists i :: 0 <= i < |leaves| && Leading(leaves, i, key) && v.value == leaves[i].value
  {
    if leaves == [] then None
    else
      var front, last := leaves[..|leaves| - 1], leaves[|leaves| - 1];
      assert Keys(leaves) == Keys(front) + [Join(last.path, ".")];
      if Join(last.path, ".") == key then
        assert Leading(leaves, |leaves| - 1, key);
        Some(last.value)
      else
        assert forall i :: 0 <= i < |front| && Leading(front, i, key) ==> Leading(leaves, i, key);
        LastAt(front, key)
  }

  /** Leaf `i` has this key and no later leaf has it. */
  predicate Leading(leaves: seq<Leaf>, i: nat, key: string)
    requires i < |leaves|
  {
    Keys(leaves)[i] == key && forall j :: i < j < |leaves| ==> Keys(leaves)[j] != key
  }

  lemma {:induction false} LastAtConcat(a: seq<Leaf>, b: seq<Leaf>, key: string)
    ensures LastAt(a + b, key) == if LastAt(b, key).Some? then LastAt(b, key) else LastAt(a, key)
  {
    if b == [] {
      assert a + b == a;
    } else {
      assert (a + b)[..|a + b| - 1] == a + b[..|b| - 1];
      LastAtConcat(a, b[..|b| - 1], key);
    }
  }

  lemma {:induction false} PrefixedLeaves(k: string, leaves: seq<Leaf>, m: map<string, Json>, key: string)
    requires forall l :: l in leaves ==> l.path != []
    requires forall rest :: Get(m, rest) == LastAt(leaves, rest)
    ensures Get(Prefixed(k, m), key) == LastAt(Under(k, leaves), key)
  {
    if key in Prefixed(k, m) {
      var rest :| rest in m && key == k + "." + rest;
      GetPrefixed(k, m, rest);
      LastAtUnder(k, leaves, rest);
    } else if LastAt(Under(k, leaves), key).Some? {
      var i :| 0 <= i < |leaves| && Leading(Under(k, leaves), i, key);
      assert leaves[i] in leaves;
      JoinFront(k, leaves[i].path, ".");
      GetPrefixed(k, m, Join(leaves[i].path, "."));
      LastAtUnder(k, leaves, Join(leaves[i].path, "."));
    }
  }

  lemma {:induction false} LastAtUnder(k: string, leaves: seq<Leaf>, rest: string)
    requires forall l :: l in leaves ==> l.path != []
    ensures LastAt(Under(k, leaves), k + "." + rest) == LastAt(leaves, rest)
  {
    if leaves == [] {
    } else {
      var front, last := leaves[..|leaves| - 1], leaves[|leaves| - 1];
      assert last in leaves && Under(k, leaves)[..|front|] == Under(k, front);
      LastAtUnder(k, front, rest);
      JoinFront(k, last.path, ".");
      PrefixInjective(k);
    }
  }

  lemma {:induction false} IndexedLeaves(k: string, items: seq<Json>, key: string)
    ensures Get(Indexed(k, items), key) == LastAt(ItemLeaves(k, items), key)
  {
    if items == [] {
    } else {
      var n := |items| - 1;
      assert ItemLeaves(k, items)[..n] == ItemLeaves(k, items[..n]);
      IndexedLeaves(k, items[..n], key);
      JoinFront(k, [Decimal(n)], ".");
      assert [k] + [Decimal(n)] == [k, Decimal(n)];
    }
  }

  lemma FieldLast(k: string, v: Json, key: string)
    requires v.Dict? ==> forall rest :: Get(Flatten(v.fields), rest) == LastAt(LeavesOf(v.fields), rest)
    ensures Get(FlattenField(k, v), key) == LastAt(FieldLeaves(k, v), key)
  {
    match v
    case Dict(fields) => PrefixedLeaves(k, LeavesOf(fields), Flatten(fields), key);
    case List(items) => IndexedLeaves(k, items, key);
    case Scalar(_) => assert [Leaf([k], v)][..0] == [];
  }

  /**
   * Whatever the keys: the flattened dictionary has the dot-joined paths of the leaves as keys, no
   * others, and under each the value of the last leaf whose path joins to it.
   */
  lemma {:induction false} FlattenIsLastLeaf(d: seq<Field>)
    ensures forall key :: Get(Flatten(d), key) == LastAt(LeavesOf(d), key)
    ensures forall key :: key in Flatten(d) <==> key in Keys(LeavesOf(d))
    decreases d
  {
    if d == [] {
    } else {
      hide Flatten, LeavesOf, LastAt, FlattenField, FieldLeaves;
      var front, k, v := d[..|d| - 1], d[|d| - 1].key, d[|d| - 1].value;
      assert d == front + [Field(k, v)];
      FlattenIsLastLeaf(front);
      if v.Dict? { FlattenIsLastLeaf(v.fields); }
      FlattenLast(front, k, v, d);
      LeavesLast(front, k, v, d);
      forall key ensures Get(Flatten(d), key) == LastAt(LeavesOf(d), key) {
        FieldLast(k, v, key);
        LastAtConcat(LeavesOf(front), FieldLeaves(k, v), key);
        assert Get(Flatten(front), key) == LastAt(LeavesOf(front), key);
      }
      forall key ensures key in Flatten(d) <==> key in Keys(LeavesOf(d)) {
        assert Get(Flatten(d), key) == LastAt(LeavesOf(d), key);
      }
    }
  }

  function SetOf(keys: seq<string>): set<string> { set k | k in keys }

  lemma {:induction false} SetSize(keys: seq<string>)
    ensures |SetOf(keys)| <= |keys|
    ensures |SetOf(keys)| == |keys| <==> Distinct(keys)
  {
    if keys == [] {
    } else {
      var front, last := keys[..|keys| - 1], keys[|keys| - 1];
      assert keys == front + [last] && SetOf(keys) == SetOf(front) + {last};
      SetSize(front);
      DistinctAppend(front, last);
    }
  }

  /** No leaf is lost exactly if no two paths join to the same key. */
  lemma NoLeafLostIff(d: seq<Field>)
    ensures |Flatten(d)| <= |LeavesOf(d)|
    ensures |Flatten(d)| == |LeavesOf(d)| <==> Distinct(Keys(LeavesOf(d)))
  {
    FlattenIsLastLeaf(d);
    SetSize(Keys(LeavesOf(d)));
    assert Flatten(d).Keys == SetOf(Keys(LeavesOf(d)));
  }

  // ------------------------------------------------------------ plain keys: none lost

  /** Different leaves have different paths, and no key on them contains a dot. */
  ghost predicate PlainPaths(leaves: seq<Leaf>) {
    && (forall i, j :: 0 <= i < j < |leaves| ==> leaves[i].path != leaves[j].path)
    && (forall l, k :: l in leaves && k in l.path ==> Without(k, IsDot()))
  }

  lemma PlainPathsConcat(a: seq<Leaf>, b: seq<Leaf>, k: string)
    requires PlainPaths(a) && PlainPaths(b)
    requires forall l :: l in a ==> l.path != [] && l.path[0] != k
    requires forall l :: l in b ==> l.path != [] && l.path[0] == k
    ensures PlainPaths(a + b)
  {
    var all := a + b;
    forall i, j | 0 <= i < j < |all| ensures all[i].path != all[j].path {
      if i < |a| <= j { assert all[i] in a && all[j] in b; }
    }
  }

  lemma UnderPlain(k: string, leaves: seq<Leaf>)
    requires PlainPaths(leaves) && Without(k, IsDot())
    ensures PlainPaths(Under(k, leaves))
  {
    var r := Under(k, leaves);
    forall i, j | 0 <= i < j < |r| ensures r[i].path != r[j].path {
      assert r[i].path[1..] == leaves[i].path && r[j].path[1..] == leaves[j].path;
    }
    forall l, p | l in r && p in l.path ensures Without(p, IsDot()) {
      var i :| 0 <= i < |r| && r[i] == l;
      assert leaves[i] in leaves && (p == k || p in leaves[i].path);
    }
  }

  lemma ItemsPlain(k: string, items: seq<Json>)
    requires Without(k, IsDot())
    ensures PlainPaths(ItemLeaves(k, items))
  {
    var r := ItemLeaves(k, items);
    forall i, j | 0 <= i < j < |r| ensures r[i].path != r[j].path {
      assert r[i].path[1] == Decimal(i) && r[j].path[1] == Decimal(j);
      if Decimal(i) == Decimal(j) { DecimalInjective(i, j); }
    }
  }

  lemma {:induction false} PlainKeysPlainPaths(d: seq<Field>)
    requires PlainKeys(d)
    ensures PlainPaths(LeavesOf(d))
    ensures forall l :: l in LeavesOf(d) ==> ValueAt(d, l.path[0]).Some?
    decreases d
  {
    if d == [] {
    } else {
      hide PlainPaths, LeavesOf;
      var front, k, v := d[..|d| - 1], d[|d| - 1].key, d[|d| - 1].value;
      assert d == front + [Field(k, v)];
      PlainKeysPlainPaths(front);
      LeavesLast(front, k, v, d);
      FieldPlain(k, v);
      PlainPathsConcat(LeavesOf(front), FieldLeaves(k, v), k);
    }
  }

  lemma ScalarPlain(k: string, v: Json)
    requires Without(k, IsDot())
    ensures PlainPaths([Leaf([k], v)])
  {
  }

  lemma {:induction false} FieldPlain(k: string, v: Json)
    requires Without(k, IsDot()) && (v.Dict? ==> PlainKeys(v.fields))
    ensures PlainPaths(FieldLeaves(k, v))
    ensures forall l :: l in FieldLeaves(k, v) ==> l.path != [] && l.path[0] == k
    decreases v
  {
    hide PlainPaths, LeavesOf, PlainKeys, Without;
    match v
    case Dict(fields) =>
      PlainKeysPlainPaths(fields);
      UnderPlain(k, LeavesOf(fields));
    case List(items) => ItemsPlain(k, items);
    case Scalar(_) => ScalarPlain(k, v);
  }

  /** For plain keys no two leaves collide: there are as many entries as leaves. */
  lemma OneEntryPerLeaf(d: seq<Field>)
    requires PlainKeys(d)
    ensures |Flatten(d)| == |LeavesOf(d)|
  {
    hide Flatten, LeavesOf, PlainKeys;
    PlainKeysPlainPaths(d);
    var leaves := LeavesOf(d);
    forall i, j | 0 <= i < j < |leaves| ensures Keys(leaves)[i] != Keys(leaves)[j] {
      assert leaves[i] in leaves && leaves[j] in leaves;
      SplitJoin(leaves[i].path, '.', IsDot());
      SplitJoin(leaves[j].path, '.', IsDot());
    }
    NoLeafLostIff(d);
  }

  lemma CollidingLeaves(a: Json, b: Json)
    requires a.Scalar? && b.Scalar?
    ensures LeavesOf([Field("x.y", a), Field("x", Dict([Field("y", b)]))])
            == [Leaf(["x.y"], a), Leaf(["x", "y"], b)]
  {
    var inner, first := [Field("y", b)], [Field("x.y", a)];
    assert first + [Field("x", Dict(inner))] == [Field("x.y", a), Field("x", Dict(inner))];
    LeavesLast([], "y", b, inner);
    LeavesLast([], "x.y", a, first);
    LeavesLast(first, "x", Dict(inner), first + [Field("x", Dict(inner))]);
    assert ["x"] + ["y"] == ["x", "y"];
  }

  /** A key with a dot can collide with a nested one: two leaves, one entry. */
  lemma DottedKeysCollide(a: Json, b: Json)
    requires a.Scalar? && b.Scalar?
    ensures var d := [Field("x.y", a), Field("x", Dict([Field("y", b)]))];
            |LeavesOf(d)| == 2 && Flatten(d) == map["x.y" := b]
  {
    hide Flatten, LeavesOf;
    var d := [Field("x.y", a), Field("x", Dict([Field("y", b)]))];
    CollidingLeaves(a, b);
    FlattenIsLastLeaf(d);
    JoinFront("x", ["y"], ".");
    assert ["x"] + ["y"] == ["x", "y"] && "x" + "." + "y" == "x.y" && Join(["y"], ".") == "y";
    assert Keys(LeavesOf(d)) == ["x.y", "x.y"];
    assert forall key :: key in Flatten(d) <==> key == "x.y";
    assert Get(Flatten(d), "x.y") == Some(b);
  }
}
