/**
 * `flatten_json_value` and `Record::flatten` (src/record.rs): a JSON tree becomes a
 * map from dotted key paths to scalar item values.
 *
 * As written, an array element does not add its index to the path: every element
 * of an array is flattened under `key + "."` (or `""` at the root), so a later
 * element overwrites what an earlier one wrote at the same path.
 */
module Flatten {
  import opened Base
  import opened Values
  import opened Json

  /** `Items`: the flattened map (a `BTreeMap<String, ItemValue>`). */
  type Items = map<string, ItemValue>

  predicate IsScalar(v: Json) {
    !v.JArray? && !v.JObject?
  }

  /** The item value of a scalar JSON value (src/record.rs:177-196). */
  function ScalarItem(v: Json): (r: ItemValue)
    requires IsScalar(v)
    ensures v.JNull? <==> r.Null?
    ensures v.JBool? <==> r.Bool?
    ensures v.JString? <==> r.Str?
    ensures v.JNumber? <==> r.IsNumber()
    ensures v.JBool? ==> r.b == v.b
    ensures v.JString? ==> r.s == v.s
    ensures v.JNumber? ==> r == ItemOfNumber(v.n)
  {
    match v
    case JNull => Null
    case JBool(b) => Bool(b)
    case JNumber(n) => ItemOfNumber(n)
    case JString(s) => Str(s)
  }

  /** The key under which an array's elements are flattened: a `.` is pushed unless the key is empty. */
  function ElementKey(key: string): (k: string)
    ensures key == [] ==> k == []
    ensures key != [] ==> k == key + "." && |k| == |key| + 1
  {
    if key == [] then [] else key + "."
  }

  /** The key under which an object member is flattened: `.name`, with no leading dot at the root. */
  function MemberKey(key: string, name: string): (k: string)
    ensures key == [] ==> k == name
    ensures key != [] ==> k == key + "." + name && k[..|key|] == key
  {
    if key == [] then name else key + "." + name
  }

  /** What flattening `v` under `key` does to `items`. */
  function FlattenInto(v: Json, key: string, items: Items): Items
    decreases v, 1
  {
    match v
    case JArray(_) => FlattenElements(v, 0, key, items)
    case JObject(_) => FlattenMembers(v, 0, key, items)
    case _ => items[key := ScalarItem(v)]
  }

  /** Flattening the elements `i..` of an array, in order. */
  function FlattenElements(parent: Json, i: nat, key: string, items: Items): Items
    requires parent.JArray? && i <= |parent.elems|
    decreases parent, 0, |parent.elems| - i
  {
    if i == |parent.elems| then items
    else FlattenElements(parent, i + 1, key, FlattenInto(parent.elems[i], ElementKey(key), items))
  }

  /** Flattening the members `i..` of an object, in iteration order. */
  function FlattenMembers(parent: Json, i: nat, key: string, items: Items): Items
    requires parent.JObject? && i <= |parent.members|
    decreases parent, 0, |parent.members| - i
  {
    if i == |parent.members| then items
    else
      var m := parent.members[i];
      assert m.value < m < parent;
      FlattenMembers(parent, i + 1, key, FlattenInto(m.value, MemberKey(key, m.name), items))
  }

  /** The map a record's value flattens to. */
  function Flattened(v: Json): Items {
    FlattenInto(v, "", map[])
  }

  /**
   * `flatten_json_value`: the key is extended in place before each child and
   * truncated back after it, so it is returned as it came in.
   */
  method FlattenJsonValue(value: Json, key0: string, items0: Items) returns (key: string, items: Items)
    ensures key == key0
    ensures items == FlattenInto(value, key0, items0)
    decreases value
  {
    key, items := key0, items0;
    match value {
      case JArray(vs) =>
        var len := |key|;
        for i := 0 to |vs|
          invariant key == key0
          invariant FlattenElements(value, i, key0, items) == FlattenInto(value, key0, items0)
        {
          if key != [] {
            key := key + ".";
          }
          assert key == ElementKey(key0);
          key, items := FlattenJsonValue(vs[i], key, items);
          key := key[..len];
        }
      case JObject(vs) =>
        var len := |key|;
        for i := 0 to |vs|
          invariant key == key0
          invariant FlattenMembers(value, i, key0, items) == FlattenInto(value, key0, items0)
        {
          if key != [] {
            key := key + ".";
          }
          key := key + vs[i].name;
          assert key == MemberKey(key0, vs[i].name);
          key, items := FlattenJsonValue(vs[i].value, key, items);
          key := key[..len];
        }
      case _ =>
        items := items[key := ScalarItem(value)];
    }
  }

  /** A timestamped JSON sample of one target; the timestamp is its whole seconds. */
  datatype Record = Record(target: string, timestamp: u64, value: Json)
  {
    /** `Record::flatten`: flattens the value from an empty key into an empty map. */
    method Flatten() returns (r: FlattenedRecord)
      ensures r.target == target && r.timestamp == timestamp
      ensures r.items == Flattened(value)
      ensures r.items.Keys == LeafKeys("", Leaves(value))
    {
      var key, items := FlattenJsonValue(value, "", map[]);
      FlattenIsApply(value, "", map[]);
      ApplyKeys(map[], "", Leaves(value));
      r := FlattenedRecord(target, timestamp, items);
    }
  }

  datatype FlattenedRecord = FlattenedRecord(target: string, timestamp: u64, items: Items)

  // An independent account of flattening: the leaves of the tree with their paths.

  /** One step from a node to a child: a member name or an array index. */
  datatype Step = Name(name: string) | Index(i: nat)

  /** A scalar of the tree with the path from the root to it. */
  datatype Leaf = Leaf(path: seq<Step>, value: ItemValue)

  /** The leaves of a tree, depth first, children in order. */
  function Leaves(v: Json): seq<Leaf>
    decreases v, 1
  {
    match v
    case JArray(_) => ElementLeaves(v, 0)
    case JObject(_) => MemberLeaves(v, 0)
    case _ => [Leaf([], ScalarItem(v))]
  }

  function ElementLeaves(parent: Json, i: nat): seq<Leaf>
    requires parent.JArray? && i <= |parent.elems|
    decreases parent, 0, |parent.elems| - i
  {
    if i == |parent.elems| then []
    else Prefixed(Index(i), Leaves(parent.elems[i])) + ElementLeaves(parent, i + 1)
  }

  function MemberLeaves(parent: Json, i: nat): seq<Leaf>
    requires parent.JObject? && i <= |parent.members|
    decreases parent, 0, |parent.members| - i
  {
    if i == |parent.members| then []
    else
      var m := parent.members[i];
      assert m.value < m < parent;
      Prefixed(Name(m.name), Leaves(m.value)) + MemberLeaves(parent, i + 1)
  }

  /** The leaves of a child, seen from its parent. */
  function Prefixed(s: Step, ls: seq<Leaf>): (r: seq<Leaf>)
    ensures |r| == |ls|
    ensures forall j :: 0 <= j < |ls| ==> r[j] == Leaf([s] + ls[j].path, ls[j].value)
  {
    if ls == [] then [] else [Leaf([s] + ls[0].path, ls[0].value)] + Prefixed(s, ls[1..])
  }

  /** The key the code builds for a path below `key`: names are joined with `.`, indices only add the `.`. */
  function Render(key: string, path: seq<Step>): string
    decreases |path|
  {
    if path == [] then key
    else
      match path[0]
      case Name(n) => Render(MemberKey(key, n), path[1..])
      case Index(_) => Render(ElementKey(key), path[1..])
  }

  /** Writing the leaves into a map one after the other. */
  function Apply(items: Items, key: string, ls: seq<Leaf>): Items
    decreases |ls|
  {
    if ls == [] then items else Apply(items[Render(key, ls[0].path) := ls[0].value], key, ls[1..])
  }

  /** The keys the leaves are written at. */
  function LeafKeys(key: string, ls: seq<Leaf>): set<string> {
    set j | 0 <= j < |ls| :: Render(key, ls[j].path)
  }

  lemma {:induction false} ApplyAppend(items: Items, key: string, a: seq<Leaf>, b: seq<Leaf>)
    ensures Apply(items, key, a + b) == Apply(Apply(items, key, a), key, b)
    decreases |a|
  {
    if a == [] {
      assert a + b == b;
    } else {
      assert (a + b)[0] == a[0] && (a + b)[1..] == a[1..] + b;
      ApplyAppend(items[Render(key, a[0].path) := a[0].value], key, a[1..], b);
    }
  }

  function StepKey(key: string, s: Step): string {
    match s
    case Name(n) => MemberKey(key, n)
    case Index(_) => ElementKey(key)
  }

  lemma {:induction false} ApplyPrefixed(items: Items, key: string, s: Step, ls: seq<Leaf>)
    ensures Apply(items, key, Prefixed(s, ls)) == Apply(items, StepKey(key, s), ls)
    decreases |ls|
  {
    if ls != [] {
      var p := Prefixed(s, ls);
      assert p[0] == Leaf([s] + ls[0].path, ls[0].value);
      assert ([s] + ls[0].path)[1..] == ls[0].path;
      assert Render(key, p[0].path) == Render(StepKey(key, s), ls[0].path);
      assert p[1..] == Prefixed(s, ls[1..]);
      ApplyPrefixed(items[Render(key, p[0].path) := p[0].value], key, s, ls[1..]);
    }
  }

  /**
   * Flattening writes the tree's leaves, depth first and in order, each at the key
   * its path renders to.
   */
  lemma {:induction false} FlattenIsApply(v: Json, key: string, items: Items)
    ensures FlattenInto(v, key, items) == Apply(items, key, Leaves(v))
    decreases v, 1
  {
    match v
    case JArray(_) => ElementsIsApply(v, 0, key, items);
    case JObject(_) => MembersIsApply(v, 0, key, items);
    case _ =>
      assert Leaves(v)[1..] == [];
  }

  lemma {:induction false} ElementsIsApply(parent: Json, i: nat, key: string, items: Items)
    requires parent.JArray? && i <= |parent.elems|
    ensures FlattenElements(parent, i, key, items) == Apply(items, key, ElementLeaves(parent, i))
    decreases parent, 0, |parent.elems| - i
  {
    if i < |parent.elems| {
      var e := parent.elems[i];
      var mid := FlattenInto(e, ElementKey(key), items);
      FlattenIsApply(e, ElementKey(key), items);
      ElementsIsApply(parent, i + 1, key, mid);
      ApplyPrefixed(items, key, Index(i), Leaves(e));
      ApplyAppend(items, key, Prefixed(Index(i), Leaves(e)), ElementLeaves(parent, i + 1));
    }
  }

  lemma {:induction false} MembersIsApply(parent: Json, i: nat, key: string, items: Items)
    requires parent.JObject? && i <= |parent.members|
    ensures FlattenMembers(parent, i, key, items) == Apply(items, key, MemberLeaves(parent, i))
    decreases parent, 0, |parent.members| - i
  {
    if i < |parent.members| {
      var m := parent.members[i];
      assert m.value < m < parent;
      var mid := FlattenInto(m.value, MemberKey(key, m.name), items);
      FlattenIsApply(m.value, MemberKey(key, m.name), items);
      MembersIsApply(parent, i + 1, key, mid);
      ApplyPrefixed(items, key, Name(m.name), Leaves(m.value));
      ApplyAppend(items, key, Prefixed(Name(m.name), Leaves(m.value)), MemberLeaves(parent, i + 1));
    }
  }

  /** Writing leaves adds exactly their keys to the map. */
  lemma {:induction false} ApplyKeys(items: Items, key: string, ls: seq<Leaf>)
    ensures Apply(items, key, ls).Keys == items.Keys + LeafKeys(key, ls)
    decreases |ls|
  {
    if ls != [] {
      var k := Render(key, ls[0].path);
      ApplyKeys(items[k := ls[0].value], key, ls[1..]);
      assert LeafKeys(key, ls) == {k} + LeafKeys(key, ls[1..]) by {
        forall x | x in LeafKeys(key, ls) ensures x in {k} + LeafKeys(key, ls[1..]) {
          var j :| 0 <= j < |ls| && x == Render(key, ls[j].path);
          if j > 0 {
            assert ls[1..][j - 1] == ls[j];
          }
        }
        forall x | x in LeafKeys(key, ls[1..]) ensures x in LeafKeys(key, ls) {
          var j :| 0 <= j < |ls[1..]| && x == Render(key, ls[1..][j].path);
          assert ls[1..][j] == ls[j + 1];
        }
      }
    }
  }

  /** The last leaf written at a key is the one whose value the key holds. */
  lemma {:induction false} ApplyLastWins(items: Items, key: string, ls: seq<Leaf>, j: nat)
    requires j < |ls|
    requires forall l :: j < l < |ls| ==> Render(key, ls[l].path) != Render(key, ls[j].path)
    ensures Render(key, ls[j].path) in Apply(items, key, ls)
    ensures Apply(items, key, ls)[Render(key, ls[j].path)] == ls[j].value
    decreases |ls|
  {
    if j == 0 {
      ApplyUntouched(items[Render(key, ls[0].path) := ls[0].value], key, ls[1..], Render(key, ls[0].path));
    } else {
      forall l | j - 1 < l < |ls[1..]|
        ensures Render(key, ls[1..][l].path) != Render(key, ls[1..][j - 1].path)
      {
        assert ls[1..][l] == ls[l + 1];
      }
      ApplyLastWins(items[Render(key, ls[0].path) := ls[0].value], key, ls[1..], j - 1);
    }
  }

  /** A key no leaf renders to keeps its value. */
  lemma {:induction false} ApplyUntouched(items: Items, key: string, ls: seq<Leaf>, k: string)
    requires k in items
    requires forall l :: 0 <= l < |ls| ==> Render(key, ls[l].path) != k
    ensures k in Apply(items, key, ls) && Apply(items, key, ls)[k] == items[k]
    decreases |ls|
  {
    if ls != [] {
      forall l | 0 <= l < |ls[1..]| ensures Render(key, ls[1..][l].path) != k {
        assert ls[1..][l] == ls[l + 1];
      }
      ApplyUntouched(items[Render(key, ls[0].path) := ls[0].value], key, ls[1..], k);
    }
  }

  /**
   * Each leaf of a record's value is found at its rendered path, unless a later
   * leaf renders to the same path and overwrites it.
   */
  lemma FlattenedLastLeaf(v: Json, j: nat)
    requires j < |Leaves(v)|
    requires forall l :: j < l < |Leaves(v)| ==> Render("", Leaves(v)[l].path) != Render("", Leaves(v)[j].path)
    ensures Render("", Leaves(v)[j].path) in Flattened(v)
    ensures Flattened(v)[Render("", Leaves(v)[j].path)] == Leaves(v)[j].value
  {
    FlattenIsApply(v, "", map[]);
    ApplyLastWins(map[], "", Leaves(v), j);
  }

  /** An index step renders like any other index: the index never reaches the key. */
  lemma RenderIgnoresIndex(key: string, before: seq<Step>, i: nat, j: nat, after: seq<Step>)
    ensures Render(key, before + [Index(i)] + after) == Render(key, before + [Index(j)] + after)
  {
    RenderAppend(key, before, [Index(i)] + after);
    RenderAppend(key, before, [Index(j)] + after);
    assert before + [Index(i)] + after == before + ([Index(i)] + after);
    assert before + [Index(j)] + after == before + ([Index(j)] + after);
    assert ([Index(i)] + after)[1..] == after == ([Index(j)] + after)[1..];
  }

  lemma {:induction false} RenderAppend(key: string, a: seq<Step>, b: seq<Step>)
    ensures Render(key, a + b) == Render(Render(key, a), b)
    decreases |a|
  {
    if a == [] {
      assert a + b == b;
    } else {
      assert (a + b)[0] == a[0] && (a + b)[1..] == a[1..] + b;
      RenderAppend(StepKey(key, a[0]), a[1..], b);
    }
  }

  /** Every scalar element of an array is written at `ElementKey(key)`, so the last one wins. */
  lemma {:induction false} ScalarArrayLastWins(parent: Json, i: nat, key: string, items: Items)
    requires parent.JArray? && i < |parent.elems|
    requires forall e :: e in parent.elems ==> IsScalar(e)
    ensures FlattenElements(parent, i, key, items)
            == items[ElementKey(key) := ScalarItem(parent.elems[|parent.elems| - 1])]
    decreases |parent.elems| - i
  {
    var e := parent.elems[i];
    assert e in parent.elems;
    var next := items[ElementKey(key) := ScalarItem(e)];
    if i + 1 < |parent.elems| {
      ScalarArrayLastWins(parent, i + 1, key, next);
    }
  }

  /** Two arrays of scalars with the same last element flatten alike, at the root and below. */
  lemma ScalarArrayExample()
    ensures Flattened(JArray([JNumber(PosInt(1)), JNumber(PosInt(2))])) == map["" := Integer(2)]
    ensures Flattened(JObject([Member("a", JArray([JBool(true), JNull]))])) == map["a." := Null]
  {
    var a := JArray([JNumber(PosInt(1)), JNumber(PosInt(2))]);
    ScalarArrayLastWins(a, 0, "", map[]);
    var inner := JArray([JBool(true), JNull]);
    ScalarArrayLastWins(inner, 0, "a", map[]);
    var o := JObject([Member("a", inner)]);
    assert MemberKey("", "a") == "a";
    assert ElementKey("a") == "a.";
    assert FlattenInto(inner, "a", map[]) == map["a." := Null];
    assert FlattenInto(o, "", map[]) == FlattenMembers(o, 1, "", FlattenInto(inner, "a", map[]));
  }
}
