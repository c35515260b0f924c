/**
 * The order of Rust's `String`/`str` (`Ord for str`), and the ascending key order in
 * which a `BTreeMap<String, _>` is iterated.
 */
module Order {
  import opened Base

  /**
   * `Ord for str`: lexicographic on bytes. UTF-8 keeps the order of code points, so
   * this is lexicographic on the characters; a proper prefix comes first.
   */
  function CmpString(a: string, b: string): Ordering
  {
    if a == [] && b == [] then Equal
    else if a == [] then Less
    else if b == [] then Greater
    else if a[0] < b[0] then Less
    else if a[0] > b[0] then Greater
    else CmpString(a[1..], b[1..])
  }

  lemma {:induction false} CmpStringEqual(a: string, b: string)
    ensures CmpString(a, b) == Equal <==> a == b
  {
    if a != [] && b != [] && a[0] == b[0] {
      CmpStringEqual(a[1..], b[1..]);
      assert a == [a[0]] + a[1..] && b == [b[0]] + b[1..];
    }
  }

  lemma {:induction false} CmpStringReverse(a: string, b: string)
    ensures CmpString(b, a) == CmpString(a, b).Reverse()
  {
    if a != [] && b != [] && a[0] == b[0] {
      CmpStringReverse(a[1..], b[1..]);
    }
  }

  lemma {:induction false} CmpStringTransitive(a: string, b: string, c: string)
    requires CmpString(a, b) == Less && CmpString(b, c) == Less
    ensures CmpString(a, c) == Less
  {
    if a != [] && b != [] && c != [] && a[0] == b[0] && b[0] == c[0] {
      CmpStringTransitive(a[1..], b[1..], c[1..]);
    }
  }

  /** Strings compared with `<=`. */
  predicate StrLe(a: string, b: string) {
    CmpString(a, b) != Greater
  }

  predicate IsLeast(x: string, s: set<string>) {
    x in s && forall y :: y in s ==> StrLe(x, y)
  }

  lemma {:induction false} LeastExists(s: set<string>)
    requires s != {}
    ensures exists x :: IsLeast(x, s)
    decreases |s|
  {
    var y :| y in s;
    if s == {y} {
      CmpStringEqual(y, y);
      assert IsLeast(y, s);
    } else {
      var rest := s - {y};
      LeastExists(rest);
      var x :| IsLeast(x, rest);
      CmpStringReverse(x, y);
      if StrLe(x, y) {
        assert IsLeast(x, s);
      } else {
        forall z | z in s ensures StrLe(y, z) {
          assert CmpString(y, x) == Less;
          if z == y {
            CmpStringEqual(y, y);
          } else if CmpString(x, z) == Less {
            CmpStringTransitive(y, x, z);
          } else {
            assert z in rest && StrLe(x, z);
            CmpStringEqual(x, z);
          }
        }
        assert IsLeast(y, s);
      }
    }
  }

  lemma LeastUnique(x: string, y: string, s: set<string>)
    requires IsLeast(x, s) && IsLeast(y, s)
    ensures x == y
  {
    CmpStringReverse(x, y);
    CmpStringEqual(x, y);
  }

  ghost function Least(s: set<string>): (x: string)
    requires s != {}
    ensures IsLeast(x, s)
  {
    LeastExists(s);
    var x :| IsLeast(x, s); x
  }

  /** The keys of a `BTreeMap<String, _>` in iteration order: ascending. */
  ghost function KeysAscending(s: set<string>): seq<string>
    decreases |s|
  {
    if s == {} then [] else [Least(s)] + KeysAscending(s - {Least(s)})
  }

  /** The iteration order lists every key exactly once, in strictly ascending order. */
  lemma {:induction false} KeysAscendingFacts(s: set<string>)
    ensures |KeysAscending(s)| == |s|
    ensures forall x :: x in KeysAscending(s) <==> x in s
    ensures forall i, j :: 0 <= i < j < |KeysAscending(s)| ==>
              CmpString(KeysAscending(s)[i], KeysAscending(s)[j]) == Less
    decreases |s|
  {
    if s != {} {
      var m := Least(s);
      var rest := KeysAscending(s - {m});
      KeysAscendingFacts(s - {m});
      var r := KeysAscending(s);
      assert r == [m] + rest;
      forall i, j | 0 <= i < j < |r| ensures CmpString(r[i], r[j]) == Less {
        if i == 0 {
          assert r[j] == rest[j - 1] && rest[j - 1] in rest;
          assert r[j] in s - {m};
          CmpStringEqual(m, r[j]);
        } else {
          assert r[i] == rest[i - 1] && r[j] == rest[j - 1];
        }
      }
    }
  }

  /** Iterating from a least remaining key is iterating in ascending order. */
  lemma KeysAscendingFirst(s: set<string>, x: string)
    requires IsLeast(x, s)
    ensures KeysAscending(s) == [x] + KeysAscending(s - {x})
  {
    LeastUnique(x, Least(s), s);
  }
}
