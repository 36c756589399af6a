/**
  Python's ordering of `str` values (code point by code point, a proper
  prefix first) and the ascending key order that `sorted` gives a dictionary.
*/
module Ordering {

  /** Python's `a < b` on strings; no string is less than itself. */
  function StrLess(a: string, b: string): (less: bool)
    ensures less ==> a != b
  {
    if a == [] then b != []
    else if b == [] then false
    else a[0] < b[0] || (a[0] == b[0] && StrLess(a[1..], b[1..]))
  }

  lemma {:induction false} StrLessTransitive(a: string, b: string, c: string)
    requires StrLess(a, b) && StrLess(b, c)
    ensures StrLess(a, c)
  {
    if a != [] && a[0] == b[0] && b[0] == c[0] {
      StrLessTransitive(a[1..], b[1..], c[1..]);
    }
  }

  lemma {:induction false} StrLessTotal(a: string, b: string)
    requires a != b
    ensures StrLess(a, b) || StrLess(b, a)
  {
    if a != [] && b != [] && a[0] == b[0] {
      assert a == [a[0]] + a[1..] && b == [b[0]] + b[1..];
      StrLessTotal(a[1..], b[1..]);
    }
  }

  lemma StrLessAsymmetric(a: string, b: string)
    requires StrLess(a, b)
    ensures !StrLess(b, a)
  {
    if StrLess(b, a) {
      StrLessTransitive(a, b, a);
    }
  }

  /** `k` is the smallest member of `keys`. */
  predicate IsLeast(k: string, keys: set<string>) {
    k in keys && forall y :: y in keys && y != k ==> StrLess(k, y)
  }

  lemma {:induction false} LeastExists(keys: set<string>)
    requires keys != {}
    ensures exists k :: IsLeast(k, keys)
  {
    var x :| x in keys;
    if keys != {x} {
      LeastExists(keys - {x});
      var m :| IsLeast(m, keys - {x});
      if StrLess(m, x) {
        forall y | y in keys && y != m ensures StrLess(m, y) {
          if y == x { } else { assert y in keys - {x}; }
        }
        assert IsLeast(m, keys);
      } else {
        StrLessTotal(m, x);
        forall y | y in keys && y != x ensures StrLess(x, y) {
          if y != m {
            assert y in keys - {x};
            StrLessTransitive(x, m, y);
          }
        }
        assert IsLeast(x, keys);
      }
    } else {
      assert IsLeast(x, keys);
    }
  }

  /** The smallest member of a non-empty set of strings. */
  function Least(keys: set<string>): (k: string)
    requires keys != {}
    ensures IsLeast(k, keys)
  {
    LeastExists(keys);
    LeastUnique(keys);
    var k :| IsLeast(k, keys); k
  }

  lemma LeastUnique(keys: set<string>)
    ensures forall a, b :: IsLeast(a, keys) && IsLeast(b, keys) ==> a == b
  {
    forall a, b | IsLeast(a, keys) && IsLeast(b, keys) ensures a == b {
      if a != b {
        StrLessAsymmetric(a, b);
      }
    }
  }

  /** Strictly ascending in Python's string order. */
  predicate Ascending(s: seq<string>) {
    forall i, j :: 0 <= i < j < |s| ==> StrLess(s[i], s[j])
  }

  /** The members of `keys` in ascending order, as `sorted` lists a dictionary's keys. */
  function SortedKeys(keys: set<string>): (r: seq<string>)
    ensures |r| == |keys|
    ensures forall k :: k in r <==> k in keys
    ensures Ascending(r)
    decreases |keys|
  {
    if keys == {} then []
    else
      var k := Least(keys);
      var rest := SortedKeys(keys - {k});
      assert forall j :: 0 <= j < |rest| ==> StrLess(k, rest[j]) by {
        forall j | 0 <= j < |rest| ensures StrLess(k, rest[j]) {
          assert rest[j] in keys - {k};
        }
      }
      [k] + rest
  }
}
