/**
 * The default order of `Array.prototype.sort`, used on the region codes
 * before they are listed: strings compared character by character, a
 * proper prefix first.
 */
module KeyOrder {
  /** `a` sorts strictly before `b`. */
  predicate Less(a: string, b: string)
    decreases |a|
  {
    if a == [] then b != []
    else b != [] && (a[0] < b[0] || (a[0] == b[0] && Less(a[1..], b[1..])))
  }

  /** No string sorts before itself. */
  lemma {:induction false} LessIrreflexive(a: string)
    ensures !Less(a, a)
    decreases |a|
  {
    if a != [] {
      LessIrreflexive(a[1..]);
    }
  }

  /** The order is transitive. */
  lemma {:induction false} LessTransitive(a: string, b: string, c: string)
    requires Less(a, b) && Less(b, c)
    ensures Less(a, c)
    decreases |a|
  {
    if a != [] && a[0] == b[0] && b[0] == c[0] {
      LessTransitive(a[1..], b[1..], c[1..]);
    }
  }

  /** Any two different strings are ordered one way or the other. */
  lemma {:induction false} LessTotal(a: string, b: string)
    ensures a == b || Less(a, b) || Less(b, a)
    decreases |a|
  {
    if a != [] && b != [] && a[0] == b[0] {
      LessTotal(a[1..], b[1..]);
      if a[1..] == b[1..] {
        assert a == [a[0]] + a[1..] && b == [b[0]] + b[1..];
      }
    }
  }

  /** `m` is the member of `keys` that sorts before all the others. */
  predicate IsLeast(m: string, keys: set<string>) {
    m in keys && forall x :: x in keys && x != m ==> Less(m, x)
  }

  /** A non-empty set of strings has a least member. */
  lemma {:induction false} LeastExists(keys: set<string>)
    requires keys != {}
    ensures exists m :: IsLeast(m, keys)
    decreases keys
  {
    var y :| y in keys;
    if keys != {y} {
      var others := keys - {y};
      LeastExists(others);
      var m :| IsLeast(m, others);
      LessTotal(y, m);
      if Less(y, m) {
        forall x | x in keys && x != y ensures Less(y, x) {
          if x != m {
            LessTransitive(y, m, x);
          }
        }
        assert IsLeast(y, keys);
      } else {
        assert IsLeast(m, keys);
      }
    } else {
      assert IsLeast(y, keys);
    }
  }

  /** There is only one least member. */
  lemma LeastUnique(m: string, m': string, keys: set<string>)
    requires IsLeast(m, keys) && IsLeast(m', keys)
    ensures m == m'
  {
    if m != m' {
      assert Less(m, m') && Less(m', m);
      LessTransitive(m, m', m);
      LessIrreflexive(m);
    }
  }

  /** Every string of `r` sorts strictly before every later one. */
  predicate IsSorted(r: seq<string>) {
    forall i, j :: 0 <= i < j < |r| ==> Less(r[i], r[j])
  }

  /** `Object.keys(...).sort()`: the keys, each once, in ascending order. */
  function SortedKeys(keys: set<string>): (r: seq<string>)
    ensures IsSorted(r)
    ensures forall x :: x in r <==> x in keys
    ensures |r| == |keys|
    decreases keys
  {
    if keys == {} then []
    else
      LeastExists(keys);
      assert forall m, m' :: IsLeast(m, keys) && IsLeast(m', keys) ==> m == m' by {
        forall m, m' | IsLeast(m, keys) && IsLeast(m', keys) ensures m == m' {
          LeastUnique(m, m', keys);
        }
      }
      var m :| IsLeast(m, keys);
      [m] + SortedKeys(keys - {m})
  }
}
