/**
  The order SQLite's default BINARY collation puts text in: byte-wise
  comparison of the UTF-8 encoding, which for Unicode scalar values is the
  lexicographic order of code points, a proper prefix coming first.
 */
module ByteOrder {

  /** `a` sorts no later than `b`. */
  predicate NotAfter(a: string, b: string)
    decreases |a|
  {
    a == [] || (b != [] && (a[0] < b[0] || (a[0] == b[0] && NotAfter(a[1..], b[1..]))))
  }

  /** `a` sorts strictly before `b`. */
  predicate Before(a: string, b: string)
  {
    NotAfter(a, b) && a != b
  }

  /** Strictly ascending, hence free of duplicates. */
  predicate Ascending(s: seq<string>)
  {
    forall i, j :: 0 <= i < j < |s| ==> Before(s[i], s[j])
  }

  lemma {:induction false} NotAfterAntisymmetric(a: string, b: string)
    requires NotAfter(a, b) && NotAfter(b, a)
    ensures a == b
    decreases |a|
  {
    if a != [] {
      NotAfterAntisymmetric(a[1..], b[1..]);
      assert a == [a[0]] + a[1..] && b == [b[0]] + b[1..];
    }
  }

  lemma {:induction false} NotAfterTransitive(a: string, b: string, c: string)
    requires NotAfter(a, b) && NotAfter(b, c)
    ensures NotAfter(a, c)
    decreases |a|
  {
    if a != [] && b != [] && c != [] && a[0] == b[0] && b[0] == c[0] {
      NotAfterTransitive(a[1..], b[1..], c[1..]);
    }
  }

  lemma {:induction false} NotAfterTotal(a: string, b: string)
    ensures NotAfter(a, b) || NotAfter(b, a)
    decreases |a|
  {
    if a != [] && b != [] && a[0] == b[0] {
      NotAfterTotal(a[1..], b[1..]);
    }
  }

  predicate IsLeast(m: string, keys: set<string>)
  {
    m in keys && forall x :: x in keys ==> NotAfter(m, x)
  }

  lemma {:induction false} LeastExists(keys: set<string>)
    requires keys != {}
    ensures exists m :: IsLeast(m, keys)
    decreases keys
  {
    var x :| x in keys;
    if keys != {x} {
      var rest := keys - {x};
      LeastExists(rest);
      var m :| IsLeast(m, rest);
      NotAfterTotal(x, m);
      if NotAfter(x, m) {
        forall y | y in keys
          ensures NotAfter(x, y)
        {
          if y != x {
            NotAfterTransitive(x, m, y);
          } else {
            NotAfterReflexive(x);
          }
        }
        assert IsLeast(x, keys);
      } else {
        assert NotAfter(m, x);
        assert IsLeast(m, keys);
      }
    } else {
      NotAfterReflexive(x);
      assert IsLeast(x, keys);
    }
  }

  lemma {:induction false} NotAfterReflexive(a: string)
    ensures NotAfter(a, a)
    decreases |a|
  {
    if a != [] {
      NotAfterReflexive(a[1..]);
    }
  }

  lemma LeastUnique(keys: set<string>)
    ensures forall m, m' :: IsLeast(m, keys) && IsLeast(m', keys) ==> m == m'
  {
    forall m, m' | IsLeast(m, keys) && IsLeast(m', keys)
      ensures m == m'
    {
      NotAfterAntisymmetric(m, m');
    }
  }

  /** The elements of `keys`, each once, least first. */
  function Sorted(keys: set<string>): (r: seq<string>)
    ensures forall c :: c in r <==> c in keys
    ensures |r| == |keys|
    decreases keys
  {
    if keys == {} then []
    else
      LeastExists(keys);
      LeastUnique(keys);
      var m :| IsLeast(m, keys);
      [m] + Sorted(keys - {m})
  }

  /** `Sorted` lists the keys in strictly ascending order. */
  lemma {:induction false} SortedAscending(keys: set<string>)
    ensures Ascending(Sorted(keys))
    decreases keys
  {
    if keys != {} {
      LeastExists(keys);
      LeastUnique(keys);
      var m :| IsLeast(m, keys);
      var rest := Sorted(keys - {m});
      assert Sorted(keys) == [m] + rest;
      SortedAscending(keys - {m});
      forall c | c in rest
        ensures Before(m, c)
      {
        assert c in keys - {m};
      }
      AscendingCons(m, rest);
    }
  }

  lemma AscendingCons(m: string, rest: seq<string>)
    requires Ascending(rest)
    requires forall c :: c in rest ==> Before(m, c)
    ensures Ascending([m] + rest)
  {
    var s := [m] + rest;
    forall i, j | 0 <= i < j < |s|
      ensures Before(s[i], s[j])
    {
      assert s[j] == rest[j - 1];
      if i > 0 {
        assert s[i] == rest[i - 1];
      }
    }
  }
}
