/** The order in which Python sorts strings: by code points, a prefix first. */
module KeyOrder {
  predicate Less(a: string, b: string) {
    b != [] && (a == [] || a[0] < b[0] || (a[0] == b[0] && Less(a[1..], b[1..])))
  }

  lemma {:induction false} LessIsTotal(a: string, b: string)
    ensures a == b || Less(a, b) || Less(b, a)
  {
    if a != [] && b != [] && a[0] == b[0] {
      LessIsTotal(a[1..], b[1..]);
      assert a == [a[0]] + a[1..] && b == [b[0]] + b[1..];
    }
  }

  lemma {:induction false} LessIsTransitive(a: string, b: string, c: string)
    requires Less(a, b) && Less(b, c)
    ensures Less(a, c)
  {
    if a != [] && a[0] == b[0] && b[0] == c[0] {
      LessIsTransitive(a[1..], b[1..], c[1..]);
    }
  }

  lemma {:induction false} LessIsStrict(a: string)
    ensures !Less(a, a)
  {
    if a != [] {
      LessIsStrict(a[1..]);
    }
  }

  predicate IsLeast(k: string, keys: set<string>) {
    k in keys && forall x :: x in keys && x != k ==> Less(k, x)
  }

  lemma {:induction false} LeastExists(keys: set<string>)
    requires keys != {}
    ensures exists k :: IsLeast(k, keys)
  {
    var x :| x in keys;
    var rest := keys - {x};
    if rest == {} {
      assert keys == {x};
      assert IsLeast(x, keys);
    } else {
      LeastExists(rest);
      var k :| IsLeast(k, rest);
      LessIsTotal(x, k);
      if Less(x, k) {
        forall y | y in keys && y != x
          ensures Less(x, y)
        {
          if y != k {
            LessIsTransitive(x, k, y);
          }
        }
        assert IsLeast(x, keys);
      } else {
        assert IsLeast(k, keys);
      }
    }
  }

  lemma {:induction false} LeastIsUnique(keys: set<string>, x: string, y: string)
    requires IsLeast(x, keys) && IsLeast(y, keys)
    ensures x == y
  {
    if x != y {
      LessIsTransitive(x, y, x);
      LessIsStrict(x);
    }
  }

  /** The key that sorts first. */
  function Least(keys: set<string>): (k: string)
    requires keys != {}
    ensures IsLeast(k, keys)
  {
    LeastExists(keys);
    assert forall x, y :: IsLeast(x, keys) && IsLeast(y, keys) ==> x == y by {
      forall x, y | IsLeast(x, keys) && IsLeast(y, keys)
        ensures x == y
      {
        LeastIsUnique(keys, x, y);
      }
    }
    var k :| k in keys && IsLeast(k, keys);
    k
  }
}
