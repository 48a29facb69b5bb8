/** Sequences without repetitions, for every kind of element. */
module Sequences {
  predicate NoRepeat<T(==)>(s: seq<T>) {
    s == [] || (NoRepeat(s[..|s| - 1]) && s[|s| - 1] !in s[..|s| - 1])
  }

  lemma {:induction false} NoRepeatApart<T>(s: seq<T>, i: nat, j: nat)
    requires NoRepeat(s) && i < j < |s|
    ensures s[i] != s[j]
  {
    if j < |s| - 1 {
      NoRepeatApart(s[..|s| - 1], i, j);
    } else {
      assert s[..|s| - 1][i] == s[i];
    }
  }

  lemma {:induction false} ApartNoRepeat<T>(s: seq<T>)
    requires forall i, j :: 0 <= i < j < |s| ==> s[i] != s[j]
    ensures NoRepeat(s)
  {
    if s != [] {
      ApartNoRepeat(s[..|s| - 1]);
    }
  }

  lemma {:induction false} NoRepeatConcat<T>(a: seq<T>, b: seq<T>)
    requires NoRepeat(a) && NoRepeat(b) && forall e :: e in b ==> e !in a
    ensures NoRepeat(a + b)
  {
    if b == [] {
      assert a + b == a;
    } else {
      NoRepeatConcat(a, b[..|b| - 1]);
      assert (a + b)[..|a + b| - 1] == a + b[..|b| - 1];
      assert b[|b| - 1] in b;
    }
  }

  lemma {:induction false} NoRepeatSnoc<T>(a: seq<T>, e: T)
    requires NoRepeat(a) && e !in a
    ensures NoRepeat(a + [e])
  {
    assert (a + [e])[..|a|] == a;
  }

  lemma {:induction false} RepeatStays<T>(a: seq<T>, b: seq<T>)
    requires !NoRepeat(a) || exists e :: e in a && e in b
    ensures !NoRepeat(a + b)
  {
    if b == [] {
      assert a + b == a;
    } else {
      var front, last := b[..|b| - 1], b[|b| - 1];
      assert (a + b)[..|a + b| - 1] == a + front;
      if NoRepeat(a) && forall e :: e in a ==> e !in front {
        assert last in a + front;
      } else {
        RepeatStays(a, front);
      }
    }
  }

  /** The same, read from the front. */
  lemma {:induction false} NoRepeatCons<T>(x: T, s: seq<T>)
    ensures NoRepeat([x] + s) <==> x !in s && NoRepeat(s)
  {
    if s == [] {
      assert [x] + s == [x] && [x][..0] == [];
    } else {
      var front, last := s[..|s| - 1], s[|s| - 1];
      NoRepeatCons(x, front);
      assert ([x] + s)[..|s|] == [x] + front;
      assert s == front + [last];
    }
  }

  lemma {:induction false} InMiddle<T>(a: seq<T>, b: seq<T>, c: seq<T>, e: T)
    requires e in b
    ensures e in a + b + c
  {
    assert e in a + b;
  }

  lemma SplitLast<T>(s: seq<T>)
    requires s != []
    ensures s == s[..|s| - 1] + [s[|s| - 1]]
  {
  }

  lemma TakeMore<T>(a: seq<T>, s: seq<T>, i: nat)
    requires i < |s|
    ensures s[..i + 1] == s[..i] + [s[i]]
    ensures a + s[..i + 1] == a + s[..i] + [s[i]]
  {
  }

  lemma TakeDrop<T>(a: seq<T>, s: seq<T>, i: nat)
    requires i <= |s|
    ensures a + s[..i] + s[i..] == a + s
  {
  }

  lemma {:induction false} Regroup<T>(a: seq<T>, b: seq<T>, c: seq<T>)
    ensures a + b + c == a + (b + c)
  {
  }
}
