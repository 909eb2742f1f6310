/** Python's ordering of strings (code point by code point, a proper prefix
    first) and `sorted` applied to a set of strings. */
module StringOrder {

  /** `a <= b` in Python: compare the first code points; on a tie, compare the rests;
      the empty string is below everything. */
  predicate Below(a: string, b: string)
    decreases |a|
  {
    |a| == 0 || (|b| > 0 && (a[0] < b[0] || (a[0] == b[0] && Below(a[1..], b[1..]))))
  }

  /** `a < b` in Python. */
  predicate Less(a: string, b: string) {
    Below(a, b) && a != b
  }

  lemma {:induction false} BelowReflexive(a: string)
    ensures Below(a, a)
    decreases |a|
  {
    if |a| > 0 {
      BelowReflexive(a[1..]);
    }
  }

  lemma {:induction false} BelowAntisymmetric(a: string, b: string)
    requires Below(a, b) && Below(b, a)
    ensures a == b
    decreases |a|
  {
    if |a| > 0 && |b| > 0 {
      BelowAntisymmetric(a[1..], b[1..]);
      assert a == [a[0]] + a[1..];
      assert b == [b[0]] + b[1..];
    }
  }

  lemma {:induction false} BelowTransitive(a: string, b: string, c: string)
    requires Below(a, b) && Below(b, c)
    ensures Below(a, c)
    decreases |a|
  {
    if |a| > 0 && a[0] == b[0] && b[0] == c[0] {
      BelowTransitive(a[1..], b[1..], c[1..]);
    }
  }

  lemma {:induction false} BelowTotal(a: string, b: string)
    ensures Below(a, b) || Below(b, a)
    decreases |a|
  {
    if |a| > 0 && |b| > 0 && a[0] == b[0] {
      BelowTotal(a[1..], b[1..]);
    }
  }

  lemma BelowAntisymmetry()
    ensures forall a, b :: Below(a, b) && Below(b, a) ==> a == b
  {
    forall a, b | Below(a, b) && Below(b, a)
      ensures a == b
    {
      BelowAntisymmetric(a, b);
    }
  }

  /** Every element is strictly below every later one: ascending and without repeats. */
  predicate StrictlySorted(s: seq<string>) {
    forall i, j :: 0 <= i < j < |s| ==> Less(s[i], s[j])
  }

  predicate IsSmallest(m: string, s: set<string>) {
    m in s && forall x :: x in s ==> Below(m, x)
  }

  lemma {:induction false} SmallestExists(s: set<string>)
    requires s != {}
    ensures exists m :: IsSmallest(m, s)
    decreases |s|
  {
    var x :| x in s;
    if s == {x} {
      BelowReflexive(x);
      assert IsSmallest(x, s);
    } else {
      var rest := s - {x};
      SmallestExists(rest);
      var m :| IsSmallest(m, rest);
      BelowTotal(x, m);
      if Below(x, m) {
        forall y | y in s
          ensures Below(x, y)
        {
          if y == x { BelowReflexive(x); } else { BelowTransitive(x, m, y); }
        }
        assert IsSmallest(x, s);
      } else {
        assert IsSmallest(m, s);
      }
    }
  }

  /** The least element of a non-empty set of strings. */
  function Smallest(s: set<string>): (m: string)
    requires s != {}
    ensures IsSmallest(m, s)
  {
    SmallestExists(s);
    BelowAntisymmetry();
    var m :| IsSmallest(m, s); m
  }

  /** `sorted(s)` for a set of strings: every element once, smallest first. */
  function SortedSet(s: set<string>): (r: seq<string>)
    ensures forall x :: x in r <==> x in s
    ensures |r| == |s|
    decreases |s|
  {
    if s == {} then []
    else
      var m := Smallest(s);
      [m] + SortedSet(s - {m})
  }

  /** `sorted` lists the set in ascending order without repeats. */
  lemma {:induction false} SortedSetIsSorted(s: set<string>)
    ensures StrictlySorted(SortedSet(s))
    decreases |s|
  {
    if s != {} {
      var m := Smallest(s);
      var rest := SortedSet(s - {m});
      SortedSetIsSorted(s - {m});
      var r := SortedSet(s);
      assert r == [m] + rest;
      forall i, j | 0 <= i < j < |r|
        ensures Less(r[i], r[j])
      {
        assert r[j] == rest[j - 1];
        assert r[j] in s - {m};
        if i > 0 {
          assert r[i] == rest[i - 1];
        }
      }
    }
  }

  lemma HeadIsMember(s: seq<string>)
    ensures |s| > 0 ==> s[0] in s
  {
  }

  /** A set has one strictly sorted enumeration only, so `sorted` does not depend
      on the order in which the set is iterated. */
  lemma {:induction false} SortedUnique(a: seq<string>, b: seq<string>)
    requires StrictlySorted(a) && StrictlySorted(b)
    requires forall x :: x in a <==> x in b
    ensures a == b
    decreases |a|
  {
    if |a| == 0 || |b| == 0 {
      if |a| != |b| {
        HeadIsMember(a);
        HeadIsMember(b);
        assert false;
      }
    } else {
      BelowReflexive(a[0]);
      BelowReflexive(b[0]);
      assert Below(a[0], b[0]) by {
        assert b[0] in a;
      }
      assert Below(b[0], a[0]) by {
        assert a[0] in b;
      }
      BelowAntisymmetric(a[0], b[0]);
      forall x
        ensures x in a[1..] <==> x in b[1..]
      {
        if x in a[1..] {
          assert x != a[0];
          assert x in b;
        }
        if x in b[1..] {
          assert x != b[0];
          assert x in a;
        }
      }
      SortedUnique(a[1..], b[1..]);
      assert a == [a[0]] + a[1..];
      assert b == [b[0]] + b[1..];
    }
  }
}
