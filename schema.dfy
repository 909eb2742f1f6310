/** Rows, tables and the rule that orders a table's columns: the three fixed
    columns, then the CCI columns that occur (in their declared order), then
    every name that is not a CCI name, the fixed names again among them, in
    ascending order. */
module Schema {
  import opened Values
  import opened StringOrder

  /** One flattened element: column name to value. */
  type Row = map<string, Value>

  /** A per-file table: its header and its rows. */
  datatype Table = Table(columns: seq<string>, rows: seq<Row>)

  const Fixed: seq<string> := ["GlobalId", "Name", "Type"]

  /** CCI_COLUMNS: the composite-identifier columns and their components. */
  const Cci: seq<string> := [
    "CCILevel1ParentLocationID", "CCILevel1ParentTypeID",
    "CCILevel2ParentLocationID", "CCILevel2ParentTypeID",
    "CCILocationID", "CCIMultiLevelLocationID", "CCIMultiLevelTypeID"
  ]

  /** `set(CCI_COLUMNS)`. */
  function CciNames(): (names: set<string>)
    ensures forall c :: c in names <==> c in Cci
  {
    {
      "CCILevel1ParentLocationID", "CCILevel1ParentTypeID",
      "CCILevel2ParentLocationID", "CCILevel2ParentTypeID",
      "CCILocationID", "CCIMultiLevelLocationID", "CCIMultiLevelTypeID"
    }
  }

  predicate Distinct(xs: seq<string>) {
    forall i, j :: 0 <= i < j < |xs| ==> xs[i] != xs[j]
  }

  lemma CciDistinct()
    ensures Distinct(Cci) && Distinct(Fixed)
    ensures forall f :: f in Fixed ==> f !in Cci
  {
  }

  /** Position of the first occurrence of `x` in `xs` (`xs.index(x)`), or `|xs|`
      when there is none. */
  function Rank(xs: seq<string>, x: string): (k: nat)
    ensures k <= |xs|
    ensures x in xs ==> k < |xs| && xs[k] == x
  {
    if xs == [] then 0 else if xs[0] == x then 0 else 1 + Rank(xs[1..], x)
  }

  /** `[c for c in xs if c in keys]`. */
  function Present(xs: seq<string>, keys: set<string>): (r: seq<string>)
    ensures forall x :: x in r <==> x in xs && x in keys
    ensures |r| <= |xs|
  {
    if xs == [] then []
    else (if xs[0] in keys then [xs[0]] else []) + Present(xs[1..], keys)
  }

  lemma DistinctTail(xs: seq<string>)
    requires Distinct(xs) && xs != []
    ensures Distinct(xs[1..]) && xs[0] !in xs[1..]
  {
    var tail := xs[1..];
    forall i, j | 0 <= i < j < |tail|
      ensures tail[i] != tail[j]
    {
      assert tail[i] == xs[i + 1] && tail[j] == xs[j + 1];
    }
  }

  predicate RankIncreasing(xs: seq<string>, r: seq<string>) {
    forall i, j :: 0 <= i < j < |r| ==> Rank(xs, r[i]) < Rank(xs, r[j])
  }

  /** Ranks in `xs[1..]` are one less than ranks in `xs` for names other than `xs[0]`. */
  lemma RankShift(xs: seq<string>, rest: seq<string>)
    requires xs != [] && xs[0] !in rest
    requires RankIncreasing(xs[1..], rest)
    ensures RankIncreasing(xs, rest)
    ensures forall k :: 0 <= k < |rest| ==> Rank(xs, rest[k]) > 0
  {
    forall k | 0 <= k < |rest|
      ensures Rank(xs, rest[k]) == 1 + Rank(xs[1..], rest[k])
    {
    }
  }

  lemma RankCons(xs: seq<string>, rest: seq<string>)
    requires xs != [] && RankIncreasing(xs, rest)
    requires forall k :: 0 <= k < |rest| ==> Rank(xs, rest[k]) > 0
    ensures RankIncreasing(xs, [xs[0]] + rest)
  {
    var r := [xs[0]] + rest;
    forall i, j | 0 <= i < j < |r|
      ensures Rank(xs, r[i]) < Rank(xs, r[j])
    {
      assert r[j] == rest[j - 1];
      if i > 0 {
        assert r[i] == rest[i - 1];
      }
    }
  }

  /** The comprehension keeps the order of the list it walks. */
  lemma {:induction false} PresentKeepsOrder(xs: seq<string>, keys: set<string>)
    requires Distinct(xs)
    ensures RankIncreasing(xs, Present(xs, keys))
  {
    if xs != [] {
      DistinctTail(xs);
      PresentKeepsOrder(xs[1..], keys);
      var rest := Present(xs[1..], keys);
      RankShift(xs, rest);
      if xs[0] in keys {
        RankCons(xs, rest);
        assert Present(xs, keys) == [xs[0]] + rest;
      } else {
        assert Present(xs, keys) == rest;
      }
    }
  }

  lemma JoinParts(a: seq<string>, b: seq<string>, c: seq<string>)
    ensures var r := a + b + c;
      && |r| == |a| + |b| + |c| && r[..|a|] == a
      && forall x :: x in r <==> x in a || x in b || x in c
  {
    assert a + b + c == a + (b + c);
  }

  /** The final column list of a table whose rows use the column names `keys`
      (lines 68-70 and 131-133 of the source): only the CCI names are taken out
      before sorting, so the fixed names present in `keys` are sorted in again. */
  function FinalColumns(keys: set<string>): (r: seq<string>)
    ensures |r| == 3 + |Present(Cci, keys)| + |keys - CciNames()|
    ensures forall c :: c in r <==> c in Fixed || c in keys
    ensures r[..3] == Fixed
  {
    var present, others := Present(Cci, keys), SortedSet(keys - CciNames());
    JoinParts(Fixed, present, others);
    Fixed + present + others
  }

  /** The middle of `prefix + Present(xs, keys) + rest` lists the names of `xs`
      that are in `keys`, in the order of `xs`. */
  lemma MiddlePart(prefix: seq<string>, xs: seq<string>, keys: set<string>, rest: seq<string>)
    requires Distinct(xs)
    ensures var r, m := prefix + Present(xs, keys) + rest, |Present(xs, keys)|;
      && (forall c :: c in r[|prefix|..|prefix| + m] <==> c in xs && c in keys)
      && (forall i, j :: |prefix| <= i < j < |prefix| + m ==> Rank(xs, r[i]) < Rank(xs, r[j]))
  {
    var present := Present(xs, keys);
    var r := prefix + present + rest;
    var n := |prefix|;
    assert r[n..n + |present|] == present;
    PresentKeepsOrder(xs, keys);
    assert RankIncreasing(xs, present);
    forall i, j | n <= i < j < n + |present|
      ensures Rank(xs, r[i]) < Rank(xs, r[j])
    {
      assert r[i] == present[i - n] && r[j] == present[j - n];
    }
  }

  lemma CciPart(keys: set<string>)
    ensures var r, m := FinalColumns(keys), |Present(Cci, keys)|;
      && 3 + m <= |r|
      && (forall c :: c in r[3..3 + m] <==> c in CciNames() && c in keys)
      && (forall i, j :: 3 <= i < j < 3 + m ==> Rank(Cci, r[i]) < Rank(Cci, r[j]))
  {
    CciDistinct();
    MiddlePart(Fixed, Cci, keys, SortedSet(keys - CciNames()));
  }

  lemma SortedPart(keys: set<string>)
    ensures var r, m := FinalColumns(keys), |Present(Cci, keys)|;
      && 3 + m <= |r|
      && StrictlySorted(r[3 + m..])
      && (forall c :: c in r[3 + m..] <==> c in keys && c !in CciNames())
  {
    var r := FinalColumns(keys);
    assert r[3 + |Present(Cci, keys)|..] == SortedSet(keys - CciNames());
    SortedSetIsSorted(keys - CciNames());
  }

  /** The three parts of the column list: the fixed columns; exactly the CCI
      columns present, in CCI_COLUMNS order; every other name in `keys`, the
      fixed ones included, in ascending order. */
  lemma ColumnLayout(keys: set<string>)
    ensures var r, m := FinalColumns(keys), |Present(Cci, keys)|;
      && r[..3] == Fixed
      && (forall c :: c in r[3..3 + m] <==> c in CciNames() && c in keys)
      && (forall i, j :: 3 <= i < j < 3 + m ==> Rank(Cci, r[i]) < Rank(Cci, r[j]))
      && StrictlySorted(r[3 + m..])
      && (forall c :: c in r[3 + m..] <==> c in keys && c !in CciNames())
  {
    CciPart(keys);
    SortedPart(keys);
  }

  lemma SortedDistinct(s: seq<string>)
    requires StrictlySorted(s)
    ensures Distinct(s)
  {
    forall i, j | 0 <= i < j < |s|
      ensures s[i] != s[j]
    {
      assert Less(s[i], s[j]);
    }
  }

  lemma DistinctJoin(a: seq<string>, b: seq<string>)
    requires Distinct(a) && Distinct(b)
    requires forall x :: x in a ==> x !in b
    ensures Distinct(a + b)
  {
    var r := a + b;
    forall i, j | 0 <= i < j < |r|
      ensures r[i] != r[j]
    {
      if i < |a| && j >= |a| {
        assert r[i] in a && r[j] == b[j - |a|];
      }
    }
  }

  /** `set().union(*(row.keys() for row in rows))`. */
  function KeysOf(rows: seq<Row>): (keys: set<string>)
    ensures forall k :: k in keys <==> exists i :: 0 <= i < |rows| && k in rows[i]
  {
    if rows == [] then {}
    else
      var prefix := rows[..|rows| - 1];
      var keys := KeysOf(prefix) + rows[|rows| - 1].Keys;
      assert forall i :: 0 <= i < |prefix| ==> prefix[i] == rows[i];
      keys
  }

  /** The column list depends on the set of rows only: permuting the rows
      leaves it unchanged. */
  lemma ColumnsIgnoreRowOrder(rows: seq<Row>, permuted: seq<Row>)
    requires multiset(rows) == multiset(permuted)
    ensures FinalColumns(KeysOf(rows)) == FinalColumns(KeysOf(permuted))
  {
    forall k
      ensures k in KeysOf(rows) <==> k in KeysOf(permuted)
    {
      if k in KeysOf(rows) {
        var i :| 0 <= i < |rows| && k in rows[i];
        assert rows[i] in multiset(permuted);
        var j :| 0 <= j < |permuted| && permuted[j] == rows[i];
      }
      if k in KeysOf(permuted) {
        var j :| 0 <= j < |permuted| && k in permuted[j];
        assert permuted[j] in multiset(rows);
        var i :| 0 <= i < |rows| && rows[i] == permuted[j];
      }
    }
    assert KeysOf(rows) == KeysOf(permuted);
  }

  /** The ascending tail is the one and only ascending enumeration of the
      non-CCI names, whatever order the set is iterated in. */
  lemma SortedTailIsUnique(keys: set<string>, tail: seq<string>)
    requires StrictlySorted(tail)
    requires forall c :: c in tail <==> c in keys && c !in CciNames()
    ensures tail == FinalColumns(keys)[3 + |Present(Cci, keys)|..]
  {
    ColumnLayout(keys);
    SortedUnique(tail, FinalColumns(keys)[3 + |Present(Cci, keys)|..]);
  }

  lemma {:induction false} DistinctCount(s: seq<string>, x: string)
    requires Distinct(s)
    ensures multiset(s)[x] == if x in s then 1 else 0
  {
    if s != [] {
      DistinctCount(s[1..], x);
      assert s == [s[0]] + s[1..];
    }
  }

  /** A fixed column that some row has (every row has all three) is listed
      twice: once at the front and once in the sorted tail. */
  lemma FixedColumnsRepeat(keys: set<string>, f: string)
    requires f in Fixed
    ensures multiset(FinalColumns(keys))[f] == if f in keys then 2 else 1
  {
    var others := keys - CciNames();
    var mid, tail := Present(Cci, keys), SortedSet(others);
    assert multiset(FinalColumns(keys))[f] == multiset(Fixed)[f] + multiset(mid)[f] + multiset(tail)[f] by {
      assert FinalColumns(keys) == Fixed + mid + tail;
      assert multiset(Fixed + mid + tail) == multiset(Fixed) + multiset(mid) + multiset(tail);
    }
    assert multiset(Fixed)[f] == 1 by {
      CciDistinct();
      DistinctCount(Fixed, f);
    }
    assert multiset(mid)[f] == 0 by {
      CciDistinct();
    }
    assert multiset(tail)[f] == if f in keys then 1 else 0 by {
      CciDistinct();
      SortedSetIsSorted(others);
      SortedDistinct(tail);
      DistinctCount(tail, f);
    }
  }
}
