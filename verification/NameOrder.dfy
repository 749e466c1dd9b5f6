/** Names in byte order, as qsort with strcmp leaves them, and how a sorted list shows duplicates
    (tools/fsck_northstar.c, string_compare and the end of validate_directory). */
module NameOrder {
  import opened Sequences
  import opened Bytes

  type Name = seq<byte>

  /** strcmp(a, b) <= 0. */
  predicate Le(a: Name, b: Name)
  {
    a == [] || (b != [] && (a[0] < b[0] || (a[0] == b[0] && Le(a[1..], b[1..]))))
  }

  lemma {:induction false} LeTotal(a: Name, b: Name)
    ensures Le(a, b) || Le(b, a)
  {
    if a != [] && b != [] { LeTotal(a[1..], b[1..]); }
  }

  lemma {:induction false} LeAntisymmetric(a: Name, b: Name)
    requires Le(a, b) && Le(b, a)
    ensures a == b
  {
    if a != [] && b != [] {
      LeAntisymmetric(a[1..], b[1..]);
      assert a == [a[0]] + a[1..] && b == [b[0]] + b[1..];
    }
  }

  lemma {:induction false} LeTransitive(a: Name, b: Name, c: Name)
    requires Le(a, b) && Le(b, c)
    ensures Le(a, c)
  {
    if a != [] && a[0] == b[0] == c[0] { LeTransitive(a[1..], b[1..], c[1..]); }
  }

  predicate Sorted(s: seq<Name>)
  {
    forall i, j :: 0 <= i < j < |s| ==> Le(s[i], s[j])
  }

  function Insert(x: Name, s: seq<Name>): (r: seq<Name>)
    ensures multiset(r) == multiset(s) + multiset{x}
  {
    if s == [] then [x]
    else if Le(x, s[0]) then [x] + s
    else
      assert s == [s[0]] + s[1..];
      [s[0]] + Insert(x, s[1..])
  }

  lemma {:induction false} InsertSorted(x: Name, s: seq<Name>)
    requires Sorted(s)
    ensures Sorted(Insert(x, s))
  {
    if s != [] {
      LeTotal(x, s[0]);
      if Le(x, s[0]) {
        forall j | 0 <= j < |s|
          ensures Le(x, s[j])
        {
          if j > 0 { LeTransitive(x, s[0], s[j]); }
        }
      } else {
        InsertSorted(x, s[1..]);
        var t := Insert(x, s[1..]);
        forall j | 0 <= j < |t|
          ensures Le(s[0], t[j])
        {
          assert t[j] in multiset(t);
          if t[j] != x { assert t[j] in s[1..]; }
        }
      }
    }
  }

  function Sort(s: seq<Name>): (r: seq<Name>)
    ensures multiset(r) == multiset(s)
  {
    if s == [] then []
    else
      assert s == [s[0]] + s[1..];
      Insert(s[0], Sort(s[1..]))
  }

  lemma {:induction false} SortSorted(s: seq<Name>)
    ensures Sorted(Sort(s))
  {
    if s != [] {
      SortSorted(s[1..]);
      InsertSorted(s[0], Sort(s[1..]));
    }
  }

  lemma {:induction false} DistinctCounts(s: seq<Name>)
    ensures Distinct(s) <==> forall x :: multiset(s)[x] <= 1
  {
    if s != [] {
      DistinctCounts(s[1..]);
      assert s == [s[0]] + s[1..];
      assert Distinct(s) <==> Distinct(s[1..]) && s[0] !in s[1..] by {
        if Distinct(s) {
          assert forall i, j :: 0 <= i < j < |s[1..]| ==> s[1..][i] == s[i + 1] && s[1..][j] == s[j + 1];
          assert forall j :: 0 <= j < |s[1..]| ==> s[1..][j] == s[j + 1];
        }
        if Distinct(s[1..]) && s[0] !in s[1..] {
          assert forall j :: 0 < j < |s| ==> s[j] == s[1..][j - 1];
        }
      }
      if forall x :: multiset(s)[x] <= 1 {
        assert multiset(s)[s[0]] == multiset(s[1..])[s[0]] + 1;
        forall x
          ensures multiset(s[1..])[x] <= 1
        {
          assert multiset(s)[x] <= 1;
        }
      }
    }
  }

  lemma SameCounts(s: seq<Name>, t: seq<Name>)
    requires multiset(s) == multiset(t)
    ensures Distinct(s) <==> Distinct(t)
  {
    DistinctCounts(s);
    DistinctCounts(t);
  }

  /** A sorted list has duplicates exactly when two neighbours are equal. */
  lemma SortedNeighbours(s: seq<Name>)
    requires Sorted(s)
    ensures Distinct(s) <==> NeighboursDiffer(s)
  {
    if NeighboursDiffer(s) {
      forall i, j | 0 <= i < j < |s|
        ensures s[i] != s[j]
      {
        assert Differs(s, i + 1);
        if s[i] == s[j] && i + 1 < j {
          LeAntisymmetric(s[i + 1], s[i]);
        }
      }
    }
    if Distinct(s) {
      forall i | 0 < i < |s|
        ensures Differs(s, i)
      {
        assert s[i - 1] != s[i];
      }
    }
  }

  predicate NeighboursDiffer(s: seq<Name>)
  {
    forall i :: 0 < i < |s| ==> Differs(s, i)
  }

  predicate Differs(s: seq<Name>, i: nat)
    requires 0 < i < |s|
  {
    s[i - 1] != s[i]
  }

  /** The neighbours of the sorted names differ exactly when the names do. */
  lemma SortShowsDuplicates(s: seq<Name>)
    ensures Distinct(s) <==> NeighboursDiffer(Sort(s))
  {
    hide Sort, Distinct, Sorted, NeighboursDiffer;
    var t := Sort(s);
    SortSorted(s);
    SameCounts(s, t);
    SortedNeighbours(t);
  }
}
