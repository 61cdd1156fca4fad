/** Sorted lists of interface names: `sort.Strings`, and the `remove` helper of the registry. */
module SortedNames {
  // Go compares strings byte by byte.
  predicate AtMost(a: string, b: string)
  {
    a == "" || (b != "" && (a[0] < b[0] || (a[0] == b[0] && AtMost(a[1..], b[1..]))))
  }

  lemma {:induction false} AtMostTotal(a: string, b: string)
    ensures AtMost(a, b) || AtMost(b, a)
  {
    if a != "" && b != "" && a[0] == b[0] {
      AtMostTotal(a[1..], b[1..]);
    }
  }

  lemma {:induction false} AtMostAntisymmetric(a: string, b: string)
    requires AtMost(a, b) && AtMost(b, a)
    ensures a == b
  {
    if a != "" && b != "" {
      AtMostAntisymmetric(a[1..], b[1..]);
      assert a == [a[0]] + a[1..] && b == [b[0]] + b[1..];
    }
  }

  lemma {:induction false} AtMostTransitive(a: string, b: string, c: string)
    requires AtMost(a, b) && AtMost(b, c)
    ensures AtMost(a, c)
  {
    if a != "" && b != "" && c != "" && a[0] == b[0] && b[0] == c[0] {
      AtMostTransitive(a[1..], b[1..], c[1..]);
    }
  }

  // The first is a prefix of the second, or smaller where they first differ.
  predicate SmallerAt(a: string, b: string, k: nat) { k < |a| && k < |b| && a[..k] == b[..k] && a[k] < b[k] }

  lemma {:induction false} AtMostExactly(a: string, b: string)
    ensures AtMost(a, b) <==> a <= b || exists k :: 0 <= k < |a| && SmallerAt(a, b, k)
  {
    if a != "" && b != "" {
      AtMostExactly(a[1..], b[1..]);
      if a[0] == b[0] {
        SmallerShift(a, b);
      } else if a[0] < b[0] {
        assert SmallerAt(a, b, 0);
      } else {
        forall k | 0 <= k < |a|
          ensures !SmallerAt(a, b, k)
        {
          assert k > 0 && k < |b| ==> a[..k][0] != b[..k][0];
        }
      }
    }
  }

  lemma SmallerShift(a: string, b: string)
    requires a != "" && b != "" && a[0] == b[0]
    ensures a <= b <==> a[1..] <= b[1..]
    ensures (exists k :: 0 <= k < |a| && SmallerAt(a, b, k))
       <==> (exists k :: 0 <= k < |a| - 1 && SmallerAt(a[1..], b[1..], k))
  {
    forall k | 0 <= k < |a| - 1
      ensures SmallerAt(a[1..], b[1..], k) <==> SmallerAt(a, b, k + 1)
    {
      if k + 1 < |b| {
        assert a[..k + 1] == [a[0]] + a[1..][..k] && b[..k + 1] == [b[0]] + b[1..][..k];
      }
    }
    if k :| 0 <= k < |a| && SmallerAt(a, b, k) {
      assert k > 0;
      assert SmallerAt(a[1..], b[1..], k - 1);
    }
    assert a == [a[0]] + a[1..] && b == [b[0]] + b[1..];
  }

  ghost predicate Sorted(s: seq<string>)
  {
    forall i, j :: 0 <= i < j < |s| ==> AtMost(s[i], s[j])
  }

  ghost predicate NoDuplicates(s: seq<string>)
  {
    forall i, j :: 0 <= i < j < |s| ==> s[i] != s[j]
  }

  function Insert(x: string, s: seq<string>): (r: seq<string>)
    ensures multiset(r) == multiset(s) + multiset{x}
  {
    if s == [] then [x]
    else
      assert s == [s[0]] + s[1..];
      if AtMost(x, s[0]) then [x] + s else [s[0]] + Insert(x, s[1..])
  }

  // sort.Strings.
  function Sort(s: seq<string>): (r: seq<string>)
    ensures multiset(r) == multiset(s)
  {
    if s == [] then []
    else
      assert s == [s[0]] + s[1..];
      Insert(s[0], Sort(s[1..]))
  }

  lemma {:induction false} InsertSorted(x: string, s: seq<string>)
    requires Sorted(s)
    ensures Sorted(Insert(x, s))
  {
    if s != [] {
      if AtMost(x, s[0]) {
        forall j | 0 <= j < |s| ensures AtMost(x, s[j]) {
          if j > 0 {
            AtMostTransitive(x, s[0], s[j]);
          }
        }
      } else {
        AtMostTotal(x, s[0]);
        InsertSorted(x, s[1..]);
        var r := Insert(x, s[1..]);
        forall j | 0 <= j < |r| ensures AtMost(s[0], r[j]) {
          assert r[j] in multiset(r);
          assert r[j] == x || r[j] in s[1..];
        }
      }
    }
  }

  lemma {:induction false} SortSorted(s: seq<string>)
    ensures Sorted(Sort(s))
  {
    if s != [] {
      SortSorted(s[1..]);
      InsertSorted(s[0], Sort(s[1..]));
    }
  }

  // The sorted permutation of a list is unique, so any implementation of sort.Strings gives this one.
  lemma {:induction false} SortedUnique(s: seq<string>, t: seq<string>)
    requires Sorted(s) && Sorted(t) && multiset(s) == multiset(t)
    ensures s == t
  {
    hide AtMost;
    assert |s| == |multiset(s)| == |multiset(t)| == |t|;
    if s != [] {
      assert s[0] in multiset(t) && t[0] in multiset(s);
      HeadLeast(s, t[0]);
      HeadLeast(t, s[0]);
      AtMostAntisymmetric(s[0], t[0]);
      TailMultiset(s);
      TailMultiset(t);
      TailSorted(s);
      TailSorted(t);
      SortedUnique(s[1..], t[1..]);
      assert s == [s[0]] + s[1..] && t == [t[0]] + t[1..];
    }
  }

  lemma TailMultiset(s: seq<string>)
    requires s != []
    ensures multiset(s[1..]) == multiset(s) - multiset{s[0]}
  {
    assert s == [s[0]] + s[1..];
  }

  lemma TailSorted(s: seq<string>)
    requires s != [] && Sorted(s)
    ensures Sorted(s[1..])
  {
    hide AtMost;
  }

  lemma HeadLeast(s: seq<string>, x: string)
    requires Sorted(s) && x in s
    ensures AtMost(s[0], x)
  {
    var i :| 0 <= i < |s| && s[i] == x;
    if i == 0 {
      AtMostTotal(x, x);
    }
  }

  // remove: the list without the first occurrence of the name.
  function RemoveFirst(s: seq<string>, x: string): (r: seq<string>)
    ensures multiset(r) == multiset(s) - multiset{x}
  {
    if s == [] then []
    else
      assert s == [s[0]] + s[1..];
      if s[0] == x then s[1..] else [s[0]] + RemoveFirst(s[1..], x)
  }

  // The first i names stay as they are.
  predicate Passed(s: seq<string>, x: string, i: nat)
    requires i <= |s|
  {
    RemoveFirst(s, x) == s[..i] + RemoveFirst(s[i..], x)
  }

  method Remove(haystack: seq<string>, needle: string) returns (r: seq<string>)
    ensures r == RemoveFirst(haystack, needle)
  {
    hide RemoveFirst, Passed;
    PassNothing(haystack, needle);
    var i := 0;
    while i < |haystack|
      invariant 0 <= i <= |haystack| && Passed(haystack, needle, i)
    {
      PassNext(haystack, needle, i);
      if haystack[i] == needle {
        return haystack[..i] + haystack[i + 1..];
      }
      i := i + 1;
    }
    PassAll(haystack, needle);
    r := haystack;
  }

  lemma PassNothing(s: seq<string>, x: string)
    ensures Passed(s, x, 0)
  {
    assert s[0..] == s && s[..0] + RemoveFirst(s, x) == RemoveFirst(s, x);
  }

  lemma PassNext(s: seq<string>, x: string, i: nat)
    requires i < |s| && Passed(s, x, i)
    ensures s[i] == x ==> RemoveFirst(s, x) == s[..i] + s[i + 1..]
    ensures s[i] != x ==> Passed(s, x, i + 1)
  {
    hide RemoveFirst;
    RemoveFirstFrom(s, x, i);
    ShiftOne(s, i, RemoveFirst(s[i + 1..], x));
  }

  lemma ShiftOne(s: seq<string>, i: nat, rest: seq<string>)
    requires i < |s|
    ensures s[..i] + ([s[i]] + rest) == s[..i + 1] + rest
  {
    assert s[..i + 1] == s[..i] + [s[i]];
  }

  lemma PassAll(s: seq<string>, x: string)
    requires Passed(s, x, |s|)
    ensures RemoveFirst(s, x) == s
  {
    assert s[|s|..] == [] && s[..|s|] == s;
  }

  lemma NothingToRemove(x: string)
    ensures RemoveFirst([], x) == []
  {
  }

  lemma RemoveFirstFrom(s: seq<string>, x: string, i: nat)
    requires i < |s|
    ensures RemoveFirst(s[i..], x) == if s[i] == x then s[i + 1..] else [s[i]] + RemoveFirst(s[i + 1..], x)
  {
    assert s[i..][1..] == s[i + 1..];
  }

  lemma {:induction false} RemoveFirstSorted(s: seq<string>, x: string)
    requires Sorted(s)
    ensures Sorted(RemoveFirst(s, x))
  {
    hide AtMost;
    if s != [] {
      TailSorted(s);
      if s[0] != x {
        RemoveFirstSorted(s[1..], x);
        var r := RemoveFirst(s[1..], x);
        forall j | 0 <= j < |r| ensures AtMost(s[0], r[j]) {
          assert r[j] in multiset(r);
          assert r[j] in multiset(s[1..]);
        }
        ConsSorted(s[0], r);
      }
    }
  }

  lemma ConsSorted(x: string, s: seq<string>)
    requires Sorted(s) && forall j :: 0 <= j < |s| ==> AtMost(x, s[j])
    ensures Sorted([x] + s)
  {
    hide AtMost;
  }

  // Appending a name, sorting, and removing it again gives the sorted list back.
  lemma AppendSortRemove(s: seq<string>, x: string)
    requires Sorted(s)
    ensures RemoveFirst(Sort(s + [x]), x) == s
  {
    SortSorted(s + [x]);
    RemoveFirstSorted(Sort(s + [x]), x);
    SortedUnique(RemoveFirst(Sort(s + [x]), x), s);
  }

  lemma NoDuplicatesByCount(s: seq<string>)
    ensures NoDuplicates(s) <==> forall x :: x in s ==> multiset(s)[x] == 1
  {
    if NoDuplicates(s) {
      forall x | x in s ensures multiset(s)[x] == 1 {
        CountOne(s, x);
      }
    } else {
      var i, j :| 0 <= i < j < |s| && s[i] == s[j];
      CountTwo(s, i, j);
    }
  }

  lemma {:induction false} CountOne(s: seq<string>, x: string)
    requires NoDuplicates(s) && x in s
    ensures multiset(s)[x] == 1
  {
    assert s == [s[0]] + s[1..];
    if s[0] != x {
      assert x in s[1..];
      CountOne(s[1..], x);
    }
  }

  lemma CountTwo(s: seq<string>, i: nat, j: nat)
    requires i < j < |s| && s[i] == s[j]
    ensures multiset(s)[s[i]] >= 2
  {
    assert s == s[..j] + [s[j]] + s[j + 1..];
    assert s[..j] == s[..i] + [s[i]] + s[i + 1..j];
    assert multiset(s)
        == multiset(s[..i]) + multiset{s[i]} + multiset(s[i + 1..j]) + multiset{s[j]} + multiset(s[j + 1..]);
  }

  // A duplicate-free list stays so when a new name is appended and sorted in, and when a name is removed.
  lemma AppendSortKeeps(s: seq<string>, x: string)
    requires Sorted(s) && NoDuplicates(s) && x !in s
    ensures var r := Sort(s + [x]); Sorted(r) && NoDuplicates(r) && forall y :: y in r <==> y in s || y == x
  {
    hide AtMost, Sort;
    var r := Sort(s + [x]);
    SortSorted(s + [x]);
    assert multiset(r) == multiset(s) + multiset{x};
    NoDuplicatesByCount(s);
    forall y ensures y in r <==> y in s || y == x {
      assert y in r <==> y in multiset(r);
      assert y in s <==> y in multiset(s);
    }
    NoDuplicatesByCount(r);
  }

  lemma RemoveKeeps(s: seq<string>, x: string)
    requires Sorted(s) && NoDuplicates(s)
    ensures var r := RemoveFirst(s, x); Sorted(r) && NoDuplicates(r) && forall y :: y in r <==> y in s && y != x
  {
    hide AtMost, RemoveFirst;
    var r := RemoveFirst(s, x);
    RemoveFirstSorted(s, x);
    NoDuplicatesByCount(s);
    forall y ensures y in r <==> y in s && y != x {
      assert y in r <==> y in multiset(r);
      assert y in s <==> y in multiset(s);
    }
    NoDuplicatesByCount(r);
  }
}
