/** Generic facts about sequences used by the list operations of the model:
    first-occurrence search, List.Remove, Enumerable.Distinct. */
module Sequences {
  import opened Outcomes

  predicate NoDuplicates<T(==)>(s: seq<T>) {
    forall i, j :: 0 <= i < j < |s| ==> s[i] != s[j]
  }

  /** Index of the first occurrence of x in s. */
  function IndexOf<T(==)>(s: seq<T>, x: T): (r: Option<nat>)
    ensures r.None? <==> x !in s
    ensures r.Some? ==> r.value < |s| && s[r.value] == x && x !in s[..r.value]
  {
    if s == [] then None
    else if s[0] == x then Some(0)
    else match IndexOf(s[1..], x)
      case None => None
      case Some(k) =>
        assert s[1..][..k] == s[1..k + 1];
        Some(k + 1)
  }

  /** List<T>.Remove: drop the first occurrence of x, keep the rest in order. */
  function RemoveFirst<T(==)>(s: seq<T>, x: T): (r: seq<T>)
    ensures x !in s ==> r == s
    ensures x in s ==> |r| == |s| - 1
    ensures forall y :: y in r ==> y in s
  {
    if s == [] then []
    else if s[0] == x then s[1..]
    else [s[0]] + RemoveFirst(s[1..], x)
  }

  /** RemoveFirst cuts out exactly the element at the first index of x, or
      changes nothing when x is absent. */
  lemma {:induction false} RemoveFirstCutsFirstOccurrence<T>(s: seq<T>, x: T)
    ensures IndexOf(s, x).None? ==> RemoveFirst(s, x) == s
    ensures IndexOf(s, x).Some? ==>
      var k := IndexOf(s, x).value;
      RemoveFirst(s, x) == s[..k] + s[k + 1..]
  {
    if s != [] && s[0] != x {
      RemoveFirstCutsFirstOccurrence(s[1..], x);
      if IndexOf(s[1..], x).Some? {
        var k := IndexOf(s[1..], x).value;
        assert s[..k + 1] == [s[0]] + s[1..][..k];
        assert s[k + 2..] == s[1..][k + 1..];
      }
    }
  }

  /** RemoveFirst takes exactly one copy of x out of the multiset, if any. */
  lemma {:induction false} RemoveFirstMultiset<T>(s: seq<T>, x: T)
    ensures x in s ==> multiset(RemoveFirst(s, x)) == multiset(s) - multiset{x}
    ensures x in s ==> |RemoveFirst(s, x)| == |s| - 1
    ensures x !in s ==> RemoveFirst(s, x) == s
  {
    if s != [] {
      RemoveFirstMultiset(s[1..], x);
      if s[0] != x {
        assert s == [s[0]] + s[1..];
        assert x in s ==> x in s[1..];
      } else {
        assert s == [s[0]] + s[1..];
      }
    }
  }

  /** Enumerable.Distinct: keep the first occurrence of every element. */
  function Distinct<T(==)>(s: seq<T>): (r: seq<T>)
    ensures NoDuplicates(r)
    ensures forall i :: 0 <= i < |r| ==> r[i] in s
    ensures forall i :: 0 <= i < |s| ==> s[i] in r
    ensures |r| <= |s|
  {
    if s == [] then []
    else
      var front := Distinct(s[..|s| - 1]);
      assert forall i :: 0 <= i < |s| - 1 ==> s[i] == s[..|s| - 1][i];
      if s[|s| - 1] in front then front else front + [s[|s| - 1]]
  }

  /** When some element satisfies p, a first one does. */
  lemma FirstSatisfying<T>(s: seq<T>, p: T -> bool, m: nat) returns (i: nat)
    requires m < |s| && p(s[m])
    ensures i <= m && p(s[i]) && forall j :: 0 <= j < i ==> !p(s[j])
  {
    i := 0;
    while !p(s[i])
      invariant i <= m
      invariant forall j :: 0 <= j < i ==> !p(s[j])
      decreases m - i
    {
      i := i + 1;
    }
  }

  /** An element of a is first found in a, whatever follows it. */
  lemma IndexOfAppend<T>(a: seq<T>, b: seq<T>, x: T)
    requires x in a
    ensures IndexOf(a + b, x) == IndexOf(a, x)
  {
    var k1 := IndexOf(a, x).value;
    var k2 := IndexOf(a + b, x).value;
    assert (a + b)[k1] == a[k1];
    assert a[k2] == (a + b)[k2];
  }

  /** An element of the front of s is first found in the front. */
  lemma IndexOfFront<T>(s: seq<T>, y: T)
    requires s != [] && y in s[..|s| - 1]
    ensures IndexOf(s, y) == IndexOf(s[..|s| - 1], y)
  {
    var init := s[..|s| - 1];
    var k1 := IndexOf(init, y).value;
    var k2 := IndexOf(s, y).value;
    assert s[k1] == init[k1];
    assert init[k2] == s[k2];
  }

  /** Distinct keeps the order of first occurrences: of two elements of the
      result, the earlier one occurs first in the input. Together with
      NoDuplicates and the membership clauses this pins the result down. */
  lemma {:induction false} DistinctFirstOrder<T>(s: seq<T>)
    ensures forall i, j :: 0 <= i < j < |Distinct(s)| ==>
              IndexOf(s, Distinct(s)[i]).value < IndexOf(s, Distinct(s)[j]).value
  {
    if s != [] {
      var init := s[..|s| - 1];
      var x := s[|s| - 1];
      var front := Distinct(init);
      DistinctFirstOrder(init);
      forall y | y in front ensures IndexOf(s, y) == IndexOf(init, y) {
        IndexOfFront(s, y);
      }
      if x !in front {
        assert x !in init;
        assert IndexOf(s, x).value == |s| - 1 by {
          assert x !in s[..|s| - 1];
        }
        assert Distinct(s) == front + [x];
        forall i, j | 0 <= i < j < |Distinct(s)|
          ensures IndexOf(s, Distinct(s)[i]).value < IndexOf(s, Distinct(s)[j]).value
        {
          assert Distinct(s)[i] == front[i];
          if j < |front| {
            assert Distinct(s)[j] == front[j];
          }
        }
      }
    }
  }

  /** Distinct leaves a duplicate-free sequence as it is. */
  lemma {:induction false} DistinctOfDistinct<T>(s: seq<T>)
    requires NoDuplicates(s)
    ensures Distinct(s) == s
  {
    if s != [] {
      var init := s[..|s| - 1];
      assert NoDuplicates(init);
      DistinctOfDistinct(init);
      assert s[|s| - 1] !in init;
      assert s == init + [s[|s| - 1]];
    }
  }

  /** Slicing facts used where the element type makes extensionality
      expensive. */
  lemma SplitAt<T>(s: seq<T>, i: nat)
    requires i <= |s|
    ensures s[..i] + s[i..] == s
  {
  }

  lemma WholePrefix<T>(s: seq<T>)
    ensures s[..|s|] == s
  {
  }

  lemma PrefixOfPrefix<T>(s: seq<T>, i: nat)
    requires i < |s|
    ensures s[..i + 1][..i] == s[..i] && s[..i + 1][i] == s[i]
  {
  }

  lemma PrefixGrows<T>(s: seq<T>, i: nat)
    requires i < |s|
    ensures s[..i + 1] == s[..i] + [s[i]]
  {
  }

  lemma AppendPrefix<T>(a: seq<T>, b: seq<T>)
    ensures (a + b)[..|a|] == a
  {
  }

  lemma EmptyAppend<T>(s: seq<T>)
    ensures [] + s == s
  {
  }

  lemma AppendAssociates<T>(a: seq<T>, b: seq<T>, c: seq<T>)
    ensures (a + b) + c == a + (b + c)
  {
  }
}
