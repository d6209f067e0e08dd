/** A .NET Dictionary that is only ever added to, as the permission cache
    uses it: an association list in insertion order. Assigning to an existing
    key replaces the value in its slot, so enumeration order is the order in
    which keys were first added. */
module Dictionaries {
  import opened Outcomes

  type Dict<K, V> = seq<(K, V)>

  predicate UniqueKeys<K(==), V>(d: Dict<K, V>) {
    forall i, j :: 0 <= i < j < |d| ==> d[i].0 != d[j].0
  }

  /** TryGetValue / GetValueOrDefault: the value stored under k, if any. */
  function Get<K(==), V>(d: Dict<K, V>, k: K): (r: Option<V>)
    ensures r.None? <==> forall i :: 0 <= i < |d| ==> d[i].0 != k
    ensures r.Some? ==> exists i :: 0 <= i < |d| && d[i] == (k, r.value)
  {
    if d == [] then None
    else if d[0].0 == k then Some(d[0].1)
    else
      var r := Get(d[1..], k);
      assert r.Some? ==> exists i :: 0 <= i < |d| && d[i] == (k, r.value) by {
        if r.Some? {
          var i :| 0 <= i < |d[1..]| && d[1..][i] == (k, r.value);
          assert d[i + 1] == d[1..][i];
        }
      }
      r
  }

  /** d[k] = v: replace in place when k is present, append otherwise. */
  function Put<K(==), V>(d: Dict<K, V>, k: K, v: V): (r: Dict<K, V>)
    ensures |r| == |d| || |r| == |d| + 1
    ensures forall i :: 0 <= i < |d| ==> r[i].0 == d[i].0
    ensures |r| == |d| + 1 <==> forall i :: 0 <= i < |d| ==> d[i].0 != k
    ensures |r| == |d| + 1 ==> r[|d|] == (k, v)
    ensures UniqueKeys(d) ==> UniqueKeys(r)
  {
    if d == [] then [(k, v)]
    else if d[0].0 == k then [(k, v)] + d[1..]
    else [d[0]] + Put(d[1..], k, v)
  }

  /** After d[k] = v, looking up k gives v. */
  lemma {:induction false} GetPutSame<K, V>(d: Dict<K, V>, k: K, v: V)
    ensures Get(Put(d, k, v), k) == Some(v)
  {
    if d != [] && d[0].0 != k {
      GetPutSame(d[1..], k, v);
    }
  }

  /** After d[k] = v, every other key keeps its value. */
  lemma {:induction false} GetPutOther<K, V>(d: Dict<K, V>, k: K, v: V, k': K)
    requires k' != k
    ensures Get(Put(d, k, v), k') == Get(d, k')
  {
    if d != [] && d[0].0 != k {
      GetPutOther(d[1..], k, v, k');
    }
  }

  /** Dictionary.Values, in enumeration order. */
  function Values<K, V>(d: Dict<K, V>): (r: seq<V>)
    ensures |r| == |d| && forall i :: 0 <= i < |d| ==> r[i] == d[i].1
  {
    seq(|d|, i requires 0 <= i < |d| => d[i].1)
  }

  /** foreach (var x in s) d[key(x)] = x; */
  function IndexBy<K(==), V>(d: Dict<K, V>, s: seq<V>, key: V -> K): Dict<K, V>
  {
    if s == [] then d else Put(IndexBy(d, s[..|s| - 1], key), key(s[|s| - 1]), s[|s| - 1])
  }

  /** Reference definition: the last element of s filed under k. */
  function LastWithKey<K(==), V>(s: seq<V>, key: V -> K, k: K): (r: Option<V>)
    ensures r.None? <==> forall i :: 0 <= i < |s| ==> key(s[i]) != k
  {
    if s == [] then None
    else if key(s[|s| - 1]) == k then Some(s[|s| - 1])
    else
      assert forall i :: 0 <= i < |s| - 1 ==> s[..|s| - 1][i] == s[i];
      LastWithKey(s[..|s| - 1], key, k)
  }

  /** What LastWithKey finds is filed under k, and nothing after it is. */
  lemma {:induction false} LastWithKeyIsLast<K, V>(s: seq<V>, key: V -> K, k: K)
    requires LastWithKey(s, key, k).Some?
    ensures exists i :: 0 <= i < |s| && s[i] == LastWithKey(s, key, k).value && key(s[i]) == k
                        && forall j :: i < j < |s| ==> key(s[j]) != k
  {
    if key(s[|s| - 1]) != k {
      var front := s[..|s| - 1];
      LastWithKeyIsLast(front, key, k);
      var i :| 0 <= i < |front| && front[i] == LastWithKey(front, key, k).value && key(front[i]) == k
               && forall j :: i < j < |front| ==> key(front[j]) != k;
      assert s[i] == front[i];
      assert forall j :: i < j < |front| ==> s[j] == front[j];
    } else {
      assert s[|s| - 1] == LastWithKey(s, key, k).value;
    }
  }

  /** Filing s into d: a key that some element of s has ends up with the last
      such element, so later insertions win; any other key keeps d's value. */
  lemma {:induction false} GetIndexBy<K, V>(d: Dict<K, V>, s: seq<V>, key: V -> K, k: K)
    ensures Get(IndexBy(d, s, key), k) ==
              if LastWithKey(s, key, k).Some? then LastWithKey(s, key, k) else Get(d, k)
  {
    if s != [] {
      var last := s[|s| - 1];
      GetIndexBy(d, s[..|s| - 1], key, k);
      if key(last) == k {
        GetPutSame(IndexBy(d, s[..|s| - 1], key), k, last);
      } else {
        GetPutOther(IndexBy(d, s[..|s| - 1], key), key(last), last, k);
      }
    }
  }

  /** Filing keeps keys unique. */
  lemma {:induction false} IndexByUniqueKeys<K, V>(d: Dict<K, V>, s: seq<V>, key: V -> K)
    requires UniqueKeys(d)
    ensures UniqueKeys(IndexBy(d, s, key))
  {
    if s != [] {
      IndexByUniqueKeys(d, s[..|s| - 1], key);
    }
  }

  /** Every value of the filed dictionary was already in d or comes from s. */
  lemma {:induction false} IndexByValuesFromSources<K, V>(d: Dict<K, V>, s: seq<V>, key: V -> K)
    ensures forall i :: 0 <= i < |IndexBy(d, s, key)| ==>
                          IndexBy(d, s, key)[i].1 in Values(d) || IndexBy(d, s, key)[i].1 in s
  {
    if s != [] {
      var front := s[..|s| - 1];
      IndexByValuesFromSources(d, front, key);
      PutValuesFromSources(IndexBy(d, front, key), key(s[|s| - 1]), s[|s| - 1]);
      forall i | 0 <= i < |IndexBy(d, s, key)|
        ensures IndexBy(d, s, key)[i].1 in Values(d) || IndexBy(d, s, key)[i].1 in s
      {
        var v := IndexBy(d, s, key)[i].1;
        if v != s[|s| - 1] {
          var j :| 0 <= j < |IndexBy(d, front, key)| && IndexBy(d, front, key)[j].1 == v;
          assert v in front ==> v in s;
        }
      }
    }
  }

  lemma {:induction false} PutValuesFromSources<K, V>(d: Dict<K, V>, k: K, v: V)
    ensures forall i :: 0 <= i < |Put(d, k, v)| ==>
                          Put(d, k, v)[i].1 == v || exists j :: 0 <= j < |d| && d[j].1 == Put(d, k, v)[i].1
  {
    if d != [] && d[0].0 != k {
      PutValuesFromSources(d[1..], k, v);
      forall i | 1 <= i < |Put(d, k, v)|
        ensures Put(d, k, v)[i].1 == v || exists j :: 0 <= j < |d| && d[j].1 == Put(d, k, v)[i].1
      {
        assert Put(d, k, v)[i] == Put(d[1..], k, v)[i - 1];
        if Put(d, k, v)[i].1 != v {
          var j :| 0 <= j < |d[1..]| && d[1..][j].1 == Put(d[1..], k, v)[i - 1].1;
          assert d[j + 1].1 == Put(d, k, v)[i].1;
        }
      }
    } else if d != [] {
      assert forall i :: 1 <= i < |Put(d, k, v)| ==> Put(d, k, v)[i] == d[i];
    }
  }
}
