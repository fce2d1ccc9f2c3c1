/**
 * Python's ordering of `str` values (code point by code point, a proper
 * prefix first) and the sort by key that `sorted(d.items())` performs on a
 * dictionary, whose keys are distinct.
 */
module StringOrder {

  /** `a <= b` on Python strings. */
  predicate StrLe(a: string, b: string)
  {
    a == [] || (b != [] && (a[0] < b[0] || (a[0] == b[0] && StrLe(a[1..], b[1..]))))
  }

  lemma {:induction false} StrLeReflexive(a: string)
    ensures StrLe(a, a)
  {
    if a != [] {
      StrLeReflexive(a[1..]);
    }
  }

  lemma {:induction false} StrLeTotal(a: string, b: string)
    ensures StrLe(a, b) || StrLe(b, a)
  {
    if a != [] && b != [] && a[0] == b[0] {
      StrLeTotal(a[1..], b[1..]);
    }
  }

  lemma {:induction false} StrLeTransitive(a: string, b: string, c: string)
    requires StrLe(a, b) && StrLe(b, c)
    ensures StrLe(a, c)
  {
    if a != [] && a[0] == b[0] && b[0] == c[0] {
      StrLeTransitive(a[1..], b[1..], c[1..]);
    }
  }

  lemma {:induction false} StrLeAntisymmetric(a: string, b: string)
    requires StrLe(a, b) && StrLe(b, a)
    ensures a == b
  {
    if a != [] && b != [] {
      StrLeAntisymmetric(a[1..], b[1..]);
      assert a == [a[0]] + a[1..] && b == [b[0]] + b[1..];
    }
  }

  predicate SortedByKey<V>(s: seq<(string, V)>)
  {
    forall i, j :: 0 <= i < j < |s| ==> StrLe(s[i].0, s[j].0)
  }

  predicate DistinctKeys<V>(s: seq<(string, V)>)
  {
    forall i, j :: 0 <= i < j < |s| ==> s[i].0 != s[j].0
  }

  /** Puts `x` before the first entry whose key is not smaller. */
  function Insert<V>(x: (string, V), s: seq<(string, V)>): (r: seq<(string, V)>)
    ensures multiset(r) == multiset(s) + multiset{x}
    ensures |r| == |s| + 1
  {
    if s == [] then [x]
    else if StrLe(x.0, s[0].0) then [x] + s
    else
      var r := [s[0]] + Insert(x, s[1..]);
      assert s == [s[0]] + s[1..];
      r
  }

  lemma {:induction false} InsertSorted<V>(x: (string, V), s: seq<(string, V)>)
    requires SortedByKey(s)
    ensures SortedByKey(Insert(x, s))
  {
    if s != [] {
      if StrLe(x.0, s[0].0) {
        forall j | 0 < j < |s| ensures StrLe(x.0, s[j].0) {
          StrLeTransitive(x.0, s[0].0, s[j].0);
        }
      } else {
        StrLeTotal(x.0, s[0].0);
        InsertSorted(x, s[1..]);
        var r := Insert(x, s);
        var t := Insert(x, s[1..]);
        assert r == [s[0]] + t;
        forall j | 0 <= j < |t| ensures StrLe(s[0].0, t[j].0) {
          assert t[j] in multiset(t);
          assert t[j] == x || t[j] in s[1..];
        }
      }
    }
  }

  /** `sorted(d.items())` for a dictionary: an insertion sort on keys. */
  function SortByKey<V>(s: seq<(string, V)>): (r: seq<(string, V)>)
    ensures multiset(r) == multiset(s)
    ensures |r| == |s|
  {
    if s == [] then []
    else
      assert s == [s[0]] + s[1..];
      Insert(s[0], SortByKey(s[1..]))
  }

  /** The sort puts the keys in ascending order. */
  lemma {:induction false} SortByKeySorted<V>(s: seq<(string, V)>)
    ensures SortedByKey(SortByKey(s))
  {
    if s != [] {
      SortByKeySorted(s[1..]);
      InsertSorted(s[0], SortByKey(s[1..]));
    }
  }

  lemma SortedHeadsEqual<V>(a: seq<(string, V)>, b: seq<(string, V)>)
    requires SortedByKey(a) && SortedByKey(b) && DistinctKeys(a)
    requires multiset(a) == multiset(b) && a != [] && b != []
    ensures a[0] == b[0]
  {
    assert a[0] in multiset(b);
    assert b[0] in multiset(a);
    var i :| 0 <= i < |b| && b[i] == a[0];
    var j :| 0 <= j < |a| && a[j] == b[0];
    StrLeReflexive(a[0].0);
    StrLeReflexive(b[0].0);
    assert StrLe(a[0].0, a[j].0);
    assert StrLe(b[0].0, b[i].0);
    StrLeAntisymmetric(a[0].0, b[0].0);
    assert j == 0;
  }

  lemma TailsPermutation<T>(a: seq<T>, b: seq<T>)
    requires multiset(a) == multiset(b) && a != [] && b != [] && a[0] == b[0]
    ensures multiset(a[1..]) == multiset(b[1..])
  {
    assert a == [a[0]] + a[1..] && b == [b[0]] + b[1..];
    calc {
      multiset(a[1..]);
      multiset(a) - multiset{a[0]};
      multiset(b) - multiset{b[0]};
      multiset(b[1..]);
    }
  }

  /**
   * With distinct keys, only one arrangement is sorted: any sorted
   * permutation of the entries is the result of the sort.
   */
  lemma {:induction false} SortedPermutationUnique<V>(a: seq<(string, V)>, b: seq<(string, V)>)
    requires SortedByKey(a) && SortedByKey(b) && DistinctKeys(a)
    requires multiset(a) == multiset(b)
    ensures a == b
    decreases |a|
  {
    assert |a| == |multiset(a)| == |b|;
    if a != [] {
      SortedHeadsEqual(a, b);
      TailsPermutation(a, b);
      SortedPermutationUnique(a[1..], b[1..]);
      assert a == [a[0]] + a[1..] && b == [b[0]] + b[1..];
    }
  }
}
