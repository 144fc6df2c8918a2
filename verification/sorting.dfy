/**
 `Array.prototype.sort` with a comparator: a stable sort. The model is an
 insertion sort that places each element after every element that does not
 come strictly after it, which keeps equal elements in their input order.
 */
module Sorting {

  /** The comparator read as "a may come before b" is total and transitive. */
  ghost predicate TotalPreorder<T(!new)>(le: (T, T) -> bool)
  {
    && (forall a, b :: le(a, b) || le(b, a))
    && (forall a, b, c :: le(a, b) && le(b, c) ==> le(a, c))
  }

  ghost predicate Antisymmetric<T(!new)>(le: (T, T) -> bool)
  {
    forall a, b :: le(a, b) && le(b, a) ==> a == b
  }

  predicate SortedBy<T>(s: seq<T>, le: (T, T) -> bool)
  {
    forall i, j :: 0 <= i < j < |s| ==> le(s[i], s[j])
  }

  function MapSeq<T, K>(f: T -> K, s: seq<T>): (r: seq<K>)
    ensures |r| == |s|
    ensures forall i :: 0 <= i < |s| ==> r[i] == f(s[i])
  {
    if |s| == 0 then [] else [f(s[0])] + MapSeq(f, s[1..])
  }

  lemma MapSeqMember<T, K>(f: T -> K, s: seq<T>, y: K)
    ensures y in MapSeq(f, s) <==> exists j :: 0 <= j < |s| && f(s[j]) == y
  {
    if y in MapSeq(f, s) {
      var j :| 0 <= j < |s| && MapSeq(f, s)[j] == y;
    }
  }

  /** Inserts `x` after every element of `s` that is not strictly greater than it. */
  function Insert<T>(x: T, s: seq<T>, le: (T, T) -> bool): (r: seq<T>)
    ensures multiset(r) == multiset(s) + multiset{x}
    ensures |r| == |s| + 1
  {
    if |s| == 0 then [x]
    else if le(x, s[0]) && !le(s[0], x) then [x] + s
    else
      assert s == [s[0]] + s[1..];
      [s[0]] + Insert(x, s[1..], le)
  }

  /** The stable sort of `s` by the comparator `le`. */
  function Sort<T>(s: seq<T>, le: (T, T) -> bool): (r: seq<T>)
    ensures multiset(r) == multiset(s)
    ensures |r| == |s|
  {
    if |s| == 0 then []
    else
      assert s == s[..|s| - 1] + [s[|s| - 1]];
      Insert(s[|s| - 1], Sort(s[..|s| - 1], le), le)
  }

  lemma {:induction false} InsertSorted<T(!new)>(x: T, s: seq<T>, le: (T, T) -> bool)
    requires TotalPreorder(le) && SortedBy(s, le)
    ensures SortedBy(Insert(x, s, le), le)
  {
    if |s| > 0 && !(le(x, s[0]) && !le(s[0], x)) {
      InsertSorted(x, s[1..], le);
      var r := Insert(x, s, le);
      var t := Insert(x, s[1..], le);
      assert r == [s[0]] + t;
      assert le(s[0], x);
      forall k | 0 <= k < |t|
        ensures le(s[0], t[k])
      {
        assert t[k] in multiset(t);
        assert t[k] in multiset(s[1..]) + multiset{x};
        if t[k] in multiset(s[1..]) {
          var m :| 0 <= m < |s[1..]| && s[1..][m] == t[k];
          assert s[1 + m] == t[k];
        }
      }
    }
  }

  /** The sort produces an ordered permutation of its input. */
  lemma {:induction false} SortSorted<T(!new)>(s: seq<T>, le: (T, T) -> bool)
    requires TotalPreorder(le)
    ensures SortedBy(Sort(s, le), le)
  {
    if |s| > 0 {
      SortSorted(s[..|s| - 1], le);
      InsertSorted(s[|s| - 1], Sort(s[..|s| - 1], le), le);
    }
  }

  /** Two ordered permutations of one multiset coincide when the order is antisymmetric. */
  lemma {:induction false} SortedUnique<T(!new)>(a: seq<T>, b: seq<T>, le: (T, T) -> bool)
    requires TotalPreorder(le) && Antisymmetric(le)
    requires SortedBy(a, le) && SortedBy(b, le)
    requires multiset(a) == multiset(b)
    ensures a == b
  {
    assert |b| == |a| by {
      assert |multiset(a)| == |a| && |multiset(b)| == |b|;
    }
    if |a| > 0 {
      HeadsAgree(a, b, le);
      MultisetTail(a);
      MultisetTail(b);
      SortedTail(a, le);
      SortedTail(b, le);
      SortedUnique(a[1..], b[1..], le);
      assert a == [a[0]] + a[1..] && b == [b[0]] + b[1..];
    }
  }

  lemma SortedTail<T>(s: seq<T>, le: (T, T) -> bool)
    requires |s| > 0 && SortedBy(s, le)
    ensures SortedBy(s[1..], le)
  {
    forall i, j | 0 <= i < j < |s[1..]|
      ensures le(s[1..][i], s[1..][j])
    {
      assert s[1..][i] == s[i + 1] && s[1..][j] == s[j + 1];
    }
  }

  lemma HeadsAgree<T(!new)>(a: seq<T>, b: seq<T>, le: (T, T) -> bool)
    requires TotalPreorder(le) && Antisymmetric(le)
    requires SortedBy(a, le) && SortedBy(b, le)
    requires multiset(a) == multiset(b) && |a| > 0
    ensures |b| > 0 && a[0] == b[0]
  {
    assert a[0] in multiset(b);
    var j :| 0 <= j < |b| && b[j] == a[0];
    assert b[0] in multiset(a);
    var i :| 0 <= i < |a| && a[i] == b[0];
    assert le(b[0], a[0]) by { if j > 0 { assert le(b[0], b[j]); } }
    assert le(a[0], b[0]) by { if i > 0 { assert le(a[0], a[i]); } }
  }

  lemma MultisetTail<T>(a: seq<T>)
    requires |a| > 0
    ensures multiset(a[1..]) == multiset(a) - multiset{a[0]}
    ensures multiset(a) == multiset{a[0]} + multiset(a[1..])
  {
    assert a == [a[0]] + a[1..];
  }

  lemma MultisetRemove<T>(t: seq<T>, k: nat)
    requires k < |t|
    ensures multiset(t[..k] + t[k + 1..]) == multiset(t) - multiset{t[k]}
    ensures multiset(t) == multiset(t[..k] + t[k + 1..]) + multiset{t[k]}
  {
    assert t == t[..k] + [t[k]] + t[k + 1..];
  }

  /** The sorted order depends only on the multiset of the input. */
  lemma SortPermutationInvariant<T(!new)>(s: seq<T>, t: seq<T>, le: (T, T) -> bool)
    requires TotalPreorder(le) && Antisymmetric(le)
    requires multiset(s) == multiset(t)
    ensures Sort(s, le) == Sort(t, le)
  {
    SortSorted(s, le);
    SortSorted(t, le);
    SortedUnique(Sort(s, le), Sort(t, le), le);
  }

  /** Sorting by a comparator that only looks at a key commutes with taking the key. */
  lemma {:induction false} InsertByKey<T, K>(x: T, s: seq<T>, key: T -> K, le: (T, T) -> bool, leKey: (K, K) -> bool)
    requires forall a, b :: le(a, b) == leKey(key(a), key(b))
    ensures MapSeq(key, Insert(x, s, le)) == Insert(key(x), MapSeq(key, s), leKey)
  {
    if |s| > 0 {
      InsertByKey(x, s[1..], key, le, leKey);
      assert MapSeq(key, s)[1..] == MapSeq(key, s[1..]);
    }
  }

  lemma {:induction false} SortByKey<T, K>(s: seq<T>, key: T -> K, le: (T, T) -> bool, leKey: (K, K) -> bool)
    requires forall a, b :: le(a, b) == leKey(key(a), key(b))
    ensures MapSeq(key, Sort(s, le)) == Sort(MapSeq(key, s), leKey)
  {
    if |s| > 0 {
      SortByKey(s[..|s| - 1], key, le, leKey);
      InsertByKey(s[|s| - 1], Sort(s[..|s| - 1], le), key, le, leKey);
      assert MapSeq(key, s)[..|s| - 1] == MapSeq(key, s[..|s| - 1]);
    }
  }

  /** Applying a function element-wise keeps multiset equality. */
  lemma {:induction false} MapSeqMultiset<T, K>(f: T -> K, s: seq<T>, t: seq<T>)
    requires multiset(s) == multiset(t)
    ensures multiset(MapSeq(f, s)) == multiset(MapSeq(f, t))
    decreases |s|
  {
    if |s| == 0 {
      assert |multiset(t)| == 0;
      assert |t| == 0;
    } else {
      assert s[0] in multiset(t);
      var k :| 0 <= k < |t| && t[k] == s[0];
      var t' := t[..k] + t[k + 1..];
      MultisetTail(s);
      MultisetRemove(t, k);
      MapSeqMultiset(f, s[1..], t');
      MapSeqRemove(f, t, k);
      var ms := MapSeq(f, s);
      MultisetTail(ms);
      MapSeqTail(f, s);
      assert multiset(ms) == multiset{f(s[0])} + multiset(MapSeq(f, s[1..]));
    }
  }

  lemma MapSeqTail<T, K>(f: T -> K, s: seq<T>)
    requires |s| > 0
    ensures MapSeq(f, s)[1..] == MapSeq(f, s[1..])
  {
    assert |MapSeq(f, s)[1..]| == |MapSeq(f, s[1..])|;
    forall i | 0 <= i < |s| - 1
      ensures MapSeq(f, s)[1..][i] == MapSeq(f, s[1..])[i]
    {
      assert s[1..][i] == s[i + 1];
    }
  }

  lemma MapSeqRemove<T, K>(f: T -> K, t: seq<T>, k: nat)
    requires k < |t|
    ensures multiset(MapSeq(f, t)) == multiset(MapSeq(f, t[..k] + t[k + 1..])) + multiset{f(t[k])}
  {
    var m := MapSeq(f, t);
    var r := MapSeq(f, t[..k] + t[k + 1..]);
    assert |r| == |m[..k] + m[k + 1..]|;
    forall i | 0 <= i < |r|
      ensures r[i] == (m[..k] + m[k + 1..])[i]
    {
      if i < k {
        assert (t[..k] + t[k + 1..])[i] == t[i];
      } else {
        assert (t[..k] + t[k + 1..])[i] == t[i + 1];
      }
    }
    assert r == m[..k] + m[k + 1..];
    MultisetRemove(m, k);
  }

  lemma {:induction false} MapSeqConcat<T, K>(f: T -> K, a: seq<T>, b: seq<T>)
    ensures MapSeq(f, a + b) == MapSeq(f, a) + MapSeq(f, b)
  {
  }
}
