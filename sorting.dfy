/** The ordering an `ORDER BY` gives a query result, as a stable insertion
    sort by a total preorder. Rows the preorder ranks as equal keep the
    order they came in, which is one of the orders the database may use. */
module Sorting {

  ghost predicate IsTotalPreorder<T(!new)>(le: (T, T) -> bool) {
    && (forall a, b :: le(a, b) || le(b, a))
    && (forall a, b, c :: le(a, b) && le(b, c) ==> le(a, c))
  }

  predicate SortedBy<T>(s: seq<T>, le: (T, T) -> bool) {
    forall i, j :: 0 <= i < j < |s| ==> le(s[i], s[j])
  }

  function InsertBy<T(!new)>(x: T, s: seq<T>, le: (T, T) -> bool): (r: seq<T>)
    requires IsTotalPreorder(le)
    requires SortedBy(s, le)
    ensures SortedBy(r, le)
    ensures multiset(r) == multiset(s) + multiset{x}
    ensures |r| == |s| + 1
  {
    if |s| == 0 then [x]
    else if le(x, s[0]) then [x] + s
    else
      var rest := InsertBy(x, s[1..], le);
      assert s == [s[0]] + s[1..];
      assert le(s[0], x);
      assert forall i :: 0 <= i < |rest| ==> le(s[0], rest[i]) by {
        forall i | 0 <= i < |rest|
          ensures le(s[0], rest[i])
        {
          assert rest[i] in multiset(rest);
          assert rest[i] == x || rest[i] in s[1..];
        }
      }
      [s[0]] + rest
  }

  /** `sorted(s, key=...)`: a sorted permutation of `s`. */
  function SortBy<T(!new)>(s: seq<T>, le: (T, T) -> bool): (r: seq<T>)
    requires IsTotalPreorder(le)
    ensures SortedBy(r, le)
    ensures multiset(r) == multiset(s)
    ensures |r| == |s|
  {
    if |s| == 0 then []
    else
      assert s == [s[0]] + s[1..];
      InsertBy(s[0], SortBy(s[1..], le), le)
  }

  /** The elements of a finite set, in some order, each once. */
  ghost function SetToSeq<T(!new)>(s: set<T>): (r: seq<T>)
    ensures |r| == |s|
    ensures forall x :: x in r <==> x in s
    ensures forall i, j :: 0 <= i < j < |r| ==> r[i] != r[j]
  {
    if s == {} then []
    else
      var x :| x in s;
      [x] + SetToSeq(s - {x})
  }

  /** Two sequences with the same elements counted with multiplicity have
      the same members. */
  lemma SameMembers<T>(s: seq<T>, t: seq<T>)
    requires multiset(s) == multiset(t)
    ensures forall x :: x in s <==> x in t
  {
    forall x
      ensures x in s <==> x in t
    {
      assert x in s <==> x in multiset(s);
      assert x in t <==> x in multiset(t);
    }
  }

  /** The rows of a table whose every row sits under its own key `key(v)`
      that have their key in `keys`, in some order. */
  ghost function ValuesUnder<K(!new), V(!new)>(m: map<K, V>, keys: set<K>, key: V -> K): (rows: seq<V>)
    requires forall k :: k in m ==> key(m[k]) == k
    requires keys <= m.Keys
    ensures forall v :: v in rows <==> key(v) in keys && m[key(v)] == v
    ensures |rows| == |keys|
  {
    var ks := SetToSeq(keys);
    var rows := ValuesAt(m, ks);
    ValuesAtAreStored(m, keys, ks, rows, key);
    StoredAreValuesAt(m, keys, ks, rows, key);
    rows
  }

  function ValuesAt<K, V>(m: map<K, V>, ks: seq<K>): (rows: seq<V>)
    requires forall i :: 0 <= i < |ks| ==> ks[i] in m
    ensures |rows| == |ks| && forall i :: 0 <= i < |ks| ==> rows[i] == m[ks[i]]
  {
    seq(|ks|, i requires 0 <= i < |ks| => m[ks[i]])
  }

  lemma ValuesAtAreStored<K, V>(m: map<K, V>, keys: set<K>, ks: seq<K>, rows: seq<V>, key: V -> K)
    requires forall k :: k in m ==> key(m[k]) == k
    requires forall k :: k in ks ==> k in keys && k in m
    requires |rows| == |ks| && forall i :: 0 <= i < |ks| ==> rows[i] == m[ks[i]]
    ensures forall v :: v in rows ==> key(v) in keys && m[key(v)] == v
  {
    forall v | v in rows
      ensures key(v) in keys && m[key(v)] == v
    {
      var i :| 0 <= i < |rows| && rows[i] == v;
      assert ks[i] in ks;
    }
  }

  lemma StoredAreValuesAt<K, V>(m: map<K, V>, keys: set<K>, ks: seq<K>, rows: seq<V>, key: V -> K)
    requires forall k :: k in keys ==> k in ks
    requires |rows| == |ks| && forall i :: 0 <= i < |ks| ==> ks[i] in m && rows[i] == m[ks[i]]
    ensures forall v :: key(v) in keys && m[key(v)] == v ==> v in rows
  {
    forall v | key(v) in keys && m[key(v)] == v
      ensures v in rows
    {
      var i :| 0 <= i < |ks| && ks[i] == key(v);
      assert rows[i] == v;
    }
  }
}
