/** Reads over the in-memory tables that stand for the hosted database:
    a table is a map from row id to row; a query selects the rows a
    filter keeps and orders them by a key, as `.eq(...)` and
    `.order(...)` do remotely. */
module Tables {

  type Id = string

  predicate Distinct<T(==)>(s: seq<T>) {
    forall i, j :: 0 <= i < j < |s| ==> s[i] != s[j]
  }

  /** The keys of a table in the (unspecified) order the store visits them. */
  ghost function Enumerate(keys: set<Id>): (r: seq<Id>)
    ensures |r| == |keys|
    ensures Distinct(r)
    ensures forall k :: k in r <==> k in keys
    decreases |keys|
  {
    if keys == {} then []
    else
      var k :| k in keys;
      [k] + Enumerate(keys - {k})
  }

  /** The rows at keys `ks` that `keep` accepts, in the order of `ks`. */
  function Pick<T(==)>(ks: seq<Id>, m: map<Id, T>, keep: T -> bool): (r: seq<T>)
    requires forall k :: k in ks ==> k in m
    ensures forall x :: x in r ==> x in m.Values && keep(x)
    ensures forall k :: k in ks && keep(m[k]) ==> m[k] in r
    ensures Distinct(ks) ==> |r| == |set k | k in ks && keep(m[k])|
  {
    if ks == [] then []
    else
      var rest := Pick(ks[1..], m, keep);
      assert Distinct(ks) ==> Distinct(ks[1..]);
      assert (set k | k in ks && keep(m[k])) ==
        (set k | k in ks[1..] && keep(m[k])) + (if keep(m[ks[0]]) then {ks[0]} else {});
      if keep(m[ks[0]]) then [m[ks[0]]] + rest else rest
  }

  /** The rows of table `m` that `keep` accepts, each once. */
  ghost function Where<T(!new)>(m: map<Id, T>, keep: T -> bool): (r: seq<T>)
    ensures forall x :: x in r <==> x in m.Values && keep(x)
    ensures |r| == |set k | k in m && keep(m[k])|
    ensures (forall x :: keep(x)) ==> |r| == |m|
  {
    var ks := Enumerate(m.Keys);
    assert (set k | k in ks && keep(m[k])) == (set k | k in m && keep(m[k]));
    assert (forall x :: keep(x)) ==> (set k | k in m && keep(m[k])) == m.Keys;
    Pick(ks, m, keep)
  }

  /** Ascending order by `key`. */
  predicate SortedBy<T>(s: seq<T>, key: T -> int) {
    forall i, j :: 0 <= i < j < |s| ==> key(s[i]) <= key(s[j])
  }

  /** `x` placed before the first element whose key is not smaller. */
  function InsertBy<T>(x: T, s: seq<T>, key: T -> int): (r: seq<T>)
    requires SortedBy(s, key)
    ensures SortedBy(r, key)
    ensures multiset(r) == multiset(s) + multiset{x}
    ensures |r| == |s| + 1 && (r[0] == x || (s != [] && r[0] == s[0]))
  {
    if s == [] || key(x) <= key(s[0]) then
      SortedCons(x, s, key);
      [x] + s
    else
      var rest := InsertBy(x, s[1..], key);
      assert s == [s[0]] + s[1..];
      SortedCons(s[0], rest, key);
      [s[0]] + rest
  }

  /** An element no larger than the head of a sorted sequence extends it. */
  lemma SortedCons<T>(y: T, s: seq<T>, key: T -> int)
    requires SortedBy(s, key) && (s == [] || key(y) <= key(s[0]))
    ensures SortedBy([y] + s, key)
  {
    var r := [y] + s;
    forall i, j | 0 <= i < j < |r| ensures key(r[i]) <= key(r[j]) {
      if i > 0 {
        assert r[i] == s[i - 1] && r[j] == s[j - 1];
      } else {
        assert r[j] == s[j - 1];
      }
    }
  }

  /** A stable insertion sort: ascending by `key`, the same elements. */
  function SortBy<T>(s: seq<T>, key: T -> int): (r: seq<T>)
    ensures SortedBy(r, key)
    ensures multiset(r) == multiset(s)
    ensures |r| == |s|
  {
    if s == [] then []
    else
      assert s == [s[0]] + s[1..];
      InsertBy(s[0], SortBy(s[1..], key), key)
  }
  /** The number of rows of `m` that `keep` accepts (a `count: "exact"` query). */
  function CountWhere<T>(m: map<Id, T>, keep: T -> bool): nat {
    |set k | k in m && keep(m[k])|
  }

  /** The rows of `m` that `keep` accepts, each once, ascending by `key`. */
  ghost function Query<T(!new)>(m: map<Id, T>, keep: T -> bool, key: T -> int): (r: seq<T>)
    ensures forall x :: x in r <==> x in m.Values && keep(x)
    ensures |r| == CountWhere(m, keep)
    ensures (forall x :: keep(x)) ==> |r| == |m|
    ensures SortedBy(r, key)
  {
    var rows := Where(m, keep);
    var r := SortBy(rows, key);
    assert forall x :: x in r <==> x in rows by {
      forall x ensures x in r <==> x in rows {
        assert x in r <==> x in multiset(r);
        assert x in rows <==> x in multiset(rows);
      }
    }
    r
  }

  /** Inserting a row under a fresh key adds one to the count of every
      filter that accepts it and leaves the others unchanged. */
  lemma {:induction false} CountAfterInsert<T>(m: map<Id, T>, k: Id, x: T, keep: T -> bool)
    requires k !in m
    ensures CountWhere(m[k := x], keep) == CountWhere(m, keep) + (if keep(x) then 1 else 0)
  {
    var m' := m[k := x];
    var before := set j | j in m && keep(m[j]);
    var after := set j | j in m' && keep(m'[j]);
    if keep(x) {
      assert after == before + {k};
    } else {
      assert after == before;
    }
  }

  /** Deleting a row subtracts one from the count of every filter that
      accepted it; deleting an absent key changes nothing. */
  lemma {:induction false} CountAfterRemove<T>(m: map<Id, T>, k: Id, keep: T -> bool)
    ensures k in m ==> CountWhere(m - {k}, keep) == CountWhere(m, keep) - (if keep(m[k]) then 1 else 0)
    ensures k !in m ==> CountWhere(m - {k}, keep) == CountWhere(m, keep)
  {
    var before := set j | j in m && keep(m[j]);
    var m' := m - {k};
    var after := set j | j in m' && keep(m'[j]);
    if k in m && keep(m[k]) {
      assert before == after + {k};
    } else {
      assert after == before;
    }
  }
}
