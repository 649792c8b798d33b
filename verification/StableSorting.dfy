/** The stable sort by an integer key that `sorted(..., key=...)` and `list.sort(key=...)` perform. */
module StableSorting {

  function Insert<T(!new)>(x: T, s: seq<T>, key: T -> int): seq<T>
  {
    if s == [] || key(x) <= key(s[0]) then [x] + s else [s[0]] + Insert(x, s[1..], key)
  }

  function StableSort<T(!new)>(s: seq<T>, key: T -> int): seq<T>
  {
    if s == [] then [] else Insert(s[0], StableSort(s[1..], key), key)
  }

  ghost predicate SortedBy<T(!new)>(s: seq<T>, key: T -> int)
  {
    forall i, j :: 0 <= i < j < |s| ==> key(s[i]) <= key(s[j])
  }

  /** The elements with key `v`, in the order in which they stand in `s`. */
  function WithKey<T(!new)>(s: seq<T>, key: T -> int, v: int): (r: seq<T>)
    ensures forall x :: x in r <==> x in s && key(x) == v
  {
    if s == [] then [] else (if key(s[0]) == v then [s[0]] else []) + WithKey(s[1..], key, v)
  }

  lemma WithKeyOfAppend<T(!new)>(s: seq<T>, e: T, key: T -> int, v: int)
    ensures WithKey(s + [e], key, v) == WithKey(s, key, v) + (if key(e) == v then [e] else [])
  {
    if s != [] {
      assert (s + [e])[1..] == s[1..] + [e];
      WithKeyOfAppend(s[1..], e, key, v);
    }
  }

  lemma WithKeyOfCons<T(!new)>(x: T, s: seq<T>, key: T -> int, v: int)
    ensures WithKey([x] + s, key, v) == (if key(x) == v then [x] else []) + WithKey(s, key, v)
  {
    assert ([x] + s)[1..] == s;
  }

  lemma {:induction false} InsertAdds<T(!new)>(x: T, s: seq<T>, key: T -> int)
    ensures multiset(Insert(x, s, key)) == multiset(s) + multiset{x}
  {
    if s == [] || key(x) <= key(s[0]) {
    } else {
      InsertAdds(x, s[1..], key);
      assert s == [s[0]] + s[1..];
    }
  }

  lemma {:induction false} InsertKeepsOrder<T(!new)>(x: T, s: seq<T>, key: T -> int)
    requires SortedBy(s, key)
    ensures SortedBy(Insert(x, s, key), key)
    ensures forall i :: 0 <= i < |Insert(x, s, key)| ==>
              key(x) <= key(Insert(x, s, key)[i]) || (s != [] && key(s[0]) <= key(Insert(x, s, key)[i]))
  {
    if s == [] || key(x) <= key(s[0]) {
    } else {
      InsertKeepsOrder(x, s[1..], key);
    }
  }

  lemma {:induction false} InsertIsStable<T(!new)>(x: T, s: seq<T>, key: T -> int, v: int)
    ensures WithKey(Insert(x, s, key), key, v) == WithKey([x] + s, key, v)
  {
    if s == [] || key(x) <= key(s[0]) {
    } else {
      var rest := Insert(x, s[1..], key);
      InsertIsStable(x, s[1..], key, v);
      assert Insert(x, s, key) == [s[0]] + rest;
      WithKeyOfCons(s[0], rest, key, v);
      WithKeyOfCons(x, s[1..], key, v);
      WithKeyOfCons(x, s, key, v);
    }
  }

  /** The result is sorted and a permutation of the input. */
  lemma {:induction false} SortOrders<T(!new)>(s: seq<T>, key: T -> int)
    ensures SortedBy(StableSort(s, key), key)
    ensures multiset(StableSort(s, key)) == multiset(s)
  {
    if s == [] {
    } else {
      SortOrders(s[1..], key);
      InsertKeepsOrder(s[0], StableSort(s[1..], key), key);
      InsertAdds(s[0], StableSort(s[1..], key), key);
      assert s == [s[0]] + s[1..];
    }
  }

  /** Elements with equal keys keep their order. */
  lemma {:induction false} SortIsStable<T(!new)>(s: seq<T>, key: T -> int, v: int)
    ensures WithKey(StableSort(s, key), key, v) == WithKey(s, key, v)
  {
    if s == [] {
    } else {
      SortIsStable(s[1..], key, v);
      InsertIsStable(s[0], StableSort(s[1..], key), key, v);
      WithKeyOfCons(s[0], StableSort(s[1..], key), key, v);
    }
  }

  lemma {:induction false} SortOfSorted<T(!new)>(s: seq<T>, key: T -> int)
    requires SortedBy(s, key)
    ensures StableSort(s, key) == s
  {
    if s != [] {
      SortOfSorted(s[1..], key);
    }
  }
}
