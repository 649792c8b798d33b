/** The history of who held which lock and for how long. */
module Tenures {

  /** `end` is the promised expiry, or the moment of an earlier release. */
  datatype Tenure<+K, +T> = Tenure(key: K, holder: string, start: T, end: T, released: bool)

  ghost predicate IsLast<K, T>(ledger: seq<Tenure<K, T>>, key: K, i: int)
  {
    0 <= i < |ledger| && ledger[i].key == key && forall j :: i < j < |ledger| ==> ledger[j].key != key
  }

  /** The index of the latest tenure of `key`, or -1. */
  ghost function LastTenure<K, T>(ledger: seq<Tenure<K, T>>, key: K): (i: int)
    ensures -1 <= i < |ledger|
    ensures i >= 0 ==> IsLast(ledger, key, i)
    ensures i < 0 ==> forall j :: 0 <= j < |ledger| ==> ledger[j].key != key
  {
    if ledger == [] then -1
    else if ledger[|ledger| - 1].key == key then |ledger| - 1
    else LastTenure(ledger[..|ledger| - 1], key)
  }

  /** The latest tenure of `key` ends at `end`, by a release if `released`. */
  ghost function Closed<K, T>(ledger: seq<Tenure<K, T>>, key: K, end: T, released: bool): seq<Tenure<K, T>>
  {
    var i := LastTenure(ledger, key);
    if i < 0 then ledger else ledger[i := ledger[i].(end := end, released := released)]
  }
}
