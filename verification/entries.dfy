/** The phone book's data: entries, the store that keys them by national ID,
    and the store invariant every operation keeps. */
module Entries {

  /** One contact record. */
  datatype Entry = Entry(nationalId: string, name: string, phoneNumber: string)

  /** The dictionary from national ID to entry. */
  type Store = map<string, Entry>

  /** The store invariant: every key is non-empty and is the national ID of
      the entry stored under it. */
  predicate Valid(s: Store) {
    forall k :: k in s ==> k != "" && s[k].nationalId == k
  }

  /** `order` lists every key of `s` exactly once. The dictionary yields its
      values in an order the program does not control; the operations that
      depend on that order take it as this parameter. */
  predicate IsEnumeration(s: Store, order: seq<string>) {
    && (forall k :: k in s ==> k in order)
    && (forall k :: k in order ==> k in s)
    && (forall i, j :: 0 <= i < j < |order| ==> order[i] != order[j])
  }

  /** The values of `s` in the order `order` visits their keys. */
  function ValuesIn(s: Store, order: seq<string>): seq<Entry>
    requires forall k :: k in order ==> k in s
  {
    seq(|order|, i requires 0 <= i < |order| => s[order[i]])
  }

  /** Every store can be enumerated, so the order-taking operations apply to
      every store. */
  lemma {:induction false} EnumerationExists(s: Store) returns (order: seq<string>)
    ensures IsEnumeration(s, order)
    decreases |s|
  {
    if s == map[] {
      order := [];
    } else {
      var k :| k in s;
      var rest := EnumerationExists(s - {k});
      order := [k] + rest;
    }
  }

  /** An enumeration has exactly one position per key. */
  lemma {:induction false} EnumerationLength(s: Store, order: seq<string>)
    requires IsEnumeration(s, order)
    ensures |order| == |s|
    decreases |order|
  {
    if order == [] {
      assert s.Keys == {};
    } else {
      var k := order[0];
      var rest := order[1..];
      assert IsEnumeration(s - {k}, rest) by {
        forall k' | k' in s - {k}
          ensures k' in rest
        {
          assert k' in order && k' != order[0];
        }
        forall k' | k' in rest
          ensures k' in s - {k}
        {
          assert k' in order;
        }
        forall i, j | 0 <= i < j < |rest|
          ensures rest[i] != rest[j]
        {
          assert rest[i] == order[i + 1] && rest[j] == order[j + 1];
        }
      }
      EnumerationLength(s - {k}, rest);
    }
  }

  /** Read in an enumeration's order, the values are exactly the store's values,
      one per key. */
  lemma ValuesInEnumeration(s: Store, order: seq<string>)
    requires IsEnumeration(s, order)
    ensures |ValuesIn(s, order)| == |s|
    ensures forall e :: e in ValuesIn(s, order) <==> e in s.Values
  {
    EnumerationLength(s, order);
    var vs := ValuesIn(s, order);
    forall e | e in s.Values
      ensures e in vs
    {
      var k :| k in s && s[k] == e;
      var i :| 0 <= i < |order| && order[i] == k;
      assert vs[i] == e;
    }
  }
}
