/** The stable sort by name that the listing of all entries uses. */
module Sorting {
  import opened Text
  import opened Entries

  /** Every earlier entry's name is ordinally at most every later entry's name. */
  predicate SortedByName(es: seq<Entry>) {
    forall i, j :: 0 <= i < j < |es| ==> OrdinalLe(es[i].name, es[j].name)
  }

  /** The entries of `es` whose name is `n`, in their order in `es`. Stability
      of a sort by name means it keeps each of these runs as it was. */
  function WithName(es: seq<Entry>, n: string): (r: seq<Entry>)
    ensures forall e :: e in r <==> e in es && e.name == n
  {
    if es == [] then []
    else if es[0].name == n then [es[0]] + WithName(es[1..], n)
    else WithName(es[1..], n)
  }

  /** Places `x` in front of the first entry whose name is not below its own. */
  function Insert(x: Entry, es: seq<Entry>): seq<Entry>
  {
    if es == [] || OrdinalLe(x.name, es[0].name) then [x] + es
    else [es[0]] + Insert(x, es[1..])
  }

  lemma {:induction false} InsertPermutes(x: Entry, es: seq<Entry>)
    ensures multiset(Insert(x, es)) == multiset{x} + multiset(es)
  {
    if es != [] && !OrdinalLe(x.name, es[0].name) {
      InsertPermutes(x, es[1..]);
      assert es == [es[0]] + es[1..];
    }
  }

  lemma {:induction false} InsertSorted(x: Entry, es: seq<Entry>)
    requires SortedByName(es)
    ensures SortedByName(Insert(x, es))
  {
    if es == [] {
    } else if OrdinalLe(x.name, es[0].name) {
      forall j | 0 < j < |es|
        ensures OrdinalLe(x.name, es[j].name)
      {
        OrdinalLeTransitive(x.name, es[0].name, es[j].name);
      }
      var r := [x] + es;
      assert forall j :: 0 < j < |r| ==> r[j] == es[j - 1];
    } else {
      var tail := es[1..];
      InsertSorted(x, tail);
      InsertPermutes(x, tail);
      OrdinalLeTotal(x.name, es[0].name);
      var r := Insert(x, tail);
      forall j | 0 <= j < |r|
        ensures OrdinalLe(es[0].name, r[j].name)
      {
        assert r[j] in multiset(r);
        assert r[j] == x || r[j] in tail;
      }
    }
  }

  /** Inserting `x` keeps the run of every name as it was, with `x` added at
      the front of its own run. */
  lemma {:induction false} InsertKeepsRuns(x: Entry, es: seq<Entry>, n: string)
    ensures WithName(Insert(x, es), n)
         == (if x.name == n then [x] + WithName(es, n) else WithName(es, n))
  {
    if es == [] || OrdinalLe(x.name, es[0].name) {
      assert ([x] + es)[1..] == es;
    } else {
      InsertKeepsRuns(x, es[1..], n);
      assert ([es[0]] + Insert(x, es[1..]))[1..] == Insert(x, es[1..]);
      if x.name == n {
        assert es[0].name != n by {
          if es[0].name == n {
            OrdinalLeReflexive(n);
          }
        }
      }
    }
  }

  /** Stable insertion sort by name, the model of `OrderBy(e => e.Name)`. */
  function SortByName(es: seq<Entry>): (r: seq<Entry>)
    ensures SortedByName(r)
    ensures multiset(r) == multiset(es)
  {
    if es == [] then []
    else
      var rest := SortByName(es[1..]);
      InsertSorted(es[0], rest);
      InsertPermutes(es[0], rest);
      assert es == [es[0]] + es[1..];
      Insert(es[0], rest)
  }

  /** The sort is stable: entries with equal names keep their relative order. */
  lemma {:induction false} SortByNameStable(es: seq<Entry>, n: string)
    ensures WithName(SortByName(es), n) == WithName(es, n)
  {
    if es != [] {
      SortByNameStable(es[1..], n);
      InsertKeepsRuns(es[0], SortByName(es[1..]), n);
    }
  }

  lemma WithNameCons(e: Entry, es: seq<Entry>, n: string)
    ensures WithName([e] + es, n) == (if e.name == n then [e] + WithName(es, n) else WithName(es, n))
  {
  }

  /** Two sorted sequences with the same entries start with the same name. */
  lemma SortedHeadsShareName(a: seq<Entry>, b: seq<Entry>)
    requires SortedByName(a) && SortedByName(b)
    requires multiset(a) == multiset(b) && a != []
    ensures b != [] && a[0].name == b[0].name
  {
    assert a[0] in multiset(b);
    assert b[0] in multiset(a);
    var i :| 0 <= i < |a| && a[i] == b[0];
    var j :| 0 <= j < |b| && b[j] == a[0];
    OrdinalLeReflexive(a[0].name);
    OrdinalLeReflexive(b[0].name);
    assert OrdinalLe(a[0].name, b[0].name);
    assert OrdinalLe(b[0].name, a[0].name);
    OrdinalLeAntisymmetric(a[0].name, b[0].name);
  }

  /** Equal runs of a common head's name give equal heads, and once that head
      is dropped the runs of every name still agree. */
  lemma RunsAfterHead(a: seq<Entry>, b: seq<Entry>)
    requires a != [] && b != [] && a[0].name == b[0].name
    requires forall n :: WithName(a, n) == WithName(b, n)
    ensures a[0] == b[0]
    ensures forall n :: WithName(a[1..], n) == WithName(b[1..], n)
  {
    assert a == [a[0]] + a[1..] && b == [b[0]] + b[1..];
    WithNameCons(a[0], a[1..], a[0].name);
    WithNameCons(b[0], b[1..], a[0].name);
    assert WithName(a, a[0].name) == WithName(b, a[0].name);
    forall n ensures WithName(a[1..], n) == WithName(b[1..], n) {
      WithNameCons(a[0], a[1..], n);
      WithNameCons(b[0], b[1..], n);
      assert WithName(a, n) == WithName(b, n);
      if a[0].name == n {
        assert WithName(a, n)[1..] == WithName(a[1..], n);
        assert WithName(b, n)[1..] == WithName(b[1..], n);
      }
    }
  }

  /** Sortedness, the multiset of entries and the run of every name together
      fix a sequence: any listing with these three properties is the one the
      stable sort produces. */
  lemma {:induction false} SortedRunsDetermine(a: seq<Entry>, b: seq<Entry>)
    requires SortedByName(a) && SortedByName(b)
    requires multiset(a) == multiset(b)
    requires forall n :: WithName(a, n) == WithName(b, n)
    ensures a == b
    decreases |a|
  {
    if a != [] {
      SortedHeadsShareName(a, b);
      RunsAfterHead(a, b);
      assert a == [a[0]] + a[1..] && b == [b[0]] + b[1..];
      assert multiset(a) == multiset{a[0]} + multiset(a[1..]);
      assert multiset(b) == multiset{b[0]} + multiset(b[1..]);
      assert multiset(a[1..]) == multiset(a) - multiset{a[0]};
      assert multiset(b[1..]) == multiset(b) - multiset{b[0]};
      SortedRunsDetermine(a[1..], b[1..]);
    } else {
      assert |multiset(b)| == 0;
    }
  }
}
