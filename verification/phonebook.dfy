/** The phone book's operations on an immutable store: each takes the store and
    the user's inputs and returns the reported status together with the new
    store. */
module PhoneBook {
  import opened Text
  import opened Entries
  import opened Sorting

  /** Longest name or phone number, in characters, that adding accepts. */
  const MaxFieldLength := 50

  /** What an add, update or delete reports; one constructor per message. */
  datatype Status =
    | Success
    | NoNationalId
    | DuplicateNationalId
    | NoName
    | NameTooLong
    | NoPhoneNumber
    | PhoneNumberTooLong
    | NotFound

  datatype Outcome = Outcome(status: Status, store: Store)

  /** The field rules adding enforces on a new entry. */
  predicate FieldsOk(e: Entry) {
    && e.name != "" && |e.name| <= MaxFieldLength
    && e.phoneNumber != "" && |e.phoneNumber| <= MaxFieldLength
  }

  /** Adds a new entry after six checks made in a fixed order; the first
      failing check decides the status and leaves the store as it was. */
  function AddEntry(s: Store, nationalId: string, name: string, phoneNumber: string): (r: Outcome)
    ensures r.status == NoNationalId <==> nationalId == ""
    ensures r.status == DuplicateNationalId <==> nationalId != "" && nationalId in s
    ensures r.status == NoName <==> nationalId != "" && nationalId !in s && name == ""
    ensures r.status == NameTooLong
        <==> nationalId != "" && nationalId !in s && name != "" && |name| > MaxFieldLength
    ensures r.status == NoPhoneNumber
        <==> && nationalId != "" && nationalId !in s && name != "" && |name| <= MaxFieldLength
             && phoneNumber == ""
    ensures r.status == PhoneNumberTooLong
        <==> && nationalId != "" && nationalId !in s && name != "" && |name| <= MaxFieldLength
             && phoneNumber != "" && |phoneNumber| > MaxFieldLength
    ensures r.status == Success
        <==> nationalId != "" && nationalId !in s && FieldsOk(Entry(nationalId, name, phoneNumber))
    ensures r.status != NotFound
    ensures r.status != Success ==> r.store == s
    ensures r.status == Success ==>
              && r.store.Keys == s.Keys + {nationalId}
              && |r.store| == |s| + 1
              && r.store[nationalId] == Entry(nationalId, name, phoneNumber)
              && forall k :: k in s ==> r.store[k] == s[k]
    ensures Valid(s) ==> Valid(r.store)
  {
    if nationalId == "" then Outcome(NoNationalId, s)
    else if nationalId in s then Outcome(DuplicateNationalId, s)
    else if name == "" then Outcome(NoName, s)
    else if |name| > MaxFieldLength then Outcome(NameTooLong, s)
    else if phoneNumber == "" then Outcome(NoPhoneNumber, s)
    else if |phoneNumber| > MaxFieldLength then Outcome(PhoneNumberTooLong, s)
    else Outcome(Success, s[nationalId := Entry(nationalId, name, phoneNumber)])
  }

  /** Replaces the name and phone number of the entry stored under
      `nationalId` with the two values read from the user, without checking
      them. The entry keeps its own national ID. */
  function UpdateEntry(s: Store, nationalId: string, newName: string, newPhoneNumber: string): (r: Outcome)
    ensures r.status == NoNationalId <==> nationalId == ""
    ensures r.status == NotFound <==> nationalId != "" && nationalId !in s
    ensures r.status == Success <==> nationalId != "" && nationalId in s
    ensures r.status != Success ==> r.store == s
    ensures r.status == Success ==>
              && r.store.Keys == s.Keys
              && r.store[nationalId].nationalId == s[nationalId].nationalId
              && r.store[nationalId].name == newName
              && r.store[nationalId].phoneNumber == newPhoneNumber
              && forall k :: k in s && k != nationalId ==> r.store[k] == s[k]
    ensures Valid(s) ==> Valid(r.store)
  {
    if nationalId == "" then Outcome(NoNationalId, s)
    else if nationalId !in s then Outcome(NotFound, s)
    else
      var entry := s[nationalId];
      Outcome(Success, s[nationalId := entry.(name := newName, phoneNumber := newPhoneNumber)])
  }

  /** Removes the entry stored under `nationalId`. */
  function DeleteEntry(s: Store, nationalId: string): (r: Outcome)
    ensures r.status == NoNationalId <==> nationalId == ""
    ensures r.status == NotFound <==> nationalId != "" && nationalId !in s
    ensures r.status == Success <==> nationalId != "" && nationalId in s
    ensures r.status != Success ==> r.store == s
    ensures r.status == Success ==>
              && r.store.Keys == s.Keys - {nationalId}
              && |r.store| == |s| - 1
              && forall k :: k in r.store ==> r.store[k] == s[k]
    ensures Valid(s) ==> Valid(r.store)
  {
    if nationalId == "" then Outcome(NoNationalId, s)
    else if nationalId !in s then Outcome(NotFound, s)
    else Outcome(Success, s - {nationalId})
  }

  /** What the listing of all entries shows. */
  datatype Listing = EmptyBook | Listed(entries: seq<Entry>)

  /** Lists every entry sorted by name, or reports that the book is empty. */
  function DisplayEntries(s: Store, order: seq<string>): (r: Listing)
    requires IsEnumeration(s, order)
    ensures r.EmptyBook? <==> |s| == 0
    ensures r.Listed? ==>
              && |r.entries| == |s|
              && (forall e :: e in r.entries <==> e in s.Values)
              && multiset(r.entries) == multiset(ValuesIn(s, order))
              && SortedByName(r.entries)
              && forall n :: WithName(r.entries, n) == WithName(ValuesIn(s, order), n)
  {
    if |s| == 0 then EmptyBook
    else
      var values := ValuesIn(s, order);
      ValuesInEnumeration(s, order);
      var sorted := SortByName(values);
      forall n ensures WithName(sorted, n) == WithName(values, n) {
        SortByNameStable(values, n);
      }
      assert |sorted| == |multiset(sorted)| == |values|;
      assert forall e :: e in sorted <==> e in multiset(sorted);
      Listed(sorted)
  }

  /** `a` can be obtained from `b` by deleting elements. */
  predicate IsSubsequence<T(==)>(a: seq<T>, b: seq<T>)
    decreases |b|
  {
    || a == []
    || (&& b != []
        && (|| (a[0] == b[0] && IsSubsequence(a[1..], b[1..]))
            || IsSubsequence(a, b[1..])))
  }

  /** Reference meaning of a search hit: the term occurs, ignoring case, in the
      entry's national ID, name or phone number. */
  ghost predicate Matches(e: Entry, term: string) {
    || ContainsIgnoreCase(e.nationalId, term)
    || ContainsIgnoreCase(e.name, term)
    || ContainsIgnoreCase(e.phoneNumber, term)
  }

  /** The scanning test the search applies to each entry. */
  predicate EntryHit(e: Entry, term: string): (hit: bool)
    ensures hit <==> Matches(e, term)
  {
    Find(e.nationalId, term) || Find(e.name, term) || Find(e.phoneNumber, term)
  }

  /** Keeps the entries of `vs` that the term hits, in their order in `vs`. */
  function FilterHits(vs: seq<Entry>, term: string): (r: seq<Entry>)
    ensures IsSubsequence(r, vs)
    ensures forall e :: multiset(r)[e] == if Matches(e, term) then multiset(vs)[e] else 0
  {
    if vs == [] then []
    else
      var rest := FilterHits(vs[1..], term);
      assert vs == [vs[0]] + vs[1..];
      if EntryHit(vs[0], term) then
        assert ([vs[0]] + rest)[1..] == rest;
        [vs[0]] + rest
      else
        rest
  }

  /** What a search shows. */
  datatype SearchResult = NoSearchTerm | NoMatches | Found(entries: seq<Entry>)

  /** Searches every entry, in the dictionary's order, for the term. */
  function SearchEntries(s: Store, order: seq<string>, term: string): (r: SearchResult)
    requires IsEnumeration(s, order)
    ensures r.NoSearchTerm? <==> term == ""
    ensures r.NoMatches? <==> term != "" && forall e :: e in s.Values ==> !Matches(e, term)
    ensures r.Found? ==>
              && r.entries != []
              && IsSubsequence(r.entries, ValuesIn(s, order))
              && (forall e :: e in r.entries <==> e in s.Values && Matches(e, term))
              && forall e :: multiset(r.entries)[e]
                             == if Matches(e, term) then multiset(ValuesIn(s, order))[e] else 0
  {
    if term == "" then NoSearchTerm
    else
      var values := ValuesIn(s, order);
      ValuesInEnumeration(s, order);
      var hits := FilterHits(values, term);
      assert forall e :: e in hits <==> multiset(hits)[e] > 0;
      assert forall e :: e in values <==> multiset(values)[e] > 0;
      if hits == [] then NoMatches else Found(hits)
  }
}
