/** Properties that relate several calls of the phone book's operations, or
    pin down their behaviour on particular inputs. */
module Properties {
  import opened Text
  import opened Entries
  import opened Sorting
  import opened PhoneBook
  import opened Persistence

  /** A string of `n` copies of one character. */
  function Repeat(c: char, n: nat): string
  {
    seq(n, _ => c)
  }

  /** Fifty characters is the longest name adding accepts; fifty-one is
      rejected as too long. */
  lemma NameLengthBoundary(s: Store, nationalId: string, phoneNumber: string)
    requires nationalId != "" && nationalId !in s
    requires phoneNumber != "" && |phoneNumber| <= MaxFieldLength
    ensures AddEntry(s, nationalId, Repeat('a', 50), phoneNumber).status == Success
    ensures AddEntry(s, nationalId, Repeat('a', 51), phoneNumber).status == NameTooLong
  {
  }

  /** Fifty characters is the longest phone number adding accepts; fifty-one
      is rejected as too long. */
  lemma PhoneLengthBoundary(s: Store, nationalId: string, name: string)
    requires nationalId != "" && nationalId !in s
    requires name != "" && |name| <= MaxFieldLength
    ensures AddEntry(s, nationalId, name, Repeat('5', 50)).status == Success
    ensures AddEntry(s, nationalId, name, Repeat('5', 51)).status == PhoneNumberTooLong
  {
  }

  /** After a successful add, looking up the national ID gives back exactly
      the fields that were added, and a second add of the same ID is refused
      without touching that entry. */
  lemma AddThenLookup(s: Store, nationalId: string, name: string, phoneNumber: string, name': string, phoneNumber': string)
    requires AddEntry(s, nationalId, name, phoneNumber).status == Success
    ensures var s' := AddEntry(s, nationalId, name, phoneNumber).store;
            && nationalId in s'
            && s'[nationalId] == Entry(nationalId, name, phoneNumber)
            && AddEntry(s', nationalId, name', phoneNumber') == Outcome(DuplicateNationalId, s')
  {
  }

  /** Deleting twice: the second delete of the same ID reports that nothing
      was found and changes nothing. */
  lemma DeleteTwice(s: Store, nationalId: string)
    requires DeleteEntry(s, nationalId).status == Success
    ensures var s' := DeleteEntry(s, nationalId).store;
            DeleteEntry(s', nationalId) == Outcome(NotFound, s')
  {
  }

  /** A store all of whose entries satisfy the field rules of adding. */
  predicate AllFieldsOk(s: Store) {
    forall k :: k in s ==> FieldsOk(s[k])
  }

  /** Adding only ever stores entries that satisfy the field rules. */
  lemma AddKeepsFieldRules(s: Store, nationalId: string, name: string, phoneNumber: string)
    requires AllFieldsOk(s)
    ensures AllFieldsOk(AddEntry(s, nationalId, name, phoneNumber).store)
  {
  }

  /** Updating does not re-check the new values: an entry that satisfied the
      field rules can be given an empty name or a phone number longer than
      fifty characters, both of which adding would refuse. */
  lemma UpdateSkipsFieldRules(s: Store, nationalId: string, name: string)
    requires nationalId != "" && nationalId in s
    ensures var r := UpdateEntry(s, nationalId, "", Repeat('5', 51));
            && r.status == Success
            && !FieldsOk(r.store[nationalId])
            && !AllFieldsOk(r.store)
    ensures AddEntry(s - {nationalId}, nationalId, "", "5").status == NoName
    ensures AddEntry(s - {nationalId}, nationalId, name, Repeat('5', 51)).status != Success
  {
    var r := UpdateEntry(s, nationalId, "", Repeat('5', 51));
    assert !FieldsOk(r.store[nationalId]);
  }

  /** Update followed by a lookup sees the new values; the national ID of the
      entry and every other entry stay as they were. */
  lemma UpdateThenLookup(s: Store, nationalId: string, newName: string, newPhoneNumber: string)
    requires Valid(s) && nationalId != "" && nationalId in s
    ensures var s' := UpdateEntry(s, nationalId, newName, newPhoneNumber).store;
            && s'[nationalId] == Entry(nationalId, newName, newPhoneNumber)
            && s' - {nationalId} == s - {nationalId}
  {
  }

  /** The listing is the only sequence that is sorted by name, holds exactly
      the store's values, and keeps the dictionary's order among equal names:
      an independent description of what displaying returns. */
  lemma DisplayIsTheStableSort(s: Store, order: seq<string>, listing: seq<Entry>)
    requires IsEnumeration(s, order) && |s| > 0
    requires SortedByName(listing)
    requires multiset(listing) == multiset(ValuesIn(s, order))
    requires forall n :: WithName(listing, n) == WithName(ValuesIn(s, order), n)
    ensures DisplayEntries(s, order) == Listed(listing)
  {
    var r := DisplayEntries(s, order);
    SortedRunsDetermine(r.entries, listing);
  }

  /** Searching ignores the case of ASCII letters in the term. */
  lemma SearchIgnoresTermCase(s: Store, order: seq<string>, term: string, term': string)
    requires IsEnumeration(s, order)
    requires SameUpToCase(term, term')
    ensures SearchEntries(s, order, term) == SearchEntries(s, order, term')
  {
    forall e: Entry ensures Matches(e, term) <==> Matches(e, term') {
      ContainsIgnoresTermCase(e.nationalId, term, term');
      ContainsIgnoresTermCase(e.name, term, term');
      ContainsIgnoresTermCase(e.phoneNumber, term, term');
    }
    var a := SearchEntries(s, order, term);
    var b := SearchEntries(s, order, term');
    if a.Found? && b.Found? {
      var values := ValuesIn(s, order);
      FilterHitsDetermined(values, term, term');
    }
  }

  /** Filtering with two terms that hit the same entries gives the same list. */
  lemma {:induction false} FilterHitsDetermined(vs: seq<Entry>, term: string, term': string)
    requires forall e :: Matches(e, term) <==> Matches(e, term')
    ensures FilterHits(vs, term) == FilterHits(vs, term')
  {
    if vs != [] {
      FilterHitsDetermined(vs[1..], term, term');
    }
  }

  /** A list that repeats a national ID after another record loads as a
      failure, yet the store it replaced is gone: what remains is the records
      added before the repeat. */
  lemma LoadRepeatedIdKeepsPrefix(s: Store, a: Entry, b: Entry, a': Entry)
    requires a.nationalId != "" && b.nationalId != "" && a.nationalId != b.nationalId
    requires a'.nationalId == a.nationalId
    ensures LoadPhoneBook(s, Parsed([a, b, a']))
         == LoadOutcome(LoadFailed(DuplicateKey(a.nationalId)), map[a.nationalId := a, b.nationalId := b])
  {
    var rs := [a, b, a'];
    assert rs[..2] == [a, b] && [a, b][..1] == [a] && [a][..0] == [];
    var one := map[a.nationalId := a];
    assert InsertRecords([a]) == LoadOutcome(Loaded, one);
    assert InsertRecords([a, b]) == LoadOutcome(Loaded, one[b.nationalId := b]);
  }
}
