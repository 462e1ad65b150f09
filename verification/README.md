# Phone book model

A Dafny model of the PhoneBook console application's entry store: a
dictionary from national ID to a `PhoneBookEntry` (national ID, name, phone
number) with validated add, update, delete, case-insensitive search, a listing
sorted by name, and save/load of the store's values.

Each operation is a pure function from the store (an immutable
`map<string, Entry>`) and the user's inputs to a status and the new store.
Each console message of add, update, delete, display, search and load
becomes one constructor of a status datatype (`PhoneBook.Status`,
`PhoneBook.Listing`, `PhoneBook.SearchResult`, `Persistence.LoadStatus`).
Save's two messages have no constructor (see `Persistence.SavePhoneBook`
under Left out).

Modules:

- `Text` (text.dfy): ASCII case folding, case-insensitive substring search
  with a reference definition, and the ordinal string order with its
  total-order laws.
- `Entries` (entries.dfy): `Entry`, `Store`, the store invariant `Valid`
  (every key is non-empty and equals its entry's national ID), and
  enumerations of the keys. An enumeration stands for the dictionary's
  traversal order, which the program does not control. The operations that
  depend on that order take one as a parameter.
- `Sorting` (sorting.dfy): the stable insertion sort by name that models
  `OrderBy(e => e.Name)`. It is proved sorted, a permutation, and stable. A
  proof also shows these three properties determine the result.
- `PhoneBook` (phonebook.dfy): add, update, delete, display and search.
- `Persistence` (persistence.dfy): save as the list of values; load from a
  missing file, unparsable text, or a parsed list of records; the save/load
  round trip.
- `Properties` (properties.dfy): laws that relate several calls. These cover
  the length boundaries, lookups after add and update, deleting twice, update
  skipping the field rules, and load's partial result on a repeated ID.
- `Session` (session.dfy): any sequence of store-changing operations keeps
  the store invariant.

Two behaviours of the program are worth stating directly:

- A failed load does not always leave the store unchanged. Loading clears
  the dictionary first and then adds the records one at a time. A repeated
  national ID makes `Dictionary.Add` throw part-way, and the exception is
  caught. The store is left with only the records added before the repeat
  (`Persistence.InsertRecords`, `Properties.LoadRepeatedIdKeepsPrefix`).
  A missing file or unparsable text does leave the store unchanged.
- The listing is sorted with the culture-aware comparer, under which
  "alice" sorts before "Bob". The model sorts by ordinal order instead,
  which puts "Bob" first (see Left out).

## Model

| member | source | states |
|---|---|---|
| `Text.Upper` | PhoneBookProject.cs:89-91 | Case folding maps each ASCII lower-case letter to its own upper-case letter and leaves every other character alone. |
| `Text.ContainsStep` | PhoneBookProject.cs:89-91 | An occurrence of the term starts at the first position of the text or lies in the rest of it. |
| `Text.Find` | PhoneBookProject.cs:89-91 | The scanning model of `Contains(term, OrdinalIgnoreCase)` reports a hit exactly when some position starts a case-insensitive occurrence of the term. |
| `Text.ContainsIgnoresTermCase` | PhoneBookProject.cs:89-91 | Containment ignoring case gives the same answer for two terms that differ only in letter case. |
| `Text.OrdinalLeReflexive` | PhoneBookProject.cs:70 | Every name sorts at or before itself. |
| `Text.OrdinalLeTotal` | PhoneBookProject.cs:70 | Any two names are comparable under the sort order. |
| `Text.OrdinalLeTransitive` | PhoneBookProject.cs:70 | The sort order on names is transitive. |
| `Text.OrdinalLeAntisymmetric` | PhoneBookProject.cs:70 | Two names that each sort at or before the other are equal. So ties are exactly equal names. |
| `Entries.EnumerationExists` | PhoneBookProject.cs:87 | Every store has a traversal order that lists each key exactly once. |
| `Entries.EnumerationLength` | PhoneBookProject.cs:64 | A traversal order has exactly as many positions as the dictionary has entries. |
| `Entries.ValuesInEnumeration` | PhoneBookProject.cs:87 | The values read in traversal order are exactly the store's values, one per key. |
| `Sorting.WithName` | PhoneBookProject.cs:70 | The run of a name holds exactly the entries of that name. |
| `Sorting.InsertPermutes` | PhoneBookProject.cs:70 | Inserting one entry adds exactly that entry to the multiset. |
| `Sorting.InsertSorted` | PhoneBookProject.cs:70 | Inserting into a sorted list keeps it sorted by name. |
| `Sorting.InsertKeepsRuns` | PhoneBookProject.cs:70 | Inserting puts the new entry at the front of its name's run and leaves every other run unchanged. |
| `Sorting.SortByName` | PhoneBookProject.cs:70 | The sorted list is ordered by name and is a permutation of the input. |
| `Sorting.SortByNameStable` | PhoneBookProject.cs:70 | Sorting keeps the relative order of entries with equal names. |
| `Sorting.SortedHeadsShareName` | PhoneBookProject.cs:70 | Two sorted permutations of the same entries start with the same name. |
| `Sorting.RunsAfterHead` | PhoneBookProject.cs:70 | Lists whose runs agree and whose heads share a name have the same head, and their tails' runs agree. |
| `Sorting.SortedRunsDetermine` | PhoneBookProject.cs:70 | Sorted by name, the same multiset, and equal runs for every name together force two lists to be equal. |
| `PhoneBook.AddEntry` | PhoneBookProject.cs:19-60 | Six checks in a fixed order: empty ID, duplicate ID, empty name, name over 50, empty phone, phone over 50. The first failure decides the status and leaves the store unchanged. Success adds exactly the new key, mapped to exactly the given fields, and keeps every other entry and the invariant. |
| `PhoneBook.UpdateEntry` | PhoneBookProject.cs:110-136 | An empty ID or an absent key reports failure and changes nothing. Otherwise the key set and the entry's national ID stay the same, only that entry's name and phone become the supplied values, and nothing is validated. The invariant is kept. |
| `PhoneBook.DeleteEntry` | PhoneBookProject.cs:138-154 | An empty ID or an absent key reports failure and changes nothing. Otherwise exactly that key is removed, every other entry is kept, and so is the invariant. |
| `PhoneBook.DisplayEntries` | PhoneBookProject.cs:62-75 | The empty indicator is returned exactly when the store is empty. Otherwise the result is all values, one per key, sorted by name, and stable with respect to traversal order. |
| `PhoneBook.EntryHit` | PhoneBookProject.cs:89-91 | An entry is a hit exactly when the term occurs, ignoring case, in its ID, its name or its phone number. |
| `PhoneBook.FilterHits` | PhoneBookProject.cs:86-95 | The hits form a subsequence of the traversal, and each matching value appears with its full multiplicity. |
| `PhoneBook.SearchEntries` | PhoneBookProject.cs:78-108 | An empty term is refused. "No matches" is reported exactly when no value matches. Otherwise the result is non-empty, in traversal order, and holds exactly the matching values. |
| `Persistence.SavePhoneBook` | PhoneBookProject.cs:160 | The saved records are exactly the store's values, one per entry. |
| `Persistence.ClashPersists` | PhoneBookProject.cs:181-186 | A repeated ID in the records already processed stays the first repeat when more records follow. |
| `Persistence.AppendRecord` | PhoneBookProject.cs:181-186 | One loop step: a record with an empty ID is skipped, a new ID is added under itself, and an ID already present is the first repeat. |
| `Persistence.InsertRecords` | PhoneBookProject.cs:179-188 | The refill loop succeeds exactly when no two keyed records share an ID, and then holds exactly the keyed records, each under its own ID. Otherwise it fails with the repeated ID and holds the records before the first repeat. The invariant holds either way. |
| `Persistence.LoadPhoneBook` | PhoneBookProject.cs:170-201 | A missing file or unparsable text reports failure and leaves the store unchanged. Parsed records replace the store as the refill loop describes. |
| `Persistence.IndexesDetermines` | PhoneBookProject.cs:179-186 | Two stores that hold exactly the same keyed records under their IDs are equal. |
| `Persistence.SaveLoadRoundTrip` | PhoneBookProject.cs:156-188 | Loading what was saved from a valid store rebuilds exactly that store, whatever was loaded into and whatever the traversal order. |
| `Properties.NameLengthBoundary` | PhoneBookProject.cs:39-43 | A 50-character name is accepted and a 51-character name is rejected as too long. |
| `Properties.PhoneLengthBoundary` | PhoneBookProject.cs:51-55 | A 50-character phone number is accepted and a 51-character one is rejected as too long. |
| `Properties.AddThenLookup` | PhoneBookProject.cs:27-31 | After an add, a lookup of the ID gives exactly the added fields, and a second add of that ID is refused with the store unchanged. |
| `Properties.DeleteTwice` | PhoneBookProject.cs:146-152 | A second delete of the same ID reports "not found" and changes nothing. |
| `Properties.AddKeepsFieldRules` | PhoneBookProject.cs:33-58 | Adding only stores entries with a non-empty name and phone number of at most 50 characters each. |
| `Properties.UpdateSkipsFieldRules` | PhoneBookProject.cs:127-133 | Update accepts an empty name and a 51-character phone number, which add refuses. So update can break the field rules. |
| `Properties.UpdateThenLookup` | PhoneBookProject.cs:124-133 | After an update, the entry under the ID carries that ID and the new values, and all other entries are unchanged. |
| `Properties.DisplayIsTheStableSort` | PhoneBookProject.cs:70 | Any list that is sorted by name, holds the store's values, and keeps traversal order among equal names is the listing that display returns. |
| `Properties.SearchIgnoresTermCase` | PhoneBookProject.cs:89-91 | Two search terms that differ only in letter case give the same result. |
| `Properties.FilterHitsDetermined` | PhoneBookProject.cs:86-95 | Filtering with two terms that hit the same entries gives the same list. |
| `Properties.LoadRepeatedIdKeepsPrefix` | PhoneBookProject.cs:179-200 | Loading [a, b, a'] where a' repeats a's ID fails. The old store is gone and exactly a and b remain. |
| `Session.Initial` | PhoneBookProject.cs:14-17 | The store starts empty and valid. |
| `Session.RunKeepsValid` | PhoneBookProject.cs:19-201 | Any sequence of adds, updates, deletes and loads keeps every key non-empty and equal to its entry's national ID. |
| `Session.SessionKeepsValid` | PhoneBookProject.cs:14-17 | Every store reachable from the empty start satisfies the invariant. |

## Left out

- `Program.Main`: the menu loop and all prompting are console I/O. The values it reads become parameters of the operations.
- `PhoneBook.UpdateEntry`: the two `Console.ReadLine` values are parameters. Printing the entry before the prompts is not modelled.
- Console output: each message of add, update, delete, display, search and load is a status constructor; save's messages are not modelled (see `Persistence.SavePhoneBook` below). The printed lines of a listing or a search are the returned entry sequence, and the printed count is its length.
- `Persistence.SavePhoneBook`: `File.WriteAllText`, its caught exceptions and save's two messages (success, and failure with the exception text) are not modelled. Saving never changes the store, so only the record list is modelled.
- `Persistence.LoadPhoneBook`: `File.Exists` and `File.ReadAllText` are external I/O. The outcome of reading and parsing is an input: missing, unparsable, or a parsed list. The JSON encoding is modelled as the identity on the list of entry values. Exception messages are not modelled.
- C# `null`: Dafny strings cannot be null. The null half of `string.IsNullOrEmpty`, a null `ReadLine`, a null property after parsing, and a JSON `null` list or list element are not modelled.
- `Text.Upper`: `StringComparison.OrdinalIgnoreCase` folds all of Unicode. The model folds ASCII letters only.
- `Text.OrdinalLe`: `OrderBy` uses the culture-sensitive default comparer. The model sorts by ordinal code-point order, so "Bob" sorts before "alice".
- `PhoneBook.AddEntry`: `string.Length` counts UTF-16 code units, but the model's 50-character limit counts Unicode scalar values. They differ only for characters outside the Basic Multilingual Plane.
- `Entries.IsEnumeration`: the actual traversal order of `Dictionary` is not modelled. Display, search and save accept any order that lists each key once.
