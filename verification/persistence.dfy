/** Saving and loading the phone book. The file and its JSON encoding are
    outside the model: saving yields the list of entry values that would be
    serialised, and loading starts from what reading and parsing the file
    produced. */
module Persistence {
  import opened Entries

  /** Saving writes the store's values, in the dictionary's order. */
  function SavePhoneBook(s: Store, order: seq<string>): (records: seq<Entry>)
    requires IsEnumeration(s, order)
    ensures |records| == |s|
    ensures forall e :: e in records <==> e in s.Values
  {
    ValuesInEnumeration(s, order);
    ValuesIn(s, order)
  }

  /** What reading the file produced: no file, text that does not parse, or
      the parsed list of records. */
  datatype LoadSource = Missing | Unparsable | Parsed(records: seq<Entry>)

  datatype LoadError = ParseError | DuplicateKey(nationalId: string)

  datatype LoadStatus = Loaded | FileDoesNotExist | LoadFailed(error: LoadError)

  datatype LoadOutcome = LoadOutcome(status: LoadStatus, store: Store)

  /** The records that loading keys: those with a non-empty national ID. */
  predicate Keyed(e: Entry) {
    e.nationalId != ""
  }

  /** No two keyed records share a national ID. */
  predicate DistinctIds(rs: seq<Entry>) {
    forall i, j :: 0 <= i < j < |rs| && Keyed(rs[i]) ==> rs[i].nationalId != rs[j].nationalId
  }

  /** `m` holds exactly the keyed records of `rs`, each under its own national ID. */
  ghost predicate Indexes(m: Store, rs: seq<Entry>) {
    && (forall k :: k in m ==> exists i :: 0 <= i < |rs| && Keyed(rs[i]) && rs[i].nationalId == k)
    && (forall i :: 0 <= i < |rs| && Keyed(rs[i]) ==> rs[i].nationalId in m && m[rs[i].nationalId] == rs[i])
  }

  /** Record `j` is the first keyed record whose national ID was already keyed
      by an earlier record. */
  ghost predicate FirstClashAt(rs: seq<Entry>, j: int) {
    && 0 <= j < |rs|
    && Keyed(rs[j])
    && DistinctIds(rs[..j])
    && exists i :: 0 <= i < j && rs[i].nationalId == rs[j].nationalId
  }

  /** What the refilling loop leaves: on success exactly the keyed records,
      each under its own national ID; on a repeated national ID a failure
      naming it, with the store holding the records before the first repeat. */
  ghost predicate InsertRecordsMeets(rs: seq<Entry>, r: LoadOutcome) {
    && Valid(r.store)
    && (r.status == Loaded || r.status.LoadFailed?)
    && (r.status == Loaded <==> DistinctIds(rs))
    && (r.status == Loaded ==> Indexes(r.store, rs))
    && (r.status.LoadFailed? ==>
          && r.status.error.DuplicateKey?
          && exists j :: FirstClashAt(rs, j) && rs[j].nationalId == r.status.error.nationalId
                         && Indexes(r.store, rs[..j]))
  }

  /** A clash inside the prefix stays the first clash once a record is appended. */
  lemma ClashPersists(p: seq<Entry>, e: Entry, id: string, m: Store)
    requires exists j :: FirstClashAt(p, j) && p[j].nationalId == id && Indexes(m, p[..j])
    ensures !DistinctIds(p + [e])
    ensures exists j :: FirstClashAt(p + [e], j) && (p + [e])[j].nationalId == id && Indexes(m, (p + [e])[..j])
  {
    var rs := p + [e];
    var j :| FirstClashAt(p, j) && p[j].nationalId == id && Indexes(m, p[..j]);
    assert rs[..j] == p[..j];
    var i :| 0 <= i < j && p[i].nationalId == p[j].nationalId;
    assert rs[i] == p[i] && rs[j] == p[j];
    assert FirstClashAt(rs, j);
  }

  /** Appending one record to a duplicate-free prefix that `m` indexes. */
  lemma AppendRecord(p: seq<Entry>, e: Entry, m: Store)
    requires DistinctIds(p) && Indexes(m, p)
    ensures !Keyed(e) ==> DistinctIds(p + [e]) && Indexes(m, p + [e])
    ensures Keyed(e) && e.nationalId !in m ==>
              DistinctIds(p + [e]) && Indexes(m[e.nationalId := e], p + [e])
    ensures Keyed(e) && e.nationalId in m ==>
              !DistinctIds(p + [e]) && FirstClashAt(p + [e], |p|) && (p + [e])[..|p|] == p
  {
    var rs := p + [e];
    assert forall i :: 0 <= i < |p| ==> rs[i] == p[i];
    assert rs[..|p|] == p;
    if Keyed(e) && e.nationalId in m {
      var i :| 0 <= i < |p| && Keyed(p[i]) && p[i].nationalId == e.nationalId;
      assert rs[i].nationalId == rs[|p|].nationalId;
    } else if Keyed(e) {
      var m' := m[e.nationalId := e];
      forall k | k in m'
        ensures exists i :: 0 <= i < |rs| && Keyed(rs[i]) && rs[i].nationalId == k
      {
        if k == e.nationalId {
          assert rs[|p|] == e;
        } else {
          var i :| 0 <= i < |p| && Keyed(p[i]) && p[i].nationalId == k;
          assert rs[i] == p[i];
        }
      }
    }
  }

  /** The loop that refills the cleared dictionary from the parsed records,
      given as the state after the first `|rs|` of them. Adding a national ID
      that is already present throws, which ends the loop with the entries
      added so far. */
  function InsertRecords(rs: seq<Entry>): (r: LoadOutcome)
    ensures InsertRecordsMeets(rs, r)
    decreases |rs|
  {
    if rs == [] then LoadOutcome(Loaded, map[])
    else
      var p := rs[..|rs| - 1];
      var e := rs[|rs| - 1];
      assert rs == p + [e];
      var prev := InsertRecords(p);
      if prev.status != Loaded then
        ClashPersists(p, e, prev.status.error.nationalId, prev.store);
        prev
      else
        AppendRecord(p, e, prev.store);
        if !Keyed(e) then prev
        else if e.nationalId in prev.store then LoadOutcome(LoadFailed(DuplicateKey(e.nationalId)), prev.store)
        else LoadOutcome(Loaded, prev.store[e.nationalId := e])
  }

  /** Loading: a missing file or unparsable text leaves the store as it was;
      parsed records replace the whole store. */
  function LoadPhoneBook(s: Store, source: LoadSource): (r: LoadOutcome)
    ensures source.Missing? ==> r == LoadOutcome(FileDoesNotExist, s)
    ensures source.Unparsable? ==> r == LoadOutcome(LoadFailed(ParseError), s)
    ensures source.Parsed? ==> InsertRecordsMeets(source.records, r)
    ensures Valid(s) ==> Valid(r.store)
  {
    match source
    case Missing => LoadOutcome(FileDoesNotExist, s)
    case Unparsable => LoadOutcome(LoadFailed(ParseError), s)
    case Parsed(records) => InsertRecords(records)
  }

  /** Two stores that index the same records are the same store. */
  lemma IndexesDetermines(m: Store, s: Store, rs: seq<Entry>)
    requires Indexes(m, rs) && Indexes(s, rs)
    ensures m == s
  {
  }

  /** Loading what was saved rebuilds the saved store, whatever the store that
      loads it held before and whatever order the values were saved in. */
  lemma SaveLoadRoundTrip(s: Store, order: seq<string>, current: Store)
    requires Valid(s) && IsEnumeration(s, order)
    ensures LoadPhoneBook(current, Parsed(SavePhoneBook(s, order))) == LoadOutcome(Loaded, s)
  {
    var rs := SavePhoneBook(s, order);
    assert forall i :: 0 <= i < |rs| ==> rs[i] == s[order[i]] && rs[i].nationalId == order[i];
    assert DistinctIds(rs);
    var r := LoadPhoneBook(current, Parsed(rs));
    assert Indexes(s, rs) by {
      forall k | k in s
        ensures exists i :: 0 <= i < |rs| && Keyed(rs[i]) && rs[i].nationalId == k
      {
        var i :| 0 <= i < |order| && order[i] == k;
        assert rs[i].nationalId == k;
      }
    }
    IndexesDetermines(r.store, s, rs);
  }
}
