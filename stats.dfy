/** The /stats handler: totals, two batch counters and three key-to-count tables. */
module Stats {
  import opened Wrappers
  import opened Records

  type Entry = (string, int)

  // ------------------------------------------------------------ grouping

  /** A null department is "Unknown"; an empty one stays "". */
  function DepartmentKey(a: Alumni): (k: string)
    ensures a.department.Some? ==> k == a.department.value
    ensures a.department.None? ==> k == "Unknown"
  {
    match a.department
    case None => "Unknown"
    case Some(d) => d
  }

  /** A null or empty company is "Unknown". */
  function CompanyKey(a: Alumni): (k: string)
    ensures k != []
    ensures a.company.Some? && a.company.value != [] ==> k == a.company.value
    ensures a.company.None? || a.company.value == [] ==> k == "Unknown"
  {
    if a.company.None? || a.company.value == [] then "Unknown" else a.company.value
  }

  /** A null or empty address is "Unknown". */
  function LocationKey(a: Alumni): (k: string)
    ensures k != []
    ensures a.address.Some? && a.address.value != [] ==> k == a.address.value
    ensures a.address.None? || a.address.value == [] ==> k == "Unknown"
  {
    if a.address.None? || a.address.value == [] then "Unknown" else a.address.value
  }

  /** One more occurrence of key k: its count goes up by one, starting from 0 (Server.java:164). */
  function Bump(m: map<string, int>, k: string): (r: map<string, int>)
    ensures r.Keys == m.Keys + {k}
    ensures r[k] == (if k in m then m[k] else 0) + 1
    ensures forall j :: j in m && j != k ==> r[j] == m[j]
  {
    m[k := (if k in m then m[k] else 0) + 1]
  }

  /** The table built by bumping each record's key in turn: every count is positive. */
  function Tally(records: seq<Alumni>, key: Alumni -> string): (m: map<string, int>)
    ensures forall k :: k in m ==> m[k] >= 1
    ensures |m| <= |records|
  {
    if records == [] then map[]
    else Bump(Tally(records[..|records| - 1], key), key(records[|records| - 1]))
  }

  /** Counting one more record bumps its key by one and leaves the other keys alone. */
  lemma TallySnoc(records: seq<Alumni>, a: Alumni, key: Alumni -> string)
    ensures Tally(records + [a], key) == Bump(Tally(records, key), key(a))
  {
    assert (records + [a])[..|records|] == records;
  }

  /**
   * An empty department is a key of its own, while an empty company or
   * address is counted as "Unknown".
   */
  lemma EmptyFieldsAreCountedApart(a: Alumni)
    requires a.department == Some("") && a.company == Some("") && a.address == Some("")
    ensures Tally([a], DepartmentKey) == map["" := 1]
    ensures Tally([a], CompanyKey) == map["Unknown" := 1]
    ensures Tally([a], LocationKey) == map["Unknown" := 1]
  {
    assert [a][..0] == [];
  }

  /** Counting one more record for a batch counter. */
  lemma CountYearSnoc(records: seq<Alumni>, a: Alumni, y: int)
    ensures |Filter(HasYear(y), records + [a])| == |Filter(HasYear(y), records)| + (if a.year == y then 1 else 0)
  {
    FilterSnoc(HasYear(y), records, a);
    assert HasYear(y)(a) == (a.year == y);
  }

  function HasKey(key: Alumni -> string, k: string): Alumni -> bool {
    a => key(a) == k
  }

  /**
   * The table holds a key exactly when some record has it, and then the
   * number of records that have it.
   */
  lemma {:induction false} TallyCounts(records: seq<Alumni>, key: Alumni -> string, k: string)
    ensures k in Tally(records, key) <==> |Filter(HasKey(key, k), records)| > 0
    ensures k in Tally(records, key) ==> Tally(records, key)[k] == |Filter(HasKey(key, k), records)|
  {
    if records != [] {
      var prefix := records[..|records| - 1];
      var a := records[|records| - 1];
      TallyCounts(prefix, key, k);
      assert records == prefix + [a];
      FilterSnoc(HasKey(key, k), prefix, a);
    }
  }

  // --------------------------------------------------------- value sums

  ghost function PickKey(m: map<string, int>): (k: string)
    requires m != map[]
    ensures k in m
  {
    var k :| k in m; k
  }

  /** The sum of the values of a map. */
  ghost function SumValues(m: map<string, int>): int
    decreases |m|
  {
    if m == map[] then 0
    else
      var k := PickKey(m);
      assert |m - {k}| < |m| by { assert m.Keys == (m - {k}).Keys + {k}; }
      m[k] + SumValues(m - {k})
  }

  /** The sum does not depend on which key is taken out first. */
  lemma SumValuesRemove(m: map<string, int>, k: string)
    requires k in m
    ensures SumValues(m) == m[k] + SumValues(m - {k})
    decreases |m|
  {
    var j := PickKey(m);
    if j != k {
      assert |m - {j}| < |m| by { assert m.Keys == (m - {j}).Keys + {j}; }
      assert |m - {k}| < |m| by { assert m.Keys == (m - {k}).Keys + {k}; }
      SumValuesRemove(m - {j}, k);
      SumValuesRemove(m - {k}, j);
      assert m - {j} - {k} == m - {k} - {j};
    }
  }

  /** Every record is counted once in each table. */
  lemma {:induction false} TallySum(records: seq<Alumni>, key: Alumni -> string)
    ensures SumValues(Tally(records, key)) == |records|
  {
    if records != [] {
      var prefix := records[..|records| - 1];
      var m := Tally(prefix, key);
      var k := key(records[|records| - 1]);
      var m' := Tally(records, key);
      TallySum(prefix, key);
      SumValuesRemove(m', k);
      assert m' - {k} == m - {k};
      if k in m {
        SumValuesRemove(m, k);
      } else {
        assert m - {k} == m;
      }
    }
  }

  /** The sum of the counts of a list of entries. */
  function SumCounts(entries: seq<Entry>): int {
    if entries == [] then 0 else SumCounts(entries[..|entries| - 1]) + entries[|entries| - 1].1
  }

  lemma ItemsRemove(m: map<string, int>, k: string)
    requires k in m
    ensures multiset(m.Items) == multiset((m - {k}).Items) + multiset{(k, m[k])}
  {
    var m' := m - {k};
    var e := (k, m[k]);
    forall x ensures x in m.Items <==> x in m'.Items || x == e {
      if x in m.Items {
        assert x.0 in m && m[x.0] == x.1;
        if x.0 != k {
          assert x.0 in m' && m'[x.0] == x.1;
        }
      }
      if x in m'.Items {
        assert x.0 in m' && m'[x.0] == x.1;
      }
    }
    assert m.Items == m'.Items + {e};
    assert e !in m'.Items;
  }

  /** A list holding each entry of a map once has the map's size and value sum. */
  lemma {:induction false} SumCountsOfItems(entries: seq<Entry>, m: map<string, int>)
    requires multiset(entries) == multiset(m.Items)
    ensures |entries| == |m|
    ensures SumCounts(entries) == SumValues(m)
    decreases |entries|
  {
    if entries == [] {
      assert m.Items == {};
    } else {
      var rest := entries[..|entries| - 1];
      var e := entries[|entries| - 1];
      assert entries == rest + [e];
      assert e in multiset(m.Items);
      var k := e.0;
      assert e == (k, m[k]);
      ItemsRemove(m, k);
      assert multiset(entries) == multiset(rest) + multiset{e};
      assert multiset(rest) == multiset(entries) - multiset{e};
      assert multiset((m - {k}).Items) == multiset(m.Items) - multiset{e};
      assert |m - {k}| == |m| - 1 by { assert m.Keys == (m - {k}).Keys + {k}; }
      SumCountsOfItems(rest, m - {k});
      SumValuesRemove(m, k);
    }
  }

  // ------------------------------------------------------------- sorting

  predicate NonIncreasing(entries: seq<Entry>) {
    forall i, j :: 0 <= i < j < |entries| ==> entries[i].1 >= entries[j].1
  }

  /** Places `e` after every entry whose count is at least its own. */
  function Insert(sorted: seq<Entry>, e: Entry): (r: seq<Entry>)
    ensures multiset(r) == multiset(sorted) + multiset{e}
  {
    if sorted == [] || sorted[0].1 < e.1 then [e] + sorted
    else
      assert sorted == [sorted[0]] + sorted[1..];
      [sorted[0]] + Insert(sorted[1..], e)
  }

  /** Insertion keeps a list sorted by count. */
  lemma {:induction false} InsertSorted(sorted: seq<Entry>, e: Entry)
    requires NonIncreasing(sorted)
    ensures NonIncreasing(Insert(sorted, e))
  {
    if sorted != [] && sorted[0].1 >= e.1 {
      var rest := Insert(sorted[1..], e);
      InsertSorted(sorted[1..], e);
      var r := Insert(sorted, e);
      assert r == [sorted[0]] + rest;
      forall j | 0 < j < |r| ensures r[0].1 >= r[j].1 {
        assert rest[j - 1] in multiset(rest);
        assert rest[j - 1] in sorted[1..] || rest[j - 1] == e;
      }
    }
  }

  /** The entries of `m`, sorted by count, highest first. */
  ghost predicate SortedEntriesOf(entries: seq<Entry>, m: map<string, int>) {
    NonIncreasing(entries) && multiset(entries) == multiset(m.Items)
  }

  /** An element found at two positions occurs at least twice. */
  lemma TwiceInMultiset(entries: seq<Entry>, i: nat, j: nat)
    requires i < j < |entries| && entries[i] == entries[j]
    ensures multiset(entries)[entries[i]] >= 2
  {
    var e := entries[j];
    assert entries == entries[..j] + [e] + entries[j + 1..];
    assert entries[..j][i] == e;
    assert e in multiset(entries[..j]);
  }

  /** The entries of a map, listed once each, have pairwise distinct keys. */
  lemma SortedEntriesDistinctKeys(entries: seq<Entry>, m: map<string, int>)
    requires SortedEntriesOf(entries, m)
    ensures forall i, j :: 0 <= i < j < |entries| ==> entries[i].0 != entries[j].0
  {
    forall i, j | 0 <= i < j < |entries| ensures entries[i].0 != entries[j].0 {
      assert entries[i] in multiset(m.Items) && entries[j] in multiset(m.Items);
      if entries[i] == entries[j] {
        TwiceInMultiset(entries, i, j);
      }
    }
  }

  /** The position of the first entry with key `k`, or the length when there is none. */
  function KeyIndex(linked: seq<Entry>, k: string): (i: nat)
    ensures i <= |linked|
    ensures i < |linked| ==> linked[i].0 == k
    ensures forall j :: 0 <= j < i ==> linked[j].0 != k
  {
    if linked == [] then 0
    else if linked[0].0 == k then 0
    else 1 + KeyIndex(linked[1..], k)
  }

  /**
   * LinkedHashMap.put: a new key goes last; an existing key keeps its
   * place and takes the new value, and every other entry stays as it was.
   */
  function Put(linked: seq<Entry>, e: Entry): (r: seq<Entry>)
    ensures KeyIndex(linked, e.0) == |linked| ==> r == linked + [e]
    ensures KeyIndex(linked, e.0) < |linked| ==>
              r == linked[..KeyIndex(linked, e.0)] + [e] + linked[KeyIndex(linked, e.0) + 1..]
  {
    if linked == [] then [e]
    else if linked[0].0 == e.0 then [e] + linked[1..]
    else
      var rest := linked[1..];
      assert linked == [linked[0]] + rest;
      [linked[0]] + Put(rest, e)
  }

  lemma PutNewKey(linked: seq<Entry>, e: Entry)
    requires forall i :: 0 <= i < |linked| ==> linked[i].0 != e.0
    ensures Put(linked, e) == linked + [e]
  {
    assert KeyIndex(linked, e.0) == |linked|;
  }

  /**
   * sortByValueDesc: the map's entries in its (unspecified) iteration order,
   * stably sorted by count, highest first, then put into a LinkedHashMap.
   */
  method SortByValueDesc(m: map<string, int>) returns (result: seq<Entry>)
    ensures SortedEntriesOf(result, m)
  {
    // The entries, in the map's (unspecified) iteration order (Server.java:381).
    var entries: seq<Entry> := [];
    var pending := m.Items;
    while pending != {}
      invariant pending <= m.Items
      invariant multiset(entries) + multiset(pending) == multiset(m.Items)
      decreases |pending|
    {
      var e :| e in pending;
      assert pending == (pending - {e}) + {e};
      entries := entries + [e];
      pending := pending - {e};
    }
    // A stable sort by count, highest first (Server.java:382).
    var sorted: seq<Entry> := [];
    for i := 0 to |entries|
      invariant NonIncreasing(sorted)
      invariant multiset(sorted) == multiset(entries[..i])
    {
      assert entries[..i + 1] == entries[..i] + [entries[i]];
      InsertSorted(sorted, entries[i]);
      sorted := Insert(sorted, entries[i]);
    }
    assert entries[..|entries|] == entries;
    // Into a LinkedHashMap in that order (Server.java:384).
    SortedEntriesDistinctKeys(sorted, m);
    result := [];
    for i := 0 to |sorted|
      invariant result == sorted[..i]
    {
      PutNewKey(result, sorted[i]);
      result := Put(result, sorted[i]);
      assert sorted[..i + 1] == sorted[..i] + [sorted[i]];
    }
    assert sorted[..|sorted|] == sorted;
  }

  // --------------------------------------------------------------- stats

  /** The map that /stats replies with, under its external key names. */
  datatype Stats = Stats(
    totalAlumni: int,          // "Total Alumni"
    recentBatch: int,          // "Recent Batch"
    currentBatch: int,         // "Current Batch"
    departments: int,          // "Departments"
    departmentCounts: seq<Entry>,  // "Department Counts"
    companies: int,            // "Companies"
    companyCounts: seq<Entry>,     // "Company Counts"
    locations: int,            // "Locations"
    locationCounts: seq<Entry>)    // "Location Counts"

  /** One table of the reply: the number of keys and the sorted entries. */
  ghost predicate CountsOf(size: int, entries: seq<Entry>, records: seq<Alumni>, key: Alumni -> string) {
    && size == |Tally(records, key)| == |entries|
    && SortedEntriesOf(entries, Tally(records, key))
    && SumCounts(entries) == |records|
  }

  /** Both batch counters and the three tables agree with the records so far. */
  ghost predicate Counted(records: seq<Alumni>, currentYear: int, recentBatch: int, currentBatch: int,
                          deptCounts: map<string, int>, companyCounts: map<string, int>,
                          locationCounts: map<string, int>) {
    && recentBatch == |Filter(HasYear(currentYear - 1), records)|
    && currentBatch == |Filter(HasYear(currentYear), records)|
    && deptCounts == Tally(records, DepartmentKey)
    && companyCounts == Tally(records, CompanyKey)
    && locationCounts == Tally(records, LocationKey)
  }

  /** One more record, with each counter and table advanced as the loop body does. */
  lemma CountedSnoc(records: seq<Alumni>, a: Alumni, currentYear: int, recentBatch: int, currentBatch: int,
                    deptCounts: map<string, int>, companyCounts: map<string, int>,
                    locationCounts: map<string, int>)
    requires Counted(records, currentYear, recentBatch, currentBatch, deptCounts, companyCounts, locationCounts)
    ensures Counted(records + [a], currentYear,
                    recentBatch + (if a.year == currentYear - 1 then 1 else 0),
                    currentBatch + (if a.year == currentYear then 1 else 0),
                    Bump(deptCounts, DepartmentKey(a)), Bump(companyCounts, CompanyKey(a)),
                    Bump(locationCounts, LocationKey(a)))
  {
    TallySnoc(records, a, DepartmentKey);
    TallySnoc(records, a, CompanyKey);
    TallySnoc(records, a, LocationKey);
    CountYearSnoc(records, a, currentYear - 1);
    CountYearSnoc(records, a, currentYear);
  }

  /** The counting loop of /stats. */
  method CountRecords(records: seq<Alumni>, currentYear: int)
    returns (recentBatch: int, currentBatch: int, deptCounts: map<string, int>,
             companyCounts: map<string, int>, locationCounts: map<string, int>)
    ensures Counted(records, currentYear, recentBatch, currentBatch, deptCounts, companyCounts, locationCounts)
  {
    recentBatch, currentBatch := 0, 0;
    deptCounts, companyCounts, locationCounts := map[], map[], map[];
    for i := 0 to |records|
      invariant Counted(records[..i], currentYear, recentBatch, currentBatch,
                        deptCounts, companyCounts, locationCounts)
    {
      var a := records[i];
      assert records[..i + 1] == records[..i] + [a];
      CountedSnoc(records[..i], a, currentYear, recentBatch, currentBatch,
                  deptCounts, companyCounts, locationCounts);
      if a.year == currentYear - 1 {
        recentBatch := recentBatch + 1;
      }
      if a.year == currentYear {
        currentBatch := currentBatch + 1;
      }
      deptCounts := Bump(deptCounts, DepartmentKey(a));
      companyCounts := Bump(companyCounts, CompanyKey(a));
      locationCounts := Bump(locationCounts, LocationKey(a));
    }
    assert records[..|records|] == records;
  }

  /** A sorted table of the records' keys sums to the number of records. */
  lemma SortedTally(entries: seq<Entry>, records: seq<Alumni>, key: Alumni -> string)
    requires SortedEntriesOf(entries, Tally(records, key))
    ensures CountsOf(|Tally(records, key)|, entries, records, key)
  {
    SumCountsOfItems(entries, Tally(records, key));
    TallySum(records, key);
  }

  /** /stats over the collection, with the calendar year given. */
  method ComputeStats(records: seq<Alumni>, currentYear: int) returns (s: Stats)
    ensures s.totalAlumni == |records|
    ensures s.recentBatch == |Filter(HasYear(currentYear - 1), records)|
    ensures s.currentBatch == |Filter(HasYear(currentYear), records)|
    ensures CountsOf(s.departments, s.departmentCounts, records, DepartmentKey)
    ensures CountsOf(s.companies, s.companyCounts, records, CompanyKey)
    ensures CountsOf(s.locations, s.locationCounts, records, LocationKey)
  {
    var recentBatch, currentBatch, deptCounts, companyCounts, locationCounts := CountRecords(records, currentYear);
    var deptSorted := SortByValueDesc(deptCounts);
    var companySorted := SortByValueDesc(companyCounts);
    var locationSorted := SortByValueDesc(locationCounts);
    SortedTally(deptSorted, records, DepartmentKey);
    SortedTally(companySorted, records, CompanyKey);
    SortedTally(locationSorted, records, LocationKey);
    s := Stats(|records|, recentBatch, currentBatch,
               |deptCounts|, deptSorted,
               |companyCounts|, companySorted,
               |locationCounts|, locationSorted);
  }
}
