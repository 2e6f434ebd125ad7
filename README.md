# Alumni search server: a verified model of its query, aggregation and append layer

The server (`Server.java`) keeps a flat collection of alumni records in one JSON
file and answers six HTTP endpoints over it. This project models, in Dafny,
what each handler does with the collection once the request has been parsed:

- `/search`: the AND of up to six optional filters. Exact integer match on id and year.
  Case-insensitive substring match on name, department, address and company.
  Records with id 0 are skipped.
- `/contact`: the first record with the requested id, or one of three tagged errors.
- `/download`: every record with the requested id. When no id is given, every record of the requested batch year.
- `/add` and `/add-bulk`: the new records are appended with ids `size + 1, size + 2, …`.
  The ids are written into the parsed records in place.
- `/stats`: the total, the two batch counters and three key-to-count tables, each sorted by count, highest first.
- The helpers `queryToMap`, `sortByValueDesc` and `formatAlumni`, and the record
  mapping of `readDatabase`/`writeDatabase`.

The collection is an in-memory `seq<Alumni>` that is passed in and returned.
Every String field of a record is an `Option<string>`, since Gson leaves a field
null when the request body omits it. The Java library calls the handlers depend on are
written out as small functions in `JavaText`: `String.trim` (strips code points up to U+0020),
`toLowerCase` (modelled on the ASCII letters, as in a non-Turkic default locale), `contains`, `split`, and
`Integer.parseInt` (an optional sign and ASCII digits, within 32 bits; `None` stands for the
`NumberFormatException`).

Each loop of the request handlers is a method with loop invariants. The one
exception is the loop of `readDatabase` (Server.java:326-340), which is the
recursive function `Store.ReadDatabase`. Each such method is proved against a
specification function:
- `Filter`, order-preserving selection;
- `FormatAll`;
- `Tally`, the `HashMap.put(k, getOrDefault(k, 0) + 1)` fold;
- `AssignIds`;
- `LastWins`, which says the later `put` wins.

Lemmas then state what those functions promise:
- soundness of every filter clause;
- selection in collection order;
- id ranges after an append;
- count sums;
- sortedness together with permutation.

Modules: `Wrappers` (Option), `JavaText`, `Records` (the record, `formatAlumni`,
`Filter`), `Query`, `Search`, `Lookup`, `Append`, `Stats`, `Store`.

Two points about how the code behaves:

- **The saved records do not survive a reload.** The source's own comments say
  that the file uses Title-case keys. The class comment says all responses use
  Title-case keys (Server.java:15, 18). The comment above `readDatabase` says
  "ensure Database.json capitalization mapping" (Server.java:318).
  - A record added via `/add` can be found by `/download?id=` in the in-memory
    collection (`Append.AddThenFindById`).
  - It cannot be found after the collection is saved and read back. The writer and
    the reader disagree on the member names (see Findings).
- **Records are never null.**
  - `readDatabase` constructs every element (Server.java:328).
  - A null element of an `/add-bulk` body raises an exception before it is added.
  - So the `a == null` guards at Server.java:75 and 159 never fire, and the collection is a `seq<Alumni>` of non-null records.

## Model

| member | source | states |
|---|---|---|
| JavaText.Trim | Server.java:64-69 | the result is the input between two cut points, with every character before the first and after the second blank; it is empty exactly when every character is blank, and otherwise starts and ends with a non-blank character |
| JavaText.Lower | Server.java:65-66 | lower-casing keeps the length and leaves no upper-case letter; the only characters that change are upper-case letters, each to the letter 32 code points above |
| JavaText.LowerIdempotent | Server.java:86-87 | lower-casing an already lower-cased string changes nothing |
| JavaText.LowerIgnoresCase | Server.java:65-66 | two strings that differ only in ASCII case lower-case to the same string |
| JavaText.TrimLowerHasNoUpper | Server.java:65-69 | a lower-cased, then trimmed filter holds no upper-case letter |
| JavaText.LowerKeepsBlanks | Server.java:65-69 | lower-casing keeps the length and changes no character into or out of a blank |
| JavaText.TrimLowerEmpty | Server.java:65-69 | a lower-cased, then trimmed filter is empty exactly when the parameter is all blank |
| JavaText.Contains | Server.java:86-87 | `contains` is true exactly when the needle occurs at some index of the text |
| JavaText.ParseInt | Server.java:80 | parsing succeeds exactly when the text is an optional sign and at least one digit with a value within 32 bits, and the result is that value |
| JavaText.LeadingZero | Server.java:80 | a leading zero adds nothing to the value of a string of digits |
| JavaText.ParseLeadingZero | Server.java:80 | a leading "0" or "+" does not change what a string of digits parses to |
| JavaText.ParseShow | Server.java:80 | every 32-bit integer that `Integer.toString` prints parses back to itself |
| JavaText.TrimShow | Server.java:122 | trimming leaves a printed integer unchanged |
| JavaText.JoinSplitAll | Server.java:366 | joining the pieces of a split with the separator gives back the original string |
| JavaText.SplitAllJoin | Server.java:366 | splitting a join of separator-free pieces gives back the pieces |
| JavaText.Split | Server.java:366 | `split("&")` gives pieces without `&` that, padded with the dropped trailing empty pieces, join back to the query; when `&` occurs the last piece is not empty; when it does not the query is the only piece |
| JavaText.Empties | Server.java:366 | a list of the given number of empty strings |
| JavaText.DropTrailingEmpty | Server.java:366 | the result is a prefix that does not end in an empty piece, and everything dropped was empty |
| JavaText.SplitPair | Server.java:368-370 | the key has no `=`; key, `=` and value rebuild the pair when it has one; otherwise the value is `""` |
| Records.Format | Server.java:286-299 | `formatAlumni` lists exactly the ten Title-case keys, in their fixed order |
| Records.UnformatFormat | Server.java:286-299 | formatting loses nothing: every field can be read back from the formatted map |
| Records.FormatAll | Server.java:100 | one formatted map per record, each reading back as that record |
| Records.FormatAllAt | Server.java:100 | the k-th formatted result is the format of the k-th selected record |
| Records.Filter | Server.java:74-102 | the selection is no longer than the input, and each selected record is an input record that satisfies the predicate |
| Records.FilterInOrder | Server.java:74-102 | the selection is the input at strictly increasing indices, and those are exactly the indices where the predicate holds |
| Records.FilterComplete | Server.java:99-100 | every input record that satisfies the predicate is selected |
| Records.FilterNone | Server.java:82-83 | a predicate that rejects every record selects nothing |
| Records.FilterSnoc | Server.java:74-102 | one more record extends the selection by that record exactly when it satisfies the predicate |
| Query.Entries | Server.java:366-370 | one (key, value) pair per piece of the split query |
| Query.EntriesArePairs | Server.java:368-370 | pair k is piece k split at its first `=`: the key holds no `=`; key, `=` and value rebuild a piece that has one; a piece without one is a key with the value `""` |
| Query.PutStep | Server.java:367-376 | one iteration of the loop keeps the map in step with the pairs seen so far |
| Query.LastWinsPut | Server.java:375 | one more `put` keeps the map holding exactly the keys seen, each with the value of its last pair |
| Query.QueryToMap | Server.java:363-378 | a null or empty query gives the empty map; otherwise the map holds exactly the keys of the pairs, each with its last value |
| Search.FiltersOf | Server.java:64-69 | the four text filters hold no upper-case letter, and each of the six filters is absent exactly when its parameter is missing or blank, so a blank parameter imposes no constraint |
| Search.FiltersIgnoreCase | Server.java:65-69 | parameter values that differ only in ASCII case give the same text filters, hence the same search |
| Search.IntClause | Server.java:78-95 | by definition, an id or year filter is absent, or it parses to the record's value; an unparsable filter rejects the record |
| Search.TextClause | Server.java:86-97 | by definition, a text filter is absent, or the record's field is not null and its lower-cased text contains the filter |
| Search.TextClauseIgnoresCase | Server.java:86-87 | a text filter accepts two fields that differ only in ASCII case alike |
| Search.Matches | Server.java:75-97 | by definition, a record matches when its id is not 0 and all six clauses accept it |
| Search.MatchRecord | Server.java:76-97 | the `match` flag ends true exactly when every supplied filter accepts the record |
| Search.SearchSnoc | Server.java:99-101 | one record more adds its formatted map to the results exactly when it matches |
| Search.Scan | Server.java:74-102 | for given filters, the results are the formatted records, in collection order, that have a non-zero id and pass every filter |
| Search.Search | Server.java:62-102 | the results are the formatted records, in collection order, that have a non-zero id and pass every filter read from the query's parameters |
| Search.SearchSound | Server.java:74-102 | for any filters, so for those read from the query, every result has a non-zero id and satisfies each non-empty filter: an equal parsed id or year, and a non-null field containing the text |
| Search.SearchInOrder | Server.java:74-102 | the results are the matching records at increasing indices, each exactly once |
| Search.UnparsableFilterFindsNothing | Server.java:78-95 | for any filters, a non-blank id or year filter that does not parse as a 32-bit integer empties the result |
| Search.NoFiltersReportsValidRecords | Server.java:64-75 | with no parameters, every record whose id is not 0 is reported |
| Lookup.Supplied | Server.java:117 | by definition, the query has the parameter and its trimmed value is not empty |
| Lookup.ContactOf | Server.java:126-130 | the contact agrees with `formatAlumni`: its ID and Name are the values listed there under "ID" and "Name", and its Email and Phone those under "Email" and "Phone", with null read as `""` |
| Lookup.ContactIsFirstDownload | Server.java:124-125 | the record `/contact` answers with is the first one `/download` lists for the same id |
| Lookup.Contact | Server.java:115-137 | a missing or blank id gives "Missing ID parameter"; an unparsable one gives "Invalid ID"; otherwise the reply is the contact of the first record with that id, or "Alumni not found" exactly when no record has it |
| Lookup.RecordsWithId | Server.java:259-261 | every record with the id, formatted, in order |
| Lookup.RecordsOfYear | Server.java:268-270 | every record of the year, formatted, in order |
| Lookup.Download | Server.java:249-274 | a supplied id takes precedence over batch; a parse failure gives the empty list; so does a request with neither parameter |
| Append.AssignIds | Server.java:230-233 | numbering a batch keeps its length |
| Append.AssignIdsAt | Server.java:229-233 | the k-th record of the batch gets id next + k and keeps every other field |
| Append.AssignIdsSnoc | Server.java:230-233 | numbering one more record continues the sequence |
| Append.AppendedShape | Server.java:227-234 | after appending N records to M there are M + N; the first M are unchanged; record M + k is the k-th submitted one with id M + 1 + k |
| Append.Add | Server.java:195-205 | a null body gives Error and leaves the collection alone; otherwise the record is appended last with id size + 1 and nothing else changes |
| Append.AddIsBulkOfOne | Server.java:200-204 | `/add` saves what `/add-bulk` saves for a batch of one |
| Append.FirstNull | Server.java:230-231 | the index of the first null element of the batch, or its length when there is none |
| Append.Values | Server.java:230-232 | a batch without nulls, as its records in order |
| Append.AddBulk | Server.java:222-234 | a null array gives Error; otherwise ids size + 1 … are written into the array in place up to the first null element; a null element gives Error with nothing saved; without one the collection is saved with the numbered batch appended |
| Append.AddThenFindById | Server.java:200-204 | after `/add` the new id survives printing and re-parsing, and looking it up finds the submitted record, renumbered, as the last hit |
| Stats.DepartmentKey | Server.java:163 | a present department is its own key, so an empty one stays `""`; a null one is "Unknown" |
| Stats.CompanyKey | Server.java:166 | a present non-empty company is its own key; a null or empty one is "Unknown"; the key is never empty |
| Stats.LocationKey | Server.java:169 | a present non-empty address is its own key; a null or empty one is "Unknown"; the key is never empty |
| Stats.EmptyFieldsAreCountedApart | Server.java:163-170 | a record with an empty department, company and address is counted under `""` for departments and under "Unknown" for companies and locations |
| Stats.Bump | Server.java:164 | `put(k, getOrDefault(k, 0) + 1)` adds k, raises its count by one and leaves the other keys alone |
| Stats.Tally | Server.java:158-172 | a table built from the records has every count positive and no more keys than records |
| Stats.TallySnoc | Server.java:158-172 | counting one more record bumps that record's key |
| Stats.CountYearSnoc | Server.java:160-161 | a batch counter grows by one exactly when the new record has that year |
| Stats.TallyCounts | Server.java:154-172 | a key is in a table exactly when some record has it, and its count is the number of records that have it |
| Stats.TallySum | Server.java:158-172 | the counts of a table sum to the number of records |
| Stats.SumCountsOfItems | Server.java:176-181 | a list holding each entry of a map once has the map's size and sums to the map's value sum |
| Stats.Insert | Server.java:382 | insertion adds exactly the one entry |
| Stats.InsertSorted | Server.java:382 | insertion keeps the list sorted by count, highest first |
| Stats.SortedEntriesDistinctKeys | Server.java:381-384 | the map's entries, once each, have pairwise distinct keys |
| Stats.KeyIndex | Server.java:384 | the position of the first entry with the key, or the length when no entry has it |
| Stats.Put | Server.java:384 | `LinkedHashMap.put` of a new key appends it last; for a key already present, it replaces that entry in place with the new value and leaves every other entry as it was |
| Stats.PutNewKey | Server.java:384 | a `LinkedHashMap.put` of a new key appends it last |
| Stats.SortByValueDesc | Server.java:380-386 | the result is a permutation of the map's entries with non-increasing counts |
| Stats.CountedSnoc | Server.java:158-172 | one loop step keeps both counters and all three tables in agreement with the records counted so far |
| Stats.CountRecords | Server.java:153-172 | Recent Batch counts the records of currentYear - 1, Current Batch those of currentYear, and each table is the tally of its key |
| Stats.SortedTally | Server.java:176-181 | a sorted table of a tally has the tally's size and sums to the number of records |
| Stats.ComputeStats | Server.java:148-181 | the total is the number of records; the counters count the two years; each table lists every key with its count, sorted, with sizes that match and counts that sum to the total |
| Store.ReadRecord | Server.java:327-338 | the read succeeds exactly when every Title-case member present holds a value of its field's kind. Each field is then that member's value, or 0, `""` or 0.0 when the member is missing, so no String field is null |
| Store.ReadDatabase | Server.java:319-343 | a successful read yields one record per JSON object |
| Store.ReadEach | Server.java:326-340 | the read succeeds with the records that the objects read as, one per object, in order |
| Store.WrittenMember | Server.java:345-348 | a field is written under its name exactly when it is not null, with its value |
| Store.NotWritten | Server.java:345-348 | no other member name is written |
| Store.WriteDatabaseAsWritten | Server.java:345-350 | one JSON object per record, which has a member under a field's Java name exactly when that field is not null, with its value, and no other member |
| Store.WriteDatabase | Server.java:345-350 | one JSON object per record, which has a member under a field's Title-case key exactly when that field is not null, with its value, and no other member |
| Store.NamesDistinct | Server.java:24-35 | the field names and the Title-case keys are each pairwise distinct |
| Store.ReadWithoutMembers | Server.java:327-338 | an object without any Title-case member reads as the blank record: id 0, year 0, empty strings |
| Store.ReadWrittenAsWritten | Server.java:327-338 | a record that Gson wrote reads back as the blank record |
| Store.ReadWritten | Server.java:327-338 | with Title-case names, a record reads back with every field intact and nulls as `""` |
| Store.ReloadAsWritten | Server.java:319-350 | as written, saving and reloading turns every record into the blank record with id 0 |
| Store.SearchAfterReloadAsWritten | Server.java:74-75 | so the search loop, under any filters, finds nothing in a reloaded collection |
| Store.Reload | Server.java:319-350 | with Title-case names, a reload gives back every record, nulls read as `""` |
| Store.ReloadKeepsIds | Server.java:200-204 | with Title-case names, a reload keeps every id and year that `/add` relies on |

## Left out

- The HTTP server, context registration, CORS headers, the preflight 204 reply and `sendJson` (Server.java:37-54, 301-316, 352-361). These are transport plumbing, and the handlers' results are modelled as values.
- File access in `readDatabase`/`writeDatabase`:
  - The missing-file case that returns an empty array is left out.
  - Write failures are left out.
  - The JSON text and pretty-printing are left out; the model works on parsed JSON objects.
- Gson's parsing of request bodies is left out. An `/add` body comes in as an `Option<Alumni>` and an `/add-bulk` body as a possibly-null array of possibly-null records.
- Store.ReadRecord, Store.ReadDatabase: a member whose JSON value is of another kind than its field is a failure (None). Gson's coercions are not modelled:
  - between numbers and strings;
  - between integral and fractional numbers, so an `8` under "CGPA" fails although `getAsDouble` reads it as 8.0, and a `5.0` under "ID" fails although `getAsInt` reads it as 5.
- `URLDecoder.decode` (Server.java:372) is the identity, so its `IllegalArgumentException` on a malformed `%` escape is not modelled.
- JavaText.Lower: `toLowerCase` is modelled on ASCII letters only, because Unicode case mapping is outside Dafny's `char` reasoning. The model also assumes a non-Turkic default locale: under a Turkish or Azeri locale the JVM lower-cases "I" to a dotless "ı".
- JavaText.ParseInt: Unicode digits outside 0-9, which Java's `Character.digit` also accepts, are not accepted.
- The `cgpa` double is carried as its raw bits and never computed with.
- `Calendar.getInstance()` (Server.java:152) is replaced by a `currentYear` parameter.
- Stats.SortByValueDesc: the order among entries with equal counts is not stated. It depends on `HashMap` iteration order, which is unspecified. The model collects the entries in an arbitrary order and sorts them stably.
- Append.Add, Append.AddBulk: ids are unbounded integers. The 32-bit overflow of `size + 1` and `nextId++` past 2^31 - 1 records is not modelled.
- The unsynchronised read-modify-write of the file across concurrent requests is out of scope.
- The `a == null` branches at Server.java:75 and 159 are not modelled as a separate case, because no record of the collection can be null there.

## Findings

| source | as written | input that shows it | evidently intended | confidence | as-written member | corrected member |
|---|---|---|---|---|---|---|
| Server.java:345-350 against Server.java:327-338 | `writeDatabase` lets Gson name each member after the Java field (`id`, `name`, …, `cgpa`), while `readDatabase` looks up `ID`, `Name`, …, `CGPA` | `/add` of any record, e.g. one with name "Ann", into an empty collection: the file then holds `{"id": 1, "name": "Ann", …}`, which reads back as id 0 with every text field `""`, so `/search`, `/contact?id=1` and `/download?id=1` no longer find it | the file is written under the same Title-case names that `readDatabase` expects, as the comment at Server.java:318 says | not executed | Store.ReloadAsWritten | Store.Reload |
