/**
 * Database.json: the collection as a JSON array of objects. readDatabase
 * looks the fields up under their Title-case names; writeDatabase hands the
 * records to Gson, which names each member after the Java field.
 */
module Store {
  import opened Wrappers
  import opened Records
  import Search

  /** The kinds of JSON value the records are written with. */
  datatype Json = JNumber(n: int) | JText(s: string) | JReal(d: Float64)

  type JsonObject = map<string, Json>

  /** The member names Gson gives an Alumni object: the Java field names. */
  const FieldNames: seq<string> :=
    ["id", "name", "department", "year", "email", "phone", "address", "job", "company", "cgpa"]

  /** An int member, 0 when absent; a value of another kind is a fault (None). */
  function IntMember(obj: JsonObject, key: string): Option<int> {
    if key !in obj then Some(0) else if obj[key].JNumber? then Some(obj[key].n) else None
  }

  /** A String member, "" when absent; a value of another kind is a fault (None). */
  function TextMember(obj: JsonObject, key: string): Option<string> {
    if key !in obj then Some("") else if obj[key].JText? then Some(obj[key].s) else None
  }

  /** A double member, 0.0 when absent; a value of another kind is a fault (None). */
  function RealMember(obj: JsonObject, key: string): Option<Float64> {
    if key !in obj then Some(Float64(0)) else if obj[key].JReal? then Some(obj[key].d) else None
  }

  /** Every Title-case member present holds a value of the kind its field is read as. */
  predicate WellKinded(obj: JsonObject) {
    && ("ID" in obj ==> obj["ID"].JNumber?)
    && ("Name" in obj ==> obj["Name"].JText?)
    && ("Department" in obj ==> obj["Department"].JText?)
    && ("Year" in obj ==> obj["Year"].JNumber?)
    && ("Email" in obj ==> obj["Email"].JText?)
    && ("Phone" in obj ==> obj["Phone"].JText?)
    && ("Address" in obj ==> obj["Address"].JText?)
    && ("Job" in obj ==> obj["Job"].JText?)
    && ("Company" in obj ==> obj["Company"].JText?)
    && ("CGPA" in obj ==> obj["CGPA"].JReal?)
  }

  /** An int field read from `key`: the member's number, or 0 when there is none. */
  predicate IntRead(obj: JsonObject, key: string, v: int) {
    if key in obj then obj[key] == JNumber(v) else v == 0
  }

  /** A String field read from `key`: the member's text, or "" when there is none; never null. */
  predicate TextRead(obj: JsonObject, key: string, v: Option<string>) {
    v.Some? && if key in obj then obj[key] == JText(v.value) else v.value == ""
  }

  /** A double field read from `key`: the member's value, or 0.0 when there is none. */
  predicate RealRead(obj: JsonObject, key: string, v: Float64) {
    if key in obj then obj[key] == JReal(v) else v == Float64(0)
  }

  /**
   * One element of readDatabase's loop: every field under its Title-case
   * key, defaulting to 0, "" or 0.0 when the member is missing. The read
   * fails exactly when a present member holds a value of another kind.
   */
  function ReadRecord(obj: JsonObject): (r: Option<Alumni>)
    ensures r.Some? <==> WellKinded(obj)
    ensures r.Some? ==> var a := r.value;
      && IntRead(obj, "ID", a.id) && TextRead(obj, "Name", a.name)
      && TextRead(obj, "Department", a.department) && IntRead(obj, "Year", a.year)
      && TextRead(obj, "Email", a.email) && TextRead(obj, "Phone", a.phone)
      && TextRead(obj, "Address", a.address) && TextRead(obj, "Job", a.job)
      && TextRead(obj, "Company", a.company) && RealRead(obj, "CGPA", a.cgpa)
  {
    var id := IntMember(obj, "ID");
    var name := TextMember(obj, "Name");
    var department := TextMember(obj, "Department");
    var year := IntMember(obj, "Year");
    var email := TextMember(obj, "Email");
    var phone := TextMember(obj, "Phone");
    var address := TextMember(obj, "Address");
    var job := TextMember(obj, "Job");
    var company := TextMember(obj, "Company");
    var cgpa := RealMember(obj, "CGPA");
    if id.Some? && name.Some? && department.Some? && year.Some? && email.Some? && phone.Some?
       && address.Some? && job.Some? && company.Some? && cgpa.Some?
    then Some(Alumni(id.value, Some(name.value), Some(department.value), year.value, Some(email.value),
                     Some(phone.value), Some(address.value), Some(job.value), Some(company.value), cgpa.value))
    else None
  }

  function ReadDatabase(objs: seq<JsonObject>): (r: Option<seq<Alumni>>)
    ensures r.Some? ==> |r.value| == |objs|
  {
    if objs == [] then Some([])
    else match (ReadDatabase(objs[..|objs| - 1]), ReadRecord(objs[|objs| - 1]))
      case (Some(rs), Some(a)) => Some(rs + [a])
      case _ => None
  }

  /** readDatabase succeeds with `rs` when each object reads as the matching record. */
  lemma {:induction false} ReadEach(objs: seq<JsonObject>, rs: seq<Alumni>)
    requires |objs| == |rs|
    requires forall k :: 0 <= k < |objs| ==> ReadRecord(objs[k]) == Some(rs[k])
    ensures ReadDatabase(objs) == Some(rs)
  {
    if objs != [] {
      var n := |objs| - 1;
      ReadEach(objs[..n], rs[..n]);
      assert ReadRecord(objs[n]) == Some(rs[n]);
      assert rs == rs[..n] + [rs[n]];
    }
  }

  /** Gson leaves a null String member out. */
  function TextValue(v: Option<string>): Option<Json> {
    if v.Some? then Some(JText(v.value)) else None
  }

  /** The value Gson writes for the i-th field of the record, if any. */
  function MemberValue(a: Alumni, i: nat): Option<Json>
    requires i < 10
  {
    match i
    case 0 => Some(JNumber(a.id))
    case 1 => TextValue(a.name)
    case 2 => TextValue(a.department)
    case 3 => Some(JNumber(a.year))
    case 4 => TextValue(a.email)
    case 5 => TextValue(a.phone)
    case 6 => TextValue(a.address)
    case 7 => TextValue(a.job)
    case 8 => TextValue(a.company)
    case _ => Some(JReal(a.cgpa))
  }

  predicate DistinctNames(keys: seq<string>) {
    forall i, j :: 0 <= i < j < |keys| ==> keys[i] != keys[j]
  }

  /** A record as a JSON object whose members are named by `keys`, in field order. */
  function WriteRecordNamed(a: Alumni, keys: seq<string>): JsonObject
    requires |keys| == 10 && DistinctNames(keys)
  {
    map i | 0 <= i < 10 && MemberValue(a, i).Some? :: keys[i] := MemberValue(a, i).value
  }

  /** The i-th field is found under the i-th name exactly when it was written. */
  lemma WrittenMember(a: Alumni, keys: seq<string>, i: nat)
    requires |keys| == 10 && DistinctNames(keys) && i < 10
    ensures keys[i] in WriteRecordNamed(a, keys) <==> MemberValue(a, i).Some?
    ensures keys[i] in WriteRecordNamed(a, keys) ==> WriteRecordNamed(a, keys)[keys[i]] == MemberValue(a, i).value
  {
  }

  /** A name that is none of `keys` is not a member. */
  lemma NotWritten(a: Alumni, keys: seq<string>, k: string)
    requires |keys| == 10 && DistinctNames(keys) && k !in keys
    ensures k !in WriteRecordNamed(a, keys)
  {
  }

  /** writeDatabase as written: Gson's default naming, the lower-case field names. */
  function WriteDatabaseAsWritten(records: seq<Alumni>): (objs: seq<JsonObject>)
    ensures |objs| == |records|
    ensures forall k, i :: 0 <= k < |objs| && 0 <= i < 10 ==>
      (FieldNames[i] in objs[k] <==> MemberValue(records[k], i).Some?)
    ensures forall k, i :: 0 <= k < |objs| && 0 <= i < 10 && FieldNames[i] in objs[k] ==>
      objs[k][FieldNames[i]] == MemberValue(records[k], i).value
    ensures forall k, key :: 0 <= k < |objs| && key in objs[k] ==> key in FieldNames
  {
    NamesDistinct();
    var objs := seq(|records|, k requires 0 <= k < |records| => WriteRecordNamed(records[k], FieldNames));
    assert forall k, i :: 0 <= k < |objs| && 0 <= i < 10 ==>
      (FieldNames[i] in objs[k] <==> MemberValue(records[k], i).Some?) &&
      (FieldNames[i] in objs[k] ==> objs[k][FieldNames[i]] == MemberValue(records[k], i).value) by {
      forall k, i | 0 <= k < |objs| && 0 <= i < 10 {
        WrittenMember(records[k], FieldNames, i);
      }
    }
    assert forall k, key :: 0 <= k < |objs| && key in objs[k] ==> key in FieldNames by {
      forall k, key | 0 <= k < |objs| && key !in FieldNames {
        NotWritten(records[k], FieldNames, key);
      }
    }
    objs
  }

  /** writeDatabase with the Title-case names that readDatabase expects. */
  function WriteDatabase(records: seq<Alumni>): (objs: seq<JsonObject>)
    ensures |objs| == |records|
    ensures forall k, i :: 0 <= k < |objs| && 0 <= i < 10 ==>
      (RecordKeys[i] in objs[k] <==> MemberValue(records[k], i).Some?)
    ensures forall k, i :: 0 <= k < |objs| && 0 <= i < 10 && RecordKeys[i] in objs[k] ==>
      objs[k][RecordKeys[i]] == MemberValue(records[k], i).value
    ensures forall k, key :: 0 <= k < |objs| && key in objs[k] ==> key in RecordKeys
  {
    NamesDistinct();
    var objs := seq(|records|, k requires 0 <= k < |records| => WriteRecordNamed(records[k], RecordKeys));
    assert forall k, i :: 0 <= k < |objs| && 0 <= i < 10 ==>
      (RecordKeys[i] in objs[k] <==> MemberValue(records[k], i).Some?) &&
      (RecordKeys[i] in objs[k] ==> objs[k][RecordKeys[i]] == MemberValue(records[k], i).value) by {
      forall k, i | 0 <= k < |objs| && 0 <= i < 10 {
        WrittenMember(records[k], RecordKeys, i);
      }
    }
    assert forall k, key :: 0 <= k < |objs| && key in objs[k] ==> key in RecordKeys by {
      forall k, key | 0 <= k < |objs| && key !in RecordKeys {
        NotWritten(records[k], RecordKeys, key);
      }
    }
    objs
  }

  /** What a record read back from disk looks like once nothing of it survives. */
  const Blank: Alumni :=
    Alumni(0, Some(""), Some(""), 0, Some(""), Some(""), Some(""), Some(""), Some(""), Float64(0))

  lemma NamesDistinct()
    ensures DistinctNames(FieldNames) && DistinctNames(RecordKeys)
  {
  }

  /** An object without any Title-case member reads as the blank record. */
  lemma ReadWithoutMembers(obj: JsonObject)
    requires forall i :: 0 <= i < |RecordKeys| ==> RecordKeys[i] !in obj
    ensures ReadRecord(obj) == Some(Blank)
  {
    assert "ID" !in obj && "Year" !in obj && "CGPA" !in obj by {
      assert RecordKeys[0] == "ID" && RecordKeys[3] == "Year" && RecordKeys[9] == "CGPA";
    }
    assert "Name" !in obj && "Department" !in obj && "Email" !in obj && "Phone" !in obj by {
      assert RecordKeys[1] == "Name" && RecordKeys[2] == "Department";
      assert RecordKeys[4] == "Email" && RecordKeys[5] == "Phone";
    }
    assert "Address" !in obj && "Job" !in obj && "Company" !in obj by {
      assert RecordKeys[6] == "Address" && RecordKeys[7] == "Job" && RecordKeys[8] == "Company";
    }
  }

  /** A Title-case lookup misses every member that Gson wrote. */
  lemma ReadWrittenAsWritten(a: Alumni)
    ensures ReadRecord(WriteRecordNamed(a, FieldNames)) == Some(Blank)
  {
    NamesDistinct();
    forall i | 0 <= i < |RecordKeys| ensures RecordKeys[i] !in WriteRecordNamed(a, FieldNames) {
      var k := RecordKeys[i];
      assert 'A' <= k[0] <= 'Z';
      assert forall j :: 0 <= j < |FieldNames| ==> 'a' <= FieldNames[j][0] <= 'z';
      NotWritten(a, FieldNames, k);
    }
    ReadWithoutMembers(WriteRecordNamed(a, FieldNames));
  }

  /** A record with every null String replaced by "", as a reload yields it. */
  function Normalised(a: Alumni): Alumni {
    a.(name := Some(OrEmpty(a.name)), department := Some(OrEmpty(a.department)),
       email := Some(OrEmpty(a.email)), phone := Some(OrEmpty(a.phone)),
       address := Some(OrEmpty(a.address)), job := Some(OrEmpty(a.job)),
       company := Some(OrEmpty(a.company)))
  }

  lemma ReadWritten(a: Alumni)
    requires DistinctNames(RecordKeys)
    ensures ReadRecord(WriteRecordNamed(a, RecordKeys)) == Some(Normalised(a))
  {
    var o := WriteRecordNamed(a, RecordKeys);
    assert IntMember(o, "ID") == Some(a.id) by {
      WrittenMember(a, RecordKeys, 0);
      assert RecordKeys[0] == "ID";
    }
    assert TextMember(o, "Name") == Some(OrEmpty(a.name)) by {
      WrittenMember(a, RecordKeys, 1);
      assert RecordKeys[1] == "Name";
    }
    assert TextMember(o, "Department") == Some(OrEmpty(a.department)) by {
      WrittenMember(a, RecordKeys, 2);
      assert RecordKeys[2] == "Department";
    }
    assert IntMember(o, "Year") == Some(a.year) by {
      WrittenMember(a, RecordKeys, 3);
      assert RecordKeys[3] == "Year";
    }
    assert TextMember(o, "Email") == Some(OrEmpty(a.email)) by {
      WrittenMember(a, RecordKeys, 4);
      assert RecordKeys[4] == "Email";
    }
    assert TextMember(o, "Phone") == Some(OrEmpty(a.phone)) by {
      WrittenMember(a, RecordKeys, 5);
      assert RecordKeys[5] == "Phone";
    }
    assert TextMember(o, "Address") == Some(OrEmpty(a.address)) by {
      WrittenMember(a, RecordKeys, 6);
      assert RecordKeys[6] == "Address";
    }
    assert TextMember(o, "Job") == Some(OrEmpty(a.job)) by {
      WrittenMember(a, RecordKeys, 7);
      assert RecordKeys[7] == "Job";
    }
    assert TextMember(o, "Company") == Some(OrEmpty(a.company)) by {
      WrittenMember(a, RecordKeys, 8);
      assert RecordKeys[8] == "Company";
    }
    assert RealMember(o, "CGPA") == Some(a.cgpa) by {
      WrittenMember(a, RecordKeys, 9);
      assert RecordKeys[9] == "CGPA";
    }
  }

  /**
   * As written, saving and reloading turns every record into a blank one
   * with id 0.
   */
  lemma ReloadAsWritten(records: seq<Alumni>)
    ensures ReadDatabase(WriteDatabaseAsWritten(records)).Some?
    ensures var reloaded := ReadDatabase(WriteDatabaseAsWritten(records)).value;
      |reloaded| == |records| && forall k :: 0 <= k < |reloaded| ==> reloaded[k] == Blank
  {
    var objs := WriteDatabaseAsWritten(records);
    var blanks := seq(|records|, k => Blank);
    forall k | 0 <= k < |objs| ensures ReadRecord(objs[k]) == Some(blanks[k]) {
      ReadWrittenAsWritten(records[k]);
    }
    ReadEach(objs, blanks);
  }

  /** So after any /add or /add-bulk, /search finds nothing at all. */
  lemma SearchAfterReloadAsWritten(f: Search.Filters, records: seq<Alumni>)
    ensures ReadDatabase(WriteDatabaseAsWritten(records)).Some?
    ensures Filter(Search.Keep(f), ReadDatabase(WriteDatabaseAsWritten(records)).value) == []
  {
    ReloadAsWritten(records);
    var reloaded := ReadDatabase(WriteDatabaseAsWritten(records)).value;
    FilterNone(Search.Keep(f), reloaded);
  }

  /** With Title-case names, a reload gives back every record, nulls read as "". */
  lemma Reload(records: seq<Alumni>)
    ensures ReadDatabase(WriteDatabase(records)).Some?
    ensures var reloaded := ReadDatabase(WriteDatabase(records)).value;
      |reloaded| == |records| && forall k :: 0 <= k < |reloaded| ==> reloaded[k] == Normalised(records[k])
  {
    var objs := WriteDatabase(records);
    var normal := seq(|records|, k requires 0 <= k < |records| => Normalised(records[k]));
    NamesDistinct();
    forall k | 0 <= k < |objs| ensures ReadRecord(objs[k]) == Some(normal[k]) {
      ReadWritten(records[k]);
    }
    ReadEach(objs, normal);
  }

  /** Reloading keeps every id and year, so the numbering that /add relies on survives. */
  lemma ReloadKeepsIds(records: seq<Alumni>, k: nat)
    requires k < |records|
    ensures ReadDatabase(WriteDatabase(records)).Some?
    ensures ReadDatabase(WriteDatabase(records)).value[k].id == records[k].id
    ensures ReadDatabase(WriteDatabase(records)).value[k].year == records[k].year
  {
    Reload(records);
  }
}
