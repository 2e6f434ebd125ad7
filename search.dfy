/** The /search handler: several optional filters combined with AND. */
module Search {
  import opened Wrappers
  import opened JavaText
  import opened Records

  /** A query parameter's value, or "" when the query does not have it. */
  function Param(params: map<string, string>, key: string): string {
    if key in params then params[key] else ""
  }

  /** The six normalised filter values; "" means the filter is absent. */
  datatype Filters = Filters(
    id: string, name: string, department: string, year: string, location: string, company: string)

  /**
   * Integer filters are trimmed; text filters are lower-cased, then
   * trimmed, so they hold no upper-case letter. Every filter is absent
   * exactly when its parameter is missing or blank.
   */
  function FiltersOf(params: map<string, string>): (f: Filters)
    ensures forall k :: 0 <= k < |f.name| ==> !IsUpper(f.name[k])
    ensures forall k :: 0 <= k < |f.department| ==> !IsUpper(f.department[k])
    ensures forall k :: 0 <= k < |f.location| ==> !IsUpper(f.location[k])
    ensures forall k :: 0 <= k < |f.company| ==> !IsUpper(f.company[k])
    ensures f.name == [] <==> forall k :: 0 <= k < |Param(params, "name")| ==> IsBlank(Param(params, "name")[k])
    ensures f.department == [] <==> forall k :: 0 <= k < |Param(params, "department")| ==> IsBlank(Param(params, "department")[k])
    ensures f.location == [] <==> forall k :: 0 <= k < |Param(params, "location")| ==> IsBlank(Param(params, "location")[k])
    ensures f.company == [] <==> forall k :: 0 <= k < |Param(params, "company")| ==> IsBlank(Param(params, "company")[k])
    ensures f.id == [] <==> forall k :: 0 <= k < |Param(params, "id")| ==> IsBlank(Param(params, "id")[k])
    ensures f.year == [] <==> forall k :: 0 <= k < |Param(params, "year")| ==> IsBlank(Param(params, "year")[k])
  {
    TrimLowerHasNoUpper(Param(params, "name"));
    TrimLowerHasNoUpper(Param(params, "department"));
    TrimLowerHasNoUpper(Param(params, "location"));
    TrimLowerHasNoUpper(Param(params, "company"));
    TrimLowerEmpty(Param(params, "name"));
    TrimLowerEmpty(Param(params, "department"));
    TrimLowerEmpty(Param(params, "location"));
    TrimLowerEmpty(Param(params, "company"));
    Filters(
      Trim(Param(params, "id")),
      Trim(Lower(Param(params, "name"))),
      Trim(Lower(Param(params, "department"))),
      Trim(Param(params, "year")),
      Trim(Lower(Param(params, "location"))),
      Trim(Lower(Param(params, "company"))))
  }

  /** An integer filter: absent, or it parses to the field's value. */
  predicate IntClause(filter: string, field: int) {
    filter == [] || ParseInt(filter) == Some(field)
  }

  /** A text filter: absent, or the field is non-null and its lower-cased text contains it. */
  predicate TextClause(filter: string, field: Option<string>) {
    filter == [] || (field.Some? && Contains(Lower(field.value), filter))
  }

  /** Text filters match regardless of the field's ASCII case. */
  lemma TextClauseIgnoresCase(filter: string, x: string, y: string)
    requires Lower(x) == Lower(y)
    ensures TextClause(filter, Some(x)) == TextClause(filter, Some(y))
  {
  }

  /**
   * Parameter values that differ only in ASCII case give the same filters,
   * for the four text filters only.
   */
  lemma FiltersIgnoreCase(p: map<string, string>, q: map<string, string>)
    requires Param(p, "id") == Param(q, "id") && Param(p, "year") == Param(q, "year")
    requires Lower(Param(p, "name")) == Lower(Param(q, "name"))
    requires Lower(Param(p, "department")) == Lower(Param(q, "department"))
    requires Lower(Param(p, "location")) == Lower(Param(q, "location"))
    requires Lower(Param(p, "company")) == Lower(Param(q, "company"))
    ensures FiltersOf(p) == FiltersOf(q)
  {
  }

  /** A record is reported when its id is not 0 and it passes every filter. */
  predicate Matches(f: Filters, a: Alumni) {
    && a.id != 0
    && IntClause(f.id, a.id)
    && TextClause(f.name, a.name)
    && TextClause(f.department, a.department)
    && IntClause(f.year, a.year)
    && TextClause(f.location, a.address)
    && TextClause(f.company, a.company)
  }

  function Keep(f: Filters): Alumni -> bool {
    a => Matches(f, a)
  }

  /**
   * The body of the search loop for one record with a non-zero id: the
   * `match` flag starts true and each filter that is present and fails
   * clears it.
   */
  method MatchRecord(f: Filters, a: Alumni) returns (match_: bool)
    requires a.id != 0
    ensures match_ <==> Matches(f, a)
  {
    match_ := true;
    if f.id != [] {
      var q := ParseInt(f.id);
      if q.None? || a.id != q.value {
        match_ := false;
      }
    }
    if f.name != [] && (a.name.None? || !Contains(Lower(a.name.value), f.name)) {
      match_ := false;
    }
    if f.department != [] && (a.department.None? || !Contains(Lower(a.department.value), f.department)) {
      match_ := false;
    }
    if f.year != [] {
      var q := ParseInt(f.year);
      if q.None? || a.year != q.value {
        match_ := false;
      }
    }
    if f.location != [] && (a.address.None? || !Contains(Lower(a.address.value), f.location)) {
      match_ := false;
    }
    if f.company != [] && (a.company.None? || !Contains(Lower(a.company.value), f.company)) {
      match_ := false;
    }
  }

  /** One record more: its formatted map is reported exactly when it matches. */
  lemma SearchSnoc(f: Filters, prefix: seq<Alumni>, a: Alumni)
    ensures FormatAll(Filter(Keep(f), prefix + [a]))
         == FormatAll(Filter(Keep(f), prefix)) + (if Matches(f, a) then [Format(a)] else [])
  {
    FilterSnoc(Keep(f), prefix, a);
    FormatAllSnoc(Filter(Keep(f), prefix), a);
    assert Keep(f)(a) == Matches(f, a);
    if !Matches(f, a) {
      assert Filter(Keep(f), prefix + [a]) == Filter(Keep(f), prefix);
    }
  }

  /** /search: the filters are read from the query, then the collection is scanned. */
  method Search(params: map<string, string>, records: seq<Alumni>) returns (results: seq<Formatted>)
    ensures results == FormatAll(Filter(Keep(FiltersOf(params)), records))
  {
    var f := FiltersOf(params);
    results := Scan(f, records);
  }

  /** The search loop: records with id 0 are skipped, the others kept when they match. */
  method Scan(f: Filters, records: seq<Alumni>) returns (results: seq<Formatted>)
    ensures results == FormatAll(Filter(Keep(f), records))
  {
    results := [];
    var i := 0;
    while i < |records|
      invariant 0 <= i <= |records|
      invariant results == FormatAll(Filter(Keep(f), records[..i]))
    {
      var a := records[i];
      assert records[..i + 1] == records[..i] + [a];
      SearchSnoc(f, records[..i], a);
      if a.id != 0 {
        var match_ := MatchRecord(f, a);
        if match_ {
          results := results + [Format(a)];
        }
      }
      i := i + 1;
    }
    assert records[..|records|] == records;
  }

  /**
   * Every reported record has a non-zero id and satisfies each filter that
   * was supplied (for any filters, so for those read from the query).
   */
  lemma SearchSound(f: Filters, records: seq<Alumni>, a: Alumni)
    requires a in Filter(Keep(f), records)
    ensures a in records && a.id != 0
    ensures
      && (f.id != [] ==> ParseInt(f.id) == Some(a.id))
      && (f.name != [] ==> a.name.Some? && Contains(Lower(a.name.value), f.name))
      && (f.department != [] ==> a.department.Some? && Contains(Lower(a.department.value), f.department))
      && (f.year != [] ==> ParseInt(f.year) == Some(a.year))
      && (f.location != [] ==> a.address.Some? && Contains(Lower(a.address.value), f.location))
      && (f.company != [] ==> a.company.Some? && Contains(Lower(a.company.value), f.company))
  {
    assert Keep(f)(a);
  }

  /**
   * The results are the matching records, in collection order, each exactly
   * as often as it occurs: Filter picks out the matching indices in increasing order.
   */
  lemma SearchInOrder(f: Filters, records: seq<Alumni>) returns (ix: seq<nat>)
    ensures SelectsInOrder(Keep(f), records, Filter(Keep(f), records), ix)
  {
    ix := FilterInOrder(Keep(f), records);
  }

  /** A non-blank id or year filter that is not a 32-bit integer empties the result. */
  lemma UnparsableFilterFindsNothing(f: Filters, records: seq<Alumni>)
    requires (f.id != [] && ParseInt(f.id).None?) || (f.year != [] && ParseInt(f.year).None?)
    ensures Filter(Keep(f), records) == []
  {
    FilterNone(Keep(f), records);
  }

  /** With no filter at all, search reports every record whose id is not 0. */
  lemma NoFiltersReportsValidRecords(records: seq<Alumni>, a: Alumni)
    requires a in records && a.id != 0
    ensures a in Filter(Keep(FiltersOf(map[])), records)
  {
    var i :| 0 <= i < |records| && records[i] == a;
    assert Trim([]) == [] && Lower([]) == [];
    FilterComplete(Keep(FiltersOf(map[])), records, i);
  }
}
