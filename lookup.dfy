/** The /contact and /download handlers: lookups by id or by graduation year. */
module Lookup {
  import opened Wrappers
  import opened JavaText
  import opened Records

  /** The query has the parameter, and its value is not blank once trimmed. */
  predicate Supplied(params: map<string, string>, key: string) {
    key in params && Trim(params[key]) != []
  }

  const MissingId: string := "Missing ID parameter"
  const InvalidId: string := "Invalid ID"
  const NotFound: string := "Alumni not found"

  /** The body of a /contact reply: the four contact fields, or {"Error": message}. */
  datatype ContactReply =
    | Found(id: int, name: Option<string>, email: string, phone: string)
    | Error(message: string)

  /**
   * The contact map agrees with formatAlumni: its ID and Name are the values
   * listed there under "ID" and "Name", its Email and Phone those under
   * "Email" and "Phone", with null read as "".
   */
  function ContactOf(a: Alumni): (c: ContactReply)
    ensures c.Found?
    ensures var m := Format(a);
      && m[0] == ("ID", JInt(c.id)) && m[1] == ("Name", JStr(c.name))
      && m[4].0 == "Email" && c.email == OrEmpty(m[4].1.s)
      && m[5].0 == "Phone" && c.phone == OrEmpty(m[5].1.s)
  {
    Found(a.id, a.name, OrEmpty(a.email), OrEmpty(a.phone))
  }

  /**
   * /contact: the first record whose id equals the trimmed, parsed `id`
   * parameter, or one of three errors.
   */
  method Contact(params: map<string, string>, records: seq<Alumni>) returns (reply: ContactReply)
    ensures !Supplied(params, "id") <==> reply == Error(MissingId)
    ensures Supplied(params, "id") ==>
      (ParseInt(Trim(params["id"])).None? <==> reply == Error(InvalidId))
    ensures Supplied(params, "id") && ParseInt(Trim(params["id"])).Some? ==>
      var q := ParseInt(Trim(params["id"])).value;
      && (reply == Error(NotFound) <==> forall i :: 0 <= i < |records| ==> records[i].id != q)
      && (reply != Error(NotFound) ==>
            exists k :: 0 <= k < |records| && records[k].id == q && reply == ContactOf(records[k])
                        && forall j :: 0 <= j < k ==> records[j].id != q)
  {
    if !("id" in params) || Trim(params["id"]) == [] {
      return Error(MissingId);
    }
    var q := ParseInt(Trim(params["id"]));
    if q.None? {
      return Error(InvalidId);
    }
    var i := 0;
    while i < |records|
      invariant 0 <= i <= |records|
      invariant forall j :: 0 <= j < i ==> records[j].id != q.value
    {
      if records[i].id == q.value {
        return ContactOf(records[i]);
      }
      i := i + 1;
    }
    return Error(NotFound);
  }

  /**
   * The record /contact answers with is the first one /download lists for
   * the same id.
   */
  lemma ContactIsFirstDownload(records: seq<Alumni>, q: int, k: nat)
    requires k < |records| && records[k].id == q
    requires forall j :: 0 <= j < k ==> records[j].id != q
    ensures Filter(HasId(q), records) != [] && Filter(HasId(q), records)[0] == records[k]
  {
    var hits := Filter(HasId(q), records);
    var ix := FilterInOrder(HasId(q), records);
    assert HasId(q)(records[k]);
    assert k in ix;
    var i :| 0 <= i < |ix| && ix[i] == k;
    assert HasId(q)(records[ix[0]]);
    assert ix[0] >= k;
    assert ix[0] <= ix[i];
  }

  /** One loop of /download: every record that has the requested id. */
  method RecordsWithId(records: seq<Alumni>, q: int) returns (result: seq<Formatted>)
    ensures result == FormatAll(Filter(HasId(q), records))
  {
    result := [];
    for i := 0 to |records|
      invariant result == FormatAll(Filter(HasId(q), records[..i]))
    {
      var a := records[i];
      assert records[..i + 1] == records[..i] + [a];
      FilterSnoc(HasId(q), records[..i], a);
      FormatAllSnoc(Filter(HasId(q), records[..i]), a);
      if a.id == q {
        assert Filter(HasId(q), records[..i + 1]) == Filter(HasId(q), records[..i]) + [a];
        result := result + [Format(a)];
      } else {
        assert Filter(HasId(q), records[..i + 1]) == Filter(HasId(q), records[..i]);
      }
    }
    assert records[..|records|] == records;
  }

  /** The other loop of /download: every record of the requested year. */
  method RecordsOfYear(records: seq<Alumni>, y: int) returns (result: seq<Formatted>)
    ensures result == FormatAll(Filter(HasYear(y), records))
  {
    result := [];
    for i := 0 to |records|
      invariant result == FormatAll(Filter(HasYear(y), records[..i]))
    {
      var a := records[i];
      assert records[..i + 1] == records[..i] + [a];
      FilterSnoc(HasYear(y), records[..i], a);
      FormatAllSnoc(Filter(HasYear(y), records[..i]), a);
      if a.year == y {
        assert Filter(HasYear(y), records[..i + 1]) == Filter(HasYear(y), records[..i]) + [a];
        result := result + [Format(a)];
      } else {
        assert Filter(HasYear(y), records[..i + 1]) == Filter(HasYear(y), records[..i]);
      }
    }
    assert records[..|records|] == records;
  }

  /**
   * /download: a supplied `id` takes precedence over `batch`; a value that
   * does not parse yields the empty list, and so does a request with neither.
   */
  method Download(params: map<string, string>, records: seq<Alumni>) returns (result: seq<Formatted>)
    ensures Supplied(params, "id") ==>
      result == match ParseInt(Trim(params["id"]))
                case None => []
                case Some(q) => FormatAll(Filter(HasId(q), records))
    ensures !Supplied(params, "id") && Supplied(params, "batch") ==>
      result == match ParseInt(Trim(params["batch"]))
                case None => []
                case Some(y) => FormatAll(Filter(HasYear(y), records))
    ensures !Supplied(params, "id") && !Supplied(params, "batch") ==> result == []
  {
    result := [];
    if "id" in params && Trim(params["id"]) != [] {
      var q := ParseInt(Trim(params["id"]));
      if q.Some? {
        result := RecordsWithId(records, q.value);
      }
    } else if "batch" in params && Trim(params["batch"]) != [] {
      var y := ParseInt(Trim(params["batch"]));
      if y.Some? {
        result := RecordsOfYear(records, y.value);
      }
    }
  }
}
