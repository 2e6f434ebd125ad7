/**
 * The Alumni record, its Title-case projection (formatAlumni), and the
 * order-preserving filter that every list-building loop of the server
 * performs.
 */
module Records {
  import opened Wrappers

  /** The raw IEEE-754 bits of a Java double; the model never computes with it. */
  datatype Float64 = Float64(bits: bv64)

  /**
   * An alumni record. Every String field may be null (None): Gson leaves a
   * missing field null when it parses a request body.
   */
  datatype Alumni = Alumni(
    id: int,
    name: Option<string>,
    department: Option<string>,
    year: int,
    email: Option<string>,
    phone: Option<string>,
    address: Option<string>,
    job: Option<string>,
    company: Option<string>,
    cgpa: Float64)

  /** A JSON value as formatAlumni puts it into its map. */
  datatype JsonValue = JInt(i: int) | JStr(s: Option<string>) | JDouble(d: Float64)

  /** The insertion-ordered map that formatAlumni builds, as its list of entries. */
  type Formatted = seq<(string, JsonValue)>

  const RecordKeys: seq<string> :=
    ["ID", "Name", "Department", "Year", "Email", "Phone", "Address", "Job", "Company", "CGPA"]

  /** formatAlumni: the record under its fixed external key names, in their fixed order. */
  function Format(a: Alumni): (m: Formatted)
    ensures |m| == |RecordKeys|
    ensures forall k :: 0 <= k < |m| ==> m[k].0 == RecordKeys[k]
  {
    [("ID", JInt(a.id)), ("Name", JStr(a.name)), ("Department", JStr(a.department)),
     ("Year", JInt(a.year)), ("Email", JStr(a.email)), ("Phone", JStr(a.phone)),
     ("Address", JStr(a.address)), ("Job", JStr(a.job)), ("Company", JStr(a.company)),
     ("CGPA", JDouble(a.cgpa))]
  }

  /** Reads a record back from its Title-case entries. */
  function Unformat(m: Formatted): Option<Alumni> {
    if |m| == 10 && m[0].1.JInt? && m[1].1.JStr? && m[2].1.JStr? && m[3].1.JInt? && m[4].1.JStr?
       && m[5].1.JStr? && m[6].1.JStr? && m[7].1.JStr? && m[8].1.JStr? && m[9].1.JDouble?
    then
      Some(Alumni(m[0].1.i, m[1].1.s, m[2].1.s, m[3].1.i, m[4].1.s, m[5].1.s, m[6].1.s, m[7].1.s,
                  m[8].1.s, m[9].1.d))
    else None
  }

  /** formatAlumni loses nothing: every field can be read back. */
  lemma UnformatFormat(a: Alumni)
    ensures Unformat(Format(a)) == Some(a)
  {
  }

  /** The map applied to every record of a list, in order. */
  function FormatAll(rs: seq<Alumni>): (fs: seq<Formatted>)
    ensures |fs| == |rs|
    ensures forall k :: 0 <= k < |rs| ==> Unformat(fs[k]) == Some(rs[k])
  {
    if rs == [] then [] else FormatAll(rs[..|rs| - 1]) + [Format(rs[|rs| - 1])]
  }

  lemma FormatAllSnoc(rs: seq<Alumni>, a: Alumni)
    ensures FormatAll(rs + [a]) == FormatAll(rs) + [Format(a)]
  {
    assert (rs + [a])[..|rs|] == rs;
  }

  lemma {:induction false} FormatAllAt(rs: seq<Alumni>, k: nat)
    requires k < |rs|
    ensures FormatAll(rs)[k] == Format(rs[k])
  {
    if k < |rs| - 1 {
      FormatAllAt(rs[..|rs| - 1], k);
    }
  }

  // ------------------------------------------------------------- filter

  /** The elements of `s` that satisfy `p`, in their order in `s`. */
  function Filter<T>(p: T -> bool, s: seq<T>): (r: seq<T>)
    ensures |r| <= |s|
    ensures forall x :: x in r ==> x in s && p(x)
  {
    if s == [] then []
    else Filter(p, s[..|s| - 1]) + (if p(s[|s| - 1]) then [s[|s| - 1]] else [])
  }

  predicate StrictlyIncreasing(ix: seq<nat>) {
    forall i, j :: 0 <= i < j < |ix| ==> ix[i] < ix[j]
  }

  /**
   * `r` is the subsequence of `s` at the increasing indices `ix`, and those
   * are exactly the indices of `s` where `p` holds.
   */
  ghost predicate SelectsInOrder<T>(p: T -> bool, s: seq<T>, r: seq<T>, ix: seq<nat>) {
    && |ix| == |r|
    && StrictlyIncreasing(ix)
    && (forall k :: 0 <= k < |ix| ==> ix[k] < |s| && r[k] == s[ix[k]])
    && (forall i :: 0 <= i < |s| ==> (p(s[i]) <==> i in ix))
  }

  /** Selecting from one more element that is kept. */
  lemma SelectsSnocKept<T>(p: T -> bool, s: seq<T>, x: T, r: seq<T>, ix: seq<nat>)
    requires SelectsInOrder(p, s, r, ix) && p(x)
    ensures SelectsInOrder(p, s + [x], r + [x], ix + [|s|])
  {
    var s', r', ix' := s + [x], r + [x], ix + [|s|];
    forall k | 0 <= k < |ix'| ensures ix'[k] < |s'| && r'[k] == s'[ix'[k]] {
      if k < |ix| {
        assert r'[k] == r[k] == s[ix[k]];
      }
    }
    assert StrictlyIncreasing(ix') by {
      forall i, j | 0 <= i < j < |ix'| ensures ix'[i] < ix'[j] {
        if j == |ix| {
          assert ix'[i] == ix[i] < |s|;
        }
      }
    }
    forall i | 0 <= i < |s'| ensures p(s'[i]) <==> i in ix' {
      if i < |s| {
        assert s'[i] == s[i];
        assert i in ix' <==> i in ix;
      }
    }
  }

  /** Selecting from one more element that is dropped. */
  lemma SelectsSnocDropped<T>(p: T -> bool, s: seq<T>, x: T, r: seq<T>, ix: seq<nat>)
    requires SelectsInOrder(p, s, r, ix) && !p(x)
    ensures SelectsInOrder(p, s + [x], r, ix)
  {
    var s' := s + [x];
    forall k | 0 <= k < |ix| ensures ix[k] < |s'| && r[k] == s'[ix[k]] {
      assert s'[ix[k]] == s[ix[k]];
    }
    forall i | 0 <= i < |s'| ensures p(s'[i]) <==> i in ix {
      if i < |s| {
        assert s'[i] == s[i];
      } else {
        assert forall k :: 0 <= k < |ix| ==> ix[k] < |s|;
      }
    }
  }

  /** Filter keeps exactly the matching elements, each once, in their original order. */
  lemma {:induction false} FilterInOrder<T>(p: T -> bool, s: seq<T>) returns (ix: seq<nat>)
    ensures SelectsInOrder(p, s, Filter(p, s), ix)
  {
    if s == [] {
      ix := [];
    } else {
      var n := |s| - 1;
      var prefix, x := s[..n], s[n];
      assert s == prefix + [x];
      var ix0 := FilterInOrder(p, prefix);
      if p(x) {
        SelectsSnocKept(p, prefix, x, Filter(p, prefix), ix0);
        ix := ix0 + [n];
      } else {
        SelectsSnocDropped(p, prefix, x, Filter(p, prefix), ix0);
        ix := ix0;
      }
    }
  }

  /** Every element that satisfies `p` appears in the filtered list. */
  lemma FilterComplete<T>(p: T -> bool, s: seq<T>, i: nat)
    requires i < |s| && p(s[i])
    ensures s[i] in Filter(p, s)
  {
    var ix := FilterInOrder(p, s);
    var k :| 0 <= k < |ix| && ix[k] == i;
    assert Filter(p, s)[k] == s[i];
  }

  /** A filter that rejects every element yields the empty list. */
  lemma {:induction false} FilterNone<T>(p: T -> bool, s: seq<T>)
    requires forall i :: 0 <= i < |s| ==> !p(s[i])
    ensures Filter(p, s) == []
  {
    if s != [] {
      FilterNone(p, s[..|s| - 1]);
    }
  }

  /** Filtering an extended list extends the filtered list by at most the new element. */
  lemma FilterSnoc<T>(p: T -> bool, s: seq<T>, x: T)
    ensures Filter(p, s + [x]) == Filter(p, s) + (if p(x) then [x] else [])
  {
    assert (s + [x])[..|s|] == s;
  }

  // -------------------------------------------------- record predicates

  function HasId(q: int): Alumni -> bool {
    (a: Alumni) => a.id == q
  }

  function HasYear(y: int): Alumni -> bool {
    (a: Alumni) => a.year == y
  }
}
