/** queryToMap: the query string of a request as a parameter map. */
module Query {
  import opened Wrappers
  import opened JavaText

  /** The (key, value) pairs of a non-empty query string, in their order. */
  function Entries(query: string): (e: seq<(string, string)>)
    ensures |e| == |Split(query, '&')|
  {
    var pairs := Split(query, '&');
    seq(|pairs|, k requires 0 <= k < |pairs| => SplitPair(pairs[k]))
  }

  /**
   * Pair k is piece k of the query split at its first '=': the key holds no
   * '=', key, '=' and value rebuild a piece that has one, and a piece
   * without one is a key with the empty value.
   */
  lemma EntriesArePairs(query: string, k: nat)
    requires k < |Split(query, '&')|
    ensures var piece := Split(query, '&')[k]; var kv := Entries(query)[k];
      && '=' !in kv.0
      && ('=' in piece ==> kv.0 + "=" + kv.1 == piece)
      && ('=' !in piece ==> kv == (piece, ""))
  {
  }

  /**
   * `params` holds exactly the keys of `e`, each with the value of its last
   * pair: HashMap.put lets the later value win.
   */
  ghost predicate LastWins(params: map<string, string>, e: seq<(string, string)>) {
    && (forall key :: key in params <==> exists i :: 0 <= i < |e| && e[i].0 == key)
    && (forall i :: 0 <= i < |e| && (forall j :: i < j < |e| ==> e[j].0 != e[i].0) ==>
          e[i].0 in params && params[e[i].0] == e[i].1)
  }

  /** One more put keeps the map in step with one more pair. */
  lemma LastWinsPut(params: map<string, string>, e: seq<(string, string)>, kv: (string, string))
    requires LastWins(params, e)
    ensures LastWins(params[kv.0 := kv.1], e + [kv])
  {
    var params' := params[kv.0 := kv.1];
    var e' := e + [kv];
    forall key ensures key in params' <==> exists i :: 0 <= i < |e'| && e'[i].0 == key {
      if key in params' && key != kv.0 {
        var i :| 0 <= i < |e| && e[i].0 == key;
        assert e'[i] == e[i];
      }
      if key !in params' {
        forall i | 0 <= i < |e'| ensures e'[i].0 != key {
          if i < |e| { assert e'[i] == e[i]; }
        }
      }
      assert e'[|e|] == kv;
    }
    forall i | 0 <= i < |e'| && (forall j :: i < j < |e'| ==> e'[j].0 != e'[i].0)
      ensures e'[i].0 in params' && params'[e'[i].0] == e'[i].1
    {
      if i < |e| {
        assert e'[i] == e[i];
        assert e'[|e|] == kv;
        forall j | i < j < |e| ensures e[j].0 != e[i].0 {
          assert e'[j] == e[j];
        }
      }
    }
  }

  /** One iteration of queryToMap's loop: the put of pair i. */
  lemma PutStep(query: string, params: map<string, string>, i: nat)
    requires i < |Split(query, '&')|
    requires LastWins(params, Entries(query)[..i])
    ensures var kv := SplitPair(Split(query, '&')[i]);
      LastWins(params[kv.0 := kv.1], Entries(query)[..i + 1])
  {
    var e := Entries(query);
    var kv := SplitPair(Split(query, '&')[i]);
    assert e[i] == kv;
    assert e[..i + 1] == e[..i] + [kv];
    LastWinsPut(params, e[..i], kv);
  }

  method QueryToMap(query: Option<string>) returns (params: map<string, string>)
    ensures query.None? || query.value == [] ==> params == map[]
    ensures query.Some? && query.value != [] ==> LastWins(params, Entries(query.value))
  {
    params := map[];
    if query.None? || query.value == [] {
      return;
    }
    var pairs := Split(query.value, '&');
    ghost var e := Entries(query.value);
    var i := 0;
    while i < |pairs|
      invariant 0 <= i <= |pairs| == |e|
      invariant LastWins(params, e[..i])
    {
      var entry := SplitPair(pairs[i]);
      PutStep(query.value, params, i);
      params := params[entry.0 := entry.1];
      i := i + 1;
    }
    assert e[..|pairs|] == e;
  }
}
