/** The /add and /add-bulk handlers: append records with sequential ids. */
module Append {
  import opened Wrappers
  import opened JavaText
  import opened Records

  /** {"Status": "Success"} or {"Status": "Error"} */
  datatype Status = Success | Error

  /** What a handler replies, and the collection it writes back. */
  datatype Outcome = Outcome(status: Status, saved: seq<Alumni>)

  /** A batch numbered consecutively from `next` on (Server.java:230-233). */
  function AssignIds(batch: seq<Alumni>, next: int): (r: seq<Alumni>)
    ensures |r| == |batch|
  {
    if batch == [] then [] else [batch[0].(id := next)] + AssignIds(batch[1..], next + 1)
  }

  /** The k-th record of the batch receives id next + k and keeps every other field. */
  lemma {:induction false} AssignIdsAt(batch: seq<Alumni>, next: int)
    ensures |AssignIds(batch, next)| == |batch|
    ensures forall k :: 0 <= k < |batch| ==> AssignIds(batch, next)[k] == batch[k].(id := next + k)
  {
    if batch != [] {
      AssignIdsAt(batch[1..], next + 1);
      var r := AssignIds(batch, next);
      forall k | 0 <= k < |batch| ensures r[k] == batch[k].(id := next + k) {
        if k > 0 {
          assert r[k] == AssignIds(batch[1..], next + 1)[k - 1];
        }
      }
    }
  }

  /** Numbering one more record continues the sequence. */
  lemma {:induction false} AssignIdsSnoc(batch: seq<Alumni>, a: Alumni, next: int)
    ensures AssignIds(batch + [a], next) == AssignIds(batch, next) + [a.(id := next + |batch|)]
  {
    if batch == [] {
      assert [a][1..] == [];
    } else {
      assert (batch + [a])[1..] == batch[1..] + [a];
      AssignIdsSnoc(batch[1..], a, next + 1);
    }
  }

  /**
   * After appending N records to a collection of M, there are M + N records,
   * the first M unchanged and record M + k carrying id M + 1 + k.
   */
  lemma AppendedShape(store: seq<Alumni>, batch: seq<Alumni>)
    ensures var saved := store + AssignIds(batch, |store| + 1);
      && |saved| == |store| + |batch|
      && saved[..|store|] == store
      && forall k :: 0 <= k < |batch| ==>
           saved[|store| + k].id == |store| + 1 + k && saved[|store| + k] == batch[k].(id := |store| + 1 + k)
  {
    AssignIdsAt(batch, |store| + 1);
    var saved := store + AssignIds(batch, |store| + 1);
    assert saved[..|store|] == store;
  }

  /**
   * /add: the parsed body (None when Gson gave null) gets id size + 1 and is
   * appended.
   */
  function Add(store: seq<Alumni>, incoming: Option<Alumni>): (o: Outcome)
    ensures incoming.None? ==> o == Outcome(Error, store)
    ensures incoming.Some? ==>
      && o.status == Success
      && |o.saved| == |store| + 1
      && o.saved[..|store|] == store
      && o.saved[|store|] == incoming.value.(id := |store| + 1)
  {
    match incoming
    case None => Outcome(Error, store)
    case Some(a) =>
      var saved := store + [a.(id := |store| + 1)];
      assert saved[..|store|] == store;
      Outcome(Success, saved)
  }

  /** /add is /add-bulk with a batch of one. */
  lemma AddIsBulkOfOne(store: seq<Alumni>, a: Alumni)
    ensures Add(store, Some(a)).saved == store + AssignIds([a], |store| + 1)
  {
    AssignIdsSnoc([], a, |store| + 1);
  }

  /** Index of the first null element, or |xs| when there is none. */
  function FirstNull(xs: seq<Option<Alumni>>): (n: nat)
    ensures n <= |xs|
    ensures forall k :: 0 <= k < n ==> xs[k].Some?
    ensures n < |xs| ==> xs[n].None?
  {
    if xs == [] || xs[0].None? then 0 else 1 + FirstNull(xs[1..])
  }

  /** The records of a batch without nulls. */
  function Values(xs: seq<Option<Alumni>>): (r: seq<Alumni>)
    requires forall k :: 0 <= k < |xs| ==> xs[k].Some?
    ensures |r| == |xs| && forall k :: 0 <= k < |xs| ==> xs[k] == Some(r[k])
  {
    seq(|xs|, k requires 0 <= k < |xs| => xs[k].value)
  }

  /**
   * /add-bulk: the ids are written into the parsed array in place, in order,
   * from size + 1 on. A null array is an error; a null element raises a
   * NullPointerException part-way, after the elements before it were
   * renumbered, and nothing is saved.
   */
  method AddBulk(store: seq<Alumni>, incoming: array?<Option<Alumni>>) returns (o: Outcome)
    modifies incoming
    ensures incoming == null ==> o == Outcome(Error, store)
    ensures incoming != null ==>
      var before := old(incoming[..]);
      var n := FirstNull(before);
      && (forall k :: 0 <= k < n ==> incoming[k] == Some(before[k].value.(id := |store| + 1 + k)))
      && (forall k :: n <= k < incoming.Length ==> incoming[k] == before[k])
      && (n < incoming.Length ==> o == Outcome(Error, store))
      && (n == incoming.Length ==> o == Outcome(Success, store + AssignIds(Values(before), |store| + 1)))
  {
    if incoming == null {
      return Outcome(Error, store);
    }
    ghost var before := incoming[..];
    ghost var n := FirstNull(before);
    var list := store;
    var nextId := |store| + 1;
    var i := 0;
    while i < incoming.Length
      invariant 0 <= i <= n
      invariant nextId == |store| + 1 + i
      invariant forall k :: 0 <= k < i ==> incoming[k] == Some(before[k].value.(id := |store| + 1 + k))
      invariant forall k :: i <= k < incoming.Length ==> incoming[k] == before[k]
      invariant list == store + AssignIds(Values(before[..i]), |store| + 1)
    {
      var a := incoming[i];
      if a.None? {
        return Outcome(Error, store);
      }
      var stamped := a.value.(id := nextId);
      incoming[i] := Some(stamped);
      AssignIdsSnoc(Values(before[..i]), a.value, |store| + 1);
      assert Values(before[..i + 1]) == Values(before[..i]) + [a.value];
      list := list + [stamped];
      nextId := nextId + 1;
      i := i + 1;
    }
    assert before[..incoming.Length] == before;
    return Outcome(Success, list);
  }

  /**
   * Round trip: after /add, looking the new id up (as /download does)
   * finds the submitted record, renumbered, as the last hit.
   */
  lemma AddThenFindById(store: seq<Alumni>, a: Alumni)
    requires |store| + 1 <= MaxInt
    ensures ParseInt(Trim(ShowInt(|store| + 1))) == Some(|store| + 1)
    ensures var hits := Filter(HasId(|store| + 1), Add(store, Some(a)).saved);
      |hits| > 0 && hits[|hits| - 1] == a.(id := |store| + 1)
  {
    TrimShow(|store| + 1);
    ParseShow(|store| + 1);
    var saved := Add(store, Some(a)).saved;
    assert saved == store + [a.(id := |store| + 1)];
    FilterSnoc(HasId(|store| + 1), store, a.(id := |store| + 1));
  }
}
