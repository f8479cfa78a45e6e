/** The appointment store: one sequence of records, appended to, spliced,
    and searched by id. */
module Storage {
  import opened Appointments

  /** Array.prototype.findIndex by id: the first index holding `id`, or -1. */
  function FirstIndexOf(s: seq<Appointment>, id: string): (k: int)
    ensures -1 <= k < |s|
    ensures k == -1 <==> forall i :: 0 <= i < |s| ==> s[i].id != id
    ensures k >= 0 ==> s[k].id == id && forall i :: 0 <= i < k ==> s[i].id != id
    decreases |s|
  {
    if s == [] then -1
    else if s[0].id == id then 0
    else
      var k := FirstIndexOf(s[1..], id);
      if k == -1 then -1 else k + 1
  }

  /** splice(k, 1): the entry at k leaves, the others keep their order. */
  function RemoveAt(s: seq<Appointment>, k: int): (r: seq<Appointment>)
    requires 0 <= k < |s|
    ensures |r| == |s| - 1
    ensures forall i :: 0 <= i < k ==> r[i] == s[i]
    ensures forall i :: k <= i < |r| ==> r[i] == s[i + 1]
    ensures multiset(r) + multiset{s[k]} == multiset(s)
  {
    assert s == s[..k] + [s[k]] + s[k + 1..];
    s[..k] + s[k + 1..]
  }

  /** The sequence removeAppointment(id) leaves behind. */
  function RemoveFirst(s: seq<Appointment>, id: string): (r: seq<Appointment>)
    ensures (forall i :: 0 <= i < |s| ==> s[i].id != id) ==> r == s
    ensures (exists i :: 0 <= i < |s| && s[i].id == id) ==>
              |r| == |s| - 1 && multiset(r) + multiset{s[FirstIndexOf(s, id)]} == multiset(s)
              && s[FirstIndexOf(s, id)].id == id
    ensures FirstIndexOf(s, id) != -1 ==>
              (forall i :: 0 <= i < FirstIndexOf(s, id) ==> r[i] == s[i])
              && (forall i :: FirstIndexOf(s, id) <= i < |r| ==> r[i] == s[i + 1])
  {
    var k := FirstIndexOf(s, id);
    if k == -1 then s else RemoveAt(s, k)
  }

  predicate UniqueIds(s: seq<Appointment>)
  {
    forall i, j :: 0 <= i < j < |s| ==> s[i].id != s[j].id
  }

  /** Adding a record with a fresh id and then removing that id gives back
      the collection as it was. */
  lemma AddThenRemoveRestores(s: seq<Appointment>, a: Appointment)
    requires forall i :: 0 <= i < |s| ==> s[i].id != a.id
    ensures RemoveFirst(s + [a], a.id) == s
  {
    FreshIdFoundLast(s, a);
  }

  /** A record appended under an id no earlier record has is found at the end. */
  lemma {:induction false} FreshIdFoundLast(s: seq<Appointment>, a: Appointment)
    requires forall i :: 0 <= i < |s| ==> s[i].id != a.id
    ensures FirstIndexOf(s + [a], a.id) == |s|
    decreases |s|
  {
    if s != [] {
      assert (s + [a])[1..] == s[1..] + [a];
      FreshIdFoundLast(s[1..], a);
    }
  }

  /** Once the only record with an id is removed, the id is gone. */
  lemma RemoveUniqueIdIsGone(s: seq<Appointment>, id: string)
    requires UniqueIds(s)
    ensures FirstIndexOf(RemoveFirst(s, id), id) == -1
    ensures UniqueIds(RemoveFirst(s, id))
  {
    var k := FirstIndexOf(s, id);
    if k != -1 {
      var r := RemoveAt(s, k);
      forall i | 0 <= i < |r| ensures r[i].id != id {
        if i < k { assert r[i] == s[i]; } else { assert r[i] == s[i + 1]; }
      }
      forall i, j | 0 <= i < j < |r| ensures r[i].id != r[j].id {
        var i0 := if i < k then i else i + 1;
        var j0 := if j < k then j else j + 1;
        assert r[i] == s[i0] && r[j] == s[j0];
      }
    }
  }

  /** The store of the Next.js back end. The file-or-memory persistence is
      one sequence here. */
  class AppointmentStore {
    var items: seq<Appointment>

    constructor ()
      ensures items == []
    {
      items := [];
    }

    /** addAppointment: push one record at the end. */
    method Add(a: Appointment)
      modifies this
      ensures items == old(items) + [a]
      ensures items[|items| - 1] == a
    {
      items := items + [a];
    }

    /** removeAppointment: splice out the first record with the id and
      report whether there was one. */
    method Remove(id: string) returns (removed: bool)
      modifies this
      ensures removed <==> exists i :: 0 <= i < |old(items)| && old(items)[i].id == id
      ensures items == RemoveFirst(old(items), id)
      ensures removed ==> items == RemoveAt(old(items), FirstIndexOf(old(items), id))
      ensures !removed ==> items == old(items)
    {
      removed := FirstIndexOf(items, id) != -1;
      items := RemoveFirst(items, id);
    }

    /** findAppointment: the first record with the id, if any. */
    function Find(id: string): (r: Option<Appointment>)
      reads this
      ensures r.None? <==> forall i :: 0 <= i < |items| ==> items[i].id != id
      ensures r.Some? ==> r.value.id == id && r.value == items[FirstIndexOf(items, id)]
    {
      var k := FirstIndexOf(items, id);
      if k == -1 then None else Some(items[k])
    }
  }
}
