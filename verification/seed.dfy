/** The seed script: optionally wipe registrations and events, then upsert
    every event of a list by id. */
module Seed {
  import opened Options
  import opened Domain

  /** Upsert by id: an event with that id is overwritten in place, otherwise
      the event is appended. */
  function Upsert(evs: seq<Event>, e: Event): (r: seq<Event>)
    ensures EventIds(r) == EventIds(evs) + {e.id}
    ensures e.id in EventIds(evs) ==> |r| == |evs|
  {
    if e.id in EventIds(evs) then
      var r := Overwrite(evs, e);
      assert EventIds(r) == EventIds(evs) by {
        forall x | x in EventIds(evs) ensures x in EventIds(r) {
          var i :| 0 <= i < |evs| && evs[i].id == x;
          assert r[i] in r;
        }
      }
      r
    else evs + [e]
  }

  /** Every stored event with the id of `e` replaced by `e`. */
  function Overwrite(evs: seq<Event>, e: Event): (r: seq<Event>)
    ensures |r| == |evs|
    ensures forall i :: 0 <= i < |evs| ==> r[i] == if evs[i].id == e.id then e else evs[i]
  {
    seq(|evs|, i requires 0 <= i < |evs| => if evs[i].id == e.id then e else evs[i])
  }

  /** The upserts of the list, in list order. */
  function UpsertAll(evs: seq<Event>, list: seq<Event>): (r: seq<Event>)
    ensures EventIds(r) == EventIds(evs) + EventIds(list)
    ensures |evs| <= |r|
  {
    if |list| == 0 then evs
    else
      var init := list[..|list| - 1];
      assert EventIds(list) == EventIds(init) + {list[|list| - 1].id} by {
        assert forall x :: x in list <==> x in init || x == list[|list| - 1];
      }
      Upsert(UpsertAll(evs, init), list[|list| - 1])
  }

  /** The last entry of the list with the id. */
  function LastWith(list: seq<Event>, id: int): (r: Option<Event>)
    ensures r.Some? <==> id in EventIds(list)
    ensures r.Some? ==> r.value in list && r.value.id == id
  {
    if |list| == 0 then None
    else
      var init := list[..|list| - 1];
      assert EventIds(list) == EventIds(init) + {list[|list| - 1].id} by {
        assert forall x :: x in list <==> x in init || x == list[|list| - 1];
      }
      if list[|list| - 1].id == id then Some(list[|list| - 1]) else LastWith(init, id)
  }

  /** Where each stored event comes from after the upserts: the events
      already stored keep their places and ids; a place whose id is in the
      list holds the last entry with that id; every other stored event is
      untouched; and the appended events carry ids of the list. */
  ghost predicate Placed(evs: seq<Event>, list: seq<Event>, r: seq<Event>) {
    && |evs| <= |r|
    && (forall i :: 0 <= i < |evs| ==> r[i].id == evs[i].id)
    && (forall i :: 0 <= i < |r| && r[i].id in EventIds(list) ==> LastWith(list, r[i].id) == Some(r[i]))
    && (forall i :: 0 <= i < |evs| && evs[i].id !in EventIds(list) ==> r[i] == evs[i])
    && (forall i :: |evs| <= i < |r| ==> r[i].id in EventIds(list))
  }

  lemma {:induction false} UpsertAllPlaced(evs: seq<Event>, list: seq<Event>)
    ensures Placed(evs, list, UpsertAll(evs, list))
  {
    if |list| > 0 {
      var init := list[..|list| - 1];
      var e := list[|list| - 1];
      UpsertAllPlaced(evs, init);
      assert init + [e] == list;
      PlacedStep(evs, init, e, UpsertAll(evs, init));
    }
  }

  /** One more upsert extends the placement to one more list entry. */
  lemma {:induction false} PlacedStep(evs: seq<Event>, init: seq<Event>, e: Event, r0: seq<Event>)
    requires Placed(evs, init, r0)
    ensures Placed(evs, init + [e], Upsert(r0, e))
  {
    var list := init + [e];
    assert list[..|init|] == init;
    assert EventIds(list) == EventIds(init) + {e.id} by {
      assert forall x :: x in list <==> x in init || x == e;
    }
    assert forall id :: LastWith(list, id) == if id == e.id then Some(e) else LastWith(init, id);
    if e.id in EventIds(r0) {
      PlacedReplace(evs, list, e, r0);
    } else {
      PlacedAppend(evs, list, e, r0);
    }
  }

  lemma {:induction false} PlacedReplace(evs: seq<Event>, list: seq<Event>, e: Event, r0: seq<Event>)
    requires e.id in EventIds(r0) && e.id in EventIds(list)
    requires |evs| <= |r0|
    requires forall i :: 0 <= i < |evs| ==> r0[i].id == evs[i].id
    requires forall i :: 0 <= i < |r0| && r0[i].id in EventIds(list) && r0[i].id != e.id ==> LastWith(list, r0[i].id) == Some(r0[i])
    requires forall i :: 0 <= i < |evs| && evs[i].id !in EventIds(list) ==> r0[i] == evs[i]
    requires forall i :: |evs| <= i < |r0| ==> r0[i].id in EventIds(list)
    requires LastWith(list, e.id) == Some(e)
    ensures Placed(evs, list, Upsert(r0, e))
  {
    var r := Upsert(r0, e);
    assert r == Overwrite(r0, e);
    forall i | 0 <= i < |r| && r[i].id in EventIds(list) ensures LastWith(list, r[i].id) == Some(r[i]) {
    }
    forall i | 0 <= i < |evs| && evs[i].id !in EventIds(list) ensures r[i] == evs[i] {
    }
  }

  lemma {:induction false} PlacedAppend(evs: seq<Event>, list: seq<Event>, e: Event, r0: seq<Event>)
    requires e.id !in EventIds(r0) && e.id in EventIds(list)
    requires |evs| <= |r0|
    requires forall i :: 0 <= i < |evs| ==> r0[i].id == evs[i].id
    requires forall i :: 0 <= i < |r0| && r0[i].id in EventIds(list) && r0[i].id != e.id ==> LastWith(list, r0[i].id) == Some(r0[i])
    requires forall i :: 0 <= i < |evs| && evs[i].id !in EventIds(list) ==> r0[i] == evs[i]
    requires forall i :: |evs| <= i < |r0| ==> r0[i].id in EventIds(list)
    requires LastWith(list, e.id) == Some(e)
    ensures Placed(evs, list, Upsert(r0, e))
  {
    var r := Upsert(r0, e);
    assert r == r0 + [e];
    forall i | 0 <= i < |r0| ensures r0[i].id != e.id {
      assert r0[i] in r0;
    }
  }

  /** After the upserts every id of the list is stored with its last entry's
      name, date and description, and every other id finds what it found
      before. */
  lemma {:induction false} UpsertAllFinds(evs: seq<Event>, list: seq<Event>, id: int)
    ensures FindEvent(UpsertAll(evs, list), id) == if id in EventIds(list) then LastWith(list, id) else FindEvent(evs, id)
  {
    var r := UpsertAll(evs, list);
    UpsertAllPlaced(evs, list);
    var f := FindEvent(r, id);
    if id in EventIds(list) {
      var i :| 0 <= i < |r| && r[i] == f.value;
    } else {
      FindEventPlaced(evs, r, id);
    }
  }

  /** Finding an id that keeps its events in place. */
  lemma {:induction false} FindEventPlaced(evs: seq<Event>, r: seq<Event>, id: int)
    requires |evs| <= |r|
    requires forall i :: 0 <= i < |evs| && evs[i].id == id ==> r[i] == evs[i]
    requires forall i :: 0 <= i < |evs| ==> (r[i].id == id <==> evs[i].id == id)
    requires forall i :: |evs| <= i < |r| ==> r[i].id != id
    ensures FindEvent(r, id) == FindEvent(evs, id)
    decreases |evs|
  {
    if |evs| == 0 {
      assert id !in EventIds(r) by {
        forall x | x in r ensures x.id != id {
          var i :| 0 <= i < |r| && r[i] == x;
        }
      }
    } else if evs[0].id != id {
      FindEventPlaced(evs[1..], r[1..], id);
    }
  }

  /** Upserting keeps event ids distinct. */
  lemma {:induction false} UpsertAllDistinct(evs: seq<Event>, list: seq<Event>)
    requires DistinctEvents(evs)
    ensures DistinctEvents(UpsertAll(evs, list))
  {
    if |list| > 0 {
      var init := list[..|list| - 1];
      var e := list[|list| - 1];
      UpsertAllDistinct(evs, init);
      var r0 := UpsertAll(evs, init);
      var r := Upsert(r0, e);
      if e.id !in EventIds(r0) {
        forall i, j | 0 <= i < j < |r| ensures r[i].id != r[j].id {
          if j == |r0| {
            assert r[i] == r0[i] && r0[i] in r0;
          } else {
            assert r[i] == r0[i] && r[j] == r0[j];
          }
        }
      }
    }
  }

  /** Whether `DELETE_ALL` is set to a non-empty value. */
  predicate Truthy(v: Option<string>) {
    v.Some? && v.value != ""
  }

  /** The wipe as the script does it: registrations first, then events, so
      no step leaves a registration pointing at a missing event. */
  function Wipe(db: Db): (r: Db)
    ensures r.users == db.users && r.events == [] && r.registrations == []
  {
    var noRegistrations := db.(registrations := []);
    noRegistrations.(events := [])
  }

  /** Both steps of the wipe keep every registration linked. */
  lemma {:induction false} WipeLinked(db: Db)
    requires Linked(db)
    ensures Linked(db.(registrations := [])) && Linked(Wipe(db))
  {
  }

  /** Deleting the events first would leave a registration dangling. */
  lemma {:induction false} EventsFirstDangles(db: Db)
    requires |db.registrations| > 0
    ensures !Linked(db.(events := []))
  {
    assert db.registrations[0] in db.registrations;
  }

  /** The seed script: the optional wipe, then the upserts. */
  function Seed(db: Db, deleteAll: Option<string>, list: seq<Event>): (r: Db)
    ensures r.users == db.users
    ensures EventIds(r.events) == (if Truthy(deleteAll) then {} else EventIds(db.events)) + EventIds(list)
  {
    var base := if Truthy(deleteAll) then Wipe(db) else db;
    base.(events := UpsertAll(base.events, list))
  }

  /** Without the wipe, registrations stay as they were and every event whose
      id is not in the list keeps its place and contents. */
  lemma {:induction false} SeedWithoutWipe(db: Db, deleteAll: Option<string>, list: seq<Event>)
    requires !Truthy(deleteAll)
    ensures var r := Seed(db, deleteAll, list);
      && r.registrations == db.registrations
      && |db.events| <= |r.events|
      && forall i :: 0 <= i < |db.events| && db.events[i].id !in EventIds(list) ==> r.events[i] == db.events[i]
  {
    UpsertAllPlaced(db.events, list);
  }

  /** With the wipe, no registration remains, the stored ids are exactly the
      list's, each holding its last entry, and the store stays consistent. */
  lemma {:induction false} SeedWithWipe(db: Db, deleteAll: Option<string>, list: seq<Event>)
    requires Truthy(deleteAll) && DistinctUsers(db.users)
    ensures var r := Seed(db, deleteAll, list);
      && r.registrations == []
      && EventIds(r.events) == EventIds(list)
      && (forall id :: id in EventIds(list) ==> FindEvent(r.events, id) == LastWith(list, id))
      && Consistent(r)
  {
    forall id | id in EventIds(list) ensures FindEvent(Seed(db, deleteAll, list).events, id) == LastWith(list, id) {
      UpsertAllFinds([], list, id);
    }
    UpsertAllDistinct([], list);
  }

  /** Every id of the list ends up stored with its last entry. */
  lemma {:induction false} SeedStoresLastEntry(db: Db, deleteAll: Option<string>, list: seq<Event>, id: int)
    requires id in EventIds(list)
    ensures FindEvent(Seed(db, deleteAll, list).events, id) == LastWith(list, id)
  {
    var base := if Truthy(deleteAll) then Wipe(db) else db;
    UpsertAllFinds(base.events, list, id);
  }

  /** A run keeps the store consistent. */
  lemma {:induction false} SeedConsistent(db: Db, deleteAll: Option<string>, list: seq<Event>)
    requires Consistent(db)
    ensures Consistent(Seed(db, deleteAll, list))
  {
    var base := if Truthy(deleteAll) then Wipe(db) else db;
    UpsertAllDistinct(base.events, list);
  }

  /** Upserting a list whose ids are all stored changes no length. */
  lemma {:induction false} UpsertAllStoredLength(evs: seq<Event>, list: seq<Event>)
    requires EventIds(list) <= EventIds(evs)
    ensures |UpsertAll(evs, list)| == |evs|
  {
    if |list| > 0 {
      var init := list[..|list| - 1];
      assert forall x :: x in init ==> x in list;
      UpsertAllStoredLength(evs, init);
      assert list[|list| - 1] in list;
    }
  }

  /** Upserting the same list again changes nothing. */
  lemma {:induction false} UpsertAllIdempotent(evs: seq<Event>, list: seq<Event>)
    ensures UpsertAll(UpsertAll(evs, list), list) == UpsertAll(evs, list)
  {
    var r := UpsertAll(evs, list);
    UpsertAllPlaced(evs, list);
    UpsertAllPlaced(r, list);
    UpsertAllStoredLength(r, list);
    PlacedFixed(r, list, UpsertAll(r, list));
  }

  /** Upserts that only overwrite events already holding their list entry
      change nothing. */
  lemma {:induction false} PlacedFixed(r: seq<Event>, list: seq<Event>, r2: seq<Event>)
    requires Placed(r, list, r2) && |r2| == |r|
    requires forall i :: 0 <= i < |r| && r[i].id in EventIds(list) ==> LastWith(list, r[i].id) == Some(r[i])
    ensures r2 == r
  {
    forall i | 0 <= i < |r| ensures r2[i] == r[i] {
      if r[i].id in EventIds(list) {
        assert LastWith(list, r2[i].id) == Some(r2[i]);
      }
    }
  }

  /** Running the script twice without the wipe gives the store one run gives. */
  lemma {:induction false} SeedIdempotent(db: Db, deleteAll: Option<string>, list: seq<Event>)
    ensures var once := Seed(db, deleteAll, list);
      Seed(once, None, list) == once
  {
    var base := if Truthy(deleteAll) then Wipe(db) else db;
    UpsertAllIdempotent(base.events, list);
  }
}
