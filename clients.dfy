/**
 * The dashboards against the running server: a list loaded at any point of
 * the clinic's broadcast log and patched by every later broadcast equals the
 * current store. Also the delete broadcast as the handler writes it, whose
 * id no list matches when the URL spells the id in upper case.
 */
module Clients {
  import opened Lists
  import opened Records
  import opened Server
  import NurseDashboard
  import UserDashboard

  /**
   * A nurse list loaded when the log held `k` broadcasts (what `GET
   * /api/patients` returned then) and patched by every later broadcast lists
   * exactly the clinic's current records.
   */
  lemma NurseListConverges(clinic: Clinic, k: int, list: seq<Patient>)
    requires clinic.Valid() && 0 <= k <= |clinic.events| && ListsStore(list, clinic.history[k])
    ensures ListsStore(NurseDashboard.ApplyAll(list, clinic.events[k..]), clinic.patients)
  {
    var stores, events := clinic.history, clinic.events;
    ReplaysKeyed(stores, events, k);
    ReplaysSuffix(stores, events, k);
    NurseDashboard.TracksLog(list, stores[k..], events[k..]);
    assert stores[k..][|events[k..]|] == stores[|events|];
  }

  /** The same for the encoder's list, which also stays newest first. */
  lemma EncoderListConverges(clinic: Clinic, k: int, list: seq<Patient>)
    requires clinic.Valid() && 0 <= k <= |clinic.events|
    requires ListsStore(list, clinic.history[k]) && NewestFirst(list)
    ensures UserDashboard.Mirrors(UserDashboard.ApplyAll(list, clinic.events[k..]), clinic.patients)
  {
    var stores, events := clinic.history, clinic.events;
    ReplaysKeyed(stores, events, k);
    ReplaysSuffix(stores, events, k);
    UserDashboard.TracksLog(list, stores[k..], events[k..]);
    assert stores[k..][|events[k..]|] == stores[|events|];
  }

  /** A stored id and the same id with its hexadecimal letters in upper case. */
  const StoredId: Id := "5f000000000000000000000a"
  const UpperId: Id := "5F000000000000000000000A"

  /** The upper-case spelling passes `isValid` and casts to the stored id, yet differs from it. */
  lemma UpperIdNamesStoredId()
    ensures IsStoredId(StoredId) && IsObjectId(UpperId)
    ensures Canonical(UpperId) == StoredId && UpperId != StoredId
  {
    StoredIdIsStored();
    UpperIdCasts();
    assert UpperId[1] == 'F' && StoredId[1] == 'f';
  }

  lemma StoredIdIsStored()
    ensures IsStoredId(StoredId)
  {
    assert forall i :: 0 <= i < |StoredId| ==> StoredId[i] in "05fa";
  }

  lemma UpperIdCasts()
    ensures Canonical(UpperId) == StoredId
  {
    assert forall i :: 0 <= i < 24 ==> LowerHex(UpperId[i]) == StoredId[i];
  }

  /**
   * As written, deleting a record through the upper-case spelling of its id
   * removes it from the store, but the broadcast id matches no entry: both
   * dashboards keep the row, so their lists no longer equal the store.
   */
  lemma RawRemovalKeepsRow(p: Patient, requested: Id)
    requires IsStoredId(p.id) && Canonical(requested) == p.id && requested != p.id
    ensures NurseDashboard.Apply([p], RemovePatient(requested)) == [p]
    ensures UserDashboard.Apply([p], RemovePatient(requested)) == [p]
    ensures ListsStore([p], map[p.id := p])
    ensures !ListsStore([p], map[p.id := p] - {Canonical(requested)})
  {
    assert [p][0].id !in map[p.id := p] - {p.id};
  }

  /** Broadcasting the deleted record's own id, as the model's handler does, drops the row. */
  lemma StoredRemovalDropsRow(p: Patient, requested: Id)
    requires IsStoredId(p.id) && Canonical(requested) == p.id
    ensures NurseDashboard.Apply([p], RemovePatient(Canonical(requested))) == []
    ensures UserDashboard.Apply([p], RemovePatient(Canonical(requested))) == []
  {
    assert multiset(NurseDashboard.Apply([p], RemovePatient(p.id)))[p] == 0;
    assert multiset(UserDashboard.Apply([p], RemovePatient(p.id)))[p] == 0;
  }
}
