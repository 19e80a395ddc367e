/**
 * The documents of the clinic queue (the `Patient` and `User` schemas), the
 * events broadcast on the live channel, and the relations between a
 * client-side list and the server's store that the dashboards rely on.
 */
module Records {
  import opened Wrappers
  import opened Lists

  /** A document id as a client sees it: a string. */
  type Id = string

  predicate IsHexDigit(c: char)
  {
    '0' <= c <= '9' || 'a' <= c <= 'f' || 'A' <= c <= 'F'
  }

  /**
   * `ObjectId.isValid` on a 24-character string: 24 hexadecimal digits, in
   * either case. Every id the driver generates passes it.
   */
  predicate IsObjectId(s: string)
    ensures IsStoredId(s) ==> IsObjectId(s)
    ensures IsObjectId(s) ==> |s| == 24
  {
    |s| == 24 && forall i :: 0 <= i < |s| ==> IsHexDigit(s[i])
  }

  predicate IsLowerHexDigit(c: char)
  {
    '0' <= c <= '9' || 'a' <= c <= 'f'
  }

  /** The form the driver generates and serializes ids in: 24 lower-case hexadecimal digits. */
  predicate IsStoredId(s: string)
  {
    |s| == 24 && forall i :: 0 <= i < |s| ==> IsLowerHexDigit(s[i])
  }

  /** One digit of the cast to an ObjectId: upper-case hexadecimal letters read as lower-case. */
  function LowerHex(c: char): (r: char)
    ensures IsHexDigit(c) <==> IsLowerHexDigit(r)
    ensures IsLowerHexDigit(c) ==> r == c
    ensures !IsHexDigit(c) ==> r == c
  {
    if 'A' <= c <= 'F' then (c as int + 32) as char else c
  }

  /**
   * The id a string casts to, written as the driver writes it: the lookup by
   * `findById` ignores the case of the hexadecimal digits.
   */
  function Canonical(s: string): (r: string)
    ensures |r| == |s| && forall i :: 0 <= i < |s| ==> r[i] == LowerHex(s[i])
    ensures IsObjectId(s) <==> IsStoredId(r)
    ensures IsStoredId(s) ==> r == s
  {
    seq(|s|, i requires 0 <= i < |s| => LowerHex(s[i]))
  }

  // Schema enumerations (PatientSchema, UserSchema).
  const Priorities: seq<string> := ["None", "PWD", "Pregnant", "Senior Citizen"]
  const Cubicles: seq<string> :=
    ["Cubicle 1", "Cubicle 2", "Cubicle 3", "Cubicle 4", "Cubicle 5", "MCC", "MENTAL", "MESRU", "DENTAL"]
  const Statuses: seq<string> := ["waiting", "in-progress", "done"]
  const Roles: seq<string> := ["admin", "user", "nurse"]

  /** The default status of a new patient. */
  const Waiting: string := Statuses[0]
  /** The status that takes a patient out of the active queue. */
  const Done: string := Statuses[2]

  /** A patient document; `createdAt` is a clock reading. */
  datatype Patient = Patient(id: Id, name: string, priority: string, cubicle: string,
                             status: string, createdAt: int)

  function PatientKey(p: Patient): Id
  {
    p.id
  }

  /** The body of `POST /api/patients`; "" stands for a missing field. */
  datatype AddRequest = AddRequest(name: string, priority: string, cubicle: string)

  /** What the schema's validators accept when a new patient is saved. */
  predicate SchemaAccepts(req: AddRequest)
    ensures SchemaAccepts(req) ==> req.name != "" && req.priority != "" && req.cubicle != ""
  {
    req.name != "" && req.priority in Priorities && req.cubicle in Cubicles
  }

  /** The handler's own guard: a falsy name, priority or cubicle. */
  predicate MissingField(req: AddRequest)
    ensures SchemaAccepts(req) ==> !MissingField(req)
    ensures !MissingField(req) ==> (SchemaAccepts(req) <==> req.priority in Priorities && req.cubicle in Cubicles)
  {
    req.name == "" || req.priority == "" || req.cubicle == ""
  }

  /**
   * The body of `PUT /api/patients/:id`. `None` is a key absent from the
   * body, which the update leaves untouched; a present value is written as
   * given, since the update runs no schema validators.
   */
  datatype PatientUpdate = PatientUpdate(name: Option<string>, priority: Option<string>,
                                         cubicle: Option<string>, status: Option<string>)

  function ApplyUpdate(p: Patient, u: PatientUpdate): (r: Patient)
    ensures r.id == p.id && r.createdAt == p.createdAt
    ensures r.name == (if u.name.Some? then u.name.value else p.name)
    ensures r.priority == (if u.priority.Some? then u.priority.value else p.priority)
    ensures r.cubicle == (if u.cubicle.Some? then u.cubicle.value else p.cubicle)
    ensures r.status == (if u.status.Some? then u.status.value else p.status)
  {
    p.(name := u.name.GetOr(p.name), priority := u.priority.GetOr(p.priority),
       cubicle := u.cubicle.GetOr(p.cubicle), status := u.status.GetOr(p.status))
  }

  /** A user document; `password` holds the hash. */
  datatype User = User(id: Id, username: string, password: string, role: string)

  /**
   * A user as it reaches a client: the whole document (`password` is the
   * hash) or the document with the password projected away (`None`).
   */
  datatype UserView = UserView(id: Id, username: string, role: string, password: Option<string>)

  function UserViewKey(u: UserView): Id
  {
    u.id
  }

  function FullView(u: User): UserView
  {
    UserView(u.id, u.username, u.role, Some(u.password))
  }

  /** The document with `-password` projected away: the full view less its password. */
  function PublicView(u: User): (r: UserView)
    ensures r != FullView(u)
    ensures r.(password := Some(u.password)) == FullView(u)
  {
    UserView(u.id, u.username, u.role, None)
  }

  /** The event kinds of the live channel. The server never emits `UserLoggedOut`. */
  datatype Event =
    | NewPatient(patient: Patient)
    | UpdatePatient(patient: Patient)
    | RemovePatient(patientId: Id)
    | UserLoggedIn(user: UserView)
    | UserAdded(user: UserView)
    | UserRemoved(userId: Id)
    | UsersUpdated(roster: seq<UserView>)
    | UserLoggedOut(userId: Id)

  /** Strictly descending `createdAt`: the order of `GET /api/patients` and `GET /api/queue`. */
  predicate NewestFirst(s: seq<Patient>)
  {
    forall i, j :: 0 <= i < j < |s| ==> s[i].createdAt > s[j].createdAt
  }

  /** `list` holds exactly the records of `store`, each once. */
  predicate ListsStore(list: seq<Patient>, store: map<Id, Patient>)
  {
    && (forall i :: 0 <= i < |list| ==> list[i].id in store && store[list[i].id] == list[i])
    && (forall id :: id in store ==> store[id] in list)
    && (forall i, j :: 0 <= i < j < |list| ==> list[i].id != list[j].id)
  }

  /** The ids of the records of a list. */
  function Ids(list: seq<Patient>): (r: set<Id>)
    ensures forall id :: id in r <==> exists i :: 0 <= i < |list| && list[i].id == id
  {
    if list == [] then {}
    else
      assert forall i :: 0 < i < |list| ==> list[i] == list[1..][i - 1];
      {list[0].id} + Ids(list[1..])
  }

  lemma {:induction false} IdsOfDistinct(list: seq<Patient>)
    requires forall i, j :: 0 <= i < j < |list| ==> list[i].id != list[j].id
    ensures |Ids(list)| == |list|
  {
    if list != [] {
      IdsOfDistinct(list[1..]);
      assert list[0].id !in Ids(list[1..]);
    }
  }

  /** Every record is stored under its own id. */
  predicate Keyed(store: map<Id, Patient>)
  {
    forall id :: id in store ==> store[id].id == id
  }

  /** A list that mirrors a store has one entry per record. */
  lemma ListsLength(list: seq<Patient>, store: map<Id, Patient>)
    requires Keyed(store) && ListsStore(list, store)
    ensures |list| == |store|
  {
    IdsOfDistinct(list);
    forall id | id in store ensures id in Ids(list) {
      var i :| 0 <= i < |list| && list[i] == store[id];
      assert list[i].id == id;
    }
    forall id | id in Ids(list) ensures id in store {
      var i :| 0 <= i < |list| && list[i].id == id;
    }
    assert Ids(list) == store.Keys;
    assert |store.Keys| == |store|;
  }

  /** The records of the active queue: every status except "done". */
  function ActiveRecords(store: map<Id, Patient>): (m: map<Id, Patient>)
    ensures forall id :: id in m <==> id in store && store[id].status != Done
    ensures forall id :: id in m ==> m[id] == store[id]
  {
    map id | id in store && store[id].status != Done :: store[id]
  }

  /** `roster` lists every user of `users` once, without its password. */
  predicate IsRoster(roster: seq<UserView>, users: map<Id, User>)
  {
    && (forall i :: 0 <= i < |roster| ==> roster[i].id in users && roster[i] == PublicView(users[roster[i].id]))
    && (forall id :: id in users ==> PublicView(users[id]) in roster)
    && (forall i, j :: 0 <= i < j < |roster| ==> roster[i].id != roster[j].id)
  }

  /**
   * How one server event relates the patient store before and after it:
   * what the handlers guarantee when they emit each patient event.
   */
  predicate PatientStep(store: map<Id, Patient>, e: Event, store': map<Id, Patient>)
  {
    match e
    case NewPatient(p) =>
      && p.id !in store
      && (forall id :: id in store ==> store[id].createdAt < p.createdAt)
      && store' == store[p.id := p]
    case UpdatePatient(p) =>
      && p.id in store
      && store[p.id].createdAt == p.createdAt
      && store' == store[p.id := p]
    case RemovePatient(id) =>
      && id in store
      && store' == store - {id}
    case _ => store' == store
  }

  /** Filtering keeps a newest-first list newest-first. */
  lemma FilterNewestFirst(s: seq<Patient>, keep: Patient -> bool)
    requires NewestFirst(s)
    ensures NewestFirst(Filter(s, keep))
  {
    FilterPairwise(s, keep, (p: Patient, q: Patient) => p.createdAt > q.createdAt);
  }

  /** Appending a record the store did not hold keeps the list mirroring the grown store. */
  lemma AppendListsStore(list: seq<Patient>, store: map<Id, Patient>, p: Patient)
    requires ListsStore(list, store) && p.id !in store
    ensures ListsStore(list + [p], store[p.id := p])
  {
    assert forall i :: 0 <= i < |list| ==> list[i].id != p.id;
    assert forall i :: 0 <= i < |list| ==> (list + [p])[i] == list[i];
  }

  /** Prepending a record the store did not hold keeps the list mirroring the grown store. */
  lemma PrependListsStore(list: seq<Patient>, store: map<Id, Patient>, p: Patient)
    requires ListsStore(list, store) && p.id !in store
    ensures ListsStore([p] + list, store[p.id := p])
  {
    assert forall i :: 0 <= i < |list| ==> list[i].id != p.id;
    assert forall i :: 0 < i <= |list| ==> ([p] + list)[i] == list[i - 1];
  }

  /** Replacing the entry of a stored record keeps the list mirroring the updated store. */
  lemma ReplaceListsStore(list: seq<Patient>, store: map<Id, Patient>, p: Patient)
    requires Keyed(store) && ListsStore(list, store) && p.id in store
    ensures ListsStore(ReplaceKey(list, PatientKey, p), store[p.id := p])
  {
    var r := ReplaceKey(list, PatientKey, p);
    assert forall i :: 0 <= i < |list| ==> PatientKey(list[i]) == list[i].id;
    ReplacedRecords(list, store, p, r, store[p.id := p]);
    ReplacedCovers(list, store, p, r, store[p.id := p]);
  }

  /** Each entry of the replaced list is the updated store's record, each id once. */
  lemma ReplacedRecords(list: seq<Patient>, store: map<Id, Patient>, p: Patient, r: seq<Patient>,
                       store': map<Id, Patient>)
    requires ListsStore(list, store) && p.id in store && store' == store[p.id := p]
    requires |r| == |list| && forall i :: 0 <= i < |list| ==> r[i] == if list[i].id == p.id then p else list[i]
    ensures forall i :: 0 <= i < |r| ==> r[i].id in store' && store'[r[i].id] == r[i]
    ensures forall i, j :: 0 <= i < j < |r| ==> r[i].id != r[j].id
  {
    assert forall i :: 0 <= i < |list| ==> r[i].id == list[i].id;
  }

  /** Every record of the updated store is in the replaced list. */
  lemma ReplacedCovers(list: seq<Patient>, store: map<Id, Patient>, p: Patient, r: seq<Patient>,
                       store': map<Id, Patient>)
    requires Keyed(store) && ListsStore(list, store) && p.id in store && store' == store[p.id := p]
    requires |r| == |list| && forall i :: 0 <= i < |list| ==> r[i] == if list[i].id == p.id then p else list[i]
    ensures forall id :: id in store' ==> store'[id] in r
  {
    forall id | id in store' ensures store'[id] in r {
      var j :| 0 <= j < |list| && list[j] == store[id];
      assert r[j] == store'[id];
    }
  }

  /** Dropping an id keeps the list mirroring the store without it, each record once. */
  lemma RemoveListsStore(list: seq<Patient>, store: map<Id, Patient>, id: Id)
    requires Keyed(store) && ListsStore(list, store)
    ensures ListsStore(RemoveKey(list, PatientKey, id), store - {id})
  {
    var r := RemoveKey(list, PatientKey, id);
    assert forall i, j :: 0 <= i < j < |r| ==> r[i].id != r[j].id by {
      RemoveKeyPairwise(list, PatientKey, id, (p: Patient, q: Patient) => p.id != q.id);
    }
    assert forall i :: 0 <= i < |r| ==> r[i].id in store - {id} && store[r[i].id] == r[i] by {
      forall i | 0 <= i < |r| ensures r[i].id in store - {id} && store[r[i].id] == r[i] {
        assert r[i] in r;
      }
    }
    assert forall k :: k in store - {id} ==> store[k] in r by {
      forall k | k in store - {id} ensures store[k] in r {
        assert store[k] in list && store[k].id == k;
      }
    }
  }

  /**
   * `stores` is the run of patient stores that `events` steps through:
   * `stores[i + 1]` follows from `stores[i]` by `events[i]`.
   */
  ghost predicate Replays(stores: seq<map<Id, Patient>>, events: seq<Event>)
  {
    && |stores| == |events| + 1
    && forall i :: 0 <= i < |events| ==> PatientStep(stores[i], events[i], stores[i + 1])
  }

  /** Every patient event keeps the store keyed by id. */
  lemma StepKeyed(store: map<Id, Patient>, e: Event, store': map<Id, Patient>)
    requires Keyed(store) && PatientStep(store, e, store')
    ensures Keyed(store')
  {
  }

  /** A run extended by one step it takes from its last store is still a run. */
  lemma ReplaysSnoc(stores: seq<map<Id, Patient>>, events: seq<Event>, e: Event, store': map<Id, Patient>)
    requires Replays(stores, events) && PatientStep(stores[|events|], e, store')
    ensures Replays(stores + [store'], events + [e])
  {
    var s, es := stores + [store'], events + [e];
    forall i | 0 <= i < |es| ensures PatientStep(s[i], es[i], s[i + 1]) {
      if i < |events| {
        assert s[i] == stores[i] && s[i + 1] == stores[i + 1] && es[i] == events[i];
      } else {
        assert s[i] == stores[|events|] && s[i + 1] == store' && es[i] == e;
      }
    }
  }

  /** An event that does not step from the last store ends the replay. */
  lemma ReplaysBreak(stores: seq<map<Id, Patient>>, events: seq<Event>, e: Event, store': map<Id, Patient>)
    requires |stores| == |events| + 1 && !PatientStep(stores[|events|], e, store')
    ensures !Replays(stores + [store'], events + [e])
  {
    var n := |events|;
    assert (events + [e])[n] == e && (stores + [store'])[n] == stores[n] && (stores + [store'])[n + 1] == store';
  }

  /** Any suffix of a run is a run. */
  lemma ReplaysSuffix(stores: seq<map<Id, Patient>>, events: seq<Event>, k: int)
    requires Replays(stores, events) && 0 <= k <= |events|
    ensures Replays(stores[k..], events[k..])
  {
    var s, es := stores[k..], events[k..];
    forall i | 0 <= i < |es| ensures PatientStep(s[i], es[i], s[i + 1]) {
      assert s[i] == stores[k + i] && s[i + 1] == stores[k + i + 1] && es[i] == events[k + i];
    }
  }

  /** Every store of a run that starts keyed by id is keyed by id. */
  lemma {:induction false} ReplaysKeyed(stores: seq<map<Id, Patient>>, events: seq<Event>, k: int)
    requires Replays(stores, events) && Keyed(stores[0]) && 0 <= k <= |events|
    ensures Keyed(stores[k])
    decreases k
  {
    if k > 0 {
      ReplaysKeyed(stores, events, k - 1);
      StepKeyed(stores[k - 1], events[k - 1], stores[k]);
    }
  }

  /** The usernames of a user store. */
  function Usernames(users: map<Id, User>): set<string>
  {
    set id | id in users :: users[id].username
  }

  /** The usernames of a roster are exactly the usernames of the store. */
  lemma RosterUsernames(roster: seq<UserView>, users: map<Id, User>)
    requires IsRoster(roster, users)
    ensures (set i | 0 <= i < |roster| :: roster[i].username) == Usernames(users)
  {
    var l, r := set i | 0 <= i < |roster| :: roster[i].username, Usernames(users);
    forall n | n in l ensures n in r {
      var i :| 0 <= i < |roster| && roster[i].username == n;
      assert users[roster[i].id].username == n;
    }
    forall n | n in r ensures n in l {
      var id :| id in users && users[id].username == n;
      var i :| 0 <= i < |roster| && roster[i] == PublicView(users[id]);
      assert roster[i].username == n;
    }
  }
}
