/**
 * The backend: the patient and user collections, the clock that stamps
 * `createdAt`, and the log of events broadcast to every connected client.
 * Each handler validates, changes the store, and only then emits; a handler
 * that fails leaves the store and the log as they were.
 */
module Server {
  import opened Wrappers
  import opened Records

  // HTTP status codes the handlers answer with.
  const Ok: int := 200
  const Created: int := 201
  const BadRequest: int := 400
  const Unauthorized: int := 401
  const NotFound: int := 404
  const ServerError: int := 500

  /** A signed session token; its payload is the user's id and role. */
  datatype Token = Token(userId: Id, role: string)

  /** The body of a successful login. */
  datatype Session = Session(token: Token, user: UserView)

  /** Places `p` in a newest-first list (one step of the `createdAt: -1` sort). */
  function InsertNewestFirst(s: seq<Patient>, p: Patient): (r: seq<Patient>)
    ensures |r| == |s| + 1
    ensures forall q :: q in r <==> q in s || q == p
    ensures NewestFirst(s) && (forall q :: q in s ==> q.createdAt != p.createdAt) ==> NewestFirst(r)
  {
    if s == [] then [p]
    else if p.createdAt > s[0].createdAt then [p] + s
    else
      NewestFirstTail(s);
      [s[0]] + InsertNewestFirst(s[1..], p)
  }

  /** The head of a newest-first list is newer than everything after it. */
  lemma NewestFirstTail(s: seq<Patient>)
    requires s != []
    ensures NewestFirst(s) ==> NewestFirst(s[1..]) && forall q :: q in s[1..] ==> q.createdAt < s[0].createdAt
  {
    if NewestFirst(s) {
      forall q | q in s[1..] ensures q.createdAt < s[0].createdAt {
        var k :| 0 <= k < |s[1..]| && s[1..][k] == q;
        assert s[k + 1] == q;
      }
    }
  }

  class Clinic {
    var patients: map<Id, Patient>
    var users: map<Id, User>
    /** The next `createdAt` reading. */
    var clock: int
    /** Every event broadcast so far, in emission order. */
    var events: seq<Event>
    /** The patient store before the first broadcast and after each one. */
    ghost var history: seq<map<Id, Patient>>
    /** The password-hash comparison of the hashing library. */
    const passwordMatches: (string, string) -> bool

    ghost predicate Valid()
      reads this
    {
      && (forall id :: id in patients ==> patients[id].id == id && IsStoredId(id) && patients[id].createdAt < clock)
      && (forall a, b :: a in patients && b in patients && a != b ==> patients[a].createdAt != patients[b].createdAt)
      && (forall id :: id in users ==> users[id].id == id && IsStoredId(id))
      && (forall a, b :: a in users && b in users && a != b ==> users[a].username != users[b].username)
      && Replays(history, events) && history[0] == map[] && history[|events|] == patients
    }

    constructor (passwordMatches: (string, string) -> bool, start: int)
      ensures Valid()
      ensures patients == map[] && users == map[] && clock == start && events == [] && history == [map[]]
      ensures this.passwordMatches == passwordMatches
    {
      patients, users, clock, events := map[], map[], start, [];
      history := [map[]];
      this.passwordMatches := passwordMatches;
    }

    /** `User.findOne({ username })` finds a document. */
    predicate UsernameTaken(username: string)
      reads this
      ensures UsernameTaken(username) <==> username in Usernames(users)
    {
      exists id :: id in users && users[id].username == username
    }

    /** `io.emit` of an event that leaves the patient store as it is. */
    method Broadcast(e: Event)
      requires Valid() && PatientStep(patients, e, patients)
      modifies this
      ensures Valid()
      ensures patients == old(patients) && users == old(users) && clock == old(clock)
      ensures events == old(events) + [e] && history == old(history) + [patients]
    {
      ReplaysSnoc(history, events, e, patients);
      events, history := events + [e], history + [patients];
    }

    /** `POST /api/patients`; `newId` is the id the driver assigns to the new document. */
    method AddPatient(req: AddRequest, newId: Id) returns (code: int, created: Option<Patient>)
      requires Valid() && IsStoredId(newId)
      modifies this
      ensures Valid()
      ensures users == old(users)
      ensures code == BadRequest <==> MissingField(req)
      ensures code == ServerError <==> !MissingField(req) && (!SchemaAccepts(req) || newId in old(patients))
      ensures code == Created <==> SchemaAccepts(req) && newId !in old(patients)
      ensures code == Created ==>
        var p := Patient(newId, req.name, req.priority, req.cubicle, Waiting, old(clock));
        && created == Some(p) && p.status in Statuses
        && patients == old(patients)[newId := p]
        && (forall id :: id in old(patients) ==> old(patients)[id].createdAt < p.createdAt)
        && clock == old(clock) + 1
        && events == old(events) + [NewPatient(p)]
        && history == old(history) + [patients]
        && PatientStep(old(patients), NewPatient(p), patients)
      ensures code != Created ==>
        && created == None && patients == old(patients) && clock == old(clock)
        && events == old(events) && history == old(history)
    {
      if MissingField(req) {
        return BadRequest, None;
      }
      if !SchemaAccepts(req) || newId in patients {
        return ServerError, None;
      }
      var p := Patient(newId, req.name, req.priority, req.cubicle, Waiting, clock);
      ReplaysSnoc(history, events, NewPatient(p), patients[newId := p]);
      patients := patients[newId := p];
      clock := clock + 1;
      events := events + [NewPatient(p)];
      history := history + [patients];
      return Created, Some(p);
    }

    /**
     * `PUT /api/patients/:id`: writes the given fields, whatever their values.
     * The id is cast to an ObjectId, so a malformed one fails with 500 and the
     * case of its hexadecimal digits does not matter.
     */
    method UpdatePatient(id: Id, u: PatientUpdate) returns (code: int, updated: Option<Patient>)
      requires Valid()
      modifies this
      ensures Valid()
      ensures users == old(users) && clock == old(clock)
      ensures code == ServerError <==> !IsObjectId(id)
      ensures code == NotFound <==> IsObjectId(id) && Canonical(id) !in old(patients)
      ensures code == Ok <==> IsObjectId(id) && Canonical(id) in old(patients)
      ensures code == Ok ==>
        var p := ApplyUpdate(old(patients)[Canonical(id)], u);
        && updated == Some(p) && p.id == Canonical(id)
        && patients == old(patients)[p.id := p]
        && events == old(events) + [Event.UpdatePatient(p)]
        && history == old(history) + [patients]
        && PatientStep(old(patients), Event.UpdatePatient(p), patients)
      ensures code != Ok ==>
        updated == None && patients == old(patients) && events == old(events) && history == old(history)
    {
      if !IsObjectId(id) {
        return ServerError, None;
      }
      var key := Canonical(id);
      if key !in patients {
        return NotFound, None;
      }
      var p := ApplyUpdate(patients[key], u);
      ReplaysSnoc(history, events, Event.UpdatePatient(p), patients[key := p]);
      patients := patients[key := p];
      events := events + [Event.UpdatePatient(p)];
      history := history + [patients];
      return Ok, Some(p);
    }

    /**
     * `DELETE /api/patients/:id`: a malformed id is refused before any lookup.
     * The broadcast carries the id of the record that was deleted.
     */
    method DeletePatient(id: Id) returns (code: int)
      requires Valid()
      modifies this
      ensures Valid()
      ensures users == old(users) && clock == old(clock)
      ensures code == BadRequest <==> !IsObjectId(id)
      ensures code == NotFound <==> IsObjectId(id) && Canonical(id) !in old(patients)
      ensures code == Ok <==> IsObjectId(id) && Canonical(id) in old(patients)
      ensures code == Ok ==>
        && patients == old(patients) - {Canonical(id)}
        && events == old(events) + [RemovePatient(Canonical(id))]
        && history == old(history) + [patients]
        && PatientStep(old(patients), RemovePatient(Canonical(id)), patients)
      ensures code != Ok ==> patients == old(patients) && events == old(events) && history == old(history)
    {
      if !IsObjectId(id) {
        return BadRequest;
      }
      var key := Canonical(id);
      if key !in patients {
        return NotFound;
      }
      ReplaysSnoc(history, events, RemovePatient(key), patients - {key});
      patients := patients - {key};
      events := events + [RemovePatient(key)];
      history := history + [patients];
      return Ok;
    }

    /**
     * `DELETE /api/patients/:id` as the handler is written: the broadcast
     * carries the id from the URL as typed, which differs from the deleted
     * record's id when the URL spells its digits in upper case.
     */
    method DeletePatientAsWritten(id: Id) returns (code: int)
      requires Valid()
      modifies this
      ensures IsStoredId(id) ==> Valid()
      ensures users == old(users) && clock == old(clock)
      ensures code == BadRequest <==> !IsObjectId(id)
      ensures code == NotFound <==> IsObjectId(id) && Canonical(id) !in old(patients)
      ensures code == Ok <==> IsObjectId(id) && Canonical(id) in old(patients)
      ensures code == Ok ==>
        && patients == old(patients) - {Canonical(id)}
        && events == old(events) + [RemovePatient(id)]
        && history == old(history) + [patients]
      ensures code == Ok && id != Canonical(id) ==> !Replays(history, events)
      ensures code != Ok ==> patients == old(patients) && events == old(events) && history == old(history)
    {
      if !IsObjectId(id) {
        return BadRequest;
      }
      var key := Canonical(id);
      if key !in patients {
        return NotFound;
      }
      if IsStoredId(id) {
        ReplaysSnoc(history, events, RemovePatient(id), patients - {key});
      } else {
        assert id !in patients;
        ReplaysBreak(history, events, RemovePatient(id), patients - {key});
      }
      patients := patients - {key};
      events := events + [RemovePatient(id)];
      history := history + [patients];
      return Ok;
    }

    /** `GET /api/patients`: every record, newest first. */
    method GetPatients() returns (list: seq<Patient>)
      requires Valid()
      ensures ListsStore(list, patients)
      ensures NewestFirst(list)
    {
      list := [];
      var rest := patients.Keys;
      while rest != {}
        invariant rest <= patients.Keys
        invariant forall i :: 0 <= i < |list| ==> list[i].id in patients.Keys - rest && patients[list[i].id] == list[i]
        invariant forall id :: id in patients.Keys - rest ==> patients[id] in list
        invariant NewestFirst(list)
        decreases rest
      {
        var id :| id in rest;
        var p := patients[id];
        forall q | q in list ensures q.createdAt != p.createdAt {
          var i :| 0 <= i < |list| && list[i] == q;
          assert q.id != id;
        }
        var next := InsertNewestFirst(list, p);
        forall i | 0 <= i < |next| ensures next[i].id in patients.Keys - (rest - {id}) && patients[next[i].id] == next[i] {
          assert next[i] in next;
        }
        list, rest := next, rest - {id};
      }
      NewestFirstIds(list);
    }

    /** `GET /api/queue`: the records whose status is not "done", newest first. */
    method GetQueue() returns (queue: seq<Patient>)
      requires Valid()
      ensures ListsStore(queue, ActiveRecords(patients))
      ensures NewestFirst(queue)
    {
      var all := GetPatients();
      var active := ActiveRecords(patients);
      queue := Lists.Filter(all, (p: Patient) => p.status != Done);
      FilterNewestFirst(all, (p: Patient) => p.status != Done);
      forall i | 0 <= i < |queue| ensures queue[i].id in active && active[queue[i].id] == queue[i] {
        assert queue[i] in all;
      }
      forall id | id in active ensures active[id] in queue {
        assert patients[id] in all;
      }
      forall i, j | 0 <= i < j < |queue| ensures queue[i].id != queue[j].id {
        assert queue[i].createdAt > queue[j].createdAt;
      }
    }

    /** `GET /api/users` and the roster of `usersUpdated`: every user, password left out. */
    method GetUsers() returns (roster: seq<UserView>)
      requires Valid()
      ensures IsRoster(roster, users)
    {
      roster := [];
      var rest := users.Keys;
      while rest != {}
        invariant rest <= users.Keys
        invariant forall i :: 0 <= i < |roster| ==> roster[i].id in users.Keys - rest && roster[i] == PublicView(users[roster[i].id])
        invariant forall id :: id in users.Keys - rest ==> PublicView(users[id]) in roster
        invariant forall i, j :: 0 <= i < j < |roster| ==> roster[i].id != roster[j].id
        decreases rest
      {
        var id :| id in rest;
        roster := roster + [PublicView(users[id])];
        rest := rest - {id};
      }
    }

    /**
     * `POST /api/register`; `hashed` is the hashing library's digest of
     * `password` and `newId` the id the driver assigns.
     */
    method Register(username: string, password: string, role: string, hashed: string, newId: Id)
      returns (code: int, created: Option<UserView>)
      requires Valid() && IsStoredId(newId)
      modifies this
      ensures Valid()
      ensures patients == old(patients) && clock == old(clock)
      ensures code == BadRequest <==> username == "" || password == "" || role == "" || old(UsernameTaken(username))
      ensures code == ServerError <==>
        username != "" && password != "" && role != "" && !old(UsernameTaken(username)) &&
        (role !in Roles || newId in old(users))
      ensures code == Created <==>
        username != "" && password != "" && role != "" && !old(UsernameTaken(username)) &&
        role in Roles && newId !in old(users)
      ensures code == Created ==>
        var u := User(newId, username, hashed, role);
        && created == Some(FullView(u))
        && users == old(users)[newId := u]
        && |events| == |old(events)| + 2
        && events[..|old(events)|] == old(events)
        && events[|old(events)|] == UserAdded(FullView(u))
        && events[|old(events)| + 1].UsersUpdated?
        && IsRoster(events[|old(events)| + 1].roster, users)
        && history == old(history) + [patients, patients]
      ensures code != Created ==>
        created == None && users == old(users) && events == old(events) && history == old(history)
    {
      if username == "" || password == "" || role == "" {
        return BadRequest, None;
      }
      if UsernameTaken(username) {
        return BadRequest, None;
      }
      if role !in Roles || newId in users {
        return ServerError, None;
      }
      var u := User(newId, username, hashed, role);
      ghost var e0, h0 := events, history;
      users := users[newId := u];
      Broadcast(UserAdded(FullView(u)));
      var snapshot := GetUsers();
      Broadcast(UsersUpdated(snapshot));
      SnocTwice(e0, UserAdded(FullView(u)), UsersUpdated(snapshot));
      SnocTwice(h0, patients, patients);
      return Created, Some(FullView(u));
    }

    /**
     * `DELETE /api/users/:id`: no check of the username, the default admin
     * included. The lookup ignores the case of the digits; `userRemoved`
     * carries the id as typed.
     */
    method DeleteUser(id: Id) returns (code: int)
      requires Valid()
      modifies this
      ensures Valid()
      ensures patients == old(patients) && clock == old(clock)
      ensures code == BadRequest <==> !IsObjectId(id)
      ensures code == NotFound <==> IsObjectId(id) && Canonical(id) !in old(users)
      ensures code == Ok <==> IsObjectId(id) && Canonical(id) in old(users)
      ensures code == Ok ==>
        && users == old(users) - {Canonical(id)}
        && |events| == |old(events)| + 2
        && events[..|old(events)|] == old(events)
        && events[|old(events)|] == UserRemoved(id)
        && events[|old(events)| + 1].UsersUpdated?
        && IsRoster(events[|old(events)| + 1].roster, users)
        && history == old(history) + [patients, patients]
      ensures code != Ok ==> users == old(users) && events == old(events) && history == old(history)
    {
      if !IsObjectId(id) {
        return BadRequest;
      }
      var key := Canonical(id);
      if key !in users {
        return NotFound;
      }
      ghost var e0, h0 := events, history;
      users := users - {key};
      Broadcast(UserRemoved(id));
      var snapshot := GetUsers();
      Broadcast(UsersUpdated(snapshot));
      SnocTwice(e0, UserRemoved(id), UsersUpdated(snapshot));
      SnocTwice(h0, patients, patients);
      return Ok;
    }

    /** `POST /api/login`: a token and the user's public fields, then a `userLoggedIn` broadcast. */
    method Login(username: string, password: string) returns (code: int, session: Option<Session>)
      requires Valid()
      modifies this
      ensures Valid()
      ensures patients == old(patients) && users == old(users) && clock == old(clock)
      ensures code == BadRequest <==> username == "" || password == ""
      ensures code == Ok <==>
        username != "" && password != "" &&
        exists id :: id in users && users[id].username == username && passwordMatches(password, users[id].password)
      ensures code == Unauthorized <==> code != BadRequest && code != Ok
      ensures code == Ok ==>
        exists id :: id in users && users[id].username == username &&
          session == Some(Session(Token(id, users[id].role), PublicView(users[id]))) &&
          events == old(events) + [UserLoggedIn(PublicView(users[id]))]
      ensures code == Ok ==> history == old(history) + [patients]
      ensures code != Ok ==> session == None && events == old(events) && history == old(history)
    {
      if username == "" || password == "" {
        return BadRequest, None;
      }
      if !UsernameTaken(username) {
        return Unauthorized, None;
      }
      var id :| id in users && users[id].username == username;
      var u := users[id];
      if !passwordMatches(password, u.password) {
        return Unauthorized, None;
      }
      Broadcast(UserLoggedIn(PublicView(u)));
      return Ok, Some(Session(Token(id, u.role), PublicView(u)));
    }
  }

  /** Deleting the same id twice: the second call finds nothing, and `removePatient` fires once. */
  method DeleteTwice(clinic: Clinic, id: Id) returns (first: int, second: int)
    requires clinic.Valid()
    modifies clinic
    ensures clinic.Valid()
    ensures first == Ok ==> second == NotFound && clinic.events == old(clinic.events) + [RemovePatient(Canonical(id))]
    ensures first != Ok ==> second == first && clinic.events == old(clinic.events)
    ensures Canonical(id) !in clinic.patients
  {
    first := clinic.DeletePatient(id);
    second := clinic.DeletePatient(id);
  }

  /**
   * A patient added to an empty queue is its one waiting entry; once its
   * status is set to "done" the queue is empty again.
   */
  method DoneLeavesQueue(clinic: Clinic, id: Id) returns (before: seq<Patient>, after: seq<Patient>)
    requires clinic.Valid() && clinic.patients == map[] && IsStoredId(id)
    modifies clinic
    ensures |before| == 1 && before[0].name == "Juan Dela Cruz" && before[0].cubicle == "Cubicle 1"
    ensures before[0].status == Waiting
    ensures after == []
  {
    var req := AddRequest("Juan Dela Cruz", "Senior Citizen", "Cubicle 1");
    assert SchemaAccepts(req) by {
      assert Priorities[3] == req.priority && Cubicles[0] == req.cubicle;
    }
    var code, created := clinic.AddPatient(req, id);
    var p := created.value;
    assert p.name == req.name && p.cubicle == req.cubicle && p.status == Waiting;
    var store := clinic.patients;
    assert store == map[id := p];
    assert ActiveRecords(store) == store;
    before := clinic.GetQueue();
    ListsSingle(before, p);
    var u := PatientUpdate(None, None, None, Some(Done));
    assert Canonical(id) == id && IsObjectId(id);
    var code', updated := clinic.UpdatePatient(id, u);
    assert code' == Ok;
    assert clinic.patients == store[id := ApplyUpdate(p, u)];
    assert ApplyUpdate(p, u).status == Done;
    DoneIsInactive(clinic.patients);
    after := clinic.GetQueue();
    ListsEmpty(after, ActiveRecords(clinic.patients));
  }

  lemma SnocTwice<T>(s: seq<T>, a: T, b: T)
    ensures s + [a] + [b] == s + [a, b]
  {
  }

  /** A list mirroring a one-record store is that record. */
  lemma ListsSingle(list: seq<Patient>, p: Patient)
    requires ListsStore(list, map[p.id := p])
    ensures list == [p]
  {
    ListsLength(list, map[p.id := p]);
    assert list[0].id == p.id;
  }

  /** A store whose records are all done has no active records. */
  lemma DoneIsInactive(store: map<Id, Patient>)
    requires forall k :: k in store ==> store[k].status == Done
    ensures forall k :: k !in ActiveRecords(store)
  {
  }

  /** A list mirroring the empty store is empty. */
  lemma ListsEmpty(list: seq<Patient>, store: map<Id, Patient>)
    requires ListsStore(list, store) && forall id :: id !in store
    ensures list == []
  {
    assert store == map[];
    ListsLength(list, store);
  }

  /** In a strictly newest-first list no record appears twice. */
  lemma NewestFirstIds(list: seq<Patient>)
    requires NewestFirst(list)
    ensures forall i, j :: 0 <= i < j < |list| ==> list[i] != list[j]
  {
  }
}
