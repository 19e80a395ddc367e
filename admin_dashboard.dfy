/**
 * The admin dashboard: the user roster kept current by the live channel
 * (appends, removals by id and wholesale snapshots), and the client-side
 * guard that refuses to remove the default administrator.
 */
module AdminDashboard {
  import opened Wrappers
  import opened Lists
  import opened Records

  /** The username of the administrator seeded at start-up. */
  const DefaultAdmin: string := "RHU PANGANTUCAN"

  /** The dashboard's reaction to one event; `usersUpdated` replaces the list wholesale. */
  function Apply(list: seq<UserView>, e: Event): (r: seq<UserView>)
    ensures e.UsersUpdated? ==> r == e.roster
    ensures e.UserAdded? ==> |r| == |list| + 1 && r[|list|] == e.user
    ensures e.UserRemoved? || e.UserLoggedOut? ==> forall u :: u in r <==> u in list && u.id != e.userId
    ensures !(e.UsersUpdated? || e.UserAdded? || e.UserRemoved? || e.UserLoggedOut?) ==> r == list
  {
    match e
    case UserAdded(u) => Append(list, u)
    case UserRemoved(id) => RemoveKey(list, UserViewKey, id)
    case UsersUpdated(roster) => roster
    case UserLoggedOut(id) => RemoveKey(list, UserViewKey, id)
    case _ => list
  }

  function ApplyAll(list: seq<UserView>, events: seq<Event>): seq<UserView>
    decreases |events|
  {
    if events == [] then list else ApplyAll(Apply(list, events[0]), events[1..])
  }

  /** After a snapshot the list is that snapshot, whatever it held before. */
  lemma SnapshotWins(a: seq<UserView>, b: seq<UserView>, roster: seq<UserView>)
    ensures Apply(a, UsersUpdated(roster)) == Apply(b, UsersUpdated(roster)) == roster
  {
  }

  lemma {:induction false} ApplyAllConcat(list: seq<UserView>, xs: seq<Event>, ys: seq<Event>)
    ensures ApplyAll(list, xs + ys) == ApplyAll(ApplyAll(list, xs), ys)
    decreases |xs|
  {
    if xs == [] {
      assert xs + ys == ys;
    } else {
      assert (xs + ys)[0] == xs[0] && (xs + ys)[1..] == xs[1..] + ys;
      ApplyAllConcat(Apply(list, xs[0]), xs[1..], ys);
    }
  }

  /** Whatever came before, a log ending in a snapshot leaves the list equal to it. */
  lemma LastSnapshotWins(list: seq<UserView>, events: seq<Event>, roster: seq<UserView>)
    ensures ApplyAll(list, events + [UsersUpdated(roster)]) == roster
  {
    ApplyAllConcat(list, events, [UsersUpdated(roster)]);
  }

  /**
   * Registration broadcasts `userAdded` and then the roster snapshot: once
   * both arrive the list is the server's roster, whatever it held before.
   */
  lemma ConvergesAfterRegister(list: seq<UserView>, added: UserView, snapshot: seq<UserView>,
                               users: map<Id, User>)
    requires IsRoster(snapshot, users)
    ensures IsRoster(ApplyAll(list, [UserAdded(added), UsersUpdated(snapshot)]), users)
  {
    LastSnapshotWins(list, [UserAdded(added)], snapshot);
    assert [UserAdded(added)] + [UsersUpdated(snapshot)] == [UserAdded(added), UsersUpdated(snapshot)];
  }

  /** Removal broadcasts `userRemoved` and then the roster snapshot, with the same outcome. */
  lemma ConvergesAfterDelete(list: seq<UserView>, id: Id, snapshot: seq<UserView>, users: map<Id, User>)
    requires IsRoster(snapshot, users)
    ensures IsRoster(ApplyAll(list, [UserRemoved(id), UsersUpdated(snapshot)]), users)
  {
    LastSnapshotWins(list, [UserRemoved(id)], snapshot);
    assert [UserRemoved(id)] + [UsersUpdated(snapshot)] == [UserRemoved(id), UsersUpdated(snapshot)];
  }

  /**
   * Between the two broadcasts the list can hold the new user twice: when it
   * was fetched after the save, `userAdded` appends a second entry with the id.
   */
  lemma DuplicateAfterAdd(list: seq<UserView>, u: User)
    requires PublicView(u) in list
    ensures var r := Append(list, FullView(u));
            exists i, j :: 0 <= i < j < |r| && r[i].id == r[j].id
  {
    var r := Append(list, FullView(u));
    var i :| 0 <= i < |list| && list[i] == PublicView(u);
    assert r[i].id == r[|list|].id;
  }

  /** The `userAdded` entry carries the password hash, which a roster entry never does. */
  lemma AddedEntryShowsHash(roster: seq<UserView>, u: User, users: map<Id, User>)
    requires IsRoster(roster, users)
    ensures FullView(u) !in roster
  {
  }

  /**
   * `handleRemove`: the request the click sends, if any. The default
   * administrator is refused before the confirmation prompt; otherwise the
   * request goes out once the prompt is confirmed. The list itself is not
   * touched: it changes only when the server's broadcasts arrive.
   */
  function RemoveRequest(userId: Id, username: string, confirmed: bool): (r: Option<Id>)
    ensures r.Some? <==> username != DefaultAdmin && confirmed
    ensures r.Some? ==> r.value == userId
  {
    if username == DefaultAdmin then None
    else if confirmed then Some(userId)
    else None
  }

  /**
   * Clicking remove on the default administrator's entry sends no request,
   * confirmed or not, so no `userRemoved` for it can follow.
   */
  lemma DefaultAdminKept(u: UserView, confirmed: bool)
    requires u.username == DefaultAdmin
    ensures RemoveRequest(u.id, u.username, confirmed) == None
  {
  }
}
