/** What a client can count on when it chains requests, proved from the
    handlers' contracts alone. */
module Scenarios {
  import opened Tables
  import opened App

  /** Deleting every link of a routine that was created after `before`
      gives back exactly `before`, provided no link in `before` belonged to
      that routine. */
  lemma DeleteUndoesLinks(before: map<int, Link>, after: map<int, Link>, rid: int)
    requires Extends(before, after)
    requires forall l :: l in after && l !in before ==> after[l].routine == rid
    requires forall l :: l in before ==> before[l].routine != rid
    ensures WithoutRoutine(after, rid) == before
  {
    var dropped := WithoutRoutine(after, rid);
    forall l | l in dropped ensures l in before {
      assert after[l].routine != rid;
    }
    forall l | l in before ensures l in dropped && dropped[l] == before[l] {
      assert after[l] == before[l];
    }
    assert dropped.Keys == before.Keys;
  }

  /** Someone who has just registered can log in with the same name and
      password, and the login names the account the registration made. */
  method RegisterThenLogin(store: Store, username: string, password: string, salt: string)
    returns (registered: Option<int>, loggedIn: Option<int>)
    requires store.Valid()
    requires username != "" && password != ""
    requires UserNamed(store.users, username).None?
    modifies store
    ensures store.Valid()
    ensures registered.Some? && loggedIn == registered
  {
    var r: Response;
    r, registered := store.Register(Some(username), Some(password), Some(password), salt, None);
    var answer: Response;
    answer, loggedIn := store.Login(Some(username), Some(password));
    assert store.users[registered.value] == User(username, Hash(password, salt));
    assert loggedIn.Some?;
    assert UniqueUsernames(store.users);
  }

  /** A new routine is visible to its owner and to no one else. The routine
      table has room below SQLite's largest row id, so the new id can be
      bound in a query. */
  method NewRoutineIsPrivate(store: Store, owner: int, other: int, title: string, names: seq<string>, descriptions: seq<string>)
    returns (mine: Response, theirs: Response)
    requires store.Valid() && other != owner
    requires SqliteInt(NewRowId(store.routines.Keys))
    modifies store
    ensures store.Valid()
    ensures mine == Render("plan.html")
    ensures theirs == Apology(Denied, 403)
  {
    var r := store.CreateRoutine(owner, Some(title), names, descriptions);
    var rid := r.location.id;
    mine := store.ShowPlan(Some(rid), owner);
    theirs := store.ShowPlan(Some(rid), other);
  }

  /** Creating a routine and then deleting it as its owner gives back the
      routine and link tables as they were; the old subjects are kept, and
      every subject named in the form's pairs still exists afterwards, since
      subjects are shared. As above, the new id can be bound in a query. */
  method CreateThenDelete(store: Store, owner: int, title: string, names: seq<string>, descriptions: seq<string>)
    requires store.Valid()
    requires SqliteInt(NewRowId(store.routines.Keys))
    modifies store
    ensures store.Valid()
    ensures store.users == old(store.users)
    ensures store.routines == old(store.routines)
    ensures store.links == old(store.links)
    ensures Extends(old(store.subjects), store.subjects)
    ensures forall i :: 0 <= i < |names| && i < |descriptions| ==> SubjectNamed(store.subjects, names[i]).Some?
  {
    ghost var links0 := store.links;
    var created := store.CreateRoutine(owner, Some(title), names, descriptions);
    var rid := created.location.id;
    ghost var links1 := store.links;
    assert forall l :: l in links0 ==> links0[l].routine != rid;
    var deleted := store.DeleteRoutine(rid, Some(owner));
    DeleteUndoesLinks(links0, links1, rid);
    assert store.routines == old(store.routines);
  }
}
