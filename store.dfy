/** The request handlers of the study planner as transitions of one store
    holding the four tables. Each handler is one atomic step: the source's
    intermediate commits can never be observed half-done here, and a request
    that ends in an uncaught database error leaves every table as it was. */
module App {
  import opened Tables

  datatype Location = Home | PlannerPage | PlanPage(id: int)

  /** What a handler answers: a redirect, `apology(message, code)`, a rendered
      template, or a bare HTTP error (`abort(404)`, or 500 for an uncaught
      exception). */
  datatype Response =
    | Redirect(location: Location)
    | Apology(message: string, code: int)
    | Render(template: string)
    | HttpError(code: int)

  const Denied := "Routine not found or access denied"

  /** The gate of plan, edit and delete: the routine exists and `user` owns it. */
  predicate Owns(routines: map<int, Routine>, routine: int, user: int)
  {
    routine in routines && routines[routine].owner == user
  }

  /** The subject table after `Subject.query.filter_by(name=name).first()`
      and, when that finds nothing, the insertion of a new subject; `sid` is
      the subject found or made. */
  ghost predicate FindOrCreate(before: map<int, Subject>, after: map<int, Subject>,
                               name: string, description: Option<string>, sid: int)
    requires UniqueSubjectNames(before)
  {
    match SubjectNamed(before, name)
    case Some(k) => sid == k && after == before
    case None => sid == NewRowId(before.Keys) && after == before[sid := Subject(name, description, None)]
  }

  /** The link table after looking up the link of `rid` and `sid` and
      inserting it when it is absent. */
  ghost predicate LinkIfAbsent(before: map<int, Link>, after: map<int, Link>, rid: int, sid: int)
    requires UniqueLinks(before)
  {
    match LinkBetween(before, rid, sid)
    case Some(_) => after == before
    case None => after == before[NewRowId(before.Keys) := Link(rid, sid)]
  }

  /** How planner's subject loop leaves the subject table, for the pairs
      `names[i]`, `descriptions[i]` it has processed: every old row is kept,
      every processed name has a subject, and a new row exists only for a
      name no old subject had, carrying the description paired with that
      name's first occurrence. */
  ghost predicate FoundOrCreated(before: map<int, Subject>, after: map<int, Subject>, names: seq<string>, descriptions: seq<string>)
    requires |names| == |descriptions|
    requires UniqueSubjectNames(after)
  {
    && Extends(before, after)
    && (forall i :: 0 <= i < |names| ==> SubjectNamed(after, names[i]).Some?)
    && (forall k :: k in after && k !in before ==>
          && after[k].name in names
          && (forall b :: b in before ==> before[b].name != after[k].name)
          && after[k] == Subject(after[k].name, Some(descriptions[FirstIndex(names, after[k].name)]), None))
  }

  /** How planner's loop leaves the link table for the new routine `rid`:
      every old link is kept, every new link belongs to `rid`, and `rid` is
      linked to a subject exactly when the subject's name was processed. */
  ghost predicate LinkedByName(before: map<int, Link>, after: map<int, Link>, subjects: map<int, Subject>, rid: int, names: seq<string>)
  {
    && Extends(before, after)
    && (forall l :: l in after && l !in before ==> after[l].routine == rid)
    && (forall k :: k in subjects ==> (k in LinkedTo(after, rid) <==> subjects[k].name in names))
  }

  /** One find-or-create by name keeps `FoundOrCreated` for one more pair. */
  lemma FoundOrCreatedStep(before: map<int, Subject>, mid: map<int, Subject>, after: map<int, Subject>,
                           names: seq<string>, descriptions: seq<string>, name: string, description: string, sid: int)
    requires |names| == |descriptions|
    requires UniqueSubjectNames(mid) && UniqueSubjectNames(after)
    requires FoundOrCreated(before, mid, names, descriptions)
    requires FindOrCreate(mid, after, name, Some(description), sid)
    ensures FoundOrCreated(before, after, names + [name], descriptions + [description])
  {
    var names', descriptions' := names + [name], descriptions + [description];
    var found := SubjectNamed(mid, name);
    assert sid in after && after[sid].name == name;
    assert Extends(mid, after);
    forall i | 0 <= i < |names'|
      ensures SubjectNamed(after, names'[i]).Some?
    {
      var k := if i < |names| then SubjectNamed(mid, names[i]).value else sid;
      assert k in after && after[k].name == names'[i];
    }
    forall k | k in after && k !in before
      ensures after[k].name in names'
      ensures after[k] == Subject(after[k].name, Some(descriptions'[FirstIndex(names', after[k].name)]), None)
    {
      var n := after[k].name;
      FirstIndexAppend(names, name, n);
      if k in mid {
        assert after[k] == mid[k];
        assert n in names;
        var j := FirstIndex(names, n);
        assert descriptions'[j] == descriptions[j];
      } else {
        assert k == sid && n == name && found.None?;
        forall i | 0 <= i < |names| ensures names[i] != n {
          var w := SubjectNamed(mid, names[i]).value;
          assert mid[w].name != n;
        }
      }
    }
  }

  /** One link-if-absent to the subject found or made for `name` keeps
      `LinkedByName` for one more name. */
  lemma LinkedByNameStep(before: map<int, Link>, mid: map<int, Link>, after: map<int, Link>,
                         subjectsMid: map<int, Subject>, subjects: map<int, Subject>, routines: map<int, Routine>,
                         rid: int, names: seq<string>, name: string, description: Option<string>, sid: int)
    requires LinkedByName(before, mid, subjectsMid, rid, names)
    requires UniqueSubjectNames(subjectsMid) && UniqueSubjectNames(subjects) && UniqueLinks(mid)
    requires LinksResolve(mid, routines, subjectsMid)
    requires FindOrCreate(subjectsMid, subjects, name, description, sid)
    requires LinkIfAbsent(mid, after, rid, sid)
    ensures LinkedByName(before, after, subjects, rid, names + [name])
  {
    assert sid in subjects && subjects[sid].name == name;
    assert Extends(subjectsMid, subjects);
    var link := LinkBetween(mid, rid, sid);
    if link.Some? {
      assert after == mid;
      assert sid in LinkedTo(mid, rid);
    } else {
      var l := NewRowId(mid.Keys);
      assert after == mid[l := Link(rid, sid)];
      forall x | x in LinkedTo(after, rid) ensures x in LinkedTo(mid, rid) + {sid} {
        var m :| m in after && after[m].routine == rid && after[m].subject == x;
        if m != l {
          assert m in mid && mid[m] == after[m];
        }
      }
      forall x | x in LinkedTo(mid, rid) ensures x in LinkedTo(after, rid) {
        var m :| m in mid && mid[m].routine == rid && mid[m].subject == x;
        assert m in after && after[m] == mid[m];
      }
      assert after[l] == Link(rid, sid);
    }
    assert LinkedTo(after, rid) == LinkedTo(mid, rid) + {sid};
    forall k | k in subjects
      ensures k in LinkedTo(after, rid) <==> subjects[k].name in names + [name]
    {
      if k in subjectsMid {
        assert subjects[k] == subjectsMid[k];
      }
    }
  }

  class Store {
    var users: map<int, User>
    var routines: map<int, Routine>
    var subjects: map<int, Subject>
    var links: map<int, Link>

    /** What the database and the handlers keep true between requests. */
    ghost predicate Valid()
      reads this
    {
      && UniqueUsernames(users)
      && UniqueSubjectNames(subjects)
      && UniqueLinks(links)
      && LinksResolve(links, routines, subjects)
      && PositiveKeys(users) && PositiveKeys(routines) && PositiveKeys(subjects) && PositiveKeys(links)
    }

    /** A freshly created database: four empty tables. */
    constructor ()
      ensures Valid()
      ensures users == map[] && routines == map[] && subjects == map[] && links == map[]
    {
      users, routines, subjects, links := map[], map[], map[], map[];
    }

    /** POST /register. */
    method Register(username: Field, password: Field, confirmation: Field, salt: string, session: Option<int>)
      returns (r: Response, session': Option<int>)
      requires Valid()
      modifies this
      ensures Valid()
      ensures routines == old(routines) && subjects == old(subjects) && links == old(links)
      ensures Blank(username) || Blank(password) || Blank(confirmation) ==>
        r == Apology("missing fields", 400)
      ensures !Blank(username) && !Blank(password) && !Blank(confirmation) && password != confirmation ==>
        r == Apology("passwords don't match", 400)
      ensures (!Blank(username) && !Blank(password) && password == confirmation
               && UserNamed(old(users), username.value).Some?) ==>
        r == Apology("username taken", 400)
      ensures r.Redirect? <==>
        !Blank(username) && !Blank(password) && password == confirmation
        && UserNamed(old(users), username.value).None?
      ensures !r.Redirect? ==> users == old(users) && session' == session
      ensures r.Redirect? ==>
        && r == Redirect(Home)
        && session' == Some(NewRowId(old(users).Keys))
        && users == old(users)[session'.value := User(username.value, Hash(password.value, salt))]
    {
      if Blank(username) || Blank(password) || Blank(confirmation) {
        return Apology("missing fields", 400), session;
      }
      if password != confirmation {
        return Apology("passwords don't match", 400), session;
      }
      if UserNamed(users, username.value).Some? {
        return Apology("username taken", 400), session;
      }
      var id := NewRowId(users.Keys);
      users := users[id := User(username.value, Hash(password.value, salt))];
      r, session' := Redirect(Home), Some(id);
    }

    /** POST /login. The session is cleared first, so it names a user only
        after a successful login. */
    method Login(username: Field, password: Field) returns (r: Response, session: Option<int>)
      requires Valid()
      ensures session.Some? <==> r == Redirect(Home)
      ensures session.Some? <==>
        && !Blank(username) && !Blank(password)
        && exists k :: k in users && users[k].username == username.value && Verify(password.value, users[k].password)
      ensures session.Some? ==>
        && session.value in users
        && users[session.value].username == username.value
        && Verify(password.value, users[session.value].password)
      ensures session.None? ==>
        r == Apology(if Blank(username) || Blank(password) then "missing fields" else "invalid username and/or password", 403)
    {
      if Blank(username) || Blank(password) {
        return Apology("missing fields", 403), None;
      }
      var found := UserNamed(users, username.value);
      if found.None? || !Verify(password.value, users[found.value].password) {
        return Apology("invalid username and/or password", 403), None;
      }
      r, session := Redirect(Home), found;
    }

    /** Find the subject called `name`, creating it with `description` when
        there is none, then link it to routine `rid` unless it already is.
        The shared step of planner's loop and of the edit form. */
    method AttachSubject(rid: int, name: string, description: Option<string>) returns (sid: int)
      requires Valid() && rid in routines
      modifies this
      ensures Valid()
      ensures users == old(users) && routines == old(routines)
      ensures sid in subjects && subjects[sid].name == name
      ensures FindOrCreate(old(subjects), subjects, name, description, sid)
      ensures LinkIfAbsent(old(links), links, rid, sid)
    {
      var found := SubjectNamed(subjects, name);
      if found.Some? {
        sid := found.value;
      } else {
        sid := NewRowId(subjects.Keys);
        subjects := subjects[sid := Subject(name, description, None)];
      }
      var link := LinkBetween(links, rid, sid);
      if link.None? {
        links := links[NewRowId(links.Keys) := Link(rid, sid)];
      }
    }

    /** POST /planner: a new routine for `user`, then find-or-create and link
        for each pair of `zip(names, descriptions)`. */
    method CreateRoutine(user: int, title: Field, names: seq<string>, descriptions: seq<string>) returns (r: Response)
      requires Valid()
      modifies this
      ensures Valid()
      ensures users == old(users)
      ensures title.None? ==> r == HttpError(500) && unchanged(this)
      ensures title.Some? ==>
        var rid, n := NewRowId(old(routines).Keys), if |names| < |descriptions| then |names| else |descriptions|;
        && r == Redirect(PlanPage(rid))
        && routines == old(routines)[rid := Routine(title.value, user)]
        && OwnedBy(routines, user) == OwnedBy(old(routines), user) + {rid}
        && FoundOrCreated(old(subjects), subjects, names[..n], descriptions[..n])
        && LinkedByName(old(links), links, subjects, rid, names[..n])
    {
      if title.None? {
        return HttpError(500);
      }
      var rid := NewRowId(routines.Keys);
      routines := routines[rid := Routine(title.value, user)];
      assert LinkedTo(links, rid) == {} by {
        if l :| l in links && links[l].routine == rid {
          assert false;
        }
      }
      var n := if |names| < |descriptions| then |names| else |descriptions|;
      AttachPairs(rid, names[..n], descriptions[..n]);
      r := Redirect(PlanPage(rid));
    }

    /** Planner's loop over `zip(names, descriptions)` for the new routine
        `rid`, which has no links yet. */
    method AttachPairs(rid: int, names: seq<string>, descriptions: seq<string>)
      requires Valid() && rid in routines && LinkedTo(links, rid) == {}
      requires |names| == |descriptions|
      modifies this
      ensures Valid()
      ensures users == old(users) && routines == old(routines)
      ensures FoundOrCreated(old(subjects), subjects, names, descriptions)
      ensures LinkedByName(old(links), links, subjects, rid, names)
    {
      var i := 0;
      while i < |names|
        invariant 0 <= i <= |names|
        invariant Valid()
        invariant users == old(users) && routines == old(routines)
        invariant FoundOrCreated(old(subjects), subjects, names[..i], descriptions[..i])
        invariant LinkedByName(old(links), links, subjects, rid, names[..i])
      {
        AttachPair(rid, names[..i], descriptions[..i], names[i], descriptions[i], old(subjects), old(links));
        assert names[..i + 1] == names[..i] + [names[i]];
        assert descriptions[..i + 1] == descriptions[..i] + [descriptions[i]];
        i := i + 1;
      }
      assert names[..i] == names && descriptions[..i] == descriptions;
    }

    /** One turn of planner's loop: the pair (`name`, `description`) after
        the pairs `done`, `doneDescriptions`, starting from the tables
        `subjects0` and `links0`. */
    method AttachPair(rid: int, done: seq<string>, doneDescriptions: seq<string>, name: string, description: string,
                      ghost subjects0: map<int, Subject>, ghost links0: map<int, Link>)
      requires Valid() && rid in routines
      requires |done| == |doneDescriptions|
      requires FoundOrCreated(subjects0, subjects, done, doneDescriptions)
      requires LinkedByName(links0, links, subjects, rid, done)
      modifies this
      ensures Valid()
      ensures users == old(users) && routines == old(routines)
      ensures FoundOrCreated(subjects0, subjects, done + [name], doneDescriptions + [description])
      ensures LinkedByName(links0, links, subjects, rid, done + [name])
    {
      ghost var subjectsMid, linksMid := subjects, links;
      var sid := AttachSubject(rid, name, Some(description));
      FoundOrCreatedStep(subjects0, subjectsMid, subjects, done, doneDescriptions, name, description, sid);
      LinkedByNameStep(links0, linksMid, links, subjectsMid, subjects, routines, rid, done, name, Some(description), sid);
    }

    /** GET /plan?id=...: the page of a routine `user` owns. An id the
        driver cannot bind makes the lookup raise. */
    method ShowPlan(id: Option<int>, user: int) returns (r: Response)
      ensures id.None? || id.value == 0 ==> r == Apology("Missing routine ID", 400)
      ensures id.Some? && id.value != 0 && !SqliteInt(id.value) ==> r == HttpError(500)
      ensures id.Some? && id.value != 0 && SqliteInt(id.value) ==>
        r == (if Owns(routines, id.value, user) then Render("plan.html") else Apology(Denied, 403))
    {
      if id.None? || id.value == 0 {
        return Apology("Missing routine ID", 400);
      }
      if !SqliteInt(id.value) {
        return HttpError(500);
      }
      if !Owns(routines, id.value, user) {
        return Apology(Denied, 403);
      }
      r := Render("plan.html");
    }

    /** GET /plan/<rid>/edit: the edit form, behind the same gate; an id
        the driver cannot bind makes the lookup raise before it. */
    method EditForm(rid: int, user: int) returns (r: Response)
      ensures r == Render("edit.html") <==> SqliteInt(rid) && Owns(routines, rid, user)
      ensures !SqliteInt(rid) ==> r == HttpError(500)
      ensures SqliteInt(rid) && r != Render("edit.html") ==> r == Apology(Denied, 403)
    {
      if !SqliteInt(rid) {
        return HttpError(500);
      }
      if !Owns(routines, rid, user) {
        return Apology(Denied, 403);
      }
      r := Render("edit.html");
    }

    /** The description loop of the edit form: every subject linked to
        `rid` whose field was submitted takes the submitted text. */
    method DescribeLinkedSubjects(rid: int, descriptions: map<int, string>)
      requires Valid()
      modifies this
      ensures Valid()
      ensures users == old(users) && routines == old(routines) && links == old(links)
      ensures subjects == Redescribed(old(subjects), LinkedTo(links, rid), descriptions)
    {
      var pending := set l | l in links && links[l].routine == rid;
      ghost var described: set<int> := {};
      while pending != {}
        invariant pending <= links.Keys
        invariant forall l :: l in pending ==> links[l].routine == rid
        invariant described <= LinkedTo(links, rid)
        invariant forall l :: l in links && links[l].routine == rid && l !in pending ==> links[l].subject in described
        invariant subjects == Redescribed(old(subjects), described, descriptions)
        invariant users == old(users) && routines == old(routines) && links == old(links)
        decreases pending
      {
        if forall j :: j !in pending {
          assert false;
        }
        var l :| l in pending;
        var s := links[l].subject;
        assert s in subjects;
        RedescribedOneMore(old(subjects), described, descriptions, s);
        if s in descriptions {
          subjects := subjects[s := subjects[s].(description := Some(descriptions[s]))];
        }
        described := described + {s};
        pending := pending - {l};
      }
      assert described == LinkedTo(links, rid);
    }

    /** POST /plan/<rid>/edit. As in the edit form, an id the driver
        cannot bind makes the lookup raise before the gate. */
    method EditRoutine(rid: int, user: int, title: Field, descriptions: map<int, string>,
                       newName: Field, newDescription: Field) returns (r: Response)
      requires Valid()
      modifies this
      ensures Valid()
      ensures users == old(users)
      ensures !SqliteInt(rid) ==> r == HttpError(500) && unchanged(this)
      ensures SqliteInt(rid) && !Owns(old(routines), rid, user) ==> r == Apology(Denied, 403) && unchanged(this)
      ensures SqliteInt(rid) && Owns(old(routines), rid, user) && title.None? ==> r == HttpError(500) && unchanged(this)
      ensures SqliteInt(rid) && Owns(old(routines), rid, user) && title.Some? ==>
        var described := Redescribed(old(subjects), LinkedTo(old(links), rid), descriptions);
        && r == Redirect(PlanPage(rid))
        && routines == old(routines)[rid := Routine(title.value, user)]
        && (Blank(newName) ==> subjects == described && links == old(links))
        && (!Blank(newName) ==>
              && SubjectNamed(subjects, newName.value).Some?
              && var sid := SubjectNamed(subjects, newName.value).value;
                 && FindOrCreate(described, subjects, newName.value, newDescription, sid)
                 && LinkIfAbsent(old(links), links, rid, sid))
    {
      if !SqliteInt(rid) {
        return HttpError(500);
      }
      if !Owns(routines, rid, user) {
        return Apology(Denied, 403);
      }
      if title.None? {
        return HttpError(500);
      }
      routines := routines[rid := Routine(title.value, user)];
      DescribeLinkedSubjects(rid, descriptions);
      if !Blank(newName) {
        var sid := AttachSubject(rid, newName.value, newDescription);
      }
      r := Redirect(PlanPage(rid));
    }

    /** POST /plan/<rid>/delete. Not behind the login gate: without a
        session user the lookup of `session["user_id"]` fails. An id the
        driver cannot bind makes `get_or_404` raise before any 404. */
    method DeleteRoutine(rid: nat, session: Option<int>) returns (r: Response)
      requires Valid()
      modifies this
      ensures Valid()
      ensures users == old(users) && subjects == old(subjects)
      ensures rid == 0 ==> r == Apology("Missing routine ID", 400) && unchanged(this)
      ensures rid != 0 && !SqliteInt(rid) ==> r == HttpError(500) && unchanged(this)
      ensures rid != 0 && SqliteInt(rid) && rid !in old(routines) ==> r == HttpError(404) && unchanged(this)
      ensures rid != 0 && SqliteInt(rid) && rid in old(routines) && session.None? ==> r == HttpError(500) && unchanged(this)
      ensures rid != 0 && SqliteInt(rid) && rid in old(routines) && session.Some? && !Owns(old(routines), rid, session.value) ==>
        r == Apology("Access denied", 403) && unchanged(this)
      ensures rid != 0 && SqliteInt(rid) && session.Some? && Owns(old(routines), rid, session.value) ==>
        && r == Redirect(PlannerPage)
        && routines == old(routines) - {rid}
        && links == WithoutRoutine(old(links), rid)
        && OwnedBy(routines, session.value) == OwnedBy(old(routines), session.value) - {rid}
    {
      if rid == 0 {
        return Apology("Missing routine ID", 400);
      }
      if !SqliteInt(rid) {
        return HttpError(500);
      }
      if rid !in routines {
        return HttpError(404);
      }
      if session.None? {
        return HttpError(500);
      }
      if routines[rid].owner != session.value {
        return Apology("Access denied", 403);
      }
      var pending := set l | l in links && links[l].routine == rid;
      while pending != {}
        invariant pending <= old(links).Keys
        invariant forall l :: l in pending ==> old(links)[l].routine == rid
        invariant links == map l | l in old(links) && (old(links)[l].routine != rid || l in pending) :: old(links)[l]
        invariant users == old(users) && subjects == old(subjects) && routines == old(routines)
        decreases pending
      {
        if forall j :: j !in pending {
          assert false;
        }
        var l :| l in pending;
        links := links - {l};
        pending := pending - {l};
      }
      routines := routines - {rid};
      r := Redirect(PlannerPage);
    }
  }
}
