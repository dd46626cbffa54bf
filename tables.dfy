/** The four tables of the study planner: their rows, the rules the database
    keeps for them (primary keys, the unique username column, the unique
    (routine, subject) pair) and the lookups the request handlers run on them.
    A table is a map from primary key to row. */
module Tables {

  datatype Option<T> = None | Some(value: T)

  /** What `request.form.get(...)` yields: nothing, or the submitted text. */
  type Field = Option<string>

  /** Python's `not field` on a form value: absent, or the empty string. */
  predicate Blank(f: Field)
  {
    f.None? || f.value == ""
  }

  // ---------------------------------------------------------------------
  // Password hashing (bcrypt stands outside the model)
  // ---------------------------------------------------------------------

  /** A bcrypt digest, kept symbolically: the salt drawn at hashing time and
      the secret it seals. */
  datatype PasswordHash = Bcrypt(salt: string, secret: string)

  /** `bcrypt.verify(password, hash)` of an ideal hash. */
  predicate Verify(password: string, hash: PasswordHash)
  {
    hash.secret == password
  }

  /** `bcrypt.hash(password)`, with the random salt passed in. The digest
      accepts its own password and no other. */
  function Hash(password: string, salt: string): (h: PasswordHash)
    ensures Verify(password, h)
    ensures forall other :: Verify(other, h) ==> other == password
  {
    Bcrypt(salt, password)
  }

  // ---------------------------------------------------------------------
  // Rows (the primary key `id` is the key of the table's map)
  // ---------------------------------------------------------------------

  datatype User = User(username: string, password: PasswordHash)

  datatype Routine = Routine(title: string, owner: int)

  datatype Subject = Subject(name: string, description: Option<string>, estimatedMinutes: Option<int>)

  /** A row of the join table `routine_subject`. */
  datatype Link = Link(routine: int, subject: int)

  // ---------------------------------------------------------------------
  // Primary keys
  // ---------------------------------------------------------------------

  lemma {:induction false} HasLargest(keys: set<int>)
    requires keys != {}
    ensures exists m :: m in keys && forall k :: k in keys ==> k <= m
  {
    var k := PickOne(keys);
    var rest := keys - {k};
    if exists j :: j in rest {
      HasLargest(rest);
      var m :| m in rest && forall j :: j in rest ==> j <= m;
      var top := if m < k then k else m;
      forall j | j in keys ensures j <= top {
        if j != k { assert j in rest; }
      }
    } else {
      forall j | j in keys ensures j <= k {
        assert j == k || j in rest;
      }
    }
  }

  lemma PickOne(keys: set<int>) returns (k: int)
    requires keys != {}
    ensures k in keys
  {
    if forall j :: j !in keys {
      assert false;
    }
    k :| k in keys;
  }

  /** The id SQLite gives a row inserted without one: one more than the
      largest id in the table, or 1 when the table is empty. */
  function NewRowId(keys: set<int>): (id: int)
    ensures id !in keys
    ensures forall k :: k in keys ==> k < id
    ensures keys == {} ==> id == 1
    ensures keys != {} ==> id - 1 in keys
  {
    if keys == {} then 1
    else
      HasLargest(keys);
      var m :| m in keys && forall k :: k in keys ==> k <= m;
      m + 1
  }

  /** An integer the sqlite3 driver can bind as a query parameter: a signed
      64-bit value. Binding any other integer raises `OverflowError`. */
  predicate SqliteInt(id: int)
  {
    -0x8000_0000_0000_0000 <= id <= 0x7fff_ffff_ffff_ffff
  }

  // ---------------------------------------------------------------------
  // What the database keeps true
  // ---------------------------------------------------------------------

  /** `username = db.Column(db.String, unique=True, ...)`. */
  predicate UniqueUsernames(users: map<int, User>)
  {
    forall a, b :: a in users && b in users && users[a].username == users[b].username ==> a == b
  }

  /** No column constraint asks for this; find-or-create by name keeps it as
      long as requests are handled one at a time. */
  predicate UniqueSubjectNames(subjects: map<int, Subject>)
  {
    forall a, b :: a in subjects && b in subjects && subjects[a].name == subjects[b].name ==> a == b
  }

  /** `UniqueConstraint("routine_id", "subject_id")`. */
  predicate UniqueLinks(links: map<int, Link>)
  {
    forall a, b :: a in links && b in links && links[a] == links[b] ==> a == b
  }

  /** Every link joins a routine and a subject that exist. */
  predicate LinksResolve(links: map<int, Link>, routines: map<int, Routine>, subjects: map<int, Subject>)
  {
    forall l :: l in links ==> links[l].routine in routines && links[l].subject in subjects
  }

  /** Row ids handed out by `NewRowId`, starting from an empty table. */
  predicate PositiveKeys<T>(table: map<int, T>)
  {
    forall k :: k in table ==> k >= 1
  }

  // ---------------------------------------------------------------------
  // Queries: `filter_by(...).first()` where the match is unique
  // ---------------------------------------------------------------------

  /** `User.query.filter_by(username=username).first()`. */
  function UserNamed(users: map<int, User>, username: string): (r: Option<int>)
    requires UniqueUsernames(users)
    ensures r.Some? ==> r.value in users && users[r.value].username == username
    ensures r.None? <==> forall k :: k in users ==> users[k].username != username
  {
    if exists k :: k in users && users[k].username == username then
      var k :| k in users && users[k].username == username; Some(k)
    else None
  }

  /** `Subject.query.filter_by(name=name).first()`. */
  function SubjectNamed(subjects: map<int, Subject>, name: string): (r: Option<int>)
    requires UniqueSubjectNames(subjects)
    ensures r.Some? ==> r.value in subjects && subjects[r.value].name == name
    ensures r.None? <==> forall k :: k in subjects ==> subjects[k].name != name
  {
    if exists k :: k in subjects && subjects[k].name == name then
      var k :| k in subjects && subjects[k].name == name; Some(k)
    else None
  }

  /** `RoutineSubject.query.filter_by(routine_id=routine, subject_id=subject).first()`. */
  function LinkBetween(links: map<int, Link>, routine: int, subject: int): (r: Option<int>)
    requires UniqueLinks(links)
    ensures r.Some? ==> r.value in links && links[r.value] == Link(routine, subject)
    ensures r.None? <==> forall l :: l in links ==> links[l] != Link(routine, subject)
  {
    if exists l :: l in links && links[l] == Link(routine, subject) then
      var l :| l in links && links[l] == Link(routine, subject); Some(l)
    else None
  }

  /** `routine.subjects`, as the ids of the subjects the routine is linked to. */
  ghost function LinkedTo(links: map<int, Link>, routine: int): set<int>
  {
    set l | l in links && links[l].routine == routine :: links[l].subject
  }

  /** The ids of the routines `user` owns: `Routine.query.filter_by(user_id=user)`. */
  ghost function OwnedBy(routines: map<int, Routine>, user: int): set<int>
  {
    set k | k in routines && routines[k].owner == user
  }

  /** The links left once every link of `routine` is deleted. */
  ghost function WithoutRoutine(links: map<int, Link>, routine: int): map<int, Link>
  {
    map l | l in links && links[l].routine != routine :: links[l]
  }

  /** The subjects after the edit form's description fields are applied: a
      subject in `linked` whose field was submitted takes its text; every
      other row, and every other column, stays as it was. */
  function Redescribed(subjects: map<int, Subject>, linked: set<int>, descriptions: map<int, string>): (r: map<int, Subject>)
    ensures r.Keys == subjects.Keys
    ensures forall k :: k in r ==> r[k].name == subjects[k].name && r[k].estimatedMinutes == subjects[k].estimatedMinutes
    ensures forall k :: k in r ==> r[k].description == (if k in linked && k in descriptions then Some(descriptions[k]) else subjects[k].description)
  {
    map k | k in subjects :: if k in linked && k in descriptions then subjects[k].(description := Some(descriptions[k])) else subjects[k]
  }

  /** Applying the form to one more linked subject `s` rewrites at most
      that subject's row. */
  lemma RedescribedOneMore(subjects: map<int, Subject>, linked: set<int>, descriptions: map<int, string>, s: int)
    requires s in subjects
    ensures Redescribed(subjects, linked + {s}, descriptions) ==
      if s in descriptions
      then Redescribed(subjects, linked, descriptions)[s := subjects[s].(description := Some(descriptions[s]))]
      else Redescribed(subjects, linked, descriptions)
  {
  }

  /** `after` keeps every row of `before` as it was. */
  ghost predicate Extends<T>(before: map<int, T>, after: map<int, T>)
  {
    forall k :: k in before ==> k in after && after[k] == before[k]
  }

  // ---------------------------------------------------------------------
  // Lists
  // ---------------------------------------------------------------------

  /** Where `x` first occurs in `s`; `|s|` when it does not. */
  function FirstIndex(s: seq<string>, x: string): (i: nat)
    ensures i <= |s|
    ensures i < |s| <==> x in s
    ensures i < |s| ==> s[i] == x
    ensures forall j :: 0 <= j < i ==> s[j] != x
  {
    if s == [] then 0
    else if s[0] == x then 0
    else 1 + FirstIndex(s[1..], x)
  }

  /** Appending to a list leaves earlier first occurrences where they were,
      and a new element first occurs at the end. */
  lemma {:induction false} FirstIndexAppend(s: seq<string>, y: string, x: string)
    ensures x in s ==> FirstIndex(s + [y], x) == FirstIndex(s, x)
    ensures x !in s && x == y ==> FirstIndex(s + [y], x) == |s|
  {
    if s != [] && s[0] != x {
      assert (s + [y])[1..] == s[1..] + [y];
      FirstIndexAppend(s[1..], y, x);
    }
  }
}
