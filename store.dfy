/**
  The contents of the in-memory database `db()` (main.py): a dictionary from
  participant name to that participant's grid. Python dictionaries keep
  insertion order, and the feedback queue walks them in that order, so the
  dictionary is modelled as a sequence of entries with pairwise distinct
  names. A question is designated by a `Ref`: the index of its participant's
  entry and its position in the grid.
 */
module Store {
  import opened Wrappers
  import opened Questions
  import opened Grids

  datatype User = User(name: string, exos: Grid)

  datatype Ref = Ref(user: nat, pos: Pos)

  predicate ValidRef(users: seq<User>, r: Ref)
  {
    r.user < |users| && ValidPos(users[r.user].exos, r.pos)
  }

  function CellAt(users: seq<User>, r: Ref): Question
    requires ValidRef(users, r)
  {
    Cell(users[r.user].exos, r.pos)
  }

  /** Traversal order of the whole database: participant by participant (insertion order), then grid order. */
  predicate RefBefore(a: Ref, b: Ref)
  {
    a.user < b.user || (a.user == b.user && PosBefore(a.pos, b.pos))
  }

  ghost predicate DistinctNames(users: seq<User>)
  {
    forall i, j :: 0 <= i < j < |users| ==> users[i].name != users[j].name
  }

  /**
    A participant's grid has the shape of the catalogue, each question
    belongs to the participant and carries its variation text and exercise,
    and only the participant and the teacher write in it.
   */
  ghost predicate Fits(u: User, catalog: seq<Exercise>)
  {
    && |u.exos| == |catalog|
    && (forall e :: 0 <= e < |u.exos| ==> |u.exos[e]| == |catalog[e].variations|)
    && (forall e, v :: 0 <= e < |u.exos| && 0 <= v < |u.exos[e]| ==>
          var q := u.exos[e][v];
          && q.user == u.name
          && q.original == catalog[e].variations[v]
          && q.exo == catalog[e]
          && (forall k :: 0 <= k < |q.messages| ==>
                q.messages[k].user == u.name || q.messages[k].user == TeacherName))
  }

  /** Dictionary lookup: the index of the entry named `name`, if there is one. */
  function Lookup(users: seq<User>, name: string): (r: Option<nat>)
    ensures r.Some? ==> r.value < |users| && users[r.value].name == name
    ensures r.None? ==> forall i :: 0 <= i < |users| ==> users[i].name != name
  {
    if users == [] then None
    else if Last(users).name == name then Some(|users| - 1)
    else Lookup(users[..|users| - 1], name)
  }

  /**
    `db().setdefault(name, <fresh grid>)`: a new participant is added at the
    end with a fresh grid; an existing one is left as it is.
   */
  function SetDefault(users: seq<User>, name: string, catalog: seq<Exercise>): (r: seq<User>)
    ensures Lookup(r, name).Some?
    ensures users <= r && |r| <= |users| + 1
  {
    if Lookup(users, name).Some? then users else users + [User(name, NewGrid(name, catalog))]
  }

  /** Adding a participant twice is the same as adding them once. */
  lemma SetDefaultIdempotent(users: seq<User>, name: string, catalog: seq<Exercise>)
    ensures SetDefault(SetDefault(users, name, catalog), name, catalog) == SetDefault(users, name, catalog)
  {
  }

  /**
    A returning participant changes nothing: whatever their grid holds by
    now, `setdefault` on a name that is present leaves the database as it is.
   */
  lemma SetDefaultKeepsExisting(users: seq<User>, name: string, catalog: seq<Exercise>)
    requires Lookup(users, name).Some?
    ensures SetDefault(users, name, catalog) == users
  {
  }

  /**
    After `setdefault` the name is present, every earlier entry is unchanged,
    and a new entry holds a grid in which no question has a message.
   */
  lemma SetDefaultAdds(users: seq<User>, name: string, catalog: seq<Exercise>)
    ensures var u := SetDefault(users, name, catalog);
      && Lookup(u, name).Some?
      && |users| <= |u| <= |users| + 1
      && (|u| == |users| <==> Lookup(users, name).Some?)
      && u[..|users|] == users
      && (|u| > |users| ==> forall e, v :: 0 <= e < |u[|users|].exos| && 0 <= v < |u[|users|].exos[e]| ==>
            u[|users|].exos[e][v].messages == [])
  {
  }

  /** Adding a participant keeps the names distinct and every grid fitting the catalogue. */
  lemma SetDefaultPreserves(users: seq<User>, name: string, catalog: seq<Exercise>)
    requires DistinctNames(users)
    requires forall i :: 0 <= i < |users| ==> Fits(users[i], catalog)
    ensures DistinctNames(SetDefault(users, name, catalog))
    ensures forall i :: 0 <= i < |SetDefault(users, name, catalog)| ==> Fits(SetDefault(users, name, catalog)[i], catalog)
  {
  }

  /** `q.messages.append(m)` on the question at `r`, every other question left as it is. */
  function AppendAt(users: seq<User>, r: Ref, m: Message): (after: seq<User>)
    requires ValidRef(users, r)
    ensures |after| == |users| && ValidRef(after, r)
    ensures CellAt(after, r).messages == CellAt(users, r).messages + [m]
  {
    var u := users[r.user];
    var q := CellAt(users, r);
    var row := u.exos[r.pos.exo][r.pos.variation := q.(messages := q.messages + [m])];
    users[r.user := u.(exos := u.exos[r.pos.exo := row])]
  }

  /**
    Appending changes one question: the same references stay valid, the
    addressed question gains exactly `m` at the end, every other question is
    unchanged, and so are the participants' names.
   */
  lemma AppendAtChangesOneQuestion(users: seq<User>, r: Ref, m: Message)
    requires ValidRef(users, r)
    ensures var after := AppendAt(users, r, m);
      && |after| == |users|
      && (forall i :: 0 <= i < |users| ==> after[i].name == users[i].name)
      && (forall s :: ValidRef(after, s) <==> ValidRef(users, s))
      && CellAt(after, r) == CellAt(users, r).(messages := CellAt(users, r).messages + [m])
      && (forall s :: ValidRef(users, s) && s != r ==> CellAt(after, s) == CellAt(users, s))
  {
  }

  /** An append by the participant who owns the question, or by the teacher, keeps the database valid. */
  lemma AppendAtPreserves(users: seq<User>, r: Ref, m: Message, catalog: seq<Exercise>)
    requires ValidRef(users, r)
    requires DistinctNames(users)
    requires forall i :: 0 <= i < |users| ==> Fits(users[i], catalog)
    requires m.user == users[r.user].name || m.user == TeacherName
    ensures DistinctNames(AppendAt(users, r, m))
    ensures forall i :: 0 <= i < |users| ==> Fits(AppendAt(users, r, m)[i], catalog)
  {
  }
}
