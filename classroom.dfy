/**
  The shared database and the two sides of the app that change it
  (main.py): the participant page of `main` (account creation by
  `setdefault`, the progression gate, participant messages) and the teacher's
  `admin_panel` (the feedback queue, the draft reply, teacher messages).
 */
module Classroom {
  import opened Wrappers
  import opened Questions
  import opened Grids
  import opened Store
  import opened Queue

  /** The draft offered when the model is not used and the question never got feedback. */
  const Placeholder: string := "I dunno man, just work on it"

  /**
    The pre-filled text of the teacher's reply box. `openai` stands for
    `get_openai_feedback(original, first submission, exercise)`, whose
    result may be `None`; it is asked only for a question that never got
    feedback, with the participant's first message.
   */
  function DraftDefault(q: Question, useOpenAI: bool, openai: (string, string, Exercise) -> Option<string>): (d: Option<string>)
    requires useOpenAI && NeverGotFeedback(q.messages) ==> q.messages != []
    ensures !NeverGotFeedback(q.messages) ==> d == Some("")
    ensures NeverGotFeedback(q.messages) && useOpenAI ==> d == openai(q.original, q.messages[0].content, q.exo)
    ensures NeverGotFeedback(q.messages) && !useOpenAI ==> d == Some(Placeholder)
  {
    if NeverGotFeedback(q.messages) && useOpenAI then openai(q.original, q.messages[0].content, q.exo)
    else if NeverGotFeedback(q.messages) then Some(Placeholder)
    else Some("")
  }

  /**
    Once the teacher has answered a question, every later draft for it is
    empty, whether or not the model is enabled.
   */
  lemma DraftEmptyAfterFeedback(q: Question, k: nat, useOpenAI: bool, openai: (string, string, Exercise) -> Option<string>)
    requires k < |q.messages| && q.messages[k].user == TeacherName
    ensures DraftDefault(q, useOpenAI, openai) == Some("")
  {
  }

  /** `w` designates a question that waits for the teacher, and `w.since` is its `needs_response_since`. */
  ghost predicate IsWaiting(users: seq<User>, w: Waiting)
  {
    && ValidRef(users, w.at)
    && NeedsResponse(CellAt(users, w.at).messages)
    && PendingSince(CellAt(users, w.at).messages) == Some(w.since)
  }

  /**
    `pending` holds, in traversal order, exactly the waiting questions that
    come before `cursor`.
   */
  ghost predicate Collected(users: seq<User>, pending: seq<Waiting>, cursor: Ref)
  {
    && (forall i :: 0 <= i < |pending| ==> IsWaiting(users, pending[i]) && RefBefore(pending[i].at, cursor))
    && InTraversalOrder(pending)
    && (forall r :: ValidRef(users, r) && RefBefore(r, cursor) && NeedsResponse(CellAt(users, r).messages) ==>
          exists i :: 0 <= i < |pending| && pending[i].at == r)
  }

  /** A teacher reply takes exactly its question out of the set of waiting questions. */
  lemma TeacherReplyLeavesQueue(users: seq<User>, r: Ref, content: string, now: int)
    requires ValidRef(users, r)
    ensures var after := AppendAt(users, r, Message(TeacherName, content, now));
      && !NeverGotFeedback(CellAt(after, r).messages)
      && (forall s :: ValidRef(after, s) <==> ValidRef(users, s))
      && (forall s :: ValidRef(users, s) ==>
            (NeedsResponse(CellAt(after, s).messages) <==> s != r && NeedsResponse(CellAt(users, s).messages)))
  {
    var m := Message(TeacherName, content, now);
    AppendAtChangesOneQuestion(users, r, m);
    TeacherReplyCloses(CellAt(users, r).messages, m);
  }

  /**
    A participant message puts its question in the set of waiting questions,
    keeping its old waiting time if it was already there; nothing else moves.
   */
  lemma SubmitEntersQueue(users: seq<User>, r: Ref, m: Message)
    requires ValidRef(users, r) && m.user != TeacherName
    ensures var after := AppendAt(users, r, m);
      && (forall s :: ValidRef(after, s) <==> ValidRef(users, s))
      && PendingSince(CellAt(after, r).messages)
         == (if NeedsResponse(CellAt(users, r).messages) then PendingSince(CellAt(users, r).messages)
             else Some(m.timestamp))
      && (forall s :: ValidRef(users, s) ==>
            (NeedsResponse(CellAt(after, s).messages) <==> s == r || NeedsResponse(CellAt(users, s).messages)))
  {
  }

  /** Moving the cursor past positions that hold no question keeps `Collected`. */
  lemma CollectedMoves(users: seq<User>, pending: seq<Waiting>, c1: Ref, c2: Ref)
    requires Collected(users, pending, c1)
    requires RefBefore(c1, c2)
    requires forall r :: ValidRef(users, r) && RefBefore(r, c2) ==> RefBefore(r, c1)
    ensures Collected(users, pending, c2)
  {
  }

  /** Visiting the question at `here` when it does not wait moves the cursor one step. */
  lemma CollectedSkip(users: seq<User>, pending: seq<Waiting>, here: Ref, next: Ref)
    requires Collected(users, pending, here) && ValidRef(users, here)
    requires !NeedsResponse(CellAt(users, here).messages)
    requires RefBefore(here, next)
    requires forall r :: ValidRef(users, r) && RefBefore(r, next) ==> RefBefore(r, here) || r == here
    ensures Collected(users, pending, next)
  {
  }

  /** Visiting the question at `here` when it waits appends it and moves the cursor one step. */
  lemma CollectedAppend(users: seq<User>, pending: seq<Waiting>, here: Ref, next: Ref, w: Waiting)
    requires Collected(users, pending, here)
    requires w.at == here && IsWaiting(users, w)
    requires RefBefore(here, next)
    requires forall r :: ValidRef(users, r) && RefBefore(r, next) ==> RefBefore(r, here) || r == here
    ensures Collected(users, pending + [w], next)
  {
    var grown := pending + [w];
    assert forall i :: 0 <= i < |pending| ==> grown[i] == pending[i];
    assert InTraversalOrder(grown);
    forall r | ValidRef(users, r) && RefBefore(r, next) && NeedsResponse(CellAt(users, r).messages)
      ensures exists i :: 0 <= i < |grown| && grown[i].at == r
    {
      if r == here {
        assert grown[|pending|].at == r;
      } else {
        var k :| 0 <= k < |pending| && pending[k].at == r;
        assert grown[k].at == r;
      }
    }
  }

  /** The innermost `for q in qs` of the queue comprehension: one exercise row of participant `u`. */
  method CollectRow(users: seq<User>, u: nat, e: nat, pending: seq<Waiting>) returns (grown: seq<Waiting>)
    requires u < |users| && e < |users[u].exos|
    requires Collected(users, pending, Ref(u, Pos(e, 0)))
    ensures Collected(users, grown, Ref(u, Pos(e + 1, 0)))
  {
    var row := users[u].exos[e];
    grown := pending;
    var v := 0;
    while v < |row|
      invariant 0 <= v <= |row|
      invariant Collected(users, grown, Ref(u, Pos(e, v)))
    {
      var here := Ref(u, Pos(e, v));
      var msgs := row[v].messages;
      if NeedsResponse(msgs) {
        var since := NeedsResponseSince(msgs);
        CollectedAppend(users, grown, here, Ref(u, Pos(e, v + 1)), Waiting(here, since.value));
        grown := grown + [Waiting(here, since.value)];
      } else {
        CollectedSkip(users, grown, here, Ref(u, Pos(e, v + 1)));
      }
      v := v + 1;
    }
    CollectedMoves(users, grown, Ref(u, Pos(e, v)), Ref(u, Pos(e + 1, 0)));
  }

  /** The middle `for qs in user` of the queue comprehension: the grid of participant `u`. */
  method CollectGrid(users: seq<User>, u: nat, pending: seq<Waiting>) returns (grown: seq<Waiting>)
    requires u < |users|
    requires Collected(users, pending, Ref(u, Pos(0, 0)))
    ensures Collected(users, grown, Ref(u + 1, Pos(0, 0)))
  {
    var g: Grid := users[u].exos;
    grown := pending;
    var e := 0;
    while e < |g|
      invariant 0 <= e <= |g|
      invariant Collected(users, grown, Ref(u, Pos(e, 0)))
    {
      grown := CollectRow(users, u, e, grown);
      e := e + 1;
    }
    CollectedMoves(users, grown, Ref(u, Pos(e, 0)), Ref(u + 1, Pos(0, 0)));
  }

  /** The in-memory store `db()`, and the catalogue `EXERCISES` its grids are built from. */
  class Database {
    const catalog: seq<Exercise>
    var users: seq<User>

    /** Names are distinct (dictionary keys), the teacher has no grid, and every grid fits the catalogue. */
    ghost predicate Valid()
      reads this
    {
      && DistinctNames(users)
      && (forall i :: 0 <= i < |users| ==> users[i].name != TeacherName && Fits(users[i], catalog))
    }

    constructor (catalog: seq<Exercise>)
      ensures Valid()
      ensures this.catalog == catalog && users == []
    {
      this.catalog := catalog;
      users := [];
    }

    /** `db().setdefault(user, ...)`: a participant's grid is created on their first visit only. */
    method AddUser(name: string)
      requires Valid() && name != TeacherName
      modifies this
      ensures Valid()
      ensures users == SetDefault(old(users), name, catalog)
    {
      if Lookup(users, name).None? {
        users := users + [User(name, NewGrid(name, catalog))];
      }
      SetDefaultPreserves(old(users), name, catalog);
    }

    /**
      The feedback queue: every waiting question of every participant,
      collected in traversal order, then stably sorted by the time since
      which it waits. The result holds each waiting question exactly once,
      oldest first, and questions waiting since the same time in traversal
      order.
     */
    method FeedbackQueue() returns (queue: seq<Waiting>)
      ensures forall i :: 0 <= i < |queue| ==> IsWaiting(users, queue[i])
      ensures forall r :: ValidRef(users, r) && NeedsResponse(CellAt(users, r).messages) ==>
                exists i :: 0 <= i < |queue| && queue[i].at == r
      ensures forall i, j :: 0 <= i < j < |queue| ==> queue[i].at != queue[j].at
      ensures SortedBySince(queue)
      ensures TiesInTraversalOrder(queue)
    {
      var pending: seq<Waiting> := [];
      var u := 0;
      while u < |users|
        invariant 0 <= u <= |users|
        invariant Collected(users, pending, Ref(u, Pos(0, 0)))
      {
        pending := CollectGrid(users, u, pending);
        u := u + 1;
      }
      queue := Sort(pending);
      SortPermutes(pending);
      SortSorts(pending);
      SortIsStable(pending);
      forall i | 0 <= i < |queue| ensures IsWaiting(users, queue[i]) {
        assert queue[i] in multiset(pending);
      }
      forall r | ValidRef(users, r) && NeedsResponse(CellAt(users, r).messages)
        ensures exists i :: 0 <= i < |queue| && queue[i].at == r
      {
        var k :| 0 <= k < |pending| && pending[k].at == r;
        assert pending[k] in multiset(queue);
      }
    }

    /**
      The teacher's "Send" on a question of the queue: a non-empty reply is
      appended to that question, authored by the teacher.
     */
    method TeacherReply(r: Ref, content: string, now: int) returns (sent: bool)
      requires Valid() && ValidRef(users, r)
      modifies this
      ensures Valid()
      ensures sent == (NeedsResponse(old(CellAt(users, r)).messages) && content != "")
      ensures users == if sent then AppendAt(old(users), r, Message(TeacherName, content, now)) else old(users)
    {
      sent := NeedsResponse(CellAt(users, r).messages) && content != "";
      if sent {
        AppendAtPreserves(users, r, Message(TeacherName, content, now), catalog);
        users := AppendAt(users, r, Message(TeacherName, content, now));
      }
    }

    /**
      A participant's chat input on their own page: it exists only for the
      questions the gate shows, accepts nothing while a question holds exactly
      one message, and appends a non-empty message authored by the participant.
     */
    method Submit(name: string, p: Pos, content: string, now: int) returns (sent: bool)
      requires Valid() && Lookup(users, name).Some?
      modifies this
      ensures Valid()
      ensures var i := Lookup(old(users), name).value;
        var g := old(users)[i].exos;
        && sent == (ValidPos(g, p) && Unlocked(g, p) && |Cell(g, p).messages| != 1 && content != "")
        && users == if sent then AppendAt(old(users), Ref(i, p), Message(name, content, now)) else old(users)
    {
      var i := Lookup(users, name).value;
      var g := users[i].exos;
      var vis := VisiblePositions(g);
      sent := p in vis && |Cell(g, p).messages| != 1 && content != "";
      if sent {
        AppendAtPreserves(users, Ref(i, p), Message(name, content, now), catalog);
        users := AppendAt(users, Ref(i, p), Message(name, content, now));
      }
    }
  }
}
