/**
  One participant's grid of questions (main.py, `main`): one row per
  exercise of the catalogue, one question per variation of that exercise,
  and the progression gate that decides which questions are shown.
 */
module Grids {
  import opened Questions

  /** Coordinates of a question in a grid: exercise index, then variation index. */
  datatype Pos = Pos(exo: nat, variation: nat)

  type Grid = seq<seq<Question>>

  predicate ValidPos(g: Grid, p: Pos)
  {
    p.exo < |g| && p.variation < |g[p.exo]|
  }

  function Cell(g: Grid, p: Pos): Question
    requires ValidPos(g, p)
  {
    g[p.exo][p.variation]
  }

  /** Traversal order of the page: exercise by exercise, variation by variation. */
  predicate PosBefore(a: Pos, b: Pos)
  {
    a.exo < b.exo || (a.exo == b.exo && a.variation < b.variation)
  }

  /**
    The grid `setdefault` stores for a new participant: for every exercise of
    the catalogue, one question with no messages per variation.
   */
  function NewGrid(name: string, catalog: seq<Exercise>): (g: Grid)
    ensures |g| == |catalog|
    ensures forall e :: 0 <= e < |g| ==> |g[e]| == |catalog[e].variations|
    ensures forall e, v :: 0 <= e < |g| && 0 <= v < |g[e]| ==>
              g[e][v] == Question(name, catalog[e].variations[v], catalog[e], [])
  {
    seq(|catalog|, e requires 0 <= e < |catalog| =>
      seq(|catalog[e].variations|, v requires 0 <= v < |catalog[e].variations| =>
        Question(name, catalog[e].variations[v], catalog[e], [])))
  }

  /**
    The gate: a question is shown when every question before it in
    traversal order has received feedback from the teacher.
   */
  ghost predicate Unlocked(g: Grid, p: Pos)
  {
    forall q :: ValidPos(g, q) && PosBefore(q, p) ==> !NeverGotFeedback(Cell(g, q).messages)
  }

  /**
    The page loop of `main`: shows questions in traversal order and stops
    right after the first one that never got feedback (`break`, then the
    `for ... else: continue` / `break` that leaves the outer loop).
    The shown positions are exactly the unlocked ones, in traversal order.
   */
  method VisiblePositions(g: Grid) returns (vis: seq<Pos>)
    ensures forall i :: 0 <= i < |vis| ==> ValidPos(g, vis[i])
    ensures forall i, j :: 0 <= i < j < |vis| ==> PosBefore(vis[i], vis[j])
    ensures forall p :: ValidPos(g, p) ==> (p in vis <==> Unlocked(g, p))
  {
    vis := [];
    var e := 0;
    while e < |g|
      invariant 0 <= e <= |g|
      invariant forall i :: 0 <= i < |vis| ==> ValidPos(g, vis[i]) && PosBefore(vis[i], Pos(e, 0))
      invariant forall i, j :: 0 <= i < j < |vis| ==> PosBefore(vis[i], vis[j])
      invariant forall p :: ValidPos(g, p) && PosBefore(p, Pos(e, 0)) ==>
                  p in vis && !NeverGotFeedback(Cell(g, p).messages)
    {
      var v := 0;
      while v < |g[e]|
        invariant 0 <= v <= |g[e]|
        invariant forall i :: 0 <= i < |vis| ==> ValidPos(g, vis[i]) && PosBefore(vis[i], Pos(e, v))
        invariant forall i, j :: 0 <= i < j < |vis| ==> PosBefore(vis[i], vis[j])
        invariant forall p :: ValidPos(g, p) && PosBefore(p, Pos(e, v)) ==>
                    p in vis && !NeverGotFeedback(Cell(g, p).messages)
      {
        vis := vis + [Pos(e, v)];
        if NeverGotFeedback(g[e][v].messages) {
          // Everything after (e, v) is locked by (e, v) itself.
          assert forall p :: ValidPos(g, p) && PosBefore(Pos(e, v), p) ==> !Unlocked(g, p);
          break break;
        }
        v := v + 1;
      }
      e := e + 1;
    }
  }

  /** The gate only ever opens a prefix: whatever comes before an unlocked question is unlocked too. */
  lemma UnlockedIsPrefix(g: Grid, p: Pos, q: Pos)
    requires Unlocked(g, p) && PosBefore(q, p)
    ensures Unlocked(g, q)
  {
  }

  /**
    The shown part ends at the first question that never got feedback: after
    such a question nothing is unlocked.
   */
  lemma LockedAfterUnanswered(g: Grid, p: Pos, q: Pos)
    requires ValidPos(g, p) && NeverGotFeedback(Cell(g, p).messages)
    requires PosBefore(p, q)
    ensures !Unlocked(g, q)
  {
  }

  /**
    A new participant sees exactly the first question: in a fresh grid a
    position is unlocked iff no question comes before it.
   */
  lemma NewGridShowsFirstOnly(name: string, catalog: seq<Exercise>, p: Pos)
    requires ValidPos(NewGrid(name, catalog), p)
    ensures Unlocked(NewGrid(name, catalog), p)
            <==> forall q :: ValidPos(NewGrid(name, catalog), q) ==> !PosBefore(q, p)
  {
  }
}
