/**
  The ordering of the teacher's feedback queue (main.py, `admin_panel`):
  `need_response.sort(key=lambda q: q.needs_response_since)`. Python's sort
  is stable, so its result is the unique arrangement that is sorted by the
  key and keeps equal keys in their original order; `Sort` below is that
  arrangement, computed by insertion.
 */
module Queue {
  import opened Store

  /** A question waiting for the teacher, with its sort key `needs_response_since`. */
  datatype Waiting = Waiting(at: Ref, since: int)

  predicate SortedBySince(s: seq<Waiting>)
  {
    forall i, j :: 0 <= i < j < |s| ==> s[i].since <= s[j].since
  }

  /** Entries with the same key appear in traversal order. */
  predicate TiesInTraversalOrder(s: seq<Waiting>)
  {
    forall i, j :: 0 <= i < j < |s| && s[i].since == s[j].since ==> RefBefore(s[i].at, s[j].at)
  }

  predicate InTraversalOrder(s: seq<Waiting>)
  {
    forall i, j :: 0 <= i < j < |s| ==> RefBefore(s[i].at, s[j].at)
  }

  /** Inserts `w` after every entry whose key is not larger than its own. */
  function Insert(s: seq<Waiting>, w: Waiting): (r: seq<Waiting>)
    ensures |r| == |s| + 1
  {
    if s == [] then [w]
    else if w.since < s[0].since then [w] + s
    else [s[0]] + Insert(s[1..], w)
  }

  /** Stable sort by `since`. */
  function Sort(s: seq<Waiting>): (r: seq<Waiting>)
    ensures |r| == |s|
  {
    if s == [] then [] else Insert(Sort(s[..|s| - 1]), s[|s| - 1])
  }

  lemma {:induction false} InsertPermutes(s: seq<Waiting>, w: Waiting)
    ensures multiset(Insert(s, w)) == multiset(s) + multiset{w}
  {
    if s != [] && w.since >= s[0].since {
      InsertPermutes(s[1..], w);
      assert s == [s[0]] + s[1..];
    }
  }

  lemma {:induction false} InsertSorted(s: seq<Waiting>, w: Waiting)
    requires SortedBySince(s)
    ensures SortedBySince(Insert(s, w))
  {
    if s != [] && w.since >= s[0].since {
      var rest := Insert(s[1..], w);
      InsertSorted(s[1..], w);
      InsertPermutes(s[1..], w);
      forall k | 0 <= k < |rest| ensures s[0].since <= rest[k].since {
        assert rest[k] in multiset(rest);
        assert rest[k] in multiset(s[1..]) || rest[k] == w;
      }
    }
  }

  /**
    Inserting an entry that comes after all others in traversal order keeps
    equal keys in traversal order.
   */
  lemma {:induction false} InsertKeepsTies(s: seq<Waiting>, w: Waiting)
    requires SortedBySince(s) && TiesInTraversalOrder(s)
    requires forall i :: 0 <= i < |s| ==> RefBefore(s[i].at, w.at)
    ensures TiesInTraversalOrder(Insert(s, w))
  {
    if s != [] {
      if w.since < s[0].since {
        var r := [w] + s;
        forall i, j | 0 <= i < j < |r| && r[i].since == r[j].since
          ensures RefBefore(r[i].at, r[j].at)
        {
          assert i > 0;
        }
      } else {
        var rest := Insert(s[1..], w);
        InsertKeepsTies(s[1..], w);
        InsertPermutes(s[1..], w);
        var r := [s[0]] + rest;
        forall j | 0 < j < |r| && r[0].since == r[j].since
          ensures RefBefore(r[0].at, r[j].at)
        {
          assert r[j] in multiset(rest);
          assert r[j] in multiset(s[1..]) || r[j] == w;
          if r[j] != w {
            var k :| 1 <= k < |s| && s[k] == r[j];
          }
        }
      }
    }
  }

  /** The queue holds the same entries as the list it sorts. */
  lemma {:induction false} SortPermutes(s: seq<Waiting>)
    ensures multiset(Sort(s)) == multiset(s)
  {
    if s != [] {
      var init, w := s[..|s| - 1], s[|s| - 1];
      SortPermutes(init);
      assert s == init + [w];
      InsertPermutes(Sort(init), w);
    }
  }

  /** The oldest waiting entry comes first. */
  lemma {:induction false} SortSorts(s: seq<Waiting>)
    ensures SortedBySince(Sort(s))
  {
    if s != [] {
      SortSorts(s[..|s| - 1]);
      InsertSorted(Sort(s[..|s| - 1]), s[|s| - 1]);
    }
  }

  /** Stability: when the input is in traversal order, equal keys stay in traversal order. */
  lemma {:induction false} SortIsStable(s: seq<Waiting>)
    requires InTraversalOrder(s)
    ensures TiesInTraversalOrder(Sort(s))
  {
    if s != [] {
      var init, w := s[..|s| - 1], s[|s| - 1];
      SortIsStable(init);
      SortSorts(init);
      SortPermutes(init);
      var t := Sort(init);
      forall i | 0 <= i < |t| ensures RefBefore(t[i].at, w.at) {
        assert t[i] in multiset(init);
        var k :| 0 <= k < |init| && init[k] == t[i];
      }
      InsertKeepsTies(t, w);
    }
  }
}
