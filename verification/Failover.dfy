/** What failover does to the ring: an ideal ring in which one node has replaced its successor by the
    first listed node that answers, whether the others crashed or only missed a call. */
module Failover {
  import opened Ids
  import opened Wrappers
  import opened Pointers
  import opened Walks
  import opened Clockwise
  import opened RingSafety
  import opened SuccessorLists
  import opened Lookup

  /** y lies strictly between n and the successor r it has switched to. */
  predicate Skipped(n: Id, r: Id, y: Id) {
    Span(n, y) < Span(n, r)
  }

  ghost predicate OnCycle(m: Ring, y: Id)
    requires Closed(m) && y in m
  {
    exists k: nat :: k >= 1 && Walk(m, y, k) == y
  }

  /** Paths that do not use the pointer of n are as before. */
  lemma {:induction false} LeadsBefore(m: Ring, n: Id, r: Id, a: Id, c: Id)
    requires Ideal(m) && n in m && r in m && a in m && c in m
    requires a != n && Span(a, c) <= Span(a, n)
    ensures Closed(m[n := r]) && Leads(m[n := r], a, c)
    decreases Span(a, c)
  {
    ClosedUpdate(m, n, r);
    assert Span(a, Hop(m, a)) <= Span(a, c);
    if Hop(m, a) != c {
      LeadsBefore(m, n, r, Hop(m, a), c);
    }
  }

  /** The new successor lies on a winding-free cycle that every member reaches: one ordered ring. */
  lemma RingThroughBackup(m: Ring, n: Id, r: Id)
    requires Ideal(m) && n in m && r in m && r != n
    ensures Anchored(m[n := r], r)
  {
    var m' := m[n := r];
    LeadsBefore(m, n, r, r, n);
    ClosedUpdate(m, n, r);
    LeadsConcat(m', r, n, r);
    forall y | y in m' ensures Reaches(m', y, r) {
      if y != n {
        LeadsBefore(m, n, r, y, n);
        var k := LeadsHasWalk(m', y, n);
      } else {
        assert Walk(m', n, 0) == n;
      }
      assert Walk(m', n, 1) == Walk(m', r, 0);
      ReachesTransitive(m', y, n, r);
    }
  }

  /** From beyond y, seen from n, nothing leads back to y. */
  lemma {:induction false} StaysBeyond(m: Ring, n: Id, r: Id, y: Id, v: Id, k: nat)
    requires Ideal(m) && n in m && r in m && Skipped(n, r, y) && v in m && Span(n, y) < Span(n, v)
    ensures Closed(m[n := r]) && Walk(m[n := r], v, k) != y
    decreases k
  {
    ClosedUpdate(m, n, r);
    if k > 0 {
      if v != n {
        assert Span(v, Hop(m, v)) <= Span(v, n);
      }
      StaysBeyond(m, n, r, y, Hop(m[n := r], v), k - 1);
    }
  }

  lemma SkippedIsOffCycle(m: Ring, n: Id, r: Id, y: Id)
    requires Ideal(m) && n in m && r in m && r != n && y in m && Skipped(n, r, y)
    ensures Closed(m[n := r]) && !OnCycle(m[n := r], y)
  {
    var m' := m[n := r];
    ClosedUpdate(m, n, r);
    assert Span(y, Hop(m, y)) <= Span(y, n);
    forall k: nat | k >= 1 ensures Walk(m', y, k) != y {
      StaysBeyond(m, n, r, y, Hop(m', y), k - 1);
    }
  }

  lemma OthersAreOnCycle(m: Ring, n: Id, r: Id, y: Id)
    requires Ideal(m) && n in m && r in m && r != n && y in m && !Skipped(n, r, y)
    ensures Closed(m[n := r]) && OnCycle(m[n := r], y)
  {
    var m' := m[n := r];
    RingThroughBackup(m, n, r);
    assert Reaches(m', y, r);
    if y != r {
      LeadsBefore(m, n, r, r, y);
      var k := LeadsHasWalk(m', r, y);
      var j: nat :| Walk(m', y, j) == r;
      WalkAdd(m', y, j, k);
      assert Walk(m', y, j + k) == y;
    } else {
      var k := LeadsHasWalk(m', r, r);
    }
  }

  /** When n of an ideal ring takes r for its successor, there is still one ordered ring that every
      member reaches. The members on it are exactly those n has not skipped, so it takes in everybody
      if and only if r is the successor n had. */
  lemma SwitchKeepsOneRing(m: Ring, n: Id, r: Id) returns (len: nat)
    requires Ideal(m) && n in m && r in m && r != n
    ensures var m' := m[n := r];
            && Closed(m') && OrderedCycle(m', r, len)
            && (forall y {:trigger Reaches(m', y, r)} :: y in m ==> Reaches(m', y, r))
            && (forall y {:trigger OnCycle(m', y)} :: y in m ==> (OnCycle(m', y) <==> !Skipped(n, r, y)))
            && (OneCycle(m') <==> r == Hop(m, n))
  {
    var m' := m[n := r];
    RingThroughBackup(m, n, r);
    len := CycleOf(m', r);
    forall y | y in m ensures OnCycle(m', y) <==> !Skipped(n, r, y) {
      if Skipped(n, r, y) {
        SkippedIsOffCycle(m, n, r, y);
      } else {
        OthersAreOnCycle(m, n, r, y);
      }
    }
    if r == Hop(m, n) {
      assert m' == m;
      IdealIsOneCycle(m);
    } else {
      NobodyPointsToSkipped(m, n, r);
    }
  }

  /** A skipped successor is nobody's successor any more. */
  lemma NobodyPointsToSkipped(m: Ring, n: Id, r: Id)
    requires Ideal(m) && n in m && r in m && r != n && r != Hop(m, n)
    ensures Closed(m[n := r]) && !OneCycle(m[n := r])
  {
    var m', s := m[n := r], Hop(m, n);
    ClosedUpdate(m, n, r);
    assert Span(n, s) <= Span(n, r);
    forall k: nat ensures Walk(m', r, k) != s {
      StaysBeyond(m, n, r, s, r, k);
    }
    assert !Reaches(m', r, s);
  }

  /** Failover on an ideal ring, after any crashes or lost replies: when some listed node answers, there
      is again one ordered ring that every member reaches. Off it are exactly the members before the
      one adopted, none of which answered; so everybody is on it if and only if the own successor
      answered. */
  lemma FailoverKeepsOneRing(m: Ring, n: Id, alive: set<Id>) returns (r: Option<Id>, len: nat)
    requires Ideal(m) && n in m && |m.Keys| >= 2
    ensures r == FirstAlive(n, Gathered(n, Hop(m, n), RingReplies(m, n)), alive)
    ensures r.Some? ==>
      var m' := m[n := r.value];
      && r.value in m && Closed(m') && OrderedCycle(m', r.value, len)
      && (forall y {:trigger Reaches(m', y, r.value)} :: y in m ==> Reaches(m', y, r.value))
      && (forall y {:trigger OnCycle(m', y)} :: y in m ==> (OnCycle(m', y) <==> !Skipped(n, r.value, y)))
      && (forall y {:trigger OnCycle(m', y)} :: y in m && y in alive ==> OnCycle(m', y))
      && (OneCycle(m') <==> Hop(m, n) in alive)
  {
    FailoverTakesNearest(m, n, alive);
    r := FirstAlive(n, Gathered(n, Hop(m, n), RingReplies(m, n)), alive);
    len := 0;
    if r.Some? {
      len := SwitchKeepsOneRing(m, n, r.value);
      var m' := m[n := r.value];
      forall y | y in m && y in alive ensures OnCycle(m', y) {
        assert !Skipped(n, r.value, y);
      }
      SuccessorAnswered(m, n, r.value, alive);
    }
  }

  lemma SuccessorAnswered(m: Ring, n: Id, r: Id, alive: set<Id>)
    requires Ideal(m) && n in m && |m.Keys| >= 2 && r in m && r in alive && r != n
    requires forall y :: y in m && y in alive && y != n ==> Span(n, r) <= Span(n, y)
    ensures r == Hop(m, n) <==> Hop(m, n) in alive
  {
    assert Span(n, Hop(m, n)) <= Span(n, r);
  }

  /** When the node a lookup ends at does not answer, on an ideal ring: the answer is the nearest member
      clockwise that does, if the list of the asking node has one, and else its own successor. */
  lemma LookupFallsBack(net: Tables, self: Id, id: Id, lost: set<nat>, alive: set<Id>)
    requires Settled(net) && self in net.succ && |net.succ.Keys| >= 2
    requires Search(net, self, self, id, 0, lost) != self
    ensures var m, list := net.succ, Gathered(self, Hop(net.succ, self), RingReplies(net.succ, self));
            var r := Answered(net, self, id, lost, false, FirstAlive(self, list, alive));
            && r in m && r != self
            && ((exists x :: x in list && x in alive) ==>
                  r in alive && forall y :: y in m && y in alive && y != self ==> Span(self, r) <= Span(self, y))
            && (!(exists x :: x in list && x in alive) ==> r == m[self])
  {
    FailoverTakesNearest(net.succ, self, alive);
    FirstFewReturns(net.succ, self);
    SearchInside(net, self, self, id, 0, lost);
    assert Hop(net.succ, self) in net.succ;
  }

  /** What was skipped by mistake is taken back node by node: when the predecessor pointers are still
      those of the ideal ring, the next `stabilize` of n steps back from the k-th member to the one
      before it. */
  lemma SkipIsTakenBack(m: Ring, n: Id, k: nat, pred: Option<Id>)
    requires Ideal(m) && n in m && 2 <= k < |m.Keys|
    ensures Replied(n, Pointers(Entry(m, n, k), pred), Entry(m, n, k), Some(Entry(m, n, k - 1))) ==
            Pointers(Entry(m, n, k - 1), pred)
  {
    var u, r := Entry(m, n, k - 1), Entry(m, n, k);
    WalkAdd(m, n, k - 1, 1);
    WalkOne(m, u);
    ReturnsOnlyAtEnd(m, n, k - 1);
    ReturnsOnlyAtEnd(m, n, k);
    assert Span(u, r) <= Span(u, n);
  }

  /** A lost reply is enough to skip a live node, for a while: on the ring 0, 4, 8 node 8 misses the
      answers of its successor 0 and adopts 4, and 0 is on no cycle until 8 asks 4 again. */
  lemma LostReplySkipsALiveNode(m: Ring)
    requires m == map[0 := 4, 4 := 8, 8 := 0]
    ensures Ideal(m) && Closed(m[8 := 4]) && !OnCycle(m[8 := 4], 0)
    ensures FirstAlive(8, Gathered(8, 0, RingReplies(m, 8)), {4, 8}) == Some(4)
    ensures Replied(8, Pointers(4, Some(4)), 4, Some(0)) == Pointers(0, Some(4))
  {
    assert Hop(m, 0) == 4 && Hop(m, 4) == 8 && Hop(m, 8) == 0;
    SkippedIsOffCycle(m, 8, 4, 0);
    assert Walk(m, 8, 2) == Walk(m, 0, 1) == Walk(m, 4, 0);
    assert Walk(m, 8, 3) == Walk(m, 0, 2) == Walk(m, 4, 1) == Walk(m, 8, 0);
    ListOfThree(8, 0, 4, 8, 3);
  }
}
