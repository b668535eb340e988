/** Successor maps on the identifier circle: paths that stay inside one turn, and the
    rings whose pointers all lead to the next member clockwise. */
module Clockwise {
  import opened Ids
  import opened Walks

  type Ring = map<Id, Id>

  /** Length of the first k arcs of the walk from a; an arc from a node to itself is a full turn. */
  ghost function ArcSum(m: Ring, a: Id, k: nat): nat
    requires Closed(m) && a in m
    decreases k
  {
    if k == 0 then 0 else Span(a, Hop(m, a)) + ArcSum(m, Hop(m, a), k - 1)
  }

  lemma {:induction false} ArcSumGrows(m: Ring, b: Id, i: nat, j: nat)
    requires Closed(m) && b in m && i < j
    ensures ArcSum(m, b, i) < ArcSum(m, b, j)
    decreases i
  {
    if i > 0 {
      ArcSumGrows(m, Hop(m, b), i - 1, j - 1);
    }
  }

  /** Following successors from a reaches c inside the arc from a to c, without winding past it. */
  ghost predicate Leads(m: Ring, a: Id, c: Id)
    requires Closed(m) && a in m && c in m
    decreases Span(a, c)
  {
    Span(a, Hop(m, a)) <= Span(a, c) && (Hop(m, a) == c || Leads(m, Hop(m, a), c))
  }

  lemma {:induction false} LeadsHasWalk(m: Ring, a: Id, c: Id) returns (k: nat)
    requires Closed(m) && a in m && c in m && Leads(m, a, c)
    ensures k >= 1 && Walk(m, a, k) == c && ArcSum(m, a, k) == Span(a, c)
    decreases Span(a, c)
  {
    if Hop(m, a) == c {
      assert Walk(m, a, 1) == Walk(m, c, 0);
      assert ArcSum(m, a, 1) == Span(a, c) + ArcSum(m, c, 0);
      k := 1;
    } else {
      var j := LeadsHasWalk(m, Hop(m, a), c);
      k := j + 1;
    }
  }

  /** On a winding-free path, the length walked so far is the clockwise distance covered. */
  lemma {:induction false} LeadsPositions(m: Ring, a: Id, c: Id, k: nat, i: nat)
    requires Closed(m) && a in m && c in m && Leads(m, a, c)
    requires Walk(m, a, k) == c && ArcSum(m, a, k) == Span(a, c) && 0 < i <= k
    ensures ArcSum(m, a, i) == Span(a, Walk(m, a, i)) <= Span(a, c)
    decreases k
  {
    var s := Hop(m, a);
    if i == 1 {
      assert Walk(m, a, 1) == Walk(m, s, 0) && ArcSum(m, a, 1) == Span(a, s) + ArcSum(m, s, 0);
    } else {
      LeadsPositions(m, s, c, k - 1, i - 1);
    }
  }

  lemma {:induction false} WalkLeads(m: Ring, a: Id, c: Id, k: nat)
    requires Closed(m) && a in m && c in m
    requires k >= 1 && Walk(m, a, k) == c && ArcSum(m, a, k) == Span(a, c)
    ensures Leads(m, a, c)
    decreases k
  {
    if Hop(m, a) != c {
      assert k > 1;
      WalkLeads(m, Hop(m, a), c, k - 1);
    }
  }

  /** Leads means what it says: some walk from a ends in c with arcs adding up to exactly one sweep. */
  lemma LeadsIsOneSweep(m: Ring, a: Id, c: Id)
    requires Closed(m) && a in m && c in m
    ensures Leads(m, a, c) <==>
            exists k: nat :: k >= 1 && Walk(m, a, k) == c && ArcSum(m, a, k) == Span(a, c)
  {
    if Leads(m, a, c) {
      var k := LeadsHasWalk(m, a, c);
    }
    if k: nat :| k >= 1 && Walk(m, a, k) == c && ArcSum(m, a, k) == Span(a, c) {
      WalkLeads(m, a, c, k);
    }
  }

  lemma {:induction false} LeadsConcat(m: Ring, a: Id, b: Id, c: Id)
    requires Closed(m) && a in m && b in m && c in m
    requires Leads(m, a, b) && Leads(m, b, c)
    requires Span(a, b) + Span(b, c) == Span(a, c)
    ensures Leads(m, a, c)
    decreases Span(a, b)
  {
    if Hop(m, a) != b {
      LeadsConcat(m, Hop(m, a), b, c);
    }
  }

  /** Of two places a leads to, the nearer one leads on to the farther one. */
  lemma {:induction false} LeadsSplit(m: Ring, a: Id, b: Id, c: Id)
    requires Closed(m) && a in m && b in m && c in m
    requires Leads(m, a, b) && Leads(m, a, c) && Span(a, b) < Span(a, c)
    ensures Leads(m, b, c) && Span(a, b) + Span(b, c) == Span(a, c)
    decreases Span(a, b)
  {
    if Hop(m, a) != b {
      LeadsSplit(m, Hop(m, a), b, c);
    }
  }

  /** The last stop before the target. */
  lemma {:induction false} LeadsLast(m: Ring, a: Id, c: Id) returns (u: Id)
    requires Closed(m) && a in m && c in m && Leads(m, a, c)
    ensures u in m && Hop(m, u) == c && (u == a || Leads(m, a, u))
    ensures u != a ==> Span(a, u) < Span(a, c)
    decreases Span(a, c)
  {
    if Hop(m, a) == c {
      u := a;
    } else {
      u := LeadsLast(m, Hop(m, a), c);
    }
  }

  /** Replacing the pointer n -> s by n -> x, where x leads to s, keeps every winding-free path. */
  lemma {:induction false} LeadsDetour(m: Ring, n: Id, x: Id, a: Id, c: Id)
    requires Closed(m) && n in m && x in m && a in m && c in m
    requires Leads(m, x, Hop(m, n)) && Span(n, x) < Span(n, Hop(m, n))
    requires Leads(m, a, c)
    ensures Closed(m[n := x]) && Leads(m[n := x], a, c)
    decreases Span(a, c)
  {
    var m', s := m[n := x], Hop(m, n);
    ClosedUpdate(m, n, x);
    if a == n {
      LeadsDetour(m, n, x, x, s);
      if s != c {
        LeadsDetour(m, n, x, s, c);
        LeadsConcat(m', x, s, c);
      }
    } else if Hop(m, a) != c {
      LeadsDetour(m, n, x, Hop(m, a), c);
    }
  }

  /** The same replacement keeps plain reachability. */
  lemma {:induction false} ReachesDetour(m: Ring, n: Id, x: Id, a: Id, k: nat)
    requires Closed(m) && n in m && x in m && a in m
    requires Leads(m, x, Hop(m, n)) && Span(n, x) < Span(n, Hop(m, n))
    ensures Closed(m[n := x]) && Reaches(m[n := x], a, Walk(m, a, k))
    decreases k
  {
    var m', s, c := m[n := x], Hop(m, n), Walk(m, a, k);
    ClosedUpdate(m, n, x);
    if k == 0 {
      assert Walk(m', a, 0) == c;
    } else {
      ReachesDetour(m, n, x, Hop(m, a), k - 1);
      if a == n {
        LeadsDetour(m, n, x, x, s);
        var j := LeadsHasWalk(m', x, s);
        ReachesTransitive(m', x, s, c);
      }
      ReachesStep(m', a, c);
    }
  }

  /** A new node pointing anywhere into the map changes no existing path. */
  lemma {:induction false} LeadsExtend(m: Ring, j: Id, s: Id, a: Id, c: Id)
    requires Closed(m) && j !in m && s in m && a in m && c in m && Leads(m, a, c)
    ensures Closed(m[j := s]) && Leads(m[j := s], a, c)
    decreases Span(a, c)
  {
    ClosedUpdate(m, j, s);
    if Hop(m, a) != c {
      LeadsExtend(m, j, s, Hop(m, a), c);
    }
  }

  lemma {:induction false} WalkExtend(m: Ring, j: Id, s: Id, a: Id, k: nat)
    requires Closed(m) && j !in m && s in m && a in m
    ensures Closed(m[j := s]) && Walk(m[j := s], a, k) == Walk(m, a, k)
    decreases k
  {
    ClosedUpdate(m, j, s);
    if k > 0 {
      WalkExtend(m, j, s, Hop(m, a), k - 1);
    }
  }

  // ---------- ordered cycles ----------

  /** The first len nodes from b form a cycle in clockwise order: arcs add up to exactly one
      turn, no node repeats, and each stands at the distance walked to it. */
  ghost predicate OrderedCycle(m: Ring, b: Id, len: nat) {
    && Closed(m) && b in m && len >= 1
    && Walk(m, b, len) == b && ArcSum(m, b, len) == RING && Fresh(m, b, len)
    && forall i: nat {:trigger ArcSum(m, b, i)} :: i < len ==> ArcSum(m, b, i) == Dist(b, Walk(m, b, i))
  }

  lemma {:induction false} PositionsAreFresh(m: Ring, b: Id, len: nat, k: nat)
    requires Closed(m) && b in m && Leads(m, b, b)
    requires Walk(m, b, len) == b && ArcSum(m, b, len) == RING && k <= len
    ensures Fresh(m, b, k)
    decreases k
  {
    if k > 0 {
      PositionsAreFresh(m, b, len, k - 1);
      var w := Walk(m, b, k - 1);
      if w in Visited(m, b, k - 1) {
        var j := VisitedIndex(m, b, k - 1, w);
        WalkAdd(m, b, j, 1);
        SamePlaceSamePosition(m, b, len, j, k - 1);
      }
    }
  }

  lemma SamePlaceSamePosition(m: Ring, b: Id, len: nat, i: nat, j: nat)
    requires Closed(m) && b in m && Leads(m, b, b)
    requires Walk(m, b, len) == b && ArcSum(m, b, len) == RING && i < j < len
    ensures Walk(m, b, i) != Walk(m, b, j)
  {
    ArcSumGrows(m, b, i, j);
    ArcSumGrows(m, b, j, len);
    LeadsPositions(m, b, b, len, j);
    if i > 0 {
      LeadsPositions(m, b, b, len, i);
    }
  }

  /** A node that leads to itself stands on an ordered cycle. */
  lemma CycleOf(m: Ring, b: Id) returns (len: nat)
    requires Closed(m) && b in m && Leads(m, b, b)
    ensures OrderedCycle(m, b, len)
  {
    len := LeadsHasWalk(m, b, b);
    PositionsAreFresh(m, b, len, len);
    forall i: nat | i < len ensures ArcSum(m, b, i) == Dist(b, Walk(m, b, i)) {
      if i > 0 {
        LeadsPositions(m, b, b, len, i);
        ArcSumGrows(m, b, i, len);
      }
    }
  }

  // ---------- the ideal ring ----------

  /** Every successor is the next member clockwise (a lone member is its own). */
  ghost predicate Ideal(m: Ring) {
    Closed(m) && forall n, y {:trigger Span(n, y)} :: n in m && y in m ==> Span(n, Hop(m, n)) <= Span(n, y)
  }

  /** On an ideal ring every member leads to every member. */
  lemma {:induction false} IdealLeads(m: Ring, a: Id, c: Id)
    requires Ideal(m) && a in m && c in m
    ensures Leads(m, a, c)
    decreases Span(a, c)
  {
    assert Span(a, Hop(m, a)) <= Span(a, c);
    if Hop(m, a) != c {
      IdealLeads(m, Hop(m, a), c);
    }
  }

  lemma IdealIsOneCycle(m: Ring)
    requires Ideal(m)
    ensures OneCycle(m)
  {
    forall a, c | a in m && c in m ensures Reaches(m, a, c) {
      IdealLeads(m, a, c);
      var k := LeadsHasWalk(m, a, c);
    }
  }

  ghost predicate AllLead(m: Ring)
    requires Closed(m)
  {
    forall a, c {:trigger Leads(m, a, c)} :: a in m && c in m ==> Leads(m, a, c)
  }

  lemma FirstArcInside(m: Ring, a: Id, c: Id)
    requires Closed(m) && a in m && c in m && Leads(m, a, c)
    ensures Span(a, Hop(m, a)) <= Span(a, c)
  {
  }

  /** If each member leads to each, the ring is ideal. */
  lemma LeadingIsIdeal(m: Ring)
    requires Closed(m) && AllLead(m)
    ensures Ideal(m)
  {
    forall n, y | n in m && y in m ensures Span(n, Hop(m, n)) <= Span(n, y) {
      assert Leads(m, n, y);
      FirstArcInside(m, n, y);
    }
  }

  lemma IdealIsInjective(m: Ring, u: Id, v: Id)
    requires Ideal(m) && u in m && v in m && u != v
    ensures Hop(m, u) != Hop(m, v)
  {
    assert Span(u, Hop(m, u)) <= Span(u, v);
    assert Span(v, Hop(m, v)) <= Span(v, u);
  }

  /** p undoes m, so no two pointers of m agree. */
  ghost predicate LeftInverse(p: map<Id, Id>, m: Ring) {
    forall n {:trigger Hop(m, n)} :: n in m ==> Hop(m, n) in p && p[Hop(m, n)] == n
  }

  /** Where b leads to the successor of y, and y alone points there, b leads to y. */
  lemma LedToPredecessor(m: Ring, p: map<Id, Id>, b: Id, y: Id)
    requires Closed(m) && LeftInverse(p, m) && b in m && y in m
    requires Leads(m, b, b) && Leads(m, b, Hop(m, y))
    ensures Leads(m, b, y)
  {
    var u := LeadsLast(m, b, Hop(m, y));
    assert p[Hop(m, u)] == u && p[Hop(m, y)] == y;
  }

  /** Along a walk into b, pointers being injective, every node is led to by b. */
  lemma {:induction false} LedFromBase(m: Ring, p: map<Id, Id>, b: Id, y: Id, k: nat)
    requires Closed(m) && LeftInverse(p, m) && b in m && y in m
    requires Leads(m, b, b) && Walk(m, y, k) == b
    ensures Leads(m, b, y)
    decreases k
  {
    if k > 0 {
      LedFromBase(m, p, b, Hop(m, y), k - 1);
      LedToPredecessor(m, p, b, y);
    }
  }

  /** Two members on a winding-free cycle through b lead to one another. */
  lemma LeadsAcrossBase(m: Ring, b: Id, a: Id, c: Id)
    requires Closed(m) && b in m && a in m && c in m
    requires Leads(m, b, b) && Leads(m, b, a) && Leads(m, b, c)
    ensures Leads(m, a, c)
  {
    if Span(b, a) < Span(b, c) {
      LeadsSplit(m, b, a, c);
    } else if a != b {
      LeadsSplit(m, b, a, b);
      if c != b {
        LeadsConcat(m, a, b, c);
      }
    }
  }

  /** One winding-free cycle through b, nobody outside it, and no two pointers to the same
      node: then every member's successor is the next member clockwise. */
  lemma CycleIsIdeal(m: Ring, p: map<Id, Id>, b: Id)
    requires Closed(m) && LeftInverse(p, m) && b in m && Leads(m, b, b)
    requires forall n {:trigger Reaches(m, n, b)} :: n in m ==> Reaches(m, n, b)
    ensures Ideal(m)
  {
    forall a, c | a in m && c in m ensures Leads(m, a, c) {
      assert Reaches(m, a, b) && Reaches(m, c, b);
      var j: nat :| Walk(m, a, j) == b;
      var k: nat :| Walk(m, c, k) == b;
      LedFromBase(m, p, b, a, j);
      LedFromBase(m, p, b, c, k);
      LeadsAcrossBase(m, b, a, c);
    }
    LeadingIsIdeal(m);
  }
}
