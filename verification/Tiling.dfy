/** The arcs between neighbours of an ideal ring tile the circle. */
module Tiling {
  import opened Ids
  import opened Walks
  import opened Clockwise
  import opened Sums

  /** p is the member just before `key`: the key lies in (p, successor of p], and in a ring of one
      member everything does. */
  ghost predicate Precedes(m: Ring, p: Id, key: Id) {
    Closed(m) && p in m && Span(p, key) <= Span(p, Hop(m, p))
  }

  lemma {:induction false} NearestBehind(ms: set<Id>, key: Id) returns (p: Id)
    requires ms != {}
    ensures p in ms && forall y :: y in ms ==> Span(p, key) <= Span(y, key)
    decreases ms
  {
    var x :| x in ms;
    if ms == {x} {
      p := x;
    } else {
      var q := NearestBehind(ms - {x}, key);
      p := if Span(x, key) <= Span(q, key) then x else q;
    }
  }

  lemma PrecedesIsNearest(m: Ring, p: Id, key: Id, y: Id)
    requires Ideal(m) && Precedes(m, p, key) && y in m
    ensures Span(p, key) <= Span(y, key)
    ensures y != p ==> Span(p, key) < Span(y, key)
  {
    assert Span(p, Hop(m, p)) <= Span(p, y);
  }

  lemma PrecedesIsUnique(m: Ring, p: Id, q: Id, key: Id)
    requires Ideal(m) && Precedes(m, p, key) && Precedes(m, q, key)
    ensures p == q
  {
    PrecedesIsNearest(m, p, key, q);
    PrecedesIsNearest(m, q, key, p);
  }

  lemma PredecessorOf(m: Ring, key: Id) returns (p: Id)
    requires Ideal(m) && m.Keys != {}
    ensures Precedes(m, p, key)
  {
    p := NearestBehind(m.Keys, key);
    assert Hop(m, p) in m.Keys;
  }

  /** With two members or more, the predecessor is the one node the interval test accepts. */
  lemma PrecedesIsBetween(m: Ring, p: Id, key: Id)
    requires Ideal(m) && |m.Keys| >= 2 && p in m
    ensures Hop(m, p) != p
    ensures Precedes(m, p, key) <==> IsBetween(key, p, Hop(m, p))
  {
    assert |m.Keys - {p}| == |m.Keys| - 1;
    var y :| y in m.Keys - {p};
    assert Span(p, Hop(m, p)) <= Span(p, y);
  }

  /** Every key lies in exactly one of the half-open intervals between neighbours. */
  lemma EveryKeyHasOneOwner(m: Ring, key: Id) returns (p: Id)
    requires Ideal(m) && |m.Keys| >= 2
    ensures p in m && IsBetween(key, p, Hop(m, p))
    ensures forall q :: q in m && IsBetween(key, q, Hop(m, q)) ==> q == p
  {
    p := PredecessorOf(m, key);
    PrecedesIsBetween(m, p, key);
    forall q | q in m && IsBetween(key, q, Hop(m, q)) ensures q == p {
      PrecedesIsBetween(m, q, key);
      PrecedesIsUnique(m, p, q, key);
    }
  }

  // ---------- the arcs add up to one turn ----------

  ghost function ArcOf(m: Ring): Id -> int {
    n => if n in m then Span(n, m[n]) else 0
  }

  lemma {:induction false} ArcSumLast(m: Ring, a: Id, k: nat)
    requires Closed(m) && a in m
    ensures ArcSum(m, a, k + 1) == ArcSum(m, a, k) + ArcOf(m)(Walk(m, a, k))
    decreases k
  {
    if k == 0 {
      assert ArcSum(m, a, 1) == Span(a, Hop(m, a)) + ArcSum(m, Hop(m, a), 0);
    } else {
      ArcSumLast(m, Hop(m, a), k - 1);
    }
  }

  lemma {:induction false} ArcSumIsSum(m: Ring, a: Id, k: nat)
    requires Closed(m) && a in m && Fresh(m, a, k)
    ensures Sum(Visited(m, a, k), ArcOf(m)) == ArcSum(m, a, k)
    decreases k
  {
    if k > 0 {
      var w := Walk(m, a, k - 1);
      ArcSumIsSum(m, a, k - 1);
      ArcSumLast(m, a, k - 1);
      SumSplit(Visited(m, a, k), ArcOf(m), w);
      assert Visited(m, a, k) - {w} == Visited(m, a, k - 1);
    }
  }

  /** The arcs from each member to its successor add up to exactly 2^160. */
  lemma ArcsTile(m: Ring)
    requires Ideal(m) && m.Keys != {}
    ensures Sum(m.Keys, ArcOf(m)) == RING
  {
    var a :| a in m.Keys;
    IdealLeads(m, a, a);
    var len := CycleOf(m, a);
    VisitedHas(m, a, len, 0);
    IdealIsOneCycle(m);
    CyclePeriod(m, a, len);
    ArcSumIsSum(m, a, len);
  }
}
