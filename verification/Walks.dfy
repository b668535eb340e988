/** Finite successor maps as graphs: walks that follow the pointers of any node set. */
module Walks {

  /** The pointer of node n. */
  ghost function Hop<A(!new)>(m: map<A, A>, n: A): A
    requires n in m
  {
    m[n]
  }

  /** Every pointer of the map leads to a node of the map. */
  ghost predicate Closed<A(!new)>(m: map<A, A>) {
    forall n {:trigger Hop(m, n)} :: n in m ==> Hop(m, n) in m
  }

  lemma ClosedUpdate<A(!new)>(m: map<A, A>, n: A, x: A)
    requires Closed(m) && (x in m || x == n)
    ensures Closed(m[n := x]) && Hop(m[n := x], n) == x
    ensures forall k {:trigger Hop(m[n := x], k)} :: k in m && k != n ==> Hop(m[n := x], k) == Hop(m, k)
  {
    var m' := m[n := x];
    forall k | k in m' ensures Hop(m', k) in m' {
      if k != n {
        assert Hop(m, k) in m;
      }
    }
  }

  /** The node reached from a by k pointer steps. */
  ghost function Walk<A(!new)>(m: map<A, A>, a: A, k: nat): (r: A)
    requires Closed(m) && a in m
    ensures r in m
  {
    if k == 0 then a else Walk(m, Hop(m, a), k - 1)
  }

  ghost predicate Reaches<A(!new)>(m: map<A, A>, a: A, c: A)
    requires Closed(m) && a in m
  {
    exists k: nat :: Walk(m, a, k) == c
  }

  /** One cycle through all the nodes: each reaches each. */
  ghost predicate OneCycle<A(!new)>(m: map<A, A>)
    requires Closed(m)
  {
    forall a, c {:trigger Reaches(m, a, c)} :: a in m && c in m ==> Reaches(m, a, c)
  }

  lemma {:induction false} WalkAdd<A(!new)>(m: map<A, A>, a: A, j: nat, k: nat)
    requires Closed(m) && a in m
    ensures Walk(m, a, j + k) == Walk(m, Walk(m, a, j), k)
  {
    if j > 0 {
      WalkAdd(m, Hop(m, a), j - 1, k);
    }
  }

  lemma ReachesTransitive<A(!new)>(m: map<A, A>, a: A, b: A, c: A)
    requires Closed(m) && a in m && b in m
    requires Reaches(m, a, b) && Reaches(m, b, c)
    ensures Reaches(m, a, c)
  {
    var j: nat :| Walk(m, a, j) == b;
    var k: nat :| Walk(m, b, k) == c;
    WalkAdd(m, a, j, k);
  }

  lemma ReachesStep<A(!new)>(m: map<A, A>, a: A, c: A)
    requires Closed(m) && a in m && Reaches(m, Hop(m, a), c)
    ensures Reaches(m, a, c)
  {
    var k: nat :| Walk(m, Hop(m, a), k) == c;
    assert Walk(m, a, k + 1) == c;
  }

  // ---------- the nodes met in the first k steps ----------

  ghost function Visited<A(!new)>(m: map<A, A>, a: A, k: nat): (s: set<A>)
    requires Closed(m) && a in m
    ensures s <= m.Keys
  {
    if k == 0 then {} else Visited(m, a, k - 1) + {Walk(m, a, k - 1)}
  }

  lemma {:induction false} VisitedHas<A(!new)>(m: map<A, A>, a: A, k: nat, j: nat)
    requires Closed(m) && a in m && j < k
    ensures Walk(m, a, j) in Visited(m, a, k)
  {
    if j < k - 1 {
      VisitedHas(m, a, k - 1, j);
    }
  }

  lemma {:induction false} VisitedIndex<A(!new)>(m: map<A, A>, a: A, k: nat, x: A) returns (j: nat)
    requires Closed(m) && a in m && x in Visited(m, a, k)
    ensures j < k && Walk(m, a, j) == x
  {
    if x == Walk(m, a, k - 1) {
      j := k - 1;
    } else {
      j := VisitedIndex(m, a, k - 1, x);
    }
  }

  /** The first k nodes of the walk are pairwise different. */
  ghost predicate Fresh<A(!new)>(m: map<A, A>, a: A, k: nat)
    requires Closed(m) && a in m
  {
    k > 0 ==> Fresh(m, a, k - 1) && Walk(m, a, k - 1) !in Visited(m, a, k - 1)
  }

  lemma {:induction false} FreshAt<A(!new)>(m: map<A, A>, a: A, k: nat, j: nat)
    requires Closed(m) && a in m && Fresh(m, a, k) && j < k
    ensures Fresh(m, a, j) && Walk(m, a, j) !in Visited(m, a, j)
  {
    if j < k - 1 {
      FreshAt(m, a, k - 1, j);
    }
  }

  lemma {:induction false} FreshCounts<A(!new)>(m: map<A, A>, a: A, k: nat)
    requires Closed(m) && a in m && Fresh(m, a, k)
    ensures |Visited(m, a, k)| == k
  {
    if k > 0 {
      FreshCounts(m, a, k - 1);
    }
  }

  lemma SubsetSize<A>(s: set<A>, t: set<A>)
    requires s <= t
    ensures |s| <= |t|
    ensures |s| == |t| ==> s == t
  {
    assert t == s + (t - s);
  }

  /** A walk of fresh nodes is never longer than the node set. */
  lemma FreshBound<A(!new)>(m: map<A, A>, a: A, k: nat)
    requires Closed(m) && a in m && Fresh(m, a, k)
    ensures k <= |m.Keys|
  {
    FreshCounts(m, a, k);
    SubsetSize(Visited(m, a, k), m.Keys);
  }

  /** Once the walk meets an old node, it never leaves the nodes already met. */
  lemma {:induction false} StuckOnceRepeated<A(!new)>(m: map<A, A>, a: A, k: nat, j: nat)
    requires Closed(m) && a in m
    requires Walk(m, a, k) in Visited(m, a, k)
    ensures Walk(m, a, j) in Visited(m, a, k)
    decreases j
  {
    if j < k {
      VisitedHas(m, a, k, j);
    } else if j > k {
      StuckOnceRepeated(m, a, k, j - 1);
      var i := VisitedIndex(m, a, k, Walk(m, a, j - 1));
      WalkAdd(m, a, i, 1);
      WalkAdd(m, a, j - 1, 1);
      assert Walk(m, a, i + 1) == Walk(m, a, j);
      if i + 1 < k {
        VisitedHas(m, a, k, i + 1);
      }
    }
  }

  lemma StepsTo<A(!new)>(m: map<A, A>, a: A, c: A) returns (k: nat)
    requires Closed(m) && a in m && c in m && OneCycle(m)
    ensures Walk(m, a, k) == c
  {
    assert Reaches(m, a, c);
    k :| Walk(m, a, k) == c;
  }

  lemma RepetitionCovers<A(!new)>(m: map<A, A>, a: A, k: nat)
    requires Closed(m) && a in m && OneCycle(m)
    requires Walk(m, a, k) in Visited(m, a, k)
    ensures Visited(m, a, k) == m.Keys
  {
    forall c | c in m ensures c in Visited(m, a, k) {
      var j := StepsTo(m, a, c);
      StuckOnceRepeated(m, a, k, j);
    }
  }

  /** On one cycle, the first repetition is the return to the start, after exactly |m| steps. */
  lemma CyclePeriod<A(!new)>(m: map<A, A>, a: A, k: nat)
    requires Closed(m) && a in m && OneCycle(m)
    requires Fresh(m, a, k) && Walk(m, a, k) in Visited(m, a, k)
    ensures Visited(m, a, k) == m.Keys && k == |m.Keys|
    ensures Walk(m, a, k) == a
  {
    RepetitionCovers(m, a, k);
    FreshCounts(m, a, k);
    var i := VisitedIndex(m, a, k, Walk(m, a, k));
    if i > 0 {
      // the nodes from i onwards form a cycle that never returns to a
      var j := StepsTo(m, Walk(m, a, i), a);
      WalkAdd(m, a, i, j);
      NeverBack(m, a, i, k, i + j);
    }
  }

  /** A walk that repeats first at position k, onto position i > 0, does not come back to its start. */
  lemma {:induction false} NeverBack<A(!new)>(m: map<A, A>, a: A, i: nat, k: nat, j: nat)
    requires Closed(m) && a in m && Fresh(m, a, k)
    requires 0 < i < k && Walk(m, a, i) == Walk(m, a, k) && i <= j
    ensures Walk(m, a, j) != a
    decreases j
  {
    if j < k {
      VisitedHas(m, a, j, 0);
      FreshAt(m, a, k, j);
    } else {
      WalkAdd(m, a, k, j - k);
      WalkAdd(m, a, i, j - k);
      NeverBack(m, a, i, k, i + (j - k));
    }
  }

  /** Some position is the first repetition. */
  lemma FirstRepetition<A(!new)>(m: map<A, A>, a: A, k: nat) returns (r: nat)
    requires Closed(m) && a in m && Fresh(m, a, k)
    ensures Fresh(m, a, r) && Walk(m, a, r) in Visited(m, a, r)
    decreases |m.Keys| + 1 - k
  {
    FreshBound(m, a, k);
    if Walk(m, a, k) in Visited(m, a, k) {
      r := k;
    } else {
      FreshBound(m, a, k + 1);
      r := FirstRepetition(m, a, k + 1);
    }
  }

  /** One cycle, seen from any node: |m| different nodes and back to the start. */
  lemma CycleTour<A(!new)>(m: map<A, A>, a: A)
    requires Closed(m) && a in m && OneCycle(m)
    ensures Fresh(m, a, |m.Keys|) && Walk(m, a, |m.Keys|) == a
    ensures Visited(m, a, |m.Keys|) == m.Keys
  {
    var r := FirstRepetition(m, a, 0);
    CyclePeriod(m, a, r);
  }

  lemma {:induction false} WalkMultiple<A(!new)>(m: map<A, A>, a: A, k: nat, j: nat)
    requires Closed(m) && a in m && Walk(m, a, k) == a
    ensures Walk(m, a, j * k) == a
    decreases j
  {
    if j == 0 {
      assert 0 * k == 0;
    } else {
      assert j * k == k + (j - 1) * k;
      WalkMultiple(m, a, k, j - 1);
      WalkAdd(m, a, k, (j - 1) * k);
    }
  }

  /** Where every node reaches b, a node on any cycle is itself reached from b. */
  lemma CycleThroughAnchor<A(!new)>(m: map<A, A>, b: A, n: A, k: nat)
    requires Closed(m) && b in m && n in m && Reaches(m, n, b)
    requires k >= 1 && Walk(m, n, k) == n
    ensures Reaches(m, b, n)
  {
    var j: nat :| Walk(m, n, j) == b;
    WalkMultiple(m, n, k, j);
    assert j * k >= j by {
      assert j * k == j + j * (k - 1);
    }
    WalkAdd(m, n, j, j * k - j);
    assert Walk(m, b, j * k - j) == n;
  }
}
