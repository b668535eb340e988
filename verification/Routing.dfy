/** When lookups are exact: exact finger tables, the strides by which they route, what the cap of ten
    hops and the finger that is never repaired cost, and what repairing a finger does. */
module Routing {
  import opened Ids
  import opened Walks
  import opened Clockwise
  import opened Tiling
  import opened Lookup

  // ---------- exact finger tables ----------

  /** f is the first member at or after the target point. */
  ghost predicate FirstFrom(m: Ring, target: Id, f: Id) {
    f in m && forall y {:trigger Dist(target, y)} :: y in m ==> Dist(target, f) <= Dist(target, y)
  }

  lemma {:induction false} SomeFirst(ms: set<Id>, target: Id) returns (f: Id)
    requires ms != {}
    ensures f in ms && forall y :: y in ms ==> Dist(target, f) <= Dist(target, y)
    decreases ms
  {
    var x :| x in ms;
    if ms == {x} {
      f := x;
    } else {
      var g := SomeFirst(ms - {x}, target);
      f := if Dist(target, x) <= Dist(target, g) then x else g;
    }
  }

  lemma FirstExists(m: Ring, target: Id)
    requires m.Keys != {}
    ensures exists f :: FirstFrom(m, target, f)
  {
    var f := SomeFirst(m.Keys, target);
    assert FirstFrom(m, target, f);
  }

  /** The first member at or after a point. */
  ghost function Ahead(m: Ring, target: Id): (f: Id)
    requires m.Keys != {}
    ensures FirstFrom(m, target, f)
  {
    FirstExists(m, target);
    var f :| FirstFrom(m, target, f);
    f
  }

  lemma FirstIsUnique(m: Ring, target: Id, f: Id, g: Id)
    requires FirstFrom(m, target, f) && FirstFrom(m, target, g)
    ensures f == g
  {
    assert Dist(target, f) == Dist(target, g);
  }

  /** Fingers 1 to 159 are exact; finger 0 is never repaired and still names the node itself. */
  ghost predicate ExactTable(m: Ring, n: Id, table: seq<Id>) {
    && TableOk(m, table) && table[0] == n
    && forall i {:trigger table[i]} :: 1 <= i < BITS ==> FirstFrom(m, Plus(n, Pow2(i)), table[i])
  }

  ghost predicate Exact(net: Tables) {
    && Settled(net)
    && forall n {:trigger net.fingers[n]} :: n in net.succ ==> ExactTable(net.succ, n, net.fingers[n])
  }

  /** The ring of a set of ids: each points to the first one after it. */
  ghost function RingOf(ms: set<Id>): (m: Ring)
    requires ms != {}
    ensures m.Keys == ms
  {
    var each: Ring := map n | n in ms :: n;
    map n | n in ms :: Ahead(each, Plus(n, 1))
  }

  /** Every set of ids forms an ideal ring. */
  lemma RingOfIsIdeal(ms: set<Id>)
    requires ms != {}
    ensures Ideal(RingOf(ms))
  {
    var m := RingOf(ms);
    forall n | n in m ensures Hop(m, n) in m {
    }
    forall n, y | n in m && y in m ensures Span(n, Hop(m, n)) <= Span(n, y) {
      NextIsNearest(map k: Id | k in ms :: k, n, Hop(m, n), y);
    }
  }

  lemma NextIsNearest(m: Ring, n: Id, f: Id, y: Id)
    requires FirstFrom(m, Plus(n, 1), f) && y in m
    ensures Span(n, f) <= Span(n, y)
  {
    assert Dist(Plus(n, 1), f) <= Dist(Plus(n, 1), y);
  }

  /** The tables every node of a ring ends up with when all its repairs find what they should. */
  ghost function ExactTables(m: Ring): Tables
    requires m.Keys != {}
  {
    Tables(m, map n | n in m :: seq(BITS, (i: nat) => if i == 0 then n else Ahead(m, Plus(n, Pow2(i)))))
  }

  /** Every ideal ring has exact tables. */
  lemma IdealHasExactTables(m: Ring)
    requires Ideal(m) && m.Keys != {}
    ensures Exact(ExactTables(m))
  {
    var net := ExactTables(m);
    forall n | n in m ensures ExactTable(m, n, net.fingers[n]) {
      forall i | 0 <= i < BITS ensures net.fingers[n][i] in m {
        assert i > 0 ==> FirstFrom(m, Plus(n, Pow2(i)), net.fingers[n][i]);
      }
    }
  }

  /** The index of the highest bit. */
  ghost function Log2(d: nat): (i: nat)
    requires d >= 1
    ensures Pow2(i) <= d < Pow2(i + 1)
  {
    if d == 1 then 0 else 1 + Log2(d / 2)
  }

  lemma HighBitIsUnique(d: nat, i: nat, k: nat)
    requires Pow2(i) <= d < Pow2(i + 1) && Pow2(k) <= d < Pow2(k + 1)
    ensures i == k
  {
    if k < i {
      Pow2Monotone(k + 1, i);
    } else if i < k {
      Pow2Monotone(i + 1, k);
    }
  }

  lemma Log2Drops(d: nat, e: nat)
    requires d >= 1 && 1 <= e < Pow2(Log2(d))
    ensures Log2(e) < Log2(d)
  {
    if Log2(e) >= Log2(d) {
      Pow2Monotone(Log2(d), Log2(e));
    }
  }

  lemma Log2Below(d: nat)
    requires 1 <= d < RING
    ensures Log2(d) < BITS
  {
    RingIsPow2();
    if Log2(d) >= BITS {
      Pow2Monotone(BITS, Log2(d));
    }
  }

  /** An entry whose target is no farther than member q lies between the target and q. */
  lemma EntryWithin(m: Ring, at: Id, q: Id, step: nat, f: Id)
    requires q in m && q != at && step <= Dist(at, q) && FirstFrom(m, Plus(at, step), f)
    ensures step <= Dist(at, f) <= Dist(at, q)
  {
    DistPlus(at, step);
    assert Dist(Plus(at, step), f) <= Dist(Plus(at, step), q);
  }

  /** An entry whose target is beyond q is of no use when no member lies in (q, id). */
  lemma EntryBeyond(m: Ring, at: Id, q: Id, id: Id, step: nat, f: Id)
    requires at in m && Dist(at, q) < step < RING && FirstFrom(m, Plus(at, step), f)
    requires at != id && Dist(at, q) <= Dist(at, id)
    requires forall y {:trigger Dist(at, y)} ::
               y in m && y != at && Dist(at, y) <= Dist(at, id) ==> Dist(at, y) <= Dist(at, q)
    ensures !IsBetween(f, at, id)
  {
    DistPlus(at, step);
    assert Dist(Plus(at, step), f) <= Dist(Plus(at, step), at);
    assert f != at && Dist(at, f) <= Dist(at, id) ==> Dist(at, f) <= Dist(at, q);
  }

  /** The entry a node picks is the one at the highest bit of the distance to q, the last member
      that is not past id. */
  lemma PickedEntry(m: Ring, at: Id, q: Id, id: Id, table: seq<Id>)
    requires at in m && q in m && at != q && at != id && ExactTable(m, at, table)
    requires Dist(at, q) <= Dist(at, id) && Dist(at, q) >= 2
    requires forall y {:trigger Dist(at, y)} ::
               y in m && y != at && Dist(at, y) <= Dist(at, id) ==> Dist(at, y) <= Dist(at, q)
    ensures var i := Log2(Dist(at, q));
            && 1 <= i < BITS
            && Closest(table, at, id, BITS) == table[i]
            && Pow2(i) <= Dist(at, table[i]) <= Dist(at, q)
  {
    var d := Dist(at, q);
    var i := Log2(d);
    Log2Below(d);
    assert i >= 1 by {
      assert Pow2(1) == 2;
    }
    EntryWithin(m, at, q, Pow2(i), table[i]);
    RingIsPow2();
    forall j | i < j < BITS ensures !IsBetween(table[j], at, id) {
      Pow2Monotone(i + 1, j);
      Pow2Monotone(j, BITS - 1);
      assert Pow2(BITS) == 2 * Pow2(BITS - 1);
      EntryBeyond(m, at, q, id, Pow2(j), table[j]);
    }
    ClosestIs(table, at, id, BITS, i);
  }

  // ---------- routing by halves ----------

  /** The first member at least half-way, by the highest bit of the distance, from at to p. It
      depends on the membership alone. */
  ghost function Stride(m: Ring, at: Id, p: Id): (f: Id)
    requires at in m && p in m && at != p
    ensures f in m && 0 < Dist(at, f) && Dist(at, f) + Dist(f, p) == Dist(at, p)
    ensures Dist(f, p) < Pow2(Log2(Dist(at, p)))
  {
    var i := Log2(Dist(at, p));
    var f := Ahead(m, Plus(at, Pow2(i)));
    EntryWithin(m, at, p, Pow2(i), f);
    assert Pow2(i + 1) == 2 * Pow2(i);
    f
  }

  /** How many strides lead from at to p. */
  ghost function Hops(m: Ring, at: Id, p: Id): nat
    requires at in m && p in m
    decreases Dist(at, p)
  {
    if at == p then 0 else 1 + Hops(m, Stride(m, at, p), p)
  }

  /** None of the strides from at to p starts right next to p, where no repaired finger points. */
  ghost predicate Lands(m: Ring, at: Id, p: Id)
    requires at in m && p in m
    decreases Dist(at, p)
  {
    at == p || (Dist(at, p) >= 2 && Lands(m, Stride(m, at, p), p))
  }

  lemma MembersUpTo(m: Ring, at: Id, p: Id, id: Id)
    requires Ideal(m) && at in m && id !in m && Precedes(m, p, id) && at != p
    ensures Dist(at, p) <= Dist(at, id)
    ensures forall y {:trigger Dist(at, y)} ::
              y in m && y != at && Dist(at, y) <= Dist(at, id) ==> Dist(at, y) <= Dist(at, p)
  {
    PrecedesIsNearest(m, p, id, at);
    forall y | y in m && y != at && Dist(at, y) <= Dist(at, id) ensures Dist(at, y) <= Dist(at, p) {
      PrecedesIsNearest(m, p, id, y);
    }
  }

  lemma EntryIsStride(m: Ring, at: Id, p: Id, table: seq<Id>)
    requires at in m && p in m && at != p && ExactTable(m, at, table)
    requires 1 <= Log2(Dist(at, p)) < BITS
    ensures table[Log2(Dist(at, p))] == Stride(m, at, p)
  {
    var i := Log2(Dist(at, p));
    FirstIsUnique(m, Plus(at, Pow2(i)), table[i], Ahead(m, Plus(at, Pow2(i))));
  }

  /** One hop from a node two or more before the predecessor is one stride: it moves to a member up
      to the predecessor, and the distance left loses its highest bit. */
  lemma HopHalves(net: Tables, at: Id, p: Id, id: Id)
    requires Exact(net) && at in net.succ && id !in net.succ && Precedes(net.succ, p, id)
    requires Dist(at, p) >= 2
    ensures !Arrived(net, at, id)
    ensures var f := NextHop(net, at, id);
            && f == Stride(net.succ, at, p) && f != at
            && Dist(at, f) + Dist(f, p) == Dist(at, p)
            && Dist(f, p) < Pow2(Log2(Dist(at, p)))
  {
    if Arrived(net, at, id) {
      ArrivedAtPredecessor(net, at, id, p);
    }
    MembersUpTo(net.succ, at, p, id);
    PickedEntry(net.succ, at, p, id, net.fingers[at]);
    EntryIsStride(net.succ, at, p, net.fingers[at]);
  }

  /** Right before the predecessor a search for an id behind it is stuck: no repaired finger reaches
      the next node. */
  lemma NeighbourIsUnreachable(net: Tables, at: Id, p: Id, id: Id)
    requires Exact(net) && at in net.succ && id !in net.succ && Precedes(net.succ, p, id)
    requires Dist(at, p) == 1
    ensures Trail(net, at, id) == [at]
  {
    var m, table := net.succ, net.fingers[at];
    RingIsPow2();
    MembersUpTo(m, at, p, id);
    forall j | 0 <= j < BITS ensures !IsBetween(table[j], at, id) {
      if j > 0 {
        Pow2Monotone(1, j);
        Pow2Monotone(j, BITS - 1);
        assert Pow2(BITS) == 2 * Pow2(BITS - 1) && Pow2(1) == 2;
        EntryBeyond(m, at, p, id, Pow2(j), table[j]);
      }
    }
    ClosestNone(table, at, id, BITS);
  }

  lemma StopsAtPredecessor(net: Tables, p: Id, id: Id)
    requires Settled(net) && id !in net.succ && Precedes(net.succ, p, id)
    ensures Trail(net, p, id) == [p]
  {
    if |net.succ.Keys| >= 2 {
      PrecedesIsBetween(net.succ, p, id);
    } else {
      var next := NextHop(net, p, id);
      assert net.succ.Keys == {p} by {
        assert |net.succ.Keys - {p}| == 0;
      }
    }
  }

  /** On exact tables the trail of a non-member id is the strides to its predecessor: it ends there
      exactly when they land, and then has as many hops. */
  lemma {:induction false} ExactTrail(net: Tables, at: Id, p: Id, id: Id)
    requires Exact(net) && at in net.succ && id !in net.succ && Precedes(net.succ, p, id)
    ensures TrailEndsAt(net, at, id, p) <==> Lands(net.succ, at, p)
    ensures Lands(net.succ, at, p) ==> TrailHops(net, at, id) == Hops(net.succ, at, p)
    decreases Span(at, id)
  {
    if at == p {
      StopsAtPredecessor(net, p, id);
    } else if Dist(at, p) == 1 {
      NeighbourIsUnreachable(net, at, p, id);
    } else {
      HopHalves(net, at, p, id);
      var f := NextHop(net, at, id);
      ExactTrail(net, f, p, id);
      assert Trail(net, at, id) == [at] + Trail(net, f, id);
    }
  }

  // ---------- when a lookup is exact ----------

  lemma SuccessorIsFirst(m: Ring, p: Id, id: Id)
    requires Ideal(m) && id !in m && Precedes(m, p, id)
    ensures FirstFrom(m, id, Hop(m, p))
  {
    forall y | y in m ensures Dist(id, Hop(m, p)) <= Dist(id, y) {
      assert Span(p, Hop(m, p)) <= Span(p, y);
      PrecedesIsNearest(m, p, id, y);
    }
  }

  /** On an ideal ring, only the true predecessor has the right successor. */
  lemma OnlyThePredecessor(m: Ring, r: Id, p: Id, id: Id)
    requires Ideal(m) && r in m && id !in m && Precedes(m, p, id)
    ensures FirstFrom(m, id, Hop(m, r)) <==> r == p
  {
    SuccessorIsFirst(m, p, id);
    if FirstFrom(m, id, Hop(m, r)) && r != p {
      FirstIsUnique(m, id, Hop(m, r), Hop(m, p));
      IdealIsInjective(m, r, p);
    }
  }

  lemma SearchByStrides(net: Tables, self: Id, id: Id, p: Id)
    requires Exact(net) && self in net.succ && id !in net.succ && Precedes(net.succ, p, id)
    ensures Search(net, self, self, id, 0, {}) == p <==>
            Lands(net.succ, self, p) && Hops(net.succ, self, p) <= MAX_RETRIES
  {
    ExactTrail(net, self, p, id);
    SearchExactness(net, self, self, id, p, 0);
  }

  /** find_successor, cap and all, on an ideal ring with exact fingers: for a non-member id the answer
      is the first member at or after it if and only if the strides to the predecessor land and are
      at most ten. */
  lemma LookupExactness(net: Tables, self: Id, id: Id, p: Id)
    requires Exact(net) && self in net.succ && id !in net.succ && Precedes(net.succ, p, id)
    ensures FirstFrom(net.succ, id, FoundSuccessor(net, self, id)) <==>
            Lands(net.succ, self, p) && Hops(net.succ, self, p) <= MAX_RETRIES
  {
    SearchByStrides(net, self, id, p);
    SearchInside(net, self, self, id, 0, {});
    OnlyThePredecessor(net.succ, Search(net, self, self, id, 0, {}), p, id);
  }

  /** The members passed on the way from a to p, p included. */
  ghost function Passed(m: Ring, a: Id, p: Id): set<Id> {
    set y | y in m.Keys && 0 < Dist(a, y) <= Dist(a, p)
  }

  lemma PassedShrinks(m: Ring, at: Id, f: Id, p: Id)
    requires f in m && f != at && Dist(at, f) + Dist(f, p) == Dist(at, p)
    ensures |Passed(m, f, p)| < |Passed(m, at, p)|
  {
    assert f in Passed(m, at, p);
    assert Passed(m, f, p) <= Passed(m, at, p) - {f};
    SubsetSize(Passed(m, f, p), Passed(m, at, p) - {f});
  }

  /** No two members are adjacent unless a third follows right behind. */
  ghost predicate Spaced(m: Ring) {
    forall n {:trigger Plus(n, 1)} :: n in m && Plus(n, 1) in m ==> Plus(n, 2) in m
  }

  /** Where members are spaced, strides to a member with free space behind it always land; they are
      no more than the members passed, and no more than the bits below the highest one. */
  lemma {:induction false} SpacedLands(m: Ring, at: Id, p: Id)
    requires Spaced(m) && at in m && p in m && Plus(p, 1) !in m
    ensures Lands(m, at, p)
    ensures Hops(m, at, p) <= |Passed(m, at, p)|
    ensures at != p ==> Hops(m, at, p) <= Log2(Dist(at, p))
    decreases Dist(at, p)
  {
    if at != p {
      assert Plus(at, 2) == Plus(Plus(at, 1), 1);
      assert p != Plus(at, 1);
      var f := Stride(m, at, p);
      SpacedLands(m, f, p);
      PassedShrinks(m, at, f, p);
      if f != p {
        Log2Drops(Dist(at, p), Dist(f, p));
      } else {
        assert Log2(Dist(at, p)) >= 1;
      }
    }
  }

  lemma FreeSpaceBehind(m: Ring, p: Id, id: Id)
    requires Ideal(m) && id !in m && Precedes(m, p, id)
    ensures Plus(p, 1) !in m
  {
    var next := Plus(p, 1);
    DistPlus(p, 1);
    assert next in m ==> Span(p, Hop(m, p)) <= Span(p, next);
  }

  /** On an ideal ring with exact fingers whose members are at least two apart, the lookup of a
      non-member id is exact whenever the smaller of the bits to clear and the members to pass is at
      most ten: the result is the first member at or after the id. */
  lemma LookupIsExact(net: Tables, self: Id, id: Id, p: Id)
    requires Exact(net) && Spaced(net.succ) && self in net.succ && id !in net.succ
    requires Precedes(net.succ, p, id)
    requires self == p || Log2(Dist(self, p)) <= MAX_RETRIES || |Passed(net.succ, self, p)| <= MAX_RETRIES
    ensures Search(net, self, self, id, 0, {}) == p
    ensures FirstFrom(net.succ, id, FoundSuccessor(net, self, id))
  {
    FreeSpaceBehind(net.succ, p, id);
    SpacedLands(net.succ, self, p);
    SearchByStrides(net, self, id, p);
    SuccessorIsFirst(net.succ, p, id);
  }

  /** Rings of at most eleven members never need the cap. */
  lemma SmallRingLookup(net: Tables, self: Id, id: Id)
    requires Exact(net) && Spaced(net.succ) && self in net.succ && id !in net.succ
    requires |net.succ.Keys| <= 11
    ensures FirstFrom(net.succ, id, FoundSuccessor(net, self, id))
  {
    var p := PredecessorOf(net.succ, id);
    assert self !in Passed(net.succ, self, p);
    SubsetSize(Passed(net.succ, self, p), net.succ.Keys - {self});
    LookupIsExact(net, self, id, p);
  }

  ghost predicate LookedUp(net: Tables, self: Id, id: Id) {
    Wired(net) && self in net.succ && FirstFrom(net.succ, id, FoundSuccessor(net, self, id))
  }

  /** No member with free space behind it is more than ten strides from another. */
  ghost predicate Shallow(m: Ring) {
    forall at, p {:trigger Hops(m, at, p)} :: at in m && p in m && Plus(p, 1) !in m ==> Hops(m, at, p) <= MAX_RETRIES
  }

  /** Exact tables, finger 0 never repaired, ten hops at most: every lookup of a non-member id from
      every member is exact if and only if no two members are adjacent without a third right behind
      them and no member with free space behind it is more than ten strides away. */
  lemma ExactRoutingNeedsSpace(net: Tables)
    requires Exact(net)
    ensures (forall self, id :: self in net.succ && id !in net.succ ==> LookedUp(net, self, id)) <==>
            Spaced(net.succ) && Shallow(net.succ)
  {
    var m := net.succ;
    if forall self, id :: self in m && id !in m ==> LookedUp(net, self, id) {
      forall self, p | self in m && p in m && Plus(p, 1) !in m
        ensures Lands(m, self, p) && Hops(m, self, p) <= MAX_RETRIES
      {
        RightBehind(m, p);
        assert LookedUp(net, self, Plus(p, 1));
        LookupExactness(net, self, Plus(p, 1), p);
      }
      forall n | n in m && Plus(n, 1) in m ensures Plus(n, 2) in m {
        DistPlus(n, 1);
        assert Plus(Plus(n, 1), 1) == Plus(n, 2);
      }
    }
    if Spaced(m) && Shallow(m) {
      forall self, id | self in m && id !in m ensures LookedUp(net, self, id) {
        var p := PredecessorOf(m, id);
        FreeSpaceBehind(m, p, id);
        SpacedLands(m, self, p);
        LookupExactness(net, self, id, p);
      }
    }
  }

  lemma RightBehind(m: Ring, p: Id)
    requires Ideal(m) && p in m
    ensures Precedes(m, p, Plus(p, 1))
  {
    DistPlus(p, 1);
    assert Hop(m, p) in m;
  }

  // ---------- looking up a member's own id ----------

  /** The distances from v to p and to id have their highest bit in common. */
  ghost predicate SameBit(v: Id, p: Id, id: Id)
    requires v != p && v != id
  {
    Log2(Dist(v, p)) == Log2(Dist(v, id))
  }

  /** A node two or more members before a member id hops right onto that id when the distances to it
      and to its predecessor differ in the highest bit, and else one stride towards the predecessor. */
  lemma HopOntoMember(net: Tables, at: Id, p: Id, id: Id)
    requires Exact(net) && at in net.succ && p in net.succ && id == Hop(net.succ, p)
    requires at != p && at != id && p != id
    ensures !Arrived(net, at, id)
    ensures NextHop(net, at, id) == if SameBit(at, p, id) then Stride(net.succ, at, p) else id
  {
    var m, table := net.succ, net.fingers[at];
    assert Span(p, id) <= Span(p, at);
    assert Span(at, Hop(m, at)) <= Span(at, p);
    PickedEntry(m, at, id, id, table);
    var i := Log2(Dist(at, id));
    if Pow2(i) <= Dist(at, p) {
      HighBitIsUnique(Dist(at, p), i, Log2(Dist(at, p)));
      EntryIsStride(m, at, p, table);
    } else {
      var f := table[i];
      assert f in m && Span(p, id) <= Span(p, f);
    }
  }

  ghost predicate BitsShared(m: Ring, p: Id, id: Id) {
    forall v {:trigger SameBit(v, p, id)} :: v in m && v != p && v != id ==> SameBit(v, p, id)
  }

  lemma StrideStopsShort(m: Ring, at: Id, p: Id, id: Id)
    requires Ideal(m) && at in m && p in m && id == Hop(m, p) && at != p && at != id && p != id
    ensures Stride(m, at, p) != id
  {
    assert Span(p, id) <= Span(p, at);
  }

  lemma {:induction false} MemberSearch(net: Tables, self: Id, at: Id, p: Id, id: Id, retry: nat)
    requires Exact(net) && at in net.succ && p in net.succ && id == Hop(net.succ, p) && p != id && at != id
    requires BitsShared(net.succ, p, id) && retry <= MAX_RETRIES
    ensures Search(net, self, at, id, retry, {}) == p <==> Hops(net.succ, at, p) <= MAX_RETRIES - retry
    decreases MAX_RETRIES - retry
  {
    if at == p {
      assert Arrived(net, p, id);
    } else {
      assert SameBit(at, p, id);
      HopOntoMember(net, at, p, id);
      var f := Stride(net.succ, at, p);
      StrideStopsShort(net.succ, at, p, id);
      if retry < MAX_RETRIES {
        MemberSearch(net, self, f, p, id, retry + 1);
      }
    }
  }

  /** The lookup of a member's own id from `at` answers with that member. */
  ghost predicate FindsMember(net: Tables, at: Id, id: Id) {
    Wired(net) && at in net.succ && FoundSuccessor(net, at, id) == id
  }

  /** p is within ten strides of every member but id. */
  ghost predicate NearTo(m: Ring, p: Id, id: Id) {
    p in m && forall at {:trigger Hops(m, at, p)} :: at in m && at != id ==> Hops(m, at, p) <= MAX_RETRIES
  }

  /** The lookup of a member's own id on exact tables, cap and all: it is exact from every other
      member if and only if no power of two separates the id from its predecessor, seen from any of
      them, and the predecessor is within ten strides of each; from the member itself it never is. */
  lemma MemberLookupExactness(net: Tables, p: Id, id: Id)
    requires Exact(net) && p in net.succ && id == Hop(net.succ, p) && p != id
    ensures (forall at :: at in net.succ && at != id ==> FindsMember(net, at, id)) <==>
            BitsShared(net.succ, p, id) && NearTo(net.succ, p, id)
    ensures !FindsMember(net, id, id)
  {
    var m := net.succ;
    StuckOnItself(net, id, id, 0);
    NotItsOwn(m, id, p);
    if BitsShared(m, p, id) {
      forall at | at in m && at != id
        ensures FindsMember(net, at, id) <==> Hops(m, at, p) <= MAX_RETRIES
      {
        MemberLookup(net, at, p, id);
      }
    } else {
      var v :| v in m && v != p && v != id && !SameBit(v, p, id);
      MemberMissed(net, v, p, id);
    }
  }

  lemma NotItsOwn(m: Ring, n: Id, y: Id)
    requires Ideal(m) && n in m && y in m && y != n
    ensures Hop(m, n) != n
  {
    assert Span(n, Hop(m, n)) <= Span(n, y);
  }

  lemma MemberLookup(net: Tables, at: Id, p: Id, id: Id)
    requires Exact(net) && at in net.succ && p in net.succ && id == Hop(net.succ, p) && p != id && at != id
    requires BitsShared(net.succ, p, id)
    ensures FindsMember(net, at, id) <==> Hops(net.succ, at, p) <= MAX_RETRIES
  {
    MemberSearch(net, at, at, p, id, 0);
    SearchInside(net, at, at, id, 0, {});
    var r := Search(net, at, at, id, 0, {});
    if r != p {
      IdealIsInjective(net.succ, r, p);
    }
  }

  lemma MemberMissed(net: Tables, v: Id, p: Id, id: Id)
    requires Exact(net) && v in net.succ && p in net.succ && id == Hop(net.succ, p)
    requires v != p && v != id && p != id && !SameBit(v, p, id)
    ensures !FindsMember(net, v, id)
  {
    NotItsOwn(net.succ, id, p);
    HopOntoMember(net, v, p, id);
    StuckOnItself(net, v, id, 1);
    assert Search(net, v, v, id, 0, {}) == id;
  }

  /** A search that has come to stand on its own target stays there. */
  lemma StuckOnItself(net: Tables, self: Id, id: Id, retry: nat)
    requires Exact(net) && id in net.succ && retry <= MAX_RETRIES
    ensures Search(net, self, id, id, retry, {}) == id
  {
    assert NextHop(net, id, id) == id;
  }

  // ---------- fix_fingers ----------

  /** fix_fingers for index i: the entry becomes what a lookup of n + 2^i returns. */
  ghost function FixedEntry(net: Tables, n: Id, i: nat): Id
    requires Wired(net) && n in net.succ && 1 <= i < BITS
  {
    FoundSuccessor(net, n, Plus(n, Pow2(i)))
  }

  /** A lookup of a member's own id that is not the start's successor walks straight onto that
      member and stops there, so the answer is the member after it. */
  lemma MemberTargetOvershoots(net: Tables, n: Id, i: nat)
    requires Exact(net) && n in net.succ && 1 <= i < BITS
    requires Plus(n, Pow2(i)) in net.succ && Plus(n, Pow2(i)) != Hop(net.succ, n)
    ensures FixedEntry(net, n, i) == Hop(net.succ, Plus(n, Pow2(i)))
  {
    var m, t, table := net.succ, Plus(n, Pow2(i)), net.fingers[n];
    TargetDistance(n, i);
    assert Span(n, Hop(m, n)) <= Span(n, t);
    assert !Arrived(net, n, t);
    assert Dist(n, t) == Pow2(i) && Log2(Pow2(i)) == i by {
      Log2OfPow2(i);
    }
    assert Pow2(i) >= 2 by {
      Pow2Monotone(1, i);
      assert Pow2(1) == 2;
    }
    PickedEntry(m, n, t, t, table);
    assert NextHop(net, n, t) == table[i] == t;
    assert !Arrived(net, t, t);
    assert NextHop(net, t, t) == t;
    assert Search(net, n, t, t, 1, {}) == t;
    assert Search(net, n, n, t, 0, {}) == t;
  }

  /** So an exact entry for such a target is replaced by a wrong one. */
  lemma RepairBreaksEntry(net: Tables, n: Id, i: nat, t: Id)
    requires Exact(net) && n in net.succ && 1 <= i < BITS
    requires t == Plus(n, Pow2(i)) && t in net.succ && t != Hop(net.succ, n)
    ensures net.fingers[n][i] == t
    ensures FixedEntry(net, n, i) == Hop(net.succ, t) && !FirstFrom(net.succ, t, Hop(net.succ, t))
  {
    MemberTargetOvershoots(net, n, i);
    TargetDistance(n, i);
    FirstIsUnique(net.succ, t, net.fingers[n][i], t);
    NotItsOwn(net.succ, t, n);
    assert Dist(t, t) < Dist(t, Hop(net.succ, t));
  }

  lemma TargetDistance(n: Id, i: nat)
    requires i < BITS
    ensures Pow2(i) < RING && Dist(n, Plus(n, Pow2(i))) == Pow2(i)
  {
    RingIsPow2();
    Pow2Monotone(i, BITS - 1);
    assert Pow2(BITS) == 2 * Pow2(BITS - 1);
    DistPlus(n, Pow2(i));
  }

  lemma Log2OfPow2(i: nat)
    ensures Log2(Pow2(i)) == i
  {
    HighBitIsUnique(Pow2(i), i, Log2(Pow2(i)));
  }

  /** The target t of a finger of n, with predecessor p, is the successor of n, or is no member's id and
      within ten strides that land. */
  ghost predicate RepairIsSafe(m: Ring, n: Id, p: Id, t: Id)
    requires n in m && p in m
  {
    t == Hop(m, n) || (t !in m && Lands(m, n, p) && Hops(m, n, p) <= MAX_RETRIES)
  }

  /** Repairing finger i of exact tables keeps it exact if and only if its target is the own
      successor, or is no member's id and the strides to its predecessor land and are at most ten;
      otherwise an exact entry is replaced by a wrong one. */
  lemma FixFingerKeepsExactness(net: Tables, n: Id, i: nat, p: Id)
    requires Exact(net) && n in net.succ && 1 <= i < BITS && Precedes(net.succ, p, Plus(n, Pow2(i)))
    ensures FirstFrom(net.succ, Plus(n, Pow2(i)), FixedEntry(net, n, i)) <==>
            RepairIsSafe(net.succ, n, p, Plus(n, Pow2(i)))
  {
    var m, t := net.succ, Plus(n, Pow2(i));
    TargetDistance(n, i);
    if t !in m {
      LookupExactness(net, n, t, p);
    } else if t == Hop(m, n) {
      assert Search(net, n, n, t, 0, {}) == n;
    } else {
      RepairBreaksEntry(net, n, i, t);
    }
  }

  /** The entry f of node n for target t is exact just when its repair was safe. */
  ghost predicate RightIfSafe(m: Ring, n: Id, t: Id, f: Id)
    requires n in m
  {
    forall p {:trigger Precedes(m, p, t)} :: Precedes(m, p, t) ==> (FirstFrom(m, t, f) <==> RepairIsSafe(m, n, p, t))
  }

  lemma RepairIsRightIfSafe(net: Tables, n: Id, i: nat)
    requires Exact(net) && n in net.succ && 1 <= i < BITS
    ensures RightIfSafe(net.succ, n, Plus(n, Pow2(i)), FixedEntry(net, n, i))
  {
    var t := Plus(n, Pow2(i));
    forall p | Precedes(net.succ, p, t)
      ensures FirstFrom(net.succ, t, FixedEntry(net, n, i)) <==> RepairIsSafe(net.succ, n, p, t)
    {
      FixFingerKeepsExactness(net, n, i, p);
    }
  }

  // ---------- rings on which exact tables are not enough ----------

  /** Two adjacent members 0 and 1: from 0, the id 2 is looked up as 1 and not as 0, although every
      table is exact. */
  lemma AdjacentMembersFail()
    ensures var m: Ring := map[0 := 1, 1 := 0];
            && m.Keys == {0, 1} && Exact(ExactTables(m)) && !Spaced(m)
            && FoundSuccessor(ExactTables(m), 0, 2) == 1 && !FirstFrom(m, 2, 1)
  {
    var m: Ring := map[0 := 1, 1 := 0];
    assert Hop(m, 0) == 1 && Hop(m, 1) == 0;
    IdealHasExactTables(m);
    assert Plus(0, 1) == 1 && Plus(0, 2) == 2;
    NeighbourIsUnreachable(ExactTables(m), 0, 1, 2);
    SearchIsCutTrail(ExactTables(m), 0, 0, 2, 0);
    assert Dist(2, 0) < Dist(2, 1);
  }

  /** The members 4095 and 4096 - 2^j for j from 2 to k: towards 4095, each one's stride leads just to
      the next. */
  ghost function Chain(k: nat): set<int> {
    if k <= 1 then {4095} else Chain(k - 1) + {4096 - Pow2(k)}
  }

  lemma {:induction false} ChainWithin(k: nat)
    requires k >= 1
    ensures forall y :: y in Chain(k) ==> 4096 - Pow2(k) <= y <= 4095 && (y == 4095 || y % 4 == 0)
  {
    if k >= 2 {
      ChainWithin(k - 1);
      var quarter: int := Pow2(k - 2);
      assert 4096 - Pow2(k) == 4 * (1024 - quarter);
    }
  }

  lemma {:induction false} ChainIs(k: nat)
    requires k >= 1
    ensures |Chain(k)| == k && 4095 in Chain(k)
    ensures forall j :: 2 <= j <= k ==> 4096 - Pow2(j) in Chain(k)
  {
    if k >= 2 {
      ChainIs(k - 1);
      ChainWithin(k - 1);
      assert 4096 - Pow2(k) !in Chain(k - 1);
    }
  }

  lemma ChainStride(m: Ring, i: nat, at: Id, f: Id)
    requires at == 4096 - Pow2(i + 1) && i >= 1 && 4095 in m && at in m
    requires FirstFrom(m, 4096 - Pow2(i), f)
    ensures at != 4095 && Stride(m, at, 4095) == f
  {
    assert Dist(at, 4095) == 2 * Pow2(i) - 1;
    HighBitIsUnique(Dist(at, 4095), i, Log2(Dist(at, 4095)));
    assert Plus(at, Pow2(i)) == 4096 - Pow2(i);
    FirstIsUnique(m, 4096 - Pow2(i), f, Stride(m, at, 4095));
  }

  lemma {:induction false} ChainHops(m: Ring, k: nat, at: Id)
    requires k >= 2 && at == 4096 - Pow2(k) && 4095 in m && 4094 !in m
    requires forall j :: 2 <= j <= k ==> 4096 - Pow2(j) in m
    ensures at in m && Hops(m, at, 4095) == k - 1
  {
    assert at in m;
    if k == 2 {
      assert Pow2(1) == 2;
      ChainStride(m, 1, at, 4095);
      assert Hops(m, 4095, 4095) == 0;
    } else {
      ChainHops(m, k - 1, 4096 - Pow2(k - 1));
      ChainStride(m, k - 1, at, 4096 - Pow2(k - 1));
    }
  }

  lemma ChainIsSpaced(m: Ring, k: nat)
    requires k >= 1 && m.Keys == Chain(k) && Pow2(k) <= 4096
    ensures Spaced(m) && 4094 !in m && 4096 !in m
  {
    ChainWithin(k);
    forall n | n in m ensures Plus(n, 1) !in m {
      assert 0 <= n <= 4095 && (n == 4095 || n % 4 == 0);
      assert Plus(n, 1) == n + 1;
    }
  }

  /** An ideal ring of k members, none of them adjacent, with k - 1 strides between two of them. */
  lemma DeepRing(k: nat) returns (m: Ring, at: Id, p: Id)
    requires k >= 2 && Pow2(k) <= 4096
    ensures Ideal(m) && Spaced(m) && |m.Keys| == k
    ensures at in m && p in m && Plus(p, 1) !in m && Hops(m, at, p) == k - 1
  {
    ChainIs(k);
    ChainWithin(k);
    var ms: set<Id> := Chain(k);
    RingOfIsIdeal(ms);
    m, at, p := RingOf(ms), 4096 - Pow2(k), 4095;
    ChainIsSpaced(m, k);
    ChainHops(m, k, at);
  }

  /** Eleven is as far as it goes: twelve members with exact tables, none of them adjacent, and a
      lookup that the cap cuts one hop short. */
  lemma TwelveCanBeTooMany() returns (net: Tables, self: Id, id: Id)
    ensures Exact(net) && Spaced(net.succ) && |net.succ.Keys| == 12
    ensures self in net.succ && id !in net.succ && !LookedUp(net, self, id)
  {
    var m, p;
    assert Pow2(12) == 4096;
    m, self, p := DeepRing(12);
    IdealHasExactTables(m);
    net, id := ExactTables(m), Plus(p, 1);
    RightBehind(m, p);
    LookupExactness(net, self, id, p);
  }

  function ThreeRing(): (m: Ring)
    ensures m.Keys == {0, 4, 8}
  {
    map[0 := 4, 4 := 8, 8 := 0]
  }

  lemma ThreeRingTables() returns (net: Tables)
    ensures net.succ == ThreeRing() && Exact(net) && Hop(net.succ, 0) == 4 && Hop(net.succ, 8) == 0
  {
    var m := ThreeRing();
    assert Hop(m, 0) == 4 && Hop(m, 4) == 8 && Hop(m, 8) == 0;
    IdealHasExactTables(m);
    net := ExactTables(m);
  }

  /** Three members 0, 4 and 8: repairing the exact finger 3 of node 0, whose target is member 8,
      makes it wrong. */
  lemma FixFingerFails() returns (net: Tables)
    ensures net.succ == ThreeRing() && Exact(net) && net.fingers[0][3] == 8
    ensures FixedEntry(net, 0, 3) == 0 && !FirstFrom(net.succ, 8, 0)
  {
    net := ThreeRingTables();
    assert Pow2(3) == 8;
    RepairBreaksEntry(net, 0, 3, 8);
  }
}
