/** Key lookup on a ring at rest, with any finger tables: the hop-by-hop search, its cap of ten hops
    and its failing calls. */
module Lookup {
  import opened Ids
  import opened Walks
  import opened Clockwise
  import opened Tiling
  import opened Wrappers

  const MAX_RETRIES: nat := 10

  /** Successors and finger tables of all members, none of them changing. */
  datatype Tables = Tables(succ: Ring, fingers: map<Id, seq<Id>>)

  /** Every member has a successor and a table of 160 fingers, all of them members. */
  ghost predicate Wired(net: Tables) {
    && Closed(net.succ) && net.fingers.Keys == net.succ.Keys
    && forall n {:trigger net.fingers[n]} :: n in net.succ ==> TableOk(net.succ, net.fingers[n])
  }

  /** Wired, and the ring is ideal. */
  ghost predicate Settled(net: Tables) {
    Wired(net) && Ideal(net.succ) && net.succ.Keys != {}
  }

  ghost predicate TableOk(m: Ring, table: seq<Id>) {
    |table| == BITS && forall i :: 0 <= i < BITS ==> table[i] in m
  }

  // ---------- closest_preceding_node ----------

  /** The entry of highest index below `top` that lies in (self, id], else self. */
  function Closest(table: seq<Id>, self: Id, id: Id, top: nat): Id
    requires top <= |table|
  {
    if top == 0 then self
    else if IsBetween(table[top - 1], self, id) then table[top - 1]
    else Closest(table, self, id, top - 1)
  }

  method ClosestPrecedingNode(table: seq<Id>, self: Id, id: Id) returns (r: Id)
    ensures r == Closest(table, self, id, if |table| < BITS then |table| else BITS)
    ensures var top := if |table| < BITS then |table| else BITS;
            || (r == self && forall j :: 0 <= j < top ==> !IsBetween(table[j], self, id))
            || exists i :: 0 <= i < top && r == table[i] && IsBetween(table[i], self, id) &&
                           forall j :: i < j < top ==> !IsBetween(table[j], self, id)
  {
    var top := if |table| < BITS then |table| else BITS;
    for i := top downto 0
      invariant Closest(table, self, id, top) == Closest(table, self, id, i)
      invariant forall j :: i <= j < top ==> !IsBetween(table[j], self, id)
    {
      if IsBetween(table[i], self, id) {
        return table[i];
      }
    }
    return self;
  }

  lemma {:induction false} ClosestIs(table: seq<Id>, self: Id, id: Id, top: nat, i: nat)
    requires i < top <= |table| && IsBetween(table[i], self, id)
    requires forall j :: i < j < top ==> !IsBetween(table[j], self, id)
    ensures Closest(table, self, id, top) == table[i]
  {
    if top - 1 != i {
      ClosestIs(table, self, id, top - 1, i);
    }
  }

  lemma {:induction false} ClosestNone(table: seq<Id>, self: Id, id: Id, top: nat)
    requires top <= |table| && forall j :: 0 <= j < top ==> !IsBetween(table[j], self, id)
    ensures Closest(table, self, id, top) == self
  {
    if top > 0 {
      ClosestNone(table, self, id, top - 1);
    }
  }

  lemma {:induction false} ClosestRange(m: Ring, table: seq<Id>, self: Id, id: Id, top: nat)
    requires TableOk(m, table) && self in m && top <= BITS
    ensures var f := Closest(table, self, id, top);
            f in m && (f == self || IsBetween(f, self, id))
  {
    if top > 0 {
      ClosestRange(m, table, self, id, top - 1);
    }
  }

  /** Where a node at rest sends a search for id. */
  ghost function NextHop(net: Tables, at: Id, id: Id): (f: Id)
    requires Wired(net) && at in net.succ
    ensures f in net.succ && (f == at || IsBetween(f, at, id))
  {
    ClosestRange(net.succ, net.fingers[at], at, id, BITS);
    Closest(net.fingers[at], at, id, BITS)
  }

  // ---------- the path of a search ----------

  ghost predicate Arrived(net: Tables, at: Id, id: Id)
    requires Wired(net) && at in net.succ
  {
    IsBetween(id, at, Hop(net.succ, at))
  }

  lemma ArrivedAtPredecessor(net: Tables, at: Id, id: Id, p: Id)
    requires Settled(net) && at in net.succ && Arrived(net, at, id) && Precedes(net.succ, p, id)
    ensures at == p
  {
    PrecedesIsUnique(net.succ, at, p, id);
  }

  /** The nodes a search passes when no call fails and nothing caps it: on arrival it stops, and a
      node that knows no closer one keeps it. */
  ghost function Trail(net: Tables, at: Id, id: Id): (t: seq<Id>)
    requires Wired(net) && at in net.succ
    ensures |t| >= 1 && t[0] == at
    decreases Dist(at, id)
  {
    var next := NextHop(net, at, id);
    if Arrived(net, at, id) || next == at then [at] else [at] + Trail(net, next, id)
  }

  ghost predicate TrailEndsAt(net: Tables, at: Id, id: Id, p: Id)
    requires Wired(net) && at in net.succ
  {
    var t := Trail(net, at, id);
    t[|t| - 1] == p
  }

  ghost function TrailHops(net: Tables, at: Id, id: Id): nat
    requires Wired(net) && at in net.succ
  {
    |Trail(net, at, id)| - 1
  }

  /** Each hop moves strictly clockwise and none passes the true predecessor. */
  lemma {:induction false} TrailClimbs(net: Tables, at: Id, id: Id, p: Id, i: nat)
    requires Settled(net) && at in net.succ && id !in net.succ && Precedes(net.succ, p, id)
    requires i < |Trail(net, at, id)|
    ensures var t := Trail(net, at, id);
            && t[i] in net.succ
            && Span(p, id) <= Span(t[i], id) <= Span(at, id)
            && (i > 0 ==> Span(t[i], id) < Span(t[i - 1], id))
            && (Arrived(net, t[i], id) ==> t[i] == p)
    decreases i
  {
    PrecedesIsNearest(net.succ, p, id, at);
    if i == 0 && Arrived(net, at, id) {
      ArrivedAtPredecessor(net, at, id, p);
    }
    if i > 0 {
      var next := NextHop(net, at, id);
      TrailClimbs(net, next, id, p, i - 1);
    }
  }

  // ---------- find_predecessor ----------

  /** The search loop from `at`, with `retry` hops done. Call 2r asks for the next node in hop r,
      call 2r+1 for its successor; calls in `lost` fail, calls to oneself cannot. */
  ghost function Search(net: Tables, self: Id, at: Id, id: Id, retry: nat, lost: set<nat>): Id
    requires Wired(net) && at in net.succ && retry <= MAX_RETRIES
    decreases MAX_RETRIES - retry
  {
    if Arrived(net, at, id) || retry == MAX_RETRIES then at
    else if at != self && 2 * retry in lost then at
    else
      var next := NextHop(net, at, id);
      if next == at then at
      else if next != self && 2 * retry + 1 in lost then next
      else Search(net, self, next, id, retry + 1, lost)
  }

  method FindPredecessor(net: Tables, self: Id, id: Id, lost: set<nat>) returns (p: Id)
    requires Wired(net) && self in net.succ
    ensures p == Search(net, self, self, id, 0, lost)
  {
    var current := self;
    var successor := net.succ[self];
    var retry := 0;
    while !IsBetween(id, current, successor)
      invariant current in net.succ && successor == net.succ[current] && retry <= MAX_RETRIES
      invariant Search(net, self, self, id, 0, lost) == Search(net, self, current, id, retry, lost)
      decreases MAX_RETRIES - retry
    {
      if retry + 1 > MAX_RETRIES {
        break;
      }
      if current != self && 2 * retry in lost {
        break;
      }
      var next := ClosestPrecedingNode(net.fingers[current], current, id);
      if next == current {
        break;
      }
      ClosestRange(net.succ, net.fingers[current], current, id, BITS);
      var asked := retry;
      current := next;
      if current != self && 2 * asked + 1 in lost {
        return current;
      }
      successor := net.succ[current];
      retry := retry + 1;
    }
    return current;
  }

  /** On any ring at rest, ideal or not, whatever fingers the tables hold and whatever calls fail, a
      search for a non-member id only ever comes closer to it and never passes it. */
  lemma {:induction false} SearchApproaches(net: Tables, self: Id, at: Id, id: Id, retry: nat, lost: set<nat>)
    requires Wired(net) && at in net.succ && id !in net.succ && retry <= MAX_RETRIES
    ensures var r := Search(net, self, at, id, retry, lost);
            r in net.succ && Span(r, id) <= Span(at, id)
    decreases MAX_RETRIES - retry
  {
    var next := NextHop(net, at, id);
    if retry < MAX_RETRIES && next != at {
      SearchApproaches(net, self, next, id, retry + 1, lost);
    }
  }

  /** On an ideal ring, again for any fingers and failing calls, the answer lies from the start up to
      the true predecessor, and leaving by the loop guard means it is the true predecessor. */
  lemma {:induction false} SearchNeverOvershoots(net: Tables, self: Id, at: Id, id: Id, retry: nat,
                                                 lost: set<nat>, p: Id)
    requires Settled(net) && at in net.succ && id !in net.succ && Precedes(net.succ, p, id)
    requires retry <= MAX_RETRIES
    ensures var r := Search(net, self, at, id, retry, lost);
            && r in net.succ
            && Span(p, id) <= Span(r, id) <= Span(at, id)
            && (Arrived(net, r, id) ==> r == p)
    decreases MAX_RETRIES - retry
  {
    PrecedesIsNearest(net.succ, p, id, at);
    var next := NextHop(net, at, id);
    PrecedesIsNearest(net.succ, p, id, next);
    if Arrived(net, at, id) {
      ArrivedAtPredecessor(net, at, id, p);
    }
    if Arrived(net, next, id) {
      ArrivedAtPredecessor(net, next, id, p);
    }
    if retry < MAX_RETRIES && next != at {
      SearchNeverOvershoots(net, self, next, id, retry + 1, lost, p);
    }
  }

  /** Without failing calls the search is its trail, cut after ten hops. */
  lemma {:induction false} SearchIsCutTrail(net: Tables, self: Id, at: Id, id: Id, retry: nat)
    requires Wired(net) && at in net.succ && retry <= MAX_RETRIES
    ensures var t, cap := Trail(net, at, id), MAX_RETRIES - retry;
            Search(net, self, at, id, retry, {}) == if |t| - 1 <= cap then t[|t| - 1] else t[cap]
    decreases MAX_RETRIES - retry
  {
    var next := NextHop(net, at, id);
    if !Arrived(net, at, id) && next != at && retry < MAX_RETRIES {
      SearchIsCutTrail(net, self, next, id, retry + 1);
    }
  }

  lemma NotYetThere(net: Tables, at: Id, id: Id, p: Id, i: nat)
    requires Settled(net) && at in net.succ && id !in net.succ && Precedes(net.succ, p, id)
    requires i < TrailHops(net, at, id)
    ensures Trail(net, at, id)[i] != p
  {
    TrailClimbs(net, at, id, p, i);
    TrailClimbs(net, at, id, p, i + 1);
  }

  /** A call of the search that reaches node t fails; calls to oneself cannot. */
  predicate Fails(self: Id, t: Id, call: nat, lost: set<nat>) {
    t != self && call in lost
  }

  /** The search with `retry` hops done ends at node k of its trail t: that is the last one, or reached
      with the tenth hop, or its call for the next node fails, or, once a hop was made, its call for its
      successor; and none of this is so for a node before it. */
  predicate EndsAt(self: Id, t: seq<Id>, k: nat, retry: nat, lost: set<nat>) {
    && k < |t| && retry + k <= MAX_RETRIES
    && (forall i :: 0 <= i < k ==> !Fails(self, t[i], 2 * (retry + i), lost))
    && (forall i :: 0 < i < k ==> !Fails(self, t[i], 2 * (retry + i) - 1, lost))
    && (|| k == |t| - 1 || retry + k == MAX_RETRIES || Fails(self, t[k], 2 * (retry + k), lost)
        || (k > 0 && Fails(self, t[k], 2 * (retry + k) - 1, lost)))
  }

  lemma EndsOneLater(self: Id, at: Id, t: seq<Id>, k: nat, retry: nat, lost: set<nat>)
    requires EndsAt(self, t, k, retry + 1, lost)
    requires !Fails(self, at, 2 * retry, lost) && !Fails(self, t[0], 2 * retry + 1, lost)
    ensures EndsAt(self, [at] + t, k + 1, retry, lost)
  {
    var t' := [at] + t;
    forall i | 0 <= i < k + 1 ensures !Fails(self, t'[i], 2 * (retry + i), lost) {
      assert i > 0 ==> t'[i] == t[i - 1] && 2 * (retry + i) == 2 * (retry + 1 + (i - 1));
    }
    forall i | 0 < i < k + 1 ensures !Fails(self, t'[i], 2 * (retry + i) - 1, lost) {
      assert t'[i] == t[i - 1] && 2 * (retry + i) - 1 == 2 * (retry + 1 + (i - 1)) - 1;
    }
  }

  /** Where a search with failing calls ends. */
  lemma {:induction false} SearchEnds(net: Tables, self: Id, at: Id, id: Id, retry: nat, lost: set<nat>)
      returns (k: nat)
    requires Wired(net) && at in net.succ && retry <= MAX_RETRIES
    ensures EndsAt(self, Trail(net, at, id), k, retry, lost)
    ensures Search(net, self, at, id, retry, lost) == Trail(net, at, id)[k]
    decreases MAX_RETRIES - retry
  {
    k := 0;
    var next := NextHop(net, at, id);
    if !Arrived(net, at, id) && retry < MAX_RETRIES && !Fails(self, at, 2 * retry, lost) && next != at {
      var t := Trail(net, next, id);
      assert Trail(net, at, id) == [at] + t;
      if Fails(self, next, 2 * retry + 1, lost) {
        k := 1;
      } else {
        var j := SearchEnds(net, self, next, id, retry + 1, lost);
        EndsOneLater(self, at, t, j, retry, lost);
        k := j + 1;
      }
    }
  }

  /** The trail is what the hops make it: each node sends on to the next, none but the last has arrived,
      and the last has arrived or knows no closer node. */
  lemma {:induction false} TrailIs(net: Tables, at: Id, id: Id, i: nat)
    requires Wired(net) && at in net.succ && i < |Trail(net, at, id)|
    ensures var t := Trail(net, at, id);
            && t[i] in net.succ
            && (i + 1 < |t| ==> !IsBetween(id, t[i], net.succ[t[i]]) && t[i + 1] != t[i]
                                && t[i + 1] == Closest(net.fingers[t[i]], t[i], id, BITS))
            && (i + 1 == |t| ==> IsBetween(id, t[i], net.succ[t[i]])
                                 || Closest(net.fingers[t[i]], t[i], id, BITS) == t[i])
    decreases i
  {
    if i > 0 {
      TrailIs(net, NextHop(net, at, id), id, i - 1);
    }
  }

  /** The search finds the true predecessor exactly when its uncapped trail ends there within ten
      hops, or within as many as are left. */
  lemma SearchExactness(net: Tables, self: Id, at: Id, id: Id, p: Id, retry: nat)
    requires Settled(net) && at in net.succ && id !in net.succ && Precedes(net.succ, p, id)
    requires retry <= MAX_RETRIES
    ensures Search(net, self, at, id, retry, {}) == p <==>
            TrailEndsAt(net, at, id, p) && TrailHops(net, at, id) <= MAX_RETRIES - retry
  {
    SearchIsCutTrail(net, self, at, id, retry);
    if TrailHops(net, at, id) > MAX_RETRIES - retry {
      NotYetThere(net, at, id, p, MAX_RETRIES - retry);
    }
  }

  // ---------- find_successor ----------

  /** The answer of find_successor when no call fails: the successor of what the search found. */
  ghost function FoundSuccessor(net: Tables, self: Id, id: Id): Id
    requires Wired(net) && self in net.succ
  {
    SearchInside(net, self, self, id, 0, {});
    Hop(net.succ, Search(net, self, self, id, 0, {}))
  }

  lemma {:induction false} SearchInside(net: Tables, self: Id, at: Id, id: Id, retry: nat, lost: set<nat>)
    requires Wired(net) && at in net.succ && retry <= MAX_RETRIES
    ensures Search(net, self, at, id, retry, lost) in net.succ
    decreases MAX_RETRIES - retry
  {
    var next := NextHop(net, at, id);
    if retry < MAX_RETRIES && next != at {
      SearchInside(net, self, next, id, retry + 1, lost);
    }
  }

  /** The answer of find_successor in general: when the node found does not answer, a backup from the
      successor list, or failing that the own successor. */
  ghost function Answered(net: Tables, self: Id, id: Id, lost: set<nat>, answers: bool, backup: Option<Id>): Id
    requires Wired(net) && self in net.succ
  {
    SearchInside(net, self, self, id, 0, lost);
    var p := Search(net, self, self, id, 0, lost);
    if p == self || answers then Hop(net.succ, p)
    else if backup.Some? then backup.value
    else Hop(net.succ, self)
  }

  /** find_successor: the successor of the node found, or when that node does not answer a backup
      from the successor list, or failing that the own successor. */
  method FindSuccessor(net: Tables, self: Id, id: Id, lost: set<nat>, answers: bool, backup: Option<Id>)
    returns (r: Id)
    requires Wired(net) && self in net.succ
    ensures r == Answered(net, self, id, lost, answers, backup)
    ensures var p := Search(net, self, self, id, 0, lost);
            && p in net.succ
            && (p == self || answers ==> r == net.succ[p])
            && (p != self && !answers && backup.Some? ==> r == backup.value)
            && (p != self && !answers && backup.None? ==> r == net.succ[self])
    ensures r in net.succ || backup == Some(r)
    ensures lost == {} && answers ==> r == FoundSuccessor(net, self, id)
  {
    var p := FindPredecessor(net, self, id, lost);
    SearchInside(net, self, self, id, 0, lost);
    assert Hop(net.succ, p) in net.succ && Hop(net.succ, self) in net.succ;
    if p == self || answers {
      r := net.succ[p];
    } else if backup.Some? {
      r := backup.value;
    } else {
      r := net.succ[self];
    }
  }
}
