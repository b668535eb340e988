/** Safety of ring maintenance over every run: one ordered ring, and every member on a path to it. */
module RingSafety {
  import opened Ids
  import opened Wrappers
  import opened Pointers
  import opened Walks
  import opened Clockwise
  import opened Protocol

  // ---------- what every step keeps ----------

  /** a and c are members and a reaches c inside the arc from a to c. */
  ghost predicate To(m: Ring, a: Id, c: Id) {
    Closed(m) && a in m && c in m && Leads(m, a, c)
  }

  /** What holds of the record r of node n: whatever it stores or has in flight as the
      predecessor of a node leads to that node; a node that is alone has no predecessor; a
      running `stabilize` asked the present successor. */
  ghost predicate RecordOk(m: Ring, n: Id, r: Member) {
    && n in m && r.at.succ in m
    && (r.at.pred.Some? ==> r.at.pred.value != n && r.at.succ != n && To(m, r.at.pred.value, n))
    && (!r.flight.Idle? ==> r.flight.asked == r.at.succ && r.at.succ != n)
    && (r.flight.Answered? && r.flight.reply.Some? ==>
          r.flight.reply.value != r.flight.asked && To(m, r.flight.reply.value, r.flight.asked))
  }

  ghost function Record(net: Network, n: Id): Member
    requires n in net.members
  {
    net.members[n]
  }

  ghost predicate Sound(net: Network) {
    && Closed(Succs(net))
    && (forall n {:trigger Record(net, n)} :: n in net.members ==> RecordOk(Succs(net), n, Record(net, n)))
    && (forall f, t {:trigger (f, t) in net.notices} ::
          (f, t) in net.notices ==> f != t && To(Succs(net), f, t))
  }

  /** The bootstrap node lies on a winding-free cycle and every member reaches it. */
  ghost predicate Anchored(m: Ring, b: Id) {
    && Closed(m) && b in m && Leads(m, b, b)
    && forall n {:trigger Reaches(m, n, b)} :: n in m ==> Reaches(m, n, b)
  }

  ghost predicate Inv(net: Network, b: Id) {
    Sound(net) && Anchored(Succs(net), b)
  }

  lemma StartInv(b: Id)
    ensures Inv(Start(b), b)
  {
    var m := Succs(Start(b));
    assert Hop(m, b) == b;
    forall n | n in m ensures Reaches(m, n, b) {
      assert Walk(m, n, 0) == b;
    }
  }

  // ---------- how the successor map can change ----------

  /** The three ways one step can change the successor map. */
  datatype Change = Same | Added(j: Id, s: Id) | Detour(n: Id, x: Id)

  ghost predicate ChangesBy(m: Ring, m': Ring, c: Change)
    requires Closed(m)
  {
    match c
    case Same => m' == m
    case Added(j, s) => j !in m && s in m && m' == m[j := s]
    case Detour(n, x) =>
      && n in m && x in m && Leads(m, x, Hop(m, n)) && Span(n, x) < Span(n, Hop(m, n))
      && m' == m[n := x]
  }

  ghost predicate Grows(m: Ring, m': Ring) {
    && Closed(m) && Closed(m') && m.Keys <= m'.Keys
    && forall a, c {:trigger Leads(m', a, c)} :: a in m && c in m && Leads(m, a, c) ==> Leads(m', a, c)
  }

  lemma ChangeGrows(m: Ring, m': Ring, c: Change)
    requires Closed(m) && ChangesBy(m, m', c)
    ensures Grows(m, m')
  {
    match c
    case Same =>
    case Added(j, s) =>
      ClosedUpdate(m, j, s);
      forall a, d | a in m && d in m && Leads(m, a, d) ensures Leads(m', a, d) {
        LeadsExtend(m, j, s, a, d);
      }
    case Detour(n, x) =>
      ClosedUpdate(m, n, x);
      forall a, d | a in m && d in m && Leads(m, a, d) ensures Leads(m', a, d) {
        LeadsDetour(m, n, x, a, d);
      }
  }

  lemma ChangeKeepsReaching(m: Ring, m': Ring, c: Change, a: Id, b: Id)
    requires Closed(m) && ChangesBy(m, m', c) && a in m && b in m && Reaches(m, a, b)
    ensures Closed(m') && Reaches(m', a, b)
  {
    ChangeGrows(m, m', c);
    var k: nat :| Walk(m, a, k) == b;
    match c
    case Same =>
    case Added(j, s) => WalkExtend(m, j, s, a, k);
    case Detour(n, x) => ReachesDetour(m, n, x, a, k);
  }

  lemma ChangeKeepsAnchor(m: Ring, m': Ring, c: Change, b: Id)
    requires Anchored(m, b) && ChangesBy(m, m', c)
    ensures Anchored(m', b)
  {
    ChangeGrows(m, m', c);
    assert Leads(m', b, b);
    forall n | n in m' ensures Reaches(m', n, b) {
      ChangeKeepsReachingAll(m, m', c, n, b);
    }
  }

  lemma ChangeKeepsReachingAll(m: Ring, m': Ring, c: Change, n: Id, b: Id)
    requires Anchored(m, b) && Closed(m') && ChangesBy(m, m', c) && n in m'
    ensures Reaches(m', n, b)
  {
    if n in m {
      assert Reaches(m, n, b);
      ChangeKeepsReaching(m, m', c, n, b);
    } else {
      assert Reaches(m, c.s, b);
      ChangeKeepsReaching(m, m', c, c.s, b);
      ReachesStep(m', n, b);
    }
  }

  // ---------- every step is one of these changes ----------

  /** The node whose record a step may change. */
  function Target(e: Event): Id {
    match e
    case Deliver(from, to) => to
    case Join(n, via) => n
    case Begin(n) => n
    case Answer(n) => n
    case Finish(n) => n
    case Abandon(n) => n
    case ClearPred(n) => n
  }

  lemma StepIsLocal(net: Network, e: Event)
    requires Enabled(net, e)
    ensures var net', k := Next(net, e), Target(e);
            && k in net'.members
            && net'.members == net.members[k := net'.members[k]]
            && Succs(net') == Succs(net)[k := net'.members[k].at.succ]
  {
  }

  /** After a step the changed record still tells the truth about the successor map before it,
      and a changed successor is a detour inside the old arc. */
  lemma TargetRecord(net: Network, e: Event)
    requires Sound(net) && Enabled(net, e) && !e.Join?
    ensures var m, k, r := Succs(net), Target(e), Next(net, e).members[Target(e)];
            && RecordOk(m, k, r)
            && (r.at.succ != Hop(m, k) ==> To(m, r.at.succ, Hop(m, k)) && Span(k, r.at.succ) < Span(k, Hop(m, k)))
  {
    var m, k := Succs(net), Target(e);
    assert RecordOk(m, k, Record(net, k));
    if e.Answer? {
      var s := net.members[k].flight.asked;
      assert RecordOk(m, s, Record(net, s));
    }
  }

  lemma StepChange(net: Network, e: Event) returns (c: Change)
    requires Sound(net) && Enabled(net, e)
    ensures ChangesBy(Succs(net), Succs(Next(net, e)), c)
  {
    StepIsLocal(net, e);
    var k := Target(e);
    var x := Next(net, e).members[k].at.succ;
    if e.Join? {
      c := Added(k, x);
    } else {
      TargetRecord(net, e);
      c := if x == net.members[k].at.succ then Same else Detour(k, x);
    }
  }

  lemma RecordLifts(m: Ring, m': Ring, n: Id, r: Member)
    requires Grows(m, m') && RecordOk(m, n, r)
    ensures RecordOk(m', n, r)
  {
  }

  lemma StepKeepsRecord(net: Network, e: Event, n: Id)
    requires Sound(net) && Enabled(net, e) && Grows(Succs(net), Succs(Next(net, e)))
    requires n in Next(net, e).members
    ensures RecordOk(Succs(Next(net, e)), n, Record(Next(net, e), n))
  {
    StepIsLocal(net, e);
    if n == Target(e) {
      if !e.Join? {
        TargetRecord(net, e);
        RecordLifts(Succs(net), Succs(Next(net, e)), n, Record(Next(net, e), n));
      }
    } else {
      RecordLifts(Succs(net), Succs(Next(net, e)), n, Record(net, n));
    }
  }

  lemma StepKeepsSound(net: Network, e: Event)
    requires Sound(net) && Enabled(net, e) && Grows(Succs(net), Succs(Next(net, e)))
    ensures Sound(Next(net, e))
  {
    var net' := Next(net, e);
    forall n | n in net'.members ensures RecordOk(Succs(net'), n, Record(net', n)) {
      StepKeepsRecord(net, e, n);
    }
    forall f, t | (f, t) in net'.notices ensures f != t && To(Succs(net'), f, t) {
      if (f, t) in net.notices {
        assert To(Succs(net), f, t);
      } else {
        NewNotice(net, e, f, t);
      }
    }
  }

  /** A notification is sent along the successor pointer of its sender. */
  lemma NewNotice(net: Network, e: Event, f: Id, t: Id)
    requires Sound(net) && Enabled(net, e) && Grows(Succs(net), Succs(Next(net, e)))
    requires (f, t) in Next(net, e).notices && (f, t) !in net.notices
    ensures f != t && To(Succs(Next(net, e)), f, t)
  {
    StepIsLocal(net, e);
    TargetRecord(net, e);
    assert RecordOk(Succs(net), f, Record(net, f));
    assert Succs(Next(net, e))[f] == t;
  }

  /** Every step keeps the whole invariant, and only ever adds winding-free paths. */
  lemma StepKeepsInv(net: Network, b: Id, e: Event)
    requires Inv(net, b) && Enabled(net, e)
    ensures Inv(Next(net, e), b) && Grows(Succs(net), Succs(Next(net, e)))
  {
    var c := StepChange(net, e);
    ChangeGrows(Succs(net), Succs(Next(net, e)), c);
    ChangeKeepsAnchor(Succs(net), Succs(Next(net, e)), c, b);
    StepKeepsSound(net, e);
  }

  lemma GrowsTransitive(m: Ring, m': Ring, m'': Ring)
    requires Grows(m, m') && Grows(m', m'')
    ensures Grows(m, m'')
  {
  }

  lemma {:induction false} RunKeepsInv(net: Network, b: Id, run: seq<Event>)
    requires Inv(net, b) && Legal(net, run)
    ensures Inv(After(net, run), b) && Grows(Succs(net), Succs(After(net, run)))
    decreases |run|
  {
    if run != [] {
      var net' := Next(net, run[0]);
      StepKeepsInv(net, b, run[0]);
      RunKeepsInv(net', b, run[1..]);
      GrowsTransitive(Succs(net), Succs(net'), Succs(After(net, run)));
    }
  }

  /** Whatever happens, a notification once sent can be delivered in every later state, also again. */
  lemma {:induction false} NoticesLast(net: Network, run: seq<Event>, f: Id, t: Id)
    requires Legal(net, run) && (f, t) in net.notices && t in net.members
    ensures Enabled(After(net, run), Deliver(f, t))
    decreases |run|
  {
    if run != [] {
      StepIsLocal(net, run[0]);
      NoticesLast(Next(net, run[0]), run[1..], f, t);
    }
  }

  lemma ReachableInv(net: Network, b: Id)
    requires Reachable(net, b)
    ensures Inv(net, b)
  {
    var run :| Legal(Start(b), run) && After(Start(b), run) == net;
    StartInv(b);
    RunKeepsInv(Start(b), b, run);
  }

  // ---------- the ring theorem ----------

  /** In every reachable state: every member reaches the bootstrap node by successors; the
      bootstrap node lies on a cycle in clockwise order whose arcs add up to exactly 2^160; and
      every node of any cycle lies on that one. */
  lemma OneOrderedRing(net: Network, b: Id) returns (len: nat)
    requires Reachable(net, b)
    ensures Closed(Succs(net)) && b in net.members && OrderedCycle(Succs(net), b, len)
    ensures len >= 1 && Walk(Succs(net), b, len) == b && ArcSum(Succs(net), b, len) == RING
    ensures forall i: nat {:trigger Walk(Succs(net), b, i)} :: i < len ==>
              ArcSum(Succs(net), b, i) == Dist(b, Walk(Succs(net), b, i))
    ensures forall n {:trigger Reaches(Succs(net), n, b)} :: n in net.members ==> Reaches(Succs(net), n, b)
    ensures forall n, k: nat {:trigger Walk(Succs(net), n, k)} ::
              n in net.members && k >= 1 && Walk(Succs(net), n, k) == n ==> n in Visited(Succs(net), b, len)
  {
    ReachableInv(net, b);
    var m := Succs(net);
    len := CycleOf(m, b);
    forall n, k: nat | n in m && k >= 1 && Walk(m, n, k) == n ensures n in Visited(m, b, len) {
      assert Reaches(m, n, b);
      CycleThroughAnchor(m, b, n, k);
      var j: nat :| Walk(m, b, j) == n;
      VisitedHas(m, b, len, 0);
      StuckOnceRepeated(m, b, len, j);
    }
  }

  /** Once a reaches c inside the arc from a to c, it does so in every later state. */
  lemma PathsLast(net: Network, b: Id, run: seq<Event>, a: Id, c: Id)
    requires Reachable(net, b) && Legal(net, run) && To(Succs(net), a, c)
    ensures To(Succs(After(net, run)), a, c)
  {
    ReachableInv(net, b);
    RunKeepsInv(net, b, run);
    assert Leads(Succs(After(net, run)), a, c);
  }

  /** Whatever a node stores as its predecessor, an answer in flight names as the predecessor of
      the node asked, or a notification offers to its receiver, leads there without winding. */
  lemma PredecessorsLead(net: Network, b: Id, n: Id)
    requires Reachable(net, b) && n in net.members
    ensures RecordOk(Succs(net), n, net.members[n])
    ensures forall f, t {:trigger (f, t) in net.notices} :: (f, t) in net.notices ==> f != t && To(Succs(net), f, t)
  {
    ReachableInv(net, b);
    assert RecordOk(Succs(net), n, Record(net, n));
  }
}
