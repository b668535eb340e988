/** Quiescence and progress: the states no round of `stabilize` and `notify` changes are the ideal
    rings, every pointer change comes closer, and so a ring with fixed membership can always settle. */
module Convergence {
  import opened Ids
  import opened Wrappers
  import opened Pointers
  import opened Walks
  import opened Clockwise
  import opened Protocol
  import opened RingSafety
  import opened Sums

  // ---------- quiescence ----------

  /** One whole round of n, `stabilize` and the `notify` it sends, run from the present pointers
      without interleaving, changes no pointer. */
  ghost predicate QuietAt(net: Network, n: Id)
    requires Closed(Succs(net)) && n in net.members
  {
    var at := Record(net, n).at;
    if at.succ == n then
      Began(n, at) == at
    else
      assert Hop(Succs(net), n) in Succs(net);
      var s := Record(net, at.succ).at;
      Replied(n, at, at.succ, s.pred) == at && Notified(at.succ, s, n) == s
  }

  ghost predicate Quiet(net: Network)
    requires Closed(Succs(net))
  {
    forall n {:trigger QuietAt(net, n)} :: n in net.members ==> QuietAt(net, n)
  }

  /** The predecessor pointer of n's successor names n, unless n is its own successor. */
  ghost predicate MirroredAt(net: Network, n: Id)
    requires Closed(Succs(net)) && n in net.members
  {
    var s := Hop(Succs(net), n);
    Record(net, s).at.pred == if s == n then None else Some(n)
  }

  ghost predicate IdealRing(net: Network) {
    Ideal(Succs(net)) && Mirrored(net)
  }

  lemma QuietIsMirrored(net: Network, n: Id)
    requires Sound(net) && n in net.members && QuietAt(net, n)
    ensures MirroredAt(net, n)
  {
    var s := Hop(Succs(net), n);
    assert RecordOk(Succs(net), n, Record(net, n));
    assert RecordOk(Succs(net), s, Record(net, s));
  }

  /** The predecessor pointers, a missing one read as pointing to oneself. */
  ghost function Preds(net: Network): map<Id, Id> {
    map s | s in net.members ::
      var pred := net.members[s].at.pred; if pred.Some? then pred.value else s
  }

  ghost predicate Mirrored(net: Network)
    requires Closed(Succs(net))
  {
    forall n {:trigger MirroredAt(net, n)} :: n in net.members ==> MirroredAt(net, n)
  }

  lemma MirroredIsInverse(net: Network)
    requires Closed(Succs(net)) && Mirrored(net)
    ensures LeftInverse(Preds(net), Succs(net))
  {
    var m, p := Succs(net), Preds(net);
    forall n | n in m ensures Hop(m, n) in p && p[Hop(m, n)] == n {
      assert MirroredAt(net, n);
    }
  }

  lemma MirroredIsIdeal(net: Network, b: Id)
    requires Inv(net, b) && Mirrored(net)
    ensures Ideal(Succs(net))
  {
    MirroredIsInverse(net);
    CycleIsIdeal(Succs(net), Preds(net), b);
  }

  lemma IdealIsQuiet(net: Network, n: Id)
    requires Sound(net) && IdealRing(net) && n in net.members
    ensures QuietAt(net, n)
  {
    assert MirroredAt(net, n);
    assert RecordOk(Succs(net), n, Record(net, n));
  }

  /** A reachable state is quiet exactly when it is the ideal ring: each successor is the next
      member clockwise and each member's successor names it as predecessor. */
  lemma QuietIffIdeal(net: Network, b: Id)
    requires Reachable(net, b)
    ensures Closed(Succs(net)) && (Quiet(net) <==> IdealRing(net))
  {
    ReachableInv(net, b);
    InvQuietIffIdeal(net, b);
  }

  lemma InvQuietIffIdeal(net: Network, b: Id)
    requires Inv(net, b)
    ensures Quiet(net) <==> IdealRing(net)
  {
    if Quiet(net) {
      forall n | n in net.members ensures MirroredAt(net, n) {
        assert QuietAt(net, n);
        QuietIsMirrored(net, n);
      }
      MirroredIsIdeal(net, b);
    }
    if IdealRing(net) {
      forall n | n in net.members ensures QuietAt(net, n) {
        IdealIsQuiet(net, n);
      }
    }
  }

  /** In the ideal ring the stored predecessor is the member just before. */
  lemma StoredPredecessor(net: Network, t: Id)
    requires Sound(net) && IdealRing(net) && t in net.members
    ensures Record(net, t).at.pred.Some? ==>
      Record(net, t).at.pred.value in net.members && Hop(Succs(net), Record(net, t).at.pred.value) == t
    ensures Record(net, t).at.pred.None? ==> Hop(Succs(net), t) == t && net.members.Keys == {t}
  {
    var m := Succs(net);
    IdealLeads(m, t, t);
    var u := LeadsLast(m, t, t);
    assert MirroredAt(net, u);
    assert RecordOk(m, t, Record(net, t));
    if Record(net, t).at.pred.None? {
      assert u == t;
      forall y | y in net.members ensures y == t {
        assert y in m && Span(t, Hop(m, t)) <= Span(t, y);
      }
      assert net.members.Keys == {t};
    }
  }

  /** Without joins and cleared predecessors, no step moves a pointer of an ideal ring, whatever
      is still in flight. */
  lemma IdealIsStable(net: Network, e: Event)
    requires Sound(net) && IdealRing(net) && Enabled(net, e) && !e.Join? && !e.ClearPred?
    ensures Target(e) in Next(net, e).members
    ensures Record(Next(net, e), Target(e)).at == Record(net, Target(e)).at
  {
    var m, k := Succs(net), Target(e);
    assert RecordOk(m, k, Record(net, k));
    match e {
      case Finish(n) =>
        var flight := Record(net, n).flight;
        if flight.reply.Some? {
          assert Span(n, Hop(m, n)) <= Span(n, flight.reply.value);
        }
      case Deliver(from, to) =>
        assert To(m, from, to);
        StoredPredecessor(net, to);
        if Record(net, to).at.pred.Some? {
          var p := Record(net, to).at.pred.value;
          assert Span(p, Hop(m, p)) <= Span(p, from);
        }
      case _ =>
    }
  }

  /** A lost ping on an ideal ring makes n forget its predecessor u and nothing else. The ring is not ideal
      then, though all successors still are; the next notification of u puts everything back. */
  lemma LostPing(net: Network, n: Id, u: Id)
    requires Sound(net) && IdealRing(net) && n in net.members && net.members[n].at.pred == Some(u)
    ensures Enabled(net, ClearPred(n))
    ensures var net' := Next(net, ClearPred(n));
            && net' == net.(members := net.members[n :=
                 Member(Pointers(net.members[n].at.succ, None), net.members[n].flight)])
            && Closed(Succs(net')) && Ideal(Succs(net')) && !Mirrored(net')
            && ((u, n) in net.notices ==> Enabled(net', Deliver(u, n)) && Next(net', Deliver(u, n)) == net)
  {
    var net' := Next(net, ClearPred(n));
    StoredPredecessor(net, n);
    assert RecordOk(Succs(net), n, Record(net, n));
    assert Succs(net') == Succs(net);
    assert Hop(Succs(net), u) == n;
    assert !MirroredAt(net', u);
    if (u, n) in net.notices {
      assert Next(net', Deliver(u, n)).members == net.members;
    }
  }

  // ---------- progress ----------

  /** The members strictly inside the arc from a to c (all but a when the arc is the whole circle). */
  ghost function Inside(ms: set<Id>, a: Id, c: Id): set<Id> {
    set y | y in ms && Span(a, y) < Span(a, c)
  }

  ghost function Slack(ms: set<Id>, n: Id, at: Pointers): int {
    |Inside(ms, n, at.succ)| + if at.pred.None? then |ms| - 1 else |Inside(ms, at.pred.value, n)|
  }

  /** How many members still stand between nodes and their pointers, over all pointers. */
  ghost function Potential(net: Network): int {
    Sum(net.members.Keys, n => if n in net.members then Slack(net.members.Keys, n, net.members[n].at) else 0)
  }

  /** The number of pointers in which two records differ. */
  function Moved(at: Pointers, at': Pointers): nat {
    (if at.succ != at'.succ then 1 else 0) + (if at.pred != at'.pred then 1 else 0)
  }

  /** No joins and no cleared predecessors. */
  predicate Settling(run: seq<Event>) {
    forall i :: 0 <= i < |run| ==> !run[i].Join? && !run[i].ClearPred?
  }

  /** The pointer changes of a whole run. */
  ghost function Changes(net: Network, run: seq<Event>): nat
    requires Legal(net, run) && Settling(run)
    decreases |run|
  {
    if run == [] then 0
    else
      var net', k := Next(net, run[0]), Target(run[0]);
      Moved(net.members[k].at, net'.members[k].at) + Changes(net', run[1..])
  }

  lemma InsideShrinks(ms: set<Id>, a: Id, x: Id, c: Id)
    requires x in ms && Span(a, x) < Span(a, c)
    ensures |Inside(ms, a, x)| < |Inside(ms, a, c)|
  {
    assert Inside(ms, a, x) <= Inside(ms, a, c) - {x};
    SubsetSize(Inside(ms, a, x), Inside(ms, a, c) - {x});
  }

  lemma InsideFromLater(ms: set<Id>, p: Id, f: Id, t: Id)
    requires f in ms && f != t && IsBetween(f, p, t)
    ensures |Inside(ms, f, t)| < |Inside(ms, p, t)|
  {
    assert Inside(ms, f, t) <= Inside(ms, p, t) - {f};
    assert f in Inside(ms, p, t);
    SubsetSize(Inside(ms, f, t), Inside(ms, p, t) - {f});
  }

  lemma InsideBound(ms: set<Id>, a: Id, c: Id)
    requires a in ms && c in ms
    ensures |Inside(ms, a, c)| <= |ms| - 1
    ensures a != c ==> |Inside(ms, a, c)| <= |ms| - 2
  {
    SubsetSize(Inside(ms, a, c), ms - {a});
    if a != c {
      assert Inside(ms, a, c) <= ms - {a} - {c};
      SubsetSize(Inside(ms, a, c), ms - {a} - {c});
    }
  }

  /** Every pointer change of a record lowers its slack by at least one per pointer moved. */
  lemma SlackDrops(net: Network, e: Event)
    requires Sound(net) && Enabled(net, e) && !e.Join? && !e.ClearPred?
    ensures var ms, k := net.members.Keys, Target(e);
            var at, at' := net.members[k].at, Next(net, e).members[k].at;
            Slack(ms, k, at') + Moved(at, at') <= Slack(ms, k, at)
  {
    var ms, k, m := net.members.Keys, Target(e), Succs(net);
    var at, at' := net.members[k].at, Next(net, e).members[k].at;
    assert RecordOk(m, k, Record(net, k));
    TargetRecord(net, e);
    if at'.succ != at.succ {
      InsideShrinks(ms, k, at'.succ, at.succ);
    }
    if at'.pred != at.pred {
      assert e.Deliver? && at'.pred == Some(e.from);
      assert To(m, e.from, k);
      if at.pred.None? {
        InsideBound(ms, e.from, k);
      } else {
        InsideFromLater(ms, at.pred.value, e.from, k);
      }
    }
  }

  lemma StepLowersPotential(net: Network, e: Event)
    requires Sound(net) && Enabled(net, e) && !e.Join? && !e.ClearPred?
    ensures Next(net, e).members.Keys == net.members.Keys
    ensures Potential(Next(net, e)) + Moved(net.members[Target(e)].at, Next(net, e).members[Target(e)].at)
            <= Potential(net)
  {
    var net', k := Next(net, e), Target(e);
    StepIsLocal(net, e);
    SlackDrops(net, e);
    var ms := net.members.Keys;
    assert net'.members.Keys == ms;
    var f := n => if n in net.members then Slack(ms, n, net.members[n].at) else 0;
    var f' := n => if n in net'.members then Slack(ms, n, net'.members[n].at) else 0;
    SumSplit(ms, f, k);
    SumSplit(ms, f', k);
    SumSame(ms - {k}, f, f');
    PotentialIs(net, f);
    PotentialIs(net', f');
  }

  lemma PotentialIs(net: Network, f: Id -> int)
    requires forall n :: n in net.members ==> f(n) == Slack(net.members.Keys, n, net.members[n].at)
    ensures Potential(net) == Sum(net.members.Keys, f)
  {
    SumSame(net.members.Keys,
            n => if n in net.members then Slack(net.members.Keys, n, net.members[n].at) else 0, f);
  }

  lemma {:induction false} RunLowersPotential(net: Network, b: Id, run: seq<Event>)
    requires Inv(net, b) && Legal(net, run) && Settling(run)
    ensures After(net, run).members.Keys == net.members.Keys
    ensures Potential(After(net, run)) + Changes(net, run) <= Potential(net)
    decreases |run|
  {
    if run != [] {
      assert !run[0].Join? && !run[0].ClearPred?;
      StepLowersPotential(net, run[0]);
      StepKeepsInv(net, b, run[0]);
      assert Settling(run[1..]);
      RunLowersPotential(Next(net, run[0]), b, run[1..]);
    }
  }

  lemma SlackBounds(net: Network, n: Id)
    requires Sound(net) && n in net.members
    ensures 0 <= Slack(net.members.Keys, n, net.members[n].at) <= 2 * (|net.members| - 1)
  {
    var ms, at := net.members.Keys, net.members[n].at;
    assert RecordOk(Succs(net), n, Record(net, n));
    InsideBound(ms, n, at.succ);
    if at.pred.Some? {
      InsideBound(ms, at.pred.value, n);
    }
  }

  lemma PotentialBounds(net: Network)
    requires Sound(net)
    ensures 0 <= Potential(net) <= |net.members| * (2 * (|net.members| - 1))
  {
    var ms := net.members.Keys;
    var f := n => if n in net.members then Slack(ms, n, net.members[n].at) else 0;
    forall n | n in ms ensures 0 <= f(n) <= 2 * (|net.members| - 1) {
      SlackBounds(net, n);
    }
    PotentialIs(net, f);
    SumAtMost(ms, f, 2 * (|net.members| - 1));
    SumAtLeast(ms, f, 0);
  }

  /** With N members, no joins and no cleared predecessors, a whole run makes at most 2N(N-1)
      pointer changes, however it is interleaved. */
  lemma ChangesAreBounded(net: Network, b: Id, run: seq<Event>)
    requires Reachable(net, b) && Legal(net, run) && Settling(run)
    ensures Changes(net, run) <= |net.members| * (2 * (|net.members| - 1))
  {
    ReachableInv(net, b);
    RunKeepsInv(net, b, run);
    RunLowersPotential(net, b, run);
    PotentialBounds(net);
    PotentialBounds(After(net, run));
  }

  // ---------- the ideal ring stays ----------

  lemma StepKeepsIdeal(net: Network, e: Event)
    requires Sound(net) && IdealRing(net) && Enabled(net, e) && !e.Join? && !e.ClearPred?
    ensures IdealRing(Next(net, e)) && Succs(Next(net, e)) == Succs(net)
  {
    var net' := Next(net, e);
    StepIsLocal(net, e);
    IdealIsStable(net, e);
    assert Succs(net') == Succs(net);
    forall n | n in net'.members ensures MirroredAt(net', n) {
      assert MirroredAt(net, n);
    }
  }

  /** Once ideal, the ring makes no further pointer change in any run without joins and cleared
      predecessors, and is ideal all along. */
  lemma {:induction false} IdealRingLasts(net: Network, b: Id, run: seq<Event>)
    requires Inv(net, b) && IdealRing(net) && Legal(net, run) && Settling(run)
    ensures IdealRing(After(net, run)) && Changes(net, run) == 0
    decreases |run|
  {
    if run != [] {
      assert !run[0].Join? && !run[0].ClearPred?;
      StepKeepsIdeal(net, run[0]);
      IdealIsStable(net, run[0]);
      StepKeepsInv(net, b, run[0]);
      IdealRingLasts(Next(net, run[0]), b, run[1..]);
    }
  }
}
