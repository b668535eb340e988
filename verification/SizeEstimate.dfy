/** Network-size estimation: each node's local estimate from its arc, the update rules that blend,
    bound and smooth it, and the gossip that spreads it. Arithmetic is over the reals. */
module SizeEstimate {
  import opened Ids
  import opened Walks
  import opened Clockwise
  import opened Sums
  import opened Tiling

  // ---------- local estimates on the ring ----------

  /** Size of the whole space over the size of the arc to the successor. */
  function LocalEstimate(self: Id, succ: Id): real {
    var range := if self <= succ then succ - self else RING - self + succ;
    if range == 0 then 1.0 else (RING as real) / (range as real)
  }

  lemma LocalEstimateIsShare(self: Id, succ: Id)
    ensures LocalEstimate(self, succ) >= 1.0
    ensures LocalEstimate(self, succ) * (Span(self, succ) as real) == RING as real
    ensures 1.0 / LocalEstimate(self, succ) == (Span(self, succ) as real) / (RING as real)
  {
    var a, r, e := Span(self, succ) as real, RING as real, LocalEstimate(self, succ);
    assert e * a == r;
    QuotientAtLeast(1.0, r, a);
    assert r / a == e;
    ReciprocalOfShare(a, r);
  }

  lemma QuotientAtLeast(x: real, y: real, a: real)
    requires a > 0.0 && x * a <= y
    ensures x <= y / a
  {
  }

  lemma ReciprocalOfShare(a: real, r: real)
    requires a > 0.0 && r > 0.0
    ensures r / a > 0.0 && 1.0 / (r / a) == a / r
  {
  }

  lemma SumOfQuotients(a: real, b: real, d: real)
    requires d > 0.0
    ensures a / d + b / d == (a + b) / d
  {
  }

  ghost function SumR(s: set<Id>, f: Id -> real): real {
    if s == {} then 0.0 else var x :| x in s; f(x) + SumR(s - {x}, f)
  }

  /** A real-valued sum of integer parts over a common denominator. */
  lemma {:induction false} SumOfShares(s: set<Id>, f: Id -> real, g: Id -> int, d: real)
    requires d > 0.0 && forall x :: x in s ==> f(x) == (g(x) as real) / d
    ensures SumR(s, f) == (Sum(s, g) as real) / d
    decreases s
  {
    if s != {} {
      var x :| x in s && SumR(s, f) == f(x) + SumR(s - {x}, f);
      SumOfShares(s - {x}, f, g, d);
      SumSplit(s, g, x);
      SumOfQuotients(g(x) as real, Sum(s - {x}, g) as real, d);
    }
  }

  /** The reciprocal of a member's estimate. */
  ghost function Share(m: Ring): Id -> real {
    n => if n in m then 1.0 / LocalEstimate(n, m[n]) else 0.0
  }

  lemma SharesAddUp(m: Ring)
    requires Ideal(m) && m.Keys != {}
    ensures SumR(m.Keys, Share(m)) == 1.0
  {
    ArcsTile(m);
    forall n | n in m.Keys ensures Share(m)(n) == (ArcOf(m)(n) as real) / (RING as real) {
      LocalEstimateIsShare(n, m[n]);
    }
    SumOfShares(m.Keys, Share(m), ArcOf(m), RING as real);
    Whole(RING as real);
  }

  lemma Whole(d: real)
    requires d > 0.0
    ensures d / d == 1.0
  {
  }

  lemma EstimateOfArc(self: Id, succ: Id, n: nat)
    ensures n * Span(self, succ) <= RING ==> LocalEstimate(self, succ) >= n as real
    ensures n * Span(self, succ) >= RING ==> LocalEstimate(self, succ) <= n as real
  {
    LocalEstimateIsShare(self, succ);
  }

  /** On an ideal ring of N members the reciprocals of the local estimates add up to one, so some
      member estimates at least N and some member at most N. */
  lemma EstimatesStraddleTheTruth(m: Ring) returns (high: Id, low: Id)
    requires Ideal(m) && m.Keys != {}
    ensures SumR(m.Keys, Share(m)) == 1.0
    ensures high in m && LocalEstimate(high, m[high]) >= |m.Keys| as real
    ensures low in m && LocalEstimate(low, m[low]) <= |m.Keys| as real
  {
    SharesAddUp(m);
    ArcsTile(m);
    high := SmallTerm(m.Keys, ArcOf(m));
    EstimateOfArc(high, m[high], |m.Keys|);
    low := LargeTerm(m.Keys, ArcOf(m));
    EstimateOfArc(low, m[low], |m.Keys|);
  }

  // ---------- the update rules ----------

  function Max(a: real, b: real): real { if a >= b then a else b }
  function Min(a: real, b: real): real { if a <= b then a else b }

  function ApplyBounds(old_: real, new_: real): real {
    Min(Max(new_, old_ / 4.0), old_ * 4.0)
  }

  function ApplySmoothing(old_: real, new_: real): real {
    (1.0 - 0.1) * old_ + 0.1 * new_
  }

  function UpdateEstimate(current: real, local: real, size: real, contribution: real,
                          bounded: bool, smoothing: real): real {
    var raw :=
      if current == 0.0 then local * size
      else
        var blended := (1.0 - contribution) * current + contribution * (local * size);
        if bounded then ApplyBounds(current, blended) else blended;
    if current > 0.0 then (1.0 - smoothing) * current + smoothing * raw else raw
  }

  /** The network-size part of `update_local_metrics`. */
  function Observe(current: real, local: real): real {
    UpdateEstimate(current, local, 1.0, 0.2, true, 0.1)
  }

  /** The network-size part of `handle_share_metrics`. */
  function Mix(local: real, incoming: real): real {
    ApplySmoothing(local, ApplyBounds(local, (local + incoming) / 2.0))
  }

  predicate Within(x: real, a: real, b: real) {
    Min(a, b) <= x <= Max(a, b)
  }

  /** Bounding stays between the old and the new value exactly when the old value is not negative
      or the new one is already below the (then inverted) bounds. */
  lemma BoundsStayBetween(old_: real, new_: real)
    ensures Within(ApplyBounds(old_, new_), old_, new_) <==> (old_ >= 0.0 || new_ <= 4.0 * old_)
  {
  }

  /** Both update rules stay between the node's own estimate and the value they are fed. */
  lemma UpdatesStayBetween(own: real, fed: real)
    requires own > 0.0
    ensures Within(Mix(own, fed), own, fed) && Within(Observe(own, fed), own, fed)
  {
  }

  /** In effect, for estimates that are not negative: the lower bound never binds, the upper one only
      for news more than 7 times (from a peer) or 16 times (from the ring) the own estimate, and a
      single update then raises it by 30 percent. */
  lemma UpdatesClosedForm(own: real, fed: real)
    requires own > 0.0 && fed >= 0.0
    ensures Mix(own, fed) == if fed <= 7.0 * own then 0.95 * own + 0.05 * fed else 1.3 * own
    ensures Observe(own, fed) == if fed <= 16.0 * own then 0.98 * own + 0.02 * fed else 1.3 * own
  {
  }

  /** The same for all estimates, however they came about: from the ring, zero is replaced by the local
      estimate at once and a negative one quadrupled; from a peer, zero stays zero for ever. */
  lemma UpdatesInGeneral(own: real, fed: real)
    ensures Observe(own, fed) ==
            if own == 0.0 then fed
            else if own < 0.0 then 4.0 * own
            else if fed > 16.0 * own then 1.3 * own
            else if fed < -2.75 * own then 0.925 * own
            else 0.98 * own + 0.02 * fed
    ensures Mix(own, fed) ==
            if own <= 0.0 then 1.3 * own
            else if fed > 7.0 * own then 1.3 * own
            else if fed < -0.5 * own then 0.925 * own
            else 0.95 * own + 0.05 * fed
  {
  }

  // ---------- gossip ----------

  /** Estimates held by the nodes, estimates travelling in requests and replies, and every local
      ring estimate computed so far. */
  datatype Gossip = Gossip(held: map<Id, real>, requests: set<real>, replies: set<real>, seen: set<real>)

  datatype Talk =
    | Create(n: Id)               // a new node starts from the default metrics
    | Measure(n: Id, succ: Id)    // update_local_metrics with the present successor
    | Send(n: Id)                 // share_and_update_metrics sends a copy
    | Serve(n: Id, value: real)   // a request arrives and is answered with the updated copy
    | Hear(n: Id, value: real)    // a reply arrives

  const QUIET_START := Gossip(map[], {}, {}, {})

  predicate CanTalk(g: Gossip, t: Talk) {
    match t
    case Create(n) => n !in g.held
    case Measure(n, succ) => n in g.held
    case Send(n) => n in g.held
    case Serve(n, value) => n in g.held && value in g.requests
    case Hear(n, value) => n in g.held && value in g.replies
  }

  function Spoken(g: Gossip, t: Talk): Gossip
    requires CanTalk(g, t)
  {
    match t
    case Create(n) => g.(held := g.held[n := 1.0])
    case Measure(n, succ) =>
      var local := LocalEstimate(n, succ);
      g.(held := g.held[n := Observe(g.held[n], local)], seen := g.seen + {local})
    case Send(n) => g.(requests := g.requests + {g.held[n]})
    case Serve(n, value) =>
      var mixed := Mix(g.held[n], value);
      g.(held := g.held[n := mixed], replies := g.replies + {mixed})
    case Hear(n, value) => g.(held := g.held[n := Mix(g.held[n], value)])
  }

  /** What is said stays said: copies in flight are those of estimates once held, and can always arrive,
      late or again. */
  lemma {:induction false} TalkLasts(g: Gossip, run: seq<Talk>)
    requires LegalTalk(g, run)
    ensures var g' := AfterTalk(g, run);
            g.held.Keys <= g'.held.Keys && g.requests <= g'.requests && g.replies <= g'.replies && g.seen <= g'.seen
    decreases |run|
  {
    if run != [] {
      TalkLasts(Spoken(g, run[0]), run[1..]);
    }
  }

  predicate LegalTalk(g: Gossip, run: seq<Talk>)
    decreases |run|
  {
    run == [] || (CanTalk(g, run[0]) && LegalTalk(Spoken(g, run[0]), run[1..]))
  }

  function AfterTalk(g: Gossip, run: seq<Talk>): Gossip
    requires LegalTalk(g, run)
    decreases |run|
  {
    if run == [] then g else AfterTalk(Spoken(g, run[0]), run[1..])
  }

  /** Whatever can be said after a run may be said next. */
  lemma {:induction false} TalkGoesOn(g: Gossip, run: seq<Talk>, t: Talk)
    requires LegalTalk(g, run) && CanTalk(AfterTalk(g, run), t)
    ensures LegalTalk(g, run + [t]) && AfterTalk(g, run + [t]) == Spoken(AfterTalk(g, run), t)
    decreases |run|
  {
    if run == [] {
      assert run + [t] == [t] && [t][1..] == [];
    } else {
      TalkGoesOn(Spoken(g, run[0]), run[1..], t);
      assert (run + [t])[1..] == run[1..] + [t];
    }
  }

  predicate AllWithin(s: set<real>, lo: real, hi: real) {
    forall x :: x in s ==> lo <= x <= hi
  }

  ghost predicate InHull(g: Gossip, lo: real, hi: real) {
    && (forall n :: n in g.held ==> lo <= g.held[n] <= hi)
    && AllWithin(g.requests, lo, hi) && AllWithin(g.replies, lo, hi)
  }

  lemma StepInHull(g: Gossip, t: Talk, lo: real, hi: real)
    requires 0.0 < lo <= 1.0 <= hi && InHull(g, lo, hi) && CanTalk(g, t)
    requires AllWithin(Spoken(g, t).seen, lo, hi)
    ensures InHull(Spoken(g, t), lo, hi)
  {
    match t
    case Create(n) =>
    case Send(n) =>
    case Measure(n, succ) => UpdatesStayBetween(g.held[n], LocalEstimate(n, succ));
    case Serve(n, value) => UpdatesStayBetween(g.held[n], value);
    case Hear(n, value) => UpdatesStayBetween(g.held[n], value);
  }

  lemma {:induction false} RunInHull(g: Gossip, run: seq<Talk>, lo: real, hi: real)
    requires 0.0 < lo <= 1.0 <= hi && InHull(g, lo, hi) && LegalTalk(g, run)
    requires AllWithin(AfterTalk(g, run).seen, lo, hi)
    ensures InHull(AfterTalk(g, run), lo, hi)
    decreases |run|
  {
    if run != [] {
      TalkLasts(Spoken(g, run[0]), run[1..]);
      StepInHull(g, run[0], lo, hi);
      RunInHull(Spoken(g, run[0]), run[1..], lo, hi);
    }
  }

  lemma {:induction false} SeenAtLeastOne(g: Gossip, run: seq<Talk>)
    requires LegalTalk(g, run) && forall x :: x in g.seen ==> x >= 1.0
    ensures forall x :: x in AfterTalk(g, run).seen ==> x >= 1.0
    decreases |run|
  {
    if run != [] {
      if run[0].Measure? {
        LocalEstimateIsShare(run[0].n, run[0].succ);
      }
      SeenAtLeastOne(Spoken(g, run[0]), run[1..]);
    }
  }

  /** After every gossip run, every estimate held or in flight lies between 1 and the largest local
      ring estimate seen so far. */
  lemma GossipStaysInHull(run: seq<Talk>, hi: real)
    requires LegalTalk(QUIET_START, run)
    requires hi >= 1.0 && forall x :: x in AfterTalk(QUIET_START, run).seen ==> x <= hi
    ensures InHull(AfterTalk(QUIET_START, run), 1.0, hi)
  {
    SeenAtLeastOne(QUIET_START, run);
    RunInHull(QUIET_START, run, 1.0, hi);
  }
}
