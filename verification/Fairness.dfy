/** Convergence under fairness: when every member completes a round of `stabilize` and `notify` again
    and again, whatever else happens in between, the ring becomes ideal; and such runs always exist. */
module Fairness {
  import opened Ids
  import opened Wrappers
  import opened Pointers
  import opened Clockwise
  import opened Protocol
  import opened RingSafety
  import opened Convergence

  // ---------- rounds within a run ----------

  /** The state before event i of a run, or after the whole run. */
  ghost function State(net: Network, run: seq<Event>, i: nat): Network
    requires Legal(net, run) && i <= |run|
    decreases |run|
  {
    if i == 0 then net else State(Next(net, run[0]), run[1..], i - 1)
  }

  lemma {:induction false} StateStep(net: Network, run: seq<Event>, i: nat)
    requires Legal(net, run) && i < |run|
    ensures Enabled(State(net, run, i), run[i])
    ensures State(net, run, i + 1) == Next(State(net, run, i), run[i])
    decreases |run|
  {
    if i > 0 {
      StateStep(Next(net, run[0]), run[1..], i - 1);
    } else {
      assert State(net, run, 1) == State(Next(net, run[0]), run[1..], 0);
    }
  }

  ghost predicate SuccIs(net: Network, n: Id, s: Id) {
    n in net.members && net.members[n].at.succ == s
  }

  /** From event i on, a whole round of n: it asks its successor at i, is answered at j, uses the answer
      at k, and its notification arrives at l. A node that is alone is done with the first of these. */
  ghost predicate RoundAt(net: Network, run: seq<Event>, n: Id, i: nat, j: nat, k: nat, l: nat)
    requires Legal(net, run)
  {
    && i < |run| && run[i] == Begin(n)
    && (SuccIs(State(net, run, i), n, n) ||
        (&& i < j < k < l < |run| && run[j] == Answer(n) && run[k] == Finish(n)
         && run[l].Deliver? && run[l].from == n && SuccIs(State(net, run, k + 1), n, run[l].to)))
  }

  ghost predicate HasRound(net: Network, run: seq<Event>, n: Id) {
    Legal(net, run) && exists i: nat, j: nat, k: nat, l: nat :: RoundAt(net, run, n, i, j, k, l)
  }

  /** No joins and no cleared predecessors, and every member completes a round. Calls may also fail, more
      rounds may be under way, and notifications arrive late or again. */
  ghost predicate Fair(net: Network, run: seq<Event>) {
    && Legal(net, run) && Settling(run)
    && forall n {:trigger HasRound(net, run, n)} :: n in net.members ==> HasRound(net, run, n)
  }

  // ---------- a fair stretch that changes nothing shows an ideal ring ----------

  ghost predicate SamePointers(net: Network, net': Network) {
    && net'.members.Keys == net.members.Keys
    && forall n {:trigger net'.members[n]} :: n in net.members ==> net'.members[n].at == net.members[n].at
  }

  lemma StepFreezes(net: Network, b: Id, e: Event)
    requires Inv(net, b) && Enabled(net, e) && !e.Join?
    requires Target(e) in Next(net, e).members
    requires Moved(net.members[Target(e)].at, Next(net, e).members[Target(e)].at) == 0
    ensures SamePointers(net, Next(net, e)) && Inv(Next(net, e), b)
  {
    StepKeepsInv(net, b, e);
    StepIsLocal(net, e);
  }

  /** While no pointer changes, all states have the same pointers. */
  lemma {:induction false} Frozen(net: Network, b: Id, run: seq<Event>, i: nat)
    requires Inv(net, b) && Legal(net, run) && Settling(run) && Changes(net, run) == 0 && i <= |run|
    ensures SamePointers(net, State(net, run, i)) && Inv(State(net, run, i), b)
    decreases |run|
  {
    if i > 0 {
      assert !run[0].Join?;
      StepFreezes(net, b, run[0]);
      Frozen(Next(net, run[0]), b, run[1..], i - 1);
    }
  }

  /** If n holds an answer, it names the predecessor that the node asked has in `net`. */
  ghost predicate Fresh(net: Network, now: Network, n: Id) {
    && n in now.members
    && var flight := now.members[n].flight;
       flight.Answered? ==> flight.asked in net.members && flight.reply == net.members[flight.asked].at.pred
  }

  lemma StepKeepsFresh(net: Network, now: Network, n: Id, e: Event)
    requires Enabled(now, e) && SamePointers(net, now) && n in net.members
    requires e == Answer(n) || Fresh(net, now, n)
    ensures Fresh(net, Next(now, e), n)
  {
  }

  /** An answer given while no pointer changes names the present predecessor of the node asked. */
  lemma {:induction false} FreshReply(net: Network, b: Id, run: seq<Event>, n: Id, j: nat, k: nat)
    requires Inv(net, b) && Legal(net, run) && Settling(run) && Changes(net, run) == 0
    requires n in net.members && j < k <= |run| && run[j] == Answer(n)
    ensures Fresh(net, State(net, run, k), n)
    decreases k
  {
    Frozen(net, b, run, k - 1);
    StateStep(net, run, k - 1);
    if j < k - 1 {
      FreshReply(net, b, run, n, j, k - 1);
    }
    StepKeepsFresh(net, State(net, run, k - 1), n, run[k - 1]);
  }

  lemma RoundIsQuiet(net: Network, b: Id, run: seq<Event>, n: Id)
    requires Inv(net, b) && Legal(net, run) && Settling(run) && Changes(net, run) == 0
    requires n in net.members && HasRound(net, run, n)
    ensures QuietAt(net, n)
  {
    var i: nat, j: nat, k: nat, l: nat :| RoundAt(net, run, n, i, j, k, l);
    Frozen(net, b, run, i);
    if SuccIs(State(net, run, i), n, n) {
      StateStep(net, run, i);
      Frozen(net, b, run, i + 1);
    } else {
      FreshReply(net, b, run, n, j, k);
      FinishedQuietly(net, b, run, n, k);
      DeliveredQuietly(net, b, run, n, l);
    }
  }

  lemma FinishedQuietly(net: Network, b: Id, run: seq<Event>, n: Id, k: nat)
    requires Inv(net, b) && Legal(net, run) && Settling(run) && Changes(net, run) == 0
    requires n in net.members && k < |run| && run[k] == Finish(n) && Fresh(net, State(net, run, k), n)
    ensures var at := net.members[n].at;
            && at.succ in net.members && at.succ != n
            && Replied(n, at, at.succ, net.members[at.succ].at.pred) == at
            && SuccIs(State(net, run, k + 1), n, at.succ)
  {
    Frozen(net, b, run, k);
    StateStep(net, run, k);
    Frozen(net, b, run, k + 1);
    var mid := State(net, run, k);
    assert RecordOk(Succs(mid), n, Record(mid, n));
  }

  lemma DeliveredQuietly(net: Network, b: Id, run: seq<Event>, n: Id, l: nat)
    requires Inv(net, b) && Legal(net, run) && Settling(run) && Changes(net, run) == 0
    requires l < |run| && run[l].Deliver? && run[l].from == n
    ensures run[l].to in net.members && Notified(run[l].to, net.members[run[l].to].at, n) == net.members[run[l].to].at
  {
    Frozen(net, b, run, l);
    StateStep(net, run, l);
    Frozen(net, b, run, l + 1);
  }

  lemma ChangelessIsIdeal(net: Network, b: Id, run: seq<Event>)
    requires Inv(net, b) && Fair(net, run) && Changes(net, run) == 0
    ensures IdealRing(net)
  {
    forall n | n in net.members ensures QuietAt(net, n) {
      assert HasRound(net, run, n);
      RoundIsQuiet(net, b, run, n);
    }
    InvQuietIffIdeal(net, b);
  }

  // ---------- fair runs converge ----------

  /** A run that splits into fair stretches. */
  ghost predicate FairRun(net: Network, parts: seq<seq<Event>>)
    decreases |parts|
  {
    parts == [] || (Fair(net, parts[0]) && FairRun(After(net, parts[0]), parts[1..]))
  }

  ghost function AfterAll(net: Network, parts: seq<seq<Event>>): Network
    requires FairRun(net, parts)
    decreases |parts|
  {
    if parts == [] then net else AfterAll(After(net, parts[0]), parts[1..])
  }

  lemma {:induction false} FairRunKeepsIdeal(net: Network, b: Id, parts: seq<seq<Event>>)
    requires Inv(net, b) && IdealRing(net) && FairRun(net, parts)
    ensures IdealRing(AfterAll(net, parts)) && AfterAll(net, parts).members.Keys == net.members.Keys
    decreases |parts|
  {
    if parts != [] {
      IdealRingLasts(net, b, parts[0]);
      RunKeepsInv(net, b, parts[0]);
      RunLowersPotential(net, b, parts[0]);
      FairRunKeepsIdeal(After(net, parts[0]), b, parts[1..]);
    }
  }

  lemma {:induction false} FairRunSettles(net: Network, b: Id, parts: seq<seq<Event>>)
    requires Inv(net, b) && FairRun(net, parts) && |parts| > Potential(net)
    ensures IdealRing(AfterAll(net, parts)) && AfterAll(net, parts).members.Keys == net.members.Keys
    decreases |parts|
  {
    PotentialBounds(net);
    if Changes(net, parts[0]) == 0 {
      ChangelessIsIdeal(net, b, parts[0]);
      FairRunKeepsIdeal(net, b, parts);
    } else {
      RunKeepsInv(net, b, parts[0]);
      RunLowersPotential(net, b, parts[0]);
      FairRunSettles(After(net, parts[0]), b, parts[1..]);
    }
  }

  /** From every reachable state with N members, every run of more than 2N(N-1) fair stretches ends in
      the ideal ring of exactly the present members, however its events are interleaved, and whatever
      was in flight. */
  lemma FairRunsConverge(net: Network, b: Id, parts: seq<seq<Event>>)
    requires Reachable(net, b) && FairRun(net, parts)
    requires |parts| > |net.members| * (2 * (|net.members| - 1))
    ensures IdealRing(AfterAll(net, parts)) && AfterAll(net, parts).members.Keys == net.members.Keys
  {
    ReachableInv(net, b);
    PotentialBounds(net);
    FairRunSettles(net, b, parts);
  }

  // ---------- fair runs exist ----------

  /** What the constructions below keep of the network they start from. */
  ghost predicate SettlesTo(net: Network, run: seq<Event>, net': Network, b: Id) {
    && Legal(net, run) && Settling(run) && After(net, run) == net' && Inv(net', b)
    && net'.members.Keys == net.members.Keys
  }

  lemma SettleOne(net: Network, b: Id, e: Event)
    requires Inv(net, b) && Enabled(net, e) && !e.Join? && !e.ClearPred?
    ensures SettlesTo(net, [e], Next(net, e), b)
  {
    StepKeepsInv(net, b, e);
    StepIsLocal(net, e);
    assert [e][1..] == [];
  }

  lemma SettleMore(net: Network, run: seq<Event>, mid: Network, more: seq<Event>, end: Network, b: Id)
    requires SettlesTo(net, run, mid, b) && SettlesTo(mid, more, end, b)
    ensures SettlesTo(net, run + more, end, b)
  {
    RunAppend(net, run, more);
  }

  lemma {:induction false} StateInFirst(net: Network, run: seq<Event>, more: seq<Event>, i: nat)
    requires Legal(net, run) && Legal(After(net, run), more) && i <= |run|
    ensures Legal(net, run + more) && State(net, run + more, i) == State(net, run, i)
    decreases |run|
  {
    RunAppend(net, run, more);
    if i > 0 {
      StateInFirst(Next(net, run[0]), run[1..], more, i - 1);
      assert (run + more)[1..] == run[1..] + more;
    }
  }

  lemma {:induction false} StateInSecond(net: Network, run: seq<Event>, more: seq<Event>, i: nat)
    requires Legal(net, run) && Legal(After(net, run), more) && i <= |more|
    ensures Legal(net, run + more) && State(net, run + more, |run| + i) == State(After(net, run), more, i)
    decreases |run|
  {
    RunAppend(net, run, more);
    if run == [] {
      assert run + more == more;
    } else {
      StateInSecond(Next(net, run[0]), run[1..], more, i);
      assert (run + more)[1..] == run[1..] + more;
    }
  }

  lemma RoundInFirst(net: Network, run: seq<Event>, more: seq<Event>, n: Id)
    requires HasRound(net, run, n) && Legal(After(net, run), more)
    ensures HasRound(net, run + more, n)
  {
    var i: nat, j: nat, k: nat, l: nat :| RoundAt(net, run, n, i, j, k, l);
    StateInFirst(net, run, more, i);
    if k < |run| {
      StateInFirst(net, run, more, k + 1);
    }
    assert RoundAt(net, run + more, n, i, j, k, l);
  }

  lemma RoundInSecond(net: Network, run: seq<Event>, more: seq<Event>, n: Id)
    requires Legal(net, run) && HasRound(After(net, run), more, n)
    ensures HasRound(net, run + more, n)
  {
    var i: nat, j: nat, k: nat, l: nat :| RoundAt(After(net, run), more, n, i, j, k, l);
    var r := |run|;
    StateInSecond(net, run, more, i);
    if k < |more| {
      StateInSecond(net, run, more, k + 1);
    }
    assert RoundAt(net, run + more, n, r + i, r + j, r + k, r + l);
  }

  /** Lets a running `stabilize` of n come to nothing. */
  lemma Calm(net: Network, b: Id, n: Id) returns (run: seq<Event>, net': Network)
    requires Inv(net, b) && n in net.members
    ensures SettlesTo(net, run, net', b) && net'.members[n].flight.Idle?
  {
    if net.members[n].flight.Idle? {
      run, net' := [], net;
    } else {
      SettleOne(net, b, Abandon(n));
      run, net' := [Abandon(n)], Next(net, Abandon(n));
    }
  }

  /** The question and its answer. */
  lemma Ask(net: Network, b: Id, n: Id) returns (net': Network)
    requires Inv(net, b) && n in net.members && net.members[n].flight.Idle? && net.members[n].at.succ != n
    ensures SettlesTo(net, [Begin(n), Answer(n)], net', b) && net'.members[n].flight.Answered?
  {
    assert RecordOk(Succs(net), n, Record(net, n));
    SettleOne(net, b, Begin(n));
    var mid := Next(net, Begin(n));
    SettleOne(mid, b, Answer(n));
    net' := Next(mid, Answer(n));
    SettleMore(net, [Begin(n)], mid, [Answer(n)], net', b);
    assert [Begin(n)] + [Answer(n)] == [Begin(n), Answer(n)];
  }

  /** The answer is used and the successor notified. */
  lemma Tell(net: Network, b: Id, n: Id) returns (told: Id, net': Network)
    requires Inv(net, b) && n in net.members && net.members[n].flight.Answered?
    ensures SettlesTo(net, [Finish(n), Deliver(n, told)], net', b)
    ensures SuccIs(Next(net, Finish(n)), n, told)
  {
    SettleOne(net, b, Finish(n));
    var mid := Next(net, Finish(n));
    told := mid.members[n].at.succ;
    assert To(Succs(mid), n, told);
    var e := Deliver(n, told);
    SettleOne(mid, b, e);
    net' := Next(mid, e);
    SettleMore(net, [Finish(n)], mid, [e], net', b);
    assert [Finish(n)] + [e] == [Finish(n), e];
  }

  lemma OneRound(net: Network, b: Id, n: Id) returns (run: seq<Event>, net': Network)
    requires Inv(net, b) && n in net.members && net.members[n].flight.Idle?
    ensures SettlesTo(net, run, net', b) && HasRound(net, run, n)
  {
    if net.members[n].at.succ == n {
      SettleOne(net, b, Begin(n));
      run, net' := [Begin(n)], Next(net, Begin(n));
      assert RoundAt(net, run, n, 0, 0, 0, 0);
    } else {
      var first := [Begin(n), Answer(n)];
      var mid := Ask(net, b, n);
      var told;
      told, net' := Tell(mid, b, n);
      var second := [Finish(n), Deliver(n, told)];
      SettleMore(net, first, mid, second, net', b);
      run := first + second;
      StateInSecond(net, first, second, 0);
      StateStep(net, run, 2);
      assert RoundAt(net, run, n, 0, 1, 2, 3);
    }
  }

  /** One round after the other, for every node of a set. */
  lemma {:induction false} RoundsOf(net: Network, b: Id, todo: set<Id>) returns (run: seq<Event>, net': Network)
    requires Inv(net, b) && todo <= net.members.Keys
    ensures SettlesTo(net, run, net', b)
    ensures forall n {:trigger HasRound(net, run, n)} :: n in todo ==> HasRound(net, run, n)
    decreases todo
  {
    if todo == {} {
      run, net' := [], net;
    } else {
      var n :| n in todo;
      var first, mid := RoundsOf(net, b, todo - {n});
      var calm, mid' := Calm(mid, b, n);
      SettleMore(net, first, mid, calm, mid', b);
      var more;
      more, net' := OneRound(mid', b, n);
      SettleMore(net, first + calm, mid', more, net', b);
      run := first + calm + more;
      RoundInSecond(net, first + calm, more, n);
      forall k | k in todo - {n} ensures HasRound(net, run, k) {
        assert HasRound(net, first, k);
        RoundInFirst(net, first, calm, k);
        RoundInFirst(net, first + calm, more, k);
      }
    }
  }

  lemma {:induction false} FairRunExists(net: Network, b: Id, count: nat) returns (parts: seq<seq<Event>>)
    requires Inv(net, b)
    ensures FairRun(net, parts) && |parts| == count
    decreases count
  {
    parts := [];
    if count > 0 {
      var run, net' := RoundsOf(net, b, net.members.Keys);
      var rest := FairRunExists(net', b, count - 1);
      parts := [run] + rest;
      assert parts[1..] == rest;
    }
  }

  lemma {:induction false} InOnePiece(net: Network, parts: seq<seq<Event>>) returns (run: seq<Event>)
    requires FairRun(net, parts)
    ensures Legal(net, run) && Settling(run) && After(net, run) == AfterAll(net, parts)
    decreases |parts|
  {
    run := [];
    if parts != [] {
      var rest := InOnePiece(After(net, parts[0]), parts[1..]);
      RunAppend(net, parts[0], rest);
      run := parts[0] + rest;
    }
  }

  /** Fair runs of any length go on from every reachable network, so each can still reach the ideal ring
      of its present members. */
  lemma IdealIsAlwaysWithinReach(net: Network, b: Id, count: nat)
    requires Reachable(net, b)
    ensures exists parts :: FairRun(net, parts) && |parts| == count
    ensures exists run :: Legal(net, run) && Settling(run) &&
              IdealRing(After(net, run)) && After(net, run).members.Keys == net.members.Keys
  {
    ReachableInv(net, b);
    var some := FairRunExists(net, b, count);
    PotentialBounds(net);
    var parts := FairRunExists(net, b, Potential(net) + 1);
    FairRunSettles(net, b, parts);
    var run := InOnePiece(net, parts);
  }
}
