/** The test suite's graph walks: does every node reach every node by successors, and which nodes
    are linked to a start node at all. */
module RingChecker {
  import opened Wrappers
  import opened Walks

  // ---------- check_ring_connectivity ----------

  /** The nodes of the harness and the successor each one reports, if it reports any. */
  type Successors<!A> = map<A, Option<A>>

  datatype Violation<A> =
    | NoSuccessor(node: A)
    | NotAllReachable(start: A, missing: seq<A>)

  /** Everything a walk from `at` has visited in the end, having visited `seen` before: it stops at a
      repeated node, at one that is not in the harness, and at one without a successor. */
  ghost function Walked<A(!new)>(net: Successors<A>, at: A, seen: set<A>): set<A>
    decreases |net.Keys - seen|
  {
    if at in seen then seen
    else if at !in net || net[at].None? then seen + {at}
    else
      assert at in net.Keys - seen && net.Keys - (seen + {at}) == net.Keys - seen - {at};
      Walked(net, net[at].value, seen + {at})
  }

  /** The node without a successor at which that walk ends, if it ends at one. */
  ghost function StuckAt<A(!new)>(net: Successors<A>, at: A, seen: set<A>): Option<A>
    decreases |net.Keys - seen|
  {
    if at in seen || at !in net then None
    else if net[at].None? then Some(at)
    else
      assert at in net.Keys - seen && net.Keys - (seen + {at}) == net.Keys - seen - {at};
      StuckAt(net, net[at].value, seen + {at})
  }

  /** The walk from one start; `steps` counts it against twice the number of nodes. */
  method WalkFrom<A(==, !new)>(net: Successors<A>, start: A, size: nat) returns (visited: set<A>, stuck: Option<A>)
    requires size == |net| && start in net
    ensures visited == Walked(net, start, {})
    ensures stuck == StuckAt(net, start, {})
    ensures |visited| <= size + 1
  {
    visited := {};
    stuck := None;
    var current := start;
    var steps := 0;
    var maxSteps := size * 2;
    while true
      invariant visited <= net.Keys && steps == |visited|
      invariant Walked(net, start, {}) == Walked(net, current, visited)
      invariant StuckAt(net, start, {}) == StuckAt(net, current, visited)
      decreases |net.Keys - visited|
    {
      SubsetSize(visited, net.Keys);
      if current in visited {
        break;
      }
      assert steps < maxSteps by {
        SubsetSize({start}, net.Keys);
      }
      if steps >= maxSteps {
        break;
      }
      ghost var left := net.Keys - visited;
      visited := visited + {current};
      steps := steps + 1;
      if current in net {
        assert net.Keys - visited == left - {current} && current in left;
        if net[current].Some? {
          current := net[current].value;
        } else {
          return visited, Some(current);
        }
      } else {
        return;
      }
    }
  }

  function Unvisited<A(==)>(addresses: seq<A>, visited: set<A>): seq<A> {
    if addresses == [] then []
    else (if addresses[0] in visited then [] else [addresses[0]]) + Unvisited(addresses[1..], visited)
  }

  /** What is reported about one start: where its walk got stuck, and whom it missed when it did not
      visit as many nodes as there are. */
  ghost function Findings<A(!new)>(net: Successors<A>, addresses: seq<A>, a: A): seq<Violation<A>> {
    var visited, stuck := Walked(net, a, {}), StuckAt(net, a, {});
    (if stuck.Some? then [NoSuccessor(stuck.value)] else []) +
    (if |visited| != |addresses| then [NotAllReachable(a, Unvisited(addresses, visited))] else [])
  }

  ghost function Report<A(!new)>(net: Successors<A>, addresses: seq<A>, n: nat): seq<Violation<A>>
    requires n <= |addresses|
  {
    if n == 0 then [] else Report(net, addresses, n - 1) + Findings(net, addresses, addresses[n - 1])
  }

  lemma ReportNext<A(!new)>(net: Successors<A>, addresses: seq<A>, i: nat, visited: set<A>, stuck: Option<A>)
    requires i < |addresses|
    requires visited == Walked(net, addresses[i], {}) && stuck == StuckAt(net, addresses[i], {})
    ensures Report(net, addresses, i + 1) ==
            Report(net, addresses, i) + (if stuck.Some? then [NoSuccessor(stuck.value)] else []) +
            (if |visited| != |addresses| then [NotAllReachable(addresses[i], Unvisited(addresses, visited))] else [])
  {
  }

  method CheckRingConnectivity<A(==, !new)>(addresses: seq<A>, net: Successors<A>)
    returns (violations: seq<Violation<A>>)
    requires |addresses| == |net| && forall a :: a in addresses <==> a in net
    ensures violations == Report(net, addresses, |addresses|)
  {
    violations := [];
    if |addresses| == 0 {
      return;
    }
    for i := 0 to |addresses|
      invariant violations == Report(net, addresses, i)
    {
      assert addresses[i] in net;
      var visited, stuck := WalkFrom(net, addresses[i], |addresses|);
      ReportNext(net, addresses, i, visited, stuck);
      if stuck.Some? {
        violations := violations + [NoSuccessor(stuck.value)];
      }
      if |visited| != |addresses| {
        violations := violations + [NotAllReachable(addresses[i], Unvisited(addresses, visited))];
      }
    }
  }

  // ---------- what the walks and the reports say ----------

  /** c is where k steps along the reported successors lead from a, if they lead anywhere. */
  ghost predicate Follows<A(!new)>(net: Successors<A>, a: A, c: A, k: nat) {
    if k == 0 then a == c
    else a in net && net[a].Some? && Follows(net, net[a].value, c, k - 1)
  }

  ghost predicate Found<A(!new)>(net: Successors<A>, a: A, c: A) {
    exists k: nat :: Follows(net, a, c, k)
  }

  /** A resumed walk adds only nodes that follow, its start among them, and leaves none of their
      successors out. Where it gets stuck is the one node it adds that has no successor. */
  lemma {:induction false} WalkedClosed<A(!new)>(net: Successors<A>, at: A, seen: set<A>)
    ensures var w := Walked(net, at, seen);
            && seen <= w && at in w
            && (forall y :: y in w && y !in seen ==> Found(net, at, y))
            && (forall y :: y in w && y !in seen && y in net && net[y].Some? ==> net[y].value in w)
    ensures var w, stuck := Walked(net, at, seen), StuckAt(net, at, seen);
            && (stuck.Some? ==> stuck.value in w && stuck.value !in seen
                                && stuck.value in net && net[stuck.value].None?)
            && (forall y :: y in w && y !in seen && y in net && net[y].None? ==> stuck == Some(y))
    decreases |net.Keys - seen|
  {
    assert Follows(net, at, at, 0);
    if at !in seen && at in net && net[at].Some? {
      var next := net[at].value;
      assert at in net.Keys - seen && net.Keys - (seen + {at}) == net.Keys - seen - {at};
      WalkedClosed(net, next, seen + {at});
      forall y | Found(net, next, y) ensures Found(net, at, y) {
        var k: nat :| Follows(net, next, y, k);
        assert Follows(net, at, y, k + 1);
      }
    }
  }

  lemma {:induction false} FollowersWalked<A(!new)>(net: Successors<A>, w: set<A>, a: A, c: A, k: nat)
    requires a in w && Follows(net, a, c, k)
    requires forall y :: y in w && y in net && net[y].Some? ==> net[y].value in w
    ensures c in w
    decreases k
  {
    if k > 0 {
      FollowersWalked(net, w, net[a].value, c, k - 1);
    }
  }

  /** The walk from a visits exactly the nodes that follow it, and gets stuck exactly at one of them
      without a successor. */
  lemma WalkedIs<A(!new)>(net: Successors<A>, a: A)
    ensures forall c {:trigger Found(net, a, c)} :: c in Walked(net, a, {}) <==> Found(net, a, c)
    ensures forall x :: StuckAt(net, a, {}) == Some(x) <==> Found(net, a, x) && x in net && net[x].None?
  {
    WalkedClosed(net, a, {});
    forall c | Found(net, a, c) ensures c in Walked(net, a, {}) {
      var k: nat :| Follows(net, a, c, k);
      FollowersWalked(net, Walked(net, a, {}), a, c, k);
    }
  }

  lemma {:induction false} UnvisitedIs<A(!new)>(addresses: seq<A>, visited: set<A>)
    ensures forall x :: x in Unvisited(addresses, visited) <==> x in addresses && x !in visited
  {
    if addresses != [] {
      UnvisitedIs(addresses[1..], visited);
      assert forall x :: x in addresses <==> x == addresses[0] || x in addresses[1..];
    }
  }

  /** What may be said about the start a: a node without a successor that follows it; and, when those that
      follow it are not as many as there are nodes, the list of nodes that do not follow it. */
  ghost predicate SaidOf<A(!new)>(net: Successors<A>, addresses: seq<A>, a: A, v: Violation<A>) {
    match v
    case NoSuccessor(x) => Found(net, a, x) && x in net && net[x].None?
    case NotAllReachable(start, missing) =>
      && start == a && |Walked(net, a, {})| != |addresses|
      && missing == Unvisited(addresses, Walked(net, a, {}))
      && forall x :: x in missing <==> x in addresses && !Found(net, a, x)
  }

  /** All that may be said about a start is found, and nothing else. */
  lemma FindingsAre<A(!new)>(net: Successors<A>, addresses: seq<A>, a: A, v: Violation<A>)
    ensures v in Findings(net, addresses, a) <==> SaidOf(net, addresses, a, v)
  {
    WalkedIs(net, a);
    UnvisitedIs(addresses, Walked(net, a, {}));
  }

  lemma LastFindings<A(!new)>(net: Successors<A>, addresses: seq<A>, i: nat, v: Violation<A>)
    requires i < |addresses|
    ensures v in Report(net, addresses, i + 1) <==>
            v in Report(net, addresses, i) || SaidOf(net, addresses, addresses[i], v)
  {
    FindingsAre(net, addresses, addresses[i], v);
    assert Report(net, addresses, i + 1) == Report(net, addresses, i) + Findings(net, addresses, addresses[i]);
  }

  /** The report says nothing that may not be said of some start, */
  lemma {:induction false} ReportIsSound<A(!new)>(net: Successors<A>, addresses: seq<A>, n: nat, v: Violation<A>)
      returns (i: nat)
    requires n <= |addresses| && v in Report(net, addresses, n)
    ensures i < n && SaidOf(net, addresses, addresses[i], v)
  {
    i := n - 1;
    LastFindings(net, addresses, i, v);
    if !SaidOf(net, addresses, addresses[i], v) {
      i := ReportIsSound(net, addresses, i, v);
    }
  }

  /** and says of every start all that may be said. */
  lemma ReportIsComplete<A(!new)>(net: Successors<A>, addresses: seq<A>, n: nat, v: Violation<A>, i: nat)
    requires i < n <= |addresses| && SaidOf(net, addresses, addresses[i], v)
    ensures v in Report(net, addresses, n)
  {
    FindingsAre(net, addresses, addresses[i], v);
    FindingsReported(net, addresses, n, i);
  }

  lemma {:induction false} FindingsReported<A(!new)>(net: Successors<A>, addresses: seq<A>, n: nat, i: nat)
    requires i < n <= |addresses|
    ensures forall v :: v in Findings(net, addresses, addresses[i]) ==> v in Report(net, addresses, n)
    decreases n
  {
    if i < n - 1 {
      FindingsReported(net, addresses, n - 1, i);
    }
  }

  // ---------- when nothing is reported ----------

  /** The walk from a visits as many nodes as there are and never meets one without a successor. */
  ghost predicate CompleteFrom<A(!new)>(net: Successors<A>, a: A) {
    |Walked(net, a, {})| == |net| && StuckAt(net, a, {}) == None
  }

  ghost predicate AllWalksComplete<A(!new)>(net: Successors<A>) {
    forall a {:trigger CompleteFrom(net, a)} :: a in net ==> CompleteFrom(net, a)
  }

  lemma {:induction false} SilentUpTo<A(!new)>(net: Successors<A>, addresses: seq<A>, n: nat)
    requires |addresses| == |net| && n <= |addresses|
    ensures Report(net, addresses, n) == [] <==> forall j :: 0 <= j < n ==> CompleteFrom(net, addresses[j])
  {
    if n > 0 {
      SilentUpTo(net, addresses, n - 1);
      assert Findings(net, addresses, addresses[n - 1]) == [] <==> CompleteFrom(net, addresses[n - 1]);
    }
  }

  /** Every node reports a successor and that successor is a node of the harness. */
  ghost predicate Inside<A(!new)>(net: Successors<A>) {
    forall a {:trigger net[a]} :: a in net ==> net[a].Some? && net[a].value in net
  }

  ghost function Pointers<A(!new)>(net: Successors<A>): map<A, A>
    requires Inside(net)
  {
    map a | a in net :: net[a].value
  }

  lemma PointersClosed<A(!new)>(net: Successors<A>)
    requires Inside(net)
    ensures Closed(Pointers(net)) && Pointers(net).Keys == net.Keys
  {
  }

  /** The checker's walk, resumed after k fresh nodes, ends with the nodes met until the first repetition. */
  lemma WalkedIsVisited<A(!new)>(net: Successors<A>, a: A, k: nat) returns (r: nat)
    requires Inside(net) && Closed(Pointers(net)) && a in net && Fresh(Pointers(net), a, k)
    ensures var m := Pointers(net);
            && Fresh(m, a, r) && Walk(m, a, r) in Visited(m, a, r)
            && Walked(net, Walk(m, a, k), Visited(m, a, k)) == Visited(m, a, r)
            && StuckAt(net, Walk(m, a, k), Visited(m, a, k)) == None
    decreases |net.Keys| + 1 - k
  {
    var m := Pointers(net);
    PointersClosed(net);
    FreshBound(m, a, k);
    var at := Walk(m, a, k);
    if at in Visited(m, a, k) {
      r := k;
    } else {
      FreshBound(m, a, k + 1);
      WalkAdd(m, a, k, 1);
      assert Walk(m, at, 1) == Walk(m, Hop(m, at), 0);
      assert Visited(m, a, k + 1) == Visited(m, a, k) + {at};
      r := WalkedIsVisited(net, a, k + 1);
    }
  }

  /** Every node reports a successor, the successors are nodes of the harness, and they form one cycle
      through all the nodes. */
  ghost predicate IsRing<A(!new)>(net: Successors<A>) {
    Inside(net) && Closed(Pointers(net)) && OneCycle(Pointers(net))
  }

  ghost predicate NamesStranger<A(!new)>(net: Successors<A>, a: A)
    requires a in net
  {
    net[a].Some? && net[a].value !in net
  }

  /** Exactly two nodes, both naming nodes that are not in the harness. */
  ghost predicate TwoAstray<A(!new)>(net: Successors<A>) {
    |net| == 2 && forall a {:trigger NamesStranger(net, a)} :: a in net ==> NamesStranger(net, a)
  }

  /** The checker reports nothing exactly when the successors form one cycle through all the nodes, or
      when its count is fooled, which takes exactly two nodes that both name strangers. */
  lemma CheckerDecidesRing<A(!new)>(net: Successors<A>, addresses: seq<A>)
    requires |addresses| == |net| && forall a :: a in addresses <==> a in net
    ensures Report(net, addresses, |addresses|) == [] <==> IsRing(net) || TwoAstray(net)
    ensures !(IsRing(net) && TwoAstray(net))
  {
    SilentIsComplete(net, addresses);
    if AllWalksComplete(net) && !Inside(net) {
      CompleteButNotInside(net);
    }
    if Inside(net) {
      WalksDecideRing(net);
    }
    if TwoAstray(net) {
      AstrayIsComplete(net);
    }
  }

  lemma SilentIsComplete<A(!new)>(net: Successors<A>, addresses: seq<A>)
    requires |addresses| == |net| && forall a :: a in addresses <==> a in net
    ensures Report(net, addresses, |addresses|) == [] <==> AllWalksComplete(net)
  {
    SilentUpTo(net, addresses, |addresses|);
    if AllWalksComplete(net) {
      forall j | 0 <= j < |addresses| ensures CompleteFrom(net, addresses[j]) {
        assert addresses[j] in net;
      }
    }
  }

  lemma AstrayIsComplete<A(!new)>(net: Successors<A>)
    requires TwoAstray(net)
    ensures AllWalksComplete(net) && !Inside(net)
  {
    forall a | a in net ensures CompleteFrom(net, a) {
      assert NamesStranger(net, a);
      StopsAtStranger(net, a);
    }
    var a :| a in net.Keys;
    assert NamesStranger(net, a);
  }

  /** The walk from a node that names a stranger visits just the two of them. */
  lemma StopsAtStranger<A(!new)>(net: Successors<A>, a: A)
    requires a in net && NamesStranger(net, a)
    ensures Walked(net, a, {}) == {a, net[a].value} && |Walked(net, a, {})| == 2
    ensures StuckAt(net, a, {}) == None
  {
    var x := net[a].value;
    assert Walked(net, x, {} + {a}) == {a, x};
  }

  /** Where all walks visit as many nodes as there are, a node that names a stranger leaves room for
      just one other, which then has to name a stranger too. */
  lemma CompleteButNotInside<A(!new)>(net: Successors<A>)
    requires AllWalksComplete(net) && !Inside(net)
    ensures TwoAstray(net)
  {
    forall a | a in net ensures net[a].Some? {
      assert CompleteFrom(net, a);
    }
    var a :| a in net && NamesStranger(net, a);
    assert CompleteFrom(net, a);
    StopsAtStranger(net, a);
    forall b | b in net ensures NamesStranger(net, b) {
      assert CompleteFrom(net, b);
      if b != a && net[b].value in net {
        TwoNodesOnly(net, a, b);
        NamerOfNode(net, a, b);
      }
    }
  }

  lemma TwoNodesOnly<A(!new)>(net: Successors<A>, a: A, b: A)
    requires |net| == 2 && a in net && b in net && a != b
    ensures net.Keys == {a, b}
  {
    SubsetSize({a, b}, net.Keys);
  }

  /** Beside a node that names a stranger, one that names a node visits one node or three. */
  lemma NamerOfNode<A(!new)>(net: Successors<A>, a: A, b: A)
    requires net.Keys == {a, b} && a != b && NamesStranger(net, a)
    requires net[b].Some? && net[b].value in net
    ensures |Walked(net, b, {})| != 2
  {
    var x := net[a].value;
    if net[b].value == b {
      assert Walked(net, b, {} + {b}) == {b};
    } else {
      assert Walked(net, x, {b} + {a}) == {b, a, x};
      assert Walked(net, a, {} + {b}) == {b, a, x};
    }
  }

  lemma WalksDecideRing<A(!new)>(net: Successors<A>)
    requires Inside(net)
    ensures Closed(Pointers(net)) && (AllWalksComplete(net) <==> OneCycle(Pointers(net)))
  {
    var m := Pointers(net);
    PointersClosed(net);
    if AllWalksComplete(net) {
      forall a, c | a in m && c in m ensures Reaches(m, a, c) {
        var r := WalkedIsVisited(net, a, 0);
        assert CompleteFrom(net, a);
        SubsetSize(Visited(m, a, r), m.Keys);
        var j := VisitedIndex(m, a, r, c);
        assert Walk(m, a, j) == c;
      }
    }
    if OneCycle(m) {
      forall a | a in net ensures CompleteFrom(net, a) {
        var r := WalkedIsVisited(net, a, 0);
        CyclePeriod(m, a, r);
      }
    }
  }

  /** The smallest such input: two nodes that both name a third, unknown one. Nothing is reported,
      although neither visits the other. */
  lemma StrangerFoolsTheCount(net: Successors<int>, addresses: seq<int>)
    requires net == map[0 := Some(2), 1 := Some(2)] && addresses == [0, 1]
    ensures Report(net, addresses, 2) == [] && 1 !in Walked(net, 0, {}) && 0 !in Walked(net, 1, {})
  {
    assert net.Keys == {0, 1} && |net| == |net.Keys|;
    StopsAtStranger(net, 0);
    StopsAtStranger(net, 1);
    SilentUpTo(net, addresses, 2);
  }

  // ---------- find_reachable_nodes ----------

  datatype Links<A> = Links(succ: Option<A>, pred: Option<A>)

  ghost predicate Linked<A(!new)>(net: map<A, Links<A>>, a: A, c: A) {
    a in net && (net[a].succ == Some(c) || net[a].pred == Some(c))
  }

  ghost predicate ReachedIn<A(!new)>(net: map<A, Links<A>>, a: A, c: A, k: nat) {
    if k == 0 then a == c
    else exists b {:trigger Linked(net, b, c)} :: ReachedIn(net, a, b, k - 1) && Linked(net, b, c)
  }

  /** c can be reached from a along successor and predecessor links. */
  ghost predicate Connected<A(!new)>(net: map<A, Links<A>>, a: A, c: A) {
    exists k: nat :: ReachedIn(net, a, c, k)
  }

  lemma ConnectedStep<A(!new)>(net: map<A, Links<A>>, a: A, b: A, c: A)
    requires Connected(net, a, b) && Linked(net, b, c)
    ensures Connected(net, a, c)
  {
    var k: nat :| ReachedIn(net, a, b, k);
    assert ReachedIn(net, a, c, k + 1);
  }

  lemma {:induction false} ClosedContains<A(!new)>(net: map<A, Links<A>>, s: set<A>, a: A, c: A, k: nat)
    requires a in s && ReachedIn(net, a, c, k)
    requires forall x, y {:trigger Linked(net, x, y)} :: x in s && Linked(net, x, y) ==> y in s
    ensures c in s
    decreases k
  {
    if k > 0 {
      var b :| ReachedIn(net, a, b, k - 1) && Linked(net, b, c);
      ClosedContains(net, s, a, b, k - 1);
    }
  }

  /** Everything a walk can ever name. */
  ghost function Universe<A(!new)>(net: map<A, Links<A>>, start: A): set<A> {
    {start} + (set a | a in net && net[a].succ.Some? :: net[a].succ.value)
            + (set a | a in net && net[a].pred.Some? :: net[a].pred.value)
  }

  /** Nodes found or waiting are connected to the start, and a found node's links are found or waiting. */
  ghost predicate Progress<A(!new)>(net: map<A, Links<A>>, start: A, found: set<A>, stack: seq<A>) {
    && (start in found || start in stack)
    && found <= Universe(net, start)
    && (forall x {:trigger x in stack} :: x in stack ==> x in Universe(net, start) && Connected(net, start, x))
    && (forall x {:trigger x in found} :: x in found ==> Connected(net, start, x))
    && (forall x, y {:trigger Linked(net, x, y)} :: x in found && Linked(net, x, y) ==> y in found || y in stack)
  }

  function Pushed<A(==)>(stack: seq<A>, link: Option<A>, found: set<A>): seq<A> {
    if link.Some? && link.value !in found then stack + [link.value] else stack
  }

  lemma SkipProgress<A(!new)>(net: map<A, Links<A>>, start: A, found: set<A>, stack: seq<A>, x: A)
    requires Progress(net, start, found, stack + [x]) && x in found
    ensures Progress(net, start, found, stack)
  {
    forall y | y in stack ensures y in Universe(net, start) && Connected(net, start, y) {
      assert y in stack + [x];
    }
    forall a, y | a in found && Linked(net, a, y) ensures y in found || y in stack {
      assert y in found || y in stack + [x];
    }
  }

  lemma VisitProgress<A(!new)>(net: map<A, Links<A>>, start: A, found: set<A>, stack: seq<A>, x: A, stack': seq<A>)
    requires Progress(net, start, found, stack + [x]) && x !in found
    requires x !in net ==> stack' == stack
    requires x in net ==> stack' == Pushed(Pushed(stack, net[x].succ, found + {x}), net[x].pred, found + {x})
    ensures Progress(net, start, found + {x}, stack')
  {
    assert x in stack + [x];
    forall y | y in stack' ensures y in Universe(net, start) && Connected(net, start, y) {
      if y in stack {
        assert y in stack + [x];
      } else {
        assert Linked(net, x, y);
        ConnectedStep(net, start, x, y);
      }
    }
    forall a, y | a in found + {x} && Linked(net, a, y) ensures y in found + {x} || y in stack' {
      if a in found {
        assert y in found || y in stack + [x];
        assert y in stack ==> y in stack';
      }
    }
  }

  /** Successors and predecessors of nodes of s are in s. */
  ghost predicate ClosedUnderLinks<A(!new)>(net: map<A, Links<A>>, s: set<A>) {
    forall a {:trigger net[a]} :: a in s && a in net ==>
      && (net[a].succ.Some? ==> net[a].succ.value in s)
      && (net[a].pred.Some? ==> net[a].pred.value in s)
  }

  /** Being connected means to be in the least set with the start that successors and predecessors do not
      lead out of. */
  lemma ConnectedIsLeast<A(!new)>(net: map<A, Links<A>>, start: A, reachable: set<A>)
    requires forall c :: c in reachable <==> Connected(net, start, c)
    ensures start in reachable && ClosedUnderLinks(net, reachable)
    ensures forall s: set<A> :: start in s && ClosedUnderLinks(net, s) ==> reachable <= s
  {
    assert ReachedIn(net, start, start, 0);
    forall a | a in reachable && a in net
      ensures net[a].succ.Some? ==> net[a].succ.value in reachable
      ensures net[a].pred.Some? ==> net[a].pred.value in reachable
    {
      forall c | Linked(net, a, c) ensures c in reachable {
        ConnectedStep(net, start, a, c);
      }
      assert net[a].succ.Some? ==> Linked(net, a, net[a].succ.value);
      assert net[a].pred.Some? ==> Linked(net, a, net[a].pred.value);
    }
    forall s: set<A> | start in s && ClosedUnderLinks(net, s) ensures reachable <= s {
      forall c | c in reachable ensures c in s {
        var k: nat :| ReachedIn(net, start, c, k);
        ClosedContains(net, s, start, c, k);
      }
    }
  }

  /** Terminates, and returns exactly the closure of the start under both links, however often a
      node is on the stack. */
  method FindReachableNodes<A(==, !new)>(net: map<A, Links<A>>, start: A) returns (reachable: set<A>)
    ensures forall c :: c in reachable <==> Connected(net, start, c)
    ensures start in reachable && ClosedUnderLinks(net, reachable)
    ensures forall s: set<A> :: start in s && ClosedUnderLinks(net, s) ==> reachable <= s
  {
    reachable := {};
    var toVisit := [start];
    assert ReachedIn(net, start, start, 0);
    while |toVisit| > 0
      invariant Progress(net, start, reachable, toVisit)
      decreases |Universe(net, start) - reachable|, |toVisit|
    {
      var last := |toVisit| - 1;
      var address, rest := toVisit[last], toVisit[..last];
      assert toVisit == rest + [address];
      if address in reachable {
        SkipProgress(net, start, reachable, rest, address);
        toVisit := rest;
        continue;
      }
      assert address in toVisit;
      ghost var left := Universe(net, start) - reachable;
      var next := rest;
      if address in net {
        next := Pushed(next, net[address].succ, reachable + {address});
        next := Pushed(next, net[address].pred, reachable + {address});
      }
      VisitProgress(net, start, reachable, rest, address, next);
      toVisit := next;
      reachable := reachable + {address};
      assert Universe(net, start) - reachable == left - {address};
    }
    forall c | Connected(net, start, c) ensures c in reachable {
      var k: nat :| ReachedIn(net, start, c, k);
      ClosedContains(net, reachable, start, c, k);
    }
    ConnectedIsLeast(net, start, reachable);
  }
}
