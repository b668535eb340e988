/** Successor lists: how they are gathered and padded, what they hold on an ideal ring, and which
    backup successor failover takes from them. */
module SuccessorLists {
  import opened Ids
  import opened Wrappers
  import opened Walks
  import opened Clockwise
  import opened Tiling

  const SUCCESSOR_LIST_SIZE: nat := 3

  /** The nodes named in turn, starting from `current`, until one is the node itself, or a call
      fails (None). Each reply answers a question to the node named before it. */
  function Named(self: Id, current: Id, replies: seq<Option<Id>>): seq<Id>
    decreases |replies|
  {
    if replies == [] || current == self || replies[0].None? || replies[0].value == self then []
    else [replies[0].value] + Named(self, replies[0].value, replies[1..])
  }

  /** Repeats the last entry up to the fixed size. */
  function Padded(list: seq<Id>): seq<Id>
    requires list != []
    decreases SUCCESSOR_LIST_SIZE - |list|
  {
    if |list| >= SUCCESSOR_LIST_SIZE then list else Padded(list + [list[|list| - 1]])
  }

  /** The list `update_successor_list` stores. */
  function Gathered(self: Id, succ: Id, replies: seq<Option<Id>>): seq<Id> {
    Padded([succ] + Named(self, succ, replies))
  }

  lemma {:induction false} NamedAvoidsSelf(self: Id, current: Id, replies: seq<Option<Id>>)
    ensures self !in Named(self, current, replies) && |Named(self, current, replies)| <= |replies|
    decreases |replies|
  {
    if replies != [] && replies[0].Some? {
      NamedAvoidsSelf(self, replies[0].value, replies[1..]);
    }
  }

  lemma {:induction false} PaddedKeeps(list: seq<Id>)
    requires 1 <= |list| <= SUCCESSOR_LIST_SIZE
    ensures |Padded(list)| == SUCCESSOR_LIST_SIZE
    ensures forall i :: 0 <= i < SUCCESSOR_LIST_SIZE ==>
              Padded(list)[i] == list[if i < |list| then i else |list| - 1]
    decreases SUCCESSOR_LIST_SIZE - |list|
  {
    if |list| < SUCCESSOR_LIST_SIZE {
      PaddedKeeps(list + [list[|list| - 1]]);
    }
  }

  /** Whatever the replies: three entries, the successor first, and the node itself is listed only
      if it is its own successor. */
  lemma GatheredAlways(self: Id, succ: Id, replies: seq<Option<Id>>)
    requires |replies| == SUCCESSOR_LIST_SIZE - 1
    ensures var list := Gathered(self, succ, replies);
            && |list| == SUCCESSOR_LIST_SIZE && list[0] == succ
            && (self in list <==> self == succ)
  {
    NamedAvoidsSelf(self, succ, replies);
    var first := [succ] + Named(self, succ, replies);
    PaddedKeeps(first);
    var list := Padded(first);
    forall i | 0 <= i < SUCCESSOR_LIST_SIZE ensures list[i] in first {
    }
  }

  /** With k usable replies before the first that fails or names the node itself, just these k are named. */
  lemma {:induction false} NamedIs(self: Id, current: Id, replies: seq<Option<Id>>, k: nat)
    requires current != self && k <= |replies|
    requires forall i :: 0 <= i < k ==> replies[i].Some? && replies[i].value != self
    requires k < |replies| ==> replies[k].None? || replies[k].value == self
    ensures |Named(self, current, replies)| == k
    ensures forall i :: 0 <= i < k ==> Named(self, current, replies)[i] == replies[i].value
    decreases k
  {
    if k > 0 {
      NamedIs(self, replies[0].value, replies[1..], k - 1);
    }
  }

  /** Whatever the replies, and wherever they break off: the list is the successor and the usable replies,
      in order, the last of them repeated. */
  lemma GatheredIs(self: Id, succ: Id, replies: seq<Option<Id>>, k: nat)
    requires |replies| == SUCCESSOR_LIST_SIZE - 1 && k <= |replies|
    requires forall i :: 0 <= i < k ==> replies[i].Some? && replies[i].value != self
    requires k < |replies| ==> replies[k].None? || replies[k].value == self
    ensures var list := Gathered(self, succ, replies);
            && |list| == 3
            && (succ == self ==> list == [succ, succ, succ])
            && (succ != self ==> forall i :: 0 <= i < 3 ==>
                  var last := if i < k then i else k;
                  list[i] == if last == 0 then succ else replies[last - 1].value)
  {
    if succ == self {
      assert [succ] + Named(self, succ, replies) == [succ];
      PaddedKeeps([succ]);
    } else {
      NamedIs(self, succ, replies, k);
      PaddedKeeps([succ] + Named(self, succ, replies));
    }
  }

  // ---------- on an ideal ring ----------

  /** What the members of a ring at rest reply to the questions of n. */
  ghost function RingReplies(m: Ring, n: Id): seq<Option<Id>>
    requires Closed(m) && n in m
  {
    [Some(Walk(m, n, 2)), Some(Walk(m, n, 3))]
  }

  /** The list of n when its successor is w1 and the nodes after that, on a ring of `size`
      members, name w2 and w3. */
  lemma ListOfThree(n: Id, w1: Id, w2: Id, w3: Id, size: nat)
    requires size >= 2 && w1 != n && (w2 == n <==> size == 2)
    requires size >= 3 ==> (w3 == n <==> size == 3)
    ensures Gathered(n, w1, [Some(w2), Some(w3)]) ==
            [w1, if size == 2 then w1 else w2, if size == 2 then w1 else if size == 3 then w2 else w3]
  {
    var replies: seq<Option<Id>> := [Some(w2), Some(w3)];
    assert replies[1..] == [Some(w3)] && replies[1..][1..] == [];
    assert Named(n, w3, replies[1..][1..]) == [];
    assert Named(n, w2, replies[1..]) == if w2 == n || w3 == n then [] else [w3];
    var named := Named(n, w1, replies);
    assert named == if size == 2 then [] else if size == 3 then [w2] else [w2, w3];
    PaddedKeeps([w1] + named);
  }

  lemma WalkOne(m: Ring, n: Id)
    requires Closed(m) && n in m
    ensures Walk(m, n, 1) == Hop(m, n)
  {
  }

  lemma FirstFewReturns(m: Ring, n: Id)
    requires Ideal(m) && n in m && |m.Keys| >= 2
    ensures Walk(m, n, 1) == Hop(m, n) != n
    ensures Walk(m, n, 2) == n <==> |m.Keys| == 2
    ensures |m.Keys| >= 3 ==> (Walk(m, n, 3) == n <==> |m.Keys| == 3)
  {
    WalkOne(m, n);
    ReturnsOnlyAtEnd(m, n, 1);
    ReturnsOnlyAtEnd(m, n, 2);
    if |m.Keys| >= 3 {
      ReturnsOnlyAtEnd(m, n, 3);
    }
  }

  /** The k-th member clockwise from n. */
  ghost function Entry(m: Ring, n: Id, k: nat): (r: Id)
    requires Closed(m) && n in m
    ensures r in m
  {
    Walk(m, n, k)
  }

  /** On an ideal ring of N >= 2 members the list holds the first min(3, N - 1) members clockwise,
      padded with the last of them. */
  lemma IdealList(m: Ring, n: Id)
    requires Ideal(m) && n in m && |m.Keys| >= 2
    ensures var list, last := Gathered(n, Hop(m, n), RingReplies(m, n)), |m.Keys| - 1;
            && |list| == SUCCESSOR_LIST_SIZE
            && forall i :: 0 <= i < SUCCESSOR_LIST_SIZE ==>
                 list[i] == Entry(m, n, if i + 1 <= last then i + 1 else last)
  {
    FirstFewReturns(m, n);
    ListOfThree(n, Walk(m, n, 1), Walk(m, n, 2), Walk(m, n, 3), |m.Keys|);
  }

  /** Within the first N steps a walk on an ideal ring of N members returns only at the end. */
  lemma ReturnsOnlyAtEnd(m: Ring, n: Id, k: nat)
    requires Ideal(m) && n in m && 1 <= k <= |m.Keys|
    ensures Walk(m, n, k) == n <==> k == |m.Keys|
  {
    IdealIsOneCycle(m);
    CycleTour(m, n);
    if k < |m.Keys| {
      FreshAt(m, n, |m.Keys|, k);
      VisitedHas(m, n, k, 0);
    }
  }

  /** Members not among the first k clockwise are farther than the k-th. */
  lemma {:induction false} NearerFirst(m: Ring, n: Id, k: nat, y: Id)
    requires Ideal(m) && n in m && y in m && y != n && k >= 1
    requires forall i: nat {:trigger Walk(m, n, i)} :: 1 <= i <= k ==> Walk(m, n, i) != y
    ensures Span(n, Walk(m, n, k)) < Span(n, y)
    decreases k
  {
    if k == 1 {
      assert Walk(m, n, 1) == Walk(m, Hop(m, n), 0);
      assert Span(n, Hop(m, n)) <= Span(n, y);
    } else {
      NearerFirst(m, n, k - 1, y);
      var w := Walk(m, n, k - 1);
      WalkAdd(m, n, k - 1, 1);
      assert Walk(m, w, 1) == Walk(m, Hop(m, w), 0);
      assert Walk(m, n, k) != y;
      assert Span(w, Hop(m, w)) <= Span(w, y);
    }
  }

  // ---------- failover ----------

  /** The first listed node other than oneself that answers a ping. */
  function FirstAlive(self: Id, list: seq<Id>, alive: set<Id>): Option<Id> {
    if list == [] then None
    else if list[0] != self && list[0] in alive then Some(list[0])
    else FirstAlive(self, list[1..], alive)
  }

  lemma {:induction false} FirstAliveIs(self: Id, list: seq<Id>, alive: set<Id>) returns (k: nat)
    ensures var r := FirstAlive(self, list, alive);
            && (r.None? <==> forall i :: 0 <= i < |list| ==> list[i] == self || list[i] !in alive)
            && (r.Some? ==> k < |list| && r.value == list[k] && list[k] != self && list[k] in alive
                            && forall i :: 0 <= i < k ==> list[i] == self || list[i] !in alive)
    decreases |list|
  {
    k := 0;
    if list != [] && !(list[0] != self && list[0] in alive) {
      var j := FirstAliveIs(self, list[1..], alive);
      k := j + 1;
    }
  }

  /** The first live one among the nearest k members is nearest of all live ones. */
  lemma NearestLive(m: Ring, n: Id, k: nat, alive: set<Id>, y: Id)
    requires Ideal(m) && n in m && k >= 1 && y in m && y in alive && y != n
    requires forall i {:trigger Entry(m, n, i)} :: 1 <= i < k ==> Entry(m, n, i) !in alive
    ensures Span(n, Entry(m, n, k)) <= Span(n, y)
  {
    if y != Entry(m, n, k) {
      forall i: nat | 1 <= i <= k ensures Walk(m, n, i) != y {
        assert i < k ==> Entry(m, n, i) !in alive;
        assert Entry(m, n, i) == Walk(m, n, i);
      }
      NearerFirst(m, n, k, y);
    }
  }

  /** After any crashes on an ideal ring, failover takes the nearest live member clockwise whenever
      any listed one is alive, and gives up exactly when none is. */
  lemma FailoverTakesNearest(m: Ring, n: Id, alive: set<Id>)
    requires Ideal(m) && n in m && |m.Keys| >= 2
    ensures var list := Gathered(n, Hop(m, n), RingReplies(m, n));
            var r := FirstAlive(n, list, alive);
            && (r.Some? <==> exists x :: x in list && x in alive)
            && (r.Some? ==> r.value in m && r.value in alive && r.value != n)
            && (r.Some? ==> forall y :: y in m && y in alive && y != n ==> Span(n, r.value) <= Span(n, y))
  {
    var list := Gathered(n, Hop(m, n), RingReplies(m, n));
    IdealList(m, n);
    ReturnsOnlyAtEnd(m, n, 1);
    WalkOne(m, n);
    GatheredAlways(n, Hop(m, n), RingReplies(m, n));
    var k := FirstAliveIs(n, list, alive);
    var r := FirstAlive(n, list, alive);
    if r.Some? {
      var last := |m.Keys| - 1;
      var step := if k + 1 <= last then k + 1 else last;
      forall i | 1 <= i < step ensures Entry(m, n, i) !in alive {
        assert list[i - 1] == Entry(m, n, i);
      }
      forall y | y in m && y in alive && y != n ensures Span(n, r.value) <= Span(n, y) {
        NearestLive(m, n, step, alive, y);
      }
    }
  }
}
