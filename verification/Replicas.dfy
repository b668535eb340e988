/** Choosing the nodes that hold copies of a key: candidates from the successor list and every
    third finger, sorted and de-duplicated, then the least loaded of them. */
module Replicas {
  import opened Ids

  const REPLICATION_FACTOR: nat := 3

  /** Every third finger, from index `from` on. */
  function Sampled(table: seq<Id>, from: nat): seq<Id>
    decreases |table| - from
  {
    if from >= |table| then []
    else (if from % 3 == 0 then [table[from]] else []) + Sampled(table, from + 1)
  }

  /** The nodes considered: all listed successors and the fingers whose index is a multiple of 3. */
  ghost function Pool(list: seq<Id>, table: seq<Id>): set<Id> {
    (set x | x in list) + (set i | 0 <= i < |table| && i % 3 == 0 :: table[i])
  }

  ghost predicate SampledAt(table: seq<Id>, i: int, x: Id) {
    0 <= i < |table| && i % 3 == 0 && table[i] == x
  }

  lemma {:induction false} SampledIs(table: seq<Id>, from: nat, x: Id)
    ensures x in Sampled(table, from) <==> exists i :: from <= i && SampledAt(table, i, x)
    decreases |table| - from
  {
    if from < |table| {
      SampledIs(table, from + 1, x);
      assert SampledAt(table, from, x) ==> x in Sampled(table, from);
      if x in Sampled(table, from) && x !in Sampled(table, from + 1) {
        assert SampledAt(table, from, x);
      }
    }
  }

  lemma PoolIs(list: seq<Id>, table: seq<Id>)
    ensures Elements(list + Sampled(table, 0)) == Pool(list, table)
  {
    forall x ensures x in list + Sampled(table, 0) <==> x in Pool(list, table) {
      SampledIs(table, 0, x);
      assert forall i :: 0 <= i < |table| && i % 3 == 0 && table[i] == x ==> SampledAt(table, i, x);
    }
  }

  // ---------- stable sort by id, then dedup and retain ----------

  function InsertById(x: Id, s: seq<Id>): seq<Id> {
    if s == [] || x <= s[0] then [x] + s else [s[0]] + InsertById(x, s[1..])
  }

  function SortById(s: seq<Id>): seq<Id> {
    if s == [] then [] else InsertById(s[0], SortById(s[1..]))
  }

  /** Drops each entry equal to the one before it. */
  function Dedup(s: seq<Id>): seq<Id> {
    if |s| <= 1 then s
    else if s[0] == s[1] then Dedup(s[1..])
    else [s[0]] + Dedup(s[1..])
  }

  function Without(s: seq<Id>, self: Id, primary: Id): seq<Id> {
    if s == [] then []
    else (if s[0] != self && s[0] != primary then [s[0]] else []) + Without(s[1..], self, primary)
  }

  ghost function Elements(s: seq<Id>): set<Id> {
    set x | x in s
  }

  lemma HeadAndTail(s: seq<Id>)
    requires s != []
    ensures Elements(s) == {s[0]} + Elements(s[1..])
    ensures forall y :: y in s <==> y == s[0] || y in s[1..]
  {
  }

  ghost predicate Ascending(s: seq<Id>) {
    s == [] || (Ascending(s[1..]) && forall y :: y in s[1..] ==> s[0] <= y)
  }

  ghost predicate Strict(s: seq<Id>) {
    s == [] || (Strict(s[1..]) && forall y :: y in s[1..] ==> s[0] < y)
  }

  lemma {:induction false} InsertByIdIs(x: Id, s: seq<Id>)
    requires Ascending(s)
    ensures Ascending(InsertById(x, s))
    ensures forall y :: y in InsertById(x, s) <==> y == x || y in s
  {
    var r := InsertById(x, s);
    if s == [] || x <= s[0] {
      assert r[1..] == s;
      if s != [] {
        HeadAndTail(s);
      }
    } else {
      InsertByIdIs(x, s[1..]);
      HeadAndTail(s);
      assert r[1..] == InsertById(x, s[1..]);
    }
  }

  lemma {:induction false} SortByIdIs(s: seq<Id>)
    ensures Ascending(SortById(s)) && Elements(SortById(s)) == Elements(s)
  {
    if s != [] {
      SortByIdIs(s[1..]);
      HeadAndTail(s);
      InsertByIdIs(s[0], SortById(s[1..]));
      forall y ensures y in SortById(s[1..]) <==> y in s[1..] {
        assert y in Elements(SortById(s[1..])) <==> y in Elements(s[1..]);
      }
    }
  }

  lemma {:induction false} DedupIs(s: seq<Id>)
    requires Ascending(s)
    ensures Strict(Dedup(s)) && forall y :: y in Dedup(s) <==> y in s
  {
    if |s| > 1 {
      DedupIs(s[1..]);
      HeadAndTail(s);
      HeadAndTail(s[1..]);
      if s[0] != s[1] {
        assert Dedup(s)[1..] == Dedup(s[1..]);
      }
    }
  }

  lemma {:induction false} WithoutIs(s: seq<Id>, self: Id, primary: Id)
    requires Strict(s)
    ensures Strict(Without(s, self, primary))
    ensures forall y :: y in Without(s, self, primary) <==> y in s && y != self && y != primary
  {
    if s != [] {
      WithoutIs(s[1..], self, primary);
      HeadAndTail(s);
      var rest := Without(s[1..], self, primary);
      assert ([s[0]] + rest)[1..] == rest;
      assert [] + rest == rest;
    }
  }

  lemma {:induction false} StrictSize(s: seq<Id>)
    requires Strict(s)
    ensures |Elements(s)| == |s|
  {
    if s != [] {
      StrictSize(s[1..]);
      HeadAndTail(s);
      assert s[0] !in Elements(s[1..]);
    }
  }

  // ---------- stable sort by load ----------

  /** A node without a recorded load counts as idle. */
  function Load(loads: map<Id, real>, n: Id): real {
    if n in loads then loads[n] else 0.0
  }

  function InsertByLoad(loads: map<Id, real>, x: Id, s: seq<Id>): seq<Id> {
    if s == [] || Load(loads, x) <= Load(loads, s[0]) then [x] + s
    else [s[0]] + InsertByLoad(loads, x, s[1..])
  }

  function SortByLoad(loads: map<Id, real>, s: seq<Id>): seq<Id> {
    if s == [] then [] else InsertByLoad(loads, s[0], SortByLoad(loads, s[1..]))
  }

  /** Smaller load first; between equal loads the smaller id. */
  predicate Before(loads: map<Id, real>, x: Id, y: Id) {
    Load(loads, x) < Load(loads, y) || (Load(loads, x) == Load(loads, y) && x < y)
  }

  /** On recorded loads the order is the numerical one, a node without a record counting as zero. */
  lemma BeforeIs(loads: map<Id, real>, x: Id, y: Id)
    ensures x in loads && y in loads ==>
              (Before(loads, x, y) <==> loads[x] < loads[y] || (loads[x] == loads[y] && x < y))
    ensures x in loads && y !in loads ==>
              (Before(loads, x, y) <==> loads[x] < 0.0 || (loads[x] == 0.0 && x < y))
    ensures x !in loads && y in loads ==>
              (Before(loads, x, y) <==> 0.0 < loads[y] || (loads[y] == 0.0 && x < y))
    ensures x !in loads && y !in loads ==> (Before(loads, x, y) <==> x < y)
  {
  }

  ghost predicate ByLoad(loads: map<Id, real>, s: seq<Id>) {
    s == [] || (ByLoad(loads, s[1..]) && forall y :: y in s[1..] ==> Before(loads, s[0], y))
  }

  lemma {:induction false} InsertByLoadIs(loads: map<Id, real>, x: Id, s: seq<Id>)
    requires ByLoad(loads, s) && forall y :: y in s ==> x < y
    ensures var r := InsertByLoad(loads, x, s);
            ByLoad(loads, r) && |r| == |s| + 1 && forall y :: y in r <==> y == x || y in s
  {
    var r := InsertByLoad(loads, x, s);
    if s == [] || Load(loads, x) <= Load(loads, s[0]) {
      assert r[1..] == s;
      if s != [] {
        HeadAndTail(s);
      }
    } else {
      HeadAndTail(s);
      InsertByLoadIs(loads, x, s[1..]);
      assert r[1..] == InsertByLoad(loads, x, s[1..]);
    }
  }

  /** Sorting by load a list in id order, ties keeping their order. */
  lemma {:induction false} SortByLoadIs(loads: map<Id, real>, s: seq<Id>)
    requires Strict(s)
    ensures var r := SortByLoad(loads, s);
            ByLoad(loads, r) && |r| == |s| && forall y :: y in r <==> y in s
  {
    if s != [] {
      SortByLoadIs(loads, s[1..]);
      HeadAndTail(s);
      InsertByLoadIs(loads, s[0], SortByLoad(loads, s[1..]));
    }
  }

  lemma {:induction false} ByLoadAt(loads: map<Id, real>, s: seq<Id>, i: nat, j: nat)
    requires ByLoad(loads, s) && i < j < |s|
    ensures Before(loads, s[i], s[j])
  {
    if i == 0 {
      assert s[j] in s[1..];
    } else {
      ByLoadAt(loads, s[1..], i - 1, j - 1);
    }
  }

  // ---------- the choice ----------

  function Candidates(self: Id, primary: Id, list: seq<Id>, table: seq<Id>): seq<Id> {
    Without(Dedup(SortById(list + Sampled(table, 0))), self, primary)
  }

  /** What the choice promises: the primary first, then distinct other nodes, as many as wanted and
      there are, and none left out is ahead of one taken. */
  ghost predicate GoodChoice(self: Id, primary: Id, pool: set<Id>, loads: map<Id, real>, chosen: seq<Id>) {
    && 1 <= |chosen| <= REPLICATION_FACTOR && chosen[0] == primary
    && (forall i, j :: 0 <= i < j < |chosen| ==> chosen[i] != chosen[j])
    && (forall i :: 1 <= i < |chosen| ==> chosen[i] != self && chosen[i] in pool)
    && |chosen| - 1 == (if |pool - {self, primary}| < REPLICATION_FACTOR - 1
                        then |pool - {self, primary}| else REPLICATION_FACTOR - 1)
    && (forall i, y :: 1 <= i < |chosen| && y in pool && y != self && y !in chosen ==>
          Before(loads, chosen[i], y))
  }

  method SampleFingers(table: seq<Id>) returns (sampled: seq<Id>)
    ensures sampled == Sampled(table, 0)
  {
    sampled := [];
    for i := 0 to |table|
      invariant Sampled(table, 0) == sampled + Sampled(table, i)
    {
      if i % 3 == 0 {
        sampled := sampled + [table[i]];
      }
    }
  }

  /** get_replica_nodes, with the primary (found through virtual nodes) given. */
  method GetReplicaNodes(self: Id, primary: Id, list: seq<Id>, table: seq<Id>, loads: map<Id, real>)
    returns (chosen: seq<Id>)
    ensures GoodChoice(self, primary, Pool(list, table), loads, chosen)
    ensures 1 <= |chosen| <= 3 && chosen[0] == primary
    ensures forall i, j :: 0 <= i < j < |chosen| ==> chosen[i] != chosen[j]
    ensures |chosen| < 3 ==> forall n :: n in Pool(list, table) && n != self ==> n in chosen
    ensures forall n :: n in Pool(list, table) <==>
              n in list || exists i :: 0 <= i < |table| && i % 3 == 0 && table[i] == n
    ensures forall i, y :: 1 <= i < |chosen| && y in Pool(list, table) && y != self && y !in chosen ==>
              var x := chosen[i];
              var a, b := if x in loads then loads[x] else 0.0, if y in loads then loads[y] else 0.0;
              a < b || (a == b && x < y)
  {
    var sampled := SampleFingers(table);
    var all := list + sampled;
    PoolIs(list, table);
    var candidates := Without(Dedup(SortById(all)), self, primary);
    CandidatesAre(self, primary, list, table);
    var ranked := SortByLoad(loads, candidates);
    SortByLoadIs(loads, candidates);
    var wanted := if |ranked| < REPLICATION_FACTOR - 1 then |ranked| else REPLICATION_FACTOR - 1;
    chosen := [primary] + ranked[..wanted];
    ChoiceIsGood(self, primary, Elements(all), loads, ranked, wanted);
    ChoiceInNumbers(self, primary, list, table, loads, chosen);
  }

  /** A good choice spelled out: nobody is left out while there is room, and none left out is less loaded
      than one taken, a node without a recorded load counting as idle and the id deciding ties. */
  lemma ChoiceInNumbers(self: Id, primary: Id, list: seq<Id>, table: seq<Id>, loads: map<Id, real>, chosen: seq<Id>)
    requires GoodChoice(self, primary, Pool(list, table), loads, chosen)
    ensures 1 <= |chosen| <= 3 && chosen[0] == primary
    ensures forall i, j :: 0 <= i < j < |chosen| ==> chosen[i] != chosen[j]
    ensures |chosen| < 3 ==> forall n :: n in Pool(list, table) && n != self ==> n in chosen
    ensures forall n :: n in Pool(list, table) <==>
              n in list || exists i :: 0 <= i < |table| && i % 3 == 0 && table[i] == n
    ensures forall i, y :: 1 <= i < |chosen| && y in Pool(list, table) && y != self && y !in chosen ==>
              var x := chosen[i];
              var a, b := if x in loads then loads[x] else 0.0, if y in loads then loads[y] else 0.0;
              a < b || (a == b && x < y)
  {
    var rest := Pool(list, table) - {self, primary};
    if |chosen| == 2 {
      OneElement(rest, chosen[1]);
    }
    if |chosen| < 3 {
      forall n | n in Pool(list, table) && n != self ensures n in chosen {
        assert n == primary || n in rest;
        assert chosen[0] in chosen && (|chosen| == 2 ==> chosen[1] in chosen);
      }
    }
  }

  lemma OneElement(s: set<Id>, x: Id)
    requires |s| == 1 && (x in s)
    ensures s == {x}
  {
    assert |s - {x}| == 0;
  }

  lemma CandidatesAre(self: Id, primary: Id, list: seq<Id>, table: seq<Id>)
    ensures var c, pool := Candidates(self, primary, list, table), Elements(list + Sampled(table, 0)) - {self, primary};
            Strict(c) && |c| == |pool| && forall y :: y in c <==> y in pool
  {
    var all := list + Sampled(table, 0);
    SortByIdIs(all);
    DedupIs(SortById(all));
    WithoutIs(Dedup(SortById(all)), self, primary);
    var c := Candidates(self, primary, list, table);
    forall y ensures y in c <==> y in Elements(all) - {self, primary} {
      assert y in SortById(all) <==> y in Elements(SortById(all));
    }
    StrictSize(c);
    assert Elements(c) == Elements(all) - {self, primary};
  }

  lemma ChoiceIsGood(self: Id, primary: Id, pool: set<Id>, loads: map<Id, real>, ranked: seq<Id>, wanted: nat)
    requires ByLoad(loads, ranked) && |ranked| == |pool - {self, primary}|
    requires forall y :: y in ranked <==> y in pool - {self, primary}
    requires wanted == if |ranked| < REPLICATION_FACTOR - 1 then |ranked| else REPLICATION_FACTOR - 1
    ensures GoodChoice(self, primary, pool, loads, [primary] + ranked[..wanted])
  {
    var chosen := [primary] + ranked[..wanted];
    forall i, j | 0 <= i < j < |chosen| ensures chosen[i] != chosen[j] {
      if i > 0 {
        ByLoadAt(loads, ranked, i - 1, j - 1);
      }
    }
    forall i | 1 <= i < |chosen| ensures chosen[i] in pool - {self, primary} {
      assert chosen[i] == ranked[i - 1] && ranked[i - 1] in ranked;
    }
    forall i, y | 1 <= i < |chosen| && y in pool && y != self && y !in chosen
      ensures Before(loads, chosen[i], y)
    {
      LaterInRanking(loads, ranked, wanted, i - 1, primary, y);
    }
  }

  /** A ranked node that was not taken stands behind every one that was. */
  lemma LaterInRanking(loads: map<Id, real>, ranked: seq<Id>, wanted: nat, i: nat, primary: Id, y: Id)
    requires ByLoad(loads, ranked) && i < wanted <= |ranked|
    requires y !in [primary] + ranked[..wanted]
    requires y == primary || y in ranked
    ensures Before(loads, ranked[i], y)
  {
    var chosen := [primary] + ranked[..wanted];
    assert y != chosen[0];
    var j :| 0 <= j < |ranked| && ranked[j] == y;
    assert j >= wanted by {
      assert forall k :: 0 <= k < wanted ==> chosen[k + 1] == ranked[k] && chosen[k + 1] in chosen;
    }
    ByLoadAt(loads, ranked, i, j);
  }
}
