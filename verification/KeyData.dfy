/** The key-value data of a node: range queries, and what a migration sends and keeps. */
module KeyData {
  import opened Ids

  datatype Value = Value(bytes: seq<Byte>)
  type Data = map<Id, seq<Value>>

  /** The pairs `get_data_range` answers with. */
  function RangeOf(data: Data, start: Id, end: Id): Data {
    map k | k in data && (IsBetween(k, start, end) || k == end) :: data[k]
  }

  /** The answer holds exactly the stored keys clockwise after start and up to end, and end itself, each
      with all its values. */
  lemma RangeIs(data: Data, start: Id, end: Id, k: Id)
    ensures k in RangeOf(data, start, end) <==>
            k in data && (0 < Dist(start, k) <= Dist(start, end) || k == end)
    ensures k in RangeOf(data, start, end) ==> RangeOf(data, start, end)[k] == data[k]
  {
  }

  /** For b strictly inside (a, c), the ranges up to b and from b split the range from a to c. */
  lemma RangesSplit(data: Data, a: Id, b: Id, c: Id)
    requires 0 < Dist(a, b) < Dist(a, c)
    ensures RangeOf(data, a, b).Keys !! RangeOf(data, b, c).Keys
    ensures RangeOf(data, a, b) + RangeOf(data, b, c) == RangeOf(data, a, c)
  {
  }

  function ValuesAt(data: Data, key: Id): seq<Value> {
    if key in data then data[key] else []
  }

  /** `data.entry(key).or_default().push(value)`. */
  function Pushed(data: Data, key: Id, value: Value): Data {
    data[key := ValuesAt(data, key) + [value]]
  }

  /** Several values stored under a key, none of them touching the table. */
  function Received(data: Data, key: Id, arrived: seq<Value>): Data {
    if arrived == [] then data else data[key := ValuesAt(data, key) + arrived]
  }

  /** One round of a migration, as it changes the table. */
  lemma RoundKeepsOthers(data: Data, key: Id, arrived: seq<Value>, value: Value)
    ensures var d := Received(data, key, arrived);
            && d - {key} == data - {key} && ValuesAt(d, key) == ValuesAt(data, key) + arrived
            && Pushed(d, key, value) - {key} == data - {key}
            && ValuesAt(Pushed(d, key, value), key) == ValuesAt(data, key) + arrived + [value]
  {
  }

  /** The values the target acknowledged among the first n, in order. */
  function Sent(values: seq<Value>, acks: seq<bool>, n: nat): seq<Value>
    requires n <= |values| == |acks|
  {
    if n == 0 then []
    else Sent(values, acks, n - 1) + if acks[n - 1] then [values[n - 1]] else []
  }

  /** What the first n sends of a migration leave under the key: whatever others stored while each
      was under way, and after it the value itself when the send failed. */
  function Left(values: seq<Value>, acks: seq<bool>, arrivals: seq<seq<Value>>, n: nat): seq<Value>
    requires n <= |values| == |acks| == |arrivals|
  {
    if n == 0 then []
    else Left(values, acks, arrivals, n - 1) + arrivals[n - 1] + if acks[n - 1] then [] else [values[n - 1]]
  }

  function Arrived(arrivals: seq<seq<Value>>, n: nat): seq<Value>
    requires n <= |arrivals|
  {
    if n == 0 then [] else Arrived(arrivals, n - 1) + arrivals[n - 1]
  }

  /** How many of the first n sends had the given result. */
  ghost function Results(acks: seq<bool>, n: nat, ok: bool): nat
    requires n <= |acks|
  {
    |set i: nat | i < n && acks[i] == ok|
  }

  lemma ResultsNext(acks: seq<bool>, n: nat, ok: bool)
    requires n < |acks|
    ensures Results(acks, 0, ok) == 0
    ensures Results(acks, n + 1, ok) == Results(acks, n, ok) + if acks[n] == ok then 1 else 0
  {
    var s := set i: nat | i < n && acks[i] == ok;
    var t := set i: nat | i < n + 1 && acks[i] == ok;
    if acks[n] == ok {
      assert t == s + {n};
    } else {
      assert t == s;
    }
  }

  /** Where each value goes: value i is acknowledged exactly when its send succeeded, at the place given
      by the successes before it. */
  lemma {:induction false} SentIs(values: seq<Value>, acks: seq<bool>, n: nat)
    requires n <= |values| == |acks|
    ensures |Sent(values, acks, n)| == Results(acks, n, true)
    ensures forall i: nat :: i < n && acks[i] ==>
              Results(acks, i, true) < |Sent(values, acks, n)| &&
              Sent(values, acks, n)[Results(acks, i, true)] == values[i]
  {
    if n > 0 {
      SentIs(values, acks, n - 1);
      ResultsNext(acks, n - 1, true);
    }
  }

  lemma {:induction false} LeftGrows(values: seq<Value>, acks: seq<bool>, arrivals: seq<seq<Value>>, i: nat, n: nat)
    requires i <= n <= |values| == |acks| == |arrivals|
    ensures |Left(values, acks, arrivals, i)| == Results(acks, i, false) + |Arrived(arrivals, i)|
    ensures Left(values, acks, arrivals, i) <= Left(values, acks, arrivals, n)
    decreases n
  {
    if i < n {
      LeftGrows(values, acks, arrivals, i, n - 1);
    } else if i > 0 {
      LeftGrows(values, acks, arrivals, i - 1, i - 1);
      ResultsNext(acks, i - 1, false);
    }
  }

  /** It stays exactly when its send failed: behind the failures before it and all that had arrived by
      then. What arrived during send i stands right before that. */
  lemma LeftIs(values: seq<Value>, acks: seq<bool>, arrivals: seq<seq<Value>>, n: nat, i: nat)
    requires i < n <= |values| == |acks| == |arrivals|
    ensures |Left(values, acks, arrivals, n)| == Results(acks, n, false) + |Arrived(arrivals, n)|
    ensures var left, at := Left(values, acks, arrivals, n), Results(acks, i, false) + |Arrived(arrivals, i)|;
            && at + |arrivals[i]| <= |left| && left[at..at + |arrivals[i]|] == arrivals[i]
            && (!acks[i] ==> at + |arrivals[i]| < |left| && left[at + |arrivals[i]|] == values[i])
  {
    LeftGrows(values, acks, arrivals, n, n);
    LeftGrows(values, acks, arrivals, i, n);
    LeftGrows(values, acks, arrivals, i + 1, n);
    var next := Left(values, acks, arrivals, i + 1);
    var at := Results(acks, i, false) + |Arrived(arrivals, i)|;
    MiddleOf(Left(values, acks, arrivals, i), arrivals[i], if acks[i] then [] else [values[i]]);
    PrefixAgrees(next, Left(values, acks, arrivals, n), at, at + |arrivals[i]|);
  }

  lemma MiddleOf<T>(s: seq<T>, t: seq<T>, u: seq<T>)
    ensures var r := s + t + u; r[|s|..|s| + |t|] == t && (u != [] ==> r[|s| + |t|] == u[0])
  {
  }

  lemma PrefixAgrees<T>(s: seq<T>, t: seq<T>, lo: nat, hi: nat)
    requires s <= t && lo <= hi <= |s|
    ensures t[lo..hi] == s[lo..hi] && (hi < |s| ==> t[hi] == s[hi])
  {
    assert t[..|s|] == s;
  }

  /** For every pattern of send results, the values acknowledged and the values left are together
      the values there were and those that arrived. */
  lemma {:induction false} MigrationConserves(values: seq<Value>, acks: seq<bool>, arrivals: seq<seq<Value>>, n: nat)
    requires n <= |values| == |acks| == |arrivals|
    ensures multiset(Sent(values, acks, n)) + multiset(Left(values, acks, arrivals, n)) ==
            multiset(values[..n]) + multiset(Arrived(arrivals, n))
  {
    if n > 0 {
      MigrationConserves(values, acks, arrivals, n - 1);
      assert values[..n] == values[..n - 1] + [values[n - 1]];
      var acked, restored := if acks[n - 1] then [values[n - 1]] else [], if acks[n - 1] then [] else [values[n - 1]];
      OneMoreConserves(Sent(values, acks, n - 1), Left(values, acks, arrivals, n - 1), values[..n - 1],
                       Arrived(arrivals, n - 1), arrivals[n - 1], values[n - 1], acked, restored);
    }
  }

  lemma WholeMigrationConserves(values: seq<Value>, acks: seq<bool>, arrivals: seq<seq<Value>>)
    requires |values| == |acks| == |arrivals|
    ensures multiset(Sent(values, acks, |acks|)) + multiset(Left(values, acks, arrivals, |acks|)) ==
            multiset(values) + multiset(Arrived(arrivals, |acks|))
  {
    MigrationConserves(values, acks, arrivals, |acks|);
    assert values[..|acks|] == values;
  }

  lemma OneMoreConserves(sent: seq<Value>, left: seq<Value>, values: seq<Value>, arrived: seq<Value>,
                         batch: seq<Value>, value: Value, acked: seq<Value>, restored: seq<Value>)
    requires multiset(sent) + multiset(left) == multiset(values) + multiset(arrived)
    requires multiset(acked) + multiset(restored) == multiset{value}
    ensures multiset(sent + acked) + multiset(left + batch + restored)
            == multiset(values + [value]) + multiset(arrived + batch)
  {
    assert multiset(left + batch) == multiset(left) + multiset(batch);
    assert multiset(left + batch + restored) == multiset(left + batch) + multiset(restored);
    var s, l, b, a, r := multiset(sent), multiset(left), multiset(batch), multiset(acked), multiset(restored);
    assert (s + a) + ((l + b) + r) == (s + l) + (b + (a + r));
    assert (multiset(values) + multiset(arrived)) + (b + multiset{value}) ==
           (multiset(values) + multiset{value}) + (multiset(arrived) + b);
  }
}
