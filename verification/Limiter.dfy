/** The per-host connection limiter: its table, and every interleaving of acquiring, dropping and
    the spawned decrements that may fail to get the lock. */
module Limiter {

  type Host(==) = string

  const MAX_CONNECTIONS_PER_HOST: nat := 5
  /** Thirty seconds, in milliseconds. */
  const CLEANUP_INTERVAL: nat := 30000

  /** `created` is the time of the entry's creation; nothing ever updates it. */
  datatype Stats = Stats(active: nat, created: nat)

  type Table = map<Host, Stats>

  function Age(now: nat, then_: nat): nat {
    if now < then_ then 0 else now - then_
  }

  /** Drops idle entries of at least twice the interval. */
  function CleanedUp(table: Table, now: nat): Table {
    map h | h in table && (table[h].active > 0 || Age(now, table[h].created) < CLEANUP_INTERVAL * 2) :: table[h]
  }

  /** The table after `can_connect`: cleaned when some entry is older than the interval, and with an
      entry for the host. */
  function Prepared(table: Table, host: Host, now: nat): Table {
    var t := if exists h :: h in table && Age(now, table[h].created) > CLEANUP_INTERVAL
             then CleanedUp(table, now) else table;
    if host in t then t else t[host := Stats(0, now)]
  }

  function Incremented(table: Table, host: Host): Table {
    if host in table then table[host := table[host].(active := table[host].active + 1)] else table
  }

  /** The subtraction saturates at zero. */
  function Decremented(table: Table, host: Host): Table {
    if host in table then
      var s := table[host];
      table[host := s.(active := if s.active == 0 then 0 else s.active - 1)]
    else table
  }

  /** Which entries a look at the table drops: none unless some entry is older than half a minute, and then
      just the idle ones at least a minute old. The host gets a new, idle entry if it has none then. */
  lemma PreparedIs(table: Table, host: Host, now: nat)
    ensures var t, old_ := Prepared(table, host, now), exists x :: x in table && now > table[x].created + 30000;
            && (forall h :: h in table && !(old_ && table[h].active == 0 && now >= table[h].created + 60000) ==>
                  h in t && t[h] == table[h])
            && (forall h :: h in t && h != host ==>
                  h in table && !(old_ && table[h].active == 0 && now >= table[h].created + 60000))
            && host in t
            && (host !in table || (old_ && table[host].active == 0 && now >= table[host].created + 60000) ==>
                  t[host] == Stats(0, now))
  {
    assert forall x :: x in table ==>
      (Age(now, table[x].created) > CLEANUP_INTERVAL <==> now > table[x].created + 30000);
  }

  class ConnectionLimiter {
    var stats: Table
    const maxConnections: nat

    constructor (maxConnections: nat)
      ensures stats == map[] && this.maxConnections == maxConnections
    {
      this.maxConnections := maxConnections;
      stats := map[];
    }

    method CanConnect(host: Host, now: nat) returns (ok: bool)
      modifies this
      ensures stats == Prepared(old(stats), host, now) && host in stats
      ensures ok <==> stats[host].active < maxConnections
    {
      if exists h :: h in stats && Age(now, stats[h].created) > CLEANUP_INTERVAL {
        CleanupOldEntries(now);
      }
      if host !in stats {
        stats := stats[host := Stats(0, now)];
      }
      ok := stats[host].active < maxConnections;
    }

    method IncrementCount(host: Host)
      modifies this
      ensures stats == Incremented(old(stats), host)
      ensures host in stats ==> stats[host].active == old(stats)[host].active + 1
      ensures stats.Keys == old(stats).Keys && stats - {host} == old(stats) - {host}
    {
      if host in stats {
        stats := stats[host := stats[host].(active := stats[host].active + 1)];
      }
    }

    method DecrementCount(host: Host)
      modifies this
      ensures stats == Decremented(old(stats), host)
      ensures host in stats ==>
                stats[host].active == if old(stats)[host].active > 0 then old(stats)[host].active - 1 else 0
      ensures stats.Keys == old(stats).Keys && stats - {host} == old(stats) - {host}
    {
      if host in stats {
        var s := stats[host];
        stats := stats[host := s.(active := if s.active == 0 then 0 else s.active - 1)];
      }
    }

    method CleanupOldEntries(now: nat)
      modifies this
      ensures stats == CleanedUp(old(stats), now)
      ensures forall h :: h in stats <==>
                h in old(stats) && (old(stats)[h].active > 0 || now < old(stats)[h].created + 60000)
      ensures forall h :: h in stats ==> stats[h] == old(stats)[h]
    {
      stats := CleanedUp(stats, now);
    }

    /** The locked block of `call_node_internal`. */
    method Acquire(host: Host, now: nat) returns (ok: bool)
      modifies this
      ensures ok <==> Prepared(old(stats), host, now)[host].active < maxConnections
      ensures stats == if ok then Incremented(Prepared(old(stats), host, now), host)
                       else Prepared(old(stats), host, now)
      ensures maxConnections == 5 ==> forall s: System {:trigger Done(s, Action.Acquire(host, now))} ::
                s.table == old(stats) ==>
                  && (ok <==> Granted(s, host, now))
                  && Done(s, Action.Acquire(host, now)) ==
                     s.(table := stats, live := if ok then s.live + multiset{host} else s.live)
    {
      ok := CanConnect(host, now);
      if ok {
        IncrementCount(host);
      }
      forall s: System | maxConnections == 5 && s.table == old(stats)
        ensures Done(s, Action.Acquire(host, now)) ==
                s.(table := stats, live := if ok then s.live + multiset{host} else s.live)
      {
        assert ok <==> Granted(s, host, now);
      }
    }
  }

  // ---------- all interleavings ----------

  /** The table together with, per host, the guards alive, the spawned decrements not yet run, and
      the decrements that found the lock taken. */
  datatype System = System(table: Table, live: multiset<Host>, pending: multiset<Host>, lost: multiset<Host>)

  datatype Action =
    | Acquire(host: Host, now: nat)
    | Drop(host: Host)                  // a guard is dropped and spawns its decrement
    | Decrement(host: Host, got: bool)  // the decrement runs; `got` tells whether try_lock succeeded

  const IDLE := System(map[], multiset{}, multiset{}, multiset{})

  predicate Possible(s: System, a: Action) {
    match a
    case Acquire(host, now) => true
    case Drop(host) => host in s.live
    case Decrement(host, got) => host in s.pending
  }

  /** Whether an acquire at this moment is granted. */
  predicate Granted(s: System, host: Host, now: nat) {
    Prepared(s.table, host, now)[host].active < MAX_CONNECTIONS_PER_HOST
  }

  function Done(s: System, a: Action): System
    requires Possible(s, a)
  {
    match a
    case Acquire(host, now) =>
      var t := Prepared(s.table, host, now);
      if Granted(s, host, now) then s.(table := Incremented(t, host), live := s.live + multiset{host})
      else s.(table := t)
    case Drop(host) =>
      s.(live := s.live - multiset{host}, pending := s.pending + multiset{host})
    case Decrement(host, got) =>
      var s' := s.(pending := s.pending - multiset{host});
      if got then s'.(table := Decremented(s.table, host)) else s'.(lost := s.lost + multiset{host})
  }

  predicate Feasible(s: System, run: seq<Action>)
    decreases |run|
  {
    run == [] || (Possible(s, run[0]) && Feasible(Done(s, run[0]), run[1..]))
  }

  function Outcome(s: System, run: seq<Action>): System
    requires Feasible(s, run)
    decreases |run|
  {
    if run == [] then s else Outcome(Done(s, run[0]), run[1..])
  }

  function Count(s: System, host: Host): nat {
    if host in s.table then s.table[host].active else 0
  }

  /** The books balance for a host: its count is the guards alive, the decrements still to run and
      those lost, and is within the cap. */
  ghost predicate BalancedAt(s: System, host: Host) {
    Count(s, host) == s.live[host] + s.pending[host] + s.lost[host] <= MAX_CONNECTIONS_PER_HOST
  }

  ghost predicate Balanced(s: System) {
    forall h {:trigger BalancedAt(s, h)} :: BalancedAt(s, h)
  }

  /** Cleaning up and making an entry never change a host's count: no host with live connections,
      or with decrements under way or lost, is dropped. */
  lemma PreparedKeepsCounts(s: System, host: Host, now: nat, h: Host)
    ensures var s' := s.(table := Prepared(s.table, host, now));
            host in s'.table && Count(s', h) == Count(s, h)
  {
  }

  lemma ActionKeepsBalance(s: System, a: Action)
    requires Balanced(s) && Possible(s, a)
    ensures Balanced(Done(s, a))
    ensures a.Decrement? ==> a.host in s.table && s.table[a.host].active >= 1
  {
    var s' := Done(s, a);
    if a.Decrement? {
      assert BalancedAt(s, a.host);
    }
    forall h ensures BalancedAt(s', h) {
      assert BalancedAt(s, h);
      if a.Acquire? {
        PreparedKeepsCounts(s, a.host, a.now, h);
      }
    }
  }

  lemma {:induction false} RunKeepsBalance(s: System, run: seq<Action>)
    requires Balanced(s) && Feasible(s, run)
    ensures Balanced(Outcome(s, run)) && s.lost <= Outcome(s, run).lost
    decreases |run|
  {
    if run != [] {
      ActionKeepsBalance(s, run[0]);
      RunKeepsBalance(Done(s, run[0]), run[1..]);
    }
  }

  /** In every interleaving the books balance exactly, so live connections plus pending decrements
      never exceed the count, which never exceeds five; and no decrement ever finds a count of zero
      or a missing entry to saturate on. */
  lemma LimiterBalances(run: seq<Action>, host: Host)
    requires Feasible(IDLE, run)
    ensures var s := Outcome(IDLE, run);
            && Count(s, host) == s.live[host] + s.pending[host] + s.lost[host]
            && s.live[host] + s.pending[host] <= Count(s, host) <= MAX_CONNECTIONS_PER_HOST
            && (host in s.pending ==> host in s.table && s.table[host].active >= 1)
  {
    IdleRunKeepsBalance(run);
    assert BalancedAt(Outcome(IDLE, run), host);
  }

  /** A connection is granted exactly while guards, pending and lost decrements are together fewer
      than five. */
  lemma GrantedBelowCap(run: seq<Action>, host: Host, now: nat)
    requires Feasible(IDLE, run)
    ensures var s := Outcome(IDLE, run);
            Granted(s, host, now) <==> s.live[host] + s.pending[host] + s.lost[host] < MAX_CONNECTIONS_PER_HOST
  {
    IdleRunKeepsBalance(run);
    GrantedWhenBalanced(Outcome(IDLE, run), host, now);
  }

  /** Whatever is possible after a run may happen next. */
  lemma FeasibleGoesOn(run: seq<Action>, a: Action)
    requires Feasible(IDLE, run) && Possible(Outcome(IDLE, run), a)
    ensures Feasible(IDLE, run + [a]) && Outcome(IDLE, run + [a]) == Done(Outcome(IDLE, run), a)
  {
    OneMore(IDLE, run, a);
  }

  lemma {:induction false} OneMore(s: System, run: seq<Action>, a: Action)
    requires Feasible(s, run) && Possible(Outcome(s, run), a)
    ensures Feasible(s, run + [a]) && Outcome(s, run + [a]) == Done(Outcome(s, run), a)
    decreases |run|
  {
    if run == [] {
      Preceded(s, a, []);
      assert run + [a] == [a] + [];
    } else {
      OneMore(Done(s, run[0]), run[1..], a);
      Preceded(s, run[0], run[1..] + [a]);
      assert run + [a] == [run[0]] + (run[1..] + [a]);
    }
  }

  lemma GrantedWhenBalanced(s: System, host: Host, now: nat)
    requires Balanced(s)
    ensures Granted(s, host, now) <==>
            s.live[host] + s.pending[host] + s.lost[host] < MAX_CONNECTIONS_PER_HOST
  {
    assert BalancedAt(s, host);
    PreparedKeepsCounts(s, host, now, host);
  }

  lemma IdleRunKeepsBalance(run: seq<Action>)
    requires Feasible(IDLE, run)
    ensures Balanced(Outcome(IDLE, run))
  {
    forall h ensures BalancedAt(IDLE, h) {
    }
    RunKeepsBalance(IDLE, run);
  }

  /** No continuation, whatever it does, ends in a state that grants the host a connection. */
  ghost predicate ClosedForEver(s: System, host: Host) {
    forall later, now {:trigger Granted(Outcome(s, later), host, now)} ::
      Feasible(s, later) ==> !Granted(Outcome(s, later), host, now)
  }

  /** Lost decrements never come back: a host is closed for ever exactly once it has lost five. Until
      then, letting the present guards go and their decrements through opens it again. */
  lemma LostDecrementsCountForEver(run: seq<Action>, host: Host)
    requires Feasible(IDLE, run)
    ensures ClosedForEver(Outcome(IDLE, run), host) <==>
            Outcome(IDLE, run).lost[host] >= MAX_CONNECTIONS_PER_HOST
  {
    var s := Outcome(IDLE, run);
    IdleRunKeepsBalance(run);
    if s.lost[host] >= MAX_CONNECTIONS_PER_HOST {
      forall later, now | Feasible(s, later) ensures !Granted(Outcome(s, later), host, now) {
        RunKeepsBalance(s, later);
        GrantedWhenBalanced(Outcome(s, later), host, now);
      }
    } else {
      var later := Drained(s, host);
      RunKeepsBalance(s, later);
      GrantedWhenBalanced(Outcome(s, later), host, 0);
    }
  }

  lemma Preceded(s: System, a: Action, rest: seq<Action>)
    requires Possible(s, a) && Feasible(Done(s, a), rest)
    ensures Feasible(s, [a] + rest) && Outcome(s, [a] + rest) == Outcome(Done(s, a), rest)
  {
    assert ([a] + rest)[1..] == rest;
  }

  /** All guards of a host can be dropped and all their decrements run. */
  lemma {:induction false} Drained(s: System, host: Host) returns (run: seq<Action>)
    ensures Feasible(s, run)
    ensures var s' := Outcome(s, run);
            s'.live[host] == 0 && s'.pending[host] == 0 && s'.lost[host] == s.lost[host]
    decreases 2 * s.live[host] + s.pending[host]
  {
    if host in s.live || host in s.pending {
      var a := if host in s.live then Drop(host) else Decrement(host, true);
      var rest := Drained(Done(s, a), host);
      Preceded(s, a, rest);
      run := [a] + rest;
    } else {
      run := [];
    }
  }

  /** n connections, one after the other, granted and dropped, each losing its decrement to the lock. */
  lemma {:induction false} Leaks(s: System, host: Host, now: nat, n: nat) returns (run: seq<Action>)
    requires Balanced(s) && host !in s.live && host !in s.pending
    requires s.lost[host] + n <= MAX_CONNECTIONS_PER_HOST
    ensures Feasible(s, run)
    ensures var s' := Outcome(s, run);
            s'.live == s.live && s'.pending == s.pending && s'.lost[host] == s.lost[host] + n
    decreases n
  {
    run := [];
    if n > 0 {
      GrantedWhenBalanced(s, host, now);
      var a, b, c := Acquire(host, now), Drop(host), Decrement(host, false);
      var s1 := Done(s, a);
      var s2 := Done(s1, b);
      var s3 := Done(s2, c);
      ActionKeepsBalance(s, a);
      ActionKeepsBalance(s1, b);
      ActionKeepsBalance(s2, c);
      var rest := Leaks(s3, host, now, n - 1);
      Preceded(s2, c, rest);
      Preceded(s1, b, [c] + rest);
      Preceded(s, a, [b] + ([c] + rest));
      run := [a] + ([b] + ([c] + rest));
    }
  }

  /** And it can happen to any host: five connections, one after the other, each losing its decrement,
      close it for ever with nothing open and nothing pending. */
  lemma FiveLeaksCloseAHost(host: Host, now: nat) returns (run: seq<Action>)
    ensures Feasible(IDLE, run) && Outcome(IDLE, run).live == Outcome(IDLE, run).pending == multiset{}
    ensures ClosedForEver(Outcome(IDLE, run), host)
  {
    IdleRunKeepsBalance([]);
    run := Leaks(IDLE, host, now, 5);
    LostDecrementsCountForEver(run, host);
  }
}
