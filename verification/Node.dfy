/** A Chord node as an object whose fields its methods update. Each method is one stretch of the
    node's code between network calls, or a loop whose calls are answered by its parameters. */
module Node {
  import opened Ids
  import opened Wrappers
  import opened Pointers
  import opened SuccessorLists
  import opened KeyData
  import opened SizeEstimate
  import opened Replicas
  import Lookup
  import Protocol
  import Routing

  class ChordNode {
    const id: Id
    var successor: Id
    var predecessor: Option<Id>
    var successorList: seq<Id>
    var fingerTable: seq<Id>
    var data: Data
    var nodeLoads: map<Id, real>
    var sizeEstimate: real

    /** The ring pointers, as the step machine sees them. */
    function Ring(): Pointers
      reads this
    {
      Pointers(successor, predecessor)
    }

    /** What the step machine knows of this node's pointers is what its fields say. */
    ghost predicate Shows(net: Protocol.Network)
      reads this
    {
      id in net.members && net.members[id].at == Ring()
    }

    /** What the gossip knows of this node's estimate is what its field says. */
    ghost predicate Holds(g: Gossip)
      reads this
    {
      id in g.held && g.held[id] == sizeEstimate
    }

    constructor (id: Id)
      ensures this.id == id && Ring() == Lone(id)
      ensures successorList == seq(SUCCESSOR_LIST_SIZE, _ => id) && fingerTable == seq(BITS, _ => id)
      ensures successor == id && predecessor == None
      ensures data == map[] && nodeLoads == map[] && sizeEstimate == 1.0
      ensures forall g: Gossip {:trigger CanTalk(g, Create(id))} ::
                CanTalk(g, Create(id)) ==> Holds(Spoken(g, Create(id)))
    {
      this.id := id;
      successor, predecessor := id, None;
      successorList := seq(SUCCESSOR_LIST_SIZE, _ => id);
      fingerTable := seq(BITS, _ => id);
      data, nodeLoads, sizeEstimate := map[], map[], 1.0;
    }

    // ---------- ring maintenance ----------

    method StartNewNetwork()
      modifies this`successor, this`predecessor, this`successorList
      ensures successor == id && predecessor == None && successorList == [id, id, id]
      ensures Ring() == Lone(id) && Shows(Protocol.Start(id))
    {
      successor := id;
      successorList := seq(SUCCESSOR_LIST_SIZE, _ => id);
      predecessor := None;
    }

    /** `found` is what the bootstrap node answered, if anything usable. */
    method Join(found: Option<Id>, ghost net: Protocol.Network) returns (joined: bool)
      modifies this`successor
      ensures joined <==> found.Some? && found.value != id
      ensures successor == if joined then found.value else old(successor)
      ensures joined && predecessor == None && id !in net.members && found.value in net.members ==>
                var e := Protocol.Join(id, found.value);
                && Protocol.Enabled(net, e)
                && Protocol.Next(net, e) == net.(members := net.members[id := Protocol.Member(Ring(), Protocol.Idle)])
      ensures Ring() == if found.Some? then Joined(id, old(Ring()), found.value) else old(Ring())
    {
      if found.None? || found.value == id {
        return false;
      }
      successor := found.value;
      return true;
    }

    /** Up to the question for the successor's predecessor: whom to ask, if anybody. */
    method StabilizeAsk(ghost net: Protocol.Network) returns (ask: Option<Id>)
      modifies this`predecessor
      ensures predecessor == if old(successor) == id then None else old(predecessor)
      ensures old(Shows(net)) && net.members[id].flight.Idle? ==>
                var e := Protocol.Begin(id);
                && Protocol.Enabled(net, e)
                && Protocol.Next(net, e) == net.(members := net.members[id := Protocol.Member(
                     Ring(), if ask.None? then Protocol.Idle else Protocol.Asked(ask.value))])
      ensures Ring() == Began(id, old(Ring()))
      ensures ask == if old(successor) == id then None else Some(old(successor))
    {
      if id == successor {
        if predecessor.Some? {
          predecessor := None;
        }
        return None;
      }
      return Some(successor);
    }

    /** Answering such a question, here from the node `asker`. */
    method AnswerPredecessor(asker: Id, ghost net: Protocol.Network) returns (reply: Option<Id>)
      ensures reply == predecessor
      ensures Shows(net) && asker in net.members && net.members[asker].flight == Protocol.Asked(id) ==>
                var e := Protocol.Answer(asker);
                && Protocol.Enabled(net, e)
                && Protocol.Next(net, e) == net.(members := net.members[asker := Protocol.Member(
                     net.members[asker].at, Protocol.Answered(id, reply))])
    {
      reply := predecessor;
    }

    /** From the answer of `asked` to the notification: whom to notify. */
    method StabilizeUse(asked: Id, reply: Option<Id>, ghost net: Protocol.Network) returns (notify: Id)
      modifies this`successor
      ensures successor == if reply.Some? && 0 < Dist(id, reply.value) <= Dist(id, asked) then reply.value
                           else old(successor)
      ensures old(Shows(net)) && net.members[id].flight == Protocol.Answered(asked, reply) ==>
                var e := Protocol.Finish(id);
                && Protocol.Enabled(net, e)
                && Protocol.Next(net, e) == Protocol.Network(
                     net.members[id := Protocol.Member(Ring(), Protocol.Idle)], net.notices + {(id, notify)})
      ensures Ring() == Replied(id, old(Ring()), asked, reply) && notify == successor
    {
      if reply.Some? {
        var x := reply.value;
        if IsBetween(x, id, asked) {
          successor := x;
        }
      }
      notify := successor;
    }

    /** Receiving a notification: whether it was accepted and the copies then sent to the candidate. */
    method Notify(candidate: Id, ghost net: Protocol.Network) returns (accepted: bool, copies: Data)
      modifies this`successor, this`predecessor
      ensures Ring() == Notified(id, old(Ring()), candidate)
      ensures accepted <==>
                && candidate != id
                && (|| old(predecessor).None?
                    || 0 < Dist(old(predecessor).value, candidate) <= Dist(old(predecessor).value, id))
      ensures predecessor == if accepted then Some(candidate) else old(predecessor)
      ensures successor == if accepted && old(successor) == id then candidate else old(successor)
      ensures forall k :: k in copies <==> accepted && k in data && 0 < Dist(candidate, k) <= Dist(candidate, id)
      ensures forall k :: k in copies ==> copies[k] == data[k]
      ensures old(Shows(net)) && (candidate, id) in net.notices ==>
                var e := Protocol.Deliver(candidate, id);
                && Protocol.Enabled(net, e)
                && Protocol.Next(net, e) ==
                   net.(members := net.members[id := Protocol.Member(Ring(), net.members[id].flight)])
    {
      if candidate == id {
        return false, map[];
      }
      var update;
      if predecessor.None? {
        update := true;
      } else {
        update := IsBetween(candidate, predecessor.value, id);
      }
      if update {
        predecessor := Some(candidate);
        if successor == id {
          successor := candidate;
        }
        return true, RangeOf(data, candidate, id);
      }
      return false, map[];
    }

    /** check_predecessor: `pong` tells whether the predecessor answered the ping. */
    method CheckPredecessor(pong: bool, ghost net: Protocol.Network)
      modifies this`predecessor
      ensures predecessor == if pong then old(predecessor) else None
      ensures old(Shows(net)) && !pong ==>
                var e := Protocol.ClearPred(id);
                && Protocol.Enabled(net, e)
                && Protocol.Next(net, e) ==
                   net.(members := net.members[id := Protocol.Member(Ring(), net.members[id].flight)])
      ensures old(Shows(net)) && pong ==> Shows(net)
    {
      if predecessor.Some? && !pong {
        predecessor := None;
      }
    }

    // ---------- successor list and failover ----------

    method FindNextAvailableSuccessor(alive: set<Id>) returns (r: Option<Id>)
      ensures r == FirstAlive(id, successorList, alive)
      ensures r.None? ==> forall x :: x in successorList ==> x == id || x !in alive
      ensures r.Some? ==> r.value in alive && r.value != id
      ensures r.Some? ==>
                exists k :: 0 <= k < |successorList| && successorList[k] == r.value &&
                            forall i :: 0 <= i < k ==> successorList[i] == id || successorList[i] !in alive
    {
      for i := 0 to |successorList|
        invariant FirstAlive(id, successorList, alive) == FirstAlive(id, successorList[i..], alive)
        invariant forall j :: 0 <= j < i ==> successorList[j] == id || successorList[j] !in alive
      {
        var candidate := successorList[i];
        if candidate != id && candidate in alive {
          return Some(candidate);
        }
      }
      return None;
    }

    /** The two further questions are answered by `replies`, a missing entry being a failed call. */
    method UpdateSuccessorList(replies: seq<Option<Id>>)
      requires |replies| == SUCCESSOR_LIST_SIZE - 1
      modifies this`successorList
      ensures successorList == Gathered(id, successor, replies)
      ensures successorList ==
              if successor == id || replies[0].None? || replies[0].value == id then [successor, successor, successor]
              else if replies[1].None? || replies[1].value == id then
                [successor, replies[0].value, replies[0].value]
              else [successor, replies[0].value, replies[1].value]
    {
      var list := [successor];
      var current := successor;
      var i := 1;
      while i < SUCCESSOR_LIST_SIZE
        invariant 1 <= i <= SUCCESSOR_LIST_SIZE && 1 <= |list| <= i
        invariant [successor] + Named(id, successor, replies) == list + Named(id, current, replies[i - 1..])
      {
        if current == id {
          break;
        }
        var reply := replies[i - 1];
        if reply.None? || reply.value == id {
          break;
        }
        list := list + [reply.value];
        current := reply.value;
        i := i + 1;
      }
      assert Named(id, current, replies[i - 1..]) == [];
      assert list == [successor] + Named(id, successor, replies);
      successorList := FilledUp(list);
      GatheredIs(id, successor, replies,
                 if replies[0].None? || replies[0].value == id then 0
                 else if replies[1].None? || replies[1].value == id then 1 else 2);
    }

    /** Fills the remaining slots with the last entry. */
    static method FilledUp(list: seq<Id>) returns (full: seq<Id>)
      requires 1 <= |list| <= SUCCESSOR_LIST_SIZE
      ensures full == Padded(list)
    {
      full := list;
      while |full| < SUCCESSOR_LIST_SIZE
        invariant 1 <= |full| <= SUCCESSOR_LIST_SIZE
        invariant Padded(full) == Padded(list)
      {
        full := full + [full[|full| - 1]];
      }
    }

    /** The error branch of stabilize: the first live listed node becomes the successor. */
    method FailOver(alive: set<Id>, replies: seq<Option<Id>>, ghost net: Protocol.Network)
      requires |replies| == SUCCESSOR_LIST_SIZE - 1
      modifies this`successor, this`successorList
      ensures (forall x :: x in old(successorList) ==> x == id || x !in alive) ==> Ring() == old(Ring())
      ensures (forall x :: x in old(successorList) ==> x == id || x !in alive) &&
              old(Shows(net)) && !net.members[id].flight.Idle? ==>
                var e := Protocol.Abandon(id);
                && Protocol.Enabled(net, e)
                && Protocol.Next(net, e) == net.(members := net.members[id := Protocol.Member(Ring(), Protocol.Idle)])
      ensures var r := FirstAlive(id, old(successorList), alive);
              if r.Some? then successor == r.value && successorList == Gathered(id, r.value, replies)
              else successor == old(successor) && successorList == old(successorList)
    {
      var next := FindNextAvailableSuccessor(alive);
      if next.Some? {
        successor := next.value;
        UpdateSuccessorList(replies);
      }
    }

    /** The target of finger i. */
    function FingerTarget(i: nat): Id
    {
      Plus(id, Pow2(i))
    }

    /** fix_fingers for the index drawn, in a network at rest that this node is part of. The lookup's
        calls in `lost` fail; `answers` tells whether the node it found answers; `alive` answer pings. */
    method FixFinger(net: Lookup.Tables, i: nat, lost: set<nat>, answers: bool, alive: set<Id>)
      requires Lookup.Wired(net) && id in net.succ
      requires net.succ[id] == successor && net.fingers[id] == fingerTable
      requires 1 <= i < BITS
      modifies this`fingerTable
      ensures |fingerTable| == |old(fingerTable)|
      ensures forall j :: 0 <= j < |fingerTable| && j != i ==> fingerTable[j] == old(fingerTable)[j]
      ensures fingerTable[i] in net.succ || fingerTable[i] in alive
      ensures fingerTable[i] == Lookup.Answered(net, id, FingerTarget(i), lost, answers,
                                                FirstAlive(id, successorList, alive))
      ensures lost == {} && answers ==> fingerTable[i] == Routing.FixedEntry(net, id, i)
      ensures lost == {} && answers && Routing.Exact(net) ==>
                Routing.RightIfSafe(net.succ, id, FingerTarget(i), fingerTable[i])
    {
      var backup := FindNextAvailableSuccessor(alive);
      BackupAnswers(alive);
      var found := Lookup.FindSuccessor(net, id, FingerTarget(i), lost, answers, backup);
      if i < |fingerTable| {
        fingerTable := fingerTable[i := found];
      }
      if Routing.Exact(net) && lost == {} && answers {
        Routing.RepairIsRightIfSafe(net, id, i);
      }
    }

    lemma BackupAnswers(alive: set<Id>)
      ensures var r := FirstAlive(id, successorList, alive); r.Some? ==> r.value in alive
    {
      var k := FirstAliveIs(id, successorList, alive);
    }

    // ---------- size estimate ----------

    method UpdateLocalSizeEstimate(ghost g: Gossip)
      modifies this`sizeEstimate
      ensures sizeEstimate == Observe(old(sizeEstimate), LocalEstimate(id, successor))
      ensures old(Holds(g)) ==>
                var t := Measure(id, successor);
                && CanTalk(g, t)
                && Spoken(g, t) == g.(held := g.held[id := sizeEstimate],
                                      seen := g.seen + {LocalEstimate(id, successor)})
      ensures old(sizeEstimate) > 0.0 ==>
        Within(sizeEstimate, old(sizeEstimate), LocalEstimate(id, successor))
    {
      if sizeEstimate > 0.0 {
        UpdatesStayBetween(sizeEstimate, LocalEstimate(id, successor));
      }
      sizeEstimate := UpdateEstimate(sizeEstimate, LocalEstimate(id, successor), 1.0, 0.2, true, 0.1);
    }

    /** share_and_update_metrics up to the call: what is sent, if there is anybody to send it to. */
    method ShareMetrics(ghost g: Gossip) returns (sent: Option<real>)
      modifies this`sizeEstimate
      ensures sizeEstimate == Observe(old(sizeEstimate), LocalEstimate(id, successor))
      ensures sent == if successor == id then None else Some(sizeEstimate)
      ensures old(Holds(g)) && sent.Some? ==>
                var t, t' := Measure(id, successor), Send(id);
                && CanTalk(g, t) && CanTalk(Spoken(g, t), t')
                && Spoken(Spoken(g, t), t') == Gossip(g.held[id := sizeEstimate], g.requests + {sent.value},
                                                      g.replies, g.seen + {LocalEstimate(id, successor)})
    {
      UpdateLocalSizeEstimate(g);
      if successor == id {
        return None;
      }
      return Some(sizeEstimate);
    }

    method HandleShareMetrics(incoming: real, ghost g: Gossip) returns (shared: real)
      modifies this`sizeEstimate
      ensures old(Holds(g)) && incoming in g.requests ==>
                var t := Serve(id, incoming);
                && CanTalk(g, t)
                && Spoken(g, t) == g.(held := g.held[id := sizeEstimate], replies := g.replies + {shared})
      ensures old(Holds(g)) && incoming in g.replies ==>
                var t := Hear(id, incoming);
                CanTalk(g, t) && Spoken(g, t) == g.(held := g.held[id := sizeEstimate])
      ensures sizeEstimate == Mix(old(sizeEstimate), incoming) && shared == sizeEstimate
      ensures old(sizeEstimate) > 0.0 ==> Within(shared, old(sizeEstimate), incoming)
    {
      if sizeEstimate > 0.0 {
        UpdatesStayBetween(sizeEstimate, incoming);
      }
      var raw := (sizeEstimate + incoming) / 2.0;
      var bounded := ApplyBounds(sizeEstimate, raw);
      sizeEstimate := ApplySmoothing(sizeEstimate, bounded);
      shared := sizeEstimate;
    }

    // ---------- data ----------

    /** The pairs of a range, in whatever order the table yields them. */
    method GetDataRange(start: Id, end: Id) returns (pairs: seq<(Id, seq<Value>)>)
      ensures forall k, vs :: (k, vs) in pairs <==>
                k in data && vs == data[k] && (0 < Dist(start, k) <= Dist(start, end) || k == end)
      ensures forall i, j :: 0 <= i < j < |pairs| ==> pairs[i].0 != pairs[j].0
    {
      pairs := [];
      var rest := data.Keys;
      while rest != {}
        invariant rest <= data.Keys
        invariant forall k, vs :: (k, vs) in pairs <==>
                    k in RangeOf(data, start, end) && vs == data[k] && k !in rest
        invariant forall i, j :: 0 <= i < j < |pairs| ==> pairs[i].0 != pairs[j].0
        decreases rest
      {
        var key :| key in rest;
        if IsBetween(key, start, end) || key == end {
          forall i | 0 <= i < |pairs| ensures pairs[i].0 != key {
            assert (pairs[i].0, pairs[i].1) in pairs;
          }
          pairs := pairs + [(key, data[key])];
        }
        rest := rest - {key};
      }
    }

    method Store(key: Id, value: Value)
      modifies this`data
      ensures key in data
      ensures data[key] == (if key in old(data) then old(data)[key] else []) + [value]
      ensures data - {key} == old(data) - {key}
    {
      if key !in data {
        data := data[key := []];
      }
      data := data[key := data[key] + [value]];
    }

    /** migrate_key_to_node: `acks` says which sends succeed, `arrivals` what others store under the
        key while each send is under way. */
    method MigrateKeyToNode(key: Id, acks: seq<bool>, arrivals: seq<seq<Value>>) returns (acked: seq<Value>)
      requires |acks| == |arrivals| == |ValuesAt(data, key)|
      modifies this`data
      ensures acked == Sent(ValuesAt(old(data), key), acks, |acks|)
      ensures ValuesAt(data, key) == Left(ValuesAt(old(data), key), acks, arrivals, |acks|)
      ensures multiset(acked) + multiset(ValuesAt(data, key)) ==
              multiset(ValuesAt(old(data), key)) + multiset(Arrived(arrivals, |acks|))
      ensures data - {key} == old(data) - {key}
    {
      acked := [];
      if key !in data {
        return;
      }
      var values := data[key];
      data := data - {key};
      for i := 0 to |values|
        invariant acked == Sent(values, acks, i)
        invariant ValuesAt(data, key) == Left(values, acks, arrivals, i)
        invariant data - {key} == old(data) - {key}
      {
        RoundKeepsOthers(data, key, arrivals[i], values[i]);
        data := Received(data, key, arrivals[i]);
        if acks[i] {
          acked := acked + [values[i]];
        } else {
          data := Pushed(data, key, values[i]);
        }
      }
      WholeMigrationConserves(values, acks, arrivals);
    }

    /** get_replica_nodes: the primary is what the virtual-node lookup returned. */
    method ReplicaNodes(primary: Id) returns (chosen: seq<Id>)
      ensures GoodChoice(id, primary, Pool(successorList, fingerTable), nodeLoads, chosen)
    {
      chosen := GetReplicaNodes(id, primary, successorList, fingerTable, nodeLoads);
    }
  }
}
