/** The ring as an asynchronous step machine. Every stretch of a node's code between two network
    calls is one step; questions, answers and notifications are in flight in between. */
module Protocol {
  import opened Ids
  import opened Wrappers
  import opened Pointers
  import opened Clockwise

  /** Where a node's only running `stabilize` stands. */
  datatype Flight =
    | Idle
    | Asked(asked: Id)
    | Answered(asked: Id, reply: Option<Id>)

  datatype Member = Member(at: Pointers, flight: Flight)

  /** `notices` holds every (from, to) notification ever sent: it may arrive late, again, or never. */
  datatype Network = Network(members: map<Id, Member>, notices: set<(Id, Id)>)

  datatype Event =
    | Join(n: Id, via: Id)      // any member may have been named as the successor
    | Begin(n: Id)              // stabilize reads its successor and asks it for its predecessor
    | Answer(n: Id)             // the asked node answers from its present state
    | Finish(n: Id)             // stabilize uses the answer and notifies its successor
    | Abandon(n: Id)            // the call failed and no other successor was found
    | Deliver(from: Id, to: Id) // a notification arrives
    | ClearPred(n: Id)          // a lost ping clears the predecessor

  function Start(b: Id): Network {
    Network(map[b := Member(Lone(b), Idle)], {})
  }

  predicate Enabled(net: Network, e: Event) {
    match e
    case Join(n, via) => n !in net.members && via in net.members
    case Begin(n) => n in net.members && net.members[n].flight.Idle?
    case Answer(n) =>
      && n in net.members && net.members[n].flight.Asked?
      && net.members[n].flight.asked in net.members
    case Finish(n) => n in net.members && net.members[n].flight.Answered?
    case Abandon(n) => n in net.members && !net.members[n].flight.Idle?
    case Deliver(from, to) => (from, to) in net.notices && to in net.members
    case ClearPred(n) => n in net.members
  }

  function Next(net: Network, e: Event): Network
    requires Enabled(net, e)
  {
    match e
    case Join(n, via) =>
      net.(members := net.members[n := Member(Joined(n, Lone(n), via), Idle)])
    case Begin(n) =>
      var at := net.members[n].at;
      var flight := if at.succ == n then Idle else Asked(at.succ);
      net.(members := net.members[n := Member(Began(n, at), flight)])
    case Answer(n) =>
      var s := net.members[n].flight.asked;
      net.(members := net.members[n := net.members[n].(flight := Answered(s, net.members[s].at.pred))])
    case Finish(n) =>
      var flight := net.members[n].flight;
      var at := Replied(n, net.members[n].at, flight.asked, flight.reply);
      Network(net.members[n := Member(at, Idle)], net.notices + {(n, at.succ)})
    case Abandon(n) =>
      net.(members := net.members[n := net.members[n].(flight := Idle)])
    case Deliver(from, to) =>
      var member := net.members[to];
      net.(members := net.members[to := member.(at := Notified(to, member.at, from))])
    case ClearPred(n) =>
      var member := net.members[n];
      net.(members := net.members[n := member.(at := member.at.(pred := None))])
  }

  predicate Legal(net: Network, run: seq<Event>)
    decreases |run|
  {
    run == [] || (Enabled(net, run[0]) && Legal(Next(net, run[0]), run[1..]))
  }

  /** The state after a whole run. */
  function After(net: Network, run: seq<Event>): Network
    requires Legal(net, run)
    decreases |run|
  {
    if run == [] then net else After(Next(net, run[0]), run[1..])
  }

  ghost predicate Reachable(net: Network, b: Id) {
    exists run :: Legal(Start(b), run) && After(Start(b), run) == net
  }

  /** The reachable states are those the start and the steps make: all that can happen may happen. */
  lemma ReachableGoesOn(net: Network, b: Id, e: Event)
    requires Reachable(net, b) && Enabled(net, e)
    ensures Reachable(Start(b), b) && Reachable(Next(net, e), b)
  {
    assert Legal(Start(b), []) && After(Start(b), []) == Start(b);
    var run :| Legal(Start(b), run) && After(Start(b), run) == net;
    assert [e][1..] == [];
    RunAppend(Start(b), run, [e]);
  }

  /** The successor pointers of all members. */
  ghost function Succs(net: Network): Ring {
    map n | n in net.members :: net.members[n].at.succ
  }

  lemma {:induction false} RunAppend(net: Network, run: seq<Event>, more: seq<Event>)
    requires Legal(net, run) && Legal(After(net, run), more)
    ensures Legal(net, run + more) && After(net, run + more) == After(After(net, run), more)
    decreases |run|
  {
    if run == [] {
      assert run + more == more;
    } else {
      RunAppend(Next(net, run[0]), run[1..], more);
      assert (run + more)[0] == run[0] && (run + more)[1..] == run[1..] + more;
    }
  }
}
