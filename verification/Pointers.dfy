/** The two ring pointers of a node and what each atomic stretch of `join`, `stabilize`,
    `notify` and `check_predecessor` does to them. */
module Pointers {
  import opened Ids
  import opened Wrappers

  datatype Pointers = Pointers(succ: Id, pred: Option<Id>)

  /** A node that starts its own network. */
  function Lone(self: Id): Pointers {
    Pointers(self, None)
  }

  /** `join`, once the bootstrap node has named a successor: naming the joiner itself is refused. */
  function Joined(self: Id, p: Pointers, found: Id): Pointers {
    if found == self then p else p.(succ := found)
  }

  /** First stretch of `stabilize`: a node that is its own successor forgets its predecessor. */
  function Began(self: Id, p: Pointers): Pointers {
    if p.succ == self then p.(pred := None) else p
  }

  /** Second stretch of `stabilize`: `asked` is the successor the question went to, and the
      reply is adopted when it lies between. */
  function Replied(self: Id, p: Pointers, asked: Id, reply: Option<Id>): Pointers {
    if reply.Some? && IsBetween(reply.value, self, asked) then p.(succ := reply.value) else p
  }

  /** `notify`: the candidate becomes predecessor when there is none or it is closer, and then
      also the successor of a node that was alone. */
  function Notified(self: Id, p: Pointers, from: Id): Pointers {
    if from == self then
      p
    else if p.pred.None? || IsBetween(from, p.pred.value, self) then
      Pointers(if p.succ == self then from else p.succ, Some(from))
    else
      p
  }
}
