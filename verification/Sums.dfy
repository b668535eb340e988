/** Sums over finite sets of ids. */
module Sums {
  import opened Ids

  ghost function Sum(s: set<Id>, f: Id -> int): int {
    if s == {} then 0 else var x :| x in s; f(x) + Sum(s - {x}, f)
  }

  lemma {:induction false} SumSplit(s: set<Id>, f: Id -> int, y: Id)
    requires y in s
    ensures Sum(s, f) == f(y) + Sum(s - {y}, f)
    decreases s
  {
    var x :| x in s && Sum(s, f) == f(x) + Sum(s - {x}, f);
    if x != y {
      SumSplit(s - {x}, f, y);
      SumSplit(s - {y}, f, x);
      assert s - {x} - {y} == s - {y} - {x};
    }
  }

  lemma {:induction false} SumSame(s: set<Id>, f: Id -> int, g: Id -> int)
    requires forall x :: x in s ==> f(x) == g(x)
    ensures Sum(s, f) == Sum(s, g)
    decreases s
  {
    if s != {} {
      var x :| x in s;
      SumSplit(s, f, x);
      SumSplit(s, g, x);
      SumSame(s - {x}, f, g);
    }
  }

  lemma {:induction false} SumAtMost(s: set<Id>, f: Id -> int, bound: int)
    requires forall x :: x in s ==> f(x) <= bound
    ensures Sum(s, f) <= |s| * bound
    decreases s
  {
    if s != {} {
      var x :| x in s;
      SumSplit(s, f, x);
      SumAtMost(s - {x}, f, bound);
      assert |s| == |s - {x}| + 1;
      assert (|s - {x}| + 1) * bound == |s - {x}| * bound + bound;
    }
  }

  lemma {:induction false} SumAtLeast(s: set<Id>, f: Id -> int, bound: int)
    requires forall x :: x in s ==> f(x) >= bound
    ensures Sum(s, f) >= |s| * bound
    decreases s
  {
    if s != {} {
      var x :| x in s;
      SumSplit(s, f, x);
      SumAtLeast(s - {x}, f, bound);
      assert |s| == |s - {x}| + 1;
      assert (|s - {x}| + 1) * bound == |s - {x}| * bound + bound;
    }
  }

  /** Some term is at most the average. */
  lemma SmallTerm(s: set<Id>, f: Id -> int) returns (x: Id)
    requires s != {}
    ensures x in s && |s| * f(x) <= Sum(s, f)
  {
    x := Least(s, f);
    SumAtLeast(s, f, f(x));
  }

  /** Some term is at least the average. */
  lemma LargeTerm(s: set<Id>, f: Id -> int) returns (x: Id)
    requires s != {}
    ensures x in s && |s| * f(x) >= Sum(s, f)
  {
    x := Least(s, (y: Id) => -f(y));
    SumAtMost(s, f, f(x));
  }

  lemma {:induction false} Least(s: set<Id>, f: Id -> int) returns (x: Id)
    requires s != {}
    ensures x in s && forall y :: y in s ==> f(x) <= f(y)
    decreases s
  {
    x :| x in s;
    if s != {x} {
      var z := Least(s - {x}, f);
      x := if f(x) <= f(z) then x else z;
    }
  }
}
