/** The process-wide identifier counters of the Java classes (`Vehicle` and
    `Road` each keep a `static int nextIdentifier`), made an explicit object
    that constructors are handed. */
module Identity {

  class IdRegistry {
    /** The identifier the next construction receives. */
    var next: nat
    /** Every identifier handed out so far. */
    ghost var issued: set<nat>

    ghost predicate Valid()
      reads this
    {
      forall id :: id in issued ==> id < next
    }

    /** A fresh counter starts at 0, as a Java static `int` does. */
    constructor ()
      ensures Valid() && next == 0 && issued == {}
    {
      next := 0;
      issued := {};
    }

    /** `nextIdentifier++`: hand out the current value and advance. The
        result differs from, and exceeds, every identifier issued before. */
    method Issue() returns (id: nat)
      requires Valid()
      modifies this
      ensures Valid()
      ensures id == old(next) && next == old(next) + 1
      ensures forall other :: other in old(issued) ==> other < id
      ensures issued == old(issued) + {id}
    {
      id := next;
      next := next + 1;
      issued := issued + {id};
    }
  }
}
