/**
 A subset is no larger than what it is a subset of: the measure that shrinks in
 every worklist of this project, whatever the worklist holds.
 */
module Sets {
  lemma {:induction false} SubsetSize<T>(some: set<T>, all: set<T>)
    requires some <= all
    ensures |some| <= |all|
  {
    if some != {} {
      var item :| item in some;
      SubsetSize(some - {item}, all - {item});
    }
  }
}
