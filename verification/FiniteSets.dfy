/** Facts about finite sets, for walks that visit and searches that load. */
module FiniteSets {

  lemma SubsetIsSmaller<T>(a: set<T>, b: set<T>)
    requires a <= b
    ensures |a| <= |b| && (|a| == |b| <==> a == b)
  {
    assert b == a + (b - a);
  }

  /** What is left of a whole gets smaller as more of it is dealt with. */
  lemma LessIsLeft<T>(all: set<T>, done: set<T>, more: set<T>)
    requires done <= more <= all
    ensures all - more <= all - done
    ensures done != more ==> all - more < all - done
  {
    if done != more {
      var x :| x in more && x !in done;
      assert x in all - done && x !in all - more;
    }
  }
}
