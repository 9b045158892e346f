/** Least elements and sizes of finite sets. */
module Sets {

  predicate IsLeast(least: nat, keys: set<nat>) {
    least in keys && forall k | k in keys :: least <= k
  }

  /** The key at which an ordered container begins. */
  function LeastOf(keys: set<nat>): (least: nat)
    requires keys != {}
    ensures IsLeast(least, keys)
  {
    LeastExists(keys);
    var least :| least in keys && IsLeast(least, keys);
    least
  }

  lemma {:induction false} LeastExists(keys: set<nat>)
    requires keys != {}
    ensures exists least :: IsLeast(least, keys)
    decreases |keys|
  {
    var x :| x in keys;
    var others := keys - {x};
    assert keys == others + {x};
    if others == {} {
      assert IsLeast(x, keys);
    } else {
      LeastExists(others);
      var y :| IsLeast(y, others);
      assert IsLeast(if x < y then x else y, keys);
    }
  }

  lemma LeastIsIn(keys: set<nat>)
    requires keys != {}
    ensures LeastOf(keys) in keys
  {
  }

  lemma SubsetIsNotLarger<T>(a: set<T>, b: set<T>)
    requires a <= b
    ensures |a| <= |b|
  {
    assert b == a + (b - a);
  }
}
