/** Ascending traversal of a finite set of keys, as `std::map` iterates. */
module Ordered {

  ghost predicate IsLeast(s: set<nat>, k: nat) {
    k in s && forall j :: j in s ==> k <= j
  }

  lemma {:induction false} LeastExists(s: set<nat>)
    requires s != {}
    ensures exists k :: IsLeast(s, k)
    decreases |s|
  {
    var x :| x in s;
    if s == {x} {
      assert IsLeast(s, x);
    } else {
      LeastExists(s - {x});
      var k :| IsLeast(s - {x}, k);
      assert forall j :: j in s ==> j == x || j in s - {x};
      assert IsLeast(s, if x <= k then x else k);
    }
  }

  function Least(s: set<nat>): (k: nat)
    requires s != {}
    ensures IsLeast(s, k)
  {
    LeastExists(s);
    var k :| k in s && forall j :: j in s ==> k <= j;
    k
  }
}
