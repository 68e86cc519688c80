/** Sequences without repetition, and counting with one element more or less. */
module Collections {

  ghost predicate Distinct<T>(s: seq<T>) {
    forall i, j :: 0 <= i < j < |s| ==> s[i] != s[j]
  }

  /** The same elements with the one at `at` moved to the end. */
  function MovedLast<T>(s: seq<T>, at: nat): seq<T>
    requires at < |s|
  {
    s[..at] + s[at + 1..] + [s[at]]
  }

  lemma MovingKeepsElements<T>(s: seq<T>, at: nat)
    requires at < |s| && Distinct(s)
    ensures Distinct(MovedLast(s, at)) && forall x :: x in MovedLast(s, at) <==> x in s
  {
    var moved := MovedLast(s, at);
    assert forall k :: 0 <= k < |s| ==> moved[k] == s[if k < at then k else if k + 1 < |s| then k + 1 else at];
    forall x | x in s ensures x in moved {
      var k :| 0 <= k < |s| && s[k] == x;
      assert moved[if k < at then k else if k == at then |s| - 1 else k - 1] == x;
    }
  }

  lemma OneMore<T>(s: set<T>, x: T)
    ensures |s + {x}| == |s| + if x in s then 0 else 1
    ensures |s - {x}| == |s| - if x in s then 1 else 0
  {
    assert x in s ==> s + {x} == s;
  }

  lemma {:induction false} BoundedCount(s: set<nat>, n: nat)
    requires forall i :: i in s ==> i < n
    ensures |s| <= n
  {
    if n > 0 {
      BoundedCount(s - {n - 1}, n - 1);
      OneMore(s, n - 1);
    } else {
      assert s == {};
    }
  }
}
