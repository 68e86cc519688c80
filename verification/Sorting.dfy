/** Stable sorting by a total preorder. */
module Sorting {

  /** `le` relates any two elements, at least one way, and transitively. */
  ghost predicate TotalPreorder<T(!new)>(le: (T, T) -> bool) {
    && (forall a, b :: le(a, b) || le(b, a))
    && (forall a, b, c {:trigger le(a, b), le(b, c)} :: le(a, b) && le(b, c) ==> le(a, c))
  }

  ghost predicate Sorted<T>(s: seq<T>, le: (T, T) -> bool) {
    forall i, j :: 0 <= i < j < |s| ==> le(s[i], s[j])
  }

  /** Places `x` in front of the first element it may precede. */
  function Insert<T>(x: T, s: seq<T>, le: (T, T) -> bool): seq<T> {
    if s == [] || le(x, s[0]) then [x] + s else [s[0]] + Insert(x, s[1..], le)
  }

  /** The stable sort: equal elements keep their order. */
  function Sort<T>(s: seq<T>, le: (T, T) -> bool): seq<T> {
    if s == [] then [] else Insert(s[0], Sort(s[1..], le), le)
  }

  lemma {:induction false} InsertKeepsElements<T>(x: T, s: seq<T>, le: (T, T) -> bool)
    ensures multiset(Insert(x, s, le)) == multiset(s) + multiset{x}
  {
    if s != [] && !le(x, s[0]) {
      InsertKeepsElements(x, s[1..], le);
      assert s == [s[0]] + s[1..];
    }
  }

  lemma {:induction false} InsertKeepsOrder<T(!new)>(x: T, s: seq<T>, le: (T, T) -> bool)
    requires TotalPreorder(le) && Sorted(s, le)
    ensures Sorted(Insert(x, s, le), le)
  {
    if s != [] {
      if le(x, s[0]) {
        assert forall j :: 0 < j < |s| ==> le(s[0], s[j]);
      } else {
        var rest := Insert(x, s[1..], le);
        InsertKeepsOrder(x, s[1..], le);
        InsertKeepsElements(x, s[1..], le);
        forall j | 0 <= j < |rest| ensures le(s[0], rest[j]) {
          assert rest[j] in multiset(rest);
          assert rest[j] == x || rest[j] in s[1..];
        }
      }
    }
  }

  /** The result holds the same elements in ascending order. */
  lemma {:induction false} SortSorts<T(!new)>(s: seq<T>, le: (T, T) -> bool)
    requires TotalPreorder(le)
    ensures Sorted(Sort(s, le), le) && multiset(Sort(s, le)) == multiset(s)
  {
    if s != [] {
      SortSorts(s[1..], le);
      InsertKeepsOrder(s[0], Sort(s[1..], le), le);
      InsertKeepsElements(s[0], Sort(s[1..], le), le);
      assert s == [s[0]] + s[1..];
    }
  }

  /** The elements that rank equal to `x`, in their order. */
  ghost function Alike<T>(s: seq<T>, x: T, le: (T, T) -> bool): seq<T> {
    if s == [] then [] else Tie(s[0], x, le) + Alike(s[1..], x, le)
  }

  ghost function Tie<T>(e: T, x: T, le: (T, T) -> bool): seq<T> {
    if le(x, e) && le(e, x) then [e] else []
  }

  lemma AlikeOfCons<T>(e: T, s: seq<T>, x: T, le: (T, T) -> bool)
    ensures Alike([e] + s, x, le) == Tie(e, x, le) + Alike(s, x, le)
  {
  }

  lemma OnlyOneTies<T(!new)>(y: T, e: T, x: T, le: (T, T) -> bool)
    requires TotalPreorder(le) && !le(y, e)
    ensures Tie(y, x, le) == [] || Tie(e, x, le) == []
  {
  }

  lemma {:induction false} InsertKeepsTies<T(!new)>(y: T, s: seq<T>, x: T, le: (T, T) -> bool)
    requires TotalPreorder(le)
    ensures Alike(Insert(y, s, le), x, le) == Tie(y, x, le) + Alike(s, x, le)
  {
    AlikeOfCons(y, s, x, le);
    if s != [] && !le(y, s[0]) {
      var e, tail := s[0], s[1..];
      InsertKeepsTies(y, tail, x, le);
      AlikeOfCons(e, Insert(y, tail, le), x, le);
      OnlyOneTies(y, e, x, le);
      hide TotalPreorder, Tie;
      var rest := Alike(tail, x, le);
      assert Tie(e, x, le) + (Tie(y, x, le) + rest) == Tie(y, x, le) + (Tie(e, x, le) + rest);
    }
  }

  /** Elements that rank equal keep their order. */
  lemma {:induction false} SortIsStable<T(!new)>(s: seq<T>, x: T, le: (T, T) -> bool)
    requires TotalPreorder(le)
    ensures Alike(Sort(s, le), x, le) == Alike(s, x, le)
  {
    if s != [] {
      var rest := Sort(s[1..], le);
      SortIsStable(s[1..], x, le);
      InsertKeepsTies(s[0], rest, x, le);
    }
  }

  /** An element that occurs twice in the multiset occurs at two positions. */
  lemma {:induction false} TwoPositions<T>(s: seq<T>, x: T) returns (i: nat, j: nat)
    requires multiset(s)[x] >= 2
    ensures i < j < |s| && s[i] == s[j] == x
  {
    var n := |s| - 1;
    assert s == s[..n] + [s[n]];
    if s[n] == x {
      assert x in multiset(s[..n]);
      i :| 0 <= i < n && s[i] == x;
      j := n;
    } else {
      i, j := TwoPositions(s[..n], x);
    }
  }

  lemma PositionsMakeTwo<T>(s: seq<T>, i: nat, j: nat)
    requires i < j < |s| && s[i] == s[j]
    ensures multiset(s)[s[i]] >= 2
  {
    var a, b := s[..j], s[j..];
    assert s == a + b;
    assert a[i] == s[i] && b[0] == s[j];
    assert multiset(s) == multiset(a) + multiset(b);
  }
}
