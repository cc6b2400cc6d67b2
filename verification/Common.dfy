/** What several modules share. */
module Common {

  datatype Option<+T> = None | Some(value: T)

  predicate Distinct<T(==)>(s: seq<T>) {
    forall i, j :: 0 <= i < j < |s| ==> s[i] != s[j]
  }

  function Elements<T>(s: seq<T>): set<T> {
    set x | x in s
  }

  function IndexOf<T(==)>(s: seq<T>, x: T): (i: nat)
    requires x in s
    ensures i < |s| && s[i] == x
  {
    if s[0] == x then 0 else 1 + IndexOf(s[1..], x)
  }

  /** In a sequence without duplicates an element has one index. */
  lemma {:induction false} IndexUnique<T>(s: seq<T>, i: nat)
    requires Distinct(s) && i < |s|
    ensures IndexOf(s, s[i]) == i
  {
  }

  /** There is always an unused number. */
  lemma {:induction false} UnusedNumber(s: set<int>)
    ensures exists n: int :: n !in s
  {
    var b := Bound(s);
    assert b !in s;
  }

  lemma {:induction false} Bound(s: set<int>) returns (b: nat)
    ensures forall x :: x in s ==> x < b
  {
    b := 0;
    if x :| x in s {
      var rest := Bound(s - {x});
      b := if x < rest then rest else x + 1;
      assert forall y :: y in s ==> y == x || y in s - {x};
    }
  }
}
