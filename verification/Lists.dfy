/** Lists of numbers, and values that may be missing. */
module Lists {

  datatype Option<T> = None | Some(value: T)

  ghost predicate NoRepeat(list: seq<int>) {
    forall i, j :: 0 <= i < j < |list| ==> list[i] != list[j]
  }

  /** A list with a number taken off. */
  function Without(list: seq<int>, x: int): (r: seq<int>)
    ensures forall y :: y in r <==> y in list && y != x
    decreases |list|
  {
    if list == [] then [] else if list[0] == x then Without(list[1..], x) else [list[0]] + Without(list[1..], x)
  }

  lemma {:induction false} WithoutNoRepeat(list: seq<int>, x: int)
    requires NoRepeat(list)
    ensures NoRepeat(Without(list, x))
    decreases |list|
  {
    if list != [] {
      WithoutNoRepeat(list[1..], x);
      assert forall y :: y in Without(list[1..], x) ==> y != list[0];
    }
  }

  lemma {:induction false} WithoutAbsent(list: seq<int>, x: int)
    requires x !in list
    ensures Without(list, x) == list
    decreases |list|
  {
    if list != [] {
      WithoutAbsent(list[1..], x);
    }
  }
}
