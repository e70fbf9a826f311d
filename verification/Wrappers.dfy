/** A value that may be missing, and the search for a first position. */
module Wrappers {
  datatype Option<+T> = None | Some(value: T)

  // The first position, from i on, of an element with p; |list| when there is none.
  function FirstFrom<T>(list: seq<T>, p: T -> bool, i: nat): (k: nat)
    requires i <= |list|
    ensures i <= k <= |list|
    ensures k < |list| ==> p(list[k])
    ensures forall j :: i <= j < k ==> !p(list[j])
    decreases |list| - i
  {
    if i == |list| || p(list[i]) then i else FirstFrom(list, p, i + 1)
  }
}
