/** The set of elements of a list of block numbers, and how large it is. */
module Elements {
  ghost predicate Distinct(list: seq<nat>) {
    forall i, j :: 0 <= i < j < |list| ==> list[i] != list[j]
  }

  ghost function Elems(list: seq<nat>): set<nat> {
    set b | b in list
  }

  lemma {:induction false} ElemsSize(list: seq<nat>)
    ensures |Elems(list)| <= |list|
    ensures Distinct(list) ==> |Elems(list)| == |list|
  {
    if list != [] {
      ElemsSize(list[1..]);
      assert Elems(list) == Elems(list[1..]) + {list[0]};
    }
  }
}
