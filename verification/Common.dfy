/** What several components share. */
module Common {

  datatype Option<+T> = None | Some(value: T)

  /** Pointers, tick counters and register values are 32 bits wide. */
  const WRAP := 0x1_0000_0000

  const INT_MAX := 0x7FFF_FFFF

  predicate Distinct<N(==)>(s: seq<N>) {
    forall i, j :: 0 <= i < j < |s| ==> s[i] != s[j]
  }

  lemma MulLe(a: int, b: int, c: nat)
    requires a <= b
    ensures a * c <= b * c
  {
    assert (b - a) * c >= 0;
  }
}
