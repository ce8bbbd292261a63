/**
 * Food placement. The game redraws a random cell until it finds one the
 * snake does not occupy. The random source is modelled as the sequence of
 * cells it would produce, `draws`; the loop takes the first free one.
 */
module Food {
  import opened Grid

  /** Some draw at index `i` or later lies off the occupied cells. */
  predicate HasFreeFrom(occupied: seq<Cell>, draws: seq<Cell>, i: nat) {
    exists j :: i <= j < |draws| && draws[j] !in occupied
  }

  /** The index of the first draw, from `i` on, that lies off the occupied cells. */
  function FirstFree(occupied: seq<Cell>, draws: seq<Cell>, i: nat): (k: nat)
    requires HasFreeFrom(occupied, draws, i)
    ensures i <= k < |draws| && draws[k] !in occupied
    ensures forall j :: i <= j < k ==> draws[j] in occupied
    decreases |draws| - i
  {
    if draws[i] !in occupied then i else FirstFree(occupied, draws, i + 1)
  }

  /**
   * The resample loop: draw cells until one is not under the snake. It
   * returns that cell and its index among the draws (one less than the
   * number of draws it consumed).
   */
  method Resample(occupied: seq<Cell>, draws: seq<Cell>) returns (food: Cell, k: nat)
    requires HasFreeFrom(occupied, draws, 0)
    ensures k < |draws| && food == draws[k] && food !in occupied
    ensures forall j :: 0 <= j < k ==> draws[j] in occupied
    ensures k == FirstFree(occupied, draws, 0)
  {
    k := 0;
    while draws[k] in occupied
      invariant HasFreeFrom(occupied, draws, k)
      invariant forall j :: 0 <= j < k ==> draws[j] in occupied
      decreases |draws| - k
    {
      k := k + 1;
    }
    food := draws[k];
  }
}
