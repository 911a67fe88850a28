/** A sensor cell picked out of a frame: its column, its row and its temperature.

    Pixels are created as (column, row) by the active-pixel scan. The adjacency
    test of the original lives in a file that is not part of this model, so the
    algorithms take adjacency as a parameter; `WithinFuzz` is the documented
    8-neighbourhood-with-slack test, used where a concrete instance is needed.
 */
module Pixels {

  datatype Pixel = Pixel(x: int, y: int, temperature: real)

  /** An adjacency test between two pixels. */
  type Adjacency = (Pixel, Pixel) -> bool

  /** Column and row both differ by at most `fuzz`. */
  predicate WithinFuzz(fuzz: int, p: Pixel, q: Pixel) {
    -fuzz <= p.x - q.x <= fuzz && -fuzz <= p.y - q.y <= fuzz
  }

  /** The shape every adjacency test is assumed to have: symmetric, and true on
      two pixels at the same coordinates. */
  ghost predicate WellBehaved(adj: Adjacency) {
    && (forall p: Pixel, q: Pixel :: adj(p, q) == adj(q, p))
    && (forall p: Pixel, q: Pixel :: p.x == q.x && p.y == q.y ==> adj(p, q))
  }

  lemma {:induction false} WithinFuzzWellBehaved(fuzz: nat)
    ensures WellBehaved((p, q) => WithinFuzz(fuzz, p, q))
  {
  }
}
