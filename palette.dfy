/** Colours, cells and random draws shared by every pattern of the pixel-art generator. */
module Palette {

  /** The palette holds ten pastel colours; a colour is its position in that list. */
  const PaletteSize: nat := 10

  type Color = c: nat | c < PaletteSize

  /** A grid cell is either untouched (the light-grey background) or painted with a palette colour. */
  datatype Cell = Empty | Colored(color: Color)

  /** One value of `Math.random()`: a real number in [0, 1). */
  type UnitInterval = u: real | 0.0 <= u < 1.0

  /** `Math.floor(Math.random() * k)`: a uniformly chosen index below `k`. */
  function Pick(u: UnitInterval, k: nat): (r: nat)
    requires k > 0
    ensures r < k
    ensures r as real <= u * k as real < r as real + 1.0
  {
    assert u * k as real < k as real;
    (u * k as real).Floor
  }

  /** `getRandomColor`: the palette entry at `Math.floor(Math.random() * 10)`. */
  function RandomColor(u: UnitInterval): (c: Color)
    ensures c as real <= u * 10.0 < c as real + 1.0
  {
    Pick(u, PaletteSize)
  }

  /** `isPixelColored`, on the cell type instead of the CSS colour string. */
  predicate IsColored(c: Cell) {
    c.Colored?
  }

  /** `isPixelEmpty`: the exact complement of `isPixelColored`. */
  function IsEmpty(c: Cell): (r: bool)
    ensures r <==> !IsColored(c)
  {
    c == Empty
  }

  /** A floor is unique: the only index whose unit interval holds u * k is `Pick(u, k)`. */
  lemma PickUnique(u: UnitInterval, k: nat, j: nat)
    requires k > 0 && j as real <= u * k as real < j as real + 1.0
    ensures Pick(u, k) == j
  {
  }

  predicate AllEmpty(s: seq<Cell>) {
    forall i :: 0 <= i < |s| ==> s[i] == Empty
  }

  predicate NoneEmpty(s: seq<Cell>) {
    forall i :: 0 <= i < |s| ==> s[i] != Empty
  }
}
