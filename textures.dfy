/** The texture record: a width, a height and a grid of packed colours.

    The hardware texture stores its texels in a tiled layout reached through
    accessor functions; here the grid is a plain two-dimensional array
    indexed `pixels[x, y]`, x the column and y the row. */
module Textures {
  import opened Colour

  /** A grid as a value, column by column: `g[x][y]`. */
  type Grid = seq<seq<u32>>

  ghost predicate IsGrid(g: Grid, w: nat, h: nat) {
    |g| == w && forall x :: 0 <= x < w ==> |g[x]| == h
  }

  class Texture {
    const width: nat
    const height: nat
    const pixels: array2<u32>

    /** Width and height are u32 fields and match the grid. */
    ghost predicate Valid() {
      && pixels.Length0 == width && pixels.Length1 == height
      && width < 0x1_0000_0000 && height < 0x1_0000_0000
    }

    constructor (w: nat, h: nat)
      requires w < 0x1_0000_0000 && h < 0x1_0000_0000
      ensures Valid() && width == w && height == h && fresh(pixels)
    {
      width, height := w, h;
      pixels := new u32[w, h];
    }
  }

  /** The contents of an array as a grid value. */
  ghost function Cells(a: array2<u32>): (g: Grid)
    reads a
    ensures IsGrid(g, a.Length0, a.Length1)
    ensures forall x, y :: 0 <= x < a.Length0 && 0 <= y < a.Length1 ==> g[x][y] == a[x, y]
    ensures Mirrors(a, g)
  {
    seq(a.Length0, x requires 0 <= x < a.Length0 reads a =>
      seq(a.Length1, y requires 0 <= y < a.Length1 reads a => a[x, y]))
  }

  /** The array holds the grid g, cell for cell. */
  ghost predicate Mirrors(a: array2<u32>, g: Grid)
    reads a
  {
    IsGrid(g, a.Length0, a.Length1) && forall x, y :: 0 <= x < a.Length0 && 0 <= y < a.Length1 ==> a[x, y] == g[x][y]
  }

  /** An array holds only one grid. */
  lemma MirrorsUnique(a: array2<u32>, g: Grid, g': Grid)
    requires Mirrors(a, g) && Mirrors(a, g')
    ensures g == g'
  {
    forall x | 0 <= x < a.Length0
      ensures g[x] == g'[x]
    {
      assert forall y :: 0 <= y < a.Length1 ==> g[x][y] == a[x, y] == g'[x][y];
    }
  }
}
