/**
 * Stucki error diffusion. The quantisation error of one pixel is spread
 * over twelve neighbours, each receiving `error * k / 42` for its weight
 * numerator `k`; a neighbour outside the image is skipped. The pure
 * function `Diffuse` gives the effect on a grid of accumulated errors, and
 * `ErrorBuffer` is the zero-initialised `height x width` buffer the
 * renderers update in place.
 */
module Diffusion {

  /** One `(dx_e, dy_e, k / 42.0)` entry of `diffusion_coords`. */
  datatype Tap = Tap(dx: int, dy: int, weight: nat)

  /** `diffusion_coords`, in the order the renderers apply them. */
  const Stucki: seq<Tap> := [
    Tap(1, 0, 8), Tap(2, 0, 4),
    Tap(-2, 1, 2), Tap(-1, 1, 4), Tap(0, 1, 8), Tap(1, 1, 4), Tap(2, 1, 2),
    Tap(-2, 2, 1), Tap(-1, 2, 2), Tap(0, 2, 4), Tap(1, 2, 2), Tap(2, 2, 1)
  ]

  const Divisor: real := 42.0

  /** `error_value as f32 * factor` for a tap of weight numerator `k`. */
  function Share(err: real, k: nat): real {
    err * (k as real / Divisor)
  }

  /**
   * Stucki's matrix as it is usually drawn, with the current pixel at
   * (0, 0): `8 4` to its right, `2 4 8 4 2` on the next row and
   * `1 2 4 2 1` on the row after; zero everywhere else.
   */
  function KernelWeight(dx: int, dy: int): nat {
    if dy == 0 then
      (if dx == 1 then 8 else if dx == 2 then 4 else 0)
    else if dy == 1 || dy == 2 then
      var centre := if dy == 1 then 8 else 4;
      if dx == 0 then centre
      else if dx == 1 || dx == -1 then centre / 2
      else if dx == 2 || dx == -2 then centre / 4
      else 0
    else 0
  }

  /** The weight numerators of the first `n` taps. */
  function TotalWeight(n: nat): nat
    requires n <= |Stucki|
  {
    if n == 0 then 0 else TotalWeight(n - 1) + Stucki[n - 1].weight
  }

  /**
   * The kernel of the source is Stucki's: each tap carries the matrix
   * weight of its offset, no offset appears twice, every offset lies after
   * the current pixel in raster order.
   */
  lemma StuckiKernel()
    ensures forall k :: 0 <= k < |Stucki| ==> Stucki[k].weight == KernelWeight(Stucki[k].dx, Stucki[k].dy) > 0
    ensures forall i, j :: 0 <= i < j < |Stucki| ==> Stucki[i].dx != Stucki[j].dx || Stucki[i].dy != Stucki[j].dy
    ensures forall k :: 0 <= k < |Stucki| ==> Stucki[k].dy > 0 || (Stucki[k].dy == 0 && Stucki[k].dx > 0)
  {
  }

  /** The weight numerators add up to 42, so the factors add up to one. */
  lemma StuckiTotal()
    ensures TotalWeight(|Stucki|) == 42
  {
    assert TotalWeight(2) == 12;
    assert TotalWeight(7) == 12 + 20;
    assert TotalWeight(12) == 12 + 20 + 10;
  }

  /** The accumulated errors, `error_diffusion[y][x]` at `g[y][x]`. */
  type Grid = seq<seq<real>>

  predicate IsGrid(g: Grid, width: nat, height: nat) {
    |g| == height && forall i :: 0 <= i < height ==> |g[i]| == width
  }

  /** `vec![vec![0.0; width]; height]`. */
  function Zeros(width: nat, height: nat): (g: Grid)
    ensures IsGrid(g, width, height)
    ensures forall i, j :: 0 <= i < height && 0 <= j < width ==> g[i][j] == 0.0
  {
    seq(height, i => seq(width, j => 0.0))
  }

  /** `g[y][x] += v`. */
  function AddAt(g: Grid, width: nat, height: nat, x: nat, y: nat, v: real): (r: Grid)
    requires IsGrid(g, width, height) && x < width && y < height
    ensures IsGrid(r, width, height)
  {
    g[y := g[y][x := g[y][x] + v]]
  }

  /** `AddAt` changes the one entry and no other. */
  lemma AddAtValue(g: Grid, width: nat, height: nat, x: nat, y: nat, v: real, i: nat, j: nat)
    requires IsGrid(g, width, height) && x < width && y < height && i < height && j < width
    ensures AddAt(g, width, height, x, y, v)[i][j] == if i == y && j == x then g[i][j] + v else g[i][j]
  {
  }

  /** The first `n` taps of `kernel` applied around the pixel (sx, sy), each only when its target is on the grid. */
  function DiffusePrefix(g: Grid, width: nat, height: nat, sx: nat, sy: nat, err: real, kernel: seq<Tap>, n: nat): (r: Grid)
    requires IsGrid(g, width, height) && n <= |kernel|
    ensures IsGrid(r, width, height)
  {
    if n == 0 then g
    else
      var prev := DiffusePrefix(g, width, height, sx, sy, err, kernel, n - 1);
      var t := kernel[n - 1];
      var nx, ny := sx + t.dx, sy + t.dy;
      if 0 <= nx < width && 0 <= ny < height then AddAt(prev, width, height, nx, ny, Share(err, t.weight)) else prev
  }

  /** The whole kernel applied around (sx, sy) with error `err`. */
  function Diffuse(g: Grid, width: nat, height: nat, sx: nat, sy: nat, err: real): (r: Grid)
    requires IsGrid(g, width, height)
    ensures IsGrid(r, width, height)
  {
    DiffusePrefix(g, width, height, sx, sy, err, Stucki, |Stucki|)
  }

  /** The weight the first `n` taps of `kernel` give the offset (dx, dy). */
  function PartialWeight(kernel: seq<Tap>, dx: int, dy: int, n: nat): nat
    requires n <= |kernel|
  {
    if n == 0 then 0
    else PartialWeight(kernel, dx, dy, n - 1) + (if kernel[n - 1].dx == dx && kernel[n - 1].dy == dy then kernel[n - 1].weight else 0)
  }

  // One tap at a time: the offsets are literals, so each step is a plain comparison.

  lemma PartialWeightRow0(dx: int, dy: int)
    ensures PartialWeight(Stucki, dx, dy, 2) == if dy == 0 then KernelWeight(dx, dy) else 0
  {
    assert PartialWeight(Stucki, dx, dy, 1) == PartialWeight(Stucki, dx, dy, 0) + (if dx == 1 && dy == 0 then 8 else 0);
    assert PartialWeight(Stucki, dx, dy, 2) == PartialWeight(Stucki, dx, dy, 1) + (if dx == 2 && dy == 0 then 4 else 0);
  }

  lemma PartialWeightRow1(dx: int, dy: int)
    ensures PartialWeight(Stucki, dx, dy, 7) == PartialWeight(Stucki, dx, dy, 2) + if dy == 1 then KernelWeight(dx, dy) else 0
  {
    assert PartialWeight(Stucki, dx, dy, 3) == PartialWeight(Stucki, dx, dy, 2) + (if dx == -2 && dy == 1 then 2 else 0);
    assert PartialWeight(Stucki, dx, dy, 4) == PartialWeight(Stucki, dx, dy, 3) + (if dx == -1 && dy == 1 then 4 else 0);
    assert PartialWeight(Stucki, dx, dy, 5) == PartialWeight(Stucki, dx, dy, 4) + (if dx == 0 && dy == 1 then 8 else 0);
    assert PartialWeight(Stucki, dx, dy, 6) == PartialWeight(Stucki, dx, dy, 5) + (if dx == 1 && dy == 1 then 4 else 0);
    assert PartialWeight(Stucki, dx, dy, 7) == PartialWeight(Stucki, dx, dy, 6) + (if dx == 2 && dy == 1 then 2 else 0);
  }

  lemma PartialWeightRow2(dx: int, dy: int)
    ensures PartialWeight(Stucki, dx, dy, 12) == PartialWeight(Stucki, dx, dy, 7) + if dy == 2 then KernelWeight(dx, dy) else 0
  {
    assert PartialWeight(Stucki, dx, dy, 8) == PartialWeight(Stucki, dx, dy, 7) + (if dx == -2 && dy == 2 then 1 else 0);
    assert PartialWeight(Stucki, dx, dy, 9) == PartialWeight(Stucki, dx, dy, 8) + (if dx == -1 && dy == 2 then 2 else 0);
    assert PartialWeight(Stucki, dx, dy, 10) == PartialWeight(Stucki, dx, dy, 9) + (if dx == 0 && dy == 2 then 4 else 0);
    assert PartialWeight(Stucki, dx, dy, 11) == PartialWeight(Stucki, dx, dy, 10) + (if dx == 1 && dy == 2 then 2 else 0);
    assert PartialWeight(Stucki, dx, dy, 12) == PartialWeight(Stucki, dx, dy, 11) + (if dx == 2 && dy == 2 then 1 else 0);
  }

  /** Applying every tap gives each offset the weight the matrix shows for it. */
  lemma PartialWeightComplete(dx: int, dy: int)
    ensures PartialWeight(Stucki, dx, dy, |Stucki|) == KernelWeight(dx, dy)
  {
    PartialWeightRow0(dx, dy);
    PartialWeightRow1(dx, dy);
    PartialWeightRow2(dx, dy);
  }


  /** Shares of one error add up like their weights. */
  lemma ShareSum(err: real, a: nat, k: nat)
    ensures Share(err, a) + Share(err, k) == Share(err, a + k)
  {
  }

  /** The inductive step of `DiffusePrefixAt`: tap `n - 1` adds its share to the one cell it lands on. */
  lemma DiffusePrefixAtStep(g: Grid, width: nat, height: nat, sx: nat, sy: nat, err: real, kernel: seq<Tap>, n: nat,
                            i: nat, j: nat)
    requires IsGrid(g, width, height) && 0 < n <= |kernel| && i < height && j < width
    requires DiffusePrefix(g, width, height, sx, sy, err, kernel, n - 1)[i][j]
          == g[i][j] + Share(err, PartialWeight(kernel, j - sx, i - sy, n - 1))
    ensures DiffusePrefix(g, width, height, sx, sy, err, kernel, n)[i][j]
         == g[i][j] + Share(err, PartialWeight(kernel, j - sx, i - sy, n))
  {
    var prev := DiffusePrefix(g, width, height, sx, sy, err, kernel, n - 1);
    var t := kernel[n - 1];
    var before := PartialWeight(kernel, j - sx, i - sy, n - 1);
    if t.dx == j - sx && t.dy == i - sy {
      AddAtValue(prev, width, height, j, i, Share(err, t.weight), i, j);
      ShareSum(err, before, t.weight);
    } else if 0 <= sx + t.dx < width && 0 <= sy + t.dy < height {
      AddAtValue(prev, width, height, sx + t.dx, sy + t.dy, Share(err, t.weight), i, j);
    }
  }

  /** Each entry after the first `n` taps holds its start value plus the error times the weight those taps give it. */
  lemma {:induction false} DiffusePrefixAt(g: Grid, width: nat, height: nat, sx: nat, sy: nat, err: real, kernel: seq<Tap>,
                                           n: nat, i: nat, j: nat)
    requires IsGrid(g, width, height) && n <= |kernel| && i < height && j < width
    ensures DiffusePrefix(g, width, height, sx, sy, err, kernel, n)[i][j]
         == g[i][j] + Share(err, PartialWeight(kernel, j - sx, i - sy, n))
  {
    if n > 0 {
      DiffusePrefixAt(g, width, height, sx, sy, err, kernel, n - 1, i, j);
      DiffusePrefixAtStep(g, width, height, sx, sy, err, kernel, n, i, j);
    }
  }



  /**
   * Every entry of the grid gains exactly the error times the matrix weight
   * of its offset from the source pixel, over 42: the twelve neighbours that
   * lie on the grid receive their share and nothing else changes.
   */
  lemma DiffuseAt(g: Grid, width: nat, height: nat, sx: nat, sy: nat, err: real, i: nat, j: nat)
    requires IsGrid(g, width, height) && i < height && j < width
    ensures Diffuse(g, width, height, sx, sy, err)[i][j]
         == g[i][j] + Share(err, KernelWeight(j - sx, i - sy))
  {
    DiffusePrefixAt(g, width, height, sx, sy, err, Stucki, |Stucki|, i, j);
    PartialWeightComplete(j - sx, i - sy);
  }

  /**
   * Diffusion never touches the source pixel or anything before it in
   * raster order, nor anything more than two columns or rows away.
   */
  lemma DiffuseForwardAndLocal(g: Grid, width: nat, height: nat, sx: nat, sy: nat, err: real, i: nat, j: nat)
    requires IsGrid(g, width, height) && i < height && j < width
    requires i < sy || (i == sy && j <= sx) || i > sy + 2 || j + 2 < sx || j > sx + 2
    ensures Diffuse(g, width, height, sx, sy, err)[i][j] == g[i][j]
  {
    DiffuseAt(g, width, height, sx, sy, err, i, j);
  }

  /** A zero error leaves the grid as it was. */
  lemma DiffuseZero(g: Grid, width: nat, height: nat, sx: nat, sy: nat)
    requires IsGrid(g, width, height)
    ensures Diffuse(g, width, height, sx, sy, 0.0) == g
  {
    var r := Diffuse(g, width, height, sx, sy, 0.0);
    forall i | 0 <= i < height ensures r[i] == g[i] {
      forall j | 0 <= j < width ensures r[i][j] == g[i][j] {
        DiffuseAt(g, width, height, sx, sy, 0.0, i, j);
      }
    }
  }

  /**
   * `error_diffusion`: the `height x width` buffer of errors waiting to be
   * added to pixels not yet rendered. `grid` is its abstract value.
   */
  class ErrorBuffer {
    const width: nat
    const height: nat
    const data: array2<real>
    ghost var grid: Grid

    ghost predicate Valid()
      reads this, data
    {
      && data.Length0 == height && data.Length1 == width
      && IsGrid(grid, width, height)
      && forall i, j :: 0 <= i < height && 0 <= j < width ==> data[i, j] == grid[i][j]
    }

    /** `vec![vec![0.0; width as usize]; height as usize]`. */
    constructor (width: nat, height: nat)
      ensures Valid() && fresh(data)
      ensures this.width == width && this.height == height
      ensures grid == Zeros(width, height)
    {
      this.width := width;
      this.height := height;
      data := new real[height, width]((i, j) => 0.0);
      grid := Zeros(width, height);
    }

    /** `error_diffusion[y][x]`. */
    function Get(x: nat, y: nat): (v: real)
      reads this, data
      requires Valid() && x < width && y < height
      ensures v == grid[y][x]
    {
      data[y, x]
    }

    /**
     * The loop over `diffusion_coords`: adds `err * factor` to each target
     * that passes the bounds check.
     */
    method Distribute(sx: nat, sy: nat, err: real)
      requires Valid()
      modifies this, data
      ensures Valid()
      ensures grid == Diffuse(old(grid), width, height, sx, sy, err)
    {
      var n := 0;
      while n < |Stucki|
        invariant n <= |Stucki|
        invariant Valid()
        invariant grid == DiffusePrefix(old(grid), width, height, sx, sy, err, Stucki, n)
      {
        var t := Stucki[n];
        var nx, ny := sx + t.dx, sy + t.dy;
        if 0 <= nx < width && 0 <= ny < height {
          data[ny, nx] := data[ny, nx] + Share(err, t.weight);
          forall i, j | 0 <= i < height && 0 <= j < width
            ensures AddAt(grid, width, height, nx, ny, Share(err, t.weight))[i][j] == data[i, j]
          {
            AddAtValue(grid, width, height, nx, ny, Share(err, t.weight), i, j);
          }
          grid := AddAt(grid, width, height, nx, ny, Share(err, t.weight));
        }
        n := n + 1;
      }
    }
  }
}
