/** Row-major pixel lists of a w x h rectangle, as `out.pixels` is. */
module Canvas {
  import opened Basics

  type Pixel = x: int | 0 <= x < 0x1_0000_0000

  const BLACK: Pixel := 0xFF00_0000
  const WHITE: Pixel := 0xFFFF_FFFF

  /** The number of steps of size `s` that cover `n` cells. */
  function Steps(n: nat, s: nat): nat
    requires s > 0
  {
    (n + s - 1) / s
  }

  function Pos(w: nat, x: nat, y: nat): nat {
    y * w + x
  }

  /** The pixel in column x of row y (black outside the list). */
  function At(img: seq<Pixel>, w: nat, x: nat, y: nat): Pixel {
    if Pos(w, x, y) < |img| then img[Pos(w, x, y)] else BLACK
  }

  /** One guarded store, as every decoder performs it. */
  function Put(img: seq<Pixel>, w: nat, h: nat, x: nat, y: nat, c: Pixel): (r: seq<Pixel>)
    ensures |r| == |img|
  {
    if x < w && y < h && Pos(w, x, y) < |img| then img[Pos(w, x, y) := c] else img
  }

  lemma PosInside(w: nat, h: nat, x: nat, y: nat)
    requires x < w && y < h
    ensures Pos(w, x, y) < w * h
  {
    MulMono(y + 1, h, w);
  }

  lemma PosInjective(w: nat, x: nat, y: nat, x': nat, y': nat)
    requires x < w && x' < w
    requires Pos(w, x, y) == Pos(w, x', y')
    ensures x == x' && y == y'
  {
    if y < y' {
      MulMono(y + 1, y', w);
    } else if y' < y {
      MulMono(y' + 1, y, w);
    }
  }

  lemma PosOf(w: nat, h: nat, k: nat)
    requires k < w * h
    ensures w > 0 && k % w < w && k / w < h && Pos(w, k % w, k / w) == k
  {
    assert w > 0;
    assert k == (k / w) * w + k % w;
    if h <= k / w {
      MulMono(h, k / w, w);
    }
  }

  lemma PosInverse(w: nat, h: nat, x: nat, y: nat)
    requires x < w && y < h
    ensures Pos(w, x, y) < w * h && Pos(w, x, y) % w == x && Pos(w, x, y) / w == y
  {
    PosInside(w, h, x, y);
    PosOf(w, h, Pos(w, x, y));
    PosInjective(w, x, y, Pos(w, x, y) % w, Pos(w, x, y) / w);
  }

  lemma AtPut(img: seq<Pixel>, w: nat, h: nat, x: nat, y: nat, c: Pixel)
    requires |img| == w * h && x < w && y < h
    ensures forall x', y' | 0 <= x' < w && 0 <= y' < h ::
              At(Put(img, w, h, x, y, c), w, x', y') == if x' == x && y' == y then c else At(img, w, x', y')
  {
    PosInside(w, h, x, y);
    forall x', y' | 0 <= x' < w && 0 <= y' < h
      ensures At(Put(img, w, h, x, y, c), w, x', y') == if x' == x && y' == y then c else At(img, w, x', y')
    {
      PosInside(w, h, x', y');
      if Pos(w, x, y) == Pos(w, x', y') {
        PosInjective(w, x, y, x', y');
      }
    }
  }

  /** Two pixel lists of the same rectangle are equal when they agree everywhere. */
  lemma SameImage(a: seq<Pixel>, b: seq<Pixel>, w: nat, h: nat)
    requires |a| == w * h && |b| == w * h
    requires forall x, y | 0 <= x < w && 0 <= y < h :: At(a, w, x, y) == At(b, w, x, y)
    ensures a == b
  {
    forall k | 0 <= k < w * h
      ensures a[k] == b[k]
    {
      PosOf(w, h, k);
      assert At(a, w, k % w, k / w) == At(b, w, k % w, k / w);
    }
  }

  /** The tw x th tile at (x0, y0), row-major. */
  function TilePixels(img: seq<Pixel>, w: nat, x0: nat, y0: nat, tw: nat, th: nat): (r: seq<Pixel>)
    ensures |r| == tw * th
  {
    seq(tw * th, k requires 0 <= k < tw * th => PosOf(tw, th, k); At(img, w, x0 + k % tw, y0 + k / tw))
  }

  lemma TilePixelIs(img: seq<Pixel>, w: nat, x0: nat, y0: nat, tw: nat, th: nat, i: nat) returns (x: nat, y: nat)
    requires i < tw * th
    ensures TilePixels(img, w, x0, y0, tw, th)[i] == At(img, w, x, y)
  {
    hide At, Pos;
    PosOf(tw, th, i);
    x, y := x0 + i % tw, y0 + i / tw;
  }

  lemma TilePixelsAt(img: seq<Pixel>, w: nat, x0: nat, y0: nat, tw: nat, th: nat, x: nat, y: nat)
    requires x < tw && y < th
    ensures At(TilePixels(img, w, x0, y0, tw, th), tw, x, y) == At(img, w, x0 + x, y0 + y)
  {
    hide Pos;
    PosInverse(tw, th, x, y);
  }

  /** The cells of the lw x lh box at (x0, y0). */
  predicate InBox(x: int, y: int, x0: int, y0: int, lw: int, lh: int) {
    x0 <= x < x0 + lw && y0 <= y < y0 + lh
  }

  /** Fill a box, clipped at the rectangle's right and bottom edge. */
  method FillBox(img: seq<Pixel>, w: nat, h: nat, x0: nat, y0: nat, lw: nat, lh: nat, c: Pixel)
    returns (r: seq<Pixel>)
    requires |img| == w * h
    ensures |r| == w * h
    ensures forall x, y | 0 <= x < w && 0 <= y < h ::
              At(r, w, x, y) == if InBox(x, y, x0, y0, lw, lh) then c else At(img, w, x, y)
  {
    r := img;
    for yy := 0 to lh
      invariant |r| == w * h
      invariant forall x, y | 0 <= x < w && 0 <= y < h ::
                  At(r, w, x, y) == if InBox(x, y, x0, y0, lw, yy) then c else At(img, w, x, y)
    {
      for xx := 0 to lw
        invariant |r| == w * h
        invariant forall x, y | 0 <= x < w && 0 <= y < h ::
                    At(r, w, x, y) == if InBox(x, y, x0, y0, lw, yy) || InBox(x, y, x0, y0 + yy, xx, 1)
                                      then c else At(img, w, x, y)
      {
        var px, py := x0 + xx, y0 + yy;
        if px < w && py < h {
          AtPut(r, w, h, px, py, c);
          PosInside(w, h, px, py);
          r := r[py * w + px := c];
        }
      }
    }
  }
}
