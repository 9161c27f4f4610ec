/** Rectangles cut into s x s tiles, row-major, with narrower tiles at the right
    and bottom edge; and what painting them one after another leaves. */
module Mosaic {
  import opened Basics
  import opened Canvas

  /** Tiles by row and column, each a row-major pixel list. */
  type Tiles = seq<seq<seq<Pixel>>>

  /** The length of the k-th of the stretches of length s that cover n cells. */
  function Span(n: nat, s: nat, k: nat): nat {
    if n < s * k then 0 else Min(s, n - s * k)
  }

  /** The pixel a grid of tiles gives a cell: that of the one tile it lies in. */
  function MosaicAt(rows: Tiles, s: nat, w: nat, x: nat, y: nat): Pixel
    requires s > 0
  {
    if y / s < |rows| && x / s < |rows[y / s]|
    then At(rows[y / s][x / s], Span(w, s, x / s), x % s, y % s)
    else BLACK
  }

  function MosaicImage(rows: Tiles, s: nat, w: nat, h: nat): (r: seq<Pixel>)
    requires s > 0
    ensures |r| == w * h
  {
    seq(w * h, k requires 0 <= k < w * h => PosOf(w, h, k); MosaicAt(rows, s, w, k % w, k / w))
  }

  lemma MosaicImageAt(rows: Tiles, s: nat, w: nat, h: nat)
    requires s > 0
    ensures forall x, y | 0 <= x < w && 0 <= y < h ::
              At(MosaicImage(rows, s, w, h), w, x, y) == MosaicAt(rows, s, w, x, y)
  {
    hide MosaicAt, Pos;
    forall x, y | 0 <= x < w && 0 <= y < h
      ensures At(MosaicImage(rows, s, w, h), w, x, y) == MosaicAt(rows, s, w, x, y)
    {
      PosInverse(w, h, x, y);
    }
  }

  /** A tile is painted, whatever else may have changed to its right or below;
      nothing left of it or above it has. */
  ghost predicate TilePainted(before: seq<Pixel>, after: seq<Pixel>, w: nat, h: nat,
                              tx: nat, ty: nat, tw: nat, th: nat, cells: seq<Pixel>)
  {
    forall x, y | 0 <= x < w && 0 <= y < h ::
      (InBox(x, y, tx, ty, tw, th) ==> At(after, w, x, y) == At(cells, tw, x - tx, y - ty)) &&
      (x < tx || y < ty ==> At(after, w, x, y) == At(before, w, x, y))
  }

  /** Every cell above row ty is what its own tile says. */
  ghost predicate BandsPainted(img: seq<Pixel>, w: nat, h: nat, s: nat, ty: nat, rows: Tiles)
    requires s > 0
  {
    forall x, y | 0 <= x < w && 0 <= y < h && y < ty :: At(img, w, x, y) == MosaicAt(rows, s, w, x, y)
  }

  /** Every cell left of column tx, in the th rows from ty on, is what its tile says. */
  ghost predicate BandPainted(img: seq<Pixel>, w: nat, h: nat, s: nat, tx: nat, ty: nat, th: nat,
                              tiles: seq<seq<Pixel>>)
    requires s > 0 && tx <= s * |tiles|
  {
    forall x, y | 0 <= x < w && 0 <= y < h && x < tx && ty <= y < ty + th ::
      x / s < |tiles| && At(img, w, x, y) == At(tiles[x / s], Span(w, s, x / s), x % s, y - ty)
  }

  lemma QuotientBelow(s: nat, k: nat, x: nat)
    requires s > 0 && x < s * k
    ensures x / s < k
  {
    if k <= x / s {
      MulMono(k, x / s, s);
    }
  }

  lemma MosaicSnoc(rows: Tiles, tiles: seq<seq<Pixel>>, s: nat, w: nat, x: nat, y: nat)
    requires s > 0
    ensures y / s < |rows| ==> MosaicAt(rows + [tiles], s, w, x, y) == MosaicAt(rows, s, w, x, y)
    ensures y / s == |rows| && x / s < |tiles| ==>
              MosaicAt(rows + [tiles], s, w, x, y) == At(tiles[x / s], Span(w, s, x / s), x % s, y % s)
  {
  }

  lemma RowDone(img: seq<Pixel>, w: nat, h: nat, s: nat, rows: Tiles, tiles: seq<seq<Pixel>>)
    requires s > 0 && w <= s * |tiles| && s * |rows| < h
    requires BandsPainted(img, w, h, s, s * |rows|, rows)
    requires BandPainted(img, w, h, s, w, s * |rows|, Span(h, s, |rows|), tiles)
    ensures BandsPainted(img, w, h, s, s * (|rows| + 1), rows + [tiles])
  {
    hide At, Pos, MosaicAt;
    var ty := s * |rows|;
    assert s * (|rows| + 1) == ty + s;
    forall x, y | 0 <= x < w && 0 <= y < h && y < ty + s
      ensures At(img, w, x, y) == MosaicAt(rows + [tiles], s, w, x, y)
    {
      MosaicSnoc(rows, tiles, s, w, x, y);
      if y < ty {
        QuotientBelow(s, |rows|, y);
      } else {
        Quotient(s, |rows|, y);
      }
    }
  }

  lemma BandsStay(before: seq<Pixel>, after: seq<Pixel>, w: nat, h: nat, s: nat, tx: nat, ty: nat, tw: nat, th: nat,
                  rows: Tiles, cells: seq<Pixel>)
    requires s > 0 && BandsPainted(before, w, h, s, ty, rows)
    requires TilePainted(before, after, w, h, tx, ty, tw, th, cells)
    ensures BandsPainted(after, w, h, s, ty, rows)
  {
    hide MosaicAt, Pos, At;
  }

  /** One cell of the band once the next tile is painted. */
  lemma CellDone(before: seq<Pixel>, after: seq<Pixel>, w: nat, h: nat, s: nat, ty: nat, th: nat,
                 tiles: seq<seq<Pixel>>, cells: seq<Pixel>, x: nat, y: nat)
    requires s > 0 && x < w && y < h && x < s * |tiles| + s && ty <= y < ty + th
    requires BandPainted(before, w, h, s, s * |tiles|, ty, th, tiles)
    requires TilePainted(before, after, w, h, s * |tiles|, ty, Span(w, s, |tiles|), th, cells)
    ensures x / s < |tiles| + 1 && At(after, w, x, y) == At((tiles + [cells])[x / s], Span(w, s, x / s), x % s, y - ty)
  {
    hide MosaicAt, Pos, At;
    var tx := s * |tiles|;
    if x < tx {
      assert x / s < |tiles| && At(before, w, x, y) == At(tiles[x / s], Span(w, s, x / s), x % s, y - ty);
    } else {
      Quotient(s, |tiles|, x);
      assert InBox(x, y, tx, ty, Span(w, s, |tiles|), th);
    }
  }

  lemma TileDone(before: seq<Pixel>, after: seq<Pixel>, w: nat, h: nat, s: nat, ty: nat, th: nat,
                 rows: Tiles, tiles: seq<seq<Pixel>>, cells: seq<Pixel>)
    requires s > 0 && s * |tiles| < w
    requires BandsPainted(before, w, h, s, ty, rows)
    requires BandPainted(before, w, h, s, s * |tiles|, ty, th, tiles)
    requires TilePainted(before, after, w, h, s * |tiles|, ty, Span(w, s, |tiles|), th, cells)
    ensures Min(w, s * (|tiles| + 1)) <= s * |tiles + [cells]|
    ensures BandsPainted(after, w, h, s, ty, rows)
    ensures BandPainted(after, w, h, s, Min(w, s * (|tiles| + 1)), ty, th, tiles + [cells])
  {
    hide MosaicAt, Pos, At, Span, TilePainted, BandsPainted;
    BandsStay(before, after, w, h, s, s * |tiles|, ty, Span(w, s, |tiles|), th, rows, cells);
    assert s * (|tiles| + 1) == s * |tiles| + s;
    forall x, y | 0 <= x < w && 0 <= y < h && x < Min(w, s * |tiles| + s) && ty <= y < ty + th
      ensures x / s < |tiles + [cells]|
      ensures At(after, w, x, y) == At((tiles + [cells])[x / s], Span(w, s, x / s), x % s, y - ty)
    {
      CellDone(before, after, w, h, s, ty, th, tiles, cells, x, y);
    }
  }
}
