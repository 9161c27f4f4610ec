/** Hextile rectangles (section 7.7.4 of RFC 6143): 16 x 16 tiles in row-major
    order, each either raw or a background with coloured subrectangles, with the
    two colours carried from tile to tile. */
module Hextile {
  import opened Basics
  import opened Wire
  import opened Canvas
  import opened RfbPixels
  import opened Mosaic

  // ----- what a tile stream says

  datatype Carry = Carry(bg: Pixel, fg: Pixel)

  /** A tile's pixels, row-major, and the colours in force after it. */
  datatype OneTile = OneTile(cells: seq<Pixel>, carry: Carry)

  datatype TileRow = TileRow(tiles: seq<seq<Pixel>>, carry: Carry)

  datatype TileGrid = TileGrid(rows: Tiles, carry: Carry)

  const START := Carry(BLACK, WHITE)

  // ----- reading a tile stream

  function Flag(sub: byte, bit: nat): bool
    requires bit > 0
  {
    (sub as int / bit) % 2 == 1
  }

  function ParseSub(buf: Bytes, p: nat, bpp: Width, coloured: bool, fg: Pixel): (r: Parsed<Sub>)
    ensures r.Done? ==> p <= r.end && (p <= |buf| ==> r.end <= |buf|)
  {
    match ParseColour(buf, p, bpp, coloured, fg)
    case Short => Short
    case Done(c, q) =>
      if |buf| < q + 2 then Short
      else
        var xy, wh := buf[q], buf[q + 1];
        Done(Sub(xy / 16, xy % 16, wh / 16 + 1, wh % 16 + 1, c), q + 2)
  }

  /** The first n subrectangles of a tile. */
  function ParseSubs(buf: Bytes, p: nat, bpp: Width, n: nat, coloured: bool, fg: Pixel): (r: Parsed<seq<Sub>>)
    ensures r.Done? ==> p <= r.end && (p <= |buf| ==> r.end <= |buf|)
  {
    if n == 0 then Done([], p)
    else match ParseSubs(buf, p, bpp, n - 1, coloured, fg)
      case Short => Short
      case Done(subs, q) =>
        match ParseSub(buf, q, bpp, coloured, fg)
        case Short => Short
        case Done(s, q') => Done(subs + [s], q')
  }

  function ParseColour(buf: Bytes, p: nat, bpp: Width, present: bool, carried: Pixel): (r: Parsed<Pixel>)
    ensures r.Done? ==> p <= r.end && (p <= |buf| ==> r.end <= |buf|)
  {
    if !present then Done(carried, p)
    else if |buf| < p + bpp then Short
    else Done(ReadPixel(buf, p, bpp), p + bpp)
  }

  function ParseTile(buf: Bytes, p: nat, bpp: Width, tw: nat, th: nat, carry: Carry): (r: Parsed<OneTile>)
    ensures r.Done? ==> p <= r.end && (p <= |buf| ==> r.end <= |buf|)
  {
    if |buf| < p + 1 then Short
    else if Flag(buf[p], 1) then
      match ParsePixels(buf, p + 1, bpp, tw * th)
      case Short => Short
      case Done(px, q) => Done(OneTile(px, carry), q)
    else
      match ParseColour(buf, p + 1, bpp, Flag(buf[p], 2), carry.bg)
      case Short => Short
      case Done(bg, q) => ParseFill(buf, q, bpp, buf[p], tw, th, bg, carry.fg)
  }

  /** The rest of a tile that is not raw, from its foreground colour on. */
  function ParseFill(buf: Bytes, p: nat, bpp: Width, sub: byte, tw: nat, th: nat, bg: Pixel,
                     fg: Pixel): (r: Parsed<OneTile>)
    ensures r.Done? ==> p <= r.end && (p <= |buf| ==> r.end <= |buf|)
  {
    match ParseColour(buf, p, bpp, Flag(sub, 4), fg)
    case Short => Short
    case Done(fg', q) =>
      if !Flag(sub, 8) then Done(OneTile(ShadeImage([], bg, tw, th), Carry(bg, fg')), q)
      else if |buf| < q + 1 then Short
      else match ParseSubs(buf, q + 1, bpp, buf[q], Flag(sub, 16), fg')
        case Short => Short
        case Done(subs, q') => Done(OneTile(ShadeImage(subs, bg, tw, th), Carry(bg, fg')), q')
  }

  /** The first k tiles of a row of tiles th high. */
  function ParseRow(buf: Bytes, p: nat, bpp: Width, w: nat, th: nat, k: nat, carry: Carry): (r: Parsed<TileRow>)
    ensures r.Done? ==> p <= r.end && (p <= |buf| ==> r.end <= |buf|)
  {
    if k == 0 then Done(TileRow([], carry), p)
    else match ParseRow(buf, p, bpp, w, th, k - 1, carry)
      case Short => Short
      case Done(row, q) =>
        match ParseTile(buf, q, bpp, Span(w, 16, k - 1), th, row.carry)
        case Short => Short
        case Done(t, q') => Done(TileRow(row.tiles + [t.cells], t.carry), q')
  }

  /** The first k rows of tiles. */
  function ParseGrid(buf: Bytes, p: nat, bpp: Width, w: nat, h: nat, k: nat): (r: Parsed<TileGrid>)
    ensures r.Done? ==> p <= r.end && (p <= |buf| ==> r.end <= |buf|)
  {
    if k == 0 then Done(TileGrid([], START), p)
    else match ParseGrid(buf, p, bpp, w, h, k - 1)
      case Short => Short
      case Done(g, q) =>
        match ParseRow(buf, q, bpp, w, Span(h, 16, k - 1), Steps(w, 16), g.carry)
        case Short => Short
        case Done(row, q') => Done(TileGrid(g.rows + [row.tiles], row.carry), q')
  }

  /** A whole Hextile payload at `off`: nothing when the buffer is too short. */
  function Decoded(w: nat, h: nat, buf: Bytes, off: nat, bpp: Width): RectData {
    match ParseGrid(buf, off, bpp, w, h, Steps(h, 16))
    case Short => WAITING
    case Done(g, q) => Painted(q - off, MosaicImage(g.rows, 16, w, h))
  }

  /** A rectangle without columns has rows of no tiles, and they take no bytes. */
  lemma {:induction false} EmptyRows(buf: Bytes, p: nat, bpp: Width, h: nat, k: nat)
    ensures ParseGrid(buf, p, bpp, 0, h, k).Done? && ParseGrid(buf, p, bpp, 0, h, k).end == p
  {
    hide ParseTile;
    if k > 0 {
      EmptyRows(buf, p, bpp, h, k - 1);
      assert Steps(0, 16) == 0;
    }
  }

  /** An empty rectangle is done at once, on any buffer and at any offset. */
  lemma EmptyDone(w: nat, h: nat, buf: Bytes, off: nat, bpp: Width)
    requires w == 0 || h == 0
    ensures Decoded(w, h, buf, off, bpp) == Painted(0, [])
  {
    hide ParseGrid, MosaicAt;
    if w == 0 {
      EmptyRows(buf, off, bpp, h, Steps(h, 16));
    } else {
      NoRows(buf, off, bpp, w, h);
    }
  }

  lemma NoRows(buf: Bytes, p: nat, bpp: Width, w: nat, h: nat)
    requires h == 0
    ensures ParseGrid(buf, p, bpp, w, h, Steps(h, 16)) == Done(TileGrid([], START), p)
  {
  }

  // ----- reading depends only on the bytes read

  lemma {:induction false} SubsShort(buf: Bytes, p: nat, bpp: Width, k: nat, n: nat, coloured: bool, fg: Pixel)
    requires k <= n && ParseSubs(buf, p, bpp, k, coloured, fg).Short?
    ensures ParseSubs(buf, p, bpp, n, coloured, fg).Short?
  {
    if k < n {
      SubsShort(buf, p, bpp, k, n - 1, coloured, fg);
    }
  }

  lemma {:induction false} RowShort(buf: Bytes, p: nat, bpp: Width, w: nat, th: nat, k: nat, n: nat, carry: Carry)
    requires k <= n && ParseRow(buf, p, bpp, w, th, k, carry).Short?
    ensures ParseRow(buf, p, bpp, w, th, n, carry).Short?
  {
    if k < n {
      RowShort(buf, p, bpp, w, th, k, n - 1, carry);
    }
  }

  lemma {:induction false} GridShort(buf: Bytes, p: nat, bpp: Width, w: nat, h: nat, k: nat, n: nat)
    requires k <= n && ParseGrid(buf, p, bpp, w, h, k).Short?
    ensures ParseGrid(buf, p, bpp, w, h, n).Short?
  {
    if k < n {
      GridShort(buf, p, bpp, w, h, k, n - 1);
    }
  }

  /** A rectangle with a tile needs at least its first byte. */
  lemma FirstTileShort(buf: Bytes, p: nat, bpp: Width, w: nat, h: nat)
    requires w > 0 && h > 0 && |buf| <= p
    ensures ParseGrid(buf, p, bpp, w, h, Steps(h, 16)).Short?
  {
    var th := Span(h, 16, 0);
    assert ParseRow(buf, p, bpp, w, th, 0, START) == Done(TileRow([], START), p);
    assert ParseRow(buf, p, bpp, w, th, 1, START).Short?;
    RowShort(buf, p, bpp, w, th, 1, Steps(w, 16), START);
    assert ParseGrid(buf, p, bpp, w, h, 0) == Done(TileGrid([], START), p);
    assert ParseGrid(buf, p, bpp, w, h, 1).Short?;
    GridShort(buf, p, bpp, w, h, 1, Steps(h, 16));
  }

  lemma SubLocal(b: Bytes, b': Bytes, p: nat, bpp: Width, coloured: bool, fg: Pixel)
    requires ParseSub(b, p, bpp, coloured, fg).Done?
    requires SameUpTo(b, b', ParseSub(b, p, bpp, coloured, fg).end)
    ensures ParseSub(b', p, bpp, coloured, fg) == ParseSub(b, p, bpp, coloured, fg)
  {
    if coloured {
      ReadPixelSame(b, b', p + bpp, p, bpp);
    }
  }

  lemma {:induction false} SubsLocal(b: Bytes, b': Bytes, p: nat, bpp: Width, n: nat, coloured: bool, fg: Pixel)
    requires ParseSubs(b, p, bpp, n, coloured, fg).Done?
    requires SameUpTo(b, b', ParseSubs(b, p, bpp, n, coloured, fg).end)
    ensures ParseSubs(b', p, bpp, n, coloured, fg) == ParseSubs(b, p, bpp, n, coloured, fg)
  {
    if n > 0 {
      var before := ParseSubs(b, p, bpp, n - 1, coloured, fg);
      var s := ParseSub(b, before.end, bpp, coloured, fg);
      assert before.end <= s.end;
      SubsLocal(b, b', p, bpp, n - 1, coloured, fg);
      SubLocal(b, b', before.end, bpp, coloured, fg);
    }
  }

  lemma FillLocal(b: Bytes, b': Bytes, p: nat, bpp: Width, sub: byte, tw: nat, th: nat, bg: Pixel, fg: Pixel)
    requires ParseFill(b, p, bpp, sub, tw, th, bg, fg).Done?
    requires SameUpTo(b, b', ParseFill(b, p, bpp, sub, tw, th, bg, fg).end)
    ensures ParseFill(b', p, bpp, sub, tw, th, bg, fg) == ParseFill(b, p, bpp, sub, tw, th, bg, fg)
  {
    hide ParseSubs;
    var colour := ParseColour(b, p, bpp, Flag(sub, 4), fg);
    if Flag(sub, 8) {
      SubsLocal(b, b', colour.end + 1, bpp, b[colour.end], Flag(sub, 16), colour.value);
    }
  }

  lemma TileLocal(b: Bytes, b': Bytes, p: nat, bpp: Width, tw: nat, th: nat, carry: Carry)
    requires ParseTile(b, p, bpp, tw, th, carry).Done?
    requires SameUpTo(b, b', ParseTile(b, p, bpp, tw, th, carry).end)
    ensures ParseTile(b', p, bpp, tw, th, carry) == ParseTile(b, p, bpp, tw, th, carry)
  {
    if Flag(b[p], 1) {
      PixelsLocal(b, b', p + 1, bpp, tw * th);
    } else {
      var bg := ParseColour(b, p + 1, bpp, Flag(b[p], 2), carry.bg);
      FillLocal(b, b', bg.end, bpp, b[p], tw, th, bg.value, carry.fg);
    }
  }

  lemma {:induction false} RowLocal(b: Bytes, b': Bytes, p: nat, bpp: Width, w: nat, th: nat, k: nat, carry: Carry)
    requires ParseRow(b, p, bpp, w, th, k, carry).Done?
    requires SameUpTo(b, b', ParseRow(b, p, bpp, w, th, k, carry).end)
    ensures ParseRow(b', p, bpp, w, th, k, carry) == ParseRow(b, p, bpp, w, th, k, carry)
  {
    if k > 0 {
      var row, tw := ParseRow(b, p, bpp, w, th, k - 1, carry), Span(w, 16, k - 1);
      var tile := ParseTile(b, row.end, bpp, tw, th, row.value.carry);
      assert row.end <= tile.end;
      RowLocal(b, b', p, bpp, w, th, k - 1, carry);
      TileLocal(b, b', row.end, bpp, tw, th, row.value.carry);
    }
  }

  lemma {:induction false} GridLocal(b: Bytes, b': Bytes, p: nat, bpp: Width, w: nat, h: nat, k: nat)
    requires ParseGrid(b, p, bpp, w, h, k).Done?
    requires SameUpTo(b, b', ParseGrid(b, p, bpp, w, h, k).end)
    ensures ParseGrid(b', p, bpp, w, h, k) == ParseGrid(b, p, bpp, w, h, k)
  {
    if k > 0 {
      GridLocal(b, b', p, bpp, w, h, k - 1);
      var g := ParseGrid(b, p, bpp, w, h, k - 1);
      RowLocal(b, b', g.end, bpp, w, Span(h, 16, k - 1), Steps(w, 16), g.value.carry);
    }
  }

  // ----- the decoder

  /** Copy a raw tile's pixels into the rectangle. */
  method PaintRaw(img: seq<Pixel>, w: nat, h: nat, tx: nat, ty: nat, tw: nat, th: nat,
                  buf: Bytes, p: nat, bpp: Width, ghost px: seq<Pixel>)
    returns (r: seq<Pixel>)
    requires |img| == w * h
    requires p + tw * th * bpp <= |buf|
    requires |px| == tw * th && forall k | 0 <= k < tw * th :: PixelStands(buf, p, bpp, px, k)
    ensures |r| == w * h
    ensures forall x, y | 0 <= x < w && 0 <= y < h ::
              At(r, w, x, y) == if InBox(x, y, tx, ty, tw, th) then At(px, tw, x - tx, y - ty) else At(img, w, x, y)
  {
    r := img;
    for yy := 0 to th
      invariant |r| == w * h
      invariant forall x, y | 0 <= x < w && 0 <= y < h ::
                  At(r, w, x, y) == if InBox(x, y, tx, ty, tw, yy) then At(px, tw, x - tx, y - ty) else At(img, w, x, y)
    {
      for xx := 0 to tw
        invariant |r| == w * h
        invariant forall x, y | 0 <= x < w && 0 <= y < h ::
                    At(r, w, x, y) == if InBox(x, y, tx, ty, tw, yy) || InBox(x, y, tx, ty + yy, xx, 1)
                                      then At(px, tw, x - tx, y - ty) else At(img, w, x, y)
      {
        var x, y := tx + xx, ty + yy;
        if x < w && y < h {
          PosInside(tw, th, xx, yy);
          assert PixelStands(buf, p, bpp, px, Pos(tw, xx, yy));
          var c := ReadPixel(buf, p + (yy * tw + xx) * bpp, bpp);
          AtPut(r, w, h, x, y, c);
          PosInside(w, h, x, y);
          r := r[y * w + x := c];
        }
      }
    }
  }

  /** A tile shows its subrectangles so far; nothing left of it or above it has changed. */
  ghost predicate FillPainted(before: seq<Pixel>, after: seq<Pixel>, w: nat, h: nat,
                              tx: nat, ty: nat, tw: nat, th: nat, bg: Pixel, subs: seq<Sub>)
  {
    forall x, y | 0 <= x < w && 0 <= y < h ::
      (InBox(x, y, tx, ty, tw, th) ==> At(after, w, x, y) == Shade(subs, bg, x - tx, y - ty)) &&
      (x < tx || y < ty ==> At(after, w, x, y) == At(before, w, x, y))
  }

  lemma Filled(before: seq<Pixel>, after: seq<Pixel>, w: nat, h: nat, tx: nat, ty: nat, tw: nat, th: nat, bg: Pixel)
    requires forall x, y | 0 <= x < w && 0 <= y < h ::
               At(after, w, x, y) == if InBox(x, y, tx, ty, tw, th) then bg else At(before, w, x, y)
    ensures FillPainted(before, after, w, h, tx, ty, tw, th, bg, [])
  {
  }

  lemma PaintOver(img: seq<Pixel>, before: seq<Pixel>, after: seq<Pixel>, w: nat, h: nat,
                  tx: nat, ty: nat, tw: nat, th: nat, bg: Pixel, subs: seq<Sub>, s: Sub)
    requires FillPainted(img, before, w, h, tx, ty, tw, th, bg, subs)
    requires forall x, y | 0 <= x < w && 0 <= y < h ::
               At(after, w, x, y) == if InBox(x, y, tx + s.x, ty + s.y, s.w, s.h) then s.c else At(before, w, x, y)
    ensures FillPainted(img, after, w, h, tx, ty, tw, th, bg, subs + [s])
  {
    assert (subs + [s])[..|subs|] == subs;
  }

  lemma FillIsTile(before: seq<Pixel>, after: seq<Pixel>, w: nat, h: nat,
                   tx: nat, ty: nat, tw: nat, th: nat, bg: Pixel, subs: seq<Sub>)
    requires FillPainted(before, after, w, h, tx, ty, tw, th, bg, subs)
    ensures TilePainted(before, after, w, h, tx, ty, tw, th, ShadeImage(subs, bg, tw, th))
  {
    hide At, Shade;
    ShadeImageAt(subs, bg, tw, th);
  }

  /** A colour from the stream when its flag is set, else the one carried. */
  method ReadColour(buf: Bytes, p: nat, bpp: Width, present: bool, carried: Pixel) returns (ok: bool, c: Pixel, q: nat)
    ensures ok <==> ParseColour(buf, p, bpp, present, carried).Done?
    ensures ok ==> ParseColour(buf, p, bpp, present, carried) == Done(c, q)
  {
    ok, c, q := true, carried, p;
    if present {
      if |buf| < p + bpp {
        return false, carried, p;
      }
      c, q := ReadPixel(buf, p, bpp), p + bpp;
    }
  }

  method ReadSub(buf: Bytes, p: nat, bpp: Width, coloured: bool, fg: Pixel) returns (ok: bool, s: Sub, q: nat)
    ensures ok <==> ParseSub(buf, p, bpp, coloured, fg).Done?
    ensures ok ==> ParseSub(buf, p, bpp, coloured, fg) == Done(s, q)
  {
    var c;
    ok, c, q := ReadColour(buf, p, bpp, coloured, fg);
    s := Sub(0, 0, 0, 0, c);
    if !ok || |buf| < q + 2 {
      return false, s, q;
    }
    var xy, wh := buf[q], buf[q + 1];
    s, q := Sub(xy / 16, xy % 16, wh / 16 + 1, wh % 16 + 1, c), q + 2;
  }

  /** Subrectangles are painted in order, clipped at the rectangle but not at the tile. */
  method PaintSubs(ghost img: seq<Pixel>, filled: seq<Pixel>, w: nat, h: nat, tx: nat, ty: nat, tw: nat, th: nat,
                   buf: Bytes, p0: nat, bpp: Width, ns: nat, coloured: bool, bg: Pixel, fg: Pixel)
    returns (ok: bool, r: seq<Pixel>, p: nat)
    requires |filled| == w * h
    requires FillPainted(img, filled, w, h, tx, ty, tw, th, bg, [])
    ensures |r| == w * h
    ensures ok <==> ParseSubs(buf, p0, bpp, ns, coloured, fg).Done?
    ensures ok ==> p == ParseSubs(buf, p0, bpp, ns, coloured, fg).end
    ensures ok ==> FillPainted(img, r, w, h, tx, ty, tw, th, bg, ParseSubs(buf, p0, bpp, ns, coloured, fg).value)
  {
    hide FillPainted, At, ParseSub;
    r, p := filled, p0;
    ghost var subs := [];
    for s := 0 to ns
      invariant |r| == w * h
      invariant ParseSubs(buf, p0, bpp, s, coloured, fg) == Done(subs, p)
      invariant FillPainted(img, r, w, h, tx, ty, tw, th, bg, subs)
    {
      var got, sub, q := ReadSub(buf, p, bpp, coloured, fg);
      if !got {
        SubsShort(buf, p0, bpp, s + 1, ns, coloured, fg);
        return false, r, p;
      }
      p := q;
      ghost var before := r;
      r := FillBox(r, w, h, tx + sub.x, ty + sub.y, sub.w, sub.h, sub.c);
      PaintOver(img, before, r, w, h, tx, ty, tw, th, bg, subs, sub);
      subs := subs + [sub];
    }
    ok := true;
  }

  method DecodeRawTile(img: seq<Pixel>, w: nat, h: nat, tx: nat, ty: nat, tw: nat, th: nat,
                       buf: Bytes, p0: nat, bpp: Width)
    returns (ok: bool, r: seq<Pixel>, p: nat)
    requires |img| == w * h && p0 <= |buf|
    ensures |r| == w * h
    ensures ok <==> ParsePixels(buf, p0, bpp, tw * th).Done?
    ensures ok ==> p == ParsePixels(buf, p0, bpp, tw * th).end
    ensures ok ==> TilePainted(img, r, w, h, tx, ty, tw, th, ParsePixels(buf, p0, bpp, tw * th).value)
  {
    var cells := tw * th;
    PixelsStand(buf, p0, bpp, cells);
    var need := cells * bpp;
    if |buf| < p0 + need {
      return false, img, p0;
    }
    r := PaintRaw(img, w, h, tx, ty, tw, th, buf, p0, bpp, ParsePixels(buf, p0, bpp, cells).value);
    ok, p := true, p0 + need;
  }

  method DecodeTile(img: seq<Pixel>, w: nat, h: nat, tx: nat, ty: nat, tw: nat, th: nat,
                    buf: Bytes, p0: nat, bpp: Width, carry: Carry)
    returns (ok: bool, r: seq<Pixel>, p: nat, carry': Carry)
    requires |img| == w * h
    ensures |r| == w * h
    ensures ok <==> ParseTile(buf, p0, bpp, tw, th, carry).Done?
    ensures ok ==>
              var one := ParseTile(buf, p0, bpp, tw, th, carry);
              p == one.end && carry' == one.value.carry && TilePainted(img, r, w, h, tx, ty, tw, th, one.value.cells)
  {
    hide TilePainted, FillPainted, At, ParsePixels, ParseSubs, ShadeImage;
    r, p, carry' := img, p0, carry;
    if |buf| < p + 1 {
      return false, r, p, carry';
    }
    var sub := buf[p];
    p := p + 1;
    if Flag(sub, 1) {
      ok, r, p := DecodeRawTile(img, w, h, tx, ty, tw, th, buf, p, bpp);
      return ok, r, p, carry';
    }
    var bg, fg := carry.bg, carry.fg;
    ok, bg, p := ReadColour(buf, p, bpp, Flag(sub, 2), bg);
    if !ok {
      return false, r, p, carry';
    }
    ok, fg, p := ReadColour(buf, p, bpp, Flag(sub, 4), fg);
    if !ok {
      return false, r, p, carry';
    }
    carry' := Carry(bg, fg);
    r := FillBox(img, w, h, tx, ty, tw, th, bg);
    Filled(img, r, w, h, tx, ty, tw, th, bg);
    ghost var subs := [];
    if Flag(sub, 8) {
      if |buf| < p + 1 {
        return false, r, p, carry';
      }
      var ns := buf[p];
      subs := match ParseSubs(buf, p + 1, bpp, ns, Flag(sub, 16), fg) case Done(v, _) => v case Short => [];
      ok, r, p := PaintSubs(img, r, w, h, tx, ty, tw, th, buf, p + 1, bpp, ns, Flag(sub, 16), bg, fg);
      if !ok {
        return false, r, p, carry';
      }
    }
    FillIsTile(img, r, w, h, tx, ty, tw, th, bg, subs);
  }

  /** The band of tiles whose top is at row ty. */
  method DecodeBand(img: seq<Pixel>, w: nat, h: nat, ty: nat, th: nat, buf: Bytes, p0: nat, bpp: Width, carry: Carry,
                    ghost rows: Tiles)
    returns (ok: bool, r: seq<Pixel>, p: nat, carry': Carry)
    requires |img| == w * h && BandsPainted(img, w, h, 16, ty, rows)
    ensures |r| == w * h
    ensures ok <==> ParseRow(buf, p0, bpp, w, th, Steps(w, 16), carry).Done?
    ensures ok ==>
              var row := ParseRow(buf, p0, bpp, w, th, Steps(w, 16), carry);
              row == Done(TileRow(row.value.tiles, carry'), p) && |row.value.tiles| == Steps(w, 16) &&
              BandsPainted(r, w, h, 16, ty, rows) && BandPainted(r, w, h, 16, w, ty, th, row.value.tiles)
  {
    hide TilePainted, BandsPainted, ParseTile, At;
    r, p, carry' := img, p0, carry;
    ghost var tiles: seq<seq<Pixel>> := [];
    var tx := 0;
    while tx < w
      invariant tx == 16 * |tiles| && |tiles| <= Steps(w, 16)
      invariant |r| == w * h
      invariant ParseRow(buf, p0, bpp, w, th, |tiles|, carry) == Done(TileRow(tiles, carry'), p)
      invariant BandsPainted(r, w, h, 16, ty, rows)
      invariant BandPainted(r, w, h, 16, Min(w, tx), ty, th, tiles)
    {
      var tw := Min(16, w - tx);
      ghost var one := ParseTile(buf, p, bpp, tw, th, carry');
      ghost var before := r;
      ok, r, p, carry' := DecodeTile(r, w, h, tx, ty, tw, th, buf, p, bpp, carry');
      if !ok {
        RowShort(buf, p0, bpp, w, th, |tiles| + 1, Steps(w, 16), carry);
        return;
      }
      TileDone(before, r, w, h, 16, ty, th, rows, tiles, one.value.cells);
      tiles := tiles + [one.value.cells];
      tx := tx + 16;
    }
    ok := true;
  }

  /** Decode a Hextile payload starting at `off`. */
  method Decode(w: nat, h: nat, buf: Bytes, off: nat, bpp: Width) returns (out: RectData)
    ensures out.complete <==> Decoded(w, h, buf, off, bpp).complete
    ensures out.complete ==> out == Decoded(w, h, buf, off, bpp)
    ensures !out.complete ==> out.consumed == 0
  {
    hide BandPainted, ParseRow, At;
    var pixels: seq<Pixel> := seq(w * h, _ => BLACK);
    var carry := START;
    var p: nat := off;
    ghost var rows: Tiles := [];
    var ty := 0;
    while ty < h
      invariant ty == 16 * |rows| && |rows| <= Steps(h, 16)
      invariant |pixels| == w * h
      invariant ParseGrid(buf, off, bpp, w, h, |rows|) == Done(TileGrid(rows, carry), p)
      invariant BandsPainted(pixels, w, h, 16, ty, rows)
    {
      ghost var row := ParseRow(buf, p, bpp, w, Min(16, h - ty), Steps(w, 16), carry);
      var ok;
      ok, pixels, p, carry := DecodeBand(pixels, w, h, ty, Min(16, h - ty), buf, p, bpp, carry, rows);
      if !ok {
        GridShort(buf, off, bpp, w, h, |rows| + 1, Steps(h, 16));
        return RectData(false, 0, pixels, false, 0, 0);
      }
      RowDone(pixels, w, h, 16, rows, row.value.tiles);
      rows := rows + [row.value.tiles];
      ty := ty + 16;
    }
    MosaicImageAt(rows, 16, w, h);
    SameImage(pixels, MosaicImage(rows, 16, w, h), w, h);
    out := Painted(p - off, pixels);
  }
}
