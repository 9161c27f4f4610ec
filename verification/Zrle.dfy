/** ZRLE rectangles after inflation (section 7.7.6 of RFC 6143): 64 x 64 tiles,
    each raw, solid, packed palette, plain RLE or palette RLE. */
module Zrle {
  import opened Basics
  import opened Wire
  import opened Canvas
  import opened RfbPixels
  import opened Mosaic

  // ----- what a tile stream says

  /** The pixels of a CPIXEL are its three low bytes. */
  const CPIXEL := 3

  function Fill(c: Pixel, n: nat): (r: seq<Pixel>)
    ensures |r| == n
  {
    seq(n, _ => c)
  }

  function Lookup(pal: seq<Pixel>, idx: nat): Pixel {
    if idx < |pal| then pal[idx] else BLACK
  }

  /** A run length: one more than the sum of the bytes up to the first below 255. */
  function ParseRun(b: Bytes, p: nat): (r: Parsed<nat>)
    ensures r.Done? ==> p < r.end <= |b| && r.value >= 1
    decreases |b| - p
  {
    if |b| < p + 1 then Short
    else if b[p] < 255 then Done(b[p] as int + 1, p + 1)
    else match ParseRun(b, p + 1)
      case Short => Short
      case Done(n, q) => Done(n + 255, q)
  }

  /** Runs of one colour until `need` cells are covered; the last is cut to fit. */
  function ParsePlainRle(b: Bytes, p: nat, need: nat): (r: Parsed<seq<Pixel>>)
    ensures r.Done? ==> |r.value| == need && p <= r.end && (p <= |b| ==> r.end <= |b|)
    decreases need
  {
    if need == 0 then Done([], p)
    else if |b| < p + CPIXEL then Short
    else match ParseRun(b, p + CPIXEL)
      case Short => Short
      case Done(run, q) =>
        var n := Min(run, need);
        match ParsePlainRle(b, q, need - n)
        case Short => Short
        case Done(rest, e) => Done(Fill(ReadPixel(b, p, CPIXEL), n) + rest, e)
  }

  /** A palette run: its index, its length and where it ends. */
  datatype PaletteRun = PaletteRun(idx: nat, run: nat)

  function ParsePaletteRun(b: Bytes, p: nat): (r: Parsed<PaletteRun>)
    ensures r.Done? ==> p < r.end <= |b| && r.value.run >= 1
  {
    if |b| < p + 1 then Short
    else if b[p] < 128 then Done(PaletteRun(b[p], 1), p + 1)
    else match ParseRun(b, p + 1)
      case Short => Short
      case Done(run, q) => Done(PaletteRun(b[p] as int - 128, run), q)
  }

  function ParsePaletteRle(b: Bytes, p: nat, pal: seq<Pixel>, need: nat): (r: Parsed<seq<Pixel>>)
    ensures r.Done? ==> |r.value| == need && p <= r.end && (p <= |b| ==> r.end <= |b|)
    decreases need
  {
    if need == 0 then Done([], p)
    else match ParsePaletteRun(b, p)
      case Short => Short
      case Done(one, q) =>
        var n := Min(one.run, need);
        match ParsePaletteRle(b, q, pal, need - n)
        case Short => Short
        case Done(rest, e) => Done(Fill(Lookup(pal, one.idx), n) + rest, e)
  }

  /** The width of a packed index: 1, 2 or 4 bits. */
  function IndexBits(palSize: nat): nat {
    if palSize <= 2 then 1 else if palSize <= 4 then 2 else 4
  }

  function Shifted(v: byte, bits: nat): nat
    requires bits <= 8
  {
    v as int / Power(bits)
  }

  function Power(bits: nat): (r: nat)
    requires bits <= 8
    ensures r > 0
  {
    match bits
    case 0 => 1 case 1 => 2 case 2 => 4 case 3 => 8 case 4 => 16
    case 5 => 32 case 6 => 64 case 7 => 128 case 8 => 256
  }

  /** The index that cell x of a packed row has: rows start on a byte, and the
      first cell of a byte is in its most significant bits. */
  function PackedIndex(b: Bytes, p: nat, bits: nat, x: nat): nat
    requires bits in {1, 2, 4} && p + x / (8 / bits) < |b|
  {
    Shifted(b[p + x / (8 / bits)], 8 - bits - bits * (x % (8 / bits))) % Power(bits)
  }

  /** The first n cells of a packed row; the row ends at the next byte boundary. */
  function ParsePackedRow(b: Bytes, p: nat, pal: seq<Pixel>, bits: nat, n: nat): (r: Parsed<seq<Pixel>>)
    requires bits in {1, 2, 4}
    ensures r.Done? ==> |r.value| == n && r.end == p + Steps(n, 8 / bits) && (p <= |b| ==> r.end <= |b|)
  {
    if n == 0 then Done([], p)
    else match ParsePackedRow(b, p, pal, bits, n - 1)
      case Short => Short
      case Done(px, q) =>
        if |b| < p + Steps(n, 8 / bits) then Short
        else
          StepsIndex(n, 8 / bits);
          Done(px + [Lookup(pal, PackedIndex(b, p, bits, n - 1))], p + Steps(n, 8 / bits))
  }

  lemma StepsIndex(n: nat, s: nat)
    requires n > 0 && s > 0
    ensures Steps(n, s) == (n - 1) / s + 1
    ensures Steps(n, s) == Steps(n - 1, s) + if (n - 1) % s == 0 then 1 else 0
  {
    var k := (n - 1) / s;
    assert n - 1 == s * k + (n - 1) % s;
    assert s * (k + 1) == s * k + s;
    Quotient(s, k + 1, n - 1 + s);
    if (n - 1) % s == 0 {
      assert Steps(n - 1, s) == (s * k + (s - 1)) / s;
      Quotient(s, k, s * k + (s - 1));
    } else {
      Quotient(s, k + 1, n - 2 + s);
    }
  }

  /** The first k rows of a packed tile tw wide. */
  function ParsePacked(b: Bytes, p: nat, pal: seq<Pixel>, bits: nat, tw: nat, k: nat): (r: Parsed<seq<Pixel>>)
    requires bits in {1, 2, 4}
    ensures r.Done? ==> |r.value| == k * tw && p <= r.end && (p <= |b| ==> r.end <= |b|)
  {
    if k == 0 then Done([], p)
    else match ParsePacked(b, p, pal, bits, tw, k - 1)
      case Short => Short
      case Done(px, q) =>
        match ParsePackedRow(b, q, pal, bits, tw)
        case Short => Short
        case Done(row, e) => assert k * tw == (k - 1) * tw + tw; Done(px + row, e)
  }

  /** One tile's cells, row-major. */
  function ParseTile(b: Bytes, p: nat, tw: nat, th: nat): (r: Parsed<seq<Pixel>>)
    ensures r.Done? ==> |r.value| == tw * th && p <= r.end && (p <= |b| ==> r.end <= |b|)
  {
    if |b| < p + 1 then Short
    else
      var sub, cells := b[p], tw * th;
      if sub == 0 then ParseRaw(b, p + 1, cells)
      else if sub == 1 then
        if |b| < p + 1 + CPIXEL then Short else Done(Fill(ReadPixel(b, p + 1, CPIXEL), cells), p + 1 + CPIXEL)
      else if sub <= 16 then
        match ParsePixels(b, p + 1, CPIXEL, sub)
        case Short => Short
        case Done(pal, q) => MulCommutes(tw, th); ParsePacked(b, q, pal, IndexBits(sub), tw, th)
      else if sub == 128 then ParsePlainRle(b, p + 1, cells)
      else if sub >= 130 then
        match ParsePixels(b, p + 1, CPIXEL, sub - 128)
        case Short => Short
        case Done(pal, q) => ParsePaletteRle(b, q, pal, cells)
      else Short
  }

  function ParseRaw(b: Bytes, p: nat, n: nat): (r: Parsed<seq<Pixel>>)
    ensures r.Done? ==> |r.value| == n && p <= r.end && (p <= |b| ==> r.end <= |b|)
  {
    PixelsCount(b, p, CPIXEL, n);
    ParsePixels(b, p, CPIXEL, n)
  }

  lemma {:induction false} PixelsCount(b: Bytes, p: nat, bpp: Width, n: nat)
    ensures ParsePixels(b, p, bpp, n).Done? ==> |ParsePixels(b, p, bpp, n).value| == n
  {
    if n > 0 {
      PixelsCount(b, p, bpp, n - 1);
    }
  }

  lemma MulCommutes(a: nat, b: nat)
    ensures a * b == b * a
  {
  }

  function ParseRow(b: Bytes, p: nat, w: nat, th: nat, k: nat): (r: Parsed<seq<seq<Pixel>>>)
    ensures r.Done? ==> |r.value| == k && p <= r.end && (p <= |b| ==> r.end <= |b|)
  {
    if k == 0 then Done([], p)
    else match ParseRow(b, p, w, th, k - 1)
      case Short => Short
      case Done(tiles, q) =>
        match ParseTile(b, q, Span(w, 64, k - 1), th)
        case Short => Short
        case Done(cells, e) => Done(tiles + [cells], e)
  }

  function ParseGrid(b: Bytes, p: nat, w: nat, h: nat, k: nat): (r: Parsed<Tiles>)
    ensures r.Done? ==> |r.value| == k && p <= r.end && (p <= |b| ==> r.end <= |b|)
  {
    if k == 0 then Done([], p)
    else match ParseGrid(b, p, w, h, k - 1)
      case Short => Short
      case Done(rows, q) =>
        match ParseRow(b, q, w, Span(h, 64, k - 1), Steps(w, 64))
        case Short => Short
        case Done(tiles, e) => Done(rows + [tiles], e)
  }

  /** The pixels of a whole inflated rectangle: all w * h of them, or none when the
      stream ends early or uses a subencoding that does not exist. */
  function TilePixelsOf(b: Bytes, w: nat, h: nat): (r: seq<Pixel>)
    ensures r == [] || |r| == w * h
  {
    match ParseGrid(b, 0, w, h, Steps(h, 64))
    case Short => []
    case Done(rows, _) => MosaicImage(rows, 64, w, h)
  }

  function Prepend(px: seq<Pixel>, r: Parsed<seq<Pixel>>): Parsed<seq<Pixel>> {
    match r
    case Short => Short
    case Done(rest, e) => Done(px + rest, e)
  }

  // ----- the cursor over inflated bytes

  /** A bounds-checked cursor; `bad` latches once a read runs past the end. */
  class TileReader {
    const b: Bytes
    var p: nat
    var bad: bool

    constructor (buf: Bytes)
      ensures b == buf && p == 0 && !bad && Valid()
    {
      b, p, bad := buf, 0, false;
    }

    ghost predicate Valid()
      reads this
    {
      p <= |b|
    }

    method U8() returns (v: byte)
      requires Valid()
      modifies this
      ensures Valid()
      ensures old(p) + 1 <= |b| ==> v == b[old(p)] && p == old(p) + 1 && bad == old(bad)
      ensures |b| < old(p) + 1 ==> v == 0 && p == old(p) && bad
    {
      if |b| < p + 1 {
        bad := true;
        return 0;
      }
      v := b[p];
      p := p + 1;
    }

    method Cpixel() returns (c: Pixel)
      requires Valid()
      modifies this
      ensures Valid()
      ensures old(p) + CPIXEL <= |b| ==> c == ReadPixel(b, old(p), CPIXEL) && p == old(p) + CPIXEL && bad == old(bad)
      ensures |b| < old(p) + CPIXEL ==> c == BLACK && p == old(p) && bad
    {
      if |b| < p + 3 {
        bad := true;
        return BLACK;
      }
      c := Argb(b[p + 2], b[p + 1], b[p]);
      p := p + 3;
    }

    /** Reads 255s until a byte below 255 or the end of the data. */
    method RunLength() returns (run: nat)
      requires Valid()
      modifies this
      ensures Valid() && run >= 1 && old(p) <= p
      ensures old(bad) ==> bad
      ensures !old(bad) ==> (bad <==> ParseRun(b, old(p)).Short?)
      ensures !old(bad) && !bad ==> ParseRun(b, old(p)) == Done(run, p)
    {
      ghost var p0, bad0 := p, bad;
      var c := U8();
      var sum: nat := c;
      while c == 255 && !bad
        invariant Valid() && p0 <= p && (bad0 ==> bad)
        invariant !bad0 && bad ==> ParseRun(b, p0).Short?
        invariant !bad && c == 255 ==>
                    ParseRun(b, p0) == match ParseRun(b, p) case Short => Short case Done(n, q) => Done(n + sum, q)
        invariant !bad && c < 255 ==> ParseRun(b, p0) == Done(sum + 1, p)
        decreases |b| - p, !bad
      {
        c := U8();
        sum := sum + c as int;
      }
      run := sum + 1;
    }
  }

  // ----- drawing cells in row-major order

  /** A tile's place in a w x h rectangle. */
  datatype Place = Place(w: nat, h: nat, tx: nat, ty: nat, tw: nat, th: nat) {
    ghost predicate Inside() {
      tw > 0 && th > 0 && tx + tw <= w && ty + th <= h
    }

    function Cells(): nat {
      tw * th
    }
  }

  /** The first |cells| cells of a tile have been drawn, in row-major order, and
      nothing else has changed. */
  ghost predicate Drawn(before: seq<Pixel>, after: seq<Pixel>, at: Place, cells: seq<Pixel>) {
    |after| == at.w * at.h && |cells| <= at.Cells() &&
    forall x, y | 0 <= x < at.w && 0 <= y < at.h :: At(after, at.w, x, y) == DrawnAt(before, at, cells, x, y)
  }

  function DrawnAt(before: seq<Pixel>, at: Place, cells: seq<Pixel>, x: nat, y: nat): Pixel {
    if InBox(x, y, at.tx, at.ty, at.tw, at.th) && Pos(at.tw, x - at.tx, y - at.ty) < |cells|
    then cells[Pos(at.tw, x - at.tx, y - at.ty)] else At(before, at.w, x, y)
  }

  lemma DrawNext(before: seq<Pixel>, mid: seq<Pixel>, after: seq<Pixel>, at: Place, cells: seq<Pixel>, x: nat,
                 y: nat, c: Pixel)
    requires Drawn(before, mid, at, cells) && |after| == |mid|
    requires x < at.tw && y < at.th && |cells| == Pos(at.tw, x, y)
    requires forall x', y' | 0 <= x' < at.w && 0 <= y' < at.h ::
               At(after, at.w, x', y') == if x' == at.tx + x && y' == at.ty + y then c else At(mid, at.w, x', y')
    ensures Drawn(before, after, at, cells + [c])
  {
    hide At, Pos;
    PosInside(at.tw, at.th, x, y);
    forall x', y' | 0 <= x' < at.w && 0 <= y' < at.h
      ensures At(after, at.w, x', y') == DrawnAt(before, at, cells + [c], x', y')
    {
      if InBox(x', y', at.tx, at.ty, at.tw, at.th) && Pos(at.tw, x' - at.tx, y' - at.ty) == |cells| {
        PosInjective(at.tw, x, y, x' - at.tx, y' - at.ty);
      }
    }
  }

  lemma DrawnIsTile(before: seq<Pixel>, after: seq<Pixel>, at: Place, cells: seq<Pixel>)
    requires Drawn(before, after, at, cells) && |cells| == at.Cells()
    ensures TilePainted(before, after, at.w, at.h, at.tx, at.ty, at.tw, at.th, cells)
  {
    hide Pos;
    forall x, y | 0 <= x < at.w && 0 <= y < at.h && InBox(x, y, at.tx, at.ty, at.tw, at.th)
      ensures At(after, at.w, x, y) == At(cells, at.tw, x - at.tx, y - at.ty)
    {
      PosInside(at.tw, at.th, x - at.tx, y - at.ty);
    }
  }

  /** Where the next cell in row-major order is. */
  lemma PosNext(tw: nat, th: nat, x: nat, y: nat)
    requires x < tw
    ensures Pos(tw, x, y) + 1 == if x + 1 >= tw then Pos(tw, 0, y + 1) else Pos(tw, x + 1, y)
    ensures Pos(tw, x, y) < tw * th <==> y < th
    ensures Pos(tw, 0, th) == tw * th
  {
    MulCommutes(tw, th);
    if y < th {
      PosInside(tw, th, x, y);
    } else {
      MulMono(th, y, tw);
    }
  }

  /** One cell: `put` of the tile loop. */
  method PutCell(ghost before: seq<Pixel>, img: seq<Pixel>, at: Place, x: nat, y: nat, c: Pixel,
                 ghost cells: seq<Pixel>)
    returns (r: seq<Pixel>)
    requires at.Inside() && Drawn(before, img, at, cells)
    requires x < at.tw && y < at.th && |cells| == Pos(at.tw, x, y)
    ensures Drawn(before, r, at, cells + [c])
  {
    hide At;
    var px, py := at.tx + x, at.ty + y;
    r := img;
    if px < at.w && py < at.h {
      PosInside(at.w, at.h, px, py);
      AtPut(img, at.w, at.h, px, py, c);
      r := img[py * at.w + px := c];
      assert r == Put(img, at.w, at.h, px, py, c);
    }
    DrawNext(before, img, r, at, cells, x, y, c);
  }

  lemma FillNone(cells: seq<Pixel>, c: Pixel)
    ensures cells + Fill(c, 0) == cells
  {
  }

  lemma FillNext(cells: seq<Pixel>, c: Pixel, n: nat)
    ensures cells + Fill(c, n) + [c] == cells + Fill(c, n + 1)
  {
    assert Fill(c, n) + [c] == Fill(c, n + 1);
  }

  /** Cell (x, y) is the n-th of the tile in row-major order, or just past its end. */
  ghost predicate AtCell(at: Place, x: nat, y: nat, n: nat) {
    x < at.tw && y <= at.th && n == Pos(at.tw, x, y) && n <= at.Cells() && (y < at.th <==> n < at.Cells())
  }

  lemma AtStart(at: Place)
    requires at.Inside()
    ensures AtCell(at, 0, 0, 0)
  {
    PosNext(at.tw, at.th, 0, 0);
  }

  /** One cell of a run, and the move to the next in row-major order. */
  method PutNext(ghost before: seq<Pixel>, img: seq<Pixel>, at: Place, x0: nat, y0: nat, c: Pixel,
                 ghost cells: seq<Pixel>)
    returns (r: seq<Pixel>, x: nat, y: nat)
    requires at.Inside() && Drawn(before, img, at, cells) && AtCell(at, x0, y0, |cells|) && y0 < at.th
    ensures Drawn(before, r, at, cells + [c]) && AtCell(at, x, y, |cells| + 1)
  {
    hide Drawn, Pos;
    r := PutCell(before, img, at, x0, y0, c, cells);
    PosNext(at.tw, at.th, x0, y0);
    x, y := x0 + 1, y0;
    if x >= at.tw {
      x, y := 0, y + 1;
    }
    PosNext(at.tw, at.th, x, y);
  }

  /** A run of one colour from cell (x0, y0) on, cut at the end of the tile. */
  method PutRun(ghost before: seq<Pixel>, img: seq<Pixel>, at: Place, x0: nat, y0: nat, c: Pixel, run0: nat,
                ghost cells0: seq<Pixel>)
    returns (r: seq<Pixel>, x: nat, y: nat)
    requires at.Inside() && Drawn(before, img, at, cells0) && AtCell(at, x0, y0, |cells0|)
    ensures var cells := cells0 + Fill(c, Min(run0, at.Cells() - |cells0|));
            Drawn(before, r, at, cells) && AtCell(at, x, y, |cells|)
  {
    hide Drawn, Pos, Fill, Place.Cells;
    r, x, y := img, x0, y0;
    ghost var cells := cells0;
    var run := run0;
    ghost var n := 0;
    FillNone(cells0, c);
    while run > 0 && y < at.th
      invariant run + n == run0
      invariant cells == cells0 + Fill(c, n)
      invariant Drawn(before, r, at, cells) && AtCell(at, x, y, |cells|)
    {
      r, x, y := PutNext(before, r, at, x, y, c, cells);
      FillNext(cells0, c, n);
      cells := cells + [c];
      run, n := run - 1, n + 1;
    }
  }

  // ----- the five tile kinds

  method DrawRaw(tr: TileReader, img: seq<Pixel>, at: Place) returns (r: seq<Pixel>)
    requires tr.Valid() && !tr.bad && at.Inside() && |img| == at.w * at.h
    modifies tr
    ensures tr.Valid() && |r| == at.w * at.h
    ensures var t := ParseRaw(tr.b, old(tr.p), at.Cells());
            (tr.bad <==> t.Short?) && (t.Done? ==> tr.p == t.end && Drawn(img, r, at, t.value))
  {
    hide Drawn, At, Pos, ReadPixel;
    ghost var p0 := tr.p;
    r := img;
    ghost var cells: seq<Pixel> := [];
    DrawnNothing(img, at);
    AtStart(at);
    for y := 0 to at.th
      invariant tr.Valid() && Drawn(img, r, at, cells) && AtCell(at, 0, y, |cells|)
      invariant ReadSoFar(tr.b, p0, |cells|, cells, tr.p, tr.bad)
    {
      ghost var row := |cells|;
      for x := 0 to at.tw
        invariant tr.Valid() && Drawn(img, r, at, cells)
        invariant if x < at.tw then AtCell(at, x, y, |cells|) else AtCell(at, 0, y + 1, |cells|)
        invariant ReadSoFar(tr.b, p0, |cells|, cells, tr.p, tr.bad)
      {
        var c := tr.Cpixel();
        var x', y';
        r, x', y' := PutNext(img, r, at, x, y, c, cells);
        AtCellNext(at, x, y, x', y', |cells|);
        cells := cells + [c];
      }
    }
    DrawnSize(img, r, at, cells);
    PixelsCount(tr.b, p0, CPIXEL, at.Cells());
  }

  /** The first n pixels have been read, or one of them was missing. */
  ghost predicate ReadSoFar(b: Bytes, p0: nat, n: nat, cells: seq<Pixel>, p: nat, bad: bool) {
    if bad then ParsePixels(b, p0, CPIXEL, n).Short? else ParsePixels(b, p0, CPIXEL, n) == Done(cells, p)
  }

  lemma DrawnSize(before: seq<Pixel>, after: seq<Pixel>, at: Place, cells: seq<Pixel>)
    requires Drawn(before, after, at, cells)
    ensures |after| == at.w * at.h
  {
  }

  lemma DrawnNothing(img: seq<Pixel>, at: Place)
    requires |img| == at.w * at.h
    ensures Drawn(img, img, at, [])
  {
  }

  lemma AtCellNext(at: Place, x: nat, y: nat, x': nat, y': nat, n: nat)
    requires AtCell(at, x, y, n) && AtCell(at, x', y', n + 1)
    ensures if x + 1 < at.tw then x' == x + 1 && y' == y else x' == 0 && y' == y + 1
  {
    hide Place.Cells;
    PosNext(at.tw, at.th, x, y);
    if x + 1 < at.tw {
      PosInjective(at.tw, x', y', x + 1, y);
    } else {
      PosInjective(at.tw, x', y', 0, y + 1);
    }
  }

  method DrawSolid(tr: TileReader, img: seq<Pixel>, at: Place) returns (r: seq<Pixel>)
    requires tr.Valid() && !tr.bad && at.Inside() && |img| == at.w * at.h
    modifies tr
    ensures tr.Valid() && |r| == at.w * at.h
    ensures tr.bad <==> |tr.b| < old(tr.p) + CPIXEL
    ensures !tr.bad ==> tr.p == old(tr.p) + CPIXEL
    ensures !tr.bad ==> Drawn(img, r, at, Fill(ReadPixel(tr.b, old(tr.p), CPIXEL), at.Cells()))
  {
    hide Drawn, At, Pos, ReadPixel, Place.Cells, Fill;
    var c := tr.Cpixel();
    r := img;
    ghost var cells: seq<Pixel> := [];
    DrawnNothing(img, at);
    AtStart(at);
    FillNone([], c);
    ghost var p, bad := tr.p, tr.bad;
    for y := 0 to at.th
      invariant tr.p == p && tr.bad == bad
      invariant Drawn(img, r, at, cells) && AtCell(at, 0, y, |cells|) && cells == Fill(c, |cells|)
    {
      for x := 0 to at.tw
        invariant tr.p == p && tr.bad == bad
        invariant Drawn(img, r, at, cells) && cells == Fill(c, |cells|)
        invariant if x < at.tw then AtCell(at, x, y, |cells|) else AtCell(at, 0, y + 1, |cells|)
      {
        var x', y';
        r, x', y' := PutNext(img, r, at, x, y, c, cells);
        AtCellNext(at, x, y, x', y', |cells|);
        FillNext([], c, |cells|);
        assert [] + Fill(c, |cells|) + [c] == cells + [c];
        assert [] + Fill(c, |cells| + 1) == Fill(c, |cells| + 1);
        cells := cells + [c];
      }
    }
    DrawnSize(img, r, at, cells);
  }

  method ReadPalette(tr: TileReader, n: nat) returns (pal: seq<Pixel>)
    requires tr.Valid() && !tr.bad
    modifies tr
    ensures tr.Valid() && |pal| == n
    ensures tr.bad <==> ParsePixels(tr.b, old(tr.p), CPIXEL, n).Short?
    ensures !tr.bad ==> ParsePixels(tr.b, old(tr.p), CPIXEL, n) == Done(pal, tr.p)
  {
    hide ReadPixel;
    pal := [];
    for i := 0 to n
      invariant tr.Valid() && |pal| == i
      invariant ReadSoFar(tr.b, old(tr.p), i, pal, tr.p, tr.bad)
    {
      var c := tr.Cpixel();
      pal := pal + [c];
    }
  }

  method DrawPlainRle(tr: TileReader, img: seq<Pixel>, at: Place) returns (r: seq<Pixel>)
    requires tr.Valid() && !tr.bad && at.Inside() && |img| == at.w * at.h
    modifies tr
    ensures tr.Valid() && |r| == at.w * at.h
    ensures var t := ParsePlainRle(tr.b, old(tr.p), at.Cells());
            (tr.bad <==> t.Short?) && (t.Done? ==> tr.p == t.end && Drawn(img, r, at, t.value))
  {
    hide Drawn, At, Pos, ReadPixel, Fill, ParseRun, Place.Cells;
    ghost var total := ParsePlainRle(tr.b, tr.p, at.Cells());
    var x: nat, y: nat := 0, 0;
    r := img;
    ghost var cells: seq<Pixel> := [];
    DrawnNothing(img, at);
    AtStart(at);
    PrependNone(total);
    while y < at.th && !tr.bad
      invariant tr.Valid() && Drawn(img, r, at, cells) && AtCell(at, x, y, |cells|)
      invariant if tr.bad then total.Short?
          else total == Prepend(cells, ParsePlainRle(tr.b, tr.p, at.Cells() - |cells|))
      decreases at.Cells() - |cells|, !tr.bad
    {
      ghost var rest := ParsePlainRle(tr.b, tr.p, at.Cells() - |cells|);
      var c := tr.Cpixel();
      var run := tr.RunLength();
      ghost var n := Min(run, at.Cells() - |cells|);
      ghost var cells0 := cells;
      r, x, y := PutRun(img, r, at, x, y, c, run, cells);
      cells := cells + Fill(c, n);
      if !tr.bad {
        PrependRun(cells0, Fill(c, n), ParsePlainRle(tr.b, tr.p, at.Cells() - |cells|));
      }
    }
    PrependAll(cells, tr.p);
    DrawnSize(img, r, at, cells);
  }

  lemma PrependNone(r: Parsed<seq<Pixel>>)
    ensures Prepend([], r) == r
  {
    if r.Done? {
      assert [] + r.value == r.value;
    }
  }

  lemma PrependRun(px: seq<Pixel>, run: seq<Pixel>, r: Parsed<seq<Pixel>>)
    ensures Prepend(px, Prepend(run, r)) == Prepend(px + run, r)
  {
    if r.Done? {
      assert px + (run + r.value) == (px + run) + r.value;
    }
  }

  lemma PrependAll(px: seq<Pixel>, p: nat)
    ensures Prepend(px, Done([], p)) == Done(px, p)
  {
    assert px + [] == px;
  }

  method DrawPaletteRle(tr: TileReader, img: seq<Pixel>, at: Place, pal: seq<Pixel>) returns (r: seq<Pixel>)
    requires tr.Valid() && !tr.bad && at.Inside() && |img| == at.w * at.h
    modifies tr
    ensures tr.Valid() && |r| == at.w * at.h
    ensures var t := ParsePaletteRle(tr.b, old(tr.p), pal, at.Cells());
            (tr.bad <==> t.Short?) && (t.Done? ==> tr.p == t.end && Drawn(img, r, at, t.value))
  {
    hide Drawn, At, Pos, ReadPixel, Fill, ParsePaletteRun, Place.Cells;
    ghost var total := ParsePaletteRle(tr.b, tr.p, pal, at.Cells());
    var x: nat, y: nat := 0, 0;
    r := img;
    ghost var cells: seq<Pixel> := [];
    DrawnNothing(img, at);
    AtStart(at);
    PrependNone(total);
    while y < at.th && !tr.bad
      invariant tr.Valid() && Drawn(img, r, at, cells) && AtCell(at, x, y, |cells|)
      invariant if tr.bad then total.Short?
                else total == Prepend(cells, ParsePaletteRle(tr.b, tr.p, pal, at.Cells() - |cells|))
      decreases at.Cells() - |cells|, !tr.bad
    {
      var idx, run := ReadPaletteRun(tr);
      var c := if idx < |pal| then pal[idx] else BLACK;
      ghost var n := Min(run, at.Cells() - |cells|);
      ghost var cells0 := cells;
      r, x, y := PutRun(img, r, at, x, y, c, run, cells);
      cells := cells + Fill(c, n);
      if !tr.bad {
        PrependRun(cells0, Fill(c, n), ParsePaletteRle(tr.b, tr.p, pal, at.Cells() - |cells|));
      }
    }
    PrependAll(cells, tr.p);
    DrawnSize(img, r, at, cells);
  }

  method ReadPaletteRun(tr: TileReader) returns (idx: nat, run: nat)
    requires tr.Valid() && !tr.bad
    modifies tr
    ensures tr.Valid() && run >= 1
    ensures tr.bad <==> ParsePaletteRun(tr.b, old(tr.p)).Short?
    ensures !tr.bad ==> ParsePaletteRun(tr.b, old(tr.p)) == Done(PaletteRun(idx, run), tr.p)
  {
    var idxByte := tr.U8();
    idx, run := idxByte % 0x80, 1;
    if idxByte >= 0x80 {
      run := tr.RunLength();
    }
  }

  /** The bits of the current byte that cell x and the cells after it have left. */
  function BitsLeft(bits: nat, x: nat): nat
    requires bits in {1, 2, 4}
  {
    if x % (8 / bits) == 0 then 0 else 8 - bits * (x % (8 / bits))
  }

  lemma BitsNext(bits: nat, x: nat)
    requires bits in {1, 2, 4}
    ensures var bit := if BitsLeft(bits, x) == 0 then 8 else BitsLeft(bits, x);
            bits <= bit && BitsLeft(bits, x + 1) == bit - bits == 8 - bits - bits * (x % (8 / bits))
    ensures BitsLeft(bits, x) == 0 <==> x % (8 / bits) == 0
    ensures BitsLeft(bits, x + 1) != 0 ==> (x + 1) / (8 / bits) == x / (8 / bits)
  {
    ModNext(x, 8 / bits);
    PerByte(bits, x % (8 / bits));
  }

  lemma PerByte(bits: nat, m: nat)
    requires bits in {1, 2, 4} && m < 8 / bits
    ensures bits * m + bits <= 8 && bits * (m + 1) == bits * m + bits
    ensures m + 1 == 8 / bits <==> bits * m + bits == 8
  {
    if bits == 1 {
    } else if bits == 2 {
    } else {
      assert bits == 4;
    }
  }

  lemma ModNext(x: nat, s: nat)
    requires s > 0
    ensures x % s + 1 < s ==> (x + 1) % s == x % s + 1 && (x + 1) / s == x / s
    ensures x % s + 1 == s ==> (x + 1) % s == 0
  {
    assert x == s * (x / s) + x % s;
    assert s * (x / s + 1) == s * (x / s) + s;
    if x % s + 1 < s {
      Quotient(s, x / s, x + 1);
    } else {
      assert s * (x / s + 2) == s * (x / s) + 2 * s;
      Quotient(s, x / s + 1, x + 1);
    }
  }

  lemma {:induction false} PackedShort(b: Bytes, p: nat, pal: seq<Pixel>, bits: nat, k: nat, n: nat)
    requires bits in {1, 2, 4} && k <= n && ParsePackedRow(b, p, pal, bits, k).Short?
    ensures ParsePackedRow(b, p, pal, bits, n).Short?
  {
    hide PackedIndex, Steps, Power, Lookup;
    if k < n {
      PackedShort(b, p, pal, bits, k, n - 1);
    }
  }

  /** Before cell x of a packed row: the unused bits of the byte `cur` read last. */
  ghost predicate PackedState(b: Bytes, p0: nat, bits: nat, x: nat, bit: nat, cur: byte, p: nat)
    requires bits in {1, 2, 4}
  {
    p == p0 + Steps(x, 8 / bits) &&
    (bit != 0 ==> p0 + x / (8 / bits) < |b| && cur == b[p0 + x / (8 / bits)])
  }

  /** The index of cell x: a byte is loaded whenever the bits of the last are used up. */
  method ReadIndex(tr: TileReader, ghost p0: nat, ghost x: nat, bits: nat, bit0: nat, cur0: byte)
    returns (idx: nat, bit: nat, cur: byte)
    requires tr.Valid() && bits in {1, 2, 4} && bit0 == BitsLeft(bits, x)
    requires !tr.bad ==> PackedState(tr.b, p0, bits, x, bit0, cur0, tr.p)
    modifies tr
    ensures tr.Valid() && bit == BitsLeft(bits, x + 1) && (old(tr.bad) ==> tr.bad)
    ensures !old(tr.bad) ==> (tr.bad <==> |tr.b| < p0 + Steps(x + 1, 8 / bits))
    ensures !tr.bad ==> PackedState(tr.b, p0, bits, x + 1, bit, cur, tr.p)
    ensures !tr.bad ==> p0 + x / (8 / bits) < |tr.b| && idx == PackedIndex(tr.b, p0, bits, x)
  {
    hide BitsLeft, Power, Steps, Shifted;
    BitsNext(bits, x);
    StepsIndex(x + 1, 8 / bits);
    bit, cur := bit0, cur0;
    if bit == 0 {
      cur := tr.U8();
      bit := 8;
    }
    bit := bit - bits;
    idx := Shifted(cur, bit) % Power(bits);
  }

  method DrawPackedRow(tr: TileReader, ghost before: seq<Pixel>, img: seq<Pixel>, at: Place, y: nat,
                       pal: seq<Pixel>, bits: nat, ghost cells0: seq<Pixel>)
    returns (r: seq<Pixel>, ghost cells: seq<Pixel>)
    requires tr.Valid() && !tr.bad && at.Inside() && Drawn(before, img, at, cells0)
    requires bits in {1, 2, 4} && y < at.th && AtCell(at, 0, y, |cells0|)
    modifies tr
    ensures tr.Valid() && Drawn(before, r, at, cells) && AtCell(at, 0, y + 1, |cells|)
    ensures var t := ParsePackedRow(tr.b, old(tr.p), pal, bits, at.tw);
            (tr.bad <==> t.Short?) && (t.Done? ==> tr.p == t.end && cells == cells0 + t.value)
  {
    hide Drawn, At, Pos, Place.Cells, BitsLeft, PackedIndex, Steps;
    ghost var p0 := tr.p;
    r, cells := img, cells0;
    ghost var row: seq<Pixel> := [];
    var bit: nat, cur: byte := 0, 0;
    PackedStart(tr.b, bits, tr.p);
    for x := 0 to at.tw
      invariant tr.Valid() && Drawn(before, r, at, cells)
      invariant if x < at.tw then AtCell(at, x, y, |cells|) else AtCell(at, 0, y + 1, |cells|)
      invariant cells == cells0 + row && bit == BitsLeft(bits, x)
      invariant !tr.bad ==> PackedState(tr.b, p0, bits, x, bit, cur, tr.p)
      invariant if tr.bad then ParsePackedRow(tr.b, p0, pal, bits, at.tw).Short?
                else ParsePackedRow(tr.b, p0, pal, bits, x) == Done(row, tr.p)
    {
      ghost var bad := tr.bad;
      var idx;
      idx, bit, cur := ReadIndex(tr, p0, x, bits, bit, cur);
      if !bad && tr.bad {
        PackedShort(tr.b, p0, pal, bits, x + 1, at.tw);
      }
      var c := if idx < |pal| then pal[idx] else BLACK;
      var x', y';
      r, x', y' := PutNext(before, r, at, x, y, c, cells);
      AtCellNext(at, x, y, x', y', |cells|);
      cells, row := cells + [c], row + [c];
    }
  }

  lemma PackedStart(b: Bytes, bits: nat, p: nat)
    requires bits in {1, 2, 4}
    ensures BitsLeft(bits, 0) == 0 && PackedState(b, p, bits, 0, 0, 0, p)
  {
    BitsNext(bits, 0);
  }

  lemma {:induction false} PackedTileShort(b: Bytes, p: nat, pal: seq<Pixel>, bits: nat, tw: nat, k: nat, n: nat)
    requires bits in {1, 2, 4} && k <= n && ParsePacked(b, p, pal, bits, tw, k).Short?
    ensures ParsePacked(b, p, pal, bits, tw, n).Short?
  {
    if k < n {
      PackedTileShort(b, p, pal, bits, tw, k, n - 1);
    }
  }

  method DrawPacked(tr: TileReader, img: seq<Pixel>, at: Place, pal: seq<Pixel>, bits: nat) returns (r: seq<Pixel>)
    requires tr.Valid() && !tr.bad && at.Inside() && |img| == at.w * at.h && bits in {1, 2, 4}
    modifies tr
    ensures tr.Valid() && |r| == at.w * at.h
    ensures var t := ParsePacked(tr.b, old(tr.p), pal, bits, at.tw, at.th);
            (tr.bad <==> t.Short?) && (t.Done? ==> tr.p == t.end && Drawn(img, r, at, t.value))
  {
    hide Drawn, At, Pos, Place.Cells, ParsePackedRow;
    ghost var p0 := tr.p;
    r := img;
    ghost var cells: seq<Pixel> := [];
    DrawnNothing(img, at);
    AtStart(at);
    var y := 0;
    while y < at.th && !tr.bad
      invariant y <= at.th && tr.Valid() && Drawn(img, r, at, cells) && AtCell(at, 0, y, |cells|)
      invariant if tr.bad then ParsePacked(tr.b, p0, pal, bits, at.tw, at.th).Short?
                else ParsePacked(tr.b, p0, pal, bits, at.tw, y) == Done(cells, tr.p)
    {
      r, cells := DrawPackedRow(tr, img, r, at, y, pal, bits, cells);
      y := y + 1;
      if tr.bad {
        PackedTileShort(tr.b, p0, pal, bits, at.tw, y, at.th);
      }
    }
    DrawnSize(img, r, at, cells);
  }

  // ----- the rectangle

  method DrawTile(tr: TileReader, img: seq<Pixel>, at: Place) returns (r: seq<Pixel>)
    requires tr.Valid() && !tr.bad && at.Inside() && |img| == at.w * at.h
    modifies tr
    ensures tr.Valid() && |r| == at.w * at.h
    ensures var t := ParseTile(tr.b, old(tr.p), at.tw, at.th);
            (tr.bad <==> t.Short?) &&
            (t.Done? ==> tr.p == t.end && TilePainted(img, r, at.w, at.h, at.tx, at.ty, at.tw, at.th, t.value))
  {
    hide Drawn, TilePainted, At, Pos, ReadPixel, ParsePixels, ParsePacked, ParsePlainRle, ParsePaletteRle, ParseRaw,
        Fill;
    ghost var t := ParseTile(tr.b, tr.p, at.tw, at.th);
    var sub := tr.U8();
    if tr.bad {
      return img;
    }
    r := img;
    if sub == 0 {
      r := DrawRaw(tr, img, at);
    } else if sub == 1 {
      r := DrawSolid(tr, img, at);
    } else if 2 <= sub <= 16 {
      var pal := ReadPalette(tr, sub);
      if !tr.bad {
        MulCommutes(at.tw, at.th);
        r := DrawPacked(tr, img, at, pal, IndexBits(|pal|));
      }
    } else if sub == 128 {
      r := DrawPlainRle(tr, img, at);
    } else if sub >= 130 {
      var pal := ReadPalette(tr, sub - 128);
      if !tr.bad {
        r := DrawPaletteRle(tr, img, at, pal);
      }
    } else {
      tr.bad := true;
    }
    if !tr.bad {
      DrawnIsTile(img, r, at, t.value);
    }
  }

  lemma {:induction false} RowShort(b: Bytes, p: nat, w: nat, th: nat, k: nat, n: nat)
    requires k <= n && ParseRow(b, p, w, th, k).Short?
    ensures ParseRow(b, p, w, th, n).Short?
  {
    if k < n {
      RowShort(b, p, w, th, k, n - 1);
    }
  }

  lemma {:induction false} GridShort(b: Bytes, p: nat, w: nat, h: nat, k: nat, n: nat)
    requires k <= n && ParseGrid(b, p, w, h, k).Short?
    ensures ParseGrid(b, p, w, h, n).Short?
  {
    if k < n {
      GridShort(b, p, w, h, k, n - 1);
    }
  }

  method DrawBand(tr: TileReader, img: seq<Pixel>, w: nat, h: nat, ty: nat, th: nat, ghost rows: Tiles)
    returns (r: seq<Pixel>)
    requires tr.Valid() && !tr.bad && |img| == w * h && BandsPainted(img, w, h, 64, ty, rows)
    requires th > 0 && ty + th <= h
    modifies tr
    ensures tr.Valid() && |r| == w * h
    ensures var row := ParseRow(tr.b, old(tr.p), w, th, Steps(w, 64));
            (tr.bad <==> row.Short?) &&
            (row.Done? ==> tr.p == row.end && BandsPainted(r, w, h, 64, ty, rows) &&
                           BandPainted(r, w, h, 64, w, ty, th, row.value))
  {
    hide TilePainted, BandsPainted, ParseTile, At;
    ghost var p0 := tr.p;
    r := img;
    ghost var tiles: seq<seq<Pixel>> := [];
    var tx := 0;
    while tx < w && !tr.bad
      invariant tr.Valid() && |r| == w * h
      invariant tx == 64 * |tiles| && |tiles| <= Steps(w, 64)
      invariant tr.bad ==> ParseRow(tr.b, p0, w, th, Steps(w, 64)).Short?
      invariant !tr.bad ==> ParseRow(tr.b, p0, w, th, |tiles|) == Done(tiles, tr.p)
      invariant !tr.bad ==> BandsPainted(r, w, h, 64, ty, rows)
      invariant !tr.bad ==> BandPainted(r, w, h, 64, Min(w, tx), ty, th, tiles)
      decreases w - tx, !tr.bad
    {
      var tw := Min(64, w - tx);
      ghost var t := ParseTile(tr.b, tr.p, tw, th);
      ghost var before := r;
      r := DrawTile(tr, r, Place(w, h, tx, ty, tw, th));
      if tr.bad {
        RowShort(tr.b, p0, w, th, |tiles| + 1, Steps(w, 64));
        return;
      }
      TileDone(before, r, w, h, 64, ty, th, rows, tiles, t.value);
      tiles := tiles + [t.value];
      tx := tx + 64;
    }
  }

  /** Decode a rectangle's inflated tiles. */
  method DecodeTiles(tiles: Bytes, w: nat, h: nat) returns (pixels: seq<Pixel>)
    ensures pixels == TilePixelsOf(tiles, w, h)
  {
    hide BandPainted, ParseRow, At;
    pixels := seq(w * h, _ => BLACK);
    var tr := new TileReader(tiles);
    ghost var rows: Tiles := [];
    var ty := 0;
    while ty < h && !tr.bad
      invariant tr.Valid() && |pixels| == w * h && fresh(tr) && tr.b == tiles
      invariant ty == 64 * |rows| && |rows| <= Steps(h, 64)
      invariant tr.bad ==> ParseGrid(tiles, 0, w, h, Steps(h, 64)).Short?
      invariant !tr.bad ==> ParseGrid(tiles, 0, w, h, |rows|) == Done(rows, tr.p)
      invariant !tr.bad ==> BandsPainted(pixels, w, h, 64, ty, rows)
      decreases h - ty, !tr.bad
    {
      var th := Min(64, h - ty);
      ghost var row := ParseRow(tiles, tr.p, w, th, Steps(w, 64));
      pixels := DrawBand(tr, pixels, w, h, ty, th, rows);
      if tr.bad {
        GridShort(tiles, 0, w, h, |rows| + 1, Steps(h, 64));
      } else {
        RowDone(pixels, w, h, 64, rows, row.value);
        rows := rows + [row.value];
        ty := ty + 64;
      }
    }
    if tr.bad {
      return [];
    }
    MosaicImageAt(rows, 64, w, h);
    SameImage(pixels, MosaicImage(rows, 64, w, h), w, h);
  }
}
