/** What the RFB decoders share: rectangles, decoded rectangles, server pixels and
    subrectangles. */
module RfbPixels {
  import opened Wire
  import opened Canvas

  /** Bytes per server pixel. */
  type Width = n: nat | n >= 1 witness 1

  datatype Rectangle = Rectangle(x: nat, y: nat, width: nat, height: nat, encoding: int)

  datatype RectData = RectData(complete: bool, consumed: nat, pixels: seq<Pixel>,
                               isCopy: bool, srcX: nat, srcY: nat)

  const ENC_RAW := 0
  const ENC_COPY_RECT := 1
  const ENC_RRE := 2
  const ENC_HEXTILE := 5
  const ENC_ZRLE := 16

  /** A rectangle whose payload has not fully arrived. */
  const WAITING := RectData(false, 0, [], false, 0, 0)

  function Painted(consumed: nat, pixels: seq<Pixel>): RectData {
    RectData(true, consumed, pixels, false, 0, 0)
  }

  function Argb(red: byte, green: byte, blue: byte): Pixel {
    0xFF00_0000 + red as int * 0x1_0000 + green as int * 0x100 + blue as int
  }

  /** One little-endian server pixel; the bytes a narrow format lacks read as 0. */
  function ReadPixel(b: Bytes, off: nat, bpp: Width): Pixel
    requires off + bpp <= |b|
  {
    Argb(if bpp > 2 then b[off + 2] else 0, if bpp > 1 then b[off + 1] else 0, b[off])
  }

  function Blue(c: Pixel): byte { c % 0x100 }

  function Green(c: Pixel): byte { (c / 0x100) % 0x100 }

  function Red(c: Pixel): byte { (c / 0x1_0000) % 0x100 }

  function Channel(c: Pixel, i: int): byte {
    if i == 0 then Blue(c) else if i == 1 then Green(c) else if i == 2 then Red(c) else 0
  }

  /** The pixels a server format of `bpp` bytes can carry: fully opaque, and with
      no bits in the channels the format lacks. */
  predicate Carries(bpp: Width, c: Pixel) {
    c >= BLACK && (bpp <= 2 ==> Red(c) == 0) && (bpp <= 1 ==> Green(c) == 0)
  }

  /** A server pixel as RFC 6143 section 7.4 sends it, padded to `bpp` bytes. */
  function WritePixel(c: Pixel, bpp: Width): (r: Bytes)
    ensures |r| == bpp
  {
    seq(bpp, i => Channel(c, i))
  }

  lemma ArgbChannels(c: Pixel)
    requires c >= BLACK
    ensures Argb(Red(c), Green(c), Blue(c)) == c
  {
    var q := c / 0x100;
    assert c == q * 0x100 + c % 0x100;
    assert q == (q / 0x100) * 0x100 + q % 0x100;
    assert c / 0x1_0000 == q / 0x100;
    assert 0xFF00 <= q / 0x100 < 0x1_0000;
  }

  lemma ReadWritePixel(b: Bytes, off: nat, bpp: Width, c: Pixel)
    requires Carries(bpp, c) && Has(b, off, WritePixel(c, bpp))
    ensures ReadPixel(b, off, bpp) == c
  {
    var e := WritePixel(c, bpp);
    ArgbChannels(c);
    assert b[off] == e[0];
    if bpp > 1 {
      assert b[off + 1] == e[1];
    }
    if bpp > 2 {
      assert b[off + 2] == e[2];
    }
  }

  lemma ReadPixelSame(b: Bytes, b': Bytes, q: nat, off: nat, bpp: Width)
    requires off + bpp <= q && SameUpTo(b, b', q)
    ensures ReadPixel(b, off, bpp) == ReadPixel(b', off, bpp)
  {
  }

  // ----- runs of pixels

  /** The n pixels from p on. */
  function ParsePixels(buf: Bytes, p: nat, bpp: Width, n: nat): (r: Parsed<seq<Pixel>>)
    ensures r.Done? ==> p <= r.end && (p <= |buf| ==> r.end <= |buf|)
  {
    if n == 0 then Done([], p)
    else match ParsePixels(buf, p, bpp, n - 1)
      case Short => Short
      case Done(px, q) =>
        if |buf| < q + bpp then Short else Done(px + [ReadPixel(buf, q, bpp)], q + bpp)
  }

  lemma {:induction false} PixelsLocal(b: Bytes, b': Bytes, p: nat, bpp: Width, n: nat)
    requires ParsePixels(b, p, bpp, n).Done?
    requires SameUpTo(b, b', ParsePixels(b, p, bpp, n).end)
    ensures ParsePixels(b', p, bpp, n) == ParsePixels(b, p, bpp, n)
  {
    if n > 0 {
      PixelsLocal(b, b', p, bpp, n - 1);
    }
  }

  /** The k-th pixel of `px` is the k-th server pixel from p on. */
  ghost predicate PixelStands(buf: Bytes, p: nat, bpp: Width, px: seq<Pixel>, k: nat) {
    k < |px| && p + k * bpp + bpp <= |buf| && ReadPixel(buf, p + k * bpp, bpp) == px[k]
  }

  lemma {:induction false} PixelsStand(buf: Bytes, p: nat, bpp: Width, n: nat)
    ensures p <= |buf| ==> (ParsePixels(buf, p, bpp, n).Done? <==> p + n * bpp <= |buf|)
    ensures ParsePixels(buf, p, bpp, n).Done? ==>
              var r := ParsePixels(buf, p, bpp, n);
              r.end == p + n * bpp && |r.value| == n && forall k | 0 <= k < n :: PixelStands(buf, p, bpp, r.value, k)
  {
    if n > 0 {
      PixelsStand(buf, p, bpp, n - 1);
      assert n * bpp == (n - 1) * bpp + bpp;
      var r, before := ParsePixels(buf, p, bpp, n), ParsePixels(buf, p, bpp, n - 1);
      if r.Done? {
        forall k | 0 <= k < n
          ensures PixelStands(buf, p, bpp, r.value, k)
        {
          if k < n - 1 {
            assert PixelStands(buf, p, bpp, before.value, k);
          }
        }
      }
    }
  }

  ghost predicate AllCarried(px: seq<Pixel>, bpp: Width) {
    forall i | 0 <= i < |px| :: Carries(bpp, px[i])
  }

  function EncodePixels(px: seq<Pixel>, bpp: Width): Bytes {
    if px == [] then [] else EncodePixels(px[..|px| - 1], bpp) + WritePixel(px[|px| - 1], bpp)
  }

  lemma {:induction false} PixelsRoundTrip(b: Bytes, p: nat, bpp: Width, px: seq<Pixel>)
    requires AllCarried(px, bpp) && Has(b, p, EncodePixels(px, bpp))
    ensures ParsePixels(b, p, bpp, |px|) == Done(px, p + |EncodePixels(px, bpp)|)
  {
    if px != [] {
      var n := |px| - 1;
      var before := EncodePixels(px[..n], bpp);
      HasSplit(b, p, before, WritePixel(px[n], bpp));
      PixelsRoundTrip(b, p, bpp, px[..n]);
      ReadWritePixel(b, p + |before|, bpp, px[n]);
      assert px == px[..n] + [px[n]];
    }
  }

  // ----- subrectangles

  datatype Sub = Sub(x: nat, y: nat, w: nat, h: nat, c: Pixel)

  /** The colour subrectangles leave at a cell: the last one that
      covers the cell wins, and the background shows where none does. */
  function Shade(subs: seq<Sub>, bg: Pixel, x: nat, y: nat): Pixel {
    if subs == [] then bg
    else
      var s := subs[|subs| - 1];
      if InBox(x, y, s.x, s.y, s.w, s.h) then s.c else Shade(subs[..|subs| - 1], bg, x, y)
  }

  /** Subrectangles painted in order over a background. */
  function ShadeImage(subs: seq<Sub>, bg: Pixel, w: nat, h: nat): (r: seq<Pixel>)
    ensures |r| == w * h
  {
    seq(w * h, k requires 0 <= k < w * h => PosOf(w, h, k); Shade(subs, bg, k % w, k / w))
  }

  predicate Covers(s: Sub, x: nat, y: nat) {
    s.x <= x < s.x + s.w && s.y <= y < s.y + s.h
  }

  ghost predicate LastCovering(subs: seq<Sub>, i: nat, x: nat, y: nat) {
    i < |subs| && Covers(subs[i], x, y) && forall j | i < j < |subs| :: !Covers(subs[j], x, y)
  }

  /** A cell shows the last subrectangle that covers it, and the background where none does. */
  lemma {:induction false} ShadeIs(subs: seq<Sub>, bg: Pixel, x: nat, y: nat)
    ensures (forall i | 0 <= i < |subs| :: !Covers(subs[i], x, y)) ==> Shade(subs, bg, x, y) == bg
    ensures forall i | 0 <= i < |subs| && LastCovering(subs, i, x, y) :: Shade(subs, bg, x, y) == subs[i].c
  {
    if subs != [] {
      var n := |subs| - 1;
      var before := subs[..n];
      ShadeIs(before, bg, x, y);
      assert Covers(subs[n], x, y) <==> InBox(x, y, subs[n].x, subs[n].y, subs[n].w, subs[n].h);
      forall i | 0 <= i < |subs| && LastCovering(subs, i, x, y)
        ensures Shade(subs, bg, x, y) == subs[i].c
      {
        if i < n {
          assert LastCovering(before, i, x, y);
        }
      }
    }
  }

  ghost predicate Shaded(img: seq<Pixel>, w: nat, h: nat, subs: seq<Sub>, bg: Pixel) {
    forall x, y | 0 <= x < w && 0 <= y < h :: At(img, w, x, y) == Shade(subs, bg, x, y)
  }

  lemma ShadeImageAt(subs: seq<Sub>, bg: Pixel, w: nat, h: nat)
    ensures Shaded(ShadeImage(subs, bg, w, h), w, h, subs, bg)
  {
    hide Shade, Pos;
    forall x, y | 0 <= x < w && 0 <= y < h
      ensures At(ShadeImage(subs, bg, w, h), w, x, y) == Shade(subs, bg, x, y)
    {
      PosInverse(w, h, x, y);
    }
  }

  lemma ShadedIsShadeImage(img: seq<Pixel>, w: nat, h: nat, subs: seq<Sub>, bg: Pixel)
    requires |img| == w * h && Shaded(img, w, h, subs, bg)
    ensures img == ShadeImage(subs, bg, w, h)
  {
    hide Shade, At;
    ShadeImageAt(subs, bg, w, h);
    SameImage(img, ShadeImage(subs, bg, w, h), w, h);
  }
}
