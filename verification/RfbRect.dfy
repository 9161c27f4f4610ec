/** One rectangle's payload: Raw, CopyRect, RRE (sections 7.7.1 to 7.7.3 of
    RFC 6143) and the dispatch over encodings. */
module RfbRect {
  import opened Wire
  import opened Basics
  import opened Canvas
  import opened RfbPixels
  import Hextile

  // ----- RRE

  function ParseRreSub(b: Bytes, p: nat, bpp: Width): (r: Parsed<Sub>) {
    if |b| < p + bpp + 8 then Short
    else
      var q := p + bpp;
      Done(Sub(U16(b, q), U16(b, q + 2), U16(b, q + 4), U16(b, q + 6), ReadPixel(b, p, bpp)), q + 8)
  }

  function ParseRreSubs(b: Bytes, p: nat, bpp: Width, n: nat): (r: Parsed<seq<Sub>>)
    ensures r.Done? ==> p <= r.end && (p <= |b| ==> r.end <= |b|)
  {
    if n == 0 then Done([], p)
    else match ParseRreSubs(b, p, bpp, n - 1)
      case Short => Short
      case Done(subs, q) =>
        match ParseRreSub(b, q, bpp)
        case Short => Short
        case Done(s, q') => Done(subs + [s], q')
  }

  function DecodedRre(w: nat, h: nat, buf: Bytes, off: nat, bpp: Width): RectData {
    if |buf| < off + 4 + bpp then WAITING
    else match ParseRreSubs(buf, off + 4 + bpp, bpp, U32(buf, off))
      case Short => WAITING
      case Done(subs, q) => Painted(q - off, ShadeImage(subs, ReadPixel(buf, off + 4, bpp), w, h))
  }

  lemma ShadeOver(before: seq<Pixel>, after: seq<Pixel>, w: nat, h: nat, subs: seq<Sub>, bg: Pixel, s: Sub)
    requires Shaded(before, w, h, subs, bg)
    requires forall x, y | 0 <= x < w && 0 <= y < h ::
               At(after, w, x, y) == if InBox(x, y, s.x, s.y, s.w, s.h) then s.c else At(before, w, x, y)
    ensures Shaded(after, w, h, subs + [s], bg)
  {
    assert (subs + [s])[..|subs|] == subs;
  }

  lemma PlainImageAt(w: nat, h: nat, c: Pixel)
    ensures Shaded(seq(w * h, _ => c), w, h, [], c)
  {
    var img := seq(w * h, _ => c);
    forall x, y | 0 <= x < w && 0 <= y < h
      ensures At(img, w, x, y) == c
    {
      PosInside(w, h, x, y);
    }
  }

  lemma {:induction false} RreLength(b: Bytes, p: nat, bpp: Width, n: nat)
    requires p <= |b|
    ensures ParseRreSubs(b, p, bpp, n).Done? <==> p + n * (bpp + 8) <= |b|
    ensures ParseRreSubs(b, p, bpp, n).Done? ==> ParseRreSubs(b, p, bpp, n).end == p + n * (bpp + 8)
  {
    if n > 0 {
      RreLength(b, p, bpp, n - 1);
      assert n * (bpp + 8) == (n - 1) * (bpp + 8) + (bpp + 8);
    }
  }

  lemma {:induction false} RreShort(b: Bytes, p: nat, bpp: Width, k: nat, n: nat)
    requires k <= n && ParseRreSubs(b, p, bpp, k).Short?
    ensures ParseRreSubs(b, p, bpp, n).Short?
  {
    if k < n {
      RreShort(b, p, bpp, k, n - 1);
    }
  }

  lemma {:induction false} RreLocal(b: Bytes, b': Bytes, p: nat, bpp: Width, n: nat)
    requires ParseRreSubs(b, p, bpp, n).Done?
    requires SameUpTo(b, b', ParseRreSubs(b, p, bpp, n).end)
    ensures ParseRreSubs(b', p, bpp, n) == ParseRreSubs(b, p, bpp, n)
  {
    if n > 0 {
      var before := ParseRreSubs(b, p, bpp, n - 1);
      RreLocal(b, b', p, bpp, n - 1);
      ReadPixelSame(b, b', before.end + bpp, before.end, bpp);
    }
  }

  method DecodeRre(w: nat, h: nat, buf: Bytes, off: nat, bpp: Width) returns (out: RectData)
    ensures out == DecodedRre(w, h, buf, off, bpp)
  {
    hide Shaded, At, Pos, Shade, InBox, ReadPixel, U16;
    if |buf| < off + 4 + bpp {
      return WAITING;
    }
    var nsub := U32(buf, off);
    var subSize := bpp + 8;
    var need := 4 + bpp + nsub * subSize;
    ghost var start := off + 4 + bpp;
    RreLength(buf, start, bpp, nsub);
    if |buf| < off + need {
      return WAITING;
    }
    var bg := ReadPixel(buf, off + 4, bpp);
    var pixels := seq(w * h, _ => bg);
    PlainImageAt(w, h, bg);
    var p: nat := off + 4 + bpp;
    ghost var subs: seq<Sub> := [];
    for s := 0 to nsub
      invariant |pixels| == w * h
      invariant ParseRreSubs(buf, start, bpp, s) == Done(subs, p)
      invariant Shaded(pixels, w, h, subs, bg)
    {
      ghost var next := ParseRreSub(buf, p, bpp);
      if next.Short? {
        RreShort(buf, start, bpp, s + 1, nsub);
      }
      var color := ReadPixel(buf, p, bpp);
      var sx, sy := U16(buf, p + bpp), U16(buf, p + bpp + 2);
      var sw, sh := U16(buf, p + bpp + 4), U16(buf, p + bpp + 6);
      ghost var before := pixels;
      pixels := FillBox(pixels, w, h, sx, sy, sw, sh, color);
      ShadeOver(before, pixels, w, h, subs, bg, next.value);
      subs, p := subs + [next.value], p + subSize;
    }
    ShadedIsShadeImage(pixels, w, h, subs, bg);
    out := Painted(need, pixels);
  }

  // ----- Raw and CopyRect

  /** Three bytes of every pixel are read whatever its width: that stays inside the pixel
      data exactly when there is no pixel or the pixels are wide enough. */
  lemma RawReadsInside(bpp: Width, count: nat)
    ensures (forall i: nat | i < count :: Inside(i, bpp, count)) <==> count == 0 || bpp >= 3
  {
    if count > 0 {
      var last := count - 1;
      assert count * bpp == last * bpp + bpp;
      assert Inside(last, bpp, count) <==> bpp >= 3;
      forall i: nat | i < count && bpp >= 3
        ensures Inside(i, bpp, count)
      {
        MulMono(i, last, bpp);
      }
    }
  }

  predicate Inside(i: nat, bpp: Width, count: nat) {
    i * bpp + 2 < count * bpp
  }

  /** No read of the Raw loop leaves the pixel data, or there is none to make. */
  predicate RawStaysInside(w: nat, h: nat, buf: Bytes, off: nat, bpp: Width) {
    bpp >= 3 || w * h == 0 || |buf| < off + w * h * bpp
  }

  function DecodedRaw(w: nat, h: nat, buf: Bytes, off: nat, bpp: Width): RectData
    requires RawStaysInside(w, h, buf, off, bpp)
  {
    if |buf| < off then WAITING
    else match ParsePixels(buf, off, bpp, w * h)
      case Short => WAITING
      case Done(px, q) => Painted(q - off, px)
  }

  method DecodeRaw(w: nat, h: nat, buf: Bytes, off: nat, bpp: Width) returns (out: RectData)
    requires RawStaysInside(w, h, buf, off, bpp)
    ensures out == DecodedRaw(w, h, buf, off, bpp)
  {
    hide ParsePixels, Argb;
    var count := w * h;
    var need := count * bpp;
    if off <= |buf| {
      PixelsStand(buf, off, bpp, count);
    }
    if |buf| < off + need {
      return WAITING;
    }
    ghost var px := ParsePixels(buf, off, bpp, count).value;
    var pixelData := buf[off..off + need];
    var pixels: seq<Pixel> := [];
    for i := 0 to count
      invariant pixels == px[..i]
    {
      hide ParsePixels, PixelStands;
      RawPixel(buf, off, bpp, count, px, i);
      var o := i * bpp;
      pixels := pixels + [Argb(pixelData[o + 2], pixelData[o + 1], pixelData[o])];
    }
    out := Painted(need, pixels);
  }

  lemma RawPixel(buf: Bytes, off: nat, bpp: Width, count: nat, px: seq<Pixel>, i: nat)
    requires bpp >= 3 && i < count && off + count * bpp <= |buf| && PixelStands(buf, off, bpp, px, i)
    ensures i * bpp + 3 <= count * bpp
    ensures var o := off + i * bpp; Argb(buf[o + 2], buf[o + 1], buf[o]) == px[i]
  {
    MulMono(i + 1, count, bpp);
    assert (i + 1) * bpp == i * bpp + bpp;
  }

  function DecodedCopy(buf: Bytes, off: nat): RectData {
    if |buf| < off + 4 then WAITING else RectData(true, 4, [], true, U16(buf, off), U16(buf, off + 2))
  }

  // ----- all encodings

  function Decoded(r: Rectangle, buf: Bytes, off: nat, bpp: Width): (d: RectData)
    requires r.encoding == ENC_RAW ==> RawStaysInside(r.width, r.height, buf, off, bpp)
    ensures d.complete || d == WAITING
  {
    if r.encoding == ENC_RAW then DecodedRaw(r.width, r.height, buf, off, bpp)
    else if r.encoding == ENC_COPY_RECT then DecodedCopy(buf, off)
    else if r.encoding == ENC_RRE then DecodedRre(r.width, r.height, buf, off, bpp)
    else if r.encoding == ENC_HEXTILE then Hextile.Decoded(r.width, r.height, buf, off, bpp)
    else WAITING
  }

  method DecodeRect(r: Rectangle, buf: Bytes, off: nat, bpp: Width) returns (out: RectData)
    requires r.encoding == ENC_RAW ==> RawStaysInside(r.width, r.height, buf, off, bpp)
    ensures out.complete <==> Decoded(r, buf, off, bpp).complete
    ensures out.complete ==> out == Decoded(r, buf, off, bpp)
    ensures !out.complete ==> out.consumed == 0
    ensures r.encoding !in {0, 1, 2, 5} ==> !out.complete
  {
    if r.encoding == ENC_RAW {
      out := DecodeRaw(r.width, r.height, buf, off, bpp);
    } else if r.encoding == ENC_COPY_RECT {
      if |buf| < off + 4 {
        return WAITING;
      }
      out := RectData(true, 4, [], true, U16(buf, off), U16(buf, off + 2));
    } else if r.encoding == ENC_RRE {
      out := DecodeRre(r.width, r.height, buf, off, bpp);
    } else if r.encoding == ENC_HEXTILE {
      out := Hextile.Decode(r.width, r.height, buf, off, bpp);
    } else {
      out := WAITING;
    }
  }

  /** No Raw read of the rectangle can leave the pixel data, whatever the buffer. */
  predicate RawWideEnough(r: Rectangle, bpp: Width) {
    r.encoding == ENC_RAW ==> bpp >= 3 || r.width * r.height == 0
  }

  /** An empty Hextile rectangle has no tile, so it is done even past the buffer's end. */
  predicate EmptyHextile(r: Rectangle) {
    r.encoding == ENC_HEXTILE && (r.width == 0 || r.height == 0)
  }

  /** What a completed decode says depends only on the bytes it consumed. */
  lemma DecodedLocal(r: Rectangle, b: Bytes, b': Bytes, off: nat, bpp: Width)
    requires RawWideEnough(r, bpp) && Decoded(r, b, off, bpp).complete
    requires SameUpTo(b, b', off + Decoded(r, b, off, bpp).consumed)
    ensures Decoded(r, b', off, bpp) == Decoded(r, b, off, bpp)
  {
    hide Has, ParsePixels, ParseRreSubs, Hextile.ParseGrid, ReadPixel;
    var w, h := r.width, r.height;
    if r.encoding == ENC_RAW {
      PixelsLocal(b, b', off, bpp, w * h);
    } else if r.encoding == ENC_RRE {
      ReadPixelSame(b, b', off + 4 + bpp, off + 4, bpp);
      RreLocal(b, b', off + 4 + bpp, bpp, U32(b, off));
    } else if r.encoding == ENC_HEXTILE {
      Hextile.GridLocal(b, b', off, bpp, w, h, Steps(h, 16));
    }
  }

  /** The bytes a completed decode consumed are in the buffer. */
  lemma ConsumedInside(r: Rectangle, b: Bytes, off: nat, bpp: Width)
    requires RawWideEnough(r, bpp) && Decoded(r, b, off, bpp).complete
    ensures off + Decoded(r, b, off, bpp).consumed <= |b| || EmptyHextile(r)
  {
    hide Hextile.ParseGrid, ParsePixels;
    if r.encoding == ENC_RAW {
      PixelsStand(b, off, bpp, r.width * r.height);
    } else if r.encoding == ENC_HEXTILE && |b| <= off && !EmptyHextile(r) {
      Hextile.FirstTileShort(b, off, bpp, r.width, r.height);
    }
  }

  /** An empty Hextile rectangle is done at once on every buffer. */
  lemma EmptyHextileDone(r: Rectangle, b: Bytes, off: nat, bpp: Width)
    requires EmptyHextile(r)
    ensures Decoded(r, b, off, bpp) == Painted(0, [])
  {
    Hextile.EmptyDone(r.width, r.height, b, off, bpp);
  }

  /** Streaming is exact: a completed decode is the same on every extension of the
      buffer, still complete on every truncation that keeps the bytes consumed, and
      waiting on every truncation that does not; save that an empty Hextile rectangle
      waits for nothing. */
  lemma PrefixExact(r: Rectangle, b: Bytes, off: nat, bpp: Width, ext: Bytes, k: nat)
    requires RawWideEnough(r, bpp) && Decoded(r, b, off, bpp).complete && k <= |b|
    ensures off + Decoded(r, b, off, bpp).consumed <= |b| || EmptyHextile(r)
    ensures Decoded(r, b + ext, off, bpp) == Decoded(r, b, off, bpp)
    ensures Decoded(r, b[..k], off, bpp) ==
            if off + Decoded(r, b, off, bpp).consumed <= k || EmptyHextile(r) then Decoded(r, b, off, bpp) else WAITING
  {
    hide DecodedRaw, DecodedCopy, DecodedRre, Hextile.Decoded, EmptyHextile;
    var d := Decoded(r, b, off, bpp);
    if EmptyHextile(r) {
      EmptyHextileDone(r, b, off, bpp);
      EmptyHextileDone(r, b + ext, off, bpp);
      EmptyHextileDone(r, b[..k], off, bpp);
    } else {
      ConsumedInside(r, b, off, bpp);
      DecodedLocal(r, b, b + ext, off, bpp);
      if off + d.consumed <= k {
        DecodedLocal(r, b, b[..k], off, bpp);
      } else if Decoded(r, b[..k], off, bpp).complete {
        ConsumedInside(r, b[..k], off, bpp);
        DecodedLocal(r, b[..k], b, off, bpp);
      }
    }
  }

  // ----- reference encoders, from sections 7.7.1 and 7.7.3 of RFC 6143

  function EncodeRreSub(s: Sub, bpp: Width): Bytes {
    WritePixel(s.c, bpp) + (Be16(s.x) + (Be16(s.y) + (Be16(s.w) + Be16(s.h))))
  }

  function EncodeRreSubs(subs: seq<Sub>, bpp: Width): Bytes {
    if subs == [] then [] else EncodeRreSubs(subs[..|subs| - 1], bpp) + EncodeRreSub(subs[|subs| - 1], bpp)
  }

  function EncodeRre(bg: Pixel, subs: seq<Sub>, bpp: Width): Bytes {
    Be32(|subs|) + (WritePixel(bg, bpp) + EncodeRreSubs(subs, bpp))
  }

  predicate LegalRreSub(s: Sub, bpp: Width) {
    s.x < 0x1_0000 && s.y < 0x1_0000 && s.w < 0x1_0000 && s.h < 0x1_0000 && Carries(bpp, s.c)
  }

  ghost predicate LegalRreSubs(subs: seq<Sub>, bpp: Width) {
    forall i | 0 <= i < |subs| :: LegalRreSub(subs[i], bpp)
  }

  lemma RreSubRoundTrip(b: Bytes, p: nat, bpp: Width, s: Sub)
    requires LegalRreSub(s, bpp) && Has(b, p, EncodeRreSub(s, bpp))
    ensures ParseRreSub(b, p, bpp) == Done(s, p + |EncodeRreSub(s, bpp)|)
  {
    hide Has, WritePixel, ReadPixel, Carries, U16, Be16;
    var q := p + bpp;
    HasSplit(b, p, WritePixel(s.c, bpp), Be16(s.x) + (Be16(s.y) + (Be16(s.w) + Be16(s.h))));
    HasSplit(b, q, Be16(s.x), Be16(s.y) + (Be16(s.w) + Be16(s.h)));
    HasSplit(b, q + 2, Be16(s.y), Be16(s.w) + Be16(s.h));
    HasSplit(b, q + 4, Be16(s.w), Be16(s.h));
    HasInside(b, q + 6, Be16(s.h));
    ReadWritePixel(b, p, bpp, s.c);
    U16Be16(b, q, s.x);
    U16Be16(b, q + 2, s.y);
    U16Be16(b, q + 4, s.w);
    U16Be16(b, q + 6, s.h);
  }

  lemma {:induction false} RreSubsRoundTrip(b: Bytes, p: nat, bpp: Width, subs: seq<Sub>)
    requires LegalRreSubs(subs, bpp) && Has(b, p, EncodeRreSubs(subs, bpp))
    ensures ParseRreSubs(b, p, bpp, |subs|) == Done(subs, p + |EncodeRreSubs(subs, bpp)|)
  {
    hide Has, ParseRreSub, EncodeRreSub, LegalRreSub;
    if subs != [] {
      var n := |subs| - 1;
      var before := EncodeRreSubs(subs[..n], bpp);
      HasSplit(b, p, before, EncodeRreSub(subs[n], bpp));
      RreSubsRoundTrip(b, p, bpp, subs[..n]);
      RreSubRoundTrip(b, p + |before|, bpp, subs[n]);
      assert subs == subs[..n] + [subs[n]];
    }
  }

  /** Decoding an RRE encoding paints its subrectangles in order over its background. */
  lemma DecodeEncodeRre(pre: Bytes, post: Bytes, w: nat, h: nat, bpp: Width, bg: Pixel, subs: seq<Sub>)
    requires Carries(bpp, bg) && LegalRreSubs(subs, bpp) && |subs| < 0x1_0000_0000
    ensures DecodedRre(w, h, pre + EncodeRre(bg, subs, bpp) + post, |pre|, bpp) ==
            Painted(|EncodeRre(bg, subs, bpp)|, ShadeImage(subs, bg, w, h))
  {
    hide Has, WritePixel, ReadPixel, Carries, U32, Be32, ParseRreSubs, EncodeRreSubs, ShadeImage, LegalRreSubs;
    var e, p := EncodeRre(bg, subs, bpp), |pre|;
    var b := pre + e + post;
    HasWhole(pre, e, post);
    HasSplit(b, p, Be32(|subs|), WritePixel(bg, bpp) + EncodeRreSubs(subs, bpp));
    HasSplit(b, p + 4, WritePixel(bg, bpp), EncodeRreSubs(subs, bpp));
    HasInside(b, p + 4, WritePixel(bg, bpp));
    U32Be32(b, p, |subs|);
    ReadWritePixel(b, p + 4, bpp, bg);
    RreSubsRoundTrip(b, p + 4 + bpp, bpp, subs);
  }

  /** Decoding a Raw encoding gives back the image. */
  lemma DecodeEncodeRaw(pre: Bytes, post: Bytes, w: nat, h: nat, bpp: Width, img: seq<Pixel>)
    requires |img| == w * h && AllCarried(img, bpp) && (bpp >= 3 || img == [])
    ensures DecodedRaw(w, h, pre + EncodePixels(img, bpp) + post, |pre|, bpp) == Painted(|EncodePixels(img, bpp)|, img)
  {
    HasWhole(pre, EncodePixels(img, bpp), post);
    PixelsRoundTrip(pre + EncodePixels(img, bpp) + post, |pre|, bpp, img);
  }

  /** A CopyRect payload (section 7.7.2 of RFC 6143): where the pixels are copied from. */
  function EncodeCopy(srcX: nat, srcY: nat): Bytes {
    Be16(srcX) + Be16(srcY)
  }

  /** The source position comes back, x before y, and no pixels. */
  lemma DecodeEncodeCopy(pre: Bytes, post: Bytes, srcX: nat, srcY: nat)
    requires srcX < 0x1_0000 && srcY < 0x1_0000
    ensures DecodedCopy(pre + EncodeCopy(srcX, srcY) + post, |pre|) == RectData(true, 4, [], true, srcX, srcY)
  {
    hide Has, U16, Be16;
    var b := pre + EncodeCopy(srcX, srcY) + post;
    HasWhole(pre, EncodeCopy(srcX, srcY), post);
    HasSplit(b, |pre|, Be16(srcX), Be16(srcY));
    U16Be16(b, |pre|, srcX);
    U16Be16(b, |pre| + 2, srcY);
  }

  /** The colour the Raw loop makes of the three bytes it reads for the i-th pixel. */
  function RawRead(data: Bytes, bpp: Width, i: nat): Pixel {
    if i * bpp + 2 < |data| then Argb(data[i * bpp + 2], data[i * bpp + 1], data[i * bpp]) else BLACK
  }

  /** The loop gives the i-th pixel of an encoded image back, when it reads inside it. */
  ghost predicate ReadsBack(img: seq<Pixel>, bpp: Width, i: nat) {
    AllCarried(img, bpp) && i < |img| && Inside(i, bpp, |img|) ==> RawRead(EncodePixels(img, bpp), bpp, i) == img[i]
  }

  /** The loop reads every pixel of every encoded image back exactly when a pixel has at
      least three bytes. */
  lemma RawInvertsExactly(bpp: Width)
    ensures (forall img: seq<Pixel>, i: nat :: ReadsBack(img, bpp, i)) <==> bpp >= 3
  {
    if bpp >= 3 {
      forall img: seq<Pixel>, i: nat
        ensures ReadsBack(img, bpp, i)
      {
        if AllCarried(img, bpp) && i < |img| {
          RawReadsBack(img, bpp, i);
        }
      }
    } else if bpp == 2 {
      NarrowRawTwo();
      assert !ReadsBack([0xFF00_0102, 0xFF00_0304], bpp, 0) by { hide EncodePixels, RawRead; }
    } else {
      NarrowRawOne();
      assert !ReadsBack([0xFF00_0001, 0xFF00_0002, 0xFF00_0003], bpp, 0) by { hide EncodePixels, RawRead; }
    }
  }

  lemma RawReadsBack(img: seq<Pixel>, bpp: Width, i: nat)
    requires bpp >= 3 && AllCarried(img, bpp) && i < |img|
    ensures RawRead(EncodePixels(img, bpp), bpp, i) == img[i]
  {
    hide ParsePixels, EncodePixels, Argb, AllCarried;
    var data := EncodePixels(img, bpp);
    HasWhole([], data, []);
    assert [] + data + [] == data;
    PixelsRoundTrip(data, 0, bpp, img);
    PixelsStand(data, 0, bpp, |img|);
    assert PixelStands(data, 0, bpp, img, i);
    RawPixel(data, 0, bpp, |img|, img, i);
  }

  /** At two bytes a pixel the first of two pixels takes its red from the second. */
  lemma NarrowRawTwo()
    ensures var img := [0xFF00_0102, 0xFF00_0304];
            && AllCarried(img, 2) && Inside(0, 2, 2)
            && EncodePixels(img, 2) == [2, 1, 4, 3] && RawRead(EncodePixels(img, 2), 2, 0) == 0xFF04_0102
  {
    hide EncodePixels;
    var img: seq<Pixel> := [0xFF00_0102, 0xFF00_0304];
    EncodeOne(img[0], 2);
    EncodeSnoc([img[0]], img[1], 2);
    assert [img[0]] + [img[1]] == img;
    assert WritePixel(img[0], 2) == [2, 1] && WritePixel(img[1], 2) == [4, 3];
  }

  /** At one byte a pixel the first of three pixels takes its colours from all three. */
  lemma NarrowRawOne()
    ensures var img := [0xFF00_0001, 0xFF00_0002, 0xFF00_0003];
            && AllCarried(img, 1) && Inside(0, 1, 3)
            && EncodePixels(img, 1) == [1, 2, 3] && RawRead(EncodePixels(img, 1), 1, 0) == 0xFF03_0201
  {
    hide EncodePixels;
    var img: seq<Pixel> := [0xFF00_0001, 0xFF00_0002, 0xFF00_0003];
    EncodeOne(img[0], 1);
    EncodeSnoc([img[0]], img[1], 1);
    EncodeSnoc([img[0], img[1]], img[2], 1);
    assert [img[0]] + [img[1]] == [img[0], img[1]] && [img[0], img[1]] + [img[2]] == img;
    assert WritePixel(img[0], 1) == [1] && WritePixel(img[1], 1) == [2] && WritePixel(img[2], 1) == [3];
  }

  lemma EncodeOne(c: Pixel, bpp: Width)
    ensures EncodePixels([c], bpp) == WritePixel(c, bpp)
  {
    EncodeSnoc([], c, bpp);
    assert [] + [c] == [c];
  }

  lemma EncodeSnoc(px: seq<Pixel>, c: Pixel, bpp: Width)
    ensures EncodePixels(px + [c], bpp) == EncodePixels(px, bpp) + WritePixel(c, bpp)
  {
    assert (px + [c])[..|px|] == px;
  }
}
