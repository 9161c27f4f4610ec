/** A reference Hextile encoder, written from section 7.7.4 of RFC 6143, and the
    proof that the decoder inverts it for every choice of tile encodings. */
module HextileEncoder {
  import opened Wire
  import opened Canvas
  import opened RfbPixels
  import opened Mosaic
  import opened Hextile

  /** How one tile is sent. `bg`/`fg` are the colours in force for the tile; the
      flags say whether they are sent or carried over from the tile before. `spare` is what
      stands in the bits of the subencoding that say nothing: all others of a raw tile, and
      the upper three of any. */
  datatype TileCode =
    | CodeRaw(px: seq<Pixel>, spare: nat)
    | CodeFill(bg: Pixel, sendBg: bool, fg: Pixel, sendFg: bool, any: bool, coloured: bool, subs: seq<Sub>, spare: nat)

  /** The pixels a code gives a tw x th tile. */
  function TileCells(code: TileCode, tw: nat, th: nat): seq<Pixel> {
    match code
    case CodeRaw(px, _) => px
    case CodeFill(bg, _, _, _, _, _, subs, _) => ShadeImage(subs, bg, tw, th)
  }

  function CarryAfter(code: TileCode, carry: Carry): Carry {
    match code
    case CodeRaw(_, _) => carry
    case CodeFill(bg, _, fg, _, _, _, _, _) => Carry(bg, fg)
  }

  predicate LegalSub(s: Sub, bpp: Width, coloured: bool, fg: Pixel) {
    s.x < 16 && s.y < 16 && 1 <= s.w <= 16 && 1 <= s.h <= 16 &&
    if coloured then Carries(bpp, s.c) else s.c == fg
  }

  ghost predicate LegalSubs(subs: seq<Sub>, bpp: Width, coloured: bool, fg: Pixel) {
    forall i | 0 <= i < |subs| :: LegalSub(subs[i], bpp, coloured, fg)
  }

  ghost predicate LegalTile(code: TileCode, tw: nat, th: nat, bpp: Width, carry: Carry) {
    match code
    case CodeRaw(px, _) => |px| == tw * th && AllCarried(px, bpp)
    case CodeFill(bg, sendBg, fg, sendFg, any, coloured, subs, _) =>
      (if sendBg then Carries(bpp, bg) else bg == carry.bg) &&
      (if sendFg then Carries(bpp, fg) else fg == carry.fg) &&
      (any || subs == []) && |subs| < 256 &&
      LegalSubs(subs, bpp, coloured, fg)
  }

  // ----- the encoder

  function Bit(b: bool, value: nat): nat { if b then value else 0 }

  function EncodeColour(c: Pixel, bpp: Width, send: bool): Bytes {
    if send then WritePixel(c, bpp) else []
  }

  function Low(v: int): byte { v % 0x100 }

  function EncodeSub(s: Sub, bpp: Width, coloured: bool): Bytes {
    EncodeColour(s.c, bpp, coloured) + [Low(s.x * 16 + s.y), Low((s.w - 1) * 16 + (s.h - 1))]
  }

  function EncodeSubs(subs: seq<Sub>, bpp: Width, coloured: bool): Bytes {
    if subs == [] then []
    else EncodeSubs(subs[..|subs| - 1], bpp, coloured) + EncodeSub(subs[|subs| - 1], bpp, coloured)
  }

  function FillFlags(sendBg: bool, sendFg: bool, any: bool, coloured: bool): (r: nat)
    ensures r < 32
  {
    Bit(sendBg, 2) + Bit(sendFg, 4) + Bit(any, 8) + Bit(coloured, 16)
  }

  function Flags(code: TileCode): byte {
    match code
    case CodeRaw(_, spare) => Low(1 + 2 * spare)
    case CodeFill(_, sendBg, _, sendFg, any, coloured, _, spare) =>
      Low(FillFlags(sendBg, sendFg, any, coloured) + 32 * spare)
  }

  function EncodeTile(code: TileCode, bpp: Width): Bytes {
    match code
    case CodeRaw(px, _) => [Flags(code)] + EncodePixels(px, bpp)
    case CodeFill(bg, sendBg, _, _, _, _, _, _) =>
      [Flags(code)] + (EncodeColour(bg, bpp, sendBg) + EncodeFill(code, bpp))
  }

  /** A filled tile from its foreground colour on. */
  function EncodeFill(code: TileCode, bpp: Width): Bytes
    requires code.CodeFill?
  {
    EncodeColour(code.fg, bpp, code.sendFg) + EncodeCount(code, bpp)
  }

  function EncodeCount(code: TileCode, bpp: Width): Bytes
    requires code.CodeFill?
  {
    if code.any then [Low(|code.subs|)] + EncodeSubs(code.subs, bpp, code.coloured) else []
  }

  function EncodeRow(codes: seq<TileCode>, bpp: Width): Bytes {
    if codes == [] then [] else EncodeRow(codes[..|codes| - 1], bpp) + EncodeTile(codes[|codes| - 1], bpp)
  }

  function EncodeGrid(codes: seq<seq<TileCode>>, bpp: Width): Bytes {
    if codes == [] then [] else EncodeGrid(codes[..|codes| - 1], bpp) + EncodeRow(codes[|codes| - 1], bpp)
  }

  function RowTiles(codes: seq<TileCode>, w: nat, th: nat): (r: seq<seq<Pixel>>)
    ensures |r| == |codes|
  {
    seq(|codes|, i requires 0 <= i < |codes| => TileCells(codes[i], Span(w, 16, i), th))
  }

  function GridTiles(codes: seq<seq<TileCode>>, w: nat, h: nat): (r: Tiles)
    ensures |r| == |codes|
  {
    seq(|codes|, i requires 0 <= i < |codes| => RowTiles(codes[i], w, Span(h, 16, i)))
  }

  function RowCarry(codes: seq<TileCode>, carry: Carry): Carry {
    if codes == [] then carry else CarryAfter(codes[|codes| - 1], RowCarry(codes[..|codes| - 1], carry))
  }

  function GridCarry(codes: seq<seq<TileCode>>): Carry {
    if codes == [] then START else RowCarry(codes[|codes| - 1], GridCarry(codes[..|codes| - 1]))
  }

  /** The codes of a row of tiles th high, left to right. */
  ghost predicate LegalRow(codes: seq<TileCode>, w: nat, th: nat, bpp: Width, carry: Carry) {
    codes != [] ==>
      var n := |codes| - 1;
      LegalRow(codes[..n], w, th, bpp, carry) &&
      LegalTile(codes[n], Span(w, 16, n), th, bpp, RowCarry(codes[..n], carry))
  }

  ghost predicate LegalGrid(codes: seq<seq<TileCode>>, w: nat, h: nat, bpp: Width) {
    codes != [] ==>
      var n := |codes| - 1;
      LegalGrid(codes[..n], w, h, bpp) && |codes[n]| == Steps(w, 16) &&
      LegalRow(codes[n], w, Span(h, 16, n), bpp, GridCarry(codes[..n]))
  }

  // ----- decoding what was encoded

  lemma ColourRoundTrip(b: Bytes, p: nat, bpp: Width, c: Pixel, send: bool, carried: Pixel)
    requires Has(b, p, EncodeColour(c, bpp, send))
    requires if send then Carries(bpp, c) else c == carried
    ensures ParseColour(b, p, bpp, send, carried) == Done(c, p + |EncodeColour(c, bpp, send)|)
  {
    if send {
      ReadWritePixel(b, p, bpp, c);
    }
  }

  lemma Nibbles(hi: nat, lo: nat)
    requires hi < 16 && lo < 16
    ensures Low(hi * 16 + lo) / 16 == hi && Low(hi * 16 + lo) % 16 == lo
  {
  }

  lemma SubRoundTrip(b: Bytes, p: nat, bpp: Width, s: Sub, coloured: bool, fg: Pixel)
    requires LegalSub(s, bpp, coloured, fg) && Has(b, p, EncodeSub(s, bpp, coloured))
    ensures ParseSub(b, p, bpp, coloured, fg) == Done(s, p + |EncodeSub(s, bpp, coloured)|)
  {
    hide Has, ReadPixel, WritePixel, Carries, EncodeColour, ParseColour, Low;
    var colour := EncodeColour(s.c, bpp, coloured);
    var xy, wh := Low(s.x * 16 + s.y), Low((s.w - 1) * 16 + (s.h - 1));
    HasSplit(b, p, colour, [xy, wh]);
    ColourRoundTrip(b, p, bpp, s.c, coloured, fg);
    assert [xy, wh] == [xy] + [wh] && [wh] == [wh] + [];
    HasFirst(b, p + |colour|, xy, [wh]);
    HasFirst(b, p + |colour| + 1, wh, []);
    Nibbles(s.x, s.y);
    Nibbles(s.w - 1, s.h - 1);
  }

  lemma SubsSnoc(b: Bytes, p: nat, bpp: Width, subs: seq<Sub>, q: nat, s: Sub, q': nat, coloured: bool, fg: Pixel)
    requires ParseSubs(b, p, bpp, |subs|, coloured, fg) == Done(subs, q)
    requires ParseSub(b, q, bpp, coloured, fg) == Done(s, q')
    ensures ParseSubs(b, p, bpp, |subs| + 1, coloured, fg) == Done(subs + [s], q')
  {
    hide ParseSub;
  }

  lemma {:induction false} SubsRoundTrip(b: Bytes, p: nat, bpp: Width, subs: seq<Sub>, coloured: bool, fg: Pixel)
    requires LegalSubs(subs, bpp, coloured, fg)
    requires Has(b, p, EncodeSubs(subs, bpp, coloured))
    ensures ParseSubs(b, p, bpp, |subs|, coloured, fg) == Done(subs, p + |EncodeSubs(subs, bpp, coloured)|)
  {
    hide Has, EncodeSub, LegalSub, ParseSub;
    if subs != [] {
      var n := |subs| - 1;
      var before, last := EncodeSubs(subs[..n], bpp, coloured), EncodeSub(subs[n], bpp, coloured);
      HasSplit(b, p, before, last);
      SubsRoundTrip(b, p, bpp, subs[..n], coloured, fg);
      SubRoundTrip(b, p + |before|, bpp, subs[n], coloured, fg);
      SubsSnoc(b, p, bpp, subs[..n], p + |before|, subs[n], p + |before| + |last|, coloured, fg);
      assert subs == subs[..n] + [subs[n]];
    }
  }

  lemma FlagsRead(code: TileCode)
    ensures Flag(Flags(code), 1) == code.CodeRaw?
    ensures code.CodeFill? ==>
              Flag(Flags(code), 2) == code.sendBg && Flag(Flags(code), 4) == code.sendFg &&
              Flag(Flags(code), 8) == code.any && Flag(Flags(code), 16) == code.coloured
  {
    hide Flag, Low;
    match code
    case CodeRaw(_, spare) =>
      OddFlag(spare);
    case CodeFill(_, sendBg, _, sendFg, any, coloured, _, spare) =>
      var low := FillFlags(sendBg, sendFg, any, coloured);
      FillFlagsRead(sendBg, sendFg, any, coloured);
      SpareBits(low, spare);
      FlagsBelow(low, spare % 8);
  }

  lemma FillFlagsRead(sendBg: bool, sendFg: bool, any: bool, coloured: bool)
    ensures var low := FillFlags(sendBg, sendFg, any, coloured);
            && !Flag(low, 1) && Flag(low, 2) == sendBg && Flag(low, 4) == sendFg
            && Flag(low, 8) == any && Flag(low, 16) == coloured
  {
  }

  lemma OddFlag(spare: nat)
    ensures Flag(Low(1 + 2 * spare), 1)
  {
    var q := spare / 128;
    assert 1 + 2 * spare == 256 * q + (1 + 2 * (spare % 128));
    Modulo(q, 1 + 2 * (spare % 128));
  }

  /** The low five flags of a subencoding, whatever stands above them. */
  lemma FlagsBelow(low: nat, high: nat)
    requires low < 32 && high < 8
    ensures Flag(low + 32 * high, 1) == Flag(low, 1) && Flag(low + 32 * high, 2) == Flag(low, 2)
    ensures Flag(low + 32 * high, 4) == Flag(low, 4) && Flag(low + 32 * high, 8) == Flag(low, 8)
    ensures Flag(low + 32 * high, 16) == Flag(low, 16)
  {
    var v := low + 32 * high;
    assert v / 2 == low / 2 + 16 * high;
    assert v / 4 == low / 4 + 8 * high;
    assert v / 8 == low / 8 + 4 * high;
    assert v / 16 == low / 16 + 2 * high;
    EvenMore(low, 16 * high);
    EvenMore(low / 2, 8 * high);
    EvenMore(low / 4, 4 * high);
    EvenMore(low / 8, 2 * high);
    EvenMore(low / 16, high);
  }

  lemma EvenMore(x: nat, k: nat)
    ensures (x + 2 * k) % 2 == x % 2
  {
  }

  /** What stands above the low five bits does not change them. */
  lemma SpareBits(low: nat, spare: nat)
    requires low < 32
    ensures Low(low + 32 * spare) == low + 32 * (spare % 8)
  {
    var q := spare / 8;
    assert low + 32 * spare == 256 * q + (low + 32 * (spare % 8));
    Modulo(q, low + 32 * (spare % 8));
  }

  lemma Modulo(q: nat, r: nat)
    requires r < 256
    ensures (256 * q + r) % 256 == r
  {
  }

  lemma FillRoundTrip(b: Bytes, p: nat, bpp: Width, code: TileCode, carry: Carry, tw: nat, th: nat)
    requires code.CodeFill? && LegalTile(code, tw, th, bpp, carry)
    requires Has(b, p, EncodeFill(code, bpp))
    ensures ParseFill(b, p, bpp, Flags(code), tw, th, code.bg, carry.fg) ==
            Done(OneTile(TileCells(code, tw, th), CarryAfter(code, carry)), p + |EncodeFill(code, bpp)|)
  {
    hide Has, ParseSubs, EncodeSubs, ParseColour, EncodeColour, Flag, Flags, ReadPixel, Carries, LegalSubs;
    var fg := EncodeColour(code.fg, bpp, code.sendFg);
    FlagsRead(code);
    HasSplit(b, p, fg, EncodeCount(code, bpp));
    ColourRoundTrip(b, p, bpp, code.fg, code.sendFg, carry.fg);
    if code.any {
      var q := p + |fg|;
      HasFirst(b, q, Low(|code.subs|), EncodeSubs(code.subs, bpp, code.coloured));
      SubsRoundTrip(b, q + 1, bpp, code.subs, code.coloured, code.fg);
    }
  }

  lemma TileRoundTrip(b: Bytes, p: nat, bpp: Width, code: TileCode, carry: Carry, tw: nat, th: nat)
    requires LegalTile(code, tw, th, bpp, carry) && Has(b, p, EncodeTile(code, bpp))
    ensures ParseTile(b, p, bpp, tw, th, carry) ==
            Done(OneTile(TileCells(code, tw, th), CarryAfter(code, carry)), p + |EncodeTile(code, bpp)|)
  {
    hide Has, ParsePixels, EncodePixels, ParseColour, EncodeColour, ParseFill, EncodeFill, LegalSubs, Carries,
         Flags, Flag, ShadeImage;
    var body := if code.CodeRaw? then EncodePixels(code.px, bpp)
                else EncodeColour(code.bg, bpp, code.sendBg) + EncodeFill(code, bpp);
    HasFirst(b, p, Flags(code), body);
    FlagsRead(code);
    if code.CodeRaw? {
      PixelsRoundTrip(b, p + 1, bpp, code.px);
    } else {
      var bg := EncodeColour(code.bg, bpp, code.sendBg);
      HasSplit(b, p + 1, bg, EncodeFill(code, bpp));
      ColourRoundTrip(b, p + 1, bpp, code.bg, code.sendBg, carry.bg);
      FillRoundTrip(b, p + 1 + |bg|, bpp, code, carry, tw, th);
    }
  }

  lemma {:induction false} RowRoundTrip(b: Bytes, p: nat, bpp: Width, codes: seq<TileCode>, w: nat, th: nat,
                                        carry: Carry)
    requires LegalRow(codes, w, th, bpp, carry) && Has(b, p, EncodeRow(codes, bpp))
    ensures ParseRow(b, p, bpp, w, th, |codes|, carry) ==
            Done(TileRow(RowTiles(codes, w, th), RowCarry(codes, carry)), p + |EncodeRow(codes, bpp)|)
  {
    hide Has, ParseTile, EncodeTile, LegalTile;
    if codes == [] {
      assert RowTiles(codes, w, th) == [];
    } else {
      var n := |codes| - 1;
      var before := EncodeRow(codes[..n], bpp);
      HasSplit(b, p, before, EncodeTile(codes[n], bpp));
      RowRoundTrip(b, p, bpp, codes[..n], w, th, carry);
      TileRoundTrip(b, p + |before|, bpp, codes[n], RowCarry(codes[..n], carry), Span(w, 16, n), th);
      assert RowTiles(codes, w, th) == RowTiles(codes[..n], w, th) + [TileCells(codes[n], Span(w, 16, n), th)];
    }
  }

  lemma {:induction false} GridRoundTrip(b: Bytes, p: nat, bpp: Width, codes: seq<seq<TileCode>>, w: nat, h: nat)
    requires LegalGrid(codes, w, h, bpp) && Has(b, p, EncodeGrid(codes, bpp))
    ensures ParseGrid(b, p, bpp, w, h, |codes|) ==
            Done(TileGrid(GridTiles(codes, w, h), GridCarry(codes)), p + |EncodeGrid(codes, bpp)|)
  {
    hide Has, ParseRow, EncodeRow, LegalRow;
    if codes == [] {
      assert GridTiles(codes, w, h) == [];
    } else {
      var n := |codes| - 1;
      var before := EncodeGrid(codes[..n], bpp);
      HasSplit(b, p, before, EncodeRow(codes[n], bpp));
      GridRoundTrip(b, p, bpp, codes[..n], w, h);
      RowRoundTrip(b, p + |before|, bpp, codes[n], w, Span(h, 16, n), GridCarry(codes[..n]));
      assert GridTiles(codes, w, h) == GridTiles(codes[..n], w, h) + [RowTiles(codes[n], w, Span(h, 16, n))];
    }
  }

  /** The codes describe the image: each cell's colour is what its tile's code says. */
  ghost predicate Depicts(codes: seq<seq<TileCode>>, img: seq<Pixel>, w: nat, h: nat) {
    |img| == w * h && |codes| == Steps(h, 16) &&
    forall x, y | 0 <= x < w && 0 <= y < h :: MosaicAt(GridTiles(codes, w, h), 16, w, x, y) == At(img, w, x, y)
  }

  /** Decoding inverts encoding, wherever the payload stands in the buffer. */
  lemma DecodeEncode(pre: Bytes, post: Bytes, bpp: Width, codes: seq<seq<TileCode>>, img: seq<Pixel>, w: nat, h: nat)
    requires LegalGrid(codes, w, h, bpp) && Depicts(codes, img, w, h)
    ensures Decoded(w, h, pre + EncodeGrid(codes, bpp) + post, |pre|, bpp) == Painted(|EncodeGrid(codes, bpp)|, img)
  {
    var e := EncodeGrid(codes, bpp);
    HasWhole(pre, e, post);
    GridRoundTrip(pre + e + post, |pre|, bpp, codes, w, h);
    MosaicImageAt(GridTiles(codes, w, h), 16, w, h);
    SameImage(MosaicImage(GridTiles(codes, w, h), 16, w, h), img, w, h);
  }

  // ----- an encoding exists for every opaque image

  function RawCode(img: seq<Pixel>, w: nat, h: nat, col: nat, row: nat): TileCode {
    CodeRaw(TilePixels(img, w, 16 * col, 16 * row, Span(w, 16, col), Span(h, 16, row)), 0)
  }

  function RawRow(img: seq<Pixel>, w: nat, h: nat, n: nat, row: nat): (r: seq<TileCode>)
    ensures |r| == n
  {
    seq(n, col requires 0 <= col < n => RawCode(img, w, h, col, row))
  }

  function RawGrid(img: seq<Pixel>, w: nat, h: nat, n: nat): (r: seq<seq<TileCode>>)
    ensures |r| == n
  {
    seq(n, row requires 0 <= row < n => RawRow(img, w, h, Steps(w, 16), row))
  }

  lemma AtCarried(img: seq<Pixel>, w: nat, x: nat, y: nat, bpp: Width)
    requires AllCarried(img, bpp)
    ensures Carries(bpp, At(img, w, x, y))
  {
  }

  lemma TileCarried(img: seq<Pixel>, w: nat, x0: nat, y0: nat, tw: nat, th: nat, bpp: Width)
    requires AllCarried(img, bpp)
    ensures AllCarried(TilePixels(img, w, x0, y0, tw, th), bpp)
  {
    hide At, TilePixels, Carries;
    var px := TilePixels(img, w, x0, y0, tw, th);
    forall i | 0 <= i < |px|
      ensures Carries(bpp, px[i])
    {
      var x, y := TilePixelIs(img, w, x0, y0, tw, th, i);
      AtCarried(img, w, x, y, bpp);
    }
  }

  lemma {:induction false} RawRowLegal(img: seq<Pixel>, w: nat, h: nat, bpp: Width, n: nat, row: nat, carry: Carry)
    requires AllCarried(img, bpp)
    ensures LegalRow(RawRow(img, w, h, n, row), w, Span(h, 16, row), bpp, carry)
  {
    if n > 0 {
      RawRowLegal(img, w, h, bpp, n - 1, row, carry);
      TileCarried(img, w, 16 * (n - 1), 16 * row, Span(w, 16, n - 1), Span(h, 16, row), bpp);
      assert RawRow(img, w, h, n, row)[..n - 1] == RawRow(img, w, h, n - 1, row);
    }
  }

  lemma {:induction false} RawGridLegal(img: seq<Pixel>, w: nat, h: nat, bpp: Width, n: nat)
    requires AllCarried(img, bpp)
    ensures LegalGrid(RawGrid(img, w, h, n), w, h, bpp)
  {
    if n > 0 {
      var codes := RawGrid(img, w, h, n);
      RawGridLegal(img, w, h, bpp, n - 1);
      assert codes[..n - 1] == RawGrid(img, w, h, n - 1);
      RawRowLegal(img, w, h, bpp, Steps(w, 16), n - 1, GridCarry(codes[..n - 1]));
    }
  }

  lemma RawGridDepicts(img: seq<Pixel>, w: nat, h: nat)
    requires |img| == w * h
    ensures Depicts(RawGrid(img, w, h, Steps(h, 16)), img, w, h)
  {
    var codes := RawGrid(img, w, h, Steps(h, 16));
    forall x, y | 0 <= x < w && 0 <= y < h
      ensures MosaicAt(GridTiles(codes, w, h), 16, w, x, y) == At(img, w, x, y)
    {
      var col, row := x / 16, y / 16;
      assert codes[row][col] == RawCode(img, w, h, col, row);
      TilePixelsAt(img, w, 16 * col, 16 * row, Span(w, 16, col), Span(h, 16, row), x % 16, y % 16);
    }
  }

  /** Every image of carried colours has an encoding, and it decodes to the image. */
  lemma EveryImageHasAnEncoding(pre: Bytes, post: Bytes, bpp: Width, img: seq<Pixel>, w: nat, h: nat)
    returns (codes: seq<seq<TileCode>>)
    requires |img| == w * h && AllCarried(img, bpp)
    ensures LegalGrid(codes, w, h, bpp) && Depicts(codes, img, w, h)
    ensures Decoded(w, h, pre + EncodeGrid(codes, bpp) + post, |pre|, bpp) == Painted(|EncodeGrid(codes, bpp)|, img)
  {
    codes := RawGrid(img, w, h, Steps(h, 16));
    RawGridLegal(img, w, h, bpp, Steps(h, 16));
    RawGridDepicts(img, w, h);
    DecodeEncode(pre, post, bpp, codes, img, w, h);
  }

  // ----- the colours in force at the start

  /** A first tile that sends no colour is black, and its subrectangles are white. */
  lemma FirstTile(w: nat, h: nat, bpp: Width)
    requires 1 <= w <= 16 && 1 <= h <= 16
    ensures Decoded(w, h, [8, 1, 0, 0], 0, bpp) ==
            Painted(4, ShadeImage([Sub(0, 0, 1, 1, 0xFFFF_FFFF)], 0xFF00_0000, w, h))
  {
    hide Decoded, ShadeImage, At;
    var subs := [Sub(0, 0, 1, 1, 0xFFFF_FFFF)];
    var code := CodeFill(0xFF00_0000, false, 0xFFFF_FFFF, false, true, false, subs, 0);
    var img := ShadeImage(subs, 0xFF00_0000, w, h);
    OneTileGrid(code, w, h, bpp);
    assert subs[..0] == [];
    assert EncodeSubs(subs, bpp, false) == [0, 0];
    assert EncodeTile(code, bpp) == [8, 1, 0, 0];
    DecodeEncode([], [], bpp, [[code]], img, w, h);
    assert [] + EncodeGrid([[code]], bpp) + [] == [8, 1, 0, 0];
  }

  lemma OneTileGrid(code: TileCode, w: nat, h: nat, bpp: Width)
    requires 1 <= w <= 16 && 1 <= h <= 16 && LegalTile(code, w, h, bpp, START) && |TileCells(code, w, h)| == w * h
    ensures LegalGrid([[code]], w, h, bpp) && Depicts([[code]], TileCells(code, w, h), w, h)
    ensures EncodeGrid([[code]], bpp) == EncodeTile(code, bpp)
  {
    hide EncodeTile, LegalTile, TileCells, At;
    var row: seq<TileCode> := [code];
    var codes := [row];
    assert row[..0] == [] && codes[..0] == [];
    assert Steps(w, 16) == 1 && Steps(h, 16) == 1 && Span(w, 16, 0) == w && Span(h, 16, 0) == h;
    assert LegalRow(row, w, h, bpp, START);
    assert EncodeRow(row, bpp) == EncodeTile(code, bpp);
    assert GridTiles(codes, w, h)[0][0] == TileCells(code, w, h);
  }
}
