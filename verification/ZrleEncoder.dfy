/** A reference ZRLE tile encoder, written from section 7.7.6 of RFC 6143, and the
    proof that the decoder inverts it for every legal choice of subencodings. */
module ZrleEncoder {
  import opened Wire
  import opened Basics
  import opened Canvas
  import opened RfbPixels
  import opened Mosaic
  import opened Zrle

  /** A palette-RLE run: a single-byte index (length 1) or an index with a length. */
  datatype Run = Run(len: nat, long: bool)

  datatype Choice =
    | Raw
    | Solid
    | Packed(pal: seq<Pixel>)
    | PlainRle(lens: seq<nat>)
    | PaletteRle(pal: seq<Pixel>, runs: seq<Run>)

  // ----- which choices a tile admits

  ghost predicate Opaque(px: seq<Pixel>) {
    forall i | 0 <= i < |px| :: px[i] >= BLACK
  }

  ghost predicate Constant(px: seq<Pixel>) {
    forall i | 0 <= i < |px| :: px[i] == px[0]
  }

  ghost predicate Covers(pal: seq<Pixel>, px: seq<Pixel>) {
    forall i | 0 <= i < |px| :: px[i] in pal
  }

  /** The lengths cut the cells into runs of one colour. */
  ghost predicate CutsIntoRuns(cells: seq<Pixel>, lens: seq<nat>) {
    if lens == [] then cells == []
    else 1 <= lens[0] <= |cells| && Constant(cells[..lens[0]]) && CutsIntoRuns(cells[lens[0]..], lens[1..])
  }

  function Lengths(runs: seq<Run>): (r: seq<nat>)
    ensures |r| == |runs|
  {
    seq(|runs|, i requires 0 <= i < |runs| => runs[i].len)
  }

  ghost predicate ShortRunsAreSingle(runs: seq<Run>) {
    forall i | 0 <= i < |runs| :: runs[i].long || runs[i].len == 1
  }

  ghost predicate Legal(choice: Choice, cells: seq<Pixel>) {
    match choice
    case Raw => true
    case Solid => cells != [] && Constant(cells)
    case Packed(pal) => 2 <= |pal| <= 16 && Opaque(pal) && Covers(pal, cells)
    case PlainRle(lens) => CutsIntoRuns(cells, lens)
    case PaletteRle(pal, runs) =>
      2 <= |pal| <= 127 && Opaque(pal) && Covers(pal, cells) && CutsIntoRuns(cells, Lengths(runs)) &&
        ShortRunsAreSingle(runs)
  }

  // ----- the encoder

  function EncodeRun(len: nat): Bytes
    requires len >= 1
  {
    if len <= 255 then [len - 1] else [255] + EncodeRun(len - 255)
  }

  function EncodePlainRuns(cells: seq<Pixel>, lens: seq<nat>): Bytes
    requires CutsIntoRuns(cells, lens)
  {
    if lens == [] then []
    else WritePixel(cells[0], CPIXEL) + (EncodeRun(lens[0]) + EncodePlainRuns(cells[lens[0]..], lens[1..]))
  }

  function IndexOf(pal: seq<Pixel>, c: Pixel): (k: nat)
    ensures k <= |pal|
    ensures c in pal ==> k < |pal| && pal[k] == c
  {
    if pal == [] || pal[0] == c then 0 else 1 + IndexOf(pal[1..], c)
  }

  function EncodePaletteRun(idx: nat, run: Run): Bytes
    requires idx < 128 && run.len >= 1
  {
    if run.long then [idx + 128] + EncodeRun(run.len) else [idx]
  }

  function EncodePaletteRuns(cells: seq<Pixel>, pal: seq<Pixel>, runs: seq<Run>): Bytes
    requires |pal| <= 127 && CutsIntoRuns(cells, Lengths(runs))
  {
    if runs == [] then []
    else
      LengthsTail(runs);
      EncodePaletteRun(IndexOf(pal, cells[0]), runs[0]) + EncodePaletteRuns(cells[runs[0].len..], pal, runs[1..])
  }

  lemma LengthsTail(runs: seq<Run>)
    requires runs != []
    ensures Lengths(runs)[0] == runs[0].len && Lengths(runs)[1..] == Lengths(runs[1..])
  {
  }

  /** Indices written one after another, most significant first. */
  function Horner(digits: seq<nat>, base: nat): nat {
    if digits == [] then 0 else Horner(digits[..|digits| - 1], base) * base + digits[|digits| - 1]
  }

  /** The digits of packed byte k, padded with zeros at the end of the row. */
  function ByteDigits(idx: seq<nat>, per: nat, k: nat): (r: seq<nat>)
    ensures |r| == per
  {
    seq(per, j => var i := k * per + j; if 0 <= i < |idx| then idx[i] else 0)
  }

  function PackedByte(idx: seq<nat>, bits: nat, k: nat): byte
    requires bits in {1, 2, 4}
  {
    Horner(ByteDigits(idx, 8 / bits, k), Power(bits)) % 0x100
  }

  function EncodePackedRow(idx: seq<nat>, bits: nat): (r: Bytes)
    requires bits in {1, 2, 4}
    ensures |r| == Steps(|idx|, 8 / bits)
  {
    seq(Steps(|idx|, 8 / bits), k requires 0 <= k < Steps(|idx|, 8 / bits) => PackedByte(idx, bits, k))
  }

  function Indices(row: seq<Pixel>, pal: seq<Pixel>): (r: seq<nat>)
    ensures |r| == |row|
  {
    seq(|row|, i requires 0 <= i < |row| => IndexOf(pal, row[i]))
  }

  /** The first k rows of a tile tw wide. */
  function EncodePacked(cells: seq<Pixel>, pal: seq<Pixel>, bits: nat, tw: nat, k: nat): Bytes
    requires bits in {1, 2, 4} && k * tw <= |cells|
  {
    if k == 0 then []
    else
      assert k * tw == (k - 1) * tw + tw;
      EncodePacked(cells, pal, bits, tw, k - 1) + EncodePackedRow(Indices(cells[(k - 1) * tw..k * tw], pal), bits)
  }

  /** The width of a packed index by the table of section 7.7.6: one bit for a palette
      of 2 colours, two for 3 or 4, four for 5 to 16. */
  function IndexWidth(colours: nat): (bits: nat)
    requires 2 <= colours <= 16
    ensures bits in {1, 2, 4}
  {
    match colours
    case 2 => 1
    case 3 => 2
    case 4 => 2
    case _ => 4
  }

  function EncodeTile(choice: Choice, cells: seq<Pixel>, tw: nat, th: nat): Bytes
    requires |cells| == tw * th && Legal(choice, cells)
  {
    match choice
    case Raw => [0] + EncodePixels(cells, CPIXEL)
    case Solid => [1] + WritePixel(cells[0], CPIXEL)
    case Packed(pal) =>
      MulCommutes(tw, th);
      [|pal|] + (EncodePixels(pal, CPIXEL) + EncodePacked(cells, pal, IndexWidth(|pal|), tw, th))
    case PlainRle(lens) => [128] + EncodePlainRuns(cells, lens)
    case PaletteRle(pal, runs) => [128 + |pal|] + (EncodePixels(pal, CPIXEL) + EncodePaletteRuns(cells, pal, runs))
  }

  // ----- run lengths

  lemma {:induction false} RunRoundTrip(b: Bytes, p: nat, len: nat)
    requires len >= 1 && Has(b, p, EncodeRun(len))
    ensures ParseRun(b, p) == Done(len, p + |EncodeRun(len)|)
    decreases len
  {
    if len <= 255 {
      assert EncodeRun(len) == [len - 1] + [];
      HasFirst(b, p, len - 1, []);
    } else {
      HasFirst(b, p, 255, EncodeRun(len - 255));
      RunRoundTrip(b, p + 1, len - 255);
    }
  }

  lemma ConstantIsFill(cells: seq<Pixel>, n: nat)
    requires n <= |cells| && n > 0 && Constant(cells[..n])
    ensures cells == Fill(cells[0], n) + cells[n..]
  {
    assert cells[..n][0] == cells[0];
    assert cells[..n] == Fill(cells[0], n) by {
      forall i | 0 <= i < n
        ensures cells[..n][i] == cells[0]
      {
      }
    }
  }

  lemma {:induction false} PlainRunsRoundTrip(b: Bytes, p: nat, cells: seq<Pixel>, lens: seq<nat>)
    requires CutsIntoRuns(cells, lens) && Opaque(cells) && Has(b, p, EncodePlainRuns(cells, lens))
    ensures ParsePlainRle(b, p, |cells|) == Done(cells, p + |EncodePlainRuns(cells, lens)|)
    decreases |lens|
  {
    hide Has, EncodeRun, ParseRun, WritePixel, ReadPixel, Fill, Constant;
    if lens != [] {
      var n, rest := lens[0], cells[lens[0]..];
      var tail := EncodePlainRuns(rest, lens[1..]);
      HasSplit(b, p, WritePixel(cells[0], CPIXEL), EncodeRun(n) + tail);
      HasInside(b, p, WritePixel(cells[0], CPIXEL));
      ReadWritePixel(b, p, CPIXEL, cells[0]);
      HasSplit(b, p + CPIXEL, EncodeRun(n), tail);
      RunRoundTrip(b, p + CPIXEL, n);
      PlainRunsRoundTrip(b, p + CPIXEL + |EncodeRun(n)|, rest, lens[1..]);
      ConstantIsFill(cells, n);
    }
  }

  lemma PaletteRunRoundTrip(b: Bytes, p: nat, idx: nat, run: Run)
    requires idx < 128 && run.len >= 1 && (run.long || run.len == 1) && Has(b, p, EncodePaletteRun(idx, run))
    ensures ParsePaletteRun(b, p) == Done(PaletteRun(idx, run.len), p + |EncodePaletteRun(idx, run)|)
  {
    if run.long {
      HasFirst(b, p, idx + 128, EncodeRun(run.len));
      RunRoundTrip(b, p + 1, run.len);
    } else {
      assert EncodePaletteRun(idx, run) == [idx] + [];
      HasFirst(b, p, idx, []);
    }
  }

  lemma {:induction false} PaletteRunsRoundTrip(b: Bytes, p: nat, cells: seq<Pixel>, pal: seq<Pixel>, runs: seq<Run>)
    requires |pal| <= 127 && Covers(pal, cells) && CutsIntoRuns(cells, Lengths(runs)) && ShortRunsAreSingle(runs)
    requires Has(b, p, EncodePaletteRuns(cells, pal, runs))
    ensures ParsePaletteRle(b, p, pal, |cells|) == Done(cells, p + |EncodePaletteRuns(cells, pal, runs)|)
    decreases |runs|
  {
    hide Has, EncodePaletteRun, ParsePaletteRun, Fill, Constant, IndexOf;
    if runs != [] {
      LengthsTail(runs);
      var n := runs[0].len;
      var rest, idx := cells[n..], IndexOf(pal, cells[0]);
      var head, tail := EncodePaletteRun(idx, runs[0]), EncodePaletteRuns(rest, pal, runs[1..]);
      HasSplit(b, p, head, tail);
      PaletteRunRoundTrip(b, p, idx, runs[0]);
      PaletteRunsRoundTrip(b, p + |head|, rest, pal, runs[1..]);
      ConstantIsFill(cells, n);
    }
  }

  // ----- packed rows

  lemma PowerStep(bits: nat, m: nat)
    requires bits in {1, 2, 4} && bits * m + bits <= 8
    ensures Power(bits * m + bits) == Power(bits * m) * Power(bits)
    ensures forall v: nat {:trigger v / Power(bits * m)} ::
              v / Power(bits * m + bits) == v / Power(bits * m) / Power(bits)
  {
    if bits == 1 {
      assert m < 8;
    } else if bits == 2 {
      assert m < 4;
    } else {
      assert bits == 4 && m < 2;
    }
  }

  ghost predicate Digits(d: seq<nat>, base: nat) {
    forall i | 0 <= i < |d| :: d[i] < base
  }

  lemma HornerSnoc(d: seq<nat>, base: nat)
    requires d != [] && base > 0 && d[|d| - 1] < base
    ensures Horner(d, base) / base == Horner(d[..|d| - 1], base) && Horner(d, base) % base == d[|d| - 1]
  {
    var h, c := Horner(d[..|d| - 1], base), d[|d| - 1];
    assert base * h == h * base && base * (h + 1) == h * base + base;
    Quotient(base, h, h * base + c);
  }

  /** Dropping the last m digits is dividing by base^m. */
  lemma {:induction false} HornerShift(d: seq<nat>, bits: nat, m: nat)
    requires bits in {1, 2, 4} && Digits(d, Power(bits)) && m <= |d| && bits * m <= 8
    ensures Horner(d, Power(bits)) / Power(bits * m) == Horner(d[..|d| - m], Power(bits))
  {
    hide Horner, Power;
    if m == 0 {
      assert d[..|d|] == d && bits * m == 0;
      PowerZero(Horner(d, Power(bits)));
    } else {
      assert bits * m == bits * (m - 1) + bits;
      HornerShift(d, bits, m - 1);
      PowerStep(bits, m - 1);
      var e := d[..|d| - (m - 1)];
      assert e[..|e| - 1] == d[..|d| - m];
      HornerSnoc(e, Power(bits));
    }
  }

  lemma PowerZero(v: nat)
    ensures v / Power(0) == v
  {
  }

  lemma {:induction false} HornerBound(d: seq<nat>, bits: nat)
    requires bits in {1, 2, 4} && Digits(d, Power(bits)) && bits * |d| <= 8
    ensures Horner(d, Power(bits)) < Power(bits * |d|)
  {
    if d == [] {
      assert bits * |d| == 0;
    } else {
      hide Power;
      var n, base := |d| - 1, Power(bits);
      assert bits * |d| == bits * n + bits;
      HornerBound(d[..n], bits);
      PowerStep(bits, n);
      MulMono(Horner(d[..n], base) + 1, Power(bits * n), base);
    }
  }

  /** The j-th digit of a packed byte, as the decoder shifts it out. */
  lemma PackedDigit(d: seq<nat>, bits: nat, j: nat)
    requires bits in {1, 2, 4} && Digits(d, Power(bits)) && |d| == 8 / bits && j < |d|
    ensures Horner(d, Power(bits)) < 0x100
    ensures bits * (|d| - 1 - j) == 8 - bits - bits * j
    ensures Horner(d, Power(bits)) / Power(8 - bits - bits * j) % Power(bits) == d[j]
  {
    hide Horner, Power;
    var m := |d| - 1 - j;
    BitsOfByte(bits, |d|, j);
    HornerBound(d, bits);
    HornerShift(d, bits, m);
    assert d[..|d| - m][j] == d[j];
    PowerPositive(bits);
    HornerSnoc(d[..|d| - m], Power(bits));
  }

  lemma BitsOfByte(bits: nat, per: nat, j: nat)
    requires bits in {1, 2, 4} && per == 8 / bits && j < per
    ensures bits * per == 8 && bits * (per - 1 - j) == 8 - bits - bits * j && Power(8) == 0x100
  {
    if bits == 1 {
    } else if bits == 2 {
    } else {
      assert bits == 4;
    }
  }

  /** The decoder's index width is the encoder's, and it is the least of the three widths
      that distinguish the colours. */
  lemma IndexBitsLeast(n: nat, b: nat)
    requires 2 <= n <= 16 && b in {1, 2, 4}
    ensures IndexBits(n) == IndexWidth(n)
    ensures n <= Power(b) <==> IndexBits(n) <= b
  {
    assert Power(1) == 2 && Power(2) == 4 && Power(4) == 16;
  }

  lemma PackedIndexIs(b: Bytes, p: nat, idx: seq<nat>, bits: nat, x: nat)
    requires bits in {1, 2, 4} && Digits(idx, Power(bits)) && x < |idx|
    requires Has(b, p, EncodePackedRow(idx, bits))
    ensures p + x / (8 / bits) < |b| && PackedIndex(b, p, bits, x) == idx[x]
  {
    hide Has, Horner, Power, ByteDigits, EncodePackedRow, Digits;
    var per, k, j := 8 / bits, x / (8 / bits), x % (8 / bits);
    var d := ByteDigits(idx, per, k);
    ByteDigitsAre(idx, bits, k, x);
    PackedDigit(d, bits, j);
    StepsCover(|idx|, per, x);
    PackedByteAt(b, p, idx, bits, k);
  }

  lemma ByteDigitsAre(idx: seq<nat>, bits: nat, k: nat, x: nat)
    requires bits in {1, 2, 4} && Digits(idx, Power(bits)) && x < |idx| && k == x / (8 / bits)
    ensures Digits(ByteDigits(idx, 8 / bits, k), Power(bits))
    ensures ByteDigits(idx, 8 / bits, k)[x % (8 / bits)] == idx[x]
  {
    hide Power;
    PowerPositive(bits);
    var per := 8 / bits;
    assert x == k * per + x % per;
  }

  lemma PowerPositive(bits: nat)
    requires bits <= 8
    ensures Power(bits) > 0
  {
  }

  lemma StepsCover(n: nat, s: nat, x: nat)
    requires s > 0 && x < n
    ensures x / s < Steps(n, s)
  {
    StepsIndex(n, s);
    if (n - 1) / s < x / s {
      MulMono((n - 1) / s + 1, x / s, s);
    }
  }

  lemma PackedByteAt(b: Bytes, p: nat, idx: seq<nat>, bits: nat, k: nat)
    requires bits in {1, 2, 4} && k < Steps(|idx|, 8 / bits) && Has(b, p, EncodePackedRow(idx, bits))
    ensures p + k < |b| && b[p + k] == PackedByte(idx, bits, k)
  {
    hide PackedByte;
    assert EncodePackedRow(idx, bits)[k] == PackedByte(idx, bits, k);
  }

  lemma StepsZero(s: nat)
    requires s > 0
    ensures Steps(0, s) == 0
  {
    Quotient(s, 0, s - 1);
  }

  lemma IndicesAreDigits(row: seq<Pixel>, pal: seq<Pixel>, bits: nat)
    requires bits <= 8 && |pal| <= Power(bits) && Covers(pal, row)
    ensures Digits(Indices(row, pal), Power(bits))
    ensures forall i | 0 <= i < |row| :: Lookup(pal, Indices(row, pal)[i]) == row[i]
  {
    hide Power;
  }

  lemma {:induction false} PackedRowRoundTrip(b: Bytes, p: nat, row: seq<Pixel>, pal: seq<Pixel>, bits: nat, n: nat)
    requires bits in {1, 2, 4} && |pal| <= Power(bits) && Covers(pal, row) && n <= |row|
    requires Has(b, p, EncodePackedRow(Indices(row, pal), bits))
    ensures ParsePackedRow(b, p, pal, bits, n) == Done(row[..n], p + Steps(n, 8 / bits))
  {
    hide Has, PackedIndex, EncodePackedRow, Power, IndexOf, Steps;
    if n == 0 {
      assert row[..0] == [] && Steps(0, 8 / bits) == 0 by { StepsZero(8 / bits); }
    } else {
      PackedRowRoundTrip(b, p, row, pal, bits, n - 1);
      var idx := Indices(row, pal);
      IndicesAreDigits(row, pal, bits);
      PackedIndexIs(b, p, idx, bits, n - 1);
      StepsIndex(n, 8 / bits);
      assert row[..n] == row[..n - 1] + [row[n - 1]];
    }
  }

  lemma CoversSlice(pal: seq<Pixel>, px: seq<Pixel>, from: nat, to: nat)
    requires Covers(pal, px) && from <= to <= |px|
    ensures Covers(pal, px[from..to])
  {
  }

  lemma {:induction false} PackedRoundTrip(b: Bytes, p: nat, cells: seq<Pixel>, pal: seq<Pixel>, bits: nat, tw: nat,
                                           k: nat)
    requires bits in {1, 2, 4} && |pal| <= Power(bits) && Covers(pal, cells) && k * tw <= |cells|
    requires Has(b, p, EncodePacked(cells, pal, bits, tw, k))
    ensures ParsePacked(b, p, pal, bits, tw, k) == Done(cells[..k * tw], p + |EncodePacked(cells, pal, bits, tw, k)|)
  {
    hide Has, ParsePackedRow, EncodePackedRow, Power, Indices, Covers, Steps;
    if k > 0 {
      var m := (k - 1) * tw;
      assert k * tw == m + tw;
      var row := cells[m..m + tw];
      CoversSlice(pal, cells, m, m + tw);
      var head, last := EncodePacked(cells, pal, bits, tw, k - 1), EncodePackedRow(Indices(row, pal), bits);
      HasSplit(b, p, head, last);
      PackedRoundTrip(b, p, cells, pal, bits, tw, k - 1);
      PackedRowRoundTrip(b, p + |head|, row, pal, bits, tw);
      assert row[..tw] == row;
      assert cells[..m] + row == cells[..m + tw];
    }
  }

  // ----- tiles and rectangles

  lemma PaletteRoundTrip(b: Bytes, p: nat, pal: seq<Pixel>, rest: Bytes)
    requires Opaque(pal) && Has(b, p, EncodePixels(pal, CPIXEL) + rest)
    ensures ParsePixels(b, p, CPIXEL, |pal|) == Done(pal, p + |EncodePixels(pal, CPIXEL)|)
    ensures Has(b, p + |EncodePixels(pal, CPIXEL)|, rest)
  {
    hide Has;
    HasSplit(b, p, EncodePixels(pal, CPIXEL), rest);
    PixelsRoundTrip(b, p, CPIXEL, pal);
  }

  lemma PackedTileRoundTrip(b: Bytes, p: nat, pal: seq<Pixel>, cells: seq<Pixel>, tw: nat, th: nat)
    requires |cells| == tw * th && Legal(Packed(pal), cells) && Has(b, p, EncodeTile(Packed(pal), cells, tw, th))
    ensures ParseTile(b, p, tw, th) == Done(cells, p + |EncodeTile(Packed(pal), cells, tw, th)|)
  {
    hide Has, ParsePixels, EncodePixels, ParsePacked, EncodePacked, IndexBits, IndexWidth, Power, Opaque,
         Covers;
    MulCommutes(tw, th);
    var bits := IndexWidth(|pal|);
    IndexBitsLeast(|pal|, bits);
    var rows := EncodePacked(cells, pal, bits, tw, th);
    HasFirst(b, p, |pal|, EncodePixels(pal, CPIXEL) + rows);
    PaletteRoundTrip(b, p + 1, pal, rows);
    PackedRoundTrip(b, p + 1 + |EncodePixels(pal, CPIXEL)|, cells, pal, bits, tw, th);
    assert cells[..th * tw] == cells;
  }

  lemma TileRoundTrip(b: Bytes, p: nat, choice: Choice, cells: seq<Pixel>, tw: nat, th: nat)
    requires |cells| == tw * th && Opaque(cells) && Legal(choice, cells)
    requires Has(b, p, EncodeTile(choice, cells, tw, th))
    ensures ParseTile(b, p, tw, th) == Done(cells, p + |EncodeTile(choice, cells, tw, th)|)
  {
    hide Has, ParsePixels, EncodePixels, ParsePacked, EncodePacked, ParsePlainRle, EncodePlainRuns,
         ParsePaletteRle, EncodePaletteRuns, WritePixel, ReadPixel, IndexBits, IndexWidth, Power, CutsIntoRuns;
    match choice {
      case Raw =>
        HasFirst(b, p, 0, EncodePixels(cells, CPIXEL));
        PixelsRoundTrip(b, p + 1, CPIXEL, cells);
      case Solid =>
        HasFirst(b, p, 1, WritePixel(cells[0], CPIXEL));
        HasInside(b, p + 1, WritePixel(cells[0], CPIXEL));
        ReadWritePixel(b, p + 1, CPIXEL, cells[0]);
        assert cells == Fill(cells[0], |cells|);
      case Packed(pal) =>
        PackedTileRoundTrip(b, p, pal, cells, tw, th);
      case PlainRle(lens) =>
        HasFirst(b, p, 128, EncodePlainRuns(cells, lens));
        PlainRunsRoundTrip(b, p + 1, cells, lens);
      case PaletteRle(pal, runs) =>
        var tail := EncodePaletteRuns(cells, pal, runs);
        HasFirst(b, p, 128 + |pal|, EncodePixels(pal, CPIXEL) + tail);
        PaletteRoundTrip(b, p + 1, pal, tail);
        PaletteRunsRoundTrip(b, p + 1 + |EncodePixels(pal, CPIXEL)|, cells, pal, runs);
    }
  }

  function Cells(img: seq<Pixel>, w: nat, h: nat, col: nat, row: nat): (r: seq<Pixel>)
    ensures |r| == Span(w, 64, col) * Span(h, 64, row)
  {
    TilePixels(img, w, 64 * col, 64 * row, Span(w, 64, col), Span(h, 64, row))
  }

  /** A legal choice for each tile of a row. */
  ghost predicate LegalRow(img: seq<Pixel>, w: nat, h: nat, choices: seq<Choice>, row: nat) {
    forall col | 0 <= col < |choices| :: Legal(choices[col], Cells(img, w, h, col, row))
  }

  ghost predicate LegalGrid(img: seq<Pixel>, w: nat, h: nat, choices: seq<seq<Choice>>) {
    forall row | 0 <= row < |choices| :: |choices[row]| == Steps(w, 64) && LegalRow(img, w, h, choices[row], row)
  }

  function EncodeRow(img: seq<Pixel>, w: nat, h: nat, choices: seq<Choice>, row: nat): Bytes
    requires LegalRow(img, w, h, choices, row)
  {
    if choices == [] then []
    else
      var n := |choices| - 1;
      EncodeRow(img, w, h, choices[..n], row) +
      EncodeTile(choices[n], Cells(img, w, h, n, row), Span(w, 64, n), Span(h, 64, row))
  }

  function EncodeGrid(img: seq<Pixel>, w: nat, h: nat, choices: seq<seq<Choice>>): Bytes
    requires LegalGrid(img, w, h, choices)
  {
    if choices == [] then []
    else
      var n := |choices| - 1;
      EncodeGrid(img, w, h, choices[..n]) + EncodeRow(img, w, h, choices[n], n)
  }

  function RowTiles(img: seq<Pixel>, w: nat, h: nat, n: nat, row: nat): (r: seq<seq<Pixel>>)
    ensures |r| == n
  {
    seq(n, col requires 0 <= col < n => Cells(img, w, h, col, row))
  }

  function GridTiles(img: seq<Pixel>, w: nat, h: nat, n: nat): (r: Tiles)
    ensures |r| == n
  {
    seq(n, row requires 0 <= row < n => RowTiles(img, w, h, Steps(w, 64), row))
  }

  lemma AtOpaque(img: seq<Pixel>, w: nat, x: nat, y: nat)
    requires Opaque(img)
    ensures At(img, w, x, y) >= BLACK
  {
  }

  lemma TileOpaque(img: seq<Pixel>, w: nat, x0: nat, y0: nat, tw: nat, th: nat)
    requires Opaque(img)
    ensures Opaque(TilePixels(img, w, x0, y0, tw, th))
  {
    hide At, TilePixels;
    var px := TilePixels(img, w, x0, y0, tw, th);
    forall i | 0 <= i < |px|
      ensures px[i] >= BLACK
    {
      var x, y := TilePixelIs(img, w, x0, y0, tw, th, i);
      AtOpaque(img, w, x, y);
    }
  }

  lemma CellsOpaque(img: seq<Pixel>, w: nat, h: nat, col: nat, row: nat)
    requires Opaque(img)
    ensures Opaque(Cells(img, w, h, col, row))
  {
    hide Opaque, TilePixels, Span;
    TileOpaque(img, w, 64 * col, 64 * row, Span(w, 64, col), Span(h, 64, row));
  }

  lemma {:induction false} RowRoundTrip(b: Bytes, p: nat, img: seq<Pixel>, w: nat, h: nat, choices: seq<Choice>,
                                        row: nat)
    requires Opaque(img) && LegalRow(img, w, h, choices, row) && Has(b, p, EncodeRow(img, w, h, choices, row))
    ensures ParseRow(b, p, w, Span(h, 64, row), |choices|) ==
            Done(RowTiles(img, w, h, |choices|, row), p + |EncodeRow(img, w, h, choices, row)|)
  {
    hide Has, ParseTile, EncodeTile, Cells, Legal, Span, Opaque;
    if choices == [] {
      assert RowTiles(img, w, h, 0, row) == [];
    } else {
      var n := |choices| - 1;
      var cells := Cells(img, w, h, n, row);
      assert Legal(choices[n], cells);
      var head := EncodeRow(img, w, h, choices[..n], row);
      var last := EncodeTile(choices[n], cells, Span(w, 64, n), Span(h, 64, row));
      HasSplit(b, p, head, last);
      RowRoundTrip(b, p, img, w, h, choices[..n], row);
      CellsOpaque(img, w, h, n, row);
      TileRoundTrip(b, p + |head|, choices[n], cells, Span(w, 64, n), Span(h, 64, row));
      assert RowTiles(img, w, h, n + 1, row) == RowTiles(img, w, h, n, row) + [cells];
    }
  }

  lemma {:induction false} GridRoundTrip(b: Bytes, p: nat, img: seq<Pixel>, w: nat, h: nat, choices: seq<seq<Choice>>)
    requires Opaque(img) && LegalGrid(img, w, h, choices) && Has(b, p, EncodeGrid(img, w, h, choices))
    ensures ParseGrid(b, p, w, h, |choices|) ==
            Done(GridTiles(img, w, h, |choices|), p + |EncodeGrid(img, w, h, choices)|)
  {
    hide Has, ParseRow, EncodeRow, RowTiles, LegalRow, Span, Opaque, Steps;
    if choices == [] {
      assert GridTiles(img, w, h, 0) == [];
    } else {
      var n := |choices| - 1;
      var head, last := EncodeGrid(img, w, h, choices[..n]), EncodeRow(img, w, h, choices[n], n);
      HasSplit(b, p, head, last);
      GridRoundTrip(b, p, img, w, h, choices[..n]);
      RowRoundTrip(b, p + |head|, img, w, h, choices[n], n);
      assert GridTiles(img, w, h, n + 1) == GridTiles(img, w, h, n) + [RowTiles(img, w, h, Steps(w, 64), n)];
    }
  }

  /** The tiles of an image put together again are the image. */
  lemma TilesAreImage(img: seq<Pixel>, w: nat, h: nat)
    requires |img| == w * h
    ensures MosaicImage(GridTiles(img, w, h, Steps(h, 64)), 64, w, h) == img
  {
    hide At, Pos;
    var rows := GridTiles(img, w, h, Steps(h, 64));
    forall x, y | 0 <= x < w && 0 <= y < h
      ensures MosaicAt(rows, 64, w, x, y) == At(img, w, x, y)
    {
      var col, row := x / 64, y / 64;
      assert rows[row][col] == Cells(img, w, h, col, row);
      TilePixelsAt(img, w, 64 * col, 64 * row, Span(w, 64, col), Span(h, 64, row), x % 64, y % 64);
    }
    MosaicImageAt(rows, 64, w, h);
    SameImage(MosaicImage(rows, 64, w, h), img, w, h);
  }

  /** For every opaque image and every legal choice per tile, decoding the encoding
      returns exactly the image, whatever bytes follow. */
  lemma DecodeEncode(img: seq<Pixel>, w: nat, h: nat, choices: seq<seq<Choice>>, post: Bytes)
    requires |img| == w * h && Opaque(img)
    requires |choices| == Steps(h, 64) && LegalGrid(img, w, h, choices)
    ensures TilePixelsOf(EncodeGrid(img, w, h, choices) + post, w, h) == img
  {
    hide Has, EncodeGrid, LegalGrid, MosaicImage, Opaque, ParseGrid, GridTiles, Steps;
    var e := EncodeGrid(img, w, h, choices);
    HasWhole([], e, post);
    assert [] + e + post == e + post;
    GridRoundTrip(e + post, 0, img, w, h, choices);
    TilesAreImage(img, w, h);
  }

  function AllRaw(w: nat, h: nat): seq<seq<Choice>> {
    seq(Steps(h, 64), _ => seq(Steps(w, 64), _ => Raw))
  }

  /** Every opaque image has an encoding, and it decodes to the image. */
  lemma EveryImageHasAnEncoding(img: seq<Pixel>, w: nat, h: nat, post: Bytes)
    requires |img| == w * h && Opaque(img)
    ensures LegalGrid(img, w, h, AllRaw(w, h))
    ensures TilePixelsOf(EncodeGrid(img, w, h, AllRaw(w, h)) + post, w, h) == img
  {
    DecodeEncode(img, w, h, AllRaw(w, h), post);
  }

  // ----- tiles byte by byte

  /** Four cells of a palette of three colours take two bits each, the first in the most
      significant bits. */
  lemma FourIndices(p0: Pixel, p1: Pixel, p2: Pixel, post: Bytes)
    requires p0 >= BLACK && p1 >= BLACK && p2 >= BLACK && p0 != p1 && p1 != p2 && p0 != p2
    ensures var b := [3] + EncodePixels([p0, p1, p2], CPIXEL) + [0x18] + post;
            TilePixelsOf(b, 4, 1) == [p0, p1, p2, p0]
  {
    hide EncodePixels, TilePixelsOf;
    var pal, cells := [p0, p1, p2], [p0, p1, p2, p0];
    var choices := [[Packed(pal)]];
    OneTile(Packed(pal), cells, 4, 1);
    IndicesRow(p0, p1, p2);
    assert cells[0..4] == cells;
    assert EncodePacked(cells, pal, 2, 4, 0) == [];
    assert EncodePacked(cells, pal, 2, 4, 1) == [] + [0x18];
    assert EncodeTile(Packed(pal), cells, 4, 1) == [3] + EncodePixels(pal, CPIXEL) + [0x18];
    DecodeEncode(cells, 4, 1, choices, post);
  }

  lemma IndicesRow(p0: Pixel, p1: Pixel, p2: Pixel)
    requires p0 != p1 && p1 != p2 && p0 != p2
    ensures var idx := Indices([p0, p1, p2, p0], [p0, p1, p2]);
            idx == [0, 1, 2, 0] && EncodePackedRow(idx, 2) == [0x18]
  {
    var pal := [p0, p1, p2];
    assert IndexOf([p1, p2], p2) == 1 + IndexOf([p2], p2) by { assert [p1, p2][1..] == [p2]; }
    assert pal[1..] == [p1, p2];
    assert IndexOf(pal, p0) == 0 && IndexOf(pal, p1) == 1 && IndexOf(pal, p2) == 2;
    var idx: seq<nat> := [0, 1, 2, 0];
    assert ByteDigits(idx, 4, 0) == idx;
    assert idx[..3] == [0, 1, 2] && [0, 1, 2][..2] == [0, 1] && [0, 1][..1] == [0] && [0][..0] == [];
    assert Horner([0, 1], 4) == 1 && Horner([0, 1, 2], 4) == 6 && Horner(idx, 4) == 24;
    assert Steps(4, 4) == 1;
  }

  lemma TileOfWhole(cells: seq<Pixel>, w: nat, h: nat)
    requires |cells| == w * h
    ensures TilePixels(cells, w, 0, 0, w, h) == cells
  {
    hide Pos;
    var px := TilePixels(cells, w, 0, 0, w, h);
    forall x, y | 0 <= x < w && 0 <= y < h
      ensures At(px, w, x, y) == At(cells, w, x, y)
    {
      TilePixelsAt(cells, w, 0, 0, w, h, x, y);
    }
    SameImage(px, cells, w, h);
  }

  /** An image of one tile. */
  lemma OneTile(choice: Choice, cells: seq<Pixel>, w: nat, h: nat)
    requires 1 <= w <= 64 && 1 <= h <= 64 && |cells| == w * h && Legal(choice, cells)
    ensures Cells(cells, w, h, 0, 0) == cells
    ensures LegalGrid(cells, w, h, [[choice]]) && |[[choice]]| == Steps(h, 64)
    ensures EncodeGrid(cells, w, h, [[choice]]) == EncodeTile(choice, cells, w, h)
  {
    hide Legal, EncodeTile, At;
    assert Steps(w, 64) == 1 && Steps(h, 64) == 1 && Span(w, 64, 0) == w && Span(h, 64, 0) == h;
    TileOfWhole(cells, w, h);
    assert [choice][..0] == [] && [[choice]][..0] == [];
    assert EncodeRow(cells, w, h, [], 0) == [] && EncodeGrid(cells, w, h, []) == [];
    assert EncodeRow(cells, w, h, [choice], 0) == [] + EncodeTile(choice, cells, w, h);
  }

  // ----- streams no encoder makes

  lemma {:induction false} RowShort(b: Bytes, p: nat, w: nat, th: nat, k: nat)
    requires k >= 1 && ParseTile(b, p, Span(w, 64, 0), th) == Short
    ensures ParseRow(b, p, w, th, k) == Short
  {
    hide ParseTile;
    if k > 1 {
      RowShort(b, p, w, th, k - 1);
    } else {
      assert ParseRow(b, p, w, th, 0) == Done([], p);
    }
  }

  lemma {:induction false} GridShort(b: Bytes, w: nat, h: nat, k: nat)
    requires k >= 1 && w >= 1 && ParseTile(b, 0, Span(w, 64, 0), Span(h, 64, 0)) == Short
    ensures ParseGrid(b, 0, w, h, k) == Short
  {
    hide ParseTile;
    if k > 1 {
      GridShort(b, w, h, k - 1);
    } else {
      assert ParseGrid(b, 0, w, h, 0) == Done([], 0);
      RowShort(b, 0, w, Span(h, 64, 0), Steps(w, 64));
    }
  }

  /** A stream that is empty, or whose first subencoding is 17 to 127 or 129, gives no pixels. */
  lemma UnusedSubencoding(b: Bytes, w: nat, h: nat)
    requires w >= 1 && h >= 1
    requires b == [] || 17 <= b[0] <= 127 || b[0] == 129
    ensures TilePixelsOf(b, w, h) == []
  {
    hide Span;
    GridShort(b, w, h, Steps(h, 64));
  }

  /** A rectangle of one tile shows what its tile parses to. */
  lemma OneTileParsed(b: Bytes, w: nat, h: nat)
    requires 1 <= w <= 64 && 1 <= h <= 64 && ParseTile(b, 0, w, h).Done?
    ensures TilePixelsOf(b, w, h) == ParseTile(b, 0, w, h).value
  {
    hide ParseTile, At, MosaicAt;
    var cells := ParseTile(b, 0, w, h).value;
    assert Steps(w, 64) == 1 && Steps(h, 64) == 1 && Span(w, 64, 0) == w && Span(h, 64, 0) == h;
    assert ParseRow(b, 0, w, h, 0) == Done([], 0) && ParseGrid(b, 0, w, h, 0) == Done([], 0);
    var row: seq<seq<Pixel>> := [cells];
    assert [] + [cells] == row;
    assert ParseRow(b, 0, w, h, 1) == Done(row, ParseTile(b, 0, w, h).end);
    assert [] + [row] == [row];
    MosaicOfOne(cells, w, h);
  }

  lemma MosaicOfOne(cells: seq<Pixel>, w: nat, h: nat)
    requires 1 <= w <= 64 && 1 <= h <= 64 && |cells| == w * h
    ensures MosaicImage([[cells]], 64, w, h) == cells
  {
    hide At, Pos;
    MosaicImageAt([[cells]], 64, w, h);
    assert Span(w, 64, 0) == w;
    SameImage(MosaicImage([[cells]], 64, w, h), cells, w, h);
  }

  /** A run longer than what is left of the tile fills the tile. */
  lemma OverlongRun(c: Pixel, len: nat, w: nat, h: nat, post: Bytes)
    requires 1 <= w <= 64 && 1 <= h <= 64 && c >= BLACK && len >= w * h
    ensures TilePixelsOf([128] + (WritePixel(c, CPIXEL) + EncodeRun(len)) + post, w, h) == Fill(c, w * h)
  {
    hide Has, EncodeRun, WritePixel, ReadPixel, ParseRun, Fill;
    PosInside(w, h, 0, 0);
    var e := [128] + (WritePixel(c, CPIXEL) + EncodeRun(len));
    var b := e + post;
    HasWhole([], e, post);
    assert [] + e + post == b;
    HasFirst(b, 0, 128, WritePixel(c, CPIXEL) + EncodeRun(len));
    HasSplit(b, 1, WritePixel(c, CPIXEL), EncodeRun(len));
    HasInside(b, 1, WritePixel(c, CPIXEL));
    ReadWritePixel(b, 1, CPIXEL, c);
    RunRoundTrip(b, 4, len);
    RunFills(b, 1, w * h);
    OneTileParsed(b, w, h);
  }

  lemma RunFills(b: Bytes, p: nat, need: nat)
    requires need > 0 && p + CPIXEL <= |b| && ParseRun(b, p + CPIXEL).Done?
    requires ParseRun(b, p + CPIXEL).value >= need
    ensures var r := ParsePlainRle(b, p, need);
            r.Done? && r.value == Fill(ReadPixel(b, p, CPIXEL), need)
  {
    hide ReadPixel, ParseRun;
    var q := ParseRun(b, p + CPIXEL).end;
    assert ParsePlainRle(b, q, 0) == Done([], q);
    var c := ReadPixel(b, p, CPIXEL);
    assert Fill(c, need) + [] == Fill(c, need);
  }

  /** An index past the palette is black: here 3 of three colours, packed, and 5 of two, as a
      run. */
  lemma PastThePalette(p0: Pixel, p1: Pixel, p2: Pixel)
    requires p0 >= BLACK && p1 >= BLACK && p2 >= BLACK
    ensures TilePixelsOf([3] + EncodePixels([p0, p1, p2], CPIXEL) + [0xC0], 1, 1) == [0xFF00_0000]
    ensures TilePixelsOf([130] + EncodePixels([p0, p1], CPIXEL) + [5], 1, 1) == [0xFF00_0000]
  {
    hide ParseTile;
    PackedPast(p0, p1, p2);
    OneTileParsed([3] + EncodePixels([p0, p1, p2], CPIXEL) + [0xC0], 1, 1);
    RunPast(p0, p1);
    OneTileParsed([130] + EncodePixels([p0, p1], CPIXEL) + [5], 1, 1);
  }

  lemma PaletteStands(first: byte, pal: seq<Pixel>, last: byte)
    requires Opaque(pal)
    ensures var b := [first] + EncodePixels(pal, CPIXEL) + [last];
            var n := |EncodePixels(pal, CPIXEL)|;
            && |b| == n + 2 && b[0] == first && b[n + 1] == last
            && ParsePixels(b, 1, CPIXEL, |pal|) == Done(pal, n + 1)
  {
    hide EncodePixels, ParsePixels;
    var e := EncodePixels(pal, CPIXEL);
    HasWhole([first], e, [last]);
    PixelsRoundTrip([first] + e + [last], 1, CPIXEL, pal);
  }

  lemma PackedPast(p0: Pixel, p1: Pixel, p2: Pixel)
    requires p0 >= BLACK && p1 >= BLACK && p2 >= BLACK
    ensures var r := ParseTile([3] + EncodePixels([p0, p1, p2], CPIXEL) + [0xC0], 0, 1, 1);
            r.Done? && r.value == [0xFF00_0000]
  {
    hide EncodePixels, ParsePixels;
    var pal := [p0, p1, p2];
    var b, q := [3] + EncodePixels(pal, CPIXEL) + [0xC0], |EncodePixels(pal, CPIXEL)| + 1;
    PaletteStands(3, pal, 0xC0);
    assert PackedIndex(b, q, 2, 0) == 3;
    assert Steps(1, 4) == 1;
    assert ParsePackedRow(b, q, pal, 2, 0) == Done([], q);
    assert ParsePackedRow(b, q, pal, 2, 1) == Done([] + [BLACK], q + 1);
    assert ParsePacked(b, q, pal, 2, 1, 0) == Done([], q);
    assert ParsePacked(b, q, pal, 2, 1, 1) == Done([] + ([] + [BLACK]), q + 1);
  }

  lemma RunPast(p0: Pixel, p1: Pixel)
    requires p0 >= BLACK && p1 >= BLACK
    ensures var r := ParseTile([130] + EncodePixels([p0, p1], CPIXEL) + [5], 0, 1, 1);
            r.Done? && r.value == [0xFF00_0000]
  {
    hide EncodePixels, ParsePixels;
    var pal := [p0, p1];
    var b, q := [130] + EncodePixels(pal, CPIXEL) + [5], |EncodePixels(pal, CPIXEL)| + 1;
    PaletteStands(130, pal, 5);
    assert ParsePaletteRun(b, q) == Done(PaletteRun(5, 1), q + 1);
    assert ParsePaletteRle(b, q + 1, pal, 0) == Done([], q + 1);
    assert ParsePaletteRle(b, q, pal, 1) == Done(Fill(BLACK, 1) + [], q + 1);
  }

  /** A tile of one colour: its subencoding, and its blue, green and red bytes. */
  lemma SolidTile(red: byte, green: byte, blue: byte, w: nat, h: nat, post: Bytes)
    requires 1 <= w <= 64 && 1 <= h <= 64
    ensures TilePixelsOf([1, blue, green, red] + post, w, h) ==
            Fill(0xFF00_0000 + red as int * 0x1_0000 + green as int * 0x100 + blue as int, w * h)
  {
    hide Fill, ParseTile, TilePixelsOf;
    var b := [1, blue, green, red] + post;
    assert b[0] == 1 && b[1] == blue && b[2] == green && b[3] == red;
    SolidParsed(b, w, h);
    OneTileParsed(b, w, h);
  }

  lemma SolidParsed(b: Bytes, w: nat, h: nat)
    requires |b| >= 4 && b[0] == 1
    ensures ParseTile(b, 0, w, h) ==
            Done(Fill(0xFF00_0000 + b[3] as int * 0x1_0000 + b[2] as int * 0x100 + b[1] as int, w * h), 4)
  {
    hide Fill, ParsePixels, ParsePacked, ParsePlainRle, ParsePaletteRle;
  }
}
