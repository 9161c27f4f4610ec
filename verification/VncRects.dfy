/** Updates of several rectangles. RFC 6143 (section 7.6.1) sends each header with its own
    payload behind it; the reader takes all headers from the front of the update, back to
    back. Exactly when that reads what was sent. */
module VncRects {
  import opened Basics
  import opened Wire
  import opened Canvas
  import opened RfbPixels
  import opened VncConnection
  import opened VncSplit
  import opened VncImages

  function RectBytes(us: seq<Sent>): (b: Bytes)
    ensures |b| >= 12 * |us|
  {
    if us == [] then [] else HeaderBytes(us[0].r) + (us[0].payload + RectBytes(us[1..]))
  }

  /** A FramebufferUpdate of any number of rectangles. */
  function ManyBytes(us: seq<Sent>): Bytes {
    [0, 0] + (Be16(|us|) + RectBytes(us))
  }

  function SentRects(us: seq<Sent>): (rs: seq<Rectangle>)
    ensures |rs| == |us|
  {
    seq(|us|, i requires 0 <= i < |us| => us[i].r)
  }

  /** The twelve bytes at each place where the reader takes a header are that header. */
  ghost predicate HeadersInFront(us: seq<Sent>, b: Bytes) {
    4 + 12 * |us| <= |b| && forall i | 0 <= i < |us| :: Has(b, 4 + 12 * i, HeaderBytes(us[i].r))
  }

  // ----- headers and bytes

  lemma WordBack(b: Bytes, off: nat, v: nat)
    requires off + 2 <= |b| && v < 0x1_0000 && U16(b, off) == v
    ensures Has(b, off, Be16(v))
  {
    Parts16(b[off], b[off + 1]);
    assert Be16(v) == [b[off], b[off + 1]];
  }

  lemma Parts16(x: byte, y: byte)
    ensures var v := x as int * 0x100 + y; v / 0x100 % 0x100 == x && v % 0x100 == y
  {
  }

  lemma DoubleBack(b: Bytes, off: nat, v: nat)
    requires off + 4 <= |b| && U32(b, off) == v
    ensures Has(b, off, Be32(v))
  {
    var x: nat := b[off] as int * 0x100 + b[off + 1];
    var y: nat := b[off + 2] as int * 0x100 + b[off + 3];
    assert v == x * 0x1_0000 + y && y < 0x1_0000;
    assert v / 0x1_0000 == x;
    assert v / 0x100 == x * 0x100 + b[off + 2] as int;
    assert v / 0x100_0000 == b[off] as int;
    assert Be32(v) == [b[off], b[off + 1], b[off + 2], b[off + 3]];
  }

  lemma HasJoin(b: Bytes, off: nat, e: Bytes, f: Bytes)
    requires Has(b, off, e) && Has(b, off + |e|, f)
    ensures Has(b, off, e + f)
  {
    forall i | 0 <= i < |e + f|
      ensures b[off + i] == (e + f)[i]
    {
      if i >= |e| {
        assert b[off + |e| + (i - |e|)] == f[i - |e|];
      }
    }
  }

  /** A header is read where its bytes stand and nowhere else. */
  lemma HeaderExactly(b: Bytes, off: nat, r: Rectangle)
    requires Sendable(r) && off + 12 <= |b|
    ensures Header(b, off) == r <==> Has(b, off, HeaderBytes(r))
  {
    hide Has, U16, U32, Be16, Be32;
    if Has(b, off, HeaderBytes(r)) {
      HeaderBack(b, off, r);
    } else if Header(b, off) == r {
      WordBack(b, off, r.x);
      WordBack(b, off + 2, r.y);
      WordBack(b, off + 4, r.width);
      WordBack(b, off + 6, r.height);
      var e4 := EncodeS32(r.encoding);
      WordRange(b, off + 8);
      DoubleBack(b, off + 8, if r.encoding < 0 then r.encoding % 0x1_0000_0000 else r.encoding);
      HasJoin(b, off + 6, Be16(r.height), e4);
      HasJoin(b, off + 4, Be16(r.width), Be16(r.height) + e4);
      HasJoin(b, off + 2, Be16(r.y), Be16(r.width) + (Be16(r.height) + e4));
      HasJoin(b, off, Be16(r.x), Be16(r.y) + (Be16(r.width) + (Be16(r.height) + e4)));
    }
  }

  lemma WordRange(b: Bytes, off: nat)
    requires off + 4 <= |b|
    ensures U32(b, off) < 0x1_0000_0000
  {
  }

  ghost predicate AllSendable(us: seq<Sent>) {
    forall i | 0 <= i < |us| :: Sendable(us[i].r)
  }

  lemma {:induction false} SendsSendable(lib: Library, z: Zlib, us: seq<Sent>)
    requires Sends(lib, z, us)
    ensures AllSendable(us)
    decreases |us|
  {
    hide Sendable, Decodes;
    if us != [] {
      SendsSendable(lib, us[0].z, us[1..]);
      forall i | 0 <= i < |us|
        ensures Sendable(us[i].r)
      {
        if i > 0 {
          assert us[i] == us[1..][i - 1];
        }
      }
    }
  }

  lemma HeadersExactly(us: seq<Sent>, b: Bytes)
    requires AllSendable(us) && 4 + 12 * |us| <= |b|
    ensures Headers(b, |us|) == SentRects(us) <==> HeadersInFront(us, b)
  {
    hide Has, Header, HeaderBytes, Sendable;
    var hs, rs := Headers(b, |us|), SentRects(us);
    forall i | 0 <= i < |us|
      ensures hs[i] == rs[i] <==> Has(b, 4 + 12 * i, HeaderBytes(us[i].r))
    {
      HeaderExactly(b, 4 + 12 * i, us[i].r);
    }
    assert hs == rs <==> forall i | 0 <= i < |us| :: hs[i] == rs[i];
  }

  // ----- the rectangles, once their headers are known

  /** Stepping over header and payload in turn reads what was sent. */
  lemma {:induction false} RectsShow(lib: Library, z: Zlib, us: seq<Sent>, pre: Bytes, post: Bytes)
    requires Sends(lib, z, us)
    ensures Rects(lib, z, SentRects(us), pre + RectBytes(us) + post, |pre|) ==
            Progress(true, |pre| + |RectBytes(us)|, LastZ(z, us), AllShown(us))
    decreases |us|
  {
    hide DecodedPayload, HeaderBytes, Sendable, Shown;
    if us != [] {
      var u, rest := us[0], RectBytes(us[1..]);
      var head := HeaderBytes(u.r);
      var b := pre + RectBytes(us) + post;
      assert b == (pre + head) + u.payload + (rest + post);
      assert DecodesAt(lib, z, u, pre + head, rest + post);
      assert b == (pre + head + u.payload) + rest + post;
      RectsShow(lib, u.z, us[1..], pre + head + u.payload, post);
      assert SentRects(us)[1..] == SentRects(us[1..]);
      assert AllShown(us) == [Shown(u.r, u.content)] + AllShown(us[1..]);
      ShownIsEvent(u);
      assert LastZ(u.z, us[1..]) == LastZ(z, us);
    }
  }

  lemma ShownIsEvent(u: Sent)
    ensures RectEvent(u.r, DataOf(u.content, |u.payload|)) == Shown(u.r, u.content)
  {
  }

  // ----- what is emitted names its rectangle

  predicate Names(e: Event, r: Rectangle) {
    (e.RectDecoded? && e.r == r) || (e.RectCopied? && e.to == r)
  }

  lemma {:induction false} EventsName(lib: Library, z: Zlib, rects: seq<Rectangle>, b: Bytes, off: nat)
    requires Rects(lib, z, rects, b, off).complete
    ensures var ev := Rects(lib, z, rects, b, off).ev;
            |ev| == |rects| && forall i | 0 <= i < |rects| :: Names(ev[i], rects[i])
    decreases |rects|
  {
    hide DecodedPayload;
    if rects != [] {
      var one := DecodedPayload(lib, z, rects[0], b, off + 12);
      var ev := Rects(lib, z, rects, b, off).ev;
      var rest := Rects(lib, one.z, rects[1..], b, off + 12 + one.d.consumed).ev;
      EventsName(lib, one.z, rects[1..], b, off + 12 + one.d.consumed);
      assert ev == [RectEvent(rects[0], one.d)] + rest;
      forall i | 0 <= i < |rects|
        ensures Names(ev[i], rects[i])
      {
        if i > 0 {
          assert ev[i] == rest[i - 1] && rects[1..][i - 1] == rects[i];
        }
      }
    }
  }

  // ----- the exact condition

  lemma ManyStart(us: seq<Sent>, rest: Bytes)
    requires |us| < 0x1_0000
    ensures var b := ManyBytes(us) + rest;
            b != [] && b[0] == 0 && 4 + 12 * |us| <= |b|
            && ParseFramebufferUpdate(b) == Some(Headers(b, |us|))
            && b[..4] + RectBytes(us) + rest == b
  {
    hide Has, U16, Header, Be16, RectBytes;
    var b, tail := ManyBytes(us) + rest, RectBytes(us) + rest;
    assert b == [0, 0] + Be16(|us|) + tail;
    HasWhole([0, 0], Be16(|us|), tail);
    U16Be16(b, 2, |us|);
    assert b[..4] == [0, 0] + Be16(|us|);
  }

  /** An update of any number of rectangles is taken whole, each rectangle shown as sent,
      exactly when the places from which the reader takes the headers hold them. */
  lemma ManyShownExactly(lib: Library, s: State, us: seq<Sent>, rest: Bytes)
    requires s.phase == Running && |us| < 0x1_0000 && Sends(lib, s.z, us) && s.buf == ManyBytes(us) + rest
    ensures Step(lib, s) == Next(s.(buf := rest, z := LastZ(s.z, us)), AllShown(us)) <==> HeadersInFront(us, s.buf)
  {
    hide Rects, Headers, HeadersInFront, Sends, RectBytes;
    var b, n := s.buf, |us|;
    ManyStart(us, rest);
    SendsSendable(lib, s.z, us);
    HeadersExactly(us, b);
    if HeadersInFront(us, b) {
      RectsShow(lib, s.z, us, b[..4], rest);
      assert b[4 + |RectBytes(us)|..] == rest;
    } else if Step(lib, s) == Next(s.(buf := rest, z := LastZ(s.z, us)), AllShown(us)) {
      EventsName(lib, s.z, Headers(b, n), b, 4);
      ShownNames(us, Headers(b, n));
      assert false;
    }
  }

  lemma ShownNames(us: seq<Sent>, rects: seq<Rectangle>)
    requires |rects| == |us| && forall i | 0 <= i < |us| :: Names(AllShown(us)[i], rects[i])
    ensures rects == SentRects(us)
  {
    forall i | 0 <= i < |us|
      ensures rects[i] == us[i].r
    {
      assert Names(AllShown(us)[i], rects[i]);
    }
  }

  /** One rectangle always is where the reader looks. */
  lemma OneInFront(u: Sent, rest: Bytes)
    ensures HeadersInFront([u], ManyBytes([u]) + rest)
  {
    hide HeaderBytes, Be16, Has;
    var b := ManyBytes([u]) + rest;
    assert [u][1..] == [] && RectBytes([u]) == HeaderBytes(u.r) + (u.payload + []);
    var pre, post := [0, 0] + Be16(1), u.payload + rest;
    assert b == pre + HeaderBytes(u.r) + post;
    HasWhole(pre, HeaderBytes(u.r), post);
  }

  // ----- an update that is misread

  const RED := 0xFFFF_0000
  const GREEN := 0xFF00_FF00

  /** Two pixels side by side, each a Raw rectangle of its own. */
  function TwoPixels(z: Zlib): seq<Sent> {
    [RawSent(Rectangle(0, 0, 1, 1, ENC_RAW), [RED], z), RawSent(Rectangle(1, 0, 1, 1, ENC_RAW), [GREEN], z)]
  }

  /** Each of the two is sent as RFC 6143 has it. */
  lemma TwoPixelsSent(lib: Library, z: Zlib)
    ensures Sends(lib, z, TwoPixels(z))
  {
    hide Decodes;
    var us := TwoPixels(z);
    RawDecodes(lib, z, us[0].r, [RED]);
    RawDecodes(lib, z, us[1].r, [GREEN]);
    assert us[1..] == [us[1]] && us[1..][1..] == [];
    assert Sends(lib, z, us[1..][1..]);
  }

  const FIRST: Bytes := [0, 0, 0, 0, 0, 1, 0, 1, 0, 0, 0, 0]
  const RED_BYTES: Bytes := [0, 0, 0xFF, 0]
  const SECOND: Bytes := [0, 1, 0, 0, 0, 1, 0, 1, 0, 0, 0, 0]
  const GREEN_BYTES: Bytes := [0, 0xFF, 0, 0]

  /** What stands where the reader takes the second header. */
  const MISREAD: Bytes := [0, 0, 0xFF, 0, 0, 1, 0, 0, 0, 1, 0, 1]

  lemma TwoPixelBytes(z: Zlib)
    ensures |TwoPixels(z)| == 2
    ensures RectBytes(TwoPixels(z)) == FIRST + (RED_BYTES + (SECOND + GREEN_BYTES))
  {
    var us := TwoPixels(z);
    OnePixel(RED);
    OnePixel(GREEN);
    assert us[1..][1..] == [];
    assert HeaderBytes(us[0].r) == FIRST && HeaderBytes(us[1].r) == SECOND;
    assert RectBytes(us[1..]) == HeaderBytes(us[1].r) + (us[1].payload + []);
    assert us[1].payload + [] == us[1].payload;
  }

  lemma OnePixel(c: Pixel)
    ensures EncodePixels([c], 4) == [Blue(c), Green(c), Red(c), 0]
  {
    assert [c][..0] == [];
  }

  lemma MisreadBytes()
    ensures RED_BYTES + (SECOND + GREEN_BYTES) == MISREAD + ([0, 0, 0, 0] + GREEN_BYTES)
  {
  }

  lemma TwoHeaders(b: Bytes)
    requires 28 <= |b|
    ensures Headers(b, 2) == [Header(b, 4), Header(b, 16)]
  {
    hide Header;
  }

  lemma MisreadStands(b: Bytes, z: Zlib, rest: Bytes)
    requires b == ManyBytes(TwoPixels(z)) + rest
    ensures 32 <= |b| && b[0] == 0 && Has(b, 4, FIRST) && Has(b, 16, MISREAD)
    ensures ParseFramebufferUpdate(b) == Some([Header(b, 4), Header(b, 16)])
  {
    hide RectBytes, TwoPixels, Has, Header, Headers, ManyBytes, ParseFramebufferUpdate;
    var us := TwoPixels(z);
    TwoPixelBytes(z);
    ManyStart(us, rest);
    HasWhole(b[..4], RectBytes(us), rest);
    var second := RED_BYTES + (SECOND + GREEN_BYTES);
    HasSplit(b, 4, FIRST, second);
    MisreadBytes();
    var tail := [0, 0, 0, 0] + GREEN_BYTES;
    HasSplit(b, 16, MISREAD, tail);
    HasInside(b, 16, MISREAD + tail);
    TwoHeaders(b);
  }

  /** The reader takes the second header from the middle of the first payload, finds an
      encoding there that does not exist, and shows the first pixel on every read and the
      second on none, whatever follows. */
  lemma SecondNeverShown(lib: Library, s: State, rest: Bytes)
    requires s.phase == Running && s.buf == ManyBytes(TwoPixels(s.z)) + rest
    ensures Sends(lib, s.z, TwoPixels(s.z))
    ensures Step(lib, s) == Stop(s, [RectDecoded(Rectangle(0, 0, 1, 1, ENC_RAW), [RED])])
  {
    hide Rects, ParseFramebufferUpdate, ManyBytes, TwoPixels, Has, Header, Sends;
    TwoPixelsSent(lib, s.z);
    MisreadStands(s.buf, s.z, rest);
    FirstHeader(s.buf);
    SecondHeader(s.buf);
    FirstOnly(lib, s.z, [Header(s.buf, 4), Header(s.buf, 16)], s.buf);
  }

  lemma FirstHeader(b: Bytes)
    requires Has(b, 4, FIRST)
    ensures Header(b, 4) == Rectangle(0, 0, 1, 1, ENC_RAW)
  {
    assert forall i | 0 <= i < 12 :: b[4 + i] == FIRST[i];
    HeaderOf(b, 4, FIRST);
  }

  lemma SecondHeader(b: Bytes)
    requires Has(b, 16, MISREAD)
    ensures Header(b, 16) == Rectangle(0, 0xFF00, 1, 0, 0x1_0001)
  {
    HeaderOf(b, 16, MISREAD);
  }

  lemma HeaderOf(b: Bytes, off: nat, h: Bytes)
    requires |h| == 12 && Has(b, off, h)
    ensures Header(b, off) == Rectangle(U16(h, 0), U16(h, 2), U16(h, 4), U16(h, 6), Signed32(U32(h, 8)))
  {
    assert forall i | 0 <= i < 12 :: b[off + i] == h[i];
    WordOf(b, off, h, 0);
    WordOf(b, off, h, 2);
    WordOf(b, off, h, 4);
    WordOf(b, off, h, 6);
    WordOf(b, off, h, 8);
    WordOf(b, off, h, 10);
  }

  lemma WordOf(b: Bytes, off: nat, h: Bytes, k: nat)
    requires |h| == 12 && Has(b, off, h) && k + 2 <= 12
    ensures b[off + k] == h[k] && b[off + k + 1] == h[k + 1]
  {
    assert b[off + (k + 1)] == h[k + 1];
  }

  lemma FirstOnly(lib: Library, z: Zlib, rects: seq<Rectangle>, b: Bytes)
    requires Has(b, 16, MISREAD) && 32 <= |b|
    requires rects == [Rectangle(0, 0, 1, 1, ENC_RAW), Rectangle(0, 0xFF00, 1, 0, 0x1_0001)]
    ensures Rects(lib, z, rects, b, 4) == Progress(false, 32, z, [RectDecoded(rects[0], [RED])])
  {
    WordOf(b, 16, MISREAD, 0);
    WordOf(b, 16, MISREAD, 2);
    assert ReadPixel(b, 16, 4) == RED;
    OnePixelParsed(b, 16);
    assert DecodedPayload(lib, z, rects[0], b, 16) == Decoding(Painted(4, [RED]), z);
    assert !DecodedPayload(lib, z, rects[1], b, 32).d.complete;
    assert Rects(lib, z, rects[1..], b, 20) == Progress(false, 32, z, []);
  }

  lemma OnePixelParsed(b: Bytes, p: nat)
    requires p + 4 <= |b|
    ensures ParsePixels(b, p, 4, 1) == Done([ReadPixel(b, p, 4)], p + 4)
  {
    assert ParsePixels(b, p, 4, 0) == Done([], p);
    assert [] + [ReadPixel(b, p, 4)] == [ReadPixel(b, p, 4)];
  }
}
