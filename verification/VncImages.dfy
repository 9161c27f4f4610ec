/** The reference encoders against the client loop: an update that carries an encoded
    image makes the reader emit exactly that image, however its bytes arrive. */
module VncImages {
  import opened Basics
  import opened Wire
  import opened Canvas
  import opened RfbPixels
  import opened VncConnection
  import opened VncSplit
  import Hextile
  import HextileEncoder
  import RfbRect
  import Zrle
  import ZrleEncoder

  /** What a rectangle header can carry. */
  predicate Sendable(r: Rectangle) {
    && r.x < 0x1_0000 && r.y < 0x1_0000 && r.width < 0x1_0000 && r.height < 0x1_0000
    && -0x8000_0000 <= r.encoding < 0x8000_0000
  }

  function HeaderBytes(r: Rectangle): (b: Bytes)
    ensures |b| == 12
  {
    Be16(r.x) + (Be16(r.y) + (Be16(r.width) + (Be16(r.height) + EncodeS32(r.encoding))))
  }

  /** A FramebufferUpdate of one rectangle (section 7.6.1 of RFC 6143). */
  function UpdateBytes(r: Rectangle, payload: Bytes): Bytes {
    UpdateHead(r) + payload
  }

  function UpdateHead(r: Rectangle): (b: Bytes)
    ensures |b| == 16
  {
    [0, 0] + (Be16(1) + HeaderBytes(r))
  }

  lemma HeaderBack(b: Bytes, off: nat, r: Rectangle)
    requires Sendable(r) && Has(b, off, HeaderBytes(r))
    ensures off + 12 <= |b| && Header(b, off) == r
  {
    hide Has, U16, U32, Be16, Be32;
    var e4 := EncodeS32(r.encoding);
    var e3 := Be16(r.height) + e4;
    var e2 := Be16(r.width) + e3;
    HasInside(b, off, HeaderBytes(r));
    HasSplit(b, off, Be16(r.x), Be16(r.y) + e2);
    HasSplit(b, off + 2, Be16(r.y), e2);
    HasSplit(b, off + 4, Be16(r.width), e3);
    HasSplit(b, off + 6, Be16(r.height), e4);
    U16Be16(b, off, r.x);
    U16Be16(b, off + 2, r.y);
    U16Be16(b, off + 4, r.width);
    U16Be16(b, off + 6, r.height);
    var e := r.encoding;
    U32Be32(b, off + 8, if e < 0 then e % 0x1_0000_0000 else e);
  }

  lemma UpdateBack(r: Rectangle, tail: Bytes)
    requires Sendable(r)
    ensures var b := UpdateHead(r) + tail;
            b[0] == 0 && ParseFramebufferUpdate(b) == Some([r])
  {
    hide Has, U16, HeaderBytes, Header, Be16;
    var b := UpdateHead(r) + tail;
    assert [] + UpdateHead(r) + tail == b;
    HasWhole([], UpdateHead(r), tail);
    HasSplit(b, 0, [0, 0], Be16(1) + HeaderBytes(r));
    HasSplit(b, 2, Be16(1), HeaderBytes(r));
    HasFirst(b, 0, 0, [0]) by { assert [0] + [0] == [0, 0]; }
    U16Be16(b, 2, 1);
    HeaderBack(b, 4, r);
    assert Headers(b, 1) == [r];
  }

  // ----- what an update shows

  /** An image, or a copy of what the screen shows at a position. */
  datatype Content = Image(img: seq<Pixel>) | Copy(srcX: nat, srcY: nat)

  function DataOf(content: Content, consumed: nat): RectData {
    match content
    case Image(img) => Painted(consumed, img)
    case Copy(srcX, srcY) => RectData(true, consumed, [], true, srcX, srcY)
  }

  function Shown(r: Rectangle, content: Content): Event {
    match content
    case Image(img) => RectDecoded(r, img)
    case Copy(srcX, srcY) => RectCopied(srcX, srcY, r)
  }

  /** A rectangle sent: its header and payload, what it shows, and where it leaves the
      inflate stream. */
  datatype Sent = Sent(r: Rectangle, payload: Bytes, content: Content, z: Zlib)

  ghost predicate DecodesAt(lib: Library, z: Zlib, u: Sent, pre: Bytes, post: Bytes) {
    DecodedPayload(lib, z, u.r, pre + u.payload + post, |pre|) == Decoding(DataOf(u.content, |u.payload|), u.z)
  }

  /** Wherever the payload stands, it decodes to the content. */
  ghost predicate Decodes(lib: Library, z: Zlib, u: Sent) {
    forall pre, post :: DecodesAt(lib, z, u, pre, post)
  }

  /** The reader's next step takes the whole update and emits its content. */
  lemma UpdateShows(lib: Library, s: State, u: Sent, rest: Bytes)
    requires s.phase == Running && Sendable(u.r) && Decodes(lib, s.z, u)
    requires s.buf == UpdateBytes(u.r, u.payload) + rest
    ensures Step(lib, s) == Next(s.(buf := rest, z := u.z), [Shown(u.r, u.content)])
    ensures Safe(lib, s)
  {
    hide DecodedPayload, ParseFramebufferUpdate, UpdateHead;
    var head, n := UpdateHead(u.r), |u.payload|;
    assert s.buf == head + (u.payload + rest) == head + u.payload + rest;
    assert DecodesAt(lib, s.z, u, head, rest);
    UpdateBack(u.r, u.payload + rest);
    OneRect(lib, s.z, [u.r], s.buf);
    assert s.buf[16 + n..] == rest;
  }

  // ----- streams of updates

  /** Each payload decodes to its content, with the inflate stream as the one before left it. */
  ghost predicate Sends(lib: Library, z: Zlib, us: seq<Sent>)
    decreases |us|
  {
    us != [] ==> Sendable(us[0].r) && Decodes(lib, z, us[0]) && Sends(lib, us[0].z, us[1..])
  }

  function StreamBytes(us: seq<Sent>): Bytes {
    if us == [] then [] else UpdateBytes(us[0].r, us[0].payload) + StreamBytes(us[1..])
  }

  function AllShown(us: seq<Sent>): (ev: seq<Event>)
    ensures |ev| == |us|
  {
    seq(|us|, i requires 0 <= i < |us| => Shown(us[i].r, us[i].content))
  }

  function LastZ(z: Zlib, us: seq<Sent>): Zlib {
    if us == [] then z else us[|us| - 1].z
  }

  /** A stream of updates in the buffer is clean, and is run through to its end, content by
      content. */
  lemma {:induction false} StreamRuns(lib: Library, s: State, us: seq<Sent>)
    requires s.phase == Running && Sends(lib, s.z, us) && s.buf == StreamBytes(us)
    ensures Clean(lib, s) && Run(lib, s) == Result(s.(buf := [], z := LastZ(s.z, us)), AllShown(us))
    decreases |us|
  {
    hide Decodes, UpdateBytes, Safe, Step, Sendable, LastByteNeeded, Shown;
    if us == [] {
      NothingToTake(lib, s);
      assert s.(buf := [], z := s.z) == s;
    } else {
      var u, rest := us[0], StreamBytes(us[1..]);
      UpdateShows(lib, s, u, rest);
      var next := s.(buf := rest, z := u.z);
      StepConsumes(lib, s);
      StreamRuns(lib, next, us[1..]);
      assert AllShown(us) == [Shown(u.r, u.content)] + AllShown(us[1..]);
      assert us != [] && LastZ(u.z, us[1..]) == LastZ(s.z, us);
    }
  }

  /** However the bytes of a stream of updates arrive, the reader emits the content of each
      once, in order, and ends with an empty buffer. */
  lemma StreamArrives(lib: Library, s: State, us: seq<Sent>, chunks: seq<Bytes>)
    requires s.phase == Running && s.buf == [] && Sends(lib, s.z, us)
    requires chunks != [] && Arriving(chunks) && Joined(chunks) == StreamBytes(us)
    ensures Reads(lib, s, chunks) == Result(s.(z := LastZ(s.z, us)), AllShown(us))
  {
    hide Sends, Clean, Run, Reads;
    var whole := Fed(s, StreamBytes(us));
    assert [] + StreamBytes(us) == StreamBytes(us);
    StreamRuns(lib, whole, us);
    assert whole.(buf := [], z := LastZ(s.z, us)) == s.(z := LastZ(s.z, us));
    SplitDoesNotMatter(lib, s, chunks);
  }

  /** In particular a single update emits its content once. */
  lemma UpdateArrives(lib: Library, s: State, u: Sent, chunks: seq<Bytes>)
    requires s.phase == Running && s.buf == [] && Sendable(u.r) && Decodes(lib, s.z, u)
    requires chunks != [] && Arriving(chunks) && Joined(chunks) == UpdateBytes(u.r, u.payload)
    ensures Reads(lib, s, chunks) == Result(s.(z := u.z), [Shown(u.r, u.content)])
  {
    hide Decodes, UpdateBytes, Reads, Shown;
    var us := [u];
    assert us[1..] == [] && Sends(lib, u.z, us[1..]);
    assert StreamBytes(us) == UpdateBytes(u.r, u.payload) + [] == UpdateBytes(u.r, u.payload);
    assert AllShown(us) == [Shown(u.r, u.content)];
    StreamArrives(lib, s, us, chunks);
  }

  // ----- the encodings

  function RawSent(r: Rectangle, img: seq<Pixel>, z: Zlib): Sent {
    Sent(r, EncodePixels(img, 4), Image(img), z)
  }

  lemma RawDecodes(lib: Library, z: Zlib, r: Rectangle, img: seq<Pixel>)
    requires r.encoding == ENC_RAW && |img| == r.width * r.height && AllCarried(img, 4)
    ensures Decodes(lib, z, RawSent(r, img, z))
  {
    hide EncodePixels, RfbRect.DecodedRaw;
    forall pre, post
      ensures DecodesAt(lib, z, RawSent(r, img, z), pre, post)
    {
      RfbRect.DecodeEncodeRaw(pre, post, r.width, r.height, 4, img);
    }
  }

  function CopySent(r: Rectangle, srcX: nat, srcY: nat, z: Zlib): Sent {
    Sent(r, RfbRect.EncodeCopy(srcX, srcY), Copy(srcX, srcY), z)
  }

  lemma CopyDecodes(lib: Library, z: Zlib, r: Rectangle, srcX: nat, srcY: nat)
    requires r.encoding == ENC_COPY_RECT && srcX < 0x1_0000 && srcY < 0x1_0000
    ensures Decodes(lib, z, CopySent(r, srcX, srcY, z))
  {
    hide RfbRect.DecodedCopy;
    forall pre, post
      ensures DecodesAt(lib, z, CopySent(r, srcX, srcY, z), pre, post)
    {
      RfbRect.DecodeEncodeCopy(pre, post, srcX, srcY);
    }
  }

  function RreSent(r: Rectangle, bg: Pixel, subs: seq<Sub>, z: Zlib): Sent {
    Sent(r, RfbRect.EncodeRre(bg, subs, 4), Image(ShadeImage(subs, bg, r.width, r.height)), z)
  }

  lemma RreDecodes(lib: Library, z: Zlib, r: Rectangle, bg: Pixel, subs: seq<Sub>)
    requires r.encoding == ENC_RRE && Carries(4, bg) && RfbRect.LegalRreSubs(subs, 4) && |subs| < 0x1_0000_0000
    ensures Decodes(lib, z, RreSent(r, bg, subs, z))
  {
    hide RfbRect.EncodeRre, RfbRect.DecodedRre, ShadeImage;
    forall pre, post
      ensures DecodesAt(lib, z, RreSent(r, bg, subs, z), pre, post)
    {
      RfbRect.DecodeEncodeRre(pre, post, r.width, r.height, 4, bg, subs);
    }
  }

  function HextileSent(r: Rectangle, codes: seq<seq<HextileEncoder.TileCode>>, img: seq<Pixel>, z: Zlib): Sent {
    Sent(r, HextileEncoder.EncodeGrid(codes, 4), Image(img), z)
  }

  lemma HextileDecodes(lib: Library, z: Zlib, r: Rectangle, codes: seq<seq<HextileEncoder.TileCode>>, img: seq<Pixel>)
    requires r.encoding == ENC_HEXTILE
    requires HextileEncoder.LegalGrid(codes, r.width, r.height, 4)
    requires HextileEncoder.Depicts(codes, img, r.width, r.height)
    ensures Decodes(lib, z, HextileSent(r, codes, img, z))
  {
    hide HextileEncoder.EncodeGrid, Hextile.Decoded;
    forall pre, post
      ensures DecodesAt(lib, z, HextileSent(r, codes, img, z), pre, post)
    {
      HextileEncoder.DecodeEncode(pre, post, 4, codes, img, r.width, r.height);
    }
  }

  /** The compressed block after its length. */
  function ZrleBytes(block: Bytes): Bytes {
    Be32(|block|) + block
  }

  function ZrleSent(r: Rectangle, block: Bytes, img: seq<Pixel>, z: Zlib): Sent {
    Sent(r, ZrleBytes(block), Image(img), Zlib(z.fed + [block], false))
  }

  /** The block inflates, after the blocks before it, to an encoding of the image by a legal
      choice per tile. */
  ghost predicate Compresses(lib: Library, z: Zlib, r: Rectangle, choices: seq<seq<ZrleEncoder.Choice>>,
                             img: seq<Pixel>, block: Bytes) {
    && |img| == r.width * r.height && ZrleEncoder.Opaque(img)
    && |choices| == Steps(r.height, 64) && ZrleEncoder.LegalGrid(img, r.width, r.height, choices)
    && !z.failed && 0 < |block| < 0x1_0000_0000
    && lib.inflate(z.fed + [block]) == Some(ZrleEncoder.EncodeGrid(img, r.width, r.height, choices))
  }

  lemma ZrleDecodes(lib: Library, z: Zlib, r: Rectangle, choices: seq<seq<ZrleEncoder.Choice>>, img: seq<Pixel>,
                    block: Bytes)
    requires r.encoding == ENC_ZRLE && Compresses(lib, z, r, choices, img, block)
    ensures Decodes(lib, z, ZrleSent(r, block, img, z))
  {
    forall pre, post
      ensures DecodesAt(lib, z, ZrleSent(r, block, img, z), pre, post)
    {
      ZrleDecodesAt(lib, z, r, choices, img, block, pre, post);
    }
  }

  lemma BlockStands(pre: Bytes, block: Bytes, post: Bytes)
    requires |block| < 0x1_0000_0000
    ensures var b, off := pre + ZrleBytes(block) + post, |pre|;
            && |b| >= off + 4 + |block| && U32(b, off) == |block| && b[off + 4..off + 4 + |block|] == block
  {
    hide Has, U32, Be32;
    var b, off := pre + ZrleBytes(block) + post, |pre|;
    HasWhole(pre, ZrleBytes(block), post);
    HasSplit(b, off, Be32(|block|), block);
    U32Be32(b, off, |block|);
    assert b[off + 4..off + 4 + |block|] == block;
  }

  lemma ZrleDecodesAt(lib: Library, z: Zlib, r: Rectangle, choices: seq<seq<ZrleEncoder.Choice>>, img: seq<Pixel>,
                      block: Bytes, pre: Bytes, post: Bytes)
    requires r.encoding == ENC_ZRLE && Compresses(lib, z, r, choices, img, block)
    ensures DecodesAt(lib, z, ZrleSent(r, block, img, z), pre, post)
  {
    hide U32, Be32, ZrleEncoder.EncodeGrid, ZrleEncoder.LegalGrid, ZrleEncoder.Opaque, Zrle.TilePixelsOf;
    var e := ZrleEncoder.EncodeGrid(img, r.width, r.height, choices);
    BlockStands(pre, block, post);
    ZrleEncoder.DecodeEncode(img, r.width, r.height, choices, []);
    assert e + [] == e;
  }

  // ----- together

  /** A Raw update shows its image. */
  lemma RawShows(lib: Library, s: State, r: Rectangle, img: seq<Pixel>, rest: Bytes)
    requires s.phase == Running && Sendable(r)
    requires r.encoding == ENC_RAW && |img| == r.width * r.height && AllCarried(img, 4)
    requires s.buf == UpdateBytes(r, EncodePixels(img, 4)) + rest
    ensures Step(lib, s) == Next(s.(buf := rest), [RectDecoded(r, img)])
  {
    hide Decodes, Step, Safe, Sendable;
    RawDecodes(lib, s.z, r, img);
    UpdateShows(lib, s, RawSent(r, img, s.z), rest);
  }

  /** A CopyRect update shows a copy from its source position. */
  lemma CopyShows(lib: Library, s: State, r: Rectangle, srcX: nat, srcY: nat, rest: Bytes)
    requires s.phase == Running && Sendable(r)
    requires r.encoding == ENC_COPY_RECT && srcX < 0x1_0000 && srcY < 0x1_0000
    requires s.buf == UpdateBytes(r, RfbRect.EncodeCopy(srcX, srcY)) + rest
    ensures Step(lib, s) == Next(s.(buf := rest), [RectCopied(srcX, srcY, r)])
  {
    hide Decodes, Step, Safe, Sendable;
    CopyDecodes(lib, s.z, r, srcX, srcY);
    UpdateShows(lib, s, CopySent(r, srcX, srcY, s.z), rest);
  }

  /** An RRE update shows its subrectangles in order over its background. */
  lemma RreShows(lib: Library, s: State, r: Rectangle, bg: Pixel, subs: seq<Sub>, rest: Bytes)
    requires s.phase == Running && Sendable(r)
    requires r.encoding == ENC_RRE && Carries(4, bg) && RfbRect.LegalRreSubs(subs, 4) && |subs| < 0x1_0000_0000
    requires s.buf == UpdateBytes(r, RfbRect.EncodeRre(bg, subs, 4)) + rest
    ensures Step(lib, s) == Next(s.(buf := rest), [RectDecoded(r, ShadeImage(subs, bg, r.width, r.height))])
  {
    hide Decodes, Step, Safe, Sendable;
    RreDecodes(lib, s.z, r, bg, subs);
    UpdateShows(lib, s, RreSent(r, bg, subs, s.z), rest);
  }

  /** A Hextile update, encoded by any legal choice per tile, shows its image. */
  lemma HextileShows(lib: Library, s: State, r: Rectangle, codes: seq<seq<HextileEncoder.TileCode>>, img: seq<Pixel>,
                     rest: Bytes)
    requires s.phase == Running && Sendable(r) && r.encoding == ENC_HEXTILE
    requires HextileEncoder.LegalGrid(codes, r.width, r.height, 4)
    requires HextileEncoder.Depicts(codes, img, r.width, r.height)
    requires s.buf == UpdateBytes(r, HextileEncoder.EncodeGrid(codes, 4)) + rest
    ensures Step(lib, s) == Next(s.(buf := rest), [RectDecoded(r, img)])
  {
    hide Decodes, Step, Safe, Sendable;
    HextileDecodes(lib, s.z, r, codes, img);
    UpdateShows(lib, s, HextileSent(r, codes, img, s.z), rest);
  }

  /** A ZRLE update, whose block inflates to an encoding by any legal choice per tile, shows
      its image and leaves the inflate stream one block further on. */
  lemma ZrleShows(lib: Library, s: State, r: Rectangle, choices: seq<seq<ZrleEncoder.Choice>>, img: seq<Pixel>,
                  block: Bytes, rest: Bytes)
    requires s.phase == Running && Sendable(r)
    requires r.encoding == ENC_ZRLE && Compresses(lib, s.z, r, choices, img, block)
    requires s.buf == UpdateBytes(r, ZrleBytes(block)) + rest
    ensures Step(lib, s) == Next(s.(buf := rest, z := Zlib(s.z.fed + [block], false)), [RectDecoded(r, img)])
  {
    hide Decodes, Step, Safe, Sendable, Compresses;
    ZrleDecodes(lib, s.z, r, choices, img, block);
    UpdateShows(lib, s, ZrleSent(r, block, img, s.z), rest);
  }

  // ----- broken streams

  /** A block that does not inflate shows an empty image, takes its bytes, and breaks the
      stream: so does every block after it, whatever it is. */
  lemma BrokenStream(lib: Library, z: Zlib, r: Rectangle, block: Bytes)
    requires r.encoding == ENC_ZRLE && |block| < 0x1_0000_0000
    requires z.failed || (block != [] && lib.inflate(z.fed + [block]) == None)
    ensures var broken := if z.failed then z else Zlib(z.fed + [block], true);
            broken.failed && Decodes(lib, z, Sent(r, ZrleBytes(block), Image([]), broken))
  {
    var broken := if z.failed then z else Zlib(z.fed + [block], true);
    forall pre, post
      ensures DecodesAt(lib, z, Sent(r, ZrleBytes(block), Image([]), broken), pre, post)
    {
      BlockStands(pre, block, post);
    }
  }

  /** A block of no bytes shows an empty image and leaves the stream as it is. */
  lemma EmptyBlock(lib: Library, z: Zlib, r: Rectangle)
    requires r.encoding == ENC_ZRLE && !z.failed
    ensures Decodes(lib, z, Sent(r, ZrleBytes([]), Image([]), z))
  {
    hide Zrle.TilePixelsOf;
    if r.width > 0 && r.height > 0 {
      ZrleEncoder.UnusedSubencoding([], r.width, r.height);
    }
    forall pre, post
      ensures DecodesAt(lib, z, Sent(r, ZrleBytes([]), Image([]), z), pre, post)
    {
      BlockStands(pre, [], post);
    }
  }
}
