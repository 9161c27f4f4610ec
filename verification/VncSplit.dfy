/** How a byte stream is cut into reads does not matter to the VNC reader, as long
    as the handshake does not fail and no update repeats itself; and exactly which
    updates repeat themselves. */
module VncSplit {
  import opened Basics
  import opened Wire
  import opened Canvas
  import opened RfbPixels
  import RfbRect
  import Hextile
  import Zrle
  import opened VncConnection

  // ----- payloads depend on the bytes they consume

  lemma PayloadLocal(lib: Library, z: Zlib, r: Rectangle, b: Bytes, b': Bytes, off: nat)
    requires DecodedPayload(lib, z, r, b, off).d.complete
    requires SameUpTo(b, b', off + DecodedPayload(lib, z, r, b, off).d.consumed)
    ensures DecodedPayload(lib, z, r, b', off) == DecodedPayload(lib, z, r, b, off)
  {
    hide RfbRect.Decoded, Zrle.TilePixelsOf, Inflate;
    if r.encoding == ENC_ZRLE {
      var len := U32(b, off);
      assert b[off + 4..off + 4 + len] == b'[off + 4..off + 4 + len];
    } else {
      RfbRect.DecodedLocal(r, b, b', off, 4);
    }
  }

  lemma PayloadGrows(lib: Library, z: Zlib, r: Rectangle, b: Bytes, ext: Bytes, off: nat)
    requires off <= |b| && DecodedPayload(lib, z, r, b, off).d.complete
    ensures DecodedPayload(lib, z, r, b + ext, off) == DecodedPayload(lib, z, r, b, off)
  {
    PayloadInside(lib, z, r, b, off);
    PayloadLocal(lib, z, r, b, b + ext, off);
  }

  lemma PayloadInside(lib: Library, z: Zlib, r: Rectangle, b: Bytes, off: nat)
    requires off <= |b| && DecodedPayload(lib, z, r, b, off).d.complete
    ensures off + DecodedPayload(lib, z, r, b, off).d.consumed <= |b|
  {
    hide RfbRect.Decoded, RfbRect.EmptyHextile;
    if r.encoding != ENC_ZRLE {
      RfbRect.ConsumedInside(r, b, off, 4);
      if RfbRect.EmptyHextile(r) {
        RfbRect.EmptyHextileDone(r, b, off, 4);
      }
    }
  }

  /** More bytes change nothing about a completed payload, wherever it starts. */
  lemma PayloadOnLonger(lib: Library, z: Zlib, r: Rectangle, p: Bytes, b: Bytes, off: nat)
    requires p <= b && DecodedPayload(lib, z, r, p, off).d.complete
    ensures DecodedPayload(lib, z, r, b, off) == DecodedPayload(lib, z, r, p, off)
  {
    hide RfbRect.Decoded, RfbRect.EmptyHextile, DecodedZrle;
    if r.encoding != ENC_ZRLE {
      RfbRect.ConsumedInside(r, p, off, 4);
      if RfbRect.EmptyHextile(r) {
        RfbRect.EmptyHextileDone(r, p, off, 4);
        RfbRect.EmptyHextileDone(r, b, off, 4);
      } else {
        PayloadLocal(lib, z, r, p, b, off);
      }
    } else {
      ZrleInside(lib, z, r, p, off);
      PayloadLocal(lib, z, r, p, b, off);
    }
  }

  lemma ZrleInside(lib: Library, z: Zlib, r: Rectangle, b: Bytes, off: nat)
    requires DecodedZrle(lib, z, r, b, off).d.complete
    ensures off + DecodedZrle(lib, z, r, b, off).d.consumed <= |b|
  {
  }

  lemma {:induction false} RectsOnLonger(lib: Library, z: Zlib, rects: seq<Rectangle>, p: Bytes, b: Bytes, off: nat)
    requires p <= b && Rects(lib, z, rects, p, off).complete
    ensures Rects(lib, z, rects, b, off) == Rects(lib, z, rects, p, off)
    decreases |rects|
  {
    hide DecodedPayload, RectEvent;
    if rects != [] {
      var one := DecodedPayload(lib, z, rects[0], p, off + 12);
      PayloadOnLonger(lib, z, rects[0], p, b, off + 12);
      RectsOnLonger(lib, one.z, rects[1..], p, b, off + 12 + one.d.consumed);
    }
  }

  lemma {:induction false} RectsLocal(lib: Library, z: Zlib, rects: seq<Rectangle>, b: Bytes, b': Bytes, off: nat)
    requires Rects(lib, z, rects, b, off).complete
    requires SameUpTo(b, b', Rects(lib, z, rects, b, off).off)
    ensures Rects(lib, z, rects, b', off) == Rects(lib, z, rects, b, off)
    decreases |rects|
  {
    hide DecodedPayload, RectEvent;
    if rects != [] {
      var one := DecodedPayload(lib, z, rects[0], b, off + 12);
      RectsAdvance(lib, one.z, rects[1..], b, off + 12 + one.d.consumed);
      PayloadLocal(lib, z, rects[0], b, b', off + 12);
      RectsLocal(lib, one.z, rects[1..], b, b', off + 12 + one.d.consumed);
    }
  }

  lemma HeadersLocal(b: Bytes, ext: Bytes)
    requires ParseFramebufferUpdate(b).Some?
    ensures ParseFramebufferUpdate(b + ext) == ParseFramebufferUpdate(b)
  {
    var n := U16(b, 2);
    assert U16(b + ext, 2) == n;
    assert Headers(b + ext, n) == Headers(b, n);
  }

  // ----- one message, on a prefix of the buffer

  /** The steps a split cannot disturb: everything but an update of several
      rectangles that carry payload. */
  ghost predicate Safe(lib: Library, s: State) {
    s.phase == Running && ParseFramebufferUpdate(s.buf).Some? ==>
      var rects := ParseFramebufferUpdate(s.buf).value;
      |rects| <= 1 || Rects(lib, s.z, rects, s.buf, 4).off == 4 + 12 * |rects|
  }

  /** On a prefix of its buffer the reader waits or takes the same message. */
  ghost predicate SameOnPrefix(lib: Library, s: State, ext: Bytes) {
    var small, whole := Step(lib, s), Step(lib, Fed(s, ext));
    small.Wait? ||
    (small.Next? && whole == Next(Fed(small.s, ext), small.ev)) ||
    (small.Stop? && whole == Stop(Fed(small.s, ext), small.ev))
  }

  lemma VersionOnPrefix(lib: Library, s: State, ext: Bytes)
    requires s.phase == AwaitVersion
    ensures SameOnPrefix(lib, s, ext)
  {
    hide ParseVersion, FormatVersion;
    var b := s.buf + ext;
    if |s.buf| >= 12 {
      assert b[..12] == s.buf[..12] && b[12..] == s.buf[12..] + ext;
    }
  }

  lemma SecurityOnPrefix(lib: Library, s: State, ext: Bytes)
    requires s.phase == Security
    ensures SameOnPrefix(lib, s, ext)
  {
    var b := s.buf + ext;
    if s.buf != [] && |s.buf| >= 1 + s.buf[0] as int {
      var n: nat := s.buf[0];
      assert b[1..1 + n] == s.buf[1..1 + n] && b[1 + n..] == s.buf[1 + n..] + ext;
    }
  }

  lemma ResultOnPrefix(lib: Library, s: State, ext: Bytes)
    requires s.phase == SecurityResult
    ensures SameOnPrefix(lib, s, ext)
  {
    var b := s.buf + ext;
    if |s.buf| >= 4 {
      assert U32(b, 0) == U32(s.buf, 0) && b[4..] == s.buf[4..] + ext;
    }
  }

  lemma InitOnPrefix(lib: Library, s: State, ext: Bytes)
    requires s.phase == AwaitInit
    ensures SameOnPrefix(lib, s, ext)
  {
    hide ParseServerInit, Greeting;
    var b := s.buf + ext;
    if |s.buf| >= 24 {
      var len := 24 + U32(s.buf, 20);
      assert U32(b, 20) == U32(s.buf, 20);
      if |s.buf| >= len {
        assert b[..len] == s.buf[..len] && b[len..] == s.buf[len..] + ext;
      }
    }
  }

  lemma HandshakeOnPrefix(lib: Library, s: State, ext: Bytes)
    requires s.phase != Running
    ensures SameOnPrefix(lib, s, ext)
  {
    match s.phase
    case AwaitVersion => VersionOnPrefix(lib, s, ext);
    case Security => SecurityOnPrefix(lib, s, ext);
    case SecurityResult => ResultOnPrefix(lib, s, ext);
    case AwaitInit => InitOnPrefix(lib, s, ext);
  }

  lemma OneRect(lib: Library, z: Zlib, rects: seq<Rectangle>, b: Bytes)
    requires |rects| == 1
    ensures var one := DecodedPayload(lib, z, rects[0], b, 16);
            Rects(lib, z, rects, b, 4) ==
            if one.d.complete then Progress(true, 16 + one.d.consumed, one.z, [RectEvent(rects[0], one.d)])
            else Progress(false, 16, one.z, [])
  {
    hide DecodedPayload, RectEvent;
    assert rects[1..] == [];
  }

  lemma UpdateOnPrefix(lib: Library, s: State, ext: Bytes)
    requires s.phase == Running && Step(lib, Fed(s, ext)).Next? && Safe(lib, Fed(s, ext))
    ensures SameOnPrefix(lib, s, ext)
  {
    hide DecodedPayload, RectEvent;
    var b := s.buf + ext;
    if s.buf != [] && s.buf[0] == 0 && ParseFramebufferUpdate(s.buf).Some? {
      HeadersLocal(s.buf, ext);
      var rects := ParseFramebufferUpdate(s.buf).value;
      var got := Rects(lib, s.z, rects, b, 4);
      if got.off <= |s.buf| {
        RectsLocal(lib, s.z, rects, b, s.buf, 4);
        assert b[got.off..] == s.buf[got.off..] + ext;
      } else {
        assert |rects| == 1;
        var one := DecodedPayload(lib, s.z, rects[0], s.buf, 16);
        OneRect(lib, s.z, rects, b);
        OneRect(lib, s.z, rects, s.buf);
        if one.d.complete {
          PayloadGrows(lib, s.z, rects[0], s.buf, ext, 16);
          PayloadInside(lib, s.z, rects[0], s.buf, 16);
        }
      }
    }
  }

  lemma WaitOnPrefix(lib: Library, s: State, ext: Bytes)
    requires Step(lib, Fed(s, ext)).Wait?
    ensures Step(lib, s).Wait?
  {
    if s.phase != Running {
      HandshakeOnPrefix(lib, s, ext);
    } else if s.buf != [] && s.buf[0] == 0 && ParseFramebufferUpdate(s.buf).Some? {
      hide DecodedPayload, RectEvent;
      HeadersLocal(s.buf, ext);
      var rects := ParseFramebufferUpdate(s.buf).value;
      var one := DecodedPayload(lib, s.z, rects[0], s.buf, 16);
      if one.d.complete {
        PayloadGrows(lib, s.z, rects[0], s.buf, ext, 16);
      }
    }
  }

  // ----- whole streams

  lemma StoppedInResult(lib: Library, s: State)
    requires s.phase == SecurityResult && Step(lib, s).Stop?
    ensures Step(lib, s).s.phase == SecurityResult
    ensures forall t: State | t.phase == SecurityResult && |t.buf| < 4 :: Step(lib, t).Wait?
  {
  }

  /** The reader would still wait without the last byte of its buffer. */
  ghost predicate LastByteNeeded(lib: Library, s: State) {
    s.buf != [] && Step(lib, s.(buf := s.buf[..|s.buf| - 1])).Wait?
  }

  /** A run that a split cannot disturb. Every message is safe, or needs the last byte of
      the buffer; and a read that ends in a failed handshake or an incomplete update needs
      its last byte for that, or is a failed result with no further result to misread. */
  ghost predicate Clean(lib: Library, s: State)
    decreases |s.buf|
  {
    match Step(lib, s)
    case Wait => true
    case Stop(s', _) => LastByteNeeded(lib, s) || (s.phase == SecurityResult && |s'.buf| < 4)
    case Next(s', _) => StepConsumes(lib, s); LastByteNeeded(lib, s) || (Safe(lib, s) && Clean(lib, s'))
  }

  /** Whether the last byte is needed, phase by phase: a version of twelve bytes, one byte
      of security, one word of result, and no first rectangle done before the last byte. */
  lemma LastByteNeededIs(lib: Library, s: State)
    requires Step(lib, s).Stop?
    ensures s.phase != AwaitInit && s.buf != []
    ensures s.phase == AwaitVersion ==> (LastByteNeeded(lib, s) <==> |s.buf| == 12)
    ensures s.phase == Security ==> (LastByteNeeded(lib, s) <==> |s.buf| == 1)
    ensures s.phase == SecurityResult ==> (LastByteNeeded(lib, s) <==> |s.buf| == 4)
    ensures s.phase == Running ==>
              var b := s.buf[..|s.buf| - 1];
              (LastByteNeeded(lib, s) <==>
               ParseFramebufferUpdate(b).Some? ==>
                 !DecodedPayload(lib, s.z, ParseFramebufferUpdate(b).value[0], b, 16).d.complete)
  {
    hide DecodedPayload, RectEvent;
    if s.phase == Running {
      var b := s.buf[..|s.buf| - 1];
      if ParseFramebufferUpdate(b).Some? {
        HeadersLocal(b, s.buf[|s.buf| - 1..]);
        assert b + s.buf[|s.buf| - 1..] == s.buf;
      }
    }
  }

  /** Reading a first part and then the rest, which is not empty, is reading it all. */
  lemma {:induction false} ReadInTwo(lib: Library, s: State, ext: Bytes)
    requires ext != [] && Clean(lib, Fed(s, ext))
    ensures Clean(lib, Fed(Run(lib, s).s, ext))
    ensures Run(lib, Fed(s, ext)) == After(Run(lib, s).ev, Run(lib, Fed(Run(lib, s).s, ext)))
    decreases |s.buf|
  {
    hide Step, Safe;
    var small, whole := Step(lib, s), Step(lib, Fed(s, ext));
    RunStep(lib, s, []);
    RunStep(lib, Fed(s, ext), []);
    AfterNone(Run(lib, s), []);
    AfterNone(Run(lib, Fed(s, ext)), []);
    if whole.Wait? {
      WaitOnPrefix(lib, s, ext);
    } else if LastByteNeeded(lib, Fed(s, ext)) {
      WaitBeforeLast(lib, s, ext);
    } else if s.phase != Running {
      HandshakeOnPrefix(lib, s, ext);
    } else {
      UpdateOnPrefix(lib, s, ext);
    }
    if small.Wait? {
      AfterNone(Run(lib, Fed(s, ext)), []);
    } else if small.Next? {
      StepConsumes(lib, s);
      ReadInTwo(lib, small.s, ext);
      AfterAfter(small.ev, Run(lib, small.s).ev, Run(lib, Fed(Run(lib, small.s).s, ext)));
      AfterNone(Run(lib, whole.s), whole.ev);
      AfterNone(Run(lib, small.s), small.ev);
    } else {
      StoppedInResult(lib, s);
      AfterNone(Result(small.s, small.ev), small.ev);
      assert small.ev + [] == small.ev;
    }
  }

  /** A part of a clean stream is clean. */
  lemma {:induction false} CleanPrefix(lib: Library, s: State, ext: Bytes)
    requires Clean(lib, Fed(s, ext))
    ensures Clean(lib, s)
    decreases |s.buf|
  {
    hide Step, Safe, LastByteNeeded;
    var small, whole := Step(lib, s), Step(lib, Fed(s, ext));
    if ext == [] {
      assert Fed(s, ext) == s;
    } else if whole.Wait? {
      WaitOnPrefix(lib, s, ext);
    } else if LastByteNeeded(lib, Fed(s, ext)) {
      WaitBeforeLast(lib, s, ext);
    } else {
      if s.phase != Running {
        HandshakeOnPrefix(lib, s, ext);
      } else {
        UpdateOnPrefix(lib, s, ext);
      }
      if small.Next? {
        StepConsumes(lib, s);
        CleanPrefix(lib, small.s, ext);
        SafePrefix(lib, s, ext);
      }
    }
  }

  /** A message that is safe is so on a part of the buffer that holds it. */
  lemma SafePrefix(lib: Library, s: State, ext: Bytes)
    requires Safe(lib, Fed(s, ext)) && Step(lib, s).Next?
    ensures Safe(lib, s)
  {
    hide DecodedPayload, RectEvent;
    if s.phase == Running {
      HeadersLocal(s.buf, ext);
      RectsOnLonger(lib, s.z, ParseFramebufferUpdate(s.buf).value, s.buf, s.buf + ext, 4);
    }
  }

  lemma WaitBeforeLast(lib: Library, s: State, ext: Bytes)
    requires ext != [] && LastByteNeeded(lib, Fed(s, ext))
    ensures Step(lib, s).Wait?
  {
    hide Step;
    var most := ext[..|ext| - 1];
    var b := s.buf + ext;
    assert b[..|b| - 1] == s.buf + most;
    WaitOnPrefix(lib, s, most);
  }

  function Joined(chunks: seq<Bytes>): Bytes {
    if chunks == [] then [] else chunks[0] + Joined(chunks[1..])
  }

  /** A read happens when something has arrived. */
  ghost predicate Arriving(chunks: seq<Bytes>) {
    forall i | 0 <= i < |chunks| :: chunks[i] != []
  }

  /** The reads of a stream that arrives in chunks. */
  function Reads(lib: Library, s: State, chunks: seq<Bytes>): Result
    requires chunks != []
    decreases |chunks|
  {
    var first := Read(lib, s, chunks[0]);
    if |chunks| == 1 then first else After(first.ev, Reads(lib, first.s, chunks[1..]))
  }

  /** However a clean stream is split into reads, the reader ends in the same phase
      and buffer, having written and emitted the same, as in one single read. */
  lemma {:induction false} SplitDoesNotMatter(lib: Library, s: State, chunks: seq<Bytes>)
    requires chunks != [] && Arriving(chunks) && Clean(lib, Fed(s, Joined(chunks)))
    ensures Reads(lib, s, chunks) == Read(lib, s, Joined(chunks))
    decreases |chunks|
  {
    hide Clean, Run;
    var data, rest := chunks[0], Joined(chunks[1..]);
    if |chunks| == 1 {
      assert data + [] == data;
    } else {
      assert rest != [] by { assert chunks[1..][0] == chunks[1] != []; }
      assert Fed(Fed(s, data), rest) == Fed(s, Joined(chunks)) by {
        assert s.buf + data + rest == s.buf + (data + rest);
      }
      ReadInTwo(lib, Fed(s, data), rest);
      SplitDoesNotMatter(lib, Read(lib, s, data).s, chunks[1..]);
    }
  }

  // ----- the exact condition

  /** No update of several rectangles has an empty Hextile rectangle. */
  ghost predicate Solid(lib: Library, s: State)
    decreases |s.buf|
  {
    (s.phase == Running && ParseFramebufferUpdate(s.buf).Some? ==>
       var rects := ParseFramebufferUpdate(s.buf).value;
       |rects| >= 2 ==> forall i | 0 <= i < |rects| :: !RfbRect.EmptyHextile(rects[i])) &&
    (Step(lib, s).Next? ==> (StepConsumes(lib, s); Solid(lib, Step(lib, s).s)))
  }

  /** The same event, but for the pixels of a rectangle. */
  predicate Alike(a: Event, b: Event) {
    a == b || (a.RectDecoded? && b.RectDecoded? && a.r == b.r)
  }

  ghost predicate AllAlike(a: seq<Event>, b: seq<Event>) {
    |a| == |b| && forall i | 0 <= i < |a| :: Alike(a[i], b[i])
  }

  /** `b` starts with events like those of `a`. */
  ghost predicate StartsAlike(a: seq<Event>, b: seq<Event>) {
    |a| <= |b| && AllAlike(a, b[..|a|])
  }

  lemma AlikeConcat(a: seq<Event>, a': seq<Event>, b: seq<Event>, b': seq<Event>)
    requires AllAlike(a, a')
    ensures AllAlike(b, b') ==> AllAlike(a + b, a' + b')
    ensures StartsAlike(b, b') ==> StartsAlike(a + b, a' + b')
    ensures StartsAlike(a, a' + b')
  {
    assert (a' + b')[..|a|] == a';
    if StartsAlike(b, b') {
      assert (a' + b')[..|a + b|] == a' + b'[..|b|];
    }
  }

  lemma PayloadAnyZ(lib: Library, z: Zlib, z': Zlib, r: Rectangle, b: Bytes, off: nat)
    ensures var d, d' := DecodedPayload(lib, z, r, b, off).d, DecodedPayload(lib, z', r, b, off).d;
            d.complete == d'.complete && d.consumed == d'.consumed && Alike(RectEvent(r, d), RectEvent(r, d'))
  {
  }

  /** What the inflate stream holds changes pixels, not how far a message reaches. */
  lemma {:induction false} RectsAnyZ(lib: Library, z: Zlib, z': Zlib, rects: seq<Rectangle>, b: Bytes, off: nat)
    ensures var p, p' := Rects(lib, z, rects, b, off), Rects(lib, z', rects, b, off);
            p.complete == p'.complete && p.off == p'.off && AllAlike(p.ev, p'.ev)
    decreases |rects|
  {
    hide DecodedPayload, RectEvent;
    if rects != [] {
      PayloadAnyZ(lib, z, z', rects[0], b, off + 12);
      var one, one' := DecodedPayload(lib, z, rects[0], b, off + 12), DecodedPayload(lib, z', rects[0], b, off + 12);
      var next := off + 12 + one.d.consumed;
      RectsAnyZ(lib, one.z, one'.z, rects[1..], b, next);
      AlikeConcat([RectEvent(rects[0], one.d)], [RectEvent(rects[0], one'.d)],
                  Rects(lib, one.z, rects[1..], b, next).ev, Rects(lib, one'.z, rects[1..], b, next).ev);
    }
  }

  lemma StepAnyZ(lib: Library, s: State, z: Zlib)
    ensures var a, b := Step(lib, s), Step(lib, s.(z := z));
            a.Wait? == b.Wait? && a.Next? == b.Next? &&
            (!a.Wait? ==> AllAlike(a.ev, b.ev) && b.s == a.s.(z := b.s.z))
  {
    hide Rects, ParseFramebufferUpdate, ParseVersion, FormatVersion, ParseServerInit, Greeting, AllAlike;
    if s.phase != Running {
      if !Step(lib, s).Wait? {
        AlikeSelf(Step(lib, s).ev);
      }
    } else if ParseFramebufferUpdate(s.buf).Some? {
      RectsAnyZ(lib, s.z, z, ParseFramebufferUpdate(s.buf).value, s.buf, 4);
      NothingAlike(Rects(lib, s.z, ParseFramebufferUpdate(s.buf).value, s.buf, 4).ev);
    }
  }

  lemma NothingAlike(a: seq<Event>)
    ensures forall b :: AllAlike(a, b) ==> (a == [] <==> b == [])
  {
  }

  lemma {:induction false} RunAnyZ(lib: Library, s: State, z: Zlib)
    ensures AllAlike(Run(lib, s).ev, Run(lib, s.(z := z)).ev)
    decreases |s.buf|
  {
    hide Step;
    StepAnyZ(lib, s, z);
    var a, b := Step(lib, s), Step(lib, s.(z := z));
    if a.Next? {
      StepConsumes(lib, s);
      RunAnyZ(lib, a.s, b.s.z);
      AlikeConcat(a.ev, b.ev, Run(lib, a.s).ev, Run(lib, b.s).ev);
    }
  }

  /** Reading the first k bytes of a buffer, and then the others. */
  function FirstRead(lib: Library, s: State, k: nat): Result
    requires k <= |s.buf|
  {
    Run(lib, s.(buf := s.buf[..k]))
  }

  function SecondRead(lib: Library, s: State, k: nat): Result
    requires k <= |s.buf|
  {
    Run(lib, Fed(FirstRead(lib, s, k).s, s.buf[k..]))
  }

  function CutEvents(lib: Library, s: State, k: nat): nat
    requires k <= |s.buf|
  {
    |FirstRead(lib, s, k).ev| + |SecondRead(lib, s, k).ev|
  }

  /** Cut at k, the second read does all a single read does, and that starts with what the
      first read has already done. */
  ghost predicate Repeats(lib: Library, s: State, k: nat) {
    0 < k < |s.buf| &&
    var first, second := FirstRead(lib, s, k).ev, SecondRead(lib, s, k).ev;
    first != [] && StartsAlike(first, second) && AllAlike(Run(lib, s).ev, second)
  }

  lemma RepeatsMore(lib: Library, s: State, k: nat)
    requires Repeats(lib, s, k)
    ensures CutEvents(lib, s, k) > |Run(lib, s).ev|
  {
  }

  /** What a prefix of the bytes decodes to is decoded again with more bytes. */
  lemma {:induction false} RectsRepeat(lib: Library, z: Zlib, z': Zlib, rects: seq<Rectangle>, p: Bytes, b: Bytes,
                                       off: nat)
    requires p <= b
    ensures StartsAlike(Rects(lib, z, rects, p, off).ev, Rects(lib, z', rects, b, off).ev)
    decreases |rects|
  {
    hide DecodedPayload, RectEvent, Alike;
    if rects != [] {
      var one := DecodedPayload(lib, z, rects[0], p, off + 12);
      if one.d.complete {
        PayloadOnLonger(lib, z, rects[0], p, b, off + 12);
        PayloadAnyZ(lib, z, z', rects[0], b, off + 12);
        var one' := DecodedPayload(lib, z', rects[0], b, off + 12);
        var next := off + 12 + one.d.consumed;
        RectsRepeat(lib, one.z, one'.z, rects[1..], p, b, next);
        AlikeConcat([RectEvent(rects[0], one.d)], [RectEvent(rects[0], one'.d)],
                    Rects(lib, one.z, rects[1..], p, next).ev, Rects(lib, one'.z, rects[1..], b, next).ev);
      }
    }
  }

  /** The state with the first k bytes of its buffer. */
  function Upto(s: State, k: nat): State
    requires k <= |s.buf|
  {
    s.(buf := s.buf[..k])
  }

  /** When a part of the buffer already stops the reader, it stops on it with the events
      that the whole buffer begins with, and leaves it in the buffer. */
  lemma StopEarlier(lib: Library, s: State, k: nat)
    requires k <= |s.buf| && Step(lib, Upto(s, k)).Stop? && s.phase != SecurityResult
    ensures k > 0
    ensures var out := Step(lib, Upto(s, k));
            var again := Step(lib, s.(z := out.s.z));
            out.ev != [] && out.s == Upto(s, k).(z := out.s.z) && !again.Wait? && StartsAlike(out.ev, again.ev)
  {
    hide Rects, ParseVersion, Alike, AllAlike;
    var p, out := Upto(s, k), Step(lib, Upto(s, k));
    if s.phase == Running {
      UpdateStopsEarlier(lib, s, k);
    } else {
      if s.phase == AwaitVersion {
        assert p.buf[..12] == s.buf[..12];
      }
      AlikeSelf(out.ev);
      assert out.ev[..1] == out.ev;
    }
  }

  lemma UpdateStopsEarlier(lib: Library, s: State, k: nat)
    requires k <= |s.buf| && s.phase == Running && Step(lib, Upto(s, k)).Stop?
    ensures k > 0
    ensures var out := Step(lib, Upto(s, k));
            var again := Step(lib, s.(z := out.s.z));
            out.ev != [] && out.s == Upto(s, k).(z := out.s.z) && !again.Wait? && StartsAlike(out.ev, again.ev)
  {
    hide Rects, Alike, AllAlike;
    var p, out := Upto(s, k), Step(lib, Upto(s, k));
    assert p.buf + s.buf[k..] == s.buf;
    HeadersLocal(p.buf, s.buf[k..]);
    RectsRepeat(lib, s.z, out.s.z, ParseFramebufferUpdate(s.buf).value, p.buf, s.buf, 4);
  }

  /** When a proper part of the buffer already stops the reader, the read that brings it
      reports what stopped it, and the read that brings the others does all a single read
      does, starting with a report of the same. */
  lemma StopRepeats(lib: Library, s: State, k: nat)
    requires k < |s.buf| && Step(lib, Upto(s, k)).Stop? && s.phase != SecurityResult
    ensures Repeats(lib, s, k)
  {
    hide Step, Alike, AllAlike;
    StopEarlier(lib, s, k);
    var out := Step(lib, Upto(s, k));
    var again := s.(z := out.s.z);
    assert Upto(s, k).buf + s.buf[k..] == s.buf;
    assert Fed(out.s, s.buf[k..]) == again;
    RunAnyZ(lib, s, out.s.z);
    if Step(lib, again).Next? {
      StartsLonger(out.ev, Step(lib, again).ev, Run(lib, Step(lib, again).s).ev);
    }
  }

  lemma AlikeSelf(a: seq<Event>)
    ensures AllAlike(a, a)
  {
  }

  /** A read that stops, and would not wait without its last byte, stops there too. */
  lemma StopBeforeLast(lib: Library, s: State)
    requires Step(lib, s).Stop? && s.phase != SecurityResult && !LastByteNeeded(lib, s)
    ensures |s.buf| >= 2 && Step(lib, Upto(s, |s.buf| - 1)).Stop?
  {
    hide Rects, ParseVersion;
    LastByteNeededIs(lib, s);
    var k := |s.buf| - 1;
    var p := Upto(s, k);
    if s.phase == Running {
      assert p.buf + s.buf[k..] == s.buf;
      HeadersLocal(p.buf, s.buf[k..]);
      var rects := ParseFramebufferUpdate(s.buf).value;
      if Rects(lib, s.z, rects, p.buf, 4).complete {
        RectsOnLonger(lib, s.z, rects, p.buf, s.buf, 4);
      }
    } else if s.phase == AwaitVersion {
      assert p.buf[..12] == s.buf[..12];
    }
  }

  /** After a failed result the next read takes the word that follows for another result. */
  lemma ResultMisread(lib: Library, s: State)
    requires s.phase == SecurityResult && Step(lib, s).Stop? && |Step(lib, s).s.buf| >= 4
    ensures FirstRead(lib, s, 4).ev == Run(lib, s).ev
    ensures SecondRead(lib, s, 4) == Run(lib, Step(lib, s).s) && SecondRead(lib, s, 4).ev != []
  {
    var p, t := s.(buf := s.buf[..4]), Step(lib, s).s;
    assert p.buf[4..] == [];
    assert U32(p.buf, 0) == U32(s.buf, 0);
    assert Step(lib, p) == Stop(p.(buf := []), Step(lib, s).ev);
    assert Fed(p.(buf := []), s.buf[4..]) == t by { assert [] + s.buf[4..] == s.buf[4..]; }
    assert Step(lib, t).ev != [];
    hide Step;
    assert Run(lib, t).ev != [];
  }

  lemma {:induction false} RectsSolid(lib: Library, z: Zlib, rects: seq<Rectangle>, b: Bytes, off: nat)
    requires rects != [] && Rects(lib, z, rects, b, off).complete
    requires forall i | 0 <= i < |rects| :: !RfbRect.EmptyHextile(rects[i])
    ensures Rects(lib, z, rects, b, off).off <= |b|
    decreases |rects|
  {
    hide DecodedPayload, RectEvent, RfbRect.EmptyHextile;
    var one := DecodedPayload(lib, z, rects[0], b, off + 12);
    if |rects| == 1 {
      assert rects[1..] == [];
      PayloadSolid(lib, z, rects[0], b, off + 12);
    } else {
      RectsSolid(lib, one.z, rects[1..], b, off + 12 + one.d.consumed);
    }
  }

  lemma PayloadSolid(lib: Library, z: Zlib, r: Rectangle, b: Bytes, off: nat)
    requires DecodedPayload(lib, z, r, b, off).d.complete && !RfbRect.EmptyHextile(r)
    ensures off + DecodedPayload(lib, z, r, b, off).d.consumed <= |b|
  {
    hide RfbRect.Decoded;
    if r.encoding != ENC_ZRLE {
      RfbRect.ConsumedInside(r, b, off, 4);
    }
  }

  lemma HeadersOnPrefix(b: Bytes, k: nat)
    requires ParseFramebufferUpdate(b).Some? && 4 + 12 * U16(b, 2) <= k <= |b|
    ensures ParseFramebufferUpdate(b[..k]) == ParseFramebufferUpdate(b)
  {
    assert U16(b[..k], 2) == U16(b, 2);
    HeadersLocal(b[..k], b[k..]);
    assert b[..k] + b[k..] == b;
  }

  lemma StartsLonger(a: seq<Event>, b: seq<Event>, c: seq<Event>)
    requires StartsAlike(a, b)
    ensures StartsAlike(a, b + c)
  {
    assert (b + c)[..|a|] == b[..|a|];
  }

  lemma EmptyWaits(lib: Library, s: State)
    requires s.buf == []
    ensures Step(lib, s).Wait?
  {
  }

  /** The least part of the buffer on which the reader does not wait. */
  lemma FirstTaken(lib: Library, s: State) returns (k: nat)
    requires !Step(lib, s).Wait?
    ensures 0 < k <= |s.buf| && !Step(lib, Upto(s, k)).Wait? && Step(lib, Upto(s, k - 1)).Wait?
  {
    hide Step;
    k := |s.buf|;
    assert Upto(s, k) == s;
    EmptyWaits(lib, Upto(s, 0));
    while !Step(lib, Upto(s, k - 1)).Wait?
      invariant 0 < k <= |s.buf| && !Step(lib, Upto(s, k)).Wait?
      decreases k
    {
      k := k - 1;
    }
  }

  /** The first part of an unsafe update that is taken at all, is taken before the offsets
      it is said to reach. */
  lemma FirstTakenShort(lib: Library, s: State, k: nat)
    requires s.phase == Running && Step(lib, s).Next? && !Safe(lib, s)
    requires 0 < k <= |s.buf| && Step(lib, Upto(s, k)).Next? && Step(lib, Upto(s, k - 1)).Wait?
    ensures ParseFramebufferUpdate(s.buf[..k]) == ParseFramebufferUpdate(s.buf) != None
    ensures var rects := ParseFramebufferUpdate(s.buf).value;
            var got := Rects(lib, s.z, rects, s.buf, 4);
            Rects(lib, s.z, rects, s.buf[..k], 4) == got && k < got.off
  {
    hide DecodedPayload, RectEvent;
    var p := s.buf[..k];
    assert p + s.buf[k..] == s.buf;
    HeadersLocal(p, s.buf[k..]);
    var rects := ParseFramebufferUpdate(s.buf).value;
    RectsOnLonger(lib, s.z, rects, p, s.buf, 4);
    var got := Rects(lib, s.z, rects, s.buf, 4);
    if got.off <= k {
      hide Step, Safe;
      TakenBeforeEnd(lib, s);
      WaitsBefore(lib, s, got.off - 1, k - 1);
    }
  }

  lemma WaitsBefore(lib: Library, s: State, j: nat, k: nat)
    requires j <= k <= |s.buf| && Step(lib, Upto(s, k)).Wait?
    ensures Step(lib, Upto(s, j)).Wait?
  {
    hide Step;
    assert s.buf[..j] + s.buf[j..k] == s.buf[..k];
    WaitOnPrefix(lib, Upto(s, j), s.buf[j..k]);
  }

  /** An update of several rectangles with payload is not waited for up to its end. */
  lemma TakenBeforeEnd(lib: Library, s: State)
    requires s.phase == Running && Step(lib, s).Next? && !Safe(lib, s)
    requires var rects := ParseFramebufferUpdate(s.buf).value;
             Rects(lib, s.z, rects, s.buf, 4).off <= |s.buf|
    ensures var off := Rects(lib, s.z, ParseFramebufferUpdate(s.buf).value, s.buf, 4).off;
            off > 0 && !Step(lib, Upto(s, off - 1)).Wait?
  {
    hide DecodedPayload, RectEvent;
    var rects := ParseFramebufferUpdate(s.buf).value;
    RectsSteps(lib, s.z, rects, s.buf, 4);
    var k := Rects(lib, s.z, rects, s.buf, 4).off - 1;
    HeadersOnPrefix(s.buf, k);
    FirstRectDone(lib, s.z, rects, s.buf, s.buf[..k]);
  }

  /** Cut at k, the first m bytes read in two give something else than read at once. */
  ghost predicate Differs(lib: Library, s: State, m: nat, k: nat) {
    0 < k < m <= |s.buf| &&
    After(FirstRead(lib, Upto(s, m), k).ev, SecondRead(lib, Upto(s, m), k)) != Run(lib, Upto(s, m))
  }

  lemma MoreDiffers(lib: Library, s: State, k: nat)
    requires 0 < k < |s.buf| && CutEvents(lib, s, k) > |Run(lib, s).ev|
    ensures Differs(lib, s, |s.buf|, k)
  {
    hide Run;
    assert Upto(s, |s.buf|) == s;
  }

  /** An update of several rectangles with payload, some byte of which is not needed, has a
      cut that shows: either its first rectangles are emitted twice, or, when it ends in
      empty Hextile rectangles past the buffer's end, a byte stays behind that a single
      read would have removed. */
  lemma UnsafeCut(lib: Library, s: State) returns (m: nat, k: nat)
    requires s.phase == Running && Step(lib, s).Next? && !Safe(lib, s) && !LastByteNeeded(lib, s)
    ensures 0 < k < m <= |s.buf| && Differs(lib, s, m, k)
    ensures Solid(lib, s) ==> m == |s.buf| && Repeats(lib, s, k)
  {
    hide Rects, Safe, Alike, AllAlike, Solid;
    k := FirstTaken(lib, s);
    if Step(lib, Upto(s, k)).Stop? {
      StopRepeats(lib, s, k);
      m := |s.buf|;
      RepeatsMore(lib, s, k);
      MoreDiffers(lib, s, k);
    } else {
      FirstTakenShort(lib, s, k);
      NotSolid(lib, s, k);
      m := k + 1;
      Leftover(lib, s, k);
    }
  }

  lemma NotSolid(lib: Library, s: State, k: nat)
    requires s.phase == Running && !Safe(lib, s) && k <= |s.buf|
    requires ParseFramebufferUpdate(s.buf).Some?
    requires var rects := ParseFramebufferUpdate(s.buf).value;
             Rects(lib, s.z, rects, s.buf[..k], 4).complete && k < Rects(lib, s.z, rects, s.buf[..k], 4).off
    ensures !Solid(lib, s)
  {
    hide DecodedPayload, RectEvent, RfbRect.EmptyHextile;
    if Solid(lib, s) {
      RectsSolid(lib, s.z, ParseFramebufferUpdate(s.buf).value, s.buf[..k], 4);
    }
  }

  /** The byte after an update taken past the buffer's end stays behind. */
  lemma Leftover(lib: Library, s: State, k: nat)
    requires s.phase == Running && 0 < k < |s.buf| && Step(lib, Upto(s, k)).Next?
    requires ParseFramebufferUpdate(s.buf[..k]) == ParseFramebufferUpdate(s.buf) != None
    requires var rects := ParseFramebufferUpdate(s.buf).value;
             var got := Rects(lib, s.z, rects, s.buf, 4);
             Rects(lib, s.z, rects, s.buf[..k], 4) == got && k < got.off
    ensures Differs(lib, s, k + 1, k)
  {
    hide Rects, RectEvent;
    var rects, m := ParseFramebufferUpdate(s.buf).value, k + 1;
    var t, p := Upto(s, m), Upto(s, k);
    var out := Step(lib, p);
    assert p.buf + [s.buf[k]] == t.buf && t.buf[..k] == p.buf && t.buf[k..] == [s.buf[k]];
    HeadersLocal(p.buf, [s.buf[k]]);
    RectsOnLonger(lib, s.z, rects, p.buf, t.buf, 4);
    assert Step(lib, t) == Next(out.s, out.ev) && out.s.buf == [];
    assert Run(lib, out.s) == Result(out.s, []);
    var left := Fed(out.s, [s.buf[k]]);
    assert left.buf == [s.buf[k]] && Step(lib, left).Wait?;
    assert SecondRead(lib, t, k) == Result(left, []);
    assert Run(lib, t).s == out.s;
  }

  lemma {:induction false} RectsSteps(lib: Library, z: Zlib, rects: seq<Rectangle>, b: Bytes, off: nat)
    requires Rects(lib, z, rects, b, off).complete
    ensures Rects(lib, z, rects, b, off).off >= off + 12 * |rects|
    decreases |rects|
  {
    hide DecodedPayload, RectEvent;
    if rects != [] {
      var one := DecodedPayload(lib, z, rects[0], b, off + 12);
      RectsSteps(lib, one.z, rects[1..], b, off + 12 + one.d.consumed);
    }
  }

  lemma FirstRectDone(lib: Library, z: Zlib, rects: seq<Rectangle>, b: Bytes, p: Bytes)
    requires |rects| >= 2 && Rects(lib, z, rects, b, 4).complete && Rects(lib, z, rects, b, 4).off >= 1
    requires SameUpTo(b, p, Rects(lib, z, rects, b, 4).off - 1)
    ensures Rects(lib, z, rects, p, 4).ev != []
  {
    hide DecodedPayload, RectEvent;
    var one := DecodedPayload(lib, z, rects[0], b, 16);
    RectsSteps(lib, one.z, rects[1..], b, 16 + one.d.consumed);
    PayloadLocal(lib, z, rects[0], b, p, 16);
  }

  /** How much of the buffer the next message takes. */
  lemma NextBuffer(lib: Library, s: State) returns (c: nat)
    requires Step(lib, s).Next? && Safe(lib, s)
    ensures c <= |s.buf| && Step(lib, s).s.buf == s.buf[c..]
    ensures forall k | c <= k <= |s.buf| :: !Step(lib, s.(buf := s.buf[..k])).Wait?
  {
    c := |s.buf| - |Step(lib, s).s.buf|;
    if s.phase == Running {
      c := UpdateTakes(lib, s);
    } else {
      HandshakeTakes(lib, s);
    }
  }

  lemma HandshakeTakes(lib: Library, s: State)
    requires Step(lib, s).Next? && s.phase != Running
    ensures var c := |s.buf| - |Step(lib, s).s.buf|;
            0 <= c && Step(lib, s).s.buf == s.buf[c..] &&
            forall k | c <= k <= |s.buf| :: !Step(lib, s.(buf := s.buf[..k])).Wait?
  {
    hide ParseVersion, FormatVersion, ParseServerInit, Greeting;
    var c := |s.buf| - |Step(lib, s).s.buf|;
    forall k | c <= k <= |s.buf|
      ensures !Step(lib, s.(buf := s.buf[..k])).Wait?
    {
      if s.phase == AwaitInit {
        assert U32(s.buf[..k], 20) == U32(s.buf, 20);
      }
    }
  }

  lemma UpdateTakes(lib: Library, s: State) returns (c: nat)
    requires s.phase == Running && Step(lib, s).Next? && Safe(lib, s)
    ensures c <= |s.buf| && Step(lib, s).s.buf == s.buf[c..]
    ensures forall k | c <= k <= |s.buf| :: !Step(lib, s.(buf := s.buf[..k])).Wait?
  {
    hide DecodedPayload, RectEvent;
    var rects := ParseFramebufferUpdate(s.buf).value;
    var got := Rects(lib, s.z, rects, s.buf, 4);
    c := got.off;
    if |rects| == 1 {
      OneRect(lib, s.z, rects, s.buf);
      PayloadInside(lib, s.z, rects[0], s.buf, 16);
    }
    RectsSteps(lib, s.z, rects, s.buf, 4);
    forall k | c <= k <= |s.buf|
      ensures !Step(lib, s.(buf := s.buf[..k])).Wait?
    {
      HeadersOnPrefix(s.buf, k);
      RectsLocal(lib, s.z, rects, s.buf, s.buf[..k], 4);
    }
  }

  /** After a safe message the parts of the buffer run as the parts of what is left. */
  lemma TakenPrefix(lib: Library, s: State, c: nat, j: nat)
    requires Step(lib, s).Next? && Safe(lib, s) && c <= |s.buf| && Step(lib, s).s.buf == s.buf[c..]
    requires c + j <= |s.buf| && !Step(lib, Upto(s, c + j)).Wait?
    ensures Step(lib, Upto(s, c + j)) == Next(Upto(Step(lib, s).s, j), Step(lib, s).ev)
  {
    hide Step, Safe;
    var out := Step(lib, s);
    var p, rest := Upto(s, c + j), s.buf[c + j..];
    assert Fed(p, rest) == s by { assert s.buf[..c + j] + rest == s.buf; }
    if s.phase == Running {
      UpdateOnPrefix(lib, p, rest);
    } else {
      HandshakeOnPrefix(lib, p, rest);
    }
    var small := Step(lib, p);
    assert small.Next? && small.ev == out.ev;
    assert Fed(small.s, rest) == out.s;
    assert small.s.buf == (small.s.buf + rest)[..j];
  }

  /** A run that is not clean has a cut that shows in what a part of the stream gives; and,
      when no update of several rectangles has an empty Hextile one, that makes the whole
      stream emit more than in one read. */
  lemma {:induction false} UncleanCut(lib: Library, s: State) returns (m: nat, k: nat)
    requires !Clean(lib, s)
    ensures 0 < k < m <= |s.buf| && Differs(lib, s, m, k)
    ensures Solid(lib, s) ==> m == |s.buf| && CutEvents(lib, s, k) > |Run(lib, s).ev|
    decreases |s.buf|
  {
    hide Step, Safe, LastByteNeeded, Repeats, Differs, CutEvents;
    var out := Step(lib, s);
    m := |s.buf|;
    if out.Stop? && s.phase == SecurityResult {
      ResultMisread(lib, s);
      ResultLength(lib, s);
      k := 4;
      MisreadMore(lib, s);
      MoreDiffers(lib, s, k);
    } else if out.Stop? {
      StopBeforeLast(lib, s);
      k := |s.buf| - 1;
      StopRepeats(lib, s, k);
      RepeatsMore(lib, s, k);
      MoreDiffers(lib, s, k);
    } else if !Safe(lib, s) {
      SafeHandshake(lib, s);
      m, k := UnsafeCut(lib, s);
      if Solid(lib, s) {
        RepeatsMore(lib, s, k);
      }
    } else {
      StepConsumes(lib, s);
      var m', k' := UncleanCut(lib, out.s);
      var c := NextBuffer(lib, s);
      m, k := c + m', c + k';
      TakenPrefix(lib, s, c, m');
      TakenPrefix(lib, s, c, k');
      CutBehind(lib, s, c, m', k');
    }
  }

  /** A cut of what is left after a message is a cut of the whole. */
  lemma CutBehind(lib: Library, s: State, c: nat, m: nat, k: nat)
    requires Step(lib, s).Next? && c <= |s.buf| && Step(lib, s).s.buf == s.buf[c..] && c > 0
    requires 0 < k < m <= |Step(lib, s).s.buf|
    requires Step(lib, Upto(s, c + m)) == Next(Upto(Step(lib, s).s, m), Step(lib, s).ev)
    requires Step(lib, Upto(s, c + k)) == Next(Upto(Step(lib, s).s, k), Step(lib, s).ev)
    ensures Differs(lib, Step(lib, s).s, m, k) ==> Differs(lib, s, c + m, c + k)
    ensures m == |Step(lib, s).s.buf| && CutEvents(lib, Step(lib, s).s, k) > |Run(lib, Step(lib, s).s).ev| ==>
              CutEvents(lib, s, c + k) > |Run(lib, s).ev|
  {
    hide Step;
    var out, t := Step(lib, s), Upto(s, c + m);
    var rest := Upto(out.s, m);
    assert Upto(t, c + k) == Upto(s, c + k) && Upto(rest, k) == Upto(out.s, k);
    assert t.buf[c + k..] == rest.buf[k..];
    assert FirstRead(lib, t, c + k) == After(out.ev, FirstRead(lib, rest, k));
    assert SecondRead(lib, t, c + k) == SecondRead(lib, rest, k);
    assert Run(lib, t) == After(out.ev, Run(lib, rest));
    AfterAfter(out.ev, FirstRead(lib, rest, k).ev, SecondRead(lib, rest, k));
    AfterCancels(out.ev, After(FirstRead(lib, rest, k).ev, SecondRead(lib, rest, k)), Run(lib, rest));
    if m == |out.s.buf| {
      assert rest == out.s && t == s;
    }
  }

  lemma AfterCancels(done: seq<Event>, a: Result, b: Result)
    ensures After(done, a) == After(done, b) ==> a == b
  {
    assert (done + a.ev)[|done|..] == a.ev && (done + b.ev)[|done|..] == b.ev;
  }

  lemma MisreadMore(lib: Library, s: State)
    requires 4 < |s.buf| && FirstRead(lib, s, 4).ev == Run(lib, s).ev && SecondRead(lib, s, 4).ev != []
    ensures CutEvents(lib, s, 4) > |Run(lib, s).ev|
  {
  }

  lemma ResultLength(lib: Library, s: State)
    requires s.phase == SecurityResult && Step(lib, s).Stop?
    ensures |s.buf| == 4 + |Step(lib, s).s.buf|
    ensures |Run(lib, s).ev| == 1
  {
  }

  lemma SafeHandshake(lib: Library, s: State)
    ensures s.phase != Running ==> Safe(lib, s)
  {
  }

  /** The property: every way of cutting the stream into reads gives what one read gives. */
  ghost predicate SplitSafe(lib: Library, s: State, data: Bytes) {
    forall chunks: seq<Bytes> | chunks != [] && Arriving(chunks) && Joined(chunks) == data ::
      Reads(lib, s, chunks) == Read(lib, s, data)
  }

  /** Exactly the clean streams can be cut anywhere. */
  lemma SplitSafeExactly(lib: Library, s: State, data: Bytes)
    requires s.buf == [] && Solid(lib, Fed(s, data))
    ensures SplitSafe(lib, s, data) <==> Clean(lib, Fed(s, data))
  {
    hide Clean, Run, Solid;
    if Clean(lib, Fed(s, data)) {
      forall chunks: seq<Bytes> | chunks != [] && Arriving(chunks) && Joined(chunks) == data
        ensures Reads(lib, s, chunks) == Read(lib, s, data)
      {
        SplitDoesNotMatter(lib, s, chunks);
      }
    } else {
      var m, k := UncleanCut(lib, Fed(s, data));
      assert [] + data == data;
      CutIsReads(lib, s, data, k);
      assert Arriving([data[..k], data[k..]]);
    }
  }

  /** Whatever the updates hold: every part of the stream can be cut anywhere exactly when
      the stream is clean. */
  lemma StreamSafeExactly(lib: Library, s: State, data: Bytes)
    requires s.buf == []
    ensures (forall m: nat | m <= |data| :: SplitSafe(lib, s, data[..m])) <==> Clean(lib, Fed(s, data))
  {
    hide Clean, Run;
    assert [] + data == data;
    if Clean(lib, Fed(s, data)) {
      forall m: nat | m <= |data|
        ensures SplitSafe(lib, s, data[..m])
      {
        PartSafe(lib, s, data, m);
      }
    } else {
      var m, k := UncleanCut(lib, Fed(s, data));
      var part := data[..m];
      assert [] + part == part && part[..k] == data[..k];
      assert Upto(Fed(s, data), m) == Fed(s, part);
      CutIsReads(lib, s, part, k);
      assert Arriving([part[..k], part[k..]]);
      assert !SplitSafe(lib, s, part);
    }
  }

  lemma PartSafe(lib: Library, s: State, data: Bytes, m: nat)
    requires s.buf == [] && m <= |data| && Clean(lib, Fed(s, data))
    ensures SplitSafe(lib, s, data[..m])
  {
    hide Clean, Run;
    var part := data[..m];
    assert Fed(Fed(s, part), data[m..]) == Fed(s, data) by {
      assert [] + part + data[m..] == [] + data;
    }
    CleanPrefix(lib, Fed(s, part), data[m..]);
    forall chunks: seq<Bytes> | chunks != [] && Arriving(chunks) && Joined(chunks) == part
      ensures Reads(lib, s, chunks) == Read(lib, s, part)
    {
      SplitDoesNotMatter(lib, s, chunks);
    }
  }

  lemma CutIsReads(lib: Library, s: State, data: Bytes, k: nat)
    requires s.buf == [] && k <= |data|
    ensures Joined([data[..k], data[k..]]) == data
    ensures Reads(lib, s, [data[..k], data[k..]])
         == After(FirstRead(lib, Fed(s, data), k).ev, SecondRead(lib, Fed(s, data), k))
  {
    hide Run;
    var chunks: seq<Bytes> := [data[..k], data[k..]];
    assert chunks[1..] == [data[k..]];
    assert |chunks[1..][1..]| == 0;
    assert Joined(chunks[1..][1..]) == [];
    assert Joined(chunks[1..]) == data[k..] + [];
    assert data[k..] + [] == data[k..] && data[..k] + data[k..] == data;
    assert s.buf + data == data && s.buf + data[..k] == data[..k];
  }
}
