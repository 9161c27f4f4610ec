/** The VNC client's reader: the handshake (section 7.1 of RFC 6143), ServerInit
    (section 7.3.2) and the update loop (section 7.6.1) over one receive buffer. */
module VncConnection {
  import opened Basics
  import opened Wire
  import opened RfbPixels
  import Canvas
  import RfbRect
  import Zrle

  // ----- library calls the reader makes

  /** `toInt` reads a version number; `inflate` is what zlib makes of the last of
      the blocks fed to one stream, or nothing on a zlib error. */
  datatype Library = Library(toInt: Bytes -> Option<int>, inflate: seq<Bytes> -> Option<Bytes>)

  /** One connection's inflate stream: the blocks fed so far, and the latched error. */
  datatype Zlib = Zlib(fed: seq<Bytes>, failed: bool)

  datatype Inflated = Inflated(z: Zlib, out: Bytes)

  function Inflate(lib: Library, z: Zlib, block: Bytes): Inflated {
    if z.failed || block == [] then Inflated(z, [])
    else match lib.inflate(z.fed + [block])
      case None => Inflated(Zlib(z.fed + [block], true), [])
      case Some(out) => Inflated(Zlib(z.fed + [block], false), out)
  }

  // ----- messages

  datatype Version = Version(major: int, minor: int)

  const RFB: Bytes := [0x52, 0x46, 0x42, 0x20]

  function ParseVersion(lib: Library, b: Bytes): Option<Version> {
    if |b| < 12 || b[..4] != RFB || b[11] != 0x0A then None
    else match (lib.toInt(b[4..7]), lib.toInt(b[8..11]))
      case (Some(major), Some(minor)) => Some(Version(major, minor))
      case _ => None
  }

  /** A decimal number, as QByteArray::number prints it. */
  function Decimal(n: nat): Bytes {
    var digit: byte := 0x30 + n % 10;
    if n < 10 then [digit] else Decimal(n / 10) + [digit]
  }

  function Number(n: int): Bytes {
    if n < 0 then [0x2D] + Decimal(-n) else Decimal(n)
  }

  function RightJustified(b: Bytes, width: nat, fill: byte): Bytes {
    if |b| < width then seq(width - |b|, _ => fill) + b else b
  }

  function FormatVersion(v: Version): Bytes {
    RFB + RightJustified(Number(v.major), 3, 0x30) + [0x2E] + RightJustified(Number(v.minor), 3, 0x30) + [0x0A]
  }

  datatype ServerInit = ServerInit(width: nat, height: nat, bitsPerPixel: byte, depth: byte, name: Bytes)

  const NO_INIT := ServerInit(0, 0, 0, 0, [])

  function ParseServerInit(b: Bytes): Option<ServerInit> {
    if |b| < 24 then None
    else if |b| < 24 + U32(b, 20) then None
    else Some(ServerInit(U16(b, 0), U16(b, 2), b[4], b[5], b[24..24 + U32(b, 20)]))
  }

  function Signed32(v: nat): int {
    if v < 0x8000_0000 then v else v - 0x1_0000_0000
  }

  function Header(b: Bytes, off: nat): Rectangle
    requires off + 12 <= |b|
  {
    Rectangle(U16(b, off), U16(b, off + 2), U16(b, off + 4), U16(b, off + 6), Signed32(U32(b, off + 8)))
  }

  /** The first n rectangle headers, read back to back. */
  function Headers(b: Bytes, n: nat): (r: seq<Rectangle>)
    requires 4 + 12 * n <= |b|
    ensures |r| == n
  {
    seq(n, i requires 0 <= i < n => Header(b, 4 + 12 * i))
  }

  function ParseFramebufferUpdate(b: Bytes): Option<seq<Rectangle>> {
    if |b| < 4 || b[0] != 0 then None
    else if |b| < 4 + 12 * U16(b, 2) then None
    else Some(Headers(b, U16(b, 2)))
  }

  function EncodeS32(e: int): Bytes {
    Be32(if e < 0 then e % 0x1_0000_0000 else e)
  }

  function EncodeSetEncodings(encodings: seq<int>): Bytes {
    [2, 0] + Be16(|encodings|) + EncodeAll(encodings)
  }

  function EncodeAll(encodings: seq<int>): Bytes {
    if encodings == [] then [] else EncodeS32(encodings[0]) + EncodeAll(encodings[1..])
  }

  function UpdateRequest(init: ServerInit): Bytes {
    [3, 0] + Be16(0) + Be16(0) + Be16(init.width) + Be16(init.height)
  }

  // ----- the reader as steps

  datatype Phase = AwaitVersion | Security | SecurityResult | AwaitInit | Running

  datatype Event =
    | Wrote(data: Bytes)
    | Connected
    | Failed(message: string)
    | ServerReady(width: nat, height: nat, name: Bytes)
    | RectDecoded(r: Rectangle, pixels: seq<Canvas.Pixel>)
    | RectCopied(srcX: nat, srcY: nat, to: Rectangle)

  datatype State = State(phase: Phase, buf: Bytes, init: ServerInit, z: Zlib)

  const INITIAL := State(AwaitVersion, [], NO_INIT, Zlib([], false))

  /** What the reader can do with its buffer: nothing yet; one message; or events
      that end this read with the message, or a failed handshake, still pending. */
  datatype Outcome = Wait | Next(s: State, ev: seq<Event>) | Stop(s: State, ev: seq<Event>)

  function VersionStep(lib: Library, s: State): Outcome {
    if |s.buf| < 12 then Wait
    else match ParseVersion(lib, s.buf[..12])
      case None => Stop(s, [Failed("Bad RFB version")])
      case Some(v) => Next(s.(phase := Security, buf := s.buf[12..]), [Wrote(FormatVersion(v))])
  }

  function SecurityStep(s: State): Outcome {
    if s.buf == [] then Wait
    else
      var n: nat := s.buf[0];
      if n == 0 then Stop(s, [Failed("Server rejected connection")])
      else if |s.buf| < 1 + n then Wait
      else
        var types := s.buf[1..1 + n];
        var chosen: byte := if 1 in types then 1 else types[0];
        Next(s.(phase := SecurityResult, buf := s.buf[1 + n..]), [Wrote([chosen])])
  }

  function ResultStep(s: State): Outcome {
    if |s.buf| < 4 then Wait
    else if U32(s.buf, 0) != 0 then Stop(s.(buf := s.buf[4..]), [Failed("VNC authentication failed")])
    else Next(s.(phase := AwaitInit, buf := s.buf[4..]), [Wrote([1])])
  }

  function InitStep(s: State): Outcome {
    if |s.buf| < 24 then Wait
    else
      var len := 24 + U32(s.buf, 20);
      if |s.buf| < len then Wait
      else
        var init := ParseServerInit(s.buf[..len]).value;
        Next(s.(phase := Running, buf := s.buf[len..], init := init), Greeting(init))
  }

  const ENCODINGS := [ENC_ZRLE, ENC_HEXTILE, ENC_RRE, ENC_COPY_RECT, ENC_RAW]

  function Greeting(init: ServerInit): seq<Event> {
    [Connected, ServerReady(init.width, init.height, init.name),
     Wrote(EncodeSetEncodings(ENCODINGS)), Wrote(UpdateRequest(init))]
  }

  datatype Decoding = Decoding(d: RectData, z: Zlib)

  /** A ZRLE payload: a 32-bit length and that many compressed bytes. */
  function DecodedZrle(lib: Library, z: Zlib, r: Rectangle, buf: Bytes, off: nat): Decoding {
    if |buf| < off + 4 || |buf| < off + 4 + U32(buf, off) then Decoding(WAITING, z)
    else
      var len := U32(buf, off);
      var inflated := Inflate(lib, z, buf[off + 4..off + 4 + len]);
      var pixels := if inflated.z.failed then [] else Zrle.TilePixelsOf(inflated.out, r.width, r.height);
      Decoding(Painted(4 + len, pixels), inflated.z)
  }

  function DecodedPayload(lib: Library, z: Zlib, r: Rectangle, buf: Bytes, off: nat): Decoding {
    if r.encoding == ENC_ZRLE then DecodedZrle(lib, z, r, buf, off)
    else Decoding(RfbRect.Decoded(r, buf, off, 4), z)
  }

  function RectEvent(r: Rectangle, d: RectData): Event {
    if d.isCopy then RectCopied(d.srcX, d.srcY, r) else RectDecoded(r, d.pixels)
  }

  /** How far the rectangles of one update get: header steps and payloads alternate. */
  datatype Progress = Progress(complete: bool, off: nat, z: Zlib, ev: seq<Event>)

  function Rects(lib: Library, z: Zlib, rects: seq<Rectangle>, buf: Bytes, off: nat): Progress
    decreases |rects|
  {
    if rects == [] then Progress(true, off, z, [])
    else
      var one := DecodedPayload(lib, z, rects[0], buf, off + 12);
      if !one.d.complete then Progress(false, off + 12, one.z, [])
      else
        var rest := Rects(lib, one.z, rects[1..], buf, off + 12 + one.d.consumed);
        rest.(ev := [RectEvent(rects[0], one.d)] + rest.ev)
  }

  /** What is left of a buffer after removing n bytes from its front. */
  function Rest(b: Bytes, n: nat): Bytes {
    if n <= |b| then b[n..] else []
  }

  function UpdateStep(lib: Library, s: State): Outcome {
    if s.buf == [] || s.buf[0] != 0 then Wait
    else match ParseFramebufferUpdate(s.buf)
      case None => Wait
      case Some(rects) =>
        var got := Rects(lib, s.z, rects, s.buf, 4);
        if got.complete then Next(s.(buf := Rest(s.buf, got.off), z := got.z), got.ev)
        else if got.ev == [] then Wait
        else Stop(s.(z := got.z), got.ev)
  }

  function Step(lib: Library, s: State): Outcome {
    match s.phase
    case AwaitVersion => VersionStep(lib, s)
    case Security => SecurityStep(s)
    case SecurityResult => ResultStep(s)
    case AwaitInit => InitStep(s)
    case Running => UpdateStep(lib, s)
  }

  lemma RectsAdvance(lib: Library, z: Zlib, rects: seq<Rectangle>, buf: Bytes, off: nat)
    ensures Rects(lib, z, rects, buf, off).off >= off
    decreases |rects|
  {
    if rects != [] {
      var one := DecodedPayload(lib, z, rects[0], buf, off + 12);
      RectsAdvance(lib, one.z, rects[1..], buf, off + 12 + one.d.consumed);
    }
  }

  /** Every message consumes at least a byte. */
  lemma StepConsumes(lib: Library, s: State)
    requires Step(lib, s).Next?
    ensures |Step(lib, s).s.buf| < |s.buf|
  {
    hide Rects;
    if s.phase.Running? {
      var rects := ParseFramebufferUpdate(s.buf).value;
      RectsAdvance(lib, s.z, rects, s.buf, 4);
    }
  }

  datatype Result = Result(s: State, ev: seq<Event>)

  /** Everything one read does with its buffer. */
  function Run(lib: Library, s: State): Result
    decreases |s.buf|
  {
    match Step(lib, s)
    case Wait => Result(s, [])
    case Stop(s', ev) => Result(s', ev)
    case Next(s', ev) =>
      StepConsumes(lib, s);
      var rest := Run(lib, s');
      rest.(ev := ev + rest.ev)
  }

  function Fed(s: State, data: Bytes): State {
    s.(buf := s.buf + data)
  }

  /** One arrival of data: what `onReadyRead` does. */
  function Read(lib: Library, s: State, data: Bytes): Result {
    Run(lib, Fed(s, data))
  }

  // ----- the reader as the code runs it

  method ReadHeaders(b: Bytes) returns (valid: bool, rects: seq<Rectangle>)
    ensures valid <==> ParseFramebufferUpdate(b).Some?
    ensures valid ==> ParseFramebufferUpdate(b) == Some(rects)
  {
    hide Header;
    rects := [];
    if |b| < 4 || b[0] != 0 {
      return false, [];
    }
    var n := U16(b, 2);
    var off := 4;
    for i := 0 to n
      invariant off == 4 + 12 * i && off <= |b| && rects == Headers(b, i)
    {
      if |b| < off + 12 {
        return false, [];
      }
      rects := rects + [Header(b, off)];
      off := off + 12;
    }
    valid := true;
  }

  class Connection {
    const lib: Library
    var phase: Phase
    var buf: Bytes
    var init: ServerInit
    var z: Zlib
    /** The replies written and the signals emitted, in order. */
    var log: seq<Event>

    constructor (lib: Library)
      ensures this.lib == lib && Snapshot() == INITIAL && log == []
    {
      this.lib := lib;
      phase, buf, init, z, log := AwaitVersion, [], NO_INIT, Zlib([], false), [];
    }

    ghost function Snapshot(): State
      reads this
    {
      State(phase, buf, init, z)
    }

    /** One message has been taken, or nothing more can be: as the step says. */
    twostate predicate Follows(out: Outcome, go: bool)
      reads this
    {
      match out
      case Wait => !go && Snapshot() == old(Snapshot()) && log == old(log)
      case Stop(s, ev) => !go && Snapshot() == s && log == old(log) + ev
      case Next(s, ev) => go && Snapshot() == s && log == old(log) + ev
    }

    method TakeVersion() returns (go: bool)
      requires phase == AwaitVersion
      modifies this
      ensures Follows(Step(lib, old(Snapshot())), go)
      ensures go ==> phase == Security
    {
      if |buf| < 12 {
        return false;
      }
      var v := ParseVersion(lib, buf[..12]);
      if v.None? {
        log := log + [Failed("Bad RFB version")];
        return false;
      }
      buf := buf[12..];
      log := log + [Wrote(FormatVersion(v.value))];
      phase := Security;
      go := true;
    }

    method TakeSecurity() returns (go: bool)
      requires phase == Security
      modifies this
      ensures Follows(Step(lib, old(Snapshot())), go)
      ensures go ==> phase == SecurityResult
    {
      if buf == [] {
        return false;
      }
      var n: nat := buf[0];
      if n == 0 {
        log := log + [Failed("Server rejected connection")];
        return false;
      }
      if |buf| < 1 + n {
        return false;
      }
      var types := buf[1..1 + n];
      buf := buf[1 + n..];
      var chosen: byte := if 1 in types then 1 else types[0];
      log := log + [Wrote([chosen])];
      phase := SecurityResult;
      go := true;
    }

    method TakeResult() returns (go: bool)
      requires phase == SecurityResult
      modifies this
      ensures Follows(Step(lib, old(Snapshot())), go)
      ensures go ==> phase == AwaitInit
    {
      if |buf| < 4 {
        return false;
      }
      var result := U32(buf, 0);
      buf := buf[4..];
      if result != 0 {
        log := log + [Failed("VNC authentication failed")];
        return false;
      }
      log := log + [Wrote([1])];
      phase := AwaitInit;
      go := true;
    }

    method TakeInit() returns (go: bool)
      requires phase == AwaitInit
      modifies this
      ensures Follows(Step(lib, old(Snapshot())), go)
      ensures go ==> phase == Running
    {
      if |buf| < 24 {
        return false;
      }
      var len := 24 + U32(buf, 20);
      if |buf| < len {
        return false;
      }
      init := ParseServerInit(buf[..len]).value;
      buf := buf[len..];
      log := log + [Connected, ServerReady(init.width, init.height, init.name)];
      log := log + [Wrote(EncodeSetEncodings(ENCODINGS))];
      log := log + [Wrote(UpdateRequest(init))];
      phase := Running;
      go := true;
    }

    method DecodePayload(r: Rectangle, off: nat) returns (d: RectData)
      modifies this`z
      ensures var one := DecodedPayload(lib, old(z), r, buf, off);
              z == one.z && d.complete == one.d.complete && (d.complete ==> d == one.d)
    {
      hide RfbRect.Decoded, Zrle.TilePixelsOf, Inflate;
      if r.encoding != ENC_ZRLE {
        d := RfbRect.DecodeRect(r, buf, off, 4);
        return;
      }
      if |buf| < off + 4 {
        return WAITING;
      }
      var len := U32(buf, off);
      if |buf| < off + 4 + len {
        return WAITING;
      }
      var inflated := Inflate(lib, z, buf[off + 4..off + 4 + len]);
      z := inflated.z;
      var pixels := [];
      if !z.failed {
        pixels := Zrle.DecodeTiles(inflated.out, r.width, r.height);
      }
      d := Painted(4 + len, pixels);
    }

    /** The rectangles of one update, in turn. */
    method TakeRects(rects: seq<Rectangle>) returns (complete: bool, off: nat, ghost ev: seq<Event>)
      modifies this`z, this`log
      ensures log == old(log) + ev
      ensures Rects(lib, old(z), rects, buf, 4) == Progress(complete, off, z, ev)
    {
      hide DecodedPayload, RectEvent;
      off, ev := 4, [];
      ghost var whole := Rects(lib, z, rects, buf, off);
      assert rects[0..] == rects;
      RectsSoFar(whole);
      for i := 0 to |rects|
        invariant log == old(log) + ev
        invariant whole == Onto(ev, Rects(lib, z, rects[i..], buf, off))
      {
        var r := rects[i];
        RectsTake(lib, z, rects[i..], buf, off, ev);
        assert rects[i..][1..] == rects[i + 1..];
        off := off + 12;
        var d := DecodePayload(r, off);
        if !d.complete {
          return false, off, ev;
        }
        log := log + [RectEvent(r, d)];
        ev := ev + [RectEvent(r, d)];
        off := off + d.consumed;
      }
      RectsSoFar(Rects(lib, z, [], buf, off));
      assert ev + [] == ev;
      complete := true;
    }

    method TakeUpdate() returns (go: bool)
      requires phase == Running && buf != [] && buf[0] == 0
      modifies this
      ensures Follows(Step(lib, old(Snapshot())), go)
      ensures go ==> phase == old(phase)
    {
      hide Rects;
      var valid, rects := ReadHeaders(buf);
      if !valid {
        return false;
      }
      var complete, off, ev := TakeRects(rects);
      if !complete {
        WaitingKeepsZ(lib, old(z), rects, buf);
        assert ev == [] ==> old(log) + ev == old(log);
        return false;
      }
      buf := Rest(buf, off);
      go := true;
    }

    method OnReadyRead(data: Bytes)
      modifies this
      ensures var r := Read(lib, old(Snapshot()), data); Snapshot() == r.s && log == old(log) + r.ev
    {
      hide Pending, Step, Run;
      buf := buf + data;
      ghost var whole := After(log, Run(lib, Snapshot()));
      Begin(lib, log, Snapshot());
      var go: bool;
      if phase == AwaitVersion {
        Advance(lib, whole, log, Snapshot());
        go := TakeVersion();
        if !go {
          return;
        }
      }
      if phase == Security {
        Advance(lib, whole, log, Snapshot());
        go := TakeSecurity();
        if !go {
          return;
        }
      }
      if phase == SecurityResult {
        Advance(lib, whole, log, Snapshot());
        go := TakeResult();
        if !go {
          return;
        }
      }
      if phase == AwaitInit {
        Advance(lib, whole, log, Snapshot());
        go := TakeInit();
        if !go {
          return;
        }
      }
      while phase == Running && buf != [] && buf[0] == 0
        invariant phase == Running && Pending(lib, whole, log, Snapshot())
        decreases |buf|
      {
        Advance(lib, whole, log, Snapshot());
        go := TakeUpdate();
        if !go {
          return;
        }
      }
      NothingToTake(lib, Snapshot());
      Advance(lib, whole, log, Snapshot());
    }
  }

  /** With the events so far in the log, a read still has to run from `s`. */
  ghost predicate Pending(lib: Library, whole: Result, log: seq<Event>, s: State) {
    whole == After(log, Run(lib, s))
  }

  lemma Begin(lib: Library, log: seq<Event>, s: State)
    ensures Pending(lib, After(log, Run(lib, s)), log, s)
  {
  }

  lemma Advance(lib: Library, whole: Result, log: seq<Event>, s: State)
    requires Pending(lib, whole, log, s)
    ensures var out := Step(lib, s);
            if out.Wait? then whole == Result(s, log)
            else if out.Stop? then whole == Result(out.s, log + out.ev)
            else Pending(lib, whole, log + out.ev, out.s) && |out.s.buf| < |s.buf|
  {
    hide Step;
    RunStep(lib, s, log);
    if Step(lib, s).Next? {
      StepConsumes(lib, s);
    }
  }

  /** Events put in front of what a run still does. */
  function Onto(ev: seq<Event>, p: Progress): Progress {
    p.(ev := ev + p.ev)
  }

  lemma RectsSoFar(p: Progress)
    ensures Onto([], p) == p
  {
    assert [] + p.ev == p.ev;
  }

  lemma RectsTake(lib: Library, z: Zlib, rects: seq<Rectangle>, buf: Bytes, off: nat, ev: seq<Event>)
    requires rects != []
    ensures var one := DecodedPayload(lib, z, rects[0], buf, off + 12);
            Onto(ev, Rects(lib, z, rects, buf, off)) ==
            if one.d.complete
            then Onto(ev + [RectEvent(rects[0], one.d)],
                      Rects(lib, one.z, rects[1..], buf, off + 12 + one.d.consumed))
            else Progress(false, off + 12, one.z, ev)
  {
    hide DecodedPayload, RectEvent;
    var one := DecodedPayload(lib, z, rects[0], buf, off + 12);
    if one.d.complete {
      var rest := Rects(lib, one.z, rects[1..], buf, off + 12 + one.d.consumed);
      assert ev + ([RectEvent(rects[0], one.d)] + rest.ev) == (ev + [RectEvent(rects[0], one.d)]) + rest.ev;
    } else {
      assert ev + [] == ev;
    }
  }

  lemma NothingToTake(lib: Library, s: State)
    requires s.phase == Running && (s.buf == [] || s.buf[0] != 0)
    ensures Step(lib, s) == Wait
  {
  }

  function After(done: seq<Event>, r: Result): Result {
    Result(r.s, done + r.ev)
  }

  lemma AfterNone(r: Result, ev: seq<Event>)
    ensures After([], r) == r && [] + ev == ev
  {
    assert [] + r.ev == r.ev;
  }

  lemma AfterAfter(done: seq<Event>, more: seq<Event>, r: Result)
    ensures After(done, After(more, r)) == After(done + more, r)
  {
    assert done + (more + r.ev) == (done + more) + r.ev;
  }

  /** A run is its next step and the run from there. */
  lemma RunStep(lib: Library, s: State, done: seq<Event>)
    ensures var out := Step(lib, s);
            After(done, Run(lib, s)) ==
            if out.Wait? then Result(s, done)
            else if out.Stop? then Result(out.s, done + out.ev)
            else After(done + out.ev, Run(lib, out.s))
  {
    hide Step;
    var out := Step(lib, s);
    if out.Wait? {
      assert done + [] == done;
    } else if out.Next? {
      assert done + (out.ev + Run(lib, out.s).ev) == (done + out.ev) + Run(lib, out.s).ev;
    }
  }

  lemma WaitingKeepsZ(lib: Library, z: Zlib, rects: seq<Rectangle>, buf: Bytes)
    requires !Rects(lib, z, rects, buf, 4).complete
    ensures Rects(lib, z, rects, buf, 4).ev == [] ==> Rects(lib, z, rects, buf, 4).z == z
  {
  }
}
