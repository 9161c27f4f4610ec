/** What the client answers in the handshake, from the server's side of sections 7.1 to 7.5
    of RFC 6143: the messages a server sends, the replies it gets, and the whole connection
    from the first byte to the last image. */
module VncHandshake {
  import opened Basics
  import opened Wire
  import opened RfbPixels
  import opened VncConnection
  import opened VncSplit
  import opened VncImages

  // ----- what a server sends

  function ThreeDigits(n: nat): Bytes
    requires n < 1000
  {
    [0x30 + n / 100, 0x30 + n / 10 % 10, 0x30 + n % 10]
  }

  /** ProtocolVersion: "RFB ", the major version, ".", the minor version and a newline. */
  function VersionBytes(major: nat, minor: nat): (b: Bytes)
    requires major < 1000 && minor < 1000
    ensures |b| == 12
  {
    [0x52, 0x46, 0x42, 0x20] + ThreeDigits(major) + [0x2E] + ThreeDigits(minor) + [0x0A]
  }

  /** The number conversion of the library reads three digits. */
  ghost predicate ReadsDigits(lib: Library) {
    forall n: nat | n < 1000 :: lib.toInt(ThreeDigits(n)) == Some(n)
  }

  /** The security types on offer. */
  function SecurityBytes(types: Bytes): Bytes
    requires 0 < |types| < 256
  {
    [|types|] + types
  }

  const NO_SECURITY: byte := 1

  predicate Format(format: Bytes) {
    |format| == 16
  }

  function InitBytes(w: nat, h: nat, format: Bytes, name: Bytes): (b: Bytes)
    requires Format(format)
    ensures |b| == 24 + |name|
  {
    Be16(w) + (Be16(h) + (format + (Be32(|name|) + name)))
  }

  // ----- what the client answers

  /** SetEncodings: ZRLE, Hextile, RRE, CopyRect and Raw, the preferred ones first. */
  const SET_ENCODINGS: Bytes :=
    [2, 0, 0, 5, 0, 0, 0, 16, 0, 0, 0, 5, 0, 0, 0, 2, 0, 0, 0, 1, 0, 0, 0, 0]

  /** FramebufferUpdateRequest for the whole screen, not incremental. */
  function WholeScreen(w: nat, h: nat): Bytes {
    [3, 0, 0, 0, 0, 0] + (Be16(w) + Be16(h))
  }

  lemma DecimalDigits(n: nat)
    requires n < 1000
    ensures RightJustified(Number(n), 3, 0x30) == ThreeDigits(n)
  {
    if n < 10 {
      assert Decimal(n) == [0x30 + n % 10];
    } else if n < 100 {
      assert Decimal(n / 10) == [0x30 + n / 10];
    } else {
      assert n / 10 / 10 == n / 100;
      assert Decimal(n / 10 / 10) == [0x30 + n / 100];
      assert Decimal(n / 10) == [0x30 + n / 100] + [0x30 + n / 10 % 10];
    }
  }

  lemma FormatsBack(major: nat, minor: nat)
    requires major < 1000 && minor < 1000
    ensures FormatVersion(Version(major, minor)) == VersionBytes(major, minor)
  {
    hide RightJustified, Number, ThreeDigits;
    DecimalDigits(major);
    DecimalDigits(minor);
  }

  /** A version is answered by the same version, whatever follows it. */
  lemma VersionReply(lib: Library, s: State, major: nat, minor: nat, rest: Bytes)
    requires ReadsDigits(lib) && major < 1000 && minor < 1000
    requires s.phase == AwaitVersion && s.buf == VersionBytes(major, minor) + rest
    ensures Step(lib, s) == Next(s.(phase := Security, buf := rest), [Wrote(VersionBytes(major, minor))])
  {
    hide FormatVersion;
    FormatsBack(major, minor);
    var b := VersionBytes(major, minor);
    assert s.buf[..12] == b && s.buf[12..] == rest;
    assert b[4..7] == ThreeDigits(major) && b[8..11] == ThreeDigits(minor);
    assert b[..4] == RFB;
  }

  /** Twelve bytes that are no version end the read with an error and stay in the buffer. */
  lemma BadVersion(lib: Library, s: State)
    requires s.phase == AwaitVersion && |s.buf| >= 12
    ensures Step(lib, s) == Stop(s, [Failed("Bad RFB version")]) <==>
              s.buf[..4] != [0x52, 0x46, 0x42, 0x20] || s.buf[11] != 0x0A ||
              lib.toInt(s.buf[4..7]).None? || lib.toInt(s.buf[8..11]).None?
  {
    var b := s.buf[..12];
    assert b[..4] == s.buf[..4] && b[4..7] == s.buf[4..7] && b[8..11] == s.buf[8..11];
  }

  /** Of the types on offer the client takes None when it is there, and otherwise the
      first. */
  lemma SecurityReply(lib: Library, s: State, types: Bytes, rest: Bytes) returns (chosen: byte)
    requires 0 < |types| < 256 && s.phase == Security && s.buf == SecurityBytes(types) + rest
    ensures Step(lib, s) == Next(s.(phase := SecurityResult, buf := rest), [Wrote([chosen])])
    ensures chosen in types && (chosen == NO_SECURITY <==> NO_SECURITY in types)
    ensures NO_SECURITY !in types ==> chosen == types[0]
  {
    assert s.buf[1..1 + |types|] == types && s.buf[1 + |types|..] == rest;
    chosen := if 1 in types then 1 else types[0];
  }

  lemma NoTypes(lib: Library, s: State, reason: Bytes)
    requires s.phase == Security && s.buf == [0] + reason
    ensures Step(lib, s) == Stop(s, [Failed("Server rejected connection")])
  {
  }

  /** A result of zero is answered by a shared ClientInit; any other is an error. */
  lemma ResultReply(lib: Library, s: State, result: Bytes, rest: Bytes)
    requires |result| == 4 && s.phase == SecurityResult && s.buf == result + rest
    ensures Step(lib, s) ==
            if result == [0, 0, 0, 0] then Next(s.(phase := AwaitInit, buf := rest), [Wrote([1])])
            else Stop(s.(buf := rest), [Failed("VNC authentication failed")])
  {
    assert s.buf[4..] == rest;
    assert result == [s.buf[0], s.buf[1], s.buf[2], s.buf[3]];
  }

  lemma InitBack(b: Bytes, w: nat, h: nat, format: Bytes, name: Bytes)
    requires w < 0x1_0000 && h < 0x1_0000 && Format(format) && |name| < 0x1_0000_0000
    requires Has(b, 0, InitBytes(w, h, format, name))
    ensures |b| >= 24 + |name| && U16(b, 0) == w && U16(b, 2) == h && b[4] == format[0] && b[5] == format[1]
    ensures U32(b, 20) == |name| && b[24..24 + |name|] == name
  {
    hide U16, U32, Be16, Be32;
    var e3 := Be32(|name|) + name;
    HasSplit(b, 0, Be16(w), Be16(h) + (format + e3));
    HasSplit(b, 2, Be16(h), format + e3);
    HasSplit(b, 4, format, e3);
    HasSplit(b, 20, Be32(|name|), name);
    U16Be16(b, 0, w);
    U16Be16(b, 2, h);
    U32Be32(b, 20, |name|);
    assert b[4 + 0] == format[0] && b[4 + 1] == format[1];
  }

  lemma EncodingsSent()
    ensures EncodeSetEncodings(ENCODINGS) == SET_ENCODINGS
  {
    hide EncodeAll;
    var e4: seq<int> := [0];
    var e3: seq<int> := [1] + e4;
    var e2: seq<int> := [2] + e3;
    var e1: seq<int> := [5] + e2;
    assert ENCODINGS == [16] + e1;
    EncodeNext(0, []);
    assert [0] + [] == e4;
    EncodeNext(1, e4);
    EncodeNext(2, e3);
    EncodeNext(5, e2);
    EncodeNext(16, e1);
    assert EncodeAll(ENCODINGS) == [0, 0, 0, 16, 0, 0, 0, 5, 0, 0, 0, 2, 0, 0, 0, 1, 0, 0, 0, 0];
    assert Be16(5) == [0, 5];
  }

  lemma EncodeNext(e: byte, rest: seq<int>)
    ensures EncodeAll([]) == [] && EncodeAll([e as int] + rest) == [0, 0, 0, e] + EncodeAll(rest)
  {
    assert ([e as int] + rest)[1..] == rest;
    assert EncodeS32(e) == [0, 0, 0, e];
  }

  /** What the client knows of the server after its ServerInit. */
  function Known(w: nat, h: nat, format: Bytes, name: Bytes): ServerInit
    requires Format(format)
  {
    ServerInit(w, h, format[0], format[1], name)
  }

  function Ready(w: nat, h: nat, name: Bytes): seq<Event> {
    [Connected, ServerReady(w, h, name), Wrote(SET_ENCODINGS), Wrote(WholeScreen(w, h))]
  }

  /** A ServerInit comes back in what the client emits, and is answered by the encodings and
      a request for a screen of that size. */
  lemma InitReply(lib: Library, s: State, w: nat, h: nat, format: Bytes, name: Bytes, rest: Bytes)
    requires w < 0x1_0000 && h < 0x1_0000 && Format(format) && |name| < 0x1_0000_0000
    requires s.phase == AwaitInit && s.buf == InitBytes(w, h, format, name) + rest
    ensures Step(lib, s) ==
            Next(s.(phase := Running, buf := rest, init := Known(w, h, format, name)), Ready(w, h, name))
  {
    hide Has, InitBytes, U16, U32, Be16, Be32, EncodeSetEncodings;
    var b, e := s.buf, InitBytes(w, h, format, name);
    HasWhole([], e, rest);
    assert [] + e + rest == b && e + [] == e;
    InitBack(b, w, h, format, name);
    HasWhole([], e, []);
    assert [] + e + [] == e;
    InitBack(e, w, h, format, name);
    assert b[..24 + |name|] == e && b[24 + |name|..] == rest;
    assert ParseServerInit(e) == Some(Known(w, h, format, name));
    EncodingsSent();
    RequestSent(Known(w, h, format, name));
  }

  lemma RequestSent(init: ServerInit)
    ensures UpdateRequest(init) == WholeScreen(init.width, init.height)
  {
    assert Be16(0) == [0, 0];
  }

  // ----- the whole connection

  /** A server's side of a connection: what it sends first, and the updates after. */
  datatype Server = Server(major: nat, minor: nat, types: Bytes, w: nat, h: nat, format: Bytes, name: Bytes,
                           us: seq<Sent>)

  /** The server speaks RFC 6143, offers None, and each of its updates carries an image. */
  ghost predicate Speaks(lib: Library, v: Server) {
    && v.major < 1000 && v.minor < 1000 && |v.types| < 256 && NO_SECURITY in v.types
    && v.w < 0x1_0000 && v.h < 0x1_0000 && Format(v.format) && |v.name| < 0x1_0000_0000
    && Sends(lib, INITIAL.z, v.us)
  }

  function ServerBytes(v: Server): Bytes
    requires v.major < 1000 && v.minor < 1000 && 0 < |v.types| < 256 && Format(v.format)
  {
    VersionBytes(v.major, v.minor) +
    (SecurityBytes(v.types) + ([0, 0, 0, 0] + (InitBytes(v.w, v.h, v.format, v.name) + StreamBytes(v.us))))
  }

  function Answers(v: Server): seq<Event>
    requires v.major < 1000 && v.minor < 1000
  {
    [Wrote(VersionBytes(v.major, v.minor))] +
    ([Wrote([NO_SECURITY])] + ([Wrote([1])] + (Ready(v.w, v.h, v.name) + AllShown(v.us))))
  }

  function Finally(v: Server): State
    requires Format(v.format)
  {
    State(Running, [], Known(v.w, v.h, v.format, v.name), LastZ(INITIAL.z, v.us))
  }

  /** A handshake message taken is a clean start of a run. */
  lemma Taken(lib: Library, s: State, s': State, ev: seq<Event>)
    requires s.phase != Running && Step(lib, s) == Next(s', ev) && Clean(lib, s')
    ensures Clean(lib, s) && Run(lib, s) == After(ev, Run(lib, s'))
  {
    hide Step, Safe, LastByteNeeded;
    StepConsumes(lib, s);
    SafeHandshake(lib, s);
  }

  lemma ConnectionRuns(lib: Library, v: Server)
    requires ReadsDigits(lib) && Speaks(lib, v)
    ensures var s := Fed(INITIAL, ServerBytes(v));
            Clean(lib, s) && Run(lib, s) == Result(Finally(v), Answers(v))
  {
    hide Step, Clean, Run, Sends, ReadsDigits, VersionBytes, SecurityBytes, InitBytes, StreamBytes, Ready, AllShown;
    hide LastZ;
    var e4 := StreamBytes(v.us);
    var e3 := InitBytes(v.w, v.h, v.format, v.name) + e4;
    var e2 := [0, 0, 0, 0] + e3;
    var e1 := SecurityBytes(v.types) + e2;
    var s0 := Fed(INITIAL, ServerBytes(v));
    assert s0.buf == VersionBytes(v.major, v.minor) + e1;
    var s1 := s0.(phase := Security, buf := e1);
    var s2 := s1.(phase := SecurityResult, buf := e2);
    var s3 := s2.(phase := AwaitInit, buf := e3);
    var s4 := s3.(phase := Running, buf := e4, init := Known(v.w, v.h, v.format, v.name));
    VersionReply(lib, s0, v.major, v.minor, e1);
    var chosen := SecurityReply(lib, s1, v.types, e2);
    ResultReply(lib, s2, [0, 0, 0, 0], e3);
    InitReply(lib, s3, v.w, v.h, v.format, v.name, e4);
    StreamRuns(lib, s4, v.us);
    Taken(lib, s3, s4, Ready(v.w, v.h, v.name));
    Taken(lib, s2, s3, [Wrote([1])]);
    Taken(lib, s1, s2, [Wrote([chosen])]);
    Taken(lib, s0, s1, [Wrote(VersionBytes(v.major, v.minor))]);
  }

  /** A run that meets a stop after a message. */
  lemma Refused(lib: Library, s: State, s': State, ev: seq<Event>, stopped: State, why: seq<Event>)
    requires Step(lib, s) == Next(s', ev) && Step(lib, s') == Stop(stopped, why)
    ensures Run(lib, s) == Result(stopped, ev + why)
  {
    hide Step;
    assert Run(lib, s') == Result(stopped, why);
  }

  /** A server that offers no security type is refused after the version. */
  lemma NothingOffered(lib: Library, major: nat, minor: nat, reason: Bytes)
    requires ReadsDigits(lib) && major < 1000 && minor < 1000
    ensures Run(lib, Fed(INITIAL, VersionBytes(major, minor) + ([0] + reason))) ==
            Result(INITIAL.(phase := Security, buf := [0] + reason),
                   [Wrote(VersionBytes(major, minor)), Failed("Server rejected connection")])
  {
    hide Step, Run, ReadsDigits, VersionBytes;
    var tail := [0] + reason;
    var s := Fed(INITIAL, VersionBytes(major, minor) + tail);
    var s1 := s.(phase := Security, buf := tail);
    VersionReply(lib, s, major, minor, tail);
    NoTypes(lib, s1, reason);
    Refused(lib, s, s1, [Wrote(VersionBytes(major, minor))], s1, [Failed("Server rejected connection")]);
  }

  /** A server that lets nobody in gets the choice of None and no ClientInit. */
  lemma NotLetIn(lib: Library, s: State, types: Bytes, result: Bytes, rest: Bytes)
    requires 0 < |types| < 256 && NO_SECURITY in types && |result| == 4 && result != [0, 0, 0, 0]
    requires s.phase == Security && s.buf == SecurityBytes(types) + (result + rest)
    ensures Run(lib, s) == Result(s.(phase := SecurityResult, buf := rest),
                                  [Wrote([NO_SECURITY]), Failed("VNC authentication failed")])
  {
    hide Step, Run, SecurityBytes;
    var s1 := s.(phase := SecurityResult, buf := result + rest);
    var s2 := s1.(buf := rest);
    var chosen := SecurityReply(lib, s, types, result + rest);
    ResultReply(lib, s1, result, rest);
    Refused(lib, s, s1, [Wrote([chosen])], s2, [Failed("VNC authentication failed")]);
  }

  /** However the server's bytes arrive, the client answers its handshake, shows every image
      once and in order, and ends with an empty buffer. */
  lemma ConnectionArrives(lib: Library, v: Server, chunks: seq<Bytes>)
    requires ReadsDigits(lib) && Speaks(lib, v)
    requires chunks != [] && Arriving(chunks) && Joined(chunks) == ServerBytes(v)
    ensures Reads(lib, INITIAL, chunks) == Result(Finally(v), Answers(v))
  {
    hide Clean, Run, Reads, Speaks, ReadsDigits, ServerBytes, Answers, Finally;
    ConnectionRuns(lib, v);
    SplitDoesNotMatter(lib, INITIAL, chunks);
  }
}
