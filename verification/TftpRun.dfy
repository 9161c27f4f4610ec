/** The TFTP server and RFC 1350 clients over a network that loses, duplicates and
    reorders datagrams: safety over every run, and how a lockstep transfer ends. */
module TftpRun {
  import opened Basics
  import opened Wire
  import opened TftpPacket
  import opened TftpServer

  // ----- the client (sections 2, 4 and 6 of RFC 1350)

  /** `expected` is the block it waits for; block numbers never wrap. */
  datatype Client = Client(expected: nat, got: Bytes, done: bool)

  const IDLE := Client(1, [], false)

  datatype Received = Received(c: Client, reply: Option<Bytes>)

  /** The expected block is appended and acknowledged; one seen before is only
      acknowledged again; a block shorter than 512 bytes is the last. */
  function Receive(c: Client, dg: Bytes): Received {
    var p := Decode(dg);
    if p.op != DATA then Received(c, None)
    else if p.block == c.expected && !c.done then
      Received(Client(c.expected + 1, c.got + p.data, |p.data| < BLOCK_SIZE), Some(EncodeAck(p.block)))
    else if 1 <= p.block < c.expected then Received(c, Some(EncodeAck(p.block)))
    else Received(c, None)
  }

  // ----- the file as blocks

  /** The number of blocks: the last is short, and empty for a multiple of 512. */
  function Blocks(data: Bytes): nat {
    |data| / BLOCK_SIZE + 1
  }

  function Block(data: Bytes, k: nat): Bytes
    requires k >= 1
  {
    Mid(data, (k - 1) * BLOCK_SIZE, BLOCK_SIZE)
  }

  /** The first k blocks. */
  function Prefix(data: Bytes, k: nat): Bytes {
    data[..Min(|data|, k * BLOCK_SIZE)]
  }

  lemma BlockLength(data: Bytes, k: nat)
    requires 1 <= k <= Blocks(data)
    ensures |Block(data, k)| == Min(BLOCK_SIZE, |data| - (k - 1) * BLOCK_SIZE)
    ensures |Block(data, k)| < BLOCK_SIZE <==> k == Blocks(data)
  {
  }

  lemma PrefixGrows(data: Bytes, k: nat)
    requires 1 <= k <= Blocks(data)
    ensures Prefix(data, k - 1) + Block(data, k) == Prefix(data, k)
  {
  }

  lemma PrefixWhole(data: Bytes)
    ensures Prefix(data, Blocks(data)) == data
  {
  }

  // ----- the network

  /** What each peer asks for, over the files the server resolves names to. */
  datatype Config = Config(files: Bytes -> Lookup, wants: map<Peer, Bytes>, mode: Bytes)

  datatype Message = Message(peer: Peer, dg: Bytes)

  /** A datagram once sent may arrive any number of times, in any order, or never. */
  datatype World = World(server: map<Peer, Transfer>, clients: map<Peer, Client>,
                         toServer: set<Message>, toClient: set<Message>)

  datatype Action =
    | Request(peer: Peer)
    | ServerGets(m: Message)
    | ClientGets(m: Message)

  ghost predicate Init(cfg: Config, w: World) {
    w.server == map[] && w.clients == (map p | p in cfg.wants :: IDLE) && w.toServer == {} && w.toClient == {}
  }

  function Sent(peer: Peer, reply: Option<Bytes>): set<Message> {
    match reply
    case None => {}
    case Some(dg) => {Message(peer, dg)}
  }

  ghost predicate Next(cfg: Config, w: World, a: Action, w': World) {
    match a
    case Request(p) =>
      p in cfg.wants &&
      w' == w.(toServer := w.toServer + {Message(p, EncodeRrq(cfg.wants[p], cfg.mode))})
    case ServerGets(m) =>
      m in w.toServer &&
      var s := Serve(cfg.files, w.server, m.peer, m.dg);
      w' == w.(server := s.transfers, toClient := w.toClient + Sent(m.peer, s.reply))
    case ClientGets(m) =>
      m in w.toClient && m.peer in w.clients &&
      var r := Receive(w.clients[m.peer], m.dg);
      w' == w.(clients := w.clients[m.peer := r.c], toServer := w.toServer + Sent(m.peer, r.reply))
  }

  /** A run: worlds joined by actions. */
  datatype Run = Run(worlds: seq<World>, actions: seq<Action>)

  ghost predicate IsRun(cfg: Config, r: Run) {
    |r.worlds| == |r.actions| + 1 && Init(cfg, r.worlds[0]) &&
    forall i | 0 <= i < |r.actions| :: Next(cfg, r.worlds[i], r.actions[i], r.worlds[i + 1])
  }

  ghost predicate LegalConfig(cfg: Config) {
    ZeroFree(cfg.mode) && forall p | p in cfg.wants :: ZeroFree(cfg.wants[p])
  }

  // ----- the invariant

  /** A peer with no file never gets data. */
  ghost predicate ClientOk(file: Lookup, c: Client) {
    c.expected >= 1 &&
    match file
    case Found(data) =>
      c.expected <= Blocks(data) + 1 && c.expected <= 0x1_0000 && c.got == Prefix(data, c.expected - 1) &&
      (c.done <==> c.expected == Blocks(data) + 1)
    case _ => c == IDLE
  }

  ghost predicate TransferOk(file: Lookup, t: Transfer) {
    file == Found(t.data) && 1 <= t.nextBlock <= Blocks(t.data) && t.nextBlock <= 0x1_0000
  }

  ghost predicate IsBlockMessage(data: Bytes, dg: Bytes, k: nat) {
    1 <= k <= Blocks(data) && k <= 0x1_0000 && dg == EncodeData(k, Block(data, k))
  }

  ghost predicate ToClientOk(file: Lookup, dg: Bytes) {
    Decode(dg).op != DATA || (file.Found? && exists k :: IsBlockMessage(file.data, dg, k))
  }

  ghost predicate IsAckBelow(dg: Bytes, k: nat, expected: nat) {
    1 <= k < expected && dg == EncodeAck(k)
  }

  ghost predicate ToServerOk(cfg: Config, p: Peer, c: Client, dg: Bytes) {
    (p in cfg.wants && dg == EncodeRrq(cfg.wants[p], cfg.mode)) || exists k :: IsAckBelow(dg, k, c.expected)
  }

  function FileOf(cfg: Config, p: Peer): Lookup
    requires p in cfg.wants
  {
    cfg.files(cfg.wants[p])
  }

  ghost predicate Inv(cfg: Config, w: World) {
    w.clients.Keys == cfg.wants.Keys &&
    (forall p | p in w.clients :: ClientOk(FileOf(cfg, p), w.clients[p])) &&
    (forall p | p in w.server :: p in w.clients && TransferOk(FileOf(cfg, p), w.server[p])) &&
    (forall m | m in w.toClient :: m.peer in w.clients && ToClientOk(FileOf(cfg, m.peer), m.dg)) &&
    (forall m | m in w.toServer :: m.peer in w.clients && ToServerOk(cfg, m.peer, w.clients[m.peer], m.dg))
  }

  lemma InitInv(cfg: Config, w: World)
    requires Init(cfg, w)
    ensures Inv(cfg, w)
  {
    forall p | p in w.clients
      ensures ClientOk(FileOf(cfg, p), w.clients[p])
    {
      var file := FileOf(cfg, p);
      if file.Found? {
        assert Prefix(file.data, 0) == [];
      }
    }
  }

  /** The expected block, and only it, extends the client's prefix. */
  lemma ReceiveKeeps(file: Lookup, c: Client, dg: Bytes)
    requires ClientOk(file, c) && ToClientOk(file, dg)
    ensures var r := Receive(c, dg);
            ClientOk(file, r.c) && c.expected <= r.c.expected &&
            (r.reply.Some? ==> exists k :: IsAckBelow(r.reply.value, k, r.c.expected))
  {
    if Decode(dg).op == DATA {
      var k :| IsBlockMessage(file.data, dg, k);
      BlockReceived(file.data, c, k);
    }
  }

  lemma BlockReceived(data: Bytes, c: Client, k: nat)
    requires ClientOk(Found(data), c) && 1 <= k <= Blocks(data) && k <= 0x1_0000
    ensures var r := Receive(c, EncodeData(k, Block(data, k)));
            ClientOk(Found(data), r.c) && c.expected <= r.c.expected &&
            (r.reply.Some? ==> IsAckBelow(r.reply.value, k % 0x1_0000, r.c.expected))
  {
    hide EncodeData, EncodeAck, Block, Prefix;
    DecodeData(k, Block(data, k));
    BlockLength(data, k);
    PrefixGrows(data, k);
  }

  /** A served datagram keeps the transfers right, answers with a block of the file,
      and erases a transfer only once the client has it all. */
  lemma ServeKeeps(cfg: Config, w: World, m: Message)
    requires Inv(cfg, w) && LegalConfig(cfg) && m in w.toServer
    ensures var s, file := Serve(cfg.files, w.server, m.peer, m.dg), FileOf(cfg, m.peer);
            (forall p | p != m.peer ::
               (p in s.transfers <==> p in w.server) && (p in w.server ==> s.transfers[p] == w.server[p])) &&
            (m.peer in s.transfers ==> TransferOk(file, s.transfers[m.peer])) &&
            (s.reply.Some? ==> ToClientOk(file, s.reply.value)) &&
            (m.peer in w.server && m.peer !in s.transfers ==>
               file.Found? && w.clients[m.peer].done && w.clients[m.peer].got == file.data)
  {
    hide TransferOk, ToClientOk, ClientOk, Serve, ServeAck, LegalConfig;
    var c, file := w.clients[m.peer], FileOf(cfg, m.peer);
    assert ToServerOk(cfg, m.peer, c, m.dg);
    if m.dg == EncodeRrq(cfg.wants[m.peer], cfg.mode) {
      RequestKeeps(cfg, w.server, m.peer);
    } else {
      var k :| IsAckBelow(m.dg, k, c.expected);
      ServeOfAck(cfg.files, w.server, m.peer, k);
      if m.peer in w.server {
        AckKeeps(file, w.server, m.peer, c, k);
      }
    }
  }

  /** An acknowledgement concerns its own peer's transfer only. */
  lemma ServeOfAck(files: Bytes -> Lookup, ts: map<Peer, Transfer>, p: Peer, k: nat)
    ensures var s := Serve(files, ts, p, EncodeAck(k));
            s == ServeAck(ts, p, k % 0x1_0000) &&
            (forall q | q != p :: (q in s.transfers <==> q in ts) && (q in ts ==> s.transfers[q] == ts[q])) &&
            (p !in ts ==> s == Served(ts, None))
  {
    DecodeAck(k);
  }

  lemma RequestKeeps(cfg: Config, ts: map<Peer, Transfer>, p: Peer)
    requires LegalConfig(cfg) && p in cfg.wants
    ensures var s, file := Serve(cfg.files, ts, p, EncodeRrq(cfg.wants[p], cfg.mode)), FileOf(cfg, p);
            s.reply.Some? && ToClientOk(file, s.reply.value) &&
            s.transfers == (if file.Found? then ts[p := Transfer(file.data, 1)] else ts) &&
            (file.Found? ==> TransferOk(file, Transfer(file.data, 1)))
  {
    DecodeRrq(cfg.wants[p], cfg.mode);
    var s, file := Serve(cfg.files, ts, p, EncodeRrq(cfg.wants[p], cfg.mode)), FileOf(cfg, p);
    match file
    case Found(data) => assert IsBlockMessage(data, s.reply.value, 1);
    case NotFound => DecodeError(1, FILE_NOT_FOUND);
    case Denied => DecodeError(2, ACCESS_VIOLATION);
  }

  lemma AckKeeps(file: Lookup, ts: map<Peer, Transfer>, p: Peer, c: Client, k: nat)
    requires p in ts && TransferOk(file, ts[p]) && ClientOk(file, c) && 1 <= k < c.expected
    ensures k < 0x1_0000 && file.Found?
    ensures var s := ServeAck(ts, p, k);
            (p in s.transfers ==> TransferOk(file, s.transfers[p])) &&
            (s.reply.Some? ==> ToClientOk(file, s.reply.value)) &&
            (p !in s.transfers ==> c.done && c.got == file.data)
  {
    var t, s := ts[p], ServeAck(ts, p, k);
    if k == t.nextBlock {
      BlockLength(t.data, k);
      if k < Blocks(t.data) {
        assert IsBlockMessage(t.data, s.reply.value, k + 1);
      } else {
        PrefixWhole(t.data);
      }
    }
  }

  lemma NextInv(cfg: Config, w: World, a: Action, w': World)
    requires LegalConfig(cfg) && Inv(cfg, w) && Next(cfg, w, a, w')
    ensures Inv(cfg, w')
  {
    hide ClientOk, TransferOk, ToClientOk, LegalConfig, Receive, Serve, IsAckBelow;
    match a
    case Request(p) =>
    case ServerGets(m) =>
      ServeKeeps(cfg, w, m);
    case ClientGets(m) =>
      ReceiveKeeps(FileOf(cfg, m.peer), w.clients[m.peer], m.dg);
      forall n | n in w'.toServer
        ensures n.peer in w'.clients && ToServerOk(cfg, n.peer, w'.clients[n.peer], n.dg)
      {
        if n in w.toServer && n.peer == m.peer {
          AcksStay(cfg, n.peer, w.clients[n.peer], w'.clients[n.peer], n.dg);
        }
      }
  }

  lemma AcksStay(cfg: Config, p: Peer, c: Client, c': Client, dg: Bytes)
    requires ToServerOk(cfg, p, c, dg) && c.expected <= c'.expected
    ensures ToServerOk(cfg, p, c', dg)
  {
    if k :| IsAckBelow(dg, k, c.expected) {
      assert IsAckBelow(dg, k, c'.expected);
    }
  }

  lemma {:induction false} RunInv(cfg: Config, r: Run, i: nat)
    requires LegalConfig(cfg) && IsRun(cfg, r) && i < |r.worlds|
    ensures Inv(cfg, r.worlds[i])
  {
    if i == 0 {
      InitInv(cfg, r.worlds[0]);
    } else {
      RunInv(cfg, r, i - 1);
      NextInv(cfg, r.worlds[i - 1], r.actions[i - 1], r.worlds[i]);
    }
  }

  /** In every run a client holds a prefix of whole blocks of its file, all of it
      once it is done, and the server erases a transfer only when the client is. */
  lemma RunSafe(cfg: Config, r: Run, i: nat, p: Peer)
    requires LegalConfig(cfg) && IsRun(cfg, r) && i < |r.actions| && p in cfg.wants
    ensures p in r.worlds[i].clients
    ensures var c := r.worlds[i].clients[p];
            match FileOf(cfg, p)
            case Found(data) => c.expected >= 1 && c.got == Prefix(data, c.expected - 1) && (c.done ==> c.got == data)
            case _ => c.got == []
    ensures p in r.worlds[i].server && p !in r.worlds[i + 1].server ==>
              r.worlds[i].clients[p].done && FileOf(cfg, p) == Found(r.worlds[i].clients[p].got)
  {
    RunInv(cfg, r, i);
    var w, a, file := r.worlds[i], r.actions[i], FileOf(cfg, p);
    assert Next(cfg, w, a, r.worlds[i + 1]);
    assert ClientOk(file, w.clients[p]);
    if file.Found? {
      PrefixWhole(file.data);
    }
    if a.ServerGets? && p in w.server && p !in r.worlds[i + 1].server {
      ServeKeeps(cfg, w, a.m);
    }
  }

  // ----- how a transfer ends

  /** One peer and the server, each answering the other at once. */
  datatype Lockstep = Lockstep(server: map<Peer, Transfer>, client: Client, inFlight: Option<Bytes>, sent: nat)

  function Start(cfg: Config, p: Peer): Lockstep
    requires p in cfg.wants
  {
    var s := Serve(cfg.files, map[], p, EncodeRrq(cfg.wants[p], cfg.mode));
    Lockstep(s.transfers, IDLE, s.reply, if s.reply.Some? then 1 else 0)
  }

  /** The client answers the datagram in flight, and the server answers that. */
  function Round(cfg: Config, p: Peer, l: Lockstep): Lockstep {
    match l.inFlight
    case None => l
    case Some(dg) =>
      var r := Receive(l.client, dg);
      match r.reply
      case None => l.(client := r.c, inFlight := None)
      case Some(ack) =>
        var s := Serve(cfg.files, l.server, p, ack);
        Lockstep(s.transfers, r.c, s.reply, l.sent + if s.reply.Some? then 1 else 0)
  }

  function Rounds(cfg: Config, p: Peer, n: nat): Lockstep
    requires p in cfg.wants
  {
    if n == 0 then Start(cfg, p) else Round(cfg, p, Rounds(cfg, p, n - 1))
  }

  /** The numbers a 16-bit acknowledgement can reach before the transfer ends. */
  predicate FitsBlockNumbers(data: Bytes) {
    |data| < 65535 * BLOCK_SIZE
  }

  /** After n rounds n + 1 blocks are out. */
  ghost predicate Underway(data: Bytes, p: Peer, n: nat, l: Lockstep) {
    l == Lockstep(map[p := Transfer(data, n + 1)], Client(n + 1, Prefix(data, n), false),
                  Some(EncodeData(n + 1, Block(data, n + 1))), n + 1)
  }

  lemma StartUnderway(cfg: Config, p: Peer)
    requires LegalConfig(cfg) && p in cfg.wants && FileOf(cfg, p).Found?
    ensures Underway(FileOf(cfg, p).data, p, 0, Start(cfg, p))
  {
    hide EncodeData;
    DecodeRrq(cfg.wants[p], cfg.mode);
    assert Prefix(FileOf(cfg, p).data, 0) == [];
  }

  lemma RoundUnderway(cfg: Config, p: Peer, data: Bytes, n: nat, l: Lockstep)
    requires Underway(data, p, n, l) && n + 1 < Blocks(data) && n + 1 < 0x1_0000
    ensures Underway(data, p, n + 1, Round(cfg, p, l))
  {
    hide EncodeData, EncodeAck, Serve, Prefix, Block;
    DecodeData(n + 1, Block(data, n + 1));
    BlockLength(data, n + 1);
    PrefixGrows(data, n + 1);
    ServeOfAck(cfg.files, l.server, p, n + 1);
    BlockIsMid(data, n + 1);
  }

  lemma BlockIsMid(data: Bytes, n: nat)
    ensures Block(data, n + 1) == Mid(data, n * BLOCK_SIZE, BLOCK_SIZE)
  {
  }

  lemma RoundLast(cfg: Config, p: Peer, data: Bytes, n: nat, l: Lockstep)
    requires Underway(data, p, n, l) && n + 1 == Blocks(data) && n + 1 < 0x1_0000
    ensures Round(cfg, p, l) == Lockstep(map[], Client(n + 2, data, true), None, n + 1)
  {
    hide EncodeData, EncodeAck, Serve, Prefix, Block;
    DecodeData(n + 1, Block(data, n + 1));
    BlockLength(data, n + 1);
    PrefixGrows(data, n + 1);
    PrefixWhole(data);
    ServeOfAck(cfg.files, l.server, p, n + 1);
    assert map[p := Transfer(data, n + 1)] - {p} == map[];
  }

  /** Block 65536 goes out as number 0, which no client waits for. */
  lemma RoundStuck(cfg: Config, p: Peer, data: Bytes, l: Lockstep)
    requires Underway(data, p, 0xFFFF, l)
    ensures Round(cfg, p, l) == l.(inFlight := None)
  {
    hide EncodeData;
    DecodeData(0x1_0000, Block(data, 0x1_0000));
  }

  lemma RoundIdle(cfg: Config, p: Peer, l: Lockstep)
    requires l.inFlight == None
    ensures Round(cfg, p, l) == l
  {
  }

  lemma {:induction false} RoundsUnderway(cfg: Config, p: Peer, n: nat)
    requires LegalConfig(cfg) && p in cfg.wants && FileOf(cfg, p).Found?
    requires n < Blocks(FileOf(cfg, p).data) && n < 0x1_0000
    ensures Underway(FileOf(cfg, p).data, p, n, Rounds(cfg, p, n))
  {
    hide Underway, Start, Round, LegalConfig;
    if n == 0 {
      StartUnderway(cfg, p);
    } else {
      RoundsUnderway(cfg, p, n - 1);
      RoundUnderway(cfg, p, FileOf(cfg, p).data, n - 1, Rounds(cfg, p, n - 1));
    }
  }

  lemma {:induction false} RoundsStuck(cfg: Config, p: Peer, n: nat)
    requires LegalConfig(cfg) && p in cfg.wants && FileOf(cfg, p).Found?
    requires !FitsBlockNumbers(FileOf(cfg, p).data)
    ensures p in Rounds(cfg, p, n).server
    ensures n >= 0x1_0000 ==> Rounds(cfg, p, n) == Rounds(cfg, p, 0xFFFF).(inFlight := None)
  {
    hide Start, Round, LegalConfig, Receive;
    var data := FileOf(cfg, p).data;
    assert 0xFFFF < Blocks(data);
    if n < 0x1_0000 {
      RoundsUnderway(cfg, p, n);
    } else {
      RoundsStuck(cfg, p, n - 1);
      RoundsUnderway(cfg, p, 0xFFFF);
      RoundStuck(cfg, p, data, Rounds(cfg, p, 0xFFFF));
      RoundIdle(cfg, p, Rounds(cfg, p, 0xFFFF).(inFlight := None));
    }
  }

  /** A lockstep transfer of S bytes ends exactly when S < 65535 * 512; then it takes
      S / 512 + 1 data packets and the client has the file. */
  lemma LockstepEnds(cfg: Config, p: Peer)
    requires LegalConfig(cfg) && p in cfg.wants && FileOf(cfg, p).Found?
    ensures (exists n :: p !in Rounds(cfg, p, n).server) <==> FitsBlockNumbers(FileOf(cfg, p).data)
    ensures var data := FileOf(cfg, p).data;
            FitsBlockNumbers(data) ==>
              var l := Rounds(cfg, p, Blocks(data));
              p !in l.server && l.sent == |data| / BLOCK_SIZE + 1 && l.client.done && l.client.got == data
  {
    hide Rounds;
    var data := FileOf(cfg, p).data;
    if FitsBlockNumbers(data) {
      var n := Blocks(data) - 1;
      RoundsUnderway(cfg, p, n);
      RoundLast(cfg, p, data, n, Rounds(cfg, p, n));
      RoundsNext(cfg, p, n);
      assert p !in Rounds(cfg, p, n + 1).server;
    } else {
      forall n
        ensures p in Rounds(cfg, p, n).server
      {
        RoundsStuck(cfg, p, n);
      }
    }
  }

  lemma RoundsNext(cfg: Config, p: Peer, n: nat)
    requires p in cfg.wants
    ensures Rounds(cfg, p, n + 1) == Round(cfg, p, Rounds(cfg, p, n))
  {
  }

  /** In no run at all is a longer file's transfer ever erased. */
  lemma LongFilesNeverEnd(cfg: Config, r: Run, i: nat, p: Peer)
    requires LegalConfig(cfg) && IsRun(cfg, r) && i < |r.actions| && p in cfg.wants
    requires FileOf(cfg, p).Found? && !FitsBlockNumbers(FileOf(cfg, p).data)
    requires p in r.worlds[i].server
    ensures p in r.worlds[i + 1].server
  {
    RunInv(cfg, r, i);
    var w, a := r.worlds[i], r.actions[i];
    assert Next(cfg, w, a, r.worlds[i + 1]) && ClientOk(FileOf(cfg, p), w.clients[p]);
    if p !in r.worlds[i + 1].server {
      assert a.ServerGets?;
      ServeKeeps(cfg, w, a.m);
    }
  }
}
