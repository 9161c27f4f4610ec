/** What a peer gets for each datagram it can send, byte by byte as section 5 of RFC 1350
    lays the packets out. */
module TftpAnswers {
  import opened Basics
  import opened Wire
  import opened TftpPacket
  import opened TftpServer

  /** A message as its ASCII codes. */
  function Ascii(s: string): (b: Bytes)
    requires forall i | 0 <= i < |s| :: s[i] as int < 0x80
  {
    seq(|s|, i requires 0 <= i < |s| => s[i] as byte)
  }

  /** An opcode of two bytes. */
  function Opcode(op: byte): Bytes {
    [0, op]
  }

  /** DATA: opcode 3, the block number modulo 65536 and the bytes. */
  function DataPacket(block: nat, data: Bytes): Bytes {
    Opcode(3) + [block / 256 % 256, block % 256] + data
  }

  /** ERROR: opcode 5, the code, the message and a zero. */
  function ErrorPacket(code: byte, msg: string): Bytes
    requires forall i | 0 <= i < |msg| :: msg[i] as int < 0x80
  {
    Opcode(5) + [0, code] + Ascii(msg) + [0]
  }

  // ----- requests

  /** A read request with its name and mode: the first block of the file, at most 512 bytes,
      starts a transfer; a name that is no file, or a file that cannot be read, is an error. */
  lemma ReadRequest(files: Bytes -> Lookup, ts: map<Peer, Transfer>, peer: Peer, name: Bytes, mode: Bytes)
    requires ZeroFree(name) && ZeroFree(mode)
    ensures var s := Serve(files, ts, peer, Opcode(1) + name + [0] + mode + [0]);
            && (files(name).NotFound? ==> s == Served(ts, Some(ErrorPacket(1, "File not found"))))
            && (files(name).Denied? ==> s == Served(ts, Some(ErrorPacket(2, "Access violation"))))
            && (files(name).Found? ==>
                  var data := files(name).data;
                  s == Served(ts[peer := Transfer(data, 1)], Some(DataPacket(1, data[..Min(|data|, 512)]))))
  {
    hide Decode, Mid;
    assert Be16(1) == [0, 1] && Be16(2) == [0, 2] && Be16(5) == [0, 5];
    assert Opcode(1) + name + [0] + mode + [0] == EncodeRrq(name, mode);
    DecodeRrq(name, mode);
    Messages();
    if files(name).Found? {
      MidStart(files(name).data);
    }
  }

  /** A request whose mode does not end is served like one whose mode does, and one whose
      name does not end like one with an empty name. */
  lemma CutRequest(files: Bytes -> Lookup, ts: map<Peer, Transfer>, peer: Peer, name: Bytes, mode: Bytes)
    requires ZeroFree(name) && ZeroFree(mode)
    ensures Serve(files, ts, peer, Opcode(1) + name + [0] + mode) ==
            Serve(files, ts, peer, Opcode(1) + name + [0] + mode + [0])
    ensures Serve(files, ts, peer, Opcode(1) + name) == Serve(files, ts, peer, Opcode(1) + [] + [0] + mode + [0])
  {
    hide Decode;
    assert Be16(1) == [0, 1];
    assert Opcode(1) + name + [0] + mode + [0] == EncodeRrq(name, mode);
    assert Opcode(1) + [] + [0] + mode + [0] == EncodeRrq([], mode);
    DecodeRrq(name, mode);
    DecodeRrq([], mode);
    NoMode(name, mode);
    NoName(name);
  }

  lemma NoMode(name: Bytes, mode: Bytes)
    requires ZeroFree(name) && ZeroFree(mode)
    ensures var p := Decode(Opcode(1) + name + [0] + mode); p.op == RRQ && p.filename == name
  {
    var b, f := Opcode(1) + name + [0] + mode, 2 + |name|;
    assert forall i | 2 <= i < f :: b[i] == name[i - 2];
    ZeroFromIs(b, 2, f);
    assert b[2..f] == name;
  }

  lemma NoName(name: Bytes)
    requires ZeroFree(name)
    ensures var p := Decode(Opcode(1) + name); p.op == RRQ && p.filename == []
  {
    var b := Opcode(1) + name;
    assert forall i | 2 <= i < |b| :: b[i] == name[i - 2];
  }

  lemma MidStart(data: Bytes)
    ensures EncodeData(1, Mid(data, 0, BLOCK_SIZE)) == DataPacket(1, data[..Min(|data|, 512)])
  {
  }

  lemma Messages()
    ensures FILE_NOT_FOUND == Ascii("File not found")
    ensures ACCESS_VIOLATION == Ascii("Access violation")
    ensures READ_ONLY == Ascii("Server is read-only")
  {
  }

  /** Whatever follows a write opcode, the server refuses. */
  lemma WriteRequest(files: Bytes -> Lookup, ts: map<Peer, Transfer>, peer: Peer, rest: Bytes)
    ensures Serve(files, ts, peer, Opcode(2) + rest) == Served(ts, Some(ErrorPacket(2, "Server is read-only")))
  {
    hide ZeroFrom;
    assert Be16(5) == [0, 5] && Be16(2) == [0, 2];
    Messages();
  }

  // ----- acknowledgements

  /** An acknowledgement of the block a transfer waits for: the next 512 bytes, or fewer or
      none at the end of the file; or the end of the transfer when that block was the short
      one. */
  lemma Acknowledged(files: Bytes -> Lookup, ts: map<Peer, Transfer>, peer: Peer, high: byte, low: byte, rest: Bytes)
    requires peer in ts && ts[peer].nextBlock == high * 256 + low
    ensures var k, data := ts[peer].nextBlock, ts[peer].data;
            var s := Serve(files, ts, peer, Opcode(4) + [high, low] + rest);
            if |data| < k * 512 then s == Served(ts - {peer}, None)
            else s == Served(ts[peer := Transfer(data, k + 1)],
                             Some(DataPacket(k + 1, data[k * 512..Min(|data|, k * 512 + 512)])))
  {
    var k, data := ts[peer].nextBlock, ts[peer].data;
    AckRead(high, low, rest);
    if |data| >= k * 512 {
      MidFrom(data, k);
    }
  }

  lemma AckRead(high: byte, low: byte, rest: Bytes)
    ensures var p := Decode(Opcode(4) + [high, low] + rest); p.op == ACK && p.block == high * 256 + low
  {
  }

  lemma MidFrom(data: Bytes, k: nat)
    requires k * 512 <= |data|
    ensures EncodeData(k + 1, Mid(data, k * BLOCK_SIZE, BLOCK_SIZE))
         == DataPacket(k + 1, data[k * 512..Min(|data|, k * 512 + 512)])
  {
  }

  /** Any other acknowledgement is passed over: of another block, or from a peer without a
      transfer. */
  lemma NotAwaited(files: Bytes -> Lookup, ts: map<Peer, Transfer>, peer: Peer, high: byte, low: byte, rest: Bytes)
    requires peer in ts ==> ts[peer].nextBlock != high * 256 + low
    ensures Serve(files, ts, peer, Opcode(4) + [high, low] + rest) == Served(ts, None)
  {
    AckRead(high, low, rest);
  }

  /** So is everything else: datagrams that end early, data, errors and unknown opcodes. */
  lemma PassedOver(files: Bytes -> Lookup, ts: map<Peer, Transfer>, peer: Peer, dg: Bytes)
    requires |dg| < 2 || dg[0] != 0 || dg[1] !in {1, 2, 4} || (dg[1] == 4 && |dg| < 4)
    ensures Serve(files, ts, peer, dg) == Served(ts, None)
  {
  }

  // ----- what the peer reads

  /** The peer reads code and message out of each error, and block and bytes out of data. */
  lemma AnswersRead(code: byte, msg: string, block: nat, data: Bytes)
    requires block < 0x1_0000 && forall i | 0 <= i < |msg| :: 0 < msg[i] as int < 0x80
    ensures var p := Decode(ErrorPacket(code, msg)); p.op == ERROR && p.errorCode == code && p.errorMsg == Ascii(msg)
    ensures var p := Decode(DataPacket(block, data)); p.op == DATA && p.block == block && p.data == data
  {
    hide Decode;
    assert Be16(5) == [0, 5] && Be16(3) == [0, 3] && Be16(code) == [0, code];
    assert ErrorPacket(code, msg) == EncodeError(code, Ascii(msg));
    DecodeError(code, Ascii(msg));
    assert DataPacket(block, data) == EncodeData(block, data);
    DecodeData(block, data);
  }
}
