/** The read-only TFTP server: one transfer per peer, advanced by acknowledgements. */
module TftpServer {
  import opened Basics
  import opened Wire
  import opened TftpPacket

  type Peer = string

  const BLOCK_SIZE := 512

  /** What resolving and opening a requested name under the served root gives. */
  datatype Lookup = NotFound | Denied | Found(data: Bytes)

  datatype Transfer = Transfer(data: Bytes, nextBlock: nat)

  /** `mid`: at most `len` bytes from `off` on, none past the end. */
  function Mid(b: Bytes, off: nat, len: nat): Bytes {
    if |b| <= off then [] else b[off..Min(|b|, off + len)]
  }

  const FILE_NOT_FOUND: Bytes := [0x46, 0x69, 0x6C, 0x65, 0x20, 0x6E, 0x6F, 0x74, 0x20, 0x66, 0x6F, 0x75, 0x6E, 0x64]
  const ACCESS_VIOLATION: Bytes := [0x41, 0x63, 0x63, 0x65, 0x73, 0x73, 0x20, 0x76, 0x69, 0x6F, 0x6C, 0x61, 0x74,
      0x69, 0x6F, 0x6E]
  const READ_ONLY: Bytes :=
    [0x53, 0x65, 0x72, 0x76, 0x65, 0x72, 0x20, 0x69, 0x73, 0x20, 0x72, 0x65, 0x61, 0x64, 0x2D, 0x6F, 0x6E, 0x6C, 0x79]

  // ----- what a datagram does

  datatype Served = Served(transfers: map<Peer, Transfer>, reply: Option<Bytes>)

  function ServeRequest(files: Bytes -> Lookup, ts: map<Peer, Transfer>, peer: Peer, filename: Bytes): Served {
    match files(filename)
    case NotFound => Served(ts, Some(EncodeError(1, FILE_NOT_FOUND)))
    case Denied => Served(ts, Some(EncodeError(2, ACCESS_VIOLATION)))
    case Found(data) => Served(ts[peer := Transfer(data, 1)], Some(EncodeData(1, Mid(data, 0, BLOCK_SIZE))))
  }

  /** The bytes of the block a transfer is waiting to have acknowledged. */
  function AckedLength(t: Transfer): int {
    Min(BLOCK_SIZE, |t.data| - (t.nextBlock - 1) * BLOCK_SIZE)
  }

  function ServeAck(ts: map<Peer, Transfer>, peer: Peer, block: nat): Served {
    if peer !in ts || block != ts[peer].nextBlock then Served(ts, None)
    else
      var t := ts[peer];
      if AckedLength(t) < BLOCK_SIZE then Served(ts - {peer}, None)
      else Served(ts[peer := t.(nextBlock := t.nextBlock + 1)],
                  Some(EncodeData(t.nextBlock + 1, Mid(t.data, t.nextBlock * BLOCK_SIZE, BLOCK_SIZE))))
  }

  function Serve(files: Bytes -> Lookup, ts: map<Peer, Transfer>, peer: Peer, dg: Bytes): Served {
    var p := Decode(dg);
    if p.op == RRQ then ServeRequest(files, ts, peer, p.filename)
    else if p.op == ACK then ServeAck(ts, peer, p.block)
    else if p.op == WRQ then Served(ts, Some(EncodeError(2, READ_ONLY)))
    else Served(ts, None)
  }

  // ----- the code

  class Server {
    const files: Bytes -> Lookup
    var transfers: map<Peer, Transfer>

    constructor (files: Bytes -> Lookup)
      ensures this.files == files && transfers == map[]
    {
      this.files, transfers := files, map[];
    }

    /** One pending datagram. */
    method OnDatagram(peer: Peer, buf: Bytes) returns (reply: Option<Bytes>)
      modifies this
      ensures Served(transfers, reply) == Serve(files, old(transfers), peer, buf)
    {
      var p := Decode(buf);
      if p.op == RRQ {
        match files(p.filename)
        case NotFound =>
          return Some(EncodeError(1, FILE_NOT_FOUND));
        case Denied =>
          return Some(EncodeError(2, ACCESS_VIOLATION));
        case Found(data) =>
          transfers := transfers[peer := Transfer(data, 1)];
          return Some(EncodeData(1, Mid(data, 0, BLOCK_SIZE)));
      } else if p.op == ACK {
        if peer !in transfers {
          return None;
        }
        var it := transfers[peer];
        if p.block == it.nextBlock {
          var ackedStart := (it.nextBlock - 1) * BLOCK_SIZE;
          var ackedLen := Min(BLOCK_SIZE, |it.data| - ackedStart);
          if ackedLen < BLOCK_SIZE {
            transfers := transfers - {peer};
            return None;
          }
          it := it.(nextBlock := it.nextBlock + 1);
          transfers := transfers[peer := it];
          return Some(EncodeData(it.nextBlock, Mid(it.data, (it.nextBlock - 1) * BLOCK_SIZE, BLOCK_SIZE)));
        }
      } else if p.op == WRQ {
        return Some(EncodeError(2, READ_ONLY));
      }
      reply := None;
    }
  }
}
