/** The TFTP packet codec (section 5 of RFC 1350). Names and messages are kept as bytes. */
module TftpPacket {
  import opened Wire

  datatype Op = Invalid | RRQ | WRQ | DATA | ACK | ERROR

  datatype Packet = Packet(op: Op, filename: Bytes, mode: Bytes, block: nat, data: Bytes,
                           errorCode: nat, errorMsg: Bytes, valid: bool)

  const NOTHING := Packet(Invalid, [], [], 0, [], 0, [], false)

  /** The first zero byte from `from` on, or the length when there is none. */
  function ZeroFrom(b: Bytes, from: nat): (k: nat)
    requires from <= |b|
    ensures from <= k <= |b|
    ensures k < |b| ==> b[k] == 0
    ensures forall i | from <= i < k :: b[i] != 0
    decreases |b| - from
  {
    if from == |b| || b[from] == 0 then from else ZeroFrom(b, from + 1)
  }

  /** The opcode is set even when the rest of a request does not parse. */
  function DecodeRequest(b: Bytes, op: Op): Packet
    requires |b| >= 2
  {
    var p := NOTHING.(op := op);
    var fnEnd := ZeroFrom(b, 2);
    if fnEnd == |b| then p
    else
      var q := p.(filename := b[2..fnEnd]);
      var mEnd := ZeroFrom(b, fnEnd + 1);
      if mEnd == |b| then q else q.(mode := b[fnEnd + 1..mEnd], valid := true)
  }

  function Decode(b: Bytes): Packet {
    if |b| < 2 then NOTHING
    else
      var op := U16(b, 0);
      if op == 1 then DecodeRequest(b, RRQ)
      else if op == 2 then DecodeRequest(b, WRQ)
      else if op == 3 then
        if |b| < 4 then NOTHING else NOTHING.(op := DATA, block := U16(b, 2), data := b[4..], valid := true)
      else if op == 4 then
        if |b| < 4 then NOTHING else NOTHING.(op := ACK, block := U16(b, 2), valid := true)
      else if op == 5 then
        if |b| < 4 then NOTHING
        else NOTHING.(op := ERROR, errorCode := U16(b, 2), errorMsg := b[4..ZeroFrom(b, 4)], valid := true)
      else NOTHING
  }

  function EncodeAck(block: nat): Bytes {
    Be16(4) + Be16(block)
  }

  function EncodeData(block: nat, data: Bytes): Bytes {
    Be16(3) + Be16(block) + data
  }

  function EncodeError(code: nat, msg: Bytes): Bytes {
    Be16(5) + Be16(code) + msg + [0]
  }

  /** A read request, as section 5 of RFC 1350 lays it out. */
  function EncodeRrq(filename: Bytes, mode: Bytes): Bytes {
    Be16(1) + filename + [0] + mode + [0]
  }

  lemma DecodeAck(block: nat)
    ensures Decode(EncodeAck(block)) == NOTHING.(op := ACK, block := block % 0x1_0000, valid := true)
  {
    Join16(block);
  }

  /** The block number loses all but its low 16 bits on the wire. */
  lemma DecodeData(block: nat, data: Bytes)
    ensures Decode(EncodeData(block, data))
        == NOTHING.(op := DATA, block := block % 0x1_0000, data := data, valid := true)
  {
    Join16(block);
  }

  ghost predicate ZeroFree(b: Bytes) {
    forall i | 0 <= i < |b| :: b[i] != 0
  }

  lemma ZeroFromIs(b: Bytes, from: nat, k: nat)
    requires from <= k < |b| && b[k] == 0 && forall i | from <= i < k :: b[i] != 0
    ensures ZeroFrom(b, from) == k
  {
  }

  /** An error packet decodes to its code and its message. */
  lemma DecodeError(code: nat, msg: Bytes)
    ensures Decode(EncodeError(code, msg)).op == ERROR
    ensures ZeroFree(msg) ==>
              Decode(EncodeError(code, msg))
              == NOTHING.(op := ERROR, errorCode := code % 0x1_0000, errorMsg := msg, valid := true)
  {
    Join16(code);
    if ZeroFree(msg) {
      var b := EncodeError(code, msg);
      assert forall i | 4 <= i < 4 + |msg| :: b[i] == msg[i - 4];
      ZeroFromIs(b, 4, 4 + |msg|);
      assert b[4..4 + |msg|] == msg;
    }
  }

  lemma DecodeRrq(filename: Bytes, mode: Bytes)
    requires ZeroFree(filename) && ZeroFree(mode)
    ensures Decode(EncodeRrq(filename, mode)) == NOTHING.(op := RRQ, filename := filename, mode := mode, valid := true)
  {
    var b := EncodeRrq(filename, mode);
    var f := 2 + |filename|;
    assert forall i | 2 <= i < f :: b[i] == filename[i - 2];
    assert forall i | f + 1 <= i < f + 1 + |mode| :: b[i] == mode[i - f - 1];
    ZeroFromIs(b, 2, f);
    ZeroFromIs(b, f + 1, f + 1 + |mode|);
    assert b[2..f] == filename && b[f + 1..f + 1 + |mode|] == mode;
  }
}
