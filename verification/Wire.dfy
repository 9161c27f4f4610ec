/** Bytes on the wire: big-endian words and "these bytes stand at this offset". */
module Wire {
  type byte = x: int | 0 <= x < 256
  type Bytes = seq<byte>

  /** The outcome of reading something out of a byte buffer: the buffer ends too
      early, or the value together with the offset just past it. */
  datatype Parsed<+T> = Short | Done(value: T, end: nat)

  function U16(b: Bytes, off: nat): nat
    requires off + 2 <= |b|
  {
    b[off] as int * 0x100 + b[off + 1]
  }

  function U32(b: Bytes, off: nat): nat
    requires off + 4 <= |b|
  {
    b[off] as int * 0x100_0000 + b[off + 1] as int * 0x1_0000 + b[off + 2] as int * 0x100 + b[off + 3]
  }

  /** The low 16 bits of a value, big-endian. */
  function Be16(v: nat): (r: Bytes)
    ensures |r| == 2
  {
    [(v / 0x100) % 0x100, v % 0x100]
  }

  /** The low 32 bits of a value, big-endian. */
  function Be32(v: nat): (r: Bytes)
    ensures |r| == 4
  {
    [(v / 0x100_0000) % 0x100, (v / 0x1_0000) % 0x100, (v / 0x100) % 0x100, v % 0x100]
  }

  /** Words are written and read with the most significant byte first. */
  lemma MostSignificantFirst(a: byte, b: byte, c: byte, d: byte)
    ensures Be16(a * 0x100 + b) == [a, b] && U16([a, b], 0) == a * 0x100 + b
    ensures Be32(((a * 0x100 + b) * 0x100 + c) * 0x100 + d) == [a, b, c, d]
    ensures U32([a, b, c, d], 0) == ((a * 0x100 + b) * 0x100 + c) * 0x100 + d
  {
    var x: nat := a * 0x100 + b;
    var y: nat := x * 0x100 + c;
    var v: nat := y * 0x100 + d;
    assert v / 0x100 == y && y / 0x100 == x && x / 0x100 == a as int;
    assert v / 0x1_0000 == y / 0x100 && v / 0x100_0000 == x / 0x100;
  }

  lemma Join16(v: nat)
    ensures ((v / 0x100) % 0x100) * 0x100 + v % 0x100 == v % 0x1_0000
  {
    var q := v / 0x100;
    Mod16(v, q / 0x100, 0x100 * (q % 0x100) + v % 0x100);
  }

  lemma Mod16(v: nat, q: nat, r: nat)
    requires v == 0x1_0000 * q + r && r < 0x1_0000
    ensures v % 0x1_0000 == r
  {
  }

  lemma Join32(v: nat)
    requires v < 0x1_0000_0000
    ensures v == ((v / 0x100_0000) % 0x100) * 0x100_0000 + ((v / 0x1_0000) % 0x100) * 0x1_0000
                 + ((v / 0x100) % 0x100) * 0x100 + v % 0x100
  {
    var a := v / 0x100;
    var b := a / 0x100;
    assert b == v / 0x1_0000;
    assert b / 0x100 == v / 0x100_0000 < 0x100;
  }

  lemma U16Be16(b: Bytes, off: nat, v: nat)
    requires Has(b, off, Be16(v))
    ensures U16(b, off) == v % 0x1_0000
  {
    var r := Be16(v);
    assert b[off + 0] == r[0] && b[off + 1] == r[1];
    Join16(v);
  }

  lemma U32Be32(b: Bytes, off: nat, v: nat)
    requires v < 0x1_0000_0000
    requires Has(b, off, Be32(v))
    ensures U32(b, off) == v
  {
    var r := Be32(v);
    assert b[off + 0] == r[0] && b[off + 1] == r[1] && b[off + 2] == r[2] && b[off + 3] == r[3];
    Join32(v);
  }

  /** The bytes `e` stand in `b` at offset `off`. */
  ghost predicate Has(b: Bytes, off: nat, e: Bytes) {
    off + |e| <= |b| && forall i | 0 <= i < |e| :: b[off + i] == e[i]
  }

  lemma HasSplit(b: Bytes, off: nat, e: Bytes, f: Bytes)
    requires Has(b, off, e + f)
    ensures Has(b, off, e) && Has(b, off + |e|, f)
  {
    forall i | 0 <= i < |e|
      ensures b[off + i] == e[i]
    {
      assert (e + f)[i] == e[i];
    }
    forall i | 0 <= i < |f|
      ensures b[off + |e| + i] == f[i]
    {
      assert (e + f)[|e| + i] == f[i];
      assert b[off + (|e| + i)] == (e + f)[|e| + i];
    }
  }

  lemma HasFirst(b: Bytes, off: nat, v: byte, rest: Bytes)
    requires Has(b, off, [v] + rest)
    ensures off < |b| && b[off] == v && Has(b, off + 1, rest)
  {
    HasSplit(b, off, [v], rest);
    assert b[off + 0] == [v][0];
  }

  lemma HasInside(b: Bytes, off: nat, e: Bytes)
    requires Has(b, off, e)
    ensures off + |e| <= |b|
  {
  }

  lemma HasWhole(pre: Bytes, e: Bytes, post: Bytes)
    ensures Has(pre + e + post, |pre|, e)
  {
  }

  /** Two buffers that agree on everything below `q`. */
  ghost predicate SameUpTo(b: Bytes, c: Bytes, q: nat) {
    q <= |b| && q <= |c| && forall i | 0 <= i < q :: b[i] == c[i]
  }
}
