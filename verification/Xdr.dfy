/** The XDR writer and reader (sections 4.2, 4.5, 4.9 and 4.10 of RFC 4506). */
module Xdr {
  import opened Wire

  // ----- writing

  datatype Item = Word(v: nat) | Hyper(v: nat) | Fixed(data: Bytes) | Opaque(data: Bytes)

  function RoundUp4(n: nat): nat {
    (n + 3) / 4 * 4
  }

  function Zeros(n: nat): (r: Bytes)
    ensures |r| == n
  {
    seq(n, _ => 0)
  }

  /** Bytes padded with zeros to a multiple of four. */
  function Padded(b: Bytes): (r: Bytes)
    ensures |r| == RoundUp4(|b|)
  {
    b + Zeros(RoundUp4(|b|) - |b|)
  }

  function Encode(item: Item): Bytes {
    match item
    case Word(v) => Be32(v)
    case Hyper(v) => Be32(v / 0x1_0000_0000) + Be32(v)
    case Fixed(data) => Padded(data)
    case Opaque(data) => Be32(|data|) + Padded(data)
  }

  function EncodeAll(items: seq<Item>): Bytes {
    if items == [] then [] else Encode(items[0]) + EncodeAll(items[1..])
  }

  class XdrWriter {
    var buf: Bytes

    constructor ()
      ensures buf == [] && Valid()
    {
      buf := [];
    }

    /** Everything written so far is whole four-byte units. */
    ghost predicate Valid()
      reads this
    {
      |buf| % 4 == 0
    }

    method U32(v: nat)
      requires Valid()
      modifies this
      ensures Valid() && buf == old(buf) + Encode(Word(v))
    {
      buf := buf + [(v / 0x100_0000) % 0x100, (v / 0x1_0000) % 0x100, (v / 0x100) % 0x100, v % 0x100];
    }

    method U64(v: nat)
      requires Valid()
      modifies this
      ensures Valid() && buf == old(buf) + Encode(Hyper(v))
    {
      U32(v / 0x1_0000_0000);
      U32(v);
    }

    /** Pads to a multiple of four, counted over the whole buffer. */
    method OpaqueFixed(b: Bytes)
      requires Valid()
      modifies this
      ensures Valid() && buf == old(buf) + Encode(Fixed(b))
    {
      var size := |buf| + |b|;
      buf := buf + b;
      while |buf| % 4 != 0
        invariant size <= |buf| <= |old(buf)| + RoundUp4(|b|)
        invariant buf == old(buf) + b + Zeros(|buf| - size)
        decreases |old(buf)| + RoundUp4(|b|) - |buf|
      {
        buf := buf + [0];
      }
      assert |buf| == |old(buf)| + RoundUp4(|b|);
    }

    method OpaqueVar(b: Bytes)
      requires Valid()
      modifies this
      ensures Valid() && buf == old(buf) + Encode(Opaque(b))
    {
      U32(|b|);
      OpaqueFixed(b);
    }
  }

  // ----- reading

  /** A value, where the reader stands after it, and whether it was there. */
  datatype Got<+T> = Got(value: T, pos: nat, ok: bool)

  function GetWord(b: Bytes, pos: nat): Got<nat> {
    if |b| < pos + 4 then Got(0, pos, false) else Got(U32(b, pos), pos + 4, true)
  }

  function GetHyper(b: Bytes, pos: nat): Got<nat> {
    var hi := GetWord(b, pos);
    var lo := GetWord(b, hi.pos);
    Got(hi.value * 0x1_0000_0000 + lo.value, lo.pos, hi.ok && lo.ok)
  }

  function GetFixed(b: Bytes, pos: nat, n: nat): Got<Bytes> {
    if |b| < pos + RoundUp4(n) then Got([], pos, false) else Got(b[pos..pos + n], pos + RoundUp4(n), true)
  }

  function GetOpaque(b: Bytes, pos: nat): Got<Bytes> {
    var n := GetWord(b, pos);
    if !n.ok || n.value > |b| then Got([], n.pos, false) else GetFixed(b, n.pos, n.value)
  }

  ghost predicate Aligned(b: Bytes, pos: nat) {
    pos % 4 == 0 && pos <= |b|
  }

  lemma RoundUpAligned(n: nat)
    ensures RoundUp4(n) % 4 == 0
  {
  }

  /** Every read, good or failed, on any buffer, keeps the position inside and aligned. */
  lemma ReadsStayAligned(b: Bytes, pos: nat, n: nat)
    requires Aligned(b, pos)
    ensures Aligned(b, GetWord(b, pos).pos) && Aligned(b, GetHyper(b, pos).pos)
    ensures Aligned(b, GetFixed(b, pos, n).pos) && Aligned(b, GetOpaque(b, pos).pos)
  {
    hide U32, RoundUp4;
    RoundUpAligned(n);
    RoundUpAligned(GetWord(b, pos).value);
  }

  class XdrReader {
    const buf: Bytes
    var pos: nat

    constructor (b: Bytes)
      ensures buf == b && pos == 0 && Valid()
    {
      buf, pos := b, 0;
    }

    /** The position is inside the buffer and a multiple of four. */
    ghost predicate Valid()
      reads this
    {
      Aligned(buf, pos)
    }

    method ReadU32() returns (v: nat, ok: bool)
      requires Valid()
      modifies this
      ensures Valid() && Got(v, pos, ok) == GetWord(buf, old(pos))
    {
      if |buf| < pos + 4 {
        return 0, false;
      }
      v := U32(buf, pos);
      pos := pos + 4;
      ok := true;
    }

    method ReadU64() returns (v: nat, ok: bool)
      requires Valid()
      modifies this
      ensures Valid() && Got(v, pos, ok) == GetHyper(buf, old(pos))
    {
      var hi, a := ReadU32();
      var lo, b := ReadU32();
      v, ok := hi * 0x1_0000_0000 + lo, a && b;
    }

    method ReadOpaqueFixed(n: nat) returns (out: Bytes, ok: bool)
      requires Valid()
      modifies this
      ensures Valid() && Got(out, pos, ok) == GetFixed(buf, old(pos), n)
    {
      var padded := (n + 3) / 4 * 4;
      if |buf| < pos + padded {
        return [], false;
      }
      out := buf[pos..pos + n];
      pos := pos + padded;
      ok := true;
    }

    method ReadOpaqueVar() returns (out: Bytes, ok: bool)
      requires Valid()
      modifies this
      ensures Valid() && Got(out, pos, ok) == GetOpaque(buf, old(pos))
    {
      var n, a := ReadU32();
      if !a || n > |buf| {
        return [], false;
      }
      out, ok := ReadOpaqueFixed(n);
    }
  }

  // ----- what is written reads back

  /** What the format can carry: 32- and 64-bit words, and lengths that fit one. */
  predicate Legal(item: Item) {
    match item
    case Word(v) => v < 0x1_0000_0000
    case Hyper(v) => v < 0x1_0000_0000_0000_0000
    case Fixed(data) => true
    case Opaque(data) => |data| < 0x1_0000_0000
  }

  /** Reading one item whose kind, and for fixed data whose length, is known. */
  function GetItem(b: Bytes, pos: nat, like: Item): Got<Item> {
    match like
    case Word(_) => var g := GetWord(b, pos); Got(Word(g.value), g.pos, g.ok)
    case Hyper(_) => var g := GetHyper(b, pos); Got(Hyper(g.value), g.pos, g.ok)
    case Fixed(data) => var g := GetFixed(b, pos, |data|); Got(Fixed(g.value), g.pos, g.ok)
    case Opaque(_) => var g := GetOpaque(b, pos); Got(Opaque(g.value), g.pos, g.ok)
  }

  /** Reading items one after another; good only when every one was there. */
  function GetItems(b: Bytes, pos: nat, like: seq<Item>): Got<seq<Item>>
    decreases |like|
  {
    if like == [] then Got([], pos, true)
    else
      var one := GetItem(b, pos, like[0]);
      var rest := GetItems(b, one.pos, like[1..]);
      Got([one.value] + rest.value, rest.pos, one.ok && rest.ok)
  }

  lemma PaddedRoundTrip(b: Bytes, pos: nat, data: Bytes)
    requires Has(b, pos, Padded(data))
    ensures GetFixed(b, pos, |data|) == Got(data, pos + |Padded(data)|, true)
  {
    HasSplit(b, pos, data, Zeros(RoundUp4(|data|) - |data|));
    assert b[pos..pos + |data|] == data;
  }

  lemma ItemRoundTrip(b: Bytes, pos: nat, item: Item)
    requires Legal(item) && Has(b, pos, Encode(item))
    ensures GetItem(b, pos, item) == Got(item, pos + |Encode(item)|, true)
  {
    hide Has, U32, Be32, Padded;
    HasInside(b, pos, Encode(item));
    match item
    case Word(v) =>
      U32Be32(b, pos, v);
    case Hyper(v) =>
      var hi := v / 0x1_0000_0000;
      HasSplit(b, pos, Be32(hi), Be32(v));
      U32Be32(b, pos, hi);
      LowWord(v);
      U32Be32(b, pos + 4, v % 0x1_0000_0000);
    case Fixed(data) =>
      PaddedRoundTrip(b, pos, data);
    case Opaque(data) =>
      HasSplit(b, pos, Be32(|data|), Padded(data));
      U32Be32(b, pos, |data|);
      PaddedRoundTrip(b, pos + 4, data);
  }

  lemma LowWord(v: nat)
    ensures Be32(v) == Be32(v % 0x1_0000_0000)
  {
    var q, w := v / 0x1_0000_0000, v % 0x1_0000_0000;
    Byte3(q, w);
    Byte2(q, w);
    Byte1(q, w);
    Mod256(q * 0x100_0000, w);
  }

  /** Counted data is its length, the data and as many zeros as complete a unit of four; a
      double word is its high word and its low word. */
  lemma Layout(data: Bytes, hi: nat, lo: nat)
    requires lo < 0x1_0000_0000
    ensures var e := Encode(Opaque(data));
            && |e| % 4 == 0 && 4 + |data| <= |e| < 8 + |data|
            && e[..4] == Be32(|data|) && e[4..4 + |data|] == data && forall i | 4 + |data| <= i < |e| :: e[i] == 0
    ensures Encode(Hyper(hi * 0x1_0000_0000 + lo)) == Be32(hi) + Be32(lo)
  {
    hide Be32, RoundUp4, Zeros;
    UnitOf4(|data|);
    var zeros := Zeros(RoundUp4(|data|) - |data|);
    ZerosAre(|zeros|);
    assert Encode(Opaque(data)) == Be32(|data|) + (data + zeros);
    HighLow(hi, lo);
    LowWord(hi * 0x1_0000_0000 + lo);
  }

  lemma UnitOf4(n: nat)
    ensures RoundUp4(n) % 4 == 0 && n <= RoundUp4(n) < n + 4
  {
  }

  lemma ZerosAre(n: nat)
    ensures forall i | 0 <= i < n :: Zeros(n)[i] == 0
  {
  }

  lemma HighLow(hi: nat, lo: nat)
    requires lo < 0x1_0000_0000
    ensures var v := hi * 0x1_0000_0000 + lo; v / 0x1_0000_0000 == hi && v % 0x1_0000_0000 == lo
  {
  }

  lemma Mod256(q: nat, y: nat)
    ensures (0x100 * q + y) % 0x100 == y % 0x100
  {
  }

  lemma Byte3(q: nat, w: nat)
    ensures ((0x1_0000_0000 * q + w) / 0x100_0000) % 0x100 == (w / 0x100_0000) % 0x100
  {
    assert (0x1_0000_0000 * q + w) / 0x100_0000 == 0x100 * q + w / 0x100_0000;
    Mod256(q, w / 0x100_0000);
  }

  lemma Byte2(q: nat, w: nat)
    ensures ((0x1_0000_0000 * q + w) / 0x1_0000) % 0x100 == (w / 0x1_0000) % 0x100
  {
    assert (0x1_0000_0000 * q + w) / 0x1_0000 == 0x1_0000 * q + w / 0x1_0000;
    Mod256(q * 0x100, w / 0x1_0000);
  }

  lemma Byte1(q: nat, w: nat)
    ensures ((0x1_0000_0000 * q + w) / 0x100) % 0x100 == (w / 0x100) % 0x100
  {
    assert (0x1_0000_0000 * q + w) / 0x100 == 0x100_0000 * q + w / 0x100;
    Mod256(q * 0x1_0000, w / 0x100);
  }

  lemma EncodeAligned(item: Item)
    ensures |Encode(item)| % 4 == 0
  {
  }

  /** Any sequence of typed writes reads back unchanged, and writer length and reader
      position are multiples of four throughout. */
  lemma {:induction false} ItemsRoundTrip(b: Bytes, pos: nat, items: seq<Item>)
    requires (forall i | 0 <= i < |items| :: Legal(items[i])) && Has(b, pos, EncodeAll(items)) && pos % 4 == 0
    ensures GetItems(b, pos, items) == Got(items, pos + |EncodeAll(items)|, true)
    ensures |EncodeAll(items)| % 4 == 0
    decreases |items|
  {
    hide Has, Encode, GetItem, Legal;
    if items != [] {
      var first, rest := Encode(items[0]), EncodeAll(items[1..]);
      HasSplit(b, pos, first, rest);
      ItemRoundTrip(b, pos, items[0]);
      EncodeAligned(items[0]);
      ItemsRoundTrip(b, pos + |first|, items[1..]);
      assert items == [items[0]] + items[1..];
    }
  }

  lemma {:induction false} EncodeAllSnoc(items: seq<Item>, last: Item)
    ensures EncodeAll(items + [last]) == EncodeAll(items) + Encode(last)
  {
    hide Encode;
    if items == [] {
      assert items + [last] == [last] && [last][1..] == [];
      assert EncodeAll([last]) == Encode(last) + EncodeAll([]);
    } else {
      assert (items + [last])[1..] == items[1..] + [last];
      EncodeAllSnoc(items[1..], last);
    }
  }

  method WriteItem(w: XdrWriter, item: Item)
    requires w.Valid()
    modifies w
    ensures w.Valid() && w.buf == old(w.buf) + Encode(item)
  {
    match item
    case Word(v) => w.U32(v);
    case Hyper(v) => w.U64(v);
    case Fixed(data) => w.OpaqueFixed(data);
    case Opaque(data) => w.OpaqueVar(data);
  }

  /** Writing a list with the writer, item by item. */
  method WriteAll(w: XdrWriter, items: seq<Item>)
    requires w.Valid()
    modifies w
    ensures w.Valid() && w.buf == old(w.buf) + EncodeAll(items)
  {
    hide Encode;
    assert items[..|items|] == items;
    for i := 0 to |items|
      invariant w.Valid() && w.buf == old(w.buf) + EncodeAll(items[..i])
    {
      assert items[..i + 1] == items[..i] + [items[i]];
      EncodeAllSnoc(items[..i], items[i]);
      WriteItem(w, items[i]);
    }
  }

  // ----- failed reads

  /** Less than a word is left: every word read from here on fails and moves nothing. */
  ghost predicate Spent(b: Bytes, pos: nat) {
    |b| < pos + 4
  }

  /** A failed word or double-word read leaves the reader spent, and a spent reader
      fails every word and double-word read and stays where it is. */
  lemma FailureSticks(b: Bytes, pos: nat)
    ensures !GetWord(b, pos).ok ==> Spent(b, GetWord(b, pos).pos)
    ensures !GetHyper(b, pos).ok ==> Spent(b, GetHyper(b, pos).pos)
    ensures Spent(b, pos) ==> GetWord(b, pos) == Got(0, pos, false) && GetHyper(b, pos) == Got(0, pos, false)
  {
  }

  /** Failed counted data does not stick: the reader is spent after it exactly when there
      was no word besides its length, for the length word stays consumed. */
  lemma OpaqueFailureSticksExactly(b: Bytes, pos: nat)
    requires !GetOpaque(b, pos).ok
    ensures Spent(b, GetOpaque(b, pos).pos) <==> |b| < pos + 8
  {
  }

  /** Data announced as forty bytes of which four are there: the next word is read from
      them. */
  lemma ShortOpaqueReadsOn()
    ensures var b: Bytes := [0, 0, 0, 40, 0, 0, 0, 1];
            !GetOpaque(b, 0).ok && GetWord(b, GetOpaque(b, 0).pos) == Got(1, 8, true)
  {
  }
}
