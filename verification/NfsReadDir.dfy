/** READDIR: a directory listing sent out in pages of at most 64 entries (section 3.3.16
    of RFC 1813), and the client that follows the cookies. */
module NfsReadDir {
  import opened Basics
  import opened Wire
  import opened Xdr

  const PAGE := 64

  /** A directory entry: its name, and its inode number or 0 when it has none. */
  datatype Entry = Entry(name: Bytes, ino: nat)

  /** An entry as a reply carries it. */
  datatype Listed = Listed(fileid: nat, name: Bytes, cookie: nat)

  /** What is sent for the entry at an index: its cookie is its position counted from 1,
      which also stands in for a missing inode number. */
  function Sent(e: Entry, i: nat): Listed {
    Listed(if e.ino != 0 then e.ino else i + 1, e.name, i + 1)
  }

  /** The entries `from..to` of a listing, as sent. */
  function Slice(entries: seq<Entry>, from: nat, to: nat): (r: seq<Listed>)
    requires from <= to <= |entries|
    ensures |r| == to - from
    ensures forall i | 0 <= i < |r| :: r[i] == Sent(entries[from + i], from + i)
  {
    seq(to - from, i requires 0 <= i < to - from => Sent(entries[from + i], from + i))
  }

  /** Where the page that starts at a cookie starts and stops. */
  function Start(n: nat, cookie: nat): (r: nat)
    ensures r <= n
  {
    Min(cookie, n)
  }

  function Stop(n: nat, cookie: nat): (r: nat)
    ensures Start(n, cookie) <= r <= n
  {
    Min(Start(n, cookie) + PAGE, n)
  }

  function EntryBytes(e: Listed): Bytes {
    Encode(Word(1)) + (Encode(Hyper(e.fileid)) + (Encode(Opaque(e.name)) + Encode(Hyper(e.cookie))))
  }

  function ListBytes(es: seq<Listed>): Bytes {
    if es == [] then [] else EntryBytes(es[0]) + ListBytes(es[1..])
  }

  lemma {:induction false} ListBytesSnoc(es: seq<Listed>, e: Listed)
    ensures ListBytes(es + [e]) == ListBytes(es) + EntryBytes(e)
  {
    hide EntryBytes;
    if es == [] {
      assert (es + [e])[1..] == [];
    } else {
      assert (es + [e])[1..] == es[1..] + [e];
      ListBytesSnoc(es[1..], e);
    }
  }

  function Tail(eof: bool): Bytes {
    Encode(Word(0)) + Encode(Word(if eof then 1 else 0))
  }

  /** The entry list of a reply: the page, the end mark and the eof flag. */
  function Reply(entries: seq<Entry>, cookie: nat): Bytes {
    var n := |entries|;
    ListBytes(Slice(entries, Start(n, cookie), Stop(n, cookie))) + Tail(Stop(n, cookie) >= n)
  }

  /** The paging loop. */
  method ReadDir(w: XdrWriter, entries: seq<Entry>, cookie: nat)
    requires w.Valid()
    modifies w
    ensures w.Valid() && w.buf == old(w.buf) + Reply(entries, cookie)
  {
    hide EntryBytes, Encode, Sent, ListBytes;
    var n := |entries|;
    ghost var start := Start(n, cookie);
    var idx: nat := 0;
    assert ListBytes([]) == [] by {
      NoBytes();
    }
    for i := 0 to n
      invariant idx == i && w.Valid()
      invariant i <= start + PAGE - 1
      invariant w.buf == old(w.buf) + ListBytes(Slice(entries, start, Max(i, start)))
    {
      idx := idx + 1;
      if idx - 1 < cookie {
        continue;
      }
      PutEntry(w, entries[i], idx);
      ListBytesSnoc(Slice(entries, start, i), Sent(entries[i], i));
      assert Slice(entries, start, i + 1) == Slice(entries, start, i) + [Sent(entries[i], i)];
      if idx - cookie >= PAGE {
        break;
      }
    }
    assert idx == Stop(n, cookie);
    w.U32(0);
    w.U32(if idx >= n then 1 else 0);
  }

  lemma NoBytes()
    ensures ListBytes([]) == []
  {
  }

  method PutEntry(w: XdrWriter, e: Entry, idx: nat)
    requires w.Valid() && idx > 0
    modifies w
    ensures w.Valid() && w.buf == old(w.buf) + EntryBytes(Sent(e, idx - 1))
  {
    hide Encode;
    w.U32(1);
    w.U64(if e.ino != 0 then e.ino else idx);
    w.OpaqueVar(e.name);
    w.U64(idx);
  }

  // ----- the client

  /** A page as a client decodes it; `ok` is false when the bytes end too early. */
  datatype Page = Page(entries: seq<Listed>, eof: bool, ok: bool)

  function ReadPage(b: Bytes, pos: nat): Page
    decreases |b| - pos
  {
    var more := GetWord(b, pos);
    if !more.ok then Page([], false, false)
    else if more.value == 0 then
      var eof := GetWord(b, more.pos);
      Page([], eof.value != 0, eof.ok)
    else
      var id := GetHyper(b, more.pos);
      var name := GetOpaque(b, id.pos);
      var cookie := GetHyper(b, name.pos);
      if !(id.ok && name.ok && cookie.ok) then Page([], false, false)
      else
        var rest := ReadPage(b, cookie.pos);
        Page([Listed(id.value, name.value, cookie.value)] + rest.entries, rest.eof, rest.ok)
  }

  ghost predicate Fits(e: Listed) {
    e.fileid < 0x1_0000_0000_0000_0000 && e.cookie < 0x1_0000_0000_0000_0000 && |e.name| < 0x1_0000_0000
  }

  lemma EntryBack(b: Bytes, pos: nat, e: Listed)
    requires Fits(e) && Has(b, pos, EntryBytes(e))
    ensures GetWord(b, pos) == Got(1, pos + 4, true)
    ensures GetHyper(b, pos + 4) == Got(e.fileid, pos + 12, true)
    ensures GetOpaque(b, pos + 12) == Got(e.name, pos + 12 + |Encode(Opaque(e.name))|, true)
    ensures GetHyper(b, pos + 12 + |Encode(Opaque(e.name))|) == Got(e.cookie, pos + |EntryBytes(e)|, true)
  {
    hide Has, GetWord, GetHyper, GetOpaque;
    var e3 := Encode(Hyper(e.cookie));
    var e2 := Encode(Opaque(e.name)) + e3;
    var e1 := Encode(Hyper(e.fileid)) + e2;
    HasSplit(b, pos, Encode(Word(1)), e1);
    HasSplit(b, pos + 4, Encode(Hyper(e.fileid)), e2);
    HasSplit(b, pos + 12, Encode(Opaque(e.name)), e3);
    ItemRoundTrip(b, pos, Word(1));
    ItemRoundTrip(b, pos + 4, Hyper(e.fileid));
    ItemRoundTrip(b, pos + 12, Opaque(e.name));
    ItemRoundTrip(b, pos + 12 + |Encode(Opaque(e.name))|, Hyper(e.cookie));
  }

  /** A page reads back as it was sent. */
  lemma {:induction false} PageBack(b: Bytes, pos: nat, es: seq<Listed>, eof: bool)
    requires (forall i | 0 <= i < |es| :: Fits(es[i])) && Has(b, pos, ListBytes(es) + Tail(eof))
    ensures ReadPage(b, pos) == Page(es, eof, true)
    decreases |es|
  {
    hide Has, GetHyper, GetOpaque, GetWord, EntryBytes, Encode, Fits;
    HasSplit(b, pos, ListBytes(es), Tail(eof));
    if es == [] {
      TailBack(b, pos, eof);
    } else {
      var rest := ListBytes(es[1..]) + Tail(eof);
      assert ListBytes(es) + Tail(eof) == EntryBytes(es[0]) + rest;
      HasSplit(b, pos, EntryBytes(es[0]), rest);
      EntryBack(b, pos, es[0]);
      PageBack(b, pos + |EntryBytes(es[0])|, es[1..], eof);
      assert es == [es[0]] + es[1..];
    }
  }

  lemma TailBack(b: Bytes, pos: nat, eof: bool)
    requires Has(b, pos, Tail(eof))
    ensures GetWord(b, pos) == Got(0, pos + 4, true)
    ensures GetWord(b, pos + 4) == Got(if eof then 1 else 0, pos + 8, true)
  {
    hide Has, GetWord;
    HasSplit(b, pos, Encode(Word(0)), Encode(Word(if eof then 1 else 0)));
    ItemRoundTrip(b, pos, Word(0));
    ItemRoundTrip(b, pos + 4, Word(if eof then 1 else 0));
  }

  // ----- following the cookies

  /** A listing the reply format can carry. */
  ghost predicate Listable(entries: seq<Entry>) {
    && |entries| < 0x1_0000_0000_0000_0000
    && forall i | 0 <= i < |entries| :: entries[i].ino < 0x1_0000_0000_0000_0000 && |entries[i].name| < 0x1_0000_0000
  }

  /** What the client makes of one reply. */
  lemma ReplyBack(entries: seq<Entry>, cookie: nat)
    requires Listable(entries)
    ensures var n := |entries|;
            ReadPage(Reply(entries, cookie), 0)
            == Page(Slice(entries, Start(n, cookie), Stop(n, cookie)), Stop(n, cookie) >= n, true)
  {
    hide ListBytes, ReadPage, Tail;
    var n := |entries|;
    var b := Reply(entries, cookie);
    assert [] + b + [] == b;
    HasWhole([], b, []);
    PageBack(b, 0, Slice(entries, Start(n, cookie), Stop(n, cookie)), Stop(n, cookie) >= n);
  }

  /** What the client collects, and in how many calls. */
  datatype Collected = Collected(entries: seq<Listed>, calls: nat)

  /** The client: it asks at a cookie, and until told eof asks again at the cookie of the
      last entry it got. */
  function Follow(entries: seq<Entry>, cookie: nat): Collected
    requires Listable(entries)
    decreases |entries| - cookie
  {
    var page := ReadPage(Reply(entries, cookie), 0);
    ReplyBack(entries, cookie);
    if page.eof then Collected(page.entries, 1)
    else
      var rest := Follow(entries, page.entries[|page.entries| - 1].cookie);
      Collected(page.entries + rest.entries, 1 + rest.calls)
  }

  /** The calls a listing of `n` entries takes. */
  function Calls(n: nat): nat {
    Max(1, (n + PAGE - 1) / PAGE)
  }

  lemma {:induction false} FollowFrom(entries: seq<Entry>, cookie: nat)
    requires Listable(entries) && cookie <= |entries|
    ensures Follow(entries, cookie) == Collected(Slice(entries, cookie, |entries|), Calls(|entries| - cookie))
    decreases |entries| - cookie
  {
    hide Listable, ReadPage, Reply;
    var n := |entries|;
    ReplyBack(entries, cookie);
    if cookie + PAGE < n {
      FollowFrom(entries, cookie + PAGE);
      assert Slice(entries, cookie, cookie + PAGE) + Slice(entries, cookie + PAGE, n) == Slice(entries, cookie, n);
    }
  }

  /** The entry received has the name of the one listed, its inode number, or else its place,
      and its place as its cookie. */
  predicate Arrived(got: Listed, e: Entry, place: nat) {
    got.name == e.name && got.fileid == (if e.ino == 0 then place else e.ino) && got.cookie == place
  }

  /** From cookie 0 the client gets every entry exactly once, in order, in one call per 64
      entries and never fewer than one. */
  lemma EveryEntryOnce(entries: seq<Entry>)
    requires Listable(entries)
    ensures var got := Follow(entries, 0);
            && |got.entries| == |entries|
            && (forall i | 0 <= i < |entries| :: Arrived(got.entries[i], entries[i], i + 1))
            && got.calls == if entries == [] then 1 else (|entries| + 63) / 64
  {
    hide Follow;
    FollowFrom(entries, 0);
  }
}
