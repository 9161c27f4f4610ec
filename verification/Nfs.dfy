/** Two stateful corners of the NFS server: the table of file handles and the SETATTR
    request. */
module Nfs {
  import opened Basics
  import opened Wire
  import opened Xdr

  // ----- the file handle table

  const IDS := 0x1_0000_0000

  /** The 32-byte handle of an identifier. */
  function HandleOf(id: nat): (h: Bytes)
    ensures |h| == 32
  {
    Be32(id) + Zeros(28)
  }

  lemma HandleInjective(a: nat, b: nat)
    requires a < IDS && b < IDS && HandleOf(a) == HandleOf(b)
    ensures a == b
  {
    var h := HandleOf(a);
    assert h[..4] == Be32(a) && HandleOf(b)[..4] == Be32(b);
    U32Be32(h, 0, a);
    U32Be32(h, 0, b);
  }

  /** The first handle: the number 1 and 28 zeros. */
  lemma FirstHandle()
    ensures NthHandle(0)[..4] == [0, 0, 0, 1] && forall i | 4 <= i < 32 :: NthHandle(0)[i] == 0
  {
  }

  /** The identifier of the `k`-th handle, counting from 0. */
  function Id(k: nat): nat {
    (1 + k) % IDS
  }

  lemma IdInjective(j: nat, k: nat)
    requires j < IDS && k < IDS && Id(j) == Id(k)
    ensures j == k
  {
  }

  function NthHandle(k: nat): (h: Bytes)
    ensures |h| == 32
  {
    HandleOf(Id(k))
  }

  lemma NthInjective(j: nat, k: nat)
    requires j < IDS && k < IDS && NthHandle(j) == NthHandle(k)
    ensures j == k
  {
    hide HandleOf;
    HandleInjective(Id(j), Id(k));
    IdInjective(j, k);
  }

  /** The two maps are inverse to each other. */
  ghost predicate Inverse(paths: map<Bytes, string>, handles: map<string, Bytes>) {
    && (forall p | p in handles :: handles[p] in paths && paths[handles[p]] == p)
    && (forall h | h in paths :: paths[h] in handles && handles[paths[h]] == h)
  }

  /** The handles in use are exactly the first `n`. */
  ghost predicate FirstHandles(paths: map<Bytes, string>, n: nat) {
    && (forall h | h in paths :: exists k | 0 <= k < n :: h == NthHandle(k))
    && (forall k | 0 <= k < n :: NthHandle(k) in paths)
  }

  /** The next handle is already in the table only when the identifiers have run out. */
  lemma Taken(paths: map<Bytes, string>, n: nat)
    requires FirstHandles(paths, n)
    ensures NthHandle(n) in paths <==> n >= IDS
  {
    hide HandleOf;
    if n >= IDS {
      var k := n % IDS;
      assert Id(n) == Id(k);
      assert NthHandle(k) in paths;
    } else if NthHandle(n) in paths {
      var k :| 0 <= k < n && NthHandle(n) == NthHandle(k);
      NthInjective(n, k);
    }
  }

  lemma FirstHandlesGrow(paths: map<Bytes, string>, n: nat, path: string)
    requires FirstHandles(paths, n)
    ensures FirstHandles(paths[NthHandle(n) := path], n + 1)
  {
    hide NthHandle;
    var next := paths[NthHandle(n) := path];
    forall h | h in next
      ensures exists k | 0 <= k < n + 1 :: h == NthHandle(k)
    {
      if h in paths {
        var k :| 0 <= k < n && h == NthHandle(k);
        assert 0 <= k < n + 1;
      }
    }
  }

  /** A new pair keeps the maps inverse exactly when its handle is new too. */
  lemma InverseGrows(paths: map<Bytes, string>, handles: map<string, Bytes>, fh: Bytes, path: string)
    requires Inverse(paths, handles) && path !in handles
    ensures Inverse(paths[fh := path], handles[path := fh]) <==> fh !in paths
  {
    var next := handles[path := fh];
    if fh in paths {
      var p := paths[fh];
      assert next[p] == fh && paths[fh := path][fh] != p;
    }
  }

  class HandleTable {
    var handleToPath: map<Bytes, string>
    var pathToHandle: map<string, Bytes>
    var nextHandle: nat

    constructor ()
      ensures Valid() && handleToPath == map[] && pathToHandle == map[]
    {
      handleToPath, pathToHandle, nextHandle := map[], map[], 1;
    }

    ghost predicate Valid()
      reads this
    {
      && nextHandle == Id(|pathToHandle|)
      && Inverse(handleToPath, pathToHandle)
      && FirstHandles(handleToPath, |pathToHandle|)
    }

    /** The path of a handle; no path for a handle never given out. */
    function PathFor(fh: Bytes): string
      reads this
    {
      if fh in handleToPath then handleToPath[fh] else ""
    }

    /** Gives a path its handle: the one it has, or else a new one. Every handle given out
        before keeps naming its path, and the table stays one-to-one, exactly as long as
        the 32-bit identifiers last. */
    method FileHandle(path: string) returns (fh: Bytes)
      requires Valid()
      modifies this
      ensures path in old(pathToHandle) ==>
                fh == old(pathToHandle)[path] && handleToPath == old(handleToPath) && pathToHandle == old(pathToHandle)
      ensures path !in old(pathToHandle) ==>
                && handleToPath == old(handleToPath)[fh := path] && pathToHandle == old(pathToHandle)[path := fh]
                && (fh in old(handleToPath) <==> old(|pathToHandle|) >= IDS)
      ensures PathFor(fh) == path && |fh| == 32
      ensures Valid() <==> path in old(pathToHandle) || old(|pathToHandle|) < IDS
    {
      hide Be32, FirstHandles, Inverse;
      if path in pathToHandle {
        Known(path);
        return pathToHandle[path];
      }
      ghost var n := |pathToHandle|;
      var id := nextHandle;
      nextHandle := (nextHandle + 1) % IDS;
      fh := Be32(id) + Zeros(28);
      assert fh == NthHandle(n);
      Taken(handleToPath, n);
      FirstHandlesGrow(handleToPath, n, path);
      InverseGrows(handleToPath, pathToHandle, fh, path);
      pathToHandle := pathToHandle[path := fh];
      handleToPath := handleToPath[fh := path];
    }

    /** The empty handle, which a failed read yields, names no path. */
    lemma NoEmptyHandle()
      requires Valid()
      ensures [] !in handleToPath
    {
    }

    lemma Known(path: string)
      requires Valid() && path in pathToHandle
      ensures |pathToHandle[path]| == 32 && PathFor(pathToHandle[path]) == path
    {
      hide NthHandle;
      var h := pathToHandle[path];
      var k :| 0 <= k < |pathToHandle| && h == NthHandle(k);
    }
  }

  // ----- SETATTR as the server reads it

  datatype Time = Time(seconds: nat, nanoseconds: nat)

  /** What a request does to a time: nothing, the server's time, or a time it gives. */
  datatype SetTime = Keep | ServerTime | ClientTime(time: Time)

  /** A time selector that no time follows. */
  function Untimed(how: nat): SetTime {
    if how == 1 then ServerTime else Keep
  }

  /** What is done to the file: mode bits set, size cut or grown. */
  datatype Change = Change(path: string, mode: Option<nat>, size: Option<nat>)

  function LaxWord(b: Bytes, pos: nat): Got<Option<nat>> {
    var flag := GetWord(b, pos);
    if flag.value != 0 then var v := GetWord(b, flag.pos); Got(Some(v.value), v.pos, v.ok)
    else Got(None, flag.pos, flag.ok)
  }

  function LaxHyper(b: Bytes, pos: nat): Got<Option<nat>> {
    var flag := GetWord(b, pos);
    if flag.value != 0 then var v := GetHyper(b, flag.pos); Got(Some(v.value), v.pos, v.ok)
    else Got(None, flag.pos, flag.ok)
  }

  function LaxTime(b: Bytes, pos: nat): Got<SetTime> {
    var how := GetWord(b, pos);
    if how.value == 2 then
      var s := GetWord(b, how.pos);
      var n := GetWord(b, s.pos);
      Got(ClientTime(Time(s.value, n.value)), n.pos, n.ok)
    else Got(Untimed(how.value), how.pos, how.ok)
  }

  /** Reads on whatever fails; only the outcome of the last read is looked at. */
  function Lax(b: Bytes, pos: nat, paths: map<Bytes, string>): Option<Change> {
    var fh := GetOpaque(b, pos);
    var path := if fh.value in paths then paths[fh.value] else "";
    var mode := LaxWord(b, fh.pos);
    var uid := LaxWord(b, mode.pos);
    var gid := LaxWord(b, uid.pos);
    var size := LaxHyper(b, gid.pos);
    var atime := LaxTime(b, size.pos);
    var mtime := LaxTime(b, atime.pos);
    var guard := GetWord(b, mtime.pos);
    if guard.ok && path != "" then Some(Change(path, Bits(mode.value), size.value)) else None
  }

  /** The permission bits of a mode: its low twelve. */
  function Bits(mode: Option<nat>): Option<nat> {
    match mode
    case None => None
    case Some(m) => Some(m % 0x1000)
  }

  method ReadFlaggedWord(r: XdrReader) returns (v: Option<nat>, ok: bool)
    requires r.Valid()
    modifies r
    ensures r.Valid() && Got(v, r.pos, ok) == LaxWord(r.buf, old(r.pos))
  {
    var flag: nat;
    flag, ok := r.ReadU32();
    v := None;
    if flag != 0 {
      var x: nat;
      x, ok := r.ReadU32();
      v := Some(x);
    }
  }

  method ReadFlaggedHyper(r: XdrReader) returns (v: Option<nat>, ok: bool)
    requires r.Valid()
    modifies r
    ensures r.Valid() && Got(v, r.pos, ok) == LaxHyper(r.buf, old(r.pos))
  {
    var flag: nat;
    flag, ok := r.ReadU32();
    v := None;
    if flag != 0 {
      var x: nat;
      x, ok := r.ReadU64();
      v := Some(x);
    }
  }

  method ReadFlaggedTime(r: XdrReader) returns (v: SetTime, ok: bool)
    requires r.Valid()
    modifies r
    ensures r.Valid() && Got(v, r.pos, ok) == LaxTime(r.buf, old(r.pos))
  {
    var how: nat;
    how, ok := r.ReadU32();
    v := Untimed(how);
    if how == 2 {
      var s, _ := r.ReadU32();
      var n: nat;
      n, ok := r.ReadU32();
      v := ClientTime(Time(s, n));
    }
  }

  // ----- SETATTR as it should be read: all of it or nothing

  datatype Request = Request(fh: Bytes, mode: Option<nat>, uid: Option<nat>, gid: Option<nat>,
                             size: Option<nat>, atime: SetTime, mtime: SetTime, guard: nat)

  function Whole<T>(g: Got<T>): Parsed<T> {
    if g.ok then Done(g.value, g.pos) else Short
  }

  function FlaggedWord(b: Bytes, pos: nat): Parsed<Option<nat>> {
    match Whole(GetWord(b, pos))
    case Short => Short
    case Done(flag, p) =>
      if flag == 0 then Done(None, p)
      else
        match Whole(GetWord(b, p))
        case Short => Short
        case Done(v, q) => Done(Some(v), q)
  }

  function FlaggedHyper(b: Bytes, pos: nat): Parsed<Option<nat>> {
    match Whole(GetWord(b, pos))
    case Short => Short
    case Done(flag, p) =>
      if flag == 0 then Done(None, p)
      else
        match Whole(GetHyper(b, p))
        case Short => Short
        case Done(v, q) => Done(Some(v), q)
  }

  function FlaggedTime(b: Bytes, pos: nat): Parsed<SetTime> {
    match Whole(GetWord(b, pos))
    case Short => Short
    case Done(how, p) =>
      if how != 2 then Done(Untimed(how), p)
      else
        match Whole(GetWord(b, p))
        case Short => Short
        case Done(s, q) =>
          match Whole(GetWord(b, q))
          case Short => Short
          case Done(n, e) => Done(ClientTime(Time(s, n)), e)
  }

  function Attributes(b: Bytes, pos: nat, fh: Bytes): Parsed<Request> {
    match FlaggedWord(b, pos)
    case Short => Short
    case Done(mode, p1) =>
      match FlaggedWord(b, p1)
      case Short => Short
      case Done(uid, p2) =>
        match FlaggedWord(b, p2)
        case Short => Short
        case Done(gid, p3) =>
          match FlaggedHyper(b, p3)
          case Short => Short
          case Done(size, p4) => Times(b, p4, Request(fh, mode, uid, gid, size, Keep, Keep, 0))
  }

  function Times(b: Bytes, pos: nat, r: Request): Parsed<Request> {
    match FlaggedTime(b, pos)
    case Short => Short
    case Done(atime, p1) =>
      match FlaggedTime(b, p1)
      case Short => Short
      case Done(mtime, p2) =>
        match Whole(GetWord(b, p2))
        case Short => Short
        case Done(guard, p3) => Done(r.(atime := atime, mtime := mtime, guard := guard), p3)
  }

  /** The whole request, or nothing when any part of it is missing. */
  function Parse(b: Bytes, pos: nat): Parsed<Request> {
    match Whole(GetOpaque(b, pos))
    case Short => Short
    case Done(fh, p) => Attributes(b, p, fh)
  }

  /** What a request that parsed asks for: nothing for an unknown handle. */
  function Intended(p: Parsed<Request>, paths: map<Bytes, string>): Option<Change> {
    match p
    case Short => None
    case Done(r, _) =>
      if r.fh in paths && paths[r.fh] != "" then Some(Change(paths[r.fh], Bits(r.mode), r.size)) else None
  }

  /** A lax read either agrees with the strict one or leaves the reader spent. */
  ghost predicate Agrees<T(!new)>(b: Bytes, lax: Got<T>, strict: Parsed<T>) {
    match strict
    case Done(v, end) => lax == Got(v, end, true)
    case Short => !lax.ok && Spent(b, lax.pos)
  }

  lemma WordAgrees(b: Bytes, pos: nat)
    ensures Agrees(b, LaxWord(b, pos), FlaggedWord(b, pos))
    ensures Spent(b, pos) ==> FlaggedWord(b, pos) == Short
  {
  }

  lemma HyperAgrees(b: Bytes, pos: nat)
    ensures Agrees(b, LaxHyper(b, pos), FlaggedHyper(b, pos))
    ensures Spent(b, pos) ==> FlaggedHyper(b, pos) == Short
  {
  }

  lemma TimeAgrees(b: Bytes, pos: nat)
    ensures Agrees(b, LaxTime(b, pos), FlaggedTime(b, pos))
    ensures Spent(b, pos) ==> FlaggedTime(b, pos) == Short
  {
  }

  /** SETATTR changes a file exactly when the whole request is there and its handle
      names a path, and then exactly as asked, provided the empty handle names none. */
  lemma SetAttrAllOrNothing(b: Bytes, pos: nat, paths: map<Bytes, string>)
    requires [] !in paths
    ensures Lax(b, pos, paths) == Intended(Parse(b, pos), paths)
  {
    hide GetHyper, GetFixed, LaxWord, LaxHyper, LaxTime, FlaggedWord, FlaggedHyper, FlaggedTime, Bits;
    var fh := GetOpaque(b, pos);
    assert !fh.ok ==> fh.value == [] by {
      OpaqueFails(b, pos);
    }
    var mode := LaxWord(b, fh.pos);
    WordAgrees(b, fh.pos);
    var uid := LaxWord(b, mode.pos);
    WordAgrees(b, mode.pos);
    var gid := LaxWord(b, uid.pos);
    WordAgrees(b, uid.pos);
    var size := LaxHyper(b, gid.pos);
    HyperAgrees(b, gid.pos);
    var atime := LaxTime(b, size.pos);
    TimeAgrees(b, size.pos);
    var mtime := LaxTime(b, atime.pos);
    TimeAgrees(b, atime.pos);
    FailureSticks(b, mtime.pos);
  }

  lemma OpaqueFails(b: Bytes, pos: nat)
    ensures !GetOpaque(b, pos).ok ==> GetOpaque(b, pos).value == []
  {
  }

  /** SETATTR: `ok` is overwritten by every read, yet only whole requests change a file. */
  method SetAttr(r: XdrReader, table: HandleTable) returns (change: Option<Change>)
    requires table.Valid() && r.Valid()
    modifies r
    ensures change == Intended(Parse(r.buf, old(r.pos)), table.handleToPath)
  {
    hide GetWord, GetOpaque, LaxWord, LaxHyper, LaxTime, Bits, Parse, Intended;
    ghost var start := r.pos;
    var fh, ok := r.ReadOpaqueVar();
    var path := table.PathFor(fh);
    var mode: Option<nat>;
    mode, ok := ReadFlaggedWord(r);
    var uid: Option<nat>;
    uid, ok := ReadFlaggedWord(r);
    var gid: Option<nat>;
    gid, ok := ReadFlaggedWord(r);
    var size: Option<nat>;
    size, ok := ReadFlaggedHyper(r);
    var atime: SetTime;
    atime, ok := ReadFlaggedTime(r);
    var mtime: SetTime;
    mtime, ok := ReadFlaggedTime(r);
    var guard: nat;
    guard, ok := r.ReadU32();
    change := if ok && path != "" then Some(Change(path, Bits(mode), size)) else None;
    table.NoEmptyHandle();
    SetAttrAllOrNothing(r.buf, start, table.handleToPath);
  }

  // ----- requests cut short, and requests as they are sent

  /** A read on a cut-off buffer gives the same when it lies before the cut, and falls
      short when it does not. */
  ghost predicate Cut<T>(k: nat, whole: Parsed<T>, cut: Parsed<T>) {
    whole.Done? ==> cut == if whole.end <= k then whole else Short
  }

  lemma CutWord(b: Bytes, pos: nat, k: nat)
    requires k <= |b|
    ensures Cut(k, Whole(GetWord(b, pos)), Whole(GetWord(b[..k], pos)))
  {
  }

  lemma CutOpaque(b: Bytes, pos: nat, k: nat)
    requires k <= |b|
    ensures Cut(k, Whole(GetOpaque(b, pos)), Whole(GetOpaque(b[..k], pos)))
  {
    var g := GetOpaque(b, pos);
    if g.ok && g.pos <= k {
      var n := U32(b, pos);
      assert b[pos + 4..pos + 4 + n] == b[..k][pos + 4..pos + 4 + n];
    }
  }

  lemma CutFlaggedWord(b: Bytes, pos: nat, k: nat)
    requires k <= |b|
    ensures Cut(k, FlaggedWord(b, pos), FlaggedWord(b[..k], pos))
  {
    hide U32;
    CutWord(b, pos, k);
    CutWord(b, pos + 4, k);
  }

  lemma CutFlaggedHyper(b: Bytes, pos: nat, k: nat)
    requires k <= |b|
    ensures Cut(k, FlaggedHyper(b, pos), FlaggedHyper(b[..k], pos))
  {
    hide U32;
    CutWord(b, pos, k);
    CutWord(b, pos + 4, k);
    CutWord(b, pos + 8, k);
  }

  lemma CutFlaggedTime(b: Bytes, pos: nat, k: nat)
    requires k <= |b|
    ensures Cut(k, FlaggedTime(b, pos), FlaggedTime(b[..k], pos))
  {
    hide U32;
    CutWord(b, pos, k);
    CutWord(b, pos + 4, k);
    CutWord(b, pos + 8, k);
  }

  lemma CutTimes(b: Bytes, pos: nat, r: Request, k: nat)
    requires k <= |b|
    ensures Cut(k, Times(b, pos, r), Times(b[..k], pos, r))
  {
    hide FlaggedTime, GetWord;
    CutFlaggedTime(b, pos, k);
    match FlaggedTime(b, pos)
    case Short =>
    case Done(_, p1) =>
      CutFlaggedTime(b, p1, k);
      match FlaggedTime(b, p1)
      case Short =>
      case Done(_, p2) =>
        CutWord(b, p2, k);
        Ends(b, pos);
        Ends(b, p1);
        Ends(b, p2);
  }

  /** Every read ends after where it started. */
  lemma Ends(b: Bytes, pos: nat)
    ensures FlaggedWord(b, pos).Done? ==> FlaggedWord(b, pos).end > pos
    ensures FlaggedHyper(b, pos).Done? ==> FlaggedHyper(b, pos).end > pos
    ensures FlaggedTime(b, pos).Done? ==> FlaggedTime(b, pos).end > pos
    ensures Whole(GetWord(b, pos)).Done? ==> Whole(GetWord(b, pos)).end > pos
  {
  }

  lemma CutAttributes(b: Bytes, pos: nat, fh: Bytes, k: nat)
    requires k <= |b|
    ensures Cut(k, Attributes(b, pos, fh), Attributes(b[..k], pos, fh))
    ensures Attributes(b, pos, fh).Done? ==> Attributes(b, pos, fh).end > pos
  {
    hide FlaggedWord, FlaggedHyper, Times;
    var c := b[..k];
    Ends(b, pos);
    CutFlaggedWord(b, pos, k);
    if FlaggedWord(b, pos).Done? {
      var p1 := FlaggedWord(b, pos).end;
      Ends(b, p1);
      CutFlaggedWord(b, p1, k);
      if FlaggedWord(b, p1).Done? {
        var p2 := FlaggedWord(b, p1).end;
        Ends(b, p2);
        CutFlaggedWord(b, p2, k);
        if FlaggedWord(b, p2).Done? {
          var p3 := FlaggedWord(b, p2).end;
          Ends(b, p3);
          CutFlaggedHyper(b, p3, k);
          if FlaggedHyper(b, p3).Done? {
            var p4 := FlaggedHyper(b, p3).end;
            var r := Request(fh, FlaggedWord(b, pos).value, FlaggedWord(b, p1).value, FlaggedWord(b, p2).value,
                             FlaggedHyper(b, p3).value, Keep, Keep, 0);
            CutTimes(b, p4, r, k);
            TimesEnd(b, p4, r);
          }
        }
      }
    }
  }

  lemma TimesEnd(b: Bytes, pos: nat, r: Request)
    ensures Times(b, pos, r).Done? ==> Times(b, pos, r).end > pos
  {
  }

  /** Parsing sees a request exactly when all its bytes are there: cut anywhere before its
      end it does not parse, cut at its end or later it parses to the same. */
  lemma CutParse(b: Bytes, pos: nat, k: nat)
    requires k <= |b|
    ensures Cut(k, Parse(b, pos), Parse(b[..k], pos))
  {
    hide GetOpaque, Attributes;
    CutOpaque(b, pos, k);
    var g := GetOpaque(b, pos);
    if g.ok {
      CutAttributes(b, g.pos, g.value, k);
    }
  }

  /** A datagram that ends inside a SETATTR request changes no file. */
  lemma CutRequestChangesNothing(b: Bytes, pos: nat, k: nat, paths: map<Bytes, string>)
    requires [] !in paths
    requires Parse(b, pos).Done? && k < Parse(b, pos).end && k <= |b|
    ensures Lax(b[..k], pos, paths) == None
  {
    hide Lax, Parse;
    CutParse(b, pos, k);
    SetAttrAllOrNothing(b[..k], pos, paths);
  }

  function WordField(v: Option<nat>): Bytes {
    match v
    case None => Be32(0)
    case Some(n) => Be32(1) + Be32(n)
  }

  function HyperField(v: Option<nat>): Bytes {
    match v
    case None => Be32(0)
    case Some(n) => Be32(1) + Encode(Hyper(n))
  }

  function TimeField(v: SetTime): Bytes {
    match v
    case Keep => Be32(0)
    case ServerTime => Be32(1)
    case ClientTime(t) => Be32(2) + (Be32(t.seconds) + Be32(t.nanoseconds))
  }

  /** The request in its XDR form, up to the guard's flag. */
  function RequestBytes(r: Request): Bytes {
    Encode(Opaque(r.fh)) +
    (WordField(r.mode) + (WordField(r.uid) + (WordField(r.gid) + (HyperField(r.size) + TimesBytes(r)))))
  }

  function TimesBytes(r: Request): Bytes {
    TimeField(r.atime) + (TimeField(r.mtime) + Be32(r.guard))
  }

  predicate Below(v: Option<nat>, limit: nat) {
    v.Some? ==> v.value < limit
  }

  predicate TimeFits(v: SetTime) {
    v.ClientTime? ==> v.time.seconds < 0x1_0000_0000 && v.time.nanoseconds < 0x1_0000_0000
  }

  /** Every field fits its XDR type. */
  predicate Fits(r: Request) {
    && |r.fh| < 0x1_0000_0000 && r.guard < 0x1_0000_0000
    && Below(r.mode, 0x1_0000_0000) && Below(r.uid, 0x1_0000_0000) && Below(r.gid, 0x1_0000_0000)
    && Below(r.size, 0x1_0000_0000_0000_0000) && TimeFits(r.atime) && TimeFits(r.mtime)
  }

  lemma WordBack(b: Bytes, pos: nat, v: nat)
    requires v < 0x1_0000_0000 && Has(b, pos, Be32(v))
    ensures GetWord(b, pos) == Got(v, pos + 4, true)
  {
    hide U32, Be32;
    U32Be32(b, pos, v);
  }

  lemma WordFieldBack(b: Bytes, pos: nat, v: Option<nat>)
    requires Below(v, 0x1_0000_0000) && Has(b, pos, WordField(v))
    ensures FlaggedWord(b, pos) == Done(v, pos + |WordField(v)|)
  {
    hide GetWord, Be32, Has;
    if v.Some? {
      HasSplit(b, pos, Be32(1), Be32(v.value));
      WordBack(b, pos, 1);
      WordBack(b, pos + 4, v.value);
    } else {
      WordBack(b, pos, 0);
    }
  }

  lemma HyperFieldBack(b: Bytes, pos: nat, v: Option<nat>)
    requires Below(v, 0x1_0000_0000_0000_0000) && Has(b, pos, HyperField(v))
    ensures FlaggedHyper(b, pos) == Done(v, pos + |HyperField(v)|)
  {
    hide GetWord, GetHyper, Be32, Has;
    if v.Some? {
      HasSplit(b, pos, Be32(1), Encode(Hyper(v.value)));
      WordBack(b, pos, 1);
      ItemRoundTrip(b, pos + 4, Hyper(v.value));
    } else {
      WordBack(b, pos, 0);
    }
  }

  lemma TimeFieldBack(b: Bytes, pos: nat, v: SetTime)
    requires TimeFits(v) && Has(b, pos, TimeField(v))
    ensures FlaggedTime(b, pos) == Done(v, pos + |TimeField(v)|)
  {
    hide GetWord, Be32, Has;
    match v
    case Keep => WordBack(b, pos, 0);
    case ServerTime => WordBack(b, pos, 1);
    case ClientTime(t) =>
      HasSplit(b, pos, Be32(2), Be32(t.seconds) + Be32(t.nanoseconds));
      HasSplit(b, pos + 4, Be32(t.seconds), Be32(t.nanoseconds));
      WordBack(b, pos, 2);
      WordBack(b, pos + 4, t.seconds);
      WordBack(b, pos + 8, t.nanoseconds);
  }

  lemma TimesBack(b: Bytes, pos: nat, r: Request)
    requires Fits(r) && Has(b, pos, TimesBytes(r))
    ensures Times(b, pos, r.(atime := Keep, mtime := Keep, guard := 0)) == Done(r, pos + |TimesBytes(r)|)
  {
    hide FlaggedTime, GetWord, Be32, Has, TimeField, TimeFits;
    HasSplit(b, pos, TimeField(r.atime), TimeField(r.mtime) + Be32(r.guard));
    var p1 := pos + |TimeField(r.atime)|;
    HasSplit(b, p1, TimeField(r.mtime), Be32(r.guard));
    TimeFieldBack(b, pos, r.atime);
    TimeFieldBack(b, p1, r.mtime);
    WordBack(b, p1 + |TimeField(r.mtime)|, r.guard);
  }

  /** A request as a client encodes it parses to exactly that request. */
  lemma RequestRoundTrip(b: Bytes, pos: nat, r: Request)
    requires Fits(r) && Has(b, pos, RequestBytes(r))
    ensures Parse(b, pos) == Done(r, pos + |RequestBytes(r)|)
  {
    hide FlaggedWord, FlaggedHyper, Times, GetOpaque, Encode, Has, WordField, HyperField, TimesBytes, Below;
    var e4 := HyperField(r.size) + TimesBytes(r);
    var e3 := WordField(r.gid) + e4;
    var e2 := WordField(r.uid) + e3;
    var e1 := WordField(r.mode) + e2;
    HasSplit(b, pos, Encode(Opaque(r.fh)), e1);
    var p1 := pos + |Encode(Opaque(r.fh))|;
    HasSplit(b, p1, WordField(r.mode), e2);
    var p2 := p1 + |WordField(r.mode)|;
    HasSplit(b, p2, WordField(r.uid), e3);
    var p3 := p2 + |WordField(r.uid)|;
    HasSplit(b, p3, WordField(r.gid), e4);
    var p4 := p3 + |WordField(r.gid)|;
    HasSplit(b, p4, HyperField(r.size), TimesBytes(r));
    ItemRoundTrip(b, pos, Opaque(r.fh));
    WordFieldBack(b, p1, r.mode);
    WordFieldBack(b, p2, r.uid);
    WordFieldBack(b, p3, r.gid);
    HyperFieldBack(b, p4, r.size);
    TimesBack(b, p4 + |HyperField(r.size)|, r);
  }

  /** The ctime that follows a guard whose flag is set. */
  function GuardTime(ctime: Option<Time>): Bytes {
    match ctime
    case None => []
    case Some(t) => Be32(t.seconds) + Be32(t.nanoseconds)
  }

  /** A request with its guard as section 3.3.2 of RFC 1813 lays it out: the flag says
      whether a ctime follows. */
  function GuardedBytes(r: Request, ctime: Option<Time>): Bytes {
    RequestBytes(r.(guard := if ctime.Some? then 1 else 0)) + GuardTime(ctime)
  }

  /** Whether and with whatever ctime a request is guarded, the server parses it and makes
      the change: the guard is not compared. */
  lemma GuardNotCompared(b: Bytes, pos: nat, r: Request, ctime: Option<Time>, paths: map<Bytes, string>)
    requires [] !in paths && Fits(r) && Has(b, pos, GuardedBytes(r, ctime))
    ensures Lax(b, pos, paths) == Intended(Done(r, pos), paths)
  {
    hide Lax, Parse, Has, RequestBytes;
    var guarded := r.(guard := if ctime.Some? then 1 else 0);
    HasSplit(b, pos, RequestBytes(guarded), GuardTime(ctime));
    RequestRoundTrip(b, pos, guarded);
    SetAttrAllOrNothing(b, pos, paths);
  }

  /** The mode that is set is the low twelve bits of the mode asked for. */
  predicate TwelveBits(asked: Option<nat>, done: Option<nat>) {
    && (asked.Some? <==> done.Some?)
    && (asked.Some? ==> done.value < 0x1000 && done.value <= asked.value && (asked.value - done.value) % 0x1000 == 0)
  }

  lemma BitsAre(mode: Option<nat>)
    ensures TwelveBits(mode, Bits(mode))
    ensures mode.Some? && mode.value < 0x1000 ==> Bits(mode) == mode
  {
    if mode.Some? {
      var m := mode.value;
      assert m == 0x1000 * (m / 0x1000) + m % 0x1000;
      Quotient(0x1000, m / 0x1000, m - m % 0x1000);
    }
  }

  /** A request for a handle that names a path changes that path, sets its mode to the low
      twelve bits of the mode given, if any, and its size to the size given, if any; and no
      other request changes anything. */
  lemma RequestDone(b: Bytes, pos: nat, r: Request, ctime: Option<Time>, paths: map<Bytes, string>)
    requires [] !in paths && Fits(r) && Has(b, pos, GuardedBytes(r, ctime))
    ensures var done := Lax(b, pos, paths);
            && (done.Some? <==> r.fh in paths && paths[r.fh] != "")
            && (done.Some? ==>
                  && done.value.path == paths[r.fh] && TwelveBits(r.mode, done.value.mode)
                  && done.value.size == r.size)
  {
    hide Lax, Has, Bits, TwelveBits, GuardedBytes;
    GuardNotCompared(b, pos, r, ctime, paths);
    BitsAre(r.mode);
  }

  /** Any flag but zero says that a value follows. */
  lemma AnyFlag(b: Bytes, pos: nat, flag: nat, v: nat)
    requires 0 < flag < 0x1_0000_0000 && v < 0x1_0000_0000 && Has(b, pos, Be32(flag) + Be32(v))
    ensures FlaggedWord(b, pos) == Done(Some(v), pos + 8) && LaxWord(b, pos) == Got(Some(v), pos + 8, true)
  {
    hide GetWord, Be32, Has;
    HasSplit(b, pos, Be32(flag), Be32(v));
    WordBack(b, pos, flag);
    WordBack(b, pos + 4, v);
  }
}
