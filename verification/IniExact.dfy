/** Exactly which session trees survive being printed and parsed again. */
module IniExact {
  import opened Text
  import opened IniSession
  import opened IniStore
  import opened IniRoundTrip

  // ----- newlines

  lemma {:induction false} JoinFree(parts: seq<string>, sep: char, c: char)
    requires AllFree(parts, c) && sep != c
    ensures Free(Join(parts, sep), c)
    decreases |parts|
  {
    hide Free;
    if parts == [] {
      NothingFree(c);
    } else if |parts| > 1 {
      assert AllFree(parts[1..], c);
      JoinFree(parts[1..], sep, c);
      OneFree(sep, c);
      FreeConcat(parts[0], [sep], c);
      FreeConcat(parts[0] + [sep], Join(parts[1..], sep), c);
    }
  }

  lemma NothingFree(c: char)
    ensures Free("", c)
  {
  }

  lemma OneFree(x: char, c: char)
    requires x != c
    ensures Free([x], c)
  {
  }

  lemma KindNameFree(k: Kind, c: char)
    requires c < '0'
    ensures Free(KindName(k), c)
  {
    KindPlain(k);
  }

  lemma SessionLineFree(s: Session)
    requires OneLine(s)
    ensures Free(SessionLine(s), '\n')
  {
    hide Free, Join, KindName, OneLine;
    var parts := [KindName(s.kind)] + Fields(s.params);
    forall i | 0 <= i < |parts|
      ensures Free(parts[i], '\n')
    {
      if i == 0 {
        KindNameFree(s.kind, '\n');
      } else {
        FieldFree(s, i - 1);
      }
    }
    JoinFree(parts, ';', '\n');
    OneFree('=', '\n');
    assert Free(s.name, '\n') by { assert OneLine(s); NameFree(s); }
    FreeConcat(s.name, "=", '\n');
    FreeConcat(s.name + "=", Join(parts, ';'), '\n');
  }

  lemma NameFree(s: Session)
    requires OneLine(s)
    ensures Free(s.name, '\n')
  {
  }

  lemma FieldFree(s: Session, i: nat)
    requires OneLine(s) && i < |s.params|
    ensures Free(Field(s.params[i]), '\n')
  {
    var p := s.params[i];
    FreeConcat(p.key, "=", '\n');
    FreeConcat(p.key + "=", p.value, '\n');
  }

  lemma AllFreeConcat(a: seq<string>, b: seq<string>, c: char)
    requires AllFree(a, c) && AllFree(b, c)
    ensures AllFree(a + b, c)
  {
  }

  lemma {:induction false} FolderLinesFree(f: Folder, header: string)
    requires Shaped(f) && Free(header, '\n') && forall s | s in Bag(f) :: OneLine(s)
    ensures AllFree(FolderLines(f, header), '\n')
    decreases f
  {
    hide Free, OneLine, SessionLine, HeadLine, ForestLines, FolderName;
    HeadLineFree(header);
    forall i | 0 <= i < |f.sessions|
      ensures Free(SessionLines(f.sessions)[i], '\n')
    {
      assert f.sessions[i] in Bag(f);
      SessionLineFree(f.sessions[i]);
    }
    ForestLinesFree(f.folders, header);
    AllFreeConcat([HeadLine(header)], SessionLines(f.sessions), '\n');
    AllFreeConcat([HeadLine(header)] + SessionLines(f.sessions), ForestLines(f.folders, header), '\n');
  }

  lemma HeadLineFree(header: string)
    requires Free(header, '\n')
    ensures Free(HeadLine(header), '\n')
  {
    FreeConcat(HEAD, header, '\n');
    FreeConcat(HEAD + header, "]", '\n');
  }

  lemma {:induction false} ForestLinesFree(fs: seq<Folder>, header: string)
    requires Free(header, '\n') && (forall i | 0 <= i < |fs| :: FolderName(fs[i].name) && Shaped(fs[i]))
    requires forall s | s in Bags(fs) :: OneLine(s)
    ensures AllFree(ForestLines(fs, header), '\n')
    decreases fs
  {
    hide Free, OneLine, FolderLines, Shaped, Bag;
    if fs != [] {
      var sub := header + "/" + fs[0].name;
      OneFree('/', '\n');
      FreeConcat(header, "/", '\n');
      FreeConcat(header + "/", fs[0].name, '\n');
      FolderLinesFree(fs[0], sub);
      ForestLinesFree(fs[1..], header);
      AllFreeConcat(FolderLines(fs[0], sub), ForestLines(fs[1..], header), '\n');
    }
  }

  /** Parsing lines is loading them. */
  lemma LinesLoad(lines: seq<string>)
    requires AllFree(lines, '\n')
    ensures Deserialized(Unlines(lines)) == Load(START, lines).root
  {
    hide Load, Split, Unlines;
    SplitUnlines(lines);
    LoadConcat(START, lines, [""]);
    LoadOne(Load(START, lines), "");
    assert ReadLine("") == Nothing;
  }

  /** Parsing the printed text is loading the printed lines. */
  lemma TextIsLines(t: Folder)
    requires t.name == ROOT && Shaped(t) && forall s | s in Bag(t) :: OneLine(s)
    ensures Deserialized(Serialized(t)) == Load(START, FolderLines(t, ROOT)).root
  {
    hide Load, Unlines, FolderLines, OneLine, Shaped, Bag;
    FolderLinesFree(t, ROOT);
    LinesLoad(FolderLines(t, ROOT));
  }

  // ----- sessions are neither lost nor made up

  lemma MultiAdd(x: multiset<Session>, a: multiset<Session>, c: multiset<Session>, b: multiset<Session>,
                 d: multiset<Session>)
    requires a + c == b + d
    ensures x + a + c == x + b + d
  {
    assert x + a + c == x + (a + c);
  }

  lemma MultiCancel(a: multiset<Session>, b: multiset<Session>, c: multiset<Session>)
    requires a + c == b + c
    ensures a == b
  {
    assert a + c - c == a && b + c - c == b;
  }

  lemma {:induction false} BagsUpdate(fs: seq<Folder>, k: nat, g: Folder)
    requires k < |fs|
    ensures Bags(fs[k := g]) + Bag(fs[k]) == Bags(fs) + Bag(g)
    decreases |fs|
  {
    hide Bag;
    if k == 0 {
      assert fs[k := g][1..] == fs[1..];
      assert Bag(g) + Bags(fs[1..]) + Bag(fs[0]) == Bag(fs[0]) + Bags(fs[1..]) + Bag(g);
    } else {
      assert fs[k := g][1..] == fs[1..][k - 1 := g];
      BagsUpdate(fs[1..], k - 1, g);
      MultiAdd(Bag(fs[0]), Bags(fs[1..][k - 1 := g]), Bag(fs[k]), Bags(fs[1..]), Bag(g));
    }
  }

  lemma {:induction false} BagsSnoc(fs: seq<Folder>, g: Folder)
    ensures Bags(fs + [g]) == Bags(fs) + Bag(g)
  {
    hide Bag;
    if fs == [] {
      assert (fs + [g])[1..] == [];
    } else {
      assert (fs + [g])[1..] == fs[1..] + [g];
      BagsSnoc(fs[1..], g);
    }
  }

  lemma BagUpdate(f: Folder, k: nat, g: Folder)
    requires k < |f.folders|
    ensures Bag(f.(folders := f.folders[k := g])) + Bag(f.folders[k]) == Bag(f) + Bag(g)
  {
    hide Bags;
    BagsUpdate(f.folders, k, g);
    MultiAdd(multiset(f.sessions), Bags(f.folders[k := g]), Bag(f.folders[k]), Bags(f.folders), Bag(g));
  }

  lemma WithChildBag(f: Folder, name: string)
    ensures Bag(WithChild(f, name)) == Bag(f)
  {
    BagsSnoc(f.folders, Folder(name, [], []));
    assert Bag(Folder(name, [], [])) == multiset{};
  }

  lemma {:induction false} EnsureBag(f: Folder, names: seq<string>)
    ensures Bag(Ensure(f, names).root) == Bag(f) && Ensure(f, names).root.name == f.name
    decreases |names|
  {
    hide Bag;
    if names != [] {
      var k := Find(f.folders, names[0]);
      var g := WithChild(f, names[0]);
      WithChildBag(f, names[0]);
      EnsureBag(g.folders[k], names[1..]);
      BagUpdate(g, k, Ensure(g.folders[k], names[1..]).root);
      MultiCancel(Bag(Ensure(f, names).root), Bag(f), Bag(g.folders[k]));
    }
  }

  lemma {:induction false} AddBag(f: Folder, p: seq<nat>, s: Session)
    requires Inside(f, p)
    ensures var n := Sub(f, p);
            Bag(Replace(f, p, n.(sessions := n.sessions + [s]))) == Bag(f) + multiset{s}
    decreases |p|
  {
    var n := Sub(f, p);
    var m := n.(sessions := n.sessions + [s]);
    if p == [] {
      assert multiset(m.sessions) + Bags(f.folders) == multiset(f.sessions) + Bags(f.folders) + multiset{s};
    } else {
      var child := f.folders[p[0]];
      AddBag(child, p[1..], s);
      BagUpdate(f, p[0], Replace(child, p[1..], m));
      assert Bag(f) + (Bag(child) + multiset{s}) == Bag(f) + multiset{s} + Bag(child);
      MultiCancel(Bag(Replace(f, p, m)), Bag(f) + multiset{s}, Bag(child));
    }
  }

  /** How many lines read as sessions. */
  function Entries(lines: seq<string>): nat {
    if lines == [] then 0 else (if ReadLine(lines[0]).Entry? then 1 else 0) + Entries(lines[1..])
  }

  lemma {:induction false} EntriesConcat(a: seq<string>, b: seq<string>)
    ensures Entries(a + b) == Entries(a) + Entries(b)
  {
    hide ReadLine;
    if a == [] {
      assert a + b == b;
    } else {
      assert (a + b)[1..] == a[1..] + b;
      EntriesConcat(a[1..], b);
    }
  }

  lemma StepBag(at: Place, line: Line)
    requires Inside(at.root, at.cur)
    ensures line.Entry? ==> Bag(Step(at, line).root) == Bag(at.root) + multiset{line.session}
    ensures !line.Entry? ==> Bag(Step(at, line).root) == Bag(at.root)
  {
    hide Bag, Ensure, Names;
    match line
    case Nothing =>
    case Head(path) => EnsureBag(at.root, Names(at.root, path));
    case Entry(s) => AddBag(at.root, at.cur, s);
  }

  lemma {:induction false} LoadCount(at: Place, lines: seq<string>)
    requires Inside(at.root, at.cur)
    ensures |Bag(Load(at, lines).root)| == |Bag(at.root)| + Entries(lines)
    decreases |lines|
  {
    hide Bag, Step, ReadLine;
    if lines != [] {
      StepBag(at, ReadLine(lines[0]));
      LoadCount(Step(at, ReadLine(lines[0])), lines[1..]);
    }
  }

  ghost predicate IsEntry(s: Session) {
    ReadLine(SessionLine(s)).Entry?
  }

  lemma {:induction false} SessionEntries(ss: seq<Session>)
    ensures Entries(SessionLines(ss)) <= |ss|
    ensures Entries(SessionLines(ss)) == |ss| ==> forall s | s in ss :: IsEntry(s)
  {
    hide ReadLine, SessionLine;
    if ss != [] {
      assert SessionLines(ss)[1..] == SessionLines(ss[1..]);
      SessionEntries(ss[1..]);
    }
  }

  /** A printed folder gives at most one entry per session; exactly one only when every
      session line reads as a session. */
  lemma {:induction false} FolderEntries(f: Folder, header: string)
    ensures Entries(FolderLines(f, header)) <= |Bag(f)|
    ensures Entries(FolderLines(f, header)) == |Bag(f)| ==> forall s | s in Bag(f) :: IsEntry(s)
    decreases f
  {
    hide ReadLine, SessionLines, HeadLine, IsEntry, ForestLines, Bags;
    ReadHead(header);
    assert Entries([HeadLine(header)]) == 0 by {
      assert [HeadLine(header)][1..] == [];
    }
    EntriesConcat([HeadLine(header)], SessionLines(f.sessions));
    EntriesConcat([HeadLine(header)] + SessionLines(f.sessions), ForestLines(f.folders, header));
    SessionEntries(f.sessions);
    ForestEntries(f.folders, header);
  }

  lemma {:induction false} ForestEntries(fs: seq<Folder>, header: string)
    ensures Entries(ForestLines(fs, header)) <= |Bags(fs)|
    ensures Entries(ForestLines(fs, header)) == |Bags(fs)| ==> forall s | s in Bags(fs) :: IsEntry(s)
    decreases fs
  {
    hide ReadLine, IsEntry, FolderLines, Bag;
    if fs != [] {
      var sub := header + "/" + fs[0].name;
      EntriesConcat(FolderLines(fs[0], sub), ForestLines(fs[1..], header));
      FolderEntries(fs[0], sub);
      ForestEntries(fs[1..], header);
    }
  }

  // ----- what every parsed tree is like

  lemma ShapedUpdate(f: Folder, k: nat, g: Folder)
    requires Shaped(f) && Shaped(g) && k < |f.folders| && g.name == f.folders[k].name
    ensures Shaped(f.(folders := f.folders[k := g]))
  {
    var r := f.(folders := f.folders[k := g]);
    assert forall i | 0 <= i < |r.folders| :: r.folders[i].name == f.folders[i].name;
  }

  lemma WithChildShaped(f: Folder, name: string)
    requires Shaped(f) && FolderName(name)
    ensures Shaped(WithChild(f, name))
  {
    var empty := Folder(name, [], []);
    assert Shaped(empty);
  }

  lemma {:induction false} EnsureShaped(f: Folder, names: seq<string>)
    requires Shaped(f) && AllNames(names)
    ensures Shaped(Ensure(f, names).root)
    decreases |names|
  {
    hide FolderName;
    if names != [] {
      var k := Find(f.folders, names[0]);
      var g := WithChild(f, names[0]);
      WithChildShaped(f, names[0]);
      EnsureShaped(g.folders[k], names[1..]);
      EnsureBag(g.folders[k], names[1..]);
      ShapedUpdate(g, k, Ensure(g.folders[k], names[1..]).root);
    }
  }

  lemma {:induction false} AddShaped(f: Folder, p: seq<nat>, s: Session)
    requires Inside(f, p) && Shaped(f)
    ensures var n := Sub(f, p);
            var r := Replace(f, p, n.(sessions := n.sessions + [s]));
            Shaped(r) && r.name == f.name
    decreases |p|
  {
    hide FolderName;
    if p != [] {
      var n := Sub(f, p);
      AddShaped(f.folders[p[0]], p[1..], s);
      ShapedUpdate(f, p[0], Replace(f.folders[p[0]], p[1..], n.(sessions := n.sessions + [s])));
    }
  }

  lemma {:induction false} SplitInherits(s: string, sep: char, c: char)
    requires Free(s, c)
    ensures AllFree(Split(s, sep), c)
    decreases |s|
  {
    var k := IndexOf(s, sep);
    if k < |s| {
      SplitInherits(s[k + 1..], sep, c);
    }
  }

  lemma {:induction false} NonEmptyNames(parts: seq<string>)
    requires AllFree(parts, '/') && AllFree(parts, '\n')
    ensures AllNames(NonEmpty(parts))
  {
    hide Free;
    if parts != [] {
      NonEmptyNames(parts[1..]);
    }
  }

  lemma HeadNames(root: Folder, path: string)
    requires Free(path, '\n')
    ensures AllNames(Names(root, path))
  {
    hide Split, Free, FolderName, NonEmpty;
    SplitFree(path, '/');
    SplitInherits(path, '/', '\n');
    NonEmptyNames(Split(path, '/'));
  }

  lemma TrimFree(s: string, c: char)
    requires Free(s, c)
    ensures Free(Trim(s), c)
  {
    hide IsSpace;
    TrimLeftFree(s, c);
    TrimRightPrefix(TrimLeft(s));
  }

  lemma {:induction false} TrimLeftFree(s: string, c: char)
    requires Free(s, c)
    ensures Free(TrimLeft(s), c)
  {
    hide IsSpace;
    if s != "" && IsSpace(s[0]) {
      TrimLeftFree(s[1..], c);
    }
  }

  ghost predicate ParamsOneLine(ps: seq<Param>) {
    forall i | 0 <= i < |ps| :: Free(ps[i].key, '\n') && Free(ps[i].value, '\n')
  }

  lemma {:induction false} TakeFieldsOneLine(done: seq<Param>, fields: seq<string>)
    requires ParamsOneLine(done) && AllFree(fields, '\n')
    ensures ParamsOneLine(TakeFields(done, fields))
    decreases |fields|
  {
    hide Less, Put;
    if fields != [] {
      var f := fields[0];
      var e := IndexOf(f, '=');
      assert Free(f, '\n');
      if 0 < e < |f| {
        var p := Param(f[..e], f[e + 1..]);
        assert Free(p.key, '\n') && Free(p.value, '\n');
        forall q | q in Put(done, p)
          ensures Free(q.key, '\n') && Free(q.value, '\n')
        {
          PutMembers(done, p, q);
        }
      }
      TakeFieldsOneLine(TakeField(done, f), fields[1..]);
    }
  }

  lemma EntryParsed(line: string)
    requires Free(line, '\n') && ReadLine(line).Entry?
    ensures ParsedSession(ReadLine(line).session)
  {
    hide KindOf, LegalParams, LegalName, Trim, TakeFields, Split, IsHead;
    EntriesAreLegal(line);
    var t := Trim(line);
    TrimFree(line, '\n');
    var eq := IndexOf(t, '=');
    var fields := Split(t[eq + 1..], ';');
    SplitInherits(t[eq + 1..], ';', '\n');
    assert AllFree(fields[1..], '\n');
    TakeFieldsOneLine([], fields[1..]);
  }

  lemma HeadFree(line: string)
    requires Free(line, '\n') && ReadLine(line).Head?
    ensures Free(ReadLine(line).path, '\n')
  {
    hide Trim, KindOf;
    TrimFree(line, '\n');
  }

  lemma StepParsed(at: Place, line: string)
    requires Inside(at.root, at.cur) && ParsedTree(at.root) && Free(line, '\n')
    ensures ParsedTree(Step(at, ReadLine(line)).root)
  {
    hide ReadLine, Shaped, ParsedSession, Free, Bag, Ensure, Names;
    var l := ReadLine(line);
    StepBag(at, l);
    match l
    case Nothing =>
    case Head(path) =>
      HeadFree(line);
      HeadNames(at.root, path);
      EnsureShaped(at.root, Names(at.root, path));
      EnsureBag(at.root, Names(at.root, path));
    case Entry(s) =>
      EntryParsed(line);
      AddShaped(at.root, at.cur, s);
  }

  lemma {:induction false} LoadParsed(at: Place, lines: seq<string>)
    requires Inside(at.root, at.cur) && ParsedTree(at.root) && AllFree(lines, '\n')
    ensures ParsedTree(Load(at, lines).root)
    decreases |lines|
  {
    hide ReadLine, Step, ParsedTree, Free;
    if lines != [] {
      StepParsed(at, lines[0]);
      LoadParsed(Step(at, ReadLine(lines[0])), lines[1..]);
    }
  }

  /** Whatever the text, the parsed tree has nameable, distinct folders and sessions with
      legal names and parameters. */
  lemma DeserializedParsed(data: string)
    ensures ParsedTree(Deserialized(data))
  {
    hide Load, Split;
    SplitFree(data, '\n');
    assert ParsedTree(START.root);
    LoadParsed(START, Split(data, '\n'));
  }

  // ----- the exact condition

  lemma {:induction false} TightFixed(f: Folder)
    ensures TightTree(f) == f <==> forall s | s in Bag(f) :: Tightened(s) == s
    decreases f
  {
    hide Tightened, TightForest, Bags;
    TightForestFixed(f.folders);
    if TightSessions(f.sessions) == f.sessions {
      assert forall i | 0 <= i < |f.sessions| :: Tightened(f.sessions[i]) == f.sessions[i];
    } else {
      var i :| 0 <= i < |f.sessions| && TightSessions(f.sessions)[i] != f.sessions[i];
      assert f.sessions[i] in Bag(f);
    }
  }

  lemma {:induction false} TightForestFixed(fs: seq<Folder>)
    ensures TightForest(fs) == fs <==> forall s | s in Bags(fs) :: Tightened(s) == s
    decreases fs
  {
    hide Tightened, TightTree, Bag;
    if fs != [] {
      TightFixed(fs[0]);
      TightForestFixed(fs[1..]);
      assert fs == [fs[0]] + fs[1..];
      assert TightForest(fs)[0] == TightTree(fs[0]) && TightForest(fs)[1..] == TightForest(fs[1..]);
    }
  }

  /** A parsed session whose line reads as a session reads as itself, tightened. */
  lemma EntryReadable(s: Session)
    requires ParsedSession(s)
    ensures IsEntry(s) ==> Readable(s)
    ensures Legal(s) <==> Readable(s) && Tightened(s) == s
  {
    hide ReadLine, SessionLine, Tightened, LegalParams, LegalName, Confused, Tight;
    LineReads(s);
    TightenedLegal(s);
    LineBackExactly(s);
  }

  /** Printing and parsing a parsed tree whose sessions all read as sessions. */
  lemma PrintedTree(t: Folder)
    requires ParsedTree(t) && forall s | s in Bag(t) :: IsEntry(s)
    ensures Deserialized(Serialized(t)) == TightTree(t)
    ensures TightTree(t) == t <==> LegalTree(t)
  {
    hide Deserialized, Serialized, Readable, IsEntry, Legal, OneLine, LegalName, LegalParams, Shaped, Bag, TightTree;
    forall s | s in Bag(t)
      ensures OneLine(s) && Readable(s) && (Legal(s) <==> Tightened(s) == s)
    {
      EntryReadable(s);
    }
    TextIsLines(t);
    LoadTree(t);
    TightFixed(t);
  }

  /** A tree comes back from its text unchanged, order and empty folders included, exactly
      when it is a legal tree. */
  lemma RoundTripExactly(t: Folder)
    ensures Deserialized(Serialized(t)) == t <==> LegalTree(t)
  {
    hide Deserialized, Serialized, Readable, IsEntry, Legal, OneLine, LegalName, LegalParams, Shaped, Bag, TightTree;
    if Deserialized(Serialized(t)) == t {
      DeserializedParsed(Serialized(t));
      NothingConfused(t);
      PrintedTree(t);
    }
    if LegalTree(t) {
      forall s | s in Bag(t)
        ensures ParsedSession(s) && IsEntry(s)
      {
        LegalIsEntry(s);
      }
      PrintedTree(t);
    }
  }

  lemma LegalIsEntry(s: Session)
    requires Legal(s) && OneLine(s)
    ensures ParsedSession(s) && IsEntry(s)
  {
    hide ReadLine, SessionLine, LegalParams, LegalName, Confused, Tight;
    LineBackExactly(s);
  }

  /** When a tree comes back, no session line was taken for a header: it would be missing. */
  lemma NothingConfused(t: Folder)
    requires ParsedTree(t) && Deserialized(Serialized(t)) == t
    ensures forall s | s in Bag(t) :: IsEntry(s)
  {
    hide Load, Serialized, IsEntry, FolderLines, OneLine, Shaped, LegalName, LegalParams, Deserialized;
    TextIsLines(t);
    LoadCount(START, FolderLines(t, ROOT));
    FolderEntries(t, ROOT);
  }
}
