/** What comes back when a session tree is printed and parsed again. */
module IniRoundTrip {
  import opened Text
  import opened IniSession
  import opened IniStore

  // ----- which trees

  /** A folder name the header line can carry. */
  predicate FolderName(name: string) {
    name != "" && Free(name, '/') && Free(name, '\n')
  }

  ghost predicate Distinct(fs: seq<Folder>) {
    forall i, j | 0 <= i < j < |fs| :: fs[i].name != fs[j].name
  }

  /** Every subfolder can be named in a header, and no two siblings share a name. */
  ghost predicate Shaped(f: Folder)
    decreases f
  {
    Distinct(f.folders) && forall i | 0 <= i < |f.folders| :: FolderName(f.folders[i].name) && Shaped(f.folders[i])
  }

  ghost predicate OneLine(s: Session) {
    Free(s.name, '\n') && forall i | 0 <= i < |s.params| :: Free(s.params[i].key, '\n') && Free(s.params[i].value, '\n')
  }

  /** All sessions of a tree, with their number of occurrences. */
  ghost function Bag(f: Folder): multiset<Session>
    decreases f
  {
    multiset(f.sessions) + Bags(f.folders)
  }

  ghost function Bags(fs: seq<Folder>): multiset<Session>
    decreases fs
  {
    if fs == [] then multiset{} else Bag(fs[0]) + Bags(fs[1..])
  }

  /** The trees that survive the round trip. */
  ghost predicate LegalTree(t: Folder) {
    t.name == ROOT && Shaped(t) && forall s | s in Bag(t) :: Legal(s) && OneLine(s)
  }

  /** What every parsed tree is like. */
  ghost predicate ParsedTree(t: Folder) {
    t.name == ROOT && Shaped(t) && forall s | s in Bag(t) :: ParsedSession(s)
  }

  ghost predicate ParsedSession(s: Session) {
    LegalName(s.name) && LegalParams(s.params) && OneLine(s)
  }

  /** The tree with white space cut off the end of every session's last value. */
  function TightTree(f: Folder): (r: Folder)
    ensures r.name == f.name
    decreases f
  {
    Folder(f.name, TightSessions(f.sessions), TightForest(f.folders))
  }

  function TightSessions(ss: seq<Session>): (r: seq<Session>)
    ensures |r| == |ss|
    ensures forall i | 0 <= i < |ss| :: r[i] == Tightened(ss[i])
  {
    seq(|ss|, i requires 0 <= i < |ss| => Tightened(ss[i]))
  }

  function TightForest(fs: seq<Folder>): (r: seq<Folder>)
    ensures |r| == |fs|
    ensures forall i | 0 <= i < |fs| :: r[i].name == fs[i].name
    decreases fs
  {
    if fs == [] then [] else [TightTree(fs[0])] + TightForest(fs[1..])
  }

  // ----- headers

  /** The names lead from `f` to the place `p`, without adding anything. */
  ghost predicate Resolves(f: Folder, names: seq<string>, p: seq<nat>)
    decreases |names|
  {
    if names == [] then p == []
    else
      var k := Find(f.folders, names[0]);
      p != [] && p[0] == k < |f.folders| && Resolves(f.folders[k], names[1..], p[1..])
  }

  /** Going down to a subfolder that is there. */
  lemma EnsureStep(f: Folder, names: seq<string>, k: nat)
    requires names != [] && k == Find(f.folders, names[0]) < |f.folders|
    ensures var below := Ensure(f.folders[k], names[1..]);
            Ensure(f, names) == Place(f.(folders := f.folders[k := below.root]), [k] + below.cur)
  {
  }

  lemma Nowhere(f: Folder, names: seq<string>, p: seq<nat>, g: Folder)
    requires Resolves(f, names, p) && Inside(f, p) && names == []
    ensures p == [] && Sub(f, p) == f && Replace(f, p, g) == g
  {
  }

  lemma OneStep(f: Folder, names: seq<string>, p: seq<nat>, g: Folder)
    requires Resolves(f, names, p) && Inside(f, p) && names != []
    ensures p != [] && p[0] == Find(f.folders, names[0]) < |f.folders|
    ensures Inside(f.folders[p[0]], p[1..]) && Resolves(f.folders[p[0]], names[1..], p[1..])
    ensures Sub(f, p) == Sub(f.folders[p[0]], p[1..])
    ensures Replace(f, p, g) == f.(folders := f.folders[p[0] := Replace(f.folders[p[0]], p[1..], g)])
  {
  }

  lemma {:induction false} EnsureResolved(f: Folder, names: seq<string>, p: seq<nat>, more: seq<string>)
    requires Resolves(f, names, p) && Inside(f, p)
    ensures var below := Ensure(Sub(f, p), more);
            Ensure(f, names + more) == Place(Replace(f, p, below.root), p + below.cur)
    decreases |names|
  {
    hide Ensure, Find, Inside, Sub, Replace, Resolves;
    var below := Ensure(Sub(f, p), more);
    if names == [] {
      Nowhere(f, names, p, below.root);
      assert names + more == more && p + below.cur == below.cur;
    } else {
      OneStep(f, names, p, below.root);
      assert (names + more)[0] == names[0] && (names + more)[1..] == names[1..] + more;
      EnsureResolved(f.folders[p[0]], names[1..], p[1..], more);
      EnsureStep(f, names + more, p[0]);
      assert p + below.cur == [p[0]] + (p[1..] + below.cur);
    }
  }

  lemma FindIs(fs: seq<Folder>, name: string, k: nat)
    requires k <= |fs| && (k < |fs| ==> fs[k].name == name) && forall i | 0 <= i < k :: fs[i].name != name
    ensures Find(fs, name) == k
  {
    var m := Find(fs, name);
  }

  lemma FindUpdate(fs: seq<Folder>, k: nat, g: Folder, name: string)
    requires k < |fs| && fs[k].name == g.name
    ensures Find(fs[k := g], name) == Find(fs, name)
  {
    FindIs(fs[k := g], name, Find(fs, name));
  }

  lemma {:induction false} ResolvesReplace(f: Folder, names: seq<string>, p: seq<nat>, g: Folder)
    requires Resolves(f, names, p) && Inside(f, p) && g.name == Sub(f, p).name
    ensures Resolves(Replace(f, p, g), names, p)
    decreases |names|
  {
    if names != [] {
      var k := p[0];
      ResolvesReplace(f.folders[k], names[1..], p[1..], g);
      ReplaceInside(f.folders[k], p[1..], g);
      FindUpdate(f.folders, k, Replace(f.folders[k], p[1..], g), names[0]);
    }
  }

  lemma {:induction false} ResolvesDown(f: Folder, names: seq<string>, p: seq<nat>, name: string)
    requires Resolves(f, names, p) && Inside(f, p) && Find(Sub(f, p).folders, name) < |Sub(f, p).folders|
    ensures Resolves(f, names + [name], p + [Find(Sub(f, p).folders, name)])
    decreases |names|
  {
    var k := Find(Sub(f, p).folders, name);
    if names == [] {
      assert names + [name] == [name] && p + [k] == [k] && [name][1..] == [] && [k][1..] == [];
      assert Resolves(f.folders[k], [], []);
    } else {
      assert (names + [name])[1..] == names[1..] + [name] && (p + [k])[1..] == p[1..] + [k];
      ResolvesDown(f.folders[p[0]], names[1..], p[1..], name);
    }
  }

  ghost predicate AllNames(names: seq<string>) {
    forall i | 0 <= i < |names| :: FolderName(names[i])
  }

  /** The header of the folder that a list of names leads to. */
  function HeaderOf(names: seq<string>): string {
    Join([ROOT] + names, '/')
  }

  lemma HeaderBelow(names: seq<string>, name: string)
    ensures HeaderOf(names + [name]) == HeaderOf(names) + "/" + name
  {
    assert [ROOT] + (names + [name]) == [ROOT] + names + [name];
    JoinSnoc([ROOT] + names, name, '/');
  }

  lemma NamesOfHeader(root: Folder, names: seq<string>)
    requires root.name == ROOT && AllNames(names)
    ensures Names(root, HeaderOf(names)) == names
  {
    hide Join, Split, NonEmpty;
    var parts := [ROOT] + names;
    assert AllFree(parts, '/');
    SplitJoin(parts, '/');
    NonEmptyFixed(parts);
  }

  lemma ReadHead(header: string)
    ensures ReadLine(HeadLine(header)) == Head(header)
  {
    hide Trim;
    TrimStable(HeadLine(header));
    assert HeadLine(header)[8..|HeadLine(header)| - 1] == header;
  }

  // ----- loading what was printed

  lemma {:induction false} LoadConcat(at: Place, a: seq<string>, b: seq<string>)
    requires Inside(at.root, at.cur)
    ensures Load(at, a + b) == Load(Load(at, a), b)
    decreases |a|
  {
    hide ReadLine, Step;
    if a == [] {
      assert a + b == b;
    } else {
      assert (a + b)[1..] == a[1..] + b;
      LoadConcat(Step(at, ReadLine(a[0])), a[1..], b);
    }
  }

  lemma LoadOne(at: Place, line: string)
    requires Inside(at.root, at.cur)
    ensures Load(at, [line]) == Step(at, ReadLine(line))
  {
    hide ReadLine, Step;
    assert [line][1..] == [];
    assert Load(Step(at, ReadLine(line)), []) == Step(at, ReadLine(line));
  }

  /** A session that reads as itself, up to the space at the end of its line. */
  ghost predicate Readable(s: Session) {
    ReadLine(SessionLine(s)) == Entry(Tightened(s))
  }

  lemma {:induction false} LoadSessions(at: Place, ss: seq<Session>)
    requires Inside(at.root, at.cur) && forall i | 0 <= i < |ss| :: Readable(ss[i])
    ensures var f := Sub(at.root, at.cur);
            Load(at, SessionLines(ss))
            == Place(Replace(at.root, at.cur, f.(sessions := f.sessions + TightSessions(ss))), at.cur)
    decreases |ss|
  {
    hide ReadLine, SessionLine, Tightened;
    var f := Sub(at.root, at.cur);
    if ss == [] {
      assert f.sessions + TightSessions(ss) == f.sessions;
      ReplaceSame(at.root, at.cur);
    } else {
      var g := f.(sessions := f.sessions + [Tightened(ss[0])]);
      var next := Step(at, ReadLine(SessionLine(ss[0])));
      assert next == Place(Replace(at.root, at.cur, g), at.cur) by {
        assert Readable(ss[0]);
      }
      assert SessionLines(ss)[1..] == SessionLines(ss[1..]);
      ReplaceInside(at.root, at.cur, g);
      LoadSessions(next, ss[1..]);
      assert g.sessions + TightSessions(ss[1..]) == f.sessions + TightSessions(ss);
      ReplaceTwice(at.root, at.cur, g, f.(sessions := f.sessions + TightSessions(ss)));
    }
  }

  /** The folder at `p` with one more subfolder. */
  function Grown(f: Folder, p: seq<nat>, g: Folder): Folder
    requires Inside(f, p)
  {
    Replace(f, p, Sub(f, p).(folders := Sub(f, p).folders + [g]))
  }

  /** Around a subfolder just added: where it stands and how it is replaced. */
  lemma GrownFacts(f: Folder, names: seq<string>, p: seq<nat>, g: Folder, h: Folder)
    requires Resolves(f, names, p) && Inside(f, p) && h.name == g.name
    requires Find(Sub(f, p).folders, g.name) == |Sub(f, p).folders|
    ensures var q := p + [|Sub(f, p).folders|];
            && Inside(Grown(f, p, g), q) && Sub(Grown(f, p, g), q) == g
            && Replace(Grown(f, p, g), q, h) == Grown(f, p, h)
            && Resolves(Grown(f, p, g), names + [g.name], q)
  {
    hide Resolves;
    var n := Sub(f, p);
    var k := |n.folders|;
    var big := n.(folders := n.folders + [g]);
    var root := Replace(f, p, big);
    ReplaceInside(f, p, big);
    OneDown(big, k, h);
    ReplaceBelow(root, p, [k], h);
    assert big.(folders := big.folders[k := h]) == n.(folders := n.folders + [h]);
    ReplaceTwice(f, p, big, n.(folders := n.folders + [h]));
    ResolvesReplace(f, names, p, big);
    FindLast(n.folders, g);
    ResolvesDown(root, names, p, g.name);
  }

  lemma FindLast(fs: seq<Folder>, g: Folder)
    requires Find(fs, g.name) == |fs|
    ensures Find(fs + [g], g.name) == |fs|
  {
    FindIs(fs + [g], g.name, |fs|);
  }

  /** The header of a new folder creates it and goes there. */
  lemma LoadHead(at: Place, names: seq<string>, p: seq<nat>, name: string)
    requires at.root.name == ROOT && Inside(at.root, at.cur) && Inside(at.root, p) && Resolves(at.root, names, p)
    requires AllNames(names) && FolderName(name) && Find(Sub(at.root, p).folders, name) == |Sub(at.root, p).folders|
    ensures Step(at, ReadLine(HeadLine(HeaderOf(names) + "/" + name)))
         == Place(Grown(at.root, p, Folder(name, [], [])), p + [|Sub(at.root, p).folders|])
  {
    hide ReadLine, HeadLine, Resolves, Names, HeaderOf;
    HeaderBelow(names, name);
    ReadHead(HeaderOf(names + [name]));
    NamesOfHeader(at.root, names + [name]);
    EnsureResolved(at.root, names, p, [name]);
    var n := Sub(at.root, p);
    var empty := Folder(name, [], []);
    assert Ensure(n, [name]) == Place(n.(folders := n.folders + [empty]), [|n.folders|]) by {
      assert [name][1..] == [];
      assert Ensure(empty, []) == Place(empty, []);
    }
  }

  /** Every session of a folder reads back. */
  ghost predicate AllReadable(bag: multiset<Session>) {
    forall s | s in bag :: Readable(s)
  }

  /** The header and the sessions of a new folder. */
  lemma LoadTop(at: Place, names: seq<string>, p: seq<nat>, f: Folder)
    requires at.root.name == ROOT && Inside(at.root, at.cur) && Inside(at.root, p) && Resolves(at.root, names, p)
    requires AllNames(names) && FolderName(f.name) && Find(Sub(at.root, p).folders, f.name) == |Sub(at.root, p).folders|
    requires forall i | 0 <= i < |f.sessions| :: Readable(f.sessions[i])
    ensures Load(at, [HeadLine(HeaderOf(names) + "/" + f.name)] + SessionLines(f.sessions))
         == Place(Grown(at.root, p, Folder(f.name, TightSessions(f.sessions), [])), p + [|Sub(at.root, p).folders|])
  {
    hide ReadLine, HeadLine, HeaderOf, Resolves, Readable, Step, Load, FolderName, Grown, Replace, Sub, SessionLines,
        Find;
    var head := HeadLine(HeaderOf(names) + "/" + f.name);
    LoadHead(at, names, p, f.name);
    LoadOne(at, head);
    LoadConcat(at, [head], SessionLines(f.sessions));
    var empty, ss := Folder(f.name, [], []), TightSessions(f.sessions);
    GrownFacts(at.root, names, p, empty, Folder(f.name, ss, []));
    LoadSessions(Place(Grown(at.root, p, empty), p + [|Sub(at.root, p).folders|]), f.sessions);
    assert [] + ss == ss;
  }

  lemma FolderParts(f: Folder)
    requires Shaped(f) && AllReadable(Bag(f))
    ensures forall i | 0 <= i < |f.sessions| :: Readable(f.sessions[i])
    ensures Distinct(f.folders)
    ensures forall i | 0 <= i < |f.folders| :: FolderName(f.folders[i].name) && Shaped(f.folders[i])
    ensures AllReadable(Bags(f.folders))
  {
    hide Readable;
    assert forall i | 0 <= i < |f.sessions| :: f.sessions[i] in Bag(f);
  }

  lemma {:induction false} LoadFolder(at: Place, names: seq<string>, p: seq<nat>, f: Folder)
    requires at.root.name == ROOT && Inside(at.root, at.cur) && Inside(at.root, p) && Resolves(at.root, names, p)
    requires AllNames(names) && FolderName(f.name) && Find(Sub(at.root, p).folders, f.name) == |Sub(at.root, p).folders|
    requires Shaped(f) && AllReadable(Bag(f))
    ensures Load(at, FolderLines(f, HeaderOf(names) + "/" + f.name)).root == Grown(at.root, p, TightTree(f))
    decreases f, 1
  {
    hide HeadLine, HeaderOf, Resolves, Load, FolderName, ForestLines, Grown, Replace, Sub, SessionLines,
      Inside, Find, Shaped, AllReadable, Bag, TightTree, TightForest, TightSessions;
    var header := HeaderOf(names) + "/" + f.name;
    var q := p + [|Sub(at.root, p).folders|];
    var top := [HeadLine(header)] + SessionLines(f.sessions);
    var flat := Folder(f.name, TightSessions(f.sessions), []);
    FolderParts(f);
    LoadTop(at, names, p, f);
    LoadConcat(at, top, ForestLines(f.folders, header));
    GrownFacts(at.root, names, p, flat, TightTree(f));
    GrownName(at.root, p, flat);
    HeaderBelow(names, f.name);
    forall i | 0 <= i < |f.folders|
      ensures Find(flat.folders, f.folders[i].name) == |flat.folders|
    {
      FindIs([], f.folders[i].name, 0);
    }
    LoadForest(Place(Grown(at.root, p, flat), q), names + [f.name], q, f.folders);
    TightFolder(f);
  }

  lemma TightFolder(f: Folder)
    ensures TightTree(f) == Folder(f.name, TightSessions(f.sessions), [] + TightForest(f.folders))
  {
    assert [] + TightForest(f.folders) == TightForest(f.folders);
  }

  lemma GrownName(f: Folder, p: seq<nat>, g: Folder)
    requires Inside(f, p)
    ensures Grown(f, p, g).name == f.name
  {
    ReplaceInside(f, p, Sub(f, p).(folders := Sub(f, p).folders + [g]));
  }

  /** Folders printed one after another are added one after another. */
  lemma {:induction false} LoadForest(at: Place, names: seq<string>, p: seq<nat>, fs: seq<Folder>)
    requires at.root.name == ROOT && Inside(at.root, at.cur) && Inside(at.root, p) && Resolves(at.root, names, p)
    requires AllNames(names) && Distinct(fs)
    requires forall i | 0 <= i < |fs| :: FolderName(fs[i].name) && Shaped(fs[i])
    requires forall i | 0 <= i < |fs| :: Find(Sub(at.root, p).folders, fs[i].name) == |Sub(at.root, p).folders|
    requires AllReadable(Bags(fs))
    ensures var n := Sub(at.root, p);
            Load(at, ForestLines(fs, HeaderOf(names))).root
              == Replace(at.root, p, n.(folders := n.folders + TightForest(fs)))
    decreases fs, 0
  {
    hide HeaderOf, Resolves, Readable, FolderName, FolderLines, Shaped, Bag, TightTree, Find, Replace, Sub, Inside,
        TightForest;
    var n := Sub(at.root, p);
    if fs == [] {
      assert n.folders + TightForest(fs) == n.folders by { NoTightForest(); }
      assert Load(at, []) == at;
      ReplaceSame(at.root, p);
    } else {
      var f := fs[0];
      var first := FolderLines(f, HeaderOf(names) + "/" + f.name);
      LoadFolder(at, names, p, f);
      LoadConcat(at, first, ForestLines(fs[1..], HeaderOf(names)));
      var next := Load(at, first);
      AfterOne(at, next, names, p, fs);
      LoadForest(next, names, p, fs[1..]);
      TightForestOne(n.folders, fs);
      ReplaceTwice(at.root, p, n.(folders := n.folders + [TightTree(f)]), n.(folders := n.folders + TightForest(fs)));
    }
  }

  lemma NoTightForest()
    ensures TightForest([]) == []
  {
  }

  lemma TightForestOne(done: seq<Folder>, fs: seq<Folder>)
    requires fs != []
    ensures done + [TightTree(fs[0])] + TightForest(fs[1..]) == done + TightForest(fs)
  {
  }

  /** Once the first folder is in, the others are still missing from the same place. */
  lemma AfterOne(at: Place, next: Place, names: seq<string>, p: seq<nat>, fs: seq<Folder>)
    requires Inside(at.root, p) && Resolves(at.root, names, p) && fs != [] && Distinct(fs)
    requires forall i | 0 <= i < |fs| :: Find(Sub(at.root, p).folders, fs[i].name) == |Sub(at.root, p).folders|
    requires next.root == Grown(at.root, p, TightTree(fs[0]))
    ensures var n := Sub(at.root, p);
            var m := n.(folders := n.folders + [TightTree(fs[0])]);
            && next.root.name == at.root.name
            && Inside(next.root, p) && Resolves(next.root, names, p) && Sub(next.root, p) == m
            && forall i | 0 <= i < |fs[1..]| :: Find(m.folders, fs[1..][i].name) == |m.folders|
  {
    hide TightTree, Find, Resolves;
    var n := Sub(at.root, p);
    var m := n.(folders := n.folders + [TightTree(fs[0])]);
    ReplaceInside(at.root, p, m);
    ResolvesReplace(at.root, names, p, m);
    GrownName(at.root, p, TightTree(fs[0]));
    forall i | 0 <= i < |fs[1..]|
      ensures Find(m.folders, fs[1..][i].name) == |m.folders|
    {
      assert fs[1..][i] == fs[i + 1];
      FindMissing(n.folders, TightTree(fs[0]), fs[i + 1].name);
    }
  }

  lemma FindMissing(fs: seq<Folder>, g: Folder, name: string)
    requires Find(fs, name) == |fs| && g.name != name
    ensures Find(fs + [g], name) == |fs| + 1
  {
    FindIs(fs + [g], name, |fs| + 1);
  }

  /** A printed tree whose sessions read back loads as that tree, up to the space at the
      end of session lines. */
  lemma LoadTree(t: Folder)
    requires t.name == ROOT && Shaped(t) && AllReadable(Bag(t))
    ensures Load(START, FolderLines(t, ROOT)).root == TightTree(t)
  {
    hide HeadLine, HeaderOf, Load, Readable, FolderName, ForestLines, SessionLines, Find, Shaped, AllReadable, Bag,
      TightTree, TightForest, TightSessions;
    var top := [HeadLine(ROOT)] + SessionLines(t.sessions);
    FolderParts(t);
    RootHeader();
    LoadConcat(START, [HeadLine(ROOT)], SessionLines(t.sessions));
    LoadConcat(START, top, ForestLines(t.folders, ROOT));
    LoadSessions(START, t.sessions);
    var ss := TightSessions(t.sessions);
    assert [] + ss == ss;
    forall i | 0 <= i < |t.folders|
      ensures Find([], t.folders[i].name) == 0
    {
      FindIs([], t.folders[i].name, 0);
    }
    LoadForest(Place(Folder(ROOT, ss, []), []), [], [], t.folders);
    TightFolder(t);
  }

  /** The root's own header leads to the root. */
  lemma RootHeader()
    ensures HeaderOf([]) == ROOT && Load(START, [HeadLine(ROOT)]) == START
  {
    hide ReadLine, HeadLine, Load;
    assert [ROOT] + [] == [ROOT];
    JoinOne(ROOT, '/');
    ReadHead(ROOT);
    NamesOfHeader(START.root, []);
    LoadOne(START, HeadLine(ROOT));
  }
}
