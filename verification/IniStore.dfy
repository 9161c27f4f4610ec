/** The session tree and its INI text: printing, parsing, and what comes back. */
module IniStore {
  import opened Text
  import opened IniSession

  datatype Folder = Folder(name: string, sessions: seq<Session>, folders: seq<Folder>)

  const ROOT := "Sessions"

  // ----- printing

  function HeadLine(header: string): string {
    HEAD + header + "]"
  }

  function SessionLines(ss: seq<Session>): (r: seq<string>)
    ensures |r| == |ss|
    ensures forall i | 0 <= i < |ss| :: r[i] == SessionLine(ss[i])
  {
    seq(|ss|, i requires 0 <= i < |ss| => SessionLine(ss[i]))
  }

  /** The lines of a folder: its header, its sessions, then its subfolders one by one. */
  function FolderLines(f: Folder, header: string): seq<string>
    decreases f
  {
    [HeadLine(header)] + SessionLines(f.sessions) + ForestLines(f.folders, header)
  }

  function ForestLines(fs: seq<Folder>, header: string): seq<string>
    decreases fs
  {
    if fs == [] then [] else FolderLines(fs[0], header + "/" + fs[0].name) + ForestLines(fs[1..], header)
  }

  /** Lines as text, each ended by a newline. */
  function Unlines(lines: seq<string>): string {
    if lines == [] then "" else lines[0] + "\n" + Unlines(lines[1..])
  }

  function Serialized(root: Folder): string {
    Unlines(FolderLines(root, root.name))
  }

  lemma {:induction false} UnlinesConcat(a: seq<string>, b: seq<string>)
    ensures Unlines(a + b) == Unlines(a) + Unlines(b)
  {
    if a == [] {
      assert a + b == b;
    } else {
      assert (a + b)[1..] == a[1..] + b;
      UnlinesConcat(a[1..], b);
    }
  }

  lemma UnlinesOne(line: string)
    ensures Unlines([line]) == line + "\n"
  {
    assert [line][1..] == [];
  }

  lemma {:induction false} SplitUnlines(lines: seq<string>)
    requires AllFree(lines, '\n')
    ensures Split(Unlines(lines), '\n') == lines + [""]
  {
    if lines == [] {
      assert Split("", '\n') == [""];
    } else {
      var rest := Unlines(lines[1..]);
      IndexOfFirst(lines[0], '\n', rest);
      var s := lines[0] + "\n" + rest;
      assert s[..|lines[0]|] == lines[0] && s[|lines[0]| + 1..] == rest;
      SplitUnlines(lines[1..]);
      assert lines == [lines[0]] + lines[1..];
    }
  }

  lemma {:induction false} ForestLinesSnoc(fs: seq<Folder>, f: Folder, header: string)
    ensures ForestLines(fs + [f], header) == ForestLines(fs, header) + FolderLines(f, header + "/" + f.name)
  {
    hide FolderLines;
    if fs == [] {
      assert (fs + [f])[1..] == [];
    } else {
      assert (fs + [f])[1..] == fs[1..] + [f];
      ForestLinesSnoc(fs[1..], f, header);
    }
  }

  /** One session line: the fields are gathered in a list and joined. */
  method PutSession(s: Session, out: string) returns (r: string)
    ensures r == out + SessionLine(s) + "\n"
  {
    var kv := [KindName(s.kind)];
    for i := 0 to |s.params|
      invariant kv == [KindName(s.kind)] + Fields(s.params)[..i]
    {
      var p := s.params[i];
      kv := kv + [p.key + "=" + p.value];
    }
    assert Fields(s.params)[..|s.params|] == Fields(s.params);
    r := out + s.name + "=" + Join(kv, ';') + "\n";
    assert r == out + (s.name + "=" + Join(kv, ';')) + "\n";
  }

  lemma Appended(out: string, a: seq<string>, b: seq<string>)
    ensures out + Unlines(a) + Unlines(b) == out + Unlines(a + b)
  {
    UnlinesConcat(a, b);
  }

  /** Appends a folder to the text, depth first. */
  method Collect(f: Folder, path: string, out: string) returns (r: string)
    ensures r == out + Unlines(FolderLines(f, if path == "" then f.name else path))
    decreases f
  {
    hide SessionLine, Unlines, ForestLines, FolderLines;
    var header := if path == "" then f.name else path;
    r := out + "[Folder=" + header + "]\n";
    ghost var lines := [HeadLine(header)];
    UnlinesOne(HeadLine(header));
    assert r == out + (HeadLine(header) + "\n");
    for i := 0 to |f.sessions|
      invariant lines == [HeadLine(header)] + SessionLines(f.sessions)[..i]
      invariant r == out + Unlines(lines)
    {
      ghost var line := SessionLine(f.sessions[i]);
      UnlinesOne(line);
      r := PutSession(f.sessions[i], r);
      assert r == out + Unlines(lines) + Unlines([line]);
      Appended(out, lines, [line]);
      lines := lines + [line];
    }
    ghost var top := [HeadLine(header)] + SessionLines(f.sessions);
    assert lines == top;
    NoForest(header);
    for i := 0 to |f.folders|
      invariant lines == top + ForestLines(f.folders[..i], header)
      invariant r == out + Unlines(lines)
    {
      var sub := f.folders[i];
      assert f.folders[..i + 1] == f.folders[..i] + [sub];
      ForestLinesSnoc(f.folders[..i], sub, header);
      r := Collect(sub, header + "/" + sub.name, r);
      Appended(out, lines, FolderLines(sub, header + "/" + sub.name));
      lines := lines + FolderLines(sub, header + "/" + sub.name);
    }
    assert f.folders[..|f.folders|] == f.folders;
    Whole(f, header);
  }

  lemma NoForest(header: string)
    ensures ForestLines([], header) == []
  {
  }

  lemma Whole(f: Folder, header: string)
    ensures FolderLines(f, header) == [HeadLine(header)] + SessionLines(f.sessions) + ForestLines(f.folders, header)
  {
  }

  method Serialize(root: Folder) returns (out: string)
    ensures out == Serialized(root)
  {
    out := Collect(root, "", "");
  }

  // ----- the tree while it is read: a root and where the current folder is in it

  /** The current folder is given by the child positions that lead to it. */
  datatype Place = Place(root: Folder, cur: seq<nat>)

  predicate Inside(f: Folder, p: seq<nat>)
    decreases |p|
  {
    p != [] ==> p[0] < |f.folders| && Inside(f.folders[p[0]], p[1..])
  }

  function Sub(f: Folder, p: seq<nat>): Folder
    requires Inside(f, p)
    decreases |p|
  {
    if p == [] then f else Sub(f.folders[p[0]], p[1..])
  }

  function Replace(f: Folder, p: seq<nat>, g: Folder): Folder
    requires Inside(f, p)
    decreases |p|
  {
    if p == [] then g else f.(folders := f.folders[p[0] := Replace(f.folders[p[0]], p[1..], g)])
  }

  /** The position of the first child with a name, or past the last. */
  function Find(fs: seq<Folder>, name: string): (k: nat)
    ensures k <= |fs|
    ensures k < |fs| ==> fs[k].name == name
    ensures forall i | 0 <= i < k :: fs[i].name != name
  {
    if fs == [] || fs[0].name == name then 0 else 1 + Find(fs[1..], name)
  }

  /** The folder with a new empty subfolder unless it has one of that name. */
  function WithChild(f: Folder, name: string): (r: Folder)
    ensures Find(f.folders, name) < |r.folders|
  {
    if Find(f.folders, name) < |f.folders| then f else f.(folders := f.folders + [Folder(name, [], [])])
  }

  /** Goes down a list of names from a folder, adding what is missing. */
  function Ensure(f: Folder, names: seq<string>): (r: Place)
    ensures Inside(r.root, r.cur)
    decreases |names|
  {
    if names == [] then Place(f, [])
    else
      var k := Find(f.folders, names[0]);
      var g := WithChild(f, names[0]);
      var below := Ensure(g.folders[k], names[1..]);
      Place(g.(folders := g.folders[k := below.root]), [k] + below.cur)
  }

  /** The names a path leads along: empty parts and the root's own name are dropped. */
  function Names(root: Folder, path: string): seq<string> {
    var parts := NonEmpty(Split(path, '/'));
    if parts != [] && parts[0] == root.name then parts[1..] else parts
  }

  function AddSession(at: Place, s: Session): (r: Place)
    requires Inside(at.root, at.cur)
    ensures Inside(r.root, r.cur)
  {
    var f := Sub(at.root, at.cur);
    ReplaceInside(at.root, at.cur, f.(sessions := f.sessions + [s]));
    Place(Replace(at.root, at.cur, f.(sessions := f.sessions + [s])), at.cur)
  }

  function Step(at: Place, line: Line): (r: Place)
    requires Inside(at.root, at.cur)
    ensures Inside(r.root, r.cur)
  {
    match line
    case Nothing => at
    case Head(path) => Ensure(at.root, Names(at.root, path))
    case Entry(s) => AddSession(at, s)
  }

  function Load(at: Place, lines: seq<string>): (r: Place)
    requires Inside(at.root, at.cur)
    ensures Inside(r.root, r.cur)
    decreases |lines|
  {
    if lines == [] then at else Load(Step(at, ReadLine(lines[0])), lines[1..])
  }

  const START := Place(Folder(ROOT, [], []), [])

  function Deserialized(data: string): Folder {
    Load(START, Split(data, '\n')).root
  }

  // ----- replacing inside a tree

  lemma {:induction false} ReplaceInside(f: Folder, p: seq<nat>, g: Folder)
    requires Inside(f, p)
    ensures Inside(Replace(f, p, g), p) && Sub(Replace(f, p, g), p) == g
    ensures p != [] ==> Replace(f, p, g).name == f.name
    decreases |p|
  {
    if p != [] {
      ReplaceInside(f.folders[p[0]], p[1..], g);
    }
  }

  lemma {:induction false} ReplaceTwice(f: Folder, p: seq<nat>, g: Folder, h: Folder)
    requires Inside(f, p)
    ensures Inside(Replace(f, p, g), p) && Replace(Replace(f, p, g), p, h) == Replace(f, p, h)
    decreases |p|
  {
    if p != [] {
      ReplaceTwice(f.folders[p[0]], p[1..], g, h);
    }
  }

  lemma {:induction false} ReplaceSame(f: Folder, p: seq<nat>)
    requires Inside(f, p)
    ensures Replace(f, p, Sub(f, p)) == f
    decreases |p|
  {
    if p != [] {
      ReplaceSame(f.folders[p[0]], p[1..]);
    }
  }

  /** One step further down. */
  lemma {:induction false} ReplaceBelow(f: Folder, p: seq<nat>, q: seq<nat>, g: Folder)
    requires Inside(f, p) && Inside(Sub(f, p), q)
    ensures Inside(f, p + q) && Sub(f, p + q) == Sub(Sub(f, p), q)
    ensures Replace(f, p + q, g) == Replace(f, p, Replace(Sub(f, p), q, g))
    decreases |p|
  {
    if p == [] {
      assert p + q == q;
    } else {
      assert (p + q)[0] == p[0] && (p + q)[1..] == p[1..] + q;
      ReplaceBelow(f.folders[p[0]], p[1..], q, g);
    }
  }

  // ----- the parser

  /** The first subfolder of that name, looked for one by one. */
  method FindChild(fs: seq<Folder>, name: string) returns (k: nat)
    ensures k == Find(fs, name)
  {
    k := 0;
    while k < |fs|
      invariant k <= |fs| && forall i | 0 <= i < k :: fs[i].name != name
    {
      if fs[k].name == name {
        return;
      }
      k := k + 1;
    }
  }

  /** Where the loop over the parts stands: what is still to do happens below `cur`. */
  ghost predicate Underway(f: Folder, names: seq<string>, at: Place, rest: seq<string>) {
    Inside(at.root, at.cur) &&
    var below := Ensure(Sub(at.root, at.cur), rest);
    Ensure(f, names) == Place(Replace(at.root, at.cur, below.root), at.cur + below.cur)
  }

  method EnsurePath(root: Folder, path: string) returns (at: Place)
    ensures at == Ensure(root, Names(root, path))
  {
    var parts := NonEmpty(Split(path, '/'));
    at := Place(root, []);
    if parts == [] {
      return;
    }
    if parts[0] == root.name {
      parts := parts[1..];
    }
    for i := 0 to |parts|
      invariant Underway(root, parts, at, parts[i..])
    {
      var part := parts[i];
      assert parts[i..][0] == part && parts[i..][1..] == parts[i + 1..];
      var here := Sub(at.root, at.cur);
      var k := FindChild(here.folders, part);
      Descend(root, parts, at, parts[i..]);
      ReplaceInside(at.root, at.cur, WithChild(here, part));
      if k == |here.folders| {
        at := Place(Replace(at.root, at.cur, here.(folders := here.folders + [Folder(part, [], [])])), at.cur + [k]);
      } else {
        ReplaceSame(at.root, at.cur);
        at := at.(cur := at.cur + [k]);
      }
    }
    ReplaceSame(at.root, at.cur);
    assert at.cur + [] == at.cur;
  }

  lemma EnsureFirst(f: Folder, names: seq<string>)
    requires names != []
    ensures var k := Find(f.folders, names[0]);
            var g := WithChild(f, names[0]);
            var below := Ensure(g.folders[k], names[1..]);
            Ensure(f, names) == Place(g.(folders := g.folders[k := below.root]), [k] + below.cur)
  {
  }

  lemma Descend(f: Folder, names: seq<string>, at: Place, rest: seq<string>)
    requires Underway(f, names, at, rest) && rest != []
    ensures var here := Sub(at.root, at.cur);
            var k := Find(here.folders, rest[0]);
            var root := Replace(at.root, at.cur, WithChild(here, rest[0]));
            Underway(f, names, Place(root, at.cur + [k]), rest[1..])
  {
    hide Ensure, Find, Inside, Sub, Replace, WithChild;
    var here := Sub(at.root, at.cur);
    var k := Find(here.folders, rest[0]);
    var g := WithChild(here, rest[0]);
    EnsureFirst(here, rest);
    var root := Replace(at.root, at.cur, g);
    var below := Ensure(g.folders[k], rest[1..]);
    ReplaceInside(at.root, at.cur, g);
    assert Inside(g, [k]) && Sub(g, [k]) == g.folders[k] by {
      OneDown(g, k, below.root);
    }
    ReplaceBelow(root, at.cur, [k], below.root);
    OneDown(g, k, below.root);
    ReplaceTwice(at.root, at.cur, g, g.(folders := g.folders[k := below.root]));
    assert at.cur + ([k] + below.cur) == at.cur + [k] + below.cur;
  }

  lemma OneDown(f: Folder, k: nat, g: Folder)
    requires k < |f.folders|
    ensures Inside(f, [k]) && Sub(f, [k]) == f.folders[k]
    ensures Replace(f, [k], g) == f.(folders := f.folders[k := g])
  {
    assert [k][1..] == [];
    assert Inside(f.folders[k], []);
  }

  /** One trimmed session line: the name up to the first equals sign, the kind, the fields. */
  method ParseSession(line: string) returns (s: Session)
    requires line != "" && line[0] != '#' && !IsHead(line) && 0 < IndexOf(line, '=') < |line|
    ensures Classify(line) == Entry(s)
  {
    hide KindOf;
    var eq := IndexOf(line, '=');
    var fields := Split(line[eq + 1..], ';');
    s := Session(line[..eq], KindOf(fields[0]), []);
    for i := 1 to |fields|
      invariant s == Session(line[..eq], KindOf(fields[0]), s.params)
      invariant TakeFields(s.params, fields[i..]) == TakeFields([], fields[1..])
    {
      assert fields[i..][0] == fields[i] && fields[i..][1..] == fields[i + 1..];
      var e := IndexOf(fields[i], '=');
      if 0 < e < |fields[i]| {
        s := s.(params := Put(s.params, Param(fields[i][..e], fields[i][e + 1..])));
      }
    }
  }

  method Deserialize(data: string) returns (root: Folder)
    ensures root == Deserialized(data)
  {
    hide IsHead, Trim;
    root := Folder("Sessions", [], []);
    var cur: seq<nat> := [];
    var lines := Split(data, '\n');
    for i := 0 to |lines|
      invariant Inside(root, cur)
      invariant Load(Place(root, cur), lines[i..]) == Load(START, lines)
    {
      assert lines[i..][0] == lines[i] && lines[i..][1..] == lines[i + 1..];
      var line := Trim(lines[i]);
      if line == "" || line[0] == '#' {
        continue;
      }
      if IsHead(line) {
        HeadFits(line);
        var path := line[8..|line| - 1];
        var at := EnsurePath(root, path);
        root, cur := at.root, at.cur;
        continue;
      }
      var eq := IndexOf(line, '=');
      if eq == 0 || eq == |line| {
        continue;
      }
      var s := ParseSession(line);
      var at := AddSession(Place(root, cur), s);
      root, cur := at.root, at.cur;
    }
  }

  lemma HeadFits(line: string)
    requires line != "" && IsHead(line)
    ensures |line| >= 9
  {
  }
}
