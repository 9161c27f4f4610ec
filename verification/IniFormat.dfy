/** The documented text format: headers that name a folder by its path below the root,
    padded lines and comments, repeated fields, and kinds in any case. */
module IniFormat {
  import opened Basics
  import opened Text
  import opened IniSession
  import opened IniStore
  import opened IniRoundTrip
  import IniExact

  // ----- headers without the root's name

  /** The path of a folder below the root, without the root's own name. */
  function PathOf(names: seq<string>): string {
    Join(names, '/')
  }

  /** A header leads along the names of its path exactly when the first is not the root's. */
  lemma RelativeHeaderExactly(root: Folder, names: seq<string>)
    requires root.name == ROOT && AllNames(names)
    ensures Names(root, PathOf(names)) == names <==> names == [] || names[0] != ROOT
  {
    hide Join, Split, NonEmpty;
    assert AllFree(names, '/');
    PartsBack(names, '/');
    NonEmptyFixed(names);
  }

  /** Doubled slashes, and slashes at an end, make no difference to a header. */
  lemma SlashesSkipped(root: Folder, parts: seq<string>)
    requires AllFree(parts, '/')
    ensures Names(root, Join(parts, '/')) == Names(root, Join(NonEmpty(parts), '/'))
  {
    hide Join, Split, NonEmpty;
    EmptyPartsSkipped(parts, '/');
  }

  /** With or without the root's name in front, a header leads to the same place in the same
      tree. */
  lemma HeadersAgree(at: Place, names: seq<string>)
    requires Inside(at.root, at.cur) && at.root.name == ROOT && AllNames(names) && (names == [] || names[0] != ROOT)
    ensures Step(at, ReadLine(HeadLine(PathOf(names)))) == Step(at, ReadLine(HeadLine(HeaderOf(names))))
  {
    hide ReadLine, HeadLine, Ensure, Names;
    RelativeHeaderExactly(at.root, names);
    NamesOfHeader(at.root, names);
    ReadHead(PathOf(names));
    ReadHead(HeaderOf(names));
  }

  // ----- texts that differ in such headers only

  /** The same line, or the header of the same folder with and without the root's name. */
  ghost predicate SameLine(a: string, b: string) {
    a == b || exists names :: BothHeaders(a, b, names)
  }

  ghost predicate BothHeaders(a: string, b: string, names: seq<string>) {
    AllNames(names) && (names == [] || names[0] != ROOT)
    && a == HeadLine(HeaderOf(names)) && b == HeadLine(PathOf(names))
  }

  ghost predicate SameLines(a: seq<string>, b: seq<string>) {
    |a| == |b| && forall i | 0 <= i < |a| :: SameLine(a[i], b[i])
  }

  lemma StepKeepsName(at: Place, line: Line)
    requires Inside(at.root, at.cur)
    ensures Step(at, line).root.name == at.root.name
  {
    if line.Entry? {
      var f := Sub(at.root, at.cur);
      ReplaceInside(at.root, at.cur, f.(sessions := f.sessions + [line.session]));
    }
  }

  lemma {:induction false} LoadSame(at: Place, a: seq<string>, b: seq<string>)
    requires Inside(at.root, at.cur) && at.root.name == ROOT && SameLines(a, b)
    ensures Load(at, a) == Load(at, b)
    decreases |a|
  {
    hide ReadLine, Step, AllNames, HeadLine, HeaderOf;
    if a != [] {
      assert SameLine(a[0], b[0]);
      if a[0] != b[0] {
        var names :| BothHeaders(a[0], b[0], names);
        HeadersAgree(at, names);
      }
      StepKeepsName(at, ReadLine(a[0]));
      assert forall i | 1 <= i < |a| :: SameLine(a[i], b[i]);
      LoadSame(Step(at, ReadLine(a[0])), a[1..], b[1..]);
    }
  }

  lemma SameConcat(a: seq<string>, b: seq<string>, c: seq<string>, d: seq<string>)
    requires SameLines(a, b) && SameLines(c, d)
    ensures SameLines(a + c, b + d)
  {
    hide SameLine;
  }

  lemma SameSelf(a: seq<string>)
    ensures SameLines(a, a)
  {
  }

  // ----- the documented text of a tree

  /** The folders one after another, each under its path below the root. */
  function DocumentedForest(fs: seq<Folder>): seq<string> {
    if fs == [] then [] else FolderLines(fs[0], fs[0].name) + DocumentedForest(fs[1..])
  }

  /** The sessions of the root, then its folders. */
  function DocumentedLines(t: Folder): seq<string> {
    SessionLines(t.sessions) + DocumentedForest(t.folders)
  }

  lemma {:induction false} FolderSame(f: Folder, names: seq<string>)
    requires Shaped(f) && AllNames(names) && names != [] && names[0] != ROOT
    ensures SameLines(FolderLines(f, HeaderOf(names)), FolderLines(f, PathOf(names)))
    decreases f, 1
  {
    hide SameLine, HeadLine, HeaderOf, AllNames, FolderName;
    var a, b := HeadLine(HeaderOf(names)), HeadLine(PathOf(names));
    assert SameLine(a, b) by { assert BothHeaders(a, b, names); HeaderLinesSame(a, b, names); }
    ForestSame(f.folders, names);
    SameSelf(SessionLines(f.sessions));
    SameConcat([a], [b], SessionLines(f.sessions), SessionLines(f.sessions));
    SameConcat([a] + SessionLines(f.sessions), [b] + SessionLines(f.sessions),
               ForestLines(f.folders, HeaderOf(names)), ForestLines(f.folders, PathOf(names)));
  }

  lemma HeaderLinesSame(a: string, b: string, names: seq<string>)
    requires BothHeaders(a, b, names)
    ensures SameLine(a, b)
  {
  }

  lemma {:induction false} ForestSame(fs: seq<Folder>, names: seq<string>)
    requires (forall i | 0 <= i < |fs| :: FolderName(fs[i].name) && Shaped(fs[i]))
    requires AllNames(names) && names != [] && names[0] != ROOT
    ensures SameLines(ForestLines(fs, HeaderOf(names)), ForestLines(fs, PathOf(names)))
    decreases fs, 0
  {
    hide SameLine, HeadLine, HeaderOf, FolderName, FolderLines, Shaped, PathOf;
    if fs != [] {
      var below := names + [fs[0].name];
      HeaderBelow(names, fs[0].name);
      PathBelow(names, fs[0].name);
      FolderSame(fs[0], below);
      ForestSame(fs[1..], names);
      SameConcat(FolderLines(fs[0], HeaderOf(below)), FolderLines(fs[0], PathOf(below)),
                 ForestLines(fs[1..], HeaderOf(names)), ForestLines(fs[1..], PathOf(names)));
    }
  }

  lemma PathBelow(names: seq<string>, name: string)
    requires names != []
    ensures PathOf(names + [name]) == PathOf(names) + "/" + name
  {
    JoinSnoc(names, name, '/');
  }

  lemma {:induction false} DocumentedSame(fs: seq<Folder>)
    requires forall i | 0 <= i < |fs| :: FolderName(fs[i].name) && Shaped(fs[i]) && fs[i].name != ROOT
    ensures SameLines(ForestLines(fs, HeaderOf([])), DocumentedForest(fs))
    decreases |fs|
  {
    hide SameLine, HeaderOf, FolderName, FolderLines, Shaped;
    if fs != [] {
      var name := fs[0].name;
      HeaderBelow([], name);
      assert [] + [name] == [name];
      assert PathOf([name]) == name by { JoinOne(name, '/'); }
      FolderSame(fs[0], [name]);
      DocumentedSame(fs[1..]);
      SameConcat(FolderLines(fs[0], HeaderOf([name])), FolderLines(fs[0], name),
                 ForestLines(fs[1..], HeaderOf([])), DocumentedForest(fs[1..]));
    }
  }

  /** The documented lines load as the printed ones. */
  lemma DocumentedLoads(t: Folder)
    requires t.name == ROOT && Shaped(t) && forall i | 0 <= i < |t.folders| :: t.folders[i].name != ROOT
    ensures Load(START, DocumentedLines(t)) == Load(START, FolderLines(t, ROOT))
  {
    hide Load, SameLine, HeadLine, HeaderOf, FolderName, ForestLines, DocumentedForest;
    var head, ss, forest := [HeadLine(ROOT)], SessionLines(t.sessions), ForestLines(t.folders, ROOT);
    RootHeader();
    assert FolderLines(t, ROOT) == head + (ss + forest);
    LoadConcat(START, head, ss + forest);
    DocumentedSame(t.folders);
    SameSelf(ss);
    SameConcat(ss, ss, forest, DocumentedForest(t.folders));
    LoadSame(START, ss + forest, DocumentedLines(t));
  }

  lemma {:induction false} DocumentedFree(fs: seq<Folder>)
    requires forall i | 0 <= i < |fs| :: FolderName(fs[i].name) && Shaped(fs[i])
    requires forall s | s in Bags(fs) :: OneLine(s)
    ensures AllFree(DocumentedForest(fs), '\n')
    decreases |fs|
  {
    hide Free, OneLine, FolderLines, Shaped, Bag;
    if fs != [] {
      IniExact.FolderLinesFree(fs[0], fs[0].name);
      DocumentedFree(fs[1..]);
      IniExact.AllFreeConcat(FolderLines(fs[0], fs[0].name), DocumentedForest(fs[1..]), '\n');
    }
  }

  /** The documented text of a legal tree is read back as the tree, when no folder under the
      root has the root's name. */
  lemma DocumentedBack(t: Folder)
    requires LegalTree(t) && forall i | 0 <= i < |t.folders| :: t.folders[i].name != ROOT
    ensures Deserialized(Unlines(DocumentedLines(t))) == t
  {
    hide Load, Unlines, FolderLines, DocumentedForest, Deserialized, Serialized, Free, SessionLine, OneLine, Legal;
    forall i | 0 <= i < |t.sessions|
      ensures Free(SessionLines(t.sessions)[i], '\n')
    {
      assert t.sessions[i] in Bag(t);
      IniExact.SessionLineFree(t.sessions[i]);
    }
    forall s | s in Bags(t.folders)
      ensures OneLine(s)
    {
      assert s in Bag(t);
    }
    DocumentedFree(t.folders);
    IniExact.AllFreeConcat(SessionLines(t.sessions), DocumentedForest(t.folders), '\n');
    IniExact.LinesLoad(DocumentedLines(t));
    DocumentedLoads(t);
    IniExact.TextIsLines(t);
    IniExact.RoundTripExactly(t);
  }

  // ----- how the text looks

  lemma {:induction false} FieldsJoined(kind: string, ps: seq<Param>)
    requires ps != []
    ensures var n := |ps| - 1;
            Join([kind] + Fields(ps), ';') == Join([kind] + Fields(ps[..n]), ';') + ";" + ps[n].key + "=" + ps[n].value
  {
    hide Join;
    var n := |ps| - 1;
    assert [kind] + Fields(ps) == [kind] + Fields(ps[..n]) + [Field(ps[n])];
    JoinSnoc([kind] + Fields(ps[..n]), Field(ps[n]), ';');
  }

  /** A line is the name, an equals sign and the kind, and each parameter adds a semicolon,
      its key, an equals sign and its value. */
  lemma LineLooks(name: string, kind: Kind, ps: seq<Param>)
    ensures SessionLine(Session(name, kind, [])) == name + "=" + KindName(kind)
    ensures ps != [] ==>
              var n := |ps| - 1;
              SessionLine(Session(name, kind, ps)) ==
              SessionLine(Session(name, kind, ps[..n])) + ";" + ps[n].key + "=" + ps[n].value
  {
    hide Join;
    assert [KindName(kind)] + Fields([]) == [KindName(kind)];
    JoinOne(KindName(kind), ';');
    if ps != [] {
      FieldsJoined(KindName(kind), ps);
    }
  }

  lemma OneFolder(f: Folder, header: string)
    ensures ForestLines([f], header) == FolderLines(f, header + "/" + f.name)
    ensures DocumentedForest([f]) == FolderLines(f, f.name)
  {
    hide FolderLines;
    assert [f][1..] == [];
  }

  lemma OneSession(f: Folder, header: string, s: Session)
    requires f.sessions == [s]
    ensures FolderLines(f, header) == ["[Folder=" + header + "]", SessionLine(s)] + ForestLines(f.folders, header)
  {
    hide SessionLine, ForestLines;
    assert SessionLines([s]) == [SessionLine(s)];
  }

  /** The text of a folder inside a folder, each with a session, as the documentation shows
      it. */
  lemma DocumentedLooks(outer: string, inner: string, s: Session, t: Session)
    ensures DocumentedLines(Folder(ROOT, [], [Folder(outer, [s], [Folder(inner, [t], [])])])) ==
            ["[Folder=" + outer + "]", SessionLine(s), "[Folder=" + (outer + "/" + inner) + "]", SessionLine(t)]
  {
    hide SessionLine, FolderLines, ForestLines, DocumentedForest;
    var low := Folder(inner, [t], []);
    var top := Folder(outer, [s], [low]);
    OneSession(low, outer + "/" + inner, t);
    NoForest(outer + "/" + inner);
    OneFolder(low, outer);
    OneSession(top, outer, s);
    OneFolder(top, "");
    assert SessionLines([]) == [];
  }

  /** The text that is printed for such a tree: every folder under its whole path, every line
      ended. */
  lemma PrintedLooks(root: string, s: Session, name: string, t: Session)
    ensures Serialized(Folder(root, [s], [Folder(name, [t], [])])) ==
            "[Folder=" + root + "]\n" + SessionLine(s) + "\n" +
            "[Folder=" + (root + "/" + name) + "]\n" + SessionLine(t) + "\n"
  {
    hide SessionLine, FolderLines, ForestLines, Unlines;
    var low := Folder(name, [t], []);
    var top := Folder(root, [s], [low]);
    OneSession(low, root + "/" + name, t);
    NoForest(root + "/" + name);
    OneFolder(low, root);
    OneSession(top, root, s);
    var a, b, c, d := "[Folder=" + root + "]", SessionLine(s), "[Folder=" + (root + "/" + name) + "]", SessionLine(t);
    assert FolderLines(top, root) == [a] + ([b] + ([c] + [d]));
    UnlinesConcat([a], [b] + ([c] + [d]));
    UnlinesConcat([b], [c] + [d]);
    UnlinesConcat([c], [d]);
    UnlinesOne(a);
    UnlinesOne(b);
    UnlinesOne(c);
    UnlinesOne(d);
  }

  /** A text with nothing in it is read as a root without sessions or folders. */
  lemma EmptyText()
    ensures Deserialized("") == Folder("Sessions", [], [])
  {
    hide Load;
    assert Split("", '\n') == [""];
    assert ReadLine("") == Nothing;
    LoadOne(START, "");
  }

  /** The names of the kinds, in the order of their declaration. */
  lemma KindNames()
    ensures [KindName(Ssh), KindName(Telnet), KindName(Rsh), KindName(Rlogin), KindName(Serial), KindName(Mosh),
             KindName(Sftp), KindName(Ftp), KindName(S3), KindName(Shell), KindName(Rdp), KindName(Vnc),
             KindName(Xdmcp), KindName(Browser), KindName(Unknown)] ==
            ["SSH", "Telnet", "RSH", "Rlogin", "Serial", "Mosh", "SFTP", "FTP", "S3", "Shell", "RDP", "VNC",
             "XDMCP", "Browser", "Unknown"]
  {
  }

  // ----- padded lines

  ghost predicate AllSpace(s: string) {
    forall i | 0 <= i < |s| :: IsSpace(s[i])
  }

  lemma {:induction false} TrimLeftPadding(a: string, s: string)
    requires AllSpace(a)
    ensures TrimLeft(a + s) == TrimLeft(s)
  {
    hide IsSpace;
    if a == "" {
      assert a + s == s;
    } else {
      assert (a + s)[1..] == a[1..] + s;
      TrimLeftPadding(a[1..], s);
    }
  }

  lemma {:induction false} TrimRightPadding(s: string, b: string)
    requires AllSpace(b)
    ensures TrimRight(s + b) == TrimRight(s)
    decreases |b|
  {
    hide IsSpace;
    if b == "" {
      assert s + b == s;
    } else {
      assert (s + b)[..|s + b| - 1] == s + b[..|b| - 1];
      TrimRightPadding(s, b[..|b| - 1]);
    }
  }

  lemma {:induction false} TrimLeftThrough(s: string, b: string)
    requires AllSpace(b)
    ensures TrimLeft(s + b) == if TrimLeft(s) == "" then "" else TrimLeft(s) + b
  {
    hide IsSpace;
    if s == "" {
      assert s + b == b + "" == b;
      TrimLeftPadding(b, "");
    } else if IsSpace(s[0]) {
      assert (s + b)[1..] == s[1..] + b;
      TrimLeftThrough(s[1..], b);
    }
  }

  /** White space around a line, the carriage return of a Windows text included, changes
      nothing about what it says. */
  lemma PaddedLine(a: string, line: string, b: string)
    requires AllSpace(a) && AllSpace(b)
    ensures ReadLine(a + line + b) == ReadLine(line)
    ensures AllSpace(" \t\r\n")
  {
    hide TrimLeft, TrimRight, Classify;
    assert a + line + b == a + (line + b);
    TrimLeftPadding(a, line + b);
    TrimLeftThrough(line, b);
    TrimRightPadding(TrimLeft(line), b);
  }

  // ----- kinds in any case

  /** The same letters, capital or small. */
  predicate SameLetter(c: char, d: char) {
    c == d || ('a' <= c <= 'z' && d as int == c as int - 32) || ('a' <= d <= 'z' && c as int == d as int - 32)
  }

  ghost predicate SameLetters(s: string, t: string) {
    |s| == |t| && forall i | 0 <= i < |s| :: SameLetter(s[i], t[i])
  }

  lemma UpperSame(s: string, t: string)
    ensures SameLetters(s, t) <==> Upper(s) == Upper(t)
  {
    if Upper(s) == Upper(t) {
      forall i | 0 <= i < |s|
        ensures SameLetter(s[i], t[i])
      {
        assert Upper(s)[i] == Upper(t)[i];
      }
    }
  }

  lemma CapitalsOf(up: string)
    ensures KindOfCapitals(up) != Unknown ==> up == Capitals(KindOfCapitals(up))
  {
  }

  /** A kind other than Unknown is read from its name alone, in capital or small letters and
      with any white space around it. */
  lemma KindExactly(s: string, k: Kind)
    requires k != Unknown
    ensures KindOf(s) == k <==> SameLetters(Trim(s), KindName(k))
  {
    hide Upper, Trim, KindName, Capitals, KindOfCapitals;
    UpperSame(Trim(s), KindName(k));
    UpperName(k);
    CapitalsBack(k);
    CapitalsOf(Upper(Trim(s)));
  }

  // ----- repeated fields

  /** The field gives the key a value. */
  predicate Assigns(field: string, key: string) {
    key != "" && Free(key, '=') && key + "=" <= field
  }

  /** The value that the last field for the key gives it. */
  function LastValue(fields: seq<string>, key: string): Option<string> {
    if fields == [] then None
    else
      var n := |fields| - 1;
      if Assigns(fields[n], key) then Some(fields[n][|key| + 1..]) else LastValue(fields[..n], key)
  }

  /** What is in a parameter list after a parameter was put there: it replaces the value of
      its key and leaves the others. */
  lemma {:induction false} PutIs(ps: seq<Param>, p: Param, q: Param)
    requires Sorted(ps)
    ensures q in Put(ps, p) <==> if q.key == p.key then q == p else q in ps
  {
    hide Less;
    if ps != [] {
      forall j | 0 < j < |ps|
        ensures ps[j].key != ps[0].key
      {
        LessAsymmetric(ps[0].key, ps[j].key);
      }
      if ps[0].key == p.key {
        assert q in ps[1..] ==> q.key != p.key;
      } else if Less(p.key, ps[0].key) {
        forall j | 0 <= j < |ps|
          ensures ps[j].key != p.key
        {
          if j > 0 {
            LessTransitive(p.key, ps[0].key, ps[j].key);
          }
          LessAsymmetric(p.key, ps[j].key);
        }
      } else {
        PutIs(ps[1..], p, q);
        assert ps == [ps[0]] + ps[1..];
      }
    }
  }

  lemma TakeFieldIs(ps: seq<Param>, field: string, q: Param)
    requires Sorted(ps)
    ensures Sorted(TakeField(ps, field))
    ensures q in TakeField(ps, field) <==>
              if Assigns(field, q.key) then q.value == field[|q.key| + 1..] else q in ps
  {
    hide Less, Put, Sorted;
    var e := IndexOf(field, '=');
    if Assigns(field, q.key) {
      assert field == q.key + "=" + field[|q.key| + 1..];
      IndexOfFirst(q.key, '=', field[|q.key| + 1..]);
      assert field[..e] == q.key;
    }
    if 0 < e < |field| {
      var p := Param(field[..e], field[e + 1..]);
      PutSorted(ps, p);
      PutIs(ps, p, q);
      assert q.key == p.key ==> Assigns(field, q.key) by { assert field[..e] + "=" == field[..e + 1]; }
    }
  }

  lemma {:induction false} TakeFieldsSnoc(ps: seq<Param>, fields: seq<string>, field: string)
    ensures TakeFields(ps, fields + [field]) == TakeField(TakeFields(ps, fields), field)
    decreases |fields|
  {
    hide TakeField;
    if fields == [] {
      assert (fields + [field])[1..] == [];
    } else {
      assert (fields + [field])[1..] == fields[1..] + [field];
      TakeFieldsSnoc(TakeField(ps, fields[0]), fields[1..], field);
    }
  }

  /** Of several fields for one key the last gives its value, and no other key has one. */
  lemma {:induction false} LastFieldWins(fields: seq<string>, q: Param)
    ensures Sorted(TakeFields([], fields))
    ensures q in TakeFields([], fields) <==> LastValue(fields, q.key) == Some(q.value)
  {
    hide TakeField, Assigns, Less;
    if fields != [] {
      var n := |fields| - 1;
      LastFieldWins(fields[..n], q);
      assert fields == fields[..n] + [fields[n]];
      TakeFieldsSnoc([], fields[..n], fields[n]);
      TakeFieldIs(TakeFields([], fields[..n]), fields[n], q);
    }
  }

  /** A trimmed line that is no header: the name before the first equals sign, the kind, and
      of each key the last value. */
  lemma EntryReads(name: string, kind: string, fields: seq<string>)
    requires LegalName(name) && Free(kind, ';') && AllFree(fields, ';')
    requires !IsHead(name + "=" + Join([kind] + fields, ';'))
    ensures Classify(name + "=" + Join([kind] + fields, ';')) ==
            Entry(Session(name, KindOf(kind), TakeFields([], fields)))
  {
    hide KindOf, TakeFields, Join, Split, IsHead;
    var parts := [kind] + fields;
    var line := name + "=" + Join(parts, ';');
    assert line[0] == name[0];
    SplitJoin(parts, ';');
    IndexOfFirst(name, '=', Join(parts, ';'));
    assert line[..|name|] == name && line[|name| + 1..] == Join(parts, ';');
    assert parts[1..] == fields;
  }

  // ----- the order of keys

  /** One string is before another when, after a common start, it ends first or has the
      smaller character. */
  lemma {:induction false} LessExactly(a: string, b: string)
    ensures Less(a, b) <==> exists k :: FirstSmaller(a, b, k)
  {
    if a == "" || b == "" || a[0] != b[0] {
      if Less(a, b) {
        assert FirstSmaller(a, b, 0);
      }
    } else {
      LessExactly(a[1..], b[1..]);
      if Less(a, b) {
        var k: nat :| FirstSmaller(a[1..], b[1..], k);
        assert a[..k + 1] == [a[0]] + a[1..][..k] && b[..k + 1] == [b[0]] + b[1..][..k];
        assert FirstSmaller(a, b, k + 1);
      }
      if exists k :: FirstSmaller(a, b, k) {
        var k: nat :| FirstSmaller(a, b, k);
        assert a[1..][..k - 1] == a[..k][1..] && b[1..][..k - 1] == b[..k][1..];
        assert FirstSmaller(a[1..], b[1..], k - 1);
      }
    }
  }

  predicate FirstSmaller(a: string, b: string, k: nat) {
    k <= |a| && k < |b| && a[..k] == b[..k] && (k == |a| || a[k] < b[k])
  }
}
