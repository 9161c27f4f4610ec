/** Saved sessions and the one line each takes in the INI file. */
module IniSession {
  import opened Text

  datatype Kind = Ssh | Telnet | Rsh | Rlogin | Serial | Mosh | Sftp | Ftp | S3
                | Shell | Rdp | Vnc | Xdmcp | Browser | Unknown

  function KindName(k: Kind): string {
    match k
    case Ssh => "SSH"
    case Telnet => "Telnet"
    case Rsh => "RSH"
    case Rlogin => "Rlogin"
    case Serial => "Serial"
    case Mosh => "Mosh"
    case Sftp => "SFTP"
    case Ftp => "FTP"
    case S3 => "S3"
    case Shell => "Shell"
    case Rdp => "RDP"
    case Vnc => "VNC"
    case Xdmcp => "XDMCP"
    case Browser => "Browser"
    case Unknown => "Unknown"
  }

  function UpperChar(c: char): char {
    if 'a' <= c <= 'z' then c - 'a' + 'A' else c
  }

  function Upper(s: string): string {
    seq(|s|, i requires 0 <= i < |s| => UpperChar(s[i]))
  }

  /** A kind's name is letters and digits. */
  lemma KindPlain(k: Kind)
    ensures var n := KindName(k);
            n != "" && forall i | 0 <= i < |n| :: '0' <= n[i] <= 'z' && n[i] != ';' && n[i] != '=' && n[i] != ']'
  {
  }

  lemma UpperIs(s: string, t: string)
    requires |s| == |t| && forall i | 0 <= i < |s| :: UpperChar(s[i]) == t[i]
    ensures Upper(s) == t
  {
  }

  /** The capitals of a kind's name. */
  function Capitals(k: Kind): string {
    match k
    case Ssh => "SSH"
    case Telnet => "TELNET"
    case Rsh => "RSH"
    case Rlogin => "RLOGIN"
    case Serial => "SERIAL"
    case Mosh => "MOSH"
    case Sftp => "SFTP"
    case Ftp => "FTP"
    case S3 => "S3"
    case Shell => "SHELL"
    case Rdp => "RDP"
    case Vnc => "VNC"
    case Xdmcp => "XDMCP"
    case Browser => "BROWSER"
    case Unknown => "UNKNOWN"
  }

  /** The kind with these capitals, or Unknown. */
  function KindOfCapitals(up: string): Kind {
    if up == "SSH" then Ssh
    else if up == "TELNET" then Telnet
    else if up == "RSH" then Rsh
    else if up == "RLOGIN" then Rlogin
    else if up == "SERIAL" then Serial
    else if up == "MOSH" then Mosh
    else if up == "SFTP" then Sftp
    else if up == "FTP" then Ftp
    else if up == "S3" then S3
    else if up == "SHELL" then Shell
    else if up == "RDP" then Rdp
    else if up == "VNC" then Vnc
    else if up == "XDMCP" then Xdmcp
    else if up == "BROWSER" then Browser
    else Unknown
  }

  lemma CapitalsBack(k: Kind)
    ensures KindOfCapitals(Capitals(k)) == k
  {
  }

  /** Kinds are read without regard to case or surrounding space. */
  function KindOf(s: string): Kind {
    KindOfCapitals(Upper(Trim(s)))
  }

  lemma UpperName(k: Kind)
    ensures Upper(KindName(k)) == Capitals(k)
  {
    hide Upper;
    UpperIs(KindName(k), Capitals(k));
  }

  lemma KindBack(k: Kind)
    ensures KindOf(KindName(k)) == k
  {
    hide Upper, Trim, KindName, Capitals, KindOfCapitals;
    KindPlain(k);
    TrimStable(KindName(k));
    UpperName(k);
    CapitalsBack(k);
  }

  // ----- parameters: a map kept in key order

  datatype Param = Param(key: string, value: string)

  /** The order of strings by their characters. */
  predicate Less(a: string, b: string) {
    b != "" && (a == "" || a[0] < b[0] || (a[0] == b[0] && Less(a[1..], b[1..])))
  }

  ghost predicate Sorted(ps: seq<Param>) {
    forall i, j | 0 <= i < j < |ps| :: Less(ps[i].key, ps[j].key)
  }

  /** Inserts or replaces, keeping the keys in order. */
  function Put(ps: seq<Param>, p: Param): seq<Param> {
    if ps == [] then [p]
    else if ps[0].key == p.key then [p] + ps[1..]
    else if Less(p.key, ps[0].key) then [p] + ps
    else [ps[0]] + Put(ps[1..], p)
  }

  lemma {:induction false} LessAsymmetric(a: string, b: string)
    requires Less(a, b)
    ensures a != b && !Less(b, a)
  {
    if a != "" && a[0] == b[0] {
      LessAsymmetric(a[1..], b[1..]);
    }
  }

  lemma {:induction false} LessTotal(a: string, b: string)
    ensures a == b || Less(a, b) || Less(b, a)
  {
    if a != "" && b != "" && a[0] == b[0] {
      LessTotal(a[1..], b[1..]);
      assert a == [a[0]] + a[1..] && b == [b[0]] + b[1..];
    }
  }

  lemma {:induction false} LessTransitive(a: string, b: string, c: string)
    requires Less(a, b) && Less(b, c)
    ensures Less(a, c)
  {
    if a != "" && a[0] == b[0] == c[0] {
      LessTransitive(a[1..], b[1..], c[1..]);
    }
  }

  /** What is in a parameter list after an insertion. */
  lemma {:induction false} PutMembers(ps: seq<Param>, p: Param, q: Param)
    requires q in Put(ps, p)
    ensures q == p || q in ps
  {
    hide Less;
    if ps != [] && ps[0].key != p.key && !Less(p.key, ps[0].key) && q != ps[0] {
      PutMembers(ps[1..], p, q);
    }
  }

  lemma {:induction false} PutSorted(ps: seq<Param>, p: Param)
    requires Sorted(ps)
    ensures Sorted(Put(ps, p))
  {
    hide Less;
    if ps == [] {
    } else if ps[0].key == p.key {
    } else if Less(p.key, ps[0].key) {
      forall j | 0 < j < |ps|
        ensures Less(p.key, ps[j].key)
      {
        LessTransitive(p.key, ps[0].key, ps[j].key);
      }
    } else {
      LessTotal(p.key, ps[0].key);
      PutSorted(ps[1..], p);
      var rest := Put(ps[1..], p);
      forall j | 0 <= j < |rest|
        ensures Less(ps[0].key, rest[j].key)
      {
        PutMembers(ps[1..], p, rest[j]);
      }
    }
  }

  /** A key after all others goes to the end. */
  lemma {:induction false} PutLast(ps: seq<Param>, p: Param)
    requires forall i | 0 <= i < |ps| :: Less(ps[i].key, p.key)
    ensures Put(ps, p) == ps + [p]
  {
    hide Less;
    if ps != [] {
      LessAsymmetric(ps[0].key, p.key);
      PutLast(ps[1..], p);
    }
  }

  // ----- the line of a session

  datatype Session = Session(name: string, kind: Kind, params: seq<Param>)

  function Field(p: Param): string {
    p.key + "=" + p.value
  }

  function Fields(ps: seq<Param>): (r: seq<string>)
    ensures |r| == |ps|
    ensures forall i | 0 <= i < |ps| :: r[i] == Field(ps[i])
  {
    seq(|ps|, i requires 0 <= i < |ps| => Field(ps[i]))
  }

  function SessionLine(s: Session): string {
    s.name + "=" + Join([KindName(s.kind)] + Fields(s.params), ';')
  }

  /** One field after the kind: without an equals sign past its start it is passed over. */
  function TakeField(ps: seq<Param>, field: string): seq<Param> {
    var e := IndexOf(field, '=');
    if 0 < e < |field| then Put(ps, Param(field[..e], field[e + 1..])) else ps
  }

  function TakeFields(ps: seq<Param>, fields: seq<string>): seq<Param>
    decreases |fields|
  {
    if fields == [] then ps else TakeFields(TakeField(ps, fields[0]), fields[1..])
  }

  datatype Line = Nothing | Head(path: string) | Entry(session: Session)

  const HEAD := "[Folder="

  predicate IsHead(line: string) {
    HEAD <= line && line[|line| - 1] == ']'
  }

  /** What a trimmed line says. */
  function Classify(line: string): Line {
    if line == "" || line[0] == '#' then Nothing
    else if IsHead(line) then Head(line[8..|line| - 1])
    else
      var eq := IndexOf(line, '=');
      if eq == 0 || eq == |line| then Nothing
      else
        var fields := Split(line[eq + 1..], ';');
        Entry(Session(line[..eq], KindOf(fields[0]), TakeFields([], fields[1..])))
  }

  function ReadLine(line: string): Line {
    Classify(Trim(line))
  }

  // ----- which sessions read back

  predicate LegalKey(key: string) {
    key != "" && Free(key, '=') && Free(key, ';')
  }

  ghost predicate LegalParams(ps: seq<Param>) {
    Sorted(ps) && forall i | 0 <= i < |ps| :: LegalKey(ps[i].key) && Free(ps[i].value, ';')
  }

  /** A name with an equals sign inside, or that starts a comment, or is padded, does not
      come back. */
  predicate LegalName(name: string) {
    name != "" && Free(name, '=') && !IsSpace(name[0]) && name[0] != '#'
  }

  /** The last thing on the line, when it is a value, must not end in white space. */
  predicate Tight(ps: seq<Param>) {
    ps != [] ==>
      var v := ps[|ps| - 1].value;
      v != "" ==> !IsSpace(v[|v| - 1])
  }

  /** A line that would be taken for a folder header. */
  predicate Confused(s: Session) {
    s.name == "[Folder" && s.params != [] &&
    var v := s.params[|s.params| - 1].value;
    v != "" && v[|v| - 1] == ']'
  }

  ghost predicate Legal(s: Session) {
    LegalName(s.name) && LegalParams(s.params) && Tight(s.params) && !Confused(s)
  }

  lemma {:induction false} TakeFieldsBack(done: seq<Param>, ps: seq<Param>)
    requires LegalParams(done + ps)
    ensures TakeFields(done, Fields(ps)) == done + ps
    decreases |ps|
  {
    hide Less, Put;
    if ps == [] {
      assert done + ps == done;
    } else {
      var all, p := done + ps, ps[0];
      assert all[|done|] == p;
      assert forall i | 0 <= i < |done| :: all[i] == done[i];
      IndexOfFirst(p.key, '=', p.value);
      PutLast(done, p);
      assert Field(p)[..|p.key|] == p.key && Field(p)[|p.key| + 1..] == p.value;
      assert TakeField(done, Field(p)) == done + [p];
      assert Fields(ps)[1..] == Fields(ps[1..]);
      assert done + [p] + ps[1..] == all;
      TakeFieldsBack(done + [p], ps[1..]);
    }
  }

  /** The session with white space cut off the end of its last value. */
  function Tightened(s: Session): Session {
    if s.params == [] then s
    else
      var n := |s.params| - 1;
      s.(params := s.params[n := Param(s.params[n].key, TrimRight(s.params[n].value))])
  }

  /** A session line, split where its last value starts. */
  function BeforeLast(s: Session): string
    requires s.params != []
  {
    var n := |s.params| - 1;
    s.name + "=" + Join([KindName(s.kind)] + Fields(s.params[..n]), ';') + ";" + s.params[n].key + "="
  }

  lemma LineEndsInValue(s: Session)
    requires s.params != []
    ensures SessionLine(s) == BeforeLast(s) + s.params[|s.params| - 1].value
  {
    hide Join, Split;
    var n := |s.params| - 1;
    var parts := [KindName(s.kind)] + Fields(s.params[..n]);
    assert [KindName(s.kind)] + Fields(s.params) == parts + [Field(s.params[n])];
    JoinSnoc(parts, Field(s.params[n]), ';');
  }

  lemma TrimmedLine(s: Session)
    requires LegalName(s.name)
    ensures Trim(SessionLine(s)) == SessionLine(Tightened(s))
  {
    hide Join, Tightened;
    var line := SessionLine(s);
    assert line[0] == s.name[0];
    if s.params == [] {
      assert Tightened(s) == s by { TightenedNothing(s); }
      KindPlain(s.kind);
      assert [KindName(s.kind)] + Fields(s.params) == [KindName(s.kind)];
      JoinOne(KindName(s.kind), ';');
      TrimStable(line);
    } else {
      LineEndsInValue(s);
      TrimRightTail(BeforeLast(s), s.params[|s.params| - 1].value);
      TightenedLast(s);
      LineEndsInValue(Tightened(s));
    }
  }

  lemma TightenedNothing(s: Session)
    requires s.params == []
    ensures Tightened(s) == s
  {
  }

  lemma TightenedLast(s: Session)
    requires s.params != []
    ensures var t := Tightened(s);
            && |t.params| == |s.params|
            && t.params[|t.params| - 1].value == TrimRight(s.params[|s.params| - 1].value)
            && BeforeLast(t) == BeforeLast(s)
  {
    assert Tightened(s).params[..|s.params| - 1] == s.params[..|s.params| - 1];
  }

  lemma TightenedLegal(s: Session)
    requires LegalParams(s.params)
    ensures LegalParams(Tightened(s).params) && Tight(Tightened(s).params)
    ensures Tight(s.params) <==> Tightened(s) == s
  {
    hide Less;
    if s.params != [] {
      var p := s.params[|s.params| - 1];
      TrimRightPrefix(p.value);
      var t := Tightened(s).params;
      assert forall i | 0 <= i < |t| :: t[i].key == s.params[i].key;
      if Tightened(s) == s {
        assert t[|t| - 1] == p;
      }
    }
  }

  lemma FieldsFree(s: Session)
    requires LegalParams(s.params)
    ensures AllFree([KindName(s.kind)] + Fields(s.params), ';')
  {
    hide Less, KindName;
    KindPlain(s.kind);
    var parts := [KindName(s.kind)] + Fields(s.params);
    forall i | 0 <= i < |parts|
      ensures Free(parts[i], ';')
    {
      if i > 0 {
        var p := s.params[i - 1];
        FreeConcat(p.key + "=", p.value, ';');
        FreeConcat(p.key, "=", ';');
      }
    }
  }

  /** A session line with nothing to trim reads as a header or as the session. */
  lemma TightLine(s: Session)
    requires LegalName(s.name) && LegalParams(s.params)
    ensures var line := SessionLine(s);
            Classify(line) == if IsHead(line) then Head(line[8..|line| - 1]) else Entry(s)
  {
    hide KindOf, KindName, LegalParams, Join, Split, IsHead;
    var parts := [KindName(s.kind)] + Fields(s.params);
    var line := SessionLine(s);
    assert line[0] == s.name[0];
    FieldsFree(s);
    SplitJoin(parts, ';');
    IndexOfFirst(s.name, '=', Join(parts, ';'));
    assert line[..|s.name|] == s.name && line[|s.name| + 1..] == Join(parts, ';');
    KindBack(s.kind);
    assert parts[1..] == Fields(s.params);
    assert [] + s.params == s.params;
    TakeFieldsBack([], s.params);
  }

  /** A session line looks like a header exactly when the session is confused. */
  lemma ConfusedLine(s: Session)
    requires LegalName(s.name)
    ensures IsHead(SessionLine(s)) <==> Confused(s)
  {
    hide Join, BeforeLast;
    var line := SessionLine(s);
    IndexOfFirst(s.name, '=', Join([KindName(s.kind)] + Fields(s.params), ';'));
    assert line[..|s.name|] == s.name && line[|s.name|] == '=';
    if s.name == "[Folder" {
      assert line[..8] == s.name + "=";
    }
    if HEAD <= line {
      assert line[7] == HEAD[7] && forall i | 0 <= i < 7 :: line[i] == HEAD[i] != '=';
      assert |s.name| == 7 && s.name == HEAD[..7];
    }
    LineLast(s);
  }

  /** The last character of a session line. */
  lemma LineLast(s: Session)
    ensures var line := SessionLine(s);
            line != "" && (line[|line| - 1] == ']' <==>
              s.params != [] && var v := s.params[|s.params| - 1].value; v != "" && v[|v| - 1] == ']')
  {
    hide Join;
    if s.params == [] {
      KindPlain(s.kind);
      assert [KindName(s.kind)] + Fields(s.params) == [KindName(s.kind)];
      JoinOne(KindName(s.kind), ';');
    } else {
      LineEndsInValue(s);
    }
  }

  /** What the line of a session with legal name and parameters reads as. */
  lemma LineReads(s: Session)
    requires LegalName(s.name) && LegalParams(s.params)
    ensures Confused(Tightened(s)) ==> ReadLine(SessionLine(s)).Head?
    ensures !Confused(Tightened(s)) ==> ReadLine(SessionLine(s)) == Entry(Tightened(s))
  {
    hide Classify, SessionLine, LegalParams, Tightened, Confused;
    TrimmedLine(s);
    TightenedLegal(s);
    TightenedName(s);
    TightLine(Tightened(s));
    ConfusedLine(Tightened(s));
  }

  lemma TightenedName(s: Session)
    ensures Tightened(s).name == s.name && Tightened(s).kind == s.kind
  {
  }

  lemma {:induction false} TakeFieldsLegal(done: seq<Param>, fields: seq<string>)
    requires LegalParams(done) && AllFree(fields, ';')
    ensures LegalParams(TakeFields(done, fields))
    decreases |fields|
  {
    hide Less, Put;
    if fields != [] {
      var f := fields[0];
      var e := IndexOf(f, '=');
      assert Free(f, ';');
      if 0 < e < |f| {
        var p := Param(f[..e], f[e + 1..]);
        PutSorted(done, p);
        forall q | q in Put(done, p)
          ensures LegalKey(q.key) && Free(q.value, ';')
        {
          PutMembers(done, p, q);
        }
      }
      TakeFieldsLegal(TakeField(done, f), fields[1..]);
    }
  }

  /** Whatever a line reads as has a legal name and legal parameters. */
  lemma EntriesAreLegal(line: string)
    requires ReadLine(line).Entry?
    ensures LegalName(ReadLine(line).session.name) && LegalParams(ReadLine(line).session.params)
  {
    hide KindOf, LegalParams, Trim;
    var t := Trim(line);
    TrimEnds(line);
    var eq := IndexOf(t, '=');
    assert t[..eq][0] == t[0];
    var fields := Split(t[eq + 1..], ';');
    SplitFree(t[eq + 1..], ';');
    assert AllFree(fields[1..], ';');
    assert LegalParams([]) by { NoParams(); }
    TakeFieldsLegal([], fields[1..]);
  }

  lemma NoParams()
    ensures LegalParams([])
  {
  }

  /** The line of a session reads back as that session exactly when the session is legal. */
  lemma LineBackExactly(s: Session)
    ensures ReadLine(SessionLine(s)) == Entry(s) <==> Legal(s)
  {
    hide SessionLine, ReadLine, LegalParams, Tightened, Confused, Tight, LegalName;
    if ReadLine(SessionLine(s)) == Entry(s) {
      EntriesAreLegal(SessionLine(s));
    }
    if LegalName(s.name) && LegalParams(s.params) {
      LineReads(s);
      TightenedLegal(s);
    }
  }
}
