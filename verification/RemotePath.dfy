/** Remote paths: normalising, joining and taking the parent, against walking a
    directory tree. */
module RemotePath {
  import opened Text

  // ----- segments

  /** The segments between slashes, empty ones skipped. */
  function Segments(path: string): seq<string> {
    NonEmpty(Split(path, '/'))
  }

  predicate Absolute(path: string) {
    path != "" && path[0] == '/'
  }

  /** One segment resolved against those before it. */
  function Push(absolute: bool, out: seq<string>, seg: string): seq<string> {
    if seg == "." then out
    else if seg == ".." then
      if out != [] && out[|out| - 1] != ".." then out[..|out| - 1]
      else if !absolute then out + [".."]
      else out
    else out + [seg]
  }

  function Resolve(absolute: bool, out: seq<string>, segs: seq<string>): seq<string>
    decreases |segs|
  {
    if segs == [] then out else Resolve(absolute, Push(absolute, out, segs[0]), segs[1..])
  }

  function Rendered(absolute: bool, out: seq<string>): string {
    var result := (if absolute then "/" else "") + Join(out, '/');
    if result == "" then "." else result
  }

  function Normal(path: string): string {
    if path == "" then "/"
    else Rendered(Absolute(path), Resolve(Absolute(path), [], Segments(path)))
  }

  function Joined(base: string, child: string): string {
    if Absolute(child) then Normal(child) else Normal(base + "/" + child)
  }

  // ----- the code

  method Normalize(path: string) returns (result: string)
    ensures result == Normal(path)
  {
    if path == "" {
      return "/";
    }
    var absolute := path[0] == '/';
    var raw := Segments(path);
    var out: seq<string> := [];
    for i := 0 to |raw|
      invariant Resolve(absolute, out, raw[i..]) == Resolve(absolute, [], raw)
    {
      var seg := raw[i];
      assert raw[i..][0] == seg && raw[i..][1..] == raw[i + 1..];
      if seg == "." {
        continue;
      }
      if seg == ".." {
        if out != [] && out[|out| - 1] != ".." {
          out := out[..|out| - 1];
        } else if !absolute {
          out := out + [".."];
        }
        continue;
      }
      out := out + [seg];
    }
    result := (if absolute then "/" else "") + Join(out, '/');
    if result == "" {
      result := if absolute then "/" else ".";
    }
  }

  method JoinPaths(base: string, child: string) returns (result: string)
    ensures result == Joined(base, child)
  {
    if Absolute(child) {
      result := Normalize(child);
    } else {
      result := Normalize(base + "/" + child);
    }
  }

  function LastIndexOf(s: string, c: char): (k: int)
    ensures -1 <= k < |s|
    ensures k >= 0 ==> s[k] == c
    ensures forall i | k < i < |s| :: s[i] != c
  {
    if s == "" then -1 else if s[|s| - 1] == c then |s| - 1 else LastIndexOf(s[..|s| - 1], c)
  }

  function ParentOf(path: string): string {
    var n := Normal(path);
    if n == "/" then n
    else
      var slash := LastIndexOf(n, '/');
      if slash <= 0 then "/" else n[..slash]
  }

  method Parent(path: string) returns (result: string)
    ensures result == ParentOf(path)
  {
    var n := Normalize(path);
    if n == "/" {
      return n;
    }
    var slash := LastIndexOf(n, '/');
    if slash <= 0 {
      return "/";
    }
    result := n[..slash];
  }

  // ----- walking a tree

  /** A place in the tree: the names from the root down. */
  type Place = seq<string>

  /** ".." at the root stays there. */
  function Step(at: Place, seg: string): Place {
    if seg == "." then at
    else if seg == ".." then if at == [] then [] else at[..|at| - 1]
    else at + [seg]
  }

  function WalkSegments(at: Place, segs: seq<string>): Place
    decreases |segs|
  {
    if segs == [] then at else WalkSegments(Step(at, segs[0]), segs[1..])
  }

  /** Where a path leads from a place. */
  function Walk(at: Place, path: string): Place {
    WalkSegments(if Absolute(path) then [] else at, Segments(path))
  }

  // ----- what resolved segment lists look like

  predicate Name(s: string) {
    s != "" && s != "." && s != ".." && Free(s, '/')
  }

  /** Some ".." (none when absolute), then names. */
  ghost predicate Canonical(absolute: bool, out: seq<string>) {
    exists ups :: Climb(absolute, out, ups)
  }

  ghost predicate Climb(absolute: bool, out: seq<string>, ups: nat) {
    ups <= |out| && (absolute ==> ups == 0) &&
    (forall i | 0 <= i < ups :: out[i] == "..") &&
    forall i | ups <= i < |out| :: Name(out[i])
  }

  ghost predicate AllSegments(segs: seq<string>) {
    forall i | 0 <= i < |segs| :: segs[i] != "" && Free(segs[i], '/')
  }

  lemma PushCanonical(absolute: bool, out: seq<string>, seg: string)
    requires Canonical(absolute, out) && seg != "" && Free(seg, '/')
    ensures Canonical(absolute, Push(absolute, out, seg))
  {
    var ups := LastSegment(absolute, out);
    var out' := Push(absolute, out, seg);
    if seg == ".." && !absolute && (out == [] || out[|out| - 1] == "..") {
      assert Climb(absolute, out', ups + 1);
    } else {
      assert Climb(absolute, out', ups);
    }
  }

  /** The last segment of a canonical list is ".." only when all of them are. */
  lemma LastSegment(absolute: bool, out: seq<string>) returns (ups: nat)
    requires Canonical(absolute, out)
    ensures Climb(absolute, out, ups)
    ensures out != [] ==> (out[|out| - 1] == ".." <==> ups == |out|) && (out[|out| - 1] == ".." || Name(out[|out| - 1]))
  {
    ups :| Climb(absolute, out, ups);
    if out != [] && ups < |out| {
      assert Name(out[|out| - 1]);
    }
  }

  lemma {:induction false} ResolveCanonical(absolute: bool, out: seq<string>, segs: seq<string>)
    requires Canonical(absolute, out) && AllSegments(segs)
    ensures Canonical(absolute, Resolve(absolute, out, segs))
    decreases |segs|
  {
    if segs != [] {
      PushCanonical(absolute, out, segs[0]);
      ResolveCanonical(absolute, Push(absolute, out, segs[0]), segs[1..]);
    }
  }

  lemma {:induction false} NonEmptyAre(parts: seq<string>)
    requires AllFree(parts, '/')
    ensures AllSegments(NonEmpty(parts))
  {
    if parts != [] {
      NonEmptyAre(parts[1..]);
    }
  }

  lemma SegmentsAre(path: string)
    ensures AllSegments(Segments(path))
  {
    SplitFree(path, '/');
    NonEmptyAre(Split(path, '/'));
  }

  lemma EmptyCanonical(absolute: bool)
    ensures Canonical(absolute, [])
  {
    assert Climb(absolute, [], 0);
  }

  lemma ResolvedCanonical(path: string)
    ensures Canonical(Absolute(path), Resolve(Absolute(path), [], Segments(path)))
  {
    SegmentsAre(path);
    EmptyCanonical(Absolute(path));
    ResolveCanonical(Absolute(path), [], Segments(path));
  }

  // ----- resolving composes

  lemma {:induction false} ResolveConcat(absolute: bool, out: seq<string>, a: seq<string>, b: seq<string>)
    ensures Resolve(absolute, out, a + b) == Resolve(absolute, Resolve(absolute, out, a), b)
    decreases |a|
  {
    if a == [] {
      assert a + b == b;
    } else {
      assert (a + b)[1..] == a[1..] + b;
      ResolveConcat(absolute, Push(absolute, out, a[0]), a[1..], b);
    }
  }

  /** A canonical list resolves to itself. */
  lemma {:induction false} ResolveFixed(absolute: bool, out: seq<string>, n: nat)
    requires Canonical(absolute, out) && n <= |out|
    ensures Resolve(absolute, [], out[..n]) == out[..n]
  {
    if n > 0 {
      ResolveFixed(absolute, out, n - 1);
      assert out[..n] == out[..n - 1] + [out[n - 1]];
      ResolveConcat(absolute, [], out[..n - 1], [out[n - 1]]);
      var ups: nat :| Climb(absolute, out, ups);
      assert Resolve(absolute, out[..n - 1], [out[n - 1]]) == Push(absolute, out[..n - 1], out[n - 1]);
    }
  }

  /** Resolving segments against a list is resolving their relative normal form
      against it. */
  lemma {:induction false} ResolveRelative(absolute: bool, out: seq<string>, segs: seq<string>)
    requires Canonical(absolute, out) && AllSegments(segs)
    ensures Resolve(absolute, out, Resolve(false, [], segs)) == Resolve(absolute, out, segs)
    decreases |segs|
  {
    if segs != [] {
      var n := |segs| - 1;
      var before, last := segs[..n], segs[n];
      assert segs == before + [last];
      ResolveRelative(absolute, out, before);
      ResolveConcat(absolute, out, before, [last]);
      ResolveConcat(false, [], before, [last]);
      EmptyCanonical(false);
      ResolveCanonical(false, [], before);
      ResolveCanonical(absolute, out, before);
      var rel := Resolve(false, [], before);
      ResolvePush(absolute, out, rel, last);
      assert Resolve(false, rel, [last]) == Push(false, rel, last);
      var done := Resolve(absolute, out, before);
      assert Resolve(absolute, done, [last]) == Push(absolute, done, last);
    }
  }

  lemma ResolvePush(absolute: bool, out: seq<string>, rel: seq<string>, seg: string)
    requires Canonical(absolute, out) && Canonical(false, rel) && seg != "" && Free(seg, '/')
    ensures Resolve(absolute, out, Push(false, rel, seg)) == Push(absolute, Resolve(absolute, out, rel), seg)
  {
    var done := Resolve(absolute, out, rel);
    if seg == "." {
    } else if seg == ".." && rel != [] && rel[|rel| - 1] != ".." {
      var n := |rel| - 1;
      assert rel == rel[..n] + [rel[n]];
      ResolveConcat(absolute, out, rel[..n], [rel[n]]);
      var before := Resolve(absolute, out, rel[..n]);
      var ups: nat :| Climb(false, rel, ups);
      assert Name(rel[n]);
      assert Resolve(absolute, before, [rel[n]]) == before + [rel[n]];
      assert done[..|done| - 1] == before;
    } else {
      ResolveConcat(absolute, out, rel, [seg]);
      assert Resolve(absolute, done, [seg]) == Push(absolute, done, seg);
      assert Push(false, rel, seg) == rel + [seg];
    }
  }

  // ----- rendering and reading back

  lemma SegmentsConcat(x: string, y: string)
    ensures Segments(x + "/" + y) == Segments(x) + Segments(y)
  {
    SplitConcat(x, y, '/');
    NonEmptyConcat(Split(x, '/'), Split(y, '/'));
  }

  lemma CanonicalSegments(absolute: bool, out: seq<string>)
    requires Canonical(absolute, out)
    ensures AllSegments(out) && AllFree(out, '/')
  {
    var ups: nat :| Climb(absolute, out, ups);
    forall i | 0 <= i < |out|
      ensures out[i] != "" && Free(out[i], '/')
    {
      if ups <= i {
        assert Name(out[i]);
      }
    }
  }

  /** The segments a rendered list is read back as. */
  function Reread(absolute: bool, out: seq<string>): seq<string> {
    if out == [] && !absolute then ["."] else out
  }

  lemma SegmentsOfRendered(absolute: bool, out: seq<string>)
    requires Canonical(absolute, out)
    ensures Segments(Rendered(absolute, out)) == Reread(absolute, out)
    ensures Absolute(Rendered(absolute, out)) == absolute
  {
    CanonicalSegments(absolute, out);
    NonEmptyFixed(out);
    var body := Join(out, '/');
    assert Segments("") == [] by {
      assert Split("", '/') == [""];
    }
    if out == [] {
      DotSegment();
    } else {
      SplitJoin(out, '/');
      JoinStarts(out);
    }
    if absolute {
      SegmentsConcat("", body);
      assert "/" + body == "" + "/" + body;
      assert [] + Segments(body) == Segments(body);
      assert Rendered(absolute, out) == "/" + body;
    } else {
      assert "" + body == body;
    }
  }

  lemma DotSegment()
    ensures Segments(".") == ["."]
  {
    assert Split(".", '/') == ["."];
    var dot := ["."];
    assert dot[1..] == [] && NonEmpty(dot) == [dot[0]] + NonEmpty(dot[1..]);
  }

  lemma JoinStarts(parts: seq<string>)
    requires parts != [] && AllSegments(parts)
    ensures Join(parts, '/') != "" && Join(parts, '/')[0] != '/'
  {
    assert parts[0] != "" && Free(parts[0], '/');
  }

  lemma ResolveReread(absolute: bool, out: seq<string>)
    requires Canonical(absolute, out)
    ensures Resolve(absolute, [], Reread(absolute, out)) == out
  {
    ResolveFixed(absolute, out, |out|);
    assert out[..|out|] == out;
    if out == [] && !absolute {
      assert Resolve(false, [], ["."]) == Resolve(false, Push(false, [], "."), []);
    }
  }

  // ----- what normalising keeps

  /** Normalising twice is normalising once. */
  lemma NormalIdempotent(path: string)
    ensures Normal(Normal(path)) == Normal(path)
  {
    hide Resolve, Segments, Rendered, Reread, Canonical;
    var absolute, out := Absolute(path), Resolve(Absolute(path), [], Segments(path));
    if path == "" {
      EmptyCanonical(true);
      RootIsRendered();
      SegmentsOfRendered(true, []);
      ResolveReread(true, []);
    } else {
      ResolvedCanonical(path);
      SegmentsOfRendered(absolute, out);
      ResolveReread(absolute, out);
      RenderedNonEmpty(absolute, out);
    }
  }

  lemma RootIsRendered()
    ensures Rendered(true, []) == "/"
  {
  }

  lemma RenderedNonEmpty(absolute: bool, out: seq<string>)
    ensures Rendered(absolute, out) != ""
  {
  }

  /** A normalised absolute path has no "." and no ".." left. */
  lemma AbsoluteHasNames(path: string)
    requires Absolute(path)
    ensures forall i | 0 <= i < |Segments(Normal(path))| :: Name(Segments(Normal(path))[i])
  {
    var out := Resolve(true, [], Segments(path));
    ResolvedCanonical(path);
    SegmentsOfRendered(true, out);
    var ups: nat :| Climb(true, out, ups);
  }

  lemma {:induction false} WalkConcat(at: Place, a: seq<string>, b: seq<string>)
    ensures WalkSegments(at, a + b) == WalkSegments(WalkSegments(at, a), b)
    decreases |a|
  {
    if a == [] {
      assert a + b == b;
    } else {
      assert (a + b)[1..] == a[1..] + b;
      WalkConcat(Step(at, a[0]), a[1..], b);
    }
  }

  lemma WalkOne(at: Place, out: seq<string>, seg: string)
    ensures WalkSegments(at, out + [seg]) == Step(WalkSegments(at, out), seg)
  {
    WalkConcat(at, out, [seg]);
    var place := WalkSegments(at, out);
    assert WalkSegments(place, [seg]) == WalkSegments(Step(place, seg), []);
  }

  lemma WalkPush(absolute: bool, at: Place, out: seq<string>, seg: string)
    requires Canonical(absolute, out) && (absolute ==> at == [])
    ensures WalkSegments(at, Push(absolute, out, seg)) == Step(WalkSegments(at, out), seg)
  {
    WalkOne(at, out, seg);
    var ups := LastSegment(absolute, out);
    if seg == ".." && out != [] && out[|out| - 1] != ".." {
      var n := |out| - 1;
      assert out == out[..n] + [out[n]];
      WalkOne(at, out[..n], out[n]);
    }
  }

  lemma {:induction false} WalkResolve(absolute: bool, at: Place, out: seq<string>, segs: seq<string>)
    requires Canonical(absolute, out) && AllSegments(segs) && (absolute ==> at == [])
    ensures WalkSegments(at, Resolve(absolute, out, segs)) == WalkSegments(WalkSegments(at, out), segs)
    decreases |segs|
  {
    hide Canonical, Push;
    if segs != [] {
      PushCanonical(absolute, out, segs[0]);
      WalkPush(absolute, at, out, segs[0]);
      WalkResolve(absolute, at, Push(absolute, out, segs[0]), segs[1..]);
    }
  }

  lemma WalkReread(absolute: bool, at: Place, out: seq<string>)
    ensures WalkSegments(at, Reread(absolute, out)) == WalkSegments(at, out)
  {
    if out == [] && !absolute {
      WalkOne(at, [], ".");
      assert [] + ["."] == ["."];
    }
  }

  lemma NormalWalks(path: string, at: Place)
    requires path != ""
    ensures Walk(at, Normal(path)) == Walk(at, path)
  {
    hide Resolve, Segments, Rendered, Reread, Canonical, WalkSegments;
    var absolute, segs := Absolute(path), Segments(path);
    var start := if absolute then [] else at;
    var out := Resolve(absolute, [], segs);
    ResolvedCanonical(path);
    SegmentsOfRendered(absolute, out);
    SegmentsAre(path);
    EmptyCanonical(absolute);
    WalkResolve(absolute, start, [], segs);
    WalkReread(absolute, start, out);
    WalkNothing(start);
  }

  lemma WalkNothing(at: Place)
    ensures WalkSegments(at, []) == at
  {
  }

  /** From every place, a path and its normal form lead to the same place: precisely
      when the path is not empty, the empty path being normalised to the root. */
  lemma NormalPreservesExactly(path: string)
    ensures (forall at: Place :: Walk(at, Normal(path)) == Walk(at, path)) <==> path != ""
  {
    if path != "" {
      forall at: Place
        ensures Walk(at, Normal(path)) == Walk(at, path)
      {
        NormalWalks(path, at);
      }
    } else {
      EmptyCanonical(true);
      SegmentsOfRendered(true, []);
      RootIsRendered();
      assert Split("", '/') == [""] && Segments("") == [];
      assert Walk(["a"], Normal(path)) != Walk(["a"], path);
    }
  }

  // ----- joining

  lemma NormalOfJoin(x: string, y: string)
    ensures var absolute := x == "" || Absolute(x);
            Normal(x + "/" + y) == Rendered(absolute, Resolve(absolute, [], Segments(x) + Segments(y)))
  {
    SegmentsConcat(x, y);
  }

  lemma SegmentsConcatAre(x: string, y: string)
    ensures AllSegments(Segments(x) + Segments(y))
  {
    SegmentsAre(x);
    SegmentsAre(y);
  }

  lemma JoinRelative(a: string, b: string, c: string)
    requires b != "" && !Absolute(b) && !Absolute(c)
    ensures Joined(Joined(a, b), c) == Joined(a, Joined(b, c))
  {
    hide Resolve, Segments, Rendered, Canonical, Normal, AllSegments;
    var absolute := a == "" || Absolute(a);
    var A, B, C := Segments(a), Segments(b), Segments(c);
    // the left grouping
    NormalOfJoin(a, b);
    var left := Resolve(absolute, [], A + B);
    JoinedCanonical(absolute, a, b);
    SegmentsOfRendered(absolute, left);
    RenderedNonEmpty(absolute, left);
    NormalOfJoin(Rendered(absolute, left), c);
    ResolveConcat(absolute, [], Reread(absolute, left), C);
    ResolveReread(absolute, left);
    ResolveConcat(absolute, [], A + B, C);
    // the right grouping
    NormalOfJoin(b, c);
    var right := Resolve(false, [], B + C);
    JoinedCanonical(false, b, c);
    SegmentsOfRendered(false, right);
    NormalOfJoin(a, Rendered(false, right));
    ResolveConcat(absolute, [], A, Reread(false, right));
    ResolveAgainst(absolute, Resolve(absolute, [], A), right);
    SegmentsAre(a);
    EmptyCanonical(absolute);
    ResolveCanonical(absolute, [], A);
    SegmentsConcatAre(b, c);
    ResolveRelative(absolute, Resolve(absolute, [], A), B + C);
    ResolveConcat(absolute, [], A, B + C);
    assert A + (B + C) == A + B + C;
  }

  /** An absolute middle part forgets the first one. */
  lemma JoinAbsolute(b: string, c: string)
    requires Absolute(b) && !Absolute(c)
    ensures Joined(Normal(b), c) == Normal(Joined(b, c))
  {
    hide Resolve, Segments, Rendered, Reread, Canonical;
    var B, C := Segments(b), Segments(c);
    var out := Resolve(true, [], B);
    ResolvedCanonical(b);
    SegmentsOfRendered(true, out);
    RenderedNonEmpty(true, out);
    NormalOfJoin(Normal(b), c);
    ResolveConcat(true, [], Reread(true, out), C);
    ResolveReread(true, out);
    ResolveConcat(true, [], B, C);
    NormalOfJoin(b, c);
    NormalIdempotent(b + "/" + c);
  }

  lemma NormalAbsolute(path: string)
    requires path != ""
    ensures Absolute(Normal(path)) == Absolute(path) && Normal(path) != ""
  {
    hide Resolve, Segments, Rendered, Canonical;
    ResolvedCanonical(path);
    RenderedNonEmpty(Absolute(path), Resolve(Absolute(path), [], Segments(path)));
    SegmentsOfRendered(Absolute(path), Resolve(Absolute(path), [], Segments(path)));
  }

  /** Joining is associative whenever the middle part is not empty. */
  lemma JoinAssociative(a: string, b: string, c: string)
    requires b != ""
    ensures Joined(Joined(a, b), c) == Joined(a, Joined(b, c))
  {
    hide Normal, Resolve, Segments, Rendered;
    if Absolute(c) {
      NormalAbsolute(c);
      NormalIdempotent(c);
    } else if Absolute(b) {
      NormalAbsolute(b);
      NormalAbsolute(b + "/" + c);
      JoinAbsolute(b, c);
    } else {
      JoinRelative(a, b, c);
    }
  }

  /** An empty middle part makes the last one absolute in one grouping only. */
  lemma EmptyMiddle()
    ensures !Absolute(Joined(Joined("a", ""), "c")) && Absolute(Joined("a", Joined("", "c")))
  {
    hide Normal;
    NormalAbsolute("a/");
    var left := Joined("a", "");
    assert "a" + "/" + "" == "a/";
    NormalAbsolute(left + "/" + "c");
    NormalAbsolute("/c");
    assert "" + "/" + "c" == "/c";
    NormalAbsolute(Joined("", "c"));
  }

  /** For exactly the non-empty middle parts joining is associative whatever the others. */
  lemma JoinAssociatesExactly(b: string)
    ensures (forall a, c :: Joined(Joined(a, b), c) == Joined(a, Joined(b, c))) <==> b != ""
  {
    hide Joined;
    if b != "" {
      forall a, c
        ensures Joined(Joined(a, b), c) == Joined(a, Joined(b, c))
      {
        JoinAssociative(a, b, c);
      }
    } else {
      EmptyMiddle();
      assert Joined(Joined("a", b), "c") != Joined("a", Joined(b, "c"));
    }
  }

  lemma JoinedCanonical(absolute: bool, x: string, y: string)
    ensures Canonical(absolute, Resolve(absolute, [], Segments(x) + Segments(y)))
  {
    SegmentsConcatAre(x, y);
    EmptyCanonical(absolute);
    ResolveCanonical(absolute, [], Segments(x) + Segments(y));
  }

  lemma ResolveAgainst(absolute: bool, out: seq<string>, rel: seq<string>)
    ensures Resolve(absolute, out, Reread(false, rel)) == Resolve(absolute, out, rel)
  {
    if rel == [] {
      assert Resolve(absolute, out, ["."]) == Resolve(absolute, Push(absolute, out, "."), []);
    }
  }

  // ----- the parent

  lemma {:induction false} LastIndexOfLast(a: string, c: char, b: string)
    requires Free(b, c)
    ensures LastIndexOf(a + [c] + b, c) == |a|
    decreases |b|
  {
    var s := a + [c] + b;
    if b != "" {
      assert s[..|s| - 1] == a + [c] + b[..|b| - 1];
      assert s[|s| - 1] == b[|b| - 1];
      LastIndexOfLast(a, c, b[..|b| - 1]);
    }
  }

  /** The paths whose parent is one step up: the absolute ones, and the relative ones
      whose normal form has a parent part and does not end in "..". */
  predicate GoesUp(path: string) {
    Absolute(path) ||
    var segs := Segments(Normal(path));
    |segs| >= 2 && segs[|segs| - 1] != ".."
  }

  lemma LastSlash(absolute: bool, up: seq<string>, name: string)
    requires AllSegments(up) && name != "" && Free(name, '/')
    ensures var n := Rendered(absolute, up + [name]);
            n != "/" &&
            if up == [] then LastIndexOf(n, '/') <= 0
            else LastIndexOf(n, '/') == |Rendered(absolute, up)| > 0
                 && n[..LastIndexOf(n, '/')] == Rendered(absolute, up)
  {
    hide Join, LastIndexOf;
    if up == [] {
      assert up + [name] == [name];
      JoinOne(name, '/');
      LastIndexOfLast("", '/', name);
      assert "" + ['/'] + name == "/" + name && "" + name == name;
    } else {
      JoinSnoc(up, name, '/');
      JoinStarts(up);
      var front := (if absolute then "/" else "") + Join(up, '/');
      assert (if absolute then "/" else "") + (Join(up, '/') + ['/'] + name) == front + ['/'] + name;
      LastIndexOfLast(front, '/', name);
    }
  }

  /** The parent of a normal form with at least one segment drops its last segment;
      nothing left of a relative one means the root. */
  lemma ParentDrops(path: string, up: seq<string>, name: string)
    requires path != "" && Resolve(Absolute(path), [], Segments(path)) == up + [name]
    ensures ParentOf(path) == if up == [] then "/" else Rendered(Absolute(path), up)
    ensures Canonical(Absolute(path), up) && Segments(Normal(path)) == up + [name]
  {
    hide Resolve, Segments, Rendered;
    var absolute := Absolute(path);
    var out := up + [name];
    ResolvedCanonical(path);
    CanonicalSegments(absolute, out);
    SegmentsOfRendered(absolute, out);
    assert forall i | 0 <= i < |up| :: up[i] == out[i];
    assert name == out[|up|];
    LastSlash(absolute, up, name);
    var ups: nat :| Climb(absolute, out, ups);
    assert Climb(absolute, up, if ups <= |up| then ups else |up|);
  }

  /** Where the parent of a path with a part to drop leads. */
  lemma WalkParent(path: string, at: Place, up: seq<string>, name: string)
    requires path != "" && Resolve(Absolute(path), [], Segments(path)) == up + [name]
    ensures var start := if Absolute(path) then [] else at;
            && Walk(at, path) == Step(WalkSegments(start, up), name)
            && Walk(at, ParentOf(path)) == if up == [] then [] else WalkSegments(start, up)
  {
    hide Resolve, Segments, Rendered, Canonical, ParentOf, WalkSegments;
    var absolute := Absolute(path);
    var start := if absolute then [] else at;
    ParentDrops(path, up, name);
    NormalWalks(path, at);
    NormalAbsolute(path);
    WalkOne(start, up, name);
    if up == [] {
      RootIsRendered();
      EmptyCanonical(true);
      SegmentsOfRendered(true, []);
      WalkNothing([]);
    } else {
      SegmentsOfRendered(absolute, up);
    }
  }

  /** The parent of "/" is "/", and so is the parent of ".". */
  lemma ParentOfNothing(path: string)
    requires path == "" || Resolve(Absolute(path), [], Segments(path)) == []
    ensures ParentOf(path) == "/" && forall at :: Walk(at, ParentOf(path)) == []
    ensures !Absolute(path) ==> !GoesUp(path)
  {
    RootIsRendered();
    EmptyCanonical(true);
    SegmentsOfRendered(true, []);
    EmptyCanonical(false);
    SegmentsOfRendered(false, []);
    DotSegment();
    assert LastIndexOf(".", '/') == -1;
    assert Segments("/") == [];
    assert Rendered(false, []) == ".";
  }

  /** The parent leads one step up wherever the path does. */
  lemma ParentIsUp(path: string, at: Place)
    requires GoesUp(path)
    ensures Walk(at, ParentOf(path)) == Step(Walk(at, path), "..")
  {
    hide Resolve, Segments, ParentOf, WalkSegments, Canonical, Normal;
    var out := Resolve(Absolute(path), [], Segments(path));
    if path == "" || out == [] {
      ParentOfNothing(path);
      NormalWalks(path, at);
      RootWalk(path, at);
    } else {
      var n := |out| - 1;
      var up, name := out[..n], out[n];
      assert out == up + [name];
      ResolvedCanonical(path);
      ParentDrops(path, up, name);
      WalkParent(path, at, up, name);
      WalkNothing(if Absolute(path) then [] else at);
      NamedLast(Absolute(path), out);
    }
  }

  lemma RootWalk(path: string, at: Place)
    requires Absolute(path) && Resolve(true, [], Segments(path)) == []
    ensures Walk(at, path) == []
  {
    RootIsRendered();
    NormalWalks(path, at);
    EmptyCanonical(true);
    SegmentsOfRendered(true, []);
  }

  /** The last segment of an absolute list is a name. */
  lemma NamedLast(absolute: bool, out: seq<string>)
    requires Canonical(absolute, out) && out != [] && (absolute || out[|out| - 1] != "..")
    ensures Name(out[|out| - 1])
  {
    var ups: nat :| Climb(absolute, out, ups);
  }

  lemma {:induction false} WalkUps(at: Place, ups: seq<string>)
    requires |ups| <= |at| && forall i | 0 <= i < |ups| :: ups[i] == ".."
    ensures WalkSegments(at, ups) == at[..|at| - |ups|]
    decreases |ups|
  {
    if ups == [] {
      assert at[..|at|] == at;
    } else {
      WalkUps(at[..|at| - 1], ups[1..]);
    }
  }

  /** A deep enough place, from which the parent of any other path does not lead up. */
  lemma ParentIsNotUp(path: string) returns (at: Place)
    requires !GoesUp(path)
    ensures Walk(at, ParentOf(path)) != Step(Walk(at, path), "..")
  {
    hide Resolve, Segments, ParentOf, Canonical, Normal;
    var out := Resolve(false, [], Segments(path));
    at := seq(|out| + 2, _ => "a");
    if path == "" || out == [] {
      ParentOfNothing(path);
      SmallWalk(path, at);
    } else {
      var n := |out| - 1;
      var up, name := out[..n], out[n];
      assert out == up + [name];
      ParentDrops(path, up, name);
      WalkParent(path, at, up, name);
      ResolvedCanonical(path);
      if up == [] {
        WalkNothing(at);
      } else {
        var ups := LastSegment(false, out);
        AllUps(out);
        WalkUps(at, up);
      }
    }
  }

  lemma SmallWalk(path: string, at: Place)
    requires path == "" || (!Absolute(path) && Resolve(false, [], Segments(path)) == [])
    ensures Walk(at, path) == at
  {
    hide Resolve, Rendered;
    if path == "" {
      assert Split("", '/') == [""] && Segments("") == [];
    } else {
      NormalWalks(path, at);
      EmptyCanonical(false);
      SegmentsOfRendered(false, []);
      assert WalkSegments(Step(at, "."), []) == at;
    }
  }

  /** A canonical list that ends in ".." is nothing but "..". */
  lemma AllUps(out: seq<string>)
    requires Canonical(false, out) && out != [] && out[|out| - 1] == ".."
    ensures forall i | 0 <= i < |out| :: out[i] == ".."
  {
    var ups: nat :| Climb(false, out, ups);
    assert ups == |out|;
  }

  /** The parent leads one step up from wherever one starts exactly for these paths. */
  lemma ParentIsUpExactly(path: string)
    ensures (forall at: Place :: Walk(at, ParentOf(path)) == Step(Walk(at, path), "..")) <==> GoesUp(path)
  {
    hide Walk, ParentOf, GoesUp, Step;
    if GoesUp(path) {
      forall at: Place
        ensures Walk(at, ParentOf(path)) == Step(Walk(at, path), "..")
      {
        ParentIsUp(path, at);
      }
    } else {
      var at := ParentIsNotUp(path);
    }
  }

  /** The parent of the current directory is the root, not the directory above. */
  lemma ParentOfHere()
    ensures ParentOf(".") == "/" && !GoesUp(".")
    ensures var home := ["home", "user"];
            Walk(home, ParentOf(".")) == [] && Step(Walk(home, "."), "..") == ["home"]
  {
    DotSegment();
    assert ["."][1..] == [];
    assert Resolve(false, [], ["."]) == Resolve(false, Push(false, [], "."), []) == [];
    ParentOfNothing(".");
    SmallWalk(".", ["home", "user"]);
  }
}
