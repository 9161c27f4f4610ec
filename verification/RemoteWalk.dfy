/** Remote paths by where they lead: the join goes on from the base, and the normal form is
    the same for exactly the paths that lead to the same places. */
module RemoteWalk {
  import opened Text
  import opened RemotePath

  // ----- joining

  /** The joined path leads where the child leads from where the base leads; an empty base is
      the root. */
  lemma JoinWalks(base: string, child: string, at: Place)
    ensures Walk(at, Joined(base, child)) == Walk(if base == "" then [] else Walk(at, base), child)
  {
    hide Normal, Segments, WalkSegments;
    if Absolute(child) {
      NormalWalks(child, at);
    } else {
      var whole := base + "/" + child;
      NormalWalks(whole, at);
      SegmentsConcat(base, child);
      WalkConcat(if base == "" || Absolute(base) then [] else at, Segments(base), Segments(child));
      if base == "" {
        NoSegments();
        WalkNothing([]);
      }
    }
  }

  lemma NoSegments()
    ensures Segments("") == []
  {
    assert Split("", '/') == [""];
  }

  // ----- canonical lists by where they lead

  lemma {:induction false} WalkNames(at: Place, names: seq<string>)
    requires forall i | 0 <= i < |names| :: Name(names[i])
    ensures WalkSegments(at, names) == at + names
    decreases |names|
  {
    if names == [] {
      assert at + names == at;
    } else {
      WalkNames(at + [names[0]], names[1..]);
      assert at + [names[0]] + names[1..] == at + names;
    }
  }

  /** From a place deep enough: so many up, then the names. */
  lemma WalkClimb(absolute: bool, at: Place, out: seq<string>, ups: nat)
    requires Climb(absolute, out, ups) && ups <= |at|
    ensures WalkSegments(at, out) == at[..|at| - ups] + out[ups..]
  {
    hide WalkSegments, Name;
    assert out == out[..ups] + out[ups..];
    WalkConcat(at, out[..ups], out[ups..]);
    WalkUps(at, out[..ups]);
    WalkNames(at[..|at| - ups], out[ups..]);
  }

  /** What a path resolves to, and how it is walked and written. */
  lemma Resolved(path: string, at: Place) returns (out: seq<string>, ups: nat)
    requires path != ""
    ensures Climb(Absolute(path), out, ups) && Normal(path) == Rendered(Absolute(path), out)
    ensures Walk(at, path) == WalkSegments(if Absolute(path) then [] else at, out)
    ensures out == Resolve(Absolute(path), [], Segments(path))
  {
    hide Resolve, Segments, Rendered, Reread, WalkSegments, Climb;
    var absolute := Absolute(path);
    out := Resolve(absolute, [], Segments(path));
    ResolvedCanonical(path);
    ups :| Climb(absolute, out, ups);
    NormalWalks(path, at);
    SegmentsOfRendered(absolute, out);
    WalkReread(absolute, if absolute then [] else at, out);
  }

  // ----- the normal form decides

  /** A name longer than all of some names. */
  function Longer(names: seq<string>): (x: string)
    ensures forall i | 0 <= i < |names| :: |names[i]| < |x|
  {
    if names == [] then "a"
    else
      var x := Longer(names[..|names| - 1]);
      var last := names[|names| - 1];
      assert forall i | 0 <= i < |names| - 1 :: names[i] == names[..|names| - 1][i];
      if |last| < |x| then x else last + "a"
  }

  lemma SameTail(h: seq<string>, s: seq<string>, t: seq<string>)
    requires h + s == h + t
    ensures s == t
  {
    assert (h + s)[|h|..] == s && (h + t)[|h|..] == t;
  }

  lemma SameClimb(absolute: bool, a: seq<string>, b: seq<string>, ups: nat)
    requires Climb(absolute, a, ups) && Climb(absolute, b, ups) && a[ups..] == b[ups..]
    ensures a == b
  {
    hide Name;
    assert a[..ups] == b[..ups];
    assert a == a[..ups] + a[ups..] && b == b[..ups] + b[ups..];
  }

  /** From a deep place of a name neither list has, different lists lead to different places. */
  lemma Apart(at: Place, x: string, a: seq<string>, b: seq<string>, m: nat, n: nat)
    requires Climb(false, a, m) && Climb(false, b, n) && m < n < |at|
    requires x !in a && x !in b && forall i | 0 <= i < |at| :: at[i] == x
    ensures at[..|at| - m] + a[m..] != at[..|at| - n] + b[n..]
  {
    var left, right := at[..|at| - m] + a[m..], at[..|at| - n] + b[n..];
    var k := |at| - n;
    assert left[k] == x;
    if |right| > k {
      assert right[k] == b[n];
    }
  }

  lemma ApartAbsolute(at: Place, x: string, a: seq<string>, b: seq<string>, n: nat)
    requires Climb(false, b, n) && n < |at|
    requires x !in a && forall i | 0 <= i < |at| :: at[i] == x
    ensures a != at[..|at| - n] + b[n..]
  {
    assert (at[..|at| - n] + b[n..])[0] == x;
  }

  /** Two paths that lead to the same place from a deep place of a fresh name have the same
      normal form. */
  lemma SamePlace(p: string, q: string) returns (at: Place)
    requires p != "" && q != ""
    ensures Walk(at, p) == Walk(at, q) ==> Normal(p) == Normal(q)
  {
    hide Resolve, Segments, Rendered, WalkSegments, Walk, Normal, Name;
    var a0, m0 := Resolved(p, []);
    var b0, n0 := Resolved(q, []);
    var x := Longer(a0 + b0);
    at := seq(m0 + n0 + 1, _ => x);
    var a, m := Resolved(p, at);
    var b, n := Resolved(q, at);
    FreshName(a0, b0, x);
    m, n := m0, n0;
    WalkClimb(Absolute(p), if Absolute(p) then [] else at, a, m);
    WalkClimb(Absolute(q), if Absolute(q) then [] else at, b, n);
    if Walk(at, p) == Walk(at, q) {
      if Absolute(p) != Absolute(q) {
        if Absolute(p) {
          ApartAbsolute(at, x, a, b, n);
        } else {
          ApartAbsolute(at, x, b, a, m);
        }
      } else if Absolute(p) {
        SameTail([], a[m..], b[n..]);
        SameClimb(true, a, b, 0);
      } else if m == n {
        SameTail(at[..|at| - m], a[m..], b[m..]);
        SameClimb(false, a, b, m);
      } else if m < n {
        Apart(at, x, a, b, m, n);
      } else {
        Apart(at, x, b, a, n, m);
      }
    }
  }

  lemma FreshName(a: seq<string>, b: seq<string>, x: string)
    requires forall i | 0 <= i < |a + b| :: |(a + b)[i]| < |x|
    ensures x !in a && x !in b
  {
    assert forall i | 0 <= i < |a| :: (a + b)[i] == a[i];
    assert forall i | 0 <= i < |b| :: (a + b)[|a| + i] == b[i];
  }

  /** Two non-empty paths have the same normal form exactly when they lead to the same place
      from everywhere. */
  lemma NormalDecides(p: string, q: string)
    requires p != "" && q != ""
    ensures Normal(p) == Normal(q) <==> forall at: Place :: Walk(at, p) == Walk(at, q)
  {
    hide Walk, Normal;
    if Normal(p) == Normal(q) {
      forall at: Place
        ensures Walk(at, p) == Walk(at, q)
      {
        NormalWalks(p, at);
        NormalWalks(q, at);
      }
    } else {
      var at := SamePlace(p, q);
    }
  }
}
