/** The line diff: a longest-common-subsequence table, then a greedy walk. */
module TextDiff {
  import opened Basics
  import opened Text

  datatype Kind = Equal | Added | Removed

  datatype DiffLine = DiffLine(kind: Kind, text: string)

  // ----- what the table and the walk compute

  /** Table entry (i, j): over the lines from i and j on. */
  function Lcs(A: seq<string>, B: seq<string>, i: nat, j: nat): (r: nat)
    requires i <= |A| && j <= |B|
    decreases |A| - i + |B| - j
  {
    if i == |A| || j == |B| then 0
    else if A[i] == B[j] then Lcs(A, B, i + 1, j + 1) + 1
    else Max(Lcs(A, B, i + 1, j), Lcs(A, B, i, j + 1))
  }

  /** The walk from (i, j) on. */
  function Walk(A: seq<string>, B: seq<string>, i: nat, j: nat): seq<DiffLine>
    requires i <= |A| && j <= |B|
    decreases |A| - i + |B| - j
  {
    if i == |A| && j == |B| then []
    else if j == |B| then [DiffLine(Removed, A[i])] + Walk(A, B, i + 1, j)
    else if i == |A| then [DiffLine(Added, B[j])] + Walk(A, B, i, j + 1)
    else if A[i] == B[j] then [DiffLine(Equal, A[i])] + Walk(A, B, i + 1, j + 1)
    else if Lcs(A, B, i + 1, j) >= Lcs(A, B, i, j + 1) then [DiffLine(Removed, A[i])] + Walk(A, B, i + 1, j)
    else [DiffLine(Added, B[j])] + Walk(A, B, i, j + 1)
  }

  function DiffOf(a: string, b: string): seq<DiffLine> {
    Walk(Split(a, '\n'), Split(b, '\n'), 0, 0)
  }

  // ----- scripts

  /** The texts of the lines of a script that are not of kind `drop`. */
  function Without(d: seq<DiffLine>, drop: Kind): seq<string> {
    if d == [] then []
    else if d[0].kind == drop then Without(d[1..], drop)
    else [d[0].text] + Without(d[1..], drop)
  }

  /** The line lists a script turns into each other. */
  ghost predicate Edits(d: seq<DiffLine>, A: seq<string>, B: seq<string>) {
    Without(d, Added) == A && Without(d, Removed) == B
  }

  function Count(d: seq<DiffLine>, k: Kind): nat {
    if d == [] then 0 else (if d[0].kind == k then 1 else 0) + Count(d[1..], k)
  }

  function EqualLines(d: seq<DiffLine>): seq<string> {
    if d == [] then []
    else if d[0].kind == Equal then [d[0].text] + EqualLines(d[1..])
    else EqualLines(d[1..])
  }

  /** `c` can be had from `s` by leaving lines out. */
  ghost predicate Subsequence(c: seq<string>, s: seq<string>)
    decreases |s|
  {
    c == [] || (s != [] && ((c[0] == s[0] && Subsequence(c[1..], s[1..])) || Subsequence(c, s[1..])))
  }

  // ----- the code

  lemma LcsBorder(A: seq<string>, B: seq<string>)
    ensures forall i | 0 <= i <= |A| :: Lcs(A, B, i, |B|) == 0
    ensures forall j | 0 <= j <= |B| :: Lcs(A, B, |A|, j) == 0
  {
  }

  lemma LcsEntry(A: seq<string>, B: seq<string>, i: nat, j: nat)
    requires i < |A| && j < |B|
    ensures Lcs(A, B, i, j) ==
            if A[i] == B[j] then Lcs(A, B, i + 1, j + 1) + 1 else Max(Lcs(A, B, i + 1, j), Lcs(A, B, i, j + 1))
  {
  }

  /** One line of the walk, moved to the end of the output. */
  lemma WalkStep(A: seq<string>, B: seq<string>, i: nat, j: nat, out: seq<DiffLine>)
    requires i <= |A| && j <= |B| && (i < |A| || j < |B|)
    ensures var walk := out + Walk(A, B, i, j);
            if j == |B| then walk == out + [DiffLine(Removed, A[i])] + Walk(A, B, i + 1, j)
            else if i == |A| then walk == out + [DiffLine(Added, B[j])] + Walk(A, B, i, j + 1)
            else if A[i] == B[j] then walk == out + [DiffLine(Equal, A[i])] + Walk(A, B, i + 1, j + 1)
            else if Lcs(A, B, i + 1, j) >= Lcs(A, B, i, j + 1)
            then walk == out + [DiffLine(Removed, A[i])] + Walk(A, B, i + 1, j)
            else walk == out + [DiffLine(Added, B[j])] + Walk(A, B, i, j + 1)
  {
    hide Lcs;
    var walk := Walk(A, B, i, j);
    assert walk != [] && walk == [walk[0]] + walk[1..];
    assert out + ([walk[0]] + walk[1..]) == (out + [walk[0]]) + walk[1..];
  }

  ghost predicate TableHolds(lcs: array2<nat>, A: seq<string>, B: seq<string>)
    reads lcs
    requires lcs.Length0 == |A| + 1 && lcs.Length1 == |B| + 1
  {
    forall i, j | 0 <= i <= |A| && 0 <= j <= |B| :: lcs[i, j] == Lcs(A, B, i, j)
  }

  /** Fills the table from its far corner. */
  method FillTable(A: seq<string>, B: seq<string>) returns (lcs: array2<nat>)
    ensures lcs.Length0 == |A| + 1 && lcs.Length1 == |B| + 1
    ensures TableHolds(lcs, A, B)
  {
    hide Lcs;
    var n, m := |A|, |B|;
    LcsBorder(A, B);
    lcs := new nat[n + 1, m + 1]((i, j) => 0);
    for i := n downto 0
      invariant forall x, y | i <= x <= n && 0 <= y <= m :: lcs[x, y] == Lcs(A, B, x, y)
      invariant forall x | 0 <= x <= n :: lcs[x, m] == 0
    {
      for j := m downto 0
        invariant forall x, y | i < x <= n && 0 <= y <= m :: lcs[x, y] == Lcs(A, B, x, y)
        invariant forall y | j <= y <= m :: lcs[i, y] == Lcs(A, B, i, y)
        invariant forall x | 0 <= x <= n :: lcs[x, m] == 0
      {
        LcsEntry(A, B, i, j);
        lcs[i, j] := if A[i] == B[j] then lcs[i + 1, j + 1] + 1 else Max(lcs[i + 1, j], lcs[i, j + 1]);
      }
    }
  }

  method Diff(a: string, b: string) returns (out: seq<DiffLine>)
    ensures out == DiffOf(a, b)
  {
    hide Lcs, Walk;
    var A, B := Split(a, '\n'), Split(b, '\n');
    var n, m := |A|, |B|;
    var lcs := FillTable(A, B);
    out := [];
    var i, j := 0, 0;
    while i < n && j < m
      invariant 0 <= i <= n && 0 <= j <= m && TableHolds(lcs, A, B)
      invariant out + Walk(A, B, i, j) == Walk(A, B, 0, 0)
      decreases n - i + m - j
    {
      WalkStep(A, B, i, j, out);
      if A[i] == B[j] {
        out := out + [DiffLine(Equal, A[i])];
        i, j := i + 1, j + 1;
      } else if lcs[i + 1, j] >= lcs[i, j + 1] {
        out := out + [DiffLine(Removed, A[i])];
        i := i + 1;
      } else {
        out := out + [DiffLine(Added, B[j])];
        j := j + 1;
      }
    }
    while i < n
      invariant i <= n && j <= m && (i == n || j == m)
      invariant out + Walk(A, B, i, j) == Walk(A, B, 0, 0)
    {
      WalkStep(A, B, i, j, out);
      out := out + [DiffLine(Removed, A[i])];
      i := i + 1;
    }
    while j < m
      invariant i == n && j <= m
      invariant out + Walk(A, B, i, j) == Walk(A, B, 0, 0)
    {
      WalkStep(A, B, i, j, out);
      out := out + [DiffLine(Added, B[j])];
      j := j + 1;
    }
    WalkEnd(A, B, out);
  }

  lemma WalkEnd(A: seq<string>, B: seq<string>, out: seq<DiffLine>)
    ensures out + Walk(A, B, |A|, |B|) == out
  {
  }

  method Counts(d: seq<DiffLine>) returns (added: nat, removed: nat)
    ensures added == Count(d, Added) && removed == Count(d, Removed)
  {
    added, removed := 0, 0;
    for k := 0 to |d|
      invariant added + Count(d[k..], Added) == Count(d, Added)
      invariant removed + Count(d[k..], Removed) == Count(d, Removed)
    {
      assert d[k..][1..] == d[k + 1..];
      if d[k].kind == Added {
        added := added + 1;
      } else if d[k].kind == Removed {
        removed := removed + 1;
      }
    }
  }

  // ----- a script of the walk spells both texts

  lemma {:induction false} WalkEdits(A: seq<string>, B: seq<string>, i: nat, j: nat)
    requires i <= |A| && j <= |B|
    ensures Edits(Walk(A, B, i, j), A[i..], B[j..])
    decreases |A| - i + |B| - j
  {
    hide Lcs;
    var d := Walk(A, B, i, j);
    assert i < |A| ==> A[i..] == [A[i]] + A[i + 1..];
    assert j < |B| ==> B[j..] == [B[j]] + B[j + 1..];
    if d != [] {
      var i' := if d[0].kind == Added then i else i + 1;
      var j' := if d[0].kind == Removed then j else j + 1;
      assert d[1..] == Walk(A, B, i', j');
      WalkEdits(A, B, i', j');
    }
  }

  /** The walk keeps as many lines as the table promises. */
  lemma {:induction false} WalkKeeps(A: seq<string>, B: seq<string>, i: nat, j: nat)
    requires i <= |A| && j <= |B|
    ensures Count(Walk(A, B, i, j), Equal) == Lcs(A, B, i, j)
    decreases |A| - i + |B| - j
  {
    var d := Walk(A, B, i, j);
    if d != [] {
      var i' := if d[0].kind == Added then i else i + 1;
      var j' := if d[0].kind == Removed then j else j + 1;
      assert d[1..] == Walk(A, B, i', j');
      WalkKeeps(A, B, i', j');
    }
  }

  /** The Equal and Removed lines spell the first text, the Equal and Added lines
      the second. */
  lemma DiffSpells(a: string, b: string)
    ensures Join(Without(DiffOf(a, b), Added), '\n') == a
    ensures Join(Without(DiffOf(a, b), Removed), '\n') == b
  {
    var A, B := Split(a, '\n'), Split(b, '\n');
    WalkEdits(A, B, 0, 0);
    assert A[0..] == A && B[0..] == B;
    JoinSplit(a, '\n');
    JoinSplit(b, '\n');
  }

  // ----- the table holds the longest common subsequences

  /** Dropping a line from either side costs at most one. */
  lemma {:induction false} LcsNeighbours(A: seq<string>, B: seq<string>, i: nat, j: nat)
    requires i <= |A| && j <= |B|
    ensures i < |A| ==> Lcs(A, B, i + 1, j) <= Lcs(A, B, i, j) <= Lcs(A, B, i + 1, j) + 1
    ensures j < |B| ==> Lcs(A, B, i, j + 1) <= Lcs(A, B, i, j) <= Lcs(A, B, i, j + 1) + 1
    decreases |A| - i + |B| - j
  {
    if i < |A| {
      LcsNeighbours(A, B, i + 1, j);
    }
    if j < |B| {
      LcsNeighbours(A, B, i, j + 1);
    }
    if i < |A| && j < |B| {
      LcsNeighbours(A, B, i + 1, j + 1);
    }
  }

  /** No common subsequence is longer than the table says. */
  lemma {:induction false} LcsBounds(A: seq<string>, B: seq<string>, i: nat, j: nat, c: seq<string>)
    requires i <= |A| && j <= |B|
    requires Subsequence(c, A[i..]) && Subsequence(c, B[j..])
    ensures |c| <= Lcs(A, B, i, j)
    decreases |A| - i + |B| - j
  {
    if c != [] {
      assert A[i..][1..] == A[i + 1..] && B[j..][1..] == B[j + 1..];
      LcsNeighbours(A, B, i, j);
      if !(c[0] == A[i] && Subsequence(c[1..], A[i + 1..])) {
        LcsBounds(A, B, i + 1, j, c);
      } else if !(c[0] == B[j] && Subsequence(c[1..], B[j + 1..])) {
        LcsBounds(A, B, i, j + 1, c);
      } else {
        LcsBounds(A, B, i + 1, j + 1, c[1..]);
      }
    }
  }

  /** The Equal lines of any script are a common subsequence of what it edits. */
  lemma {:induction false} EqualLinesCommon(d: seq<DiffLine>)
    ensures Subsequence(EqualLines(d), Without(d, Added)) && Subsequence(EqualLines(d), Without(d, Removed))
    ensures |EqualLines(d)| == Count(d, Equal)
    ensures |Without(d, Added)| == Count(d, Equal) + Count(d, Removed)
    ensures |Without(d, Removed)| == Count(d, Equal) + Count(d, Added)
  {
    if d != [] {
      EqualLinesCommon(d[1..]);
      var A, B := Without(d, Added), Without(d, Removed);
      match d[0].kind
      case Equal => assert A[1..] == Without(d[1..], Added) && B[1..] == Without(d[1..], Removed) &&
          EqualLines(d)[1..] == EqualLines(d[1..]);
      case Added => assert B[1..] == Without(d[1..], Removed);
      case Removed => assert A[1..] == Without(d[1..], Added);
    }
  }

  /** The diff keeps the most lines any common subsequence has, and changes the
      fewest any edit script does. */
  lemma DiffOptimal(a: string, b: string)
    ensures var A, B, d := Split(a, '\n'), Split(b, '\n'), DiffOf(a, b);
            (forall c | Subsequence(c, A) && Subsequence(c, B) :: |c| <= Count(d, Equal)) &&
            (exists c :: Subsequence(c, A) && Subsequence(c, B) && |c| == Count(d, Equal)) &&
            (forall e | Edits(e, A, B) :: Count(d, Added) + Count(d, Removed) <= Count(e, Added) + Count(e, Removed))
  {
    var A, B, d := Split(a, '\n'), Split(b, '\n'), DiffOf(a, b);
    WalkEdits(A, B, 0, 0);
    WalkKeeps(A, B, 0, 0);
    assert A[0..] == A && B[0..] == B;
    forall c | Subsequence(c, A) && Subsequence(c, B)
      ensures |c| <= Count(d, Equal)
    {
      LcsBounds(A, B, 0, 0, c);
    }
    EqualLinesCommon(d);
    assert Subsequence(EqualLines(d), A) && Subsequence(EqualLines(d), B);
    forall e | Edits(e, A, B)
      ensures Count(d, Added) + Count(d, Removed) <= Count(e, Added) + Count(e, Removed)
    {
      EqualLinesCommon(e);
      LcsBounds(A, B, 0, 0, EqualLines(e));
    }
  }

  // ----- output order

  /** At every change point the removals come first. */
  ghost predicate RemovalsFirst(d: seq<DiffLine>) {
    forall k | 0 < k < |d| :: !(d[k - 1].kind == Added && d[k].kind == Removed)
  }

  lemma {:induction false} WalkOrder(A: seq<string>, B: seq<string>, i: nat, j: nat)
    requires i <= |A| && j <= |B|
    ensures RemovalsFirst(Walk(A, B, i, j))
    decreases |A| - i + |B| - j
  {
    var d := Walk(A, B, i, j);
    if d != [] {
      if d[0].kind == Equal {
        WalkOrder(A, B, i + 1, j + 1);
      } else if d[0].kind == Removed {
        WalkOrder(A, B, i + 1, j);
      } else {
        WalkOrder(A, B, i, j + 1);
        NoRemovalAfterAddition(A, B, i, j);
      }
    }
  }

  /** A line is added at (i, j) only when keeping A[i] for later is strictly better;
      removing it right after would throw that away. */
  lemma NoRemovalAfterAddition(A: seq<string>, B: seq<string>, i: nat, j: nat)
    requires i <= |A| && j < |B|
    requires Walk(A, B, i, j)[0].kind == Added
    ensures Walk(A, B, i, j + 1) == [] || Walk(A, B, i, j + 1)[0].kind != Removed
  {
    if i < |A| {
      LcsNeighbours(A, B, i + 1, j);
    }
  }

  lemma DiffOrder(a: string, b: string)
    ensures RemovalsFirst(DiffOf(a, b))
  {
    WalkOrder(Split(a, '\n'), Split(b, '\n'), 0, 0);
  }

  // ----- which of the best scripts it is

  function Rank(k: Kind): nat {
    match k
    case Equal => 0
    case Removed => 1
    case Added => 2
  }

  /** The same script, or at the first line where they differ the other keeps less readily:
      keeping comes before removing, removing before adding. */
  ghost predicate Precedes(d: seq<DiffLine>, e: seq<DiffLine>) {
    d == e ||
    (d != [] && e != [] &&
     if d[0] == e[0] then Precedes(d[1..], e[1..]) else Rank(d[0].kind) < Rank(e[0].kind))
  }

  lemma NothingEdited(e: seq<DiffLine>)
    requires Edits(e, [], [])
    ensures e == []
  {
  }

  lemma SomethingEdited(e: seq<DiffLine>, A: seq<string>, B: seq<string>)
    requires Edits(e, A, B) && (A != [] || B != [])
    ensures e != []
  {
  }

  /** What the first line of a script says about the texts, and what is left to edit. */
  lemma EditsHead(e: seq<DiffLine>, A: seq<string>, B: seq<string>)
    requires e != [] && Edits(e, A, B)
    ensures e[0].kind != Added ==> A != [] && A[0] == e[0].text
    ensures e[0].kind != Removed ==> B != [] && B[0] == e[0].text
    ensures Edits(e[1..], if e[0].kind == Added then A else A[1..], if e[0].kind == Removed then B else B[1..])
  {
  }

  /** No script keeps more lines than the table says. */
  lemma EditsKeep(e: seq<DiffLine>, A: seq<string>, B: seq<string>, i: nat, j: nat)
    requires i <= |A| && j <= |B| && Edits(e, A[i..], B[j..])
    ensures Count(e, Equal) <= Lcs(A, B, i, j)
  {
    EqualLinesCommon(e);
    LcsBounds(A, B, i, j, EqualLines(e));
  }

  lemma {:induction false} WalkFirst(A: seq<string>, B: seq<string>, i: nat, j: nat, e: seq<DiffLine>)
    requires i <= |A| && j <= |B| && Edits(e, A[i..], B[j..]) && Count(e, Equal) == Lcs(A, B, i, j)
    ensures Precedes(Walk(A, B, i, j), e)
    decreases |A| - i + |B| - j
  {
    hide Edits;
    var d := Walk(A, B, i, j);
    if i == |A| && j == |B| {
      assert A[i..] == [] && B[j..] == [];
      NothingEdited(e);
    } else {
      SomethingEdited(e, A[i..], B[j..]);
      EditsHead(e, A[i..], B[j..]);
      assert i < |A| ==> A[i..][0] == A[i] && A[i..][1..] == A[i + 1..];
      assert j < |B| ==> B[j..][0] == B[j] && B[j..][1..] == B[j + 1..];
      var i' := if e[0].kind == Added then i else i + 1;
      var j' := if e[0].kind == Removed then j else j + 1;
      EditsKeep(e[1..], A, B, i', j');
      if e[0].kind == d[0].kind {
        assert d[1..] == Walk(A, B, i', j');
        WalkFirst(A, B, i', j', e[1..]);
      }
    }
  }

  /** Of all scripts that keep as many lines, the diff is the first. */
  lemma DiffFirst(a: string, b: string, e: seq<DiffLine>)
    requires Edits(e, Split(a, '\n'), Split(b, '\n')) && Count(e, Equal) == Count(DiffOf(a, b), Equal)
    ensures Precedes(DiffOf(a, b), e)
  {
    var A, B := Split(a, '\n'), Split(b, '\n');
    WalkKeeps(A, B, 0, 0);
    assert A[0..] == A && B[0..] == B;
    WalkFirst(A, B, 0, 0, e);
  }
}
