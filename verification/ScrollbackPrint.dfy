/** What the history keeps of printed text: the rows of the lines that scroll off, and the
    lines that come back out of them. */
module ScrollbackPrint {
  import opened Basics
  import opened Scrollback

  // ----- printing

  predicate Visible(l: Line) {
    forall i | 0 <= i < |l| :: l[i].ch != 0 && l[i].ch != 0x20
  }

  /** What an untouched cell of the screen holds. */
  predicate Padding(c: Cell) {
    c.ch == 0 || c.ch == 0x20
  }

  ghost predicate AllVisible(ls: seq<Line>) {
    forall i | 0 <= i < |ls| :: Visible(ls[i])
  }

  /** The rows of a screen w wide that a line fills, the last one padded. */
  function Rows(l: Line, w: nat, pad: Cell): (r: seq<Line>)
    requires w > 0
    ensures forall i | 0 <= i < |r| :: |r[i]| == w
    decreases |l|
  {
    if |l| < w then [l + seq(w - |l|, _ => pad)]
    else if |l| == w then [l]
    else [l[..w]] + Rows(l[w..], w, pad)
  }

  function AllRows(ls: seq<Line>, w: nat, pad: Cell): seq<Line>
    requires w > 0
  {
    if ls == [] then [] else Rows(ls[0], w, pad) + AllRows(ls[1..], w, pad)
  }

  /** The rows scroll off one by one. */
  function PushAll(s: State, rows: seq<Line>): (r: State)
    requires |s.lines| == |s.wrapped|
    ensures |r.lines| == |r.wrapped|
    decreases |rows|
  {
    if rows == [] then s else PushAll(Pushed(s, rows[0]), rows[1..])
  }

  /** The line ends in the last column, so nothing on the screen shows where it ends. */
  predicate FillsRows(l: Line, w: nat)
    requires w > 0
  {
    l != [] && |l| % w == 0
  }

  /** No line is open at the end of the history. */
  predicate Ended(s: State) {
    s.wrapped == [] || !s.wrapped[|s.wrapped| - 1]
  }

  // ----- rows as they are recorded

  /** A row continues on the next when its last column shows something. */
  function Flagged(rows: seq<Line>): (r: seq<bool>)
    ensures |r| == |rows|
  {
    seq(|rows|, i requires 0 <= i < |rows| => rows[i] != [] && Visible([rows[i][|rows[i]| - 1]]))
  }

  lemma PushedRow(s: State, row: Line, rest: seq<Line>)
    requires |s.lines| == |s.wrapped| && |s.lines| < s.max
    ensures var soft := Flagged([row] + rest)[0];
            Pushed(s, row) == State(s.lines + [row], s.wrapped + [soft], s.max)
            && Flagged([row] + rest) == [soft] + Flagged(rest)
  {
    if row != [] {
      assert [row[|row| - 1]][0] == row[|row| - 1];
    }
  }

  lemma {:induction false} PushedRows(s: State, rows: seq<Line>)
    requires |s.lines| == |s.wrapped| && |s.lines| + |rows| <= s.max
    ensures PushAll(s, rows) == State(s.lines + rows, s.wrapped + Flagged(rows), s.max)
    decreases |rows|
  {
    hide Pushed, Flagged;
    if rows == [] {
      assert s.lines + rows == s.lines && s.wrapped + Flagged(rows) == s.wrapped;
    } else {
      var row, rest := rows[0], rows[1..];
      assert rows == [row] + rest;
      PushedRow(s, row, rest);
      PushedRows(Pushed(s, row), rest);
      Regroup(s.lines, [row], rest);
      Regroup(s.wrapped, [Flagged(rows)[0]], Flagged(rest));
    }
  }

  /** What follows a closed history starts a logical line of its own. */
  lemma {:induction false} LogicalConcat(lines: seq<Line>, wrapped: seq<bool>, more: seq<Line>, flags: seq<bool>,
                                         cur: Line)
    requires |lines| == |wrapped| && |more| == |flags|
    requires if lines == [] then cur == [] else !wrapped[|wrapped| - 1]
    ensures Logical(lines + more, wrapped + flags, cur) == Logical(lines, wrapped, cur) + Logical(more, flags, [])
    decreases |lines|
  {
    hide TrimEnd;
    if lines == [] {
      assert lines + more == more && wrapped + flags == flags;
    } else {
      assert (lines + more)[1..] == lines[1..] + more && (wrapped + flags)[1..] == wrapped[1..] + flags;
      if wrapped[0] {
        LogicalConcat(lines[1..], wrapped[1..], more, flags, cur + lines[0]);
      } else {
        LogicalConcat(lines[1..], wrapped[1..], more, flags, []);
        Regroup([cur + TrimEnd(lines[0])], Logical(lines[1..], wrapped[1..], []), Logical(more, flags, []));
      }
    }
  }

  lemma {:induction false} TrimPadding(l: Line, pad: Cell, n: nat)
    requires Visible(l) && Padding(pad)
    ensures TrimEnd(l + seq(n, _ => pad)) == l
    decreases n
  {
    var row := l + seq(n, _ => pad);
    if n == 0 {
      assert row == l;
    } else {
      assert row[..|row| - 1] == l + seq(n - 1, _ => pad);
      TrimPadding(l, pad, n - 1);
    }
  }

  lemma FillsTail(l: Line, w: nat)
    requires w > 0 && |l| > w
    ensures FillsRows(l, w) <==> FillsRows(l[w..], w)
  {
    assert |l| == |l[w..]| + w;
    assert |l| % w == |l[w..]| % w by {
      Quotient(w, |l[w..]| / w + 1, |l|);
    }
  }

  lemma ShortRow(l: Line, w: nat, pad: Cell)
    requires |l| < w && Visible(l) && Padding(pad)
    ensures var rows := Rows(l, w, pad);
            |rows| == 1 && Flagged(rows) == [false] && TrimEnd(rows[0]) == l && !FillsRows(l, w)
  {
    hide TrimEnd;
    var row := l + seq(w - |l|, _ => pad);
    var last := [row[|row| - 1]];
    assert last[0] == pad;
    TrimPadding(l, pad, w - |l|);
  }

  lemma FullRow(l: Line, pad: Cell)
    requires l != [] && Visible(l)
    ensures Rows(l, |l|, pad) == [l] && Flagged([l]) == [true] && FillsRows(l, |l|)
  {
    var last := [l[|l| - 1]];
    assert Visible(last);
    assert |l| % |l| == 0 by { Quotient(|l|, 1, |l|); }
  }

  lemma LongRow(l: Line, w: nat, pad: Cell)
    requires 0 < w < |l| && Visible(l)
    ensures Visible(l[w..])
    ensures var rows, tail := Rows(l, w, pad), Rows(l[w..], w, pad);
            rows == [l[..w]] + tail && Flagged(rows) == [true] + Flagged(tail)
    ensures FillsRows(l, w) <==> FillsRows(l[w..], w)
  {
    var last := [l[w - 1]];
    assert Visible(last);
    FillsTail(l, w);
  }

  lemma Shifted<T>(a: T, b: seq<T>, c: seq<T>)
    ensures ([a] + b) + c != [] && (([a] + b) + c)[0] == a && (([a] + b) + c)[1..] == b + c
  {
  }

  /** The rows of a line give the line: closed, unless it ends in the last column. */
  lemma {:induction false} LogicalOfRows(l: Line, w: nat, pad: Cell, rest: seq<Line>, flags: seq<bool>, cur: Line)
    requires w > 0 && Visible(l) && Padding(pad) && |rest| == |flags|
    ensures var rows := Rows(l, w, pad);
            Logical(rows + rest, Flagged(rows) + flags, cur) ==
            if FillsRows(l, w) then Logical(rest, flags, cur + l) else [cur + l] + Logical(rest, flags, [])
    decreases |l|
  {
    hide Rows, Flagged, Visible, TrimEnd, FillsRows;
    var rows := Rows(l, w, pad);
    if |l| < w {
      ShortRow(l, w, pad);
      assert rows == [rows[0]] + [];
      Shifted(rows[0], [], rest);
      Shifted(false, [], flags);
      assert [false] + [] == [false];
    } else if |l| == w {
      FullRow(l, pad);
      assert [l] + [] == [l] && [true] + [] == [true];
      Shifted(l, [], rest);
      Shifted(true, [], flags);
    } else {
      var tail := Rows(l[w..], w, pad);
      LongRow(l, w, pad);
      Shifted(l[..w], tail, rest);
      Shifted(true, Flagged(tail), flags);
      LogicalOfRows(l[w..], w, pad, rest, flags, cur + l[..w]);
      assert l[..w] + l[w..] == l;
      Regroup(cur, l[..w], l[w..]);
    }
  }

  // ----- printed lines

  /** The lines that come back: one that ends in the last column runs into the next. */
  function Gathered(ls: seq<Line>, w: nat, cur: Line): seq<Line>
    requires w > 0
    decreases |ls|
  {
    if ls == [] then if cur == [] then [] else [cur]
    else if FillsRows(ls[0], w) then Gathered(ls[1..], w, cur + ls[0])
    else [cur + ls[0]] + Gathered(ls[1..], w, [])
  }

  lemma {:induction false} LogicalOfAllRows(ls: seq<Line>, w: nat, pad: Cell, cur: Line)
    requires w > 0 && AllVisible(ls) && Padding(pad)
    ensures Logical(AllRows(ls, w, pad), Flagged(AllRows(ls, w, pad)), cur) == Gathered(ls, w, cur)
    decreases |ls|
  {
    hide Logical, FillsRows, Visible, Rows;
    if ls == [] {
      NothingLogical(cur);
      assert Flagged([]) == [];
    } else {
      var first, rest := Rows(ls[0], w, pad), AllRows(ls[1..], w, pad);
      assert Flagged(first + rest) == Flagged(first) + Flagged(rest);
      LogicalOfRows(ls[0], w, pad, rest, Flagged(rest), cur);
      LogicalOfAllRows(ls[1..], w, pad, if FillsRows(ls[0], w) then cur + ls[0] else []);
    }
  }

  lemma NothingLogical(cur: Line)
    ensures Logical([], [], cur) == if cur == [] then [] else [cur]
  {
  }

  /** Printing lines of visible cells under the cap, after a closed history, adds exactly
      those lines, where a line that ends in the last column runs into the next. */
  lemma PrintedIs(s: State, ls: seq<Line>, w: nat, pad: Cell)
    requires w > 0 && AllVisible(ls) && Padding(pad)
    requires |s.lines| == |s.wrapped| && Ended(s) && |s.lines| + |AllRows(ls, w, pad)| <= s.max
    ensures LogicalOf(PushAll(s, AllRows(ls, w, pad))) == LogicalOf(s) + Gathered(ls, w, [])
  {
    hide Logical, AllRows, Gathered, Visible;
    var rows := AllRows(ls, w, pad);
    PushedRows(s, rows);
    LogicalConcat(s.lines, s.wrapped, rows, Flagged(rows), []);
    LogicalOfAllRows(ls, w, pad, []);
  }

  /** All lines but the last end before the last column. */
  ghost predicate ShowTheirEnds(ls: seq<Line>, w: nat)
    requires w > 0
  {
    forall i | 0 <= i < |ls| - 1 :: !FillsRows(ls[i], w)
  }

  lemma {:induction false} GatheredShort(ls: seq<Line>, w: nat, cur: Line)
    requires w > 0
    ensures |Gathered(ls, w, cur)| <= |ls| + if cur == [] then 0 else 1
    decreases |ls|
  {
    if ls != [] {
      if FillsRows(ls[0], w) {
        GatheredShort(ls[1..], w, cur + ls[0]);
      } else {
        GatheredShort(ls[1..], w, []);
      }
    }
  }

  /** Once a line is open, gathering ends with fewer lines than were printed after it and
      itself. */
  lemma {:induction false} GatheredOpen(ls: seq<Line>, w: nat, cur: Line)
    requires w > 0 && cur != [] && ls != []
    ensures |Gathered(ls, w, cur)| <= |ls|
    decreases |ls|
  {
    if FillsRows(ls[0], w) {
      if |ls| > 1 {
        GatheredOpen(ls[1..], w, cur + ls[0]);
      } else {
        GatheredShort(ls[1..], w, cur + ls[0]);
      }
    } else {
      GatheredShort(ls[1..], w, []);
    }
  }

  lemma {:induction false} GatheredExactly(ls: seq<Line>, w: nat)
    requires w > 0
    ensures Gathered(ls, w, []) == ls <==> ShowTheirEnds(ls, w)
    decreases |ls|
  {
    hide FillsRows;
    if ls != [] {
      var first, rest := ls[0], ls[1..];
      assert [] + first == first && ls == [first] + rest;
      assert forall i | 1 <= i < |ls| :: ls[i] == rest[i - 1];
      if FillsRows(first, w) {
        if rest == [] {
          assert Gathered(rest, w, first) == [first] by { FilledOne(first, w); }
        } else {
          FilledOne(first, w);
          GatheredOpen(rest, w, first);
        }
      } else {
        GatheredExactly(rest, w);
      }
    }
  }

  lemma FilledOne(l: Line, w: nat)
    requires w > 0 && FillsRows(l, w)
    ensures l != [] && Gathered([], w, l) == [l]
  {
  }

  /** The history recovers printed lines exactly when each but the last ends before the last
      column. */
  lemma PrintedExactly(s: State, ls: seq<Line>, w: nat, pad: Cell)
    requires w > 0 && AllVisible(ls) && Padding(pad)
    requires |s.lines| == |s.wrapped| && Ended(s) && |s.lines| + |AllRows(ls, w, pad)| <= s.max
    ensures LogicalOf(PushAll(s, AllRows(ls, w, pad))) == LogicalOf(s) + ls <==> ShowTheirEnds(ls, w)
  {
    hide LogicalOf, PushAll, AllRows, Gathered, ShowTheirEnds, AllVisible;
    var before := LogicalOf(s);
    PrintedIs(s, ls, w, pad);
    GatheredExactly(ls, w);
    assert (before + Gathered(ls, w, []))[|before|..] == Gathered(ls, w, []);
    assert (before + ls)[|before|..] == ls;
  }

  // ----- and resized

  lemma FlatCons(first: Line, rest: seq<Line>)
    ensures Flat([first] + rest) == first + Flat(rest)
  {
  }

  /** The pieces of a line are the line, all but the last as wide as the screen. */
  lemma {:induction false} PiecesAre(l: Line, w: nat)
    requires w > 0
    ensures var p := Pieces(l, w);
            && Flat(p) == l && |p[|p| - 1]| <= w
            && (forall i | 0 <= i < |p| - 1 :: |p[i]| == w)
            && (l != [] ==> p[|p| - 1] != [])
    decreases |l|
  {
    hide Flat;
    if |l| <= w {
      FlatCons(l, []);
      NothingFlat();
      assert [l] + [] == [l] && l + [] == l;
    } else {
      PiecesAre(l[w..], w);
      FlatCons(l[..w], Pieces(l[w..], w));
      assert l[..w] + l[w..] == l;
    }
  }

  lemma NothingFlat()
    ensures Flat([]) == []
  {
  }

  function Flat(ps: seq<Line>): Line {
    if ps == [] then [] else ps[0] + Flat(ps[1..])
  }

  lemma VisibleSettled(ls: seq<Line>)
    requires AllVisible(ls)
    ensures AllSettled(ls)
  {
    forall i | 0 <= i < |ls|
      ensures Settled(ls[i])
    {
      assert Visible(ls[i]);
    }
  }

  /** Text printed at one width and resized to another is the text cut at the other: the same
      lines, and the rows and wrap flags of each. */
  lemma PrintedThenResized(max: nat, ls: seq<Line>, w: nat, pad: Cell, w2: nat)
    requires w > 0 && w2 > 0 && ls != [] && AllVisible(ls) && Padding(pad) && ShowTheirEnds(ls, w)
    requires |AllRows(ls, w, pad)| <= max && |WrapAll(ls, w2).lines| <= max
    ensures var cut := WrapAll(ls, w2);
            Reflowed(PushAll(State([], [], max), AllRows(ls, w, pad)), w2) == State(cut.lines, cut.wrapped, max)
    ensures LogicalOf(Reflowed(PushAll(State([], [], max), AllRows(ls, w, pad)), w2)) == ls
  {
    hide Logical, PushAll, WrapAll, ShowTheirEnds, AllVisible, AllSettled, RereadAll;
    var s, rows := State([], [], max), AllRows(ls, w, pad);
    PrintedExactly(s, ls, w, pad);
    NothingLogical([]);
    assert [] + ls == ls;
    PushedRows(s, rows);
    SomeRows(ls, w, pad);
    assert [] + rows == rows;
    LogicalOfWrapping(ls, w2);
    VisibleSettled(ls);
    RereadSettled(ls, w2);
  }

  lemma SomeRows(ls: seq<Line>, w: nat, pad: Cell)
    requires w > 0 && ls != []
    ensures AllRows(ls, w, pad) != []
  {
  }
}
