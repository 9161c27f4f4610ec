/** The terminal's scrolled-off history: two parallel lists under a cap, and the
    re-wrapping of its logical lines when the width changes. */
module Scrollback {
  import opened Basics

  /** A cell is opaque but for its code point. */
  datatype Cell = Cell(ch: nat, style: nat)

  type Line = seq<Cell>

  const SPACE := 0x20

  predicate IsBlank(c: Cell) {
    c.ch == 0 || c.ch == SPACE
  }

  datatype State = State(lines: seq<Line>, wrapped: seq<bool>, max: nat)

  ghost predicate Valid(s: State) {
    |s.lines| == |s.wrapped| && |s.lines| <= s.max
  }

  // ----- logical lines

  function TrimEnd(l: Line): (r: Line)
    ensures r <= l
    ensures r == l <==> Settled(l)
    ensures Settled(r)
  {
    if l == [] || !IsBlank(l[|l| - 1]) then l else TrimEnd(l[..|l| - 1])
  }

  /** Empty, or not ending in a blank. */
  predicate Settled(l: Line) {
    l == [] || !IsBlank(l[|l| - 1])
  }

  /** The logical lines of physical ones, `cur` being the open one so far. */
  function Logical(lines: seq<Line>, wrapped: seq<bool>, cur: Line): seq<Line>
    requires |lines| == |wrapped|
    decreases |lines|
  {
    if lines == [] then if cur == [] then [] else [cur]
    else if wrapped[0] then Logical(lines[1..], wrapped[1..], cur + lines[0])
    else [cur + TrimEnd(lines[0])] + Logical(lines[1..], wrapped[1..], [])
  }

  /** A logical line cut at width w. */
  function Pieces(l: Line, w: nat): (r: seq<Line>)
    requires w > 0
    ensures |r| >= 1
    decreases |l|
  {
    if |l| <= w then [l] else [l[..w]] + Pieces(l[w..], w)
  }

  /** All pieces but the last continue. */
  function Flags(n: nat): (r: seq<bool>)
    requires n >= 1
    ensures |r| == n
  {
    seq(n, i => i < n - 1)
  }

  datatype Wrapping = Wrapping(lines: seq<Line>, wrapped: seq<bool>)

  function WrapAll(logical: seq<Line>, w: nat): (r: Wrapping)
    requires w > 0
    ensures |r.lines| == |r.wrapped|
  {
    if logical == [] then Wrapping([], [])
    else
      var first, rest := Pieces(logical[0], w), WrapAll(logical[1..], w);
      Wrapping(first + rest.lines, Flags(|first|) + rest.wrapped)
  }

  function LogicalOf(s: State): seq<Line>
    requires |s.lines| == |s.wrapped|
  {
    Logical(s.lines, s.wrapped, [])
  }

  /** Only the newest `max` lines stay. */
  function Newest<T>(s: seq<T>, max: nat): (r: seq<T>)
    ensures |r| == Min(|s|, max)
  {
    if |s| <= max then s else s[|s| - max..]
  }

  function Capped(lines: seq<Line>, wrapped: seq<bool>, max: nat): State
    requires |lines| == |wrapped|
  {
    State(Newest(lines, max), Newest(wrapped, max), max)
  }

  // ----- what each operation makes of the state

  function Pushed(s: State, line: Line): State
    requires |s.lines| == |s.wrapped|
  {
    Capped(s.lines + [line], s.wrapped + [line != [] && !IsBlank(line[|line| - 1])], s.max)
  }

  function Popped(s: State): State {
    if s.lines == [] then s
    else State(s.lines[..|s.lines| - 1], if s.wrapped == [] then [] else s.wrapped[..|s.wrapped| - 1], s.max)
  }

  function WithMax(s: State, max: int): State
    requires |s.lines| == |s.wrapped|
  {
    Capped(s.lines, s.wrapped, if max < 0 then 0 else max)
  }

  function Cleared(s: State): State {
    State([], [], s.max)
  }

  function Reflowed(s: State, cols: int): State
    requires |s.lines| == |s.wrapped|
  {
    if cols <= 0 || s.lines == [] then s
    else
      var w := WrapAll(LogicalOf(s), cols);
      Capped(w.lines, w.wrapped, s.max)
  }

  // ----- the code

  class History {
    var lines: seq<Line>
    var wrapped: seq<bool>
    var max: nat

    constructor (max: nat)
      ensures Snapshot() == State([], [], max)
    {
      lines, wrapped, this.max := [], [], max;
    }

    ghost function Snapshot(): State
      reads this
    {
      State(lines, wrapped, max)
    }

    /** Drops the oldest lines above the cap. */
    method Trim()
      requires |lines| == |wrapped|
      modifies this`lines, this`wrapped
      ensures Snapshot() == Capped(old(lines), old(wrapped), max)
    {
      while |lines| > max
        invariant |lines| == |wrapped| && Min(|old(lines)|, max) <= |lines| <= |old(lines)|
        invariant lines == old(lines)[|old(lines)| - |lines|..]
        invariant wrapped == old(wrapped)[|old(lines)| - |lines|..]
      {
        lines := lines[1..];
        wrapped := wrapped[1..];
      }
    }

    /** A line scrolls off the top of the screen. */
    method PushLine(line: Line)
      requires Valid(Snapshot())
      modifies this`lines, this`wrapped
      ensures Valid(Snapshot()) && Snapshot() == Pushed(old(Snapshot()), line)
    {
      var cols := |line|;
      var soft := cols > 0 && line[cols - 1].ch != 0 && line[cols - 1].ch != SPACE;
      lines := lines + [line];
      wrapped := wrapped + [soft];
      Trim();
    }

    /** The newest line returns to the screen, `cols` wide; nothing when there is none. */
    method PopLine(cols: nat) returns (cells: Option<seq<nat>>)
      requires Valid(Snapshot())
      modifies this`lines, this`wrapped
      ensures Valid(Snapshot()) && Snapshot() == Popped(old(Snapshot()))
      ensures cells.None? <==> old(lines) == []
      ensures cells.Some? ==>
                var line := old(lines)[|old(lines)| - 1];
                |cells.value| == cols &&
                forall c | 0 <= c < cols :: cells.value[c] == if c < |line| then line[c].ch else 0
    {
      if lines == [] {
        return None;
      }
      var line := lines[|lines| - 1];
      lines := lines[..|lines| - 1];
      if wrapped != [] {
        wrapped := wrapped[..|wrapped| - 1];
      }
      var row: seq<nat> := [];
      for c := 0 to cols
        invariant |row| == c && forall k | 0 <= k < c :: row[k] == if k < |line| then line[k].ch else 0
        invariant Snapshot() == Popped(old(Snapshot()))
      {
        row := row + [if c < |line| then line[c].ch else 0];
      }
      cells := Some(row);
    }

    method SetScrollbackMax(n: int)
      requires Valid(Snapshot())
      modifies this
      ensures Valid(Snapshot()) && Snapshot() == WithMax(old(Snapshot()), n)
    {
      max := if n < 0 then 0 else n;
      Trim();
    }

    method ClearScrollback()
      modifies this`lines, this`wrapped
      ensures Valid(Snapshot()) && Snapshot() == Cleared(old(Snapshot()))
    {
      lines, wrapped := [], [];
    }

    /** Rejoins soft-wrapped runs into logical lines and cuts them at the new width. */
    method Reflow(newCols: int)
      requires Valid(Snapshot())
      modifies this`lines, this`wrapped
      ensures Valid(Snapshot()) && Snapshot() == Reflowed(old(Snapshot()), newCols)
    {
      if newCols <= 0 || lines == [] {
        return;
      }
      var logical := Rejoin();
      lines, wrapped := Rewrap(logical, newCols);
      Trim();
    }

    method Rejoin() returns (logical: seq<Line>)
      requires Valid(Snapshot())
      ensures logical == LogicalOf(Snapshot())
    {
      logical := [];
      var cur: Line := [];
      for i := 0 to |lines|
        invariant logical + Logical(lines[i..], wrapped[i..], cur) == LogicalOf(Snapshot())
      {
        assert lines[i..][1..] == lines[i + 1..] && wrapped[i..][1..] == wrapped[i + 1..];
        var line := lines[i];
        if !wrapped[i] {
          line := Trimmed(line);
        }
        cur := cur + line;
        if !wrapped[i] {
          Regroup(logical, [cur], Logical(lines[i + 1..], wrapped[i + 1..], []));
          logical := logical + [cur];
          cur := [];
        }
      }
      if cur != [] {
        logical := logical + [cur];
      }
    }
  }

  lemma Regroup<T>(a: seq<T>, b: seq<T>, c: seq<T>)
    ensures a + (b + c) == (a + b) + c
  {
  }

  /** Trims padding at a hard line end. */
  method Trimmed(line: Line) returns (r: Line)
    ensures r == TrimEnd(line)
  {
    var end := |line|;
    assert line[..end] == line;
    while end > 0 && IsBlank(line[end - 1])
      invariant 0 <= end <= |line| && TrimEnd(line[..end]) == TrimEnd(line)
    {
      assert line[..end][..end - 1] == line[..end - 1];
      end := end - 1;
    }
    r := line[..end];
  }

  method Rewrap(logical: seq<Line>, newCols: nat) returns (out: seq<Line>, outWrapped: seq<bool>)
    requires newCols > 0
    ensures Wrapping(out, outWrapped) == WrapAll(logical, newCols)
  {
    hide WrapAll, Pieces, Flags;
    out, outWrapped := [], [];
    WrapEnds(newCols);
    assert logical[0..] == logical && logical[|logical|..] == [];
    for i := 0 to |logical|
      invariant |out| == |outWrapped|
      invariant var rest := WrapAll(logical[i..], newCols);
                Wrapping(out + rest.lines, outWrapped + rest.wrapped) == WrapAll(logical, newCols)
    {
      WrapNext(logical, newCols, i, out, outWrapped);
      var l := logical[i];
      var pieces, flags := [[]], [false];
      if l != [] {
        pieces, flags := CutLine(l, newCols);
      }
      out, outWrapped := out + pieces, outWrapped + flags;
    }
  }

  lemma WrapEnds(w: nat)
    requires w > 0
    ensures WrapAll([], w) == Wrapping([], []) && Pieces([], w) == [[]] && Flags(1) == [false]
  {
  }

  lemma WrapNext(logical: seq<Line>, w: nat, i: nat, out: seq<Line>, outWrapped: seq<bool>)
    requires w > 0 && i < |logical|
    ensures var pieces, here, rest := Pieces(logical[i], w), WrapAll(logical[i..], w), WrapAll(logical[i + 1..], w);
            out + here.lines == (out + pieces) + rest.lines &&
            outWrapped + here.wrapped == (outWrapped + Flags(|pieces|)) + rest.wrapped
  {
    assert logical[i..][1..] == logical[i + 1..];
  }

  method CutLine(l: Line, newCols: nat) returns (pieces: seq<Line>, flags: seq<bool>)
    requires newCols > 0 && l != []
    ensures pieces == Pieces(l, newCols) && flags == Flags(|pieces|)
  {
    pieces, flags := [], [];
    var off := 0;
    while off < |l|
      invariant 0 <= off && |pieces| == |flags|
      invariant if off < |l| then pieces + Pieces(l[off..], newCols) == Pieces(l, newCols)
          else pieces == Pieces(l, newCols)
      invariant forall k | 0 <= k < |flags| :: flags[k] == (off < |l| || k < |flags| - 1)
      decreases |l| - off
    {
      var len := Min(newCols, |l| - off);
      ghost var rest := l[off..];
      assert rest[..len] == l[off..off + len];
      if newCols < |rest| {
        assert rest[newCols..] == l[off + newCols..];
        Regroup(pieces, [l[off..off + len]], Pieces(l[off + newCols..], newCols));
      } else {
        assert rest == l[off..off + len];
      }
      pieces := pieces + [l[off..off + len]];
      flags := flags + [off + newCols < |l|];
      off := off + newCols;
    }
  }

  // ----- re-wrapping keeps the logical lines

  /** Every logical line is empty or ends in something visible. */
  ghost predicate AllSettled(logical: seq<Line>) {
    forall i | 0 <= i < |logical| :: Settled(logical[i])
  }

  /** A logical line as it is read back after being cut at width w: the padding of
      its last piece is trimmed. */
  function Reread(l: Line, w: nat): (r: Line)
    requires w > 0
    ensures r <= l && (r == l <==> Settled(l))
    decreases |l|
  {
    if |l| <= w then TrimEnd(l)
    else
      assert l == l[..w] + l[w..] && l[w..][|l| - w - 1] == l[|l| - 1];
      l[..w] + Reread(l[w..], w)
  }

  lemma FlagsTail(n: nat)
    requires n >= 2
    ensures Flags(n)[0] && Flags(n)[1..] == Flags(n - 1)
  {
  }

  lemma {:induction false} LogicalOfPieces(l: Line, w: nat, rest: seq<Line>, restWrapped: seq<bool>, cur: Line)
    requires w > 0 && |rest| == |restWrapped|
    ensures var pieces := Pieces(l, w);
            Logical(pieces + rest, Flags(|pieces|) + restWrapped, cur) ==
            [cur + Reread(l, w)] + Logical(rest, restWrapped, [])
    decreases |l|
  {
    hide TrimEnd;
    var pieces := Pieces(l, w);
    var lines, wrapped := pieces + rest, Flags(|pieces|) + restWrapped;
    if |l| <= w {
      assert lines[1..] == rest && wrapped[1..] == restWrapped;
    } else {
      var tail := Pieces(l[w..], w);
      FlagsTail(|pieces|);
      assert lines[0] == l[..w] && lines[1..] == tail + rest;
      assert wrapped[0] && wrapped[1..] == Flags(|tail|) + restWrapped;
      LogicalOfPieces(l[w..], w, rest, restWrapped, cur + l[..w]);
      Regroup(cur, l[..w], Reread(l[w..], w));
    }
  }

  function RereadAll(logical: seq<Line>, w: nat): (r: seq<Line>)
    requires w > 0
    ensures |r| == |logical|
  {
    seq(|logical|, i requires 0 <= i < |logical| => Reread(logical[i], w))
  }

  lemma {:induction false} LogicalOfWrapping(logical: seq<Line>, w: nat)
    requires w > 0
    ensures var r := WrapAll(logical, w); Logical(r.lines, r.wrapped, []) == RereadAll(logical, w)
  {
    hide Pieces, Flags, Reread, Logical;
    if logical == [] {
      LogicalOfNothing();
    } else {
      var rest := WrapAll(logical[1..], w);
      LogicalOfWrapping(logical[1..], w);
      LogicalOfPieces(logical[0], w, rest.lines, rest.wrapped, []);
      assert [] + Reread(logical[0], w) == Reread(logical[0], w);
      assert RereadAll(logical, w) == [Reread(logical[0], w)] + RereadAll(logical[1..], w);
    }
  }

  lemma LogicalOfNothing()
    ensures Logical([], [], []) == []
  {
  }

  lemma RereadSettled(logical: seq<Line>, w: nat)
    requires w > 0
    ensures RereadAll(logical, w) == logical <==> AllSettled(logical)
  {
    var r := RereadAll(logical, w);
    if r == logical {
      forall i | 0 <= i < |logical|
        ensures Settled(logical[i])
      {
        assert r[i] == logical[i];
      }
    }
  }

  // ----- resizing twice

  function CellCount(lines: seq<Line>): nat {
    if lines == [] then 0 else |lines[0]| + CellCount(lines[1..])
  }

  lemma {:induction false} CountConcat(a: seq<Line>, b: seq<Line>)
    ensures CellCount(a + b) == CellCount(a) + CellCount(b)
  {
    if a == [] {
      assert a + b == b;
    } else {
      assert (a + b)[1..] == a[1..] + b;
      CountConcat(a[1..], b);
    }
  }

  lemma {:induction false} CountPieces(l: Line, w: nat)
    requires w > 0
    ensures CellCount(Pieces(l, w)) == |l|
    decreases |l|
  {
    if |l| > w {
      CountPieces(l[w..], w);
      assert Pieces(l, w)[1..] == Pieces(l[w..], w);
    }
  }

  /** Cutting keeps every cell. */
  lemma {:induction false} CountWrapping(logical: seq<Line>, w: nat)
    requires w > 0
    ensures CellCount(WrapAll(logical, w).lines) == CellCount(logical)
  {
    hide Pieces;
    if logical != [] {
      var first, rest := Pieces(logical[0], w), WrapAll(logical[1..], w);
      CountConcat(first, rest.lines);
      CountPieces(logical[0], w);
      CountWrapping(logical[1..], w);
    }
  }

  /** Rereading loses cells exactly where a logical line ends in blanks. */
  lemma {:induction false} CountReread(logical: seq<Line>, w: nat)
    requires w > 0
    ensures CellCount(RereadAll(logical, w)) <= CellCount(logical)
    ensures CellCount(RereadAll(logical, w)) == CellCount(logical) <==> AllSettled(logical)
  {
    hide Reread;
    if logical != [] {
      var r, rest := RereadAll(logical, w), RereadAll(logical[1..], w);
      assert r[1..] == rest;
      CountReread(logical[1..], w);
      RereadCount(logical[0], w);
      assert AllSettled(logical) <==> Settled(logical[0]) && AllSettled(logical[1..]) by {
        assert forall i | 1 <= i < |logical| :: logical[i] == logical[1..][i - 1];
      }
    }
  }

  lemma RereadCount(l: Line, w: nat)
    requires w > 0
    ensures |Reread(l, w)| <= |l| && (|Reread(l, w)| == |l| <==> Settled(l))
  {
    var r := Reread(l, w);
    if |r| == |l| {
      assert r == l[..|r|] == l;
    }
  }

  /** Re-wrapping without a cap. */
  function Rewrapped(s: State, w: nat): Wrapping
    requires |s.lines| == |s.wrapped| && w > 0
  {
    WrapAll(LogicalOf(s), w)
  }

  /** Without a cap, re-wrapping to w1 and then to w2 gives what re-wrapping to w2 gives,
      precisely when every logical line is empty or ends non-blank. */
  lemma RewrapTwiceExactly(s: State, w1: nat, w2: nat)
    requires |s.lines| == |s.wrapped| && w1 > 0 && w2 > 0
    ensures var mid := Rewrapped(s, w1);
            Rewrapped(State(mid.lines, mid.wrapped, s.max), w2) == Rewrapped(s, w2) <==> AllSettled(LogicalOf(s))
  {
    hide WrapAll, RereadAll, Reread;
    var logical := LogicalOf(s);
    LogicalOfWrapping(logical, w1);
    RereadSettled(logical, w1);
    CountReread(logical, w1);
    CountWrapping(logical, w2);
    CountWrapping(RereadAll(logical, w1), w2);
  }

  // ----- which histories are settled

  /** Dropping cells from the front of the open line keeps a history settled. */
  lemma {:induction false} SettledOpen(lines: seq<Line>, wrapped: seq<bool>, front: Line, cur: Line)
    requires |lines| == |wrapped| && AllSettled(Logical(lines, wrapped, front + cur))
    ensures AllSettled(Logical(lines, wrapped, cur))
    decreases |lines|
  {
    var all, mine := Logical(lines, wrapped, front + cur), Logical(lines, wrapped, cur);
    if lines == [] {
      if cur != [] {
        assert Settled(all[0]);
      }
    } else if wrapped[0] {
      Regroup(front, cur, lines[0]);
      SettledOpen(lines[1..], wrapped[1..], front, cur + lines[0]);
    } else {
      assert all[0] == front + cur + TrimEnd(lines[0]) && mine[0] == cur + TrimEnd(lines[0]);
      assert Settled(all[0]);
      assert all[1..] == mine[1..];
      forall i | 0 <= i < |mine|
        ensures Settled(mine[i])
      {
        if i > 0 {
          assert mine[i] == mine[1..][i - 1] == all[i];
        }
      }
    }
  }

  /** So does dropping the oldest lines, as the cap does. */
  lemma {:induction false} SettledNewest(lines: seq<Line>, wrapped: seq<bool>, max: nat)
    requires |lines| == |wrapped| && AllSettled(Logical(lines, wrapped, []))
    ensures AllSettled(Logical(Newest(lines, max), Newest(wrapped, max), []))
    decreases |lines|
  {
    if |lines| > max {
      var all := Logical(lines, wrapped, []);
      if wrapped[0] {
        assert [] + lines[0] == lines[0] + [];
        SettledOpen(lines[1..], wrapped[1..], lines[0], []);
      } else {
        assert forall i | 0 <= i < |all| - 1 :: all[1..][i] == all[i + 1];
      }
      SettledNewest(lines[1..], wrapped[1..], max);
      assert Newest(lines[1..], max) == Newest(lines, max) && Newest(wrapped[1..], max) == Newest(wrapped, max);
    }
  }

  /** A pushed line either ends non-blank and continues, or is trimmed. */
  lemma {:induction false} SettledPush(lines: seq<Line>, wrapped: seq<bool>, cur: Line, line: Line)
    requires |lines| == |wrapped| && AllSettled(Logical(lines, wrapped, cur))
    ensures AllSettled(Logical(lines + [line], wrapped + [line != [] && !IsBlank(line[|line| - 1])], cur))
    decreases |lines|
  {
    var soft := line != [] && !IsBlank(line[|line| - 1]);
    var lines', wrapped' := lines + [line], wrapped + [soft];
    if lines == [] {
      if cur != [] {
        assert Settled(Logical(lines, wrapped, cur)[0]);
      }
      var end := cur + if soft then line else TrimEnd(line);
      assert Settled(end);
      assert lines'[1..] == [] && wrapped'[1..] == [];
      assert lines'[0] == line && wrapped'[0] == soft;
      assert Logical(lines', wrapped', cur) == if soft then [end] else [end] + [];
    } else {
      assert lines'[1..] == lines[1..] + [line] && wrapped'[1..] == wrapped[1..] + [soft];
      if wrapped[0] {
        SettledPush(lines[1..], wrapped[1..], cur + lines[0], line);
      } else {
        var all := Logical(lines, wrapped, cur);
        assert Settled(all[0]);
        assert forall i | 0 <= i < |all| - 1 :: all[1..][i] == all[i + 1];
        SettledPush(lines[1..], wrapped[1..], [], line);
      }
    }
  }

  // ----- every history

  datatype Op = Push(line: Line) | Pop | SetMax(n: int) | Clear | Resize(cols: int)

  function Apply(s: State, op: Op): State
    requires |s.lines| == |s.wrapped|
  {
    match op
    case Push(line) => Pushed(s, line)
    case Pop => Popped(s)
    case SetMax(n) => WithMax(s, n)
    case Clear => Cleared(s)
    case Resize(cols) => Reflowed(s, cols)
  }

  /** Whatever happens, the two lists stay parallel and within the cap. */
  lemma {:induction false} ApplyValid(s: State, op: Op)
    requires Valid(s)
    ensures Valid(Apply(s, op))
  {
  }

  /** A line pushed under the cap is the line taken back, and nothing else has changed. */
  lemma PushThenPop(s: State, line: Line)
    requires Valid(s) && |s.lines| < s.max
    ensures Popped(Pushed(s, line)) == s && Pushed(s, line).lines == s.lines + [line]
  {
  }

  /** At the cap the oldest line goes; a lower cap keeps the newest lines with their flags. */
  lemma NewestStay(s: State, line: Line, n: nat)
    requires Valid(s)
    ensures |s.lines| == s.max > 0 ==> Pushed(s, line).lines == s.lines[1..] + [line]
    ensures n <= |s.lines| ==>
              WithMax(s, n) == State(s.lines[|s.lines| - n..], s.wrapped[|s.wrapped| - n..], n)
    ensures n >= |s.lines| ==> WithMax(s, n) == State(s.lines, s.wrapped, n)
  {
  }

  // ----- lines that continue are not empty

  /** A line that continues on the next is not empty. */
  ghost predicate Full(lines: seq<Line>, wrapped: seq<bool>)
    requires |lines| == |wrapped|
  {
    forall i | 0 <= i < |lines| :: wrapped[i] ==> lines[i] != []
  }

  lemma FullConcat(a: seq<Line>, f: seq<bool>, b: seq<Line>, g: seq<bool>)
    requires |a| == |f| && |b| == |g| && Full(a, f) && Full(b, g)
    ensures Full(a + b, f + g)
  {
  }

  lemma {:induction false} FullPieces(l: Line, w: nat)
    requires w > 0
    ensures Full(Pieces(l, w), Flags(|Pieces(l, w)|))
    decreases |l|
  {
    if |l| > w {
      FullPieces(l[w..], w);
      var rest := Pieces(l[w..], w);
      assert Flags(|rest| + 1)[1..] == Flags(|rest|);
    }
  }

  lemma {:induction false} FullWrapping(logical: seq<Line>, w: nat)
    requires w > 0
    ensures Full(WrapAll(logical, w).lines, WrapAll(logical, w).wrapped)
  {
    hide Pieces, Flags, Full;
    if logical == [] {
      assert Full([], []) by { FullNothing(); }
    } else {
      var first, rest := Pieces(logical[0], w), WrapAll(logical[1..], w);
      FullPieces(logical[0], w);
      FullWrapping(logical[1..], w);
      FullConcat(first, Flags(|first|), rest.lines, rest.wrapped);
    }
  }

  lemma FullNothing()
    ensures Full([], [])
  {
  }

  lemma FullNewest(lines: seq<Line>, wrapped: seq<bool>, max: nat)
    requires |lines| == |wrapped| && Full(lines, wrapped)
    ensures Full(Newest(lines, max), Newest(wrapped, max))
  {
  }

  /** Every operation keeps it so. */
  lemma ApplyFull(s: State, op: Op)
    requires Valid(s) && Full(s.lines, s.wrapped)
    ensures Valid(Apply(s, op)) && Full(Apply(s, op).lines, Apply(s, op).wrapped)
  {
    hide WrapAll, Full, LogicalOf;
    ApplyValid(s, op);
    match op
    case Push(line) =>
      var soft := line != [] && !IsBlank(line[|line| - 1]);
      FullOne(line, soft);
      FullConcat(s.lines, s.wrapped, [line], [soft]);
      FullNewest(s.lines + [line], s.wrapped + [soft], s.max);
    case Pop => FullPopped(s);
    case SetMax(n) => FullNewest(s.lines, s.wrapped, if n < 0 then 0 else n);
    case Clear => FullNothing();
    case Resize(cols) =>
      if cols > 0 && s.lines != [] {
        var w := WrapAll(LogicalOf(s), cols);
        FullWrapping(LogicalOf(s), cols);
        FullNewest(w.lines, w.wrapped, s.max);
      }
  }

  lemma FullOne(line: Line, soft: bool)
    requires soft ==> line != []
    ensures Full([line], [soft])
  {
  }

  lemma FullPopped(s: State)
    requires Valid(s) && Full(s.lines, s.wrapped)
    ensures Valid(Popped(s)) && Full(Popped(s).lines, Popped(s).wrapped)
  {
  }

  // ----- which operations keep a history settled

  /** Whether taking back the newest line leaves the one before it properly ended: it
      does not continue, or it ends in something visible. */
  predicate PopKeeps(s: State)
    requires |s.lines| == |s.wrapped|
  {
    var n := |s.lines|;
    n < 2 || !s.wrapped[n - 2] || Settled(s.lines[n - 2])
  }

  /** Dropping the last physical line, in terms of the line before it or, when there is
      none, of the open line. */
  lemma {:induction false} SettledInit(lines: seq<Line>, wrapped: seq<bool>, cur: Line, last: Line, flag: bool)
    requires |lines| == |wrapped| && Full(lines, wrapped)
    requires AllSettled(Logical(lines + [last], wrapped + [flag], cur))
    ensures var n := |lines|;
            AllSettled(Logical(lines, wrapped, cur)) <==>
            if n == 0 then Settled(cur) else !wrapped[n - 1] || Settled(lines[n - 1])
    decreases |lines|
  {
    if lines == [] {
      OpenLine(cur);
    } else {
      assert (lines + [last])[1..] == lines[1..] + [last] && (wrapped + [flag])[1..] == wrapped[1..] + [flag];
      if wrapped[0] {
        SettledInit(lines[1..], wrapped[1..], cur + lines[0], last, flag);
      } else {
        var first := cur + TrimEnd(lines[0]);
        var rest := Logical(lines[1..] + [last], wrapped[1..] + [flag], []);
        assert Logical(lines + [last], wrapped + [flag], cur) == [first] + rest;
        SettledCons(first, rest);
        SettledInit(lines[1..], wrapped[1..], [], last, flag);
        SettledCons(first, Logical(lines[1..], wrapped[1..], []));
      }
    }
  }

  lemma OpenLine(cur: Line)
    ensures AllSettled(Logical([], [], cur)) <==> Settled(cur)
  {
    if cur != [] {
      assert Logical([], [], cur)[0] == cur;
    }
  }

  lemma SettledCons(first: Line, rest: seq<Line>)
    ensures AllSettled([first] + rest) <==> Settled(first) && AllSettled(rest)
  {
    var all := [first] + rest;
    assert all[0] == first && forall i | 0 <= i < |rest| :: rest[i] == all[i + 1];
  }

  /** Taking a line back keeps a history settled exactly when the line before it ends
      non-blank or does not continue. */
  lemma PopSettledExactly(s: State)
    requires Valid(s) && Full(s.lines, s.wrapped) && AllSettled(LogicalOf(s))
    ensures AllSettled(LogicalOf(Popped(s))) <==> PopKeeps(s)
  {
    if s.lines == [] {
      NothingSettled();
    } else {
      var n := |s.lines| - 1;
      var lines, wrapped := s.lines[..n], s.wrapped[..n];
      assert s.lines == lines + [s.lines[n]] && s.wrapped == wrapped + [s.wrapped[n]];
      SettledInit(lines, wrapped, [], s.lines[n], s.wrapped[n]);
    }
  }

  /** An operation keeps a history settled exactly when it is not a pop, or a pop that
      leaves the line before properly ended. */
  lemma ApplySettled(s: State, op: Op)
    requires Valid(s) && Full(s.lines, s.wrapped) && AllSettled(LogicalOf(s))
    ensures AllSettled(LogicalOf(Apply(s, op))) <==> (op == Pop ==> PopKeeps(s))
  {
    hide Logical, WrapAll, AllSettled, RereadAll, PopKeeps, Full;
    match op
    case Push(line) =>
      SettledPush(s.lines, s.wrapped, [], line);
      SettledNewest(s.lines + [line], s.wrapped + [line != [] && !IsBlank(line[|line| - 1])], s.max);
    case Pop =>
      PopSettledExactly(s);
    case SetMax(n) =>
      SettledNewest(s.lines, s.wrapped, if n < 0 then 0 else n);
    case Clear =>
      NothingSettled();
    case Resize(cols) =>
      if cols > 0 && s.lines != [] {
        var w := WrapAll(LogicalOf(s), cols);
        LogicalOfWrapping(LogicalOf(s), cols);
        RereadSettled(LogicalOf(s), cols);
        SettledNewest(w.lines, w.wrapped, s.max);
      }
  }

  lemma NothingSettled()
    ensures AllSettled(Logical([], [], []))
  {
  }

  function ApplyAll(s: State, ops: seq<Op>): (r: State)
    requires Valid(s)
    ensures Valid(r)
    decreases |ops|
  {
    if ops == [] then s else (ApplyValid(s, ops[0]); ApplyAll(Apply(s, ops[0]), ops[1..]))
  }

  /** Every pop of the history leaves the line before the one taken properly ended. */
  predicate PopsKeep(s: State, ops: seq<Op>)
    requires Valid(s)
    decreases |ops|
  {
    ops != [] ==>
      (ops[0] == Pop ==> PopKeeps(s)) && (ApplyValid(s, ops[0]); PopsKeep(Apply(s, ops[0]), ops[1..]))
  }

  /** Every reachable history keeps its continued lines full; and while its pops leave
      lines properly ended, it stays settled. */
  lemma {:induction false} AllApplySettled(s: State, ops: seq<Op>)
    requires Valid(s) && Full(s.lines, s.wrapped)
    ensures var r := ApplyAll(s, ops);
            Full(r.lines, r.wrapped) && (AllSettled(LogicalOf(s)) && PopsKeep(s, ops) ==> AllSettled(LogicalOf(r)))
    decreases |ops|
  {
    hide Logical, Apply, AllSettled, PopKeeps, Full;
    if ops != [] {
      ApplyFull(s, ops[0]);
      if AllSettled(LogicalOf(s)) {
        ApplySettled(s, ops[0]);
      }
      AllApplySettled(Apply(s, ops[0]), ops[1..]);
    }
  }

  lemma OneWrapped(l: Line)
    requires l != []
    ensures Logical([l], [true], []) == [l]
  {
    assert [l][1..] == [] && [true][1..] == [] && [] + l == l;
  }

  /** A line taken back can end the history inside a logical line, after a blank. */
  lemma PopMayUnsettle()
    ensures var a, gap, b := Cell(0x61, 0), Cell(SPACE, 0), Cell(0x62, 0);
            var s := ApplyAll(State([], [], 9), [Push([a, gap, b]), Resize(2), Pop]);
            s == State([[a, gap]], [true], 9) && !AllSettled(LogicalOf(s))
  {
    var a, gap, b := Cell(0x61, 0), Cell(SPACE, 0), Cell(0x62, 0);
    var l := [a, gap, b];
    var s0 := State([], [], 9);
    var s1 := State([l], [true], 9);
    assert Pushed(s0, l) == s1;
    OneWrapped(l);
    assert l[..2] == [a, gap] && l[2..] == [b];
    assert Pieces(l, 2) == [[a, gap], [b]] && Flags(2) == [true, false];
    assert WrapAll([l], 2) == Wrapping([[a, gap], [b]], [true, false]);
    var s2 := State([[a, gap], [b]], [true, false], 9);
    assert Reflowed(s1, 2) == s2;
    var s3 := State([[a, gap]], [true], 9);
    assert Popped(s2) == s3;
    var ops := [Push(l), Resize(2), Pop];
    assert ops[1..] == [Resize(2), Pop] && ops[1..][1..] == [Pop] && ops[1..][1..][1..] == [];
    assert ApplyAll(s2, [Pop]) == s3 && ApplyAll(s1, ops[1..]) == s3 && ApplyAll(s0, ops) == s3;
    OneWrapped([a, gap]);
    assert !Settled(LogicalOf(s3)[0]);
  }
}
