/** Resizing a capped history twice: exactly when it shows what one resize shows. */
module ScrollbackCap {
  import opened Basics
  import opened Scrollback

  /** The newest logical lines, as many as the cap allows. */
  function NewestLogical(s: State): (r: seq<Line>)
    requires |s.lines| == |s.wrapped|
    ensures |r| <= s.max
  {
    Newest(LogicalOf(s), s.max)
  }

  // ----- only the newest logical lines matter

  lemma {:induction false} EachGivesALine(logical: seq<Line>, w: nat)
    requires w > 0
    ensures |WrapAll(logical, w).lines| >= |logical|
  {
    hide Pieces;
    if logical != [] {
      EachGivesALine(logical[1..], w);
    }
  }

  lemma NewestTail<T>(front: seq<T>, tail: seq<T>, max: nat)
    requires |tail| >= max
    ensures Newest(front + tail, max) == Newest(tail, max)
  {
  }

  lemma NewestAll<T>(s: seq<T>, max: nat)
    ensures |s| <= max ==> Newest(s, max) == s
  {
  }

  /** Under the cap a wrapping is that of the newest logical lines. */
  lemma {:induction false} WrapNewest(logical: seq<Line>, w: nat, max: nat)
    requires w > 0
    ensures var all, some := WrapAll(logical, w), WrapAll(Newest(logical, max), w);
            Capped(all.lines, all.wrapped, max) == Capped(some.lines, some.wrapped, max)
  {
    hide Pieces, Flags, Newest;
    NewestAll(logical, max);
    if |logical| > max {
      var first, rest := Pieces(logical[0], w), WrapAll(logical[1..], w);
      EachGivesALine(logical[1..], w);
      WrapNewest(logical[1..], w, max);
      assert [logical[0]] + logical[1..] == logical;
      NewestTail([logical[0]], logical[1..], max);
      NewestTail(first, rest.lines, max);
      NewestTail(Flags(|first|), rest.wrapped, max);
    }
  }

  lemma ReflowedIs(s: State, w: nat)
    requires Valid(s) && w > 0
    ensures var r := WrapAll(NewestLogical(s), w);
            Reflowed(s, w) == Capped(r.lines, r.wrapped, s.max)
  {
    hide Logical, WrapAll;
    if s.lines == [] {
      LogicalOfNothing();
      WrapNothing(w);
    } else {
      WrapNewest(LogicalOf(s), w, s.max);
    }
  }

  lemma WrapNothing(w: nat)
    requires w > 0
    ensures WrapAll([], w) == Wrapping([], [])
  {
  }

  // ----- a width no line fills

  function Widest(logical: seq<Line>): nat {
    if logical == [] then 0 else Max(|logical[0]|, Widest(logical[1..]))
  }

  lemma {:induction false} WrapWide(logical: seq<Line>, w: nat)
    requires w > 0 && Widest(logical) <= w
    ensures WrapAll(logical, w).lines == logical
  {
    if logical != [] {
      WrapWide(logical[1..], w);
    }
  }

  // ----- the cap loses something whenever it bites

  /** Cells and line ends. */
  function Weight(logical: seq<Line>): nat {
    CellCount(logical) + |logical|
  }

  lemma WeightCons(first: Line, rest: seq<Line>)
    ensures Weight([first] + rest) == |first| + 1 + Weight(rest)
  {
    assert ([first] + rest)[1..] == rest;
  }

  lemma {:induction false} WeightNewest(logical: seq<Line>, max: nat)
    ensures Weight(Newest(logical, max)) <= Weight(logical)
  {
    if |logical| > max {
      WeightNewest(logical[1..], max);
      assert Newest(logical[1..], max) == Newest(logical, max);
    }
  }

  /** Cells in front of the open line weigh something. */
  lemma {:induction false} WeightOpen(lines: seq<Line>, wrapped: seq<bool>, front: Line, cur: Line)
    requires |lines| == |wrapped| && front != []
    ensures Weight(Logical(lines, wrapped, cur)) < Weight(Logical(lines, wrapped, front + cur))
    decreases |lines|
  {
    hide Weight;
    if lines == [] {
      WeightCons(front + cur, []);
      WeightCons(cur, []);
      assert [cur] + [] == [cur] && [front + cur] + [] == [front + cur];
      assert Weight([]) == 0 by { NoWeight(); }
    } else if wrapped[0] {
      Regroup(front, cur, lines[0]);
      WeightOpen(lines[1..], wrapped[1..], front, cur + lines[0]);
    } else {
      var end, rest := TrimEnd(lines[0]), Logical(lines[1..], wrapped[1..], []);
      WeightCons(cur + end, rest);
      WeightCons(front + cur + end, rest);
    }
  }

  lemma NoWeight()
    ensures Weight([]) == 0
  {
  }

  lemma WeightWithoutFirst(lines: seq<Line>, wrapped: seq<bool>)
    requires |lines| == |wrapped| && lines != [] && Full(lines, wrapped)
    ensures Weight(Logical(lines[1..], wrapped[1..], [])) < Weight(Logical(lines, wrapped, []))
  {
    hide Weight;
    if wrapped[0] {
      WeightOpen(lines[1..], wrapped[1..], lines[0], []);
      assert lines[0] + [] == lines[0] == [] + lines[0];
    } else {
      WeightCons([] + TrimEnd(lines[0]), Logical(lines[1..], wrapped[1..], []));
    }
  }

  lemma {:induction false} WeightCapped(lines: seq<Line>, wrapped: seq<bool>, max: nat)
    requires |lines| == |wrapped| && Full(lines, wrapped)
    ensures var w := Weight(Logical(Newest(lines, max), Newest(wrapped, max), []));
            if |lines| <= max then w == Weight(Logical(lines, wrapped, [])) else w < Weight(Logical(lines, wrapped, []))
    decreases |lines|
  {
    hide Logical, Weight;
    if |lines| > max {
      WeightWithoutFirst(lines, wrapped);
      WeightCapped(lines[1..], wrapped[1..], max);
      assert Newest(lines[1..], max) == Newest(lines, max) && Newest(wrapped[1..], max) == Newest(wrapped, max);
    }
  }

  // ----- resizing twice

  /** The condition: the newest logical lines are empty or end non-blank, and cut at the
      first width they fit under the cap. */
  ghost predicate Survives(s: State, w1: nat)
    requires |s.lines| == |s.wrapped| && w1 > 0
  {
    AllSettled(NewestLogical(s)) && |WrapAll(NewestLogical(s), w1).lines| <= s.max
  }

  lemma ReflowedValid(s: State, w: nat)
    requires Valid(s)
    ensures Valid(Reflowed(s, w)) && Reflowed(s, w).max == s.max
  {
    ApplyValid(s, Resize(w));
  }

  /** What the first resize leaves to be shown. */
  lemma AfterFirst(s: State, w1: nat)
    requires Valid(s) && w1 > 0
    ensures var n, s1 := NewestLogical(s), Reflowed(s, w1);
            Valid(s1) && s1.max == s.max && (NewestLogical(s1) == n <==> Survives(s, w1))
  {
    hide WrapAll, Logical, Reread, RereadAll, Weight, AllSettled, Full;
    var n, s1 := NewestLogical(s), Reflowed(s, w1);
    var r := WrapAll(n, w1);
    ReflowedValid(s, w1);
    ReflowedIs(s, w1);
    LogicalOfWrapping(n, w1);
    RereadSettled(n, w1);
    if |r.lines| <= s.max {
      assert LogicalOf(s1) == RereadAll(n, w1);
    } else {
      FullWrapping(n, w1);
      WeightCapped(r.lines, r.wrapped, s.max);
      WeightReread(n, w1);
      WeightNewest(LogicalOf(s1), s.max);
    }
  }

  lemma WeightReread(logical: seq<Line>, w: nat)
    requires w > 0
    ensures Weight(RereadAll(logical, w)) <= Weight(logical)
  {
    CountReread(logical, w);
  }

  /** Resizing to w1 first makes no difference to any later resize exactly when the newest
      logical lines, as many as the cap allows, are empty or end non-blank and cut at w1
      still fit under the cap. */
  lemma ResizeTwiceExactly(s: State, w1: nat)
    requires Valid(s) && w1 > 0
    ensures (forall w2: nat | w2 > 0 :: Reflowed(Reflowed(s, w1), w2) == Reflowed(s, w2)) <==> Survives(s, w1)
  {
    hide Reflowed, NewestLogical, WrapAll, Survives;
    var n, s1 := NewestLogical(s), Reflowed(s, w1);
    AfterFirst(s, w1);
    var n1 := NewestLogical(s1);
    if n1 == n {
      forall w2: nat | w2 > 0
        ensures Reflowed(s1, w2) == Reflowed(s, w2)
      {
        ReflowedIs(s, w2);
        ReflowedIs(s1, w2);
      }
    } else {
      var w2: nat := 1 + Widest(n) + Widest(n1);
      ReflowedIs(s, w2);
      ReflowedIs(s1, w2);
      WrapWide(n, w2);
      WrapWide(n1, w2);
      assert Reflowed(s1, w2) != Reflowed(s, w2);
    }
  }

  /** After any history whose pops leave lines properly ended, a resize to w1 makes no
      difference to later ones exactly when the newest logical lines cut at w1 fit under
      the cap. */
  lemma HistoryResizesTwice(max: nat, ops: seq<Op>, w1: nat)
    requires w1 > 0 && PopsKeep(State([], [], max), ops)
    ensures var s := ApplyAll(State([], [], max), ops);
            (forall w2: nat | w2 > 0 :: Reflowed(Reflowed(s, w1), w2) == Reflowed(s, w2))
            <==> |WrapAll(NewestLogical(s), w1).lines| <= s.max
  {
    hide Logical, Apply, AllSettled, WrapAll, Reflowed, PopsKeep, Full;
    NothingSettled();
    FullNothing();
    AllApplySettled(State([], [], max), ops);
    var s := ApplyAll(State([], [], max), ops);
    NewestSettled(LogicalOf(s), s.max);
    ResizeTwiceExactly(s, w1);
  }

  lemma NewestSettled(logical: seq<Line>, max: nat)
    requires AllSettled(logical)
    ensures AllSettled(Newest(logical, max))
  {
  }

  /** A line of two cells under a cap of one: cut at width one only its end is kept. */
  lemma CapLosesFront()
    ensures var a, b := Cell(0x61, 0), Cell(0x62, 0);
            var s := State([[a, b]], [false], 1);
            && Valid(s) && AllSettled(LogicalOf(s))
            && Reflowed(Reflowed(s, 1), 2) == State([[b]], [false], 1)
            && Reflowed(s, 2) == s
  {
    var a, b := Cell(0x61, 0), Cell(0x62, 0);
    var l := [a, b];
    var s := State([l], [false], 1);
    hide WrapAll, Logical, Pieces, Flags;
    HardLine(l);
    HardLine([b]);
    WrapShort(l, 2);
    WrapShort([b], 2);
    assert l[..1] == [a] && l[1..] == [b];
    WrapCut(l, 1);
    assert Reflowed(s, 1) == State([[b]], [false], 1);
  }

  lemma WrapShort(l: Line, w: nat)
    requires 0 < w && |l| <= w
    ensures WrapAll([l], w) == Wrapping([l], [false])
  {
    assert [l][1..] == [] && Flags(1) == [false] && Pieces(l, w) == [l];
    WrapNothing(w);
  }

  lemma WrapCut(l: Line, w: nat)
    requires 0 < w < |l| <= 2 * w
    ensures WrapAll([l], w) == Wrapping([l[..w], l[w..]], [true, false])
  {
    assert Pieces(l[w..], w) == [l[w..]];
    assert Pieces(l, w) == [l[..w], l[w..]] && Flags(2) == [true, false];
    assert [l][1..] == [];
    WrapNothing(w);
  }

  lemma HardLine(l: Line)
    requires Settled(l)
    ensures Logical([l], [false], []) == [l] && AllSettled([l])
  {
    assert [l][1..] == [] && [false][1..] == [] && [] + l == l;
    assert Logical([l], [false], []) == [[] + TrimEnd(l)] + Logical([], [], []);
  }
}
