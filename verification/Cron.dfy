/** Five-field cron expressions: bit masks against sets of numbers. */
module Cron {
  import opened Basics
  import opened Text
  import opened Bits

  // ----- words and numbers

  /** The length of the word a text starts with. */
  function Word(s: string): (k: nat)
    ensures k <= |s|
    ensures k < |s| ==> IsSpace(s[k])
    ensures forall i | 0 <= i < k :: !IsSpace(s[i])
  {
    if s == "" || IsSpace(s[0]) then 0 else 1 + Word(s[1..])
  }

  /** The stretches between white space. */
  function Words(s: string): seq<string>
    decreases |s|
  {
    if s == "" then []
    else if IsSpace(s[0]) then Words(s[1..])
    else [s[..Word(s)]] + Words(s[Word(s)..])
  }

  /** White space gone at both ends and single spaces inside. */
  function Simplified(s: string): string {
    Join(Words(s), ' ')
  }

  predicate IsDigit(c: char) {
    '0' <= c <= '9'
  }

  function Digits(s: string): Option<nat> {
    if s == "" || !IsDigit(s[|s| - 1]) then None
    else if |s| == 1 then Some((s[0] - '0') as nat)
    else
      match Digits(s[..|s| - 1])
      case None => None
      case Some(n) => Some(10 * n + (s[|s| - 1] - '0') as nat)
  }

  /** A decimal number of 32 bits, with an optional sign. */
  function ToInt(s: string): Option<int> {
    var signed := s != "" && (s[0] == '-' || s[0] == '+');
    match Digits(if signed then s[1..] else s)
    case None => None
    case Some(n) =>
      var v: int := if signed && s[0] == '-' then -(n as int) else n;
      if -0x8000_0000 <= v < 0x8000_0000 then Some(v) else None
  }

  // ----- the set reading of a field

  /** Every `step`-th number from `first` to `last`. */
  datatype Range = Range(first: int, last: int, step: int)

  /** The bounds that stand before the step. */
  function Bounds(body: string, lo: int, hi: int): Option<(int, int)> {
    if body == "*" then Some((lo, hi))
    else
      var dash := IndexOf(body, '-');
      if dash < |body| then
        var a, b := ToInt(body[..dash]), ToInt(body[dash + 1..]);
        if a.Some? && b.Some? then Some((a.value, b.value)) else None
      else
        var a := ToInt(body);
        if a.Some? then Some((a.value, a.value)) else None
  }

  function RangeOf(part: string, lo: int, hi: int): (r: Option<Range>)
    ensures r.Some? ==> lo <= r.value.first <= r.value.last <= hi && r.value.step > 0
  {
    var slash := IndexOf(part, '/');
    var step := if slash < |part| then ToInt(part[slash + 1..]) else Some(1);
    var bounds := Bounds(part[..slash], lo, hi);
    if step.None? || step.value <= 0 || bounds.None? then None
    else
      var (a, b) := bounds.value;
      if a < lo || b > hi || a > b then None else Some(Range(a, b, step.value))
  }

  predicate Reaches(r: Range, v: int)
    requires r.step > 0
  {
    r.first <= v <= r.last && (v - r.first) % r.step == 0
  }

  function Members(r: Range): set<int>
    requires r.step > 0
  {
    set v | r.first <= v <= r.last && Reaches(r, v)
  }

  /** The numbers of a list of parts; nothing at all when any part is malformed. */
  function Union(parts: seq<string>, lo: int, hi: int): Option<set<int>> {
    if parts == [] then Some({})
    else
      match (RangeOf(parts[0], lo, hi), Union(parts[1..], lo, hi))
      case (Some(r), Some(rest)) => Some(Members(r) + rest)
      case _ => None
  }

  function FieldSet(field: string, lo: int, hi: int): Option<set<int>> {
    var parts := NonEmpty(Split(field, ','));
    if parts == [] then None else Union(parts, lo, hi)
  }

  predicate Between(lo: int, v: int, hi: int) {
    lo <= v <= hi
  }

  function Interval(lo: int, hi: int): set<int> {
    set v | lo <= v <= hi && Between(lo, v, hi)
  }

  lemma {:induction false} UnionWithin(parts: seq<string>, lo: int, hi: int)
    ensures Union(parts, lo, hi).Some? ==> Union(parts, lo, hi).value <= Interval(lo, hi)
  {
    hide RangeOf;
    if parts != [] {
      UnionWithin(parts[1..], lo, hi);
    }
  }

  // ----- the mask of a field

  method ParseField(field: string, lo: nat, hi: nat) returns (ok: bool, mask: nat)
    requires hi < 64
    ensures ok == FieldSet(field, lo, hi).Some?
    ensures ok ==> Holds(mask, FieldSet(field, lo, hi).value)
  {
    hide Holds, Or, Shift, ToInt, Members;
    mask := 0;
    var parts := NonEmpty(Split(field, ','));
    if parts == [] {
      return false, 0;
    }
    ghost var got: set<int> := {};
    HoldsNothing();
    PlusNothing(Union(parts, lo, hi));
    assert parts[0..] == parts;
    for i := 0 to |parts|
      invariant Holds(mask, got)
      invariant Union(parts, lo, hi) == Plus(got, Union(parts[i..], lo, hi))
    {
      var part := parts[i];
      assert parts[i..][0] == part && parts[i..][1..] == parts[i + 1..];
      ghost var range := RangeOf(part, lo, hi);
      var step := 1;
      var body := part;
      var slash := IndexOf(part, '/');
      if slash < |part| {
        var s := ToInt(part[slash + 1..]);
        if s.None? || s.value <= 0 {
          return false, mask;
        }
        step := s.value;
        body := part[..slash];
      } else {
        assert part[..slash] == part;
      }
      var a: int, b: int := lo, hi;
      var dash := IndexOf(body, '-');
      if body == "*" {
      } else if dash < |body| {
        var x, y := ToInt(body[..dash]), ToInt(body[dash + 1..]);
        if x.None? || y.None? {
          return false, mask;
        }
        a, b := x.value, y.value;
      } else {
        var x := ToInt(body);
        if x.None? {
          return false, mask;
        }
        a, b := x.value, x.value;
      }
      if a < lo || b > hi || a > b {
        return false, mask;
      }
      assert range == Some(Range(a, b, step));
      mask := PutRange(mask, got, Range(a, b, step));
      PlusMore(got, Members(Range(a, b, step)), Union(parts[i + 1..], lo, hi));
      got := got + Members(Range(a, b, step));
    }
    assert parts[|parts|..] == [];
    assert got + {} == got;
    ok := true;
  }

  /** Sets the bits of one range, step by step. */
  method PutRange(mask: nat, ghost got: set<int>, r: Range) returns (out: nat)
    requires 0 <= r.first <= r.last < 64 && r.step > 0 && Holds(mask, got)
    ensures Holds(out, got + Members(r))
  {
    hide Holds, Or, Shift;
    out := mask;
    var v := r.first;
    ghost var k: nat := 0;
    assert got + {} == got;
    ghost var done: set<int> := {};
    while v <= r.last
      invariant v == r.first + k * r.step
      invariant done == set x | x in Members(r) && x < v
      invariant Holds(out, got + done)
      decreases r.last - v
    {
      OnStep(r, k, v);
      NextStep(r, k);
      HoldsMore(out, got + done, v);
      assert got + done + {v} == got + (done + {v});
      out := Or(out, Shift(v));
      done := done + {v};
      v := v + r.step;
      k := k + 1;
    }
    assert done == Members(r);
  }

  lemma OnStep(r: Range, k: nat, v: int)
    requires r.step > 0 && v == r.first + k * r.step && r.first <= v <= r.last
    ensures v in Members(r)
  {
    Quotient(r.step, k, k * r.step);
  }

  /** Between two steps there is no member. */
  lemma NextStep(r: Range, k: nat)
    requires r.step > 0
    ensures forall x | x in Members(r) :: r.first + k * r.step < x ==> x >= r.first + k * r.step + r.step
  {
    forall x | x in Members(r) && r.first + k * r.step < x
      ensures x >= r.first + k * r.step + r.step
    {
      var j := (x - r.first) / r.step;
      assert x - r.first == j * r.step;
      if j <= k {
        MulMono(j, k, r.step);
      } else {
        MulMono(k + 1, j, r.step);
      }
    }
  }

  /** The step loop never adds past the largest signed 32-bit number. */
  ghost predicate StaysInInt(r: Range)
    requires r.step > 0
  {
    forall v | v in Members(r) :: v + r.step < 0x8000_0000
  }

  /** The last number the loop visits. */
  function LastVisited(r: Range): int
    requires r.step > 0
  {
    r.last - (r.last - r.first) % r.step
  }

  /** The loop's sums fit an int exactly when the step added to the last number does. */
  lemma StaysInIntExactly(r: Range)
    requires r.step > 0 && r.first <= r.last
    ensures StaysInInt(r) <==> LastVisited(r) + r.step < 0x8000_0000
  {
    var q := (r.last - r.first) / r.step;
    assert LastVisited(r) == r.first + q * r.step;
    OnStep(r, q, LastVisited(r));
    forall v | v in Members(r)
      ensures v <= LastVisited(r)
    {
      if v > LastVisited(r) {
        NextStep(r, q);
      }
    }
  }

  /** Days of the month from 1 on with the largest step there is: the first sum is already
      too large. */
  lemma LargestStepOverflows()
    ensures !StaysInInt(Range(1, 31, 0x7FFF_FFFF))
  {
    StaysInIntExactly(Range(1, 31, 0x7FFF_FFFF));
  }

  ghost function Plus(s: set<int>, t: Option<set<int>>): Option<set<int>> {
    match t
    case None => None
    case Some(x) => Some(s + x)
  }

  lemma PlusNothing(t: Option<set<int>>)
    ensures Plus({}, t) == t
  {
    if t.Some? {
      assert {} + t.value == t.value;
    }
  }

  lemma PlusMore(s: set<int>, t: set<int>, rest: Option<set<int>>)
    ensures Plus(s, Plus(t, rest)) == Plus(s + t, rest)
  {
    if rest.Some? {
      assert s + (t + rest.value) == s + t + rest.value;
    }
  }

  method FullMask(lo: nat, hi: nat) returns (m: nat)
    ensures Holds(m, Interval(lo, hi))
  {
    hide Holds, Or, Shift;
    m := 0;
    HoldsNothing();
    assert Interval(lo, lo - 1) == {};
    var v := lo;
    while v <= hi
      invariant lo <= v && (v <= hi + 1 || v == lo) && Holds(m, Interval(lo, v - 1))
    {
      HoldsMore(m, Interval(lo, v - 1), v);
      assert Interval(lo, v - 1) + {v} == Interval(lo, v);
      m := Or(m, Shift(v));
      v := v + 1;
    }
    assert Interval(lo, v - 1) == Interval(lo, hi);
  }

  // ----- the whole expression

  /** The set reading of the five fields. */
  datatype Schedule = Schedule(minutes: set<int>, hours: set<int>, days: set<int>, months: set<int>, weekdays: set<int>)

  /** Weekday 7 is Sunday, like weekday 0. */
  function Weekdays(s: set<int>): set<int> {
    set v | v in s :: v % 7
  }

  function FieldsOf(expr: string): seq<string> {
    NonEmpty(Split(Simplified(expr), ' '))
  }

  /** The meaning of an expression: none unless it has five fields, all well formed. */
  function Meaning(expr: string): Option<Schedule> {
    var f := Words(expr);
    if |f| != 5 then None
    else
      match (FieldSet(f[0], 0, 59), FieldSet(f[1], 0, 23), FieldSet(f[2], 1, 31), FieldSet(f[3], 1, 12),
        FieldSet(f[4], 0, 7))
      case (Some(m), Some(h), Some(dom), Some(mon), Some(dow)) => Some(Schedule(m, h, dom, mon, Weekdays(dow)))
      case _ => None
  }

  /** A moment: weekdays count from 1 (Monday) to 7 (Sunday). */
  datatype When = When(minute: nat, hour: nat, day: nat, month: nat, weekday: nat)

  predicate IsTime(w: When) {
    w.minute < 60 && w.hour < 24 && 1 <= w.day <= 31 && 1 <= w.month <= 12 && 1 <= w.weekday <= 7
  }

  /** Whether a job with this schedule is due. When both the day of the month and the
      weekday are restricted either is enough, otherwise both must fit. */
  predicate Due(s: Schedule, w: When) {
    var dom, dow := w.day in s.days, w.weekday % 7 in s.weekdays;
    && w.minute in s.minutes && w.hour in s.hours && w.month in s.months
    && if s.days != Interval(1, 31) && s.weekdays != Interval(0, 6) then dom || dow else dom && dow
  }

  lemma {:induction false} WordsPlain(s: string)
    ensures var w := Words(s);
            AllFree(w, ' ') && forall i | 0 <= i < |w| :: w[i] != ""
    decreases |s|
  {
    if s != "" {
      if IsSpace(s[0]) {
        WordsPlain(s[1..]);
      } else {
        var k := Word(s);
        WordsPlain(s[k..]);
        assert Free(s[..k], ' ');
      }
    }
  }

  /** Simplifying, splitting at spaces and dropping empty parts gives the words. */
  lemma FieldsAreWords(expr: string)
    ensures FieldsOf(expr) == Words(expr)
  {
    hide Words, IndexOf;
    var w := Words(expr);
    WordsPlain(expr);
    if w == [] {
      assert Split("", ' ') == [""] by {
        IndexOfNone("", ' ');
      }
      assert [""][1..] == [];
    } else {
      SplitJoin(w, ' ');
      NonEmptyFixed(w);
    }
  }

  class CronExpr {
    var valid: bool
    var minute: nat
    var hour: nat
    var dom: nat
    var month: nat
    var dow: nat

    /** The masks, each cut to its field's width, hold the sets of a schedule. */
    ghost predicate MasksHold(s: Schedule)
      reads this
    {
      && Holds(minute, s.minutes) && Holds(hour, s.hours) && Holds(dom, s.days)
      && Holds(month, s.months) && Holds(dow, s.weekdays)
    }

    ghost predicate Represents(meaning: Option<Schedule>)
      reads this
    {
      valid == meaning.Some? && (valid ==> MasksHold(meaning.value))
    }

    constructor Default()
      ensures Represents(None)
    {
      valid, minute, hour, dom, month, dow := false, 0, 0, 0, 0, 0;
    }

    constructor (expr: string)
      ensures Represents(Meaning(expr))
    {
      valid, minute, hour, dom, month, dow := false, 0, 0, 0, 0, 0;
      new;
      valid := Parse(expr);
    }

    method Parse(expr: string) returns (ok: bool)
      modifies this
      ensures ok == Meaning(expr).Some? && valid == old(valid)
      ensures ok ==> MasksHold(Meaning(expr).value)
    {
      hide Holds, FieldSet, Words, FieldsOf, Or, And, Shift;
      FieldsAreWords(expr);
      var f := FieldsOf(expr);
      if |f| != 5 {
        return false;
      }
      var m, h, d, mo, w: nat;
      ok, m := ParseField(f[0], 0, 59);
      if !ok { return; }
      ok, h := ParseField(f[1], 0, 23);
      if !ok { return; }
      ok, d := ParseField(f[2], 1, 31);
      if !ok { return; }
      ok, mo := ParseField(f[3], 1, 12);
      if !ok { return; }
      ok, w := ParseField(f[4], 0, 7);
      if !ok { return; }
      ghost var days := FieldSet(f[4], 0, 7).value;
      FieldWithin(f[1], 0, 23);
      FieldWithin(f[2], 1, 31);
      FieldWithin(f[3], 1, 12);
      FieldWithin(f[4], 0, 7);
      ghost var raw := w;
      if And(w, Shift(7)) != 0 {
        w := Or(w, 1);
      }
      w := And(w, 0x7F);
      FoldSunday(raw, days);
      minute := m;
      hour := Low(h, 32);
      dom := Low(d, 32);
      month := Low(mo, 16);
      dow := Low(w, 8);
      HoldsNarrow(h, FieldSet(f[1], 0, 23).value, 32);
      HoldsNarrow(d, FieldSet(f[2], 1, 31).value, 32);
      HoldsNarrow(mo, FieldSet(f[3], 1, 12).value, 16);
      HoldsNarrow(w, Weekdays(days), 8);
    }

    /** Due exactly when the set reading says so; never for an expression that did not parse. */
    method Matches(when: When, ghost meaning: Option<Schedule>) returns (r: bool)
      requires Represents(meaning) && IsTime(when)
      ensures r == (meaning.Some? && Due(meaning.value, when))
    {
      hide Holds, Or, And, Shift;
      if !valid {
        return false;
      }
      ghost var s := meaning.value;
      TestMember(minute, s.minutes, when.minute);
      TestMember(hour, s.hours, when.hour);
      TestMember(month, s.months, when.month);
      if And(minute, Shift(when.minute)) == 0 {
        return false;
      }
      if And(hour, Shift(when.hour)) == 0 {
        return false;
      }
      if And(month, Shift(when.month)) == 0 {
        return false;
      }
      var cronDow := when.weekday % 7;
      TestMember(dom, s.days, when.day);
      TestMember(dow, s.weekdays, cronDow);
      var domMatch := And(dom, Shift(when.day)) != 0;
      var dowMatch := And(dow, Shift(cronDow)) != 0;
      var full := FullMask(1, 31);
      HoldsEqual(dom, s.days, full, Interval(1, 31));
      WeekMask();
      HoldsEqual(dow, s.weekdays, 0x7F, Interval(0, 6));
      var domRestricted := dom != full;
      var dowRestricted := dow != 0x7F;
      r := if domRestricted && dowRestricted then domMatch || dowMatch else domMatch && dowMatch;
    }
  }

  /** The low `k` bits, as a cast to a narrower type keeps them. */
  function Low(m: nat, k: nat): nat {
    m % Shift(k)
  }

  lemma FieldWithin(field: string, lo: int, hi: int)
    ensures FieldSet(field, lo, hi).Some? ==> FieldSet(field, lo, hi).value <= Interval(lo, hi)
  {
    UnionWithin(NonEmpty(Split(field, ',')), lo, hi);
  }

  lemma TestMember(m: nat, s: set<int>, v: nat)
    requires Holds(m, s)
    ensures And(m, Shift(v)) != 0 <==> v in s
  {
    TestBit(m, v);
  }

  /** 0x7F holds the seven weekdays. */
  lemma WeekMask()
    ensures Holds(0x7F, Interval(0, 6))
  {
    assert Shift(3) == 8;
    assert Shift(5) == 32;
    assert Shift(7) == 128;
    forall v: nat
      ensures Bit(0x7F, v) <==> v in Interval(0, 6)
    {
      OnesBit(7, v);
    }
  }

  /** Turning bit 7 into bit 0 takes every weekday modulo 7. */
  lemma FoldSunday(m: nat, s: set<int>)
    requires Holds(m, s) && s <= Interval(0, 7)
    ensures Holds(And(if And(m, Shift(7)) != 0 then Or(m, 1) else m, 0x7F), Weekdays(s))
  {
    hide Or, And;
    var n := if And(m, Shift(7)) != 0 then Or(m, 1) else m;
    TestBit(m, 7);
    WeekMask();
    forall v: nat
      ensures Bit(And(n, 0x7F), v) <==> v in Weekdays(s)
    {
      AndBit(n, 0x7F, v);
      OrBit(m, 1, v);
      ShiftBit(0, v);
      if v in Weekdays(s) {
        var d :| d in s && d % 7 == v;
      }
      if v < 7 && v in s {
        assert v % 7 == v;
      }
      if 7 in s {
        assert 7 % 7 == 0;
      }
    }
  }
}
