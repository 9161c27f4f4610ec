/** Cron expressions as text: what each way of writing a field denotes, and when a job
    written so is due. */
module CronText {
  import opened Basics
  import opened Text
  import opened Cron

  // ----- numbers

  /** A number as it is written. */
  function Numeral(n: nat): (s: string)
    ensures s != ""
    ensures forall i | 0 <= i < |s| :: '0' <= s[i] <= '9'
  {
    var digit := (n % 10) as char + '0';
    if n < 10 then [digit] else Numeral(n / 10) + [digit]
  }

  lemma {:induction false} DigitsBack(n: nat)
    ensures Digits(Numeral(n)) == Some(n)
  {
    var s := Numeral(n);
    if n >= 10 {
      DigitsBack(n / 10);
      assert s[..|s| - 1] == Numeral(n / 10);
    }
  }

  /** A written number is read as itself, and one of more than 31 bits as none. */
  lemma NumeralBack(n: nat)
    ensures ToInt(Numeral(n)) == if n < 0x8000_0000 then Some(n) else None
    ensures ToInt("+" + Numeral(n)) == ToInt(Numeral(n))
    ensures ToInt("-" + Numeral(n)) == if n <= 0x8000_0000 then Some(-(n as int)) else None
  {
    hide Digits;
    DigitsBack(n);
    assert ("-" + Numeral(n))[1..] == Numeral(n) == ("+" + Numeral(n))[1..];
  }

  /** Digits and nothing else are read as a number. */
  lemma {:induction false} DigitsExactly(s: string)
    ensures Digits(s).Some? <==> s != "" && forall i | 0 <= i < |s| :: '0' <= s[i] <= '9'
  {
    if |s| > 1 {
      DigitsExactly(s[..|s| - 1]);
      assert s == s[..|s| - 1] + [s[|s| - 1]];
    }
  }

  // ----- fields

  datatype Base = Every | One(a: nat) | FromTo(a: nat, b: nat)

  /** One part of a field: every number, one, or a stretch of them; of these perhaps only
      every so many. */
  datatype Part = Part(base: Base, step: Option<nat>)

  function BaseText(base: Base): string {
    match base
    case Every => "*"
    case One(a) => Numeral(a)
    case FromTo(a, b) => Numeral(a) + "-" + Numeral(b)
  }

  function PartText(p: Part): string {
    BaseText(p.base) + if p.step.None? then "" else "/" + Numeral(p.step.value)
  }

  function PartTexts(ps: seq<Part>): (r: seq<string>)
    ensures |r| == |ps|
  {
    seq(|ps|, i requires 0 <= i < |ps| => PartText(ps[i]))
  }

  function FieldText(ps: seq<Part>): string {
    Join(PartTexts(ps), ',')
  }

  function First(p: Part, lo: nat): nat {
    match p.base
    case Every => lo
    case One(a) => a
    case FromTo(a, _) => a
  }

  function Last(p: Part, hi: nat): nat {
    match p.base
    case Every => hi
    case One(a) => a
    case FromTo(_, b) => b
  }

  /** The numbers are in order and in the field's range, and the step is positive. */
  predicate Proper(p: Part, lo: nat, hi: nat) {
    lo <= First(p, lo) <= Last(p, hi) <= hi && (p.step.Some? ==> 0 < p.step.value < 0x8000_0000)
  }

  predicate AllProper(ps: seq<Part>, lo: nat, hi: nat) {
    forall i | 0 <= i < |ps| :: Proper(ps[i], lo, hi)
  }

  predicate Denotes(p: Part, lo: nat, hi: nat, v: int) {
    First(p, lo) <= v <= Last(p, hi) && (p.step.Some? && p.step.value > 0 ==> (v - First(p, lo)) % p.step.value == 0)
  }

  function AllDenoted(ps: seq<Part>, lo: nat, hi: nat): set<int> {
    set v, i | 0 <= i < |ps| && First(ps[i], lo) <= v <= Last(ps[i], hi) && Denotes(ps[i], lo, hi, v) :: v
  }

  lemma NumeralPlain(n: nat)
    ensures Free(Numeral(n), '/') && Free(Numeral(n), ',') && Free(Numeral(n), '-') && Numeral(n)[0] != '*'
  {
  }

  lemma PartPlain(p: Part)
    ensures Free(BaseText(p.base), '/') && Free(PartText(p), ',') && PartText(p) != ""
    ensures forall i | 0 <= i < |PartText(p)| :: !IsSpace(PartText(p)[i])
  {
  }

  lemma BoundsBack(base: Base, lo: nat, hi: nat)
    requires hi < 0x8000_0000
    ensures var p := Part(base, None);
            Bounds(BaseText(base), lo, hi) ==
            if base.Every? || (First(p, lo) < 0x8000_0000 && Last(p, hi) < 0x8000_0000)
            then Some((First(p, lo), Last(p, hi))) else None
  {
    hide Numeral, ToInt, Free;
    match base
    case Every =>
    case One(a) =>
      NumeralPlain(a);
      NumeralBack(a);
      IndexOfNone(Numeral(a), '-');
    case FromTo(a, b) =>
      NumeralPlain(a);
      NumeralBack(a);
      NumeralBack(b);
      var text := BaseText(base);
      IndexOfFirst(Numeral(a), '-', Numeral(b));
      assert text[..|Numeral(a)|] == Numeral(a) && text[|Numeral(a)| + 1..] == Numeral(b);
      assert text[0] == Numeral(a)[0];
  }

  lemma StepBack(p: Part)
    ensures var text := PartText(p);
            var slash := IndexOf(text, '/');
            && text[..slash] == BaseText(p.base)
            && (slash < |text| <==> p.step.Some?)
            && (slash < |text| ==> text[slash + 1..] == Numeral(p.step.value))
  {
    hide Numeral, BaseText;
    PartPlain(p);
    var base := BaseText(p.base);
    if p.step.None? {
      assert base + "" == base;
      IndexOfNone(base, '/');
    } else {
      var n := Numeral(p.step.value);
      assert base + ("/" + n) == base + "/" + n;
      IndexOfFirst(base, '/', n);
    }
  }

  lemma PartBack(p: Part, lo: nat, hi: nat)
    requires lo <= hi < 0x8000_0000
    ensures RangeOf(PartText(p), lo, hi) ==
            if Proper(p, lo, hi) then Some(Range(First(p, lo), Last(p, hi), if p.step.None? then 1 else p.step.value))
            else None
  {
    hide Numeral, ToInt, Bounds, PartText, BaseText;
    StepBack(p);
    BoundsBack(p.base, lo, hi);
    if p.step.Some? {
      NumeralBack(p.step.value);
    }
  }

  lemma MembersAre(p: Part, lo: nat, hi: nat, v: int)
    requires Proper(p, lo, hi)
    ensures v in Members(Range(First(p, lo), Last(p, hi), if p.step.None? then 1 else p.step.value)) <==>
              Denotes(p, lo, hi, v)
  {
  }

  lemma {:induction false} UnionBack(ps: seq<Part>, lo: nat, hi: nat)
    requires lo <= hi < 0x8000_0000
    ensures Union(PartTexts(ps), lo, hi) == if AllProper(ps, lo, hi) then Some(AllDenoted(ps, lo, hi)) else None
    decreases |ps|
  {
    hide RangeOf, PartText, Proper, Members, Denotes, First, Last;
    if ps == [] {
      assert AllDenoted(ps, lo, hi) == {};
    } else {
      var p, rest := ps[0], ps[1..];
      PartBack(p, lo, hi);
      UnionBack(rest, lo, hi);
      assert PartTexts(ps)[1..] == PartTexts(rest);
      assert forall i | 1 <= i < |ps| :: ps[i] == rest[i - 1];
      assert AllProper(ps, lo, hi) <==> Proper(p, lo, hi) && AllProper(rest, lo, hi);
      if AllProper(ps, lo, hi) {
        DenotedMore(ps, lo, hi);
      }
    }
  }

  lemma DenotedMore(ps: seq<Part>, lo: nat, hi: nat)
    requires ps != [] && Proper(ps[0], lo, hi)
    ensures var p := ps[0];
            AllDenoted(ps, lo, hi) ==
            Members(Range(First(p, lo), Last(p, hi), if p.step.None? then 1 else p.step.value)) +
            AllDenoted(ps[1..], lo, hi)
  {
    hide Members;
    var p, rest := ps[0], ps[1..];
    var mine := Members(Range(First(p, lo), Last(p, hi), if p.step.None? then 1 else p.step.value));
    forall v: int
      ensures v in AllDenoted(ps, lo, hi) <==> v in mine || v in AllDenoted(rest, lo, hi)
    {
      MembersAre(p, lo, hi, v);
      assert forall i | 1 <= i < |ps| :: ps[i] == rest[i - 1];
      if v in AllDenoted(rest, lo, hi) {
        var i :| 0 <= i < |rest| && Denotes(rest[i], lo, hi, v);
        assert Denotes(ps[i + 1], lo, hi, v);
      }
      if Denotes(p, lo, hi, v) {
        assert ps[0] == p;
      }
    }
  }

  /** A written field is accepted exactly when all its parts are proper, and then is the set
      of all the numbers they denote. */
  lemma FieldBack(ps: seq<Part>, lo: nat, hi: nat)
    requires ps != [] && lo <= hi < 0x8000_0000
    ensures FieldSet(FieldText(ps), lo, hi) == if AllProper(ps, lo, hi) then Some(AllDenoted(ps, lo, hi)) else None
  {
    hide PartText, Split, Join, Union, Free, AllProper, AllDenoted;
    var texts := PartTexts(ps);
    forall i | 0 <= i < |texts|
      ensures Free(texts[i], ',') && texts[i] != ""
    {
      PartPlain(ps[i]);
    }
    SplitJoin(texts, ',');
    NonEmptyFixed(texts);
    UnionBack(ps, lo, hi);
  }

  /** Parts that are empty, between two commas or at an end, are passed over; a field of no
      other parts is refused. */
  lemma EmptyParts(texts: seq<string>, lo: nat, hi: nat)
    requires AllFree(texts, ',')
    ensures FieldSet(Join(texts, ','), lo, hi) == FieldSet(Join(NonEmpty(texts), ','), lo, hi)
    ensures (forall i | 0 <= i < |texts| :: texts[i] == "") ==> FieldSet(Join(texts, ','), lo, hi) == None
  {
    hide Split, Join, Union;
    EmptyPartsSkipped(texts, ',');
    AllEmpty(texts);
  }

  lemma {:induction false} AllEmpty(texts: seq<string>)
    ensures (forall i | 0 <= i < |texts| :: texts[i] == "") ==> NonEmpty(texts) == []
  {
    if texts != [] {
      AllEmpty(texts[1..]);
    }
  }

  // ----- expressions

  ghost predicate Blank(s: string) {
    forall i | 0 <= i < |s| :: IsSpace(s[i])
  }

  ghost predicate AWord(s: string) {
    s != "" && forall i | 0 <= i < |s| :: !IsSpace(s[i])
  }

  /** Words each followed by white space, which only after the last may be missing. */
  ghost predicate Spaced(words: seq<string>, gaps: seq<string>) {
    && |gaps| == |words|
    && (forall i | 0 <= i < |words| :: AWord(words[i]) && Blank(gaps[i]))
    && forall i | 0 <= i < |words| - 1 :: gaps[i] != ""
  }

  function Laid(words: seq<string>, gaps: seq<string>): string
    requires |words| == |gaps|
  {
    if words == [] then "" else words[0] + (gaps[0] + Laid(words[1..], gaps[1..]))
  }

  lemma {:induction false} BlankSkipped(gap: string, s: string)
    requires Blank(gap)
    ensures Words(gap + s) == Words(s)
  {
    hide IsSpace;
    if gap == "" {
      assert gap + s == s;
    } else {
      assert (gap + s)[1..] == gap[1..] + s;
      BlankSkipped(gap[1..], s);
    }
  }

  lemma WordTaken(w: string, s: string)
    requires AWord(w) && (s == "" || IsSpace(s[0]))
    ensures Words(w + s) == [w] + Words(s)
  {
    hide IsSpace;
    var t := w + s;
    WordLength(w, s);
    assert t[..|w|] == w && t[|w|..] == s;
  }

  lemma {:induction false} WordLength(w: string, s: string)
    requires (forall i | 0 <= i < |w| :: !IsSpace(w[i])) && (s == "" || IsSpace(s[0]))
    ensures Word(w + s) == |w|
  {
    hide IsSpace;
    if w == "" {
      assert w + s == s;
    } else {
      assert (w + s)[1..] == w[1..] + s;
      WordLength(w[1..], s);
    }
  }

  /** The words of a text are read whatever white space is between and around them. */
  lemma {:induction false} WordsBack(front: string, words: seq<string>, gaps: seq<string>)
    requires Blank(front) && Spaced(words, gaps)
    ensures Words(front + Laid(words, gaps)) == words
    decreases |words|
  {
    hide IsSpace, AWord, Words;
    BlankSkipped(front, Laid(words, gaps));
    if words == [] {
      NoWords();
    } else {
      assert AWord(words[0]) && Blank(gaps[0]);
      var rest := Laid(words[1..], gaps[1..]);
      WordsBack(gaps[0], words[1..], gaps[1..]);
      if gaps[0] == "" {
        assert |words| == 1 && rest == "";
      } else {
        assert (gaps[0] + rest)[0] == gaps[0][0];
      }
      WordTaken(words[0], gaps[0] + rest);
    }
  }

  lemma NoWords()
    ensures Words("") == []
  {
  }

  /** The five fields of an expression. */
  datatype Fields = Fields(minute: seq<Part>, hour: seq<Part>, day: seq<Part>, month: seq<Part>, weekday: seq<Part>)

  predicate NoneEmpty(f: Fields) {
    f.minute != [] && f.hour != [] && f.day != [] && f.month != [] && f.weekday != []
  }

  function Texts(f: Fields): (r: seq<string>)
    ensures |r| == 5
  {
    [FieldText(f.minute), FieldText(f.hour), FieldText(f.day), FieldText(f.month), FieldText(f.weekday)]
  }

  predicate InRange(f: Fields) {
    && AllProper(f.minute, 0, 59) && AllProper(f.hour, 0, 23) && AllProper(f.day, 1, 31)
    && AllProper(f.month, 1, 12) && AllProper(f.weekday, 0, 7)
  }

  /** The expression as it is written, with any white space between and around the fields, has
      a meaning exactly when all its fields are in range, and then means what they denote. */
  lemma ExpressionBack(front: string, f: Fields, gaps: seq<string>)
    requires NoneEmpty(f) && Blank(front) && Spaced(Texts(f), gaps)
    ensures Meaning(front + Laid(Texts(f), gaps)) ==
            if InRange(f) then
              Some(Schedule(AllDenoted(f.minute, 0, 59), AllDenoted(f.hour, 0, 23), AllDenoted(f.day, 1, 31),
                            AllDenoted(f.month, 1, 12), Weekdays(AllDenoted(f.weekday, 0, 7))))
            else None
  {
    hide Words, FieldSet, FieldText, Spaced, Laid, Blank, AllProper, AllDenoted, Weekdays;
    WordsBack(front, Texts(f), gaps);
    FieldBack(f.minute, 0, 59);
    FieldBack(f.hour, 0, 23);
    FieldBack(f.day, 1, 31);
    FieldBack(f.month, 1, 12);
    FieldBack(f.weekday, 0, 7);
  }

  // ----- when jobs are due

  function Just(a: nat): seq<Part> {
    [Part(One(a), None)]
  }

  function Star(): seq<Part> {
    [Part(Every, None)]
  }

  lemma JustDenotes(a: nat, lo: nat, hi: nat)
    requires lo <= a <= hi
    ensures AllDenoted(Just(a), lo, hi) == {a as int}
  {
    assert Denotes(Just(a)[0], lo, hi, a);
  }

  lemma StarDenotes(lo: nat, hi: nat)
    ensures AllDenoted(Star(), lo, hi) == Interval(lo, hi)
  {
    forall v: int
      ensures v in AllDenoted(Star(), lo, hi) <==> v in Interval(lo, hi)
    {
      assert Star()[0].base == Every && |Star()| == 1;
      assert Denotes(Star()[0], lo, hi, v) <==> lo <= v <= hi;
    }
  }

  lemma AllWeekdays()
    ensures Weekdays(Interval(0, 7)) == Interval(0, 6)
  {
    forall v: int
      ensures v in Weekdays(Interval(0, 7)) <==> v in Interval(0, 6)
    {
      if v in Interval(0, 6) {
        assert v in Interval(0, 7) && v % 7 == v;
      }
    }
  }

  /** The schedule of a minute and an hour, with what the day fields denote. */
  function At(minute: nat, hour: nat, days: set<int>, weekdays: set<int>): Schedule {
    Schedule({minute as int}, {hour as int}, days, Interval(1, 12), weekdays)
  }

  /** A job for a minute, an hour, a day of the month and a weekday is due on either day. */
  lemma EitherDay(f: Fields, front: string, gaps: seq<string>, m: nat, h: nat, d: nat, w: nat, now: When)
    requires m <= 59 && h <= 23 && 1 <= d <= 31 && w <= 7 && IsTime(now)
    requires f == Fields(Just(m), Just(h), Just(d), Star(), Just(w)) && Blank(front) && Spaced(Texts(f), gaps)
    ensures var meaning := Meaning(front + Laid(Texts(f), gaps));
            meaning.Some? && (Due(meaning.value, now) <==>
              now.minute == m && now.hour == h && (now.day == d || now.weekday == (if w == 0 then 7 else w)))
  {
    hide Texts, Spaced, Laid, Blank, Meaning, AllDenoted;
    ExpressionBack(front, f, gaps);
    JustDenotes(m, 0, 59);
    JustDenotes(h, 0, 23);
    JustDenotes(d, 1, 31);
    StarDenotes(1, 12);
    JustDenotes(w, 0, 7);
    Few({d as int}, {w as int}, d, w);
    WeekdayIs(now.weekday, w);
  }

  lemma WeekdayIs(day: nat, w: nat)
    requires 1 <= day <= 7 && w <= 7
    ensures day % 7 in Weekdays({w as int}) <==> day == (if w == 0 then 7 else w)
  {
    assert Weekdays({w as int}) == {w as int % 7};
  }

  lemma Few(days: set<int>, weekdays: set<int>, d: int, w: int)
    requires days == {d} && weekdays == {w}
    ensures days != Interval(1, 31) && Weekdays(weekdays) != Interval(0, 6)
  {
    assert 1 in Interval(1, 31) && 2 in Interval(1, 31);
    assert 1 in Interval(0, 6) && 2 in Interval(0, 6);
    assert Weekdays(weekdays) == {w % 7};
  }

  /** Without a weekday it is due on the day of the month. */
  lemma OnDayOfMonth(f: Fields, front: string, gaps: seq<string>, m: nat, h: nat, d: nat, now: When)
    requires m <= 59 && h <= 23 && 1 <= d <= 31 && IsTime(now)
    requires f == Fields(Just(m), Just(h), Just(d), Star(), Star()) && Blank(front) && Spaced(Texts(f), gaps)
    ensures var meaning := Meaning(front + Laid(Texts(f), gaps));
            meaning.Some? && (Due(meaning.value, now) <==> now.minute == m && now.hour == h && now.day == d)
  {
    hide Texts, Spaced, Laid, Blank, Meaning, AllDenoted, Weekdays;
    ExpressionBack(front, f, gaps);
    JustDenotes(m, 0, 59);
    JustDenotes(h, 0, 23);
    JustDenotes(d, 1, 31);
    StarDenotes(1, 12);
    StarDenotes(0, 7);
    AllWeekdays();
  }

  /** Without a day of the month it is due on the weekday. */
  lemma OnWeekday(f: Fields, front: string, gaps: seq<string>, m: nat, h: nat, w: nat, now: When)
    requires m <= 59 && h <= 23 && w <= 7 && IsTime(now)
    requires f == Fields(Just(m), Just(h), Star(), Star(), Just(w)) && Blank(front) && Spaced(Texts(f), gaps)
    ensures var meaning := Meaning(front + Laid(Texts(f), gaps));
            meaning.Some? && (Due(meaning.value, now) <==>
              now.minute == m && now.hour == h && now.weekday == (if w == 0 then 7 else w))
  {
    hide Texts, Spaced, Laid, Blank, Meaning, AllDenoted;
    ExpressionBack(front, f, gaps);
    JustDenotes(m, 0, 59);
    JustDenotes(h, 0, 23);
    StarDenotes(1, 31);
    StarDenotes(1, 12);
    JustDenotes(w, 0, 7);
    WeekdayIs(now.weekday, w);
  }
}
