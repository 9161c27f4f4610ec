/** The string operations the repository takes from its library: splitting at a
    separator, joining and trimming. */
module Text {
  /** Whether `c` does not occur in `s`. */
  predicate Free(s: string, c: char) {
    forall i | 0 <= i < |s| :: s[i] != c
  }

  lemma FreeConcat(a: string, b: string, c: char)
    ensures Free(a + b, c) <==> Free(a, c) && Free(b, c)
  {
    var s := a + b;
    assert forall i | 0 <= i < |a| :: s[i] == a[i];
    assert forall i | 0 <= i < |b| :: s[|a| + i] == b[i];
  }

  /** The position of the first `c`, or the length when there is none. */
  function IndexOf(s: string, c: char): (k: nat)
    ensures k <= |s|
    ensures k < |s| ==> s[k] == c
    ensures forall i | 0 <= i < k :: s[i] != c
  {
    if s == "" || s[0] == c then 0 else 1 + IndexOf(s[1..], c)
  }

  /** All the parts between separators, empty ones included; never no parts. */
  function Split(s: string, sep: char): (r: seq<string>)
    ensures |r| >= 1
    decreases |s|
  {
    var k := IndexOf(s, sep);
    if k == |s| then [s] else [s[..k]] + Split(s[k + 1..], sep)
  }

  function Join(parts: seq<string>, sep: char): string {
    if parts == [] then ""
    else if |parts| == 1 then parts[0]
    else parts[0] + [sep] + Join(parts[1..], sep)
  }

  lemma JoinOne(part: string, sep: char)
    ensures Join([part], sep) == part
  {
  }

  lemma JoinCons(part: string, parts: seq<string>, sep: char)
    requires parts != []
    ensures Join([part] + parts, sep) == part + [sep] + Join(parts, sep)
  {
    assert ([part] + parts)[1..] == parts;
  }

  ghost predicate AllFree(parts: seq<string>, c: char) {
    forall i | 0 <= i < |parts| :: Free(parts[i], c)
  }

  lemma {:induction false} SplitFree(s: string, sep: char)
    ensures AllFree(Split(s, sep), sep)
    decreases |s|
  {
    var k := IndexOf(s, sep);
    if k < |s| {
      SplitFree(s[k + 1..], sep);
    }
  }

  /** Joining the parts of a string gives it back. */
  lemma {:induction false} JoinSplit(s: string, sep: char)
    ensures Join(Split(s, sep), sep) == s
    decreases |s|
  {
    hide Join, IndexOf;
    var k := IndexOf(s, sep);
    if k == |s| {
      JoinOne(s, sep);
    } else {
      var rest := Split(s[k + 1..], sep);
      JoinSplit(s[k + 1..], sep);
      JoinCons(s[..k], rest, sep);
      assert s == s[..k] + [sep] + s[k + 1..];
    }
  }

  lemma IndexOfFirst(a: string, c: char, b: string)
    requires Free(a, c)
    ensures IndexOf(a + [c] + b, c) == |a|
  {
    var s := a + [c] + b;
    assert s[|a|] == c;
    assert forall i | 0 <= i < |a| :: s[i] == a[i];
  }

  lemma IndexOfNone(s: string, c: char)
    requires Free(s, c)
    ensures IndexOf(s, c) == |s|
  {
  }

  /** Splitting a joined list of separator-free parts gives them back. */
  lemma {:induction false} SplitJoin(parts: seq<string>, sep: char)
    requires parts != [] && AllFree(parts, sep)
    ensures Split(Join(parts, sep), sep) == parts
    decreases |parts|
  {
    if |parts| == 1 {
      IndexOfNone(parts[0], sep);
    } else {
      var rest := Join(parts[1..], sep);
      IndexOfFirst(parts[0], sep, rest);
      var s := parts[0] + [sep] + rest;
      assert s[..|parts[0]|] == parts[0] && s[|parts[0]| + 1..] == rest;
      SplitJoin(parts[1..], sep);
    }
  }

  lemma {:induction false} JoinSnoc(parts: seq<string>, part: string, sep: char)
    requires parts != []
    ensures Join(parts + [part], sep) == Join(parts, sep) + [sep] + part
    decreases |parts|
  {
    if |parts| == 1 {
      assert parts + [part] == [parts[0], part];
      assert (parts + [part])[1..] == [part];
    } else {
      assert (parts + [part])[1..] == parts[1..] + [part];
      JoinSnoc(parts[1..], part, sep);
      assert parts[0] + [sep] + (Join(parts[1..], sep) + [sep] + part)
          == parts[0] + [sep] + Join(parts[1..], sep) + [sep] + part;
    }
  }

  lemma {:induction false} SplitConcat(x: string, y: string, sep: char)
    ensures Split(x + [sep] + y, sep) == Split(x, sep) + Split(y, sep)
    decreases |x|
  {
    var s, k := x + [sep] + y, IndexOf(x, sep);
    if k == |x| {
      IndexOfFirst(x, sep, y);
      assert s[..k] == x && s[k + 1..] == y;
    } else {
      IndexOfFirst(x[..k], sep, x[k + 1..] + [sep] + y);
      assert s == x[..k] + [sep] + (x[k + 1..] + [sep] + y);
      assert s[..k] == x[..k] && s[k + 1..] == x[k + 1..] + [sep] + y;
      SplitConcat(x[k + 1..], y, sep);
      assert [x[..k]] + (Split(x[k + 1..], sep) + Split(y, sep)) == [x[..k]] + Split(x[k + 1..], sep) + Split(y, sep);
    }
  }

  // ----- skipping empty parts

  /** The parts that are not empty. */
  function NonEmpty(parts: seq<string>): seq<string> {
    if parts == [] then []
    else if parts[0] == "" then NonEmpty(parts[1..])
    else [parts[0]] + NonEmpty(parts[1..])
  }

  lemma {:induction false} NonEmptyConcat(a: seq<string>, b: seq<string>)
    ensures NonEmpty(a + b) == NonEmpty(a) + NonEmpty(b)
  {
    if a == [] {
      assert a + b == b;
    } else {
      assert (a + b)[1..] == a[1..] + b;
      NonEmptyConcat(a[1..], b);
    }
  }

  lemma {:induction false} NonEmptyFixed(parts: seq<string>)
    requires forall i | 0 <= i < |parts| :: parts[i] != ""
    ensures NonEmpty(parts) == parts
  {
    if parts != [] {
      NonEmptyFixed(parts[1..]);
    }
  }

  lemma {:induction false} NonEmptyAgain(parts: seq<string>, c: char)
    requires AllFree(parts, c)
    ensures AllFree(NonEmpty(parts), c) && NonEmpty(NonEmpty(parts)) == NonEmpty(parts)
  {
    if parts != [] {
      NonEmptyAgain(parts[1..], c);
    }
  }

  /** The non-empty parts of a joined list are those of the list, empty ones left out of it or
      not. */
  lemma EmptyPartsSkipped(parts: seq<string>, sep: char)
    requires AllFree(parts, sep)
    ensures NonEmpty(Split(Join(parts, sep), sep)) == NonEmpty(parts)
    ensures NonEmpty(Split(Join(NonEmpty(parts), sep), sep)) == NonEmpty(parts)
  {
    NonEmptyAgain(parts, sep);
    PartsBack(parts, sep);
    PartsBack(NonEmpty(parts), sep);
  }

  lemma PartsBack(parts: seq<string>, sep: char)
    requires AllFree(parts, sep)
    ensures NonEmpty(Split(Join(parts, sep), sep)) == NonEmpty(parts)
  {
    hide Join, Split;
    if parts == [] {
      NothingSplit(sep);
    } else {
      SplitJoin(parts, sep);
    }
  }

  lemma NothingSplit(sep: char)
    ensures Join([], sep) == "" && Split("", sep) == [""] && NonEmpty([""]) == []
  {
    assert [""][1..] == [];
  }

  // ----- white space

  /** The characters that trimming removes. */
  predicate IsSpace(c: char) {
    var u := c as int;
    || 9 <= u <= 13 || u == 0x20 || u == 0x85 || u == 0xA0 || u == 0x1680 || 0x2000 <= u <= 0x200A
    || u == 0x2028 || u == 0x2029 || u == 0x202F || u == 0x205F || u == 0x3000
  }

  function TrimLeft(s: string): string {
    if s != "" && IsSpace(s[0]) then TrimLeft(s[1..]) else s
  }

  function TrimRight(s: string): string {
    if s != "" && IsSpace(s[|s| - 1]) then TrimRight(s[..|s| - 1]) else s
  }

  function Trim(s: string): string {
    TrimRight(TrimLeft(s))
  }

  lemma TrimStable(s: string)
    requires s != "" ==> !IsSpace(s[0]) && !IsSpace(s[|s| - 1])
    ensures Trim(s) == s
  {
  }

  lemma {:induction false} TrimLeftEnds(s: string)
    ensures TrimLeft(s) != "" ==> !IsSpace(TrimLeft(s)[0])
  {
    if s != "" && IsSpace(s[0]) {
      TrimLeftEnds(s[1..]);
    }
  }

  lemma {:induction false} TrimRightPrefix(s: string)
    ensures TrimRight(s) <= s
    ensures TrimRight(s) != "" ==> !IsSpace(TrimRight(s)[|TrimRight(s)| - 1])
    decreases |s|
  {
    if s != "" && IsSpace(s[|s| - 1]) {
      TrimRightPrefix(s[..|s| - 1]);
    }
  }

  lemma TrimEnds(s: string)
    ensures Trim(s) != "" ==> !IsSpace(Trim(s)[0]) && !IsSpace(Trim(s)[|Trim(s)| - 1])
  {
    hide TrimLeft, TrimRight, IsSpace;
    TrimLeftEnds(s);
    TrimRightPrefix(TrimLeft(s));
  }

  /** Trimming at the right stops at the last character that is not white space. */
  lemma {:induction false} TrimRightTail(a: string, b: string)
    requires a != "" && !IsSpace(a[|a| - 1])
    ensures TrimRight(a + b) == a + TrimRight(b)
    decreases |b|
  {
    hide IsSpace;
    if b != "" && IsSpace(b[|b| - 1]) {
      assert (a + b)[..|a + b| - 1] == a + b[..|b| - 1];
      TrimRightTail(a, b[..|b| - 1]);
    } else if b == "" {
      assert a + b == a;
    }
  }
}
