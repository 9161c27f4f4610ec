/** Quoting arguments for a Windows command line, and the MSVCRT rules that take
    the command line apart again. */
module CommandLine {
  import opened Text

  function Backslashes(n: nat): (r: string)
    ensures |r| == n
  {
    seq(n, _ => '\\')
  }

  predicate Blank(c: char) {
    c == ' ' || c == '\t'
  }

  // ----- quoting

  predicate NeedsNoQuotes(arg: string) {
    arg != "" && Free(arg, ' ') && Free(arg, '\t') && Free(arg, '"')
  }

  /** The inside of the quotes, with n backslashes read but not yet written. */
  function Quoted(s: string, n: nat): string {
    if s == "" then Backslashes(n * 2)
    else if s[0] == '\\' then Quoted(s[1..], n + 1)
    else if s[0] == '"' then Backslashes(n * 2 + 1) + ['"'] + Quoted(s[1..], 0)
    else Backslashes(n) + [s[0]] + Quoted(s[1..], 0)
  }

  function Quote(arg: string): string {
    if NeedsNoQuotes(arg) then arg else ['"'] + Quoted(arg, 0) + ['"']
  }

  /** The part of the command line after the program: a blank before each argument. */
  function Tail(args: seq<string>): string {
    if args == [] then "" else [' '] + Quote(args[0]) + Tail(args[1..])
  }

  method QuoteArg(arg: string) returns (out: string)
    ensures out == Quote(arg)
  {
    if NeedsNoQuotes(arg) {
      return arg;
    }
    out := ['"'];
    var backslashes := 0;
    for i := 0 to |arg|
      invariant out + Quoted(arg[i..], backslashes) == ['"'] + Quoted(arg, 0)
    {
      var c := arg[i];
      assert arg[i..][0] == c && arg[i..][1..] == arg[i + 1..];
      if c == '\\' {
        backslashes := backslashes + 1;
      } else if c == '"' {
        Regroup(out, Backslashes(backslashes * 2 + 1), [c], Quoted(arg[i + 1..], 0));
        out := out + Backslashes(backslashes * 2 + 1);
        out := out + [c];
        backslashes := 0;
      } else {
        Regroup(out, Backslashes(backslashes), [c], Quoted(arg[i + 1..], 0));
        out := out + Backslashes(backslashes);
        out := out + [c];
        backslashes := 0;
      }
    }
    out := out + Backslashes(backslashes * 2);
    out := out + ['"'];
  }

  lemma Regroup(a: string, b: string, c: string, d: string)
    ensures a + (b + c + d) == a + b + c + d
  {
  }

  /** The command line handed to CreateProcess. */
  method BuildCommandLine(program: string, args: seq<string>) returns (cmdLine: string)
    ensures cmdLine == Quote(program) + Tail(args)
  {
    hide Quote, Tail;
    cmdLine := QuoteArg(program);
    assert args[0..] == args;
    for i := 0 to |args|
      invariant cmdLine + Tail(args[i..]) == Quote(program) + Tail(args)
    {
      var q := QuoteArg(args[i]);
      TailNext(args, i);
      Regroup(cmdLine, [' '], q, Tail(args[i + 1..]));
      cmdLine := cmdLine + ([' '] + q);
    }
    TailEnd(args);
    assert cmdLine + "" == cmdLine;
  }

  lemma TailNext(args: seq<string>, i: nat)
    requires i < |args|
    ensures Tail(args[i..]) == [' '] + Quote(args[i]) + Tail(args[i + 1..])
  {
    assert args[i..][1..] == args[i + 1..];
  }

  lemma TailEnd(args: seq<string>)
    ensures Tail(args[|args|..]) == ""
  {
  }

  // ----- the MSVCRT rules for arguments after the program

  datatype Taken = Taken(arg: string, rest: string)

  function Put(s: string, t: Taken): Taken {
    Taken(s + t.arg, t.rest)
  }

  /** One argument, with n backslashes pending: 2n before a quote give n and a
      delimiter, 2n + 1 give n and a literal quote, others stand for themselves; a
      doubled quote inside quotes is a literal quote. */
  function Take(s: string, n: nat, quoted: bool): Taken
    decreases |s|
  {
    if s == "" then Taken(Backslashes(n), "")
    else if s[0] == '\\' then Take(s[1..], n + 1, quoted)
    else if s[0] == '"' then
      if n % 2 == 1 then Put(Backslashes(n / 2) + ['"'], Take(s[1..], 0, quoted))
      else if quoted && |s| > 1 && s[1] == '"' then Put(Backslashes(n / 2) + ['"'], Take(s[2..], 0, quoted))
      else Put(Backslashes(n / 2), Take(s[1..], 0, !quoted))
    else if Blank(s[0]) && !quoted then Taken(Backslashes(n), s)
    else Put(Backslashes(n) + [s[0]], Take(s[1..], 0, quoted))
  }

  lemma {:induction false} TakeShortens(s: string, n: nat, quoted: bool)
    ensures |Take(s, n, quoted).rest| <= |s|
    ensures s != "" && (quoted || !Blank(s[0])) ==> |Take(s, n, quoted).rest| < |s|
    decreases |s|
  {
    if s == "" {
    } else if s[0] == '\\' {
      TakeShortens(s[1..], n + 1, quoted);
    } else if s[0] == '"' {
      TakeShortens(s[1..], 0, quoted);
      TakeShortens(s[1..], 0, !quoted);
      if |s| > 1 {
        TakeShortens(s[2..], 0, quoted);
      }
    } else if !(Blank(s[0]) && !quoted) {
      TakeShortens(s[1..], 0, quoted);
    }
  }

  function ParseArgs(s: string): seq<string>
    decreases |s|
  {
    if s == "" then []
    else if Blank(s[0]) then ParseArgs(s[1..])
    else
      TakeShortens(s, 0, false);
      var t := Take(s, 0, false);
      [t.arg] + ParseArgs(t.rest)
  }

  /** What a C program sees of a buffer: everything before the first NUL. */
  function CString(s: string): string {
    s[..IndexOf(s, '\0')]
  }

  // ----- parsing what was quoted

  /** What may follow an argument: nothing, or a blank. */
  predicate Ends(tail: string) {
    tail == "" || Blank(tail[0])
  }

  lemma {:induction false} TakeBackslashes(k: nat, t: string, n: nat, quoted: bool)
    ensures Take(Backslashes(k) + t, n, quoted) == Take(t, n + k, quoted)
    decreases k
  {
    if k == 0 {
      assert Backslashes(0) + t == t;
    } else {
      var s := Backslashes(k) + t;
      assert s[0] == '\\' && s[1..] == Backslashes(k - 1) + t;
      TakeBackslashes(k - 1, t, n + 1, quoted);
    }
  }

  /** After k backslashes, one character and the rest. */
  lemma TakeRun(k: nat, c: char, t: string, quoted: bool)
    ensures Take(Backslashes(k) + [c] + t, 0, quoted) == Take([c] + t, k, quoted)
  {
    assert Backslashes(k) + [c] + t == Backslashes(k) + ([c] + t);
    TakeBackslashes(k, [c] + t, 0, quoted);
  }

  lemma PutAssoc(n: nat, c: char, s: string, rest: string)
    ensures Put(Backslashes(n) + [c], Taken(s, rest)) == Taken(Backslashes(n) + ([c] + s), rest)
  {
  }

  lemma BackslashNext(n: nat, s: string)
    ensures Backslashes(n + 1) + s == Backslashes(n) + (['\\'] + s)
  {
  }

  lemma {:induction false} TakeQuoted(s: string, n: nat, tail: string)
    requires Ends(tail)
    ensures Take(Quoted(s, n) + ['"'] + tail, 0, true) == Taken(Backslashes(n) + s, tail)
    decreases |s|
  {
    hide Backslashes, Take, Ends;
    if s == "" {
      TakeRun(n * 2, '"', tail, true);
      ClosingQuote(n, tail);
    } else if s[0] == '\\' {
      TakeQuoted(s[1..], n + 1, tail);
      BackslashNext(n, s[1..]);
      assert ['\\'] + s[1..] == s;
    } else {
      var c, k := s[0], if s[0] == '"' then n * 2 + 1 else n;
      var rest := Quoted(s[1..], 0) + ['"'] + tail;
      Regroup(Backslashes(k) + [c], Quoted(s[1..], 0), ['"'], tail);
      TakeRun(k, c, rest, true);
      TakeQuoted(s[1..], 0, tail);
      NoBackslash(s[1..]);
      TakeInside(n, c, rest);
      PutAssoc(n, c, s[1..], tail);
      assert [c] + s[1..] == s;
    }
  }

  lemma NoBackslash(s: string)
    ensures Backslashes(0) + s == s
  {
  }

  lemma TakeInside(n: nat, c: char, rest: string)
    requires c != '\\'
    ensures var k := if c == '"' then n * 2 + 1 else n;
            Take([c] + rest, k, true) == Put(Backslashes(n) + [c], Take(rest, 0, true))
  {
    assert ([c] + rest)[1..] == rest;
  }

  lemma OpeningQuote(inner: string)
    ensures Take(['"'] + inner, 0, false) == Take(inner, 0, true)
  {
    hide Take;
    var s := ['"'] + inner;
    assert s[1..] == inner;
    QuoteOpens(s);
    NoBackslash(Take(inner, 0, true).arg);
  }

  lemma QuoteOpens(s: string)
    requires s != "" && s[0] == '"'
    ensures Take(s, 0, false) == Put(Backslashes(0), Take(s[1..], 0, true))
  {
  }

  lemma ClosingQuote(n: nat, tail: string)
    requires Ends(tail)
    ensures Take(['"'] + tail, n * 2, true) == Taken(Backslashes(n) + "", tail)
  {
    var s := ['"'] + tail;
    assert s[1..] == tail;
    NoBackslash("");
    assert Take(tail, 0, false) == Taken("", tail);
  }

  lemma {:induction false} TakePlain(s: string, n: nat, tail: string)
    requires Free(s, ' ') && Free(s, '\t') && Free(s, '"') && Ends(tail)
    ensures Take(s + tail, n, false) == Taken(Backslashes(n) + s, tail)
    decreases |s|
  {
    if s == "" {
      assert s + tail == tail && Backslashes(n) + s == Backslashes(n);
      assert tail == "" || (tail[0] != '\\' && tail[0] != '"');
    } else {
      assert (s + tail)[1..] == s[1..] + tail && [s[0]] + s[1..] == s;
      if s[0] == '\\' {
        TakePlain(s[1..], n + 1, tail);
        BackslashNext(n, s[1..]);
      } else {
        TakePlain(s[1..], 0, tail);
        NoBackslash(s[1..]);
        PutAssoc(n, s[0], s[1..], tail);
      }
    }
  }

  lemma TakeQuote(arg: string, tail: string)
    requires Ends(tail)
    ensures Take(Quote(arg) + tail, 0, false) == Taken(arg, tail)
    ensures Quote(arg) != "" && !Blank(Quote(arg)[0])
  {
    hide Quoted, Backslashes, Take, Ends;
    NoBackslash(arg);
    if NeedsNoQuotes(arg) {
      TakePlain(arg, 0, tail);
    } else {
      var inner := Quoted(arg, 0) + ['"'] + tail;
      Regroup(['"'], Quoted(arg, 0), ['"'], tail);
      OpeningQuote(inner);
      TakeQuoted(arg, 0, tail);
    }
  }

  lemma {:induction false} ParseTail(args: seq<string>)
    ensures Ends(Tail(args)) && ParseArgs(Tail(args)) == args
    decreases |args|
  {
    hide Quote, Take;
    if args != [] {
      var q, rest := Quote(args[0]), Tail(args[1..]);
      ParseTail(args[1..]);
      TakeQuote(args[0], rest);
      assert Tail(args)[1..] == q + rest;
      assert args == [args[0]] + args[1..];
    }
  }

  // ----- NUL

  ghost predicate NulFree(args: seq<string>) {
    AllFree(args, '\0')
  }

  lemma {:induction false} QuotedFree(s: string, n: nat)
    ensures Free(Quoted(s, n), '\0') <==> Free(s, '\0')
    decreases |s|
  {
    if s != "" {
      var c := s[0];
      assert s == [c] + s[1..];
      FreeConcat([c], s[1..], '\0');
      if c == '\\' {
        QuotedFree(s[1..], n + 1);
      } else {
        var head := if c == '"' then Backslashes(n * 2 + 1) else Backslashes(n);
        QuotedFree(s[1..], 0);
        FreeConcat(head + [c], Quoted(s[1..], 0), '\0');
        FreeConcat(head, [c], '\0');
      }
    }
  }

  lemma {:induction false} TailFree(args: seq<string>)
    ensures Free(Tail(args), '\0') <==> NulFree(args)
  {
    if args != [] {
      var q, rest := Quote(args[0]), Tail(args[1..]);
      QuotedFree(args[0], 0);
      FreeConcat(['"'] + Quoted(args[0], 0), ['"'], '\0');
      FreeConcat(['"'], Quoted(args[0], 0), '\0');
      FreeConcat([' '] + q, rest, '\0');
      FreeConcat([' '], q, '\0');
      TailFree(args[1..]);
      assert NulFree(args) <==> Free(args[0], '\0') && NulFree(args[1..]) by {
        assert forall i | 1 <= i < |args| :: args[i] == args[1..][i - 1];
      }
    }
  }

  lemma {:induction false} TakeFree(s: string, n: nat, quoted: bool)
    requires Free(s, '\0')
    ensures Free(Take(s, n, quoted).arg, '\0') && Free(Take(s, n, quoted).rest, '\0')
    decreases |s|
  {
    if s == "" {
    } else if s[0] == '\\' {
      TakeFree(s[1..], n + 1, quoted);
    } else if s[0] == '"' {
      TakeFree(s[1..], 0, quoted);
      TakeFree(s[1..], 0, !quoted);
      if |s| > 1 {
        TakeFree(s[2..], 0, quoted);
      }
    } else if !(Blank(s[0]) && !quoted) {
      TakeFree(s[1..], 0, quoted);
    }
  }

  lemma {:induction false} ParsedFree(s: string)
    requires Free(s, '\0')
    ensures NulFree(ParseArgs(s))
    decreases |s|
  {
    hide Take;
    if s == "" {
    } else if Blank(s[0]) {
      ParsedFree(s[1..]);
    } else {
      TakeShortens(s, 0, false);
      TakeFree(s, 0, false);
      ParsedFree(Take(s, 0, false).rest);
    }
  }

  lemma QuoteFree(arg: string)
    ensures Free(Quote(arg), '\0') <==> Free(arg, '\0')
  {
    QuotedFree(arg, 0);
    FreeConcat(['"'] + Quoted(arg, 0), ['"'], '\0');
    FreeConcat(['"'], Quoted(arg, 0), '\0');
  }

  lemma LineFree(program: string, args: seq<string>)
    ensures Free(Quote(program) + Tail(args), '\0') <==> NulFree([program] + args)
  {
    hide Quote, Tail, Free;
    QuoteFree(program);
    TailFree(args);
    FreeConcat(Quote(program), Tail(args), '\0');
    assert NulFree([program] + args) <==> Free(program, '\0') && NulFree(args) by {
      var all := [program] + args;
      assert all[0] == program && forall i | 0 <= i < |args| :: args[i] == all[i + 1];
    }
  }

  lemma WholeLine(program: string, args: seq<string>)
    ensures ParseArgs(Quote(program) + Tail(args)) == [program] + args
  {
    hide Quote, Take, Tail;
    ParseTail(args);
    TakeQuote(program, Tail(args));
    assert (Quote(program) + Tail(args))[0] == Quote(program)[0];
  }

  /** The child, which sees the command line up to its first NUL, receives exactly the
      program and arguments it was given, precisely when none of them holds a NUL. */
  lemma RoundTripExactly(program: string, args: seq<string>)
    ensures ParseArgs(CString(Quote(program) + Tail(args))) == [program] + args <==> NulFree([program] + args)
  {
    hide ParseArgs, Quote, Tail;
    var s := Quote(program) + Tail(args);
    LineFree(program, args);
    if NulFree([program] + args) {
      WholeLine(program, args);
      IndexOfNone(s, '\0');
      assert s[..|s|] == s;
    } else {
      ParsedFree(CString(s));
    }
  }

  /** After a program without NUL, by whatever rules that is read, the arguments come back
      precisely when none of them holds one. */
  lemma ArgumentsExactly(program: string, args: seq<string>)
    requires Free(program, '\0')
    ensures CString(Quote(program) + Tail(args)) == Quote(program) + CString(Tail(args))
    ensures ParseArgs(CString(Tail(args))) == args <==> NulFree(args)
  {
    hide ParseArgs, Quote, Tail;
    QuoteFree(program);
    CutAfter(Quote(program), Tail(args));
    TailFree(args);
    ParseTail(args);
    var s := Tail(args);
    if NulFree(args) {
      IndexOfNone(s, '\0');
      assert s[..|s|] == s;
    } else {
      ParsedFree(CString(s));
    }
  }

  lemma CutAfter(a: string, b: string)
    requires Free(a, '\0')
    ensures CString(a + b) == a + CString(b)
  {
    var k := IndexOf(b, '\0');
    if k == |b| {
      FreeConcat(a, b, '\0');
      IndexOfNone(a + b, '\0');
    } else {
      FreeConcat(a, b[..k], '\0');
      assert b == b[..k] + ['\0'] + b[k + 1..];
      assert a + b == a + b[..k] + ['\0'] + b[k + 1..];
      IndexOfFirst(a + b[..k], '\0', b[k + 1..]);
    }
  }

  /** A NUL in the program takes the arguments with it. */
  lemma NulInProgram()
    ensures NulFree(["x"]) && ParseArgs(CString(Quote("a\0b") + Tail(["x"]))) == ["a"]
  {
    var program := "a\0b";
    assert Quote(program) == program;
    var rest := "b" + Tail(["x"]);
    assert Quote(program) + Tail(["x"]) == "a" + ['\0'] + rest;
    IndexOfFirst("a", '\0', rest);
    assert ("a" + ['\0'] + rest)[..1] == "a";
    WholeLine("a", []);
    assert Quote("a") == "a" && Tail([]) == "" && "a" + "" == "a" && ["a"] + [] == ["a"];
  }

  // ----- arguments that are left as they are

  lemma {:induction false} QuotedLonger(s: string, n: nat)
    ensures |Quoted(s, n)| >= |s| + n
  {
    if s != "" {
      QuotedLonger(s[1..], if s[0] == '\\' then n + 1 else 0);
    }
  }

  /** An argument is left unquoted exactly when it is not empty and has no blank, tab or
      quote in it. */
  lemma UnquotedExactly(arg: string)
    ensures Quote(arg) == arg <==>
              arg != "" && forall i | 0 <= i < |arg| :: arg[i] != ' ' && arg[i] != '\t' && arg[i] != '"'
  {
    hide Quoted;
    QuotedLonger(arg, 0);
  }

  // ----- how quoting looks

  /** Backslashes are gathered until something else comes. */
  lemma {:induction false} Gathered(k: nat, t: string, n: nat)
    ensures Quoted(Backslashes(k) + t, n) == Quoted(t, n + k)
    decreases k
  {
    if k == 0 {
      assert Backslashes(0) + t == t;
    } else {
      assert (Backslashes(k) + t)[1..] == Backslashes(k - 1) + t;
      Gathered(k - 1, t, n + 1);
    }
  }

  /** Inside the quotes backslashes are doubled before a quote, which gets one more, and at the
      end; before anything else they stand as they are. */
  lemma QuotedRuns(k: nat, c: char, rest: string)
    requires c != '\\'
    ensures Quoted(Backslashes(k) + [c] + rest, 0) ==
            Backslashes(if c == '"' then 2 * k + 1 else k) + [c] + Quoted(rest, 0)
    ensures Quoted(Backslashes(k), 0) == Backslashes(2 * k)
  {
    assert Backslashes(k) + [c] + rest == Backslashes(k) + ([c] + rest);
    Gathered(k, [c] + rest, 0);
    assert ([c] + rest)[1..] == rest;
    assert Backslashes(k) + "" == Backslashes(k);
    Gathered(k, "", 0);
  }

  /** A program and arguments that need no quotes are written with single blanks between. */
  lemma {:induction false} PlainLine(program: string, args: seq<string>)
    requires Quote(program) == program && forall i | 0 <= i < |args| :: Quote(args[i]) == args[i]
    ensures Quote(program) + Tail(args) == Join([program] + args, ' ')
    decreases |args|
  {
    hide Quote;
    if args == [] {
      assert [program] + args == [program] && program + "" == program;
      JoinOne(program, ' ');
    } else {
      PlainLine(args[0], args[1..]);
      assert args == [args[0]] + args[1..];
      JoinCons(program, args, ' ');
      assert program + ([' '] + args[0] + Tail(args[1..])) == program + [' '] + (args[0] + Tail(args[1..]));
    }
  }
}
