/** Quoting of the session agent's command line, and the Microsoft C runtime rules by which the
    agent splits it again. */
module CommandLine {

  // ---------- The printer ----------

  /** `char::is_whitespace`: the Unicode White_Space property. */
  predicate IsWhitespace(c: char) {
    var n := c as int;
    || 0x09 <= n <= 0x0D || n == 0x20 || n == 0x85 || n == 0xA0 || n == 0x1680
    || 0x2000 <= n <= 0x200A || n == 0x2028 || n == 0x2029 || n == 0x202F || n == 0x205F || n == 0x3000
  }

  predicate NeedsQuotes(arg: string) {
    exists i | 0 <= i < |arg| :: IsWhitespace(arg[i]) || arg[i] == '"' || arg[i] == '\\'
  }

  function Backslashes(n: nat): (s: string)
    ensures |s| == n
  {
    if n == 0 then "" else "\\" + Backslashes(n - 1)
  }

  /** What follows the opening quote, with `pending` backslashes read but not yet written. */
  function QuotedRest(arg: string, pending: nat): string {
    if arg == "" then Backslashes(2 * pending) + "\""
    else if arg[0] == '\\' then QuotedRest(arg[1..], pending + 1)
    else if arg[0] == '"' then Backslashes(2 * pending + 1) + "\"" + QuotedRest(arg[1..], 0)
    else Backslashes(pending) + [arg[0]] + QuotedRest(arg[1..], 0)
  }

  function Quoted(arg: string): string {
    if arg == "" then "\"\""
    else if !NeedsQuotes(arg) then arg
    else "\"" + QuotedRest(arg, 0)
  }

  method QuoteCommandArg(arg: string) returns (quoted: string)
    ensures quoted == Quoted(arg)
  {
    if arg == "" {
      return "\"\"";
    }
    if !NeedsQuotes(arg) {
      return arg;
    }
    quoted := "\"";
    var backslashes := 0;
    assert arg[0..] == arg;
    for i := 0 to |arg|
      invariant quoted + QuotedRest(arg[i..], backslashes) == "\"" + QuotedRest(arg, 0)
    {
      assert arg[i..][1..] == arg[i + 1..];
      ghost var rest := arg[i + 1..];
      match arg[i]
      case '\\' => backslashes := backslashes + 1;
      case '"' =>
        Associate4(quoted, Backslashes(backslashes * 2 + 1), "\"", QuotedRest(rest, 0));
        quoted := quoted + Backslashes(backslashes * 2 + 1);
        quoted := quoted + "\"";
        backslashes := 0;
      case ch =>
        Associate4(quoted, Backslashes(backslashes), [ch], QuotedRest(rest, 0));
        quoted := quoted + Backslashes(backslashes);
        quoted := quoted + [ch];
        backslashes := 0;
    }
    assert arg[|arg|..] == "";
    Associate4(quoted, Backslashes(backslashes * 2), "\"", "");
    quoted := quoted + Backslashes(backslashes * 2);
    quoted := quoted + "\"";
  }

  lemma {:induction false} Associate4(a: string, b: string, c: string, d: string)
    ensures a + (b + c + d) == a + b + c + d
    ensures a + (b + c) == a + b + c
  {
  }

  function SessionAgentCommandLine(exe: string, serverUrl: string, token: string): string {
    Quoted(exe) + " --server-url " + Quoted(serverUrl) + " --token " + Quoted(token)
  }

  lemma {:induction false} QuotedRestIsLonger(arg: string, pending: nat)
    ensures |QuotedRest(arg, pending)| > |arg| + pending
    decreases arg
  {
    if arg != "" {
      QuotedRestIsLonger(arg[1..], if arg[0] == '\\' then pending + 1 else 0);
    }
  }

  /** An argument is passed bare exactly when it is not empty and has no white space, quote or
      backslash. */
  lemma {:induction false} BareExactlyWhen(arg: string)
    ensures Quoted(arg) == arg
            <==> arg != ""
                 && forall i | 0 <= i < |arg| :: !IsWhitespace(arg[i]) && arg[i] != '"' && arg[i] != '\\'
  {
    QuotedRestIsLonger(arg, 0);
  }

  // ---------- The reference parser ----------

  predicate IsBlank(c: char) {
    c == ' ' || c == '\t'
  }

  /** The line ends at the first NUL. */
  function UntilNul(line: string): string {
    if line == "" || line[0] == '\0' then "" else [line[0]] + UntilNul(line[1..])
  }

  function SkipBlanks(line: string): (rest: string)
    ensures |rest| <= |line|
    ensures rest != "" ==> !IsBlank(rest[0])
  {
    if line != "" && IsBlank(line[0]) then SkipBlanks(line[1..]) else line
  }

  /** One argument after argv[0]: its text and what is left of the line. `slashes` backslashes
      have been read just before; they are literal unless a quote follows, where each pair
      makes one and an odd one makes the quote literal. Inside quotes a doubled quote is one. */
  function ScanArg(line: string, slashes: nat, inQuotes: bool): (r: (string, string))
    ensures |r.1| <= |line|
    decreases |line|
  {
    if line == "" then (Backslashes(slashes), "")
    else if line[0] == '\\' then ScanArg(line[1..], slashes + 1, inQuotes)
    else if line[0] == '"' then
      if slashes % 2 == 1 then
        var (arg, rest) := ScanArg(line[1..], 0, inQuotes);
        (Backslashes(slashes / 2) + "\"" + arg, rest)
      else if inQuotes && |line| > 1 && line[1] == '"' then
        var (arg, rest) := ScanArg(line[2..], 0, inQuotes);
        (Backslashes(slashes / 2) + "\"" + arg, rest)
      else
        var (arg, rest) := ScanArg(line[1..], 0, !inQuotes);
        (Backslashes(slashes / 2) + arg, rest)
    else if !inQuotes && IsBlank(line[0]) then (Backslashes(slashes), line)
    else
      var (arg, rest) := ScanArg(line[1..], 0, inQuotes);
      (Backslashes(slashes) + [line[0]] + arg, rest)
  }

  lemma {:induction false} ScanProgress(line: string, slashes: nat, inQuotes: bool)
    requires line != "" && (inQuotes || !IsBlank(line[0]))
    ensures |ScanArg(line, slashes, inQuotes).1| < |line|
    decreases |line|
  {
  }

  /** The arguments after argv[0]. */
  function ParseArgs(line: string): seq<string>
    decreases |line|
  {
    var start := SkipBlanks(line);
    if start == "" then []
    else
      ScanProgress(start, 0, false);
      var (arg, rest) := ScanArg(start, 0, false);
      [arg] + ParseArgs(rest)
  }

  /** argv[0]: quotes only switch blanks off and on, backslashes are ordinary. */
  function ScanProgram(line: string, inQuotes: bool): (string, string)
    decreases |line|
  {
    if line == "" then ("", "")
    else if line[0] == '"' then ScanProgram(line[1..], !inQuotes)
    else if !inQuotes && IsBlank(line[0]) then ("", line)
    else
      var (name, rest) := ScanProgram(line[1..], inQuotes);
      ([line[0]] + name, rest)
  }

  function ParseCommandLine(line: string): seq<string> {
    var (program, rest) := ScanProgram(UntilNul(line), false);
    [program] + ParseArgs(rest)
  }

  // ---------- Quoting round trip ----------

  /** A quoted argument is followed by a blank or by nothing. */
  predicate EndsHere(rest: string) {
    rest == "" || IsBlank(rest[0])
  }

  lemma {:induction false} ScanBackslashes(n: nat, line: string, slashes: nat, inQuotes: bool)
    ensures ScanArg(Backslashes(n) + line, slashes, inQuotes) == ScanArg(line, slashes + n, inQuotes)
    decreases n
  {
    if n == 0 {
      assert Backslashes(0) + line == line;
    } else {
      assert (Backslashes(n) + line)[1..] == Backslashes(n - 1) + line;
      ScanBackslashes(n - 1, line, slashes + 1, inQuotes);
    }
  }

  lemma {:induction false} MoreBackslashes(n: nat, s: string)
    ensures Backslashes(n + 1) + s == Backslashes(n) + ("\\" + s)
    decreases n
  {
    if n > 0 {
      MoreBackslashes(n - 1, s);
      assert Backslashes(n + 1) + s == "\\" + (Backslashes(n) + s);
      assert Backslashes(n) + ("\\" + s) == "\\" + (Backslashes(n - 1) + ("\\" + s));
    }
  }

  lemma {:induction false} ScanClosingQuote(slashes: nat, rest: string)
    requires EndsHere(rest)
    ensures ScanArg("\"" + rest, 2 * slashes, true) == (Backslashes(slashes), rest)
  {
    assert ("\"" + rest)[1..] == rest;
    assert 2 * slashes / 2 == slashes;
    assert ScanArg(rest, 0, false) == ("", rest);
    assert Backslashes(slashes) + "" == Backslashes(slashes);
  }

  /** Scanning what the printer wrote for the rest of an argument gives that rest back, with
      the backslashes that were still pending in front. */
  lemma {:induction false} ScanQuotedRest(arg: string, pending: nat, rest: string)
    requires EndsHere(rest)
    ensures ScanArg(QuotedRest(arg, pending) + rest, 0, true) == (Backslashes(pending) + arg, rest)
    decreases arg
  {
    hide ScanArg, EndsHere;
    if arg == "" {
      ScanEnd(pending, rest);
    } else if arg[0] == '\\' {
      ScanQuotedRest(arg[1..], pending + 1, rest);
      MoveBackslash(pending, arg);
    } else {
      var n := if arg[0] == '"' then 2 * pending + 1 else pending;
      ScanQuotedRest(arg[1..], 0, rest);
      assert Backslashes(0) + arg[1..] == arg[1..];
      ScanOneQuoted(arg[0], n, QuotedRest(arg[1..], 0), rest, arg[1..]);
      assert n / 2 == pending || arg[0] != '"';
      assert arg == [arg[0]] + arg[1..];
    }
  }

  lemma {:induction false} MoveBackslash(pending: nat, arg: string)
    requires arg != "" && arg[0] == '\\'
    ensures Backslashes(pending + 1) + arg[1..] == Backslashes(pending) + arg
  {
    MoreBackslashes(pending, arg[1..]);
    assert arg == "\\" + arg[1..];
  }

  lemma {:induction false} ScanEnd(pending: nat, rest: string)
    requires EndsHere(rest)
    ensures ScanArg(QuotedRest("", pending) + rest, 0, true) == (Backslashes(pending) + "", rest)
  {
    var n := 2 * pending;
    assert QuotedRest("", pending) + rest == Backslashes(n) + ("\"" + rest);
    ScanBackslashes(n, "\"" + rest, 0, true);
    ScanClosingQuote(pending, rest);
    assert Backslashes(pending) + "" == Backslashes(pending);
  }

  lemma {:induction false} ScanOneQuoted(c: char, n: nat, body: string, rest: string, arg: string)
    requires c != '\\' && (c == '"' ==> n % 2 == 1)
    requires ScanArg(body + rest, 0, true) == (arg, rest)
    ensures ScanArg(Backslashes(n) + [c] + body + rest, 0, true) ==
            (Backslashes(if c == '"' then n / 2 else n) + ([c] + arg), rest)
  {
    assert Backslashes(n) + [c] + body + rest == Backslashes(n) + ([c] + (body + rest));
    ScanBackslashes(n, [c] + (body + rest), 0, true);
    ScanOneCharacter(c, n, body + rest, true);
    Associate4(Backslashes(if c == '"' then n / 2 else n), [c], arg, "");
  }

  /** A character that is not a backslash, after `n` backslashes: literal when it is no blank
      outside quotes, and, for a quote, when n is odd. */
  lemma {:induction false} ScanOneCharacter(c: char, n: nat, tail: string, inQuotes: bool)
    requires c != '\\' && (c == '"' ==> n % 2 == 1) && (inQuotes || !IsBlank(c))
    ensures ScanArg([c] + tail, n, inQuotes) ==
            (Backslashes(if c == '"' then n / 2 else n) + [c] + ScanArg(tail, 0, inQuotes).0,
             ScanArg(tail, 0, inQuotes).1)
  {
    assert ([c] + tail)[1..] == tail;
  }

  /** An argument that needs no quotes is scanned as it stands. */
  lemma {:induction false} ScanPlain(arg: string, rest: string)
    requires !NeedsQuotes(arg) && EndsHere(rest)
    ensures ScanArg(arg + rest, 0, false) == (arg, rest)
    decreases arg
  {
    if arg == "" {
      assert "" + rest == rest;
    } else {
      assert !IsWhitespace(arg[0]) && arg[0] != '"' && arg[0] != '\\';
      assert !IsBlank(arg[0]);
      assert !NeedsQuotes(arg[1..]) by {
        assert forall i | 0 <= i < |arg[1..]| :: arg[1..][i] == arg[i + 1];
      }
      ScanPlain(arg[1..], rest);
      assert arg + rest == [arg[0]] + (arg[1..] + rest);
      ScanOneCharacter(arg[0], 0, arg[1..] + rest, false);
      assert Backslashes(0) + [arg[0]] + arg[1..] == arg;
    }
  }

  lemma {:induction false} ScanQuoted(arg: string, rest: string)
    requires EndsHere(rest)
    ensures ScanArg(Quoted(arg) + rest, 0, false) == (arg, rest)
    ensures Quoted(arg) != "" && !IsBlank(Quoted(arg)[0])
  {
    if arg != "" && !NeedsQuotes(arg) {
      assert !IsWhitespace(arg[0]);
      ScanPlain(arg, rest);
    } else {
      assert Quoted(arg) == "\"" + QuotedRest(arg, 0) by {
        assert Backslashes(0) + "\"" == "\"";
      }
      ScanOpened(arg, rest);
    }
  }

  lemma {:induction false} ScanOpened(arg: string, rest: string)
    requires EndsHere(rest)
    ensures ScanArg("\"" + QuotedRest(arg, 0) + rest, 0, false) == (arg, rest)
  {
    var body := QuotedRest(arg, 0) + rest;
    assert "\"" + QuotedRest(arg, 0) + rest == "\"" + body;
    assert ("\"" + body)[1..] == body;
    ScanQuotedRest(arg, 0, rest);
    assert Backslashes(0) + arg == arg;
  }

  /** The quoted arguments separated by single spaces. */
  function JoinQuoted(args: seq<string>): string {
    if args == [] then ""
    else if |args| == 1 then Quoted(args[0])
    else Quoted(args[0]) + " " + JoinQuoted(args[1..])
  }

  /** Every list of strings is recovered from its quoted, space-joined form. */
  lemma {:induction false} QuotingRoundTrip(args: seq<string>)
    ensures ParseArgs(JoinQuoted(args)) == args
    ensures ParseArgs(" " + JoinQuoted(args)) == args
    decreases args
  {
    BlankInFront(JoinQuoted(args));
    if args != [] {
      var rest := if |args| == 1 then "" else " " + JoinQuoted(args[1..]);
      ScanQuoted(args[0], rest);
      var line := Quoted(args[0]) + rest;
      assert JoinQuoted(args) == line by {
        Associate4(Quoted(args[0]), " ", JoinQuoted(args[1..]), "");
        assert Quoted(args[0]) + "" == Quoted(args[0]);
      }
      assert line[0] == Quoted(args[0])[0];
      assert SkipBlanks(line) == line;
      QuotingRoundTrip(args[1..]);
      assert ParseArgs(line) == [args[0]] + ParseArgs(rest);
      assert args == [args[0]] + args[1..];
    }
  }

  lemma {:induction false} BlankInFront(line: string)
    ensures ParseArgs(" " + line) == ParseArgs(line)
  {
    assert (" " + line)[1..] == line;
    assert SkipBlanks(" " + line) == SkipBlanks(line);
  }

  // ---------- Exactly which arguments survive the NUL-terminated line ----------

  predicate NoNul(s: string) {
    forall i | 0 <= i < |s| :: s[i] != '\0'
  }

  predicate NoNuls(args: seq<string>) {
    forall i | 0 <= i < |args| :: NoNul(args[i])
  }

  lemma {:induction false} UntilNulIsClean(line: string)
    ensures NoNul(UntilNul(line))
    ensures NoNul(line) ==> UntilNul(line) == line
  {
    if line != "" && line[0] != '\0' {
      UntilNulIsClean(line[1..]);
    }
  }

  lemma {:induction false} BackslashesHaveNoNul(n: nat)
    ensures NoNul(Backslashes(n))
    decreases n
  {
    if n > 0 {
      BackslashesHaveNoNul(n - 1);
    }
  }

  lemma {:induction false} QuotedRestHasNoNul(arg: string, pending: nat)
    requires NoNul(arg)
    ensures NoNul(QuotedRest(arg, pending))
    decreases arg
  {
    BackslashesHaveNoNul(pending);
    BackslashesHaveNoNul(2 * pending);
    BackslashesHaveNoNul(2 * pending + 1);
    if arg != "" {
      QuotedRestHasNoNul(arg[1..], 0);
      QuotedRestHasNoNul(arg[1..], pending + 1);
    }
  }

  lemma {:induction false} JoinedHasNoNul(args: seq<string>)
    requires NoNuls(args)
    ensures NoNul(JoinQuoted(args))
    decreases args
  {
    if args != [] {
      QuotedRestHasNoNul(args[0], 0);
      JoinedHasNoNul(args[1..]);
    }
  }

  lemma {:induction false} ScanHasNoNul(line: string, slashes: nat, inQuotes: bool)
    requires NoNul(line)
    ensures NoNul(ScanArg(line, slashes, inQuotes).0) && NoNul(ScanArg(line, slashes, inQuotes).1)
    decreases |line|
  {
    BackslashesHaveNoNul(slashes);
    BackslashesHaveNoNul(slashes / 2);
    if line != "" {
      ScanHasNoNul(line[1..], slashes + 1, inQuotes);
      ScanHasNoNul(line[1..], 0, inQuotes);
      ScanHasNoNul(line[1..], 0, !inQuotes);
      if |line| > 1 {
        ScanHasNoNul(line[2..], 0, inQuotes);
      }
    }
  }

  lemma {:induction false} SkipHasNoNul(line: string)
    requires NoNul(line)
    ensures NoNul(SkipBlanks(line))
  {
    if line != "" && IsBlank(line[0]) {
      SkipHasNoNul(line[1..]);
    }
  }

  lemma {:induction false} ParsedHaveNoNul(line: string)
    requires NoNul(line)
    ensures NoNuls(ParseArgs(line))
    decreases |line|
  {
    var start := SkipBlanks(line);
    SkipHasNoNul(line);
    if start != "" {
      ScanProgress(start, 0, false);
      ScanHasNoNul(start, 0, false);
      ParsedHaveNoNul(ScanArg(start, 0, false).1);
    }
  }

  /** Through the NUL-terminated command line a list of arguments survives exactly when none of
      them contains a NUL. */
  lemma {:induction false} ArgumentsSurviveExactlyWhen(args: seq<string>)
    ensures ParseArgs(UntilNul(JoinQuoted(args))) == args <==> NoNuls(args)
  {
    UntilNulIsClean(JoinQuoted(args));
    ParsedHaveNoNul(UntilNul(JoinQuoted(args)));
    if NoNuls(args) {
      JoinedHasNoNul(args);
      QuotingRoundTrip(args);
    }
  }

  // ---------- The whole command line, program name included ----------

  predicate HasQuote(s: string) {
    exists i | 0 <= i < |s| :: s[i] == '"'
  }

  /** Backslashes at the end of `pending` backslashes followed by s. */
  function Trailing(s: string, pending: nat): nat {
    if s == "" then pending
    else Trailing(s[1..], if s[0] == '\\' then pending + 1 else 0)
  }

  lemma {:induction false} TrailingIsLast(s: string, pending: nat)
    ensures Trailing(s, pending) > 0 <==> if s == "" then pending > 0 else s[|s| - 1] == '\\'
  {
    if s != "" {
      TrailingIsLast(s[1..], if s[0] == '\\' then pending + 1 else 0);
    }
  }

  lemma {:induction false} ProgramBackslashes(n: nat, line: string, inQuotes: bool)
    ensures ScanProgram(Backslashes(n) + line, inQuotes) ==
            (Backslashes(n) + ScanProgram(line, inQuotes).0, ScanProgram(line, inQuotes).1)
    decreases n
  {
    if n == 0 {
      assert Backslashes(0) + line == line;
      assert Backslashes(0) + ScanProgram(line, inQuotes).0 == ScanProgram(line, inQuotes).0;
    } else {
      var name := ScanProgram(line, inQuotes).0;
      ProgramBackslashes(n - 1, line, inQuotes);
      ProgramCharacter('\\', Backslashes(n - 1) + line, inQuotes);
      assert Backslashes(n) + line == "\\" + (Backslashes(n - 1) + line);
      assert Backslashes(n) + name == "\\" + (Backslashes(n - 1) + name);
    }
  }

  lemma {:induction false} ProgramCharacter(c: char, line: string, inQuotes: bool)
    requires c != '"' && (inQuotes || !IsBlank(c))
    ensures ScanProgram([c] + line, inQuotes) ==
            ([c] + ScanProgram(line, inQuotes).0, ScanProgram(line, inQuotes).1)
  {
    assert ([c] + line)[1..] == line;
  }

  lemma {:induction false} ProgramEnd(n: nat, rest: string)
    requires EndsHere(rest)
    ensures ScanProgram(Backslashes(n) + "\"" + rest, true) == (Backslashes(n), rest)
  {
    Associate4(Backslashes(n), "\"", rest, "");
    assert Backslashes(n) + "\"" + rest == Backslashes(n) + ("\"" + rest);
    ProgramBackslashes(n, "\"" + rest, true);
    assert ("\"" + rest)[1..] == rest;
    assert ScanProgram(rest, false) == ("", rest);
    assert Backslashes(n) + "" == Backslashes(n);
  }

  lemma {:induction false} DoubleBackslashes(m: nat, n: nat)
    ensures Backslashes(m + n) == Backslashes(m) + Backslashes(n)
    decreases m
  {
    if m > 0 {
      DoubleBackslashes(m - 1, n);
    }
  }

  /** Read by the program-name rule, a quoted name without quotes comes back with its trailing
      backslashes doubled. */
  lemma {:induction false} ScanQuotedProgram(exe: string, pending: nat, rest: string)
    requires !HasQuote(exe) && EndsHere(rest)
    ensures ScanProgram(QuotedRest(exe, pending) + rest, true) ==
            (Backslashes(pending) + exe + Backslashes(Trailing(exe, pending)), rest)
    decreases exe
  {
    if exe == "" {
      ProgramEnd(2 * pending, rest);
      DoubleBackslashes(pending, pending);
      assert Backslashes(pending) + "" + Backslashes(pending) == Backslashes(2 * pending);
    } else {
      assert forall i | 0 <= i < |exe[1..]| :: exe[1..][i] == exe[i + 1];
      assert !HasQuote(exe[1..]) && exe[0] != '"';
      if exe[0] == '\\' {
        ScanQuotedProgram(exe[1..], pending + 1, rest);
        MoveBackslash(pending, exe);
      } else {
        ScanQuotedProgram(exe[1..], 0, rest);
        ProgramOneQuoted(exe[0], pending, QuotedRest(exe[1..], 0), rest, exe[1..], Backslashes(Trailing(exe, pending)));
        assert exe == [exe[0]] + exe[1..];
      }
    }
  }

  lemma {:induction false} ProgramOneQuoted(c: char, n: nat, body: string, rest: string, name: string, end: string)
    requires c != '"'
    requires ScanProgram(body + rest, true) == (Backslashes(0) + name + end, rest)
    ensures ScanProgram(Backslashes(n) + [c] + body + rest, true) ==
            (Backslashes(n) + ([c] + name) + end, rest)
  {
    assert Backslashes(n) + [c] + body + rest == Backslashes(n) + ([c] + (body + rest));
    ProgramBackslashes(n, [c] + (body + rest), true);
    ProgramCharacter(c, body + rest, true);
    assert Backslashes(n) + ([c] + (Backslashes(0) + name + end)) == Backslashes(n) + ([c] + name) + end;
  }

  lemma {:induction false} ScanPlainProgram(exe: string, rest: string)
    requires !NeedsQuotes(exe) && EndsHere(rest)
    ensures ScanProgram(exe + rest, false) == (exe, rest)
    decreases exe
  {
    if exe == "" {
      assert "" + rest == rest;
    } else {
      assert !IsWhitespace(exe[0]) && exe[0] != '"';
      assert !NeedsQuotes(exe[1..]) by {
        assert forall i | 0 <= i < |exe[1..]| :: exe[1..][i] == exe[i + 1];
      }
      ScanPlainProgram(exe[1..], rest);
      assert exe + rest == [exe[0]] + (exe[1..] + rest);
      ProgramCharacter(exe[0], exe[1..] + rest, false);
      assert exe == [exe[0]] + exe[1..];
    }
  }

  lemma {:induction false} ProgramHasNoQuote(line: string, inQuotes: bool)
    ensures !HasQuote(ScanProgram(line, inQuotes).0)
    ensures NoNul(line) ==> NoNul(ScanProgram(line, inQuotes).0) && NoNul(ScanProgram(line, inQuotes).1)
    decreases line
  {
    if line != "" {
      ProgramHasNoQuote(line[1..], inQuotes);
      ProgramHasNoQuote(line[1..], !inQuotes);
    }
  }

  predicate PlainProgramName(exe: string) {
    !HasQuote(exe) && (exe != "" ==> exe[|exe| - 1] != '\\')
  }

  lemma {:induction false} ScanQuotedName(exe: string, rest: string)
    requires !HasQuote(exe) && EndsHere(rest) && (exe == "" || NeedsQuotes(exe))
    ensures ScanProgram(Quoted(exe) + rest, false) == (exe + Backslashes(Trailing(exe, 0)), rest)
  {
    QuotedShape(exe);
    ScanQuotedProgram(exe, 0, rest);
    hide Quoted, QuotedRest, NeedsQuotes;
    var body := QuotedRest(exe, 0);
    Associate4("\"", body, rest, "");
    ScanOpeningQuote(body + rest);
    assert Backslashes(0) + exe == exe;
  }

  lemma {:induction false} QuotedShape(arg: string)
    requires arg == "" || NeedsQuotes(arg)
    ensures Quoted(arg) == "\"" + QuotedRest(arg, 0)
  {
    assert Backslashes(0) + "\"" == "\"";
  }

  lemma {:induction false} ScanOpeningQuote(line: string)
    ensures ScanProgram("\"" + line, false) == ScanProgram(line, true)
  {
    assert ("\"" + line)[1..] == line;
  }

  lemma {:induction false} ScanProgramExactly(exe: string, rest: string)
    requires EndsHere(rest)
    ensures ScanProgram(Quoted(exe) + rest, false).0 == exe <==> PlainProgramName(exe)
    ensures PlainProgramName(exe) ==> ScanProgram(Quoted(exe) + rest, false).1 == rest
  {
    ProgramHasNoQuote(Quoted(exe) + rest, false);
    if !HasQuote(exe) {
      TrailingIsLast(exe, 0);
      if exe != "" && !NeedsQuotes(exe) {
        assert exe[|exe| - 1] != '\\';
        ScanPlainProgram(exe, rest);
      } else {
        ScanQuotedName(exe, rest);
        assert |exe + Backslashes(Trailing(exe, 0))| == |exe| + Trailing(exe, 0);
        assert exe + Backslashes(0) == exe;
      }
    }
  }

  lemma {:induction false} FlagsAreBare()
    ensures !NeedsQuotes("--server-url") && !NeedsQuotes("--token")
  {
    var u, t := "--server-url", "--token";
    assert u[0] == '-' && u[1] == '-' && u[2] == 's' && u[3] == 'e' && u[4] == 'r' && u[5] == 'v'
        && u[6] == 'e' && u[7] == 'r' && u[8] == '-' && u[9] == 'u' && u[10] == 'r' && u[11] == 'l';
    assert t[0] == '-' && t[1] == '-' && t[2] == 't' && t[3] == 'o' && t[4] == 'k' && t[5] == 'e' && t[6] == 'n';
  }

  lemma {:induction false} CommandLineShape(exe: string, serverUrl: string, token: string)
    ensures SessionAgentCommandLine(exe, serverUrl, token) ==
            Quoted(exe) + (" " + JoinQuoted(["--server-url", serverUrl, "--token", token]))
  {
    FlagsAreBare();
    var flag1, flag2 := "--server-url", "--token";
    JoinOneMore(flag1, [serverUrl, flag2, token]);
    JoinOneMore(serverUrl, [flag2, token]);
    JoinOneMore(flag2, [token]);
    assert [flag1] + [serverUrl, flag2, token] == [flag1, serverUrl, flag2, token];
    assert [serverUrl] + [flag2, token] == [serverUrl, flag2, token];
    assert [flag2] + [token] == [flag2, token];
    assert " --token " == " " + flag2 + " ";
    assert " --server-url " == " " + flag1 + " ";
    Regroup(Quoted(exe), " ", flag1, Quoted(serverUrl), flag2, Quoted(token));
  }

  lemma {:induction false} JoinOneMore(arg: string, args: seq<string>)
    requires args != []
    ensures JoinQuoted([arg] + args) == Quoted(arg) + " " + JoinQuoted(args)
  {
    assert ([arg] + args)[1..] == args;
  }

  lemma {:induction false} Regroup(e: string, b: string, f: string, u: string, g: string, t: string)
    ensures e + (b + f + b) + u + (b + g + b) + t == e + (b + (f + b + (u + b + (g + b + t))))
  {
  }

  lemma {:induction false} AllPartsHaveNoNul(line: string)
    ensures NoNuls(ParseCommandLine(line))
  {
    UntilNulIsClean(line);
    ProgramHasNoQuote(UntilNul(line), false);
    ParsedHaveNoNul(ScanProgram(UntilNul(line), false).1);
  }

  lemma {:induction false} AgentReadsNulFree(exe: string, args: seq<string>)
    requires NoNul(exe) && NoNuls(args)
    ensures ParseCommandLine(Quoted(exe) + (" " + JoinQuoted(args))) == [exe] + args <==> PlainProgramName(exe)
  {
    var rest := " " + JoinQuoted(args);
    var line := Quoted(exe) + rest;
    QuotedRestHasNoNul(exe, 0);
    JoinedHasNoNul(args);
    UntilNulIsClean(line);
    ScanProgramExactly(exe, rest);
    QuotingRoundTrip(args);
    assert ParseCommandLine(line)[0] == ScanProgram(line, false).0;
    assert ([exe] + args)[0] == exe;
  }

  /** The spawned agent sees the intended program name, server URL and token exactly when no part
      contains a NUL and the program path has no quote and no trailing backslash. */
  lemma {:induction false} AgentReadsItsArguments(exe: string, serverUrl: string, token: string)
    ensures ParseCommandLine(SessionAgentCommandLine(exe, serverUrl, token))
            == [exe, "--server-url", serverUrl, "--token", token]
            <==> PlainProgramName(exe) && NoNul(exe) && NoNul(serverUrl) && NoNul(token)
  {
    var args := ["--server-url", serverUrl, "--token", token];
    var expected := [exe, "--server-url", serverUrl, "--token", token];
    assert expected == [exe] + args;
    assert expected[0] == exe && expected[2] == serverUrl && expected[4] == token;
    FlagsHaveNoNul();
    CommandLineShape(exe, serverUrl, token);
    AllPartsHaveNoNul(SessionAgentCommandLine(exe, serverUrl, token));
    if NoNul(exe) && NoNul(serverUrl) && NoNul(token) {
      AgentReadsNulFree(exe, args);
    }
  }

  lemma {:induction false} FlagsHaveNoNul()
    ensures NoNul("--server-url") && NoNul("--token")
  {
    var u, t := "--server-url", "--token";
    assert u[0] == '-' && u[1] == '-' && u[2] == 's' && u[3] == 'e' && u[4] == 'r' && u[5] == 'v'
        && u[6] == 'e' && u[7] == 'r' && u[8] == '-' && u[9] == 'u' && u[10] == 'r' && u[11] == 'l';
    assert t[0] == '-' && t[1] == '-' && t[2] == 't' && t[3] == 'o' && t[4] == 'k' && t[5] == 'e' && t[6] == 'n';
  }
}
