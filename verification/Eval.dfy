/** From the line typed to what the shell does (shelllab/tsh.c, eval): the parse decides
    between a program, a built-in command and nothing, and bg and fg read their argument. */
module Eval {
  import opened Basics
  import opened ParseLine
  import opened ParseRoundTrip
  import JobTable
  import Shell
  import ShellCommands

  /** What eval does with a line. `Misuse`: a message and nothing else. `Unclear`: bg or fg goes on
      with a number that has never been set. */
  datatype Request = Nothing | Quit | Jobs | Misuse | Unclear | Does(command: Shell.Command)

  // ---- The argument of bg and fg ----

  /** What sscanf("%d") finds: a number, something else, or the end of the string first. */
  datatype Scanned = Number(n: int) | NoMatch | AtEnd

  predicate IsBlank(c: char) {
    c == ' ' || c == '\t' || c == '\n' || c == '\r' || c == '\U{000B}' || c == '\U{000C}'
  }

  predicate IsDigit(c: char) {
    '0' <= c <= '9'
  }

  function SkipBlanks(s: string): (r: string)
    ensures |r| <= |s|
  {
    if s != [] && IsBlank(s[0]) then SkipBlanks(s[1..]) else s
  }

  /** Reads decimal digits behind those already read. */
  function ReadDigits(s: string, n: nat): nat {
    if s != [] && IsDigit(s[0]) then ReadDigits(s[1..], 10 * n + (s[0] - '0') as nat) else n
  }

  function ReadInt(s: string): Scanned {
    var r := SkipBlanks(s);
    if r == [] then AtEnd
    else
      var digits := if r[0] == '-' || r[0] == '+' then r[1..] else r;
      if digits == [] || !IsDigit(digits[0]) then NoMatch
      else
        var n: int := ReadDigits(digits, 0);
        Number(if r[0] == '-' then -n else n)
  }

  /** bg and fg take `%` and a jid, or a pid. The result of a scan that hits the end of the
      string counts as success. */
  function BackFore(arg: string, background: bool): Request {
    var byJid := arg != [] && arg[0] == '%';
    match ReadInt(if byJid then arg[1..] else arg)
    case Number(n) => Does(Shell.Builtin(if byJid then Shell.ByJid(n) else Shell.ByPid(n), background))
    case NoMatch => Misuse
    case AtEnd => Unclear
  }

  function Decided(line: string, p: Parsed): Request {
    match p
    case Error => Nothing
    case Empty => Nothing
    case Line(argv, _, _, builtin, background) =>
      match builtin
      case BuiltinQuit => Quit
      case BuiltinJobs => Jobs
      case BuiltinBg => if |argv| < 2 then Misuse else BackFore(argv[1], true)
      case BuiltinFg => if |argv| < 2 then Misuse else BackFore(argv[1], false)
      case BuiltinNone => Does(Shell.Fork(if background then JobTable.BG else JobTable.FG, line))
  }

  /** The code of eval: parses, and looks at the status and the record. */
  method Decide(line: string, token: Tokens) returns (request: Request)
    requires token.Shape() && NoNul(line)
    modifies token, token.argv, token.buf
    ensures request == Decided(line, Parse(line))
  {
    var status := Run(Some(line), token);
    if status == StatusError || status == StatusEmpty {
      return Nothing;
    }
    var state := JobTable.UNDEF;
    if status == StatusFg {
      state := JobTable.FG;
    }
    if status == StatusBg {
      state := JobTable.BG;
    }
    if token.builtin == BuiltinNone {
      return Does(Shell.Fork(state, line));
    }
    if token.builtin == BuiltinQuit {
      return Quit;
    }
    if token.builtin == BuiltinJobs {
      return Jobs;
    }
    var background := token.builtin == BuiltinBg;
    if token.argv[1] == None {
      return Misuse;
    }
    request := BackFore(CStr(token.buf[..], token.argv[1].value), background);
  }

  // ---- What is asked for is what is done ----

  /** The decimal digits of a number. */
  function Digits(n: nat): (s: string)
    ensures s != []
  {
    (if n < 10 then [] else Digits(n / 10)) + ["0123456789"[n % 10]]
  }

  lemma OneDigit(d: nat)
    requires d < 10
    ensures var c := "0123456789"[d]; IsDigit(c) && (c - '0') as nat == d
  {
    assert "0123456789" == ['0', '1', '2', '3', '4', '5', '6', '7', '8', '9'];
  }

  lemma {:induction false} DigitsRead(n: nat, rest: string)
    ensures IsDigit(Digits(n)[0]) && ReadDigits(Digits(n) + rest, 0) == ReadDigits(rest, n)
    decreases n
  {
    var d := "0123456789"[n % 10];
    OneDigit(n % 10);
    assert ([d] + rest)[1..] == rest;
    if n < 10 {
      assert Digits(n) == [d];
    } else {
      assert Digits(n) + rest == Digits(n / 10) + ([d] + rest);
      DigitsRead(n / 10, [d] + rest);
    }
  }

  lemma NumberRead(n: nat)
    ensures ReadInt(Digits(n)) == Number(n) && ReadInt("-" + Digits(n)) == Number(0 - n)
  {
    DigitsRead(n, []);
    assert Digits(n) + [] == Digits(n) && ("-" + Digits(n))[1..] == Digits(n);
  }

  /** A jid behind `%` names a job by its jid, and a number alone a process. */
  lemma NumbersName(n: nat, background: bool)
    ensures BackFore("%" + Digits(n), background) == Does(Shell.Builtin(Shell.ByJid(n), background))
    ensures BackFore(Digits(n), background) == Does(Shell.Builtin(Shell.ByPid(n), background))
    ensures BackFore("-" + Digits(n), background) == Does(Shell.Builtin(Shell.ByPid(0 - n), background))
  {
    NumberRead(n);
    DigitsRead(n, []);
    assert ("%" + Digits(n))[1..] == Digits(n) && ("-" + Digits(n))[0] == '-';
  }

  /** An argument of nothing but white space, behind `%` or alone, is taken for a number. */
  lemma UnclearExactly(arg: string, background: bool)
    ensures BackFore(arg, background) == Unclear <==>
            AllBlank(if arg != [] && arg[0] == '%' then arg[1..] else arg)
  {
    BlanksSkipped(if arg != [] && arg[0] == '%' then arg[1..] else arg);
  }

  /** White space, at most one sign, and then anything but a digit: no number. */
  lemma NoNumberIsMisuse(gap: string, sign: string, c: char, more: string, background: bool)
    requires AllBlank(gap) && sign in ["", "-", "+"] && c !in "0123456789"
    requires sign == "" ==> !AllBlank([c]) && c !in "+-"
    ensures BackFore("%" + (gap + (sign + ([c] + more))), background) == Misuse
    ensures gap != [] || sign != "" || c != '%' ==> BackFore(gap + (sign + ([c] + more)), background) == Misuse
  {
    var s := sign + ([c] + more);
    GapSkipped(gap, s);
    NoDigit(c);
    assert "+-" == ['+', '-'] && ("%" + (gap + s))[1..] == gap + s;
    assert sign == "" ==> s[0] == c && !IsBlank(c);
    assert sign != "" ==> s[0] == sign[0] && s[1..] == [c] + more;
    assert SkipBlanks(s) == s;
    if gap != [] { assert (gap + s)[0] == gap[0] && gap[0] in " \t\n\r\U{000B}\U{000C}"; }
  }

  lemma NoDigit(c: char)
    ensures IsDigit(c) <==> c in "0123456789"
    ensures IsBlank(c) <==> AllBlank([c])
  {
    assert "0123456789" == ['0', '1', '2', '3', '4', '5', '6', '7', '8', '9'];
    assert " \t\n\r\U{000B}\U{000C}" == [' ', '\t', '\n', '\r', '\U{000B}', '\U{000C}'];
    assert AllBlank([c]) <==> [c][0] in " \t\n\r\U{000B}\U{000C}";
  }

  lemma {:induction false} GapSkipped(gap: string, s: string)
    requires AllBlank(gap)
    ensures SkipBlanks(gap + s) == SkipBlanks(s)
  {
    if gap == [] {
      assert gap + s == s;
    } else {
      NoDigit(gap[0]);
      assert (gap + s)[0] == gap[0] && (gap + s)[1..] == gap[1..] + s;
      GapSkipped(gap[1..], s);
    }
  }

  predicate AllBlank(s: string) {
    forall k :: 0 <= k < |s| ==> s[k] in " \t\n\r\U{000B}\U{000C}"
  }

  lemma {:induction false} BlanksSkipped(s: string)
    ensures SkipBlanks(s) == [] <==> AllBlank(s)
  {
    assert " \t\n\r\U{000B}\U{000C}" == [' ', '\t', '\n', '\r', '\U{000B}', '\U{000C}'];
    if s != [] {
      assert s == [s[0]] + s[1..];
      BlanksSkipped(s[1..]);
    }
  }

  /** A printed command asks for what its words say: four names are the shell's own, and any
      other is a program, in the background exactly when the command is. */
  lemma PrintedIsDecided(items: seq<Item>, tail: string, c: Command)
    requires Says(items, c) && (c.args != [] || c.background) && !EndsInMarker(c)
    requires Readable(items, NOTHING) && AllSpace(tail) && |Print(items, tail)| <= 1023
    ensures var line := Print(items, tail); Asks(c, line, Decided(line, Parse(line)))
  {
    RoundTrip(items, tail, c);
    MeaningIsDecided(c, Print(items, tail));
  }

  /** What the words of a command ask for. */
  predicate Asks(c: Command, line: string, request: Request) {
    var name := if c.args == [] then "" else c.args[0].text;
    && (name == "quit" ==> request == Quit)
    && (name == "jobs" ==> request == Jobs)
    && (name == "bg" ==> request == if |c.args| == 1 then Misuse else BackFore(c.args[1].text, true))
    && (name == "fg" ==> request == if |c.args| == 1 then Misuse else BackFore(c.args[1].text, false))
    && (name !in {"quit", "jobs", "bg", "fg"} ==>
          request == Does(Shell.Fork(if c.background then JobTable.BG else JobTable.FG, line)))
  }

  lemma MeaningIsDecided(c: Command, line: string)
    ensures Asks(c, line, Decided(line, Meaning(c)))
  {
    var m := Meaning(c);
    if |c.args| > 1 { assert m.argv[1] == c.args[1].text; }
    if c.args != [] { assert m.builtin == Kind(c.args[0].text); }
  }

  /** A program typed at the prompt gets a job under the line that was typed, and the shell
      waits for it exactly when the line did not end in `&`. */
  lemma TypedProgramRuns(s: Shell.State, items: seq<Item>, tail: string, c: Command, pid: int)
    requires Says(items, c) && (c.args != [] || c.background) && !EndsInMarker(c)
    requires Readable(items, NOTHING) && AllSpace(tail) && |Print(items, tail)| <= 1023
    requires c.args == [] || c.args[0].text !in {"quit", "jobs", "bg", "fg"}
    requires ShellCommands.AtPrompt(s) && pid > 0 && pid !in s.kids.children
    requires |s.table.jobs| == JobTable.MAXJOBS && s.table.nextjid <= JobTable.MAXJOBS
    ensures var line, x := Print(items, tail), if c.background then JobTable.BG else JobTable.FG;
            var events := ShellCommands.Starts(x, line, pid);
            && Decided(line, Parse(line)) == Does(Shell.Fork(x, line))
            && events[0] == Shell.M(Shell.ReadCommand(Shell.Fork(x, line))) && Shell.Feasible(s, events)
            && var s' := Shell.Exec(s, events);
               |s'.table.jobs| == JobTable.MAXJOBS && ShellCommands.Launched(s, s', pid, x, line)
  {
    PrintedIsDecided(items, tail, c);
    ShellCommands.CommandStarts(s, if c.background then JobTable.BG else JobTable.FG, Print(items, tail), pid);
  }
}
