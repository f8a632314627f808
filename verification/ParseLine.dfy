/** The command-line parser of the shell (shelllab/tsh_helper.c): a tokenizer that cuts its
    copy of the line into strings in place. */
module ParseLine {
  import opened Basics

  const MAXLINE: nat := 1024
  const MAXARGS: nat := 128
  const NUL: char := '\0'

  /** A pointer into the buffer, as the index it points at, or NULL. */
  type Pointer = Option<nat>

  datatype Builtin = BuiltinNone | BuiltinQuit | BuiltinJobs | BuiltinBg | BuiltinFg

  /** What a parse means: the strings it found and the kind of job. */
  datatype Parsed =
    | Error
    | Empty
    | Line(argv: seq<string>, infile: Option<string>, outfile: Option<string>, builtin: Builtin, background: bool)

  // ---- The grammar, on strings ----

  predicate IsSpace(c: char) {
    c == ' ' || c == '\t' || c == '\r' || c == '\n'
  }

  predicate IsQuote(c: char) {
    c == '\'' || c == '\"'
  }

  /** Length of the leading white space. */
  function Spaces(r: string): (n: nat)
    ensures n <= |r|
  {
    if r == [] || !IsSpace(r[0]) then 0 else 1 + Spaces(r[1..])
  }

  /** Length of the leading run without white space. */
  function Span(r: string): (n: nat)
    ensures n <= |r|
  {
    if r == [] || IsSpace(r[0]) then 0 else 1 + Span(r[1..])
  }

  /** Position of the first `c`, or |r|. */
  function Find(r: string, c: char): (n: nat)
    ensures n <= |r|
  {
    if r == [] || r[0] == c then 0 else 1 + Find(r[1..], c)
  }

  datatype Mode = Normal | InFile | OutFile

  datatype Found = Found(argv: seq<string>, infile: Option<string>, outfile: Option<string>, mode: Mode)

  const NOTHING := Found([], None, None, Normal)

  function Record(f: Found, text: string): Found {
    match f.mode
    case Normal => f.(argv := f.argv + [text])
    case InFile => f.(infile := Some(text), mode := Normal)
    case OutFile => f.(outfile := Some(text), mode := Normal)
  }

  /** The next word of `r`, which starts with neither white space nor a redirection: its
      text and what follows the character that ends it. No word means an open quote. */
  function Word(r: string): (w: Option<(string, string)>)
    requires r != []
    ensures w.Some? ==> |w.value.1| < |r|
  {
    if IsQuote(r[0]) then
      var k := Find(r[1..], r[0]);
      if k == |r| - 1 then None else Some((r[1..1 + k], r[k + 2..]))
    else
      var k := Span(r);
      Some((r[..k], if k < |r| then r[k + 1..] else []))
  }

  function Scan(r: string, f: Found): Option<Found>
    decreases |r|
  {
    var r1 := r[Spaces(r)..];
    if r1 == [] then Some(f)
    else if r1[0] == '<' then
      if f.infile.Some? then None else Scan(r1[1..], f.(mode := InFile))
    else if r1[0] == '>' then
      if f.outfile.Some? then None else Scan(r1[1..], f.(mode := OutFile))
    else
      match Word(r1)
      case None => None
      case Some((text, rest)) =>
        var f' := Record(f, text);
        if |f'.argv| >= MAXARGS - 1 then Some(f') else Scan(rest, f')
  }

  function BuiltinOf(arg: string): Builtin {
    if arg == "quit" then BuiltinQuit
    else if arg == "jobs" then BuiltinJobs
    else if arg == "bg" then BuiltinBg
    else if arg == "fg" then BuiltinFg
    else BuiltinNone
  }

  predicate StartsWithAmpersand(arg: string) {
    arg != [] && arg[0] == '&'
  }

  function Conclude(f: Option<Found>): Parsed {
    match f
    case None => Error
    case Some(f) =>
      if f.mode != Normal then Error
      else if f.argv == [] then Empty
      else
        var n := |f.argv| - 1;
        var bg := StartsWithAmpersand(f.argv[n]);
        Line(if bg then f.argv[..n] else f.argv, f.infile, f.outfile, BuiltinOf(f.argv[0]), bg)
  }

  /** The line as far as it fits the buffer. */
  function Fitting(cmdline: string): (r: string)
    ensures |r| < MAXLINE && r <= cmdline
    ensures |r| == |cmdline| || |r| == MAXLINE - 1
  {
    if |cmdline| < MAXLINE then cmdline else cmdline[..MAXLINE - 1]
  }

  function Parse(cmdline: string): Parsed {
    Conclude(Scan(Fitting(cmdline), NOTHING))
  }

  // ---- The parser, in place ----

  /** The C string at position `a` of a buffer. */
  function CStr(b: seq<char>, a: nat): string
    decreases |b| - a
  {
    if a >= |b| || b[a] == NUL then [] else [b[a]] + CStr(b, a + 1)
  }

  predicate NoNul(s: string) {
    forall k :: 0 <= k < |s| ==> s[k] != NUL
  }

  /** The text `t` sits at `a`, ended by a NUL, entirely before position `i`. */
  predicate Holds(b: seq<char>, a: nat, t: string, i: nat) {
    a + |t| < i && a + |t| < |b| && b[a..a + |t|] == t && b[a + |t|] == NUL && NoNul(t)
  }

  lemma {:induction false} HeldIsCStr(b: seq<char>, a: nat, t: string, i: nat)
    requires Holds(b, a, t, i)
    ensures CStr(b, a) == t
    decreases |t|
  {
    if t != [] {
      assert b[a] == t[0] by { assert b[a..a + |t|][0] == t[0]; }
      assert b[a + 1..a + 1 + |t[1..]|] == t[1..] by { assert b[a..a + |t|][1..] == t[1..]; }
      HeldIsCStr(b, a + 1, t[1..], i);
    }
  }

  /** Behind what has been cut, the C string at a position is the rest of the line: the NULs
      written so far do not end later scans early. */
  lemma {:induction false} CStrIsRest(b: seq<char>, i: nat, line: string)
    requires Unread(b, i, line) && NoNul(line)
    ensures CStr(b, i) == Rest(line, i)
    decreases |b| - i
  {
    if i < |line| {
      assert b[i] == line[i];
      CStrIsRest(b, i + 1, line);
      assert line[i..] == [line[i]] + Rest(line, i + 1);
    }
  }

  datatype Status = StatusFg | StatusBg | StatusEmpty | StatusError

  /** The result record: pointers are positions in its own buffer. */
  class Tokens {
    var argc: nat
    const argv: array<Pointer>
    var infile: Pointer
    var outfile: Pointer
    var builtin: Builtin
    const buf: array<char>

    constructor ()
      ensures fresh(argv) && fresh(buf) && Shape()
    {
      argc, infile, outfile, builtin := 0, None, None, BuiltinNone;
      argv := new Pointer[MAXARGS](_ => None);
      buf := new char[MAXLINE](_ => NUL);
    }

    predicate Shape() {
      argv.Length == MAXARGS && buf.Length == MAXLINE
    }
  }

  /** A pointer stands for an optional string. */
  predicate Points(b: seq<char>, p: Pointer, t: Option<string>, i: nat) {
    (p.Some? <==> t.Some?) && (p.Some? ==> Holds(b, p.value, t.value, i))
  }

  /** The pointers recorded so far stand for the strings found so far, behind position `i`. */
  predicate Stands(b: seq<char>, argv: seq<Pointer>, argc: nat, infile: Pointer, outfile: Pointer,
                   f: Found, i: nat)
  {
    && argc == |f.argv| <= |argv|
    && (forall n :: 0 <= n < argc ==> argv[n].Some? && Holds(b, argv[n].value, f.argv[n], i))
    && Points(b, infile, f.infile, i)
    && Points(b, outfile, f.outfile, i)
  }

  /** From position `i` on the buffer is still the line, then NULs. */
  predicate Unread(b: seq<char>, i: nat, line: string) {
    |line| < |b| == MAXLINE
    && forall k :: i <= k < |b| ==> b[k] == if k < |line| then line[k] else NUL
  }

  /** What is left of the line from position `i`. */
  function Rest(line: string, i: nat): string {
    if i < |line| then line[i..] else []
  }

  /** The recorded pointers survive any change of the buffer at or after `i`. */
  lemma StandsLater(b: seq<char>, b': seq<char>, argv: seq<Pointer>, argc: nat, infile: Pointer,
                    outfile: Pointer, f: Found, i: nat, i': nat)
    requires Stands(b, argv, argc, infile, outfile, f, i) && i <= i' && |b'| == |b|
    requires forall k :: 0 <= k < i && k < |b| ==> b'[k] == b[k]
    ensures Stands(b', argv, argc, infile, outfile, f, i')
  {
    forall a: nat, t: string | Holds(b, a, t, i) ensures Holds(b', a, t, i') {
      assert b'[a..a + |t|] == b[a..a + |t|];
    }
  }

  /** Cutting the word at `a` of length `n` out of the unread line. */
  lemma CutHolds(b: seq<char>, line: string, a: nat, n: nat)
    requires Unread(b, a, line) && NoNul(line) && a + n <= |line|
    ensures Holds(b[a + n := NUL], a, line[a..a + n], a + n + 1)
    ensures Unread(b[a + n := NUL], a + n + 1, line)
  {
    var b' := b[a + n := NUL];
    assert b'[a..a + n] == line[a..a + n];
  }

  /** One word of the scan, in positions: where its text starts, its length. */
  function WordAt(line: string, i: nat): (r: Option<(nat, nat)>)
    requires i < |line|
    ensures r.Some? ==> i <= r.value.0 && r.value.0 + r.value.1 <= |line|
  {
    if IsQuote(line[i]) then
      var k := Find(line[i + 1..], line[i]);
      if i + 1 + k == |line| then None else Some((i + 1, k))
    else Some((i, Span(line[i..])))
  }

  lemma WordAtIsWord(line: string, i: nat)
    requires i < |line|
    ensures var w, p := Word(line[i..]), WordAt(line, i);
            && (w.None? <==> p.None?)
            && (w.Some? ==> w.value.0 == line[p.value.0..p.value.0 + p.value.1]
                            && w.value.1 == Rest(line, p.value.0 + p.value.1 + 1))
  {
    var r := line[i..];
    assert r[1..] == line[i + 1..] && r[0] == line[i];
    if IsQuote(line[i]) {
      var k := Find(r[1..], r[0]);
      if k < |r| - 1 {
        assert r[1..1 + k] == line[i + 1..i + 1 + k];
        assert r[k + 2..] == line[i + k + 2..];
      }
    } else {
      var k := Span(r);
      assert r[..k] == line[i..i + k];
      if k < |r| { assert r[k + 1..] == line[i + k + 1..]; }
    }
  }

  /** What the caller finds after a parse with result `p`: a status, and pointers into the
      buffer `b` at exactly the strings of `p`. */
  predicate Describes(status: Status, p: Parsed, b: seq<char>, argv: seq<Pointer>, argc: nat,
                      infile: Pointer, outfile: Pointer, builtin: Builtin) {
    match p
    case Error => status == StatusError
    case Empty => status == StatusEmpty
    case Line(args, inf, outf, kind, bg) =>
      && status == (if bg then StatusBg else StatusFg)
      && |argv| == MAXARGS && argc == |args| < MAXARGS && argv[argc] == None
      && (forall n :: 0 <= n < argc ==> argv[n].Some? && CStr(b, argv[n].value) == args[n])
      && (infile.Some? <==> inf.Some?) && (inf.Some? ==> CStr(b, infile.value) == inf.value)
      && (outfile.Some? <==> outf.Some?) && (outf.Some? ==> CStr(b, outfile.value) == outf.value)
      && builtin == kind
  }

  predicate Reports(status: Status, p: Parsed, token: Tokens)
    reads token, token.argv, token.buf
  {
    Describes(status, p, token.buf[..], token.argv[..], token.argc, token.infile, token.outfile, token.builtin)
  }

  /** One round of the scan, in positions. */
  datatype Round = Done(result: Option<Found>) | Next(i: nat, f: Found)

  function RoundAt(line: string, i: nat, f: Found): (r: Round)
    requires i < |line|
    ensures r.Next? ==> i < r.i <= |line| + 1
  {
    var j := i + Spaces(line[i..]);
    if j == |line| then Done(Some(f)) else RoundFrom(line, j, f)
  }

  /** The round once the white space has been skipped. */
  function RoundFrom(line: string, j: nat, f: Found): (r: Round)
    requires j < |line|
    ensures r.Next? ==> j < r.i <= |line| + 1
  {
    if line[j] == '<' then if f.infile.Some? then Done(None) else Next(j + 1, f.(mode := InFile))
    else if line[j] == '>' then if f.outfile.Some? then Done(None) else Next(j + 1, f.(mode := OutFile))
    else RoundWord(line, WordAt(line, j), f)
  }

  function RoundWord(line: string, w: Option<(nat, nat)>, f: Found): (r: Round)
    requires w.Some? ==> w.value.0 + w.value.1 <= |line|
    ensures w.Some? && r.Next? ==> r.i == w.value.0 + w.value.1 + 1
    ensures w.None? ==> r == Done(None)
  {
    if w.None? then Done(None)
    else
      var f' := Record(f, line[w.value.0..w.value.0 + w.value.1]);
      if |f'.argv| >= MAXARGS - 1 then Done(Some(f')) else Next(w.value.0 + w.value.1 + 1, f')
  }

  /** What the scan still finds after a round. */
  function After(line: string, r: Round): Option<Found> {
    match r
    case Done(result) => result
    case Next(i, f) => Scan(Rest(line, i), f)
  }

  function AfterWord(w: Option<(string, string)>, f: Found): Option<Found> {
    if w.None? then None
    else
      var f' := Record(f, w.value.0);
      if |f'.argv| >= MAXARGS - 1 then Some(f') else Scan(w.value.1, f')
  }

  /** The scan goes round by round. */
  lemma RoundIsScan(line: string, i: nat, f: Found)
    requires i < |line|
    ensures Scan(Rest(line, i), f) == After(line, RoundAt(line, i, f))
  {
    SkipSpaces(line, i, Rest(line, i));
    ScanRound(line, Rest(line, i), i + Spaces(line[i..]), f, RoundAt(line, i, f));
  }

  lemma SkipSpaces(line: string, i: nat, r: string)
    requires i < |line| && r == Rest(line, i)
    ensures Spaces(r) == Spaces(line[i..]) && r[Spaces(r)..] == line[i + Spaces(line[i..])..]
  {
  }

  lemma ScanRound(line: string, r: string, j: nat, f: Found, round: Round)
    requires j <= |line| && r[Spaces(r)..] == line[j..]
    requires round == if j == |line| then Done(Some(f)) else RoundFrom(line, j, f)
    ensures Scan(r, f) == After(line, round)
  {
    if j == |line| { ScanEnd(r, f); } else { ScanFrom(line, r, j, f, round); }
  }

  /** The scan of a line with something left, from the first character that counts. */
  lemma ScanFrom(line: string, r: string, j: nat, f: Found, round: Round)
    requires j < |line| && r[Spaces(r)..] == line[j..] && round == RoundFrom(line, j, f)
    ensures Scan(r, f) == After(line, round)
  {
    if line[j] == '<' || line[j] == '>' {
      ScanRedirection(r, line[j..], f);
      RedirectionRound(line, j, f);
    } else {
      ScanWord(r, line[j..], f);
      WordFrom(line, j, f, round);
    }
  }

  lemma WordFrom(line: string, j: nat, f: Found, round: Round)
    requires j < |line| && round == RoundWord(line, WordAt(line, j), f)
    ensures AfterWord(Word(line[j..]), f) == After(line, round)
  {
    WordAtIsWord(line, j);
    WordRound(line, Word(line[j..]), WordAt(line, j), f);
  }

  /** The scan of a line with nothing left but white space. */
  lemma ScanEnd(r: string, f: Found)
    requires r[Spaces(r)..] == []
    ensures Scan(r, f) == Some(f)
  {
  }

  function AfterRedirection(r1: string, f: Found): Option<Found>
    requires r1 != []
  {
    if r1[0] == '<' then if f.infile.Some? then None else Scan(r1[1..], f.(mode := InFile))
    else if f.outfile.Some? then None else Scan(r1[1..], f.(mode := OutFile))
  }

  /** The scan of a line that goes on with a redirection. */
  lemma ScanRedirection(r: string, r1: string, f: Found)
    requires r1 == r[Spaces(r)..] && r1 != [] && (r1[0] == '<' || r1[0] == '>')
    ensures Scan(r, f) == AfterRedirection(r1, f)
  {
  }

  lemma RedirectionRound(line: string, j: nat, f: Found)
    requires j < |line| && (line[j] == '<' || line[j] == '>')
    ensures AfterRedirection(line[j..], f) == After(line, RoundFrom(line, j, f))
  {
    assert line[j..][1..] == Rest(line, j + 1) && line[j..][0] == line[j];
  }

  /** The scan of a line that goes on with a word. */
  lemma ScanWord(r: string, r1: string, f: Found)
    requires r1 == r[Spaces(r)..] && r1 != [] && r1[0] != '<' && r1[0] != '>'
    ensures Scan(r, f) == AfterWord(Word(r1), f)
  {
  }

  lemma WordRound(line: string, w: Option<(string, string)>, p: Option<(nat, nat)>, f: Found)
    requires (w.None? <==> p.None?) && (p.Some? ==> p.value.0 + p.value.1 <= |line|)
    requires w.Some? ==> w.value.0 == line[p.value.0..p.value.0 + p.value.1]
                         && w.value.1 == Rest(line, p.value.0 + p.value.1 + 1)
    ensures AfterWord(w, f) == After(line, RoundWord(line, p, f))
  {
  }

  /** Recording the text at `start` in the place the mode says. */
  lemma RecordStands(b: seq<char>, argv: seq<Pointer>, argc: nat, infile: Pointer, outfile: Pointer,
                     f: Found, i: nat, start: nat, text: string)
    requires Stands(b, argv, argc, infile, outfile, f, i) && Holds(b, start, text, i) && argc < |argv|
    ensures f.mode == Normal ==>
              Stands(b, argv[argc := Some(start)], argc + 1, infile, outfile, Record(f, text), i)
    ensures f.mode == InFile ==> Stands(b, argv, argc, Some(start), outfile, Record(f, text), i)
    ensures f.mode == OutFile ==> Stands(b, argv, argc, infile, Some(start), Record(f, text), i)
  {
  }

  /** Cuts one word out of the buffer and records where it starts. */
  method Keep(token: Tokens, mode: Mode, start: nat, next: nat, ghost line: string, ghost f: Found, ghost i: nat)
    requires token.Shape() && NoNul(line) && i <= start <= next <= |line| && f.mode == mode && |f.argv| < MAXARGS - 1
    requires Unread(token.buf[..], i, line)
    requires Stands(token.buf[..], token.argv[..], token.argc, token.infile, token.outfile, f, i)
    modifies token, token.argv, token.buf
    ensures Unread(token.buf[..], next + 1, line)
    ensures Stands(token.buf[..], token.argv[..], token.argc, token.infile, token.outfile,
                   Record(f, line[start..next]), next + 1)
  {
    ghost var b, argv := token.buf[..], token.argv[..];
    ghost var b' := b[next := NUL];
    CutHolds(b, line, start, next - start);
    StandsLater(b, b', argv, token.argc, token.infile, token.outfile, f, i, next + 1);
    RecordStands(b', argv, token.argc, token.infile, token.outfile, f, next + 1, start, line[start..next]);
    token.buf[next] := NUL;
    assert token.buf[..] == b';
    match mode {
      case Normal =>
        token.argv[token.argc] := Some(start);
        assert token.argv[..] == argv[token.argc := Some(start)];
        token.argc := token.argc + 1;
      case InFile => token.infile := Some(start);
      case OutFile => token.outfile := Some(start);
    }
  }

  /** What the loop knows between two rounds. */
  predicate Progress(line: string, token: Tokens, f: Found, mode: Mode, i: nat)
    reads token, token.argv, token.buf
  {
    && token.Shape() && i <= |line| + 1 && f.mode == mode
    && Unread(token.buf[..], i, line)
    && Stands(token.buf[..], token.argv[..], token.argc, token.infile, token.outfile, f, i)
  }

  lemma ProgressLater(line: string, token: Tokens, f: Found, i: nat, mode': Mode, i': nat)
    requires Progress(line, token, f, f.mode, i) && i <= i' <= |line| + 1
    ensures Progress(line, token, f.(mode := mode'), mode', i')
  {
    StandsLater(token.buf[..], token.buf[..], token.argv[..], token.argc, token.infile, token.outfile, f, i, i');
  }

  /** Where the word at `i` starts and ends, found in the buffer: behind an opening quote up
      to the same quote (strchr), else up to white space or the end (strcspn). No end means
      an open quote. */
  method FindWord(buf: array<char>, i: nat, ghost line: string) returns (start: nat, next: nat, open: bool)
    requires i < |line| && NoNul(line) && Unread(buf[..], i, line)
    ensures start == if IsQuote(line[i]) then i + 1 else i
    ensures open <==> WordAt(line, i) == None
    ensures !open ==> WordAt(line, i) == Some((start, next - start)) && start <= next
  {
    var c := buf[i];
    assert c == line[i];
    open := false;
    if IsQuote(c) {
      start := i + 1;
      var text := CStr(buf[..], start);
      CStrIsRest(buf[..], start, line);
      assert Rest(line, start) == line[i + 1..];
      var k := Find(text, c);
      next := start + k;
      open := k == |text|;
    } else {
      start := i;
      CStrIsRest(buf[..], start, line);
      next := start + Span(CStr(buf[..], start));
    }
  }

  /** How a round ends: `i` moves on, or the loop ends (`stop`) with or without an error. */
  predicate Ends(r: Round, stop: bool, ok: bool, i: nat, f: Found) {
    (!stop ==> ok) && r == if !stop then Next(i, f) else if ok then Done(Some(f)) else Done(None)
  }

  /** A redirection: the next word will name its file. */
  method TakeRedirection(token: Tokens, mode: Mode, i: nat, ghost line: string, ghost f: Found)
    returns (stop: bool, ok: bool, mode': Mode, i': nat, ghost f': Found)
    requires Progress(line, token, f, mode, i) && i < |line| && (line[i] == '<' || line[i] == '>')
    ensures Ends(RoundFrom(line, i, f), stop, ok, i', f')
    ensures ok ==> Progress(line, token, f', mode', i')
  {
    stop, ok, mode', f', i' := false, true, mode, f, i;
    assert token.buf[..][i] == line[i];
    if token.buf[i] == '<' {
      if token.infile.Some? {
        stop, ok := true, false;
        return;
      }
      ProgressLater(line, token, f, i, InFile, i + 1);
      mode', f', i' := InFile, f.(mode := InFile), i + 1;
    } else {
      if token.outfile.Some? {
        stop, ok := true, false;
        return;
      }
      ProgressLater(line, token, f, i, OutFile, i + 1);
      mode', f', i' := OutFile, f.(mode := OutFile), i + 1;
    }
  }

  /** A word: it is cut out and recorded. */
  method TakeWord(token: Tokens, mode: Mode, i: nat, ghost line: string, ghost f: Found)
    returns (stop: bool, ok: bool, mode': Mode, i': nat, ghost f': Found)
    requires Progress(line, token, f, mode, i) && i < |line| && NoNul(line) && token.argc < MAXARGS - 1
    modifies token, token.argv, token.buf
    ensures Ends(RoundWord(line, WordAt(line, i), f), stop, ok, i', f')
    ensures ok ==> Progress(line, token, f', mode', i')
    ensures token.argc < MAXARGS && (!stop ==> token.argc < MAXARGS - 1)
  {
    stop, ok, mode', f', i' := false, true, mode, f, i;
    var start, next, open := FindWord(token.buf, i, line);
    if open {
      stop, ok := true, false;
      return;
    }
    Keep(token, mode, start, next, line, f, i);
    mode', f', i' := Normal, Record(f, line[start..next]), next + 1;
    stop := token.argc >= MAXARGS - 1;
  }

  /** One round of the loop. Everything is read from the buffer; `line` is what the buffer
      held at first. */
  method TakeToken(token: Tokens, endbuf: nat, mode: Mode, i: nat, ghost line: string, ghost f: Found)
    returns (stop: bool, ok: bool, mode': Mode, i': nat, ghost f': Found)
    requires Progress(line, token, f, mode, i) && i < endbuf == |line| && NoNul(line) && token.argc < MAXARGS - 1
    modifies token, token.argv, token.buf
    ensures Ends(RoundAt(line, i, f), stop, ok, i', f')
    ensures ok ==> Progress(line, token, f', mode', i')
    ensures token.argc < MAXARGS && (!stop ==> token.argc < MAXARGS - 1)
  {
    var at := i + Spaces(CStr(token.buf[..], i));
    assert at == i + Spaces(line[i..]) by { CStrIsRest(token.buf[..], i, line); }
    assert Progress(line, token, f, mode, at) by { ProgressLater(line, token, f, i, mode, at); }
    if at >= endbuf {
      stop, ok, mode', f', i' := true, true, mode, f, at;
      return;
    }
    assert token.buf[..][at] == line[at];
    if token.buf[at] == '<' || token.buf[at] == '>' {
      stop, ok, mode', i', f' := TakeRedirection(token, mode, at, line, f);
    } else {
      stop, ok, mode', i', f' := TakeWord(token, mode, at, line, f);
    }
  }

  /** Builds the argument list from the line in the buffer; `found` is what it has found,
      None for a malformed line. */
  method Tokenize(token: Tokens, ghost line: string)
    returns (ghost found: Option<Found>, ok: bool, mode: Mode, ghost i: nat)
    requires token.Shape() && NoNul(line) && Unread(token.buf[..], 0, line)
    modifies token, token.argv, token.buf
    ensures found == Scan(line, NOTHING) && (ok <==> found.Some?)
    ensures ok ==> Progress(line, token, found.value, mode, i)
    ensures token.argc < MAXARGS
  {
    CStrIsRest(token.buf[..], 0, line);
    assert Rest(line, 0) == line;
    var endbuf := |CStr(token.buf[..], 0)|;
    token.argc, token.infile, token.outfile := 0, None, None;
    mode := Normal;
    var at, stop := 0, false;
    ok := true;
    ghost var f := NOTHING;
    while at < endbuf
      invariant Progress(line, token, f, mode, at) && token.argc < MAXARGS - 1
      invariant Scan(line, NOTHING) == Scan(Rest(line, at), f)
      decreases endbuf - at
    {
      RoundIsScan(line, at, f);
      stop, ok, mode, at, f := TakeToken(token, endbuf, mode, at, line, f);
      if stop {
        return if ok then Some(f) else None, ok, mode, at;
      }
    }
    return Some(f), true, mode, at;
  }

  /** Copies a line into the buffer (strncpy): at most MAXLINE characters, the rest NUL, and the
      last one NUL in any case. */
  method CopyLine(cmdline: string, buf: array<char>)
    requires buf.Length == MAXLINE
    modifies buf
    ensures Unread(buf[..], 0, Fitting(cmdline))
  {
    for k := 0 to MAXLINE
      invariant forall j :: 0 <= j < k ==> buf[j] == if j < |cmdline| then cmdline[j] else NUL
    {
      buf[k] := if k < |cmdline| then cmdline[k] else NUL;
    }
    buf[MAXLINE - 1] := NUL;
  }

  /** Parses a command line. Whatever the line, the record describes exactly the strings the
      grammar finds, and the argument list stays within its array. */
  method Run(cmdline: Option<string>, token: Tokens) returns (status: Status)
    requires token.Shape() && (cmdline.Some? ==> NoNul(cmdline.value))
    modifies token, token.argv, token.buf
    ensures cmdline == None ==> status == StatusEmpty
    ensures cmdline.Some? ==> Reports(status, Parse(cmdline.value), token) && token.argc < MAXARGS
  {
    if cmdline == None {
      return StatusEmpty;
    }
    CopyLine(cmdline.value, token.buf);
    ghost var line, found, i := Fitting(cmdline.value), None, 0;
    var ok, mode;
    found, ok, mode, i := Tokenize(token, line);
    if !ok {
      return StatusError;
    }
    if mode != Normal {
      return StatusError;
    }
    StringsFound(token.buf[..], token.argv[..], token.argc, token.infile, token.outfile, found.value, i);
    status := Finish(token, found.value);
  }

  /** The recorded pointers point at the strings found. */
  predicate Strings(b: seq<char>, argv: seq<Pointer>, argc: nat, infile: Pointer, outfile: Pointer, f: Found) {
    && argc == |f.argv| <= |argv|
    && (forall n :: 0 <= n < argc ==> argv[n].Some? && argv[n].value < |b| && CStr(b, argv[n].value) == f.argv[n])
    && (infile.Some? <==> f.infile.Some?) && (infile.Some? ==> CStr(b, infile.value) == f.infile.value)
    && (outfile.Some? <==> f.outfile.Some?) && (outfile.Some? ==> CStr(b, outfile.value) == f.outfile.value)
  }

  lemma StringsFound(b: seq<char>, argv: seq<Pointer>, argc: nat, infile: Pointer, outfile: Pointer, f: Found, i: nat)
    requires Stands(b, argv, argc, infile, outfile, f, i)
    ensures Strings(b, argv, argc, infile, outfile, f)
  {
    forall n | 0 <= n < argc ensures CStr(b, argv[n].value) == f.argv[n] { HeldIsCStr(b, argv[n].value, f.argv[n], i); }
    if infile.Some? { HeldIsCStr(b, infile.value, f.infile.value, i); }
    if outfile.Some? { HeldIsCStr(b, outfile.value, f.outfile.value, i); }
  }

  /** The end of the parse: terminates the list, classifies the command, strips the `&`. */
  method Finish(token: Tokens, ghost f: Found) returns (status: Status)
    requires token.Shape() && token.argc < MAXARGS && f.mode == Normal
    requires Strings(token.buf[..], token.argv[..], token.argc, token.infile, token.outfile, f)
    modifies token`argc, token`builtin, token.argv
    ensures Reports(status, Conclude(Some(f)), token) && token.argc < MAXARGS
  {
    ghost var argv := token.argv[..];
    token.argv[token.argc] := None;
    assert token.argv[..] == argv[token.argc := None];
    if token.argc == 0 {
      return StatusEmpty;
    }
    FinishDescribes(token.buf[..], argv, token.argc, token.infile, token.outfile, f);
    token.builtin := Classify(token.buf, token.argv[0].value);
    var last := token.argv[token.argc - 1].value;
    if token.buf[last] == '&' {
      token.argc := token.argc - 1;
      token.argv[token.argc] := None;
      assert token.argv[..] == argv[token.argc + 1 := None][token.argc := None];
      status := StatusBg;
    } else {
      status := StatusFg;
    }
  }

  /** Compares the string at `a` with a name (strcmp). */
  method Equals(buf: array<char>, a: nat, name: string) returns (equal: bool)
    requires a <= buf.Length && NoNul(name)
    ensures equal <==> CStr(buf[..], a) == name
  {
    var k := 0;
    while k < |name| && a + k < buf.Length && buf[a + k] == name[k]
      invariant 0 <= k <= |name| && a + k <= buf.Length
      invariant CStr(buf[..], a) == name[..k] + CStr(buf[..], a + k)
    {
      assert CStr(buf[..], a + k) == [name[k]] + CStr(buf[..], a + k + 1);
      assert name[..k + 1] == name[..k] + [name[k]];
      k := k + 1;
    }
    equal := k == |name| && (a + k == buf.Length || buf[a + k] == NUL);
    Compared(CStr(buf[..], a), CStr(buf[..], a + k), name, k);
  }

  /** Strings that agree so far are equal exactly when both end here. */
  lemma Compared(s: string, rest: string, name: string, k: nat)
    requires k <= |name| && s == name[..k] + rest
    ensures s == name <==> rest == name[k..]
  {
    assert name == name[..k] + name[k..];
    if s == name { assert rest == s[k..]; }
  }

  /** The kind of command, by its name. */
  method Classify(buf: array<char>, a: nat) returns (builtin: Builtin)
    requires a <= buf.Length
    ensures builtin == BuiltinOf(CStr(buf[..], a))
  {
    var quit := Equals(buf, a, "quit");
    if quit {
      return BuiltinQuit;
    }
    var jobs := Equals(buf, a, "jobs");
    if jobs {
      return BuiltinJobs;
    }
    var bg := Equals(buf, a, "bg");
    if bg {
      return BuiltinBg;
    }
    var fg := Equals(buf, a, "fg");
    builtin := if fg then BuiltinFg else BuiltinNone;
  }

  lemma FinishDescribes(b: seq<char>, argv: seq<Pointer>, argc: nat, infile: Pointer, outfile: Pointer, f: Found)
    requires Strings(b, argv, argc, infile, outfile, f) && f.mode == Normal && 0 < argc < MAXARGS == |argv|
    ensures var p, ended, kind := Conclude(Some(f)), argv[argc := None], BuiltinOf(CStr(b, argv[0].value));
            if b[argv[argc - 1].value] == '&'
            then Describes(StatusBg, p, b, ended[argc - 1 := None], argc - 1, infile, outfile, kind)
            else Describes(StatusFg, p, b, ended, argc, infile, outfile, kind)
  {
    CStrFirst(b, argv[argc - 1].value);
  }

  lemma CStrFirst(b: seq<char>, a: nat)
    requires a < |b|
    ensures b[a] == '&' <==> StartsWithAmpersand(CStr(b, a))
  {
  }
}
