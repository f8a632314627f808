/** The parser undoes a printer: any command, written with any white space, any quoting and
    its redirections anywhere, is read back as the command it was. */
module ParseRoundTrip {
  import opened Basics
  import opened ParseLine

  datatype Arg = Bare(text: string) | Quoted(quote: char, text: string)

  const DELIMITERS := " \t\r\n"
  const QUOTES := "'\""

  /** A bare word has no white space and does not open a quote or a redirection; a quoted
      one does not contain its own quote. */
  predicate ArgOk(a: Arg) {
    && NoNul(a.text)
    && match a
       case Bare(t) => t != [] && t[0] !in QUOTES && t[0] !in "<>" && forall k :: 0 <= k < |t| ==> t[k] !in DELIMITERS
       case Quoted(q, t) => q in QUOTES && q !in t
  }

  function ArgText(a: Arg): string {
    match a
    case Bare(t) => t
    case Quoted(q, t) => [q] + t + [q]
  }

  predicate AllSpace(w: string) {
    forall k :: 0 <= k < |w| ==> w[k] in DELIMITERS
  }

  /** A word or a redirection, with the white space before it and before its file name. */
  datatype Item = Item(gap: string, role: Mode, inner: string, arg: Arg)

  predicate ItemOk(it: Item) {
    AllSpace(it.gap) && AllSpace(it.inner) && ArgOk(it.arg)
  }

  function Sign(role: Mode): string {
    match role
    case Normal => []
    case InFile => "<"
    case OutFile => ">"
  }

  function Print(items: seq<Item>, tail: string): string {
    if items == [] then tail
    else
      var it := items[0];
      it.gap + (Sign(it.role) + (it.inner + (ArgText(it.arg) + Print(items[1..], tail))))
  }

  /** White space separates a bare word from what follows. */
  predicate Separated(items: seq<Item>) {
    forall k :: 0 <= k < |items| - 1 && items[k].arg.Bare? ==> items[k + 1].gap != []
  }

  /** The words among the items. */
  function Words(items: seq<Item>): (w: seq<Arg>)
    ensures |w| <= |items|
  {
    if items == [] then []
    else (if items[0].role == Normal then [items[0].arg] else []) + Words(items[1..])
  }

  /** The file named by the redirections of one kind. */
  function Redirected(items: seq<Item>, role: Mode): Option<Arg> {
    if items == [] then None
    else if items[0].role == role then Some(items[0].arg)
    else Redirected(items[1..], role)
  }

  /** No file is redirected twice. */
  predicate OneFileEach(items: seq<Item>) {
    forall j, k :: 0 <= j < k < |items| && items[j].role != Normal ==> items[j].role != items[k].role
  }

  function Texts(args: seq<Arg>): (t: seq<string>)
    ensures |t| == |args| && forall k :: 0 <= k < |t| ==> t[k] == args[k].text
  {
    seq(|args|, k requires 0 <= k < |args| => args[k].text)
  }

  function TextOf(a: Option<Arg>): Option<string> {
    if a.Some? then Some(a.value.text) else None
  }

  /** Those characters are the ones the scan looks for. */
  lemma Characters(c: char)
    ensures IsSpace(c) <==> c in DELIMITERS
    ensures IsQuote(c) <==> c in QUOTES
    ensures c in "<>" <==> c == '<' || c == '>'
  {
    assert DELIMITERS == [' ', '\t', '\r', '\n'] && QUOTES == ['\'', '\"'] && "<>" == ['<', '>'];
  }

  lemma Blanks(w: string)
    ensures AllSpace(w) <==> forall k :: 0 <= k < |w| ==> IsSpace(w[k])
  {
    forall k | 0 <= k < |w| ensures IsSpace(w[k]) <==> w[k] in DELIMITERS { Characters(w[k]); }
  }

  lemma PlainWord(a: Arg)
    requires ArgOk(a)
    ensures a.Bare? ==> !IsQuote(a.text[0]) && a.text[0] != '<' && a.text[0] != '>'
    ensures a.Bare? ==> forall k :: 0 <= k < |a.text| ==> !IsSpace(a.text[k])
    ensures a.Quoted? ==> IsQuote(a.quote)
  {
    match a
    case Bare(t) => forall k | 0 <= k < |t| ensures !IsSpace(t[k]) { Characters(t[k]); } Characters(t[0]);
    case Quoted(q, t) => Characters(q);
  }

  // ---- Scanning what was printed ----

  lemma {:induction false} SpacesAll(w: string, r: string)
    requires AllSpace(w)
    ensures Spaces(w + r) == |w| + Spaces(r)
  {
    Blanks(w);
    if w == [] {
      assert w + r == r;
    } else {
      assert (w + r)[0] == w[0] && (w + r)[1..] == w[1..] + r;
      SpacesAll(w[1..], r);
    }
  }

  lemma ScanIgnoresSpace(w: string, r: string, f: Found)
    requires AllSpace(w)
    ensures Scan(w + r, f) == Scan(r, f)
  {
    SpacesAll(w, r);
    assert (w + r)[Spaces(w + r)..] == r[Spaces(r)..];
  }

  lemma {:induction false} SpanWord(t: string, r: string)
    requires (forall k :: 0 <= k < |t| ==> !IsSpace(t[k])) && (r == [] || IsSpace(r[0]))
    ensures Span(t + r) == |t|
  {
    if t == [] {
      assert t + r == r;
    } else {
      assert (t + r)[0] == t[0] && (t + r)[1..] == t[1..] + r;
      SpanWord(t[1..], r);
    }
  }

  lemma {:induction false} FindQuote(t: string, q: char, r: string)
    requires q !in t
    ensures Find(t + [q] + r, q) == |t|
  {
    if t == [] {
      assert t + [q] + r == [q] + r;
    } else {
      assert (t + [q] + r)[0] == t[0] && (t + [q] + r)[1..] == t[1..] + [q] + r;
      FindQuote(t[1..], q, r);
    }
  }

  /** What follows a printed argument: a bare one swallows one character of white space. */
  function Left(a: Arg, r: string): string {
    if a.Bare? && r != [] then r[1..] else r
  }

  lemma BarePrinted(t: string, r: string)
    requires ArgOk(Bare(t)) && (r == [] || IsSpace(r[0]))
    ensures t + r != [] && Word(t + r) == Some((t, Left(Bare(t), r)))
  {
    var s := t + r;
    PlainWord(Bare(t));
    SpanWord(t, r);
    assert s[..|t|] == t;
    if r != [] { assert s[|t| + 1..] == r[1..]; }
  }

  lemma QuotedPrinted(q: char, t: string, r: string, s: string)
    requires ArgOk(Quoted(q, t)) && s == [q] + t + [q] + r
    ensures s != [] && Word(s) == Some((t, r))
  {
    PlainWord(Quoted(q, t));
    FindQuote(t, q, r);
    assert s[0] == q && s[1..] == t + [q] + r;
    assert s[1..1 + |t|] == t && s[|t| + 2..] == r;
  }

  lemma WordPrinted(a: Arg, r: string)
    requires ArgOk(a) && (a.Bare? ==> r == [] || IsSpace(r[0]))
    ensures ArgText(a) + r != [] && Word(ArgText(a) + r) == Some((a.text, Left(a, r)))
  {
    match a
    case Bare(t) => BarePrinted(t, r);
    case Quoted(q, t) => QuotedPrinted(q, t, r, ArgText(a) + r);
  }

  /** One printed argument, with the mode the scan is in. */
  lemma ScanArg(inner: string, a: Arg, r: string, f: Found)
    requires AllSpace(inner) && ArgOk(a) && (a.Bare? ==> r == [] || IsSpace(r[0]))
    ensures var f' := Record(f, a.text);
            Scan(inner + (ArgText(a) + r), f) == if |f'.argv| >= MAXARGS - 1 then Some(f') else Scan(r, f')
  {
    var s := ArgText(a) + r;
    WordPrinted(a, r);
    ScanIgnoresSpace(inner, s, f);
    FirstCounts(a, r, s);
    ScanWord(s, s, f);
    ScanLeft(a, r, Record(f, a.text));
  }

  /** A printed argument starts with neither white space nor a redirection. */
  lemma FirstCounts(a: Arg, r: string, s: string)
    requires ArgOk(a) && s == ArgText(a) + r
    ensures s != [] && !IsSpace(s[0]) && s[0] != '<' && s[0] != '>' && s[Spaces(s)..] == s
  {
    PlainWord(a);
  }

  lemma ScanLeft(a: Arg, r: string, f: Found)
    requires a.Bare? ==> r == [] || IsSpace(r[0])
    ensures Scan(Left(a, r), f) == Scan(r, f)
  {
    if a.Bare? && r != [] {
      assert r == r[..1] + r[1..];
      Blanks(r[..1]);
      ScanIgnoresSpace(r[..1], r[1..], f);
    }
  }

  lemma ScanSign(role: Mode, r: string, f: Found)
    requires f.mode == Normal
    requires (role == InFile ==> f.infile == None) && (role == OutFile ==> f.outfile == None)
    ensures Scan(Sign(role) + r, f) == Scan(r, f.(mode := role))
  {
    var s := Sign(role) + r;
    if role == Normal {
      assert s == r;
    } else {
      assert s[0] == Sign(role)[0] && s[1..] == r && Spaces(s) == 0 && s[0..] == s;
      ScanRedirection(s, s, f);
    }
  }

  /** What the scan has found after the items. */
  function Gathered(items: seq<Item>, f: Found): Found {
    if items == [] then f else Gathered(items[1..], Record(f.(mode := items[0].role), items[0].arg.text))
  }

  /** What printed items need for the scan to get through them from `f`. */
  predicate Readable(items: seq<Item>, f: Found) {
    && (forall k :: 0 <= k < |items| ==> ItemOk(items[k]))
    && Separated(items) && OneFileEach(items)
    && (f.infile.Some? ==> forall k :: 0 <= k < |items| ==> items[k].role != InFile)
    && (f.outfile.Some? ==> forall k :: 0 <= k < |items| ==> items[k].role != OutFile)
    && f.mode == Normal && FitsArgv(items, |f.argv|)
  }

  /** The argument list has room for the words; a word that fills it is the last item. */
  predicate FitsArgv(items: seq<Item>, n: nat) {
    && n + |Words(items)| <= 127
    && (n + |Words(items)| == 127 && items != [] ==> items[|items| - 1].role == Normal && n < 127)
  }

  /** White space or nothing follows a bare word that comes last. */
  predicate Follows(items: seq<Item>, rest: string) {
    items != [] && items[|items| - 1].arg.Bare? ==> rest == [] || rest[0] in DELIMITERS
  }

  /** The scan gets through printed items and goes on behind them, whatever comes there,
      unless the argument list is full. */
  lemma {:induction false} ScanOn(items: seq<Item>, rest: string, f: Found)
    requires Readable(items, f) && Follows(items, rest)
    ensures Scan(Print(items, rest), f) ==
            if items != [] && |f.argv| + |Words(items)| == 127 then Some(Gathered(items, f))
            else Scan(rest, Gathered(items, f))
  {
    if items != [] {
      var it, left := items[0], Print(items[1..], rest);
      var f1, f' := f.(mode := it.role), Record(f.(mode := it.role), it.arg.text);
      PrintStarts(items, rest);
      assert ItemOk(it);
      ScanIgnoresSpace(it.gap, Sign(it.role) + (it.inner + (ArgText(it.arg) + left)), f);
      ScanSign(it.role, it.inner + (ArgText(it.arg) + left), f);
      ScanArg(it.inner, it.arg, left, f1);
      if |f'.argv| >= MAXARGS - 1 {
        FullMeansLast(items, |f.argv|);
      } else {
        ReadableRest(items, f);
        ScanOn(items[1..], rest, f');
        if |items| == 1 { assert items[1..] == []; }
      }
    }
  }

  lemma ScanPrinted(items: seq<Item>, tail: string, f: Found)
    requires AllSpace(tail) && Readable(items, f)
    ensures Scan(Print(items, tail), f) == Some(Gathered(items, f))
  {
    ScanOn(items, tail, f);
    assert tail + [] == tail;
    SpacesAll(tail, []);
    ScanEnd(tail, Gathered(items, f));
  }

  /** A word that fills the argument list is the last item. */
  lemma FullMeansLast(items: seq<Item>, n: nat)
    requires items != [] && FitsArgv(items, n)
    requires n + (if items[0].role == Normal then 1 else 0) >= MAXARGS - 1
    ensures |items| == 1
  {
    if |items| > 1 {
      LastIsWord(items[1..]);
    }
  }

  lemma {:induction false} LastIsWord(items: seq<Item>)
    requires items != [] && items[|items| - 1].role == Normal
    ensures Words(items) != []
  {
    if items[0].role != Normal {
      LastIsWord(items[1..]);
    }
  }

  lemma ReadableRest(items: seq<Item>, f: Found)
    requires Readable(items, f) && items != []
    requires |Record(f.(mode := items[0].role), items[0].arg.text).argv| < MAXARGS - 1
    ensures Readable(items[1..], Record(f.(mode := items[0].role), items[0].arg.text))
  {
    var rest := items[1..];
    assert forall k :: 0 <= k < |rest| ==> rest[k] == items[k + 1];
  }

  /** After a bare word the printed rest is empty or starts with white space. */
  lemma PrintStarts(items: seq<Item>, tail: string)
    requires items != [] && Follows(items, tail) && Separated(items)
    requires forall k :: 0 <= k < |items| ==> ItemOk(items[k])
    ensures items[0].arg.Bare? ==> var r := Print(items[1..], tail); r == [] || IsSpace(r[0])
  {
    if items[0].arg.Bare? && |items| > 1 {
      assert items[1].gap != [] && items[1..][0] == items[1];
      assert ItemOk(items[1]);
      Blanks(items[1].gap);
    } else if items[0].arg.Bare? && tail != [] {
      Characters(tail[0]);
    }
  }

  lemma {:induction false} GatheredArgv(items: seq<Item>, f: Found)
    requires f.mode == Normal
    ensures Gathered(items, f).argv == f.argv + Texts(Words(items)) && Gathered(items, f).mode == Normal
  {
    if items == [] {
      assert f.argv + Texts(Words(items)) == f.argv;
    } else {
      var it, rest := items[0], items[1..];
      var f' := Record(f.(mode := it.role), it.arg.text);
      GatheredArgv(rest, f');
      TextsCons(items);
      ArgvStep(f.argv, f'.argv, it, Texts(Words(rest)), Texts(Words(items)));
    }
  }

  lemma ArgvStep(argv: seq<string>, argv': seq<string>, it: Item, rest: seq<string>, all: seq<string>)
    requires argv' == argv + if it.role == Normal then [it.arg.text] else []
    requires all == (if it.role == Normal then [it.arg.text] else []) + rest
    ensures argv' + rest == argv + all
  {
  }

  lemma TextsCons(items: seq<Item>)
    requires items != []
    ensures Texts(Words(items))
            == (if items[0].role == Normal then [items[0].arg.text] else []) + Texts(Words(items[1..]))
  {
  }

  lemma {:induction false} GatheredFiles(items: seq<Item>, f: Found)
    requires OneFileEach(items) && f.mode == Normal
    ensures Gathered(items, f).infile
            == if Redirected(items, InFile).Some? then TextOf(Redirected(items, InFile)) else f.infile
    ensures Gathered(items, f).outfile
            == if Redirected(items, OutFile).Some? then TextOf(Redirected(items, OutFile)) else f.outfile
  {
    if items != [] {
      var it, rest := items[0], items[1..];
      assert forall k :: 0 <= k < |rest| ==> rest[k] == items[k + 1];
      GatheredFiles(rest, Record(f.(mode := it.role), it.arg.text));
      NotRedirected(rest, it.role);
    }
  }

  lemma {:induction false} NotRedirected(items: seq<Item>, role: Mode)
    ensures (forall k :: 0 <= k < |items| ==> items[k].role != role) ==> Redirected(items, role) == None
  {
    if items != [] && (forall k :: 0 <= k < |items| ==> items[k].role != role) {
      assert forall k :: 0 <= k < |items[1..]| ==> items[1..][k] == items[k + 1];
      NotRedirected(items[1..], role);
    }
  }

  // ---- Commands ----

  datatype Command = Command(args: seq<Arg>, infile: Option<Arg>, outfile: Option<Arg>, background: bool)

  /** The printed items say the command: its words in order, `&` after them for a
      background job, its redirections anywhere. */
  predicate Says(items: seq<Item>, c: Command) {
    && Words(items) == c.args + (if c.background then [Bare("&")] else [])
    && Redirected(items, InFile) == c.infile && Redirected(items, OutFile) == c.outfile
  }

  /** The commands that the shell carries out itself. */
  const BUILTINS: map<string, Builtin> :=
    map["quit" := BuiltinQuit, "jobs" := BuiltinJobs, "bg" := BuiltinBg, "fg" := BuiltinFg]

  function Kind(name: string): Builtin {
    if name in BUILTINS then BUILTINS[name] else BuiltinNone
  }

  lemma Kinds(name: string)
    ensures BuiltinOf(name) == Kind(name)
  {
  }

  /** What reading the command back should give. */
  function Meaning(c: Command): Parsed {
    Line(Texts(c.args), TextOf(c.infile), TextOf(c.outfile),
         if c.args == [] then BuiltinNone else Kind(c.args[0].text), c.background)
  }

  /** The last word would pass for the background marker. */
  predicate EndsInMarker(c: Command)
    requires c.args != [] || c.background
  {
    !c.background && "&" <= c.args[|c.args| - 1].text
  }

  /** Round trip. A printed command that fits the buffer and the argument list is read back
      exactly, if and only if it is a background job or its last word does not itself
      begin with `&`. */
  lemma RoundTrip(items: seq<Item>, tail: string, c: Command)
    requires Says(items, c) && (c.args != [] || c.background)
    requires Readable(items, NOTHING) && AllSpace(tail) && |Print(items, tail)| <= 1023
    ensures Parse(Print(items, tail)) == Meaning(c) <==> !EndsInMarker(c)
  {
    ScanPrinted(items, tail, NOTHING);
    GatheredArgv(items, NOTHING);
    GatheredFiles(items, NOTHING);
    assert NOTHING.argv + Texts(Words(items)) == Texts(Words(items));
    assert Fitting(Print(items, tail)) == Print(items, tail);
    Concludes(c, Gathered(items, NOTHING));
  }

  lemma Concludes(c: Command, f: Found)
    requires c.args != [] || c.background
    requires f.mode == Normal && f.infile == TextOf(c.infile) && f.outfile == TextOf(c.outfile)
    requires f.argv == Texts(c.args + (if c.background then [Bare("&")] else []))
    ensures Conclude(Some(f)) == Meaning(c) <==> !EndsInMarker(c)
  {
    var n := |f.argv| - 1;
    Kinds(f.argv[0]);
    if c.background {
      assert f.argv[n] == "&" && f.argv[..n] == Texts(c.args);
    } else {
      assert c.args + [] == c.args;
      assert f.argv == Texts(c.args) && |f.argv[..n]| != |f.argv|;
    }
  }

  // ---- Lines that are no command ----

  /** A quote that is not closed, wherever it comes in the line. */
  lemma OpenQuoteIsError(items: seq<Item>, gap: string, q: char, t: string)
    requires Readable(items, NOTHING) && AllSpace(gap) && q in QUOTES && q !in t && |Words(items)| < 127
    requires Follows(items, gap + ([q] + t)) && |Print(items, gap + ([q] + t))| <= 1023
    ensures Parse(Print(items, gap + ([q] + t))) == Error
  {
    var s := [q] + t;
    ScanOn(items, gap + s, NOTHING);
    ScanIgnoresSpace(gap, s, Gathered(items, NOTHING));
    Characters(q);
    FindNone(t, q);
    assert s[1..] == t && s[0] == q && Spaces(s) == 0 && s[0..] == s && Word(s) == None;
  }

  lemma {:induction false} FindNone(t: string, q: char)
    requires q !in t
    ensures Find(t, q) == |t|
  {
    if t != [] { FindNone(t[1..], q); }
  }

  /** A second redirection of the same kind, whatever follows. */
  lemma SecondFileIsError(items: seq<Item>, gap: string, role: Mode, more: string)
    requires Readable(items, NOTHING) && AllSpace(gap) && role != Normal && |Words(items)| < 127
    requires Redirected(items, role).Some?
    requires Follows(items, gap + (Sign(role) + more)) && |Print(items, gap + (Sign(role) + more))| <= 1023
    ensures Parse(Print(items, gap + (Sign(role) + more))) == Error
  {
    var s := Sign(role) + more;
    ScanOn(items, gap + s, NOTHING);
    ScanIgnoresSpace(gap, s, Gathered(items, NOTHING));
    GatheredFiles(items, NOTHING);
    assert s[0] == Sign(role)[0] && Spaces(s) == 0 && s[0..] == s;
  }

  /** A redirection without a file name. */
  lemma NoFileIsError(items: seq<Item>, gap: string, role: Mode, tail: string)
    requires Readable(items, NOTHING) && AllSpace(gap) && AllSpace(tail) && role != Normal && |Words(items)| < 127
    requires Follows(items, gap + (Sign(role) + tail)) && |Print(items, gap + (Sign(role) + tail))| <= 1023
    ensures Parse(Print(items, gap + (Sign(role) + tail))) == Error
  {
    if Redirected(items, role).Some? {
      SecondFileIsError(items, gap, role, tail);
    } else {
      var s, f := Sign(role) + tail, Gathered(items, NOTHING);
      ScanOn(items, gap + s, NOTHING);
      ScanIgnoresSpace(gap, s, f);
      GatheredFiles(items, NOTHING);
      GatheredArgv(items, NOTHING);
      ScanSign(role, tail, f);
      assert tail + [] == tail;
      SpacesAll(tail, []);
      ScanEnd(tail, f.(mode := role));
    }
  }

  /** Behind 127 words nothing is read any more, and so nothing is an error. */
  lemma RestIsDropped(items: seq<Item>, rest: string)
    requires Readable(items, NOTHING) && |Words(items)| == 127 && Follows(items, rest)
    requires |Print(items, rest)| <= 1023
    ensures Parse(Print(items, rest)) == Conclude(Some(Gathered(items, NOTHING)))
    ensures Gathered(items, NOTHING).argv == Texts(Words(items))
  {
    ScanOn(items, rest, NOTHING);
    GatheredArgv(items, NOTHING);
    assert NOTHING.argv + Texts(Words(items)) == Texts(Words(items));
  }

  /** A line of white space asks for nothing. */
  lemma BlankIsEmpty(tail: string)
    requires AllSpace(tail) && |tail| <= 1023
    ensures Parse(tail) == Empty
  {
    ScanPrinted([], tail, NOTHING);
  }

  /** Of a longer line only the first 1023 characters count. */
  lemma LongLineIsCut(cmdline: string)
    requires |cmdline| > 1023
    ensures Parse(cmdline) == Parse(cmdline[..1023])
  {
  }

  lemma ScanTwoWords(a: Arg, b: Arg)
    requires ArgOk(a) && ArgOk(b)
    ensures Scan(ArgText(a) + (" " + ArgText(b)), NOTHING) == Some(NOTHING.(argv := [a.text, b.text]))
  {
    var r := " " + ArgText(b);
    var f1, f2 := NOTHING.(argv := [a.text]), NOTHING.(argv := [a.text, b.text]);
    assert Record(NOTHING, a.text) == f1 && Record(f1, b.text) == f2;
    assert [] + (ArgText(a) + r) == ArgText(a) + r && " " + (ArgText(b) + []) == r;
    ScanArg([], a, r, NOTHING);
    ScanArg(" ", b, [], f1);
    ScanEnd([], f2);
  }

  /** A command that is not read back: whatever its name, with a quoted `&` as its only
      argument it loses the argument and goes to the background. */
  lemma QuotedAmpersandIsLost(name: string, amp: string)
    requires ArgOk(Bare(name)) && |name| < 1000 && amp == "&"
    ensures Parse(name + (" " + ArgText(Quoted('\'', amp)))) == Line([name], None, None, Kind(name), true)
  {
    var line := name + (" " + ArgText(Quoted('\'', amp)));
    ScanTwoWords(Bare(name), Quoted('\'', amp));
    assert Fitting(line) == line;
    LastIsMarker(name, amp);
    Kinds(name);
  }

  lemma LastIsMarker(name: string, amp: string)
    requires amp != [] && amp[0] == '&'
    ensures Conclude(Some(NOTHING.(argv := [name, amp]))) == Line([name], None, None, BuiltinOf(name), true)
  {
    assert [name, amp][..1] == [name];
  }
}
