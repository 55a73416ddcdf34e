/** What the shell's command parser (userland/sh.c) reads from a line, and the language
    it accepts: a line is parsed to a tree exactly when it is a spelling of that tree. */
module ShellSyntax {

  /** MAX_ARGC, the slots of an argv with its null terminator. */
  const MAX_ARGC := 16

  /** struct node. Its strings are spans of the line, or, in a command, the strings themselves. */
  datatype Tree<T> = Execute(argv: seq<T>) | Juxtaposition(left: Tree<T>, right: Tree<T>) | Pipe(left: Tree<T>,
          right: Tree<T>)
                   | Redirect(from: Tree<T>, to: T) | Background(inner: Tree<T>)

  datatype Span = Span(start: nat, length: nat)

  type Node = Tree<Span>
  type Command = Tree<string>

  datatype Result = Success | Empty | SyntaxError | TooManyArgs

  /** What a parse function returns, and the parser's cursor and result after it. */
  datatype Parsed = Null(cursor: nat, result: Result) | Got(node: Node, cursor: nat, result: Result)

  // ----- characters -----

  datatype Kind = Blank | Name {
    predicate Has(c: char) {
      match this
      case Blank => c == '\t' || c == '\n' || c == '\U{000B}' || c == '\U{000C}' || c == '\r' || c == ' '
      case Name => ' ' < c <= '~' && c != '>' && c != '|' && c != '&' && c != ';'
    }
  }

  /** The end of the line holds a null character. */
  function Peek(s: string, i: nat): char {
    if i < |s| then s[i] else '\0'
  }

  /** Where a run of characters of kind k that starts at i ends. */
  function Run(s: string, i: nat, k: Kind): (e: nat)
    requires i <= |s|
    ensures i <= e <= |s| && !k.Has(Peek(s, e))
    ensures forall x :: i <= x < e ==> k.Has(s[x])
    decreases |s| - i
  {
    if i < |s| && k.Has(s[i]) then Run(s, i + 1, k) else i
  }

  predicate All(k: Kind, t: string) {
    forall x :: 0 <= x < |t| ==> k.Has(t[x])
  }

  // ----- the parser, as a function of line and cursor -----

  datatype Words = Words(argv: seq<Span>, cursor: nat, full: bool)

  /** The loop of parse_execute, with n arguments read. */
  function ReadWords(s: string, i: nat, n: nat): (w: Words)
    requires i <= |s| && n <= MAX_ARGC
    ensures i <= w.cursor <= |s| && (w.argv != [] ==> i < w.cursor)
    decreases MAX_ARGC - n
  {
    var e := Run(s, i, Name);
    if n == MAX_ARGC then Words([], i, true)
    else if e == i then Words([], i, false)
    else
      var rest := ReadWords(s, Run(s, e, Blank), n + 1);
      Words([Span(i, e - i)] + rest.argv, rest.cursor, rest.full)
  }

  function ReadExecute(s: string, i: nat): (p: Parsed)
    requires i <= |s|
    ensures i <= p.cursor <= |s| && (p.Got? ==> i < p.cursor && p.result.Success?)
    ensures p.Null? ==> !p.result.Success? && (p.result.Empty? ==> p.cursor == i)
  {
    var w := ReadWords(s, i, 0);
    if w.full then Null(w.cursor, TooManyArgs)
    else if w.argv == [] then Null(w.cursor, Empty)
    else Got(Execute(w.argv), w.cursor, Success)
  }

  function ReadRedirect(s: string, i: nat): (p: Parsed)
    requires i <= |s|
    ensures i <= p.cursor <= |s| && (p.Got? ==> i < p.cursor && p.result.Success?)
    ensures p.Null? ==> !p.result.Success? && (p.result.Empty? ==> p.cursor == i)
  {
    var from := ReadExecute(s, i);
    if from.Null? then from
    else
      var j := Run(s, from.cursor, Blank);
      if Peek(s, j) != '>' then Got(from.node, j, Success)
      else
        var k := Run(s, j + 1, Blank);
        var e := Run(s, k, Name);
        if e == k then Null(k, SyntaxError)
        else Got(Redirect(from.node, Span(k, e - k)), e, Success)
  }

  function ReadPipe(s: string, i: nat): (p: Parsed)
    requires i <= |s|
    ensures i <= p.cursor <= |s| && (p.Got? ==> i < p.cursor && p.result.Success?)
    ensures p.Null? ==> !p.result.Success? && (p.result.Empty? ==> p.cursor == i)
    decreases |s| - i
  {
    var left := ReadRedirect(s, i);
    if left.Null? then left
    else
      var j := Run(s, left.cursor, Blank);
      if Peek(s, j) != '|' then Got(left.node, j, Success)
      else
        var right := ReadPipe(s, Run(s, j + 1, Blank));
        if right.Null? then Null(right.cursor, if right.result.Empty? then SyntaxError else right.result)
        else Got(Pipe(left.node, right.node), right.cursor, Success)
  }

  /** A right side that fails is dropped, and its error kept for the caller. */
  function ReadList(s: string, i: nat): (p: Parsed)
    requires i <= |s|
    ensures i <= p.cursor <= |s| && (p.Got? ==> i < p.cursor && !p.result.Empty?)
    ensures p.Null? ==> !p.result.Success? && (p.result.Empty? ==> p.cursor == i)
    decreases |s| - i
  {
    var left := ReadPipe(s, i);
    if left.Null? then left
    else
      var j := Run(s, left.cursor, Blank);
      if Peek(s, j) != '&' && Peek(s, j) != ';' then Got(left.node, j, Success)
      else
        var node := if Peek(s, j) == '&' then Background(left.node) else left.node;
        var right := ReadList(s, Run(s, j + 1, Blank));
        if right.Null? then Got(node, right.cursor, if right.result.Empty? then Success else right.result)
        else Got(Juxtaposition(node, right.node), right.cursor, right.result)
  }

  function ReadLine(s: string): (p: Parsed)
    ensures p.result.Success? ==> p.Got?
  {
    var list := ReadList(s, Run(s, 0, Blank));
    var j := Run(s, list.cursor, Blank);
    if Peek(s, j) != '\0' then Null(j, SyntaxError)
    else if list.Null? then Null(j, list.result)
    else Got(list.node, j, list.result)
  }

  // ----- the commands a tree stands for -----

  function Token(s: string, at: Span): string {
    if at.start + at.length <= |s| then s[at.start..at.start + at.length] else ""
  }

  function Tokens(s: string, argv: seq<Span>): (t: seq<string>)
    ensures |t| == |argv|
    decreases |argv|
  {
    if argv == [] then [] else [Token(s, argv[0])] + Tokens(s, argv[1..])
  }

  function Text(s: string, n: Node): Command {
    match n
    case Execute(argv) => Execute(Tokens(s, argv))
    case Juxtaposition(l, r) => Juxtaposition(Text(s, l), Text(s, r))
    case Pipe(l, r) => Pipe(Text(s, l), Text(s, r))
    case Redirect(f, to) => Redirect(Text(s, f), Token(s, to))
    case Background(x) => Background(Text(s, x))
  }

  /** Line s is accepted, and read as command c. */
  predicate Reads(s: string, c: Command) {
    var p := ReadLine(s);
    p.result.Success? && Text(s, p.node) == c
  }

  // ----- spellings -----

  /** A word and the blanks before it. */
  datatype Word = Word(gap: string, text: string)

  datatype Stage = Plain(words: seq<Word>) | Into(words: seq<Word>, before: string, after: string, to: string)

  datatype Pipeline = Single(stage: Stage) | Piped(stage: Stage, before: string, after: string, rest: Pipeline)

  /** Closed is a last pipeline with an operator after it. */
  datatype List = Last(pipeline: Pipeline) | Closed(pipeline: Pipeline, before: string, amp: bool)
                | More(pipeline: Pipeline, before: string, amp: bool, after: string, rest: List)

  datatype Line = Line(lead: string, list: List, trail: string)

  predicate ValidName(t: string) {
    t != "" && All(Name, t)
  }

  /** Words with blanks before each. */
  predicate Gapped(ws: seq<Word>)
    decreases |ws|
  {
    ws != [] ==> ws[0].gap != "" && All(Blank, ws[0].gap) && ValidName(ws[0].text) && Gapped(ws[1..])
  }

  predicate ValidWords(ws: seq<Word>) {
    0 < |ws| < MAX_ARGC && ws[0].gap == "" && ValidName(ws[0].text) && Gapped(ws[1..])
  }

  predicate ValidStage(x: Stage) {
    ValidWords(x.words) && (x.Into? ==> All(Blank, x.before) && All(Blank, x.after) && ValidName(x.to))
  }

  predicate ValidPipeline(p: Pipeline) {
    ValidStage(p.stage) && (p.Piped? ==> All(Blank, p.before) && All(Blank, p.after) && ValidPipeline(p.rest))
  }

  predicate ValidList(l: List) {
    && ValidPipeline(l.pipeline) && (!l.Last? ==> All(Blank, l.before))
    && (l.More? ==> All(Blank, l.after) && ValidList(l.rest))
  }

  predicate ValidLine(l: Line) {
    All(Blank, l.lead) && ValidList(l.list) && All(Blank, l.trail)
  }

  function ShowWords(ws: seq<Word>): string
    decreases |ws|
  {
    if ws == [] then "" else ws[0].gap + (ws[0].text + ShowWords(ws[1..]))
  }

  function ShowStage(x: Stage): string {
    match x
    case Plain(ws) => ShowWords(ws)
    case Into(ws, before, after, to) => ShowWords(ws) + (before + (">" + (after + to)))
  }

  function ShowPipeline(p: Pipeline): string {
    match p
    case Single(x) => ShowStage(x)
    case Piped(x, before, after, rest) => ShowStage(x) + (before + ("|" + (after + ShowPipeline(rest))))
  }

  function Mark(amp: bool): string {
    if amp then "&" else ";"
  }

  function ShowList(l: List): string {
    match l
    case Last(p) => ShowPipeline(p)
    case Closed(p, before, amp) => ShowPipeline(p) + (before + Mark(amp))
    case More(p, before, amp, after, rest) => ShowPipeline(p) + (before + (Mark(amp) + (after + ShowList(rest))))
  }

  function Show(l: Line): string {
    l.lead + (ShowList(l.list) + l.trail)
  }

  function WordTexts(ws: seq<Word>): (t: seq<string>)
    ensures |t| == |ws|
    decreases |ws|
  {
    if ws == [] then [] else [ws[0].text] + WordTexts(ws[1..])
  }

  function StageTree(x: Stage): Command {
    match x
    case Plain(ws) => Execute(WordTexts(ws))
    case Into(ws, _, _, to) => Redirect(Execute(WordTexts(ws)), to)
  }

  function PipelineTree(p: Pipeline): Command {
    match p
    case Single(x) => StageTree(x)
    case Piped(x, _, _, rest) => Pipe(StageTree(x), PipelineTree(rest))
  }

  function Item(p: Pipeline, amp: bool): Command {
    if amp then Background(PipelineTree(p)) else PipelineTree(p)
  }

  function ListTree(l: List): Command {
    match l
    case Last(p) => PipelineTree(p)
    case Closed(p, _, amp) => Item(p, amp)
    case More(p, _, amp, _, rest) => Juxtaposition(Item(p, amp), ListTree(rest))
  }

  /** s is a way to write c. */
  ghost predicate Spells(l: Line, s: string, c: Command) {
    ValidLine(l) && Show(l) == s && ListTree(l.list) == c
  }

  // ----- every spelling is read as its tree -----

  ghost predicate At(s: string, i: nat, t: string) {
    i + |t| <= |s| && s[i..i + |t|] == t
  }

  lemma Split(s: string, i: nat, a: string, b: string)
    requires At(s, i, a + b)
    ensures At(s, i, a) && At(s, i + |a|, b)
  {
    var t := a + b;
    assert s[i..i + |t|][..|a|] == t[..|a|] == a;
    assert s[i..i + |t|][|a|..] == t[|a|..] == b;
    assert s[i..i + |t|][..|a|] == s[i..i + |a|];
    assert s[i..i + |t|][|a|..] == s[i + |a|..i + |t|];
  }

  lemma First(s: string, i: nat, t: string)
    requires At(s, i, t) && t != ""
    ensures Peek(s, i) == t[0]
  {
    assert s[i..i + |t|][0] == t[0];
  }

  lemma {:induction false} RunOver(s: string, i: nat, t: string, k: Kind)
    requires At(s, i, t) && All(k, t) && !k.Has(Peek(s, i + |t|))
    ensures Run(s, i, k) == i + |t|
    decreases |t|
  {
    if t != "" {
      First(s, i, t);
      assert s[i + 1..i + |t|] == s[i..i + |t|][1..] == t[1..];
      RunOver(s, i + 1, t[1..], k);
    }
  }

  /** What comes after the blanks at i. */
  function After(s: string, i: nat): char
    requires i <= |s|
  {
    Peek(s, Run(s, i, Blank))
  }

  /** Blanks, then something that is neither blank nor part of a name. */
  lemma AfterBlanks(s: string, i: nat, blanks: string, t: string)
    requires At(s, i, blanks + t) && All(Blank, blanks) && t != "" && !Blank.Has(t[0])
    ensures Run(s, i, Blank) == i + |blanks| && After(s, i) == t[0] && At(s, i + |blanks|, t)
  {
    Split(s, i, blanks, t);
    First(s, i + |blanks|, t);
    RunOver(s, i, blanks, Blank);
  }

  lemma NotName(s: string, i: nat)
    requires i <= |s| && !Name.Has(After(s, i))
    ensures !Name.Has(Peek(s, i))
  {
  }

  /** A word of at least one character is read, and the blanks after it. */
  lemma WordRead(s: string, i: nat, text: string, n: nat)
    requires n < MAX_ARGC && At(s, i, text) && ValidName(text) && !Name.Has(Peek(s, i + |text|))
    ensures var rest := ReadWords(s, Run(s, i + |text|, Blank), n + 1);
            ReadWords(s, i, n) == Words([Span(i, |text|)] + rest.argv, rest.cursor, rest.full)
    ensures Token(s, Span(i, |text|)) == text
  {
    RunOver(s, i, text, Name);
  }

  lemma WordsEnd(s: string, i: nat, n: nat)
    requires i <= |s| && n < MAX_ARGC && !Name.Has(Peek(s, i))
    ensures ReadWords(s, i, n) == Words([], i, false)
  {
  }

  lemma TokensOf(s: string, at: Span, argv: seq<Span>)
    ensures Tokens(s, [at] + argv) == [Token(s, at)] + Tokens(s, argv)
  {
    assert ([at] + argv)[1..] == argv;
  }

  /** The words are read, from the text of the first on, and the blanks after them. */
  lemma {:induction false} WordsRead(s: string, i: nat, text: string, rest: seq<Word>, n: nat)
    requires n + 1 + |rest| < MAX_ARGC && ValidName(text) && Gapped(rest)
    requires At(s, i, text + ShowWords(rest)) && !Name.Has(After(s, i + |text + ShowWords(rest)|))
    ensures var w := ReadWords(s, i, n);
            && !w.full && w.argv != [] && Tokens(s, w.argv) == [text] + WordTexts(rest)
            && w.cursor == Run(s, i + |text + ShowWords(rest)|, Blank)
    decreases |rest|
  {
    hide ReadWords, Run, Token, Tokens, At, All;
    var e := i + |text|;
    Split(s, i, text, ShowWords(rest));
    if rest == [] {
      NotName(s, e);
      WordRead(s, i, text, n);
      WordsEnd(s, Run(s, e, Blank), n + 1);
      TokensOf(s, Span(i, |text|), []);
      NoTokens(s);
    } else {
      var more := rest[0].text + ShowWords(rest[1..]);
      assert ShowWords(rest) == rest[0].gap + more;
      Starts(rest[0].text, ShowWords(rest[1..]));
      GapRead(s, e, rest[0].gap, more);
      WordRead(s, i, text, n);
      WordsRead(s, e + |rest[0].gap|, rest[0].text, rest[1..], n + 1);
      TokensOf(s, Span(i, |text|), ReadWords(s, e + |rest[0].gap|, n + 1).argv);
    }
  }

  lemma Starts(name: string, more: string)
    requires ValidName(name)
    ensures name + more != "" && Name.Has((name + more)[0])
  {
  }

  lemma NoTokens(s: string)
    ensures Tokens(s, []) == []
  {
  }

  /** Blanks and a name after them: the blanks end a name, and run up to the next. */
  lemma GapRead(s: string, e: nat, gap: string, more: string)
    requires At(s, e, gap + more) && gap != "" && All(Blank, gap) && more != "" && Name.Has(more[0])
    ensures !Name.Has(Peek(s, e)) && Run(s, e, Blank) == e + |gap| && At(s, e + |gap|, more)
  {
    AfterBlanks(s, e, gap, more);
    First(s, e, gap + more);
  }

  /** An operator between blanks, and what comes after. */
  lemma OperatorRead(s: string, i: nat, before: string, op: string, after: string, more: string)
    requires At(s, i, before + (op + (after + more))) && All(Blank, before) && All(Blank, after)
    requires (op == ">" || op == "|" || op == "&" || op == ";") && more != "" && Name.Has(more[0])
    ensures !Name.Has(op[0])
    ensures var o := Run(s, i, Blank);
            && o == i + |before| && Peek(s, o) == op[0] && o < |s|
            && Run(s, o + 1, Blank) == o + 1 + |after| && At(s, o + 1 + |after|, more)
  {
    hide Run, At, All, Kind.Has;
    OperatorChar(op);
    NameNotBlank(more[0]);
    FirstOf(op, after + more);
    AfterBlanks(s, i, before, op + (after + more));
    Split(s, i + |before|, op, after + more);
    Inside(s, i + |before|, op);
    AfterBlanks(s, i + |before| + 1, after, more);
  }

  lemma OperatorChar(op: string)
    requires op == ">" || op == "|" || op == "&" || op == ";"
    ensures |op| == 1 && !Name.Has(op[0]) && !Blank.Has(op[0])
  {
  }

  lemma NameNotBlank(c: char)
    ensures Name.Has(c) ==> !Blank.Has(c)
  {
  }

  lemma FirstOf(a: string, b: string)
    requires a != ""
    ensures a + b != "" && (a + b)[0] == a[0]
  {
  }

  lemma ShowFirst(ws: seq<Word>)
    requires ValidWords(ws)
    ensures ShowWords(ws) == ws[0].text + ShowWords(ws[1..]) && WordTexts(ws) == [ws[0].text] + WordTexts(ws[1..])
    ensures ShowWords(ws) != "" && Name.Has(ShowWords(ws)[0])
  {
    Starts(ws[0].text, ShowWords(ws[1..]));
    assert "" + (ws[0].text + ShowWords(ws[1..])) == ws[0].text + ShowWords(ws[1..]);
  }

  lemma ExecuteRead(s: string, i: nat, ws: seq<Word>)
    requires ValidWords(ws) && At(s, i, ShowWords(ws)) && !Name.Has(After(s, i + |ShowWords(ws)|))
    ensures var p := ReadExecute(s, i);
            p.Got? && Text(s, p.node) == Execute(WordTexts(ws)) && p.cursor == Run(s, i + |ShowWords(ws)|, Blank)
  {
    hide ReadWords, Run, Tokens, At, All, ShowWords, WordTexts;
    ShowFirst(ws);
    WordsRead(s, i, ws[0].text, ws[1..], 0);
  }

  lemma PlainIs(s: string, i: nat, j: nat)
    requires i <= |s| && ReadExecute(s, i).Got? && Run(s, ReadExecute(s, i).cursor, Blank) == j && Peek(s, j) != '>'
    ensures ReadRedirect(s, i) == Got(ReadExecute(s, i).node, j, Success)
  {
    hide ReadExecute, Run;
  }

  lemma RedirectIs(s: string, i: nat, j: nat, k: nat, e: nat)
    requires i <= |s| && ReadExecute(s, i).Got? && Run(s, ReadExecute(s, i).cursor, Blank) == j < |s|
             && Peek(s, j) == '>'
    requires Run(s, j + 1, Blank) == k < e && Run(s, k, Name) == e
    ensures ReadRedirect(s, i) == Got(Redirect(ReadExecute(s, i).node, Span(k, e - k)), e, Success)
  {
    hide ReadExecute, Run;
  }

  lemma PlainRead(s: string, i: nat, ws: seq<Word>, j: nat)
    requires ValidWords(ws) && At(s, i, ShowWords(ws)) && j == i + |ShowWords(ws)|
    requires !Name.Has(After(s, j)) && After(s, j) != '>'
    ensures var p := ReadRedirect(s, i);
            p.Got? && Text(s, p.node) == Execute(WordTexts(ws)) && Run(s, p.cursor, Blank) == Run(s, j, Blank)
  {
    hide ReadExecute, ReadRedirect, Run, Text, At, All, Kind.Has, ShowWords, WordTexts, ValidWords;
    ExecuteRead(s, i, ws);
    PlainIs(s, i, Run(s, j, Blank));
    RunTwice(s, j, Blank);
  }

  lemma IntoRead(s: string, i: nat, ws: seq<Word>, before: string, after: string, to: string, j: nat)
    requires ValidWords(ws) && All(Blank, before) && All(Blank, after) && ValidName(to)
    requires At(s, i, ShowWords(ws) + (before + (">" + (after + to))))
    requires j == i + |ShowWords(ws)| + |before| + 1 + |after| + |to| <= |s| && !Name.Has(After(s, j))
    ensures var p := ReadRedirect(s, i);
            p.Got? && Text(s, p.node) == Redirect(Execute(WordTexts(ws)), to) && p.cursor == j
  {
    hide ReadExecute, ReadRedirect, Run, Token, Tokens, At, All, Kind.Has, ShowWords, WordTexts, ValidWords, ValidName;
    var a := i + |ShowWords(ws)|;
    var k := a + |before| + 1 + |after|;
    Split(s, i, ShowWords(ws), before + (">" + (after + to)));
    NameFirst(to);
    OperatorRead(s, a, before, ">", after, to);
    ExecuteRead(s, i, ws);
    NotName(s, j);
    NameRead(s, k, to);
    RedirectIs(s, i, a + |before|, k, j);
  }

  lemma StageRead(s: string, i: nat, x: Stage, j: nat)
    requires ValidStage(x) && At(s, i, ShowStage(x)) && j == i + |ShowStage(x)|
    requires !Name.Has(After(s, j)) && After(s, j) != '>'
    ensures var p := ReadRedirect(s, i);
            p.Got? && Text(s, p.node) == StageTree(x) && Run(s, p.cursor, Blank) == Run(s, j, Blank)
  {
    hide ReadRedirect, Run, Text, At, All, Kind.Has, ShowWords, WordTexts, ValidWords, ValidName;
    Inside(s, i, ShowStage(x));
    match x
    case Plain(ws) => PlainRead(s, i, ws, j);
    case Into(ws, before, after, to) => IntoRead(s, i, ws, before, after, to, j);
  }

  lemma Inside(s: string, i: nat, t: string)
    requires At(s, i, t)
    ensures i + |t| <= |s|
  {
  }

  lemma NameFirst(t: string)
    requires ValidName(t)
    ensures t != "" && Name.Has(t[0])
  {
  }

  lemma NameRead(s: string, i: nat, t: string)
    requires At(s, i, t) && ValidName(t) && !Name.Has(Peek(s, i + |t|))
    ensures Run(s, i, Name) == i + |t| && Token(s, Span(i, |t|)) == t
  {
    RunOver(s, i, t, Name);
  }

  lemma StageFirst(x: Stage)
    requires ValidStage(x)
    ensures ShowStage(x) != "" && Name.Has(ShowStage(x)[0])
  {
    ShowFirst(x.words);
  }

  lemma PipelineFirst(p: Pipeline)
    requires ValidPipeline(p)
    ensures ShowPipeline(p) != "" && Name.Has(ShowPipeline(p)[0])
  {
    StageFirst(p.stage);
  }

  lemma ListFirst(l: List)
    requires ValidList(l)
    ensures ShowList(l) != "" && Name.Has(ShowList(l)[0])
  {
    PipelineFirst(l.pipeline);
  }

  predicate Ending(c: char) {
    c == '&' || c == ';' || c == '\0'
  }

  lemma SingleIs(s: string, i: nat, j: nat)
    requires i <= |s| && ReadRedirect(s, i).Got? && Run(s, ReadRedirect(s, i).cursor, Blank) == j && Peek(s, j) != '|'
    ensures ReadPipe(s, i) == Got(ReadRedirect(s, i).node, j, Success)
  {
    hide ReadRedirect, Run;
  }

  lemma PipedIs(s: string, i: nat, j: nat, k: nat)
    requires i <= |s| && ReadRedirect(s, i).Got? && Run(s, ReadRedirect(s, i).cursor, Blank) == j < |s|
             && Peek(s, j) == '|'
    requires Run(s, j + 1, Blank) == k && ReadPipe(s, k).Got?
    ensures ReadPipe(s, i) == Got(Pipe(ReadRedirect(s, i).node, ReadPipe(s, k).node), ReadPipe(s, k).cursor, Success)
  {
    hide ReadRedirect, Run;
  }

  lemma {:induction false} PipelineRead(s: string, i: nat, x: Pipeline)
    requires ValidPipeline(x) && At(s, i, ShowPipeline(x)) && Ending(After(s, i + |ShowPipeline(x)|))
    ensures var p := ReadPipe(s, i);
            && p.Got? && Text(s, p.node) == PipelineTree(x)
            && Run(s, p.cursor, Blank) == Run(s, i + |ShowPipeline(x)|, Blank)
    decreases x
  {
    hide ReadRedirect, ReadPipe, Run, Token, Tokens, Text, At, All, Kind.Has, ShowStage, StageTree, ValidStage,
         ShowPipeline, PipelineTree, ValidPipeline, After;
    Inside(s, i, ShowPipeline(x));
    EndingName(After(s, i + |ShowPipeline(x)|));
    PipelineParts(x);
    match x
    case Single(st) =>
      EndingNotPipe(s, i + |ShowStage(st)|);
      StageRead(s, i, st, i + |ShowStage(st)|);
      SingleIs(s, i, Run(s, i + |ShowStage(st)|, Blank));
    case Piped(st, before, after, rest) =>
      var j := i + |ShowStage(st)|;
      Split(s, i, ShowStage(st), before + ("|" + (after + ShowPipeline(rest))));
      PipelineFirst(rest);
      OperatorRead(s, j, before, "|", after, ShowPipeline(rest));
      AfterIs(s, j);
      StageRead(s, i, st, i + |ShowStage(st)|);
      PipelineRead(s, j + |before| + 1 + |after|, rest);
      PipedIs(s, i, j + |before|, j + |before| + 1 + |after|);
      TextPipe(s, ReadRedirect(s, i).node, ReadPipe(s, j + |before| + 1 + |after|).node);
  }

  /** A pipeline, one step taken apart. */
  lemma PipelineParts(x: Pipeline)
    requires ValidPipeline(x)
    ensures ValidStage(x.stage)
    ensures x.Single? ==> ShowPipeline(x) == ShowStage(x.stage) && PipelineTree(x) == StageTree(x.stage)
    ensures x.Piped? ==>
              && All(Blank, x.before) && All(Blank, x.after) && ValidPipeline(x.rest)
              && ShowPipeline(x) == ShowStage(x.stage) + (x.before + ("|" + (x.after + ShowPipeline(x.rest))))
              && |ShowPipeline(x)| == |ShowStage(x.stage)| + |x.before| + 1 + |x.after| + |ShowPipeline(x.rest)|
              && PipelineTree(x) == Pipe(StageTree(x.stage), PipelineTree(x.rest))
  {
  }

  lemma TextPipe(s: string, a: Node, b: Node)
    ensures Text(s, Pipe(a, b)) == Command.Pipe(Text(s, a), Text(s, b))
  {
  }

  lemma AfterIs(s: string, i: nat)
    requires i <= |s|
    ensures After(s, i) == Peek(s, Run(s, i, Blank))
  {
  }

  lemma EndingNotPipe(s: string, i: nat)
    requires i <= |s| && Ending(After(s, i))
    ensures Peek(s, Run(s, i, Blank)) != '|' && Peek(s, Run(s, i, Blank)) != '>'
  {
  }

  lemma EndingName(c: char)
    ensures Ending(c) ==> !Name.Has(c)
  {
  }

  lemma NothingRead(s: string, i: nat)
    requires i <= |s| && Peek(s, i) == '\0'
    ensures ReadList(s, i) == Null(i, Empty)
  {
    WordsEnd(s, i, 0);
  }

  lemma MarkRead(s: string, i: nat, before: string, amp: bool)
    requires At(s, i, before + Mark(amp)) && All(Blank, before)
    ensures Run(s, i, Blank) == i + |before| < |s| && Peek(s, i + |before|) == Mark(amp)[0]
  {
    AfterBlanks(s, i, before, Mark(amp));
  }

  lemma RunTwice(s: string, i: nat, k: Kind)
    requires i <= |s|
    ensures Run(s, Run(s, i, k), k) == Run(s, i, k)
  {
  }

  lemma LastIs(s: string, i: nat, j: nat)
    requires i <= |s| && ReadPipe(s, i).Got? && Run(s, ReadPipe(s, i).cursor, Blank) == j
    requires Peek(s, j) != '&' && Peek(s, j) != ';'
    ensures ReadList(s, i) == Got(ReadPipe(s, i).node, j, Success)
  {
    hide ReadPipe, Run;
  }

  lemma MoreIs(s: string, i: nat, j: nat, k: nat, amp: bool)
    requires i <= |s| && ReadPipe(s, i).Got? && Run(s, ReadPipe(s, i).cursor, Blank) == j < |s|
             && Peek(s, j) == Mark(amp)[0]
    requires Run(s, j + 1, Blank) == k
    ensures var left := if amp then Background(ReadPipe(s, i).node) else ReadPipe(s, i).node;
            var right := ReadList(s, k);
            ReadList(s, i) == if right.Got? then Got(Juxtaposition(left, right.node), right.cursor, right.result)
                              else Got(left, right.cursor, if right.result.Empty? then Success else right.result)
  {
    hide ReadPipe, Run;
  }

  lemma ClosedRead(s: string, i: nat, x: Pipeline, before: string, amp: bool, j: nat)
    requires ValidPipeline(x) && All(Blank, before) && At(s, i, ShowPipeline(x) + (before + Mark(amp)))
    requires j == i + |ShowPipeline(x)| + |before| + 1 <= |s| && After(s, j) == '\0'
    ensures var p := ReadList(s, i);
            && p.Got? && p.result.Success? && Text(s, p.node) == Item(x, amp)
            && Run(s, p.cursor, Blank) == Run(s, j, Blank)
  {
    hide ReadPipe, ReadList, Run, Token, Tokens, At, All, Kind.Has, ShowPipeline, PipelineTree, ValidPipeline;
    Split(s, i, ShowPipeline(x), before + Mark(amp));
    MarkRead(s, i + |ShowPipeline(x)|, before, amp);
    PipelineRead(s, i, x);
    NothingRead(s, Run(s, j, Blank));
    MoreIs(s, i, j - 1, Run(s, j, Blank), amp);
    RunTwice(s, j, Blank);
  }

  /** An item with more after it. */
  lemma ItemRead(s: string, i: nat, x: Pipeline, before: string, amp: bool, after: string, more: string, k: nat)
    requires ValidPipeline(x) && All(Blank, before) && All(Blank, after) && more != "" && Name.Has(more[0])
    requires At(s, i, ShowPipeline(x) + (before + (Mark(amp) + (after + more))))
    requires k == i + |ShowPipeline(x)| + |before| + 1 + |after|
    ensures At(s, k, more) && k <= |s|
    ensures var p, right := ReadList(s, i), ReadList(s, k);
            right.Got? ==> p.Got? && p.cursor == right.cursor && p.result == right.result
                           && Text(s, p.node) == Juxtaposition(Item(x, amp), Text(s, right.node))
  {
    hide ReadPipe, ReadList, Run, Token, Tokens, At, All, Kind.Has, ShowPipeline, PipelineTree, ValidPipeline;
    var j := i + |ShowPipeline(x)|;
    Split(s, i, ShowPipeline(x), before + (Mark(amp) + (after + more)));
    OperatorRead(s, j, before, Mark(amp), after, more);
    PipelineRead(s, i, x);
    MoreIs(s, i, j + |before|, k, amp);
  }

  lemma {:induction false} ListRead(s: string, i: nat, x: List)
    requires ValidList(x) && At(s, i, ShowList(x)) && After(s, i + |ShowList(x)|) == '\0'
    ensures var p := ReadList(s, i);
            && p.Got? && p.result.Success? && Text(s, p.node) == ListTree(x)
            && Run(s, p.cursor, Blank) == Run(s, i + |ShowList(x)|, Blank)
    decreases x
  {
    hide ReadPipe, ReadList, Run, Token, Tokens, At, All, Kind.Has, ShowPipeline, PipelineTree, ValidPipeline;
    Inside(s, i, ShowList(x));
    match x
    case Last(p) =>
      PipelineRead(s, i, p);
      LastIs(s, i, Run(s, i + |ShowPipeline(p)|, Blank));
    case Closed(p, before, amp) =>
      ClosedRead(s, i, p, before, amp, i + |ShowPipeline(p)| + |before| + 1);
    case More(p, before, amp, after, rest) =>
      var k := i + |ShowPipeline(p)| + |before| + 1 + |after|;
      ListFirst(rest);
      ItemRead(s, i, p, before, amp, after, ShowList(rest), k);
      ListRead(s, k, rest);
  }

  /** Every spelling of a command is read as that command. */
  lemma LineRead(l: Line)
    requires ValidLine(l)
    ensures Reads(Show(l), ListTree(l.list))
  {
    hide ReadList, ReadLine, Run, ShowList, ListTree, ValidList, All, At, Kind.Has, Text, After;
    var s := Show(l);
    var i, j := |l.lead|, |l.lead| + |ShowList(l.list)|;
    WholeLine(s);
    Split(s, 0, l.lead, ShowList(l.list) + l.trail);
    Split(s, i, ShowList(l.list), l.trail);
    ListFirst(l.list);
    NameNotBlank(ShowList(l.list)[0]);
    FirstOf(ShowList(l.list), l.trail);
    AfterBlanks(s, 0, l.lead, ShowList(l.list) + l.trail);
    RunOver(s, j, l.trail, Blank);
    AfterIs(s, j);
    ListRead(s, i, l.list);
    LineIs(s, i);
  }

  lemma WholeLine(s: string)
    ensures At(s, 0, s) && Peek(s, |s|) == '\0' && !Blank.Has('\0')
  {
    assert s[0..|s|] == s;
  }

  lemma LineIs(s: string, i: nat)
    requires Run(s, 0, Blank) == i <= |s|
    requires var p := ReadList(s, i); p.Got? && p.result.Success? && Run(s, p.cursor, Blank) == |s|
    ensures ReadLine(s) == Got(ReadList(s, i).node, |s|, Success)
  {
    hide ReadList, Run;
  }

  // ----- only spellings are accepted -----

  lemma Join(s: string, i: nat, j: nat, k: nat)
    requires i <= j <= k <= |s|
    ensures s[i..k] == s[i..j] + s[j..k]
  {
  }

  lemma Associate(a: string, b: string, c: string)
    ensures (a + b) + c == a + (b + c)
  {
  }

  /** The blanks at i. */
  lemma BlanksAt(s: string, i: nat)
    requires i <= |s|
    ensures All(Blank, s[i..Run(s, i, Blank)])
  {
  }

  lemma BlanksJoin(a: string, b: string)
    requires All(Blank, a) && All(Blank, b)
    ensures All(Blank, a + b)
  {
  }

  /** One word, and the reading after it. */
  lemma WordWritten(s: string, i: nat, n: nat)
    requires i <= |s| && n <= MAX_ARGC && !ReadWords(s, i, n).full && ReadWords(s, i, n).argv != []
    ensures var e := Run(s, i, Name); var b := Run(s, e, Blank); var r := ReadWords(s, b, n + 1);
            && i < e && n < MAX_ARGC && ValidName(s[i..e]) && Token(s, Span(i, e - i)) == s[i..e]
            && ReadWords(s, i, n) == Words([Span(i, e - i)] + r.argv, r.cursor, r.full)
            && (n + 1 == MAX_ARGC ==> r.full) && (r.argv == [] && !r.full ==> r.cursor == b) && (r.argv != [] ==> e < b)
  {
    var e := Run(s, i, Name);
    var b := Run(s, e, Blank);
    if e == b { assert ReadWords(s, b, n + 1).argv == []; }
  }

  lemma {:induction false} WordsWritten(s: string, i: nat, n: nat) returns (text: string, rest: seq<Word>, gap: string)
    requires i <= |s| && n <= MAX_ARGC && !ReadWords(s, i, n).full && ReadWords(s, i, n).argv != []
    ensures ValidName(text) && Gapped(rest) && All(Blank, gap) && n + 1 + |rest| < MAX_ARGC
    ensures var w := ReadWords(s, i, n);
            s[i..w.cursor] == text + (ShowWords(rest) + gap) && Tokens(s, w.argv) == [text] + WordTexts(rest)
    decreases MAX_ARGC - n
  {
    hide Run, ReadWords, Token, Tokens, All, ValidName;
    var e := Run(s, i, Name);
    var b := Run(s, e, Blank);
    WordWritten(s, i, n);
    var r := ReadWords(s, b, n + 1);
    BlanksAt(s, e);
    TokensOf(s, Span(i, e - i), r.argv);
    Join(s, i, e, b);
    text := s[i..e];
    if r.argv == [] {
      rest, gap := [], s[e..b];
      NoTokens(s);
      assert "" + gap == gap;
    } else {
      var t, more, g := WordsWritten(s, b, n + 1);
      rest, gap := [Word(s[e..b], t)] + more, g;
      assert rest[1..] == more;
      Join(s, i, b, r.cursor);
      assert text + s[e..b] + (t + (ShowWords(more) + gap)) == text + (s[e..b] + (t + ShowWords(more)) + gap);
    }
  }

  lemma ExecuteWritten(s: string, i: nat) returns (ws: seq<Word>, gap: string)
    requires i <= |s| && ReadExecute(s, i).Got?
    ensures ValidWords(ws) && All(Blank, gap)
    ensures var p := ReadExecute(s, i);
            s[i..p.cursor] == ShowWords(ws) + gap && Text(s, p.node) == Execute(WordTexts(ws))
  {
    hide ReadWords, Tokens, All, ValidName;
    var text, rest, g := WordsWritten(s, i, 0);
    ws, gap := [Word("", text)] + rest, g;
    assert ws[1..] == rest;
    Associate(text, ShowWords(rest), gap);
    assert "" + (text + ShowWords(rest)) == text + ShowWords(rest);
    assert All(Blank, "") by { NoBlanks(); }
  }

  lemma NoBlanks()
    ensures All(Blank, "")
  {
  }

  lemma StageWritten(s: string, i: nat) returns (x: Stage, gap: string)
    requires i <= |s| && ReadRedirect(s, i).Got?
    ensures ValidStage(x) && All(Blank, gap)
    ensures var p := ReadRedirect(s, i); s[i..p.cursor] == ShowStage(x) + gap && Text(s, p.node) == StageTree(x)
  {
    hide ReadExecute, Run, Tokens, All, ShowWords, WordTexts, ValidWords;
    var from := ReadExecute(s, i);
    var ws, g := ExecuteWritten(s, i);
    var j := Run(s, from.cursor, Blank);
    Join(s, i, from.cursor, j);
    BlanksAt(s, from.cursor);
    BlanksJoin(g, s[from.cursor..j]);
    var before := g + s[from.cursor..j];
    Associate(ShowWords(ws), g, s[from.cursor..j]);
    if Peek(s, j) != '>' {
      x, gap := Plain(ws), before;
    } else {
      var k := Run(s, j + 1, Blank);
      var e := Run(s, k, Name);
      BlanksAt(s, j + 1);
      NoBlanks();
      NameAt(s, k);
      x, gap := Into(ws, before, s[j + 1..k], s[k..e]), "";
      OperatorWritten(s, i, j, k, e, ShowWords(ws), before);
      assert ShowStage(x) + "" == ShowStage(x);
    }
  }

  lemma NameAt(s: string, i: nat)
    requires i <= |s|
    ensures All(Name, s[i..Run(s, i, Name)]) && (i < Run(s, i, Name) ==> ValidName(s[i..Run(s, i, Name)]))
  {
  }

  /** From i: left, blanks up to j, an operator, blanks up to k, and the rest up to e. */
  lemma OperatorWritten(s: string, i: nat, j: nat, k: nat, e: nat, left: string, before: string)
    requires i <= j < k <= e <= |s| && s[i..j] == left + before
    ensures s[i..e] == left + (before + ([s[j]] + (s[j + 1..k] + s[k..e])))
  {
    Join(s, i, j, e);
    Join(s, j, j + 1, e);
    Join(s, j + 1, k, e);
    Associate(left, before, s[j..e]);
    assert s[j..j + 1] == [s[j]];
  }

  lemma Regroup(left: string, before: string, op: string, after: string, more: string, gap: string)
    ensures left + (before + (op + (after + (more + gap)))) == left + (before + (op + (after + more))) + gap
  {
    Associate(after, more, gap);
    Associate(op, after + more, gap);
    Associate(before, op + (after + more), gap);
    Associate(left, before + (op + (after + more)), gap);
  }

  lemma {:induction false} PipelineWritten(s: string, i: nat) returns (x: Pipeline, gap: string)
    requires i <= |s| && ReadPipe(s, i).Got?
    ensures ValidPipeline(x) && All(Blank, gap)
    ensures var p := ReadPipe(s, i); s[i..p.cursor] == ShowPipeline(x) + gap && Text(s, p.node) == PipelineTree(x)
    decreases |s| - i
  {
    hide ReadRedirect, Run, Tokens, All, ShowStage, StageTree, ValidStage;
    var left := ReadRedirect(s, i);
    var st, g := StageWritten(s, i);
    var j := Run(s, left.cursor, Blank);
    Join(s, i, left.cursor, j);
    BlanksAt(s, left.cursor);
    BlanksJoin(g, s[left.cursor..j]);
    var before := g + s[left.cursor..j];
    Associate(ShowStage(st), g, s[left.cursor..j]);
    if Peek(s, j) != '|' {
      x, gap := Single(st), before;
    } else {
      var k := Run(s, j + 1, Blank);
      BlanksAt(s, j + 1);
      var rest, g' := PipelineWritten(s, k);
      x, gap := Piped(st, before, s[j + 1..k], rest), g';
      OperatorWritten(s, i, j, k, ReadPipe(s, k).cursor, ShowStage(st), before);
      Regroup(ShowStage(st), before, "|", s[j + 1..k], ShowPipeline(rest), gap);
    }
  }

  lemma TextItem(s: string, n: Node)
    ensures Text(s, Background(n)) == Command.Background(Text(s, n))
  {
  }

  lemma TextBoth(s: string, a: Node, b: Node)
    ensures Text(s, Juxtaposition(a, b)) == Command.Juxtaposition(Text(s, a), Text(s, b))
  {
  }

  /** A list, one step taken apart. */
  lemma ListParts(x: List)
    ensures x.Last? ==>
              && (ValidList(x) <==> ValidPipeline(x.pipeline))
              && ShowList(x) == ShowPipeline(x.pipeline) && ListTree(x) == PipelineTree(x.pipeline)
    ensures x.Closed? ==>
              && (ValidList(x) <==> ValidPipeline(x.pipeline) && All(Blank, x.before))
              && ShowList(x) == ShowPipeline(x.pipeline) + (x.before + Mark(x.amp))
              && ListTree(x) == Item(x.pipeline, x.amp)
    ensures x.More? ==>
              && (ValidList(x) <==>
                    ValidPipeline(x.pipeline) && All(Blank, x.before) && All(Blank, x.after) && ValidList(x.rest))
              && ShowList(x) == ShowPipeline(x.pipeline) + (x.before + (Mark(x.amp) + (x.after + ShowList(x.rest))))
              && ListTree(x) == Command.Juxtaposition(Item(x.pipeline, x.amp), ListTree(x.rest))
  {
  }

  lemma GotPipe(s: string, i: nat)
    requires i <= |s| && ReadList(s, i).Got?
    ensures ReadPipe(s, i).Got?
  {
    hide ReadPipe, Run;
  }

  /** The operator ends the list: what comes after the blanks behind it is not an item. */
  lemma ClosedWritten(show: string, before: string, op: string, after: string)
    ensures show + (before + (op + (after + ""))) == show + (before + op) + after
  {
    assert after + "" == after;
    Associate(before, op, after);
    Associate(show, before + op, after);
  }

  lemma {:induction false} ListWritten(s: string, i: nat) returns (x: List, gap: string)
    requires i <= |s| && ReadList(s, i).Got? && ReadList(s, i).result.Success?
    ensures ValidList(x) && All(Blank, gap)
    ensures var p := ReadList(s, i); s[i..p.cursor] == ShowList(x) + gap && Text(s, p.node) == ListTree(x)
    decreases |s| - i
  {
    hide ReadPipe, ReadList, Run, Tokens, All, ShowPipeline, PipelineTree, ValidPipeline, Text, ShowList, ListTree,
         ValidList;
    GotPipe(s, i);
    var left := ReadPipe(s, i);
    var p, g := PipelineWritten(s, i);
    var j := Run(s, left.cursor, Blank);
    Join(s, i, left.cursor, j);
    BlanksAt(s, left.cursor);
    BlanksJoin(g, s[left.cursor..j]);
    var before := g + s[left.cursor..j];
    Associate(ShowPipeline(p), g, s[left.cursor..j]);
    TextItem(s, left.node);
    if Peek(s, j) != '&' && Peek(s, j) != ';' {
      x, gap := Last(p), before;
      LastIs(s, i, j);
    } else {
      var amp := Peek(s, j) == '&';
      var k := Run(s, j + 1, Blank);
      BlanksAt(s, j + 1);
      var right := ReadList(s, k);
      MoreIs(s, i, j, k, amp);
      OperatorWritten(s, i, j, k, right.cursor, ShowPipeline(p), before);
      if right.Got? {
        var rest, g' := ListWritten(s, k);
        x, gap := More(p, before, amp, s[j + 1..k], rest), g';
        Regroup(ShowPipeline(p), before, Mark(amp), s[j + 1..k], ShowList(rest), gap);
        TextBoth(s, if amp then Background(left.node) else left.node, right.node);
      } else {
        x, gap := Closed(p, before, amp), s[j + 1..k];
        assert s[k..k] == "";
        ClosedWritten(ShowPipeline(p), before, Mark(amp), gap);
      }
    }
    ListParts(x);
  }

  /** A line without null characters that is accepted is a spelling of its tree. */
  lemma LineWritten(s: string) returns (l: Line)
    requires '\0' !in s && ReadLine(s).result.Success?
    ensures ReadLine(s).Got? && Spells(l, s, Text(s, ReadLine(s).node))
  {
    hide ReadList, Run, All, ShowList, ListTree, ValidList;
    var i := Run(s, 0, Blank);
    var list := ReadList(s, i);
    var j := Run(s, list.cursor, Blank);
    var x, gap := ListWritten(s, i);
    BlanksAt(s, 0);
    BlanksAt(s, list.cursor);
    BlanksJoin(gap, s[list.cursor..j]);
    l := Line(s[0..i], x, gap + s[list.cursor..j]);
    Join(s, 0, i, j);
    Join(s, i, list.cursor, j);
    Associate(ShowList(x), gap, s[list.cursor..j]);
    assert s[0..j] == s;
  }

  /** The parser accepts exactly the spellings, and reads them as what they spell. */
  lemma ReadsSpellings(s: string, c: Command)
    requires '\0' !in s
    ensures Reads(s, c) <==> exists l :: Spells(l, s, c)
  {
    if Reads(s, c) {
      var l := LineWritten(s);
      assert Spells(l, s, c);
    }
    forall l | Spells(l, s, c) ensures Reads(s, c) {
      LineRead(l);
    }
  }

  /** No line spells two commands. */
  lemma Unambiguous(a: Line, b: Line)
    requires ValidLine(a) && ValidLine(b) && Show(a) == Show(b)
    ensures ListTree(a.list) == ListTree(b.list)
  {
    LineRead(a);
    LineRead(b);
  }

  // ----- printing a tree -----

  predicate IsExecute(c: Command) {
    c.Execute? && 0 < |c.argv| < MAX_ARGC && forall k :: 0 <= k < |c.argv| ==> ValidName(c.argv[k])
  }

  predicate IsStage(c: Command) {
    IsExecute(c) || (c.Redirect? && IsExecute(c.from) && ValidName(c.to))
  }

  predicate IsPipeline(c: Command) {
    IsStage(c) || (c.Pipe? && IsStage(c.left) && IsPipeline(c.right))
  }

  predicate IsItem(c: Command) {
    IsPipeline(c) || (c.Background? && IsPipeline(c.inner))
  }

  /** The trees the grammar has: pipes and sequences nest to the right, and a redirection
      is of a plain command of at most 15 arguments. */
  predicate WellFormed(c: Command) {
    IsItem(c) || (c.Juxtaposition? && IsItem(c.left) && WellFormed(c.right))
  }

  function PrintWords(argv: seq<string>): string
    decreases |argv|
  {
    if argv == [] then "" else " " + (argv[0] + PrintWords(argv[1..]))
  }

  function Print(c: Command): string {
    match c
    case Execute(argv) => if argv == [] then "" else argv[0] + PrintWords(argv[1..])
    case Redirect(from, to) => Print(from) + (" " + (">" + (" " + to)))
    case Pipe(l, r) => Print(l) + (" " + ("|" + (" " + Print(r))))
    case Background(x) => Print(x) + (" " + "&")
    case Juxtaposition(l, r) =>
      if l.Background? then Print(l.inner) + (" " + ("&" + (" " + Print(r))))
         else Print(l) + ("" + (";" + (" " + Print(r))))
  }

  function LayWords(argv: seq<string>): (ws: seq<Word>)
    ensures |ws| == |argv|
    decreases |argv|
  {
    if argv == [] then [] else [Word(" ", argv[0])] + LayWords(argv[1..])
  }

  lemma {:induction false} WordsLaid(argv: seq<string>)
    requires forall k :: 0 <= k < |argv| ==> ValidName(argv[k])
    ensures Gapped(LayWords(argv)) && ShowWords(LayWords(argv)) == PrintWords(argv) && WordTexts(LayWords(argv)) == argv
    decreases |argv|
  {
    if argv != [] {
      WordsLaid(argv[1..]);
      assert LayWords(argv)[1..] == LayWords(argv[1..]);
      assert argv == [argv[0]] + argv[1..];
    }
  }

  lemma ExecuteLaid(c: Command) returns (ws: seq<Word>)
    requires IsExecute(c)
    ensures ValidWords(ws) && ShowWords(ws) == Print(c) && Execute(WordTexts(ws)) == c
  {
    var argv := c.argv;
    WordsLaid(argv[1..]);
    ws := [Word("", argv[0])] + LayWords(argv[1..]);
    assert ws[1..] == LayWords(argv[1..]) && argv == [argv[0]] + argv[1..];
    assert "" + (argv[0] + PrintWords(argv[1..])) == argv[0] + PrintWords(argv[1..]);
  }

  lemma StageLaid(c: Command) returns (x: Stage)
    requires IsStage(c)
    ensures ValidStage(x) && ShowStage(x) == Print(c) && StageTree(x) == c
  {
    if c.Redirect? {
      var ws := ExecuteLaid(c.from);
      x := Into(ws, " ", " ", c.to);
    } else {
      var ws := ExecuteLaid(c);
      x := Plain(ws);
    }
  }

  lemma {:induction false} PipelineLaid(c: Command) returns (p: Pipeline)
    requires IsPipeline(c)
    ensures ValidPipeline(p) && ShowPipeline(p) == Print(c) && PipelineTree(p) == c
  {
    if c.Pipe? {
      var x := StageLaid(c.left);
      var rest := PipelineLaid(c.right);
      p := Piped(x, " ", " ", rest);
    } else {
      var x := StageLaid(c);
      p := Single(x);
    }
  }

  lemma {:induction false} ListLaid(c: Command) returns (l: List)
    requires WellFormed(c)
    ensures ValidList(l) && ShowList(l) == Print(c) && ListTree(l) == c
    decreases c
  {
    match c
    case Background(x) =>
      var p := PipelineLaid(x);
      l := Closed(p, " ", true);
    case Juxtaposition(left, right) =>
      var p := PipelineLaid(if left.Background? then left.inner else left);
      var rest := ListLaid(right);
      l := if left.Background? then More(p, " ", true, " ", rest) else More(p, "", false, " ", rest);
    case _ =>
      var p := PipelineLaid(c);
      l := Last(p);
  }

  /** Printing a well-formed tree and parsing what was printed gives the tree back. */
  lemma PrintThenRead(c: Command)
    requires WellFormed(c)
    ensures Reads(Print(c), c)
  {
    hide ReadLine, Print, ShowList, ListTree;
    var l := ListLaid(c);
    LineRead(Line("", l, ""));
    assert "" + (ShowList(l) + "") == ShowList(l);
  }

  lemma StageWellFormed(x: Stage)
    requires ValidStage(x)
    ensures IsStage(StageTree(x))
  {
    TextsValid(x.words[1..]);
    assert WordTexts(x.words) == [x.words[0].text] + WordTexts(x.words[1..]);
  }

  lemma {:induction false} TextsValid(ws: seq<Word>)
    requires Gapped(ws)
    ensures forall k :: 0 <= k < |ws| ==> ValidName(WordTexts(ws)[k])
    decreases |ws|
  {
    if ws != [] { TextsValid(ws[1..]); }
  }

  lemma {:induction false} PipelineWellFormed(p: Pipeline)
    requires ValidPipeline(p)
    ensures IsPipeline(PipelineTree(p))
  {
    StageWellFormed(p.stage);
    if p.Piped? { PipelineWellFormed(p.rest); }
  }

  lemma {:induction false} ListWellFormed(l: List)
    requires ValidList(l)
    ensures WellFormed(ListTree(l))
  {
    PipelineWellFormed(l.pipeline);
    if l.More? { ListWellFormed(l.rest); }
  }

  /** The trees the parser can return are the well-formed ones. */
  lemma TreesRead(c: Command)
    ensures WellFormed(c) <==> exists s :: '\0' !in s && Reads(s, c)
  {
    hide ReadLine, Show, Print;
    if WellFormed(c) {
      PrintThenRead(c);
      PrintedClean(c);
      assert '\0' !in Print(c) && Reads(Print(c), c);
    }
    forall s | '\0' !in s && Reads(s, c) ensures WellFormed(c) {
      var l := LineWritten(s);
      ListWellFormed(l.list);
    }
  }

  predicate Clean(s: string) {
    forall k :: 0 <= k < |s| ==> s[k] != '\0'
  }

  lemma {:induction false} WordsClean(argv: seq<string>)
    requires forall k :: 0 <= k < |argv| ==> ValidName(argv[k])
    ensures Clean(PrintWords(argv))
    decreases |argv|
  {
    if argv != [] { WordsClean(argv[1..]); }
  }

  lemma {:induction false} PrintedClean(c: Command)
    requires WellFormed(c)
    ensures Clean(Print(c))
    decreases c
  {
    match c
    case Execute(argv) => WordsClean(argv[1..]);
    case Redirect(from, to) => PrintedClean(from);
    case Pipe(l, r) => PrintedClean(l); PrintedClean(r);
    case Background(x) => PrintedClean(x);
    case Juxtaposition(l, r) =>
      PrintedClean(r);
      PrintedClean(if l.Background? then l.inner else l);
  }

  /** The line is taken for empty exactly when it has nothing but blanks. */
  lemma EmptyIffBlank(s: string)
    requires '\0' !in s
    ensures ReadLine(s).result.Empty? <==> All(Blank, s)
  {
    hide ReadPipe;
    var i := Run(s, 0, Blank);
    if All(Blank, s) {
      assert s[0..|s|] == s;
      RunOver(s, 0, s, Blank);
      NothingRead(s, |s|);
    }
  }
}
