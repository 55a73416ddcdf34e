/** The parser of userland/sh.c: a cursor into a null-terminated line, and null_terminate,
    which cuts the line up into the strings of the tree, in place. */
module ShellParser {
  import opened ShellSyntax

  /** A struct node*. */
  datatype Pointer = NULL | To(node: Node)

  /** What is parsed when a function has returned n. */
  function Outcome(n: Pointer, cursor: nat, result: Result): Parsed {
    match n
    case NULL => Null(cursor, result)
    case To(node) => Got(node, cursor, result)
  }

  // ----- strings in the line, after null_terminate -----

  function CString(buf: seq<char>, i: nat): string
    decreases |buf| - i
  {
    if i < |buf| && buf[i] != '\0' then [buf[i]] + CString(buf, i + 1) else ""
  }

  function CStrings(buf: seq<char>, argv: seq<Span>): seq<string>
    decreases |argv|
  {
    if argv == [] then [] else [CString(buf, argv[0].start)] + CStrings(buf, argv[1..])
  }

  /** The command that run_command sees, which knows where strings start only. */
  function ReadBack(buf: seq<char>, n: Node): Command {
    match n
    case Execute(argv) => Execute(CStrings(buf, argv))
    case Juxtaposition(l, r) => Juxtaposition(ReadBack(buf, l), ReadBack(buf, r))
    case Pipe(l, r) => Pipe(ReadBack(buf, l), ReadBack(buf, r))
    case Redirect(f, to) => Redirect(ReadBack(buf, f), CString(buf, to.start))
    case Background(x) => Background(ReadBack(buf, x))
  }

  function End(at: Span): nat {
    at.start + at.length
  }

  /** Where the strings of a tree end. */
  function Ends(n: Node): set<nat> {
    match n
    case Execute(argv) => set k | 0 <= k < |argv| :: End(argv[k])
    case Juxtaposition(l, r) => Ends(l) + Ends(r)
    case Pipe(l, r) => Ends(l) + Ends(r)
    case Redirect(f, to) => Ends(f) + {End(to)}
    case Background(x) => Ends(x)
  }

  /** A string of the tree is a whole run of name characters of the line. */
  predicate CutSpan(s: string, at: Span) {
    End(at) <= |s| && !Name.Has(Peek(s, End(at))) && forall k :: at.start <= k < End(at) ==> Name.Has(s[k])
  }

  predicate Cut(s: string, n: Node) {
    match n
    case Execute(argv) => forall k :: 0 <= k < |argv| ==> CutSpan(s, argv[k])
    case Juxtaposition(l, r) => Cut(s, l) && Cut(s, r)
    case Pipe(l, r) => Cut(s, l) && Cut(s, r)
    case Redirect(f, to) => Cut(s, f) && CutSpan(s, to)
    case Background(x) => Cut(s, x)
  }

  lemma {:induction false} WordsCut(s: string, i: nat, n: nat)
    requires i <= |s| && n <= MAX_ARGC
    ensures forall k :: 0 <= k < |ReadWords(s, i, n).argv| ==> CutSpan(s, ReadWords(s, i, n).argv[k])
    decreases MAX_ARGC - n
  {
    var e := Run(s, i, Name);
    if n < MAX_ARGC && e > i {
      assert CutSpan(s, Span(i, e - i));
      WordsCut(s, Run(s, e, Blank), n + 1);
    }
  }

  lemma RedirectCut(s: string, i: nat)
    requires i <= |s| && ReadRedirect(s, i).Got?
    ensures Cut(s, ReadRedirect(s, i).node)
  {
    hide ReadExecute, CutSpan, Run;
    var from := ReadExecute(s, i);
    ExecuteCut(s, i);
    var j := Run(s, from.cursor, Blank);
    if Peek(s, j) == '>' { NameCut(s, Run(s, j + 1, Blank)); }
  }

  lemma ExecuteCut(s: string, i: nat)
    requires i <= |s| && ReadExecute(s, i).Got?
    ensures Cut(s, ReadExecute(s, i).node)
  {
    hide ReadWords;
    WordsCut(s, i, 0);
  }

  lemma NameCut(s: string, k: nat)
    requires k <= |s|
    ensures CutSpan(s, Span(k, Run(s, k, Name) - k))
  {
  }

  lemma {:induction false} PipeCut(s: string, i: nat)
    requires i <= |s| && ReadPipe(s, i).Got?
    ensures Cut(s, ReadPipe(s, i).node)
    decreases |s| - i
  {
    hide ReadRedirect, CutSpan;
    var left := ReadRedirect(s, i);
    RedirectCut(s, i);
    var j := Run(s, left.cursor, Blank);
    if Peek(s, j) == '|' { PipeCut(s, Run(s, j + 1, Blank)); }
  }

  lemma {:induction false} ListCut(s: string, i: nat)
    requires i <= |s| && ReadList(s, i).Got?
    ensures Cut(s, ReadList(s, i).node)
    decreases |s| - i
  {
    hide ReadPipe, CutSpan;
    var left := ReadPipe(s, i);
    PipeCut(s, i);
    var j := Run(s, left.cursor, Blank);
    if Peek(s, j) == '&' || Peek(s, j) == ';' {
      var k := Run(s, j + 1, Blank);
      if ReadList(s, k).Got? { ListCut(s, k); }
    }
  }

  lemma {:induction false} EndsInside(s: string, n: Node)
    requires Cut(s, n)
    ensures forall e :: e in Ends(n) ==> e <= |s| && !Name.Has(Peek(s, e))
  {
    match n
    case Execute(argv) =>
    case Juxtaposition(l, r) => EndsInside(s, l); EndsInside(s, r);
    case Pipe(l, r) => EndsInside(s, l); EndsInside(s, r);
    case Redirect(f, _) => EndsInside(s, f);
    case Background(x) => EndsInside(s, x);
  }

  /** The line keeps its name characters. */
  ghost predicate Keeps(s: string, buf: seq<char>) {
    |s| <= |buf| && forall k :: 0 <= k < |s| && Name.Has(s[k]) ==> buf[k] == s[k]
  }

  ghost predicate ZeroAt(buf: seq<char>, ends: set<nat>) {
    forall e :: e in ends ==> e < |buf| && buf[e] == '\0'
  }

  lemma {:induction false} StringCut(s: string, buf: seq<char>, at: Span)
    requires CutSpan(s, at) && Keeps(s, buf) && End(at) < |buf| && buf[End(at)] == '\0'
    ensures CString(buf, at.start) == Token(s, at)
    decreases at.length
  {
    if at.length > 0 {
      assert s[at.start..End(at)] == [s[at.start]] + s[at.start + 1..End(at)];
      StringCut(s, buf, Span(at.start + 1, at.length - 1));
    }
  }

  lemma {:induction false} StringsCut(s: string, buf: seq<char>, argv: seq<Span>)
    requires Keeps(s, buf)
    requires forall k :: 0 <= k < |argv| ==> CutSpan(s, argv[k]) && End(argv[k]) < |buf| && buf[End(argv[k])] == '\0'
    ensures CStrings(buf, argv) == Tokens(s, argv)
    decreases |argv|
  {
    if argv != [] {
      StringCut(s, buf, argv[0]);
      StringsCut(s, buf, argv[1..]);
    }
  }

  /** Once every end holds a null character, each string reads back as its token. */
  lemma {:induction false} ReadsBack(s: string, buf: seq<char>, n: Node)
    requires Cut(s, n) && Keeps(s, buf) && ZeroAt(buf, Ends(n))
    ensures ReadBack(buf, n) == Text(s, n)
  {
    hide CutSpan, Keeps, CString, CStrings, Token, Tokens;
    match n
    case Execute(argv) =>
      forall k | 0 <= k < |argv| ensures End(argv[k]) in Ends(n) { }
      StringsCut(s, buf, argv);
    case Juxtaposition(l, r) => ReadsBack(s, buf, l); ReadsBack(s, buf, r);
    case Pipe(l, r) => ReadsBack(s, buf, l); ReadsBack(s, buf, r);
    case Redirect(f, to) =>
      assert End(to) in Ends(n);
      ReadsBack(s, buf, f);
      StringCut(s, buf, to);
    case Background(x) => ReadsBack(s, buf, x);
  }

  // ----- the loop of parse_execute -----

  /** Arguments argv have been read from `from` on, up to the cursor. */
  ghost predicate Reading(s: string, from: nat, cursor: nat, argv: seq<Span>)
    requires from <= |s| && cursor <= |s| && |argv| <= MAX_ARGC
  {
    var rest := ReadWords(s, cursor, |argv|);
    ReadWords(s, from, 0) == Words(argv + rest.argv, rest.cursor, rest.full)
  }

  lemma WordsOn(s: string, i: nat, n: nat)
    requires i <= |s| && n < MAX_ARGC && Run(s, i, Name) > i
    ensures var e := Run(s, i, Name); var rest := ReadWords(s, Run(s, e, Blank), n + 1);
            ReadWords(s, i, n) == Words([Span(i, e - i)] + rest.argv, rest.cursor, rest.full)
  {
    hide Run;
  }

  lemma ReadingStarts(s: string, from: nat)
    requires from <= |s|
    ensures Reading(s, from, from, [])
  {
    hide ReadWords;
    assert [] + ReadWords(s, from, 0).argv == ReadWords(s, from, 0).argv;
  }

  lemma ReadingOn(s: string, from: nat, cursor: nat, argv: seq<Span>)
    requires from <= |s| && cursor <= |s| && |argv| < MAX_ARGC && Reading(s, from, cursor, argv)
             && Run(s, cursor, Name) > cursor
    ensures var e := Run(s, cursor, Name);
            Reading(s, from, Run(s, e, Blank), argv + [Span(cursor, e - cursor)])
  {
    hide Run, ReadWords;
    WordsOn(s, cursor, |argv|);
    var e := Run(s, cursor, Name);
    var rest := ReadWords(s, Run(s, e, Blank), |argv| + 1);
    assert argv + ([Span(cursor, e - cursor)] + rest.argv) == (argv + [Span(cursor, e - cursor)]) + rest.argv;
  }

  lemma ReadingEnds(s: string, from: nat, cursor: nat, argv: seq<Span>)
    requires from <= |s| && cursor <= |s| && |argv| <= MAX_ARGC && Reading(s, from, cursor, argv)
    requires |argv| == MAX_ARGC || Run(s, cursor, Name) == cursor
    ensures ReadWords(s, from, 0) == Words(argv, cursor, |argv| == MAX_ARGC)
  {
    hide Run;
    assert argv + [] == argv;
  }

  // ----- the parser -----

  class Parser {
    var line: array<char>
    var cursor: nat
    var result: Result
    ghost var text: string

    /** The line holds the text, and a null character after it. */
    ghost predicate Valid()
      reads this, line
    {
      && |text| < line.Length && line[..|text|] == text && line[|text|] == '\0' && '\0' !in text
      && cursor <= |text|
    }

    constructor ()
      ensures fresh(line)
    {
      line, cursor, result, text := new char[0], 0, Success, "";
    }

    method Peek() returns (c: char)
      requires Valid()
      ensures c == ShellSyntax.Peek(text, cursor)
    {
      c := line[cursor];
    }

    method ConsumeIf(c: char) returns (there: bool)
      requires Valid() && c != '\0'
      modifies this`cursor
      ensures Valid() && there == (ShellSyntax.Peek(text, old(cursor)) == c)
      ensures cursor == old(cursor) + if there then 1 else 0
    {
      there := line[cursor] == c;
      if there { cursor := cursor + 1; }
    }

    /** The start of a run of characters of kind k, if there is one. */
    method ConsumeWhile(k: Kind) returns (found: bool, start: nat)
      requires Valid()
      modifies this`cursor
      ensures Valid() && start == old(cursor) && cursor == Run(text, start, k) && found == (cursor > start)
    {
      hide Kind.Has;
      start := cursor;
      var c := Peek();
      if c == '\0' || !k.Has(c) {
        found := false;
        return;
      }
      cursor := cursor + 1;
      c := Peek();
      while k.Has(c)
        invariant Valid() && c == ShellSyntax.Peek(text, cursor)
        invariant start < cursor && Run(text, start, k) == Run(text, cursor, k)
        decreases |text| - cursor
      {
        cursor := cursor + 1;
        c := Peek();
      }
      found := true;
    }

    method SkipWhitespaces()
      requires Valid()
      modifies this`cursor
      ensures Valid() && cursor == Run(text, old(cursor), Blank)
    {
      var _, _ := ConsumeWhile(Blank);
    }

    method ParseExecute() returns (n: Pointer)
      requires Valid() && result == Success
      modifies this`cursor, this`result
      ensures Valid() && Outcome(n, cursor, result) == ReadExecute(text, old(cursor))
    {
      hide ReadWords, Run, Reading;
      var argv: seq<Span> := [];
      var i := 0;
      ghost var from := cursor;
      ReadingStarts(text, from);
      while true
        invariant Valid() && result == Success && i == |argv| <= MAX_ARGC
        invariant Reading(text, from, cursor, argv)
        decreases MAX_ARGC - i
      {
        if i >= MAX_ARGC {
          ReadingEnds(text, from, cursor, argv);
          result := TooManyArgs;
          return NULL;
        }
        var found, arg := ConsumeWhile(Name);
        if !found { break; }
        var savedCursor := cursor;
        SkipWhitespaces();
        ReadingOn(text, from, arg, argv);
        argv := argv + [Span(arg, savedCursor - arg)];
        i := i + 1;
      }
      ReadingEnds(text, from, cursor, argv);
      if i == 0 {
        result := Empty;
        return NULL;
      }
      return To(Execute(argv));
    }

    method ParseRedirect() returns (n: Pointer)
      requires Valid() && result == Success
      modifies this`cursor, this`result
      ensures Valid() && Outcome(n, cursor, result) == ReadRedirect(text, old(cursor))
    {
      hide ReadExecute, Run, Kind.Has;
      var from := ParseExecute();
      if from.NULL? { return NULL; }
      SkipWhitespaces();
      var redirects := ConsumeIf('>');
      if !redirects { return from; }
      SkipWhitespaces();
      var found, to := ConsumeWhile(Name);
      if !found {
        result := SyntaxError;
        return NULL;
      }
      return To(Redirect(from.node, Span(to, cursor - to)));
    }

    method ParsePipe() returns (n: Pointer)
      requires Valid() && result == Success
      modifies this`cursor, this`result
      ensures Valid() && Outcome(n, cursor, result) == ReadPipe(text, old(cursor))
      decreases |text| - cursor
    {
      hide ReadRedirect, Run;
      var left := ParseRedirect();
      if left.NULL? { return NULL; }
      SkipWhitespaces();
      var pipes := ConsumeIf('|');
      if !pipes { return left; }
      SkipWhitespaces();
      var right := ParsePipe();
      if right.NULL? {
        if result == Empty { result := SyntaxError; }
        return NULL;
      }
      return To(Pipe(left.node, right.node));
    }

    method ParseJuxtaposition() returns (n: Pointer)
      requires Valid() && result == Success
      modifies this`cursor, this`result
      ensures Valid() && Outcome(n, cursor, result) == ReadList(text, old(cursor))
      decreases |text| - cursor
    {
      hide ReadPipe, Run, Kind.Has, ShellSyntax.Peek;
      var left := ParsePipe();
      if left.NULL? { return NULL; }
      SkipWhitespaces();
      var amp := ConsumeIf('&');
      if amp {
        left := To(Background(left.node));
      } else {
        var semicolon := ConsumeIf(';');
        if !semicolon { return left; }
      }
      SkipWhitespaces();
      var right := ParseJuxtaposition();
      if right.NULL? {
        if result == Empty { result := Success; }
        return left;
      }
      return To(Juxtaposition(left.node, right.node));
    }

    /** A null character at each end, and nothing else. */
    method NullTerminate(n: Node)
      requires forall e :: e in Ends(n) ==> e < line.Length
      modifies line
      ensures forall k :: 0 <= k < line.Length ==> line[k] == if k in Ends(n) then '\0' else old(line[k])
      decreases n
    {
      match n
      case Execute(argv) =>
        var i := 0;
        while i < |argv|
          invariant i <= |argv|
          invariant forall k :: 0 <= k < line.Length ==>
                      line[k] == if (exists x :: 0 <= x < i && End(argv[x]) == k) then '\0' else old(line[k])
        {
          assert End(argv[i]) in Ends(n);
          line[End(argv[i])] := '\0';
          i := i + 1;
        }
      case Juxtaposition(l, r) =>
        assert Ends(l) <= Ends(n) && Ends(r) <= Ends(n);
        NullTerminate(l);
        NullTerminate(r);
      case Pipe(l, r) =>
        assert Ends(l) <= Ends(n) && Ends(r) <= Ends(n);
        NullTerminate(l);
        NullTerminate(r);
      case Redirect(f, to) =>
        assert Ends(f) <= Ends(n) && End(to) in Ends(n);
        NullTerminate(f);
        line[End(to)] := '\0';
      case Background(x) =>
        assert Ends(x) <= Ends(n);
        NullTerminate(x);
    }

    /** The line is read by the grammar, and the strings of the tree that is returned are
        the words of the line. With no tree, the line is as it was. */
    method Parse(line: array<char>, ghost text: string) returns (n: Pointer)
      requires |text| < line.Length && line[..|text|] == text && line[|text|] == '\0' && '\0' !in text
      modifies this, line
      ensures n.NULL? <==> ReadLine(text).Null?
      ensures result == ReadLine(text).result
      ensures n.To? ==> n.node == ReadLine(text).node && ReadBack(line[..], n.node) == Text(text, n.node)
      ensures n.NULL? ==> line[..] == old(line[..])
      ensures n.To? ==> forall k :: 0 <= k < line.Length ==> line[k] == if k in Ends(n.node) then '\0' else old(line[k])
    {
      hide ReadList, Run;
      this.line, cursor, this.text := line, 0, text;
      result := Success;
      SkipWhitespaces();
      n := ParseJuxtaposition();
      ghost var p := ReadList(text, Run(text, 0, Blank));
      SkipWhitespaces();
      var c := Peek();
      if c != '\0' {
        result := SyntaxError;
        return NULL;
      }
      if n.NULL? { return NULL; }
      ListCut(text, Run(text, 0, Blank));
      EndsInside(text, n.node);
      NullTerminate(n.node);
      ReadsBack(text, line[..], n.node);
    }
  }
}
