/** What the shell says about a line with too many arguments (userland/sh.c): the parser gives
    up at the sixteenth word of a command, and parse, which looks at the rest of the line first,
    reports a syntax error unless there is no rest. */
module ShellErrors {
  import opened ShellSyntax

  /** What may come before a command in a pipeline: stages, each with a pipe sign after it. */
  datatype StageStart = Direct | Behind(stage: Stage, before: string, after: string, rest: StageStart)

  /** What may come before a command in a list: items, each with its mark, and then stages. */
  datatype ListStart = Front(start: StageStart)
                     | Next(pipeline: Pipeline, before: string, amp: bool, after: string, rest: ListStart)

  predicate ValidStages(x: StageStart) {
    x.Behind? ==> ValidStage(x.stage) && All(Blank, x.before) && All(Blank, x.after) && ValidStages(x.rest)
  }

  predicate ValidStart(x: ListStart) {
    match x
    case Front(start) => ValidStages(start)
    case Next(p, before, _, after, rest) =>
      ValidPipeline(p) && All(Blank, before) && All(Blank, after) && ValidStart(rest)
  }

  /** The text of x, and what comes after it. */
  function ShowStages(x: StageStart, more: string): string {
    match x
    case Direct => more
    case Behind(st, before, after, rest) => ShowStage(st) + (before + ("|" + (after + ShowStages(rest, more))))
  }

  function ShowStart(x: ListStart, more: string): string {
    match x
    case Front(start) => ShowStages(start, more)
    case Next(p, before, amp, after, rest) =>
      ShowPipeline(p) + (before + (Mark(amp) + (after + ShowStart(rest, more))))
  }

  /** The words of a command that has one more than parse_execute has room for. */
  predicate FullWords(ws: seq<Word>) {
    |ws| == MAX_ARGC && ws[0].gap == "" && ValidName(ws[0].text) && Gapped(ws[1..])
  }

  // ----- a full command stops the parser -----

  /** The last of the words that there is room for, or none: the blanks after it are read. */
  lemma {:induction false} FullRead(s: string, i: nat, text: string, rest: seq<Word>, n: nat)
    requires n + 1 + |rest| == MAX_ARGC && ValidName(text) && Gapped(rest)
    requires At(s, i, text + ShowWords(rest)) && !Name.Has(Peek(s, i + |text + ShowWords(rest)|))
    ensures var w := ReadWords(s, i, n); w.full && w.cursor == Run(s, i + |text + ShowWords(rest)|, Blank)
    decreases |rest|
  {
    hide ReadWords, Run, Token, At, All;
    var e := i + |text|;
    Split(s, i, text, ShowWords(rest));
    Inside(s, i, text + ShowWords(rest));
    if rest == [] {
      WordRead(s, i, text, n);
      NoRoom(s, Run(s, e, Blank));
    } else {
      var more := rest[0].text + ShowWords(rest[1..]);
      assert ShowWords(rest) == rest[0].gap + more;
      Starts(rest[0].text, ShowWords(rest[1..]));
      GapRead(s, e, rest[0].gap, more);
      WordRead(s, i, text, n);
      FullRead(s, e + |rest[0].gap|, rest[0].text, rest[1..], n + 1);
    }
  }

  lemma NoRoom(s: string, i: nat)
    requires i <= |s|
    ensures ReadWords(s, i, MAX_ARGC) == Words([], i, true)
  {
  }

  /** The reading stops at c for want of room. */
  predicate Full(p: Parsed, c: nat) {
    p.Null? && p.cursor == c && p.result.TooManyArgs?
  }

  lemma ExecuteFull(s: string, i: nat, ws: seq<Word>)
    requires FullWords(ws) && At(s, i, ShowWords(ws)) && !Name.Has(Peek(s, i + |ShowWords(ws)|))
    ensures i + |ShowWords(ws)| <= |s| && Full(ReadPipe(s, i), Run(s, i + |ShowWords(ws)|, Blank))
    ensures ShowWords(ws) != "" && Name.Has(ShowWords(ws)[0])
  {
    hide ReadWords, Run, At;
    assert "" + (ws[0].text + ShowWords(ws[1..])) == ws[0].text + ShowWords(ws[1..]);
    Inside(s, i, ShowWords(ws));
    Starts(ws[0].text, ShowWords(ws[1..]));
    FullRead(s, i, ws[0].text, ws[1..], 0);
  }

  lemma PipedFull(s: string, i: nat, j: nat, k: nat, c: nat)
    requires i <= |s| && ReadRedirect(s, i).Got? && Run(s, ReadRedirect(s, i).cursor, Blank) == j < |s|
             && Peek(s, j) == '|'
    requires Run(s, j + 1, Blank) == k && Full(ReadPipe(s, k), c)
    ensures Full(ReadPipe(s, i), c)
  {
    hide ReadRedirect, Run;
  }

  lemma StagesShown(x: StageStart, more: string)
    requires ValidStages(x) && more != "" && Name.Has(more[0])
    ensures ShowStages(x, more) != "" && Name.Has(ShowStages(x, more)[0])
  {
    if x.Behind? {
      StageFirst(x.stage);
      FirstOf(ShowStage(x.stage), x.before + ("|" + (x.after + ShowStages(x.rest, more))));
    }
  }

  lemma StartShown(x: ListStart, more: string)
    requires ValidStart(x) && more != "" && Name.Has(more[0])
    ensures ShowStart(x, more) != "" && Name.Has(ShowStart(x, more)[0])
  {
    match x
    case Front(start) => StagesShown(start, more);
    case Next(p, before, amp, after, rest) =>
      PipelineFirst(p);
      FirstOf(ShowPipeline(p), before + (Mark(amp) + (after + ShowStart(rest, more))));
  }

  /** `more` follows the words. */
  lemma {:induction false} StagesFull(s: string, i: nat, x: StageStart, ws: seq<Word>, c: nat)
    requires ValidStages(x) && FullWords(ws) && At(s, i, ShowStages(x, ShowWords(ws)))
    requires !Name.Has(Peek(s, i + |ShowStages(x, ShowWords(ws))|))
    requires i + |ShowStages(x, ShowWords(ws))| <= |s|
    requires c == Run(s, i + |ShowStages(x, ShowWords(ws))|, Blank)
    ensures Full(ReadPipe(s, i), c)
    decreases x
  {
    hide ReadRedirect, ReadPipe, Run, Text, At, All, Kind.Has, ShowStage, StageTree, ValidStage, ShowWords, FullWords;
    match x
    case Direct => ExecuteFull(s, i, ws);
    case Behind(st, before, after, rest) =>
      var j, more := i + |ShowStage(st)|, ShowStages(rest, ShowWords(ws));
      FullFirst(ws);
      StagesShown(rest, ShowWords(ws));
      Split(s, i, ShowStage(st), before + ("|" + (after + more)));
      OperatorRead(s, j, before, "|", after, more);
      AfterIs(s, j);
      StageRead(s, i, st, j);
      StagesFull(s, j + |before| + 1 + |after|, rest, ws, c);
      PipedFull(s, i, j + |before|, j + |before| + 1 + |after|, c);
  }

  lemma FullFirst(ws: seq<Word>)
    requires FullWords(ws)
    ensures ShowWords(ws) != "" && Name.Has(ShowWords(ws)[0])
  {
    Starts(ws[0].text, ShowWords(ws[1..]));
    assert "" + (ws[0].text + ShowWords(ws[1..])) == ws[0].text + ShowWords(ws[1..]);
  }

  lemma LeftFull(s: string, i: nat, c: nat)
    requires i <= |s| && Full(ReadPipe(s, i), c)
    ensures ReadList(s, i).result.TooManyArgs? && ReadList(s, i).cursor == c
  {
    hide ReadPipe, Run;
  }

  /** One item of a start taken off. */
  lemma StartParts(x: ListStart, more: string)
    requires ValidStart(x) && x.Next?
    ensures ValidPipeline(x.pipeline) && All(Blank, x.before) && All(Blank, x.after) && ValidStart(x.rest)
    ensures ShowStart(x, more)
            == ShowPipeline(x.pipeline) + (x.before + (Mark(x.amp) + (x.after + ShowStart(x.rest, more))))
    ensures |ShowStart(x, more)|
            == |ShowPipeline(x.pipeline)| + |x.before| + 1 + |x.after| + |ShowStart(x.rest, more)|
  {
  }

  lemma FrontParts(x: ListStart, more: string)
    requires ValidStart(x) && x.Front?
    ensures ValidStages(x.start) && ShowStart(x, more) == ShowStages(x.start, more)
  {
  }

  lemma {:induction false} StartFull(s: string, i: nat, x: ListStart, ws: seq<Word>, c: nat)
    requires ValidStart(x) && FullWords(ws) && At(s, i, ShowStart(x, ShowWords(ws)))
    requires !Name.Has(Peek(s, i + |ShowStart(x, ShowWords(ws))|))
    requires i + |ShowStart(x, ShowWords(ws))| <= |s|
    requires c == Run(s, i + |ShowStart(x, ShowWords(ws))|, Blank)
    ensures ReadList(s, i).result.TooManyArgs? && ReadList(s, i).cursor == c
    decreases x
  {
    hide ReadPipe, ReadList, Run, Text, At, All, Kind.Has, ShowPipeline, PipelineTree, ValidPipeline, ShowWords,
         FullWords, ShowStart, ValidStart, ShowStages, ValidStages, Mark, Peek;
    match x
    case Front(start) =>
      FrontParts(x, ShowWords(ws));
      StagesFull(s, i, start, ws, c);
      LeftFull(s, i, c);
    case Next(p, before, amp, after, rest) =>
      var j, more := i + |ShowPipeline(p)|, ShowStart(rest, ShowWords(ws));
      var k := j + |before| + 1 + |after|;
      StartParts(x, ShowWords(ws));
      MarkOperator(amp);
      FullFirst(ws);
      StartShown(rest, ShowWords(ws));
      Split(s, i, ShowPipeline(p), before + (Mark(amp) + (after + more)));
      OperatorRead(s, j, before, Mark(amp), after, more);
      EndingMark(s, j, amp);
      PipelineRead(s, i, p);
      StartFull(s, k, rest, ws, c);
      MoreIs(s, i, j + |before|, k, amp);
  }

  lemma MarkOperator(amp: bool)
    ensures |Mark(amp)| == 1 && (Mark(amp) == "&" || Mark(amp) == ";")
  {
  }

  lemma EndingMark(s: string, j: nat, amp: bool)
    requires j <= |s| && Peek(s, Run(s, j, Blank)) == Mark(amp)[0]
    ensures Ending(After(s, j))
  {
  }

  /** A line with a full command, the first in it. */
  datatype Overlong = Overlong(lead: string, start: ListStart, words: seq<Word>, more: string)

  predicate ValidOverlong(o: Overlong) {
    && All(Blank, o.lead) && ValidStart(o.start) && FullWords(o.words)
    && (o.more != "" ==> !Name.Has(o.more[0]))
  }

  function ShowOverlong(o: Overlong): string {
    o.lead + (ShowStart(o.start, ShowWords(o.words)) + o.more)
  }

  lemma LineIsFull(s: string, i: nat, c: nat)
    requires Run(s, 0, Blank) == i <= |s| && ReadList(s, i).result.TooManyArgs? && ReadList(s, i).cursor == c <= |s|
    requires Run(s, c, Blank) == c
    ensures ReadLine(s).result == if Peek(s, c) == '\0' then TooManyArgs else SyntaxError
  {
    hide ReadList, Run;
  }

  /** Where the parts of such a line are. */
  lemma OverlongPlaced(o: Overlong, s: string, i: nat, j: nat)
    requires ValidOverlong(o) && s == ShowOverlong(o)
    requires i == |o.lead| && j == i + |ShowStart(o.start, ShowWords(o.words))|
    ensures At(s, i, ShowStart(o.start, ShowWords(o.words))) && At(s, j, o.more) && j + |o.more| == |s|
    ensures Run(s, 0, Blank) == i && !Name.Has(Peek(s, j))
  {
    hide Run, At, All, ShowStart, ShowWords, ValidStart, FullWords, Kind.Has;
    var show, more := ShowStart(o.start, ShowWords(o.words)), o.more;
    WholeLine(s);
    Split(s, 0, o.lead, show + more);
    Split(s, i, show, more);
    FullFirst(o.words);
    StartShown(o.start, ShowWords(o.words));
    NameNotBlank(show[0]);
    FirstOf(show, more);
    AfterBlanks(s, 0, o.lead, show + more);
    if more != "" { First(s, j, more); } else { NulNoName(); }
  }

  /** The error depends on what comes after the sixteenth word. */
  lemma FullLine(o: Overlong)
    requires ValidOverlong(o) && '\0' !in ShowOverlong(o)
    ensures ReadLine(ShowOverlong(o)).result == if All(Blank, o.more) then TooManyArgs else SyntaxError
  {
    hide ReadList, ReadLine, Run, At, All, ShowStart, ShowOverlong, ShowWords, ValidStart, Kind.Has, FullWords, Peek;
    var s, i := ShowOverlong(o), |o.lead|;
    var j := i + |ShowStart(o.start, ShowWords(o.words))|;
    OverlongPlaced(o, s, i, j);
    StartFull(s, i, o.start, o.words, Run(s, j, Blank));
    RunTwice(s, j, Blank);
    LineIsFull(s, i, Run(s, j, Blank));
    WholeLine(s);
    if All(Blank, o.more) {
      RunOver(s, j, o.more, Blank);
    } else {
      NotAllBlank(s, j, o.more);
    }
  }

  lemma NulNoName()
    ensures !Name.Has('\0')
  {
  }

  lemma NotAllBlank(s: string, j: nat, more: string)
    requires At(s, j, more) && j + |more| == |s| && !All(Blank, more) && '\0' !in s
    ensures Peek(s, Run(s, j, Blank)) != '\0'
  {
    var x :| 0 <= x < |more| && !Blank.Has(more[x]);
    assert s[j..j + |more|][x] == more[x];
    assert Run(s, j, Blank) <= j + x;
  }

  // ----- only a full command stops it so -----

  /** One word, and the reading after it. */
  lemma WordFull(s: string, i: nat, n: nat)
    requires i <= |s| && n < MAX_ARGC && ReadWords(s, i, n).full
    ensures var e := Run(s, i, Name); var b := Run(s, e, Blank); var r := ReadWords(s, b, n + 1);
            && i < e && r.full && r.cursor == ReadWords(s, i, n).cursor
            && (n + 1 == MAX_ARGC ==> r.cursor == b) && (n + 1 < MAX_ARGC ==> e < b)
  {
    RunTwice(s, i, Name);
  }

  lemma {:induction false} FullWritten(s: string, i: nat, n: nat) returns (text: string, rest: seq<Word>, gap: string)
    requires i <= |s| && n < MAX_ARGC && ReadWords(s, i, n).full
    ensures ValidName(text) && Gapped(rest) && All(Blank, gap) && n + 1 + |rest| == MAX_ARGC
    ensures s[i..ReadWords(s, i, n).cursor] == text + (ShowWords(rest) + gap)
    decreases MAX_ARGC - n
  {
    hide Run, ReadWords, Token, Tokens, All, ValidName;
    var e := Run(s, i, Name);
    var b := Run(s, e, Blank);
    var r := ReadWords(s, b, n + 1);
    WordFull(s, i, n);
    NameAt(s, i);
    BlanksAt(s, e);
    Join(s, i, e, b);
    text := s[i..e];
    if n + 1 == MAX_ARGC {
      rest, gap := [], s[e..b];
      assert "" + gap == gap;
    } else {
      var t, more, g := FullWritten(s, b, n + 1);
      rest, gap := [Word(s[e..b], t)] + more, g;
      assert rest[1..] == more;
      Join(s, i, b, r.cursor);
      assert text + s[e..b] + (t + (ShowWords(more) + gap)) == text + (s[e..b] + (t + ShowWords(more)) + gap);
    }
  }

  lemma ExecuteOnly(s: string, i: nat) returns (ws: seq<Word>, gap: string)
    requires i <= |s| && ReadRedirect(s, i).result.TooManyArgs?
    ensures FullWords(ws) && All(Blank, gap) && s[i..ReadRedirect(s, i).cursor] == ShowWords(ws) + gap
  {
    hide Run, ReadWords, All, ValidName;
    var text, rest, g := FullWritten(s, i, 0);
    ws, gap := [Word("", text)] + rest, g;
    assert ws[1..] == rest;
    Associate(text, ShowWords(rest), gap);
    assert "" + (text + ShowWords(rest)) == text + ShowWords(rest);
  }

  lemma ShowStagesGap(x: StageStart, more: string, gap: string)
    ensures ShowStages(x, more + gap) == ShowStages(x, more) + gap
  {
    if x.Behind? {
      ShowStagesGap(x.rest, more, gap);
      Regroup(ShowStage(x.stage), x.before, "|", x.after, ShowStages(x.rest, more), gap);
    }
  }

  lemma ShowStartGap(x: ListStart, more: string, gap: string)
    ensures ShowStart(x, more + gap) == ShowStart(x, more) + gap
  {
    match x
    case Front(start) => ShowStagesGap(start, more, gap);
    case Next(p, before, amp, after, rest) =>
      ShowStartGap(rest, more, gap);
      Regroup(ShowPipeline(p), before, Mark(amp), after, ShowStart(rest, more), gap);
  }

  /** Either the first stage is full, or a pipe sign follows it and the rest is. */
  lemma PipeStopped(s: string, i: nat, j: nat)
    requires i <= |s| && ReadPipe(s, i).result.TooManyArgs? && j == Run(s, ReadRedirect(s, i).cursor, Blank)
    ensures ReadPipe(s, i).Null?
    ensures if ReadRedirect(s, i).Null? then ReadPipe(s, i) == ReadRedirect(s, i)
            else
              && j < |s| && s[j] == '|'
              && var right := ReadPipe(s, Run(s, j + 1, Blank));
                 right.result.TooManyArgs? && right.cursor == ReadPipe(s, i).cursor
  {
    hide ReadRedirect, Run;
  }

  lemma {:induction false} StagesOnly(s: string, i: nat) returns (x: StageStart, ws: seq<Word>, gap: string)
    requires i <= |s| && ReadPipe(s, i).result.TooManyArgs?
    ensures ValidStages(x) && FullWords(ws) && All(Blank, gap)
    ensures s[i..ReadPipe(s, i).cursor] == ShowStages(x, ShowWords(ws) + gap)
    decreases |s| - i
  {
    hide ReadRedirect, Run, Tokens, Text, Peek, All, ShowStage, StageTree, ValidStage, ShowWords, FullWords;
    var left := ReadRedirect(s, i);
    PipeStopped(s, i, Run(s, left.cursor, Blank));
    if left.Null? {
      x := Direct;
      ws, gap := ExecuteOnly(s, i);
    } else {
      var st, g := StageWritten(s, i);
      var j := Run(s, left.cursor, Blank);
      Join(s, i, left.cursor, j);
      BlanksAt(s, left.cursor);
      BlanksJoin(g, s[left.cursor..j]);
      Associate(ShowStage(st), g, s[left.cursor..j]);
      var before := g + s[left.cursor..j];
      var k := Run(s, j + 1, Blank);
      BlanksAt(s, j + 1);
      var rest;
      rest, ws, gap := StagesOnly(s, k);
      x := Behind(st, before, s[j + 1..k], rest);
      OperatorWritten(s, i, j, k, ReadPipe(s, k).cursor, ShowStage(st), before);
    }
  }

  lemma {:induction false} StartOnly(s: string, i: nat) returns (x: ListStart, ws: seq<Word>, gap: string)
    requires i <= |s| && ReadList(s, i).result.TooManyArgs?
    ensures ValidStart(x) && FullWords(ws) && All(Blank, gap)
    ensures s[i..ReadList(s, i).cursor] == ShowStart(x, ShowWords(ws) + gap)
    decreases |s| - i
  {
    hide ReadPipe, Run, Tokens, All, ShowPipeline, PipelineTree, ValidPipeline, ShowWords, FullWords, ShowStages,
         ValidStages;
    var left := ReadPipe(s, i);
    if left.Null? {
      var start;
      start, ws, gap := StagesOnly(s, i);
      x := Front(start);
    } else {
      var p, g := PipelineWritten(s, i);
      var j := Run(s, left.cursor, Blank);
      Join(s, i, left.cursor, j);
      BlanksAt(s, left.cursor);
      BlanksJoin(g, s[left.cursor..j]);
      Associate(ShowPipeline(p), g, s[left.cursor..j]);
      var before := g + s[left.cursor..j];
      var k := Run(s, j + 1, Blank);
      BlanksAt(s, j + 1);
      var rest;
      rest, ws, gap := StartOnly(s, k);
      x := Next(p, before, Peek(s, j) == '&', s[j + 1..k], rest);
      OperatorWritten(s, i, j, k, ReadList(s, k).cursor, ShowPipeline(p), before);
    }
  }

  lemma LineOnly(s: string) returns (o: Overlong)
    requires '\0' !in s && ReadLine(s).result.TooManyArgs?
    ensures ValidOverlong(o) && All(Blank, o.more) && ShowOverlong(o) == s
  {
    hide ReadList, Run, ShowStart, ValidStart, FullWords, ShowWords;
    var i := Run(s, 0, Blank);
    var list := ReadList(s, i);
    var j := Run(s, list.cursor, Blank);
    var x, ws, gap := StartOnly(s, i);
    BlanksAt(s, 0);
    BlanksAt(s, list.cursor);
    BlanksJoin(gap, s[list.cursor..j]);
    var more := gap + s[list.cursor..j];
    o := Overlong(s[0..i], x, ws, more);
    Join(s, 0, i, j);
    Join(s, i, list.cursor, j);
    ShowStartGap(x, ShowWords(ws), gap);
    Associate(ShowStart(x, ShowWords(ws)), gap, s[list.cursor..j]);
    assert s[0..j] == s;
  }

  /** The error of too many arguments is reported exactly for a line that ends, but for blanks,
      with the sixteenth word of a command, the first command to have so many. */
  lemma TooManyReported(s: string)
    requires '\0' !in s
    ensures ReadLine(s).result.TooManyArgs? <==>
              exists o :: ValidOverlong(o) && All(Blank, o.more) && ShowOverlong(o) == s
  {
    if ReadLine(s).result.TooManyArgs? {
      var o := LineOnly(s);
      assert ShowOverlong(o) == s;
    }
    forall o | ValidOverlong(o) && All(Blank, o.more) && ShowOverlong(o) == s
      ensures ReadLine(s).result.TooManyArgs?
    {
      FullLine(o);
    }
  }

  /** Seventeen words: a syntax error, though there is nothing but words. */
  lemma SeventeenWords(ws: seq<Word>, last: Word)
    requires FullWords(ws) && Gapped([last]) && '\0' !in ShowWords(ws) + last.gap + last.text
    ensures ReadLine(ShowWords(ws) + (last.gap + last.text)).result.SyntaxError?
  {
    var o := Overlong("", Front(Direct), ws, last.gap + last.text);
    assert ShowOverlong(o) == ShowWords(ws) + (last.gap + last.text);
    assert !Blank.Has(o.more[|last.gap|]);
    FullLine(o);
  }
}
