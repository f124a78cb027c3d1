/**
 Splitting a Dockerfile into instructions and comments, and joining them again.
 */
module Dockerfile {
  import opened CodeUnits
  import opened DockerfileLines
  import opened Wrappers

  datatype SegmentType = Comment | Command(cmd: Text)

  datatype Segment = Segment(kind: SegmentType, lineno: nat, lines: Text)

  /** What one line does: begin an instruction, be a comment, or go on with what there is. */
  datatype Item = Begin(cmd: Text, text: Text) | Remark(text: Text) | More(text: Text)

  /** What a line is found to be, and the delimiters waited for after it. */
  datatype Found = Orphan | Found(item: Item, waiting: set<Text>)

  datatype ParseResult = OrphanLine(line: Text) | Parsed(segments: seq<Segment>)

  /** `started` says that there is an instruction or a comment to go on with. */
  function ScanLine(words: Instructions, waiting: set<Text>, started: bool, raw: Text): Found {
    var line := Trim(raw);
    if waiting != {} then Found(More(raw), Handle(waiting, line))
    else match TestInstStarting(words, line)
      case Instruction(cmd, lines) => Found(Begin(cmd, lines), Handle(waiting, line))
      case NoInstruction =>
        if line == [] || line[0] == HASH then Found(Remark(TrimEnd(raw)), waiting)
        else if !started then Orphan
        else Found(More(TrimEnd(raw)), Handle(waiting, line))
  }

  /** The lines up to the first orphan. */
  datatype Scan = Scan(waiting: set<Text>, items: seq<Item>, orphan: bool)

  function ScanLines(words: Instructions, lines: seq<Text>): Scan {
    if lines == [] then Scan({}, [], false)
    else
      var before := ScanLines(words, lines[..|lines| - 1]);
      if before.orphan then before
      else match ScanLine(words, before.waiting, before.items != [], lines[|lines| - 1])
        case Orphan => before.(orphan := true)
        case Found(item, waiting) => Scan(waiting, before.items + [item], false)
  }

  lemma ScanNothing(words: Instructions)
    ensures ScanLines(words, []) == Scan({}, [], false) && Build([]) == []
  {
  }

  lemma ScanSnoc(words: Instructions, lines: seq<Text>, raw: Text)
    requires var before := ScanLines(words, lines);
      !before.orphan && ScanLine(words, before.waiting, before.items != [], raw).Found?
    ensures var before := ScanLines(words, lines);
      var found := ScanLine(words, before.waiting, before.items != [], raw);
      ScanLines(words, lines + [raw]) == Scan(found.waiting, before.items + [found.item], false)
  {
    hide ScanLine;
    assert (lines + [raw])[..|lines|] == lines;
  }

  function NewSegment(item: Item, lineno: nat): Segment
    requires !item.More?
  {
    match item
    case Begin(cmd, text) => Segment(Command(cmd), lineno, text)
    case Remark(text) => Segment(Comment, lineno, text)
  }

  /** An item goes on with the last segment, as does a comment after a comment. */
  predicate GoesOn(segments: seq<Segment>, item: Item) {
    segments != [] && (item.More? || (item.Remark? && segments[|segments| - 1].kind == Comment))
  }

  function AddItem(segments: seq<Segment>, item: Item, lineno: nat): seq<Segment> {
    if GoesOn(segments, item) then
      var last := segments[|segments| - 1];
      segments[..|segments| - 1] + [last.(lines := last.lines + [NEWLINE] + item.text)]
    else if item.More? then segments
    else segments + [NewSegment(item, lineno)]
  }

  function Build(items: seq<Item>): seq<Segment> {
    if items == [] then []
    else AddItem(Build(items[..|items| - 1]), items[|items| - 1], |items| - 1)
  }

  lemma BuildSnoc(items: seq<Item>, item: Item)
    ensures Build(items + [item]) == AddItem(Build(items), item, |items|)
  {
    assert (items + [item])[..|items|] == items;
  }

  function Parse(words: Instructions, text: Text): ParseResult {
    var lines := Split(text, NEWLINE);
    var scan := ScanLines(words, lines);
    if scan.orphan && |scan.items| < |lines| then OrphanLine(lines[|scan.items|]) else Parsed(Build(scan.items))
  }

  function LinesOf(segments: seq<Segment>): (all: seq<Text>)
    ensures |all| == |segments| && forall k :: 0 <= k < |all| ==> all[k] == segments[k].lines
  {
    seq(|segments|, k requires 0 <= k < |segments| => segments[k].lines)
  }

  function Print(segments: seq<Segment>): Text {
    Join(LinesOf(segments), NEWLINE)
  }

  // ------------------------------------------------------------ one line again

  ghost predicate Kept(words: Instructions, waiting: set<Text>, started: bool, raw: Text) {
    var found := ScanLine(words, waiting, started, raw);
    found.Orphan? || ScanLine(words, waiting, started, found.item.text) == found
  }

  lemma InstructionLineStable(words: Instructions, started: bool, raw: Text)
    requires TestInstStarting(words, Trim(raw)).Instruction?
    ensures Kept(words, {}, started, raw)
  {
    var line := Trim(raw);
    var lines := TestInstStarting(words, line).lines;
    TrimIsTrimmed(raw);
    InstructionStable(words, line);
    TrimTrimmed(line);
    TrimTrimmed(lines);
    InstructionDelimiters(words, line);
    hide Trim, Delimiters, TestInstStarting, ScanLine, Handle;
    ScanInstruction(words, started, raw);
    ScanInstruction(words, started, lines);
    SameHandle(line, lines);
  }

  lemma ScanInstruction(words: Instructions, started: bool, raw: Text)
    requires TestInstStarting(words, Trim(raw)).Instruction?
    ensures var test := TestInstStarting(words, Trim(raw));
      ScanLine(words, {}, started, raw) == Found(Begin(test.cmd, test.lines), Handle({}, Trim(raw)))
  {
    hide Trim, TestInstStarting, Handle;
  }

  lemma SameHandle(a: Text, b: Text)
    requires Delimiters(Trim(a)) == Delimiters(Trim(b))
    ensures Handle({}, a) == Handle({}, b)
  {
    hide Trim, Delimiters;
  }

  lemma OtherLineStable(words: Instructions, waiting: set<Text>, started: bool, raw: Text)
    requires waiting != {} || TestInstStarting(words, Trim(raw)).NoInstruction?
    ensures Kept(words, waiting, started, raw)
  {
    TrimOfTrimEnd(raw);
    TrimEndPrefix(raw);
    hide Trim, TrimEnd, Handle, TestInstStarting;
  }

  /** A line as it is kept is found to be the same, and to change the delimiters the same way. */
  lemma LineStable(words: Instructions, waiting: set<Text>, started: bool, raw: Text)
    ensures Kept(words, waiting, started, raw)
  {
    hide Kept, Trim, TestInstStarting;
    if waiting == {} && TestInstStarting(words, Trim(raw)).Instruction? {
      InstructionLineStable(words, started, raw);
    } else {
      OtherLineStable(words, waiting, started, raw);
    }
  }

  lemma {:induction false} TrimStartKeepsOut(s: Text, unit: CodeUnit)
    requires unit !in s
    ensures unit !in TrimStart(s)
  {
    TrimStartSuffix(s);
  }

  /** No kept line has a line break if the line has none. */
  lemma LineHasNoBreak(words: Instructions, waiting: set<Text>, started: bool, raw: Text)
    requires NEWLINE !in raw && !ScanLine(words, waiting, started, raw).Orphan?
    ensures NEWLINE !in ScanLine(words, waiting, started, raw).item.text
  {
    var line := Trim(raw);
    TrimEndPrefix(raw);
    TrimStartKeepsOut(TrimEnd(raw), NEWLINE);
    if waiting == {} && TestInstStarting(words, line).Instruction? {
      var word := FirstWord(line);
      InstructionWord(words, word);
      TrimStartKeepsOut(line[|word|..], NEWLINE);
    }
  }

  // ------------------------------------------------------------- all lines again

  function Texts(items: seq<Item>): (texts: seq<Text>)
    ensures |texts| == |items| && forall k :: 0 <= k < |texts| ==> texts[k] == items[k].text
  {
    seq(|items|, k requires 0 <= k < |items| => items[k].text)
  }

  /** Only the first line can be an orphan; while delimiters are waited for, something has begun. */
  lemma {:induction false} ScanStarted(words: Instructions, lines: seq<Text>)
    ensures var s := ScanLines(words, lines);
      && (s.waiting != {} ==> s.items != [])
      && (if s.orphan then s.items == [] && lines != [] && ScanLine(words, {}, false, lines[0]).Orphan?
          else |s.items| == |lines|)
  {
    if lines != [] {
      ScanStarted(words, lines[..|lines| - 1]);
      if |lines| > 1 {
        assert lines[..|lines| - 1][0] == lines[0];
      }
    }
  }

  lemma {:induction false} FirstOrphanStops(words: Instructions, lines: seq<Text>)
    requires lines != []
    ensures ScanLines(words, lines).orphan <==> ScanLine(words, {}, false, lines[0]).Orphan?
  {
    if |lines| == 1 {
      assert lines[..0] == [];
    } else {
      FirstOrphanStops(words, lines[..|lines| - 1]);
      ScanStarted(words, lines[..|lines| - 1]);
    }
  }

  lemma OrphanStops(words: Instructions, text: Text, at: nat)
    requires at < |Split(text, NEWLINE)|
    requires var scan := ScanLines(words, Split(text, NEWLINE)[..at]);
      !scan.orphan && ScanLine(words, scan.waiting, scan.items != [], Split(text, NEWLINE)[at]).Orphan?
    ensures Parse(words, text) == OrphanLine(Split(text, NEWLINE)[at])
  {
    var lines := Split(text, NEWLINE);
    ScanStarted(words, lines[..at]);
    FirstOrphanStops(words, lines);
    ScanStarted(words, lines);
  }

  lemma {:induction false} ScanStable(words: Instructions, lines: seq<Text>)
    requires !ScanLines(words, lines).orphan
    ensures ScanLines(words, Texts(ScanLines(words, lines).items)) == ScanLines(words, lines)
  {
    hide ScanLine;
    if lines != [] {
      var front, raw := lines[..|lines| - 1], lines[|lines| - 1];
      assert lines == front + [raw];
      var before := ScanLines(words, front);
      var found := ScanLine(words, before.waiting, before.items != [], raw);
      ScanStable(words, front);
      LineStable(words, before.waiting, before.items != [], raw);
      assert Texts(before.items + [found.item]) == Texts(before.items) + [found.item.text];
    }
  }

  lemma {:induction false} ScanHasNoBreaks(words: Instructions, lines: seq<Text>)
    requires NoneHas(lines, NEWLINE)
    ensures NoneHas(Texts(ScanLines(words, lines).items), NEWLINE)
  {
    if lines != [] {
      var front := lines[..|lines| - 1];
      var before := ScanLines(words, front);
      assert NoneHas(front, NEWLINE);
      ScanHasNoBreaks(words, front);
      var found := ScanLine(words, before.waiting, before.items != [], lines[|lines| - 1]);
      if !before.orphan && !found.Orphan? {
        LineHasNoBreak(words, before.waiting, before.items != [], lines[|lines| - 1]);
        assert Texts(before.items + [found.item]) == Texts(before.items) + [found.item.text];
      }
    }
  }

  // -------------------------------------------------------------------- segments

  lemma JoinSnoc(pieces: seq<Text>, piece: Text)
    requires pieces != []
    ensures Join(pieces + [piece], NEWLINE) == Join(pieces, NEWLINE) + [NEWLINE] + piece
  {
    JoinConcat(pieces, [piece], NEWLINE);
  }

  /** Going on with the last piece is, in the joined text, the same as one more piece. */
  lemma JoinGoOn(pieces: seq<Text>, last: Text, piece: Text)
    ensures Join(pieces + [last + [NEWLINE] + piece], NEWLINE) == Join(pieces + [last], NEWLINE) + [NEWLINE] + piece
  {
    if pieces != [] {
      JoinSnoc(pieces, last);
      JoinSnoc(pieces, last + [NEWLINE] + piece);
      Reassociate(Join(pieces, NEWLINE) + [NEWLINE], last, [NEWLINE], piece);
    }
  }

  lemma AddPrints(segments: seq<Segment>, item: Item, lineno: nat)
    requires segments == [] ==> !item.More?
    ensures Print(AddItem(segments, item, lineno)) ==
      if segments == [] then item.text else Print(segments) + [NEWLINE] + item.text
  {
    var added := AddItem(segments, item, lineno);
    if segments == [] {
      assert LinesOf(added) == [item.text];
    } else if GoesOn(segments, item) {
      var front, last := segments[..|segments| - 1], segments[|segments| - 1];
      assert LinesOf(segments) == LinesOf(front) + [last.lines];
      assert LinesOf(added) == LinesOf(front) + [last.lines + [NEWLINE] + item.text];
      JoinGoOn(LinesOf(front), last.lines, item.text);
    } else {
      assert LinesOf(added) == LinesOf(segments) + [item.text];
      JoinSnoc(LinesOf(segments), item.text);
    }
  }

  /** There is something to go on with. */
  ghost predicate BeginsWell(items: seq<Item>) {
    items != [] ==> !items[0].More?
  }

  lemma {:induction false} BuildPrints(items: seq<Item>)
    requires BeginsWell(items)
    ensures Print(Build(items)) == Join(Texts(items), NEWLINE)
    ensures Build(items) == [] <==> items == []
  {
    if items != [] {
      var front, last := items[..|items| - 1], items[|items| - 1];
      BuildPrints(front);
      AddPrints(Build(front), last, |front|);
      assert Texts(items) == Texts(front) + [last.text];
      if front != [] {
        JoinSnoc(Texts(front), last.text);
      }
    }
  }

  lemma {:induction false} ScanBeginsWell(words: Instructions, lines: seq<Text>)
    ensures BeginsWell(ScanLines(words, lines).items)
  {
    if lines != [] {
      ScanBeginsWell(words, lines[..|lines| - 1]);
      ScanStarted(words, lines[..|lines| - 1]);
    }
  }

  /** The text that is printed is that of the lines as they are kept. */
  lemma ParsedPrints(words: Instructions, text: Text)
    requires Parse(words, text).Parsed?
    ensures var scan := ScanLines(words, Split(text, NEWLINE));
      && !scan.orphan && Print(Parse(words, text).segments) == Join(Texts(scan.items), NEWLINE)
      && Split(Print(Parse(words, text).segments), NEWLINE) == Texts(scan.items)
  {
    var lines := Split(text, NEWLINE);
    var scan := ScanLines(words, lines);
    ScanStarted(words, lines);
    ScanBeginsWell(words, lines);
    BuildPrints(scan.items);
    SplitJoin(text, NEWLINE);
    ScanHasNoBreaks(words, lines);
    SplitOfJoin(Texts(scan.items), NEWLINE);
  }

  /** Printing what was parsed, and parsing that, gives the same segments. */
  lemma PrintThenParse(words: Instructions, text: Text)
    requires Parse(words, text).Parsed?
    ensures Parse(words, Print(Parse(words, text).segments)) == Parse(words, text)
  {
    ParsedPrints(words, text);
    ScanStable(words, Split(text, NEWLINE));
  }

  /** Parsing fails exactly if the first line is an orphan: neither empty, nor a comment, nor an instruction. */
  lemma FailsExactlyIfFirstIsOrphan(words: Instructions, text: Text)
    ensures var first := Split(text, NEWLINE)[0]; var line := Trim(first);
      && (Parse(words, text).OrphanLine? <==>
            line != [] && line[0] != HASH && TestInstStarting(words, line).NoInstruction?)
      && (Parse(words, text).OrphanLine? ==> Parse(words, text).line == first)
  {
    var lines := Split(text, NEWLINE);
    FirstOrphanStops(words, lines);
    ScanStarted(words, lines);
  }

  /** How many lines a segment has. */
  function Height(segment: Segment): nat {
    |Split(segment.lines, NEWLINE)|
  }

  /** Each segment begins where the one before it ends. */
  ghost predicate Tiles(segments: seq<Segment>, count: nat) {
    && (segments != [] ==> segments[0].lineno == 0)
    && (forall k :: 0 <= k < |segments| - 1 ==> segments[k + 1].lineno == segments[k].lineno + Height(segments[k]))
    && count == if segments == [] then 0 else segments[|segments| - 1].lineno + Height(segments[|segments| - 1])
  }

  ghost predicate CommentsMerged(segments: seq<Segment>) {
    forall k :: 0 <= k < |segments| - 1 ==> segments[k].kind == Comment ==> segments[k + 1].kind != Comment
  }

  lemma AddTiles(segments: seq<Segment>, item: Item, count: nat)
    requires NEWLINE !in item.text && (segments == [] ==> !item.More?)
    requires Tiles(segments, count) && CommentsMerged(segments)
    ensures Tiles(AddItem(segments, item, count), count + 1) && CommentsMerged(AddItem(segments, item, count))
  {
    SplitPiece(item.text, NEWLINE);
    if GoesOn(segments, item) {
      SplitConcat(segments[|segments| - 1].lines, item.text, NEWLINE);
    }
  }

  lemma {:induction false} BuildTiles(items: seq<Item>)
    requires BeginsWell(items) && NoneHas(Texts(items), NEWLINE)
    ensures Tiles(Build(items), |items|) && CommentsMerged(Build(items))
  {
    if items != [] {
      var front, last := items[..|items| - 1], items[|items| - 1];
      assert Texts(items)[..|front|] == Texts(front);
      forall k | 0 <= k < |front| ensures NEWLINE !in Texts(front)[k] {
        assert NEWLINE !in Texts(items)[k];
      }
      assert NEWLINE !in Texts(items)[|front|];
      BuildTiles(front);
      BuildPrints(front);
      AddTiles(Build(front), last, |front|);
    }
  }

  /** The segments tile the lines of the text, and no two neighbours are both comments. */
  lemma SegmentsTile(words: Instructions, text: Text)
    requires Parse(words, text).Parsed?
    ensures var segments := Parse(words, text).segments;
      segments != [] && Tiles(segments, |Split(text, NEWLINE)|) && CommentsMerged(segments)
  {
    var lines := Split(text, NEWLINE);
    ScanStarted(words, lines);
    ScanBeginsWell(words, lines);
    SplitJoin(text, NEWLINE);
    ScanHasNoBreaks(words, lines);
    BuildTiles(ScanLines(words, lines).items);
    BuildPrints(ScanLines(words, lines).items);
  }

  // ---------------------------------------------------------------------- class

  class DockerfileParser {
    const instructionSet: Instructions
    var result: seq<Segment>
    var current: Option<Segment>

    constructor (instructionSet: Instructions)
      ensures this.instructionSet == instructionSet
    {
      this.instructionSet, result, current := instructionSet, [], None;
    }

    ghost function All(): seq<Segment>
      reads this
    {
      if current.Some? then result + [current.value] else result
    }

    /** A new instruction or comment; a comment after a comment is merged. */
    method Replace(item: Item, lineno: nat)
      requires !item.More? && (current.None? ==> result == [])
      modifies this
      ensures All() == AddItem(old(All()), item, lineno) && current.Some?
    {
      if current.None? {
        current := Some(NewSegment(item, lineno));
        return;
      }
      if current.value.kind == Comment && item.Remark? {
        current := Some(current.value.(lines := current.value.lines + [NEWLINE] + item.text));
        return;
      }
      result := result + [current.value];
      current := Some(NewSegment(item, lineno));
    }

    method GoOn(text: Text, ghost lineno: nat)
      requires current.Some?
      modifies this
      ensures current.Some? && All() == AddItem(old(All()), More(text), lineno)
    {
      current := Some(current.value.(lines := current.value.lines + [NEWLINE] + text));
    }

    /** The body of the line loop; true for an orphan.  That a here-document has begun somewhere is proved. */
    method HandleLine(heredoc: HeredocWaiter, rawLine: Text, lineno: nat) returns (orphan: bool)
      requires current.None? ==> result == [] && heredoc.waiting == {}
      modifies this, heredoc
      ensures var found := ScanLine(instructionSet, old(heredoc.waiting), old(current.Some?), rawLine);
        && orphan == found.Orphan?
        && (!orphan ==>
              && current.Some? && heredoc.waiting == found.waiting
              && All() == AddItem(old(All()), found.item, lineno))
    {
      var line := Trim(rawLine);
      if heredoc.waiting != {} {
        heredoc.HandleLine(line);
        GoOn(rawLine, lineno);
        return false;
      }
      var i := TestInstStarting(instructionSet, line);
      if i.Instruction? {
        Replace(Begin(i.cmd, i.lines), lineno);
        heredoc.HandleLine(line);
        return false;
      }
      if line == [] || line[0] == HASH {
        Replace(Remark(TrimEnd(rawLine)), lineno);
        return false;
      }
      if current.None? {
        return true;
      }
      heredoc.HandleLine(line);
      GoOn(TrimEnd(rawLine), lineno);
      return false;
    }

    /** The line loop. */
    method ParseText(text: Text) returns (parsed: ParseResult)
      modifies this
      ensures parsed == Parse(instructionSet, text)
    {
      hide ScanLine, ScanLines, Split, AddItem, Build;
      result, current := [], None;
      var rawLines := Split(text, NEWLINE);
      var heredoc := new HeredocWaiter();
      ghost var scan := Scan({}, [], false);
      ScanNothing(instructionSet);
      for lineno := 0 to |rawLines|
        invariant scan == ScanLines(instructionSet, rawLines[..lineno])
        invariant !scan.orphan && |scan.items| == lineno && scan.waiting == heredoc.waiting
        invariant All() == Build(scan.items)
        invariant current.Some? <==> lineno > 0
        invariant current.None? ==> result == [] && heredoc.waiting == {}
      {
        var orphan := HandleLine(heredoc, rawLines[lineno], lineno);
        if orphan {
          OrphanStops(instructionSet, text, lineno);
          return OrphanLine(rawLines[lineno]);
        }
        ghost var found := ScanLine(instructionSet, scan.waiting, scan.items != [], rawLines[lineno]);
        BuildSnoc(scan.items, found.item);
        assert rawLines[..lineno + 1] == rawLines[..lineno] + [rawLines[lineno]];
        ScanSnoc(instructionSet, rawLines[..lineno], rawLines[lineno]);
        scan := Scan(found.waiting, scan.items + [found.item], false);
      }
      assert rawLines[..|rawLines|] == rawLines;
      parsed := Parsed(if current.Some? then result + [current.value] else result);
    }
  }
}
