/**
 What is kept of each line of a Dockerfile.
 */
module DockerfileKept {
  import opened CodeUnits
  import opened DockerfileLines
  import opened Dockerfile

  // ------------------------------------------------------------- white space

  ghost predicate AllSpaces(s: Text) {
    forall k :: 0 <= k < |s| ==> IsSpace(s[k])
  }

  /** The text without the white space at its end. */
  ghost predicate IsEndTrimmed(raw: Text, kept: Text) {
    && kept <= raw && AllSpaces(raw[|kept|..])
    && (kept != [] ==> !IsSpace(kept[|kept| - 1]))
  }

  /** The text without the white space around it. */
  ghost predicate IsTrimmed(raw: Text, line: Text) {
    && Trimmed(line)
    && exists before: Text, after: Text :: AllSpaces(before) && AllSpaces(after) && raw == before + line + after
  }

  lemma {:induction false} TrimEndIs(raw: Text)
    ensures IsEndTrimmed(raw, TrimEnd(raw))
  {
    if raw != [] && IsSpace(raw[|raw| - 1]) {
      var front := raw[..|raw| - 1];
      TrimEndIs(front);
      var kept := TrimEnd(raw);
      forall k | 0 <= k < |raw| - |kept| ensures IsSpace(raw[|kept|..][k]) {
        if k < |front| - |kept| {
          assert raw[|kept|..][k] == front[|kept|..][k];
        }
      }
    }
  }

  lemma TrimIs(raw: Text)
    ensures IsTrimmed(raw, Trim(raw))
  {
    var front := TrimEnd(raw);
    TrimEndIs(raw);
    TrimStartSuffix(front);
    TrimIsTrimmed(raw);
    var n := |front| - |TrimStart(front)|;
    assert AllSpaces(front[..n]);
    assert raw == front[..n] + Trim(raw) + raw[|front|..];
  }

  lemma {:induction false} TrimEndOf(front: Text, after: Text)
    requires AllSpaces(after) && (front != [] ==> !IsSpace(front[|front| - 1]))
    ensures TrimEnd(front + after) == front
    decreases |after|
  {
    if after == [] {
      assert front + after == front;
    } else {
      assert (front + after)[..|front + after| - 1] == front + after[..|after| - 1];
      TrimEndOf(front, after[..|after| - 1]);
    }
  }

  lemma {:induction false} TrimStartOf(before: Text, back: Text)
    requires AllSpaces(before) && (back != [] ==> !IsSpace(back[0]))
    ensures TrimStart(before + back) == back
  {
    if before == [] {
      assert before + back == back;
    } else {
      assert (before + back)[1..] == before[1..] + back;
      TrimStartOf(before[1..], back);
    }
  }

  /** There is only one such text. */
  lemma TrimmedIsTrim(raw: Text, line: Text)
    requires IsTrimmed(raw, line)
    ensures line == Trim(raw)
  {
    var before: Text, after: Text :| AllSpaces(before) && AllSpaces(after) && raw == before + line + after;
    if line == [] {
      assert raw == [] + (before + after);
      TrimEndOf([], before + after);
    } else {
      TrimEndOf(before + line, after);
      TrimStartOf(before, line);
    }
  }

  // ------------------------------------------------------------ instructions

  /** The word in capital letters. */
  ghost predicate IsCapital(word: Text, cmd: Text) {
    && |cmd| == |word|
    && forall k :: 0 <= k < |word| ==>
         if IsLower(word[k]) then IsUpper(cmd[k]) && cmd[k] - 65 == word[k] - 97 else cmd[k] == word[k]
  }

  /** A word, white space and something else. */
  ghost predicate IsSplit(line: Text, word: Text, gap: Text, args: Text) {
    && line == word + gap + args
    && (forall k :: 0 <= k < |word| ==> !IsSpace(word[k]))
    && gap != [] && AllSpaces(gap) && args != [] && !IsSpace(args[0])
  }

  /** The line is an instruction: it is kept as the capital word, a space and the rest. */
  ghost predicate Begins(words: Instructions, line: Text, cmd: Text, kept: Text) {
    exists word: Text, gap: Text, args: Text ::
      IsSplit(line, word, gap, args) && IsCapital(word, cmd) && cmd in words && kept == cmd + [SPACE] + args
  }

  lemma SplitIsFound(words: Instructions, line: Text, cmd: Text, kept: Text)
    requires Begins(words, line, cmd, kept)
    ensures TestInstStarting(words, line) == Instruction(cmd, kept)
  {
    var word: Text, gap: Text, args: Text :|
      IsSplit(line, word, gap, args) && IsCapital(word, cmd) && cmd in words && kept == cmd + [SPACE] + args;
    assert line == word + (gap + args);
    FirstWordIs(word, gap + args);
    CapitalIsUpper(word, cmd);
    assert line[|word|..] == gap + args;
    TrimStartOf(gap, args);
  }

  lemma CapitalIsUpper(word: Text, cmd: Text)
    ensures IsCapital(word, cmd) <==> cmd == ToUpper(word)
  {
  }

  lemma FoundIsSplit(words: Instructions, line: Text)
    requires Trimmed(line) && TestInstStarting(words, line).Instruction?
    ensures var test := TestInstStarting(words, line); Begins(words, line, test.cmd, test.lines)
  {
    var word := FirstWord(line);
    var rest := line[|word|..];
    var args := TrimStart(rest);
    TrimStartSuffix(rest);
    ArgumentsTrimmed(line);
    CapitalIsUpper(word, ToUpper(word));
    var gap := rest[..|rest| - |args|];
    assert line == word + gap + args;
    assert gap != [] by {
      assert IsSpace(rest[0]) && rest[0..] == rest;
    }
    assert IsSplit(line, word, gap, args);
  }

  /** A line that is an instruction is neither empty nor a comment. */
  lemma InstructionIsNoRemark(words: Instructions, line: Text)
    requires TestInstStarting(words, line).Instruction?
    ensures line != [] && line[0] != HASH
  {
    var word := FirstWord(line);
    InstructionWord(words, word);
    assert IsCommand(ToUpper(word));
    assert IsUpper(ToUpper(word)[0]);
  }

  // ---------------------------------------------------------- here-documents

  predicate IsRemark(raw: Text) {
    Trim(raw) == [] || Trim(raw)[0] == HASH
  }

  /** The delimiters that are waited for after these lines. */
  function Open(lines: seq<Text>): set<Text> {
    if lines == [] then {}
    else
      var before, last := Open(lines[..|lines| - 1]), lines[|lines| - 1];
      if before == {} && IsRemark(last) then {}
      else set d | d in before + Elements(Delimiters(Trim(last))) && (d in Delimiters(Trim(last)) || d != Trim(last))
  }

  /** It is waited for from a line that has it, other than a comment outside all of them, to a line that it is. */
  ghost predicate IsOpen(lines: seq<Text>, d: Text) {
    exists j :: 0 <= j < |lines| && OpensAt(lines, d, j)
  }

  ghost predicate OpensAt(lines: seq<Text>, d: Text, j: nat)
    requires j < |lines|
  {
    && d in Delimiters(Trim(lines[j])) && (Open(lines[..j]) == {} ==> !IsRemark(lines[j]))
    && forall m :: j < m < |lines| ==> Trim(lines[m]) != d
  }

  lemma {:induction false} OpenExactly(lines: seq<Text>, d: Text)
    ensures d in Open(lines) <==> IsOpen(lines, d)
  {
    hide Delimiters, Trim;
    if lines != [] {
      var front, last := lines[..|lines| - 1], |lines| - 1;
      OpenExactly(front, d);
      assert forall j :: 0 <= j <= |front| ==> front[..j] == lines[..j];
      if j :| 0 <= j < |front| && OpensAt(front, d, j) {
        assert Trim(lines[last]) != d ==> OpensAt(lines, d, j);
        NeverSkipped(lines, d);
      }
      if j :| 0 <= j < |lines| && OpensAt(lines, d, j) {
        if j < last {
          assert OpensAt(front, d, j);
          NeverSkipped(lines, d);
        }
      }
      if d in Open(lines) && d in Delimiters(Trim(lines[last])) {
        assert lines[..last] == front;
        assert OpensAt(lines, d, last);
      }
    }
  }

  lemma NeverSkipped(lines: seq<Text>, d: Text)
    requires lines != [] && d in Open(lines[..|lines| - 1])
    ensures d in Open(lines) <==> d in Delimiters(Trim(lines[|lines| - 1])) || d != Trim(lines[|lines| - 1])
  {
    hide Delimiters, Trim;
  }

  lemma {:induction false} ScanOpens(words: Instructions, lines: seq<Text>)
    requires !ScanLines(words, lines).orphan
    ensures ScanLines(words, lines).waiting == Open(lines)
  {
    hide Trim, Delimiters, TestInstStarting, Elements, TrimEnd;
    if lines != [] {
      var front, raw := lines[..|lines| - 1], lines[|lines| - 1];
      ScanOpens(words, front);
      TrimIsTrimmed(raw);
      TrimTrimmed(Trim(raw));
      if TestInstStarting(words, Trim(raw)).Instruction? {
        InstructionIsNoRemark(words, Trim(raw));
      }
      HandleOpens(Open(front), Trim(raw));
    }
  }

  lemma HandleOpens(before: set<Text>, line: Text)
    requires Trim(line) == line
    ensures Handle(before, line) ==
      set d | d in before + Elements(Delimiters(line)) && (d in Delimiters(line) || d != line)
  {
    hide Trim, Delimiters;
  }

  // --------------------------------------------------------------- each line

  /** The line is the instruction `cmd`, and is kept as this text. */
  ghost predicate IsInstruction(words: Instructions, raw: Text, cmd: Text, text: Text) {
    exists line: Text :: IsTrimmed(raw, line) && Begins(words, line, cmd, text)
  }

  ghost predicate HasInstruction(words: Instructions, raw: Text) {
    exists cmd: Text, text: Text :: IsInstruction(words, raw, cmd, text)
  }

  /** The line and how it is kept. */
  ghost predicate IsKept(words: Instructions, open: bool, raw: Text, kept: Text) {
    if open then kept == raw
    else if HasInstruction(words, raw) then exists cmd: Text :: IsInstruction(words, raw, cmd, kept)
    else IsEndTrimmed(raw, kept)
  }

  /** What a line is found to be. */
  ghost predicate IsItem(words: Instructions, open: bool, raw: Text, item: Item) {
    match item
    case Begin(cmd, text) => !open && !IsRemark(raw) && IsInstruction(words, raw, cmd, text)
    case Remark(_) => !open && IsRemark(raw)
    case More(_) => !open ==> !IsRemark(raw) && !HasInstruction(words, raw)
  }

  lemma InstructionIsFound(words: Instructions, raw: Text, cmd: Text, text: Text)
    requires IsInstruction(words, raw, cmd, text)
    ensures TestInstStarting(words, Trim(raw)) == Instruction(cmd, text)
  {
    var line: Text :| IsTrimmed(raw, line) && Begins(words, line, cmd, text);
    TrimmedIsTrim(raw, line);
    SplitIsFound(words, line, cmd, text);
  }

  lemma NoInstructionFound(words: Instructions, raw: Text)
    requires TestInstStarting(words, Trim(raw)).NoInstruction?
    ensures !HasInstruction(words, raw)
  {
    hide Trim, TestInstStarting, IsInstruction;
    if cmd: Text, text: Text :| IsInstruction(words, raw, cmd, text) {
      InstructionIsFound(words, raw, cmd, text);
    }
  }

  lemma LineIsKept(words: Instructions, waiting: set<Text>, started: bool, raw: Text)
    ensures var found := ScanLine(words, waiting, started, raw);
      found.Found? ==>
        IsKept(words, waiting != {}, raw, found.item.text) && IsItem(words, waiting != {}, raw, found.item)
  {
    TrimIs(raw);
    TrimEndIs(raw);
    hide Trim, TrimEnd, TestInstStarting, Handle, Begins, IsTrimmed, IsEndTrimmed;
    if waiting == {} {
      match TestInstStarting(words, Trim(raw))
      case Instruction(cmd, lines) =>
        TrimIsTrimmed(raw);
        FoundIsSplit(words, Trim(raw));
        InstructionIsNoRemark(words, Trim(raw));
        assert IsInstruction(words, raw, cmd, lines);
      case NoInstruction => NoInstructionFound(words, raw);
    }
  }

  lemma {:induction false} ItemsAreKept(words: Instructions, lines: seq<Text>, k: nat)
    requires !ScanLines(words, lines).orphan && k < |lines|
    ensures var items := ScanLines(words, lines).items;
      && |items| == |lines|
      && IsKept(words, Open(lines[..k]) != {}, lines[k], items[k].text)
      && IsItem(words, Open(lines[..k]) != {}, lines[k], items[k])
    decreases |lines|
  {
    hide ScanLine, IsKept, IsItem, Open;
    var front := lines[..|lines| - 1];
    var before := ScanLines(words, front);
    ScanStarted(words, front);
    ScanStarted(words, lines);
    if k < |front| {
      ItemsAreKept(words, front, k);
      assert front[..k] == lines[..k];
    } else {
      ScanOpens(words, front);
      LineIsKept(words, before.waiting, before.items != [], lines[k]);
    }
  }

  /**
   Every line of a text that can be parsed is kept: as it is while a here-document is open, as the capital word
   and its arguments if it is an instruction, otherwise without the white space at its end.
   */
  lemma LinesAreKept(words: Instructions, text: Text, k: nat)
    requires Parse(words, text).Parsed? && k < |Split(text, NEWLINE)|
    ensures var lines, kept := Split(text, NEWLINE), Split(Print(Parse(words, text).segments), NEWLINE);
      |kept| == |lines| && IsKept(words, Open(lines[..k]) != {}, lines[k], kept[k])
  {
    hide Split, ScanLines, Print, Build, IsKept, Open;
    ParsedPrints(words, text);
    ItemsAreKept(words, Split(text, NEWLINE), k);
  }

  // ------------------------------------------------------------- the segments

  /** The kind of the last instruction or comment among the items up to position `k`. */
  function KindAt(items: seq<Item>, k: nat): SegmentType
    requires k < |items|
  {
    match items[k]
    case Begin(cmd, _) => Command(cmd)
    case Remark(_) => Comment
    case More(_) => if k == 0 then Comment else KindAt(items, k - 1)
  }

  lemma {:induction false} KindOfFront(items: seq<Item>, item: Item, k: nat)
    requires k < |items|
    ensures KindAt(items + [item], k) == KindAt(items, k)
  {
    if items[k].More? && k > 0 {
      KindOfFront(items, item, k - 1);
    }
  }

  ghost predicate Covers(segment: Segment, k: nat) {
    segment.lineno <= k < segment.lineno + Height(segment)
  }

  ghost predicate KindFits(segment: Segment, items: seq<Item>, k: nat) {
    Covers(segment, k) ==> k < |items| && segment.kind == KindAt(items, k)
  }

  ghost predicate KindsFit(segments: seq<Segment>, items: seq<Item>) {
    && (forall j, k: nat :: 0 <= j < |segments| ==> KindFits(segments[j], items, k))
    && (forall k :: 0 <= k < |items| && items[k].Begin? ==> BeginsSegment(segments, k))
  }

  ghost predicate BeginsSegment(segments: seq<Segment>, k: nat) {
    exists j :: 0 <= j < |segments| && segments[j].lineno == k
  }

  lemma AddedHeight(segments: seq<Segment>, item: Item, count: nat)
    requires NEWLINE !in item.text && Tiles(segments, count) && (segments == [] ==> !item.More?)
    ensures var added := AddItem(segments, item, count);
      if GoesOn(segments, item) then
        && |added| == |segments| && Height(added[|segments| - 1]) == Height(segments[|segments| - 1]) + 1
        && added[|segments| - 1].kind == segments[|segments| - 1].kind
        && added[|segments| - 1].lineno == segments[|segments| - 1].lineno
      else |added| == |segments| + 1 && Height(added[|segments|]) == 1
  {
    SplitPiece(item.text, NEWLINE);
    if GoesOn(segments, item) {
      SplitConcat(segments[|segments| - 1].lines, item.text, NEWLINE);
    }
  }

  lemma {:induction false} EndsBefore(segments: seq<Segment>, count: nat, i: nat, j: nat)
    requires Tiles(segments, count) && i < j < |segments|
    ensures segments[i].lineno + Height(segments[i]) <= segments[j].lineno
    decreases j
  {
    if i < j - 1 {
      EndsBefore(segments, count, i, j - 1);
    }
    assert segments[j - 1 + 1].lineno == segments[j - 1].lineno + Height(segments[j - 1]);
  }

  lemma CoveredWithin(segments: seq<Segment>, count: nat, j: nat, k: nat)
    requires Tiles(segments, count) && j < |segments| && Covers(segments[j], k)
    ensures k < count && (j < |segments| - 1 ==> k < count - 1)
  {
    if j < |segments| - 1 {
      EndsBefore(segments, count, j, |segments| - 1);
    }
  }

  /** The last line belongs to the last segment. */
  lemma LastKind(segments: seq<Segment>, items: seq<Item>)
    requires Tiles(segments, |items|) && KindsFit(segments, items) && segments != [] && items != []
    ensures segments[|segments| - 1].kind == KindAt(items, |items| - 1)
  {
    hide KindAt;
    assert KindFits(segments[|segments| - 1], items, |items| - 1);
  }

  /** What is added goes on with the last segment, or is a new one, of the right kind. */
  lemma AddedKind(segments: seq<Segment>, items: seq<Item>, item: Item)
    requires Tiles(segments, |items|) && KindsFit(segments, items)
    requires (segments == [] <==> items == []) && (segments == [] ==> !item.More?)
    ensures var added := AddItem(segments, item, |items|);
      added != [] && added[|added| - 1].kind == KindAt(items + [item], |items|)
  {
    hide Height, Covers, Tiles;
    if items != [] {
      LastKind(segments, items);
      KindOfFront(items, item, |items| - 1);
    }
  }

  lemma AddKeepsKinds(segments: seq<Segment>, items: seq<Item>, item: Item)
    requires NEWLINE !in item.text && Tiles(segments, |items|) && CommentsMerged(segments) && KindsFit(segments, items)
    requires (segments == [] <==> items == []) && (segments == [] ==> !item.More?)
    ensures KindsFit(AddItem(segments, item, |items|), items + [item])
  {
    var added, all := AddItem(segments, item, |items|), items + [item];
    AddedHeight(segments, item, |items|);
    AddTiles(segments, item, |items|);
    AddedKind(segments, items, item);
    hide Height, Tiles, CommentsMerged, KindAt, Covers;
    forall j, k: nat | 0 <= j < |added| ensures KindFits(added[j], all, k) {
      if Covers(added[j], k) {
        CoveredWithin(added, |all|, j, k);
        if k < |items| {
          KindOfFront(items, item, k);
          assert j < |segments| && KindFits(segments[j], items, k);
        }
      }
    }
    AddKeepsBegins(segments, items, item);
  }

  lemma AddKeepsBegins(segments: seq<Segment>, items: seq<Item>, item: Item)
    requires forall k :: 0 <= k < |items| && items[k].Begin? ==> BeginsSegment(segments, k)
    ensures var added, all := AddItem(segments, item, |items|), items + [item];
      forall k :: 0 <= k < |all| && all[k].Begin? ==> BeginsSegment(added, k)
  {
    var added, all := AddItem(segments, item, |items|), items + [item];
    forall k | 0 <= k < |all| && all[k].Begin? ensures BeginsSegment(added, k) {
      if k < |items| {
        assert BeginsSegment(segments, k);
        var j :| 0 <= j < |segments| && segments[j].lineno == k;
        assert added[j].lineno == k;
      } else {
        assert added[|segments|].lineno == k;
      }
    }
  }

  lemma {:induction false} BuildKeepsKinds(items: seq<Item>)
    requires BeginsWell(items) && NoneHas(Texts(items), NEWLINE)
    ensures KindsFit(Build(items), items)
  {
    hide KindsFit, Tiles, CommentsMerged, KindAt;
    if items != [] {
      var front, last := items[..|items| - 1], items[|items| - 1];
      forall k | 0 <= k < |front| ensures NEWLINE !in Texts(front)[k] {
        assert NEWLINE !in Texts(items)[k];
      }
      assert NEWLINE !in Texts(items)[|front|];
      BuildKeepsKinds(front);
      BuildPrints(front);
      BuildTiles(front);
      AddKeepsKinds(Build(front), front, last);
      assert front + [last] == items;
    } else {
      NothingFits();
    }
  }

  lemma NothingFits()
    ensures KindsFit([], [])
  {
  }

  /** Outside all here-documents, an instruction or a comment. */
  ghost predicate StartsAt(words: Instructions, lines: seq<Text>, k: nat)
    requires k < |lines|
  {
    Open(lines[..k]) == {} && (IsRemark(lines[k]) || HasInstruction(words, lines[k]))
  }

  /** The last such line up to line `k`. */
  ghost predicate IsNearest(words: Instructions, lines: seq<Text>, k: nat, m: nat)
    requires k < |lines|
  {
    m <= k && StartsAt(words, lines, m) && forall j :: m < j <= k ==> !StartsAt(words, lines, j)
  }

  ghost predicate IsKindOf(words: Instructions, raw: Text, kind: SegmentType) {
    match kind
    case Comment => IsRemark(raw)
    case Command(cmd) => !IsRemark(raw) && exists text: Text :: IsInstruction(words, raw, cmd, text)
  }

  lemma {:induction false} NearestKind(words: Instructions, lines: seq<Text>, k: nat, m: nat)
    requires !ScanLines(words, lines).orphan && k < |lines| && IsNearest(words, lines, k, m)
    ensures |ScanLines(words, lines).items| == |lines|
    ensures IsKindOf(words, lines[m], KindAt(ScanLines(words, lines).items, k))
    decreases k
  {
    hide ScanLines, IsKept, Open, IsInstruction, IsRemark;
    ItemsAreKept(words, lines, k);
    if m < k {
      assert !StartsAt(words, lines, k);
      assert ScanLines(words, lines).items[k].More?;
      NearestKind(words, lines, k - 1, m);
    }
  }

  /**
   The segment a line belongs to is of the kind of the nearest instruction or comment up to that line, outside
   here-documents; and each instruction there begins a segment.
   */
  lemma SegmentsAreOfNearest(words: Instructions, text: Text, j: nat, k: nat, m: nat)
    requires Parse(words, text).Parsed? && j < |Parse(words, text).segments| && k < |Split(text, NEWLINE)|
    ensures var lines, segments := Split(text, NEWLINE), Parse(words, text).segments;
      && (IsNearest(words, lines, k, m) && Covers(segments[j], k) ==> IsKindOf(words, lines[m], segments[j].kind))
      && (StartsAt(words, lines, k) && !IsRemark(lines[k]) ==> BeginsSegment(segments, k))
  {
    hide Split, ScanLines, Build, IsKept, Open, IsInstruction, IsRemark, Texts, IsNearest;
    var lines := Split(text, NEWLINE);
    var scan := ScanLines(words, lines);
    ParsedPrints(words, text);
    ScanBeginsWell(words, lines);
    SplitJoin(text, NEWLINE);
    ScanHasNoBreaks(words, lines);
    BuildKeepsKinds(scan.items);
    ItemsAreKept(words, lines, k);
    if IsNearest(words, lines, k, m) {
      NearestKind(words, lines, k, m);
      assert KindFits(Build(scan.items)[j], scan.items, k);
    }
  }

  // ------------------------------------------------------ delimiters in a line

  /** Here a here-document starts, with this word. */
  ghost predicate StartsHeredoc(s: Text, length: nat, word: Text) {
    length <= |s| && exists dash: Text, spaces: Text, open: CodeUnit, close: CodeUnit ::
      IsHeredocStart(s[..length], dash, spaces, open, word, close)
  }

  lemma StartIsFound(s: Text, length: nat, word: Text)
    ensures StartsHeredoc(s, length, word) <==> HeredocAt(s) == Heredoc(length, word)
  {
    hide HeredocAt, IsHeredocStart;
    if StartsHeredoc(s, length, word) {
      var dash: Text, spaces: Text, open: CodeUnit, close: CodeUnit :|
        IsHeredocStart(s[..length], dash, spaces, open, word, close);
      HeredocIsFound(s[..length], dash, spaces, open, word, close, s[length..]);
      assert s == s[..length] + s[length..];
    }
    if HeredocAt(s) == Heredoc(length, word) {
      var dash, spaces, open, close := FoundIsHeredoc(s);
    }
  }

  /** The delimiters of a line: the first match of the expression, and then those behind that match. */
  lemma DelimitersAre(s: Text, length: nat, word: Text)
    ensures s == [] ==> Delimiters(s) == []
    ensures StartsHeredoc(s, length, word) ==> Delimiters(s) == [word] + Delimiters(s[length..])
    ensures s != [] && (forall l: nat, w: Text :: !StartsHeredoc(s, l, w)) ==> Delimiters(s) == Delimiters(s[1..])
  {
    hide HeredocAt, StartsHeredoc;
    StartIsFound(s, length, word);
    match HeredocAt(s)
    case NoHeredoc =>
    case Heredoc(l, w) => StartIsFound(s, l, w);
  }
}
