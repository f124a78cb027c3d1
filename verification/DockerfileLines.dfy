/**
 One line of a Dockerfile: white space, the delimiters of here-documents, the instruction; and that what is kept
 of an instruction line is the same instruction again.
 */
module DockerfileLines {
  import opened CodeUnits
  import opened Wrappers

  const HASH: CodeUnit := 35
  const LESS: CodeUnit := 60
  const DASH: CodeUnit := 45
  const QUOTES: set<CodeUnit> := {34, 39}

  function Codes(s: string): Text {
    seq(|s|, k requires 0 <= k < |s| => s[k] as int)
  }

  /** What `\s` matches and `trim` removes. */
  predicate IsSpace(unit: CodeUnit) {
    9 <= unit <= 13 || unit == 32 || unit == 0xA0 || unit == 0x1680 || 0x2000 <= unit <= 0x200A
    || unit == 0x2028 || unit == 0x2029 || unit == 0x202F || unit == 0x205F || unit == 0x3000 || unit == 0xFEFF
  }

  predicate IsUpper(unit: CodeUnit) { 65 <= unit <= 90 }

  predicate IsLower(unit: CodeUnit) { 97 <= unit <= 122 }

  predicate IsWordUnit(unit: CodeUnit) {
    IsUpper(unit) || IsLower(unit) || 48 <= unit <= 57 || unit == 95
  }

  predicate IsWord(word: Text) {
    word != [] && forall k :: 0 <= k < |word| ==> IsWordUnit(word[k])
  }

  predicate IsCommand(word: Text) {
    word != [] && forall k :: 0 <= k < |word| ==> IsUpper(word[k])
  }

  /** The instruction set of a parser: words of capital letters. */
  type Instructions = words: set<Text> | forall word :: word in words ==> IsCommand(word) witness {}

  const WORDS: set<string> := {
    "ADD", "ARG", "CMD", "COPY", "ENTRYPOINT", "ENV", "EXPOSE", "FROM", "HEALTHCHECK", "LABEL", "MAINTAINER",
    "ONBUILD", "RUN", "SHELL", "STOPSIGNAL", "USER", "VOLUME", "WORKDIR"
  }

  const DEFAULT: Instructions := set word | word in WORDS :: Codes(word)

  ghost predicate Spells(name: string, word: Text) {
    |name| == |word| && forall k :: 0 <= k < |word| ==> word[k] == name[k] as int
  }

  /** The default instructions are these words, unit by unit. */
  lemma DefaultExactly(word: Text)
    ensures word in DEFAULT <==> exists name :: name in WORDS && Spells(name, word)
  {
    if name :| name in WORDS && Spells(name, word) {
      assert Codes(name) == word;
    }
    if word in DEFAULT {
      var name :| name in WORDS && word == Codes(name);
      assert Spells(name, word);
    }
  }

  const CAPITALS := "ABCDEFGHIJKLMNOPQRSTUVWXYZ"
  const SMALL := "abcdefghijklmnopqrstuvwxyz"
  const DIGITS := "0123456789"

  ghost predicate IsAmong(unit: CodeUnit, units: string) {
    exists k :: 0 <= k < |units| && units[k] as int == unit
  }

  lemma AmongRow(unit: CodeUnit, units: string, first: int)
    requires forall k :: 0 <= k < |units| ==> units[k] as int == first + k
    ensures IsAmong(unit, units) <==> first <= unit < first + |units|
  {
    if first <= unit < first + |units| {
      assert units[unit - first] as int == unit;
    }
  }

  /** The letters and digits, and what counts as white space, one by one. */
  lemma UnitsExactly(unit: CodeUnit)
    ensures IsUpper(unit) <==> IsAmong(unit, CAPITALS)
    ensures IsLower(unit) <==> IsAmong(unit, SMALL)
    ensures IsWordUnit(unit) <==>
      IsAmong(unit, CAPITALS) || IsAmong(unit, SMALL) || IsAmong(unit, DIGITS) || unit == '_' as int
    ensures IsSpace(unit) <==> unit in {
      9, 10, 11, 12, 13, 32, 160, 5760, 8192, 8193, 8194, 8195, 8196, 8197, 8198, 8199, 8200, 8201, 8202,
      8232, 8233, 8239, 8287, 12288, 65279}
  {
    AmongRow(unit, CAPITALS, 65);
    AmongRow(unit, SMALL, 97);
    AmongRow(unit, DIGITS, 48);
    hide IsAmong;
  }

  // --------------------------------------------------------------- white space

  function TrimStart(s: Text): Text {
    if s != [] && IsSpace(s[0]) then TrimStart(s[1..]) else s
  }

  function TrimEnd(s: Text): Text {
    if s != [] && IsSpace(s[|s| - 1]) then TrimEnd(s[..|s| - 1]) else s
  }

  function Trim(s: Text): Text {
    TrimStart(TrimEnd(s))
  }

  predicate Trimmed(s: Text) {
    s != [] ==> !IsSpace(s[0]) && !IsSpace(s[|s| - 1])
  }

  lemma {:induction false} TrimStartSuffix(s: Text)
    ensures |TrimStart(s)| <= |s| && TrimStart(s) == s[|s| - |TrimStart(s)|..]
    ensures TrimStart(s) != [] ==> !IsSpace(TrimStart(s)[0])
    ensures forall k :: 0 <= k < |s| - |TrimStart(s)| ==> IsSpace(s[k])
  {
    if s != [] && IsSpace(s[0]) {
      TrimStartSuffix(s[1..]);
      var n := |TrimStart(s)|;
      assert s[1..][|s| - 1 - n..] == s[|s| - n..];
      forall k | 0 <= k < |s| - n ensures IsSpace(s[k]) {
        if k > 0 {
          assert IsSpace(s[1..][k - 1]);
        }
      }
    }
  }

  lemma {:induction false} TrimEndPrefix(s: Text)
    ensures TrimEnd(s) <= s && TrimEnd(TrimEnd(s)) == TrimEnd(s)
    ensures TrimEnd(s) != [] ==> !IsSpace(TrimEnd(s)[|TrimEnd(s)| - 1])
  {
    if s != [] && IsSpace(s[|s| - 1]) {
      TrimEndPrefix(s[..|s| - 1]);
    }
  }

  lemma TrimIsTrimmed(s: Text)
    ensures Trimmed(Trim(s))
  {
    TrimEndPrefix(s);
    TrimStartSuffix(TrimEnd(s));
  }

  lemma TrimTrimmed(s: Text)
    requires Trimmed(s)
    ensures Trim(s) == s
  {
  }

  lemma TrimOfTrimEnd(s: Text)
    ensures Trim(TrimEnd(s)) == Trim(s)
  {
    TrimEndPrefix(s);
  }

  // ------------------------------------------------------------- here-documents

  function SpaceRun(s: Text): (n: nat)
    ensures n <= |s| && (forall k :: 0 <= k < n ==> IsSpace(s[k])) && (n < |s| ==> !IsSpace(s[n]))
  {
    if s != [] && IsSpace(s[0]) then 1 + SpaceRun(s[1..]) else 0
  }

  function WordRun(s: Text): (n: nat)
    ensures n <= |s| && (forall k :: 0 <= k < n ==> IsWordUnit(s[k])) && (n < |s| ==> !IsWordUnit(s[n]))
  {
    if s != [] && IsWordUnit(s[0]) then 1 + WordRun(s[1..]) else 0
  }

  datatype Heredoc = NoHeredoc | Heredoc(length: nat, delimiter: Text)

  /** A quoted word at the start of the text; the quotes need not be the same. */
  function QuotedAt(s: Text): (h: Heredoc)
    ensures h.Heredoc? ==> 0 < h.length <= |s|
  {
    if s == [] || s[0] !in QUOTES then NoHeredoc
    else
      var n := WordRun(s[1..]);
      if n > 0 && n + 1 < |s| && s[n + 1] in QUOTES then Heredoc(n + 2, s[1..n + 1]) else NoHeredoc
  }

  /** Where the quote has to be after `<<`, a dash and white space. */
  function QuotePosition(s: Text): (quote: nat)
    requires |s| >= 2
    ensures 2 <= quote <= |s|
  {
    var dash := if |s| > 2 && s[2] == DASH then 3 else 2;
    dash + SpaceRun(s[dash..])
  }

  /** The start of a here-document at the start of the text. */
  function HeredocAt(s: Text): (h: Heredoc)
    ensures h.Heredoc? ==> 2 < h.length <= |s|
  {
    if |s| < 2 || s[0] != LESS || s[1] != LESS then NoHeredoc
    else
      var quote := QuotePosition(s);
      match QuotedAt(s[quote..])
      case NoHeredoc => NoHeredoc
      case Heredoc(length, delimiter) => Heredoc(quote + length, delimiter)
  }

  /** All delimiters in a line, from left to right. */
  function Delimiters(s: Text): seq<Text>
    decreases |s|
  {
    if s == [] then []
    else match HeredocAt(s)
      case NoHeredoc => Delimiters(s[1..])
      case Heredoc(length, delimiter) => [delimiter] + Delimiters(s[length..])
  }

  /** What the regular expression says. */
  ghost predicate IsHeredocStart(text: Text, dash: Text, spaces: Text, open: CodeUnit, word: Text, close: CodeUnit) {
    && text == [LESS, LESS] + dash + spaces + [open] + word + [close]
    && (dash == [] || dash == [DASH])
    && (forall k :: 0 <= k < |spaces| ==> IsSpace(spaces[k]))
    && open in QUOTES && close in QUOTES && IsWord(word)
  }

  lemma {:induction false} SpaceRunIs(spaces: Text, rest: Text)
    requires forall k :: 0 <= k < |spaces| ==> IsSpace(spaces[k])
    requires rest == [] || !IsSpace(rest[0])
    ensures SpaceRun(spaces + rest) == |spaces|
  {
    if spaces == [] {
      assert spaces + rest == rest;
    } else {
      assert (spaces + rest)[1..] == spaces[1..] + rest;
      SpaceRunIs(spaces[1..], rest);
    }
  }

  lemma {:induction false} WordRunIs(word: Text, rest: Text)
    requires forall k :: 0 <= k < |word| ==> IsWordUnit(word[k])
    requires rest == [] || !IsWordUnit(rest[0])
    ensures WordRun(word + rest) == |word|
  {
    if word == [] {
      assert word + rest == rest;
    } else {
      assert (word + rest)[1..] == word[1..] + rest;
      WordRunIs(word[1..], rest);
    }
  }

  lemma QuotedIs(open: CodeUnit, word: Text, close: CodeUnit, rest: Text)
    requires open in QUOTES && close in QUOTES && IsWord(word)
    ensures QuotedAt([open] + word + [close] + rest) == Heredoc(|word| + 2, word)
  {
    var s := [open] + word + [close] + rest;
    assert s[1..] == word + ([close] + rest);
    WordRunIs(word, [close] + rest);
  }

  lemma QuotePositionIs(dash: Text, spaces: Text, quoted: Text)
    requires dash == [] || dash == [DASH]
    requires forall k :: 0 <= k < |spaces| ==> IsSpace(spaces[k])
    requires quoted != [] && quoted[0] in QUOTES
    ensures QuotePosition([LESS, LESS] + dash + spaces + quoted) == 2 + |dash| + |spaces|
  {
    var s := [LESS, LESS] + dash + spaces + quoted;
    assert s[2 + |dash|..] == spaces + quoted;
    SpaceRunIs(spaces, quoted);
    assert dash == [] ==> s[2] == (spaces + quoted)[0];
  }

  /** Whatever matches the expression is found, whole, with its word as the delimiter. */
  lemma HeredocIsFound(text: Text, dash: Text, spaces: Text, open: CodeUnit, word: Text, close: CodeUnit, rest: Text)
    requires IsHeredocStart(text, dash, spaces, open, word, close)
    ensures HeredocAt(text + rest) == Heredoc(|text|, word)
  {
    var start, quoted := [LESS, LESS] + dash + spaces, [open] + word + [close] + rest;
    QuotePositionIs(dash, spaces, quoted);
    QuotedIs(open, word, close, rest);
    hide QuotePosition, QuotedAt, IsWord, IsSpace;
    QuotedAfter(start, open, word, close);
    assert text + rest == start + quoted;
    assert (start + quoted)[|start|..] == quoted;
    assert start[0] == LESS && start[1] == LESS;
  }

  lemma FoundIsQuoted(s: Text)
    requires QuotedAt(s).Heredoc?
    ensures var h := QuotedAt(s); 2 < h.length <= |s| && s[..h.length] == [s[0]] + h.delimiter + [s[h.length - 1]]
    ensures var h := QuotedAt(s); IsWord(h.delimiter) && s[0] in QUOTES && s[h.length - 1] in QUOTES
  {
  }

  lemma StartOf(s: Text) returns (dash: Text, spaces: Text)
    requires |s| >= 2 && s[0] == LESS && s[1] == LESS
    ensures s[..QuotePosition(s)] == [LESS, LESS] + dash + spaces
    ensures (dash == [] || dash == [DASH]) && forall k :: 0 <= k < |spaces| ==> IsSpace(spaces[k])
  {
    var at := if |s| > 2 && s[2] == DASH then 3 else 2;
    dash, spaces := s[2..at], s[at..QuotePosition(s)];
    forall k | 0 <= k < |spaces| ensures IsSpace(spaces[k]) {
      assert spaces[k] == s[at..][k];
    }
  }

  /** And what is found matches the expression. */
  lemma FoundIsHeredoc(s: Text) returns (dash: Text, spaces: Text, open: CodeUnit, close: CodeUnit)
    requires HeredocAt(s).Heredoc?
    ensures IsHeredocStart(s[..HeredocAt(s).length], dash, spaces, open, HeredocAt(s).delimiter, close)
  {
    dash, spaces := StartOf(s);
    var quote, length, word := QuotePosition(s), HeredocAt(s).length, HeredocAt(s).delimiter;
    FoundIsQuoted(s[quote..]);
    open, close := s[quote], s[length - 1];
    assert s[quote..][length - quote - 1] == close;
    hide HeredocAt, QuotedAt, QuotePosition, IsWord, IsSpace;
    HeredocParts(s, quote, length, [LESS, LESS] + dash + spaces, open, word, close);
  }

  lemma HeredocParts(s: Text, quote: nat, length: nat, start: Text, open: CodeUnit, word: Text, close: CodeUnit)
    requires quote <= length <= |s| && s[..quote] == start && s[quote..][..length - quote] == [open] + word + [close]
    ensures s[..length] == start + [open] + word + [close]
  {
    assert s[..length] == s[..quote] + s[quote..][..length - quote];
    QuotedAfter(start, open, word, close);
  }

  lemma QuotedAfter(start: Text, open: CodeUnit, word: Text, close: CodeUnit)
    ensures start + ([open] + word + [close]) == start + [open] + word + [close]
  {
  }

  /** Units that are not `<` before a text add no delimiters. */
  lemma {:induction false} DelimitersAfter(before: Text, s: Text)
    requires LESS !in before
    ensures Delimiters(before + s) == Delimiters(s)
  {
    if before == [] {
      assert before + s == s;
    } else {
      assert (before + s)[1..] == before[1..] + s;
      assert (before + s)[0] == before[0] != LESS;
      DelimitersAfter(before[1..], s);
    }
  }

  function Elements(list: seq<Text>): set<Text> {
    set item | item in list
  }

  lemma NoElements()
    ensures Elements([]) == {}
  {
  }

  lemma ElementsSnoc(list: seq<Text>, item: Text)
    ensures Elements(list + [item]) == Elements(list) + {item}
  {
  }

  /** The delimiters waited for after a line: one that is the whole line is over, those in it begin. */
  function Handle(waiting: set<Text>, line: Text): set<Text> {
    (waiting - {Trim(line)}) + Elements(Delimiters(Trim(line)))
  }

  // --------------------------------------------------------------- instructions

  function ToUpper(word: Text): Text {
    seq(|word|, k requires 0 <= k < |word| => if IsLower(word[k]) then word[k] - 32 else word[k])
  }

  function FirstWord(line: Text): (word: Text)
    ensures word <= line
    ensures forall k :: 0 <= k < |word| ==> !IsSpace(word[k])
    ensures |word| < |line| ==> IsSpace(line[|word|])
  {
    if line == [] || IsSpace(line[0]) then [] else [line[0]] + FirstWord(line[1..])
  }

  datatype Test = NoInstruction | Instruction(cmd: Text, lines: Text)

  /** An instruction has white space after its word, and so something after that, the line being trimmed. */
  function TestInstStarting(words: Instructions, line: Text): Test {
    var word := FirstWord(line);
    if ToUpper(word) in words && |word| < |line| then
      Instruction(ToUpper(word), ToUpper(word) + [SPACE] + TrimStart(line[|word|..]))
    else NoInstruction
  }

  /** A word followed by white space is the first word. */
  lemma {:induction false} FirstWordIs(word: Text, rest: Text)
    requires forall k :: 0 <= k < |word| ==> !IsSpace(word[k])
    requires rest == [] || IsSpace(rest[0])
    ensures FirstWord(word + rest) == word
  {
    if word == [] {
      assert word + rest == rest;
    } else {
      assert (word + rest)[1..] == word[1..] + rest;
      FirstWordIs(word[1..], rest);
    }
  }

  /** The units of a word that is an instruction in either case: letters. */
  lemma InstructionWord(words: Instructions, word: Text)
    requires ToUpper(word) in words
    ensures word != [] && LESS !in word && NEWLINE !in ToUpper(word) && LESS !in ToUpper(word)
    ensures ToUpper(ToUpper(word)) == ToUpper(word)
    ensures forall k :: 0 <= k < |word| ==> !IsSpace(ToUpper(word)[k])
  {
    var upper := ToUpper(word);
    assert IsCommand(upper);
    forall k | 0 <= k < |word| ensures IsUpper(upper[k]) && word[k] != LESS {
      assert IsUpper(upper[k]);
    }
  }

  /** The arguments of a trimmed instruction line: not empty, and trimmed. */
  lemma ArgumentsTrimmed(line: Text)
    requires Trimmed(line) && |FirstWord(line)| < |line|
    ensures var args := TrimStart(line[|FirstWord(line)|..]); args != [] && Trimmed(args)
  {
    var rest := line[|FirstWord(line)|..];
    TrimStartSuffix(rest);
    assert rest[|rest| - 1] == line[|line| - 1];
  }

  lemma SpaceIsTrimmed(args: Text)
    requires args != [] && Trimmed(args)
    ensures TrimStart([SPACE] + args) == args
  {
    assert ([SPACE] + args)[1..] == args;
  }

  /** An instruction in capitals, one space and its arguments. */
  lemma KeptIsInstruction(words: Instructions, upper: Text, args: Text)
    requires upper in words && ToUpper(upper) == upper && (forall k :: 0 <= k < |upper| ==> !IsSpace(upper[k]))
    requires args != [] && Trimmed(args)
    ensures var lines := upper + [SPACE] + args;
      TestInstStarting(words, lines) == Instruction(upper, lines)
  {
    var lines := upper + [SPACE] + args;
    assert lines == upper + ([SPACE] + args);
    FirstWordIs(upper, [SPACE] + args);
    SpaceIsTrimmed(args);
    hide TrimStart, FirstWord, ToUpper;
    assert lines[|upper|..] == [SPACE] + args;
  }

  /** The line as it is kept is an instruction line again, the same one. */
  lemma InstructionStable(words: Instructions, line: Text)
    requires Trimmed(line) && TestInstStarting(words, line).Instruction?
    ensures var kept := TestInstStarting(words, line);
      Trimmed(kept.lines) && kept.lines != [] && TestInstStarting(words, kept.lines) == kept
  {
    hide TrimStart, FirstWord, ToUpper;
    var word := FirstWord(line);
    var upper, args := ToUpper(word), TrimStart(line[|word|..]);
    var lines := upper + [SPACE] + args;
    InstructionWord(words, word);
    ArgumentsTrimmed(line);
    UpperLength(word);
    KeptIsInstruction(words, upper, args);
    assert lines[|lines| - 1] == args[|args| - 1];
    assert lines[0] == upper[0];
  }

  lemma UpperLength(word: Text)
    ensures |ToUpper(word)| == |word|
  {
  }

  /** And it has the same delimiters. */
  lemma InstructionDelimiters(words: Instructions, line: Text)
    requires Trimmed(line) && TestInstStarting(words, line).Instruction?
    ensures Delimiters(TestInstStarting(words, line).lines) == Delimiters(line)
  {
    var word := FirstWord(line);
    var rest := line[|word|..];
    var args := TrimStart(rest);
    InstructionWord(words, word);
    TrimStartSuffix(rest);
    var spaces := rest[..|rest| - |args|];
    assert line == (word + spaces) + args;
    DelimitersAfter(word + spaces, args);
    DelimitersAfter(ToUpper(word) + [SPACE], args);
  }

  // -------------------------------------------------------------------- methods

  class HeredocWaiter {
    var waiting: set<Text>

    constructor ()
      ensures waiting == {}
    {
      waiting := {};
    }

    method HandleLine(line: Text)
      modifies this
      ensures waiting == Handle(old(waiting), line)
    {
      var trimmed := Trim(line);
      if trimmed in waiting {
        waiting := waiting - {trimmed};
      }
      ghost var kept := waiting;
      assert kept == old(waiting) - {trimmed};
      var matches := MatchAll(trimmed);
      hide Trim, Delimiters, Elements;
      NoElements();
      for k := 0 to |matches|
        invariant waiting == kept + Elements(matches[..k])
      {
        ElementsSnoc(matches[..k], matches[k]);
        assert matches[..k + 1] == matches[..k] + [matches[k]];
        waiting := waiting + {matches[k]};
      }
      assert matches[..|matches|] == matches;
    }
  }

  /** The matches of the expression, searched for from left to right. */
  method MatchAll(line: Text) returns (matches: seq<Text>)
    ensures matches == Delimiters(line)
  {
    hide HeredocAt;
    matches := [];
    var rest := line;
    while rest != []
      invariant matches + Delimiters(rest) == Delimiters(line)
      decreases |rest|
    {
      match HeredocAt(rest)
      case NoHeredoc =>
        rest := rest[1..];
      case Heredoc(length, delimiter) =>
        ghost var after := Delimiters(rest[length..]);
        assert matches + ([delimiter] + after) == matches + [delimiter] + after;
        matches := matches + [delimiter];
        rest := rest[length..];
    }
  }
}
