/**
 Reading the first complete character of a text.  The tables of escape sequences, emoji and full
 width code points are parameters; the combining characters are those of the source.
 */
module FirstCompleteChar {
  import opened CodeUnits
  import DisplayWidth

  datatype SupportInfo = SupportInfo(emojiSequence: bool, combining: bool, surrogates: bool, tabSize: nat)

  /**
   Length of the escape sequence, or of the emoji, at the start of a text, 0 if there is none; how
   many simple emoji there are in a text; and whether a code point is of full width.
   */
  datatype Tables = Tables(ansi: Text -> nat, emoji: Text -> nat, simpleEmoji: Text -> nat, fullWidth: int -> bool) {
    ghost predicate Valid() {
      forall s: Text :: ansi(s) <= |s| && emoji(s) <= |s|
    }
  }

  datatype CodePointInfo = CodePointInfo(data: Text, width: nat, length: nat, visible: bool)

  predicate IsHighSurrogate(unit: CodeUnit) { 0xD800 <= unit < 0xDC00 }

  predicate IsLowSurrogate(unit: CodeUnit) { 0xDC00 <= unit < 0xE000 }

  /** `codePointAt(at) ?? -1`. */
  function CodePointAt(s: Text, at: nat): int {
    if at >= |s| then -1
    else if IsHighSurrogate(s[at]) && at + 1 < |s| && IsLowSurrogate(s[at + 1]) then
      (s[at] - 0xD800) * 0x400 + (s[at + 1] - 0xDC00) + 0x1_0000
    else s[at]
  }

  predicate IsCombining(code: int) {
    0x300 <= code <= 0x36F || 0x1AB0 <= code <= 0x1AFF || 0x1DC0 <= code <= 0x1DFF
    || 0x20D0 <= code <= 0x20FF || 0xFE20 <= code <= 0xFE2F
  }

  /** A code point above 0xFFFF is read from its two units; any other unit is read as it is. */
  lemma PairIsCodePoint(code: int, rest: Text)
    requires 0x1_0000 <= code <= 0x10_FFFF
    ensures var high, low := 0xD800 + (code - 0x1_0000) / 0x400, 0xDC00 + (code - 0x1_0000) % 0x400;
      CodePointAt([high, low] + rest, 0) == code
  {
  }

  lemma UnitIsCodePoint(s: Text, at: nat)
    requires at < |s|
    requires !(0xD800 <= s[at] <= 0xDBFF && at + 1 < |s| && 0xDC00 <= s[at + 1] <= 0xDFFF)
    ensures CodePointAt(s, at) == s[at]
  {
  }

  /** First code point and size of each block of combining characters. */
  const COMBINING_BLOCKS: seq<(int, int)> := [(0x300, 112), (0x1AB0, 80), (0x1DC0, 64), (0x20D0, 48), (0xFE20, 16)]

  lemma CombiningExactly(code: int)
    ensures IsCombining(code) <==>
      exists k :: 0 <= k < |COMBINING_BLOCKS|
                  && COMBINING_BLOCKS[k].0 <= code < COMBINING_BLOCKS[k].0 + COMBINING_BLOCKS[k].1
  {
    assert COMBINING_BLOCKS[0].0 == 0x300 && COMBINING_BLOCKS[1].0 == 0x1AB0 && COMBINING_BLOCKS[2].0 == 0x1DC0;
    assert COMBINING_BLOCKS[3].0 == 0x20D0 && COMBINING_BLOCKS[4].0 == 0xFE20;
  }

  /** How many combining characters the text starts with. */
  function CombiningRun(s: Text): (n: nat)
    ensures n <= |s|
    ensures s != [] && IsCombining(s[0]) ==> n > 0
    ensures forall k :: 0 <= k < n ==> IsCombining(s[k])
    ensures n < |s| ==> !IsCombining(s[n])
  {
    if s != [] && IsCombining(s[0]) then 1 + CombiningRun(s[1..]) else 0
  }

  function SingleChar(tables: Tables, s: Text, code: int): CodePointInfo
    requires s != []
  {
    CodePointInfo([s[0]], if tables.fullWidth(code) then 2 else 1, 1, true)
  }

  function Invisible(data: Text): CodePointInfo {
    CodePointInfo(data, 0, |data|, false)
  }

  /** A control sequence, a tab or a control character, if the text starts with one. */
  function ReadControl(tables: Tables, s: Text, code: int, supports: SupportInfo): (info: CodePointInfo)
    requires tables.Valid() && s != []
    ensures info.data <= s && info.length == |info.data|
  {
    var ansi := tables.ansi(s);
    if ansi > 0 then Invisible(s[..ansi])
    else if code == 9 then CodePointInfo(s[..1], supports.tabSize, 1, false)
    else if code <= 0x1F || 0x7F <= code <= 0x9F then Invisible(s[..1])
    else CodePointInfo([], 0, 0, true)
  }

  /** An emoji, a surrogate pair or a single unit, without the combining characters after it. */
  function ReadBase(tables: Tables, s: Text, code: int, supports: SupportInfo): (info: CodePointInfo)
    requires tables.Valid() && s != [] && code == CodePointAt(s, 0)
    ensures info.data <= s && info.length == |info.data| > 0
  {
    var emoji := tables.emoji(s);
    if code <= 0xFF then SingleChar(tables, s, code)
    else if emoji > 0 then
      CodePointInfo(s[..emoji], if supports.emojiSequence then 2 else tables.simpleEmoji(s[..emoji]) * 2, emoji, true)
    else if code > 0xFFFF && |s| >= 2 then
      CodePointInfo(s[..2], if supports.surrogates && !tables.fullWidth(code) then 1 else 2, 2, true)
    else SingleChar(tables, s, code)
  }

  /** The combining characters that follow belong to the character. */
  function WithCombining(base: CodePointInfo, str: Text, supports: SupportInfo): (ret: CodePointInfo)
    requires base.data <= str && base.length == |base.data|
    ensures ret.data <= str && ret.length == |ret.data| >= base.length
    ensures !IsCombining(CodePointAt(str, ret.length))
    ensures forall k :: base.length <= k < ret.length ==> IsCombining(str[k])
  {
    if !IsCombining(CodePointAt(str, base.length)) then base
    else
      var rest := str[base.length..];
      var m := CombiningRun(rest);
      assert base.data + rest[..m] == str[..base.length + m];
      assert m < |rest| ==> rest[m] == str[base.length + m];
      CodePointInfo(str[..base.length + m], base.width + if supports.combining then 0 else m,
                    base.length + m, base.visible)
  }

  /** The first complete character: a prefix of the text, empty only if the text is. */
  function ReadFirst(tables: Tables, s: Text, supports: SupportInfo): (info: CodePointInfo)
    requires tables.Valid()
    ensures info.data <= s && info.length == |info.data|
    ensures s != [] ==> 1 <= info.length <= |s|
    ensures info.visible ==> !IsCombining(CodePointAt(s, info.length))
  {
    if s == [] then Invisible([])
    else
      var code := CodePointAt(s, 0);
      var control := if code <= 0xFF then ReadControl(tables, s, code, supports) else Invisible([]);
      var run := CombiningRun(s);
      if control.length > 0 then control
      else if code > 0xFF && IsCombining(code) then
        CodePointInfo(s[..run], if supports.combining then 0 else run, run, false)
      else WithCombining(ReadBase(tables, s, code, supports), s, supports)
  }

  lemma BaseOfLatin(tables: Tables, s: Text, code: int, supports: SupportInfo)
    requires tables.Valid() && s != [] && code == CodePointAt(s, 0) && code <= 0xFF
    ensures ReadBase(tables, s, code, supports) == SingleChar(tables, s, code)
  {
  }

  /** `readFirstCompleteChar`: the base character is built first, then edited. */
  method ReadFirstCompleteChar(tables: Tables, str: Text, supports: SupportInfo) returns (ret: CodePointInfo)
    requires tables.Valid()
    ensures ret == ReadFirst(tables, str, supports)
  {
    hide ReadBase, WithCombining;
    if str == [] {
      return CodePointInfo([], 0, 0, false);
    }
    var code := CodePointAt(str, 0);
    if code <= 0xFF {
      var ansi := tables.ansi(str);
      if ansi > 0 {
        return Invisible(str[..ansi]);
      } else if code == 9 {
        return CodePointInfo(str[..1], supports.tabSize, 1, false);
      } else if code <= 0x1F || 0x7F <= code <= 0x9F {
        return Invisible(str[..1]);
      }
      ret := SingleChar(tables, str, code);
      BaseOfLatin(tables, str, code, supports);
    } else if IsCombining(code) {
      var all := CombiningRun(str);
      return CodePointInfo(str[..all], if supports.combining then 0 else all, all, false);
    } else {
      ret := ReadBase(tables, str, code, supports);
    }

    ret := AddCombining(ret, str, supports);
  }

  /** The combining characters that follow belong to the character. */
  method AddCombining(base: CodePointInfo, str: Text, supports: SupportInfo) returns (ret: CodePointInfo)
    requires base.data <= str && base.length == |base.data|
    ensures ret == WithCombining(base, str, supports)
  {
    ret := base;
    var nextCode := CodePointAt(str, ret.length);
    if IsCombining(nextCode) {
      var m := CombiningRun(str[ret.length..]);
      ret := ret.(data := ret.data + str[ret.length..][..m], length := ret.length + m);
      if !supports.combining {
        ret := ret.(width := ret.width + m);
      }
    }
  }

  /** The reader obeys the law of a segmenter. */
  function SegmenterOf(tables: Tables, supports: SupportInfo): DisplayWidth.Segmenter
    requires tables.Valid()
  {
    (s: Text) requires tables.Valid() =>
      DisplayWidth.Item(ReadFirst(tables, s, supports).width, ReadFirst(tables, s, supports).length)
  }

  lemma LetterIsNotControl(tables: Tables, s: Text, supports: SupportInfo)
    requires tables.Valid() && s != [] && 0x20 <= s[0] <= 0x7E && tables.ansi(s) == 0
    ensures CodePointAt(s, 0) == s[0] && ReadControl(tables, s, s[0], supports).length == 0
  {
  }

  lemma NothingCombines(base: CodePointInfo, s: Text, supports: SupportInfo)
    requires base.data <= s && base.length == |base.data| == 1 && (|s| > 1 ==> 0 <= s[1] <= 0xFF)
    ensures WithCombining(base, s, supports) == base
  {
    hide CombiningRun;
  }

  lemma LetterIsOneColumn(tables: Tables, s: Text, supports: SupportInfo)
    requires tables.Valid() && s != [] && 0x20 <= s[0] <= 0x7E && !tables.fullWidth(s[0])
    requires tables.ansi(s) == 0 && (|s| > 1 ==> 0 <= s[1] <= 0xFF)
    ensures SegmenterOf(tables, supports)(s) == DisplayWidth.Item(1, 1)
  {
    hide CombiningRun, ReadControl, WithCombining, ReadBase, CodePointAt;
    LetterIsNotControl(tables, s, supports);
    BaseOfLatin(tables, s, s[0], supports);
    NothingCombines(SingleChar(tables, s, s[0]), s, supports);
  }

  lemma EscapeHasNoWidth(tables: Tables, escape: Text, supports: SupportInfo)
    requires tables.Valid() && escape != [] && 0 <= escape[0] <= 0xFF && tables.ansi(escape) == |escape|
    ensures SegmenterOf(tables, supports)(escape) == DisplayWidth.Item(0, |escape|)
  {
    hide CombiningRun, WithCombining, ReadBase;
    assert CodePointAt(escape, 0) == escape[0];
  }

  /** Neither an escape sequence nor a control character nor a combining one begins the text. */
  predicate BeginsVisibly(tables: Tables, s: Text) {
    && s != []
    && (CodePointAt(s, 0) <= 0xFF ==>
          tables.ansi(s) == 0 && 0x20 <= CodePointAt(s, 0) && !(0x7F <= CodePointAt(s, 0) <= 0x9F))
    && !(CodePointAt(s, 0) > 0xFF && IsCombining(CodePointAt(s, 0)))
  }

  /** The columns of the character without the combining ones behind its first `base` units, if these take columns. */
  function Columns(info: CodePointInfo, base: nat, supports: SupportInfo): int {
    if supports.combining then info.width else info.width - (info.length - base)
  }

  /** A visible character has two columns if it is of full width, and one otherwise. */
  lemma WidthOfCharacter(tables: Tables, s: Text, supports: SupportInfo)
    requires tables.Valid() && BeginsVisibly(tables, s)
    requires CodePointAt(s, 0) <= 0xFFFF && (CodePointAt(s, 0) <= 0xFF || tables.emoji(s) == 0)
    ensures var info := ReadFirst(tables, s, supports);
      && info.visible && info.length >= 1
      && Columns(info, 1, supports) == if tables.fullWidth(CodePointAt(s, 0)) then 2 else 1
  {
    hide CombiningRun;
  }

  /** A pair of surrogates has two, unless it is supported and not of full width. */
  lemma WidthOfPair(tables: Tables, s: Text, supports: SupportInfo)
    requires tables.Valid() && BeginsVisibly(tables, s)
    requires CodePointAt(s, 0) > 0xFFFF && |s| >= 2 && tables.emoji(s) == 0
    ensures var info := ReadFirst(tables, s, supports);
      && info.visible && info.length >= 2
      && (Columns(info, 2, supports) == 1 <==> supports.surrogates && !tables.fullWidth(CodePointAt(s, 0)))
      && Columns(info, 2, supports) in {1, 2}
  {
    hide CombiningRun;
  }

  /** An emoji has two, or two for each simple one in it. */
  lemma WidthOfEmoji(tables: Tables, s: Text, supports: SupportInfo)
    requires tables.Valid() && BeginsVisibly(tables, s) && CodePointAt(s, 0) > 0xFF && tables.emoji(s) > 0
    ensures var info, emoji := ReadFirst(tables, s, supports), tables.emoji(s);
      && info.visible && info.length >= emoji
      && Columns(info, emoji, supports) == if supports.emojiSequence then 2 else 2 * tables.simpleEmoji(s[..emoji])
  {
    hide CombiningRun;
  }

  /** What begins with something else is not visible; it has no column, but a tab, and combining characters alone. */
  lemma WidthOfInvisible(tables: Tables, s: Text, supports: SupportInfo)
    requires tables.Valid() && s != [] && !BeginsVisibly(tables, s)
    ensures var info, code := ReadFirst(tables, s, supports), CodePointAt(s, 0);
      && !info.visible
      && (code > 0xFF ==> info.width == if supports.combining then 0 else info.length)
      && (code <= 0xFF ==> info.width == if code == 9 && tables.ansi(s) == 0 then supports.tabSize else 0)
      && (code <= 0xFF ==> info.length == if tables.ansi(s) > 0 then tables.ansi(s) else 1)
  {
  }
}
