/**
 Cutting text at a display width: the greedy prefix, padding, and lines of one width; when the cut is within
 the limit, and that nothing longer would be.
 */
module WidthLimit {
  import opened CodeUnits
  import opened DisplayWidth

  datatype Limit = Finite(n: int) | Infinite {
    predicate Below(width: int) { Finite? && width > n }
    predicate Reached(width: int) { Finite? && width == n }
  }

  datatype LimitResult = LimitResult(result: Text, remaining: Text, width: int)

  /******* The greedy prefix *******/

  /** Where the greedy loop stops in `s`, if it starts with some width already used. */
  function CutFrom(seg: Segmenter, s: Text, limit: Limit, used: nat): (c: Item)
    ensures c.length <= |s| && c.width >= used
    decreases |s|
  {
    if s == [] || limit.Below(used + seg(s).width) then Item(used, 0)
    else if limit.Reached(used + seg(s).width) then Item(used + seg(s).width, seg(s).length)
    else
      var rest := CutFrom(seg, s[seg(s).length..], limit, used + seg(s).width);
      Item(rest.width, seg(s).length + rest.length)
  }

  /** Length and width of the prefix the greedy loop takes. */
  function Cut(seg: Segmenter, s: Text, limit: Limit): (c: Item)
    ensures c.length <= |s|
  {
    CutFrom(seg, s, limit, 0)
  }

  function CutAt(s: Text, c: Item): LimitResult
    requires c.length <= |s|
  {
    LimitResult(s[..c.length], s[c.length..], c.width)
  }

  /** `returnValue`: cuts the text at a length. */
  method ReturnValue(original: Text, length: nat, width: nat) returns (r: LimitResult)
    requires length <= |original|
    ensures r == CutAt(original, Item(width, length))
  {
    r := LimitResult(original[..length], original[length..], width);
  }

  method LimitWidth(seg: Segmenter, original: Text, limit: Limit) returns (r: LimitResult)
    ensures r == CutAt(original, Cut(seg, original, limit))
  {
    hide CutFrom;
    var width: nat := 0;
    var str := original;
    while |str| > 0
      invariant |str| <= |original|
      invariant Cut(seg, original, limit) == Beyond(|original| - |str|, CutFrom(seg, str, limit, width))
      decreases |str|
    {
      CutFromRound(seg, str, limit, width);
      var item := seg(str);
      if limit.Below(width + item.width) {
        r := ReturnValue(original, |original| - |str|, width);
        return;
      }
      width := width + item.width;
      if limit.Reached(width) {
        r := ReturnValue(original, |original| - |str| + item.length, width);
        return;
      }
      str := str[item.length..];
    }
    CutFromRound(seg, str, limit, width);
    r := ReturnValue(original, |original|, width);
  }

  function Beyond(length: nat, c: Item): Item { Item(c.width, length + c.length) }

  lemma CutFromRound(seg: Segmenter, s: Text, limit: Limit, used: nat)
    ensures CutFrom(seg, s, limit, used) ==
      if s == [] || limit.Below(used + seg(s).width) then Item(used, 0)
      else if limit.Reached(used + seg(s).width) then Item(used + seg(s).width, seg(s).length)
      else Beyond(seg(s).length, CutFrom(seg, s[seg(s).length..], limit, used + seg(s).width))
  {
  }

  lemma {:induction false} CutFromIsAligned(seg: Segmenter, s: Text, limit: Limit, used: nat)
    ensures var c := CutFrom(seg, s, limit, used);
            Aligned(seg, s, c.length) && c.width == used + WidthUpTo(seg, s, c.length)
    decreases |s|
  {
    if s != [] && !limit.Below(used + seg(s).width) && !limit.Reached(used + seg(s).width) {
      CutFromIsAligned(seg, s[seg(s).length..], limit, used + seg(s).width);
    }
  }

  /** The cut is aligned, and the reported width is the width of the segments kept. */
  lemma CutIsAligned(seg: Segmenter, s: Text, limit: Limit)
    ensures var c := Cut(seg, s, limit); Aligned(seg, s, c.length) && c.width == WidthUpTo(seg, s, c.length)
  {
    CutFromIsAligned(seg, s, limit, 0);
  }

  lemma {:induction false} CutFromFits(seg: Segmenter, s: Text, limit: Limit, used: nat)
    ensures !limit.Below(CutFrom(seg, s, limit, used).width) <==> !limit.Below(used)
    ensures limit.Below(used) ==> CutFrom(seg, s, limit, used) == Item(used, 0)
    decreases |s|
  {
    if s != [] && !limit.Below(used + seg(s).width) && !limit.Reached(used + seg(s).width) {
      CutFromFits(seg, s[seg(s).length..], limit, used + seg(s).width);
    }
  }

  /** What is kept fits, exactly if the limit is not negative; a negative one keeps nothing. */
  lemma CutFits(seg: Segmenter, s: Text, limit: Limit)
    ensures !limit.Below(Cut(seg, s, limit).width) <==> limit.Infinite? || limit.n >= 0
    ensures limit.Below(0) ==> Cut(seg, s, limit) == Item(0, 0)
  {
    CutFromFits(seg, s, limit, 0);
  }

  lemma {:induction false} CutFromIsMaximal(seg: Segmenter, s: Text, limit: Limit, used: nat)
    ensures var c := CutFrom(seg, s, limit, used);
            || c.length == |s|
            || limit.Reached(c.width)
            || limit.Below(c.width + seg(s[c.length..]).width)
    decreases |s|
  {
    hide CutFrom;
    CutFromRound(seg, s, limit, used);
    if s != [] && !limit.Below(used + seg(s).width) && !limit.Reached(used + seg(s).width) {
      var t := s[seg(s).length..];
      var rest := CutFrom(seg, t, limit, used + seg(s).width);
      CutFromIsMaximal(seg, t, limit, used + seg(s).width);
      assert t[rest.length..] == s[CutFrom(seg, s, limit, used).length..];
    } else {
      assert s[0..] == s;
    }
  }

  /** The loop stops at the end, at the limit, or in front of a segment that does not fit. */
  lemma CutIsMaximal(seg: Segmenter, s: Text, limit: Limit)
    ensures var c := Cut(seg, s, limit);
            || c.length == |s|
            || limit.Reached(c.width)
            || limit.Below(c.width + seg(s[c.length..]).width)
  {
    CutFromIsMaximal(seg, s, limit, 0);
  }

  /** A longer aligned prefix either does not fit, or adds only segments of width 0 at the limit. */
  lemma LongerDoesNotFit(seg: Segmenter, s: Text, limit: Limit, n: nat)
    requires Aligned(seg, s, n) && n > Cut(seg, s, limit).length
    ensures var c := Cut(seg, s, limit);
            limit.Below(WidthUpTo(seg, s, n)) || (limit.Reached(c.width) && WidthUpTo(seg, s, n) == c.width)
  {
    var c := Cut(seg, s, limit);
    CutIsAligned(seg, s, limit);
    CutIsMaximal(seg, s, limit);
    WidthGrows(seg, s, c.length, n);
    var rest := s[c.length..];
    assert WidthUpTo(seg, rest, n - c.length) >= seg(rest).width;
  }

  /** With no limit, or one the text does not exceed, only segments of width 0 are lost. */
  lemma {:induction false} WideEnoughKeepsWidth(seg: Segmenter, s: Text, limit: Limit)
    requires !limit.Below(Width(seg, s))
    ensures var c := Cut(seg, s, limit); c.width == Width(seg, s) && Width(seg, s[c.length..]) == 0
    ensures limit.Infinite? ==> Cut(seg, s, limit).length == |s|
    decreases |s|
  {
    var c := Cut(seg, s, limit);
    CutIsAligned(seg, s, limit);
    WidthSplits(seg, s, c.length);
    CutIsMaximal(seg, s, limit);
    if limit.Infinite? {
      NoLimitKeepsAll(seg, s, 0);
    }
  }

  lemma {:induction false} NoLimitKeepsAll(seg: Segmenter, s: Text, used: nat)
    ensures CutFrom(seg, s, Infinite, used).length == |s|
    decreases |s|
  {
    if s != [] {
      NoLimitKeepsAll(seg, s[seg(s).length..], used + seg(s).width);
    }
  }

  /******* Padding *******/

  datatype Padded = Padded(value: LimitResult) | RangeError

  /** The cut text, filled up with spaces. */
  function Row(seg: Segmenter, line: Text, limit: int): Text
  {
    var c := Cut(seg, line, Finite(limit));
    line[..c.length] + Spaces(limit - c.width)
  }

  /** Without a limit the padding would be endless, and `repeat` throws. */
  method FixedWidth(seg: Segmenter, original: Text, limit: Limit) returns (r: Padded)
    ensures r.RangeError? <==> limit.Infinite?
    ensures r.Padded? ==>
              && r.value.width == (if limit.n >= 0 then limit.n else 0)
              && r.value.result == Row(seg, original, limit.n)
              && r.value.remaining == original[Cut(seg, original, limit).length..]
  {
    var cut := LimitWidth(seg, original, limit);
    CutFits(seg, original, limit);
    match limit
    case Infinite => r := RangeError;
    case Finite(n) =>
      var padding := n - cut.width;
      if padding > 0 {
        cut := LimitResult(cut.result + Spaces(padding), cut.remaining, cut.width + padding);
      }
      r := Padded(cut);
  }

  ghost predicate IsMaxWidth(seg: Segmenter, lines: seq<Text>, max: nat)
  {
    && (forall k :: 0 <= k < |lines| ==> Width(seg, lines[k]) <= max)
    && (max == 0 || exists k :: 0 <= k < |lines| && Width(seg, lines[k]) == max)
  }

  method MaxWidthMultiline(seg: Segmenter, original: Text) returns (maxWidth: nat)
    ensures IsMaxWidth(seg, Split(original, NEWLINE), maxWidth)
  {
    var lines := Split(original, NEWLINE);
    maxWidth := 0;
    for k := 0 to |lines|
      invariant forall j :: 0 <= j < k ==> Width(seg, lines[j]) <= maxWidth
      invariant maxWidth == 0 || exists j :: 0 <= j < k && Width(seg, lines[j]) == maxWidth
    {
      var cut := LimitWidth(seg, lines[k], Infinite);
      WideEnoughKeepsWidth(seg, lines[k], Infinite);
      if cut.width > maxWidth {
        maxWidth := cut.width;
      }
    }
  }

  function Min(max: nat, limit: Limit): int {
    if limit.Finite? && limit.n < max then limit.n else max
  }

  /** Every line is cut and padded to one width, the smaller of the widest line and the limit. */
  method FixedWidthMultiline(seg: Segmenter, original: Text, limit: Limit) returns (maxWidth: nat, result: seq<Text>)
    ensures var lines := Split(original, NEWLINE);
            && IsMaxWidth(seg, lines, maxWidth)
            && |result| == |lines|
            && forall k :: 0 <= k < |lines| ==>
                result[k] == Row(seg, lines[k], if limit.Finite? && limit.n < maxWidth then limit.n else maxWidth)
  {
    var lines := Split(original, NEWLINE);
    maxWidth := MaxWidthMultiline(seg, original);
    result := FixedRows(seg, lines, Min(maxWidth, limit));
  }

  method FixedRows(seg: Segmenter, lines: seq<Text>, limited: int) returns (result: seq<Text>)
    ensures |result| == |lines|
    ensures forall k :: 0 <= k < |lines| ==> result[k] == Row(seg, lines[k], limited)
  {
    result := [];
    for k := 0 to |lines|
      invariant |result| == k
      invariant forall j :: 0 <= j < k ==> result[j] == Row(seg, lines[j], limited)
    {
      var row := FixedWidth(seg, lines[k], Finite(limited));
      result := result + [row.value.result];
    }
  }

  /** If the limit is no smaller than the widest line, every row keeps the full width of its line. */
  lemma MultilineLosesNoWidth(seg: Segmenter, lines: seq<Text>, maxWidth: nat, limit: Limit, k: nat)
    requires IsMaxWidth(seg, lines, maxWidth) && !limit.Below(maxWidth) && k < |lines|
    ensures var c := Cut(seg, lines[k], Finite(Min(maxWidth, limit)));
            && Width(seg, lines[k][c.length..]) == 0
            && c.width == Width(seg, lines[k])
            && Row(seg, lines[k], Min(maxWidth, limit)) ==
               lines[k][..c.length] + Spaces(maxWidth - Width(seg, lines[k]))
  {
    WideEnoughKeepsWidth(seg, lines[k], Finite(Min(maxWidth, limit)));
  }
}
