/**
 The display width of text, over a segmenter that reads the first complete character.

 A position in the text is aligned if it is the end of a whole number of segments.
 */
module DisplayWidth {
  import opened CodeUnits

  datatype Item = Item(width: nat, length: nat)

  /** On text that is not empty a segment has at least one code unit and is part of the text. */
  ghost predicate Lawful(seg: Text -> Item) {
    forall s: Text :: s != [] ==> 1 <= seg(s).length <= |s|
  }

  type Segmenter = seg: Text -> Item | Lawful(seg) ghost witness s => Item(1, 1)

  /** The sum of the widths of all segments. */
  function Width(seg: Segmenter, s: Text): nat
    decreases |s|
  {
    if s == [] then 0 else seg(s).width + Width(seg, s[seg(s).length..])
  }

  /** Position `n` of `s` is the end of a whole number of segments. */
  ghost predicate Aligned(seg: Segmenter, s: Text, n: nat)
    decreases |s|
  {
    n == 0 || (s != [] && seg(s).length <= n && Aligned(seg, s[seg(s).length..], n - seg(s).length))
  }

  /** The width of the segments of `s` in front of position `n`. */
  function WidthUpTo(seg: Segmenter, s: Text, n: nat): nat
    requires Aligned(seg, s, n)
    decreases |s|
  {
    if n == 0 then 0 else seg(s).width + WidthUpTo(seg, s[seg(s).length..], n - seg(s).length)
  }

  lemma {:induction false} AlignedInRange(seg: Segmenter, s: Text, n: nat)
    requires Aligned(seg, s, n)
    ensures n <= |s|
    decreases |s|
  {
    if n != 0 {
      AlignedInRange(seg, s[seg(s).length..], n - seg(s).length);
    }
  }

  lemma {:induction false} EndIsAligned(seg: Segmenter, s: Text)
    ensures Aligned(seg, s, |s|) && WidthUpTo(seg, s, |s|) == Width(seg, s)
    decreases |s|
  {
    if s != [] {
      EndIsAligned(seg, s[seg(s).length..]);
    }
  }

  /** Past an aligned position the segments are those of the rest of the text. */
  lemma {:induction false} AlignedAfter(seg: Segmenter, s: Text, n: nat, m: nat)
    requires Aligned(seg, s, n) && n <= |s| && n <= m
    ensures Aligned(seg, s, m) <==> Aligned(seg, s[n..], m - n)
    ensures Aligned(seg, s, m) ==> WidthUpTo(seg, s, m) == WidthUpTo(seg, s, n) + WidthUpTo(seg, s[n..], m - n)
    decreases |s|
  {
    if n != 0 {
      var l := seg(s).length;
      AlignedInRange(seg, s[l..], n - l);
      assert s[l..][n - l..] == s[n..];
      AlignedAfter(seg, s[l..], n - l, m - l);
    } else {
      assert s[0..] == s;
    }
  }

  /** Of two aligned positions the later one has at least the width of the earlier one. */
  lemma WidthGrows(seg: Segmenter, s: Text, n: nat, m: nat)
    requires Aligned(seg, s, n) && Aligned(seg, s, m) && n <= m
    ensures m <= |s| && Aligned(seg, s[n..], m - n)
    ensures WidthUpTo(seg, s, m) == WidthUpTo(seg, s, n) + WidthUpTo(seg, s[n..], m - n)
  {
    AlignedInRange(seg, s, m);
    AlignedAfter(seg, s, n, m);
  }

  lemma WidthSplits(seg: Segmenter, s: Text, n: nat)
    requires Aligned(seg, s, n)
    ensures n <= |s| && Width(seg, s) == WidthUpTo(seg, s, n) + Width(seg, s[n..])
  {
    EndIsAligned(seg, s);
    AlignedInRange(seg, s, n);
    EndIsAligned(seg, s[n..]);
    AlignedAfter(seg, s, n, |s|);
  }

  /** `stringWidth`: reads segment after segment. */
  method StringWidth(seg: Segmenter, text: Text) returns (width: nat)
    ensures width == Width(seg, text)
  {
    width := 0;
    var str := text;
    while |str| > 0
      invariant width + Width(seg, str) == Width(seg, text)
      decreases |str|
    {
      var item := seg(str);
      width := width + item.width;
      str := str[item.length..];
    }
  }
}
