/**
 Splitting text into chunks of a limited width: when the loop ends, what it yields, and how few
 chunks there could be.  A chunk is named by the position in the text at which it begins.
 */
module TextChunks {
  import opened CodeUnits
  import opened DisplayWidth
  import opened WidthLimit
  import FirstCompleteChar

  ghost predicate Position(seg: Segmenter, s: Text, i: nat) {
    i <= |s| && Aligned(seg, s, i)
  }

  /** No segment is wider than the limit. */
  ghost predicate AllFit(seg: Segmenter, s: Text, limit: int) {
    forall i :: 0 <= i < |s| && Aligned(seg, s, i) ==> seg(s[i..]).width <= limit
  }

  /** Every segment takes at least one column. */
  ghost predicate AllVisible(seg: Segmenter, s: Text) {
    forall i :: 0 <= i < |s| && Aligned(seg, s, i) ==> seg(s[i..]).width >= 1
  }

  /** The width of the text from position `i` on. */
  function Left(seg: Segmenter, s: Text, i: nat): nat
    requires i <= |s|
  {
    Width(seg, s[i..])
  }

  /** Where a chunk that begins at position `i` stops. */
  function Stop(seg: Segmenter, s: Text, limit: int, i: nat): (j: nat)
    requires i <= |s|
    ensures i <= j <= |s|
  {
    i + Cut(seg, s[i..], Finite(limit)).length
  }

  lemma LeftShrinks(seg: Segmenter, s: Text, i: nat, j: nat)
    requires Position(seg, s, i) && Position(seg, s, j) && i <= j
    ensures Left(seg, s, j) <= Left(seg, s, i)
    ensures Aligned(seg, s[i..], j - i) && WidthUpTo(seg, s[i..], j - i) == Left(seg, s, i) - Left(seg, s, j)
  {
    hide Aligned, Width, WidthUpTo;
    AlignedAfter(seg, s, i, j);
    WidthSplits(seg, s[i..], j - i);
    assert s[i..][j - i..] == s[j..];
  }

  lemma StopIsPosition(seg: Segmenter, s: Text, limit: int, i: nat)
    requires Position(seg, s, i)
    ensures Position(seg, s, Stop(seg, s, limit, i))
  {
    var c := Cut(seg, s[i..], Finite(limit));
    CutIsAligned(seg, s[i..], Finite(limit));
    AlignedAfter(seg, s, i, i + c.length);
  }

  /** A chunk fits, and it ends at the end, at the limit, or in front of what does not fit. */
  lemma StopFits(seg: Segmenter, s: Text, limit: int, i: nat)
    requires Position(seg, s, i)
    ensures var j := Stop(seg, s, limit, i);
            var width := Left(seg, s, i) - Left(seg, s, j);
            && 0 <= width
            && (limit >= 0 ==> width <= limit)
            && (limit < 0 ==> j == i)
            && (j == |s| || width == limit || width + seg(s[j..]).width > limit)
  {
    var c := Cut(seg, s[i..], Finite(limit));
    CutIsAligned(seg, s[i..], Finite(limit));
    CutFits(seg, s[i..], Finite(limit));
    CutIsMaximal(seg, s[i..], Finite(limit));
    WidthSplits(seg, s[i..], c.length);
    assert s[i..][c.length..] == s[i + c.length..];
  }

  /** Beyond the stop nothing fits any more, save segments of width 0 at the limit. */
  lemma BeyondStop(seg: Segmenter, s: Text, limit: int, i: nat, j: nat)
    requires Position(seg, s, i) && Position(seg, s, j) && j > Stop(seg, s, limit, i)
    ensures || Left(seg, s, i) - Left(seg, s, j) > limit
            || Left(seg, s, j) == Left(seg, s, Stop(seg, s, limit, i))
  {
    var c := Cut(seg, s[i..], Finite(limit));
    LeftShrinks(seg, s, i, j);
    LongerDoesNotFit(seg, s[i..], Finite(limit), j - i);
    CutIsAligned(seg, s[i..], Finite(limit));
    WidthSplits(seg, s[i..], c.length);
    assert s[i..][c.length..] == s[i + c.length..];
  }

  /******* When the loop ends *******/

  /** The position after some rounds of the loop. */
  function After(seg: Segmenter, s: Text, limit: int, rounds: nat): (i: nat)
    ensures i <= |s|
    decreases rounds
  {
    if rounds == 0 then 0 else Stop(seg, s, limit, After(seg, s, limit, rounds - 1))
  }

  /** If all segments fit, every round of the loop consumes something. */
  lemma RoundConsumes(seg: Segmenter, s: Text, limit: int, i: nat)
    requires AllFit(seg, s, limit) && Position(seg, s, i)
    ensures i < |s| ==> Stop(seg, s, limit, i) > i
    ensures Position(seg, s, Stop(seg, s, limit, i))
  {
    StopIsPosition(seg, s, limit, i);
    StopFits(seg, s, limit, i);
    if i < |s| {
      assert seg(s[i..]).width <= limit;
    }
  }

  lemma {:induction false} AfterEnds(seg: Segmenter, s: Text, limit: int, rounds: nat)
    requires AllFit(seg, s, limit)
    ensures Position(seg, s, After(seg, s, limit, rounds))
    ensures After(seg, s, limit, rounds) >= if rounds < |s| then rounds else |s|
    decreases rounds
  {
    if rounds > 0 {
      AfterEnds(seg, s, limit, rounds - 1);
      RoundConsumes(seg, s, limit, After(seg, s, limit, rounds - 1));
    }
  }

  /** No round goes past a segment that is too wide. */
  lemma {:induction false} AfterIsStuck(seg: Segmenter, s: Text, limit: int, rounds: nat, wide: nat)
    requires Position(seg, s, wide) && wide < |s| && seg(s[wide..]).width > limit
    ensures Position(seg, s, After(seg, s, limit, rounds)) && After(seg, s, limit, rounds) <= wide
    decreases rounds
  {
    hide Position, Stop;
    if rounds > 0 {
      AfterIsStuck(seg, s, limit, rounds - 1, wide);
      RoundIsStuck(seg, s, limit, After(seg, s, limit, rounds - 1), wide);
    } else {
      StartIsPosition(seg, s);
    }
  }

  lemma StartIsPosition(seg: Segmenter, s: Text)
    ensures Position(seg, s, 0)
  {
  }

  lemma RoundIsStuck(seg: Segmenter, s: Text, limit: int, i: nat, wide: nat)
    requires Position(seg, s, i) && Position(seg, s, wide) && i <= wide < |s| && seg(s[wide..]).width > limit
    ensures Position(seg, s, Stop(seg, s, limit, i)) && Stop(seg, s, limit, i) <= wide
  {
    StopIsPosition(seg, s, limit, i);
    StopFits(seg, s, limit, i);
    var j := Stop(seg, s, limit, i);
    hide Left, Stop, Aligned;
    if j > wide {
      var next := wide + seg(s[wide..]).length;
      NextIsPosition(seg, s, wide, j);
      LeftShrinks(seg, s, i, wide);
      LeftShrinks(seg, s, next, j);
    }
  }

  /** The position after the segment at `i`; there is none in between. */
  lemma NextIsPosition(seg: Segmenter, s: Text, i: nat, j: nat)
    requires Position(seg, s, i) && Position(seg, s, j) && i < j
    ensures var next := i + seg(s[i..]).length;
            && next <= j && Position(seg, s, next)
            && Left(seg, s, i) == seg(s[i..]).width + Left(seg, s, next)
  {
    var l := seg(s[i..]).length;
    AlignedAfter(seg, s, i, j);
    AlignedAfter(seg, s, i, i + l);
    assert s[i..][l..] == s[i + l..];
  }

  /** The loop comes to the end of the text exactly if no segment is wider than the limit. */
  lemma LoopEndsExactlyIfAllFit(seg: Segmenter, s: Text, limit: int)
    ensures (exists rounds: nat :: After(seg, s, limit, rounds) == |s|) <==> AllFit(seg, s, limit)
  {
    if AllFit(seg, s, limit) {
      AfterEnds(seg, s, limit, |s|);
      assert After(seg, s, limit, |s|) == |s|;
    } else {
      var wide :| 0 <= wide < |s| && Aligned(seg, s, wide) && seg(s[wide..]).width > limit;
      forall rounds: nat ensures After(seg, s, limit, rounds) != |s| {
        AfterIsStuck(seg, s, limit, rounds, wide);
      }
    }
  }

  /******* The chunks *******/

  /** Where the chunks from position `i` on end. */
  function Chunks(seg: Segmenter, s: Text, limit: int, i: nat): seq<nat>
    requires AllFit(seg, s, limit) && Position(seg, s, i)
    decreases |s| - i
  {
    if i == |s| then []
    else
      RoundConsumes(seg, s, limit, i);
      var j := Stop(seg, s, limit, i);
      [j] + Chunks(seg, s, limit, j)
  }

  /** The pieces of the text from `i` on that end at the given positions. */
  function Pieces(s: Text, i: nat, ends: seq<nat>): seq<Text>
    decreases |ends|
  {
    if ends == [] || !(i <= ends[0] <= |s|) then []
    else [s[i..ends[0]]] + Pieces(s, ends[0], ends[1..])
  }

  /** The ends split all of the text from `i` on, at aligned positions, into pieces that fit. */
  ghost predicate Fitting(seg: Segmenter, s: Text, limit: int, i: nat, ends: seq<nat>)
    requires i <= |s|
    decreases |ends|
  {
    if ends == [] then i == |s|
    else
      && i <= ends[0] && Position(seg, s, ends[0])
      && Left(seg, s, i) - Left(seg, s, ends[0]) <= limit
      && Fitting(seg, s, limit, ends[0], ends[1..])
  }

  function ChunkPieces(seg: Segmenter, s: Text, limit: int, i: nat): seq<Text>
    requires AllFit(seg, s, limit) && Position(seg, s, i)
  {
    Pieces(s, i, Chunks(seg, s, limit, i))
  }

  lemma ChunkStep(seg: Segmenter, s: Text, limit: int, i: nat)
    requires AllFit(seg, s, limit) && Position(seg, s, i) && i < |s|
    ensures var j := Stop(seg, s, limit, i);
            && i < j && Position(seg, s, j)
            && CutAt(s[i..], Cut(seg, s[i..], Finite(limit))).result == s[i..j]
            && CutAt(s[i..], Cut(seg, s[i..], Finite(limit))).remaining == s[j..]
            && ChunkPieces(seg, s, limit, i) == [s[i..j]] + ChunkPieces(seg, s, limit, j)
  {
    RoundConsumes(seg, s, limit, i);
  }

  lemma AppendAppend(done: seq<Text>, next: Text, rest: seq<Text>)
    ensures done + [next] + rest == done + ([next] + rest)
  {
  }

  method ChunkText(seg: Segmenter, original: Text, limit: int) returns (result: seq<Text>)
    requires AllFit(seg, original, limit)
    ensures result == ChunkPieces(seg, original, limit, 0)
  {
    result := [];
    var text := original;
    ghost var i := 0;
    while |text| > 0
      invariant Position(seg, original, i) && text == original[i..]
      invariant result + ChunkPieces(seg, original, limit, i) == ChunkPieces(seg, original, limit, 0)
      decreases |original| - i
    {
      ChunkStep(seg, original, limit, i);
      var item := LimitWidth(seg, text, Finite(limit));
      ghost var j := Stop(seg, original, limit, i);
      assert item.result == original[i..j];
      AppendAppend(result, item.result, ChunkPieces(seg, original, limit, j));
      result := result + [item.result];
      text := item.remaining;
      i := j;
    }
  }

  /** The pieces of a fitting split make up the text again. */
  lemma {:induction false} FittingPieces(seg: Segmenter, s: Text, limit: int, i: nat, ends: seq<nat>)
    requires i <= |s| && Fitting(seg, s, limit, i, ends)
    ensures Concat(Pieces(s, i, ends)) == s[i..] && |Pieces(s, i, ends)| == |ends|
    decreases |ends|
  {
    if ends != [] {
      FittingPieces(seg, s, limit, ends[0], ends[1..]);
      assert s[i..] == s[i..ends[0]] + s[ends[0]..];
    }
  }

  lemma {:induction false} ChunksFit(seg: Segmenter, s: Text, limit: int, i: nat)
    requires AllFit(seg, s, limit) && Position(seg, s, i)
    ensures Fitting(seg, s, limit, i, Chunks(seg, s, limit, i))
    decreases |s| - i
  {
    if i < |s| {
      RoundConsumes(seg, s, limit, i);
      StopFits(seg, s, limit, i);
      ChunksFit(seg, s, limit, Stop(seg, s, limit, i));
    }
  }

  /** The chunks make up the text, and each of them fits the limit. */
  lemma ChunkTextConserves(seg: Segmenter, s: Text, limit: int)
    requires AllFit(seg, s, limit)
    ensures var ends := Chunks(seg, s, limit, 0);
            && Fitting(seg, s, limit, 0, ends)
            && Concat(Pieces(s, 0, ends)) == s
            && |Pieces(s, 0, ends)| == |ends|
  {
    ChunksFit(seg, s, limit, 0);
    FittingPieces(seg, s, limit, 0, Chunks(seg, s, limit, 0));
    assert s[0..] == s;
  }

  /******* How few chunks there could be *******/

  /** The chunks that are needed from `i` on: all of them but a last one of width 0. */
  function Needed(seg: Segmenter, s: Text, limit: int, i: nat): nat
    requires AllFit(seg, s, limit) && Position(seg, s, i)
    decreases |s| - i
  {
    if Left(seg, s, i) == 0 then 0
    else
      RoundConsumes(seg, s, limit, i);
      1 + Needed(seg, s, limit, Stop(seg, s, limit, i))
  }

  /** Where the last chunk begins. */
  function LastChunk(seg: Segmenter, s: Text, limit: int, i: nat): (n: nat)
    requires AllFit(seg, s, limit) && Position(seg, s, i)
    ensures n <= |s|
    decreases |s| - i
  {
    RoundConsumes(seg, s, limit, i);
    var j := Stop(seg, s, limit, i);
    if j == |s| then i else LastChunk(seg, s, limit, j)
  }

  /** The last chunk of the text from `i` on has width 0. */
  predicate ZeroTail(seg: Segmenter, s: Text, limit: int, i: nat)
    requires AllFit(seg, s, limit) && Position(seg, s, i)
  {
    i < |s| && Left(seg, s, LastChunk(seg, s, limit, i)) == 0
  }

  lemma {:induction false} ChunksNeeded(seg: Segmenter, s: Text, limit: int, i: nat)
    requires AllFit(seg, s, limit) && limit >= 1 && Position(seg, s, i)
    ensures |Chunks(seg, s, limit, i)| == Needed(seg, s, limit, i) + if ZeroTail(seg, s, limit, i) then 1 else 0
    decreases |s| - i
  {
    if i < |s| {
      var j := Stop(seg, s, limit, i);
      RoundConsumes(seg, s, limit, i);
      StopFits(seg, s, limit, i);
      if j < |s| {
        assert seg(s[j..]).width <= Left(seg, s, j);
        ChunksNeeded(seg, s, limit, j);
      }
    }
  }

  /** Less text left never needs more chunks. */
  lemma {:induction false} NeededGrows(seg: Segmenter, s: Text, limit: int, i: nat, n: nat)
    requires AllFit(seg, s, limit) && Position(seg, s, i) && Position(seg, s, n)
    requires Left(seg, s, i) <= Left(seg, s, n)
    ensures Needed(seg, s, limit, i) <= Needed(seg, s, limit, n)
    decreases |s| - i
  {
    if Left(seg, s, i) != 0 {
      RoundConsumes(seg, s, limit, i);
      RoundConsumes(seg, s, limit, n);
      var j, m := Stop(seg, s, limit, i), Stop(seg, s, limit, n);
      StopFits(seg, s, limit, n);
      if m > j {
        BeyondStop(seg, s, limit, i, m);
      } else {
        LeftShrinks(seg, s, m, j);
      }
      NeededGrows(seg, s, limit, j, m);
    }
  }

  /** A fitting first piece leaves a rest that needs at most one chunk less. */
  lemma NeededAfterPiece(seg: Segmenter, s: Text, limit: int, i: nat, n: nat)
    requires AllFit(seg, s, limit) && Position(seg, s, i) && Position(seg, s, n) && i <= n
    requires Left(seg, s, i) - Left(seg, s, n) <= limit
    ensures Needed(seg, s, limit, i) <= 1 + Needed(seg, s, limit, n)
  {
    if Left(seg, s, i) != 0 {
      var j := Stop(seg, s, limit, i);
      RoundConsumes(seg, s, limit, i);
      if n > j {
        BeyondStop(seg, s, limit, i, n);
      } else {
        LeftShrinks(seg, s, n, j);
      }
      NeededGrows(seg, s, limit, j, n);
    }
  }

  /** No aligned split into fitting pieces has fewer pieces than the chunks that are needed. */
  lemma {:induction false} NeededIsLeast(seg: Segmenter, s: Text, limit: int, i: nat, ends: seq<nat>)
    requires AllFit(seg, s, limit) && Position(seg, s, i) && Fitting(seg, s, limit, i, ends)
    ensures Needed(seg, s, limit, i) <= |ends|
    decreases |ends|
  {
    if ends != [] {
      NeededAfterPiece(seg, s, limit, i, ends[0]);
      NeededIsLeast(seg, s, limit, ends[0], ends[1..]);
    }
  }

  /** A chunk of width 0 at the end can be joined to the one before it. */
  lemma {:induction false} NeededIsEnough(seg: Segmenter, s: Text, limit: int, i: nat) returns (ends: seq<nat>)
    requires AllFit(seg, s, limit) && limit >= 1 && Position(seg, s, i) && Left(seg, s, i) > 0
    ensures Fitting(seg, s, limit, i, ends) && |ends| == Needed(seg, s, limit, i)
    decreases |s| - i
  {
    RoundConsumes(seg, s, limit, i);
    StopFits(seg, s, limit, i);
    var j := Stop(seg, s, limit, i);
    if Left(seg, s, j) == 0 {
      EndIsAligned(seg, s);
      LeftShrinks(seg, s, j, |s|);
      ends := [|s|];
    } else {
      var rest := NeededIsEnough(seg, s, limit, j);
      ends := [j] + rest;
      assert ends[1..] == rest;
    }
  }

  ghost predicate Optimal(seg: Segmenter, s: Text, limit: int)
    requires AllFit(seg, s, limit)
  {
    forall ends :: Fitting(seg, s, limit, 0, ends) ==> |Chunks(seg, s, limit, 0)| <= |ends|
  }

  lemma {:induction false} LastChunkIsPosition(seg: Segmenter, s: Text, limit: int, i: nat)
    requires AllFit(seg, s, limit) && Position(seg, s, i) && i < |s|
    ensures Position(seg, s, LastChunk(seg, s, limit, i)) && LastChunk(seg, s, limit, i) < |s|
    decreases |s| - i
  {
    RoundConsumes(seg, s, limit, i);
    if Stop(seg, s, limit, i) < |s| {
      LastChunkIsPosition(seg, s, limit, Stop(seg, s, limit, i));
    }
  }

  /** At a limit of at most 0 no segment has a width. */
  lemma {:induction false} NothingLeft(seg: Segmenter, s: Text, limit: int, i: nat)
    requires AllFit(seg, s, limit) && limit <= 0 && Position(seg, s, i)
    ensures Left(seg, s, i) == 0
    decreases |s| - i
  {
    if i < |s| {
      EndIsAligned(seg, s);
      NextIsPosition(seg, s, i, |s|);
      NothingLeft(seg, s, limit, i + seg(s[i..]).length);
    }
  }

  lemma OptimalIfFew(seg: Segmenter, s: Text, limit: int)
    requires AllFit(seg, s, limit) && |Chunks(seg, s, limit, 0)| <= 1
    ensures Optimal(seg, s, limit)
  {
    forall ends | Fitting(seg, s, limit, 0, ends)
      ensures |Chunks(seg, s, limit, 0)| <= |ends|
    {
      if s != [] {
        assert ends != [];
      }
    }
  }

  lemma OptimalAtZero(seg: Segmenter, s: Text, limit: int)
    requires AllFit(seg, s, limit) && limit <= 0
    ensures Optimal(seg, s, limit) <==> |Chunks(seg, s, limit, 0)| <= 1 || !ZeroTail(seg, s, limit, 0)
  {
    if |Chunks(seg, s, limit, 0)| <= 1 {
      OptimalIfFew(seg, s, limit);
    } else {
      LastChunkIsPosition(seg, s, limit, 0);
      NothingLeft(seg, s, limit, LastChunk(seg, s, limit, 0));
      EndIsAligned(seg, s);
      LeftShrinks(seg, s, 0, |s|);
      NothingLeft(seg, s, limit, 0);
      assert seg(s[0..]).width <= limit;
      assert Fitting(seg, s, limit, 0, [|s|]);
    }
  }

  /**
   No other aligned split into fitting pieces has fewer pieces, exactly if there is at most one
   chunk or the last chunk has a width.
   */
  lemma ChunksOptimalExactly(seg: Segmenter, s: Text, limit: int)
    requires AllFit(seg, s, limit)
    ensures Optimal(seg, s, limit) <==> |Chunks(seg, s, limit, 0)| <= 1 || !ZeroTail(seg, s, limit, 0)
  {
    if limit <= 0 {
      OptimalAtZero(seg, s, limit);
    } else if |Chunks(seg, s, limit, 0)| <= 1 {
      OptimalIfFew(seg, s, limit);
    } else {
      ChunksNeeded(seg, s, limit, 0);
      if ZeroTail(seg, s, limit, 0) {
        var ends := NeededIsEnough(seg, s, limit, 0);
        assert Fitting(seg, s, limit, 0, ends);
      } else {
        forall ends | Fitting(seg, s, limit, 0, ends)
          ensures |Chunks(seg, s, limit, 0)| <= |ends|
        {
          NeededIsLeast(seg, s, limit, 0, ends);
        }
      }
    }
  }

  /** If every segment has a width between 1 and the limit, the greedy chunks are the fewest. */
  lemma VisibleChunksAreOptimal(seg: Segmenter, s: Text, limit: int)
    requires AllFit(seg, s, limit) && AllVisible(seg, s)
    ensures Optimal(seg, s, limit)
  {
    if s != [] {
      LastChunkIsPosition(seg, s, limit, 0);
      var last := LastChunk(seg, s, limit, 0);
      assert 1 <= seg(s[last..]).width <= Left(seg, s, last);
      assert seg(s[0..]).width <= limit;
      ChunksOptimalExactly(seg, s, limit);
    }
  }

  /** At one column there are two chunks, and one piece would do. */
  ghost predicate CostsAChunk(seg: Segmenter, s: Text) {
    AllFit(seg, s, 1) && Chunks(seg, s, 1, 0) == [1, |s|] && Fitting(seg, s, 1, 0, [|s|])
  }

  /** So it is with one segment of width 1 and one of width 0. */
  lemma ZeroWidthTailCostsAChunk(seg: Segmenter, s: Text)
    requires |s| >= 2 && seg(s) == Item(1, 1) && seg(s[1..]) == Item(0, |s| - 1)
    ensures CostsAChunk(seg, s)
  {
    assert s[0..] == s && s[1..][|s| - 1..] == [] == s[|s|..];
    assert Width(seg, s[|s|..]) == 0 && Width(seg, s[1..]) == 0 && Left(seg, s, 0) == 1;
    TwoSegmentsFit(seg, s);
    assert Stop(seg, s, 1, 0) == 1 && Stop(seg, s, 1, 1) == |s|;
    assert Chunks(seg, s, 1, 1) == [|s|] + Chunks(seg, s, 1, |s|) == [|s|];
    assert Fitting(seg, s, 1, |s|, []) && [|s|][1..] == [];
  }

  lemma PositionsOfOne(seg: Segmenter, s: Text, i: nat)
    requires s != [] && seg(s).length == |s| && Aligned(seg, s, i)
    ensures i == 0 || i == |s|
  {
  }

  lemma PositionsOfTwo(seg: Segmenter, s: Text, i: nat)
    requires |s| >= 2 && seg(s).length == 1 && seg(s[1..]).length == |s| - 1 && Aligned(seg, s, i)
    ensures i in {0, 1, |s|}
  {
    if i > 0 {
      PositionsOfOne(seg, s[1..], i - 1);
    }
  }

  lemma TwoSegmentsFit(seg: Segmenter, s: Text)
    requires |s| >= 2 && seg(s) == Item(1, 1) && seg(s[1..]) == Item(0, |s| - 1)
    ensures AllFit(seg, s, 1) && Aligned(seg, s[1..], |s| - 1) && Aligned(seg, s, 1) && Aligned(seg, s, |s|)
  {
    forall i | 0 <= i < |s| && Aligned(seg, s, i)
      ensures seg(s[i..]).width <= 1
    {
      PositionsOfTwo(seg, s, i);
      assert s[0..] == s;
    }
  }

  /** A printable letter in front of an escape sequence is such a text. */
  lemma EscapeCostsAChunk(
    tables: FirstCompleteChar.Tables, supports: FirstCompleteChar.SupportInfo, letter: CodeUnit, escape: Text)
    requires tables.Valid() && 0x20 <= letter <= 0x7E && !tables.fullWidth(letter)
    requires escape != [] && 0 <= escape[0] <= 0xFF && tables.ansi(escape) == |escape|
    requires tables.ansi([letter] + escape) == 0
    ensures CostsAChunk(FirstCompleteChar.SegmenterOf(tables, supports), [letter] + escape)
  {
    hide CostsAChunk, FirstCompleteChar.SegmenterOf;
    var s := [letter] + escape;
    assert s[1..] == escape;
    FirstCompleteChar.LetterIsOneColumn(tables, s, supports);
    FirstCompleteChar.EscapeHasNoWidth(tables, escape, supports);
    ZeroWidthTailCostsAChunk(FirstCompleteChar.SegmenterOf(tables, supports), s);
  }

  /******* Text of several lines *******/

  /** The chunks of all lines, one after the other. */
  function BoxRows(seg: Segmenter, lines: seq<Text>, limit: int): seq<Text>
    requires forall k :: 0 <= k < |lines| ==> AllFit(seg, lines[k], limit)
  {
    if lines == [] then []
    else ChunkPieces(seg, lines[0], limit, 0) + BoxRows(seg, lines[1..], limit)
  }

  lemma BoxFirst(seg: Segmenter, lines: seq<Text>, limit: int)
    requires lines != [] && forall k :: 0 <= k < |lines| ==> AllFit(seg, lines[k], limit)
    ensures BoxRows(seg, lines, limit) == ChunkPieces(seg, lines[0], limit, 0) + BoxRows(seg, lines[1..], limit)
  {
  }

  lemma NoRows(seg: Segmenter, limit: int)
    ensures BoxRows(seg, [], limit) == []
  {
  }

  method BoxText(seg: Segmenter, text: Text, limit: int) returns (result: seq<Text>)
    requires forall k :: 0 <= k < |Split(text, NEWLINE)| ==> AllFit(seg, Split(text, NEWLINE)[k], limit)
    ensures result == BoxRows(seg, Split(text, NEWLINE), limit)
  {
    hide Split, BoxRows, AllFit, ChunkPieces;
    var lines := Split(text, NEWLINE);
    result := [];
    for k := 0 to |lines|
      invariant result + BoxRows(seg, lines[k..], limit) == BoxRows(seg, lines, limit)
    {
      var chunks := ChunkText(seg, lines[k], limit);
      result := result + chunks;
      BoxFirst(seg, lines[k..], limit);
      assert lines[k..][0] == lines[k] && lines[k..][1..] == lines[k + 1..];
    }
    NoRows(seg, limit);
    assert lines[|lines|..] == [];
  }

  lemma {:induction false} ConcatConcat(a: seq<Text>, b: seq<Text>)
    ensures Concat(a + b) == Concat(a) + Concat(b)
    decreases |a|
  {
    if a == [] {
      assert a + b == b;
    } else {
      assert (a + b)[1..] == a[1..] + b;
      ConcatConcat(a[1..], b);
    }
  }

  /** The rows of the box hold the text of all lines, in order. */
  lemma {:induction false} BoxKeepsText(seg: Segmenter, lines: seq<Text>, limit: int)
    requires forall k :: 0 <= k < |lines| ==> AllFit(seg, lines[k], limit)
    ensures Concat(BoxRows(seg, lines, limit)) == Concat(lines)
    decreases |lines|
  {
    if lines != [] {
      ConcatConcat(ChunkPieces(seg, lines[0], limit, 0), BoxRows(seg, lines[1..], limit));
      ChunkTextConserves(seg, lines[0], limit);
      BoxKeepsText(seg, lines[1..], limit);
    }
  }

  /** A line has no row exactly if it is blank. */
  lemma NoRowExactlyIfBlank(seg: Segmenter, line: Text, limit: int)
    requires AllFit(seg, line, limit)
    ensures ChunkPieces(seg, line, limit, 0) == [] <==> line == []
  {
    if line != [] {
      ChunkStep(seg, line, limit, 0);
    }
  }

  predicate NoDoubleBreak(text: Text) {
    forall k :: 0 < k < |text| ==> text[k - 1] != NEWLINE || text[k] != NEWLINE
  }

  /** No line of a text is blank: it neither begins nor ends with a line break, nor are two of them in a row. */
  predicate NoBlankLine(text: Text) {
    text != [] && text[0] != NEWLINE && text[|text| - 1] != NEWLINE && NoDoubleBreak(text)
  }

  predicate NoneBlank(lines: seq<Text>) {
    forall k :: 0 <= k < |lines| ==> lines[k] != []
  }

  lemma DoubleBreakStep(text: Text)
    requires text != []
    ensures NoDoubleBreak(text) <==>
      NoDoubleBreak(text[1..]) && !(|text| > 1 && text[0] == NEWLINE && text[1] == NEWLINE)
  {
    var rest := text[1..];
    if NoDoubleBreak(rest) {
      forall k | 1 < k < |text| ensures text[k - 1] != NEWLINE || text[k] != NEWLINE {
        assert rest[k - 2] == text[k - 1] && rest[k - 1] == text[k];
      }
    }
    if NoDoubleBreak(text) {
      forall k | 0 < k < |rest| ensures rest[k - 1] != NEWLINE || rest[k] != NEWLINE {
        assert rest[k - 1] == text[k] && rest[k] == text[k + 1];
      }
    }
  }

  lemma NoneBlankStep(first: Text, rest: seq<Text>)
    ensures NoneBlank([first] + rest) <==> first != [] && NoneBlank(rest)
  {
    var lines := [first] + rest;
    assert lines[0] == first;
    assert forall k :: 0 <= k < |rest| ==> rest[k] == lines[k + 1];
    assert forall k :: 0 < k < |lines| ==> lines[k] == rest[k - 1];
  }

  /** The first line is blank, or a later one. */
  lemma {:induction false} BlankAfterFirst(text: Text)
    ensures NoneBlank(Split(text, NEWLINE)[1..]) <==>
      (text == [] || text[|text| - 1] != NEWLINE) && NoDoubleBreak(text)
    ensures Split(text, NEWLINE)[0] == [] <==> text == [] || text[0] == NEWLINE
  {
    if text != [] {
      var rest := Split(text[1..], NEWLINE);
      BlankAfterFirst(text[1..]);
      DoubleBreakStep(text);
      hide NoDoubleBreak, NoneBlank;
      if text[0] == NEWLINE {
        assert Split(text, NEWLINE)[1..] == rest == [rest[0]] + rest[1..];
        NoneBlankStep(rest[0], rest[1..]);
      } else {
        assert Split(text, NEWLINE)[1..] == rest[1..];
      }
    }
  }

  /** Every line of a text has a row, so that no line break is lost, exactly if no line is blank. */
  lemma LineBreaksKeptExactly(seg: Segmenter, text: Text, limit: int)
    requires forall k :: 0 <= k < |Split(text, NEWLINE)| ==> AllFit(seg, Split(text, NEWLINE)[k], limit)
    ensures var lines := Split(text, NEWLINE);
      (forall k :: 0 <= k < |lines| ==> ChunkPieces(seg, lines[k], limit, 0) != []) <==> NoBlankLine(text)
  {
    hide AllFit, Split, ChunkPieces, NoDoubleBreak;
    var lines := Split(text, NEWLINE);
    BlankAfterFirst(text);
    assert lines == [lines[0]] + lines[1..];
    NoneBlankStep(lines[0], lines[1..]);
    forall k | 0 <= k < |lines|
      ensures ChunkPieces(seg, lines[k], limit, 0) == [] <==> lines[k] == []
    {
      NoRowExactlyIfBlank(seg, lines[k], limit);
    }
  }

  /** A blank line leaves no row: the box is the same without it. */
  lemma {:induction false} BoxDropsBlankLines(seg: Segmenter, before: seq<Text>, after: seq<Text>, limit: int)
    requires forall k :: 0 <= k < |before| ==> AllFit(seg, before[k], limit)
    requires forall k :: 0 <= k < |after| ==> AllFit(seg, after[k], limit)
    ensures BoxRows(seg, before + [[]] + after, limit) == BoxRows(seg, before + after, limit)
    decreases |before|
  {
    if before == [] {
      assert (before + [[]] + after)[1..] == after && before + after == after;
    } else {
      assert (before + [[]] + after)[1..] == before[1..] + [[]] + after;
      assert (before + after)[1..] == before[1..] + after;
      BoxDropsBlankLines(seg, before[1..], after, limit);
    }
  }

  lemma SplitDoubleBreak(front: Text, back: Text)
    ensures Split(front + [NEWLINE, NEWLINE] + back, NEWLINE) == Split(front, NEWLINE) + [[]] + Split(back, NEWLINE)
  {
    var lines: seq<Text>, blank: seq<Text> := Split(front, NEWLINE), [[]];
    SplitConcat(front, [NEWLINE] + back, NEWLINE);
    assert front + [NEWLINE, NEWLINE] + back == front + [NEWLINE] + ([NEWLINE] + back);
    assert ([NEWLINE] + back)[1..] == back;
    assert Split([NEWLINE] + back, NEWLINE) == blank + Split(back, NEWLINE);
    assert lines + (blank + Split(back, NEWLINE)) == lines + blank + Split(back, NEWLINE);
  }

  /** Two line breaks in a row make the same box as one. */
  lemma DoubleBreakIsSingle(seg: Segmenter, front: Text, back: Text, limit: int)
    requires forall k :: 0 <= k < |Split(front, NEWLINE)| ==> AllFit(seg, Split(front, NEWLINE)[k], limit)
    requires forall k :: 0 <= k < |Split(back, NEWLINE)| ==> AllFit(seg, Split(back, NEWLINE)[k], limit)
    ensures var double, single := front + [NEWLINE, NEWLINE] + back, front + [NEWLINE] + back;
      && (forall k :: 0 <= k < |Split(double, NEWLINE)| ==> AllFit(seg, Split(double, NEWLINE)[k], limit))
      && (forall k :: 0 <= k < |Split(single, NEWLINE)| ==> AllFit(seg, Split(single, NEWLINE)[k], limit))
      && BoxRows(seg, Split(double, NEWLINE), limit) == BoxRows(seg, Split(single, NEWLINE), limit)
  {
    hide AllFit, Split, BoxRows;
    SplitDoubleBreak(front, back);
    SplitConcat(front, back, NEWLINE);
    BlankFits(seg, limit);
    BoxDropsBlankLines(seg, Split(front, NEWLINE), Split(back, NEWLINE), limit);
  }

  lemma BlankFits(seg: Segmenter, limit: int)
    ensures AllFit(seg, [], limit)
  {
  }

  lemma OneUnit(seg: Segmenter, unit: CodeUnit, limit: int)
    requires seg([unit]).width <= limit && unit != NEWLINE
    ensures AllFit(seg, [unit], limit) && Split([unit], NEWLINE) == [[unit]]
    ensures BoxRows(seg, [[unit]], limit) == [[unit]]
  {
    var line: Text := [unit];
    var lines: seq<Text> := [line];
    assert line[0..] == line && line[0..1] == line;
    assert lines[1..] == [];
    SplitPiece(line, NEWLINE);
    ChunkStep(seg, line, limit, 0);
    assert Stop(seg, line, limit, 0) == 1;
    assert ChunkPieces(seg, line, limit, 1) == [];
  }

  lemma BoxOfTwo(seg: Segmenter, a: Text, b: Text, limit: int)
    requires AllFit(seg, a, limit) && AllFit(seg, b, limit)
    ensures BoxRows(seg, [a, b], limit) == BoxRows(seg, [a], limit) + BoxRows(seg, [b], limit)
  {
    var first, both: seq<Text> := [a], [a, b];
    assert both[1..] == [b] && first[1..] == [];
  }

  /** `a`, two line breaks and `b` are three lines, and two rows. */
  lemma ABreakIsLost(seg: Segmenter, limit: int)
    requires seg([97]).width <= limit && seg([98]).width <= limit
    ensures var lines := Split([97, NEWLINE, NEWLINE, 98], NEWLINE);
      && lines == [[97], [], [98]] && (forall k :: 0 <= k < 3 ==> AllFit(seg, lines[k], limit))
      && BoxRows(seg, lines, limit) == [[97], [98]]
  {
    hide AllFit, Split, BoxRows;
    var a: Text, b: Text := [97], [98];
    OneUnit(seg, 97, limit);
    OneUnit(seg, 98, limit);
    BlankFits(seg, limit);
    SplitDoubleBreak(a, b);
    assert a + [NEWLINE, NEWLINE] + b == [97, NEWLINE, NEWLINE, 98];
    BoxDropsBlankLines(seg, [a], [b], limit);
    BoxOfTwo(seg, a, b, limit);
    assert [a] + [b] == [a, b] && [a] + [[]] + [b] == [a, [], b];
  }
}
