/**
 Absolute POSIX paths: their normal form, the relative path between two of them, containment.
 */
module Paths {
  import opened CodeUnits

  const SLASH: CodeUnit := 47
  const BACKSLASH: CodeUnit := 92
  const UP: Text := [46, 46]
  const HERE: Text := [46]

  predicate IsSlash(unit: CodeUnit) { unit == SLASH || unit == BACKSLASH }

  /** Starts with two slashes or more, of either kind, and something else after them. */
  predicate IsDoubleSlash(p: Text) {
    && |p| > 2 && IsSlash(p[0]) && IsSlash(p[1])
    && exists k :: 2 <= k < |p| && !IsSlash(p[k])
  }

  /** What is analyzed as a path of kind `unix`. */
  predicate IsUnix(p: Text) {
    p != [] && p[0] == SLASH && !IsDoubleSlash(p)
  }

  type UnixPath = p: Text | IsUnix(p) witness [SLASH]

  function Slashed(p: Text): (r: Text)
    ensures |r| == |p|
    ensures forall k :: 0 <= k < |p| ==> r[k] == if p[k] == BACKSLASH then SLASH else p[k]
  {
    seq(|p|, k requires 0 <= k < |p| => if p[k] == BACKSLASH then SLASH else p[k])
  }

  function Step(stack: seq<Text>, item: Text): seq<Text> {
    if item == [] || item == HERE then stack
    else if item != UP then stack + [item]
    else if stack == [] then stack
    else stack[..|stack| - 1]
  }

  /** Follows the items from a directory, given by its segments. */
  function Walk(stack: seq<Text>, items: seq<Text>): seq<Text>
    decreases |items|
  {
    if items == [] then stack else Walk(Step(stack, items[0]), items[1..])
  }

  /** Where a path leads to from a directory. */
  function Resolve(directory: seq<Text>, path: Text): seq<Text> {
    Walk(directory, Split(Slashed(path), SLASH))
  }

  function Segments(p: Text): seq<Text> {
    Resolve([], p)
  }

  function NormalizePath(p: UnixPath): Text {
    [SLASH] + Join(Segments(p), SLASH)
  }

  /** The length of the longest common prefix. */
  function Common(a: seq<Text>, b: seq<Text>): (n: nat)
    ensures n <= |a| && n <= |b| && forall k :: 0 <= k < n ==> a[k] == b[k]
    ensures n < |a| && n < |b| ==> a[n] != b[n]
  {
    if a == [] || b == [] || a[0] != b[0] then 0 else 1 + Common(a[1..], b[1..])
  }

  function Ups(count: nat): (ups: seq<Text>)
    ensures |ups| == count && forall k :: 0 <= k < count ==> ups[k] == UP
  {
    seq(count, _ => UP)
  }

  function RelativePath(from: UnixPath, to: UnixPath): Text {
    Steps(Split(Join(Segments(from), SLASH), SLASH), Split(Join(Segments(to), SLASH), SLASH))
  }

  /** Up from the first list of items to what both have in common, and down to the second. */
  function Steps(a: seq<Text>, b: seq<Text>): Text {
    var i := Common(a, b);
    (if |a| > i then Join(Ups(|a| - i), SLASH) + [SLASH] else []) + Join(b[i..], SLASH)
  }

  function IsPathContains(parent: UnixPath, child: UnixPath, equalsOk: bool): bool {
    if NormalizePath(parent) == NormalizePath(child) then equalsOk
    else NormalizePath(parent) + [SLASH] <= NormalizePath(child)
  }

  // -------------------------------------------------------------------- segments

  /** A proper name: not empty, no dots only, no slash. */
  predicate IsName(item: Text) {
    item != [] && item != HERE && item != UP && SLASH !in item && BACKSLASH !in item
  }

  ghost predicate AllNames(items: seq<Text>) {
    forall k :: 0 <= k < |items| ==> IsName(items[k])
  }

  ghost predicate NoSlashes(items: seq<Text>) {
    forall k :: 0 <= k < |items| ==> SLASH !in items[k] && BACKSLASH !in items[k]
  }

  lemma {:induction false} WalkNames(stack: seq<Text>, items: seq<Text>)
    requires AllNames(stack) && NoSlashes(items)
    ensures AllNames(Walk(stack, items))
    decreases |items|
  {
    if items != [] {
      WalkNames(Step(stack, items[0]), items[1..]);
    }
  }

  lemma {:induction false} SplitSubset(text: Text, separator: CodeUnit, unit: CodeUnit)
    requires unit !in text
    ensures NoneHas(Split(text, separator), unit)
  {
    if text != [] {
      SplitSubset(text[1..], separator, unit);
    }
  }

  lemma ItemsHaveNoSlashes(path: Text)
    ensures NoSlashes(Split(Slashed(path), SLASH))
  {
    SplitJoin(Slashed(path), SLASH);
    SplitSubset(Slashed(path), SLASH, BACKSLASH);
  }

  lemma ResolvedNames(directory: seq<Text>, path: Text)
    requires AllNames(directory)
    ensures AllNames(Resolve(directory, path))
  {
    ItemsHaveNoSlashes(path);
    WalkNames(directory, Split(Slashed(path), SLASH));
  }

  lemma {:induction false} WalkConcat(stack: seq<Text>, a: seq<Text>, b: seq<Text>)
    ensures Walk(stack, a + b) == Walk(Walk(stack, a), b)
    decreases |a|
  {
    if a == [] {
      assert a + b == b;
    } else {
      assert (a + b)[1..] == a[1..] + b;
      WalkConcat(Step(stack, a[0]), a[1..], b);
    }
  }

  lemma {:induction false} WalkDown(stack: seq<Text>, names: seq<Text>)
    requires AllNames(names)
    ensures Walk(stack, names) == stack + names
    decreases |names|
  {
    if names != [] {
      WalkDown(stack + [names[0]], names[1..]);
      assert stack + [names[0]] + names[1..] == stack + names;
    }
  }

  lemma {:induction false} WalkUp(stack: seq<Text>, count: nat)
    ensures Walk(stack, Ups(count)) == stack[..if count <= |stack| then |stack| - count else 0]
    decreases count
  {
    if count > 0 {
      assert Ups(count)[1..] == Ups(count - 1);
      WalkUp(Step(stack, UP), count - 1);
    }
  }

  lemma SlashedIdentity(text: Text)
    requires BACKSLASH !in text
    ensures Slashed(text) == text
  {
  }

  lemma {:induction false} JoinHasNo(pieces: seq<Text>, separator: CodeUnit, unit: CodeUnit)
    requires NoneHas(pieces, unit) && unit != separator
    ensures unit !in Join(pieces, separator)
  {
    if |pieces| > 1 {
      JoinHasNo(pieces[1..], separator, unit);
    }
  }

  /** Joined items without slashes are resolved one by one. */
  lemma ResolveJoined(directory: seq<Text>, items: seq<Text>)
    requires NoSlashes(items)
    ensures Resolve(directory, Join(items, SLASH)) == Walk(directory, items)
  {
    JoinHasNo(items, SLASH, BACKSLASH);
    SlashedIdentity(Join(items, SLASH));
    SplitOfJoin(items, SLASH);
    if items == [] {
      assert Walk(directory, [[]]) == Walk(Step(directory, []), []);
    }
  }

  /** A leading slash does not matter to the segments. */
  lemma LeadingSlash(path: Text)
    ensures Segments([SLASH] + path) == Segments(path)
  {
    var all := [SLASH] + path;
    assert Slashed(all)[1..] == Slashed(path);
    var rest := Split(Slashed(path), SLASH);
    assert Split(Slashed(all), SLASH) == [[]] + rest;
    assert ([[]] + rest)[1..] == rest;
  }

  // ---------------------------------------------------------------- normal form

  /** Normalizing keeps the segments, and yields an absolute path again. */
  lemma NormalFormKeepsSegments(p: UnixPath)
    ensures IsUnix(NormalizePath(p)) && Segments(NormalizePath(p)) == Segments(p)
  {
    var segments := Segments(p);
    ResolvedNames([], p);
    LeadingSlash(Join(segments, SLASH));
    ResolveJoined([], segments);
    WalkDown([], segments);
    if segments != [] {
      assert IsName(segments[0]);
      assert NormalizePath(p)[1] == segments[0][0];
    }
  }

  lemma NormalizingIsIdempotent(p: UnixPath)
    ensures IsUnix(NormalizePath(p)) && NormalizePath(NormalizePath(p)) == NormalizePath(p)
  {
    NormalFormKeepsSegments(p);
  }

  lemma SplitNormalForm(p: UnixPath)
    ensures Split(Join(Segments(p), SLASH), SLASH) == if Segments(p) == [] then [[]] else Segments(p)
  {
    ResolvedNames([], p);
    SplitOfJoin(Segments(p), SLASH);
  }

  /** Two paths have the same normal form exactly if they have the same segments. */
  lemma SameNormalFormExactly(p: UnixPath, q: UnixPath)
    ensures NormalizePath(p) == NormalizePath(q) <==> Segments(p) == Segments(q)
  {
    SplitNormalForm(p);
    SplitNormalForm(q);
    ResolvedNames([], p);
    ResolvedNames([], q);
    if NormalizePath(p) == NormalizePath(q) {
      assert Join(Segments(p), SLASH) == NormalizePath(p)[1..] == NormalizePath(q)[1..] == Join(Segments(q), SLASH);
    }
  }

  /** Two slashes in front make another kind of path, unless there are only slashes. */
  lemma DoubleSlashExactly(rest: Text)
    ensures IsUnix([SLASH, SLASH] + rest) <==> forall k :: 0 <= k < |rest| ==> IsSlash(rest[k])
    ensures rest != [] && !IsSlash(rest[0]) ==> IsUnix([SLASH] + rest)
  {
    var p := [SLASH, SLASH] + rest;
    assert forall k :: 0 <= k < |rest| ==> rest[k] == p[k + 2];
    assert forall k :: 2 <= k < |p| ==> p[k] == rest[k - 2];
  }

  // ------------------------------------------------------ what segments are left

  /** The path with one more item: what it is called decides. */
  lemma SegmentsOfMore(p: Text, item: Text)
    requires SLASH !in item && BACKSLASH !in item
    ensures var before, after := Segments(p), Segments(p + [SLASH] + item);
      && (item == [] || item == HERE ==> after == before)
      && (item == UP ==> after == if before == [] then [] else before[..|before| - 1])
      && (IsName(item) ==> after == before + [item])
    ensures Segments([]) == [] && Segments(p + [BACKSLASH] + item) == Segments(p + [SLASH] + item)
  {
    var all := p + [SLASH] + item;
    SlashedIdentity(item);
    assert Slashed(all) == Slashed(p) + [SLASH] + item;
    assert Slashed(p + [BACKSLASH] + item) == Slashed(p) + [SLASH] + item;
    SplitConcat(Slashed(p), item, SLASH);
    SplitPiece(item, SLASH);
    WalkConcat([], Split(Slashed(p), SLASH), [item]);
    WalkOne(Segments(p), item);
    assert Slashed([]) == [];
    WalkOne([], []);
  }

  lemma WalkOne(stack: seq<Text>, item: Text)
    ensures Walk(stack, [item]) == Step(stack, item)
  {
    assert [item][1..] == [];
  }

  /** A name counts for one down, two dots for one up. */
  function Weight(item: Text): int {
    if item == [] || item == HERE then 0 else if item == UP then -1 else 1
  }

  /** How far down the items from position `i` to before position `j` lead. */
  function Depth(items: seq<Text>, i: nat, j: nat): int
    requires j <= |items|
  {
    if i >= j then 0 else Depth(items, i, j - 1) + Weight(items[j - 1])
  }

  ghost predicate NeverAbove(items: seq<Text>, i: nat, n: nat)
    requires n <= |items|
  {
    forall m: nat :: m <= n ==> Depth(items, i, m) >= 0
  }

  /** The name at this position is not taken back: what comes behind it never leads above it. */
  ghost predicate Stays(items: seq<Text>, k: nat, n: nat)
    requires n <= |items|
  {
    k < n && Weight(items[k]) == 1 && NeverAbove(items, k + 1, n)
  }

  ghost predicate Ascending(ks: seq<nat>) {
    forall i, j :: 0 <= i < j < |ks| ==> ks[i] < ks[j]
  }

  /** The positions of the names that are left of the first `n` items. */
  function Left(items: seq<Text>, n: nat): (ks: seq<nat>)
    requires n <= |items|
  {
    if n == 0 then []
    else
      var before, weight := Left(items, n - 1), Weight(items[n - 1]);
      if weight == 1 then before + [n - 1]
      else if weight == 0 || before == [] then before
      else before[..|before| - 1]
  }

  ghost predicate LeftFits(items: seq<Text>, n: nat, ks: seq<nat>)
    requires n <= |items|
  {
    && Ascending(ks) && (forall k: nat :: k in ks <==> Stays(items, k, n))
    && (forall j :: 0 <= j < |ks| ==> ks[j] < n && Depth(items, ks[j] + 1, n) == |ks| - 1 - j)
  }

  lemma StaysOne(items: seq<Text>, k: nat, n: nat)
    requires n < |items|
    ensures Stays(items, k, n + 1) <==>
      (Stays(items, k, n) && Depth(items, k + 1, n + 1) >= 0) || (k == n && Weight(items[n]) == 1)
  {
    hide Weight;
  }

  lemma LeftFitsOne(items: seq<Text>, n: nat, ks: seq<nat>)
    requires n < |items| && LeftFits(items, n, ks)
    ensures var weight := Weight(items[n]);
      LeftFits(items, n + 1,
               if weight == 1 then ks + [n] else if weight == 0 || ks == [] then ks else ks[..|ks| - 1])
  {
    var weight := Weight(items[n]);
    var later := if weight == 1 then ks + [n] else if weight == 0 || ks == [] then ks else ks[..|ks| - 1];
    hide Weight, Stays;
    forall j | 0 <= j < |ks| ensures Depth(items, ks[j] + 1, n + 1) == |ks| - 1 - j + weight {
    }
    forall k: nat ensures k in later <==> Stays(items, k, n + 1) {
      StaysOne(items, k, n);
      if k in ks {
        var j :| 0 <= j < |ks| && ks[j] == k;
        assert j < |later| ==> later[j] == k;
      }
    }
  }

  lemma {:induction false} LeftIsRight(items: seq<Text>, n: nat)
    requires n <= |items|
    ensures LeftFits(items, n, Left(items, n))
  {
    hide LeftFits;
    if n > 0 {
      LeftIsRight(items, n - 1);
      LeftFitsOne(items, n - 1, Left(items, n - 1));
    } else {
      NothingLeftYet(items);
    }
  }

  lemma NothingLeftYet(items: seq<Text>)
    ensures LeftFits(items, 0, [])
  {
  }

  function Picked(items: seq<Text>, ks: seq<nat>): (picked: seq<Text>)
    requires forall j :: 0 <= j < |ks| ==> ks[j] < |items|
    ensures |picked| == |ks| && forall j :: 0 <= j < |ks| ==> picked[j] == items[ks[j]]
  {
    seq(|ks|, j requires 0 <= j < |ks| => items[ks[j]])
  }

  lemma {:induction false} LeftWithin(items: seq<Text>, n: nat)
    requires n <= |items|
    ensures forall j :: 0 <= j < |Left(items, n)| ==> Left(items, n)[j] < n
  {
    if n > 0 {
      LeftWithin(items, n - 1);
    }
  }

  lemma {:induction false} WalkPicks(items: seq<Text>, n: nat)
    requires n <= |items|
    ensures forall j :: 0 <= j < |Left(items, n)| ==> Left(items, n)[j] < |items|
    ensures Walk([], items[..n]) == Picked(items, Left(items, n))
    decreases n
  {
    LeftWithin(items, n);
    if n > 0 {
      WalkPicks(items, n - 1);
      assert items[..n] == items[..n - 1] + [items[n - 1]];
      WalkConcat([], items[..n - 1], [items[n - 1]]);
      hide Walk, Left;
      WalkOne(Picked(items, Left(items, n - 1)), items[n - 1]);
    }
  }

  /** The segments of a path are, in their order, exactly the names between its slashes that no `..` takes back. */
  lemma SegmentsAreLeft(p: Text)
    ensures var items := Split(Slashed(p), SLASH); var ks := Left(items, |items|);
      && Ascending(ks) && (forall k: nat :: k in ks <==> Stays(items, k, |items|))
      && (forall j :: 0 <= j < |ks| ==> ks[j] < |items|)
      && Segments(p) == Picked(items, ks)
  {
    hide Split, Walk, Left, Stays;
    var items := Split(Slashed(p), SLASH);
    LeftIsRight(items, |items|);
    WalkPicks(items, |items|);
    assert items[..|items|] == items;
  }

  // -------------------------------------------------------------- relative paths

  function OrEmptyItem(items: seq<Text>): seq<Text> {
    if items == [] then [[]] else items
  }

  lemma StepsJoined(a: seq<Text>, b: seq<Text>)
    ensures Steps(a, b) == Join(Ups(|a| - Common(a, b)) + OrEmptyItem(b[Common(a, b)..]), SLASH)
  {
    var i := Common(a, b);
    var down := OrEmptyItem(b[i..]);
    assert Join(down, SLASH) == Join(b[i..], SLASH);
    if |a| > i {
      JoinConcat(Ups(|a| - i), down, SLASH);
    } else {
      assert Ups(0) + down == down;
    }
  }

  /** The items of the relative path between two directories. */
  function ItemsBetween(f: seq<Text>, t: seq<Text>): seq<Text> {
    var a, b := OrEmptyItem(f), OrEmptyItem(t);
    Ups(|a| - Common(a, b)) + OrEmptyItem(b[Common(a, b)..])
  }

  lemma RelativeItems(from: UnixPath, to: UnixPath)
    ensures RelativePath(from, to) == Join(ItemsBetween(Segments(from), Segments(to)), SLASH)
  {
    SplitNormalForm(from);
    SplitNormalForm(to);
    StepsJoined(OrEmptyItem(Segments(from)), OrEmptyItem(Segments(to)));
  }

  /** Going up leaves the common part, and going down from there leads to `t`. */
  lemma ItemsLeadThere(f: seq<Text>, t: seq<Text>)
    requires AllNames(f) && AllNames(t)
    ensures Walk(f, ItemsBetween(f, t)) == t
  {
    var i := Common(OrEmptyItem(f), OrEmptyItem(t));
    var ups, downs := Ups(|OrEmptyItem(f)| - i), OrEmptyItem(OrEmptyItem(t)[i..]);
    assert ItemsBetween(f, t) == ups + downs;
    WalkConcat(f, ups, downs);
    assert Walk(f, ups) == Top(f, t) by {
      WalkUp(f, |OrEmptyItem(f)| - i);
    }
    assert Walk(Top(f, t), downs) == t by {
      DownAgain(f, t);
    }
  }

  lemma SegmentsAreNames(p: Text)
    ensures AllNames(Segments(p))
  {
    ResolvedNames([], p);
  }

  lemma ItemsBetweenPlain(f: seq<Text>, t: seq<Text>)
    requires AllNames(f) && AllNames(t)
    ensures NoSlashes(ItemsBetween(f, t))
  {
  }

  /** From the directory `from`, the relative path leads to `to`. */
  lemma RelativePathLeadsThere(from: UnixPath, to: UnixPath)
    ensures Resolve(Segments(from), RelativePath(from, to)) == Segments(to)
  {
    hide AllNames, NoSlashes, ItemsBetween, RelativePath, Segments, Resolve, Walk;
    SegmentsAreNames(from);
    SegmentsAreNames(to);
    RelativeItems(from, to);
    ItemsLeadThere(Segments(from), Segments(to));
    ItemsBetweenPlain(Segments(from), Segments(to));
    ResolveJoined(Segments(from), ItemsBetween(Segments(from), Segments(to)));
  }

  /** The part of `f` that is left after going up. */
  function Top(f: seq<Text>, t: seq<Text>): seq<Text> {
    var up := |OrEmptyItem(f)| - Common(OrEmptyItem(f), OrEmptyItem(t));
    f[..if up <= |f| then |f| - up else 0]
  }

  /** Nothing is left to go down, or the empty item that stands for nothing. */
  lemma NothingDown(directory: seq<Text>)
    ensures Walk(directory, [[]]) == directory
  {
    assert Walk(directory, [[]]) == Walk(directory, []);
  }

  lemma DownAgain(f: seq<Text>, t: seq<Text>)
    requires AllNames(f) && AllNames(t)
    ensures Walk(Top(f, t), OrEmptyItem(OrEmptyItem(t)[Common(OrEmptyItem(f), OrEmptyItem(t))..])) == t
  {
    hide Walk, Common;
    var i := Common(OrEmptyItem(f), OrEmptyItem(t));
    var rest := OrEmptyItem(t)[i..];
    TopIsCommon(f, t);
    if t == [] || i == |t| {
      assert OrEmptyItem(rest) == [[]];
      NothingDown(Top(f, t));
    } else {
      WalkDown(Top(f, t), rest);
      assert t[..i] + t[i..] == t;
    }
  }

  lemma TopIsCommon(f: seq<Text>, t: seq<Text>)
    requires AllNames(f) && AllNames(t)
    ensures Top(f, t) == if t == [] then [] else t[..Common(OrEmptyItem(f), OrEmptyItem(t))]
  {
    hide AllNames;
    var i := Common(OrEmptyItem(f), OrEmptyItem(t));
    if f != [] && t != [] {
      assert f[..i] == t[..i];
    } else {
      NoEmptyName(f);
      NoEmptyName(t);
    }
  }

  lemma NoEmptyName(items: seq<Text>)
    requires AllNames(items)
    ensures items != [] ==> items[0] != []
  {
  }

  lemma WalkFromRoot(directory: UnixPath, path: Text)
    ensures Segments(NormalizePath(directory) + [SLASH] + path) == Resolve(Segments(directory), path)
  {
    var base := NormalizePath(directory);
    var all := base + [SLASH] + path;
    assert Slashed(all) == Slashed(base) + [SLASH] + Slashed(path);
    SplitConcat(Slashed(base), Slashed(path), SLASH);
    WalkConcat([], Split(Slashed(base), SLASH), Split(Slashed(path), SLASH));
    NormalFormKeepsSegments(directory);
  }

  /** The text of a path below the directory `from`: the root ends with its slash already. */
  function Below(from: UnixPath, path: Text): Text {
    (if Segments(from) == [] then [SLASH] else NormalizePath(from) + [SLASH]) + path
  }

  /** From the root the way to anything else goes up first, although there is nothing above. */
  lemma RelativePathFromRoot(from: UnixPath, to: UnixPath)
    requires Segments(from) == []
    ensures RelativePath(from, to) == if Segments(to) == [] then [] else UP + [SLASH] + Join(Segments(to), SLASH)
  {
    SplitNormalForm(from);
    SplitNormalForm(to);
    var a, b := OrEmptyItem(Segments(from)), OrEmptyItem(Segments(to));
    assert a == [[]];
    if Segments(to) == [] {
      assert Common(a[1..], b[1..]) == 0 && b[1..] == [];
    } else {
      ResolvedNames([], to);
      assert IsName(b[0]);
      assert Ups(1) == [UP] && b[0..] == b;
    }
  }

  lemma BelowRoot(from: UnixPath, to: UnixPath)
    requires Segments(from) == []
    ensures var path := Below(from, RelativePath(from, to)); IsUnix(path) && Segments(path) == Segments(to)
    ensures Segments(to) != [] ==> !IsUnix([SLASH] + Below(from, RelativePath(from, to)))
  {
    RelativePathFromRoot(from, to);
    RelativePathLeadsThere(from, to);
    LeadingSlash(RelativePath(from, to));
    if Segments(to) != [] {
      assert !IsSlash(RelativePath(from, to)[0]);
      assert ([SLASH] + Below(from, RelativePath(from, to)))[2] == RelativePath(from, to)[0];
    }
  }

  lemma BelowOther(from: UnixPath, to: UnixPath)
    requires Segments(from) != []
    ensures var path := Below(from, RelativePath(from, to)); IsUnix(path) && Segments(path) == Segments(to)
  {
    RelativePathLeadsThere(from, to);
    WalkFromRoot(from, RelativePath(from, to));
    ResolvedNames([], from);
    assert IsName(Segments(from)[0]);
    assert NormalizePath(from)[1] == Segments(from)[0][0];
    assert Below(from, RelativePath(from, to)) == NormalizePath(from) + [SLASH] + RelativePath(from, to);
  }

  /**
   The same, in text: below `from`, the relative path names `to`.  With a slash of its own after the
   root it would name no path of this kind, unless it is empty.
   */
  lemma RelativePathRoundTrip(from: UnixPath, to: UnixPath)
    ensures var path := Below(from, RelativePath(from, to)); IsUnix(path) && NormalizePath(path) == NormalizePath(to)
    ensures Segments(from) == [] && Segments(to) != [] ==> !IsUnix([SLASH] + Below(from, RelativePath(from, to)))
  {
    hide Segments, RelativePath, IsUnix, Below;
    if Segments(from) == [] {
      BelowRoot(from, to);
    } else {
      BelowOther(from, to);
    }
  }

  // ------------------------------------------------------------------ containment

  ghost predicate IsProperPrefix(a: seq<Text>, b: seq<Text>) {
    a < b
  }

  lemma PrefixOfItems(a: seq<Text>, b: seq<Text>, rest: Text)
    requires AllNames(a) && AllNames(b) && a != [] && Join(b, SLASH) == Join(a, SLASH) + [SLASH] + rest
    ensures IsProperPrefix(a, b)
  {
    SplitOfJoin(a, SLASH);
    SplitOfJoin(b, SLASH);
    SplitConcat(Join(a, SLASH), rest, SLASH);
    hide Split, Join;
  }

  lemma PrefixExactly(a: seq<Text>, b: seq<Text>)
    requires AllNames(a) && AllNames(b) && a != []
    ensures Join(a, SLASH) + [SLASH] <= Join(b, SLASH) <==> IsProperPrefix(a, b)
  {
    hide Join, AllNames;
    var start := Join(a, SLASH) + [SLASH];
    if start <= Join(b, SLASH) {
      PrefixOfItems(a, b, Join(b, SLASH)[|start|..]);
    }
    if IsProperPrefix(a, b) {
      assert b == a + b[|a|..];
      JoinConcat(a, b[|a|..], SLASH);
    }
  }

  /** Equal paths as told; otherwise a directory other than the root contains exactly what is below it. */
  lemma ContainsExactly(parent: UnixPath, child: UnixPath, equalsOk: bool)
    ensures var p, c := Segments(parent), Segments(child);
      IsPathContains(parent, child, equalsOk) <==> (if p == c then equalsOk else p != [] && IsProperPrefix(p, c))
  {
    var p, c := Segments(parent), Segments(child);
    SameNormalFormExactly(parent, child);
    ResolvedNames([], parent);
    ResolvedNames([], child);
    if p != c {
      var start, text := NormalizePath(parent) + [SLASH], NormalizePath(child);
      if p == [] {
        assert start == [SLASH, SLASH];
        assert c != [] && IsName(c[0]) && text[1] == c[0][0];
      } else {
        PrefixExactly(p, c);
        PrefixAfterSlash(Join(p, SLASH) + [SLASH], Join(c, SLASH));
        assert start == [SLASH] + (Join(p, SLASH) + [SLASH]);
      }
    }
  }

  lemma PrefixAfterSlash(a: Text, b: Text)
    ensures [SLASH] + a <= [SLASH] + b <==> a <= b
  {
    if [SLASH] + a <= [SLASH] + b {
      assert a == ([SLASH] + a)[1..] && b == ([SLASH] + b)[1..];
    }
  }

  // ---------------------------------------------------------------------- methods

  /** The loop of `analyzePath` over the items, and the path it leaves. */
  method AnalyzePath(p: UnixPath) returns (path: Text)
    ensures [SLASH] + path == NormalizePath(p)
  {
    var items := Split(Slashed(p), SLASH);
    var st := [];
    for k := 0 to |items|
      invariant Walk(st, items[k..]) == Segments(p)
    {
      assert items[k..][1..] == items[k + 1..];
      if items[k] == [] || items[k] == HERE {
        continue;
      }
      if items[k] == UP {
        if |st| > 0 {
          st := st[..|st| - 1];
        }
      } else {
        st := st + [items[k]];
      }
    }
    path := Join(st, SLASH);
  }

  /** The search for the common prefix, and what is left on both sides. */
  method Relative(from: UnixPath, to: UnixPath) returns (path: Text)
    ensures path == RelativePath(from, to)
  {
    hide Split, Join, Segments;
    var r1 := AnalyzePath(from);
    var r2 := AnalyzePath(to);
    assert r1 == NormalizePath(from)[1..] && r2 == NormalizePath(to)[1..];
    var p1arr, p2arr := Split(r1, SLASH), Split(r2, SLASH);
    var i := 0;
    while i < |p1arr| && i < |p2arr| && p1arr[i] == p2arr[i]
      invariant 0 <= i <= |p1arr| && i <= |p2arr|
      invariant Common(p1arr, p2arr) == i + Common(p1arr[i..], p2arr[i..])
    {
      assert p1arr[i..][1..] == p1arr[i + 1..] && p2arr[i..][1..] == p2arr[i + 1..];
      i := i + 1;
    }
    p1arr := p1arr[i..];
    p2arr := p2arr[i..];
    var p1 := if |p1arr| > 0 then Join(Ups(|p1arr|), SLASH) + [SLASH] else [];
    path := p1 + Join(p2arr, SLASH);
  }

  method Contains(parent: UnixPath, child: UnixPath, equalsOk: bool) returns (contains: bool)
    ensures var p, c := Segments(parent), Segments(child);
      contains <==> (if p == c then equalsOk else p != [] && IsProperPrefix(p, c))
  {
    var nParent := AnalyzePath(parent);
    var nChild := AnalyzePath(child);
    ContainsExactly(parent, child, equalsOk);
    if [SLASH] + nParent == [SLASH] + nChild {
      return equalsOk;
    }
    return [SLASH] + nParent + [SLASH] <= [SLASH] + nChild;
  }
}
