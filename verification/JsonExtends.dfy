/**
 Loading a JSON file with the chain of files it extends.
 */
module JsonExtends {
  import opened DeepMerge
  import FiniteSets

  type FileName = string

  /**
   What reading a file yields.  `base` is the value of the `extends` field, empty if there is none;
   `data` is the rest.
   */
  datatype Content = Unreadable | Invalid | Json(base: string, data: PlainTree)

  datatype LoadError = CannotResolve(id: string, current: FileName) | CannotRead(file: FileName)
                     | NotAnObject(file: FileName)

  /** The environment: the files there are, and how a reference in a file is resolved, if it can be. */
  datatype World = World(files: map<FileName, Content>, targets: map<(FileName, string), FileName>, cwd: FileName)

  /** The loop before a round, with the files read so far and the reference to follow; or its end. */
  datatype Loading = Reading(seen: seq<FileName>, extend: string, datas: seq<PlainTree>)
                   | Finished(datas: seq<PlainTree>)
                   | Failed(error: LoadError)

  function LastFile(w: World, seen: seq<FileName>): FileName {
    if seen == [] then w.cwd else seen[|seen| - 1]
  }

  function ReadFile(w: World, file: FileName): Content {
    if file in w.files then w.files[file] else Unreadable
  }

  /** One round of the loop. */
  function Round(w: World, s: Loading): Loading {
    match s
    case Reading(seen, extend, datas) =>
      if extend == "" then Finished(datas)
      else if (LastFile(w, seen), extend) !in w.targets then Failed(CannotResolve(extend, LastFile(w, seen)))
      else
        var next := w.targets[(LastFile(w, seen), extend)];
        (match ReadFile(w, next)
         case Unreadable => Failed(CannotRead(next))
         case Invalid => Failed(NotAnObject(next))
         case Json(more, data) =>
           if data.Object? then Reading(seen + [next], more, datas + [data])
           else Failed(NotAnObject(next)))
    case _ => s
  }

  function Rounds(w: World, file: string, n: nat): Loading {
    if n == 0 then Reading([], file, []) else Round(w, Rounds(w, file, n - 1))
  }

  lemma RoundsBegin(w: World, file: string)
    ensures Rounds(w, file, 0) == Reading([], file, [])
  {
  }

  lemma NextRound(w: World, file: string, n: nat)
    ensures Rounds(w, file, n + 1) == Round(w, Rounds(w, file, n))
  {
    hide Round;
  }

  // ------------------------------------------------------------- termination

  ghost predicate Ends(w: World, file: string) {
    exists n :: !Rounds(w, file, n).Reading?
  }

  ghost predicate NoRepetition(seen: seq<FileName>) {
    forall i, j :: 0 <= i < j < |seen| ==> seen[i] != seen[j]
  }

  /** No file of the chain is read twice. */
  ghost predicate IsChain(w: World, file: string) {
    forall n: nat :: Rounds(w, file, n).Reading? ==> NoRepetition(Rounds(w, file, n).seen)
  }

  /** While the loop goes on, each round reads one more file, and follows what that file extends. */
  lemma {:induction false} RoundReads(w: World, file: string, n: nat)
    requires Rounds(w, file, n).Reading?
    ensures var s := Rounds(w, file, n);
      && |s.seen| == n && |s.datas| == n
      && (forall k :: 0 <= k < n ==> s.seen[k] in w.files && s.datas[k].Object?)
      && (n > 0 ==> Rounds(w, file, n - 1).Reading? && s.seen[..n - 1] == Rounds(w, file, n - 1).seen
                    && ReadFile(w, s.seen[n - 1]).Json? && s.extend == ReadFile(w, s.seen[n - 1]).base)
  {
    if n > 0 {
      assert Rounds(w, file, n - 1).Reading?;
      RoundReads(w, file, n - 1);
    }
  }

  lemma {:induction false} EarlierRounds(w: World, file: string, m: nat, n: nat)
    requires m <= n && Rounds(w, file, n).Reading?
    ensures Rounds(w, file, m).Reading? && |Rounds(w, file, n).seen| == n
      && Rounds(w, file, m).seen == Rounds(w, file, n).seen[..m]
    decreases n
  {
    hide Rounds;
    RoundReads(w, file, n);
    if m < n {
      EarlierRounds(w, file, m, n - 1);
      assert Rounds(w, file, n).seen[..n - 1][..m] == Rounds(w, file, n).seen[..m];
    }
  }

  /** The same file last, and the same reference to follow: the next round reads the same. */
  lemma SameNext(w: World, a: Loading, b: Loading)
    requires a.Reading? && b.Reading? && LastFile(w, a.seen) == LastFile(w, b.seen) && a.extend == b.extend
    requires Round(w, a).Reading?
    ensures Round(w, b).Reading? && LastFile(w, Round(w, a).seen) == LastFile(w, Round(w, b).seen)
  {
  }

  predicate SameFile(w: World, file: string, m: nat, n: nat) {
    && Rounds(w, file, m).Reading? && Rounds(w, file, n).Reading?
    && LastFile(w, Rounds(w, file, m).seen) == LastFile(w, Rounds(w, file, n).seen)
  }

  lemma FollowsLastFile(w: World, file: string, n: nat)
    requires n > 0 && Rounds(w, file, n).Reading?
    ensures var last := ReadFile(w, LastFile(w, Rounds(w, file, n).seen));
      last.Json? && Rounds(w, file, n).extend == last.base
  {
    RoundReads(w, file, n);
  }

  lemma SameFileStep(w: World, file: string, m: nat, n: nat)
    requires 0 < m && 0 < n && SameFile(w, file, m, n) && Rounds(w, file, m + 1).Reading?
    ensures SameFile(w, file, m + 1, n + 1)
  {
    FollowsLastFile(w, file, m);
    FollowsLastFile(w, file, n);
    SameNext(w, Rounds(w, file, m), Rounds(w, file, n));
  }

  /** From a repetition on, the files repeat for ever. */
  lemma {:induction false} RepetitionRepeats(w: World, file: string, i: nat, j: nat, n: nat)
    requires 0 < i < j <= n && SameFile(w, file, i, j)
    ensures SameFile(w, file, n - (j - i), n)
    decreases n
  {
    hide Rounds, LastFile;
    if n > j {
      RepetitionRepeats(w, file, i, j, n - 1);
      var before: nat := n - 1 - (j - i);
      EarlierRounds(w, file, before + 1, n - 1);
      SameFileStep(w, file, before, n - 1);
    }
  }

  /** Pairwise different names of files are no more than there are files. */
  lemma {:induction false} Pigeonhole(w: World, seen: seq<FileName>)
    requires NoRepetition(seen) && forall k :: 0 <= k < |seen| ==> seen[k] in w.files
    ensures |seen| <= |w.files|
  {
    var names := set name | name in seen;
    SizeOfSet(seen);
    assert names <= w.files.Keys;
    FiniteSets.SubsetCardinality(names, w.files.Keys);
  }

  lemma {:induction false} SizeOfSet(seen: seq<FileName>)
    requires NoRepetition(seen)
    ensures |(set name | name in seen)| == |seen|
  {
    if seen != [] {
      var front, last := seen[..|seen| - 1], seen[|seen| - 1];
      SizeOfSet(front);
      assert (set name | name in seen) == (set name | name in front) + {last};
    }
  }

  /** Loading ends exactly if no file is read twice, and then after one round more than there are files at most. */
  lemma EndsExactlyIfChain(w: World, file: string)
    ensures Ends(w, file) <==> IsChain(w, file)
    ensures IsChain(w, file) ==> !Rounds(w, file, |w.files| + 1).Reading?
  {
    if IsChain(w, file) && Rounds(w, file, |w.files| + 1).Reading? {
      RoundReads(w, file, |w.files| + 1);
      Pigeonhole(w, Rounds(w, file, |w.files| + 1).seen);
    }
    if !IsChain(w, file) && Ends(w, file) {
      var end :| !Rounds(w, file, end).Reading?;
      var n: nat :| Rounds(w, file, n).Reading? && !NoRepetition(Rounds(w, file, n).seen);
      RepetitionNeverEnds(w, file, n, end);
    }
  }

  lemma {:induction false} EndStays(w: World, file: string, m: nat, n: nat)
    requires m <= n && !Rounds(w, file, m).Reading?
    ensures Rounds(w, file, n) == Rounds(w, file, m)
    decreases n
  {
    if m < n {
      EndStays(w, file, m, n - 1);
    }
  }

  lemma {:induction false} SeenAt(w: World, file: string, k: nat, n: nat)
    requires Rounds(w, file, n).Reading? && k < |Rounds(w, file, n).seen|
    ensures Rounds(w, file, k + 1).Reading? && LastFile(w, Rounds(w, file, k + 1).seen) == Rounds(w, file, n).seen[k]
  {
    RoundReads(w, file, n);
    if k < n - 1 {
      assert Rounds(w, file, n).seen[k] == Rounds(w, file, n - 1).seen[k];
      SeenAt(w, file, k, n - 1);
    }
  }

  lemma RepetitionIsSameFile(w: World, file: string, n: nat) returns (i: nat, j: nat)
    requires Rounds(w, file, n).Reading? && !NoRepetition(Rounds(w, file, n).seen)
    ensures 0 < i < j && SameFile(w, file, i, j)
  {
    var seen := Rounds(w, file, n).seen;
    var a: nat, b: nat :| a < b < |seen| && seen[a] == seen[b];
    SeenAt(w, file, a, n);
    SeenAt(w, file, b, n);
    i, j := a + 1, b + 1;
  }

  lemma RepetitionNeverEnds(w: World, file: string, n: nat, end: nat)
    requires Rounds(w, file, n).Reading? && !NoRepetition(Rounds(w, file, n).seen)
    ensures Rounds(w, file, end).Reading?
  {
    var i, j := RepetitionIsSameFile(w, file, n);
    var later := if end > j then end else j;
    RepetitionRepeats(w, file, i, j, later);
    EarlierRounds(w, file, end, later);
  }

  // ------------------------------------------------------------------- result

  /** The trees merged in this order. */
  function MergeAll(datas: seq<PlainTree>): Tree {
    if datas == [] then Object(map[]) else Merge(MergeAll(datas[..|datas| - 1]), datas[|datas| - 1])
  }

  function Reversed(datas: seq<PlainTree>): (r: seq<PlainTree>)
    ensures |r| == |datas| && forall k :: 0 <= k < |r| ==> r[k] == datas[|datas| - 1 - k]
  {
    seq(|datas|, k requires 0 <= k < |datas| => datas[|datas| - 1 - k])
  }

  /** A single file is returned as it is; several are merged, the last one of the chain first. */
  function Result(datas: seq<PlainTree>): Tree {
    if |datas| == 1 then datas[0] else MergeAll(Reversed(datas))
  }

  lemma {:induction false} MergeAllPlain(datas: seq<PlainTree>)
    ensures Plain(MergeAll(datas))
  {
    if datas != [] {
      MergeAllPlain(datas[..|datas| - 1]);
      MergePlain(MergeAll(datas[..|datas| - 1]), datas[|datas| - 1]);
    }
  }

  /** So the exception for a single file makes no difference. */
  lemma ResultIsMergeAll(datas: seq<PlainTree>)
    requires forall k :: 0 <= k < |datas| ==> datas[k].Object?
    ensures Result(datas) == MergeAll(Reversed(datas))
  {
    if |datas| == 1 {
      assert Reversed(datas) == datas && datas[..0] == [];
    }
  }

  /** What the trees hold at a path, merged in this order. */
  function MergeAllAt(datas: seq<PlainTree>, path: OrdinaryPath): Tree {
    if datas == [] then Undefined else Merge(MergeAllAt(datas[..|datas| - 1], path), ReadPath(datas[|datas| - 1], path))
  }

  lemma {:induction false} ReadNothing(t: Tree, path: OrdinaryPath)
    requires t == Undefined || t == Object(map[])
    requires t == Undefined || path != []
    ensures ReadPath(t, path) == Undefined
    decreases |path|
  {
    if path != [] {
      ReadNothing(Undefined, path[1..]);
    }
  }

  /** Merging files and then reading a path is reading the path in all files and merging. */
  lemma {:induction false} MergeAllReads(datas: seq<PlainTree>, path: OrdinaryPath)
    requires path != []
    ensures Plain(MergeAllAt(datas, path)) && ReadPath(MergeAll(datas), path) == MergeAllAt(datas, path)
  {
    if datas == [] {
      ReadNothing(Object(map[]), path);
    } else {
      var front, last := datas[..|datas| - 1], datas[|datas| - 1];
      MergeAllReads(front, path);
      MergeAllPlain(front);
      ReadPathCommutes(MergeAll(front), last, path);
      MergePlain(MergeAllAt(front, path), ReadPath(last, path));
    }
  }

  ghost predicate ObjectAt(datas: seq<PlainTree>, path: OrdinaryPath, k: nat)
    requires k < |datas|
  {
    ReadPath(datas[k], path).Object?
  }

  /** The last defined value there, if any. */
  function LastDefined(datas: seq<PlainTree>, path: OrdinaryPath): Tree {
    if datas == [] then Undefined
    else if ReadPath(datas[|datas| - 1], path) != Undefined then ReadPath(datas[|datas| - 1], path)
    else LastDefined(datas[..|datas| - 1], path)
  }

  lemma {:induction false} LeavesOverride(datas: seq<PlainTree>, path: OrdinaryPath)
    requires forall k :: 0 <= k < |datas| ==> !ObjectAt(datas, path, k)
    ensures MergeAllAt(datas, path) == LastDefined(datas, path) && !LastDefined(datas, path).Object?
  {
    if datas != [] {
      var front := datas[..|datas| - 1];
      forall k | 0 <= k < |front| ensures !ObjectAt(front, path, k) {
        assert !ObjectAt(datas, path, k);
      }
      LeavesOverride(front, path);
      assert !ObjectAt(datas, path, |datas| - 1);
    }
  }

  lemma {:induction false} ObjectsStay(datas: seq<PlainTree>, path: OrdinaryPath, k: nat)
    requires k < |datas| && ObjectAt(datas, path, k)
    ensures MergeAllAt(datas, path).Object?
  {
    if k < |datas| - 1 {
      assert ObjectAt(datas[..|datas| - 1], path, k);
      ObjectsStay(datas[..|datas| - 1], path, k);
    }
  }

  /**
   At every path of the loaded tree: an object exactly if some file holds one there, however many of
   the files that extend it override it; otherwise the last value defined from base to derived file.
   */
  lemma LoadedValue(datas: seq<PlainTree>, path: OrdinaryPath)
    requires path != [] && forall k :: 0 <= k < |datas| ==> datas[k].Object?
    ensures var value := ReadPath(Result(datas), path); var order := Reversed(datas);
      && (value.Object? <==> exists k :: 0 <= k < |order| && ObjectAt(order, path, k))
      && (!value.Object? ==> value == LastDefined(order, path))
  {
    var order := Reversed(datas);
    ResultIsMergeAll(datas);
    MergeAllReads(order, path);
    if exists k :: 0 <= k < |order| && ObjectAt(order, path, k) {
      var k :| 0 <= k < |order| && ObjectAt(order, path, k);
      ObjectsStay(order, path, k);
    } else {
      LeavesOverride(order, path);
    }
  }

  // ------------------------------------------------------------------- answer

  datatype Loaded = Value(value: Tree) | Error(error: LoadError)

  function Outcome(s: Loading): Loaded
    requires !s.Reading?
  {
    match s
    case Finished(datas) => Value(Result(datas))
    case Failed(error) => Error(error)
  }

  /** Where a reference behind these files is resolved from. */
  function From(w: World, c: seq<FileName>): FileName {
    if c == [] then w.cwd else c[|c| - 1]
  }

  predicate IsJson(w: World, name: FileName) { name in w.files && w.files[name].Json? }

  predicate IsObject(w: World, name: FileName) { IsJson(w, name) && w.files[name].data.Object? }

  /** The reference behind these files: to the first file, or the base of the last one. */
  function Wanted(w: World, file: string, c: seq<FileName>): string {
    if c == [] then file else if IsJson(w, c[|c| - 1]) then w.files[c[|c| - 1]].base else ""
  }

  predicate Resolves(w: World, file: string, c: seq<FileName>) {
    Wanted(w, file, c) != "" && (From(w, c), Wanted(w, file, c)) in w.targets
  }

  function Target(w: World, file: string, c: seq<FileName>): FileName
    requires Resolves(w, file, c)
  {
    w.targets[(From(w, c), Wanted(w, file, c))]
  }

  /** Behind these files comes that one: the target of the reference, and an object. */
  predicate GoesOnWith(w: World, file: string, c: seq<FileName>, next: FileName) {
    Resolves(w, file, c) && next == Target(w, file, c) && IsObject(w, next)
  }

  /** Each file is the target of the base of the one before, and the first one that of `file`. */
  ghost predicate Follows(w: World, file: string, c: seq<FileName>) {
    forall k :: 0 <= k < |c| ==> GoesOnWith(w, file, c[..k], c[k])
  }

  /** There is no next file: nothing more is wanted, or it cannot be resolved, or is not an object. */
  predicate StopsBehind(w: World, file: string, c: seq<FileName>) {
    !Resolves(w, file, c) || !IsObject(w, Target(w, file, c))
  }

  /** What this file holds at a path. */
  function HeldAt(w: World, name: FileName, path: OrdinaryPath): Tree {
    if IsJson(w, name) then ReadPath(w.files[name].data, path) else Undefined
  }

  /** An object if one of the files holds one there; otherwise what the first file that defines it holds. */
  ghost predicate IsValueAt(w: World, c: seq<FileName>, path: OrdinaryPath, value: Tree) {
    && (value.Object? <==> exists k :: 0 <= k < |c| && HeldAt(w, c[k], path).Object?)
    && (!value.Object? ==> IsFirstDefined(w, c, path, value))
  }

  ghost predicate IsFirstDefined(w: World, c: seq<FileName>, path: OrdinaryPath, value: Tree) {
    if exists k :: 0 <= k < |c| && HeldAt(w, c[k], path) != Undefined then
      exists k :: 0 <= k < |c| && HeldAt(w, c[k], path) == value != Undefined
               && forall j :: 0 <= j < k ==> HeldAt(w, c[j], path) == Undefined
    else value == Undefined
  }

  predicate CannotBeRead(w: World, name: FileName) { name !in w.files || w.files[name].Unreadable? }

  /** What is to be returned, if the chain ends behind these files. */
  ghost predicate IsAnswer(w: World, file: string, c: seq<FileName>, loaded: Loaded) {
    if Wanted(w, file, c) == "" then
      loaded.Value? && forall path: OrdinaryPath :: path != [] ==> IsValueAt(w, c, path, ReadPath(loaded.value, path))
    else if !Resolves(w, file, c) then loaded == Error(CannotResolve(Wanted(w, file, c), From(w, c)))
    else if CannotBeRead(w, Target(w, file, c)) then loaded == Error(CannotRead(Target(w, file, c)))
    else !IsObject(w, Target(w, file, c)) ==> loaded == Error(NotAnObject(Target(w, file, c)))
  }

  ghost predicate DatasFit(w: World, c: seq<FileName>, datas: seq<PlainTree>) {
    && |datas| == |c|
    && forall k :: 0 <= k < |c| ==> IsObject(w, c[k]) && datas[k] == w.files[c[k]].data
  }

  ghost predicate IsReading(w: World, file: string, c: seq<FileName>, s: Loading) {
    s.Reading? && s.seen == c && s.extend == Wanted(w, file, c) && DatasFit(w, c, s.datas)
  }

  lemma RoundGoesOn(w: World, file: string, c: seq<FileName>, s: Loading)
    requires IsReading(w, file, c, s)
    ensures Round(w, s).Reading? <==> !StopsBehind(w, file, c)
    ensures !StopsBehind(w, file, c) ==> IsReading(w, file, c + [Target(w, file, c)], Round(w, s))
  {
  }

  /** After so many rounds the loop has read the files of the chain, and their data. */
  lemma {:induction false} ReadsChain(w: World, file: string, c: seq<FileName>)
    requires Follows(w, file, c)
    ensures IsReading(w, file, c, Rounds(w, file, |c|))
    decreases |c|
  {
    hide Follows, IsReading, Rounds, Round, ReadFile, IsObject, Wanted;
    if c == [] {
      NothingRead(w, file);
    } else {
      var front, last := c[..|c| - 1], c[|c| - 1];
      FrontFollows(w, file, c);
      ReadsChain(w, file, front);
      RoundGoesOn(w, file, front, Rounds(w, file, |front|));
      NextRound(w, file, |front|);
      assert front + [last] == c;
    }
  }

  lemma NothingRead(w: World, file: string)
    ensures IsReading(w, file, [], Rounds(w, file, 0))
  {
    hide ReadFile;
  }

  lemma FrontFollows(w: World, file: string, c: seq<FileName>)
    requires Follows(w, file, c) && c != []
    ensures Follows(w, file, c[..|c| - 1]) && GoesOnWith(w, file, c[..|c| - 1], c[|c| - 1])
  {
    hide GoesOnWith;
    var front := c[..|c| - 1];
    forall k | 0 <= k < |front| ensures GoesOnWith(w, file, front[..k], front[k]) {
      assert front[..k] == c[..k];
    }
    assert c[..|front|] == front;
  }

  /** And what it has read is always a chain. */
  lemma {:induction false} ReadIsChain(w: World, file: string, n: nat)
    requires Rounds(w, file, n).Reading?
    ensures Follows(w, file, Rounds(w, file, n).seen) && |Rounds(w, file, n).seen| == n
    ensures IsReading(w, file, Rounds(w, file, n).seen, Rounds(w, file, n))
  {
    if n > 0 {
      var s := Rounds(w, file, n - 1);
      assert s.Reading?;
      ReadIsChain(w, file, n - 1);
      RoundGoesOn(w, file, s.seen, s);
      FollowsOn(w, file, s.seen);
    }
  }

  /** No chain of files that follow each other has one of them twice. */
  lemma ChainsDoNotRepeat(w: World, file: string)
    ensures IsChain(w, file) <==> forall c :: Follows(w, file, c) ==> NoRepetition(c)
  {
    hide Rounds, Follows, NoRepetition;
    if IsChain(w, file) {
      forall c | Follows(w, file, c) ensures NoRepetition(c) {
        ReadsChain(w, file, c);
      }
    }
    if forall c :: Follows(w, file, c) ==> NoRepetition(c) {
      forall n: nat | Rounds(w, file, n).Reading? ensures NoRepetition(Rounds(w, file, n).seen) {
        ReadIsChain(w, file, n);
      }
    }
  }

  lemma FollowsOn(w: World, file: string, c: seq<FileName>)
    requires Follows(w, file, c) && !StopsBehind(w, file, c)
    ensures Follows(w, file, c + [Target(w, file, c)])
  {
    var all := c + [Target(w, file, c)];
    forall k | 0 <= k < |all| ensures GoesOnWith(w, file, all[..k], all[k]) {
      assert k < |c| ==> all[..k] == c[..k];
      assert k == |c| ==> all[..k] == c;
    }
  }

  lemma {:induction false} LastDefinedIs(datas: seq<PlainTree>, path: OrdinaryPath)
    ensures var value := LastDefined(datas, path);
      if value == Undefined then forall k :: 0 <= k < |datas| ==> ReadPath(datas[k], path) == Undefined
      else exists k :: 0 <= k < |datas| && ReadPath(datas[k], path) == value
                    && forall j :: k < j < |datas| ==> ReadPath(datas[j], path) == Undefined
  {
    hide ReadPath;
    if datas != [] && ReadPath(datas[|datas| - 1], path) == Undefined {
      LastDefinedIs(datas[..|datas| - 1], path);
    }
  }

  lemma HeldInOrder(w: World, c: seq<FileName>, datas: seq<PlainTree>, path: OrdinaryPath, k: nat)
    requires DatasFit(w, c, datas) && k < |c|
    ensures ReadPath(Reversed(datas)[k], path) == HeldAt(w, c[|c| - 1 - k], path)
  {
    hide ReadPath;
  }

  /** The last of the files in reverse is the first one. */
  lemma LastInReverse(w: World, c: seq<FileName>, order: seq<PlainTree>, path: OrdinaryPath)
    requires |order| == |c| && forall k :: 0 <= k < |c| ==> ReadPath(order[k], path) == HeldAt(w, c[|c| - 1 - k], path)
    ensures IsFirstDefined(w, c, path, LastDefined(order, path))
  {
    hide ReadPath, LastDefined, HeldAt;
    LastDefinedIs(order, path);
    var value := LastDefined(order, path);
    if value == Undefined {
      forall k | 0 <= k < |c| ensures HeldAt(w, c[k], path) == Undefined {
        assert ReadPath(order[|c| - 1 - k], path) == HeldAt(w, c[|c| - 1 - (|c| - 1 - k)], path);
      }
    } else {
      var k :| 0 <= k < |order| && ReadPath(order[k], path) == value
               && forall j :: k < j < |order| ==> ReadPath(order[j], path) == Undefined;
      var i := |c| - 1 - k;
      assert HeldAt(w, c[i], path) == value;
      forall j | 0 <= j < i ensures HeldAt(w, c[j], path) == Undefined {
        assert ReadPath(order[|c| - 1 - j], path) == HeldAt(w, c[|c| - 1 - (|c| - 1 - j)], path);
      }
    }
  }

  lemma ObjectInReverse(w: World, c: seq<FileName>, order: seq<PlainTree>, path: OrdinaryPath)
    requires |order| == |c| && forall k :: 0 <= k < |c| ==> ReadPath(order[k], path) == HeldAt(w, c[|c| - 1 - k], path)
    ensures (exists k :: 0 <= k < |order| && ObjectAt(order, path, k)) <==>
      exists k :: 0 <= k < |c| && HeldAt(w, c[k], path).Object?
  {
    hide ReadPath, HeldAt;
    if k :| 0 <= k < |order| && ObjectAt(order, path, k) {
      assert HeldAt(w, c[|c| - 1 - k], path).Object?;
    }
    if k :| 0 <= k < |c| && HeldAt(w, c[k], path).Object? {
      assert ReadPath(order[|c| - 1 - k], path) == HeldAt(w, c[|c| - 1 - (|c| - 1 - k)], path);
      assert ObjectAt(order, path, |c| - 1 - k);
    }
  }

  lemma ResultIsValue(w: World, c: seq<FileName>, datas: seq<PlainTree>, path: OrdinaryPath)
    requires DatasFit(w, c, datas) && path != []
    ensures IsValueAt(w, c, path, ReadPath(Result(datas), path))
  {
    hide Result, ReadPath, LastDefined, HeldAt, IsFirstDefined, ObjectAt;
    LoadedValue(datas, path);
    var order := Reversed(datas);
    forall k | 0 <= k < |c| ensures ReadPath(order[k], path) == HeldAt(w, c[|c| - 1 - k], path) {
      HeldInOrder(w, c, datas, path, k);
    }
    LastInReverse(w, c, order, path);
    ObjectInReverse(w, c, order, path);
  }

  lemma AnswerBehind(w: World, file: string, c: seq<FileName>, s: Loading)
    requires IsReading(w, file, c, s) && StopsBehind(w, file, c)
    ensures !Round(w, s).Reading? && IsAnswer(w, file, c, Outcome(Round(w, s)))
  {
    hide Result, ReadPath, DatasFit, IsValueAt;
    if Wanted(w, file, c) == "" {
      forall path: OrdinaryPath | path != [] ensures IsValueAt(w, c, path, ReadPath(Result(s.datas), path)) {
        ResultIsValue(w, c, s.datas, path);
      }
    }
  }

  /** The outcome is the answer for every chain of files, and there is one that ends. */
  lemma OutcomeIsAnswer(w: World, file: string, n: nat, c: seq<FileName>)
    requires !Rounds(w, file, n).Reading? && Follows(w, file, c) && StopsBehind(w, file, c)
    ensures IsAnswer(w, file, c, Outcome(Rounds(w, file, n)))
  {
    hide Round, IsAnswer, Follows, Rounds;
    ReadsChain(w, file, c);
    AnswerBehind(w, file, c, Rounds(w, file, |c|));
    NextRound(w, file, |c|);
    if n <= |c| {
      EndStays(w, file, n, |c|);
    } else {
      EndStays(w, file, |c| + 1, n);
    }
  }

  lemma {:induction false} SomeChainEnds(w: World, file: string, n: nat) returns (c: seq<FileName>)
    requires !Rounds(w, file, n).Reading?
    ensures Follows(w, file, c) && StopsBehind(w, file, c)
  {
    hide Round, Rounds, Follows;
    RoundsBegin(w, file);
    var m: nat := n - 1;
    NextRound(w, file, m);
    if Rounds(w, file, m).Reading? {
      ReadIsChain(w, file, m);
      c := Rounds(w, file, m).seen;
      RoundGoesOn(w, file, c, Rounds(w, file, m));
    } else {
      c := SomeChainEnds(w, file, m);
    }
  }

  // ------------------------------------------------------------------- method

  /** The walk along the chain, and the merge back along it. */
  method LoadInheritedJson(w: World, file: string) returns (loaded: Loaded)
    requires IsChain(w, file)
    ensures !Rounds(w, file, |w.files| + 1).Reading? && loaded == Outcome(Rounds(w, file, |w.files| + 1))
    ensures forall c :: Follows(w, file, c) && StopsBehind(w, file, c) ==> IsAnswer(w, file, c, loaded)
    ensures exists c :: Follows(w, file, c) && StopsBehind(w, file, c)
  {
    loaded := WalkChain(w, file);
    hide Rounds, Follows, StopsBehind, IsAnswer;
    forall c | Follows(w, file, c) && StopsBehind(w, file, c) ensures IsAnswer(w, file, c, loaded) {
      OutcomeIsAnswer(w, file, |w.files| + 1, c);
    }
    ghost var _ := SomeChainEnds(w, file, |w.files| + 1);
  }

  method WalkChain(w: World, file: string) returns (loaded: Loaded)
    requires IsChain(w, file)
    ensures !Rounds(w, file, |w.files| + 1).Reading? && loaded == Outcome(Rounds(w, file, |w.files| + 1))
  {
    hide Rounds, Result, MergeAll, Reversed;
    EndsExactlyIfChain(w, file);
    RoundsBegin(w, file);
    var datas: seq<PlainTree> := [];
    var lastFile := w.cwd;
    var extend := file;
    ghost var seen: seq<FileName> := [];
    ghost var n: nat := 0;
    while extend != ""
      invariant n <= |w.files| && Rounds(w, file, n) == Reading(seen, extend, datas) && lastFile == LastFile(w, seen)
      decreases |w.files| - n
    {
      NextRound(w, file, n);
      n := n + 1;
      if (lastFile, extend) !in w.targets {
        EndStays(w, file, n, |w.files| + 1);
        return Error(CannotResolve(extend, lastFile));
      }
      var next := w.targets[(lastFile, extend)];
      lastFile := next;
      var content := ReadFile(w, next);
      if content.Unreadable? {
        EndStays(w, file, n, |w.files| + 1);
        return Error(CannotRead(next));
      }
      if content.Invalid? || !content.data.Object? {
        EndStays(w, file, n, |w.files| + 1);
        return Error(NotAnObject(next));
      }
      extend := content.base;
      datas := datas + [content.data];
      seen := seen + [next];
    }
    NextRound(w, file, n);
    EndStays(w, file, n + 1, |w.files| + 1);
    var merged := MergeBack(datas);
    loaded := Value(merged);
  }

  method MergeBack(datas: seq<PlainTree>) returns (result: Tree)
    ensures result == Result(datas)
  {
    if |datas| == 1 {
      result := datas[0];
      return;
    }
    var order := Reversed(datas);
    result := Object(map[]);
    for k := 0 to |order|
      invariant result == MergeAll(order[..k])
    {
      assert order[..k + 1][..k] == order[..k];
      result := DeepMergeTrees(result, order[k]);
    }
    assert order[..|order|] == order;
  }
}
