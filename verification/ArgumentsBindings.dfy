/**
 What each call of the reader binds, and when it conflicts.
 */
module ArgumentsBindings {
  import opened CodeUnits
  import opened Tokenizer
  import opened Wrappers
  import opened ArgumentsModel
  import opened ArgumentsRuns
  import opened ArgumentsAnswers
  import ArgumentsRepeat

  type Bindings = seq<Option<Id>>

  /** The tokens at these positions bound to the parameter, the others as before. */
  function WithBound(bindings: Bindings, id: Id, ks: set<nat>): Bindings {
    seq(|bindings|, k requires 0 <= k < |bindings| => if k in ks then Some(id) else bindings[k])
  }

  /** Bound to another parameter. */
  predicate IsTaken(bindings: Bindings, id: Id, k: nat) {
    k < |bindings| && bindings[k].Some? && bindings[k] != Some(id)
  }

  predicate AllFree(bindings: Bindings, id: Id, ks: set<nat>) {
    forall k :: k in ks ==> !IsTaken(bindings, id, k)
  }

  predicate IsFirstTaken(bindings: Bindings, id: Id, ks: set<nat>, k: nat) {
    k in ks && IsTaken(bindings, id, k) && forall j :: j in ks && j < k ==> !IsTaken(bindings, id, j)
  }

  /** All these tokens are bound; or the first of them that is taken is reported and nothing is bound. */
  ghost predicate BindsOrConflicts(bindings: Bindings, reply: Reply, id: Id, ks: set<nat>) {
    if AllFree(bindings, id, ks) then
      !reply.outcome.Failed? && reply.reader.bindings == WithBound(bindings, id, ks)
    else
      && reply.reader.bindings == bindings
      && exists k: nat ::
          IsFirstTaken(bindings, id, ks, k) && reply.outcome == Failed(Conflict(bindings[k].value, id))
  }

  ghost predicate BindsNothing(bindings: Bindings, reply: Reply, error: Error) {
    reply.outcome == Failed(error) && reply.reader.bindings == bindings
  }

  function Members(args: seq<nat>): set<nat> {
    set k | k in args
  }

  lemma BindsAllOrNone(r: Reader, id: Id, kind: Kind, args: seq<nat>, outcome: Outcome)
    requires Inv(r) && id in r.params && Bindable(r, args) && kind == KindOf(id)
    requires Ascending(args) && !outcome.Failed?
    ensures BindsOrConflicts(r.bindings, Bind(r, id, kind, args, outcome), id, Members(args))
  {
    hide Inv, Bindable;
    BindIs(r, id, kind, args, outcome);
    var ks := Members(args);
    var n := FirstClash(r.bindings, id, args);
    if n < |args| {
      assert args[n] in ks && IsTaken(r.bindings, id, args[n]);
      forall j | j in ks && j < args[n] ensures !IsTaken(r.bindings, id, j) {
        var i :| 0 <= i < |args| && args[i] == j;
        assert i < n;
      }
      assert IsFirstTaken(r.bindings, id, ks, args[n]);
    } else {
      forall j | j in ks ensures !IsTaken(r.bindings, id, j) {
        var i :| 0 <= i < |args| && args[i] == j;
      }
    }
  }

  // --------------------------------------------------------------- options

  /** The flags themselves and their values. */
  ghost function OptionPositions(tokens: seq<Token>, flags: seq<Text>): set<nat> {
    set k: nat | k < DoubleDashAt(tokens) && (Printed(tokens, k) in flags || IsValueOf(tokens, flags, k))
  }

  /** A flag at or behind position `i`, or the value of one. */
  predicate IsOptionFrom(tokens: seq<Token>, flags: seq<Text>, i: nat, k: nat) {
    (i <= k < DoubleDashAt(tokens) && IsMatch(tokens[k].content, flags)) || IsValueFrom(tokens, flags, i, k)
  }

  ghost predicate ListsOptions(tokens: seq<Token>, flags: seq<Text>, i: nat, all: seq<nat>) {
    Ascending(all) && forall k :: k in all <==> IsOptionFrom(tokens, flags, i, k)
  }

  lemma {:induction false} OptionsListed(tokens: seq<Token>, flags: seq<Text>, i: nat)
    requires i <= DoubleDashAt(tokens)
    ensures var m := MatchOptions(tokens, flags, i);
      m.Matched? ==> ListsOptions(tokens, flags, i, m.all) && (m.all == [] <==> m.values == [])
    decreases |tokens| - i
  {
    hide IsMatch, DoubleDashAt, ListsOptions, IsOptionFrom;
    DashFrom(tokens, i);
    var m := MatchOptions(tokens, flags, i);
    if i == DoubleDashAt(tokens) {
      NoOptions(tokens, flags, i);
    } else if m.Matched? {
      OptionsListed(tokens, flags, i + 1);
      if IsMatch(tokens[i].content, flags) {
        MatchIsFlag(tokens[i].content, flags);
      }
      OneMoreOption(tokens, flags, i, MatchOptions(tokens, flags, i + 1).all);
    }
  }

  lemma NoOptions(tokens: seq<Token>, flags: seq<Text>, i: nat)
    requires i == DoubleDashAt(tokens)
    ensures ListsOptions(tokens, flags, i, [])
  {
    hide IsMatch;
  }

  lemma OneMoreOption(tokens: seq<Token>, flags: seq<Text>, i: nat, rest: seq<nat>)
    requires i < DoubleDashAt(tokens) && ListsOptions(tokens, flags, i + 1, rest) && !LacksValue(tokens, flags, i)
    ensures var c := tokens[i].content;
      ListsOptions(tokens, flags, i,
                   if !IsMatch(c, flags) then rest else if c.Both? then [i] + rest else [i, i + 1] + rest)
  {
    hide IsMatch, DoubleDashAt;
    var c := tokens[i].content;
    if IsMatch(c, flags) {
      MatchIsFlag(c, flags);
      if c.Flag? {
        DashFrom(tokens, i + 1);
        ValueIsNoMatch(tokens[i + 1].content, flags);
      }
      forall j | 0 <= j < |rest| ensures rest[j] > i + if c.Flag? then 1 else 0 {
        assert rest[j] in rest;
      }
    }
  }

  lemma ValueIsNoMatch(c: Content, flags: seq<Text>)
    requires c.Value?
    ensures !IsMatch(c, flags)
  {
  }

  /** The three ways of `multiple`, which `single` shares: a bad definition, a missing value, or binding. */
  lemma OptionsBind(argv: seq<Text>, ops: seq<Op>, def: FlagDefinition)
    ensures var r, flags := Run(argv, ops), FlagsOf(def); var reply := Call(r, Multiple(def));
      && Call(r, Single(def)).reader == reply.reader
      && if flags == [] || !AllFlags(flags) then BindsNothing(r.bindings, reply, BadDefinition)
         else if exists k: nat :: NoValueFollows(r.tokens, flags, k) then
           exists token: nat :: BindsNothing(r.bindings, reply, Unexpected(token))
         else
           BindsOrConflicts(r.bindings, reply, FlagDefinitionId(def), OptionPositions(r.tokens, flags))
  {
    hide Tokenize, After, ValuesAfterDash, Inv, TestFlag, MatchOptions, Bind, Singleton, BindsOrConflicts;
    hide NoValueFollows, OptionPositions;
    ReachedInv(argv, ops);
    var r, flags := Run(argv, ops), FlagsOf(def);
    if IsDefinition(def) {
      MatchedAnswers(argv, flags);
      var m := MatchOptions(r.tokens, flags, 0);
      KeepsBindings(r, FlagDefinitionId(def));
      match m
      case Misplaced(token) =>
        assert BindsNothing(r.bindings, Call(r, Multiple(def)), Unexpected(token));
      case Matched(all, values) =>
        OptionsBound(argv, r, def);
    }
  }

  lemma OptionsBound(argv: seq<Text>, r: Reader, def: FlagDefinition)
    requires Inv(r) && r.tokens == Tokenize(argv) && IsDefinition(def)
    requires MatchOptions(r.tokens, FlagsOf(def), 0).Matched?
    ensures BindsOrConflicts(r.bindings, MatchValues(r, def), FlagDefinitionId(def),
                             OptionPositions(r.tokens, FlagsOf(def)))
  {
    hide Tokenize, Inv, TestFlag, MatchOptions, Bind, Singleton, OptionPositions;
    var id, flags := FlagDefinitionId(def), FlagsOf(def);
    SingletonGood(r, id);
    var made := Singleton(r, id).reader;
    var m := MatchOptions(r.tokens, flags, 0);
    OptionsListed(r.tokens, flags, 0);
    OptionsPrinted(argv, flags, m.all);
    if m.values == [] {
      assert OptionPositions(r.tokens, flags) == {};
      assert r.bindings == WithBound(r.bindings, id, {});
    } else {
      OptionsBindable(made, flags, 0);
      BindsAllOrNone(made, id, FlagKind, m.all, Values(m.values));
    }
  }

  lemma OptionsPrinted(argv: seq<Text>, flags: seq<Text>, all: seq<nat>)
    requires AllFlags(flags) && ListsOptions(Tokenize(argv), flags, 0, all)
    requires MatchOptions(Tokenize(argv), flags, 0).Matched?
    ensures Members(all) == OptionPositions(Tokenize(argv), flags)
  {
    hide Tokenize, IsMatch, DoubleDashAt, AllFlags, IsValueOf, IsValueFrom, Printed, MatchOptions;
    var tokens := Tokenize(argv);
    forall k: nat ensures IsOptionFrom(tokens, flags, 0, k) <==> k in OptionPositions(tokens, flags) {
      ValuesArePrinted(argv, flags, k);
      OptionIsPrinted(argv, flags, k);
    }
  }

  lemma OptionIsPrinted(argv: seq<Text>, flags: seq<Text>, k: nat)
    requires AllFlags(flags)
    ensures var tokens := Tokenize(argv);
      && (IsValueFrom(tokens, flags, 0, k) ==> k < DoubleDashAt(tokens))
      && (k < DoubleDashAt(tokens) && Printed(tokens, k) in flags ==> IsMatch(tokens[k].content, flags))
      && (k < DoubleDashAt(tokens) && IsMatch(tokens[k].content, flags) ==>
            Printed(tokens, k) in flags || IsValueFrom(tokens, flags, 0, k))
  {
    hide Tokenize, IsMatch, DoubleDashAt, AllFlags, PrintContent;
    if k < DoubleDashAt(Tokenize(argv)) {
      MatchesArePrinted(argv, flags, k);
      if IsMatch(Tokenize(argv)[k].content, flags) {
        MatchIsFlag(Tokenize(argv)[k].content, flags);
      }
    }
  }

  // ----------------------------------------------------------------- flags

  lemma {:induction false} FlagsListed(tokens: seq<Token>, flags: seq<Text>, i: nat)
    requires i <= DoubleDashAt(tokens)
    ensures var m := MatchFlags(tokens, flags, i);
      m.Matched? ==> Ascending(m.all) && forall k :: k in m.all <==> k in MatchPositions(tokens, flags, i)
    decreases |tokens| - i
  {
    hide IsMatch, DoubleDashAt;
    DashFrom(tokens, i);
    if i < DoubleDashAt(tokens) && MatchFlags(tokens, flags, i).Matched? {
      FlagsListed(tokens, flags, i + 1);
      var rest := MatchFlags(tokens, flags, i + 1).all;
      forall j | 0 <= j < |rest| ensures rest[j] > i {
        assert rest[j] in rest;
      }
    }
  }

  /** One of the negations of these flags, with a value. */
  ghost predicate NegationHasValue(tokens: seq<Token>, flags: seq<Text>, k: nat) {
    && k < DoubleDashAt(tokens) && tokens[k].content.Both?
    && exists text: Text :: IsNegationOf(text, flags) && Printed(tokens, k) == text + [EQUALS] + tokens[k].content.value
  }

  ghost predicate FlagHasValue(tokens: seq<Token>, flags: seq<Text>, k: nat) {
    k < DoubleDashAt(tokens) && HasValue(tokens, flags, k)
  }

  /** Counting: the first of the flags that has a value is refused; otherwise all are bound, or none. */
  ghost predicate RefusesOrBinds(bindings: Bindings, reply: Reply, id: Id, ks: set<nat>, refused: iset<nat>) {
    if refused == iset{} then BindsOrConflicts(bindings, reply, id, ks)
    else
      exists k: nat ::
        k in refused && (forall j: nat :: j in refused ==> k <= j) && BindsNothing(bindings, reply, Unexpected(k))
  }

  lemma CountOnceBinds(argv: seq<Text>, r: Reader, def: FlagDefinition)
    requires Inv(r) && r.tokens == Tokenize(argv) && FlagsOf(def) != [] && AllFlags(FlagsOf(def))
    ensures RefusesOrBinds(r.bindings, CountOnce(r, def), FlagDefinitionId(def), FlagPositions(r.tokens, FlagsOf(def)),
                           iset k: nat | FlagHasValue(r.tokens, FlagsOf(def), k))
  {
    hide Tokenize, Inv, TestFlag, MatchFlags, Bind, Singleton, DoubleDashAt, IsMatch, HasValue, PrintContent;
    hide BindsOrConflicts;
    var id, tokens, flags := FlagDefinitionId(def), r.tokens, FlagsOf(def);
    SingletonGood(r, id);
    var made := Singleton(r, id).reader;
    var m := MatchFlags(tokens, flags, 0);
    var refused := iset k: nat | FlagHasValue(tokens, flags, k);
    FlagsMatched(tokens, flags, 0);
    FlagsListed(tokens, flags, 0);
    forall k: nat | k < DoubleDashAt(tokens)
      ensures k in refused <==> k in MatchPositions(tokens, flags, 0) && tokens[k].content.Both?
      ensures k in MatchPositions(tokens, flags, 0) && !tokens[k].content.Both? <==> k in FlagPositions(tokens, flags)
    {
      BothMatches(tokens, flags, k);
      MatchesArePrinted(argv, flags, k);
      if IsMatch(tokens[k].content, flags) {
        MatchIsFlag(tokens[k].content, flags);
      }
    }
    match m
    case Misplaced(token) =>
      assert token in refused;
    case Matched(all, _) =>
      assert refused == iset{};
      assert Members(all) == FlagPositions(tokens, flags);
      FlagsBindable(made, flags, 0);
      BindsAllOrNone(made, id, FlagKind, all, Count(|all|));
  }

  lemma NegationIsFlag(flag: Text)
    requires TestFlag(flag) && DOUBLE_DASH <= flag
    ensures TestFlag(NO + flag[2..])
  {
    hide MatchFlag;
    FlagNamesExactly(flag);
    FlagNamesExactly(NO + flag[2..]);
    hide TestFlag;
    if name: Text :| IsLong(flag, name, None) {
      assert flag[2..] == name;
      assert NO + flag[2..] == DOUBLE_DASH + ([110, 111, 45] + name);
      assert IsLong(NO + flag[2..], [110, 111, 45] + name, None);
    }
  }

  lemma NegationsAreFlags(flags: seq<Text>)
    requires AllFlags(flags)
    ensures AllFlags(Negated(flags))
  {
    hide TestFlag;
    forall k | 0 <= k < |Negated(flags)| ensures TestFlag(Negated(flags)[k]) {
      assert Negated(flags)[k] in Negated(flags);
      NegatedExactly(flags, Negated(flags)[k]);
      var j :| 0 <= j < |flags| && DOUBLE_DASH <= flags[j] && Negated(flags)[k] == NO + flags[j][2..];
      NegationIsFlag(flags[j]);
    }
  }

  lemma NegationValues(tokens: seq<Token>, flags: seq<Text>, k: nat)
    ensures FlagHasValue(tokens, Negated(flags), k) <==> NegationHasValue(tokens, flags, k)
  {
    hide Printed, DoubleDashAt, Negated, IsNegationOf;
    var negated := Negated(flags);
    if FlagHasValue(tokens, negated, k) {
      var j :| 0 <= j < |negated| && Printed(tokens, k) == negated[j] + [EQUALS] + tokens[k].content.value;
      NegatedExactly(flags, negated[j]);
    }
    if NegationHasValue(tokens, flags, k) {
      var text: Text :| IsNegationOf(text, flags) && Printed(tokens, k) == text + [EQUALS] + tokens[k].content.value;
      NegatedExactly(flags, text);
      var j :| 0 <= j < |negated| && negated[j] == text;
    }
  }

  predicate HasNegation(flags: seq<Text>) {
    && (forall j :: 0 <= j < |flags| ==> !(NO <= flags[j]))
    && exists j :: 0 <= j < |flags| && DOUBLE_DASH <= flags[j]
  }

  /**
   `flag` binds the flags it counts, and then, as another parameter, their negations; what it has bound stays
   bound when the second step fails.
   */
  lemma FlagsBind(argv: seq<Text>, ops: seq<Op>, def: FlagDefinition)
    ensures var r, flags := Run(argv, ops), FlagsOf(def); var reply := Call(r, CountFlag(def));
      var id, ks, nks := FlagDefinitionId(def), FlagPositions(r.tokens, flags), NegationPositions(r.tokens, flags);
      var refused := iset k: nat | FlagHasValue(r.tokens, flags, k);
      if flags == [] || !AllFlags(flags) then BindsNothing(r.bindings, reply, BadDefinition)
      else if refused != iset{} || !AllFree(r.bindings, id, ks) || !HasNegation(flags) then
        RefusesOrBinds(r.bindings, reply, id, ks, refused)
      else
        RefusesOrBinds(WithBound(r.bindings, id, ks), reply, FlagDefinitionId(NegatedDefinition(def)), nks,
                       iset k: nat | NegationHasValue(r.tokens, flags, k))
  {
    hide Tokenize, After, ValuesAfterDash, Inv, TestFlag, CountOnce, Negated, FlagPositions, NegationPositions;
    hide FlagHasValue, NegationHasValue, RefusesOrBinds, FlagDefinitionId, NegatedDefinition;
    ReachedInv(argv, ops);
    var r, flags := Run(argv, ops), FlagsOf(def);
    if flags == [] || !AllFlags(flags) {
      BadCount(r, def);
    } else {
      CountOnceBinds(argv, r, def);
      SucceedsExactly(r.bindings, CountOnce(r, def), FlagDefinitionId(def), FlagPositions(r.tokens, flags),
                      iset k: nat | FlagHasValue(r.tokens, flags, k));
      NegatedExactlyIfAny(flags);
      if !CountOnce(r, def).outcome.Failed? && HasNegation(flags) {
        NegationsBind(argv, r, def);
      }
    }
  }

  lemma BadCount(r: Reader, def: FlagDefinition)
    requires FlagsOf(def) == [] || !AllFlags(FlagsOf(def))
    ensures CountReply(r, def) == Reply(r, Failed(BadDefinition))
  {
    hide TestFlag;
  }

  lemma SucceedsExactly(bindings: Bindings, reply: Reply, id: Id, ks: set<nat>, refused: iset<nat>)
    requires RefusesOrBinds(bindings, reply, id, ks, refused)
    ensures !reply.outcome.Failed? <==> refused == iset{} && AllFree(bindings, id, ks)
    ensures !reply.outcome.Failed? ==> reply.reader.bindings == WithBound(bindings, id, ks)
  {
  }

  lemma NegatedExactlyIfAny(flags: seq<Text>)
    ensures Negated(flags) != [] <==> HasNegation(flags)
  {
    if Negated(flags) != [] {
      assert Negated(flags)[0] in Negated(flags);
      NegatedExactly(flags, Negated(flags)[0]);
    }
    if HasNegation(flags) {
      var j :| 0 <= j < |flags| && DOUBLE_DASH <= flags[j];
      NegatedExactly(flags, NO + flags[j][2..]);
    }
  }

  /** The second step is the first one again, with the negations. */
  lemma NegationsBind(argv: seq<Text>, r: Reader, def: FlagDefinition)
    requires Inv(r) && r.tokens == Tokenize(argv) && AllFlags(FlagsOf(def)) && HasNegation(FlagsOf(def))
    requires !CountOnce(r, def).outcome.Failed?
    ensures RefusesOrBinds(CountOnce(r, def).reader.bindings, CountReply(r, def),
                           FlagDefinitionId(NegatedDefinition(def)), NegationPositions(r.tokens, FlagsOf(def)),
                           iset k: nat | NegationHasValue(r.tokens, FlagsOf(def), k))
  {
    hide Tokenize, Inv, AllFlags, CountOnce, Negated, FlagPositions, NegationPositions, HasNegation;
    hide FlagHasValue, NegationHasValue, RefusesOrBinds, FlagDefinitionId, NegatedDefinition;
    var flags, negated := FlagsOf(def), NegatedDefinition(def);
    var first := CountOnce(r, def);
    CountOnceGood(r, def);
    NegationFlags(def);
    NegationsAreFlags(flags);
    NegatedExactlyIfAny(flags);
    CountOnceBinds(argv, first.reader, negated);
    NegationsCounted(r.tokens, flags, negated);
    forall k: nat ensures FlagHasValue(r.tokens, Negated(flags), k) <==> NegationHasValue(r.tokens, flags, k) {
      NegationValues(r.tokens, flags, k);
    }
    var refused := iset k: nat | FlagHasValue(r.tokens, Negated(flags), k);
    assert refused == iset k: nat | NegationHasValue(r.tokens, flags, k);
    var second := CountOnce(first.reader, negated);
    SameBinding(first.reader.bindings, second, CountReply(r, def), FlagDefinitionId(negated),
                NegationPositions(r.tokens, flags), refused);
  }

  lemma SameBinding(bindings: Bindings, a: Reply, b: Reply, id: Id, ks: set<nat>, refused: iset<nat>)
    requires RefusesOrBinds(bindings, a, id, ks, refused) && a.reader == b.reader
    requires a.outcome.Failed? || b.outcome.Failed? ==> a.outcome == b.outcome
    ensures RefusesOrBinds(bindings, b, id, ks, refused)
  {
    if refused != iset{} {
      var k: nat :|
        k in refused && (forall j: nat :: j in refused ==> k <= j) && BindsNothing(bindings, a, Unexpected(k));
      assert BindsNothing(bindings, b, Unexpected(k));
    }
  }

  /** The parameter of the negation: that of the one flag `--no-name`, or of the list of the negations. */
  lemma NegationIsParameter(def: FlagDefinition)
    requires HasNegation(FlagsOf(def))
    ensures var id := FlagDefinitionId(NegatedDefinition(def));
      && id != FlagDefinitionId(def)
      && (def.One? ==> id == FlagId(NO + def.flag[2..]))
      && (def.Many? && (forall j :: 0 <= j < |def.flags| ==> DOUBLE_DASH <= def.flags[j]) ==>
            id == FlagsId(JoinIds(seq(|def.flags|, j requires 0 <= j < |def.flags| => NO + def.flags[j][2..]))))
  {
    NegatedExactlyIfAny(FlagsOf(def));
    ArgumentsRepeat.NegationIsAnother(def);
    if def.One? {
      assert NegateLong([def.flag][1..]) == [];
      assert Negated([def.flag]) == [NO + def.flag[2..]];
    }
    if def.Many? && forall j :: 0 <= j < |def.flags| ==> DOUBLE_DASH <= def.flags[j] {
      AllNegated(def.flags);
    }
  }

  lemma {:induction false} AllNegated(flags: seq<Text>)
    requires forall j :: 0 <= j < |flags| ==> DOUBLE_DASH <= flags[j]
    ensures NegateLong(flags) == seq(|flags|, j requires 0 <= j < |flags| => NO + flags[j][2..])
  {
    if flags != [] {
      AllNegated(flags[1..]);
    }
  }

  // ---------------------------------------------------------------- ranges

  /** The program's test of a conflict: neither of them ends where the other begins, or earlier. */
  predicate Overlap(a: Id, b: Id)
    requires a.RangeId? && b.RangeId?
  {
    && (a.to.Infinite? || a.to.n > b.from)
    && (b.to.Infinite? || b.to.n > a.from)
  }

  predicate IsFirstOverlap(r: Reader, id: Id, n: nat)
    requires id.RangeId?
  {
    && n < |r.ranges| && r.ranges[n].RangeId? && Overlap(r.ranges[n], id)
    && forall j :: 0 <= j < n && r.ranges[j].RangeId? ==> !Overlap(r.ranges[j], id)
  }

  /** Counted from behind the double dash, and the end from the end of the list if negative. */
  predicate IsInSlice(tokens: seq<Token>, from: nat, to: Bound, k: nat) {
    var base := DoubleDashAt(tokens) + 1;
    base + from <= k < |tokens| && (to.Finite? ==> k < EndOfSlice(|tokens|, base + to.n))
  }

  /** The tokens of a range: some of the positional values, or of what stands behind the double dash. */
  function RangePositions(r: Reader, from: nat, to: Bound): set<nat> {
    if DoubleDashAt(r.tokens) == |r.tokens| then
      set k: nat | k < |r.tokens| && IsPositional(r, k) && InSection(Rank(r, 0, k), from, to)
    else
      set k: nat | k < |r.tokens| && IsInSlice(r.tokens, from, to, k)
  }

  /** A range that is new must not overlap with one asked for before; after that its tokens are bound. */
  lemma RangeBinds(argv: seq<Text>, ops: seq<Op>, index: int, count: Bound)
    ensures var r := Run(argv, ops); var reply := Call(r, RangeOf(index, count));
      if index < 0 then BindsNothing(r.bindings, reply, BadDefinition)
      else
        var id := RangeId(index, if count.Infinite? then Infinite else Finite(index + count.n));
        && (forall n :: 0 <= n < |r.ranges| ==> r.ranges[n].RangeId?)
        && if id !in r.ranges && exists n: nat :: IsFirstOverlap(r, id, n) then
             exists n: nat ::
               IsFirstOverlap(r, id, n) && BindsNothing(r.bindings, reply, Conflict(r.ranges[n], id))
           else
             && BindsOrConflicts(r.bindings, reply, id, RangePositions(r, index, id.to))
             && reply.reader.ranges == if id in r.ranges then r.ranges else r.ranges + [id]
  {
    hide Tokenize, After, ValuesAfterDash, Inv, Bind, Singleton, PositionalAt, BindsOrConflicts, RangePositions;
    ReachedInv(argv, ops);
    var r := Run(argv, ops);
    if index >= 0 {
      var id := RangeId(index, EndOf(index, count));
      RangeMade(r, id);
      SingletonGood(r, id);
      if !Singleton(r, id).outcome.Failed? {
        RangeBound(r, Singleton(r, id).reader, id);
      }
    }
  }

  lemma RangeMade(r: Reader, id: Id)
    requires Inv(r) && id.RangeId?
    ensures forall n :: 0 <= n < |r.ranges| ==> r.ranges[n].RangeId?
    ensures var made := Singleton(r, id);
      if id !in r.ranges && exists n: nat :: IsFirstOverlap(r, id, n) then
        exists n: nat :: IsFirstOverlap(r, id, n) && made == Reply(r, Failed(Conflict(r.ranges[n], id)))
      else
        !made.outcome.Failed? && made.reader.ranges == if id in r.ranges then r.ranges else r.ranges + [id]
  {
    hide BindingsFit, ParamsFit;
    assert id in r.params <==> id in r.ranges;
    var n := FirstConflict(r.ranges, id);
    if n < |r.ranges| {
      assert IsFirstOverlap(r, id, n);
    }
  }

  lemma RangeBound(r: Reader, made: Reader, id: Id)
    requires Inv(made) && id.RangeId? && id in made.params && ValuesAfterDash(made.tokens)
    requires made.tokens == r.tokens && made.bindings == r.bindings
    ensures var args := PositionalAt(made, id.from, id.to);
      var reply := Bind(made, id, Positional, args, Values(args));
      && BindsOrConflicts(r.bindings, reply, id, RangePositions(r, id.from, id.to))
      && reply.reader.ranges == made.ranges
  {
    hide Inv, ValuesAfterDash, PositionalAt, IsPositional, Rank, BindsOrConflicts, InSection, BindAll;
    var args := PositionalAt(made, id.from, id.to);
    PositionalBindable(made, id.from, id.to);
    PositionalListed(made, id.from, id.to);
    SamePositions(made, r);
    forall k: nat ensures k in args <==> k in RangePositions(r, id.from, id.to) {
      PositionalInside(r, k);
    }
    assert Members(args) == RangePositions(r, id.from, id.to);
    BindsAllOrNone(made, id, Positional, args, Values(args));
  }

  lemma PositionalInside(r: Reader, k: nat)
    ensures IsPositional(r, k) ==> k < |r.tokens|
  {
  }

  // -------------------------------------------------------------- commands

  /** The first value that may be a command is bound, unless it is another command already. */
  lemma CommandBinds(argv: seq<Text>, ops: seq<Op>, level: nat, from: nat, commands: seq<Text>)
    ensures var r := Run(argv, ops); var reply := Call(r, Command(level, from, commands));
      var id := CommandId(level, JoinIds(commands));
      if commands == [] || level < 1 then BindsNothing(r.bindings, reply, BadDefinition)
      else if id !in r.commands && level != |r.commands| + 1 then BindsNothing(r.bindings, reply, BadLevel)
      else if exists k: nat :: IsFirstCommand(r, from, k) then
        exists k: nat :: IsFirstCommand(r, from, k) &&
          if r.tokens[k].content.value in commands then BindsOrConflicts(r.bindings, reply, id, {k})
          else BindsNothing(r.bindings, reply, UnexpectedCommand(k))
      else reply.outcome == NoCommand && reply.reader.bindings == r.bindings
  {
    hide Tokenize, After, ValuesAfterDash, Inv, Bind, Singleton, Section, Eligible, FirstAvailable, JoinIds, Rank;
    hide IsPositional, MayBeCommand, BindsOrConflicts;
    ReachedInv(argv, ops);
    var r := Run(argv, ops);
    if commands != [] && level >= 1 {
      var id := CommandId(level, JoinIds(commands));
      SingletonGood(r, id);
      CommandIsMade(r, id);
      if !Singleton(r, id).outcome.Failed? {
        var made := Singleton(r, id).reader;
        TakenIsFirst(made, from);
        EligibleBindable(made, from, Infinite);
        forall k: nat ensures MayBeCommand(made, from, k) == MayBeCommand(r, from, k) {
          SameCommands(made, r, from, k);
        }
        var args := Section(Eligible(made, 0), from, Infinite);
        var n := FirstAvailable(made, args);
        if n < |args| {
          assert IsFirstCommand(r, from, args[n]);
          CommandIsValue(r, from, args[n]);
          assert Members([args[n]]) == {args[n]};
          BindsAllOrNone(made, id, SubCommand, [args[n]], Sub(args[n], n));
        }
      }
    }
  }

  lemma CommandIsMade(r: Reader, id: Id)
    requires Inv(r) && id.CommandId?
    ensures Singleton(r, id).outcome.Failed? <==> id !in r.commands && id.level != |r.commands| + 1
    ensures Singleton(r, id).outcome.Failed? ==> Singleton(r, id) == Reply(r, Failed(BadLevel))
  {
    hide BindingsFit, ParamsFit;
    assert id in r.params <==> id in r.commands;
  }

  // ------------------------------------------------------------ parameters

  ghost predicate Unseparated(names: seq<Text>) {
    forall k :: 0 <= k < |names| ==> names[k] != [] && 0x200B !in names[k]
  }

  /** Two lists of names are the same parameter exactly if they are the same list, unless a name has U+200B in it. */
  lemma {:induction false} SameNamesExactly(a: seq<Text>, b: seq<Text>)
    requires Unseparated(a) && Unseparated(b)
    ensures JoinIds(a) == JoinIds(b) <==> a == b
  {
    if a != [] && b != [] && JoinIds(a) == JoinIds(b) {
      FirstName(a);
      FirstName(b);
      hide JoinIds;
      SameNamesExactly(a[1..], b[1..]);
      assert a == [a[0]] + a[1..] && b == [b[0]] + b[1..];
    }
  }

  /** The first name ends in front of the first separator, or at the end of the text. */
  lemma FirstName(names: seq<Text>)
    requires names != [] && Unseparated(names)
    ensures var text, n := JoinIds(names), |names[0]|;
      && n <= |text| && text[..n] == names[0]
      && (|names| == 1 ==> text == names[0] && JoinIds(names[1..]) == [])
      && (|names| > 1 ==> n + 2 <= |text| && text[n + 1] == 0x200B && text[n + 2..] == JoinIds(names[1..]))
      && forall k :: 0 <= k < |text| && k <= n ==> text[k] != 0x200B
  {
    if |names| > 1 {
      var rest := JoinIds(names[1..]);
      assert JoinIds(names) == names[0] + (ID_SEPARATOR + rest);
    }
  }
}
