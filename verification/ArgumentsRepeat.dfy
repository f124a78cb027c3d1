/**
 Repeated calls and failed calls of the reader.
 */
module ArgumentsRepeat {
  import opened CodeUnits
  import opened Tokenizer
  import opened Wrappers
  import opened ArgumentsModel
  import opened ArgumentsRuns

  // ------------------------------------------------------------------ failed calls

  lemma BindFails(r: Reader, id: Id, kind: Kind, args: seq<nat>, outcome: Outcome)
    ensures var reply := Bind(r, id, kind, args, outcome);
      reply.outcome == outcome || (reply.reader == r && reply.outcome.Failed?)
  {
    hide BindAll, FirstClash;
  }

  lemma MatchValuesFails(r: Reader, def: FlagDefinition)
    ensures var reply := MatchValues(r, def); reply.outcome.Failed? ==> reply.reader.bindings == r.bindings
  {
    hide MatchOptions, IsDefinition, Bind, Singleton;
    if IsDefinition(def) {
      var id := FlagDefinitionId(def);
      var made := Singleton(r, id).reader;
      SingletonBindsNothing(r, id);
      match MatchOptions(r.tokens, FlagsOf(def), 0)
      case Misplaced(_) =>
      case Matched(all, values) => BindFails(made, id, FlagKind, all, Values(values));
    }
  }

  lemma SingletonBindsNothing(r: Reader, id: Id)
    ensures Singleton(r, id).reader.bindings == r.bindings
  {
  }

  lemma CountOnceFails(r: Reader, def: FlagDefinition)
    ensures var reply := CountOnce(r, def); reply.outcome.Failed? ==> reply.reader.bindings == r.bindings
  {
    hide MatchFlags, IsDefinition, Bind, Singleton;
    if IsDefinition(def) {
      var id := FlagDefinitionId(def);
      var made := Singleton(r, id).reader;
      SingletonBindsNothing(r, id);
      match MatchFlags(r.tokens, FlagsOf(def), 0)
      case Misplaced(_) =>
      case Matched(all, _) => BindFails(made, id, FlagKind, all, Count(|all|));
    }
  }

  lemma RangeFails(r: Reader, index: int, count: Bound)
    ensures var reply := RangeReply(r, index, count); reply.outcome.Failed? ==> reply.reader.bindings == r.bindings
  {
    hide Bind, Singleton, PositionalAt;
    if index >= 0 {
      var id := RangeId(index, EndOf(index, count));
      var made := Singleton(r, id);
      SingletonBindsNothing(r, id);
      var args := PositionalAt(made.reader, index, id.to);
      BindFails(made.reader, id, Positional, args, Values(args));
    }
  }

  lemma CommandFails(r: Reader, level: nat, from: nat, commands: seq<Text>)
    ensures var reply := CommandReply(r, level, from, commands);
      reply.outcome.Failed? ==> reply.reader.bindings == r.bindings
  {
    hide Bind, Singleton, Section, Eligible, FirstAvailable, JoinIds;
    if commands != [] && level >= 1 {
      var id := CommandId(level, JoinIds(commands));
      var made := Singleton(r, id).reader;
      SingletonBindsNothing(r, id);
      var args := Section(Eligible(made, 0), from, Infinite);
      var n := FirstAvailable(made, args);
      if n < |args| {
        BindFails(made, id, SubCommand, [args[n]], Sub(args[n], n));
      }
    }
  }

  /**
   What a failed call leaves bound: nothing new, but what `single` bound before it found too many values,
   and what `flag` bound before its negation failed.
   */
  function LeftBound(r: Reader, op: Op): seq<Option<Id>> {
    match op
    case Single(def) => if MatchValues(r, def).outcome.Failed? then r.bindings else MatchValues(r, def).reader.bindings
    case CountFlag(def) => if CountOnce(r, def).outcome.Failed? then r.bindings else CountOnce(r, def).reader.bindings
    case _ => r.bindings
  }

  /** In particular a conflict over a token leaves all bindings as they are, except for a negated `flag`. */
  lemma FailedCallsBindNothing(r: Reader, op: Op)
    requires Call(r, op).outcome.Failed?
    ensures Call(r, op).reader.bindings == LeftBound(r, op)
    ensures Call(r, op).outcome.error.Conflict? && !op.CountFlag? ==> Call(r, op).reader.bindings == r.bindings
  {
    hide MatchValues, CountOnce, RangeReply, CommandReply, Negated, NegatedDefinition, FlagsOf;
    match op
    case Single(def) => MatchValuesFails(r, def);
    case Multiple(def) => MatchValuesFails(r, def);
    case CountFlag(def) =>
      CountOnceFails(r, def);
      CountOnceFails(CountOnce(r, def).reader, NegatedDefinition(def));
    case At(index) => RangeFails(r, index, Finite(1));
    case RangeOf(index, count) => RangeFails(r, index, count);
    case Command(level, from, commands) => CommandFails(r, level, from, commands);
  }

  /** `--a`, `--no-a`, and these with the value `1`. */
  const FLAG_A: Text := DOUBLE_DASH + [97]
  const NO_A: Text := NO + [97]
  const A_ONE: Text := FLAG_A + [EQUALS, 49]
  const NO_A_ONE: Text := NO_A + [EQUALS, 49]

  lemma LongFlags()
    ensures MatchFlag(FLAG_A) == Long([97], None) && MatchFlag(NO_A) == Long([110, 111, 45, 97], None)
    ensures MatchFlag(A_ONE) == Long([97], Some([49])) && MatchFlag(NO_A_ONE) == Long([110, 111, 45, 97], Some([49]))
    ensures TestFlag(FLAG_A) && TestFlag(NO_A)
  {
    hide MatchFlag;
    LongExactly(FLAG_A, [97], None);
    LongExactly(NO_A, [110, 111, 45, 97], None);
    LongExactly(A_ONE, [97], Some([49]));
    LongExactly(NO_A_ONE, [110, 111, 45, 97], Some([49]));
  }

  lemma TwoArguments(p: Text, q: Text)
    requires MatchFlag(p).Long? && MatchFlag(q).Long? && p != DOUBLE_DASH && q != DOUBLE_DASH
    ensures Tokenize([p, q]) == [Token(ContentOf(p), 0, 2), Token(ContentOf(q), 1, 2)]
  {
    hide MatchFlag, ContentOf;
    var argv := [p, q];
    assert argv[1..] == [q] && argv[2..] == [];
    assert IndexOf(argv, DOUBLE_DASH) == 2;
    assert argv[..2] == argv;
    assert Explode(p) == [p] && Explode(q) == [q];
    assert ExplodeAll([q]) == [q];
  }

  lemma MatchTwoOptions(tokens: seq<Token>, flags: seq<Text>)
    requires |tokens| == 2 && forall k :: 0 <= k < 2 ==> tokens[k].content.Both? && IsMatch(tokens[k].content, flags)
    ensures MatchOptions(tokens, flags, 0) == Matched([0, 1], [0, 1])
  {
    hide IsMatch;
    assert MatchOptions(tokens, flags, 1) == Matched([1], [1]);
  }

  lemma MatchOneFlag(tokens: seq<Token>, flags: seq<Text>)
    requires |tokens| == 2 && tokens[0].content.Flag? && tokens[1].content.Both?
    requires IsMatch(tokens[0].content, flags) != IsMatch(tokens[1].content, flags)
    ensures MatchFlags(tokens, flags, 0) ==
      if IsMatch(tokens[0].content, flags) then Matched([0], [0]) else Misplaced(1)
  {
    hide IsMatch;
    assert MatchFlags(tokens, flags, 2) == Matched([], []);
  }

  lemma SingleTokens()
    ensures var tokens := Tokenize([A_ONE, A_ONE]);
      && |tokens| == 2 && tokens[0].content != DoubleDash && tokens[1].content != DoubleDash
      && MatchOptions(tokens, [FLAG_A], 0) == Matched([0, 1], [0, 1])
    ensures IsDefinition(One(FLAG_A))
  {
    LongFlags();
    TwoArguments(A_ONE, A_ONE);
    hide MatchFlag, Tokenize, TestFlag;
    var tokens := Tokenize([A_ONE, A_ONE]);
    assert FlagText(tokens[0].content) == FLAG_A;
    MatchTwoOptions(tokens, [FLAG_A]);
  }

  /** With `--a=1 --a=1`, `single` throws, and both tokens are bound. */
  lemma SingleBindsTooMany()
    ensures var reply := Call(NewReader([A_ONE, A_ONE]), Single(One(FLAG_A)));
      && reply.outcome == Failed(Unexpected(1))
      && reply.reader.bindings == [Some(FlagId(FLAG_A)), Some(FlagId(FLAG_A))]
  {
    SingleTokens();
    hide Tokenize, IsDefinition, MatchOptions;
    var reply := MatchValues(NewReader([A_ONE, A_ONE]), One(FLAG_A));
    assert reply.outcome == Values([0, 1]);
  }

  lemma NegatedTokens()
    ensures var tokens := Tokenize([FLAG_A, NO_A_ONE]);
      && |tokens| == 2 && tokens[0].content != DoubleDash
      && MatchFlags(tokens, [FLAG_A], 0) == Matched([0], [0]) && MatchFlags(tokens, [NO_A], 0) == Misplaced(1)
  {
    LongFlags();
    TwoArguments(FLAG_A, NO_A_ONE);
    hide MatchFlag, Tokenize, TestFlag;
    var tokens := Tokenize([FLAG_A, NO_A_ONE]);
    assert FlagText(tokens[0].content) == FLAG_A && FlagText(tokens[1].content) == NO_A;
    assert FLAG_A != NO_A;
    MatchOneFlag(tokens, [FLAG_A]);
    MatchOneFlag(tokens, [NO_A]);
  }

  lemma NegationOfA()
    ensures IsDefinition(One(FLAG_A)) && IsDefinition(One(NO_A))
    ensures Negated([FLAG_A]) == [NO_A] && NegatedDefinition(One(FLAG_A)) == One(NO_A)
  {
    LongFlags();
    hide MatchFlag, TestFlag;
    assert NegateLong([FLAG_A]) == [NO_A];
  }

  /** With `--a --no-a=1`, `flag` throws because of the negation, and `--a` is bound. */
  lemma FlagBindsBeforeNegation()
    ensures var reply := Call(NewReader([FLAG_A, NO_A_ONE]), CountFlag(One(FLAG_A)));
      && reply.outcome == Failed(Unexpected(1))
      && reply.reader.bindings == [Some(FlagId(FLAG_A)), None]
  {
    NegatedTokens();
    NegationOfA();
    hide Tokenize, IsDefinition, Negated, NegatedDefinition, MatchFlags;
    var r := NewReader([FLAG_A, NO_A_ONE]);
    var first := CountOnce(r, One(FLAG_A));
    assert first.outcome == Count(1) && first.reader.tokens == r.tokens;
    assert first.reader.bindings == [Some(FlagId(FLAG_A)), None];
  }

  // ---------------------------------------------------------------- repeated calls

  /** All that a call about `id` binds is bound, and listed. */
  ghost predicate Settled(r: Reader, id: Id, kind: Kind, args: seq<nat>) {
    id in r.params && r.params[id] == Param(Some(kind), args) && AllBoundTo(r, id, args) && Bindable(r, args)
  }

  lemma BindAgain(r: Reader, id: Id, kind: Kind, args: seq<nat>, outcome: Outcome)
    requires Settled(r, id, kind, args)
    ensures Bind(r, id, kind, args, outcome) == Reply(r, outcome)
  {
    var bound := BindAll(r.bindings, id, args);
    forall k | 0 <= k < |r.bindings| ensures bound[k] == r.bindings[k] {
      if k in args {
        var j :| 0 <= j < |args| && args[j] == k;
        assert r.bindings[args[j]] == Some(id);
      }
    }
    assert bound == r.bindings;
    assert r.params[id := Param(Some(kind), args)] == r.params;
  }

  lemma BindSettles(r: Reader, id: Id, args: seq<nat>, outcome: Outcome)
    requires Inv(r) && id in r.params && Bindable(r, args)
    ensures var after := Bind(r, id, KindOf(id), args, outcome);
      !after.outcome.Failed? ==>
        && after == Reply(Rebound(r, id, KindOf(id), args), outcome) && NoClash(r, id, args)
        && Settled(after.reader, id, KindOf(id), args) && after.reader.tokens == r.tokens
  {
    hide Bind, BindAll;
    BindIs(r, id, KindOf(id), args, outcome);
    if NoClash(r, id, args) {
      ReboundGood(r, id, args);
    }
  }

  lemma MatchValuesAgain(r: Reader, def: FlagDefinition)
    requires Inv(r)
    ensures !MatchValues(r, def).outcome.Failed? ==> MatchValues(MatchValues(r, def).reader, def) == MatchValues(r, def)
  {
    hide Bind, MatchOptions, IsDefinition, Inv;
    var id := FlagDefinitionId(def);
    SingletonGood(r, id);
    var made := Singleton(r, id).reader;
    var m := MatchOptions(r.tokens, FlagsOf(def), 0);
    if !MatchValues(r, def).outcome.Failed? && m.values != [] {
      OptionsBindable(made, FlagsOf(def), 0);
      BindSettles(made, id, m.all, Values(m.values));
      BindAgain(MatchValues(r, def).reader, id, FlagKind, m.all, Values(m.values));
    }
  }

  /** What a successful count leaves. */
  ghost predicate CountSettled(r: Reader, def: FlagDefinition, after: Reader, count: int) {
    var m := MatchFlags(r.tokens, FlagsOf(def), 0);
    && Inv(after) && IsDefinition(def) && m.Matched? && count == |m.all| && after.tokens == r.tokens
    && Settled(after, FlagDefinitionId(def), FlagKind, m.all)
    && (forall id :: id in r.params && id != FlagDefinitionId(def) ==>
          id in after.params && after.params[id] == r.params[id])
  }

  lemma CountOnceSettles(r: Reader, def: FlagDefinition)
    requires Inv(r)
    ensures var reply := CountOnce(r, def);
      !reply.outcome.Failed? ==> reply.outcome.Count? && CountSettled(r, def, reply.reader, reply.outcome.count)
  {
    hide Bind, MatchFlags, IsDefinition, Inv;
    CountOnceGood(r, def);
    var id := FlagDefinitionId(def);
    SingletonGood(r, id);
    var made := Singleton(r, id).reader;
    var m := MatchFlags(r.tokens, FlagsOf(def), 0);
    if !CountOnce(r, def).outcome.Failed? {
      FlagsBindable(made, FlagsOf(def), 0);
      BindSettles(made, id, m.all, Count(|m.all|));
    }
  }

  lemma CountOnceAgain(r: Reader, def: FlagDefinition, matched: Matched)
    requires IsDefinition(def) && matched.Matched? && Settled(r, FlagDefinitionId(def), FlagKind, matched.all)
    ensures MatchFlags(r.tokens, FlagsOf(def), 0) == matched ==> CountOnce(r, def) == Reply(r, Count(|matched.all|))
  {
    hide Bind, MatchFlags, IsDefinition;
    BindAgain(r, FlagDefinitionId(def), FlagKind, matched.all, Count(|matched.all|));
  }

  lemma {:induction false} JoinStarts(flags: seq<Text>)
    requires flags != []
    ensures flags[0] <= JoinIds(flags)
    ensures |flags| > 1 ==> |JoinIds(flags)| > |flags[0]| && JoinIds(flags)[|flags[0]|] == 124
    ensures |flags| == 1 ==> JoinIds(flags) == flags[0]
  {
  }

  /** A flag and its negation are never the same parameter. */
  lemma NegationIsAnother(def: FlagDefinition)
    requires Negated(FlagsOf(def)) != []
    ensures FlagDefinitionId(NegatedDefinition(def)) != FlagDefinitionId(def)
  {
    var flags, negated := FlagsOf(def), Negated(FlagsOf(def));
    assert IsNegative(negated[0]);
    assert !IsNegative(flags[0]);
    if def.Many? {
      JoinStarts(flags);
      JoinStarts(negated);
    }
  }

  lemma CountAgain(r: Reader, def: FlagDefinition)
    requires Inv(r)
    ensures !CountReply(r, def).outcome.Failed? ==> CountReply(CountReply(r, def).reader, def) == CountReply(r, def)
  {
    hide CountOnce, MatchFlags, IsDefinition, Inv, Negated, NegatedDefinition, FlagDefinitionId, FlagsOf;
    if !CountReply(r, def).outcome.Failed? {
      var first := CountOnce(r, def);
      CountOnceSettles(r, def);
      var matched := MatchFlags(r.tokens, FlagsOf(def), 0);
      if Negated(FlagsOf(def)) == [] {
        CountOnceAgain(first.reader, def, matched);
      } else {
        var negated := NegatedDefinition(def);
        var second := CountOnce(first.reader, negated);
        CountOnceSettles(first.reader, negated);
        CountOnceGood(first.reader, negated);
        NegationIsAnother(def);
        CountOnceAgain(second.reader, def, matched);
        CountOnceAgain(second.reader, negated, MatchFlags(r.tokens, FlagsOf(negated), 0));
      }
    }
  }

  lemma {:induction false} SameEligible(a: Reader, b: Reader, i: nat)
    requires a.tokens == b.tokens && i <= |a.tokens| && forall k: nat :: IsEligible(a, k) <==> IsEligible(b, k)
    ensures Eligible(a, i) == Eligible(b, i)
    decreases |a.tokens| - i
  {
    hide IsEligible;
    if i < |a.tokens| {
      SameEligible(a, b, i + 1);
    }
  }

  /** Binding eligible tokens to a range or a command keeps them eligible, and the others not. */
  lemma EligibleStay(r: Reader, id: Id, args: seq<nat>)
    requires Inv(r) && id in r.params && KindOf(id) != FlagKind && NoClash(r, id, args)
    requires forall k :: k in args ==> k < |r.tokens| && r.tokens[k].content.Value?
    ensures Eligible(Rebound(r, id, KindOf(id), args), 0) == Eligible(r, 0)
  {
    var s := Rebound(r, id, KindOf(id), args);
    forall k: nat ensures IsEligible(r, k) <==> IsEligible(s, k) {
      EligibleStays(r, id, args, k);
    }
    SameEligible(r, s, 0);
  }

  lemma EligibleStays(r: Reader, id: Id, args: seq<nat>, k: nat)
    requires Inv(r) && id in r.params && KindOf(id) != FlagKind && NoClash(r, id, args)
    requires k in args ==> k < |r.tokens| && r.tokens[k].content.Value?
    ensures IsEligible(r, k) <==> IsEligible(Rebound(r, id, KindOf(id), args), k)
  {
    if k < |r.bindings| && r.bindings[k].Some? {
      assert r.bindings[k].value in r.params && r.params[r.bindings[k].value].kind == Some(KindOf(r.bindings[k].value));
    }
  }

  lemma EligibleValues(r: Reader, from: nat, to: Bound)
    ensures forall k :: k in Section(Eligible(r, 0), from, to) ==> k < |r.tokens| && r.tokens[k].content.Value?
  {
    var list := Eligible(r, 0);
    EligibleAre(r, 0);
    SectionIn(list, from, to);
    hide Section, Eligible;
    forall k | k in Section(list, from, to) ensures k < |r.tokens| && r.tokens[k].content.Value? {
      assert k in list;
      var j :| 0 <= j < |list| && list[j] == k;
      assert IsEligible(r, list[j]);
    }
  }

  lemma PositionsStay(r: Reader, id: Id, to: Bound)
    requires Inv(r) && id in r.params && id.RangeId?
    ensures var args := PositionalAt(r, id.from, to);
      NoClash(r, id, args) ==> PositionalAt(Rebound(r, id, Positional, args), id.from, to) == args
  {
    hide Section, Eligible, Inv, Indexes, SliceEnd;
    var args := PositionalAt(r, id.from, to);
    if NoClash(r, id, args) && DoubleDashAt(r.tokens) == |r.tokens| {
      EligibleValues(r, id.from, to);
      EligibleStay(r, id, args);
    }
  }

  lemma RangeAgain(r: Reader, index: int, count: Bound)
    requires Inv(r) && ValuesAfterDash(r.tokens)
    ensures !RangeReply(r, index, count).outcome.Failed? ==>
      RangeReply(RangeReply(r, index, count).reader, index, count) == RangeReply(r, index, count)
  {
    hide Bind, PositionalAt, Inv, ValuesAfterDash;
    if RangeReply(r, index, count).outcome.Failed? {
      return;
    }
    var id := RangeId(index, EndOf(index, count));
    SingletonGood(r, id);
    var made := Singleton(r, id).reader;
    var args := PositionalAt(made, index, id.to);
    PositionalBindable(made, index, id.to);
    BindSettles(made, id, args, Values(args));
    PositionsStay(made, id, id.to);
    BindAgain(RangeReply(r, index, count).reader, id, Positional, args, Values(args));
  }

  /** The token that was taken is still the first one to take. */
  lemma AvailableStays(r: Reader, id: Id, args: seq<nat>, taken: nat)
    requires Inv(r) && id in r.params && id.CommandId? && taken < |r.tokens|
    ensures var n := FirstAvailable(r, args);
      n < |args| && args[n] == taken ==> FirstAvailable(Rebound(r, id, SubCommand, [taken]), args) == n
  {
    var n := FirstAvailable(r, args);
    if n < |args| && args[n] == taken {
      var s := Rebound(r, id, SubCommand, [taken]);
      forall k | 0 <= k < n ensures !IsAvailable(s, args[k]) {
        UnavailableStays(r, id, taken, args[k]);
      }
      assert taken in [taken];
      hide FirstAvailable;
    }
  }

  lemma UnavailableStays(r: Reader, id: Id, taken: nat, token: nat)
    requires Inv(r) && id in r.params && id.CommandId? && IsAvailable(r, taken) && !IsAvailable(r, token)
    ensures !IsAvailable(Rebound(r, id, SubCommand, [taken]), token)
  {
    if token < |r.bindings| && r.bindings[token].Some? {
      assert r.bindings[token].value in r.params;
    }
  }

  lemma CommandAgain(r: Reader, level: nat, from: nat, commands: seq<Text>)
    requires Inv(r)
    ensures !CommandReply(r, level, from, commands).outcome.Failed? ==>
      CommandReply(CommandReply(r, level, from, commands).reader, level, from, commands) ==
        CommandReply(r, level, from, commands)
  {
    hide Bind, Section, Eligible, Inv, FirstAvailable, JoinIds, IsAmong, Rebound;
    if CommandReply(r, level, from, commands).outcome.Failed? {
      return;
    }
    var id := CommandId(level, JoinIds(commands));
    SingletonGood(r, id);
    var made := Singleton(r, id).reader;
    var args := Section(Eligible(made, 0), from, Infinite);
    var n := FirstAvailable(made, args);
    EligibleBindable(made, from, Infinite);
    EligibleValues(made, from, Infinite);
    if n < |args| {
      TakenAgain(made, id, args, n, from);
      BindAgain(CommandReply(r, level, from, commands).reader, id, SubCommand, [args[n]], Sub(args[n], n));
    }
  }

  lemma TakenAgain(made: Reader, id: Id, args: seq<nat>, n: nat, from: nat)
    requires Inv(made) && id in made.params && id.CommandId? && n < |args|
    ensures var after := Rebound(made, id, SubCommand, [args[n]]);
      var bound := Bind(made, id, SubCommand, [args[n]], Sub(args[n], n));
      args == Section(Eligible(made, 0), from, Infinite) && n == FirstAvailable(made, args)
      && !bound.outcome.Failed? ==>
        && bound == Reply(after, Sub(args[n], n))
        && Section(Eligible(after, 0), from, Infinite) == args
        && FirstAvailable(after, args) == n && after.tokens == made.tokens
        && Settled(after, id, SubCommand, [args[n]])
  {
    hide Bind, Section, Eligible, Inv, FirstAvailable;
    if args == Section(Eligible(made, 0), from, Infinite) && n == FirstAvailable(made, args)
       && !Bind(made, id, SubCommand, [args[n]], Sub(args[n], n)).outcome.Failed? {
      EligibleBindable(made, from, Infinite);
      EligibleValues(made, from, Infinite);
      assert args[n] in args;
      BindSettles(made, id, [args[n]], Sub(args[n], n));
      EligibleStay(made, id, [args[n]]);
      AvailableStays(made, id, args, args[n]);
    }
  }

  ghost predicate RepeatsItself(r: Reader, op: Op) {
    var reply := Call(r, op);
    reply.outcome.Failed? || Call(reply.reader, op) == reply
  }

  /** A call that succeeds, made again at once, gives the same and changes nothing. */
  lemma RepeatedCallIsSame(argv: seq<Text>, ops: seq<Op>, op: Op)
    ensures RepeatsItself(Run(argv, ops), op)
  {
    hide Tokenize, MatchValues, CountReply, RangeReply, CommandReply, Inv, ValuesAfterDash;
    ReachedInv(argv, ops);
    var r := Run(argv, ops);
    if !Call(r, op).outcome.Failed? {
      match op
      case Single(def) => MatchValuesAgain(r, def);
      case Multiple(def) => MatchValuesAgain(r, def);
      case CountFlag(def) => CountAgain(r, def);
      case At(index) => RangeAgain(r, index, Finite(1));
      case RangeOf(index, count) => RangeAgain(r, index, count);
      case Command(level, from, commands) => CommandAgain(r, level, from, commands);
    }
  }
}
