/**
 What holds after every sequence of calls of the reader, those that throw included.
 */
module ArgumentsRuns {
  import opened CodeUnits
  import opened Tokenizer
  import opened Wrappers
  import opened ArgumentsModel

  function KindOf(id: Id): Kind {
    match id
    case RangeId(_, _) => Positional
    case CommandId(_, _) => SubCommand
    case _ => FlagKind
  }

  ghost predicate BindingsFit(r: Reader) {
    && |r.bindings| == |r.tokens|
    && (forall k :: 0 <= k < |r.bindings| && r.bindings[k].Some? ==>
          && r.tokens[k].content != DoubleDash
          && r.bindings[k].value in r.params && r.params[r.bindings[k].value].kind == Some(KindOf(r.bindings[k].value)))
  }

  ghost predicate Listed(r: Reader, id: Id)
    requires id in r.params
  {
    forall k :: 0 <= k < |r.params[id].listed| ==>
      r.params[id].listed[k] < |r.bindings| && r.bindings[r.params[id].listed[k]] == Some(id)
  }

  ghost predicate ParamsFit(r: Reader) {
    forall id :: id in r.params ==> (r.params[id].kind.Some? ==> r.params[id].kind.value == KindOf(id)) && Listed(r, id)
  }

  ghost predicate HolderFits(r: Reader) {
    && (forall i :: 0 <= i < |r.ranges| ==> r.ranges[i].RangeId? && r.ranges[i] in r.params)
    && (forall i, j :: 0 <= i < j < |r.ranges| ==> Apart(r.ranges[i], r.ranges[j]))
    && (forall i :: 0 <= i < |r.commands| ==>
          r.commands[i].CommandId? && r.commands[i].level == i + 1 && r.commands[i] in r.params)
    && (forall id :: id in r.params && id.RangeId? ==> id in r.ranges)
    && (forall id :: id in r.params && id.CommandId? ==> id in r.commands)
  }

  ghost predicate Inv(r: Reader) {
    BindingsFit(r) && ParamsFit(r) && HolderFits(r)
  }

  /** The same tokens, and every binding kept. */
  ghost predicate Extends(a: Reader, b: Reader) {
    && a.tokens == b.tokens && |a.bindings| == |b.bindings|
    && (forall k :: 0 <= k < |a.bindings| && a.bindings[k].Some? ==> b.bindings[k] == a.bindings[k])
  }

  ghost predicate AllBoundTo(r: Reader, id: Id, args: seq<nat>) {
    forall k :: 0 <= k < |args| ==> args[k] < |r.bindings| && r.bindings[args[k]] == Some(id)
  }

  /** What every call does: it keeps all that, binds nothing anew, never dies, and hands out what it has bound. */
  ghost predicate Good(r: Reader, reply: Reply, id: Id) {
    && Inv(reply.reader) && Extends(r, reply.reader) && reply.outcome != Failed(Death)
    && AllBoundTo(reply.reader, id, HandedOut(reply.outcome))
  }

  // -------------------------------------------------------------- holder, binding

  lemma {:induction false} ApartCommutes(a: Id, b: Id)
    ensures Apart(a, b) == Apart(b, a)
  {
  }

  lemma CreatedParams(r: Reader, made: Reader, id: Id)
    requires BindingsFit(r) && ParamsFit(r) && id !in r.params
    requires made.tokens == r.tokens && made.bindings == r.bindings && made.params == r.params[id := Param(None, [])]
    ensures BindingsFit(made) && ParamsFit(made)
  {
    forall other | other in made.params ensures Listed(made, other) {
      if other != id {
        assert Listed(r, other);
      }
    }
  }

  lemma SingletonGood(r: Reader, id: Id)
    requires Inv(r)
    ensures var made := Singleton(r, id);
      && Inv(made.reader) && made.reader.tokens == r.tokens && made.reader.bindings == r.bindings
      && made.outcome != Failed(Death) && HandedOut(made.outcome) == []
      && (made.outcome.Failed? ==> made.reader == r) && (!made.outcome.Failed? ==> id in made.reader.params)
      && (id.FlagId? || id.FlagsId? ==> !made.outcome.Failed?)
  {
    hide Apart, BindingsFit, ParamsFit;
    var made := Singleton(r, id).reader;
    if made != r {
      CreatedParams(r, made, id);
      if id.RangeId? {
        forall i | 0 <= i < |r.ranges| ensures Apart(r.ranges[i], id) {
          ApartCommutes(id, r.ranges[i]);
        }
      }
    }
  }

  ghost predicate Bindable(r: Reader, args: seq<nat>) {
    forall k :: 0 <= k < |args| ==> args[k] < |r.tokens| && r.tokens[args[k]].content != DoubleDash
  }

  /** No token of the list is bound to anything else. */
  ghost predicate NoClash(r: Reader, id: Id, args: seq<nat>) {
    forall token :: token in args && token < |r.bindings| ==> r.bindings[token].None? || r.bindings[token] == Some(id)
  }

  function Rebound(r: Reader, id: Id, kind: Kind, args: seq<nat>): Reader {
    r.(params := r.params[id := Param(Some(kind), args)], bindings := BindAll(r.bindings, id, args))
  }

  lemma ReboundGood(r: Reader, id: Id, args: seq<nat>)
    requires Inv(r) && id in r.params && Bindable(r, args) && NoClash(r, id, args)
    ensures Inv(Rebound(r, id, KindOf(id), args)) && Extends(r, Rebound(r, id, KindOf(id), args))
    ensures AllBoundTo(Rebound(r, id, KindOf(id), args), id, args)
  {
    var s := Rebound(r, id, KindOf(id), args);
    forall k | 0 <= k < |args| ensures args[k] < |s.bindings| && s.bindings[args[k]] == Some(id) {
      assert args[k] in args;
    }
    forall other | other in s.params ensures Listed(s, other) {
      if other != id {
        assert Listed(r, other);
        forall k | 0 <= k < |s.params[other].listed| ensures s.bindings[s.params[other].listed[k]] == Some(other) {
          ListedNotTaken(r, id, other, args, k);
        }
      }
    }
  }

  lemma ListedNotTaken(r: Reader, id: Id, other: Id, args: seq<nat>, k: nat)
    requires other in r.params && Listed(r, other) && k < |r.params[other].listed|
      && id != other && NoClash(r, id, args)
    ensures r.params[other].listed[k] !in args
  {
  }

  lemma BindIs(r: Reader, id: Id, kind: Kind, args: seq<nat>, outcome: Outcome)
    requires Inv(r) && id in r.params && Bindable(r, args) && kind == KindOf(id)
    ensures var reply := Bind(r, id, kind, args, outcome);
      if NoClash(r, id, args) then reply == Reply(Rebound(r, id, kind, args), outcome)
      else reply.reader == r && reply.outcome.Failed? && reply.outcome.error.Conflict?
  {
    hide BindAll;
    assert ParamsFit(r);
    assert r.params[id].kind.Some? ==> r.params[id].kind.value == KindOf(id);
    var n := FirstClash(r.bindings, id, args);
    if n < |args| {
      assert !NoClash(r, id, args);
    }
  }

  lemma BindGood(r: Reader, id: Id, kind: Kind, args: seq<nat>, outcome: Outcome)
    requires Inv(r) && id in r.params && Bindable(r, args) && kind == KindOf(id)
    requires outcome != Failed(Death) && forall t :: t in HandedOut(outcome) ==> t in args
    ensures Good(r, Bind(r, id, kind, args, outcome), id)
  {
    hide Bind, BindAll;
    BindIs(r, id, kind, args, outcome);
    if NoClash(r, id, args) {
      ReboundGood(r, id, args);
      var s := Rebound(r, id, kind, args);
      var handed := HandedOut(outcome);
      forall k | 0 <= k < |handed| ensures handed[k] < |s.bindings| && s.bindings[handed[k]] == Some(id) {
        assert handed[k] in args;
        var j :| 0 <= j < |args| && args[j] == handed[k];
      }
    }
  }

  // ------------------------------------------------------------- each of the calls

  lemma {:induction false} OptionsBindable(r: Reader, flags: seq<Text>, i: nat)
    requires i <= |r.tokens| && MatchOptions(r.tokens, flags, i).Matched?
    ensures var m := MatchOptions(r.tokens, flags, i); Bindable(r, m.all) && forall t :: t in m.values ==> t in m.all
    decreases |r.tokens| - i
  {
    if i < |r.tokens| && r.tokens[i].content != DoubleDash {
      OptionsBindable(r, flags, i + 1);
    }
  }

  lemma {:induction false} FlagsBindable(r: Reader, flags: seq<Text>, i: nat)
    requires i <= |r.tokens| && MatchFlags(r.tokens, flags, i).Matched?
    ensures Bindable(r, MatchFlags(r.tokens, flags, i).all)
    decreases |r.tokens| - i
  {
    if i < |r.tokens| && r.tokens[i].content != DoubleDash {
      FlagsBindable(r, flags, i + 1);
    }
  }

  lemma MatchValuesGood(r: Reader, def: FlagDefinition)
    requires Inv(r)
    ensures Good(r, MatchValues(r, def), FlagDefinitionId(def))
      && Good(r, OnlyOne(MatchValues(r, def)), FlagDefinitionId(def))
  {
    hide Bind, Singleton, MatchOptions, Inv, IsDefinition;
    if IsDefinition(def) {
      var id := FlagDefinitionId(def);
      SingletonGood(r, id);
      var made := Singleton(r, id).reader;
      match MatchOptions(r.tokens, FlagsOf(def), 0)
      case Misplaced(_) =>
      case Matched(all, values) =>
        OptionsBindable(made, FlagsOf(def), 0);
        BindGood(made, id, FlagKind, all, Values(values));
    }
  }

  lemma CountOnceGood(r: Reader, def: FlagDefinition)
    requires Inv(r)
    ensures Good(r, CountOnce(r, def), FlagDefinitionId(def))
  {
    hide Bind, Singleton, MatchFlags, Inv, IsDefinition;
    if IsDefinition(def) {
      var id := FlagDefinitionId(def);
      SingletonGood(r, id);
      var made := Singleton(r, id).reader;
      match MatchFlags(r.tokens, FlagsOf(def), 0)
      case Misplaced(_) =>
      case Matched(all, _) =>
        FlagsBindable(made, FlagsOf(def), 0);
        BindGood(made, id, FlagKind, all, Count(|all|));
    }
  }

  lemma CountOnceHandsOutNothing(r: Reader, def: FlagDefinition)
    ensures HandedOut(CountOnce(r, def).outcome) == []
  {
    hide MatchFlags, IsDefinition, Singleton;
  }

  lemma CountReplyGood(r: Reader, def: FlagDefinition)
    requires Inv(r)
    ensures Good(r, CountReply(r, def), FlagDefinitionId(def))
  {
    hide CountOnce, Inv, Negated, NegatedDefinition, FlagDefinitionId;
    var first := CountOnce(r, def);
    CountOnceGood(r, def);
    CountOnceGood(first.reader, NegatedDefinition(def));
    CountOnceHandsOutNothing(first.reader, NegatedDefinition(def));
  }

  lemma {:induction false} EligibleAre(r: Reader, i: nat)
    requires i <= |r.tokens|
    ensures forall k :: 0 <= k < |Eligible(r, i)| ==> IsEligible(r, Eligible(r, i)[k])
    decreases |r.tokens| - i
  {
    if i < |r.tokens| {
      EligibleAre(r, i + 1);
    }
  }

  lemma SectionIn(list: seq<nat>, from: nat, to: Bound)
    ensures forall k :: 0 <= k < |Section(list, from, to)| ==> Section(list, from, to)[k] in list
  {
  }

  lemma EligibleBindable(r: Reader, from: nat, to: Bound)
    ensures Bindable(r, Section(Eligible(r, 0), from, to))
  {
    var list := Eligible(r, 0);
    EligibleAre(r, 0);
    SectionIn(list, from, to);
    hide Section, Eligible;
    var args := Section(list, from, to);
    forall k | 0 <= k < |args| ensures args[k] < |r.tokens| && r.tokens[args[k]].content != DoubleDash {
      assert args[k] in list;
      var j :| 0 <= j < |list| && list[j] == args[k];
      assert IsEligible(r, list[j]);
    }
  }

  /** What a tokenized command line has after the double dash: values only. */
  ghost predicate ValuesAfterDash(tokens: seq<Token>) {
    forall k :: DoubleDashAt(tokens) < k < |tokens| ==> tokens[k].content.Value?
  }

  lemma PositionalBindable(r: Reader, from: nat, to: Bound)
    requires ValuesAfterDash(r.tokens)
    ensures Bindable(r, PositionalAt(r, from, to))
  {
    hide Section, Eligible;
    EligibleBindable(r, from, to);
  }

  lemma RangeGood(r: Reader, index: int, count: Bound)
    requires Inv(r) && ValuesAfterDash(r.tokens)
    ensures index >= 0 ==> Good(r, RangeReply(r, index, count), RangeId(index, EndOf(index, count)))
    ensures index < 0 ==> RangeReply(r, index, count) == Reply(r, Failed(BadDefinition))
  {
    hide Bind, Singleton, PositionalAt, Inv;
    if index >= 0 {
      var id := RangeId(index, EndOf(index, count));
      SingletonGood(r, id);
      var made := Singleton(r, id);
      if !made.outcome.Failed? {
        PositionalBindable(made.reader, index, id.to);
        var args := PositionalAt(made.reader, index, id.to);
        BindGood(made.reader, id, Positional, args, Values(args));
      }
    }
  }

  lemma CommandGood(r: Reader, level: nat, from: nat, commands: seq<Text>)
    requires Inv(r)
    ensures Good(r, CommandReply(r, level, from, commands), CommandId(level, JoinIds(commands)))
  {
    hide Bind, Singleton, Section, Eligible, Inv, FirstAvailable, JoinIds;
    if commands != [] && level >= 1 {
      var id := CommandId(level, JoinIds(commands));
      SingletonGood(r, id);
      var made := Singleton(r, id);
      if !made.outcome.Failed? {
        EligibleBindable(made.reader, from, Infinite);
        var args := Section(Eligible(made.reader, 0), from, Infinite);
        var n := FirstAvailable(made.reader, args);
        if n < |args| {
          BindGood(made.reader, id, SubCommand, [args[n]], Sub(args[n], n));
        }
      }
    }
  }

  lemma CallGood(r: Reader, op: Op)
    requires Inv(r) && ValuesAfterDash(r.tokens)
    ensures Good(r, Call(r, op), IdOf(op))
  {
    hide MatchValues, CountReply, RangeReply, CommandReply, FlagDefinitionId, JoinIds, ValuesAfterDash, Inv;
    match op
    case Single(def) => MatchValuesGood(r, def);
    case Multiple(def) => MatchValuesGood(r, def);
    case CountFlag(def) => CountReplyGood(r, def);
    case At(index) => RangeGood(r, index, Finite(1));
    case RangeOf(index, count) => RangeGood(r, index, count);
    case Command(level, from, commands) => CommandGood(r, level, from, commands);
  }

  // ------------------------------------------------------------------------ runs

  lemma TokenizedValuesAfterDash(argv: seq<Text>)
    ensures ValuesAfterDash(Tokenize(argv))
  {
    var tokens := Tokenize(argv);
    forall k | DoubleDashAt(tokens) < k < |tokens| ensures tokens[k].content.Value? {
      IndexesAreOwn(argv, DoubleDashAt(tokens));
      IndexesAreOwn(argv, k);
    }
  }

  function Run(argv: seq<Text>, ops: seq<Op>): Reader {
    After(NewReader(argv), ops)
  }

  lemma {:induction false} ReachedInv(argv: seq<Text>, ops: seq<Op>)
    ensures Inv(Run(argv, ops)) && Run(argv, ops).tokens == Tokenize(argv) && ValuesAfterDash(Run(argv, ops).tokens)
  {
    hide Call, Tokenize;
    TokenizedValuesAfterDash(argv);
    if ops != [] {
      ReachedInv(argv, ops[..|ops| - 1]);
      CallGood(Run(argv, ops[..|ops| - 1]), ops[|ops| - 1]);
    }
  }

  /** In every run, a binding never changes once it is set. */
  lemma {:induction false} BindingsAreForever(argv: seq<Text>, ops: seq<Op>, i: nat)
    requires i <= |ops|
    ensures Extends(Run(argv, ops[..i]), Run(argv, ops))
    decreases |ops|
  {
    hide Call, Tokenize;
    if i < |ops| {
      var before := ops[..|ops| - 1];
      assert before[..i] == ops[..i];
      BindingsAreForever(argv, before, i);
      ReachedInv(argv, before);
      CallGood(Run(argv, before), ops[|ops| - 1]);
    } else {
      assert ops[..i] == ops;
    }
  }

  ghost predicate ListFits(r: Reader, id: Id, k: nat) {
    id in r.params && k < |r.params[id].listed| ==>
      r.params[id].listed[k] < |r.bindings| && r.bindings[r.params[id].listed[k]] == Some(id)
  }

  ghost predicate BindingFits(r: Reader, id: Id, k: nat) {
    k < |r.bindings| && r.bindings[k] == Some(id) ==>
      id in r.params && r.params[id].kind == Some(KindOf(id)) && k < |r.tokens| && r.tokens[k].content != DoubleDash
  }

  /**
   Every token in a parameter's list is bound to that parameter, and a bound one is bound to a
   registered parameter.
   */
  lemma ListsAreBound(argv: seq<Text>, ops: seq<Op>, id: Id, k: nat)
    ensures ListFits(Run(argv, ops), id, k) && BindingFits(Run(argv, ops), id, k)
  {
    hide Call, Tokenize;
    ReachedInv(argv, ops);
    if id in Run(argv, ops).params {
      assert Listed(Run(argv, ops), id);
    }
  }

  ghost predicate InRange(id: Id, position: int) {
    id.RangeId? && id.from <= position && !AtMost(id.to, position)
  }

  /** No position is in two registered ranges, and the levels of commands are registered one after the other. */
  lemma RangesAreDisjoint(argv: seq<Text>, ops: seq<Op>, a: Id, b: Id, position: int)
    ensures var r := Run(argv, ops);
      && (a in r.params && b in r.params && InRange(a, position) && InRange(b, position) ==> a == b)
      && (a in r.params && b in r.params && a.CommandId? && b.CommandId? && a.level == b.level ==> a == b)
      && (a in r.params && a.CommandId? ==> 1 <= a.level <= |r.commands|)
  {
    hide Call, Tokenize;
    ReachedInv(argv, ops);
    var r := Run(argv, ops);
    if a in r.params && b in r.params && InRange(a, position) && InRange(b, position) {
      var i: nat, j: nat :| i < |r.ranges| && j < |r.ranges| && r.ranges[i] == a && r.ranges[j] == b;
    }
  }

  function ReplyAt(argv: seq<Text>, ops: seq<Op>, i: nat): Reply
    requires i < |ops|
  {
    Call(Run(argv, ops[..i]), ops[i])
  }

  /** The `i`-th call hands out this token. */
  ghost predicate HandsOut(argv: seq<Text>, ops: seq<Op>, i: nat, token: nat) {
    i < |ops| && token in HandedOut(ReplyAt(argv, ops, i).outcome)
  }

  /** No call of any run dies of a defect, and what it hands out stays bound to its parameter. */
  lemma NeverDies(argv: seq<Text>, ops: seq<Op>, i: nat, token: nat)
    requires i < |ops|
    ensures ReplyAt(argv, ops, i).outcome != Failed(Death)
    ensures HandsOut(argv, ops, i, token) ==>
      token < |Run(argv, ops).bindings| && Run(argv, ops).bindings[token] == Some(IdOf(ops[i]))
  {
    hide Call, Tokenize, IdOf, Inv;
    ReachedInv(argv, ops[..i]);
    CallGood(Run(argv, ops[..i]), ops[i]);
    if HandsOut(argv, ops, i, token) {
      BindingsAreForever(argv, ops, i + 1);
      assert ops[..i + 1][..i] == ops[..i];
      var handed := HandedOut(ReplyAt(argv, ops, i).outcome);
      var k :| 0 <= k < |handed| && handed[k] == token;
    }
  }

  /** In no run is one token handed out for two parameters. */
  lemma NoTokenForTwo(argv: seq<Text>, ops: seq<Op>, i: nat, j: nat, token: nat)
    ensures HandsOut(argv, ops, i, token) && HandsOut(argv, ops, j, token) ==> IdOf(ops[i]) == IdOf(ops[j])
  {
    hide Call, Tokenize, IdOf, Inv, HandedOut;
    if HandsOut(argv, ops, i, token) && HandsOut(argv, ops, j, token) {
      NeverDies(argv, ops, i, token);
      NeverDies(argv, ops, j, token);
    }
  }
}
