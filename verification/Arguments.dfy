/**
 The reader as it runs: tokens bound to parameters in place, by the calls of a program.
 Every method is proved to do what `ArgumentsModel` says of its call.
 */
module Arguments {
  import opened CodeUnits
  import opened Tokenizer
  import opened Wrappers
  import opened ArgumentsModel
  import opened ArgumentsRuns
  import opened ArgumentsRepeat

  /** What is left to take from a list: after `from` more items, `count` of them, or all if that is negative. */
  function Take(list: seq<nat>, from: int, count: Bound): seq<nat> {
    var rest := list[if from <= 0 then 0 else if from <= |list| then from else |list|..];
    if count.Infinite? || count.n < 0 || count.n >= |rest| then rest else rest[..count.n]
  }

  function Less(count: Bound, from: int): Bound {
    if count.Finite? then Finite(count.n - from) else Infinite
  }

  lemma TakeSkip(list: seq<nat>, first: nat, from: int, count: Bound)
    requires from > 0
    ensures Take([first] + list, from, count) == Take(list, from - 1, count)
  {
    assert ([first] + list)[if from <= |list| + 1 then from else |list| + 1..] ==
        list[if from - 1 <= |list| then from - 1 else |list|..];
  }

  lemma TakeOne(list: seq<nat>, first: nat, from: int, count: Bound)
    requires from <= 0
    ensures Take([first] + list, from, count) ==
      if count == Finite(0) then [] else [first] + Take(list, from - 1, Less(count, 1))
  {
  }

  lemma TakeNone(from: int, count: Bound)
    ensures Take([], from, count) == []
  {
  }

  lemma EligibleFrom(r: Reader, k: nat)
    requires k <= |r.tokens|
    ensures Eligible(r, k) ==
      if k == |r.tokens| then []
      else if IsEligible(r, k) then [k] + Eligible(r, k + 1)
      else Eligible(r, k + 1)
  {
    hide IsEligible;
  }

  function Before(all: seq<nat>, values: seq<nat>, rest: Matched): Matched {
    match rest
    case Matched(more, others) => Matched(all + more, values + others)
    case Misplaced(_) => rest
  }

  lemma BeforeNothing(rest: Matched)
    ensures Before([], [], rest) == rest
  {
  }

  lemma BeforeMore(all: seq<nat>, values: seq<nat>, one: seq<nat>, value: nat, rest: Matched)
    ensures Before(all, values, More(one, value, rest)) == Before(all + one, values + [value], rest)
  {
  }

  /** One round of `matchOptionByFlags`, as it continues what has been found. */
  lemma OptionsFrom(tokens: seq<Token>, flags: seq<Text>, k: nat, all: seq<nat>, values: seq<nat>)
    requires k <= |tokens|
    ensures Before(all, values, MatchOptions(tokens, flags, k)) ==
      if k == |tokens| || tokens[k].content == DoubleDash then Matched(all, values)
      else if !IsMatch(tokens[k].content, flags) then Before(all, values, MatchOptions(tokens, flags, k + 1))
      else if tokens[k].content.Both? then Before(all + [k], values + [k], MatchOptions(tokens, flags, k + 1))
      else if k + 1 == |tokens| then Misplaced(k)
      else if !tokens[k + 1].content.Value? then Misplaced(k + 1)
      else Before(all + [k, k + 1], values + [k + 1], MatchOptions(tokens, flags, k + 1))
  {
    hide IsMatch, More;
    if k < |tokens| {
      BeforeMore(all, values, [k], k, MatchOptions(tokens, flags, k + 1));
      BeforeMore(all, values, [k, k + 1], k + 1, MatchOptions(tokens, flags, k + 1));
    }
  }

  lemma FlagsFrom(tokens: seq<Token>, flags: seq<Text>, k: nat, all: seq<nat>)
    requires k <= |tokens|
    ensures Before(all, all, MatchFlags(tokens, flags, k)) ==
      if k == |tokens| || tokens[k].content == DoubleDash then Matched(all, all)
      else if !IsMatch(tokens[k].content, flags) then Before(all, all, MatchFlags(tokens, flags, k + 1))
      else if tokens[k].content.Both? then Misplaced(k)
      else Before(all + [k], all + [k], MatchFlags(tokens, flags, k + 1))
  {
    hide IsMatch, More;
    if k < |tokens| {
      BeforeMore(all, all, [k], k, MatchFlags(tokens, flags, k + 1));
    }
  }

  /** Adding to a `Set`, in the order of insertion. */
  function Insert(items: seq<nat>, item: nat): seq<nat> {
    if item in items then items else items + [item]
  }

  lemma AppendTwo(list: seq<nat>, a: nat, b: nat)
    ensures list + [a] + [b] == list + [a, b]
  {
  }

  class ApplicationArguments {
    const tokens: seq<Token>
    var bindings: seq<Option<Id>>
    var params: map<Id, Param>
    var ranges: seq<Id>
    var commands: seq<Id>

    ghost function Model(): Reader
      reads this
    {
      Reader(tokens, bindings, params, ranges, commands)
    }

    constructor (argv: seq<Text>)
      ensures Model() == NewReader(argv) && Inv(Model()) && ValuesAfterDash(tokens)
    {
      hide Tokenize;
      var all := TokenizeArguments(argv);
      TokenizedValuesAfterDash(argv);
      tokens := all;
      bindings := seq(|all|, _ => None);
      params, ranges, commands := map[], [], [];
    }

    // ------------------------------------------------------------------ the holder

    method MakeSingleton(id: Id) returns (outcome: Outcome)
      modifies this
      ensures Reply(Model(), outcome) == Singleton(old(Model()), id)
    {
      if id in params {
        return Values([]);
      }
      if id.RangeId? {
        for k := 0 to |ranges|
          invariant FirstConflict(ranges, id) == k + FirstConflict(ranges[k..], id)
        {
          assert ranges[k..][1..] == ranges[k + 1..];
          if !Apart(id, ranges[k]) {
            return Failed(Conflict(ranges[k], id));
          }
        }
        ranges := ranges + [id];
      } else if id.CommandId? {
        if |commands| + 1 != id.level {
          return Failed(BadLevel);
        }
        commands := commands + [id];
      }
      params := params[id := Param(None, [])];
      return Values([]);
    }

    /** The two loops over the tokens: first the test of them all, then the binding.  To die ends the program. */
    method BindArgType(id: Id, kind: Kind, args: seq<nat>, success: Outcome) returns (outcome: Outcome)
      requires id in params && |bindings| == |tokens| && forall k :: 0 <= k < |args| ==> args[k] < |tokens|
      modifies this
      ensures outcome == Bind(old(Model()), id, kind, args, success).outcome
      ensures outcome != Failed(Death) ==> Model() == Bind(old(Model()), id, kind, args, success).reader
    {
      hide FirstClash, BindAll, HasDoubleDash;
      if params[id].kind.Some? && params[id].kind != Some(kind) {
        return Failed(Death);
      }
      var clash := FirstBoundElsewhere(id, args);
      if clash < |args| {
        return Failed(Conflict(bindings[args[clash]].value, id));
      }
      params := params[id := Param(Some(kind), args)];
      var died := BindTokens(id, args);
      return if died then Failed(Death) else success;
    }

    method FirstBoundElsewhere(id: Id, args: seq<nat>) returns (n: nat)
      requires |bindings| == |tokens| && forall k :: 0 <= k < |args| ==> args[k] < |tokens|
      ensures n == FirstClash(bindings, id, args)
    {
      n := 0;
      while n < |args|
        invariant n <= |args| && FirstClash(bindings, id, args) == n + FirstClash(bindings, id, args[n..])
      {
        assert args[n..][1..] == args[n + 1..];
        if bindings[args[n]].Some? && bindings[args[n]] != Some(id) {
          return;
        }
        n := n + 1;
      }
    }

    method BindTokens(id: Id, args: seq<nat>) returns (died: bool)
      requires |bindings| == |tokens| && forall k :: 0 <= k < |args| ==> args[k] < |tokens|
      modifies `bindings
      ensures died == HasDoubleDash(tokens, args)
      ensures !died ==> bindings == BindAll(old(bindings), id, args)
    {
      for k := 0 to |args|
        invariant |bindings| == |tokens|
        invariant forall j :: 0 <= j < k ==> tokens[args[j]].content != DoubleDash
        invariant forall t :: 0 <= t < |bindings| ==>
          bindings[t] == if t in args[..k] then Some(id) else old(bindings)[t]
      {
        assert args[..k + 1] == args[..k] + [args[k]];
        if tokens[args[k]].content == DoubleDash {
          return true;
        }
        bindings := bindings[args[k] := Some(id)];
      }
      assert args[..|args|] == args;
      return false;
    }

    // --------------------------------------------------------------- flags, options

    /** The tokens of the options, each once, and the values. */
    method MatchOptionByFlags(flags: seq<Text>) returns (matched: Matched)
      ensures matched == MatchOptions(tokens, flags, 0)
    {
      hide IsMatch, Before, More, MatchOptions;
      var all: seq<nat>, values: seq<nat> := [], [];
      BeforeNothing(MatchOptions(tokens, flags, 0));
      for k := 0 to |tokens|
        invariant MatchOptions(tokens, flags, 0) == Before(all, values, MatchOptions(tokens, flags, k))
        invariant forall t :: t in all ==> t < k || (t == k && k < |tokens| && tokens[k].content.Value?)
      {
        OptionsFrom(tokens, flags, k, all, values);
        if tokens[k].content == DoubleDash {
          return Matched(all, values);
        }
        if !IsMatch(tokens[k].content, flags) {
          continue;
        }
        MatchedHasFlag(tokens[k].content, flags);
        if tokens[k].content.Both? {
          all := Insert(all, k);
          values := values + [k];
        } else {
          if k + 1 == |tokens| {
            return Misplaced(k);
          }
          if !tokens[k + 1].content.Value? {
            return Misplaced(k + 1);
          }
          AppendTwo(all, k, k + 1);
          all := Insert(Insert(all, k), k + 1);
          values := values + [k + 1];
        }
      }
      OptionsFrom(tokens, flags, |tokens|, all, values);
      return Matched(all, values);
    }

    method MatchFlagByFlags(flags: seq<Text>) returns (matched: Matched)
      ensures matched == MatchFlags(tokens, flags, 0)
    {
      hide IsMatch, Before, More, MatchFlags;
      var all: seq<nat> := [];
      BeforeNothing(MatchFlags(tokens, flags, 0));
      for k := 0 to |tokens|
        invariant MatchFlags(tokens, flags, 0) == Before(all, all, MatchFlags(tokens, flags, k))
      {
        FlagsFrom(tokens, flags, k, all);
        if tokens[k].content == DoubleDash {
          return Matched(all, all);
        }
        if !IsMatch(tokens[k].content, flags) {
          continue;
        }
        if tokens[k].content.Both? {
          return Misplaced(k);
        }
        all := all + [k];
      }
      FlagsFrom(tokens, flags, |tokens|, all);
      return Matched(all, all);
    }

    method Multiple(def: FlagDefinition) returns (outcome: Outcome)
      requires Inv(Model())
      modifies this
      ensures Reply(Model(), outcome) == MatchValues(old(Model()), def)
    {
      hide Bind, Singleton, MatchOptions, IsDefinition, Inv;
      if !IsDefinition(def) {
        return Failed(BadDefinition);
      }
      var id := FlagDefinitionId(def);
      SingletonGood(Model(), id);
      outcome := MakeSingleton(id);
      var matched := MatchOptionByFlags(FlagsOf(def));
      if matched.Misplaced? {
        return Failed(Unexpected(matched.token));
      }
      if |matched.values| == 0 {
        return Values([]);
      }
      OptionsBindable(Model(), FlagsOf(def), 0);
      NeverFatal(Model(), id, matched.all, Values(matched.values));
      outcome := BindArgType(id, FlagKind, matched.all, Values(matched.values));
    }

    method Single(def: FlagDefinition) returns (outcome: Outcome)
      requires Inv(Model())
      modifies this
      ensures Reply(Model(), outcome) == OnlyOne(MatchValues(old(Model()), def))
    {
      hide MatchValues, Inv;
      outcome := Multiple(def);
      if outcome.Values? && |outcome.tokens| > 1 {
        outcome := Failed(Unexpected(outcome.tokens[1]));
      }
    }

    method NegatedFlags(flags: seq<Text>) returns (negated: seq<Text>)
      ensures negated == Negated(flags)
    {
      negated := [];
      for k := 0 to |flags|
        invariant forall j :: 0 <= j < k ==> !IsNegative(flags[j])
        invariant negated + NegateLong(flags[k..]) == NegateLong(flags)
      {
        assert flags[k..][1..] == flags[k + 1..];
        if IsNegative(flags[k]) {
          return [];
        }
        if IsLongFlag(flags[k]) {
          negated := negated + [NO + flags[k][2..]];
        }
      }
      assert flags[|flags|..] == [];
    }

    /** The flags bound and counted; the negations by a call of its own, which has none. */
    method Flag(def: FlagDefinition) returns (outcome: Outcome)
      requires Inv(Model())
      modifies this
      ensures Reply(Model(), outcome) == CountReply(old(Model()), def)
      decreases |Negated(FlagsOf(def))|
    {
      hide Bind, Singleton, MatchFlags, IsDefinition, Inv, Negated;
      if !IsDefinition(def) {
        return Failed(BadDefinition);
      }
      var id := FlagDefinitionId(def);
      CountOnceGood(Model(), def);
      SingletonGood(Model(), id);
      outcome := MakeSingleton(id);
      var matched := MatchFlagByFlags(FlagsOf(def));
      if matched.Misplaced? {
        return Failed(Unexpected(matched.token));
      }
      FlagsBindable(Model(), FlagsOf(def), 0);
      BindFails(Model(), id, FlagKind, matched.all, Count(|matched.all|));
      NeverFatal(Model(), id, matched.all, Count(|matched.all|));
      outcome := BindArgType(id, FlagKind, matched.all, Count(|matched.all|));
      if outcome.Failed? {
        return;
      }
      var negated := NegatedFlags(FlagsOf(def));
      if |negated| > 0 {
        var definition := if |negated| == 1 && def.One? then One(negated[0]) else Many(negated);
        NegationHasNone(def);
        var other := Flag(definition);
        outcome := if other.Count? then Count(outcome.count - other.count) else other;
      }
    }

    // -------------------------------------------------------------------- positions

    method ArgPositional(first: nat, to: Bound) returns (args: seq<nat>)
      ensures args == Section(Eligible(Model(), 0), first, to)
    {
      hide Section, Take, Eligible, IsEligible;
      ghost var r := Model();
      args := [];
      var from, count: Bound := first as int, Less(to, first);
      SectionIsTake(Eligible(r, 0), first, to);
      for k := 0 to |tokens|
        invariant Section(Eligible(r, 0), first, to) == args + Take(Eligible(r, k), from, count)
      {
        EligibleFrom(r, k);
        if !Usable(k) {
          continue;
        }
        from := from - 1;
        if from + 1 > 0 {
          TakeSkip(Eligible(r, k + 1), k, from + 1, count);
          continue;
        }
        TakeOne(Eligible(r, k + 1), k, from + 1, count);
        if count == Finite(0) {
          return;
        }
        count := Less(count, 1);
        args := args + [k];
      }
      TakeNone(from, count);
      EligibleFrom(r, |tokens|);
    }

    /** A value that is not bound to a flag. */
    predicate Usable(k: nat)
      requires k < |tokens|
      reads this
      ensures Usable(k) == IsEligible(Model(), k)
    {
      && tokens[k].content.Value? && k < |bindings|
      && (bindings[k].None?
          || (bindings[k].value in params
              && params[bindings[k].value].kind in {Some(Positional), Some(SubCommand)}))
    }

    method PositionalArguments(from: nat, to: Bound) returns (args: seq<nat>)
      ensures args == PositionalAt(Model(), from, to)
    {
      hide Section, Eligible;
      var doubleDash := DoubleDashAt(tokens);
      if doubleDash < |tokens| {
        args := Indexes(doubleDash + 1 + from, SliceEnd(|tokens|, EndOf(doubleDash + 1, to)));
      } else {
        args := ArgPositional(from, to);
      }
    }

    method Range(index: int, maxCount: Bound) returns (outcome: Outcome)
      requires Inv(Model()) && ValuesAfterDash(tokens)
      modifies this
      ensures Reply(Model(), outcome) == RangeReply(old(Model()), index, maxCount)
    {
      hide Bind, Singleton, PositionalAt, Inv, ValuesAfterDash;
      if index < 0 {
        return Failed(BadDefinition);
      }
      var id := RangeId(index, EndOf(index, maxCount));
      SingletonGood(Model(), id);
      outcome := MakeSingleton(id);
      if outcome.Failed? {
        return;
      }
      var args := PositionalArguments(index, id.to);
      PositionalBindable(Model(), index, id.to);
      NeverFatal(Model(), id, args, Values(args));
      outcome := BindArgType(id, Positional, args, Values(args));
    }

    // --------------------------------------------------------------------- commands

    method FirstFree(args: seq<nat>) returns (n: nat)
      ensures n == FirstAvailable(Model(), args)
    {
      hide IsAvailable;
      n := 0;
      while n < |args|
        invariant n <= |args| && FirstAvailable(Model(), args) == n + FirstAvailable(Model(), args[n..])
      {
        assert args[n..][1..] == args[n + 1..];
        if Free(args[n]) {
          return;
        }
        n := n + 1;
      }
    }

    predicate Free(token: nat)
      reads this
      ensures Free(token) == IsAvailable(Model(), token)
    {
      && token < |bindings|
      && (bindings[token].None?
          || (bindings[token].value in params && params[bindings[token].value].kind == Some(SubCommand)))
    }

    /** The command at a level, looked for after `from` positions. */
    method Command(level: nat, from: nat, names: seq<Text>) returns (outcome: Outcome)
      requires Inv(Model())
      modifies this
      ensures Reply(Model(), outcome) == CommandReply(old(Model()), level, from, names)
    {
      hide Bind, Singleton, Section, Eligible, Inv, FirstAvailable, JoinIds;
      if |names| == 0 || level < 1 {
        return Failed(BadDefinition);
      }
      var id := CommandId(level, JoinIds(names));
      SingletonGood(Model(), id);
      outcome := MakeSingleton(id);
      if outcome.Failed? {
        return;
      }
      var args := ArgPositional(from, Infinite);
      EligibleBindable(Model(), from, Infinite);
      var n := FirstFree(args);
      if n == |args| {
        return NoCommand;
      }
      if !IsAmong(tokens, args[n], names) {
        return Failed(UnexpectedCommand(args[n]));
      }
      NeverFatal(Model(), id, [args[n]], Sub(args[n], n));
      outcome := BindArgType(id, SubCommand, [args[n]], Sub(args[n], n));
    }

    /** What no parameter is bound to, but the double dash, as text. */
    method Unused() returns (unused: seq<Text>)
      requires |bindings| == |tokens|
      ensures unused == UnusedFrom(Model(), 0)
    {
      unused := [];
      for k := 0 to |tokens|
        invariant unused + UnusedFrom(Model(), k) == UnusedFrom(Model(), 0)
      {
        if tokens[k].content == DoubleDash || bindings[k].Some? {
          continue;
        }
        unused := unused + [PrintContent(tokens[k].content)];
      }
    }
  }

  function UnusedFrom(r: Reader, i: nat): seq<Text>
    requires i <= |r.tokens| == |r.bindings|
    decreases |r.tokens| - i
  {
    if i == |r.tokens| then []
    else if r.tokens[i].content == DoubleDash || r.bindings[i].Some? then UnusedFrom(r, i + 1)
    else [PrintContent(r.tokens[i].content)] + UnusedFrom(r, i + 1)
  }

  predicate IsLeftOver(r: Reader, k: nat) {
    k < |r.tokens| && k < |r.bindings| && r.tokens[k].content != DoubleDash && r.bindings[k].None?
  }

  ghost predicate Increasing(ks: seq<nat>) {
    forall i, j :: 0 <= i < j < |ks| ==> ks[i] < ks[j]
  }

  function LeftOverFrom(r: Reader, i: nat): (ks: seq<nat>)
    requires i <= |r.tokens|
    ensures Increasing(ks) && forall k :: k in ks <==> i <= k && IsLeftOver(r, k)
    ensures forall j :: 0 <= j < |ks| ==> ks[j] < |r.tokens|
    decreases |r.tokens| - i
  {
    if i == |r.tokens| then []
    else
      var rest := LeftOverFrom(r, i + 1);
      assert forall j :: 0 <= j < |rest| ==> rest[j] in rest;
      if IsLeftOver(r, i) then [i] + rest else rest
  }

  function TextsOf(tokens: seq<Token>, ks: seq<nat>): (texts: seq<Text>)
    requires forall j :: 0 <= j < |ks| ==> ks[j] < |tokens|
    ensures |texts| == |ks| && forall j :: 0 <= j < |texts| ==> texts[j] == PrintContent(tokens[ks[j]].content)
  {
    seq(|ks|, j requires 0 <= j < |ks| => PrintContent(tokens[ks[j]].content))
  }

  lemma TextsFrom(tokens: seq<Token>, k: nat, ks: seq<nat>)
    requires k < |tokens| && forall j :: 0 <= j < |ks| ==> ks[j] < |tokens|
    ensures TextsOf(tokens, [k] + ks) == [PrintContent(tokens[k].content)] + TextsOf(tokens, ks)
  {
    hide PrintContent;
  }

  /** No argument is lost: what is unused are the texts, in order, of exactly the tokens that nothing is bound to. */
  lemma {:induction false} UnusedExactly(r: Reader, i: nat)
    requires i <= |r.tokens| == |r.bindings|
    ensures UnusedFrom(r, i) == TextsOf(r.tokens, LeftOverFrom(r, i))
    decreases |r.tokens| - i
  {
    hide PrintContent, TextsOf;
    if i < |r.tokens| {
      UnusedExactly(r, i + 1);
      if IsLeftOver(r, i) {
        TextsFrom(r.tokens, i, LeftOverFrom(r, i + 1));
      }
    }
  }

  /** The calls of the reader ask for tokens that can be bound, as what the parameter is. */
  lemma NeverFatal(r: Reader, id: Id, args: seq<nat>, success: Outcome)
    requires Inv(r) && id in r.params && Bindable(r, args) && success != Failed(Death)
    ensures |r.bindings| == |r.tokens| && forall k :: 0 <= k < |args| ==> args[k] < |r.tokens|
    ensures Bind(r, id, KindOf(id), args, success).outcome != Failed(Death)
  {
    hide Bind;
    BindIs(r, id, KindOf(id), args, success);
  }

  lemma MatchedHasFlag(c: Content, flags: seq<Text>)
    requires IsMatch(c, flags)
    ensures c.Flag? || c.Both?
  {
  }

  lemma SectionIsTake(list: seq<nat>, from: nat, to: Bound)
    ensures Section(list, from, to) == Take(list, from, Less(to, from))
  {
  }

  lemma NegationHasNone(def: FlagDefinition)
    requires Negated(FlagsOf(def)) != []
    ensures Negated(FlagsOf(NegatedDefinition(def))) == []
  {
    var negated := Negated(FlagsOf(def));
    assert IsNegative(negated[0]);
    assert FlagsOf(NegatedDefinition(def)) == negated;
  }
}
