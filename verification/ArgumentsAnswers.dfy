/**
 What the calls of the reader answer, from the tokens.
 */
module ArgumentsAnswers {
  import opened CodeUnits
  import opened Tokenizer
  import opened Wrappers
  import opened ArgumentsModel
  import opened ArgumentsRuns
  import FiniteSets

  function Printed(tokens: seq<Token>, k: nat): Text
    requires k < |tokens|
  {
    PrintContent(tokens[k].content)
  }

  /** The positions before the double dash at which a token, printed, is one of the flags. */
  function FlagPositions(tokens: seq<Token>, flags: seq<Text>): set<nat> {
    set k: nat | k < DoubleDashAt(tokens) && Printed(tokens, k) in flags
  }

  /** `--no-` and the rest of one of the long flags; there are none if one of the flags begins with `--no-`. */
  predicate IsNegationOf(text: Text, flags: seq<Text>) {
    && (forall j :: 0 <= j < |flags| ==> !(NO <= flags[j]))
    && exists j :: 0 <= j < |flags| && DOUBLE_DASH <= flags[j] && text == NO + flags[j][2..]
  }

  function NegationPositions(tokens: seq<Token>, flags: seq<Text>): set<nat> {
    set k: nat | k < DoubleDashAt(tokens) && IsNegationOf(Printed(tokens, k), flags)
  }

  // ---------------------------------------------------------------- flags

  /** The positions from `i` on at which a flag matches. */
  function MatchPositions(tokens: seq<Token>, flags: seq<Text>, i: nat): set<nat> {
    set k: nat | i <= k < DoubleDashAt(tokens) && IsMatch(tokens[k].content, flags)
  }

  lemma DashFrom(tokens: seq<Token>, i: nat)
    requires i <= DoubleDashAt(tokens)
    ensures i < |tokens| ==> (tokens[i].content == DoubleDash <==> i == DoubleDashAt(tokens))
  {
  }

  lemma {:induction false} FlagsMatched(tokens: seq<Token>, flags: seq<Text>, i: nat)
    requires i <= DoubleDashAt(tokens)
    ensures var m := MatchFlags(tokens, flags, i);
      && (m.Matched? ==> |m.all| == |MatchPositions(tokens, flags, i)|)
      && (m.Matched? ==> forall k :: k in MatchPositions(tokens, flags, i) ==> tokens[k].content.Flag?)
      && (m.Misplaced? ==> m.token in MatchPositions(tokens, flags, i) && tokens[m.token].content.Both?)
      && (m.Misplaced? ==>
            forall k :: k in MatchPositions(tokens, flags, i) && k < m.token ==> tokens[k].content.Flag?)
    decreases |tokens| - i
  {
    hide IsMatch, DoubleDashAt;
    DashFrom(tokens, i);
    if i == DoubleDashAt(tokens) {
      assert MatchPositions(tokens, flags, i) == {};
    } else {
      FlagsMatched(tokens, flags, i + 1);
      MatchesFrom(tokens, flags, i);
      hide MatchPositions;
      if IsMatch(tokens[i].content, flags) {
        MatchIsFlag(tokens[i].content, flags);
      }
    }
  }

  lemma MatchesFrom(tokens: seq<Token>, flags: seq<Text>, i: nat)
    requires i < DoubleDashAt(tokens)
    ensures var here, later := MatchPositions(tokens, flags, i), MatchPositions(tokens, flags, i + 1);
      && here == (if IsMatch(tokens[i].content, flags) then later + {i} else later)
      && (forall k :: k in later ==> i < k) && i !in later
  {
    hide IsMatch, DoubleDashAt;
  }

  lemma MatchIsFlag(c: Content, flags: seq<Text>)
    requires IsMatch(c, flags)
    ensures c.Flag? || c.Both?
  {
  }

  lemma FlagIsNotPlain(flag: Text)
    requires TestFlag(flag)
    ensures !IsPlain(flag) && EQUALS !in flag
  {
    hide MatchFlag;
    PlainIfNoMatch(flag);
    if !(|flag| > 1 && flag[1] == DASH) && EQUALS in flag {
      match MatchFlag(flag)
      case Short(flags, value) => ShortExactly(flag, flags, value);
      case Long(name, value) => LongExactly(flag, name, value);
    }
  }

  ghost predicate AllFlags(flags: seq<Text>) {
    forall j :: 0 <= j < |flags| ==> TestFlag(flags[j])
  }

  lemma BothHasEquals(c: Content)
    requires c.Both?
    ensures EQUALS in PrintContent(c)
  {
    var start := (if c.short then [DASH] else DOUBLE_DASH) + c.name;
    assert PrintContent(c)[|start|] == EQUALS;
  }

  /** For what comes from the command line, a flag matches exactly if it is printed as one of the flags. */
  lemma MatchIsPrinted(p: Text, c: Content, flags: seq<Text>)
    requires Says(p, c) && AllFlags(flags) && c != DoubleDash
    ensures IsMatch(c, flags) && c.Flag? <==> PrintContent(c) in flags
  {
    hide TestFlag;
    if PrintContent(c) in flags {
      var j :| 0 <= j < |flags| && flags[j] == PrintContent(c);
      FlagIsNotPlain(flags[j]);
      if c.Both? {
        BothHasEquals(c);
      } else if c.Value? {
        ValueIsPlain(p, c);
      }
    }
  }

  lemma ValueIsPlain(p: Text, c: Content)
    requires Says(p, c) && c.Value?
    ensures IsPlain(p) && c.value == p
  {
    if !IsPlain(p) {
      var name: Text, value: Option<Text> :| IsLong(p, name, value) || IsShort(p, name, value);
    }
  }

  lemma MatchesArePrinted(argv: seq<Text>, flags: seq<Text>, k: nat)
    requires AllFlags(flags) && k < DoubleDashAt(Tokenize(argv))
    ensures var c := Tokenize(argv)[k].content; IsMatch(c, flags) && c.Flag? <==> PrintContent(c) in flags
  {
    hide Tokenize, Says, IsMatch, AllFlags, PrintContent;
    TokensSayArguments(argv, k);
    SaysBeforeDash(argv, k);
    MatchIsPrinted(ExplodeAll(Params(argv))[k], Tokenize(argv)[k].content, flags);
  }

  lemma SaysBeforeDash(argv: seq<Text>, k: nat)
    requires k < DoubleDashAt(Tokenize(argv))
    ensures k < |ExplodeAll(Params(argv))| && Says(ExplodeAll(Params(argv))[k], Tokenize(argv)[k].content)
  {
    hide Says, ExplodeAll, Params, Extras, ContentOf;
    var total := |ExplodeAll(Params(argv))|;
    if total < |Tokenize(argv)| {
      TokensSayArguments(argv, total);
    }
    TokensSayArguments(argv, k);
  }

  lemma FlagsCounted(argv: seq<Text>, flags: seq<Text>)
    requires AllFlags(flags)
    ensures var m := MatchFlags(Tokenize(argv), flags, 0);
      m.Matched? ==> |m.all| == |FlagPositions(Tokenize(argv), flags)|
  {
    hide Tokenize, IsMatch, MatchFlags, DoubleDashAt, AllFlags, PrintContent;
    var tokens := Tokenize(argv);
    FlagsMatched(tokens, flags, 0);
    if MatchFlags(tokens, flags, 0).Matched? {
      forall k: nat | k < DoubleDashAt(tokens)
        ensures IsMatch(tokens[k].content, flags) <==> Printed(tokens, k) in flags
      {
        MatchesArePrinted(argv, flags, k);
        if IsMatch(tokens[k].content, flags) {
          assert k in MatchPositions(tokens, flags, 0);
        }
      }
      assert MatchPositions(tokens, flags, 0) == FlagPositions(tokens, flags);
    }
  }

  lemma {:induction false} NegationsAre(flags: seq<Text>, text: Text)
    ensures text in NegateLong(flags) <==>
      exists j :: 0 <= j < |flags| && DOUBLE_DASH <= flags[j] && text == NO + flags[j][2..]
  {
    if flags != [] {
      NegationsAre(flags[1..], text);
      assert forall j :: 0 <= j < |flags| - 1 ==> flags[1..][j] == flags[j + 1];
      assert forall j :: 0 < j < |flags| ==> flags[j] == flags[1..][j - 1];
    }
  }

  lemma NegatedExactly(flags: seq<Text>, text: Text)
    ensures text in Negated(flags) <==> IsNegationOf(text, flags)
  {
    NegationsAre(flags, text);
  }

  lemma CountOnceCounts(argv: seq<Text>, r: Reader, def: FlagDefinition)
    requires r.tokens == Tokenize(argv)
    ensures var reply := CountOnce(r, def);
      && reply.reader.tokens == r.tokens
      && (!reply.outcome.Failed? ==> reply.outcome == Count(|FlagPositions(r.tokens, FlagsOf(def))|))
  {
    hide Tokenize, MatchFlags, FlagPositions, TestFlag, BindAll, FirstClash, HasDoubleDash;
    if IsDefinition(def) {
      FlagsCounted(argv, FlagsOf(def));
    }
  }

  /**
   The number that `flag` answers: how many tokens before the double dash are one of the flags, less how
   many are the negation of one.
   */
  lemma FlagAnswer(argv: seq<Text>, ops: seq<Op>, def: FlagDefinition)
    ensures var r := Run(argv, ops); var outcome := Call(r, CountFlag(def)).outcome; var flags := FlagsOf(def);
      && r.tokens == Tokenize(argv)
      && (!outcome.Failed? ==>
            outcome == Count(|FlagPositions(r.tokens, flags)| - |NegationPositions(r.tokens, flags)|))
  {
    hide Tokenize, After, CountOnce, FlagPositions, Negated, Printed, IsNegationOf, ValuesAfterDash, Inv;
    ReachedInv(argv, ops);
    var r := Run(argv, ops);
    CountOnceCounts(argv, r, def);
    CountOnceCounts(argv, CountOnce(r, def).reader, NegatedDefinition(def));
    NegationsCounted(r.tokens, FlagsOf(def), NegatedDefinition(def));
    NegationFlags(def);
  }

  lemma NegationFlags(def: FlagDefinition)
    ensures FlagsOf(NegatedDefinition(def)) == Negated(FlagsOf(def))
  {
  }

  lemma NegationsCounted(tokens: seq<Token>, flags: seq<Text>, negated: FlagDefinition)
    ensures NegationPositions(tokens, flags) == FlagPositions(tokens, Negated(flags))
    ensures Negated(flags) == [] ==> NegationPositions(tokens, flags) == {}
  {
    hide Printed, IsNegationOf, Negated, DoubleDashAt;
    forall k: nat | k < DoubleDashAt(tokens)
      ensures Printed(tokens, k) in Negated(flags) <==> IsNegationOf(Printed(tokens, k), flags)
    {
      NegatedExactly(flags, Printed(tokens, k));
    }
  }

  // -------------------------------------------------------------- refusals

  /** A name for a flag: `--name`, or `-` and one unit. */
  lemma FlagNamesExactly(flag: Text)
    ensures TestFlag(flag) <==>
      (exists name: Text :: IsLong(flag, name, None)) || (exists unit: CodeUnit :: IsShort(flag, [unit], None))
  {
    hide MatchFlag;
    if TestFlag(flag) {
      match MatchFlag(flag)
      case Long(name, value) =>
        LongExactly(flag, name, value);
        assert value == None;
      case Short(flags, value) =>
        ShortExactly(flag, flags, value);
        assert flags == [flags[0]] && value == None;
    }
    if name: Text :| IsLong(flag, name, None) {
      LongExactly(flag, name, None);
    } else if unit: CodeUnit :| IsShort(flag, [unit], None) {
      ShortExactly(flag, [unit], None);
    }
  }

  /** One of the flags stands here, with a value of its own. */
  ghost predicate HasValue(tokens: seq<Token>, flags: seq<Text>, k: nat)
    requires k < |tokens|
  {
    && tokens[k].content.Both?
    && exists j :: 0 <= j < |flags| && Printed(tokens, k) == flags[j] + [EQUALS] + tokens[k].content.value
  }

  lemma BothMatches(tokens: seq<Token>, flags: seq<Text>, k: nat)
    requires k < |tokens|
    ensures IsMatch(tokens[k].content, flags) && tokens[k].content.Both? <==> HasValue(tokens, flags, k)
  {
    var c := tokens[k].content;
    if c.Both? {
      assert PrintContent(c) == FlagText(c) + [EQUALS] + c.value;
      forall j | 0 <= j < |flags|
        ensures PrintContent(c) == flags[j] + [EQUALS] + c.value <==> flags[j] == FlagText(c)
      {
        SameEnd(FlagText(c), flags[j], [EQUALS] + c.value);
        assert FlagText(c) + [EQUALS] + c.value == FlagText(c) + ([EQUALS] + c.value);
        assert flags[j] + [EQUALS] + c.value == flags[j] + ([EQUALS] + c.value);
      }
    }
  }

  lemma SameEnd(a: Text, b: Text, end: Text)
    ensures a + end == b + end <==> a == b
  {
    if a + end == b + end {
      assert |a| == |b|;
      assert a == (a + end)[..|a|] && b == (b + end)[..|b|];
    }
  }

  /** `flag` refuses the first token that gives one of the flags a value, before it binds anything. */
  lemma FlagRefusesValue(r: Reader, def: FlagDefinition, k: nat)
    requires IsDefinition(def) && k < DoubleDashAt(r.tokens) && HasValue(r.tokens, FlagsOf(def), k)
    requires forall j :: 0 <= j < k ==> !HasValue(r.tokens, FlagsOf(def), j)
    ensures Call(r, CountFlag(def)).outcome == Failed(Unexpected(k))
    ensures Call(r, CountFlag(def)).reader.bindings == r.bindings
  {
    hide IsDefinition, HasValue, IsMatch, DoubleDashAt, MatchFlags, Bind, Singleton;
    var tokens, flags := r.tokens, FlagsOf(def);
    var m := MatchFlags(tokens, flags, 0);
    FlagsMatched(tokens, flags, 0);
    BothMatches(tokens, flags, k);
    assert k in MatchPositions(tokens, flags, 0);
    if m.Misplaced? {
      BothMatches(tokens, flags, m.token);
    }
    KeepsBindings(r, FlagDefinitionId(def));
  }

  lemma KeepsBindings(r: Reader, id: Id)
    ensures Singleton(r, id).reader.bindings == r.bindings
  {
  }

  // --------------------------------------------------------------- options

  /** One of the flags stands here, and nothing behind it that could be its value. */
  predicate LacksValue(tokens: seq<Token>, flags: seq<Text>, k: nat)
    requires k < |tokens|
  {
    tokens[k].content.Flag? && IsMatch(tokens[k].content, flags) && (k + 1 == |tokens| || !tokens[k + 1].content.Value?)
  }

  /** Token `v` is the value of an option at or behind position `i`. */
  predicate IsValueFrom(tokens: seq<Token>, flags: seq<Text>, i: nat, v: nat) {
    && v < DoubleDashAt(tokens)
    && ((i <= v && tokens[v].content.Both? && IsMatch(tokens[v].content, flags))
        || (i < v && tokens[v - 1].content.Flag? && IsMatch(tokens[v - 1].content, flags)))
  }

  ghost predicate Ascending(ks: seq<nat>) {
    forall i, j :: 0 <= i < j < |ks| ==> ks[i] < ks[j]
  }

  ghost predicate Lists(tokens: seq<Token>, flags: seq<Text>, i: nat, values: seq<nat>) {
    Ascending(values) && forall v :: v in values <==> IsValueFrom(tokens, flags, i, v)
  }

  /** The first position at which a value is missing, and the token that is unexpected then. */
  ghost predicate Unexpects(tokens: seq<Token>, flags: seq<Text>, i: nat, k: nat, token: nat) {
    && i <= k < DoubleDashAt(tokens) && LacksValue(tokens, flags, k)
    && (forall j :: i <= j < k ==> !LacksValue(tokens, flags, j))
    && token == if k + 1 == |tokens| then k else k + 1
  }

  lemma ListsMore(tokens: seq<Token>, flags: seq<Text>, i: nat, rest: seq<nat>)
    requires i < DoubleDashAt(tokens) && Lists(tokens, flags, i + 1, rest) && !LacksValue(tokens, flags, i)
    ensures var c := tokens[i].content;
      Lists(tokens, flags, i,
            if !IsMatch(c, flags) then rest else if c.Both? then [i] + rest else [i + 1] + rest)
  {
    hide IsMatch, DoubleDashAt;
    var c := tokens[i].content;
    if IsMatch(c, flags) {
      MatchIsFlag(c, flags);
      forall j | 0 <= j < |rest| ensures rest[j] > i + if c.Flag? then 1 else 0 {
        assert rest[j] in rest;
      }
      if c.Flag? {
        DashFrom(tokens, i + 1);
        assert i + 1 < DoubleDashAt(tokens);
      }
    }
  }

  lemma {:induction false} OptionsMatched(tokens: seq<Token>, flags: seq<Text>, i: nat)
    requires i <= DoubleDashAt(tokens)
    ensures var m := MatchOptions(tokens, flags, i);
      && (m.Matched? ==> Lists(tokens, flags, i, m.values))
      && (m.Matched? ==> forall k :: i <= k < DoubleDashAt(tokens) ==> !LacksValue(tokens, flags, k))
      && (m.Misplaced? ==> exists k: nat :: Unexpects(tokens, flags, i, k, m.token))
    decreases |tokens| - i
  {
    hide IsMatch, DoubleDashAt, Lists;
    DashFrom(tokens, i);
    if i == DoubleDashAt(tokens) {
      NothingListed(tokens, flags, i);
    } else {
      OptionsMatched(tokens, flags, i + 1);
      if LacksValue(tokens, flags, i) {
        assert Unexpects(tokens, flags, i, i, if i + 1 == |tokens| then i else i + 1);
      } else {
        if IsMatch(tokens[i].content, flags) {
          MatchIsFlag(tokens[i].content, flags);
        }
        var m := MatchOptions(tokens, flags, i + 1);
        if m.Matched? {
          ListsMore(tokens, flags, i, m.values);
        } else {
          var k: nat :| Unexpects(tokens, flags, i + 1, k, m.token);
          assert Unexpects(tokens, flags, i, k, m.token);
        }
      }
    }
  }

  lemma NothingListed(tokens: seq<Token>, flags: seq<Text>, i: nat)
    requires i == DoubleDashAt(tokens)
    ensures Lists(tokens, flags, i, [])
  {
    hide IsMatch;
  }

  /**
   Token `v` is a value of one of the flags: it stands behind the flag, or has the flag and the value in one.
   */
  ghost predicate IsValueOf(tokens: seq<Token>, flags: seq<Text>, v: nat) {
    && v < DoubleDashAt(tokens)
    && (HasValue(tokens, flags, v) || (v > 0 && Printed(tokens, v - 1) in flags))
  }

  /** One of the flags stands here, and no value follows. */
  ghost predicate NoValueFollows(tokens: seq<Token>, flags: seq<Text>, k: nat) {
    && k < DoubleDashAt(tokens) && Printed(tokens, k) in flags
    && (k + 1 == |tokens| || !tokens[k + 1].content.Value?)
  }

  lemma ValuesArePrinted(argv: seq<Text>, flags: seq<Text>, v: nat)
    requires AllFlags(flags)
    ensures var tokens := Tokenize(argv);
      && (IsValueFrom(tokens, flags, 0, v) <==> IsValueOf(tokens, flags, v))
      && (v < DoubleDashAt(tokens) ==> (LacksValue(tokens, flags, v) <==> NoValueFollows(tokens, flags, v)))
  {
    hide Tokenize, IsMatch, DoubleDashAt, AllFlags, PrintContent, HasValue;
    var tokens := Tokenize(argv);
    if v < DoubleDashAt(tokens) {
      BothMatches(tokens, flags, v);
      MatchesArePrinted(argv, flags, v);
      if v > 0 {
        MatchesArePrinted(argv, flags, v - 1);
      }
    }
  }

  /** All the values, in order, unless the first flag without one is refused. */
  ghost predicate AnswersValues(tokens: seq<Token>, flags: seq<Text>, outcome: Outcome) {
    match outcome
    case Values(values) =>
      && Ascending(values) && (forall v :: v in values <==> IsValueOf(tokens, flags, v))
      && forall k: nat :: !NoValueFollows(tokens, flags, k)
    case Failed(Unexpected(token)) =>
      exists k: nat ::
        && NoValueFollows(tokens, flags, k) && (forall j: nat :: j < k ==> !NoValueFollows(tokens, flags, j))
        && token == if k + 1 == |tokens| then k else k + 1
    case Failed(Conflict(_, _)) => forall k: nat :: !NoValueFollows(tokens, flags, k)
    case Failed(BadDefinition) => !AllFlags(flags) || flags == []
    case _ => false
  }

  function OutcomeOf(m: Matched): Outcome {
    match m
    case Matched(_, values) => Values(values)
    case Misplaced(token) => Failed(Unexpected(token))
  }

  lemma MatchedAnswers(argv: seq<Text>, flags: seq<Text>)
    requires AllFlags(flags)
    ensures AnswersValues(Tokenize(argv), flags, OutcomeOf(MatchOptions(Tokenize(argv), flags, 0)))
  {
    var tokens := Tokenize(argv);
    hide Tokenize, IsMatch, DoubleDashAt, AllFlags, PrintContent, IsValueFrom, IsValueOf, LacksValue, MatchOptions;
    OptionsMatched(tokens, flags, 0);
    forall v: nat
      ensures IsValueFrom(tokens, flags, 0, v) <==> IsValueOf(tokens, flags, v)
      ensures v < DoubleDashAt(tokens) ==> (LacksValue(tokens, flags, v) <==> NoValueFollows(tokens, flags, v))
    {
      ValuesArePrinted(argv, flags, v);
    }
    match MatchOptions(tokens, flags, 0)
    case Matched(_, _) =>
    case Misplaced(token) =>
      var k: nat :| Unexpects(tokens, flags, 0, k, token);
      assert NoValueFollows(tokens, flags, k);
  }

  /** What `multiple` answers, and `single` if there is at most one value; else that refuses the second one. */
  lemma ValuesAnswer(argv: seq<Text>, ops: seq<Op>, def: FlagDefinition)
    ensures var r := Run(argv, ops);
      var many, one := Call(r, Multiple(def)).outcome, Call(r, Single(def)).outcome;
      && r.tokens == Tokenize(argv)
      && AnswersValues(r.tokens, FlagsOf(def), many)
      && (one == if many.Values? && |many.tokens| > 1 then Failed(Unexpected(many.tokens[1])) else many)
  {
    hide Tokenize, After, AnswersValues, MatchOptions, ValuesAfterDash, Inv, TestFlag;
    ReachedInv(argv, ops);
    var r := Run(argv, ops);
    if IsDefinition(def) {
      MatchedAnswers(argv, FlagsOf(def));
      ValuesBound(r, def);
    } else {
      BadAnswers(r.tokens, FlagsOf(def));
    }
  }

  lemma BadAnswers(tokens: seq<Token>, flags: seq<Text>)
    requires !AllFlags(flags) || flags == []
    ensures AnswersValues(tokens, flags, Failed(BadDefinition))
  {
  }

  lemma ConflictAnswers(tokens: seq<Token>, flags: seq<Text>, values: seq<nat>, a: Id, b: Id)
    requires AnswersValues(tokens, flags, Values(values))
    ensures AnswersValues(tokens, flags, Failed(Conflict(a, b)))
  {
  }

  lemma ValuesBound(r: Reader, def: FlagDefinition)
    requires Inv(r) && IsDefinition(def)
    requires AnswersValues(r.tokens, FlagsOf(def), OutcomeOf(MatchOptions(r.tokens, FlagsOf(def), 0)))
    ensures AnswersValues(r.tokens, FlagsOf(def), MatchValues(r, def).outcome)
  {
    hide AnswersValues, MatchOptions, Inv, IsDefinition, Bind, Singleton;
    var id := FlagDefinitionId(def);
    SingletonGood(r, id);
    var made := Singleton(r, id).reader;
    match MatchOptions(r.tokens, FlagsOf(def), 0)
    case Misplaced(_) =>
    case Matched(all, values) =>
      OptionsBindable(made, FlagsOf(def), 0);
      BindIs(made, id, FlagKind, all, Values(values));
      var bound := Bind(made, id, FlagKind, all, Values(values)).outcome;
      if bound.Failed? {
        ConflictAnswers(r.tokens, FlagsOf(def), values, bound.error.existing, bound.error.wanted);
      }
  }

  // -------------------------------------------------------------- positions

  /** A value that is not bound to a flag. */
  predicate IsPositional(r: Reader, k: nat) {
    && k < |r.tokens| && k < |r.bindings| && r.tokens[k].content.Value?
    && (r.bindings[k].None? || r.bindings[k].value.RangeId? || r.bindings[k].value.CommandId?)
  }

  /** How many of them there are from position `i` on, in front of position `k`. */
  function Rank(r: Reader, i: nat, k: nat): nat {
    |set j: nat | i <= j < k && IsPositional(r, j)|
  }

  lemma EligibleIsPositional(r: Reader, k: nat)
    requires Inv(r)
    ensures IsEligible(r, k) <==> IsPositional(r, k)
  {
  }

  ghost predicate ListsPositions(r: Reader, i: nat, list: seq<nat>) {
    && (forall k :: k in list <==> i <= k && IsPositional(r, k))
    && (forall j :: 0 <= j < |list| ==> Rank(r, i, list[j]) == j)
  }

  lemma RankFrom(r: Reader, i: nat, k: nat)
    requires i < k
    ensures Rank(r, i, k) == Rank(r, i + 1, k) + if IsPositional(r, i) then 1 else 0
  {
    hide IsPositional;
    var here := set j: nat | i <= j < k && IsPositional(r, j);
    var later := set j: nat | i + 1 <= j < k && IsPositional(r, j);
    if IsPositional(r, i) {
      assert here == later + {i};
    } else {
      assert here == later;
    }
  }

  lemma RankOfSelf(r: Reader, i: nat)
    ensures Rank(r, i, i) == 0
  {
    assert (set j: nat | i <= j < i && IsPositional(r, j)) == {};
  }

  lemma {:induction false} EligibleListed(r: Reader, i: nat)
    requires Inv(r) && i <= |r.tokens|
    ensures ListsPositions(r, i, Eligible(r, i))
    decreases |r.tokens| - i
  {
    hide Inv, IsEligible, Rank;
    if i < |r.tokens| {
      EligibleListed(r, i + 1);
      EligibleIsPositional(r, i);
      ListsOneMore(r, i, Eligible(r, i + 1));
    }
  }

  lemma ListsOneMore(r: Reader, i: nat, rest: seq<nat>)
    requires ListsPositions(r, i + 1, rest)
    ensures ListsPositions(r, i, (if IsPositional(r, i) then [i] else []) + rest)
  {
    hide IsPositional, Rank;
    var list := (if IsPositional(r, i) then [i] else []) + rest;
    forall j | 0 <= j < |list| ensures Rank(r, i, list[j]) == j {
      if IsPositional(r, i) && j == 0 {
        RankOfSelf(r, i);
      } else {
        assert list[j] in rest;
        RankFrom(r, i, list[j]);
      }
    }
  }

  /** A position counted as `first`, `first + 1` and so on, so many of them, or all. */
  predicate InSection(rank: nat, first: nat, to: Bound) {
    first <= rank && (to.Infinite? || to.n < first || rank < to.n)
  }

  ghost predicate ListsSection(r: Reader, first: nat, to: Bound, args: seq<nat>) {
    && (forall k :: k in args <==> IsPositional(r, k) && InSection(Rank(r, 0, k), first, to))
    && (forall j :: 0 <= j < |args| ==> Rank(r, 0, args[j]) == first + j)
  }

  lemma SectionListed(r: Reader, first: nat, to: Bound)
    requires Inv(r)
    ensures ListsSection(r, first, to, Section(Eligible(r, 0), first, to))
  {
    hide Inv, Eligible, Rank, IsPositional;
    var list := Eligible(r, 0);
    var args := Section(list, first, to);
    EligibleListed(r, 0);
    SectionAt(list, first, to);
    hide Section;
    forall k ensures k in args <==> IsPositional(r, k) && InSection(Rank(r, 0, k), first, to) {
      if k in args {
        var j :| 0 <= j < |args| && args[j] == k;
        assert k == list[first + j] && list[first + j] in list;
      }
      if IsPositional(r, k) && InSection(Rank(r, 0, k), first, to) {
        var j :| 0 <= j < |list| && list[j] == k;
        assert j == Rank(r, 0, k);
        assert args[j - first] == k;
      }
    }
  }

  function SectionEnd(length: nat, first: nat, to: Bound): nat {
    if to.Infinite? || to.n < first || to.n >= length then length else to.n
  }

  lemma SectionIs(list: seq<nat>, first: nat, to: Bound)
    ensures first >= |list| ==> Section(list, first, to) == []
    ensures first < |list| ==> Section(list, first, to) == list[first..SectionEnd(|list|, first, to)]
  {
  }

  lemma SectionAt(list: seq<nat>, first: nat, to: Bound)
    ensures var args := Section(list, first, to);
      && (forall j :: 0 <= j < |args| ==>
            first + j < |list| && args[j] == list[first + j] && InSection(first + j, first, to))
      && (forall j :: first <= j < |list| && InSection(j, first, to) ==> j - first < |args|)
  {
    hide Section;
    SectionIs(list, first, to);
    var args, end := Section(list, first, to), SectionEnd(|list|, first, to);
    forall j | 0 <= j < |args|
      ensures first + j < |list| && args[j] == list[first + j] && InSection(first + j, first, to)
    {
      assert args[j] == list[first..end][j] == list[first + j];
    }
    forall j | first <= j < |list| && InSection(j, first, to) ensures j - first < |args| {
      assert j < end;
    }
  }

  /** One behind the last position: counted from the end if negative. */
  function EndOfSlice(length: nat, end: int): int {
    if end >= 0 then end else length + end
  }

  /**
   What `range` answers.  Without a double dash: of the values that are not bound to a flag those counted from
   `index` on, so many of them.  With one: what stands so far behind it.
   */
  lemma RangeAnswer(argv: seq<Text>, ops: seq<Op>, index: nat, count: Bound)
    ensures var r := Run(argv, ops);
      var outcome, dash := Call(r, RangeOf(index, count)).outcome, DoubleDashAt(r.tokens);
      && r.tokens == Tokenize(argv)
      && (count == Finite(1) ==> Call(r, At(index)) == Call(r, RangeOf(index, count)))
      && (!outcome.Failed? ==> outcome.Values? && Ascending(outcome.tokens))
      && (!outcome.Failed? && dash == |r.tokens| ==>
            forall k :: k in outcome.tokens <==>
              IsPositional(r, k) && InSection(Rank(r, 0, k), index, EndOf(index, count)))
      && (!outcome.Failed? && dash < |r.tokens| ==>
            forall k: nat :: k in outcome.tokens <==>
              && dash + 1 + index <= k < |r.tokens|
              && (count.Finite? ==> k < EndOfSlice(|r.tokens|, dash + 1 + index + count.n)))
  {
    hide Tokenize, After, ValuesAfterDash, Inv, Bind, Singleton, PositionalAt, IsPositional, Rank, DoubleDashAt;
    ReachedInv(argv, ops);
    var r := Run(argv, ops);
    var id := RangeId(index, EndOf(index, count));
    SingletonGood(r, id);
    var made := Singleton(r, id).reader;
    var args := PositionalAt(made, index, id.to);
    PositionalBindable(made, index, id.to);
    if !Singleton(r, id).outcome.Failed? {
      BindIs(made, id, Positional, args, Values(args));
      PositionalListed(made, index, id.to);
      SamePositions(r, made);
    }
  }

  lemma SamePositions(a: Reader, b: Reader)
    requires a.tokens == b.tokens && a.bindings == b.bindings
    ensures forall k: nat :: IsPositional(a, k) == IsPositional(b, k) && Rank(a, 0, k) == Rank(b, 0, k)
  {
    forall k: nat ensures Rank(a, 0, k) == Rank(b, 0, k) {
      assert (set j: nat | 0 <= j < k && IsPositional(a, j)) == (set j: nat | 0 <= j < k && IsPositional(b, j));
    }
  }

  lemma PositionalListed(r: Reader, first: nat, to: Bound)
    requires Inv(r)
    ensures var args, dash := PositionalAt(r, first, to), DoubleDashAt(r.tokens);
      && Ascending(args)
      && (dash == |r.tokens| ==>
            forall k :: k in args <==> IsPositional(r, k) && InSection(Rank(r, 0, k), first, to))
      && (dash < |r.tokens| ==>
            forall k: nat :: k in args <==>
              && dash + 1 + first <= k < |r.tokens|
              && (to.Finite? ==> k < EndOfSlice(|r.tokens|, dash + 1 + to.n)))
  {
    hide Inv, Section, Eligible, IsPositional, DoubleDashAt;
    SectionListed(r, first, to);
    var args, dash := PositionalAt(r, first, to), DoubleDashAt(r.tokens);
    if dash == |r.tokens| {
      RanksAscend(r, first, to, args);
    } else {
      forall k: nat | dash + 1 + first <= k < SliceEnd(|r.tokens|, EndOf(dash + 1, to)) ensures k in args {
        assert args[k - (dash + 1 + first)] == k;
      }
    }
  }

  lemma RanksAscend(r: Reader, first: nat, to: Bound, args: seq<nat>)
    requires ListsSection(r, first, to, args)
    ensures Ascending(args)
  {
    forall i, j | 0 <= i < j < |args| ensures args[i] < args[j] {
      if args[j] <= args[i] {
        RankGrows(r, args[j], args[i]);
      }
    }
  }

  lemma RankGrows(r: Reader, a: nat, b: nat)
    requires a <= b
    ensures Rank(r, 0, a) <= Rank(r, 0, b)
  {
    hide IsPositional;
    FiniteSets.SubsetCardinality(set j: nat | 0 <= j < a && IsPositional(r, j),
                                 set j: nat | 0 <= j < b && IsPositional(r, j));
  }

  // --------------------------------------------------------------- commands

  /** A positional value counted as `from` or later that no flag and no range has taken. */
  ghost predicate MayBeCommand(r: Reader, from: nat, k: nat) {
    && IsPositional(r, k) && from <= Rank(r, 0, k)
    && (r.bindings[k].None? || r.bindings[k].value.CommandId?)
  }

  ghost predicate IsFirstCommand(r: Reader, from: nat, k: nat) {
    MayBeCommand(r, from, k) && forall j :: 0 <= j < k ==> !MayBeCommand(r, from, j)
  }

  /** The first of them, if it is one of the commands, and how many values it has in front of it. */
  ghost predicate AnswersCommand(r: Reader, level: nat, from: nat, commands: seq<Text>, outcome: Outcome) {
    match outcome
    case NoCommand => forall k: nat :: !MayBeCommand(r, from, k)
    case Sub(k, base) =>
      IsFirstCommand(r, from, k) && r.tokens[k].content.value in commands && base == Rank(r, 0, k) - from
    case Failed(UnexpectedCommand(k)) => IsFirstCommand(r, from, k) && r.tokens[k].content.value !in commands
    case Failed(BadDefinition) => commands == [] || level < 1
    case Failed(BadLevel) =>
      CommandId(level, JoinIds(commands)) !in r.params && level != |r.commands| + 1
    case _ => false
  }

  lemma TakenIsFirst(r: Reader, from: nat)
    requires Inv(r)
    ensures var args := Section(Eligible(r, 0), from, Infinite); var n := FirstAvailable(r, args);
      && (n == |args| ==> forall k: nat :: !MayBeCommand(r, from, k))
      && (n < |args| ==> IsFirstCommand(r, from, args[n]) && Rank(r, 0, args[n]) == from + n)
  {
    hide Inv, Eligible, Section, Rank, IsPositional, IsAvailable, FirstAvailable;
    var args := Section(Eligible(r, 0), from, Infinite);
    var n := FirstAvailable(r, args);
    SectionListed(r, from, Infinite);
    forall k: nat ensures MayBeCommand(r, from, k) <==> k in args && IsAvailable(r, k) {
      AvailableIsFree(r, k);
    }
    RanksAscend(r, from, Infinite, args);
    if n < |args| {
      forall j | 0 <= j < args[n] ensures !MayBeCommand(r, from, j) {
        if j in args {
          var i :| 0 <= i < |args| && args[i] == j;
          assert i < n;
        }
      }
    }
  }

  lemma AvailableIsFree(r: Reader, k: nat)
    requires Inv(r)
    ensures IsPositional(r, k) ==>
      (IsAvailable(r, k) <==> r.bindings[k].None? || r.bindings[k].value.CommandId?)
  {
  }

  lemma SameCommands(a: Reader, b: Reader, from: nat, k: nat)
    requires a.tokens == b.tokens && a.bindings == b.bindings
    ensures MayBeCommand(a, from, k) == MayBeCommand(b, from, k)
    ensures Rank(a, 0, k) == Rank(b, 0, k)
  {
    SamePositions(a, b);
  }

  lemma NoConflictForCommand(r: Reader, id: Id, k: nat, outcome: Outcome)
    requires Inv(r) && id in r.params && id.CommandId? && Bindable(r, [k]) && MayBeCommand(r, 0, k)
    ensures var bound := Bind(r, id, SubCommand, [k], outcome).outcome;
      bound == outcome || (bound.Failed? && bound.error.Conflict? && r.bindings[k].Some?)
  {
    hide Inv, Rank;
    BindIs(r, id, SubCommand, [k], outcome);
    hide Bind;
    if r.bindings[k].None? {
      assert NoClash(r, id, [k]);
    }
  }

  /** What `command` answers; a conflict only over a value that is another command already. */
  lemma CommandAnswer(argv: seq<Text>, ops: seq<Op>, level: nat, from: nat, commands: seq<Text>)
    ensures var r := Run(argv, ops); var outcome := Call(r, Command(level, from, commands)).outcome;
      || AnswersCommand(r, level, from, commands, outcome)
      || (outcome.Failed? && outcome.error.Conflict? && exists k: nat ::
            IsFirstCommand(r, from, k) && r.bindings[k].Some? && r.tokens[k].content.value in commands)
  {
    hide Tokenize, After, ValuesAfterDash, Inv, Bind, Singleton, Section, Eligible, FirstAvailable, JoinIds, Rank;
    hide IsPositional, MayBeCommand;
    ReachedInv(argv, ops);
    var r := Run(argv, ops);
    if commands != [] && level >= 1 {
      var id := CommandId(level, JoinIds(commands));
      SingletonGood(r, id);
      var made := Singleton(r, id).reader;
      CommandMade(r, id);
      if !Singleton(r, id).outcome.Failed? {
        TakenIsFirst(made, from);
        EligibleBindable(made, from, Infinite);
        forall k: nat
          ensures MayBeCommand(made, from, k) == MayBeCommand(r, from, k) && Rank(made, 0, k) == Rank(r, 0, k)
        {
          SameCommands(made, r, from, k);
        }
        var args := Section(Eligible(made, 0), from, Infinite);
        var n := FirstAvailable(made, args);
        if n < |args| {
          assert IsFirstCommand(r, from, args[n]);
          CommandIsValue(r, from, args[n]);
          FromTheStart(made, from, args[n]);
          NoConflictForCommand(made, id, args[n], Sub(args[n], n));
        }
      }
    }
  }

  lemma CommandIsValue(r: Reader, from: nat, k: nat)
    requires MayBeCommand(r, from, k)
    ensures k < |r.tokens| && k < |r.bindings| && r.tokens[k].content.Value?
  {
  }

  lemma FromTheStart(r: Reader, from: nat, k: nat)
    requires MayBeCommand(r, from, k)
    ensures MayBeCommand(r, 0, k)
  {
  }

  lemma CommandMade(r: Reader, id: Id)
    requires id.CommandId?
    ensures Singleton(r, id).outcome.Failed? ==>
      Singleton(r, id).outcome == Failed(BadLevel) && id !in r.params && id.level != |r.commands| + 1
  {
  }
}
