/**
 Binding the tokens of a command line to parameters, on values: what every call of the reader does.
 */
module ArgumentsModel {
  import opened CodeUnits
  import opened Tokenizer
  import opened Wrappers

  const NO: Text := [45, 45, 110, 111, 45]
  const ID_SEPARATOR: Text := [124, 0x200B]

  /** The end of a range, or a count. */
  datatype Bound = Finite(n: int) | Infinite

  datatype FlagDefinition = One(flag: Text) | Many(flags: seq<Text>)

  /** What identifies a parameter: the same text in the program means the same parameter. */
  datatype Id = FlagId(flag: Text) | FlagsId(joined: Text)
              | RangeId(from: nat, to: Bound) | CommandId(level: nat, joined: Text)

  datatype Kind = FlagKind | Positional | SubCommand

  datatype Param = Param(kind: Option<Kind>, listed: seq<nat>)

  /** The holder's ranges and commands are lists of the registered parameters of that sort. */
  datatype Reader = Reader(tokens: seq<Token>, bindings: seq<Option<Id>>,
                           params: map<Id, Param>, ranges: seq<Id>, commands: seq<Id>)

  datatype Error = BadDefinition | Conflict(existing: Id, wanted: Id) | BadLevel
                 | Unexpected(token: nat) | UnexpectedCommand(token: nat) | Death

  /** `Values` and `Sub` name the tokens whose values are handed out. */
  datatype Outcome = Values(tokens: seq<nat>) | Count(count: int) | NoCommand | Sub(token: nat, base: nat)
                   | Failed(error: Error)

  datatype Reply = Reply(reader: Reader, outcome: Outcome)

  datatype Op = Single(def: FlagDefinition) | Multiple(def: FlagDefinition) | CountFlag(def: FlagDefinition)
              | At(index: int) | RangeOf(index: int, count: Bound) | Command(level: nat, from: nat, commands: seq<Text>)

  function NewReader(argv: seq<Text>): Reader {
    Reader(Tokenize(argv), seq(|Tokenize(argv)|, _ => None), map[], [], [])
  }

  // ----------------------------------------------------------------- definitions

  function JoinIds(flags: seq<Text>): Text {
    if flags == [] then [] else if |flags| == 1 then flags[0] else flags[0] + ID_SEPARATOR + JoinIds(flags[1..])
  }

  /** The tests of a flag's name, in their order. */
  predicate TestFlag(flag: Text) {
    if flag == [] || flag[0] != DASH then false
    else if |flag| > 1 && flag[1] == DASH then |flag| >= 3 && EQUALS !in flag && !MatchFlag(flag).NoMatch?
    else |flag| == 2 && !MatchFlag(flag).NoMatch?
  }

  function FlagsOf(def: FlagDefinition): seq<Text> {
    match def
    case One(flag) => [flag]
    case Many(flags) => flags
  }

  predicate IsDefinition(def: FlagDefinition) {
    FlagsOf(def) != [] && forall k :: 0 <= k < |FlagsOf(def)| ==> TestFlag(FlagsOf(def)[k])
  }

  function FlagDefinitionId(def: FlagDefinition): Id {
    match def
    case One(flag) => FlagId(flag)
    case Many(flags) => FlagsId(JoinIds(flags))
  }

  function EndOf(index: int, count: Bound): Bound {
    match count
    case Finite(n) => Finite(index + n)
    case Infinite => Infinite
  }

  // ------------------------------------------------------------------ the holder

  predicate AtMost(bound: Bound, n: int) { bound.Finite? && bound.n <= n }

  predicate IsBefore(a: Id, b: Id) { a.RangeId? && b.RangeId? && AtMost(a.to, b.from) }

  /** The negation of the program's `isConflict`. */
  predicate Apart(a: Id, b: Id) { IsBefore(a, b) || IsBefore(b, a) }

  /** The first range in conflict with a new one. */
  function FirstConflict(ranges: seq<Id>, id: Id): (n: nat)
    ensures n <= |ranges| && (forall k :: 0 <= k < n ==> Apart(id, ranges[k]))
      && (n < |ranges| ==> !Apart(id, ranges[n]))
  {
    if ranges == [] || !Apart(id, ranges[0]) then 0 else 1 + FirstConflict(ranges[1..], id)
  }

  /** The parameter with this id, made if there is none; or why it cannot be made. */
  function Singleton(r: Reader, id: Id): Reply {
    var created := r.(params := r.params[id := Param(None, [])]);
    if id in r.params then Reply(r, Values([]))
    else match id
      case RangeId(_, _) =>
        var n := FirstConflict(r.ranges, id);
        if n < |r.ranges| then Reply(r, Failed(Conflict(r.ranges[n], id)))
        else Reply(created.(ranges := r.ranges + [id]), Values([]))
      case CommandId(level, _) =>
        if |r.commands| + 1 != level then Reply(r, Failed(BadLevel))
        else Reply(created.(commands := r.commands + [id]), Values([]))
      case _ => Reply(created, Values([]))
  }

  /** The first of these tokens that is bound to something else. */
  function FirstClash(bindings: seq<Option<Id>>, id: Id, args: seq<nat>): (n: nat)
    ensures n <= |args|
    ensures forall k :: 0 <= k < n && args[k] < |bindings| ==> bindings[args[k]].None? || bindings[args[k]] == Some(id)
    ensures n < |args| ==> args[n] < |bindings| && bindings[args[n]].Some? && bindings[args[n]] != Some(id)
  {
    if args == [] then 0
    else if args[0] < |bindings| && bindings[args[0]].Some? && bindings[args[0]] != Some(id) then 0
    else 1 + FirstClash(bindings, id, args[1..])
  }

  function BindAll(bindings: seq<Option<Id>>, id: Id, args: seq<nat>): (bound: seq<Option<Id>>)
    ensures |bound| == |bindings|
    ensures forall k :: 0 <= k < |bound| ==> bound[k] == if k in args then Some(id) else bindings[k]
  {
    seq(|bindings|, k requires 0 <= k < |bindings| => if k in args then Some(id) else bindings[k])
  }

  predicate HasDoubleDash(tokens: seq<Token>, args: seq<nat>) {
    exists k :: 0 <= k < |args| && args[k] < |tokens| && tokens[args[k]].content == DoubleDash
  }

  /** `bindArgType`: it dies if the kind is another one, or at the double dash; a conflict changes nothing. */
  function Bind(r: Reader, id: Id, kind: Kind, args: seq<nat>, outcome: Outcome): Reply {
    var n := FirstClash(r.bindings, id, args);
    if id !in r.params || (r.params[id].kind.Some? && r.params[id].kind != Some(kind)) then Reply(r, Failed(Death))
    else if n < |args| then Reply(r, Failed(Conflict(r.bindings[args[n]].value, id)))
    else if HasDoubleDash(r.tokens, args) then Reply(r, Failed(Death))
    else Reply(r.(params := r.params[id := Param(Some(kind), args)],
                  bindings := BindAll(r.bindings, id, args)), outcome)
  }

  // ---------------------------------------------------------------- flags, options

  function FlagText(c: Content): Text
    requires c.Flag? || c.Both?
  {
    (if c.short then [DASH] else DOUBLE_DASH) + c.name
  }

  predicate IsMatch(c: Content, flags: seq<Text>) {
    (c.Flag? || c.Both?) && FlagText(c) in flags
  }

  /** The tokens found, flags and values, and the values alone; or the token that should not be there. */
  datatype Matched = Matched(all: seq<nat>, values: seq<nat>) | Misplaced(token: nat)

  function More(all: seq<nat>, value: nat, rest: Matched): Matched {
    match rest
    case Matched(more, values) => Matched(all + more, [value] + values)
    case Misplaced(_) => rest
  }

  /** From token `i` on: each flag with its value, in one token or two. */
  function MatchOptions(tokens: seq<Token>, flags: seq<Text>, i: nat): Matched
    requires i <= |tokens|
    decreases |tokens| - i
  {
    if i == |tokens| || tokens[i].content == DoubleDash then Matched([], [])
    else if !IsMatch(tokens[i].content, flags) then MatchOptions(tokens, flags, i + 1)
    else if tokens[i].content.Both? then More([i], i, MatchOptions(tokens, flags, i + 1))
    else if i + 1 == |tokens| then Misplaced(i)
    else if !tokens[i + 1].content.Value? then Misplaced(i + 1)
    else More([i, i + 1], i + 1, MatchOptions(tokens, flags, i + 1))
  }

  /** From token `i` on: the flags, none of which may have a value. */
  function MatchFlags(tokens: seq<Token>, flags: seq<Text>, i: nat): Matched
    requires i <= |tokens|
    decreases |tokens| - i
  {
    if i == |tokens| || tokens[i].content == DoubleDash then Matched([], [])
    else if !IsMatch(tokens[i].content, flags) then MatchFlags(tokens, flags, i + 1)
    else if tokens[i].content.Both? then Misplaced(i)
    else More([i], i, MatchFlags(tokens, flags, i + 1))
  }

  function MatchValues(r: Reader, def: FlagDefinition): Reply {
    if !IsDefinition(def) then Reply(r, Failed(BadDefinition))
    else
      var id := FlagDefinitionId(def);
      var made := Singleton(r, id).reader;
      match MatchOptions(r.tokens, FlagsOf(def), 0)
      case Misplaced(token) => Reply(made, Failed(Unexpected(token)))
      case Matched(all, values) =>
        if values == [] then Reply(made, Values([]))
        else Bind(made, id, FlagKind, all, Values(values))
  }

  function OnlyOne(reply: Reply): Reply {
    if reply.outcome.Values? && |reply.outcome.tokens| > 1 then
      reply.(outcome := Failed(Unexpected(reply.outcome.tokens[1])))
    else reply
  }

  function CountOnce(r: Reader, def: FlagDefinition): Reply {
    if !IsDefinition(def) then Reply(r, Failed(BadDefinition))
    else
      var id := FlagDefinitionId(def);
      var made := Singleton(r, id).reader;
      match MatchFlags(r.tokens, FlagsOf(def), 0)
      case Misplaced(token) => Reply(made, Failed(Unexpected(token)))
      case Matched(all, _) => Bind(made, id, FlagKind, all, Count(|all|))
  }

  predicate IsNegative(flag: Text) { NO <= flag }

  predicate IsLongFlag(flag: Text) { DOUBLE_DASH <= flag }

  function NegateLong(flags: seq<Text>): (negated: seq<Text>)
    ensures forall k :: 0 <= k < |negated| ==> IsNegative(negated[k])
  {
    if flags == [] then []
    else (if IsLongFlag(flags[0]) then [NO + flags[0][2..]] else []) + NegateLong(flags[1..])
  }

  /** The negations of the long flags, unless one of the flags is a negation. */
  function Negated(flags: seq<Text>): seq<Text> {
    if exists k :: 0 <= k < |flags| && IsNegative(flags[k]) then [] else NegateLong(flags)
  }

  function NegatedDefinition(def: FlagDefinition): FlagDefinition {
    var negated := Negated(FlagsOf(def));
    if |negated| == 1 && def.One? then One(negated[0]) else Many(negated)
  }

  /** The flags counted, less their negations. */
  function CountReply(r: Reader, def: FlagDefinition): Reply {
    var first := CountOnce(r, def);
    if first.outcome.Failed? || Negated(FlagsOf(def)) == [] then first
    else
      var second := CountOnce(first.reader, NegatedDefinition(def));
      if !first.outcome.Count? || !second.outcome.Count? then second
      else second.(outcome := Count(first.outcome.count - second.outcome.count))
  }

  // -------------------------------------------------------------------- positions

  predicate IsEligible(r: Reader, i: nat) {
    && i < |r.tokens| && i < |r.bindings| && r.tokens[i].content.Value?
    && (r.bindings[i].None?
        || (r.bindings[i].value in r.params
            && r.params[r.bindings[i].value].kind in {Some(Positional), Some(SubCommand)}))
  }

  /** The values from token `i` on that are not bound to a flag. */
  function Eligible(r: Reader, i: nat): seq<nat>
    requires i <= |r.tokens|
    decreases |r.tokens| - i
  {
    if i == |r.tokens| then []
    else (if IsEligible(r, i) then [i] else []) + Eligible(r, i + 1)
  }

  /** So many of a list after the first `from`; all of them if the count is negative. */
  function Section(list: seq<nat>, from: nat, to: Bound): seq<nat> {
    var rest := list[if from <= |list| then from else |list|..];
    if to.Infinite? || to.n < from || to.n - from >= |rest| then rest else rest[..to.n - from]
  }

  function DoubleDashAt(tokens: seq<Token>): (n: nat)
    ensures n <= |tokens| && (n < |tokens| ==> tokens[n].content == DoubleDash)
    ensures forall k :: 0 <= k < n ==> tokens[k].content != DoubleDash
  {
    if tokens == [] || tokens[0].content == DoubleDash then 0 else 1 + DoubleDashAt(tokens[1..])
  }

  /** The end of `slice`, counted from the end of the list if negative. */
  function SliceEnd(length: nat, end: Bound): (n: nat)
    ensures n <= length
  {
    if end.Infinite? || end.n >= length then length
    else if end.n >= 0 then end.n
    else if length + end.n >= 0 then length + end.n
    else 0
  }

  function Indexes(from: nat, to: nat): (all: seq<nat>)
    ensures |all| == (if from <= to then to - from else 0) && forall k :: 0 <= k < |all| ==> all[k] == from + k
  {
    seq(if from <= to then to - from else 0, k => from + k)
  }

  /** What stands after the double dash if there is one; otherwise what is not bound to a flag. */
  function PositionalAt(r: Reader, from: nat, to: Bound): seq<nat> {
    var dash := DoubleDashAt(r.tokens);
    if dash == |r.tokens| then Section(Eligible(r, 0), from, to)
    else Indexes(dash + 1 + from, SliceEnd(|r.tokens|, EndOf(dash + 1, to)))
  }

  function RangeReply(r: Reader, index: int, count: Bound): Reply {
    if index < 0 then Reply(r, Failed(BadDefinition))
    else
      var id := RangeId(index, EndOf(index, count));
      var made := Singleton(r, id);
      if made.outcome.Failed? then made
      else
        var args := PositionalAt(made.reader, index, id.to);
        Bind(made.reader, id, Positional, args, Values(args))
  }

  // --------------------------------------------------------------------- commands

  predicate IsAvailable(r: Reader, token: nat) {
    && token < |r.bindings|
    && (r.bindings[token].None?
        || (r.bindings[token].value in r.params && r.params[r.bindings[token].value].kind == Some(SubCommand)))
  }

  function FirstAvailable(r: Reader, args: seq<nat>): (n: nat)
    ensures n <= |args| && (n < |args| ==> IsAvailable(r, args[n]))
    ensures forall k :: 0 <= k < n ==> !IsAvailable(r, args[k])
  {
    if args == [] || IsAvailable(r, args[0]) then 0 else 1 + FirstAvailable(r, args[1..])
  }

  predicate IsAmong(tokens: seq<Token>, token: nat, commands: seq<Text>) {
    token < |tokens| && tokens[token].content.Value? && tokens[token].content.value in commands
  }

  function CommandReply(r: Reader, level: nat, from: nat, commands: seq<Text>): Reply {
    if commands == [] || level < 1 then Reply(r, Failed(BadDefinition))
    else
      var id := CommandId(level, JoinIds(commands));
      var made := Singleton(r, id);
      if made.outcome.Failed? then made
      else
        var args := Section(Eligible(made.reader, 0), from, Infinite);
        var n := FirstAvailable(made.reader, args);
        if n == |args| then Reply(made.reader, NoCommand)
        else if !IsAmong(r.tokens, args[n], commands) then Reply(made.reader, Failed(UnexpectedCommand(args[n])))
        else Bind(made.reader, id, SubCommand, [args[n]], Sub(args[n], n))
  }

  function Call(r: Reader, op: Op): Reply {
    match op
    case Single(def) => OnlyOne(MatchValues(r, def))
    case Multiple(def) => MatchValues(r, def)
    case CountFlag(def) => CountReply(r, def)
    case At(index) => RangeReply(r, index, Finite(1))
    case RangeOf(index, count) => RangeReply(r, index, count)
    case Command(level, from, commands) => CommandReply(r, level, from, commands)
  }

  /** The reader after a sequence of calls, whether they throw or not. */
  function After(r: Reader, ops: seq<Op>): Reader {
    if ops == [] then r else Call(After(r, ops[..|ops| - 1]), ops[|ops| - 1]).reader
  }

  /** The parameter a call is about. */
  function IdOf(op: Op): Id {
    match op
    case Single(def) => FlagDefinitionId(def)
    case Multiple(def) => FlagDefinitionId(def)
    case CountFlag(def) => FlagDefinitionId(def)
    case At(index) => RangeId(if index < 0 then 0 else index, Finite(index + 1))
    case RangeOf(index, count) => RangeId(if index < 0 then 0 else index, EndOf(index, count))
    case Command(level, _, commands) => CommandId(level, JoinIds(commands))
  }

  function HandedOut(outcome: Outcome): seq<nat> {
    match outcome
    case Values(tokens) => tokens
    case Sub(token, _) => [token]
    case _ => []
  }
}
