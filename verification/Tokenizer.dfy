/**
 Splitting a command line into tokens, and printing tokens.
 */
module Tokenizer {
  import opened CodeUnits
  import opened Wrappers

  const DASH: CodeUnit := 45
  const EQUALS: CodeUnit := 61
  const DOUBLE_DASH: Text := [DASH, DASH]

  /** What the expression for flags finds in an argument; a value may be empty. */
  datatype FlagMatch = NoMatch | Long(name: Text, value: Option<Text>) | Short(flags: Text, value: Option<Text>)

  datatype Content = Value(value: Text) | Flag(name: Text, short: bool) | Both(name: Text, short: bool, value: Text)
                   | DoubleDash

  datatype Token = Token(content: Content, index: nat, total: nat)

  // ---------------------------------------------------------------- one argument

  /** How many units there are before the first of `stops`. */
  function RunUntil(s: Text, stops: set<CodeUnit>): (n: nat)
    ensures n <= |s| && (forall k :: 0 <= k < n ==> s[k] !in stops) && (n < |s| ==> s[n] in stops)
  {
    if s == [] || s[0] in stops then 0 else 1 + RunUntil(s[1..], stops)
  }

  function ValuePart(rest: Text): Option<Text> {
    if rest == [] then None else Some(rest[1..])
  }

  function LongAt(rest: Text): FlagMatch {
    var n := RunUntil(rest, {EQUALS});
    if n > 0 && rest[0] != DASH then Long(rest[..n], ValuePart(rest[n..])) else NoMatch
  }

  function ShortAt(rest: Text): FlagMatch {
    var n := RunUntil(rest, {EQUALS, DASH});
    if n > 0 && (n == |rest| || rest[n] == EQUALS) then Short(rest[..n], ValuePart(rest[n..])) else NoMatch
  }

  function MatchFlag(p: Text): FlagMatch {
    if |p| > 1 && p[0] == DASH then (if p[1] == DASH then LongAt(p[2..]) else ShortAt(p[1..])) else NoMatch
  }

  function Suffix(value: Option<Text>): Text {
    if value.None? then [] else [EQUALS] + value.value
  }

  /** The two alternatives of the expression. */
  ghost predicate IsLong(p: Text, name: Text, value: Option<Text>) {
    p == DOUBLE_DASH + name + Suffix(value) && name != [] && EQUALS !in name && name[0] != DASH
  }

  ghost predicate IsShort(p: Text, flags: Text, value: Option<Text>) {
    p == [DASH] + flags + Suffix(value) && flags != [] && EQUALS !in flags && DASH !in flags
  }

  /** The run ends where the suffix begins. */
  lemma {:induction false} RunIs(run: Text, value: Option<Text>, stops: set<CodeUnit>)
    requires forall k :: 0 <= k < |run| ==> run[k] !in stops
    requires EQUALS in stops
    ensures RunUntil(run + Suffix(value), stops) == |run|
  {
    if run == [] {
      assert run + Suffix(value) == Suffix(value);
    } else {
      assert (run + Suffix(value))[1..] == run[1..] + Suffix(value);
      RunIs(run[1..], value, stops);
    }
  }

  lemma RunJoins(rest: Text, n: nat)
    requires n <= |rest| && (n == |rest| || rest[n] == EQUALS)
    ensures rest == rest[..n] + Suffix(ValuePart(rest[n..]))
  {
    if n < |rest| {
      assert rest[n..] == [EQUALS] + rest[n..][1..];
    }
  }

  lemma LongIsFound(name: Text, value: Option<Text>)
    requires name != [] && EQUALS !in name && name[0] != DASH
    ensures LongAt(name + Suffix(value)) == Long(name, value)
  {
    RunIs(name, value, {EQUALS});
    assert (name + Suffix(value))[|name|..] == Suffix(value);
  }

  lemma ShortIsFound(flags: Text, value: Option<Text>)
    requires flags != [] && EQUALS !in flags && DASH !in flags
    ensures ShortAt(flags + Suffix(value)) == Short(flags, value)
  {
    RunIs(flags, value, {EQUALS, DASH});
    assert (flags + Suffix(value))[|flags|..] == Suffix(value);
  }

  lemma LongAtIs(rest: Text, name: Text, value: Option<Text>)
    requires LongAt(rest) == Long(name, value)
    ensures rest == name + Suffix(value) && name != [] && EQUALS !in name && name[0] != DASH
  {
    RunJoins(rest, RunUntil(rest, {EQUALS}));
  }

  lemma ShortAtIs(rest: Text, flags: Text, value: Option<Text>)
    requires ShortAt(rest) == Short(flags, value)
    ensures rest == flags + Suffix(value) && flags != [] && EQUALS !in flags && DASH !in flags
  {
    RunJoins(rest, RunUntil(rest, {EQUALS, DASH}));
  }

  /** A long flag is found exactly if the argument is one, with that name and value. */
  lemma LongExactly(p: Text, name: Text, value: Option<Text>)
    ensures MatchFlag(p) == Long(name, value) <==> IsLong(p, name, value)
  {
    hide LongAt, ShortAt, Suffix;
    if IsLong(p, name, value) {
      LongIsFound(name, value);
      assert p[2..] == name + Suffix(value);
    }
    if MatchFlag(p) == Long(name, value) {
      AlternativeOf(p);
      LongAtIs(p[2..], name, value);
      assert p == DOUBLE_DASH + p[2..];
      AppendAppend(DOUBLE_DASH, name, Suffix(value));
    }
  }

  /** So is a bundle of short ones. */
  lemma ShortExactly(p: Text, flags: Text, value: Option<Text>)
    ensures MatchFlag(p) == Short(flags, value) <==> IsShort(p, flags, value)
  {
    hide LongAt, ShortAt, Suffix;
    if IsShort(p, flags, value) {
      ShortIsFound(flags, value);
      assert p[1..] == flags + Suffix(value);
      assert p[1] == flags[0];
    }
    if MatchFlag(p) == Short(flags, value) {
      AlternativeOf(p);
      ShortAtIs(p[1..], flags, value);
      assert p == [DASH] + p[1..];
      AppendAppend([DASH], flags, Suffix(value));
    }
  }

  /** Which alternative matches is seen from the second unit. */
  lemma AlternativeOf(p: Text)
    ensures MatchFlag(p).Long? ==> |p| > 1 && p[0] == DASH && p[1] == DASH && MatchFlag(p) == LongAt(p[2..])
    ensures MatchFlag(p).Short? ==> |p| > 1 && p[0] == DASH && p[1] != DASH && MatchFlag(p) == ShortAt(p[1..])
  {
    hide RunUntil;
  }

  lemma AppendAppend(a: Text, b: Text, c: Text)
    ensures a + (b + c) == a + b + c
  {
  }

  // -------------------------------------------------------------------- exploding

  /** An empty value is dropped. */
  function NonEmpty(value: Option<Text>): Option<Text> {
    if value == Some([]) then None else value
  }

  function FlagArgument(flags: Text, value: Option<Text>, k: nat): Text
    requires k < |flags|
  {
    [DASH, flags[k]] + if k == |flags| - 1 then Suffix(NonEmpty(value)) else []
  }

  function Bundle(flags: Text, value: Option<Text>): (ps: seq<Text>)
    ensures |ps| == |flags| && forall k :: 0 <= k < |ps| ==> ps[k] == FlagArgument(flags, value, k)
  {
    seq(|flags|, k requires 0 <= k < |flags| => FlagArgument(flags, value, k))
  }

  /** `-abc=value` becomes `-a`, `-b` and `-c=value`. */
  function Explode(p: Text): (ps: seq<Text>)
    ensures ps != []
  {
    match MatchFlag(p)
    case Short(flags, value) => if |flags| > 1 then Bundle(flags, value) else [p]
    case _ => [p]
  }

  /** Each argument exploded, from left to right. */
  function ExplodeAll(params: seq<Text>): seq<Text> {
    if params == [] then [] else Explode(params[0]) + ExplodeAll(params[1..])
  }

  /** A short flag that is not alone is none of the exploded ones. */
  ghost predicate IsSingle(p: Text) {
    MatchFlag(p).Short? ==> |MatchFlag(p).flags| == 1
  }

  ghost predicate AllSingle(ps: seq<Text>) {
    forall k :: 0 <= k < |ps| ==> IsSingle(ps[k])
  }

  lemma FlagArgumentIs(flags: Text, value: Option<Text>, k: nat)
    requires k < |flags| && EQUALS !in flags && DASH !in flags
    ensures MatchFlag(FlagArgument(flags, value, k)) ==
      Short([flags[k]], if k == |flags| - 1 then NonEmpty(value) else None)
  {
    var part := if k == |flags| - 1 then NonEmpty(value) else None;
    assert FlagArgument(flags, value, k) == [DASH] + [flags[k]] + Suffix(part);
    ShortExactly(FlagArgument(flags, value, k), [flags[k]], part);
  }

  lemma ExplodeSingles(p: Text)
    ensures AllSingle(Explode(p)) && (DOUBLE_DASH in Explode(p) ==> p == DOUBLE_DASH)
  {
    match MatchFlag(p)
    case Short(flags, value) =>
      if |flags| > 1 {
        ShortExactly(p, flags, value);
        forall k | 0 <= k < |flags| ensures IsSingle(Explode(p)[k]) && Explode(p)[k] != DOUBLE_DASH {
          FlagArgumentIs(flags, value, k);
        }
      }
    case _ =>
  }

  lemma {:induction false} ExplodeAllSingles(params: seq<Text>)
    ensures AllSingle(ExplodeAll(params)) && (DOUBLE_DASH in ExplodeAll(params) ==> DOUBLE_DASH in params)
  {
    if params != [] {
      ExplodeSingles(params[0]);
      ExplodeAllSingles(params[1..]);
    }
  }

  /** Exploding again changes nothing. */
  lemma {:induction false} SinglesStay(ps: seq<Text>)
    requires AllSingle(ps)
    ensures ExplodeAll(ps) == ps
  {
    if ps != [] {
      assert IsSingle(ps[0]);
      assert AllSingle(ps[1..]);
      SinglesStay(ps[1..]);
    }
  }

  // --------------------------------------------------------------------- tokens

  function ContentOf(p: Text): (c: Content)
    ensures !c.DoubleDash?
    ensures IsSingle(p) && (c.Flag? || c.Both?) && c.short ==> |c.name| == 1
  {
    match MatchFlag(p)
    case NoMatch => Value(p)
    case Long(name, value) => if NonEmpty(value).Some? then Both(name, false, value.value) else Flag(name, false)
    case Short(flags, value) => if NonEmpty(value).Some? then Both(flags, true, value.value) else Flag(flags, true)
  }

  /** The arguments before and after the first `--`. */
  function IndexOf(inputs: seq<Text>, argument: Text): (n: nat)
    ensures n <= |inputs| && (forall k :: 0 <= k < n ==> inputs[k] != argument)
      && (n < |inputs| ==> inputs[n] == argument)
  {
    if inputs == [] || inputs[0] == argument then 0 else 1 + IndexOf(inputs[1..], argument)
  }

  function Params(inputs: seq<Text>): seq<Text> {
    inputs[..IndexOf(inputs, DOUBLE_DASH)]
  }

  function Extras(inputs: seq<Text>): seq<Text> {
    if IndexOf(inputs, DOUBLE_DASH) == |inputs| then [] else inputs[IndexOf(inputs, DOUBLE_DASH) + 1..]
  }

  function ParamContents(params: seq<Text>): (cs: seq<Content>)
    ensures |cs| == |params| && forall k :: 0 <= k < |cs| ==> cs[k] == ContentOf(params[k])
  {
    seq(|params|, k requires 0 <= k < |params| => ContentOf(params[k]))
  }

  function ExtraContents(extras: seq<Text>): (cs: seq<Content>)
    ensures extras == [] ==> cs == []
    ensures extras != [] ==>
      |cs| == |extras| + 1 && cs[0] == DoubleDash && forall k :: 0 <= k < |extras| ==> cs[k + 1] == Value(extras[k])
  {
    if extras == [] then [] else [DoubleDash] + seq(|extras|, k requires 0 <= k < |extras| => Value(extras[k]))
  }

  function Numbered(cs: seq<Content>, total: nat): (ts: seq<Token>)
    ensures |ts| == |cs| && forall k :: 0 <= k < |ts| ==> ts[k] == Token(cs[k], k, total)
  {
    seq(|cs|, k requires 0 <= k < |cs| => Token(cs[k], k, total))
  }

  function Tokenize(inputs: seq<Text>): seq<Token> {
    var params := ExplodeAll(Params(inputs));
    Numbered(ParamContents(params) + ExtraContents(Extras(inputs)), |params|)
  }

  /** `toString`, and `--` for the double dash. */
  function PrintContent(c: Content): Text {
    match c
    case Value(value) => value
    case Flag(name, short) => (if short then [DASH] else DOUBLE_DASH) + name
    case Both(name, short, value) => (if short then [DASH] else DOUBLE_DASH) + name + [EQUALS] + value
    case DoubleDash => DOUBLE_DASH
  }

  function Print(ts: seq<Token>): (inputs: seq<Text>)
    ensures |inputs| == |ts| && forall k :: 0 <= k < |ts| ==> inputs[k] == PrintContent(ts[k].content)
  {
    seq(|ts|, k requires 0 <= k < |ts| => PrintContent(ts[k].content))
  }

  ghost predicate PrintsBack(c: Content) {
    var again := PrintContent(c);
    ContentOf(again) == c && IsSingle(again) && again != DOUBLE_DASH
  }

  lemma LongPrintsBack(p: Text, name: Text, value: Option<Text>)
    requires IsLong(p, name, value)
    ensures PrintsBack(if NonEmpty(value).Some? then Both(name, false, value.value) else Flag(name, false))
  {
    hide LongAt, ShortAt;
    var again := DOUBLE_DASH + name + Suffix(NonEmpty(value));
    LongExactly(again, name, NonEmpty(value));
    if NonEmpty(value).Some? {
      assert again == PrintContent(Both(name, false, value.value));
    } else {
      assert again == PrintContent(Flag(name, false));
    }
  }

  lemma ShortPrintsBack(p: Text, flags: Text, value: Option<Text>)
    requires IsShort(p, flags, value) && |flags| == 1
    ensures PrintsBack(if NonEmpty(value).Some? then Both(flags, true, value.value) else Flag(flags, true))
  {
    hide LongAt, ShortAt;
    var again := [DASH] + flags + Suffix(NonEmpty(value));
    ShortExactly(again, flags, NonEmpty(value));
    if NonEmpty(value).Some? {
      assert again == PrintContent(Both(flags, true, value.value));
    } else {
      assert again == PrintContent(Flag(flags, true));
    }
  }

  /** The token of an argument prints as an argument that is that token again, and single. */
  lemma ContentRoundTrip(p: Text)
    requires IsSingle(p) && p != DOUBLE_DASH
    ensures PrintsBack(ContentOf(p))
  {
    hide LongAt, ShortAt;
    match MatchFlag(p)
    case NoMatch =>
    case Long(name, value) =>
      LongExactly(p, name, value);
      LongPrintsBack(p, name, value);
    case Short(flags, value) =>
      ShortExactly(p, flags, value);
      ShortPrintsBack(p, flags, value);
  }

  /** Printing the tokens and splitting again gives the same tokens, names, values and positions. */
  lemma RoundTrip(inputs: seq<Text>)
    ensures Tokenize(Print(Tokenize(inputs))) == Tokenize(inputs)
  {
    hide MatchFlag, ContentOf, PrintContent, IsSingle, IndexOf;
    PrintedTokens(inputs);
    var params, extras := ExplodeAll(Params(inputs)), Extras(inputs);
    ExplodeAllSingles(Params(inputs));
    var printed := PrintedParams(params);
    PrintedStay(params);
    SplitAgain(printed, extras);
    SinglesStay(printed);
  }

  function PrintedParams(params: seq<Text>): (ps: seq<Text>)
    ensures |ps| == |params| && forall k :: 0 <= k < |ps| ==> ps[k] == PrintContent(ContentOf(params[k]))
  {
    seq(|params|, k requires 0 <= k < |params| => PrintContent(ContentOf(params[k])))
  }

  function PrintedExtras(extras: seq<Text>): seq<Text> {
    if extras == [] then [] else [DOUBLE_DASH] + extras
  }

  lemma PrintedTokens(inputs: seq<Text>)
    ensures Print(Tokenize(inputs)) == PrintedParams(ExplodeAll(Params(inputs))) + PrintedExtras(Extras(inputs))
  {
    hide ContentOf, IndexOf, ExplodeAll, ParamContents, ExtraContents;
    var params, extras := ExplodeAll(Params(inputs)), Extras(inputs);
    var expected := PrintedParams(params) + PrintedExtras(extras);
    forall k | 0 <= k < |expected| ensures Print(Tokenize(inputs))[k] == expected[k] {
      ContentAt(params, extras, k);
    }
  }

  lemma PrintedStay(params: seq<Text>)
    requires AllSingle(params) && DOUBLE_DASH !in params
    ensures AllSingle(PrintedParams(params)) && DOUBLE_DASH !in PrintedParams(params)
    ensures ParamContents(PrintedParams(params)) == ParamContents(params)
  {
    forall k | 0 <= k < |params|
      ensures IsSingle(PrintedParams(params)[k]) && PrintedParams(params)[k] != DOUBLE_DASH
      ensures ContentOf(PrintedParams(params)[k]) == ContentOf(params[k])
    {
      assert IsSingle(params[k]);
      ContentRoundTrip(params[k]);
    }
  }

  lemma {:induction false} IndexAfter(front: seq<Text>, back: seq<Text>)
    requires DOUBLE_DASH !in front && (back == [] || back[0] == DOUBLE_DASH)
    ensures IndexOf(front + back, DOUBLE_DASH) == |front|
  {
    if front == [] {
      assert front + back == back;
    } else {
      assert (front + back)[1..] == front[1..] + back;
      IndexAfter(front[1..], back);
    }
  }

  lemma SplitAgain(params: seq<Text>, extras: seq<Text>)
    requires DOUBLE_DASH !in params
    ensures Params(params + PrintedExtras(extras)) == params && Extras(params + PrintedExtras(extras)) == extras
  {
    var all := params + PrintedExtras(extras);
    IndexAfter(params, PrintedExtras(extras));
    hide IndexOf;
    assert all[..|params|] == params;
    if extras != [] {
      assert all[|params| + 1..] == extras;
    }
  }

  /** Every token has its own position as its index, and the total counts the arguments before `--`. */
  lemma IndexesAreOwn(inputs: seq<Text>, k: nat)
    requires k < |Tokenize(inputs)|
    ensures var t := Tokenize(inputs)[k];
      && t.index == k && t.total == |ExplodeAll(Params(inputs))|
      && (t.content == DoubleDash <==> Extras(inputs) != [] && k == t.total)
      && (k > t.total ==> t.content == Value(Extras(inputs)[k - t.total - 1]))
      && (t.content.Flag? && t.content.short ==> |t.content.name| == 1)
  {
    hide ExplodeAll, IndexOf, ContentOf, IsSingle;
    var params := ExplodeAll(Params(inputs));
    ExplodeAllSingles(Params(inputs));
    ContentAt(params, Extras(inputs), k);
    assert k < |params| ==> IsSingle(params[k]);
  }

  lemma ContentAt(params: seq<Text>, extras: seq<Text>, k: nat)
    requires k < |ParamContents(params) + ExtraContents(extras)|
    ensures k > |params| ==> k - |params| - 1 < |extras|
    ensures (ParamContents(params) + ExtraContents(extras))[k] ==
      if k < |params| then ContentOf(params[k])
      else if k == |params| then DoubleDash
      else Value(extras[k - |params| - 1])
  {
    hide ContentOf;
    if k > |params| {
      assert ExtraContents(extras)[k - |params| - 1 + 1] == Value(extras[k - |params| - 1]);
    }
  }

  /** A bundle of short flags is so many tokens, the last of them with the value if it is not empty. */
  lemma BundleTokens(p: Text, flags: Text, value: Option<Text>, k: nat)
    requires IsShort(p, flags, value) && k < |flags|
    ensures |Explode(p)| == |flags|
    ensures ContentOf(Explode(p)[k]) ==
      if k == |flags| - 1 && NonEmpty(value).Some? then Both([flags[k]], true, value.value) else Flag([flags[k]], true)
  {
    ShortExactly(p, flags, value);
    if |flags| > 1 {
      FlagArgumentIs(flags, value, k);
    } else {
      assert flags == [flags[k]];
    }
  }

  // ----------------------------------------------------- what the tokens say

  /** Neither alternative matches. */
  ghost predicate IsPlain(p: Text) {
    forall name: Text, value: Option<Text> :: !IsLong(p, name, value) && !IsShort(p, name, value)
  }

  /** What a flag with this name and value says; an empty value is none. */
  ghost predicate SaysFlag(c: Content, name: Text, short: bool, value: Option<Text>) {
    if value.Some? && value.value != [] then c == Both(name, short, value.value) else c == Flag(name, short)
  }

  ghost predicate Says(p: Text, c: Content) {
    && (IsPlain(p) ==> c == Value(p))
    && (forall name: Text, value: Option<Text> :: IsLong(p, name, value) ==> SaysFlag(c, name, false, value))
    && (forall flags: Text, value: Option<Text> :: IsShort(p, flags, value) ==> SaysFlag(c, flags, true, value))
  }

  lemma PlainIfNoMatch(p: Text)
    ensures MatchFlag(p).NoMatch? <==> IsPlain(p)
  {
    hide MatchFlag;
    match MatchFlag(p)
    case NoMatch =>
      forall name: Text, value: Option<Text> ensures !IsLong(p, name, value) && !IsShort(p, name, value) {
        LongExactly(p, name, value);
        ShortExactly(p, name, value);
      }
    case Long(name, value) => LongExactly(p, name, value);
    case Short(flags, value) => ShortExactly(p, flags, value);
  }

  lemma ContentSays(p: Text)
    ensures Says(p, ContentOf(p))
  {
    hide MatchFlag;
    PlainIfNoMatch(p);
    forall name: Text, value: Option<Text> | IsLong(p, name, value)
      ensures SaysFlag(ContentOf(p), name, false, value)
    {
      LongExactly(p, name, value);
    }
    forall flags: Text, value: Option<Text> | IsShort(p, flags, value)
      ensures SaysFlag(ContentOf(p), flags, true, value)
    {
      ShortExactly(p, flags, value);
    }
  }

  /** A token says what its argument is: one of the exploded ones, the double dash, or a value behind that. */
  lemma TokensSayArguments(inputs: seq<Text>, k: nat)
    requires k < |Tokenize(inputs)|
    ensures var params, c := ExplodeAll(Params(inputs)), Tokenize(inputs)[k].content;
      if k < |params| then Says(params[k], c)
      else if k == |params| then c == DoubleDash
      else k - |params| - 1 < |Extras(inputs)| && c == Value(Extras(inputs)[k - |params| - 1])
  {
    hide ContentOf, ExplodeAll, IndexOf, Says;
    var params := ExplodeAll(Params(inputs));
    ContentAt(params, Extras(inputs), k);
    if k < |params| {
      ContentSays(params[k]);
    }
  }

  lemma ExplodedBundle(p: Text, flags: Text, value: Option<Text>)
    requires IsShort(p, flags, value) && |flags| > 1
    ensures |Explode(p)| == |flags|
    ensures forall k :: 0 <= k < |flags| ==>
      Explode(p)[k] == if k == |flags| - 1 && value.Some? && value.value != [] then
          [DASH, flags[k], EQUALS] + value.value else [DASH, flags[k]]
  {
    hide MatchFlag, IsShort, Explode;
    ExplodeIsBundle(p, flags, value);
    forall k | 0 <= k < |flags|
      ensures Explode(p)[k] == if k == |flags| - 1 && value.Some? && value.value != [] then
          [DASH, flags[k], EQUALS] + value.value else [DASH, flags[k]]
    {
      assert Bundle(flags, value)[k] == FlagArgument(flags, value, k);
    }
  }

  lemma ExplodeIsBundle(p: Text, flags: Text, value: Option<Text>)
    requires IsShort(p, flags, value) && |flags| > 1
    ensures Explode(p) == Bundle(flags, value)
  {
    hide MatchFlag, IsShort, Bundle;
    ShortExactly(p, flags, value);
  }

  lemma ExplodedSingle(p: Text)
    requires forall flags: Text, value: Option<Text> :: IsShort(p, flags, value) ==> |flags| <= 1
    ensures Explode(p) == [p]
  {
    hide MatchFlag, IsShort, Bundle;
    if MatchFlag(p).Short? {
      ShortExactly(p, MatchFlag(p).flags, MatchFlag(p).value);
    }
  }

  /** A bundle of short flags becomes one argument for each of them; any other argument stays as it is. */
  lemma ExplodeSays(p: Text)
    ensures (forall flags: Text, value: Option<Text> :: IsShort(p, flags, value) ==> |flags| <= 1) ==> Explode(p) == [p]
    ensures forall flags: Text, value: Option<Text> :: IsShort(p, flags, value) && |flags| > 1 ==>
      && |Explode(p)| == |flags|
      && forall k :: 0 <= k < |flags| ==>
          Explode(p)[k] == if k == |flags| - 1 && value.Some? && value.value != [] then
              [DASH, flags[k], EQUALS] + value.value else [DASH, flags[k]]
  {
    hide Explode, IsShort;
    if forall flags: Text, value: Option<Text> :: IsShort(p, flags, value) ==> |flags| <= 1 {
      ExplodedSingle(p);
    }
    forall flags: Text, value: Option<Text> | IsShort(p, flags, value) && |flags| > 1
      ensures |Explode(p)| == |flags|
      ensures forall k :: 0 <= k < |flags| ==>
        Explode(p)[k] == if k == |flags| - 1 && value.Some? && value.value != [] then
            [DASH, flags[k], EQUALS] + value.value else [DASH, flags[k]]
    {
      ExplodedBundle(p, flags, value);
    }
  }

  /** The `=` at its end stands in front of an empty value. */
  ghost predicate HasEmptyValue(p: Text) {
    exists name: Text :: IsLong(p, name, Some([])) || IsShort(p, name, Some([]))
  }

  lemma ContentPrints(p: Text)
    ensures HasEmptyValue(p) ==> p != []
    ensures PrintContent(ContentOf(p)) == if HasEmptyValue(p) then p[..|p| - 1] else p
  {
    hide MatchFlag;
    match MatchFlag(p)
    case NoMatch => PlainIfNoMatch(p);
    case Long(name, value) =>
      LongExactly(p, name, value);
      forall other: Text ensures !IsShort(p, other, Some([])) && (IsLong(p, other, Some([])) ==> value == Some([])) {
        ShortExactly(p, other, Some([]));
        LongExactly(p, other, Some([]));
      }
    case Short(flags, value) =>
      ShortExactly(p, flags, value);
      forall other: Text ensures !IsLong(p, other, Some([])) && (IsShort(p, other, Some([])) ==> value == Some([])) {
        LongExactly(p, other, Some([]));
        ShortExactly(p, other, Some([]));
      }
  }

  /** Printed, the tokens are the exploded arguments without the `=` of an empty value, `--` and what is behind it. */
  lemma PrintSaysArguments(inputs: seq<Text>)
    ensures var printed, params, extras := Print(Tokenize(inputs)), ExplodeAll(Params(inputs)), Extras(inputs);
      && |printed| == |params| + (if extras == [] then 0 else 1 + |extras|)
      && (forall k :: 0 <= k < |params| ==>
            if HasEmptyValue(params[k]) then printed[k] + [EQUALS] == params[k] else printed[k] == params[k])
      && (extras != [] ==> printed[|params|..] == [DOUBLE_DASH] + extras)
  {
    hide ContentOf, ExplodeAll, IndexOf, PrintContent, HasEmptyValue;
    PrintedTokens(inputs);
    var params, extras := ExplodeAll(Params(inputs)), Extras(inputs);
    forall k | 0 <= k < |params|
      ensures var printed := PrintedParams(params)[k];
        if HasEmptyValue(params[k]) then printed + [EQUALS] == params[k] else printed == params[k]
    {
      ContentPrints(params[k]);
      EmptyValueEnds(params[k]);
    }
    assert (PrintedParams(params) + PrintedExtras(extras))[|params|..] == PrintedExtras(extras);
  }

  lemma EmptyValueEnds(p: Text)
    ensures HasEmptyValue(p) ==> p != [] && p == p[..|p| - 1] + [EQUALS]
  {
  }

  /** Neither a bundle nor with an empty value. */
  ghost predicate PrintsAsItIs(p: Text) {
    !HasEmptyValue(p) && forall flags: Text, value: Option<Text> :: IsShort(p, flags, value) ==> |flags| <= 1
  }

  lemma {:induction false} NothingToExplode(params: seq<Text>)
    requires forall k :: 0 <= k < |params| ==> PrintsAsItIs(params[k])
    ensures ExplodeAll(params) == params
  {
    hide Explode, PrintsAsItIs;
    if params != [] {
      NoBundle(params[0]);
      NothingToExplode(params[1..]);
    }
  }

  lemma NoBundle(p: Text)
    requires PrintsAsItIs(p)
    ensures Explode(p) == [p]
  {
    hide Explode, HasEmptyValue;
    ExplodeSays(p);
  }

  lemma PartsGiveBack(inputs: seq<Text>)
    requires IndexOf(inputs, DOUBLE_DASH) != |inputs| - 1
    ensures inputs == Params(inputs) + PrintedExtras(Extras(inputs))
  {
    hide IndexOf;
    var n := IndexOf(inputs, DOUBLE_DASH);
    if n < |inputs| {
      TakeDrop(inputs, n);
      assert inputs[n + 1..] == Extras(inputs);
    } else {
      assert Params(inputs) == inputs;
    }
  }

  lemma TakeDrop(inputs: seq<Text>, n: nat)
    requires n < |inputs|
    ensures inputs == inputs[..n] + ([inputs[n]] + inputs[n + 1..])
  {
  }

  /** If no argument before `--` is a bundle or has an empty value, and `--` is not the last one, all is given back. */
  lemma PrintingGivesBack(inputs: seq<Text>)
    requires forall k :: 0 <= k < IndexOf(inputs, DOUBLE_DASH) ==> PrintsAsItIs(inputs[k])
    requires IndexOf(inputs, DOUBLE_DASH) != |inputs| - 1
    ensures Print(Tokenize(inputs)) == inputs
  {
    hide ContentOf, PrintContent, Tokenize, Extras, ExplodeAll, IndexOf, HasEmptyValue;
    var params := Params(inputs);
    NothingToExplode(params);
    PartsGiveBack(inputs);
    PrintedTokens(inputs);
    forall k | 0 <= k < |params| ensures PrintedParams(params)[k] == params[k] {
      assert PrintsAsItIs(params[k]);
      ContentPrints(params[k]);
    }
    assert PrintedParams(params) == params;
  }

  // -------------------------------------------------------------------- methods

  /** The flags one by one, the value at the last of them. */
  method SplitBundle(bundle: Text, value: Option<Text>) returns (arguments: seq<Text>)
    requires bundle != []
    ensures arguments == Bundle(bundle, value)
  {
    var flags: seq<Text> := seq(|bundle|, k requires 0 <= k < |bundle| => [bundle[k]]);
    if value.Some? && value.value != [] {
      flags := flags[|flags| - 1 := flags[|flags| - 1] + [EQUALS] + value.value];
      AppendAppend([bundle[|bundle| - 1]], [EQUALS], value.value);
    }
    arguments := seq(|flags|, k requires 0 <= k < |flags| => [DASH] + flags[k]);
    forall k | 0 <= k < |flags| ensures arguments[k] == FlagArgument(bundle, value, k) {
      assert [DASH] + ([bundle[k]] + Suffix(NonEmpty(value))) == [DASH, bundle[k]] + Suffix(NonEmpty(value));
    }
  }

  /** The splice in place, from the last argument to the first, so that the indexes before stay right. */
  method ExplodeMultipleFlags(params: seq<Text>) returns (spliced: seq<Text>)
    ensures spliced == ExplodeAll(params)
  {
    hide MatchFlag, Bundle;
    spliced := params;
    for index := |params| downto 0
      invariant spliced == params[..index] + ExplodeAll(params[index..])
    {
      assert params[index..][1..] == params[index + 1..];
      var found := MatchFlag(params[index]);
      var arguments := [params[index]];
      if found.Short? && |found.flags| > 1 {
        arguments := SplitBundle(found.flags, found.value);
      }
      assert arguments == Explode(params[index]);
      Spliced(params[..index + 1], index, arguments, ExplodeAll(params[index + 1..]));
      spliced := spliced[..index] + arguments + spliced[index + 1..];
    }
  }

  lemma Spliced(front: seq<Text>, index: nat, middle: seq<Text>, back: seq<Text>)
    requires |front| == index + 1
    ensures (front + back)[..index] + middle + (front + back)[index + 1..] == front[..index] + (middle + back)
  {
  }

  /** The token of one argument.  That a bundle is no longer among the arguments is proved. */
  method ContentOfArgument(param: Text) returns (content: Content)
    requires IsSingle(param)
    ensures content == ContentOf(param)
  {
    hide MatchFlag;
    var found := MatchFlag(param);
    if found.NoMatch? {
      return Value(param);
    }
    var short := found.Short?;
    var flag := if short then found.flags else found.name;
    assert short ==> |flag| == 1;
    if found.value.Some? && found.value.value != [] {
      return Both(flag, short, found.value.value);
    } else {
      return Flag(flag, short);
    }
  }

  method ParamTokens(params: seq<Text>) returns (tokens: seq<Token>)
    requires AllSingle(params)
    ensures tokens == Numbered(ParamContents(params), |params|)
  {
    hide ContentOf;
    tokens := [];
    for index := 0 to |params|
      invariant |tokens| == index &&
        forall k :: 0 <= k < index ==> tokens[k] == Token(ContentOf(params[k]), k, |params|)
    {
      assert IsSingle(params[index]);
      var content := ContentOfArgument(params[index]);
      tokens := tokens + [Token(content, index, |params|)];
    }
  }

  /** The tokens of the arguments, then those from the double dash on. */
  method TokenizeArguments(inputs: seq<Text>) returns (tokens: seq<Token>)
    ensures tokens == Tokenize(inputs)
  {
    hide ContentOf, ExplodeAll, IsSingle;
    var doubleDash := IndexOf(inputs, DOUBLE_DASH);
    var params := inputs[..doubleDash];
    var extras := if doubleDash == |inputs| then [] else inputs[doubleDash + 1..];
    params := ExplodeMultipleFlags(params);
    ExplodeAllSingles(Params(inputs));
    var total := |params|;
    tokens := ParamTokens(params);
    if |extras| > 0 {
      tokens := AppendExtras(tokens, extras);
    }
    NumberedParts(params, extras, tokens);
  }

  /** The double dash, and then a value for each argument behind it. */
  method AppendExtras(front: seq<Token>, extras: seq<Text>) returns (tokens: seq<Token>)
    ensures |tokens| == |front| + 1 + |extras| && tokens[..|front|] == front
    ensures tokens[|front|] == Token(DoubleDash, |front|, |front|)
    ensures forall k :: |front| < k < |tokens| ==> tokens[k] == Token(Value(extras[k - |front| - 1]), k, |front|)
  {
    var total := |front|;
    tokens := front + [Token(DoubleDash, total, total)];
    for index := 0 to |extras|
      invariant |tokens| == total + 1 + index && tokens[..total] == front
      invariant tokens[total] == Token(DoubleDash, total, total)
      invariant forall k :: total < k < |tokens| ==> tokens[k] == Token(Value(extras[k - total - 1]), k, total)
    {
      tokens := tokens + [Token(Value(extras[index]), total + 1 + index, total)];
    }
  }

  lemma NumberedParts(params: seq<Text>, extras: seq<Text>, tokens: seq<Token>)
    requires |tokens| == |params| + (if extras == [] then 0 else |extras| + 1)
    requires tokens[..|params|] == Numbered(ParamContents(params), |params|)
    requires extras != [] ==> tokens[|params|] == Token(DoubleDash, |params|, |params|)
    requires forall k :: |params| < k < |tokens| ==> tokens[k] == Token(Value(extras[k - |params| - 1]), k, |params|)
    ensures tokens == Numbered(ParamContents(params) + ExtraContents(extras), |params|)
  {
    hide ContentOf, ParamContents, ExtraContents;
    var contents := ParamContents(params) + ExtraContents(extras);
    forall k | 0 <= k < |tokens| ensures tokens[k] == Token(contents[k], k, |params|) {
      ContentAt(params, extras, k);
      if k < |params| {
        assert tokens[k] == tokens[..|params|][k];
      }
    }
  }
}
