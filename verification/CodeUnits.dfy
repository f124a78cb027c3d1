/**
 Text as the program sees it: a sequence of code units, cut and joined at one unit.  A code unit
 is a number; nothing here depends on its being below 0x10000.
 */
module CodeUnits {

  type CodeUnit = int

  type Text = seq<CodeUnit>

  const NEWLINE: CodeUnit := 10
  const SPACE: CodeUnit := 32

  /** The pieces between the separators; there is one piece more than there are separators. */
  function Split(text: Text, separator: CodeUnit): (pieces: seq<Text>)
    ensures |pieces| > 0
  {
    if text == [] then [[]]
    else
      var rest := Split(text[1..], separator);
      if text[0] == separator then [[]] + rest else [[text[0]] + rest[0]] + rest[1..]
  }

  function Join(pieces: seq<Text>, separator: CodeUnit): Text {
    if pieces == [] then []
    else if |pieces| == 1 then pieces[0]
    else pieces[0] + [separator] + Join(pieces[1..], separator)
  }

  function Concat(pieces: seq<Text>): Text {
    if pieces == [] then [] else pieces[0] + Concat(pieces[1..])
  }

  /** So many spaces, and none if the count is negative. */
  function Spaces(count: int): (text: Text)
    ensures |text| == if count < 0 then 0 else count
    ensures forall k :: 0 <= k < |text| ==> text[k] == SPACE
  {
    seq(if count < 0 then 0 else count, _ => SPACE)
  }

  /** Splitting loses nothing but the separators, and leaves none of them in the pieces. */
  lemma {:induction false} SplitJoin(text: Text, separator: CodeUnit)
    ensures Join(Split(text, separator), separator) == text
    ensures forall k :: 0 <= k < |Split(text, separator)| ==> separator !in Split(text, separator)[k]
    decreases |text|
  {
    if text != [] {
      SplitJoin(text[1..], separator);
      var rest := Split(text[1..], separator);
      assert text == [text[0]] + text[1..];
      if text[0] != separator && |rest| > 1 {
        assert ([[text[0]] + rest[0]] + rest[1..])[1..] == rest[1..];
      }
    }
  }

  lemma {:induction false} SplitConcat(a: Text, b: Text, separator: CodeUnit)
    ensures Split(a + [separator] + b, separator) == Split(a, separator) + Split(b, separator)
  {
    var all := a + [separator] + b;
    if a == [] {
      assert all[1..] == b;
    } else {
      SplitConcat(a[1..], b, separator);
      assert all[1..] == a[1..] + [separator] + b;
      HeadAppend(a[0], separator, Split(a[1..], separator), Split(b, separator));
    }
  }

  function Prepend(unit: CodeUnit, separator: CodeUnit, pieces: seq<Text>): seq<Text>
    requires pieces != []
  {
    if unit == separator then [[]] + pieces else [[unit] + pieces[0]] + pieces[1..]
  }

  lemma HeadAppend(unit: CodeUnit, separator: CodeUnit, a: seq<Text>, b: seq<Text>)
    requires a != []
    ensures Prepend(unit, separator, a + b) == Prepend(unit, separator, a) + b
  {
  }

  ghost predicate NoneHas(pieces: seq<Text>, separator: CodeUnit) {
    forall k :: 0 <= k < |pieces| ==> separator !in pieces[k]
  }

  lemma {:induction false} SplitPiece(piece: Text, separator: CodeUnit)
    requires separator !in piece
    ensures Split(piece, separator) == [piece]
  {
    if piece != [] {
      SplitPiece(piece[1..], separator);
      assert [piece[0]] + piece[1..] == piece;
    }
  }

  /** Joining loses nothing, but that no pieces look like one empty piece. */
  lemma {:induction false} SplitOfJoin(pieces: seq<Text>, separator: CodeUnit)
    requires NoneHas(pieces, separator)
    ensures Split(Join(pieces, separator), separator) == if pieces == [] then [[]] else pieces
  {
    if |pieces| == 1 {
      SplitPiece(pieces[0], separator);
    } else if |pieces| > 1 {
      SplitOfJoin(pieces[1..], separator);
      SplitPiece(pieces[0], separator);
      SplitConcat(pieces[0], Join(pieces[1..], separator), separator);
    }
  }

  lemma {:induction false} JoinConcat(a: seq<Text>, b: seq<Text>, separator: CodeUnit)
    requires a != [] && b != []
    ensures Join(a + b, separator) == Join(a, separator) + [separator] + Join(b, separator)
  {
    assert (a + b)[1..] == a[1..] + b;
    if |a| > 1 {
      JoinConcat(a[1..], b, separator);
      Reassociate(a[0] + [separator], Join(a[1..], separator), [separator], Join(b, separator));
    }
  }

  lemma Reassociate(a: Text, b: Text, c: Text, d: Text)
    ensures a + (b + c + d) == a + b + c + d
  {
  }
}
