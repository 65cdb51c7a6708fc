/** The `", ".join(map(str, row))` that turns a drafted player's record into one
    cell of the draft table, and Python's `str.split(", ")` that reads it back. */
module Serialise {
  import opened Records

  const Sep: string := ", "

  /** `s` contains the separator `", "` somewhere. */
  predicate HasSep(s: string) {
    exists i :: 0 <= i < |s| - 1 && s[i] == ',' && s[i + 1] == ' '
  }

  /** `", ".join(parts)`: the parts with the separator between neighbours. No parts
      give the empty string, one part is returned as it is, the text always starts
      with the first part, and from two parts on the separator appears in it. */
  function Join(parts: seq<string>): (s: string)
    ensures |parts| == 0 ==> s == ""
    ensures |parts| == 1 ==> s == parts[0]
    ensures |parts| >= 1 ==> parts[0] <= s
    ensures |parts| >= 2 ==> HasSep(s)
    decreases |parts|
  {
    if |parts| == 0 then ""
    else if |parts| == 1 then parts[0]
    else
      var rest := Join(parts[1..]);
      var s := parts[0] + Sep + rest;
      assert s[|parts[0]|] == ',' && s[|parts[0]| + 1] == ' ';
      s
  }

  /** `s.split(", ")`: scan left to right and cut at every occurrence of the
      separator. The result always has at least one piece. */
  function Split(s: string): (parts: seq<string>)
    ensures |parts| >= 1
    decreases |s|
  {
    if |s| < 2 then [s]
    else if s[0] == ',' && s[1] == ' ' then [""] + Split(s[2..])
    else
      var rest := Split(s[1..]);
      [[s[0]] + rest[0]] + rest[1..]
  }

  /** `str` of every cell of a record, in column order (`map(str, row)`). */
  function CellTexts(cells: seq<Cell>): (texts: seq<string>)
    ensures |texts| == |cells|
    ensures forall i :: 0 <= i < |cells| ==> texts[i] == Str(cells[i])
  {
    seq(|cells|, i requires 0 <= i < |cells| => Str(cells[i]))
  }

  /** The `GK` cell text of one drafted player: `str` of every field, `", "`-joined.
      It starts with the first column's text, and holds the separator once the
      record has two columns. */
  function SerialiseRecord(p: Player): (s: string)
    ensures |p.fields| >= 1 ==> Str(p.fields[0]) <= s
    ensures |p.fields| >= 2 ==> HasSep(s)
  {
    Join(CellTexts(p.fields))
  }

  /** No text cell of the record holds the separator. */
  predicate TextFieldsFreeOfSep(p: Player) {
    forall i :: 0 <= i < |p.fields| && p.fields[i].Text? ==> !HasSep(p.fields[i].text)
  }

  /** A piece without the separator is not cut. */
  lemma {:induction false} SplitWithoutSep(x: string)
    requires !HasSep(x)
    ensures Split(x) == [x]
    decreases |x|
  {
    if |x| >= 2 {
      assert !(x[0] == ',' && x[1] == ' ');
      SplitWithoutSep(x[1..]);
      assert [x[0]] + x[1..] == x;
    }
  }

  /** The first cut of `x + ", " + rest` falls right after `x` when `x` has no separator. */
  lemma {:induction false} SplitAfterPiece(x: string, rest: string)
    requires !HasSep(x)
    ensures Split(x + Sep + rest) == [x] + Split(rest)
    decreases |x|
  {
    var s := x + Sep + rest;
    if |x| == 0 {
      assert s[2..] == rest;
    } else {
      assert s[0] == x[0];
      assert !(s[0] == ',' && s[1] == ' ') by {
        if |x| >= 2 { assert s[1] == x[1]; } else { assert s[1] == ','; }
      }
      assert s[1..] == x[1..] + Sep + rest;
      SplitAfterPiece(x[1..], rest);
      assert [x[0]] + x[1..] == x;
    }
  }

  /** Splitting the joined text on `", "` gives back the pieces, provided there is
      at least one piece and no piece contains the separator. */
  lemma {:induction false} SplitJoin(parts: seq<string>)
    requires |parts| >= 1
    requires forall i :: 0 <= i < |parts| ==> !HasSep(parts[i])
    ensures Split(Join(parts)) == parts
    decreases |parts|
  {
    if |parts| == 1 {
      SplitWithoutSep(parts[0]);
    } else {
      SplitJoin(parts[1..]);
      SplitAfterPiece(parts[0], Join(parts[1..]));
      assert [parts[0]] + parts[1..] == parts;
    }
  }

  /** `str` of an integer cell is a sign and digits, so it never holds the separator. */
  lemma IntCellHasNoSep(n: int)
    ensures !HasSep(Str(Int(n)))
  {
  }

  /** The serialised record of a player whose text cells hold no `", "` splits back
      into `str` of each of its fields, in column order. */
  lemma RecordRoundTrip(p: Player)
    requires |p.fields| >= 1
    requires TextFieldsFreeOfSep(p)
    ensures Split(SerialiseRecord(p)) == CellTexts(p.fields)
  {
    var texts := CellTexts(p.fields);
    forall i | 0 <= i < |texts|
      ensures !HasSep(texts[i])
    {
      if p.fields[i].Int? {
        IntCellHasNoSep(p.fields[i].number);
      }
    }
    SplitJoin(texts);
  }
}
