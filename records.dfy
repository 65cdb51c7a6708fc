/** The rows of the players table and Python's `str` of one cell. */
module Records {

  /** One cell of a row: a text column (Name, Nation, Club, Position, ...) or an
      integer column (Overall, Age, ...). */
  datatype Cell = Text(text: string) | Int(number: int)

  /** One row of the players table. `fields` is the whole record, every column in
      column order; `position` and `overall` are the two columns the draft and the
      analytics look at, and `name` is kept only to make rows readable. */
  datatype Player = Player(name: string, position: string, overall: int, fields: seq<Cell>)

  /** `Position == "GK"`, the goalkeeper mask. */
  predicate IsGoalkeeper(p: Player) {
    p.position == "GK"
  }

  predicate IsDigit(c: char) {
    '0' <= c <= '9'
  }

  function DigitChar(d: nat): (c: char)
    requires d < 10
    ensures IsDigit(c) && c as int - '0' as int == d
  {
    "0123456789"[d]
  }

  /** Decimal digits of a natural number, most significant first, no leading zeros. */
  function NatToDecimal(n: nat): (s: string)
    ensures 1 <= |s|
    ensures forall i :: 0 <= i < |s| ==> IsDigit(s[i])
    ensures |s| > 1 ==> s[0] != '0'
    decreases n
  {
    if n < 10 then [DigitChar(n)] else NatToDecimal(n / 10) + [DigitChar(n % 10)]
  }

  /** The value a string of decimal digits denotes (the reference reading of a numeral). */
  function DecimalValue(s: string): nat
    requires forall i :: 0 <= i < |s| ==> IsDigit(s[i])
    decreases |s|
  {
    if s == [] then 0
    else assert IsDigit(s[|s| - 1]); DecimalValue(s[..|s| - 1]) * 10 + (s[|s| - 1] as int - '0' as int)
  }

  /** Python's `str` of an int: a minus sign exactly when the number is negative,
      followed by digits that read back as its magnitude. */
  function IntToDecimal(n: int): (s: string)
    ensures 1 <= |s|
    ensures (s[0] == '-') == (n < 0)
    ensures var digits := if n < 0 then s[1..] else s;
      && 1 <= |digits|
      && (forall i :: 0 <= i < |digits| ==> IsDigit(digits[i]))
      && DecimalValue(digits) == if n < 0 then -n else n
  {
    if n < 0 then
      DecimalRoundTrip(-n);
      var s := "-" + NatToDecimal(-n);
      assert s[1..] == NatToDecimal(-n);
      s
    else
      DecimalRoundTrip(n);
      NatToDecimal(n)
  }

  /** Python's `str` of one cell, as `map(str, row)` applies it: a text cell is its
      own text, and an integer cell is a sign and decimal digits only. */
  function Str(c: Cell): (s: string)
    ensures c.Text? ==> s == c.text
    ensures c.Int? ==> forall i :: 0 <= i < |s| ==> IsDigit(s[i]) || (i == 0 && s[i] == '-')
  {
    match c
    case Text(t) => t
    case Int(n) => IntToDecimal(n)
  }

  /** Reading the digits back gives the number: `str` loses nothing on a natural number. */
  lemma {:induction false} DecimalRoundTrip(n: nat)
    ensures DecimalValue(NatToDecimal(n)) == n
    decreases n
  {
    if n >= 10 {
      DecimalRoundTrip(n / 10);
      var s := NatToDecimal(n);
      assert s[..|s| - 1] == NatToDecimal(n / 10);
    }
  }
}
