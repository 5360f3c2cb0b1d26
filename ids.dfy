/**
 * Tile identities. Each tile is named by the template string `${row}-${col}` of its
 * correct cell (components/PuzzleBoard.js:82): the decimal numerals of row and column
 * joined by a dash. Ids are compared as strings by `swapTiles` and by the release handler.
 */
module TileIds {

  predicate IsDigit(ch: char) {
    '0' <= ch <= '9'
  }

  function Digit(d: nat): (ch: char)
    requires d < 10
    ensures IsDigit(ch) && ch as int - '0' as int == d
  {
    ('0' as int + d) as char
  }

  function DigitValue(ch: char): (d: nat)
    requires IsDigit(ch)
    ensures d < 10 && Digit(d) == ch
  {
    ch as int - '0' as int
  }

  /** The decimal numeral of `n`, as JavaScript's template strings print a non-negative integer. */
  function Decimal(n: nat): (s: string)
    ensures |s| > 0
    ensures forall i :: 0 <= i < |s| ==> IsDigit(s[i])
    decreases n
  {
    if n < 10 then [Digit(n)] else Decimal(n / 10) + [Digit(n % 10)]
  }

  /** Reads a numeral back; the reference definition against which `Decimal` is checked. */
  function ParseDecimal(s: string): nat
    requires forall i :: 0 <= i < |s| ==> IsDigit(s[i])
    decreases |s|
  {
    if s == [] then 0
    else ParseDecimal(s[..|s| - 1]) * 10 + DigitValue(s[|s| - 1])
  }

  lemma {:induction false} ParseDecimalInverts(n: nat)
    ensures ParseDecimal(Decimal(n)) == n
    decreases n
  {
    if n >= 10 {
      var s := Decimal(n);
      assert s[..|s| - 1] == Decimal(n / 10);
      ParseDecimalInverts(n / 10);
    }
  }

  /** Distinct numbers have distinct numerals. */
  lemma DecimalInjective(a: nat, b: nat)
    requires Decimal(a) == Decimal(b)
    ensures a == b
  {
    ParseDecimalInverts(a);
    ParseDecimalInverts(b);
  }

  /** The id of the tile whose correct cell is (row, col). */
  function TileId(row: nat, col: nat): (id: string)
    ensures |id| == |Decimal(row)| + 1 + |Decimal(col)| && id[|Decimal(row)|] == '-'
    ensures forall i :: 0 <= i < |id| && i != |Decimal(row)| ==> IsDigit(id[i])
  {
    Decimal(row) + "-" + Decimal(col)
  }

  /** The dash cannot be confused with a digit, so an id determines its row and column. */
  lemma TileIdInjective(r1: nat, c1: nat, r2: nat, c2: nat)
    requires TileId(r1, c1) == TileId(r2, c2)
    ensures r1 == r2 && c1 == c2
  {
    var s := TileId(r1, c1);
    var a1, a2 := Decimal(r1), Decimal(r2);
    assert s[|a1|] == '-';
    assert TileId(r2, c2)[|a2|] == '-';
    if |a1| < |a2| {
      assert false;
    } else if |a2| < |a1| {
      assert false;
    }
    assert a1 == s[..|a1|] == a2;
    DecimalInjective(r1, r2);
    assert Decimal(c1) == s[|a1| + 1..] == Decimal(c2);
    DecimalInjective(c1, c2);
  }
}
