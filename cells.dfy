/** Values that reach the reconciliation: the cells of an uploaded sheet and the
    entries of a store's recorded code list, seen the way JavaScript sees them. */
module Cells {

  datatype Option<+T> = None | Some(value: T)

  /** One cell of a decoded sheet row, or one entry of the recorded list.
      `Empty` stands for `undefined` and `null`: a blank cell, a hole in a
      sparse row, or an index past the end of a short row. */
  datatype Cell = Empty | Str(s: string) | Num(n: int) | Bool(b: bool)

  type Row = seq<Cell>

  /** JavaScript truthiness of a cell: `undefined`, `null`, `""`, `0` and `false` are falsy. */
  function Truthy(c: Cell): (b: bool)
    ensures b <==> c !in {Empty, Str(""), Num(0), Bool(false)}
  {
    match c
    case Empty => false
    case Str(s) => s != ""
    case Num(n) => n != 0
    case Bool(b) => b
  }

  /** The code column of an uploaded row, `row[2]`; a row of fewer than three cells reads `undefined`. */
  function CodeCell(row: Row): (c: Cell)
    ensures |row| > 2 ==> c == row[2]
    ensures |row| <= 2 ==> !Truthy(c)
  {
    if |row| > 2 then row[2] else Empty
  }

  predicate IsDigit(c: char) {
    '0' <= c <= '9'
  }

  predicate AllDigits(s: string) {
    forall i :: 0 <= i < |s| ==> IsDigit(s[i])
  }

  function DigitChar(d: nat): (c: char)
    requires d < 10
    ensures IsDigit(c) && c as int - '0' as int == d
  {
    ('0' as int + d) as char
  }

  /** The decimal digits of a natural number, most significant first, without leading zeros. */
  function NatDigits(n: nat): (s: string)
    ensures |s| > 0 && AllDigits(s)
    ensures n > 0 ==> s[0] != '0'
    decreases n
  {
    if n < 10 then [DigitChar(n)] else NatDigits(n / 10) + [DigitChar(n % 10)]
  }

  /** `String(n)` for an integer `n`: the property name an object uses when a number is its key. */
  function DecimalString(n: int): (s: string)
    ensures |s| > 0
    ensures n < 0 <==> s[0] == '-'
  {
    if n < 0 then "-" + NatDigits(-n) else NatDigits(n)
  }

  /** The value of a string of decimal digits (the inverse of NatDigits). */
  function ParseNat(s: string): nat
    requires AllDigits(s)
  {
    if s == [] then 0 else ParseNat(s[..|s| - 1]) * 10 + (s[|s| - 1] as int - '0' as int)
  }

  /** The value of an optionally signed decimal string (the inverse of DecimalString). */
  function ParseDecimal(s: string): int
    requires AllDigits(s) || (|s| > 0 && s[0] == '-' && AllDigits(s[1..]))
  {
    if |s| > 0 && s[0] == '-' then -(ParseNat(s[1..]) as int) else ParseNat(s)
  }

  lemma {:induction false} NatDigitsRoundTrip(n: nat)
    ensures ParseNat(NatDigits(n)) == n
    decreases n
  {
    if n >= 10 {
      var prefix := NatDigits(n / 10);
      var s := prefix + [DigitChar(n % 10)];
      assert s[..|s| - 1] == prefix;
      NatDigitsRoundTrip(n / 10);
    }
  }

  /** Reading back the string form of an integer yields the integer. */
  lemma DecimalRoundTrip(n: int)
    ensures ParseDecimal(DecimalString(n)) == n
  {
    var s := DecimalString(n);
    if n < 0 {
      assert s[1..] == NatDigits(-n);
      NatDigitsRoundTrip(-n);
    } else {
      NatDigitsRoundTrip(n);
    }
  }

  /** The string an object property name takes when a truthy cell is used as a key.
      A number and the text of its decimal form give the same key. */
  function Key(c: Cell): (k: string)
    requires Truthy(c)
    ensures k != ""
  {
    match c
    case Str(s) => s
    case Num(n) => DecimalString(n)
    case Bool(b) => if b then "true" else "false"
  }

  /** Two different numbers never share a key. */
  lemma NumKeysDistinct(a: int, b: int)
    requires a != 0 && b != 0 && a != b
    ensures Key(Num(a)) != Key(Num(b))
  {
    DecimalRoundTrip(a);
    DecimalRoundTrip(b);
  }

  /** A number and the text of its decimal form are counted as the same code. This
      follows from `Key` directly; it is stated to record the coercion. */
  lemma NumMeetsItsText(n: int)
    requires n != 0
    ensures Truthy(Str(DecimalString(n))) && Key(Num(n)) == Key(Str(DecimalString(n)))
  {
  }

  /** Conversely, a text that lands on the same code as a number is a decimal numeral
      whose value is that number. */
  lemma TextMeetsItsNumber(t: string, n: int)
    requires n != 0 && Truthy(Str(t)) && Key(Str(t)) == Key(Num(n))
    ensures AllDigits(t) || (|t| > 0 && t[0] == '-' && AllDigits(t[1..]))
    ensures ParseDecimal(t) == n
  {
    if n < 0 {
      assert t[1..] == NatDigits(-n);
    }
    DecimalRoundTrip(n);
  }
}
