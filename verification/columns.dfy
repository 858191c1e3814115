/** `getColumnLetter` (backend/src/google.ts): spreadsheet column names in
    bijective base 26, 1 -> "A", 26 -> "Z", 27 -> "AA". */
module Columns {

  predicate IsLetter(c: char) { 'A' <= c <= 'Z' }

  predicate IsColumnName(s: string)
  {
    forall k | 0 <= k < |s| :: IsLetter(s[k])
  }

  /** The name of column `n`; zero and negative numbers have the empty name. */
  function ColumnLetter(n: int): (r: string)
    ensures IsColumnName(r)
    ensures r == [] <==> n <= 0
    decreases n
  {
    if n <= 0 then ""
    else ColumnLetter((n - 1) / 26) + [(65 + (n - 1) % 26) as char]
  }

  /** The loop of the source, building the name from its last letter. */
  method GetColumnLetter(columnNumber: int) returns (letter: string)
    ensures letter == ColumnLetter(columnNumber)
  {
    letter := "";
    var n := columnNumber;
    while n > 0
      invariant ColumnLetter(columnNumber) == ColumnLetter(n) + letter
      decreases n
    {
      var remainder := (n - 1) % 26;
      letter := [(65 + remainder) as char] + letter;
      n := (n - 1) / 26;
    }
  }

  /** The number of a column name: the inverse reading. */
  function ColumnNumber(s: string): (n: nat)
    requires IsColumnName(s)
    ensures n == 0 <==> s == []
  {
    if s == [] then 0
    else 26 * ColumnNumber(s[..|s| - 1]) + (s[|s| - 1] as int - 64)
  }

  /** Reading a column's name gives back its number. */
  lemma {:induction false} NumberOfLetter(n: nat)
    ensures ColumnNumber(ColumnLetter(n)) == n
    decreases n
  {
    if n > 0 {
      var q := (n - 1) / 26;
      NumberOfLetter(q);
      var s := ColumnLetter(n);
      assert s[..|s| - 1] == ColumnLetter(q);
    }
  }

  /** Every name of upper-case letters is the name of its number: the naming
      is a bijection between positive numbers and non-empty names. */
  lemma {:induction false} LetterOfNumber(s: string)
    requires IsColumnName(s)
    ensures ColumnLetter(ColumnNumber(s)) == s
  {
    if s != [] {
      var init := s[..|s| - 1];
      var d := s[|s| - 1] as int - 64;
      LetterOfNumber(init);
      var m := ColumnNumber(init);
      var n := 26 * m + d;
      assert (n - 1) / 26 == m && (n - 1) % 26 == d - 1;
      assert s == init + [s[|s| - 1]];
    }
  }

  lemma Examples()
    ensures ColumnLetter(1) == "A" && ColumnLetter(26) == "Z" && ColumnLetter(27) == "AA"
    ensures ColumnLetter(52) == "AZ" && ColumnLetter(53) == "BA" && ColumnLetter(0) == ""
  {
  }
}
