/**
 * Square names in algebraic notation: a file letter from `Columns` followed
 * by a rank digit. Entry i of a 64-entry board list describes square
 * Columns[i % 8] followed by the decimal form of i / 8 + 1, so entry 0 is
 * "a1", entry 7 is "h1", entry 8 is "a2" and entry 63 is "h8".
 */
module Squares {

  /** The file letters, left to right. */
  const Columns: seq<string> := ["a", "b", "c", "d", "e", "f", "g", "h"]

  /** The name of square i of the row-major board list. */
  function SquareName(i: nat): (s: string)
    requires i < 64
    ensures ValidPosition(s)
  {
    ColumnLetters();
    Columns[i % 8] + [('1' as int + i / 8) as char]
  }

  /** The file letter of square i is the (i % 8)-th from 'a', its rank digit the (i / 8)-th from '1'. */
  lemma SquareNameChars(i: nat)
    requires i < 64
    ensures SquareName(i) == [('a' as int + i % 8) as char, ('1' as int + i / 8) as char]
  {
    ColumnLetters();
  }

  /** A position from "a1" to "h8": exactly two characters, a file letter and a rank digit. */
  predicate ValidPosition(s: string) {
    |s| == 2 && 'a' <= s[0] <= 'h' && '1' <= s[1] <= '8'
  }

  /** Where a valid position sits in the row-major board list. */
  function SquareIndex(s: string): (i: nat)
    requires ValidPosition(s)
    ensures i < 64 && SquareName(i) == s
  {
    var i := (s[1] as int - '1' as int) * 8 + (s[0] as int - 'a' as int);
    assert i % 8 == s[0] as int - 'a' as int && i / 8 == s[1] as int - '1' as int;
    SquareNameChars(i);
    i
  }

  /** Column k is the one-letter string holding the k-th letter from 'a'. */
  lemma ColumnLetters()
    ensures |Columns| == 8
    ensures forall k :: 0 <= k < 8 ==> Columns[k] == [('a' as int + k) as char]
  {
  }

  /** `Columns` holds eight distinct one-letter strings, in alphabetical order. */
  lemma ColumnsDistinctInOrder()
    ensures |Columns| == 8
    ensures forall k :: 0 <= k < 8 ==> |Columns[k]| == 1
    ensures forall k, l :: 0 <= k < l < 8 ==> Columns[k][0] < Columns[l][0]
  {
    ColumnLetters();
  }

  /** Distinct indices name distinct squares, and `SquareIndex` undoes `SquareName`. */
  lemma {:induction false} SquareNameInjective(i: nat, j: nat)
    requires i < 64 && j < 64
    ensures SquareName(i) == SquareName(j) <==> i == j
    ensures SquareIndex(SquareName(i)) == i
  {
    var s := SquareName(i);
    var k := SquareIndex(s);
    SquareNameChars(i);
    SquareNameChars(j);
    assert s[0] as int - 'a' as int == i % 8 && s[1] as int - '1' as int == i / 8;
    assert k == i;
    if SquareName(i) == SquareName(j) {
      assert SquareName(j)[0] == s[0] && SquareName(j)[1] == s[1];
      assert i % 8 == j % 8 && i / 8 == j / 8;
    }
  }

  /** Entry 0 is a1, entry 7 is h1, entry 8 is a2, entry 63 is h8; the Kings start on entries 4 and 60. */
  lemma SquareNameExamples()
    ensures SquareName(0) == "a1" && SquareName(7) == "h1" && SquareName(8) == "a2" && SquareName(63) == "h8"
    ensures SquareName(4) == "e1" && SquareName(60) == "e8"
  {
    SquareNameChars(0);
    SquareNameChars(7);
    SquareNameChars(8);
    SquareNameChars(63);
    SquareNameChars(4);
    SquareNameChars(60);
  }

  /** The valid positions are exactly the 64 square names. */
  lemma ValidPositionIsSquareName(s: string)
    ensures ValidPosition(s) <==> exists i :: 0 <= i < 64 && SquareName(i) == s
  {
    if ValidPosition(s) {
      var i := SquareIndex(s);
      assert SquareName(i) == s;
    }
  }
}
