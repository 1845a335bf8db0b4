/**
 * A chess piece: a colour ("W" or "B") and an identifying letter
 * ("P" Pawn, "R" Rook, "N" kNight, "B" Bishop, "Q" Queen, "K" King),
 * both kept as strings as in the source, with structural equality and the
 * comparator that orders by colour and then by letter.
 */
module Pieces {
  import opened Results

  /** The immutable piece value. Only `Given` and the factories build pieces, and they validate. */
  datatype Piece = Piece(color: string, identifyingLetter: string) {

    /** The validation the private constructor performs. */
    predicate Valid() {
      ValidColor(color) && ValidLetter(identifyingLetter)
    }

    predicate IsWhite() {
      color == "W"
    }

    predicate IsBlack() {
      color == "B"
    }

    /** Structural equality: same colour and same identifying letter. */
    predicate Equals(other: Piece)
      ensures Equals(other) <==> this == other
    {
      color == other.color && identifyingLetter == other.identifyingLetter
    }
  }

  predicate ValidColor(color: string) {
    color == "W" || color == "B"
  }

  predicate ValidLetter(letter: string) {
    letter == "P" || letter == "R" || letter == "N" || letter == "B" || letter == "Q" || letter == "K"
  }

  /** The factory `given` and the constructor's checks: the colour is checked first, then the letter. */
  function Given(color: string, identifyingLetter: string): (r: Result<Piece>)
    ensures r.Ok? <==> ValidColor(color) && ValidLetter(identifyingLetter)
    ensures !ValidColor(color) ==> r == Err(InvalidColor)
    ensures ValidColor(color) && !ValidLetter(identifyingLetter) ==> r == Err(InvalidLetter)
    ensures r.Ok? ==> r.value.Valid()
    ensures r.Ok? ==> r.value.color == color && r.value.identifyingLetter == identifyingLetter
  {
    if !ValidColor(color) then Err(InvalidColor)
    else if !ValidLetter(identifyingLetter) then Err(InvalidLetter)
    else Ok(Piece(color, identifyingLetter))
  }

  function Pawn(color: string): (r: Result<Piece>)
    ensures r.Ok? <==> ValidColor(color)
    ensures r.Ok? ==> r.value.color == color && r.value.identifyingLetter == "P" && r.value.Valid()
  {
    Given(color, "P")
  }

  function Rook(color: string): (r: Result<Piece>)
    ensures r.Ok? <==> ValidColor(color)
    ensures r.Ok? ==> r.value.color == color && r.value.identifyingLetter == "R" && r.value.Valid()
  {
    Given(color, "R")
  }

  function Knight(color: string): (r: Result<Piece>)
    ensures r.Ok? <==> ValidColor(color)
    ensures r.Ok? ==> r.value.color == color && r.value.identifyingLetter == "N" && r.value.Valid()
  {
    Given(color, "N")
  }

  function Bishop(color: string): (r: Result<Piece>)
    ensures r.Ok? <==> ValidColor(color)
    ensures r.Ok? ==> r.value.color == color && r.value.identifyingLetter == "B" && r.value.Valid()
  {
    Given(color, "B")
  }

  function Queen(color: string): (r: Result<Piece>)
    ensures r.Ok? <==> ValidColor(color)
    ensures r.Ok? ==> r.value.color == color && r.value.identifyingLetter == "Q" && r.value.Valid()
  {
    Given(color, "Q")
  }

  function King(color: string): (r: Result<Piece>)
    ensures r.Ok? <==> ValidColor(color)
    ensures r.Ok? ==> r.value.color == color && r.value.identifyingLetter == "K" && r.value.Valid()
  {
    Given(color, "K")
  }

  /** Every valid piece is white or black, never both. */
  lemma WhiteXorBlack(p: Piece)
    requires p.Valid()
    ensures p.IsWhite() != p.IsBlack()
  {
  }

  /** `Equals` is an equivalence relation. */
  lemma EqualsIsEquivalence(p: Piece, q: Piece, s: Piece)
    ensures p.Equals(p)
    ensures p.Equals(q) ==> q.Equals(p)
    ensures p.Equals(q) && q.Equals(s) ==> p.Equals(s)
  {
  }

  // ---------------------------------------------------------------------------
  // Ordering

  /**
   * Java's `String.compareTo`: the difference of the first differing
   * characters, or the difference of the lengths when one string is a
   * prefix of the other.
   */
  function CompareStrings(a: string, b: string): (r: int)
    decreases |a|
  {
    if a == [] || b == [] then |a| - |b|
    else if a[0] != b[0] then a[0] as int - b[0] as int
    else CompareStrings(a[1..], b[1..])
  }

  lemma {:induction false} CompareStringsZero(a: string, b: string)
    ensures CompareStrings(a, b) == 0 <==> a == b
    decreases |a|
  {
    if a != [] && b != [] && a[0] == b[0] {
      CompareStringsZero(a[1..], b[1..]);
      assert a == [a[0]] + a[1..] && b == [b[0]] + b[1..];
    }
  }

  lemma {:induction false} CompareStringsAntisymmetric(a: string, b: string)
    ensures CompareStrings(a, b) == -CompareStrings(b, a)
    decreases |a|
  {
    if a != [] && b != [] && a[0] == b[0] {
      CompareStringsAntisymmetric(a[1..], b[1..]);
    }
  }

  lemma {:induction false} CompareStringsTransitive(a: string, b: string, c: string)
    requires CompareStrings(a, b) <= 0 && CompareStrings(b, c) <= 0
    ensures CompareStrings(a, c) <= 0
    decreases |a|
  {
    if a != [] && b != [] && c != [] && a[0] == b[0] && b[0] == c[0] {
      CompareStringsTransitive(a[1..], b[1..], c[1..]);
    }
  }

  /** `getComparator`: compare the colours, and the identifying letters when the colours are equal. */
  function Compare(p: Piece, q: Piece): (r: int) {
    var byColor := CompareStrings(p.color, q.color);
    if byColor != 0 then byColor else CompareStrings(p.identifyingLetter, q.identifyingLetter)
  }

  /** The comparator returns 0 exactly for equal pieces. */
  lemma CompareZeroIffEqual(p: Piece, q: Piece)
    ensures Compare(p, q) == 0 <==> p == q
  {
    CompareStringsZero(p.color, q.color);
    CompareStringsZero(p.identifyingLetter, q.identifyingLetter);
  }

  lemma CompareAntisymmetric(p: Piece, q: Piece)
    ensures Compare(p, q) == -Compare(q, p)
  {
    CompareStringsAntisymmetric(p.color, q.color);
    CompareStringsAntisymmetric(p.identifyingLetter, q.identifyingLetter);
  }

  lemma CompareTransitive(p: Piece, q: Piece, s: Piece)
    requires Compare(p, q) <= 0 && Compare(q, s) <= 0
    ensures Compare(p, s) <= 0
  {
    CompareStringsZero(p.color, q.color);
    CompareStringsZero(q.color, s.color);
    CompareStringsAntisymmetric(p.color, q.color);
    CompareStringsAntisymmetric(q.color, s.color);
    CompareStringsTransitive(p.color, q.color, s.color);
    if p.color == q.color && q.color == s.color {
      CompareStringsTransitive(p.identifyingLetter, q.identifyingLetter, s.identifyingLetter);
    } else {
      CompareStringsZero(p.color, s.color);
    }
  }

  /** Any two pieces are comparable. */
  lemma CompareTotal(p: Piece, q: Piece)
    ensures Compare(p, q) <= 0 || Compare(q, p) <= 0
  {
    CompareAntisymmetric(p, q);
  }

  /** Between pieces of one colour the comparator is the order of the identifying letters. */
  lemma CompareSameColor(p: Piece, q: Piece)
    requires p.color == q.color
    ensures Compare(p, q) == CompareStrings(p.identifyingLetter, q.identifyingLetter)
  {
    CompareStringsZero(p.color, q.color);
  }

  /** Within one colour: Bishop < King < kNight < Pawn < Queen < Rook. */
  lemma LetterOrder(c: string)
    ensures Compare(Piece(c, "B"), Piece(c, "K")) < 0
    ensures Compare(Piece(c, "K"), Piece(c, "N")) < 0
    ensures Compare(Piece(c, "N"), Piece(c, "P")) < 0
    ensures Compare(Piece(c, "P"), Piece(c, "Q")) < 0
    ensures Compare(Piece(c, "Q"), Piece(c, "R")) < 0
  {
    CompareStringsZero(c, c);
  }

  /** Every black piece comes before every white piece. */
  lemma BlackBeforeWhite(p: Piece, q: Piece)
    requires p.IsBlack() && q.IsWhite()
    ensures Compare(p, q) < 0
  {
  }

  // ---------------------------------------------------------------------------
  // Sorting by the comparator

  predicate Sorted(s: seq<Piece>) {
    forall i, j :: 0 <= i < j < |s| ==> Compare(s[i], s[j]) <= 0
  }

  /** Inserts `p` into the sorted `s`, before the first element it does not exceed. */
  function Insert(p: Piece, s: seq<Piece>): (r: seq<Piece>)
    requires Sorted(s)
    ensures Sorted(r)
    ensures multiset(r) == multiset(s) + multiset{p}
  {
    if s == [] then [p]
    else if Compare(p, s[0]) <= 0 then
      InsertFrontSorted(p, s);
      [p] + s
    else
      var rest := Insert(p, s[1..]);
      CompareAntisymmetric(p, s[0]);
      MultisetHeadTail(s);
      HeadBeforeInserted(p, s, rest);
      [s[0]] + rest
  }

  /** The head of a sorted `s` stays in front when `p`, above it, goes into the tail. */
  lemma HeadBeforeInserted(p: Piece, s: seq<Piece>, rest: seq<Piece>)
    requires Sorted(s) && s != [] && Compare(s[0], p) <= 0
    requires Sorted(rest) && multiset(rest) == multiset(s[1..]) + multiset{p}
    ensures Sorted([s[0]] + rest)
  {
    forall y | y in multiset(rest) ensures Compare(s[0], y) <= 0 {
      if y != p {
        assert y in s[1..];
        var k :| 0 <= k < |s[1..]| && s[1..][k] == y;
        assert s[k + 1] == y;
      }
    }
    PrependSorted(s[0], rest);
  }

  /** A sorted sequence stays sorted when an element no greater than its head goes in front. */
  lemma InsertFrontSorted(p: Piece, s: seq<Piece>)
    requires Sorted(s) && s != [] && Compare(p, s[0]) <= 0
    ensures Sorted([p] + s)
  {
    forall j | 0 < j < |s| ensures Compare(p, s[j]) <= 0 {
      CompareTransitive(p, s[0], s[j]);
    }
  }

  /** Prepending an element no greater than every element keeps a sequence sorted. */
  lemma PrependSorted(x: Piece, s: seq<Piece>)
    requires Sorted(s)
    requires forall y :: y in multiset(s) ==> Compare(x, y) <= 0
    ensures Sorted([x] + s)
  {
    forall j | 0 <= j < |s| ensures Compare(x, s[j]) <= 0 {
      assert s[j] in multiset(s);
    }
  }

  /** Insertion sort by the comparator. */
  function SortPieces(s: seq<Piece>): (r: seq<Piece>)
    ensures Sorted(r)
    ensures multiset(r) == multiset(s)
  {
    if s == [] then []
    else
      assert s == [s[0]] + s[1..];
      Insert(s[0], SortPieces(s[1..]))
  }

  /**
   * A sorted permutation is unique: the comparator is 0 only on equal pieces,
   * so any sort by it (stable or not) gives the same list.
   */
  lemma {:induction false} SortedUnique(a: seq<Piece>, b: seq<Piece>)
    requires Sorted(a) && Sorted(b) && multiset(a) == multiset(b)
    ensures a == b
  {
    assert |a| == |b| by { assert |multiset(a)| == |multiset(b)|; }
    if a != [] {
      var x, y := a[0], b[0];
      assert Compare(x, y) <= 0 by {
        assert y in multiset(a);
        LeastHead(a, y);
      }
      assert Compare(y, x) <= 0 by {
        assert x in multiset(b);
        LeastHead(b, x);
      }
      CompareAntisymmetric(x, y);
      CompareZeroIffEqual(x, y);
      assert x == y;
      assert multiset(a[1..]) == multiset(b[1..]) by {
        MultisetHeadTail(a);
        MultisetHeadTail(b);
        assert multiset(a[1..]) == multiset(a) - multiset{x};
      }
      SortedTail(a);
      SortedTail(b);
      SortedUnique(a[1..], b[1..]);
    }
  }

  lemma MultisetHeadTail(s: seq<Piece>)
    requires s != []
    ensures multiset(s) == multiset{s[0]} + multiset(s[1..])
  {
    assert s == [s[0]] + s[1..];
  }

  /** The head of a sorted sequence is no greater than any of its elements. */
  lemma LeastHead(s: seq<Piece>, y: Piece)
    requires Sorted(s) && y in multiset(s)
    ensures Compare(s[0], y) <= 0
  {
    var i :| 0 <= i < |s| && s[i] == y;
    if i == 0 {
      CompareZeroIffEqual(y, y);
    }
  }

  lemma SortedTail(s: seq<Piece>)
    requires Sorted(s) && s != []
    ensures Sorted(s[1..])
  {
    forall i, j | 0 <= i < j < |s| - 1 ensures Compare(s[1..][i], s[1..][j]) <= 0 {
      assert s[1..][i] == s[i + 1] && s[1..][j] == s[j + 1];
    }
  }
}
