/**
 * The board contents as values: a map from position to piece holding only
 * the occupied squares, the 64-entry row-major list that bulk setters take,
 * the two-letter piece codes, and the legality rule (exactly one white King
 * and exactly one black King).
 */
module Boards {
  import opened Results
  import opened Pieces
  import opened Squares

  /** Position to piece, for the occupied squares only. */
  type Board = map<string, Piece>

  /** One entry per square in row-major order ("a1", "b1", ..., "h1", "a2", ..., "h8"). */
  type Entries = seq<Option<Piece>>

  const WhiteKing := Piece("W", "K")
  const BlackKing := Piece("B", "K")

  /** Every key is a position "a1" .. "h8". */
  predicate OnSquares(m: Board) {
    forall sq :: sq in m ==> ValidPosition(sq)
  }

  /** Every key is a position "a1" .. "h8" and every piece is valid. */
  predicate WellFormed(m: Board) {
    OnSquares(m) && forall sq :: sq in m ==> m[sq].Valid()
  }

  /** The squares on which piece `p` stands. */
  function Occupants(m: Board, p: Piece): (squares: set<string>) {
    set sq | sq in m && m[sq] == p
  }

  /** A board is legal iff it holds exactly one white King and exactly one black King. */
  predicate Legal(m: Board) {
    |Occupants(m, WhiteKing)| == 1 && |Occupants(m, BlackKing)| == 1
  }

  // ---------------------------------------------------------------------------
  // Row-major entry lists

  /** The board described by the entries of a (prefix of a) row-major list. */
  function BoardOf(e: Entries): (m: Board)
    requires |e| <= 64
    ensures forall i :: |e| <= i < 64 ==> SquareName(i) !in m
    ensures forall i :: 0 <= i < |e| ==> (SquareName(i) in m <==> e[i].Some?)
    ensures forall i :: 0 <= i < |e| && e[i].Some? ==> m[SquareName(i)] == e[i].value
    decreases |e|
  {
    if e == [] then map[]
    else
      var n := |e| - 1;
      var front := BoardOf(e[..n]);
      forall i | 0 <= i < n ensures SquareName(i) != SquareName(n) {
        SquareNameInjective(i, n);
      }
      SquareNameInjective(n, n);
      if e[n].Some? then front[SquareName(n) := e[n].value] else front
  }

  /** Every square of the board of a list is the name of one of its entries. */
  lemma {:induction false} BoardOfKeys(e: Entries)
    requires |e| <= 64
    ensures forall sq :: sq in BoardOf(e) ==> ValidPosition(sq) && SquareIndex(sq) < |e|
    decreases |e|
  {
    if e != [] {
      BoardOfKeys(e[..|e| - 1]);
      SquareNameInjective(|e| - 1, |e| - 1);
    }
  }

  /** The row-major list of a board: entry i is the piece on square i, if any. */
  function EntriesOf(m: Board): (e: Entries)
    ensures |e| == 64
    ensures forall i :: 0 <= i < 64 ==> e[i] == Get(m, SquareName(i))
  {
    seq(64, i requires 0 <= i < 64 => Get(m, SquareName(i)))
  }

  /** Listing a board and rebuilding it gives the board back. */
  lemma BoardOfEntriesOf(m: Board)
    requires OnSquares(m)
    ensures BoardOf(EntriesOf(m)) == m
  {
    var m' := BoardOf(EntriesOf(m));
    BoardOfKeys(EntriesOf(m));
    forall sq | sq in m ensures sq in m' && m'[sq] == m[sq] {
      assert SquareName(SquareIndex(sq)) == sq;
    }
    forall sq | sq in m' ensures sq in m {
      assert SquareName(SquareIndex(sq)) == sq;
    }
  }

  /** Building a board from 64 entries and listing it gives the entries back. */
  lemma EntriesOfBoardOf(e: Entries)
    requires |e| == 64
    ensures EntriesOf(BoardOf(e)) == e
  {
  }

  /** Two full lists describe the same board iff they are equal. */
  lemma BoardOfInjective(e: Entries, e': Entries)
    requires |e| == 64 && |e'| == 64
    ensures BoardOf(e) == BoardOf(e') <==> e == e'
  {
    EntriesOfBoardOf(e);
    EntriesOfBoardOf(e');
  }

  /** Appending one entry adds at most the one new square. */
  lemma {:induction false} BoardOfSnoc(e: Entries, x: Option<Piece>)
    requires |e| < 64
    ensures BoardOf(e + [x]) == if x.Some? then BoardOf(e)[SquareName(|e|) := x.value] else BoardOf(e)
  {
    assert (e + [x])[..|e|] == e;
  }

  /** The square after the last entry is not on the board. */
  lemma {:induction false} FreshSquare(e: Entries)
    requires |e| < 64
    ensures SquareName(|e|) !in BoardOf(e)
  {
    SquareNameInjective(|e|, |e|);
  }

  /** A board on the squares that agrees with a full list square by square is the board of that list. */
  lemma AgreesWithEntries(m: Board, e: Entries)
    requires |e| == 64 && OnSquares(m)
    requires forall k :: 0 <= k < 64 ==> Get(m, SquareName(k)) == e[k]
    ensures m == BoardOf(e)
  {
    assert EntriesOf(m) == e;
    BoardOfEntriesOf(m);
  }

  /** Putting a piece on an empty square adds that square to its occupants and to no other piece's. */
  lemma OccupantsAdd(m: Board, sq: string, v: Piece, p: Piece)
    requires sq !in m
    ensures |Occupants(m[sq := v], p)| == |Occupants(m, p)| + if v == p then 1 else 0
  {
    if v == p {
      assert Occupants(m[sq := v], p) == Occupants(m, p) + {sq};
    } else {
      assert Occupants(m[sq := v], p) == Occupants(m, p);
    }
  }

  /** A piece is on the board exactly when some square holds it. */
  lemma OnBoardIffOccupies(m: Board, p: Piece)
    ensures p in m.Values <==> |Occupants(m, p)| > 0
  {
    if p in m.Values {
      var sq :| sq in m && m[sq] == p;
      assert sq in Occupants(m, p);
    }
    if |Occupants(m, p)| > 0 {
      var sq :| sq in Occupants(m, p);
      assert m[sq] in m.Values;
    }
  }

  /** A board contained in another has no more occupants of any piece. */
  lemma OccupantsOfSubBoard(m: Board, m': Board, p: Piece)
    requires forall sq :: sq in m ==> sq in m' && m'[sq] == m[sq]
    ensures |Occupants(m, p)| <= |Occupants(m', p)|
  {
    assert Occupants(m, p) <= Occupants(m', p);
    SubsetCardinality(Occupants(m, p), Occupants(m', p));
  }

  lemma SubsetCardinality<T>(a: set<T>, b: set<T>)
    requires a <= b
    ensures |a| <= |b|
  {
    assert b == a + (b - a);
  }

  /** The number of squares holding `p` is the number of entries `Some(p)`. */
  lemma {:induction false} OccupantsCount(e: Entries, p: Piece)
    requires |e| <= 64
    ensures |Occupants(BoardOf(e), p)| == multiset(e)[Some(p)]
    decreases |e|
  {
    if e != [] {
      var front, x := e[..|e| - 1], e[|e| - 1];
      assert e == front + [x];
      OccupantsCount(front, p);
      OccupantsSnoc(front, x, p);
    }
  }

  /** Appending an entry adds its square to the occupants of `p` exactly when it holds `p`. */
  lemma {:induction false} OccupantsSnoc(e: Entries, x: Option<Piece>, p: Piece)
    requires |e| < 64
    ensures SquareName(|e|) !in Occupants(BoardOf(e), p)
    ensures Occupants(BoardOf(e + [x]), p)
      == Occupants(BoardOf(e), p) + if x == Some(p) then {SquareName(|e|)} else {}
  {
    BoardOfSnoc(e, x);
    FreshSquare(e);
  }

  /** Legality read off a full entry list: one `Some(WhiteKing)` and one `Some(BlackKing)`. */
  lemma LegalIffOneKingEntryEach(e: Entries)
    requires |e| == 64
    ensures Legal(BoardOf(e)) <==> multiset(e)[Some(WhiteKing)] == 1 && multiset(e)[Some(BlackKing)] == 1
  {
    OccupantsCount(e, WhiteKing);
    OccupantsCount(e, BlackKing);
  }

  /** Every square of a well-formed board is counted once by its row-major list. */
  lemma OccupantsByEntries(m: Board, p: Piece)
    requires WellFormed(m)
    ensures |Occupants(m, p)| == multiset(EntriesOf(m))[Some(p)]
  {
    BoardOfEntriesOf(m);
    OccupantsCount(EntriesOf(m), p);
  }

  /** A full list describes board `m` exactly when it is the list of `m`, so "changed" can be decided square by square. */
  lemma SameBoardIffSameEntries(e: Entries, m: Board)
    requires |e| == 64 && WellFormed(m)
    ensures BoardOf(e) == m <==> e == EntriesOf(m)
  {
    BoardOfEntriesOf(m);
    EntriesOfBoardOf(e);
  }

  /** A list of valid pieces describes a well-formed board. */
  lemma BoardOfWellFormed(e: Entries)
    requires |e| <= 64
    requires forall i :: 0 <= i < |e| && e[i].Some? ==> e[i].value.Valid()
    ensures WellFormed(BoardOf(e))
  {
    var m := BoardOf(e);
    BoardOfKeys(e);
    forall sq | sq in m ensures m[sq].Valid() {
      assert SquareName(SquareIndex(sq)) == sq;
    }
  }

  /** The pieces of colour `c` among the entries, in row-major order. */
  function ColorPieces(e: Entries, c: string): (r: seq<Piece>)
    ensures forall p :: p in r ==> p.color == c
  {
    if e == [] then []
    else
      var rest := ColorPieces(e[1..], c);
      if e[0].Some? && e[0].value.color == c then [e[0].value] + rest else rest
  }

  /** Filtering by colour keeps every piece of that colour as often as it occurs, and nothing else. */
  lemma {:induction false} ColorPiecesCount(e: Entries, c: string, p: Piece)
    ensures multiset(ColorPieces(e, c))[p] == if p.color == c then multiset(e)[Some(p)] else 0
  {
    if e != [] {
      ColorPiecesCount(e[1..], c, p);
      assert e == [e[0]] + e[1..];
    }
  }

  /** Pieces of colour `c` on a well-formed board, counted through its row-major list. */
  lemma ColorPiecesOfBoard(m: Board, c: string)
    requires WellFormed(m)
    ensures forall p :: multiset(ColorPieces(EntriesOf(m), c))[p] == if p.color == c then |Occupants(m, p)| else 0
  {
    forall p ensures multiset(ColorPieces(EntriesOf(m), c))[p] == if p.color == c then |Occupants(m, p)| else 0 {
      ColorPiecesCount(EntriesOf(m), c, p);
      OccupantsByEntries(m, p);
    }
  }

  // ---------------------------------------------------------------------------
  // Piece codes

  /** The two-letter code of a piece: its colour followed by its identifying letter. */
  function Encode(p: Piece): (code: string)
    ensures p.Valid() ==> |code| == 2 && code[..1] == p.color && code[1..] == p.identifyingLetter
  {
    p.color + p.identifyingLetter
  }

  /** One board-list entry: "" for an empty square, or a colour letter and an identifying letter. */
  function Decode(code: string): (r: Result<Option<Piece>>)
    ensures r.Ok? <==> code == "" || (|code| == 2 && ValidColor(code[..1]) && ValidLetter(code[1..]))
    ensures r == Ok(None) <==> code == ""
    ensures r.Err? ==> r.error == MalformedEncoding
    ensures r.Ok? && r.value.Some? ==> r.value.value.Valid() && Encode(r.value.value) == code
  {
    if code == "" then Ok(None)
    else if |code| != 2 then Err(MalformedEncoding)
    else
      match Given(code[..1], code[1..])
      case Ok(p) =>
        assert code == code[..1] + code[1..];
        Ok(Some(p))
      case Err(_) => Err(MalformedEncoding)
  }

  /** Encoding a valid piece and decoding the code gives the piece back. */
  lemma DecodeEncode(p: Piece)
    requires p.Valid()
    ensures Decode(Encode(p)) == Ok(Some(p))
  {
    var code := Encode(p);
    assert code[..1] == p.color && code[1..] == p.identifyingLetter;
  }

  /** Every piece of a well-formed board decodes back from its code. */
  lemma DecodesBack(m: Board)
    requires WellFormed(m)
    ensures forall sq :: sq in m ==> Decode(Encode(m[sq])) == Ok(Some(m[sq]))
  {
    forall sq | sq in m ensures Decode(Encode(m[sq])) == Ok(Some(m[sq])) {
      DecodeEncode(m[sq]);
    }
  }

  /**
   * The list a string board denotes: 64 entries, each decoding. A wrong
   * length is reported before a malformed entry.
   */
  function DecodeAll(input: seq<string>): (r: Result<Entries>)
    ensures r.Ok? <==> |input| == 64 && forall i :: 0 <= i < |input| ==> Decode(input[i]).Ok?
    ensures |input| != 64 ==> r == Err(WrongCardinality)
    ensures |input| == 64 && r.Err? ==> r == Err(MalformedEncoding)
    ensures r.Ok? ==> |r.value| == 64 && forall i :: 0 <= i < 64 ==> Decode(input[i]) == Ok(r.value[i])
  {
    if |input| != 64 then Err(WrongCardinality)
    else if exists i :: 0 <= i < 64 && Decode(input[i]).Err? then Err(MalformedEncoding)
    else Ok(seq(64, i requires 0 <= i < 64 => Decode(input[i]).value))
  }

  /** The string board of a board: the code of each square's piece, "" where it is empty. */
  function CodesOf(m: Board): (codes: seq<string>)
    ensures |codes| == 64
  {
    seq(64, i requires 0 <= i < 64 => if SquareName(i) in m then Encode(m[SquareName(i)]) else "")
  }

  /** Decoding the string board of a well-formed board lists that board. */
  lemma DecodeAllCodesOf(m: Board)
    requires WellFormed(m)
    ensures DecodeAll(CodesOf(m)) == Ok(EntriesOf(m))
  {
    var codes := CodesOf(m);
    forall i | 0 <= i < 64 ensures Decode(codes[i]) == Ok(EntriesOf(m)[i]) {
      if SquareName(i) in m {
        DecodeEncode(m[SquareName(i)]);
      }
    }
    assert DecodeAll(codes).Ok?;
    assert DecodeAll(codes).value == EntriesOf(m);
  }
}
