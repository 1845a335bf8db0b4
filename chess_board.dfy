/**
 * `MyChessBoard`, the implementation of the `ChessBoard` contract: a board
 * object owning a map from position to piece, created with a White King on
 * e1 and a Black King on e8, replaced wholesale by the validating bulk
 * setters and updated in place by `MovePiece`.
 */
module ChessBoards {
  import opened Results
  import opened Pieces
  import opened Squares
  import opened Boards

  /** The layout of a new board: White King on e1, Black King on e8. */
  function InitialBoard(): (m: Board)
    ensures WellFormed(m) && Legal(m)
  {
    var m := map["e1" := WhiteKing, "e8" := BlackKing];
    assert Occupants(m, WhiteKing) == {"e1"};
    assert Occupants(m, BlackKing) == {"e8"};
    m
  }

  class MyChessBoard {
    /** The occupied squares and their pieces. */
    var board: Board

    /** Every key is a position and every piece is valid; all methods keep this. */
    ghost predicate Valid()
      reads this
    {
      WellFormed(board)
    }

    /** `newInstance`. */
    constructor ()
      ensures Valid() && Legal(board)
      ensures board == map["e1" := WhiteKing, "e8" := BlackKing]
    {
      board := InitialBoard();
    }

    /**
     * `setBoardByPieces`: validates a row-major list of 64 optional pieces,
     * and on success replaces the whole board by it, answering whether
     * any square changed (see `ScanEntries`).
     */
    method SetBoardByPieces(input: Entries) returns (r: Result<bool>)
      requires Valid()
      requires forall i :: 0 <= i < |input| && input[i].Some? ==> input[i].value.Valid()
      modifies this
      ensures Valid()
      ensures r.Ok? <==> |input| == 64 && Legal(BoardOf(input))
      ensures |input| != 64 ==> r == Err(WrongCardinality)
      ensures |input| == 64 && !Legal(BoardOf(input)) ==> r == Err(InvariantViolation)
      ensures r.Err? ==> board == old(board)
      ensures r.Ok? ==> board == BoardOf(input) && Legal(board)
      ensures r.Ok? ==> (r.value <==> board != old(board))
    {
      if |input| != 64 {
        return Err(WrongCardinality);
      }
      var candidate, legal, changed := ScanEntries(input, EntriesOf(board));
      if !legal {
        return Err(InvariantViolation);
      }
      SameBoardIffSameEntries(input, board);
      BoardOfWellFormed(input);
      board := candidate;
      return Ok(changed);
    }

    /**
     * `setBoardByString`: decodes a row-major list of 64 piece codes
     * ("" for an empty square) and then behaves as `SetBoardByPieces`.
     */
    method SetBoardByString(input: seq<string>) returns (r: Result<bool>)
      requires Valid()
      modifies this
      ensures Valid()
      ensures DecodeAll(input).Err? ==> r == Err(DecodeAll(input).error) && board == old(board)
      ensures DecodeAll(input).Ok? ==>
        var entries := DecodeAll(input).value;
        && (r.Ok? <==> Legal(BoardOf(entries)))
        && (r.Err? ==> r == Err(InvariantViolation) && board == old(board))
        && (r.Ok? ==> board == BoardOf(entries) && Legal(board) && (r.value <==> board != old(board)))
    {
      if |input| != 64 {
        return Err(WrongCardinality);
      }
      var entries: Entries := [];
      for i := 0 to 64
        invariant |entries| == i
        invariant forall j :: 0 <= j < i ==> Decode(input[j]) == Ok(entries[j])
      {
        var decoded := Decode(input[i]);
        if decoded.Err? {
          return Err(MalformedEncoding);
        }
        entries := entries + [decoded.value];
      }
      assert DecodeAll(input).Ok?;
      assert DecodeAll(input).value == entries;
      r := SetBoardByPieces(entries);
    }

    /** `getStringPiecesByPosition`: the code of the piece on each occupied square. */
    function GetStringPiecesByPosition(): (r: map<string, string>)
      reads this
      requires Valid()
      ensures r.Keys == board.Keys
      ensures forall sq :: sq in r ==> Decode(r[sq]) == Ok(Some(board[sq]))
    {
      DecodesBack(board);
      map sq | sq in board :: Encode(board[sq])
    }

    /**
     * After the string setter has loaded `input`, the code map has a key
     * for exactly the non-empty entries, and holds each such entry's code
     * on its square.
     */
    lemma CodesAfterStringSet(input: seq<string>)
      requires Valid() && DecodeAll(input).Ok? && board == BoardOf(DecodeAll(input).value)
      ensures forall i :: 0 <= i < 64 ==> (SquareName(i) in GetStringPiecesByPosition() <==> input[i] != "")
      ensures forall i :: 0 <= i < 64 && input[i] != "" ==> GetStringPiecesByPosition()[SquareName(i)] == input[i]
    {
      var entries := DecodeAll(input).value;
      forall i | 0 <= i < 64 && input[i] != "" ensures GetStringPiecesByPosition()[SquareName(i)] == input[i] {
        assert Decode(input[i]) == Ok(entries[i]);
      }
    }

    /** `getPiecesByPosition`: the piece on each occupied square. */
    function GetPiecesByPosition(): (r: Board)
      reads this
      requires Valid()
      ensures WellFormed(r)
      ensures forall sq :: ValidPosition(sq) ==> GetPieceByPosition(sq) == Ok(Get(r, sq))
      ensures r == board
    {
      board
    }

    /** `getPieceByPosition`: the piece on one square, rejecting anything but "a1" .. "h8". */
    function GetPieceByPosition(position: string): (r: Result<Option<Piece>>)
      reads this
      ensures r.Ok? <==> ValidPosition(position)
      ensures r.Err? ==> r.error == UnknownSquare
      ensures r.Ok? ==> (r.value.Some? <==> position in board)
      ensures r.Ok? && r.value.Some? ==> r.value.value == board[position]
    {
      if !ValidPosition(position) then Err(UnknownSquare) else Ok(Get(board, position))
    }

    /** `getPieces`: the distinct pieces of one colour on the board. */
    function GetPieces(color: string): (r: Result<set<Piece>>)
      reads this
      ensures r.Ok? <==> ValidColor(color)
      ensures r.Err? ==> r.error == InvalidColor
      ensures r.Ok? ==> forall p :: p in r.value <==> p.color == color && p in board.Values
    {
      if !ValidColor(color) then Err(InvalidColor)
      else Ok(set sq | sq in board && board[sq].color == color :: board[sq])
    }

    /**
     * `getOrderedPieces`: every piece of one colour, as often as it stands
     * on the board, sorted by the comparator (hence by identifying letter).
     */
    function GetOrderedPieces(color: string): (r: Result<seq<Piece>>)
      reads this
      requires Valid()
      ensures r.Ok? <==> ValidColor(color)
      ensures r.Err? ==> r.error == InvalidColor
      ensures r.Ok? ==> Sorted(r.value)
      ensures r.Ok? ==> forall p :: multiset(r.value)[p] == if p.color == color then |Occupants(board, p)| else 0
      ensures r.Ok? ==> forall i, j :: 0 <= i < j < |r.value| ==>
        CompareStrings(r.value[i].identifyingLetter, r.value[j].identifyingLetter) <= 0
    {
      if !ValidColor(color) then Err(InvalidColor)
      else
        ColorPiecesOfBoard(board, color);
        var sorted := SortPieces(ColorPieces(EntriesOf(board), color));
        SortedSameColor(sorted, color);
        Ok(sorted)
    }

    /**
     * The set of pieces of a colour is the ordered list of them with
     * repetitions dropped.
     */
    lemma PiecesAreOrderedPiecesWithoutRepeats(color: string)
      requires Valid() && ValidColor(color)
      ensures GetPieces(color).value == set p | p in GetOrderedPieces(color).value
    {
      var ordered := GetOrderedPieces(color).value;
      forall p ensures p in GetPieces(color).value <==> p in ordered {
        OnBoardIffOccupies(board, p);
        assert p in ordered <==> multiset(ordered)[p] > 0;
      }
    }

    /**
     * `movePiece`: moves the piece on `oldPosition` to `newPosition`,
     * capturing by overwrite, with no check of the rules of chess.
     */
    method MovePiece(oldPosition: string, newPosition: string) returns (r: Outcome)
      requires Valid()
      modifies this
      ensures Valid()
      ensures r.Pass? <==> ValidPosition(oldPosition) && ValidPosition(newPosition) && oldPosition in old(board)
      ensures !ValidPosition(oldPosition) || !ValidPosition(newPosition) ==> r == Fail(UnknownSquare)
      ensures ValidPosition(oldPosition) && ValidPosition(newPosition) && oldPosition !in old(board) ==> r == Fail(NoSuchPiece)
      ensures r.Fail? ==> board == old(board)
      ensures r.Pass? ==> newPosition in board && board[newPosition] == old(board)[oldPosition]
      ensures r.Pass? && oldPosition != newPosition ==> oldPosition !in board
      ensures r.Pass? ==> forall sq :: sq != oldPosition && sq != newPosition ==> Get(board, sq) == Get(old(board), sq)
      ensures r.Pass? ==> |board| == if newPosition in old(board) && newPosition != oldPosition then |old(board)| - 1 else |old(board)|
    {
      if !ValidPosition(oldPosition) || !ValidPosition(newPosition) {
        return Fail(UnknownSquare);
      }
      if oldPosition !in board {
        return Fail(NoSuchPiece);
      }
      var piece := board[oldPosition];
      var rest := board - {oldPosition};
      assert rest.Keys == board.Keys - {oldPosition};
      board := rest[newPosition := piece];
      return Pass;
    }
  }

  /**
   * The single pass of the bulk setters over a 64-entry list: it counts the
   * Kings of each colour (stopping at a second King of either colour),
   * builds the candidate board and compares each entry with the square's
   * current entry `previous`.
   */
  method ScanEntries(input: Entries, previous: Entries) returns (candidate: Board, legal: bool, changed: bool)
    requires |input| == 64 && |previous| == 64
    ensures legal <==> Legal(BoardOf(input))
    ensures legal ==> candidate == BoardOf(input)
    ensures legal ==> (changed <==> input != previous)
  {
    candidate := map[];
    var whiteKings, blackKings := 0, 0;
    changed := false;
    for i := 0 to 64
      invariant OnSquares(candidate)
      invariant forall k :: 0 <= k < i ==> Get(candidate, SquareName(k)) == input[k]
      invariant forall k :: i <= k < 64 ==> SquareName(k) !in candidate
      invariant whiteKings == |Occupants(candidate, WhiteKing)| <= 1
      invariant blackKings == |Occupants(candidate, BlackKing)| <= 1
      invariant changed <==> exists k :: 0 <= k < i && input[k] != previous[k]
    {
      var entry := input[i];
      if entry.Some? {
        OccupantsAdd(candidate, SquareName(i), entry.value, WhiteKing);
        OccupantsAdd(candidate, SquareName(i), entry.value, BlackKing);
        forall k | 0 <= k < 64 && k != i ensures SquareName(k) != SquareName(i) {
          SquareNameInjective(k, i);
        }
        candidate := candidate[SquareName(i) := entry.value];
      }
      if entry == Some(WhiteKing) {
        whiteKings := whiteKings + 1;
      } else if entry == Some(BlackKing) {
        blackKings := blackKings + 1;
      }
      if entry != previous[i] {
        changed := true;
      }
      if whiteKings > 1 || blackKings > 1 {
        ghost var full := BoardOf(input);
        forall sq | sq in candidate ensures sq in full && full[sq] == candidate[sq] {
          assert SquareName(SquareIndex(sq)) == sq;
        }
        OccupantsOfSubBoard(candidate, full, WhiteKing);
        OccupantsOfSubBoard(candidate, full, BlackKing);
        return candidate, false, changed;
      }
    }
    AgreesWithEntries(candidate, input);
    legal := whiteKings == 1 && blackKings == 1;
  }

  /** In a sorted list of pieces of one colour the identifying letters are in order. */
  lemma SortedSameColor(s: seq<Piece>, color: string)
    requires Sorted(s) && forall p :: p in s ==> p.color == color
    ensures forall i, j :: 0 <= i < j < |s| ==> CompareStrings(s[i].identifyingLetter, s[j].identifyingLetter) <= 0
  {
    forall i, j | 0 <= i < j < |s| ensures CompareStrings(s[i].identifyingLetter, s[j].identifyingLetter) <= 0 {
      CompareSameColor(s[i], s[j]);
    }
  }
}
