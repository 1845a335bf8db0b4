/**
 * The scenarios of the board's unit tests, stated over the model: the
 * queries on a new board, and the "RNK" board (White Rooks on a1 and h1,
 * White King on e1, Black Rook on a8, Black Knight on b8, Black King on e8)
 * loaded through the string setter.
 */
module Scenarios {
  import opened Results
  import opened Pieces
  import opened Squares
  import opened Boards
  import opened ChessBoards

  const WhiteRook := Piece("W", "R")
  const BlackRook := Piece("B", "R")
  const BlackKnight := Piece("B", "N")

  /** The string board of the RNK test, rank 1 first. */
  function RnkCodes(): (codes: seq<string>)
    ensures |codes| == 64
  {
    ["WR", "", "", "", "WK", "", "", "WR"] + seq(48, _ => "") + ["BR", "BN", "", "", "BK", "", "", ""]
  }

  /** The board the RNK test expects after loading `RnkCodes`. */
  function RnkBoard(): Board {
    map["a1" := WhiteRook, "e1" := WhiteKing, "h1" := WhiteRook,
        "a8" := BlackRook, "b8" := BlackKnight, "e8" := BlackKing]
  }

  /** The RNK board is on the squares, holds valid pieces and has one King of each colour. */
  lemma RnkBoardLegal()
    ensures WellFormed(RnkBoard()) && Legal(RnkBoard())
  {
    RnkOccupants(WhiteKing);
    RnkOccupants(BlackKing);
  }

  /** The RNK string board is exactly the string board of the expected board. */
  lemma RnkCodesDenoteRnkBoard()
    ensures RnkCodes() == CodesOf(RnkBoard())
  {
    forall i | 0 <= i < 64 ensures RnkCodes()[i] == CodesOf(RnkBoard())[i] {
      if i < 8 {
        RnkFirstRank(i);
      } else if i < 56 {
        RnkMiddleRanks(i);
      } else {
        RnkLastRank(i);
      }
    }
  }

  lemma RnkFirstRank(i: nat)
    requires i < 8
    ensures RnkCodes()[i] == CodesOf(RnkBoard())[i]
  {
    SquareNameChars(i);
    var m := RnkBoard();
    if i == 0 {
      assert SquareName(i) == "a1";
    } else if i == 4 {
      assert SquareName(i) == "e1";
    } else if i == 7 {
      assert SquareName(i) == "h1";
    } else {
      assert SquareName(i) !in m;
    }
  }

  lemma RnkLastRank(i: nat)
    requires 56 <= i < 64
    ensures RnkCodes()[i] == CodesOf(RnkBoard())[i]
  {
    SquareNameChars(i);
    var m := RnkBoard();
    if i == 56 {
      assert SquareName(i) == "a8";
    } else if i == 57 {
      assert SquareName(i) == "b8";
    } else if i == 60 {
      assert SquareName(i) == "e8";
    } else {
      assert SquareName(i) !in m;
    }
  }

  lemma RnkMiddleRanks(i: nat)
    requires 8 <= i < 56
    ensures RnkCodes()[i] == CodesOf(RnkBoard())[i]
  {
    SquareNameChars(i);
    var m := RnkBoard();
    assert forall sq :: sq in m ==> sq[1] == '1' || sq[1] == '8';
    assert SquareName(i)[1] != '1' && SquareName(i)[1] != '8';
    assert RnkCodes()[i] == "";
  }

  /** The string setter and the list setter give back exactly what a new board holds. */
  method NewBoardSetToItself() returns (b: MyChessBoard, byString: Result<bool>, byPieces: Result<bool>)
    ensures fresh(b) && b.Valid() && b.board == InitialBoard()
    ensures byString == Ok(false) && byPieces == Ok(false)
  {
    b := new MyChessBoard();
    DecodeAllCodesOf(b.board);
    BoardOfEntriesOf(b.board);
    byString := b.SetBoardByString(CodesOf(b.board));
    byPieces := b.SetBoardByPieces(EntriesOf(b.board));
  }

  /** Loading the RNK string board into a new board succeeds, changes it, and yields the expected board. */
  method LoadRnk() returns (b: MyChessBoard, r: Result<bool>)
    ensures fresh(b) && b.Valid() && b.board == RnkBoard()
    ensures r == Ok(true)
  {
    b := new MyChessBoard();
    RnkBoardLegal();
    RnkCodesDenoteRnkBoard();
    DecodeAllCodesOf(RnkBoard());
    BoardOfEntriesOf(RnkBoard());
    assert "a1" in RnkBoard() && "a1" !in InitialBoard();
    r := b.SetBoardByString(RnkCodes());
  }

  /** Setting the same string board twice: the second call reports no change, or the same error. */
  method SetTwice(b: MyChessBoard, input: seq<string>) returns (first: Result<bool>, second: Result<bool>)
    requires b.Valid()
    modifies b
    ensures b.Valid()
    ensures first.Ok? ==> second == Ok(false)
    ensures first.Err? ==> second == first && b.board == old(b.board)
  {
    first := b.SetBoardByString(input);
    second := b.SetBoardByString(input);
  }

  /** `GetOrderedPieces` answers with the one sorted list holding each piece of the colour as often as the board does. */
  lemma OrderedPiecesAre(b: MyChessBoard, color: string, expected: seq<Piece>)
    requires b.Valid() && ValidColor(color) && Sorted(expected)
    requires forall p :: multiset(expected)[p] == if p.color == color then |Occupants(b.board, p)| else 0
    ensures b.GetOrderedPieces(color) == Ok(expected)
  {
    var r := b.GetOrderedPieces(color).value;
    assert multiset(r) == multiset(expected);
    SortedUnique(r, expected);
  }

  /** `GetStringPiecesByPosition` answers with the code of each square's piece. */
  lemma CodesAre(b: MyChessBoard, expected: map<string, string>)
    requires b.Valid() && expected.Keys == b.board.Keys
    requires forall sq :: sq in expected ==> expected[sq] == Encode(b.board[sq])
    ensures b.GetStringPiecesByPosition() == expected
  {
    var r := b.GetStringPiecesByPosition();
    forall sq | sq in r ensures r[sq] == expected[sq] {
      assert Encode(Decode(r[sq]).value.value) == r[sq];
    }
  }

  /** `GetPieces` answers with the set of pieces of the colour that stand on some square. */
  lemma PiecesAre(b: MyChessBoard, color: string, expected: set<Piece>)
    requires ValidColor(color)
    requires forall p :: p in expected <==> p.color == color && |Occupants(b.board, p)| > 0
    ensures b.GetPieces(color) == Ok(expected)
  {
    assert b.GetPieces(color).Ok?;
    forall p ensures p in b.GetPieces(color).value <==> p in expected {
      OnBoardIffOccupies(b.board, p);
    }
    assert b.GetPieces(color).value == expected;
  }

  /** How often each piece stands on a new board. */
  lemma InitialOccupants(p: Piece)
    ensures |Occupants(InitialBoard(), p)| == if p == WhiteKing || p == BlackKing then 1 else 0
  {
    var m := InitialBoard();
    if p == WhiteKing {
      assert Occupants(m, p) == {"e1"};
    } else if p == BlackKing {
      assert Occupants(m, p) == {"e8"};
    } else {
      assert Occupants(m, p) == {};
    }
  }

  /** The position queries of the unit tests on a new board. */
  lemma NewBoardPositionQueries(b: MyChessBoard)
    requires b.Valid() && b.board == InitialBoard()
    ensures b.GetStringPiecesByPosition() == map["e1" := "WK", "e8" := "BK"]
    ensures b.GetPiecesByPosition() == map["e1" := WhiteKing, "e8" := BlackKing]
    ensures b.GetPieceByPosition("e1") == Ok(Some(WhiteKing))
    ensures b.GetPieceByPosition("e2") == Ok(None)
    ensures b.GetPieceByPosition("e8") == Ok(Some(BlackKing))
  {
    CodesAre(b, map["e1" := "WK", "e8" := "BK"]);
  }

  /** The piece queries of the unit tests on a new board. */
  lemma NewBoardPieceQueries(b: MyChessBoard)
    requires b.Valid() && b.board == InitialBoard()
    ensures b.GetPieces("W") == Ok({WhiteKing})
    ensures b.GetPieces("B") == Ok({BlackKing})
    ensures b.GetOrderedPieces("W") == Ok([WhiteKing])
    ensures b.GetOrderedPieces("B") == Ok([BlackKing])
  {
    forall p ensures multiset([WhiteKing])[p] == if p.color == "W" then |Occupants(b.board, p)| else 0 {
      InitialOccupants(p);
    }
    forall p ensures multiset([BlackKing])[p] == if p.color == "B" then |Occupants(b.board, p)| else 0 {
      InitialOccupants(p);
    }
    forall p ensures p in {WhiteKing} <==> p.color == "W" && |Occupants(b.board, p)| > 0 {
      InitialOccupants(p);
    }
    forall p ensures p in {BlackKing} <==> p.color == "B" && |Occupants(b.board, p)| > 0 {
      InitialOccupants(p);
    }
    PiecesAre(b, "W", {WhiteKing});
    PiecesAre(b, "B", {BlackKing});
    OrderedPiecesAre(b, "W", [WhiteKing]);
    OrderedPiecesAre(b, "B", [BlackKing]);
  }

  /** The string query of the unit tests on the RNK board. */
  lemma RnkStringQuery(b: MyChessBoard)
    requires b.Valid() && b.board == RnkBoard()
    ensures b.GetStringPiecesByPosition() ==
      map["a1" := "WR", "e1" := "WK", "h1" := "WR", "a8" := "BR", "b8" := "BN", "e8" := "BK"]
  {
    var expected := map["a1" := "WR", "e1" := "WK", "h1" := "WR", "a8" := "BR", "b8" := "BN", "e8" := "BK"];
    assert expected.Keys == b.board.Keys;
    CodesAre(b, expected);
  }

  /** The piece-map query of the unit tests on the RNK board. */
  lemma RnkPiecesQuery(b: MyChessBoard)
    requires b.Valid() && b.board == RnkBoard()
    ensures b.GetPiecesByPosition() ==
      map["a1" := WhiteRook, "e1" := WhiteKing, "h1" := WhiteRook,
          "a8" := BlackRook, "b8" := BlackKnight, "e8" := BlackKing]
  {
  }

  /** The position queries of the unit tests on the RNK board. */
  lemma RnkPositionQueries(b: MyChessBoard)
    requires b.Valid() && b.board == RnkBoard()
    ensures b.GetPieceByPosition("a1") == Ok(Some(WhiteRook))
    ensures b.GetPieceByPosition("a2") == Ok(None)
    ensures b.GetPieceByPosition("e1") == Ok(Some(WhiteKing))
    ensures b.GetPieceByPosition("h1") == Ok(Some(WhiteRook))
    ensures b.GetPieceByPosition("a8") == Ok(Some(BlackRook))
    ensures b.GetPieceByPosition("b8") == Ok(Some(BlackKnight))
    ensures b.GetPieceByPosition("e8") == Ok(Some(BlackKing))
  {
  }

  /** How often each piece stands on the RNK board. */
  lemma RnkOccupants(p: Piece)
    ensures |Occupants(RnkBoard(), p)| ==
      if p == WhiteRook then 2
      else if p in {WhiteKing, BlackKing, BlackRook, BlackKnight} then 1
      else 0
  {
    var m := RnkBoard();
    if p == WhiteRook {
      assert Occupants(m, p) == {"a1", "h1"};
    } else if p == WhiteKing {
      assert Occupants(m, p) == {"e1"};
    } else if p == BlackKing {
      assert Occupants(m, p) == {"e8"};
    } else if p == BlackRook {
      assert Occupants(m, p) == {"a8"};
    } else if p == BlackKnight {
      assert Occupants(m, p) == {"b8"};
    } else {
      assert Occupants(m, p) == {};
    }
  }

  /** The piece-set queries of the unit tests on the RNK board. */
  lemma RnkPieceQueries(b: MyChessBoard)
    requires b.Valid() && b.board == RnkBoard()
    ensures b.GetPieces("W") == Ok({WhiteKing, WhiteRook})
    ensures b.GetPieces("B") == Ok({BlackRook, BlackKing, BlackKnight})
  {
    forall p ensures p in {WhiteKing, WhiteRook} <==> p.color == "W" && |Occupants(b.board, p)| > 0 {
      RnkOccupants(p);
    }
    forall p ensures p in {BlackRook, BlackKing, BlackKnight} <==> p.color == "B" && |Occupants(b.board, p)| > 0 {
      RnkOccupants(p);
    }
    PiecesAre(b, "W", {WhiteKing, WhiteRook});
    PiecesAre(b, "B", {BlackRook, BlackKing, BlackKnight});
  }

  /** The expected ordered lists of the RNK test are sorted by the comparator. */
  lemma RnkListsSorted()
    ensures Sorted([WhiteKing, WhiteRook, WhiteRook])
    ensures Sorted([BlackKing, BlackKnight, BlackRook])
  {
    assert Compare(WhiteKing, WhiteRook) < 0 && Compare(WhiteRook, WhiteRook) == 0;
    assert Compare(BlackKing, BlackKnight) < 0 && Compare(BlackKnight, BlackRook) < 0;
    assert Compare(BlackKing, BlackRook) < 0;
  }

  /** The ordered-piece queries of the unit tests on the RNK board. */
  lemma RnkOrderedQueries(b: MyChessBoard)
    requires b.Valid() && b.board == RnkBoard()
    ensures b.GetOrderedPieces("W") == Ok([WhiteKing, WhiteRook, WhiteRook])
    ensures b.GetOrderedPieces("B") == Ok([BlackKing, BlackKnight, BlackRook])
  {
    forall p ensures multiset([WhiteKing, WhiteRook, WhiteRook])[p] == if p.color == "W" then |Occupants(b.board, p)| else 0 {
      RnkOccupants(p);
    }
    forall p ensures multiset([BlackKing, BlackKnight, BlackRook])[p] == if p.color == "B" then |Occupants(b.board, p)| else 0 {
      RnkOccupants(p);
    }
    RnkListsSorted();
    OrderedPiecesAre(b, "W", [WhiteKing, WhiteRook, WhiteRook]);
    OrderedPiecesAre(b, "B", [BlackKing, BlackKnight, BlackRook]);
  }
}
