# A verified model of the sample-chess board

This project models the core of `sample-chess`, a small Java chess-board
representation, in Dafny, and proves what its contracts promise. The core has three parts:

- **`Piece`** is an immutable pair of a colour (`"W"` or `"B"`) and an
  identifying letter (`"P"`, `"R"`, `"N"`, `"B"`, `"Q"`, `"K"`). The
  private constructor validates both, equality is structural, and the comparator
  orders by colour and then by letter, using Java's `String.compareTo`.
- **The `ChessBoard` contract** describes a board of 64 squares named in algebraic
  notation and kept as a map from square name to piece. It has two bulk setters,
  one taking 64 piece codes and one taking 64 optional pieces, both in row-major
  order from a1. They accept only *legal* boards, that is, boards with exactly
  one White King and one Black King, and they report whether the board changed.
  It also has five queries and `movePiece`, which moves a piece with no chess
  rules, capturing by overwrite.
- **`MyChessBoard`** is the implementing class. It holds the `COLUMNS`
  constant and starts with a White King on e1 and a Black King on e8.

Layout, one module per file:

| file | module | models |
|---|---|---|
| `results.dfy` | `Results` | the error kinds, `Option`, `Result`, and `Outcome` for operations that return nothing |
| `pieces.dfy` | `Pieces` | `Piece`, its validation, factories, equality and comparator, plus a sort by the comparator |
| `squares.dfy` | `Squares` | `COLUMNS`, the square names and the index encoding of the 64-entry lists |
| `boards.dfy` | `Boards` | boards as maps, the legality rule, the 64-entry lists and the piece codes |
| `chess_board.dfy` | `ChessBoards` | the class `MyChessBoard` with its `board` map, its setters, queries and `movePiece` |
| `scenarios.dfy` | `Scenarios` | the unit tests' scenarios: a new board and the "RNK" board |

Modelling decisions:

- Java exceptions become results. A query that can fail returns `Result`, a
  setter returns `Result<bool>` (the "changed" flag on success), and
  `MovePiece` returns `Outcome`. The error kinds used are:
  - `InvalidColor` and `InvalidLetter`: the piece constructor's `IllegalArgumentException`;
  - `WrongCardinality`: the list is not 64 entries long;
  - `MalformedEncoding`: an entry is not a valid code;
  - `InvariantViolation`: the board would not be legal;
  - `UnknownSquare`: a position is not a1 .. h8;
  - `NoSuchPiece`: `movePiece` was called on an empty square.

  A failing setter or `MovePiece` leaves the board unchanged.
- `MyChessBoard.newInstance` is only a TODO in the source
  (`MyChessBoard.java:19`). The class therefore models the documented
  interface contract, with the initial layout the doc comments state.
- `MyChessBoard.Valid()` is well-formedness: keys are square names and pieces
  are valid. Every method keeps it. Legality (`Boards.Legal`) is a separate
  predicate. The constructor and every successful bulk set establish it, but
  `MovePiece` does not, because the source does no rule checking there, so a
  capture onto a King breaks legality. A `Valid()` that included legality
  would be false after such a move.
- The bulk setters share the single scan `ChessBoards.ScanEntries`. It counts
  the Kings of each colour and stops at a second King of either colour. It also
  builds the candidate board and compares each entry with the square's current
  contents. A missing King is detected only after the full scan.
- When several errors apply at once, a wrong length is reported before a
  malformed entry, and a malformed entry before an illegal board.
- `setBoardByPieces` has only a TODO comment (`ChessBoard.java:56-59`). Its
  contract here is inferred: the same as `setBoardByString` without the decoding.
- Strings are `seq<char>`, and Java's `compareTo` is modelled exactly: the
  difference of the first differing characters, or else the difference of
  the lengths.

## Model

| member | source | states |
|---|---|---|
| Pieces.Given | src/main/java/io/github/oliviercailloux/samples/chess/Piece.java:91-107 | `given` and the private constructor: a piece is built iff the colour is W or B and the letter one of P R N B Q K; a bad colour is reported before a bad letter; on success both fields are exactly the arguments |
| Pieces.ValidColor | src/main/java/io/github/oliviercailloux/samples/chess/Piece.java:93 | defines the accepted colours: exactly the strings "W" and "B" |
| Pieces.ValidLetter | src/main/java/io/github/oliviercailloux/samples/chess/Piece.java:96-106 | defines the accepted identifying letters: exactly "P", "R", "N", "B", "Q" and "K" |
| Pieces.Piece.Valid | src/main/java/io/github/oliviercailloux/samples/chess/Piece.java:92-106 | defines the pieces the constructor lets through: a valid colour and a valid letter |
| Pieces.Piece.IsWhite | src/main/java/io/github/oliviercailloux/samples/chess/Piece.java:118-120 | defines `isWhite`: the colour is "W" |
| Pieces.Piece.IsBlack | src/main/java/io/github/oliviercailloux/samples/chess/Piece.java:122-124 | defines `isBlack`: the colour is "B" |
| Pieces.Pawn | src/main/java/io/github/oliviercailloux/samples/chess/Piece.java:47-49 | succeeds iff the colour is valid, giving a valid piece of that colour with letter P |
| Pieces.Rook | src/main/java/io/github/oliviercailloux/samples/chess/Piece.java:55-57 | succeeds iff the colour is valid, giving a valid piece of that colour with letter R |
| Pieces.Knight | src/main/java/io/github/oliviercailloux/samples/chess/Piece.java:63-65 | succeeds iff the colour is valid, giving a valid piece of that colour with letter N |
| Pieces.Bishop | src/main/java/io/github/oliviercailloux/samples/chess/Piece.java:71-73 | succeeds iff the colour is valid, giving a valid piece of that colour with letter B |
| Pieces.Queen | src/main/java/io/github/oliviercailloux/samples/chess/Piece.java:79-81 | succeeds iff the colour is valid, giving a valid piece of that colour with letter Q |
| Pieces.King | src/main/java/io/github/oliviercailloux/samples/chess/Piece.java:87-89 | succeeds iff the colour is valid, giving a valid piece of that colour with letter K |
| Pieces.WhiteXorBlack | src/main/java/io/github/oliviercailloux/samples/chess/Piece.java:118-124 | a valid piece is white or black but never both |
| Pieces.Piece.Equals | src/main/java/io/github/oliviercailloux/samples/chess/Piece.java:140-146 | two pieces are equal iff their colours and letters are equal, which is value equality |
| Pieces.EqualsIsEquivalence | src/main/java/io/github/oliviercailloux/samples/chess/Piece.java:140-146 | equality is reflexive, symmetric and transitive |
| Pieces.CompareStrings | src/main/java/io/github/oliviercailloux/samples/chess/Piece.java:31 | defines Java's `String.compareTo`: the difference of the first differing characters, or the difference of the lengths when one string is a prefix of the other |
| Pieces.Compare | src/main/java/io/github/oliviercailloux/samples/chess/Piece.java:30-32 | defines `getComparator`: colour by String.compareTo, then identifying letter when the colours tie |
| Pieces.CompareStringsZero | src/main/java/io/github/oliviercailloux/samples/chess/Piece.java:30-32 | String.compareTo is 0 exactly on equal strings |
| Pieces.CompareStringsAntisymmetric | src/main/java/io/github/oliviercailloux/samples/chess/Piece.java:30-32 | String.compareTo(a, b) is the negation of compareTo(b, a) |
| Pieces.CompareStringsTransitive | src/main/java/io/github/oliviercailloux/samples/chess/Piece.java:30-32 | String.compareTo's order is transitive |
| Pieces.CompareZeroIffEqual | src/main/java/io/github/oliviercailloux/samples/chess/Piece.java:30-32 | the comparator returns 0 exactly for equal pieces |
| Pieces.CompareAntisymmetric | src/main/java/io/github/oliviercailloux/samples/chess/Piece.java:30-32 | swapping the arguments negates the comparator |
| Pieces.CompareTransitive | src/main/java/io/github/oliviercailloux/samples/chess/Piece.java:30-32 | the comparator's order is transitive |
| Pieces.CompareTotal | src/main/java/io/github/oliviercailloux/samples/chess/Piece.java:30-32 | any two pieces are comparable one way or the other |
| Pieces.CompareSameColor | src/main/java/io/github/oliviercailloux/samples/chess/Piece.java:31 | within one colour the comparator is String.compareTo on the letters |
| Pieces.LetterOrder | src/main/java/io/github/oliviercailloux/samples/chess/Piece.java:31 | within one colour, B < K < N < P < Q < R |
| Pieces.BlackBeforeWhite | src/main/java/io/github/oliviercailloux/samples/chess/Piece.java:31 | every black piece sorts before every white piece, as "B" < "W" |
| Pieces.Insert | src/main/java/io/github/oliviercailloux/samples/chess/Piece.java:30-32 | inserting into a list sorted by the comparator keeps it sorted and adds exactly that piece |
| Pieces.SortPieces | src/main/java/io/github/oliviercailloux/samples/chess/Piece.java:30-32 | sorting by the comparator gives a sorted permutation of the input |
| Pieces.SortedUnique | src/main/java/io/github/oliviercailloux/samples/chess/Piece.java:30-32 | two sorted permutations of the same pieces are the same list, so the order is deterministic |
| Squares.Columns | src/main/java/io/github/oliviercailloux/samples/chess/MyChessBoard.java:6 | defines `COLUMNS`: the file names "a" to "h", left to right |
| Squares.ValidPosition | src/main/java/io/github/oliviercailloux/samples/chess/ChessBoard.java:120-123 | defines "any position from a1 to h8": two characters, a file letter a .. h and a rank digit 1 .. 8 |
| Squares.ColumnsDistinctInOrder | src/main/java/io/github/oliviercailloux/samples/chess/MyChessBoard.java:6 | COLUMNS has eight one-letter entries, strictly increasing, so they are distinct and in order |
| Squares.ColumnLetters | src/main/java/io/github/oliviercailloux/samples/chess/MyChessBoard.java:6 | the k-th column is the letter k places after 'a' |
| Squares.SquareName | src/main/java/io/github/oliviercailloux/samples/chess/ChessBoard.java:47-50 | entry i of a board list names a valid square, COLUMNS[i % 8] followed by rank i / 8 + 1 |
| Squares.SquareNameChars | src/main/java/io/github/oliviercailloux/samples/chess/ChessBoard.java:47-50 | the name of entry i is file letter 'a' + i % 8 and rank digit '1' + i / 8 |
| Squares.SquareNameExamples | src/main/java/io/github/oliviercailloux/samples/chess/ChessBoard.java:47-50 | entry 0 is a1, 7 is h1, 8 is a2, 63 is h8, 4 is e1 and 60 is e8 |
| Squares.SquareIndex | src/main/java/io/github/oliviercailloux/samples/chess/ChessBoard.java:22-26 | every valid position a1 .. h8 is the name of an entry below 64 |
| Squares.SquareNameInjective | src/main/java/io/github/oliviercailloux/samples/chess/ChessBoard.java:47-50 | the 64 square names are pairwise distinct, and SquareIndex inverts SquareName |
| Squares.ValidPositionIsSquareName | src/main/java/io/github/oliviercailloux/samples/chess/ChessBoard.java:81 | the valid positions are exactly the 64 square names |
| Boards.BoardOf | src/main/java/io/github/oliviercailloux/samples/chess/ChessBoard.java:41-50 | the board a 64-entry list denotes holds entry i's piece on square i's name, and nothing on the empty entries |
| Boards.Legal | src/main/java/io/github/oliviercailloux/samples/chess/ChessBoard.java:16-17 | defines legality: exactly one square holds the White King and exactly one holds the Black King |
| Boards.BoardOfKeys | src/main/java/io/github/oliviercailloux/samples/chess/ChessBoard.java:41-50 | a board built from a list only has square names as keys, each of an entry in the list |
| Boards.EntriesOf | src/main/java/io/github/oliviercailloux/samples/chess/ChessBoard.java:41-50 | listing a board gives 64 entries, entry i being the contents of square i |
| Boards.BoardOfEntriesOf | src/main/java/io/github/oliviercailloux/samples/chess/ChessBoard.java:41-50 | listing a board on the squares and rebuilding it returns the same board |
| Boards.EntriesOfBoardOf | src/main/java/io/github/oliviercailloux/samples/chess/ChessBoard.java:41-50 | building a board from a list and listing it returns the same list |
| Boards.BoardOfInjective | src/main/java/io/github/oliviercailloux/samples/chess/ChessBoard.java:51-52 | two 64-entry lists give the same board iff they are equal, so "changed" can compare lists |
| Boards.SameBoardIffSameEntries | src/main/java/io/github/oliviercailloux/samples/chess/ChessBoard.java:51-52 | a list denotes a given board iff it equals that board's listing |
| Boards.BoardOfSnoc | src/main/java/io/github/oliviercailloux/samples/chess/ChessBoard.java:47-50 | one more entry adds its piece on the next square and changes nothing else |
| Boards.FreshSquare | src/main/java/io/github/oliviercailloux/samples/chess/ChessBoard.java:47-50 | the next square is still empty in the board of a shorter list |
| Boards.AgreesWithEntries | src/main/java/io/github/oliviercailloux/samples/chess/ChessBoard.java:41-50 | a board on the squares that agrees with a list square by square is that list's board |
| Boards.OccupantsAdd | src/main/java/io/github/oliviercailloux/samples/chess/ChessBoard.java:16-17 | putting a piece on an empty square adds one occupant of that piece and none of any other |
| Boards.OnBoardIffOccupies | src/main/java/io/github/oliviercailloux/samples/chess/ChessBoard.java:86-88 | a piece is among the board's pieces iff at least one square holds it |
| Boards.OccupantsOfSubBoard | src/main/java/io/github/oliviercailloux/samples/chess/ChessBoard.java:16-17 | a part of a board has no more Kings, or pieces of any kind, than the whole board, so a second King seen early rules the board out |
| Boards.OccupantsCount | src/main/java/io/github/oliviercailloux/samples/chess/ChessBoard.java:16-17 | the number of squares holding a piece equals the number of list entries holding it |
| Boards.OccupantsSnoc | src/main/java/io/github/oliviercailloux/samples/chess/ChessBoard.java:16-17 | one more entry adds its square to that piece's occupants exactly when it holds that piece |
| Boards.LegalIffOneKingEntryEach | src/main/java/io/github/oliviercailloux/samples/chess/ChessBoard.java:16-17 | a list's board is legal iff the list holds the White King exactly once and the Black King exactly once |
| Boards.OccupantsByEntries | src/main/java/io/github/oliviercailloux/samples/chess/ChessBoard.java:16-17 | on a well-formed board, the occupants of a piece count its entries in the board's listing |
| Boards.BoardOfWellFormed | src/main/java/io/github/oliviercailloux/samples/chess/ChessBoard.java:41-50 | a list of valid pieces denotes a board with square keys and valid pieces |
| Boards.ColorPieces | src/main/java/io/github/oliviercailloux/samples/chess/ChessBoard.java:94-100 | the pieces picked out of a list all have the requested colour |
| Boards.ColorPiecesCount | src/main/java/io/github/oliviercailloux/samples/chess/ChessBoard.java:94-100 | picking a colour's pieces from a list keeps each piece of that colour as often as the list holds it, and drops the others |
| Boards.ColorPiecesOfBoard | src/main/java/io/github/oliviercailloux/samples/chess/ChessBoard.java:94-100 | a colour's pieces picked from a board's listing hold each piece of that colour as often as it stands on the board |
| Boards.Decode | src/main/java/io/github/oliviercailloux/samples/chess/ChessBoard.java:41-47 | a code is accepted iff it is "" (empty square) or a colour letter and an identifying letter; "" alone means empty; a decoded piece is valid and encodes back to the code |
| Boards.Encode | src/main/java/io/github/oliviercailloux/samples/chess/ChessBoard.java:62-65 | the code of a valid piece is a two-letter string, its colour followed by its identifying letter |
| Boards.DecodeEncode | src/main/java/io/github/oliviercailloux/samples/chess/ChessBoard.java:62-65 | decoding a valid piece's two-letter code gives the piece back |
| Boards.DecodesBack | src/main/java/io/github/oliviercailloux/samples/chess/ChessBoard.java:62-65 | every piece of a well-formed board decodes back from its code |
| Boards.DecodeAll | src/main/java/io/github/oliviercailloux/samples/chess/ChessBoard.java:41-50 | a string board is accepted iff it has 64 entries that all decode; a wrong length is reported before a malformed entry; entry i's decoding is kept at position i |
| Boards.CodesOf | src/main/java/io/github/oliviercailloux/samples/chess/ChessBoard.java:41-50 | the string board of a board has 64 entries |
| Boards.DecodeAllCodesOf | src/main/java/io/github/oliviercailloux/samples/chess/ChessBoard.java:41-50 | decoding a well-formed board's string board lists exactly that board |
| ChessBoards.InitialBoard | src/main/java/io/github/oliviercailloux/samples/chess/MyChessBoard.java:13-14 | the initial layout, White King on e1 and Black King on e8, is well formed and legal |
| ChessBoards.MyChessBoard.constructor | src/main/java/io/github/oliviercailloux/samples/chess/MyChessBoard.java:8-20 | a new instance holds exactly a White King on e1 and a Black King on e8, and is legal |
| ChessBoards.MyChessBoard.Valid | src/main/java/io/github/oliviercailloux/samples/chess/ChessBoard.java:28-29 | the class invariant every method keeps: the stored map has square names as keys and valid pieces as values |
| ChessBoards.ScanEntries | src/main/java/io/github/oliviercailloux/samples/chess/ChessBoard.java:16-19 | the scan reports legal iff the list's board has one King of each colour, and then builds that board and reports whether the list differs from the current listing |
| ChessBoards.MyChessBoard.SetBoardByPieces | src/main/java/io/github/oliviercailloux/samples/chess/ChessBoard.java:56-59 | accepts iff there are 64 entries and their board is legal, with WrongCardinality or InvariantViolation otherwise; on failure the board is unchanged; on success the board is the list's board and the result is true iff the board changed |
| ChessBoards.MyChessBoard.SetBoardByString | src/main/java/io/github/oliviercailloux/samples/chess/ChessBoard.java:37-54 | as SetBoardByPieces, on the decoded list; a wrong length or malformed code fails with the decoding error and leaves the board unchanged |
| ChessBoards.MyChessBoard.GetStringPiecesByPosition | src/main/java/io/github/oliviercailloux/samples/chess/ChessBoard.java:61-69 | has a key exactly for each occupied square, whose value decodes to that square's piece |
| ChessBoards.MyChessBoard.CodesAfterStringSet | src/main/java/io/github/oliviercailloux/samples/chess/ChessBoard.java:62-65 | after loading a string board, the code map has a key for exactly the non-empty entries, each holding that entry's code |
| ChessBoards.MyChessBoard.GetPiecesByPosition | src/main/java/io/github/oliviercailloux/samples/chess/ChessBoard.java:71-75 | the map of the board itself: square names to valid pieces, whose entry for every valid position is what GetPieceByPosition answers |
| ChessBoards.MyChessBoard.GetPieceByPosition | src/main/java/io/github/oliviercailloux/samples/chess/ChessBoard.java:77-83 | positions other than a1 .. h8 fail with UnknownSquare; otherwise the piece on that square, or none iff it is empty |
| ChessBoards.MyChessBoard.GetPieces | src/main/java/io/github/oliviercailloux/samples/chess/ChessBoard.java:85-92 | a colour other than W or B fails with InvalidColor; otherwise exactly the pieces of that colour on the board, each once |
| ChessBoards.MyChessBoard.GetOrderedPieces | src/main/java/io/github/oliviercailloux/samples/chess/ChessBoard.java:94-100 | a colour other than W or B fails with InvalidColor; otherwise a sorted list holding each piece of that colour as often as it stands on the board, ordered by identifying letter |
| ChessBoards.MyChessBoard.PiecesAreOrderedPiecesWithoutRepeats | src/main/java/io/github/oliviercailloux/samples/chess/ChessBoard.java:86-88 | the set of a colour's pieces is its ordered list with repetitions dropped |
| ChessBoards.SortedSameColor | src/main/java/io/github/oliviercailloux/samples/chess/ChessBoard.java:95-96 | a list of one colour sorted by the comparator is ordered by identifying letter |
| ChessBoards.MyChessBoard.MovePiece | src/main/java/io/github/oliviercailloux/samples/chess/ChessBoard.java:102-125 | fails with UnknownSquare on a bad position and NoSuchPiece on an empty source, leaving the board unchanged; otherwise the target holds the moved piece, the source is empty if it differs, every other square is unchanged, and a captured piece is gone |
| Scenarios.NewBoardPositionQueries | src/test/java/io/github/oliviercailloux/samples/chess/MyChessBoardTests.java:14-52 | on a new board the code map is {e1: WK, e8: BK}, the piece map is {e1: White King, e8: Black King}, e1 and e8 hold the Kings and e2 is empty |
| Scenarios.NewBoardPieceQueries | src/test/java/io/github/oliviercailloux/samples/chess/MyChessBoardTests.java:54-75 | on a new board the W and B piece sets are {White King} and {Black King}, and the ordered lists are [White King] and [Black King] |
| Scenarios.NewBoardSetToItself | src/main/java/io/github/oliviercailloux/samples/chess/ChessBoard.java:51-52 | loading a new board's own contents through either setter succeeds and reports no change |
| Scenarios.RnkBoardLegal | src/test/java/io/github/oliviercailloux/samples/chess/MyChessBoardTests.java:86-98 | the test's RNK board is well formed and legal |
| Scenarios.RnkCodesDenoteRnkBoard | src/test/java/io/github/oliviercailloux/samples/chess/MyChessBoardTests.java:86-98 | the RNK string board, rank 1 first, is the string board of White Rooks on a1 and h1, White King e1, Black Rook a8, Black Knight b8 and Black King e8 |
| Scenarios.LoadRnk | src/test/java/io/github/oliviercailloux/samples/chess/MyChessBoardTests.java:14-23 | loading the RNK string board into a new board succeeds, reports a change, and yields the RNK board |
| Scenarios.SetTwice | src/main/java/io/github/oliviercailloux/samples/chess/ChessBoard.java:51-52 | repeating a successful string set reports no change the second time; repeating a failed one fails the same way and leaves the board as it was |
| Scenarios.CodesAre | src/main/java/io/github/oliviercailloux/samples/chess/ChessBoard.java:62-65 | the code map is the map of each occupied square to its piece's two-letter code |
| Scenarios.PiecesAre | src/main/java/io/github/oliviercailloux/samples/chess/ChessBoard.java:85-92 | the piece set of a colour is exactly the pieces of that colour standing on at least one square |
| Scenarios.OrderedPiecesAre | src/main/java/io/github/oliviercailloux/samples/chess/ChessBoard.java:94-100 | the ordered list of a colour is the one sorted list with the right number of each piece |
| Scenarios.RnkStringQuery | src/test/java/io/github/oliviercailloux/samples/chess/MyChessBoardTests.java:14-23 | the code map of the RNK board is {a1: WR, e1: WK, h1: WR, a8: BR, b8: BN, e8: BK} |
| Scenarios.RnkPiecesQuery | src/test/java/io/github/oliviercailloux/samples/chess/MyChessBoardTests.java:25-35 | the piece map of the RNK board is {a1: White Rook, e1: White King, h1: White Rook, a8: Black Rook, b8: Black Knight, e8: Black King} |
| Scenarios.RnkPositionQueries | src/test/java/io/github/oliviercailloux/samples/chess/MyChessBoardTests.java:37-52 | on the RNK board a1 holds a White Rook, a2 is empty, b8 holds a Black Knight and so on, as the test expects |
| Scenarios.RnkOccupants | src/test/java/io/github/oliviercailloux/samples/chess/MyChessBoardTests.java:86-98 | the RNK board has two White Rooks, one of each other piece it shows, and nothing else |
| Scenarios.RnkPieceQueries | src/test/java/io/github/oliviercailloux/samples/chess/MyChessBoardTests.java:54-63 | the RNK piece sets are {White King, White Rook} and {Black Rook, Black King, Black Knight}, with the two rooks collapsed |
| Scenarios.RnkListsSorted | src/test/java/io/github/oliviercailloux/samples/chess/MyChessBoardTests.java:65-75 | the test's expected lists [WK, WR, WR] and [BK, BN, BR] are sorted by the comparator |
| Scenarios.RnkOrderedQueries | src/test/java/io/github/oliviercailloux/samples/chess/MyChessBoardTests.java:65-75 | the RNK ordered lists are [White King, White Rook, White Rook] and [Black King, Black Knight, Black Rook], keeping the repeated rook |
| Scenarios.InitialOccupants | src/main/java/io/github/oliviercailloux/samples/chess/MyChessBoard.java:13-14 | a new board holds each King once and no other piece |

## Left out

- `Piece.toString` is Guava formatting with no contract. It is not modelled.
- `Piece.hashCode` is a call into `Objects.hash` and is not modelled. In
  Dafny every function of a piece value gives equal results on equal pieces,
  which is all its contract with `equals` asks of it.
- `equals(Object)` on an object that is not a `Piece` returns false. The model's
  `Equals` takes only pieces, because Dafny values are typed.
- Null arguments and `checkNotNull`: Dafny values are never null.
- Guava's immutable collections are Dafny `map`, `set` and `seq`. Map iteration order is not promised and not modelled.
- Chess rules: the source has none; `MovePiece` needs none. Nor is it claimed
  that `MovePiece` keeps the one King per colour rule; it does not.
- Characters are Dafny `char`s rather than Java UTF-16 units; only ASCII codes
  are accepted anyway, so `compareTo` agrees on every valid letter.
- The JUnit test runner and the empty `testMovePieces` test are not modelled; the tests' assertions appear as the lemmas of `Scenarios`.
- ChessBoards.MyChessBoard.SetBoardByPieces: its contract is inferred, since the source gives none; it requires the pieces it receives to be valid, which every Java `Piece` is.
