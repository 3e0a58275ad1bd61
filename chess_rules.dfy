/**
 The part of the external rules engine (python-chess) that the MinMax strategy
 calls into. The engine itself is not modelled: a position type `P`, a move
 type `M` and the five operations the search uses are parameters, gathered in
 a `Rules` record, so every result below holds for any rules engine.
 */
module ChessRules {

  /** The six kinds of chess piece. */
  datatype PieceType = Pawn | Knight | Bishop | Rook | Queen | King

  /** A piece as `board.piece_map()` yields it: its kind and its owner. */
  datatype Piece = Piece(kind: PieceType, white: bool)

  /** `Piece.symbol()`: upper case for White, lower case for Black. */
  function Symbol(pc: Piece): (c: char)
  {
    var lower := match pc.kind
      case Pawn => 'p'
      case Knight => 'n'
      case Bishop => 'b'
      case Rook => 'r'
      case Queen => 'q'
      case King => 'k';
    if pc.white then Upper(lower) else lower
  }

  /** `str.isupper()` on a one-letter string. */
  predicate IsUpper(c: char)
  {
    'A' <= c <= 'Z'
  }

  /** `str.upper()` on a one-letter string. */
  function Upper(c: char): (r: char)
  {
    if 'a' <= c <= 'z' then (c as int - 32) as char else c
  }

  /** `str.lower()` on a one-letter string. */
  function Lower(c: char): (r: char)
  {
    if IsUpper(c) then (c as int + 32) as char else c
  }

  /** The same piece owned by the other side. */
  function Flip(pc: Piece): (r: Piece)
  {
    pc.(white := !pc.white)
  }

  /**
   The rules engine's operations on positions `P` and moves `M`:
   - legalMoves: `list(board.legal_moves)`, in the engine's fixed order;
   - push: `board.push(move)`, the position after the move;
   - isGameOver: `board.is_game_over()`;
   - pieceMap: the pieces of `board.piece_map()`, in its iteration order;
   - reload: `chess.Board(fen=board.fen())`, the position rebuilt from its
     FEN text (it keeps placement, side to move, castling, en passant and
     the clocks, but not the move history).
   */
  datatype Rules<!P, !M> = Rules(
    legalMoves: P -> seq<M>,
    push: (P, M) -> P,
    isGameOver: P -> bool,
    pieceMap: P -> seq<Piece>,
    reload: P -> P)

  /** A `chess.Board` object: a mutable holder of one position. */
  class Board<P, M> {
    const rules: Rules<P, M>
    var pos: P

    /** `chess.Board(fen=source.fen())`: a fresh board copied through FEN. */
    constructor Copy(source: Board<P, M>)
      ensures rules == source.rules
      ensures pos == source.rules.reload(source.pos)
    {
      rules := source.rules;
      pos := source.rules.reload(source.pos);
    }

    /** `board.push(move)`: plays the move on this board, in place. */
    method Push(m: M)
      modifies this
      ensures pos == rules.push(old(pos), m)
    {
      pos := rules.push(pos, m);
    }

    function LegalMoves(): (r: seq<M>)
      reads this
    {
      rules.legalMoves(pos)
    }

    predicate IsGameOver()
      reads this
    {
      rules.isGameOver(pos)
    }

    function PieceMap(): (r: seq<Piece>)
      reads this
    {
      rules.pieceMap(pos)
    }
  }
}
