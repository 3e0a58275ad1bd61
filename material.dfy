/**
 The `evaluate` helper of `MinMax.search`: a signed material count over the
 pieces of a position, positive for White.
 */
module Material {
  import opened ChessRules

  /** The value the evaluator gives each kind of piece. Knights have no branch
      in the evaluator, so they are worth nothing. */
  function MaterialValue(kind: PieceType): (r: real)
  {
    match kind
    case Pawn => 1.0
    case Knight => 0.0
    case Bishop => 3.25
    case Rook => 5.0
    case Queen => 9.0
    case King => 3.0
  }

  /** What one lower-cased piece symbol adds, before the sign is applied; every
      symbol other than p, q, b, k, r adds nothing. */
  function SymbolWeight(symbol: char): (r: real)
  {
    if symbol == 'p' then 1.0
    else if symbol == 'q' then 9.0
    else if symbol == 'b' then 3.25
    else if symbol == 'k' then 3.0
    else if symbol == 'r' then 5.0
    else 0.0
  }

  /** One piece's signed contribution, computed from its symbol as the
      evaluator does: the table value, added for White and subtracted for Black. */
  function Contribution(pc: Piece): (v: real)
    ensures pc.white ==> v == MaterialValue(pc.kind)
    ensures !pc.white ==> v == -MaterialValue(pc.kind)
  {
    var playerFactor := if IsUpper(Symbol(pc)) then 1.0 else -1.0;
    SymbolWeight(Lower(Symbol(pc))) * playerFactor
  }

  /** The evaluator's running sum over the pieces, in iteration order. */
  function Score(pieces: seq<Piece>): (r: real)
    ensures -9.0 * |pieces| as real <= r <= 9.0 * |pieces| as real
  {
    if |pieces| == 0 then 0.0
    else Score(pieces[..|pieces| - 1]) + Contribution(pieces[|pieces| - 1])
  }

  /** `evaluate(board)` on a position. */
  function Evaluate<P, M>(rules: Rules<P, M>, p: P): (r: real)
  {
    Score(rules.pieceMap(p))
  }

  /** Total table value of White's pieces. */
  function WhiteMaterial(pieces: seq<Piece>): (r: real)
  {
    if pieces == [] then 0.0
    else (if pieces[0].white then MaterialValue(pieces[0].kind) else 0.0) + WhiteMaterial(pieces[1..])
  }

  /** Total table value of Black's pieces. */
  function BlackMaterial(pieces: seq<Piece>): (r: real)
  {
    if pieces == [] then 0.0
    else (if pieces[0].white then 0.0 else MaterialValue(pieces[0].kind)) + BlackMaterial(pieces[1..])
  }

  /** Every piece with its owner swapped. */
  function Mirror(pieces: seq<Piece>): (r: seq<Piece>)
  {
    seq(|pieces|, i requires 0 <= i < |pieces| => Flip(pieces[i]))
  }

  /** Swapping every owner turns White's material into Black's and back. */
  lemma {:induction false} MirrorSwapsMaterial(pieces: seq<Piece>)
    ensures WhiteMaterial(Mirror(pieces)) == BlackMaterial(pieces)
    ensures BlackMaterial(Mirror(pieces)) == WhiteMaterial(pieces)
  {
    if pieces != [] {
      assert Mirror(pieces)[1..] == Mirror(pieces[1..]);
      MirrorSwapsMaterial(pieces[1..]);
    }
  }

  lemma {:induction false} ScoreAppend(a: seq<Piece>, b: seq<Piece>)
    ensures Score(a + b) == Score(a) + Score(b)
    decreases |b|
  {
    if |b| == 0 {
      assert a + b == a;
    } else {
      var n := |b| - 1;
      assert (a + b)[..|a + b| - 1] == a + b[..n];
      assert (a + b)[|a + b| - 1] == b[n];
      ScoreAppend(a, b[..n]);
    }
  }

  lemma {:induction false} WhiteMaterialAppend(a: seq<Piece>, pc: Piece)
    ensures WhiteMaterial(a + [pc]) == WhiteMaterial(a) + (if pc.white then MaterialValue(pc.kind) else 0.0)
  {
    if a == [] {
      assert [] + [pc] == [pc];
    } else {
      assert (a + [pc])[1..] == a[1..] + [pc];
      WhiteMaterialAppend(a[1..], pc);
    }
  }

  lemma {:induction false} BlackMaterialAppend(a: seq<Piece>, pc: Piece)
    ensures BlackMaterial(a + [pc]) == BlackMaterial(a) + (if pc.white then 0.0 else MaterialValue(pc.kind))
  {
    if a == [] {
      assert [] + [pc] == [pc];
    } else {
      assert (a + [pc])[1..] == a[1..] + [pc];
      BlackMaterialAppend(a[1..], pc);
    }
  }

  /** The evaluation is White's material minus Black's material, by the table. */
  lemma {:induction false} ScoreIsMaterialBalance(pieces: seq<Piece>)
    ensures Score(pieces) == WhiteMaterial(pieces) - BlackMaterial(pieces)
  {
    if |pieces| > 0 {
      var n := |pieces| - 1;
      ScoreIsMaterialBalance(pieces[..n]);
      assert pieces == pieces[..n] + [pieces[n]];
      WhiteMaterialAppend(pieces[..n], pieces[n]);
      BlackMaterialAppend(pieces[..n], pieces[n]);
    }
  }

  /** Swapping the owner of every piece negates the evaluation. */
  lemma {:induction false} ScoreAntisymmetric(pieces: seq<Piece>)
    ensures Score(Mirror(pieces)) == -Score(pieces)
  {
    if |pieces| > 0 {
      var n := |pieces| - 1;
      assert Mirror(pieces)[..n] == Mirror(pieces[..n]);
      ScoreAntisymmetric(pieces[..n]);
    }
  }

  /** A board without pieces scores 0. */
  lemma EmptyBoardScoresZero<P, M>(rules: Rules<P, M>, p: P)
    requires rules.pieceMap(p) == []
    ensures Evaluate(rules, p) == 0.0
  {
  }

  /** The order in which the piece map is walked does not matter. */
  lemma {:induction false} ScoreOrderFree(s: seq<Piece>, t: seq<Piece>)
    requires multiset(s) == multiset(t)
    ensures Score(s) == Score(t)
    decreases |s|
  {
    if |s| > 0 {
      var n := |s| - 1;
      var x := s[n];
      assert s == s[..n] + [x];
      assert x in multiset(t);
      var j :| 0 <= j < |t| && t[j] == x;
      var rest := t[..j] + t[j + 1..];
      assert t == t[..j] + [x] + t[j + 1..];
      assert multiset(t) == multiset(t[..j]) + multiset{x} + multiset(t[j + 1..]);
      assert multiset(rest) == multiset(t[..j]) + multiset(t[j + 1..]);
      assert multiset(s) == multiset(s[..n]) + multiset{x};
      assert multiset(s[..n]) == multiset(s) - multiset{x};
      assert multiset(rest) == multiset(t) - multiset{x};
      ScoreOrderFree(s[..n], rest);
      ScoreAppend(t[..j] + [x], t[j + 1..]);
      ScoreAppend(t[..j], [x]);
      ScoreAppend(t[..j], t[j + 1..]);
      assert Score([x]) == Score([x][..0]) + Contribution(x);
    }
  }

  /** The material of the standard starting position. */
  function StartingPieces(white: bool): (r: seq<Piece>)
  {
    [Piece(Rook, white), Piece(Knight, white), Piece(Bishop, white), Piece(Queen, white),
     Piece(King, white), Piece(Bishop, white), Piece(Knight, white), Piece(Rook, white)]
    + seq(8, _ => Piece(Pawn, white))
  }

  /** Material that is matched piece for piece by the other side evaluates to 0. */
  lemma MirroredPairScoresZero(w: seq<Piece>)
    ensures Score(w + Mirror(w)) == 0.0
  {
    ScoreAntisymmetric(w);
    ScoreAppend(w, Mirror(w));
  }

  /** The standard starting position evaluates to 0, whether White's pieces
      come first or Black's; by `ScoreOrderFree` any other order of the piece
      map, such as square order, gives the same score. */
  lemma StartingPositionScoresZero()
    ensures Score(StartingPieces(true) + StartingPieces(false)) == 0.0
    ensures Score(StartingPieces(false) + StartingPieces(true)) == 0.0
  {
    var w, b := StartingPieces(true), StartingPieces(false);
    assert b == Mirror(w);
    MirroredPairScoresZero(w);
    ScoreAppend(w, b);
    ScoreAppend(b, w);
  }

  /** `evaluate(board)`: walks the piece map adding each piece's signed value. */
  method EvaluateBoard<P, M>(board: Board<P, M>) returns (sum: real)
    ensures sum == Evaluate(board.rules, board.pos)
  {
    sum := 0.0;
    var pieces := board.PieceMap();
    for i := 0 to |pieces|
      invariant sum == Score(pieces[..i])
    {
      var piece := pieces[i];
      var playerFactor := if IsUpper(Symbol(piece)) then 1.0 else -1.0;
      var symbol := Lower(Symbol(piece));
      if symbol == 'p' { sum := sum + 1.0 * playerFactor; }
      if symbol == 'q' { sum := sum + 9.0 * playerFactor; }
      if symbol == 'b' { sum := sum + 3.25 * playerFactor; }
      if symbol == 'k' { sum := sum + 3.0 * playerFactor; }
      if symbol == 'r' { sum := sum + 5.0 * playerFactor; }
      assert pieces[..i + 1][..i] == pieces[..i];
    }
    assert pieces[..|pieces|] == pieces;
  }
}
