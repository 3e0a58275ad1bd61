/**
 `MinMax.search`: a depth-bounded minimax over the positions the rules engine
 generates, scored by the material evaluator, and the root loop that picks
 the move to play.
 */
module MinMaxSearch {
  import opened ChessRules
  import opened Material

  /** The side the root loop maximises for: always White. */
  const RootIsWhite := true

  /** The depth the root loop searches below each root move. */
  const RootChildDepth: nat := 2

  /** The starting value of `bestEval`: -10000 when maximising, +10000 when minimising. */
  function Sentinel(isWhite: bool): (r: real)
  {
    if isWhite then -10000.0 else 10000.0
  }

  /** The position a move leads to: the move is pushed on a fresh copy of the
      board rebuilt from its FEN text. */
  function Child<P, M>(rules: Rules<P, M>, p: P, m: M): (r: P)
  {
    rules.push(rules.reload(p), m)
  }

  /** The `bestEval` fold over a node's child scores: start at the sentinel and
      take each score that strictly improves on the best so far. The result is
      the maximum (minimum) of the sentinel and all the scores. */
  function Fold(scores: seq<real>, isWhite: bool): (r: real)
    ensures isWhite ==> r >= -10000.0 && forall i :: 0 <= i < |scores| ==> scores[i] <= r
    ensures !isWhite ==> r <= 10000.0 && forall i :: 0 <= i < |scores| ==> r <= scores[i]
    ensures r == Sentinel(isWhite) || r in scores
  {
    if |scores| == 0 then Sentinel(isWhite)
    else
      var best := Fold(scores[..|scores| - 1], isWhite);
      var e := scores[|scores| - 1];
      if isWhite then (if e > best then e else best)
      else (if e < best then e else best)
  }

  /** The value `minMax(board, depth, isWhite)` returns for position `p`. */
  function MinimaxValue<P, M>(rules: Rules<P, M>, p: P, depth: nat, isWhite: bool): (r: real)
    decreases depth, 1
  {
    if depth == 0 || rules.isGameOver(p) then Evaluate(rules, p)
    else Fold(ChildValues(rules, p, depth, isWhite), isWhite)
  }

  /** The scores of the children of `p`, one per legal move in the engine's
      order, each searched one ply shallower for the other side. */
  function ChildValues<P, M>(rules: Rules<P, M>, p: P, depth: nat, isWhite: bool): (r: seq<real>)
    requires depth > 0
    decreases depth, 0
  {
    var moves := rules.legalMoves(p);
    seq(|moves|, i requires 0 <= i < |moves| => MinimaxValue(rules, Child(rules, p, moves[i]), depth - 1, !isWhite))
  }

  /** At depth 0 or at a finished game the value is the evaluation, for either side. */
  lemma MinimaxAtLeaf<P, M>(rules: Rules<P, M>, p: P, depth: nat, isWhite: bool)
    requires depth == 0 || rules.isGameOver(p)
    ensures MinimaxValue(rules, p, depth, isWhite) == Evaluate(rules, p)
    ensures MinimaxValue(rules, p, depth, !isWhite) == Evaluate(rules, p)
  {
  }

  /** At an inner node the value is the maximum (for White) or the minimum
      (for Black) of the sentinel and every child's value; a node without
      moves keeps the sentinel. */
  lemma MinimaxAtInnerNode<P, M>(rules: Rules<P, M>, p: P, depth: nat, isWhite: bool)
    requires depth > 0 && !rules.isGameOver(p)
    ensures var v := MinimaxValue(rules, p, depth, isWhite);
            var moves := rules.legalMoves(p);
            && (isWhite ==> v >= -10000.0)
            && (!isWhite ==> v <= 10000.0)
            && (forall i :: 0 <= i < |moves| ==>
                  var c := MinimaxValue(rules, Child(rules, p, moves[i]), depth - 1, !isWhite);
                  if isWhite then c <= v else v <= c)
            && (v == Sentinel(isWhite) ||
                exists i :: 0 <= i < |moves| && v == MinimaxValue(rules, Child(rules, p, moves[i]), depth - 1, !isWhite))
            && (moves == [] ==> v == Sentinel(isWhite))
  {
    var v := MinimaxValue(rules, p, depth, isWhite);
    var moves := rules.legalMoves(p);
    var scores := ChildValues(rules, p, depth, isWhite);
    forall i | 0 <= i < |moves|
      ensures var c := MinimaxValue(rules, Child(rules, p, moves[i]), depth - 1, !isWhite);
              if isWhite then c <= v else v <= c
    {
      assert scores[i] == MinimaxValue(rules, Child(rules, p, moves[i]), depth - 1, !isWhite);
    }
    if v != Sentinel(isWhite) {
      var i :| 0 <= i < |scores| && scores[i] == v;
    }
  }

  /** A depth-1 search scores each child by the evaluator directly and takes
      the extreme one. */
  lemma DepthOneSearchIsGreedy<P, M>(rules: Rules<P, M>, p: P, isWhite: bool)
    requires !rules.isGameOver(p)
    ensures var moves := rules.legalMoves(p);
            MinimaxValue(rules, p, 1, isWhite)
            == Fold(seq(|moves|, i requires 0 <= i < |moves| => Evaluate(rules, Child(rules, p, moves[i]))), isWhite)
  {
    var moves := rules.legalMoves(p);
    assert ChildValues(rules, p, 1, isWhite)
        == seq(|moves|, i requires 0 <= i < |moves| => Evaluate(rules, Child(rules, p, moves[i])));
  }

  /** Every inner node of the tree explored below `p` has a legal move. */
  ghost predicate NoDeadEnds<P, M>(rules: Rules<P, M>, p: P, depth: nat)
    decreases depth
  {
    var moves := rules.legalMoves(p);
    depth == 0 || rules.isGameOver(p) ||
    (|moves| > 0 &&
     forall i :: 0 <= i < |moves| ==> NoDeadEnds(rules, Child(rules, p, moves[i]), depth - 1))
  }

  /** Every leaf of the tree explored below `p` evaluates within [lo, hi]. */
  ghost predicate LeavesWithin<P, M>(rules: Rules<P, M>, p: P, depth: nat, lo: real, hi: real)
    decreases depth
  {
    var moves := rules.legalMoves(p);
    if depth == 0 || rules.isGameOver(p) then lo <= Evaluate(rules, p) <= hi
    else forall i :: 0 <= i < |moves| ==> LeavesWithin(rules, Child(rules, p, moves[i]), depth - 1, lo, hi)
  }

  /** When no explored node is a dead end and the leaves evaluate strictly
      inside the sentinels, the search value lies within the leaves' range. */
  lemma {:induction false} MinimaxWithinLeafBounds<P, M>(rules: Rules<P, M>, p: P, depth: nat, isWhite: bool, lo: real, hi: real)
    requires -10000.0 < lo && hi < 10000.0
    requires NoDeadEnds(rules, p, depth)
    requires LeavesWithin(rules, p, depth, lo, hi)
    ensures lo <= MinimaxValue(rules, p, depth, isWhite) <= hi
    decreases depth
  {
    if depth > 0 && !rules.isGameOver(p) {
      var moves := rules.legalMoves(p);
      var scores := ChildValues(rules, p, depth, isWhite);
      forall i | 0 <= i < |scores|
        ensures lo <= scores[i] <= hi
      {
        MinimaxWithinLeafBounds(rules, Child(rules, p, moves[i]), depth - 1, !isWhite, lo, hi);
      }
      assert lo <= scores[0] <= hi;
    }
  }

  /** `minMax(board, depth, isWhite)`. Each child is searched on a fresh board;
      the method modifies nothing that exists when it is called. */
  method MinMax<P, M>(board: Board<P, M>, depth: nat, isWhite: bool) returns (eval: real)
    ensures eval == MinimaxValue(board.rules, board.pos, depth, isWhite)
    decreases depth
  {
    if depth == 0 || board.IsGameOver() {
      eval := EvaluateBoard(board);
    } else {
      var moves := board.LegalMoves();
      var bestEval := if isWhite then -10000.0 else 10000.0;
      ghost var scores := ChildValues(board.rules, board.pos, depth, isWhite);
      for i := 0 to |moves|
        invariant bestEval == Fold(scores[..i], isWhite)
      {
        var move := moves[i];
        var testBoard := new Board.Copy(board);
        testBoard.Push(move);
        var childEval := MinMax(testBoard, depth - 1, !isWhite);
        if isWhite {
          if childEval > bestEval {
            bestEval := childEval;
          }
        } else {
          if childEval < bestEval {
            bestEval := childEval;
          }
        }
        assert scores[..i + 1][..i] == scores[..i];
      }
      assert scores[..|moves|] == scores;
      eval := bestEval;
    }
  }

  /** The outcome of the root loop: the move chosen and its score, or the
      failure that `moves[0]` raises when there is no legal move. */
  datatype SearchResult<M> = NoMoves | Chosen(move: M, eval: real)

  /** The root loop's state after a prefix of the root scores: the index of
      `bestMove` and the value of `bestEval`. */
  datatype Pick = Pick(index: nat, eval: real)

  /** The root loop's fold: start from move 0 at -10000 and switch to a move
      only when its score is strictly greater. The chosen score is the maximum
      of -10000 and all scores, and the chosen index is the first to reach it
      (index 0 when no score beats -10000). */
  function RootPick(scores: seq<real>): (r: Pick)
    ensures |scores| > 0 ==> r.index < |scores|
    ensures r.eval >= -10000.0 && forall j :: 0 <= j < |scores| ==> scores[j] <= r.eval
    ensures r.eval == -10000.0 ==> r.index == 0
    ensures r.eval > -10000.0 ==>
              && r.index < |scores| && scores[r.index] == r.eval
              && forall j :: 0 <= j < r.index ==> scores[j] < r.eval
  {
    if |scores| == 0 then Pick(0, Sentinel(RootIsWhite))
    else
      var best := RootPick(scores[..|scores| - 1]);
      var e := scores[|scores| - 1];
      if e > best.eval then Pick(|scores| - 1, e) else best
  }

  /** The scores the root loop computes, one per legal root move: the minimax
      value two plies below the move, with Black to choose next. */
  function RootScores<P, M>(rules: Rules<P, M>, p: P): (r: seq<real>)
  {
    var moves := rules.legalMoves(p);
    seq(|moves|, i requires 0 <= i < |moves| => MinimaxValue(rules, Child(rules, p, moves[i]), RootChildDepth, !RootIsWhite))
  }

  /** What `MinMax.search` returns for position `p`. */
  function SelectMove<P, M>(rules: Rules<P, M>, p: P): (r: SearchResult<M>)
  {
    var moves := rules.legalMoves(p);
    if |moves| == 0 then NoMoves
    else
      var pick := RootPick(RootScores(rules, p));
      Chosen(moves[pick.index], pick.eval)
  }

  /** The root returns a legal move whenever there is one: the first, in the
      engine's order, whose score is maximal and above -10000, or the first
      move when no score beats -10000. The reported score is the maximum of
      -10000 and all root scores. */
  lemma SelectMoveIsFirstBest<P, M>(rules: Rules<P, M>, p: P)
    ensures var moves := rules.legalMoves(p);
            var scores := RootScores(rules, p);
            var r := SelectMove(rules, p);
            && (r.Chosen? <==> |moves| > 0)
            && (r.Chosen? ==>
                  && r.eval >= -10000.0
                  && (forall j :: 0 <= j < |moves| ==> scores[j] <= r.eval)
                  && exists k :: 0 <= k < |moves| && moves[k] == r.move
                       && (r.eval == -10000.0 ==> k == 0)
                       && (r.eval > -10000.0 ==>
                             scores[k] == r.eval && forall j :: 0 <= j < k ==> scores[j] < r.eval))
  {
  }

  /** When every root move scores the same, the first move is played. */
  lemma TiesGoToFirstMove<P, M>(rules: Rules<P, M>, p: P)
    requires |rules.legalMoves(p)| > 0
    requires forall j :: 0 <= j < |RootScores(rules, p)| ==> RootScores(rules, p)[j] == RootScores(rules, p)[0]
    ensures SelectMove(rules, p).Chosen?
    ensures SelectMove(rules, p).move == rules.legalMoves(p)[0]
  {
  }

  /** Unfolds one step of `RootPick`, for the loop in `Search`. */
  lemma RootPickStep(scores: seq<real>, i: nat)
    requires i < |scores|
    ensures RootPick(scores[..i + 1])
         == if scores[i] > RootPick(scores[..i]).eval then Pick(i, scores[i]) else RootPick(scores[..i])
  {
  }

  /** `MinMax.search(board, ...)`: the root loop. White is always the side
      maximised, whoever is to move; the board passed in is not modified. */
  method Search<P, M>(board: Board<P, M>) returns (result: SearchResult<M>)
    ensures result == SelectMove(board.rules, board.pos)
  {
    var isWhite := RootIsWhite;
    var moves := board.LegalMoves();
    var bestEval := if isWhite then -10000.0 else 10000.0;
    if |moves| == 0 {
      // `moves[0]` raises here.
      return NoMoves;
    }
    var bestMove := moves[0];
    ghost var bestIndex := 0;
    ghost var scores := RootScores(board.rules, board.pos);
    for i := 0 to |moves|
      invariant Pick(bestIndex, bestEval) == RootPick(scores[..i])
      invariant bestIndex < |moves| && bestMove == moves[bestIndex]
    {
      var move := moves[i];
      var testBoard := new Board.Copy(board);
      testBoard.Push(move);
      var childEval := MinMax(testBoard, RootChildDepth, !isWhite);
      assert childEval == scores[i];
      RootPickStep(scores, i);
      if childEval > bestEval {
        bestEval := childEval;
        bestMove := move;
        bestIndex := i;
      }
    }
    assert scores[..|moves|] == scores;
    result := Chosen(bestMove, bestEval);
  }
}
