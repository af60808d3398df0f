/**
 * What alpha-beta pruning, as MinimaxCalcAB has it, computes compared with
 * plain minimax: inside the window the two agree, and outside it the pruned
 * value is a bound on the minimax value from the correct side ("fail-soft").
 * From the default window (-inf, +inf) the two searches return the same
 * value and the same ideal board. The minimizer's update of beta
 * (`if (value > beta) beta = value`) only ever raises beta: from the default
 * beta = +inf it stays +inf, so the maximizer's beta cutoff fires only on a
 * forced win.
 */
module Pruning {
  import opened Scores
  import opened Boards
  import opened Successors
  import opened Search

  /**
   * What a pruned value `v` searched with window (alpha, beta) tells about
   * the minimax value `m`: at or below alpha it is an upper bound, at or
   * above beta a lower bound, strictly inside the window it is exact.
   */
  predicate Bounded(v: Score, m: Score, alpha: Score, beta: Score) {
    && (Le(v, alpha) ==> Le(m, v))
    && (Le(beta, v) ==> Le(v, m))
    && (Lt(alpha, v) && Lt(v, beta) ==> v == m)
  }

  /**
   * The maximizer's loop state after the first `k` children with values
   * `vals`: beta is fixed, alpha is the larger of alpha and the best value,
   * and the children's values sit below the best value unless it cut off.
   */
  predicate MaxInvariant(vals: seq<Score>, k: nat, s: Scan, alpha: Score, beta: Score)
    requires k <= |vals| && s.idx < |vals|
  {
    && s.beta == beta
    && s.alpha == Max(alpha, s.value)
    && s.idx <= k && (k > 0 ==> s.idx < k)
    && (s.value == NegInf ==> s.idx == 0)
    && (forall j :: 0 <= j < s.idx ==> Lt(vals[j], s.value))
    && (!s.cut ==> Lt(s.value, beta))
    && (!s.cut ==> forall j :: 0 <= j < k ==> Le(vals[j], s.value))
    && (!s.cut && Lt(alpha, s.value) ==> vals[s.idx] == s.value)
    && (s.cut ==> Le(beta, s.value) && Le(s.value, vals[s.idx]))
  }

  /**
   * The minimizer's loop state: alpha is fixed, beta is never lowered, and
   * the children's values sit above the best value unless it cut off.
   */
  predicate MinInvariant(vals: seq<Score>, k: nat, s: Scan, alpha: Score, beta: Score)
    requires k <= |vals| && s.idx < |vals|
  {
    && s.alpha == alpha
    && Le(beta, s.beta)
    && s.idx <= k && (k > 0 ==> s.idx < k)
    && (s.value == PosInf ==> s.idx == 0)
    && (forall j :: 0 <= j < s.idx ==> Lt(s.value, vals[j]))
    && (!s.cut ==> Lt(alpha, s.value))
    && (!s.cut ==> forall j :: 0 <= j < k ==> Le(s.value, vals[j]))
    && (!s.cut && Lt(s.value, beta) ==> vals[s.idx] == s.value)
    && (s.cut ==> Le(s.value, alpha) && Le(vals[s.idx], s.value))
  }

  /** One maximizer step with a child value `t` that bounds the child's minimax value keeps the invariant. */
  lemma MaxStep(vals: seq<Score>, k: nat, s: Scan, t: Score, alpha: Score, beta: Score)
    requires k < |vals| && s.idx < |vals| && Lt(alpha, beta)
    requires MaxInvariant(vals, k, s, alpha, beta) && !s.cut
    requires Bounded(t, vals[k], s.alpha, s.beta)
    ensures MaxInvariant(vals, k + 1, Step(s, t, k, true), alpha, beta)
  {
    var s' := Step(s, t, k, true);
    var m := vals[k];
    if Lt(s.value, t) {
      forall j | 0 <= j < s'.idx
        ensures Lt(vals[j], s'.value)
      {
        LeLtTrans(vals[j], s.value, t);
      }
      if !s'.cut {
        forall j | 0 <= j < k + 1
          ensures Le(vals[j], s'.value)
        {
          if j < k {
            LeTrans(vals[j], s.value, t);
          }
        }
      }
    } else {
      LeTrans(t, s.value, s.alpha);
      LeTrans(m, t, s.value);
    }
  }

  /** One minimizer step with a child value `t` that bounds the child's minimax value keeps the invariant. */
  lemma MinStep(vals: seq<Score>, k: nat, s: Scan, t: Score, alpha: Score, beta: Score)
    requires k < |vals| && s.idx < |vals| && Lt(alpha, beta)
    requires MinInvariant(vals, k, s, alpha, beta) && !s.cut
    requires Bounded(t, vals[k], s.alpha, s.beta)
    ensures MinInvariant(vals, k + 1, Step(s, t, k, false), alpha, beta)
  {
    var s' := Step(s, t, k, false);
    var m := vals[k];
    if Lt(t, s.value) {
      LeTrans(beta, s.beta, s'.beta);
      forall j | 0 <= j < s'.idx
        ensures Lt(s'.value, vals[j])
      {
        LtLeTrans(t, s.value, vals[j]);
      }
      if !s'.cut {
        assert Le(t, m) by {
          if Lt(t, s.beta) {
            assert t == m;
          }
        }
        forall j | 0 <= j < k + 1
          ensures Le(s'.value, vals[j])
        {
          if j < k {
            LeTrans(t, s.value, vals[j]);
          }
        }
        if Lt(t, beta) {
          LtLeTrans(t, beta, s.beta);
        }
      }
    } else {
      assert Le(t, m) by {
        if Le(t, alpha) {
          LtLeTrans(alpha, s.value, t);
        }
      }
      LeTrans(s.value, t, m);
    }
  }

  /** The maximizer's loop keeps `MaxInvariant` over every prefix of the children. */
  lemma {:induction false} MaxScan(g: Game, kids: seq<BoardValue>, k: nat, depth: int, maximizingPlayer: int,
                                   alpha: Score, beta: Score)
    requires g.Valid() && AllFit(kids) && 0 < |kids| && k <= |kids| && Lt(alpha, beta)
    ensures MaxInvariant(ChildValues(g, kids, depth, maximizingPlayer), k,
                         ABScan(g, kids, k, depth, maximizingPlayer, true, alpha, beta), alpha, beta)
    decreases depth, 2, k
  {
    if k > 0 {
      MaxScan(g, kids, k - 1, depth, maximizingPlayer, alpha, beta);
      var s := ABScan(g, kids, k - 1, depth, maximizingPlayer, true, alpha, beta);
      if !s.cut {
        var vals := ChildValues(g, kids, depth, maximizingPlayer);
        var t := AlphaBeta(g, kids[k - 1], depth, maximizingPlayer, s.alpha, s.beta).value;
        AlphaBetaBounded(g, kids[k - 1], depth, maximizingPlayer, s.alpha, s.beta);
        ChildValueAt(g, kids, depth, maximizingPlayer, k - 1);
        MaxStep(vals, k - 1, s, t, alpha, beta);
      }
    }
  }

  /** The minimizer's loop keeps `MinInvariant` over every prefix of the children. */
  lemma {:induction false} MinScan(g: Game, kids: seq<BoardValue>, k: nat, depth: int, maximizingPlayer: int,
                                   alpha: Score, beta: Score)
    requires g.Valid() && AllFit(kids) && 0 < |kids| && k <= |kids| && Lt(alpha, beta)
    ensures MinInvariant(ChildValues(g, kids, depth, maximizingPlayer), k,
                         ABScan(g, kids, k, depth, maximizingPlayer, false, alpha, beta), alpha, beta)
    decreases depth, 2, k
  {
    if k > 0 {
      MinScan(g, kids, k - 1, depth, maximizingPlayer, alpha, beta);
      var s := ABScan(g, kids, k - 1, depth, maximizingPlayer, false, alpha, beta);
      if !s.cut {
        LtLeTrans(alpha, beta, s.beta);
        var vals := ChildValues(g, kids, depth, maximizingPlayer);
        var t := AlphaBeta(g, kids[k - 1], depth, maximizingPlayer, s.alpha, s.beta).value;
        AlphaBetaBounded(g, kids[k - 1], depth, maximizingPlayer, s.alpha, s.beta);
        ChildValueAt(g, kids, depth, maximizingPlayer, k - 1);
        MinStep(vals, k - 1, s, t, alpha, beta);
      }
    }
  }

  /**
   * Fail-soft soundness of MinimaxCalcAB: for every window with alpha below
   * beta, the pruned value bounds the minimax value as `Bounded` says.
   */
  lemma {:induction false} AlphaBetaBounded(g: Game, b: BoardValue, depth: int, maximizingPlayer: int,
                                            alpha: Score, beta: Score)
    requires g.Valid() && Fits(b) && Lt(alpha, beta)
    ensures Bounded(AlphaBeta(g, b, depth, maximizingPlayer, alpha, beta).value,
                    Minimax(g, b, depth, maximizingPlayer).value, alpha, beta)
    decreases depth, 1, 0
  {
    var h := g.heuristic(b);
    if depth > 0 && !h.Infinite() {
      var kids := PotentialMoveList(g, b);
      if kids != [] {
        var vals := ChildValues(g, kids, depth - 1, maximizingPlayer);
        var maximizing := b.playerPly == maximizingPlayer;
        var s := ABScan(g, kids, |kids|, depth - 1, maximizingPlayer, maximizing, alpha, beta);
        var m := if maximizing then MaxOf(vals) else MinOf(vals);
        assert AlphaBeta(g, b, depth, maximizingPlayer, alpha, beta).value == s.value;
        assert Minimax(g, b, depth, maximizingPlayer).value == m;
        if maximizing {
          MaxScan(g, kids, |kids|, depth - 1, maximizingPlayer, alpha, beta);
          MaxOfBounded(vals, s, alpha, beta);
        } else {
          MinScan(g, kids, |kids|, depth - 1, maximizingPlayer, alpha, beta);
          MinOfBounded(vals, s, alpha, beta);
        }
      }
    }
  }

  /** The maximizer's final loop state bounds the largest child value as `Bounded` says. */
  lemma MaxOfBounded(vals: seq<Score>, s: Scan, alpha: Score, beta: Score)
    requires s.idx < |vals| && Lt(alpha, beta) && MaxInvariant(vals, |vals|, s, alpha, beta)
    ensures Bounded(s.value, MaxOf(vals), alpha, beta)
  {
    if s.cut {
      LeTrans(s.value, vals[s.idx], MaxOf(vals));
      LtLeTrans(alpha, beta, s.value);
    }
  }

  /** The minimizer's final loop state bounds the smallest child value as `Bounded` says. */
  lemma MinOfBounded(vals: seq<Score>, s: Scan, alpha: Score, beta: Score)
    requires s.idx < |vals| && Lt(alpha, beta) && MinInvariant(vals, |vals|, s, alpha, beta)
    ensures Bounded(s.value, MinOf(vals), alpha, beta)
  {
    if s.cut {
      LeTrans(MinOf(vals), vals[s.idx], s.value);
      LeLtTrans(s.value, alpha, beta);
    }
  }

  /** From the default window the maximizer's loop ends on the largest child value, at its first index. */
  lemma MaxAtDefault(vals: seq<Score>, s: Scan)
    requires s.idx < |vals| && MaxInvariant(vals, |vals|, s, NegInf, PosInf)
    ensures s.value == MaxOf(vals) && s.idx == FirstIndex(vals, s.value)
  {
    MaxOfBounded(vals, s, NegInf, PosInf);
    assert vals[s.idx] == s.value;
    FirstIndexUnique(vals, s.value, s.idx);
  }

  /** From the default window the minimizer's loop ends on the smallest child value, at its first index. */
  lemma MinAtDefault(vals: seq<Score>, s: Scan)
    requires s.idx < |vals| && MinInvariant(vals, |vals|, s, NegInf, PosInf)
    ensures s.value == MinOf(vals) && s.idx == FirstIndex(vals, s.value)
  {
    MinOfBounded(vals, s, NegInf, PosInf);
    assert vals[s.idx] == s.value;
    FirstIndexUnique(vals, s.value, s.idx);
  }

  /**
   * DoMinimax calls MinimaxCalcAB with the default window (-inf, +inf): it
   * then returns the same value and the same ideal board as MinimaxCalc.
   */
  lemma PruningPreservesOutcome(g: Game, b: BoardValue, depth: int, maximizingPlayer: int)
    requires g.Valid() && Fits(b)
    ensures AlphaBeta(g, b, depth, maximizingPlayer, NegInf, PosInf).value == Minimax(g, b, depth, maximizingPlayer).value
    ensures AlphaBeta(g, b, depth, maximizingPlayer, NegInf, PosInf).ideal == Minimax(g, b, depth, maximizingPlayer).ideal
  {
    var h := g.heuristic(b);
    if depth > 0 && !h.Infinite() {
      var kids := PotentialMoveList(g, b);
      if kids != [] {
        var vals := ChildValues(g, kids, depth - 1, maximizingPlayer);
        var maximizing := b.playerPly == maximizingPlayer;
        var s := ABScan(g, kids, |kids|, depth - 1, maximizingPlayer, maximizing, NegInf, PosInf);
        assert AlphaBeta(g, b, depth, maximizingPlayer, NegInf, PosInf) == Outcome(s.value, kids[s.idx]);
        if maximizing {
          MaxScan(g, kids, |kids|, depth - 1, maximizingPlayer, NegInf, PosInf);
          MaxAtDefault(vals, s);
        } else {
          MinScan(g, kids, |kids|, depth - 1, maximizingPlayer, NegInf, PosInf);
          MinAtDefault(vals, s);
        }
        assert Minimax(g, b, depth, maximizingPlayer) == Outcome(s.value, kids[s.idx]);
      }
    }
  }

  /**
   * The loop never lowers beta: the maximizer leaves it alone and the
   * minimizer only replaces it by a larger value. A maximizer's cutoff
   * happens only at a value at or above the beta it was given.
   */
  lemma {:induction false} BetaNeverLowered(g: Game, kids: seq<BoardValue>, k: nat, depth: int, maximizingPlayer: int,
                                            maximizing: bool, alpha: Score, beta: Score)
    requires g.Valid() && AllFit(kids) && 0 < |kids| && k <= |kids|
    ensures Le(beta, ABScan(g, kids, k, depth, maximizingPlayer, maximizing, alpha, beta).beta)
    ensures maximizing ==> ABScan(g, kids, k, depth, maximizingPlayer, maximizing, alpha, beta).beta == beta
    ensures maximizing && ABScan(g, kids, k, depth, maximizingPlayer, maximizing, alpha, beta).cut ==>
              Le(beta, ABScan(g, kids, k, depth, maximizingPlayer, maximizing, alpha, beta).value)
    decreases k
  {
    if k > 0 {
      BetaNeverLowered(g, kids, k - 1, depth, maximizingPlayer, maximizing, alpha, beta);
      var s := ABScan(g, kids, k - 1, depth, maximizingPlayer, maximizing, alpha, beta);
      var s' := ABScan(g, kids, k, depth, maximizingPlayer, maximizing, alpha, beta);
      if !s.cut {
        LeTrans(beta, s.beta, s'.beta);
      }
    }
  }

  /**
   * From the default beta = +inf every child is searched with beta = +inf
   * again, so the maximizer's beta cutoff fires only on a forced win.
   */
  lemma DefaultBetaStaysInfinite(g: Game, kids: seq<BoardValue>, k: nat, depth: int, maximizingPlayer: int,
                                 maximizing: bool, alpha: Score)
    requires g.Valid() && AllFit(kids) && 0 < |kids| && k <= |kids|
    ensures ABScan(g, kids, k, depth, maximizingPlayer, maximizing, alpha, PosInf).beta == PosInf
    ensures maximizing && ABScan(g, kids, k, depth, maximizingPlayer, maximizing, alpha, PosInf).cut ==>
              ABScan(g, kids, k, depth, maximizingPlayer, maximizing, alpha, PosInf).value == PosInf
  {
    BetaNeverLowered(g, kids, k, depth, maximizingPlayer, maximizing, alpha, PosInf);
  }
}
