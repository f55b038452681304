/**
 Minimax with alpha-beta pruning (TicTacToe.py: minimax), and an unpruned
 minimax over the same tree used as its reference. The unused `depth`
 parameter of the original is dropped. The loop over the actions is the
 tail-recursive MaxLoop / MinLoop, walking Actions(s) by index in the same
 order and stopping as soon as beta <= alpha.
 */
module Search {
  import opened Grid
  import opened Rules
  import opened Moves

  function Max(a: int, b: int): int { if a >= b then a else b }
  function Min(a: int, b: int): int { if a <= b then a else b }

  /** The pruned search. Every game ends, so the number of free cells
      bounds the recursion; the value is always a real game value. */
  function Minimax(s: Board, alpha: int, beta: int, maximize: bool): (v: int)
    ensures -1 <= v <= 1
    decreases CountEmpty(s), 1
  {
    if Terminal(s) then Value(s).score
    else
      OngoingHasAction(s);
      if maximize then MaxLoop(s, 0, -100, alpha, beta)
      else MinLoop(s, 0, 100, alpha, beta)
  }

  /** The maximising loop from the `k`-th action on, with the best value and
      the alpha seen so far. */
  function MaxLoop(s: Board, k: nat, best: int, alpha: int, beta: int): (v: int)
    requires k <= CountEmpty(s)
    ensures best <= v <= Max(best, 1)
    ensures k < CountEmpty(s) ==> -1 <= v
    decreases CountEmpty(s), 0, CountEmpty(s) - k
  {
    if k == CountEmpty(s) then best
    else
      var e := Minimax(Child(s, k), alpha, beta, false);
      var best', alpha' := Max(best, e), Max(alpha, e);
      if beta <= alpha' then best'
      else MaxLoop(s, k + 1, best', alpha', beta)
  }

  /** The minimising loop from the `k`-th action on, with the best value and
      the beta seen so far. */
  function MinLoop(s: Board, k: nat, best: int, alpha: int, beta: int): (v: int)
    requires k <= CountEmpty(s)
    ensures Min(best, -1) <= v <= best
    ensures k < CountEmpty(s) ==> v <= 1
    decreases CountEmpty(s), 0, CountEmpty(s) - k
  {
    if k == CountEmpty(s) then best
    else
      var e := Minimax(Child(s, k), alpha, beta, true);
      var best', beta' := Min(best, e), Min(beta, e);
      if beta' <= alpha then best'
      else MinLoop(s, k + 1, best', alpha, beta')
  }

  // ---------------------------------------------------------------------
  // The reference: the same tree, every child evaluated.

  /** Unpruned minimax with the same turn alternation and move order. */
  function Plain(s: Board, maximize: bool): (v: int)
    ensures -1 <= v <= 1
    decreases CountEmpty(s), 1
  {
    if Terminal(s) then Value(s).score
    else
      OngoingHasAction(s);
      if maximize then PlainMax(s, 0, -100) else PlainMin(s, 0, 100)
  }

  /** The largest of `acc` and the values of the children from `k` on. */
  function PlainMax(s: Board, k: nat, acc: int): (v: int)
    requires k <= CountEmpty(s)
    ensures acc <= v <= Max(acc, 1)
    ensures k < CountEmpty(s) ==> -1 <= v
    decreases CountEmpty(s), 0, CountEmpty(s) - k
  {
    if k == CountEmpty(s) then acc
    else PlainMax(s, k + 1, Max(acc, Plain(Child(s, k), false)))
  }

  /** The smallest of `acc` and the values of the children from `k` on. */
  function PlainMin(s: Board, k: nat, acc: int): (v: int)
    requires k <= CountEmpty(s)
    ensures Min(acc, -1) <= v <= acc
    ensures k < CountEmpty(s) ==> v <= 1
    decreases CountEmpty(s), 0, CountEmpty(s) - k
  {
    if k == CountEmpty(s) then acc
    else PlainMin(s, k + 1, Min(acc, Plain(Child(s, k), true)))
  }

  // ---------------------------------------------------------------------
  // Pruning is sound.

  /** The fail-soft guarantee of a search result `v` about the true value
      `t` for the window (alpha, beta): a fail low is an upper bound, a fail
      high a lower bound, and a result inside the window is exact. */
  predicate Window(v: int, t: int, alpha: int, beta: int) {
    && (v <= alpha ==> t <= v)
    && (v >= beta ==> t >= v)
    && (alpha < v < beta ==> v == t)
  }

  /** Alpha-beta search is fail-soft with respect to unpruned minimax. */
  lemma {:induction false} FailSoft(s: Board, alpha: int, beta: int, maximize: bool)
    requires alpha < beta
    ensures Window(Minimax(s, alpha, beta, maximize), Plain(s, maximize), alpha, beta)
    decreases CountEmpty(s), 1, 0, 0
  {
    if !Terminal(s) {
      OngoingHasAction(s);
      if maximize {
        MaxLoopFailSoft(s, 0, -100, alpha, alpha, beta, -100);
      } else {
        MinLoopFailSoft(s, 0, 100, alpha, beta, beta, 100);
      }
    }
  }

  /** What the maximising loop keeps about its running values: `acc` is the
      unpruned maximum so far and `alpha` the current lower bound, for a
      loop started with window (alpha0, beta). */
  predicate MaxKeeps(best: int, alpha: int, alpha0: int, beta: int, acc: int) {
    && alpha0 < beta && alpha < beta
    && acc <= best
    && (best > alpha0 ==> acc >= best)
    && (alpha <= alpha0 || alpha <= best)
    && (best == -100 || best < beta)
  }

  /** One step of the maximising loop on the values alone: a child result
      `e` that is fail-soft about the child's true value `t` either keeps
      the loop's invariant or cuts the loop off with a fail high. */
  lemma MaxStep(best: int, alpha: int, alpha0: int, beta: int, acc: int, e: int, t: int, rest: int)
    requires MaxKeeps(best, alpha, alpha0, beta, acc)
    requires -1 <= e <= 1 && Window(e, t, alpha, beta)
    requires Max(acc, t) <= rest
    ensures Max(alpha, e) < beta ==> MaxKeeps(Max(best, e), Max(alpha, e), alpha0, beta, Max(acc, t))
    ensures Max(alpha, e) >= beta ==> e == Max(best, e) && Window(e, rest, alpha0, beta)
  {
  }

  /** The maximising loop keeps the fail-soft guarantee. */
  lemma {:induction false} MaxLoopFailSoft(
    s: Board, k: nat, best: int, alpha: int, alpha0: int, beta: int, acc: int)
    requires k <= CountEmpty(s)
    requires MaxKeeps(best, alpha, alpha0, beta, acc)
    ensures Window(MaxLoop(s, k, best, alpha, beta), PlainMax(s, k, acc), alpha0, beta)
    decreases CountEmpty(s), 0, CountEmpty(s) - k, 1
  {
    if k < CountEmpty(s) {
      MaxCutFailSoft(s, k, best, alpha, alpha0, beta, acc);
      MaxGoOnFailSoft(s, k, best, alpha, alpha0, beta, acc);
    } else {
      assert MaxLoop(s, k, best, alpha, beta) == best;
      assert PlainMax(s, k, acc) == acc;
    }
  }

  /** A child that fails high cuts the maximising loop off, and the cut-off
      value keeps the guarantee. */
  lemma {:induction false} MaxCutFailSoft(
    s: Board, k: nat, best: int, alpha: int, alpha0: int, beta: int, acc: int)
    requires k < CountEmpty(s)
    requires MaxKeeps(best, alpha, alpha0, beta, acc)
    ensures beta <= Max(alpha, Minimax(Child(s, k), alpha, beta, false)) ==>
      Window(MaxLoop(s, k, best, alpha, beta), PlainMax(s, k, acc), alpha0, beta)
    decreases CountEmpty(s), 0, CountEmpty(s) - k, 0
  {
    var c := Child(s, k);
    var e, t := Minimax(c, alpha, beta, false), Plain(c, false);
    if beta <= Max(alpha, e) {
      assert Window(e, t, alpha, beta) by { FailSoft(c, alpha, beta, false); }
      var r' := PlainMax(s, k + 1, Max(acc, t));
      MaxStep(best, alpha, alpha0, beta, acc, e, t, r');
      assert PlainMax(s, k, acc) == r';
      assert MaxLoop(s, k, best, alpha, beta) == e;
    }
  }

  /** A child inside the window lets the maximising loop go on with a
      narrower window, and the rest of the loop keeps the guarantee. */
  lemma {:induction false} MaxGoOnFailSoft(
    s: Board, k: nat, best: int, alpha: int, alpha0: int, beta: int, acc: int)
    requires k < CountEmpty(s)
    requires MaxKeeps(best, alpha, alpha0, beta, acc)
    ensures Max(alpha, Minimax(Child(s, k), alpha, beta, false)) < beta ==>
      Window(MaxLoop(s, k, best, alpha, beta), PlainMax(s, k, acc), alpha0, beta)
    decreases CountEmpty(s), 0, CountEmpty(s) - k, 0
  {
    var c := Child(s, k);
    var e, t := Minimax(c, alpha, beta, false), Plain(c, false);
    if Max(alpha, e) < beta {
      assert Window(e, t, alpha, beta) by { FailSoft(c, alpha, beta, false); }
      var r' := PlainMax(s, k + 1, Max(acc, t));
      MaxStep(best, alpha, alpha0, beta, acc, e, t, r');
      assert PlainMax(s, k, acc) == r';
      MaxLoopFailSoft(s, k + 1, Max(best, e), Max(alpha, e), alpha0, beta, Max(acc, t));
      assert MaxLoop(s, k, best, alpha, beta) == MaxLoop(s, k + 1, Max(best, e), Max(alpha, e), beta);
    }
  }

  /** What the minimising loop keeps, for a loop started with window
      (alpha, beta0). */
  predicate MinKeeps(best: int, alpha: int, beta: int, beta0: int, acc: int) {
    && alpha < beta0 && alpha < beta
    && acc >= best
    && (best < beta0 ==> acc <= best)
    && (beta >= beta0 || beta >= best)
    && (best == 100 || best > alpha)
  }

  /** One step of the minimising loop on the values alone. */
  lemma MinStep(best: int, alpha: int, beta: int, beta0: int, acc: int, e: int, t: int, rest: int)
    requires MinKeeps(best, alpha, beta, beta0, acc)
    requires -1 <= e <= 1 && Window(e, t, alpha, beta)
    requires rest <= Min(acc, t)
    ensures alpha < Min(beta, e) ==> MinKeeps(Min(best, e), alpha, Min(beta, e), beta0, Min(acc, t))
    ensures alpha >= Min(beta, e) ==> e == Min(best, e) && Window(e, rest, alpha, beta0)
  {
  }

  /** The minimising loop keeps the fail-soft guarantee. */
  lemma {:induction false} MinLoopFailSoft(
    s: Board, k: nat, best: int, alpha: int, beta: int, beta0: int, acc: int)
    requires k <= CountEmpty(s)
    requires MinKeeps(best, alpha, beta, beta0, acc)
    ensures Window(MinLoop(s, k, best, alpha, beta), PlainMin(s, k, acc), alpha, beta0)
    decreases CountEmpty(s), 0, CountEmpty(s) - k, 1
  {
    if k < CountEmpty(s) {
      MinCutFailSoft(s, k, best, alpha, beta, beta0, acc);
      MinGoOnFailSoft(s, k, best, alpha, beta, beta0, acc);
    } else {
      assert MinLoop(s, k, best, alpha, beta) == best;
      assert PlainMin(s, k, acc) == acc;
    }
  }

  /** A child that fails low cuts the minimising loop off, and the cut-off
      value keeps the guarantee. */
  lemma {:induction false} MinCutFailSoft(
    s: Board, k: nat, best: int, alpha: int, beta: int, beta0: int, acc: int)
    requires k < CountEmpty(s)
    requires MinKeeps(best, alpha, beta, beta0, acc)
    ensures Min(beta, Minimax(Child(s, k), alpha, beta, true)) <= alpha ==>
      Window(MinLoop(s, k, best, alpha, beta), PlainMin(s, k, acc), alpha, beta0)
    decreases CountEmpty(s), 0, CountEmpty(s) - k, 0
  {
    var c := Child(s, k);
    var e, t := Minimax(c, alpha, beta, true), Plain(c, true);
    if Min(beta, e) <= alpha {
      assert Window(e, t, alpha, beta) by { FailSoft(c, alpha, beta, true); }
      var r' := PlainMin(s, k + 1, Min(acc, t));
      MinStep(best, alpha, beta, beta0, acc, e, t, r');
      assert PlainMin(s, k, acc) == r';
      assert MinLoop(s, k, best, alpha, beta) == e;
    }
  }

  /** A child inside the window lets the minimising loop go on with a
      narrower window, and the rest of the loop keeps the guarantee. */
  lemma {:induction false} MinGoOnFailSoft(
    s: Board, k: nat, best: int, alpha: int, beta: int, beta0: int, acc: int)
    requires k < CountEmpty(s)
    requires MinKeeps(best, alpha, beta, beta0, acc)
    ensures alpha < Min(beta, Minimax(Child(s, k), alpha, beta, true)) ==>
      Window(MinLoop(s, k, best, alpha, beta), PlainMin(s, k, acc), alpha, beta0)
    decreases CountEmpty(s), 0, CountEmpty(s) - k, 0
  {
    var c := Child(s, k);
    var e, t := Minimax(c, alpha, beta, true), Plain(c, true);
    if alpha < Min(beta, e) {
      assert Window(e, t, alpha, beta) by { FailSoft(c, alpha, beta, true); }
      var r' := PlainMin(s, k + 1, Min(acc, t));
      MinStep(best, alpha, beta, beta0, acc, e, t, r');
      assert PlainMin(s, k, acc) == r';
      MinLoopFailSoft(s, k + 1, Min(best, e), alpha, Min(beta, e), beta0, Min(acc, t));
      assert MinLoop(s, k, best, alpha, beta) == MinLoop(s, k + 1, Min(best, e), alpha, Min(beta, e));
    }
  }

  /** With the root window (-100, 100) pruning never changes the value. */
  lemma RootExact(s: Board, maximize: bool)
    ensures Minimax(s, -100, 100, maximize) == Plain(s, maximize)
  {
    FailSoft(s, -100, 100, maximize);
  }
}
