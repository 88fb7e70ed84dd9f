/**
 * The game rules carried out by a player process (LA4/players.c), stated as
 * functions over the contents of the shared board and players segments.
 * The methods of module Players are proved against these functions.
 *
 * A board is a sequence of BoardSize cells; cell c holds the delta of the
 * ladder or snake that starts there (0 for a neutral cell).  A positions
 * sequence holds one position per player and, at index n, the active count.
 */
module Rules {
  import opened Basics

  // ---------------------------------------------------------------------
  // Dice

  /** The die values a roll consumes: each one is in 1..6, and a roll reads at most three. */
  predicate ValidDice(dice: seq<int>)
  {
    |dice| >= 3 && forall i :: 0 <= i < |dice| ==> 1 <= dice[i] <= 6
  }

  predicate ThreeSixes(dice: seq<int>)
    requires |dice| >= 3
  {
    dice[0] == 6 && dice[1] == 6 && dice[2] == 6
  }

  /** How many dice a roll throws: it stops at the first die that is not a 6, and after three. */
  function Throws(dice: seq<int>): (k: nat)
    requires |dice| >= 3
    ensures 1 <= k <= 3
    ensures forall i :: 0 <= i < k - 1 ==> dice[i] == 6
    ensures k < 3 ==> dice[k - 1] != 6
  {
    if dice[0] != 6 then 1 else if dice[1] != 6 then 2 else 3
  }

  function Sum(s: seq<int>): int
  {
    if s == [] then 0 else Sum(s[..|s| - 1]) + s[|s| - 1]
  }

  lemma SumOfThrows(dice: seq<int>, k: nat)
    requires |dice| >= 3 && 1 <= k <= 3
    ensures Sum(dice[..k]) == if k == 1 then dice[0] else if k == 2 then dice[0] + dice[1] else dice[0] + dice[1] + dice[2]
  {
    assert dice[..1][..0] == [];
    assert Sum(dice[..1]) == dice[0];
    assert dice[..2][..1] == dice[..1];
    assert Sum(dice[..2]) == dice[0] + dice[1];
    assert dice[..3][..2] == dice[..2];
  }

  /**
   * The value of a roll: the sum of the dice thrown, or 0 when three 6s in a
   * row cancel the move.  A result that is not 0 is some 6s followed by a die
   * in 1..5, so it is never a multiple of 6 and never more than 17.
   */
  function DiceTotal(dice: seq<int>): (total: int)
    requires ValidDice(dice)
    ensures total == 0 <==> ThreeSixes(dice)
    ensures total != 0 ==> 1 <= total <= 17 && total % 6 != 0
  {
    if ThreeSixes(dice) then 0
    else
      var k := Throws(dice);
      SumOfThrows(dice, k);
      Sum(dice[..k])
  }

  // ---------------------------------------------------------------------
  // Occupancy and the ladder/snake chain

  /** Cell `cell` holds some player other than `me`; home (0) and the finish (100) are never occupied. */
  predicate Occupied(ps: seq<int>, n: int, cell: int, me: int)
    requires 0 <= n <= |ps|
  {
    0 < cell < Finish && exists i :: 0 <= i < n && i != me && ps[i] == cell
  }

  /** Every cell in s is one a chain step can start from (1..99). */
  predicate OnBoard(s: set<int>)
  {
    forall c :: c in s ==> 0 < c < Finish
  }

  /** Every ladder or snake that a chain can follow ends on a cell of the board. */
  predicate WellFormed(board: seq<int>)
    requires |board| == BoardSize
  {
    forall c :: 1 <= c < Finish && board[c] != 0 ==> 1 <= c + board[c] <= Finish
  }

  /**
   * Where the ladder/snake chain starting on `pos` ends: it follows the
   * delta of each non-neutral cell in 1..99 not yet in `visited`, and it stops
   * on the cell before a step whose target holds another player.
   */
  function Chain(board: seq<int>, ps: seq<int>, n: int, me: int, pos: int, visited: set<int>): int
    requires |board| == BoardSize && 0 <= n <= |ps| && OnBoard(visited)
    decreases Finish - |visited|
  {
    if 0 < pos < Finish && board[pos] != 0 && pos !in visited then
      var next := pos + board[pos];
      BoundedCard(visited + {pos}, 1, Finish);
      if Occupied(ps, n, next, me) then pos
      else Chain(board, ps, n, me, next, visited + {pos})
    else pos
  }

  /** A step whose target is free moves the chain on, with pos marked visited. */
  lemma ChainMoves(board: seq<int>, ps: seq<int>, n: int, me: int, pos: int, visited: set<int>)
    requires |board| == BoardSize && 0 <= n <= |ps| && OnBoard(visited)
    requires 0 < pos < Finish && board[pos] != 0 && pos !in visited
    requires !Occupied(ps, n, pos + board[pos], me)
    ensures OnBoard(visited + {pos}) && |visited + {pos}| == |visited| + 1 <= Finish - 1
    ensures Chain(board, ps, n, me, pos, visited) == Chain(board, ps, n, me, pos + board[pos], visited + {pos})
  {
    BoundedCard(visited + {pos}, 1, Finish);
  }

  /** A step whose target holds another player leaves the chain where it is. */
  lemma ChainBlocked(board: seq<int>, ps: seq<int>, n: int, me: int, pos: int, visited: set<int>)
    requires |board| == BoardSize && 0 <= n <= |ps| && OnBoard(visited)
    requires 0 < pos < Finish && board[pos] != 0 && pos !in visited
    requires Occupied(ps, n, pos + board[pos], me)
    ensures Chain(board, ps, n, me, pos, visited) == pos
    ensures |visited| + 1 <= Finish - 1
  {
    BoundedCard(visited + {pos}, 1, Finish);
  }

  /** A neutral, off-board or already visited cell ends the chain. */
  lemma ChainEnds(board: seq<int>, ps: seq<int>, n: int, me: int, pos: int, visited: set<int>)
    requires |board| == BoardSize && 0 <= n <= |ps| && OnBoard(visited)
    requires !(0 < pos < Finish && board[pos] != 0 && pos !in visited)
    ensures Chain(board, ps, n, me, pos, visited) == pos
  {
  }

  /** The number of iterations the chain loop makes (the one that meets an occupied cell included). */
  function Hops(board: seq<int>, ps: seq<int>, n: int, me: int, pos: int, visited: set<int>): nat
    requires |board| == BoardSize && 0 <= n <= |ps| && OnBoard(visited)
    decreases Finish - |visited|
  {
    if 0 < pos < Finish && board[pos] != 0 && pos !in visited then
      var next := pos + board[pos];
      BoundedCard(visited + {pos}, 1, Finish);
      if Occupied(ps, n, next, me) then 1
      else 1 + Hops(board, ps, n, me, next, visited + {pos})
    else 0
  }

  /** A set of integers drawn from lo..hi-1 has at most hi - lo elements. */
  lemma {:induction false} BoundedCard(s: set<int>, lo: int, hi: int)
    requires lo <= hi
    requires forall c :: c in s ==> lo <= c < hi
    ensures |s| <= hi - lo
    decreases hi - lo
  {
    if lo < hi {
      BoundedCard(s - {hi - 1}, lo, hi - 1);
    } else {
      assert s == {};
    }
  }

  lemma {:induction false} HopsLeft(board: seq<int>, ps: seq<int>, n: int, me: int, pos: int, visited: set<int>)
    requires |board| == BoardSize && 0 <= n <= |ps| && OnBoard(visited)
    ensures |visited| + Hops(board, ps, n, me, pos, visited) <= Finish - 1
    decreases Finish - |visited|
  {
    BoundedCard(visited, 1, Finish);
    if 0 < pos < Finish && board[pos] != 0 && pos !in visited {
      var next := pos + board[pos];
      BoundedCard(visited + {pos}, 1, Finish);
      if !Occupied(ps, n, next, me) {
        HopsLeft(board, ps, n, me, next, visited + {pos});
      }
    }
  }

  /** The chain loop always stops, after at most 99 iterations: each one marks a new cell of 1..99. */
  lemma ChainTerminates(board: seq<int>, ps: seq<int>, n: int, me: int, pos: int)
    requires |board| == BoardSize && 0 <= n <= |ps|
    ensures Hops(board, ps, n, me, pos, {}) <= Finish - 1
  {
    HopsLeft(board, ps, n, me, pos, {});
  }

  /** On a well-formed board a chain that starts on the board ends on the board. */
  lemma {:induction false} ChainInRange(board: seq<int>, ps: seq<int>, n: int, me: int, pos: int, visited: set<int>)
    requires |board| == BoardSize && 0 <= n <= |ps| && OnBoard(visited)
    requires WellFormed(board) && 1 <= pos <= Finish
    ensures 1 <= Chain(board, ps, n, me, pos, visited) <= Finish
    decreases Finish - |visited|
  {
    if 0 < pos < Finish && board[pos] != 0 && pos !in visited {
      var next := pos + board[pos];
      if !Occupied(ps, n, next, me) {
        BoundedCard(visited, 1, Finish);
        ChainInRange(board, ps, n, me, next, visited + {pos});
      }
    }
  }

  /**
   * The chain leaves a neutral or off-board start where it is, and it never
   * ends on a cell another player holds unless it never moved at all.
   */
  lemma {:induction false} ChainAvoidsOthers(board: seq<int>, ps: seq<int>, n: int, me: int, pos: int, visited: set<int>)
    requires |board| == BoardSize && 0 <= n <= |ps| && OnBoard(visited)
    ensures !(0 < pos < Finish && board[pos] != 0) ==> Chain(board, ps, n, me, pos, visited) == pos
    ensures Chain(board, ps, n, me, pos, visited) == pos || !Occupied(ps, n, Chain(board, ps, n, me, pos, visited), me)
    decreases Finish - |visited|
  {
    if 0 < pos < Finish && board[pos] != 0 && pos !in visited {
      var next := pos + board[pos];
      if !Occupied(ps, n, next, me) {
        BoundedCard(visited, 1, Finish);
        ChainAvoidsOthers(board, ps, n, me, next, visited + {pos});
      }
    }
  }

  // ---------------------------------------------------------------------
  // Active count

  /** The number of players among the first k whose position is not the finish. */
  function ActiveCount(ps: seq<int>, k: nat): (c: nat)
    requires k <= |ps|
    ensures c <= k
  {
    if k == 0 then 0 else ActiveCount(ps, k - 1) + (if ps[k - 1] != Finish then 1 else 0)
  }

  /** Slot n of the players segment holds the number of players not yet at 100. */
  predicate ActiveInv(ps: seq<int>, n: int)
    requires 0 <= n < |ps|
  {
    ps[n] == ActiveCount(ps, n)
  }

  lemma {:induction false} ActiveCountUpdate(ps: seq<int>, k: nat, i: int, v: int)
    requires k <= |ps| && 0 <= i < |ps|
    ensures ActiveCount(ps[i := v], k) ==
            if i < k then ActiveCount(ps, k) - (if ps[i] != Finish then 1 else 0) + (if v != Finish then 1 else 0)
            else ActiveCount(ps, k)
  {
    if k > 0 {
      ActiveCountUpdate(ps, k - 1, i, v);
    }
  }

  /** The count reaches 0 exactly when every one of the players is at 100. */
  lemma {:induction false} ActiveCountZero(ps: seq<int>, k: nat)
    requires k <= |ps|
    ensures ActiveCount(ps, k) == 0 <==> forall i :: 0 <= i < k ==> ps[i] == Finish
  {
    if k > 0 {
      ActiveCountZero(ps, k - 1);
    }
  }

  // ---------------------------------------------------------------------
  // One turn

  /** What a dispatched turn does; rank is reported only on reaching 100. */
  datatype Outcome =
    | AlreadyFinished
    | Cancelled
    | Overshoot(target: int)
    | Blocked(target: int)
    | Moved(cell: int)
    | Finished(rank: int)
  {
    predicate Rejected() { AlreadyFinished? || Cancelled? || Overshoot? || Blocked? }
  }

  /** The outcome of player me's turn, given the die values it throws. */
  function TurnOutcome(board: seq<int>, ps: seq<int>, n: int, me: int, dice: seq<int>): Outcome
    requires |board| == BoardSize && 0 <= me < n < |ps| && ValidDice(dice)
  {
    var pos := ps[me];
    if pos == Finish then AlreadyFinished
    else
      var total := DiceTotal(dice);
      if total == 0 then Cancelled
      else
        var target := pos + total;
        if target > Finish then Overshoot(target)
        else if target < Finish && Occupied(ps, n, target, me) then Blocked(target)
        else
          var dest := if target < Finish then Chain(board, ps, n, me, target, {}) else target;
          if dest == Finish then Finished(n - ps[n] + 1) else Moved(dest)
  }

  /** The players segment after a turn with outcome o. */
  function AfterTurn(ps: seq<int>, n: int, me: int, o: Outcome): seq<int>
    requires 0 <= me < n < |ps|
  {
    match o
    case Moved(c) => ps[me := c]
    case Finished(_) => ps[me := Finish][n := ps[n] - 1]
    case _ => ps
  }

  /**
   * A turn is a no-op when the player is already home, the roll is cancelled,
   * the move overshoots 100 or its landing cell below 100 is taken; otherwise
   * it writes only the player's own slot and, on finishing, the active count,
   * which then drops by exactly one.
   */
  lemma TurnFrame(board: seq<int>, ps: seq<int>, n: int, me: int, dice: seq<int>)
    requires |board| == BoardSize && 0 <= me < n < |ps| && ValidDice(dice)
    ensures var o := TurnOutcome(board, ps, n, me, dice);
            var total := DiceTotal(dice);
            o.Rejected() <==>
              (ps[me] == Finish || total == 0 || ps[me] + total > Finish
               || (ps[me] + total < Finish && Occupied(ps, n, ps[me] + total, me)))
    ensures var o := TurnOutcome(board, ps, n, me, dice);
            var after := AfterTurn(ps, n, me, o);
            && |after| == |ps|
            && (o.Rejected() ==> after == ps)
            && (forall j :: 0 <= j < |ps| && j != me && j != n ==> after[j] == ps[j])
            && (after[n] == if o.Finished? then ps[n] - 1 else ps[n])
            && (o.Finished? <==> ps[me] != Finish && after[me] == Finish)
  {
  }

  /** On a well-formed board, positions that start in 0..100 stay in 0..100. */
  lemma TurnKeepsBounds(board: seq<int>, ps: seq<int>, n: int, me: int, dice: seq<int>)
    requires |board| == BoardSize && 0 <= me < n < |ps| && ValidDice(dice)
    requires WellFormed(board)
    requires forall i :: 0 <= i < n ==> 0 <= ps[i] <= Finish
    ensures var after := AfterTurn(ps, n, me, TurnOutcome(board, ps, n, me, dice));
            forall i :: 0 <= i < n ==> 0 <= after[i] <= Finish
  {
    var pos := ps[me];
    if pos != Finish && DiceTotal(dice) != 0 {
      var target := pos + DiceTotal(dice);
      if target < Finish {
        ChainInRange(board, ps, n, me, target, {});
      }
    }
  }

  /**
   * The active count stays equal to the number of players not at 100, and a
   * finishing player's rank is in 1..n (the first to finish is ranked 1).
   */
  lemma TurnKeepsActiveInv(board: seq<int>, ps: seq<int>, n: int, me: int, dice: seq<int>)
    requires |board| == BoardSize && 0 <= me < n < |ps| && ValidDice(dice)
    requires ActiveInv(ps, n)
    ensures var o := TurnOutcome(board, ps, n, me, dice);
            && ActiveInv(AfterTurn(ps, n, me, o), n)
            && (o.Finished? ==> 1 <= o.rank <= n && o.rank == n - ActiveCount(ps, n) + 1)
  {
    var o := TurnOutcome(board, ps, n, me, dice);
    match o
    case Moved(c) =>
      ActiveCountUpdate(ps, n, me, c);
      assert c != Finish;
    case Finished(_) =>
      ActiveCountUpdate(ps, n, me, Finish);
      ActiveCountUpdate(ps[me := Finish], n, n, ps[n] - 1);
      ActiveCountZero(ps, n);
    case _ =>
  }

  /** Players other than the one moving never share a cell in 1..99. */
  predicate Exclusive(ps: seq<int>, n: int)
    requires 0 <= n <= |ps|
  {
    forall i, j :: 0 <= i < n && 0 <= j < n && i != j && 0 < ps[i] < Finish ==> ps[i] != ps[j]
  }

  /** A turn never moves a player onto a cell of 1..99 that another player holds. */
  lemma TurnKeepsExclusive(board: seq<int>, ps: seq<int>, n: int, me: int, dice: seq<int>)
    requires |board| == BoardSize && 0 <= me < n < |ps| && ValidDice(dice)
    requires Exclusive(ps, n)
    ensures Exclusive(AfterTurn(ps, n, me, TurnOutcome(board, ps, n, me, dice)), n)
  {
    var o := TurnOutcome(board, ps, n, me, dice);
    if o.Moved? {
      var target := ps[me] + DiceTotal(dice);
      ChainAvoidsOthers(board, ps, n, me, target, {});
      var after := AfterTurn(ps, n, me, o);
      forall i, j | 0 <= i < n && 0 <= j < n && i != j && 0 < after[i] < Finish
        ensures after[i] != after[j]
      {
        if i == me {
          assert !Occupied(ps, n, o.cell, me);
        } else if j == me {
          assert !Occupied(ps, n, o.cell, me);
        }
      }
    }
  }

  // ---------------------------------------------------------------------
  // Round-robin selection

  /** The j-th player after cursor cur in cyclic order (1 <= j <= n). */
  function Cyclic(cur: int, n: int, j: int): (c: int)
    requires -1 <= cur < n && 1 <= j <= n
    ensures 0 <= c < n
  {
    if cur + j < n then cur + j else cur + j - n
  }

  /** The first player not at 100 among the j-th, (j+1)-th, ..., n-th after cur; -1 if none. */
  function FirstActive(ps: seq<int>, n: int, cur: int, j: int): (r: int)
    requires 0 < n <= |ps| && -1 <= cur < n && 1 <= j <= n + 1
    ensures -1 <= r < n
    ensures r != -1 ==> ps[r] != Finish
    decreases n + 1 - j
  {
    if j > n then -1
    else if ps[Cyclic(cur, n, j)] != Finish then Cyclic(cur, n, j)
    else FirstActive(ps, n, cur, j + 1)
  }

  /** The player the supervisor dispatches after cursor cur. */
  function NextActive(ps: seq<int>, n: int, cur: int): (r: int)
    requires 0 < n <= |ps| && -1 <= cur < n
    ensures -1 <= r < n && (r != -1 ==> ps[r] != Finish)
  {
    FirstActive(ps, n, cur, 1)
  }

  lemma {:induction false} FirstActiveSpec(ps: seq<int>, n: int, cur: int, j: int)
    requires 0 < n <= |ps| && -1 <= cur < n && 1 <= j <= n + 1
    ensures var r := FirstActive(ps, n, cur, j);
            && (r == -1 <==> forall k :: j <= k <= n ==> ps[Cyclic(cur, n, k)] == Finish)
            && (r != -1 ==>
                  && ps[r] != Finish
                  && exists k :: j <= k <= n && r == Cyclic(cur, n, k) &&
                       forall k' :: j <= k' < k ==> ps[Cyclic(cur, n, k')] == Finish)
    decreases n + 1 - j
  {
    if j <= n && ps[Cyclic(cur, n, j)] == Finish {
      FirstActiveSpec(ps, n, cur, j + 1);
      var r := FirstActive(ps, n, cur, j);
      if r != -1 {
        var k :| j + 1 <= k <= n && r == Cyclic(cur, n, k) &&
                 forall k' :: j + 1 <= k' < k ==> ps[Cyclic(cur, n, k')] == Finish;
        assert forall k' :: j <= k' < k ==> ps[Cyclic(cur, n, k')] == Finish;
      }
    }
  }

  /**
   * Round-robin selection returns -1 exactly when all n players are at 100;
   * otherwise it returns the first player cyclically after cur that is not at 100.
   */
  lemma NextActiveSpec(ps: seq<int>, n: int, cur: int)
    requires 0 < n <= |ps| && -1 <= cur < n
    ensures var r := NextActive(ps, n, cur);
            && (r == -1 <==> forall i :: 0 <= i < n ==> ps[i] == Finish)
            && (r != -1 ==>
                  && 0 <= r < n
                  && ps[r] != Finish
                  && exists k :: 1 <= k <= n && r == Cyclic(cur, n, k) &&
                       forall k' :: 1 <= k' < k ==> ps[Cyclic(cur, n, k')] == Finish)
  {
    FirstActiveSpec(ps, n, cur, 1);
    if forall k :: 1 <= k <= n ==> ps[Cyclic(cur, n, k)] == Finish {
      forall i | 0 <= i < n
        ensures ps[i] == Finish
      {
        var k := if i > cur then i - cur else i - cur + n;
        assert Cyclic(cur, n, k) == i;
      }
    }
  }
}
