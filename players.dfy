/**
 * The player-parent and player processes (LA4/players.c) as one sequential
 * object: a turn is an atomic step, the die values that rand() would give
 * are an input sequence, and the shared segments are two arrays.
 */
module Players {
  import opened Basics
  import opened Rules

  /** Throws dice until one is not a 6, at most three times; three 6s cancel the move (result 0). */
  method RollDice(dice: seq<int>) returns (total: int)
    requires ValidDice(dice)
    ensures total == DiceTotal(dice)
  {
    total := 0;
    var rolls := 0;
    var allSixes := true;
    while rolls < 3
      invariant 0 <= rolls <= 3
      invariant allSixes
      invariant forall i :: 0 <= i < rolls ==> dice[i] == 6
      invariant total == Sum(dice[..rolls])
    {
      var die := dice[rolls];
      assert dice[..rolls + 1][..rolls] == dice[..rolls];
      total := total + die;
      rolls := rolls + 1;
      if die != 6 {
        allSixes := false;
        break;
      }
    }
    SumOfThrows(dice, rolls);
    if rolls == 3 && allSixes {
      return 0;
    }
  }

  /** For 0 <= x <= n the C expression x % n only wraps n back to 0. */
  lemma WrapStep(x: int, n: int)
    requires 0 < n && 0 <= x <= n
    ensures x % n == if x == n then 0 else x
  {
    if x == n {
      assert x == 1 * n + 0;
    } else {
      assert x == 0 * n + x;
    }
  }

  /** The cursor after i steps of the round-robin loop, advanced once more with C's % n, is the (i+1)-th player after start. */
  lemma CyclicStep(start: int, n: int, i: int)
    requires -1 <= start < n && 0 <= i < n
    ensures ((if i == 0 then start else Cyclic(start, n, i)) + 1) % n == Cyclic(start, n, i + 1)
  {
    var c := if i == 0 then start else Cyclic(start, n, i);
    WrapStep(c + 1, n);
  }

  class Game {
    /** Number of players. */
    const n: int
    /** The board segment, read-only to the players. */
    const board: array<int>
    /** The players segment: positions in slots 0..n-1, the active count in slot n. */
    const players: array<int>
    /** The round-robin cursor: the last player dispatched, -1 before the first. */
    var current: int

    ghost predicate Valid()
      reads this
    {
      && 2 <= n <= MaxPlayers
      && board.Length == BoardSize
      && players.Length == MaxPlayers + 1
      && board != players
      && -1 <= current < n
    }

    /** Attaches to the two segments; no player has been dispatched yet. */
    constructor (board: array<int>, players: array<int>, n: int)
      requires 2 <= n <= MaxPlayers
      requires board.Length == BoardSize && players.Length == MaxPlayers + 1 && board != players
      ensures Valid()
      ensures this.board == board && this.players == players && this.n == n && current == -1
    {
      this.board := board;
      this.players := players;
      this.n := n;
      current := -1;
    }

    /** Cell `cell` is in 1..99 and holds some player other than `me`. */
    method IsCellOccupied(cell: int, me: int) returns (occupied: bool)
      requires Valid()
      ensures occupied == Occupied(players[..], n, cell, me)
    {
      if cell <= 0 || cell >= Finish {
        return false;
      }
      for i := 0 to n
        invariant forall j :: 0 <= j < i && j != me ==> players[j] != cell
      {
        if i != me && players[i] == cell {
          assert players[..][i] == cell;
          return true;
        }
      }
      return false;
    }

    /**
     * Follows ladders and snakes from `pos`, with a visited guard against
     * cycles (the local 101-entry buffer is a sequence value).  The ghost
     * `iters` counts the loop's iterations, the one that meets an occupied
     * cell included: there are never more than 99.
     */
    method ApplyChain(pos: int, me: int) returns (r: int, ghost iters: nat)
      requires Valid()
      ensures r == Chain(board[..], players[..], n, me, pos, {})
      ensures iters <= Finish - 1
    {
      var visited := seq(BoardSize, _ => false);
      ghost var seen: set<int> := {};
      r, iters := pos, 0;
      while 0 < r < Finish && board[r] != 0 && !visited[r]
        invariant |visited| == BoardSize && OnBoard(seen) && iters == |seen| <= Finish - 1
        invariant forall c :: 0 <= c < BoardSize ==> (visited[c] <==> c in seen)
        invariant Chain(board[..], players[..], n, me, r, seen) == Chain(board[..], players[..], n, me, pos, {})
        decreases Finish - |seen|
      {
        iters := iters + 1;
        visited := visited[r := true];
        var next := r + board[r];
        var occupied := IsCellOccupied(next, me);
        if occupied {
          ChainBlocked(board[..], players[..], n, me, r, seen);
          return;
        }
        ChainMoves(board[..], players[..], n, me, r, seen);
        seen := seen + {r};
        r := next;
      }
      ChainEnds(board[..], players[..], n, me, r, seen);
    }

    /**
     * One turn of player me: a finished player does nothing; otherwise the
     * dice are thrown, a cancelled, overshooting or blocked move changes
     * nothing, and a legal move lands, follows the chain and is written back;
     * reaching 100 reports the rank and decrements the active count.
     */
    method Turn(me: int, dice: seq<int>) returns (o: Outcome)
      requires Valid() && 0 <= me < n && ValidDice(dice)
      modifies players
      ensures o == TurnOutcome(board[..], old(players[..]), n, me, dice)
      ensures players[..] == AfterTurn(old(players[..]), n, me, o)
    {
      var currentPos := players[me];
      if currentPos == Finish {
        return AlreadyFinished;
      }
      var total := RollDice(dice);
      if total == 0 {
        return Cancelled;
      }
      var newPos := currentPos + total;
      if newPos > Finish {
        return Overshoot(newPos);
      }
      if newPos < Finish {
        var occupied := IsCellOccupied(newPos, me);
        if occupied {
          return Blocked(newPos);
        }
        ghost var hops: nat;
        newPos, hops := ApplyChain(newPos, me);
      }
      var activeBefore := players[n];
      players[me] := newPos;
      if newPos == Finish {
        o := Finished(n - activeBefore + 1);
        players[n] := players[n] - 1;
      } else {
        o := Moved(newPos);
      }
    }

    /** Round-robin: the first player after the cursor not at 100, which becomes the cursor; -1 if none. */
    method NextPlayer() returns (next: int)
      requires Valid()
      modifies this
      ensures Valid()
      ensures next == NextActive(players[..], n, old(current))
      ensures next != -1 ==> current == next
      ensures next == -1 ==> current == Cyclic(old(current), n, n)
    {
      ghost var start := current;
      for i := 0 to n
        invariant -1 <= current < n
        invariant current == if i == 0 then start else Cyclic(start, n, i)
        invariant FirstActive(players[..], n, start, i + 1) == NextActive(players[..], n, start)
      {
        CyclicStep(start, n, i);
        current := (current + 1) % n;
        if players[current] != Finish {
          return current;
        }
      }
      return -1;
    }

    /**
     * The player-parent's answer to a move request: nothing is dispatched
     * when the active count is not positive; otherwise the next player is
     * chosen.  While the count is right, a positive count always finds one.
     */
    method Dispatch() returns (next: int)
      requires Valid()
      modifies this
      ensures Valid()
      ensures next == if old(players[n]) <= 0 then -1 else NextActive(players[..], n, old(current))
      ensures current == if next != -1 then next else if old(players[n]) <= 0 then old(current) else Cyclic(old(current), n, n)
      ensures next != -1 ==> 0 <= next < n && players[next] != Finish
      ensures ActiveInv(players[..], n) ==> (next == -1 <==> players[n] <= 0)
    {
      if players[n] <= 0 {
        return -1;
      }
      ActiveCountZero(players[..], n);
      NextActiveSpec(players[..], n, current);
      next := NextPlayer();
    }

    /**
     * One advance request carried to completion: dispatch, then the
     * dispatched player's turn.  The player dispatched is the next one not at
     * 100 after the cursor, and it becomes the cursor; a request while the
     * count is not positive changes nothing at all.
     */
    method Advance(dice: seq<int>) returns (who: int, o: Option<Outcome>)
      requires Valid() && ValidDice(dice)
      modifies this, players
      ensures Valid()
      ensures who == if old(players[n]) <= 0 then -1 else NextActive(old(players[..]), n, old(current))
      ensures current == if who != -1 then who else if old(players[n]) <= 0 then old(current) else Cyclic(old(current), n, n)
      ensures ActiveInv(old(players[..]), n) ==> current == if who == -1 then old(current) else who
      ensures who == -1 ==> o == None && players[..] == old(players[..])
      ensures who != -1 ==>
                && 0 <= who < n && old(players[who]) != Finish
                && o == Some(TurnOutcome(board[..], old(players[..]), n, who, dice))
                && players[..] == AfterTurn(old(players[..]), n, who, o.value)
    {
      who := Dispatch();
      if who == -1 {
        return who, None;
      }
      var outcome := Turn(who, dice);
      o := Some(outcome);
    }
  }
}
