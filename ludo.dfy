/**
 * The coordinator (LA4/ludo.c): argument checking, the initial players
 * segment, the board load, and the command loop that asks the player-parent
 * for moves.  Sending SIGUSR1 to the player-parent and waiting for the
 * board's ACK is one call of Game.Advance: the move it triggers happens
 * before the coordinator reads its next command.
 */
module Ludo {
  import opened Basics
  import opened Rules
  import opened Players
  import opened BoardFile
  import opened Fifo

  // ---------------------------------------------------------------------
  // Arguments

  /**
   * The number of players main accepts: argv[1] read with atoi and in
   * 2..26.  None stands for the exit with status 1 (no argument, or a
   * count out of range).
   */
  function PlayerCount(args: seq<seq<char>>): (r: Option<int>)
    ensures r.Some? ==> 2 <= r.value <= MaxPlayers
    ensures |args| < 2 ==> r.None?
  {
    if |args| < 2 then None
    else
      var n := Atoi(args[1]);
      if n < 2 || n > MaxPlayers then None else Some(n)
  }

  // ---------------------------------------------------------------------
  // The initial players segment

  /** The players segment after initialisation: positions 0..25 at home, slot n holding n. */
  function Initial(old_: seq<int>, n: int): (ps: seq<int>)
    requires |old_| == MaxPlayers + 1 && 0 <= n <= MaxPlayers
    ensures |ps| == MaxPlayers + 1 && ps[n] == n
    ensures forall i :: 0 <= i < MaxPlayers && i != n ==> ps[i] == 0
    ensures n < MaxPlayers ==> ps[MaxPlayers] == old_[MaxPlayers]
  {
    (seq(MaxPlayers, _ => 0) + [old_[MaxPlayers]])[n := n]
  }

  /** create_shared_memory's initialisation of the players segment. */
  method InitPlayers(players: array<int>, n: int)
    requires players.Length == MaxPlayers + 1 && 2 <= n <= MaxPlayers
    modifies players
    ensures players[..] == Initial(old(players[..]), n)
  {
    for i := 0 to MaxPlayers
      invariant forall j :: 0 <= j < i ==> players[j] == 0
      invariant players[MaxPlayers] == old(players[MaxPlayers])
    {
      players[i] := 0;
    }
    players[n] := n;
  }

  lemma {:induction false} ActiveCountAllHome(ps: seq<int>, k: nat)
    requires k <= |ps|
    requires forall i :: 0 <= i < k ==> ps[i] == 0
    ensures ActiveCount(ps, k) == k
  {
    if k > 0 {
      ActiveCountAllHome(ps, k - 1);
    }
  }

  /** All positions in 0..100. */
  predicate InBounds(ps: seq<int>, n: int)
    requires 0 <= n <= |ps|
  {
    forall i :: 0 <= i < n ==> 0 <= ps[i] <= Finish
  }

  /**
   * Right after initialisation every player is at home, the active count
   * is the number of players not at 100 (all of them), and no two players
   * share a cell of 1..99.
   */
  lemma InitialState(old_: seq<int>, n: int)
    requires |old_| == MaxPlayers + 1 && 2 <= n <= MaxPlayers
    ensures var ps := Initial(old_, n);
            && ActiveInv(ps, n) && ActiveCount(ps, n) == n
            && Exclusive(ps, n) && InBounds(ps, n)
  {
    ActiveCountAllHome(Initial(old_, n), n);
  }

  // ---------------------------------------------------------------------
  // Commands

  /** The command text in a line: everything before its first newline (where strcspn cuts) or NUL (where C's string ends). */
  function CommandText(line: seq<char>): (t: seq<char>)
    ensures |t| <= |line| && t == line[..|t|]
    ensures Newline !in t && Nul !in t
    ensures |t| < |line| ==> line[|t|] == Newline || line[|t|] == Nul
  {
    if line == [] || line[0] == Newline || line[0] == Nul then []
    else [line[0]] + CommandText(line[1..])
  }

  /** What the coordinator does with a command. */
  datatype Command =
    | Quit
    | Next
    | SetDelay(ms: int)
    | Autoplay
    | Unknown(text: seq<char>)
    | Blank

  const DelayPrefix: seq<char> := "delay "

  /**
   * The command a line stands for: "quit", "next", "delay " followed by a
   * number read with atoi, "autoplay"; any other non-empty text is unknown,
   * and an empty line does nothing.
   */
  function ParseCommand(line: seq<char>): (c: Command)
    ensures c.SetDelay? ==> |CommandText(line)| >= 6 && c.ms == Atoi(CommandText(line)[6..])
    ensures c.Unknown? ==> c.text == CommandText(line) && c.text != []
  {
    var t := CommandText(line);
    if t == "quit" then Quit
    else if t == "next" then Next
    else if |t| >= 6 && t[..6] == DelayPrefix then SetDelay(Atoi(t[6..]))
    else if t == "autoplay" then Autoplay
    else if |t| > 0 then Unknown(t)
    else Blank
  }

  /** Each command is recognised by exactly the text that names it; no text names two. */
  lemma ParseCommandCases(line: seq<char>)
    ensures var t := CommandText(line);
            var c := ParseCommand(line);
            && (c == Quit <==> t == "quit")
            && (c == Next <==> t == "next")
            && (c.SetDelay? <==> |t| >= 6 && t[..6] == DelayPrefix)
            && (c == Autoplay <==> t == "autoplay")
            && (c == Blank <==> t == [])
  {
    var t := CommandText(line);
    if |t| >= 6 && t[..6] == DelayPrefix {
      assert t[0] == 'd' && "autoplay"[0] == 'a';
    }
  }

  /** The delay a "delay" command sets: the number given, or 0 in place of a negative one. */
  function ClampDelay(ms: int): (d: int)
    ensures d >= 0
    ensures ms >= 0 ==> d == ms
    ensures ms < 0 ==> d == 0
  {
    if ms < 0 then 0 else ms
  }

  // ---------------------------------------------------------------------
  // The coordinator

  /** `cmds` holds the command each of the lines parses to, in order. */
  predicate Parsed(cmds: seq<Command>, lines: seq<seq<char>>)
  {
    |cmds| == |lines| && forall j {:trigger ParseCommand(lines[j])} :: 0 <= j < |lines| ==> cmds[j] == ParseCommand(lines[j])
  }

  /** Every sequence of lines parses to a sequence of commands, one per line. */
  lemma ParseLines(lines: seq<seq<char>>) returns (cmds: seq<Command>)
    ensures Parsed(cmds, lines)
  {
    cmds := seq(|lines|, j requires 0 <= j < |lines| => ParseCommand(lines[j]));
  }

  /** Some delay command among cmds sets the delay d. */
  predicate DelayFrom(cmds: seq<Command>, d: int)
  {
    exists j :: 0 <= j < |cmds| && cmds[j].SetDelay? && d == ClampDelay(cmds[j].ms)
  }

  /** The j-th command, when it is a delay command, is a delay set among the first k > j. */
  lemma DelaySetAt(cmds: seq<Command>, k: nat, j: nat)
    requires j < k <= |cmds| && cmds[j].SetDelay?
    ensures DelayFrom(cmds[..k], ClampDelay(cmds[j].ms))
  {
    assert cmds[..k][j] == cmds[j];
  }

  /** The j-th command is among the first k > j. */
  lemma CommandAmong(cmds: seq<Command>, k: nat, j: nat)
    requires j < k <= |cmds|
    ensures cmds[j] in cmds[..k]
  {
    assert cmds[..k][j] == cmds[j];
  }

  /**
   * What the first `used` commands account for in the settings gameOver,
   * autoplay and delayMs: the game is over exactly when the last one is a quit, autoplay was
   * already on or the command at autoplayAt turned it on, and the delay is
   * the first one or the command at delayAt set it.
   */
  predicate Traced(cmds: seq<Command>, used: nat, gameOver: bool, autoplay: bool, delayMs: int,
                   autoplay0: bool, delay0: int, autoplayAt: nat, delayAt: nat)
  {
    && used <= |cmds|
    && (gameOver <==> 0 < used && cmds[used - 1] == Quit)
    && (autoplay ==> autoplay0 || (autoplayAt < used && cmds[autoplayAt] == Autoplay))
    && (delayMs == delay0 || (delayAt < used && cmds[delayAt].SetDelay? && delayMs == ClampDelay(cmds[delayAt].ms)))
  }

  /** The witnesses Traced keeps give the settings' history in terms of the commands alone. */
  lemma TracedMeans(cmds: seq<Command>, used: nat, gameOver: bool, autoplay: bool, delayMs: int,
                    autoplay0: bool, delay0: int, autoplayAt: nat, delayAt: nat)
    requires Traced(cmds, used, gameOver, autoplay, delayMs, autoplay0, delay0, autoplayAt, delayAt)
    ensures autoplay ==> autoplay0 || Autoplay in cmds[..used]
    ensures delayMs == delay0 || DelayFrom(cmds[..used], delayMs)
  {
    if autoplay && !autoplay0 {
      CommandAmong(cmds, used, autoplayAt);
    }
    if delayMs != delay0 {
      DelaySetAt(cmds, used, delayAt);
    }
  }

  /**
   * Handling the command at `used` keeps Traced: the new settings are
   * accounted for by one more command, with a witness moved to that command
   * when it turned autoplay on or set the delay.
   */
  lemma TracedLine(cmds: seq<Command>, used: nat, gameOver: bool, autoplay: bool, delayMs: int,
                   autoplay0: bool, delay0: int, autoplayAt: nat, delayAt: nat,
                   gameOver': bool, autoplay': bool, delayMs': int)
    returns (autoplayAt': nat, delayAt': nat)
    requires Traced(cmds, used, gameOver, autoplay, delayMs, autoplay0, delay0, autoplayAt, delayAt)
    requires used < |cmds|
    requires gameOver' == (cmds[used] == Quit)
    requires autoplay' == (autoplay || cmds[used] == Autoplay)
    requires delayMs' == if cmds[used].SetDelay? then ClampDelay(cmds[used].ms) else delayMs
    ensures Traced(cmds, used + 1, gameOver', autoplay', delayMs', autoplay0, delay0, autoplayAt', delayAt')
  {
    autoplayAt', delayAt' := autoplayAt, delayAt;
    if cmds[used] == Autoplay {
      autoplayAt' := used;
    } else if cmds[used].SetDelay? {
      delayAt' := used;
    }
  }

  // ---------------------------------------------------------------------
  // main's game loop as a function of its input

  /**
   * The move the player-parent makes on one request: none while the active
   * count is not positive; otherwise the next player not at 100 after the
   * cursor takes its turn with the dice and becomes the cursor.
   */
  function AfterMove(board: seq<int>, ps: seq<int>, n: int, cur: int, dice: seq<int>): (r: (seq<int>, int))
    requires |board| == BoardSize && 0 < n < |ps| && -1 <= cur < n && ValidDice(dice)
    ensures |r.0| == |ps| && -1 <= r.1 < n
    ensures ps[n] <= 0 ==> r == (ps, cur)
    ensures forall i :: 0 <= i < |ps| && i != n && i != r.1 ==> r.0[i] == ps[i]
  {
    if ps[n] <= 0 then (ps, cur)
    else
      var w := NextActive(ps, n, cur);
      if w == -1 then (ps, cur)
      else (AfterTurn(ps, n, w, TurnOutcome(board, ps, n, w, dice)), w)
  }

  /** A move keeps the active count right, players on distinct cells and, on a well-formed board, positions in 0..100. */
  lemma MoveKeeps(board: seq<int>, ps: seq<int>, n: int, cur: int, dice: seq<int>)
    requires |board| == BoardSize && 0 < n < |ps| && -1 <= cur < n && ValidDice(dice)
    requires ActiveInv(ps, n) && Exclusive(ps, n)
    ensures var r := AfterMove(board, ps, n, cur, dice);
            && ActiveInv(r.0, n) && Exclusive(r.0, n)
            && (WellFormed(board) && InBounds(ps, n) ==> InBounds(r.0, n))
  {
    if ps[n] > 0 {
      var w := NextActive(ps, n, cur);
      if w != -1 {
        TurnKeepsActiveInv(board, ps, n, w, dice);
        TurnKeepsExclusive(board, ps, n, w, dice);
        if WellFormed(board) && InBounds(ps, n) {
          TurnKeepsBounds(board, ps, n, w, dice);
        }
      }
    }
  }

  /** The players segment and the cursor after a move with each roll in turn. */
  function AfterMoves(board: seq<int>, ps: seq<int>, n: int, cur: int, rolls: seq<seq<int>>): (r: (seq<int>, int))
    requires |board| == BoardSize && 0 < n < |ps| && -1 <= cur < n
    requires forall k :: 0 <= k < |rolls| ==> ValidDice(rolls[k])
    ensures |r.0| == |ps| && -1 <= r.1 < n
    decreases |rolls|
  {
    if rolls == [] then (ps, cur)
    else
      var m := AfterMove(board, ps, n, cur, rolls[0]);
      AfterMoves(board, m.0, n, m.1, rolls[1..])
  }

  /** Each of the moves with the rolls is requested while some player is still active. */
  predicate MovesWhileActive(board: seq<int>, ps: seq<int>, n: int, cur: int, rolls: seq<seq<int>>)
    requires |board| == BoardSize && 0 < n < |ps| && -1 <= cur < n
    requires forall k :: 0 <= k < |rolls| ==> ValidDice(rolls[k])
    decreases |rolls|
  {
    rolls == [] ||
    (ps[n] > 0 &&
     var m := AfterMove(board, ps, n, cur, rolls[0]);
     MovesWhileActive(board, m.0, n, m.1, rolls[1..]))
  }

  /** Once the active count is not positive, further move requests change nothing. */
  lemma {:induction false} MovesAfterEnd(board: seq<int>, ps: seq<int>, n: int, cur: int, rolls: seq<seq<int>>)
    requires |board| == BoardSize && 0 < n < |ps| && -1 <= cur < n
    requires forall k :: 0 <= k < |rolls| ==> ValidDice(rolls[k])
    requires ps[n] <= 0
    ensures AfterMoves(board, ps, n, cur, rolls) == (ps, cur)
    decreases |rolls|
  {
    if rolls != [] {
      MovesAfterEnd(board, ps, n, cur, rolls[1..]);
    }
  }

  /** Any number of moves keeps the game invariants, as one move does. */
  lemma {:induction false} MovesKeep(board: seq<int>, ps: seq<int>, n: int, cur: int, rolls: seq<seq<int>>)
    requires |board| == BoardSize && 0 < n < |ps| && -1 <= cur < n
    requires forall k :: 0 <= k < |rolls| ==> ValidDice(rolls[k])
    requires ActiveInv(ps, n) && Exclusive(ps, n)
    ensures var r := AfterMoves(board, ps, n, cur, rolls);
            && ActiveInv(r.0, n) && Exclusive(r.0, n)
            && (WellFormed(board) && InBounds(ps, n) ==> InBounds(r.0, n))
    decreases |rolls|
  {
    if rolls != [] {
      MoveKeeps(board, ps, n, cur, rolls[0]);
      var m := AfterMove(board, ps, n, cur, rolls[0]);
      MovesKeep(board, m.0, n, m.1, rolls[1..]);
    }
  }

  /**
   * What main's game loop works on: the players segment and the cursor,
   * the three settings, and how many lines and rolls it has taken.
   */
  datatype LoopState = LoopState(ps: seq<int>, cur: int, delayMs: int, autoplay: bool, gameOver: bool,
                                 linesUsed: nat, rollsUsed: nat)

  /** s is a state of the loop over this board, these commands and these rolls. */
  predicate Fits(board: seq<int>, n: int, cmds: seq<Command>, rolls: seq<seq<int>>, s: LoopState)
  {
    && |board| == BoardSize && 0 < n < |s.ps| && -1 <= s.cur < n
    && s.linesUsed <= |cmds| && s.rollsUsed <= |rolls|
    && forall k :: 0 <= k < |rolls| ==> ValidDice(rolls[k])
  }

  /**
   * The loop is over: the game is over, no player is active, or the input
   * the mode needs is used up (a roll in autoplay; a line and a roll
   * otherwise).
   */
  predicate Stopped(n: int, cmds: seq<Command>, rolls: seq<seq<int>>, s: LoopState)
    requires 0 <= n < |s.ps|
  {
    || s.gameOver || s.ps[n] <= 0
    || (if s.autoplay then s.rollsUsed >= |rolls| else s.linesUsed >= |cmds| || s.rollsUsed >= |rolls|)
  }

  /**
   * One pass of the loop: in autoplay a move with the next roll; otherwise
   * the next command, where quit ends the game, next moves with the next
   * roll, delay sets the clamped delay and autoplay switches mode.
   */
  function Pass(board: seq<int>, n: int, cmds: seq<Command>, rolls: seq<seq<int>>, s: LoopState): (t: LoopState)
    requires Fits(board, n, cmds, rolls, s) && !Stopped(n, cmds, rolls, s)
    ensures Fits(board, n, cmds, rolls, t) && |t.ps| == |s.ps|
    ensures s.linesUsed + s.rollsUsed < t.linesUsed + t.rollsUsed
    // a pass takes a roll exactly when it asks for a move, and moves no one otherwise
    ensures t.rollsUsed == s.rollsUsed ==> t.ps == s.ps && t.cur == s.cur
    ensures t.rollsUsed != s.rollsUsed ==>
              t.rollsUsed == s.rollsUsed + 1 && (t.ps, t.cur) == AfterMove(board, s.ps, n, s.cur, rolls[s.rollsUsed])
  {
    if s.autoplay then
      var m := AfterMove(board, s.ps, n, s.cur, rolls[s.rollsUsed]);
      s.(ps := m.0, cur := m.1, rollsUsed := s.rollsUsed + 1)
    else
      var t := s.(linesUsed := s.linesUsed + 1);
      match cmds[s.linesUsed]
      case Quit => t.(gameOver := true)
      case Next =>
        var m := AfterMove(board, s.ps, n, s.cur, rolls[s.rollsUsed]);
        t.(ps := m.0, cur := m.1, rollsUsed := s.rollsUsed + 1)
      case SetDelay(ms) => t.(delayMs := ClampDelay(ms))
      case Autoplay => t.(autoplay := true)
      case _ => t
  }

  /** main's game loop run from s to its end: passes until it is stopped. */
  function Played(board: seq<int>, n: int, cmds: seq<Command>, rolls: seq<seq<int>>, s: LoopState): (t: LoopState)
    requires Fits(board, n, cmds, rolls, s)
    ensures Fits(board, n, cmds, rolls, t) && |t.ps| == |s.ps| && Stopped(n, cmds, rolls, t)
    ensures s.linesUsed <= t.linesUsed && s.rollsUsed <= t.rollsUsed
    ensures Stopped(n, cmds, rolls, s) ==> t == s
    decreases |cmds| - s.linesUsed + |rolls| - s.rollsUsed
  {
    if Stopped(n, cmds, rolls, s) then s
    else Played(board, n, cmds, rolls, Pass(board, n, cmds, rolls, s))
  }

  /**
   * The loop's players and cursor are those after a move with each roll it
   * took, in order, and it took every one of them while some player was
   * still active.
   */
  lemma {:induction false} PlayedMoves(board: seq<int>, n: int, cmds: seq<Command>, rolls: seq<seq<int>>, s: LoopState)
    requires Fits(board, n, cmds, rolls, s)
    ensures var t := Played(board, n, cmds, rolls, s);
            && (t.ps, t.cur) == AfterMoves(board, s.ps, n, s.cur, rolls[s.rollsUsed..t.rollsUsed])
            && MovesWhileActive(board, s.ps, n, s.cur, rolls[s.rollsUsed..t.rollsUsed])
    decreases |cmds| - s.linesUsed + |rolls| - s.rollsUsed
  {
    if !Stopped(n, cmds, rolls, s) {
      var p := Pass(board, n, cmds, rolls, s);
      var t := Played(board, n, cmds, rolls, p);
      assert t == Played(board, n, cmds, rolls, s);
      PlayedMoves(board, n, cmds, rolls, p);
      if p.rollsUsed != s.rollsUsed {
        var used := rolls[s.rollsUsed..t.rollsUsed];
        assert used[0] == rolls[s.rollsUsed] && used[1..] == rolls[p.rollsUsed..t.rollsUsed];
      }
    }
  }

  /** The loop reads no line after a quit: a quit can only be the last line it took. */
  lemma {:induction false} PlayedQuits(board: seq<int>, n: int, cmds: seq<Command>, rolls: seq<seq<int>>, s: LoopState)
    requires Fits(board, n, cmds, rolls, s)
    ensures var t := Played(board, n, cmds, rolls, s);
            forall j :: s.linesUsed <= j < t.linesUsed && cmds[j] == Quit ==> j == t.linesUsed - 1
    decreases |cmds| - s.linesUsed + |rolls| - s.rollsUsed
  {
    if !Stopped(n, cmds, rolls, s) {
      PlayedQuits(board, n, cmds, rolls, Pass(board, n, cmds, rolls, s));
    }
  }

  /**
   * The loop keeps Traced: the settings it ends with are accounted for by
   * the commands it took, with the witnesses moved along as it goes.
   */
  lemma {:induction false} PlayedTraced(board: seq<int>, n: int, cmds: seq<Command>, rolls: seq<seq<int>>, s: LoopState,
                                        autoplay0: bool, delay0: int, autoplayAt: nat, delayAt: nat)
    returns (autoplayAt': nat, delayAt': nat)
    requires Fits(board, n, cmds, rolls, s)
    requires Traced(cmds, s.linesUsed, s.gameOver, s.autoplay, s.delayMs, autoplay0, delay0, autoplayAt, delayAt)
    ensures var t := Played(board, n, cmds, rolls, s);
            Traced(cmds, t.linesUsed, t.gameOver, t.autoplay, t.delayMs, autoplay0, delay0, autoplayAt', delayAt')
    decreases |cmds| - s.linesUsed + |rolls| - s.rollsUsed
  {
    if Stopped(n, cmds, rolls, s) {
      return autoplayAt, delayAt;
    }
    var p := Pass(board, n, cmds, rolls, s);
    var a, d := autoplayAt, delayAt;
    if !s.autoplay {
      a, d := TracedLine(cmds, s.linesUsed, s.gameOver, s.autoplay, s.delayMs, autoplay0, delay0, autoplayAt, delayAt,
                         p.gameOver, p.autoplay, p.delayMs);
    }
    autoplayAt', delayAt' := PlayedTraced(board, n, cmds, rolls, p, autoplay0, delay0, a, d);
  }

  /**
   * What the loop run from its start accounts for: the game is over exactly
   * when it was already or the last command taken is a quit, and no earlier
   * one is; autoplay and the delay are the old ones or set by commands
   * taken; the players and cursor are those after a move with each roll
   * taken, each while some player was active.
   */
  lemma PlayedFromStart(board: seq<int>, n: int, cmds: seq<Command>, rolls: seq<seq<int>>, s: LoopState, t: LoopState)
    requires Fits(board, n, cmds, rolls, s) && s.linesUsed == 0 && s.rollsUsed == 0
    requires t == Played(board, n, cmds, rolls, s)
    ensures && (t.gameOver <==> s.gameOver || (0 < t.linesUsed && cmds[t.linesUsed - 1] == Quit))
            && (forall j :: 0 <= j < t.linesUsed && cmds[j] == Quit ==> j == t.linesUsed - 1)
            && (t.autoplay ==> s.autoplay || Autoplay in cmds[..t.linesUsed])
            && (t.delayMs == s.delayMs || DelayFrom(cmds[..t.linesUsed], t.delayMs))
            && (t.ps, t.cur) == AfterMoves(board, s.ps, n, s.cur, rolls[..t.rollsUsed])
            && MovesWhileActive(board, s.ps, n, s.cur, rolls[..t.rollsUsed])
  {
    PlayedMoves(board, n, cmds, rolls, s);
    PlayedQuits(board, n, cmds, rolls, s);
    assert rolls[..t.rollsUsed] == rolls[0..t.rollsUsed];
    if !s.gameOver {
      var a, d := PlayedTraced(board, n, cmds, rolls, s, s.autoplay, s.delayMs, 0, 0);
      TracedMeans(cmds, t.linesUsed, t.gameOver, t.autoplay, t.delayMs, s.autoplay, s.delayMs, a, d);
    }
  }

  class Coordinator {
    /** The shared segments and the player-parent's cursor. */
    const game: Game
    var delayMs: int
    var autoplay: bool
    var gameOver: bool

    ghost predicate Valid()
      reads this, game
    {
      game.Valid() && delayMs >= 0
    }

    /** The game invariants: the active count is right and no two players share a cell of 1..99. */
    ghost predicate Consistent()
      reads this, game, game.players
    {
      Valid() && ActiveInv(game.players[..], game.n) && Exclusive(game.players[..], game.n)
    }

    constructor (game: Game)
      requires game.Valid()
      ensures Valid() && this.game == game
      ensures delayMs == 1000 && !autoplay && !gameOver
    {
      this.game := game;
      delayMs := 1000;
      autoplay := false;
      gameOver := false;
    }

    /** The loop condition of main: no quit yet and some player still active. */
    predicate Running()
      requires Valid()
      reads this, game, game.players
    {
      !gameOver && game.players[game.n] > 0
    }

    /** The loop's view of the coordinator: players, cursor and settings, with the lines and rolls taken so far. */
    ghost function State(linesUsed: nat, rollsUsed: nat): LoopState
      reads this, game, game.players
    {
      LoopState(game.players[..], game.current, delayMs, autoplay, gameOver, linesUsed, rollsUsed)
    }

    /**
     * One move requested from the player-parent, carried out before the next
     * command is read: the next player not at 100 after the cursor moves and
     * becomes the cursor, or nobody does when the active count is not positive.
     */
    method Move(dice: seq<int>) returns (who: int, o: Option<Outcome>)
      requires Consistent() && ValidDice(dice)
      modifies game, game.players
      ensures Consistent()
      ensures who == if old(game.players[game.n]) <= 0 then -1 else NextActive(old(game.players[..]), game.n, old(game.current))
      ensures game.current == if who == -1 then old(game.current) else who
      ensures who == -1 ==> o == None && game.players[..] == old(game.players[..])
      ensures who != -1 ==>
                && 0 <= who < game.n && old(game.players[who]) != Finish
                && o == Some(TurnOutcome(game.board[..], old(game.players[..]), game.n, who, dice))
                && game.players[..] == AfterTurn(old(game.players[..]), game.n, who, o.value)
      ensures (game.players[..], game.current) == AfterMove(game.board[..], old(game.players[..]), game.n, old(game.current), dice)
      ensures WellFormed(game.board[..]) && old(InBounds(game.players[..], game.n)) ==> InBounds(game.players[..], game.n)
    {
      ghost var ps := game.players[..];
      who, o := game.Advance(dice);
      if who != -1 {
        TurnKeepsActiveInv(game.board[..], ps, game.n, who, dice);
        TurnKeepsExclusive(game.board[..], ps, game.n, who, dice);
        if WellFormed(game.board[..]) && InBounds(ps, game.n) {
          TurnKeepsBounds(game.board[..], ps, game.n, who, dice);
        }
      }
    }

    /**
     * One interactive command: quit ends the loop, next asks for a move,
     * delay sets the autoplay delay (a negative one becomes 0), autoplay
     * switches mode; anything else changes nothing.
     */
    method Handle(line: seq<char>, dice: seq<int>) returns (cmd: Command, who: int, o: Option<Outcome>)
      requires Consistent() && ValidDice(dice)
      modifies this, game, game.players
      ensures Consistent()
      ensures cmd == ParseCommand(line)
      ensures delayMs == if cmd.SetDelay? then ClampDelay(cmd.ms) else old(delayMs)
      ensures autoplay == (old(autoplay) || cmd == Autoplay)
      ensures gameOver == (old(gameOver) || cmd == Quit)
      ensures cmd != Next ==> who == -1 && o == None && game.players[..] == old(game.players[..]) && game.current == old(game.current)
      ensures cmd == Next ==> who == if old(game.players[game.n]) <= 0 then -1 else NextActive(old(game.players[..]), game.n, old(game.current))
      ensures cmd == Next ==> game.current == if who == -1 then old(game.current) else who
      ensures cmd == Next && who != -1 ==>
                && 0 <= who < game.n && old(game.players[who]) != Finish
                && o == Some(TurnOutcome(game.board[..], old(game.players[..]), game.n, who, dice))
                && game.players[..] == AfterTurn(old(game.players[..]), game.n, who, o.value)
      ensures cmd == Next && who == -1 ==> o == None && game.players[..] == old(game.players[..])
      ensures cmd == Next ==>
                (game.players[..], game.current) == AfterMove(game.board[..], old(game.players[..]), game.n, old(game.current), dice)
      ensures WellFormed(game.board[..]) && old(InBounds(game.players[..], game.n)) ==> InBounds(game.players[..], game.n)
    {
      cmd := ParseCommand(line);
      who, o := -1, None;
      match cmd
      case Quit =>
        gameOver := true;
      case Next =>
        who, o := Move(dice);
      case SetDelay(ms) =>
        delayMs := ms;
        if delayMs < 0 {
          delayMs := 0;
        }
      case Autoplay =>
        autoplay := true;
      case _ =>
    }

    /** An autoplay pass of main's game loop: a move with the next roll, or a stop when no roll remains. */
    method AutoStep(rolls: seq<seq<int>>, rollsUsed: nat) returns (ru: nat, stop: bool)
      requires Consistent() && Running() && rollsUsed <= |rolls|
      requires forall k :: 0 <= k < |rolls| ==> ValidDice(rolls[k])
      modifies game, game.players
      ensures Consistent()
      ensures stop == (rollsUsed == |rolls|) && ru == if stop then rollsUsed else rollsUsed + 1
      ensures stop ==> game.players[..] == old(game.players[..]) && game.current == old(game.current)
      ensures !stop ==>
                (game.players[..], game.current) == AfterMove(game.board[..], old(game.players[..]), game.n, old(game.current), rolls[rollsUsed])
      ensures WellFormed(game.board[..]) && old(InBounds(game.players[..], game.n)) ==> InBounds(game.players[..], game.n)
    {
      if rollsUsed == |rolls| {
        return rollsUsed, true;
      }
      var who, o := Move(rolls[rollsUsed]);
      ru, stop := rollsUsed + 1, false;
    }

    /**
     * An interactive pass of main's game loop: the next line handled as a
     * command, a `next` taking the next roll; a stop when no line or no roll
     * remains, or on a quit.
     */
    method LineStep(lines: seq<seq<char>>, rolls: seq<seq<int>>, linesUsed: nat, rollsUsed: nat, ghost cmds: seq<Command>)
      returns (lu: nat, ru: nat, stop: bool)
      requires Consistent() && Running() && linesUsed <= |lines| && rollsUsed <= |rolls|
      requires Parsed(cmds, lines)
      requires forall k :: 0 <= k < |rolls| ==> ValidDice(rolls[k])
      modifies this, game, game.players
      ensures Consistent()
      ensures lu == linesUsed || lu == linesUsed + 1 <= |lines|
      ensures lu == linesUsed ==>
                && stop && (linesUsed == |lines| || rollsUsed == |rolls|) && ru == rollsUsed
                && gameOver == old(gameOver) && autoplay == old(autoplay) && delayMs == old(delayMs)
                && game.players[..] == old(game.players[..]) && game.current == old(game.current)
      ensures lu == linesUsed + 1 ==>
                var c := cmds[linesUsed];
                && rollsUsed < |rolls| && ru == (if c == Next then rollsUsed + 1 else rollsUsed)
                && stop == (c == Quit) && gameOver == (c == Quit)
                && autoplay == (old(autoplay) || c == Autoplay)
                && delayMs == (if c.SetDelay? then ClampDelay(c.ms) else old(delayMs))
                && (game.players[..], game.current) ==
                   if c == Next then AfterMove(game.board[..], old(game.players[..]), game.n, old(game.current), rolls[rollsUsed])
                   else (old(game.players[..]), old(game.current))
      ensures WellFormed(game.board[..]) && old(InBounds(game.players[..], game.n)) ==> InBounds(game.players[..], game.n)
    {
      if linesUsed == |lines| || rollsUsed == |rolls| {
        return linesUsed, rollsUsed, true;
      }
      var cmd, who, o := Handle(lines[linesUsed], rolls[rollsUsed]);
      lu := linesUsed + 1;
      ru := if cmd == Next then rollsUsed + 1 else rollsUsed;
      stop := cmd == Quit;
    }

    /**
     * One pass of main's game loop while it is running: in autoplay mode a
     * move with the next roll; otherwise the next line handled as a command.
     * `stop` reports exhausted input or a quit.  The pass is the model's
     * Pass from the state before it.
     */
    method Step(lines: seq<seq<char>>, rolls: seq<seq<int>>, linesUsed: nat, rollsUsed: nat, ghost cmds: seq<Command>)
      returns (lu: nat, ru: nat, stop: bool)
      requires Consistent() && Running()
      requires linesUsed <= |lines| && rollsUsed <= |rolls|
      requires forall k :: 0 <= k < |rolls| ==> ValidDice(rolls[k])
      requires Parsed(cmds, lines)
      modifies this, game, game.players
      ensures Consistent()
      ensures linesUsed <= lu <= linesUsed + 1 && lu <= |lines| && rollsUsed <= ru <= |rolls|
      ensures !stop ==> linesUsed + rollsUsed < lu + ru
      ensures WellFormed(game.board[..]) && old(InBounds(game.players[..], game.n)) ==> InBounds(game.players[..], game.n)
      // the pass is Pass of the model, or nothing when the input it needs is used up
      ensures var s := old(State(linesUsed, rollsUsed));
              State(lu, ru) == if Stopped(game.n, cmds, rolls, s) then s else Pass(game.board[..], game.n, cmds, rolls, s)
      ensures stop ==> Stopped(game.n, cmds, rolls, State(lu, ru))
    {
      if autoplay {
        lu := linesUsed;
        ru, stop := AutoStep(rolls, rollsUsed);
      } else {
        lu, ru, stop := LineStep(lines, rolls, linesUsed, rollsUsed, cmds);
      }
    }

    /**
     * main's game loop over the lines typed and the dice thrown: it runs
     * while the game is not over and some player is active, taking a line
     * per interactive step and a roll per move; it also stops when standard
     * input is exhausted (fgets returns NULL) or no dice remain.
     */
    method Run(lines: seq<seq<char>>, rolls: seq<seq<int>>) returns (linesUsed: nat, rollsUsed: nat, ghost cmds: seq<Command>)
      requires Consistent()
      requires forall k :: 0 <= k < |rolls| ==> ValidDice(rolls[k])
      modifies this, game, game.players
      ensures Consistent()
      ensures linesUsed <= |lines| && rollsUsed <= |rolls|
      ensures Running() ==> (if autoplay then rollsUsed == |rolls| else linesUsed == |lines| || rollsUsed == |rolls|)
      ensures game.players[game.n] <= 0 ==> forall i :: 0 <= i < game.n ==> game.players[i] == Finish
      ensures WellFormed(game.board[..]) && old(InBounds(game.players[..], game.n)) ==> InBounds(game.players[..], game.n)
      ensures old(gameOver) || old(game.players[game.n]) <= 0 ==>
                && linesUsed == 0 && rollsUsed == 0
                && game.players[..] == old(game.players[..]) && game.current == old(game.current)
                && delayMs == old(delayMs) && autoplay == old(autoplay) && gameOver == old(gameOver)
      ensures Parsed(cmds, lines)
      ensures gameOver <==> old(gameOver) || (0 < linesUsed && cmds[linesUsed - 1] == Quit)
      ensures autoplay ==> old(autoplay) || Autoplay in cmds[..linesUsed]
      ensures delayMs == old(delayMs) || DelayFrom(cmds[..linesUsed], delayMs)
      ensures forall j :: 0 <= j < linesUsed && cmds[j] == Quit ==> j == linesUsed - 1
      // the whole run is the loop model's, and its moves are one per roll taken, each while some player was active
      ensures State(linesUsed, rollsUsed) == Played(game.board[..], game.n, cmds, rolls, old(State(0, 0)))
      ensures (game.players[..], game.current) ==
              AfterMoves(game.board[..], old(game.players[..]), game.n, old(game.current), rolls[..rollsUsed])
      ensures MovesWhileActive(game.board[..], old(game.players[..]), game.n, old(game.current), rolls[..rollsUsed])
    {
      cmds := ParseLines(lines);
      ghost var start := State(0, 0);
      linesUsed, rollsUsed := Loop(lines, rolls, cmds);
      PlayedFromStart(game.board[..], game.n, cmds, rolls, start, State(linesUsed, rollsUsed));
      if game.players[game.n] <= 0 {
        ActiveCountZero(game.players[..], game.n);
      }
    }

    /** The loop of Run: each pass is one of the loop model, so the whole loop is Played from where it starts. */
    method Loop(lines: seq<seq<char>>, rolls: seq<seq<int>>, ghost cs: seq<Command>)
      returns (linesUsed: nat, rollsUsed: nat)
      requires Consistent() && Parsed(cs, lines)
      requires forall k :: 0 <= k < |rolls| ==> ValidDice(rolls[k])
      modifies this, game, game.players
      ensures Consistent()
      ensures linesUsed <= |lines| && rollsUsed <= |rolls|
      ensures WellFormed(game.board[..]) && old(InBounds(game.players[..], game.n)) ==> InBounds(game.players[..], game.n)
      ensures State(linesUsed, rollsUsed) == Played(game.board[..], game.n, cs, rolls, old(State(0, 0)))
    {
      ghost var start := State(0, 0);
      ghost var board := game.board[..];
      ghost var bounded := WellFormed(game.board[..]) && InBounds(game.players[..], game.n);
      linesUsed, rollsUsed := 0, 0;
      var stop := false;
      while !stop && !gameOver && game.players[game.n] > 0
        invariant Consistent()
        invariant linesUsed <= |lines| && rollsUsed <= |rolls|
        invariant bounded ==> InBounds(game.players[..], game.n)
        invariant game.board[..] == board
        invariant stop ==> Stopped(game.n, cs, rolls, State(linesUsed, rollsUsed))
        invariant Played(board, game.n, cs, rolls, State(linesUsed, rollsUsed)) == Played(board, game.n, cs, rolls, start)
        decreases !stop, |lines| - linesUsed + |rolls| - rollsUsed
      {
        linesUsed, rollsUsed, stop := Step(lines, rolls, linesUsed, rollsUsed, cs);
      }

    }
  }

  // ---------------------------------------------------------------------
  // Start-up

  /**
   * main up to the game loop: check the argument, create and initialise the
   * segments, load the board; any failure exits with status 1.
   */
  method Launch(args: seq<seq<char>>, file: Option<seq<Record>>) returns (code: int, coord: Coordinator?)
    ensures code == 0 || code == 1
    ensures code == 1 <==> coord == null
    ensures PlayerCount(args).None? ==> code == 1
    ensures PlayerCount(args).Some? ==>
              (code == 1 <==> file.None? || Fill(Cleared(), file.value).status == -1)
    ensures coord != null ==>
              && fresh(coord) && coord.Consistent()
              && coord.delayMs == 1000 && !coord.autoplay && !coord.gameOver
              && coord.game.n == PlayerCount(args).value && coord.game.current == -1
              && file.Some? && coord.game.board[..] == Fill(Cleared(), file.value).cells
              && InBounds(coord.game.players[..], coord.game.n)
              && forall i :: 0 <= i < coord.game.n ==> coord.game.players[i] == 0
  {
    var count := PlayerCount(args);
    if count.None? {
      return 1, null;
    }
    var n := count.value;
    var board := new int[BoardSize];
    var players := new int[MaxPlayers + 1];
    ghost var fresh_ := players[..];
    InitPlayers(players, n);
    InitialState(fresh_, n);
    var status := LoadBoard(board, file);
    if status < 0 {
      return 1, null;
    }
    var game := new Game(board, players, n);
    coord := new Coordinator(game);
    code := 0;
  }
}
