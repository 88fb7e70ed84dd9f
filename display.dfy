/**
 * The board process's geometry (LA4/board.c): where each cell is drawn on
 * the 10x10 grid, and which players are drawn on a cell.
 */
module Display {
  import opened Basics
  import opened Rules

  /**
   * The cell drawn at (row, col): row 0 is the top (cells 91..100) and row 9
   * the bottom (cells 1..10); rows alternate direction, the bottom row
   * running left to right.
   */
  function DisplayCell(row: int, col: int): (cell: int)
    ensures 0 <= row < 10 && 0 <= col < 10 ==> 1 <= cell <= Finish && (cell - 1) / 10 == 9 - row
  {
    var base := 9 - row;
    // C's % and Dafny's agree on whether a number is even.
    if base % 2 == 0 then base * 10 + col + 1 else base * 10 + (10 - col)
  }

  /** The grid row on which cell `cell` (1..100) is drawn. */
  function DisplayRow(cell: int): (row: int)
    requires 1 <= cell <= Finish
    ensures 0 <= row < 10
  {
    9 - (cell - 1) / 10
  }

  /** The grid column in which cell `cell` (1..100) is drawn. */
  function DisplayCol(cell: int): (col: int)
    requires 1 <= cell <= Finish
    ensures 0 <= col < 10
  {
    var base := (cell - 1) / 10;
    var offset := (cell - 1) % 10;
    if base % 2 == 0 then offset else 9 - offset
  }

  /** Every grid position shows a cell, and the cell's own position is that one. */
  lemma DisplayRoundTrip(row: int, col: int)
    requires 0 <= row < 10 && 0 <= col < 10
    ensures var cell := DisplayCell(row, col);
            1 <= cell <= Finish && DisplayRow(cell) == row && DisplayCol(cell) == col
  {
    var base := 9 - row;
    var cell := DisplayCell(row, col);
    var offset := if base % 2 == 0 then col else 9 - col;
    assert cell - 1 == base * 10 + offset;
    DivModTen(cell - 1, base, offset);
  }

  /** Every cell 1..100 is shown at exactly one position, the one DisplayRow and DisplayCol give. */
  lemma DisplayOnto(cell: int)
    requires 1 <= cell <= Finish
    ensures DisplayCell(DisplayRow(cell), DisplayCol(cell)) == cell
  {
    var base := (cell - 1) / 10;
    var offset := (cell - 1) % 10;
    assert cell - 1 == base * 10 + offset;
  }

  /** Two grid positions show the same cell only if they are the same position. */
  lemma DisplayInjective(r1: int, c1: int, r2: int, c2: int)
    requires 0 <= r1 < 10 && 0 <= c1 < 10 && 0 <= r2 < 10 && 0 <= c2 < 10
    requires DisplayCell(r1, c1) == DisplayCell(r2, c2)
    ensures r1 == r2 && c1 == c2
  {
    DisplayRoundTrip(r1, c1);
    DisplayRoundTrip(r2, c2);
  }

  /**
   * Row r shows the cells 10*(9-r)+1 .. 10*(9-r)+10: an even base row
   * starts at its lowest cell on the left and climbs to the right, an odd
   * base row starts at its highest cell on the left and descends.
   */
  lemma DisplayRowDirection(row: int, col: int)
    requires 0 <= row < 10 && 0 <= col < 10
    ensures var base := 9 - row;
            && 10 * base + 1 <= DisplayCell(row, col) <= 10 * base + 10
            && DisplayCell(row, 0) == (if base % 2 == 0 then 10 * base + 1 else 10 * base + 10)
            && (col < 9 ==> DisplayCell(row, col + 1) == DisplayCell(row, col) + (if base % 2 == 0 then 1 else -1))
  {
  }

  lemma DivModTen(x: int, q: int, r: int)
    requires 0 <= r < 10 && x == q * 10 + r
    ensures x / 10 == q && x % 10 == r
  {
  }

  // ---------------------------------------------------------------------
  // Players on a cell

  /** A player index as a shift amount; indices below 32 keep their value. */
  function Pos(i: nat): bv5
    requires i < 32
  {
    i as bv5
  }

  /** The mask with only bit p set: C's 1 << p. */
  function Single(p: bv5): bv32
  {
    1 << p
  }

  /** Bit p of a mask. */
  predicate Bit(mask: bv32, p: bv5)
  {
    mask & Single(p) != 0
  }

  /**
   * The bitmask of the first k players that stand on `cell`: bit i is set
   * when player i is there, and only cells 1..99 are ever reported.
   */
  function MaskOf(ps: seq<int>, k: nat, cell: int): bv32
    requires k <= |ps| && k <= MaxPlayers
  {
    if k == 0 then 0
    else MaskOf(ps, k - 1, cell) | (if ps[k - 1] == cell && 0 < cell < Finish then Single(Pos(k - 1)) else 0)
  }

  lemma NoBits(p: bv5)
    ensures !Bit(0, p)
  {
  }

  lemma AndOr(a: bv32, b: bv32, m: bv32)
    ensures (a | b) & m == (a & m) | (b & m)
  {
  }

  lemma OrNonzero(x: bv32, y: bv32)
    ensures x | y != 0 <==> x != 0 || y != 0
  {
  }

  lemma BitOr(a: bv32, b: bv32, p: bv5)
    ensures Bit(a | b, p) <==> Bit(a, p) || Bit(b, p)
  {
    var m := Single(p);
    AndOr(a, b, m);
    OrNonzero(a & m, b & m);
  }

  /** Distinct positions have distinct bits. */
  lemma BitOfSingle(q: bv5, p: bv5)
    ensures Bit(Single(q), p) <==> p == q
  {
  }

  /** Setting bit q adds bit q and leaves the others as they were. */
  lemma BitAdded(m: bv32, q: bv5, p: bv5)
    ensures Bit(m | Single(q), p) <==> Bit(m, p) || p == q
  {
    BitOr(m, Single(q), p);
    BitOfSingle(q, p);
  }

  lemma PosInjective(i: nat, j: nat)
    requires i < 32 && j < 32
    ensures Pos(i) == Pos(j) <==> i == j
  {
    SmallToBv(i);
    SmallToBv(j);
  }

  lemma SmallToBv(i: nat)
    requires i < 32
    ensures (i as bv5) as int == i
  {
  }

  /** A player on a cell of 1..99 adds its own bit. */
  lemma MaskAdds(ps: seq<int>, k: nat, cell: int)
    requires k < |ps| && k < MaxPlayers && ps[k] == cell && 0 < cell < Finish
    ensures MaskOf(ps, k + 1, cell) == MaskOf(ps, k, cell) | Single(Pos(k))
  {
  }

  /** Any other player leaves the mask as it was. */
  lemma MaskSkips(ps: seq<int>, k: nat, cell: int)
    requires k < |ps| && k < MaxPlayers && !(ps[k] == cell && 0 < cell < Finish)
    ensures MaskOf(ps, k + 1, cell) == MaskOf(ps, k, cell)
  {
    var m := MaskOf(ps, k, cell);
    assert m | 0 == m;
  }

  /** Bit i after player k is looked at: set if it was, or if i is k and player k is on a cell of 1..99. */
  lemma MaskStepBit(ps: seq<int>, k: nat, cell: int, i: nat)
    requires k < |ps| && k < MaxPlayers && i < 32
    ensures Bit(MaskOf(ps, k + 1, cell), Pos(i)) <==>
              Bit(MaskOf(ps, k, cell), Pos(i)) || (i == k && ps[k] == cell && 0 < cell < Finish)
  {
    if ps[k] == cell && 0 < cell < Finish {
      MaskAdds(ps, k, cell);
      BitAdded(MaskOf(ps, k, cell), Pos(k), Pos(i));
      PosInjective(i, k);
    } else {
      MaskSkips(ps, k, cell);
    }
  }

  /**
   * get_players_on_cell's mask has bit i set exactly when i < n, player i
   * stands on the cell and the cell is in 1..99; no bit at or above n is set.
   */
  lemma {:induction false} MaskBits(ps: seq<int>, n: nat, cell: int, i: nat)
    requires n <= |ps| && n <= MaxPlayers && i < 32
    ensures Bit(MaskOf(ps, n, cell), Pos(i)) <==> i < n && ps[i] == cell && 0 < cell < Finish
  {
    if n > 0 {
      MaskBits(ps, n - 1, cell, i);
      MaskStepBit(ps, n - 1, cell, i);
    } else {
      NoBits(Pos(i));
    }
  }

  /** The mask is empty for home (0) and the finish (100). */
  lemma {:induction false} MaskOffBoard(ps: seq<int>, n: nat, cell: int)
    requires n <= |ps| && n <= MaxPlayers && !(0 < cell < Finish)
    ensures MaskOf(ps, n, cell) == 0
  {
    if n > 0 {
      MaskOffBoard(ps, n - 1, cell);
    }
  }

  /**
   * The board's mask and the players' occupancy test agree: a cell is
   * occupied for player me exactly when the mask has a bit other than me's.
   */
  lemma MaskOccupied(ps: seq<int>, n: nat, cell: int, me: nat)
    requires n <= |ps| && n <= MaxPlayers && me < 32
    ensures Occupied(ps, n, cell, me) <==> exists i :: 0 <= i < n && i != me && Bit(MaskOf(ps, n, cell), Pos(i))
  {
    if Occupied(ps, n, cell, me) {
      var i :| 0 <= i < n && i != me && ps[i] == cell;
      MaskBits(ps, n, cell, i);
    }
    forall i | 0 <= i < n && i != me && Bit(MaskOf(ps, n, cell), Pos(i))
      ensures Occupied(ps, n, cell, me)
    {
      MaskBits(ps, n, cell, i);
    }
  }

  /** get_players_on_cell: scans the first n positions and sets a bit per player on the cell. */
  method PlayersOnCell(players: array<int>, n: int, cell: int) returns (mask: bv32)
    requires 0 <= n <= players.Length && n <= MaxPlayers
    ensures mask == MaskOf(players[..], n, cell)
  {
    ghost var ps := players[..];
    mask := 0;
    for i := 0 to n
      invariant mask == MaskOf(ps, i, cell)
    {
      assert players[i] == ps[i];
      if players[i] == cell && cell > 0 && cell < Finish {
        MaskAdds(ps, i, cell);
        mask := mask | Single(Pos(i));
      } else {
        MaskSkips(ps, i, cell);
      }
    }
  }
}
