/**
 * Loading the board segment from the board file (read_board_from_file in
 * LA4/ludo.c).  The file is given as the records fscanf would read from it:
 * a type character followed either by two integers or by something that is
 * not two integers.  A missing file is None.
 */
module BoardFile {
  import opened Basics

  datatype Record =
    | Entry(kind: char, from: int, to: int)
    | Truncated(kind: char)

  /** The load's return value and the board contents it leaves behind. */
  datatype Load = Load(status: int, cells: seq<int>)

  /** The board after clearing: every cell 0. */
  function Cleared(): (cells: seq<int>)
    ensures |cells| == BoardSize && forall c :: 0 <= c < BoardSize ==> cells[c] == 0
  {
    seq(BoardSize, _ => 0)
  }

  predicate IsEffect(kind: char)
  {
    kind == 'L' || kind == 'S'
  }

  /** A record that makes the corrected load fail: no two integers, or a ladder or snake starting off the board. */
  predicate Bad(r: Record)
  {
    r.kind != 'E' && (r.Truncated? || (IsEffect(r.kind) && !(1 <= r.from <= Finish)))
  }

  /** A ladder or snake record that writes cell c. */
  predicate Names(r: Record, c: int)
  {
    r.Entry? && IsEffect(r.kind) && r.from == c
  }

  /**
   * Reads records into the board until an 'E' record or the end of the file:
   * a ladder or snake from..to stores to - from at cell from, a record of any
   * other letter is consumed without effect, and a type character without two
   * integers fails the load (status -1).  A ladder or snake whose start is
   * outside 1..100 also fails the load: the source stores it unchecked.
   */
  function Fill(cells: seq<int>, recs: seq<Record>): (r: Load)
    requires |cells| == BoardSize
    ensures |r.cells| == BoardSize
    ensures r.status == 0 || r.status == -1
    decreases |recs|
  {
    if recs == [] then Load(0, cells)
    else
      var rec := recs[0];
      if rec.kind == 'E' then Load(0, cells)
      else if rec.Truncated? then Load(-1, cells)
      else if IsEffect(rec.kind) then
        if 1 <= rec.from <= Finish then Fill(cells[rec.from := rec.to - rec.from], recs[1..])
        else Load(-1, cells)
      else Fill(cells, recs[1..])
  }

  /** The load fails exactly when a bad record comes before any 'E' record. */
  lemma {:induction false} FillFails(cells: seq<int>, recs: seq<Record>)
    requires |cells| == BoardSize
    ensures Fill(cells, recs).status == -1 <==>
              exists i :: 0 <= i < |recs| && Bad(recs[i]) && forall j :: 0 <= j < i ==> recs[j].kind != 'E'
    decreases |recs|
  {
    if recs != [] {
      var rec := recs[0];
      if rec.kind == 'E' {
        forall i | 0 <= i < |recs| && Bad(recs[i])
          ensures exists j :: 0 <= j < i && recs[j].kind == 'E'
        {
          assert i > 0 && recs[0].kind == 'E';
        }
      } else if !Bad(rec) {
        var next := if IsEffect(rec.kind) && rec.Entry? then cells[rec.from := rec.to - rec.from] else cells;
        FillFails(next, recs[1..]);
        if Fill(cells, recs).status == -1 {
          var i :| 0 <= i < |recs[1..]| && Bad(recs[1..][i]) && forall j :: 0 <= j < i ==> recs[1..][j].kind != 'E';
          assert Bad(recs[i + 1]) && forall j :: 0 <= j < i + 1 ==> recs[j].kind != 'E';
        } else {
          forall i | 0 <= i < |recs| && Bad(recs[i])
            ensures exists j :: 0 <= j < i && recs[j].kind == 'E'
          {
            assert i > 0;
            assert recs[i] == recs[1..][i - 1];
          }
        }
      } else {
        assert Bad(recs[0]);
      }
    }
  }

  /** An 'E' record ends the load: nothing after it is read. */
  lemma {:induction false} FillStopsAtEnd(cells: seq<int>, pre: seq<Record>, e: Record, post: seq<Record>)
    requires |cells| == BoardSize && e.kind == 'E'
    requires forall i :: 0 <= i < |pre| ==> pre[i].kind != 'E'
    ensures Fill(cells, pre + [e] + post) == Fill(cells, pre)
    decreases |pre|
  {
    if pre != [] {
      assert (pre + [e] + post)[1..] == pre[1..] + [e] + post;
      var rec := pre[0];
      if rec.Entry? && IsEffect(rec.kind) && 1 <= rec.from <= Finish {
        FillStopsAtEnd(cells[rec.from := rec.to - rec.from], pre[1..], e, post);
      } else {
        FillStopsAtEnd(cells, pre[1..], e, post);
      }
    } else {
      assert pre + [e] + post == [e] + post;
    }
  }

  /** A cell that no ladder or snake record names keeps its value. */
  lemma {:induction false} FillKeepsUnnamed(cells: seq<int>, recs: seq<Record>, c: int)
    requires |cells| == BoardSize && 0 <= c < BoardSize
    requires forall i :: 0 <= i < |recs| ==> !Names(recs[i], c)
    ensures Fill(cells, recs).cells[c] == cells[c]
    decreases |recs|
  {
    if recs != [] {
      var rec := recs[0];
      if rec.Entry? && IsEffect(rec.kind) && 1 <= rec.from <= Finish {
        FillKeepsUnnamed(cells[rec.from := rec.to - rec.from], recs[1..], c);
      } else {
        FillKeepsUnnamed(cells, recs[1..], c);
      }
    }
  }

  /** Records that are read in full and neither end nor fail the load. */
  predicate Plain(recs: seq<Record>)
  {
    forall i :: 0 <= i < |recs| ==> recs[i].kind != 'E' && !Bad(recs[i])
  }

  /**
   * The last ladder or snake record for a cell decides it: after it,
   * from + board[from] == to, whatever earlier records said about that cell.
   */
  lemma {:induction false} FillLastWins(cells: seq<int>, pre: seq<Record>, r: Record, post: seq<Record>)
    requires |cells| == BoardSize
    requires Plain(pre) && r.Entry? && IsEffect(r.kind) && 1 <= r.from <= Finish
    requires forall i :: 0 <= i < |post| ==> !Names(post[i], r.from)
    ensures Fill(cells, pre + [r] + post).cells[r.from] == r.to - r.from
    decreases |pre|
  {
    if pre != [] {
      assert (pre + [r] + post)[1..] == pre[1..] + [r] + post;
      var rec := pre[0];
      if rec.Entry? && IsEffect(rec.kind) {
        FillLastWins(cells[rec.from := rec.to - rec.from], pre[1..], r, post);
      } else {
        FillLastWins(cells, pre[1..], r, post);
      }
    } else {
      assert (pre + [r] + post)[1..] == post;
      FillKeepsUnnamed(cells[r.from := r.to - r.from], post, r.from);
    }
  }

  /** Loads the board from `file`; None stands for a file that cannot be opened. */
  method LoadBoard(board: array<int>, file: Option<seq<Record>>) returns (status: int)
    requires board.Length == BoardSize
    modifies board
    ensures file.None? ==> status == -1 && board[..] == old(board[..])
    ensures file.Some? ==> Load(status, board[..]) == Fill(Cleared(), file.value)
  {
    if file.None? {
      return -1;
    }
    for i := 0 to BoardSize
      invariant forall j :: 0 <= j < i ==> board[j] == 0
    {
      board[i] := 0;
    }
    assert board[..] == Cleared();
    var recs := file.value;
    var k := 0;
    while k < |recs|
      invariant 0 <= k <= |recs|
      invariant Fill(board[..], recs[k..]) == Fill(Cleared(), recs)
    {
      var rec := recs[k];
      assert recs[k..][1..] == recs[k + 1..];
      if rec.kind == 'E' {
        break;
      }
      if rec.Truncated? {
        return -1;
      }
      if IsEffect(rec.kind) {
        if !(1 <= rec.from <= Finish) {
          return -1;
        }
        board[rec.from] := rec.to - rec.from;
      }
      k := k + 1;
    }
    return 0;
  }

  // ---------------------------------------------------------------------
  // The loader as the source writes it

  /** What the source's loop does: the (index, value) stores it makes and its return value. */
  datatype RawLoad = RawLoad(status: int, stores: seq<(int, int)>)

  /** The source's loop, with the store index left unchecked. */
  function FillAsWritten(recs: seq<Record>): (r: RawLoad)
    ensures r.status == 0 || r.status == -1
    ensures |r.stores| <= |recs|
  {
    if recs == [] then RawLoad(0, [])
    else
      var rec := recs[0];
      if rec.kind == 'E' then RawLoad(0, [])
      else if rec.Truncated? then RawLoad(-1, [])
      else
        var rest := FillAsWritten(recs[1..]);
        if IsEffect(rec.kind) then RawLoad(rest.status, [(rec.from, rec.to - rec.from)] + rest.stores)
        else rest
  }

  /** A one-record file whose ladder starts on cell 150 makes the source store past the 101-cell board and report success. */
  lemma AsWrittenStoresOffBoard()
    ensures var raw := FillAsWritten([Entry('L', 150, 160)]);
            raw.status == 0 && raw.stores == [(150, 10)] && !(0 <= raw.stores[0].0 < BoardSize)
  {
  }

  function Replay(cells: seq<int>, stores: seq<(int, int)>): (r: seq<int>)
    requires |cells| == BoardSize
    requires forall i :: 0 <= i < |stores| ==> 0 <= stores[i].0 < BoardSize
    ensures |r| == BoardSize
    decreases |stores|
  {
    if stores == [] then cells else Replay(cells[stores[0].0 := stores[0].1], stores[1..])
  }

  /** On every file whose ladders and snakes start on the board, the corrected load does what the source does. */
  lemma {:induction false} FillAgreesOnBoard(cells: seq<int>, recs: seq<Record>)
    requires |cells| == BoardSize
    requires forall i :: 0 <= i < |recs| && recs[i].Entry? && IsEffect(recs[i].kind) ==> 1 <= recs[i].from <= Finish
    ensures var raw := FillAsWritten(recs);
            && (forall i :: 0 <= i < |raw.stores| ==> 1 <= raw.stores[i].0 <= Finish)
            && Fill(cells, recs) == Load(raw.status, Replay(cells, raw.stores))
    decreases |recs|
  {
    if recs != [] {
      var rec := recs[0];
      if rec.kind != 'E' && rec.Entry? {
        if IsEffect(rec.kind) {
          FillAgreesOnBoard(cells[rec.from := rec.to - rec.from], recs[1..]);
        } else {
          FillAgreesOnBoard(cells, recs[1..]);
        }
      }
    }
  }
}
