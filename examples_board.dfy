/**
 * Concrete boards: the neighbour enumeration on a 4 by 4 board, and what
 * revealing the top-left cell of a hand-set 4 by 4 field must do.
 */
module BoardExamples {
  import opened Counting
  import opened Grid
  import opened Flood
  import opened MinesGame

  /**
   * The hand-set field, row by row:
   *    0  0  1  M
   *    0  0  1  1
   *    0  0  0  0
   *    M  1  0  0
   * Its counts are not consistent (cell 8 shows 0 next to the mine at 12).
   */
  const TestField: seq<int> := [0, 0, 1, -1, 0, 0, 1, 1, 0, 0, 0, 0, -1, 1, 0, 0]

  /** Every cell but the mine in the top-right corner, the only cell no zero touches. */
  const Flooded: seq<bool> :=
    [true, true, true, false, true, true, true, true, true, true, true, true, true, true, true, true]

  const Hidden: seq<bool> :=
    [false, false, false, false, false, false, false, false, false, false, false, false, false, false, false, false]

  /**
   * Cell `n` of a 4 by 4 board is listed among the neighbours of cell `j`
   * when the two touch. (The dimensions are parameters rather than literals,
   * which keeps the verifier from evaluating whole neighbour lists.)
   */
  lemma Touching(w: nat, h: nat, nb: seq<seq<nat>>, j: nat, n: nat)
    requires w == 4 && h == 4 && Lists(nb, w, h)
    requires j < 16 && n < 16 && n != j
    requires -1 <= n / 4 - j / 4 <= 1 && -1 <= n % 4 - j % 4 <= 1
    ensures n in nb[j]
  {
    NeighborsExact(w, h, j, n);
    assert nb[j] == Neighbors(w, h, j);
  }

  /** The neighbours through which the flood from cell 0 spreads. */
  lemma ZeroCellNeighbors(w: nat, h: nat, nb: seq<seq<nat>>)
    requires w == 4 && h == 4 && Lists(nb, w, h)
    ensures 1 in nb[0] && 4 in nb[0] && 5 in nb[0]
    ensures 2 in nb[5] && 6 in nb[5] && 8 in nb[5] && 9 in nb[5] && 10 in nb[5]
    ensures 12 in nb[9] && 13 in nb[9] && 14 in nb[9]
    ensures 7 in nb[10] && 11 in nb[10] && 15 in nb[10]
  {
    Touching(w, h, nb, 0, 1); Touching(w, h, nb, 0, 4); Touching(w, h, nb, 0, 5);
    Touching(w, h, nb, 5, 2); Touching(w, h, nb, 5, 6); Touching(w, h, nb, 5, 8);
    Touching(w, h, nb, 5, 9); Touching(w, h, nb, 5, 10);
    Touching(w, h, nb, 9, 12); Touching(w, h, nb, 9, 13); Touching(w, h, nb, 9, 14);
    Touching(w, h, nb, 10, 7); Touching(w, h, nb, 10, 11); Touching(w, h, nb, 10, 15);
  }

  /** Only cells 2, 6 and 7 list cell 3 among their neighbours. */
  lemma OnlyTopRightNeighbors(w: nat, h: nat, nb: seq<seq<nat>>, m: nat)
    requires w == 4 && h == 4 && Lists(nb, w, h)
    requires m < 16 && 3 in nb[m]
    ensures m == 2 || m == 6 || m == 7
  {
    assert nb[m] == Neighbors(w, h, m);
    NeighborsExact(w, h, m, 3);
  }

  /** No zero touches cell 3, so no trail from cell 0 reaches it. */
  lemma TopRightStaysHidden(w: nat, h: nat, nb: seq<seq<nat>>, after: seq<bool>, t: seq<nat>)
    requires w == 4 && h == 4 && Lists(nb, w, h) && Table(nb)
    requires Records(Hidden, after, t) && RevealTrail(TestField, nb, 0, t)
    ensures !after[3]
  {
    if after[3] {
      var s :| 0 <= s < |t| && t[s] == 3;
      assert s > 0;
      assert FedAt(TestField, nb, 0, t[1..], s - 1);
      if 3 in nb[0] {
        OnlyTopRightNeighbors(w, h, nb, 0);
      } else {
        var p :| 0 <= p < s - 1 && Feeds(TestField, nb, t[1..][p], 3);
        OnlyTopRightNeighbors(w, h, nb, t[1..][p]);
      }
      assert false;
    }
  }

  /**
   * Whatever revealing cell 0 of the hidden test field does, as long as it
   * meets the reveal's contract (the new cells are those of a trail that
   * spreads only through zeros, and every uncovered zero is expanded), it
   * reveals every cell except cell 3, the mine at 12 included.
   */
  lemma {:induction false} FloodOfTestField(w: nat, h: nat, nb: seq<seq<nat>>, after: seq<bool>, t: seq<nat>)
    requires w == 4 && h == 4 && Lists(nb, w, h) && Table(nb)
    requires Records(Hidden, after, t) && RevealTrail(TestField, nb, 0, t)
    requires ZeroClosed(Hidden, after, TestField, nb)
    ensures after == Flooded
  {
    assert after[0] by { assert 0 in t; }
    ZeroCellNeighbors(w, h, nb);
    assert Expanded(after, nb, 0);
    assert after[5];
    assert Expanded(after, nb, 5);
    assert after[9] && after[10];
    assert Expanded(after, nb, 9) && Expanded(after, nb, 10);
    TopRightStaysHidden(w, h, nb, after, t);
    assert after[1] && after[2] && after[4] && after[6] && after[7] && after[8];
    assert after[11] && after[12] && after[13] && after[14] && after[15];
    FloodedCells(after);
  }

  /** A board whose cells are all revealed except cell 3 is `Flooded`. */
  lemma FloodedCells(after: seq<bool>)
    requires |after| == 16 && !after[3]
    requires after[0] && after[1] && after[2] && after[4] && after[5] && after[6] && after[7]
    requires after[8] && after[9] && after[10] && after[11] && after[12] && after[13]
    requires after[14] && after[15]
    ensures after == Flooded
  {
    assert forall i :: 0 <= i < 16 ==> after[i] == Flooded[i];
  }

  /** A 4 by 4 board holding the test field, every cell hidden. */
  method TestBoard() returns (board: Mines)
    ensures fresh(board) && board.Shaped() && board.width == 4 && board.height == 4
    ensures board.field[..] == TestField && board.revealed[..] == Hidden && fresh(board.revealed)
  {
    var field := new int[16](i requires 0 <= i < 16 => TestField[i]);
    assert field[..] == TestField;
    var revealed := new bool[16](_ => false);
    assert revealed[..] == Hidden;
    board := new Mines(4, 4, 0);
    board.field, board.revealed := field, revealed;
  }

  /** Runs the board's reveal on cell 0 of the test field. */
  method RevealTestField() returns (lost: bool, after: seq<bool>)
    ensures !lost && after == Flooded
  {
    var board := TestBoard();
    ghost var trail;
    lost, trail := board.Reveal(0);
    after := board.revealed[..];
    FloodOfTestField(board.width, board.height, board.nb, after, trail);
  }
}
