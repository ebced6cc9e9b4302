/**
 * The Minesweeper board geometry and its cell values, as pure functions over
 * the row-major cell sequence: a cell is MINE (-1) or the number of mines
 * among its up-to-eight neighbours.
 */
module Grid {
  import opened Counting

  const MINE := -1
  const NO_MINE := 0

  /** Row and column of a cell in the row-major layout. */
  function Row(w: nat, i: nat): (r: nat) requires w > 0 { i / w }
  function Col(w: nat, i: nat): (c: nat) requires w > 0 { i % w }

  lemma MulAtLeast(a: int, w: nat)
    requires a >= 1
    ensures a * w >= w
  {
  }

  lemma MulSub(q: int, r: int, w: int)
    ensures q * w - r * w == (q - r) * w
  {
  }

  /** Row and column recovered from a row-major position. */
  lemma DivModOf(w: nat, r: nat, c: nat)
    requires w > 0 && c < w
    ensures (r * w + c) / w == r && (r * w + c) % w == c
  {
    var n := r * w + c;
    var q, m := n / w, n % w;
    assert q * w + m == n;
    MulSub(q, r, w);
    if q > r {
      MulAtLeast(q - r, w);
      assert false;
    } else if q < r {
      MulAtLeast(r - q, w);
      MulSub(r, q, w);
      assert false;
    }
  }

  lemma CellBelow(w: nat, h: nat, r: nat, c: nat)
    requires c < w && r < h
    ensures r * w + c < w * h
  {
    assert (r + 1) * w <= h * w;
  }

  /** The cell at row `r`, column `c`, if that position lies on the board. */
  function At(w: nat, h: nat, r: int, c: int): (s: seq<nat>)
    ensures |s| <= 1
  {
    if 0 <= r < h && 0 <= c < w then [r * w + c] else []
  }

  /**
   * The neighbours of cell `i`, in the order the source enumerates them:
   * row offset -1, 0, 1, and within a row column offset -1, 0, 1, skipping
   * the cell itself and every position off the board.
   */
  function Neighbors(w: nat, h: nat, i: nat): (ns: seq<nat>)
    requires w > 0
    ensures |ns| <= 8
    ensures forall k :: 0 <= k < |ns| ==> ns[k] < w * h
  {
    AroundOnBoard(w, h, Row(w, i), Col(w, i));
    Around(w, h, Row(w, i), Col(w, i))
  }

  /** The on-board positions around row `r`, column `c`, in enumeration order. */
  function Around(w: nat, h: nat, r: int, c: int): (ns: seq<nat>)
    ensures |ns| <= 8
  {
    At(w, h, r - 1, c - 1) + At(w, h, r - 1, c) + At(w, h, r - 1, c + 1)
    + At(w, h, r, c - 1) + At(w, h, r, c + 1)
    + At(w, h, r + 1, c - 1) + At(w, h, r + 1, c) + At(w, h, r + 1, c + 1)
  }

  lemma AtOnBoard(w: nat, h: nat, r: int, c: int)
    ensures forall k :: 0 <= k < |At(w, h, r, c)| ==> At(w, h, r, c)[k] < w * h
  {
    if 0 <= r < h && 0 <= c < w {
      CellBelow(w, h, r, c);
    }
  }

  /** Every position listed around (r, c) lies on the board. */
  lemma AroundOnBoard(w: nat, h: nat, r: int, c: int)
    ensures forall k :: 0 <= k < |Around(w, h, r, c)| ==> Around(w, h, r, c)[k] < w * h
  {
    AtOnBoard(w, h, r - 1, c - 1); AtOnBoard(w, h, r - 1, c); AtOnBoard(w, h, r - 1, c + 1);
    AtOnBoard(w, h, r, c - 1); AtOnBoard(w, h, r, c + 1);
    AtOnBoard(w, h, r + 1, c - 1); AtOnBoard(w, h, r + 1, c); AtOnBoard(w, h, r + 1, c + 1);
  }

  /** The neighbour lists of all cells, indexed by cell. */
  function Board(w: nat, h: nat): (nb: seq<seq<nat>>)
    requires w > 0
    ensures |nb| == w * h
    ensures forall i :: 0 <= i < w * h ==> nb[i] == Neighbors(w, h, i)
  {
    seq(w * h, i requires 0 <= i < w * h => Neighbors(w, h, i))
  }

  /** `j` is a neighbour of `i`: different cells at row and column distance at most one. */
  predicate Adjacent(w: nat, h: nat, i: nat, j: nat)
    requires w > 0
  {
    && j < w * h
    && j != i
    && -1 <= Row(w, j) - Row(w, i) <= 1
    && -1 <= Col(w, j) - Col(w, i) <= 1
  }

  /** A cell found at a non-zero offset from `i` is adjacent to `i`. */
  lemma OffsetAdjacent(w: nat, h: nat, i: nat, r: int, c: int, dr: int, dc: int, j: nat)
    requires w > 0 && i < w * h && r == Row(w, i) && c == Col(w, i)
    requires -1 <= dr <= 1 && -1 <= dc <= 1 && (dr != 0 || dc != 0)
    requires j in At(w, h, r + dr, c + dc)
    ensures Adjacent(w, h, i, j)
  {
    var r', c' := r + dr, c + dc;
    assert 0 <= r' < h && 0 <= c' < w && j == r' * w + c';
    DivModOf(w, r', c');
    CellBelow(w, h, r', c');
  }

  lemma RowBelow(w: nat, h: nat, j: nat)
    requires w > 0 && j < w * h
    ensures Row(w, j) < h
  {
    var rj := Row(w, j);
    assert rj * w + Col(w, j) == j;
    if rj >= h {
      MulAtLeast(rj - h + 1, w);
      MulSub(rj, h, w);
      assert false;
    }
  }

  /** Every position listed around (r, c) lies at one of the eight offsets. */
  lemma AroundOffset(w: nat, h: nat, r: int, c: int, j: nat) returns (dr: int, dc: int)
    requires j in Around(w, h, r, c)
    ensures -1 <= dr <= 1 && -1 <= dc <= 1 && (dr != 0 || dc != 0)
    ensures j in At(w, h, r + dr, c + dc)
  {
    if j in At(w, h, r - 1, c - 1) { dr, dc := -1, -1; }
    else if j in At(w, h, r - 1, c) { dr, dc := -1, 0; }
    else if j in At(w, h, r - 1, c + 1) { dr, dc := -1, 1; }
    else if j in At(w, h, r, c - 1) { dr, dc := 0, -1; }
    else if j in At(w, h, r, c + 1) { dr, dc := 0, 1; }
    else if j in At(w, h, r + 1, c - 1) { dr, dc := 1, -1; }
    else if j in At(w, h, r + 1, c) { dr, dc := 1, 0; }
    else { dr, dc := 1, 1; }
  }

  /** Every cell the enumeration yields is adjacent to `i`. */
  lemma NeighborsAreAdjacent(w: nat, h: nat, i: nat, j: nat)
    requires w > 0 && i < w * h && j in Neighbors(w, h, i)
    ensures Adjacent(w, h, i, j)
  {
    var r, c := Row(w, i), Col(w, i);
    assert j in Around(w, h, r, c);
    var dr, dc := AroundOffset(w, h, r, c, j);
    OffsetAdjacent(w, h, i, r, c, dr, dc, j);
  }

  /** A position at one of the eight offsets is listed around (r, c). */
  lemma OffsetAround(w: nat, h: nat, r: int, c: int, dr: int, dc: int, j: nat)
    requires -1 <= dr <= 1 && -1 <= dc <= 1 && (dr != 0 || dc != 0)
    requires j in At(w, h, r + dr, c + dc)
    ensures j in Around(w, h, r, c)
  {
    if dr == -1 {
      if dc == -1 { assert j in At(w, h, r - 1, c - 1); }
      else if dc == 0 { assert j in At(w, h, r - 1, c); }
      else { assert j in At(w, h, r - 1, c + 1); }
    } else if dr == 0 {
      if dc == -1 { assert j in At(w, h, r, c - 1); }
      else { assert j in At(w, h, r, c + 1); }
    } else {
      if dc == -1 { assert j in At(w, h, r + 1, c - 1); }
      else if dc == 0 { assert j in At(w, h, r + 1, c); }
      else { assert j in At(w, h, r + 1, c + 1); }
    }
  }

  /** A cell lies on the board at its own row and column. */
  lemma AtOwnPosition(w: nat, h: nat, j: nat)
    requires w > 0 && j < w * h
    ensures At(w, h, Row(w, j), Col(w, j)) == [j]
  {
    RowBelow(w, h, j);
  }

  /** Every cell adjacent to `i` is yielded by the enumeration. */
  lemma AdjacentAreNeighbors(w: nat, h: nat, i: nat, j: nat)
    requires w > 0 && i < w * h && Adjacent(w, h, i, j)
    ensures j in Neighbors(w, h, i)
  {
    var r: int, c: int := Row(w, i), Col(w, i);
    var rj: int, cj: int := Row(w, j), Col(w, j);
    AtOwnPosition(w, h, j);
    assert rj != r || cj != c;
    OffsetAround(w, h, r, c, rj - r, cj - c, j);
  }

  /** The enumeration yields exactly the cells adjacent to `i`. */
  lemma NeighborsExact(w: nat, h: nat, i: nat, j: nat)
    requires w > 0 && i < w * h
    ensures j in Neighbors(w, h, i) <==> Adjacent(w, h, i, j)
  {
    if j in Neighbors(w, h, i) { NeighborsAreAdjacent(w, h, i, j); }
    if Adjacent(w, h, i, j) { AdjacentAreNeighbors(w, h, i, j); }
  }

  /** Adjacency is symmetric, so each cell appears among its neighbours' neighbours. */
  lemma NeighborsSymmetric(w: nat, h: nat, i: nat, j: nat)
    requires w > 0 && i < w * h && j < w * h
    ensures j in Neighbors(w, h, i) <==> i in Neighbors(w, h, j)
  {
    NeighborsExact(w, h, i, j);
    NeighborsExact(w, h, j, i);
  }

  /** No entry of `s` is listed twice. */
  predicate Distinct(s: seq<nat>)
  {
    forall a, b :: 0 <= a < b < |s| ==> s[a] != s[b]
  }

  /** Two duplicate-free lists without a common entry concatenate into a duplicate-free list. */
  lemma AppendDistinct(s: seq<nat>, t: seq<nat>)
    requires Distinct(s) && Distinct(t)
    requires forall x :: x in s ==> x !in t
    ensures Distinct(s + t)
  {
    forall a, b | 0 <= a < b < |s + t| ensures (s + t)[a] != (s + t)[b] {
      if b < |s| {
        assert (s + t)[a] == s[a] && (s + t)[b] == s[b];
      } else if a < |s| {
        assert (s + t)[a] == s[a] && (s + t)[b] == t[b - |s|];
        assert s[a] in s;
      } else {
        assert (s + t)[a] == t[a - |s|] && (s + t)[b] == t[b - |s|];
      }
    }
  }

  /** The position `At` yields lies at row `r`, column `c`. */
  lemma AtCoords(w: nat, h: nat, r: int, c: int)
    requires w > 0
    ensures forall j :: j in At(w, h, r, c) ==> Row(w, j) == r && Col(w, j) == c
  {
    if 0 <= r < h && 0 <= c < w {
      DivModOf(w, r, c);
    }
  }

  /**
   * The eight offsets are different, so the positions they yield have
   * different rows or columns: the list around a position has no duplicate.
   */
  lemma AroundDistinct(w: nat, h: nat, r: int, c: int)
    requires w > 0
    ensures Distinct(Around(w, h, r, c))
  {
    AtCoords(w, h, r - 1, c - 1); AtCoords(w, h, r - 1, c); AtCoords(w, h, r - 1, c + 1);
    AtCoords(w, h, r, c - 1); AtCoords(w, h, r, c + 1);
    AtCoords(w, h, r + 1, c - 1); AtCoords(w, h, r + 1, c); AtCoords(w, h, r + 1, c + 1);
    var s := At(w, h, r - 1, c - 1);
    AppendDistinct(s, At(w, h, r - 1, c));
    s := s + At(w, h, r - 1, c);
    AppendDistinct(s, At(w, h, r - 1, c + 1));
    s := s + At(w, h, r - 1, c + 1);
    AppendDistinct(s, At(w, h, r, c - 1));
    s := s + At(w, h, r, c - 1);
    AppendDistinct(s, At(w, h, r, c + 1));
    s := s + At(w, h, r, c + 1);
    AppendDistinct(s, At(w, h, r + 1, c - 1));
    s := s + At(w, h, r + 1, c - 1);
    AppendDistinct(s, At(w, h, r + 1, c));
    s := s + At(w, h, r + 1, c);
    AppendDistinct(s, At(w, h, r + 1, c + 1));
  }

  /** The enumeration lists no cell twice. */
  lemma NeighborsDistinct(w: nat, h: nat, i: nat)
    requires w > 0
    ensures Distinct(Neighbors(w, h, i))
  {
    AroundDistinct(w, h, Row(w, i), Col(w, i));
  }

  /** The top-left corner of a board at least two wide and two high has exactly three neighbours. */
  lemma FirstCornerNeighbors(w: nat, h: nat)
    requires w >= 2 && h >= 2
    ensures Neighbors(w, h, 0) == [1, w, w + 1]
  {
    DivModOf(w, 0, 0);
    assert At(w, h, 0, 1) == [1];
    assert At(w, h, 1, 0) == [w];
    assert At(w, h, 1, 1) == [w + 1];
  }

  /** So does the bottom-right corner. */
  lemma LastCornerNeighbors(w: nat, h: nat)
    requires w >= 2 && h >= 2
    ensures Neighbors(w, h, w * h - 1) == [w * h - w - 2, w * h - w - 1, w * h - 2]
  {
    var r, c := h - 1, w - 1;
    var last := w * h - 1;
    MulSub(h, 1, w);
    assert last == r * w + c;
    DivModOf(w, r, c);
    assert Row(w, last) == r && Col(w, last) == c;
    MulSub(h - 1, 1, w);
    assert At(w, h, r - 1, c - 1) == [w * h - w - 2];
    assert At(w, h, r - 1, c) == [w * h - w - 1];
    assert At(w, h, r, c - 1) == [w * h - 2];
  }

  /** Number of mines among the cells listed in `ns`, tallied in list order. */
  function MinesAmong(f: seq<int>, ns: seq<nat>): (n: nat)
    requires forall k :: 0 <= k < |ns| ==> ns[k] < |f|
    ensures n <= |ns|
  {
    if ns == [] then 0
    else MinesAmong(f, ns[..|ns| - 1]) + (if f[ns[|ns| - 1]] == MINE then 1 else 0)
  }

  /** The value a non-mine cell must hold: the number of its neighbours that are mines. */
  function MineCount(f: seq<int>, w: nat, h: nat, i: nat): (n: nat)
    requires w > 0 && |f| == w * h
    ensures n <= 8
  {
    MinesAmong(f, Neighbors(w, h, i))
  }

  /** Every non-mine cell holds its neighbour mine count. */
  ghost predicate Consistent(f: seq<int>, w: nat, h: nat)
  {
    && w > 0 && |f| == w * h
    && forall i {:trigger MineCount(f, w, h, i)} :: 0 <= i < |f| && f[i] != MINE ==> f[i] == MineCount(f, w, h, i)
  }

  /** The cells that hold a mine. */
  function MineMask(f: seq<int>): (m: seq<bool>)
    ensures |m| == |f|
    ensures forall i :: 0 <= i < |f| ==> m[i] == (f[i] == MINE)
  {
    seq(|f|, i requires 0 <= i < |f| => f[i] == MINE)
  }

  /** Number of mines on the field. */
  function MinesIn(f: seq<int>): (n: nat)
    ensures n <= |f|
  {
    Count(MineMask(f))
  }

  /** Two fields with the same mine cells. */
  ghost predicate SameMines(f: seq<int>, g: seq<int>)
  {
    |f| == |g| && forall i :: 0 <= i < |f| ==> (f[i] == MINE <==> g[i] == MINE)
  }

  /** The tally depends only on where the mines are. */
  lemma {:induction false} MinesAmongSameMines(f: seq<int>, g: seq<int>, ns: seq<nat>)
    requires SameMines(f, g)
    requires forall k :: 0 <= k < |ns| ==> ns[k] < |f|
    ensures MinesAmong(f, ns) == MinesAmong(g, ns)
  {
    if ns != [] {
      MinesAmongSameMines(f, g, ns[..|ns| - 1]);
    }
  }

  /** A zero tally means none of the listed cells is a mine. */
  lemma {:induction false} MinesAmongZero(f: seq<int>, ns: seq<nat>)
    requires forall k :: 0 <= k < |ns| ==> ns[k] < |f|
    requires MinesAmong(f, ns) == 0
    ensures forall k :: 0 <= k < |ns| ==> f[ns[k]] != MINE
  {
    if ns != [] {
      MinesAmongZero(f, ns[..|ns| - 1]);
    }
  }

  /** On a consistent field a cell showing 0 has no mine next to it. */
  lemma ZeroCellHasNoMineNeighbor(f: seq<int>, w: nat, h: nat, i: nat, j: nat)
    requires Consistent(f, w, h)
    requires i < |f| && f[i] == NO_MINE && j in Neighbors(w, h, i)
    ensures f[j] != MINE
  {
    assert f[i] == MineCount(f, w, h, i);
    MinesAmongZero(f, Neighbors(w, h, i));
  }

  /** The mine cells among the listed ones. */
  ghost function MinesListed(f: seq<int>, ns: seq<nat>): set<nat>
    requires forall k :: 0 <= k < |ns| ==> ns[k] < |f|
  {
    set q | 0 <= q < |ns| && f[ns[q]] == MINE :: ns[q]
  }

  /** Listing one more cell adds it to the mine cells exactly when it holds a mine. */
  lemma MinesListedSnoc(f: seq<int>, ns: seq<nat>)
    requires ns != [] && forall k :: 0 <= k < |ns| ==> ns[k] < |f|
    ensures MinesListed(f, ns) ==
      MinesListed(f, ns[..|ns| - 1]) + (if f[ns[|ns| - 1]] == MINE then {ns[|ns| - 1]} else {})
  {
    var n := |ns| - 1;
    forall q | 0 <= q < n ensures ns[..n][q] == ns[q] { }
  }

  /** Over a duplicate-free list, the tally is the number of distinct mine cells listed. */
  lemma {:induction false} MinesAmongCountsSet(f: seq<int>, ns: seq<nat>)
    requires forall k :: 0 <= k < |ns| ==> ns[k] < |f|
    requires Distinct(ns)
    ensures MinesAmong(f, ns) == |MinesListed(f, ns)|
  {
    if ns != [] {
      var n := |ns| - 1;
      var p, x := ns[..n], ns[n];
      assert Distinct(p);
      MinesAmongCountsSet(f, p);
      MinesListedSnoc(f, ns);
      assert x !in MinesListed(f, p) by {
        forall q | 0 <= q < n ensures p[q] != x {
          assert p[q] == ns[q];
        }
      }
    }
  }

  /** A cell's count is the number of adjacent cells that hold a mine. */
  lemma MineCountIsAdjacentMines(f: seq<int>, w: nat, h: nat, i: nat)
    requires w > 0 && |f| == w * h && i < |f|
    ensures MineCount(f, w, h, i) == |set j: nat | j < |f| && Adjacent(w, h, i, j) && f[j] == MINE|
  {
    var ns := Neighbors(w, h, i);
    NeighborsDistinct(w, h, i);
    MinesAmongCountsSet(f, ns);
    forall j: nat ensures j in MinesListed(f, ns) <==> (j < |f| && Adjacent(w, h, i, j) && f[j] == MINE) {
      NeighborsExact(w, h, i, j);
    }
    assert MinesListed(f, ns) == set j: nat | j < |f| && Adjacent(w, h, i, j) && f[j] == MINE;
  }
}
