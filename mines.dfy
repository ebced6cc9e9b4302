/**
 * The Minesweeper board of the game: a row-major field of cell values, the
 * revealed and flag masks, and the operations the board's event handlers
 * run on them (field generation, reveal with flood fill, flag cycling, the
 * win test and the relocation of unflagged mines after each safe reveal).
 */
module MinesGame {
  import opened Counting
  import opened Grid
  import opened Flood

  const NO_FLAG := 0
  const FLAG := 1
  const FLAG_QUESTION := 2

  /** The flag state that follows `x` in the cycle none, flag, question mark. */
  function NextFlag(x: int): (y: int)
  {
    (x + FLAG) % (FLAG_QUESTION + FLAG)
  }

  /** Three flag clicks bring a cell back to the state it started in. */
  lemma FlagCycle(x: int)
    requires NO_FLAG <= x <= FLAG_QUESTION
    ensures NO_FLAG <= NextFlag(x) <= FLAG_QUESTION && NextFlag(x) != x
    ensures NextFlag(NextFlag(NextFlag(x))) == x
  {
  }

  /** The cells that carry a flag (not a question mark). */
  function FlagMask(g: seq<int>): (m: seq<bool>)
    ensures |m| == |g|
    ensures forall i :: 0 <= i < |g| ==> m[i] == (g[i] == FLAG)
  {
    seq(|g|, i requires 0 <= i < |g| => g[i] == FLAG)
  }

  /** Mines that relocation leaves in place: those the player has flagged. */
  function KeptMask(f: seq<int>, g: seq<int>): (m: seq<bool>)
    requires |f| == |g|
    ensures |m| == |f|
    ensures forall i :: 0 <= i < |f| ==> m[i] == (f[i] == MINE && g[i] == FLAG)
  {
    seq(|f|, i requires 0 <= i < |f| => f[i] == MINE && g[i] == FLAG)
  }

  /** Mines that relocation moves: those without a flag. */
  function MovedMask(f: seq<int>, g: seq<int>): (m: seq<bool>)
    requires |f| == |g|
    ensures |m| == |f|
    ensures forall i :: 0 <= i < |f| ==> m[i] == (f[i] == MINE && g[i] != FLAG)
  {
    seq(|f|, i requires 0 <= i < |f| => f[i] == MINE && g[i] != FLAG)
  }

  /** Cells a relocated mine may land on: currently empty and still hidden. */
  function FreeMask(f: seq<int>, r: seq<bool>): (m: seq<bool>)
    requires |f| == |r|
    ensures |m| == |f|
    ensures forall i :: 0 <= i < |f| ==> m[i] == (f[i] == NO_MINE && !r[i])
  {
    seq(|f|, i requires 0 <= i < |f| => f[i] == NO_MINE && !r[i])
  }

  /** Putting a mine on a cell without one adds one mine to the field. */
  lemma MineAdded(f: seq<int>, index: nat)
    requires index < |f| && f[index] != MINE
    ensures MinesIn(f[index := MINE]) == MinesIn(f) + 1
  {
    assert MineMask(f[index := MINE]) == MineMask(f)[index := true];
    CountUpdate(MineMask(f), index, true);
  }

  /** Putting a mine on a hidden empty cell adds one mine and takes one free cell away. */
  lemma MineOnFreeCell(f: seq<int>, r: seq<bool>, index: nat)
    requires |f| == |r| && index < |f| && f[index] == NO_MINE && !r[index]
    ensures MinesIn(f[index := MINE]) == MinesIn(f) + 1
    ensures Count(FreeMask(f[index := MINE], r)) == Count(FreeMask(f, r)) - 1
  {
    MineAdded(f, index);
    assert FreeMask(f[index := MINE], r) == FreeMask(f, r)[index := false];
    CountUpdate(FreeMask(f, r), index, false);
  }

  /** Changing one flag state moves the number of `FLAG` states by at most one. */
  lemma FlagChanged(g: seq<int>, index: nat, v: int)
    requires index < |g|
    ensures Count(FlagMask(g[index := v])) ==
              Count(FlagMask(g)) - (if g[index] == FLAG then 1 else 0) + (if v == FLAG then 1 else 0)
  {
    assert FlagMask(g[index := v]) == FlagMask(g)[index := v == FLAG];
    CountUpdate(FlagMask(g), index, v == FLAG);
  }

  /** Every mine is either kept or moved, never both. */
  lemma MinesSplit(f: seq<int>, g: seq<int>)
    requires |f| == |g|
    ensures MinesIn(f) == Count(KeptMask(f, g)) + Count(MovedMask(f, g))
  {
    CountSplit(MineMask(f), KeptMask(f, g), MovedMask(f, g));
  }

  /**
   * The win test: no hidden cell is safe, and the number of revealed cells
   * is the number of cells minus the number of mines the game was set up with.
   */
  predicate Won(f: seq<int>, r: seq<bool>, totalMines: int)
    requires |f| == |r|
  {
    && (forall i :: 0 <= i < |f| && !r[i] ==> f[i] == MINE)
    && Count(r) == |f| - totalMines
  }

  function SafeMask(f: seq<int>): (m: seq<bool>)
    ensures |m| == |f|
    ensures forall i :: 0 <= i < |f| ==> m[i] == (f[i] != MINE)
  {
    seq(|f|, i requires 0 <= i < |f| => f[i] != MINE)
  }

  function RevealedMineMask(f: seq<int>, r: seq<bool>): (m: seq<bool>)
    requires |f| == |r|
    ensures |m| == |f|
    ensures forall i :: 0 <= i < |f| ==> m[i] == (r[i] && f[i] == MINE)
  {
    seq(|f|, i requires 0 <= i < |f| => r[i] && f[i] == MINE)
  }

  /** Safe cells and mines together make up the whole board. */
  lemma SafeCount(f: seq<int>)
    ensures Count(SafeMask(f)) == |f| - MinesIn(f)
  {
    var all := seq(|f|, i requires 0 <= i < |f| => true);
    CountFull(all);
    CountSplit(all, SafeMask(f), MineMask(f));
  }

  /**
   * When the field holds as many mines as the game was set up with, the win
   * test holds exactly when the revealed cells are precisely the safe ones.
   */
  lemma WonIff(f: seq<int>, r: seq<bool>, totalMines: int)
    requires |f| == |r| && MinesIn(f) == totalMines
    ensures Won(f, r, totalMines) <==> forall i :: 0 <= i < |f| ==> (r[i] <==> f[i] != MINE)
  {
    SafeCount(f);
    if forall i :: 0 <= i < |f| && !r[i] ==> f[i] == MINE {
      CountSplit(r, SafeMask(f), RevealedMineMask(f, r));
      CountZero(RevealedMineMask(f, r));
    }
  }

  /** The board of one game. */
  class Mines {
    const width: nat
    const height: nat
    const totalMines: nat
    /** MINE, or the number of mines among the cell's neighbours. */
    var field: array<int>
    var revealed: array<bool>
    /** NO_FLAG, FLAG or FLAG_QUESTION per cell. */
    var flagged: array<int>
    /** Number of cells showing a flag. */
    var flags: int
    /** The neighbour lists of this board, a proof device standing for the enumeration. */
    ghost const nb: seq<seq<nat>>

    /** The arrays have one entry per cell of the board. */
    ghost predicate Shaped()
      reads this
    {
      && width > 0 && height > 0
      && field.Length == width * height
      && revealed.Length == field.Length
      && flagged.Length == field.Length
      && field != flagged
      && Lists(nb, width, height) && Table(nb)
    }

    /** ... every flag state is one of the three, and the flag counter counts the flags. */
    ghost predicate Valid()
      reads this, flagged
    {
      && Shaped()
      && (forall i :: 0 <= i < flagged.Length ==> NO_FLAG <= flagged[i] <= FLAG_QUESTION)
      && flags == Count(FlagMask(flagged[..]))
    }

    /**
     * The invariant of a game in progress: every cell shows its true
     * neighbour count, the field holds the announced number of mines, and no
     * mine has been uncovered.
     */
    ghost predicate Sound()
      reads this, field, revealed, flagged
    {
      && Valid()
      && Consistent(field[..], width, height)
      && MinesIn(field[..]) == totalMines
      && forall i :: 0 <= i < field.Length && revealed[i] ==> field[i] != MINE
    }

    /** Sets up a new game with `mines` mines on a `width` by `height` board. */
    constructor (width: nat, height: nat, mines: nat)
      requires width > 0 && height > 0 && mines <= width * height
      ensures this.width == width && this.height == height && totalMines == mines
      ensures Valid() && Sound()
      ensures flags == 0
      ensures forall i :: 0 <= i < revealed.Length ==> !revealed[i]
      ensures forall i :: 0 <= i < flagged.Length ==> flagged[i] == NO_FLAG
      ensures fresh(field) && fresh(revealed) && fresh(flagged)
    {
      this.flags := NO_FLAG;
      this.width := width;
      this.height := height;
      this.totalMines := mines;
      this.nb := Board(width, height);
      BoardLists(width, height);
      field := new int[0];
      revealed := new bool[0];
      flagged := new int[0];
      new;
      GenerateField(mines);
      CountZero(FlagMask(flagged[..]));
      CountsMatchConsistent(field[..], width, height, nb);
    }

    /**
     * Allocates fresh arrays, places `mines` mines on distinct cells and
     * fills in every other cell's neighbour count.
     */
    method GenerateField(mines: nat)
      requires width > 0 && height > 0 && mines <= width * height
      requires Lists(nb, width, height) && Table(nb)
      modifies this
      ensures Shaped() && fresh(field) && fresh(revealed) && fresh(flagged)
      ensures forall i :: 0 <= i < revealed.Length ==> !revealed[i]
      ensures forall i :: 0 <= i < flagged.Length ==> flagged[i] == NO_FLAG
      ensures MinesIn(field[..]) == mines && CountsMatch(field[..], nb)
      ensures flags == old(flags)
    {
      var n := width * height;
      revealed := new bool[n](_ => false);
      field := new int[n](_ => NO_MINE);
      flagged := new int[n](_ => NO_FLAG);
      CountZero(MineMask(field[..]));
      var placed := NO_MINE;
      while placed < mines
        invariant Shaped() && fresh(field) && fresh(revealed) && fresh(flagged)
        invariant forall i :: 0 <= i < revealed.Length ==> !revealed[i]
        invariant forall i :: 0 <= i < flagged.Length ==> flagged[i] == NO_FLAG
        invariant 0 <= placed <= mines && MinesIn(field[..]) == placed
        invariant flags == old(flags)
        modifies field
      {
        CountFull(MineMask(field[..]));
        var index :| 0 <= index < n && field[index] != MINE;
        ghost var f1 := field[..];
        field[index] := MINE;
        assert field[..] == f1[index := MINE];
        MineAdded(f1, index);
        placed := placed + 1;
      }
      ghost var placedField := field[..];
      CountPass();
      assert MineMask(field[..]) == MineMask(placedField);
    }

    /** The number of mines around cell `i`, counted along the neighbour enumeration. */
    method CountNeighborMines(i: nat) returns (count: nat)
      requires Shaped() && i < field.Length
      ensures count == MinesAmong(field[..], nb[i])
    {
      var ns := Neighbors(width, height, i);
      assert ns == nb[i];
      count := CountMinesAmong(ns);
    }

    /** The number of mines among the listed cells, counted in list order. */
    method CountMinesAmong(ns: seq<nat>) returns (count: nat)
      requires forall k :: 0 <= k < |ns| ==> ns[k] < field.Length
      ensures count == MinesAmong(field[..], ns)
    {
      count := NO_MINE;
      for t := 0 to |ns|
        invariant count == MinesAmong(field[..], ns[..t])
      {
        assert ns[..t + 1][..t] == ns[..t];
        if field[ns[t]] == MINE {
          count := count + 1;
        }
      }
      assert ns[..|ns|] == ns;
    }

    /** Writes every non-mine cell's neighbour count; the mines stay where they are. */
    method CountPass()
      requires Shaped()
      modifies field
      ensures SameMines(field[..], old(field[..]))
      ensures CountsMatch(field[..], nb)
    {
      ghost var start := field[..];
      for i := 0 to field.Length
        invariant SameMines(field[..], start)
        invariant forall j :: 0 <= j < i && field[j] != MINE ==> field[j] == MinesAmong(start, nb[j])
        invariant forall j :: i <= j < field.Length ==> field[j] == start[j]
      {
        if field[i] == MINE {
          continue;
        }
        var count := CountNeighborMines(i);
        MinesAmongSameMines(field[..], start, nb[i]);
        field[i] := count;
      }
      forall j | 0 <= j < field.Length && field[j] != MINE ensures field[j] == MinesAmong(field[..], nb[j]) {
        MinesAmongSameMines(field[..], start, nb[j]);
      }
    }

    /**
     * Reveals cell `index`; a zero cell spreads to its neighbours. Reports
     * whether the cell is a mine. An already revealed cell is left alone and
     * never counts as a loss. The ghost `trail` lists the cells this call
     * revealed, in order.
     */
    method Reveal(index: nat) returns (lost: bool, ghost trail: seq<nat>)
      requires Shaped() && index < field.Length
      modifies revealed
      ensures old(revealed[index]) ==> !lost && revealed[..] == old(revealed[..]) && trail == []
      ensures !old(revealed[index]) ==> lost == (field[index] == MINE) && RevealTrail(field[..], nb, index, trail)
      ensures revealed[index]
      ensures Grows(old(revealed[..]), revealed[..])
      ensures Records(old(revealed[..]), revealed[..], trail)
      ensures ZeroClosed(old(revealed[..]), revealed[..], field[..], nb)
      ensures !lost && ZerosClear(field[..], nb) ==>
                forall j :: 0 <= j < field.Length && !old(revealed[j]) && revealed[j] ==> field[j] != MINE
      ensures old(Sound()) && !lost ==> Sound()
      decreases field.Length - Count(revealed[..]), 0
    {
      if revealed[index] {
        return false, [];
      }
      ghost var before := revealed[..];
      revealed[index] := true;
      assert revealed[..] == before[index := true];
      CountUpdate(before, index, true);
      trail := [index];
      if field[index] == NO_MINE {
        ghost var mid := revealed[..];
        var rest := PopFieldVoid(index);
        ZeroClosedFromOrigin(before, mid, revealed[..], field[..], nb, index);
        RecordsTrans(before, mid, revealed[..], [index], rest);
        trail := [index] + rest;
        assert trail[1..] == rest;
      } else {
        assert trail[1..] == [];
      }
      lost := field[index] == MINE;
      if !lost && old(Sound()) {
        CountsMatchConsistent(field[..], width, height, nb);
        CountsMatchZerosClear(field[..], nb);
      }
      if !lost && ZerosClear(field[..], nb) {
        FloodNeverRevealsMine(field[..], nb, index, before, revealed[..], trail);
      }
    }

    /**
     * Reveals every hidden neighbour of cell `k`, expanding further from each
     * one that is a zero.
     */
    method PopFieldVoid(k: nat) returns (ghost trail: seq<nat>)
      requires Shaped() && k < field.Length
      modifies revealed
      ensures Grows(old(revealed[..]), revealed[..])
      ensures Records(old(revealed[..]), revealed[..], trail)
      ensures ZeroClosed(old(revealed[..]), revealed[..], field[..], nb)
      ensures Expanded(revealed[..], nb, k)
      ensures Spreads(field[..], nb, k, trail)
      decreases field.Length - Count(revealed[..]), 2
    {
      var ns := Neighbors(width, height, k);
      ghost var start := revealed[..];
      assert nb[k] == ns;
      trail := [];
      for t := 0 to |ns|
        invariant Grows(start, revealed[..])
        invariant Records(start, revealed[..], trail)
        invariant ZeroClosed(start, revealed[..], field[..], nb)
        invariant Spreads(field[..], nb, k, trail)
        invariant AllRevealed(revealed[..], ns[..t])
      {
        ghost var prev := revealed[..];
        CountMonotone(start, prev);
        var part := PopNeighbor(k, ns[t]);
        GrowsTrans(start, prev, revealed[..]);
        ZeroClosedTrans(start, prev, revealed[..], field[..], nb);
        RecordsTrans(start, prev, revealed[..], trail, part);
        SpreadsConcat(field[..], nb, k, trail, part);
        trail := trail + part;
        AllRevealedStep(prev, revealed[..], ns, t);
      }
      assert ns[..|ns|] == ns;
    }

    /**
     * What the flood does with one neighbour `n` of cell `k`: a hidden one is
     * revealed and, when it is a zero, expanded once more. The ghost `part`
     * lists the cells revealed, in order.
     */
    method PopNeighbor(k: nat, n: nat) returns (ghost part: seq<nat>)
      requires Shaped() && k < field.Length && n in nb[k]
      modifies revealed
      ensures revealed[n]
      ensures Grows(old(revealed[..]), revealed[..])
      ensures Records(old(revealed[..]), revealed[..], part)
      ensures ZeroClosed(old(revealed[..]), revealed[..], field[..], nb)
      ensures Spreads(field[..], nb, k, part)
      ensures old(revealed[n]) ==> part == []
      ensures !old(revealed[n]) ==> RevealTrail(field[..], nb, n, part)
      decreases field.Length - Count(revealed[..]), 1
    {
      if revealed[n] {
        part := [];
        return;
      }
      ghost var start := revealed[..];
      var _, first := Reveal(n);
      ghost var mid := revealed[..];
      var v := first[1..];
      assert first == [n] + v;
      if field[n] == NO_MINE {
        CountStrict(start, mid, n);
        var again := PopFieldVoid(n);
        GrowsTrans(start, mid, revealed[..]);
        ZeroClosedTrans(start, mid, revealed[..], field[..], nb);
        RecordsTrans(start, mid, revealed[..], first, again);
        SpreadsConcat(field[..], nb, n, v, again);
        v := v + again;
        assert first + again == [n] + v;
      }
      SpreadsCons(field[..], nb, k, n, v);
      part := [n] + v;
      assert part[1..] == v;
    }

    /** Cycles the flag state of cell `index` and keeps the flag counter in step. */
    method Flag(index: nat) returns (state: int)
      requires Valid() && index < flagged.Length
      modifies flagged, this`flags
      ensures Valid() && (old(Sound()) ==> Sound())
      ensures state == flagged[index]
      ensures flagged[..] == old(flagged[..])[index := NextFlag(old(flagged[index]))]
      ensures flags == old(flags) + (if flagged[index] == FLAG then 1 else if flagged[index] == FLAG_QUESTION then -1 else 0)
    {
      ghost var g := flagged[..];
      flagged[index] := (flagged[index] + FLAG) % (FLAG_QUESTION + FLAG);
      flags := if flagged[index] == FLAG then flags + FLAG
               else if flagged[index] == FLAG_QUESTION then flags - FLAG
               else flags;
      assert flagged[..] == g[index := flagged[index]];
      FlagChanged(g, index, flagged[index]);
      state := flagged[index];
    }

    /** The win test on the current board. */
    predicate HasWon()
      reads this, field, revealed
      requires field.Length == revealed.Length
    {
      Won(field[..], revealed[..], totalMines)
    }

    /** Scans the board, giving up at the first hidden safe cell, then compares the revealed count. */
    method CheckWin() returns (won: bool)
      requires field.Length == revealed.Length
      ensures won == HasWon()
    {
      var numRevealed := NO_MINE;
      for i := 0 to field.Length
        invariant numRevealed == Count(revealed[..i])
        invariant forall j :: 0 <= j < i && !revealed[j] ==> field[j] == MINE
      {
        CountPrefix(revealed[..], i);
        assert revealed[..i + 1] == revealed[..][..i + 1];
        if revealed[i] {
          numRevealed := numRevealed + 1;
        } else if field[i] != MINE {
          return false;
        } else {
          continue;
        }
      }
      assert revealed[..field.Length] == revealed[..];
      won := numRevealed == field.Length - totalMines;
    }

    /**
     * Relocates every mine the player has not flagged onto a random hidden
     * empty cell, recomputes the counts, and expands every revealed zero.
     * The precondition is what makes the placement loop terminate: each
     * moved mine sits on a hidden cell, so enough hidden cells are free.
     */
    method RandomizeRemaining() returns (ghost trail: seq<nat>)
      requires Valid()
      requires forall i :: 0 <= i < field.Length && field[i] == MINE && flagged[i] != FLAG ==> !revealed[i]
      modifies field, revealed
      ensures Valid() && (old(Sound()) ==> Sound())
      ensures Consistent(field[..], width, height)
      ensures MinesIn(field[..]) == old(MinesIn(field[..]))
      ensures forall i :: 0 <= i < field.Length && old(field[i]) == MINE && flagged[i] == FLAG ==> field[i] == MINE
      ensures forall i :: 0 <= i < field.Length && field[i] == MINE ==> (old(field[i]) == MINE && flagged[i] == FLAG) || !old(revealed[i])
      ensures Grows(old(revealed[..]), revealed[..])
      ensures forall i :: 0 <= i < field.Length && !old(revealed[i]) && revealed[i] ==> field[i] != MINE
      ensures forall i :: 0 <= i < field.Length && revealed[i] && field[i] == NO_MINE ==> Expanded(revealed[..], nb, i)
      ensures Records(old(revealed[..]), revealed[..], trail)
      ensures SpreadsFrom(field[..], nb, old(revealed[..]), trail)
    {
      ghost var f0 := field[..];
      var regenMine := ClearUnflagged();
      MinesSplit(f0, flagged[..]);
      assert MineMask(field[..]) == KeptMask(f0, flagged[..]);
      CountMonotone(MovedMask(f0, flagged[..]), FreeMask(field[..], revealed[..]));
      PlaceRelocated(regenMine);
      ghost var placedField := field[..];
      CountPass();
      assert MineMask(field[..]) == MineMask(placedField);
      CountsMatchZerosClear(field[..], nb);
      CountsMatchConsistent(field[..], width, height, nb);
      trail := ExpandRevealedZeros();
    }

    /** Clears every cell except the flagged mines and reports how many mines it removed. */
    method ClearUnflagged() returns (regenMine: nat)
      requires Shaped()
      modifies field
      ensures regenMine == Count(MovedMask(old(field[..]), flagged[..]))
      ensures forall j :: 0 <= j < field.Length ==> field[j] == (if old(field[j]) == MINE && flagged[j] == FLAG then MINE else NO_MINE)
    {
      ghost var f0 := field[..];
      ghost var moved := MovedMask(f0, flagged[..]);
      regenMine := NO_MINE;
      for i := 0 to field.Length
        invariant regenMine == Count(moved[..i])
        invariant forall j :: 0 <= j < i ==> field[j] == (if f0[j] == MINE && flagged[j] == FLAG then MINE else NO_MINE)
        invariant forall j :: i <= j < field.Length ==> field[j] == f0[j]
      {
        CountPrefix(moved, i);
        if field[i] == MINE && flagged[i] == FLAG {
          continue;
        }
        if field[i] == MINE {
          regenMine := regenMine + 1;
        }
        field[i] := NO_MINE;
      }
      CountAll(moved);
    }

    /** Puts `regenMine` mines, one at a time, on randomly chosen hidden empty cells. */
    method PlaceRelocated(regenMine: nat)
      requires Shaped()
      requires forall j :: 0 <= j < field.Length ==> field[j] == MINE || field[j] == NO_MINE
      requires Count(FreeMask(field[..], revealed[..])) >= regenMine
      modifies field
      ensures forall j :: 0 <= j < field.Length && old(field[j]) == MINE ==> field[j] == MINE
      ensures forall j :: 0 <= j < field.Length && field[j] == MINE ==> old(field[j]) == MINE || !revealed[j]
      ensures MinesIn(field[..]) == old(MinesIn(field[..])) + regenMine
      ensures forall j :: 0 <= j < field.Length ==> field[j] == MINE || field[j] == NO_MINE
    {
      ghost var f0 := field[..];
      var placed := NO_MINE;
      while placed < regenMine
        invariant 0 <= placed <= regenMine
        invariant forall j :: 0 <= j < field.Length ==> field[j] == MINE || field[j] == NO_MINE
        invariant forall j :: 0 <= j < field.Length && f0[j] == MINE ==> field[j] == MINE
        invariant forall j :: 0 <= j < field.Length && field[j] == MINE ==> f0[j] == MINE || !revealed[j]
        invariant MinesIn(field[..]) == MinesIn(f0) + placed
        invariant Count(FreeMask(field[..], revealed[..])) >= regenMine - placed
      {
        CountZero(FreeMask(field[..], revealed[..]));
        var index :| 0 <= index < field.Length && field[index] == NO_MINE && !revealed[index];
        ghost var f1 := field[..];
        field[index] := MINE;
        assert field[..] == f1[index := MINE];
        MineOnFreeCell(f1, revealed[..], index);
        placed := placed + 1;
      }
    }

    /**
     * Expands every revealed zero cell, in cell order. The ghost `trail`
     * lists the cells this uncovers, each one reached through zero cells from
     * a zero that was already revealed.
     */
    method ExpandRevealedZeros() returns (ghost trail: seq<nat>)
      requires Shaped() && ZerosClear(field[..], nb)
      modifies revealed
      ensures Grows(old(revealed[..]), revealed[..])
      ensures Records(old(revealed[..]), revealed[..], trail)
      ensures SpreadsFrom(field[..], nb, old(revealed[..]), trail)
      ensures forall j :: 0 <= j < field.Length && !old(revealed[j]) && revealed[j] ==> field[j] != MINE
      ensures forall j :: 0 <= j < field.Length && revealed[j] && field[j] == NO_MINE ==> Expanded(revealed[..], nb, j)
    {
      ghost var r1 := revealed[..];
      trail := [];
      for i := 0 to field.Length
        invariant Grows(r1, revealed[..])
        invariant Records(r1, revealed[..], trail)
        invariant SpreadsFrom(field[..], nb, r1, trail)
        invariant forall j :: 0 <= j < field.Length && !r1[j] && revealed[j] ==> field[j] != MINE
        invariant forall j :: 0 <= j < field.Length && revealed[j] && field[j] == NO_MINE && (j < i || !r1[j]) ==> Expanded(revealed[..], nb, j)
      {
        if revealed[i] && field[i] == NO_MINE {
          ghost var mid := revealed[..];
          assert r1[i] || i in trail;
          var t := PopFieldVoid(i);
          SpreadNeverHitsMine(field[..], nb, i, t);
          GrowsTrans(r1, mid, revealed[..]);
          RecordsTrans(r1, mid, revealed[..], trail, t);
          SpreadsFromExtend(field[..], nb, r1, trail, i, t);
          trail := trail + t;
        }
      }
    }
  }
}
