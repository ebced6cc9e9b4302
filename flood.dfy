/**
 * What the recursive reveal ("flood fill") of the board does to the
 * revealed mask, stated over sequences and over a neighbour table `nb`
 * (`nb[m]` lists the neighbours of cell `m`, as `Grid.Board` builds it), so
 * that the board's methods and the lemmas about them share one vocabulary.
 */
module Flood {
  import opened Grid

  /** Every listed neighbour is a cell of the board. */
  ghost predicate Table(nb: seq<seq<nat>>)
  {
    forall m, k :: 0 <= m < |nb| && 0 <= k < |nb[m]| ==> nb[m][k] < |nb|
  }

  /** `after` keeps every cell `before` had revealed: a reveal never hides a cell. */
  ghost predicate Grows(before: seq<bool>, after: seq<bool>)
  {
    |before| == |after| && forall i :: 0 <= i < |before| && before[i] ==> after[i]
  }

  /** Every neighbour of cell `j` is revealed. */
  ghost predicate Expanded(r: seq<bool>, nb: seq<seq<nat>>, j: nat)
    requires Table(nb) && |r| == |nb| && j < |nb|
  {
    forall n :: n in nb[j] ==> r[n]
  }

  /** Every cell listed in `ns` is revealed. */
  ghost predicate AllRevealed(r: seq<bool>, ns: seq<nat>)
  {
    forall q :: 0 <= q < |ns| ==> ns[q] < |r| && r[ns[q]]
  }

  /** Revealing more keeps a listed prefix revealed, and a revealed next entry extends it. */
  lemma AllRevealedStep(a: seq<bool>, b: seq<bool>, ns: seq<nat>, t: nat)
    requires Grows(a, b) && t < |ns| && AllRevealed(a, ns[..t])
    requires ns[t] < |b| && b[ns[t]]
    ensures AllRevealed(b, ns[..t + 1])
  {
    assert forall q :: 0 <= q < t ==> ns[..t + 1][q] == ns[..t][q];
  }

  /**
   * Every zero cell that went from hidden to revealed had all its neighbours
   * revealed too: the expansion reached its border.
   */
  ghost predicate ZeroClosed(before: seq<bool>, after: seq<bool>, f: seq<int>, nb: seq<seq<nat>>)
  {
    && Table(nb) && |f| == |nb| && |before| == |f| && |after| == |f|
    && forall j :: 0 <= j < |f| && !before[j] && after[j] && f[j] == NO_MINE ==> Expanded(after, nb, j)
  }

  /** Zero cell `m` passes the expansion on to its neighbour `j`. */
  ghost predicate Feeds(f: seq<int>, nb: seq<seq<nat>>, m: nat, j: nat)
  {
    m < |f| && m < |nb| && f[m] == NO_MINE && j in nb[m]
  }

  /** The `s`-th cell of trail `t` is a neighbour of `origin` or is fed by an earlier zero of `t`. */
  ghost predicate FedAt(f: seq<int>, nb: seq<seq<nat>>, origin: nat, t: seq<nat>, s: nat)
  {
    && origin < |nb| && s < |t|
    && (t[s] in nb[origin] || exists p :: 0 <= p < s && Feeds(f, nb, t[p], t[s]))
  }

  /**
   * `t` lists cells in the order they were revealed, each one a neighbour of
   * `origin` or of a zero cell listed before it: expansion only continues
   * through cells whose value is 0.
   */
  ghost predicate Spreads(f: seq<int>, nb: seq<seq<nat>>, origin: nat, t: seq<nat>)
  {
    && |f| == |nb|
    && (forall s :: 0 <= s < |t| ==> t[s] < |f|)
    && forall s :: 0 <= s < |t| ==> FedAt(f, nb, origin, t, s)
  }

  /** The cells newly revealed between `before` and `after` are exactly those of `t`. */
  ghost predicate Records(before: seq<bool>, after: seq<bool>, t: seq<nat>)
  {
    |before| == |after| && forall j :: 0 <= j < |after| ==> (!before[j] && after[j] <==> j in t)
  }

  /** The trail of one `reveal` call: the cell itself, then, if it is a zero, what spread from it. */
  ghost predicate RevealTrail(f: seq<int>, nb: seq<seq<nat>>, index: nat, t: seq<nat>)
  {
    && |f| == |nb| && index < |f|
    && t != [] && t[0] == index
    && (f[index] != NO_MINE ==> t == [index])
    && Spreads(f, nb, index, t[1..])
  }

  lemma GrowsTrans(a: seq<bool>, b: seq<bool>, c: seq<bool>)
    requires Grows(a, b) && Grows(b, c)
    ensures Grows(a, c)
  {
  }

  /** Two reveals in a row newly reveal what each of them did. */
  lemma RecordsTrans(a: seq<bool>, b: seq<bool>, c: seq<bool>, t1: seq<nat>, t2: seq<nat>)
    requires Grows(a, b) && Grows(b, c) && Records(a, b, t1) && Records(b, c, t2)
    ensures Records(a, c, t1 + t2)
  {
  }

  /** Two reveals in a row leave every zero they uncovered expanded. */
  lemma ZeroClosedTrans(a: seq<bool>, b: seq<bool>, c: seq<bool>, f: seq<int>, nb: seq<seq<nat>>)
    requires Grows(a, b) && Grows(b, c) && ZeroClosed(a, b, f, nb) && ZeroClosed(b, c, f, nb)
    ensures ZeroClosed(a, c, f, nb)
  {
  }

  /** Revealing `index` and then expanding it fully leaves every uncovered zero expanded. */
  lemma ZeroClosedFromOrigin(before: seq<bool>, mid: seq<bool>, after: seq<bool>, f: seq<int>, nb: seq<seq<nat>>, index: nat)
    requires Table(nb) && |f| == |nb| && |before| == |f| && index < |f|
    requires mid == before[index := true]
    requires Grows(mid, after) && ZeroClosed(mid, after, f, nb) && Expanded(after, nb, index)
    ensures ZeroClosed(before, after, f, nb)
  {
  }

  /** Position `q` of `b` keeps its justification at position `|a| + q` of `a + b`. */
  lemma FedShift(f: seq<int>, nb: seq<seq<nat>>, origin: nat, a: seq<nat>, b: seq<nat>, q: nat)
    requires FedAt(f, nb, origin, b, q)
    ensures FedAt(f, nb, origin, a + b, |a| + q)
  {
    var t := a + b;
    assert t[|a| + q] == b[q];
    if b[q] !in nb[origin] {
      var p :| 0 <= p < q && Feeds(f, nb, b[p], b[q]);
      assert t[|a| + p] == b[p];
    }
  }

  /** Position `s` of `a` keeps its justification in `a + b`. */
  lemma FedPrefix(f: seq<int>, nb: seq<seq<nat>>, origin: nat, a: seq<nat>, b: seq<nat>, s: nat)
    requires FedAt(f, nb, origin, a, s)
    ensures FedAt(f, nb, origin, a + b, s)
  {
    var t := a + b;
    assert t[s] == a[s];
    if a[s] !in nb[origin] {
      var p :| 0 <= p < s && Feeds(f, nb, a[p], a[s]);
      assert t[p] == a[p];
    }
  }

  /** Two trails spreading from the same origin, one after the other, spread from it. */
  lemma SpreadsConcat(f: seq<int>, nb: seq<seq<nat>>, origin: nat, a: seq<nat>, b: seq<nat>)
    requires Spreads(f, nb, origin, a) && Spreads(f, nb, origin, b)
    ensures Spreads(f, nb, origin, a + b)
  {
    var t := a + b;
    forall s | 0 <= s < |t| ensures FedAt(f, nb, origin, t, s) {
      if s < |a| {
        FedPrefix(f, nb, origin, a, b, s);
      } else {
        FedShift(f, nb, origin, a, b, s - |a|);
      }
    }
  }

  /** A trail spreading from zero cell `n` still spreads from `origin` once `n` is listed before it. */
  lemma SpreadsVia(f: seq<int>, nb: seq<seq<nat>>, origin: nat, n: nat, v: seq<nat>, q: nat)
    requires Spreads(f, nb, n, v) && n < |f| && f[n] == NO_MINE && q < |v| && origin < |nb|
    ensures FedAt(f, nb, origin, [n] + v, q + 1)
  {
    var t := [n] + v;
    assert t[q + 1] == v[q] && t[0] == n;
    assert FedAt(f, nb, n, v, q);
    if v[q] in nb[n] {
      assert Feeds(f, nb, t[0], t[q + 1]);
    } else {
      var p :| 0 <= p < q && Feeds(f, nb, v[p], v[q]);
      assert t[p + 1] == v[p];
      assert Feeds(f, nb, t[p + 1], t[q + 1]);
    }
  }

  /** A neighbour `n` of `origin` followed by what spread from it spreads from `origin`. */
  lemma SpreadsCons(f: seq<int>, nb: seq<seq<nat>>, origin: nat, n: nat, v: seq<nat>)
    requires Table(nb) && origin < |nb|
    requires Spreads(f, nb, n, v)
    requires n in nb[origin]
    requires v != [] ==> f[n] == NO_MINE
    ensures Spreads(f, nb, origin, [n] + v)
  {
    var u := [n] + v;
    forall s | 0 <= s < |u| ensures FedAt(f, nb, origin, u, s) {
      if s == 0 {
        assert u[0] == n;
      } else {
        SpreadsVia(f, nb, origin, n, v, s - 1);
      }
    }
  }

  /**
   * The `s`-th cell of trail `t` is a neighbour of a zero cell that `seeds`
   * marks, or of a zero cell listed earlier in `t`.
   */
  ghost predicate FedFrom(f: seq<int>, nb: seq<seq<nat>>, seeds: seq<bool>, t: seq<nat>, s: nat)
  {
    && s < |t|
    && ((exists m :: 0 <= m < |seeds| && seeds[m] && Feeds(f, nb, m, t[s]))
        || exists p :: 0 <= p < s && Feeds(f, nb, t[p], t[s]))
  }

  /**
   * `t` lists cells in the order they were revealed, each one reached from a
   * zero cell marked in `seeds` through zero cells only.
   */
  ghost predicate SpreadsFrom(f: seq<int>, nb: seq<seq<nat>>, seeds: seq<bool>, t: seq<nat>)
  {
    && |f| == |nb|
    && (forall s :: 0 <= s < |t| ==> t[s] < |f|)
    && forall s :: 0 <= s < |t| ==> FedFrom(f, nb, seeds, t, s)
  }

  /**
   * Appending what spread from a zero cell `i` keeps a trail spreading from
   * `seeds`, provided `i` is marked in `seeds` or already on the trail.
   */
  lemma SpreadsFromExtend(f: seq<int>, nb: seq<seq<nat>>, seeds: seq<bool>, a: seq<nat>, i: nat, t: seq<nat>)
    requires SpreadsFrom(f, nb, seeds, a) && Spreads(f, nb, i, t)
    requires i < |f| && f[i] == NO_MINE
    requires (i < |seeds| && seeds[i]) || i in a
    ensures SpreadsFrom(f, nb, seeds, a + t)
  {
    var u := a + t;
    forall s | 0 <= s < |u| ensures FedFrom(f, nb, seeds, u, s) {
      if s < |a| {
        assert u[s] == a[s] && FedFrom(f, nb, seeds, a, s);
        if !exists m :: 0 <= m < |seeds| && seeds[m] && Feeds(f, nb, m, a[s]) {
          var p :| 0 <= p < s && Feeds(f, nb, a[p], a[s]);
          assert u[p] == a[p];
        }
      } else {
        var q := s - |a|;
        assert u[s] == t[q];
        assert FedAt(f, nb, i, t, q);
        if t[q] in nb[i] {
          if i < |seeds| && seeds[i] {
            assert Feeds(f, nb, i, u[s]);
          } else {
            var p :| 0 <= p < |a| && a[p] == i;
            assert u[p] == i && Feeds(f, nb, u[p], u[s]);
          }
        } else {
          var p :| 0 <= p < q && Feeds(f, nb, t[p], t[q]);
          assert u[|a| + p] == t[p];
          assert Feeds(f, nb, u[|a| + p], u[s]);
        }
      }
    }
  }

  /** No neighbour of a zero cell is a mine. */
  ghost predicate ZerosClear(f: seq<int>, nb: seq<seq<nat>>)
  {
    |f| == |nb| && Table(nb)
    && forall m, n :: 0 <= m < |f| && f[m] == NO_MINE && n in nb[m] ==> f[n] != MINE
  }

  /** `nb` lists, for every cell of a `w` by `h` board, the cells `Neighbors` enumerates. */
  ghost predicate Lists(nb: seq<seq<nat>>, w: nat, h: nat)
    requires w > 0
  {
    |nb| == w * h && forall i {:trigger Neighbors(w, h, i)} :: 0 <= i < |nb| ==> nb[i] == Neighbors(w, h, i)
  }

  lemma BoardLists(w: nat, h: nat)
    requires w > 0
    ensures Lists(Board(w, h), w, h) && Table(Board(w, h))
  {
  }

  /** Every non-mine cell holds the number of mines among the neighbours `nb` lists for it. */
  ghost predicate CountsMatch(f: seq<int>, nb: seq<seq<nat>>)
  {
    && |f| == |nb| && Table(nb)
    && forall i :: 0 <= i < |f| && f[i] != MINE ==> f[i] == MinesAmong(f, nb[i])
  }

  /** Over the board's own neighbour lists, matching counts is consistency. */
  lemma CountsMatchConsistent(f: seq<int>, w: nat, h: nat, nb: seq<seq<nat>>)
    requires w > 0 && Lists(nb, w, h) && Table(nb) && |f| == |nb|
    ensures CountsMatch(f, nb) <==> Consistent(f, w, h)
  {
    forall i | 0 <= i < |f| ensures MinesAmong(f, nb[i]) == MineCount(f, w, h, i) {
      assert nb[i] == Neighbors(w, h, i);
    }
  }

  /** A field whose counts match has no mine next to a zero. */
  lemma CountsMatchZerosClear(f: seq<int>, nb: seq<seq<nat>>)
    requires CountsMatch(f, nb)
    ensures ZerosClear(f, nb)
  {
    forall m | 0 <= m < |f| && f[m] == NO_MINE ensures forall n :: n in nb[m] ==> f[n] != MINE {
      MinesAmongZero(f, nb[m]);
    }
  }

  /** Nothing a zero cell spreads to is a mine when no zero has a mine neighbour. */
  lemma SpreadNeverHitsMine(f: seq<int>, nb: seq<seq<nat>>, origin: nat, t: seq<nat>)
    requires ZerosClear(f, nb) && origin < |f| && f[origin] == NO_MINE
    requires Spreads(f, nb, origin, t)
    ensures forall s :: 0 <= s < |t| ==> f[t[s]] != MINE
  {
    forall s | 0 <= s < |t| ensures f[t[s]] != MINE {
      assert FedAt(f, nb, origin, t, s);
      if t[s] !in nb[origin] {
        var p :| 0 <= p < s && Feeds(f, nb, t[p], t[s]);
      }
    }
  }

  /**
   * When no zero has a mine neighbour (as on a consistent field), a reveal
   * that did not hit a mine uncovers no mine at all: every other cell it
   * reveals is next to a revealed zero.
   */
  lemma FloodNeverRevealsMine(f: seq<int>, nb: seq<seq<nat>>, index: nat, before: seq<bool>, after: seq<bool>, t: seq<nat>)
    requires ZerosClear(f, nb) && RevealTrail(f, nb, index, t) && Records(before, after, t)
    requires f[index] != MINE
    ensures forall j :: 0 <= j < |after| && !before[j] && after[j] ==> f[j] != MINE
  {
    if f[index] == NO_MINE {
      SpreadNeverHitsMine(f, nb, index, t[1..]);
    }
    forall j | 0 <= j < |after| && !before[j] && after[j] ensures f[j] != MINE {
      var s :| 0 <= s < |t| && t[s] == j;
      if s > 0 {
        assert t[1..][s - 1] == j;
      }
    }
  }
}
