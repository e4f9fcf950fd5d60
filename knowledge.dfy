/**
 * The knowledge base of the Minesweeper engine as a list of sentence values:
 * the measures the inference loop shrinks, the list updates it performs
 * (mark a cell everywhere, Python's `list.remove`, pruning empty sentences),
 * and the facts that make the loop terminate and stay sound.
 */
module Knowledge {
  import opened Cells
  import opened Sentences

  /** The number of cells summed over all sentences: the loop's termination measure. */
  function TotalCells(ks: seq<Sentence>): nat {
    if ks == [] then 0 else |ks[0].cells| + TotalCells(ks[1..])
  }

  /** Every cell some sentence mentions. */
  function Mentioned(ks: seq<Sentence>): set<Cell> {
    if ks == [] then {} else ks[0].cells + Mentioned(ks[1..])
  }

  /** A cell is mentioned exactly when some sentence holds it. */
  lemma {:induction false} MentionedSpec(ks: seq<Sentence>)
    ensures forall m :: 0 <= m < |ks| ==> ks[m].cells <= Mentioned(ks)
    ensures forall c :: c in Mentioned(ks) ==> exists m :: 0 <= m < |ks| && c in ks[m].cells
  {
    if ks != [] {
      MentionedSpec(ks[1..]);
      forall m | 0 < m < |ks| ensures ks[m].cells <= Mentioned(ks) {
        assert ks[m] == ks[1..][m - 1];
      }
      forall c | c in Mentioned(ks) ensures exists m :: 0 <= m < |ks| && c in ks[m].cells {
        if c !in ks[0].cells {
          var m :| 0 <= m < |ks| - 1 && c in ks[1..][m].cells;
          assert c in ks[m + 1].cells;
        }
      }
    }
  }

  /** `mark_mine(c)` applied to every sentence of the list. */
  function MarkMineAll(ks: seq<Sentence>, c: Cell): seq<Sentence> {
    seq(|ks|, m requires 0 <= m < |ks| => ks[m].MarkMine(c))
  }

  /** `mark_safe(c)` applied to every sentence of the list. */
  function MarkSafeAll(ks: seq<Sentence>, c: Cell): seq<Sentence> {
    seq(|ks|, m requires 0 <= m < |ks| => ks[m].MarkSafe(c))
  }

  /** Marking the same cell twice in every sentence, as a mine or as safe, equals marking it once. */
  lemma MarkAllTwice(ks: seq<Sentence>, c: Cell)
    ensures MarkMineAll(MarkMineAll(ks, c), c) == MarkMineAll(ks, c)
    ensures MarkSafeAll(MarkSafeAll(ks, c), c) == MarkSafeAll(ks, c)
  {
    forall m | 0 <= m < |ks|
      ensures ks[m].MarkMine(c).MarkMine(c) == ks[m].MarkMine(c)
      ensures ks[m].MarkSafe(c).MarkSafe(c) == ks[m].MarkSafe(c)
    {
      MarkTwice(ks[m], c);
    }
  }

  /** Python's `list.remove(x)`: drop the first element equal to `x`. */
  function RemoveFirst<T(==)>(xs: seq<T>, x: T): (r: seq<T>)
    ensures x in xs ==> |r| == |xs| - 1
    ensures multiset(r) == multiset(xs) - multiset{x}
  {
    if xs == [] then []
    else if xs[0] == x then
      assert xs == [xs[0]] + xs[1..];
      xs[1..]
    else
      assert xs == [xs[0]] + xs[1..];
      [xs[0]] + RemoveFirst(xs[1..], x)
  }

  /** The list without its empty sentences, in order. */
  function Pruned(ks: seq<Sentence>): (r: seq<Sentence>)
    ensures forall s :: s in r <==> s in ks && s.cells != {}
  {
    if ks == [] then []
    else
      var last := ks[|ks| - 1];
      assert ks == ks[..|ks| - 1] + [last];
      Pruned(ks[..|ks| - 1]) + (if last.cells != {} then [last] else [])
  }

  /** Two sentences at different positions where the first one's cells are a subset of the second's. */
  predicate SubsetPair(ks: seq<Sentence>, i: int, j: int) {
    0 <= i < |ks| && 0 <= j < |ks| && i != j && ks[i].cells <= ks[j].cells
  }

  /**
   * The fixed point of the inference loop: no sentence is empty, none
   * yields a known mine or a known safe cell, and no subset rule applies.
   */
  ghost predicate Saturated(ks: seq<Sentence>) {
    && (forall s :: s in ks ==> s.cells != {} && |s.cells| != s.count && s.count != 0)
    && (forall i, j :: !SubsetPair(ks, i, j))
  }

  /** Every sentence is true of the mine layout. */
  ghost predicate AllHold(ks: seq<Sentence>, layout: set<Cell>) {
    forall s :: s in ks ==> Holds(s, layout)
  }

  /** The engine's whole state agrees with the mine layout. */
  ghost predicate Sound(mines: set<Cell>, safes: set<Cell>, ks: seq<Sentence>, layout: set<Cell>) {
    mines <= layout && safes !! layout && AllHold(ks, layout)
  }

  lemma {:induction false} TotalCellsAppend(a: seq<Sentence>, b: seq<Sentence>)
    ensures TotalCells(a + b) == TotalCells(a) + TotalCells(b)
    ensures Mentioned(a + b) == Mentioned(a) + Mentioned(b)
  {
    if a == [] {
      assert a + b == b;
    } else {
      assert (a + b)[1..] == a[1..] + b;
      TotalCellsAppend(a[1..], b);
    }
  }

  /**
   * Shrinking sentences one by one never grows the measure nor the mentioned
   * cells, and shrinking at least one strictly lowers the measure.
   */
  lemma {:induction false} Shrink(a: seq<Sentence>, b: seq<Sentence>)
    requires |a| == |b|
    requires forall m :: 0 <= m < |a| ==> b[m].cells <= a[m].cells
    ensures TotalCells(b) <= TotalCells(a)
    ensures Mentioned(b) <= Mentioned(a)
    ensures (exists m :: 0 <= m < |a| && b[m].cells != a[m].cells) ==> TotalCells(b) < TotalCells(a)
  {
    if a != [] {
      Shrink(a[1..], b[1..]);
      SubsetCard(b[0].cells, a[0].cells);
      if exists m :: 0 <= m < |a| && b[m].cells != a[m].cells {
        var m :| 0 <= m < |a| && b[m].cells != a[m].cells;
        if m > 0 {
          assert b[1..][m - 1].cells != a[1..][m - 1].cells;
        }
      }
    }
  }

  /**
   * Shrinking every sentence by removing the cells `cs` removes exactly those
   * from the mentioned cells and strictly lowers the measure when one of
   * them was mentioned.
   */
  lemma {:induction false} RemoveCellsEverywhere(a: seq<Sentence>, b: seq<Sentence>, cs: set<Cell>)
    requires |a| == |b|
    requires forall m :: 0 <= m < |a| ==> b[m].cells == a[m].cells - cs
    ensures Mentioned(b) == Mentioned(a) - cs
    ensures TotalCells(b) <= TotalCells(a)
    ensures forall m, c :: 0 <= m < |a| && c in a[m].cells && c in cs ==> TotalCells(b) < TotalCells(a)
  {
    Shrink(a, b);
    MentionedSpec(a);
    MentionedSpec(b);
    forall x | x in Mentioned(a) - cs ensures x in Mentioned(b) {
      var m :| 0 <= m < |a| && x in a[m].cells;
      assert x in b[m].cells;
    }
    forall x | x in Mentioned(b) ensures x !in cs {
      var m :| 0 <= m < |b| && x in b[m].cells;
    }
    forall m, c | 0 <= m < |a| && c in a[m].cells && c in cs ensures TotalCells(b) < TotalCells(a) {
      assert c !in b[m].cells;
      assert b[m].cells != a[m].cells;
    }
  }

  /**
   * Marking `c` as a mine everywhere removes exactly `c` from the mentioned
   * cells, keeps the number of sentences, strictly lowers the measure when
   * `c` was mentioned, and keeps true sentences true when `c` is a mine.
   */
  lemma {:induction false} MarkMineAllEffect(ks: seq<Sentence>, c: Cell, layout: set<Cell>)
    ensures |MarkMineAll(ks, c)| == |ks|
    ensures Mentioned(MarkMineAll(ks, c)) == Mentioned(ks) - {c}
    ensures TotalCells(MarkMineAll(ks, c)) <= TotalCells(ks)
    ensures forall m :: 0 <= m < |ks| && c in ks[m].cells ==> TotalCells(MarkMineAll(ks, c)) < TotalCells(ks)
    ensures AllHold(ks, layout) && c in layout ==> AllHold(MarkMineAll(ks, c), layout)
  {
    var r := MarkMineAll(ks, c);
    assert forall m :: 0 <= m < |ks| ==> r[m].cells == ks[m].cells - {c};
    RemoveCellsEverywhere(ks, r, {c});
    if AllHold(ks, layout) && c in layout {
      forall s | s in r ensures Holds(s, layout) {
        var m :| 0 <= m < |r| && r[m] == s;
        MarkMineSound(ks[m], c, layout);
      }
    }
  }

  /** The same for marking `c` as safe, which keeps sentences true when `c` is not a mine. */
  lemma {:induction false} MarkSafeAllEffect(ks: seq<Sentence>, c: Cell, layout: set<Cell>)
    ensures |MarkSafeAll(ks, c)| == |ks|
    ensures Mentioned(MarkSafeAll(ks, c)) == Mentioned(ks) - {c}
    ensures TotalCells(MarkSafeAll(ks, c)) <= TotalCells(ks)
    ensures forall m :: 0 <= m < |ks| && c in ks[m].cells ==> TotalCells(MarkSafeAll(ks, c)) < TotalCells(ks)
    ensures AllHold(ks, layout) && c !in layout ==> AllHold(MarkSafeAll(ks, c), layout)
  {
    var r := MarkSafeAll(ks, c);
    RemoveCellsEverywhere(ks, r, {c});
    if AllHold(ks, layout) && c !in layout {
      forall s | s in r ensures Holds(s, layout) {
        var m :| 0 <= m < |r| && r[m] == s;
        MarkSafeSound(ks[m], c, layout);
      }
    }
  }

  /** Removing a present sentence takes exactly its cells off the measure and mentions nothing new. */
  lemma {:induction false} RemoveFirstTotal(ks: seq<Sentence>, x: Sentence)
    requires x in ks
    ensures TotalCells(RemoveFirst(ks, x)) == TotalCells(ks) - |x.cells|
    ensures Mentioned(RemoveFirst(ks, x)) <= Mentioned(ks)
  {
    if ks[0] != x {
      RemoveFirstTotal(ks[1..], x);
      TotalCellsAppend([ks[0]], RemoveFirst(ks[1..], x));
      assert ([ks[0]])[1..] == [];
    }
  }

  /** Removal looks past a prefix that does not contain the value. */
  lemma {:induction false} RemoveFirstSkips<T>(a: seq<T>, b: seq<T>, x: T)
    requires x !in a
    ensures RemoveFirst(a + b, x) == a + RemoveFirst(b, x)
  {
    if a == [] {
      assert a + b == b;
    } else {
      assert (a + b)[0] == a[0] && (a + b)[1..] == a[1..] + b;
      RemoveFirstSkips(a[1..], b, x);
    }
  }

  /** Elements left after a removal were in the list. */
  lemma RemoveFirstKeeps<T>(xs: seq<T>, x: T)
    ensures forall y :: y in RemoveFirst(xs, x) ==> y in xs
  {
    forall y | y in RemoveFirst(xs, x) ensures y in xs {
      assert y in multiset(RemoveFirst(xs, x));
    }
  }

  /** Pruning drops only empty sentences: the measure and the mentioned cells are unchanged. */
  lemma {:induction false} PrunedTotal(ks: seq<Sentence>)
    ensures TotalCells(Pruned(ks)) == TotalCells(ks)
    ensures Mentioned(Pruned(ks)) == Mentioned(ks)
  {
    if ks != [] {
      var init, last := ks[..|ks| - 1], ks[|ks| - 1];
      assert ks == init + [last];
      PrunedTotal(init);
      TotalCellsAppend(init, [last]);
      var tail := if last.cells != {} then [last] else [];
      TotalCellsAppend(Pruned(init), tail);
      assert ([last])[1..] == [];
      if tail != [] {
        assert tail[1..] == [];
      }
    }
  }

  /** Every sentence of the list with the cells `cs` marked as mines: `MarkMineAll` repeated over `cs` (see `MarkAllOneMore`). */
  function MarkMinesAll(ks: seq<Sentence>, cs: set<Cell>): (r: seq<Sentence>)
    ensures |r| == |ks| && forall m :: 0 <= m < |ks| ==> r[m] == MarkMines(ks[m], cs)
  {
    if ks == [] then [] else [MarkMines(ks[0], cs)] + MarkMinesAll(ks[1..], cs)
  }

  /** Every sentence of the list with the cells `cs` marked as safe: `MarkSafeAll` repeated over `cs` (see `MarkAllOneMore`). */
  function MarkSafesAll(ks: seq<Sentence>, cs: set<Cell>): (r: seq<Sentence>)
    ensures |r| == |ks| && forall m :: 0 <= m < |ks| ==> r[m] == MarkSafes(ks[m], cs)
  {
    if ks == [] then [] else [MarkSafes(ks[0], cs)] + MarkSafesAll(ks[1..], cs)
  }

  /** The cells of the sentences among the first `n` with exactly as many mines as cells. */
  function FullCells(ks: seq<Sentence>, n: int): set<Cell>
    requires 0 <= n <= |ks|
  {
    if n == 0 then {}
    else FullCells(ks, n - 1) + (if |ks[n - 1].cells| == ks[n - 1].count then ks[n - 1].cells else {})
  }

  /** The cells of the sentences among the first `n` that count no mine. */
  function ZeroCells(ks: seq<Sentence>, n: int): set<Cell>
    requires 0 <= n <= |ks|
  {
    if n == 0 then {}
    else ZeroCells(ks, n - 1) + (if ks[n - 1].count == 0 then ks[n - 1].cells else {})
  }

  /** A cell is among the full cells exactly when one of the first `n` sentences is full and holds it. */
  lemma {:induction false} FullCellsSpec(ks: seq<Sentence>, n: int)
    requires 0 <= n <= |ks|
    ensures forall m :: 0 <= m < n && |ks[m].cells| == ks[m].count ==> ks[m].cells <= FullCells(ks, n)
    ensures forall c :: c in FullCells(ks, n) ==> exists m :: 0 <= m < n && |ks[m].cells| == ks[m].count && c in ks[m].cells
  {
    if n > 0 {
      FullCellsSpec(ks, n - 1);
    }
  }

  /** A cell is among the zero cells exactly when one of the first `n` sentences counts no mine and holds it. */
  lemma {:induction false} ZeroCellsSpec(ks: seq<Sentence>, n: int)
    requires 0 <= n <= |ks|
    ensures forall m :: 0 <= m < n && ks[m].count == 0 ==> ks[m].cells <= ZeroCells(ks, n)
    ensures forall c :: c in ZeroCells(ks, n) ==> exists m :: 0 <= m < n && ks[m].count == 0 && c in ks[m].cells
  {
    if n > 0 {
      ZeroCellsSpec(ks, n - 1);
    }
  }

  /** `cs` is the set of cells of the full sentences among the first `n`. */
  ghost predicate MarksFull(ks: seq<Sentence>, n: int, cs: set<Cell>) {
    && 0 <= n <= |ks|
    && (forall m :: 0 <= m < n && |ks[m].cells| == ks[m].count ==> ks[m].cells <= cs)
    && (forall c :: c in cs ==> exists m :: 0 <= m < n && |ks[m].cells| == ks[m].count && c in ks[m].cells)
  }

  /** `cs` is the set of cells of the sentences among the first `n` that count no mine. */
  ghost predicate MarksZero(ks: seq<Sentence>, n: int, cs: set<Cell>) {
    && 0 <= n <= |ks|
    && (forall m :: 0 <= m < n && ks[m].count == 0 ==> ks[m].cells <= cs)
    && (forall c :: c in cs ==> exists m :: 0 <= m < n && ks[m].count == 0 && c in ks[m].cells)
  }

  /** Over the whole list, the marked cells are the full cells. */
  lemma MarksFullAll(ks: seq<Sentence>, cs: set<Cell>)
    requires MarksFull(ks, |ks|, cs)
    ensures cs == FullCells(ks, |ks|)
  {
    FullCellsSpec(ks, |ks|);
    forall c | c in FullCells(ks, |ks|) ensures c in cs {
      var m :| 0 <= m < |ks| && |ks[m].cells| == ks[m].count && c in ks[m].cells;
    }
    forall c | c in cs ensures c in FullCells(ks, |ks|) {
      var m :| 0 <= m < |ks| && |ks[m].cells| == ks[m].count && c in ks[m].cells;
      assert ks[m].cells <= FullCells(ks, |ks|);
    }
  }

  /** Over the whole list, the marked cells are the zero cells. */
  lemma MarksZeroAll(ks: seq<Sentence>, cs: set<Cell>)
    requires MarksZero(ks, |ks|, cs)
    ensures cs == ZeroCells(ks, |ks|)
  {
    ZeroCellsSpec(ks, |ks|);
    forall c | c in ZeroCells(ks, |ks|) ensures c in cs {
      var m :| 0 <= m < |ks| && ks[m].count == 0 && c in ks[m].cells;
    }
    forall c | c in cs ensures c in ZeroCells(ks, |ks|) {
      var m :| 0 <= m < |ks| && ks[m].count == 0 && c in ks[m].cells;
      assert ks[m].cells <= ZeroCells(ks, |ks|);
    }
  }

  /**
   * The mine pass at position `k`, over `ks` with the full cells before `k`
   * marked: the sentence there is full exactly when it was full in `ks`, so
   * the cells `found` it yields extend the marked cells to the full cells up
   * to `k`.
   */
  lemma MineStepFinds(ks: seq<Sentence>, k: int, cs: set<Cell>, found: set<Cell>)
    requires 0 <= k < |ks| && MarksFull(ks, k, cs)
    requires found == MarkMinesAll(ks, cs)[k].KnownMines()
    ensures MarksFull(ks, k + 1, cs + found)
  {
    var s := ks[k];
    MarkMinesKeepsFull(s, cs);
    assert MarkMinesAll(ks, cs)[k] == MarkMines(s, cs);
    assert found == if |s.cells| == s.count then s.cells - cs else {};
    forall m | 0 <= m < k + 1 && |ks[m].cells| == ks[m].count ensures ks[m].cells <= cs + found {
      if m == k {
        assert s.cells <= cs + (s.cells - cs);
      }
    }
    forall c | c in cs + found
      ensures exists m :: 0 <= m < k + 1 && |ks[m].cells| == ks[m].count && c in ks[m].cells
    {
      if c !in found {
        var m :| 0 <= m < k && |ks[m].cells| == ks[m].count && c in ks[m].cells;
      }
    }
  }

  /** The safe pass at position `k`, which skips an empty sentence. */
  lemma SafeStepFinds(ks: seq<Sentence>, k: int, cs: set<Cell>, found: set<Cell>)
    requires 0 <= k < |ks| && MarksZero(ks, k, cs)
    requires var r := MarkSafesAll(ks, cs)[k];
      found == if r.cells != {} then r.KnownSafes() else {}
    ensures MarksZero(ks, k + 1, cs + found)
  {
    var s := ks[k];
    assert MarkSafesAll(ks, cs)[k] == MarkSafes(s, cs);
    assert found == if s.count == 0 then s.cells - cs else {};
    forall m | 0 <= m < k + 1 && ks[m].count == 0 ensures ks[m].cells <= cs + found {
      if m == k {
        assert s.cells <= cs + (s.cells - cs);
      }
    }
    forall c | c in cs + found ensures exists m :: 0 <= m < k + 1 && ks[m].count == 0 && c in ks[m].cells {
      if c !in found {
        var m :| 0 <= m < k && ks[m].count == 0 && c in ks[m].cells;
      }
    }
  }

  /** Marking one more cell everywhere after a set of them is marking the larger set. */
  lemma MarkAllOneMore(ks: seq<Sentence>, cs: set<Cell>, c: Cell)
    ensures MarkMineAll(MarkMinesAll(ks, cs), c) == MarkMinesAll(ks, cs + {c})
    ensures MarkSafeAll(MarkSafesAll(ks, cs), c) == MarkSafesAll(ks, cs + {c})
  {
    forall m | 0 <= m < |ks|
      ensures MarkMines(ks[m], cs).MarkMine(c) == MarkMines(ks[m], cs + {c})
      ensures MarkSafes(ks[m], cs).MarkSafe(c) == MarkSafes(ks[m], cs + {c})
    {
      MarkOneMore(ks[m], cs, c);
    }
  }

  lemma MarkAllNone(ks: seq<Sentence>)
    ensures MarkMinesAll(ks, {}) == ks && MarkSafesAll(ks, {}) == ks
  {
    forall m | 0 <= m < |ks| ensures MarkMines(ks[m], {}) == ks[m] && MarkSafes(ks[m], {}) == ks[m] {
      MarkNone(ks[m]);
    }
  }

  /**
   * The mine pass over a whole list removes exactly the cells of full
   * sentences from the mentioned cells and lowers the measure when there are
   * any; when there are none it changes nothing and no sentence yields a mine.
   */
  lemma MinePassMeasure(ks: seq<Sentence>)
    ensures var r := MarkMinesAll(ks, FullCells(ks, |ks|));
      && Mentioned(r) == Mentioned(ks) - FullCells(ks, |ks|)
      && TotalCells(r) <= TotalCells(ks)
      && (FullCells(ks, |ks|) != {} ==> TotalCells(r) < TotalCells(ks))
      && (FullCells(ks, |ks|) == {} ==> r == ks && forall s :: s in ks ==> s.KnownMines() == {})
  {
    var cs := FullCells(ks, |ks|);
    FullCellsSpec(ks, |ks|);
    RemoveCellsEverywhere(ks, MarkMinesAll(ks, cs), cs);
    if cs != {} {
      var c :| c in cs;
      var m :| 0 <= m < |ks| && |ks[m].cells| == ks[m].count && c in ks[m].cells;
    } else {
      MarkAllNone(ks);
      forall s | s in ks ensures s.KnownMines() == {} {
        var m :| 0 <= m < |ks| && ks[m] == s;
        if s.cells != {} {
          var c :| c in s.cells;
          assert |s.cells| == s.count ==> c in cs;
        }
      }
    }
  }

  /** The same for the safe pass and the cells of sentences that count no mine. */
  lemma SafePassMeasure(ks: seq<Sentence>)
    ensures var r := MarkSafesAll(ks, ZeroCells(ks, |ks|));
      && Mentioned(r) == Mentioned(ks) - ZeroCells(ks, |ks|)
      && TotalCells(r) <= TotalCells(ks)
      && (ZeroCells(ks, |ks|) != {} ==> TotalCells(r) < TotalCells(ks))
      && (ZeroCells(ks, |ks|) == {} ==> r == ks && forall s :: s in ks ==> s.KnownSafes() == {})
  {
    var cs := ZeroCells(ks, |ks|);
    ZeroCellsSpec(ks, |ks|);
    RemoveCellsEverywhere(ks, MarkSafesAll(ks, cs), cs);
    if cs != {} {
      var c :| c in cs;
      var m :| 0 <= m < |ks| && ks[m].count == 0 && c in ks[m].cells;
    } else {
      MarkAllNone(ks);
      forall s | s in ks ensures s.KnownSafes() == {} {
        var m :| 0 <= m < |ks| && ks[m] == s;
        if s.cells != {} {
          var c :| c in s.cells;
          assert s.count == 0 ==> c in cs;
        }
      }
    }
  }

  /** The cells of the full sentences of a true list are mines. */
  lemma FullCellsAreMines(ks: seq<Sentence>, layout: set<Cell>)
    requires AllHold(ks, layout)
    ensures FullCells(ks, |ks|) <= layout
  {
    FullCellsSpec(ks, |ks|);
    forall c | c in FullCells(ks, |ks|) ensures c in layout {
      var m :| 0 <= m < |ks| && |ks[m].cells| == ks[m].count && c in ks[m].cells;
      assert ks[m] in ks;
      KnownMinesSound(ks[m], layout);
    }
  }

  /** The cells of the sentences of a true list that count no mine are not mines. */
  lemma ZeroCellsAreSafe(ks: seq<Sentence>, layout: set<Cell>)
    requires AllHold(ks, layout)
    ensures ZeroCells(ks, |ks|) !! layout
  {
    ZeroCellsSpec(ks, |ks|);
    forall c | c in ZeroCells(ks, |ks|) ensures c !in layout {
      var m :| 0 <= m < |ks| && ks[m].count == 0 && c in ks[m].cells;
      assert ks[m] in ks;
      KnownSafesSound(ks[m], layout);
    }
  }

  /** Marking actual mines everywhere keeps a list exactly as true as it was. */
  lemma MarkMinesAllHolds(ks: seq<Sentence>, cs: set<Cell>, layout: set<Cell>)
    requires cs <= layout
    ensures AllHold(MarkMinesAll(ks, cs), layout) <==> AllHold(ks, layout)
  {
    var r := MarkMinesAll(ks, cs);
    forall m | 0 <= m < |ks| ensures Holds(r[m], layout) <==> Holds(ks[m], layout) {
      MarkMinesHolds(ks[m], cs, layout);
    }
    HoldsPointwise(ks, r, layout);
  }

  /** Marking actual non-mines everywhere keeps a list exactly as true as it was. */
  lemma MarkSafesAllHolds(ks: seq<Sentence>, cs: set<Cell>, layout: set<Cell>)
    requires cs !! layout
    ensures AllHold(MarkSafesAll(ks, cs), layout) <==> AllHold(ks, layout)
  {
    var r := MarkSafesAll(ks, cs);
    forall m | 0 <= m < |ks| ensures Holds(r[m], layout) <==> Holds(ks[m], layout) {
      MarkSafesHolds(ks[m], cs, layout);
    }
    HoldsPointwise(ks, r, layout);
  }

  /** Two lists of the same length whose sentences are pairwise equally true are equally true. */
  lemma HoldsPointwise(a: seq<Sentence>, b: seq<Sentence>, layout: set<Cell>)
    requires |a| == |b|
    requires forall m :: 0 <= m < |a| ==> (Holds(b[m], layout) <==> Holds(a[m], layout))
    ensures AllHold(b, layout) <==> AllHold(a, layout)
  {
    if AllHold(a, layout) {
      forall s | s in b ensures Holds(s, layout) {
        var m :| 0 <= m < |b| && b[m] == s;
        assert a[m] in a;
      }
    }
    if AllHold(b, layout) {
      forall s | s in a ensures Holds(s, layout) {
        var m :| 0 <= m < |a| && a[m] == s;
        assert b[m] in b;
      }
    }
  }

  /**
   * Pruning forgets nothing about a layout when the list was true of some
   * layout: the empty sentences it drops then count no mine, which is true
   * of every layout.
   */
  lemma PrunedComplete(ks: seq<Sentence>, actual: set<Cell>, layout: set<Cell>)
    requires AllHold(ks, actual)
    requires AllHold(Pruned(ks), layout)
    ensures AllHold(ks, layout)
  {
    forall s | s in ks ensures Holds(s, layout) {
      if s.cells == {} {
        assert s.cells * actual == {} && s.cells * layout == {};
      }
    }
  }

  /**
   * The whole state after the mine pass is true of a layout exactly when the
   * state before it was: the pass neither loses nor invents information.
   */
  lemma MinePassExact(mines: set<Cell>, safes: set<Cell>, ks: seq<Sentence>, layout: set<Cell>)
    ensures Sound(mines + FullCells(ks, |ks|), safes, MarkMinesAll(ks, FullCells(ks, |ks|)), layout)
      <==> Sound(mines, safes, ks, layout)
  {
    if Sound(mines, safes, ks, layout) {
      FullCellsAreMines(ks, layout);
      MarkMinesAllHolds(ks, FullCells(ks, |ks|), layout);
    }
    if Sound(mines + FullCells(ks, |ks|), safes, MarkMinesAll(ks, FullCells(ks, |ks|)), layout) {
      MarkMinesAllHolds(ks, FullCells(ks, |ks|), layout);
    }
  }

  /** The same for the safe pass. */
  lemma SafePassExact(mines: set<Cell>, safes: set<Cell>, ks: seq<Sentence>, layout: set<Cell>)
    ensures Sound(mines, safes + ZeroCells(ks, |ks|), MarkSafesAll(ks, ZeroCells(ks, |ks|)), layout)
      <==> Sound(mines, safes, ks, layout)
  {
    if Sound(mines, safes, ks, layout) {
      ZeroCellsAreSafe(ks, layout);
      MarkSafesAllHolds(ks, ZeroCells(ks, |ks|), layout);
    }
    if Sound(mines, safes + ZeroCells(ks, |ks|), MarkSafesAll(ks, ZeroCells(ks, |ks|)), layout) {
      MarkSafesAllHolds(ks, ZeroCells(ks, |ks|), layout);
    }
  }
}
