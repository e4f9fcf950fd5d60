/**
 * A logical sentence about a Minesweeper board: "exactly `count` of `cells`
 * are mines", with the two direct deductions and the two updates the engine
 * applies to it, and their soundness with respect to a mine layout.
 */
module Sentences {
  import opened Cells

  datatype Sentence = Sentence(cells: set<Cell>, count: int) {

    /** Every cell is a mine when there are exactly as many cells as mines. */
    function KnownMines(): (r: set<Cell>)
      ensures r == {} || r == cells
      ensures r != {} <==> |cells| == count && cells != {}
    {
      if |cells| == count then cells else {}
    }

    /** Every cell is safe when a non-empty sentence counts no mine. */
    function KnownSafes(): (r: set<Cell>)
      ensures r == {} || r == cells
      ensures r != {} <==> count == 0 && cells != {}
    {
      if count == 0 && |cells| > 0 then cells else {}
    }

    /** `c` is a mine: drop it and count one mine fewer, if it is mentioned. */
    function MarkMine(c: Cell): (r: Sentence)
      ensures c !in r.cells && r.cells == cells - {c}
      ensures c !in cells ==> r == this
      ensures |r.cells| - r.count == |cells| - count
    {
      if c in cells then Sentence(cells - {c}, count - 1) else this
    }

    /** `c` is safe: drop it, the number of mines is unchanged. */
    function MarkSafe(c: Cell): (r: Sentence)
      ensures c !in r.cells && r.cells == cells - {c}
      ensures r.count == count
    {
      if c in cells then Sentence(cells - {c}, count) else this
    }
  }

  /**
   * Subset rule: when `sub.cells` is a subset of `sup.cells`, the cells of
   * `sup` outside `sub` hold the difference of the two counts.
   */
  function Derive(sup: Sentence, sub: Sentence): (r: Sentence)
    ensures r.cells <= sup.cells && r.cells !! sub.cells
    ensures sub.cells <= sup.cells ==> r.cells + sub.cells == sup.cells && r.count + sub.count == sup.count
    ensures sub.cells <= sup.cells && sub.cells != {} ==> |r.cells| < |sup.cells|
  {
    var r := Sentence(sup.cells - sub.cells, sup.count - sub.count);
    assert sub.cells <= sup.cells ==> sup.cells == r.cells + sub.cells;
    r
  }

  /** The sentence is true of the mine layout `layout`. */
  ghost predicate Holds(s: Sentence, layout: set<Cell>) {
    |s.cells * layout| == s.count
  }

  lemma MarkTwice(s: Sentence, c: Cell)
    ensures s.MarkMine(c).MarkMine(c) == s.MarkMine(c)
    ensures s.MarkSafe(c).MarkSafe(c) == s.MarkSafe(c)
  {
  }

  /** The cells a true sentence reports as mines are mines. */
  lemma KnownMinesSound(s: Sentence, layout: set<Cell>)
    requires Holds(s, layout)
    ensures s.KnownMines() <= layout
  {
    if |s.cells| == s.count {
      SubsetCard(s.cells * layout, s.cells);
      assert s.cells * layout == s.cells;
    }
  }

  /** The cells a true sentence reports as safe are not mines. */
  lemma KnownSafesSound(s: Sentence, layout: set<Cell>)
    requires Holds(s, layout)
    ensures s.KnownSafes() !! layout
  {
    if s.count == 0 {
      assert s.cells * layout == {};
      assert forall x :: x in s.cells ==> x !in s.cells * layout;
    }
  }

  /** Marking an actual mine keeps a sentence true, and a sentence true after the marking was true before. */
  lemma MarkMineSound(s: Sentence, c: Cell, layout: set<Cell>)
    requires c in layout
    ensures Holds(s.MarkMine(c), layout) <==> Holds(s, layout)
  {
    if c in s.cells {
      assert s.cells * layout == (s.MarkMine(c).cells * layout) + {c};
    }
  }

  /** Marking an actual non-mine keeps a sentence true, and a sentence true after the marking was true before. */
  lemma MarkSafeSound(s: Sentence, c: Cell, layout: set<Cell>)
    requires c !in layout
    ensures Holds(s.MarkSafe(c), layout) <==> Holds(s, layout)
  {
    assert s.MarkSafe(c).cells * layout == s.cells * layout;
  }

  /** The subset rule derives a true sentence from two true ones. */
  lemma DeriveSound(sup: Sentence, sub: Sentence, layout: set<Cell>)
    requires Holds(sup, layout) && Holds(sub, layout)
    requires sub.cells <= sup.cells
    ensures Holds(Derive(sup, sub), layout)
  {
    var d := Derive(sup, sub);
    assert sup.cells * layout == (d.cells * layout) + (sub.cells * layout);
    assert (d.cells * layout) !! (sub.cells * layout);
  }

  /** The converse of the subset rule: the smaller sentence and the derived one together give back the larger one. */
  lemma DeriveComplete(sup: Sentence, sub: Sentence, layout: set<Cell>)
    requires Holds(sub, layout) && Holds(Derive(sup, sub), layout)
    requires sub.cells <= sup.cells
    ensures Holds(sup, layout)
  {
    var d := Derive(sup, sub);
    assert sup.cells * layout == (d.cells * layout) + (sub.cells * layout);
    assert (d.cells * layout) !! (sub.cells * layout);
  }

  /** The sentence after marking every cell of `cs` as a mine: `mark_mine` repeated over `cs` (see `MarkOneMore`). */
  function MarkMines(s: Sentence, cs: set<Cell>): Sentence {
    Sentence(s.cells - cs, s.count - |s.cells * cs|)
  }

  /** The sentence after marking every cell of `cs` as safe: `mark_safe` repeated over `cs` (see `MarkOneMore`). */
  function MarkSafes(s: Sentence, cs: set<Cell>): Sentence {
    Sentence(s.cells - cs, s.count)
  }

  /** Marking no cell changes nothing. */
  lemma MarkNone(s: Sentence)
    ensures MarkMines(s, {}) == s && MarkSafes(s, {}) == s
  {
    assert s.cells * {} == {};
  }

  /**
   * Marking cells one at a time, in any order and with repetitions, is
   * marking the set of them at once.
   */
  lemma MarkOneMore(s: Sentence, cs: set<Cell>, c: Cell)
    ensures MarkMines(s, cs).MarkMine(c) == MarkMines(s, cs + {c})
    ensures MarkSafes(s, cs).MarkSafe(c) == MarkSafes(s, cs + {c})
  {
    if c in s.cells && c !in cs {
      assert s.cells * (cs + {c}) == (s.cells * cs) + {c};
    } else {
      assert s.cells * (cs + {c}) == s.cells * cs;
    }
  }

  /** Marking mines keeps a sentence with as many mines as cells in that state, and never puts one in it. */
  lemma MarkMinesKeepsFull(s: Sentence, cs: set<Cell>)
    ensures |MarkMines(s, cs).cells| == MarkMines(s, cs).count <==> |s.cells| == s.count
  {
    assert s.cells == (s.cells - cs) + (s.cells * cs);
    assert (s.cells - cs) !! (s.cells * cs);
  }

  /** Marking actual mines keeps a sentence exactly as true as it was. */
  lemma MarkMinesHolds(s: Sentence, cs: set<Cell>, layout: set<Cell>)
    requires cs <= layout
    ensures Holds(MarkMines(s, cs), layout) <==> Holds(s, layout)
  {
    assert s.cells * layout == ((s.cells - cs) * layout) + (s.cells * cs);
    assert ((s.cells - cs) * layout) !! (s.cells * cs);
  }

  /** Marking actual non-mines keeps a sentence exactly as true as it was. */
  lemma MarkSafesHolds(s: Sentence, cs: set<Cell>, layout: set<Cell>)
    requires cs !! layout
    ensures Holds(MarkSafes(s, cs), layout) <==> Holds(s, layout)
  {
    assert (s.cells - cs) * layout == s.cells * layout;
  }
}
