/**
 * The Minesweeper player: it records revealed cells, turns each reported
 * neighbour count into a sentence, runs deductions to a fixed point, and
 * picks the next cell to reveal.
 */
module AI {
  import opened Options
  import opened Cells
  import opened Sentences
  import opened Knowledge

  class MinesweeperAI {
    const height: int
    const width: int
    var movesMade: set<Cell>
    var mines: set<Cell>
    var safes: set<Cell>
    var knowledge: seq<Sentence>

    constructor (height: int, width: int)
      ensures this.height == height && this.width == width
      ensures movesMade == {} && mines == {} && safes == {} && knowledge == []
    {
      this.height, this.width := height, width;
      movesMade, mines, safes, knowledge := {}, {}, {}, [];
    }

    /** The player's knowledge agrees with the actual mine layout `layout`. */
    ghost predicate Consistent(layout: set<Cell>)
      reads this
    {
      Sound(mines, safes, knowledge, layout)
    }

    /** Records `cell` as a mine and marks it so in every sentence. */
    method MarkMine(cell: Cell)
      modifies this
      ensures mines == old(mines) + {cell}
      ensures safes == old(safes) && movesMade == old(movesMade)
      ensures knowledge == MarkMineAll(old(knowledge), cell)
    {
      mines := mines + {cell};
      var k := 0;
      while k < |knowledge|
        invariant 0 <= k <= |knowledge| == |old(knowledge)|
        invariant forall m :: 0 <= m < k ==> knowledge[m] == old(knowledge)[m].MarkMine(cell)
        invariant forall m :: k <= m < |knowledge| ==> knowledge[m] == old(knowledge)[m]
        invariant mines == old(mines) + {cell} && safes == old(safes) && movesMade == old(movesMade)
      {
        knowledge := knowledge[k := knowledge[k].MarkMine(cell)];
        k := k + 1;
      }
    }

    /** Records `cell` as safe and marks it so in every sentence. */
    method MarkSafe(cell: Cell)
      modifies this
      ensures safes == old(safes) + {cell}
      ensures mines == old(mines) && movesMade == old(movesMade)
      ensures knowledge == MarkSafeAll(old(knowledge), cell)
    {
      safes := safes + {cell};
      var k := 0;
      while k < |knowledge|
        invariant 0 <= k <= |knowledge| == |old(knowledge)|
        invariant forall m :: 0 <= m < k ==> knowledge[m] == old(knowledge)[m].MarkSafe(cell)
        invariant forall m :: k <= m < |knowledge| ==> knowledge[m] == old(knowledge)[m]
        invariant safes == old(safes) + {cell} && mines == old(mines) && movesMade == old(movesMade)
      {
        knowledge := knowledge[k := knowledge[k].MarkSafe(cell)];
        k := k + 1;
      }
    }

    /** Every cell of the board, gathered row by row. */
    method BoardCells() returns (cells: set<Cell>)
      ensures forall c :: c in cells <==> InBounds(c, height, width)
    {
      cells := {};
      var i := 0;
      while i < height
        invariant forall c :: c in cells <==> InBounds(c, height, width) && c.row < i
      {
        var j := 0;
        while j < width
          invariant forall c :: c in cells <==>
            InBounds(c, height, width) && (c.row < i || (c.row == i && c.col < j))
        {
          cells := cells + {Cell(i, j)};
          j := j + 1;
        }
        i := i + 1;
      }
    }

    /**
     * The sentence for a revealed cell: its in-bounds neighbours not known to
     * be safe (known mines are kept), with the reported count. A cell off the
     * board raises KeyError (`None`).
     */
    method CreateSentence(cell: Cell, count: int) returns (r: Option<Sentence>)
      ensures r.None? <==> !InBounds(cell, height, width)
      ensures r.Some? ==> r.value.count == count
      ensures r.Some? ==> r.value.cells == Neighbours(cell, height, width) - safes
    {
      var possibleMoves := BoardCells();
      if cell !in possibleMoves {
        return None;
      }
      possibleMoves := possibleMoves - {cell};

      var right := Cell(cell.row, cell.col + 1);
      var left := Cell(cell.row, cell.col - 1);
      var up := Cell(cell.row - 1, cell.col);
      var down := Cell(cell.row + 1, cell.col);
      var diagRightDown := Cell(cell.row + 1, cell.col + 1);
      var diagLeftDown := Cell(cell.row + 1, cell.col - 1);
      var diagRightUp := Cell(cell.row - 1, cell.col + 1);
      var diagLeftUp := Cell(cell.row - 1, cell.col - 1);

      var neighbours: set<Cell> := {};
      // the candidates examined so far, and the neighbours before the latest check
      ghost var checked: set<Cell> := {};
      ghost var before: set<Cell>;
      before := neighbours;
      if right in possibleMoves && right !in safes {
        neighbours := neighbours + {right};
      }
      KeepOne(before, neighbours, checked, right, possibleMoves, safes);
      checked := checked + {right};
      before := neighbours;
      if left in possibleMoves && left !in safes {
        neighbours := neighbours + {left};
      }
      KeepOne(before, neighbours, checked, left, possibleMoves, safes);
      checked := checked + {left};
      before := neighbours;
      if up in possibleMoves && up !in safes {
        neighbours := neighbours + {up};
      }
      KeepOne(before, neighbours, checked, up, possibleMoves, safes);
      checked := checked + {up};
      before := neighbours;
      if down in possibleMoves && down !in safes {
        neighbours := neighbours + {down};
      }
      KeepOne(before, neighbours, checked, down, possibleMoves, safes);
      checked := checked + {down};
      before := neighbours;
      if diagRightDown in possibleMoves && diagRightDown !in safes {
        neighbours := neighbours + {diagRightDown};
      }
      KeepOne(before, neighbours, checked, diagRightDown, possibleMoves, safes);
      checked := checked + {diagRightDown};
      before := neighbours;
      if diagLeftDown in possibleMoves && diagLeftDown !in safes {
        neighbours := neighbours + {diagLeftDown};
      }
      KeepOne(before, neighbours, checked, diagLeftDown, possibleMoves, safes);
      checked := checked + {diagLeftDown};
      before := neighbours;
      if diagRightUp in possibleMoves && diagRightUp !in safes {
        neighbours := neighbours + {diagRightUp};
      }
      KeepOne(before, neighbours, checked, diagRightUp, possibleMoves, safes);
      checked := checked + {diagRightUp};
      before := neighbours;
      if diagLeftUp in possibleMoves && diagLeftUp !in safes {
        neighbours := neighbours + {diagLeftUp};
      }
      KeepOne(before, neighbours, checked, diagLeftUp, possibleMoves, safes);
      checked := checked + {diagLeftUp};
      RingInSourceOrder(cell);
      RingOnBoard(cell, height, width, possibleMoves);
      r := Some(Sentence(neighbours, count));
    }

    /**
     * The inner loop of the mine pass: `mark_mine` for each cell of `found`.
     * Over a list that is `base` with `marked` marked as mines, the result
     * is `base` with `found` marked as well.
     */
    method MarkMinesEach(found: set<Cell>, ghost base: seq<Sentence>, ghost marked: set<Cell>)
      requires knowledge == MarkMinesAll(base, marked)
      modifies this
      ensures knowledge == MarkMinesAll(base, marked + found)
      ensures mines == old(mines) + found
      ensures safes == old(safes) && movesMade == old(movesMade)
    {
      var rest := found;
      assert marked + (found - rest) == marked;
      while rest != {}
        invariant knowledge == MarkMinesAll(base, marked + (found - rest))
        invariant mines == old(mines) + (found - rest)
        invariant safes == old(safes) && movesMade == old(movesMade)
        invariant rest <= found
        decreases rest
      {
        var c :| c in rest;
        MarkMine(c);
        MarkAllOneMore(base, marked + (found - rest), c);
        assert marked + (found - rest) + {c} == marked + (found - (rest - {c}));
        rest := rest - {c};
      }
      assert found - rest == found;
    }

    /** The inner loop of the safe pass: `mark_safe` for each cell of `found`. */
    method MarkSafesEach(found: set<Cell>, ghost base: seq<Sentence>, ghost marked: set<Cell>)
      requires knowledge == MarkSafesAll(base, marked)
      modifies this
      ensures knowledge == MarkSafesAll(base, marked + found)
      ensures safes == old(safes) + found
      ensures mines == old(mines) && movesMade == old(movesMade)
    {
      var rest := found;
      assert marked + (found - rest) == marked;
      while rest != {}
        invariant knowledge == MarkSafesAll(base, marked + (found - rest))
        invariant safes == old(safes) + (found - rest)
        invariant mines == old(mines) && movesMade == old(movesMade)
        invariant rest <= found
        decreases rest
      {
        var c :| c in rest;
        MarkSafe(c);
        MarkAllOneMore(base, marked + (found - rest), c);
        assert marked + (found - rest) + {c} == marked + (found - (rest - {c}));
        rest := rest - {c};
      }
      assert found - rest == found;
    }

    /**
     * The body of the mine pass for the sentence at position `k`: when it has
     * as many mines as cells, its remaining cells are marked as mines. Over
     * `base` with the full cells of the positions before `k` marked, this
     * marks the full cells up to and including `k`.
     */
    method MineStep(k: int, ghost base: seq<Sentence>, ghost mines0: set<Cell>, ghost marked: set<Cell>)
      returns (found: set<Cell>)
      requires 0 <= k < |base| == |knowledge|
      requires MarksFull(base, k, marked)
      requires knowledge == MarkMinesAll(base, marked)
      requires mines == mines0 + marked
      modifies this
      ensures MarksFull(base, k + 1, marked + found)
      ensures knowledge == MarkMinesAll(base, marked + found)
      ensures mines == mines0 + (marked + found)
      ensures safes == old(safes) && movesMade == old(movesMade)
    {
      found := knowledge[k].KnownMines();
      MarkMinesEach(found, base, marked);
      MineStepFinds(base, k, marked, found);
    }

    /**
     * The body of the safe pass for the sentence at position `k`: when it is
     * non-empty and counts no mine, its remaining cells are marked as safe.
     */
    method SafeStep(k: int, ghost base: seq<Sentence>, ghost safes0: set<Cell>, ghost marked: set<Cell>)
      returns (found: set<Cell>)
      requires 0 <= k < |base| == |knowledge|
      requires MarksZero(base, k, marked)
      requires knowledge == MarkSafesAll(base, marked)
      requires safes == safes0 + marked
      modifies this
      ensures MarksZero(base, k + 1, marked + found)
      ensures knowledge == MarkSafesAll(base, marked + found)
      ensures safes == safes0 + (marked + found)
      ensures mines == old(mines) && movesMade == old(movesMade)
    {
      found := {};
      if knowledge[k].cells != {} {
        found := knowledge[k].KnownSafes();
      }
      SafeStepFinds(base, k, marked, found);
      MarkSafesEach(found, base, marked);
    }

    /**
     * One pass of the first rule: for each sentence in turn, every cell of a
     * sentence with as many mines as cells is marked as a mine. Marking never
     * makes a sentence full nor stops it from being full, so the pass marks
     * exactly the cells of the sentences that were full when it started.
     */
    method InferMines() returns (changed: bool)
      modifies this
      ensures safes == old(safes) && movesMade == old(movesMade)
      ensures mines == old(mines) + FullCells(old(knowledge), |old(knowledge)|)
      ensures knowledge == MarkMinesAll(old(knowledge), FullCells(old(knowledge), |old(knowledge)|))
      ensures changed <==> FullCells(old(knowledge), |old(knowledge)|) != {}
      ensures Mentioned(knowledge) == Mentioned(old(knowledge)) - FullCells(old(knowledge), |old(knowledge)|)
      ensures TotalCells(knowledge) <= TotalCells(old(knowledge))
      ensures changed ==> TotalCells(knowledge) < TotalCells(old(knowledge))
      ensures !changed ==> knowledge == old(knowledge) && mines == old(mines)
      ensures !changed ==> forall s :: s in knowledge ==> s.KnownMines() == {}
      ensures forall l :: Consistent(l) <==> old(Consistent(l))
    {
      changed := false;
      ghost var base := knowledge;
      ghost var marked: set<Cell> := {};
      MarkAllNone(knowledge);
      var k := 0;
      while k < |knowledge|
        invariant 0 <= k <= |knowledge| == |base|
        invariant safes == old(safes) && movesMade == old(movesMade)
        invariant MarksFull(base, k, marked)
        invariant mines == old(mines) + marked
        invariant knowledge == MarkMinesAll(base, marked)
        invariant changed <==> marked != {}
      {
        var found := MineStep(k, base, old(mines), marked);
        marked := marked + found;
        if found != {} {
          changed := true;
        }
        k := k + 1;
      }
      MarksFullAll(base, marked);
      MinePassMeasure(base);
      forall l | Consistent(l) || old(Consistent(l)) ensures Consistent(l) <==> old(Consistent(l)) {
        MinePassExact(old(mines), safes, base, l);
      }
    }

    /**
     * One pass of the second rule: for each non-empty sentence in turn, every
     * cell of a sentence counting no mine is marked as safe. Marking safe
     * cells keeps every count, so the pass marks exactly the cells of the
     * sentences that counted no mine when it started.
     */
    method InferSafes() returns (changed: bool)
      modifies this
      ensures mines == old(mines) && movesMade == old(movesMade)
      ensures safes == old(safes) + ZeroCells(old(knowledge), |old(knowledge)|)
      ensures knowledge == MarkSafesAll(old(knowledge), ZeroCells(old(knowledge), |old(knowledge)|))
      ensures changed <==> ZeroCells(old(knowledge), |old(knowledge)|) != {}
      ensures Mentioned(knowledge) == Mentioned(old(knowledge)) - ZeroCells(old(knowledge), |old(knowledge)|)
      ensures TotalCells(knowledge) <= TotalCells(old(knowledge))
      ensures changed ==> TotalCells(knowledge) < TotalCells(old(knowledge))
      ensures !changed ==> knowledge == old(knowledge) && safes == old(safes)
      ensures !changed ==> forall s :: s in knowledge ==> s.KnownSafes() == {}
      ensures forall l :: Consistent(l) <==> old(Consistent(l))
    {
      changed := false;
      ghost var base := knowledge;
      ghost var marked: set<Cell> := {};
      MarkAllNone(knowledge);
      var k := 0;
      while k < |knowledge|
        invariant 0 <= k <= |knowledge| == |base|
        invariant mines == old(mines) && movesMade == old(movesMade)
        invariant MarksZero(base, k, marked)
        invariant safes == old(safes) + marked
        invariant knowledge == MarkSafesAll(base, marked)
        invariant changed <==> marked != {}
      {
        var found := SafeStep(k, base, old(safes), marked);
        marked := marked + found;
        if found != {} {
          changed := true;
        }
        k := k + 1;
      }
      MarksZeroAll(base, marked);
      SafePassMeasure(base);
      forall l | Consistent(l) || old(Consistent(l)) ensures Consistent(l) <==> old(Consistent(l)) {
        SafePassExact(mines, old(safes), base, l);
      }
    }

    /** Drops every empty sentence, looping over a copy and removing by value. */
    method PruneEmpty()
      modifies this
      ensures knowledge == Pruned(old(knowledge))
      ensures mines == old(mines) && safes == old(safes) && movesMade == old(movesMade)
    {
      var snapshot := knowledge;
      var k := 0;
      while k < |snapshot|
        invariant 0 <= k <= |snapshot|
        invariant knowledge == Pruned(snapshot[..k]) + snapshot[k..]
        invariant mines == old(mines) && safes == old(safes) && movesMade == old(movesMade)
      {
        PruneStep(snapshot, k);
        if snapshot[k].cells == {} {
          knowledge := RemoveFirst(knowledge, snapshot[k]);
        }
        k := k + 1;
      }
      assert snapshot[..k] == snapshot;
    }

    /**
     * One pass of the subset rule over the ordered pairs of distinct
     * positions, in the order of `itertools.permutations`: the first pair
     * whose first sentence's cells are a subset of the second's replaces the
     * second sentence with their difference, appended at the end.
     */
    method InferSubsets(ghost layout: set<Cell>) returns (changed: bool, ghost sub: int, ghost sup: int)
      requires forall s :: s in knowledge ==> s.cells != {}
      modifies this
      ensures mines == old(mines) && safes == old(safes) && movesMade == old(movesMade)
      ensures !changed ==> knowledge == old(knowledge)
      ensures !changed ==> forall i, j :: !SubsetPair(knowledge, i, j)
      ensures changed ==> SubsetPair(old(knowledge), sub, sup)
      ensures changed ==> forall i, j :: SubsetPair(old(knowledge), i, j) ==> sub < i || (sub == i && sup <= j)
      ensures changed ==> (knowledge ==
        RemoveFirst(old(knowledge) + [Derive(old(knowledge)[sup], old(knowledge)[sub])], old(knowledge)[sup]))
      ensures Mentioned(knowledge) <= Mentioned(old(knowledge))
      ensures TotalCells(knowledge) <= TotalCells(old(knowledge))
      ensures changed ==> TotalCells(knowledge) < TotalCells(old(knowledge))
      ensures old(Consistent(layout)) ==> Consistent(layout)
      ensures forall l :: Consistent(l) ==> old(Consistent(l))
    {
      changed, sub, sup := false, 0, 0;
      if |knowledge| > 1 {
        var snapshot := knowledge;
        var n := |snapshot|;
        var i := 0;
        while i < n
          invariant 0 <= i <= n
          invariant knowledge == snapshot == old(knowledge)
          invariant forall p, q :: SubsetPair(snapshot, p, q) ==> p >= i
        {
          var j := 0;
          while j < n
            invariant 0 <= j <= n
            invariant knowledge == snapshot == old(knowledge)
            invariant forall p, q :: SubsetPair(snapshot, p, q) ==> p > i || (p == i && q >= j)
          {
            if i != j && snapshot[i].cells <= snapshot[j].cells {
              assert SubsetPair(snapshot, i, j);
              var derived := Derive(snapshot[j], snapshot[i]);
              knowledge := knowledge + [derived];
              knowledge := RemoveFirst(knowledge, snapshot[j]);
              changed, sub, sup := true, i, j;
              SubsetStep(snapshot, i, j, layout);
              forall l | Consistent(l) ensures old(Consistent(l)) {
                SubsetComplete(snapshot, i, j, l);
              }
              return;
            }
            j := j + 1;
          }
          i := i + 1;
        }
      }
    }

    /**
     * The inference loop of `add_knowledge`: repeat the mine pass, the safe
     * pass, the pruning and the subset pass until a pass changes nothing.
     * Every pass that changes something lowers the number of cells summed
     * over all sentences, so the loop ends, and it ends at a fixed point.
     */
    method Infer(ghost layout: set<Cell>)
      modifies this
      ensures movesMade == old(movesMade) && old(mines) <= mines && old(safes) <= safes
      ensures Saturated(knowledge)
      ensures Mentioned(knowledge) <= Mentioned(old(knowledge)) - ((mines - old(mines)) + (safes - old(safes)))
      ensures old(Consistent(layout)) ==> Consistent(layout)
      ensures old(Consistent(layout)) ==> forall l :: Consistent(l) ==> old(Consistent(l))
    {
      ghost var sound := Consistent(layout);
      var inferenceFlag := true;
      while inferenceFlag
        invariant movesMade == old(movesMade) && old(mines) <= mines && old(safes) <= safes
        invariant Mentioned(knowledge) <= Mentioned(old(knowledge)) - ((mines - old(mines)) + (safes - old(safes)))
        invariant sound ==> Consistent(layout)
        invariant sound ==> forall l :: Consistent(l) ==> old(Consistent(l))
        invariant !inferenceFlag ==> Saturated(knowledge)
        decreases TotalCells(knowledge), inferenceFlag
      {
        ghost var start := knowledge;
        label passStart:
        var minesChanged := InferMines();
        var safesChanged := InferSafes();
        ghost var unpruned := knowledge;
        label afterSafes:
        PruneEmpty();
        PrunedTotal(unpruned);
        if sound {
          RemovedStillHold(unpruned, layout);
        }
        label afterPrune:
        var subsetChanged, _, _ := InferSubsets(layout);
        if sound {
          forall l | Consistent(l) ensures old(Consistent(l)) {
            assert old@afterPrune(Consistent(l));
            PrunedComplete(unpruned, layout, l);
            assert old@afterSafes(Consistent(l));
            assert old@passStart(Consistent(l));
          }
        }
        inferenceFlag := minesChanged || safesChanged || subsetChanged;
        if !inferenceFlag {
          assert knowledge == Pruned(start);
        }
      }
    }

    /**
     * `add_knowledge`: the revealed `cell` becomes a move made and a safe
     * cell, the sentence about its neighbours joins the knowledge when it is
     * not empty, and inference runs to a fixed point. The ghost `grown` is
     * the knowledge inference starts from. The ghost `layout` stands for the
     * actual mines: when the knowledge agrees with it and `count` is the true
     * neighbour count, it still agrees afterwards, and every layout the new
     * knowledge allows was allowed before and fits the report about `cell`.
     */
    method AddKnowledge(cell: Cell, count: int, ghost layout: set<Cell>) returns (ok: bool, ghost grown: seq<Sentence>)
      modifies this
      ensures movesMade == old(movesMade) + {cell}
      ensures old(safes) + {cell} <= safes && old(mines) <= mines
      ensures ok <==> InBounds(cell, height, width)
      ensures !ok ==> safes == old(safes) + {cell} && mines == old(mines) && knowledge == old(knowledge)
      ensures !ok ==> grown == old(knowledge)
      ensures ok ==> var added := Neighbours(cell, height, width) - (old(safes) + {cell});
        grown == old(knowledge) + (if added != {} then [Sentence(added, count)] else [])
      ensures ok ==> Saturated(knowledge)
      ensures ok ==> Mentioned(knowledge) <= Mentioned(old(knowledge)) + (Neighbours(cell, height, width) - safes)
      ensures ok ==> Mentioned(knowledge) !! ((mines - old(mines)) + (safes - (old(safes) + {cell})))
      ensures old(Consistent(layout)) && cell !in layout && count == |Neighbours(cell, height, width) * layout|
        ==> Consistent(layout)
      ensures ok && old(Consistent(layout)) && cell !in layout && count == |Neighbours(cell, height, width) * layout|
        ==> forall l :: Consistent(l) ==>
              old(Consistent(l)) && cell !in l && count == |Neighbours(cell, height, width) * l|
      ensures ok ==> Mentioned(knowledge) <= Mentioned(grown) - ((mines - old(mines)) + (safes - (old(safes) + {cell})))
      ensures ok && old(Consistent(layout)) && cell !in layout && count == |Neighbours(cell, height, width) * layout|
        ==> AllHold(grown, layout) && forall l :: Consistent(l) ==> AllHold(grown, l)
    {
      ghost var sound := Consistent(layout) && cell !in layout && count == |Neighbours(cell, height, width) * layout|;
      grown := knowledge;
      ok := Record(cell, count, layout);
      if !ok {
        return;
      }
      grown := knowledge;
      label beforeInfer:
      Infer(layout);
      if sound {
        forall l | Consistent(l)
          ensures old(Consistent(l)) && cell !in l && count == |Neighbours(cell, height, width) * l|
        {
          assert old@beforeInfer(Consistent(l));
          assert AllHold(grown, l);
          ReportComplete(old(mines), old(safes), old(knowledge), cell, count, Neighbours(cell, height, width), layout, l);
        }
      }
    }

    /**
     * The first half of `add_knowledge`: the revealed `cell` becomes a move
     * made and a safe cell, and the sentence about its neighbours is appended
     * when it is not empty.
     */
    method Record(cell: Cell, count: int, ghost layout: set<Cell>) returns (ok: bool)
      modifies this
      ensures movesMade == old(movesMade) + {cell} && safes == old(safes) + {cell} && mines == old(mines)
      ensures ok <==> InBounds(cell, height, width)
      ensures !ok ==> knowledge == old(knowledge)
      ensures ok ==> var added := Neighbours(cell, height, width) - (old(safes) + {cell});
        knowledge == old(knowledge) + (if added != {} then [Sentence(added, count)] else [])
      ensures ok ==> Mentioned(knowledge) == Mentioned(old(knowledge)) + (Neighbours(cell, height, width) - safes)
      ensures old(Consistent(layout)) && cell !in layout && count == |Neighbours(cell, height, width) * layout|
        ==> Consistent(layout)
    {
      ghost var sound := Consistent(layout) && cell !in layout && count == |Neighbours(cell, height, width) * layout|;
      movesMade := movesMade + {cell};
      safes := safes + {cell};
      var sentence := CreateSentence(cell, count);
      if sentence.None? {
        return false;
      }
      var s := sentence.value;
      if s.cells != {} {
        if sound {
          assert s.cells * layout == Neighbours(cell, height, width) * layout;
          assert AllHold(knowledge + [s], layout);
        }
        TotalCellsAppend(knowledge, [s]);
        assert Mentioned([s]) == s.cells by {
          assert [s][1..] == [];
        }
        knowledge := knowledge + [s];
      }
      ok := true;
    }

    /** A known-safe cell not yet revealed, or `None` when there is none. */
    method MakeSafeMove() returns (r: Option<Cell>)
      ensures r.None? <==> safes - movesMade == {}
      ensures r.Some? ==> r.value in safes && r.value !in movesMade
    {
      var safeMoves := safes - movesMade;
      if safeMoves == {} {
        return None;
      }
      var c :| c in safeMoves;
      r := Some(c);
    }

    /** An in-bounds cell neither revealed nor known to be a mine, or `None` when there is none. */
    method MakeRandomMove() returns (r: Option<Cell>)
      ensures r.None? <==> forall c :: InBounds(c, height, width) ==> c in movesMade || c in mines
      ensures r.Some? ==> InBounds(r.value, height, width) && r.value !in movesMade && r.value !in mines
    {
      var candidates: set<Cell> := {};
      var i := 0;
      while i < height
        invariant forall c :: c in candidates <==>
          InBounds(c, height, width) && c !in movesMade && c !in mines && c.row < i
      {
        var k := 0;
        while k < width
          invariant forall c :: c in candidates <==>
            InBounds(c, height, width) && c !in movesMade && c !in mines && (c.row < i || (c.row == i && c.col < k))
        {
          if Cell(i, k) !in movesMade && Cell(i, k) !in mines {
            candidates := candidates + {Cell(i, k)};
          }
          k := k + 1;
        }
        i := i + 1;
      }
      if candidates != {} {
        var c :| c in candidates;
        return Some(c);
      }
      assert forall c :: InBounds(c, height, width) ==> c.row < i;
      return None;
    }
  }

  /** One filtering check of `create_sentence` keeps the candidate exactly when it is allowed and not excluded. */
  lemma KeepOne(before: set<Cell>, after: set<Cell>, checked: set<Cell>, x: Cell, allowed: set<Cell>, excluded: set<Cell>)
    requires before == checked * allowed - excluded
    requires after == if x in allowed && x !in excluded then before + {x} else before
    ensures after == (checked + {x}) * allowed - excluded
  {
  }

  /** The eight candidates of `create_sentence`, in the order it checks them, make up the ring around the cell. */
  lemma RingInSourceOrder(cell: Cell)
    ensures {} + {Cell(cell.row, cell.col + 1)} + {Cell(cell.row, cell.col - 1)}
      + {Cell(cell.row - 1, cell.col)} + {Cell(cell.row + 1, cell.col)}
      + {Cell(cell.row + 1, cell.col + 1)} + {Cell(cell.row + 1, cell.col - 1)}
      + {Cell(cell.row - 1, cell.col + 1)} + {Cell(cell.row - 1, cell.col - 1)} == Ring(cell)
  {
  }

  /** Once the cell itself is excluded from the board, the ring around it meets the board in its neighbours. */
  lemma RingOnBoard(cell: Cell, height: int, width: int, board: set<Cell>)
    requires forall d :: d in board <==> InBounds(d, height, width) && d != cell
    ensures Ring(cell) * board == Neighbours(cell, height, width)
  {
    assert cell !in Ring(cell);
  }

  /** The effect of one application of the subset rule on the measure, the mentioned cells and soundness. */
  lemma SubsetStep(ks: seq<Sentence>, i: int, j: int, layout: set<Cell>)
    requires SubsetPair(ks, i, j) && ks[i].cells != {}
    ensures var r := RemoveFirst(ks + [Derive(ks[j], ks[i])], ks[j]);
      && TotalCells(r) < TotalCells(ks)
      && Mentioned(r) <= Mentioned(ks)
      && (AllHold(ks, layout) ==> AllHold(r, layout))
  {
    SubsetShrinks(ks, i, j);
    if AllHold(ks, layout) {
      SubsetSound(ks, i, j, layout);
    }
  }

  lemma SubsetShrinks(ks: seq<Sentence>, i: int, j: int)
    requires SubsetPair(ks, i, j) && ks[i].cells != {}
    ensures var r := RemoveFirst(ks + [Derive(ks[j], ks[i])], ks[j]);
      TotalCells(r) < TotalCells(ks) && Mentioned(r) <= Mentioned(ks)
  {
    var d := Derive(ks[j], ks[i]);
    var grown := ks + [d];
    assert TotalCells(grown) < TotalCells(ks) + |ks[j].cells| && Mentioned(grown) == Mentioned(ks) by {
      TotalCellsAppend(ks, [d]);
      assert [d][1..] == [];
      MentionedSpec(ks);
    }
    assert ks[j] in grown;
    RemoveFirstTotal(grown, ks[j]);
  }

  lemma SubsetSound(ks: seq<Sentence>, i: int, j: int, layout: set<Cell>)
    requires SubsetPair(ks, i, j) && AllHold(ks, layout)
    ensures AllHold(RemoveFirst(ks + [Derive(ks[j], ks[i])], ks[j]), layout)
  {
    var grown := ks + [Derive(ks[j], ks[i])];
    assert ks[i] in ks && ks[j] in ks;
    DeriveSound(ks[j], ks[i], layout);
    assert AllHold(grown, layout);
    RemoveFirstKeeps(grown, ks[j]);
  }

  /**
   * The converse of soundness for one application of the subset rule: a
   * layout that satisfies the new list satisfies the old one, so the rule
   * loses no information.
   */
  lemma SubsetComplete(ks: seq<Sentence>, i: int, j: int, layout: set<Cell>)
    requires SubsetPair(ks, i, j) && ks[i].cells != {}
    requires AllHold(RemoveFirst(ks + [Derive(ks[j], ks[i])], ks[j]), layout)
    ensures AllHold(ks, layout)
  {
    var d := Derive(ks[j], ks[i]);
    var grown := ks + [d];
    var r := RemoveFirst(grown, ks[j]);
    assert d != ks[j] by {
      assert |d.cells| < |ks[j].cells|;
    }
    assert multiset(grown) == multiset(ks) + multiset{d};
    assert d in r by {
      assert multiset(r)[d] == multiset(grown)[d] >= 1;
      assert d in multiset(r);
    }
    forall s | s in ks && s != ks[j] ensures s in r {
      assert multiset(r)[s] == multiset(grown)[s] >= multiset(ks)[s] >= 1;
      assert s in multiset(r);
    }
    if ks[i] == ks[j] {
      TwoCopies(ks, i, j);
      assert multiset(grown)[ks[j]] >= 2;
      assert ks[j] in multiset(r);
    } else {
      assert ks[i] in r;
      DeriveComplete(ks[j], ks[i], layout);
    }
  }

  /** Equal entries at two positions occur at least twice in the sequence. */
  lemma TwoCopies<T>(xs: seq<T>, i: int, j: int)
    requires 0 <= i < |xs| && 0 <= j < |xs| && i != j && xs[i] == xs[j]
    ensures multiset(xs)[xs[i]] >= 2
  {
    var p, q := if i < j then i else j, if i < j then j else i;
    assert xs == xs[..p] + [xs[p]] + xs[p + 1..q] + [xs[q]] + xs[q + 1..];
  }

  /**
   * Recording a revealed cell loses no information: a layout that fits the
   * state after the report about `cell`, whose neighbours are `near`, fits
   * the state before it and agrees with the report, provided the report was
   * true of some layout that fitted the state before.
   */
  lemma ReportComplete(mines: set<Cell>, safes: set<Cell>, ks: seq<Sentence>, cell: Cell, count: int,
                       near: set<Cell>, layout: set<Cell>, l: set<Cell>)
    requires Sound(mines, safes, ks, layout) && cell !in layout && count == |near * layout|
    requires var added := near - (safes + {cell});
      Sound(mines, safes + {cell}, ks + (if added != {} then [Sentence(added, count)] else []), l)
    ensures Sound(mines, safes, ks, l) && cell !in l && count == |near * l|
  {
    var added := near - (safes + {cell});
    var grown := ks + (if added != {} then [Sentence(added, count)] else []);
    forall t | t in ks ensures Holds(t, l) {
      assert t in grown;
    }
    if added != {} {
      assert Sentence(added, count) in grown;
      assert added * l == near * l;
    } else {
      assert near * layout == {} && near * l == {};
    }
  }

  /** One step of pruning over a copy: removing an empty sentence by value removes that very sentence. */
  lemma PruneStep(snapshot: seq<Sentence>, k: int)
    requires 0 <= k < |snapshot|
    ensures var next := Pruned(snapshot[..k + 1]) + snapshot[k + 1..];
      if snapshot[k].cells == {}
      then RemoveFirst(Pruned(snapshot[..k]) + snapshot[k..], snapshot[k]) == next
      else Pruned(snapshot[..k]) + snapshot[k..] == next
  {
    var done, s, rest := snapshot[..k], snapshot[k], snapshot[k + 1..];
    assert snapshot[..k + 1] == done + [s];
    assert snapshot[k..] == [s] + rest;
    if s.cells == {} {
      DropEmpty(done, s, rest);
    } else {
      KeepNonEmpty(done, s, rest);
    }
  }

  lemma DropEmpty(done: seq<Sentence>, s: Sentence, rest: seq<Sentence>)
    requires s.cells == {}
    ensures RemoveFirst(Pruned(done) + ([s] + rest), s) == Pruned(done + [s]) + rest
  {
    PrunedSnoc(done, s);
    var p := Pruned(done);
    assert s !in p;
    RemoveFirstSkips(p, [s] + rest, s);
    RemoveFirstHead(s, rest);
    assert Pruned(done + [s]) == p + [];
    assert p + [] == p;
  }

  lemma KeepNonEmpty(done: seq<Sentence>, s: Sentence, rest: seq<Sentence>)
    requires s.cells != {}
    ensures Pruned(done) + ([s] + rest) == Pruned(done + [s]) + rest
  {
    PrunedSnoc(done, s);
    Regroup(Pruned(done), s, rest);
  }

  lemma Regroup<T>(a: seq<T>, x: T, b: seq<T>)
    ensures a + ([x] + b) == (a + [x]) + b
  {
  }

  lemma RemoveFirstHead<T>(x: T, b: seq<T>)
    ensures RemoveFirst([x] + b, x) == b
  {
    assert ([x] + b)[1..] == b;
  }

  /** Pruning a list extended by one sentence extends the pruned list by that sentence if it is non-empty. */
  lemma PrunedSnoc(ks: seq<Sentence>, s: Sentence)
    ensures Pruned(ks + [s]) == Pruned(ks) + (if s.cells != {} then [s] else [])
  {
    assert (ks + [s])[..|ks|] == ks;
  }

  /** Pruning keeps only sentences that were there, so true sentences stay true. */
  lemma RemovedStillHold(ks: seq<Sentence>, layout: set<Cell>)
    requires AllHold(ks, layout)
    ensures AllHold(Pruned(ks), layout)
  {
  }
}
