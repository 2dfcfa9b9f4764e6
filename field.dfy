/** SudokuField: the 9x9 field of SudokuNumber cells and the naked-single solver over it. */
module Fields {
  import opened Topology
  import opened Numbers
  import opened Validation
  import opened Stacking
  import opened Propagation

  class SudokuField {
    /** The clues the field was built from, 0 for a blank. */
    const initField: seq<seq<int>>
    /** One SudokuNumber per coordinate; the cells change, the array never does. */
    const field: array2<SudokuNumber>
    /** Every cell and every mask of the field. */
    ghost const Repr: set<object>
    /** The coordinate each cell and each mask belongs to: no two coordinates share either. */
    ghost const Owner: map<object, Coord>

    ghost predicate Structure()
      reads field
    {
      && IsClues(initField)
      && field.Length0 == 9 && field.Length1 == 9
      && field !in Repr
      && forall i, j :: 0 <= i < 9 && 0 <= j < 9 ==>
           && field[i, j] in Repr && field[i, j].mask in Repr
           && field[i, j] in Owner && Owner[field[i, j]] == (i, j)
           && field[i, j].mask in Owner && Owner[field[i, j].mask] == (i, j)
           && field[i, j].mask.Length == 9
    }

    /** The state of every cell. */
    ghost function Cells(): (g: Grid)
      reads field, Repr
      requires Structure()
      ensures Shaped(g)
      ensures forall p :: InGrid(p) ==> g[p] == field[p.0, p.1].State()
    {
      map p | p in AllCells() :: field[p.0, p.1].State()
    }

    ghost predicate Valid()
      reads field, Repr
    {
      Structure() && Consistent(Cells(), initField)
    }

    /** SudokuField(init_field): one fresh SudokuNumber per entry. */
    constructor (init: seq<seq<int>>)
      requires IsClues(init)
      ensures initField == init
      ensures Structure() && Cells() == InitGrid(init)
      ensures Valid()
      ensures fresh(Repr)
    {
      initField := init;
      var rows: seq<seq<SudokuNumber>>;
      ghost var repr: set<object>, owner: map<object, Coord>;
      rows, repr, owner := NewCells(init);
      field := new SudokuNumber[9, 9]((i, j) requires 0 <= i < 9 && 0 <= j < 9 => rows[i][j]);
      Repr := repr;
      Owner := owner;
      new;
      assert Structure();
      ghost var g := Cells();
      forall p | InGrid(p) ensures g[p] == InitGrid(init)[p] {
        assert Built(rows[p.0][p.1], p, init, repr, owner);
      }
      SameCells(g, InitGrid(init));
      InitGridConsistent(init);
    }

    /** get_current_field(): the 9x9 matrix of cell solutions, row by row; it changes no cell. */
    method GetCurrentField() returns (m: seq<seq<int>>)
      requires Structure()
      ensures m == Values(Cells())
      ensures Cells() == old(Cells())
    {
      ghost var grid := Cells();
      m := [];
      for i := 0 to 9
        invariant |m| == i
        invariant forall a :: 0 <= a < i ==> |m[a]| == 9
        invariant forall a, b :: 0 <= a < i && 0 <= b < 9 ==> m[a][b] == grid[(a, b)].solution
      {
        var part: seq<int> := [];
        for j := 0 to 9
          invariant |part| == j
          invariant forall b :: 0 <= b < j ==> part[b] == grid[(i, b)].solution
        {
          assert InGrid((i, j));
          part := part + [field[i, j].solution];
        }
        m := m + [part];
      }
      ReadOut(grid, m);
    }

    /** One mark loop of solve: marks v on each target in turn and appends to the worklist every
        target whose mark reports a solution. */
    method MarkCells(v: int, targets: seq<Coord>, list: seq<Coord>) returns (grown: seq<Coord>)
      requires Structure() && 1 <= v <= 9
      requires OnGrid(targets)
      modifies Repr
      ensures Cells() == MarkAll(old(Cells()), v, targets).grid
      ensures grown == list + MarkAll(old(Cells()), v, targets).found
    {
      ghost var g0 := Cells();
      ghost var grid := g0;
      grown := list;
      for k := 0 to |targets|
        invariant Structure() && grid == Cells()
        invariant grid == MarkAll(g0, v, targets[..k]).grid
        invariant grown == list + MarkAll(g0, v, targets[..k]).found
      {
        var q := targets[k];
        MarkAllPrefix(g0, v, targets, k, list);
        var res := MarkAt(q, v);
        grid := Cells();
        if res {
          grown := grown + [q];
        }
      }
      MarkAllWhole(g0, v, targets);
    }

    /** `self.field[row, col].mark(v)`: one cell changes as mark says, no other cell changes. */
    method MarkAt(q: Coord, v: int) returns (found: bool)
      requires Structure() && InGrid(q) && 1 <= v <= 9
      modifies Repr
      ensures Cells() == old(Cells())[q := Eliminate(old(Cells())[q], v).cell]
      ensures found == Eliminate(old(Cells())[q], v).found
    {
      Apart(q);
      found := field[q.0, q.1].Mark(v);
    }

    /** The body of solve's loop for the entry p: reads p's value and runs the row, column and
        sector mark loops with it, each appending the cells it solves. */
    method ProcessEntry(p: Coord, list: seq<Coord>) returns (grown: seq<Coord>)
      requires Structure() && InGrid(p) && 1 <= Cells()[p].solution <= 9
      modifies Repr
      ensures Cells() == Process(old(Cells()), p).grid
      ensures grown == list + Process(old(Cells()), p).found
    {
      ghost var before := Cells();
      var v := field[p.0, p.1].solution;
      var row, col, sec := RowTargets(p.0, p.1), ColumnTargets(p.0, p.1), SectorTargets(p.0, p.1);
      TargetsOnGrid(p.0, p.1);
      grown := MarkCells(v, row, list);
      grown := MarkCells(v, col, grown);
      grown := MarkCells(v, sec, grown);
      Composed(before, v, row, col, sec, list);
    }

    /** Cells and masks at different coordinates are different objects. */
    lemma Apart(q: Coord)
      requires Structure() && InGrid(q)
      ensures forall p :: InGrid(p) && p != q ==>
                && field[p.0, p.1] != field[q.0, q.1]
                && field[p.0, p.1].mask != field[q.0, q.1].mask
    {
    }

    /** The first lines of solve: numpy.where(init_field != 0) split into its row and column
        lists, which vstack pairs up again; the worklist starts as the clue coordinates in
        row-major order. */
    method Seeds() returns (list: seq<Coord>)
      requires IsClues(initField)
      ensures list == ClueCoords(initField, 81)
    {
      var seeds := ClueCoords(initField, 81);
      var coordx := seq(|seeds|, k requires 0 <= k < |seeds| => seeds[k].0);
      var coordy := seq(|seeds|, k requires 0 <= k < |seeds| => seeds[k].1);
      var lists := [coordx, coordy];
      assert lists[0] == coordx && lists[1] == coordy;
      assert !Ragged(lists);
      var stacked := VStack(lists);
      list := [];
      if stacked.Rows? {
        var rows := stacked.rows;
        list := seq(|rows|, k requires 0 <= k < |rows| && |rows[k]| == 2 => (rows[k][0], rows[k][1]));
        forall k | 0 <= k < |seeds| ensures list[k] == seeds[k] {
          assert rows[k][0] == lists[0][k] && rows[k][1] == lists[1][k];
        }
      }
    }

    /** solve(): seeds the worklist with the clue coordinates (numpy.where, then vstack), runs
        the worklist, and returns get_current_field(). The cells end as Solved says: consistent
        with the clues and settled, no solved cell's value still a candidate of an unsolved peer. */
    method Solve() returns (result: seq<seq<int>>)
      requires Valid()
      modifies Repr
      ensures Cells() == Solved(old(Cells()), initField).grid
      ensures Valid() && Settled(Cells())
      ensures Narrowed(old(Cells()), Cells())
      ensures result == Values(Cells()) && Keeps(result, initField)
    {
      ghost var start := Cells();
      var list := Seeds();
      ghost var list0 := list;
      SeedStartsRun(start, initField);
      assert Running(start, initField, list, 0);
      assert Structure() && Cells() == start;
      list := Propagate(list);
      ghost var end := Cells();
      assert Run(start, initField, list0, 0).grid == end;
      assert end == Solved(start, initField).grid;
      SolvedSettles(start, end, initField);
      result := GetCurrentField();
    }

    /** The loop of solve: for every entry of the worklist, including those appended on the way,
        marks the entry's value on its row, its column and the rest of its sector. The cells and
        the whole worklist it returns are those Run gives. */
    method Propagate(seeds: seq<Coord>) returns (list: seq<Coord>)
      requires Structure() && Running(Cells(), initField, seeds, 0)
      modifies Repr
      ensures Structure() && Run(old(Cells()), initField, seeds, 0) == Finished(Cells(), list)
    {
      list := seeds;
      ghost var start := Cells();
      ghost var grid := start;
      var idx := 0;
      while idx < |list|
        invariant Structure() && grid == Cells()
        invariant Running(grid, initField, list, idx)
        invariant Run(grid, initField, list, idx) == Run(start, initField, seeds, 0)
        decreases 81 - idx
      {
        DistinctCoordsBound(list);
        ProcessKeepsRunning(grid, initField, list, idx);
        list := ProcessEntry(list[idx], list);
        grid := Cells();
        idx := idx + 1;
      }
    }
  }

  /** A matrix holding every cell's solution is Values of the cells. */
  lemma ReadOut(g: Grid, m: seq<seq<int>>)
    requires Shaped(g)
    requires |m| == 9 && forall a :: 0 <= a < 9 ==> |m[a]| == 9
    requires forall a, b :: 0 <= a < 9 && 0 <= b < 9 ==> m[a][b] == g[(a, b)].solution
    ensures m == Values(g)
  {
    var values := Values(g);
    forall a | 0 <= a < 9 ensures m[a] == values[a] {
      forall b | 0 <= b < 9 ensures m[a][b] == values[a][b] {
        assert InGrid((a, b));
      }
    }
  }

  /** The cell at p was built from its clue and is recorded in repr and owner. */
  ghost predicate Built(cell: SudokuNumber, p: Coord, init: seq<seq<int>>, repr: set<object>, owner: map<object, Coord>)
    reads cell, cell.mask
    requires IsClues(init) && InGrid(p)
  {
    && cell in repr && cell.mask in repr
    && cell in owner && owner[cell] == p
    && cell.mask in owner && owner[cell.mask] == p
    && cell.mask.Length == 9
    && cell.State() == Init(init[p.0][p.1])
  }

  /** The row, column and sector loops run one after another are one MarkAll over Targets. */
  lemma Composed(g: Grid, v: int, row: seq<Coord>, col: seq<Coord>, sec: seq<Coord>, list: seq<Coord>)
    requires Shaped(g) && 1 <= v <= 9
    requires OnGrid(row)
    requires OnGrid(col)
    requires OnGrid(sec)
    ensures var r := MarkAll(g, v, row);
            var c := MarkAll(r.grid, v, col);
            var s := MarkAll(c.grid, v, sec);
            var all := MarkAll(g, v, row + col + sec);
            && s.grid == all.grid
            && list + r.found + c.found + s.found == list + all.found
  {
    MarkAllAppend(g, v, row, col);
    MarkAllAppend(g, v, row + col, sec);
    var r := MarkAll(g, v, row);
    var c := MarkAll(r.grid, v, col);
    var s := MarkAll(c.grid, v, sec);
    AppendAssoc(list + r.found, c.found, s.found);
    AppendAssoc(list, r.found, c.found + s.found);
    AppendAssoc(r.found, c.found, s.found);
  }

  /** The 81 cells of SudokuField(init_field), row by row, each fresh and built from its clue. */
  method NewCells(init: seq<seq<int>>) returns (rows: seq<seq<SudokuNumber>>, ghost repr: set<object>, ghost owner: map<object, Coord>)
    requires IsClues(init)
    ensures |rows| == 9 && forall a :: 0 <= a < 9 ==> |rows[a]| == 9
    ensures forall a, b :: 0 <= a < 9 && 0 <= b < 9 ==> Built(rows[a][b], (a, b), init, repr, owner)
    ensures fresh(repr)
  {
    rows := [];
    repr := {};
    owner := map[];
    for i := 0 to 9
      invariant |rows| == i
      invariant forall a :: 0 <= a < i ==> |rows[a]| == 9
      invariant forall a, b :: 0 <= a < i && 0 <= b < 9 ==> Built(rows[a][b], (a, b), init, repr, owner)
      invariant fresh(repr)
    {
      var part: seq<SudokuNumber> := [];
      for j := 0 to 9
        invariant |part| == j
        invariant forall a, b :: 0 <= a < i && 0 <= b < 9 ==> Built(rows[a][b], (a, b), init, repr, owner)
        invariant forall b :: 0 <= b < j ==> Built(part[b], (i, b), init, repr, owner)
        invariant fresh(repr)
      {
        var cell := new SudokuNumber(init[i][j]);
        repr := repr + {cell, cell.mask};
        owner := owner[cell := (i, j)][cell.mask := (i, j)];
        part := part + [cell];
      }
      rows := rows + [part];
    }
  }
}
