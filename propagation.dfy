/** The states SudokuField.solve passes through, as values: a grid maps every coordinate to the
    state of its cell. The class in module Fields is proved to follow these definitions; the
    lemmas here are what make its loop invariant hold. */
module Propagation {
  import opened Topology
  import opened Numbers
  import opened Validation

  type Grid = map<Coord, CellState>

  /** Every coordinate of the field. */
  function AllCells(): (s: set<Coord>)
    ensures forall p :: p in s <==> InGrid(p)
  {
    var s := set i, j | 0 <= i < 9 && 0 <= j < 9 :: (i, j);
    assert forall p :: InGrid(p) ==> (p.0, p.1) in s;
    s
  }

  /** A cell for every coordinate, each with nine mask entries. */
  ghost predicate Shaped(g: Grid) {
    && (forall p :: p in g <==> InGrid(p))
    && (forall p :: p in g ==> |g[p].mask| == 9)
  }

  /** The init_field SudokuField accepts: 9x9, every entry a number 0..9 (0 for a blank). */
  predicate IsClues(clues: seq<seq<int>>) {
    IsMatrix(clues) && forall i, j :: 0 <= i < 9 && 0 <= j < 9 ==> 0 <= clues[i][j] <= 9
  }

  /** Two grids with the same cell at every coordinate are the same grid. */
  lemma SameCells(g: Grid, h: Grid)
    requires Shaped(g) && Shaped(h)
    requires forall p :: InGrid(p) ==> g[p] == h[p]
    ensures g == h
  {
  }

  /** The field SudokuField(init_field) builds: one SudokuNumber per entry. */
  function InitGrid(clues: seq<seq<int>>): (g: Grid)
    requires IsClues(clues)
    ensures Shaped(g)
    ensures forall p :: p in g ==> g[p] == Init(clues[p.0][p.1])
  {
    map p | p in AllCells() :: Init(clues[p.0][p.1])
  }

  /** get_current_field: the solution of every cell, 0 where the cell is unsolved. */
  function Values(g: Grid): (m: seq<seq<int>>)
    requires Shaped(g)
    ensures IsMatrix(m)
    ensures forall i, j :: 0 <= i < 9 && 0 <= j < 9 ==> m[i][j] == g[(i, j)].solution
  {
    seq(9, i requires 0 <= i < 9 => seq(9, j requires 0 <= j < 9 => g[(i, j)].solution))
  }

  /** The grid after a run of mark calls, and the coordinates whose mark reported a solution. */
  datatype Marked = Marked(grid: Grid, found: seq<Coord>)

  /** One mark loop of solve: every target in turn is marked with v, and each target whose
      mark returned True is appended, in order. */
  function MarkAll(g: Grid, v: int, targets: seq<Coord>): (r: Marked)
    requires Shaped(g) && 1 <= v <= 9
    requires OnGrid(targets)
    ensures Shaped(r.grid)
    decreases |targets|
  {
    if targets == [] then Marked(g, [])
    else
      var prev := MarkAll(g, v, targets[..|targets| - 1]);
      var q := targets[|targets| - 1];
      var o := Eliminate(prev.grid[q], v);
      Marked(prev.grid[q := o.cell], prev.found + if o.found then [q] else [])
  }

  /** One more target: marking t + [q] is marking t, then q. */
  lemma MarkAllSnoc(g: Grid, v: int, t: seq<Coord>, q: Coord)
    requires Shaped(g) && 1 <= v <= 9
    requires OnGrid(t)
    requires InGrid(q)
    ensures OnGrid(t + [q])
    ensures var prev := MarkAll(g, v, t);
            var o := Eliminate(prev.grid[q], v);
            MarkAll(g, v, t + [q]) == Marked(prev.grid[q := o.cell], prev.found + if o.found then [q] else [])
  {
    assert (t + [q])[..|t + [q]| - 1] == t;
  }

  /** The mark loop after k + 1 targets is the loop after k targets, then one more mark; the
      worklist it extends grows by that mark's report. */
  lemma MarkAllPrefix(g: Grid, v: int, t: seq<Coord>, k: int, list: seq<Coord>)
    requires Shaped(g) && 1 <= v <= 9 && OnGrid(t) && 0 <= k < |t|
    ensures OnGrid(t[..k]) && OnGrid(t[..k + 1])
    ensures var prev := MarkAll(g, v, t[..k]);
            var o := Eliminate(prev.grid[t[k]], v);
            && MarkAll(g, v, t[..k + 1]).grid == prev.grid[t[k] := o.cell]
            && list + MarkAll(g, v, t[..k + 1]).found == list + prev.found + if o.found then [t[k]] else []
  {
    assert t[..k + 1] == t[..k] + [t[k]];
    MarkAllSnoc(g, v, t[..k], t[k]);
    var prev := MarkAll(g, v, t[..k]);
    var extra := if Eliminate(prev.grid[t[k]], v).found then [t[k]] else [];
    AppendAssoc(list, prev.found, extra);
  }

  lemma MarkAllWhole(g: Grid, v: int, t: seq<Coord>)
    requires Shaped(g) && 1 <= v <= 9 && OnGrid(t)
    ensures OnGrid(t[..|t|]) && MarkAll(g, v, t[..|t|]) == MarkAll(g, v, t)
  {
    assert t[..|t|] == t;
  }

  /** Marking the targets of a and then those of b is marking those of a + b: the row, column
      and sector loops together act as one loop over Targets. */
  lemma {:induction false} MarkAllAppend(g: Grid, v: int, a: seq<Coord>, b: seq<Coord>)
    requires Shaped(g) && 1 <= v <= 9
    requires OnGrid(a)
    requires OnGrid(b)
    ensures OnGrid(a + b)
    ensures var first := MarkAll(g, v, a);
            var second := MarkAll(first.grid, v, b);
            MarkAll(g, v, a + b) == Marked(second.grid, first.found + second.found)
    decreases |b|
  {
    var first := MarkAll(g, v, a);
    if b == [] {
      assert a + b == a;
      assert first.found + [] == first.found;
    } else {
      var b', q := b[..|b| - 1], b[|b| - 1];
      assert b == b' + [q];
      assert a + b == (a + b') + [q];
      MarkAllAppend(g, v, a, b');
      var mid := MarkAll(first.grid, v, b');
      var o := Eliminate(mid.grid[q], v);
      var extra := if o.found then [q] else [];
      assert MarkAll(g, v, a + b) == Marked(mid.grid[q := o.cell], (first.found + mid.found) + extra) by {
        MarkAllSnoc(g, v, a + b', q);
      }
      assert MarkAll(first.grid, v, b) == Marked(mid.grid[q := o.cell], mid.found + extra) by {
        MarkAllSnoc(first.grid, v, b', q);
      }
      AppendAssoc(first.found, mid.found, extra);
    }
  }

  /** Marking distinct targets changes each target as one mark would and leaves every other cell
      alone; a target is reported exactly when its own mark reports a solution. */
  lemma {:induction false} MarkAllEffect(g: Grid, v: int, targets: seq<Coord>)
    requires Shaped(g) && 1 <= v <= 9
    requires OnGrid(targets)
    requires Distinct(targets)
    ensures forall p :: p in g ==>
              MarkAll(g, v, targets).grid[p] == if p in targets then Eliminate(g[p], v).cell else g[p]
    ensures forall q :: q in MarkAll(g, v, targets).found <==> q in targets && Eliminate(g[q], v).found
    ensures Distinct(MarkAll(g, v, targets).found)
    decreases |targets|
  {
    if targets != [] {
      var front := targets[..|targets| - 1];
      var q := targets[|targets| - 1];
      assert forall x :: x in targets <==> x in front || x == q;
      assert q !in front;
      MarkAllEffect(g, v, front);
    }
  }

  /** Every cell keeps the SudokuNumber invariant. */
  ghost predicate AllWellFormed(g: Grid) {
    forall p :: p in g ==> WellFormed(g[p])
  }

  /** Every clue is still the solution of its cell. */
  ghost predicate KeepsClues(g: Grid, clues: seq<seq<int>>)
    requires IsClues(clues)
  {
    forall p :: p in g && InGrid(p) && clues[p.0][p.1] != 0 ==> g[p].solution == clues[p.0][p.1]
  }

  /** No peer of the solved cell p can still take p's value: each is solved or has it marked. */
  ghost predicate Propagated(g: Grid, p: Coord)
    requires Shaped(g) && InGrid(p)
  {
    forall q :: IsPeer(p, q) ==> g[q].solution != 0 || g[p].solution !in Candidates(g[q].mask)
  }

  /** The fixpoint solve reaches: every solved cell has been propagated to its peers. */
  ghost predicate Settled(g: Grid)
    requires Shaped(g)
  {
    forall p :: p in g && g[p].solution != 0 ==> Propagated(g, p)
  }

  /** Every solved cell that is not a clue has been propagated; clues may not be yet. */
  ghost predicate Stable(g: Grid, clues: seq<seq<int>>)
    requires Shaped(g) && IsClues(clues)
  {
    forall p :: p in g && g[p].solution != 0 && clues[p.0][p.1] == 0 ==> Propagated(g, p)
  }

  /** Every cell is consistent with the solved grid s. */
  ghost predicate Admits(g: Grid, s: seq<seq<int>>)
    requires IsMatrix(s)
  {
    forall p :: p in g && InGrid(p) ==> Allows(g[p], s[p.0][p.1])
  }

  /** No solution of the puzzle has been ruled out: elimination is sound. */
  ghost predicate Sound(g: Grid, clues: seq<seq<int>>) {
    forall s :: IsSolutionOf(s, clues) ==> Admits(g, s)
  }

  /** What holds of a SudokuField's cells between calls. */
  ghost predicate Consistent(g: Grid, clues: seq<seq<int>>) {
    && IsClues(clues)
    && Shaped(g)
    && AllWellFormed(g)
    && KeepsClues(g, clues)
    && Sound(g, clues)
    && Stable(g, clues)
  }

  /** What holds of solve's worklist loop before it processes entry idx: the cells are consistent
      bar propagation, the list is repetition-free and holds solved cells only, and every solved
      cell is either propagated already or still waiting at or after idx. */
  ghost predicate Running(g: Grid, clues: seq<seq<int>>, list: seq<Coord>, idx: int) {
    && IsClues(clues)
    && Shaped(g)
    && AllWellFormed(g)
    && KeepsClues(g, clues)
    && Sound(g, clues)
    && 0 <= idx <= |list|
    && Distinct(list)
    && (forall i :: 0 <= i < |list| ==> InGrid(list[i]) && g[list[i]].solution != 0)
    && (forall p :: p in g && g[p].solution != 0 ==> Propagated(g, p) || p in list[idx..])
  }

  /** The coordinates of the non-zero clues among the first k positions, in row-major order
      (numpy.where(init_field != 0)). */
  function ClueCoords(clues: seq<seq<int>>, k: nat): seq<Coord>
    requires IsClues(clues) && k <= 81
  {
    if k == 0 then []
    else
      var p := ((k - 1) / 9, (k - 1) % 9);
      ClueCoords(clues, k - 1) + if clues[p.0][p.1] != 0 then [p] else []
  }

  /** ClueCoords lists exactly the clue positions before k, each on the field and non-zero, in
      strictly increasing row-major order. */
  lemma {:induction false} ClueCoordsSpec(clues: seq<seq<int>>, k: nat)
    requires IsClues(clues) && k <= 81
    ensures forall i :: 0 <= i < |ClueCoords(clues, k)| ==>
              var p := ClueCoords(clues, k)[i]; InGrid(p) && Flat(p) < k && clues[p.0][p.1] != 0
    ensures forall i, j :: 0 <= i < j < |ClueCoords(clues, k)| ==>
              Flat(ClueCoords(clues, k)[i]) < Flat(ClueCoords(clues, k)[j])
    ensures forall p :: InGrid(p) && Flat(p) < k && clues[p.0][p.1] != 0 ==> p in ClueCoords(clues, k)
  {
    if k > 0 {
      ClueCoordsSpec(clues, k - 1);
      var p := ((k - 1) / 9, (k - 1) % 9);
      assert Flat(p) == k - 1;
      forall q | InGrid(q) && Flat(q) == k - 1 ensures q == p {
        FlatInverse(q);
      }
    }
  }

  lemma FlatInverse(p: Coord)
    requires InGrid(p)
    ensures Flat(p) / 9 == p.0 && Flat(p) % 9 == p.1
  {
  }

  /** Points in strictly increasing row-major order are pairwise different. */
  lemma IncreasingIsDistinct(s: seq<Coord>)
    requires forall i, j :: 0 <= i < j < |s| ==> Flat(s[i]) < Flat(s[j])
    ensures Distinct(s)
  {
  }

  /** SudokuField(init_field) starts consistent: every cell is well formed, every clue is a
      solved cell, no solution is excluded, and only the clues are solved. */
  lemma InitGridConsistent(clues: seq<seq<int>>)
    requires IsClues(clues)
    ensures Consistent(InitGrid(clues), clues)
  {
    var g := InitGrid(clues);
    forall s | IsSolutionOf(s, clues) ensures Admits(g, s) {
      forall p | p in g && InGrid(p) ensures Allows(g[p], s[p.0][p.1]) {
        assert 1 <= At(s, p) <= 9;
      }
    }
  }

  /** A consistent field seeded with its clue coordinates satisfies the loop invariant. */
  lemma SeedStartsRun(g: Grid, clues: seq<seq<int>>)
    requires Consistent(g, clues)
    ensures Running(g, clues, ClueCoords(clues, 81), 0)
  {
    var list := ClueCoords(clues, 81);
    ClueCoordsSpec(clues, 81);
    IncreasingIsDistinct(list);
    forall p | p in g && g[p].solution != 0 && clues[p.0][p.1] != 0 ensures p in list[0..] {
      assert list[0..] == list;
    }
  }

  /** A solved cell whose peers only ever narrow stays propagated. */
  lemma NarrowingKeepsPropagated(g: Grid, g': Grid, p: Coord)
    requires Shaped(g) && Shaped(g') && InGrid(p) && g[p].solution != 0
    requires forall q :: q in g ==> Narrows(g[q], g'[q])
    requires Propagated(g, p)
    ensures Propagated(g', p)
  {
    forall q | IsPeer(p, q) ensures g'[q].solution != 0 || g'[p].solution !in Candidates(g'[q].mask) {
      assert Narrows(g[q], g'[q]);
    }
  }

  /** Processing one worklist entry: solve reads the value v of cell p and marks it on the
      row, column and sector targets of p, appending every cell that becomes solved. */
  function Process(g: Grid, p: Coord): (r: Marked)
    requires Shaped(g) && InGrid(p) && 1 <= g[p].solution <= 9
    ensures Shaped(r.grid)
  {
    TargetsOnGrid(p.0, p.1);
    MarkAll(g, g[p].solution, Targets(p.0, p.1))
  }

  /** g' is g with v marked off every peer of p, and nothing else changed. */
  ghost predicate MarkedAround(g: Grid, g': Grid, p: Coord, v: int)
    requires Shaped(g) && 1 <= v <= 9
  {
    forall q :: q in g ==> q in g' && g'[q] == if IsPeer(p, q) then Eliminate(g[q], v).cell else g[q]
  }

  /** Marking around p only narrows cells, and keeps every cell well formed and every clue. */
  lemma MarkedAroundNarrows(g: Grid, g': Grid, clues: seq<seq<int>>, p: Coord, v: int)
    requires IsClues(clues) && Shaped(g) && Shaped(g') && AllWellFormed(g) && KeepsClues(g, clues)
    requires 1 <= v <= 9 && MarkedAround(g, g', p, v)
    ensures Narrowed(g, g') && AllWellFormed(g') && KeepsClues(g', clues)
  {
    forall q | q in g ensures WellFormed(g'[q]) && Narrows(g[q], g'[q]) {
      if IsPeer(p, q) {
        EliminateKeepsWellFormed(g[q], v);
        EliminateNarrows(g[q], v);
      }
    }
  }

  /** Marking p's value around p rules out no solution: in a solution, no peer of p holds
      p's value. */
  lemma MarkedAroundSound(g: Grid, g': Grid, clues: seq<seq<int>>, p: Coord)
    requires IsClues(clues) && Shaped(g) && Shaped(g') && AllWellFormed(g) && Sound(g, clues)
    requires InGrid(p) && 1 <= g[p].solution <= 9 && MarkedAround(g, g', p, g[p].solution)
    ensures Sound(g', clues)
  {
    var v := g[p].solution;
    assert WellFormed(g[p]) && v in Candidates(g[p].mask);
    forall s | IsSolutionOf(s, clues) ensures Admits(g', s) {
      assert Admits(g, s);
      forall q | q in g' && InGrid(q) ensures Allows(g'[q], s[q.0][q.1]) {
        if IsPeer(p, q) {
          assert At(s, p) != At(s, q);
          EliminateKeepsAllowed(g[q], v, s[q.0][q.1]);
        }
      }
    }
  }

  /** After marking p's value around p, p is propagated. */
  lemma MarkedAroundPropagates(g: Grid, g': Grid, p: Coord)
    requires Shaped(g) && Shaped(g') && InGrid(p) && 1 <= g[p].solution <= 9
    requires MarkedAround(g, g', p, g[p].solution)
    ensures Propagated(g', p)
  {
    var v := g[p].solution;
    assert !IsPeer(p, p);
    forall q | IsPeer(p, q) ensures g'[q].solution != 0 || v !in Candidates(g'[q].mask) {
      EliminateSpec(g[q], v);
    }
  }

  /** Processing p marks p's value off every peer of p and off nothing else. */
  lemma ProcessMarksAround(g: Grid, p: Coord)
    requires Shaped(g) && InGrid(p) && 1 <= g[p].solution <= 9
    ensures MarkedAround(g, Process(g, p).grid, p, g[p].solution)
  {
    TargetsArePeers(p.0, p.1);
    MarkAllEffect(g, g[p].solution, Targets(p.0, p.1));
  }

  /** Processing a solved cell p of value v marks v off every peer of p and only there, keeps
      every cell well formed and every clue, only narrows cells, leaves p propagated, and rules
      out no solution of the puzzle. */
  lemma ProcessCells(g: Grid, clues: seq<seq<int>>, p: Coord)
    requires IsClues(clues) && Shaped(g) && AllWellFormed(g) && KeepsClues(g, clues) && Sound(g, clues)
    requires InGrid(p) && g[p].solution != 0
    ensures 1 <= g[p].solution <= 9
    ensures var g' := Process(g, p).grid;
            && MarkedAround(g, g', p, g[p].solution)
            && Narrowed(g, g')
            && AllWellFormed(g') && KeepsClues(g', clues) && Sound(g', clues)
            && Propagated(g', p)
  {
    assert WellFormed(g[p]);
    var g' := Process(g, p).grid;
    ProcessMarksAround(g, p);
    MarkedAroundNarrows(g, g', clues, p, g[p].solution);
    MarkedAroundSound(g, g', clues, p);
    MarkedAroundPropagates(g, g', p);
  }

  /** The cells processing p reports are exactly the peers its marks solved, each once. */
  lemma ProcessFound(g: Grid, p: Coord)
    requires Shaped(g) && InGrid(p) && 1 <= g[p].solution <= 9
    ensures var r := Process(g, p);
            && Distinct(r.found)
            && forall q :: q in r.found <==> IsPeer(p, q) && g[q].solution == 0 && r.grid[q].solution != 0
  {
    var v := g[p].solution;
    var targets := Targets(p.0, p.1);
    TargetsArePeers(p.0, p.1);
    MarkAllEffect(g, v, targets);
    var r := Process(g, p);
    forall q ensures q in r.found <==> IsPeer(p, q) && g[q].solution == 0 && r.grid[q].solution != 0 {
      if IsPeer(p, q) && g[q].solution == 0 {
        var o := Eliminate(g[q], v);
        assert o.found <==> o.cell.solution != 0;
      }
    }
  }

  /** Appending cells that were unsolved and are now solved keeps the worklist free of
      repetitions and made of solved cells only. */
  lemma AppendNewlySolved(g: Grid, g': Grid, list: seq<Coord>, found: seq<Coord>)
    requires Shaped(g) && Shaped(g')
    requires forall q :: q in g ==> Narrows(g[q], g'[q])
    requires Distinct(list) && (forall i :: 0 <= i < |list| ==> InGrid(list[i]) && g[list[i]].solution != 0)
    requires Distinct(found) && (forall q :: q in found ==> InGrid(q) && g[q].solution == 0 && g'[q].solution != 0)
    ensures Distinct(list + found)
    ensures forall i :: 0 <= i < |list + found| ==> InGrid((list + found)[i]) && g'[(list + found)[i]].solution != 0
  {
    var list' := list + found;
    forall i | 0 <= i < |list'| ensures InGrid(list'[i]) && g'[list'[i]].solution != 0 {
      if i >= |list| {
        assert list'[i] in found;
      } else {
        assert Narrows(g[list[i]], g'[list[i]]);
      }
    }
    forall i, j | 0 <= i < j < |list'| ensures list'[i] != list'[j] {
      if j >= |list| && i < |list| {
        assert list'[j] in found;
      }
    }
  }

  /** After processing entry idx, every solved cell is propagated or waits after idx. */
  lemma ProcessCovers(g: Grid, g': Grid, list: seq<Coord>, found: seq<Coord>, idx: int)
    requires Shaped(g) && Shaped(g') && 0 <= idx < |list| && InGrid(list[idx])
    requires g[list[idx]].solution != 0 && Propagated(g', list[idx])
    requires forall q :: q in g ==> Narrows(g[q], g'[q])
    requires forall q :: q in g && g[q].solution != 0 ==> Propagated(g, q) || q in list[idx..]
    requires forall q :: q in g && g[q].solution == 0 && g'[q].solution != 0 ==> q in found
    ensures forall q :: q in g' && g'[q].solution != 0 ==> Propagated(g', q) || q in (list + found)[idx + 1..]
  {
    var p := list[idx];
    var list' := list + found;
    forall q | q in g' && g'[q].solution != 0 ensures Propagated(g', q) || q in list'[idx + 1..] {
      if q == p {
      } else if g[q].solution != 0 {
        if Propagated(g, q) {
          NarrowingKeepsPropagated(g, g', q);
        } else {
          var i :| idx <= i < |list| && list[i] == q;
          assert list'[i] == q;
        }
      } else {
        assert Narrows(g[q], g'[q]);
        assert q in found;
        var j :| 0 <= j < |found| && found[j] == q;
        assert list'[|list| + j] == q;
      }
    }
  }

  /** Processing entry idx keeps the loop invariant, with the newly solved cells appended. */
  lemma ProcessKeepsRunning(g: Grid, clues: seq<seq<int>>, list: seq<Coord>, idx: int)
    requires Running(g, clues, list, idx) && idx < |list|
    ensures var p := list[idx];
            1 <= g[p].solution <= 9 &&
            var r := Process(g, p);
            && Running(r.grid, clues, list + r.found, idx + 1)
            && Narrowed(g, r.grid)
  {
    var p := list[idx];
    ProcessCells(g, clues, p);
    ProcessFound(g, p);
    var r := Process(g, p);
    AppendNewlySolved(g, r.grid, list, r.found);
    ProcessCovers(g, r.grid, list, r.found, idx);
  }

  /** When the worklist is exhausted, the field is consistent again and settled. */
  lemma FinishedRunIsSettled(g: Grid, clues: seq<seq<int>>, list: seq<Coord>)
    requires Running(g, clues, list, |list|)
    ensures Consistent(g, clues) && Settled(g)
  {
  }

  /** The cells and the whole worklist when solve's loop is over. */
  datatype Finished = Finished(grid: Grid, list: seq<Coord>)

  /** solve's worklist loop from entry idx on: while entries remain, the entry at idx is
      processed and the cells it solves are appended to the list. */
  ghost function Run(g: Grid, clues: seq<seq<int>>, list: seq<Coord>, idx: int): Finished
    requires Running(g, clues, list, idx)
    decreases 81 - idx
  {
    if idx == |list| then Finished(g, list)
    else
      DistinctCoordsBound(list);
      ProcessKeepsRunning(g, clues, list, idx);
      var r := Process(g, list[idx]);
      Run(r.grid, clues, list + r.found, idx + 1)
  }

  /** All of solve after SudokuField(init_field): the loop run from the clue coordinates. */
  ghost function Solved(g: Grid, clues: seq<seq<int>>): Finished
    requires Consistent(g, clues)
  {
    SeedStartsRun(g, clues);
    Run(g, clues, ClueCoords(clues, 81), 0)
  }

  /** The run ends with every entry processed and cells only narrowed, and the list it started
      with is a prefix of the final list. */
  lemma {:induction false} RunSettles(g: Grid, clues: seq<seq<int>>, list: seq<Coord>, idx: int)
    requires Running(g, clues, list, idx)
    ensures var f := Run(g, clues, list, idx);
            && Running(f.grid, clues, f.list, |f.list|)
            && Narrowed(g, f.grid)
            && list <= f.list
    decreases 81 - idx
  {
    DistinctCoordsBound(list);
    if idx < |list| {
      ProcessKeepsRunning(g, clues, list, idx);
      var r := Process(g, list[idx]);
      RunSettles(r.grid, clues, list + r.found, idx + 1);
      var f := Run(g, clues, list, idx);
      assert f == Run(r.grid, clues, list + r.found, idx + 1);
      NarrowedTransitive(g, r.grid, f.grid);
      assert list <= f.list by {
        PrefixTransitive(list, list + r.found, f.list);
      }
    }
  }

  lemma PrefixTransitive<T>(a: seq<T>, b: seq<T>, c: seq<T>)
    requires a <= b && b <= c
    ensures a <= c
  {
    assert a == b[..|a|] && b == c[..|b|];
  }

  /** solve leaves the cells consistent and settled, keeps the clues, and only narrows. */
  lemma SolvedSettles(g: Grid, g': Grid, clues: seq<seq<int>>)
    requires Consistent(g, clues) && g' == Solved(g, clues).grid
    ensures Consistent(g', clues) && Settled(g')
    ensures Narrowed(g, g')
    ensures Keeps(Values(g'), clues)
  {
    SeedStartsRun(g, clues);
    var seeds := ClueCoords(clues, 81);
    assert g' == Run(g, clues, seeds, 0).grid;
    RunSettles(g, clues, seeds, 0);
    FinishedRunIsSettled(g', clues, Run(g, clues, seeds, 0).list);
    ValuesKeepClues(g', clues);
  }

  /** Every cell of g' is a narrowing of the same cell of g. */
  ghost predicate Narrowed(g: Grid, g': Grid) {
    forall q :: q in g ==> q in g' && Narrows(g[q], g'[q])
  }

  /** Narrowing composes: cells only narrowed in two stretches are only narrowed overall. */
  lemma NarrowedTransitive(a: Grid, b: Grid, c: Grid)
    requires Narrowed(a, b) && Narrowed(b, c)
    ensures Narrowed(a, c)
  {
  }

  /** The matrix read out of a grid that keeps every clue holds every clue unchanged. */
  lemma ValuesKeepClues(g: Grid, clues: seq<seq<int>>)
    requires IsClues(clues) && Shaped(g) && KeepsClues(g, clues)
    ensures Keeps(Values(g), clues)
  {
    var m := Values(g);
    forall i, j | 0 <= i < 9 && 0 <= j < 9 && clues[i][j] != 0 ensures m[i][j] == clues[i][j] {
      assert InGrid((i, j));
    }
  }

  /** If every cell is solved and the puzzle has a solution s, the field is s, and check accepts
      it against the puzzle: a complete answer of solve is the puzzle's only solution. */
  lemma CompleteIsTheSolution(g: Grid, clues: seq<seq<int>>, s: seq<seq<int>>)
    requires Consistent(g, clues)
    requires forall p :: p in g ==> g[p].solution != 0
    requires IsSolutionOf(s, clues)
    ensures Values(g) == s
    ensures Check(Values(g), Some(clues))
  {
    assert Admits(g, s) && IsMatrix(clues);
    AdmittedComplete(g, s);
    CheckIffSolution(s, clues);
  }

  /** A grid whose every cell is solved and consistent with s reads out as s. */
  lemma AdmittedComplete(g: Grid, s: seq<seq<int>>)
    requires Shaped(g) && IsMatrix(s) && Admits(g, s)
    requires forall p :: p in g ==> g[p].solution != 0
    ensures Values(g) == s
  {
    var m := Values(g);
    forall i | 0 <= i < 9 ensures m[i] == s[i] {
      forall j | 0 <= j < 9 ensures m[i][j] == s[i][j] {
        assert (i, j) in g;
      }
    }
  }
}
