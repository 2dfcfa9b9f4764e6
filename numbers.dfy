/** One cell of the field (SudokuNumber): a nine-entry candidate mask and a solution, 0 while
    the cell is unsolved. Entry k of the mask stands for the number k + 1. */
module Numbers {
  import opened Topology

  /** The value of a cell: what a SudokuNumber holds at one moment. */
  datatype CellState = CellState(solution: int, mask: seq<bool>)

  /** What `mark` leaves behind: the new cell and whether it reported a solution. */
  datatype MarkOutcome = MarkOutcome(cell: CellState, found: bool)

  /** The numbers a mask still allows. */
  function Candidates(mask: seq<bool>): (r: set<int>)
    ensures forall d :: d in r <==> 1 <= d <= |mask| && mask[d - 1]
  {
    set k | 0 <= k < |mask| && mask[k] :: k + 1
  }

  /** mask.sum(): how many entries are still true. */
  function Count(mask: seq<bool>): nat {
    if mask == [] then 0 else Count(mask[..|mask| - 1]) + (if mask[|mask| - 1] then 1 else 0)
  }

  /** numpy.where(mask == True)[0][0]: the first true entry, |mask| when there is none. */
  function FirstTrue(mask: seq<bool>): (k: nat)
    ensures k <= |mask|
    ensures k < |mask| ==> mask[k]
    ensures forall i :: 0 <= i < k ==> !mask[i]
  {
    if mask == [] then 0 else if mask[0] then 0 else FirstTrue(mask[1..]) + 1
  }

  /** The number of true entries is the number of candidates. */
  lemma {:induction false} CountIsCandidates(mask: seq<bool>)
    ensures Count(mask) == |Candidates(mask)|
  {
    if mask != [] {
      var front := mask[..|mask| - 1];
      CountIsCandidates(front);
      if mask[|mask| - 1] {
        assert Candidates(mask) == Candidates(front) + {|mask|};
        assert |mask| !in Candidates(front);
      } else {
        assert Candidates(mask) == Candidates(front);
      }
    }
  }

  /** The invariant every SudokuNumber keeps: nine entries; a solved cell allows exactly its
      solution; an unsolved cell allows at least two numbers, so no mask is ever empty. */
  ghost predicate WellFormed(c: CellState) {
    && |c.mask| == 9
    && 0 <= c.solution <= 9
    && (c.solution != 0 ==> Candidates(c.mask) == {c.solution})
    && (c.solution == 0 ==> |Candidates(c.mask)| >= 2)
  }

  /** The cell SudokuNumber(number) builds: a clue fixes its solution and allows only itself,
      a blank (0) is unsolved and allows all nine numbers. */
  function Init(number: int): (c: CellState)
    requires 0 <= number <= 9
    ensures WellFormed(c)
    ensures c.solution == number
    ensures number != 0 ==> Candidates(c.mask) == {number}
    ensures number == 0 ==> forall d :: d in Candidates(c.mask) <==> 1 <= d <= 9
  {
    var c := CellState(number, if number != 0 then seq(9, k => k == number - 1) else seq(9, k => true));
    assert number == 0 ==> {1, 2} <= Candidates(c.mask);
    assert number == 0 ==> |{1, 2}| == 2;
    if number == 0 then SubsetCard({1, 2}, Candidates(c.mask)); c else c
  }

  /** mark(number) on the cell c: the new cell, and what mark returns. */
  function Eliminate(c: CellState, number: int): (r: MarkOutcome)
    requires |c.mask| == 9 && 1 <= number <= 9
    ensures |r.cell.mask| == 9
  {
    if c.solution == 0 then
      var mask := c.mask[number - 1 := false];
      if Count(mask) == 1 then
        MarkOutcome(CellState(FirstTrue(mask) + 1, mask), true)
      else
        MarkOutcome(CellState(0, mask), false)
    else
      MarkOutcome(c, false)
  }

  /** What mark does: on a solved cell nothing changes and nothing is reported; on an unsolved
      cell exactly the number is removed from the candidates, and a solution is reported, and
      fixed to the sole remaining candidate, exactly when one candidate is left. */
  lemma EliminateSpec(c: CellState, number: int)
    requires |c.mask| == 9 && 1 <= number <= 9
    ensures var r := Eliminate(c, number);
            && (c.solution != 0 ==> r == MarkOutcome(c, false))
            && (c.solution == 0 ==> Candidates(r.cell.mask) == Candidates(c.mask) - {number})
            && (r.found <==> c.solution == 0 && |Candidates(r.cell.mask)| == 1)
            && (r.found ==> Candidates(r.cell.mask) == {r.cell.solution})
            && (!r.found ==> r.cell.solution == c.solution)
  {
    if c.solution == 0 {
      var mask := c.mask[number - 1 := false];
      CountIsCandidates(mask);
      assert Candidates(mask) == Candidates(c.mask) - {number};
      if Count(mask) == 1 {
        var k := FirstTrue(mask);
        assert k + 1 in Candidates(mask) by {
          var d :| d in Candidates(mask);
          assert k <= d - 1;
        }
        SingletonIs(Candidates(mask), k + 1);
      }
    }
  }

  /** A one-element set holding x is {x}. */
  lemma SingletonIs(s: set<int>, x: int)
    requires |s| == 1 && x in s
    ensures s == {x}
  {
    assert s == {x} + (s - {x}) && {x} * (s - {x}) == {};
  }

  /** mark keeps the cell invariant: an unsolved cell never drops below two candidates without
      becoming solved, so the mask is never emptied. */
  lemma EliminateKeepsWellFormed(c: CellState, number: int)
    requires WellFormed(c) && 1 <= number <= 9
    ensures WellFormed(Eliminate(c, number).cell)
  {
    var r := Eliminate(c, number);
    EliminateSpec(c, number);
    if c.solution == 0 && !r.found {
      var before, after := Candidates(c.mask), Candidates(r.cell.mask);
      assert before == after + (before * {number});
      SubsetCard(before * {number}, {number});
      assert |before| <= |after| + 1;
    }
    if r.found {
      assert r.cell.solution in Candidates(r.cell.mask);
    }
  }

  /** Repeating an elimination changes nothing and reports no new solution. */
  lemma EliminateIdempotent(c: CellState, number: int)
    requires |c.mask| == 9 && 1 <= number <= 9
    ensures var once := Eliminate(c, number).cell;
            Eliminate(once, number) == MarkOutcome(once, false)
  {
    var once := Eliminate(c, number);
    EliminateSpec(c, number);
    EliminateSpec(once.cell, number);
    if c.solution == 0 && !once.found {
      assert once.cell.mask[number - 1 := false] == once.cell.mask;
    }
  }

  /** mark only ever narrows a cell: a solution, once fixed, stays, and no candidate returns. */
  predicate Narrows(before: CellState, after: CellState) {
    && (before.solution != 0 ==> after.solution == before.solution)
    && Candidates(after.mask) <= Candidates(before.mask)
  }

  lemma EliminateNarrows(c: CellState, number: int)
    requires |c.mask| == 9 && 1 <= number <= 9
    ensures Narrows(c, Eliminate(c, number).cell)
  {
    EliminateSpec(c, number);
  }

  /** The cell is consistent with the value s: s is still a candidate, and a fixed solution is s. */
  ghost predicate Allows(c: CellState, s: int) {
    s in Candidates(c.mask) && (c.solution != 0 ==> c.solution == s)
  }

  /** Eliminating any number other than s keeps a cell consistent with s: naked-single
      elimination never discards the true value and never fixes a wrong one. */
  lemma EliminateKeepsAllowed(c: CellState, number: int, s: int)
    requires WellFormed(c) && 1 <= number <= 9
    requires Allows(c, s) && number != s
    ensures Allows(Eliminate(c, number).cell, s)
  {
    var r := Eliminate(c, number);
    EliminateSpec(c, number);
    if r.found {
      assert s in Candidates(r.cell.mask);
    }
  }

  /** One cell of the field. */
  class SudokuNumber {
    var solution: int
    const mask: array<bool>

    function State(): CellState
      reads this, mask
    {
      CellState(solution, mask[..])
    }

    /** SudokuNumber(number) */
    constructor (number: int)
      requires 0 <= number <= 9
      ensures State() == Init(number)
      ensures fresh(mask)
    {
      solution := number;
      if number != 0 {
        var m := new bool[9](k => false);
        m[number - 1] := true;
        mask := m;
      } else {
        mask := new bool[9](k => true);
      }
      new;
      assert mask[..] == Init(number).mask;
    }

    /** mark(number); a solved cell answers None in the source, modelled as false. */
    method Mark(number: int) returns (found: bool)
      requires mask.Length == 9 && 1 <= number <= 9
      modifies this, mask
      ensures (State(), found) == (Eliminate(old(State()), number).cell, Eliminate(old(State()), number).found)
    {
      if solution == 0 {
        mask[number - 1] := false;
        if Count(mask[..]) == 1 {
          solution := FirstTrue(mask[..]) + 1;
          return true;
        }
        return false;
      }
      found := false;
    }
  }
}
