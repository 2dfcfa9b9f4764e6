/** The solution validator `check`, and the Sudoku rules it decides. */
module Validation {
  import opened Topology

  datatype Option<T> = None | Some(value: T)

  /** numpy.arange(1, 10), what every sorted row, column and sector must equal. */
  const Digits: seq<int> := Range(10)[1..]

  /** A 9x9 matrix of ints, the shape every grid here has. */
  predicate IsMatrix(g: seq<seq<int>>) {
    |g| == 9 && forall i :: 0 <= i < 9 ==> |g[i]| == 9
  }

  function At(g: seq<seq<int>>, p: Coord): int
    requires IsMatrix(g) && InGrid(p)
  {
    g[p.0][p.1]
  }

  function Column(g: seq<seq<int>>, j: int): seq<int>
    requires IsMatrix(g) && 0 <= j < 9
  {
    seq(9, i requires 0 <= i < 9 => g[i][j])
  }

  /** Sector (a, b) flattened row by row, as `solution[3a:3a+3, 3b:3b+3].flatten()`. */
  function Sector(g: seq<seq<int>>, a: int, b: int): seq<int>
    requires IsMatrix(g) && 0 <= a < 3 && 0 <= b < 3
  {
    g[3 * a][3 * b..3 * b + 3] + g[3 * a + 1][3 * b..3 * b + 3] + g[3 * a + 2][3 * b..3 * b + 3]
  }

  /** Entry 3m + n of a flattened sector is the cell at offset (m, n) inside it. */
  lemma SectorAt(g: seq<seq<int>>, a: int, b: int, m: int, n: int)
    requires IsMatrix(g) && 0 <= a < 3 && 0 <= b < 3 && 0 <= m < 3 && 0 <= n < 3
    ensures |Sector(g, a, b)| == 9 && Sector(g, a, b)[3 * m + n] == g[3 * a + m][3 * b + n]
  {
  }

  /** Every position 0..8 of a flattened sector is 3m + n for an offset (m, n). */
  lemma SplitPosition(k: int)
    requires 0 <= k < 9
    ensures 0 <= k / 3 < 3 && 0 <= k % 3 < 3 && k == 3 * (k / 3) + k % 3
  {
  }

  /** Sorting s gives [1..9]: the same values with the same multiplicities. */
  predicate SortsToDigits(s: seq<int>) {
    multiset(s) == multiset(Digits)
  }

  /** check(solution, org_field): every row, column and sector sorts to 1..9, and, when the
      original is given, every non-zero original cell is unchanged in the solution. */
  predicate Check(solution: seq<seq<int>>, original: Option<seq<seq<int>>>)
    requires IsMatrix(solution)
    requires original.Some? ==> IsMatrix(original.value)
  {
    && (forall i :: 0 <= i < 9 ==> SortsToDigits(solution[i]))
    && (forall j :: 0 <= j < 9 ==> SortsToDigits(Column(solution, j)))
    && (forall a, b :: 0 <= a < 3 && 0 <= b < 3 ==> SortsToDigits(Sector(solution, a, b)))
    && (original.Some? ==> Keeps(solution, original.value))
  }

  /** Every non-zero cell of the original holds the same value in the solution. */
  predicate Keeps(solution: seq<seq<int>>, original: seq<seq<int>>)
    requires IsMatrix(solution) && IsMatrix(original)
  {
    forall i, j :: 0 <= i < 9 && 0 <= j < 9 && original[i][j] != 0 ==> solution[i][j] == original[i][j]
  }

  /** The rules of Sudoku, stated cell by cell: every cell holds a digit and no two peers agree. */
  ghost predicate IsSolvedGrid(g: seq<seq<int>>) {
    && IsMatrix(g)
    && (forall p :: InGrid(p) ==> 1 <= At(g, p) <= 9)
    && (forall p, q :: IsPeer(p, q) ==> At(g, p) != At(g, q))
  }

  /** g solves the puzzle `puzzle`: a solved grid that keeps every clue. */
  ghost predicate IsSolutionOf(g: seq<seq<int>>, puzzle: seq<seq<int>>) {
    IsSolvedGrid(g) && IsMatrix(puzzle) && Keeps(g, puzzle)
  }

  /** A sequence sorts to 1..9 exactly when it holds nine pairwise different digits. */
  lemma SortsToDigitsIff(s: seq<int>)
    ensures SortsToDigits(s) <==> |s| == 9 && Distinct(s) && forall k :: 0 <= k < |s| ==> 1 <= s[k] <= 9
  {
    if SortsToDigits(s) {
      PermutationIsDistinctDigits(s);
    }
    if |s| == 9 && Distinct(s) && forall k :: 0 <= k < |s| ==> 1 <= s[k] <= 9 {
      DistinctDigitsArePermutation(s);
    }
  }

  lemma PermutationIsDistinctDigits(s: seq<int>)
    requires SortsToDigits(s)
    ensures |s| == 9 && Distinct(s) && forall k :: 0 <= k < |s| ==> 1 <= s[k] <= 9
  {
    DistinctMultiplicity(Digits);
    assert |s| == |multiset(s)| == 9;
    DistinctMultiplicity(s);
    forall k | 0 <= k < |s| ensures 1 <= s[k] <= 9 {
      assert s[k] in multiset(s);
    }
  }

  /** The pigeonhole step: nine different digits are all nine digits. */
  lemma DistinctDigitsArePermutation(s: seq<int>)
    requires |s| == 9 && Distinct(s) && forall k :: 0 <= k < |s| ==> 1 <= s[k] <= 9
    ensures SortsToDigits(s)
  {
    DigitsFacts();
    var S, D := set x | x in s, set x | x in Digits;
    DistinctCard(s);
    assert S <= D;
    SameSizeSubset(S, D);
    DistinctMultiplicity(s);
    forall x ensures multiset(s)[x] == multiset(Digits)[x] {
      assert x in s <==> x in S;
      assert x in Digits <==> x in D;
    }
  }

  lemma DigitsFacts()
    ensures Distinct(Digits)
    ensures forall x :: x in Digits <==> 1 <= x <= 9
    ensures |set x | x in Digits| == 9
    ensures forall x :: multiset(Digits)[x] == if x in Digits then 1 else 0
  {
    assert |Digits| == 9 && forall k :: 0 <= k < 9 ==> Digits[k] == k + 1;
    forall x | 1 <= x <= 9 ensures x in Digits {
      assert Digits[x - 1] == x;
    }
    DistinctCard(Digits);
    DistinctMultiplicity(Digits);
  }

  lemma SameSizeSubset<T>(A: set<T>, B: set<T>)
    requires A <= B && |A| == |B|
    ensures A == B
  {
    assert B == A + (B - A) && A * (B - A) == {};
  }

  /** A sequence is repetition-free exactly when every value occurs at most once. */
  lemma {:induction false} DistinctMultiplicity(s: seq<int>)
    ensures Distinct(s) <==> forall x :: multiset(s)[x] == if x in s then 1 else 0
  {
    if s != [] {
      var front, last := s[..|s| - 1], s[|s| - 1];
      assert s == front + [last];
      DistinctMultiplicity(front);
      if Distinct(s) {
        assert Distinct(front);
        assert last !in front;
      } else {
        var i, j :| 0 <= i < j < |s| && s[i] == s[j];
        if j < |s| - 1 {
          assert front[i] == front[j];
        } else {
          assert s[i] in front;
          assert multiset(s)[last] >= 2;
        }
      }
      if forall x :: multiset(s)[x] == if x in s then 1 else 0 {
        assert multiset(s)[last] == multiset(front)[last] + 1;
        forall x ensures multiset(front)[x] == if x in front then 1 else 0 {
          if x != last {
            assert x in s <==> x in front;
          }
        }
        forall i, j | 0 <= i < j < |s| ensures s[i] != s[j] {
          if j == |s| - 1 {
            assert s[i] in front;
          } else {
            assert front[i] != front[j];
          }
        }
      }
    }
  }

  /** check without an original accepts exactly the grids that obey the rules of Sudoku. */
  lemma CheckIffSolvedGrid(g: seq<seq<int>>)
    requires IsMatrix(g)
    ensures Check(g, None) <==> IsSolvedGrid(g)
  {
    if Check(g, None) {
      CheckedGridIsSolved(g);
    }
    if IsSolvedGrid(g) {
      SolvedGridPassesCheck(g);
    }
  }

  lemma CheckedGridIsSolved(g: seq<seq<int>>)
    requires IsMatrix(g) && Check(g, None)
    ensures IsSolvedGrid(g)
  {
    forall p | InGrid(p) ensures 1 <= At(g, p) <= 9 {
      PermutationIsDistinctDigits(g[p.0]);
    }
    forall p, q | IsPeer(p, q) ensures At(g, p) != At(g, q) {
      if p.0 == q.0 {
        PermutationIsDistinctDigits(g[p.0]);
      } else if p.1 == q.1 {
        var col := Column(g, p.1);
        PermutationIsDistinctDigits(col);
        assert col[p.0] == At(g, p) && col[q.0] == At(g, q);
      } else {
        SectorPeersDiffer(g, p, q);
      }
    }
  }

  /** Two different cells of one sector hold different values when that sector sorts to 1..9. */
  lemma SectorPeersDiffer(g: seq<seq<int>>, p: Coord, q: Coord)
    requires IsMatrix(g) && InGrid(p) && InGrid(q) && p != q && SameSector(p, q)
    requires SortsToDigits(Sector(g, p.0 / 3, p.1 / 3))
    ensures At(g, p) != At(g, q)
  {
    var a, b := p.0 / 3, p.1 / 3;
    var mp, np, mq, nq := SectorOffset(p.0), SectorOffset(p.1), SectorOffset(q.0), SectorOffset(q.1);
    var sec := Sector(g, a, b);
    assert |sec| == 9 && sec[3 * mp + np] == At(g, p) by {
      SectorAt(g, a, b, mp, np);
    }
    assert sec[3 * mq + nq] == At(g, q) by {
      assert q.0 / 3 == a && q.1 / 3 == b;
      SectorAt(g, a, b, mq, nq);
    }
    assert 3 * mp + np != 3 * mq + nq by {
      assert mp != mq || np != nq;
      DifferentOffsets(mp, np, mq, nq);
    }
    PermutationIsDistinctDigits(sec);
  }

  lemma DifferentOffsets(m1: int, n1: int, m2: int, n2: int)
    requires 0 <= n1 < 3 && 0 <= n2 < 3 && (m1 != m2 || n1 != n2)
    ensures 3 * m1 + n1 != 3 * m2 + n2
  {
  }

  /** The offset of line x inside its band of three: x == 3 * (x / 3) + offset. */
  function SectorOffset(x: int): (m: int)
    requires 0 <= x < 9
    ensures 0 <= m < 3 && x == 3 * (x / 3) + m
  {
    x % 3
  }

  lemma SolvedGridPassesCheck(g: seq<seq<int>>)
    requires IsSolvedGrid(g)
    ensures Check(g, None)
  {
    forall i | 0 <= i < 9 ensures SortsToDigits(g[i]) && SortsToDigits(Column(g, i)) {
      var col := Column(g, i);
      forall j, k | 0 <= j < k < 9 ensures g[i][j] != g[i][k] && col[j] != col[k] {
        assert IsPeer((i, j), (i, k)) && IsPeer((j, i), (k, i));
      }
      forall k | 0 <= k < 9 ensures 1 <= g[i][k] <= 9 && 1 <= col[k] <= 9 {
        assert InGrid((i, k)) && InGrid((k, i));
      }
      DistinctDigitsArePermutation(g[i]);
      DistinctDigitsArePermutation(col);
    }
    forall a, b | 0 <= a < 3 && 0 <= b < 3 ensures SortsToDigits(Sector(g, a, b)) {
      SolvedSector(g, a, b);
    }
  }

  lemma SolvedSector(g: seq<seq<int>>, a: int, b: int)
    requires IsSolvedGrid(g) && 0 <= a < 3 && 0 <= b < 3
    ensures SortsToDigits(Sector(g, a, b))
  {
    var sec := Sector(g, a, b);
    SectorAt(g, a, b, 0, 0);
    forall k | 0 <= k < 9 ensures 1 <= sec[k] <= 9 {
      SplitPosition(k);
      SectorAt(g, a, b, k / 3, k % 3);
      assert InGrid((3 * a + k / 3, 3 * b + k % 3));
    }
    forall k, l | 0 <= k < l < 9 ensures sec[k] != sec[l] {
      SectorEntriesDiffer(g, a, b, k, l);
    }
    DistinctDigitsArePermutation(sec);
  }

  /** Two positions of a flattened sector of a solved grid hold peer cells, so differ. */
  lemma SectorEntriesDiffer(g: seq<seq<int>>, a: int, b: int, k: int, l: int)
    requires IsSolvedGrid(g) && 0 <= a < 3 && 0 <= b < 3 && 0 <= k < l < 9
    ensures |Sector(g, a, b)| == 9 && Sector(g, a, b)[k] != Sector(g, a, b)[l]
  {
    SplitPosition(k);
    SplitPosition(l);
    SectorAt(g, a, b, k / 3, k % 3);
    SectorAt(g, a, b, l / 3, l % 3);
    SectorCellsArePeers(a, b, k / 3, k % 3, l / 3, l % 3);
  }

  /** Two different offsets inside sector (a, b) are two peer cells. */
  lemma SectorCellsArePeers(a: int, b: int, m1: int, n1: int, m2: int, n2: int)
    requires 0 <= a < 3 && 0 <= b < 3
    requires 0 <= m1 < 3 && 0 <= n1 < 3 && 0 <= m2 < 3 && 0 <= n2 < 3 && (m1, n1) != (m2, n2)
    ensures IsPeer((3 * a + m1, 3 * b + n1), (3 * a + m2, 3 * b + n2))
  {
  }

  /** check(g, puzzle) accepts exactly the solutions of the puzzle. */
  lemma CheckIffSolution(g: seq<seq<int>>, puzzle: seq<seq<int>>)
    requires IsMatrix(g) && IsMatrix(puzzle)
    ensures Check(g, Some(puzzle)) <==> IsSolutionOf(g, puzzle)
  {
    CheckIffSolvedGrid(g);
  }
}
