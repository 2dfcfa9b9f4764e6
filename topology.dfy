/** Coordinates of the 9x9 field, the peer relation, and the three lists of
    coordinates that SudokuField.solve marks for one solved cell. */
module Topology {

  /** (row, column), both in 0..8 when the coordinate lies on the field. */
  type Coord = (int, int)

  predicate InGrid(p: Coord) {
    0 <= p.0 < 9 && 0 <= p.1 < 9
  }

  /** Every entry of the list lies on the field. */
  predicate OnGrid(s: seq<Coord>) {
    forall i :: 0 <= i < |s| ==> InGrid(s[i])
  }

  /** Row-major position of a coordinate: the order numpy.where reports it in. */
  function Flat(p: Coord): int {
    p.0 * 9 + p.1
  }

  /** Both coordinates lie in the same 3x3 sector (Python 2 floor division). */
  predicate SameSector(p: Coord, q: Coord) {
    p.0 / 3 == q.0 / 3 && p.1 / 3 == q.1 / 3
  }

  /** q is one of the 20 cells that may not hold p's value. */
  predicate IsPeer(p: Coord, q: Coord) {
    InGrid(p) && InGrid(q) && p != q && (p.0 == q.0 || p.1 == q.1 || SameSector(p, q))
  }

  predicate Distinct<T(==)>(s: seq<T>) {
    forall i, j :: 0 <= i < j < |s| ==> s[i] != s[j]
  }

  /** Python 2 `range(n)`, a list. */
  function Range(n: nat): (r: seq<int>)
    ensures |r| == n
    ensures forall k :: 0 <= k < n ==> r[k] == k
  {
    if n == 0 then [] else Range(n - 1) + [n - 1]
  }

  /** The list left behind by `lst.pop(i)`. */
  function Pop(s: seq<int>, i: int): seq<int>
    requires 0 <= i < |s|
  {
    s[..i] + s[i + 1..]
  }

  /** range(n) with entry `skip` popped: every index of 0..n-1 except `skip`, ascending. */
  lemma {:induction false} PopRange(n: nat, skip: int)
    requires 0 <= skip < n
    ensures |Pop(Range(n), skip)| == n - 1
    ensures forall k :: 0 <= k < n - 1 ==> Pop(Range(n), skip)[k] == if k < skip then k else k + 1
  {
  }

  /** The cells marked by the row loop for (r, c): the row, in column order, without (r, c). */
  function RowTargets(r: int, c: int): seq<Coord>
    requires InGrid((r, c))
  {
    var cols := Pop(Range(9), c);
    seq(|cols|, k requires 0 <= k < |cols| => (r, cols[k]))
  }

  /** The cells marked by the column loop for (r, c): the column, in row order, without (r, c). */
  function ColumnTargets(r: int, c: int): seq<Coord>
    requires InGrid((r, c))
  {
    var rows := Pop(Range(9), r);
    seq(|rows|, k requires 0 <= k < |rows| => (rows[k], c))
  }

  /** The cells marked by the sector loop for (r, c): the four cells of the sector that share
      neither the row nor the column of (r, c); the two nested loops over the two remaining
      in-sector rows and columns, unrolled. */
  function SectorTargets(r: int, c: int): seq<Coord>
    requires InGrid((r, c))
  {
    var insecRows := Pop(Range(3), r % 3);
    var insecCols := Pop(Range(3), c % 3);
    var row, col := r / 3 * 3, c / 3 * 3;
    [(row + insecRows[0], col + insecCols[0]), (row + insecRows[0], col + insecCols[1]),
     (row + insecRows[1], col + insecCols[0]), (row + insecRows[1], col + insecCols[1])]
  }

  /** Every cell solve marks for (r, c), in the order it marks them. */
  function Targets(r: int, c: int): seq<Coord>
    requires InGrid((r, c))
  {
    RowTargets(r, c) + ColumnTargets(r, c) + SectorTargets(r, c)
  }

  lemma RowTargetsMembers(r: int, c: int)
    requires InGrid((r, c))
    ensures |RowTargets(r, c)| == 8
    ensures forall k :: 0 <= k < 8 ==> RowTargets(r, c)[k] == (r, if k < c then k else k + 1)
    ensures Distinct(RowTargets(r, c))
    ensures forall q :: q in RowTargets(r, c) <==> InGrid(q) && q.0 == r && q.1 != c
  {
    PopRange(9, c);
    var row := RowTargets(r, c);
    forall q | InGrid(q) && q.0 == r && q.1 != c ensures q in row {
      assert row[if q.1 < c then q.1 else q.1 - 1] == q;
    }
  }

  lemma ColumnTargetsMembers(r: int, c: int)
    requires InGrid((r, c))
    ensures |ColumnTargets(r, c)| == 8
    ensures forall k :: 0 <= k < 8 ==> ColumnTargets(r, c)[k] == (if k < r then k else k + 1, c)
    ensures Distinct(ColumnTargets(r, c))
    ensures forall q :: q in ColumnTargets(r, c) <==> InGrid(q) && q.1 == c && q.0 != r
  {
    PopRange(9, r);
    var col := ColumnTargets(r, c);
    forall q | InGrid(q) && q.1 == c && q.0 != r ensures q in col {
      assert col[if q.0 < r then q.0 else q.0 - 1] == q;
    }
  }

  /** The two in-sector offsets left after popping `skip` from range(3). */
  lemma PopRange3(skip: int)
    requires 0 <= skip < 3
    ensures Pop(Range(3), skip) == [if skip == 0 then 1 else 0, if skip == 2 then 1 else 2]
  {
    PopRange(3, skip);
  }

  /** The four sector cells, written out. */
  lemma SectorTargetsElements(r: int, c: int)
    requires InGrid((r, c))
    ensures SectorTargets(r, c) == SectorList(r, c)
  {
    assert Pop(Range(3), r % 3) == [SectorOffsets(r).0, SectorOffsets(r).1] by { PopRange3(r % 3); }
    assert Pop(Range(3), c % 3) == [SectorOffsets(c).0, SectorOffsets(c).1] by { PopRange3(c % 3); }
  }

  /** The four cells of the sector of (r, c) off its row and column, by SectorOffsets. */
  function SectorList(r: int, c: int): seq<Coord> {
    var o, p := SectorOffsets(r), SectorOffsets(c);
    var r0, r1, c0, c1 := r / 3 * 3 + o.0, r / 3 * 3 + o.1, c / 3 * 3 + p.0, c / 3 * 3 + p.1;
    [(r0, c0), (r0, c1), (r1, c0), (r1, c1)]
  }

  /** The two in-sector offsets of the lines of x's band other than x itself. */
  function SectorOffsets(x: int): (int, int) {
    (if x % 3 == 0 then 1 else 0, if x % 3 == 2 then 1 else 2)
  }

  lemma SectorTargetsMembers(r: int, c: int)
    requires InGrid((r, c))
    ensures |SectorTargets(r, c)| == 4
    ensures Distinct(SectorTargets(r, c))
    ensures forall q :: q in SectorTargets(r, c) <==> SectorRest(r, c, q)
  {
    SectorTargetsElements(r, c);
    SectorListMembers(r, c);
  }

  lemma SectorListMembers(r: int, c: int)
    requires InGrid((r, c))
    ensures Distinct(SectorList(r, c))
    ensures forall q :: q in SectorList(r, c) <==> SectorRest(r, c, q)
  {
    SectorCells(r);
    SectorCells(c);
    var o, p := SectorOffsets(r), SectorOffsets(c);
    FourCells(r, c, r / 3 * 3 + o.0, r / 3 * 3 + o.1, c / 3 * 3 + p.0, c / 3 * 3 + p.1);
  }

  /** q shares the sector of (r, c) but neither its row nor its column. */
  predicate SectorRest(r: int, c: int, q: Coord) {
    InGrid(q) && SameSector((r, c), q) && q.0 != r && q.1 != c
  }

  lemma FourCells(r: int, c: int, r0: int, r1: int, c0: int, c1: int)
    requires InGrid((r, c))
    requires forall y :: 0 <= y < 9 && y / 3 == r / 3 && y != r ==> y == r0 || y == r1
    requires forall y :: 0 <= y < 9 && y / 3 == c / 3 && y != c ==> y == c0 || y == c1
    requires r0 != r1 && r0 != r && r1 != r && 0 <= r0 < 9 && 0 <= r1 < 9 && r0 / 3 == r / 3 && r1 / 3 == r / 3
    requires c0 != c1 && c0 != c && c1 != c && 0 <= c0 < 9 && 0 <= c1 < 9 && c0 / 3 == c / 3 && c1 / 3 == c / 3
    ensures var sec := [(r0, c0), (r0, c1), (r1, c0), (r1, c1)];
            && Distinct(sec)
            && forall q :: q in sec <==> SectorRest(r, c, q)
  {
  }

  /** Within the band of three rows (or columns) holding x, the lines other than x are the
      two given by SectorOffsets. */
  lemma SectorCells(x: int)
    requires 0 <= x < 9
    ensures var o := SectorOffsets(x);
            && (forall y :: 0 <= y < 9 && y / 3 == x / 3 && y != x ==> y == x / 3 * 3 + o.0 || y == x / 3 * 3 + o.1)
            && o.0 != o.1 && x / 3 * 3 + o.0 != x && x / 3 * 3 + o.1 != x
            && 0 <= x / 3 * 3 + o.0 < 9 && 0 <= x / 3 * 3 + o.1 < 9
            && (x / 3 * 3 + o.0) / 3 == x / 3 && (x / 3 * 3 + o.1) / 3 == x / 3
  {
  }


  /** The three loops of solve mark exactly the 20 peers of (r, c), each once, and never (r, c). */
  lemma TargetsArePeers(r: int, c: int)
    requires InGrid((r, c))
    ensures |Targets(r, c)| == 20
    ensures OnGrid(Targets(r, c))
    ensures Distinct(Targets(r, c))
    ensures forall q :: q in Targets(r, c) <==> IsPeer((r, c), q)
  {
    TargetsOnGrid(r, c);
    RowTargetsMembers(r, c);
    ColumnTargetsMembers(r, c);
    SectorTargetsMembers(r, c);
    var t := Targets(r, c);
    var row, col, sec := RowTargets(r, c), ColumnTargets(r, c), SectorTargets(r, c);
    assert forall q :: q in t <==> q in row || q in col || q in sec;
    forall i, j | 0 <= i < j < 20
      ensures t[i] != t[j]
    {
      if j < 8 {
        assert t[i] == row[i] && t[j] == row[j];
      } else if i >= 16 {
        assert t[i] == sec[i - 16] && t[j] == sec[j - 16];
      } else if i >= 8 && j < 16 {
        assert t[i] == col[i - 8] && t[j] == col[j - 8];
      } else if i < 8 && j < 16 {
        assert t[i] in row && t[j] in col;
      } else if i < 8 {
        assert t[i] in row && t[j] in sec;
      } else {
        assert t[i] in col && t[j] in sec;
      }
    }
  }

  /** Every coordinate the three loops of solve mark lies on the field. */
  lemma TargetsOnGrid(r: int, c: int)
    requires InGrid((r, c))
    ensures OnGrid(RowTargets(r, c)) && OnGrid(ColumnTargets(r, c)) && OnGrid(SectorTargets(r, c))
    ensures OnGrid(Targets(r, c))
  {
    RowTargetsMembers(r, c);
    ColumnTargetsMembers(r, c);
    SectorTargetsMembers(r, c);
    var sec := SectorTargets(r, c);
    assert OnGrid(sec) by {
      forall i | 0 <= i < |sec| ensures InGrid(sec[i]) {
        assert sec[i] in sec;
      }
    }
    OnGridAppend(RowTargets(r, c), ColumnTargets(r, c));
    OnGridAppend(RowTargets(r, c) + ColumnTargets(r, c), sec);
  }

  lemma OnGridAppend(a: seq<Coord>, b: seq<Coord>)
    requires OnGrid(a) && OnGrid(b)
    ensures OnGrid(a + b)
  {
  }

  /** A subset is no larger than its superset. */
  lemma SubsetCard<T>(A: set<T>, B: set<T>)
    requires A <= B
    ensures |A| <= |B|
  {
    assert B == A + (B - A) && A * (B - A) == {};
  }

  /** Concatenation is associative. */
  lemma AppendAssoc<T>(a: seq<T>, b: seq<T>, c: seq<T>)
    ensures (a + b) + c == a + (b + c)
  {
  }

  /** The row-major list of every coordinate of the field. */
  function AllCoords(): (r: seq<Coord>)
    ensures |r| == 81
    ensures forall i :: 0 <= i < 81 ==> r[i] == (i / 9, i % 9)
  {
    seq(81, i => (i / 9, i % 9))
  }

  /** A repetition-free sequence has as many distinct elements as entries. */
  lemma {:induction false} DistinctCard<T>(s: seq<T>)
    requires Distinct(s)
    ensures |set x | x in s| == |s|
  {
    if s != [] {
      var front := s[..|s| - 1];
      DistinctCard(front);
      assert (set x | x in s) == (set x | x in front) + {s[|s| - 1]};
      assert s[|s| - 1] !in (set x | x in front);
    }
  }

  /** At most 81 distinct coordinates lie on the field: a worklist of distinct cells is bounded. */
  lemma DistinctCoordsBound(s: seq<Coord>)
    requires Distinct(s)
    requires forall i :: 0 <= i < |s| ==> InGrid(s[i])
    ensures |s| <= 81
  {
    var all := AllCoords();
    AllCoordsDistinct();
    DistinctCard(s);
    DistinctCard(all);
    var S, A := set x | x in s, set x | x in all;
    forall x | x in S ensures x in A {
      AllCoordsCover(x);
    }
    assert A == S + (A - S);
    assert S * (A - S) == {};
  }

  lemma AllCoordsDistinct()
    ensures Distinct(AllCoords())
  {
    var all := AllCoords();
    forall i, j | 0 <= i < j < 81 ensures all[i] != all[j] {
      assert Flat(all[i]) == i && Flat(all[j]) == j;
    }
  }

  lemma AllCoordsCover(x: Coord)
    requires InGrid(x)
    ensures x in AllCoords()
  {
    assert AllCoords()[Flat(x)] == x;
  }
}
