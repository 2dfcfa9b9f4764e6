/** vstack: stacks equally long lists vertically, so that entry i of the result holds entry i of
    every input list. */
module Stacking {
  import opened Topology

  /** The result of vstack: the stacked rows, or the ValueError it raises. */
  datatype Stacked<T> = Rows(rows: seq<seq<T>>) | DifferentLengths

  /** Some two of the lists differ in length. */
  predicate Ragged<T>(lists: seq<seq<T>>) {
    exists i, j :: 0 <= i < |lists| && 0 <= j < |lists| && |lists[i]| != |lists[j]|
  }

  /** vstack(*lists): a ValueError exactly when two lists differ in length; otherwise one row per
      common index, row i holding entry i of each list in argument order, and no rows at all when
      there is no list. */
  method VStack<T>(lists: seq<seq<T>>) returns (out: Stacked<T>)
    ensures out.DifferentLengths? <==> Ragged(lists)
    ensures out.Rows? && |lists| == 0 ==> out.rows == []
    ensures out.Rows? && |lists| > 0 ==>
              && |out.rows| == |lists[0]|
              && (forall i :: 0 <= i < |out.rows| ==> |out.rows[i]| == |lists|)
              && (forall i, j :: 0 <= i < |out.rows| && 0 <= j < |lists| ==> out.rows[i][j] == lists[j][i])
  {
    var lengths: set<int> := {};
    for n := 0 to |lists|
      invariant lengths == set k | 0 <= k < n :: |lists[k]|
    {
      lengths := lengths + {|lists[n]|};
    }
    if |lengths| > 1 {
      assert |lists| > 0;
      assert !(lengths <= {|lists[0]|}) by {
        if lengths <= {|lists[0]|} {
          SubsetCard(lengths, {|lists[0]|});
        }
      }
      return DifferentLengths;
    }
    assert !Ragged(lists) by {
      if Ragged(lists) {
        var i, j :| 0 <= i < |lists| && 0 <= j < |lists| && |lists[i]| != |lists[j]|;
        assert {|lists[i]|, |lists[j]|} <= lengths;
        assert |{|lists[i]|, |lists[j]|}| == 2;
        SubsetCard({|lists[i]|, |lists[j]|}, lengths);
        assert false;
      }
    }
    if |lengths| > 0 {
      assert |lists[0]| in lengths;
      var length :| length in lengths;
      assert length == |lists[0]|;
      var res: seq<seq<T>> := [];
      var count := |lists|;
      for i := 0 to length
        invariant |res| == i
        invariant forall a :: 0 <= a < i ==> |res[a]| == count
        invariant forall a, b :: 0 <= a < i && 0 <= b < count ==> res[a][b] == lists[b][a]
      {
        var part: seq<T> := [];
        for j := 0 to count
          invariant |part| == j
          invariant forall b :: 0 <= b < j ==> part[b] == lists[b][i]
        {
          part := part + [lists[j][i]];
        }
        res := res + [part];
      }
      out := Rows(res);
    } else {
      out := Rows([]);
    }
  }
}
