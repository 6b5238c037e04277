/**
 * The stored cells of a sparse matrix as a value: a nested map from a row
 * index to a map from a column index to the stored value, the shape of the
 * `data` dictionary of the matrix class. Its meaning is the dense view `At`,
 * which reads every cell that is not stored as 0.
 */
module Entries {

  type Data = map<int, map<int, int>>

  /** The row map stored for row `i`; a row that is not stored reads as empty. */
  function Row(m: Data, i: int): map<int, int>
  {
    if i in m then m[i] else map[]
  }

  /** The dense value of cell (i, j): the stored value, or 0 when nothing is stored. */
  function At(m: Data, i: int, j: int): int
  {
    if i in m && j in m[i] then m[i][j] else 0
  }

  /** The sparsity invariant: no stored value is 0 and no stored row map is empty. */
  ghost predicate Sparse(m: Data)
  {
    forall i :: i in m ==> m[i] != map[] && forall j :: j in m[i] ==> m[i][j] != 0
  }

  /** Every stored coordinate lies inside a `rows` x `cols` matrix. */
  ghost predicate Within(m: Data, rows: int, cols: int)
  {
    forall i :: i in m ==> 0 <= i < rows && forall j :: j in m[i] ==> 0 <= j < cols
  }

  /** Two sparse maps with the same dense view are the same map. */
  lemma SparseExtensional(a: Data, b: Data)
    requires Sparse(a) && Sparse(b)
    requires forall i, j :: At(a, i, j) == At(b, i, j)
    ensures a == b
  {
    forall i | i in a
      ensures i in b && a[i] == b[i]
    {
      RowsAgree(a, b, i);
    }
    forall i | i in b
      ensures i in a
    {
      RowsAgree(b, a, i);
    }
  }

  lemma RowsAgree(a: Data, b: Data, i: int)
    requires Sparse(a) && Sparse(b) && i in a
    requires forall i, j :: At(a, i, j) == At(b, i, j)
    ensures i in b && a[i] == b[i]
  {
    HasElement(a[i].Keys);
    var j :| j in a[i];
    assert At(a, i, j) != 0;
    assert At(b, i, j) != 0;
    forall k | k in a[i]
      ensures k in b[i] && a[i][k] == b[i][k]
    {
      assert At(a, i, k) == At(b, i, k);
    }
    forall k | k in b[i]
      ensures k in a[i]
    {
      assert At(a, i, k) == At(b, i, k);
    }
  }

  /** A non-empty set has an element, for picking one with `:|`. */
  lemma HasElement(s: set<int>)
    requires s != {}
    ensures exists x :: x in s
  {
    if forall y :: y !in s {
      assert false;
    }
  }

  /** The new stored cells after `set_element(i, j, v)`: writing 0 deletes the
      cell and then the row map if it became empty; any other value is stored,
      creating the row map when it is missing. */
  function Updated(m: Data, i: int, j: int, v: int): (r: Data)
    ensures forall p, q :: At(r, p, q) == if p == i && q == j then v else At(m, p, q)
    ensures Sparse(m) ==> Sparse(r)
    ensures v == 0 && Sparse(m) && At(m, i, j) == 0 ==> r == m
    ensures v == 0 ==> (i in r <==> i in m && m[i].Keys - {j} != {})
    ensures r.Keys - {i} == m.Keys - {i}
  {
    if v == 0 then
      if i in m then
        var row := m[i] - {j};
        if row == map[] then
          DroppedRowAt(m, i, j);
          m - {i}
        else
          assert j !in m[i] ==> row == m[i];
          m[i := row]
      else
        m
    else
      var row := Row(m, i)[j := v];
      assert j in row;
      m[i := row]
  }

  lemma DroppedRowAt(m: Data, i: int, j: int)
    requires i in m && m[i] - {j} == map[]
    ensures forall p, q :: At(m - {i}, p, q) == if p == i && q == j then 0 else At(m, p, q)
  {
    assert (m[i] - {j}).Keys == m[i].Keys - {j} == {};
    forall p, q
      ensures At(m - {i}, p, q) == if p == i && q == j then 0 else At(m, p, q)
    {
      if p == i && q != j {
        assert q !in m[i].Keys - {j};
      }
    }
  }

  /** The least element of a non-empty finite set of integers. */
  function Min(s: set<int>): (x: int)
    requires s != {}
    ensures x in s && forall y :: y in s ==> x <= y
  {
    HasMin(s);
    var x :| x in s && forall y :: y in s ==> x <= y;
    x
  }

  lemma HasMin(s: set<int>)
    requires s != {}
    ensures exists x :: x in s && forall y :: y in s ==> x <= y
  {
    var x := LeastOf(s);
  }

  lemma {:induction false} LeastOf(s: set<int>) returns (x: int)
    requires s != {}
    ensures x in s && forall y :: y in s ==> x <= y
    decreases |s|
  {
    HasElement(s);
    var z :| z in s;
    if s == {z} {
      x := z;
    } else {
      var w := LeastOf(s - {z});
      x := if z < w then z else w;
      forall y | y in s
        ensures x <= y
      {
        if y != z {
          assert y in s - {z};
        }
      }
    }
  }

  /** The elements of `s` in strictly ascending order, as `sorted(keys)` yields them. */
  function SortedKeys(s: set<int>): (r: seq<int>)
    ensures forall p, q :: 0 <= p < q < |r| ==> r[p] < r[q]
    ensures forall p :: 0 <= p < |r| ==> r[p] in s
    ensures forall x :: x in s ==> x in r
    ensures |r| == |s|
    decreases |s|
  {
    if s == {} then []
    else
      var x := Min(s);
      [x] + SortedKeys(s - {x})
  }

}
