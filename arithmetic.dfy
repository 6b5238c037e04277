/**
 * Reference definitions of the three matrix operations on stored cells:
 * the canonical sparse map of the cell-wise sum, of the cell-wise
 * difference and of the sum-of-products matrix product, with the
 * algebraic facts the operations are expected to have.
 */
module Arithmetic {
  import opened Entries

  // ---------------------------------------------------------------- sum

  /** Row i of the sum: the non-zero sums of the cells either row stores. */
  function SumRow(a: Data, b: Data, i: int): (r: map<int, int>)
    ensures forall j :: j in r ==> r[j] != 0
    ensures forall j :: (if j in r then r[j] else 0) == At(a, i, j) + At(b, i, j)
  {
    var r := map j | j in Row(a, i).Keys + Row(b, i).Keys && At(a, i, j) + At(b, i, j) != 0
      :: At(a, i, j) + At(b, i, j);
    assert forall j :: (if j in r then r[j] else 0) == At(a, i, j) + At(b, i, j) by {
      forall j
        ensures (if j in r then r[j] else 0) == At(a, i, j) + At(b, i, j)
      {
        if At(a, i, j) + At(b, i, j) != 0 {
          assert j in Row(a, i).Keys + Row(b, i).Keys;
        }
      }
    }
    r
  }

  /** The sparse map whose every cell is the sum of the two operands' cells. */
  function Sum(a: Data, b: Data): (r: Data)
    ensures Sparse(r)
    ensures forall i, j :: At(r, i, j) == At(a, i, j) + At(b, i, j)
  {
    var r := map i | i in a.Keys + b.Keys && SumRow(a, b, i) != map[] :: SumRow(a, b, i);
    assert Sparse(r) by {
      forall i | i in r
        ensures r[i] != map[] && forall j :: j in r[i] ==> r[i][j] != 0
      {
        assert r[i] == SumRow(a, b, i);
      }
    }
    assert forall i, j :: At(r, i, j) == At(a, i, j) + At(b, i, j) by {
      forall i, j
        ensures At(r, i, j) == At(a, i, j) + At(b, i, j)
      {
        var row := SumRow(a, b, i);
        assert (if j in row then row[j] else 0) == At(a, i, j) + At(b, i, j);
        if j in row {
          assert i in a.Keys + b.Keys && i in r && r[i] == row;
        } else if i in r {
          assert r[i] == row;
        }
      }
    }
    r
  }

  // --------------------------------------------------------- difference

  /** Row i of the difference: the non-zero differences of the cells either row stores. */
  function DifferenceRow(a: Data, b: Data, i: int): (r: map<int, int>)
    ensures forall j :: j in r ==> r[j] != 0
    ensures forall j :: (if j in r then r[j] else 0) == At(a, i, j) - At(b, i, j)
  {
    var r := map j | j in Row(a, i).Keys + Row(b, i).Keys && At(a, i, j) - At(b, i, j) != 0
      :: At(a, i, j) - At(b, i, j);
    assert forall j :: (if j in r then r[j] else 0) == At(a, i, j) - At(b, i, j) by {
      forall j
        ensures (if j in r then r[j] else 0) == At(a, i, j) - At(b, i, j)
      {
        if At(a, i, j) - At(b, i, j) != 0 {
          assert j in Row(a, i).Keys + Row(b, i).Keys;
        }
      }
    }
    r
  }

  /** The sparse map whose every cell is the first operand's cell minus the second's. */
  function Difference(a: Data, b: Data): (r: Data)
    ensures Sparse(r)
    ensures forall i, j :: At(r, i, j) == At(a, i, j) - At(b, i, j)
  {
    var r := map i | i in a.Keys + b.Keys && DifferenceRow(a, b, i) != map[] :: DifferenceRow(a, b, i);
    assert Sparse(r) by {
      forall i | i in r
        ensures r[i] != map[] && forall j :: j in r[i] ==> r[i][j] != 0
      {
        assert r[i] == DifferenceRow(a, b, i);
      }
    }
    assert forall i, j :: At(r, i, j) == At(a, i, j) - At(b, i, j) by {
      forall i, j
        ensures At(r, i, j) == At(a, i, j) - At(b, i, j)
      {
        var row := DifferenceRow(a, b, i);
        assert (if j in row then row[j] else 0) == At(a, i, j) - At(b, i, j);
        if j in row {
          assert i in a.Keys + b.Keys && i in r && r[i] == row;
        } else if i in r {
          assert r[i] == row;
        }
      }
    }
    r
  }

  // ------------------------------------------------------------ product

  /** One term a(i, k) * b(k, j) of the product's cell (i, j). */
  function Term(a: Data, b: Data, i: int, k: int, j: int): int
  {
    At(a, i, k) * At(b, k, j)
  }

  /** The sum of the terms of cell (i, j) over the shared indices `ks`,
      taken in ascending order of `ks`. */
  function RowSum(a: Data, b: Data, i: int, j: int, ks: set<int>): int
    decreases |ks|
  {
    if ks == {} then 0
    else
      var k := Min(ks);
      Term(a, b, i, k, j) + RowSum(a, b, i, j, ks - {k})
  }

  /** The product's cell (i, j), summed over the columns stored in row i of `a`. */
  function ProductCell(a: Data, b: Data, i: int, j: int): int
  {
    RowSum(a, b, i, j, Row(a, i).Keys)
  }

  /** The dense sum-of-products a(i, 0) * b(0, j) + ... + a(i, n - 1) * b(n - 1, j). */
  ghost function DenseCell(a: Data, b: Data, i: int, j: int, n: int): int
    decreases n
  {
    if n <= 0 then 0 else DenseCell(a, b, i, j, n - 1) + Term(a, b, i, n - 1, j)
  }

  /** The columns that occur in some stored row of `b`. */
  function ColumnKeys(b: Data): set<int>
  {
    set k, j | k in b && j in b[k] :: j
  }

  function ProductRow(a: Data, b: Data, i: int): map<int, int>
  {
    map j | j in ColumnKeys(b) && ProductCell(a, b, i, j) != 0 :: ProductCell(a, b, i, j)
  }

  /** The sparse map of the matrix product. */
  function Product(a: Data, b: Data): (r: Data)
    ensures Sparse(r)
    ensures forall i, j :: At(r, i, j) == ProductCell(a, b, i, j)
  {
    var r := map i | i in a.Keys && ProductRow(a, b, i) != map[] :: ProductRow(a, b, i);
    assert forall i, j :: At(r, i, j) == ProductCell(a, b, i, j) by {
      forall i, j
        ensures At(r, i, j) == ProductCell(a, b, i, j)
      {
        if j !in ColumnKeys(b) {
          ProductCellOutside(a, b, i, j);
        } else if ProductCell(a, b, i, j) != 0 {
          assert i in a;
          assert j in ProductRow(a, b, i);
        }
      }
    }
    r
  }

  /** Taking out any one index: the order in which terms are summed does not matter. */
  lemma {:induction false} RowSumRemove(a: Data, b: Data, i: int, j: int, ks: set<int>, k: int)
    requires k in ks
    ensures RowSum(a, b, i, j, ks) == Term(a, b, i, k, j) + RowSum(a, b, i, j, ks - {k})
    decreases |ks|
  {
    var m := Min(ks);
    if k != m {
      RowSumRemove(a, b, i, j, ks - {m}, k);
      RowSumRemove(a, b, i, j, ks - {k}, m);
      assert ks - {m} - {k} == ks - {k} - {m};
    }
  }

  /** One more shared index adds its term, which reads the stored values
      directly and is 0 when that row of `b` is not stored. */
  lemma RowSumInsert(a: Data, b: Data, i: int, done: set<int>, k: int)
    requires i in a && k in a[i] && k !in done
    ensures forall j :: RowSum(a, b, i, j, done + {k}) == RowSum(a, b, i, j, done) +
                        if k in b && j in b[k] then a[i][k] * b[k][j] else 0
  {
    forall j
      ensures RowSum(a, b, i, j, done + {k}) == RowSum(a, b, i, j, done) + Term(a, b, i, k, j)
    {
      RowSumRemove(a, b, i, j, done + {k}, k);
      assert done + {k} - {k} == done;
    }
  }

  /** A sum of zero terms is zero. */
  lemma {:induction false} RowSumZero(a: Data, b: Data, i: int, j: int, ks: set<int>)
    requires forall k :: k in ks ==> Term(a, b, i, k, j) == 0
    ensures RowSum(a, b, i, j, ks) == 0
    decreases |ks|
  {
    if ks != {} {
      RowSumZero(a, b, i, j, ks - {Min(ks)});
    }
  }

  /** A column that no row of `b` stores gives a zero product cell. */
  lemma ProductCellOutside(a: Data, b: Data, i: int, j: int)
    requires j !in ColumnKeys(b)
    ensures ProductCell(a, b, i, j) == 0
  {
    forall k | k in Row(a, i).Keys
      ensures Term(a, b, i, k, j) == 0
    {
      if k in b {
        assert j !in b[k];
      }
    }
    RowSumZero(a, b, i, j, Row(a, i).Keys);
  }

  // ---------------------------------------------------- algebraic facts

  /** Addition is commutative. */
  lemma SumCommutes(a: Data, b: Data)
    ensures Sum(a, b) == Sum(b, a)
  {
    SparseExtensional(Sum(a, b), Sum(b, a));
  }

  /** Adding the empty matrix changes nothing. */
  lemma SumEmpty(a: Data)
    requires Sparse(a)
    ensures Sum(a, map[]) == a
  {
    SparseExtensional(Sum(a, map[]), a);
  }

  /** Subtracting a matrix from itself cancels every entry. */
  lemma DifferenceSelf(a: Data)
    ensures Difference(a, a) == map[]
  {
    SparseExtensional(Difference(a, a), map[]);
  }

  /** Subtracting is adding the negation, the negation being the empty matrix minus `b`. */
  lemma DifferenceIsSumOfNegation(a: Data, b: Data)
    ensures Difference(a, b) == Sum(a, Difference(map[], b))
  {
    SparseExtensional(Difference(a, b), Sum(a, Difference(map[], b)));
  }

  /** The cell-wise sum of matrices of one shape has that shape. */
  lemma SumWithin(a: Data, b: Data, rows: int, cols: int)
    requires Within(a, rows, cols) && Within(b, rows, cols)
    ensures Within(Sum(a, b), rows, cols)
  {
    var r := Sum(a, b);
    forall i | i in r
      ensures 0 <= i < rows && forall j :: j in r[i] ==> 0 <= j < cols
    {
      forall j | j in r[i]
        ensures 0 <= j < cols
      {
        assert At(a, i, j) != 0 || At(b, i, j) != 0;
      }
      HasElement(r[i].Keys);
      var j :| j in r[i];
      assert At(a, i, j) != 0 || At(b, i, j) != 0;
    }
  }

  /** The cell-wise difference of matrices of one shape has that shape. */
  lemma DifferenceWithin(a: Data, b: Data, rows: int, cols: int)
    requires Within(a, rows, cols) && Within(b, rows, cols)
    ensures Within(Difference(a, b), rows, cols)
  {
    var r := Difference(a, b);
    forall i | i in r
      ensures 0 <= i < rows && forall j :: j in r[i] ==> 0 <= j < cols
    {
      forall j | j in r[i]
        ensures 0 <= j < cols
      {
        assert At(a, i, j) != 0 || At(b, i, j) != 0;
      }
      HasElement(r[i].Keys);
      var j :| j in r[i];
      assert At(a, i, j) != 0 || At(b, i, j) != 0;
    }
  }

  /** The product of an `n1` x `n` and an `n` x `n2` matrix is `n1` x `n2`. */
  lemma ProductWithin(a: Data, b: Data, n1: int, n: int, n2: int)
    requires Within(a, n1, n) && Within(b, n, n2)
    ensures Within(Product(a, b), n1, n2)
  {
    var r := Product(a, b);
    forall i | i in r
      ensures 0 <= i < n1 && forall j :: j in r[i] ==> 0 <= j < n2
    {
      forall j | j in r[i]
        ensures 0 <= j < n2
      {
        if j !in ColumnKeys(b) {
          ProductCellOutside(a, b, i, j);
        }
        var k :| k in b && j in b[k];
      }
    }
  }

  /** Summing the stored columns of row i ascending equals summing the
      columns below `n` in index order. */
  lemma {:induction false} DenseAsRowSum(a: Data, b: Data, i: int, j: int, n: int)
    ensures DenseCell(a, b, i, j, n) == RowSum(a, b, i, j, set k | k in Row(a, i).Keys && 0 <= k < n)
    decreases n
  {
    var s := set k | k in Row(a, i).Keys && 0 <= k < n;
    if n <= 0 {
      assert s == {};
    } else {
      var s' := set k | k in Row(a, i).Keys && 0 <= k < n - 1;
      DenseAsRowSum(a, b, i, j, n - 1);
      if n - 1 in Row(a, i) {
        RowSumRemove(a, b, i, j, s, n - 1);
        assert s - {n - 1} == s';
      } else {
        assert s == s';
      }
    }
  }

  /** For a matrix whose stored columns lie below `cols`, each product cell is
      the textbook sum a(i, 0) * b(0, j) + ... + a(i, cols - 1) * b(cols - 1, j). */
  lemma ProductIsDense(a: Data, b: Data, rows: int, cols: int)
    requires Within(a, rows, cols)
    ensures forall i, j :: At(Product(a, b), i, j) == DenseCell(a, b, i, j, cols)
  {
    forall i, j
      ensures ProductCell(a, b, i, j) == DenseCell(a, b, i, j, cols)
    {
      DenseAsRowSum(a, b, i, j, cols);
      assert (set k | k in Row(a, i).Keys && 0 <= k < cols) == Row(a, i).Keys;
    }
  }

  /** The `n` x `n` identity matrix. */
  function Identity(n: int): (r: Data)
    ensures Sparse(r)
    ensures forall k, j :: At(r, k, j) == if 0 <= k < n && k == j then 1 else 0
  {
    var r := map k | 0 <= k < n :: map[k := 1];
    assert forall k :: k in r ==> k in r[k];
    r
  }

  /** Multiplying by the identity on the right gives the matrix back. */
  lemma ProductIdentity(a: Data, rows: int, n: int)
    requires Sparse(a) && Within(a, rows, n)
    ensures Product(a, Identity(n)) == a
  {
    var id := Identity(n);
    forall i, j
      ensures ProductCell(a, id, i, j) == At(a, i, j)
    {
      var ks := Row(a, i).Keys;
      if j in ks {
        RowSumRemove(a, id, i, j, ks, j);
        RowSumZero(a, id, i, j, ks - {j});
      } else {
        RowSumZero(a, id, i, j, ks);
      }
    }
    SparseExtensional(Product(a, id), a);
  }

  // ------------------------------------------------------ worked example

  /** A worked example on two 2 x 2 matrices: one with every cell set, the
      identity, and their sum. */
  function ExampleFull(): Data
  {
    map[0 := map[0 := 1, 1 := 2], 1 := map[0 := 3, 1 := 4]]
  }

  function ExampleIdentity(): Data
  {
    map[0 := map[0 := 1], 1 := map[1 := 1]]
  }

  function ExampleTotal(): Data
  {
    map[0 := map[0 := 2, 1 := 2], 1 := map[0 := 3, 1 := 5]]
  }

  /** The cells of the example matrices, cell by cell. */
  lemma ExampleCells(i: int, j: int)
    ensures At(ExampleFull(), i, j) == if 0 <= i < 2 && 0 <= j < 2 then 2 * i + j + 1 else 0
    ensures At(ExampleIdentity(), i, j) == if 0 <= i < 2 && i == j then 1 else 0
    ensures At(ExampleTotal(), i, j) == At(ExampleFull(), i, j) + At(ExampleIdentity(), i, j)
  {
  }

  lemma ExampleSparse()
    ensures Sparse(ExampleFull()) && Sparse(ExampleIdentity()) && Sparse(ExampleTotal())
  {
    FullRowsSparse(ExampleFull(), 1, 2, 3, 4);
    FullRowsSparse(ExampleTotal(), 2, 2, 3, 5);
    var d := ExampleIdentity();
    assert d.Keys == {0, 1} && d[0].Keys == {0} && d[1].Keys == {1};
  }

  /** A 2 x 2 matrix with every cell stored and non-zero is sparse. */
  lemma FullRowsSparse(m: Data, a: int, b: int, c: int, d: int)
    requires a != 0 && b != 0 && c != 0 && d != 0
    requires m == map[0 := map[0 := a, 1 := b], 1 := map[0 := c, 1 := d]]
    ensures Sparse(m)
  {
    assert m.Keys == {0, 1} && m[0].Keys == {0, 1} && m[1].Keys == {0, 1};
  }

  /** The sum of the example: the diagonal goes up by one. */
  lemma ExampleSum()
    ensures Sum(ExampleFull(), ExampleIdentity()) == ExampleTotal()
  {
    var r := Sum(ExampleFull(), ExampleIdentity());
    ExampleSparse();
    forall i, j
      ensures At(r, i, j) == At(ExampleTotal(), i, j)
    {
      ExampleCells(i, j);
    }
    SparseExtensional(r, ExampleTotal());
  }

  /** The product of the example: multiplying by the identity changes nothing. */
  lemma ExampleProduct()
    ensures Product(ExampleFull(), ExampleIdentity()) == ExampleFull()
  {
    ExampleSparse();
    ExampleWithin();
    forall i, j
      ensures At(ExampleIdentity(), i, j) == if 0 <= i < 2 && i == j then 1 else 0
    {
      ExampleCells(i, j);
    }
    ProductByIdentity(ExampleFull(), ExampleIdentity(), 2, 2);
  }

  lemma ExampleWithin()
    ensures Within(ExampleFull(), 2, 2)
  {
    assert ExampleFull().Keys == {0, 1} && ExampleFull()[0].Keys == {0, 1} && ExampleFull()[1].Keys == {0, 1};
  }

  /** Any sparse map that reads as the n x n identity is a right unit of the product. */
  lemma ProductByIdentity(a: Data, e: Data, rows: int, n: int)
    requires Sparse(a) && Within(a, rows, n) && Sparse(e)
    requires forall k, j :: At(e, k, j) == if 0 <= k < n && k == j then 1 else 0
    ensures Product(a, e) == a
  {
    SparseExtensional(e, Identity(n));
    ProductIdentity(a, rows, n);
  }

}
