/**
 * The sparse matrix object: its dimensions and the nested map of its
 * non-zero cells, which `SetElement` updates in place, and the three
 * arithmetic operations, each of which checks the dimensions and then
 * builds a fresh result by walking only the stored cells of its operands.
 */
module SparseMatrices {
  import opened Results
  import opened Entries
  import opened Arithmetic
  import opened TextFormat

  datatype Shape = Shape(rows: int, cols: int)

  datatype Operation = Addition | Subtraction | Multiplication

  /** The failure of an operation whose operands have incompatible shapes. */
  datatype MatrixError = DimensionMismatch(op: Operation, left: Shape, right: Shape)

  class SparseMatrix {
    const rows: int
    const cols: int
    var data: Data

    /** The object invariant: the stored cells are sparse. */
    ghost predicate Valid()
      reads this
    {
      Sparse(data)
    }

    /** A `numRows` x `numCols` matrix with nothing stored. */
    constructor (numRows: int, numCols: int)
      ensures rows == numRows && cols == numCols
      ensures data == map[] && Valid()
    {
      rows := numRows;
      cols := numCols;
      data := map[];
    }

    /** The value of cell (row, col): what is stored there, otherwise 0, for
        any coordinates, including ones outside the dimensions. */
    function GetElement(row: int, col: int): (v: int)
      reads this
      ensures row in data && col in data[row] ==> v == data[row][col]
      ensures !(row in data && col in data[row]) ==> v == 0
      ensures Valid() ==> (v != 0 <==> row in data && col in data[row])
    {
      At(data, row, col)
    }

    /** Writes `value` into cell (row, col), deleting the cell when `value` is 0
        and then its row map when that became empty. No bounds are checked. */
    method SetElement(row: int, col: int, value: int)
      requires Valid()
      modifies this
      ensures Valid()
      ensures data == Updated(old(data), row, col, value)
      ensures forall i, j :: At(data, i, j) == if i == row && j == col then value else old(At(data, i, j))
    {
      if value == 0 {
        if row in data {
          if col in data[row] {
            data := data[row := data[row] - {col}];
          }
          if data[row] == map[] {
            data := data - {row};
          }
        }
      } else {
        if row !in data {
          data := data[row := map[]];
        }
        data := data[row := data[row][col := value]];
        assert col in data[row];
      }
    }

    /** Copies every stored cell of `src` with `SetElement`; cells `src` does
        not store keep their values. */
    method StoreAll(src: Data)
      requires Valid()
      modifies this
      ensures Valid()
      ensures forall i, j :: At(data, i, j) == if i in src && j in src[i] then src[i][j] else old(At(data, i, j))
    {
      ghost var start := data;
      var pending := src.Keys;
      while pending != {}
        invariant pending <= src.Keys
        invariant Valid()
        invariant forall i, j :: At(data, i, j) == if i !in pending && i in src && j in src[i] then src[i][j] else At(start, i, j)
        decreases |pending|
      {
        HasElement(pending);
        var r :| r in pending;
        var todo := src[r].Keys;
        while todo != {}
          invariant todo <= src[r].Keys
          invariant Valid()
          invariant forall i, j :: At(data, i, j) ==
                                   if (i !in pending || (i == r && j !in todo)) && i in src && j in src[i]
                                   then src[i][j] else At(start, i, j)
          decreases |todo|
        {
          HasElement(todo);
          var c :| c in todo;
          SetElement(r, c, src[r][c]);
          todo := todo - {c};
        }
        pending := pending - {r};
      }
    }

    /** Adds every stored cell of `src` into this matrix, reading the current
        value with `GetElement` and writing the sum with `SetElement`. */
    method AddAll(src: Data)
      requires Valid()
      modifies this
      ensures Valid()
      ensures forall i, j :: At(data, i, j) == old(At(data, i, j)) + At(src, i, j)
    {
      ghost var start := data;
      var pending := src.Keys;
      while pending != {}
        invariant pending <= src.Keys
        invariant Valid()
        invariant forall i, j :: At(data, i, j) == At(start, i, j) + if i !in pending then At(src, i, j) else 0
        decreases |pending|
      {
        HasElement(pending);
        var r :| r in pending;
        var todo := src[r].Keys;
        while todo != {}
          invariant todo <= src[r].Keys
          invariant Valid()
          invariant forall i, j :: At(data, i, j) ==
                                   At(start, i, j) + if i !in pending || (i == r && j !in todo) then At(src, i, j) else 0
          decreases |todo|
        {
          HasElement(todo);
          var c :| c in todo;
          var sum := GetElement(r, c) + src[r][c];
          SetElement(r, c, sum);
          todo := todo - {c};
        }
        pending := pending - {r};
      }
    }

    /** Subtracts every stored cell of `src` from this matrix, reading the
        current value with `GetElement` and writing the difference with `SetElement`. */
    method SubtractAll(src: Data)
      requires Valid()
      modifies this
      ensures Valid()
      ensures forall i, j :: At(data, i, j) == old(At(data, i, j)) - At(src, i, j)
    {
      ghost var start := data;
      var pending := src.Keys;
      while pending != {}
        invariant pending <= src.Keys
        invariant Valid()
        invariant forall i, j :: At(data, i, j) == At(start, i, j) - if i !in pending then At(src, i, j) else 0
        decreases |pending|
      {
        HasElement(pending);
        var r :| r in pending;
        var todo := src[r].Keys;
        while todo != {}
          invariant todo <= src[r].Keys
          invariant Valid()
          invariant forall i, j :: At(data, i, j) ==
                                   At(start, i, j) - if i !in pending || (i == r && j !in todo) then At(src, i, j) else 0
          decreases |todo|
        {
          HasElement(todo);
          var c :| c in todo;
          var diff := GetElement(r, c) - src[r][c];
          SetElement(r, c, diff);
          todo := todo - {c};
        }
        pending := pending - {r};
      }
    }

    /** For every stored a(i, k) and every stored b(k, j), adds a(i, k) * b(k, j)
        into cell (i, j): row k of `b` is looked up directly, never scanned for. */
    method AddProducts(a: Data, b: Data)
      requires Valid()
      modifies this
      ensures Valid()
      ensures forall i, j :: At(data, i, j) == old(At(data, i, j)) + ProductCell(a, b, i, j)
    {
      ghost var start := data;
      var pending := a.Keys;
      while pending != {}
        invariant pending <= a.Keys
        invariant Valid()
        invariant forall i, j :: At(data, i, j) == At(start, i, j) + if i !in pending then ProductCell(a, b, i, j) else 0
        decreases |pending|
      {
        HasElement(pending);
        var r :| r in pending;
        AddRowProducts(a, b, r);
        pending := pending - {r};
      }
    }

    /** The products contributed by row `r` of `a`: for every stored a(r, k)
        whose row k is stored in `b`, adds a(r, k) times that row into row `r`. */
    method AddRowProducts(a: Data, b: Data, r: int)
      requires Valid() && r in a
      modifies this
      ensures Valid()
      ensures forall i, j :: At(data, i, j) == old(At(data, i, j)) + if i == r then ProductCell(a, b, r, j) else 0
    {
      ghost var start := data;
      var shared := a[r].Keys;
      ghost var done: set<int> := {};
      assert forall j :: RowSum(a, b, r, j, done) == 0;
      while shared != {}
        invariant shared <= a[r].Keys && done == a[r].Keys - shared
        invariant Valid()
        invariant forall i, j :: At(data, i, j) == At(start, i, j) + if i == r then RowSum(a, b, r, j, done) else 0
        decreases |shared|
      {
        HasElement(shared);
        var k :| k in shared;
        var v1 := a[r][k];
        if k in b {
          AddScaledRow(r, v1, b[k]);
        }
        RowSumInsert(a, b, r, done, k);
        done := done + {k};
        shared := shared - {k};
      }
      assert done == Row(a, r).Keys;
    }

    /** Adds `factor * row[c]` into cell (r, c) for every column `c` stored in `row`. */
    method AddScaledRow(r: int, factor: int, row: map<int, int>)
      requires Valid()
      modifies this
      ensures Valid()
      ensures forall i, j :: At(data, i, j) == old(At(data, i, j)) + if i == r && j in row then factor * row[j] else 0
    {
      ghost var start := data;
      var todo := row.Keys;
      while todo != {}
        invariant todo <= row.Keys
        invariant Valid()
        invariant forall i, j :: At(data, i, j) == At(start, i, j) +
                                 if i == r && j in row && j !in todo then factor * row[j] else 0
        decreases |todo|
      {
        HasElement(todo);
        var c :| c in todo;
        var current := GetElement(r, c);
        SetElement(r, c, current + factor * row[c]);
        todo := todo - {c};
      }
    }

    /** `add`: the cell-wise sum, or a dimension mismatch when the shapes differ. */
    method Add(other: SparseMatrix) returns (r: Result<SparseMatrix, MatrixError>)
      ensures r.Failure? <==> rows != other.rows || cols != other.cols
      ensures r.Failure? ==> r.error == DimensionMismatch(Addition, Shape(rows, cols), Shape(other.rows, other.cols))
      ensures r.Success? ==> fresh(r.value) && r.value.Valid()
      ensures r.Success? ==> r.value.rows == rows && r.value.cols == cols
      ensures r.Success? ==> r.value.data == Sum(data, other.data)
    {
      if rows != other.rows || cols != other.cols {
        return Failure(DimensionMismatch(Addition, Shape(rows, cols), Shape(other.rows, other.cols)));
      }
      var result := new SparseMatrix(rows, cols);
      result.StoreAll(data);
      result.AddAll(other.data);
      SparseExtensional(result.data, Sum(data, other.data));
      return Success(result);
    }

    /** `subtract`: the cell-wise difference, or a dimension mismatch when the shapes differ. */
    method Subtract(other: SparseMatrix) returns (r: Result<SparseMatrix, MatrixError>)
      ensures r.Failure? <==> rows != other.rows || cols != other.cols
      ensures r.Failure? ==> r.error == DimensionMismatch(Subtraction, Shape(rows, cols), Shape(other.rows, other.cols))
      ensures r.Success? ==> fresh(r.value) && r.value.Valid()
      ensures r.Success? ==> r.value.rows == rows && r.value.cols == cols
      ensures r.Success? ==> r.value.data == Difference(data, other.data)
    {
      if rows != other.rows || cols != other.cols {
        return Failure(DimensionMismatch(Subtraction, Shape(rows, cols), Shape(other.rows, other.cols)));
      }
      var result := new SparseMatrix(rows, cols);
      result.StoreAll(data);
      result.SubtractAll(other.data);
      SparseExtensional(result.data, Difference(data, other.data));
      return Success(result);
    }

    /** `multiply`: the matrix product, `rows` x `other.cols`, or a dimension
        mismatch when the columns of this matrix are not the rows of `other`. */
    method Multiply(other: SparseMatrix) returns (r: Result<SparseMatrix, MatrixError>)
      ensures r.Failure? <==> cols != other.rows
      ensures r.Failure? ==> r.error == DimensionMismatch(Multiplication, Shape(rows, cols), Shape(other.rows, other.cols))
      ensures r.Success? ==> fresh(r.value) && r.value.Valid()
      ensures r.Success? ==> r.value.rows == rows && r.value.cols == other.cols
      ensures r.Success? ==> r.value.data == Product(data, other.data)
      ensures r.Success? && Within(data, rows, cols) ==>
        forall i, j :: r.value.GetElement(i, j) == DenseCell(data, other.data, i, j, cols)
    {
      if cols != other.rows {
        return Failure(DimensionMismatch(Multiplication, Shape(rows, cols), Shape(other.rows, other.cols)));
      }
      var result := new SparseMatrix(rows, other.cols);
      result.AddProducts(data, other.data);
      SparseExtensional(result.data, Product(data, other.data));
      if Within(data, rows, cols) {
        ProductIsDense(data, other.data, rows, cols);
      }
      return Success(result);
    }

    /** The parsing part of `from_file`, over the lines the file was read
        into: the two header lines give the dimensions, then every non-blank
        line is written as a cell with `SetElement`, in file order. The result
        is what `Decode` says, and fails at the same line when it fails. */
    static method FromLines(lines: seq<string>) returns (r: Result<SparseMatrix, FormatError>)
      ensures r.Failure? <==> Decode(lines).Failure?
      ensures r.Failure? ==> r.error == Decode(lines).error
      ensures r.Success? ==> fresh(r.value) && r.value.Valid()
      ensures r.Success? ==> Decode(lines) == Success(Decoded(r.value.rows, r.value.cols, r.value.data))
    {
      if |lines| == 0 {
        return Failure(InvalidFormat(0));
      }
      var numRows := ParseHeader(lines[0]);
      if numRows.None? {
        return Failure(InvalidFormat(0));
      }
      if |lines| == 1 {
        return Failure(InvalidFormat(1));
      }
      var numCols := ParseHeader(lines[1]);
      if numCols.None? {
        return Failure(InvalidFormat(1));
      }
      var matrix := new SparseMatrix(numRows.value, numCols.value);
      var failure := matrix.StoreLines(lines[2..]);
      if failure.Some? {
        DecodeFailureOf(lines, numRows.value, numCols.value, failure.value);
        return Failure(failure.value);
      }
      DecodeOf(lines, numRows.value, numCols.value, Collect(ParseLines(lines[2..]), 2).value);
      return Success(matrix);
    }

    /** The loop of `from_file` over the lines after the headers, starting from
        an empty matrix: stops at the first malformed line and reports it,
        otherwise the cells are those of the lines' triples set in order. */
    method StoreLines(body: seq<string>) returns (failure: Option<FormatError>)
      requires data == map[]
      modifies this
      ensures Valid()
      ensures Collect(ParseLines(body), 2).Failure? ==> failure == Some(Collect(ParseLines(body), 2).error)
      ensures Collect(ParseLines(body), 2).Success? ==> failure == None && data == Build(Collect(ParseLines(body), 2).value)
    {
      ghost var rs := ParseLines(body);
      ghost var ts: seq<Triple> := [];
      var k := 0;
      while k < |body|
        invariant 0 <= k <= |body|
        invariant Valid()
        invariant Collect(rs[..k], 2) == Success(ts)
        invariant data == Build(ts)
      {
        var r := StoreLine(body[k]);
        assert r == rs[k];
        ts := LoadStep(rs, k, 2, ts);
        if r.Malformed? {
          return Some(InvalidFormat(2 + k));
        }
        k := k + 1;
      }
      assert rs[..k] == rs;
      return None;
    }

    /** One pass of the loop of `from_file`: a line blank after stripping is
        skipped, a cell line is written with `SetElement`, and a malformed one
        leaves the matrix as it was. */
    method StoreLine(line: string) returns (r: LineParse)
      requires Valid()
      modifies this
      ensures Valid()
      ensures r == ParseEntryLine(line)
      ensures r.Entry? ==> data == Updated(old(data), r.triple.row, r.triple.col, r.triple.value)
      ensures !r.Entry? ==> data == old(data)
    {
      r := ParseEntryLine(line);
      if r.Entry? {
        SetElement(r.triple.row, r.triple.col, r.triple.value);
      }
    }

    /** `__str__`: the two header lines and one line per stored cell, rows and
        then columns in ascending order, joined by newlines. Reading that text
        back with `readlines` and the loader gives this matrix again. */
    function ToText(): (s: string)
      reads this
      ensures Valid() ==> Decode(ReadLines(s)) == Success(Decoded(rows, cols, data))
    {
      var s := Join(Serialize(rows, cols, data));
      assert Valid() ==> Decode(ReadLines(s)) == Success(Decoded(rows, cols, data)) by {
        if Valid() {
          TextRoundTrip(rows, cols, data);
        }
      }
      s
    }
  }

}
