# Sparse integer matrix, modelled in Dafny

The system is a sparse integer matrix class, `SparseMatrix`, in
`dsa/sparse_matrix/code/src/sparse_matrix.py`. A matrix has a number of
rows, a number of columns and a nested dictionary
`data: row -> (col -> value)` that holds only the non-zero cells.

- `get_element` reads a cell as 0 when it is not stored.
- `set_element` writes a cell. It deletes the cell when the value is 0, and
  then deletes the row map if it became empty.
- `add`, `subtract` and `multiply` check the operands' dimensions. They then
  build a fresh result by walking only the stored cells, reading with
  `get_element` and writing with `set_element`.
- `__str__` writes `rows=<n>`, `cols=<m>` and one `(row, col, value)` line per
  stored cell, rows ascending and columns ascending within a row.
- `from_file` reads such a file back.

The Dafny project has five modules:

- `Entries` (`entries.dfy`) is the nested map as a value, `Data`.
  - `At` is its dense meaning: every cell that is not stored reads 0.
  - `Sparse` is the sparsity invariant: no stored 0 and no empty row map.
  - `Updated` is the effect of `set_element` on the map.
  - `SortedKeys` is `sorted(keys)`.
- `Arithmetic` (`arithmetic.dfy`) holds the reference definitions of the
  three operations: the canonical sparse map of the cell-wise sum, of the
  difference, and of the sum-of-products product. It also holds their
  algebraic facts.
- `TextFormat` (`text_format.dfy`) is the text format as pure functions over
  lines.
  - `Serialize` gives the lines of `__str__`; `Join` and `ReadLines` are
    `'\n'.join` and `readlines`.
  - `Decode` is the parse that `from_file` performs on the lines it read.
  - The round-trip lemmas connect the serialiser to the parse.
- `SparseMatrices` (`sparse_matrix.dfy`) is the class, with fields `rows`,
  `cols` and `data`.
  - `SetElement` updates `data` in place.
  - The operations are methods whose `while` loops walk the key sets of the
    operands' maps. Each one is proved against the reference map in
    `Arithmetic`.
  - `FromLines` runs the loader's loop over already-read lines. It calls
    `SetElement` for every cell line and is proved against `Decode`.
  - `ToText` is `__str__`.

`Results` (`results.dfy`) holds the `Option` and `Result` types. A Python exception
becomes a `Failure`:

- a dimension mismatch carries the operation and both shapes;
- a format error carries the 0-based index of the line that could not be
  parsed.

Every operation is independent of the order in which the loops visit the
dictionaries. Each loop picks any remaining key, and its invariant is stated
over the set of keys already visited. For the product, `RowSumRemove` shows
that summing the terms of a cell in any order gives the same value, even
when an intermediate sum cancels to 0 and the cell is removed and re-created.

## Model

| member | source | states |
|---|---|---|
| SparseMatrices.SparseMatrix.constructor | dsa/sparse_matrix/code/src/sparse_matrix.py:5-8 | the new matrix has the given dimensions, stores nothing, and is sparse |
| SparseMatrices.SparseMatrix.GetElement | dsa/sparse_matrix/code/src/sparse_matrix.py:34-35 | the stored value when row and column are both stored keys, otherwise 0, for any coordinates; in a sparse matrix the result is non-zero exactly when the cell is stored |
| SparseMatrices.SparseMatrix.SetElement | dsa/sparse_matrix/code/src/sparse_matrix.py:37-47 | the matrix stays sparse; afterwards (row, col) reads `value` and every other cell reads what it read before |
| Entries.Updated | dsa/sparse_matrix/code/src/sparse_matrix.py:37-47 | only cell (i, j) changes its dense value, to v; sparsity is preserved; in a sparse map, writing 0 to a cell that reads 0 changes nothing; after writing 0 the row stays stored exactly when it still has another column; no other row key is added or removed |
| Entries.SparseExtensional | dsa/sparse_matrix/code/src/sparse_matrix.py:37-47 | two sparse maps with the same dense view are equal, so the map `set_element` maintains is determined by the cells it reads as |
| Entries.SortedKeys | dsa/sparse_matrix/code/src/sparse_matrix.py:109-110 | `sorted(keys)`: strictly ascending, made of exactly the elements of the set, one per element |
| SparseMatrices.SparseMatrix.StoreAll | dsa/sparse_matrix/code/src/sparse_matrix.py:59-61 | after copying every stored cell of the source with `set_element`, the cells the source stores read its value and all others read what they read before; still sparse |
| SparseMatrices.SparseMatrix.AddAll | dsa/sparse_matrix/code/src/sparse_matrix.py:64-67 | after the get-then-set loop, every cell reads its old value plus the other matrix's value; still sparse, so cells that cancel are deleted |
| SparseMatrices.SparseMatrix.SubtractAll | dsa/sparse_matrix/code/src/sparse_matrix.py:83-86 | after the get-then-set loop, every cell reads its old value minus the other matrix's value; still sparse |
| SparseMatrices.SparseMatrix.AddProducts | dsa/sparse_matrix/code/src/sparse_matrix.py:98-103 | after the nested loops, every cell (i, j) reads its old value plus the sum of a(i, k) * b(k, j) over the stored columns k of row i; still sparse |
| SparseMatrices.SparseMatrix.AddRowProducts | dsa/sparse_matrix/code/src/sparse_matrix.py:99-103 | the loop over one stored row i of the left operand adds that row's full product cell to every (i, j) and leaves the other rows alone |
| SparseMatrices.SparseMatrix.AddScaledRow | dsa/sparse_matrix/code/src/sparse_matrix.py:101-103 | the innermost loop adds factor * b(k, j) into (i, j) for every column j stored in row k of the right operand, and changes nothing else |
| SparseMatrices.SparseMatrix.Add | dsa/sparse_matrix/code/src/sparse_matrix.py:52-69 | fails exactly when the rows or the columns differ, with both shapes; otherwise a fresh sparse matrix of the same shape whose cells are the reference sum |
| SparseMatrices.SparseMatrix.Subtract | dsa/sparse_matrix/code/src/sparse_matrix.py:71-88 | fails exactly when the rows or the columns differ, with both shapes; otherwise a fresh sparse matrix of the same shape whose cells are the reference difference |
| SparseMatrices.SparseMatrix.Multiply | dsa/sparse_matrix/code/src/sparse_matrix.py:90-105 | fails exactly when this matrix's columns differ from the other's rows; otherwise a fresh sparse `rows` x `other.cols` matrix equal to the reference product, whose cells are the textbook sums over k below `cols` when the stored cells lie inside the dimensions |
| SparseMatrices.SparseMatrix.FromLines | dsa/sparse_matrix/code/src/sparse_matrix.py:16-30 | fails exactly when `Decode` fails, at the same line; otherwise a fresh sparse matrix whose dimensions and cells are those `Decode` gives |
| SparseMatrices.SparseMatrix.StoreLines | dsa/sparse_matrix/code/src/sparse_matrix.py:21-28 | starting from an empty matrix, reports the first malformed line if there is one, otherwise leaves exactly the cells of the lines' triples set in file order |
| SparseMatrices.SparseMatrix.StoreLine | dsa/sparse_matrix/code/src/sparse_matrix.py:22-28 | one line: a cell line is written with `set_element`; a blank or malformed line changes nothing |
| SparseMatrices.SparseMatrix.ToText | dsa/sparse_matrix/code/src/sparse_matrix.py:107-112 | reading the text back with `readlines` and the loader gives the same dimensions and the same stored cells |
| Arithmetic.SumRow | dsa/sparse_matrix/code/src/sparse_matrix.py:59-67 | a row of the sum stores no 0, and each of its cells reads the sum of the operands' cells |
| Arithmetic.Sum | dsa/sparse_matrix/code/src/sparse_matrix.py:52-69 | the reference sum is sparse and every cell is a(i, j) + b(i, j) |
| Arithmetic.DifferenceRow | dsa/sparse_matrix/code/src/sparse_matrix.py:78-86 | a row of the difference stores no 0, and each of its cells reads the difference of the operands' cells |
| Arithmetic.Difference | dsa/sparse_matrix/code/src/sparse_matrix.py:71-88 | the reference difference is sparse and every cell is a(i, j) - b(i, j) |
| Arithmetic.Product | dsa/sparse_matrix/code/src/sparse_matrix.py:90-105 | the reference product is sparse and every cell is the sum of a(i, k) * b(k, j) over the stored columns k of row i |
| Arithmetic.RowSumRemove | dsa/sparse_matrix/code/src/sparse_matrix.py:98-103 | the sum of the terms of a cell can take out any one index first, so the visiting order of the loops does not change the result |
| Arithmetic.RowSumInsert | dsa/sparse_matrix/code/src/sparse_matrix.py:99-103 | visiting one more stored a(i, k) adds a(i, k) * b(k, j) to every cell of row i when row k of `b` stores column j, and nothing otherwise |
| Arithmetic.RowSumZero | dsa/sparse_matrix/code/src/sparse_matrix.py:100-103 | a sum whose every term is 0 is 0 |
| Arithmetic.ProductCellOutside | dsa/sparse_matrix/code/src/sparse_matrix.py:100-103 | a product cell in a column that no stored row of `b` has is 0 |
| Arithmetic.SumCommutes | dsa/sparse_matrix/code/src/sparse_matrix.py:52-69 | a + b == b + a |
| Arithmetic.SumEmpty | dsa/sparse_matrix/code/src/sparse_matrix.py:52-69 | adding the empty matrix to a sparse matrix gives it back |
| Arithmetic.DifferenceSelf | dsa/sparse_matrix/code/src/sparse_matrix.py:71-88 | a - a stores nothing: every cancelled cell is deleted |
| Arithmetic.DifferenceIsSumOfNegation | dsa/sparse_matrix/code/src/sparse_matrix.py:71-88 | a - b == a + (0 - b) |
| Arithmetic.SumWithin | dsa/sparse_matrix/code/src/sparse_matrix.py:52-69 | the sum of two matrices whose cells lie inside rows x cols lies inside rows x cols |
| Arithmetic.DifferenceWithin | dsa/sparse_matrix/code/src/sparse_matrix.py:71-88 | the difference of two matrices whose cells lie inside rows x cols lies inside rows x cols |
| Arithmetic.ProductWithin | dsa/sparse_matrix/code/src/sparse_matrix.py:90-105 | the product of an n1 x n and an n x n2 matrix lies inside n1 x n2 |
| Arithmetic.DenseAsRowSum | dsa/sparse_matrix/code/src/sparse_matrix.py:98-103 | the sparse sum over the stored columns below n equals the dense sum a(i, 0) * b(0, j) + ... + a(i, n - 1) * b(n - 1, j) |
| Arithmetic.ProductIsDense | dsa/sparse_matrix/code/src/sparse_matrix.py:90-105 | when every stored cell of `a` lies inside `rows` x `cols`, every product cell is the textbook dense sum over k below `cols` |
| Arithmetic.Identity | dsa/sparse_matrix/code/src/sparse_matrix.py:90-105 | the n x n identity is sparse and reads 1 on the diagonal, 0 elsewhere |
| Arithmetic.ProductIdentity | dsa/sparse_matrix/code/src/sparse_matrix.py:90-105 | multiplying a sparse rows x n matrix by the n x n identity gives it back |
| Arithmetic.ProductByIdentity | dsa/sparse_matrix/code/src/sparse_matrix.py:90-105 | any sparse map that reads as the n x n identity is a right unit of the product |
| Arithmetic.ExampleSum | dsa/sparse_matrix/code/src/sparse_matrix.py:52-69 | [[1, 2], [3, 4]] + identity == [[2, 2], [3, 5]] |
| Arithmetic.ExampleProduct | dsa/sparse_matrix/code/src/sparse_matrix.py:90-105 | [[1, 2], [3, 4]] * identity == [[1, 2], [3, 4]] |
| TextFormat.TrimStartFacts | dsa/sparse_matrix/code/src/sparse_matrix.py:22 | `lstrip` keeps a suffix that starts with a non-space and drops only whitespace |
| TextFormat.TrimEndFacts | dsa/sparse_matrix/code/src/sparse_matrix.py:22 | `rstrip` keeps a prefix that ends with a non-space and drops only whitespace |
| TextFormat.Strip | dsa/sparse_matrix/code/src/sparse_matrix.py:22 | no contract of its own; `StripFacts`, `StripPadded`, `EnclosedStrip` and `EntryNewline` state what `str.strip` does |
| TextFormat.StripFacts | dsa/sparse_matrix/code/src/sparse_matrix.py:22 | `strip` keeps a contiguous part of the line that neither starts nor ends with whitespace, and everything it drops is whitespace |
| TextFormat.ParseInt | dsa/sparse_matrix/code/src/sparse_matrix.py:27 | no contract of its own; `ParseIntOfString` (it reads back what `str` writes) and `ParseIntBlank` (an empty or blank field fails) state its meaning |
| TextFormat.ParseNumber | dsa/sparse_matrix/code/src/sparse_matrix.py:27 | no contract of its own; `ParseNumberOfString` states that the sign and digits of `str(n)` read back as n |
| TextFormat.ParseIntBlank | dsa/sparse_matrix/code/src/sparse_matrix.py:27 | `int` of an empty or all-whitespace string fails |
| TextFormat.IntToString | dsa/sparse_matrix/code/src/sparse_matrix.py:111 | no contract of its own; `IntToStringShape` gives its shape and `ParseIntOfString` its inverse |
| TextFormat.IntToStringShape | dsa/sparse_matrix/code/src/sparse_matrix.py:111 | `str` of an integer is a `-` exactly when it is negative, then decimal digits with no leading zero unless it is 0 |
| TextFormat.ParseHeader | dsa/sparse_matrix/code/src/sparse_matrix.py:16-17 | no contract of its own; `HeaderRoundTrip`, `HeaderTooShort` and `HeaderNewline` state its meaning |
| TextFormat.HeaderTooShort | dsa/sparse_matrix/code/src/sparse_matrix.py:16-17 | a header line of five characters or fewer has no number, because `int('')` fails |
| TextFormat.ParseEntryLine | dsa/sparse_matrix/code/src/sparse_matrix.py:22-28 | no contract of its own; `EntryLineRoundTrip` (a written cell line parses to its cell), `EntryNewline` and `ParseAll` state its meaning |
| TextFormat.Collect | dsa/sparse_matrix/code/src/sparse_matrix.py:21-28 | no contract of its own; `CollectFirstFailure`, `CollectSnoc`, `CollectAll` and `CollectFailureStays` state its meaning |
| TextFormat.CollectFirstFailure | dsa/sparse_matrix/code/src/sparse_matrix.py:21-28 | the loader's loop succeeds exactly when no line is malformed, giving at most one cell per line; otherwise it fails at the first malformed line, whose index it reports |
| TextFormat.LoadStep | dsa/sparse_matrix/code/src/sparse_matrix.py:21-28 | one pass of the loop: a malformed line fails the whole parse at its index, a blank line adds nothing, a cell line adds its triple and sets one more cell |
| TextFormat.Decode | dsa/sparse_matrix/code/src/sparse_matrix.py:16-30 | no contract of its own; `DecodeOf`, `DecodeFailureOf`, `CollectFirstFailure` and `TextRoundTrip` state its meaning, and `FromLines` is proved against it |
| TextFormat.Serialize | dsa/sparse_matrix/code/src/sparse_matrix.py:107-112 | no contract of its own; `RoundTrip`, `SerializeEmpty`, `ListingHeaders` and `TriplesFacts` state its meaning |
| TextFormat.Triples | dsa/sparse_matrix/code/src/sparse_matrix.py:109-111 | no contract of its own; `TriplesFacts` states that it lists exactly the stored cells in strictly ascending row-major order |
| TextFormat.EntryLine | dsa/sparse_matrix/code/src/sparse_matrix.py:111 | no contract of its own; `EntryLineRoundTrip` states that its parse is the cell |
| TextFormat.Join | dsa/sparse_matrix/code/src/sparse_matrix.py:112 | no contract of its own; `ReadLinesJoin` states that reading the joined text gives the lines back |
| TextFormat.ReadLines | dsa/sparse_matrix/code/src/sparse_matrix.py:14 | no contract of its own; `ReadLinesSingle`, `ReadLinesFirst` and `ReadLinesJoin` state how it cuts a text |
| TextFormat.Split | dsa/sparse_matrix/code/src/sparse_matrix.py:27 | `str.split` always yields at least one piece |
| TextFormat.ParseAll | dsa/sparse_matrix/code/src/sparse_matrix.py:27 | the list comprehension's `int` of every piece succeeds exactly when every piece parses, and then gives one integer per piece, each that piece's value; a single non-integer piece fails the whole line |
| TextFormat.Build | dsa/sparse_matrix/code/src/sparse_matrix.py:19-28 | setting the triples in turn from an empty matrix gives a sparse map |
| TextFormat.DigitsOfNat | dsa/sparse_matrix/code/src/sparse_matrix.py:111 | the decimal digits `str` writes for a natural number have that value |
| TextFormat.StripPadded | dsa/sparse_matrix/code/src/sparse_matrix.py:22 | stripping leading whitespace off a string that starts and ends with a non-space gives the string |
| TextFormat.ParseIntOfString | dsa/sparse_matrix/code/src/sparse_matrix.py:27 | `int` applied to `str(n)`, with optional leading whitespace, gives n back, negative numbers included |
| TextFormat.ParseNumberOfString | dsa/sparse_matrix/code/src/sparse_matrix.py:27 | the sign and digits `str(n)` writes read back as n |
| TextFormat.SplitWhole | dsa/sparse_matrix/code/src/sparse_matrix.py:27 | a string without the delimiter splits into itself alone |
| TextFormat.SplitFirst | dsa/sparse_matrix/code/src/sparse_matrix.py:27 | splitting at the first delimiter yields the piece before it and then the split of the rest |
| TextFormat.FieldsOfCells | dsa/sparse_matrix/code/src/sparse_matrix.py:27 | the inner text of a cell line splits at commas into its three fields |
| TextFormat.EnclosedStrip | dsa/sparse_matrix/code/src/sparse_matrix.py:22 | a cell line is unchanged by `strip` |
| TextFormat.EnclosedInner | dsa/sparse_matrix/code/src/sparse_matrix.py:27 | `line[1:-1]` of `(inner)` is `inner` |
| TextFormat.CellFields | dsa/sparse_matrix/code/src/sparse_matrix.py:27 | the three serialised numbers of a cell, split at commas, parse back to row, column and value |
| TextFormat.EntryLineRoundTrip | dsa/sparse_matrix/code/src/sparse_matrix.py:111 | the parse of the line `__str__` writes for a cell is that cell |
| TextFormat.HeaderRoundTrip | dsa/sparse_matrix/code/src/sparse_matrix.py:16-17 | `int(line[5:])` of a five-character tag followed by `str(n)` is n |
| TextFormat.CollectAll | dsa/sparse_matrix/code/src/sparse_matrix.py:21-28 | lines that all parse to cells give those cells, in order |
| TextFormat.RowTriplesAt | dsa/sparse_matrix/code/src/sparse_matrix.py:110-111 | the listing of one row has one triple per listed column, in the order of the columns |
| TextFormat.RowTriplesMembers | dsa/sparse_matrix/code/src/sparse_matrix.py:110-111 | the listing of a row holds exactly the triples of its stored cells |
| TextFormat.RowTriplesListed | dsa/sparse_matrix/code/src/sparse_matrix.py:110-111 | listing a row over any sequence of exactly its columns holds exactly the row's triples |
| TextFormat.RowsTriplesMembers | dsa/sparse_matrix/code/src/sparse_matrix.py:109-111 | listing the rows holds exactly the triples of the stored cells of those rows |
| TextFormat.RowsTriplesOrdered | dsa/sparse_matrix/code/src/sparse_matrix.py:109-111 | listing rows in ascending order, each by ascending column, is strictly row-major |
| TextFormat.ConcatRowMajor | dsa/sparse_matrix/code/src/sparse_matrix.py:109-111 | a row-major listing of one row followed by a row-major listing of later rows is row-major |
| TextFormat.TriplesFacts | dsa/sparse_matrix/code/src/sparse_matrix.py:109-111 | the cells `__str__` lists are in strictly ascending row-major order and are exactly the stored cells with their values |
| TextFormat.BuildAt | dsa/sparse_matrix/code/src/sparse_matrix.py:19-28 | after setting the triples in turn, a cell reads the value of the last triple for it, or 0 if there is none |
| TextFormat.LastValueHit | dsa/sparse_matrix/code/src/sparse_matrix.py:19-28 | in a row-major listing the last triple for a listed cell is that triple |
| TextFormat.LastValueMiss | dsa/sparse_matrix/code/src/sparse_matrix.py:19-28 | a cell that no triple names reads 0 after setting them |
| TextFormat.BuildTriples | dsa/sparse_matrix/code/src/sparse_matrix.py:19-28 | setting the serialised cells of a sparse map in turn rebuilds exactly that map |
| TextFormat.BuildListed | dsa/sparse_matrix/code/src/sparse_matrix.py:19-28 | setting, in row-major order, exactly the stored cells of a sparse map rebuilds that map |
| TextFormat.RoundTrip | dsa/sparse_matrix/code/src/sparse_matrix.py:107-112 | the loader's parse of the lines `__str__` writes gives back the dimensions and the stored cells |
| TextFormat.ListingDecodes | dsa/sparse_matrix/code/src/sparse_matrix.py:16-28 | parsing any written listing gives its dimensions and its triples set in order |
| TextFormat.ListingParses | dsa/sparse_matrix/code/src/sparse_matrix.py:16-28 | each line of a written listing parses back: the headers to the dimensions, the cell lines to the triples |
| TextFormat.DecodeOf | dsa/sparse_matrix/code/src/sparse_matrix.py:16-30 | with both headers parsing and the cell lines collecting, the parse succeeds with those dimensions and cells |
| TextFormat.DecodeFailureOf | dsa/sparse_matrix/code/src/sparse_matrix.py:16-32 | with both headers parsing and a malformed cell line, the parse fails at that line |
| TextFormat.BuildSnoc | dsa/sparse_matrix/code/src/sparse_matrix.py:28 | setting one more cell is one more `set_element` |
| TextFormat.CollectSnoc | dsa/sparse_matrix/code/src/sparse_matrix.py:21-28 | one more line: a cell line adds its triple, a blank line adds nothing, a malformed line fails at its index |
| TextFormat.CollectFailureStays | dsa/sparse_matrix/code/src/sparse_matrix.py:21-28 | once a line fails, the parse fails there whatever lines follow |
| TextFormat.SerializeEmpty | dsa/sparse_matrix/code/src/sparse_matrix.py:107-112 | an empty matrix is written as its two header lines alone |
| TextFormat.ZeroedCellNotListed | dsa/sparse_matrix/code/src/sparse_matrix.py:37-43 | after a cell is set to 0 the serialised form no longer lists it |
| TextFormat.ListingHeaders | dsa/sparse_matrix/code/src/sparse_matrix.py:108 | the written lines start with `rows=<n>` and `cols=<m>` |
| TextFormat.ReadLinesSingle | dsa/sparse_matrix/code/src/sparse_matrix.py:14 | `readlines` of a non-empty text without a newline is that one line |
| TextFormat.ReadLinesFirst | dsa/sparse_matrix/code/src/sparse_matrix.py:14 | `readlines` cuts after the first newline and keeps it |
| TextFormat.ReadLinesJoin | dsa/sparse_matrix/code/src/sparse_matrix.py:112 | for lines without a newline, the last one non-empty, `readlines` of their newline join gives the same number of lines, each the original with or without a trailing newline |
| TextFormat.HeaderNewline | dsa/sparse_matrix/code/src/sparse_matrix.py:16-17 | a trailing newline does not change the parse of a header line |
| TextFormat.EntryNewline | dsa/sparse_matrix/code/src/sparse_matrix.py:22 | a trailing newline does not change the parse of a cell line |
| TextFormat.DecodeSameLines | dsa/sparse_matrix/code/src/sparse_matrix.py:16-27 | lines read with or without their newlines parse alike, headers and cell lines |
| TextFormat.TextRoundTrip | dsa/sparse_matrix/code/src/sparse_matrix.py:107-112 | writing the matrix with `__str__`, reading the text with `readlines` and parsing it gives back the dimensions and the stored cells |
| TextFormat.JoinedDecodes | dsa/sparse_matrix/code/src/sparse_matrix.py:112 | lines without newlines, the last one non-empty, parse after joining and reading back as they did before |

## Left out

- `main` (lines 114-151) is left out: argument handling, printing, exit codes and writing the output file are command-line plumbing.
- File I/O in `from_file` (lines 13-14) is left out: the lines already read are a parameter of `FromLines`. `ReadLines` models how `readlines` cuts a text only for the round trip of `ToText`.
- The `except` re-raise of `from_file` (lines 31-32) is replaced by a `Failure` result. The model covers these causes: a missing header line, a header that is not an integer, and a cell line whose inner text does not split into at least three integers. Each carries the index of the offending line, not the message wording. Causes outside that list are not modelled: a file that cannot be read, and the digit limit below.
- Error-message wording and `get_dimension_string` (lines 49-50, 54, 73, 92-93) are left out: a `DimensionMismatch` carries the operation and both shapes instead.
- Python's `int` is modelled only in part:
  - it accepts an optional `+` or `-` sign, then ASCII digits only;
  - whitespace is ASCII (codes 9-13 and 28-32), for `int` and for `str.strip` alike;
  - underscores in digits, non-ASCII digits and non-ASCII whitespace are not modelled;
  - the limit of 4300 digits that recent Python versions put on converting between strings and integers is not modelled. There, `int` of a longer field raises, so `from_file` fails where `Decode` succeeds. Writing a value of more than 4300 digits in `__str__` raises too, while `Serialize`, `ToText` and `TextRoundTrip` are stated for values of any size.
- Bounds are not checked, as in the source: any integer coordinates are accepted. The in-range facts (`SumWithin`, `DifferenceWithin`, `ProductWithin`, `ProductIsDense`) take the in-range condition as a precondition.
- Dictionary iteration order is not modelled: each loop picks any remaining key, which covers every order the dictionaries can produce.
- The loops of `add`, `subtract`, `multiply` and `from_file` are methods of their own (`StoreAll`, `AddAll`, `SubtractAll`, `AddProducts`, `AddRowProducts`, `AddScaledRow`, `StoreLines`, `StoreLine`), each with its own contract.
- That the operations leave `self` and `other` unchanged is not stated as an `ensures`. Dafny guarantees it instead: `Add`, `Subtract` and `Multiply` have no `modifies` clause, and every write goes to the fresh result.
- Aliasing between the operands, as in `m.add(m)`, needs no separate treatment, because the operands are only read.
- ToText: its contract states the round trip only. The header lines, the one line per stored cell and the row-major order are proved about `Serialize` (`ListingHeaders`, `TriplesFacts`, `EntryLineRoundTrip`, `SerializeEmpty`).
- Multiply: the textbook dense-sum form of each cell is stated only when the stored cells of this matrix lie inside its dimensions. The source never checks this, so without it only the sparse sum over the stored columns (`Product`) is stated.
- Product: associativity, (a * b) * c == a * (b * c), is not proved. The source does not promise it. `Product` already fixes every cell as its sum of products, so the law follows from that, but a proof needs exchanging the order of a double sum over sets of keys. That is a proof about integer sums, not about the matrix.
