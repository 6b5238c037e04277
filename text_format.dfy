/**
 * The matrix text format: a line `rows=<n>`, a line `cols=<m>`, then one
 * line `(<row>, <col>, <value>)` per stored cell in row-major order. The
 * serialiser and the line parser of the loader, over sequences of lines.
 */
module TextFormat {
  import opened Results
  import opened Entries

  datatype Triple = Triple(row: int, col: int, value: int)

  /** What a successful parse yields: the dimensions and the stored cells. */
  datatype Decoded = Decoded(rows: int, cols: int, data: Data)

  /** A parse failure, naming the 0-based index of the line that caused it. */
  datatype FormatError = InvalidFormat(line: nat)

  // --------------------------------------------------------- whitespace

  /** The ASCII whitespace characters that `str.strip` and `int` skip. */
  predicate IsSpace(c: char)
  {
    (9 <= c as int <= 13) || (28 <= c as int <= 32)
  }

  /** `str.lstrip()`: drops the leading whitespace. */
  function TrimStart(s: string): string
  {
    if s != [] && IsSpace(s[0]) then TrimStart(s[1..]) else s
  }

  /** `str.rstrip()`: drops the trailing whitespace. */
  function TrimEnd(s: string): string
  {
    if s != [] && IsSpace(s[|s| - 1]) then TrimEnd(s[..|s| - 1]) else s
  }

  /** What `TrimStart` keeps is a suffix that starts with a non-space, and
      everything it drops is whitespace. */
  lemma {:induction false} TrimStartFacts(s: string)
    ensures TrimStart(s) == [] || !IsSpace(TrimStart(s)[0])
    ensures forall k :: 0 <= k < |s| - |TrimStart(s)| ==> IsSpace(s[k])
    ensures |TrimStart(s)| <= |s| && TrimStart(s) == s[|s| - |TrimStart(s)|..]
  {
    if s != [] && IsSpace(s[0]) {
      TrimStartFacts(s[1..]);
    }
  }

  /** What `TrimEnd` keeps is a prefix that ends with a non-space, and
      everything it drops is whitespace. */
  lemma {:induction false} TrimEndFacts(s: string)
    ensures TrimEnd(s) == [] || !IsSpace(TrimEnd(s)[|TrimEnd(s)| - 1])
    ensures forall k :: |TrimEnd(s)| <= k < |s| ==> IsSpace(s[k])
    ensures |TrimEnd(s)| <= |s| && TrimEnd(s) == s[..|TrimEnd(s)|]
  {
    if s != [] && IsSpace(s[|s| - 1]) {
      TrimEndFacts(s[..|s| - 1]);
    }
  }

  /** `str.strip()`: drops the leading and trailing whitespace. */
  function Strip(s: string): string
  {
    TrimEnd(TrimStart(s))
  }

  // ------------------------------------------------------------ decimal

  predicate IsDigit(c: char)
  {
    '0' <= c <= '9'
  }

  predicate AllDigits(s: string)
  {
    forall k :: 0 <= k < |s| ==> IsDigit(s[k])
  }

  function DigitChar(d: int): (c: char)
    requires 0 <= d < 10
    ensures IsDigit(c) && c as int - '0' as int == d
  {
    ('0' as int + d) as char
  }

  /** The value of a string of decimal digits, most significant first. */
  function DigitsValue(s: string): nat
    requires AllDigits(s)
  {
    if s == [] then 0 else DigitsValue(s[..|s| - 1]) * 10 + (s[|s| - 1] as int - '0' as int)
  }

  /** The decimal digits of `n`, without leading zeros. */
  function NatToString(n: nat): (s: string)
    ensures s != [] && AllDigits(s)
  {
    if n < 10 then [DigitChar(n)] else NatToString(n / 10) + [DigitChar(n % 10)]
  }

  /** Python's `str` of an integer: its decimal digits, after a `-` when negative. */
  function IntToString(n: int): string
  {
    if n < 0 then "-" + NatToString(-n) else NatToString(n)
  }

  /** Python's `int` of a string: an optional sign and at least one decimal
      digit, with whitespace allowed around them; anything else fails. */
  function ParseInt(s: string): Option<int>
  {
    ParseNumber(Strip(s))
  }

  /** An optional sign followed by at least one decimal digit, and nothing else. */
  function ParseNumber(t: string): Option<int>
  {
    if t != [] && (t[0] == '-' || t[0] == '+') then
      var ds := t[1..];
      if ds != [] && AllDigits(ds) then
        var v: int := DigitsValue(ds);
        Some(if t[0] == '-' then -v else v)
      else
        None
    else if t != [] && AllDigits(t) then
      Some(DigitsValue(t))
    else
      None
  }

  // ---------------------------------------------------------- splitting

  /** `str.split(d)`: the pieces between the occurrences of `d`; there is
      always one more piece than there are occurrences. */
  function Split(s: string, d: char): (parts: seq<string>)
    ensures |parts| >= 1
  {
    if s == [] then [""]
    else
      var rest := Split(s[1..], d);
      if s[0] == d then [""] + rest else [[s[0]] + rest[0]] + rest[1..]
  }

  /** `s[n:]`: `s` without its first `n` characters, empty when it is shorter. */
  function Drop(s: string, n: nat): string
  {
    if |s| <= n then "" else s[n..]
  }

  /** `s[1:-1]`: `s` without its first and last characters. */
  function Inner(s: string): string
  {
    if |s| <= 2 then "" else s[1..|s| - 1]
  }

  // ------------------------------------------------------------ parsing

  /** `int` applied to every piece, failing if any piece fails. */
  function ParseAll(parts: seq<string>): (r: Option<seq<int>>)
    ensures r.Some? <==> forall p :: 0 <= p < |parts| ==> ParseInt(parts[p]).Some?
    ensures r.Some? ==> |r.value| == |parts| && forall p :: 0 <= p < |parts| ==> Some(r.value[p]) == ParseInt(parts[p])
  {
    if parts == [] then Some([])
    else
      match ParseInt(parts[0])
      case None => None
      case Some(x) =>
        match ParseAll(parts[1..])
        case None => None
        case Some(xs) => Some([x] + xs)
  }

  /** A header line: `int(line[5:])`. The first five characters are dropped
      whatever they are. */
  function ParseHeader(line: string): Option<int>
  {
    ParseInt(Drop(line, 5))
  }

  datatype LineParse = Blank | Entry(triple: Triple) | Malformed

  /** A cell line: blank after stripping, or its inner text split at commas
      into at least three integers, of which the first three are the row,
      the column and the value. The enclosing characters are dropped
      without being checked. */
  function ParseEntryLine(line: string): LineParse
  {
    var t := Strip(line);
    if t == [] then Blank
    else
      match ParseAll(Split(Inner(t), ','))
      case None => Malformed
      case Some(vs) => if |vs| < 3 then Malformed else Entry(Triple(vs[0], vs[1], vs[2]))
  }

  /** The cells of the parsed lines `rs`, the first of which is line `base`
      of the file; fails at the first malformed line. */
  function Collect(rs: seq<LineParse>, base: nat): Result<seq<Triple>, FormatError>
  {
    if rs == [] then Success([])
    else
      match Collect(rs[..|rs| - 1], base)
      case Failure(e) => Failure(e)
      case Success(ts) =>
        match rs[|rs| - 1]
        case Blank => Success(ts)
        case Malformed => Failure(InvalidFormat(base + |rs| - 1))
        case Entry(t) => Success(ts + [t])
  }

  /** The parse succeeds exactly when no line is malformed, and otherwise
      fails at the first malformed line. */
  lemma {:induction false} CollectFirstFailure(rs: seq<LineParse>, base: nat)
    ensures Collect(rs, base).Success? <==> forall p :: 0 <= p < |rs| ==> !rs[p].Malformed?
    ensures Collect(rs, base).Success? ==> |Collect(rs, base).value| <= |rs|
    ensures Collect(rs, base).Failure? ==>
              base <= Collect(rs, base).error.line < base + |rs| && rs[Collect(rs, base).error.line - base].Malformed?
    ensures Collect(rs, base).Failure? ==>
              forall p :: 0 <= p < Collect(rs, base).error.line - base ==> !rs[p].Malformed?
  {
    if rs != [] {
      var n := |rs|;
      CollectFirstFailure(rs[..n - 1], base);
      assert forall p :: 0 <= p < n - 1 ==> rs[..n - 1][p] == rs[p];
    }
  }

  /** Every line parsed on its own, in order. */
  function ParseLines(ls: seq<string>): (rs: seq<LineParse>)
    ensures |rs| == |ls| && forall p :: 0 <= p < |ls| ==> rs[p] == ParseEntryLine(ls[p])
  {
    seq(|ls|, p requires 0 <= p < |ls| => ParseEntryLine(ls[p]))
  }

  /** The stored cells after `set_element` was applied to each triple in turn,
      starting from an empty matrix. */
  function Build(ts: seq<Triple>): (m: Data)
    ensures Sparse(m)
  {
    if ts == [] then map[]
    else
      var t := ts[|ts| - 1];
      var m := Build(ts[..|ts| - 1]);
      Updated(m, t.row, t.col, t.value)
  }

  /** The loader's parse of the lines of a file: the two header lines, then
      the cell lines. */
  function Decode(lines: seq<string>): Result<Decoded, FormatError>
  {
    if |lines| == 0 then Failure(InvalidFormat(0))
    else
      match ParseHeader(lines[0])
      case None => Failure(InvalidFormat(0))
      case Some(rows) =>
        if |lines| == 1 then Failure(InvalidFormat(1))
        else
          match ParseHeader(lines[1])
          case None => Failure(InvalidFormat(1))
          case Some(cols) =>
            match Collect(ParseLines(lines[2..]), 2)
            case Failure(e) => Failure(e)
            case Success(ts) => Success(Decoded(rows, cols, Build(ts)))
  }

  // -------------------------------------------------------- serialising

  function RowTriples(i: int, row: map<int, int>, cs: seq<int>): seq<Triple>
    requires forall p :: 0 <= p < |cs| ==> cs[p] in row
  {
    if cs == [] then [] else [Triple(i, cs[0], row[cs[0]])] + RowTriples(i, row, cs[1..])
  }

  function RowsTriples(m: Data, rs: seq<int>): seq<Triple>
    requires forall p :: 0 <= p < |rs| ==> rs[p] in m
  {
    if rs == [] then []
    else RowTriples(rs[0], m[rs[0]], SortedKeys(m[rs[0]].Keys)) + RowsTriples(m, rs[1..])
  }

  /** The stored cells in ascending row order and, within a row, ascending column order. */
  function Triples(m: Data): seq<Triple>
  {
    RowsTriples(m, SortedKeys(m.Keys))
  }

  function EntryLine(t: Triple): string
  {
    "(" + IntToString(t.row) + ", " + IntToString(t.col) + ", " + IntToString(t.value) + ")"
  }

  /** The lines `__str__` joins: the two header lines, then one line per stored cell. */
  function Serialize(rows: int, cols: int, m: Data): seq<string>
  {
    Listing(rows, cols, Triples(m))
  }

  /** The header lines followed by one cell line per triple. */
  function Listing(rows: int, cols: int, ts: seq<Triple>): seq<string>
  {
    ["rows=" + IntToString(rows), "cols=" + IntToString(cols)] + CellLines(ts)
  }

  /** One cell line per triple, in order. */
  function CellLines(ts: seq<Triple>): (ls: seq<string>)
    ensures |ls| == |ts| && forall p :: 0 <= p < |ts| ==> ls[p] == EntryLine(ts[p])
  {
    seq(|ts|, p requires 0 <= p < |ts| => EntryLine(ts[p]))
  }

  // --------------------------------------------- decimal and line round trips

  /** `strip` keeps a contiguous part of the string, starting at `a`, that
      neither starts nor ends with whitespace, and drops only whitespace. */
  lemma StripFacts(s: string) returns (a: nat)
    ensures a + |Strip(s)| <= |s| && Strip(s) == s[a..a + |Strip(s)|]
    ensures Strip(s) == [] || (!IsSpace(Strip(s)[0]) && !IsSpace(Strip(s)[|Strip(s)| - 1]))
    ensures forall k :: 0 <= k < |s| && !(a <= k < a + |Strip(s)|) ==> IsSpace(s[k])
  {
    var t := TrimStart(s);
    TrimStartFacts(s);
    TrimEndFacts(t);
    a := |s| - |t|;
    var r := TrimEnd(t);
    assert r == t[..|r|];
    assert t == s[a..];
    if r != [] {
      TrimStartFacts(s);
      assert r[0] == t[0];
    }
    forall k | 0 <= k < |s| && !(a <= k < a + |r|)
      ensures IsSpace(s[k])
    {
      if k >= a {
        assert s[k] == t[k - a];
      }
    }
  }

  /** `int` of a string that is empty or all whitespace fails. */
  lemma ParseIntBlank(s: string)
    requires forall k :: 0 <= k < |s| ==> IsSpace(s[k])
    ensures ParseInt(s) == None
  {
    var a := StripFacts(s);
  }

  /** A header line of five characters or fewer has no number: `int('')` fails. */
  lemma HeaderTooShort(line: string)
    requires |line| <= 5
    ensures ParseHeader(line) == None
  {
    ParseIntBlank(Drop(line, 5));
  }

  /** `str` of an integer: a `-` exactly when it is negative, then decimal
      digits without a leading zero unless the number is 0. */
  lemma IntToStringShape(n: int)
    ensures IntToString(n) != [] && (IntToString(n)[0] == '-' <==> n < 0)
    ensures n < 0 ==> |IntToString(n)| >= 2 && AllDigits(IntToString(n)[1..])
    ensures n >= 0 ==> AllDigits(IntToString(n))
    ensures var ds := if n < 0 then IntToString(n)[1..] else IntToString(n); ds[0] != '0' || ds == "0"
  {
    var m: nat := if n < 0 then -n else n;
    NatLeadingDigit(m);
    if n < 0 {
      assert IntToString(n)[1..] == NatToString(m);
    }
  }

  lemma {:induction false} NatLeadingDigit(n: nat)
    ensures NatToString(n)[0] != '0' || n == 0
    ensures n == 0 ==> NatToString(n) == "0"
  {
    if n >= 10 {
      NatLeadingDigit(n / 10);
    }
  }

  lemma {:induction false} DigitsOfNat(n: nat)
    ensures DigitsValue(NatToString(n)) == n
  {
    if n >= 10 {
      var s := NatToString(n);
      assert s[..|s| - 1] == NatToString(n / 10);
      DigitsOfNat(n / 10);
    }
  }

  /** Leading whitespace is skipped and a string that ends in a non-space is kept whole. */
  lemma {:induction false} StripPadded(pre: string, x: string)
    requires forall k :: 0 <= k < |pre| ==> IsSpace(pre[k])
    requires x != [] && !IsSpace(x[0]) && !IsSpace(x[|x| - 1])
    ensures Strip(pre + x) == x
  {
    if pre != [] {
      assert (pre + x)[1..] == pre[1..] + x;
      StripPadded(pre[1..], x);
    } else {
      assert pre + x == x;
    }
  }

  /** `int` reads back what `str` wrote, after optional leading whitespace. */
  lemma {:induction false} ParseIntOfString(pre: string, n: int)
    requires forall k :: 0 <= k < |pre| ==> IsSpace(pre[k])
    ensures ParseInt(pre + IntToString(n)) == Some(n)
  {
    StripPadded(pre, IntToString(n));
    ParseNumberOfString(n);
  }

  lemma {:induction false} ParseNumberOfString(n: int)
    ensures ParseNumber(IntToString(n)) == Some(n)
  {
    var s := IntToString(n);
    if n < 0 {
      var ds := NatToString(-n);
      DigitsOfNat(-n);
      assert s[0] == '-' && s[1..] == ds;
    } else {
      DigitsOfNat(n);
      assert IsDigit(s[0]);
    }
  }

  lemma {:induction false} SplitWhole(x: string, d: char)
    requires forall k :: 0 <= k < |x| ==> x[k] != d
    ensures Split(x, d) == [x]
  {
    if x != [] {
      SplitWhole(x[1..], d);
      assert [x[0]] + x[1..] == x;
    }
  }

  lemma {:induction false} SplitFirst(x: string, d: char, y: string)
    requires forall k :: 0 <= k < |x| ==> x[k] != d
    ensures Split(x + [d] + y, d) == [x] + Split(y, d)
  {
    if x != [] {
      var s := x + [d] + y;
      assert s[0] == x[0] && s[1..] == x[1..] + [d] + y;
      SplitFirst(x[1..], d, y);
      assert [x[0]] + x[1..] == x;
    } else {
      assert x + [d] + y == [d] + y;
    }
  }

  predicate NoDelimiter(x: string, d: char)
  {
    forall k :: 0 <= k < |x| ==> x[k] != d
  }

  lemma NoComma(n: int)
    ensures NoDelimiter(IntToString(n), ',')
  {
  }

  /** The parse of a serialised cell line is that cell. */
  lemma {:induction false} EntryLineRoundTrip(t: Triple)
    ensures ParseEntryLine(EntryLine(t)) == Entry(t)
  {
    var a, b, c := IntToString(t.row), IntToString(t.col), IntToString(t.value);
    var inner := a + ", " + b + ", " + c;
    assert EntryLine(t) == "(" + inner + ")";
    EnclosedStrip(inner);
    EnclosedInner(inner);
    CellFields(t);
  }

  /** The three serialised numbers of a cell, split at commas, parse back. */
  lemma {:induction false} CellFields(t: Triple)
    ensures ParseAll(Split(IntToString(t.row) + ", " + IntToString(t.col) + ", " + IntToString(t.value), ','))
            == Some([t.row, t.col, t.value])
  {
    var a, b, c := IntToString(t.row), IntToString(t.col), IntToString(t.value);
    NoComma(t.row);
    NoComma(t.col);
    NoComma(t.value);
    FieldsOfCells(a, b, c);
    ParseIntOfString("", t.row);
    assert "" + a == a;
    ParseIntOfString(" ", t.col);
    ParseIntOfString(" ", t.value);
    ParseAllThree(a, " " + b, " " + c, t.row, t.col, t.value);
  }

  lemma {:induction false} ParseAllThree(x: string, y: string, z: string, a: int, b: int, c: int)
    requires ParseInt(x) == Some(a) && ParseInt(y) == Some(b) && ParseInt(z) == Some(c)
    ensures ParseAll([x, y, z]) == Some([a, b, c])
  {
    var parts, vs := [x, y, z], [a, b, c];
    assert forall p :: 0 <= p < 3 ==> ParseInt(parts[p]) == Some(vs[p]);
    ParseAllOf(parts, vs);
  }

  /** Pieces that each parse give all their values. */
  lemma {:induction false} ParseAllOf(parts: seq<string>, vs: seq<int>)
    requires |parts| == |vs| && forall p :: 0 <= p < |parts| ==> ParseInt(parts[p]) == Some(vs[p])
    ensures ParseAll(parts) == Some(vs)
  {
    if parts != [] {
      ParseAllOf(parts[1..], vs[1..]);
      assert [vs[0]] + vs[1..] == vs;
    }
  }

  /** A line that starts with `(` and ends with `)` is kept whole by `strip`. */
  lemma {:induction false} EnclosedStrip(inner: string)
    ensures Strip("(" + inner + ")") == "(" + inner + ")"
  {
    var line := "(" + inner + ")";
    assert line[0] == '(' && line[|line| - 1] == ')';
    StripPadded("", line);
    assert "" + line == line;
  }

  /** `line[1:-1]` of `(inner)` is `inner`. */
  lemma {:induction false} EnclosedInner(inner: string)
    ensures Inner("(" + inner + ")") == inner
  {
    var line := "(" + inner + ")";
    if |line| > 2 {
      assert line[1..|line| - 1] == inner;
    }
  }

  /** Splitting the inner text at commas separates the three fields. */
  lemma {:induction false} FieldsOfCells(a: string, b: string, c: string)
    requires NoDelimiter(a, ',') && NoDelimiter(b, ',') && NoDelimiter(c, ',')
    ensures Split(a + ", " + b + ", " + c, ',') == [a, " " + b, " " + c]
  {
    var b', c' := " " + b, " " + c;
    assert forall k :: 0 <= k < |b'| ==> b'[k] != ',' by {
      forall k | 0 <= k < |b'| ensures b'[k] != ',' {
        if k > 0 { assert b'[k] == b[k - 1]; }
      }
    }
    assert forall k :: 0 <= k < |c'| ==> c'[k] != ',' by {
      forall k | 0 <= k < |c'| ensures c'[k] != ',' {
        if k > 0 { assert c'[k] == c[k - 1]; }
      }
    }
    var tail := b' + [','] + c';
    assert a + ", " + b + ", " + c == a + [','] + tail;
    SplitFirst(a, ',', tail);
    SplitFirst(b', ',', c');
    SplitWhole(c', ',');
    assert Split(tail, ',') == [b', c'];
    var whole := a + ", " + b + ", " + c;
    calc {
      Split(whole, ',');
      Split(a + [','] + tail, ',');
      [a] + Split(tail, ',');
      [a] + [b', c'];
      [a, b', c'];
    }
  }

  /** The parse of a serialised header line is its number. */
  lemma {:induction false} HeaderRoundTrip(tag: string, n: int)
    requires |tag| == 5
    ensures ParseHeader(tag + IntToString(n)) == Some(n)
  {
    assert Drop(tag + IntToString(n), 5) == "" + IntToString(n);
    ParseIntOfString("", n);
  }

  /** Lines that each parse to a cell give those cells, in order. */
  lemma {:induction false} CollectAll(rs: seq<LineParse>, ts: seq<Triple>, base: nat)
    requires |rs| == |ts|
    requires forall p :: 0 <= p < |rs| ==> rs[p] == Entry(ts[p])
    ensures Collect(rs, base) == Success(ts)
  {
    if rs != [] {
      var n := |rs|;
      CollectAll(rs[..n - 1], ts[..n - 1], base);
      assert ts[..n - 1] + [ts[n - 1]] == ts;
    }
  }

  // ---------------------------------------------- row-major listing of cells

  predicate Before(t: Triple, u: Triple)
  {
    t.row < u.row || (t.row == u.row && t.col < u.col)
  }

  /** Strictly ascending by row, then by column. */
  ghost predicate RowMajor(ts: seq<Triple>)
  {
    forall p, q :: 0 <= p < q < |ts| ==> Before(ts[p], ts[q])
  }

  ghost predicate Ascending(xs: seq<int>)
  {
    forall p, q :: 0 <= p < q < |xs| ==> xs[p] < xs[q]
  }

  lemma {:induction false} RowTriplesAt(i: int, row: map<int, int>, cs: seq<int>)
    requires forall p :: 0 <= p < |cs| ==> cs[p] in row
    ensures |RowTriples(i, row, cs)| == |cs|
    ensures forall p :: 0 <= p < |cs| ==> RowTriples(i, row, cs)[p] == Triple(i, cs[p], row[cs[p]])
  {
    if cs != [] {
      RowTriplesAt(i, row, cs[1..]);
    }
  }

  /** The listing of one row holds exactly that row's stored cells. */
  lemma {:induction false} RowTriplesMembers(i: int, row: map<int, int>)
    ensures forall t :: t in RowTriples(i, row, SortedKeys(row.Keys)) <==>
              t.row == i && t.col in row && t.value == row[t.col]
  {
    RowTriplesListed(i, row, SortedKeys(row.Keys));
  }

  /** Listing a row along any sequence of exactly its keys. */
  lemma {:induction false} RowTriplesListed(i: int, row: map<int, int>, cs: seq<int>)
    requires forall p :: 0 <= p < |cs| ==> cs[p] in row
    requires forall x :: x in row ==> x in cs
    ensures forall t :: t in RowTriples(i, row, cs) <==> t.row == i && t.col in row && t.value == row[t.col]
  {
    var xs := RowTriples(i, row, cs);
    RowTriplesAt(i, row, cs);
    forall t: Triple
      ensures t in xs <==> t.row == i && t.col in row && t.value == row[t.col]
    {
      if t in xs {
        var p :| 0 <= p < |xs| && xs[p] == t;
        assert t == Triple(i, cs[p], row[cs[p]]);
      }
      if t.row == i && t.col in row && t.value == row[t.col] {
        assert t.col in cs;
        var p :| 0 <= p < |cs| && cs[p] == t.col;
        assert xs[p] == t;
      }
    }
  }

  /** The listing of rows `rs` holds exactly their stored cells. */
  lemma {:induction false} RowsTriplesMembers(m: Data, rs: seq<int>)
    requires forall p :: 0 <= p < |rs| ==> rs[p] in m
    ensures forall t :: t in RowsTriples(m, rs) <==>
              t.row in rs && t.col in m[t.row] && t.value == m[t.row][t.col]
  {
    if rs != [] {
      var r := rs[0];
      RowTriplesMembers(r, m[r]);
      RowsTriplesMembers(m, rs[1..]);
      assert rs == [r] + rs[1..];
      assert RowsTriples(m, rs) == RowTriples(r, m[r], SortedKeys(m[r].Keys)) + RowsTriples(m, rs[1..]);
    }
  }

  /** The listing of ascending rows `rs` is row-major. */
  lemma {:induction false} RowsTriplesOrdered(m: Data, rs: seq<int>)
    requires forall p :: 0 <= p < |rs| ==> rs[p] in m
    requires Ascending(rs)
    ensures RowMajor(RowsTriples(m, rs))
  {
    if rs != [] {
      var r := rs[0];
      var cs := SortedKeys(m[r].Keys);
      var xs := RowTriples(r, m[r], cs);
      var ys := RowsTriples(m, rs[1..]);
      RowTriplesAt(r, m[r], cs);
      RowsTriplesOrdered(m, rs[1..]);
      RowsTriplesMembers(m, rs[1..]);
      forall q | 0 <= q < |ys|
        ensures r < ys[q].row
      {
        assert ys[q] in ys;
        var k :| 0 <= k < |rs[1..]| && rs[1..][k] == ys[q].row;
        assert rs[0] < rs[k + 1];
      }
      ConcatRowMajor(xs, ys, r);
    }
  }

  lemma ConcatRowMajor(xs: seq<Triple>, ys: seq<Triple>, r: int)
    requires RowMajor(xs) && RowMajor(ys)
    requires forall p :: 0 <= p < |xs| ==> xs[p].row == r
    requires forall q :: 0 <= q < |ys| ==> r < ys[q].row
    ensures RowMajor(xs + ys)
  {
    forall p, q | 0 <= p < q < |xs + ys|
      ensures Before((xs + ys)[p], (xs + ys)[q])
    {
      if q < |xs| {
        assert (xs + ys)[p] == xs[p] && (xs + ys)[q] == xs[q];
      } else if p < |xs| {
        assert (xs + ys)[p] == xs[p] && (xs + ys)[q] == ys[q - |xs|];
      } else {
        assert (xs + ys)[p] == ys[p - |xs|] && (xs + ys)[q] == ys[q - |xs|];
      }
    }
  }

  /** The serialised cells: row-major, each stored cell exactly once, nothing else. */
  lemma {:induction false} TriplesFacts(m: Data)
    ensures RowMajor(Triples(m))
    ensures forall t :: t in Triples(m) <==> t.row in m && t.col in m[t.row] && t.value == m[t.row][t.col]
  {
    RowsTriplesMembers(m, SortedKeys(m.Keys));
    RowsTriplesOrdered(m, SortedKeys(m.Keys));
  }

  // --------------------------------------------- rebuilding from the cells

  /** The value the last triple for cell (i, j) writes, or 0 if none does. */
  function LastValue(ts: seq<Triple>, i: int, j: int): int
  {
    if ts == [] then 0
    else if ts[|ts| - 1].row == i && ts[|ts| - 1].col == j then ts[|ts| - 1].value
    else LastValue(ts[..|ts| - 1], i, j)
  }

  lemma {:induction false} BuildAt(ts: seq<Triple>, i: int, j: int)
    ensures At(Build(ts), i, j) == LastValue(ts, i, j)
  {
    if ts != [] {
      BuildAt(ts[..|ts| - 1], i, j);
    }
  }

  lemma {:induction false} LastValueHit(ts: seq<Triple>, p: int)
    requires RowMajor(ts) && 0 <= p < |ts|
    ensures LastValue(ts, ts[p].row, ts[p].col) == ts[p].value
  {
    var n := |ts|;
    if p < n - 1 {
      assert Before(ts[p], ts[n - 1]);
      LastValueHit(ts[..n - 1], p);
    }
  }

  lemma {:induction false} LastValueMiss(ts: seq<Triple>, i: int, j: int)
    requires forall p :: 0 <= p < |ts| ==> !(ts[p].row == i && ts[p].col == j)
    ensures LastValue(ts, i, j) == 0
  {
    if ts != [] {
      LastValueMiss(ts[..|ts| - 1], i, j);
    }
  }

  /** Setting the listed cells one after another rebuilds a sparse map. */
  lemma {:induction false} BuildTriples(m: Data)
    requires Sparse(m)
    ensures Build(Triples(m)) == m
  {
    TriplesFacts(m);
    BuildListed(m, Triples(m));
  }

  /** Setting, in row-major order, exactly the stored cells of a sparse map
      rebuilds that map. */
  lemma {:induction false} BuildListed(m: Data, ts: seq<Triple>)
    requires Sparse(m) && RowMajor(ts)
    requires forall t :: t in ts <==> t.row in m && t.col in m[t.row] && t.value == m[t.row][t.col]
    ensures Build(ts) == m
  {
    forall i, j
      ensures At(Build(ts), i, j) == At(m, i, j)
    {
      BuildAt(ts, i, j);
      if i in m && j in m[i] {
        var t := Triple(i, j, m[i][j]);
        assert t in ts;
        var p :| 0 <= p < |ts| && ts[p] == t;
        LastValueHit(ts, p);
      } else {
        forall p | 0 <= p < |ts|
          ensures !(ts[p].row == i && ts[p].col == j)
        {
          assert ts[p] in ts;
        }
        LastValueMiss(ts, i, j);
      }
    }
    SparseExtensional(Build(ts), m);
  }

  /** Parsing what `__str__` writes gives back the dimensions and the cells. */
  lemma {:induction false} RoundTrip(rows: int, cols: int, m: Data)
    requires Sparse(m)
    ensures Decode(Serialize(rows, cols, m)) == Success(Decoded(rows, cols, m))
  {
    ListingDecodes(rows, cols, Triples(m));
    BuildTriples(m);
  }

  /** Decoding a listing gives the dimensions and the triples set in order. */
  lemma {:induction false} ListingDecodes(rows: int, cols: int, ts: seq<Triple>)
    ensures Decode(Listing(rows, cols, ts)) == Success(Decoded(rows, cols, Build(ts)))
  {
    ListingParses(rows, cols, ts);
    DecodeOf(Listing(rows, cols, ts), rows, cols, ts);
  }

  /** Each line of a listing parses back: the headers to the dimensions, the
      cell lines to the triples. */
  lemma {:induction false} ListingParses(rows: int, cols: int, ts: seq<Triple>)
    ensures ParseHeader(Listing(rows, cols, ts)[0]) == Some(rows)
    ensures ParseHeader(Listing(rows, cols, ts)[1]) == Some(cols)
    ensures Collect(ParseLines(Listing(rows, cols, ts)[2..]), 2) == Success(ts)
  {
    var ls := Listing(rows, cols, ts);
    HeaderRoundTrip("rows=", rows);
    HeaderRoundTrip("cols=", cols);
    var rs := ParseLines(ls[2..]);
    assert ls[2..] == CellLines(ts);
    forall p | 0 <= p < |ts|
      ensures rs[p] == Entry(ts[p])
    {
      EntryLineRoundTrip(ts[p]);
    }
    CollectAll(rs, ts, 2);
  }

  lemma {:induction false} DecodeOf(lines: seq<string>, rows: int, cols: int, ts: seq<Triple>)
    requires |lines| >= 2 && ParseHeader(lines[0]) == Some(rows) && ParseHeader(lines[1]) == Some(cols)
    requires Collect(ParseLines(lines[2..]), 2) == Success(ts)
    ensures Decode(lines) == Success(Decoded(rows, cols, Build(ts)))
  {
  }

  lemma {:induction false} DecodeFailureOf(lines: seq<string>, rows: int, cols: int, e: FormatError)
    requires |lines| >= 2 && ParseHeader(lines[0]) == Some(rows) && ParseHeader(lines[1]) == Some(cols)
    requires Collect(ParseLines(lines[2..]), 2) == Failure(e)
    ensures Decode(lines) == Failure(e)
  {
  }

  /** Setting one more cell after `ts` is one more `Updated`. */
  lemma {:induction false} BuildSnoc(ts: seq<Triple>, t: Triple)
    ensures Build(ts + [t]) == Updated(Build(ts), t.row, t.col, t.value)
  {
    assert (ts + [t])[..|ts|] == ts;
  }

  /** One more parsed line after `rs`: the collected cells grow by its cell,
      stay as they are for a blank line, and a malformed line fails there. */
  lemma {:induction false} CollectSnoc(rs: seq<LineParse>, r: LineParse, base: nat, ts: seq<Triple>)
    requires Collect(rs, base) == Success(ts)
    ensures Collect(rs + [r], base) == match r
      case Blank => Success(ts)
      case Entry(t) => Success(ts + [t])
      case Malformed => Failure(InvalidFormat(base + |rs|))
  {
    assert (rs + [r])[..|rs + [r]| - 1] == rs;
  }

  /** The loader's step at line `k` of the cell lines: a malformed line
      fails the whole parse there, a blank line adds nothing, and a cell
      line adds its triple, which sets one more cell. */
  lemma {:induction false} LoadStep(rs: seq<LineParse>, k: nat, base: nat, ts: seq<Triple>) returns (ts': seq<Triple>)
    requires k < |rs| && Collect(rs[..k], base) == Success(ts)
    ensures rs[k].Malformed? ==> Collect(rs, base) == Failure(InvalidFormat(base + k))
    ensures !rs[k].Malformed? ==> Collect(rs[..k + 1], base) == Success(ts')
    ensures rs[k].Entry? ==> Build(ts') == Updated(Build(ts), rs[k].triple.row, rs[k].triple.col, rs[k].triple.value)
    ensures !rs[k].Entry? ==> ts' == ts
  {
    PrefixSnoc(rs, k);
    CollectSnoc(rs[..k], rs[k], base, ts);
    if rs[k].Malformed? {
      CollectFailureStays(rs, k + 1, base);
      ts' := ts;
    } else if rs[k].Entry? {
      BuildSnoc(ts, rs[k].triple);
      ts' := ts + [rs[k].triple];
    } else {
      ts' := ts;
    }
  }

  lemma PrefixSnoc(rs: seq<LineParse>, k: nat)
    requires k < |rs|
    ensures rs[..k + 1] == rs[..k] + [rs[k]]
  {
  }

  /** A failure stays a failure, at the same line, whatever lines follow. */
  lemma {:induction false} CollectFailureStays(rs: seq<LineParse>, n: nat, base: nat)
    requires n <= |rs| && Collect(rs[..n], base).Failure?
    ensures Collect(rs, base) == Collect(rs[..n], base)
    decreases |rs| - n
  {
    if n < |rs| {
      assert rs[..n + 1][..n] == rs[..n];
      CollectFailureStays(rs, n + 1, base);
    } else {
      assert rs[..n] == rs;
    }
  }

  /** An empty matrix is written as its two header lines alone. */
  lemma {:induction false} SerializeEmpty(rows: int, cols: int)
    ensures Serialize(rows, cols, map[]) == ["rows=" + IntToString(rows), "cols=" + IntToString(cols)]
  {
    var e: Data := map[];
    assert |SortedKeys(e.Keys)| == 0;
    assert CellLines(Triples(e)) == [];
  }

  /** After a cell is set to 0 the serialised form no longer lists it. */
  lemma {:induction false} ZeroedCellNotListed(m: Data, i: int, j: int)
    requires Sparse(m)
    ensures forall t :: t in Triples(Updated(m, i, j, 0)) ==> !(t.row == i && t.col == j)
  {
    TriplesFacts(Updated(m, i, j, 0));
  }

  // ------------------------------------------------- joining and reading lines

  /** `'\n'.join(ls)`. */
  function Join(ls: seq<string>): string
  {
    if |ls| == 0 then "" else if |ls| == 1 then ls[0] else ls[0] + "\n" + Join(ls[1..])
  }

  /** `file.readlines()`: the text cut after every newline, each piece keeping
      its newline; a last piece without one is kept, an empty text has no lines.
      Only `'\n'` ends a line here, whereas a file opened in text mode also
      ends lines at `'\r'`; the text `__str__` writes holds no `'\r'`, so for
      that text the two agree. */
  function ReadLines(s: string): seq<string>
  {
    if s == [] then []
    else
      var rest := ReadLines(s[1..]);
      if s[0] == '\n' || rest == [] then [[s[0]]] + rest
      else [[s[0]] + rest[0]] + rest[1..]
  }

  lemma {:induction false} ReadLinesSingle(x: string)
    requires x != [] && NoDelimiter(x, '\n')
    ensures ReadLines(x) == [x]
  {
    assert x[0] != '\n';
    if |x| > 1 {
      ReadLinesSingle(x[1..]);
      assert [x[0]] + x[1..] == x;
    } else {
      assert x[1..] == [] && [x[0]] == x;
      assert [[x[0]]] + [] == [x];
    }
  }

  lemma {:induction false} ReadLinesFirst(x: string, y: string)
    requires NoDelimiter(x, '\n')
    ensures ReadLines(x + "\n" + y) == [x + "\n"] + ReadLines(y)
  {
    var s := x + "\n" + y;
    if x == [] {
      assert s == "\n" + y && s[1..] == y;
    } else {
      assert s[0] == x[0] && s[1..] == x[1..] + "\n" + y;
      ReadLinesFirst(x[1..], y);
      assert [x[0]] + (x[1..] + "\n") == x + "\n";
    }
  }

  /** `b` is `a`, or `a` followed by one newline. */
  predicate SameLine(a: string, b: string)
  {
    b == a || b == a + "\n"
  }

  /** Reading back joined lines gives the same lines, each but the last with
      its newline still attached. */
  lemma {:induction false} ReadLinesJoin(ls: seq<string>)
    requires |ls| >= 1 && ls[|ls| - 1] != []
    requires forall p :: 0 <= p < |ls| ==> NoDelimiter(ls[p], '\n')
    ensures |ReadLines(Join(ls))| == |ls|
    ensures forall p :: 0 <= p < |ls| ==> SameLine(ls[p], ReadLines(Join(ls))[p])
  {
    if |ls| == 1 {
      ReadLinesSingle(ls[0]);
    } else {
      ReadLinesJoin(ls[1..]);
      ReadLinesFirst(ls[0], Join(ls[1..]));
      var rs := ReadLines(Join(ls));
      assert rs == [ls[0] + "\n"] + ReadLines(Join(ls[1..]));
      forall p | 0 < p < |ls|
        ensures SameLine(ls[p], rs[p])
      {
        assert ls[p] == ls[1..][p - 1];
      }
    }
  }

  lemma {:induction false} TrimStartSpace(x: string, c: char)
    requires IsSpace(c)
    ensures TrimStart(x + [c]) == if TrimStart(x) == [] then [] else TrimStart(x) + [c]
  {
    if x != [] {
      assert (x + [c])[1..] == x[1..] + [c];
      if IsSpace(x[0]) {
        TrimStartSpace(x[1..], c);
      }
    } else {
      assert x + [c] == [c] && [c][1..] == [];
    }
  }

  /** A trailing whitespace character does not change what `strip` keeps. */
  lemma StripSpace(x: string, c: char)
    requires IsSpace(c)
    ensures Strip(x + [c]) == Strip(x)
  {
    TrimStartSpace(x, c);
    var y := TrimStart(x);
    if y != [] {
      assert (y + [c])[..|y + [c]| - 1] == y;
    }
  }

  /** A trailing newline does not change a header's parse; a line too short
      to hold a number fails either way. */
  lemma HeaderNewline(a: string)
    ensures ParseHeader(a + "\n") == ParseHeader(a)
  {
    if |a| >= 5 {
      assert Drop(a + "\n", 5) == Drop(a, 5) + "\n";
      StripSpace(Drop(a, 5), '\n');
    } else {
      HeaderTooShort(a);
      HeaderTooShort(a + "\n");
    }
  }

  lemma EntryNewline(a: string)
    ensures ParseEntryLine(a + "\n") == ParseEntryLine(a)
  {
    StripSpace(a, '\n');
  }

  lemma {:induction false} SameParsedLines(a: seq<string>, b: seq<string>)
    requires |a| == |b| && forall p :: 0 <= p < |a| ==> SameLine(a[p], b[p])
    ensures ParseLines(b) == ParseLines(a)
  {
    forall p | 0 <= p < |a|
      ensures ParseEntryLine(b[p]) == ParseEntryLine(a[p])
    {
      if b[p] != a[p] { EntryNewline(a[p]); }
    }
  }

  /** The loader reads lines with or without their newlines alike. */
  lemma {:induction false} DecodeSameLines(a: seq<string>, b: seq<string>)
    requires |a| == |b| && forall p :: 0 <= p < |a| ==> SameLine(a[p], b[p])
    ensures |a| >= 1 ==> ParseHeader(b[0]) == ParseHeader(a[0])
    ensures |a| >= 2 ==> ParseHeader(b[1]) == ParseHeader(a[1]) && ParseLines(b[2..]) == ParseLines(a[2..])
  {
    if |a| >= 1 {
      HeaderSame(a[0], b[0]);
    }
    if |a| >= 2 {
      HeaderSame(a[1], b[1]);
      var a', b' := a[2..], b[2..];
      forall p | 0 <= p < |a'|
        ensures SameLine(a'[p], b'[p])
      {
        assert a'[p] == a[p + 2] && b'[p] == b[p + 2];
      }
      SameParsedLines(a', b');
    }
  }

  lemma HeaderSame(a: string, b: string)
    requires SameLine(a, b)
    ensures ParseHeader(b) == ParseHeader(a)
  {
    if b != a {
      HeaderNewline(a);
    }
  }

  lemma NoNewline(n: int)
    ensures NoDelimiter(IntToString(n), '\n')
  {
  }

  lemma {:induction false} NoNewlineConcat(x: string, y: string)
    requires NoDelimiter(x, '\n') && NoDelimiter(y, '\n')
    ensures NoDelimiter(x + y, '\n')
  {
    forall k | 0 <= k < |x + y|
      ensures (x + y)[k] != '\n'
    {
      if k < |x| { assert (x + y)[k] == x[k]; } else { assert (x + y)[k] == y[k - |x|]; }
    }
  }

  lemma {:induction false} EntryLineClean(t: Triple)
    ensures NoDelimiter(EntryLine(t), '\n') && EntryLine(t) != []
  {
    var a, b, c := IntToString(t.row), IntToString(t.col), IntToString(t.value);
    NoNewline(t.row);
    NoNewline(t.col);
    NoNewline(t.value);
    NoNewlineConcat("(", a);
    NoNewlineConcat("(" + a, ", ");
    NoNewlineConcat("(" + a + ", ", b);
    NoNewlineConcat("(" + a + ", " + b, ", ");
    NoNewlineConcat("(" + a + ", " + b + ", ", c);
    NoNewlineConcat("(" + a + ", " + b + ", " + c, ")");
  }

  lemma {:induction false} HeaderClean(tag: string, n: int)
    requires |tag| == 5 && NoDelimiter(tag, '\n')
    ensures NoDelimiter(tag + IntToString(n), '\n') && |tag + IntToString(n)| >= 6
  {
    NoNewline(n);
    NoNewlineConcat(tag, IntToString(n));
  }

  /** A listing starts with its two header lines. */
  lemma {:induction false} ListingHeaders(rows: int, cols: int, ts: seq<Triple>)
    ensures |Listing(rows, cols, ts)| >= 2
    ensures Listing(rows, cols, ts)[0] == "rows=" + IntToString(rows)
    ensures Listing(rows, cols, ts)[1] == "cols=" + IntToString(cols)
  {
  }

  /** The lines of a listing carry no newline and none is empty. */
  lemma {:induction false} ListingClean(rows: int, cols: int, ts: seq<Triple>)
    ensures forall p :: 0 <= p < |Listing(rows, cols, ts)| ==>
              NoDelimiter(Listing(rows, cols, ts)[p], '\n') && Listing(rows, cols, ts)[p] != []
  {
    HeaderClean("rows=", rows);
    HeaderClean("cols=", cols);
    CellLinesClean(ts);
  }

  lemma {:induction false} CellLinesClean(ts: seq<Triple>)
    ensures forall p :: 0 <= p < |ts| ==> NoDelimiter(CellLines(ts)[p], '\n') && CellLines(ts)[p] != []
  {
    forall p | 0 <= p < |ts|
      ensures NoDelimiter(CellLines(ts)[p], '\n') && CellLines(ts)[p] != []
    {
      EntryLineClean(ts[p]);
    }
  }

  /** Loading the text `__str__` writes, split as `readlines` splits it, gives
      back the dimensions and the cells. */
  lemma {:induction false} TextRoundTrip(rows: int, cols: int, m: Data)
    requires Sparse(m)
    ensures Decode(ReadLines(Join(Serialize(rows, cols, m)))) == Success(Decoded(rows, cols, m))
  {
    ListingTextDecodes(rows, cols, Triples(m));
    BuildTriples(m);
  }

  lemma {:induction false} ListingTextDecodes(rows: int, cols: int, ts: seq<Triple>)
    ensures Decode(ReadLines(Join(Listing(rows, cols, ts)))) == Success(Decoded(rows, cols, Build(ts)))
  {
    var ls := Listing(rows, cols, ts);
    ListingHeaders(rows, cols, ts);
    ListingClean(rows, cols, ts);
    ListingParses(rows, cols, ts);
    JoinedDecodes(ls, rows, cols, ts);
  }

  /** Lines without newlines, the last one non-empty, decode after joining
      and reading back as they did before. */
  lemma {:induction false} JoinedDecodes(ls: seq<string>, rows: int, cols: int, ts: seq<Triple>)
    requires |ls| >= 2 && ls[|ls| - 1] != []
    requires forall p :: 0 <= p < |ls| ==> NoDelimiter(ls[p], '\n')
    requires ParseHeader(ls[0]) == Some(rows) && ParseHeader(ls[1]) == Some(cols)
    requires Collect(ParseLines(ls[2..]), 2) == Success(ts)
    ensures Decode(ReadLines(Join(ls))) == Success(Decoded(rows, cols, Build(ts)))
  {
    ReadLinesJoin(ls);
    var b := ReadLines(Join(ls));
    DecodeSameLines(ls, b);
    DecodeOf(b, rows, cols, ts);
  }

}
