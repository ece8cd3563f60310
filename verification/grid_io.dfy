/**
 * The grid text format (projet-ringbuffer/src/io.c).
 *
 * A file is a header line `"w h"` followed by `h` lines of `w` cells, `'O'`
 * for alive and `'.'` for dead. Spaces, tabs and carriage returns are
 * tolerated between cells and at the end of a line. The file is modelled as
 * the sequence of characters it holds; `Parse` is the accepted language,
 * `Load` the character-at-a-time loader, `Format` and `Save` the writer.
 */
module GridIO {
  import opened Wrappers
  import opened Grids

  /** The range of the C `int` into which `%d` converts. */
  const INT_MAX: int := 2147483647
  const INT_MIN: int := -2147483648

  /** `fgets(header, 256, f)` keeps at most 255 characters before the terminator. */
  const HEADER_MAX: nat := 255

  /** Why a load fails; each case is one of the loader's error messages. */
  datatype LoadError =
    | InvalidArguments   // no destination grid
    | EmptyFile          // the header line could not be read
    | BadHeader          // not two integers, or one of them not positive
    | PrematureEof       // the file ends before a row has `w` cells
    | LineTooShort       // a newline before a row has `w` cells
    | InvalidChar        // a character other than '.', 'O', blanks or '\r' among the cells
    | TrailingChars      // something other than blanks or '\r' after the `w` cells of a row

  // ------------------------------------------------------------------
  // The header line
  // ------------------------------------------------------------------

  /**
   * Where `fgets` stops when it reads the header from `i` on: after the first
   * newline, at the end of the file, or after 255 characters, whichever
   * comes first.
   */
  function LineFrom(t: seq<char>, i: nat): (e: nat)
    requires i <= |t| && i <= HEADER_MAX
    ensures i <= e <= |t| && e <= HEADER_MAX
    ensures forall k :: i <= k < e - 1 ==> t[k] != '\n'
    ensures e == |t| || e == HEADER_MAX || (i < e && t[e - 1] == '\n')
    decreases HEADER_MAX - i
  {
    if i == |t| || i == HEADER_MAX then i
    else if t[i] == '\n' then i + 1
    else LineFrom(t, i + 1)
  }

  /** The number of characters of `t` that the header read consumes. */
  function HeaderLen(t: seq<char>): nat {
    LineFrom(t, 0)
  }

  /** `isspace` in the C locale. */
  predicate IsSpace(c: char) {
    c == ' ' || c == '\t' || c == '\n' || c == '\U{B}' || c == '\U{C}' || c == '\r'
  }

  predicate IsDigit(c: char) {
    '0' <= c <= '9'
  }

  predicate AllDigits(ds: seq<char>) {
    forall k :: 0 <= k < |ds| ==> IsDigit(ds[k])
  }

  /** The first position at or after `i` that is not white space. */
  function SkipSpace(t: seq<char>, i: nat): (j: nat)
    requires i <= |t|
    ensures i <= j <= |t|
    ensures forall k :: i <= k < j ==> IsSpace(t[k])
    ensures j < |t| ==> !IsSpace(t[j])
    decreases |t| - i
  {
    if i < |t| && IsSpace(t[i]) then SkipSpace(t, i + 1) else i
  }

  /** The end of the run of digits that starts at `i`. */
  function DigitsEnd(t: seq<char>, i: nat): (j: nat)
    requires i <= |t|
    ensures i <= j <= |t|
    ensures AllDigits(t[i..j])
    ensures j < |t| ==> !IsDigit(t[j])
    decreases |t| - i
  {
    if i < |t| && IsDigit(t[i]) then DigitsEnd(t, i + 1) else i
  }

  /** The value of a string of decimal digits, most significant first. */
  function Val(ds: seq<char>): nat
    requires AllDigits(ds)
  {
    if ds == [] then 0
    else Val(ds[..|ds| - 1]) * 10 + ((ds[|ds| - 1] as int) - ('0' as int))
  }

  /**
   * One `%d` conversion from position `i`: white space, an optional sign,
   * then at least one digit. Yields the value and the position after it.
   * A value outside the `int` range is treated as no conversion.
   */
  function ScanInt(t: seq<char>, i: nat): (r: Option<(int, nat)>)
    requires i <= |t|
    ensures r.Some? ==> INT_MIN <= r.value.0 <= INT_MAX && i < r.value.1 <= |t|
  {
    var j := SkipSpace(t, i);
    var k := if j < |t| && (t[j] == '-' || t[j] == '+') then j + 1 else j;
    var e := DigitsEnd(t, k);
    if e == k then None
    else
      var v: int := if k == j + 1 && t[j] == '-' then -(Val(t[k..e]) as int) else Val(t[k..e]);
      if v < INT_MIN || v > INT_MAX then None else Some((v, e))
  }

  /** `sscanf(header, "%d %d", &w, &h) == 2`: two conversions in a row. */
  function ScanHeader(hd: seq<char>): (r: Option<(int, int)>)
    ensures r.Some? ==> INT_MIN <= r.value.0 <= INT_MAX && INT_MIN <= r.value.1 <= INT_MAX
  {
    match ScanInt(hd, 0)
    case None => None
    case Some((w, i)) =>
      match ScanInt(hd, i)
      case None => None
      case Some((h, _)) => Some((w, h))
  }

  // ------------------------------------------------------------------
  // The cells
  // ------------------------------------------------------------------

  /**
   * The cell scanner from position `i` while row `y` has `x` of its `w`
   * cells, `acc` holding every cell read so far in row-major order. Rows
   * beyond `h` are never read.
   */
  function Cells(t: seq<char>, i: nat, w: int, h: int, y: int, x: int, acc: seq<bool>): Result<seq<bool>, LoadError>
    requires i <= |t| && 0 <= y <= h && 0 <= x <= w
    decreases |t| - i, h - y, 1
  {
    if y == h then Success(acc)
    else if x == w then LineEnd(t, i, w, h, y, acc)
    else if i == |t| then Failure(PrematureEof)
    else
      var c := t[i];
      if c == '\r' then Cells(t, i + 1, w, h, y, x, acc)
      else if c == '\n' then Failure(LineTooShort)
      else if c == '.' || c == 'O' then Cells(t, i + 1, w, h, y, x + 1, acc + [c == 'O'])
      else if c == ' ' || c == '\t' then Cells(t, i + 1, w, h, y, x, acc)
      else Failure(InvalidChar)
  }

  /** The rest of row `y` after its `w` cells: blanks and `'\r'` up to the newline or the end of the file. */
  function LineEnd(t: seq<char>, i: nat, w: int, h: int, y: int, acc: seq<bool>): Result<seq<bool>, LoadError>
    requires i <= |t| && 0 <= y < h && 0 <= w
    decreases |t| - i, h - y, 0
  {
    if i == |t| then Cells(t, i, w, h, y + 1, 0, acc)
    else
      var c := t[i];
      if c == '\n' then Cells(t, i + 1, w, h, y + 1, 0, acc)
      else if c == '\r' || c == ' ' || c == '\t' then LineEnd(t, i + 1, w, h, y, acc)
      else Failure(TrailingChars)
  }

  /** A successful scan ends with exactly `w * h` cells. */
  lemma {:induction false} CellsLength(t: seq<char>, i: nat, w: int, h: int, y: int, x: int, acc: seq<bool>)
    requires i <= |t| && 0 <= y <= h && 0 <= x <= w
    requires |acc| == y * w + x && (y == h ==> x == 0)
    ensures Cells(t, i, w, h, y, x, acc).Success? ==> |Cells(t, i, w, h, y, x, acc).value| == w * h
    decreases |t| - i, h - y, 1
  {
    if y == h {
    } else if x == w {
      assert |acc| == (y + 1) * w;
      LineEndLength(t, i, w, h, y, acc);
    } else if i == |t| {
    } else {
      var c := t[i];
      if c == '\r' || c == ' ' || c == '\t' {
        CellsLength(t, i + 1, w, h, y, x, acc);
      } else if c == '.' || c == 'O' {
        CellsLength(t, i + 1, w, h, y, x + 1, acc + [c == 'O']);
      }
    }
  }

  lemma {:induction false} LineEndLength(t: seq<char>, i: nat, w: int, h: int, y: int, acc: seq<bool>)
    requires i <= |t| && 0 <= y < h && 0 <= w
    requires |acc| == (y + 1) * w
    ensures LineEnd(t, i, w, h, y, acc).Success? ==> |LineEnd(t, i, w, h, y, acc).value| == w * h
    decreases |t| - i, h - y, 0
  {
    if i == |t| {
      CellsLength(t, i, w, h, y + 1, 0, acc);
    } else if t[i] == '\n' {
      CellsLength(t, i + 1, w, h, y + 1, 0, acc);
    } else if t[i] == '\r' || t[i] == ' ' || t[i] == '\t' {
      LineEndLength(t, i + 1, w, h, y, acc);
    }
  }

  /**
   * The grid a file describes, or why `grid_load_from_file` rejects it.
   * Whatever follows the last row is not looked at.
   */
  function Parse(t: seq<char>): (r: Result<Snap, LoadError>)
    ensures r.Success? ==> WellFormed(r.value) && r.value.w <= INT_MAX && r.value.h <= INT_MAX
  {
    if |t| == 0 then Failure(EmptyFile)
    else
      var e := HeaderLen(t);
      match ScanHeader(t[..e])
      case None => Failure(BadHeader)
      case Some((w, h)) =>
        if w <= 0 || h <= 0 then Failure(BadHeader)
        else
          CellsLength(t, e, w, h, 0, 0, []);
          match Cells(t, e, w, h, 0, 0, [])
          case Failure(err) => Failure(err)
          case Success(cells) => Success(Snap(w, h, cells))
  }

  /** What `grid_load_from_file` returns: success, or the reason it failed. */
  function Outcome(r: Result<Snap, LoadError>): Result<(), LoadError> {
    match r
    case Success(_) => Success(())
    case Failure(err) => Failure(err)
  }

  // ------------------------------------------------------------------
  // The loader
  // ------------------------------------------------------------------

  /** Two positive `int` dimensions never overflow the `size_t` cell count, so only the allocator can fail `grid_create`. */
  lemma IntCountFits(w: int, h: int)
    requires 0 < w <= INT_MAX && 0 < h <= INT_MAX
    ensures w * h <= SIZE_MAX
  {
    MulLeftMono(w, INT_MAX, h);
    MulLeftMono(h, INT_MAX, INT_MAX);
    assert INT_MAX * INT_MAX <= SIZE_MAX;
  }

  /** The buffer holds `acc` at its start and dead cells after it: what the loader has written so far into a fresh grid. */
  predicate Filled(c: seq<bool>, acc: seq<bool>) {
    |acc| <= |c| && c[..|acc|] == acc && forall k :: |acc| <= k < |c| ==> !c[k]
  }

  /** A cell of row `y` stored by `grid_set`, `acc` holding the cells before it. */
  method StoreCell(tmp: Grid, x: int, y: int, b: bool, ghost acc: seq<bool>) returns (ghost acc': seq<bool>)
    requires tmp.Valid() && tmp.cells != null && InBounds(tmp.w, tmp.h, x, y)
    requires |acc| == y * tmp.w + x && Filled(tmp.cells[..], acc)
    modifies tmp.cells
    ensures acc' == acc + [b] && Filled(tmp.cells[..], acc')
  {
    IndexInRange(tmp.w, tmp.h, x, y);
    ghost var before := tmp.cells[..];
    tmp.Set(x, y, if b then 1 else 0);
    assert tmp.cells[..] == before[|acc| := b];
    acc' := acc + [b];
    assert tmp.cells[..][..|acc'|] == acc';
  }

  /**
   * The cell loop of row `y`: reads characters from `i0` until the row has
   * its `w` cells, storing each into `tmp`, or stops at the first error.
   */
  method ReadCells(text: seq<char>, i0: nat, tmp: Grid, y: int, ghost acc0: seq<bool>)
    returns (err: Option<LoadError>, i: nat, ghost acc: seq<bool>)
    requires i0 <= |text| && tmp.Valid() && tmp.cells != null && 0 <= y < tmp.h
    requires |acc0| == y * tmp.w && Filled(tmp.cells[..], acc0)
    modifies tmp.cells
    ensures err.Some? ==> Cells(text, i0, tmp.w, tmp.h, y, 0, acc0) == Failure(err.value)
    ensures err.None? ==> i <= |text| && |acc| == y * tmp.w + tmp.w && Filled(tmp.cells[..], acc)
    ensures err.None? ==> Cells(text, i, tmp.w, tmp.h, y, tmp.w, acc) == Cells(text, i0, tmp.w, tmp.h, y, 0, acc0)
  {
    ghost var r := Cells(text, i0, tmp.w, tmp.h, y, 0, acc0);
    var w := tmp.w;
    i, acc := i0, acc0;
    var x := 0;
    while x < w
      invariant 0 <= x <= w && i <= |text|
      invariant |acc| == y * w + x && Filled(tmp.cells[..], acc)
      invariant Cells(text, i, w, tmp.h, y, x, acc) == r
      decreases |text| - i
    {
      if i == |text| {
        return Some(PrematureEof), i, acc;
      }
      var c := text[i];
      i := i + 1;
      if c == '\r' {
        continue;
      }
      if c == '\n' {
        return Some(LineTooShort), i, acc;
      }
      if c == '.' || c == 'O' {
        acc := StoreCell(tmp, x, y, c == 'O', acc);
        x := x + 1;
        continue;
      }
      if c == ' ' || c == '\t' {
        continue;
      }
      return Some(InvalidChar), i, acc;
    }
    return None, i, acc;
  }

  /**
   * The rest of row `y` after its cells: skips blanks and `'\r'` up to the
   * newline, which it consumes, or the end of the file.
   */
  method SkipLineEnd(text: seq<char>, i0: nat, w: int, h: int, y: int, ghost acc: seq<bool>)
    returns (err: Option<LoadError>, i: nat)
    requires i0 <= |text| && 0 <= y < h && 0 <= w
    ensures err.Some? ==> LineEnd(text, i0, w, h, y, acc) == Failure(err.value)
    ensures err.None? ==> i <= |text| && Cells(text, i, w, h, y + 1, 0, acc) == LineEnd(text, i0, w, h, y, acc)
  {
    i := i0;
    while true
      invariant i <= |text|
      invariant LineEnd(text, i, w, h, y, acc) == LineEnd(text, i0, w, h, y, acc)
      decreases |text| - i
    {
      if i == |text| {
        return None, i;
      }
      var c := text[i];
      i := i + 1;
      if c == '\r' || c == ' ' || c == '\t' {
        continue;
      }
      if c == '\n' {
        return None, i;
      }
      return Some(TrailingChars), i;
    }
  }

  /**
   * The row loop of the loader: creates a `w` by `h` grid and fills it from
   * the cells that start at `e`, or stops at the first error.
   */
  method ReadRows(text: seq<char>, e: nat, w: int, h: int) returns (err: Option<LoadError>, tmp: Grid)
    requires e <= |text| && 0 < w <= INT_MAX && 0 < h <= INT_MAX
    ensures fresh(tmp) && fresh(tmp.cells)
    ensures err.Some? <==> Cells(text, e, w, h, 0, 0, []).Failure?
    ensures err.Some? ==> Cells(text, e, w, h, 0, 0, []) == Failure(err.value)
    ensures err.None? ==> tmp.Valid() && tmp.Value() == Some(Snap(w, h, Cells(text, e, w, h, 0, 0, []).value))
  {
    tmp := new Grid.Empty();
    IntCountFits(w, h);
    var created := tmp.Create(w, h);
    assert created;
    var cells := tmp.cells;

    ghost var r := Cells(text, e, w, h, 0, 0, []);
    ghost var acc: seq<bool> := [];
    assert Filled(cells[..], acc);
    var i: nat := e;
    for y := 0 to h
      modifies cells
      invariant i <= |text|
      invariant tmp.cells == cells && tmp.Valid() && tmp.w == w && tmp.h == h
      invariant |acc| == y * w && Filled(cells[..], acc)
      invariant Cells(text, i, w, h, y, 0, acc) == r
    {
      err, i, acc := ReadCells(text, i, tmp, y, acc);
      if err.Some? {
        return;
      }
      err, i := SkipLineEnd(text, i, w, h, y, acc);
      if err.Some? {
        return;
      }
    }
    assert r == Success(acc);
    CellsLength(text, e, w, h, 0, 0, []);
    assert cells[..] == acc;
    return None, tmp;
  }

  /**
   * `grid_load_from_file` over the characters of the file: reads the header,
   * builds a fresh grid row by row, and replaces `out` by it only when the
   * whole file is accepted; on any failure `out` is untouched.
   */
  method Load(text: seq<char>, out: Grid?) returns (status: Result<(), LoadError>)
    modifies out
    ensures out == null ==> status == Failure(InvalidArguments)
    ensures out != null ==> status == Outcome(Parse(text))
    ensures out != null && status.Failure? ==> unchanged(out)
    ensures out != null && status.Success? ==> out.Valid() && out.Value() == Some(Parse(text).value)
  {
    if out == null {
      return Failure(InvalidArguments);
    }
    if |text| == 0 {
      return Failure(EmptyFile);
    }
    var e := HeaderLen(text);
    var header := ScanHeader(text[..e]);
    if header.None? {
      return Failure(BadHeader);
    }
    var (w, h) := header.value;
    if w <= 0 || h <= 0 {
      return Failure(BadHeader);
    }
    var err, tmp := ReadRows(text, e, w, h);
    if err.Some? {
      return Failure(err.value);
    }
    out.w, out.h, out.cells := tmp.w, tmp.h, tmp.cells;
    return Success(());
  }

  // ------------------------------------------------------------------
  // The writer
  // ------------------------------------------------------------------

  /** The decimal digit of `d`. */
  function Digit(d: int): char
    requires 0 <= d < 10
  {
    ('0' as int + d) as char
  }

  /** `%d` of a non-negative number: its decimal digits without leading zeros. */
  function Decimal(n: nat): (ds: seq<char>)
    ensures 0 < |ds| && AllDigits(ds)
  {
    if n < 10 then [Digit(n)] else Decimal(n / 10) + [Digit(n % 10)]
  }

  /** The cell character `grid_save_to_file` writes. */
  function CellChar(b: bool): char {
    if b then 'O' else '.'
  }

  /** The header line `"w h\n"`. */
  function Header(w: nat, h: nat): seq<char> {
    Decimal(w) + [' '] + Decimal(h) + ['\n']
  }

  /** The first `x` cells of row `y`. */
  function RowPrefix(s: Snap, y: int, x: nat): seq<char> {
    seq(x, c => CellChar(At(s, c, y)))
  }

  /** Row `y`: its `w` cells and a newline. */
  function RowText(s: Snap, y: int): seq<char>
    requires s.w >= 0
  {
    RowPrefix(s, y, s.w) + ['\n']
  }

  /** The first `n` rows. */
  function Body(s: Snap, n: nat): seq<char>
    requires s.w >= 0
  {
    if n == 0 then [] else Body(s, n - 1) + RowText(s, n - 1)
  }

  /** The file `grid_save_to_file` writes for an allocated grid. */
  function Format(s: Snap): seq<char>
    requires WellFormed(s)
  {
    Header(s.w, s.h) + Body(s, s.h)
  }

  /** One row of `grid_save_to_file`: its cells through `grid_get`, then a newline, after `out0`. */
  method WriteRow(g: Grid, y: int, out0: seq<char>) returns (out: seq<char>)
    requires g.Valid() && g.cells != null
    ensures out == out0 + RowText(g.Value().value, y)
  {
    ghost var s := g.Value().value;
    out := out0;
    for x := 0 to g.w
      invariant out == out0 + RowPrefix(s, y, x)
    {
      var v := g.Get(x, y);
      out := out + [if v != 0 then 'O' else '.'];
      assert RowPrefix(s, y, x + 1) == RowPrefix(s, y, x) + [CellChar(At(s, x, y))];
    }
    out := out + ['\n'];
  }

  /**
   * `grid_save_to_file`: nothing for a missing or unallocated grid; otherwise
   * the header and then every row, cell by cell through `grid_get`.
   */
  method Save(g: Grid?) returns (text: Option<seq<char>>)
    requires g != null ==> g.Valid()
    ensures text == if ValueOf(g).None? then None else Some(Format(ValueOf(g).value))
  {
    if g == null || g.cells == null {
      return None;
    }
    ghost var s := g.Value().value;
    var out := Decimal(g.w) + [' '] + Decimal(g.h) + ['\n'];
    for y := 0 to g.h
      invariant out == Header(s.w, s.h) + Body(s, y)
    {
      out := WriteRow(g, y, out);
    }
    return Some(out);
  }

  // ------------------------------------------------------------------
  // Saving then loading gives the grid back
  // ------------------------------------------------------------------

  function Pow10(k: nat): nat {
    if k == 0 then 1 else 10 * Pow10(k - 1)
  }

  /** A number below `10^k` has at most `k` digits. */
  lemma {:induction false} DecimalShort(n: nat, k: nat)
    requires 0 < k && n < Pow10(k)
    ensures |Decimal(n)| <= k
  {
    if n >= 10 {
      assert k > 1 && n / 10 < Pow10(k - 1);
      DecimalShort(n / 10, k - 1);
    }
  }

  /** Reading back the digits `%d` wrote gives the number. */
  lemma {:induction false} DecimalVal(n: nat)
    ensures Val(Decimal(n)) == n
  {
    if n >= 10 {
      var ds := Decimal(n);
      assert ds[..|ds| - 1] == Decimal(n / 10);
      DecimalVal(n / 10);
    }
  }

  /** The digit run that starts at `i` and is followed by a non-digit ends there. */
  lemma {:induction false} DigitsEndAt(t: seq<char>, i: nat, j: nat)
    requires i <= j <= |t| && AllDigits(t[i..j])
    requires j < |t| ==> !IsDigit(t[j])
    ensures DigitsEnd(t, i) == j
    decreases j - i
  {
    if i < j {
      assert IsDigit(t[i..j][0]);
      assert t[i + 1..j] == t[i..j][1..];
      DigitsEndAt(t, i + 1, j);
    }
  }

  /** `%d` reads back a number written with `Decimal` at `i`, stopping at the following non-digit. */
  lemma ScanDecimal(t: seq<char>, start: nat, i: nat, n: nat)
    requires n <= INT_MAX && start <= i && i + |Decimal(n)| <= |t|
    requires forall k :: start <= k < i ==> IsSpace(t[k])
    requires t[i..i + |Decimal(n)|] == Decimal(n)
    requires i + |Decimal(n)| < |t| ==> !IsDigit(t[i + |Decimal(n)|])
    ensures ScanInt(t, start) == Some((n, i + |Decimal(n)|))
  {
    var d := Decimal(n);
    var e := i + |d|;
    assert t[i] == d[0] && IsDigit(t[i]);
    SkipSpaceAt(t, start, i);
    DigitsEndAt(t, i, e);
    DecimalVal(n);
    assert Val(t[i..e]) == n;
  }

  /** White space from `start` up to a non-space at `i` is skipped exactly. */
  lemma {:induction false} SkipSpaceAt(t: seq<char>, start: nat, i: nat)
    requires start <= i < |t| && !IsSpace(t[i])
    requires forall k :: start <= k < i ==> IsSpace(t[k])
    ensures SkipSpace(t, start) == i
    decreases i - start
  {
    if start < i {
      SkipSpaceAt(t, start + 1, i);
    }
  }

  /** The header the writer produces is read back as the dimensions. */
  lemma HeaderRoundTrip(w: int, h: int, rest: seq<char>)
    requires 0 < w <= INT_MAX && 0 < h <= INT_MAX
    ensures HeaderLen(Header(w, h) + rest) == |Header(w, h)|
    ensures (Header(w, h) + rest)[..|Header(w, h)|] == Header(w, h)
    ensures ScanHeader(Header(w, h)) == Some((w, h))
  {
    HeaderLine(w, h, rest);
    HeaderScan(w, h);
  }

  /** `sscanf` reads the two numbers back from the header line. */
  lemma HeaderScan(w: int, h: int)
    requires 0 < w <= INT_MAX && 0 < h <= INT_MAX
    ensures ScanHeader(Header(w, h)) == Some((w, h))
  {
    var hd := Header(w, h);
    var dw, dh := Decimal(w), Decimal(h);
    var m := |dw| + 1;
    assert |hd| == m + |dh| + 1;
    assert hd[0..0 + |dw|] == dw && hd[|dw|] == ' ';
    ScanDecimal(hd, 0, 0, w);
    assert hd[m..m + |dh|] == dh && hd[m + |dh|] == '\n';
    assert forall k :: |dw| <= k < m ==> IsSpace(hd[k]);
    ScanDecimal(hd, |dw|, m, h);
  }

  /** The header line is at most 22 characters long, so `fgets` reads all of it and stops at its newline. */
  lemma HeaderLine(w: int, h: int, rest: seq<char>)
    requires 0 < w <= INT_MAX && 0 < h <= INT_MAX
    ensures HeaderLen(Header(w, h) + rest) == |Header(w, h)|
    ensures (Header(w, h) + rest)[..|Header(w, h)|] == Header(w, h)
  {
    var hd := Header(w, h);
    var t := hd + rest;
    var dw, dh := Decimal(w), Decimal(h);
    assert Pow10(10) == 10000000000;
    DecimalShort(w, 10);
    DecimalShort(h, 10);
    assert |hd| == |dw| + |dh| + 2 <= 22;
    forall k | 0 <= k < |hd| - 1
      ensures t[k] != '\n'
    {
      if k < |dw| {
        assert IsDigit(dw[k]);
      } else if |dw| < k {
        assert IsDigit(dh[k - |dw| - 1]);
      }
    }
    LineFromStops(t, 0, |hd|);
    assert t[..|hd|] == hd;
  }

  /** `fgets` stops right after the first newline when it falls within 255 characters. */
  lemma {:induction false} LineFromStops(t: seq<char>, i: nat, e: nat)
    requires i < e <= |t| && e <= HEADER_MAX && t[e - 1] == '\n'
    requires forall k :: i <= k < e - 1 ==> t[k] != '\n'
    ensures LineFrom(t, i) == e
    decreases e - i
  {
    if t[i] != '\n' {
      LineFromStops(t, i + 1, e);
    }
  }

  /** The cells of row `y`, in order. */
  function RowBits(s: Snap, y: int, x: nat): seq<bool> {
    seq(x, c => At(s, c, y))
  }

  /** The cells of the first `n` rows, in order. */
  function Flat(s: Snap, n: nat): seq<bool>
    requires s.w >= 0
  {
    if n == 0 then [] else Flat(s, n - 1) + RowBits(s, n - 1, s.w)
  }

  /**
   * The writer's cell characters of row `y`, starting at `r`, are read back
   * as that row's cells by a scanner expecting `hh` rows.
   */
  lemma {:induction false} RowRoundTrip(s: Snap, t: seq<char>, r: nat, hh: int, y: int, x: nat, acc: seq<bool>)
    requires WellFormed(s) && 0 <= y < hh && x <= s.w
    requires r + s.w < |t| && t[r + s.w] == '\n'
    requires forall c :: 0 <= c < s.w ==> t[r + c] == CellChar(At(s, c, y))
    ensures Cells(t, r + x, s.w, hh, y, x, acc + RowBits(s, y, x)) ==
            Cells(t, r + s.w + 1, s.w, hh, y + 1, 0, acc + RowBits(s, y, s.w))
    decreases s.w - x
  {
    if x < s.w {
      assert t[r + x] == CellChar(At(s, x, y));
      assert acc + RowBits(s, y, x) + [At(s, x, y)] == acc + RowBits(s, y, x + 1);
      RowRoundTrip(s, t, r, hh, y, x + 1, acc);
    }
  }

  /** Fewer rows are a prefix of more rows. */
  lemma {:induction false} BodyPrefix(s: Snap, n: nat, m: nat)
    requires s.w >= 0 && n <= m
    ensures |Body(s, n)| <= |Body(s, m)|
    ensures forall k :: 0 <= k < |Body(s, n)| ==> Body(s, m)[k] == Body(s, n)[k]
    decreases m - n
  {
    if n < m {
      BodyPrefix(s, n, m - 1);
    }
  }

  /**
   * The writer's rows `y` to `h` of `s`, at `base`, are read back as those
   * rows' cells by a scanner expecting `hh >= h` rows.
   */
  lemma {:induction false} RowsRoundTrip(s: Snap, t: seq<char>, base: nat, hh: int, y: nat)
    requires WellFormed(s) && y <= s.h <= hh
    requires base + |Body(s, s.h)| <= |t|
    requires forall k :: 0 <= k < |Body(s, s.h)| ==> t[base + k] == Body(s, s.h)[k]
    ensures base + |Body(s, y)| <= |t|
    ensures Cells(t, base + |Body(s, y)|, s.w, hh, y, 0, Flat(s, y)) ==
            Cells(t, base + |Body(s, s.h)|, s.w, hh, s.h, 0, Flat(s, s.h))
    decreases s.h - y
  {
    BodyPrefix(s, y, s.h);
    if y < s.h {
      var p := base + |Body(s, y)|;
      RowInFile(s, t, base, y);
      assert Flat(s, y) + RowBits(s, y, 0) == Flat(s, y);
      RowRoundTrip(s, t, p, hh, y, 0, Flat(s, y));
      RowsRoundTrip(s, t, base, hh, y + 1);
    }
  }

  /** Where the writer's rows sit in `t` from `base`, row `y` starts after the rows above it. */
  lemma RowInFile(s: Snap, t: seq<char>, base: nat, y: nat)
    requires WellFormed(s) && y < s.h
    requires base + |Body(s, s.h)| <= |t|
    requires forall k :: 0 <= k < |Body(s, s.h)| ==> t[base + k] == Body(s, s.h)[k]
    ensures |Body(s, y + 1)| == |Body(s, y)| + s.w + 1
    ensures base + |Body(s, y)| + s.w < |t| && t[base + |Body(s, y)| + s.w] == '\n'
    ensures forall c :: 0 <= c < s.w ==> t[base + |Body(s, y)| + c] == CellChar(At(s, c, y))
  {
    var p := |Body(s, y)|;
    var row := RowText(s, y);
    BodyPrefix(s, y + 1, s.h);
    assert Body(s, y + 1) == Body(s, y) + row;
    forall c | 0 <= c < s.w
      ensures t[base + p + c] == CellChar(At(s, c, y))
    {
      assert t[base + (p + c)] == Body(s, s.h)[p + c] == Body(s, y + 1)[p + c] == row[c];
    }
    assert t[base + (p + s.w)] == Body(s, s.h)[p + s.w] == Body(s, y + 1)[p + s.w] == row[s.w] == '\n';
  }

  /** The rows of a grid, one after the other, are its row-major cells. */
  lemma FlatCells(s: Snap)
    requires WellFormed(s)
    ensures Flat(s, s.h) == s.cells
  {
    FlatPrefix(s, s.h);
  }

  lemma {:induction false} FlatPrefix(s: Snap, n: nat)
    requires WellFormed(s) && n <= s.h
    ensures |Flat(s, n)| == n * s.w
    ensures forall i :: 0 <= i < |Flat(s, n)| ==> Flat(s, n)[i] == s.cells[i]
  {
    if n > 0 {
      FlatPrefix(s, n - 1);
      var row := (n - 1) * s.w;
      MulLeftMono(n, s.h, s.w);
      assert |Flat(s, n)| == row + s.w == n * s.w;
      forall i | row <= i < row + s.w
        ensures Flat(s, n)[i] == s.cells[i]
      {
        IndexSplit(s.w, i - row, n - 1);
        assert Flat(s, n)[i] == At(s, i - row, n - 1);
      }
    }
  }

  /**
   * Round trip: what the writer produces for an allocated grid whose
   * dimensions fit in an `int` is loaded back as the same grid, whatever
   * follows it in the file.
   */
  lemma SaveLoad(s: Snap, rest: seq<char>)
    requires WellFormed(s) && s.w <= INT_MAX && s.h <= INT_MAX
    ensures Parse(Format(s) + rest) == Success(s)
  {
    var t := Header(s.w, s.h) + (Body(s, s.h) + rest);
    assert Format(s) + rest == t;
    HeaderRoundTrip(s.w, s.h, Body(s, s.h) + rest);
    RowsAfterHeader(s, s.h, rest);
    ParseAfterHeader(t, s.w, s.h);
  }

  /** Once the header is read as `w` and `h`, the outcome is the cell scanner's. */
  lemma ParseAfterHeader(t: seq<char>, w: int, h: int)
    requires |t| > 0 && w > 0 && h > 0 && ScanHeader(t[..HeaderLen(t)]) == Some((w, h))
    ensures Cells(t, HeaderLen(t), w, h, 0, 0, []).Failure? ==>
      Parse(t) == Failure(Cells(t, HeaderLen(t), w, h, 0, 0, []).error)
    ensures Cells(t, HeaderLen(t), w, h, 0, 0, []).Success? ==>
      Parse(t) == Success(Snap(w, h, Cells(t, HeaderLen(t), w, h, 0, 0, []).value))
  {
  }

  /**
   * After a header announcing `hh` rows, the writer's rows of `s` are read
   * back as its cells, and the scanner goes on right after them.
   */
  lemma RowsAfterHeader(s: Snap, hh: int, rest: seq<char>)
    requires WellFormed(s) && s.h <= hh
    ensures hh == s.h ==>
      Cells(Header(s.w, hh) + (Body(s, s.h) + rest), |Header(s.w, hh)|, s.w, hh, 0, 0, []) == Success(s.cells)
    ensures hh > s.h && rest == [] ==>
      Cells(Header(s.w, hh) + (Body(s, s.h) + rest), |Header(s.w, hh)|, s.w, hh, 0, 0, []) == Failure(PrematureEof)
  {
    var hd := Header(s.w, hh);
    var body := Body(s, s.h);
    var t := hd + (body + rest);
    assert forall k :: 0 <= k < |body| ==> t[|hd| + k] == body[k];
    RowsRoundTrip(s, t, |hd|, hh, 0);
    assert Body(s, 0) == [] && Flat(s, 0) == [];
    FlatCells(s);
  }

  /**
   * A file whose header announces more rows than follow it is rejected for
   * ending early, e.g. a header `"5 3"` followed by two rows.
   */
  lemma MissingRows(s: Snap, hh: int)
    requires WellFormed(s) && s.w <= INT_MAX && s.h < hh <= INT_MAX
    ensures Parse(Header(s.w, hh) + Body(s, s.h)) == Failure(PrematureEof)
  {
    var t := Header(s.w, hh) + (Body(s, s.h) + []);
    assert Header(s.w, hh) + Body(s, s.h) == t;
    HeaderRoundTrip(s.w, hh, Body(s, s.h) + []);
    RowsAfterHeader(s, hh, []);
    ParseAfterHeader(t, s.w, hh);
  }
}
