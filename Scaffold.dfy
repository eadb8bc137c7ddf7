/** `scaffold_plots`: the bootstrap grid of rows and columns that embeds a
    list of plots, written as a sequence of abstract markup tokens. */
module Scaffold {
  import opened Results
  import opened Plots

  /** The markup the grid emits: a row div, a column div of a given grid
      width, the lightbox anchor `fancybox_img(p)` of a plot, and the closing
      tag of the innermost div. */
  datatype Token = OpenRow | OpenCol(width: int) | Img(embed: Embed) | Close

  /** Python's `a // b`: how many times `b` is shifted off `a` to bring it
      into the range between 0 and `b` (rounding towards minus infinity). */
  function PyFloorDiv(a: int, b: int): int
    requires b != 0
    decreases if (b > 0 && a < 0) || (b < 0 && a > 0) then 1 else 0, if a < 0 then -a else a
  {
    if b > 0 then
      if a < 0 then PyFloorDiv(a + b, b) - 1 else if a >= b then PyFloorDiv(a - b, b) + 1 else 0
    else
      if a > 0 then PyFloorDiv(a + b, b) - 1 else if a <= b then PyFloorDiv(a - b, b) + 1 else 0
  }

  /** Python's `a % b`: `a` shifted by multiples of `b` into the range
      between 0 and `b` (so the result takes the sign of `b`). */
  function PyMod(a: int, b: int): (r: int)
    requires b != 0
    ensures b > 0 ==> 0 <= r < b
    ensures b < 0 ==> b < r <= 0
    decreases if (b > 0 && a < 0) || (b < 0 && a > 0) then 1 else 0, if a < 0 then -a else a
  {
    if b > 0 then
      if a < 0 then PyMod(a + b, b) else if a >= b then PyMod(a - b, b) else a
    else
      if a > 0 then PyMod(a + b, b) else if a <= b then PyMod(a - b, b) else a
  }

  /** Python's division identity, for divisors of either sign. */
  lemma PyDivMod(a: int, b: int)
    requires b != 0
    ensures a == b * PyFloorDiv(a, b) + PyMod(a, b)
    decreases if (b > 0 && a < 0) || (b < 0 && a > 0) then 1 else 0, if a < 0 then -a else a
  {
    if (b > 0 && a < 0) || (b < 0 && a > 0) {
      var q, r := PyFloorDiv(a + b, b), PyMod(a + b, b);
      PyDivMod(a + b, b);
      assert PyFloorDiv(a, b) == q - 1 && PyMod(a, b) == r;
      MulShift(b, q - 1);
    } else if (b > 0 && a >= b) || (b < 0 && a <= b) {
      var q, r := PyFloorDiv(a - b, b), PyMod(a - b, b);
      PyDivMod(a - b, b);
      assert PyFloorDiv(a, b) == q + 1 && PyMod(a, b) == r;
      MulShift(b, q);
    }
  }

  lemma MulShift(b: int, q: int)
    ensures b * (q + 1) == b * q + b
  {
  }

  /** For a positive divisor Python's quotient is Dafny's (Euclidean) one. */
  lemma PyFloorDivPositive(a: int, b: int)
    requires b > 0
    ensures PyFloorDiv(a, b) == a / b
  {
    PyDivMod(a, b);
    ModUnique(a, b, PyFloorDiv(a, b), PyMod(a, b));
  }

  /** For a positive divisor Python's remainder is Dafny's (Euclidean) one. */
  lemma PyModPositive(a: int, b: int)
    requires b > 0
    ensures PyMod(a, b) == a % b
    decreases if a < 0 then 1 else 0, if a < 0 then -a else a
  {
    if a < 0 {
      PyModPositive(a + b, b);
      ModShift(a, b);
    } else if a >= b {
      PyModPositive(a - b, b);
      ModShift(a - b, b);
    } else {
      ModUnique(a, b, 0, a);
    }
  }

  const GridUnits: int := 12

  /** Width of one column when `nperrow` columns share the 12-unit grid. */
  function ColumnWidth(nperrow: int): int
    requires nperrow >= 1
  {
    PyFloorDiv(GridUnits, nperrow)
  }

  // ---------------------------------------------------------------------
  // Reference layout

  function Col(p: FancyPlot, width: int): seq<Token> {
    [OpenCol(width), Img(FancyboxImg(p)), Close]
  }

  /** The columns of one row, one per plot, in order. */
  function Cols(ps: seq<FancyPlot>, width: int): seq<Token>
    decreases |ps|
  {
    if ps == [] then [] else Cols(ps[..|ps| - 1], width) + Col(ps[|ps| - 1], width)
  }

  function Row(ps: seq<FancyPlot>, width: int): seq<Token> {
    [OpenRow] + Cols(ps, width) + [Close]
  }

  /** The intended layout: the plots cut into consecutive rows of `nperrow`
      (the last row possibly shorter), each row a closed row div whose
      columns all have width `w`. */
  function Grid(ps: seq<FancyPlot>, nperrow: int, w: int): seq<Token>
    requires nperrow >= 1
    decreases |ps|
  {
    if ps == [] then []
    else if |ps| <= nperrow then Row(ps, w)
    else Row(ps[..nperrow], w) + Grid(ps[nperrow..], nperrow, w)
  }

  /** The layout `scaffold_plots` is meant to produce for `nperrow >= 1`. */
  function Layout(ps: seq<FancyPlot>, nperrow: int): seq<Token>
    requires nperrow >= 1
  {
    Grid(ps, nperrow, ColumnWidth(nperrow))
  }

  // ---------------------------------------------------------------------
  // Observations on token sequences

  /** The plots embedded, in document order. */
  function Images(s: seq<Token>): seq<FancyPlot>
    decreases |s|
  {
    if s == [] then [] else (if s[0].Img? then [EmbeddedPlot(s[0].embed)] else []) + Images(s[1..])
  }

  function Count(s: seq<Token>, t: Token): nat
    decreases |s|
  {
    if s == [] then 0 else (if s[0] == t then 1 else 0) + Count(s[1..], t)
  }

  /** Div depth after `s` when starting at depth `d`, or None once a close
      has no open div to match. */
  function Level(s: seq<Token>, d: nat): Option<nat>
    decreases |s|
  {
    if s == [] then Some(d)
    else match s[0]
      case Close => if d == 0 then None else Level(s[1..], d - 1)
      case Img(_) => Level(s[1..], d)
      case _ => Level(s[1..], d + 1)
  }

  /** Every close matches an earlier open and every open is closed. */
  predicate Balanced(s: seq<Token>) {
    Level(s, 0) == Some(0)
  }

  // ---------------------------------------------------------------------
  // scaffold_plots

  /** `scaffold_plots(plots, nperrow)`: opens a row before every index
      divisible by `nperrow`, emits one column per plot, closes the row after
      every index that is `nperrow - 1` modulo `nperrow`, and afterwards closes
      the trailing row unless the last index already did. `12 // nperrow`
      fails for `nperrow == 0`, and with no plots the final test reads a loop
      variable that was never bound. */
  method ScaffoldPlots(plots: seq<FancyPlot>, nperrow: int) returns (r: Result<seq<Token>>)
    ensures nperrow == 0 ==> r == Err(ZeroDivisionError)
    ensures nperrow != 0 && plots == [] ==> r == Err(UnboundLocalError("i"))
    ensures nperrow != 0 && plots != [] ==> r.Ok?
    ensures nperrow >= 1 && plots != [] ==> r == Ok(Layout(plots, nperrow))
  {
    if nperrow == 0 {
      return Err(ZeroDivisionError);
    }
    var x := PyFloorDiv(GridUnits, nperrow);
    var page: seq<Token> := [];
    for i := 0 to |plots|
      invariant page == Emitted(plots, nperrow, x, i)
    {
      var col := PyMod(i, nperrow);
      if col == 0 {
        page := page + [OpenRow];
      }
      page := page + Col(plots[i], x);
      if col == nperrow - 1 {
        page := page + [Close];
      }
    }
    if |plots| == 0 {
      return Err(UnboundLocalError("i"));
    }
    var last := |plots| - 1;
    if PyMod(last, nperrow) < nperrow - 1 {
      page := page + [Close];
    }
    if nperrow >= 1 {
      EmittedLayout(plots, nperrow);
    }
    return Ok(page);
  }

  /** The tokens the loop of `scaffold_plots` has written after its first
      `i` passes: pass `j` opens a row div when `j % n == 0`, writes the
      column of plot `j`, and closes the row when `j % n == n - 1`. */
  function Emitted(ps: seq<FancyPlot>, n: int, w: int, i: int): seq<Token>
    requires n != 0 && 0 <= i <= |ps|
    decreases i
  {
    if i == 0 then []
    else
      var j := i - 1;
      var before := Emitted(ps, n, w, j);
      var withRow := if PyMod(j, n) == 0 then before + [OpenRow] else before;
      var withCol := withRow + Col(ps[j], w);
      if PyMod(j, n) == n - 1 then withCol + [Close] else withCol
  }

  /** `len` plots fill whole rows of `n`. */
  ghost predicate WholeRows(len: int, n: int)
    requires n >= 1
    decreases len
  {
    len == 0 || (len >= n && WholeRows(len - n, n))
  }

  /** The current, still open row holding the plots `cs`. */
  function OpenRowOf(cs: seq<FancyPlot>, w: int): seq<Token> {
    if cs == [] then [] else [OpenRow] + Cols(cs, w)
  }

  // ---------------------------------------------------------------------
  // Properties of the layout

  /** ceil(count / nperrow) */
  function RowsNeeded(count: nat, nperrow: int): int
    requires nperrow >= 1
  {
    (count + nperrow - 1) / nperrow
  }

  /** The grid opens ceil(N / nperrow) rows. */
  lemma {:induction false} GridRowCount(ps: seq<FancyPlot>, n: int, w: int)
    requires n >= 1
    ensures Count(Grid(ps, n, w), OpenRow) == RowsNeeded(|ps|, n)
    decreases |ps|
  {
    if ps == [] {
      ModUnique(n - 1, n, 0, n - 1);
    } else if |ps| <= n {
      CountRow(ps, w, OpenRow);
      CountCols(ps, w, OpenRow);
      ModUnique(|ps| + n - 1, n, 1, |ps| - 1);
    } else {
      var a, b := ps[..n], ps[n..];
      calc {
        Count(Grid(ps, n, w), OpenRow);
        { CountConcat(Row(a, w), Grid(b, n, w), OpenRow); }
        Count(Row(a, w), OpenRow) + Count(Grid(b, n, w), OpenRow);
        { CountRow(a, w, OpenRow); CountCols(a, w, OpenRow); GridRowCount(b, n, w); }
        1 + RowsNeeded(|b|, n);
        { DivShift(|b| + n - 1, n); }
        RowsNeeded(|ps|, n);
      }
    }
  }

  /** One column div per plot, all of width `w`. */
  lemma {:induction false} GridColumns(ps: seq<FancyPlot>, n: int, w: int)
    requires n >= 1
    ensures Count(Grid(ps, n, w), OpenCol(w)) == |ps|
    ensures forall t :: t in Grid(ps, n, w) && t.OpenCol? ==> t.width == w
    decreases |ps|
  {
    if ps == [] {
    } else if |ps| <= n {
      CountRow(ps, w, OpenCol(w));
      CountCols(ps, w, OpenCol(w));
      RowWidths(ps, w);
    } else {
      var a, b := ps[..n], ps[n..];
      CountConcat(Row(a, w), Grid(b, n, w), OpenCol(w));
      CountRow(a, w, OpenCol(w));
      CountCols(a, w, OpenCol(w));
      RowWidths(a, w);
      GridColumns(b, n, w);
    }
  }

  /** Every open div is closed, no close comes before its open, and the
      trailing partial row is closed too. */
  lemma {:induction false} GridBalanced(ps: seq<FancyPlot>, n: int, w: int, d: nat)
    requires n >= 1
    ensures Level(Grid(ps, n, w), d) == Some(d)
    decreases |ps|
  {
    if ps == [] {
    } else if |ps| <= n {
      RowLevel(ps, w, d);
    } else {
      var a, b := ps[..n], ps[n..];
      RowLevel(a, w, d);
      LevelConcat(Row(a, w), Grid(b, n, w), d, d);
      GridBalanced(b, n, w, d);
    }
  }

  /** The grid embeds every plot exactly once, in the given order. */
  lemma {:induction false} GridImages(ps: seq<FancyPlot>, n: int, w: int)
    requires n >= 1
    ensures Images(Grid(ps, n, w)) == ps
    decreases |ps|
  {
    if ps == [] {
    } else if |ps| <= n {
      ImagesRow(ps, w);
    } else {
      var a, b := ps[..n], ps[n..];
      assert a + b == ps;
      calc {
        Images(Grid(ps, n, w));
        Images(Row(a, w) + Grid(b, n, w));
        { ImagesConcat(Row(a, w), Grid(b, n, w)); }
        Images(Row(a, w)) + Images(Grid(b, n, w));
        { ImagesRow(a, w); GridImages(b, n, w); }
        a + b;
      }
    }
  }

  /** Seven plots three to a row: three rows, the last holding one plot and
      still closed. */
  lemma SevenPlotsThreePerRow(ps: seq<FancyPlot>)
    requires |ps| == 7
    ensures Layout(ps, 3) == Row(ps[..3], 4) + Row(ps[3..6], 4) + Row(ps[6..], 4)
    ensures Count(Layout(ps, 3), OpenRow) == 3
    ensures Balanced(Layout(ps, 3))
  {
    PyFloorDivPositive(GridUnits, 3);
    assert ColumnWidth(3) == 4;
    assert ps[3..][..3] == ps[3..6];
    assert ps[3..][3..] == ps[6..];
    calc {
      Layout(ps, 3);
      Grid(ps, 3, 4);
      Row(ps[..3], 4) + Grid(ps[3..], 3, 4);
      Row(ps[..3], 4) + (Row(ps[3..6], 4) + Grid(ps[6..], 3, 4));
      Row(ps[..3], 4) + Row(ps[3..6], 4) + Row(ps[6..], 4);
    }
    GridRowCount(ps, 3, 4);
    GridBalanced(ps, 3, 4, 0);
  }

  // ---------------------------------------------------------------------
  // Helper lemmas

  lemma {:induction false} MulAtLeast(k: int, n: int)
    requires k >= 1 && n >= 1
    ensures k * n >= n
    decreases k
  {
    if k > 1 {
      MulAtLeast(k - 1, n);
      assert k * n == (k - 1) * n + n;
    }
  }

  /** Euclidean division has a unique quotient and remainder. */
  lemma ModUnique(a: int, n: int, q: int, r: int)
    requires n >= 1 && 0 <= r < n && a == q * n + r
    ensures a % n == r && a / n == q
  {
    var q', r' := a / n, a % n;
    assert a == q' * n + r';
    if q > q' {
      MulAtLeast(q - q', n);
    } else if q' > q {
      MulAtLeast(q' - q, n);
    }
  }

  lemma ModShift(x: int, n: int)
    requires n >= 1
    ensures (x + n) % n == x % n
  {
    var q, r := x / n, x % n;
    assert x == q * n + r;
    assert x + n == (q + 1) * n + r;
    ModUnique(x + n, n, q + 1, r);
  }

  /** After whole rows, the Python remainder is the position in the row. */
  lemma {:induction false} WholeRowsMod(len: int, i: int, n: int)
    requires n >= 1 && WholeRows(len, n) && len <= i < len + n
    ensures PyMod(i, n) == i - len
    decreases len
  {
    if len != 0 {
      WholeRowsMod(len - n, i - n, n);
    }
  }

  lemma {:induction false} WholeRowsAdd(len: int, n: int)
    requires n >= 1 && WholeRows(len, n) && len >= 0
    ensures WholeRows(len + n, n)
    decreases len
  {
    if len > 0 {
      WholeRowsAdd(len - n, n);
    }
  }

  lemma ColsSnoc(ps: seq<FancyPlot>, p: FancyPlot, width: int)
    ensures Cols(ps + [p], width) == Cols(ps, width) + Col(p, width)
  {
    assert (ps + [p])[..|ps|] == ps;
  }

  lemma OpenRowExtend(g: seq<Token>, cs: seq<FancyPlot>, p: FancyPlot, w: int)
    requires cs != []
    ensures g + OpenRowOf(cs, w) + Col(p, w) == g + OpenRowOf(cs + [p], w)
  {
    ColsSnoc(cs, p, w);
  }

  lemma OpenRowStart(g: seq<Token>, p: FancyPlot, w: int)
    ensures g + [OpenRow] + Col(p, w) == g + OpenRowOf([p], w)
  {
    ColsSnoc([], p, w);
    assert [] + [p] == [p];
  }

  /** Closing the open row turns it into a complete row. */
  lemma OpenRowClose(g: seq<Token>, cs: seq<FancyPlot>, w: int)
    requires cs != []
    ensures g + OpenRowOf(cs, w) + [Close] == g + Row(cs, w)
  {
  }

  /** After `i` passes the loop has written the whole rows `done`, then the
      still open row `cur`; together they are the plots before `i`. */
  lemma {:induction false} EmittedRows(ps: seq<FancyPlot>, n: int, w: int, i: int)
    returns (done: seq<FancyPlot>, cur: seq<FancyPlot>)
    requires n >= 1 && 0 <= i <= |ps|
    ensures done + cur == ps[..i]
    ensures WholeRows(|done|, n) && |cur| < n
    ensures Emitted(ps, n, w, i) == Grid(done, n, w) + OpenRowOf(cur, w)
    decreases i
  {
    if i == 0 {
      done, cur := [], [];
      EmittedNone(ps, n, w);
    } else {
      var d, c := EmittedRows(ps, n, w, i - 1);
      done, cur := EmittedStep(ps, n, w, i, d, c);
    }
  }

  /** Before the first pass nothing is written and no plot is seen. The
      clauses are stated in the exact shape of `EmittedRows`'s postcondition
      for `done, cur := [], []`, so that the caller needs no sequence
      reasoning of its own. */
  lemma EmittedNone(ps: seq<FancyPlot>, n: int, w: int)
    requires n >= 1
    ensures [] + [] == ps[..0]
    ensures Emitted(ps, n, w, 0) == Grid([], n, w) + OpenRowOf([], w)
  {
    assert ps[..0] == [];
  }

  /** One pass of the loop, on the rows written so far. */
  lemma EmittedStep(ps: seq<FancyPlot>, n: int, w: int, i: int, d: seq<FancyPlot>, c: seq<FancyPlot>)
    returns (done: seq<FancyPlot>, cur: seq<FancyPlot>)
    requires n >= 1 && 0 < i <= |ps|
    requires d + c == ps[..i - 1] && WholeRows(|d|, n) && |c| < n
    requires Emitted(ps, n, w, i - 1) == Grid(d, n, w) + OpenRowOf(c, w)
    ensures done + cur == ps[..i]
    ensures WholeRows(|done|, n) && |cur| < n
    ensures Emitted(ps, n, w, i) == Grid(done, n, w) + OpenRowOf(cur, w)
  {
    WholeRowsMod(|d|, i - 1, n);
    PrefixSnoc(ps, i, d, c);
    if |c| == n - 1 {
      if n == 1 {
        StepOnly(ps, w, i, d, c);
      } else {
        StepLast(ps, n, w, i, d, c);
      }
      done, cur := d + (c + [ps[i - 1]]), [];
      RowAdded(d, c, ps[i - 1], n);
    } else if c == [] {
      StepFirst(ps, n, w, i, d);
      done, cur := d, [ps[i - 1]];
    } else {
      StepMiddle(ps, n, w, i, d, c);
      done, cur := d, c + [ps[i - 1]];
    }
  }

  lemma RowAdded(d: seq<FancyPlot>, c: seq<FancyPlot>, p: FancyPlot, n: int)
    requires n >= 1 && WholeRows(|d|, n) && |c| == n - 1
    ensures WholeRows(|d + (c + [p])|, n)
  {
    WholeRowsAdd(|d|, n);
  }

  /** Adding plot `i - 1` to the open row extends the plots seen to
      `ps[..i]`. The second clause is the same fact in the shape `EmittedStep`
      needs when that row is then closed (`done + []`), so that its caller
      needs no sequence reasoning of its own. */
  lemma PrefixSnoc(ps: seq<FancyPlot>, i: int, d: seq<FancyPlot>, c: seq<FancyPlot>)
    requires 0 < i <= |ps| && d + c == ps[..i - 1]
    ensures d + (c + [ps[i - 1]]) == ps[..i]
    ensures (d + (c + [ps[i - 1]])) + [] == ps[..i]
  {
    assert ps[..i] == ps[..i - 1] + [ps[i - 1]];
    assert d + (c + [ps[i - 1]]) == (d + c) + [ps[i - 1]];
  }

  /** A pass that starts a row which it does not fill. */
  lemma StepFirst(ps: seq<FancyPlot>, n: int, w: int, i: int, d: seq<FancyPlot>)
    requires n >= 2 && 0 < i <= |ps| && PyMod(i - 1, n) == 0
    requires Emitted(ps, n, w, i - 1) == Grid(d, n, w) + OpenRowOf([], w)
    ensures Emitted(ps, n, w, i) == Grid(d, n, w) + OpenRowOf([ps[i - 1]], w)
  {
    assert Grid(d, n, w) + [] == Grid(d, n, w);
    OpenRowStart(Grid(d, n, w), ps[i - 1], w);
  }

  /** A pass that adds to a row begun earlier without filling it. */
  lemma StepMiddle(ps: seq<FancyPlot>, n: int, w: int, i: int, d: seq<FancyPlot>, c: seq<FancyPlot>)
    requires n >= 1 && 0 < i <= |ps| && c != []
    requires PyMod(i - 1, n) != 0 && PyMod(i - 1, n) != n - 1
    requires Emitted(ps, n, w, i - 1) == Grid(d, n, w) + OpenRowOf(c, w)
    ensures Emitted(ps, n, w, i) == Grid(d, n, w) + OpenRowOf(c + [ps[i - 1]], w)
  {
    OpenRowExtend(Grid(d, n, w), c, ps[i - 1], w);
  }

  /** A pass that fills the row `c` begun earlier, then closes it. */
  lemma StepLast(ps: seq<FancyPlot>, n: int, w: int, i: int, d: seq<FancyPlot>, c: seq<FancyPlot>)
    requires n >= 2 && 0 < i <= |ps| && WholeRows(|d|, n) && |c| == n - 1
    requires PyMod(i - 1, n) == n - 1
    requires Emitted(ps, n, w, i - 1) == Grid(d, n, w) + OpenRowOf(c, w)
    ensures Emitted(ps, n, w, i) == Grid(d + (c + [ps[i - 1]]), n, w) + OpenRowOf([], w)
  {
    var g := Grid(d, n, w);
    var c' := c + [ps[i - 1]];
    OpenRowExtend(g, c, ps[i - 1], w);
    assert Emitted(ps, n, w, i) == g + OpenRowOf(c', w) + [Close];
    OpenRowClose(g, c', w);
    GridAppend(d, c', n, w);
  }

  /** With one plot per row each pass opens and closes a row of its own. */
  lemma StepOnly(ps: seq<FancyPlot>, w: int, i: int, d: seq<FancyPlot>, c: seq<FancyPlot>)
    requires 0 < i <= |ps| && WholeRows(|d|, 1) && |c| == 0
    requires Emitted(ps, 1, w, i - 1) == Grid(d, 1, w) + OpenRowOf(c, w)
    ensures Emitted(ps, 1, w, i) == Grid(d + (c + [ps[i - 1]]), 1, w) + OpenRowOf([], w)
  {
    assert c == [];
    var g := Grid(d, 1, w);
    var p := ps[i - 1];
    assert g + [] == g;
    OpenRowStart(g, p, w);
    assert Emitted(ps, 1, w, i) == g + OpenRowOf([p], w) + [Close];
    OpenRowClose(g, [p], w);
    assert [] + [p] == [p];
    GridAppend(d, [p], 1, w);
  }

  /** After the loop, the trailing close (written only when the last row is
      not full) completes the grid of all plots. */
  lemma EmittedLayout(ps: seq<FancyPlot>, n: int)
    requires n >= 1 && ps != []
    ensures PyMod(|ps| - 1, n) < n - 1 ==> Emitted(ps, n, ColumnWidth(n), |ps|) + [Close] == Layout(ps, n)
    ensures PyMod(|ps| - 1, n) == n - 1 ==> Emitted(ps, n, ColumnWidth(n), |ps|) == Layout(ps, n)
  {
    var w := ColumnWidth(n);
    var d, c := EmittedRows(ps, n, w, |ps|);
    assert ps[..|ps|] == ps;
    if c != [] {
      WholeRowsMod(|d|, |ps| - 1, n);
      LayoutOpen(ps, n, w, d, c);
    } else {
      assert WholeRows(|d| - n, n);
      WholeRowsMod(|d| - n, |ps| - 1, n);
      assert d + [] == d;
    }
  }

  /** Closing the open last row completes the grid. */
  lemma LayoutOpen(ps: seq<FancyPlot>, n: int, w: int, d: seq<FancyPlot>, c: seq<FancyPlot>)
    requires n >= 1 && WholeRows(|d|, n) && 1 <= |c| <= n && d + c == ps
    ensures Grid(d, n, w) + OpenRowOf(c, w) + [Close] == Grid(ps, n, w)
  {
    OpenRowClose(Grid(d, n, w), c, w);
    GridAppend(d, c, n, w);
  }

  lemma {:induction false} ImagesConcat(a: seq<Token>, b: seq<Token>)
    ensures Images(a + b) == Images(a) + Images(b)
    decreases |a|
  {
    if a == [] {
      assert a + b == b;
    } else {
      assert (a + b)[0] == a[0];
      assert (a + b)[1..] == a[1..] + b;
      ImagesConcat(a[1..], b);
    }
  }

  lemma {:induction false} ImagesCols(cs: seq<FancyPlot>, w: int)
    ensures Images(Cols(cs, w)) == cs
    decreases |cs|
  {
    if cs != [] {
      var cs' := cs[..|cs| - 1];
      ImagesCols(cs', w);
      ImagesConcat(Cols(cs', w), Col(cs[|cs| - 1], w));
      ImagesCol(cs[|cs| - 1], w);
      assert cs' + [cs[|cs| - 1]] == cs;
    }
  }

  lemma ImagesRow(cs: seq<FancyPlot>, w: int)
    ensures Images(Row(cs, w)) == cs
  {
    ImagesConcat([OpenRow] + Cols(cs, w), [Close]);
    ImagesConcat([OpenRow], Cols(cs, w));
    ImagesOne(OpenRow);
    ImagesOne(Close);
    ImagesCols(cs, w);
  }

  lemma ImagesOne(t: Token)
    ensures Images([t]) == if t.Img? then [EmbeddedPlot(t.embed)] else []
  {
    assert [t][1..] == [];
  }

  lemma ImagesCol(p: FancyPlot, x: int)
    ensures Images(Col(p, x)) == [p]
  {
    var c := Col(p, x);
    var e := Img(FancyboxImg(p));
    assert c == [OpenCol(x)] + [e] + [Close];
    ImagesConcat([OpenCol(x)] + [e], [Close]);
    ImagesConcat([OpenCol(x)], [e]);
    ImagesOne(OpenCol(x));
    ImagesOne(e);
    EmbedRoundTrip(p);
    ImagesOne(Close);
  }

  /** A grid over whole rows followed by one more (possibly short) row. */
  lemma {:induction false} GridAppend(a: seq<FancyPlot>, b: seq<FancyPlot>, n: int, w: int)
    requires n >= 1 && WholeRows(|a|, n) && 1 <= |b| <= n
    ensures Grid(a + b, n, w) == Grid(a, n, w) + Row(b, w)
    decreases |a|
  {
    if a == [] {
      assert a + b == b;
    } else {
      var r := Row(a[..n], w);
      calc {
        Grid(a + b, n, w);
        { GridSplit(a, b, n, w); }
        r + Grid(a[n..] + b, n, w);
        { GridAppend(a[n..], b, n, w); }
        r + (Grid(a[n..], n, w) + Row(b, w));
        { AppendAssoc(r, Grid(a[n..], n, w), Row(b, w)); }
        (r + Grid(a[n..], n, w)) + Row(b, w);
        { GridFirstRow(a, n, w); }
        Grid(a, n, w) + Row(b, w);
      }
    }
  }

  /** The first row of `a + b` is the first row of `a` when `a` fills it. */
  lemma GridSplit(a: seq<FancyPlot>, b: seq<FancyPlot>, n: int, w: int)
    requires n >= 1 && n <= |a| && b != []
    ensures Grid(a + b, n, w) == Row(a[..n], w) + Grid(a[n..] + b, n, w)
  {
    var ab := a + b;
    assert ab[..n] == a[..n];
    assert ab[n..] == a[n..] + b;
  }

  /** A grid of at least one whole row is that row and the grid of the rest. */
  lemma GridFirstRow(a: seq<FancyPlot>, n: int, w: int)
    requires n >= 1 && n <= |a|
    ensures Grid(a, n, w) == Row(a[..n], w) + Grid(a[n..], n, w)
  {
    if |a| == n {
      assert a[n..] == [];
      assert a[..n] == a;
      assert Row(a, w) + [] == Row(a, w);
    }
  }

  lemma AppendAssoc<T>(x: seq<T>, y: seq<T>, z: seq<T>)
    ensures x + (y + z) == (x + y) + z
  {
  }

  lemma DivShift(x: int, n: int)
    requires n >= 1 && x >= 0
    ensures (x + n) / n == x / n + 1
  {
    var q, r := x / n, x % n;
    assert x == q * n + r;
    assert x + n == (q + 1) * n + r;
    ModUnique(x + n, n, q + 1, r);
  }

  lemma {:induction false} CountConcat(a: seq<Token>, b: seq<Token>, t: Token)
    ensures Count(a + b, t) == Count(a, t) + Count(b, t)
    decreases |a|
  {
    if a == [] {
      assert a + b == b;
    } else {
      assert (a + b)[0] == a[0];
      assert (a + b)[1..] == a[1..] + b;
      CountConcat(a[1..], b, t);
    }
  }

  lemma CountOne(u: Token, t: Token)
    ensures Count([u], t) == if u == t then 1 else 0
  {
    assert [u][1..] == [];
  }

  /** Columns hold no row div; each holds one column div of width `w`. */
  lemma {:induction false} CountCols(cs: seq<FancyPlot>, w: int, t: Token)
    requires t == OpenRow || t == OpenCol(w)
    ensures Count(Cols(cs, w), t) == if t == OpenRow then 0 else |cs|
    decreases |cs|
  {
    if cs != [] {
      var cs' := cs[..|cs| - 1];
      var p := cs[|cs| - 1];
      CountCols(cs', w, t);
      CountConcat(Cols(cs', w), Col(p, w), t);
      var e := Img(FancyboxImg(p));
      assert Col(p, w) == [OpenCol(w)] + [e] + [Close];
      CountConcat([OpenCol(w)] + [e], [Close], t);
      CountConcat([OpenCol(w)], [e], t);
      CountOne(OpenCol(w), t);
      CountOne(e, t);
      CountOne(Close, t);
    }
  }

  lemma CountRow(cs: seq<FancyPlot>, w: int, t: Token)
    requires t == OpenRow || t == OpenCol(w)
    ensures Count(Row(cs, w), t) == (if t == OpenRow then 1 else 0) + Count(Cols(cs, w), t)
  {
    CountConcat([OpenRow] + Cols(cs, w), [Close], t);
    CountConcat([OpenRow], Cols(cs, w), t);
    CountOne(OpenRow, t);
    CountOne(Close, t);
  }

  /** Every column div of a row has the row's width. */
  lemma {:induction false} RowWidths(cs: seq<FancyPlot>, w: int)
    ensures forall t :: t in Row(cs, w) && t.OpenCol? ==> t.width == w
    decreases |cs|
  {
    if cs != [] {
      RowWidths(cs[..|cs| - 1], w);
    }
  }

  lemma {:induction false} LevelConcat(a: seq<Token>, b: seq<Token>, d: nat, e: nat)
    requires Level(a, d) == Some(e)
    ensures Level(a + b, d) == Level(b, e)
    decreases |a|
  {
    if a == [] {
      assert a + b == b;
    } else {
      assert (a + b)[0] == a[0];
      assert (a + b)[1..] == a[1..] + b;
      match a[0]
      case Close => LevelConcat(a[1..], b, d - 1, e);
      case Img(_) => LevelConcat(a[1..], b, d, e);
      case _ => LevelConcat(a[1..], b, d + 1, e);
    }
  }

  lemma LevelCol(p: FancyPlot, w: int, d: nat)
    ensures Level(Col(p, w), d) == Some(d)
  {
    LevelColOf(FancyboxImg(p), w, d);
  }

  lemma LevelColOf(e: Embed, w: int, d: nat)
    ensures Level([OpenCol(w), Img(e), Close], d) == Some(d)
  {
    var c := [OpenCol(w), Img(e), Close];
    assert c[1..] == [Img(e), Close];
    assert c[1..][1..] == [Close];
    assert c[1..][1..][1..] == [];
    assert Level([Close], d + 1) == Some(d);
    assert Level([Img(e), Close], d + 1) == Some(d);
  }

  lemma {:induction false} LevelCols(cs: seq<FancyPlot>, w: int, d: nat)
    ensures Level(Cols(cs, w), d) == Some(d)
    decreases |cs|
  {
    if cs != [] {
      var cs' := cs[..|cs| - 1];
      LevelCols(cs', w, d);
      LevelConcat(Cols(cs', w), Col(cs[|cs| - 1], w), d, d);
      LevelCol(cs[|cs| - 1], w, d);
    }
  }

  lemma RowLevel(cs: seq<FancyPlot>, w: int, d: nat)
    ensures Level(Row(cs, w), d) == Some(d)
  {
    assert ([OpenRow] + Cols(cs, w))[1..] == Cols(cs, w);
    LevelCols(cs, w, d + 1);
    LevelConcat([OpenRow], Cols(cs, w), d, d + 1);
    assert [OpenRow][1..] == [];
    LevelConcat([OpenRow] + Cols(cs, w), [Close], d, d + 1);
    assert [Close][1..] == [];
  }
}
