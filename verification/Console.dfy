/** A rectangle of the console screen that is moved: BMOVE of `console.c`. */
module Console {

  /** `co_console_cell_t` */
  type Cell = c: int | 0 <= c < 0x1_0000

  /** Where a cell is in the buffer, which holds the rows one after the other. */
  function Index(width: nat, row: nat, column: nat): nat {
    width * row + column
  }

  lemma Distributed(a: nat, b: nat, c: nat)
    ensures a * (b + c) == a * b + a * c && a * c >= 0
  {
  }

  lemma Rows(width: nat, r: nat, r': nat)
    requires r < r'
    ensures width * r + width <= width * r'
  {
    Distributed(width, r, r' - r);
    Distributed(width, 1, r' - r - 1);
  }

  lemma IndexInside(width: nat, rows: nat, row: nat, column: nat)
    requires row < rows && column <= width
    ensures Index(width, row, column) <= Index(width, row, width) <= width * rows
    ensures column < width ==> Index(width, row, column) < width * rows
  {
    Rows(width, row, rows);
  }

  /** No two cells are in the same place. */
  lemma IndexOnce(width: nat, r: nat, c: nat, r': nat, c': nat)
    requires c < width && c' < width && Index(width, r, c) == Index(width, r', c')
    ensures r == r' && c == c'
  {
    if r < r' {
      Rows(width, r, r');
    } else if r' < r {
      Rows(width, r', r);
    }
  }

  /** The cells of a screen by row and column. */
  function At(screen: seq<Cell>, width: nat, row: nat, column: nat): Cell
    requires column < width && Index(width, row, column) < |screen|
  {
    screen[Index(width, row, column)]
  }

  ghost predicate Sized(screen: seq<Cell>, width: nat, rows: nat) {
    forall r: nat, c: nat | r < rows && c < width :: Index(width, r, c) < |screen|
  }

  /** `n` cells of row `from` are where row `to` had others; everything else is as before. */
  ghost predicate RowMoved(s: seq<Cell>, s': seq<Cell>, width: nat, rows: nat, to: nat, x: nat, from: nat, l: nat, n: nat)
    requires Sized(s, width, rows) && Sized(s', width, rows) && from < rows && l + n <= width
  {
    forall r: nat, c: nat {:trigger At(s', width, r, c)} | r < rows && c < width ::
      At(s', width, r, c) == if r == to && x <= c < x + n then At(s, width, from, l + (c - x)) else At(s, width, r, c)
  }

  /** The first `h` rows of a rectangle of `n` columns have been moved from (`t`, `l`) to (`y`, `x`). */
  ghost predicate Moved(s: seq<Cell>, s': seq<Cell>, width: nat, rows: nat, y: int, x: nat, t: int, l: nat, n: nat, lo: int, hi: int)
    requires Sized(s, width, rows) && Sized(s', width, rows) && l + n <= width && 0 <= t + lo && t + hi <= rows
  {
    forall r: nat, c: nat {:trigger At(s', width, r, c)} | r < rows && c < width ::
      At(s', width, r, c) ==
      if y + lo <= r < y + hi && x <= c < x + n then At(s, width, t + (r - y), l + (c - x)) else At(s, width, r, c)
  }

  lemma SizedScreen(screen: seq<Cell>, width: nat, rows: nat)
    requires |screen| == width * rows
    ensures Sized(screen, width, rows)
  {
    forall r: nat, c: nat | r < rows && c < width
      ensures Index(width, r, c) < |screen|
    {
      IndexInside(width, rows, r, c);
    }
  }

  /** `n` cells from `o` on have been copied to where `d` is. */
  ghost predicate Copied(s: seq<Cell>, s': seq<Cell>, d: nat, o: nat, n: nat)
    requires |s'| == |s| && o + n <= |s|
  {
    forall i {:trigger s'[i]} | 0 <= i < |s| :: s'[i] == if d <= i < d + n then s[o + (i - d)] else s[i]
  }

  /** A `memmove` of cells. */
  lemma RowMove(s: seq<Cell>, s': seq<Cell>, width: nat, rows: nat, to: nat, x: nat, from: nat, l: nat, n: nat)
    requires Sized(s, width, rows) && |s'| == |s| && to < rows && from < rows && x + n <= width && l + n <= width
    requires Index(width, from, l) + n <= |s|
    requires Copied(s, s', Index(width, to, x), Index(width, from, l), n)
    ensures Sized(s', width, rows) && RowMoved(s, s', width, rows, to, x, from, l, n)
  {
    hide Index;
    hide At;
    forall r: nat, c: nat {:trigger At(s', width, r, c)} | r < rows && c < width
      ensures At(s', width, r, c) == if r == to && x <= c < x + n then At(s, width, from, l + (c - x)) else At(s, width, r, c)
    {
      CellMove(s, s', width, rows, to, x, from, l, n, r, c);
    }
  }

  lemma CellMove(s: seq<Cell>, s': seq<Cell>, width: nat, rows: nat, to: nat, x: nat, from: nat, l: nat, n: nat, r: nat, c: nat)
    requires Sized(s, width, rows) && Sized(s', width, rows) && to < rows && from < rows && x + n <= width && l + n <= width
    requires |s'| == |s| && Index(width, from, l) + n <= |s| && r < rows && c < width
    requires Copied(s, s', Index(width, to, x), Index(width, from, l), n)
    ensures At(s', width, r, c) == if r == to && x <= c < x + n then At(s, width, from, l + (c - x)) else At(s, width, r, c)
  {
    InRow(width, r, c, to, x, n);
    if r == to && x <= c < x + n {
      Along(width, from, l, c - x);
    }
    hide Index;
    CopiedAt(s, s', Index(width, to, x), Index(width, from, l), n, Index(width, r, c));
  }

  lemma CopiedAt(s: seq<Cell>, s': seq<Cell>, d: nat, o: nat, n: nat, i: nat)
    requires |s'| == |s| && o + n <= |s| && Copied(s, s', d, o, n) && i < |s|
    ensures s'[i] == if d <= i < d + n then s[o + (i - d)] else s[i]
  {
  }

  lemma Along(width: nat, row: nat, l: nat, k: int)
    requires l + k >= 0
    ensures Index(width, row, l + k) == Index(width, row, l) + k
  {
    var start := width * row;
    assert Index(width, row, l) == start + l && Index(width, row, l + k) == start + (l + k);
  }

  /** A cell is among `n` cells of a row from `x` on when its index is. */
  lemma InRow(width: nat, r: nat, c: nat, to: nat, x: nat, n: nat)
    requires c < width && x + n <= width
    ensures var i, d := Index(width, r, c), Index(width, to, x); d <= i < d + n <==> r == to && x <= c < x + n
    ensures r == to ==> Index(width, r, c) - Index(width, to, x) == c - x
  {
    if r < to {
      Rows(width, r, to);
    } else if to < r {
      Rows(width, to, r);
    }
  }

  class Screen {
    const cells: array<Cell>
    const width: nat
    const rows: nat

    ghost predicate Valid()
      reads this, cells
    {
      cells.Length == width * rows && Sized(cells[..], width, rows)
    }

    constructor (width: nat, rows: nat)
      ensures Valid() && this.width == width && this.rows == rows && fresh(cells)
    {
      this.width, this.rows := width, rows;
      cells := new Cell[width * rows];
      new;
      SizedScreen(cells[..], width, rows);
    }

    /** `memmove` within the screen. */
    method MemMove(dest: nat, src: nat, n: nat)
      requires dest + n <= cells.Length && src + n <= cells.Length
      modifies cells
      ensures Copied(old(cells[..]), cells[..], dest, src, n)
    {
      forall i | 0 <= i < n {
        cells[dest + i] := cells[src + i];
      }
    }

    /** Lines 249-251 and 258-260: one row. */
    method MoveRow(to: nat, x: nat, from: nat, l: nat, n: nat)
      requires Valid() && to < rows && from < rows && x + n <= width && l + n <= width
      modifies cells
      ensures Valid() && RowMoved(old(cells[..]), cells[..], width, rows, to, x, from, l, n)
    {
      ghost var s := cells[..];
      IndexInside(width, rows, to, x + n);
      IndexInside(width, rows, from, l + n);
      MemMove(Index(width, to, x), Index(width, from, l), n);
      RowMove(s, cells[..], width, rows, to, x, from, l, n);
    }

    /**
     * CO_OPERATION_CONSOLE_BMOVE of a rectangle inside the screen to a place inside the screen: however the two overlap,
     * the cells are those that a snapshot of the source would have given.
     */
    method BMove(y0: nat, x: nat, t0: nat, l: nat, b0: nat, r: nat)
      requires Valid() && t0 <= b0 < rows && l <= r < width && y0 + (b0 - t0) < rows && x + (r - l) < width
      modifies cells
      ensures Valid() && Moved(old(cells[..]), cells[..], width, rows, y0, x, t0, l, r - l + 1, 0, b0 - t0 + 1)
    {
      ghost var s := cells[..];
      var n, h := r - l + 1, b0 - t0 + 1;
      var y: int, t: int, b: int := y0, t0, b0;
      if y < t {
        while t <= b
          invariant t0 <= t <= b0 + 1 && y == y0 + (t - t0) && Valid()
          invariant Moved(s, cells[..], width, rows, y0, x, t0, l, n, 0, t - t0)
        {
          ghost var u := cells[..];
          MoveRow(y, x, t, l, n);
          OneRowDown(s, u, cells[..], width, rows, y0, x, t0, l, n, t - t0);
          t := t + 1;
          y := y + 1;
        }
      } else {
        y := y + (b - t);
        while t <= b
          invariant t0 - 1 <= b <= b0 && y == y0 + (b - t0) && Valid()
          invariant Moved(s, cells[..], width, rows, y0, x, t0, l, n, b - t0 + 1, h)
        {
          ghost var u := cells[..];
          MoveRow(y, x, b, l, n);
          OneRowUp(s, u, cells[..], width, rows, y0, x, t0, l, n, b - t0, h);
          b := b - 1;
          y := y - 1;
        }
      }
    }
  }

  /** Moving up, row by row from the top: the rows still to be read have not been written. */
  lemma OneRowDown(s: seq<Cell>, u: seq<Cell>, v: seq<Cell>, width: nat, rows: nat, y: nat, x: nat, t: nat, l: nat, n: nat, i: nat)
    requires Sized(s, width, rows) && Sized(u, width, rows) && Sized(v, width, rows)
    requires y < t && t + i < rows && l + n <= width && x + n <= width
    requires Moved(s, u, width, rows, y, x, t, l, n, 0, i) && RowMoved(u, v, width, rows, y + i, x, t + i, l, n)
    ensures Moved(s, v, width, rows, y, x, t, l, n, 0, i + 1)
  {
    hide At;
    hide Index;
    forall r: nat, c: nat | r < rows && c < width
      ensures At(v, width, r, c) ==
        if y + 0 <= r < y + i + 1 && x <= c < x + n then At(s, width, t + (r - y), l + (c - x)) else At(s, width, r, c)
    {
      if r == y + i && x <= c < x + n {
        assert At(v, width, r, c) == At(u, width, t + i, l + (c - x));
        assert At(u, width, t + i, l + (c - x)) == At(s, width, t + i, l + (c - x));
      } else {
        assert At(v, width, r, c) == At(u, width, r, c);
      }
    }
  }

  /** Moving down, row by row from the bottom; or sideways. */
  lemma OneRowUp(s: seq<Cell>, u: seq<Cell>, v: seq<Cell>, width: nat, rows: nat, y: nat, x: nat, t: nat, l: nat, n: nat, i: nat, h: nat)
    requires Sized(s, width, rows) && Sized(u, width, rows) && Sized(v, width, rows)
    requires t <= y && i < h && y + h <= rows && t + h <= rows && l + n <= width && x + n <= width
    requires Moved(s, u, width, rows, y, x, t, l, n, i + 1, h) && RowMoved(u, v, width, rows, y + i, x, t + i, l, n)
    ensures Moved(s, v, width, rows, y, x, t, l, n, i, h)
  {
    hide At;
    hide Index;
    forall r: nat, c: nat | r < rows && c < width
      ensures At(v, width, r, c) ==
        if y + i <= r < y + h && x <= c < x + n then At(s, width, t + (r - y), l + (c - x)) else At(s, width, r, c)
    {
      if r == y + i && x <= c < x + n {
        assert At(v, width, r, c) == At(u, width, t + i, l + (c - x));
        assert At(u, width, t + i, l + (c - x)) == At(s, width, t + i, l + (c - x));
      } else {
        assert At(v, width, r, c) == At(u, width, r, c);
      }
    }
  }
}
