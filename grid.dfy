/** The `UniformGrid` of bouncierApp.cpp: a uniform grid over the arena whose
    cells hold buckets of bodies. A body is named by its index in the array of
    bodies, so a bucket is a sequence of indices. */
module Grid {
  import opened Scalar
  import opened Vectors

  type Bucket = seq<nat>

  /** `(size_t)-1` on a 64-bit target: what `cellIndexOf` returns when no
      bucket holds the body. */
  const SizeMax: nat := 0xFFFF_FFFF_FFFF_FFFF

  // ---------------------------------------------------------------------
  // Bucket operations used by `update` (std::find and vector::erase)
  // ---------------------------------------------------------------------

  /** `find(s.begin(), s.end(), x)` as a position: the first occurrence of
      `x`, or `|s|` (the end iterator) when there is none. */
  function Find(s: Bucket, x: nat): (k: nat)
    ensures k <= |s|
    ensures k < |s| ==> s[k] == x
    ensures forall j :: 0 <= j < k ==> s[j] != x
  {
    if s == [] then 0
    else if s[0] == x then 0
    else 1 + Find(s[1..], x)
  }

  /** `find` reaches the end exactly when the element is absent. */
  lemma {:induction false} FindFinds(s: Bucket, x: nat)
    ensures Find(s, x) < |s| <==> x in s
  {
    if x in s {
      var i :| 0 <= i < |s| && s[i] == x;
      assert Find(s, x) <= i;
    }
  }

  /** `vector::erase` at position `k`: removes exactly that one element. */
  function EraseAt(s: Bucket, k: nat): (r: Bucket)
    requires k < |s|
    ensures |r| == |s| - 1
    ensures multiset(r) == multiset(s) - multiset{s[k]}
    ensures forall j :: 0 <= j < k ==> r[j] == s[j]
    ensures forall j :: k <= j < |r| ==> r[j] == s[j + 1]
  {
    assert s == s[..k] + [s[k]] + s[k + 1..];
    s[..k] + s[k + 1..]
  }

  // ---------------------------------------------------------------------
  // The bucket invariant
  // ---------------------------------------------------------------------

  /** Grid `g` keeps track of `n` bodies: body `k` appears exactly once in
      bucket `home[k]` and in no other bucket (a `home[k]` of `|g|` or more
      stands for "in no bucket"), and every entry of every bucket is a body. */
  ghost predicate Tracks(g: seq<Bucket>, n: nat, home: seq<nat>)
  {
    && |home| == n
    && (forall b, e :: 0 <= b < |g| && e in g[b] ==> e < n)
    && (forall b, k :: 0 <= b < |g| && 0 <= k < n ==>
          multiset(g[b])[k] == if b == home[k] then 1 else 0)
  }

  /** An empty grid tracks bodies that sit in no bucket. */
  lemma {:induction false} TracksEmpty(g: seq<Bucket>, n: nat, home: seq<nat>)
    requires forall b :: 0 <= b < |g| ==> g[b] == []
    requires |home| == n && forall k :: 0 <= k < n ==> home[k] >= |g|
    ensures Tracks(g, n, home)
  {
    forall b, k | 0 <= b < |g| && 0 <= k < n
      ensures multiset(g[b])[k] == if b == home[k] then 1 else 0
    {
      assert g[b] == [];
    }
  }

  /** A tracked body is in its home bucket and in no other one. */
  lemma {:induction false} TrackedInHomeOnly(g: seq<Bucket>, n: nat, home: seq<nat>, k: nat)
    requires Tracks(g, n, home) && k < n && home[k] < |g|
    ensures k in g[home[k]]
    ensures forall b :: 0 <= b < |g| && b != home[k] ==> k !in g[b]
  {
    assert multiset(g[home[k]])[k] == 1;
    forall b | 0 <= b < |g| && b != home[k] ensures k !in g[b] {
      assert multiset(g[b])[k] == 0;
    }
  }

  /** Erasing a tracked body from its home bucket, at the position `find`
      gives: `find` succeeds (the erase never receives the end iterator), and
      afterwards the body is in no bucket while all others are untouched. */
  lemma {:induction false} EraseKeeps(g: seq<Bucket>, n: nat, home: seq<nat>, id: nat)
    requires Tracks(g, n, home) && id < n && home[id] < |g|
    ensures Find(g[home[id]], id) < |g[home[id]]|
    ensures Tracks(g[home[id] := EraseAt(g[home[id]], Find(g[home[id]], id))], n, home[id := |g|])
  {
    var c := home[id];
    TrackedInHomeOnly(g, n, home, id);
    FindFinds(g[c], id);
    var k := Find(g[c], id);
    var g' := g[c := EraseAt(g[c], k)];
    var home' := home[id := |g|];
    assert multiset(g'[c]) == multiset(g[c]) - multiset{id};
    forall b, e | 0 <= b < |g'| && e in g'[b] ensures e < n {
      if b == c {
        assert e in multiset(g'[c]);
        assert e in g[c];
      }
    }
    forall b, j | 0 <= b < |g'| && 0 <= j < n
      ensures multiset(g'[b])[j] == if b == home'[j] then 1 else 0
    {
      if b == c {
        assert multiset(g'[b])[j] == multiset(g[b])[j] - (if j == id then 1 else 0);
      }
    }
  }

  /** Appending a body that is in no bucket to bucket `c` makes `c` its home. */
  lemma {:induction false} PutKeeps(g: seq<Bucket>, n: nat, home: seq<nat>, id: nat, c: nat)
    requires Tracks(g, n, home) && id < n && home[id] >= |g| && c < |g|
    ensures Tracks(g[c := g[c] + [id]], n, home[id := c])
  {
    var g' := g[c := g[c] + [id]];
    var home' := home[id := c];
    assert multiset(g'[c]) == multiset(g[c]) + multiset{id};
    forall b, e | 0 <= b < |g'| && e in g'[b] ensures e < n {
      if b == c {
        assert e in g[c] || e == id;
      }
    }
    forall b, j | 0 <= b < |g'| && 0 <= j < n
      ensures multiset(g'[b])[j] == if b == home'[j] then 1 else 0
    {
      if b == c {
        assert multiset(g'[b])[j] == multiset(g[b])[j] + (if j == id then 1 else 0);
      }
    }
  }

  /** The grid after body `id` leaves bucket `from` (at the position `find`
      gives) and is appended to bucket `to`: the erase-then-`put` passage
      `update` runs whenever a body may have changed cell. */
  function Moved(g: seq<Bucket>, id: nat, from: nat, to: nat): seq<Bucket>
    requires from < |g| && to < |g| && Find(g[from], id) < |g[from]|
  {
    var g' := g[from := EraseAt(g[from], Find(g[from], id))];
    g'[to := g'[to] + [id]]
  }
  /** What a move does to the buckets: the others are untouched, one `id`
      leaves `from`, and `id` becomes the last entry of `to`. */
  lemma MovedEffect(g: seq<Bucket>, id: nat, from: nat, to: nat)
    requires from < |g| && to < |g| && Find(g[from], id) < |g[from]|
    ensures |Moved(g, id, from, to)| == |g|
    ensures forall b :: 0 <= b < |g| && b != from && b != to ==> Moved(g, id, from, to)[b] == g[b]
    ensures from != to ==> multiset(Moved(g, id, from, to)[from]) == multiset(g[from]) - multiset{id}
    ensures from != to ==> Moved(g, id, from, to)[to] == g[to] + [id]
    ensures from == to ==> multiset(Moved(g, id, from, to)[to]) == multiset(g[to])
    ensures Moved(g, id, from, to)[to][|Moved(g, id, from, to)[to]| - 1] == id
  {
    var k := Find(g[from], id);
    if from == to {
      assert Moved(g, id, from, to)[to] == EraseAt(g[from], k) + [id];
      assert id in multiset(g[from]) by { assert g[from][k] == id; }
    }
  }


  /** Moving a tracked body from its home bucket to any bucket `to` keeps the
      grid tracking every body, with `to` as the body's new home; in
      particular `find` always succeeds, so the erase is always defined. */
  lemma {:induction false} MovedKeeps(g: seq<Bucket>, n: nat, home: seq<nat>, id: nat, to: nat)
    requires Tracks(g, n, home) && id < n && home[id] < |g| && to < |g|
    ensures Find(g[home[id]], id) < |g[home[id]]|
    ensures Tracks(Moved(g, id, home[id], to), n, home[id := to])
  {
    EraseKeeps(g, n, home, id);
    var from := home[id];
    var g' := g[from := EraseAt(g[from], Find(g[from], id))];
    PutKeeps(g', n, home[id := |g|], id, to);
    assert home[id := |g|][id := to] == home[id := to];
  }

  /** All bucket contents, bucket after bucket. */
  function Flatten(g: seq<Bucket>): seq<nat>
  {
    if g == [] then [] else Flatten(g[..|g| - 1]) + g[|g| - 1]
  }

  /** `[0, 1, ..., n-1]`. */
  function Range(n: nat): (r: seq<nat>)
    ensures |r| == n
  {
    if n == 0 then [] else Range(n - 1) + [n - 1]
  }

  lemma {:induction false} RangeCounts(n: nat, e: nat)
    ensures multiset(Range(n))[e] == if e < n then 1 else 0
  {
    if n > 0 {
      RangeCounts(n - 1, e);
    }
  }

  lemma {:induction false} FlattenCounts(g: seq<Bucket>, n: nat, home: seq<nat>, m: nat, e: nat)
    requires Tracks(g, n, home) && m <= |g|
    ensures multiset(Flatten(g[..m]))[e] == if e < n && home[e] < m then 1 else 0
  {
    if m > 0 {
      FlattenCounts(g, n, home, m - 1, e);
      assert g[..m][..m - 1] == g[..m - 1];
      assert Flatten(g[..m]) == Flatten(g[..m - 1]) + g[m - 1];
      if e >= n {
        assert e !in g[m - 1];
      }
    }
  }

  /** When every body has a home bucket, the buckets hold exactly the bodies
      `0 .. n-1`, each once: there are `n` entries in all. */
  lemma {:induction false} TrackedGridHoldsEachBodyOnce(g: seq<Bucket>, n: nat, home: seq<nat>)
    requires Tracks(g, n, home)
    requires forall k :: 0 <= k < n ==> home[k] < |g|
    ensures multiset(Flatten(g)) == multiset(Range(n))
    ensures |Flatten(g)| == n
  {
    assert g[..|g|] == g;
    forall e: nat ensures multiset(Flatten(g))[e] == multiset(Range(n))[e] {
      FlattenCounts(g, n, home, |g|, e);
      RangeCounts(n, e);
    }
    assert multiset(Flatten(g)) == multiset(Range(n));
    calc {
      |Flatten(g)|;
      |multiset(Flatten(g))|;
      |multiset(Range(n))|;
      |Range(n)|;
    }
  }

  // ---------------------------------------------------------------------
  // Rectangular ranges of cells
  // ---------------------------------------------------------------------

  lemma IndexInRange(cols: nat, rows: nat, c: nat, r: nat)
    requires c < cols && r < rows
    ensures cols * r + c < cols * rows
  {
    var k := cols * r;
    assert k + cols == cols * (r + 1);
    assert cols * (r + 1) <= cols * rows;
  }

  /** Body `e` is in the bucket of column `c`, row `r`. */
  predicate InCell(g: seq<Bucket>, cols: nat, c: nat, r: nat, e: nat)
  {
    cols * r + c < |g| && e in g[cols * r + c]
  }

  /** The buckets of column `c`, rows `ymin .. yend-1`, in row order. */
  function ColumnRun(g: seq<Bucket>, cols: nat, rows: nat, c: nat, ymin: nat, yend: nat): seq<nat>
    requires |g| == cols * rows && c < cols && yend <= rows
    decreases yend
  {
    if yend <= ymin then []
    else
      IndexInRange(cols, rows, c, yend - 1);
      ColumnRun(g, cols, rows, c, ymin, yend - 1) + g[cols * (yend - 1) + c]
  }

  /** The column runs of columns `xmin .. xend-1`, in column order: the cells
      of a rectangle, column by column. */
  function RectRun(g: seq<Bucket>, cols: nat, rows: nat, xmin: nat, xend: nat, ymin: nat, yend: nat): seq<nat>
    requires |g| == cols * rows && xend <= cols && yend <= rows
    decreases xend
  {
    if xend <= xmin then []
    else RectRun(g, cols, rows, xmin, xend - 1, ymin, yend) + ColumnRun(g, cols, rows, xend - 1, ymin, yend)
  }

  /** Body `e` is in one of the cells of column `c`, rows `ymin .. yend-1`. */
  predicate InColumn(g: seq<Bucket>, cols: nat, c: nat, ymin: nat, yend: nat, e: nat)
  {
    exists r :: ymin <= r < yend && InCell(g, cols, c, r, e)
  }

  /** Body `e` is in one of the cells of columns `xmin .. xend-1`, rows
      `ymin .. yend-1`. */
  predicate InRect(g: seq<Bucket>, cols: nat, xmin: nat, xend: nat, ymin: nat, yend: nat, e: nat)
  {
    exists c, r :: xmin <= c < xend && ymin <= r < yend && InCell(g, cols, c, r, e)
  }

  lemma {:induction false} ColumnRunMembers(g: seq<Bucket>, cols: nat, rows: nat, c: nat, ymin: nat, yend: nat, e: nat)
    requires |g| == cols * rows && c < cols && yend <= rows
    ensures e in ColumnRun(g, cols, rows, c, ymin, yend) <==> InColumn(g, cols, c, ymin, yend, e)
    decreases yend
  {
    if yend > ymin {
      ColumnRunMembers(g, cols, rows, c, ymin, yend - 1, e);
      IndexInRange(cols, rows, c, yend - 1);
      if e in g[cols * (yend - 1) + c] {
        assert InCell(g, cols, c, yend - 1, e);
      }
    }
  }

  /** A body is in the rectangle's run exactly when it is in one of the
      rectangle's cells. */
  lemma {:induction false} RectRunMembers(g: seq<Bucket>, cols: nat, rows: nat, xmin: nat, xend: nat, ymin: nat, yend: nat, e: nat)
    requires |g| == cols * rows && xend <= cols && yend <= rows
    ensures e in RectRun(g, cols, rows, xmin, xend, ymin, yend) <==> InRect(g, cols, xmin, xend, ymin, yend, e)
    decreases xend
  {
    if xend > xmin {
      RectRunMembers(g, cols, rows, xmin, xend - 1, ymin, yend, e);
      ColumnRunMembers(g, cols, rows, xend - 1, ymin, yend, e);
      RectRunStep(g, cols, rows, xmin, xend, ymin, yend, e);
    }
  }

  /** The induction step of `RectRunMembers`: a cell of the rectangle is in
      its last column or in the rectangle without that column. */
  lemma RectRunStep(g: seq<Bucket>, cols: nat, rows: nat, xmin: nat, xend: nat, ymin: nat, yend: nat, e: nat)
    requires |g| == cols * rows && xmin < xend <= cols && yend <= rows
    requires e in RectRun(g, cols, rows, xmin, xend - 1, ymin, yend) <==> InRect(g, cols, xmin, xend - 1, ymin, yend, e)
    requires e in ColumnRun(g, cols, rows, xend - 1, ymin, yend) <==> InColumn(g, cols, xend - 1, ymin, yend, e)
    ensures e in RectRun(g, cols, rows, xmin, xend, ymin, yend) <==> InRect(g, cols, xmin, xend, ymin, yend, e)
  {
    var left := RectRun(g, cols, rows, xmin, xend - 1, ymin, yend);
    var last := ColumnRun(g, cols, rows, xend - 1, ymin, yend);
    assert RectRun(g, cols, rows, xmin, xend, ymin, yend) == left + last;
    if e in last {
      var r :| ymin <= r < yend && InCell(g, cols, xend - 1, r, e);
      assert xmin <= xend - 1 < xend;
    }
    if c, r :| xmin <= c < xend && ymin <= r < yend && InCell(g, cols, c, r, e) {
      if c < xend - 1 {
        assert e in left;
      } else {
        assert e in last;
      }
    }
  }

  /** A rectangle's run holds only entries of the grid's buckets: when those
      entries are bodies, so are the run's. */
  lemma {:induction false} RectRunBounded(g: seq<Bucket>, cols: nat, rows: nat, xmin: nat, xend: nat, ymin: nat, yend: nat, n: nat)
    requires |g| == cols * rows && xend <= cols && yend <= rows
    requires forall b, e :: 0 <= b < |g| && e in g[b] ==> e < n
    ensures forall e :: e in RectRun(g, cols, rows, xmin, xend, ymin, yend) ==> e < n
  {
    forall e | e in RectRun(g, cols, rows, xmin, xend, ymin, yend) ensures e < n {
      RectRunMembers(g, cols, rows, xmin, xend, ymin, yend, e);
      var c, r :| xmin <= c < xend && ymin <= r < yend && InCell(g, cols, c, r, e);
    }
  }

  // ---------------------------------------------------------------------
  // The grid object
  // ---------------------------------------------------------------------

  class UniformGrid {
    const worldWidth: real
    const worldHeight: real
    const cols: nat
    const rows: nat
    const cellWidth: real
    const cellHeight: real
    /** The `rows * cols` buckets, row by row; the vector of buckets never
        changes size, only the buckets do. */
    const grid: array<Bucket>

    ghost predicate Valid()
    {
      && cols > 0 && rows > 0
      && worldWidth > 0.0 && worldHeight > 0.0
      && cellWidth == worldWidth / cols as real
      && cellHeight == worldHeight / rows as real
      && grid.Length == cols * rows
    }

    constructor (worldWidth: real, worldHeight: real, cols: nat, rows: nat)
      requires worldWidth > 0.0 && worldHeight > 0.0 && cols > 0 && rows > 0
      ensures Valid() && fresh(grid)
      ensures this.worldWidth == worldWidth && this.worldHeight == worldHeight
      ensures this.cols == cols && this.rows == rows
      ensures forall b :: 0 <= b < grid.Length ==> grid[b] == []
    {
      this.worldWidth := worldWidth;
      this.worldHeight := worldHeight;
      this.cols := cols;
      this.rows := rows;
      cellWidth := worldWidth / cols as real;
      cellHeight := worldHeight / rows as real;
      grid := new Bucket[rows * cols](_ => []);
    }

    /** `cellWidth()`: the cell width converted to `size_t`, which truncates. */
    function CellWidthSize(): (w: nat)
      requires Valid()
      ensures w as real <= cellWidth < w as real + 1.0
    {
      cellWidth.Floor
    }

    /** `cellHeight()`, truncated the same way. */
    function CellHeightSize(): (h: nat)
      requires Valid()
      ensures h as real <= cellHeight < h as real + 1.0
    {
      cellHeight.Floor
    }

    /** `getCellIndex(c, r)`: the flat index of a cell. The source asserts
        that the index is in range; here that is the precondition. */
    function CellIndex(c: nat, r: nat): (index: nat)
      requires Valid() && cols * r + c < cols * rows
      ensures index < grid.Length
      ensures c < cols ==> index / cols == r && index % cols == c
    {
      var index := cols * r + c;
      if c < cols then DivModUnique(index, cols, r, c); index else index
    }

    /** The column that `getCellIndexForPosition` picks for abscissa `x`:
        `floor(x / cell_width)` clamped into `[0, cols-1]`. */
    function Column(x: real): (c: nat)
      requires Valid()
      ensures c < cols
      ensures 0 <= (x / cellWidth).Floor < cols ==> c == (x / cellWidth).Floor
      // Left of the grid maps to the first column, right of it to the last.
      ensures (x / cellWidth).Floor < 0 ==> c == 0
      ensures cols <= (x / cellWidth).Floor ==> c == cols - 1
    {
      Clamp((x / cellWidth).Floor, 0, cols - 1)
    }

    /** The row that `getCellIndexForPosition` picks for ordinate `y`. */
    function Row(y: real): (r: nat)
      requires Valid()
      ensures r < rows
      ensures 0 <= (y / cellHeight).Floor < rows ==> r == (y / cellHeight).Floor
      ensures (y / cellHeight).Floor < 0 ==> r == 0
      ensures rows <= (y / cellHeight).Floor ==> r == rows - 1
    {
      Clamp((y / cellHeight).Floor, 0, rows - 1)
    }

    /** `getCellIndexForPosition(x, y)`: always a valid cell, whatever `x` and
        `y` are, so the assertion of `getCellIndex` always holds. */
    function CellIndexForPosition(x: real, y: real): (index: nat)
      requires Valid()
      ensures index < grid.Length
      ensures index % cols == Column(x) && index / cols == Row(y)
    {
      IndexInRange(cols, rows, Column(x), Row(y));
      CellIndex(Column(x), Row(y))
    }

    /** `put(c)`: appends body `id` to the bucket for its centre and changes
        no other bucket. */
    method Put(id: nat, center: Vector2)
      requires Valid()
      modifies grid
      ensures var b := CellIndexForPosition(center.x, center.y);
        grid[..] == old(grid[..])[b := old(grid[b]) + [id]]
    {
      var b := CellIndexForPosition(center.x, center.y);
      grid[b] := grid[b] + [id];
    }

    /** `cellIndexOf(c)`: the first bucket that holds body `id`, or `SizeMax`
        when none does. */
    method CellIndexOf(id: nat) returns (i: nat)
      ensures (exists b :: 0 <= b < grid.Length && id in grid[b]) ==>
        i < grid.Length && id in grid[i] && forall b :: 0 <= b < i ==> id !in grid[b]
      ensures (forall b :: 0 <= b < grid.Length ==> id !in grid[b]) ==> i == SizeMax
      // On a grid of at most `SizeMax` buckets, that result is no bucket.
      ensures (forall b :: 0 <= b < grid.Length ==> id !in grid[b]) && grid.Length <= SizeMax ==> i >= grid.Length
    {
      var b := 0;
      while b < grid.Length
        invariant 0 <= b <= grid.Length
        invariant forall b' :: 0 <= b' < b ==> id !in grid[b']
      {
        var j := 0;
        while j < |grid[b]|
          invariant 0 <= j <= |grid[b]|
          invariant id !in grid[b][..j]
        {
          if grid[b][j] == id {
            return b;
          }
          j := j + 1;
        }
        assert grid[b][..j] == grid[b];
        b := b + 1;
      }
      return SizeMax;
    }

    /** The column bound of `getObjectsInRect`, which truncates rather than
        floors: after clamping it is the column `getCellIndexForPosition`
        picks. */
    function QueryColumn(x: real): (c: nat)
      requires Valid()
      ensures c == Column(x)
    {
      ClampTruncIsClampFloor(x / cellWidth, cols - 1);
      Clamp(Trunc(x / cellWidth), 0, cols - 1)
    }

    /** The row bound of `getObjectsInRect`. */
    function QueryRow(y: real): (r: nat)
      requires Valid()
      ensures r == Row(y)
    {
      ClampTruncIsClampFloor(y / cellHeight, rows - 1);
      Clamp(Trunc(y / cellHeight), 0, rows - 1)
    }

    /** `getObjectsInRect(centerX, centerY, w, h)`: the buckets of every cell
        whose column lies between those of the rectangle's left and right
        edges and whose row lies between those of its top and bottom edges,
        concatenated column by column and, within a column, row by row. The
        source truncates where `getCellIndexForPosition` floors; after
        clamping the two agree, so the bounds are `Column` and `Row` of the
        edges. */
    method GetObjectsInRect(centerX: real, centerY: real, w: real, h: real) returns (ret: seq<nat>)
      requires Valid()
      ensures ret == RectRun(grid[..], cols, rows,
                             Column(centerX - w * 0.5), Column(centerX + w * 0.5) + 1,
                             Row(centerY - h * 0.5), Row(centerY + h * 0.5) + 1)
    {
      var hw := w * 0.5;
      var hh := h * 0.5;
      var xMin := QueryColumn(centerX - hw);
      var xMax := QueryColumn(centerX + hw);
      var yMin := QueryRow(centerY - hh);
      var yMax := QueryRow(centerY + hh);
      ghost var g := grid[..];
      ret := [];
      var c := xMin;
      while c <= xMax
        invariant xMin <= c && (c <= xMax + 1 || c == xMin)
        invariant ret == RectRun(g, cols, rows, xMin, c, yMin, yMax + 1)
      {
        var r := yMin;
        while r <= yMax
          invariant yMin <= r && (r <= yMax + 1 || r == yMin)
          invariant ret == RectRun(g, cols, rows, xMin, c, yMin, yMax + 1)
                         + ColumnRun(g, cols, rows, c, yMin, r)
        {
          IndexInRange(cols, rows, c, r);
          var cell := grid[CellIndex(c, r)];
          ret := ret + cell;
          r := r + 1;
        }
        c := c + 1;
      }
    }

    /** Every point of the rectangle `[centerX - w/2, centerX + w/2] x
        [centerY - h/2, centerY + h/2]` lies in a cell that
        `GetObjectsInRect` reads. */
    lemma {:induction false} RectCoversPoint(centerX: real, centerY: real, w: real, h: real, p: Vector2)
      requires Valid()
      requires centerX - w * 0.5 <= p.x <= centerX + w * 0.5
      requires centerY - h * 0.5 <= p.y <= centerY + h * 0.5
      ensures Column(centerX - w * 0.5) <= Column(p.x) <= Column(centerX + w * 0.5)
      ensures Row(centerY - h * 0.5) <= Row(p.y) <= Row(centerY + h * 0.5)
    {
      DivideMonotone(centerX - w * 0.5, p.x, cellWidth);
      DivideMonotone(p.x, centerX + w * 0.5, cellWidth);
      DivideMonotone(centerY - h * 0.5, p.y, cellHeight);
      DivideMonotone(p.y, centerY + h * 0.5, cellHeight);
      FloorMonotone((centerX - w * 0.5) / cellWidth, p.x / cellWidth);
      FloorMonotone(p.x / cellWidth, (centerX + w * 0.5) / cellWidth);
      FloorMonotone((centerY - h * 0.5) / cellHeight, p.y / cellHeight);
      FloorMonotone(p.y / cellHeight, (centerY + h * 0.5) / cellHeight);
      ClampMonotone(((centerX - w * 0.5) / cellWidth).Floor, (p.x / cellWidth).Floor, 0, cols - 1);
      ClampMonotone((p.x / cellWidth).Floor, ((centerX + w * 0.5) / cellWidth).Floor, 0, cols - 1);
      ClampMonotone(((centerY - h * 0.5) / cellHeight).Floor, (p.y / cellHeight).Floor, 0, rows - 1);
      ClampMonotone((p.y / cellHeight).Floor, ((centerY + h * 0.5) / cellHeight).Floor, 0, rows - 1);
    }

    /** `getObjectsInRect` sees every body filed under the cell of any point
        of the rectangle. */
    lemma {:induction false} RectQuerySeesPoint(centerX: real, centerY: real, w: real, h: real, p: Vector2, e: nat)
      requires Valid()
      requires centerX - w * 0.5 <= p.x <= centerX + w * 0.5
      requires centerY - h * 0.5 <= p.y <= centerY + h * 0.5
      requires e in grid[CellIndexForPosition(p.x, p.y)]
      ensures e in RectRun(grid[..], cols, rows,
                           Column(centerX - w * 0.5), Column(centerX + w * 0.5) + 1,
                           Row(centerY - h * 0.5), Row(centerY + h * 0.5) + 1)
    {
      RectCoversPoint(centerX, centerY, w, h, p);
      var c, r := Column(p.x), Row(p.y);
      assert CellIndexForPosition(p.x, p.y) == cols * r + c;
      assert InCell(grid[..], cols, c, r, e);
      RectRunMembers(grid[..], cols, rows,
                     Column(centerX - w * 0.5), Column(centerX + w * 0.5) + 1,
                     Row(centerY - h * 0.5), Row(centerY + h * 0.5) + 1, e);
    }

    /** Query completeness: when the cell sizes are whole numbers, so that
        `cellWidth()` and `cellHeight()` lose nothing to truncation, the query
        `update` makes around a point `p` of the arena (a rectangle two cell
        widths by two cell heights, centred on `p`) reads the bucket of every
        cell in the 3 x 3 block around p's cell that lies inside the grid. */
    lemma {:induction false} NeighbourhoodQuery(p: Vector2, c: nat, r: nat, e: nat)
      requires Valid()
      requires cellWidth == CellWidthSize() as real && cellHeight == CellHeightSize() as real
      requires 0.0 <= p.x < worldWidth && 0.0 <= p.y < worldHeight
      requires c < cols && Column(p.x) <= c + 1 && c <= Column(p.x) + 1
      requires r < rows && Row(p.y) <= r + 1 && r <= Row(p.y) + 1
      requires InCell(grid[..], cols, c, r, e)
      ensures var w, h := (CellWidthSize() * 2) as real, (CellHeightSize() * 2) as real;
        e in RectRun(grid[..], cols, rows,
                     Column(p.x - w * 0.5), Column(p.x + w * 0.5) + 1,
                     Row(p.y - h * 0.5), Row(p.y + h * 0.5) + 1)
    {
      var w, h := (CellWidthSize() * 2) as real, (CellHeightSize() * 2) as real;
      assert p.x - w * 0.5 == p.x - cellWidth && p.x + w * 0.5 == p.x + cellWidth;
      assert p.y - h * 0.5 == p.y - cellHeight && p.y + h * 0.5 == p.y + cellHeight;
      ColumnNeighbours(p.x, c);
      RowNeighbours(p.y, r);
      var x0, x1 := Column(p.x - w * 0.5), Column(p.x + w * 0.5);
      var y0, y1 := Row(p.y - h * 0.5), Row(p.y + h * 0.5);
      RectRunMembers(grid[..], cols, rows, x0, x1 + 1, y0, y1 + 1, e);
    }

    /** Why `NeighbourhoodQuery` needs whole cell sizes: with an arena 19
        wide in 10 columns the cells are 1.9 wide but `cellWidth()` is 1, and
        the query around abscissa 11.3 (column 5) starts at column 5, so it
        misses the neighbouring column 4. */
    lemma TruncatedWindowMissesNeighbour()
      requires Valid() && worldWidth == 19.0 && cols == 10
      ensures CellWidthSize() == 1
      ensures Column(11.3) == 5
      ensures Column(11.3 - (CellWidthSize() * 2) as real * 0.5) == 5
    {
      assert cellWidth == 1.9;
      assert 11.3 / cellWidth == 113.0 / 19.0;
      assert 10.3 / cellWidth == 103.0 / 19.0;
    }

    /** The columns of `x - cellWidth` and `x + cellWidth` enclose the
        columns next to that of an abscissa `x` of the arena. */
    lemma ColumnNeighbours(x: real, c: nat)
      requires Valid() && 0.0 <= x < worldWidth
      requires c < cols && Column(x) <= c + 1 && c <= Column(x) + 1
      ensures Column(x - cellWidth) <= c <= Column(x + cellWidth)
    {
      DivideExact(worldWidth, cols as real, cellWidth);
      NeighbourRange(x, cellWidth, worldWidth, cols, c);
    }

    /** The rows of `y - cellHeight` and `y + cellHeight` enclose the rows
        next to that of an ordinate `y` of the arena. */
    lemma RowNeighbours(y: real, r: nat)
      requires Valid() && 0.0 <= y < worldHeight
      requires r < rows && Row(y) <= r + 1 && r <= Row(y) + 1
      ensures Row(y - cellHeight) <= r <= Row(y + cellHeight)
    {
      DivideExact(worldHeight, rows as real, cellHeight);
      NeighbourRange(y, cellHeight, worldHeight, rows, r);
    }
  }

  /** One axis of `NeighbourhoodQuery`: for `x` in `[0, extent)`, with `s`
      the cell size, the clamped cells of `x - s` and `x + s` enclose every
      cell next to that of `x`. */
  lemma NeighbourRange(x: real, s: real, extent: real, k: nat, c: nat)
    requires 0 < k && s > 0.0 && extent == s * k as real && 0.0 <= x < extent
    requires c < k && Clamp((x / s).Floor, 0, k - 1) <= c + 1 && c <= Clamp((x / s).Floor, 0, k - 1) + 1
    ensures Clamp(((x - s) / s).Floor, 0, k - 1) <= c <= Clamp(((x + s) / s).Floor, 0, k - 1)
  {
    NeighbourCells(x, s, k);
  }

  /** For `x` in `[0, s * k)`, shifting `x` by one cell size `s` either way
      shifts its cell by one, and its cell is one of the `k`. */
  lemma NeighbourCells(x: real, s: real, k: nat)
    requires s > 0.0 && 0.0 <= x < s * k as real
    ensures 0 <= (x / s).Floor < k
    ensures ((x - s) / s).Floor == (x / s).Floor - 1
    ensures ((x + s) / s).Floor == (x / s).Floor + 1
  {
    var q := x / s;
    DivideExact(x, s, q);
    DivideExact(x - s, s, q - 1.0);
    DivideExact(x + s, s, q + 1.0);
    DivideStrict(x, s * k as real, s);
    DivideExact(s * k as real, s, k as real);
  }

  lemma DivideStrict(a: real, b: real, s: real)
    requires a < b && s > 0.0
    ensures a / s < b / s
  {
  }

  lemma DivideExact(z: real, s: real, y: real)
    requires s != 0.0 && (y * s == z || z / s == y)
    ensures z / s == y && y * s == z
  {
  }

  lemma DivideMonotone(a: real, b: real, s: real)
    requires a <= b && s > 0.0
    ensures a / s <= b / s
  {
  }

  /** An index written as `q * d + m` with `m < d` divides back to `q` and `m`. */
  lemma DivModUnique(index: nat, d: nat, q: nat, m: nat)
    requires 0 < d && m < d && index == d * q + m
    ensures index / d == q && index % d == m
  {
    var q', m' := index / d, index % d;
    assert d * q' + m' == d * q + m;
    MultipleBounds(d, q' - q);
    assert d * (q' - q) == d * q' - d * q;
  }

  /** A nonzero multiple of `d` is at least `d` away from zero. */
  lemma MultipleBounds(d: int, k: int)
    requires 0 < d
    ensures k >= 1 ==> d * k >= d
    ensures k <= -1 ==> d * k <= -d
  {
    if k >= 1 {
      assert d * k == d + d * (k - 1);
    } else if k <= -1 {
      assert d * k == -d + d * (k + 1);
      assert d * (-(k + 1)) >= 0;
    }
  }
}
