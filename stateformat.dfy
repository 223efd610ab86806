/**
 * The text format of saved states: the bounding rectangle of the tracked
 * entities (GameManager.getEntityBounds), the grid of '0' and '#' rows that
 * saveStateToFile writes, and the entities that loadStateFromFile reads back from
 * such lines. File access itself is not modelled: save yields the lines, load
 * is given the outcome of reading them.
 */
module StateFormat {
  import opened Vectors
  import opened Passes

  /** java.awt.Rectangle as used by getEntityBounds: a corner and the extents. */
  datatype Rectangle = Rectangle(x: int, y: int, width: int, height: int)

  /** The outcome of Files.readAllLines: the lines of the file, or an I/O error. */
  datatype ReadResult = Lines(lines: seq<string>) | IOError

  // ---------------------------------------------------------------------------
  // Bounds

  function Xs(cs: seq<Cell>): (xs: seq<int>)
    ensures |xs| == |cs| && forall k :: 0 <= k < |cs| ==> xs[k] == cs[k].position.x
  {
    seq(|cs|, k requires 0 <= k < |cs| => cs[k].position.x)
  }

  function Ys(cs: seq<Cell>): (ys: seq<int>)
    ensures |ys| == |cs| && forall k :: 0 <= k < |cs| ==> ys[k] == cs[k].position.y
  {
    seq(|cs|, k requires 0 <= k < |cs| => cs[k].position.y)
  }

  /**
   * The first pass of getEntityBounds over the first n coordinates: start from
   * the first one and take any smaller one.
   */
  function MinUpTo(xs: seq<int>, n: nat): int
    requires 0 < |xs| && n <= |xs|
  {
    if n == 0 then xs[0]
    else
      var m := MinUpTo(xs, n - 1);
      if xs[n - 1] < m then xs[n - 1] else m
  }

  /**
   * The second pass over the first n coordinates: start from extent 0 and take
   * any larger distance from base.
   */
  function SpanUpTo(xs: seq<int>, base: int, n: nat): (w: int)
    requires n <= |xs|
    ensures 0 <= w
  {
    if n == 0 then 0
    else
      var w := SpanUpTo(xs, base, n - 1);
      if xs[n - 1] - base > w then xs[n - 1] - base else w
  }

  /** The first pass yields a lower bound of the coordinates seen that is one of them. */
  lemma {:induction false} MinUpToIsLeast(xs: seq<int>, n: nat)
    requires 0 < |xs| && 0 < n <= |xs|
    ensures forall k :: 0 <= k < n ==> MinUpTo(xs, n) <= xs[k]
    ensures exists k :: 0 <= k < n && xs[k] == MinUpTo(xs, n)
  {
    if n > 1 {
      MinUpToIsLeast(xs, n - 1);
      if xs[n - 1] >= MinUpTo(xs, n - 1) {
        var k :| 0 <= k < n - 1 && xs[k] == MinUpTo(xs, n - 1);
        assert xs[k] == MinUpTo(xs, n);
      }
    }
  }

  /**
   * When no coordinate seen is below base, the second pass yields the greatest
   * distance from base, attained by one of them.
   */
  lemma {:induction false} SpanUpToIsGreatest(xs: seq<int>, base: int, n: nat)
    requires 0 < n <= |xs|
    requires forall k :: 0 <= k < n ==> base <= xs[k]
    ensures forall k :: 0 <= k < n ==> xs[k] - base <= SpanUpTo(xs, base, n)
    ensures exists k :: 0 <= k < n && xs[k] - base == SpanUpTo(xs, base, n)
  {
    var w := SpanUpTo(xs, base, n);
    if n == 1 {
      assert SpanUpTo(xs, base, 0) == 0;
    } else {
      SpanUpToIsGreatest(xs, base, n - 1);
      if xs[n - 1] - base <= SpanUpTo(xs, base, n - 1) {
        var k :| 0 <= k < n - 1 && xs[k] - base == SpanUpTo(xs, base, n - 1);
        assert xs[k] - base == w;
      }
    }
  }

  /**
   * getEntityBounds as a value: (0, 0, 0, 0) for an empty list, otherwise
   * the two passes over the coordinates of all entries.
   */
  function Bounds(cs: seq<Cell>): (b: Rectangle)
    ensures 0 <= b.width && 0 <= b.height
  {
    if |cs| == 0 then Rectangle(0, 0, 0, 0)
    else
      var x, y := MinUpTo(Xs(cs), |cs|), MinUpTo(Ys(cs), |cs|);
      Rectangle(x, y, SpanUpTo(Xs(cs), x, |cs|), SpanUpTo(Ys(cs), y, |cs|))
  }

  /**
   * Bounds is the smallest rectangle covering the positions of all entries,
   * dead ones included: each of its four sides touches an entry. A single
   * entry gives extents 0.
   */
  lemma BoundsIsSmallestCover(cs: seq<Cell>)
    ensures var b := Bounds(cs);
      && (|cs| == 0 ==> b == Rectangle(0, 0, 0, 0))
      && b.width >= 0 && b.height >= 0
      && (forall k :: 0 <= k < |cs| ==>
            b.x <= cs[k].position.x <= b.x + b.width && b.y <= cs[k].position.y <= b.y + b.height)
      && (|cs| > 0 ==> exists k :: 0 <= k < |cs| && cs[k].position.x == b.x)
      && (|cs| > 0 ==> exists k :: 0 <= k < |cs| && cs[k].position.y == b.y)
      && (|cs| > 0 ==> exists k :: 0 <= k < |cs| && cs[k].position.x == b.x + b.width)
      && (|cs| > 0 ==> exists k :: 0 <= k < |cs| && cs[k].position.y == b.y + b.height)
  {
    if |cs| > 0 {
      var xs, ys := Xs(cs), Ys(cs);
      MinUpToIsLeast(xs, |cs|);
      MinUpToIsLeast(ys, |cs|);
      SpanUpToIsGreatest(xs, MinUpTo(xs, |cs|), |cs|);
      SpanUpToIsGreatest(ys, MinUpTo(ys, |cs|), |cs|);
    }
  }

  // ---------------------------------------------------------------------------
  // Save

  /** The board position under column q.x of row q.y of a grid whose corner is that of b. */
  function OnBoard(b: Rectangle, q: Vector2D): (p: Vector2D)
    ensures p.Add(-b.x, -b.y) == q
  {
    Vector2D(b.x + q.x, b.y + q.y)
  }

  /**
   * state has b.height + 1 rows of b.width + 1 characters, with '#' at row r,
   * column c exactly when the position (b.x + c, b.y + r) is in live, and '0'
   * elsewhere.
   */
  predicate GridOf(state: seq<string>, b: Rectangle, live: set<Vector2D>)
  {
    && |state| == b.height + 1
    && forall r :: 0 <= r < |state| ==>
         && |state[r]| == b.width + 1
         && forall c :: 0 <= c < |state[r]| ==>
              state[r][c] == if OnBoard(b, Vector2D(c, r)) in live then '#' else '0'
  }

  /** The rows saveStateToFile writes for cs: the grid over the bounds of cs showing its live set. */
  predicate SavedGrid(lines: seq<string>, cs: seq<Cell>)
    ensures SavedGrid(lines, cs) ==>
              |lines| == Bounds(cs).height + 1 &&
              forall r :: 0 <= r < |lines| ==> |lines[r]| == Bounds(cs).width + 1
  {
    GridOf(lines, Bounds(cs), LiveSet(cs))
  }

  /** Rows of '0' only show the empty set. */
  lemma BlankGrid(state: seq<string>, b: Rectangle)
    requires |state| == b.height + 1
    requires forall r :: 0 <= r < |state| ==> |state[r]| == b.width + 1
    requires forall r, c :: 0 <= r < |state| && 0 <= c < |state[r]| ==> state[r][c] == '0'
    ensures GridOf(state, b, {})
  {
  }

  /** Writing '#' at the cell of p shows p in addition. */
  lemma MarkGrid(state: seq<string>, b: Rectangle, live: set<Vector2D>, p: Vector2D)
    requires GridOf(state, b, live)
    requires 0 <= p.y - b.y < |state| && 0 <= p.x - b.x < |state[p.y - b.y]|
    ensures var row := p.y - b.y;
      GridOf(state[row := state[row][p.x - b.x := '#']], b, live + {p})
  {
    var row, col := p.y - b.y, p.x - b.x;
    var marked := state[row := state[row][col := '#']];
    forall r, c | 0 <= r < |marked| && 0 <= c < |marked[r]|
      ensures marked[r][c] == if OnBoard(b, Vector2D(c, r)) in live + {p} then '#' else '0'
    {
      if (r, c) != (row, col) {
        assert OnBoard(b, Vector2D(c, r)) != p;
      }
    }
  }

  // ---------------------------------------------------------------------------
  // Load

  /** A '#' stands at line p.y, column p.x. */
  predicate HashAt(lines: seq<string>, p: Vector2D)
  {
    0 <= p.y < |lines| && 0 <= p.x < |lines[p.y]| && lines[p.y][p.x] == '#'
  }

  /** The live entries added for the '#' among the first j characters of line number row. */
  function ScanLine(line: string, row: int, j: nat): (r: seq<Cell>)
    requires j <= |line|
    ensures |r| <= j
  {
    if j == 0 then []
    else ScanLine(line, row, j - 1) + (if line[j - 1] == '#' then [Cell(Vector2D(j - 1, row), true, 0)] else [])
  }

  /** The live entries added for the first n lines, in reading order. */
  function ScanLines(lines: seq<string>, n: nat): seq<Cell>
    requires n <= |lines|
  {
    if n == 0 then []
    else ScanLines(lines, n - 1) + ScanLine(lines[n - 1], n - 1, |lines[n - 1]|)
  }

  /** Scanning a line yields one live entry with count 0 per '#' seen so far, at its column. */
  lemma {:induction false} ScanLineMembers(line: string, row: int, j: nat)
    requires j <= |line|
    ensures var r := ScanLine(line, row, j);
      && (forall c :: c in r <==>
            c.alive && c.count == 0 && c.position.y == row &&
            0 <= c.position.x < j && line[c.position.x] == '#')
      && UniquePositions(r)
  {
    if j > 0 {
      ScanLineMembers(line, row, j - 1);
      var init := ScanLine(line, row, j - 1);
      assert forall k :: 0 <= k < |init| ==> init[k] in init;
    }
  }

  /** Scanning the first n lines yields one live entry with count 0 per '#' in them. */
  lemma {:induction false} ScanLinesMembers(lines: seq<string>, n: nat)
    requires n <= |lines|
    ensures var r := ScanLines(lines, n);
      && (forall c :: c in r <==>
            c.alive && c.count == 0 && 0 <= c.position.y < n && HashAt(lines, c.position))
      && UniquePositions(r)
  {
    if n > 0 {
      ScanLinesMembers(lines, n - 1);
      ScanLineMembers(lines[n - 1], n - 1, |lines[n - 1]|);
      var init := ScanLines(lines, n - 1);
      var line := ScanLine(lines[n - 1], n - 1, |lines[n - 1]|);
      forall a, b | 0 <= a < |init| && 0 <= b < |line| ensures init[a].position != line[b].position {
        assert init[a] in init && line[b] in line;
      }
    }
  }

  /** One more character of a line. */
  lemma ScanLineStep(line: string, row: int, j: nat)
    requires j < |line|
    ensures ScanLine(line, row, j + 1) ==
            ScanLine(line, row, j) + (if line[j] == '#' then [Cell(Vector2D(j, row), true, 0)] else [])
  {
  }

  /** One more line. */
  lemma ScanLinesStep(lines: seq<string>, i: nat)
    requires i < |lines|
    ensures ScanLines(lines, i + 1) == ScanLines(lines, i) + ScanLine(lines[i], i, |lines[i]|)
  {
  }

  /** The entries loadStateFromFile builds: none when the read failed, as the list is cleared first. */
  function LoadCells(read: ReadResult): (r: seq<Cell>)
    ensures read.IOError? ==> r == []
  {
    match read
    case Lines(lines) => ScanLines(lines, |lines|)
    case IOError => []
  }

  /** Loading yields distinct live entries with count 0, exactly at the '#' of the lines. */
  lemma LoadedCells(lines: seq<string>)
    ensures var cs := LoadCells(Lines(lines));
      && UniquePositions(cs)
      && (forall k :: 0 <= k < |cs| ==> cs[k].alive && cs[k].count == 0)
      && forall p :: p in LiveSet(cs) <==> HashAt(lines, p)
  {
    var cs := LoadCells(Lines(lines));
    ScanLinesMembers(lines, |lines|);
    forall k | 0 <= k < |cs| ensures cs[k].alive && cs[k].count == 0 {
      assert cs[k] in cs;
    }
    forall p ensures p in LiveSet(cs) <==> HashAt(lines, p) {
      if HashAt(lines, p) {
        assert Cell(p, true, 0) in cs;
        var k :| 0 <= k < |cs| && cs[k] == Cell(p, true, 0);
      }
      if p in LiveSet(cs) {
        var k :| 0 <= k < |cs| && cs[k].alive && cs[k].position == p;
        assert cs[k] in cs;
      }
    }
  }

  // ---------------------------------------------------------------------------
  // Save, then load

  /** One character of a saved grid: '#' exactly over a live entry. */
  lemma SavedChar(lines: seq<string>, cs: seq<Cell>, q: Vector2D)
    requires SavedGrid(lines, cs)
    requires 0 <= q.y < |lines| && 0 <= q.x < |lines[q.y]|
    ensures HashAt(lines, q) <==> OnBoard(Bounds(cs), q) in LiveSet(cs)
  {
  }

  /** Every live entry falls inside the saved grid. */
  lemma LiveInsideGrid(lines: seq<string>, cs: seq<Cell>, p: Vector2D)
    requires SavedGrid(lines, cs)
    requires p in LiveSet(cs)
    ensures var b := Bounds(cs);
      0 <= p.y - b.y < |lines| && 0 <= p.x - b.x < |lines[p.y - b.y]|
  {
    var k :| 0 <= k < |cs| && cs[k].alive && cs[k].position == p;
    BoundsIsSmallestCover(cs);
  }

  /** The live positions moved so that the corner of b becomes the origin. */
  function Normalised(live: set<Vector2D>, b: Rectangle): (r: set<Vector2D>)
    ensures forall q :: q in r <==> OnBoard(b, q) in live
  {
    var r := set p | p in live :: p.Add(-b.x, -b.y);
    assert forall q :: OnBoard(b, q) in live ==> q in r by {
      forall q | OnBoard(b, q) in live ensures q in r {
        assert OnBoard(b, q).Add(-b.x, -b.y) == q;
      }
    }
    r
  }

  /** The '#' of a saved grid are exactly the live positions, seen from the bounding corner. */
  lemma SavedHashes(lines: seq<string>, cs: seq<Cell>)
    requires SavedGrid(lines, cs)
    ensures forall q :: HashAt(lines, q) <==> OnBoard(Bounds(cs), q) in LiveSet(cs)
  {
    var b := Bounds(cs);
    forall q ensures HashAt(lines, q) <==> OnBoard(b, q) in LiveSet(cs) {
      var p := OnBoard(b, q);
      if p in LiveSet(cs) {
        LiveInsideGrid(lines, cs, p);
      }
      if 0 <= q.y < |lines| && 0 <= q.x < |lines[q.y]| {
        SavedChar(lines, cs, q);
      }
    }
  }

  /** Loading the saved rows gives back the live set, moved so that the bounding corner is the origin. */
  lemma SaveThenLoad(cs: seq<Cell>, lines: seq<string>)
    requires SavedGrid(lines, cs)
    ensures LiveSet(LoadCells(Lines(lines))) == Normalised(LiveSet(cs), Bounds(cs))
  {
    LoadedCells(lines);
    SavedHashes(lines, cs);
  }
}
