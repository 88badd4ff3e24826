/** The module-level helpers of ledboard.py (repeated verbatim in main.py):
    grid positions, the panel wiring order and list flattening. */
module Geometry {

  import opened Arith

  /** An `(x, y)` pair of ints, the key type of the panel and pixel dicts. */
  type Pos = (int, int)

  /** Every position of a `cols` x `rows` grid. */
  ghost function GridKeys(cols: int, rows: int): set<Pos> {
    set x: int, y: int | 0 <= x < cols && 0 <= y < rows :: (x, y)
  }

  lemma InGridKeys(p: Pos, cols: int, rows: int)
    ensures p in GridKeys(cols, rows) <==> 0 <= p.0 < cols && 0 <= p.1 < rows
  {
    if 0 <= p.0 < cols && 0 <= p.1 < rows {
      var (x, y) := p;
      assert (x, y) in GridKeys(cols, rows);
    }
  }

  /** `panelorder`: the panel-grid positions in the order the panels are
      wired, i.e. the order their buffers are sent. */
  const PanelOrder: seq<Pos> := [(2, 0), (2, 1), (2, 2),
                                 (1, 2), (1, 1), (1, 0),
                                 (0, 0), (0, 1), (0, 2)]

  /** The first index of `p` in `s`. */
  function Find(s: seq<Pos>, p: Pos): (k: nat)
    requires p in s
    ensures k < |s| && s[k] == p
    ensures forall j :: 0 <= j < k ==> s[j] != p
  {
    if s[0] == p then 0 else 1 + Find(s[1..], p)
  }

  /** The wiring order lists every position of the 3 x 3 panel grid exactly once. */
  lemma PanelOrderIsPermutation()
    ensures |PanelOrder| == 9
    ensures forall i, j :: 0 <= i < j < |PanelOrder| ==> PanelOrder[i] != PanelOrder[j]
    ensures forall p :: p in PanelOrder <==> p in GridKeys(3, 3)
  {
    forall p | p in GridKeys(3, 3) ensures p in PanelOrder {
      InGridKeys(p, 3, 3);
    }
    forall p | p in PanelOrder ensures p in GridKeys(3, 3) {
      InGridKeys(p, 3, 3);
    }
  }

  /** The index of cell `(x, y)` in the row-major layout of rows of width `w`. */
  function RowMajorIndex(w: int, x: int, y: int): int {
    y * w + x
  }

  /** `posgen`: the positions of a `width` x `height` grid, row by row. */
  method PosGen(width: nat, height: nat) returns (positions: seq<Pos>)
    ensures |positions| == width * height
    ensures Enumerates(positions, width)
    ensures forall y, x :: 0 <= y < height && 0 <= x < width ==>
              RowMajorIndex(width, x, y) < |positions| && positions[RowMajorIndex(width, x, y)] == (x, y)
    ensures (set i | 0 <= i < |positions| :: positions[i]) == GridKeys(width, height)
  {
    positions := [];
    for y := 0 to height
      invariant |positions| == y * width
      invariant Enumerates(positions, width)
    {
      for x := 0 to width
        invariant |positions| == y * width + x
        invariant Enumerates(positions, width)
      {
        EnumeratesAppend(positions, width, x, y);
        positions := positions + [(x, y)];
      }
      assert y * width + width == (y + 1) * width;
    }
    assert height * width == width * height;
    EnumeratesCells(positions, width, height);
    EnumeratesGrid(positions, width, height);
  }

  /** Entry `i` of `positions` is cell `i` of a row-major grid of width `w`. */
  ghost predicate Enumerates(positions: seq<Pos>, w: nat) {
    forall i :: 0 <= i < |positions| ==> w > 0 && positions[i] == (i % w, i / w)
  }

  lemma EnumeratesAppend(positions: seq<Pos>, w: nat, x: int, y: int)
    requires 0 <= x < w && |positions| == y * w + x && Enumerates(positions, w)
    ensures Enumerates(positions + [(x, y)], w)
  {
    CellIndex(w, x, y);
  }

  /** A row-major enumeration of a `w` x `h` grid lists exactly its positions. */
  lemma EnumeratesGrid(positions: seq<Pos>, w: nat, h: nat)
    requires |positions| == w * h && Enumerates(positions, w)
    ensures (set i | 0 <= i < |positions| :: positions[i]) == GridKeys(w, h)
  {
    var listed := set i | 0 <= i < |positions| :: positions[i];
    forall i | 0 <= i < |positions|
      ensures positions[i] in GridKeys(w, h)
    {
      IndexInGrid(w, h, i);
      InGridKeys(positions[i], w, h);
    }
    EnumeratesCells(positions, w, h);
    forall p | p in GridKeys(w, h)
      ensures p in listed
    {
      InGridKeys(p, w, h);
      assert positions[RowMajorIndex(w, p.0, p.1)] == p;
    }
  }

  lemma EnumeratesCells(positions: seq<Pos>, w: nat, h: nat)
    requires |positions| == w * h && Enumerates(positions, w)
    ensures forall y, x :: 0 <= y < h && 0 <= x < w ==>
              RowMajorIndex(w, x, y) < |positions| && positions[RowMajorIndex(w, x, y)] == (x, y)
  {
    forall y, x | 0 <= y < h && 0 <= x < w
      ensures RowMajorIndex(w, x, y) < |positions| && positions[RowMajorIndex(w, x, y)] == (x, y)
    {
      var i := y * w + x;
      CellBelow(w, h, x, y);
      assert positions[i] == (i % w, i / w);
      CellIndex(w, x, y);
    }
  }

  /** `flattenl`: the rows of a 2-D list, concatenated in order. */
  function Flatten<T>(rows: seq<seq<T>>): seq<T> {
    if rows == [] then [] else rows[0] + Flatten(rows[1..])
  }

  lemma {:induction false} FlattenConcat<T>(a: seq<seq<T>>, b: seq<seq<T>>)
    ensures Flatten(a + b) == Flatten(a) + Flatten(b)
  {
    if a == [] {
      assert a + b == b;
    } else {
      assert (a + b)[0] == a[0];
      assert (a + b)[1..] == a[1..] + b;
      FlattenConcat(a[1..], b);
    }
  }

  lemma ConcatAssoc<T>(a: seq<T>, b: seq<T>, c: seq<T>)
    ensures (a + b) + c == a + (b + c)
  {}

  /** Every row of `rows` has length `w`. */
  predicate Uniform<T>(rows: seq<seq<T>>, w: int) {
    forall j :: 0 <= j < |rows| ==> |rows[j]| == w
  }

  lemma {:induction false} FlattenLength<T>(rows: seq<seq<T>>, w: nat)
    requires Uniform(rows, w)
    ensures |Flatten(rows)| == |rows| * w
  {
    if rows != [] {
      FlattenLength(rows[1..], w);
      assert |rows| * w == w + (|rows| - 1) * w;
    }
  }

  /** Cell `x` of row `y` lands at `y * w + x` of the flattened list. */
  lemma {:induction false} FlattenAt<T>(rows: seq<seq<T>>, w: nat, y: int, x: int)
    requires Uniform(rows, w) && 0 <= y < |rows| && 0 <= x < w
    ensures 0 <= RowMajorIndex(w, x, y) < |Flatten(rows)|
    ensures Flatten(rows)[RowMajorIndex(w, x, y)] == rows[y][x]
  {
    FlattenLength(rows, w);
    CellBelow(w, |rows|, x, y);
    if y > 0 {
      var rest := rows[1..];
      FlattenAt(rest, w, y - 1, x);
      assert y * w + x == w + ((y - 1) * w + x);
      assert rest[y - 1] == rows[y];
    }
  }

  /** `s` holds the cells of `rows` (of width `w`) in row-major order. */
  ghost predicate RowMajor<T>(s: seq<T>, rows: seq<seq<T>>, w: int) {
    forall y, x :: 0 <= y < |rows| && 0 <= x < w && x < |rows[y]| ==>
      0 <= RowMajorIndex(w, x, y) < |s| && s[RowMajorIndex(w, x, y)] == rows[y][x]
  }

  /** Flattening rows of equal width `w` gives their row-major layout, of
      length `|rows| * w`. */
  lemma FlattenRowMajor<T>(rows: seq<seq<T>>, w: nat)
    requires Uniform(rows, w)
    ensures |Flatten(rows)| == |rows| * w
    ensures RowMajor(Flatten(rows), rows, w)
  {
    FlattenLength(rows, w);
    forall y, x | 0 <= y < |rows| && 0 <= x < w && x < |rows[y]|
      ensures 0 <= RowMajorIndex(w, x, y) < |Flatten(rows)|
      ensures Flatten(rows)[RowMajorIndex(w, x, y)] == rows[y][x]
    {
      FlattenAt(rows, w, y, x);
    }
  }
}
