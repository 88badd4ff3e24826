/** How a board spreads its pixels over the 3 x 3 panels and how the wire
    frame is laid out, on plain values: the per-panel grids of a board,
    keyed by panel-grid position. Shared by the two `LedBoard` classes. */
module Layout {

  import opened Arith
  import opened Geometry
  import opened Panel

  type Grids = map<Pos, seq<seq<int>>>

  /** One `ph` x `pw` grid for every position of the 3 x 3 panel grid. */
  ghost predicate PanelsShaped(grids: Grids, pw: nat, ph: nat) {
    grids.Keys == GridKeys(3, 3) && AllGrids(grids, pw, ph)
  }

  /** Every grid in `grids` is `ph` x `pw`. */
  ghost predicate AllGrids(grids: Grids, pw: nat, ph: nat) {
    forall p :: p in grids ==> IsGrid(grids[p], pw, ph)
  }

  /** `0 <= x / w < k` exactly when `0 <= x < k * w`. */
  lemma QuotientInRange(x: int, w: int, k: int)
    requires w > 0
    ensures 0 <= x / w < k <==> 0 <= x < k * w
  {
    var q := x / w;
    DivMod(x, w);
    MulBound(q, w);
    MulMono(q + 1, k, w);
    MulMono(k, q, w);
    assert (q + 1) * w == q * w + w;
  }

  /** The panel a board pixel is routed to: `(x / panelwidth, y / panelheight)`.
      It is one of the board's panels exactly when the pixel lies in the
      `3 * pw` x `3 * ph` area the panels cover. */
  function PanelOf(x: int, y: int, pw: nat, ph: nat): (p: Pos)
    requires pw > 0 && ph > 0
    ensures p in GridKeys(3, 3) <==> 0 <= x < 3 * pw && 0 <= y < 3 * ph
  {
    QuotientInRange(x, pw, 3);
    QuotientInRange(y, ph, 3);
    InGridKeys((x / pw, y / ph), 3, 3);
    (x / pw, y / ph)
  }

  /** The panel-local position of a board pixel: `(x % panelwidth, y % panelheight)`. */
  function LocalOf(x: int, y: int, pw: nat, ph: nat): (l: Pos)
    requires pw > 0 && ph > 0
    ensures 0 <= l.0 < pw && 0 <= l.1 < ph
  {
    (x % pw, y % ph)
  }

  /** Distinct board pixels never share both their panel and their local position. */
  lemma RoutingInjective(x: int, y: int, x2: int, y2: int, pw: nat, ph: nat)
    requires pw > 0 && ph > 0
    ensures PanelOf(x, y, pw, ph) == PanelOf(x2, y2, pw, ph) && LocalOf(x, y, pw, ph) == LocalOf(x2, y2, pw, ph)
            <==> x == x2 && y == y2
  {
    DivMod(x, pw);
    DivMod(x2, pw);
    DivMod(y, ph);
    DivMod(y2, ph);
  }

  /** The grids after a board pixel inside the panels is set to `v`. */
  function WritePixel(grids: Grids, pw: nat, ph: nat, x: int, y: int, v: int): (g: Grids)
    requires pw > 0 && ph > 0 && PanelsShaped(grids, pw, ph)
    requires PanelOf(x, y, pw, ph) in grids
    ensures PanelsShaped(g, pw, ph)
  {
    var p, l := PanelOf(x, y, pw, ph), LocalOf(x, y, pw, ph);
    grids[p := SetCell(grids[p], l.0, l.1, v)]
  }

  /** The value of board pixel `(x, y)`. */
  ghost function BoardPixel(grids: Grids, pw: nat, ph: nat, x: int, y: int): int
    requires pw > 0 && ph > 0 && PanelsShaped(grids, pw, ph)
    requires 0 <= x < 3 * pw && 0 <= y < 3 * ph
  {
    var p, l := PanelOf(x, y, pw, ph), LocalOf(x, y, pw, ph);
    grids[p][l.1][l.0]
  }

  /** A write lands in exactly one board pixel; every other pixel of every
      panel keeps its value. */
  lemma WriteLandsInOneCell(grids: Grids, pw: nat, ph: nat, x: int, y: int, v: int, x2: int, y2: int)
    requires pw > 0 && ph > 0 && PanelsShaped(grids, pw, ph)
    requires 0 <= x < 3 * pw && 0 <= y < 3 * ph
    requires 0 <= x2 < 3 * pw && 0 <= y2 < 3 * ph
    ensures BoardPixel(WritePixel(grids, pw, ph, x, y, v), pw, ph, x2, y2)
            == if x2 == x && y2 == y then v else BoardPixel(grids, pw, ph, x2, y2)
  {
    RoutingInjective(x, y, x2, y2, pw, ph);
  }

  /** `get_surface`'s loop: the panels' buffers, concatenated in `order`. */
  function FrameOf(order: seq<Pos>, grids: Grids): seq<int>
    requires forall k :: 0 <= k < |order| ==> order[k] in grids
  {
    if order == [] then []
    else FrameOf(order[..|order| - 1], grids) + Flatten(grids[order[|order| - 1]])
  }

  /** One iteration of `get_surface`'s loop appends the next panel's buffer. */
  lemma FrameStep(order: seq<Pos>, grids: Grids, i: int)
    requires forall i :: 0 <= i < |order| ==> order[i] in grids
    requires 0 <= i < |order|
    ensures FrameOf(order[..i + 1], grids) == FrameOf(order[..i], grids) + Flatten(grids[order[i]])
  {
    assert order[..i + 1][..i] == order[..i];
  }

  /** The index in a frame of local cell `(x, y)` of the `k`-th panel sent. */
  function FrameIndex(k: int, pw: int, ph: int, x: int, y: int): int {
    k * (pw * ph) + RowMajorIndex(pw, x, y)
  }

  /** The panels' buffers, one per entry of `order`. */
  function Buffers(order: seq<Pos>, grids: Grids): (b: seq<seq<int>>)
    requires forall i :: 0 <= i < |order| ==> order[i] in grids
    ensures |b| == |order| && forall k :: 0 <= k < |order| ==> b[k] == Flatten(grids[order[k]])
  {
    seq(|order|, k requires 0 <= k < |order| => Flatten(grids[order[k]]))
  }

  /** Appending buffer after buffer builds the concatenation of all of them. */
  lemma {:induction false} FrameIsFlatten(order: seq<Pos>, grids: Grids)
    requires forall i :: 0 <= i < |order| ==> order[i] in grids
    ensures FrameOf(order, grids) == Flatten(Buffers(order, grids))
  {
    if order != [] {
      var n := |order|;
      var prefix, last := order[..n - 1], Flatten(grids[order[n - 1]]);
      FrameIsFlatten(prefix, grids);
      assert Buffers(order, grids) == Buffers(prefix, grids) + [last];
      FlattenConcat(Buffers(prefix, grids), [last]);
      assert Flatten([last]) == last + Flatten([]);
    }
  }

  lemma BuffersUniform(order: seq<Pos>, grids: Grids, pw: nat, ph: nat)
    requires AllGrids(grids, pw, ph) && forall i :: 0 <= i < |order| ==> order[i] in grids
    ensures Uniform(Buffers(order, grids), pw * ph)
  {
    forall k | 0 <= k < |order|
      ensures |Buffers(order, grids)[k]| == pw * ph
    {
      FlattenLength(grids[order[k]], pw);
    }
  }

  lemma FrameLength(order: seq<Pos>, grids: Grids, pw: nat, ph: nat)
    requires AllGrids(grids, pw, ph) && forall i :: 0 <= i < |order| ==> order[i] in grids
    ensures |FrameOf(order, grids)| == |order| * (pw * ph)
  {
    FrameIsFlatten(order, grids);
    BuffersUniform(order, grids, pw, ph);
    FlattenLength(Buffers(order, grids), pw * ph);
  }

  /** Cell `(x, y)` of the `k`-th panel sent sits at `FrameIndex(k, ...)`. */
  lemma FrameAt(order: seq<Pos>, grids: Grids, pw: nat, ph: nat, k: int, x: int, y: int)
    requires AllGrids(grids, pw, ph) && forall i :: 0 <= i < |order| ==> order[i] in grids
    requires 0 <= k < |order| && 0 <= x < pw && 0 <= y < ph
    ensures 0 <= FrameIndex(k, pw, ph, x, y) < |FrameOf(order, grids)|
    ensures FrameOf(order, grids)[FrameIndex(k, pw, ph, x, y)] == grids[order[k]][y][x]
  {
    var b := Buffers(order, grids);
    var j := RowMajorIndex(pw, x, y);
    FrameIsFlatten(order, grids);
    BuffersUniform(order, grids, pw, ph);
    CellBelow(pw, ph, x, y);
    FlattenAt(grids[order[k]], pw, y, x);
    FlattenAt(b, pw * ph, k, j);
    assert FrameIndex(k, pw, ph, x, y) == RowMajorIndex(pw * ph, j, k);
  }

  /** The frame's layout: `|order|` panel buffers of `pw * ph` values each,
      every panel row-major. */
  lemma FrameLayout(order: seq<Pos>, grids: Grids, pw: nat, ph: nat)
    requires AllGrids(grids, pw, ph) && forall i :: 0 <= i < |order| ==> order[i] in grids
    ensures |FrameOf(order, grids)| == |order| * (pw * ph)
    ensures forall k, y, x :: 0 <= k < |order| && 0 <= y < ph && 0 <= x < pw ==>
              0 <= FrameIndex(k, pw, ph, x, y) < |FrameOf(order, grids)| &&
              FrameOf(order, grids)[FrameIndex(k, pw, ph, x, y)] == grids[order[k]][y][x]
  {
    FrameLength(order, grids, pw, ph);
    forall k, y, x | 0 <= k < |order| && 0 <= y < ph && 0 <= x < pw
      ensures 0 <= FrameIndex(k, pw, ph, x, y) < |FrameOf(order, grids)|
      ensures FrameOf(order, grids)[FrameIndex(k, pw, ph, x, y)] == grids[order[k]][y][x]
    {
      FrameAt(order, grids, pw, ph, k, x, y);
    }
  }

  /** The position of a panel in the wiring order. */
  function WiringIndex(p: Pos): (k: nat)
    requires p in GridKeys(3, 3)
    ensures k < |PanelOrder| && PanelOrder[k] == p
  {
    PanelOrderIsPermutation();
    Find(PanelOrder, p)
  }

  /** The number of values in a board's frame. */
  function FrameSize(pw: nat, ph: nat): nat {
    9 * (pw * ph)
  }

  /** The boards' frame: all nine panels, in wiring order. */
  function BoardFrame(grids: Grids, pw: nat, ph: nat): seq<int>
    requires PanelsShaped(grids, pw, ph)
  {
    PanelOrderIsPermutation();
    FrameOf(PanelOrder, grids)
  }

  /** The frame holds `9 * pw * ph` values, and board pixel `(x, y)` sits at
      `k * pw * ph + (y % ph) * pw + (x % pw)`, `k` the wiring index of its panel. */
  lemma BoardFrameAt(grids: Grids, pw: nat, ph: nat, x: int, y: int)
    requires pw > 0 && ph > 0 && PanelsShaped(grids, pw, ph)
    requires 0 <= x < 3 * pw && 0 <= y < 3 * ph
    ensures |BoardFrame(grids, pw, ph)| == FrameSize(pw, ph)
    ensures var p, l := PanelOf(x, y, pw, ph), LocalOf(x, y, pw, ph);
      var i := FrameIndex(WiringIndex(p), pw, ph, l.0, l.1);
      0 <= i < |BoardFrame(grids, pw, ph)| && BoardFrame(grids, pw, ph)[i] == BoardPixel(grids, pw, ph, x, y)
  {
    PanelOrderIsPermutation();
    var p, l := PanelOf(x, y, pw, ph), LocalOf(x, y, pw, ph);
    FrameLength(PanelOrder, grids, pw, ph);
    FrameAt(PanelOrder, grids, pw, ph, WiringIndex(p), l.0, l.1);
  }

  /** Nine `width / 3` x `height / 3` panels never hold more than the board's
      `width * height` pixels, and on a board with both sides non-zero they
      hold exactly that many precisely when both sides are divisible by 3. */
  lemma FrameCoversBoard(width: nat, height: nat)
    ensures 9 * ((width / 3) * (height / 3)) <= width * height
    ensures width > 0 && height > 0 ==>
              (9 * ((width / 3) * (height / 3)) == width * height <==> width % 3 == 0 && height % 3 == 0)
  {
    var a, r, c, s := width / 3, width % 3, height / 3, height % 3;
    var side := a * s;
    SplitArea(a, r, c, s);
    MulNonneg(a, s);
    MulNonneg(r, height);
    if width > 0 && height > 0 && (r != 0 || s != 0) {
      if r != 0 {
        MulBound(r, height);
      } else {
        MulBound(s, a);
        assert s * a == side;
      }
    }
  }

  /** `(3a + r)(3c + s) = 9ac + 3as + r(3c + s)`. */
  lemma SplitArea(a: int, r: int, c: int, s: int)
    ensures (3 * a + r) * (3 * c + s) == 9 * (a * c) + 3 * (a * s) + r * (3 * c + s)
  {
    var h := 3 * c + s;
    assert (3 * a + r) * h == 3 * (a * h) + r * h;
    assert a * h == 3 * (a * c) + a * s;
  }

  /** `set_pixel`'s clamp in ledboard.py: above `colordepth` becomes
      `colordepth`, otherwise below zero becomes zero. */
  function Clamp(v: int, colorDepth: int): (c: int)
    ensures colorDepth >= 0 ==> 0 <= c <= colorDepth
    ensures colorDepth >= 0 ==> (c == v <==> 0 <= v <= colorDepth)
    ensures colorDepth >= 0 && v > colorDepth ==> c == colorDepth
    ensures colorDepth >= 0 && v < 0 ==> c == 0
  {
    if v > colorDepth then colorDepth else if v < 0 then 0 else v
  }

  /** Every cell of every grid holds a value in `[lo, hi]`. */
  ghost predicate CellsWithin(grids: Grids, lo: int, hi: int) {
    forall p, y, x :: p in grids && 0 <= y < |grids[p]| && 0 <= x < |grids[p][y]| ==> lo <= grids[p][y][x] <= hi
  }

  /** Writing a value in `[lo, hi]` keeps every cell in `[lo, hi]`. */
  lemma WriteKeepsRange(grids: Grids, pw: nat, ph: nat, x: int, y: int, v: int, lo: int, hi: int)
    requires pw > 0 && ph > 0 && PanelsShaped(grids, pw, ph)
    requires PanelOf(x, y, pw, ph) in grids
    requires CellsWithin(grids, lo, hi) && lo <= v <= hi
    ensures CellsWithin(WritePixel(grids, pw, ph, x, y, v), lo, hi)
  {
    var g := WritePixel(grids, pw, ph, x, y, v);
    forall p, j, i | p in g && 0 <= j < |g[p]| && 0 <= i < |g[p][j]|
      ensures lo <= g[p][j][i] <= hi
    {
    }
  }

  /** Every value of a flattened list comes from one of its rows. */
  lemma {:induction false} FlattenWithin(rows: seq<seq<int>>, lo: int, hi: int)
    requires forall y, x :: 0 <= y < |rows| && 0 <= x < |rows[y]| ==> lo <= rows[y][x] <= hi
    ensures forall i :: 0 <= i < |Flatten(rows)| ==> lo <= Flatten(rows)[i] <= hi
  {
    if rows != [] {
      FlattenWithin(rows[1..], lo, hi);
      assert forall y, x :: 0 <= y < |rows[1..]| && 0 <= x < |rows[1..][y]| ==> rows[1..][y][x] == rows[y + 1][x];
      forall i | 0 <= i < |Flatten(rows)|
        ensures lo <= Flatten(rows)[i] <= hi
      {
        if i >= |rows[0]| {
          assert Flatten(rows)[i] == Flatten(rows[1..])[i - |rows[0]|];
        } else {
          assert Flatten(rows)[i] == rows[0][i];
        }
      }
    }
  }

  /** A frame holds only values its panels hold. */
  lemma FrameWithin(order: seq<Pos>, grids: Grids, lo: int, hi: int)
    requires forall i :: 0 <= i < |order| ==> order[i] in grids
    requires CellsWithin(grids, lo, hi)
    ensures forall i :: 0 <= i < |FrameOf(order, grids)| ==> lo <= FrameOf(order, grids)[i] <= hi
  {
    var b := Buffers(order, grids);
    forall k | 0 <= k < |order|
      ensures forall i :: 0 <= i < |b[k]| ==> lo <= b[k][i] <= hi
    {
      FlattenWithin(grids[order[k]], lo, hi);
    }
    FlattenWithin(b, lo, hi);
    FrameIsFlatten(order, grids);
  }

  /** A distinct, valid `pw` x `ph` panel at each position of the 3 x 3 grid. */
  ghost predicate PanelsFormGrid(panels: map<Pos, LedPanel>, pw: nat, ph: nat)
    reads panels.Values
  {
    panels.Keys == GridKeys(3, 3) && DistinctPanels(panels, pw, ph)
  }

  /** Distinct, valid `pw` x `ph` panels. */
  ghost predicate DistinctPanels(panels: map<Pos, LedPanel>, pw: nat, ph: nat)
    reads panels.Values
  {
    && (forall p, q :: p in panels && q in panels && p != q ==> panels[p] != panels[q])
    && (forall p :: p in panels ==> panels[p].Valid() && panels[p].width == pw && panels[p].height == ph)
  }

  /** The panels' contents, by grid position. */
  ghost function PanelGrids(panels: map<Pos, LedPanel>, pw: nat, ph: nat): (g: Grids)
    requires PanelsFormGrid(panels, pw, ph)
    reads panels.Values
    ensures PanelsShaped(g, pw, ph)
  {
    map p | p in panels :: panels[p].data
  }

  /** Nine zero panels: every grid zero, so every cell lies within `[0, hi]`
      for any non-negative colour depth `hi`. */
  lemma ZeroGrids(panels: map<Pos, LedPanel>, pw: nat, ph: nat, hi: int)
    requires PanelsFormGrid(panels, pw, ph)
    requires forall p :: p in panels ==> panels[p].data == Zeros(pw, ph)
    ensures PanelGrids(panels, pw, ph) == map p | p in GridKeys(3, 3) :: Zeros(pw, ph)
    ensures hi >= 0 ==> CellsWithin(PanelGrids(panels, pw, ph), 0, hi)
  {
  }

  /** The panel-building loop of both boards' `__init__`: a fresh zero panel for each of
      the nine positions `posgen(3, 3)` lists. */
  method NewPanels(pw: nat, ph: nat) returns (m: map<Pos, LedPanel>)
    ensures PanelsFormGrid(m, pw, ph)
    ensures forall p :: p in m ==> fresh(m[p])
    ensures forall p :: p in m ==> m[p].data == Zeros(pw, ph)
  {
    var positions := PosGen(3, 3);
    m := PanelsAt(positions, pw, ph);
  }

  /** The loop itself: one fresh zero panel per listed position. */
  method PanelsAt(positions: seq<Pos>, pw: nat, ph: nat) returns (m: map<Pos, LedPanel>)
    ensures m.Keys == set k | 0 <= k < |positions| :: positions[k]
    ensures DistinctPanels(m, pw, ph)
    ensures forall p :: p in m ==> fresh(m[p])
    ensures forall p :: p in m ==> m[p].data == Zeros(pw, ph)
  {
    m := map[];
    for i := 0 to |positions|
      invariant m.Keys == set k | 0 <= k < i :: positions[k]
      invariant forall p :: p in m ==> fresh(m[p])
      invariant DistinctPanels(m, pw, ph)
      invariant forall p :: p in m ==> m[p].data == Zeros(pw, ph)
    {
      assert (set k | 0 <= k < i + 1 :: positions[k]) == (set k | 0 <= k < i :: positions[k]) + {positions[i]};
      m := AddPanel(m, positions[i], pw, ph);
    }
  }

  /** One step of the construction loop: a fresh blank panel at `pos`. */
  method AddPanel(m: map<Pos, LedPanel>, pos: Pos, pw: nat, ph: nat) returns (m': map<Pos, LedPanel>)
    requires DistinctPanels(m, pw, ph)
    ensures m'.Keys == m.Keys + {pos}
    ensures DistinctPanels(m', pw, ph)
    ensures pos in m' && fresh(m'[pos]) && m'[pos].data == Zeros(pw, ph)
    ensures forall p :: p in m && p != pos ==> m'[p] == m[p]
  {
    var panel := new LedPanel(pw, ph);
    m' := m[pos := panel];
  }
}
