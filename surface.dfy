/** `Surface` of ledboard.py: a dict from every `(x, y)` of a `width` x
    `height` grid to a colour tuple, with integer indexing in sorted key
    order and pixel-wise addition. */
module Surfaces {

  import opened Arith
  import opened Errors
  import opened Geometry

  /** Python's tuple comparison on `(x, y)`: by `x`, then by `y`. */
  predicate LexLess(p: Pos, q: Pos) {
    p.0 < q.0 || (p.0 == q.0 && p.1 < q.1)
  }

  predicate StrictlySorted(s: seq<Pos>) {
    forall i, j :: 0 <= i < j < |s| ==> LexLess(s[i], s[j])
  }

  /** The positions listed in `s`. */
  ghost function Elems(s: seq<Pos>): set<Pos> {
    set i | 0 <= i < |s| :: s[i]
  }

  /** `sorted(keys)` for the keys of a `w` x `h` grid: column by column,
      entry `k` being `(k / h, k % h)`. */
  function SortedKeys(w: nat, h: nat): (s: seq<Pos>)
    ensures |s| == w * h
    ensures forall k :: 0 <= k < |s| ==> h > 0 && s[k] == (k / h, k % h)
  {
    if h == 0 then [] else seq(w * h, k => (k / h, k % h))
  }

  /** The sorted keys are in strictly increasing tuple order ... */
  lemma SortedKeysSorted(w: nat, h: nat)
    ensures StrictlySorted(SortedKeys(w, h))
  {
    var s := SortedKeys(w, h);
    forall i, j | 0 <= i < j < |s|
      ensures LexLess(s[i], s[j])
    {
      DivModOrder(i, j, h);
    }
  }

  /** ... and list exactly the grid's positions. */
  lemma SortedKeysCover(w: nat, h: nat)
    ensures Elems(SortedKeys(w, h)) == GridKeys(w, h)
  {
    var s := SortedKeys(w, h);
    forall k | 0 <= k < |s|
      ensures s[k] in GridKeys(w, h)
    {
      assert k < h * w;
      IndexInGrid(h, w, k);
      InGridKeys(s[k], w, h);
    }
    forall p | p in GridKeys(w, h)
      ensures p in Elems(s)
    {
      InGridKeys(p, w, h);
      var k := p.0 * h + p.1;
      CellBelow(h, w, p.1, p.0);
      CellIndex(h, p.1, p.0);
      assert s[k] == p;
    }
  }

  lemma HeadListed(s: seq<Pos>)
    ensures s != [] ==> s[0] in Elems(s)
  {
  }

  /** Two strictly sorted lists of the same positions are equal: the sorted
      keys are the only possible result of `sorted`. */
  lemma {:induction false} SortedUnique(a: seq<Pos>, b: seq<Pos>)
    requires StrictlySorted(a) && StrictlySorted(b) && Elems(a) == Elems(b)
    ensures a == b
    decreases |a|
  {
    HeadListed(b);
    if a != [] {
      assert a[0] in Elems(b);
      assert b != [];
      assert b[0] in Elems(a);
      var i :| 0 <= i < |a| && a[i] == b[0];
      var j :| 0 <= j < |b| && b[j] == a[0];
      assert i > 0 ==> LexLess(a[0], b[0]);
      assert j > 0 ==> LexLess(b[0], a[0]);
      assert a[0] == b[0];
      forall p
        ensures p in Elems(a[1..]) <==> p in Elems(b[1..])
      {
        if p in Elems(a[1..]) {
          var k :| 0 <= k < |a[1..]| && a[1..][k] == p;
          assert a[k + 1] == p && LexLess(a[0], p);
          assert p in Elems(b);
          var m :| 0 <= m < |b| && b[m] == p;
          assert m != 0;
          assert b[1..][m - 1] == p;
        }
        if p in Elems(b[1..]) {
          var k :| 0 <= k < |b[1..]| && b[1..][k] == p;
          assert b[k + 1] == p && LexLess(b[0], p);
          assert p in Elems(a);
          var m :| 0 <= m < |a| && a[m] == p;
          assert m != 0;
          assert a[1..][m - 1] == p;
        }
      }
      SortedUnique(a[1..], b[1..]);
      assert a == [a[0]] + a[1..] && b == [b[0]] + b[1..];
    }
  }

  /** The positions of a list are those of all but its last entry, and the last. */
  lemma ElemsSnoc(s: seq<Pos>)
    requires s != []
    ensures Elems(s) == Elems(s[..|s| - 1]) + {s[|s| - 1]}
  {
    var n, prefix := |s|, s[..|s| - 1];
    forall p | p in Elems(s) ensures p in Elems(prefix) + {s[n - 1]} {
      var k :| 0 <= k < n && s[k] == p;
      if k < n - 1 { assert prefix[k] == p; }
    }
    forall p | p in Elems(prefix) ensures p in Elems(s) {
      var k :| 0 <= k < n - 1 && prefix[k] == p;
      assert s[k] == p;
    }
  }

  /** A strictly sorted list has no repeats, so it lists `|s|` positions. */
  lemma {:induction false} SortedCard(s: seq<Pos>)
    requires StrictlySorted(s)
    ensures |Elems(s)| == |s|
  {
    if s != [] {
      var n := |s|;
      var prefix := s[..n - 1];
      assert StrictlySorted(prefix) by {
        forall i, j | 0 <= i < j < |prefix| ensures LexLess(prefix[i], prefix[j]) {
          assert prefix[i] == s[i] && prefix[j] == s[j];
        }
      }
      SortedCard(prefix);
      ElemsSnoc(s);
      forall k | 0 <= k < n - 1
        ensures prefix[k] != s[n - 1]
      {
        assert LexLess(s[k], s[n - 1]);
      }
    }
  }

  /** A `w` x `h` grid has `w * h` positions. */
  lemma GridSize(w: nat, h: nat)
    ensures |GridKeys(w, h)| == w * h
  {
    SortedKeysSorted(w, h);
    SortedKeysCover(w, h);
    SortedCard(SortedKeys(w, h));
  }

  /** The grid's positions, each mapped to `rep`. */
  ghost function Filled(w: nat, h: nat, rep: seq<int>): map<Pos, seq<int>> {
    map p | p in GridKeys(w, h) :: rep
  }

  /** A Python value as a surface's `[]` sees it: an int, a tuple of ints,
      or a value of any other type. */
  datatype Item = Int(i: int) | Tuple(items: seq<int>) | Other

  /** What `surface[key]` returns: `(pos, value)` for an int key, the
      colour for a position key. */
  datatype Got = Entry(pos: Pos, value: seq<int>) | Color(value: seq<int>)

  /** A tuple is a key of `pixels` when it is a pair naming one of its positions. */
  predicate Names(items: seq<int>, pixels: map<Pos, seq<int>>) {
    |items| == 2 && (items[0], items[1]) in pixels
  }

  /** `tuple(map(lambda a, b: a + b, v1, v2))` in Python 2: `map` pads the
      shorter tuple with None, so tuples of different lengths raise TypeError. */
  function PairwiseSum(v1: seq<int>, v2: seq<int>): (r: Result<seq<int>>)
    ensures r.Ok? <==> |v1| == |v2|
    ensures r.Err? ==> r.error == TypeError
    ensures r.Ok? ==> |r.value| == |v1| && forall i :: 0 <= i < |v1| ==> r.value[i] == v1[i] + v2[i]
  {
    if |v1| != |v2| then Err(TypeError) else Ok(seq(|v1|, i requires 0 <= i < |v1| => v1[i] + v2[i]))
  }

  /** `add_values`: the first `len(t1)` components summed; IndexError when
      `t2` is shorter than `t1`. */
  method AddValues(t1: seq<int>, t2: seq<int>) returns (r: Result<seq<int>>)
    ensures r.Err? <==> |t2| < |t1|
    ensures r.Err? ==> r.error == IndexError
    ensures r.Ok? ==> |r.value| == |t1| && forall i :: 0 <= i < |t1| ==> r.value[i] == t1[i] + t2[i]
    ensures |t1| == |t2| ==> r == PairwiseSum(t1, t2)
  {
    var newval: seq<int> := [];
    for i := 0 to |t1|
      invariant i <= |t2|
      invariant |newval| == i && forall j :: 0 <= j < i ==> newval[j] == t1[j] + t2[j]
    {
      if i >= |t2| {
        return Err(IndexError);
      }
      newval := newval + [t1[i] + t2[i]];
    }
    assert |t1| == |t2| ==> newval == PairwiseSum(t1, t2).value;
    r := Ok(newval);
  }

  /** One step of `__add__`'s loop: pixel `pos` of the result becomes
      `theirs[pos] + mine[pos]`; a position `mine` lacks raises ValueError. */
  function AddOne(acc: map<Pos, seq<int>>, mine: map<Pos, seq<int>>, theirs: map<Pos, seq<int>>, pos: Pos)
    : Result<map<Pos, seq<int>>>
    requires pos in theirs
  {
    if pos !in mine then Err(ValueError)
    else match PairwiseSum(theirs[pos], mine[pos])
      case Err(e) => Err(e)
      case Ok(v) => Ok(acc[pos := v])
  }

  /** `__add__`'s loop over `order`, the first error ending it. */
  function AddAlong(acc: map<Pos, seq<int>>, mine: map<Pos, seq<int>>, theirs: map<Pos, seq<int>>, order: seq<Pos>)
    : Result<map<Pos, seq<int>>>
    requires forall i :: 0 <= i < |order| ==> order[i] in theirs
  {
    if order == [] then Ok(acc)
    else match AddAlong(acc, mine, theirs, order[..|order| - 1])
      case Err(e) => Err(e)
      case Ok(m) => AddOne(m, mine, theirs, order[|order| - 1])
  }

  /** One more position of the order: one more step. */
  lemma AddAlongStep(acc: map<Pos, seq<int>>, mine: map<Pos, seq<int>>, theirs: map<Pos, seq<int>>,
                     order: seq<Pos>, k: int)
    requires forall i :: 0 <= i < |order| ==> order[i] in theirs
    requires 0 <= k < |order|
    ensures AddAlong(acc, mine, theirs, order[..k + 1]) ==
      match AddAlong(acc, mine, theirs, order[..k])
      case Err(e) => Err(e)
      case Ok(m) => AddOne(m, mine, theirs, order[k])
  {
    assert order[..k + 1][..k] == order[..k];
  }

  /** An error on a prefix of the order is the error of the whole loop. */
  lemma {:induction false} AddAlongStops(acc: map<Pos, seq<int>>, mine: map<Pos, seq<int>>, theirs: map<Pos, seq<int>>,
                                         order: seq<Pos>, k: nat, e: Error)
    requires forall i :: 0 <= i < |order| ==> order[i] in theirs
    requires k <= |order| && AddAlong(acc, mine, theirs, order[..k]) == Err(e)
    ensures AddAlong(acc, mine, theirs, order) == Err(e)
    decreases |order| - k
  {
    if k < |order| {
      assert order[..k + 1][..k] == order[..k];
      AddAlongStops(acc, mine, theirs, order, k + 1, e);
    } else {
      assert order[..k] == order;
    }
  }

  /** With every position present in both maps and tuples of equal
      lengths, the loop succeeds: each listed pixel is the component-wise
      sum, every other keeps its value in `acc`. */
  lemma {:induction false} AddAlongSums(acc: map<Pos, seq<int>>, mine: map<Pos, seq<int>>, theirs: map<Pos, seq<int>>,
                                        order: seq<Pos>)
    requires forall i :: 0 <= i < |order| ==>
               order[i] in theirs && order[i] in mine && |theirs[order[i]]| == |mine[order[i]]|
    ensures AddAlong(acc, mine, theirs, order).Ok?
    ensures var m := AddAlong(acc, mine, theirs, order).value;
      m.Keys == acc.Keys + Elems(order) &&
      forall p :: p in m ==> m[p] == if p in Elems(order) then PairwiseSum(theirs[p], mine[p]).value else acc[p]
  {
    if order != [] {
      AddAlongSums(acc, mine, theirs, order[..|order| - 1]);
      ElemsSnoc(order);
    }
  }

  /** A position of `theirs` that `mine` lacks ends the loop in an error. */
  lemma {:induction false} AddAlongMissing(acc: map<Pos, seq<int>>, mine: map<Pos, seq<int>>, theirs: map<Pos, seq<int>>,
                                           order: seq<Pos>, k: int)
    requires forall i :: 0 <= i < |order| ==> order[i] in theirs
    requires 0 <= k < |order| && order[k] !in mine
    ensures AddAlong(acc, mine, theirs, order).Err?
  {
    var n := |order|;
    if k < n - 1 {
      AddAlongMissing(acc, mine, theirs, order[..n - 1], k);
    }
  }

  class Surface {
    const width: nat
    const height: nat
    const size: int
    var colorRep: seq<int>
    var colorDepth: int
    /** `surface`: colour tuple by `(x, y)`. */
    var pixels: map<Pos, seq<int>>

    /** Exactly the positions of the grid are keys. */
    ghost predicate Valid()
      reads this
    {
      pixels.Keys == GridKeys(width, height) && size == width * height
    }

    /** `Surface(width=w, height=h)`: every position black, `(0, 0, 0)`, colour depth 0xff. */
    constructor (width: nat, height: nat)
      ensures Valid()
      ensures this.width == width && this.height == height
      ensures colorRep == [0, 0, 0] && colorDepth == 0xFF
      ensures pixels == Filled(width, height, [0, 0, 0])
    {
      this.width := width;
      this.height := height;
      size := width * height;
      colorRep := [0, 0, 0];
      colorDepth := 0xFF;
      new;
      var m := GenerateIndexes();
      pixels := m;
    }

    /** `Surface(other)`: the same shape and colours; the dict is a copy, so
        later writes to either surface leave the other alone. */
    constructor Copy(other: Surface)
      requires other.Valid()
      ensures Valid()
      ensures width == other.width && height == other.height && size == other.size
      ensures colorRep == other.colorRep && colorDepth == other.colorDepth && pixels == other.pixels
    {
      width := other.width;
      height := other.height;
      size := other.size;
      colorRep := other.colorRep;
      colorDepth := other.colorDepth;
      pixels := other.pixels;
    }

    /** `generate_indexes`: every position of the grid, row by row, mapped to `colorRep`. */
    method GenerateIndexes() returns (m: map<Pos, seq<int>>)
      ensures m == Filled(width, height, colorRep)
    {
      m := map[];
      for y := 0 to height
        invariant forall p :: p in m <==> 0 <= p.0 < width && 0 <= p.1 < y
        invariant forall p :: p in m ==> m[p] == colorRep
      {
        for x := 0 to width
          invariant forall p :: p in m <==> (0 <= p.0 < width && 0 <= p.1 < y) || (p.1 == y && 0 <= p.0 < x)
          invariant forall p :: p in m ==> m[p] == colorRep
        {
          m := m[(x, y) := colorRep];
        }
      }
      forall p
        ensures p in m <==> p in GridKeys(width, height)
      {
        InGridKeys(p, width, height);
      }
    }

    /** `set_color_rep`: the new representation, and every pixel reset to it. */
    method SetColorRep(rep: seq<int>)
      requires Valid()
      modifies this
      ensures Valid()
      ensures colorRep == rep && colorDepth == old(colorDepth)
      ensures pixels == Filled(width, height, rep)
    {
      colorRep := rep;
      var m := GenerateIndexes();
      pixels := m;
    }

    /** `set_color_depth`: only the depth changes. */
    method SetColorDepth(depth: int)
      modifies this
      ensures colorDepth == depth
      ensures colorRep == old(colorRep) && pixels == old(pixels)
    {
      colorDepth := depth;
    }

    /** `__len__`: one entry per grid position. */
    function Length(): (n: nat)
      requires Valid()
      reads this
      ensures n == width * height
    {
      GridSize(width, height);
      |pixels|
    }

    /** `get_sorted_surface`: the keys in sorted order and their colours.
        `SortedKeys` is the one strictly increasing listing of the keys
        (`SortedUnique`), i.e. what `sorted` returns. */
    method GetSortedSurface() returns (indexes: seq<Pos>, values: seq<seq<int>>)
      requires Valid()
      ensures StrictlySorted(indexes) && Elems(indexes) == pixels.Keys
      ensures indexes == SortedKeys(width, height)
      ensures |values| == |indexes|
      ensures forall i :: 0 <= i < |values| ==> indexes[i] in pixels && values[i] == pixels[indexes[i]]
    {
      indexes := SortedKeys(width, height);
      SortedKeysSorted(width, height);
      SortedKeysCover(width, height);
      values := [];
      for i := 0 to |indexes|
        invariant |values| == i
        invariant forall j :: 0 <= j < i ==> indexes[j] in pixels && values[j] == pixels[indexes[j]]
      {
        assert indexes[i] in Elems(indexes);
        values := values + [pixels[indexes[i]]];
      }
    }

    /** The colours in sorted key order. */
    ghost function SortedColors(): (c: seq<seq<int>>)
      requires Valid()
      reads this
      ensures |c| == width * height
    {
      var s, px := SortedKeys(width, height), pixels;
      SortedKeysCover(width, height);
      assert forall i :: 0 <= i < |s| ==> s[i] in Elems(s);
      seq(|s|, i requires 0 <= i < |s| && s[i] in px => px[s[i]])
    }

    /** The numbers `__str__` writes out, in its order: the components of
        every colour, colours in sorted key order. */
    method Components() returns (data: seq<int>)
      requires Valid()
      ensures data == Flatten(SortedColors())
    {
      var indexes, values := GetSortedSurface();
      assert values == SortedColors();
      data := [];
      for i := 0 to |values|
        invariant data == Flatten(values[..i])
      {
        data := AppendEach(data, values[i]);
        assert values[..i + 1] == values[..i] + [values[i]];
        FlattenConcat(values[..i], [values[i]]);
        assert Flatten([values[i]]) == values[i] + Flatten([]);
      }
      assert values[..|values|] == values;
    }

    /** `check_surface`: the colour representations, then the lengths, must agree. */
    function CheckSurface(other: Surface): (o: Outcome)
      requires Valid() && other.Valid()
      reads this, other
      ensures o == Done <==> colorRep == other.colorRep && width * height == other.width * other.height
      ensures colorRep != other.colorRep ==> o == Raised(RepresentationMismatch)
      ensures colorRep == other.colorRep && o.Raised? ==> o.error == SizeMismatch
    {
      if colorRep != other.colorRep then Raised(RepresentationMismatch)
      else if Length() != other.Length() then Raised(SizeMismatch)
      else Done
    }

    /** `__getitem__`. An int `k` gives the `k`-th `(position, colour)` in
        sorted key order; `k < 0` or `k > size` raises ValueError and
        `k == size` IndexError (which is what ends a `for` loop over the
        surface). A tuple gives the colour at the position it names, and
        ValueError if it names none. Anything else raises TypeError. */
    function GetItem(key: Item): (r: Result<Got>)
      requires Valid()
      reads this
      ensures key.Int? ==> (r.Ok? <==> 0 <= key.i < width * height)
      ensures key.Int? && (key.i < 0 || key.i > width * height) ==> r == Err(ValueError)
      ensures key.Int? && key.i == width * height ==> r == Err(IndexError)
      ensures key.Int? && r.Ok? ==>
                var s := SortedKeys(width, height);
                key.i < |s| && s[key.i] in pixels && r.value == Entry(s[key.i], pixels[s[key.i]])
      ensures key.Tuple? ==> (r.Ok? <==> Names(key.items, pixels))
      ensures key.Tuple? ==> (r.Ok? <==> |key.items| == 2 && 0 <= key.items[0] < width && 0 <= key.items[1] < height)
      ensures key.Tuple? && r.Ok? ==> r.value == Color(pixels[(key.items[0], key.items[1])])
      ensures key.Tuple? && r.Err? ==> r.error == ValueError
      ensures key.Other? ==> r == Err(TypeError)
    {
      match key
      case Int(k) =>
        var s := SortedKeys(width, height);
        SortedKeysCover(width, height);
        if k < 0 || k > size then Err(ValueError)
        else if k >= |s| then Err(IndexError)
        else
          assert s[k] in Elems(s);
          Ok(Entry(s[k], pixels[s[k]]))
      case Tuple(items) =>
        if |items| == 2 then InGridKeys((items[0], items[1]), width, height); GetTupleItem(items)
        else Err(ValueError)
      case Other => Err(TypeError)
    }

    /** The tuple path of `__getitem__`. */
    function GetTupleItem(items: seq<int>): (r: Result<Got>)
      reads this
      ensures r.Ok? <==> Names(items, pixels)
    {
      if !Names(items, pixels) then Err(ValueError) else Ok(Color(pixels[(items[0], items[1])]))
    }

    /** `__setitem__`: a tuple value at a position key already present
        replaces that colour; an absent key raises ValueError and a non-tuple
        key or value TypeError. The key set never changes. */
    method SetItem(key: Item, value: Item) returns (o: Outcome)
      requires Valid()
      modifies this
      ensures Valid() && pixels.Keys == old(pixels.Keys)
      ensures colorRep == old(colorRep) && colorDepth == old(colorDepth)
      ensures o == if key.Tuple? && value.Tuple? then (if Names(key.items, old(pixels)) then Done else Raised(ValueError))
                   else Raised(TypeError)
      ensures pixels == if o == Done then old(pixels)[(key.items[0], key.items[1]) := value.items] else old(pixels)
    {
      if !(key.Tuple? && value.Tuple?) {
        return Raised(TypeError);
      }
      if !Names(key.items, pixels) {
        return Raised(ValueError);
      }
      pixels := pixels[(key.items[0], key.items[1]) := value.items];
      o := Done;
    }

    /** The result `__add__` computes: `check_surface`, then one step per
        pixel of `other` in sorted order over a copy of this surface. */
    ghost function Sum(other: Surface): Result<map<Pos, seq<int>>>
      requires Valid() && other.Valid()
      reads this, other
    {
      SortedKeysCover(other.width, other.height);
      var order := SortedKeys(other.width, other.height);
      assert forall i :: 0 <= i < |order| ==> order[i] in Elems(order);
      match CheckSurface(other)
      case Raised(e) => Err(e)
      case Done => AddAlong(pixels, pixels, other.pixels, order)
    }

    /** One pass of `__add__`'s loop: `pos, v1 = other[k]`, `v2 = self[pos]`,
        and `surface[pos]` set to their sum. */
    method AddStep(surface: Surface, other: Surface, k: int) returns (o: Outcome)
      requires Valid() && other.Valid() && surface.Valid()
      requires surface != this && surface != other
      requires surface.width == width && surface.height == height
      requires 0 <= k < other.width * other.height
      modifies surface
      ensures surface.Valid()
      ensures surface.colorRep == old(surface.colorRep) && surface.colorDepth == old(surface.colorDepth)
      ensures var pos := SortedKeys(other.width, other.height)[k];
        pos in other.pixels &&
        AddOne(old(surface.pixels), pixels, other.pixels, pos) == if o == Done then Ok(surface.pixels) else Err(o.error)
    {
      var item := other.GetItem(Int(k));
      var pos, v1 := item.value.pos, item.value.value;
      var key := [pos.0, pos.1];
      assert (key[0], key[1]) == pos;
      var v2 := GetItem(Tuple(key));
      if v2.Err? {
        return Raised(v2.error);
      }
      var sum := PairwiseSum(v1, v2.value.value);
      if sum.Err? {
        return Raised(sum.error);
      }
      var _ := surface.SetItem(Tuple(key), Tuple(sum.value));
      o := Done;
    }

    /** `__add__`: a new surface, a copy of this one with every pixel of
        `other` added to it; neither operand changes. */
    method Add(other: Surface) returns (r: Result<Surface>)
      requires Valid() && other.Valid()
      ensures r.Ok? ==> fresh(r.value) && r.value.Valid()
      ensures r.Ok? ==> r.value.width == width && r.value.height == height
      ensures r.Ok? ==> r.value.colorRep == colorRep && r.value.colorDepth == colorDepth
      ensures r.Ok? ==> Sum(other) == Ok(r.value.pixels)
      ensures r.Err? ==> Sum(other) == Err(r.error)
    {
      var check := CheckSurface(other);
      if check.Raised? {
        return Err(check.error);
      }
      var surface := new Surface.Copy(this);
      ghost var order := SortedKeys(other.width, other.height);
      SortedKeysCover(other.width, other.height);
      assert forall i :: 0 <= i < |order| ==> order[i] in Elems(order);
      var count := other.Length();
      for k := 0 to count
        invariant fresh(surface) && surface.Valid()
        invariant surface.width == width && surface.height == height
        invariant surface.colorRep == colorRep && surface.colorDepth == colorDepth
        invariant AddAlong(pixels, pixels, other.pixels, order[..k]) == Ok(surface.pixels)
      {
        AddAlongStep(pixels, pixels, other.pixels, order, k);
        var step := AddStep(surface, other, k);
        if step.Raised? {
          AddAlongStops(pixels, pixels, other.pixels, order, k + 1, step.error);
          return Err(step.error);
        }
      }
      assert order[..count] == order;
      r := Ok(surface);
    }
  }

  /** The inner loop of `__str__`: each component of one colour, in order. */
  method AppendEach(data: seq<int>, color: seq<int>) returns (r: seq<int>)
    ensures r == data + color
  {
    r := data;
    for j := 0 to |color|
      invariant r == data + color[..j]
    {
      assert color[..j + 1] == color[..j] + [color[j]];
      r := r + [color[j]];
    }
    assert color[..|color|] == color;
  }

  /** Two surfaces of the same shape and representation whose tuples have
      matching lengths add up: every pixel is the component-wise sum. */
  lemma AddSumsEveryPixel(s: Surface, t: Surface)
    requires s.Valid() && t.Valid()
    requires s.width == t.width && s.height == t.height && s.colorRep == t.colorRep
    requires forall p :: p in s.pixels ==> |s.pixels[p]| == |t.pixels[p]|
    ensures s.Sum(t).Ok?
    ensures s.Sum(t).value.Keys == s.pixels.Keys
    ensures forall p :: p in s.pixels ==> s.Sum(t).value[p] == PairwiseSum(t.pixels[p], s.pixels[p]).value
  {
    var order := SortedKeys(t.width, t.height);
    SortedKeysCover(t.width, t.height);
    assert forall i :: 0 <= i < |order| ==> order[i] in Elems(order);
    AddAlongSums(s.pixels, s.pixels, t.pixels, order);
  }

  /** Surfaces of equal size but different shape do not add: some position
      of `t` is missing from `s`. */
  lemma AddNeedsSameShape(s: Surface, t: Surface, p: Pos)
    requires s.Valid() && t.Valid()
    requires p in t.pixels && p !in s.pixels
    ensures s.Sum(t).Err?
  {
    var order := SortedKeys(t.width, t.height);
    SortedKeysCover(t.width, t.height);
    assert p in Elems(order);
    var k :| 0 <= k < |order| && order[k] == p;
    assert forall i :: 0 <= i < |order| ==> order[i] in Elems(order);
    if s.CheckSurface(t) == Done {
      AddAlongMissing(s.pixels, s.pixels, t.pixels, order, k);
    }
  }
}
