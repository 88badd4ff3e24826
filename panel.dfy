/** `LedPanel` of ledboard.py (repeated verbatim in main.py): one LED
    sub-panel holding a `height` x `width` list of rows, written in place. */
module Panel {

  import opened Errors
  import opened Geometry

  /** A `height` x `width` list of rows. */
  predicate IsGrid(rows: seq<seq<int>>, width: int, height: int) {
    |rows| == height && Uniform(rows, width)
  }

  /** `height` rows of `width` zeros. */
  function Zeros(width: nat, height: nat): (rows: seq<seq<int>>)
    ensures IsGrid(rows, width, height)
  {
    seq(height, _ => seq(width, _ => 0))
  }

  /** `rows` with `rows[y][x]` replaced by `v`. */
  function SetCell(rows: seq<seq<int>>, x: int, y: int, v: int): (r: seq<seq<int>>)
    requires 0 <= y < |rows| && 0 <= x < |rows[y]|
    ensures |r| == |rows| && forall j :: 0 <= j < |r| ==> |r[j]| == |rows[j]|
    ensures forall j, i :: 0 <= j < |r| && 0 <= i < |r[j]| ==>
              r[j][i] == if j == y && i == x then v else rows[j][i]
  {
    rows[y := rows[y][x := v]]
  }

  /** Python's index rule for a list of length `n`: negative indices count
      from the end, anything else outside `[-n, n)` raises IndexError. */
  function PyIndex(i: int, n: nat): Result<nat> {
    if 0 <= i < n then Ok(i) else if i < 0 && 0 <= i + n then Ok(i + n) else Err(IndexError)
  }

  class LedPanel {
    const width: nat
    const height: nat
    const size: int
    /** `data`: row `y` holds the values of the LEDs `(0, y)`, ..., `(width - 1, y)`. */
    var data: seq<seq<int>>

    ghost predicate Valid()
      reads this
    {
      IsGrid(data, width, height) && size == width * height
    }

    /** `__init__`: `height` rows of `width` zeros. */
    constructor (width: nat, height: nat)
      ensures Valid()
      ensures this.width == width && this.height == height
      ensures data == Zeros(width, height)
    {
      this.width := width;
      this.height := height;
      size := width * height;
      var rows: seq<seq<int>> := [];
      for i := 0 to height
        invariant rows == Zeros(width, i)
      {
        rows := rows + [seq(width, _ => 0)];
      }
      data := rows;
    }

    /** `set_pixel`: outside the panel nothing happens; inside, exactly the
        one cell changes. */
    method SetPixel(x: int, y: int, value: int)
      requires Valid()
      modifies this
      ensures Valid()
      ensures data == if 0 <= x < width && 0 <= y < height
                      then SetCell(old(data), x, y, value)
                      else old(data)
    {
      if x < 0 || x >= width {
        return;
      }
      if y < 0 || y >= height {
        return;
      }
      data := data[y := data[y][x := value]];
    }

    /** `get_pixel`: `data[y][x]` under Python's list indexing. */
    function GetPixel(x: int, y: int): (r: Result<int>)
      requires Valid()
      reads this
      ensures 0 <= x < width && 0 <= y < height ==> r == Ok(data[y][x])
      ensures r.Ok? <==> 0 <= y + height && y < height && 0 <= x + width && x < width
      ensures r.Ok? ==> r.value == data[if y < 0 then y + height else y][if x < 0 then x + width else x]
    {
      match PyIndex(y, height)
      case Err(e) => Err(e)
      case Ok(j) =>
        match PyIndex(x, width)
        case Err(e) => Err(e)
        case Ok(i) => Ok(data[j][i])
    }

    /** `get_buffer`: the rows concatenated, `width * height` values in
        row-major order. */
    function GetBuffer(): (r: seq<int>)
      requires Valid()
      reads this
      ensures |r| == size
      ensures RowMajor(r, data, width)
    {
      FlattenRowMajor(data, width);
      Flatten(data)
    }
  }
}
