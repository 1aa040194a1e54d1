/** `BitArrayGomokuBoard`: two bits per cell in one flat bit array of
    2 * size * size bits. Cell (r, c) occupies bits 2 * (r * size + c) (worth
    1) and the bit after it (worth 2), so a cell holds a value in 0..3. */
module BitArrayBoard {
  import opened Tiles
  import opened Grid

  /** The first of the two bits of cell (r, c). */
  function Index(n: int, r: int, c: int): int {
    2 * (r * n + c)
  }

  /** Both bits of a cell lie inside the array. */
  lemma IndexInRange(n: int, r: int, c: int)
    requires InBounds(n, r, c)
    ensures 0 <= Index(n, r, c) && Index(n, r, c) + 1 < 2 * n * n
  {
    MulMono(r, n - 1, n);
  }

  /** Different cells own disjoint pairs of bits. */
  lemma IndexApart(n: int, r: int, c: int, r': int, c': int)
    requires InBounds(n, r, c) && InBounds(n, r', c') && (r != r' || c != c')
    ensures Index(n, r, c) + 1 < Index(n, r', c') || Index(n, r', c') + 1 < Index(n, r, c)
  {
    if r < r' {
      MulMono(r + 1, r', n);
    } else if r' < r {
      MulMono(r' + 1, r, n);
    }
  }

  lemma MulMono(a: int, b: int, n: int)
    requires a <= b && 0 <= n
    ensures a * n <= b * n
  {
    assert b * n - a * n == (b - a) * n;
  }

  /** `(bit2 ? 2 : 0) + (bit1 ? 1 : 0)`. */
  function CellValue(bit1: bool, bit2: bool): (v: int)
    ensures 0 <= v < 4
  {
    (if bit2 then 2 else 0) + (if bit1 then 1 else 0)
  }

  /** `(value & 1) != 0`: in two's complement the low bit is set exactly when
      the Euclidean remainder by 2 is 1, negative values included. */
  function LowBit(value: int): bool {
    value % 2 == 1
  }

  /** `(value & 2) != 0`: bit 1 of the two's complement, i.e. the Euclidean
      remainder by 4 is 2 or 3. */
  function HighBit(value: int): bool {
    value % 4 >= 2
  }

  /** The two bits `SetCell` writes read back as value % 4 (`value & 3`). */
  lemma BitsOfValue(value: int)
    ensures CellValue(LowBit(value), HighBit(value)) == value % 4
  {
    var q, m := value / 4, value % 4;
    assert value == 2 * (2 * q) + m;
    if m < 2 {
      ModTwo(value, 2 * q, m);
    } else {
      ModTwo(value, 2 * q + 1, m - 2);
    }
  }

  lemma ModTwo(n: int, t: int, s: int)
    requires n == 2 * t + s && 0 <= s < 2
    ensures n % 2 == s
  {
  }

  /** The cell (r, c) of a bit string. */
  function Cell(bits: seq<bool>, n: int, r: int, c: int): (v: int)
    requires |bits| == 2 * n * n && InBounds(n, r, c)
    ensures 0 <= v < 4
  {
    IndexInRange(n, r, c);
    CellValue(bits[Index(n, r, c)], bits[Index(n, r, c) + 1])
  }

  /** The board a bit string of 2 * n * n bits encodes. */
  function Decode(bits: seq<bool>, n: nat): (g: Grid.Cells)
    requires |bits| == 2 * n * n
    ensures IsSquare(g, n)
  {
    seq(n, r requires 0 <= r < n => seq(n, c requires 0 <= c < n => Cell(bits, n, r, c)))
  }

  /** Writing the two bits of (row, col) sets that cell to value % 4 and
      leaves every other cell. */
  lemma DecodeWrite(bits: seq<bool>, n: nat, row: int, col: int, value: int)
    requires |bits| == 2 * n * n && InBounds(n, row, col)
    ensures var i := Index(n, row, col);
      0 <= i && i + 1 < |bits| &&
      Decode(bits[i := LowBit(value)][i + 1 := HighBit(value)], n) == Set(Decode(bits, n), n, row, col, value % 4)
  {
    var i := Index(n, row, col);
    IndexInRange(n, row, col);
    var written := bits[i := LowBit(value)][i + 1 := HighBit(value)];
    var g, h := Decode(bits, n), Decode(written, n);
    forall r, c | InBounds(n, r, c)
      ensures h[r][c] == Set(g, n, row, col, value % 4)[r][c]
    {
      IndexInRange(n, r, c);
      if r == row && c == col {
        BitsOfValue(value);
      } else {
        IndexApart(n, r, c, row, col);
      }
    }
    SameCells(h, Set(g, n, row, col, value % 4), n);
  }

  /** All bits clear: every cell reads Empty. */
  lemma DecodeClear(n: nat)
    ensures Decode(seq(2 * n * n, _ => false), n) == Blank(n, Empty)
  {
    var g := Decode(seq(2 * n * n, _ => false), n);
    forall r, c | InBounds(n, r, c)
      ensures g[r][c] == Blank(n, Empty)[r][c]
    {
      IndexInRange(n, r, c);
    }
    SameCells(g, Blank(n, Empty), n);
  }

  class BitArrayGomokuBoard {
    /** `_size`. */
    const size: nat
    /** `_board`. */
    const bits: array<bool>

    ghost predicate Valid() {
      bits.Length == 2 * size * size
    }

    /** The board the bits encode. */
    ghost function Cells(): (g: Grid.Cells)
      reads bits
      requires Valid()
      ensures IsSquare(g, size)
    {
      Decode(bits[..], size)
    }

    /** `new BitArrayGomokuBoard(size)`: 2 * size * size clear bits. */
    constructor(size: nat)
      ensures Valid() && this.size == size && fresh(bits)
      ensures Cells() == Blank(size, Empty)
    {
      this.size := size;
      bits := new bool[2 * size * size](_ => false);
      new;
      assert bits[..] == seq(2 * size * size, _ => false);
      DecodeClear(size);
    }

    /** The private copy constructor: `new BitArray(board)` copies the bits. */
    constructor Copy(source: array<bool>, size: nat)
      ensures this.size == size && fresh(bits) && bits[..] == source[..]
    {
      this.size := size;
      bits := new bool[source.Length](i reads source requires 0 <= i < source.Length => source[i]);
      new;
      assert bits[..] == source[..];
    }

    /** `GetCell`: the two bits of the cell; the result is the cell of the view
        and lies in 0..3. */
    function GetCell(row: int, col: int): (v: int)
      reads bits
      requires Valid() && InBounds(size, row, col)
      ensures v == Cells()[row][col]
      ensures 0 <= v < 4
    {
      var index := Index(size, row, col);
      IndexInRange(size, row, col);
      var bit1 := bits[index];
      var bit2 := bits[index + 1];
      (if bit2 then 2 else 0) + (if bit1 then 1 else 0)
    }

    /** `SetCell`: writes `value & 1` and `value & 2` into the cell's two bits;
        the view is the old one with (row, col) set to value % 4 (`value & 3`). */
    method SetCell(row: int, col: int, value: int)
      requires Valid() && InBounds(size, row, col)
      modifies bits
      ensures Cells() == Set(old(Cells()), size, row, col, value % 4)
    {
      var index := Index(size, row, col);
      DecodeWrite(bits[..], size, row, col, value);
      bits[index] := LowBit(value);
      bits[index + 1] := HighBit(value);
      assert bits[..] == old(bits[..])[index := LowBit(value)][index + 1 := HighBit(value)];
    }

    /** `Clone`: a board over a copy of the bits, with the same view. */
    method Clone() returns (b: BitArrayGomokuBoard)
      requires Valid()
      ensures fresh(b) && fresh(b.bits) && b.Valid()
      ensures b.size == size && b.Cells() == Cells()
    {
      b := new BitArrayGomokuBoard.Copy(bits, size);
    }

    /** `CountTiles`: walks from the neighbour of (row, col) while the cells
        match it; the count is the run of the view. */
    method CountTiles(row: int, col: int, dRow: int, dCol: int) returns (count: int)
      requires Valid() && InBounds(size, row, col) && IsDirection(dRow, dCol)
      ensures count == Count(Cells(), size, row, col, dRow, dCol)
    {
      ghost var g := Cells();
      count := 0;
      var value := GetCell(row, col);
      var currentRow, currentCol := row + dRow, col + dCol;
      while InBounds(size, currentRow, currentCol) && GetCell(currentRow, currentCol) == value
        invariant count + Run(g, size, value, currentRow, currentCol, dRow, dCol)
               == Count(g, size, row, col, dRow, dCol)
        invariant g == Cells()
        decreases Run(g, size, value, currentRow, currentCol, dRow, dCol)
      {
        RunStep(g, size, value, currentRow, currentCol, dRow, dCol);
        count := count + 1;
        currentRow, currentCol := currentRow + dRow, currentCol + dCol;
      }
    }

    /** `IsWinning`: the four-axis rule of the view. */
    method IsWinning(row: int, col: int, winCount: int) returns (b: bool)
      requires Valid() && InBounds(size, row, col)
      ensures b == Grid.IsWinning(Cells(), size, row, col, winCount)
    {
      var f := CountTiles(row, col, 1, 0);
      var k := CountTiles(row, col, -1, 0);
      if f + k >= winCount - 1 { return true; }
      f := CountTiles(row, col, 0, 1);
      k := CountTiles(row, col, 0, -1);
      if f + k >= winCount - 1 { return true; }
      f := CountTiles(row, col, 1, 1);
      k := CountTiles(row, col, -1, -1);
      if f + k >= winCount - 1 { return true; }
      f := CountTiles(row, col, 1, -1);
      k := CountTiles(row, col, -1, 1);
      return f + k >= winCount - 1;
    }
  }
}
