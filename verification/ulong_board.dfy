/** `UlongGomokuBoard`: one `ulong` per row, three bits per cell, so at most
    21 columns (63 bits) fit in a word. */
module UlongBoard {
  import opened Tiles
  import opened Grid
  import opened Word64

  /** The largest side the constructor accepts. */
  const MaxSize := 21

  /** The 3-bit field of column c in a row word: bits 3c, 3c+1 and 3c+2, read
      as an unsigned number. */
  function Field(w: Word, c: int): int
    requires 0 <= c < MaxSize
  {
    (if w[3 * c] then 1 else 0) + 2 * (if w[3 * c + 1] then 1 else 0) + 4 * (if w[3 * c + 2] then 1 else 0)
  }

  /** `(int)((w >> shift) & 0x07)` with `shift = col * 3`. */
  function Read(w: Word, col: int): int {
    ToNat(And(ShiftRight(w, col * 3), Seven()))
  }

  /** `(w & ~(0x07UL << shift)) | ((ulong)value << shift)` with
      `shift = col * 3`: the value is not masked before the OR. */
  function Write(w: Word, col: int, value: int): Word {
    Or(And(w, Not(ShiftLeft(Seven(), col * 3))), ShiftLeft(FromInt(value), col * 3))
  }

  /** Reading a column yields its 3-bit field, a number in 0..7. */
  lemma ReadIsField(w: Word, col: int)
    requires 0 <= col < MaxSize
    ensures Read(w, col) == Field(w, col)
    ensures 0 <= Read(w, col) < 8
  {
    var x := And(ShiftRight(w, col * 3), Seven());
    ToNatOfLow3(x);
  }

  /** `0x07UL << shift`: bits 3col, 3col+1 and 3col+2. */
  lemma MaskBits(col: int)
    requires 0 <= col < MaxSize
    ensures forall i :: 0 <= i < 64 ==> ShiftLeft(Seven(), col * 3)[i] == (3 * col <= i < 3 * col + 3)
  {
    assert (col * 3) % 64 == col * 3;
  }

  /** Bit by bit: below the field the word is kept, the field holds the low
      bits of `(ulong)value`, and above it the rest of that value is ORed in. */
  lemma WriteBits(w: Word, col: int, value: int)
    requires 0 <= col < MaxSize
    ensures forall i :: 0 <= i < 3 * col ==> Write(w, col, value)[i] == w[i]
    ensures forall i :: 3 * col <= i < 3 * col + 3 ==> Write(w, col, value)[i] == FromInt(value)[i - 3 * col]
    ensures forall i :: 3 * col + 3 <= i < 64 ==>
              Write(w, col, value)[i] == (w[i] || FromInt(value)[i - 3 * col])
  {
    var k := col * 3;
    assert k % 64 == k;
    var mask, v := ShiftLeft(Seven(), k), ShiftLeft(FromInt(value), k);
    MaskBits(col);
    var x := Write(w, col, value);
    assert x == Or(And(w, Not(mask)), v);
    forall i | 0 <= i < 64
      ensures x[i] == (if i < k then w[i] else if i < k + 3 then FromInt(value)[i - k] else w[i] || FromInt(value)[i - k])
    {
      assert x[i] == ((w[i] && !mask[i]) || v[i]);
    }
  }

  /** The written field reads back as value % 8 (two's complement low bits). */
  lemma WriteSameField(w: Word, col: int, value: int)
    requires 0 <= col < MaxSize
    ensures Field(Write(w, col, value), col) == value % 8
  {
    WriteBits(w, col, value);
    FromIntLow(value);
  }

  /** Fields below the written one never change, whatever the value. */
  lemma WriteLowerField(w: Word, col: int, value: int, d: int)
    requires 0 <= d < col < MaxSize
    ensures Field(Write(w, col, value), d) == Field(w, d)
  {
    WriteBits(w, col, value);
  }

  /** For a value in 0..7 the write touches its own field only. */
  lemma WriteOtherField(w: Word, col: int, value: int, d: int)
    requires 0 <= col < MaxSize && 0 <= d < MaxSize && d != col && 0 <= value < 8
    ensures Field(Write(w, col, value), d) == Field(w, d)
  {
    WriteBits(w, col, value);
    FromIntSmall(value);
  }

  /** A value of 8 or more spills into the next field: a value in 8..15 leaves
      value - 8 in its own field and sets the lowest bit of the next one. */
  lemma WriteSpills(w: Word, col: int, value: int)
    requires 0 <= col < MaxSize - 1 && 8 <= value < 16
    ensures Field(Write(w, col, value), col) == value - 8
    ensures Field(Write(w, col, value), col + 1) == Field(w, col + 1) + (if w[3 * col + 3] then 0 else 1)
  {
    WriteBits(w, col, value);
    FromIntNextField(value);
  }

  /** The n cells one row word encodes. */
  function DecodeRow(w: Word, n: int): (row: seq<int>)
    requires 0 <= n <= MaxSize
    ensures |row| == n
  {
    seq(n, c requires 0 <= c < n => Field(w, c))
  }

  /** The board a list of row words encodes, n cells per row: cell (r, c) is
      field c of word r. */
  function Decode(words: seq<Word>, n: int): (g: Grid.Cells)
    requires 0 <= n <= MaxSize
    ensures |g| == |words| && forall r :: 0 <= r < |g| ==> |g[r]| == n
  {
    if |words| == 0 then [] else Decode(words[..|words| - 1], n) + [DecodeRow(words[|words| - 1], n)]
  }

  lemma {:induction false} DecodeCell(words: seq<Word>, n: int, r: int, c: int)
    requires 0 <= n <= MaxSize && 0 <= r < |words| && 0 <= c < n
    ensures Decode(words, n)[r][c] == Field(words[r], c)
  {
    var k := |words| - 1;
    if r < k {
      DecodeCell(words[..k], n, r, c);
    }
  }

  /** Replacing one row word changes that row of the decoded board only. */
  lemma DecodeUpdate(words: seq<Word>, n: int, row: int, w: Word)
    requires |words| == n <= MaxSize && 0 <= row < n
    ensures forall r, c :: InBounds(n, r, c) ==>
      && Decode(words, n)[r][c] == Field(words[r], c)
      && Decode(words[row := w], n)[r][c] == if r == row then Field(w, c) else Field(words[r], c)
  {
    var after := words[row := w];
    forall r, c | InBounds(n, r, c)
      ensures Decode(words, n)[r][c] == Field(words[r], c)
      ensures Decode(after, n)[r][c] == if r == row then Field(w, c) else Field(words[r], c)
    {
      assert after[r] == if r == row then w else words[r];
      DecodeCell(after, n, r, c);
      DecodeCell(words, n, r, c);
    }
  }

  /** A value in 0..7 lands in its own field and leaves every other field. */
  lemma WriteFields(w: Word, col: int, value: int)
    requires 0 <= col < MaxSize && 0 <= value < 8
    ensures forall c :: 0 <= c < MaxSize ==> Field(Write(w, col, value), c) == if c == col then value else Field(w, c)
  {
    forall c | 0 <= c < MaxSize
      ensures Field(Write(w, col, value), c) == if c == col then value else Field(w, c)
    {
      if c == col {
        WriteSameField(w, col, value);
      } else {
        WriteOtherField(w, col, value, c);
      }
    }
  }

  /** What `SetCell` does to the decoded board: the cell reads value % 8, and
      the cells to its left and every other row keep their values. */
  lemma DecodeWrite(words: seq<Word>, n: int, row: int, col: int, value: int)
    requires |words| == n <= MaxSize && InBounds(n, row, col)
    ensures var g, h := Decode(words, n), Decode(words[row := Write(words[row], col, value)], n);
      && h[row][col] == value % 8
      && (forall c :: 0 <= c < col ==> h[row][c] == g[row][c])
      && (forall r, c :: InBounds(n, r, c) && r != row ==> h[r][c] == g[r][c])
  {
    var w := Write(words[row], col, value);
    DecodeUpdate(words, n, row, w);
    WriteSameField(words[row], col, value);
    forall c | 0 <= c < col
      ensures Decode(words[row := w], n)[row][c] == Decode(words, n)[row][c]
    {
      WriteLowerField(words[row], col, value, c);
    }
  }

  /** For a value in 0..7, `SetCell` changes exactly the one cell of the
      decoded board. */
  lemma DecodeWriteSmall(words: seq<Word>, n: int, row: int, col: int, value: int)
    requires |words| == n <= MaxSize && InBounds(n, row, col) && 0 <= value < 8
    ensures Decode(words[row := Write(words[row], col, value)], n) == Set(Decode(words, n), n, row, col, value)
  {
    var w := Write(words[row], col, value);
    DecodeUpdate(words, n, row, w);
    WriteFields(words[row], col, value);
    var g, h := Decode(words, n), Decode(words[row := w], n);
    forall r, c | InBounds(n, r, c)
      ensures h[r][c] == Set(g, n, row, col, value)[r][c]
    {
    }
    SameCells(h, Set(g, n, row, col, value), n);
  }

  /** The all-zero row word reads Empty in every column. */
  lemma ZeroRow(c: int)
    requires 0 <= c < MaxSize
    ensures Field(Zero, c) == Empty
  {
  }

  class UlongGomokuBoard {
    /** `_size`. */
    const size: int
    /** `_rows`: word r packs row r. */
    var rows: array<Word>

    ghost predicate Valid()
      reads this
    {
      0 <= size <= MaxSize && rows.Length == size
    }

    /** The board the words encode: cell (r, c) is field c of word r. */
    ghost function Cells(): (g: Grid.Cells)
      reads this, rows
      requires Valid()
      ensures IsSquare(g, size)
    {
      Decode(rows[..], size)
    }

    /** The constructor once the size guard has passed: `size` zero words. */
    constructor(size: nat)
      requires size <= MaxSize
      ensures Valid() && this.size == size && fresh(rows)
      ensures forall r :: 0 <= r < size ==> rows[r] == Zero
      ensures Cells() == Blank(size, Empty)
    {
      this.size := size;
      rows := new Word[size](_ => Zero);
      new;
      forall r, c | InBounds(size, r, c)
        ensures Cells()[r][c] == Blank(size, Empty)[r][c]
      {
        ZeroRow(c);
        DecodeCell(rows[..], size, r, c);
      }
      SameCells(Cells(), Blank(size, Empty), size);
    }

    /** `new UlongGomokuBoard(size)`: throws when size exceeds 21 (null here);
        otherwise every cell of the new board reads Empty. */
    static method Create(size: nat) returns (b: UlongGomokuBoard?)
      ensures b == null <==> size > MaxSize
      ensures b != null ==> fresh(b) && fresh(b.rows) && b.Valid() && b.size == size
      ensures b != null ==> b.Cells() == Blank(size, Empty)
    {
      if size > MaxSize {
        return null;
      }
      b := new UlongGomokuBoard(size);
    }

    /** `GetCell`: shifts the row word and masks three bits; the result is the
        cell of the board view and always lies in 0..7. */
    function GetCell(row: int, col: int): (v: int)
      reads this, rows
      requires Valid() && InBounds(size, row, col)
      ensures v == Cells()[row][col]
      ensures 0 <= v < 8
    {
      ReadIsField(rows[row], col);
      DecodeCell(rows[..], size, row, col);
      Read(rows[row], col)
    }

    /** `SetCell`: rewrites the row word. The field reads value % 8 and lower
        fields of the row and every other row are kept; for a value in 0..7
        the board is exactly the old one with (row, col) set to value. */
    method SetCell(row: int, col: int, value: int)
      requires Valid() && InBounds(size, row, col)
      modifies rows
      ensures Valid()
      ensures rows[..] == old(rows[..])[row := Write(old(rows[row]), col, value)]
      ensures Cells()[row][col] == value % 8
      ensures forall c :: 0 <= c < col ==> Cells()[row][c] == old(Cells())[row][c]
      ensures forall r, c :: InBounds(size, r, c) && r != row ==> Cells()[r][c] == old(Cells())[r][c]
      ensures 0 <= value < 8 ==> Cells() == Set(old(Cells()), size, row, col, value)
    {
      DecodeWrite(rows[..], size, row, col, value);
      if 0 <= value < 8 {
        DecodeWriteSmall(rows[..], size, row, col, value);
      }
      rows[row] := Write(rows[row], col, value);
    }

    /** `Clone`: a new board over a copy of the row array. */
    method Clone() returns (b: UlongGomokuBoard)
      requires Valid()
      ensures fresh(b) && fresh(b.rows) && b.Valid()
      ensures b.size == size && b.rows[..] == rows[..] && b.Cells() == Cells()
    {
      b := new UlongGomokuBoard(size);
      var copy := new Word[size](i reads this, rows requires 0 <= i < size && rows.Length == size => rows[i]);
      b.rows := copy;
      assert b.rows[..] == rows[..];
    }

    /** `CountTiles`: walks from the neighbour of (row, col) while the cells
        match it; the count is the run of the view. */
    method CountTiles(row: int, col: int, dRow: int, dCol: int) returns (count: int)
      requires Valid() && InBounds(size, row, col) && IsDirection(dRow, dCol)
      ensures count == Count(Cells(), size, row, col, dRow, dCol)
    {
      ghost var g := Cells();
      count := 0;
      var value := GetCell(row, col);
      var currentRow, currentCol := row + dRow, col + dCol;
      while InBounds(size, currentRow, currentCol) && GetCell(currentRow, currentCol) == value
        invariant count + Run(g, size, value, currentRow, currentCol, dRow, dCol)
               == Count(g, size, row, col, dRow, dCol)
        invariant g == Cells()
        decreases Run(g, size, value, currentRow, currentCol, dRow, dCol)
      {
        RunStep(g, size, value, currentRow, currentCol, dRow, dCol);
        count := count + 1;
        currentRow, currentCol := currentRow + dRow, currentCol + dCol;
      }
    }

    /** `IsWinning`: the four-axis rule of the board view. */
    method IsWinning(row: int, col: int, winCount: int) returns (b: bool)
      requires Valid() && InBounds(size, row, col)
      ensures b == Grid.IsWinning(Cells(), size, row, col, winCount)
    {
      var f := CountTiles(row, col, 1, 0);
      var k := CountTiles(row, col, -1, 0);
      if f + k >= winCount - 1 { return true; }
      f := CountTiles(row, col, 0, 1);
      k := CountTiles(row, col, 0, -1);
      if f + k >= winCount - 1 { return true; }
      f := CountTiles(row, col, 1, 1);
      k := CountTiles(row, col, -1, -1);
      if f + k >= winCount - 1 { return true; }
      f := CountTiles(row, col, 1, -1);
      k := CountTiles(row, col, -1, 1);
      return f + k >= winCount - 1;
    }
  }
}
