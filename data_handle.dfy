/** Conversion between a binary document and the bit matrix handed to the
    encoding method, and between symbol sequences and the line-oriented
    sequence file (yyc/utils/data_handle.py). */
module DataHandle {

  /** A byte, as a `bytes` object yields it and `struct.pack("B", …)` accepts it. */
  type Byte = b: int | 0 <= b < 256

  /** One cell of the bit matrix. */
  type Bit = b: int | 0 <= b <= 1

  /** Rows of bits; every row built by `ReadBinaryFromAll` is `segment_length` long. */
  type Matrix = seq<seq<Bit>>

  // ---------------------------------------------------------------------------
  // Bits of a byte and the value of a bit string
  // ---------------------------------------------------------------------------

  function Pow2(n: nat): (r: nat)
    ensures r >= 1
  {
    if n == 0 then 1 else 2 * Pow2(n - 1)
  }

  /** The `width` low-order bits of `v`, most significant first: the digits of
      Python's `"{:08b}".format(v)` when `width` is 8 and `v` is a byte. */
  function BitsOf(v: nat, width: nat): (r: seq<Bit>)
    ensures |r| == width
  {
    if width == 0 then [] else BitsOf(v / 2, width - 1) + [v % 2]
  }

  /** The eight bits of a byte, most significant first. */
  function ByteBits(b: Byte): (r: seq<Bit>)
    ensures |r| == 8
  {
    BitsOf(b, 8)
  }

  /** The big-endian value of a bit string: what `temp_byte = 2 * temp_byte + cell`
      accumulates over the bits. */
  function BigEndian(bits: seq<Bit>): (r: nat)
    ensures r < Pow2(|bits|)
  {
    if bits == [] then 0 else 2 * BigEndian(bits[..|bits| - 1]) + bits[|bits| - 1]
  }

  /** Reading back the bits of a value that fits in `width` bits gives the value. */
  lemma {:induction false} BigEndianBitsOf(v: nat, width: nat)
    requires v < Pow2(width)
    ensures BigEndian(BitsOf(v, width)) == v
  {
    if width > 0 {
      var bits := BitsOf(v, width);
      assert bits[..width - 1] == BitsOf(v / 2, width - 1);
      BigEndianBitsOf(v / 2, width - 1);
    }
  }

  /** The value of eight bits is a byte. */
  function ByteValue(bits: seq<Bit>): (b: Byte)
    requires |bits| == 8
    ensures b == BigEndian(bits)
  {
    assert Pow2(8) == 256;
    BigEndian(bits)
  }

  lemma ByteValueOfByteBits(b: Byte)
    ensures ByteValue(ByteBits(b)) == b
  {
    assert Pow2(8) == 256;
    BigEndianBitsOf(b, 8);
  }

  // ---------------------------------------------------------------------------
  // Concatenation (row-major flattening, and the lines of a file)
  // ---------------------------------------------------------------------------

  function Concat<T>(parts: seq<seq<T>>): (r: seq<T>)
  {
    if parts == [] then [] else parts[0] + Concat(parts[1..])
  }

  lemma {:induction false} ConcatSnoc<T>(parts: seq<seq<T>>, last: seq<T>)
    ensures Concat(parts + [last]) == Concat(parts) + last
  {
    if parts == [] {
      assert [] + [last] == [last];
    } else {
      assert (parts + [last])[1..] == parts[1..] + [last];
      ConcatSnoc(parts[1..], last);
    }
  }

  /** Where row `r` starts when rows of `width` cells are laid end to end:
      `r * width`, written as repeated addition. */
  function Offset(r: nat, width: nat): (start: nat)
  {
    if r == 0 then 0 else Offset(r - 1, width) + width
  }

  /** The repeated addition is the product. */
  lemma {:induction false} OffsetIsProduct(r: nat, width: nat)
    ensures Offset(r, width) == r * width
  {
    if r > 0 {
      OffsetIsProduct(r - 1, width);
      assert r * width == (r - 1) * width + width;
    }
  }

  lemma {:induction false} OffsetMono(a: nat, b: nat, width: nat)
    requires a <= b
    ensures Offset(a, width) <= Offset(b, width)
    decreases b
  {
    if a < b {
      OffsetMono(a, b - 1, width);
    }
  }

  /** Cell `(r, c)` comes before cell `(row, col)` in row-major order. */
  predicate Before(r: nat, c: nat, row: nat, col: nat)
  {
    r < row || (r == row && c < col)
  }

  /** Row-major order agrees with the order of flattened positions. */
  lemma LexOrder(r: nat, c: nat, row: nat, col: nat, width: nat)
    requires c < width && col < width
    ensures Before(r, c, row, col) <==> Offset(r, width) + c < Offset(row, width) + col
  {
    if r < row {
      OffsetMono(r + 1, row, width);
    } else if r > row {
      OffsetMono(row + 1, r, width);
    }
  }

  /** The row holding flattened position `p` when rows are `width` cells long. */
  function RowOf(p: nat, width: nat): (r: nat)
    requires width > 0
    ensures Offset(r, width) <= p < Offset(r, width) + width
  {
    if p < width then 0 else RowOf(p - width, width) + 1
  }

  /** Flattening rows that all have length `width` gives `Offset(|rows|, width)` cells. */
  lemma {:induction false} ConcatUniformLength<T>(rows: seq<seq<T>>, width: nat)
    requires forall i :: 0 <= i < |rows| ==> |rows[i]| == width
    ensures |Concat(rows)| == Offset(|rows|, width)
  {
    if rows != [] {
      ConcatUniformLength(rows[1..], width);
    }
  }

  /** Flattening rows that all have length `width`: cell `(r, c)` lands at
      position `Offset(r, width) + c`. */
  lemma {:induction false} ConcatUniformAt<T>(rows: seq<seq<T>>, width: nat, r: nat, c: nat)
    requires forall i :: 0 <= i < |rows| ==> |rows[i]| == width
    requires r < |rows| && c < width
    ensures Offset(r, width) + c < |Concat(rows)|
    ensures Concat(rows)[Offset(r, width) + c] == rows[r][c]
  {
    ConcatUniformLength(rows, width);
    OffsetMono(r + 1, |rows|, width);
    if r > 0 {
      ConcatUniformAt(rows[1..], width, r - 1, c);
      assert rows[1..][r - 1] == rows[r];
    }
  }

  // ---------------------------------------------------------------------------
  // Byte stream -> bit matrix (read_binary_from_all)
  // ---------------------------------------------------------------------------

  /** The number of rows of `width` cells needed for `bits` bits, i.e.
      `math.ceil(bits / width)`: the smallest count whose rows hold all bits. */
  function RowCount(bits: nat, width: nat): (rows: nat)
    requires width > 0
    ensures bits <= Offset(rows, width) < bits + width
    ensures bits == 0 ==> rows == 0
  {
    if bits == 0 then 0
    else if bits <= width then 1
    else RowCount(bits - width, width) + 1
  }

  /** `RowCount` is the integer ceiling of `bits / width`. */
  lemma RowCountIsCeiling(bits: nat, width: nat)
    requires width > 0
    ensures RowCount(bits, width) == (bits + width - 1) / width
  {
    var rows := RowCount(bits, width);
    OffsetIsProduct(rows, width);
    DivisionByBounds(bits + width - 1, width, rows);
  }

  /** The quotient is the one multiple of `width` that brackets `x`. */
  lemma DivisionByBounds(x: nat, width: nat, q: nat)
    requires width > 0
    requires q * width <= x < q * width + width
    ensures x / width == q
  {
    var d := x / width;
    assert d * width <= x < d * width + width;
    if d < q {
      ProductGap(d, q, width);
    } else if d > q {
      ProductGap(q, d, width);
    }
  }

  /** Multiples of `width` with distinct factors are at least `width` apart. */
  lemma {:induction false} ProductGap(a: nat, b: nat, width: nat)
    requires a < b
    ensures a * width + width <= b * width
    decreases b - a
  {
    assert (a + 1) * width == a * width + width;
    if a + 1 < b {
      ProductGap(a + 1, b, width);
    }
  }

  /** Bit `p` of the stream of all bits of `data`, most significant bit of each byte first. */
  function StreamBit(data: seq<Byte>, p: nat): (bit: Bit)
    requires p < 8 * |data|
  {
    ByteBits(data[p / 8])[p % 8]
  }

  /** The value of flattened matrix position `p`: a data bit, or 0 past the data. */
  function Cell(data: seq<Byte>, p: nat): (bit: Bit)
  {
    if p < 8 * |data| then StreamBit(data, p) else 0
  }

  /** Row `r` of the matrix for `data`. */
  function MatrixRow(data: seq<Byte>, segmentLength: nat, r: nat): (row: seq<Bit>)
  {
    seq<Bit>(segmentLength, c requires 0 <= c < segmentLength => Cell(data, Offset(r, segmentLength) + c))
  }

  /** The matrix `read_binary_from_all` returns for `data`. */
  function MatrixOf(data: seq<Byte>, segmentLength: nat): (m: Matrix)
    requires segmentLength > 0
    ensures |m| == RowCount(8 * |data|, segmentLength)
    ensures forall r :: 0 <= r < |m| ==> |m[r]| == segmentLength
    ensures forall r, c :: 0 <= r < |m| && 0 <= c < |m[r]| ==> m[r][c] == Cell(data, Offset(r, segmentLength) + c)
  {
    var rows := RowCount(8 * |data|, segmentLength);
    seq(rows, r requires 0 <= r < rows => MatrixRow(data, segmentLength, r))
  }

  /** Flattened position `p` of the matrix holds `Cell(data, p)`. */
  lemma MatrixOfAt(data: seq<Byte>, segmentLength: nat, p: nat)
    requires segmentLength > 0
    requires p < |Concat(MatrixOf(data, segmentLength))|
    ensures Concat(MatrixOf(data, segmentLength))[p] == Cell(data, p)
  {
    var m := MatrixOf(data, segmentLength);
    ConcatUniformLength(m, segmentLength);
    var r := RowOf(p, segmentLength);
    var c := p - Offset(r, segmentLength);
    if r >= |m| {
      OffsetMono(|m|, r, segmentLength);
    }
    ConcatUniformAt(m, segmentLength, r, c);
  }

  /** The shape and content of the matrix, read as one flattened bit string:
      `size * 8` data bits, MSB first per byte, then fewer than `segment_length`
      zero bits of padding. */
  lemma MatrixOfLayout(data: seq<Byte>, segmentLength: nat)
    requires segmentLength > 0
    ensures var m := MatrixOf(data, segmentLength);
      && |m| == RowCount(8 * |data|, segmentLength)
      && (forall r :: 0 <= r < |m| ==> |m[r]| == segmentLength)
      && 8 * |data| <= |Concat(m)| < 8 * |data| + segmentLength
      && (forall i, j :: 0 <= i < |data| && 0 <= j < 8 ==> Concat(m)[8 * i + j] == ByteBits(data[i])[j])
      && (forall p :: 8 * |data| <= p < |Concat(m)| ==> Concat(m)[p] == 0)
  {
    var m := MatrixOf(data, segmentLength);
    ConcatUniformLength(m, segmentLength);
    forall i, j | 0 <= i < |data| && 0 <= j < 8
      ensures Concat(m)[8 * i + j] == ByteBits(data[i])[j]
    {
      MatrixOfAt(data, segmentLength, 8 * i + j);
      assert (8 * i + j) / 8 == i && (8 * i + j) % 8 == j;
    }
    forall p | 8 * |data| <= p < |Concat(m)|
      ensures Concat(m)[p] == 0
    {
      MatrixOfAt(data, segmentLength, p);
    }
  }

  /** Padding is confined to the last row: that row starts inside the data,
      and every flattened position past the data bits lies in it. */
  lemma PaddingInLastRow(data: seq<Byte>, segmentLength: nat)
    requires segmentLength > 0
    ensures var rows := RowCount(8 * |data|, segmentLength);
      && (|data| > 0 ==> Offset(rows - 1, segmentLength) < 8 * |data|)
      && forall p :: 8 * |data| <= p < Offset(rows, segmentLength) ==> RowOf(p, segmentLength) == rows - 1
  {
    var rows := RowCount(8 * |data|, segmentLength);
    if rows > 0 {
      assert Offset(rows, segmentLength) == Offset(rows - 1, segmentLength) + segmentLength;
    }
    forall p | 8 * |data| <= p < Offset(rows, segmentLength)
      ensures RowOf(p, segmentLength) == rows - 1
    {
      var r := RowOf(p, segmentLength);
      if r < rows - 1 {
        OffsetMono(r + 1, rows - 1, segmentLength);
      } else if r >= rows {
        OffsetMono(rows, r, segmentLength);
      }
    }
  }

  /** The cells before the cursor `(row, col)` hold their data bits, and the
      cells from the cursor on still hold the initial 0. */
  ghost predicate FilledBefore(matrix: array2<Bit>, data: seq<Byte>, row: nat, col: nat)
    reads matrix
  {
    forall r, c :: 0 <= r < matrix.Length0 && 0 <= c < matrix.Length1 ==>
      matrix[r, c] == if Before(r, c, row, col) then Cell(data, Offset(r, matrix.Length1) + c) else 0
  }

  /** Reads all of `data` into a freshly allocated matrix of
      `ceil(|data| * 8 / segmentLength)` rows of `segmentLength` bits, filling it
      byte by byte with a row/column cursor. */
  method ReadBinaryFromAll(data: seq<Byte>, segmentLength: nat) returns (matrix: array2<Bit>, size: nat)
    requires segmentLength > 0
    ensures fresh(matrix)
    ensures size == |data|
    ensures matrix.Length0 == RowCount(8 * size, segmentLength) && matrix.Length1 == segmentLength
    ensures forall r, c :: 0 <= r < matrix.Length0 && 0 <= c < matrix.Length1 ==>
              matrix[r, c] == MatrixOf(data, segmentLength)[r][c]
  {
    size := |data|;
    var rows := RowCount(8 * size, segmentLength);
    matrix := new Bit[rows, segmentLength]((_, _) => 0);
    var row: nat, col: nat := 0, 0;
    for byteIndex := 0 to size
      invariant col < segmentLength
      invariant Offset(row, segmentLength) + col == 8 * byteIndex
      invariant FilledBefore(matrix, data, row, col)
    {
      row, col := StoreByte(matrix, data, byteIndex, row, col);
    }
    forall r, c | 0 <= r < rows && 0 <= c < segmentLength
      ensures matrix[r, c] == Cell(data, Offset(r, segmentLength) + c)
    {
      LexOrder(r, c, row, col, segmentLength);
    }
  }

  /** The body of the per-byte loop: the eight bits of byte `byteIndex`, most
      significant first, go into the cells from the cursor on, and the cursor
      moves to the next row whenever it reaches the end of one. */
  method StoreByte(matrix: array2<Bit>, data: seq<Byte>, byteIndex: nat, row0: nat, col0: nat)
    returns (row: nat, col: nat)
    modifies matrix
    requires matrix.Length1 > 0 && matrix.Length0 == RowCount(8 * |data|, matrix.Length1)
    requires byteIndex < |data|
    requires col0 < matrix.Length1 && Offset(row0, matrix.Length1) + col0 == 8 * byteIndex
    requires FilledBefore(matrix, data, row0, col0)
    ensures col < matrix.Length1 && Offset(row, matrix.Length1) + col == 8 * byteIndex + 8
    ensures FilledBefore(matrix, data, row, col)
  {
    var width := matrix.Length1;
    var element := ByteBits(data[byteIndex]);
    row, col := row0, col0;
    for j := 0 to 8
      invariant col < width
      invariant Offset(row, width) + col == 8 * byteIndex + j
      invariant FilledBefore(matrix, data, row, col)
    {
      assert (8 * byteIndex + j) / 8 == byteIndex && (8 * byteIndex + j) % 8 == j;
      row, col := StoreBit(matrix, data, row, col, element[j]);
    }
  }

  /** One step of the cursor: `bit` goes into the cell under the cursor, which
      then moves one column right, or to the start of the next row at the end
      of a row. */
  method StoreBit(matrix: array2<Bit>, data: seq<Byte>, row0: nat, col0: nat, bit: Bit)
    returns (row: nat, col: nat)
    modifies matrix
    requires matrix.Length1 > 0 && matrix.Length0 == RowCount(8 * |data|, matrix.Length1)
    requires col0 < matrix.Length1 && Offset(row0, matrix.Length1) + col0 < 8 * |data|
    requires bit == Cell(data, Offset(row0, matrix.Length1) + col0)
    requires FilledBefore(matrix, data, row0, col0)
    ensures col < matrix.Length1 && Offset(row, matrix.Length1) + col == Offset(row0, matrix.Length1) + col0 + 1
    ensures FilledBefore(matrix, data, row, col)
  {
    if row0 >= matrix.Length0 {
      OffsetMono(matrix.Length0, row0, matrix.Length1);
    }
    matrix[row0, col0] := bit;
    row, col := row0, col0 + 1;
    if col == matrix.Length1 {
      row, col := row0 + 1, 0;
    }
    forall r, c | 0 <= r < matrix.Length0 && 0 <= c < matrix.Length1
      ensures matrix[r, c] == if Before(r, c, row, col) then Cell(data, Offset(r, matrix.Length1) + c) else 0
    {
      if r != row0 || c != col0 {
        assert matrix[r, c] == old(matrix[r, c]);
        assert Before(r, c, row, col) <==> Before(r, c, row0, col0);
      } else {
        assert Before(r, c, row, col);
      }
    }
  }

  // ---------------------------------------------------------------------------
  // Bit matrix -> byte stream (write_all_from_binary)
  // ---------------------------------------------------------------------------

  function Min(a: int, b: int): (m: int)
  {
    if a <= b then a else b
  }

  /** The bytes `write_all_from_binary` emits for the flattened bits `bits` and
      the declared byte count `size`: byte `k` is the value of bits `8k .. 8k+7`,
      and emission stops at `size` bytes or when fewer than eight bits remain. */
  function PackBytes(bits: seq<Bit>, size: nat): (r: seq<Byte>)
    ensures |r| <= size
    ensures |r| == size <==> 8 * size <= |bits|
    ensures forall k :: 0 <= k < |r| ==> 8 * k + 8 <= |bits| && r[k] == BigEndian(bits[8 * k .. 8 * k + 8])
  {
    seq(Min(size, |bits| / 8), k requires 0 <= k < Min(size, |bits| / 8) => ByteValue(bits[8 * k .. 8 * k + 8]))
  }

  /** The exact byte count: `size`, or fewer when the bits run out first, in
      which case only the whole bytes present are written. */
  lemma PackBytesLength(bits: seq<Bit>, size: nat)
    ensures |PackBytes(bits, size)| == Min(size, |bits| / 8)
    ensures |bits| < 8 * size ==> |PackBytes(bits, size)| == |bits| / 8
  {
  }

  /** A byte already emitted stays the same when one more bit arrives. */
  lemma PackBytesPrefix(bits: seq<Bit>, x: Bit, size: nat, k: nat)
    requires k < |PackBytes(bits, size)|
    ensures k < |PackBytes(bits + [x], size)| && PackBytes(bits + [x], size)[k] == PackBytes(bits, size)[k]
  {
    var longer := bits + [x];
    assert longer[8 * k .. 8 * k + 8] == bits[8 * k .. 8 * k + 8];
  }

  /** Appending one bit either completes a new byte (when a multiple of eight
      bits is reached and fewer than `size` bytes exist) or changes nothing. */
  lemma PackBytesSnoc(bits: seq<Bit>, x: Bit, size: nat)
    ensures PackBytes(bits + [x], size) ==
      if (|bits| + 1) % 8 == 0 && (|bits| + 1) / 8 <= size
      then PackBytes(bits, size) + [ByteValue((bits + [x])[|bits| + 1 - 8 ..])]
      else PackBytes(bits, size)
  {
    var longer := bits + [x];
    var a, b := PackBytes(bits, size), PackBytes(longer, size);
    assert |a| == Min(size, |bits| / 8) && |b| == Min(size, |longer| / 8);
    DivSucc(|bits|);
    forall k | 0 <= k < |a|
      ensures b[k] == a[k]
    {
      PackBytesPrefix(bits, x, size, k);
    }
    if (|bits| + 1) % 8 == 0 && (|bits| + 1) / 8 <= size {
      assert |b| == |a| + 1;
      assert longer[8 * |a| .. 8 * |a| + 8] == longer[|bits| + 1 - 8 ..];
      assert b[|a|] == ByteValue(longer[|bits| + 1 - 8 ..]);
      assert b == a + [ByteValue(longer[|bits| + 1 - 8 ..])];
    } else {
      assert |b| == |a|;
      assert b == a;
    }
  }

  /** What the packing loop has established after consuming the bits `consumed`:
      `written` holds the completed bytes, `remaining` counts the bytes still
      allowed, and while bytes are still allowed, `bitIndex`/`tempByte` hold the
      partial byte made of the last `bitIndex` consumed bits. */
  ghost predicate PackerState(consumed: seq<Bit>, written: seq<Byte>, bitIndex: nat, tempByte: nat,
                              remaining: nat, size: nat)
  {
    && written == PackBytes(consumed, size)
    && |written| + remaining == size
    && (remaining > 0 ==>
          bitIndex < 8 && |consumed| == 8 * |written| + bitIndex
          && tempByte == BigEndian(consumed[|consumed| - bitIndex ..]))
  }

  /** Counting one more bit adds a whole byte exactly when it completes a
      group of eight. */
  lemma DivSucc(n: nat)
    ensures (n + 1) % 8 == 0 ==> (n + 1) / 8 == n / 8 + 1
    ensures (n + 1) % 8 != 0 ==> (n + 1) / 8 == n / 8
  {
    var q, r := n / 8, n % 8;
    EightDivMod(q, r);
    if r == 7 {
      EightDivMod(q + 1, 0);
    } else {
      EightDivMod(q, r + 1);
    }
  }

  /** One step of the packing loop keeps `PackerState`, whichever of its three
      cases the new bit falls in. */
  lemma PackerStep(consumed: seq<Bit>, written: seq<Byte>, bitIndex: nat, tempByte: nat,
                   remaining: nat, size: nat, cell: Bit)
    requires PackerState(consumed, written, bitIndex, tempByte, remaining, size)
    ensures var longer := consumed + [cell];
      var index', temp' := bitIndex + 1, tempByte * 2 + cell;
      if index' == 8 && remaining > 0 then
        temp' < 256 && PackerState(longer, written + [temp'], 0, 0, remaining - 1, size)
      else
        PackerState(longer, written, index', temp', remaining, size)
  {
    if remaining == 0 {
      PackerStepDone(consumed, written, bitIndex, tempByte, size, cell);
    } else if bitIndex + 1 < 8 {
      PackerStepBit(consumed, written, bitIndex, tempByte, remaining, size, cell);
    } else {
      PackerStepByte(consumed, written, tempByte, remaining, size, cell);
    }
  }

  /** Once `size` bytes are out, a further bit changes neither the output nor
      the count; the partial byte is no longer tracked. */
  lemma PackerStepDone(consumed: seq<Bit>, written: seq<Byte>, bitIndex: nat, tempByte: nat,
                       size: nat, cell: Bit)
    requires PackerState(consumed, written, bitIndex, tempByte, 0, size)
    ensures PackerState(consumed + [cell], written, bitIndex + 1, tempByte * 2 + cell, 0, size)
  {
    PackBytesSnoc(consumed, cell, size);
  }

  /** A bit that does not complete a byte shifts into the partial byte and
      leaves the output unchanged. */
  lemma PackerStepBit(consumed: seq<Bit>, written: seq<Byte>, bitIndex: nat, tempByte: nat,
                      remaining: nat, size: nat, cell: Bit)
    requires PackerState(consumed, written, bitIndex, tempByte, remaining, size)
    requires remaining > 0 && bitIndex + 1 < 8
    ensures PackerState(consumed + [cell], written, bitIndex + 1, tempByte * 2 + cell, remaining, size)
  {
    PackBytesSnoc(consumed, cell, size);
    PartialByteSnoc(consumed, bitIndex, tempByte, cell);
    EightDivMod(|written|, bitIndex + 1);
  }

  /** A bit that completes a byte, while bytes are still allowed, emits the
      partial byte's value and starts a new, empty partial byte. */
  lemma PackerStepByte(consumed: seq<Bit>, written: seq<Byte>, tempByte: nat,
                       remaining: nat, size: nat, cell: Bit)
    requires PackerState(consumed, written, 7, tempByte, remaining, size)
    requires remaining > 0
    ensures tempByte * 2 + cell < 256
    ensures PackerState(consumed + [cell], written + [tempByte * 2 + cell], 0, 0, remaining - 1, size)
  {
    PackBytesSnoc(consumed, cell, size);
    PartialByteSnoc(consumed, 7, tempByte, cell);
    var longer := consumed + [cell];
    EightDivMod(|written| + 1, 0);
    ghost var full := longer[|longer| - 8 ..];
    assert ByteValue(full) == tempByte * 2 + cell;
  }

  lemma EightDivMod(q: nat, r: nat)
    requires r < 8
    ensures (8 * q + r) / 8 == q && (8 * q + r) % 8 == r
  {
  }

  /** One more bit shifts into the partial byte: the value of the last
      `bitIndex + 1` bits is twice the value of the last `bitIndex`, plus the
      new bit. */
  lemma PartialByteSnoc(consumed: seq<Bit>, bitIndex: nat, tempByte: nat, cell: Bit)
    requires bitIndex <= |consumed|
    requires tempByte == BigEndian(consumed[|consumed| - bitIndex ..])
    ensures var longer := consumed + [cell];
      tempByte * 2 + cell == BigEndian(longer[|longer| - (bitIndex + 1) ..])
  {
    var longer := consumed + [cell];
    var tail := longer[|longer| - (bitIndex + 1) ..];
    assert tail[..|tail| - 1] == consumed[|consumed| - bitIndex ..];
  }

  /** Repacks the matrix's bits, eight at a time in row-major order, into the
      bytes written to the output; once `size` bytes are out, `bit_index` is
      no longer reset, so nothing more is written. */
  method WriteAllFromBinary(matrix: Matrix, size: nat) returns (written: seq<Byte>)
    ensures written == PackBytes(Concat(matrix), size)
  {
    written := [];
    var bitIndex: nat, tempByte: nat, remaining: nat := 0, 0, size;
    ghost var consumed: seq<Bit> := [];
    for rowId := 0 to |matrix|
      invariant consumed == Concat(matrix[..rowId])
      invariant PackerState(consumed, written, bitIndex, tempByte, remaining, size)
    {
      var row := matrix[rowId];
      for c := 0 to |row|
        invariant consumed == Concat(matrix[..rowId]) + row[..c]
        invariant PackerState(consumed, written, bitIndex, tempByte, remaining, size)
      {
        var cell := row[c];
        PackerStep(consumed, written, bitIndex, tempByte, remaining, size, cell);
        consumed := consumed + [cell];
        assert row[..c + 1] == row[..c] + [cell];
        bitIndex := bitIndex + 1;
        tempByte := tempByte * 2 + cell;
        if bitIndex == 8 {
          if remaining > 0 {
            written := written + [tempByte];
            bitIndex := 0;
            tempByte := 0;
            remaining := remaining - 1;
          }
        }
      }
      assert matrix[..rowId + 1] == matrix[..rowId] + [row];
      assert row[..|row|] == row;
      ConcatSnoc(matrix[..rowId], row);
    }
    assert matrix[..|matrix|] == matrix;
  }

  /** Unpacking then repacking with the byte count reproduces the input. */
  lemma CodecRoundTrip(data: seq<Byte>, segmentLength: nat)
    requires segmentLength > 0
    ensures PackBytes(Concat(MatrixOf(data, segmentLength)), |data|) == data
  {
    var bits := Concat(MatrixOf(data, segmentLength));
    MatrixOfLayout(data, segmentLength);
    var out := PackBytes(bits, |data|);
    forall k | 0 <= k < |data|
      ensures out[k] == data[k]
    {
      assert bits[8 * k .. 8 * k + 8] == ByteBits(data[k]);
      ByteValueOfByteBits(data[k]);
    }
  }

  // ---------------------------------------------------------------------------
  // Symbol sequences <-> sequence file lines (write_dna_file, read_dna_file)
  // ---------------------------------------------------------------------------

  const Newline: Byte := 10

  /** The ASCII whitespace bytes that `bytes.strip()` removes. */
  predicate IsSpace(b: Byte)
  {
    b == 32 || 9 <= b <= 13
  }

  /** `str.encode("utf-8")` of one symbol. */
  function Utf8(c: char): (r: seq<Byte>)
    ensures 1 <= |r| <= 4
    ensures |r| == 1 <==> (c as int) < 0x80
    ensures |r| == 1 ==> r[0] == c as int
    ensures |r| > 1 ==> forall i :: 0 <= i < |r| ==> r[i] >= 0x80
  {
    var v := c as int;
    if v < 0x80 then [v]
    else if v < 0x800 then [0xC0 + v / 0x40, 0x80 + v % 0x40]
    else if v < 0x10000 then [0xE0 + v / 0x1000, 0x80 + (v / 0x40) % 0x40, 0x80 + v % 0x40]
    else [0xF0 + v / 0x40000, 0x80 + (v / 0x1000) % 0x40, 0x80 + (v / 0x40) % 0x40, 0x80 + v % 0x40]
  }

  /** The encoded symbols of one sequence, joined. */
  function Utf8Symbols(row: seq<char>): (r: seq<Byte>)
  {
    if row == [] then [] else Utf8(row[0]) + Utf8Symbols(row[1..])
  }

  /** The line `write_dna_file` emits for one sequence. */
  function Line(row: seq<char>): (line: seq<Byte>)
  {
    Utf8Symbols(row) + [Newline]
  }

  /** The lines of the file for `sequences`, in order. */
  function FileLines(sequences: seq<seq<char>>): (lines: seq<seq<Byte>>)
  {
    seq(|sequences|, i requires 0 <= i < |sequences| => Line(sequences[i]))
  }

  /** The whole content `write_dna_file` writes for `sequences`. */
  function DnaFileBytes(sequences: seq<seq<char>>): (content: seq<Byte>)
    ensures content == [] <==> sequences == []
    ensures content != [] ==> content[|content| - 1] == Newline
  {
    ConcatEndsWith(FileLines(sequences));
    Concat(FileLines(sequences))
  }

  /** Joining nonempty pieces that each end in a newline gives a string that is
      empty exactly when there are no pieces, and otherwise ends in a newline. */
  lemma {:induction false} ConcatEndsWith(lines: seq<seq<Byte>>)
    requires forall i :: 0 <= i < |lines| ==> lines[i] != [] && lines[i][|lines[i]| - 1] == Newline
    ensures Concat(lines) == [] <==> lines == []
    ensures Concat(lines) != [] ==> Concat(lines)[|Concat(lines)| - 1] == Newline
  {
    if lines != [] {
      ConcatEndsWith(lines[1..]);
    }
  }

  /** Writes the sequences in input order, one line each, and hands the
      sequences back unchanged. */
  method WriteDnaFile(sequences: seq<seq<char>>) returns (written: seq<Byte>, echoed: seq<seq<char>>)
    ensures written == DnaFileBytes(sequences)
    ensures echoed == sequences
  {
    written := [];
    ghost var lines := FileLines(sequences);
    for rowId := 0 to |sequences|
      invariant written == Concat(lines[..rowId])
    {
      var row := sequences[rowId];
      assert lines[..rowId + 1] == lines[..rowId] + [Line(row)];
      ConcatSnoc(lines[..rowId], Line(row));
      written := written + (Utf8Symbols(row) + [Newline]);
    }
    assert lines[..|sequences|] == lines;
    echoed := sequences;
  }

  /** Length of the first line of `b` (a nonempty byte string): up to and
      including its first newline, or all of `b` when it has none. */
  function LineEnd(b: seq<Byte>): (k: nat)
    requires b != []
    ensures 0 < k <= |b|
    ensures forall i :: 0 <= i < k - 1 ==> b[i] != Newline
    ensures k < |b| ==> b[k - 1] == Newline
  {
    if b[0] == Newline || |b| == 1 then 1 else 1 + LineEnd(b[1..])
  }

  /** `readlines()`: `b` cut after every newline; the last piece may lack one,
      and no empty piece is produced. */
  function Lines(b: seq<Byte>): (lines: seq<seq<Byte>>)
    ensures Concat(lines) == b
    ensures forall i :: 0 <= i < |lines| ==> lines[i] != []
    ensures forall i, j :: 0 <= i < |lines| && 0 <= j < |lines[i]| - 1 ==> lines[i][j] != Newline
    ensures forall i :: 0 <= i < |lines| - 1 ==> lines[i][|lines[i]| - 1] == Newline
    decreases |b|
  {
    if b == [] then []
    else
      var k := LineEnd(b);
      var rest := Lines(b[k..]);
      var lines := [b[..k]] + rest;
      assert lines[1..] == rest;
      assert forall i :: 1 <= i < |lines| ==> lines[i] == rest[i - 1];
      lines
  }

  /** `bytes.lstrip()`. */
  function StripLeading(b: seq<Byte>): (r: seq<Byte>)
    ensures |r| <= |b| && r == b[|b| - |r|..]
    ensures forall i :: 0 <= i < |b| - |r| ==> IsSpace(b[i])
    ensures r != [] ==> !IsSpace(r[0])
  {
    if b != [] && IsSpace(b[0]) then StripLeading(b[1..]) else b
  }

  /** `bytes.rstrip()`. */
  function StripTrailing(b: seq<Byte>): (r: seq<Byte>)
    ensures |r| <= |b| && r == b[..|r|]
    ensures forall i :: |r| <= i < |b| ==> IsSpace(b[i])
    ensures r != [] ==> !IsSpace(r[|r| - 1])
  {
    if b != [] && IsSpace(b[|b| - 1]) then StripTrailing(b[..|b| - 1]) else b
  }

  /** `bytes.strip()`: the result is `StripTrailing(StripLeading(b))`, whose
      contracts make it exactly the slice of `b` between its leading and its
      trailing whitespace. */
  function Strip(b: seq<Byte>): (r: seq<Byte>)
    ensures |r| <= |b|
    ensures r != [] ==> !IsSpace(r[0]) && !IsSpace(r[|r| - 1])
    ensures r == [] <==> forall i :: 0 <= i < |b| ==> IsSpace(b[i])
  {
    StripTrailing(StripLeading(b))
  }

  /** `[chr(cell) for cell in line]`: one symbol per byte. */
  function CharsOf(line: seq<Byte>): (symbols: seq<char>)
    ensures |symbols| == |line|
    ensures forall i {:trigger symbols[i]} :: 0 <= i < |line| ==> symbols[i] as int == line[i]
  {
    seq(|line|, i requires 0 <= i < |line| => line[i] as char)
  }

  /** The sequences `read_dna_file` returns for the file content `content`. */
  function ParseDnaFile(content: seq<Byte>): (sequences: seq<seq<char>>)
    ensures |sequences| == |Lines(content)|
  {
    var lines := Lines(content);
    seq(|lines|, i requires 0 <= i < |lines| => CharsOf(Strip(lines[i])))
  }

  /** Sequence `i` of a parsed file holds one symbol per byte of line `i`
      once that line is stripped: the code point of each symbol is the byte. */
  lemma ParsedSymbols(content: seq<Byte>, i: nat)
    requires i < |Lines(content)|
    ensures var line := Strip(Lines(content)[i]);
      && |ParseDnaFile(content)[i]| == |line|
      && forall j :: 0 <= j < |line| ==> ParseDnaFile(content)[i][j] as int == line[j]
  {
  }

  /** Reads the file line by line, stripping each line and mapping each of its
      bytes to a symbol; sequences come back in file order. */
  method ReadDnaFile(content: seq<Byte>) returns (sequences: seq<seq<char>>)
    ensures sequences == ParseDnaFile(content)
  {
    var lines := Lines(content);
    sequences := StripLines(lines);
    ParseDnaFileIs(content, sequences);
  }

  /** The loop of `read_dna_file` over the lines it has read: each line is
      stripped, mapped byte by byte to symbols and appended. */
  method StripLines(lines: seq<seq<Byte>>) returns (sequences: seq<seq<char>>)
    ensures |sequences| == |lines|
    ensures forall i {:trigger sequences[i]} :: 0 <= i < |lines| ==> sequences[i] == CharsOf(Strip(lines[i]))
  {
    sequences := [];
    for index := 0 to |lines|
      invariant |sequences| == index
      invariant forall i {:trigger sequences[i]} :: 0 <= i < index ==> sequences[i] == CharsOf(Strip(lines[i]))
    {
      var symbols := CharsOf(Strip(lines[index]));
      sequences := sequences + [symbols];
    }
  }

  /** A list holding, in order, the mapped and stripped lines of `content` is
      the parse of `content`. */
  lemma ParseDnaFileIs(content: seq<Byte>, sequences: seq<seq<char>>)
    requires |sequences| == |Lines(content)|
    requires forall i {:trigger sequences[i]} :: 0 <= i < |sequences| ==> sequences[i] == CharsOf(Strip(Lines(content)[i]))
    ensures sequences == ParseDnaFile(content)
  {
  }

  /** A symbol that survives the file format: one byte in UTF-8 and not
      removed by `strip()`. */
  predicate PlainSymbol(c: char)
  {
    (c as int) < 0x80 && !IsSpace(c as int)
  }

  predicate PlainSequences(sequences: seq<seq<char>>)
  {
    forall i, j :: 0 <= i < |sequences| && 0 <= j < |sequences[i]| ==> PlainSymbol(sequences[i][j])
  }

  /** No byte of an encoded sequence is a newline unless a symbol is one. */
  lemma {:induction false} Utf8SymbolsNoNewline(row: seq<char>)
    requires forall j :: 0 <= j < |row| ==> row[j] != '\n'
    ensures forall i :: 0 <= i < |Utf8Symbols(row)| ==> Utf8Symbols(row)[i] != Newline
  {
    if row != [] {
      Utf8SymbolsNoNewline(row[1..]);
    }
  }

  /** Sequences of single-byte symbols are encoded one byte per symbol. */
  lemma {:induction false} Utf8SymbolsAscii(row: seq<char>)
    requires forall j :: 0 <= j < |row| ==> (row[j] as int) < 0x80
    ensures |Utf8Symbols(row)| == |row|
    ensures forall i :: 0 <= i < |row| ==> Utf8Symbols(row)[i] == row[i] as int
  {
    if row != [] {
      Utf8SymbolsAscii(row[1..]);
    }
  }

  /** `readlines()` of one newline-free line followed by more content. */
  lemma LinesCons(text: seq<Byte>, rest: seq<Byte>)
    requires forall i :: 0 <= i < |text| ==> text[i] != Newline
    ensures Lines(text + [Newline] + rest) == [text + [Newline]] + Lines(rest)
  {
    var b := text + [Newline] + rest;
    var k := LineEnd(b);
    assert b[|text|] == Newline;
    assert k == |text| + 1;
    assert b[..k] == text + [Newline];
    assert b[k..] == rest;
  }

  /** Splitting the written file into lines gives back exactly the lines
      written, as long as no symbol is itself a newline. */
  lemma {:induction false} LinesOfDnaFile(sequences: seq<seq<char>>)
    requires forall i, j :: 0 <= i < |sequences| && 0 <= j < |sequences[i]| ==> sequences[i][j] != '\n'
    ensures Lines(DnaFileBytes(sequences)) == FileLines(sequences)
  {
    if sequences != [] {
      var lines := FileLines(sequences);
      assert lines[1..] == FileLines(sequences[1..]);
      Utf8SymbolsNoNewline(sequences[0]);
      LinesOfDnaFile(sequences[1..]);
      LinesCons(Utf8Symbols(sequences[0]), DnaFileBytes(sequences[1..]));
    }
  }

  /** Stripping a written line of plain symbols leaves exactly its symbol bytes. */
  lemma StripLine(text: seq<Byte>)
    requires forall i :: 0 <= i < |text| ==> !IsSpace(text[i])
    ensures Strip(text + [Newline]) == text
  {
    var b := text + [Newline];
    if text == [] {
      assert StripLeading(b) == StripLeading([]);
    } else {
      assert b[0] == text[0];
      assert StripLeading(b) == b;
      assert b[..|b| - 1] == text;
      assert StripTrailing(b) == StripTrailing(text);
    }
  }

  /** Reading back a written file of plain symbols gives the original sequences. */
  lemma DnaFileRoundTrip(sequences: seq<seq<char>>)
    requires PlainSequences(sequences)
    ensures ParseDnaFile(DnaFileBytes(sequences)) == sequences
  {
    LinesOfDnaFile(sequences);
    var parsed := ParseDnaFile(DnaFileBytes(sequences));
    forall i | 0 <= i < |sequences|
      ensures parsed[i] == sequences[i]
    {
      var row := sequences[i];
      Utf8SymbolsAscii(row);
      StripLine(Utf8Symbols(row));
      assert CharsOf(Utf8Symbols(row)) == row;
    }
  }
}
