/** Zig-zag placement (pack): the interleaved codewords are written bit by bit,
    most significant bit first, into the cells the reserved mask leaves free.
    The cursor walks two-column strips from the right, upwards then downwards,
    and jumps over the vertical timing column 6. */
module Placement {
  import opened Tables
  import opened Reserved

  /** The packer's cursor: cell (x, y), `k` (the strip runs upwards) and `v`
      (the cursor is on the right-hand column of its strip). */
  datatype Cursor = Cursor(x: int, y: int, up: bool, right: bool)

  /** Where pack starts: the bottom-right cell, moving up. */
  function Start(width: int): Cursor {
    Cursor(width - 1, width - 1, true, true)
  }

  /** One pass through the body of pack's do-while: step left, or step back right
      and one row along the strip; at the end of a strip move two columns left
      and turn, jumping from column 6 to column 5 (and to row 9 going down, or
      eight rows up going up).  On a grid wider than 9, a cursor within the rows
      stays within them and either moves along its strip or moves to a strip
      further left, so the walk ends. */
  function Step(c: Cursor, width: int): (d: Cursor)
    ensures 9 < width && InRows(c, width) ==>
      InRows(d, width) && (Strip(d) < Strip(c) || (Strip(d) == Strip(c) && Along(d, width) < Along(c, width)))
  {
    if c.right then Cursor(c.x - 1, c.y, c.up, false)
    else if c.up then
      if c.y != 0 then Cursor(c.x + 1, c.y - 1, true, true)
      else if c.x - 1 == 6 then Cursor(5, 9, false, true)
      else Cursor(c.x - 1, c.y, false, true)
    else
      if c.y != width - 1 then Cursor(c.x + 1, c.y + 1, false, true)
      else if c.x - 1 == 6 then Cursor(5, c.y - 8, true, true)
      else Cursor(c.x - 1, c.y, true, true)
  }

  predicate InRows(c: Cursor, width: int) {
    0 <= c.y < width
  }

  /** The right-hand column of the cursor's strip. */
  function Strip(c: Cursor): int {
    if c.right then c.x else c.x + 1
  }

  /** How far the cursor still has to go along its strip; never negative within the rows. */
  function Along(c: Cursor, width: int): int {
    (if c.up then 2 * c.y else 2 * (width - 1 - c.y)) + (if c.right then 1 else 0)
  }

  /** A reserved cell in the rows of the grid is not far left of it. */
  lemma {:induction false} ReservedNotFarLeft(x: int, y: int, width: int, m: seq<bool>)
    requires 0 <= y < width && MaskedIn(x, y, m)
    ensures 0 <= x + width * width
  {
    if x <= y {
      assert GetMaskBit(x, y) == (y + y * y) / 2 + x;
      MulMonotone(y, y, width);
      MulMonotone(width, y, width);
    }
  }

  /** pack's do-while condition: keep stepping while the cursor's cell is
      reserved.  The result is the first free cell (SkipFree). */
  ghost function Skip(c: Cursor, width: int, m: seq<bool>): (d: Cursor)
    requires 9 < width && InRows(c, width)
    ensures InRows(d, width)
    decreases Strip(c) + width * width, Along(c, width)
  {
    if MaskedIn(c.x, c.y, m) then
      ReservedNotFarLeft(c.x, c.y, width, m);
      Skip(Step(c, width), width, m)
    else c
  }

  /** Skip stops on a cell that is not reserved, and on the first such cell
      the stepping reaches: a cursor already on a free cell stays. */
  lemma {:induction false} SkipFree(c: Cursor, width: int, m: seq<bool>)
    requires 9 < width && InRows(c, width)
    ensures !MaskedIn(Skip(c, width, m).x, Skip(c, width, m).y, m)
    ensures !MaskedIn(c.x, c.y, m) ==> Skip(c, width, m) == c
    decreases Strip(c) + width * width, Along(c, width)
  {
    if MaskedIn(c.x, c.y, m) {
      ReservedNotFarLeft(c.x, c.y, width, m);
      SkipFree(Step(c, width), width, m);
    }
  }

  /** pack's `bit` after j shifts of byte i: a JavaScript number, not a byte, so
      the shifted-out bits stay (and never reach 32 bits).  A read past the
      array is undefined, which the shift turns into 0. */
  function Shifted(bytes: seq<byte>, i: int, j: nat): nat {
    if j == 0 then (if 0 <= i < |bytes| then bytes[i] as nat else 0)
    else 2 * Shifted(bytes, i, j - 1)
  }

  /** `0x80 & bit`: bit 7 of the shifted value. */
  predicate HighBit(v: nat) {
    (v / 0x80) % 2 == 1
  }

  /** Bit n of the stream: after n % 8 shifts of byte n / 8, its bit 7. */
  predicate BitOn(bytes: seq<byte>, n: nat) {
    HighBit(Shifted(bytes, n / 8, n % 8))
  }

  /** The write of a one bit at the cursor, `buffer[x + width * y] = 1`; a write
      outside the buffer is dropped. */
  function Plot(b: seq<bool>, c: Cursor, width: int, on: bool): seq<bool> {
    var k := c.x + width * c.y;
    if on && 0 <= k < |b| then b[k := true] else b
  }

  datatype Packing = Packing(buffer: seq<bool>, cursor: Cursor)

  /** The buffer and the cursor after the first n bits. */
  ghost function Placed(b0: seq<bool>, width: int, m: seq<bool>, bytes: seq<byte>, n: nat): (p: Packing)
    requires 9 < width
    ensures |p.buffer| == |b0| && InRows(p.cursor, width)
  {
    if n == 0 then Packing(b0, Start(width))
    else
      var p := Placed(b0, width, m, bytes, n - 1);
      Packing(Plot(p.buffer, p.cursor, width, BitOn(bytes, n - 1)), Skip(Step(p.cursor, width), width, m))
  }

  /** After the first bit the cursor always rests on a cell that is not reserved. */
  lemma {:induction false} PlacedOnFreeCell(b0: seq<bool>, width: int, m: seq<bool>, bytes: seq<byte>, n: nat)
    requires 9 < width && 0 < n
    ensures !MaskedIn(Placed(b0, width, m, bytes, n).cursor.x, Placed(b0, width, m, bytes, n).cursor.y, m)
  {
    var p := Placed(b0, width, m, bytes, n - 1);
    SkipFree(Step(p.cursor, width), width, m);
  }

  /** Buffer index k was the cursor's cell for some one bit among the first n. */
  ghost predicate WrittenBefore(b0: seq<bool>, width: int, m: seq<bool>, bytes: seq<byte>, n: nat, k: int)
    requires 9 < width
  {
    exists s | 0 <= s < n :: BitOn(bytes, s) &&
      Placed(b0, width, m, bytes, s).cursor.x + width * Placed(b0, width, m, bytes, s).cursor.y == k
  }

  /** pack only sets cells: a cell is dark afterwards exactly when it was dark
      before or the cursor stood on it for a one bit. */
  lemma {:induction false} PlacedCells(b0: seq<bool>, width: int, m: seq<bool>, bytes: seq<byte>, n: nat)
    requires 9 < width
    ensures forall k | 0 <= k < |b0| ::
      Placed(b0, width, m, bytes, n).buffer[k] == (b0[k] || WrittenBefore(b0, width, m, bytes, n, k))
  {
    if n > 0 {
      PlacedCells(b0, width, m, bytes, n - 1);
      var p := Placed(b0, width, m, bytes, n - 1);
      var here := p.cursor.x + width * p.cursor.y;
      forall k | 0 <= k < |b0|
        ensures Placed(b0, width, m, bytes, n).buffer[k] == (b0[k] || WrittenBefore(b0, width, m, bytes, n, k))
      {
        if WrittenBefore(b0, width, m, bytes, n, k) && !WrittenBefore(b0, width, m, bytes, n - 1, k) {
          var s :| 0 <= s < n && BitOn(bytes, s) &&
            Placed(b0, width, m, bytes, s).cursor.x + width * Placed(b0, width, m, bytes, s).cursor.y == k;
          assert s == n - 1;
        }
        if BitOn(bytes, n - 1) && here == k {
          assert WrittenBefore(b0, width, m, bytes, n, k);
        }
        if WrittenBefore(b0, width, m, bytes, n - 1, k) {
          var s :| 0 <= s < n - 1 && BitOn(bytes, s) &&
            Placed(b0, width, m, bytes, s).cursor.x + width * Placed(b0, width, m, bytes, s).cursor.y == k;
          assert WrittenBefore(b0, width, m, bytes, n, k);
        }
      }
    }
  }

  // ---------------------------------------------------------------------------
  // The timing column

  /** The strip's right-hand column is even and at least 8, or at most 5: so
      the cursor, on that column or the one to its left, is never on column 6. */
  predicate ClearOfTiming(c: Cursor) {
    (8 <= Strip(c) && Strip(c) % 2 == 0) || Strip(c) <= 5
  }

  lemma {:induction false} StepClearOfTiming(c: Cursor, width: int)
    requires ClearOfTiming(c)
    ensures ClearOfTiming(Step(c, width))
  {
  }

  lemma {:induction false} SkipClearOfTiming(c: Cursor, width: int, m: seq<bool>)
    requires 9 < width && InRows(c, width) && ClearOfTiming(c)
    ensures ClearOfTiming(Skip(c, width, m))
    decreases Strip(c) + width * width, Along(c, width)
  {
    if MaskedIn(c.x, c.y, m) {
      ReservedNotFarLeft(c.x, c.y, width, m);
      StepClearOfTiming(c, width);
      SkipClearOfTiming(Step(c, width), width, m);
    }
  }

  /** In a symbol of odd width the cursor never stands on the timing column 6. */
  lemma {:induction false} PackSkipsTimingColumn(b0: seq<bool>, width: int, m: seq<bool>, bytes: seq<byte>, n: nat)
    requires 9 < width && width % 2 == 1
    ensures ClearOfTiming(Placed(b0, width, m, bytes, n).cursor)
    ensures Placed(b0, width, m, bytes, n).cursor.x != 6
  {
    if n > 0 {
      PackSkipsTimingColumn(b0, width, m, bytes, n - 1);
      var c := Placed(b0, width, m, bytes, n - 1).cursor;
      StepClearOfTiming(c, width);
      SkipClearOfTiming(Step(c, width), width, m);
    }
  }

  // ---------------------------------------------------------------------------
  // pack

  /** The number of bytes pack places: every data and ECC codeword. */
  function PackLength(dataBlock: nat, eccBlock: nat, neccBlock1: nat, neccBlock2: nat): nat {
    (dataBlock + eccBlock) * (neccBlock1 + neccBlock2) + neccBlock2
  }

  /** Step until the cursor is on a free cell (the do-while). */
  method NextFree(c0: Cursor, width: int, mask: array<bool>) returns (c: Cursor)
    requires 9 < width && InRows(c0, width)
    ensures c == Skip(Step(c0, width), width, mask[..])
  {
    c := Step(c0, width);
    while IsMasked(c.x, c.y, mask)
      invariant InRows(c, width)
      invariant Skip(c, width, mask[..]) == Skip(Step(c0, width), width, mask[..])
      decreases Strip(c) + width * width, Along(c, width)
    {
      ReservedNotFarLeft(c.x, c.y, width, mask[..]);
      c := Step(c, width);
    }
  }

  /** One bit of pack: a one bit darkens the cursor's cell, then the cursor
      moves on to the next free cell; that is bit n + 1 of Placed. */
  method PlaceBit(width: int, mask: array<bool>, buffer: array<bool>, c0: Cursor, on: bool,
                  ghost b0: seq<bool>, ghost bytes: seq<byte>, ghost n: nat, ghost next: nat) returns (c: Cursor)
    requires 9 < width && mask != buffer && on == BitOn(bytes, n) && next == n + 1
    requires Packing(buffer[..], c0) == Placed(b0, width, mask[..], bytes, n)
    modifies buffer
    ensures Packing(buffer[..], c) == Placed(b0, width, mask[..], bytes, next)
  {
    PlacedNext(b0, width, mask[..], bytes, n);
    if on {
      var k := c0.x + width * c0.y;
      if 0 <= k < buffer.Length {
        buffer[k] := true;
      }
    }
    c := NextFree(c0, width, mask);
  }

  /** The bit pack tests after j shifts of byte i is bit 8 * i + j of the stream. */
  lemma {:induction false} BitsOfByte(bytes: seq<byte>, i: nat, n0: nat)
    requires n0 == 8 * i
    ensures forall j | 0 <= j < 8 :: BitOn(bytes, n0 + j) == HighBit(Shifted(bytes, i, j))
  {
    forall j | 0 <= j < 8
      ensures BitOn(bytes, n0 + j) == HighBit(Shifted(bytes, i, j))
    {
      BitOfByte(bytes, i, j, n0 + j);
    }
  }

  lemma BitOfByte(bytes: seq<byte>, i: nat, j: nat, n: nat)
    requires j < 8 && n == 8 * i + j
    ensures BitOn(bytes, n) == HighBit(Shifted(bytes, i, j))
  {
    assert n / 8 == i && n % 8 == j;
  }

  /** The place value of bit 7 - j of a byte: 0x80 >> j. */
  function Weight(j: nat): nat
    requires j < 8
  {
    [0x80, 0x40, 0x20, 0x10, 0x08, 0x04, 0x02, 0x01][j]
  }

  /** The stream is read most significant bit first: bit 8 * i + j is the bit
      of byte i worth Weight(j). */
  lemma {:induction false} MostSignificantFirst(bytes: seq<byte>, i: nat, j: nat)
    requires i < |bytes| && j < 8
    ensures BitOn(bytes, 8 * i + j) == ((bytes[i] as nat / Weight(j)) % 2 == 1)
  {
    BitsOfByte(bytes, i, 8 * i);
    WeightAfterShift(bytes, i, j);
  }

  lemma {:induction false} WeightAfterShift(bytes: seq<byte>, i: nat, j: nat)
    requires i < |bytes| && j < 8
    ensures HighBit(Shifted(bytes, i, j)) == ((bytes[i] as nat / Weight(j)) % 2 == 1)
  {
    var v := bytes[i] as nat;
    ShiftedIsScaled(bytes, i, j);
    WeightTimesShift(j);
    ScaleDiv(v, Pow2(j), Weight(j));
  }

  /** j shifts multiply the byte by 2^j. */
  lemma {:induction false} ShiftedIsScaled(bytes: seq<byte>, i: nat, j: nat)
    requires i < |bytes|
    ensures Shifted(bytes, i, j) == Pow2(j) * bytes[i] as nat
  {
    if j > 0 {
      var m := j - 1;
      ShiftedIsScaled(bytes, i, m);
      assert Shifted(bytes, i, j) == 2 * Shifted(bytes, i, m);
      assert Pow2(j) == 2 * Pow2(m);
    }
  }

  /** 2^j times the weight of bit 7 - j is the weight of bit 7. */
  lemma WeightTimesShift(j: nat)
    requires j < 8
    ensures Pow2(j) * Weight(j) == 0x80
  {
    if j == 0 {
    } else if j == 1 {
      assert Pow2(1) == 2;
    } else if j == 2 {
      assert Pow2(2) == 4;
    } else if j == 3 {
      assert Pow2(3) == 8;
    } else if j == 4 {
      assert Pow2(4) == 16;
    } else if j == 5 {
      assert Pow2(5) == 32;
    } else if j == 6 {
      assert Pow2(6) == 64;
    } else {
      assert Pow2(7) == 128;
    }
  }

  /** Scaling both sides of a division by a leaves the quotient unchanged. */
  lemma {:induction false} ScaleDiv(v: nat, a: nat, b: nat)
    requires 0 < a && 0 < b
    ensures (a * v) / (a * b) == v / b
  {
    var q, r := v / b, v % b;
    assert a * v == (a * b) * q + a * r by {
      assert v == b * q + r;
    }
    MulMonotone(a, r + 1, b);
    DivModUnique(a * v, a * b, q, a * r);
  }

  /** The first n + 1 bits: one more bit placed after the first n. */
  lemma {:induction false} PlacedNext(b0: seq<bool>, width: int, m: seq<bool>, bytes: seq<byte>, n: nat)
    requires 9 < width
    ensures Placed(b0, width, m, bytes, n + 1) ==
      Packing(Plot(Placed(b0, width, m, bytes, n).buffer, Placed(b0, width, m, bytes, n).cursor, width, BitOn(bytes, n)),
              Skip(Step(Placed(b0, width, m, bytes, n).cursor, width), width, m))
  {
  }

  /** The eight bits of byte i, most significant first (pack's inner loop); they
      are bits n0 .. n0 + 7 of the stream. */
  method PackByte(width: int, mask: array<bool>, buffer: array<bool>, c0: Cursor, value: nat,
                  ghost b0: seq<bool>, ghost bytes: seq<byte>, ghost i: nat, ghost n0: nat, ghost n8: nat)
    returns (c: Cursor)
    requires 9 < width && mask != buffer && n8 == n0 + 8
    requires value == Shifted(bytes, i, 0)
    requires n0 == 8 * i
    requires Packing(buffer[..], c0) == Placed(b0, width, mask[..], bytes, n0)
    modifies buffer
    ensures Packing(buffer[..], c) == Placed(b0, width, mask[..], bytes, n8)
  {
    var bit := value;
    c := c0;
    ghost var n := n0;
    for j := 0 to 8
      invariant n == n0 + j
      invariant bit == Shifted(bytes, i, j)
      invariant Packing(buffer[..], c) == Placed(b0, width, mask[..], bytes, n)
    {
      BitOfByte(bytes, i, j, n);
      ghost var next := n + 1;
      c := PlaceBit(width, mask, buffer, c, HighBit(bit), b0, bytes, n, next);
      bit := bit * 2;
      n := next;
    }
  }

  /** pack: write PackLength bytes of `stringBuffer`, most significant bit first,
      along the zig-zag. */
  method Pack(width: int, dataBlock: nat, eccBlock: nat, neccBlock1: nat, neccBlock2: nat,
              mask: array<bool>, buffer: array<bool>, stringBuffer: seq<byte>)
    requires 9 < width && mask != buffer
    modifies buffer
    ensures buffer[..] ==
      Placed(old(buffer[..]), width, mask[..], stringBuffer, 8 * PackLength(dataBlock, eccBlock, neccBlock1, neccBlock2)).buffer
  {
    ghost var b0 := buffer[..];
    var c := Start(width);
    var length := PackLength(dataBlock, eccBlock, neccBlock1, neccBlock2);
    ghost var n := 0;
    for i := 0 to length
      invariant n == 8 * i
      invariant Packing(buffer[..], c) == Placed(b0, width, mask[..], stringBuffer, n)
    {
      var value := if i < |stringBuffer| then stringBuffer[i] as nat else 0;
      ghost var next := n + 8;
      c := PackByte(width, mask, buffer, c, value, b0, stringBuffer, i, n, next);
      n := next;
    }
  }
}
