/** The module matrix and its reserved-module bit array.

    The matrix is a `width * width` buffer addressed by `x + width * y`.  The
    reserved ("masked") cells are kept in a triangular bit array: cell (x, y) and
    its transpose (y, x) share the bit `((y + y * y) >> 1) + x` for x <= y, so the
    array needs only `(width * (width + 1) + 1) >> 1` entries. */
module Reserved {
  import opened Tables

  predicate InGrid(width: int, x: int, y: int) {
    0 <= x < width && 0 <= y < width
  }

  /** Linear index of cell (x, y) in the module buffer.  Inside the grid it is in
      range and splits back into its coordinates, so the addressing is one-to-one. */
  function Idx(width: int, x: int, y: int): (k: int)
    ensures InGrid(width, x, y) ==> 0 <= k < width * width && k % width == x && k / width == y
  {
    assert InGrid(width, x, y) ==>
      0 <= x + width * y < width * width && (x + width * y) % width == x && (x + width * y) / width == y
    by {
      if InGrid(width, x, y) {
        IdxInGrid(width, x, y);
        IdxCoords(width, x, y);
      }
    }
    x + width * y
  }

  lemma {:induction false} IdxInGrid(width: int, x: int, y: int)
    requires InGrid(width, x, y)
    ensures 0 <= x + width * y < width * width
  {
    assert width * y <= width * (width - 1) by {
      MulMonotone(width, y, width - 1);
    }
  }

  lemma {:induction false} MulMonotone(a: nat, b: int, c: int)
    requires b <= c
    ensures a * b <= a * c
  {
    assert a * c - a * b == a * (c - b);
  }

  /** 2 to the n. */
  function Pow2(n: nat): (r: nat)
    ensures r >= 1
  {
    if n == 0 then 1 else 2 * Pow2(n - 1)
  }

  /** MulMonotone with its precondition as a hypothesis, for use in branches
      that end in a contradiction. */
  lemma MulOrder(a: int, b: int, c: int)
    ensures 0 <= a && b <= c ==> a * b <= a * c
  {
    if 0 <= a && b <= c {
      MulMonotone(a, b, c);
    }
  }

  lemma {:induction false} IdxCoords(width: int, x: int, y: int)
    requires InGrid(width, x, y)
    ensures (x + width * y) % width == x && (x + width * y) / width == y
  {
    var k := x + width * y;
    var q, r := k / width, k % width;
    assert k == width * q + r && 0 <= r < width;
    assert width * (q - y) == x - r;
    if q > y {
      MulOrder(width, 1, q - y);
      assert false;
    } else if q < y {
      MulOrder(width, 1, y - q);
      assert false;
    }
  }

  /** Quotient and remainder are unique. */
  lemma {:induction false} DivModUnique(a: int, d: int, q: int, r: int)
    requires 0 < d && a == d * q + r && 0 <= r < d
    ensures a / d == q && a % d == r
  {
    var q', r' := a / d, a % d;
    assert d * (q' - q) == r - r';
    if q' > q {
      MulOrder(d, 1, q' - q);
      assert false;
    } else if q' < q {
      MulOrder(d, 1, q - q');
      assert false;
    }
  }

  /** Every linear index of the buffer is the index of an in-grid cell. */
  lemma {:induction false} CellOfIndex(width: int, k: int)
    requires 0 < width && 0 <= k < width * width
    ensures InGrid(width, k % width, k / width) && Idx(width, k % width, k / width) == k
  {
    if k / width >= width {
      MulOrder(width, width, k / width);
      assert false;
    }
  }

  /** `buffer[x + width * y] = 1` for one in-grid cell. */
  method Darken(buffer: array<bool>, width: int, x: int, y: int)
    requires buffer.Length == width * width && InGrid(width, x, y)
    modifies buffer
    ensures forall cx, cy | InGrid(width, cx, cy) ::
      buffer[Idx(width, cx, cy)] == (old(buffer[Idx(width, cx, cy)]) || (cx == x && cy == y))
    ensures forall k | 0 <= k < buffer.Length && k != Idx(width, x, y) :: buffer[k] == old(buffer[k])
  {
    buffer[Idx(width, x, y)] := true;
  }

  // ---------------------------------------------------------------------------
  // Triangular addressing of the reserved bits

  /** Triangular number: the number of bits used by the rows above row n. */
  function Tri(n: nat): nat {
    if n == 0 then 0 else Tri(n - 1) + n
  }

  lemma {:induction false} TriClosedForm(n: nat)
    ensures n + n * n == 2 * Tri(n)
  {
    if n > 0 {
      TriClosedForm(n - 1);
      assert n + n * n == (n - 1) + (n - 1) * (n - 1) + 2 * n;
    }
  }

  lemma {:induction false} TriMonotone(a: nat, b: nat)
    requires a <= b
    ensures Tri(a) <= Tri(b)
    decreases b
  {
    if a < b {
      TriMonotone(a, b - 1);
    }
  }

  /** Size of the reserved-bit array of a `width`-sided matrix. */
  function MaskSize(width: int): int {
    (width * (width + 1) + 1) / 2
  }

  lemma MaskSizeIsTri(width: nat)
    ensures MaskSize(width) == Tri(width)
  {
    TriClosedForm(width);
    assert width * (width + 1) == width + width * width;
  }

  /** getMaskBit: the reserved-array bit of cell (x, y).  It is symmetric, and for
      non-negative coordinates with maximum m it lies in row m of the triangle, so
      every in-grid cell addresses a bit below MaskSize(width). */
  function GetMaskBit(x: int, y: int): (bit: int)
    ensures 0 <= x && 0 <= y ==> bit == Tri(Hi(x, y)) + Lo(x, y)
    decreases if x > y then 1 else 0
  {
    if x > y then GetMaskBit(y, x) else RowStart(y) + x
  }

  /** The larger and the smaller coordinate of a cell: its row and column in
      the triangle. */
  function Hi(x: int, y: int): int { if x <= y then y else x }
  function Lo(x: int, y: int): int { if x <= y then x else y }

  /** Row m of the triangle holds the bits from Tri(m) up to Tri(m + 1). */
  lemma MaskBitRow(x: int, y: int)
    requires 0 <= x && 0 <= y
    ensures Tri(Hi(x, y)) <= GetMaskBit(x, y) < Tri(Hi(x, y) + 1)
  {
    assert Tri(Hi(x, y) + 1) == Tri(Hi(x, y)) + Hi(x, y) + 1;
  }

  /** `(y + y * y) >> 1`: the first bit of row y of the triangle. */
  function RowStart(y: int): (r: int)
    ensures 0 <= y ==> r == Tri(y)
  {
    assert 0 <= y ==> y + y * y == 2 * Tri(y) by {
      if 0 <= y { TriClosedForm(y); }
    }
    (y + y * y) / 2
  }

  lemma MaskBitSymmetric(x: int, y: int)
    ensures GetMaskBit(x, y) == GetMaskBit(y, x)
  {
  }

  /** Inverse of GetMaskBit: the (x, y) with x <= y that owns a bit. */
  function MaskBitCoords(bit: nat): (c: (nat, nat))
    ensures c.0 <= c.1 && Tri(c.1) <= bit < Tri(c.1 + 1)
  {
    MaskBitRowFrom(bit, 0)
  }

  function MaskBitRowFrom(bit: nat, y: nat): (c: (nat, nat))
    requires Tri(y) <= bit
    ensures c.0 <= c.1 && Tri(c.1) <= bit < Tri(c.1 + 1) && c.0 == bit - Tri(c.1)
    decreases bit - Tri(y)
  {
    if bit < Tri(y + 1) then (bit - Tri(y), y) else MaskBitRowFrom(bit, y + 1)
  }

  /** Two cells share a reserved bit exactly when they are equal or transposed. */
  lemma {:induction false} MaskBitInjective(x: int, y: int, a: int, b: int)
    requires 0 <= x && 0 <= y && 0 <= a && 0 <= b
    ensures GetMaskBit(x, y) == GetMaskBit(a, b) <==> (x == a && y == b) || (x == b && y == a)
  {
    var m, n := Hi(x, y), Hi(a, b);
    MaskBitRow(x, y);
    MaskBitRow(a, b);
    if m < n {
      TriMonotone(m + 1, n);
    } else if n < m {
      TriMonotone(n + 1, m);
    }
  }

  /** Round trips between a cell pair and its bit. */
  lemma {:induction false} MaskBitRoundTrip(x: nat, y: nat)
    requires x <= y
    ensures MaskBitCoords(GetMaskBit(x, y)) == (x, y)
  {
    var c := MaskBitCoords(GetMaskBit(x, y));
    MaskBitRow(x, y);
    if c.1 < y {
      TriMonotone(c.1 + 1, y);
    } else if y < c.1 {
      TriMonotone(y + 1, c.1);
    }
  }

  lemma {:induction false} MaskBitCoordsRoundTrip(bit: nat)
    ensures GetMaskBit(MaskBitCoords(bit).0, MaskBitCoords(bit).1) == bit
  {
    var c := MaskBitCoords(bit);
    TriClosedForm(c.1);
    assert c.0 == bit - Tri(c.1) by {
      assert c == MaskBitRowFrom(bit, 0);
    }
  }

  lemma {:induction false} MaskBitInRange(width: int, x: int, y: int)
    requires InGrid(width, x, y)
    ensures 0 <= GetMaskBit(x, y) < MaskSize(width)
  {
    MaskBitRow(x, y);
    TriMonotone(Hi(x, y) + 1, width);
    MaskSizeIsTri(width);
  }

  // ---------------------------------------------------------------------------
  // Reading and writing the reserved bits

  /** isMasked: whether cell (x, y) is reserved.  A bit outside the array reads as
      `undefined & 1`, that is 0; only the packer's cursor ever asks off the grid.
      A cell and its transpose give the same answer. */
  predicate IsMasked(x: int, y: int, mask: array<bool>): (r: bool)
    reads mask
    ensures r == MaskedIn(x, y, mask[..]) && r == MaskedIn(y, x, mask[..])
  {
    var bit := GetMaskBit(x, y);
    0 <= bit < mask.Length && mask[bit]
  }

  /** IsMasked, read off a snapshot of the reserved bits. */
  ghost predicate MaskedIn(x: int, y: int, m: seq<bool>) {
    var bit := GetMaskBit(x, y);
    0 <= bit < |m| && m[bit]
  }

  /** isMaskedIndex (src/qr/Frame.ts): the same question for a linear buffer
      index; the index of an in-grid cell answers for that cell. */
  predicate IsMaskedIndex(i: int, width: int, mask: array<bool>): (r: bool)
    requires width != 0
    reads mask
    ensures forall x, y {:trigger Idx(width, x, y)} | InGrid(width, x, y) && Idx(width, x, y) == i ::
      r == IsMasked(x, y, mask)
  {
    IsMasked(i % width, i / width, mask)
  }

  /** setMask: reserve cell (x, y), and with it the transposed cell (y, x). */
  method SetMask(x: int, y: int, mask: array<bool>, ghost width: int)
    requires mask.Length == MaskSize(width) && InGrid(width, x, y)
    modifies mask
    ensures forall cx, cy | InGrid(width, cx, cy) ::
      IsMasked(cx, cy, mask) == (old(IsMasked(cx, cy, mask)) || (cx == x && cy == y) || (cx == y && cy == x))
  {
    MaskBitInRange(width, x, y);
    mask[GetMaskBit(x, y)] := true;
    forall cx, cy | InGrid(width, cx, cy)
      ensures IsMasked(cx, cy, mask) == (old(IsMasked(cx, cy, mask)) || (cx == x && cy == y) || (cx == y && cy == x))
    {
      MaskBitInRange(width, cx, cy);
      MaskBitInjective(cx, cy, x, y);
    }
  }

  /** setMaskIndex: reserve the cell at a linear buffer index. */
  method SetMaskIndex(i: int, width: int, mask: array<bool>)
    requires 0 < width && 0 <= i < width * width && mask.Length == MaskSize(width)
    modifies mask
    ensures InGrid(width, i % width, i / width) && Idx(width, i % width, i / width) == i
    ensures forall cx, cy | InGrid(width, cx, cy) ::
      IsMasked(cx, cy, mask) == (old(IsMasked(cx, cy, mask)) || Idx(width, cx, cy) == i || Idx(width, cy, cx) == i)
  {
    CellOfIndex(width, i);
    SetMask(i % width, i / width, mask, width);
  }

  /** syncMask: reserve every cell that is dark in the buffer.  Afterwards a cell
      is reserved exactly when it was reserved before, or it or its transpose is
      dark. */
  method SyncMask(width: int, mask: array<bool>, buffer: array<bool>)
    requires 0 < width && buffer.Length == width * width && mask.Length == MaskSize(width) && mask != buffer
    modifies mask
    ensures forall x, y | InGrid(width, x, y) ::
      IsMasked(x, y, mask) == (old(IsMasked(x, y, mask)) || buffer[Idx(width, x, y)] || buffer[Idx(width, y, x)])
  {
    for i := 0 to buffer.Length
      invariant forall x, y | InGrid(width, x, y) ::
        IsMasked(x, y, mask) == (old(IsMasked(x, y, mask)) || DarkBelow(buffer, width, x, y, i) || DarkBelow(buffer, width, y, x, i))
    {
      if buffer[i] {
        SetMaskIndex(i, width, mask);
      }
    }
  }

  /** Cell (x, y) is dark and among the first `i` cells of the buffer. */
  ghost predicate DarkBelow(buffer: array<bool>, width: int, x: int, y: int, i: int)
    requires buffer.Length == width * width && InGrid(width, x, y)
    reads buffer
  {
    Idx(width, x, y) < i && buffer[Idx(width, x, y)]
  }
}
