/** Data masking: XOR one of the eight mask patterns onto every module that is
    not reserved.  The newer copy (src/Frame.ts) evaluates the pattern formulas
    cell by cell; the exported copy (src/qr/Frame.ts) has one hand-unrolled loop
    per pattern, using counters that run modulo 3 instead of products. */
module Masking {
  import opened Tables
  import opened Reserved

  // ---------------------------------------------------------------------------
  // The patterns

  /** The mask patterns as the newer copy writes them (the formulas of ISO/IEC
      18004, table 10); any other mask number inverts nothing.  Pattern 5
      inverts exactly the cells whose coordinates multiply to a multiple of 6. */
  function MaskPattern(mask: nat, x: nat, y: nat): (r: bool)
    ensures 8 <= mask ==> !r
    ensures mask == 5 ==> (r <==> x * y % 6 == 0)
  {
    match mask
    case 0 => (x + y) % 2 == 0
    case 1 => y % 2 == 0
    case 2 => x % 3 == 0
    case 3 => (x + y) % 3 == 0
    case 4 => (x / 3 + y / 2) % 2 == 0
    case 5 => x * y % 2 + x * y % 3 == 0
    case 6 => (x * y % 2 + x * y % 3) % 2 == 0
    case 7 => ((x + y) % 2 + x * y % 3) % 2 == 0
    case _ => false
  }

  /** `x & y & 1`. */
  function BothOdd(x: nat, y: nat): nat {
    if x % 2 == 1 && y % 2 == 1 then 1 else 0
  }

  /** `+(r3x && r3x === r3y)`: 1 when both counters are equal and non-zero. */
  function EqualNonzero(r3x: nat, r3y: nat): nat {
    if r3x != 0 && r3x == r3y then 1 else 0
  }

  /** The exported copy's test for patterns 5 to 7 from the counters r3x = x mod 3
      and r3y = y mod 3, with pattern 5 as the negations `!r3x | !r3y` intend. */
  function ProductTest(mask: nat, x: nat, y: nat, r3x: nat, r3y: nat): bool {
    if mask == 5 then BothOdd(x, y) == 0 && (r3x == 0 || r3y == 0)
    else if mask == 6 then (BothOdd(x, y) + EqualNonzero(r3x, r3y)) % 2 == 0
    else (EqualNonzero(r3x, r3y) + (x + y) % 2) % 2 == 0
  }

  /** Pattern 5 of the exported copy as written: `!((x & y & 1) + (r3x ^ 1 | r3y ^ 1) ^ 1)`.
      `r3x ^ 1` is 1, 0, 3 for a counter of 0, 1, 2, so the test holds where x * y
      is even and both counters are below 2 with one of them 0, or where x and y
      are odd and both counters are 1. */
  function FlowerAsWritten(x: nat, y: nat, r3x: nat, r3y: nat): (r: bool)
    requires r3x < 3 && r3y < 3
    ensures r <==>
      if BothOdd(x, y) == 1 then r3x == 1 && r3y == 1
      else r3x < 2 && r3y < 2 && (r3x == 0 || r3y == 0)
  {
    var either := ((r3x as bv8) ^ 1) | ((r3y as bv8) ^ 1);
    ((BothOdd(x, y) as bv8) + either) ^ 1 == 0
  }

  /** What the exported copy's loops invert at (x, y), as written: pattern 0
      tests the linear index, pattern 1 inverts the odd rows, pattern 5 uses
      FlowerAsWritten.  Pattern 1 is the complement of the standard's, and on
      every odd width (every QR width is odd) the patterns other than 1 and 5
      are the standard's. */
  function LegacyPattern(mask: nat, width: nat, x: nat, y: nat): (r: bool)
    ensures mask == 1 ==> r == !MaskPattern(1, x, y)
    ensures width % 2 == 1 && mask != 1 && mask != 5 ==> r == MaskPattern(mask, x, y)
  {
    IndexParity(width, x, y);
    ProductParity(x, y);
    ProductThirds(x, y);
    match mask
    case 0 => (x + width * y) % 2 == 0
    case 1 => y % 2 == 1
    case 2 => x % 3 == 0
    case 3 => (x + y) % 3 == 0
    case 4 => (y / 2 + x / 3) % 2 == 0
    case 5 => FlowerAsWritten(x, y, x % 3, y % 3)
    case 6 => ProductTest(6, x, y, x % 3, y % 3)
    case 7 => ProductTest(7, x, y, x % 3, y % 3)
    case _ => false
  }

  /** The exported copy's loops with patterns 1 and 5 corrected: even rows, and
      the negations of pattern 5 as in ProductTest.  On every odd width they
      invert exactly the standard's cells. */
  function CorrectedPattern(mask: nat, width: nat, x: nat, y: nat): (r: bool)
    ensures width % 2 == 1 ==> r == MaskPattern(mask, x, y)
  {
    ProductParity(x, y);
    ProductThirds(x, y);
    if mask == 1 then y % 2 == 0
    else if mask == 5 then ProductTest(5, x, y, x % 3, y % 3)
    else LegacyPattern(mask, width, x, y)
  }

  /** Which pattern set a masking applies: the standard formulas, the exported
      copy's loops as written, or those loops with patterns 1 and 5 corrected. */
  datatype Patterns = Iso | AsWritten | Corrected

  /** The patterns each copy of the engine applies. */
  function PatternsOf(variant: Variant): Patterns {
    match variant
    case Newer => Iso
    case Exported => AsWritten
  }

  function Pattern(p: Patterns, mask: nat, width: nat, x: nat, y: nat): bool {
    match p
    case Iso => MaskPattern(mask, x, y)
    case AsWritten => LegacyPattern(mask, width, x, y)
    case Corrected => CorrectedPattern(mask, width, x, y)
  }

  /** Cell (x, y) is inverted: the pattern holds there and the cell is not reserved. */
  ghost predicate Flips(p: Patterns, mask: nat, width: nat, x: nat, y: nat, m: seq<bool>) {
    Pattern(p, mask, width, x, y) && !MaskedIn(x, y, m)
  }

  /** Flips for every linear index of a width * width buffer. */
  ghost function FlipTable(width: nat, p: Patterns, mask: nat, m: seq<bool>): (f: seq<bool>)
    ensures |f| == width * width
  {
    seq(width * width, k requires 0 <= k < width * width =>
      Flips(p, mask, width, k % width, k / width, m))
  }

  /** Cell-wise XOR of two buffers of one length. */
  function Xor(b: seq<bool>, f: seq<bool>): (r: seq<bool>)
    requires |b| == |f|
    ensures |r| == |b| && forall k | 0 <= k < |b| :: r[k] == (b[k] != f[k])
  {
    seq(|b|, k requires 0 <= k < |b| => b[k] != f[k])
  }

  /** The buffer after masking: every cell XOR-ed with Flips. */
  ghost function Masked(b: seq<bool>, width: nat, p: Patterns, mask: nat, m: seq<bool>): seq<bool>
    requires |b| == width * width
  {
    Xor(b, FlipTable(width, p, mask, m))
  }

  // ---------------------------------------------------------------------------
  // Arithmetic behind the counters

  /** A product modulo n depends only on the factors modulo n. */
  lemma {:induction false} MulMod(x: nat, y: nat, n: nat)
    requires 0 < n
    ensures (x * y) % n == ((x % n) * (y % n)) % n
  {
    var a, r := x / n, x % n;
    var b, s := y / n, y % n;
    var q := n * a * b + a * s + r * b;
    assert x * y == n * q + r * s by {
      assert x == n * a + r && y == n * b + s;
    }
    var rs := r * s;
    assert x * y == n * (q + rs / n) + rs % n;
    DivModUnique(x * y, n, q + rs / n, rs % n);
  }

  lemma {:induction false} ProductParity(x: nat, y: nat)
    ensures x * y % 2 == BothOdd(x, y)
  {
    MulMod(x, y, 2);
  }

  lemma {:induction false} ProductThirds(x: nat, y: nat)
    ensures x * y % 3 == 0 <==> (x % 3 == 0 || y % 3 == 0)
    ensures x * y % 3 % 2 == EqualNonzero(x % 3, y % 3)
  {
    MulMod(x, y, 3);
    var r, s := x % 3, y % 3;
    assert r == 0 || r == 1 || r == 2;
    assert s == 0 || s == 1 || s == 2;
  }

  /** On an odd width the linear index has the parity of x + y. */
  lemma {:induction false} IndexParity(width: nat, x: nat, y: nat)
    ensures width % 2 == 1 ==> (x + width * y) % 2 == (x + y) % 2
  {
    if width % 2 == 1 {
      var q := width / 2;
      assert width * y == 2 * (q * y) + y by {
        assert width == 2 * q + 1;
      }
      DivModUnique(x + width * y, 2, (x + y) / 2 + q * y, (x + y) % 2);
    }
  }

  /** The exported copy's pattern 5 as written differs from the standard exactly
      where one counter is 0 and the other 2 (and x * y is even), the cells where
      `r3x ^ 1` is not a negation, and where both counters are 1 and x and y are
      odd, the cells where the outer `^ 1` negating the whole sum matters. */
  lemma LegacyFlowerDiffers(width: nat, x: nat, y: nat)
    ensures LegacyPattern(5, width, x, y) != MaskPattern(5, x, y) <==>
      (BothOdd(x, y) == 0 && ((x % 3 == 0 && y % 3 == 2) || (x % 3 == 2 && y % 3 == 0))) ||
      (BothOdd(x, y) == 1 && x % 3 == 1 && y % 3 == 1)
  {
    ProductParity(x, y);
    ProductThirds(x, y);
    var r, s := x % 3, y % 3;
    assert r == 0 || r == 1 || r == 2;
    assert s == 0 || s == 1 || s == 2;
  }

  /** Two concrete cells, one per defect of the test as written: (0, 2), where
      `r3y ^ 1` is wrong for a counter of 2, is inverted by the standard only;
      (1, 1), where the outer `^ 1` negates the whole sum, is inverted by the
      exported copy only. */
  lemma LegacyFlowerCounterexample()
    ensures LegacyPattern(5, 21, 1, 1) && !MaskPattern(5, 1, 1)
    ensures !LegacyPattern(5, 21, 0, 2) && MaskPattern(5, 0, 2)
  {
  }

  // ---------------------------------------------------------------------------
  // Properties of masking

  /** Cell (x, y) of the masked buffer is the old cell XOR Flips. */
  lemma MaskedCell(b: seq<bool>, width: nat, p: Patterns, mask: nat, m: seq<bool>, x: nat, y: nat)
    requires |b| == width * width && InGrid(width, x, y)
    ensures Masked(b, width, p, mask, m)[Idx(width, x, y)] ==
      (b[Idx(width, x, y)] != Flips(p, mask, width, x, y, m))
  {
  }

  /** Masking twice with the same pattern and reserved bits restores the
      buffer: a mask is an exclusive-or with a fixed table. */
  lemma MaskedInvolution(b: seq<bool>, width: nat, p: Patterns, mask: nat, m: seq<bool>)
    requires |b| == width * width
    ensures Masked(Masked(b, width, p, mask, m), width, p, mask, m) == b
  {
    var once := Masked(b, width, p, mask, m);
    var twice := Masked(once, width, p, mask, m);
    assert forall k | 0 <= k < |b| :: twice[k] == b[k];
  }

  /** Reserved cells are never changed by masking. */
  lemma MaskedKeepsReserved(b: seq<bool>, width: nat, p: Patterns, mask: nat, m: seq<bool>, x: nat, y: nat)
    requires |b| == width * width && InGrid(width, x, y) && MaskedIn(x, y, m)
    ensures Masked(b, width, p, mask, m)[Idx(width, x, y)] == b[Idx(width, x, y)]
  {
    MaskedCell(b, width, p, mask, m, x, y);
  }

  /** With mask 1 the exported copy, as written, sets every unreserved cell to
      the opposite of what the standard masking gives it. */
  lemma LegacyRowsInverted(b: seq<bool>, width: nat, m: seq<bool>, x: nat, y: nat)
    requires |b| == width * width && InGrid(width, x, y) && !MaskedIn(x, y, m)
    ensures Masked(b, width, AsWritten, 1, m)[Idx(width, x, y)] != Masked(b, width, Iso, 1, m)[Idx(width, x, y)]
  {
    MaskedCell(b, width, AsWritten, 1, m, x, y);
    MaskedCell(b, width, Iso, 1, m, x, y);
  }

  /** On an odd width the exported copy's loops mask as the standard does: all
      of them once patterns 1 and 5 are corrected, and as written all but
      those two. */
  lemma VariantsAgree(b: seq<bool>, width: nat, mask: nat, m: seq<bool>)
    requires |b| == width * width && width % 2 == 1
    ensures Masked(b, width, Iso, mask, m) == Masked(b, width, Corrected, mask, m)
    ensures mask != 1 && mask != 5 ==> Masked(b, width, Iso, mask, m) == Masked(b, width, AsWritten, mask, m)
  {
    var fi, fc, fa := FlipTable(width, Iso, mask, m), FlipTable(width, Corrected, mask, m), FlipTable(width, AsWritten, mask, m);
    forall k | 0 <= k < |b|
      ensures fi[k] == fc[k] && (mask != 1 && mask != 5 ==> fi[k] == fa[k])
    {
      FlipsAgree(width, mask, m, k % width, k / width);
    }
    assert fi == fc;
    if mask != 1 && mask != 5 {
      assert fi == fa;
    }
  }

  lemma FlipsAgree(width: nat, mask: nat, m: seq<bool>, x: nat, y: nat)
    requires width % 2 == 1
    ensures Flips(Iso, mask, width, x, y, m) == Flips(Corrected, mask, width, x, y, m)
    ensures mask != 1 && mask != 5 ==> Flips(Iso, mask, width, x, y, m) == Flips(AsWritten, mask, width, x, y, m)
  {
  }

  /** The correction touches patterns 1 and 5 only. */
  lemma CorrectionKeeps(b: seq<bool>, width: nat, mask: nat, m: seq<bool>)
    requires |b| == width * width && mask != 1 && mask != 5
    ensures Masked(b, width, AsWritten, mask, m) == Masked(b, width, Corrected, mask, m)
  {
    var fa, fc := FlipTable(width, AsWritten, mask, m), FlipTable(width, Corrected, mask, m);
    assert forall k | 0 <= k < |b| :: fa[k] == fc[k];
    assert fa == fc;
  }

  // ---------------------------------------------------------------------------
  // Row-major progress

  /** The cells with linear index below `upto` have been XOR-ed with f, the
      others are untouched. */
  ghost predicate FlippedBelow(b: seq<bool>, b0: seq<bool>, f: seq<bool>, upto: int) {
    |b| == |b0| == |f| &&
    forall k | 0 <= k < |b| :: b[k] == (b0[k] != (k < upto && f[k]))
  }

  lemma FlippedAll(b: seq<bool>, b0: seq<bool>, width: nat, p: Patterns, mask: nat, m: seq<bool>)
    requires FlippedBelow(b, b0, FlipTable(width, p, mask, m), width * width)
    ensures b == Masked(b0, width, p, mask, m)
  {
  }

  /** A row in which the pattern holds nowhere needs no visit. */
  lemma SkipRow(b: seq<bool>, b0: seq<bool>, width: nat, p: Patterns, mask: nat, m: seq<bool>, y: nat)
    requires y < width && FlippedBelow(b, b0, FlipTable(width, p, mask, m), width * y)
    requires forall x | 0 <= x < width :: !Pattern(p, mask, width, x, y)
    ensures FlippedBelow(b, b0, FlipTable(width, p, mask, m), width * (y + 1))
  {
    var f := FlipTable(width, p, mask, m);
    var lo := width * y;
    NextRow(width, y);
    forall k | 0 <= k < |b|
      ensures b[k] == (b0[k] != (k < lo + width && f[k]))
    {
      if lo <= k < lo + width {
        RowOfIndex(width, y, k);
        assert !Pattern(p, mask, width, k % width, y);
      }
    }
  }

  lemma {:induction false} NextRow(width: nat, y: nat)
    ensures width * (y + 1) == width * y + width
  {
  }

  /** An index inside row y lies in row y, and so inside a grid of at least y + 1 rows. */
  lemma {:induction false} RowOfIndex(width: nat, y: nat, k: int)
    requires 0 < width && width * y <= k < width * y + width
    ensures k / width == y && 0 <= k % width < width
  {
    DivModUnique(k, width, y, k - width * y);
  }

  /** `if (invert && !isMasked(x, y, currentMask)) buffer[x + y * width] ^= 1`,
      the visit of one cell in row-major order. */
  method FlipCell(buffer: array<bool>, width: nat, x: nat, y: nat, invert: bool, currentMask: array<bool>,
                  ghost b0: seq<bool>, ghost p: Patterns, ghost mask: nat)
    requires buffer != currentMask && InGrid(width, x, y)
    requires invert == Pattern(p, mask, width, x, y)
    requires FlippedBelow(buffer[..], b0, FlipTable(width, p, mask, currentMask[..]), x + width * y)
    modifies buffer
    ensures FlippedBelow(buffer[..], b0, FlipTable(width, p, mask, currentMask[..]), x + width * y + 1)
  {
    var i := x + y * width;
    assert i == Idx(width, x, y);
    ghost var f := FlipTable(width, p, mask, currentMask[..]);
    assert f[i] == (invert && !IsMasked(x, y, currentMask));
    if invert && !IsMasked(x, y, currentMask) {
      buffer[i] := !buffer[i];
    }
  }

  // ---------------------------------------------------------------------------
  // applyMask, newer copy

  /** applyMask (src/Frame.ts): invert every unreserved cell where the pattern
      formula holds. */
  method ApplyMask(width: nat, buffer: array<bool>, mask: nat, currentMask: array<bool>)
    requires buffer.Length == width * width && buffer != currentMask
    modifies buffer
    ensures buffer[..] == Masked(old(buffer[..]), width, Iso, mask, currentMask[..])
  {
    ghost var b0 := buffer[..];
    ghost var f := FlipTable(width, Iso, mask, currentMask[..]);
    for y := 0 to width
      invariant FlippedBelow(buffer[..], b0, f, width * y)
    {
      for x := 0 to width
        invariant FlippedBelow(buffer[..], b0, f, x + width * y)
      {
        var invert := MaskPattern(mask, x, y);
        FlipCell(buffer, width, x, y, invert, currentMask, b0, Iso, mask);
      }
      NextRow(width, y);
    }
    FlippedAll(buffer[..], b0, width, Iso, mask, currentMask[..]);
  }

  // ---------------------------------------------------------------------------
  // applyMask, exported copy

  /** applyMask (src/qr/Frame.ts): one loop per pattern; other mask numbers
      change nothing. */
  method ApplyMaskExported(width: nat, buffer: array<bool>, mask: nat, currentMask: array<bool>)
    requires buffer.Length == width * width && buffer != currentMask
    modifies buffer
    ensures buffer[..] == Masked(old(buffer[..]), width, AsWritten, mask, currentMask[..])
  {
    if mask == 0 {
      MaskChecker(width, buffer, currentMask);
    } else if mask == 1 {
      MaskRows(width, buffer, currentMask);
    } else if mask == 2 {
      MaskColumns(width, buffer, currentMask);
    } else if mask == 3 {
      MaskDiagonal(width, buffer, currentMask);
    } else if mask == 4 {
      MaskRectangles(width, buffer, currentMask);
    } else if mask <= 7 {
      MaskProducts(width, buffer, mask, currentMask, AsWritten);
    } else {
      ghost var f := FlipTable(width, AsWritten, mask, currentMask[..]);
      assert forall k | 0 <= k < |f| :: !f[k];
      FlippedAll(buffer[..], buffer[..], width, AsWritten, mask, currentMask[..]);
    }
  }

  /** applyMask of the exported copy with patterns 1 and 5 corrected.  On
      every odd width it masks exactly as the standard, and the newer copy, do. */
  method ApplyMaskCorrected(width: nat, buffer: array<bool>, mask: nat, currentMask: array<bool>)
    requires buffer.Length == width * width && buffer != currentMask
    modifies buffer
    ensures buffer[..] == Masked(old(buffer[..]), width, Corrected, mask, currentMask[..])
    ensures width % 2 == 1 ==> buffer[..] == Masked(old(buffer[..]), width, Iso, mask, currentMask[..])
  {
    ghost var b0 := buffer[..];
    if mask == 1 {
      MaskRowsCorrected(width, buffer, currentMask);
    } else if mask == 5 {
      MaskProducts(width, buffer, 5, currentMask, Corrected);
    } else {
      ApplyMaskExported(width, buffer, mask, currentMask);
      CorrectionKeeps(b0, width, mask, currentMask[..]);
    }
    if width % 2 == 1 {
      VariantsAgree(b0, width, mask, currentMask[..]);
    }
  }

  /** Pattern 0: every even linear index, through isMaskedIndex. */
  method MaskChecker(width: nat, buffer: array<bool>, currentMask: array<bool>)
    requires buffer.Length == width * width && buffer != currentMask
    modifies buffer
    ensures buffer[..] == Masked(old(buffer[..]), width, AsWritten, 0, currentMask[..])
  {
    ghost var b0 := buffer[..];
    ghost var f := FlipTable(width, AsWritten, 0, currentMask[..]);
    for i := 0 to width * width
      invariant FlippedBelow(buffer[..], b0, f, i)
    {
      CellOfIndex(width, i);
      var x, y := i % width, i / width;
      assert IsMaskedIndex(i, width, currentMask) == IsMasked(x, y, currentMask);
      FlipCell(buffer, width, x, y, i % 2 == 0, currentMask, b0, AsWritten, 0);
    }
    FlippedAll(buffer[..], b0, width, AsWritten, 0, currentMask[..]);
  }

  /** Pattern 1 as written: whole rows, the odd ones (`if (y % 2)`). */
  method MaskRows(width: nat, buffer: array<bool>, currentMask: array<bool>)
    requires buffer.Length == width * width && buffer != currentMask
    modifies buffer
    ensures buffer[..] == Masked(old(buffer[..]), width, AsWritten, 1, currentMask[..])
  {
    ghost var b0 := buffer[..];
    ghost var f := FlipTable(width, AsWritten, 1, currentMask[..]);
    for y := 0 to width
      invariant FlippedBelow(buffer[..], b0, f, width * y)
    {
      if y % 2 == 1 {
        for x := 0 to width
          invariant FlippedBelow(buffer[..], b0, f, x + width * y)
        {
          FlipCell(buffer, width, x, y, true, currentMask, b0, AsWritten, 1);
        }
        NextRow(width, y);
      } else {
        SkipRow(buffer[..], b0, width, AsWritten, 1, currentMask[..], y);
      }
    }
    FlippedAll(buffer[..], b0, width, AsWritten, 1, currentMask[..]);
  }

  /** Pattern 1 corrected: the even rows, as the standard's pattern 1. */
  method MaskRowsCorrected(width: nat, buffer: array<bool>, currentMask: array<bool>)
    requires buffer.Length == width * width && buffer != currentMask
    modifies buffer
    ensures buffer[..] == Masked(old(buffer[..]), width, Corrected, 1, currentMask[..])
  {
    ghost var b0 := buffer[..];
    ghost var f := FlipTable(width, Corrected, 1, currentMask[..]);
    for y := 0 to width
      invariant FlippedBelow(buffer[..], b0, f, width * y)
    {
      if y % 2 == 0 {
        for x := 0 to width
          invariant FlippedBelow(buffer[..], b0, f, x + width * y)
        {
          FlipCell(buffer, width, x, y, true, currentMask, b0, Corrected, 1);
        }
        NextRow(width, y);
      } else {
        SkipRow(buffer[..], b0, width, Corrected, 1, currentMask[..], y);
      }
    }
    FlippedAll(buffer[..], b0, width, Corrected, 1, currentMask[..]);
  }

  /** Pattern 3: a counter r3x that starts each row at y mod 3 and runs modulo 3. */
  method MaskDiagonal(width: nat, buffer: array<bool>, currentMask: array<bool>)
    requires buffer.Length == width * width && buffer != currentMask
    modifies buffer
    ensures buffer[..] == Masked(old(buffer[..]), width, AsWritten, 3, currentMask[..])
  {
    ghost var b0 := buffer[..];
    var r3y, y := 0, 0;
    while y < width
      invariant 0 <= y <= width && r3y <= 3 && r3y % 3 == y % 3
      invariant FlippedBelow(buffer[..], b0, FlipTable(width, AsWritten, 3, currentMask[..]), width * y)
    {
      CounterWrap(r3y, y);
      if r3y == 3 {
        r3y := 0;
      }
      DiagonalRow(width, buffer, currentMask, y, r3y, b0);
      NextRow(width, y);
      CounterNext(r3y, y);
      y, r3y := y + 1, r3y + 1;
    }
    FlippedAll(buffer[..], b0, width, AsWritten, 3, currentMask[..]);
  }

  /** A counter running modulo 3 with the wrap-around test before its use. */
  lemma CounterWrap(c: nat, n: nat)
    requires c <= 3 && c % 3 == n % 3
    ensures (if c == 3 then 0 else c) == n % 3
  {
  }

  lemma CounterNext(c: nat, n: nat)
    requires c == n % 3
    ensures c + 1 <= 3 && (c + 1) % 3 == (n + 1) % 3
  {
  }

  /** The counter test of pattern 3 is the pattern. */
  lemma DiagonalTest(width: nat, x: nat, y: nat, r3x: nat)
    requires r3x == (x + y) % 3
    ensures (r3x == 0) == Pattern(AsWritten, 3, width, x, y)
  {
  }

  /** Row y of pattern 3. */
  method DiagonalRow(width: nat, buffer: array<bool>, currentMask: array<bool>, y: nat, r3y: nat, ghost b0: seq<bool>)
    requires buffer != currentMask && y < width && r3y == y % 3
    requires FlippedBelow(buffer[..], b0, FlipTable(width, AsWritten, 3, currentMask[..]), width * y)
    modifies buffer
    ensures FlippedBelow(buffer[..], b0, FlipTable(width, AsWritten, 3, currentMask[..]), width * y + width)
  {
    var r3x, x := r3y, 0;
    while x < width
      invariant 0 <= x <= width && r3x <= 3 && r3x % 3 == (x + y) % 3
      invariant FlippedBelow(buffer[..], b0, FlipTable(width, AsWritten, 3, currentMask[..]), x + width * y)
    {
      CounterWrap(r3x, x + y);
      if r3x == 3 {
        r3x := 0;
      }
      DiagonalTest(width, x, y, r3x);
      FlipCell(buffer, width, x, y, r3x == 0, currentMask, b0, AsWritten, 3);
      CounterNext(r3x, x + y);
      x, r3x := x + 1, r3x + 1;
    }
  }

  /** Pattern 4: r3y starts each row at (y >> 1) & 1 and toggles whenever r3x wraps. */
  method MaskRectangles(width: nat, buffer: array<bool>, currentMask: array<bool>)
    requires buffer.Length == width * width && buffer != currentMask
    modifies buffer
    ensures buffer[..] == Masked(old(buffer[..]), width, AsWritten, 4, currentMask[..])
  {
    ghost var b0 := buffer[..];
    for y := 0 to width
      invariant FlippedBelow(buffer[..], b0, FlipTable(width, AsWritten, 4, currentMask[..]), width * y)
    {
      RectanglesRow(width, buffer, currentMask, y, b0);
      NextRow(width, y);
    }
    FlippedAll(buffer[..], b0, width, AsWritten, 4, currentMask[..]);
  }

  /** Row y of pattern 4. */
  method RectanglesRow(width: nat, buffer: array<bool>, currentMask: array<bool>, y: nat, ghost b0: seq<bool>)
    requires buffer != currentMask && y < width
    requires FlippedBelow(buffer[..], b0, FlipTable(width, AsWritten, 4, currentMask[..]), width * y)
    modifies buffer
    ensures FlippedBelow(buffer[..], b0, FlipTable(width, AsWritten, 4, currentMask[..]), width * y + width)
  {
    var r3x, r3y, x := 0, (y / 2) % 2, 0;
    ghost var wraps := 0;
    while x < width
      invariant 0 <= x <= width && r3x <= 3 && x == 3 * wraps + r3x
      invariant r3y == (y / 2 + wraps) % 2
      invariant FlippedBelow(buffer[..], b0, FlipTable(width, AsWritten, 4, currentMask[..]), x + width * y)
    {
      if r3x == 3 {
        ParityStep(r3y, y / 2 + wraps);
        r3x := 0;
        r3y := if r3y == 0 then 1 else 0;
        wraps := wraps + 1;
      }
      RectanglesTest(width, x, y, r3x, r3y, wraps);
      FlipCell(buffer, width, x, y, r3y == 0, currentMask, b0, AsWritten, 4);
      x, r3x := x + 1, r3x + 1;
    }
  }

  /** Toggling a bit that holds the parity of n gives the parity of n + 1. */
  lemma ParityStep(bit: nat, n: nat)
    requires bit == n % 2
    ensures (if bit == 0 then 1 else 0) == (n + 1) % 2
  {
  }

  /** The counter test of pattern 4 is the pattern: x / 3 is the number of wraps. */
  lemma RectanglesTest(width: nat, x: nat, y: nat, r3x: nat, r3y: nat, wraps: nat)
    requires x == 3 * wraps + r3x && r3x < 3 && r3y == (y / 2 + wraps) % 2
    ensures (r3y == 0) == Pattern(AsWritten, 4, width, x, y)
  {
    DivModUnique(x, 3, wraps, r3x);
  }

  /** Patterns 5 to 7: counters r3x = x mod 3 and r3y = y mod 3 feed the cell
      test, pattern 5 as written (p = AsWritten) or corrected (p = Corrected). */
  method MaskProducts(width: nat, buffer: array<bool>, mask: nat, currentMask: array<bool>, p: Patterns)
    requires 5 <= mask <= 7 && p != Iso && buffer.Length == width * width && buffer != currentMask
    modifies buffer
    ensures buffer[..] == Masked(old(buffer[..]), width, p, mask, currentMask[..])
  {
    ghost var b0 := buffer[..];
    var r3y, y := 0, 0;
    while y < width
      invariant 0 <= y <= width && r3y <= 3 && r3y % 3 == y % 3
      invariant FlippedBelow(buffer[..], b0, FlipTable(width, p, mask, currentMask[..]), width * y)
    {
      CounterWrap(r3y, y);
      if r3y == 3 {
        r3y := 0;
      }
      ProductsRow(width, buffer, mask, currentMask, p, y, r3y, b0);
      NextRow(width, y);
      CounterNext(r3y, y);
      y, r3y := y + 1, r3y + 1;
    }
    FlippedAll(buffer[..], b0, width, p, mask, currentMask[..]);
  }

  /** Row y of patterns 5 to 7. */
  method ProductsRow(width: nat, buffer: array<bool>, mask: nat, currentMask: array<bool>, p: Patterns,
                     y: nat, r3y: nat, ghost b0: seq<bool>)
    requires 5 <= mask <= 7 && p != Iso && buffer != currentMask && y < width && r3y == y % 3
    requires FlippedBelow(buffer[..], b0, FlipTable(width, p, mask, currentMask[..]), width * y)
    modifies buffer
    ensures FlippedBelow(buffer[..], b0, FlipTable(width, p, mask, currentMask[..]), width * y + width)
  {
    var r3x, x := 0, 0;
    while x < width
      invariant 0 <= x <= width && r3x <= 3 && r3x % 3 == x % 3
      invariant FlippedBelow(buffer[..], b0, FlipTable(width, p, mask, currentMask[..]), x + width * y)
    {
      CounterWrap(r3x, x);
      if r3x == 3 {
        r3x := 0;
      }
      ProductCell(width, buffer, mask, currentMask, p, x, y, r3x, r3y, b0);
      CounterNext(r3x, x);
      x, r3x := x + 1, r3x + 1;
    }
  }

  /** The cell test of the loops for patterns 5 to 7 on the counters. */
  function ProductInvert(p: Patterns, mask: nat, x: nat, y: nat, r3x: nat, r3y: nat): bool
    requires r3x < 3 && r3y < 3
  {
    if mask == 5 && p == AsWritten then FlowerAsWritten(x, y, r3x, r3y)
    else ProductTest(mask, x, y, r3x, r3y)
  }

  /** The visit of cell (x, y) for patterns 5 to 7, with the counters at x mod 3
      and y mod 3. */
  method ProductCell(width: nat, buffer: array<bool>, mask: nat, currentMask: array<bool>, p: Patterns,
                     x: nat, y: nat, r3x: nat, r3y: nat, ghost b0: seq<bool>)
    requires 5 <= mask <= 7 && p != Iso && buffer != currentMask && InGrid(width, x, y)
    requires r3x == x % 3 && r3y == y % 3
    requires FlippedBelow(buffer[..], b0, FlipTable(width, p, mask, currentMask[..]), x + width * y)
    modifies buffer
    ensures FlippedBelow(buffer[..], b0, FlipTable(width, p, mask, currentMask[..]), x + width * y + 1)
  {
    ProductPattern(p, mask, width, x, y);
    FlipCell(buffer, width, x, y, ProductInvert(p, mask, x, y, r3x, r3y), currentMask, b0, p, mask);
  }

  /** The counter test is the pattern. */
  lemma ProductPattern(p: Patterns, mask: nat, width: nat, x: nat, y: nat)
    requires 5 <= mask <= 7 && p != Iso
    ensures Pattern(p, mask, width, x, y) == ProductInvert(p, mask, x, y, x % 3, y % 3)
  {
  }

  // ---------------------------------------------------------------------------
  // Pattern 2 runs column by column

  /** The columns left of x, and column x above row y, have been XOR-ed with f. */
  ghost predicate FlippedColumns(b: seq<bool>, b0: seq<bool>, f: seq<bool>, width: nat, x: int, y: int) {
    0 < width && |b| == |b0| == |f| &&
    forall k | 0 <= k < |b| ::
      b[k] == (b0[k] != ((k % width < x || (k % width == x && k / width < y)) && f[k]))
  }

  /** Pattern 2: every third column, walked top to bottom. */
  method MaskColumns(width: nat, buffer: array<bool>, currentMask: array<bool>)
    requires buffer.Length == width * width && buffer != currentMask
    modifies buffer
    ensures buffer[..] == Masked(old(buffer[..]), width, AsWritten, 2, currentMask[..])
  {
    if width == 0 {
      assert buffer[..] == [];
      return;
    }
    ghost var b0 := buffer[..];
    ghost var f := FlipTable(width, AsWritten, 2, currentMask[..]);
    for x := 0 to width
      invariant FlippedColumns(buffer[..], b0, f, width, x, 0)
    {
      if x % 3 == 0 {
        for y := 0 to width
          invariant FlippedColumns(buffer[..], b0, f, width, x, y)
        {
          FlipColumnCell(buffer, width, x, y, currentMask, b0);
        }
      }
      NextColumn(buffer[..], b0, width, currentMask[..], x);
    }
    forall k | 0 <= k < buffer.Length
      ensures k % width < width
    {
    }
    assert FlippedBelow(buffer[..], b0, f, width * width);
    FlippedAll(buffer[..], b0, width, AsWritten, 2, currentMask[..]);
  }

  /** Leaving column x: either every row was visited, or the pattern holds
      nowhere in the column. */
  lemma NextColumn(b: seq<bool>, b0: seq<bool>, width: nat, m: seq<bool>, x: nat)
    requires x < width
    requires FlippedColumns(b, b0, FlipTable(width, AsWritten, 2, m), width, x, if x % 3 == 0 then width else 0)
    ensures FlippedColumns(b, b0, FlipTable(width, AsWritten, 2, m), width, x + 1, 0)
  {
    var f := FlipTable(width, AsWritten, 2, m);
    forall k | 0 <= k < |b|
      ensures b[k] == (b0[k] != ((k % width < x + 1 || (k % width == x + 1 && k / width < 0)) && f[k]))
    {
      ColumnDone(width, m, x, k);
    }
  }

  /** One index of NextColumn: the condition before leaving column x and after
      it select the same inverted cells. */
  lemma ColumnDone(width: nat, m: seq<bool>, x: nat, k: nat)
    requires x < width && k < width * width
    ensures var f := FlipTable(width, AsWritten, 2, m);
      var y := if x % 3 == 0 then width else 0;
      ((k % width < x || (k % width == x && k / width < y)) && f[k]) ==
      ((k % width < x + 1 || (k % width == x + 1 && k / width < 0)) && f[k])
  {
    CellOfIndex(width, k);
    if k % width == x {
      if x % 3 != 0 {
        assert !Pattern(AsWritten, 2, width, k % width, k / width);
      }
    }
  }

  /** The visit of cell (x, y) of a pattern-2 column. */
  method FlipColumnCell(buffer: array<bool>, width: nat, x: nat, y: nat, currentMask: array<bool>,
                        ghost b0: seq<bool>)
    requires buffer != currentMask && InGrid(width, x, y) && x % 3 == 0
    requires FlippedColumns(buffer[..], b0, FlipTable(width, AsWritten, 2, currentMask[..]), width, x, y)
    modifies buffer
    ensures FlippedColumns(buffer[..], b0, FlipTable(width, AsWritten, 2, currentMask[..]), width, x, y + 1)
  {
    var i := x + y * width;
    assert i == Idx(width, x, y);
    ghost var f := FlipTable(width, AsWritten, 2, currentMask[..]);
    assert f[i] == !IsMasked(x, y, currentMask);
    ghost var before := buffer[..];
    if !IsMasked(x, y, currentMask) {
      buffer[i] := !buffer[i];
    }
    forall k | 0 <= k < buffer.Length && k % width == x && k / width == y
      ensures k == i
    {
      CellOfIndex(width, k);
    }
  }
}
