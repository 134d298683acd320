/** The function patterns drawn before any data is placed: finder patterns,
    alignment patterns, separators, format and version areas, timing patterns.

    Every drawing step either darkens buffer cells or reserves cells in the
    triangular mask; cells are named (column, row).  Each method states its whole
    effect cell by cell: a cell is dark afterwards exactly when it was dark before
    or the pattern makes it dark, and reserved afterwards exactly when it was
    reserved before or the pattern (or its transpose) reserves it. */
module Layout {
  import opened Tables
  import opened Reserved

  // ---------------------------------------------------------------------------
  // Finder patterns

  /** Dark cells of the 7x7 finder whose top-left cell is (col, row): the outer
      ring and the 3x3 core. */
  predicate FinderDark(row: int, col: int, cx: int, cy: int) {
    var dc, dr := cx - col, cy - row;
    0 <= dc <= 6 && 0 <= dr <= 6 &&
    (dc == 0 || dc == 6 || dr == 0 || dr == 6 || (2 <= dc <= 4 && 2 <= dr <= 4))
  }

  /** Light cells of the finder: the ring between the outer ring and the core. */
  predicate FinderLight(row: int, col: int, cx: int, cy: int) {
    var dc, dr := cx - col, cy - row;
    1 <= dc <= 5 && 1 <= dr <= 5 && (dc == 1 || dc == 5 || dr == 1 || dr == 5)
  }

  /** Outer-ring cells drawn by the first `i` rounds of the ring loop. */
  predicate FinderRingBelow(row: int, col: int, i: int, cx: int, cy: int) {
    (cy == row && col <= cx < col + i) ||
    (cx == col && row + 1 <= cy <= row + i) ||
    (cx == col + 6 && row <= cy < row + i) ||
    (cy == row + 6 && col + 1 <= cx <= col + i)
  }

  /** Light-ring cells reserved by the rounds before `i` of the reserving loop. */
  predicate FinderLightBelow(row: int, col: int, i: int, cx: int, cy: int) {
    (cy == row + 1 && col + 1 <= cx < col + i) ||
    (cx == col + 1 && row + 2 <= cy < row + i + 1) ||
    (cx == col + 5 && row + 1 <= cy < row + i) ||
    (cy == row + 5 && col + 2 <= cx < col + i + 1)
  }

  /** Core cells drawn by the rounds before `i` of the core loop. */
  predicate FinderCoreBelow(row: int, col: int, i: int, cx: int, cy: int) {
    (cy == row + 2 && col + 2 <= cx < col + i) ||
    (cx == col + 2 && row + 3 <= cy < row + i + 1) ||
    (cx == col + 4 && row + 2 <= cy < row + i) ||
    (cy == row + 4 && col + 3 <= cx < col + i + 1)
  }

  /** insertFinder: draws one finder pattern with top-left cell (col, row) and
      reserves its light ring.  The source's parameters are named the other way
      round: its `x` is the row and its `y` the column. */
  method InsertFinder(mask: array<bool>, buffer: array<bool>, width: int, row: int, col: int)
    requires buffer.Length == width * width && mask.Length == MaskSize(width) && mask != buffer
    requires 0 <= row && row + 7 <= width && 0 <= col && col + 7 <= width
    modifies mask, buffer
    ensures forall cx, cy | InGrid(width, cx, cy) ::
      buffer[Idx(width, cx, cy)] == (old(buffer[Idx(width, cx, cy)]) || FinderDark(row, col, cx, cy))
    ensures forall cx, cy | InGrid(width, cx, cy) ::
      IsMasked(cx, cy, mask) == (old(IsMasked(cx, cy, mask)) || FinderLight(row, col, cx, cy) || FinderLight(row, col, cy, cx))
  {
    Darken(buffer, width, col + 3, row + 3);
    DrawFinderRing(buffer, width, row, col);
    ReserveFinderLight(mask, width, row, col);
    DrawFinderCore(buffer, width, row, col);
    forall cx, cy | InGrid(width, cx, cy)
      ensures buffer[Idx(width, cx, cy)] == (old(buffer[Idx(width, cx, cy)]) || FinderDark(row, col, cx, cy))
      ensures IsMasked(cx, cy, mask) == (old(IsMasked(cx, cy, mask)) || FinderLight(row, col, cx, cy) || FinderLight(row, col, cy, cx))
    {
      FinderParts(row, col, cx, cy);
      FinderParts(row, col, cy, cx);
    }
  }

  /** The three loops of insertFinder together draw exactly the finder. */
  lemma FinderParts(row: int, col: int, cx: int, cy: int)
    ensures FinderDark(row, col, cx, cy) <==>
      (cx == col + 3 && cy == row + 3) || FinderRingBelow(row, col, 6, cx, cy) || FinderCoreBelow(row, col, 4, cx, cy)
    ensures FinderLight(row, col, cx, cy) <==> FinderLightBelow(row, col, 5, cx, cy)
  {
  }

  /** The ring loop of insertFinder. */
  method DrawFinderRing(buffer: array<bool>, width: int, row: int, col: int)
    requires buffer.Length == width * width
    requires 0 <= row && row + 7 <= width && 0 <= col && col + 7 <= width
    modifies buffer
    ensures forall cx, cy | InGrid(width, cx, cy) ::
      buffer[Idx(width, cx, cy)] == (old(buffer[Idx(width, cx, cy)]) || FinderRingBelow(row, col, 6, cx, cy))
  {
    for i := 0 to 6
      invariant forall cx, cy | InGrid(width, cx, cy) ::
        buffer[Idx(width, cx, cy)] == (old(buffer[Idx(width, cx, cy)]) || FinderRingBelow(row, col, i, cx, cy))
    {
      Darken(buffer, width, col + i, row);
      Darken(buffer, width, col, row + i + 1);
      Darken(buffer, width, col + 6, row + i);
      Darken(buffer, width, col + i + 1, row + 6);
    }
  }

  /** The reserving loop of insertFinder. */
  method ReserveFinderLight(mask: array<bool>, width: int, row: int, col: int)
    requires mask.Length == MaskSize(width)
    requires 0 <= row && row + 7 <= width && 0 <= col && col + 7 <= width
    modifies mask
    ensures forall cx, cy | InGrid(width, cx, cy) ::
      IsMasked(cx, cy, mask) == (old(IsMasked(cx, cy, mask)) ||
        FinderLightBelow(row, col, 5, cx, cy) || FinderLightBelow(row, col, 5, cy, cx))
  {
    for i := 1 to 5
      invariant forall cx, cy | InGrid(width, cx, cy) ::
        IsMasked(cx, cy, mask) == (old(IsMasked(cx, cy, mask)) ||
          FinderLightBelow(row, col, i, cx, cy) || FinderLightBelow(row, col, i, cy, cx))
    {
      SetMask(col + i, row + 1, mask, width);
      SetMask(col + 1, row + i + 1, mask, width);
      SetMask(col + 5, row + i, mask, width);
      SetMask(col + i + 1, row + 5, mask, width);
    }
  }

  /** The core loop of insertFinder. */
  method DrawFinderCore(buffer: array<bool>, width: int, row: int, col: int)
    requires buffer.Length == width * width
    requires 0 <= row && row + 7 <= width && 0 <= col && col + 7 <= width
    modifies buffer
    ensures forall cx, cy | InGrid(width, cx, cy) ::
      buffer[Idx(width, cx, cy)] == (old(buffer[Idx(width, cx, cy)]) || FinderCoreBelow(row, col, 4, cx, cy))
  {
    for i := 2 to 4
      invariant forall cx, cy | InGrid(width, cx, cy) ::
        buffer[Idx(width, cx, cy)] == (old(buffer[Idx(width, cx, cy)]) || FinderCoreBelow(row, col, i, cx, cy))
    {
      Darken(buffer, width, col + i, row + 2);
      Darken(buffer, width, col + 2, row + i + 1);
      Darken(buffer, width, col + 4, row + i);
      Darken(buffer, width, col + i + 1, row + 4);
    }
  }

  /** The three finder corners: top left, bottom left and top right. */
  predicate FindersDark(width: int, cx: int, cy: int) {
    FinderDark(0, 0, cx, cy) || FinderDark(width - 7, 0, cx, cy) || FinderDark(0, width - 7, cx, cy)
  }

  predicate FindersLight(width: int, cx: int, cy: int) {
    FinderLight(0, 0, cx, cy) || FinderLight(width - 7, 0, cx, cy) || FinderLight(0, width - 7, cx, cy)
  }

  /** Finder corners drawn by the first `i` rounds of insertFinders. */
  predicate FindersDarkBelow(width: int, i: int, cx: int, cy: int) {
    (0 < i && FinderDark(0, 0, cx, cy)) || (1 < i && FinderDark(width - 7, 0, cx, cy)) ||
    (2 < i && FinderDark(0, width - 7, cx, cy))
  }

  predicate FindersLightBelow(width: int, i: int, cx: int, cy: int) {
    (0 < i && FinderLight(0, 0, cx, cy)) || (1 < i && FinderLight(width - 7, 0, cx, cy)) ||
    (2 < i && FinderLight(0, width - 7, cx, cy))
  }

  /** insertFinders: the three finder patterns in the corners other than the
      bottom-right one. */
  method InsertFinders(mask: array<bool>, buffer: array<bool>, width: int)
    requires buffer.Length == width * width && mask.Length == MaskSize(width) && mask != buffer
    requires 7 <= width
    modifies mask, buffer
    ensures forall cx, cy | InGrid(width, cx, cy) ::
      buffer[Idx(width, cx, cy)] == (old(buffer[Idx(width, cx, cy)]) || FindersDark(width, cx, cy))
    ensures forall cx, cy | InGrid(width, cx, cy) ::
      IsMasked(cx, cy, mask) == (old(IsMasked(cx, cy, mask)) || FindersLight(width, cx, cy) || FindersLight(width, cy, cx))
  {
    for i := 0 to 3
      invariant forall cx, cy | InGrid(width, cx, cy) ::
        buffer[Idx(width, cx, cy)] == (old(buffer[Idx(width, cx, cy)]) || FindersDarkBelow(width, i, cx, cy))
      invariant forall cx, cy | InGrid(width, cx, cy) ::
        IsMasked(cx, cy, mask) == (old(IsMasked(cx, cy, mask)) ||
          FindersLightBelow(width, i, cx, cy) || FindersLightBelow(width, i, cy, cx))
    {
      InsertFinder(mask, buffer, width, if i == 1 then width - 7 else 0, if i == 2 then width - 7 else 0);
    }
  }

  // ---------------------------------------------------------------------------
  // Alignment patterns

  /** Dark cells of the 5x5 alignment pattern centred on (x, y): its outer ring
      and its centre. */
  predicate AlignDark(x: int, y: int, cx: int, cy: int) {
    var dx, dy := cx - x, cy - y;
    -2 <= dx <= 2 && -2 <= dy <= 2 && (dx == -2 || dx == 2 || dy == -2 || dy == 2 || (dx == 0 && dy == 0))
  }

  /** Light cells of the alignment pattern: the eight neighbours of the centre. */
  predicate AlignLight(x: int, y: int, cx: int, cy: int) {
    var dx, dy := cx - x, cy - y;
    -1 <= dx <= 1 && -1 <= dy <= 1 && !(dx == 0 && dy == 0)
  }

  predicate AlignRingBelow(x: int, y: int, i: int, cx: int, cy: int) {
    (cy == y - 2 && x - 2 <= cx < x + i) ||
    (cx == x - 2 && y - 1 <= cy < y + i + 1) ||
    (cx == x + 2 && y - 2 <= cy < y + i) ||
    (cy == y + 2 && x - 1 <= cx < x + i + 1)
  }

  predicate AlignLightBelow(x: int, y: int, i: int, cx: int, cy: int) {
    (cx == x - 1 && y <= cy < y + i) ||
    (cx == x + 1 && y - i < cy <= y) ||
    (cy == y - 1 && x - i < cx <= x) ||
    (cy == y + 1 && x <= cx < x + i)
  }

  /** addAlignment: one alignment pattern centred on column x, row y.  Its dark
      cells are drawn and its light ring is reserved. */
  method AddAlignment(x: int, y: int, buffer: array<bool>, mask: array<bool>, width: int)
    requires buffer.Length == width * width && mask.Length == MaskSize(width) && mask != buffer
    requires 2 <= x <= width - 3 && 2 <= y <= width - 3
    modifies mask, buffer
    ensures forall cx, cy | InGrid(width, cx, cy) ::
      buffer[Idx(width, cx, cy)] == (old(buffer[Idx(width, cx, cy)]) || AlignDark(x, y, cx, cy))
    ensures forall cx, cy | InGrid(width, cx, cy) ::
      IsMasked(cx, cy, mask) == (old(IsMasked(cx, cy, mask)) || AlignLight(x, y, cx, cy) || AlignLight(x, y, cy, cx))
  {
    Darken(buffer, width, x, y);
    DrawAlignRing(buffer, width, x, y);
    ReserveAlignLight(mask, width, x, y);
    forall cx, cy | InGrid(width, cx, cy)
      ensures buffer[Idx(width, cx, cy)] == (old(buffer[Idx(width, cx, cy)]) || AlignDark(x, y, cx, cy))
      ensures IsMasked(cx, cy, mask) == (old(IsMasked(cx, cy, mask)) || AlignLight(x, y, cx, cy) || AlignLight(x, y, cy, cx))
    {
      AlignParts(x, y, cx, cy);
      AlignParts(x, y, cy, cx);
    }
  }

  /** The two loops of addAlignment together draw exactly the pattern. */
  lemma AlignParts(x: int, y: int, cx: int, cy: int)
    ensures AlignDark(x, y, cx, cy) <==> (cx == x && cy == y) || AlignRingBelow(x, y, 2, cx, cy)
    ensures AlignLight(x, y, cx, cy) <==> AlignLightBelow(x, y, 2, cx, cy)
  {
  }

  /** The ring loop of addAlignment. */
  method DrawAlignRing(buffer: array<bool>, width: int, x: int, y: int)
    requires buffer.Length == width * width
    requires 2 <= x <= width - 3 && 2 <= y <= width - 3
    modifies buffer
    ensures forall cx, cy | InGrid(width, cx, cy) ::
      buffer[Idx(width, cx, cy)] == (old(buffer[Idx(width, cx, cy)]) || AlignRingBelow(x, y, 2, cx, cy))
  {
    for i := -2 to 2
      invariant forall cx, cy | InGrid(width, cx, cy) ::
        buffer[Idx(width, cx, cy)] == (old(buffer[Idx(width, cx, cy)]) || AlignRingBelow(x, y, i, cx, cy))
    {
      Darken(buffer, width, x + i, y - 2);
      Darken(buffer, width, x - 2, y + i + 1);
      Darken(buffer, width, x + 2, y + i);
      Darken(buffer, width, x + i + 1, y + 2);
    }
  }

  /** The reserving loop of addAlignment. */
  method ReserveAlignLight(mask: array<bool>, width: int, x: int, y: int)
    requires mask.Length == MaskSize(width)
    requires 2 <= x <= width - 3 && 2 <= y <= width - 3
    modifies mask
    ensures forall cx, cy | InGrid(width, cx, cy) ::
      IsMasked(cx, cy, mask) == (old(IsMasked(cx, cy, mask)) ||
        AlignLightBelow(x, y, 2, cx, cy) || AlignLightBelow(x, y, 2, cy, cx))
  {
    for i := 0 to 2
      invariant forall cx, cy | InGrid(width, cx, cy) ::
        IsMasked(cx, cy, mask) == (old(IsMasked(cx, cy, mask)) ||
          AlignLightBelow(x, y, i, cx, cy) || AlignLightBelow(x, y, i, cy, cx))
    {
      SetMask(x - 1, y + i, mask, width);
      SetMask(x + 1, y - i, mask, width);
      SetMask(x - i, y - 1, mask, width);
      SetMask(x + i, y + 1, mask, width);
    }
  }

  /** Rows holding alignment centres: the rows `step` apart counting up from
      width - 7, above row 9. */
  predicate AlignRow(width: int, step: int, cy: int)
    requires step > 0
  {
    9 < cy <= width - 7 && (width - 7 - cy) % step == 0
  }

  /** Columns holding alignment centres in those rows: `step` apart counting left
      from width - 7, right of column step - 3. */
  predicate AlignColumn(width: int, step: int, cx: int)
    requires step > 0
  {
    step - 3 < cx <= width - 7 && (width - 7 - cx) % step == 0
  }

  /** The alignment centres insertAlignments draws: every (column, row) pair of the
      grid above, plus, for every row but the lowest, a centre in column 6 on that
      row and its transpose in row 6.  The three centres that would overlap a
      finder are never produced. */
  predicate AlignCentre(width: int, step: int, x: int, y: int)
    requires step > 0
  {
    (AlignColumn(width, step, x) && AlignRow(width, step, y)) ||
    (x == 6 && AlignRow(width, step, y) && y < width - 7) ||
    (y == 6 && AlignRow(width, step, x) && x < width - 7)
  }

  /** The centres drawn before the walk reaches column x of row y. */
  predicate AlignDone(width: int, step: int, y: int, x: int, cx: int, cy: int)
    requires step > 0
  {
    (AlignColumn(width, step, cx) && AlignRow(width, step, cy) && (cy > y || (cy == y && cx > x))) ||
    (cx == 6 && AlignRow(width, step, cy) && y <= cy < width - 7) ||
    (cy == 6 && AlignRow(width, step, cx) && y <= cx < width - 7)
  }

  /** A cell is dark in some pattern centred on a member of `centres`. */
  ghost predicate AlignCovered(centres: set<(int, int)>, cx: int, cy: int) {
    exists c | c in centres :: AlignDark(c.0, c.1, cx, cy)
  }

  ghost predicate AlignReserved(centres: set<(int, int)>, cx: int, cy: int) {
    exists c | c in centres :: AlignLight(c.0, c.1, cx, cy)
  }

  /** The alignment step of a version is at least 11 from version 2 on. */
  lemma AlignmentStepLarge(version: Version)
    requires version > 1
    ensures ALIGNMENT_BLOCK[version] >= 11
  {
  }

  /** Two members of the same residue class mod `step` lie `step` apart or coincide. */
  lemma {:induction false} SameClass(base: int, step: int, a: int, b: int)
    requires step > 0 && (base - a) % step == 0 && (base - b) % step == 0 && b - step < a <= b
    ensures a == b
  {
    var qa, qb := (base - a) / step, (base - b) / step;
    assert base - a == step * qa && base - b == step * qb;
    assert step * (qa - qb) == b - a;
    var d := qa - qb;
    if d >= 1 {
      MulOrder(step, 1, d);
      assert false;
    } else if d < 0 {
      MulOrder(step, d, -1);
      assert false;
    }
  }

  /** Stepping down by `step` stays in the residue class. */
  lemma {:induction false} ClassStep(base: int, step: int, a: int)
    requires step > 0 && (base - a) % step == 0
    ensures (base - (a - step)) % step == 0
  {
    var q := (base - a) / step;
    assert base - a == step * q;
    DivModUnique(base - (a - step), step, q + 1, 0);
  }

  /** Adding one centre to the drawn set. */
  lemma AlignCoveredAdd(centres: set<(int, int)>, c: (int, int), cx: int, cy: int)
    ensures AlignCovered(centres + {c}, cx, cy) == (AlignCovered(centres, cx, cy) || AlignDark(c.0, c.1, cx, cy))
    ensures AlignReserved(centres + {c}, cx, cy) == (AlignReserved(centres, cx, cy) || AlignLight(c.0, c.1, cx, cy))
  {
    if AlignDark(c.0, c.1, cx, cy) {
      assert c in centres + {c};
    }
    if AlignLight(c.0, c.1, cx, cy) {
      assert c in centres + {c};
    }
  }

  /** The cells drawn over the snapshot (b0, m0) are those of the alignment
      patterns centred on `centres`. */
  ghost predicate AlignmentsDrawn(buffer: array<bool>, mask: array<bool>, width: int,
                                  b0: seq<bool>, m0: seq<bool>, centres: set<(int, int)>)
    requires buffer.Length == width * width && |b0| == width * width
    reads buffer, mask
  {
    (forall cx, cy | InGrid(width, cx, cy) ::
      buffer[Idx(width, cx, cy)] == (b0[Idx(width, cx, cy)] || AlignCovered(centres, cx, cy))) &&
    (forall cx, cy | InGrid(width, cx, cy) ::
      IsMasked(cx, cy, mask) == (MaskedIn(cx, cy, m0) || AlignReserved(centres, cx, cy) || AlignReserved(centres, cy, cx)))
  }

  /** addAlignment, seen as adding one centre to the set drawn so far. */
  method AddAlignmentStep(x: int, y: int, buffer: array<bool>, mask: array<bool>, width: int,
                          ghost b0: seq<bool>, ghost m0: seq<bool>, ghost centres: set<(int, int)>)
    requires buffer.Length == width * width && mask.Length == MaskSize(width) && mask != buffer && |b0| == width * width
    requires 2 <= x <= width - 3 && 2 <= y <= width - 3
    requires AlignmentsDrawn(buffer, mask, width, b0, m0, centres)
    modifies mask, buffer
    ensures AlignmentsDrawn(buffer, mask, width, b0, m0, centres + {(x, y)})
  {
    AddAlignment(x, y, buffer, mask, width);
    forall cx, cy | InGrid(width, cx, cy)
      ensures buffer[Idx(width, cx, cy)] == (b0[Idx(width, cx, cy)] || AlignCovered(centres + {(x, y)}, cx, cy))
      ensures IsMasked(cx, cy, mask) ==
        (MaskedIn(cx, cy, m0) || AlignReserved(centres + {(x, y)}, cx, cy) || AlignReserved(centres + {(x, y)}, cy, cx))
    {
      AlignCoveredAdd(centres, (x, y), cx, cy);
      AlignCoveredAdd(centres, (x, y), cy, cx);
    }
  }

  /** The inner walk of insertAlignments along row y: draws the centres of the row
      from column width - 7 leftwards. */
  method DrawAlignmentRow(y: int, i: int, width: int, buffer: array<bool>, mask: array<bool>,
                          ghost b0: seq<bool>, ghost m0: seq<bool>, ghost centres: set<(int, int)>)
    returns (ghost drawn: set<(int, int)>)
    requires buffer.Length == width * width && mask.Length == MaskSize(width) && mask != buffer && |b0| == width * width
    requires i >= 11 && 2 <= y <= width - 3
    requires AlignRow(width, i, y)
    requires forall c :: c in centres <==> AlignDone(width, i, y, width, c.0, c.1)
    requires AlignmentsDrawn(buffer, mask, width, b0, m0, centres)
    modifies mask, buffer
    ensures forall c :: c in drawn <==> AlignDone(width, i, y, i - 3, c.0, c.1)
    ensures AlignmentsDrawn(buffer, mask, width, b0, m0, drawn)
  {
    drawn := centres;
    var x := width - 7;
    while x > i - 3
      invariant x <= width - 7 && (width - 7 - x) % i == 0
      invariant forall c :: c in drawn <==> AlignDone(width, i, y, x, c.0, c.1)
      invariant AlignmentsDrawn(buffer, mask, width, b0, m0, drawn)
      decreases x
    {
      AddAlignmentStep(x, y, buffer, mask, width, b0, m0, drawn);
      drawn := drawn + {(x, y)};
      forall cx | AlignColumn(width, i, cx) && cx > x - i
        ensures cx >= x
      {
        if cx < x {
          SameClass(width - 7, i, cx, x);
        }
      }
      ClassStep(width - 7, i, x);
      if x < i {
        x := x - i;
        break;
      }
      x := x - i;
    }
  }

  /** insertAlignments: from version 2 on, walks the alignment grid from the
      bottom-right centre (width - 7, width - 7) leftwards and upwards in steps of
      ALIGNMENT_BLOCK[version], adding the column-6 and row-6 centres of every row
      above the lowest.  Afterwards the drawn cells are exactly the patterns
      centred on AlignCentre; version 1 has none. */
  method InsertAlignments(version: Version, width: int, buffer: array<bool>, mask: array<bool>)
    requires width == Width(version)
    requires buffer.Length == width * width && mask.Length == MaskSize(width) && mask != buffer
    modifies mask, buffer
    ensures version == 1 ==> buffer[..] == old(buffer[..]) && mask[..] == old(mask[..])
    ensures version > 1 ==> exists centres: set<(int, int)> ::
      (forall c :: c in centres <==> AlignCentre(width, ALIGNMENT_BLOCK[version], c.0, c.1)) &&
      AlignmentsDrawn(buffer, mask, width, old(buffer[..]), old(mask[..]), centres)
  {
    if version > 1 {
      ghost var b0, m0 := buffer[..], mask[..];
      var i := ALIGNMENT_BLOCK[version];
      AlignmentStepLarge(version);
      ghost var centres: set<(int, int)> := {};
      var y := width - 7;
      assert AlignRow(width, i, y);
      while true
        invariant AlignRow(width, i, y)
        invariant forall c :: c in centres <==> AlignDone(width, i, y, width, c.0, c.1)
        invariant AlignmentsDrawn(buffer, mask, width, b0, m0, centres)
        decreases y
      {
        centres := DrawAlignmentRow(y, i, width, buffer, mask, b0, m0, centres);
        if y <= i + 9 {
          forall c ensures c in centres <==> AlignCentre(width, i, c.0, c.1) {
            LastRow(width, i, y, c.0, c.1);
          }
          break;
        }
        var up := y - i;
        centres := DrawEdgeCentres(y, i, up, width, buffer, mask, b0, m0, centres);
        y := up;
      }
    }
  }

  /** The step of insertAlignments to the next row up: the centre in column 6
      on that row and its transpose in row 6. */
  method DrawEdgeCentres(y: int, i: int, up: int, width: int, buffer: array<bool>, mask: array<bool>,
                         ghost b0: seq<bool>, ghost m0: seq<bool>, ghost centres: set<(int, int)>)
    returns (ghost drawn: set<(int, int)>)
    requires buffer.Length == width * width && mask.Length == MaskSize(width) && mask != buffer && |b0| == width * width
    requires i >= 11 && AlignRow(width, i, y) && y > i + 9 && up == y - i
    requires forall c :: c in centres <==> AlignDone(width, i, y, i - 3, c.0, c.1)
    requires AlignmentsDrawn(buffer, mask, width, b0, m0, centres)
    modifies mask, buffer
    ensures AlignRow(width, i, up)
    ensures forall c :: c in drawn <==> AlignDone(width, i, up, width, c.0, c.1)
    ensures AlignmentsDrawn(buffer, mask, width, b0, m0, drawn)
  {
    ClassStep(width - 7, i, y);
    AddAlignmentStep(6, up, buffer, mask, width, b0, m0, centres);
    drawn := centres + {(6, up)};
    AddAlignmentStep(up, 6, buffer, mask, width, b0, m0, drawn);
    drawn := drawn + {(up, 6)};
    forall c ensures c in drawn <==> AlignDone(width, i, up, width, c.0, c.1) {
      NextRow(width, i, y, up, c.0, c.1);
    }
  }

  /** Moving the walk up one row adds the column-6 and row-6 centres of the new row. */
  lemma NextRow(width: int, i: int, y: int, up: int, cx: int, cy: int)
    requires i >= 11 && AlignRow(width, i, y) && y > i + 9 && up == y - i
    ensures AlignDone(width, i, up, width, cx, cy) <==>
      AlignDone(width, i, y, i - 3, cx, cy) || (cx == 6 && cy == up) || (cx == up && cy == 6)
  {
    ClassStep(width - 7, i, y);
    if AlignRow(width, i, cy) && up < cy < y {
      SameClass(width - 7, i, cy, y);
    }
    if AlignRow(width, i, cx) && up < cx < y {
      SameClass(width - 7, i, cx, y);
    }
  }

  /** Once the walk is at its last row, every centre has been drawn. */
  lemma LastRow(width: int, i: int, y: int, cx: int, cy: int)
    requires i >= 11 && AlignRow(width, i, y) && y <= i + 9
    ensures AlignDone(width, i, y, i - 3, cx, cy) <==> AlignCentre(width, i, cx, cy)
  {
    if AlignRow(width, i, cy) && cy < y {
      SameClass(width - 7, i, cy, y);
    }
    if AlignRow(width, i, cx) && cx < y {
      SameClass(width - 7, i, cx, y);
    }
  }

  // ---------------------------------------------------------------------------
  // Separators, format area and timing patterns

  /** Separator cells reserved by the first `n` rounds of the column loop of
      insertTimingGap. */
  predicate GapColumnsBelow(width: int, n: int, cx: int, cy: int) {
    (cx == 7 && 0 <= cy < n) || (cx == width - 8 && 0 <= cy < n) || (cx == 7 && width - 7 <= cy < width - 7 + n)
  }

  /** Separator cells reserved by the first `n` rounds of the row loop. */
  predicate GapRowsBelow(width: int, n: int, cx: int, cy: int) {
    (cy == 7 && 0 <= cx < n) || (cy == 7 && width - 8 <= cx < width - 8 + n) || (cy == width - 8 && 0 <= cx < n)
  }

  /** The separators: the light border between each finder and the rest of the
      symbol, on the finder's inner sides. */
  predicate Separator(width: int, cx: int, cy: int) {
    GapColumnsBelow(width, 7, cx, cy) || GapRowsBelow(width, 8, cx, cy)
  }

  /** insertTimingGap: reserves the separators around the three finders. */
  method InsertTimingGap(width: int, mask: array<bool>)
    requires mask.Length == MaskSize(width) && 8 <= width
    modifies mask
    ensures forall cx, cy | InGrid(width, cx, cy) ::
      IsMasked(cx, cy, mask) == (old(IsMasked(cx, cy, mask)) || Separator(width, cx, cy) || Separator(width, cy, cx))
  {
    for y := 0 to 7
      invariant forall cx, cy | InGrid(width, cx, cy) ::
        IsMasked(cx, cy, mask) == (old(IsMasked(cx, cy, mask)) ||
          GapColumnsBelow(width, y, cx, cy) || GapColumnsBelow(width, y, cy, cx))
    {
      SetMask(7, y, mask, width);
      SetMask(width - 8, y, mask, width);
      SetMask(7, y + width - 7, mask, width);
    }
    for x := 0 to 8
      invariant forall cx, cy | InGrid(width, cx, cy) ::
        IsMasked(cx, cy, mask) == (old(IsMasked(cx, cy, mask)) ||
          GapColumnsBelow(width, 7, cx, cy) || GapColumnsBelow(width, 7, cy, cx) ||
          GapRowsBelow(width, x, cx, cy) || GapRowsBelow(width, x, cy, cx))
    {
      SetMask(x, 7, mask, width);
      SetMask(x + width - 8, 7, mask, width);
      SetMask(x, width - 8, mask, width);
    }
  }

  /** Format-area cells reserved by the three loops of reverseMask, after `a`,
      `b` and `c` rounds. */
  predicate FormatAreaBelow(width: int, a: int, b: int, c: int, cx: int, cy: int) {
    (cy == 8 && 0 <= cx < a) ||
    (cy == 8 && width - 8 <= cx < width - 8 + b) || (cx == 8 && 0 <= cy < b) ||
    (cx == 8 && width - 7 <= cy < width - 7 + c)
  }

  /** The format-information area: row 8 left of column 9 and in the last 8
      columns, column 8 above row 8 and in the last 7 rows. */
  predicate FormatArea(width: int, cx: int, cy: int) {
    FormatAreaBelow(width, 9, 8, 7, cx, cy)
  }

  /** reverseMask: reserves the format-information area. */
  method ReverseMask(mask: array<bool>, width: int)
    requires mask.Length == MaskSize(width) && 9 <= width
    modifies mask
    ensures forall cx, cy | InGrid(width, cx, cy) ::
      IsMasked(cx, cy, mask) == (old(IsMasked(cx, cy, mask)) || FormatArea(width, cx, cy) || FormatArea(width, cy, cx))
  {
    for x := 0 to 9
      invariant forall cx, cy | InGrid(width, cx, cy) ::
        IsMasked(cx, cy, mask) == (old(IsMasked(cx, cy, mask)) ||
          FormatAreaBelow(width, x, 0, 0, cx, cy) || FormatAreaBelow(width, x, 0, 0, cy, cx))
    {
      SetMask(x, 8, mask, width);
    }
    for x := 0 to 8
      invariant forall cx, cy | InGrid(width, cx, cy) ::
        IsMasked(cx, cy, mask) == (old(IsMasked(cx, cy, mask)) ||
          FormatAreaBelow(width, 9, x, 0, cx, cy) || FormatAreaBelow(width, 9, x, 0, cy, cx))
    {
      SetMask(x + width - 8, 8, mask, width);
      SetMask(8, x, mask, width);
    }
    for y := 0 to 7
      invariant forall cx, cy | InGrid(width, cx, cy) ::
        IsMasked(cx, cy, mask) == (old(IsMasked(cx, cy, mask)) ||
          FormatAreaBelow(width, 9, 8, y, cx, cy) || FormatAreaBelow(width, 9, 8, y, cy, cx))
    {
      SetMask(8, y + width - 7, mask, width);
    }
  }

  /** Timing cells on row 6 and column 6 among the first `n` after column (row)
      8, dark on even offsets and light on odd ones. */
  predicate TimingBelow(n: int, dark: bool, cx: int, cy: int) {
    (cy == 6 && 8 <= cx < 8 + n && ((cx - 8) % 2 == 0) == dark) ||
    (cx == 6 && 8 <= cy < 8 + n && ((cy - 8) % 2 == 0) == dark)
  }

  /** The timing patterns between the finders: row 6 and column 6 from 8 to
      width - 9, alternating dark and light starting dark. */
  predicate Timing(width: int, dark: bool, cx: int, cy: int) {
    TimingBelow(width - 14, dark, cx, cy)
  }

  /** insertTimingRowAndColumn: draws the dark timing cells and reserves the
      light ones. */
  method InsertTimingRowAndColumn(buffer: array<bool>, mask: array<bool>, width: int)
    requires buffer.Length == width * width && mask.Length == MaskSize(width) && mask != buffer && 14 <= width
    modifies buffer, mask
    ensures forall cx, cy | InGrid(width, cx, cy) ::
      buffer[Idx(width, cx, cy)] == (old(buffer[Idx(width, cx, cy)]) || Timing(width, true, cx, cy))
    ensures forall cx, cy | InGrid(width, cx, cy) ::
      IsMasked(cx, cy, mask) == (old(IsMasked(cx, cy, mask)) || Timing(width, false, cx, cy))
  {
    ghost var b0, m0 := buffer[..], mask[..];
    for x := 0 to width - 14
      invariant TimingDrawn(buffer, mask, width, b0, m0, x)
    {
      if x % 2 == 1 {
        ReserveTimingPair(buffer, mask, width, x, b0, m0);
      } else {
        DarkenTimingPair(buffer, mask, width, x, b0, m0);
      }
    }
  }

  /** The first n timing cells of row 6 and column 6 are drawn over the
      snapshot (b0, m0). */
  ghost predicate TimingDrawn(buffer: array<bool>, mask: array<bool>, width: int, b0: seq<bool>, m0: seq<bool>, n: int)
    requires buffer.Length == width * width && |b0| == width * width
    reads buffer, mask
  {
    (forall cx, cy | InGrid(width, cx, cy) ::
      buffer[Idx(width, cx, cy)] == (b0[Idx(width, cx, cy)] || TimingBelow(n, true, cx, cy))) &&
    (forall cx, cy | InGrid(width, cx, cy) ::
      IsMasked(cx, cy, mask) == (MaskedIn(cx, cy, m0) || TimingBelow(n, false, cx, cy)))
  }

  /** Timing cell x on row 6 and on column 6 join the cells before them. */
  lemma TimingNext(x: int, dark: bool, cx: int, cy: int)
    requires 0 <= x
    ensures TimingBelow(x + 1, dark, cx, cy) ==
      (TimingBelow(x, dark, cx, cy) || ((x % 2 == 0) == dark && ((cx == 8 + x && cy == 6) || (cx == 6 && cy == 8 + x))))
  {
  }

  /** The odd rounds of insertTimingRowAndColumn: reserve the light pair. */
  method ReserveTimingPair(buffer: array<bool>, mask: array<bool>, width: int, x: int, ghost b0: seq<bool>, ghost m0: seq<bool>)
    requires buffer.Length == width * width && mask.Length == MaskSize(width) && mask != buffer && |b0| == width * width
    requires 0 <= x < width - 14 && x % 2 == 1
    requires TimingDrawn(buffer, mask, width, b0, m0, x)
    modifies mask
    ensures TimingDrawn(buffer, mask, width, b0, m0, x + 1)
  {
    SetMask(8 + x, 6, mask, width);
    SetMask(6, 8 + x, mask, width);
    forall cx, cy | InGrid(width, cx, cy)
      ensures buffer[Idx(width, cx, cy)] == (b0[Idx(width, cx, cy)] || TimingBelow(x + 1, true, cx, cy))
      ensures IsMasked(cx, cy, mask) == (MaskedIn(cx, cy, m0) || TimingBelow(x + 1, false, cx, cy))
    {
      TimingNext(x, true, cx, cy);
      TimingNext(x, false, cx, cy);
    }
  }

  /** The even rounds of insertTimingRowAndColumn: darken the pair. */
  method DarkenTimingPair(buffer: array<bool>, mask: array<bool>, width: int, x: int, ghost b0: seq<bool>, ghost m0: seq<bool>)
    requires buffer.Length == width * width && mask.Length == MaskSize(width) && mask != buffer && |b0| == width * width
    requires 0 <= x < width - 14 && x % 2 == 0
    requires TimingDrawn(buffer, mask, width, b0, m0, x)
    modifies buffer
    ensures TimingDrawn(buffer, mask, width, b0, m0, x + 1)
  {
    Darken(buffer, width, 8 + x, 6);
    Darken(buffer, width, 6, 8 + x);
    forall cx, cy | InGrid(width, cx, cy)
      ensures buffer[Idx(width, cx, cy)] == (b0[Idx(width, cx, cy)] || TimingBelow(x + 1, true, cx, cy))
      ensures IsMasked(cx, cy, mask) == (MaskedIn(cx, cy, m0) || TimingBelow(x + 1, false, cx, cy))
    {
      TimingNext(x, true, cx, cy);
      TimingNext(x, false, cx, cy);
    }
  }

  // ---------------------------------------------------------------------------
  // Version information

  /** Bit j of the 18-bit version information: the top six bits are the version
      number, the low twelve come from the version table word. */
  predicate VersionBit(version: int, word: int, j: int)
    requires 0 <= j < 18 && 0 <= version && 0 <= word
  {
    if j > 11 then (version / Pow2(j - 12)) % 2 == 1 else (word / Pow2(j)) % 2 == 1
  }

  /** The version block next to the bottom-left finder: 6 columns by 3 rows. */
  predicate VersionBlock(width: int, cx: int, cy: int) {
    0 <= cx < 6 && width - 11 <= cy < width - 8
  }

  /** The bit a cell of that block carries: three bits per column, the lowest
      at the top of column 0. */
  function VersionBitIndex(width: int, cx: int, cy: int): (j: int)
    requires VersionBlock(width, cx, cy)
    ensures 0 <= j < 18
  {
    3 * cx + (cy - (width - 11))
  }

  /** A cell of the version block, or of its transpose next to the top-right
      finder, whose bit is `dark`, among the bits above `above`. */
  predicate VersionAbove(width: int, version: int, word: int, above: int, dark: bool, cx: int, cy: int)
    requires 0 <= version && 0 <= word
  {
    (VersionBlock(width, cx, cy) && VersionBitIndex(width, cx, cy) > above &&
      VersionBit(version, word, VersionBitIndex(width, cx, cy)) == dark) ||
    (VersionBlock(width, cy, cx) && VersionBitIndex(width, cy, cx) > above &&
      VersionBit(version, word, VersionBitIndex(width, cy, cx)) == dark)
  }

  /** The version cells with bit index above `above` are drawn over the
      snapshot (b0, m0). */
  ghost predicate VersionDrawn(buffer: array<bool>, mask: array<bool>, width: int, version: int, word: int,
                               b0: seq<bool>, m0: seq<bool>, above: int)
    requires buffer.Length == width * width && |b0| == width * width && 0 <= version && 0 <= word
    reads buffer, mask
  {
    (forall cx, cy | InGrid(width, cx, cy) ::
      buffer[Idx(width, cx, cy)] == (b0[Idx(width, cx, cy)] || VersionAbove(width, version, word, above, true, cx, cy))) &&
    (forall cx, cy | InGrid(width, cx, cy) ::
      IsMasked(cx, cy, mask) == (MaskedIn(cx, cy, m0) || VersionAbove(width, version, word, above, false, cx, cy)))
  }

  /** Only one cell of the version block carries bit j. */
  lemma VersionCellOfBit(width: int, cx: int, cy: int, j: int)
    requires VersionBlock(width, cx, cy) && VersionBitIndex(width, cx, cy) == j
    ensures cx == j / 3 && cy == width - 11 + j % 3
  {
    DivModUnique(j, 3, cx, cy - (width - 11));
  }

  /** One round of the inner loop of insertVersion: the cell (5 - x, width - 9 - y),
      which carries bit j, and its transpose. */
  method DrawVersionBit(buffer: array<bool>, width: int, version: Version, mask: array<bool>, word: int,
                        x: int, y: int, j: int, ghost b0: seq<bool>, ghost m0: seq<bool>)
    requires buffer.Length == width * width && mask.Length == MaskSize(width) && mask != buffer && |b0| == width * width
    requires width == Width(version) && version > 6 && 0 <= word
    requires 0 <= x < 6 && 0 <= y < 3 && j == 17 - 3 * x - y
    requires VersionDrawn(buffer, mask, width, version, word, b0, m0, j)
    modifies buffer, mask
    ensures VersionDrawn(buffer, mask, width, version, word, b0, m0, j - 1)
  {
    var c, r := 5 - x, 2 - y + width - 11;
    assert VersionBlock(width, c, r) && VersionBitIndex(width, c, r) == j;
    var dark := if j > 11 then (version / Pow2(j - 12)) % 2 == 1 else (word / Pow2(j)) % 2 == 1;
    if dark {
      Darken(buffer, width, c, r);
      Darken(buffer, width, r, c);
    } else {
      SetMask(c, r, mask, width);
      SetMask(r, c, mask, width);
    }
    forall cx, cy | InGrid(width, cx, cy)
      ensures buffer[Idx(width, cx, cy)] == (b0[Idx(width, cx, cy)] || VersionAbove(width, version, word, j - 1, true, cx, cy))
      ensures IsMasked(cx, cy, mask) == (MaskedIn(cx, cy, m0) || VersionAbove(width, version, word, j - 1, false, cx, cy))
    {
      if VersionBlock(width, cx, cy) && VersionBitIndex(width, cx, cy) == j {
        VersionCellOfBit(width, cx, cy, j);
      }
      if VersionBlock(width, cy, cx) && VersionBitIndex(width, cy, cx) == j {
        VersionCellOfBit(width, cy, cx, j);
      }
    }
  }

  /** insertVersion: from version 7 on, draws the version information twice, set
      bits dark and clear bits reserved; below version 7 it does nothing. */
  method InsertVersion(buffer: array<bool>, width: int, version: Version, mask: array<bool>, t: Tables)
    requires WellFormed(t) && width == Width(version)
    requires buffer.Length == width * width && mask.Length == MaskSize(width) && mask != buffer
    modifies buffer, mask
    ensures version <= 6 ==> buffer[..] == old(buffer[..]) && mask[..] == old(mask[..])
    ensures version > 6 ==> forall cx, cy | InGrid(width, cx, cy) ::
      buffer[Idx(width, cx, cy)] == (old(buffer[Idx(width, cx, cy)]) ||
        VersionAbove(width, version, t.versionBlock[version - 7], -1, true, cx, cy))
    ensures version > 6 ==> forall cx, cy | InGrid(width, cx, cy) ::
      IsMasked(cx, cy, mask) == (old(IsMasked(cx, cy, mask)) ||
        VersionAbove(width, version, t.versionBlock[version - 7], -1, false, cx, cy))
  {
    if version <= 6 {
      return;
    }
    ghost var b0, m0 := buffer[..], mask[..];
    var i := t.versionBlock[version - 7];
    var j := 17;
    for x := 0 to 6
      invariant j == 17 - 3 * x
      invariant VersionDrawn(buffer, mask, width, version, i, b0, m0, j)
    {
      for y := 0 to 3
        invariant j == 17 - 3 * x - y
        invariant VersionDrawn(buffer, mask, width, version, i, b0, m0, j)
      {
        DrawVersionBit(buffer, width, version, mask, i, x, y, j, b0, m0);
        j := j - 1;
      }
    }
  }
}
