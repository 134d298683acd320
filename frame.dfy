/** generateFrame: the whole engine, from the input code units to the finished
    module matrix.  The version and block row are chosen for the input length,
    the function patterns are drawn and reserved, the data codewords are
    encoded, extended by their Reed-Solomon ECC and interleaved, packed into the
    free modules, and the frame is masked and given its format information. */
module Frame {
  import opened Tables
  import opened Reserved
  import Versions
  import Layout
  import Bitstream
  import ReedSolomon
  import Interleave
  import Placement
  import Finish

  /** The block row generateVersionsAndBlocks returns, with the sizes every row
      of a well-formed table has: at least one short block, at least one data
      and one ECC codeword per block, and at least three data codewords. */
  function Row(t: Tables, length: int, level: Level): (p: Versions.BlockParams)
    requires WellFormed(t)
    ensures 1 <= p.version <= 40 && Versions.Lookup(t, level, p.version) == Some(p)
    ensures 1 <= p.neccBlock1 && 0 <= p.neccBlock2 && 1 <= p.dataBlock && 1 <= p.eccBlock
    ensures Versions.CalculateMaxLength(p.dataBlock, p.neccBlock1, p.neccBlock2) >= 3
  {
    var p := Versions.GenerateVersionsAndBlocks(t, length, level);
    var v: Version := p.version;
    assert BlockEntryWellFormed(t, level, v);
    p
  }

  /** The cells every frame has dark before any data is packed: the three
      finder patterns, the dark timing cells and the single dark module at
      (8, width - 8). */
  ghost predicate FixedDark(width: int, x: int, y: int) {
    Layout.FindersDark(width, x, y) || Layout.Timing(width, true, x, y) || (x == 8 && y == width - 8)
  }

  /** The cells every frame reserves although they stay light: the light
      parts of the finders, the separators, the format area and the light
      timing cells. */
  ghost predicate FixedLight(width: int, x: int, y: int) {
    Layout.FindersLight(width, x, y) || Layout.Separator(width, x, y) ||
    Layout.FormatArea(width, x, y) || Layout.Timing(width, false, x, y)
  }

  /** The function-pattern stage of generateFrame, up to syncMask: afterwards
      the fixed patterns are drawn and reserved, and every dark cell is
      reserved, so that packing never writes over a function pattern. */
  method DrawFunctionPatterns(version: Version, width: int, t: Tables) returns (buffer: array<bool>, mask: array<bool>)
    requires WellFormed(t) && width == Width(version)
    ensures fresh(buffer) && fresh(mask) && buffer != mask
    ensures buffer.Length == width * width && mask.Length == MaskSize(width)
    ensures forall x, y | InGrid(width, x, y) && FixedDark(width, x, y) :: buffer[Idx(width, x, y)]
    ensures forall x, y | InGrid(width, x, y) && FixedLight(width, x, y) :: IsMasked(x, y, mask)
    ensures forall x, y | InGrid(width, x, y) && buffer[Idx(width, x, y)] :: IsMasked(x, y, mask)
  {
    buffer, mask := DrawFinders(version, width);
    DrawTiming(width, buffer, mask);
    Layout.InsertVersion(buffer, width, version, mask, t);
    SyncMask(width, mask, buffer);
  }

  /** The first part of the function-pattern stage: fresh light arrays, the
      finders, the alignment patterns and the dark module. */
  method DrawFinders(version: Version, width: int) returns (buffer: array<bool>, mask: array<bool>)
    requires width == Width(version)
    ensures fresh(buffer) && fresh(mask) && buffer != mask
    ensures buffer.Length == width * width && mask.Length == MaskSize(width)
    ensures forall x, y | InGrid(width, x, y) && (Layout.FindersDark(width, x, y) || (x == 8 && y == width - 8)) ::
      buffer[Idx(width, x, y)]
    ensures forall x, y | InGrid(width, x, y) && Layout.FindersLight(width, x, y) :: IsMasked(x, y, mask)
  {
    buffer := new bool[width * width](_ => false);
    mask := new bool[MaskSize(width)](_ => false);
    Layout.InsertFinders(mask, buffer, width);
    Layout.InsertAlignments(version, width, buffer, mask);
    Darken(buffer, width, 8, width - 8);
  }

  /** The second part: the separators, the format area and the timing
      patterns, added to what is already drawn and reserved. */
  method DrawTiming(width: int, buffer: array<bool>, mask: array<bool>)
    requires 21 <= width && buffer.Length == width * width && mask.Length == MaskSize(width) && mask != buffer
    modifies buffer, mask
    ensures forall x, y | InGrid(width, x, y) ::
      buffer[Idx(width, x, y)] == (old(buffer[Idx(width, x, y)]) || Layout.Timing(width, true, x, y))
    ensures forall x, y | InGrid(width, x, y) ::
      IsMasked(x, y, mask) == (old(IsMasked(x, y, mask)) ||
        Layout.Separator(width, x, y) || Layout.Separator(width, y, x) ||
        Layout.FormatArea(width, x, y) || Layout.FormatArea(width, y, x) || Layout.Timing(width, false, x, y))
  {
    Layout.InsertTimingGap(width, mask);
    Layout.ReverseMask(mask, width);
    Layout.InsertTimingRowAndColumn(buffer, mask, width);
  }

  // ---------------------------------------------------------------------------
  // Codewords

  /** Length of the `ecc` byte array generateFrame allocates: room for the data
      and ECC codewords of every block, plus one block of slack. */
  function EccSize(p: Versions.BlockParams): int {
    p.dataBlock + (p.dataBlock + p.eccBlock) * (p.neccBlock1 + p.neccBlock2) + p.neccBlock2
  }

  /** The generator polynomial as calculatePolynomial leaves it: the logs of its
      coefficients, constant term first, without the leading one. */
  ghost function GeneratorLogs(t: Tables, n: nat): (g: seq<byte>)
    requires GaloisTables(t)
    ensures |g| == n
    ensures forall j | 0 <= j < n :: g[j] == ReedSolomon.Log(t, ReedSolomon.Generator(t, n)[j])
  {
    seq(n, j requires 0 <= j < n => ReedSolomon.LogByte(t, ReedSolomon.Generator(t, n)[j]))
  }

  /** The shape of the interleaving for a block row. */
  function ShapeOf(p: Versions.BlockParams): Interleave.Shape
    requires 0 <= p.neccBlock1 && 0 <= p.neccBlock2 && 0 <= p.dataBlock && 0 <= p.eccBlock
  {
    Interleave.Shape(p.dataBlock, p.eccBlock, p.neccBlock1, p.neccBlock2)
  }

  /** The array holds all data and ECC codewords, with one short block to spare. */
  lemma EccSizeCovers(p: Versions.BlockParams)
    requires 0 <= p.neccBlock1 && 0 <= p.neccBlock2 && 0 <= p.dataBlock && 0 <= p.eccBlock
    ensures EccSize(p) == ShapeOf(p).Total() + p.dataBlock
  {
    var sh := ShapeOf(p);
    assert (p.dataBlock + p.eccBlock) * sh.Blocks() == p.dataBlock * sh.Blocks() + p.eccBlock * sh.Blocks();
  }

  /** The ecc array is the data capacity, the ECC of every block and
      dataBlock bytes of slack. */
  lemma EccSizeSplit(p: Versions.BlockParams)
    ensures EccSize(p) == p.dataBlock + Versions.CalculateMaxLength(p.dataBlock, p.neccBlock1, p.neccBlock2) +
      p.eccBlock * (p.neccBlock1 + p.neccBlock2)
  {
  }

  /** How the codeword array comes about: `data` begins with the encoded data
      stream of the input, `coded` is `data` with the ECC of every block placed
      after the data codewords, and `codewords` is `coded` interleaved. */
  ghost predicate Encodes(t: Tables, version: Version, value: seq<Bitstream.CodeUnit>, p: Versions.BlockParams,
                          data: seq<byte>, coded: seq<byte>, codewords: seq<byte>)
    requires GaloisTables(t)
    requires 1 <= p.neccBlock1 && 0 <= p.neccBlock2 && 1 <= p.dataBlock && 1 <= p.eccBlock
    requires Versions.CalculateMaxLength(p.dataBlock, p.neccBlock1, p.neccBlock2) >= 3
  {
    var maxLength := Versions.CalculateMaxLength(p.dataBlock, p.neccBlock1, p.neccBlock2);
    var e := Bitstream.Encoded(version, Bitstream.StoredBytes(value), maxLength);
    |data| == EccSize(p) && |coded| == EccSize(p) && |codewords| == EccSize(p) &&
    e <= data &&
    ReedSolomon.EccDone(t, p.dataBlock, p.neccBlock1, p.eccBlock, maxLength, GeneratorLogs(t, p.eccBlock),
                        coded, data, p.neccBlock1 + p.neccBlock2) &&
    Interleave.Written(ShapeOf(p), codewords, coded, ShapeOf(p).Total())
  }

  /** The codewords before interleaving: convertBitStream writes the data
      stream into `ecc`, calculatePolynomial builds the generator and
      appendEccToData places each block's ECC after the data codewords. */
  method CodeBlocks(t: Tables, version: Version, value: seq<Bitstream.CodeUnit>, p: Versions.BlockParams,
                    ecc: array<byte>) returns (ghost data: seq<byte>)
    requires GaloisTables(t) && LogAntilog(t)
    requires 1 <= p.neccBlock1 && 0 <= p.neccBlock2 && 1 <= p.dataBlock && 1 <= p.eccBlock
    requires Versions.CalculateMaxLength(p.dataBlock, p.neccBlock1, p.neccBlock2) >= 3
    requires ecc.Length == EccSize(p)
    modifies ecc
    ensures |data| == EccSize(p)
    ensures Bitstream.Encoded(version, Bitstream.StoredBytes(value), Versions.CalculateMaxLength(p.dataBlock, p.neccBlock1, p.neccBlock2)) <= data
    ensures ReedSolomon.EccDone(t, p.dataBlock, p.neccBlock1, p.eccBlock,
                                Versions.CalculateMaxLength(p.dataBlock, p.neccBlock1, p.neccBlock2),
                                GeneratorLogs(t, p.eccBlock), ecc[..], data, p.neccBlock1 + p.neccBlock2)
  {
    var maxLength := Versions.CalculateMaxLength(p.dataBlock, p.neccBlock1, p.neccBlock2);
    EccSizeSplit(p);
    var stringBuffer := Bitstream.ConvertBitStream(version, value, ecc, p.dataBlock, p.neccBlock1, p.neccBlock2);
    data := ecc[..];
    var polynomial := ReedSolomon.CalculatePolynomial(t, p.eccBlock);
    assert polynomial == GeneratorLogs(t, p.eccBlock);
    ReedSolomon.AppendEccToData(t, p.dataBlock, p.neccBlock1, p.neccBlock2, p.eccBlock, polynomial, stringBuffer);
  }

  /** The codeword stage of generateFrame: the coded blocks, then
      interleaveBlocks reading a copy of the array it writes. */
  method EncodeCodewords(t: Tables, version: Version, value: seq<Bitstream.CodeUnit>, p: Versions.BlockParams)
      returns (ecc: array<byte>, ghost data: seq<byte>, ghost coded: seq<byte>)
    requires GaloisTables(t) && LogAntilog(t)
    requires 1 <= p.neccBlock1 && 0 <= p.neccBlock2 && 1 <= p.dataBlock && 1 <= p.eccBlock
    requires Versions.CalculateMaxLength(p.dataBlock, p.neccBlock1, p.neccBlock2) >= 3
    ensures fresh(ecc) && ecc.Length == EccSize(p)
    ensures Encodes(t, version, value, p, data, coded, ecc[..])
  {
    ecc := new byte[EccSize(p)](_ => 0);
    data := CodeBlocks(t, version, value, p, ecc);
    var copy := ecc[..];
    coded := copy;
    Interleave.MaxLengthAgrees(ShapeOf(p));
    EccSizeCovers(p);
    var interleaved := Interleave.InterleaveBlocks(ecc, p.eccBlock, p.dataBlock, p.neccBlock1, p.neccBlock2, copy);
  }

  // ---------------------------------------------------------------------------
  // The frame

  /** generateFrame: the version is the first that holds the input and the
      frame is `width * width` modules.  The frame is the function-pattern
      layout with the interleaved codewords packed into its free cells, then
      masked and given its format information by finish. */
  method GenerateFrame(value: seq<Bitstream.CodeUnit>, level: Level, variant: Variant, chosenMask: Option<MaskId>,
                       t: Tables)
      returns (width: int, buffer: array<bool>, version: Version,
               ghost layout: seq<bool>, ghost reserved: seq<bool>,
               ghost data: seq<byte>, ghost coded: seq<byte>, ghost codewords: seq<byte>)
    requires WellFormed(t) && LogAntilog(t)
    requires variant == Exported ==> chosenMask == None
    ensures version == Row(t, |value|, level).version && width == Width(version)
    ensures fresh(buffer) && buffer.Length == width * width
    ensures |layout| == width * width && |reserved| == MaskSize(width)
    ensures forall x, y | InGrid(width, x, y) && FixedDark(width, x, y) :: layout[Idx(width, x, y)]
    ensures forall x, y | InGrid(width, x, y) && (FixedLight(width, x, y) || layout[Idx(width, x, y)]) ::
      MaskedIn(x, y, reserved)
    ensures Encodes(t, version, value, Row(t, |value|, level), data, coded, codewords)
    ensures var p := Row(t, |value|, level);
      var n := 8 * Placement.PackLength(p.dataBlock, p.eccBlock, p.neccBlock1, p.neccBlock2);
      buffer[..] == Finish.Finished(Placement.Placed(layout, width, reserved, codewords, n).buffer,
                                    width, variant, reserved, level, chosenMask, t)
  {
    var p := Row(t, |value|, level);
    version := p.version;
    width := Width(version);
    buffer, layout, reserved, data, coded, codewords := Assemble(value, level, variant, chosenMask, t, p, version, width);
  }

  /** The body of generateFrame once the block row is chosen. */
  method Assemble(value: seq<Bitstream.CodeUnit>, level: Level, variant: Variant, chosenMask: Option<MaskId>,
                  t: Tables, p: Versions.BlockParams, version: Version, width: int)
      returns (buffer: array<bool>, ghost layout: seq<bool>, ghost reserved: seq<bool>,
               ghost data: seq<byte>, ghost coded: seq<byte>, ghost codewords: seq<byte>)
    requires WellFormed(t) && LogAntilog(t)
    requires variant == Exported ==> chosenMask == None
    requires version == p.version && width == Width(version)
    requires 1 <= p.neccBlock1 && 0 <= p.neccBlock2 && 1 <= p.dataBlock && 1 <= p.eccBlock
    requires Versions.CalculateMaxLength(p.dataBlock, p.neccBlock1, p.neccBlock2) >= 3
    ensures fresh(buffer) && buffer.Length == width * width
    ensures |layout| == width * width && |reserved| == MaskSize(width)
    ensures forall x, y | InGrid(width, x, y) && FixedDark(width, x, y) :: layout[Idx(width, x, y)]
    ensures forall x, y | InGrid(width, x, y) && (FixedLight(width, x, y) || layout[Idx(width, x, y)]) ::
      MaskedIn(x, y, reserved)
    ensures Encodes(t, version, value, p, data, coded, codewords)
    ensures var n := 8 * Placement.PackLength(p.dataBlock, p.eccBlock, p.neccBlock1, p.neccBlock2);
      buffer[..] == Finish.Finished(Placement.Placed(layout, width, reserved, codewords, n).buffer,
                                    width, variant, reserved, level, chosenMask, t)
  {
    var mask;
    buffer, mask := DrawFunctionPatterns(version, width, t);
    layout, reserved := buffer[..], mask[..];
    var ecc;
    ecc, data, coded := EncodeCodewords(t, version, value, p);
    codewords := ecc[..];
    Placement.Pack(width, p.dataBlock, p.eccBlock, p.neccBlock1, p.neccBlock2, mask, buffer, ecc[..]);
    buffer := Finish.Finish(level, variant, chosenMask, buffer, width, mask, t);
  }
}
