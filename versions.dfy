/** Version and block selection: the smallest version whose data capacity holds
    the input, read from the block table. */
module Versions {
  import opened Tables

  /** One row of the block table, with the version it belongs to. */
  datatype BlockParams = BlockParams(version: int, neccBlock1: int, neccBlock2: int, dataBlock: int, eccBlock: int)

  /** calculateMaxLength: the number of data codewords, i.e. neccBlock1 short
      blocks of dataBlock bytes followed by neccBlock2 long blocks of one byte more. */
  function CalculateMaxLength(dataBlock: int, neccBlock1: int, neccBlock2: int): (r: int)
    ensures r == neccBlock1 * dataBlock + neccBlock2 * (dataBlock + 1)
  {
    (dataBlock * (neccBlock1 + neccBlock2)) + neccBlock2
  }

  /** modN (src/qr/Frame.ts): JavaScript `x % 255`, whose sign follows x. */
  function ModN(x: int): (r: int)
    ensures 0 <= x ==> 0 <= r < 255
    ensures x < 0 ==> -255 < r <= 0
    ensures (x - r) % 255 == 0
  {
    if 0 <= x then x % 255 else -((-x) % 255)
  }

  /** Reads the block-table row at the index the engine computes for a (level,
      version) pair.  Version 0, which the search starts from, gives a negative
      index; every entry then reads as `undefined` and the row is absent. */
  function Lookup(t: Tables, level: Level, version: int): (r: Option<BlockParams>)
    ensures r.Some? <==> 0 <= BlockIndex(level, version) && BlockIndex(level, version) + 3 < |t.blocks|
    ensures r.Some? ==> r.value.version == version
  {
    var i := BlockIndex(level, version);
    if 0 <= i && i + 3 < |t.blocks| then
      Some(BlockParams(version, t.blocks[i], t.blocks[i + 1], t.blocks[i + 2], t.blocks[i + 3]))
    else
      None
  }

  /** The capacity test: the input length fits the byte-mode stream of that row,
      which spends 2 header bytes up to version 9 and 3 from version 10 on. */
  predicate Fits(length: int, p: BlockParams) {
    length <= (p.dataBlock * (p.neccBlock1 + p.neccBlock2)) + p.neccBlock2 - 3 + (if p.version <= 9 then 1 else 0)
  }

  /** A version is accepted by the search when its row exists and fits. */
  predicate Accepts(t: Tables, length: int, level: Level, version: int) {
    var r := Lookup(t, level, version);
    r.Some? && Fits(length, r.value)
  }

  /** The search loop from `version` on. */
  function SearchFrom(t: Tables, length: int, level: Level, version: int): (r: BlockParams)
    requires WellFormed(t) && 0 <= version <= 40
    ensures version <= r.version <= 40
    ensures r.version >= 1
    ensures Lookup(t, level, r.version) == Some(r)
    ensures Accepts(t, length, level, r.version) || r.version == 40
    ensures forall v | version <= v < r.version :: !Accepts(t, length, level, v)
    decreases 40 - version
  {
    match Lookup(t, level, version)
    case None =>
      assert version == 0;
      SearchFrom(t, length, level, version + 1)
    case Some(p) =>
      if Fits(length, p) || version == 40 then p else SearchFrom(t, length, level, version + 1)
  }

  /** generateVersionsAndBlocks: the first version from 1 to 40 that accepts the
      input, or version 40 when none does (the oversized input is truncated
      later), with that version's block row. */
  function GenerateVersionsAndBlocks(t: Tables, length: int, level: Level): (r: BlockParams)
    requires WellFormed(t)
    ensures 1 <= r.version <= 40
    ensures Lookup(t, level, r.version) == Some(r)
    ensures Accepts(t, length, level, r.version) || r.version == 40
    ensures forall v | 1 <= v < r.version :: !Accepts(t, length, level, v)
  {
    SearchFrom(t, length, level, 0)
  }

  /** A selected row satisfies the block-table well-formedness conditions. */
  lemma {:induction false} SelectedWellFormed(t: Tables, length: int, level: Level)
    requires WellFormed(t)
    ensures var r := GenerateVersionsAndBlocks(t, length, level);
      r.neccBlock1 >= 1 && r.neccBlock2 >= 0 && r.dataBlock >= 1 && r.eccBlock >= 1 &&
      CalculateMaxLength(r.dataBlock, r.neccBlock1, r.neccBlock2) >= 3
  {
    var r := GenerateVersionsAndBlocks(t, length, level);
    var version: Version := r.version;
    assert BlockEntryWellFormed(t, level, version);
  }
}
