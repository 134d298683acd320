/** Block interleaving: the data codewords of all blocks are sent round-robin,
    one round per data position, the extra byte of the long blocks after the
    last round, and then the ECC codewords round-robin the same way. */
module Interleave {
  import opened Tables
  import opened Versions
  import opened Reserved

  /** The block structure: neccBlock1 short blocks of dataBlock data bytes,
      neccBlock2 long blocks of dataBlock + 1, eccBlock ECC bytes each. */
  datatype Shape = Shape(dataBlock: nat, eccBlock: nat, neccBlock1: nat, neccBlock2: nat)
  {
    function Blocks(): nat { neccBlock1 + neccBlock2 }
    /** Bytes of the round-robin data rounds. */
    function Rounds(): nat { dataBlock * Blocks() }
    function MaxLength(): nat { Rounds() + neccBlock2 }
    /** Bytes written by interleaveBlocks: all data and all ECC codewords. */
    function Total(): nat { MaxLength() + eccBlock * Blocks() }
  }

  /** A codeword named by what it is: data byte `round` of block `block`, the
      extra last byte of long block `long`, or ECC byte `round` of block `block`.
      Short blocks come first, so block j is long when j >= neccBlock1. */
  datatype Slot = Data(round: nat, block: nat) | Extra(long: nat) | Ecc(round: nat, block: nat)

  predicate ValidSlot(sh: Shape, sl: Slot) {
    match sl
    case Data(i, j) => i < sh.dataBlock && j < sh.Blocks()
    case Extra(j) => j < sh.neccBlock2
    case Ecc(i, j) => i < sh.eccBlock && j < sh.Blocks()
  }

  /** Where a codeword sits in the block-ordered buffer (block after block,
      data first, then the ECC of every block). */
  function BufPos(sh: Shape, sl: Slot): int {
    match sl
    case Data(i, j) =>
      if j < sh.neccBlock1 then i + j * sh.dataBlock
      else sh.neccBlock1 * sh.dataBlock + i + (j - sh.neccBlock1) * (sh.dataBlock + 1)
    case Extra(j) => sh.neccBlock1 * sh.dataBlock + sh.dataBlock + j * (sh.dataBlock + 1)
    case Ecc(i, j) => sh.MaxLength() + i + j * sh.eccBlock
  }

  /** Where a codeword is sent in the interleaved output. */
  function OutPos(sh: Shape, sl: Slot): int {
    match sl
    case Data(i, j) => i * sh.Blocks() + j
    case Extra(j) => sh.Rounds() + j
    case Ecc(i, j) => sh.MaxLength() + i * sh.Blocks() + j
  }

  /** The codeword at output position k. */
  function SlotAt(sh: Shape, k: nat): Slot
    requires sh.Blocks() > 0
  {
    if k < sh.Rounds() then Data(k / sh.Blocks(), k % sh.Blocks())
    else if k < sh.MaxLength() then Extra(k - sh.Rounds())
    else
      var m := k - sh.MaxLength();
      Ecc(m / sh.Blocks(), m % sh.Blocks())
  }

  /** The codeword at index s of the block-ordered buffer. */
  function SlotOf(sh: Shape, s: nat): Slot {
    var short := sh.neccBlock1 * sh.dataBlock;
    if s < short then Data(s % sh.dataBlock, s / sh.dataBlock)
    else if s < sh.MaxLength() then
      var t := s - short;
      if t % (sh.dataBlock + 1) < sh.dataBlock then Data(t % (sh.dataBlock + 1), sh.neccBlock1 + t / (sh.dataBlock + 1))
      else Extra(t / (sh.dataBlock + 1))
    else if sh.eccBlock == 0 then Ecc(0, 0)
    else
      var m := s - sh.MaxLength();
      Ecc(m % sh.eccBlock, m / sh.eccBlock)
  }

  /** The buffer index output position k is read from. */
  function Source(sh: Shape, k: nat): int
    requires sh.Blocks() > 0
  {
    BufPos(sh, SlotAt(sh, k))
  }

  // ---------------------------------------------------------------------------
  // The output order

  lemma {:induction false} MaxLengthAgrees(sh: Shape)
    ensures sh.MaxLength() == CalculateMaxLength(sh.dataBlock, sh.neccBlock1, sh.neccBlock2)
    ensures sh.MaxLength() == sh.neccBlock1 * sh.dataBlock + sh.neccBlock2 * (sh.dataBlock + 1)
  {
  }

  /** Each codeword has its own output position, and SlotAt finds it there. */
  lemma OutPosRoundTrip(sh: Shape, sl: Slot)
    requires ValidSlot(sh, sl)
    ensures 0 <= OutPos(sh, sl) < sh.Total()
    ensures SlotAt(sh, OutPos(sh, sl)) == sl
  {
    var b := sh.Blocks();
    match sl
    case Data(i, j) =>
      Place(j, i, b, sh.dataBlock);
      assert OutPos(sh, sl) < sh.Rounds();
    case Extra(j) =>
    case Ecc(i, j) =>
      Place(j, i, b, sh.eccBlock);
      var m := j + i * b;
      assert OutPos(sh, sl) == sh.MaxLength() + m;
      assert m < sh.eccBlock * b;
  }

  /** Every output position below Total holds a codeword. */
  lemma SlotAtRoundTrip(sh: Shape, k: nat)
    requires sh.Blocks() > 0 && k < sh.Total()
    ensures ValidSlot(sh, SlotAt(sh, k))
    ensures OutPos(sh, SlotAt(sh, k)) == k
  {
    var b := sh.Blocks();
    if k < sh.Rounds() {
      QuotientBelow(k, b, sh.dataBlock);
    } else if k >= sh.MaxLength() {
      QuotientBelow(k - sh.MaxLength(), b, sh.eccBlock);
    }
  }

  lemma {:induction false} NextRound(i: nat, b: nat)
    ensures (i + 1) * b == i * b + b
  {
  }

  /** a < n * b gives a / b < n. */
  lemma {:induction false} QuotientBelow(a: nat, b: nat, n: nat)
    requires 0 < b && a < n * b
    ensures a / b < n && a == a / b * b + a % b
  {
    if a / b >= n {
      MulOrder(b, n, a / b);
      assert false;
    }
  }

  // ---------------------------------------------------------------------------
  // The buffer order

  /** Each codeword has its own buffer index, and SlotOf finds it there. */
  lemma BufPosRoundTrip(sh: Shape, sl: Slot)
    requires ValidSlot(sh, sl)
    ensures 0 <= BufPos(sh, sl) < sh.Total()
    ensures SlotOf(sh, BufPos(sh, sl)) == sl
  {
    match sl
    case Data(i, j) =>
      if j < sh.neccBlock1 {
        ShortDataByte(sh, i, j);
      } else {
        LongDataByte(sh, i, j);
      }
    case Extra(j) =>
      ExtraByte(sh, j);
    case Ecc(i, j) =>
      EccByte(sh, i, j);
  }

  lemma ShortDataByte(sh: Shape, i: nat, j: nat)
    requires i < sh.dataBlock && j < sh.neccBlock1
    ensures 0 <= BufPos(sh, Data(i, j)) < sh.Total()
    ensures SlotOf(sh, BufPos(sh, Data(i, j))) == Data(i, j)
  {
    var s := BufPos(sh, Data(i, j));
    Place(i, j, sh.dataBlock, sh.neccBlock1);
    MaxLengthAgrees(sh);
    assert s < sh.neccBlock1 * sh.dataBlock <= sh.MaxLength() <= sh.Total();
  }

  lemma LongDataByte(sh: Shape, i: nat, j: nat)
    requires i < sh.dataBlock && sh.neccBlock1 <= j < sh.Blocks()
    ensures 0 <= BufPos(sh, Data(i, j)) < sh.Total()
    ensures SlotOf(sh, BufPos(sh, Data(i, j))) == Data(i, j)
  {
    var short := sh.neccBlock1 * sh.dataBlock;
    var t := i + (j - sh.neccBlock1) * (sh.dataBlock + 1);
    Place(i, j - sh.neccBlock1, sh.dataBlock + 1, sh.neccBlock2);
    MaxLengthAgrees(sh);
    assert BufPos(sh, Data(i, j)) == short + t;
    assert short + t < sh.MaxLength() <= sh.Total();
  }

  lemma ExtraByte(sh: Shape, j: nat)
    requires j < sh.neccBlock2
    ensures 0 <= BufPos(sh, Extra(j)) < sh.Total()
    ensures SlotOf(sh, BufPos(sh, Extra(j))) == Extra(j)
  {
    var short := sh.neccBlock1 * sh.dataBlock;
    var t := sh.dataBlock + j * (sh.dataBlock + 1);
    Place(sh.dataBlock, j, sh.dataBlock + 1, sh.neccBlock2);
    MaxLengthAgrees(sh);
    assert BufPos(sh, Extra(j)) == short + t;
    assert short + t < sh.MaxLength() <= sh.Total();
  }

  lemma EccByte(sh: Shape, i: nat, j: nat)
    requires i < sh.eccBlock && j < sh.Blocks()
    ensures 0 <= BufPos(sh, Ecc(i, j)) < sh.Total()
    ensures SlotOf(sh, BufPos(sh, Ecc(i, j))) == Ecc(i, j)
  {
    var m := i + j * sh.eccBlock;
    Place(i, j, sh.eccBlock, sh.Blocks());
    MaxLengthAgrees(sh);
    assert BufPos(sh, Ecc(i, j)) == sh.MaxLength() + m;
    assert sh.neccBlock1 * sh.dataBlock <= sh.MaxLength();
    assert sh.Total() == sh.MaxLength() + sh.Blocks() * sh.eccBlock;
  }

  /** Byte i of the j-th of n blocks of length d, laid out one after another. */
  lemma {:induction false} Place(i: nat, j: nat, d: nat, n: nat)
    requires i < d && j < n
    ensures i + j * d < n * d && (i + j * d) / d == j && (i + j * d) % d == i
  {
    MulMonotone(d, j + 1, n);
    DivModUnique(i + j * d, d, j, i);
  }

  /** Every buffer index below Total holds a codeword. */
  lemma SlotOfRoundTrip(sh: Shape, s: nat)
    requires s < sh.Total()
    ensures ValidSlot(sh, SlotOf(sh, s))
    ensures BufPos(sh, SlotOf(sh, s)) == s
  {
    var d, n1, n2 := sh.dataBlock, sh.neccBlock1, sh.neccBlock2;
    MaxLengthAgrees(sh);
    if s < n1 * d {
      QuotientBelow(s, d, n1);
    } else if s < sh.MaxLength() {
      QuotientBelow(s - n1 * d, d + 1, n2);
    } else {
      MulMonotone(sh.Blocks(), 1, sh.eccBlock);
      QuotientBelow(s - sh.MaxLength(), sh.eccBlock, sh.Blocks());
    }
  }

  // ---------------------------------------------------------------------------
  // Interleaving is a permutation

  /** Every output position reads a byte of the codeword range, and no two
      output positions read the same byte. */
  lemma SourceInjective(sh: Shape, k1: nat, k2: nat)
    requires sh.Blocks() > 0 && k1 < sh.Total() && k2 < sh.Total()
    ensures 0 <= Source(sh, k1) < sh.Total()
    ensures Source(sh, k1) == Source(sh, k2) ==> k1 == k2
  {
    SlotAtRoundTrip(sh, k1);
    SlotAtRoundTrip(sh, k2);
    BufPosRoundTrip(sh, SlotAt(sh, k1));
    BufPosRoundTrip(sh, SlotAt(sh, k2));
  }

  /** Every byte of the codeword range is read by some output position. */
  lemma SourceSurjective(sh: Shape, s: nat)
    requires sh.Blocks() > 0 && s < sh.Total()
    ensures exists k: nat :: k < sh.Total() && Source(sh, k) == s
  {
    var sl := SlotOf(sh, s);
    SlotOfRoundTrip(sh, s);
    OutPosRoundTrip(sh, sl);
    assert Source(sh, OutPos(sh, sl)) == s;
  }

  // ---------------------------------------------------------------------------
  // interleaveBlocks

  /** Output positions below k hold the bytes they read. */
  ghost predicate Written(sh: Shape, ecc: seq<byte>, stringBuffer: seq<byte>, k: nat)
    requires sh.Blocks() > 0
  {
    k <= |ecc| &&
    forall p | 0 <= p < k ::
      var s := Source(sh, p);
      0 <= s < |stringBuffer| && ecc[p] == stringBuffer[s]
  }

  /** In a fully interleaved output, every codeword sits at its output position. */
  lemma InterleavedAt(sh: Shape, ecc: seq<byte>, stringBuffer: seq<byte>, sl: Slot)
    requires sh.Blocks() > 0 && ValidSlot(sh, sl) && Written(sh, ecc, stringBuffer, sh.Total())
    ensures 0 <= OutPos(sh, sl) < |ecc| && 0 <= BufPos(sh, sl) < |stringBuffer|
    ensures ecc[OutPos(sh, sl)] == stringBuffer[BufPos(sh, sl)]
  {
    OutPosRoundTrip(sh, sl);
    var p := OutPos(sh, sl);
    assert Source(sh, p) == BufPos(sh, sl);
  }

  /** interleaveBlocks: writes the codewords to ecc in interleaved order, reading
      the block-ordered copy stringBuffer; bytes past Total are left alone. */
  method InterleaveBlocks(ecc: array<byte>, eccBlock: nat, dataBlock: nat, neccBlock1: nat, neccBlock2: nat,
                          stringBuffer: seq<byte>) returns (r: array<byte>)
    requires neccBlock1 + neccBlock2 > 0
    requires Shape(dataBlock, eccBlock, neccBlock1, neccBlock2).Total() <= |stringBuffer|
    requires Shape(dataBlock, eccBlock, neccBlock1, neccBlock2).Total() <= ecc.Length
    modifies ecc
    ensures r == ecc
    ensures var sh := Shape(dataBlock, eccBlock, neccBlock1, neccBlock2);
      Written(sh, ecc[..], stringBuffer, sh.Total()) &&
      forall p | sh.Total() <= p < ecc.Length :: ecc[p] == old(ecc[p])
  {
    var sh := Shape(dataBlock, eccBlock, neccBlock1, neccBlock2);
    var maxLength := CalculateMaxLength(dataBlock, neccBlock1, neccBlock2);
    MaxLengthAgrees(sh);
    var k := 0;
    var i := 0;
    while i < dataBlock
      invariant 0 <= i <= dataBlock && k == i * sh.Blocks()
      invariant Written(sh, ecc[..], stringBuffer, k)
      invariant forall p | k <= p < ecc.Length :: ecc[p] == old(ecc[p])
    {
      k := DataRound(ecc, sh, stringBuffer, i, k);
      NextRound(i, sh.Blocks());
      i := i + 1;
    }
    k := ExtraBytes(ecc, sh, stringBuffer, i, k);
    for i := 0 to eccBlock
      invariant k == maxLength + i * sh.Blocks()
      invariant Written(sh, ecc[..], stringBuffer, k)
      invariant forall p | k <= p < ecc.Length :: ecc[p] == old(ecc[p])
    {
      k := EccRound(ecc, sh, stringBuffer, maxLength, i, k);
      NextRound(i, sh.Blocks());
    }
    r := ecc;
  }

  /** Data round i: byte i of every short block, then of every long block. */
  method DataRound(ecc: array<byte>, sh: Shape, stringBuffer: seq<byte>, i: nat, k0: nat) returns (k: nat)
    requires sh.Blocks() > 0 && i < sh.dataBlock && k0 == i * sh.Blocks()
    requires sh.Total() <= |stringBuffer| && sh.Total() <= ecc.Length
    requires Written(sh, ecc[..], stringBuffer, k0)
    modifies ecc
    ensures k == k0 + sh.Blocks()
    ensures Written(sh, ecc[..], stringBuffer, k)
    ensures forall p | k <= p < ecc.Length :: ecc[p] == old(ecc[p])
  {
    var dataBlock, neccBlock1 := sh.dataBlock, sh.neccBlock1;
    k := k0;
    for j := 0 to sh.neccBlock1
      invariant k == k0 + j
      invariant Written(sh, ecc[..], stringBuffer, k)
      invariant forall p | k <= p < ecc.Length :: ecc[p] == old(ecc[p])
    {
      k := Put(ecc, sh, stringBuffer, k, Data(i, j), i + (j * dataBlock));
    }
    for j := 0 to sh.neccBlock2
      invariant k == k0 + neccBlock1 + j
      invariant Written(sh, ecc[..], stringBuffer, k)
      invariant forall p | k <= p < ecc.Length :: ecc[p] == old(ecc[p])
    {
      k := Put(ecc, sh, stringBuffer, k, Data(i, neccBlock1 + j), (neccBlock1 * dataBlock) + i + (j * (dataBlock + 1)));
    }
  }

  /** After the data rounds (i == dataBlock): the last byte of every long block. */
  method ExtraBytes(ecc: array<byte>, sh: Shape, stringBuffer: seq<byte>, i: nat, k0: nat) returns (k: nat)
    requires sh.Blocks() > 0 && i == sh.dataBlock && k0 == sh.Rounds()
    requires sh.Total() <= |stringBuffer| && sh.Total() <= ecc.Length
    requires Written(sh, ecc[..], stringBuffer, k0)
    modifies ecc
    ensures k == sh.MaxLength()
    ensures Written(sh, ecc[..], stringBuffer, k)
    ensures forall p | k <= p < ecc.Length :: ecc[p] == old(ecc[p])
  {
    var dataBlock, neccBlock1 := sh.dataBlock, sh.neccBlock1;
    k := k0;
    for j := 0 to sh.neccBlock2
      invariant k == k0 + j
      invariant Written(sh, ecc[..], stringBuffer, k)
      invariant forall p | k <= p < ecc.Length :: ecc[p] == old(ecc[p])
    {
      k := Put(ecc, sh, stringBuffer, k, Extra(j), (neccBlock1 * dataBlock) + i + (j * (dataBlock + 1)));
    }
  }

  /** ECC round i: ECC byte i of every block. */
  method EccRound(ecc: array<byte>, sh: Shape, stringBuffer: seq<byte>, maxLength: nat, i: nat, k0: nat)
    returns (k: nat)
    requires sh.Blocks() > 0 && i < sh.eccBlock && maxLength == sh.MaxLength()
    requires k0 == maxLength + i * sh.Blocks()
    requires sh.Total() <= |stringBuffer| && sh.Total() <= ecc.Length
    requires Written(sh, ecc[..], stringBuffer, k0)
    modifies ecc
    ensures k == k0 + sh.Blocks()
    ensures Written(sh, ecc[..], stringBuffer, k)
    ensures forall p | k <= p < ecc.Length :: ecc[p] == old(ecc[p])
  {
    var eccBlock := sh.eccBlock;
    k := k0;
    for j := 0 to sh.neccBlock1 + sh.neccBlock2
      invariant k == k0 + j
      invariant Written(sh, ecc[..], stringBuffer, k)
      invariant forall p | k <= p < ecc.Length :: ecc[p] == old(ecc[p])
    {
      k := Put(ecc, sh, stringBuffer, k, Ecc(i, j), maxLength + i + (j * eccBlock));
    }
  }

  /** `ecc[k++] = stringBuffer[index]`, where index is the buffer position of
      the codeword whose output position is k. */
  method Put(ecc: array<byte>, sh: Shape, stringBuffer: seq<byte>, k0: nat, ghost sl: Slot, index: int)
    returns (k: nat)
    requires sh.Blocks() > 0 && ValidSlot(sh, sl) && k0 == OutPos(sh, sl) && index == BufPos(sh, sl)
    requires sh.Total() <= |stringBuffer| && sh.Total() <= ecc.Length
    requires Written(sh, ecc[..], stringBuffer, k0)
    modifies ecc
    ensures k == k0 + 1
    ensures Written(sh, ecc[..], stringBuffer, k)
    ensures forall p | k <= p < ecc.Length :: ecc[p] == old(ecc[p])
  {
    OutPosRoundTrip(sh, sl);
    BufPosRoundTrip(sh, sl);
    ecc[k0] := stringBuffer[index];
    k := k0 + 1;
  }
}
