/** Constant tables and shared types of the QR frame engine.

    The Galois-field tables, the per-(level, version) block table, the final-format
    table and the version-information table live in constant modules whose contents
    are not part of this model.  They are passed around as one `Tables` value, and
    `WellFormed` states only what the engine's index arithmetic relies on.  The
    alignment-step table is plain data and is transcribed here. */
module Tables {

  type byte = x: int | 0 <= x < 256

  /** Bitwise exclusive or of two naturals, bit by bit from the lowest. */
  function XorNat(a: nat, b: nat): nat
    decreases a + b
  {
    if a == 0 then b else if b == 0 then a
    else 2 * XorNat(a / 2, b / 2) + (if a % 2 == b % 2 then 0 else 1)
  }

  lemma {:induction false} XorBelow(a: nat, b: nat, n: nat)
    requires a < n && b < n && n > 0 && (n == 1 || n == 2 || n == 4 || n == 8 || n == 16 || n == 32 || n == 64 || n == 128 || n == 256)
    ensures XorNat(a, b) < n
    decreases a + b
  {
    if a != 0 && b != 0 {
      XorBelow(a / 2, b / 2, if n == 1 then 1 else n / 2);
    }
  }

  /** `a ^ b` on two bytes. */
  function Xor(a: byte, b: byte): (r: byte)
  {
    XorBelow(a, b, 256);
    XorNat(a, b)
  }

  /** Bitwise or of two naturals, bit by bit from the lowest. */
  function OrNat(a: nat, b: nat): nat
    decreases a + b
  {
    if a == 0 then b else if b == 0 then a
    else 2 * OrNat(a / 2, b / 2) + (if a % 2 == 1 || b % 2 == 1 then 1 else 0)
  }

  lemma {:induction false} OrBelow(a: nat, b: nat, n: nat)
    requires a < n && b < n && n > 0 && (n == 1 || n == 2 || n == 4 || n == 8 || n == 16 || n == 32 || n == 64 || n == 128 || n == 256)
    ensures OrNat(a, b) < n
    decreases a + b
  {
    if a != 0 && b != 0 {
      OrBelow(a / 2, b / 2, if n == 1 then 1 else n / 2);
    }
  }

  /** `a | b` on two bytes. */
  function Or(a: byte, b: byte): byte
  {
    OrBelow(a, b, 256);
    OrNat(a, b)
  }

  /** Or is symmetric. */
  lemma {:induction false} OrSymmetric(a: nat, b: nat)
    ensures OrNat(a, b) == OrNat(b, a)
    decreases a + b
  {
    if a != 0 && b != 0 {
      OrSymmetric(a / 2, b / 2);
    }
  }

  /** Or of a multiple of 16 with a value below 16 is their sum: the set bits
      do not meet.  Proved one bit at a time, from 16 down to 2. */
  lemma {:induction false} OrDisjoint(a: nat, b: nat)
    requires a % 16 == 0 && b < 16
    ensures OrNat(a, b) == a + b
  {
    if a != 0 && b != 0 {
      OrDisjoint8(a / 2, b / 2);
    }
  }

  lemma {:induction false} OrDisjoint8(a: nat, b: nat)
    requires a % 8 == 0 && b < 8
    ensures OrNat(a, b) == a + b
  {
    if a != 0 && b != 0 {
      OrDisjoint4(a / 2, b / 2);
    }
  }

  lemma {:induction false} OrDisjoint4(a: nat, b: nat)
    requires a % 4 == 0 && b < 4
    ensures OrNat(a, b) == a + b
  {
    if a != 0 && b != 0 {
      OrDisjoint2(a / 2, b / 2);
    }
  }

  lemma {:induction false} OrDisjoint2(a: nat, b: nat)
    requires a % 2 == 0 && b < 2
    ensures OrNat(a, b) == a + b
  {
    if a != 0 && b != 0 {
      assert b / 2 == 0;
    }
  }

  /** `b << 4` stored into a byte: the low nibble moves up, the high one is lost. */
  function Shl4(b: byte): byte
  {
    (b % 16) * 16
  }

  /** `b >> 4` on a byte: its high nibble. */
  function Shr4(b: byte): (r: byte)
    ensures r < 16
  {
    b / 16
  }

  datatype Option<T> = None | Some(value: T)

  /** Which copy of the engine is meant: `Newer` is src/Frame.ts (formula masks,
      optional mask override), `Exported` is src/qr/Frame.ts (per-case mask loops,
      always searches). */
  datatype Variant = Newer | Exported

  /** ECC level as the engine sees it: L = 1, M = 2, Q = 3, H = 4. */
  type Level = l: int | 1 <= l <= 4 witness 1

  /** QR version of a real symbol. */
  type Version = v: int | 1 <= v <= 40 witness 1

  /** One of the eight mask patterns. */
  type MaskId = m: int | 0 <= m < 8 witness 0

  /** Side of the module matrix of a version. */
  function Width(version: Version): (w: int)
    ensures 21 <= w <= 177 && w % 2 == 1
  {
    17 + 4 * version
  }

  datatype Tables = Tables(
    exponent: seq<int>,     // Galois.EXPONENT: antilog table
    log: seq<int>,          // Galois.LOG: log table, 255 standing for log(0)
    blocks: seq<int>,       // ErrorCorrection.BLOCKS: (neccBlock1, neccBlock2, dataBlock, eccBlock) per level and version
    finalFormat: seq<int>,  // ErrorCorrection.FINAL_FORMAT: 15-bit format words, 8 masks per level
    versionBlock: seq<int>  // Version.BLOCK: version-information words for versions 7..40
  )

  /** Offset of the (level, version) entry of the block table. */
  function BlockIndex(level: int, version: int): int {
    (level - 1) * 4 + (version - 1) * 16
  }

  /** Block parameters are usable: at least one short block, non-empty blocks,
      and room for the byte-mode header. */
  predicate BlockEntryWellFormed(t: Tables, level: Level, version: Version)
    requires 0 <= BlockIndex(level, version) && BlockIndex(level, version) + 3 < |t.blocks|
  {
    var i := BlockIndex(level, version);
    t.blocks[i] >= 1 && t.blocks[i + 1] >= 0 && t.blocks[i + 2] >= 1 && t.blocks[i + 3] >= 1 &&
    t.blocks[i + 2] * (t.blocks[i] + t.blocks[i + 1]) + t.blocks[i + 1] >= 3
  }

  /** The Galois tables have 256 byte-valued entries each. */
  predicate GaloisTables(t: Tables) {
    |t.exponent| == 256 && |t.log| == 256 &&
    (forall i | 0 <= i < 256 :: 0 <= t.exponent[i] < 256) &&
    (forall i | 0 <= i < 256 :: 0 <= t.log[i] < 256)
  }

  predicate WellFormed(t: Tables) {
    GaloisTables(t) &&
    |t.blocks| == 640 &&
    (forall level: Level, version: Version :: BlockEntryWellFormed(t, level, version)) &&
    |t.finalFormat| == 32 && (forall i | 0 <= i < 32 :: 0 <= t.finalFormat[i] < 0x8000) &&
    |t.versionBlock| == 34 && (forall i | 0 <= i < 34 :: 0 <= t.versionBlock[i])
  }

  /** The exponent and log tables are mutually inverse on the 255 non-zero field
      elements (alpha^0 = 1), and log maps 0 to the sentinel 255. */
  predicate LogAntilog(t: Tables)
    requires GaloisTables(t)
  {
    t.log[0] == 255 && t.exponent[0] == 1 &&
    (forall k | 0 <= k < 255 :: t.exponent[k] != 0 && t.log[t.exponent[k]] == k) &&
    (forall b {:trigger t.exponent[t.log[b]]} | 1 <= b < 256 :: t.log[b] < 255 && t.exponent[t.log[b]] == b)
  }

  /** Alignment.BLOCK: the step between alignment-pattern centres, by version. */
  const ALIGNMENT_BLOCK: seq<int> := [
    0,  11, 15, 19, 23, 27, 31,
    16, 18, 20, 22, 24, 26, 28, 20, 22, 24, 24, 26, 28, 28, 22, 24, 24,
    26, 26, 28, 28, 24, 24, 26, 26, 26, 28, 28, 24, 26, 26, 26, 28, 28
  ]

  // Badness coefficients.
  const N1 := 3
  const N2 := 3
  const N3 := 40
  const N4 := 10
}
