/** The codeword stream of a byte-mode symbol: the mode indicator 0100, the
    character count (8 bits up to version 9, 16 bits from version 10), the data
    bytes, a 4-bit terminator, and the pad bytes 0xEC, 0x11 up to the data
    capacity.  Everything after the mode indicator sits four bits off the byte
    grid. */
module Bitstream {
  import opened Tables
  import opened Versions
  import Reserved

  /** One UTF-16 code unit of the input string, as `charCodeAt` returns it. */
  type CodeUnit = u: int | 0 <= u < 0x1_0000

  /** The bytes a Uint8Array keeps of the code units: their low eight bits. */
  function StoredBytes(value: seq<CodeUnit>): (r: seq<byte>)
    ensures |r| == |value|
    ensures forall i | 0 <= i < |r| :: r[i] == ByteOf(value[i])
  {
    seq(|value|, i requires 0 <= i < |value| => ByteOf(value[i]))
  }

  /** The byte a Uint8Array keeps of a non-negative number: its low eight bits. */
  function ByteOf(n: nat): (b: byte)
    ensures b == n % 256
  {
    n % 256
  }

  /** Bytes spent on the mode indicator and character count before the first
      data nibble: one full byte up to version 9, two from version 10. */
  function HeaderOffset(version: Version): (o: int)
    ensures o == 1 || o == 2
  {
    if version > 9 then 2 else 1
  }

  /** The character count after truncation: an input that leaves fewer than two
      bytes (three from version 10) of the capacity is cut down so that header
      and data fill the capacity exactly. */
  function StoredLength(version: Version, length: int, maxLength: int): (l: int)
    requires maxLength >= 3 && length >= 0
    ensures 0 <= l <= length
    ensures l + HeaderOffset(version) + 1 <= maxLength
    ensures length + HeaderOffset(version) + 1 <= maxLength ==> l == length
    ensures length + HeaderOffset(version) + 1 > maxLength ==> l + HeaderOffset(version) + 1 == maxLength
  {
    if length >= maxLength - 2 then
      if version > 9 then maxLength - 3 else maxLength - 2
    else
      length
  }

  /** Data byte j of the stored input, 0 past the character count. */
  function DataAt(data: seq<byte>, length: int, j: int): byte
    requires length <= |data|
  {
    if 0 <= j < length then data[j] else 0
  }

  /** The byte whose high nibble is the low nibble of `hi` and whose low nibble
      is the high nibble of `lo`. */
  function Straddle(hi: byte, lo: byte): (b: byte)
    ensures b / 16 == hi % 16 && b % 16 == lo / 16
  {
    16 * (hi % 16) + lo / 16
  }

  /** Byte 0 of the stream: the mode indicator 0100 or-ed with the top bits of
      the count. */
  function ModeByte(version: Version, length: int): byte
    requires 0 <= length
  {
    Or(0x40, if HeaderOffset(version) == 1 then ByteOf(length / 16) else ByteOf(length / 4096))
  }

  /** Byte k of the header-and-data part of the stream, for k up to
      length + offset + 1: byte 0 holds 0100 and the top count bits, then every
      byte joins the low nibble of one data byte with the high nibble of the next;
      the count's low nibble fills the free nibble before the first data byte. */
  function StreamByte(version: Version, data: seq<byte>, length: int, k: int): byte
    requires 0 <= length <= |data|
  {
    var o := HeaderOffset(version);
    if k == 0 then ModeByte(version, length)
    else if k < o then ByteOf(length / 16)
    else if k == o then 16 * (length % 16) + DataAt(data, length, 0) / 16
    else Straddle(DataAt(data, length, k - o - 1), DataAt(data, length, k - o))
  }

  /** The first index past the padding: the pad loop writes pairs, so it may
      write one byte past maxLength. */
  function PadEnd(start: int, maxLength: int): (e: int)
    ensures e >= start
    ensures (e - start) % 2 == 0
    ensures start >= maxLength ==> e == start
    ensures start < maxLength ==> maxLength <= e <= maxLength + 1
  {
    if start >= maxLength then start
    else if (maxLength - start) % 2 == 0 then maxLength
    else maxLength + 1
  }

  /** The codeword stream as far as convertBitStream writes it: the header and
      data bytes, then the padding from the byte after the last data nibble.
      When no padding fits, the zero byte the shift leaves after the stream
      (index maxLength) stays. */
  function Encoded(version: Version, data: seq<byte>, maxLength: int): (e: seq<byte>)
    requires maxLength >= 3
    ensures var start := StoredLength(version, |data|, maxLength) + HeaderOffset(version) + 1;
      |e| == (if start < maxLength then PadEnd(start, maxLength) else start + 1) &&
      |e| <= maxLength + 1
  {
    var l := StoredLength(version, |data|, maxLength);
    var start := l + HeaderOffset(version) + 1;
    if start < maxLength then
      seq(PadEnd(start, maxLength), k =>
        if k < start then StreamByte(version, data, l, k)
        else if (k - start) % 2 == 0 then 0xEC else 0x11)
    else
      seq(start + 1, k => StreamByte(version, data, l, k))
  }

  // ---------------------------------------------------------------------------
  // The in-place conversion

  /** Byte k of an array snapshot, 0 outside it. */
  function ByteAt(d: seq<byte>, k: int): byte {
    if 0 <= k < |d| then d[k] else 0
  }

  /** The array while the shift loop of convertBitStream runs for header offset
      o, with data bytes `index` and above already moved: the first index + o
      bytes are untouched, byte index + o holds the high nibble of data byte
      `index`, every byte above it up to length + o + 1 straddles two data bytes,
      and the bytes beyond are untouched. */
  ghost function ShiftState(d: seq<byte>, length: int, o: int, index: int): (s: seq<byte>)
    requires 0 <= length <= |d|
    ensures |s| == |d|
  {
    seq(|d|, k => ShiftCell(d, length, o, index, k))
  }

  ghost function ShiftCell(d: seq<byte>, length: int, o: int, index: int, k: int): byte
    requires 0 <= length <= |d|
  {
    if k < index + o || length + o + 1 < k then ByteAt(d, k)
    else if k == index + o then Shr4(DataAt(d, length, index))
    else Straddle(DataAt(d, length, k - o - 1), DataAt(d, length, k - o))
  }

  lemma {:induction false} ShiftStart(d: seq<byte>, length: int, o: int)
    requires 0 <= length && length + o + 1 < |d| && 0 <= o
    ensures d[length + o := 0][length + o + 1 := 0] == ShiftState(d, length, o, length)
  {
    var s := ShiftState(d, length, o, length);
    assert DataAt(d, length, length) == 0 && DataAt(d, length, length + 1) == 0;
    assert s[length + o] == ShiftCell(d, length, o, length, length + o) == Shr4(0) == 0;
    assert s[length + o + 1] == ShiftCell(d, length, o, length, length + o + 1) == Straddle(0, 0) == 0;
  }

  /** One turn of the shift loop: moving data byte i = index - 1 sets byte
      i + o + 1 to `(next >> 4) | (bit << 4)` and byte i + o to `bit >> 4`. */
  lemma {:induction false} ShiftStep(d: seq<byte>, length: int, o: int, index: int)
    requires 0 < index <= length && length + o + 1 < |d| && 0 <= o
    ensures var s := ShiftState(d, length, o, index);
      var bit := d[index - 1];
      s[index + o := Or(s[index + o], Shl4(bit))][index - 1 + o := Shr4(bit)] ==
        ShiftState(d, length, o, index - 1)
  {
    var s := ShiftState(d, length, o, index);
    var bit := d[index - 1];
    assert s[index + o] == Shr4(DataAt(d, length, index));
    OrStraddle(bit, DataAt(d, length, index));
  }

  /** The shift loop of convertBitStream for header offset o: moves the first
      `length` bytes o bytes up and four bits right. */
  method ShiftIn(ecc: array<byte>, length: int, o: int)
    requires o == 1 || o == 2
    requires 0 <= length && length + o + 1 < ecc.Length
    modifies ecc
    ensures ecc[..] == ShiftState(old(ecc[..]), length, o, 0)
  {
    ghost var d := ecc[..];
    ecc[length + o] := 0;
    ecc[length + o + 1] := 0;
    ShiftStart(d, length, o);
    var index := length;
    while index > 0
      invariant 0 <= index <= length
      invariant ecc[..] == ShiftState(d, length, o, index)
    {
      index := index - 1;
      var bit := ecc[index];
      assert bit == d[index] by {
        assert ecc[index] == ShiftState(d, length, o, index + 1)[index] == ShiftCell(d, length, o, index + 1, index);
      }
      ghost var s := ecc[..];
      ecc[index + o + 1] := Or(ecc[index + o + 1], Shl4(bit));
      ecc[index + o] := Shr4(bit);
      assert ecc[..] == s[index + o + 1 := Or(s[index + o + 1], Shl4(bit))][index + o := Shr4(bit)];
      ShiftStep(d, length, o, index + 1);
    }
  }

  /** A low nibble or-ed with a byte whose low nibble is clear, in either
      order, is their sum. */
  lemma OrNibbles(low: byte, high: byte)
    requires low < 16 && high % 16 == 0
    ensures Or(low, high) == high + low && Or(high, low) == high + low
  {
    OrSymmetric(low, high);
    OrDisjoint(high, low);
  }

  /** `(lo >> 4) | (hi << 4)`, the shift loop's or-assignment, straddles the two bytes. */
  lemma OrStraddle(hi: byte, lo: byte)
    ensures Or(Shr4(lo), Shl4(hi)) == Straddle(hi, lo)
  {
    OrNibbles(Shr4(lo), Shl4(hi));
  }

  /** `length << 4` stored into a byte keeps the count's low nibble, moved up. */
  lemma CountShift(length: nat)
    ensures ByteOf(length * 16) == 16 * (length % 16)
  {
    var q, r := length / 16, length % 16;
    assert length * 16 == 256 * q + 16 * r;
    Reserved.DivModUnique(length * 16, 256, q, 16 * r);
  }

  /** `(first >> 4) | (length << 4)` puts the count's low nibble above the high
      nibble of the first data byte. */
  lemma OrCount(first: byte, length: nat)
    ensures Or(Shr4(first), ByteOf(length * 16)) == 16 * (length % 16) + first / 16
  {
    CountShift(length);
    OrNibbles(Shr4(first), ByteOf(length * 16));
  }

  /** The array once the header is written: the stream bytes up to
      length + offset + 1, the snapshot beyond. */
  function Headed(version: Version, d: seq<byte>, length: int): (s: seq<byte>)
    requires 0 <= length <= |d|
    ensures |s| == |d|
  {
    seq(|d|, k => if k < length + HeaderOffset(version) + 2 then StreamByte(version, d, length, k) else ByteAt(d, k))
  }

  /** Past the offset, the shifted array already holds the stream bytes; at the
      offset it lacks the count nibble, which the or-assignment adds. */
  lemma {:induction false} HeaderCell(version: Version, d: seq<byte>, length: int, k: int)
    requires 0 <= length && length + HeaderOffset(version) + 1 < |d|
    requires HeaderOffset(version) <= k < |d|
    ensures var o := HeaderOffset(version);
      var s := ShiftState(d, length, o, 0);
      var h := Headed(version, d, length);
      (k == o ==> h[k] == Or(s[o], ByteOf(length * 16))) &&
      (k > o ==> h[k] == s[k])
  {
    var o := HeaderOffset(version);
    if k == o {
      assert ShiftState(d, length, o, 0)[o] == Shr4(DataAt(d, length, 0));
      OrCount(DataAt(d, length, 0), length);
    } else if k < length + o + 2 {
      assert Headed(version, d, length)[k] == StreamByte(version, d, length, k);
    }
  }

  /** The header writes after the shift turn the shifted array into Headed. */
  lemma {:induction false} HeaderWrites(version: Version, d: seq<byte>, length: int)
    requires 0 <= length && length + HeaderOffset(version) + 1 < |d|
    ensures var o := HeaderOffset(version);
      var s := ShiftState(d, length, o, 0);
      var c := Or(s[o], ByteOf(length * 16));
      (o == 2 ==> s[2 := c][1 := ByteOf(length / 16)][0 := ModeByte(version, length)] == Headed(version, d, length)) &&
      (o == 1 ==> s[1 := c][0 := ModeByte(version, length)] == Headed(version, d, length))
  {
    var o := HeaderOffset(version);
    var s := ShiftState(d, length, o, 0);
    var h := Headed(version, d, length);
    forall k | o <= k < |d|
      ensures k == o ==> h[k] == Or(s[o], ByteOf(length * 16))
      ensures k > o ==> h[k] == s[k]
    {
      HeaderCell(version, d, length, k);
    }
    assert h[0] == StreamByte(version, d, length, 0);
    assert h[1] == StreamByte(version, d, length, 1);
  }

  /** The header writes of convertBitStream after the shift: byte 0 gets the
      mode indicator and the top count bits, the byte before the first data nibble
      (offset 2) the middle count bits, and the byte at the offset the count's low
      nibble. */
  method WriteHeader(version: Version, ecc: array<byte>, length: int)
    requires 0 <= length && length + HeaderOffset(version) + 1 < ecc.Length
    modifies ecc
    ensures ecc[..] == Headed(version, old(ecc[..]), length)
  {
    ghost var d := ecc[..];
    HeaderWrites(version, d, length);
    if version > 9 {
      ShiftIn(ecc, length, 2);
      ecc[2] := Or(ecc[2], ByteOf(length * 16));
      ecc[1] := ByteOf(length / 16);
      ecc[0] := Or(0x40, ByteOf(length / 4096));
    } else {
      ShiftIn(ecc, length, 1);
      ecc[1] := Or(ecc[1], ByteOf(length * 16));
      ecc[0] := Or(0x40, ByteOf(length / 16));
    }
  }

  /** The array once padded from `start` to `end`: 0xEC and 0x11 in turn,
      the snapshot elsewhere. */
  function Padded(d: seq<byte>, start: int, end: int): (s: seq<byte>)
    ensures |s| == |d|
  {
    seq(|d|, k => if start <= k < end then (if (k - start) % 2 == 0 then 0xEC else 0x11) else ByteAt(d, k))
  }

  /** The pad loop of convertBitStream: 0xEC and 0x11 in turn from `start`,
      written in pairs while the index is below maxLength. */
  method Pad(ecc: array<byte>, start: int, maxLength: int)
    requires 0 <= start && PadEnd(start, maxLength) <= ecc.Length
    modifies ecc
    ensures ecc[..] == Padded(old(ecc[..]), start, PadEnd(start, maxLength))
  {
    var index := start;
    assert ecc[..] == Padded(old(ecc[..]), start, index);
    while index < maxLength
      invariant start <= index <= PadEnd(start, maxLength) && (index - start) % 2 == 0
      invariant ecc[..] == Padded(old(ecc[..]), start, index)
    {
      ghost var s := ecc[..];
      ecc[index] := 0xEC;
      index := index + 1;
      ecc[index] := 0x11;
      index := index + 1;
      assert ecc[..] == s[index - 2 := 0xEC][index - 1 := 0x11];
      PadStep(old(ecc[..]), start, index - 2);
    }
  }

  lemma {:induction false} PadStep(d: seq<byte>, start: int, index: int)
    requires 0 <= start <= index && (index - start) % 2 == 0 && index + 2 <= |d|
    ensures Padded(d, start, index)[index := 0xEC][index + 1 := 0x11] == Padded(d, start, index + 2)
  {
    assert (index + 1 - start) % 2 == 1;
  }

  /** convertBitStream: writes the codeword stream of `value` into `ecc` in place
      and returns the same array.  Bytes past the padding keep the stored input
      bytes or their old contents; input bytes past the end of the array are
      dropped, as Uint8Array stores are. */
  method ConvertBitStream(version: Version, value: seq<CodeUnit>, ecc: array<byte>,
                          dataBlock: int, neccBlock1: int, neccBlock2: int) returns (r: array<byte>)
    requires CalculateMaxLength(dataBlock, neccBlock1, neccBlock2) >= 3
    requires ecc.Length > CalculateMaxLength(dataBlock, neccBlock1, neccBlock2)
    modifies ecc
    ensures r == ecc
    ensures var e := Encoded(version, StoredBytes(value), CalculateMaxLength(dataBlock, neccBlock1, neccBlock2));
      ecc[..|e|] == e &&
      forall k | |e| <= k < ecc.Length :: ecc[k] == if k < |value| then ByteOf(value[k]) else old(ecc[k])
  {
    for i := 0 to |value|
      invariant forall k | 0 <= k < ecc.Length :: ecc[k] == if k < i then ByteOf(value[k]) else old(ecc[k])
    {
      if i < ecc.Length {
        ecc[i] := ByteOf(value[i]);
      }
    }
    ghost var data := ecc[..];

    var maxLength := CalculateMaxLength(dataBlock, neccBlock1, neccBlock2);
    var length := |value|;
    if length >= maxLength - 2 {
      length := maxLength - 2;
      if version > 9 {
        length := length - 1;
      }
    }
    assert length == StoredLength(version, |value|, maxLength);
    WriteHeader(version, ecc, length);
    var index := length + 3 - (if version < 10 then 1 else 0);
    Pad(ecc, index, maxLength);
    r := ecc;
    EncodedLayout(version, value, data, maxLength);
  }

  /** The padded header-and-data array holds the stream and, past it, the
      snapshot it was written over. */
  lemma {:induction false} EncodedLayout(version: Version, value: seq<CodeUnit>, data: seq<byte>, maxLength: int)
    requires maxLength >= 3 && |data| > maxLength
    requires forall k | 0 <= k < |data| && k < |value| :: data[k] == ByteOf(value[k])
    ensures var l := StoredLength(version, |value|, maxLength);
      var start := l + HeaderOffset(version) + 1;
      var final := Padded(Headed(version, data, l), start, PadEnd(start, maxLength));
      var e := Encoded(version, StoredBytes(value), maxLength);
      |e| <= |final| && final[..|e|] == e && forall k | |e| <= k < |final| :: final[k] == data[k]
  {
    var l := StoredLength(version, |value|, maxLength);
    var start := l + HeaderOffset(version) + 1;
    var final := Padded(Headed(version, data, l), start, PadEnd(start, maxLength));
    var bytes := StoredBytes(value);
    var e := Encoded(version, bytes, maxLength);
    assert data[..l] == bytes[..l];
    forall k | 0 <= k < |e|
      ensures final[k] == e[k]
    {
      if k < start || start >= maxLength {
        StreamByteAgrees(version, data, bytes, l, k);
      }
    }
  }

  /** StreamByte reads only the first `length` data bytes. */
  lemma StreamByteAgrees(version: Version, d1: seq<byte>, d2: seq<byte>, length: int, k: int)
    requires 0 <= length <= |d1| && length <= |d2|
    requires d1[..length] == d2[..length]
    ensures StreamByte(version, d1, length, k) == StreamByte(version, d2, length, k)
  {
    assert forall j | 0 <= j < length :: d1[j] == d1[..length][j] == d2[..length][j] == d2[j];
    assert DataAt(d1, length, k - HeaderOffset(version)) == DataAt(d2, length, k - HeaderOffset(version));
    assert DataAt(d1, length, k - HeaderOffset(version) - 1) == DataAt(d2, length, k - HeaderOffset(version) - 1);
  }

  // ---------------------------------------------------------------------------
  // Reading the stream back

  /** The first byte carries the byte-mode indicator 0100 in its high nibble,
      and the character count is read back from the header nibbles: 8 bits up to
      version 9, 16 bits from version 10. */
  lemma {:induction false} HeaderRoundTrip(version: Version, data: seq<byte>, maxLength: int)
    requires maxLength >= 3
    requires StoredLength(version, |data|, maxLength) < (if version > 9 then 0x1_0000 else 0x100)
    ensures var e := Encoded(version, data, maxLength);
      var l := StoredLength(version, |data|, maxLength);
      e[0] / 16 == 4 &&
      (version <= 9 ==> (e[0] % 16) * 16 + e[1] / 16 == l) &&
      (version > 9 ==> (e[0] % 16) as int * 4096 + e[1] as int * 16 + e[2] / 16 == l)
  {
    var e := Encoded(version, data, maxLength);
    var l := StoredLength(version, |data|, maxLength);
    EncodedHeader(version, data, maxLength);
    if version <= 9 {
      ModeNibble(l / 16);
      assert e[1] / 16 == l % 16;
    } else {
      ModeNibble(l / 4096);
      assert e[2] / 16 == l % 16;
      Recombine16(l, l / 4096, e[1], l % 16);
    }
  }

  lemma Recombine16(l: int, top: int, mid: int, low: int)
    requires 0 <= l < 0x1_0000 && top == l / 4096 && mid == (l / 16) % 256 && low == l % 16
    ensures top * 4096 + mid * 16 + low == l
  {
    var a := l / 16;
    assert l == 16 * a + l % 16;
    assert a == 256 * (a / 256) + a % 256;
    assert a / 256 == l / 4096;
  }

  /** The header bytes of the stream, read off its definition. */
  lemma EncodedHeader(version: Version, data: seq<byte>, maxLength: int)
    requires maxLength >= 3
    ensures var e := Encoded(version, data, maxLength);
      var l := StoredLength(version, |data|, maxLength);
      var o := HeaderOffset(version);
      e[0] == ModeByte(version, l) &&
      (o == 2 ==> e[1] == ByteOf(l / 16)) &&
      e[o] == 16 * (l % 16) + DataAt(data, l, 0) / 16
  {
    var e := Encoded(version, data, maxLength);
    var l := StoredLength(version, |data|, maxLength);
    var o := HeaderOffset(version);
    assert e[0] == StreamByte(version, data, l, 0);
    assert e[1] == StreamByte(version, data, l, 1);
    assert e[o] == StreamByte(version, data, l, o);
  }

  /** The first byte, 0x40 | n for a nibble n, reads back as 4 and n. */
  lemma ModeNibble(n: nat)
    requires n < 16
    ensures Or(0x40, ByteOf(n)) / 16 == 4 && Or(0x40, ByteOf(n)) % 16 == n
  {
    assert ByteOf(n) == n;
    OrNibbles(n, 0x40);
  }

  /** Every stored data byte is recovered from the low nibble of stream byte
      j + offset and the high nibble of the byte after it. */
  lemma {:induction false} DataRoundTrip(version: Version, data: seq<byte>, maxLength: int, j: int)
    requires maxLength >= 3
    requires 0 <= j < StoredLength(version, |data|, maxLength)
    ensures var e := Encoded(version, data, maxLength);
      var o := HeaderOffset(version);
      Straddle(e[j + o], e[j + o + 1]) == data[j]
  {
    var e := Encoded(version, data, maxLength);
    var l := StoredLength(version, |data|, maxLength);
    var o := HeaderOffset(version);
    assert e[j + o] % 16 == data[j] / 16 by {
      assert e[j + o] == StreamByte(version, data, l, j + o);
    }
    assert e[j + o + 1] / 16 == data[j] % 16 by {
      assert e[j + o + 1] == StreamByte(version, data, l, j + o + 1);
    }
  }
}
