/** The last stage of a frame (finish): choose a mask pattern, apply it, and
    write the 15-bit format word (ECC level and mask) twice around the finders.
    The exported copy always tries all eight masks and keeps the first one with
    the lowest badness; the newer copy does the same unless a mask is chosen. */
module Finish {
  import opened Tables
  import opened Reserved
  import opened Masking
  import opened Badness

  // ---------------------------------------------------------------------------
  // Choosing the mask

  /** The best-so-far pair (bit, badness) after trying masks 0 .. n - 1: a mask
      replaces the best only when it is strictly lower, starting from 30000. */
  datatype Best = Best(bit: nat, best: int)

  function Search(scores: seq<int>, n: nat): Best
    requires n <= |scores|
  {
    if n == 0 then Best(0, 30000)
    else
      var p := Search(scores, n - 1);
      if scores[n - 1] < p.best then Best(n - 1, scores[n - 1]) else p
  }

  /** The search finds the first minimum among the scores below 30000, and
      mask 0 when there is none. */
  lemma {:induction false} SearchFindsFirstMinimum(scores: seq<int>, n: nat)
    requires n <= |scores|
    ensures Search(scores, n).best <= 30000
    ensures forall k | 0 <= k < n :: Search(scores, n).best <= scores[k]
    ensures Search(scores, n).best < 30000 ==>
      Search(scores, n).bit < n && scores[Search(scores, n).bit] == Search(scores, n).best &&
      forall k | 0 <= k < Search(scores, n).bit :: Search(scores, n).best < scores[k]
    ensures Search(scores, n).best == 30000 ==> Search(scores, n).bit == 0
  {
    if n > 0 {
      SearchFindsFirstMinimum(scores, n - 1);
    }
  }

  /** The badness of every mask applied to the unmasked frame b. */
  ghost function Scores(b: seq<bool>, width: nat, variant: Variant, m: seq<bool>): (s: seq<int>)
    requires |b| == width * width
    ensures |s| == 8
  {
    seq(8, k requires 0 <= k < 8 => Score(Masked(b, width, PatternsOf(variant), k, m), width, variant))
  }

  lemma ScoresAt(b: seq<bool>, width: nat, variant: Variant, m: seq<bool>, k: nat)
    requires |b| == width * width && k < 8
    ensures Scores(b, width, variant, m)[k] == Score(Masked(b, width, PatternsOf(variant), k, m), width, variant)
  {
  }

  lemma SearchStep(scores: seq<int>, i: nat, next: nat)
    requires i < |scores| && next == i + 1
    ensures var p := Search(scores, i);
      Search(scores, next) == if scores[i] < p.best then Best(i, scores[i]) else p
  {
  }

  /** The mask finish applies: the chosen one, or the search result. */
  ghost function SelectedMask(b: seq<bool>, width: nat, variant: Variant, m: seq<bool>, chosenMask: Option<MaskId>): MaskId
    requires |b| == width * width
  {
    match chosenMask
    case Some(c) => c
    case None =>
      var s := Scores(b, width, variant, m);
      SearchFindsFirstMinimum(s, 8);
      Search(s, 8).bit
  }

  /** A searched mask has the lowest badness of the eight whenever some mask
      scores below 30000, and no earlier mask scores as low. */
  lemma {:induction false} SelectedMaskIsBest(b: seq<bool>, width: nat, variant: Variant, m: seq<bool>)
    requires |b| == width * width
    ensures var sel := SelectedMask(b, width, variant, m, None);
      var s := Scores(b, width, variant, m);
      (exists k | 0 <= k < 8 :: s[k] < 30000) ==>
        (forall k | 0 <= k < 8 :: s[sel] <= s[k]) && (forall k | 0 <= k < sel :: s[sel] < s[k])
  {
    var s := Scores(b, width, variant, m);
    SearchFindsFirstMinimum(s, 8);
  }

  // ---------------------------------------------------------------------------
  // The format word

  /** Bit i of a format word, read by shifting right i times and testing bit 0. */
  predicate Bit(word: int, i: nat)
    decreases i
  {
    if i == 0 then word % 2 == 1 else Bit(word / 2, i - 1)
  }

  /** The cell of format bit i in the copy beside the top-left finder: up column 8
      (skipping the timing row 6), then leftwards along row 8 (skipping column 6). */
  function FirstCell(i: nat): (int, int) {
    if i < 6 then (8, i)
    else if i < 8 then (8, i + 1)
    else if i == 8 then (7, 8)
    else (14 - i, 8)
  }

  /** The cell of format bit i in the second copy: along row 8 below the top-right
      finder, then down column 8 beside the bottom-left finder. */
  function SecondCell(width: int, i: nat): (int, int) {
    if i < 8 then (width - 1 - i, 8)
    else (8, width - 15 + i)
  }

  function Index(width: int, c: (int, int)): int {
    c.0 + width * c.1
  }

  /** Cell k is dark (a read outside the buffer is light). */
  predicate Dark(b: seq<bool>, k: int) {
    0 <= k < |b| && b[k]
  }

  /** `buffer[k] = 1`; a write outside the buffer is dropped. */
  function Mark(b: seq<bool>, k: int): (r: seq<bool>)
    ensures |r| == |b|
  {
    if 0 <= k < |b| then b[k := true] else b
  }

  /** One format bit: both cells are set when the bit is 1. */
  function PutBit(b: seq<bool>, width: int, i: nat, on: bool): (r: seq<bool>)
    ensures |r| == |b|
  {
    if on then Mark(Mark(b, Index(width, SecondCell(width, i))), Index(width, FirstCell(i))) else b
  }

  /** Bits i .. 14 of the word, where `word` has already been shifted right i
      times. */
  function Format(b: seq<bool>, width: int, word: int, i: nat): (r: seq<bool>)
    requires i <= 15
    ensures |r| == |b|
    decreases 15 - i
  {
    if i == 15 then b else Format(PutBit(b, width, i, word % 2 == 1), width, word / 2, i + 1)
  }

  /** Bit i of the word is in one of its two cells. */
  ghost predicate FormatCell(width: int, word: int, j: nat, k: int) {
    exists i | j <= i < 15 :: Bit(word, i - j) &&
      (k == Index(width, FirstCell(i)) || k == Index(width, SecondCell(width, i)))
  }

  /** Writing the format only sets cells: afterwards a cell is dark exactly when
      it was dark before or it holds a 1 bit of the word. */
  lemma {:induction false} FormatSets(b: seq<bool>, width: int, word: int, j: nat)
    requires j <= 15
    ensures forall k | 0 <= k < |b| :: Format(b, width, word, j)[k] == (b[k] || FormatCell(width, word, j, k))
    decreases 15 - j
  {
    if j < 15 {
      var b' := PutBit(b, width, j, word % 2 == 1);
      FormatSets(b', width, word / 2, j + 1);
      forall k | 0 <= k < |b|
        ensures Format(b, width, word, j)[k] == (b[k] || FormatCell(width, word, j, k))
      {
        var here := k == Index(width, FirstCell(j)) || k == Index(width, SecondCell(width, j));
        assert b'[k] == (b[k] || (word % 2 == 1 && here));
        if FormatCell(width, word / 2, j + 1, k) {
          var i :| j + 1 <= i < 15 && Bit(word / 2, i - (j + 1)) &&
            (k == Index(width, FirstCell(i)) || k == Index(width, SecondCell(width, i)));
          assert Bit(word, i - j);
        }
        if word % 2 == 1 && here {
          assert Bit(word, j - j);
        }
        if FormatCell(width, word, j, k) {
          var i :| j <= i < 15 && Bit(word, i - j) &&
            (k == Index(width, FirstCell(i)) || k == Index(width, SecondCell(width, i)));
          if i > j {
            assert Bit(word / 2, i - (j + 1));
          }
        }
      }
    }
  }

  /** The 30 format cells are inside the grid and pairwise distinct. */
  lemma {:induction false} FormatCellsDistinct(width: int, i: nat, j: nat)
    requires 17 <= width && i < 15 && j < 15
    ensures 0 <= Index(width, FirstCell(i)) < width * width
    ensures 0 <= Index(width, SecondCell(width, i)) < width * width
    ensures Index(width, FirstCell(i)) != Index(width, SecondCell(width, j))
    ensures i != j ==> Index(width, FirstCell(i)) != Index(width, FirstCell(j))
    ensures i != j ==> Index(width, SecondCell(width, i)) != Index(width, SecondCell(width, j))
  {
    var a, b, c, d := FirstCell(i), SecondCell(width, i), FirstCell(j), SecondCell(width, j);
    IdxInGrid(width, a.0, a.1);
    IdxInGrid(width, b.0, b.1);
    IdxCoords(width, a.0, a.1);
    IdxCoords(width, b.0, b.1);
    IdxCoords(width, c.0, c.1);
    IdxCoords(width, d.0, d.1);
  }

  /** Round trip: when the format cells start light, each copy reads back the
      word, bit by bit. */
  lemma {:induction false} FormatRoundTrip(b: seq<bool>, width: int, word: int, i: nat)
    requires 17 <= width && |b| == width * width && i < 15
    requires forall n | 0 <= n < 15 :: !Dark(b, Index(width, FirstCell(n))) && !Dark(b, Index(width, SecondCell(width, n)))
    ensures Dark(Format(b, width, word, 0), Index(width, FirstCell(i))) == Bit(word, i)
    ensures Dark(Format(b, width, word, 0), Index(width, SecondCell(width, i))) == Bit(word, i)
  {
    FormatSets(b, width, word, 0);
    FormatCellsDistinct(width, i, i);
    var k1, k2 := Index(width, FirstCell(i)), Index(width, SecondCell(width, i));
    assert !Dark(b, k1) && !Dark(b, k2);
    if FormatCell(width, word, 0, k1) {
      var n :| 0 <= n < 15 && Bit(word, n - 0) &&
        (k1 == Index(width, FirstCell(n)) || k1 == Index(width, SecondCell(width, n)));
      FormatCellsDistinct(width, i, n);
      FormatCellsDistinct(width, n, i);
    }
    if FormatCell(width, word, 0, k2) {
      var n :| 0 <= n < 15 && Bit(word, n - 0) &&
        (k2 == Index(width, FirstCell(n)) || k2 == Index(width, SecondCell(width, n)));
      FormatCellsDistinct(width, i, n);
      FormatCellsDistinct(width, n, i);
    }
    if Bit(word, i) {
      assert FormatCell(width, word, 0, k1);
      assert FormatCell(width, word, 0, k2);
    }
  }

  /** The format word of a level and a mask: FINAL_FORMAT[mask + ((level - 1) << 3)]. */
  function FormatWord(t: Tables, level: Level, mask: MaskId): int
    requires WellFormed(t)
  {
    t.finalFormat[mask + (level - 1) * 8]
  }

  /** What finish leaves: the selected mask applied, then the format word written. */
  ghost function Finished(b: seq<bool>, width: nat, variant: Variant, m: seq<bool>, level: Level,
                          chosenMask: Option<MaskId>, t: Tables): seq<bool>
    requires |b| == width * width && WellFormed(t)
  {
    var sel := SelectedMask(b, width, variant, m, chosenMask);
    Format(Masked(b, width, PatternsOf(variant), sel, m), width, FormatWord(t, level, sel), 0)
  }

  // ---------------------------------------------------------------------------
  // The methods

  /** The two format loops: the low byte (bits 0 .. 7), then the high byte
      (bits 8 .. 14), shifting the word right after every bit. */
  method PlaceFormat(buffer: array<bool>, width: int, word: int)
    modifies buffer
    ensures buffer[..] == Format(old(buffer[..]), width, word, 0)
  {
    ghost var b0 := buffer[..];
    var w := word;
    var i := 0;
    while i < 8
      invariant 0 <= i <= 8
      invariant Format(buffer[..], width, w, i) == Format(b0, width, word, 0)
    {
      var next := i + 1;
      FormatStep(buffer[..], width, w, i, next);
      PutLowBit(buffer, width, w, i);
      w := w / 2;
      i := next;
    }
    i := 0;
    ghost var j := 8;
    while i < 7
      invariant 0 <= i <= 7 && j == i + 8
      invariant Format(buffer[..], width, w, j) == Format(b0, width, word, 0)
    {
      var next := j + 1;
      FormatStep(buffer[..], width, w, j, next);
      PutHighBit(buffer, width, w, i, j);
      w := w / 2;
      i := i + 1;
      j := next;
    }
  }

  lemma FormatStep(b: seq<bool>, width: int, w: int, i: nat, next: nat)
    requires i < 15 && next == i + 1
    ensures Format(b, width, w, i) == Format(PutBit(b, width, i, w % 2 == 1), width, w / 2, next)
  {
  }

  /** The body of the first format loop: bit i < 8 of the word. */
  method PutLowBit(buffer: array<bool>, width: int, w: int, i: nat)
    requires i < 8
    modifies buffer
    ensures buffer[..] == PutBit(old(buffer[..]), width, i, w % 2 == 1)
  {
    if w % 2 == 1 {
      Set(buffer, width - 1 - i + width * 8);
      if i < 6 {
        Set(buffer, 8 + width * i);
      } else {
        Set(buffer, 8 + width * (i + 1));
      }
    }
  }

  /** The body of the second format loop: bit j = i + 8 of the word. */
  method PutHighBit(buffer: array<bool>, width: int, w: int, i: nat, ghost j: nat)
    requires i < 7 && j == i + 8
    modifies buffer
    ensures buffer[..] == PutBit(old(buffer[..]), width, j, w % 2 == 1)
  {
    if w % 2 == 1 {
      Set(buffer, 8 + width * (width - 7 + i));
      if i != 0 {
        Set(buffer, 6 - i + width * 8);
      } else {
        Set(buffer, 7 + width * 8);
      }
    }
  }

  /** `buffer[k] = 1`, dropped when k is outside the buffer. */
  method Set(buffer: array<bool>, k: int)
    modifies buffer
    ensures buffer[..] == Mark(old(buffer[..]), k)
  {
    if 0 <= k < buffer.Length {
      buffer[k] := true;
    }
  }

  /** `new Uint8Array(buffer)`: a fresh copy. */
  method Copy(buffer: array<bool>) returns (r: array<bool>)
    ensures fresh(r) && r[..] == buffer[..]
  {
    r := new bool[buffer.Length];
    for k := 0 to buffer.Length
      invariant r[..k] == buffer[..k]
    {
      r[k] := buffer[k];
    }
    assert r[..] == r[..buffer.Length];
  }

  /** applyMask of the copy in question. */
  method ApplyMaskOf(variant: Variant, width: nat, buffer: array<bool>, mask: MaskId, currentMask: array<bool>)
    requires buffer.Length == width * width && buffer != currentMask
    modifies buffer
    ensures buffer[..] == Masked(old(buffer[..]), width, PatternsOf(variant), mask, currentMask[..])
  {
    if variant == Newer {
      ApplyMask(width, buffer, mask, currentMask);
    } else {
      ApplyMaskExported(width, buffer, mask, currentMask);
    }
  }

  /** One pass of the search: mask the frame and keep the mask when its badness
      is below the best so far. */
  method TryMask(variant: Variant, width: nat, buffer: array<bool>, mask: MaskId, currentMask: array<bool>,
                 bit0: MaskId, best0: int) returns (bit: MaskId, best: int)
    requires buffer.Length == width * width && buffer != currentMask
    modifies buffer
    ensures buffer[..] == Masked(old(buffer[..]), width, PatternsOf(variant), mask, currentMask[..])
    ensures var score := Score(buffer[..], width, variant);
      if score < best0 then bit == mask && best == score else bit == bit0 && best == best0
  {
    ApplyMaskOf(variant, width, buffer, mask, currentMask);
    var score := CheckBadness(buffer, width, variant);
    bit, best := bit0, best0;
    if score < best {
      best := score;
      bit := mask;
    }
  }

  /** The search loop of finish: try masks 0 .. 7 on copies of the unmasked
      frame, keep the first with the lowest badness below 30000, and leave the
      frame masked with it (mask 7 is not redone when it wins last). */
  method SearchMask(variant: Variant, width: nat, buffer: array<bool>, tempBuffer: array<bool>,
                    currentMask: array<bool>) returns (bit: MaskId, r: array<bool>)
    requires buffer.Length == width * width && tempBuffer.Length == width * width
    requires buffer[..] == tempBuffer[..]
    requires buffer != currentMask && tempBuffer != currentMask && buffer != tempBuffer
    modifies buffer
    ensures r == buffer || fresh(r)
    ensures bit == Search(Scores(tempBuffer[..], width, variant, currentMask[..]), 8).bit
    ensures r[..] == Masked(tempBuffer[..], width, PatternsOf(variant), bit, currentMask[..])
  {
    ghost var t0, m0 := tempBuffer[..], currentMask[..];
    ghost var scores := Scores(t0, width, variant, m0);
    bit := 0;
    var best := 30000;
    r := buffer;
    var i := 0;
    while i < 8
      invariant 0 <= i <= 8 && bit <= i
      invariant Best(bit, best) == Search(scores, i)
      invariant r == buffer || fresh(r)
      invariant r != currentMask && r != tempBuffer && r.Length == width * width
      invariant r[..] == t0 && tempBuffer[..] == t0 && currentMask[..] == m0
    {
      ScoresAt(t0, width, variant, m0, i);
      var next := i + 1;
      bit, best := TryMask(variant, width, r, i, currentMask, bit, best);
      SearchStep(scores, i, next);
      if bit == 7 {
        break;
      }
      r := Copy(tempBuffer);
      i := next;
    }
    if bit != i {
      ApplyMaskOf(variant, width, r, bit, currentMask);
    }
  }

  /** The mask half of finish: search (or take the chosen mask) and apply it. */
  method SelectMask(variant: Variant, chosenMask: Option<MaskId>, buffer: array<bool>, width: nat,
                    currentMask: array<bool>) returns (bit: MaskId, r: array<bool>)
    requires buffer.Length == width * width && buffer != currentMask
    modifies buffer
    ensures r == buffer || fresh(r)
    ensures bit == SelectedMask(old(buffer[..]), width, variant, currentMask[..], chosenMask)
    ensures r[..] == Masked(old(buffer[..]), width, PatternsOf(variant), bit, currentMask[..])
  {
    var tempBuffer := Copy(buffer);
    if chosenMask.None? {
      bit, r := SearchMask(variant, width, buffer, tempBuffer, currentMask);
    } else {
      bit := chosenMask.value;
      r := buffer;
      ApplyMaskOf(variant, width, r, bit, currentMask);
    }
  }

  /** finish: select and apply the mask, then write the format word.  The
      exported copy has no mask override. */
  method Finish(level: Level, variant: Variant, chosenMask: Option<MaskId>, buffer: array<bool>,
                width: nat, currentMask: array<bool>, t: Tables) returns (r: array<bool>)
    requires buffer.Length == width * width && buffer != currentMask && WellFormed(t)
    requires variant == Exported ==> chosenMask == None
    modifies buffer
    ensures r == buffer || fresh(r)
    ensures r[..] == Finished(old(buffer[..]), width, variant, currentMask[..], level, chosenMask, t)
  {
    var bit;
    bit, r := SelectMask(variant, chosenMask, buffer, width, currentMask);
    ghost var m := currentMask[..];
    ghost var masked := r[..];
    PlaceFormat(r, width, t.finalFormat[bit + (level - 1) * 8]);
    assert currentMask[..] == m;
    assert r[..] == Format(masked, width, FormatWord(t, level, bit), 0);
  }
}
