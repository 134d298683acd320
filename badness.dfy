/** Mask evaluation: the penalty score of a finished symbol.  Both copies share
    the scoring code; they differ only in the array that holds the run lengths
    of a line (a `Uint8Array(width)` in src/Frame.ts, a growing `number[]` that
    the exported copy threads through every call).  Reads past the end of that
    array are `undefined`, which the model keeps as `None`. */
module Badness {
  import opened Tables
  import opened Reserved

  /** Penalty weights: long runs, 2x2 blocks, finder-like runs, imbalance. */
  const N1: int := 3
  const N2: int := 3
  const N3: int := 40
  const N4: int := 10

  // ---------------------------------------------------------------------------
  // getBadness: scoring one line from its run lengths

  /** `badness[i]` as JavaScript reads it: undefined outside the array. */
  function At(badness: seq<int>, i: int): Option<int> {
    if 0 <= i < |badness| then Some(badness[i]) else None
  }

  /** `a * 3 === b`: an undefined operand makes NaN, which equals nothing. */
  predicate Thrice(a: Option<int>, b: Option<int>) {
    a.Some? && b.Some? && a.value * 3 == b.value
  }

  /** `a * 3 >= b * 4`: false when either operand is undefined. */
  predicate Outweighs(a: Option<int>, b: Option<int>) {
    a.Some? && b.Some? && a.value * 3 >= b.value * 4
  }

  /** What the first loop charges for one entry: N1 plus the excess over five. */
  function LongRun(v: Option<int>): (p: int)
    ensures 0 <= p
    ensures p != 0 <==> v.Some? && v.value >= 5
  {
    if v.Some? && v.value >= 5 then N1 + v.value - 5 else 0
  }

  /** The first loop's total over entries 0 .. n-1. */
  function LongRuns(badness: seq<int>, n: int): (r: int)
    ensures 0 <= r
    decreases n
  {
    if n <= 0 then 0 else LongRuns(badness, n - 1) + LongRun(At(badness, n - 1))
  }

  /** The finder-like test at index i: runs i-2 .. i+2 in ratio 1:1:3:1:1, with an
      empty run, the end of the line, or a run of four thirds of the centre on
      one side. */
  predicate FinderAt(badness: seq<int>, length: int, i: int) {
    At(badness, i - 2) == At(badness, i + 2) &&
    At(badness, i + 2) == At(badness, i - 1) &&
    At(badness, i - 1) == At(badness, i + 1) &&
    Thrice(At(badness, i - 1), At(badness, i)) &&
    (At(badness, i - 3) == Some(0) || i + 3 > length ||
     Outweighs(At(badness, i - 3), At(badness, i)) ||
     Outweighs(At(badness, i + 3), At(badness, i)))
  }

  /** The second loop's total: N3 for each finder-like index i, i + 2, ... below length - 1. */
  function Finders(badness: seq<int>, length: int, i: int): (r: int)
    ensures 0 <= r
    decreases length - i
  {
    if i >= length - 1 then 0
    else (if FinderAt(badness, length, i) then N3 else 0) + Finders(badness, length, i + 2)
  }

  /** getBadness(length, badness). */
  function Badness(length: int, badness: seq<int>): int {
    LongRuns(badness, length + 1) + Finders(badness, length, 3)
  }

  /** Only entries 0 .. length are ever read. */
  lemma {:induction false} LongRunsLocal(s: seq<int>, t: seq<int>, n: int)
    requires forall k | 0 <= k < n :: At(s, k) == At(t, k)
    ensures LongRuns(s, n) == LongRuns(t, n)
    decreases n
  {
    if n > 0 {
      LongRunsLocal(s, t, n - 1);
      assert At(s, n - 1) == At(t, n - 1);
    }
  }

  lemma {:induction false} FindersLocal(s: seq<int>, t: seq<int>, length: int, i: int)
    requires 3 <= i
    requires forall k | 0 <= k <= length :: At(s, k) == At(t, k)
    ensures Finders(s, length, i) == Finders(t, length, i)
    decreases length - i
  {
    if i < length - 1 {
      FindersLocal(s, t, length, i + 2);
      assert At(s, i - 3) == At(t, i - 3) && At(s, i - 2) == At(t, i - 2);
      assert At(s, i - 1) == At(t, i - 1) && At(s, i) == At(t, i);
      assert At(s, i + 1) == At(t, i + 1) && At(s, i + 2) == At(t, i + 2);
      assert i + 3 <= length ==> At(s, i + 3) == At(t, i + 3);
      assert FinderAt(s, length, i) == FinderAt(t, length, i);
    }
  }

  /** The score of a line depends only on the entries 0 .. length of its array. */
  lemma {:induction false} BadnessLocal(length: int, s: seq<int>, t: seq<int>)
    requires forall k | 0 <= k <= length :: At(s, k) == At(t, k)
    ensures Badness(length, s) == Badness(length, t)
  {
    LongRunsLocal(s, t, length + 1);
    FindersLocal(s, t, length, 3);
  }

  /** The long-run penalty is zero exactly when no entry reaches five. */
  lemma {:induction false} LongRunsZero(s: seq<int>, n: int)
    ensures LongRuns(s, n) == 0 <==> forall k | 0 <= k < n :: !(At(s, k).Some? && At(s, k).value >= 5)
    decreases n
  {
    if n > 0 {
      LongRunsZero(s, n - 1);
    }
  }

  // ---------------------------------------------------------------------------
  // Run lengths of a line

  /** Colour of the k-th entry: entry 0 is a light run (empty when the line starts
      dark), and the colours alternate, so odd entries are dark runs. */
  predicate RunColour(k: int) {
    k % 2 == 1
  }

  lemma {:induction false} ColourAlternates(k: int)
    ensures RunColour(k + 1) == !RunColour(k)
  {
  }

  /** The scan's `b` after a prefix: the last cell, light before any cell. */
  function LastCell(line: seq<bool>): bool {
    if |line| == 0 then false else line[|line| - 1]
  }

  /** The scan's step for one cell: a cell of the previous cell's colour
      lengthens the last run, another colour opens a run of one. */
  function Extend(r: seq<int>, last: bool, c: bool): seq<int>
    requires 1 <= |r|
  {
    if c == last then r[..|r| - 1] + [r[|r| - 1] + 1] else r + [1]
  }

  /** The run-length array the scan leaves for a line: one entry per maximal run
      of one colour, after a leading light entry. */
  function Runs(line: seq<bool>): (r: seq<int>)
    ensures 1 <= |r| <= |line| + 1
    ensures r[0] >= 0
    decreases |line|
  {
    if |line| == 0 then [0]
    else
      var p := line[..|line| - 1];
      ExtendFront(Runs(p), LastCell(p), line[|line| - 1]);
      Extend(Runs(p), LastCell(p), line[|line| - 1])
  }

  /** A step adds at most one entry and never shortens the leading light run. */
  lemma ExtendFront(r: seq<int>, last: bool, c: bool)
    requires 1 <= |r|
    ensures |r| <= |Extend(r, last, c)| <= |r| + 1
    ensures Extend(r, last, c)[0] >= r[0]
  {
    if c == last && |r| > 1 {
      assert Extend(r, last, c)[0] == r[..|r| - 1][0];
    }
  }

  function Repeat(c: bool, n: int): (s: seq<bool>)
    ensures |s| == if n < 0 then 0 else n
    decreases n
  {
    if n <= 0 then [] else Repeat(c, n - 1) + [c]
  }

  /** The line a run-length array describes: its runs laid out in alternating colours. */
  function Expand(runs: seq<int>): seq<bool>
    decreases |runs|
  {
    if |runs| == 0 then []
    else Expand(runs[..|runs| - 1]) + Repeat(RunColour(|runs| - 1), runs[|runs| - 1])
  }

  /** One more cell of the last run's colour lengthens the last run. */
  lemma {:induction false} ExpandLonger(r: seq<int>)
    requires 1 <= |r| && 0 <= r[|r| - 1]
    ensures Expand(r[..|r| - 1] + [r[|r| - 1] + 1]) == Expand(r) + [RunColour(|r| - 1)]
  {
    var n := |r|;
    var c := RunColour(n - 1);
    var q := r[..n - 1] + [r[n - 1] + 1];
    ExpandLast(q);
    ExpandLast(r);
    assert q[..n - 1] == r[..n - 1];
    var front := Expand(r[..n - 1]);
    var run := Repeat(c, r[n - 1]);
    assert Repeat(c, r[n - 1] + 1) == run + [c];
    assert front + (run + [c]) == (front + run) + [c];
  }

  lemma {:induction false} ExpandLast(r: seq<int>)
    requires 1 <= |r|
    ensures Expand(r) == Expand(r[..|r| - 1]) + Repeat(RunColour(|r| - 1), r[|r| - 1])
  {
  }

  /** A cell of the other colour opens a run of one. */
  lemma {:induction false} ExpandNewRun(r: seq<int>)
    ensures Expand(r + [1]) == Expand(r) + [RunColour(|r|)]
  {
    assert (r + [1])[..|r|] == r;
    assert Repeat(RunColour(|r|), 1) == [RunColour(|r|)];
  }

  /** The scan's step keeps the run array describing the cells seen so far. */
  lemma {:induction false} ExtendExpand(r: seq<int>, last: bool, c: bool)
    requires 1 <= |r| && 0 <= r[|r| - 1] && RunColour(|r| - 1) == last
    ensures Expand(Extend(r, last, c)) == Expand(r) + [c]
    ensures RunColour(|Extend(r, last, c)| - 1) == c
  {
    if c == last {
      ExpandLonger(r);
    } else {
      ExpandNewRun(r);
      ColourAlternates(|r| - 1);
    }
  }

  /** How the run array of a line grows by one cell. */
  lemma {:induction false} RunsStep(line: seq<bool>, i: int, next: int)
    requires 0 <= i < |line| && next == i + 1
    ensures Runs(line[..next]) == Extend(Runs(line[..i]), LastCell(line[..i]), line[i])
    ensures LastCell(line[..next]) == line[i]
  {
    assert line[..next][..i] == line[..i];
  }

  lemma SplitLast(line: seq<bool>)
    requires 0 < |line|
    ensures line[..|line| - 1] + [line[|line| - 1]] == line
    ensures LastCell(line) == line[|line| - 1]
  {
  }

  /** The run lengths describe the line exactly, and the last entry has the
      colour of the last cell. */
  lemma {:induction false} RunsRoundTrip(line: seq<bool>)
    ensures Expand(Runs(line)) == line
    ensures RunColour(|Runs(line)| - 1) == LastCell(line)
    decreases |line|
  {
    if |line| == 0 {
      assert Runs(line) == [0];
      assert Expand([0]) == Expand([]) + Repeat(false, 0);
    } else {
      var p := line[..|line| - 1];
      var c := line[|line| - 1];
      RunsRoundTrip(p);
      LastRunNonNegative(p);
      RoundTripStep(line, p, c, Runs(p));
      assert Runs(line) == Extend(Runs(p), LastCell(p), c);
    }
  }

  /** The inductive step of the round trip: one more cell. */
  lemma {:induction false} RoundTripStep(line: seq<bool>, p: seq<bool>, c: bool, rp: seq<int>)
    requires 0 < |line| && p == line[..|line| - 1] && c == line[|line| - 1]
    requires 1 <= |rp| && 0 <= rp[|rp| - 1]
    requires Expand(rp) == p && RunColour(|rp| - 1) == LastCell(p)
    ensures Expand(Extend(rp, LastCell(p), c)) == line
    ensures RunColour(|Extend(rp, LastCell(p), c)| - 1) == LastCell(line)
  {
    ExtendExpand(rp, LastCell(p), c);
    SplitLast(line);
  }

  /** Every run after the leading light entry holds at least one cell. */
  lemma {:induction false} RunsPositive(line: seq<bool>)
    ensures forall k | 1 <= k < |Runs(line)| :: Runs(line)[k] >= 1
    decreases |line|
  {
    if |line| > 0 {
      var p := line[..|line| - 1];
      RunsPositive(p);
    }
  }

  lemma LastRunNonNegative(line: seq<bool>)
    ensures 0 <= Runs(line)[|Runs(line)| - 1]
  {
    var r := Runs(line);
    if |r| > 1 {
      RunsPositive(line);
      assert r[|r| - 1] >= 1;
    }
  }

  /** A line with as many runs as cells is all single cells after the empty light entry. */
  lemma {:induction false} FullRunsAreSingles(line: seq<bool>)
    requires |Runs(line)| == |line| + 1
    ensures forall k | 1 <= k < |Runs(line)| :: Runs(line)[k] == 1
    decreases |line|
  {
    if |line| > 0 {
      var p := line[..|line| - 1];
      var r := Runs(p);
      if line[|line| - 1] != LastCell(p) {
        assert Runs(line) == r + [1];
        FullRunsAreSingles(p);
      }
    }
  }

  // ---------------------------------------------------------------------------
  // The two run arrays

  /** Entries the run array can hold: `new Uint8Array(width)` in the newer copy;
      the exported copy's `number[]` grows, and a line never has more than
      width + 1 entries. */
  function Capacity(variant: Variant, width: nat): nat {
    if variant == Newer then width else width + 1
  }

  /** The run array as read after a scan: entries that did not fit were dropped. */
  function Visible(runs: seq<int>, cap: nat): seq<int> {
    if |runs| <= cap then runs else runs[..cap]
  }

  /** getBadness(h, badness) for the run array `runs` held in `cap` entries. */
  function RunsBadness(runs: seq<int>, cap: nat): int {
    if |runs| == 0 then 0 else Badness(|runs| - 1, Visible(runs, cap))
  }

  /** getBadness(h, badness) after scanning `line` into an array of `cap` entries. */
  function LineBadness(line: seq<bool>, cap: nat): int {
    RunsBadness(Runs(line), cap)
  }

  lemma {:induction false} FindersOnSingles(s: seq<int>, length: int, i: int)
    requires 2 <= i
    requires forall k | 1 <= k < length :: At(s, k) == Some(1)
    ensures Finders(s, length, i) == 0
    decreases length - i
  {
    if i < length - 1 {
      FindersOnSingles(s, length, i + 2);
      assert At(s, i - 1) == Some(1) && At(s, i) == Some(1);
      assert !FinderAt(s, length, i);
    }
  }

  /** The newer copy drops the last entry of a line whose every cell is its own
      run, but such a line scores the same either way: a line scores the same
      with both run arrays. */
  lemma {:induction false} LineCapacity(line: seq<bool>, width: nat)
    requires |line| == width
    ensures LineBadness(line, width) == LineBadness(line, width + 1)
  {
    var runs := Runs(line);
    var h := |runs| - 1;
    if |runs| == |line| + 1 {
      FullRunsAreSingles(line);
      var s := Visible(runs, |line|);
      var t := Visible(runs, |line| + 1);
      assert t == runs;
      assert forall k | 0 <= k < h :: At(s, k) == At(t, k);
      LongRunsLocal(s, t, h);
      if h == 0 {
        assert runs == [0];
      }
      assert At(s, h) == None && LongRun(At(t, h)) == 0;
      assert LongRuns(s, h + 1) == LongRuns(t, h + 1);
      assert forall k | 1 <= k < h :: At(t, k) == Some(1);
      assert forall k | 1 <= k < h :: At(s, k) == Some(1);
      FindersOnSingles(s, h, 3);
      FindersOnSingles(t, h, 3);
    } else {
      assert Visible(runs, |line|) == runs == Visible(runs, |line| + 1);
    }
  }

  // ---------------------------------------------------------------------------
  // checkBadness: scoring a whole symbol

  /** Cell (x, y) of the buffer, `buffer[x + width * y]`. */
  function Cell(b: seq<bool>, width: nat, x: int, y: int): bool
    requires |b| == width * width && InGrid(width, x, y)
  {
    IdxInGrid(width, x, y);
    b[x + width * y]
  }

  /** The four cells of the 2x2 block with top-left corner (x, y) share one colour. */
  predicate SameColourBlock(b: seq<bool>, width: nat, x: nat, y: nat)
    requires |b| == width * width && x + 1 < width && y + 1 < width
  {
    var c := Cell(b, width, x, y);
    Cell(b, width, x + 1, y) == c && Cell(b, width, x, y + 1) == c && Cell(b, width, x + 1, y + 1) == c
  }

  /** Same-colour blocks with top row y and left column below n. */
  function BlocksInRow(b: seq<bool>, width: nat, y: nat, n: int): nat
    requires |b| == width * width && y + 1 < width && n < width
    decreases n
  {
    if n <= 0 then 0
    else BlocksInRow(b, width, y, n - 1) + (if SameColourBlock(b, width, n - 1, y) then 1 else 0)
  }

  /** Same-colour blocks with top row below n. */
  function Blocks(b: seq<bool>, width: nat, n: int): nat
    requires |b| == width * width && (n <= 0 || n < width)
    decreases n
  {
    if n <= 0 then 0 else Blocks(b, width, n - 1) + BlocksInRow(b, width, n - 1, width - 1)
  }

  /** Dark cells minus light cells among the first n of the buffer. */
  function Balance(b: seq<bool>, n: int): int
    requires n <= |b|
    decreases n
  {
    if n <= 0 then 0 else Balance(b, n - 1) + (if b[n - 1] then 1 else -1)
  }

  lemma {:induction false} BalanceStep(b: seq<bool>, i: int, next: int)
    requires 0 <= i < |b| && next == i + 1
    ensures Balance(b, next) == Balance(b, i) + (if b[i] then 1 else -1)
  {
  }

  /** The balance counts dark cells against light ones. */
  lemma {:induction false} BalanceCountsDark(b: seq<bool>, n: nat)
    requires n <= |b|
    ensures Balance(b, n) == 2 * multiset(b[..n])[true] - n
    decreases n
  {
    if n > 0 {
      BalanceCountsDark(b, n - 1);
      assert b[..n] == b[..n - 1] + [b[n - 1]];
    }
  }

  /** Row y contributes its own balance to the running total over the buffer. */
  lemma {:induction false} RowBalance(b: seq<bool>, width: nat, y: nat, i: nat)
    requires |b| == width * width && y < width && i <= width
    ensures width * y + i <= |b|
    ensures Balance(b, width * y + i) == Balance(b, width * y) + Balance(Line(b, width, y, true), i)
    decreases i
  {
    IdxInGrid(width, width - 1, y);
    if i > 0 {
      RowBalance(b, width, y, i - 1);
      assert Line(b, width, y, true)[i - 1] == b[width * y + i - 1];
    }
  }

  /** The balance of the first n rows, row by row. */
  function RowsBalance(b: seq<bool>, width: nat, n: int): int
    requires |b| == width * width && n <= width
    decreases n
  {
    if n <= 0 then 0 else RowsBalance(b, width, n - 1) + Balance(Line(b, width, n - 1, true), width)
  }

  /** Summing row by row gives the balance of the whole buffer. */
  lemma {:induction false} RowsBalanceTotal(b: seq<bool>, width: nat, n: nat)
    requires |b| == width * width && n <= width
    ensures width * n <= |b| && RowsBalance(b, width, n) == Balance(b, width * n)
    decreases n
  {
    if n > 0 {
      RowsBalanceTotal(b, width, n - 1);
      NextRowStart(b, width, n - 1);
      RowBalance(b, width, n - 1, width);
    }
  }

  lemma {:induction false} NextRowStart(b: seq<bool>, width: nat, y: nat)
    requires y < width && |b| == width * width
    ensures width * y + width == width * (y + 1) <= |b|
  {
    MulMonotone(width, y + 1, width);
  }

  /** The number of times the final loop subtracts `unit` from `big`. */
  function Steps(big: int, unit: int): nat
    requires 0 < unit || big <= unit
    decreases big
  {
    if big <= unit then 0 else 1 + Steps(big - unit, unit)
  }

  /** The imbalance count is the number of whole units strictly below `big`:
      ceil(big / unit) - 1. */
  lemma {:induction false} StepsBounds(big: int, unit: int)
    requires 0 < unit && 0 < big
    ensures Steps(big, unit) * unit < big <= Steps(big, unit) * unit + unit
    decreases big
  {
    if big > unit {
      StepsBounds(big - unit, unit);
      var s := Steps(big - unit, unit);
      assert (s + 1) * unit == s * unit + unit;
    }
  }

  function Abs(v: int): nat {
    if v < 0 then -v else v
  }

  /** Row `fixed` (horizontal) or column `fixed` of the buffer. */
  function Line(b: seq<bool>, width: nat, fixed: nat, horizontal: bool): seq<bool>
    requires |b| == width * width && fixed < width
  {
    seq(width, j requires 0 <= j < width =>
      if horizontal then Cell(b, width, j, fixed) else Cell(b, width, fixed, j))
  }

  /** Cell i of a line, and where the buffer holds it. */
  lemma {:induction false} LineAt(b: seq<bool>, width: nat, fixed: nat, horizontal: bool, i: nat)
    requires |b| == width * width && fixed < width && i < width
    ensures horizontal ==> 0 <= i + width * fixed < |b| && Line(b, width, fixed, horizontal)[i] == b[i + width * fixed]
    ensures !horizontal ==> 0 <= fixed + width * i < |b| && Line(b, width, fixed, horizontal)[i] == b[fixed + width * i]
  {
    IdxInGrid(width, i, fixed);
    IdxInGrid(width, fixed, i);
  }

  /** The run penalties of the first n rows (or columns). */
  function LinesBadness(b: seq<bool>, width: nat, cap: nat, horizontal: bool, n: int): int
    requires |b| == width * width && n <= width
    decreases n
  {
    if n <= 0 then 0
    else LinesBadness(b, width, cap, horizontal, n - 1) + LineBadness(Line(b, width, n - 1, horizontal), cap)
  }

  /** checkBadness: same-colour blocks, runs along rows, the dark/light imbalance
      in steps of a tenth of the area, runs along columns. */
  function Score(b: seq<bool>, width: nat, variant: Variant): int
    requires |b| == width * width
  {
    var cap := Capacity(variant, width);
    N2 * Blocks(b, width, width - 1)
    + LinesBadness(b, width, cap, true, width)
    + N4 * Steps(10 * Abs(Balance(b, |b|)), |b|)
    + LinesBadness(b, width, cap, false, width)
  }

  lemma {:induction false} LinesStep(b: seq<bool>, width: nat, cap: nat, horizontal: bool, m: int, next: int)
    requires |b| == width * width && 0 <= m < width && next == m + 1
    ensures LinesBadness(b, width, cap, horizontal, next)
      == LinesBadness(b, width, cap, horizontal, m) + LineBadness(Line(b, width, m, horizontal), cap)
  {
  }

  lemma {:induction false} LinesAgree(b: seq<bool>, width: nat, horizontal: bool, n: int)
    requires |b| == width * width && n <= width
    ensures LinesBadness(b, width, width, horizontal, n) == LinesBadness(b, width, width + 1, horizontal, n)
    decreases n
  {
    if n > 0 {
      var m := n - 1;
      LinesAgree(b, width, horizontal, m);
      LinesAgreeStep(b, width, horizontal, m);
    }
  }

  lemma {:induction false} LinesAgreeStep(b: seq<bool>, width: nat, horizontal: bool, m: int)
    requires |b| == width * width && 0 <= m < width
    requires LinesBadness(b, width, width, horizontal, m) == LinesBadness(b, width, width + 1, horizontal, m)
    ensures LinesBadness(b, width, width, horizontal, m + 1) == LinesBadness(b, width, width + 1, horizontal, m + 1)
  {
    var next := m + 1;
    LinesStep(b, width, width, horizontal, m, next);
    LinesStep(b, width, width + 1, horizontal, m, next);
    LineCapacity(Line(b, width, m, horizontal), width);
  }

  /** Both copies score every symbol the same. */
  lemma {:induction false} ScoreVariantsAgree(b: seq<bool>, width: nat)
    requires |b| == width * width
    ensures Score(b, width, Newer) == Score(b, width, Exported)
  {
    LinesAgree(b, width, true, width);
    LinesAgree(b, width, false, width);
  }

  lemma {:induction false} LinesNonNegative(b: seq<bool>, width: nat, cap: nat, horizontal: bool, n: int)
    requires |b| == width * width && n <= width
    ensures LinesBadness(b, width, cap, horizontal, n) >= 0
    decreases n
  {
    if n > 0 {
      LinesNonNegative(b, width, cap, horizontal, n - 1);
    }
  }

  /** No symbol scores below zero, the best possible score. */
  lemma {:induction false} ScoreNonNegative(b: seq<bool>, width: nat, variant: Variant)
    requires |b| == width * width
    ensures Score(b, width, variant) >= 0
  {
    LinesNonNegative(b, width, Capacity(variant, width), true, width);
    LinesNonNegative(b, width, Capacity(variant, width), false, width);
  }

  // ---------------------------------------------------------------------------
  // The scoring code

  /** `badness[i]` read from the array. */
  function Read(badness: array<int>, i: int): (v: Option<int>)
    reads badness
    ensures v == At(badness[..], i)
  {
    if 0 <= i < badness.Length then Some(badness[i]) else None
  }

  /** getBadness: the two loops over the run array. */
  method GetBadness(length: int, badness: array<int>) returns (badRuns: int)
    ensures badRuns == Badness(length, badness[..])
  {
    badRuns := 0;
    var i := 0;
    while i <= length
      invariant 0 <= i && (length < 0 ==> i == 0) && (0 <= length ==> i <= length + 1)
      invariant badRuns == LongRuns(badness[..], i)
    {
      var v := Read(badness, i);
      if v.Some? && v.value >= 5 {
        badRuns := badRuns + N1 + v.value - 5;
      }
      i := i + 1;
    }
    i := 3;
    while i < length - 1
      invariant 3 <= i
      invariant badRuns + Finders(badness[..], length, i) == Badness(length, badness[..])
      decreases length - i
    {
      if FinderAt(badness[..], length, i) {
        badRuns := badRuns + N3;
      }
      i := i + 2;
    }
  }

  /** The array agrees with `runs` wherever both have an entry. */
  ghost predicate Records(a: seq<int>, runs: seq<int>) {
    forall k | 0 <= k < |runs| && k < |a| :: a[k] == runs[k]
  }

  /** What getBadness reads after a scan is the line's visible run array. */
  lemma {:induction false} RecordedBadness(a: seq<int>, runs: seq<int>)
    requires 1 <= |runs| && Records(a, runs)
    ensures Badness(|runs| - 1, a) == Badness(|runs| - 1, Visible(runs, |a|))
  {
    var v := Visible(runs, |a|);
    forall k | 0 <= k <= |runs| - 1
      ensures At(a, k) == At(v, k)
    {
      if k < |a| {
        assert a[k] == runs[k];
      }
    }
    BadnessLocal(|runs| - 1, a, v);
  }

  /** One cell of the scan: lengthen the current run or open the next one,
      dropping a write past the end of the array. */
  method ScanCell(badness: array<int>, h: int, b: bool, b1: bool, ghost r: seq<int>) returns (h': int)
    requires 1 <= |r| && h == |r| - 1 && Records(badness[..], r)
    modifies badness
    ensures h' == |Extend(r, b, b1)| - 1
    ensures Records(badness[..], Extend(r, b, b1))
  {
    h' := h;
    if b == b1 {
      if h' < badness.Length {
        badness[h'] := badness[h'] + 1;
      }
    } else {
      h' := h' + 1;
      if h' < badness.Length {
        badness[h'] := 1;
      }
    }
  }

  /** One pass of the scan loop: cell i of the line read, recorded in the run
      array and tallied. */
  method ScanStep(buffer: array<bool>, width: nat, fixed: nat, horizontal: bool, badness: array<int>,
                  ghost line: seq<bool>, i: nat, next: nat, h: int, b: bool, bw: int, ghost bw0: int,
                  ghost runs: seq<int>) returns (h': int, b': bool, bw': int)
    requires buffer.Length == width * width && fixed < width && i < width && next == i + 1
    requires line == Line(buffer[..], width, fixed, horizontal)
    requires runs == Runs(line[..i]) && h == |runs| - 1 && Records(badness[..], runs)
    requires b == LastCell(line[..i])
    requires bw == bw0 + if horizontal then Balance(line, i) else 0
    modifies badness
    ensures h' == |Runs(line[..next])| - 1 && Records(badness[..], Runs(line[..next]))
    ensures b' == LastCell(line[..next])
    ensures bw' == bw0 + if horizontal then Balance(line, next) else 0
  {
    LineAt(buffer[..], width, fixed, horizontal, i);
    var b1 := if horizontal then buffer[i + width * fixed] else buffer[fixed + width * i];
    RunsStep(line, i, next);
    BalanceStep(line, i, next);
    h' := ScanCell(badness, h, b, b1, runs);
    b' := b1;
    bw' := bw;
    if horizontal {
      bw' := bw' + (if b' then 1 else -1);
    }
  }

  /** One row (with the dark/light tally) or one column: fills the run array and
      returns the index h of its last entry. */
  method ScanLine(buffer: array<bool>, width: nat, fixed: nat, horizontal: bool,
                  badness: array<int>, bw0: int) returns (h: int, bw: int)
    requires buffer.Length == width * width && fixed < width
    modifies badness
    ensures h == |Runs(Line(buffer[..], width, fixed, horizontal))| - 1
    ensures Records(badness[..], Runs(Line(buffer[..], width, fixed, horizontal)))
    ensures bw == bw0 + if horizontal then Balance(Line(buffer[..], width, fixed, true), width) else 0
  {
    ghost var line := Line(buffer[..], width, fixed, horizontal);
    h := 0;
    if 0 < badness.Length {
      badness[0] := 0;
    }
    bw := bw0;
    var b := false;
    var i := 0;
    ghost var runs := [0];
    assert line[..0] == [];
    while i < width
      invariant 0 <= i <= width
      invariant runs == Runs(line[..i])
      invariant h == |runs| - 1 && Records(badness[..], runs)
      invariant b == LastCell(line[..i])
      invariant bw == bw0 + if horizontal then Balance(line, i) else 0
    {
      var next := i + 1;
      h, b, bw := ScanStep(buffer, width, fixed, horizontal, badness, line, i, next, h, b, bw, bw0, runs);
      runs := Runs(line[..next]);
      i := next;
    }
    assert line[..width] == line;
  }

  /** The same-colour blocks whose top row is y, N2 each. */
  method BlockRow(buffer: array<bool>, width: nat, y: nat, bad0: int) returns (bad: int)
    requires buffer.Length == width * width && y + 1 < width
    ensures bad == bad0 + N2 * BlocksInRow(buffer[..], width, y, width - 1)
  {
    bad := bad0;
    var x := 0;
    while x < width - 1
      invariant 0 <= x <= width - 1
      invariant bad == bad0 + N2 * BlocksInRow(buffer[..], width, y, x)
    {
      if SameColourBlock(buffer[..], width, x, y) {
        bad := bad + N2;
      }
      x := x + 1;
    }
  }

  /** The imbalance loop: how many times `big` exceeds the area. */
  method ImbalanceSteps(big0: int, area: int) returns (count: int)
    requires 0 < area || big0 <= area
    ensures count == Steps(big0, area)
  {
    count := 0;
    var big := big0;
    while big > area
      invariant 0 < area || big <= area
      invariant count + Steps(big, area) == Steps(big0, area)
      decreases big
    {
      big := big - area;
      count := count + 1;
    }
  }

  /** The dark/light imbalance term: the balance made absolute, scaled by ten
      (`big + big * 4`, then doubled) and counted in whole areas. */
  method ImbalancePenalty(bw0: int, area: nat) returns (penalty: int)
    requires 0 < area || bw0 == 0
    ensures penalty == N4 * Steps(10 * Abs(bw0), area)
  {
    var bw := bw0;
    if bw < 0 {
      bw := -bw;
    }
    var big := bw;
    big := big + big * 4;
    big := big * 2;
    var count := ImbalanceSteps(big, area);
    penalty := count * N4;
  }

  /** One line of the run scans: its runs scored by getBadness and added to the total. */
  method ScoreLine(buffer: array<bool>, width: nat, fixed: nat, horizontal: bool,
                   badness: array<int>, bad0: int, bw0: int) returns (bad: int, bw: int)
    requires buffer.Length == width * width && fixed < width
    modifies badness
    ensures bad == bad0 + LineBadness(Line(buffer[..], width, fixed, horizontal), badness.Length)
    ensures bw == bw0 + if horizontal then Balance(Line(buffer[..], width, fixed, true), width) else 0
  {
    var h;
    h, bw := ScanLine(buffer, width, fixed, horizontal, badness, bw0);
    var lineBad := GetBadness(h, badness);
    RecordedBadness(badness[..], Runs(Line(buffer[..], width, fixed, horizontal)));
    bad := bad0 + lineBad;
  }

  /** The 2x2 loop: N2 for every same-colour block. */
  method SameColourBlocks(buffer: array<bool>, width: nat) returns (bad: int)
    requires buffer.Length == width * width
    ensures bad == N2 * Blocks(buffer[..], width, width - 1)
  {
    bad := 0;
    var y := 0;
    while y < width - 1
      invariant 0 <= y && (y <= width - 1 || y == 0)
      invariant bad == N2 * Blocks(buffer[..], width, y)
    {
      bad := BlockRow(buffer, width, y, bad);
      y := y + 1;
    }
  }

  /** The X-runs loop: every row scored, and the dark/light balance of the buffer. */
  method RowRuns(buffer: array<bool>, width: nat, badness: array<int>, bad0: int) returns (bad: int, bw: int)
    requires buffer.Length == width * width
    modifies badness
    ensures bad == bad0 + LinesBadness(buffer[..], width, badness.Length, true, width)
    ensures bw == Balance(buffer[..], buffer.Length)
  {
    ghost var b := buffer[..];
    bad := bad0;
    bw := 0;
    var y := 0;
    while y < width
      invariant 0 <= y <= width
      invariant bad == bad0 + LinesBadness(b, width, badness.Length, true, y)
      invariant bw == RowsBalance(b, width, y)
    {
      bad, bw := ScoreLine(buffer, width, y, true, badness, bad, bw);
      var next := y + 1;
      LinesStep(b, width, badness.Length, true, y, next);
      y := next;
    }
    RowsBalanceTotal(b, width, width);
  }

  /** The Y-runs loop: every column scored. */
  method ColumnRuns(buffer: array<bool>, width: nat, badness: array<int>, bad0: int) returns (bad: int)
    requires buffer.Length == width * width
    modifies badness
    ensures bad == bad0 + LinesBadness(buffer[..], width, badness.Length, false, width)
  {
    ghost var b := buffer[..];
    bad := bad0;
    var x := 0;
    while x < width
      invariant 0 <= x <= width
      invariant bad == bad0 + LinesBadness(b, width, badness.Length, false, x)
    {
      var unused;
      bad, unused := ScoreLine(buffer, width, x, false, badness, bad, 0);
      var next := x + 1;
      LinesStep(b, width, badness.Length, false, x, next);
      x := next;
    }
  }

  /** checkBadness: the penalty score of the symbol in `buffer`.  The run array
      is allocated here for both copies; the exported copy's shared array keeps
      entries from earlier lines, but only entries the current line has written
      are read. */
  method CheckBadness(buffer: array<bool>, width: nat, variant: Variant) returns (bad: int)
    requires buffer.Length == width * width
    ensures bad == Score(buffer[..], width, variant)
  {
    ghost var b := buffer[..];
    var badness := new int[Capacity(variant, width)];
    var blocks := SameColourBlocks(buffer, width);
    var rows, bw := RowRuns(buffer, width, badness, 0);
    var penalty := ImbalancePenalty(bw, width * width);
    var columns := ColumnRuns(buffer, width, badness, 0);
    assert buffer[..] == b;
    bad := blocks + rows + penalty + columns;
    ScoreParts(b, width, variant, blocks, rows, penalty, columns);
  }

  /** The score as the sum `checkBadness` accumulates, term by term. */
  lemma ScoreParts(b: seq<bool>, width: nat, variant: Variant, blocks: int, rows: int, penalty: int, columns: int)
    requires |b| == width * width
    requires blocks == N2 * Blocks(b, width, width - 1)
    requires rows == LinesBadness(b, width, Capacity(variant, width), true, width)
    requires penalty == N4 * Steps(10 * Abs(Balance(b, |b|)), |b|)
    requires columns == LinesBadness(b, width, Capacity(variant, width), false, width)
    ensures blocks + rows + penalty + columns == Score(b, width, variant)
  {
  }
}
