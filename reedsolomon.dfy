/** Reed-Solomon error correction as the engine computes it: the generator
    polynomial built in place from the Galois tables, the shift-register division
    that yields each block's ECC bytes, and the split of the data codewords into
    short and long blocks. */
module ReedSolomon {
  import opened Tables
  import opened Versions

  /** alpha^k for k below 256, read from the exponent table. */
  function Exp(t: Tables, k: int): byte
    requires GaloisTables(t) && 0 <= k < 256
  {
    t.exponent[k]
  }

  /** The log of a field element; 255 stands for the log of 0. */
  function Log(t: Tables, b: byte): (r: int)
    requires GaloisTables(t)
    ensures 0 <= r < 256
  {
    t.log[b]
  }

  lemma ExpLog(t: Tables, k: int)
    requires GaloisTables(t) && LogAntilog(t) && 0 <= k < 255
    ensures Exp(t, k) != 0 && Log(t, Exp(t, k)) == k
  {
    var x := t.exponent[k];
    assert x != 0 && t.log[x] == k;
  }

  lemma LogExp(t: Tables, b: byte)
    requires GaloisTables(t) && LogAntilog(t)
    ensures b == 0 ==> Log(t, b) == 255
    ensures b != 0 ==> Log(t, b) < 255 && Exp(t, Log(t, b)) == b
  {
    var x: int := b;
    if x != 0 {
      assert 1 <= x < 256;
      assert t.exponent[t.log[x]] == x;
    } else {
      assert t.log[0] == 255;
    }
  }

  /** alpha^i, for any i. */
  function AlphaPow(t: Tables, i: nat): byte
    requires GaloisTables(t)
  {
    Exp(t, i % 255)
  }

  /** Multiplication in GF(256) through the log tables. */
  function Mul(t: Tables, a: byte, b: byte): (r: byte)
    requires GaloisTables(t)
    ensures a == 0 || b == 0 ==> r == 0
  {
    if a == 0 || b == 0 then 0 else Exp(t, (Log(t, a) + Log(t, b)) % 255)
  }

  /** p(x) * (x + a), coefficients listed from the constant term up. */
  function TimesLinear(t: Tables, p: seq<byte>, a: byte): (r: seq<byte>)
    requires GaloisTables(t)
    ensures |r| == |p| + 1
  {
    seq(|p| + 1, j => LinearCoefficient(t, p, a, j))
  }

  /** Coefficient j of p(x) * (x + a): p[j-1] + a * p[j], where a missing
      coefficient counts as 0. */
  function LinearCoefficient(t: Tables, p: seq<byte>, a: byte, j: int): byte
    requires GaloisTables(t)
  {
    if j == 0 then (if |p| > 0 then Mul(t, p[0], a) else 0)
    else if 0 < j < |p| then Xor(p[j - 1], Mul(t, p[j], a))
    else if j == |p| then p[j - 1]
    else 0
  }

  /** The generator polynomial (x + alpha^0)(x + alpha^1)...(x + alpha^(n-1)),
      constant term first. */
  function Generator(t: Tables, n: nat): (g: seq<byte>)
    requires GaloisTables(t)
    ensures |g| == n + 1
  {
    if n == 0 then [1] else TimesLinear(t, Generator(t, n - 1), AlphaPow(t, n - 1))
  }

  /** The generator is monic of degree n. */
  lemma {:induction false} GeneratorMonic(t: Tables, n: nat)
    requires GaloisTables(t)
    ensures Generator(t, n)[n] == 1
  {
    if n > 0 {
      GeneratorMonic(t, n - 1);
      assert Generator(t, n)[n] == LinearCoefficient(t, Generator(t, n - 1), AlphaPow(t, n - 1), n);
    }
  }

  /** Multiplying by alpha^i adds i to the log, which is what the engine does
      directly on non-zero coefficients. */
  lemma MulAlpha(t: Tables, c: byte, i: nat)
    requires GaloisTables(t) && LogAntilog(t)
    ensures Mul(t, c, AlphaPow(t, i)) == if c == 0 then 0 else Exp(t, (Log(t, c) + i) % 255)
  {
    ExpLog(t, i % 255);
    var a := AlphaPow(t, i);
    if c != 0 {
      MulNonZero(t, c, a);
      ExpShift(t, Log(t, c), i);
    }
  }

  lemma MulNonZero(t: Tables, c: byte, a: byte)
    requires GaloisTables(t) && c != 0 && a != 0
    ensures Mul(t, c, a) == Exp(t, (Log(t, c) + Log(t, a)) % 255)
  {
  }

  lemma ExpShift(t: Tables, x: nat, i: nat)
    requires GaloisTables(t)
    ensures Exp(t, (x + i % 255) % 255) == Exp(t, (x + i) % 255)
  {
    ModShift(x, i);
  }

  lemma ModShift(x: int, i: nat)
    ensures (x + i % 255) % 255 == (x + i) % 255
  {
  }

  /** Coefficient j of the generator of degree i + 1, from those of degree i. */
  lemma GeneratorStep(t: Tables, i: nat, j: nat)
    requires GaloisTables(t) && j <= i + 1
    ensures Generator(t, i + 1)[j] ==
      if j == 0 then Mul(t, Generator(t, i)[0], AlphaPow(t, i))
      else if j <= i then Xor(Generator(t, i)[j - 1], Mul(t, Generator(t, i)[j], AlphaPow(t, i)))
      else Generator(t, i)[i]
  {
    assert Generator(t, i + 1)[j] == LinearCoefficient(t, Generator(t, i), AlphaPow(t, i), j);
  }

  /** 0 + 1 + ... + (n - 1). */
  function SumBelow(n: nat): (s: nat)
    ensures s == n * (n - 1) / 2
  {
    if n == 0 then 0 else TriangleStep(n); SumBelow(n - 1) + (n - 1)
  }

  lemma TriangleStep(n: nat)
    requires n >= 1
    ensures (n - 1) * (n - 2) / 2 + (n - 1) == n * (n - 1) / 2
  {
    if n >= 2 {
      var m := n - 2;
      assert (m + 2) * (m + 1) == (m + 1) * m + 2 * (m + 1);
    }
  }

  /** The constant term of the generator is alpha^(0 + 1 + ... + (n-1)), in
      particular never zero. */
  lemma {:induction false} GeneratorConstant(t: Tables, n: nat)
    requires GaloisTables(t) && LogAntilog(t)
    ensures Generator(t, n)[0] == AlphaPow(t, SumBelow(n))
    ensures Generator(t, n)[0] != 0
  {
    if n == 0 {
      ExpLog(t, 0);
    } else {
      GeneratorConstant(t, n - 1);
      ConstantStep(t, n - 1, Generator(t, n - 1)[0]);
    }
  }

  lemma ConstantStep(t: Tables, i: nat, c: byte)
    requires GaloisTables(t) && LogAntilog(t)
    requires c == Generator(t, i)[0] == AlphaPow(t, SumBelow(i))
    ensures Generator(t, i + 1)[0] == AlphaPow(t, SumBelow(i + 1))
    ensures Generator(t, i + 1)[0] != 0
  {
    var s := SumBelow(i);
    GeneratorStep(t, i, 0);
    ExpLog(t, s % 255);
    assert c != 0 && Log(t, c) == s % 255;
    MulAlpha(t, c, i);
    ExpShift(t, i, s);
    assert SumBelow(i + 1) == s + i;
    ExpLog(t, (s + i) % 255);
  }

  lemma XorZero(x: byte)
    ensures Xor(0, x) == x && Xor(x, 0) == x
  {
  }

  /** The array after the outer iterations below i: the coefficients of the
      degree-i generator, and the initial 1s above it. */
  ghost predicate PartialGenerator(t: Tables, p: seq<byte>, i: nat)
    requires GaloisTables(t)
  {
    LowCoefficients(p, Generator(t, i))
  }

  /** p agrees with g where g has coefficients and holds 1 above them. */
  ghost predicate LowCoefficients(p: seq<byte>, g: seq<byte>) {
    forall j | 0 <= j < |p| :: p[j] == if j < |g| then g[j] else 1
  }

  /** The engine's update of one coefficient is p[j-1] + p[j] * alpha^i. */
  lemma CoefficientUpdate(t: Tables, i: nat, j: nat, below: byte, here: byte)
    requires GaloisTables(t) && LogAntilog(t)
    requires 1 <= j <= i && below == Generator(t, i)[j - 1] && here == Generator(t, i)[j]
    ensures (if here != 0 then Xor(below, Exp(t, (Log(t, here) + i) % 255)) else below) == Generator(t, i + 1)[j]
  {
    GeneratorStep(t, i, j);
    MulAlpha(t, here, i);
    XorZero(below);
  }

  /** The engine's update of the constant term is p[0] * alpha^i, taken without
      the zero test, which the non-zero constant term makes safe. */
  lemma ConstantUpdate(t: Tables, i: nat, here: byte)
    requires GaloisTables(t) && LogAntilog(t)
    requires here == Generator(t, i)[0]
    ensures Exp(t, (Log(t, here) + i) % 255) == Generator(t, i + 1)[0]
  {
    GeneratorStep(t, i, 0);
    GeneratorConstant(t, i);
    MulAlpha(t, here, i);
  }

  /** The body of the inner loop of calculatePolynomial: coefficient j becomes
      p[j-1] + p[j] * alpha^i. */
  method UpdateCoefficient(t: Tables, polynomial: array<byte>, i: nat, j: nat)
    requires GaloisTables(t) && LogAntilog(t)
    requires 1 <= j <= i && j < polynomial.Length
    requires polynomial[j - 1] == Generator(t, i)[j - 1] && polynomial[j] == Generator(t, i)[j]
    modifies polynomial
    ensures polynomial[..] == old(polynomial[..])[j := Generator(t, i + 1)[j]]
  {
    var below, here := polynomial[j - 1], polynomial[j];
    var updated := if here != 0 then Xor(below, Exp(t, (Log(t, here) + i) % 255)) else below;
    CoefficientUpdate(t, i, j, below, here);
    polynomial[j] := updated;
  }

  /** The array part-way through an outer iteration: the coefficients of g up to
      j, those of h above j, and 1 past both. */
  ghost function Multiplying(g: seq<byte>, h: seq<byte>, j: int, n: nat): (p: seq<byte>)
    ensures |p| == n
  {
    seq(n, k => if 0 <= k <= j && k < |g| then g[k] else if 0 <= k < |h| then h[k] else 1)
  }

  lemma {:induction false} MultiplyingStart(p: seq<byte>, g: seq<byte>, h: seq<byte>)
    requires |h| == |g| + 1 && |g| <= |p| && h[|g|] == 1 && LowCoefficients(p, g)
    ensures p == Multiplying(g, h, |g| - 1, |p|)
  {
  }

  lemma {:induction false} MultiplyingStep(g: seq<byte>, h: seq<byte>, j: int, n: nat)
    requires 0 <= j < |g| && |g| < |h| && j < n
    ensures Multiplying(g, h, j, n)[j := h[j]] == Multiplying(g, h, j - 1, n)
  {
  }

  lemma {:induction false} MultiplyingDone(g: seq<byte>, h: seq<byte>, n: nat)
    ensures LowCoefficients(Multiplying(g, h, -1, n), h)
  {
  }

  /** One outer iteration of calculatePolynomial: multiplies the stored
      polynomial by (x + alpha^i) in place, from the top coefficient down. */
  method MultiplyByLinear(t: Tables, polynomial: array<byte>, i: nat, ghost next: nat)
    requires GaloisTables(t) && LogAntilog(t)
    requires 1 <= i < polynomial.Length && next == i + 1
    requires PartialGenerator(t, polynomial[..], i)
    modifies polynomial
    ensures PartialGenerator(t, polynomial[..], next)
  {
    ghost var g := Generator(t, i);
    ghost var h := Generator(t, next);
    GeneratorMonic(t, next);
    MultiplyingStart(polynomial[..], g, h);
    var j := i;
    while j > 0
      invariant 0 <= j <= i
      invariant polynomial[..] == Multiplying(g, h, j, polynomial.Length)
    {
      MultiplyingStep(g, h, j, polynomial.Length);
      UpdateCoefficient(t, polynomial, i, j);
      j := j - 1;
    }
    MultiplyingStep(g, h, 0, polynomial.Length);
    UpdateConstant(t, polynomial, i);
    MultiplyingDone(g, h, polynomial.Length);
  }

  /** The last step of an outer iteration: the constant term times alpha^i. */
  method UpdateConstant(t: Tables, polynomial: array<byte>, i: nat)
    requires GaloisTables(t) && LogAntilog(t)
    requires 0 < polynomial.Length && polynomial[0] == Generator(t, i)[0]
    modifies polynomial
    ensures polynomial[..] == old(polynomial[..])[0 := Generator(t, i + 1)[0]]
  {
    var here := polynomial[0];
    var updated := Exp(t, (Log(t, here) + i) % 255);
    ConstantUpdate(t, i, here);
    polynomial[0] := updated;
  }

  /** calculatePolynomial: the generator polynomial of degree eccBlock without
      its leading 1, constant term first, each coefficient replaced by its log.
      The log pass also visits index eccBlock, past the end of the array; that
      store is dropped. */
  method CalculatePolynomial(t: Tables, eccBlock: nat) returns (r: seq<byte>)
    requires GaloisTables(t) && LogAntilog(t)
    ensures |r| == eccBlock
    ensures forall j | 0 <= j < eccBlock :: r[j] == Log(t, Generator(t, eccBlock)[j])
  {
    var polynomial := new byte[eccBlock](_ => 1);
    if eccBlock > 0 {
      BuildGenerator(t, polynomial);
    }
    TakeLogs(t, polynomial);
    r := polynomial[..];
  }

  /** The product loop: the all-ones array becomes the generator's low coefficients. */
  method BuildGenerator(t: Tables, polynomial: array<byte>)
    requires GaloisTables(t) && LogAntilog(t)
    requires polynomial.Length > 0 && forall j | 0 <= j < polynomial.Length :: polynomial[j] == 1
    modifies polynomial
    ensures forall j | 0 <= j < polynomial.Length :: polynomial[j] == Generator(t, polynomial.Length)[j]
  {
    OnesArePartial(t, polynomial[..]);
    var i := 1;
    while i < polynomial.Length
      invariant 1 <= i <= polynomial.Length
      invariant PartialGenerator(t, polynomial[..], i)
    {
      var next := i + 1;
      MultiplyByLinear(t, polynomial, i, next);
      i := next;
    }
    PartialComplete(t, polynomial[..]);
  }

  /** The all-ones array already holds x + 1 below its padding. */
  lemma OnesArePartial(t: Tables, p: seq<byte>)
    requires GaloisTables(t) && LogAntilog(t)
    requires forall j | 0 <= j < |p| :: p[j] == 1
    ensures PartialGenerator(t, p, 1)
  {
    GeneratorOne(t);
  }

  /** Once i reaches the length, every entry is a coefficient of the generator. */
  lemma PartialComplete(t: Tables, p: seq<byte>)
    requires GaloisTables(t) && PartialGenerator(t, p, |p|)
    ensures forall j | 0 <= j < |p| :: p[j] == Generator(t, |p|)[j]
  {
  }

  /** The final pass: every coefficient is replaced by its logarithm. */
  method TakeLogs(t: Tables, polynomial: array<byte>)
    requires GaloisTables(t)
    modifies polynomial
    ensures forall j | 0 <= j < polynomial.Length :: polynomial[j] == LogByte(t, old(polynomial[j]))
  {
    for i := 0 to polynomial.Length + 1
      invariant forall j | 0 <= j < polynomial.Length ::
        polynomial[j] == if j < i then LogByte(t, old(polynomial[j])) else old(polynomial[j])
    {
      if i < polynomial.Length {
        polynomial[i] := LogByte(t, polynomial[i]);
      }
    }
  }

  /** The degree-1 generator x + 1, which the all-ones array already holds. */
  lemma GeneratorOne(t: Tables)
    requires GaloisTables(t) && LogAntilog(t)
    ensures Generator(t, 1) == [1, 1]
  {
    MulAlpha(t, 1, 0);
    ExpLog(t, 0);
    GeneratorStep(t, 0, 0);
    GeneratorStep(t, 0, 1);
    LogExp(t, 1);
  }

  /** A log stored into a byte array. */
  function LogByte(t: Tables, b: byte): (r: byte)
    requires GaloisTables(t)
    ensures r == Log(t, b)
  {
    Log(t, b)
  }

  // ---------------------------------------------------------------------------
  // Division by the generator

  /** The feedback term of the register: the generator coefficient (held as a
      log) times the field element whose log is `bit`; 255 stands for zero. */
  function Scale(t: Tables, bit: int, c: byte): byte
    requires GaloisTables(t) && 0 <= bit
  {
    if bit == 255 then 0 else Exp(t, (bit + c) % 255)
  }

  /** One data byte through the division register: the register shifts down by
      one and every position adds the feedback times the matching generator
      coefficient; the top position takes the constant-term product. */
  function RegisterStep(t: Tables, polynomial: seq<byte>, register: seq<byte>, d: byte): (r: seq<byte>)
    requires GaloisTables(t) && 1 <= |register| <= |polynomial|
    ensures |r| == |register|
  {
    var bit := Log(t, Xor(d, register[0]));
    seq(|register|, k =>
      Xor(if 0 <= k && k + 1 < |register| then register[k + 1] else 0,
          if 0 <= k < |register| then Scale(t, bit, polynomial[|register| - 1 - k]) else 0))
  }

  /** The register after all of `data`, from `register`. */
  function Remainder(t: Tables, polynomial: seq<byte>, register: seq<byte>, data: seq<byte>): (r: seq<byte>)
    requires GaloisTables(t) && 1 <= |register| <= |polynomial|
    ensures |r| == |register|
  {
    if |data| == 0 then register
    else RegisterStep(t, polynomial, Remainder(t, polynomial, register, data[..|data| - 1]), data[|data| - 1])
  }

  function Zeros(n: nat): (z: seq<byte>)
    ensures |z| == n && forall k | 0 <= k < n :: z[k] == 0
  {
    seq(n, _ => 0)
  }

  /** The register step is the textbook division step: with every generator
      coefficient non-zero (logs below 255), the feedback term is the field
      product of the feedback byte and the coefficient. */
  lemma RegisterStepIsDivision(t: Tables, polynomial: seq<byte>, register: seq<byte>, d: byte, k: int)
    requires GaloisTables(t) && LogAntilog(t) && 1 <= |register| <= |polynomial|
    requires forall j | 0 <= j < |polynomial| :: polynomial[j] != 255
    requires 0 <= k < |register|
    ensures RegisterStep(t, polynomial, register, d)[k] ==
      Xor(if k + 1 < |register| then register[k + 1] else 0,
          Mul(t, Xor(d, register[0]), Exp(t, polynomial[|register| - 1 - k])))
  {
    StepAt(t, polynomial, register, d, k);
    ScaleIsMul(t, Xor(d, register[0]), polynomial[|register| - 1 - k]);
  }

  /** The feedback term is a field product: the element with log `Log(f)` times
      the element with log c. */
  lemma ScaleIsMul(t: Tables, f: byte, c: byte)
    requires GaloisTables(t) && LogAntilog(t) && c != 255
    ensures Scale(t, Log(t, f), c) == Mul(t, f, Exp(t, c))
  {
    ExpLog(t, c);
    LogExp(t, f);
  }

  /** A block of zero bytes has zero ECC. */
  lemma {:induction false} RemainderOfZeros(t: Tables, polynomial: seq<byte>, n: nat, e: nat)
    requires GaloisTables(t) && LogAntilog(t) && 1 <= e <= |polynomial|
    ensures Remainder(t, polynomial, Zeros(e), Zeros(n)) == Zeros(e)
  {
    if n > 0 {
      assert Zeros(n)[..n - 1] == Zeros(n - 1);
      RemainderOfZeros(t, polynomial, n - 1, e);
      var r := RegisterStep(t, polynomial, Zeros(e), 0);
      LogExp(t, 0);
      XorZero(0);
      forall k | 0 <= k < e
        ensures r[k] == 0
      {
        StepAt(t, polynomial, Zeros(e), 0, k);
      }
      assert r == Zeros(e);
    }
  }

  /** The register after a concatenation is the register after the second part
      started from the register after the first. */
  lemma {:induction false} RemainderAppend(t: Tables, polynomial: seq<byte>, register: seq<byte>, a: seq<byte>, b: seq<byte>)
    requires GaloisTables(t) && 1 <= |register| <= |polynomial|
    ensures Remainder(t, polynomial, register, a + b) ==
      Remainder(t, polynomial, Remainder(t, polynomial, register, a), b)
    decreases |b|
  {
    if |b| == 0 {
      assert a + b == a;
    } else {
      assert (a + b)[..|a + b| - 1] == a + b[..|b| - 1];
      RemainderAppend(t, polynomial, register, a, b[..|b| - 1]);
    }
  }

  /** The body of appendData's data loop: one register step on
      stringBuffer[ecc .. ecc + eccLength].  A zero feedback shifts the register
      down instead, reading the byte after it (0 past the end of the buffer). */
  method ShiftRegister(t: Tables, d: byte, ecc: nat, eccLength: nat, polynomial: seq<byte>, stringBuffer: array<byte>)
    requires GaloisTables(t) && 1 <= eccLength <= |polynomial|
    requires ecc + eccLength <= stringBuffer.Length
    modifies stringBuffer
    ensures stringBuffer[ecc..ecc + eccLength] ==
      RegisterStep(t, polynomial, old(stringBuffer[ecc..ecc + eccLength]), d)
    ensures forall k | 0 <= k < stringBuffer.Length && !(ecc <= k < ecc + eccLength) ::
      stringBuffer[k] == old(stringBuffer[k])
  {
    ghost var reg := stringBuffer[ecc..ecc + eccLength];
    ghost var next := RegisterStep(t, polynomial, reg, d);
    assert reg[0] == stringBuffer[ecc];
    var bit := Log(t, Xor(d, stringBuffer[ecc]));
    assert bit == Log(t, Xor(d, reg[0]));
    if bit != 255 {
      FeedbackShift(t, bit, ecc, eccLength, polynomial, stringBuffer);
    } else {
      PlainShift(ecc, eccLength, stringBuffer);
    }
    stringBuffer[ecc + eccLength - 1] := Scale(t, bit, polynomial[0]);
    ghost var after := stringBuffer[ecc..ecc + eccLength];
    forall k | 0 <= k < eccLength - 1
      ensures after[k] == if bit == 255 then reg[k + 1] else Xor(reg[k + 1], Scale(t, bit, polynomial[eccLength - 1 - k]))
    {
      assert after[k] == stringBuffer[ecc + k];
      assert ecc + eccLength - 1 - (ecc + k) == eccLength - 1 - k;
    }
    StepFromShift(t, polynomial, reg, d, bit, after);
  }

  /** The shifted register with its new top position is one register step. */
  lemma StepFromShift(t: Tables, polynomial: seq<byte>, reg: seq<byte>, d: byte, bit: int, after: seq<byte>)
    requires GaloisTables(t) && 1 <= |reg| <= |polynomial| && |after| == |reg|
    requires bit == Log(t, Xor(d, reg[0]))
    requires forall k | 0 <= k < |reg| - 1 ::
      after[k] == if bit == 255 then reg[k + 1] else Xor(reg[k + 1], Scale(t, bit, polynomial[|reg| - 1 - k]))
    requires after[|reg| - 1] == Scale(t, bit, polynomial[0])
    ensures after == RegisterStep(t, polynomial, reg, d)
  {
    var next := RegisterStep(t, polynomial, reg, d);
    forall k | 0 <= k < |reg|
      ensures after[k] == next[k]
    {
      StepAt(t, polynomial, reg, d, k);
      if k + 1 < |reg| {
        XorZero(reg[k + 1]);
      } else {
        XorZero(Scale(t, bit, polynomial[0]));
      }
    }
  }

  /** The loop taken when the feedback is non-zero: each position takes the one
      above it plus the feedback times its generator coefficient. */
  method FeedbackShift(t: Tables, bit: int, ecc: nat, eccLength: nat, polynomial: seq<byte>, stringBuffer: array<byte>)
    requires GaloisTables(t) && 0 <= bit && 1 <= eccLength <= |polynomial|
    requires ecc + eccLength <= stringBuffer.Length
    modifies stringBuffer
    ensures forall i | ecc <= i < ecc + eccLength - 1 ::
      stringBuffer[i] == Xor(old(stringBuffer[i + 1]), Scale(t, bit, polynomial[ecc + eccLength - 1 - i]))
    ensures forall i | 0 <= i < stringBuffer.Length && !(ecc <= i < ecc + eccLength - 1) ::
      stringBuffer[i] == old(stringBuffer[i])
  {
    for j := 1 to eccLength
      invariant forall i | 0 <= i < stringBuffer.Length && !(ecc <= i < ecc + j - 1) ::
        stringBuffer[i] == old(stringBuffer[i])
      invariant forall i | ecc <= i < ecc + j - 1 ::
        stringBuffer[i] == Xor(old(stringBuffer[i + 1]), Scale(t, bit, polynomial[ecc + eccLength - 1 - i]))
    {
      stringBuffer[ecc + j - 1] := Xor(stringBuffer[ecc + j], Scale(t, bit, polynomial[eccLength - j]));
    }
  }

  /** The loop taken when the feedback is zero: the register moves down by one,
      the top position reading the byte after it (0 past the end of the buffer,
      where the typed array yields undefined). */
  method PlainShift(ecc: nat, eccLength: nat, stringBuffer: array<byte>)
    requires ecc + eccLength <= stringBuffer.Length
    modifies stringBuffer
    ensures forall i | ecc <= i < ecc + eccLength ::
      stringBuffer[i] == if i + 1 < stringBuffer.Length then old(stringBuffer[i + 1]) else 0
    ensures forall i | 0 <= i < stringBuffer.Length && !(ecc <= i < ecc + eccLength) ::
      stringBuffer[i] == old(stringBuffer[i])
  {
    for j := ecc to ecc + eccLength
      invariant forall i | 0 <= i < stringBuffer.Length && !(ecc <= i < j) ::
        stringBuffer[i] == old(stringBuffer[i])
      invariant forall i | ecc <= i < j ::
        stringBuffer[i] == if i + 1 < stringBuffer.Length then old(stringBuffer[i + 1]) else 0
    {
      stringBuffer[j] := if j + 1 < stringBuffer.Length then stringBuffer[j + 1] else 0;
    }
  }

  /** One position of the register step, written out. */
  lemma StepAt(t: Tables, polynomial: seq<byte>, register: seq<byte>, d: byte, k: int)
    requires GaloisTables(t) && 1 <= |register| <= |polynomial| && 0 <= k < |register|
    ensures RegisterStep(t, polynomial, register, d)[k] ==
      Xor(if k + 1 < |register| then register[k + 1] else 0,
          Scale(t, Log(t, Xor(d, register[0])), polynomial[|register| - 1 - k]))
  {
  }

  /** appendData: the ECC bytes of stringBuffer[data .. data + dataLength],
      written to stringBuffer[ecc .. ecc + eccLength]. */
  method AppendData(t: Tables, data: nat, dataLength: nat, ecc: nat, eccLength: nat,
                    polynomial: seq<byte>, stringBuffer: array<byte>)
    requires GaloisTables(t) && 1 <= eccLength <= |polynomial|
    requires data + dataLength <= ecc && ecc + eccLength <= stringBuffer.Length
    modifies stringBuffer
    ensures stringBuffer[ecc..ecc + eccLength] ==
      Remainder(t, polynomial, Zeros(eccLength), old(stringBuffer[data..data + dataLength]))
    ensures forall k | 0 <= k < stringBuffer.Length && !(ecc <= k < ecc + eccLength) ::
      stringBuffer[k] == old(stringBuffer[k])
  {
    ghost var input := stringBuffer[data..data + dataLength];
    for i := 0 to eccLength
      invariant forall k | 0 <= k < stringBuffer.Length && !(ecc <= k < ecc + i) ::
        stringBuffer[k] == old(stringBuffer[k])
      invariant forall k | ecc <= k < ecc + i :: stringBuffer[k] == 0
    {
      stringBuffer[ecc + i] := 0;
    }
    assert stringBuffer[ecc..ecc + eccLength] == Zeros(eccLength);
    for i := 0 to dataLength
      invariant forall k | 0 <= k < stringBuffer.Length && !(ecc <= k < ecc + eccLength) ::
        stringBuffer[k] == old(stringBuffer[k])
      invariant stringBuffer[ecc..ecc + eccLength] == Remainder(t, polynomial, Zeros(eccLength), input[..i])
    {
      var d := stringBuffer[data + i];
      assert d == input[i];
      ShiftRegister(t, d, ecc, eccLength, polynomial, stringBuffer);
      RemainderSnoc(t, polynomial, Zeros(eccLength), input, i);
    }
    assert input[..dataLength] == input;
  }

  /** One more input byte is one more register step. */
  lemma RemainderSnoc(t: Tables, polynomial: seq<byte>, register: seq<byte>, input: seq<byte>, i: nat)
    requires GaloisTables(t) && 1 <= |register| <= |polynomial| && i < |input|
    ensures Remainder(t, polynomial, register, input[..i + 1]) ==
      RegisterStep(t, polynomial, Remainder(t, polynomial, register, input[..i]), input[i])
  {
    assert input[..i + 1][..i] == input[..i];
  }

  // ---------------------------------------------------------------------------
  // Blocks

  /** Length of data block b: neccBlock1 short blocks of dataBlock bytes, then
      long blocks of one byte more. */
  function BlockLength(dataBlock: nat, neccBlock1: nat, b: nat): nat {
    if b < neccBlock1 then dataBlock else dataBlock + 1
  }

  /** The first data codeword of block b, accumulated as the engine's `data`
      cursor is. */
  function BlockStart(dataBlock: nat, neccBlock1: nat, b: nat): nat {
    if b == 0 then 0 else BlockStart(dataBlock, neccBlock1, b - 1) + BlockLength(dataBlock, neccBlock1, b - 1)
  }

  /** The first ECC byte of block b, accumulated as the engine's `ecc` cursor
      is: the ECC of the blocks follows the data codewords, one block after the other. */
  function EccStart(maxLength: nat, eccBlock: nat, b: nat): (r: nat)
    ensures r >= maxLength
  {
    if b == 0 then maxLength else EccStart(maxLength, eccBlock, b - 1) + eccBlock
  }

  /** The data blocks tile the data codewords exactly: the blocks together end at
      calculateMaxLength. */
  lemma {:induction false} BlocksPartition(dataBlock: nat, neccBlock1: nat, neccBlock2: nat, b: nat)
    requires b <= neccBlock1 + neccBlock2
    ensures BlockStart(dataBlock, neccBlock1, b) ==
      if b <= neccBlock1 then b * dataBlock else neccBlock1 * dataBlock + (b - neccBlock1) * (dataBlock + 1)
    ensures BlockStart(dataBlock, neccBlock1, neccBlock1 + neccBlock2) ==
      CalculateMaxLength(dataBlock, neccBlock1, neccBlock2)
  {
    if b <= neccBlock1 {
      ShortBlocks(dataBlock, neccBlock1, b);
    } else {
      LongBlocks(dataBlock, neccBlock1, b);
    }
    BlocksEnd(dataBlock, neccBlock1, neccBlock2);
  }

  lemma {:induction false} LongBlocks(dataBlock: nat, neccBlock1: nat, b: nat)
    requires neccBlock1 < b
    ensures BlockStart(dataBlock, neccBlock1, b) == neccBlock1 * dataBlock + (b - neccBlock1) * (dataBlock + 1)
  {
    var m := b - 1;
    assert BlockStart(dataBlock, neccBlock1, b) == BlockStart(dataBlock, neccBlock1, m) + dataBlock + 1;
    if m == neccBlock1 {
      ShortBlocks(dataBlock, neccBlock1, m);
    } else {
      LongBlocks(dataBlock, neccBlock1, m);
      assert (b - neccBlock1) * (dataBlock + 1) == (m - neccBlock1) * (dataBlock + 1) + dataBlock + 1;
    }
  }

  lemma {:induction false} BlocksEnd(dataBlock: nat, neccBlock1: nat, neccBlock2: nat)
    ensures BlockStart(dataBlock, neccBlock1, neccBlock1 + neccBlock2) ==
      CalculateMaxLength(dataBlock, neccBlock1, neccBlock2)
    decreases neccBlock2
  {
    if neccBlock2 == 0 {
      ShortBlocks(dataBlock, neccBlock1, neccBlock1);
    } else {
      BlocksEnd(dataBlock, neccBlock1, neccBlock2 - 1);
      assert neccBlock2 * (dataBlock + 1) == (neccBlock2 - 1) * (dataBlock + 1) + dataBlock + 1;
    }
  }

  lemma {:induction false} ShortBlocks(dataBlock: nat, neccBlock1: nat, b: nat)
    requires b <= neccBlock1
    ensures BlockStart(dataBlock, neccBlock1, b) == b * dataBlock
  {
    if b > 0 {
      var m := b - 1;
      ShortBlocks(dataBlock, neccBlock1, m);
      assert b * dataBlock == m * dataBlock + dataBlock;
    }
  }

  /** Each block lies inside the data codewords, below every later block. */
  lemma {:induction false} BlockBelow(dataBlock: nat, neccBlock1: nat, b: nat, n: nat)
    requires b < n
    ensures BlockStart(dataBlock, neccBlock1, b) + BlockLength(dataBlock, neccBlock1, b) <= BlockStart(dataBlock, neccBlock1, n)
    decreases n
  {
    if b + 1 < n {
      BlockBelow(dataBlock, neccBlock1, b, n - 1);
    }
  }

  /** The ECC area of block c ends at or before that of any later block starts. */
  lemma {:induction false} EccBelow(maxLength: nat, eccBlock: nat, c: nat, b: nat)
    requires c < b
    ensures EccStart(maxLength, eccBlock, c) + eccBlock <= EccStart(maxLength, eccBlock, b)
    decreases b
  {
    if c + 1 < b {
      EccBelow(maxLength, eccBlock, c, b - 1);
    }
  }

  lemma {:induction false} EccStartClosed(maxLength: nat, eccBlock: nat, b: nat)
    ensures EccStart(maxLength, eccBlock, b) == maxLength + b * eccBlock
  {
    if b > 0 {
      EccStartClosed(maxLength, eccBlock, b - 1);
      assert b * eccBlock == (b - 1) * eccBlock + eccBlock;
    }
  }

  /** The ECC of data block b of s0, as appendData computes it (no ECC when the
      block does not lie inside s0). */
  ghost function BlockEcc(t: Tables, dataBlock: nat, neccBlock1: nat, polynomial: seq<byte>,
                          eccBlock: nat, s0: seq<byte>, b: nat): (r: seq<byte>)
    requires GaloisTables(t) && 1 <= eccBlock <= |polynomial|
    ensures |r| == eccBlock
  {
    var start := BlockStart(dataBlock, neccBlock1, b);
    var end := start + BlockLength(dataBlock, neccBlock1, b);
    if end <= |s0| then Remainder(t, polynomial, Zeros(eccBlock), s0[start..end]) else Zeros(eccBlock)
  }

  lemma BlockEccInside(t: Tables, dataBlock: nat, neccBlock1: nat, polynomial: seq<byte>,
                       eccBlock: nat, s0: seq<byte>, b: nat)
    requires GaloisTables(t) && 1 <= eccBlock <= |polynomial|
    requires BlockStart(dataBlock, neccBlock1, b) + BlockLength(dataBlock, neccBlock1, b) <= |s0|
    ensures BlockEcc(t, dataBlock, neccBlock1, polynomial, eccBlock, s0, b) ==
      Remainder(t, polynomial, Zeros(eccBlock),
                s0[BlockStart(dataBlock, neccBlock1, b)..BlockStart(dataBlock, neccBlock1, b) + BlockLength(dataBlock, neccBlock1, b)])
  {
  }

  /** The ECC of the blocks below i is in place in s, and every byte outside
      their ECC area is as in s0. */
  ghost predicate EccDone(t: Tables, dataBlock: nat, neccBlock1: nat, eccBlock: nat, maxLength: nat,
                          polynomial: seq<byte>, s: seq<byte>, s0: seq<byte>, i: nat)
    requires GaloisTables(t) && 1 <= eccBlock <= |polynomial| && |s| == |s0|
  {
    EccPlaced(t, dataBlock, neccBlock1, eccBlock, maxLength, polynomial, s, s0, i) &&
    Unchanged(s, s0, maxLength, EccStart(maxLength, eccBlock, i))
  }

  /** The ECC of every block below i is at its place in s. */
  ghost predicate EccPlaced(t: Tables, dataBlock: nat, neccBlock1: nat, eccBlock: nat, maxLength: nat,
                            polynomial: seq<byte>, s: seq<byte>, s0: seq<byte>, i: nat)
    requires GaloisTables(t) && 1 <= eccBlock <= |polynomial| && |s| == |s0|
  {
    forall b | 0 <= b < i :: PlacedAt(t, dataBlock, neccBlock1, eccBlock, maxLength, polynomial, s, s0, b)
  }

  /** Block b lies inside the data codewords and its ECC is at its place in s. */
  ghost predicate PlacedAt(t: Tables, dataBlock: nat, neccBlock1: nat, eccBlock: nat, maxLength: nat,
                           polynomial: seq<byte>, s: seq<byte>, s0: seq<byte>, b: nat)
    requires GaloisTables(t) && 1 <= eccBlock <= |polynomial| && |s| == |s0|
  {
    BlockStart(dataBlock, neccBlock1, b) + BlockLength(dataBlock, neccBlock1, b) <= maxLength &&
    EccStart(maxLength, eccBlock, b) + eccBlock <= |s| &&
    s[EccStart(maxLength, eccBlock, b)..EccStart(maxLength, eccBlock, b) + eccBlock] ==
    BlockEcc(t, dataBlock, neccBlock1, polynomial, eccBlock, s0, b)
  }

  /** s and s0 agree outside [lo, hi). */
  ghost predicate Unchanged(s: seq<byte>, s0: seq<byte>, lo: int, hi: int)
    requires |s| == |s0|
  {
    forall k | 0 <= k < |s| && !(lo <= k < hi) :: s[k] == s0[k]
  }

  /** appendEccToData: the ECC bytes of every block, stored one block after the
      other right after the data codewords; nothing else changes. */
  method AppendEccToData(t: Tables, dataBlock: nat, neccBlock1: nat, neccBlock2: nat, eccBlock: nat,
                         polynomial: seq<byte>, stringBuffer: array<byte>)
    requires GaloisTables(t) && 1 <= eccBlock <= |polynomial|
    requires CalculateMaxLength(dataBlock, neccBlock1, neccBlock2) + (neccBlock1 + neccBlock2) * eccBlock <= stringBuffer.Length
    modifies stringBuffer
    ensures EccStart(CalculateMaxLength(dataBlock, neccBlock1, neccBlock2), eccBlock, neccBlock1 + neccBlock2) <= stringBuffer.Length
    ensures EccDone(t, dataBlock, neccBlock1, eccBlock, CalculateMaxLength(dataBlock, neccBlock1, neccBlock2),
                    polynomial, stringBuffer[..], old(stringBuffer[..]), neccBlock1 + neccBlock2)
  {
    var maxLength := CalculateMaxLength(dataBlock, neccBlock1, neccBlock2);
    ghost var blocks := neccBlock1 + neccBlock2;
    ghost var s0 := stringBuffer[..];
    BlocksEnd(dataBlock, neccBlock1, neccBlock2);
    EccStartClosed(maxLength, eccBlock, blocks);
    var data := 0;
    var ecc := maxLength;
    for i := 0 to neccBlock1
      invariant data == BlockStart(dataBlock, neccBlock1, i) && ecc == EccStart(maxLength, eccBlock, i)
      invariant data <= maxLength && ecc <= stringBuffer.Length
      invariant EccDone(t, dataBlock, neccBlock1, eccBlock, maxLength, polynomial, stringBuffer[..], s0, i)
    {
      CursorStep(dataBlock, neccBlock1, neccBlock2, eccBlock, i);
      AppendBlock(t, dataBlock, neccBlock1, eccBlock, maxLength, polynomial, stringBuffer, s0, i, data, dataBlock, ecc);
      data := data + dataBlock;
      ecc := ecc + eccBlock;
    }
    for i := 0 to neccBlock2
      invariant data == BlockStart(dataBlock, neccBlock1, neccBlock1 + i) && ecc == EccStart(maxLength, eccBlock, neccBlock1 + i)
      invariant data <= maxLength && ecc <= stringBuffer.Length
      invariant EccDone(t, dataBlock, neccBlock1, eccBlock, maxLength, polynomial, stringBuffer[..], s0, neccBlock1 + i)
    {
      CursorStep(dataBlock, neccBlock1, neccBlock2, eccBlock, neccBlock1 + i);
      AppendBlock(t, dataBlock, neccBlock1, eccBlock, maxLength, polynomial, stringBuffer, s0, neccBlock1 + i, data, dataBlock + 1, ecc);
      data := data + dataBlock + 1;
      ecc := ecc + eccBlock;
    }
  }

  /** Block b lies inside the data codewords and its ECC inside the ECC area,
      and the two cursors move on by the block's lengths. */
  lemma CursorStep(dataBlock: nat, neccBlock1: nat, neccBlock2: nat, eccBlock: nat, b: nat)
    requires b < neccBlock1 + neccBlock2
    ensures BlockStart(dataBlock, neccBlock1, b) + BlockLength(dataBlock, neccBlock1, b) <=
      CalculateMaxLength(dataBlock, neccBlock1, neccBlock2)
    ensures BlockStart(dataBlock, neccBlock1, b + 1) ==
      BlockStart(dataBlock, neccBlock1, b) + BlockLength(dataBlock, neccBlock1, b)
    ensures EccStart(CalculateMaxLength(dataBlock, neccBlock1, neccBlock2), eccBlock, b + 1) ==
      EccStart(CalculateMaxLength(dataBlock, neccBlock1, neccBlock2), eccBlock, b) + eccBlock
    ensures EccStart(CalculateMaxLength(dataBlock, neccBlock1, neccBlock2), eccBlock, b) + eccBlock <=
      CalculateMaxLength(dataBlock, neccBlock1, neccBlock2) + (neccBlock1 + neccBlock2) * eccBlock
  {
    var maxLength := CalculateMaxLength(dataBlock, neccBlock1, neccBlock2);
    BlockBelow(dataBlock, neccBlock1, b, neccBlock1 + neccBlock2);
    BlocksEnd(dataBlock, neccBlock1, neccBlock2);
    EccBelow(maxLength, eccBlock, b, neccBlock1 + neccBlock2);
    EccStartClosed(maxLength, eccBlock, neccBlock1 + neccBlock2);
  }

  /** One call of appendData inside appendEccToData, for block b. */
  method AppendBlock(t: Tables, dataBlock: nat, neccBlock1: nat, eccBlock: nat, maxLength: nat,
                     polynomial: seq<byte>, stringBuffer: array<byte>, ghost s0: seq<byte>, ghost b: nat,
                     data: nat, dataLength: nat, ecc: nat)
    requires GaloisTables(t) && 1 <= eccBlock <= |polynomial| && |s0| == stringBuffer.Length
    requires data == BlockStart(dataBlock, neccBlock1, b) && dataLength == BlockLength(dataBlock, neccBlock1, b)
    requires ecc == EccStart(maxLength, eccBlock, b)
    requires data + dataLength <= maxLength && ecc + eccBlock <= stringBuffer.Length
    requires EccDone(t, dataBlock, neccBlock1, eccBlock, maxLength, polynomial, stringBuffer[..], s0, b)
    modifies stringBuffer
    ensures EccDone(t, dataBlock, neccBlock1, eccBlock, maxLength, polynomial, stringBuffer[..], s0, b + 1)
  {
    ghost var before := stringBuffer[..];
    assert stringBuffer[data..data + dataLength] == s0[data..data + dataLength];
    AppendData(t, data, dataLength, ecc, eccBlock, polynomial, stringBuffer);
    assert data + dataLength <= |s0|;
    BlockEccInside(t, dataBlock, neccBlock1, polynomial, eccBlock, s0, b);
    assert Unchanged(stringBuffer[..], before, ecc, ecc + eccBlock);
    EccDoneStep(t, dataBlock, neccBlock1, eccBlock, maxLength, polynomial, before, stringBuffer[..], s0, b);
  }

  /** Writing block b's ECC at its place, and nothing else, extends EccDone by one block. */
  lemma EccDoneStep(t: Tables, dataBlock: nat, neccBlock1: nat, eccBlock: nat, maxLength: nat,
                    polynomial: seq<byte>, before: seq<byte>, s: seq<byte>, s0: seq<byte>, b: nat)
    requires GaloisTables(t) && 1 <= eccBlock <= |polynomial| && |s0| == |s| == |before|
    requires BlockStart(dataBlock, neccBlock1, b) + BlockLength(dataBlock, neccBlock1, b) <= maxLength
    requires EccStart(maxLength, eccBlock, b) + eccBlock <= |s|
    requires EccDone(t, dataBlock, neccBlock1, eccBlock, maxLength, polynomial, before, s0, b)
    requires s[EccStart(maxLength, eccBlock, b)..EccStart(maxLength, eccBlock, b) + eccBlock] ==
      BlockEcc(t, dataBlock, neccBlock1, polynomial, eccBlock, s0, b)
    requires Unchanged(s, before, EccStart(maxLength, eccBlock, b), EccStart(maxLength, eccBlock, b) + eccBlock)
    ensures EccDone(t, dataBlock, neccBlock1, eccBlock, maxLength, polynomial, s, s0, b + 1)
  {
    PlacedStep(t, dataBlock, neccBlock1, eccBlock, maxLength, polynomial, before, s, s0, b);
    UnchangedStep(s, before, s0, maxLength, EccStart(maxLength, eccBlock, b), EccStart(maxLength, eccBlock, b) + eccBlock);
  }

  lemma PlacedStep(t: Tables, dataBlock: nat, neccBlock1: nat, eccBlock: nat, maxLength: nat,
                   polynomial: seq<byte>, before: seq<byte>, s: seq<byte>, s0: seq<byte>, b: nat)
    requires GaloisTables(t) && 1 <= eccBlock <= |polynomial| && |s0| == |s| == |before|
    requires BlockStart(dataBlock, neccBlock1, b) + BlockLength(dataBlock, neccBlock1, b) <= maxLength
    requires EccStart(maxLength, eccBlock, b) + eccBlock <= |s|
    requires EccPlaced(t, dataBlock, neccBlock1, eccBlock, maxLength, polynomial, before, s0, b)
    requires s[EccStart(maxLength, eccBlock, b)..EccStart(maxLength, eccBlock, b) + eccBlock] ==
      BlockEcc(t, dataBlock, neccBlock1, polynomial, eccBlock, s0, b)
    requires Unchanged(s, before, EccStart(maxLength, eccBlock, b), EccStart(maxLength, eccBlock, b) + eccBlock)
    ensures EccPlaced(t, dataBlock, neccBlock1, eccBlock, maxLength, polynomial, s, s0, b + 1)
  {
    PlacedKept(t, dataBlock, neccBlock1, eccBlock, maxLength, polynomial, before, s, s0, b);
    PlacedExtended(t, dataBlock, neccBlock1, eccBlock, maxLength, polynomial, s, s0, b);
  }

  /** Bytes after the ECC of the blocks below b may change without disturbing it. */
  lemma PlacedKept(t: Tables, dataBlock: nat, neccBlock1: nat, eccBlock: nat, maxLength: nat,
                   polynomial: seq<byte>, before: seq<byte>, s: seq<byte>, s0: seq<byte>, b: nat)
    requires GaloisTables(t) && 1 <= eccBlock <= |polynomial| && |s0| == |s| == |before|
    requires EccPlaced(t, dataBlock, neccBlock1, eccBlock, maxLength, polynomial, before, s0, b)
    requires Unchanged(s, before, EccStart(maxLength, eccBlock, b), |s|)
    ensures EccPlaced(t, dataBlock, neccBlock1, eccBlock, maxLength, polynomial, s, s0, b)
  {
    forall c | 0 <= c < b
      ensures PlacedAt(t, dataBlock, neccBlock1, eccBlock, maxLength, polynomial, s, s0, c)
    {
      assert PlacedAt(t, dataBlock, neccBlock1, eccBlock, maxLength, polynomial, before, s0, c);
      EccBelow(maxLength, eccBlock, c, b);
      var e := EccStart(maxLength, eccBlock, c);
      assert s[e..e + eccBlock] == before[e..e + eccBlock];
    }
  }

  lemma PlacedExtended(t: Tables, dataBlock: nat, neccBlock1: nat, eccBlock: nat, maxLength: nat,
                       polynomial: seq<byte>, s: seq<byte>, s0: seq<byte>, b: nat)
    requires GaloisTables(t) && 1 <= eccBlock <= |polynomial| && |s0| == |s|
    requires BlockStart(dataBlock, neccBlock1, b) + BlockLength(dataBlock, neccBlock1, b) <= maxLength
    requires EccStart(maxLength, eccBlock, b) + eccBlock <= |s|
    requires EccPlaced(t, dataBlock, neccBlock1, eccBlock, maxLength, polynomial, s, s0, b)
    requires s[EccStart(maxLength, eccBlock, b)..EccStart(maxLength, eccBlock, b) + eccBlock] ==
      BlockEcc(t, dataBlock, neccBlock1, polynomial, eccBlock, s0, b)
    ensures EccPlaced(t, dataBlock, neccBlock1, eccBlock, maxLength, polynomial, s, s0, b + 1)
  {
    assert PlacedAt(t, dataBlock, neccBlock1, eccBlock, maxLength, polynomial, s, s0, b);
  }

  lemma UnchangedStep(s: seq<byte>, before: seq<byte>, s0: seq<byte>, lo: int, mid: int, hi: int)
    requires |s| == |before| == |s0| && lo <= mid <= hi
    requires Unchanged(before, s0, lo, mid) && Unchanged(s, before, mid, hi)
    ensures Unchanged(s, s0, lo, hi)
  {
  }
}
