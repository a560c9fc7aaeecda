// CRC-8 with generator x^8 + x^2 + x + 1, in the two forms the firmware ships:
// a bit-serial loop for the host and a carry-less-multiply form for RISC-V.
// Both are proved to compute the remainder of polynomial division over GF(2),
// and every error burst of at most eight bits is proved to be detected.
module Crc8 {

  const POLYNOMIAL: bv8 := 0x07

  // ---------------------------------------------------------------------------
  // The host form
  // ---------------------------------------------------------------------------

  // One iteration of the shift register.
  function ShiftStep(crc: bv8): bv8 {
    if crc & 0x80 != 0 then (crc << 1) ^ POLYNOMIAL else crc << 1
  }

  function ShiftSteps(crc: bv8, n: nat): bv8
    decreases n, crc
  {
    if n == 0 then crc else ShiftStep(ShiftSteps(crc, n - 1))
  }

  function CrcByte(crc: bv8, data: bv8): bv8 {
    ShiftSteps(crc ^ data, 8)
  }

  // The loop of the host build.
  method PlatformCrc8Host(crc0: bv8, data: bv8) returns (crc: bv8)
    ensures crc == CrcByte(crc0, data)
  {
    crc := crc0 ^ data;
    for i := 0 to 8
      invariant crc == ShiftSteps(crc0 ^ data, i)
    {
      if crc & 0x80 != 0 {
        crc := (crc << 1) ^ POLYNOMIAL;
      } else {
        crc := crc << 1;
      }
    }
  }

  function Fold(seed: bv8, msg: seq<bv8>): bv8 {
    if msg == [] then seed
    else CrcByte(Fold(seed, msg[..|msg| - 1]), msg[|msg| - 1])
  }

  lemma FoldOneMore(seed: bv8, msg: seq<bv8>, b: bv8)
    ensures Fold(seed, msg + [b]) == CrcByte(Fold(seed, msg), b)
  {
    assert (msg + [b])[..|msg|] == msg;
  }

  lemma EightSteps(crc: bv8, data: bv8)
    ensures CrcByte(crc, data) == ShiftStep(ShiftStep(ShiftStep(ShiftStep(
                                  ShiftStep(ShiftStep(ShiftStep(ShiftStep(crc ^ data))))))))
  {
    var c := crc ^ data;
    assert ShiftSteps(c, 1) == ShiftStep(ShiftSteps(c, 0)) && ShiftSteps(c, 0) == c;
    assert ShiftSteps(c, 3) == ShiftStep(ShiftStep(ShiftSteps(c, 1)));
    assert ShiftSteps(c, 5) == ShiftStep(ShiftStep(ShiftSteps(c, 3)));
    assert ShiftSteps(c, 7) == ShiftStep(ShiftStep(ShiftSteps(c, 5)));
    assert ShiftSteps(c, 8) == ShiftStep(ShiftSteps(c, 7));
  }

  lemma NextByte(msg: seq<bv8>, crc: bv8, data: bv8, next: bv8)
    requires Fold(0, msg) == crc
    requires next == ShiftStep(ShiftStep(ShiftStep(ShiftStep(ShiftStep(ShiftStep(ShiftStep(ShiftStep(crc ^ data))))))))
    ensures Fold(0, msg + [data]) == next
  {
    FoldOneMore(0, msg, data);
    EightSteps(crc, data);
  }

  // The CRC's check value, that of the nine ASCII digits 1 to 9, is 0xF4.
  lemma CheckValue() returns (msg: seq<bv8>)
    ensures msg == [0x31, 0x32, 0x33, 0x34, 0x35, 0x36, 0x37, 0x38, 0x39] && Fold(0, msg) == 0xF4
  {
    msg := [];
    NextByte(msg, 0x00, 0x31, 0x97);
    msg := msg + [0x31];
    NextByte(msg, 0x97, 0x32, 0x72);
    msg := msg + [0x32];
    NextByte(msg, 0x72, 0x33, 0xC0);
    msg := msg + [0x33];
    NextByte(msg, 0xC0, 0x34, 0xC2);
    msg := msg + [0x34];
    NextByte(msg, 0xC2, 0x35, 0xCB);
    msg := msg + [0x35];
    NextByte(msg, 0xCB, 0x36, 0xFD);
    msg := msg + [0x36];
    NextByte(msg, 0xFD, 0x37, 0x78);
    msg := msg + [0x37];
    NextByte(msg, 0x78, 0x38, 0xC7);
    msg := msg + [0x38];
    NextByte(msg, 0xC7, 0x39, 0xF4);
    msg := msg + [0x39];
  }

  // ---------------------------------------------------------------------------
  // The RISC-V form
  // ---------------------------------------------------------------------------

  // The clmul instruction: the low 32 bits of the carry-less product, one
  // partial product a << i for each bit i of b that is set.
  function ClmulSteps(a: bv32, b: bv32, n: nat): bv32
    decreases n
  {
    if n == 0 then 0
    else if b & 1 == 1 then a ^ ClmulSteps(a << 1, b >> 1, n - 1)
    else ClmulSteps(a << 1, b >> 1, n - 1)
  }

  function Clmul(a: bv32, b: bv32): bv32 {
    ClmulSteps(a, b, 32)
  }

  function PlatformCrc8Riscv(crc: bv8, data: bv8): bv8 {
    var crcVal := (crc ^ data) as bv32;
    var a := Clmul(crcVal, 0x07);
    var tmp := a >> 8;
    var b := Clmul(tmp, 0x07);
    ((a ^ b) & 0xFF) as bv8
  }

  function FoldRiscv(seed: bv8, msg: seq<bv8>): bv8 {
    if msg == [] then seed
    else PlatformCrc8Riscv(FoldRiscv(seed, msg[..|msg| - 1]), msg[|msg| - 1])
  }

  // ---------------------------------------------------------------------------
  // Polynomials over GF(2): coefficients, highest degree first
  // ---------------------------------------------------------------------------

  type Poly = seq<bool>

  function Xor(x: bool, y: bool): bool { x != y }

  function At(p: Poly, i: int): bool {
    0 <= i < |p| && p[i]
  }

  function Zeros(n: nat): (z: Poly)
    ensures |z| == n && forall i :: 0 <= i < n ==> !z[i]
  {
    seq(n, _ => false)
  }

  function Sum(p: Poly, q: Poly): (s: Poly)
    requires |p| == |q|
    ensures |s| == |p| && forall i :: 0 <= i < |p| ==> s[i] == Xor(p[i], q[i])
  {
    seq(|p|, i requires 0 <= i < |p| => Xor(p[i], q[i]))
  }

  // Coefficient i of q * (x^8 + x^2 + x + 1), a product with |q| + 8 coefficients.
  function TimesGenerator(q: Poly, i: int): bool {
    Xor(Xor(At(q, i), At(q, i - 6)), Xor(At(q, i - 7), At(q, i - 8)))
  }

  // d = q * generator + r, where the eight coefficients of r have degree below 8.
  ghost predicate IsDivision(d: Poly, q: Poly, r: Poly) {
    && |r| == 8
    && |d| == |q| + 8
    && forall i :: 0 <= i < |d| ==> d[i] == Xor(TimesGenerator(q, i), At(r, i - |q|))
  }

  // Bit i of a byte, counted from the most significant one.
  function Bit(b: bv8, i: int): bool {
    if i == 0 then b & 0x80 != 0
    else if i == 1 then b & 0x40 != 0
    else if i == 2 then b & 0x20 != 0
    else if i == 3 then b & 0x10 != 0
    else if i == 4 then b & 0x08 != 0
    else if i == 5 then b & 0x04 != 0
    else if i == 6 then b & 0x02 != 0
    else i == 7 && b & 0x01 != 0
  }

  function Bits(b: bv8): (p: Poly)
    ensures |p| == 8 && forall i :: 0 <= i < 8 ==> p[i] == Bit(b, i)
  {
    seq(8, i requires 0 <= i < 8 => Bit(b, i))
  }

  function MessageBits(msg: seq<bv8>): (p: Poly)
    ensures |p| == 8 * |msg|
  {
    if msg == [] then [] else MessageBits(msg[..|msg| - 1]) + Bits(msg[|msg| - 1])
  }

  // seed * x^(8n) + msg * x^8 for a message of n bytes.
  function Dividend(seed: bv8, msg: seq<bv8>): (d: Poly)
    ensures |d| == 8 * |msg| + 8
  {
    Sum(Bits(seed) + Zeros(8 * |msg|), MessageBits(msg) + Zeros(8))
  }

  // ---------------------------------------------------------------------------
  // The shift register on coefficients
  // ---------------------------------------------------------------------------

  // Multiply an eight-coefficient polynomial by x and reduce.
  function Shift(r: Poly): (s: Poly)
    requires |r| == 8
    ensures |s| == 8 && forall i :: 0 <= i < 8 ==> s[i] == Xor(At(r, i + 1), i >= 5 && r[0])
  {
    seq(8, i requires 0 <= i < 8 => Xor(At(r, i + 1), i >= 5 && r[0]))
  }

  lemma BitsDetermineByte(a: bv8, b: bv8)
    requires Bits(a) == Bits(b)
    ensures a == b
  {
    assert forall i :: 0 <= i < 8 ==> Bits(a)[i] == Bit(b, i);
    assert Bit(a, 0) == Bit(b, 0) && Bit(a, 1) == Bit(b, 1) && Bit(a, 2) == Bit(b, 2) && Bit(a, 3) == Bit(b, 3);
    assert Bit(a, 4) == Bit(b, 4) && Bit(a, 5) == Bit(b, 5) && Bit(a, 6) == Bit(b, 6) && Bit(a, 7) == Bit(b, 7);
  }

  lemma BitOfXor(a: bv8, b: bv8, i: int)
    ensures Bit(a ^ b, i) == Xor(Bit(a, i), Bit(b, i))
  {
    if i == 0 { } else if i == 1 { } else if i == 2 { } else if i == 3 { }
    else if i == 4 { } else if i == 5 { } else if i == 6 { } else if i == 7 { } else { }
  }

  lemma BitsOfXor(a: bv8, b: bv8)
    ensures Bits(a ^ b) == Sum(Bits(a), Bits(b))
  {
    forall i | 0 <= i < 8
      ensures Bits(a ^ b)[i] == Sum(Bits(a), Bits(b))[i]
    {
      BitOfXor(a, b, i);
    }
  }

  lemma BitOfShiftStep(c: bv8, i: int)
    requires 0 <= i < 8
    ensures Bit(ShiftStep(c), i) == Xor(Bit(c, i + 1), i >= 5 && Bit(c, 0))
  {
  }

  lemma BitsOfShiftStep(c: bv8)
    ensures Bits(ShiftStep(c)) == Shift(Bits(c))
  {
    forall i | 0 <= i < 8
      ensures Bits(ShiftStep(c))[i] == Shift(Bits(c))[i]
    {
      BitOfShiftStep(c, i);
    }
  }

  // ---------------------------------------------------------------------------
  // The CRC is the remainder of the division
  // ---------------------------------------------------------------------------

  // One more dividend coefficient 0 is one more shift of the remainder.
  lemma DivideOneMore(d: Poly, q: Poly, r: Poly)
    requires IsDivision(d, q, r)
    ensures IsDivision(d + [false], q + [r[0]], Shift(r))
  {
    var d', q', s := d + [false], q + [r[0]], Shift(r);
    forall i | 0 <= i < |d'|
      ensures d'[i] == Xor(TimesGenerator(q', i), At(s, i - |q'|))
    {
      assert forall j :: At(q', j) == if j == |q| then r[0] else At(q, j);
      if i < |d| {
        assert d[i] == Xor(TimesGenerator(q, i), At(r, i - |q|));
      }
    }
  }

  function Quotient(c: bv8, n: nat): (q: Poly)
    ensures |q| == n
    decreases n
  {
    if n == 0 then [] else Quotient(c, n - 1) + [Bits(ShiftSteps(c, n - 1))[0]]
  }

  lemma {:induction false} DivideMore(d: Poly, q: Poly, c: bv8, n: nat)
    requires IsDivision(d, q, Bits(c))
    ensures IsDivision(d + Zeros(n), q + Quotient(c, n), Bits(ShiftSteps(c, n)))
    decreases n
  {
    if n == 0 {
      assert d + Zeros(0) == d && q + Quotient(c, 0) == q;
    } else {
      DivideMore(d, q, c, n - 1);
      DivideOneMore(d + Zeros(n - 1), q + Quotient(c, n - 1), Bits(ShiftSteps(c, n - 1)));
      BitsOfShiftStep(ShiftSteps(c, n - 1));
      assert d + Zeros(n) == (d + Zeros(n - 1)) + [false];
      assert q + Quotient(c, n) == (q + Quotient(c, n - 1)) + [Bits(ShiftSteps(c, n - 1))[0]];
    }
  }

  lemma CoefficientOfSum(d: Poly, q: Poly, r: Poly, b: Poly, i: nat)
    requires IsDivision(d, q, r) && |b| == 8 && i < |d|
    ensures Sum(d, Zeros(|q|) + b)[i] == Xor(TimesGenerator(q, i), At(Sum(r, b), i - |q|))
  {
    assert d[i] == Xor(TimesGenerator(q, i), At(r, i - |q|));
  }

  // Adding a byte to the low end of the dividend adds it to the remainder.
  lemma AddToRemainder(d: Poly, q: Poly, r: Poly, b: Poly)
    requires IsDivision(d, q, r) && |b| == 8
    ensures IsDivision(Sum(d, Zeros(|q|) + b), q, Sum(r, b))
  {
    var d' := Sum(d, Zeros(|q|) + b);
    forall i | 0 <= i < |d'|
      ensures d'[i] == Xor(TimesGenerator(q, i), At(Sum(r, b), i - |q|))
    {
      CoefficientOfSum(d, q, r, b, i);
    }
  }

  lemma DividendOfLonger(seed: bv8, msg: seq<bv8>, b: bv8)
    ensures Dividend(seed, msg + [b]) == Sum(Dividend(seed, msg), Zeros(8 * |msg|) + Bits(b)) + Zeros(8)
  {
    assert (msg + [b])[..|msg|] == msg;
    assert MessageBits(msg + [b]) == MessageBits(msg) + Bits(b);
  }

  lemma DivideByteMore(d: Poly, q: Poly, c: bv8, b: bv8) returns (q': Poly)
    requires IsDivision(d, q, Bits(c))
    ensures IsDivision(Sum(d, Zeros(|q|) + Bits(b)) + Zeros(8), q', Bits(CrcByte(c, b)))
  {
    AddToRemainder(d, q, Bits(c), Bits(b));
    BitsOfXor(c, b);
    DivideMore(Sum(d, Zeros(|q|) + Bits(b)), q, c ^ b, 8);
    q' := q + Quotient(c ^ b, 8);
  }

  lemma SeedDivides(seed: bv8)
    ensures IsDivision(Dividend(seed, []), [], Bits(seed))
  {
    var d := Dividend(seed, []);
    assert forall i :: 0 <= i < 8 ==> d[i] == Bits(seed)[i];
  }

  lemma FoldOfLonger(seed: bv8, msg: seq<bv8>)
    requires msg != []
    ensures Fold(seed, msg) == CrcByte(Fold(seed, msg[..|msg| - 1]), msg[|msg| - 1])
  {
  }

  lemma {:induction false} FoldDivides(seed: bv8, msg: seq<bv8>) returns (q: Poly)
    ensures IsDivision(Dividend(seed, msg), q, Bits(Fold(seed, msg)))
  {
    if msg == [] {
      SeedDivides(seed);
      q := [];
    } else {
      var m, b := msg[..|msg| - 1], msg[|msg| - 1];
      q := FoldDivides(seed, m);
      q := DivideByteMore(Dividend(seed, m), q, Fold(seed, m), b);
      DividendOfLonger(seed, m, b);
      assert msg == m + [b];
      FoldOfLonger(seed, msg);
    }
  }

  // Quotient and remainder are unique: the quotient's coefficients are forced
  // one by one from the top.
  lemma {:induction false} QuotientPrefixIsUnique(d: Poly, q: Poly, r: Poly, q': Poly, r': Poly, k: nat)
    requires IsDivision(d, q, r) && IsDivision(d, q', r') && k <= |q|
    ensures q[..k] == q'[..k]
  {
    if k > 0 {
      QuotientPrefixIsUnique(d, q, r, q', r', k - 1);
      var i := k - 1;
      assert forall j :: 0 <= j < i ==> q[j] == q[..i][j] == q'[..i][j] == q'[j];
      assert d[i] == Xor(TimesGenerator(q, i), false) && d[i] == Xor(TimesGenerator(q', i), false);
      assert q[..k] == q[..i] + [q[i]] && q'[..k] == q'[..i] + [q'[i]];
    }
  }

  lemma DivisionIsUnique(d: Poly, q: Poly, r: Poly, q': Poly, r': Poly)
    requires IsDivision(d, q, r) && IsDivision(d, q', r')
    ensures q == q' && r == r'
  {
    QuotientPrefixIsUnique(d, q, r, q', r', |q|);
    assert q == q[..|q|] == q'[..|q|] == q';
    forall i | 0 <= i < 8
      ensures r[i] == r'[i]
    {
      assert d[|q| + i] == Xor(TimesGenerator(q, |q| + i), At(r, i));
      assert d[|q| + i] == Xor(TimesGenerator(q, |q| + i), At(r', i));
    }
  }

  // The fold of the host loop yields r exactly when r is the remainder of
  // seed * x^(8n) + msg * x^8 modulo x^8 + x^2 + x + 1.
  lemma FoldIsRemainder(seed: bv8, msg: seq<bv8>, r: bv8)
    ensures Fold(seed, msg) == r <==> exists q :: IsDivision(Dividend(seed, msg), q, Bits(r))
  {
    var q0 := FoldDivides(seed, msg);
    if q :| IsDivision(Dividend(seed, msg), q, Bits(r)) {
      DivisionIsUnique(Dividend(seed, msg), q, Bits(r), q0, Bits(Fold(seed, msg)));
      BitsDetermineByte(r, Fold(seed, msg));
    }
  }

  // ---------------------------------------------------------------------------
  // The RISC-V form computes the same remainder
  // ---------------------------------------------------------------------------

  lemma ZeroOperand()
    ensures (0 as bv32) >> 1 == 0 && (0 as bv32) & 1 == 0
  {
  }

  lemma {:induction false} ClmulStepsByZero(a: bv32, n: nat)
    ensures ClmulSteps(a, 0, n) == 0
    decreases n
  {
    if n > 0 {
      ZeroOperand();
      ClmulStepsByZero(a << 1, n - 1);
    }
  }

  lemma SevenBitByBit(a: bv32)
    ensures (7 as bv32) >> 1 == 3 && (3 as bv32) >> 1 == 1 && (1 as bv32) >> 1 == 0
    ensures (7 as bv32) & 1 == 1 && (3 as bv32) & 1 == 1 && (1 as bv32) & 1 == 1
    ensures (a << 1) << 1 == a << 2
    ensures a ^ 0 == a
  {
  }

  lemma ClmulByOne(a: bv32)
    ensures ClmulSteps(a, 1, 30) == a
  {
    SevenBitByBit(a);
    ClmulStepsByZero(a << 1, 29);
  }

  lemma ClmulByThree(a: bv32)
    ensures ClmulSteps(a, 3, 31) == a ^ (a << 1)
  {
    SevenBitByBit(a);
    ClmulByOne(a << 1);
  }

  lemma ClmulBySeven(a: bv32)
    ensures Clmul(a, 7) == a ^ ((a << 1) ^ (a << 2))
  {
    SevenBitByBit(a);
    ClmulByThree(a << 1);
  }

  // The bits of c * (x^2 + x + 1) that overflow the low byte.
  function Overflow(c: bv8): bv8 {
    ((((c as bv32) ^ (((c as bv32) << 1) ^ ((c as bv32) << 2))) >> 8) & 0xFF) as bv8
  }

  // What is left in the low byte after the overflow is folded back.
  function FoldBack(c: bv8): bv8 {
    var a := (c as bv32) ^ (((c as bv32) << 1) ^ ((c as bv32) << 2));
    var t := a >> 8;
    ((a ^ (t ^ ((t << 1) ^ (t << 2)))) & 0xFF) as bv8
  }

  lemma BitOfOverflow(c: bv8, i: int)
    requires 0 <= i < 8
    ensures Bit(Overflow(c), i) == ((i == 7 && Xor(Bit(c, 0), Bit(c, 1))) || (i == 6 && Bit(c, 0)))
  {
    if i == 0 { } else if i == 1 { } else if i == 2 { } else if i == 3 { }
    else if i == 4 { } else if i == 5 { } else if i == 6 { } else { }
  }

  lemma BitOfFoldBack(c: bv8, i: int)
    requires 0 <= i < 8
    ensures Bit(FoldBack(c), i) ==
            Xor(Xor(Xor(Bit(c, i), Bit(Overflow(c), i)), Xor(Bit(c, i + 1), Bit(Overflow(c), i + 1))),
                Xor(Bit(c, i + 2), Bit(Overflow(c), i + 2)))
  {
    if i == 0 { } else if i == 1 { } else if i == 2 { } else if i == 3 { }
    else if i == 4 { } else if i == 5 { } else if i == 6 { } else { }
  }

  // p * x^8 = (p + h) * generator + r, when h is what p * (x^2 + x + 1) carries
  // over x^8 and r is what (p + h) * (x^2 + x + 1) leaves below it.
  lemma FoldBackPolynomials(p: Poly, h: Poly, r: Poly)
    requires |p| == |h| == |r| == 8
    requires forall i :: 0 <= i < 8 ==> h[i] == ((i == 7 && Xor(p[0], p[1])) || (i == 6 && p[0]))
    requires forall i :: 0 <= i < 8 ==>
      r[i] == Xor(Xor(At(Sum(p, h), i), At(Sum(p, h), i + 1)), At(Sum(p, h), i + 2))
    ensures IsDivision(p + Zeros(8), Sum(p, h), r)
  {
    var d, q := p + Zeros(8), Sum(p, h);
    forall i | 0 <= i < 16
      ensures d[i] == Xor(TimesGenerator(q, i), At(r, i - 8))
    {
      if i >= 8 {
        assert r[i - 8] == Xor(Xor(At(q, i - 8), At(q, i - 7)), At(q, i - 6));
      }
    }
  }

  lemma BitPastEnd(c: bv8)
    ensures !Bit(c, 8) && !Bit(c, 9)
  {
  }

  lemma OverflowAndFoldBackAt(c: bv8, i: int)
    requires 0 <= i < 8
    ensures var p, h, r := Bits(c), Bits(Overflow(c)), Bits(FoldBack(c));
            && h[i] == ((i == 7 && Xor(p[0], p[1])) || (i == 6 && p[0]))
            && r[i] == Xor(Xor(At(Sum(p, h), i), At(Sum(p, h), i + 1)), At(Sum(p, h), i + 2))
  {
    BitOfOverflow(c, i);
    BitOfFoldBack(c, i);
    BitPastEnd(c);
    BitPastEnd(Overflow(c));
  }

  // The quotient never appears in the code, and no bit is handled alone.
  lemma FoldBackDivides(c: bv8)
    ensures IsDivision(Bits(c) + Zeros(8), Sum(Bits(c), Bits(Overflow(c))), Bits(FoldBack(c)))
  {
    var p, h, r := Bits(c), Bits(Overflow(c)), Bits(FoldBack(c));
    forall i | 0 <= i < 8
      ensures h[i] == ((i == 7 && Xor(p[0], p[1])) || (i == 6 && p[0]))
      ensures r[i] == Xor(Xor(At(Sum(p, h), i), At(Sum(p, h), i + 1)), At(Sum(p, h), i + 2))
    {
      OverflowAndFoldBackAt(c, i);
    }
    FoldBackPolynomials(p, h, r);
  }

  lemma RiscvIsFoldBack(crc: bv8, data: bv8)
    ensures PlatformCrc8Riscv(crc, data) == FoldBack(crc ^ data)
  {
    var c := (crc ^ data) as bv32;
    ClmulBySeven(c);
    ClmulBySeven(Clmul(c, 7) >> 8);
  }

  lemma ShiftStepsDivide(c: bv8)
    ensures IsDivision(Bits(c) + Zeros(8), Quotient(c, 8), Bits(ShiftSteps(c, 8)))
  {
    assert IsDivision(Bits(c), [], Bits(c));
    DivideMore(Bits(c), [], c, 8);
    assert [] + Quotient(c, 8) == Quotient(c, 8);
  }

  lemma RiscvMatchesHost(crc: bv8, data: bv8)
    ensures PlatformCrc8Riscv(crc, data) == CrcByte(crc, data)
  {
    var c := crc ^ data;
    RiscvIsFoldBack(crc, data);
    FoldBackDivides(c);
    ShiftStepsDivide(c);
    DivisionIsUnique(Bits(c) + Zeros(8), Sum(Bits(c), Bits(Overflow(c))), Bits(FoldBack(c)),
                     Quotient(c, 8), Bits(ShiftSteps(c, 8)));
    BitsDetermineByte(FoldBack(c), ShiftSteps(c, 8));
  }

  lemma {:induction false} FoldRiscvMatchesFold(seed: bv8, msg: seq<bv8>)
    ensures FoldRiscv(seed, msg) == Fold(seed, msg)
  {
    if msg != [] {
      FoldRiscvMatchesFold(seed, msg[..|msg| - 1]);
      RiscvMatchesHost(Fold(seed, msg[..|msg| - 1]), msg[|msg| - 1]);
    }
  }

  // ---------------------------------------------------------------------------
  // Error detection
  // ---------------------------------------------------------------------------

  lemma {:induction false} StepsKeepZero(n: nat)
    ensures ShiftSteps(0, n) == 0
  {
    if n > 0 {
      StepsKeepZero(n - 1);
    }
  }

  // A message followed by its own CRC leaves a zero register.
  lemma AppendedCrcCancels(seed: bv8, msg: seq<bv8>)
    ensures Fold(seed, msg + [Fold(seed, msg)]) == 0
  {
    var c := Fold(seed, msg);
    assert (msg + [c])[..|msg|] == msg;
    assert c ^ c == 0;
    StepsKeepZero(8);
  }

  ghost predicate IsMultiple(d: Poly, q: Poly) {
    && |d| == |q| + 8
    && forall i :: 0 <= i < |d| ==> d[i] == TimesGenerator(q, i)
  }

  // The difference of two equally long messages, as a polynomial times x^8.
  function Difference(a: seq<bv8>, b: seq<bv8>): (d: Poly)
    requires |a| == |b|
    ensures |d| == 8 * |a| + 8
  {
    Sum(MessageBits(a), MessageBits(b)) + Zeros(8)
  }

  lemma DividendDifference(seed: bv8, a: seq<bv8>, b: seq<bv8>)
    requires |a| == |b|
    ensures Sum(Dividend(seed, a), Dividend(seed, b)) == Difference(a, b)
  {
    var x, y, s := MessageBits(a) + Zeros(8), MessageBits(b) + Zeros(8), Bits(seed) + Zeros(8 * |a|);
    forall i | 0 <= i < 8 * |a| + 8
      ensures Sum(Dividend(seed, a), Dividend(seed, b))[i] == Difference(a, b)[i]
    {
      assert Dividend(seed, a)[i] == Xor(s[i], x[i]) && Dividend(seed, b)[i] == Xor(s[i], y[i]);
    }
  }

  lemma TimesGeneratorIsLinear(p: Poly, q: Poly, i: int)
    requires |p| == |q|
    ensures TimesGenerator(Sum(p, q), i) == Xor(TimesGenerator(p, i), TimesGenerator(q, i))
  {
    assert forall j :: At(Sum(p, q), j) == Xor(At(p, j), At(q, j));
  }

  lemma SameRemainderIffMultiple(da: Poly, qa: Poly, ra: Poly, db: Poly, qb: Poly, rb: Poly)
    requires IsDivision(da, qa, ra) && IsDivision(db, qb, rb) && |da| == |db|
    ensures ra == rb <==> exists q :: IsMultiple(Sum(da, db), q)
  {
    if ra == rb {
      var q := Sum(qa, qb);
      forall i | 0 <= i < |da|
        ensures Sum(da, db)[i] == TimesGenerator(q, i)
      {
        TimesGeneratorIsLinear(qa, qb, i);
      }
      assert IsMultiple(Sum(da, db), q);
    }
    if q :| IsMultiple(Sum(da, db), q) {
      forall i | 0 <= i < |db|
        ensures db[i] == Xor(TimesGenerator(Sum(qa, q), i), At(ra, i - |qa|))
      {
        TimesGeneratorIsLinear(qa, q, i);
        assert Sum(da, db)[i] == TimesGenerator(q, i);
      }
      DivisionIsUnique(db, Sum(qa, q), ra, qb, rb);
    }
  }

  // Two messages collide exactly when their difference is a multiple of the generator.
  lemma CollisionIffMultiple(seed: bv8, a: seq<bv8>, b: seq<bv8>)
    requires |a| == |b|
    ensures Fold(seed, a) == Fold(seed, b) <==> exists q :: IsMultiple(Difference(a, b), q)
  {
    var qa := FoldDivides(seed, a);
    var qb := FoldDivides(seed, b);
    DividendDifference(seed, a, b);
    SameRemainderIffMultiple(Dividend(seed, a), qa, Bits(Fold(seed, a)), Dividend(seed, b), qb, Bits(Fold(seed, b)));
    if Bits(Fold(seed, a)) == Bits(Fold(seed, b)) {
      BitsDetermineByte(Fold(seed, a), Fold(seed, b));
    }
  }

  lemma {:induction false} FirstSet(q: Poly) returns (k: nat)
    requires exists j :: 0 <= j < |q| && q[j]
    ensures k < |q| && q[k] && forall j :: 0 <= j < k ==> !q[j]
  {
    if q[0] {
      k := 0;
    } else {
      var j :| 0 <= j < |q| && q[j];
      assert q[1..][j - 1];
      k := FirstSet(q[1..]);
      k := k + 1;
      forall i | 0 <= i < k ensures !q[i] { assert i > 0 ==> q[i] == q[1..][i - 1]; }
    }
  }

  lemma {:induction false} LastSet(q: Poly) returns (k: nat)
    requires exists j :: 0 <= j < |q| && q[j]
    ensures k < |q| && q[k] && forall j :: k < j < |q| ==> !q[j]
  {
    var n := |q| - 1;
    if q[n] {
      k := n;
    } else {
      var j :| 0 <= j < |q| && q[j];
      assert q[..n][j];
      k := LastSet(q[..n]);
    }
  }

  // A nonzero multiple of the generator spans at least nine coefficients.
  lemma MultipleIsWide(d: Poly, q: Poly, i: nat) returns (first: nat, last: nat)
    requires IsMultiple(d, q) && i < |d| && d[i]
    ensures first + 8 <= last < |d| && d[first] && d[last]
  {
    assert TimesGenerator(q, i);
    assert At(q, i) || At(q, i - 6) || At(q, i - 7) || At(q, i - 8);
    first := FirstSet(q);
    last := LastSet(q);
    last := last + 8;
    assert TimesGenerator(q, first) && TimesGenerator(q, last);
  }

  lemma {:induction false} MessageBitsDetermineMessage(a: seq<bv8>, b: seq<bv8>)
    requires |a| == |b| && MessageBits(a) == MessageBits(b)
    ensures a == b
  {
    if a != [] {
      var n := |a| - 1;
      var x, y := MessageBits(a), MessageBits(b);
      assert MessageBits(a[..n]) == x[..8 * n] && Bits(a[n]) == x[8 * n..];
      assert MessageBits(b[..n]) == y[..8 * n] && Bits(b[n]) == y[8 * n..];
      MessageBitsDetermineMessage(a[..n], b[..n]);
      BitsDetermineByte(a[n], b[n]);
      assert a == a[..n] + [a[n]] && b == b[..n] + [b[n]];
    }
  }

  lemma FirstDifferentBit(a: seq<bv8>, b: seq<bv8>) returns (i: nat)
    requires |a| == |b| && a != b
    ensures i < 8 * |a| && MessageBits(a)[i] != MessageBits(b)[i]
  {
    if forall j :: 0 <= j < 8 * |a| ==> MessageBits(a)[j] == MessageBits(b)[j] {
      MessageBitsDetermineMessage(a, b);
    }
    i :| 0 <= i < 8 * |a| && MessageBits(a)[i] != MessageBits(b)[i];
  }

  // An undetected change touches two bits at least eight positions apart.
  lemma UndetectedChangeIsWide(seed: bv8, a: seq<bv8>, b: seq<bv8>) returns (first: nat, last: nat)
    requires |a| == |b| && a != b && Fold(seed, a) == Fold(seed, b)
    ensures first + 8 <= last < 8 * |a|
    ensures MessageBits(a)[first] != MessageBits(b)[first]
    ensures MessageBits(a)[last] != MessageBits(b)[last]
  {
    CollisionIffMultiple(seed, a, b);
    var q :| IsMultiple(Difference(a, b), q);
    var i := FirstDifferentBit(a, b);
    first, last := MultipleIsWide(Difference(a, b), q, i);
  }

  // Messages that differ, but only within eight consecutive bits, never share a CRC.
  lemma BurstIsDetected(seed: bv8, a: seq<bv8>, b: seq<bv8>, lo: int)
    requires |a| == |b| && a != b
    requires forall i :: 0 <= i < 8 * |a| && MessageBits(a)[i] != MessageBits(b)[i] ==> lo <= i < lo + 8
    ensures Fold(seed, a) != Fold(seed, b)
  {
    if Fold(seed, a) == Fold(seed, b) {
      var first, last := UndetectedChangeIsWide(seed, a, b);
      assert false;
    }
  }
}
