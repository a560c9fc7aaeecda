// Types shared by the driver models: machine words, error codes and results.
module Common {

  const WORD_LIMIT := 0x1_0000_0000

  type u8 = x: int | 0 <= x < 256
  type u32 = x: int | 0 <= x < 0x1_0000_0000

  datatype Option<+T> = None | Some(value: T)

  datatype McuError =
    | InvalidParameter
    | Timeout
    | OtpReadError
    | OtpWriteError
    | MboxLockFailed
    | MboxTimeout
    | MboxCmdFailed
    | MboxInvalidResponse
    | OtherError(code: u32)

  // The outcome of an operation, without the storage that carries it.
  datatype Result<+T> = Ok(value: T) | Err(error: McuError)

  // What is left of x in 32 bits.
  function Wrapped(x: nat): u32 {
    if x < WORD_LIMIT then x else Wrapped(x - WORD_LIMIT)
  }

  lemma {:induction false} WrappedIsRemainder(x: nat)
    ensures Wrapped(x) == x % WORD_LIMIT
  {
    if x >= WORD_LIMIT {
      WrappedIsRemainder(x - WORD_LIMIT);
    }
  }

  // Its two's-complement negation.
  function Negate(x: nat): u32 {
    var w := Wrapped(x);
    if w == 0 then 0 else WORD_LIMIT - w
  }

  // (w >> 8 * i) & 0xFF
  function ByteOf(w: u32, i: nat): u8
    decreases i
  {
    if i == 0 then w % 0x100 else ByteOf(w / 0x100, i - 1)
  }

  // The four bytes of a word in memory order (little-endian).
  function BytesOf(w: u32): (b: seq<u8>)
    ensures |b| == 4 && forall i :: 0 <= i < 4 ==> b[i] == ByteOf(w, i)
  {
    seq(4, i requires 0 <= i < 4 => ByteOf(w, i))
  }

  function WordsToBytes(ws: seq<u32>): (b: seq<u8>)
    ensures |b| == 4 * |ws|
  {
    if ws == [] then [] else WordsToBytes(ws[..|ws| - 1]) + BytesOf(ws[|ws| - 1])
  }

  function ByteOrZero(b: seq<u8>, i: nat): u8 {
    if i < |b| then b[i] else 0
  }

  // The little-endian value of at most four bytes, extended with zeros.
  function Value(b: seq<u8>): u32
    requires |b| <= 4
  {
    ByteOrZero(b, 0) + 0x100 * ByteOrZero(b, 1) + 0x1_0000 * ByteOrZero(b, 2) + 0x100_0000 * ByteOrZero(b, 3)
  }

  function ByteSum(b: seq<u8>): (s: nat)
    ensures s <= 255 * |b|
  {
    if b == [] then 0 else ByteSum(b[..|b| - 1]) + b[|b| - 1]
  }

  lemma {:induction false} ByteSumConcat(a: seq<u8>, b: seq<u8>)
    ensures ByteSum(a + b) == ByteSum(a) + ByteSum(b)
  {
    if b == [] {
      assert a + b == a;
    } else {
      assert (a + b)[..|a + b| - 1] == a + b[..|b| - 1];
      ByteSumConcat(a, b[..|b| - 1]);
    }
  }

  lemma ByteShifted(w: u32, i: nat)
    requires i > 0
    ensures ByteOf(w, i) == ByteOf(w / 0x100, i - 1)
  {
  }

  lemma FourBytes(w: u32, w1: u32, w2: u32, w3: u32)
    requires w1 == w / 0x100 && w2 == w1 / 0x100 && w3 == w2 / 0x100
    ensures ByteOf(w, 0) == w % 0x100 && ByteOf(w, 1) == w1 % 0x100 && ByteOf(w, 2) == w2 % 0x100 && ByteOf(w, 3) == w3
  {
    ByteShifted(w, 1);
    ByteShifted(w, 2);
    ByteShifted(w1, 1);
    ByteShifted(w, 3);
    ByteShifted(w1, 2);
    ByteShifted(w2, 1);
  }

  lemma SplitWord(w: u32)
    ensures w == ByteOf(w, 0) + 0x100 * ByteOf(w, 1) + 0x1_0000 * ByteOf(w, 2) + 0x100_0000 * ByteOf(w, 3)
  {
    var w1 := w / 0x100;
    var w2 := w1 / 0x100;
    FourBytes(w, w1, w2, w2 / 0x100);
  }

  // data & ((1 << 8 * n) - 1)
  function LowBytes(w: u32, n: nat): u32
    requires n <= 4
  {
    if n == 0 then 0
    else if n == 1 then w % 0x100
    else if n == 2 then w % 0x1_0000
    else if n == 3 then w % 0x100_0000
    else w
  }

  lemma LowByte(w: nat, q: nat, r: u8)
    requires w == 0x100 * q + r
    ensures w / 0x100 == q && w % 0x100 == r
  {
  }

  lemma LowTwoBytes(w: nat, q: nat, r: nat)
    requires w == 0x1_0000 * q + r && r < 0x1_0000
    ensures w / 0x1_0000 == q && w % 0x1_0000 == r
  {
  }

  lemma LowThreeBytes(w: nat, q: nat, r: nat)
    requires w == 0x100_0000 * q + r && r < 0x100_0000
    ensures w / 0x100_0000 == q && w % 0x100_0000 == r
  {
  }

  lemma JoinBytes(b0: u8, b1: u8, b2: u8, b3: u8, w: u32)
    requires w == b0 + 0x100 * b1 + 0x1_0000 * b2 + 0x100_0000 * b3
    ensures ByteOf(w, 0) == b0 && ByteOf(w, 1) == b1 && ByteOf(w, 2) == b2 && ByteOf(w, 3) == b3
    ensures w % 0x1_0000 == b0 + 0x100 * b1
    ensures w % 0x100_0000 == b0 + 0x100 * b1 + 0x1_0000 * b2
  {
    LowByte(w, b1 + 0x100 * b2 + 0x1_0000 * b3, b0);
    LowByte(b1 + 0x100 * b2 + 0x1_0000 * b3, b2 + 0x100 * b3, b1);
    LowTwoBytes(w, b2 + 0x100 * b3, b0 + 0x100 * b1);
    LowByte(b2 + 0x100 * b3, b3, b2);
    LowThreeBytes(w, b3, b0 + 0x100 * b1 + 0x1_0000 * b2);
  }

  // Masking a word keeps its low bytes.
  lemma LowBytesKeep(w: u32, n: nat)
    requires n <= 4
    ensures forall i :: 0 <= i < 4 ==> ByteOf(LowBytes(w, n), i) == if i < n then ByteOf(w, i) else 0
  {
    var b0, b1, b2, b3 := ByteOf(w, 0), ByteOf(w, 1), ByteOf(w, 2), ByteOf(w, 3);
    SplitWord(w);
    JoinBytes(b0, b1, b2, b3, w);
    if n == 0 {
    } else if n == 1 {
      JoinBytes(b0, 0, 0, 0, LowBytes(w, n));
    } else if n == 2 {
      JoinBytes(b0, b1, 0, 0, LowBytes(w, n));
    } else if n == 3 {
      JoinBytes(b0, b1, b2, 0, LowBytes(w, n));
    }
  }

  // Masking a word is truncating its bytes.
  lemma LowBytesAreBytes(w: u32, n: nat)
    requires n <= 4
    ensures LowBytes(w, n) == Value(BytesOf(w)[..n])
  {
    LowBytesKeep(w, n);
    SplitWord(LowBytes(w, n));
    var b := BytesOf(w)[..n];
    assert forall i :: 0 <= i < 4 ==> ByteOrZero(b, i) == ByteOf(LowBytes(w, n), i);
  }

  // What a wait of `budget` polls gives up after: the counter is decremented
  // before it is compared with zero, so a budget of 0 wraps around.
  function PollLimit(budget: u32): (n: nat)
    ensures n > 0
  {
    if budget == 0 then WORD_LIMIT else budget
  }
}
