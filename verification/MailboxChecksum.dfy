// The mailbox checksum: the negated sum of the command's and the payload's bytes.
module MailboxChecksum {
  import opened Common

  const MAILBOX_SIZE := 256 * 1024

  function Checksum(cmd: u32, payload: seq<u8>): u32 {
    Negate(ByteSum(BytesOf(cmd)) + ByteSum(payload))
  }

  lemma AddWraps(x: nat, y: nat)
    ensures (x % WORD_LIMIT + y) % WORD_LIMIT == (x + y) % WORD_LIMIT
  {
  }

  // checksum += b[i], in 32 bits, for every byte of b.
  method AddBytes(checksum0: u32, b: seq<u8>) returns (checksum: u32)
    ensures checksum == (checksum0 + ByteSum(b)) % WORD_LIMIT
  {
    checksum := checksum0;
    for i := 0 to |b|
      invariant checksum == (checksum0 + ByteSum(b[..i])) % WORD_LIMIT
    {
      assert b[..i + 1][..i] == b[..i];
      AddWraps(checksum0 + ByteSum(b[..i]), b[i]);
      checksum := (checksum + b[i]) % WORD_LIMIT;
    }
    assert b[..|b|] == b;
  }

  lemma NegateCancels(x: nat)
    ensures Negate(x) == (WORD_LIMIT - x % WORD_LIMIT) % WORD_LIMIT
    ensures (x + Negate(x)) % WORD_LIMIT == 0
  {
    WrappedIsRemainder(x);
  }

  method CalcChecksum(cmd: u32, payload: seq<u8>) returns (r: u32)
    ensures r == Checksum(cmd, payload)
    ensures (ByteSum(BytesOf(cmd)) + ByteSum(payload) + r) % WORD_LIMIT == 0
  {
    var checksum := AddBytes(0, BytesOf(cmd));
    assert checksum == ByteSum(BytesOf(cmd)) % WORD_LIMIT;
    checksum := AddBytes(checksum, payload);
    ghost var sum := ByteSum(BytesOf(cmd)) + ByteSum(payload);
    AddWraps(ByteSum(BytesOf(cmd)), ByteSum(payload));
    assert checksum == sum % WORD_LIMIT;
    NegateCancels(sum);
    var complement := WORD_LIMIT - 1 - checksum;
    r := (complement + 1) % WORD_LIMIT;
  }

  lemma ByteSumOfFour(b: seq<u8>)
    requires |b| == 4
    ensures ByteSum(b) == b[0] as int + b[1] as int + b[2] as int + b[3] as int
  {
    assert b[..3][..2] == b[..2] && b[..2][..1] == b[..1];
    assert ByteSum(b[..1]) == b[0] as int;
    assert ByteSum(b[..2]) == ByteSum(b[..1]) + b[1];
    assert ByteSum(b[..3]) == ByteSum(b[..2]) + b[2];
  }

  lemma RemaindersDiffer(x: nat, y: nat)
    requires 0 < y - x < WORD_LIMIT
    ensures x % WORD_LIMIT != y % WORD_LIMIT
  {
  }

  lemma NegateIsInjective(x: nat, y: nat)
    requires -WORD_LIMIT < x - y < WORD_LIMIT
    ensures Negate(x) == Negate(y) <==> x == y
  {
    WrappedIsRemainder(x);
    WrappedIsRemainder(y);
    if x < y { RemaindersDiffer(x, y); } else if y < x { RemaindersDiffer(y, x); }
  }

  // Up to the size of the mailbox nothing wraps around, so equal checksums mean
  // equal byte sums as integers.
  lemma EqualChecksumsIffEqualSums(cmd: u32, payload: seq<u8>, cmd': u32, payload': seq<u8>)
    requires |payload| <= MAILBOX_SIZE && |payload'| <= MAILBOX_SIZE
    ensures Checksum(cmd, payload) == Checksum(cmd', payload')
            <==> ByteSum(BytesOf(cmd)) + ByteSum(payload) == ByteSum(BytesOf(cmd')) + ByteSum(payload')
  {
    NegateIsInjective(ByteSum(BytesOf(cmd)) + ByteSum(payload), ByteSum(BytesOf(cmd')) + ByteSum(payload'));
  }

  lemma ByteSumOfUpdate(b: seq<u8>, i: nat, x: u8)
    requires i < |b|
    ensures ByteSum(b[i := x]) == ByteSum(b) - b[i] + x
  {
    assert b == b[..i] + ([b[i]] + b[i + 1..]) && b[i := x] == b[..i] + ([x] + b[i + 1..]);
    ByteSumConcat(b[..i], [b[i]] + b[i + 1..]);
    ByteSumConcat(b[..i], [x] + b[i + 1..]);
    ByteSumConcat([b[i]], b[i + 1..]);
    ByteSumConcat([x], b[i + 1..]);
    assert ByteSum([x]) == x && ByteSum([b[i]]) == b[i];
  }

  // A change of one payload byte is always seen, whatever the length.
  lemma PayloadByteChangeIsSeen(cmd: u32, payload: seq<u8>, i: nat, x: u8)
    requires i < |payload| && payload[i] != x
    ensures Checksum(cmd, payload[i := x]) != Checksum(cmd, payload)
  {
    ByteSumOfUpdate(payload, i, x);
    NegateIsInjective(ByteSum(BytesOf(cmd)) + ByteSum(payload[i := x]), ByteSum(BytesOf(cmd)) + ByteSum(payload));
  }

  lemma OneByteOff(b: seq<u8>, b': seq<u8>, i: nat)
    requires |b| == |b'| && i < |b| && b[i] != b'[i]
    requires forall j :: 0 <= j < |b| && j != i ==> b[j] == b'[j]
    ensures 0 < ByteSum(b) - ByteSum(b') < 256 || 0 < ByteSum(b') - ByteSum(b) < 256
  {
    assert b' == b[i := b'[i]];
    ByteSumOfUpdate(b, i, b'[i]);
  }

  ghost predicate DifferInByte(w: u32, w': u32, i: nat) {
    && i < 4 && ByteOf(w, i) != ByteOf(w', i)
    && forall j :: 0 <= j < 4 && j != i ==> ByteOf(w, j) == ByteOf(w', j)
  }

  lemma OneCommandByteOff(cmd: u32, cmd': u32, i: nat) returns (x: nat, y: nat)
    requires DifferInByte(cmd, cmd', i)
    ensures x == ByteSum(BytesOf(cmd)) && y == ByteSum(BytesOf(cmd'))
    ensures 0 < x - y < 256 || 0 < y - x < 256
  {
    OneByteOff(BytesOf(cmd), BytesOf(cmd'), i);
    x, y := ByteSum(BytesOf(cmd)), ByteSum(BytesOf(cmd'));
  }

  // So is a change of one byte of the command.
  lemma CommandByteChangeIsSeen(cmd: u32, cmd': u32, i: nat, payload: seq<u8>)
    requires DifferInByte(cmd, cmd', i)
    ensures Checksum(cmd, payload) != Checksum(cmd', payload)
  {
    var x, y := OneCommandByteOff(cmd, cmd', i);
    var more := ByteSum(payload);
    NegateIsInjective(x + more, y + more);
  }

  // Exchanging two payload bytes is never seen.
  lemma ExchangedBytesAreNotSeen(cmd: u32, payload: seq<u8>, i: nat, j: nat)
    requires i < |payload| && j < |payload|
    ensures Checksum(cmd, payload[i := payload[j]][j := payload[i]]) == Checksum(cmd, payload)
  {
    ByteSumOfUpdate(payload, i, payload[j]);
    ByteSumOfUpdate(payload[i := payload[j]], j, payload[i]);
  }
}
