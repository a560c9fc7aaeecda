// The mailbox registers and the move-only response object that reads them.
module Response {
  import opened Common
  import opened MailboxChecksum
  import opened Mailbox

  // The mailbox from one driver's side. Its answers are arbitrary: answer(n) is
  // what the n-th access of the trace reads, whatever register it names.
  class Registers {
    const answer: nat -> u32
    var trace: seq<Access>

    constructor (answer: nat -> u32)
      ensures this.answer == answer && trace == []
    {
      this.answer := answer;
      trace := [];
    }

    method ReadLock() returns (v: u32)
      modifies this
      ensures v == answer(|old(trace)|) && trace == old(trace) + [Access.ReadLock(v)]
    {
      v := answer(|trace|);
      trace := trace + [Access.ReadLock(v)];
    }

    method ReadStatus() returns (v: u32)
      modifies this
      ensures v == answer(|old(trace)|) && trace == old(trace) + [Access.ReadStatus(v)]
    {
      v := answer(|trace|);
      trace := trace + [Access.ReadStatus(v)];
    }

    method ReadDlen() returns (v: u32)
      modifies this
      ensures v == answer(|old(trace)|) && trace == old(trace) + [Access.ReadDlen(v)]
    {
      v := answer(|trace|);
      trace := trace + [Access.ReadDlen(v)];
    }

    method ReadDataout() returns (v: u32)
      modifies this
      ensures v == answer(|old(trace)|) && trace == old(trace) + [Access.ReadDataout(v)]
    {
      v := answer(|trace|);
      trace := trace + [Access.ReadDataout(v)];
    }

    // A response object's read of what it takes to be DATAOUT.
    method ReadResponseData() returns (v: u32)
      modifies this
      ensures v == answer(|old(trace)|) && trace == old(trace) + [ResponseData(v)]
    {
      v := answer(|trace|);
      trace := trace + [ResponseData(v)];
    }

    method ReadFatal() returns (v: u32)
      modifies this
      ensures v == answer(|old(trace)|) && trace == old(trace) + [Access.ReadFatal(v)]
    {
      v := answer(|trace|);
      trace := trace + [Access.ReadFatal(v)];
    }

    method ReadNonFatal() returns (v: u32)
      modifies this
      ensures v == answer(|old(trace)|) && trace == old(trace) + [Access.ReadNonFatal(v)]
    {
      v := answer(|trace|);
      trace := trace + [Access.ReadNonFatal(v)];
    }

    // a names the register and the value.
    method Write(a: Access)
      requires a.IsWrite()
      modifies this
      ensures trace == old(trace) + [a]
    {
      trace := trace + [a];
    }
  }

  // ---------------------------------------------------------------------------
  // The stream position of a response, as a value
  // ---------------------------------------------------------------------------

  datatype Cursor = Cursor(dlen: u32, idx: nat, checksum: u32, expected: u32)

  // The position after one word was popped from DATAOUT.
  function Advance(c: Cursor, data: u32): Cursor
    requires 0 < c.idx < WordCount(c.dlen)
  {
    var n := ValidBytes(c.dlen, c.idx);
    c.(idx := c.idx + 1, checksum := (c.checksum + ByteSum(BytesOf(data)[..n])) % WORD_LIMIT)
  }

  function Consume(c: Cursor, raw: seq<u32>): (c': Cursor)
    requires 0 < c.idx && c.idx + |raw| <= WordCount(c.dlen)
    ensures c'.dlen == c.dlen && c'.idx == c.idx + |raw| && c'.expected == c.expected
  {
    if raw == [] then c else Advance(Consume(c, raw[..|raw| - 1]), raw[|raw| - 1])
  }

  predicate ChecksumAccepted(c: Cursor) {
    Negate(c.checksum) == c.expected
  }

  // Bytes 4 up to dlen of the response whose first word is `first` and whose
  // other words, last one with junk bytes, are raw.
  function PayloadBytes(dlen: u32, first: u32, raw: seq<u32>): seq<u8>
    requires 4 * (1 + |raw|) >= dlen
  {
    if dlen <= 4 then [] else WordsToBytes([first] + raw)[4..dlen]
  }

  lemma {:induction false} WordsToBytesConcat(a: seq<u32>, b: seq<u32>)
    ensures WordsToBytes(a + b) == WordsToBytes(a) + WordsToBytes(b)
  {
    if b == [] {
      assert a + b == a;
    } else {
      assert (a + b)[..|a + b| - 1] == a + b[..|b| - 1];
      WordsToBytesConcat(a, b[..|b| - 1]);
    }
  }

  lemma BytesOfOneMore(raw: seq<u32>, data: u32)
    ensures WordsToBytes(raw + [data]) == WordsToBytes(raw) + BytesOf(data)
  {
    assert (raw + [data])[..|raw|] == raw;
  }

  lemma CutAfter(whole: seq<u8>, a: seq<u8>, b: seq<u8>, c: seq<u8>, m: nat, n: nat)
    requires whole == (a + b) + c && |a| == m && n <= |b|
    ensures whole[..m + n] == a + b[..n]
    ensures whole[m..m + n] == b[..n]
  {
  }

  lemma SumOfLonger(whole: seq<u8>, a: seq<u8>, b: seq<u8>, m: nat, n: nat)
    requires whole == a + b && |a| == m && n <= |b|
    ensures ByteSum(whole[..m + n]) == ByteSum(a) + ByteSum(b[..n])
    ensures ByteSum(a[..m]) == ByteSum(a)
  {
    assert whole[..m + n] == a + b[..n] && a[..m] == a;
    ByteSumConcat(a, b[..n]);
  }

  lemma AdvanceAddsBytes(c: Cursor, data: u32, sum: nat, more: nat)
    requires 0 < c.idx < WordCount(c.dlen)
    requires more == ByteSum(BytesOf(data)[..ValidBytes(c.dlen, c.idx)])
    requires c.checksum == sum % WORD_LIMIT
    ensures Advance(c, data).checksum == (sum + more) % WORD_LIMIT
  {
    AddWraps(sum, more);
  }

  // How many bytes after the first word m further words contribute.
  function Contributed(dlen: u32, m: nat): (n: nat)
    requires 1 + m <= WordCount(dlen)
    ensures n <= 4 * m
  {
    if dlen <= 4 then 0 else if 4 * m <= dlen - 4 then 4 * m else dlen - 4
  }

  lemma ContributedGrows(dlen: u32, m: nat)
    requires 2 + m <= WordCount(dlen)
    ensures Contributed(dlen, m) == 4 * m
    ensures Contributed(dlen, m + 1) == 4 * m + ValidBytes(dlen, 1 + m)
  {
  }

  // The sum of the bytes that the words raw contribute.
  function SumOf(dlen: u32, raw: seq<u32>): nat
    requires 1 + |raw| <= WordCount(dlen)
  {
    ByteSum(WordsToBytes(raw)[..Contributed(dlen, |raw|)])
  }

  lemma SumOfOneMore(dlen: u32, raw: seq<u32>, data: u32)
    requires 2 + |raw| <= WordCount(dlen)
    ensures SumOf(dlen, raw + [data]) == SumOf(dlen, raw) + ByteSum(BytesOf(data)[..ValidBytes(dlen, 1 + |raw|)])
  {
    ContributedGrows(dlen, |raw|);
    BytesOfOneMore(raw, data);
    SumOfLonger(WordsToBytes(raw + [data]), WordsToBytes(raw), BytesOf(data), 4 * |raw|, ValidBytes(dlen, 1 + |raw|));
  }

  lemma {:induction false} ConsumedChecksum(dlen: u32, expected: u32, raw: seq<u32>)
    requires 1 + |raw| <= WordCount(dlen)
    ensures Consume(Cursor(dlen, 1, 0, expected), raw).checksum == SumOf(dlen, raw) % WORD_LIMIT
  {
    if raw == [] {
      assert WordsToBytes(raw)[..Contributed(dlen, 0)] == [];
    } else {
      var raw', data := raw[..|raw| - 1], raw[|raw| - 1];
      ConsumedChecksum(dlen, expected, raw');
      SumOfOneMore(dlen, raw', data);
      assert raw == raw' + [data];
      AdvanceAddsBytes(Consume(Cursor(dlen, 1, 0, expected), raw'), data, SumOf(dlen, raw'),
                       ByteSum(BytesOf(data)[..ValidBytes(dlen, 1 + |raw'|)]));
    }
  }

  lemma NegateIgnoresWraps(x: nat)
    ensures Negate(x % WORD_LIMIT) == Negate(x)
  {
    NegateCancels(x);
    NegateCancels(x % WORD_LIMIT);
  }

  lemma ChecksumOfNoCommand(payload: seq<u8>)
    ensures Checksum(0, payload) == Negate(ByteSum(payload))
  {
    ByteSumOfFour(BytesOf(0));
  }

  lemma DropFirst(whole: seq<u8>, a: seq<u8>, b: seq<u8>, m: nat)
    requires whole == a + b && |a| == 4 && 4 <= m <= 4 + |b|
    ensures whole[4..m] == b[..m - 4]
  {
  }

  lemma PayloadIsTail(dlen: u32, first: u32, raw: seq<u32>)
    requires 4 * (1 + |raw|) >= dlen
    ensures PayloadBytes(dlen, first, raw) == WordsToBytes(raw)[..if dlen <= 4 then 0 else dlen - 4]
  {
    if dlen > 4 {
      WordsToBytesConcat([first], raw);
      DropFirst(WordsToBytes([first] + raw), WordsToBytes([first]), WordsToBytes(raw), dlen);
    }
  }

  lemma AllContributed(dlen: u32, m: nat)
    requires 1 + m == WordCount(dlen)
    ensures 4 * (1 + m) >= dlen
    ensures Contributed(dlen, m) == if dlen <= 4 then 0 else dlen - 4
  {
  }

  // Once every word was read, the running checksum accepts the response exactly
  // when its first word is the checksum of the bytes after it.
  lemma StreamedChecksumIsChecksum(dlen: u32, expected: u32, raw: seq<u32>)
    requires 1 + |raw| == WordCount(dlen)
    ensures 4 * (1 + |raw|) >= dlen
    ensures ChecksumAccepted(Consume(Cursor(dlen, 1, 0, expected), raw))
            <==> expected == Checksum(0, PayloadBytes(dlen, expected, raw))
  {
    ConsumedChecksum(dlen, expected, raw);
    AllContributed(dlen, |raw|);
    PayloadIsTail(dlen, expected, raw);
    var payload := PayloadBytes(dlen, expected, raw);
    ChecksumOfNoCommand(payload);
    NegateIgnoresWraps(ByteSum(payload));
  }

  lemma BytesOfWordInside(before: seq<u32>, w: u32, after: seq<u32>, n: nat)
    requires n <= 4
    ensures WordsToBytes(before + [w] + after)[4 * |before|..4 * |before| + n] == BytesOf(w)[..n]
  {
    WordsToBytesConcat(before + [w], after);
    BytesOfOneMore(before, w);
    CutAfter(WordsToBytes(before + [w] + after), WordsToBytes(before), BytesOf(w), WordsToBytes(after), 4 * |before|, n);
  }

  // Each delivered word after the first is the zero-extended slice of the
  // response's bytes that it stands for.
  lemma DeliveredWordIsByteSlice(dlen: u32, raw: seq<u32>, k: nat)
    requires |raw| == WordCount(dlen) && 0 < k < |raw|
    ensures var hi := if 4 * k + 4 <= dlen then 4 * k + 4 else dlen;
            4 * k <= hi <= 4 * |raw| && hi <= 4 * k + 4 &&
            Delivered(dlen, k, raw[k]) == Value(WordsToBytes(raw)[4 * k..hi])
  {
    var n := ValidBytes(dlen, k);
    LowBytesAreBytes(raw[k], n);
    assert raw == raw[..k] + [raw[k]] + raw[k + 1..];
    BytesOfWordInside(raw[..k], raw[k], raw[k + 1..], n);
  }

  lemma ByteOfWord(ws: seq<u32>, k: nat, j: nat)
    requires k < |ws| && j < 4
    ensures 4 * k + j < |WordsToBytes(ws)| && WordsToBytes(ws)[4 * k + j] == ByteOf(ws[k], j)
  {
    assert ws == ws[..k] + [ws[k]] + ws[k + 1..];
    BytesOfWordInside(ws[..k], ws[k], ws[k + 1..], 4);
    assert WordsToBytes(ws)[4 * k..4 * k + 4][j] == BytesOf(ws[k])[..4][j];
  }

  // Byte for byte: the words delivered for a response of dlen bytes are these bytes, and
  // zeros after the last, except in a first word that is not full.
  lemma DeliveredBytes(dlen: u32, raw: seq<u32>, k: nat, j: nat)
    requires 0 < dlen <= 0xFFFF_FFFC && |raw| == WordCount(dlen) && k < |raw| && j < 4
    ensures 4 * |raw| - 4 < dlen <= 4 * |raw|
    ensures 4 * k + j < |WordsToBytes(raw)| == |WordsToBytes(ResponseWords(dlen, raw))|
    ensures WordsToBytes(ResponseWords(dlen, raw))[4 * k + j]
            == if k == 0 || 4 * k + j < dlen then WordsToBytes(raw)[4 * k + j] else 0
  {
    WordsCoverBytes(dlen);
    ByteOfWord(raw, k, j);
    ByteOfWord(ResponseWords(dlen, raw), k, j);
    LowBytesKeep(raw[k], ValidBytes(dlen, k));
  }

  // ---------------------------------------------------------------------------
  // The response object
  // ---------------------------------------------------------------------------

  lemma SumLowBytes(valid: u32, data: u32, n: nat)
    requires n <= 4 && forall i :: 0 <= i < n ==> ByteOf(valid, i) == ByteOf(data, i)
    ensures BytesOf(valid)[..n] == BytesOf(data)[..n]
  {
  }

  class CaliptraMailboxResponse {
    var regs: Registers
    var idx: nat
    var dlen: u32
    var checksum: u32
    var expected: u32
    var released: bool

    ghost function At(): Cursor
      reads this
    {
      Cursor(dlen, idx, checksum, expected)
    }

    constructor (regs: Registers, dlen: u32, expected: u32)
      ensures this.regs == regs && At() == Cursor(dlen, 0, 0, expected) && !released
    {
      this.regs := regs;
      this.idx := 0;
      this.dlen := dlen;
      this.checksum := 0;
      this.expected := expected;
      this.released := false;
    }

    // The move constructor.
    constructor Move(other: CaliptraMailboxResponse)
      modifies other`released
      ensures regs == other.regs && At() == other.At()
      ensures released == old(other.released) && other.released
    {
      regs := other.regs;
      idx := other.idx;
      dlen := other.dlen;
      checksum := other.checksum;
      expected := other.expected;
      released := other.released;
      new;
      other.released := true;
    }

    // The move assignment: releases what the target held, if it held anything.
    method MoveAssign(other: CaliptraMailboxResponse)
      modifies this, other`released, regs
      ensures this == other ==> regs == old(regs) && At() == old(At()) && released == old(released)
      ensures this != other ==> regs == other.regs && At() == other.At() && released == old(other.released) && other.released
      ensures old(regs).trace == old(regs.trace) + if this != other && !old(released) then [ResponseExecute(0)] else []
    {
      if this != other {
        if !released {
          regs.Write(ResponseExecute(0));
        }
        regs := other.regs;
        idx := other.idx;
        dlen := other.dlen;
        checksum := other.checksum;
        expected := other.expected;
        released := other.released;
        other.released := true;
      }
    }

    // The destructor.
    method Destroy()
      modifies regs
      ensures regs.trace == old(regs.trace) + if released then [] else [ResponseExecute(0)]
    {
      if !released {
        regs.Write(ResponseExecute(0));
      }
    }

    method VerifyChecksum() returns (r: Result<()>)
      ensures r == if ChecksumAccepted(At()) then Ok(()) else Err(MboxInvalidResponse)
      ensures r.Ok? <==> (checksum + expected) % 0x1_0000_0000 == 0
    {
      var sum := (0 - checksum) % WORD_LIMIT;
      if sum == expected {
        r := Ok(());
      } else {
        r := Err(MboxInvalidResponse);
      }
    }

    method Next() returns (word: Option<u32>)
      modifies this, regs
      ensures regs == old(regs) && released == old(released)
      ensures word == None <==> 4 * old(idx) >= dlen || dlen > 0xFFFF_FFFC
      ensures old(idx) >= WordCount(old(dlen)) ==> word == None && At() == old(At()) && regs.trace == old(regs.trace)
      ensures old(idx) < WordCount(old(dlen)) && old(idx) == 0 ==>
        word == Some(expected) && At() == old(At()).(idx := 1) && regs.trace == old(regs.trace)
      ensures old(idx) < WordCount(old(dlen)) && old(idx) > 0 ==>
        var data := regs.answer(|old(regs.trace)|);
        && regs.trace == old(regs.trace) + [ResponseData(data)]
        && word == Some(Delivered(old(dlen), old(idx), data))
        && At() == Advance(old(At()), data)
    {
      var wordCount := (dlen + 3) % WORD_LIMIT / 4;
      WordsCoverBytes(dlen);
      if idx >= wordCount {
        return None;
      }
      if idx == 0 {
        idx := idx + 1;
        return Some(expected);
      }
      var data := regs.ReadResponseData();
      idx := idx + 1;
      var remaining := dlen - (idx - 1) * 4;
      if remaining > 4 {
        remaining := 4;
      }
      var valid := data;
      if remaining < 4 {
        valid := LowBytes(data, remaining);
      }
      LowBytesKeep(data, remaining);
      SumLowBytes(valid, data, remaining);
      var sum := AddBytes(checksum, BytesOf(valid)[..remaining]);
      checksum := sum;
      return Some(valid);
    }

    method Reset()
      modifies this
      ensures regs == old(regs) && released == old(released)
      ensures At() == old(At()).(idx := 0, checksum := 0)
    {
      idx := 0;
      checksum := 0;
    }
  }

  // The DATAOUT values that n reads in a row from access number `start` on return.
  function RawFrom(answer: nat -> u32, start: nat, n: nat): (raw: seq<u32>)
    ensures |raw| == n
  {
    seq(n, (i: nat) => answer(start + i))
  }

  function DataTrace(raw: seq<u32>): (t: seq<Access>)
    ensures |t| == |raw|
  {
    seq(|raw|, i requires 0 <= i < |raw| => ResponseData(raw[i]))
  }

  // The response after `words` were delivered, `raw` popped from DATAOUT for them.
  ghost predicate DrainedSoFar(dlen: u32, first: u32, raw: seq<u32>, words: seq<u32>, at: Cursor) {
    && |words| <= WordCount(dlen)
    && |raw| == (if |words| == 0 then 0 else |words| - 1)
    && at == (if |words| == 0 then Cursor(dlen, 0, 0, first) else Consume(Cursor(dlen, 1, 0, first), raw))
    && forall k :: 0 <= k < |words| ==> words[k] == Delivered(dlen, k, ([first] + raw)[k])
  }

  lemma DrainNext(dlen: u32, first: u32, raw: seq<u32>, words: seq<u32>, at: Cursor, data: u32)
    requires DrainedSoFar(dlen, first, raw, words, at) && 0 < |words| < WordCount(dlen)
    ensures at.dlen == dlen && at.idx == |words|
    ensures DrainedSoFar(dlen, first, raw + [data], words + [Delivered(dlen, |words|, data)], Advance(at, data))
  {
    assert (raw + [data])[..|raw|] == raw;
    assert ([first] + (raw + [data]))[|words|] == data;
  }

  lemma DrainFirst(dlen: u32, first: u32)
    ensures DrainedSoFar(dlen, first, [], [], Cursor(dlen, 0, 0, first))
    ensures WordCount(dlen) > 0 ==> DrainedSoFar(dlen, first, [], [first], Cursor(dlen, 1, 0, first))
  {
  }

  lemma DrainedPosition(dlen: u32, first: u32, raw: seq<u32>, words: seq<u32>, at: Cursor)
    requires DrainedSoFar(dlen, first, raw, words, at)
    ensures at.dlen == dlen && at.idx == |words| && at.expected == first
    ensures words == [] ==> raw == [] && at == Cursor(dlen, 0, 0, first)
  {
  }

  // A reading that began when the trace was `start`.
  ghost predicate Reading(answer: nat -> u32, start: seq<Access>, dlen: u32, first: u32,
                          raw: seq<u32>, words: seq<u32>, at: Cursor, trace: seq<Access>) {
    && DrainedSoFar(dlen, first, raw, words, at)
    && raw == RawFrom(answer, |start|, |raw|)
    && trace == start + DataTrace(raw)
  }

  lemma ReadingBegins(answer: nat -> u32, start: seq<Access>, dlen: u32, first: u32)
    ensures Reading(answer, start, dlen, first, [], [], Cursor(dlen, 0, 0, first), start)
  {
    DrainFirst(dlen, first);
    assert DataTrace([]) == [];
  }

  // What next() does to it.
  lemma ReadingGoesOn(answer: nat -> u32, start: seq<Access>, dlen: u32, first: u32,
                      raw: seq<u32>, words: seq<u32>, at: Cursor, trace: seq<Access>)
    requires Reading(answer, start, dlen, first, raw, words, at, trace)
    ensures at.dlen == dlen && at.idx == |words| && at.expected == first
    ensures words == [] && WordCount(dlen) > 0 ==>
      raw == [] && Reading(answer, start, dlen, first, [], [first], at.(idx := 1), trace)
    ensures 0 < |words| < WordCount(dlen) ==>
      var data := answer(|trace|);
      Reading(answer, start, dlen, first, raw + [data], words + [Delivered(dlen, |words|, data)], Advance(at, data),
              trace + [ResponseData(data)])
  {
    DrainedPosition(dlen, first, raw, words, at);
    if 0 < |words| < WordCount(dlen) {
      var data := answer(|trace|);
      DrainNext(dlen, first, raw, words, at, data);
      assert DataTrace(raw + [data]) == DataTrace(raw) + [ResponseData(data)];
    }
  }

  // next(), on a new object the response is first moved to, if `move` says so, in the
  // course of a reading.
  method MoveAndNext(resp0: CaliptraMailboxResponse, move: bool, words0: seq<u32>,
                     ghost start: seq<Access>, ghost first: u32, ghost raw0: seq<u32>)
    returns (resp: CaliptraMailboxResponse, more: bool, words: seq<u32>, ghost raw: seq<u32>)
    requires Reading(resp0.regs.answer, start, resp0.dlen, first, raw0, words0, resp0.At(), resp0.regs.trace)
    modifies resp0, resp0.regs
    ensures resp.regs == old(resp0.regs) && resp.released == old(resp0.released) && resp.dlen == old(resp0.dlen)
    ensures if move then fresh(resp) && resp0.released else resp == resp0
    ensures Reading(resp.regs.answer, start, resp.dlen, first, raw, words, resp.At(), resp.regs.trace)
    ensures more == (|words0| < WordCount(resp.dlen)) && |words| == |words0| + if more then 1 else 0
  {
    ReadingGoesOn(resp0.regs.answer, start, resp0.dlen, first, raw0, words0, resp0.At(), resp0.regs.trace);
    ghost var data := resp0.regs.answer(|resp0.regs.trace|);
    resp := resp0;
    if move {
      resp := new CaliptraMailboxResponse.Move(resp0);
    }
    var word := resp.Next();
    more, words, raw := word != None, words0, raw0;
    if more {
      words := words0 + [word.value];
      if words0 != [] {
        raw := raw0 + [data];
      }
    }
  }

  // Drive a response to exhaustion, moving it to a new object wherever moveAt
  // says so. Where it is moved does not change the words, and no move releases.
  method Drain(resp0: CaliptraMailboxResponse, moveAt: nat -> bool)
    returns (resp: CaliptraMailboxResponse, words: seq<u32>, ghost raw: seq<u32>)
    requires resp0.idx == 0 && resp0.checksum == 0
    modifies resp0, resp0.regs
    ensures resp.regs == old(resp0.regs) && resp.released == old(resp0.released)
    ensures resp != resp0 ==> fresh(resp) && resp0.released
    ensures |words| == WordCount(old(resp0.dlen))
    ensures DrainedSoFar(old(resp0.dlen), old(resp0.expected), raw, words, resp.At())
    ensures raw == RawFrom(old(resp0.regs).answer, |old(resp0.regs.trace)|, |raw|)
    ensures old(resp0.regs).trace == old(resp0.regs.trace) + DataTrace(raw)
  {
    resp := resp0;
    words, raw := [], [];
    ghost var regs, dlen, first, start := resp0.regs, resp0.dlen, resp0.expected, resp0.regs.trace;
    ReadingBegins(regs.answer, start, dlen, first);
    while true
      invariant resp.regs == regs && resp.released == old(resp0.released) && resp.dlen == dlen
      invariant resp == resp0 || (fresh(resp) && resp0.released)
      invariant |words| <= WordCount(dlen) && Reading(regs.answer, start, dlen, first, raw, words, resp.At(), regs.trace)
      decreases WordCount(dlen) - |words|
    {
      var more;
      resp, more, words, raw := MoveAndNext(resp, moveAt(|words|), words, start, first, raw);
      if !more {
        break;
      }
    }
  }

  // The whole stream, then the verdict on its checksum.
  method DrainAndVerify(resp0: CaliptraMailboxResponse, moveAt: nat -> bool)
    returns (resp: CaliptraMailboxResponse, words: seq<u32>, verdict: Result<()>)
    requires resp0.idx == 0 && resp0.checksum == 0
    modifies resp0, resp0.regs
    ensures resp.released == old(resp0.released)
    ensures var dlen := old(resp0.dlen);
            if dlen <= 0xFFFF_FFFC then 4 * |words| - 4 < dlen <= 4 * |words| else words == []
    ensures var regs, dlen, first := old(resp0.regs), old(resp0.dlen), old(resp0.expected);
            if WordCount(dlen) == 0 then
              words == [] && regs.trace == old(resp0.regs.trace) && (verdict.Ok? <==> first == 0)
            else
              var raw := RawFrom(regs.answer, |old(resp0.regs.trace)|, WordCount(dlen) - 1);
              && regs.trace == old(resp0.regs.trace) + DataTrace(raw)
              && words == ResponseWords(dlen, [first] + raw)
              && 4 * (1 + |raw|) >= dlen
              && (verdict.Ok? <==> first == Checksum(0, PayloadBytes(dlen, first, raw)))
  {
    ghost var dlen, first := resp0.dlen, resp0.expected;
    ghost var raw;
    resp, words, raw := Drain(resp0, moveAt);
    verdict := resp.VerifyChecksum();
    WordsCoverBytes(dlen);
    if WordCount(dlen) > 0 {
      assert words == ResponseWords(dlen, [first] + raw);
      StreamedChecksumIsChecksum(dlen, first, raw);
    }
  }

  // ---------------------------------------------------------------------------
  // Reset does not rewind
  // ---------------------------------------------------------------------------

  // The words of a whole response whose words after the first are what the
  // accesses from number `start` on read.
  function Pass(dlen: u32, first: u32, answer: nat -> u32, start: nat): (words: seq<u32>)
    ensures |words| == WordCount(dlen)
  {
    ResponseWords(dlen, [first] + RawFrom(answer, start, WordCount(dlen)))
  }

  function Least(a: nat, b: nat): nat { if a < b then a else b }

  // How many words of DATAOUT are gone after n words were asked for.
  function Gone(dlen: u32, n: nat): nat {
    if Least(n, WordCount(dlen)) == 0 then 0 else Least(n, WordCount(dlen)) - 1
  }

  lemma DrainedIsPass(dlen: u32, first: u32, answer: nat -> u32, start: nat, raw: seq<u32>, words: seq<u32>, at: Cursor)
    requires DrainedSoFar(dlen, first, raw, words, at) && raw == RawFrom(answer, start, |raw|)
    ensures words == Pass(dlen, first, answer, start)[..|words|]
  {
    var all := [first] + RawFrom(answer, start, WordCount(dlen));
    forall k | 0 <= k < |words|
      ensures words[k] == Pass(dlen, first, answer, start)[k]
    {
      assert ([first] + raw)[k] == all[k];
    }
  }

  // Ask for n words.
  method TakeWords(resp: CaliptraMailboxResponse, n: nat) returns (words: seq<u32>, ghost raw: seq<u32>)
    requires resp.idx == 0 && resp.checksum == 0
    modifies resp, resp.regs
    ensures resp.regs == old(resp.regs) && resp.released == old(resp.released)
    ensures |words| == Least(n, WordCount(old(resp.dlen)))
    ensures DrainedSoFar(old(resp.dlen), old(resp.expected), raw, words, resp.At())
    ensures raw == RawFrom(resp.regs.answer, |old(resp.regs.trace)|, |raw|)
    ensures resp.regs.trace == old(resp.regs.trace) + DataTrace(raw)
  {
    words, raw := [], [];
    ghost var regs, dlen, first, start := resp.regs, resp.dlen, resp.expected, resp.regs.trace;
    ReadingBegins(regs.answer, start, dlen, first);
    for i := 0 to n
      invariant resp.regs == regs && resp.released == old(resp.released) && resp.dlen == dlen
      invariant |words| == Least(i, WordCount(dlen))
      invariant Reading(regs.answer, start, dlen, first, raw, words, resp.At(), regs.trace)
    {
      var same, more;
      same, more, words, raw := MoveAndNext(resp, false, words, start, first, raw);
    }
  }

  // Take n words, reset, and read everything again: the second reading goes on in
  // DATAOUT where the first one stopped.
  method TakeResetDrain(resp0: CaliptraMailboxResponse, n: nat) returns (before: seq<u32>, again: seq<u32>)
    requires resp0.idx == 0 && resp0.checksum == 0
    modifies resp0, resp0.regs
    ensures var dlen, first, answer, start := old(resp0.dlen), old(resp0.expected), old(resp0.regs).answer, |old(resp0.regs.trace)|;
            && before == Pass(dlen, first, answer, start)[..Least(n, WordCount(dlen))]
            && again == Pass(dlen, first, answer, start + Gone(dlen, n))
  {
    ghost var dlen, first, answer, start := resp0.dlen, resp0.expected, resp0.regs.answer, |resp0.regs.trace|;
    ghost var raw, at;
    before, raw := TakeWords(resp0, n);
    at := resp0.At();
    DrainedPosition(dlen, first, raw, before, at);
    DrainedIsPass(dlen, first, answer, start, raw, before, at);
    resp0.Reset();
    var resp;
    resp, again, raw := Drain(resp0, _ => false);
    DrainedIsPass(dlen, first, answer, start + Gone(dlen, n), raw, again, resp.At());
  }

  // So a second reading after a reset delivers the response again, whatever it is,
  // exactly when no more than the first word had been taken.
  lemma ResetRewindsIff(dlen: u32, first: u32, start: nat, n: nat)
    ensures (forall answer: nat -> u32 ::
               Pass(dlen, first, answer, start + Gone(dlen, n)) == Pass(dlen, first, answer, start))
            <==> Least(n, WordCount(dlen)) <= 1
  {
    if Least(n, WordCount(dlen)) > 1 {
      var answer: nat -> u32 := i => if i == start then 1 else 0;
      assert Pass(dlen, first, answer, start)[1] == LowBytes(1, ValidBytes(dlen, 1));
      assert Pass(dlen, first, answer, start + Gone(dlen, n))[1] == LowBytes(0, ValidBytes(dlen, 1));
    }
  }

  // ---------------------------------------------------------------------------
  // McuResult<std::optional<CaliptraMailboxResponse>>
  // ---------------------------------------------------------------------------

  // What the result's bytes hold: nothing yet, an empty optional, or an
  // optional with a response inside.
  datatype Storage = Raw | Nullopt | Holds(response: CaliptraMailboxResponse)

  class ResponseResult {
    var hasValue: bool
    var error: Option<McuError>
    var storage: Storage

    constructor OkNullopt()
      ensures hasValue && error == None && storage == Nullopt
    {
      hasValue, error, storage := true, None, Nullopt;
    }

    // McuResult::Ok(std::move(response)): a temporary optional is move-constructed
    // from the response, then the storage from the temporary.
    constructor OkValue(response: CaliptraMailboxResponse)
      modifies response`released
      ensures hasValue && error == None && storage.Holds? && fresh(storage.response)
      ensures storage.response.regs == response.regs && storage.response.At() == response.At()
      ensures storage.response.released == old(response.released) && response.released
    {
      hasValue, error, storage := true, None, Raw;
      new;
      var temporary := new CaliptraMailboxResponse.Move(response);
      var inPlace := new CaliptraMailboxResponse.Move(temporary);
      storage := Holds(inPlace);
    }

    constructor Fail(e: McuError)
      ensures !hasValue && error == Some(e) && storage == Raw
    {
      hasValue, error, storage := false, Some(e), Raw;
    }

    predicate IsErr()
      reads this
    {
      error.Some?
    }

    // std::move(result).value(): whoever gets the reference has to destroy the value.
    method Value()
      modifies this`hasValue
      ensures !hasValue
    {
      hasValue := false;
    }

    // T x = std::move(result).value(): the caller's optional takes the response
    // over and the result will not destroy what is left behind.
    method TakeValue() returns (value: Option<CaliptraMailboxResponse>)
      requires storage != Raw
      modifies this`hasValue, (if storage.Holds? then {storage.response} else {})`released
      ensures !hasValue
      ensures old(storage).Nullopt? ==> value == None
      ensures old(storage).Holds? ==>
        var r := storage.response;
        && value.Some? && fresh(value.value)
        && value.value.regs == r.regs == old(r.regs) && value.value.At() == r.At() == old(r.At())
        && value.value.released == old(r.released) && r.released
    {
      Value();
      if storage.Holds? {
        var taken := new CaliptraMailboxResponse.Move(storage.response);
        value := Some(taken);
      } else {
        value := None;
      }
    }

    // T x = std::move(result).unwrap(); on anything but a value the program hangs.
    method Unwrap() returns (value: Option<CaliptraMailboxResponse>)
      requires hasValue && storage != Raw && !IsErr()
      modifies this`hasValue, (if storage.Holds? then {storage.response} else {})`released
      ensures !hasValue
      ensures old(storage).Nullopt? ==> value == None
      ensures old(storage).Holds? ==>
        var r := storage.response;
        && value.Some? && fresh(value.value)
        && value.value.regs == r.regs == old(r.regs) && value.value.At() == r.At() == old(r.At())
        && value.value.released == old(r.released) && r.released
    {
      value := TakeValue();
    }

    // T x = std::move(result).unwrap_or(std::move(fallback)), with the parameter
    // `fallback` destroyed at the end: the value if there is one, else the fallback.
    method UnwrapOr(fallback: CaliptraMailboxResponse) returns (value: Option<CaliptraMailboxResponse>)
      requires (hasValue ==> storage != Raw) && (storage.Holds? ==> storage.response != fallback)
      modifies this`hasValue, fallback`released, fallback.regs
      modifies (if hasValue && !IsErr() && storage.Holds? then {storage.response} else {})`released
      ensures var taken := old(!IsErr() && hasValue);
        && hasValue == (old(hasValue) && !taken)
        && fallback.regs == old(fallback.regs)
        && fallback.regs.trace == old(fallback.regs.trace) + (if taken && !old(fallback.released) then [ResponseExecute(0)] else [])
        && (!taken ==>
             && value.Some? && fresh(value.value) && value.value.regs == fallback.regs
             && value.value.At() == old(fallback.At()) && value.value.released == old(fallback.released))
        && (taken && old(storage).Nullopt? ==> value == None)
        && (taken && old(storage).Holds? ==>
             var r := storage.response;
             && value.Some? && fresh(value.value)
             && value.value.regs == r.regs == old(r.regs) && value.value.At() == r.At() == old(r.At())
             && value.value.released == old(r.released) && r.released)
    {
      if !IsErr() && hasValue {
        value := TakeValue();
      } else {
        var moved := new CaliptraMailboxResponse.Move(fallback);
        value := Some(moved);
      }
      fallback.Destroy();
    }

    // The move constructor.
    constructor Move(other: ResponseResult)
      requires other.hasValue ==> other.storage != Raw
      modifies other`hasValue, (if other.hasValue && other.storage.Holds? then {other.storage.response} else {})`released
      ensures hasValue == old(other.hasValue) && error == other.error && !other.hasValue
      ensures !hasValue ==> storage == Raw
      ensures hasValue && other.storage.Nullopt? ==> storage == Nullopt
      ensures hasValue && other.storage.Holds? ==>
        var r := other.storage.response;
        && storage.Holds? && fresh(storage.response)
        && storage.response.regs == old(r.regs) && storage.response.At() == old(r.At())
        && storage.response.released == old(r.released) && r.released
    {
      hasValue, error := other.hasValue, other.error;
      storage := Raw;
      new;
      if hasValue {
        if other.storage.Holds? {
          var moved := new CaliptraMailboxResponse.Move(other.storage.response);
          storage := Holds(moved);
        } else {
          storage := Nullopt;
        }
        other.hasValue := false;
      }
    }

    // The destructor.
    method Destroy()
      requires hasValue ==> storage != Raw
      modifies if hasValue && storage.Holds? then {storage.response.regs} else {}
      ensures hasValue && storage.Holds? ==>
        var r := storage.response;
        r.regs.trace == old(r.regs.trace) + if !r.released then [ResponseExecute(0)] else []
    {
      if hasValue && storage.Holds? {
        storage.response.Destroy();
      }
    }

    // The move assignment: the old value is destroyed, then the other's moved in. If
    // there is none, what is left is the destroyed value's bytes. `kept` is whether
    // its destructor leaves the flags in them; if not, nothing can be found there.
    method MoveAssign(other: ResponseResult, kept: bool)
      requires (hasValue ==> storage != Raw) && (other.hasValue ==> other.storage != Raw)
      requires this != other && storage.Holds? && other.storage.Holds? ==> storage.response != other.storage.response
      modifies this, other`hasValue
      modifies if this != other && hasValue && storage.Holds? then {storage.response.regs} else {}
      modifies (if this != other && other.hasValue && other.storage.Holds? then {other.storage.response} else {})`released
      ensures this == other ==> hasValue == old(hasValue) && error == old(error) && storage == old(storage)
      ensures this != other ==> hasValue == old(other.hasValue) && error == other.error && !other.hasValue
      ensures this != other && !hasValue ==> storage == if old(hasValue) && !kept then Raw else old(storage)
      ensures this != other && hasValue && other.storage.Nullopt? ==> storage == Nullopt
      ensures this != other && old(hasValue) && old(storage).Holds? ==>
        var r := old(storage).response;
        old(r.regs).trace == old(r.regs.trace) + if !old(r.released) then [ResponseExecute(0)] else []
      ensures this != other && hasValue && other.storage.Holds? ==>
        var r := other.storage.response;
        && storage.Holds? && fresh(storage.response)
        && storage.response.regs == old(r.regs) && storage.response.At() == old(r.At())
        && storage.response.released == old(r.released) && r.released
    {
      if this != other {
        Destroy();
        if hasValue && !kept {
          storage := Raw;
        }
        hasValue := other.hasValue;
        error := other.error;
        if hasValue {
          if other.storage.Holds? {
            var moved := new CaliptraMailboxResponse.Move(other.storage.response);
            storage := Holds(moved);
          } else {
            storage := Nullopt;
          }
          other.hasValue := false;
        }
      }
    }

  }
}
