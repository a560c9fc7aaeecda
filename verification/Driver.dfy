// CaliptraSoC: the driver side of the mailbox protocol.
module Driver {
  import opened Common
  import opened MailboxChecksum
  import opened Mailbox
  import opened Response

  // The trace grew, and from pc0 the added accesses lead to pc.
  ghost predicate Reached(pc0: Pc, before: seq<Access>, after: seq<Access>, pc: Pc) {
    before <= after && Run(pc0, after[|before|..]) == Some(pc)
  }

  lemma ReachedHere(pc0: Pc, before: seq<Access>)
    ensures Reached(pc0, before, before, pc0)
  {
    assert before[|before|..] == [];
  }

  lemma ReachedStep(pc0: Pc, before: seq<Access>, after: seq<Access>, pc: Pc, a: Access)
    requires Reached(pc0, before, after, pc) && Step(pc, a).Some?
    ensures Reached(pc0, before, after + [a], Step(pc, a).value)
  {
    assert (after + [a])[|before|..] == after[|before|..] + [a];
    RunOne(pc0, after[|before|..], a);
  }

  lemma ReachedThen(pc0: Pc, t0: seq<Access>, t1: seq<Access>, pc1: Pc, t2: seq<Access>, pc2: Pc)
    requires Reached(pc0, t0, t1, pc1) && Reached(pc1, t1, t2, pc2)
    ensures Reached(pc0, t0, t2, pc2)
  {
    assert t2[|t0|..] == t1[|t0|..] + t2[|t1|..];
    RunConcat(pc0, t1[|t0|..], t2[|t1|..]);
  }

  // ---------------------------------------------------------------------------
  // Requests, at once and step by step
  // ---------------------------------------------------------------------------

  // Lock, check the lock, set command and length.
  function SetupTrace(lock0: u32, lock1: u32, cmd: u32, len: u32): seq<Access> {
    if Locked(lock0) then [ReadLock(lock0)]
    else if !Locked(lock1) then [ReadLock(lock0), ReadLock(lock1)]
    else [ReadLock(lock0), ReadLock(lock1), WriteCmd(cmd), WriteDlen(len)]
  }

  predicate SetupSucceeds(lock0: u32, lock1: u32) {
    !Locked(lock0) && Locked(lock1)
  }

  function LockResult(ok: bool): Result<()> {
    if ok then Ok(()) else Err(MboxLockFailed)
  }

  // Everything a request writes.
  function FullWrites(cmd: u32, len: u32, data: seq<u32>): seq<Access> {
    [WriteCmd(cmd), WriteDlen(len)] + DataWrites(data) + [WriteExecute(1)]
  }

  function OneShotTrace(lock0: u32, lock1: u32, cmd: u32, len: u32, data: seq<u32>): seq<Access> {
    SetupTrace(lock0, lock1, cmd, len)
    + if SetupSucceeds(lock0, lock1) then DataWrites(data) + [WriteExecute(1)] else []
  }

  // By bit 0 of the two LOCK values: a first one that is set ends the request, so does a
  // second one that is not, and otherwise everything is written, in this order.
  lemma OneShotByLocks(lock0: u32, lock1: u32, cmd: u32, len: u32, data: seq<u32>)
    ensures var t, r := OneShotTrace(lock0, lock1, cmd, len, data), LockResult(SetupSucceeds(lock0, lock1));
            if lock0 % 2 == 1 then t == [ReadLock(lock0)] && r == Err(MboxLockFailed)
            else if lock1 % 2 == 0 then t == [ReadLock(lock0), ReadLock(lock1)] && r == Err(MboxLockFailed)
            else
              && r == Ok(()) && |t| == |data| + 5
              && t[..4] == [ReadLock(lock0), ReadLock(lock1), WriteCmd(cmd), WriteDlen(len)]
              && (forall i :: 0 <= i < |data| ==> t[4..][i] == WriteDatain(data[i]))
              && t[|data| + 4] == WriteExecute(1)
    ensures SetupTrace(lock0, lock1, cmd, len)
         == OneShotTrace(lock0, lock1, cmd, len, data)[..if lock0 % 2 == 1 then 1 else if lock1 % 2 == 0 then 2 else 4]
  {
  }

  lemma {:induction false} WritesConcat(s: seq<Access>, t: seq<Access>)
    ensures Writes(s + t) == Writes(s) + Writes(t)
  {
    if t == [] {
      assert s + t == s;
    } else {
      assert (s + t)[..|s + t| - 1] == s + t[..|t| - 1];
      WritesConcat(s, t[..|t| - 1]);
    }
  }

  lemma OneAccess(a: Access)
    ensures Writes([a]) == if a.IsWrite() then [a] else []
    ensures LockReads([a]) == if a.ReadLock? then [a.v] else []
  {
    assert [a][..0] == [];
  }

  lemma OneMoreAccess(t: seq<Access>, a: Access)
    ensures Writes(t + [a]) == Writes(t) + if a.IsWrite() then [a] else []
    ensures LockReads(t + [a]) == LockReads(t) + if a.ReadLock? then [a.v] else []
  {
    assert (t + [a])[..|t|] == t;
  }

  lemma {:induction false} DataWritesOnly(data: seq<u32>)
    ensures Writes(DataWrites(data)) == DataWrites(data)
    ensures LockReads(DataWrites(data)) == []
  {
    if data != [] {
      var d := data[..|data| - 1];
      assert DataWrites(data) == DataWrites(d) + [WriteDatain(data[|data| - 1])];
      DataWritesOnly(d);
      OneMoreAccess(DataWrites(d), WriteDatain(data[|data| - 1]));
    }
  }

  lemma LockReadsOnly(lock0: u32, lock1: u32)
    ensures var t := [ReadLock(lock0)]; Writes(t) == [] && LockReads(t) == [lock0]
    ensures var t := [ReadLock(lock0), ReadLock(lock1)]; Writes(t) == [] && LockReads(t) == [lock0, lock1]
  {
    OneAccess(ReadLock(lock0));
    OneMoreAccess([ReadLock(lock0)], ReadLock(lock1));
    assert [ReadLock(lock0)] + [ReadLock(lock1)] == [ReadLock(lock0), ReadLock(lock1)];
  }

  lemma SetupAccesses(lock0: u32, lock1: u32, cmd: u32, len: u32)
    ensures var t := SetupTrace(lock0, lock1, cmd, len);
            && Writes(t) == (if SetupSucceeds(lock0, lock1) then [WriteCmd(cmd), WriteDlen(len)] else [])
            && LockReads(t) == if Locked(lock0) then [lock0] else [lock0, lock1]
  {
    LockReadsOnly(lock0, lock1);
    if SetupSucceeds(lock0, lock1) {
      var locks := [ReadLock(lock0), ReadLock(lock1)];
      OneMoreAccess(locks, WriteCmd(cmd));
      OneMoreAccess(locks + [WriteCmd(cmd)], WriteDlen(len));
      assert SetupTrace(lock0, lock1, cmd, len) == locks + [WriteCmd(cmd)] + [WriteDlen(len)];
    }
  }

  // The one-shot request writes everything or nothing.
  lemma OneShotWrites(lock0: u32, lock1: u32, cmd: u32, len: u32, data: seq<u32>)
    ensures Writes(OneShotTrace(lock0, lock1, cmd, len, data))
            == if SetupSucceeds(lock0, lock1) then FullWrites(cmd, len, data) else []
  {
    SetupAccesses(lock0, lock1, cmd, len);
    if SetupSucceeds(lock0, lock1) {
      DataWritesOnly(data);
      OneMoreAccess(DataWrites(data), WriteExecute(1));
      WritesConcat(SetupTrace(lock0, lock1, cmd, len), DataWrites(data) + [WriteExecute(1)]);
    } else {
      assert OneShotTrace(lock0, lock1, cmd, len, data) == SetupTrace(lock0, lock1, cmd, len);
    }
  }

  lemma RunSetup(lock0: u32, lock1: u32, call: Call)
    requires 4 * |call.words| < WORD_LIMIT
    ensures Run(TakingLock(call), SetupTrace(lock0, lock1, call.cmd, 4 * |call.words|)) == Some(
              if Locked(lock0) then Ended(LockBusy) else if !Locked(lock1) then Ended(LockLost) else BeforeWord(call, 0))
  {
    var pc := TakingLock(call);
    assert [] + [ReadLock(lock0)] == [ReadLock(lock0)];
    RunOne(pc, [], ReadLock(lock0));
    if !Locked(lock0) {
      assert [ReadLock(lock0)] + [ReadLock(lock1)] == [ReadLock(lock0), ReadLock(lock1)];
      RunOne(pc, [ReadLock(lock0)], ReadLock(lock1));
      if Locked(lock1) {
        var t := [ReadLock(lock0), ReadLock(lock1)];
        RunOne(pc, t, WriteCmd(call.cmd));
        RunOne(pc, t + [WriteCmd(call.cmd)], WriteDlen(4 * |call.words|));
        assert t + [WriteCmd(call.cmd)] + [WriteDlen(4 * |call.words|)]
            == SetupTrace(lock0, lock1, call.cmd, 4 * |call.words|);
      }
    }
  }

  lemma DataWritesNext(words: seq<u32>, n: nat)
    requires 1 <= n <= |words|
    ensures DataWrites(words[..n]) == DataWrites(words[..n - 1]) + [WriteDatain(words[n - 1])]
  {
  }

  lemma StepData(call: Call, n: nat)
    requires n < |call.words| && !call.stepwise
    ensures Step(Sending(call, n), WriteDatain(call.words[n])) == Some(Sending(call, n + 1))
  {
  }

  lemma {:induction false} RunData(call: Call, n: nat)
    requires n <= |call.words| && !call.stepwise
    ensures Run(Sending(call, 0), DataWrites(call.words[..n])) == Some(Sending(call, n))
  {
    if n > 0 {
      RunData(call, n - 1);
      DataWritesNext(call.words, n);
      StepData(call, n - 1);
      RunThen(Sending(call, 0), DataWrites(call.words[..n - 1]), Sending(call, n - 1), WriteDatain(call.words[n - 1]), Sending(call, n));
    }
  }

  // The one-shot request is the request half of an exchange.
  lemma OneShotRuns(lock0: u32, lock1: u32, call: Call)
    requires 4 * |call.words| < WORD_LIMIT && !call.stepwise
    ensures var t := OneShotTrace(lock0, lock1, call.cmd, 4 * |call.words|, call.words);
            Run(TakingLock(call), t) == Some(
              if Locked(lock0) then Ended(LockBusy)
              else if !Locked(lock1) then Ended(LockLost)
              else AfterExecute(call))
  {
    RunSetup(lock0, lock1, call);
    var setup := SetupTrace(lock0, lock1, call.cmd, 4 * |call.words|);
    var t := OneShotTrace(lock0, lock1, call.cmd, 4 * |call.words|, call.words);
    if SetupSucceeds(lock0, lock1) {
      RunData(call, |call.words|);
      assert call.words[..|call.words|] == call.words;
      RunOne(Sending(call, 0), DataWrites(call.words), WriteExecute(1));
      RunConcat(TakingLock(call), setup, DataWrites(call.words) + [WriteExecute(1)]);
    } else {
      assert t == setup;
    }
  }

  // The first LOCK read took the lock and every later one still saw it taken.
  predicate LocksHold(locks: seq<u32>) {
    forall i :: 0 <= i < |locks| ==> (Locked(locks[i]) <==> i > 0)
  }

  // Command, length and n data words were written, each after a successful check.
  ghost predicate StepsDone(t: seq<Access>, cmd: u32, len: u32, data: seq<u32>, n: nat) {
    n <= |data| && Writes(t) == FullWrites(cmd, len, data)[..2 + n] && |LockReads(t)| == n + 2 && LocksHold(LockReads(t))
  }

  // One more checked write, of data word n or of EXECUTE after the last one.
  lemma StepObserved(start: seq<Access>, before: seq<Access>, after: seq<Access>, lock: u32, a: Access,
                     cmd: u32, len: u32, data: seq<u32>, n: nat)
    requires start <= before && n <= |data|
    requires a == if n < |data| then WriteDatain(data[n]) else WriteExecute(1)
    requires after == before + [ReadLock(lock)] + (if Locked(lock) then [a] else [])
    requires StepsDone(before[|start|..], cmd, len, data, n)
    ensures start <= after
    ensures var t := after[|start|..];
            && Writes(t) == FullWrites(cmd, len, data)[..if Locked(lock) then 3 + n else 2 + n]
            && |LockReads(t)| == n + 3
            && (LocksHold(LockReads(t)) <==> Locked(lock))
  {
    var t := before[|start|..];
    OneMoreAccess(t, ReadLock(lock));
    assert FullWrites(cmd, len, data)[..3 + n] == FullWrites(cmd, len, data)[..2 + n] + [a];
    if Locked(lock) {
      OneMoreAccess(t + [ReadLock(lock)], a);
      assert after[|start|..] == t + [ReadLock(lock)] + [a];
    } else {
      assert after[|start|..] == t + [ReadLock(lock)];
      assert LockReads(after[|start|..])[n + 2] == lock;
    }
  }

  // ---------------------------------------------------------------------------
  // Where a request leaves the exchange
  // ---------------------------------------------------------------------------

  // Where a step-by-step request is whose `cmd`, `len` and `data` are those of call,
  // before word number n; any other request is none the exchange describes.
  ghost predicate AtWord(start: seq<Access>, now: seq<Access>, call: Call, len: u32, n: nat) {
    len == 4 * |call.words| ==> Reached(Start(call), start, now, Rechecking(call, n))
  }

  // One checked write of it.
  lemma CheckedWrite(start: seq<Access>, before: seq<Access>, after: seq<Access>, lock: u32, a: Access,
      call: Call, n: nat)
    returns (pc: Pc)
    requires call.stepwise && n <= |call.words| && Reached(Start(call), start, before, Rechecking(call, n))
    requires a == if n < |call.words| then WriteDatain(call.words[n]) else WriteExecute(1)
    requires after == before + [ReadLock(lock)] + (if Locked(lock) then [a] else [])
    ensures Reached(Start(call), start, after, pc)
    ensures pc == if !Locked(lock) then Ended(LockLost)
                  else if n < |call.words| then Rechecking(call, n + 1) else AfterExecute(call)
  {
    ReachedStep(Start(call), start, before, Rechecking(call, n), ReadLock(lock));
    if Locked(lock) {
      ReachedStep(Start(call), start, before + [ReadLock(lock)], Sending(call, n), a);
      pc := Step(Sending(call, n), a).value;
    } else {
      pc := Ended(LockLost);
      assert after == before + [ReadLock(lock)];
    }
  }

  // Lock and command setup of it.
  lemma SetUp(start: seq<Access>, after: seq<Access>, lock0: u32, lock1: u32, call: Call)
    returns (pc: Pc)
    requires call.stepwise && 4 * |call.words| <= MAILBOX_SIZE
    requires after == start + SetupTrace(lock0, lock1, call.cmd, 4 * |call.words|)
    ensures Reached(Start(call), start, after, pc)
    ensures pc == if Locked(lock0) then Ended(LockBusy) else if !Locked(lock1) then Ended(LockLost) else Rechecking(call, 0)
  {
    RunSetup(lock0, lock1, call);
    assert after[|start|..] == SetupTrace(lock0, lock1, call.cmd, 4 * |call.words|);
    pc := Run(Start(call), after[|start|..]).value;
  }

  // A step-by-step request in progress, before word number n.
  ghost predicate Stepping(start: seq<Access>, now: seq<Access>, call: Call, len: u32, n: nat) {
    && call.stepwise && start <= now && StepsDone(now[|start|..], call.cmd, len, call.words, n)
    && AtWord(start, now, call, len, n)
  }

  ghost predicate StepsWritten(t: seq<Access>, call: Call, len: u32, r: Result<()>) {
    && Writes(t) <= FullWrites(call.cmd, len, call.words)
    && (r.Ok? <==> Writes(t) == FullWrites(call.cmd, len, call.words))
    && (r.Ok? <==> |LockReads(t)| == |call.words| + 3 && LocksHold(LockReads(t)))
    && (!LocksHold(LockReads(t)) <==> r == Err(MboxLockFailed))
  }

  // What it amounts to: its writes are a prefix of the one-shot request's, and all of
  // them exactly if every LOCK read after the first saw the lock taken; and it is the
  // request half of an exchange, if the length is that of the words.
  ghost predicate Stepped(start: seq<Access>, after: seq<Access>, call: Call, len: u32, r: Result<()>, pc: Pc) {
    && start <= after && StepsWritten(after[|start|..], call, len, r)
    && (len == 4 * |call.words| ==>
         && Reached(Start(call), start, after, pc)
         && (if r.Ok? then pc == AfterExecute(call) else pc.Ended? && ResultOf(pc.how) == r))
  }

  lemma SteppingBegins(start: seq<Access>, after: seq<Access>, lock0: u32, lock1: u32, call: Call, len: u32)
    returns (pc: Pc)
    requires call.stepwise && len <= MAILBOX_SIZE && after == start + SetupTrace(lock0, lock1, call.cmd, len)
    ensures if SetupSucceeds(lock0, lock1) then Stepping(start, after, call, len, 0)
            else Stepped(start, after, call, len, Err(MboxLockFailed), pc)
  {
    pc := Ended(LockBusy);
    if len == 4 * |call.words| {
      pc := SetUp(start, after, lock0, lock1, call);
    }
    assert after[|start|..] == SetupTrace(lock0, lock1, call.cmd, len);
    SetupAccesses(lock0, lock1, call.cmd, len);
    var locks := LockReads(after[|start|..]);
    assert locks[0] == lock0 && (|locks| == 2 ==> locks[1] == lock1);
    assert FullWrites(call.cmd, len, call.words)[..2] == [WriteCmd(call.cmd), WriteDlen(len)];
  }

  lemma SteppingGoesOn(start: seq<Access>, before: seq<Access>, after: seq<Access>, lock: u32, a: Access,
                       call: Call, len: u32, n: nat)
    returns (pc: Pc)
    requires Stepping(start, before, call, len, n) && n <= |call.words|
    requires a == if n < |call.words| then WriteDatain(call.words[n]) else WriteExecute(1)
    requires after == before + [ReadLock(lock)] + (if Locked(lock) then [a] else [])
    ensures !Locked(lock) ==> Stepped(start, after, call, len, Err(MboxLockFailed), pc)
    ensures Locked(lock) && n < |call.words| ==> Stepping(start, after, call, len, n + 1)
    ensures Locked(lock) && n == |call.words| ==> Stepped(start, after, call, len, Ok(()), pc)
  {
    StepObserved(start, before, after, lock, a, call.cmd, len, call.words, n);
    pc := Ended(LockLost);
    if len == 4 * |call.words| {
      pc := CheckedWrite(start, before, after, lock, a, call, n);
    }
  }

  // Where the one-shot request leaves the exchange.
  lemma Requested(start: seq<Access>, after: seq<Access>, call: Call, answer: nat -> u32) returns (pc: Pc)
    requires 4 <= 4 * |call.words| < WORD_LIMIT && !call.stepwise
    requires if 4 * |call.words| > MAILBOX_SIZE then after == start
             else after == start + OneShotTrace(answer(|start|), answer(|start| + 1), call.cmd, 4 * |call.words|, call.words)
    ensures Reached(Start(call), start, after, pc)
    ensures var lock0, lock1 := answer(|start|), answer(|start| + 1);
            pc == if 4 * |call.words| > MAILBOX_SIZE then Ended(BadSize)
                  else if Locked(lock0) then Ended(LockBusy)
                  else if !Locked(lock1) then Ended(LockLost)
                  else AfterExecute(call)
  {
    if 4 * |call.words| > MAILBOX_SIZE {
      ReachedHere(Start(call), start);
      pc := Ended(BadSize);
    } else {
      var t := OneShotTrace(answer(|start|), answer(|start| + 1), call.cmd, 4 * |call.words|, call.words);
      OneShotRuns(answer(|start|), answer(|start| + 1), call);
      assert after[|start|..] == t;
      pc := Run(TakingLock(call), t).value;
    }
  }

  // The request as sent: the header word is the checksum of the rest.
  function WithChecksum(cmd: u32, words: seq<u32>): (sent: seq<u32>)
    ensures |sent| == |words|
  {
    if words == [] then [] else words[0 := Checksum(cmd, WordsToBytes(words[1..]))]
  }

  // ---------------------------------------------------------------------------
  // The driver
  // ---------------------------------------------------------------------------

  // The result object says where the exchange stands: over, or with a response
  // that is unread but for its first word.
  ghost predicate ReportsEnd(r: ResponseResult, pc: Pc, regs: Registers)
    reads r, if r.storage.Holds? then {r.storage.response} else {}
  {
    match pc
    case Ended(how) =>
      if how.NoData? then r.hasValue && r.error == None && r.storage == Nullopt
      else !how.Drained? && !r.hasValue && r.error.Some? && ResultOf(how) == Err(r.error.value)
    case Draining(dlen, words) =>
      && r.hasValue && r.error == None && r.storage.Holds?
      && var response := r.storage.response;
         && response.regs == regs && !response.released
         && response.At() == Cursor(dlen, 0, 0, response.expected)
         && words == if WordCount(dlen) == 0 then [] else [response.expected]
    case _ => false
  }

  // An exchange of whose response the words got have been taken; the first of them
  // was read when the response was opened.
  ghost predicate Copying(call: Call, start: seq<Access>, now: seq<Access>, dlen: u32, first: u32, got: seq<u32>) {
    && |got| <= WordCount(dlen)
    && Reached(Start(call), start, now, Draining(dlen, if got == [] && WordCount(dlen) > 0 then [first] else got))
  }

  lemma CopyingGoesOn(call: Call, start: seq<Access>, now: seq<Access>, dlen: u32, first: u32, got: seq<u32>, data: u32)
    requires Copying(call, start, now, dlen, first, got)
    ensures got == [] && WordCount(dlen) > 0 ==> Copying(call, start, now, dlen, first, [first])
    ensures 0 < |got| < WordCount(dlen) ==>
      Copying(call, start, now + [ResponseData(data)], dlen, first, got + [Delivered(dlen, |got|, data)])
    ensures |got| == WordCount(dlen) ==> Reached(Start(call), start, now + [ResponseExecute(0)], Ended(Drained(got)))
  {
    if 0 < |got| < WordCount(dlen) {
      ReachedStep(Start(call), start, now, Draining(dlen, got), ResponseData(data));
    } else if |got| == WordCount(dlen) {
      ReachedStep(Start(call), start, now, Draining(dlen, got), ResponseExecute(0));
    }
  }

  // ---------------------------------------------------------------------------
  // What finish_mailbox_resp does, by the values it reads
  // ---------------------------------------------------------------------------

  // n status reads from access number `from` on.
  function Polls(answer: nat -> u32, from: nat, n: nat): (t: seq<Access>)
    ensures |t| == n && forall i :: 0 <= i < n ==> t[i] == Access.ReadStatus(answer(from + i))
  {
    seq(n, (i: nat) => Access.ReadStatus(answer(from + i)))
  }

  ghost predicate IsError(r: ResponseResult, e: McuError)
    reads r
  {
    !r.hasValue && r.error == Some(e)
  }

  ghost predicate HasResponse(r: ResponseResult, regs: Registers, dlen: u32, first: u32)
    reads r, if r.storage.Holds? then {r.storage.response} else {}
  {
    && r.hasValue && r.error == None && r.storage.Holds?
    && var o := r.storage.response;
       o.regs == regs && !o.released && o.dlen == dlen && o.expected == first && o.idx == 0 && o.checksum == 0
  }

  // EXECUTE cleared, and the error code looked up in one register or two.
  function FailureTrace(answer: nat -> u32, from: nat): seq<Access> {
    var code := answer(from + 1);
    [WriteExecute(0), Access.ReadFatal(code)] + if code == 0 then [Access.ReadNonFatal(answer(from + 2))] else []
  }

  // From the last status read on, which is access number `from`: the accesses `added` by
  // it and after it, and the result.
  ghost predicate ActedOn(answer: nat -> u32, from: nat, added: seq<Access>, r: ResponseResult, regs: Registers)
    reads r, if r.storage.Holds? then {r.storage.response} else {}
  {
    var status := answer(from);
    var seen := [Access.ReadStatus(status)];
    if status % 4 >= 2 then
      var code := answer(from + 2);
      && IsError(r, MboxCmdFailed)
      && added == seen + ([WriteExecute(0), Access.ReadFatal(code)]
                          + if code == 0 then [Access.ReadNonFatal(answer(from + 3))] else [])
    else if status % 8 >= 4 then
      r.hasValue && r.error == None && r.storage == Nullopt && added == seen + [WriteExecute(0)]
    else if status % 16 >= 8 then
      var dlen, first := answer(from + 1), answer(from + 2);
      HasResponse(r, regs, dlen, first) && added == seen + [Access.ReadDlen(dlen), Access.ReadDataout(first)]
    else IsError(r, MboxInvalidResponse) && added == seen
  }

  // The status is polled until bit 0 is clear, at most 400000 times, and then read once more.
  ghost predicate FinishedAfter(polls: nat, answer: nat -> u32, from: nat, added: seq<Access>, r: ResponseResult,
      regs: Registers)
    reads r, if r.storage.Holds? then {r.storage.response} else {}
  {
    && polls <= |added| && added[..polls] == Polls(answer, from, polls)
    && (polls > 0 ==> InVain(answer, from, polls - 1))
    && if polls == 400000 && answer(from + 399999) % 2 == 1 then |added| == polls && IsError(r, MboxTimeout)
       else
         && 0 < polls <= 400000 && answer(from + (polls - 1)) % 2 == 0
         && ActedOn(answer, from + polls, added[polls..], r, regs)
  }

  // All of that is what the exchange describes from the poll loop on.
  lemma LastPoll(answer: nat -> u32, start: seq<Access>, n: nat) returns (before: seq<Access>, last: u32)
    requires n > 0
    ensures before == start + Polls(answer, |start|, n - 1) && last == answer(|start| + (n - 1))
    ensures start + Polls(answer, |start|, n) == before + [Access.ReadStatus(last)]
  {
    before, last := start + Polls(answer, |start|, n - 1), answer(|start| + (n - 1));
    assert Polls(answer, |start|, n) == Polls(answer, |start|, n - 1) + [Access.ReadStatus(last)];
  }

  lemma NoPolls(answer: nat -> u32, start: seq<Access>)
    ensures start + Polls(answer, |start|, 0) == start
  {
  }

  lemma PolledOnce(start: seq<Access>, t: seq<Access>, left: nat, status: u32)
    requires Reached(Polling(MAX_WAIT_CYCLES), start, t, Polling(left))
    ensures Reached(Polling(MAX_WAIT_CYCLES), start, t + [Access.ReadStatus(status)],
              if status % 2 == 0 then Deciding else if left <= 1 then Ended(TimedOut) else Polling(left - 1))
  {
    ReachedStep(Polling(MAX_WAIT_CYCLES), start, t, Polling(left), Access.ReadStatus(status));
  }

  // The first n polls were in vain.
  ghost predicate InVain(answer: nat -> u32, from: nat, n: nat) {
    forall k :: from <= k < from + n ==> answer(k) % 2 == 1
  }

  lemma InVainLast(answer: nat -> u32, from: nat, n: nat)
    requires n > 0
    ensures InVain(answer, from, n) <==> InVain(answer, from, n - 1) && answer(from + (n - 1)) % 2 == 1
  {
  }

  lemma {:induction false} PollsReached(answer: nat -> u32, start: seq<Access>, n: nat)
    requires n < MAX_WAIT_CYCLES && InVain(answer, |start|, n)
    ensures Reached(Polling(MAX_WAIT_CYCLES), start, start + Polls(answer, |start|, n), Polling(MAX_WAIT_CYCLES - n))
    decreases n
  {
    if n == 0 {
      NoPolls(answer, start);
      ReachedHere(Polling(MAX_WAIT_CYCLES), start);
    } else {
      InVainLast(answer, |start|, n);
      PollsReached(answer, start, n - 1);
      var before, last := LastPoll(answer, start, n);
      PolledOnce(start, before, MAX_WAIT_CYCLES - (n - 1), last);
    }
  }

  lemma PollsEnd(answer: nat -> u32, start: seq<Access>, polls: nat)
    requires 0 < polls <= 400000 && InVain(answer, |start|, polls - 1)
    ensures Reached(Polling(MAX_WAIT_CYCLES), start, start + Polls(answer, |start|, polls),
              if answer(|start| + (polls - 1)) % 2 == 0 then Deciding
              else if polls == 400000 then Ended(TimedOut)
              else Polling(MAX_WAIT_CYCLES - polls))
  {
    PollsReached(answer, start, polls - 1);
    var before, last := LastPoll(answer, start, polls);
    PolledOnce(start, before, MAX_WAIT_CYCLES - (polls - 1), last);
  }

  lemma TimedOutReached(answer: nat -> u32, start: seq<Access>, r: ResponseResult, regs: Registers) returns (pc: Pc)
    requires InVain(answer, |start|, 400000) && IsError(r, MboxTimeout)
    ensures var after := start + Polls(answer, |start|, 400000);
            && Reached(Polling(MAX_WAIT_CYCLES), start, after, pc) && ReportsEnd(r, pc, regs)
            && FinishedAfter(400000, answer, |start|, after[|start|..], r, regs)
  {
    InVainLast(answer, |start|, 400000);
    PollsEnd(answer, start, 400000);
    pc := Ended(TimedOut);
    assert (start + Polls(answer, |start|, 400000))[|start|..] == Polls(answer, |start|, 400000);
  }

  lemma TwoSteps(start: seq<Access>, t: seq<Access>, pc: Pc, a: Access, b: Access) returns (pc': Pc)
    requires Reached(Polling(MAX_WAIT_CYCLES), start, t, pc)
    requires Step(pc, a).Some? && Step(Step(pc, a).value, b).Some?
    ensures pc' == Step(Step(pc, a).value, b).value && Reached(Polling(MAX_WAIT_CYCLES), start, t + [a, b], pc')
  {
    ReachedStep(Polling(MAX_WAIT_CYCLES), start, t, pc, a);
    ReachedStep(Polling(MAX_WAIT_CYCLES), start, t + [a], Step(pc, a).value, b);
    assert t + [a, b] == t + [a] + [b];
    pc' := Step(Step(pc, a).value, b).value;
  }

  lemma FailureReached(answer: nat -> u32, start: seq<Access>, t: seq<Access>) returns (pc: Pc)
    requires Reached(Polling(MAX_WAIT_CYCLES), start, t, Aborting)
    ensures pc == Ended(CommandFailed)
    ensures Reached(Polling(MAX_WAIT_CYCLES), start, t + FailureTrace(answer, |t|), pc)
  {
    var code := answer(|t| + 1);
    pc := TwoSteps(start, t, Aborting, WriteExecute(0), Access.ReadFatal(code));
    if code == 0 {
      var more := Access.ReadNonFatal(answer(|t| + 2));
      ReachedStep(Polling(MAX_WAIT_CYCLES), start, t + [WriteExecute(0), Access.ReadFatal(code)], pc, more);
      pc := Step(pc, more).value;
      assert t + FailureTrace(answer, |t|) == t + [WriteExecute(0), Access.ReadFatal(code)] + [more];
    } else {
      assert t + FailureTrace(answer, |t|) == t + [WriteExecute(0), Access.ReadFatal(code)];
    }
  }

  // From the status on, once it was read.
  lemma FailureActed(answer: nat -> u32, start: seq<Access>, t: seq<Access>, r: ResponseResult, regs: Registers)
    returns (pc: Pc)
    requires Reached(Polling(MAX_WAIT_CYCLES), start, t, Aborting) && IsError(r, MboxCmdFailed)
    ensures Reached(Polling(MAX_WAIT_CYCLES), start, t + FailureTrace(answer, |t|), pc) && ReportsEnd(r, pc, regs)
  {
    pc := FailureReached(answer, start, t);
  }

  lemma DataActed(start: seq<Access>, t: seq<Access>, dlen: u32, first: u32, r: ResponseResult, regs: Registers)
    returns (pc: Pc)
    requires Reached(Polling(MAX_WAIT_CYCLES), start, t, ReadingLength) && HasResponse(r, regs, dlen, first)
    ensures Reached(Polling(MAX_WAIT_CYCLES), start, t + [Access.ReadDlen(dlen), Access.ReadDataout(first)], pc)
    ensures ReportsEnd(r, pc, regs)
  {
    pc := TwoSteps(start, t, ReadingLength, Access.ReadDlen(dlen), Access.ReadDataout(first));
  }

  lemma EmptyActed(start: seq<Access>, t: seq<Access>, r: ResponseResult, regs: Registers) returns (pc: Pc)
    requires Reached(Polling(MAX_WAIT_CYCLES), start, t, ClosingEmpty)
    requires r.hasValue && r.error == None && r.storage == Nullopt
    ensures Reached(Polling(MAX_WAIT_CYCLES), start, t + [WriteExecute(0)], pc) && ReportsEnd(r, pc, regs)
  {
    ReachedStep(Polling(MAX_WAIT_CYCLES), start, t, ClosingEmpty, WriteExecute(0));
    pc := Ended(NoData);
  }

  lemma StatusRead(start: seq<Access>, polled: seq<Access>, status: u32)
    requires Reached(Polling(MAX_WAIT_CYCLES), start, polled, Deciding)
    ensures Reached(Polling(MAX_WAIT_CYCLES), start, polled + [Access.ReadStatus(status)],
              if status % 4 >= 2 then Aborting
              else if status % 8 >= 4 then ClosingEmpty
              else if status % 16 >= 8 then ReadingLength
              else Ended(UnknownStatus))
  {
    StatusDigits(status);
    ReachedStep(Polling(MAX_WAIT_CYCLES), start, polled, Deciding, Access.ReadStatus(status));
  }

  lemma StatusReached(answer: nat -> u32, start: seq<Access>, polled: seq<Access>, added: seq<Access>,
      r: ResponseResult, regs: Registers) returns (pc: Pc)
    requires Reached(Polling(MAX_WAIT_CYCLES), start, polled, Deciding)
    requires ActedOn(answer, |polled|, added, r, regs)
    ensures Reached(Polling(MAX_WAIT_CYCLES), start, polled + added, pc) && ReportsEnd(r, pc, regs)
  {
    var status := answer(|polled|);
    var t := polled + [Access.ReadStatus(status)];
    StatusRead(start, polled, status);
    if status % 4 >= 2 {
      pc := FailureActed(answer, start, t, r, regs);
      assert polled + added == t + FailureTrace(answer, |t|);
    } else if status % 8 >= 4 {
      pc := EmptyActed(start, t, r, regs);
      assert polled + added == t + [WriteExecute(0)];
    } else if status % 16 >= 8 {
      var dlen, first := answer(|polled| + 1), answer(|polled| + 2);
      pc := DataActed(start, t, dlen, first, r, regs);
      assert polled + added == t + [Access.ReadDlen(dlen), Access.ReadDataout(first)];
    } else {
      pc := Ended(UnknownStatus);
    }
  }

  lemma ActedReached(answer: nat -> u32, start: seq<Access>, polled: seq<Access>, after: seq<Access>, polls: nat,
      r: ResponseResult, regs: Registers) returns (pc: Pc)
    requires 0 < polls <= 400000 && polled == start + Polls(answer, |start|, polls) && polled <= after
    requires answer(|start| + (polls - 1)) % 2 == 0 && InVain(answer, |start|, polls - 1)
    requires ActedOn(answer, |polled|, after[|polled|..], r, regs)
    ensures Reached(Polling(MAX_WAIT_CYCLES), start, after, pc) && ReportsEnd(r, pc, regs)
    ensures FinishedAfter(polls, answer, |start|, after[|start|..], r, regs)
  {
    PollsEnd(answer, start, polls);
    pc := StatusReached(answer, start, polled, after[|polled|..], r, regs);
    assert polled + after[|polled|..] == after;
    assert after[|start|..][..polls] == Polls(answer, |start|, polls);
    assert after[|start|..][polls..] == after[|polled|..];
  }

  class CaliptraSoC {
    const regs: Registers
    var counter: nat

    constructor (regs: Registers)
      ensures this.regs == regs && counter == 0
    {
      this.regs := regs;
      counter := 0;
    }

    method Delay()
      modifies `counter
      ensures counter == (old(counter) + 1) % 0x1_0000_0000_0000_0000
    {
      counter := (counter + 1) % 0x1_0000_0000_0000_0000;
    }

    method LockMailbox() returns (r: Result<()>)
      modifies regs
      ensures var lock := regs.answer(|old(regs.trace)|);
              && regs.trace == old(regs.trace) + [ReadLock(lock)]
              && r == if lock % 2 == 0 then Ok(()) else Err(MboxLockFailed)
    {
      var lock := regs.ReadLock();
      r := LockResult(lock % 2 == 0);
    }

    method SetCommand(cmd: u32, len: u32) returns (r: Result<()>)
      modifies regs
      ensures var lock := regs.answer(|old(regs.trace)|);
              && regs.trace == old(regs.trace) + [ReadLock(lock)]
                               + (if lock % 2 == 1 then [WriteCmd(cmd), WriteDlen(len)] else [])
              && r == if lock % 2 == 1 then Ok(()) else Err(MboxLockFailed)
    {
      var lock := regs.ReadLock();
      if lock % 2 == 0 {
        return Err(MboxLockFailed);
      }
      regs.Write(WriteCmd(cmd));
      regs.Write(WriteDlen(len));
      return Ok(());
    }

    method WriteData(data: u32) returns (r: Result<()>)
      modifies regs
      ensures var lock := regs.answer(|old(regs.trace)|);
              && regs.trace == old(regs.trace) + [ReadLock(lock)] + (if lock % 2 == 1 then [WriteDatain(data)] else [])
              && r == if lock % 2 == 1 then Ok(()) else Err(MboxLockFailed)
    {
      var lock := regs.ReadLock();
      if lock % 2 == 0 {
        return Err(MboxLockFailed);
      }
      regs.Write(WriteDatain(data));
      return Ok(());
    }

    method ExecuteCommand() returns (r: Result<()>)
      modifies regs
      ensures var lock := regs.answer(|old(regs.trace)|);
              && regs.trace == old(regs.trace) + [ReadLock(lock)] + (if lock % 2 == 1 then [WriteExecute(1)] else [])
              && r == if lock % 2 == 1 then Ok(()) else Err(MboxLockFailed)
    {
      var lock := regs.ReadLock();
      if lock % 2 == 0 {
        return Err(MboxLockFailed);
      }
      regs.Write(WriteExecute(1));
      return Ok(());
    }

    method InitiateRequest(cmd: u32, len: u32) returns (r: Result<()>)
      modifies regs
      ensures len > 0x4_0000 ==> r == Err(MboxInvalidResponse) && regs.trace == old(regs.trace)
      ensures len <= 0x4_0000 ==>
        var lock0, lock1 := regs.answer(|old(regs.trace)|), regs.answer(|old(regs.trace)| + 1);
        && regs.trace == old(regs.trace) + SetupTrace(lock0, lock1, cmd, len)
        && r == LockResult(SetupSucceeds(lock0, lock1))
    {
      if len > MAILBOX_SIZE {
        return Err(MboxInvalidResponse);
      }
      r := LockMailbox();
      if r.Err? {
        return;
      }
      r := SetCommand(cmd, len);
    }

    // The data loop of start_mailbox_req.
    method SendWords(data: seq<u32>)
      modifies regs
      ensures regs.trace == old(regs.trace) + DataWrites(data)
    {
      for i := 0 to |data|
        invariant regs.trace == old(regs.trace) + DataWrites(data[..i])
      {
        regs.Write(WriteDatain(data[i]));
        assert DataWrites(data[..i + 1]) == DataWrites(data[..i]) + [WriteDatain(data[i])];
      }
      assert data[..|data|] == data;
    }

    method StartMailboxReq(cmd: u32, len: u32, data: seq<u32>) returns (r: Result<()>)
      modifies regs
      ensures len > 0x4_0000 ==> r == Err(MboxInvalidResponse) && regs.trace == old(regs.trace)
      ensures len <= 0x4_0000 ==>
        var lock0, lock1 := regs.answer(|old(regs.trace)|), regs.answer(|old(regs.trace)| + 1);
        && regs.trace == old(regs.trace) + OneShotTrace(lock0, lock1, cmd, len, data)
        && r == LockResult(SetupSucceeds(lock0, lock1))
    {
      if len > MAILBOX_SIZE {
        return Err(MboxInvalidResponse);
      }
      ghost var lock0, lock1 := regs.answer(|regs.trace|), regs.answer(|regs.trace| + 1);
      r := LockMailbox();
      if r.Err? {
        return;
      }
      r := SetCommand(cmd, len);
      if r.Err? {
        return;
      }
      SendWords(data);
      regs.Write(WriteExecute(1));
      return Ok(());
    }

    // The same request through the step-by-step calls, stopping at the first error.
    method RequestStepwise(cmd: u32, len: u32, data: seq<u32>, ghost respCount: nat)
      returns (r: Result<()>, ghost pc: Pc)
      modifies regs
      ensures len > MAILBOX_SIZE ==> r == Err(MboxInvalidResponse) && regs.trace == old(regs.trace)
      ensures len <= MAILBOX_SIZE ==> Stepped(old(regs.trace), regs.trace, Call(cmd, data, respCount, true), len, r, pc)
    {
      ghost var start, call := regs.trace, Call(cmd, data, respCount, true);
      r := InitiateRequest(cmd, len);
      if len > MAILBOX_SIZE {
        return r, Ended(BadSize);
      }
      pc := SteppingBegins(start, regs.trace, regs.answer(|start|), regs.answer(|start| + 1), call, len);
      if r.Err? {
        return;
      }
      for i := 0 to |data|
        invariant Stepping(start, regs.trace, call, len, i)
      {
        ghost var before := regs.trace;
        r := WriteData(data[i]);
        pc := SteppingGoesOn(start, before, regs.trace, regs.answer(|before|), WriteDatain(data[i]), call, len, i);
        if r.Err? {
          return;
        }
      }
      ghost var before := regs.trace;
      r := ExecuteCommand();
      pc := SteppingGoesOn(start, before, regs.trace, regs.answer(|before|), WriteExecute(1), call, len, |data|);
    }

    // Give the mailbox back, then look the error code up.
    method ReportFailure() returns (r: ResponseResult)
      modifies regs
      ensures fresh(r) && r.storage == Storage.Raw && IsError(r, MboxCmdFailed)
      ensures regs.trace == old(regs.trace) + FailureTrace(regs.answer, |old(regs.trace)|)
    {
      regs.Write(WriteExecute(0));
      var errorCode := regs.ReadFatal();
      if errorCode == 0 {
        errorCode := regs.ReadNonFatal();
      }
      r := new ResponseResult.Fail(MboxCmdFailed);
    }

    // The local response is moved into the result and then destroyed.
    method CarryResponse(dlen: u32, expected: u32) returns (r: ResponseResult)
      modifies regs
      ensures regs.trace == old(regs.trace)
      ensures fresh(r) && r.hasValue && r.error == None && r.storage.Holds? && fresh(r.storage.response)
      ensures r.storage.response.regs == regs && !r.storage.response.released
      ensures r.storage.response.At() == Cursor(dlen, 0, 0, expected)
    {
      var response := new CaliptraMailboxResponse(regs, dlen, expected);
      r := new ResponseResult.OkValue(response);
      response.Destroy();
    }

    method OpenResponse() returns (r: ResponseResult)
      modifies regs
      ensures fresh(r) && (r.storage.Holds? ==> fresh(r.storage.response))
      ensures var dlen, first := regs.answer(|old(regs.trace)|), regs.answer(|old(regs.trace)| + 1);
              && regs.trace == old(regs.trace) + [Access.ReadDlen(dlen), Access.ReadDataout(first)]
              && HasResponse(r, regs, dlen, first)
    {
      var dlen := regs.ReadDlen();
      var expected := regs.ReadDataout();
      r := CarryResponse(dlen, expected);
    }

    // The part after the poll loop.
    method ActOnStatus() returns (r: ResponseResult)
      modifies regs
      ensures fresh(r) && (r.storage.Holds? ==> fresh(r.storage.response))
      ensures old(regs.trace) <= regs.trace
      ensures ActedOn(regs.answer, |old(regs.trace)|, regs.trace[|old(regs.trace)|..], r, regs)
    {
      var status := regs.ReadStatus();
      StatusDigits(status);
      if status / 2 % 2 == 1 {
        r := ReportFailure();
      } else if status / 4 % 2 == 1 {
        regs.Write(WriteExecute(0));
        r := new ResponseResult.OkNullopt();
      } else if status / 8 % 2 == 0 {
        r := new ResponseResult.Fail(MboxInvalidResponse);
      } else {
        r := OpenResponse();
      }
    }

    // The poll loop: whether the mailbox stopped being busy, and after how many polls.
    method WaitWhileBusy() returns (done: bool, ghost polls: nat)
      modifies regs, `counter
      ensures 0 < polls <= 400000 && regs.trace == old(regs.trace) + Polls(regs.answer, |old(regs.trace)|, polls)
      ensures InVain(regs.answer, |old(regs.trace)|, polls - 1)
      ensures done <==> regs.answer(|old(regs.trace)| + (polls - 1)) % 2 == 0
      ensures !done ==> polls == 400000 && InVain(regs.answer, |old(regs.trace)|, 400000)
    {
      ghost var start, answer := regs.trace, regs.answer;
      polls := 0;
      NoPolls(answer, start);
      var timeout := MAX_WAIT_CYCLES;
      while true
        invariant timeout > 0 && polls + timeout == MAX_WAIT_CYCLES
        invariant regs.trace == start + Polls(answer, |start|, polls)
        invariant InVain(answer, |start|, polls)
        decreases timeout
      {
        var status := regs.ReadStatus();
        polls := polls + 1;
        ghost var before, last := LastPoll(answer, start, polls);
        InVainLast(answer, |start|, polls);
        if status % 2 == 0 {
          return true, polls;
        }
        Delay();
        timeout := timeout - 1;
        if timeout == 0 {
          return false, polls;
        }
      }
    }

    // Wait for the mailbox and open its response, if there is one.
    method FinishMailboxResp(respMinSize: nat, respSize: nat)
      returns (r: ResponseResult, ghost pc: Pc, ghost polls: nat)
      modifies regs, `counter
      ensures fresh(r) && (r.storage.Holds? ==> fresh(r.storage.response))
      ensures respSize < 8 || respMinSize < 8 ==> regs.trace == old(regs.trace) && IsError(r, MboxInvalidResponse)
      ensures respSize >= 8 && respMinSize >= 8 ==>
        && Reached(Polling(MAX_WAIT_CYCLES), old(regs.trace), regs.trace, pc) && ReportsEnd(r, pc, regs)
        && FinishedAfter(polls, regs.answer, |old(regs.trace)|, regs.trace[|old(regs.trace)|..], r, regs)
    {
      pc, polls := Deciding, 0;
      if respSize < RESP_HEADER_SIZE {
        r := new ResponseResult.Fail(MboxInvalidResponse);
        return;
      }
      if respMinSize < RESP_HEADER_SIZE {
        r := new ResponseResult.Fail(MboxInvalidResponse);
        return;
      }
      ghost var start := regs.trace;
      var done;
      done, polls := WaitWhileBusy();
      if !done {
        r := new ResponseResult.Fail(MboxTimeout);
        pc := TimedOutReached(regs.answer, start, r, regs);
        return;
      }
      ghost var polled := regs.trace;
      r := ActOnStatus();
      pc := ActedReached(regs.answer, start, polled, regs.trace, polls, r, regs);
    }

    // next() in the course of it.
    method NextWord(response: CaliptraMailboxResponse, ghost call: Call, ghost start: seq<Access>, ghost got0: seq<u32>)
      returns (word: Option<u32>, ghost got: seq<u32>)
      requires response.regs == regs && response.idx == |got0|
      requires Copying(call, start, regs.trace, response.dlen, response.expected, got0)
      modifies response, regs
      ensures response.regs == regs && response.released == old(response.released)
      ensures response.dlen == old(response.dlen) && response.expected == old(response.expected) && response.idx == |got|
      ensures Copying(call, start, regs.trace, response.dlen, response.expected, got)
      ensures word == None <==> |got0| == WordCount(response.dlen)
      ensures got == got0 + if word == None then [] else [word.value]
      ensures word == None ==> Reached(Start(call), start, regs.trace + [ResponseExecute(0)], Ended(Drained(got)))
    {
      CopyingGoesOn(call, start, regs.trace, response.dlen, response.expected, got0, regs.answer(|regs.trace|));
      word := response.Next();
      got := got0;
      if word != None {
        got := got0 + [word.value];
        assert got0 == [] ==> got == [word.value];
      }
    }

    // Read every word, keep those that fit, then destroy the response.
    method CopyResponse(response: CaliptraMailboxResponse, resp: array<u32>,
                        ghost call: Call, ghost start: seq<Access>)
      returns (ghost how: Ending)
      requires response.regs == regs && !response.released && response.idx == 0
      requires Copying(call, start, regs.trace, response.dlen, response.expected, [])
      modifies response, regs, resp
      ensures Reached(Start(call), start, regs.trace, Ended(how)) && how.Drained?
      ensures response.regs == regs
      ensures forall k :: 0 <= k < resp.Length ==> resp[k] == if k < |how.words| then how.words[k] else old(resp[k])
    {
      ghost var got: seq<u32> := [];
      var i := 0;
      while true
        invariant response.regs == regs && !response.released && response.dlen == old(response.dlen)
        invariant |got| == response.idx == i <= WordCount(response.dlen)
        invariant Copying(call, start, regs.trace, response.dlen, response.expected, got)
        invariant forall k :: 0 <= k < resp.Length ==> resp[k] == if k < |got| then got[k] else old(resp[k])
        decreases WordCount(response.dlen) - i
      {
        var word;
        word, got := NextWord(response, call, start, got);
        if word == None {
          break;
        }
        if i < resp.Length {
          resp[i] := word.value;
        }
        i := i + 1;
      }
      how := Drained(got);
      response.Destroy();
    }

    // The last part of exec_mailbox_req_u32: the response leaves the result, is
    // read out and destroyed, and the result is destroyed after it.
    method ConsumeResult(result: ResponseResult, resp: array<u32>, ghost call: Call, ghost start: seq<Access>,
        ghost pc: Pc)
      returns (r: Result<()>, ghost how: Ending)
      requires Reached(Start(call), start, regs.trace, pc) && ReportsEnd(result, pc, regs) && !result.IsErr()
      modifies regs, resp, result`hasValue, if result.storage.Holds? then {result.storage.response} else {}
      ensures Reached(Start(call), start, regs.trace, Ended(how)) && r == ResultOf(how)
      ensures forall k :: 0 <= k < resp.Length ==>
        resp[k] == if how.Drained? && k < |how.words| then how.words[k] else old(resp[k])
    {
      var taken := result.TakeValue();
      if taken == None {
        return Err(MboxInvalidResponse), NoData;
      }
      how := CopyResponse(taken.value, resp, call, start);
      ghost var trace := regs.trace;
      result.Destroy();
      assert regs.trace == trace;
      r := Ok(());
    }

    // The response half of the exchange.
    method FinishExchange(resp: array<u32>, ghost call: Call, ghost start: seq<Access>, ghost pc0: Pc)
      returns (r: Result<()>, ghost how: Ending)
      requires call.respCount == resp.Length
      requires pc0 == if 4 * resp.Length < RESP_HEADER_SIZE then Ended(RespTooSmall) else Polling(MAX_WAIT_CYCLES)
      requires Reached(Start(call), start, regs.trace, pc0)
      modifies regs, `counter, resp
      ensures Reached(Start(call), start, regs.trace, Ended(how)) && r == ResultOf(how)
      ensures forall k :: 0 <= k < resp.Length ==>
        resp[k] == if how.Drained? && k < |how.words| then how.words[k] else old(resp[k])
    {
      ghost var sent := regs.trace;
      var result;
      ghost var pc;
      ghost var polls;
      result, pc, polls := FinishMailboxResp(resp.Length * 4, resp.Length * 4);
      if resp.Length * 4 < RESP_HEADER_SIZE {
        return Err(result.error.value), RespTooSmall;
      }
      ReachedThen(Start(call), start, sent, pc0, regs.trace, pc);
      if result.IsErr() {
        return Err(result.error.value), pc.how;
      }
      r, how := ConsumeResult(result, resp, call, start, pc);
    }

    // Send req, with its first word replaced by the checksum, and copy the
    // response to resp. The two may be the same buffer.
    method ExecMailboxReqU32(cmd: u32, req: array<u32>, resp: array<u32>) returns (r: Result<()>, ghost how: Ending)
      requires 4 * req.Length < WORD_LIMIT && 4 * resp.Length < WORD_LIMIT
      modifies regs, `counter, req, resp
      ensures var call := Call(cmd, WithChecksum(cmd, old(req[..])), resp.Length, false);
              && Reached(Start(call), old(regs.trace), regs.trace, Ended(how))
              && r == ResultOf(how)
              && (req != resp || !how.Drained? ==> req[..] == call.words)
              && (forall i :: 0 <= i < resp.Length ==>
                    resp[i] == if how.Drained? && i < |how.words| then how.words[i]
                               else if resp == req then call.words[i]
                               else old(resp[i]))
    {
      ghost var call := Call(cmd, WithChecksum(cmd, req[..]), resp.Length, false);
      ghost var start := regs.trace;
      ReachedHere(Start(call), start);
      if req.Length * 4 < 4 {
        return Err(MboxInvalidResponse), BadSize;
      }
      var checksum := CalcChecksum(cmd, WordsToBytes(req[1..]));
      req[0] := checksum;
      assert req[..] == call.words;

      r := StartMailboxReq(cmd, req.Length * 4, req[..]);
      ghost var pc := Requested(start, regs.trace, call, regs.answer);
      if r.Err? {
        return r, pc.how;
      }

      r, how := FinishExchange(resp, call, start, pc);
    }

  }

  // ---------------------------------------------------------------------------
  // What an exchange does not decide
  // ---------------------------------------------------------------------------

  // The request that was sent adds up: command bytes, payload bytes and the
  // header word are zero modulo 2^32, and only the header word was replaced.
  lemma SentRequestSumsToZero(cmd: u32, words: seq<u32>)
    requires words != []
    ensures var sent := WithChecksum(cmd, words);
            && sent[1..] == words[1..]
            && (ByteSum(BytesOf(cmd)) + ByteSum(WordsToBytes(sent[1..])) + sent[0]) % WORD_LIMIT == 0
  {
    NegateCancels(ByteSum(BytesOf(cmd)) + ByteSum(WordsToBytes(words[1..])));
  }

  // The call is sent, and its response buffer can take a header.
  predicate CanBeAnswered(call: Call) {
    Start(call).TakingLock? && RESP_HEADER_SIZE <= 4 * call.respCount
  }

  // On a mailbox that is free, every such call gets to its next word,
  lemma RunReady(call: Call, t: seq<Access>, n: nat) returns (t': seq<Access>)
    requires Run(Start(call), t) == Some(BeforeWord(call, n))
    ensures Run(Start(call), t') == Some(Sending(call, n))
  {
    if call.stepwise {
      RunThen(Start(call), t, Rechecking(call, n), ReadLock(1), Sending(call, n));
      t' := t + [ReadLock(1)];
    } else {
      t' := t;
    }
  }

  lemma RunHead(call: Call) returns (t: seq<Access>)
    requires Start(call).TakingLock?
    ensures Run(Start(call), t) == Some(BeforeWord(call, 0))
  {
    t := [ReadLock(0)];
    RunThen(Start(call), [], TakingLock(call), ReadLock(0), CheckingLock(call));
    assert [] + [ReadLock(0)] == t;
    RunThen(Start(call), t, CheckingLock(call), ReadLock(1), WritingCmd(call));
    t := t + [ReadLock(1)];
    RunThen(Start(call), t, WritingCmd(call), WriteCmd(call.cmd), WritingDlen(call));
    t := t + [WriteCmd(call.cmd)];
    RunThen(Start(call), t, WritingDlen(call), Access.WriteDlen(LengthOf(call.words)), BeforeWord(call, 0));
    t := t + [Access.WriteDlen(LengthOf(call.words))];
  }

  lemma {:induction false} RunWords(call: Call, n: nat) returns (t: seq<Access>)
    requires Start(call).TakingLock? && n <= |call.words|
    ensures Run(Start(call), t) == Some(Sending(call, n))
    decreases n
  {
    if n == 0 {
      t := RunHead(call);
    } else {
      t := RunWords(call, n - 1);
      RunThen(Start(call), t, Sending(call, n - 1), WriteDatain(call.words[n - 1]), BeforeWord(call, n));
      t := t + [WriteDatain(call.words[n - 1])];
    }
    t := RunReady(call, t, n);
  }

  // and through its polls to any status.
  lemma RunDecided(call: Call, status: u32) returns (t: seq<Access>)
    requires CanBeAnswered(call)
    ensures Run(Start(call), t) == Step(Deciding, Access.ReadStatus(status))
  {
    t := RunWords(call, |call.words|);
    RunThen(Start(call), t, Sending(call, |call.words|), WriteExecute(1), Polling(MAX_WAIT_CYCLES));
    t := t + [WriteExecute(1)];
    RunThen(Start(call), t, Polling(MAX_WAIT_CYCLES), Access.ReadStatus(0), Deciding);
    t := t + [Access.ReadStatus(0)];
    RunOne(Start(call), t, Access.ReadStatus(status));
    t := t + [Access.ReadStatus(status)];
  }

  // The exchange ends with MBOX_INVALID_RESPONSE, and with EXECUTE set or cleared.
  ghost predicate EndsInvalid(offs: Offsets, call: Call, t: seq<Access>, asserted: bool) {
    var end := Run(Start(call), t);
    && end.Some? && end.value.Ended? && ResultOf(end.value.how) == Err(MboxInvalidResponse)
    && Observe(offs, t).asserted == asserted
  }

  lemma RunNoVerdict(offs: Offsets, call: Call) returns (t: seq<Access>)
    requires CanBeAnswered(call)
    ensures EndsInvalid(offs, call, t, true)
  {
    t := RunDecided(call, 0);
    RunIsConsistent(offs, call, t);
  }

  lemma RunNoData(offs: Offsets, call: Call) returns (t: seq<Access>)
    requires CanBeAnswered(call)
    ensures EndsInvalid(offs, call, t, false)
  {
    t := RunDecided(call, 4);
    RunThen(Start(call), t, ClosingEmpty, WriteExecute(0), Ended(NoData));
    t := t + [WriteExecute(0)];
    RunIsConsistent(offs, call, t);
  }

  // Such a call ends with the error in one way only.
  lemma EndsInvalidOneWay(offs: Offsets, call: Call, t: seq<Access>, asserted: bool)
    requires !CanBeAnswered(call) && EndsInvalid(offs, call, t, asserted)
    ensures asserted <==> Start(call).TakingLock?
  {
    RunIsConsistent(offs, call, t);
    BadSizeIff(call, t);
  }

  // The result MBOX_INVALID_RESPONSE does not say whether EXECUTE was left set, exactly
  // for the calls that can be answered. Of the others, a call of the wrong size never
  // leaves it set and one with too small a response buffer always does.
  lemma InvalidResponseIsAmbiguousIff(offs: Offsets, call: Call)
    ensures (exists t :: EndsInvalid(offs, call, t, true)) && (exists t :: EndsInvalid(offs, call, t, false))
            <==> CanBeAnswered(call)
    ensures !CanBeAnswered(call) ==>
              forall t, asserted :: EndsInvalid(offs, call, t, asserted) ==> (asserted <==> Start(call).TakingLock?)
  {
    if CanBeAnswered(call) {
      var kept := RunNoVerdict(offs, call);
      var freed := RunNoData(offs, call);
    } else {
      forall t, asserted | EndsInvalid(offs, call, t, asserted)
        ensures asserted <==> Start(call).TakingLock?
      {
        EndsInvalidOneWay(offs, call, t, asserted);
      }
    }
  }

  lemma RunDrainStep(start: Pc, t: seq<Access>, dlen: u32, words: seq<u32>, data: u32)
    requires Run(start, t) == Some(Draining(dlen, words)) && |words| < WordCount(dlen)
    ensures Run(start, t + [ResponseData(data)]) == Some(Draining(dlen, words + [Delivered(dlen, |words|, data)]))
  {
    RunThen(start, t, Draining(dlen, words), ResponseData(data), Draining(dlen, words + [Delivered(dlen, |words|, data)]));
  }

  lemma NextResponseWord(dlen: u32, raw: seq<u32>, n: nat)
    requires |raw| == WordCount(dlen) && 1 <= n <= |raw|
    ensures ResponseWords(dlen, raw)[..n] == ResponseWords(dlen, raw)[..n - 1] + [Delivered(dlen, n - 1, raw[n - 1])]
    ensures ResponseWords(dlen, raw)[..1] == [raw[0]]
  {
  }

  lemma {:induction false} RunDrain(start: Pc, t: seq<Access>, dlen: u32, raw: seq<u32>,
      n: nat) returns (t': seq<Access>)
    requires |raw| == WordCount(dlen) && 1 <= n <= |raw|
    requires Run(start, t) == Some(Draining(dlen, [raw[0]]))
    ensures Run(start, t') == Some(Draining(dlen, ResponseWords(dlen, raw)[..n]))
    decreases n
  {
    if n == 1 {
      t' := t;
      NextResponseWord(dlen, raw, 1);
    } else {
      t' := RunDrain(start, t, dlen, raw, n - 1);
      NextResponseWord(dlen, raw, n);
      RunDrainStep(start, t', dlen, ResponseWords(dlen, raw)[..n - 1], raw[n - 1]);
      t' := t' + [ResponseData(raw[n - 1])];
    }
  }

  lemma RunLength(start: Pc, t: seq<Access>, dlen: u32)
    requires Run(start, t) == Some(ReadingLength)
    ensures Run(start, t + [Access.ReadDlen(dlen)]) == Some(ReadingFirst(dlen))
  {
    RunThen(start, t, ReadingLength, Access.ReadDlen(dlen), ReadingFirst(dlen));
  }

  lemma RunFirst(start: Pc, t: seq<Access>, dlen: u32, first: u32)
    requires Run(start, t) == Some(ReadingFirst(dlen))
    ensures Run(start, t + [Access.ReadDataout(first)]) == Some(Draining(dlen, if WordCount(dlen) == 0 then [] else [first]))
  {
    RunThen(start, t, ReadingFirst(dlen), Access.ReadDataout(first), Draining(dlen, if WordCount(dlen) == 0 then [] else [first]));
  }

  lemma RunAnswered(call: Call, dlen: u32, first: u32) returns (t: seq<Access>)
    requires CanBeAnswered(call)
    ensures Run(Start(call), t) == Some(Draining(dlen, if WordCount(dlen) == 0 then [] else [first]))
  {
    t := RunDecided(call, 8);
    RunLength(Start(call), t, dlen);
    t := t + [Access.ReadDlen(dlen)];
    RunFirst(Start(call), t, dlen, first);
    t := t + [Access.ReadDataout(first)];
  }

  // A successful exchange says nothing about the response's checksum: whatever
  // words and length Caliptra answers with, some exchange succeeds in delivering them.
  lemma AnyResponseIsDelivered(call: Call, dlen: u32, raw: seq<u32>) returns (t: seq<Access>)
    requires CanBeAnswered(call)
    requires |raw| == if WordCount(dlen) == 0 then 1 else WordCount(dlen)
    ensures Run(Start(call), t) == Some(Ended(Drained(ResponseWords(dlen, raw))))
    ensures ResultOf(Drained(ResponseWords(dlen, raw))).Ok?
  {
    t := RunAnswered(call, dlen, raw[0]);
    if WordCount(dlen) > 0 {
      t := RunDrain(Start(call), t, dlen, raw, |raw|);
    }
    assert ResponseWords(dlen, raw)[..WordCount(dlen)] == ResponseWords(dlen, raw);
    RunOne(Start(call), t, ResponseExecute(0));
    t := t + [ResponseExecute(0)];
  }

  // ---------------------------------------------------------------------------
  // The offsets of the response object
  // ---------------------------------------------------------------------------

  ghost predicate Succeeds(call: Call, t: seq<Access>) {
    var end := Run(Start(call), t);
    end.Some? && end.value.Ended? && end.value.how.Drained?
  }

  // The exchange gives the mailbox back, and takes all words out of DATAOUT.
  ghost predicate GivenBack(offs: Offsets, call: Call, t: seq<Access>) {
    !Observe(offs, t).asserted
  }

  ghost predicate AllPopped(offs: Offsets, call: Call, t: seq<Access>) {
    Observe(offs, t).popped == Observe(offs, t).taken
  }

  lemma SuccessAtOffsets(offs: Offsets, call: Call, t: seq<Access>)
    requires Succeeds(call, t)
    ensures GivenBack(offs, call, t) <==> offs.execute == EXECUTE_OFFSET
    ensures offs.dataout == DATAOUT_OFFSET ==> AllPopped(offs, call, t)
    ensures offs.dataout != DATAOUT_OFFSET && |Observe(offs, t).taken| > 1 ==> !AllPopped(offs, call, t)
  {
    var how := Run(Start(call), t).value.how;
    SuccessfulExchange(offs, call, t, how.words);
    RunIsConsistent(offs, call, t);
  }

  // An exchange that succeeds with a response of two words.
  lemma TwoWords(offs: Offsets) returns (call: Call, t: seq<Access>)
    ensures Succeeds(call, t) && |Observe(offs, t).taken| == 2
  {
    call := Call(0, [0], 2, false);
    t := AnyResponseIsDelivered(call, 8, [0, 0]);
    SuccessfulExchange(offs, call, t, ResponseWords(8, [0, 0]));
  }

  // Every successful exchange gives the mailbox back exactly if the object has
  // EXECUTE where the manager has it,
  lemma GivenBackIff(offs: Offsets)
    ensures (forall call, t :: Succeeds(call, t) ==> GivenBack(offs, call, t)) <==> offs.execute == 0x18
  {
    forall call, t | Succeeds(call, t)
      ensures GivenBack(offs, call, t) <==> offs.execute == EXECUTE_OFFSET
    {
      SuccessAtOffsets(offs, call, t);
    }
    var call, t := TwoWords(offs);
  }

  // and takes the whole response out of DATAOUT exactly if it has DATAOUT there.
  lemma AllPoppedIff(offs: Offsets)
    ensures (forall call, t :: Succeeds(call, t) ==> AllPopped(offs, call, t)) <==> offs.dataout == 0x10
  {
    forall call, t | Succeeds(call, t)
      ensures offs.dataout == DATAOUT_OFFSET ==> AllPopped(offs, call, t)
    {
      SuccessAtOffsets(offs, call, t);
    }
    var call, t := TwoWords(offs);
    SuccessAtOffsets(offs, call, t);
  }

  // Both hold of all successful exchanges exactly at the manager's offsets.
  lemma MatchingIff(offs: Offsets)
    ensures (forall call, t :: Succeeds(call, t) ==> GivenBack(offs, call, t) && AllPopped(offs, call, t))
            <==> offs == MATCHING == Offsets(0x10, 0x18)
  {
    GivenBackIff(offs);
    AllPoppedIff(offs);
  }
}
