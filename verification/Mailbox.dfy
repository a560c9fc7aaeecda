// The Caliptra mailbox as seen over its registers: the accesses a driver makes,
// and the program of one request/response exchange as an automaton over them.
module Mailbox {
  import opened Common
  import opened MailboxChecksum

  const MAX_WAIT_CYCLES: nat := 400000
  const RESP_HEADER_SIZE: nat := 8

  // Bit 0 of LOCK, and the four STATUS bits.
  predicate Locked(lock: u32) { lock % 2 == 1 }
  predicate Busy(status: u32) { status % 2 == 1 }
  predicate Failed(status: u32) { status / 2 % 2 == 1 }
  predicate Completed(status: u32) { status / 4 % 2 == 1 }
  predicate DataReady(status: u32) { status / 8 % 2 == 1 }

  // A status the driver knows how to close the exchange on.
  predicate HasVerdict(status: u32) { Failed(status) || Completed(status) || DataReady(status) }

  // One access, with the value that was read or written: a register of the manager
  // by its role, one of the two registers of a response object by the role the
  // object gives it, or an address at which the manager has no such register.
  datatype Access =
    | ReadLock(v: u32)
    | ReadStatus(v: u32)
    | ReadDlen(v: u32)
    | ReadDataout(v: u32)
    | ReadFatal(v: u32)
    | ReadNonFatal(v: u32)
    | WriteCmd(v: u32)
    | WriteDlen(v: u32)
    | WriteDatain(v: u32)
    | WriteExecute(v: u32)
    | ResponseData(v: u32)
    | ResponseExecute(v: u32)
    | ReadElsewhere(offset: nat, v: u32)
    | WriteElsewhere(offset: nat, v: u32)
  {
    predicate IsWrite() {
      WriteCmd? || WriteDlen? || WriteDatain? || WriteExecute? || ResponseExecute? || WriteElsewhere?
    }
  }

  // ---------------------------------------------------------------------------
  // Addresses
  // ---------------------------------------------------------------------------

  // Where a response object takes DATAOUT and EXECUTE to be, relative to the base
  // address it shares with the manager.
  datatype Offsets = Offsets(dataout: nat, execute: nat)

  const DATAOUT_OFFSET: nat := 0x10
  const EXECUTE_OFFSET: nat := 0x18

  // As the class defines them, and where the manager has the two registers.
  const SHIPPED := Offsets(0x00, 0x04)
  const MATCHING := Offsets(DATAOUT_OFFSET, EXECUTE_OFFSET)

  // What an access at an offset from the base is to the manager's register map.
  function ReadAt(offset: nat, v: u32): Access {
    if offset == 0x00 then ReadLock(v)
    else if offset == 0x08 then ReadDlen(v)
    else if offset == DATAOUT_OFFSET then ReadDataout(v)
    else if offset == 0x14 then ReadStatus(v)
    else ReadElsewhere(offset, v)
  }

  function WriteAt(offset: nat, v: u32): (a: Access)
    ensures a.IsWrite() && !a.ResponseExecute? && a.v == v
    ensures a.WriteExecute? <==> offset == EXECUTE_OFFSET
  {
    if offset == 0x04 then WriteCmd(v)
    else if offset == 0x08 then WriteDlen(v)
    else if offset == 0x0C then WriteDatain(v)
    else if offset == EXECUTE_OFFSET then WriteExecute(v)
    else WriteElsewhere(offset, v)
  }

  // The access the mailbox sees.
  function Decode(offs: Offsets, a: Access): Access {
    match a
    case ResponseData(v) => ReadAt(offs.dataout, v)
    case ResponseExecute(v) => WriteAt(offs.execute, v)
    case _ => a
  }

  // ---------------------------------------------------------------------------
  // Response words
  // ---------------------------------------------------------------------------

  // (dlen + 3) / 4 in 32-bit arithmetic.
  function WordCount(dlen: u32): nat {
    if dlen + 3 < WORD_LIMIT then (dlen + 3) / 4 else (dlen + 3 - WORD_LIMIT) / 4
  }

  // A length that does not wrap around has as many words as its bytes need; a greater
  // one has none.
  lemma WordsCoverBytes(dlen: u32)
    ensures dlen <= 0xFFFF_FFFC ==> 4 * WordCount(dlen) - 4 < dlen <= 4 * WordCount(dlen)
    ensures dlen > 0xFFFF_FFFC ==> WordCount(dlen) == 0
  {
  }

  // How many bytes of word k are part of the response.
  function ValidBytes(dlen: u32, k: nat): (n: nat)
    requires k < WordCount(dlen)
    ensures 1 <= n <= 4
  {
    if dlen - 4 * k > 4 then 4 else dlen - 4 * k
  }

  // Word k of the response, as the driver delivers it: word 0 unmasked, the
  // others cut to their valid bytes.
  function Delivered(dlen: u32, k: nat, data: u32): u32
    requires k < WordCount(dlen)
  {
    if k == 0 then data else LowBytes(data, ValidBytes(dlen, k))
  }

  // ---------------------------------------------------------------------------
  // One exchange
  // ---------------------------------------------------------------------------

  // The request words include the header word with the checksum. A request is sent
  // at once, or step by step with a look at LOCK before every word and EXECUTE.
  datatype Call = Call(cmd: u32, words: seq<u32>, respCount: nat, stepwise: bool)

  datatype Ending =
    | BadSize
    | LockBusy
    | LockLost
    | RespTooSmall
    | TimedOut
    | CommandFailed
    | NoData
    | UnknownStatus
    | Drained(words: seq<u32>)

  function ResultOf(e: Ending): Result<()> {
    match e
    case BadSize => Err(MboxInvalidResponse)
    case LockBusy => Err(MboxLockFailed)
    case LockLost => Err(MboxLockFailed)
    case RespTooSmall => Err(MboxInvalidResponse)
    case TimedOut => Err(MboxTimeout)
    case CommandFailed => Err(MboxCmdFailed)
    case NoData => Err(MboxInvalidResponse)
    case UnknownStatus => Err(MboxInvalidResponse)
    case Drained(_) => Ok(())
  }

  // Where an exchange stands between two register accesses.
  datatype Pc =
    | TakingLock(call: Call)
    | CheckingLock(call: Call)
    | WritingCmd(call: Call)
    | WritingDlen(call: Call)
    | Rechecking(call: Call, sent: nat)
    | Sending(call: Call, sent: nat)
    | Polling(left: nat)
    | Deciding
    | Aborting
    | ReadingFatal
    | ReadingNonFatal
    | ClosingEmpty
    | ReadingLength
    | ReadingFirst(dlen: u32)
    | Draining(dlen: u32, words: seq<u32>)
    | Ended(how: Ending)

  // The length in bytes as the driver writes it.
  function LengthOf(words: seq<u32>): u32 { Wrapped(4 * |words|) }

  function Start(call: Call): Pc {
    if (!call.stepwise && 4 * |call.words| < 4) || 4 * |call.words| > MAILBOX_SIZE then Ended(BadSize)
    else TakingLock(call)
  }

  // Before word number `sent`, or before EXECUTE after the last one.
  function BeforeWord(call: Call, sent: nat): Pc {
    if call.stepwise then Rechecking(call, sent) else Sending(call, sent)
  }

  function AfterExecute(call: Call): Pc {
    if 4 * call.respCount < RESP_HEADER_SIZE then Ended(RespTooSmall) else Polling(MAX_WAIT_CYCLES)
  }

  // The exchange's next position after access a, or None if a is not an access
  // the exchange makes there.
  function Step(pc: Pc, a: Access): Option<Pc> {
    match pc
    case TakingLock(call) =>
      if !a.ReadLock? then None else if Locked(a.v) then Some(Ended(LockBusy)) else Some(CheckingLock(call))
    case CheckingLock(call) =>
      if !a.ReadLock? then None else if !Locked(a.v) then Some(Ended(LockLost)) else Some(WritingCmd(call))
    case WritingCmd(call) =>
      if a == WriteCmd(call.cmd) then Some(WritingDlen(call)) else None
    case WritingDlen(call) =>
      if a == WriteDlen(LengthOf(call.words)) then Some(BeforeWord(call, 0)) else None
    case Rechecking(call, sent) =>
      if !a.ReadLock? then None else if !Locked(a.v) then Some(Ended(LockLost)) else Some(Sending(call, sent))
    case Sending(call, sent) =>
      if sent < |call.words| then
        if a == WriteDatain(call.words[sent]) then Some(BeforeWord(call, sent + 1)) else None
      else if a != WriteExecute(1) then None
      else Some(AfterExecute(call))
    case Polling(left) =>
      if !a.ReadStatus? then None
      else if !Busy(a.v) then Some(Deciding)
      else if left <= 1 then Some(Ended(TimedOut))
      else Some(Polling(left - 1))
    case Deciding =>
      if !a.ReadStatus? then None
      else if Failed(a.v) then Some(Aborting)
      else if Completed(a.v) then Some(ClosingEmpty)
      else if DataReady(a.v) then Some(ReadingLength)
      else Some(Ended(UnknownStatus))
    case Aborting =>
      if a == WriteExecute(0) then Some(ReadingFatal) else None
    case ReadingFatal =>
      if !a.ReadFatal? then None else if a.v == 0 then Some(ReadingNonFatal) else Some(Ended(CommandFailed))
    case ReadingNonFatal =>
      if a.ReadNonFatal? then Some(Ended(CommandFailed)) else None
    case ClosingEmpty =>
      if a == WriteExecute(0) then Some(Ended(NoData)) else None
    case ReadingLength =>
      if a.ReadDlen? then Some(ReadingFirst(a.v)) else None
    case ReadingFirst(dlen) =>
      if a.ReadDataout? then Some(Draining(dlen, if WordCount(dlen) == 0 then [] else [a.v])) else None
    case Draining(dlen, words) =>
      if |words| < WordCount(dlen) then
        if a.ResponseData? then Some(Draining(dlen, words + [Delivered(dlen, |words|, a.v)])) else None
      else if a == ResponseExecute(0) then Some(Ended(Drained(words)))
      else None
    case Ended(_) => None
  }

  function Run(pc: Pc, t: seq<Access>): Option<Pc> {
    if t == [] then Some(pc)
    else
      match Run(pc, t[..|t| - 1])
      case None => None
      case Some(p) => Step(p, t[|t| - 1])
  }

  lemma RunOne(pc: Pc, t: seq<Access>, a: Access)
    ensures Run(pc, t + [a]) == match Run(pc, t) case None => None case Some(p) => Step(p, a)
  {
    assert (t + [a])[..|t|] == t;
  }

  lemma RunThen(start: Pc, t: seq<Access>, pc: Pc, a: Access, pc': Pc)
    requires Run(start, t) == Some(pc) && Step(pc, a) == Some(pc')
    ensures Run(start, t + [a]) == Some(pc')
  {
    RunOne(start, t, a);
  }

  lemma {:induction false} RunConcat(pc: Pc, s: seq<Access>, t: seq<Access>)
    ensures Run(pc, s + t) == match Run(pc, s) case None => None case Some(p) => Run(p, t)
  {
    if t == [] {
      assert s + t == s;
    } else {
      var t' := t[..|t| - 1];
      RunConcat(pc, s, t');
      assert (s + t)[..|s + t| - 1] == s + t';
    }
  }

  lemma {:induction false} EndedTakesNoAccess(how: Ending, t: seq<Access>)
    requires Run(Ended(how), t).Some?
    ensures t == []
  {
    if t != [] {
      EndedTakesNoAccess(how, t[..|t| - 1]);
    }
  }

  // A call of the wrong size makes no access, and no other call ends with that error.
  lemma BadSizeIff(call: Call, t: seq<Access>)
    requires Run(Start(call), t).Some? && Run(Start(call), t).value.Ended?
    ensures Run(Start(call), t).value.how.BadSize? <==> Start(call).Ended?
    ensures Start(call).Ended? ==> t == []
  {
    if Start(call).Ended? {
      EndedTakesNoAccess(Start(call).how, t);
    }
  }

  // ---------------------------------------------------------------------------
  // What a trace shows
  // ---------------------------------------------------------------------------

  // What the mailbox sees: the writes in order, the words popped from DATAOUT,
  // whether EXECUTE was ever set, and whether it is set now. And what the program
  // is told: statuses, lengths, and the words it takes for the response.
  datatype Log = Log(
    writes: seq<Access>,
    popped: seq<u32>,
    executed: bool,
    asserted: bool,
    statuses: seq<u32>,
    dlens: seq<u32>,
    taken: seq<u32>)

  function NoteOnBus(log: Log, a: Access): Log {
    match a
    case ReadDataout(v) => log.(popped := log.popped + [v])
    case WriteExecute(v) =>
      log.(writes := log.writes + [a], executed := log.executed || v % 2 == 1, asserted := v % 2 == 1)
    case _ => if a.IsWrite() then log.(writes := log.writes + [a]) else log
  }

  function NoteRead(log: Log, a: Access): Log {
    match a
    case ReadStatus(v) => log.(statuses := log.statuses + [v])
    case ReadDlen(v) => log.(dlens := log.dlens + [v])
    case ReadDataout(v) => log.(taken := log.taken + [v])
    case ResponseData(v) => log.(taken := log.taken + [v])
    case _ => log
  }

  function Note(offs: Offsets, log: Log, a: Access): Log {
    NoteRead(NoteOnBus(log, Decode(offs, a)), a)
  }

  function Observe(offs: Offsets, t: seq<Access>): Log {
    if t == [] then Log([], [], false, false, [], [], [])
    else Note(offs, Observe(offs, t[..|t| - 1]), t[|t| - 1])
  }

  // The writes alone, and the LOCK values alone.
  function Writes(t: seq<Access>): seq<Access> {
    if t == [] then []
    else Writes(t[..|t| - 1]) + if t[|t| - 1].IsWrite() then [t[|t| - 1]] else []
  }

  function LockReads(t: seq<Access>): seq<u32> {
    if t == [] then []
    else LockReads(t[..|t| - 1]) + if t[|t| - 1].ReadLock? then [t[|t| - 1].v] else []
  }

  function DataWrites(words: seq<u32>): (t: seq<Access>)
    ensures |t| == |words| && forall i :: 0 <= i < |t| ==> t[i] == WriteDatain(words[i])
  {
    seq(|words|, i requires 0 <= i < |words| => WriteDatain(words[i]))
  }

  function RequestWrites(call: Call): seq<Access> {
    [WriteCmd(call.cmd), WriteDlen(LengthOf(call.words))] + DataWrites(call.words)
  }

  // The words delivered out of the values that DATAOUT reads returned.
  function ResponseWords(dlen: u32, raw: seq<u32>): (r: seq<u32>)
    requires |raw| >= WordCount(dlen)
    ensures |r| == WordCount(dlen)
  {
    seq(WordCount(dlen), k requires 0 <= k < WordCount(dlen) => Delivered(dlen, k, raw[k]))
  }

  predicate AllBusy(statuses: seq<u32>) {
    forall i :: 0 <= i < |statuses| ==> Busy(statuses[i])
  }

  // ---------------------------------------------------------------------------
  // What holds at every point of every exchange
  // ---------------------------------------------------------------------------

  // The command has not been executed.
  ghost predicate Requesting(call: Call, log: Log, pc: Pc) {
    && !log.executed && !log.asserted
    && log.statuses == [] && log.dlens == [] && log.popped == log.taken == []
    && match pc
       case TakingLock(c) => c == call && log.writes == []
       case CheckingLock(c) => c == call && log.writes == []
       case WritingCmd(c) => c == call && log.writes == []
       case WritingDlen(c) => c == call && log.writes == [WriteCmd(call.cmd)]
       case Rechecking(c, sent) => c == call && call.stepwise && sent <= |call.words| && log.writes == RequestWrites(call)[..2 + sent]
       case Sending(c, sent) => c == call && sent <= |call.words| && log.writes == RequestWrites(call)[..2 + sent]
       case Ended(how) =>
         && (how.BadSize? || how.LockBusy? || how.LockLost?)
         && (log.writes == [] || (how.LockLost? && call.stepwise && log.writes <= RequestWrites(call)))
       case _ => false
  }

  // The command was executed and EXECUTE has not been written since.
  ghost predicate Outstanding(call: Call, log: Log) {
    log.executed && log.asserted && log.writes == RequestWrites(call) + [WriteExecute(1)]
  }

  // After that, EXECUTE was cleared,
  ghost predicate Closed(call: Call, log: Log) {
    log.executed && !log.asserted && log.writes == RequestWrites(call) + [WriteExecute(1), WriteExecute(0)]
  }

  // or the response object wrote 0 where it takes EXECUTE to be.
  ghost predicate Dropped(offs: Offsets, call: Call, log: Log) {
    && log.executed && (log.asserted <==> offs.execute != EXECUTE_OFFSET)
    && log.writes == RequestWrites(call) + [WriteExecute(1), WriteAt(offs.execute, 0)]
  }

  // What of the words taken for the response came out of DATAOUT: all of them, or
  // the first, which the manager reads.
  ghost predicate PoppedOf(offs: Offsets, log: Log) {
    log.taken != [] && log.popped == if offs.dataout == DATAOUT_OFFSET then log.taken else log.taken[..1]
  }

  // The polls saw a busy mailbox until one did not; the status was then read once more.
  ghost predicate Decided(s: seq<u32>) {
    2 <= |s| <= MAX_WAIT_CYCLES + 1 && AllBusy(s[..|s| - 2]) && !Busy(s[|s| - 2])
  }

  ghost predicate DecidedFailed(s: seq<u32>) {
    Decided(s) && Failed(s[|s| - 1])
  }

  ghost predicate DecidedEmpty(s: seq<u32>) {
    Decided(s) && !Failed(s[|s| - 1]) && Completed(s[|s| - 1])
  }

  ghost predicate DecidedData(s: seq<u32>) {
    Decided(s) && !Failed(s[|s| - 1]) && !Completed(s[|s| - 1]) && DataReady(s[|s| - 1])
  }

  ghost predicate DeliveredSoFar(dlen: u32, raw: seq<u32>, words: seq<u32>) {
    && |words| <= WordCount(dlen)
    && |raw| == (if WordCount(dlen) == 0 then 1 else |words|) > 0
    && forall k :: 0 <= k < |words| ==> words[k] == Delivered(dlen, k, raw[k])
  }

  ghost predicate RespondedWith(offs: Offsets, call: Call, log: Log, how: Ending) {
    var s := log.statuses;
    match how
    case TimedOut => Outstanding(call, log) && AllBusy(s) && |s| == MAX_WAIT_CYCLES
    case CommandFailed => Closed(call, log) && DecidedFailed(s)
    case NoData => Closed(call, log) && DecidedEmpty(s)
    case UnknownStatus => Outstanding(call, log) && Decided(s) && !HasVerdict(s[|s| - 1])
    case Drained(words) =>
      && Dropped(offs, call, log) && DecidedData(s) && |log.dlens| == 1 && PoppedOf(offs, log)
      && |words| == WordCount(log.dlens[0]) && DeliveredSoFar(log.dlens[0], log.taken, words)
    case _ => false
  }

  ghost predicate Responding(offs: Offsets, call: Call, log: Log, pc: Pc) {
    var s := log.statuses;
    && 4 * call.respCount >= RESP_HEADER_SIZE
    && match pc
       case Polling(left) =>
         Outstanding(call, log) && AllBusy(s) && 1 <= left && |s| + left == MAX_WAIT_CYCLES
         && log.dlens == [] && log.popped == log.taken == []
       case Deciding =>
         && Outstanding(call, log) && 1 <= |s| <= MAX_WAIT_CYCLES && AllBusy(s[..|s| - 1]) && !Busy(s[|s| - 1])
         && log.dlens == [] && log.popped == log.taken == []
       case Aborting => Outstanding(call, log) && DecidedFailed(s)
       case ReadingFatal => Closed(call, log) && DecidedFailed(s)
       case ReadingNonFatal => Closed(call, log) && DecidedFailed(s)
       case ClosingEmpty => Outstanding(call, log) && DecidedEmpty(s)
       case ReadingLength => Outstanding(call, log) && DecidedData(s) && log.dlens == [] && log.popped == log.taken == []
       case ReadingFirst(dlen) => Outstanding(call, log) && DecidedData(s) && log.dlens == [dlen] && log.popped == log.taken == []
       case Draining(dlen, words) =>
         && Outstanding(call, log) && DecidedData(s) && log.dlens == [dlen]
         && PoppedOf(offs, log) && DeliveredSoFar(dlen, log.taken, words)
       case Ended(how) => RespondedWith(offs, call, log, how)
       case _ => false
  }

  ghost predicate Consistent(offs: Offsets, call: Call, log: Log, pc: Pc) {
    || Requesting(call, log, pc)
    || Responding(offs, call, log, pc)
    || (pc == Ended(RespTooSmall) && Outstanding(call, log) && log.statuses == []
        && 4 * call.respCount < RESP_HEADER_SIZE)
  }

  // Reading a register of the manager other than DATAOUT writes and pops nothing.
  lemma NoteManagerRead(offs: Offsets, log: Log, a: Access)
    requires a.ReadLock? || a.ReadStatus? || a.ReadDlen? || a.ReadFatal? || a.ReadNonFatal?
    ensures var log' := Note(offs, log, a);
            && log' == log.(statuses := log'.statuses, dlens := log'.dlens)
            && log'.statuses == (if a.ReadStatus? then log.statuses + [a.v] else log.statuses)
            && log'.dlens == (if a.ReadDlen? then log.dlens + [a.v] else log.dlens)
  {
  }

  lemma NoteManagerWrite(offs: Offsets, log: Log, a: Access)
    requires a.WriteCmd? || a.WriteDlen? || a.WriteDatain?
    ensures Note(offs, log, a) == log.(writes := log.writes + [a])
  {
  }

  lemma NoteExecute(offs: Offsets, log: Log, v: u32)
    ensures Note(offs, log, WriteExecute(v))
            == log.(writes := log.writes + [WriteExecute(v)], executed := log.executed || v % 2 == 1, asserted := v % 2 == 1)
  {
  }

  lemma SendStep(offs: Offsets, call: Call, log: Log, sent: nat, a: Access)
    requires Requesting(call, log, Sending(call, sent)) && Step(Sending(call, sent), a).Some?
    ensures Consistent(offs, call, Note(offs, log, a), Step(Sending(call, sent), a).value)
  {
    if sent < |call.words| {
      assert RequestWrites(call)[..2 + (sent + 1)] == RequestWrites(call)[..2 + sent] + [WriteDatain(call.words[sent])];
      NoteManagerWrite(offs, log, a);
    } else {
      assert RequestWrites(call)[..2 + sent] == RequestWrites(call);
      NoteExecute(offs, log, 1);
    }
  }

  lemma RequestStep(offs: Offsets, call: Call, log: Log, pc: Pc, a: Access)
    requires Requesting(call, log, pc) && Step(pc, a).Some?
    ensures Consistent(offs, call, Note(offs, log, a), Step(pc, a).value)
  {
    if pc.Sending? {
      SendStep(offs, call, log, pc.sent, a);
    } else if pc.WritingCmd? || pc.WritingDlen? {
      assert RequestWrites(call)[..2] == [WriteCmd(call.cmd), WriteDlen(LengthOf(call.words))];
      NoteManagerWrite(offs, log, a);
    } else {
      NoteManagerRead(offs, log, a);
    }
  }

  lemma PollStep(offs: Offsets, call: Call, log: Log, left: nat, a: Access)
    requires Responding(offs, call, log, Polling(left)) && Step(Polling(left), a).Some?
    ensures Responding(offs, call, Note(offs, log, a), Step(Polling(left), a).value)
  {
    var s, s' := log.statuses, log.statuses + [a.v];
    assert s'[..|s|] == s;
    if Busy(a.v) {
      assert AllBusy(s');
    }
  }

  lemma DecideStep(offs: Offsets, call: Call, log: Log, a: Access)
    requires Responding(offs, call, log, Deciding) && Step(Deciding, a).Some?
    ensures Responding(offs, call, Note(offs, log, a), Step(Deciding, a).value)
  {
    NoteManagerRead(offs, log, a);
    var s := log.statuses + [a.v];
    assert s[..|s| - 2] == log.statuses[..|log.statuses| - 1];
    assert Decided(s);
  }

  lemma TakeStep(offs: Offsets, call: Call, log: Log, dlen: u32, words: seq<u32>, v: u32)
    requires Responding(offs, call, log, Draining(dlen, words)) && |words| < WordCount(dlen)
    ensures Responding(offs, call, Note(offs, log, ResponseData(v)), Draining(dlen, words + [Delivered(dlen, |words|, v)]))
  {
    assert (log.taken + [v])[..1] == log.taken[..1];
  }

  lemma DropStep(offs: Offsets, call: Call, log: Log, dlen: u32, words: seq<u32>)
    requires Responding(offs, call, log, Draining(dlen, words)) && |words| == WordCount(dlen)
    ensures Responding(offs, call, Note(offs, log, ResponseExecute(0)), Ended(Drained(words)))
  {
    var b := WriteAt(offs.execute, 0);
    assert log.writes + [b] == RequestWrites(call) + [WriteExecute(1), b];
  }

  lemma DrainStep(offs: Offsets, call: Call, log: Log, dlen: u32, words: seq<u32>, a: Access)
    requires Responding(offs, call, log, Draining(dlen, words)) && Step(Draining(dlen, words), a).Some?
    ensures Responding(offs, call, Note(offs, log, a), Step(Draining(dlen, words), a).value)
  {
    if |words| < WordCount(dlen) {
      TakeStep(offs, call, log, dlen, words, a.v);
    } else {
      DropStep(offs, call, log, dlen, words);
    }
  }

  lemma CloseStep(offs: Offsets, call: Call, log: Log, pc: Pc, a: Access)
    requires pc.Aborting? || pc.ClosingEmpty?
    requires Responding(offs, call, log, pc) && Step(pc, a).Some?
    ensures Responding(offs, call, Note(offs, log, a), Step(pc, a).value)
  {
    NoteExecute(offs, log, 0);
    assert log.writes + [a] == RequestWrites(call) + [WriteExecute(1), WriteExecute(0)];
  }

  lemma OpenStep(offs: Offsets, call: Call, log: Log, dlen: u32, a: Access)
    requires Responding(offs, call, log, ReadingFirst(dlen)) && Step(ReadingFirst(dlen), a).Some?
    ensures Responding(offs, call, Note(offs, log, a), Step(ReadingFirst(dlen), a).value)
  {
    assert log.taken + [a.v] == [a.v];
  }

  lemma ResponseStep(offs: Offsets, call: Call, log: Log, pc: Pc, a: Access)
    requires Responding(offs, call, log, pc) && Step(pc, a).Some?
    ensures Responding(offs, call, Note(offs, log, a), Step(pc, a).value)
  {
    match pc
    case Polling(left) => PollStep(offs, call, log, left, a);
    case Deciding => DecideStep(offs, call, log, a);
    case Draining(dlen, words) => DrainStep(offs, call, log, dlen, words, a);
    case Aborting => CloseStep(offs, call, log, pc, a);
    case ClosingEmpty => CloseStep(offs, call, log, pc, a);
    case ReadingFirst(dlen) => OpenStep(offs, call, log, dlen, a);
    case _ => NoteManagerRead(offs, log, a);
  }

  lemma {:induction false} RunIsConsistent(offs: Offsets, call: Call, t: seq<Access>)
    requires Run(Start(call), t).Some?
    ensures Consistent(offs, call, Observe(offs, t), Run(Start(call), t).value)
  {
    if t != [] {
      var t' := t[..|t| - 1];
      RunIsConsistent(offs, call, t');
      var pc := Run(Start(call), t').value;
      if Requesting(call, Observe(offs, t'), pc) {
        RequestStep(offs, call, Observe(offs, t'), pc, t[|t| - 1]);
      } else if Responding(offs, call, Observe(offs, t'), pc) {
        ResponseStep(offs, call, Observe(offs, t'), pc, t[|t| - 1]);
      }
    }
  }

  // ---------------------------------------------------------------------------
  // When the mailbox is given back
  // ---------------------------------------------------------------------------

  lemma AssertedAtTheEnd(offs: Offsets, call: Call, log: Log, how: Ending)
    requires Consistent(offs, call, log, Ended(how)) && log.executed
    ensures log.asserted <==>
            || how.RespTooSmall? || how.TimedOut? || how.UnknownStatus?
            || (how.Drained? && offs.execute != EXECUTE_OFFSET)
    ensures how.RespTooSmall? <==> 4 * call.respCount < RESP_HEADER_SIZE
    ensures var s := log.statuses;
            && (!how.RespTooSmall? ==> (how.TimedOut? <==> AllBusy(s)))
            && (!how.RespTooSmall? && !how.TimedOut? ==> (how.UnknownStatus? <==> s != [] && !HasVerdict(s[|s| - 1])))
            && (!how.RespTooSmall? ==> (how.Drained? <==> DecidedData(s)))
  {
    var s := log.statuses;
    if |s| >= 2 && !Busy(s[|s| - 2]) {
      assert !AllBusy(s);
    }
  }

  // Once executed, an exchange leaves EXECUTE set exactly when the response
  // buffer was too small, every poll found the mailbox busy, the status after the
  // polls carried no verdict, or it was left to a response object that has EXECUTE
  // elsewhere than the manager.
  lemma ExecuteLeftAssertedIff(offs: Offsets, call: Call, t: seq<Access>, how: Ending)
    requires Run(Start(call), t) == Some(Ended(how)) && Observe(offs, t).executed
    ensures var s := Observe(offs, t).statuses;
            Observe(offs, t).asserted <==>
            || 4 * call.respCount < RESP_HEADER_SIZE
            || AllBusy(s)
            || (s != [] && !HasVerdict(s[|s| - 1]))
            || (DecidedData(s) && offs.execute != EXECUTE_OFFSET)
  {
    RunIsConsistent(offs, call, t);
    AssertedAtTheEnd(offs, call, Observe(offs, t), how);
  }

  // What the returned result says about that: a timeout leaves EXECUTE set, a
  // failed command does not, and success does exactly if the offsets disagree.
  lemma ResultAndRelease(offs: Offsets, call: Call, t: seq<Access>, how: Ending)
    requires Run(Start(call), t) == Some(Ended(how)) && Observe(offs, t).executed
    ensures ResultOf(how) == Err(MboxTimeout) ==> Observe(offs, t).asserted
    ensures ResultOf(how) == Err(MboxCmdFailed) ==> !Observe(offs, t).asserted
    ensures ResultOf(how).Ok? ==> (Observe(offs, t).asserted <==> offs.execute != EXECUTE_OFFSET)
    ensures ResultOf(how).Ok? || ResultOf(how) in {Err(MboxTimeout), Err(MboxCmdFailed), Err(MboxInvalidResponse)}
  {
    RunIsConsistent(offs, call, t);
  }

  lemma SecondDigit(x: nat, q: nat, r: nat)
    requires x == 4 * q + r && r < 4
    ensures x % 4 == r && (x / 2 % 2 == 1 <==> r >= 2)
  {
    assert x / 2 == 2 * q + r / 2;
  }

  lemma ThirdDigit(x: nat, q: nat, r: nat)
    requires x == 8 * q + r && r < 8
    ensures x % 8 == r && (x / 4 % 2 == 1 <==> r >= 4)
  {
    assert x / 4 == 2 * q + r / 4;
  }

  lemma FourthDigit(x: nat, q: nat, r: nat)
    requires x == 16 * q + r && r < 16
    ensures x % 16 == r && (x / 8 % 2 == 1 <==> r >= 8)
  {
    assert x / 8 == 2 * q + r / 8;
  }

  lemma StatusDigits(status: u32)
    ensures Failed(status) <==> status % 4 >= 2
    ensures Completed(status) <==> status % 8 >= 4
    ensures DataReady(status) <==> status % 16 >= 8
  {
    SecondDigit(status, status / 4, status % 4);
    ThirdDigit(status, status / 8, status % 8);
    FourthDigit(status, status / 16, status % 16);
  }

  // Every poll saw bit 0 set, in vain,
  ghost predicate AlwaysBusy(s: seq<u32>) {
    |s| == 400000 && forall i :: 0 <= i < |s| ==> s[i] % 2 == 1
  }

  // or every poll but the last one did, and the last status was read after that.
  ghost predicate PolledTo(s: seq<u32>, status: u32) {
    && 2 <= |s| <= 400001 && s[|s| - 1] == status && s[|s| - 2] % 2 == 0
    && forall i :: 0 <= i < |s| - 2 ==> s[i] % 2 == 1
  }

  // Bit 1 is a failure, bit 2 without it completion, bit 3 without both data, and none of
  // the three an error.
  ghost predicate EndsByStatus(offs: Offsets, status: u32, r: Result<()>, asserted: bool) {
    if status % 4 >= 2 then r == Err(MboxCmdFailed) && !asserted
    else if status % 8 >= 4 then r == Err(MboxInvalidResponse) && !asserted
    else if status % 16 >= 8 then r == Ok(()) && (asserted <==> offs.execute != 0x18)
    else r == Err(MboxInvalidResponse) && asserted
  }

  lemma BusyPolls(s: seq<u32>)
    ensures AllBusy(s) && |s| == MAX_WAIT_CYCLES ==> AlwaysBusy(s)
    ensures Decided(s) ==> PolledTo(s, s[|s| - 1])
  {
    if Decided(s) {
      forall i | 0 <= i < |s| - 2 ensures s[i] % 2 == 1 {
        var polls := s[..|s| - 2];
        assert Busy(polls[i]);
      }
    }
  }

  lemma EndsAsDecided(offs: Offsets, call: Call, log: Log, how: Ending, s: seq<u32>, status: u32)
    requires RespondedWith(offs, call, log, how) && !how.TimedOut? && s == log.statuses
    requires s != [] && status == s[|s| - 1]
    ensures Decided(s) && EndsByStatus(offs, status, ResultOf(how), log.asserted)
  {
    StatusDigits(status);
  }

  lemma NotAlwaysBusy(s: seq<u32>, status: u32)
    requires PolledTo(s, status)
    ensures !AlwaysBusy(s)
  {
    var last := |s| - 2;
    assert s[last] % 2 != 1;
  }

  ghost predicate DecidedBy(offs: Offsets, s: seq<u32>, r: Result<()>, asserted: bool) {
    if AlwaysBusy(s) then r == Err(MboxTimeout) && asserted
    else s != [] && PolledTo(s, s[|s| - 1]) && EndsByStatus(offs, s[|s| - 1], r, asserted)
  }

  lemma LogDecides(offs: Offsets, call: Call, log: Log, how: Ending)
    requires RespondedWith(offs, call, log, how)
    ensures DecidedBy(offs, log.statuses, ResultOf(how), log.asserted)
  {
    var s := log.statuses;
    BusyPolls(s);
    if !how.TimedOut? {
      EndsAsDecided(offs, call, log, how, s, s[|s| - 1]);
      NotAlwaysBusy(s, s[|s| - 1]);
    }
  }

  // The result of an executed exchange and the state of EXECUTE, by the status values
  // that were read, or without any if there is no room for the two header words.
  lemma ResultByStatus(offs: Offsets, call: Call, t: seq<Access>, how: Ending)
    requires Run(Start(call), t) == Some(Ended(how)) && Observe(offs, t).executed
    ensures var log := Observe(offs, t);
            if call.respCount >= 2 then DecidedBy(offs, log.statuses, ResultOf(how), log.asserted)
            else log.statuses == [] && ResultOf(how) == Err(MboxInvalidResponse) && log.asserted
  {
    RunIsConsistent(offs, call, t);
    if call.respCount >= 2 {
      LogDecides(offs, call, Observe(offs, t), how);
    }
  }

  // And of one that was not: the size was wrong, or LOCK was not as it should be.
  lemma ResultWithoutExecute(offs: Offsets, call: Call, t: seq<Access>, how: Ending)
    requires Run(Start(call), t) == Some(Ended(how)) && !Observe(offs, t).executed
    ensures var size := 4 * |call.words|;
            if size > 0x4_0000 || (!call.stepwise && size == 0)
            then t == [] && ResultOf(how) == Err(MboxInvalidResponse)
            else ResultOf(how) == Err(MboxLockFailed)
    ensures !Observe(offs, t).asserted
  {
    RunIsConsistent(offs, call, t);
    BadSizeIff(call, t);
  }

  // ---------------------------------------------------------------------------
  // What a successful exchange sent and delivered
  // ---------------------------------------------------------------------------

  // Command and length in bytes, then the words, one by one.
  lemma RequestAsWritten(call: Call)
    requires 4 * |call.words| <= 0x4_0000
    ensures RequestWrites(call) == [WriteCmd(call.cmd), WriteDlen(4 * |call.words|)] + DataWrites(call.words)
  {
  }

  lemma SentIsWithinSize(call: Call, t: seq<Access>)
    requires Run(Start(call), t).Some? && Run(Start(call), t).value.Ended? && Run(Start(call), t).value.how.Drained?
    ensures 4 * |call.words| <= 0x4_0000
  {
    BadSizeIff(call, t);
  }

  lemma SuccessfulExchange(offs: Offsets, call: Call, t: seq<Access>, words: seq<u32>)
    requires Run(Start(call), t) == Some(Ended(Drained(words)))
    ensures var log := Observe(offs, t);
            && 4 * |call.words| <= 0x4_0000
            && log.writes == [WriteCmd(call.cmd), WriteDlen(4 * |call.words|)] + DataWrites(call.words)
                             + [WriteExecute(1), WriteAt(offs.execute, 0)]
            && |log.dlens| == 1
            && var dlen, n := log.dlens[0], WordCount(log.dlens[0]);
               && |words| == n && (if dlen <= 0xFFFF_FFFC then 4 * n - 4 < dlen <= 4 * n else n == 0)
               && |log.taken| == (if n == 0 then 1 else n)
               && words == ResponseWords(log.dlens[0], log.taken)
               && log.popped == if offs.dataout == DATAOUT_OFFSET then log.taken else log.taken[..1]
  {
    SentIsWithinSize(call, t);
    RequestAsWritten(call);
    RunIsConsistent(offs, call, t);
    var log := Observe(offs, t);
    WordsCoverBytes(log.dlens[0]);
    assert |words| == WordCount(log.dlens[0]);
    assert words == ResponseWords(log.dlens[0], log.taken);
  }

  // As the classes are: every successful exchange leaves EXECUTE set, writes the
  // command register instead, and pops one word whatever the length.
  lemma ShippedExchange(call: Call, t: seq<Access>, words: seq<u32>)
    requires Run(Start(call), t) == Some(Ended(Drained(words)))
    ensures SHIPPED == Offsets(0x00, 0x04)
    ensures var log := Observe(SHIPPED, t);
            && log.asserted && |log.popped| == 1
            && log.writes == RequestWrites(call) + [WriteExecute(1), WriteCmd(0)]
  {
    RunIsConsistent(SHIPPED, call, t);
  }
}
