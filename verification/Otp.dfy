// The OTP driver: bounded waiting, and word access through the direct-access
// registers of a controller that may take its time, or fail any command.
module Otp {
  import opened Common

  // The n-th word of a transfer, in 32-bit address arithmetic.
  function AddrOf(addr: u32, n: nat): u32 { (addr + 4 * n) % WORD_LIMIT }

  function Cell(cells: map<u32, u32>, addr: u32): u32 {
    if addr in cells then cells[addr] else 0
  }

  // The cells after a transfer of all of data.
  function StoreWords(cells: map<u32, u32>, addr: u32, data: seq<u32>): map<u32, u32> {
    if data == [] then cells
    else StoreWords(cells, addr, data[..|data| - 1])[AddrOf(addr, |data| - 1) := data[|data| - 1]]
  }

  lemma StoreOneMore(cells: map<u32, u32>, addr: u32, data: seq<u32>, i: nat)
    requires i < |data|
    ensures StoreWords(cells, addr, data[..i + 1]) == StoreWords(cells, addr, data[..i])[AddrOf(addr, i) := data[i]]
  {
    assert data[..i + 1][..i] == data[..i];
  }

  lemma AddressesDiffer(addr: u32, i: nat, j: nat)
    requires i < j && 4 * j < WORD_LIMIT
    ensures AddrOf(addr, i) != AddrOf(addr, j)
  {
    var q, q' := (addr + 4 * i) / WORD_LIMIT, (addr + 4 * j) / WORD_LIMIT;
    assert addr + 4 * i == q * WORD_LIMIT + AddrOf(addr, i);
    assert addr + 4 * j == q' * WORD_LIMIT + AddrOf(addr, j);
  }

  // Each stored word is found again at its address, even where the range wraps
  // around the address space.
  lemma {:induction false} StoredWordIsFound(cells: map<u32, u32>, addr: u32, data: seq<u32>, i: nat)
    requires i < |data| && 4 * |data| < WORD_LIMIT
    ensures Cell(StoreWords(cells, addr, data), (addr + 4 * i) % 0x1_0000_0000) == data[i]
  {
    if i < |data| - 1 {
      StoredWordIsFound(cells, addr, data[..|data| - 1], i);
      AddressesDiffer(addr, i, |data| - 1);
    }
  }

  // No other cell is written.
  lemma {:induction false} OtherCellsAreKept(cells: map<u32, u32>, addr: u32, data: seq<u32>, a: u32)
    requires forall i :: 0 <= i < |data| ==> a != AddrOf(addr, i)
    ensures Cell(StoreWords(cells, addr, data), a) == Cell(cells, a)
  {
    if data != [] {
      OtherCellsAreKept(cells, addr, data[..|data| - 1], a);
    }
  }

  // The controller. Its timing and its faults are arbitrary: `idle` holds the numbers
  // of the STATUS reads that find it idle, `fault` those of the commands that fail.
  // A failing command leaves the cells alone and junk in the read register.
  class Controller {
    const idle: iset<nat>
    const fault: iset<nat>
    const junk: nat -> u32
    var polls: nat
    var commands: nat
    var error: bool
    var addr: u32
    var wdata: u32
    var rdata: u32
    var cells: map<u32, u32>

    constructor (idle: iset<nat>, fault: iset<nat>, junk: nat -> u32, cells: map<u32, u32>)
      ensures this.idle == idle && this.fault == fault && this.junk == junk && this.cells == cells
      ensures polls == 0 && commands == 0
    {
      this.idle, this.fault, this.junk, this.cells := idle, fault, junk, cells;
      polls, commands, error, addr, wdata, rdata := 0, 0, false, 0, 0, 0;
    }

    // STATUS: the idle bit and the error bit.
    method ReadStatus() returns (isIdle: bool, hasError: bool)
      modifies `polls
      ensures isIdle == (old(polls) in idle) && hasError == error && polls == old(polls) + 1
    {
      isIdle, hasError := polls in idle, error;
      polls := polls + 1;
    }

    // DIRECT_ACCESS_CMD with CMD_READ.
    method CommandRead()
      modifies `commands, `error, `rdata
      ensures commands == old(commands) + 1 && error == (old(commands) in fault)
      ensures !error ==> rdata == Cell(cells, addr)
    {
      error := commands in fault;
      rdata := if error then junk(commands) else Cell(cells, addr);
      commands := commands + 1;
    }

    // DIRECT_ACCESS_CMD with CMD_WRITE.
    method CommandWrite()
      modifies `commands, `error, `cells
      ensures commands == old(commands) + 1 && error == (old(commands) in fault)
      ensures cells == if error then old(cells) else old(cells)[addr := wdata]
    {
      error := commands in fault;
      if !error {
        cells := cells[addr := wdata];
      }
      commands := commands + 1;
    }
  }

  const DEFAULT_TIMEOUT: u32 := 10000

  // How many of from in f, f(from + 1), ... come before the first that holds; n if
  // none of the first n does.
  ghost function Until(f: iset<nat>, from: nat, n: nat): (k: nat)
    ensures k <= n
    decreases n, from
  {
    if n == 0 || from in f then 0 else 1 + Until(f, from + 1, n - 1)
  }

  lemma {:induction false} UntilIsFirst(f: iset<nat>, from: nat, n: nat)
    ensures var k := Until(f, from, n);
      (forall i: nat :: from <= i < from + k ==> i !in f) && (k < n ==> from + k in f)
    decreases n
  {
    if n > 0 && from !in f {
      UntilIsFirst(f, from + 1, n - 1);
    }
  }

  lemma {:induction false} UntilSplits(f: iset<nat>, from: nat, n: nat)
    ensures Until(f, from, n + 1) == if Until(f, from, n) == n && from + n !in f then n + 1 else Until(f, from, n)
    decreases n
  {
    if n > 0 && from !in f {
      UntilSplits(f, from + 1, n - 1);
    }
  }

  // None of the n polls from number p on finds the controller idle; or the first that
  // does is number k.
  ghost predicate NoneIdle(idle: iset<nat>, p: nat, n: nat) {
    forall i: nat :: p <= i < p + n ==> i !in idle
  }

  ghost predicate FirstIdle(idle: iset<nat>, p: nat, n: nat, k: nat) {
    p <= k < p + n && k in idle && forall i: nat :: p <= i < k ==> i !in idle
  }

  lemma {:induction false} UntilNone(idle: iset<nat>, p: nat, n: nat)
    ensures Until(idle, p, n) == n <==> NoneIdle(idle, p, n)
    decreases n
  {
    if n > 0 && p !in idle {
      UntilNone(idle, p + 1, n - 1);
    }
  }

  lemma {:induction false} UntilFirst(idle: iset<nat>, p: nat, n: nat, k: nat)
    requires FirstIdle(idle, p, n, k)
    ensures Until(idle, p, n) == k - p < n
    decreases n
  {
    if p !in idle {
      UntilFirst(idle, p + 1, n - 1, k);
    }
  }

  // A wait of `budget` from poll p on finds no idle controller.
  ghost predicate Misses(idle: iset<nat>, p: nat, budget: u32) {
    Until(idle, p, PollLimit(budget)) == PollLimit(budget)
  }

  // The poll number after it.
  ghost function AfterWait(idle: iset<nat>, p: nat, budget: u32): nat {
    p + Until(idle, p, PollLimit(budget)) + if Misses(idle, p, budget) then 0 else 1
  }

  // The wait before a command, or after one, misses the controller.
  ghost predicate TimesOut(idle: iset<nat>, p: nat) {
    Misses(idle, p, DEFAULT_TIMEOUT)
  }

  // How far a transfer came: the words done, its result, and the poll and command
  // numbers it ended at.
  datatype Progress = Progress(done: nat, r: Result<()>, polls: nat, commands: nat)

  // One command from poll p and command c on: a wait that misses issues nothing; a
  // wait that misses after the command leaves its outcome unknown; only then does
  // one more STATUS read tell a fault, reported as `failed`, from success.
  ghost function Command(idle: iset<nat>, fault: iset<nat>, p: nat, c: nat, failed: McuError): Progress {
    var issued := AfterWait(idle, p, DEFAULT_TIMEOUT);
    var ended := AfterWait(idle, issued, DEFAULT_TIMEOUT);
    if TimesOut(idle, p) then Progress(0, Err(Timeout), issued, c)
    else if TimesOut(idle, issued) then Progress(0, Err(Timeout), ended, c + 1)
    else if c in fault then Progress(0, Err(failed), ended + 1, c + 1)
    else Progress(1, Ok(()), ended + 1, c + 1)
  }

  // One command, by the numbers of the polls that find the controller idle: TIMEOUT if none
  // of the first 10000 does, or if the first one is number k and none of the 10000 after it
  // does; else the command's own outcome, told by one more STATUS read after number j, the
  // first of these that does.
  lemma CommandNeverBegins(idle: iset<nat>, fault: iset<nat>, p: nat, c: nat, failed: McuError)
    requires NoneIdle(idle, p, 10000)
    ensures Command(idle, fault, p, c, failed) == Progress(0, Err(Timeout), p + 10000, c)
  {
    UntilNone(idle, p, 10000);
  }

  lemma CommandNeverEnds(idle: iset<nat>, fault: iset<nat>, p: nat, c: nat, failed: McuError, k: nat)
    requires FirstIdle(idle, p, 10000, k) && NoneIdle(idle, k + 1, 10000)
    ensures Command(idle, fault, p, c, failed) == Progress(0, Err(Timeout), k + 10001, c + 1)
  {
    UntilFirst(idle, p, 10000, k);
    UntilNone(idle, k + 1, 10000);
  }

  lemma CommandEnds(idle: iset<nat>, fault: iset<nat>, p: nat, c: nat, failed: McuError, k: nat, j: nat)
    requires FirstIdle(idle, p, 10000, k) && FirstIdle(idle, k + 1, 10000, j)
    ensures Command(idle, fault, p, c, failed)
         == if c in fault then Progress(0, Err(failed), j + 2, c + 1) else Progress(1, Ok(()), j + 2, c + 1)
  {
    UntilFirst(idle, p, 10000, k);
    UntilFirst(idle, k + 1, 10000, j);
  }

  // Up to n commands one after the other, the first that fails being the last.
  ghost function Transfer(idle: iset<nat>, fault: iset<nat>, p: nat, c: nat, failed: McuError, n: nat): (t: Progress)
    ensures t.done <= n && (t.r.Ok? <==> t.done == n)
    decreases n
  {
    if n == 0 then Progress(0, Ok(()), p, c)
    else
      var before := Transfer(idle, fault, p, c, failed, n - 1);
      if before.r.Err? then before
      else
        var last := Command(idle, fault, before.polls, before.commands, failed);
        last.(done := before.done + last.done)
  }

  lemma {:induction false} TransferStaysFailed(idle: iset<nat>, fault: iset<nat>, p: nat, c: nat,
      failed: McuError, k: nat, n: nat)
    requires k <= n && Transfer(idle, fault, p, c, failed, k).r.Err?
    ensures Transfer(idle, fault, p, c, failed, n) == Transfer(idle, fault, p, c, failed, k)
    decreases n
  {
    if k < n {
      TransferStaysFailed(idle, fault, p, c, failed, k, n - 1);
    }
  }

  // A transfer gets to word i exactly when each word before it was one fault-free
  // command between two waits that ended.
  lemma {:induction false} TransferGetsTo(idle: iset<nat>, fault: iset<nat>, p: nat, c: nat, failed: McuError,
      n: nat, i: nat)
    requires i < n
    ensures var s := Transfer(idle, fault, p, c, failed, i);
      && (s.r.Ok? ==> s.commands == c + i)
      && (i < Transfer(idle, fault, p, c, failed, n).done <==>
           s.r.Ok? && !TimesOut(idle, s.polls) && !TimesOut(idle, AfterWait(idle, s.polls, DEFAULT_TIMEOUT)) && c + i !in fault)
    decreases n
  {
    if i == n - 1 {
      if i > 0 {
        TransferGetsTo(idle, fault, p, c, failed, i, i - 1);
      }
    } else {
      TransferGetsTo(idle, fault, p, c, failed, n - 1, i);
    }
  }

  // It ends with the first word that fails, and with that word's error.
  lemma {:induction false} TransferStopsAtFirstFailure(idle: iset<nat>, fault: iset<nat>, p: nat, c: nat,
      failed: McuError, n: nat)
    requires Transfer(idle, fault, p, c, failed, n).r.Err?
    ensures var t := Transfer(idle, fault, p, c, failed, n);
      var s := Transfer(idle, fault, p, c, failed, t.done);
      s.r.Ok? && t == Command(idle, fault, s.polls, s.commands, failed).(done := t.done)
    decreases n
  {
    if Transfer(idle, fault, p, c, failed, n - 1).r.Err? {
      TransferStopsAtFirstFailure(idle, fault, p, c, failed, n - 1);
    }
  }

  // On a controller that no wait misses, the faults alone decide: all words are
  // transferred, or those before the first fault, with its error.
  lemma {:induction false} FaultsDecide(idle: iset<nat>, fault: iset<nat>, p: nat, c: nat, failed: McuError, n: nat)
    requires forall q: nat :: !TimesOut(idle, q)
    ensures var t := Transfer(idle, fault, p, c, failed, n);
      && t.done == Until(fault, c, n)
      && t.r == (if t.done == n then Ok(()) else Err(failed))
      && t.commands == c + t.done + if t.done == n then 0 else 1
  {
    if n > 0 {
      FaultsDecide(idle, fault, p, c, failed, n - 1);
      UntilSplits(fault, c, n - 1);
    }
  }

  class Driver {
    const dev: Controller

    constructor (dev: Controller)
      ensures this.dev == dev
    {
      this.dev := dev;
    }

    method WaitForIdle(budget: u32) returns (r: Result<()>)
      modifies dev`polls
      ensures r == if Misses(dev.idle, old(dev.polls), budget) then Err(Timeout) else Ok(())
      ensures var p, n := old(dev.polls), if budget == 0 then 0x1_0000_0000 else budget;
        if r.Ok? then dev.polls > 0 && FirstIdle(dev.idle, p, n, dev.polls - 1)
        else r == Err(Timeout) && NoneIdle(dev.idle, p, n) && dev.polls == p + n
      ensures dev.polls == AfterWait(dev.idle, old(dev.polls), budget)
    {
      ghost var p, n := dev.polls, PollLimit(budget);
      var timeout := budget;
      while true
        invariant p <= dev.polls < p + n
        invariant Until(dev.idle, p, n) == dev.polls - p + Until(dev.idle, dev.polls, n - (dev.polls - p))
        invariant timeout == (n - (dev.polls - p)) % WORD_LIMIT
        invariant NoneIdle(dev.idle, p, dev.polls - p)
        decreases p + n - dev.polls
      {
        var isIdle, hasError := dev.ReadStatus();
        if isIdle {
          return Ok(());
        }
        timeout := (timeout - 1) % WORD_LIMIT;
        if timeout == 0 {
          return Err(Timeout);
        }
      }
    }

    // The cell's value, or the error that stopped it.
    method ReadWord(addr: u32) returns (r: Result<u32>)
      modifies dev
      ensures var t := Command(dev.idle, dev.fault, old(dev.polls), old(dev.commands), OtpReadError);
        && r == (if t.r.Ok? then Ok(Cell(old(dev.cells), addr)) else Err(t.r.error))
        && dev.polls == t.polls && dev.commands == t.commands
      ensures dev.cells == old(dev.cells)
    {
      var w := WaitForIdle(DEFAULT_TIMEOUT);
      if w.Err? {
        return Err(w.error);
      }
      dev.addr := addr;
      dev.CommandRead();
      w := WaitForIdle(DEFAULT_TIMEOUT);
      if w.Err? {
        return Err(w.error);
      }
      var isIdle, hasError := dev.ReadStatus();
      if hasError {
        return Err(OtpReadError);
      }
      return Ok(dev.rdata);
    }

    // The cell is stored whenever the command was issued and did not fail, also
    // when the wait after it misses.
    method WriteWord(addr: u32, value: u32) returns (r: Result<()>)
      modifies dev
      ensures var t := Command(dev.idle, dev.fault, old(dev.polls), old(dev.commands), OtpWriteError);
        r == t.r && dev.polls == t.polls && dev.commands == t.commands
      ensures dev.cells == if dev.commands > old(dev.commands) && old(dev.commands) !in dev.fault
                           then old(dev.cells)[addr := value] else old(dev.cells)
    {
      var w := WaitForIdle(DEFAULT_TIMEOUT);
      if w.Err? {
        return w;
      }
      dev.addr := addr;
      dev.wdata := value;
      dev.CommandWrite();
      w := WaitForIdle(DEFAULT_TIMEOUT);
      if w.Err? {
        return w;
      }
      var isIdle, hasError := dev.ReadStatus();
      if hasError {
        return Err(OtpWriteError);
      }
      return Ok(());
    }

    // On failure the words read so far are in the buffer and the rest is as it was.
    method ReadWords(addr: u32, buffer: array<u32>) returns (r: Result<()>, ghost done: nat)
      modifies dev, buffer
      ensures Progress(done, r, dev.polls, dev.commands)
           == Transfer(dev.idle, dev.fault, old(dev.polls), old(dev.commands), OtpReadError, buffer.Length)
      ensures dev.cells == old(dev.cells)
      ensures forall i :: 0 <= i < buffer.Length ==>
        buffer[i] == if i < done then Cell(dev.cells, (addr + 4 * i) % 0x1_0000_0000) else old(buffer[i])
    {
      ghost var p, c := dev.polls, dev.commands;
      for i := 0 to buffer.Length
        invariant Progress(i, Ok(()), dev.polls, dev.commands) == Transfer(dev.idle, dev.fault, p, c, OtpReadError, i)
        invariant dev.cells == old(dev.cells)
        invariant forall k :: 0 <= k < buffer.Length ==>
          buffer[k] == if k < i then Cell(dev.cells, AddrOf(addr, k)) else old(buffer[k])
      {
        var word := ReadWord((addr + i * 4) % WORD_LIMIT);
        if word.Err? {
          TransferStaysFailed(dev.idle, dev.fault, p, c, OtpReadError, i + 1, buffer.Length);
          return Err(word.error), i;
        }
        buffer[i] := word.value;
      }
      return Ok(()), buffer.Length;
    }

    // On failure the words before the one that failed are stored, and that one is
    // exactly when its command was issued and did not fail.
    method WriteWords(addr: u32, data: seq<u32>) returns (r: Result<()>, ghost done: nat)
      modifies dev
      ensures Progress(done, r, dev.polls, dev.commands)
           == Transfer(dev.idle, dev.fault, old(dev.polls), old(dev.commands), OtpWriteError, |data|)
      ensures dev.cells == StoreWords(old(dev.cells), addr,
        if done < |data| && dev.commands > old(dev.commands) + done && old(dev.commands) + done !in dev.fault
        then data[..done + 1] else data[..done])
    {
      ghost var p, c, cells := dev.polls, dev.commands, dev.cells;
      for i := 0 to |data|
        invariant Progress(i, Ok(()), dev.polls, dev.commands) == Transfer(dev.idle, dev.fault, p, c, OtpWriteError, i)
        invariant dev.commands == c + i
        invariant dev.cells == StoreWords(cells, addr, data[..i])
      {
        StoreOneMore(cells, addr, data, i);
        r := WriteWord((addr + i * 4) % WORD_LIMIT, data[i]);
        if r.Err? {
          TransferStaysFailed(dev.idle, dev.fault, p, c, OtpWriteError, i + 1, |data|);
          return r, i;
        }
      }
      return Ok(()), |data|;
    }

    // What was written is read back; and on a controller that no wait misses both
    // transfers succeed exactly when none of their commands fails.
    method WriteThenRead(addr: u32, data: seq<u32>, buffer: array<u32>) returns (r: Result<()>)
      requires buffer.Length == |data| && 4 * |data| < WORD_LIMIT
      modifies dev, buffer
      ensures var w := Transfer(dev.idle, dev.fault, old(dev.polls), old(dev.commands), OtpWriteError, |data|);
        r == if w.r.Err? then w.r
             else Transfer(dev.idle, dev.fault, w.polls, w.commands, OtpReadError, |data|).r
      ensures r.Ok? ==> buffer[..] == data
      ensures (forall q: nat :: !TimesOut(dev.idle, q)) ==>
        (r.Ok? <==> Until(dev.fault, old(dev.commands), |data|) == |data|
                    && Until(dev.fault, old(dev.commands) + |data|, |data|) == |data|)
    {
      ghost var p, c, cells := dev.polls, dev.commands, dev.cells;
      ghost var done;
      r, done := WriteWords(addr, data);
      if forall q: nat :: !TimesOut(dev.idle, q) {
        FaultsDecide(dev.idle, dev.fault, p, c, OtpWriteError, |data|);
        FaultsDecide(dev.idle, dev.fault, dev.polls, dev.commands, OtpReadError, |data|);
      }
      if r.Err? {
        return;
      }
      assert data[..|data|] == data;
      r, done := ReadWords(addr, buffer);
      if r.Ok? {
        forall i | 0 <= i < |data|
          ensures buffer[i] == data[i]
        {
          StoredWordIsFound(cells, addr, data, i);
        }
      }
    }
  }
}
