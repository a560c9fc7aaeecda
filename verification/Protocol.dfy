// Any number of agents running exchanges against one mailbox and Caliptra, with
// single register accesses interleaved arbitrarily, for response objects that have
// their registers at any offsets.
module Protocol {
  import opened Common
  import opened MailboxChecksum
  import opened Mailbox

  type AgentId = nat

  // A public call that checks LOCK and makes its writes, made outside an exchange.
  datatype Loose = LockMailbox | SetCommand(cmd: u32, len: u32) | WriteData(word: u32) | ExecuteCommand

  function WritesOf(loose: Loose): seq<Access> {
    match loose
    case LockMailbox => []
    case SetCommand(cmd, len) => [WriteCmd(cmd), WriteDlen(len)]
    case WriteData(word) => [WriteDatain(word)]
    case ExecuteCommand => [WriteExecute(1)]
  }

  // An agent may be in an exchange; in a loose call, before its look at LOCK or after
  // it, with some writes left to make; or in a call of finish_mailbox_resp on its own,
  // without having sent a request.
  datatype Agent =
    | Idle
    | Active(call: Call, pc: Pc)
    | Stray(writes: seq<Access>, checked: bool)
    | Finishing(pc: Pc)

  // The mailbox hardware. A LOCK read that finds no owner makes the reader the
  // owner of a mailbox with empty input, clearing EXECUTE frees it, and reading
  // DATAOUT pops a word.
  datatype Device = Device(
    owner: Option<AgentId>,
    cmd: u32,
    dlen: u32,
    datain: seq<u32>,
    execute: bool,
    status: u32,
    dataout: seq<u32>)

  // What Caliptra finds in the mailbox when EXECUTE is set, and who set it for what
  // exchange, if for one.
  datatype Served = Served(agent: AgentId, call: Option<Call>, cmd: u32, dlen: u32, data: seq<u32>)

  datatype System = System(device: Device, agents: map<AgentId, Agent>, served: seq<Served>)

  datatype Action =
    | Begin(id: AgentId, call: Call)
    | BeginStray(id: AgentId, loose: Loose)
    | BeginFinish(id: AgentId)
    | Touch(id: AgentId, a: Access)
    | Leave(id: AgentId)
    | CaliptraActs(status: u32, dlen: u32, dataout: seq<u32>)

  function AgentOf(s: System, id: AgentId): Agent {
    if id in s.agents then s.agents[id] else Idle
  }

  function Initial(status: u32): System {
    System(Device(None, 0, 0, [], false, status, []), map[], [])
  }

  // Whether the device can answer the access as it says.
  predicate Answers(d: Device, a: Access) {
    match a
    case ReadLock(v) => Locked(v) <==> d.owner.Some?
    case ReadStatus(v) => v == d.status
    case ReadDlen(v) => v == d.dlen
    case ReadDataout(v) => d.dataout != [] ==> v == d.dataout[0]
    case _ => true
  }

  function DeviceAfter(d: Device, id: AgentId, a: Access): Device {
    match a
    case ReadLock(_) => if d.owner == None then d.(owner := Some(id), datain := []) else d
    case ReadDataout(_) => if d.dataout == [] then d else d.(dataout := d.dataout[1..])
    case WriteCmd(v) => d.(cmd := v)
    case WriteDlen(v) => d.(dlen := v)
    case WriteDatain(v) => d.(datain := d.datain + [v])
    case WriteExecute(v) => if v % 2 == 1 then d.(execute := true) else d.(execute := false, owner := None)
    case _ => d
  }

  function AgentAfter(agent: Agent, a: Access): Option<Agent> {
    match agent
    case Idle => None
    case Active(call, pc) => if Step(pc, a).Some? then Some(Active(call, Step(pc, a).value)) else None
    case Stray(writes, checked) =>
      if !checked then
        if a.ReadLock? then Some(if Locked(a.v) && writes != [] then Stray(writes, true) else Idle) else None
      else if writes != [] && a == writes[0] then Some(if |writes| == 1 then Idle else Stray(writes[1..], true))
      else None
    case Finishing(pc) => if Step(pc, a).Some? then Some(Finishing(Step(pc, a).value)) else None
  }

  function ServedBy(s: System, id: AgentId, a: Access): seq<Served> {
    if a == WriteExecute(1)
    then [Served(id, if AgentOf(s, id).Active? then Some(AgentOf(s, id).call) else None,
                 s.device.cmd, s.device.dlen, s.device.datain)]
    else []
  }

  // One step of one agent or of Caliptra; None if it cannot be taken. Caliptra
  // may change the status at any time, but answers only an executed command.
  function Next(offs: Offsets, s: System, action: Action): Option<System> {
    match action
    case Begin(id, call) =>
      if AgentOf(s, id).Idle? then Some(s.(agents := s.agents[id := Active(call, Start(call))])) else None
    case BeginStray(id, loose) =>
      if AgentOf(s, id).Idle? then Some(s.(agents := s.agents[id := Stray(WritesOf(loose), false)])) else None
    case BeginFinish(id) =>
      if AgentOf(s, id).Idle? then Some(s.(agents := s.agents[id := Finishing(Polling(MAX_WAIT_CYCLES))])) else None
    case Touch(id, a) =>
      var agent := AgentAfter(AgentOf(s, id), a);
      if Answers(s.device, Decode(offs, a)) && agent.Some? then
        Some(System(DeviceAfter(s.device, id, Decode(offs, a)), s.agents[id := agent.value],
                    s.served + ServedBy(s, id, a)))
      else None
    case Leave(id) =>
      var agent := AgentOf(s, id);
      if (agent.Active? || agent.Finishing?) && agent.pc.Ended? then Some(s.(agents := s.agents[id := Idle])) else None
    case CaliptraActs(status, dlen, dataout) =>
      if s.device.execute then Some(s.(device := s.device.(status := status, dlen := dlen, dataout := dataout)))
      else Some(s.(device := s.device.(status := status)))
  }

  function Execute(offs: Offsets, s: System, actions: seq<Action>): Option<System> {
    if actions == [] then Some(s)
    else
      match Execute(offs, s, actions[..|actions| - 1])
      case None => None
      case Some(s') => Next(offs, s', actions[|actions| - 1])
  }

  // ---------------------------------------------------------------------------
  // Holding the mailbox
  // ---------------------------------------------------------------------------

  // Between the LOCK read that succeeded and the release.
  predicate Holding(pc: Pc) {
    !pc.TakingLock? && !pc.Ended? && !pc.ReadingFatal? && !pc.ReadingNonFatal?
  }

  predicate HoldsMailbox(s: System, id: AgentId) {
    var agent := AgentOf(s, id);
    agent.Active? && Holding(agent.pc)
  }

  // The positions from the poll loop on.
  predicate Answering(pc: Pc) {
    && !pc.TakingLock? && !pc.CheckingLock? && !pc.WritingCmd? && !pc.WritingDlen?
    && !pc.Rechecking? && !pc.Sending?
  }

  // Holding, with the command executed.
  predicate AwaitsAnswer(s: System, id: AgentId) {
    HoldsMailbox(s, id) && Answering(AgentOf(s, id).pc)
  }

  ghost predicate HoldersOwn(s: System) {
    forall id: AgentId :: HoldsMailbox(s, id) ==> s.device.owner == Some(id)
  }

  // A finish on its own clears EXECUTE.
  predicate LoneRelease(offs: Offsets, s: System, action: Action) {
    action.Touch? && AgentOf(s, action.id).Finishing? && Decode(offs, action.a).WriteExecute?
  }

  // It does so while an exchange holds the mailbox.
  ghost predicate Steals(offs: Offsets, s: System, action: Action) {
    LoneRelease(offs, s, action) && exists id: AgentId :: HoldsMailbox(s, id)
  }

  ghost predicate Undisturbed(offs: Offsets, s: System, actions: seq<Action>) {
    actions == [] ||
    var before := actions[..|actions| - 1];
    && Undisturbed(offs, s, before)
    && (Execute(offs, s, before).Some? ==> !Steals(offs, Execute(offs, s, before).value, actions[|actions| - 1]))
  }

  ghost predicate Reachable(offs: Offsets, s: System) {
    exists status, actions ::
      Execute(offs, Initial(status), actions) == Some(s) && Undisturbed(offs, Initial(status), actions)
  }

  // ---------------------------------------------------------------------------
  // What every run keeps
  // ---------------------------------------------------------------------------

  predicate LooseWrite(a: Access) {
    a.WriteCmd? || a.WriteDlen? || a.WriteDatain? || a == WriteExecute(1)
  }

  // An exchange is about its own call, and a finish on its own answers none.
  ghost predicate AgentFits(agent: Agent) {
    match agent
    case Idle => true
    case Stray(writes, _) => forall i :: 0 <= i < |writes| ==> LooseWrite(writes[i])
    case Finishing(pc) => Answering(pc)
    case Active(call, pc) =>
      match pc
      case TakingLock(c) => c == call
      case CheckingLock(c) => c == call
      case WritingCmd(c) => c == call
      case WritingDlen(c) => c == call
      case Rechecking(c, n) => c == call && n <= |c.words|
      case Sending(c, n) => c == call && n <= |c.words|
      case _ => true
  }

  ghost predicate AgentsFit(s: System) {
    forall id: AgentId :: AgentFits(AgentOf(s, id))
  }

  lemma AgentFitsAfter(agent: Agent, a: Access)
    requires AgentFits(agent) && AgentAfter(agent, a).Some?
    ensures AgentFits(AgentAfter(agent, a).value)
  {
  }

  lemma NextKeepsFit(offs: Offsets, s: System, action: Action)
    requires AgentsFit(s) && Next(offs, s, action).Some?
    ensures AgentsFit(Next(offs, s, action).value)
  {
    var s' := Next(offs, s, action).value;
    forall id: AgentId ensures AgentFits(AgentOf(s', id)) {
      assert AgentFits(AgentOf(s, id));
      if action.Touch? && action.id == id {
        AgentFitsAfter(AgentOf(s, id), action.a);
      }
    }
  }

  lemma {:induction false} ExecuteKeepsFit(offs: Offsets, s: System, actions: seq<Action>)
    requires AgentsFit(s) && Execute(offs, s, actions).Some?
    ensures AgentsFit(Execute(offs, s, actions).value)
  {
    if actions != [] {
      var before := actions[..|actions| - 1];
      ExecuteKeepsFit(offs, s, before);
      NextKeepsFit(offs, Execute(offs, s, before).value, actions[|actions| - 1]);
    }
  }

  // ---------------------------------------------------------------------------
  // Who owns the mailbox
  // ---------------------------------------------------------------------------

  // No agent that does not hold the mailbox gives an owned one away, but by a finish
  // on its own.
  lemma OutsiderKeepsOwner(offs: Offsets, s: System, id: AgentId, a: Access)
    requires AgentFits(AgentOf(s, id)) && !HoldsMailbox(s, id) && Next(offs, s, Touch(id, a)).Some?
    requires s.device.owner.Some? && !LoneRelease(offs, s, Touch(id, a))
    ensures Next(offs, s, Touch(id, a)).value.device.owner == s.device.owner
  {
  }

  // The holder keeps it, for as long as it holds it.
  lemma HolderKeepsOwner(offs: Offsets, s: System, id: AgentId, a: Access)
    requires HoldsMailbox(s, id) && s.device.owner == Some(id) && Next(offs, s, Touch(id, a)).Some?
    ensures var s' := Next(offs, s, Touch(id, a)).value; HoldsMailbox(s', id) ==> s'.device.owner == Some(id)
  {
  }

  // Whoever starts to hold it found it free.
  lemma NewHolderOwns(offs: Offsets, s: System, id: AgentId, a: Access)
    requires AgentFits(AgentOf(s, id)) && !HoldsMailbox(s, id) && Next(offs, s, Touch(id, a)).Some?
    ensures var s' := Next(offs, s, Touch(id, a)).value;
            HoldsMailbox(s', id) ==> s.device.owner == None && s'.device.owner == Some(id)
  {
  }

  lemma TouchKeepsOwners(offs: Offsets, s: System, id: AgentId, a: Access)
    requires AgentsFit(s) && HoldersOwn(s) && Next(offs, s, Touch(id, a)).Some? && !Steals(offs, s, Touch(id, a))
    ensures HoldersOwn(Next(offs, s, Touch(id, a)).value)
  {
    var s' := Next(offs, s, Touch(id, a)).value;
    assert AgentFits(AgentOf(s, id));
    forall h: AgentId | HoldsMailbox(s', h)
      ensures s'.device.owner == Some(h)
    {
      if h == id {
        if HoldsMailbox(s, id) { HolderKeepsOwner(offs, s, id, a); } else { NewHolderOwns(offs, s, id, a); }
      } else {
        assert HoldsMailbox(s, h) && !HoldsMailbox(s, id);
        OutsiderKeepsOwner(offs, s, id, a);
      }
    }
  }

  lemma NextKeepsOwners(offs: Offsets, s: System, action: Action)
    requires AgentsFit(s) && HoldersOwn(s) && Next(offs, s, action).Some? && !Steals(offs, s, action)
    ensures HoldersOwn(Next(offs, s, action).value)
  {
    var s' := Next(offs, s, action).value;
    if action.Touch? {
      TouchKeepsOwners(offs, s, action.id, action.a);
    } else {
      forall h: AgentId | HoldsMailbox(s', h)
        ensures s'.device.owner == Some(h)
      {
        assert HoldsMailbox(s, h);
      }
    }
  }

  // A theft leaves a holder that does not own the mailbox.
  lemma StealingBreaksOwners(offs: Offsets, s: System, action: Action)
    requires AgentsFit(s) && Next(offs, s, action).Some? && Steals(offs, s, action)
    ensures !HoldersOwn(Next(offs, s, action).value)
  {
    var s' := Next(offs, s, action).value;
    assert AgentFits(AgentOf(s, action.id));
    var h: AgentId :| HoldsMailbox(s, h);
    assert s'.device.owner == None;
    assert HoldsMailbox(s', h);
  }

  ghost predicate AlwaysOwned(offs: Offsets, s: System, actions: seq<Action>) {
    && (actions != [] ==> AlwaysOwned(offs, s, actions[..|actions| - 1]))
    && (Execute(offs, s, actions).Some? ==> HoldersOwn(Execute(offs, s, actions).value))
  }

  lemma OwnedNow(offs: Offsets, s: System, actions: seq<Action>)
    requires AlwaysOwned(offs, s, actions) && Execute(offs, s, actions).Some?
    ensures HoldersOwn(Execute(offs, s, actions).value)
  {
  }

  // At every point of a run every holder owns the mailbox, exactly if no finish on its
  // own cleared EXECUTE while there was one.
  lemma {:induction false} HoldersOwnIff(offs: Offsets, s: System, actions: seq<Action>)
    requires AgentsFit(s) && HoldersOwn(s) && Execute(offs, s, actions).Some?
    ensures AlwaysOwned(offs, s, actions) <==> Undisturbed(offs, s, actions)
  {
    if actions != [] {
      var before, last := actions[..|actions| - 1], actions[|actions| - 1];
      HoldersOwnIff(offs, s, before);
      ExecuteKeepsFit(offs, s, before);
      var s1 := Execute(offs, s, before).value;
      if Steals(offs, s1, last) {
        StealingBreaksOwners(offs, s1, last);
      } else if Undisturbed(offs, s, before) {
        OwnedNow(offs, s, before);
        NextKeepsOwners(offs, s1, last);
      }
    }
  }

  lemma InitialFits(status: u32)
    ensures AgentsFit(Initial(status)) && HoldersOwn(Initial(status))
  {
  }

  lemma ReachableOwned(offs: Offsets, s: System)
    requires Reachable(offs, s)
    ensures AgentsFit(s) && HoldersOwn(s)
  {
    var status, actions :|
      Execute(offs, Initial(status), actions) == Some(s) && Undisturbed(offs, Initial(status), actions);
    InitialFits(status);
    HoldersOwnIff(offs, Initial(status), actions);
    OwnedNow(offs, Initial(status), actions);
    ExecuteKeepsFit(offs, Initial(status), actions);
  }

  // Then at most one agent is between a successful lock and its release,
  lemma MutualExclusion(offs: Offsets, s: System, a: AgentId, b: AgentId)
    requires Reachable(offs, s) && HoldsMailbox(s, a) && HoldsMailbox(s, b)
    ensures a == b
  {
    ReachableOwned(offs, s);
  }

  // and once taken, the lock is never seen lost by the agent that took it, however
  // often it looks.
  lemma LockIsNeverLost(offs: Offsets, s: System, id: AgentId, a: Access)
    requires Reachable(offs, s) && AgentOf(s, id).Active? && Next(offs, s, Touch(id, a)).Some?
    ensures var before, after := AgentOf(s, id).pc, AgentOf(Next(offs, s, Touch(id, a)).value, id).pc;
            && (before.CheckingLock? ==> after.WritingCmd?)
            && (before.Rechecking? ==> after == Sending(before.call, before.sent))
  {
    ReachableOwned(offs, s);
    assert HoldsMailbox(s, id) ==> s.device.owner == Some(id);
  }

  // ---------------------------------------------------------------------------
  // Whose request, whose answer
  // ---------------------------------------------------------------------------

  // What others have done to an agent's exchange since it took the mailbox: the words
  // they have put into it, how many of the agent's own were dropped when another took it
  // as well, the command and the length where the agent has not written its own since,
  // and whether they executed a command after the agent did.
  datatype Intrusion = Intrusion(words: nat, dropped: nat, cmd: Option<u32>, dlen: Option<u32>, executed: bool)

  function ByOwner(i: Intrusion, a: Access): Intrusion {
    match a
    case WriteCmd(_) => i.(cmd := None)
    case WriteDlen(_) => i.(dlen := None)
    case WriteExecute(_) => i.(executed := false)
    case _ => i
  }

  function ByOthers(i: Intrusion, a: Access): Intrusion {
    match a
    case WriteCmd(v) => i.(cmd := Some(v))
    case WriteDlen(v) => i.(dlen := Some(v))
    case WriteDatain(_) => i.(words := i.words + 1)
    case WriteExecute(v) => if v % 2 == 1 then i.(executed := true) else i
    case _ => i
  }

  // The words an exchange has written.
  function WordsSent(agent: Agent): nat {
    if agent.Active? && agent.pc.Rechecking? then agent.pc.sent
    else if agent.Active? && agent.pc.Sending? then agent.pc.sent
    else 0
  }

  function IntrudedNext(offs: Offsets, s: System, i: Intrusion, id: AgentId, action: Action): Intrusion {
    match action
    case Touch(other, a) =>
      var b := Decode(offs, a);
      if b.ReadLock? && s.device.owner == None then
        if other == id then i.(words := 0, dropped := 0, cmd := None, dlen := None)
        else i.(words := 0, dropped := WordsSent(AgentOf(s, id)))
      else if other == id then ByOwner(i, b)
      else ByOthers(i, b)
    case CaliptraActs(_, dlen, _) => if s.device.execute then i.(dlen := Some(dlen)) else i
    case _ => i
  }

  function Intruded(offs: Offsets, s: System, actions: seq<Action>, id: AgentId): Intrusion {
    if actions == [] then Intrusion(0, 0, None, None, false)
    else
      var before := actions[..|actions| - 1];
      match Execute(offs, s, before)
      case None => Intrusion(0, 0, None, None, false)
      case Some(s') => IntrudedNext(offs, s', Intruded(offs, s, before, id), id, actions[|actions| - 1])
  }

  function Instead<T>(other: Option<T>, own: T): T {
    if other.Some? then other.value else own
  }

  // The words are those of the first n of the call's that were not dropped, and those of
  // others, in some order.
  ghost predicate WordsIn(d: Device, i: Intrusion, call: Call, n: nat) {
    && i.dropped <= n <= |call.words| && |d.datain| == n - i.dropped + i.words
    && (i.words == 0 ==> d.datain == call.words[i.dropped..n])
  }

  ghost predicate HeadIn(d: Device, i: Intrusion, call: Call) {
    d.cmd == Instead(i.cmd, call.cmd) && d.dlen == Instead(i.dlen, LengthOf(call.words))
  }

  // The last command executed is the exchange's own, or another agent's.
  ghost predicate LastServed(served: seq<Served>, i: Intrusion, id: AgentId, call: Call) {
    && served != []
    && var last := served[|served| - 1];
       if i.executed then last.agent != id else last.agent == id && last.call == Some(call)
  }

  // What there is in the mailbox for an exchange that took it.
  ghost predicate Holds(d: Device, served: seq<Served>, i: Intrusion, id: AgentId, call: Call, pc: Pc) {
    match pc
    case CheckingLock(_) => WordsIn(d, i, call, 0)
    case WritingCmd(_) => WordsIn(d, i, call, 0)
    case WritingDlen(_) => WordsIn(d, i, call, 0) && d.cmd == Instead(i.cmd, call.cmd)
    case Rechecking(_, n) => WordsIn(d, i, call, n) && HeadIn(d, i, call)
    case Sending(_, n) => WordsIn(d, i, call, n) && HeadIn(d, i, call)
    case _ => Holding(pc) ==> LastServed(served, i, id, call)
  }

  ghost predicate HoldsFor(s: System, i: Intrusion, id: AgentId) {
    AgentOf(s, id).Active? ==> Holds(s.device, s.served, i, id, AgentOf(s, id).call, AgentOf(s, id).pc)
  }

  lemma SendingHolds(d: Device, served: seq<Served>, i: Intrusion, id: AgentId, call: Call, n: nat)
    requires Holds(d, served, i, id, call, Sending(call, n)) && n < |call.words|
    ensures Holds(d.(datain := d.datain + [call.words[n]]), served, i, id, call, BeforeWord(call, n + 1))
  {
    assert call.words[i.dropped..n + 1] == call.words[i.dropped..n] + [call.words[n]];
  }

  // The exchange's own step,
  lemma OwnHeadHolds(offs: Offsets, s: System, i: Intrusion, id: AgentId, a: Access)
    requires AgentFits(AgentOf(s, id)) && HoldsFor(s, i, id) && Next(offs, s, Touch(id, a)).Some?
    requires AgentOf(s, id).Active? && !Answering(AgentOf(s, id).pc) && !AgentOf(s, id).pc.Sending?
    ensures HoldsFor(Next(offs, s, Touch(id, a)).value, IntrudedNext(offs, s, i, id, Touch(id, a)), id)
  {
  }

  lemma OwnSendHolds(offs: Offsets, s: System, i: Intrusion, id: AgentId, a: Access)
    requires AgentFits(AgentOf(s, id)) && HoldsFor(s, i, id) && Next(offs, s, Touch(id, a)).Some?
    requires AgentOf(s, id).Active? && AgentOf(s, id).pc.Sending?
    ensures HoldsFor(Next(offs, s, Touch(id, a)).value, IntrudedNext(offs, s, i, id, Touch(id, a)), id)
  {
    var call, n := AgentOf(s, id).call, AgentOf(s, id).pc.sent;
    if n < |call.words| {
      SendingHolds(s.device, s.served, i, id, call, n);
    }
  }

  lemma OwnAnswerHolds(offs: Offsets, s: System, i: Intrusion, id: AgentId, a: Access)
    requires HoldsFor(s, i, id) && Next(offs, s, Touch(id, a)).Some?
    requires AgentOf(s, id).Active? ==> Answering(AgentOf(s, id).pc)
    ensures HoldsFor(Next(offs, s, Touch(id, a)).value, IntrudedNext(offs, s, i, id, Touch(id, a)), id)
  {
  }

  // and a step of another agent, with which it can set EXECUTE, for a request or not, or
  // can take the mailbox after it was freed.
  lemma OthersServe(offs: Offsets, s: System, other: AgentId, a: Access)
    requires AgentFits(AgentOf(s, other)) && Next(offs, s, Touch(other, a)).Some?
    ensures var b, added := Decode(offs, a), ServedBy(s, other, a);
            if b.WriteExecute? && b.v % 2 == 1 then |added| == 1 && added[0].agent == other else added == []
  {
  }

  lemma LeftByOthers(d: Device, served: seq<Served>, i: Intrusion, other: AgentId, b: Access, added: seq<Served>,
                     id: AgentId, call: Call, pc: Pc)
    requires Holds(d, served, i, id, call, pc) && other != id
    requires b.ReadLock? ==> d.owner.Some?
    requires if b.WriteExecute? && b.v % 2 == 1 then |added| == 1 && added[0].agent == other else added == []
    ensures Holds(DeviceAfter(d, other, b), served + added, ByOthers(i, b), id, call, pc)
  {
  }

  lemma TakenByOthers(s: System, i: Intrusion, other: AgentId, b: Access, id: AgentId)
    requires AgentFits(AgentOf(s, id)) && HoldsFor(s, i, id) && b.ReadLock? && s.device.owner == None
    ensures var s' := s.(device := DeviceAfter(s.device, other, b));
            HoldsFor(s', i.(words := 0, dropped := WordsSent(AgentOf(s, id))), id)
  {
  }

  lemma OtherHolds(offs: Offsets, s: System, i: Intrusion, other: AgentId, a: Access, id: AgentId)
    requires AgentFits(AgentOf(s, other)) && AgentFits(AgentOf(s, id)) && other != id && HoldsFor(s, i, id)
    requires Next(offs, s, Touch(other, a)).Some?
    ensures HoldsFor(Next(offs, s, Touch(other, a)).value, IntrudedNext(offs, s, i, id, Touch(other, a)), id)
  {
    var b := Decode(offs, a);
    OthersServe(offs, s, other, a);
    if b.ReadLock? && s.device.owner == None {
      TakenByOthers(s, i, other, b, id);
    } else if AgentOf(s, id).Active? {
      LeftByOthers(s.device, s.served, i, other, b, ServedBy(s, other, a), id, AgentOf(s, id).call, AgentOf(s, id).pc);
    }
  }

  lemma NextHolds(offs: Offsets, s: System, i: Intrusion, action: Action, id: AgentId)
    requires AgentsFit(s) && HoldsFor(s, i, id) && Next(offs, s, action).Some?
    ensures HoldsFor(Next(offs, s, action).value, IntrudedNext(offs, s, i, id, action), id)
  {
    assert AgentFits(AgentOf(s, id));
    if action.Touch? {
      assert AgentFits(AgentOf(s, action.id));
      if action.id != id {
        OtherHolds(offs, s, i, action.id, action.a, id);
      } else if AgentOf(s, id).Active? && AgentOf(s, id).pc.Sending? {
        OwnSendHolds(offs, s, i, id, action.a);
      } else if AgentOf(s, id).Active? && !Answering(AgentOf(s, id).pc) {
        OwnHeadHolds(offs, s, i, id, action.a);
      } else {
        OwnAnswerHolds(offs, s, i, id, action.a);
      }
    }
  }

  lemma {:induction false} RunHolds(offs: Offsets, status: u32, actions: seq<Action>, id: AgentId)
    requires Execute(offs, Initial(status), actions).Some?
    ensures AgentsFit(Execute(offs, Initial(status), actions).value)
    ensures HoldsFor(Execute(offs, Initial(status), actions).value, Intruded(offs, Initial(status), actions, id), id)
  {
    InitialFits(status);
    ExecuteKeepsFit(offs, Initial(status), actions);
    if actions != [] {
      var before := actions[..|actions| - 1];
      RunHolds(offs, status, before, id);
      NextHolds(offs, Execute(offs, Initial(status), before).value, Intruded(offs, Initial(status), before, id),
                actions[|actions| - 1], id);
    }
  }

  // Nothing is dropped of an exchange whose mailbox nobody frees under it.
  lemma {:induction false} NothingIsDropped(offs: Offsets, status: u32, actions: seq<Action>, id: AgentId)
    requires Execute(offs, Initial(status), actions).Some? && Undisturbed(offs, Initial(status), actions)
    requires HoldsMailbox(Execute(offs, Initial(status), actions).value, id)
    ensures Intruded(offs, Initial(status), actions, id).dropped == 0
  {
    if actions != [] {
      var before, last := actions[..|actions| - 1], actions[|actions| - 1];
      var s := Execute(offs, Initial(status), before).value;
      ReachableOwned(offs, s);
      assert AgentFits(AgentOf(s, id));
      if HoldsMailbox(s, id) {
        NothingIsDropped(offs, status, before, id);
      } else if last.Touch? {
        NewHolderOwns(offs, s, id, last.a);
      }
    }
  }

  // When an exchange executes its command, Caliptra finds its words exactly if none was
  // dropped and nobody else wrote one since it took the mailbox (unless others wrote just
  // as many as were dropped, when it depends on their values), its command exactly if
  // nobody else wrote another one since the exchange wrote its own, and likewise for the
  // length.
  lemma RequestIsWholeIff(offs: Offsets, status: u32, actions: seq<Action>, id: AgentId)
    requires Execute(offs, Initial(status), actions).Some?
    requires var s := Execute(offs, Initial(status), actions).value;
             AgentOf(s, id).Active? && Next(offs, s, Touch(id, WriteExecute(1))).Some?
    ensures var s, i := Execute(offs, Initial(status), actions).value, Intruded(offs, Initial(status), actions, id);
            var call := AgentOf(s, id).call;
            var r := Served(id, Some(call), s.device.cmd, s.device.dlen, s.device.datain);
            && Next(offs, s, Touch(id, WriteExecute(1))).value.served == s.served + [r]
            && (0 < i.words == i.dropped || (r.data == call.words <==> i.words == 0 && i.dropped == 0))
            && (Undisturbed(offs, Initial(status), actions) ==> i.dropped == 0)
            && (r.cmd == call.cmd <==> i.cmd in {None, Some(call.cmd)})
            && (r.dlen == LengthOf(call.words) <==> i.dlen in {None, Some(LengthOf(call.words))})
  {
    var s, i := Execute(offs, Initial(status), actions).value, Intruded(offs, Initial(status), actions, id);
    RunHolds(offs, status, actions, id);
    var call, pc := AgentOf(s, id).call, AgentOf(s, id).pc;
    assert AgentFits(AgentOf(s, id));
    assert pc == Sending(call, |call.words|) && call.words[0..|call.words|] == call.words;
    if Undisturbed(offs, Initial(status), actions) {
      NothingIsDropped(offs, status, actions, id);
    }
  }

  // Whoever polls or drains the mailbox does so on the answer to its own request
  // exactly if nobody else executed a command since.
  lemma AnswersAreNotMixedIff(offs: Offsets, status: u32, actions: seq<Action>, id: AgentId)
    requires Execute(offs, Initial(status), actions).Some?
    requires AwaitsAnswer(Execute(offs, Initial(status), actions).value, id)
    ensures var s := Execute(offs, Initial(status), actions).value;
            s.served != [] &&
            var r := s.served[|s.served| - 1];
            (r.agent == id && r.call == Some(AgentOf(s, id).call)
             <==> !Intruded(offs, Initial(status), actions, id).executed)
  {
    RunHolds(offs, status, actions, id);
  }

  // ---------------------------------------------------------------------------
  // Orderly runs
  // ---------------------------------------------------------------------------

  // Every access is made within an exchange.
  predicate Orderly(actions: seq<Action>) {
    forall i :: 0 <= i < |actions| ==> !actions[i].BeginStray? && !actions[i].BeginFinish?
  }

  // The lock is taken and the command not executed.
  predicate Requesting(pc: Pc) { Holding(pc) && !Answering(pc) }

  function WholeRequest(id: AgentId, call: Call): Served {
    Served(id, Some(call), call.cmd, LengthOf(call.words), call.words)
  }

  ghost predicate AllWhole(served: seq<Served>) {
    forall k :: 0 <= k < |served| ==>
      served[k].call.Some? && served[k] == WholeRequest(served[k].agent, served[k].call.value)
  }

  // Nobody is outside an exchange, and nobody intrudes on the agent's.
  ghost predicate CleanFor(s: System, i: Intrusion, id: AgentId) {
    && !AgentOf(s, id).Stray? && !AgentOf(s, id).Finishing?
    && (AgentOf(s, id).Active? && Requesting(AgentOf(s, id).pc) ==>
          !s.device.execute && i.words == 0 && i.dropped == 0 && i.cmd == None && i.dlen == None)
    && (AwaitsAnswer(s, id) ==> !i.executed)
  }

  lemma ServesWhole(offs: Offsets, s: System, i: Intrusion, id: AgentId, a: Access)
    requires AgentFits(AgentOf(s, id)) && HoldsFor(s, i, id) && CleanFor(s, i, id) && Next(offs, s, Touch(id, a)).Some?
    requires AllWhole(s.served)
    ensures AllWhole(Next(offs, s, Touch(id, a)).value.served)
  {
    if a == WriteExecute(1) {
      var call := AgentOf(s, id).call;
      assert call.words[0..|call.words|] == call.words;
    }
  }

  lemma OwnTouchStaysClean(offs: Offsets, s: System, i: Intrusion, id: AgentId, a: Access)
    requires AgentFits(AgentOf(s, id)) && CleanFor(s, i, id) && Next(offs, s, Touch(id, a)).Some?
    requires s.device.owner == None ==> !s.device.execute
    requires HoldsMailbox(s, id) ==> s.device.owner == Some(id)
    ensures var s' := Next(offs, s, Touch(id, a)).value;
            && CleanFor(s', IntrudedNext(offs, s, i, id, Touch(id, a)), id)
            && (s'.device.owner == None ==> !s'.device.execute)
  {
  }

  lemma OtherTouchStaysClean(offs: Offsets, s: System, i: Intrusion, other: AgentId, a: Access, id: AgentId)
    requires AgentFits(AgentOf(s, other)) && !AgentOf(s, other).Stray? && !AgentOf(s, other).Finishing?
    requires CleanFor(s, i, id) && Next(offs, s, Touch(other, a)).Some?
    requires other != id && (HoldsMailbox(s, id) ==> s.device.owner == Some(id) && !HoldsMailbox(s, other))
    ensures CleanFor(Next(offs, s, Touch(other, a)).value, IntrudedNext(offs, s, i, id, Touch(other, a)), id)
  {
  }

  lemma NextStaysClean(offs: Offsets, s: System, i: Intrusion, action: Action, id: AgentId)
    requires AgentsFit(s) && HoldersOwn(s) && CleanFor(s, i, id) && (s.device.owner == None ==> !s.device.execute)
    requires Next(offs, s, action).Some? && !action.BeginStray? && !action.BeginFinish?
    requires action.Touch? ==> !AgentOf(s, action.id).Stray? && !AgentOf(s, action.id).Finishing?
    ensures CleanFor(Next(offs, s, action).value, IntrudedNext(offs, s, i, id, action), id)
  {
    if action.Touch? {
      assert AgentFits(AgentOf(s, id)) && AgentFits(AgentOf(s, action.id));
      if action.id == id {
        OwnTouchStaysClean(offs, s, i, id, action.a);
      } else {
        assert HoldsMailbox(s, id) ==> !HoldsMailbox(s, action.id);
        OtherTouchStaysClean(offs, s, i, action.id, action.a, id);
      }
    }
  }

  ghost predicate CleanRun(offs: Offsets, s0: System, actions: seq<Action>, s: System) {
    && (s.device.owner == None ==> !s.device.execute) && AllWhole(s.served)
    && (forall id: AgentId :: CleanFor(s, Intruded(offs, s0, actions, id), id))
  }

  lemma NextKeepsWhole(offs: Offsets, s: System, i: Intrusion, action: Action)
    requires AgentsFit(s) && HoldersOwn(s) && (s.device.owner == None ==> !s.device.execute) && AllWhole(s.served)
    requires Next(offs, s, action).Some?
    requires action.Touch? ==> CleanFor(s, i, action.id) && HoldsFor(s, i, action.id)
    ensures var s' := Next(offs, s, action).value;
            (s'.device.owner == None ==> !s'.device.execute) && AllWhole(s'.served)
  {
    if action.Touch? {
      assert AgentFits(AgentOf(s, action.id));
      ServesWhole(offs, s, i, action.id, action.a);
      OwnTouchStaysClean(offs, s, i, action.id, action.a);
    }
  }

  lemma {:induction false} OrderlyIsClean(offs: Offsets, status: u32, actions: seq<Action>)
    requires Execute(offs, Initial(status), actions).Some? && Orderly(actions)
    ensures Undisturbed(offs, Initial(status), actions)
    ensures CleanRun(offs, Initial(status), actions, Execute(offs, Initial(status), actions).value)
  {
    if actions != [] {
      var before, last := actions[..|actions| - 1], actions[|actions| - 1];
      OrderlyIsClean(offs, status, before);
      var s0 := Initial(status);
      var s := Execute(offs, s0, before).value;
      ReachableOwned(offs, s);
      if last.Touch? {
        RunHolds(offs, status, before, last.id);
        assert CleanFor(s, Intruded(offs, s0, before, last.id), last.id);
        NextKeepsWhole(offs, s, Intruded(offs, s0, before, last.id), last);
      }
      forall id: AgentId ensures CleanFor(Next(offs, s, last).value, Intruded(offs, s0, actions, id), id) {
        assert CleanFor(s, Intruded(offs, s0, before, id), id);
        NextStaysClean(offs, s, Intruded(offs, s0, before, id), last, id);
      }
    }
  }

  // Without loose calls and finishes on their own, every command Caliptra was ever given
  // is one agent's command with that request's length and words, whole and in order,
  lemma RequestsAreNeverMixed(offs: Offsets, status: u32, actions: seq<Action>, k: nat)
    requires Execute(offs, Initial(status), actions).Some? && Orderly(actions)
    requires k < |Execute(offs, Initial(status), actions).value.served|
    ensures var r := Execute(offs, Initial(status), actions).value.served[k];
            && r.call.Some? && r.cmd == r.call.value.cmd
            && r.dlen == LengthOf(r.call.value.words) && r.data == r.call.value.words
  {
    OrderlyIsClean(offs, status, actions);
  }

  // and every answer that is read is one to the reader's own request.
  lemma AnswersAreNotMixed(offs: Offsets, status: u32, actions: seq<Action>, id: AgentId)
    requires Execute(offs, Initial(status), actions).Some? && Orderly(actions)
    requires AwaitsAnswer(Execute(offs, Initial(status), actions).value, id)
    ensures var s := Execute(offs, Initial(status), actions).value;
            s.served != [] && s.served[|s.served| - 1] == WholeRequest(id, AgentOf(s, id).call)
  {
    OrderlyIsClean(offs, status, actions);
    AnswersAreNotMixedIff(offs, status, actions, id);
    assert CleanFor(Execute(offs, Initial(status), actions).value, Intruded(offs, Initial(status), actions, id), id);
  }

  // ---------------------------------------------------------------------------
  // Abandoned locks
  // ---------------------------------------------------------------------------

  // The mailbox is owned by an agent that is not in an exchange any more.
  ghost predicate Abandoned(s: System, owner: AgentId) {
    s.device.owner == Some(owner) && !HoldsMailbox(s, owner)
  }

  // The agent whose access ends an exchange still owns the mailbox exactly when
  // the exchange was cut short after EXECUTE (too small a response buffer, a timeout,
  // or a status without a verdict), or was left to a response object that has EXECUTE
  // elsewhere.
  lemma EndingAbandonsIff(offs: Offsets, s: System, id: AgentId, a: Access)
    requires Reachable(offs, s) && Next(offs, s, Touch(id, a)).Some?
    requires HoldsMailbox(s, id) && AgentOf(Next(offs, s, Touch(id, a)).value, id).pc.Ended?
    ensures var s' := Next(offs, s, Touch(id, a)).value;
            var how := AgentOf(s', id).pc.how;
            && (s'.device.owner == Some(id) <==>
                 || how.RespTooSmall? || how.TimedOut? || how.UnknownStatus?
                 || (how.Drained? && offs.execute != EXECUTE_OFFSET))
            && (s'.device.owner == None <==> how.NoData? || (how.Drained? && offs.execute == EXECUTE_OFFSET))
  {
    ReachableOwned(offs, s);
    assert AgentFits(AgentOf(s, id));
  }

  // As the classes are, every successful exchange abandons the mailbox.
  lemma SuccessAbandonsAsShipped(s: System, id: AgentId, a: Access)
    requires Reachable(SHIPPED, s) && Next(SHIPPED, s, Touch(id, a)).Some? && HoldsMailbox(s, id)
    ensures var s' := Next(SHIPPED, s, Touch(id, a)).value;
            AgentOf(s', id).pc.Ended? && AgentOf(s', id).pc.how.Drained? ==> Abandoned(s', id)
  {
    if AgentOf(Next(SHIPPED, s, Touch(id, a)).value, id).pc.Ended? {
      EndingAbandonsIff(SHIPPED, s, id, a);
    }
  }

  // Nothing but entries of loose calls is new.
  ghost predicate OnlyLooseSince(served: seq<Served>, served': seq<Served>) {
    served <= served' && forall k :: |served| <= k < |served'| ==> served'[k].call == None
  }

  lemma NobodyHolds(s: System, owner: AgentId)
    requires HoldersOwn(s) && Abandoned(s, owner)
    ensures forall id: AgentId :: !HoldsMailbox(s, id)
  {
  }

  // A step of an agent that holds nothing in a mailbox that is not free.
  lemma OutsiderTouch(offs: Offsets, s: System, id: AgentId, a: Access)
    requires AgentFits(AgentOf(s, id)) && !HoldsMailbox(s, id) && s.device.owner.Some?
    requires Next(offs, s, Touch(id, a)).Some? && !LoneRelease(offs, s, Touch(id, a))
    ensures var s' := Next(offs, s, Touch(id, a)).value;
            s'.device.owner == s.device.owner && !HoldsMailbox(s', id) && OnlyLooseSince(s.served, s'.served)
  {
    OutsiderKeepsOwner(offs, s, id, a);
    NewHolderOwns(offs, s, id, a);
  }

  lemma AbandonedStep(offs: Offsets, s: System, owner: AgentId, action: Action)
    requires AgentsFit(s) && HoldersOwn(s) && Abandoned(s, owner)
    requires Next(offs, s, action).Some? && !LoneRelease(offs, s, action)
    ensures var s' := Next(offs, s, action).value; Abandoned(s', owner) && OnlyLooseSince(s.served, s'.served)
  {
    NobodyHolds(s, owner);
    if action.Touch? {
      assert AgentFits(AgentOf(s, action.id));
      OutsiderTouch(offs, s, action.id, action.a);
    }
  }

  ghost predicate StaysAbandoned(offs: Offsets, s: System, owner: AgentId, actions: seq<Action>) {
    && (actions != [] ==> StaysAbandoned(offs, s, owner, actions[..|actions| - 1]))
    && (Execute(offs, s, actions).Some? ==> Abandoned(Execute(offs, s, actions).value, owner))
  }

  // No finish on its own clears EXECUTE, but perhaps the agent's.
  ghost predicate NoReleaseBut(offs: Offsets, s: System, id: Option<AgentId>, actions: seq<Action>) {
    actions == [] ||
    var before, last := actions[..|actions| - 1], actions[|actions| - 1];
    && NoReleaseBut(offs, s, id, before)
    && (Execute(offs, s, before).Some? && LoneRelease(offs, Execute(offs, s, before).value, last)
        ==> id == Some(last.id))
  }

  ghost predicate NoRelease(offs: Offsets, s: System, actions: seq<Action>) {
    NoReleaseBut(offs, s, None, actions)
  }

  lemma {:induction false} AbandonedRun(offs: Offsets, s: System, owner: AgentId, actions: seq<Action>)
    requires AgentsFit(s) && HoldersOwn(s) && Abandoned(s, owner)
    requires Execute(offs, s, actions).Some? && NoRelease(offs, s, actions)
    ensures var s' := Execute(offs, s, actions).value;
            AgentsFit(s') && HoldersOwn(s') && Abandoned(s', owner) && OnlyLooseSince(s.served, s'.served)
  {
    if actions != [] {
      var before := actions[..|actions| - 1];
      AbandonedRun(offs, s, owner, before);
      var s1, last := Execute(offs, s, before).value, actions[|actions| - 1];
      AbandonedStep(offs, s1, owner, last);
      NextKeepsFit(offs, s1, last);
      NextKeepsOwners(offs, s1, last);
    }
  }

  // An abandoned mailbox stays abandoned exactly as long as no finish on its own clears
  // EXECUTE.
  lemma {:induction false} RecoveredIff(offs: Offsets, s: System, owner: AgentId, actions: seq<Action>)
    requires Reachable(offs, s) && Abandoned(s, owner) && Execute(offs, s, actions).Some?
    ensures StaysAbandoned(offs, s, owner, actions) <==> NoRelease(offs, s, actions)
  {
    ReachableOwned(offs, s);
    if actions != [] {
      var before, last := actions[..|actions| - 1], actions[|actions| - 1];
      RecoveredIff(offs, s, owner, before);
      if NoRelease(offs, s, before) {
        AbandonedRun(offs, s, owner, before);
        var s1 := Execute(offs, s, before).value;
        if LoneRelease(offs, s1, last) {
          assert Next(offs, s1, last).value.device.owner == None;
        } else {
          AbandonedStep(offs, s1, owner, last);
        }
      }
    }
  }

  // Nothing else recovers it: nobody ever holds it again, and no request is executed any
  // more but by loose calls.
  lemma AbandonedForever(offs: Offsets, s: System, owner: AgentId, actions: seq<Action>)
    requires Reachable(offs, s) && Abandoned(s, owner)
    requires Execute(offs, s, actions).Some? && NoRelease(offs, s, actions)
    ensures var s' := Execute(offs, s, actions).value;
            && s'.device.owner == Some(owner) && OnlyLooseSince(s.served, s'.served)
            && forall id: AgentId :: !HoldsMailbox(s', id)
  {
    ReachableOwned(offs, s);
    AbandonedRun(offs, s, owner, actions);
    NobodyHolds(Execute(offs, s, actions).value, owner);
  }

  // ---------------------------------------------------------------------------
  // A finish on its own
  // ---------------------------------------------------------------------------

  // The endings of a finish that cleared the mailbox's EXECUTE, and the positions
  // before them where it has.
  predicate HasReleased(offs: Offsets, pc: Pc) {
    || pc.ReadingFatal? || pc.ReadingNonFatal?
    || (pc.Ended? && (pc.how.CommandFailed? || pc.how.NoData? || (pc.how.Drained? && offs.execute == EXECUTE_OFFSET)))
  }

  lemma LoneReleaseIff(offs: Offsets, s: System, id: AgentId, a: Access)
    requires AgentFits(AgentOf(s, id)) && AgentOf(s, id).Finishing? && Next(offs, s, Touch(id, a)).Some?
    ensures var pc, after := AgentOf(s, id).pc, AgentOf(Next(offs, s, Touch(id, a)).value, id);
            && after.Finishing?
            && (HasReleased(offs, after.pc) <==> HasReleased(offs, pc) || LoneRelease(offs, s, Touch(id, a)))
  {
  }

  lemma {:induction false} FinishReleasesIff(offs: Offsets, s: System, id: AgentId, actions: seq<Action>)
    requires AgentsFit(s) && AgentOf(s, id) == Finishing(Polling(MAX_WAIT_CYCLES)) && Execute(offs, s, actions).Some?
    requires NoReleaseBut(offs, s, Some(id), actions) && Leave(id) !in actions
    ensures var agent := AgentOf(Execute(offs, s, actions).value, id);
            agent.Finishing? && (HasReleased(offs, agent.pc) <==> !NoRelease(offs, s, actions))
  {
    if actions != [] {
      var before, last := actions[..|actions| - 1], actions[|actions| - 1];
      FinishReleasesIff(offs, s, id, before);
      ExecuteKeepsFit(offs, s, before);
      var s1 := Execute(offs, s, before).value;
      assert last in actions && AgentFits(AgentOf(s1, id));
      if last.Touch? && last.id == id {
        LoneReleaseIff(offs, s1, id, last.a);
      }
    }
  }

  // A finish on its own recovers an abandoned mailbox exactly if it ends with the command
  // failed, with no data, or with a response object that has EXECUTE at 0x18.
  lemma FinishRecoversIff(offs: Offsets, s: System, owner: AgentId, id: AgentId, actions: seq<Action>)
    requires Reachable(offs, s) && Abandoned(s, owner) && AgentOf(s, id) == Finishing(Polling(MAX_WAIT_CYCLES))
    requires Execute(offs, s, actions).Some? && NoReleaseBut(offs, s, Some(id), actions) && Leave(id) !in actions
    requires var agent := AgentOf(Execute(offs, s, actions).value, id); agent.Finishing? ==> agent.pc.Ended?
    ensures var agent := AgentOf(Execute(offs, s, actions).value, id);
            agent.Finishing? &&
            (!StaysAbandoned(offs, s, owner, actions) <==>
              || agent.pc.how.CommandFailed? || agent.pc.how.NoData?
              || (agent.pc.how.Drained? && offs.execute == EXECUTE_OFFSET))
  {
    ReachableOwned(offs, s);
    FinishReleasesIff(offs, s, id, actions);
    RecoveredIff(offs, s, owner, actions);
  }

  // ---------------------------------------------------------------------------
  // Runs that show what can happen
  // ---------------------------------------------------------------------------

  lemma OneMoreAction(offs: Offsets, s: System, actions: seq<Action>, action: Action)
    requires Execute(offs, s, actions).Some?
    ensures Execute(offs, s, actions + [action]) == Next(offs, Execute(offs, s, actions).value, action)
    ensures Undisturbed(offs, s, actions) && !Steals(offs, Execute(offs, s, actions).value, action)
            ==> Undisturbed(offs, s, actions + [action])
  {
    assert (actions + [action])[..|actions|] == actions;
  }

  lemma ReachableInitial(offs: Offsets, status: u32)
    ensures Reachable(offs, Initial(status))
  {
    assert Execute(offs, Initial(status), []) == Some(Initial(status)) && Undisturbed(offs, Initial(status), []);
  }

  lemma ReachableNext(offs: Offsets, s: System, action: Action)
    requires Reachable(offs, s) && Next(offs, s, action).Some? && !LoneRelease(offs, s, action)
    ensures Reachable(offs, Next(offs, s, action).value)
  {
    var status, actions :|
      Execute(offs, Initial(status), actions) == Some(s) && Undisturbed(offs, Initial(status), actions);
    OneMoreAction(offs, Initial(status), actions, action);
  }

  lemma Do(offs: Offsets, s: System, action: Action) returns (s': System)
    requires Reachable(offs, s) && Next(offs, s, action).Some? && !LoneRelease(offs, s, action)
    ensures Reachable(offs, s') && s' == Next(offs, s, action).value
  {
    ReachableNext(offs, s, action);
    s' := Next(offs, s, action).value;
  }

  // The agent's next access in an exchange, taken.
  lemma TouchNext(offs: Offsets, s: System, id: AgentId, a: Access) returns (s': System)
    requires Reachable(offs, s) && AgentOf(s, id).Active? && Step(AgentOf(s, id).pc, a).Some?
    requires Answers(s.device, Decode(offs, a))
    ensures Reachable(offs, s')
    ensures s'.agents == s.agents[id := Active(AgentOf(s, id).call, Step(AgentOf(s, id).pc, a).value)]
    ensures s'.device == DeviceAfter(s.device, id, Decode(offs, a)) && s'.served == s.served + ServedBy(s, id, a)
  {
    s' := Do(offs, s, Touch(id, a));
  }

  lemma MailboxTaken(offs: Offsets, id: AgentId, call: Call) returns (s: System)
    requires call.words != [] && 4 * |call.words| <= MAILBOX_SIZE
    ensures Reachable(offs, s)
    ensures s == System(Device(Some(id), 0, 0, [], false, 0, []), map[id := Active(call, WritingCmd(call))], [])
  {
    ReachableInitial(offs, 0);
    s := Do(offs, Initial(0), Begin(id, call));
    s := TouchNext(offs, s, id, ReadLock(0));
    s := TouchNext(offs, s, id, ReadLock(1));
  }

  lemma RequestSetUp(offs: Offsets, id: AgentId, call: Call) returns (s: System)
    requires |call.words| == 1
    ensures Reachable(offs, s)
    ensures s == System(Device(Some(id), call.cmd, 4, [], false, 0, []),
                        map[id := Active(call, BeforeWord(call, 0))], [])
  {
    s := MailboxTaken(offs, id, call);
    s := TouchNext(offs, s, id, WriteCmd(call.cmd));
    s := TouchNext(offs, s, id, WriteDlen(4));
  }

  // Abandoned mailboxes do happen: one call without room for a response is enough.
  lemma AbandonmentHappens(offs: Offsets, id: AgentId, cmd: u32, word: u32) returns (s: System)
    ensures Reachable(offs, s) && Abandoned(s, id) && s.device.execute
    ensures s.agents == map[id := Active(Call(cmd, [word], 0, false), Ended(RespTooSmall))]
  {
    s := RequestSetUp(offs, id, Call(cmd, [word], 0, false));
    s := TouchNext(offs, s, id, WriteDatain(word));
    s := TouchNext(offs, s, id, WriteExecute(1));
  }

  // Likewise the next access of a finish on its own.
  lemma FinishNext(offs: Offsets, s: System, id: AgentId, a: Access) returns (s': System)
    requires Reachable(offs, s) && AgentOf(s, id).Finishing? && Step(AgentOf(s, id).pc, a).Some?
    requires Answers(s.device, Decode(offs, a)) && !Decode(offs, a).WriteExecute? && a != WriteExecute(1)
    ensures Reachable(offs, s') && s'.agents == s.agents[id := Finishing(Step(AgentOf(s, id).pc, a).value)]
    ensures s'.device == DeviceAfter(s.device, id, Decode(offs, a)) && s'.served == s.served
  {
    s' := Do(offs, s, Touch(id, a));
  }

  // The status and the agents a finish on its own needs to give the mailbox back.
  predicate AboutToRelease(s: System, id: AgentId) {
    s.device.status == 4 && AgentOf(s, id) == Finishing(ClosingEmpty)
  }

  lemma IdleFound(offs: Offsets, s: System, id: AgentId) returns (s': System)
    requires Reachable(offs, s) && AgentOf(s, id).Idle? && s.device.status == 4
    ensures Reachable(offs, s') && s'.agents == s.agents[id := Finishing(Deciding)] && s'.device == s.device
  {
    s' := Do(offs, s, BeginFinish(id));
    s' := FinishNext(offs, s', id, ReadStatus(4));
  }

  lemma CompleteFound(offs: Offsets, s: System, id: AgentId) returns (s': System)
    requires Reachable(offs, s) && AgentOf(s, id) == Finishing(Deciding) && s.device.status == 4
    ensures Reachable(offs, s') && AboutToRelease(s', id)
    ensures s'.agents == s.agents[id := Finishing(ClosingEmpty)] && s'.device == s.device
  {
    s' := FinishNext(offs, s, id, ReadStatus(4));
  }

  // An agent finishes on its own after Caliptra has completed what there is.
  lemma FinishBegun(offs: Offsets, s: System, id: AgentId) returns (s': System)
    requires Reachable(offs, s) && AgentOf(s, id).Idle?
    ensures Reachable(offs, s') && AboutToRelease(s', id)
    ensures s'.agents == s.agents[id := Finishing(ClosingEmpty)] && s'.device.owner == s.device.owner
  {
    s' := Do(offs, s, CaliptraActs(4, 0, []));
    s' := IdleFound(offs, s', id);
    s' := CompleteFound(offs, s', id);
  }

  lemma Release(offs: Offsets, s: System, id: AgentId) returns (s': System)
    requires AboutToRelease(s, id)
    ensures Next(offs, s, Touch(id, WriteExecute(0))) == Some(s') && LoneRelease(offs, s, Touch(id, WriteExecute(0)))
    ensures s'.device.owner == None && s'.agents == s.agents[id := Finishing(Ended(NoData))]
  {
    s' := Next(offs, s, Touch(id, WriteExecute(0))).value;
  }

  // It recovers an abandoned mailbox.
  lemma AbandonmentIsRecovered(offs: Offsets, id: AgentId, helper: AgentId, cmd: u32, word: u32)
    returns (s: System, s': System)
    requires id != helper
    ensures Reachable(offs, s) && Abandoned(s, id) && Next(offs, s, Touch(helper, WriteExecute(0))) == Some(s')
    ensures s'.device.owner == None && AgentOf(s', helper) == Finishing(Ended(NoData))
  {
    s := AbandonmentHappens(offs, id, cmd, word);
    s := FinishBegun(offs, s, helper);
    s' := Release(offs, s, helper);
  }

  // During another agent's exchange it frees the mailbox under it, so that a third agent
  // can take it as well.
  lemma LoneFinishSteals(offs: Offsets, id: AgentId, thief: AgentId, next: AgentId, call: Call)
    returns (s: System, s': System, s'': System)
    requires id != thief && thief != next && next != id && |call.words| == 1
    ensures Reachable(offs, s) && Steals(offs, s, Touch(thief, WriteExecute(0)))
    ensures Next(offs, s, Touch(thief, WriteExecute(0))) == Some(s')
    ensures Next(offs, s', Touch(next, ReadLock(0))) == Some(s'')
    ensures HoldsMailbox(s'', id) && HoldsMailbox(s'', next)
  {
    s := RequestSetUp(offs, id, call);
    s := Do(offs, s, Begin(next, call));
    s := FinishBegun(offs, s, thief);
    assert HoldsMailbox(s, id);
    s' := Release(offs, s, thief);
    s'' := Next(offs, s', Touch(next, ReadLock(0))).value;
  }

  // ---------------------------------------------------------------------------
  // Loose calls
  // ---------------------------------------------------------------------------

  // Another agent has looked at LOCK and is about to write its word.
  lemma StrayWordPending(offs: Offsets, id: AgentId, stray: AgentId, call: Call, word: u32) returns (s: System)
    requires id != stray && call.stepwise && |call.words| == 1
    ensures Reachable(offs, s)
    ensures s == System(Device(Some(id), call.cmd, 4, [], false, 0, []),
                        map[id := Active(call, Rechecking(call, 0)), stray := Stray([WriteDatain(word)], true)], [])
  {
    s := RequestSetUp(offs, id, call);
    s := Do(offs, s, BeginStray(stray, WriteData(word)));
    s := Do(offs, s, Touch(stray, ReadLock(1)));
  }

  lemma StrayWordWritten(offs: Offsets, id: AgentId, stray: AgentId, call: Call, word: u32) returns (s: System)
    requires id != stray && call.stepwise && |call.words| == 1
    ensures Reachable(offs, s) && AgentOf(s, id) == Active(call, Sending(call, 0))
    ensures s.device == Device(Some(id), call.cmd, 4, [word], false, 0, []) && s.served == []
  {
    s := StrayWordPending(offs, id, stray, call, word);
    s := Do(offs, s, Touch(stray, WriteDatain(word)));
    s := TouchNext(offs, s, id, ReadLock(1));
  }

  // LOCK says that the mailbox is taken, not by whom: a word another agent writes
  // without having locked is mixed into the request.
  lemma StrayWordIsMixedIn(offs: Offsets, id: AgentId, stray: AgentId, call: Call, word: u32) returns (s: System)
    requires id != stray && call.stepwise && |call.words| == 1
    ensures Reachable(offs, s) && s.served == [Served(id, Some(call), call.cmd, 4, [word] + call.words)]
  {
    s := StrayWordWritten(offs, id, stray, call, word);
    s := TouchNext(offs, s, id, WriteDatain(call.words[0]));
    assert s.device.datain == [word] + call.words;
    s := TouchNext(offs, s, id, ReadLock(1));
    s := TouchNext(offs, s, id, WriteExecute(1));
  }

  // And where the mailbox is free, the look at LOCK takes it: the call fails, and the
  // mailbox is abandoned.
  lemma StrayCallTakesLock(offs: Offsets, stray: AgentId, loose: Loose) returns (s: System)
    ensures Reachable(offs, s) && AgentOf(s, stray) == Idle && Abandoned(s, stray)
  {
    ReachableInitial(offs, 0);
    s := Do(offs, Initial(0), BeginStray(stray, loose));
    s := Do(offs, s, Touch(stray, ReadLock(0)));
  }
}
