// The boot flows: steps that can fail, checkpoints and milestones between them,
// and an early return at the first failure.
module BootFlow {
  import opened Common
  import opened BootStatus

  datatype Step =
    | InitMemoryMap
    | LoadStraps
    | InitPeripherals
    | ConfigureCaliptra
    | PopulateFuses
    | WaitCaliptraReady
    | ReadOwnershipFlash
    | DetermineOwner
    | DeriveStableKey
    | BurnFuses
    | CompleteTransfer
    | LoadFirmware
    | RestoreContext
    | VerifyRuntime
    | ResumeRuntime
    | ValidateFirmware
    | ValidateNewFirmware
    | SwapFirmware
    | CommitUpdate

  datatype OwnershipState = NoOwner | OwnerExists | TransferPending | TransferComplete

  // How everything outside the flows behaves in one boot: the outcome of each
  // stub step, the ownership state, and what each poll of the mailbox sees.
  datatype Plan = Plan(outcome: Step -> Result<()>, owner: Result<OwnershipState>, otpInit: Result<()>, busy: nat -> bool)

  const READY_POLLS: nat := 100000

  function StepResult(plan: Plan, step: Step): Result<()> {
    match step
    case InitPeripherals => plan.otpInit
    case DetermineOwner => if plan.owner.Ok? then Ok(()) else Err(plan.owner.error)
    case WaitCaliptraReady => if forall n :: 0 <= n < READY_POLLS ==> plan.busy(n) then Err(Timeout) else Ok(())
    case _ => plan.outcome(step)
  }

  predicate Pending(plan: Plan) {
    plan.owner == Ok(TransferPending)
  }

  // ---------------------------------------------------------------------------
  // Paths: the flows without their failures
  // ---------------------------------------------------------------------------

  datatype Path = End | Then(item: Item<Step>, rest: Path)

  function TransferPath(after: Path): Path {
    Then(Do(DeriveStableKey), Then(Cp(OwnershipDeriveStableKey),
    Then(Do(BurnFuses), Then(Cp(OwnershipBurnFuses),
    Then(Do(CompleteTransfer),
    Then(Cp(OwnershipTransferComplete), after))))))
  }

  function OwnershipPath(pending: bool, after: Path): Path {
    Then(Cp(OwnershipTransferStarted),
    Then(Do(ReadOwnershipFlash), Then(Cp(OwnershipFlashRead),
    Then(Do(DetermineOwner), Then(Cp(OwnershipDetermineOwner),
    if pending then TransferPath(after) else Then(Cp(OwnershipTransferComplete), after))))))
  }

  function FirmwarePath(): Path {
    Then(Cp(OwnershipTransferComplete),
    Then(Do(LoadFirmware),
    Then(Ms(COLD_BOOT_FLOW_COMPLETE), Then(Cp(ColdBootFlowComplete), End))))
  }

  function BringUpPath(after: Path): Path {
    Then(Do(ConfigureCaliptra), Then(Ms(CPTRA_BOOT_GO_ASSERTED), Then(Cp(CaliptraBootGoAsserted),
    Then(Do(PopulateFuses), Then(Ms(CPTRA_FUSES_WRITTEN), Then(Cp(FusesPopulatedToCaliptra),
    Then(Do(WaitCaliptraReady), Then(Cp(CaliptraReadyForMailbox),
    after))))))))
  }

  function SetupPath(after: Path): Path {
    Then(Cp(ColdBootFlowStarted), Then(Ms(ROM_STARTED),
    Then(Do(InitMemoryMap), Then(Cp(McuMemoryMapInitialized),
    Then(Do(LoadStraps), Then(Cp(StrapsLoaded),
    Then(Do(InitPeripherals), Then(Cp(McuRegistersInitialized),
    after))))))))
  }

  function CaliptraPath(pending: bool): Path {
    BringUpPath(OwnershipPath(pending, FirmwarePath()))
  }

  function ColdPath(pending: bool): Path {
    SetupPath(CaliptraPath(pending))
  }

  function WarmPath(): Path {
    Then(Cp(WarmResetFlowStarted),
    Then(Do(RestoreContext), Then(Do(VerifyRuntime), Then(Do(ResumeRuntime),
    Then(Ms(WARM_RESET_FLOW_COMPLETE), Then(Cp(WarmResetFlowComplete), End))))))
  }

  function FirmwareBootPath(): Path {
    Then(Cp(FirmwareBootFlowStarted),
    Then(Do(ValidateFirmware), Then(Cp(FirmwareValidationComplete),
    Then(Ms(FIRMWARE_BOOT_FLOW_COMPLETE), Then(Cp(FirmwareBootFlowComplete), End)))))
  }

  function HitlessPath(): Path {
    Then(Cp(HitlessUpdateFlowStarted),
    Then(Do(ValidateNewFirmware), Then(Do(SwapFirmware), Then(Do(CommitUpdate),
    Then(Cp(HitlessUpdateFlowComplete), End)))))
  }

  datatype ResetReason = ColdReset | WarmReset | FirmwareBootReset | FirmwareHitlessUpdate | InvalidReset

  // reset_reason_enum: more than one of the three bits is invalid.
  function ResetReasonOf(reason: bv32): ResetReason {
    var warm := reason & 0x01 != 0;
    var fwBoot := reason & 0x02 != 0;
    var hitless := reason & 0x04 != 0;
    if !warm && !fwBoot && !hitless then ColdReset
    else if warm && !fwBoot && !hitless then WarmReset
    else if !warm && fwBoot && !hitless then FirmwareBootReset
    else if !warm && !fwBoot && hitless then FirmwareHitlessUpdate
    else InvalidReset
  }

  lemma ThreeBits(r: bv32)
    ensures r & 7 == 0 <==> r & 1 == 0 && r & 2 == 0 && r & 4 == 0
    ensures r & 7 == 1 <==> r & 1 != 0 && r & 2 == 0 && r & 4 == 0
    ensures r & 7 == 2 <==> r & 1 == 0 && r & 2 != 0 && r & 4 == 0
    ensures r & 7 == 4 <==> r & 1 == 0 && r & 2 == 0 && r & 4 != 0
  {
  }

  // Only the three reset bits matter, and exactly one or none of them is valid.
  lemma ResetReasonByBits(reason: bv32)
    ensures ResetReasonOf(reason) ==
            if reason & 7 == 0 then ColdReset
            else if reason & 7 == 1 then WarmReset
            else if reason & 7 == 2 then FirmwareBootReset
            else if reason & 7 == 4 then FirmwareHitlessUpdate
            else InvalidReset
  {
    ThreeBits(reason);
  }

  function FlowPath(flow: ResetReason, pending: bool): Path {
    match flow
    case ColdReset => ColdPath(pending)
    case WarmReset => WarmPath()
    case FirmwareBootReset => FirmwareBootPath()
    case FirmwareHitlessUpdate => HitlessPath()
    case InvalidReset => End
  }

  function BootPath(resetReason: bv32, pending: bool): Path {
    Then(Ms(ROM_STARTED), FlowPath(ResetReasonOf(resetReason), pending))
  }

  // Everything done along a path up to and with the first failing step.
  function Done(path: Path, plan: Plan): seq<Item<Step>> {
    match path
    case End => []
    case Then(item, rest) =>
      if item.Do? && StepResult(plan, item.step).Err? then [item] else [item] + Done(rest, plan)
  }

  // The first failing step.
  function Failure(path: Path, plan: Plan): Option<Step> {
    match path
    case End => None
    case Then(item, rest) =>
      if item.Do? && StepResult(plan, item.step).Err? then Some(item.step) else Failure(rest, plan)
  }

  function Outcome(path: Path, plan: Plan): Result<()> {
    match Failure(path, plan)
    case None => Ok(())
    case Some(step) => StepResult(plan, step)
  }

  lemma {:induction false} FailureMeansError(path: Path, plan: Plan)
    ensures Outcome(path, plan).Ok? <==> Failure(path, plan) == None
  {
    match path
    case End =>
    case Then(item, rest) => FailureMeansError(rest, plan);
  }

  lemma DoneUnfolds(before: seq<Item<Step>>, path: Path, plan: Plan)
    requires path.Then?
    ensures var failed := path.item.Do? && StepResult(plan, path.item.step).Err?;
            before + Done(path, plan) == (before + [path.item]) + if failed then [] else Done(path.rest, plan)
  {
  }

  lemma StatusUnfolds(status0: bv32, trace: seq<Item<Step>>, item: Item<Step>)
    ensures StatusAfter(status0, trace + [item]) == StatusWith(StatusAfter(status0, trace), item)
  {
    assert (trace + [item])[..|trace|] == trace;
  }

  // ---------------------------------------------------------------------------
  // What is done exactly when
  // ---------------------------------------------------------------------------

  // The steps of a path in order, and how many of them stand before an item.
  function Work(path: Path): seq<Step> {
    match path
    case End => []
    case Then(item, rest) => if item.Do? then [item.step] + Work(rest) else Work(rest)
  }

  function Later(n: Option<nat>, k: nat): Option<nat> {
    if n.Some? then Some(n.value + k) else None
  }

  function Needs(path: Path, item: Item<Step>): Option<nat> {
    match path
    case End => None
    case Then(first, rest) =>
      if first == item then Some(0) else Later(Needs(rest, item), if first.Do? then 1 else 0)
  }

  // The first n steps succeed.
  ghost predicate AllOk(plan: Plan, steps: seq<Step>, n: nat) {
    forall i :: 0 <= i < n && i < |steps| ==> StepResult(plan, steps[i]).Ok?
  }

  lemma AllOkOneMore(plan: Plan, first: Step, steps: seq<Step>, n: nat)
    ensures AllOk(plan, [first] + steps, n + 1) <==> StepResult(plan, first).Ok? && AllOk(plan, steps, n)
  {
    if AllOk(plan, [first] + steps, n + 1) {
      assert ([first] + steps)[0] == first;
      assert forall i :: 0 <= i < |steps| ==> steps[i] == ([first] + steps)[i + 1];
    }
  }

  // An item of a path is done exactly when the steps before it all succeed,
  lemma {:induction false} DoneIff(path: Path, plan: Plan, item: Item<Step>)
    ensures item in Done(path, plan) <==> Needs(path, item).Some? && AllOk(plan, Work(path), Needs(path, item).value)
  {
    match path
    case End =>
    case Then(first, rest) =>
      DoneIff(rest, plan, item);
      if first.Do? && Needs(rest, item).Some? {
        AllOkOneMore(plan, first.step, Work(rest), Needs(rest, item).value);
      }
  }

  // and the path ends well exactly when all of its steps do.
  lemma {:induction false} OutcomeIff(path: Path, plan: Plan)
    ensures Outcome(path, plan).Ok? <==> AllOk(plan, Work(path), |Work(path)|)
  {
    match path
    case End =>
    case Then(first, rest) =>
      OutcomeIff(rest, plan);
      FailureMeansError(path, plan);
      FailureMeansError(rest, plan);
      if first.Do? {
        AllOkOneMore(plan, first.step, Work(rest), |Work(rest)|);
      }
  }

  lemma {:induction false} TriedAtMost(path: Path, plan: Plan, step: Step)
    ensures multiset(Done(path, plan))[Do(step)] <= multiset(Work(path))[step]
  {
    match path
    case End =>
    case Then(first, rest) =>
      TriedAtMost(rest, plan, step);
      var done := [first] + Done(rest, plan);
      assert multiset(done) == multiset{first} + multiset(Done(rest, plan));
      if first.Do? {
        assert multiset(Work(path)) == multiset{first.step} + multiset(Work(rest));
      }
  }

  // ---------------------------------------------------------------------------
  // The cold boot
  // ---------------------------------------------------------------------------

  // Its steps in order,
  function ColdSteps(pending: bool): seq<Step> {
    [InitMemoryMap, LoadStraps, InitPeripherals, ConfigureCaliptra, PopulateFuses, WaitCaliptraReady,
     ReadOwnershipFlash, Step.DetermineOwner]
    + (if pending then [DeriveStableKey, BurnFuses, CompleteTransfer] else [])
    + [LoadFirmware]
  }

  function PlaceOf(step: Step, pending: bool): Option<nat> {
    match step
    case InitMemoryMap => Some(0)
    case LoadStraps => Some(1)
    case InitPeripherals => Some(2)
    case ConfigureCaliptra => Some(3)
    case PopulateFuses => Some(4)
    case WaitCaliptraReady => Some(5)
    case ReadOwnershipFlash => Some(6)
    case DetermineOwner => Some(7)
    case DeriveStableKey => if pending then Some(8) else None
    case BurnFuses => if pending then Some(9) else None
    case CompleteTransfer => if pending then Some(10) else None
    case LoadFirmware => Some(if pending then 11 else 8)
    case _ => None
  }

  // and how many of them must have succeeded before a checkpoint is written or a
  // milestone set.
  function StepsBefore(item: Item<Step>, pending: bool): Option<nat> {
    match item
    case Cp(ColdBootFlowStarted) => Some(0)
    case Cp(McuMemoryMapInitialized) => Some(1)
    case Cp(StrapsLoaded) => Some(2)
    case Cp(McuRegistersInitialized) => Some(3)
    case Cp(CaliptraBootGoAsserted) => Some(4)
    case Cp(FusesPopulatedToCaliptra) => Some(5)
    case Cp(CaliptraReadyForMailbox) => Some(6)
    case Cp(OwnershipTransferStarted) => Some(6)
    case Cp(OwnershipFlashRead) => Some(7)
    case Cp(OwnershipDetermineOwner) => Some(8)
    case Cp(OwnershipDeriveStableKey) => if pending then Some(9) else None
    case Cp(OwnershipBurnFuses) => if pending then Some(10) else None
    case Cp(OwnershipTransferComplete) => Some(if pending then 11 else 8)
    case Cp(ColdBootFlowComplete) => Some(if pending then 12 else 9)
    case Cp(_) => None
    case Ms(m) =>
      if m == 0x0001 then Some(0)
      else if m == 0x0002 then Some(4)
      else if m == 0x0004 then Some(5)
      else if m == 0x0020 then Some(if pending then 12 else 9)
      else None
    case Do(step) => PlaceOf(step, pending)
  }

  // A step with what is noted after it, one or two items.
  lemma Noted(path: Path, step: Step, first: Item<Step>, rest: Path, item: Item<Step>)
    requires path == Then(Do(step), Then(first, rest)) && !first.Do?
    ensures Work(path) == [step] + Work(rest)
    ensures Needs(path, item) ==
            if item == Do(step) then Some(0) else if item == first then Some(1) else Later(Needs(rest, item), 1)
  {
    assert Work(path.rest) == Work(rest);
    assert Needs(path.rest, item) == if item == first then Some(0) else Later(Needs(rest, item), 0);
  }

  lemma NotedTwice(path: Path, step: Step, first: Item<Step>, second: Item<Step>, rest: Path, item: Item<Step>)
    requires path == Then(Do(step), Then(first, Then(second, rest))) && !first.Do? && !second.Do?
    ensures Work(path) == [step] + Work(rest)
    ensures Needs(path, item) ==
            if item == Do(step) then Some(0) else if item in {first, second} then Some(1) else Later(Needs(rest, item), 1)
  {
    Noted(path, step, first, Then(second, rest), item);
    assert Work(Then(second, rest)) == Work(rest);
    assert Needs(Then(second, rest), item) == if item == second then Some(0) else Later(Needs(rest, item), 0);
  }

  lemma FirmwareNeeds(item: Item<Step>)
    ensures Work(FirmwarePath()) == [LoadFirmware]
    ensures Needs(FirmwarePath(), item) ==
            if item in {Cp(OwnershipTransferComplete), Do(LoadFirmware)} then Some(0)
            else if item in {Ms(0x0020), Cp(ColdBootFlowComplete)} then Some(1)
            else None
  {
    var p := FirmwarePath();
    NotedTwice(p.rest, LoadFirmware, Ms(0x0020), Cp(ColdBootFlowComplete), End, item);
    assert Work(p) == Work(p.rest);
  }

  lemma TransferNeeds(item: Item<Step>)
    ensures var p := TransferPath(FirmwarePath());
            && Work(p) == [DeriveStableKey, BurnFuses, CompleteTransfer, LoadFirmware]
            && Needs(p, item) ==
                 if item == Do(DeriveStableKey) then Some(0)
                 else if item in {Cp(OwnershipDeriveStableKey), Do(BurnFuses)} then Some(1)
                 else if item in {Cp(OwnershipBurnFuses), Do(CompleteTransfer)} then Some(2)
                 else if item in {Cp(OwnershipTransferComplete), Do(LoadFirmware)} then Some(3)
                 else if item in {Ms(0x0020), Cp(ColdBootFlowComplete)} then Some(4)
                 else None
  {
    var p := TransferPath(FirmwarePath());
    FirmwareNeeds(item);
    Noted(p.rest.rest.rest.rest, CompleteTransfer, Cp(OwnershipTransferComplete), FirmwarePath(), item);
    Noted(p.rest.rest, BurnFuses, Cp(OwnershipBurnFuses), p.rest.rest.rest.rest, item);
    Noted(p, DeriveStableKey, Cp(OwnershipDeriveStableKey), p.rest.rest, item);
  }

  // The items from the ownership transfer on, as counted from there.
  function FromTransfer(item: Item<Step>, pending: bool): Option<nat> {
    var n := if pending then 5 else 2;
    if item in {Cp(OwnershipTransferStarted), Do(ReadOwnershipFlash)} then Some(0)
    else if item in {Cp(OwnershipFlashRead), Do(Step.DetermineOwner)} then Some(1)
    else if item == Cp(OwnershipDetermineOwner) then Some(2)
    else if pending && item == Do(DeriveStableKey) then Some(2)
    else if pending && item in {Cp(OwnershipDeriveStableKey), Do(BurnFuses)} then Some(3)
    else if pending && item in {Cp(OwnershipBurnFuses), Do(CompleteTransfer)} then Some(4)
    else if item in {Cp(OwnershipTransferComplete), Do(LoadFirmware)} then Some(n)
    else if item in {Ms(0x0020), Cp(ColdBootFlowComplete)} then Some(n + 1)
    else None
  }

  // Once the owner is determined, with a transfer pending or without.
  lemma HandedOver(last: Path, pending: bool, item: Item<Step>)
    requires last == if pending then TransferPath(FirmwarePath()) else Then(Cp(OwnershipTransferComplete), FirmwarePath())
    ensures Work(last) == ColdSteps(pending)[8..]
    ensures Later(Needs(last, item), 2) ==
            if item == Cp(OwnershipDetermineOwner) || item in {Do(ReadOwnershipFlash), Do(Step.DetermineOwner)} then None
            else if item in {Cp(OwnershipTransferStarted), Cp(OwnershipFlashRead)} then None
            else FromTransfer(item, pending)
  {
    if pending {
      TransferNeeds(item);
    } else {
      FirmwareNeeds(item);
      assert Work(last) == Work(FirmwarePath());
    }
  }

  lemma OwnershipNeeds(pending: bool, item: Item<Step>)
    ensures var p := OwnershipPath(pending, FirmwarePath());
            && Work(p) == ColdSteps(pending)[6..]
            && Needs(p, item) == FromTransfer(item, pending)
  {
    var p := OwnershipPath(pending, FirmwarePath());
    var last := p.rest.rest.rest.rest.rest;
    HandedOver(last, pending, item);
    Noted(p.rest.rest.rest, Step.DetermineOwner, Cp(OwnershipDetermineOwner), last, item);
    Noted(p.rest, ReadOwnershipFlash, Cp(OwnershipFlashRead), p.rest.rest.rest, item);
    assert Work(p) == Work(p.rest);
  }

  function FromCaliptra(item: Item<Step>, pending: bool): Option<nat> {
    if item == Do(ConfigureCaliptra) then Some(0)
    else if item in {Ms(0x0002), Cp(CaliptraBootGoAsserted), Do(PopulateFuses)} then Some(1)
    else if item in {Ms(0x0004), Cp(FusesPopulatedToCaliptra), Do(WaitCaliptraReady)} then Some(2)
    else if item == Cp(CaliptraReadyForMailbox) then Some(3)
    else Later(FromTransfer(item, pending), 3)
  }

  lemma BringUpNeeds(after: Path, item: Item<Step>)
    ensures var p := BringUpPath(after);
            && Work(p) == [ConfigureCaliptra, PopulateFuses, WaitCaliptraReady] + Work(after)
            && Needs(p, item) ==
                 if item == Do(ConfigureCaliptra) then Some(0)
                 else if item in {Ms(0x0002), Cp(CaliptraBootGoAsserted), Do(PopulateFuses)} then Some(1)
                 else if item in {Ms(0x0004), Cp(FusesPopulatedToCaliptra), Do(WaitCaliptraReady)} then Some(2)
                 else if item == Cp(CaliptraReadyForMailbox) then Some(3)
                 else Later(Needs(after, item), 3)
  {
    var p := BringUpPath(after);
    var q := p.rest.rest.rest;
    Noted(q.rest.rest.rest, WaitCaliptraReady, Cp(CaliptraReadyForMailbox), after, item);
    NotedTwice(q, PopulateFuses, Ms(0x0004), Cp(FusesPopulatedToCaliptra), q.rest.rest.rest, item);
    NotedTwice(p, ConfigureCaliptra, Ms(0x0002), Cp(CaliptraBootGoAsserted), q, item);
  }

  lemma CaliptraNeeds(pending: bool, item: Item<Step>)
    ensures Work(CaliptraPath(pending)) == ColdSteps(pending)[3..]
    ensures Needs(CaliptraPath(pending), item) == FromCaliptra(item, pending)
  {
    BringUpNeeds(OwnershipPath(pending, FirmwarePath()), item);
    OwnershipNeeds(pending, item);
  }

  lemma SetupNeeds(after: Path, item: Item<Step>)
    ensures var p := SetupPath(after);
            && Work(p) == [InitMemoryMap, LoadStraps, InitPeripherals] + Work(after)
            && Needs(p, item) ==
                 if item in {Cp(ColdBootFlowStarted), Ms(0x0001), Do(InitMemoryMap)} then Some(0)
                 else if item in {Cp(McuMemoryMapInitialized), Do(LoadStraps)} then Some(1)
                 else if item in {Cp(StrapsLoaded), Do(InitPeripherals)} then Some(2)
                 else if item == Cp(McuRegistersInitialized) then Some(3)
                 else Later(Needs(after, item), 3)
  {
    var p := SetupPath(after);
    var q := p.rest.rest;
    Noted(q.rest.rest.rest.rest, InitPeripherals, Cp(McuRegistersInitialized), after, item);
    Noted(q.rest.rest, LoadStraps, Cp(StrapsLoaded), q.rest.rest.rest.rest, item);
    Noted(q, InitMemoryMap, Cp(McuMemoryMapInitialized), q.rest.rest, item);
    assert Work(p.rest) == Work(q) && Work(p) == Work(p.rest);
    assert Needs(p.rest, item) == if item == Ms(0x0001) then Some(0) else Later(Needs(q, item), 0);
  }

  lemma SegmentsAddUp(item: Item<Step>, pending: bool)
    ensures StepsBefore(item, pending) ==
            if item in {Cp(ColdBootFlowStarted), Ms(0x0001), Do(InitMemoryMap)} then Some(0)
            else if item in {Cp(McuMemoryMapInitialized), Do(LoadStraps)} then Some(1)
            else if item in {Cp(StrapsLoaded), Do(InitPeripherals)} then Some(2)
            else if item == Cp(McuRegistersInitialized) then Some(3)
            else Later(FromCaliptra(item, pending), 3)
  {
    match item
    case Cp(c) =>
    case Ms(m) =>
    case Do(step) =>
  }

  lemma ColdPathNeeds(pending: bool, item: Item<Step>)
    ensures Work(ColdPath(pending)) == ColdSteps(pending)
    ensures Needs(ColdPath(pending), item) == StepsBefore(item, pending)
  {
    SetupNeeds(CaliptraPath(pending), item);
    CaliptraNeeds(pending, item);
    SegmentsAddUp(item, pending);
  }

  // For every plan: each checkpoint, milestone and step of a cold boot is reached exactly
  // when the steps before it, in this order, all succeed.
  lemma ColdBootReachesIff(plan: Plan, item: Item<Step>)
    ensures var n := StepsBefore(item, Pending(plan));
            item in Done(ColdPath(Pending(plan)), plan) <==> n.Some? && AllOk(plan, ColdSteps(Pending(plan)), n.value)
  {
    ColdPathNeeds(Pending(plan), item);
    DoneIff(ColdPath(Pending(plan)), plan, item);
  }

  // What a cold boot asks of everything around it.
  ghost predicate ColdBootSucceeds(plan: Plan) {
    && plan.otpInit.Ok? && plan.owner.Ok? && (exists n :: 0 <= n < 100000 && !plan.busy(n))
    && plan.outcome(InitMemoryMap).Ok? && plan.outcome(LoadStraps).Ok? && plan.outcome(ConfigureCaliptra).Ok?
    && plan.outcome(PopulateFuses).Ok? && plan.outcome(ReadOwnershipFlash).Ok? && plan.outcome(LoadFirmware).Ok?
    && (plan.owner.value == TransferPending ==>
          plan.outcome(DeriveStableKey).Ok? && plan.outcome(BurnFuses).Ok? && plan.outcome(CompleteTransfer).Ok?)
  }

  lemma FirstEightOk(plan: Plan, steps: seq<Step>)
    requires |steps| >= 8
    requires steps[0] == InitMemoryMap && steps[1] == LoadStraps && steps[2] == InitPeripherals
    requires steps[3] == ConfigureCaliptra && steps[4] == PopulateFuses && steps[5] == WaitCaliptraReady
    requires steps[6] == ReadOwnershipFlash && steps[7] == Step.DetermineOwner
    ensures AllOk(plan, steps, 8) <==>
            && plan.otpInit.Ok? && plan.owner.Ok? && (exists n :: 0 <= n < 100000 && !plan.busy(n))
            && plan.outcome(InitMemoryMap).Ok? && plan.outcome(LoadStraps).Ok? && plan.outcome(ConfigureCaliptra).Ok?
            && plan.outcome(PopulateFuses).Ok? && plan.outcome(ReadOwnershipFlash).Ok?
  {
    assert AllOk(plan, steps, 8) <==>
      && StepResult(plan, steps[0]).Ok? && StepResult(plan, steps[1]).Ok? && StepResult(plan, steps[2]).Ok?
      && StepResult(plan, steps[3]).Ok? && StepResult(plan, steps[4]).Ok? && StepResult(plan, steps[5]).Ok?
      && StepResult(plan, steps[6]).Ok? && StepResult(plan, steps[7]).Ok?;
  }

  lemma LastOk(plan: Plan, steps: seq<Step>, pending: bool)
    requires steps == ColdSteps(pending)
    ensures AllOk(plan, steps, |steps|) <==>
            && AllOk(plan, steps, 8) && plan.outcome(LoadFirmware).Ok?
            && (pending ==>
                  plan.outcome(DeriveStableKey).Ok? && plan.outcome(BurnFuses).Ok? && plan.outcome(CompleteTransfer).Ok?)
  {
    assert steps[|steps| - 1] == LoadFirmware;
    if pending {
      assert steps[8] == DeriveStableKey && steps[9] == BurnFuses && steps[10] == CompleteTransfer;
    }
  }

  lemma AllOkMeans(plan: Plan)
    ensures var steps := ColdSteps(Pending(plan)); AllOk(plan, steps, |steps|) <==> ColdBootSucceeds(plan)
  {
    FirstEightOk(plan, ColdSteps(Pending(plan)));
    LastOk(plan, ColdSteps(Pending(plan)), Pending(plan));
  }

  // It is Ok exactly if all of that is granted, and then, and only then, sets the
  // milestone that says so.
  lemma ColdBootOkIff(plan: Plan)
    ensures Outcome(ColdPath(Pending(plan)), plan).Ok? <==> ColdBootSucceeds(plan)
    ensures Ms(0x0020) in Done(ColdPath(Pending(plan)), plan) <==> ColdBootSucceeds(plan)
    ensures Cp(ColdBootFlowComplete) in Done(ColdPath(Pending(plan)), plan) <==> ColdBootSucceeds(plan)
  {
    OutcomeIff(ColdPath(Pending(plan)), plan);
    AllOkMeans(plan);
    ColdPathNeeds(Pending(plan), Ms(0x0020));
    ColdBootReachesIff(plan, Ms(0x0020));
    ColdBootReachesIff(plan, Cp(ColdBootFlowComplete));
  }

  // The error of a cold boot is that of its first step that fails.
  lemma {:induction false} FirstFailure(path: Path, plan: Plan, n: nat)
    requires n < |Work(path)| && AllOk(plan, Work(path), n) && StepResult(plan, Work(path)[n]).Err?
    ensures Failure(path, plan) == Some(Work(path)[n])
  {
    match path
    case End =>
    case Then(first, rest) =>
      if first.Do? {
        if n > 0 {
          AllOkOneMore(plan, first.step, Work(rest), n - 1);
          FirstFailure(rest, plan, n - 1);
        }
      } else {
        FirstFailure(rest, plan, n);
      }
  }

  lemma ColdBootFailsWith(plan: Plan, n: nat)
    requires n < |ColdSteps(Pending(plan))| && AllOk(plan, ColdSteps(Pending(plan)), n)
    requires StepResult(plan, ColdSteps(Pending(plan))[n]).Err?
    ensures var step := ColdSteps(Pending(plan))[n];
            Outcome(ColdPath(Pending(plan)), plan) ==
            if step == WaitCaliptraReady then Err(Timeout)
            else if step == InitPeripherals then plan.otpInit
            else if step == Step.DetermineOwner then Err(plan.owner.error)
            else plan.outcome(step)
  {
    ColdPathNeeds(Pending(plan), Do(LoadFirmware));
    FirstFailure(ColdPath(Pending(plan)), plan, n);
  }

  const STEPS_OF_SETUP := {InitMemoryMap, LoadStraps, InitPeripherals}
  const STEPS_OF_CALIPTRA := {ConfigureCaliptra, PopulateFuses, WaitCaliptraReady}
  const STEPS_OF_TRANSFER := {ReadOwnershipFlash, Step.DetermineOwner, DeriveStableKey}

  lemma AllOfSet(plan: Plan, steps: seq<Step>, n: nat, all: set<Step>)
    requires n <= |steps| && forall s :: s in all <==> s in steps[..n]
    ensures AllOk(plan, steps, n) <==> forall s :: s in all ==> StepResult(plan, s).Ok?
  {
    if AllOk(plan, steps, n) {
      forall s | s in all ensures StepResult(plan, s).Ok? {
        assert s in steps[..n];
      }
    } else {
      var i :| 0 <= i < n && StepResult(plan, steps[i]).Err?;
      assert steps[..n][i] in all;
    }
  }

  lemma BeforeBurning()
    ensures ColdSteps(true)[..9] ==
            [InitMemoryMap, LoadStraps, InitPeripherals, ConfigureCaliptra, PopulateFuses, WaitCaliptraReady,
             ReadOwnershipFlash, Step.DetermineOwner, DeriveStableKey]
    ensures forall s :: s in STEPS_OF_SETUP + (STEPS_OF_CALIPTRA + STEPS_OF_TRANSFER) <==> s in ColdSteps(true)[..9]
  {
  }

  lemma BurnedOnce(pending: bool)
    ensures multiset(ColdSteps(pending))[BurnFuses] <= 1
  {
  }

  lemma BurnedAtMostOnce(plan: Plan)
    ensures multiset(Done(ColdPath(Pending(plan)), plan))[Do(BurnFuses)] <= 1
  {
    ColdPathNeeds(Pending(plan), Do(BurnFuses));
    TriedAtMost(ColdPath(Pending(plan)), plan, BurnFuses);
    BurnedOnce(Pending(plan));
  }

  lemma BurningTried(plan: Plan)
    ensures Do(BurnFuses) in Done(ColdPath(Pending(plan)), plan) <==> Pending(plan) && AllOk(plan, ColdSteps(true), 9)
  {
    ColdBootReachesIff(plan, Do(BurnFuses));
  }

  // Fuses are burned at most once, and exactly when a transfer is pending and
  // every step before it, key derivation last, has succeeded.
  lemma FusesBurnedIff(plan: Plan)
    ensures var items := Done(ColdPath(Pending(plan)), plan);
            && multiset(items)[Do(BurnFuses)] <= 1
            && (Do(BurnFuses) in items <==>
                && plan.owner == Ok(TransferPending)
                && forall s :: s in STEPS_OF_SETUP + (STEPS_OF_CALIPTRA + STEPS_OF_TRANSFER) ==> StepResult(plan, s).Ok?)
  {
    BurningTried(plan);
    BurnedAtMostOnce(plan);
    BeforeBurning();
    AllOfSet(plan, ColdSteps(true), 9, STEPS_OF_SETUP + (STEPS_OF_CALIPTRA + STEPS_OF_TRANSFER));
  }

  // ---------------------------------------------------------------------------
  // The other flows, and which of them a reset takes
  // ---------------------------------------------------------------------------

  const WARM_STEPS := [RestoreContext, VerifyRuntime, ResumeRuntime]
  const FIRMWARE_BOOT_STEPS := [ValidateFirmware]
  const HITLESS_STEPS := [ValidateNewFirmware, SwapFirmware, CommitUpdate]

  function BeforeInWarm(item: Item<Step>): Option<nat> {
    if item in {Cp(WarmResetFlowStarted), Do(RestoreContext)} then Some(0)
    else if item == Do(VerifyRuntime) then Some(1)
    else if item == Do(ResumeRuntime) then Some(2)
    else if item in {Ms(0x0040), Cp(WarmResetFlowComplete)} then Some(3)
    else None
  }

  function BeforeInFirmwareBoot(item: Item<Step>): Option<nat> {
    if item in {Cp(FirmwareBootFlowStarted), Do(ValidateFirmware)} then Some(0)
    else if item in {Cp(FirmwareValidationComplete), Ms(0x0080), Cp(FirmwareBootFlowComplete)} then Some(1)
    else None
  }

  function BeforeInHitless(item: Item<Step>): Option<nat> {
    if item in {Cp(HitlessUpdateFlowStarted), Do(ValidateNewFirmware)} then Some(0)
    else if item == Do(SwapFirmware) then Some(1)
    else if item == Do(CommitUpdate) then Some(2)
    else if item == Cp(HitlessUpdateFlowComplete) then Some(3)
    else None
  }

  lemma WarmNeeds(item: Item<Step>)
    ensures Work(WarmPath()) == WARM_STEPS && Needs(WarmPath(), item) == BeforeInWarm(item)
  {
    var p := WarmPath();
    NotedTwice(p.rest.rest.rest, ResumeRuntime, Ms(0x0040), Cp(WarmResetFlowComplete), End, item);
    assert Work(p.rest.rest) == [VerifyRuntime] + Work(p.rest.rest.rest);
    assert Work(p.rest) == [RestoreContext] + Work(p.rest.rest);
    assert Needs(p.rest.rest, item)
        == if item == Do(VerifyRuntime) then Some(0) else Later(Needs(p.rest.rest.rest, item), 1);
    assert Needs(p.rest, item) == if item == Do(RestoreContext) then Some(0) else Later(Needs(p.rest.rest, item), 1);
  }

  lemma FirmwareBootNeeds(item: Item<Step>)
    ensures Work(FirmwareBootPath()) == FIRMWARE_BOOT_STEPS
    ensures Needs(FirmwareBootPath(), item) == BeforeInFirmwareBoot(item)
  {
    var p := FirmwareBootPath();
    var last := Then(Cp(FirmwareBootFlowComplete), End);
    NotedTwice(p.rest, ValidateFirmware, Cp(FirmwareValidationComplete), Ms(0x0080), last, item);
    assert Needs(last, item) == if item == Cp(FirmwareBootFlowComplete) then Some(0) else None;
  }

  lemma HitlessNeeds(item: Item<Step>)
    ensures Work(HitlessPath()) == HITLESS_STEPS && Needs(HitlessPath(), item) == BeforeInHitless(item)
  {
    var p := HitlessPath();
    Noted(p.rest.rest.rest, CommitUpdate, Cp(HitlessUpdateFlowComplete), End, item);
    assert Work(p.rest.rest) == [SwapFirmware] + Work(p.rest.rest.rest);
    assert Work(p.rest) == [ValidateNewFirmware] + Work(p.rest.rest);
    assert Needs(p.rest.rest, item)
        == if item == Do(SwapFirmware) then Some(0) else Later(Needs(p.rest.rest.rest, item), 1);
    assert Needs(p.rest, item)
        == if item == Do(ValidateNewFirmware) then Some(0) else Later(Needs(p.rest.rest, item), 1);
  }

  // The first n steps of one of these flows are granted.
  ghost predicate Granted(plan: Plan, steps: seq<Step>, n: nat) {
    forall i :: 0 <= i < n && i < |steps| ==> plan.outcome(steps[i]).Ok?
  }

  lemma GrantedIsOk(plan: Plan, n: nat)
    ensures AllOk(plan, WARM_STEPS, n) <==> Granted(plan, WARM_STEPS, n)
    ensures AllOk(plan, FIRMWARE_BOOT_STEPS, n) <==> Granted(plan, FIRMWARE_BOOT_STEPS, n)
    ensures AllOk(plan, HITLESS_STEPS, n) <==> Granted(plan, HITLESS_STEPS, n)
  {
  }

  // Likewise for the other three flows: each item of a flow is reached exactly when the
  // steps before it, in this order, are all granted.
  lemma WarmBootReachesIff(plan: Plan, item: Item<Step>)
    ensures var n := BeforeInWarm(item);
            item in Done(WarmPath(), plan) <==> n.Some? && Granted(plan, WARM_STEPS, n.value)
    ensures Outcome(WarmPath(), plan).Ok? <==> Granted(plan, WARM_STEPS, 3)
  {
    WarmNeeds(item);
    DoneIff(WarmPath(), plan, item);
    OutcomeIff(WarmPath(), plan);
    GrantedIsOk(plan, 3);
    if BeforeInWarm(item).Some? { GrantedIsOk(plan, BeforeInWarm(item).value); }
  }

  lemma FwBootReachesIff(plan: Plan, item: Item<Step>)
    ensures var n := BeforeInFirmwareBoot(item);
            item in Done(FirmwareBootPath(), plan) <==> n.Some? && Granted(plan, FIRMWARE_BOOT_STEPS, n.value)
    ensures Outcome(FirmwareBootPath(), plan).Ok? <==> Granted(plan, FIRMWARE_BOOT_STEPS, 1)
  {
    FirmwareBootNeeds(item);
    DoneIff(FirmwareBootPath(), plan, item);
    OutcomeIff(FirmwareBootPath(), plan);
    GrantedIsOk(plan, 1);
    if BeforeInFirmwareBoot(item).Some? { GrantedIsOk(plan, BeforeInFirmwareBoot(item).value); }
  }

  lemma HitlessReachesIff(plan: Plan, item: Item<Step>)
    ensures var n := BeforeInHitless(item);
            item in Done(HitlessPath(), plan) <==> n.Some? && Granted(plan, HITLESS_STEPS, n.value)
    ensures Outcome(HitlessPath(), plan).Ok? <==> Granted(plan, HITLESS_STEPS, 3)
  {
    HitlessNeeds(item);
    DoneIff(HitlessPath(), plan, item);
    OutcomeIff(HitlessPath(), plan);
    GrantedIsOk(plan, 3);
    if BeforeInHitless(item).Some? { GrantedIsOk(plan, BeforeInHitless(item).value); }
  }

  function BeforeIn(flow: ResetReason, item: Item<Step>, pending: bool): Option<nat> {
    match flow
    case ColdReset => StepsBefore(item, pending)
    case WarmReset => BeforeInWarm(item)
    case FirmwareBootReset => BeforeInFirmwareBoot(item)
    case FirmwareHitlessUpdate => BeforeInHitless(item)
    case InvalidReset => None
  }

  lemma ReachedOnlyIn(flow: ResetReason, plan: Plan, item: Item<Step>)
    requires BeforeIn(flow, item, Pending(plan)).None?
    ensures item !in Done(FlowPath(flow, Pending(plan)), plan)
  {
    match flow
    case ColdReset => ColdBootReachesIff(plan, item);
    case WarmReset => WarmBootReachesIff(plan, item);
    case FirmwareBootReset => FwBootReachesIff(plan, item);
    case FirmwareHitlessUpdate => HitlessReachesIff(plan, item);
    case InvalidReset =>
  }

  lemma BootTakesFlow(resetReason: bv32, plan: Plan, item: Item<Step>, taken: ResetReason)
    requires taken == ResetReasonOf(resetReason) && item != Ms(0x0001)
    ensures item in Done(BootPath(resetReason, Pending(plan)), plan)
            <==> item in Done(FlowPath(taken, Pending(plan)), plan)
  {
  }

  // An item of one flow only is reached exactly when that is the flow taken, and reaches it.
  lemma ReachedInFlow(resetReason: bv32, plan: Plan, item: Item<Step>, flow: ResetReason)
    requires item != Ms(0x0001)
    requires forall other :: other != flow ==> BeforeIn(other, item, Pending(plan)).None?
    ensures item in Done(BootPath(resetReason, Pending(plan)), plan)
            <==> ResetReasonOf(resetReason) == flow && item in Done(FlowPath(flow, Pending(plan)), plan)
  {
    var taken := ResetReasonOf(resetReason);
    BootTakesFlow(resetReason, plan, item, taken);
    if taken != flow {
      ReachedOnlyIn(taken, plan, item);
    }
  }

  // Which flow a reset took, and whether it completed, told from what it noted, by the
  // three bits.
  ghost predicate Dispatched(bits: bv32, plan: Plan, items: seq<Item<Step>>) {
    && (Cp(ColdBootFlowStarted) in items <==> bits == 0)
    && (Cp(WarmResetFlowStarted) in items <==> bits == 1)
    && (Cp(FirmwareBootFlowStarted) in items <==> bits == 2)
    && (Cp(HitlessUpdateFlowStarted) in items <==> bits == 4)
    && (Ms(0x0020) in items <==> bits == 0 && ColdBootSucceeds(plan))
    && (Ms(0x0040) in items <==> bits == 1 && Granted(plan, WARM_STEPS, 3))
    && (Ms(0x0080) in items <==> bits == 2 && plan.outcome(ValidateFirmware).Ok?)
    && (Cp(HitlessUpdateFlowComplete) in items <==> bits == 4 && Granted(plan, HITLESS_STEPS, 3))
  }

  lemma ColdDispatched(resetReason: bv32, plan: Plan, items: seq<Item<Step>>)
    requires items == Done(BootPath(resetReason, Pending(plan)), plan)
    ensures Cp(ColdBootFlowStarted) in items <==> ResetReasonOf(resetReason) == ColdReset
    ensures Ms(0x0020) in items <==> ResetReasonOf(resetReason) == ColdReset && ColdBootSucceeds(plan)
  {
    ReachedInFlow(resetReason, plan, Cp(ColdBootFlowStarted), ColdReset);
    ReachedInFlow(resetReason, plan, Ms(0x0020), ColdReset);
    ColdBootReachesIff(plan, Cp(ColdBootFlowStarted));
    ColdBootOkIff(plan);
  }

  lemma WarmDispatched(resetReason: bv32, plan: Plan, items: seq<Item<Step>>)
    requires items == Done(BootPath(resetReason, Pending(plan)), plan)
    ensures Cp(WarmResetFlowStarted) in items <==> ResetReasonOf(resetReason) == WarmReset
    ensures Ms(0x0040) in items <==> ResetReasonOf(resetReason) == WarmReset && Granted(plan, WARM_STEPS, 3)
  {
    ReachedInFlow(resetReason, plan, Cp(WarmResetFlowStarted), WarmReset);
    ReachedInFlow(resetReason, plan, Ms(0x0040), WarmReset);
    WarmBootReachesIff(plan, Cp(WarmResetFlowStarted));
    WarmBootReachesIff(plan, Ms(0x0040));
  }

  lemma FwBootDispatched(resetReason: bv32, plan: Plan, items: seq<Item<Step>>)
    requires items == Done(BootPath(resetReason, Pending(plan)), plan)
    ensures Cp(FirmwareBootFlowStarted) in items <==> ResetReasonOf(resetReason) == FirmwareBootReset
    ensures Ms(0x0080) in items
            <==> ResetReasonOf(resetReason) == FirmwareBootReset && plan.outcome(ValidateFirmware).Ok?
  {
    ReachedInFlow(resetReason, plan, Cp(FirmwareBootFlowStarted), FirmwareBootReset);
    ReachedInFlow(resetReason, plan, Ms(0x0080), FirmwareBootReset);
    FwBootReachesIff(plan, Cp(FirmwareBootFlowStarted));
    FwBootReachesIff(plan, Ms(0x0080));
    assert Granted(plan, FIRMWARE_BOOT_STEPS, 1) <==> plan.outcome(FIRMWARE_BOOT_STEPS[0]).Ok?;
  }

  lemma HitlessDispatched(resetReason: bv32, plan: Plan, items: seq<Item<Step>>)
    requires items == Done(BootPath(resetReason, Pending(plan)), plan)
    ensures Cp(HitlessUpdateFlowStarted) in items <==> ResetReasonOf(resetReason) == FirmwareHitlessUpdate
    ensures Cp(HitlessUpdateFlowComplete) in items
            <==> ResetReasonOf(resetReason) == FirmwareHitlessUpdate && Granted(plan, HITLESS_STEPS, 3)
  {
    ReachedInFlow(resetReason, plan, Cp(HitlessUpdateFlowStarted), FirmwareHitlessUpdate);
    ReachedInFlow(resetReason, plan, Cp(HitlessUpdateFlowComplete), FirmwareHitlessUpdate);
    HitlessReachesIff(plan, Cp(HitlessUpdateFlowStarted));
    HitlessReachesIff(plan, Cp(HitlessUpdateFlowComplete));
  }

  // The flow a reset takes shows in what it notes, and so does its completion, exactly
  // when all the flow asks for is granted.
  lemma DispatchedByBits(resetReason: bv32, plan: Plan, items: seq<Item<Step>>)
    requires items == Done(BootPath(resetReason, Pending(plan)), plan)
    ensures Dispatched(resetReason & 7, plan, items)
  {
    ColdDispatched(resetReason, plan, items);
    WarmDispatched(resetReason, plan, items);
    FwBootDispatched(resetReason, plan, items);
    HitlessDispatched(resetReason, plan, items);
    ResetReasonByBits(resetReason);
  }

  // ---------------------------------------------------------------------------
  // The flows
  // ---------------------------------------------------------------------------

  class Rom {
    const plan: Plan
    var status: bv32
    var trace: seq<Item<Step>>
    ghost const status0: bv32

    // The register holds what the trace of calls wrote.
    ghost predicate Valid()
      reads this
    {
      status == StatusAfter(status0, trace)
    }

    constructor (plan: Plan, status: bv32)
      ensures this.plan == plan && this.status == status0 == status && trace == []
      ensures Valid()
    {
      this.plan, this.status, this.trace, this.status0 := plan, status, [], status;
    }

    // How the trace ends if all of `todo` is still to be done.
    ghost function Outlook(todo: Path): (seq<Item<Step>>, Result<()>)
      reads this
    {
      (trace + Done(todo, plan), Outcome(todo, plan))
    }

    method SetFlowCheckpoint(c: Checkpoint, ghost todo: Path) returns (ghost rest: Path)
      requires Valid() && todo.Then? && todo.item == Cp(c)
      modifies this
      ensures Valid() && trace == old(trace) + [Cp(c)] && rest == todo.rest && Outlook(rest) == old(Outlook(todo))
    {
      DoneUnfolds(trace, todo, plan);
      StatusUnfolds(status0, trace, Cp(c));
      status := WithCheckpoint(status, Code(c));
      trace := trace + [Cp(c)];
      rest := todo.rest;
    }

    method SetFlowMilestone(m: bv16, ghost todo: Path) returns (ghost rest: Path)
      requires Valid() && todo.Then? && todo.item == Ms(m)
      modifies this
      ensures Valid() && trace == old(trace) + [Ms(m)] && rest == todo.rest && Outlook(rest) == old(Outlook(todo))
    {
      DoneUnfolds(trace, todo, plan);
      StatusUnfolds(status0, trace, Ms(m));
      status := WithMilestone(status, m);
      trace := trace + [Ms(m)];
      rest := todo.rest;
    }

    // wait_caliptra_ready: the mailbox is polled until it is not busy, or too often.
    method WaitReady() returns (r: Result<()>)
      ensures r == if forall n :: 0 <= n < 100000 ==> plan.busy(n) then Err(Timeout) else Ok(())
    {
      var timeout := READY_POLLS;
      var poll := 0;
      while plan.busy(poll)
        invariant timeout + poll == READY_POLLS && timeout > 0
        invariant forall n :: 0 <= n < poll ==> plan.busy(n)
        decreases timeout
      {
        timeout := timeout - 1;
        if timeout == 0 {
          assert forall n :: 0 <= n < READY_POLLS ==> plan.busy(n);
          return Err(Timeout);
        }
        poll := poll + 1;
      }
      return Ok(());
    }

    method Try(step: Step, ghost todo: Path) returns (r: Result<()>, ghost rest: Path)
      requires Valid() && todo.Then? && todo.item == Do(step)
      modifies this
      ensures Valid() && trace == old(trace) + [Do(step)] && r == StepResult(plan, step) && rest == todo.rest
      ensures if r.Ok? then Outlook(rest) == old(Outlook(todo)) else (trace, r) == old(Outlook(todo))
    {
      DoneUnfolds(trace, todo, plan);
      StatusUnfolds(status0, trace, Do(step));
      trace := trace + [Do(step)];
      rest := todo.rest;
      match step
      case WaitCaliptraReady => r := WaitReady();
      case InitPeripherals => r := plan.otpInit;
      case DetermineOwner => r := if plan.owner.Ok? then Ok(()) else Err(plan.owner.error);
      case _ => r := plan.outcome(step);
    }

    method TransferOwnership(ghost todo0: Path, ghost after: Path) returns (r: Result<()>)
      requires Valid() && todo0 == OwnershipPath(Pending(plan), after)
      modifies this
      ensures Valid()
      ensures if r.Ok? then Outlook(after) == old(Outlook(todo0)) else (trace, r) == old(Outlook(todo0))
    {
      ghost var todo := SetFlowCheckpoint(OwnershipTransferStarted, todo0);
      r, todo := Try(ReadOwnershipFlash, todo);
      if r.Err? { return; }
      todo := SetFlowCheckpoint(OwnershipFlashRead, todo);
      r, todo := Try(DetermineOwner, todo);
      if r.Err? { return; }
      todo := SetFlowCheckpoint(OwnershipDetermineOwner, todo);
      if plan.owner.value == TransferPending {
        r, todo := Try(DeriveStableKey, todo);
        if r.Err? { return; }
        todo := SetFlowCheckpoint(OwnershipDeriveStableKey, todo);
        r, todo := Try(BurnFuses, todo);
        if r.Err? { return; }
        todo := SetFlowCheckpoint(OwnershipBurnFuses, todo);
        r, todo := Try(CompleteTransfer, todo);
        if r.Err? { return; }
      }
      todo := SetFlowCheckpoint(OwnershipTransferComplete, todo);
      r := Ok(());
    }

    // The last third: ownership transfer, then the firmware.
    method HandOver(ghost todo0: Path) returns (r: Result<()>)
      requires Valid() && todo0 == OwnershipPath(Pending(plan), FirmwarePath())
      modifies this
      ensures Valid() && (trace, r) == old(Outlook(todo0))
    {
      ghost var todo;
      r := TransferOwnership(todo0, FirmwarePath());
      if r.Err? { return; }
      todo := SetFlowCheckpoint(OwnershipTransferComplete, FirmwarePath());
      r, todo := Try(LoadFirmware, todo);
      if r.Err? { return; }
      todo := SetFlowMilestone(COLD_BOOT_FLOW_COMPLETE, todo);
      todo := SetFlowCheckpoint(ColdBootFlowComplete, todo);
      assert trace + [] == trace;
      r := Ok(());
    }

    // The second third of the cold boot, from boot go on.
    method BringUpCaliptra(ghost todo0: Path) returns (r: Result<()>)
      requires Valid() && todo0 == CaliptraPath(Pending(plan))
      modifies this
      ensures Valid() && (trace, r) == old(Outlook(todo0))
    {
      ghost var todo;
      r, todo := Try(ConfigureCaliptra, todo0);
      if r.Err? { return; }
      todo := SetFlowMilestone(CPTRA_BOOT_GO_ASSERTED, todo);
      todo := SetFlowCheckpoint(CaliptraBootGoAsserted, todo);
      r, todo := Try(PopulateFuses, todo);
      if r.Err? { return; }
      todo := SetFlowMilestone(CPTRA_FUSES_WRITTEN, todo);
      todo := SetFlowCheckpoint(FusesPopulatedToCaliptra, todo);
      r, todo := Try(WaitCaliptraReady, todo);
      if r.Err? { return; }
      todo := SetFlowCheckpoint(CaliptraReadyForMailbox, todo);
      r := HandOver(todo);
    }

    method ColdBoot() returns (r: Result<()>)
      requires Valid()
      modifies this
      ensures Valid() && (trace, r) == old(Outlook(ColdPath(Pending(plan))))
      ensures r.Ok? <==> ColdBootSucceeds(plan)
    {
      ColdBootOkIff(plan);
      ghost var todo := SetFlowCheckpoint(ColdBootFlowStarted, ColdPath(Pending(plan)));
      todo := SetFlowMilestone(ROM_STARTED, todo);
      r, todo := Try(InitMemoryMap, todo);
      if r.Err? { return; }
      todo := SetFlowCheckpoint(McuMemoryMapInitialized, todo);
      r, todo := Try(LoadStraps, todo);
      if r.Err? { return; }
      todo := SetFlowCheckpoint(StrapsLoaded, todo);
      r, todo := Try(InitPeripherals, todo);
      if r.Err? { return; }
      todo := SetFlowCheckpoint(McuRegistersInitialized, todo);
      r := BringUpCaliptra(todo);
    }

    method WarmBoot() returns (r: Result<()>)
      requires Valid()
      modifies this
      ensures Valid() && (trace, r) == old(Outlook(WarmPath()))
    {
      ghost var todo := SetFlowCheckpoint(WarmResetFlowStarted, WarmPath());
      r, todo := Try(RestoreContext, todo);
      if r.Err? { return; }
      r, todo := Try(VerifyRuntime, todo);
      if r.Err? { return; }
      r, todo := Try(ResumeRuntime, todo);
      if r.Err? { return; }
      todo := SetFlowMilestone(WARM_RESET_FLOW_COMPLETE, todo);
      todo := SetFlowCheckpoint(WarmResetFlowComplete, todo);
      assert trace + [] == trace;
      r := Ok(());
    }

    method FwBoot() returns (r: Result<()>)
      requires Valid()
      modifies this
      ensures Valid() && (trace, r) == old(Outlook(FirmwareBootPath()))
    {
      ghost var todo := SetFlowCheckpoint(FirmwareBootFlowStarted, FirmwareBootPath());
      r, todo := Try(ValidateFirmware, todo);
      if r.Err? { return; }
      todo := SetFlowCheckpoint(FirmwareValidationComplete, todo);
      todo := SetFlowMilestone(FIRMWARE_BOOT_FLOW_COMPLETE, todo);
      todo := SetFlowCheckpoint(FirmwareBootFlowComplete, todo);
      assert trace + [] == trace;
      r := Ok(());
    }

    method FwHitlessUpdate() returns (r: Result<()>)
      requires Valid()
      modifies this
      ensures Valid() && (trace, r) == old(Outlook(HitlessPath()))
    {
      ghost var todo := SetFlowCheckpoint(HitlessUpdateFlowStarted, HitlessPath());
      r, todo := Try(ValidateNewFirmware, todo);
      if r.Err? { return; }
      r, todo := Try(SwapFirmware, todo);
      if r.Err? { return; }
      r, todo := Try(CommitUpdate, todo);
      if r.Err? { return; }
      todo := SetFlowCheckpoint(HitlessUpdateFlowComplete, todo);
      assert trace + [] == trace;
      r := Ok(());
    }

    // The milestone, then the flow of the reset reason.
    method StartFlow(resetReason: bv32)
      requires Valid()
      modifies this
      ensures Valid()
      ensures trace == old(trace) + Done(BootPath(resetReason, Pending(plan)), plan)
    {
      ghost var path := BootPath(resetReason, Pending(plan));
      ghost var rest := SetFlowMilestone(ROM_STARTED, path);
      var r;
      match ResetReasonOf(resetReason)
      case ColdReset => r := ColdBoot();
      case WarmReset => r := WarmBoot();
      case FirmwareBootReset => r := FwBoot();
      case FirmwareHitlessUpdate => r := FwHitlessUpdate();
      case InvalidReset =>
    }

    // rom_start, up to the endless loop or fatal error it ends in.
    method RomStart(resetReason: bv32)
      requires Valid()
      modifies this
      ensures Valid()
      ensures trace == old(trace) + Done(BootPath(resetReason, Pending(plan)), plan)
      ensures Dispatched(resetReason & 7, plan, trace[|old(trace)|..])
    {
      ghost var before := trace;
      ghost var items := Done(BootPath(resetReason, Pending(plan)), plan);
      StartFlow(resetReason);
      assert trace[|before|..] == items;
      DispatchedByBits(resetReason, plan, items);
    }
  }

  // ---------------------------------------------------------------------------
  // The final checkpoint tells what failed
  // ---------------------------------------------------------------------------

  // The step that a cold boot failed in, read off the checkpoint it stopped at.
  function Culprit(checkpoint: Checkpoint): Option<Step> {
    match checkpoint
    case ColdBootFlowStarted => Some(InitMemoryMap)
    case McuMemoryMapInitialized => Some(LoadStraps)
    case StrapsLoaded => Some(InitPeripherals)
    case McuRegistersInitialized => Some(ConfigureCaliptra)
    case CaliptraBootGoAsserted => Some(PopulateFuses)
    case FusesPopulatedToCaliptra => Some(WaitCaliptraReady)
    case OwnershipTransferStarted => Some(ReadOwnershipFlash)
    case OwnershipFlashRead => Some(Step.DetermineOwner)
    case OwnershipDetermineOwner => Some(DeriveStableKey)
    case OwnershipDeriveStableKey => Some(BurnFuses)
    case OwnershipBurnFuses => Some(CompleteTransfer)
    case OwnershipTransferComplete => Some(LoadFirmware)
    case _ => None
  }

  // Along the path, every step is the culprit of the checkpoint before it, and
  // the last checkpoint says that the flow is complete.
  predicate Telling(path: Path, last: Checkpoint) {
    match path
    case End => last == ColdBootFlowComplete
    case Then(Cp(c), rest) => Telling(rest, c)
    case Then(Ms(_), rest) => Telling(rest, last)
    case Then(Do(step), rest) => Culprit(last) == Some(step) && Telling(rest, last)
  }

  // The last checkpoint of a run that starts with one.
  function FinalCheckpoint(items: seq<Item<Step>>): Checkpoint
    requires items != [] && items[0].Cp?
  {
    var last := items[|items| - 1];
    if last.Cp? then last.checkpoint else FinalCheckpoint(items[..|items| - 1])
  }

  lemma {:induction false} TellingRun(done: seq<Item<Step>>, path: Path, plan: Plan)
    requires done != [] && done[0].Cp? && Telling(path, FinalCheckpoint(done))
    ensures Culprit(FinalCheckpoint(done + Done(path, plan))) == Failure(path, plan)
    ensures Failure(path, plan) == None ==> FinalCheckpoint(done + Done(path, plan)) == ColdBootFlowComplete
    decreases path
  {
    match path
    case End => assert done + [] == done;
    case Then(item, rest) =>
      assert (done + [item])[..|done|] == done;
      DoneUnfolds(done, path, plan);
      if item.Do? && StepResult(plan, item.step).Err? {
        assert (done + [item]) + [] == done + [item];
      } else {
        TellingRun(done + [item], rest, plan);
      }
  }

  lemma FirmwarePathIsTelling()
    ensures forall c :: Telling(FirmwarePath(), c)
  {
  }

  lemma OwnershipPathIsTelling(pending: bool)
    ensures Telling(OwnershipPath(pending, FirmwarePath()), CaliptraReadyForMailbox)
  {
    FirmwarePathIsTelling();
    assert Telling(TransferPath(FirmwarePath()), OwnershipDetermineOwner) by {
      assert Telling(TransferPath(FirmwarePath()).rest.rest.rest.rest, OwnershipBurnFuses);
    }
  }

  lemma ColdPathIsTelling(pending: bool)
    ensures Telling(ColdPath(pending).rest, ColdBootFlowStarted)
  {
    FirmwarePathIsTelling();
    OwnershipPathIsTelling(pending);
    assert Telling(CaliptraPath(pending), McuRegistersInitialized) by {
      assert Telling(CaliptraPath(pending).rest.rest.rest, CaliptraBootGoAsserted) by {
        assert Telling(CaliptraPath(pending).rest.rest.rest.rest.rest.rest, FusesPopulatedToCaliptra);
      }
    }
    var p := ColdPath(pending).rest;
    assert Telling(p.rest.rest.rest.rest.rest, StrapsLoaded);
    assert Telling(p.rest.rest.rest, McuMemoryMapInitialized);
    assert Telling(p.rest, ColdBootFlowStarted);
  }

  lemma {:induction false} RegisterShowsFinalCheckpoint(before: bv16, items: seq<Item<Step>>)
    requires items != [] && items[0].Cp?
    ensures CheckpointOf(before, items) == Code(FinalCheckpoint(items))
  {
    if !items[|items| - 1].Cp? {
      RegisterShowsFinalCheckpoint(before, items[..|items| - 1]);
    }
  }

  // The step named by a checkpoint code, if any.
  ghost function Diagnose(code: bv16): Option<Step> {
    if exists c :: Code(c) == code then
      var c :| Code(c) == code;
      Culprit(c)
    else None
  }

  lemma ColdBootFinalCheckpoint(status: bv32, plan: Plan, items: seq<Item<Step>>)
    requires items == Done(ColdPath(Pending(plan)), plan)
    ensures items != [] && items[0].Cp? && LastCheckpoint(StatusAfter(status, items)) == Code(FinalCheckpoint(items))
    ensures Culprit(FinalCheckpoint(items)) == Failure(ColdPath(Pending(plan)), plan)
    ensures Failure(ColdPath(Pending(plan)), plan) == None ==> FinalCheckpoint(items) == ColdBootFlowComplete
  {
    var path := ColdPath(Pending(plan));
    ColdPathIsTelling(Pending(plan));
    assert items == [Cp(ColdBootFlowStarted)] + Done(path.rest, plan);
    TellingRun([Cp(ColdBootFlowStarted)], path.rest, plan);
    StatusPacking(status, items);
    RegisterShowsFinalCheckpoint(LastCheckpoint(status), items);
  }

  // For every combination of outcomes, the code left in the register alone says
  // which step of the cold boot failed, or that none did.
  lemma ColdBootIsDiagnosable(status: bv32, plan: Plan)
    ensures var path := ColdPath(Pending(plan));
            Diagnose(LastCheckpoint(StatusAfter(status, Done(path, plan)))) == Failure(path, plan)
  {
    var items := Done(ColdPath(Pending(plan)), plan);
    ColdBootFinalCheckpoint(status, plan, items);
    var code := LastCheckpoint(StatusAfter(status, items));
    forall c | Code(c) == code
      ensures c == FinalCheckpoint(items)
    {
      CodesAreDistinct(c, FinalCheckpoint(items));
    }
  }

  // The code the register is left with.
  function CodeFor(failed: Option<Step>): bv16 {
    match failed
    case None => 386
    case Some(InitMemoryMap) => 385
    case Some(LoadStraps) => 2
    case Some(InitPeripherals) => 3
    case Some(ConfigureCaliptra) => 4
    case Some(PopulateFuses) => 193
    case Some(WaitCaliptraReady) => 197
    case Some(ReadOwnershipFlash) => 206
    case Some(DetermineOwner) => 205
    case Some(DeriveStableKey) => 209
    case Some(BurnFuses) => 207
    case Some(CompleteTransfer) => 208
    case Some(LoadFirmware) => 210
    case Some(_) => 0
  }

  lemma CodeOfCulprit(c: Checkpoint, failed: Option<Step>)
    requires Culprit(c) == failed && (failed == None ==> c == ColdBootFlowComplete)
    ensures Code(c) == CodeFor(failed)
  {
  }

  lemma ColdBootLeavesCode(status: bv32, plan: Plan)
    ensures var path := ColdPath(Pending(plan));
            LastCheckpoint(StatusAfter(status, Done(path, plan))) == CodeFor(Failure(path, plan))
  {
    var items := Done(ColdPath(Pending(plan)), plan);
    ColdBootFinalCheckpoint(status, plan, items);
    CodeOfCulprit(FinalCheckpoint(items), Failure(ColdPath(Pending(plan)), plan));
  }

  // ---------------------------------------------------------------------------
  // Emitted checkpoints
  // ---------------------------------------------------------------------------

  function PathCheckpoints(path: Path): seq<Checkpoint> {
    match path
    case End => []
    case Then(item, rest) => (if item.Cp? then [item.checkpoint] else []) + PathCheckpoints(rest)
  }

  function Emitted(items: seq<Item<Step>>): seq<Checkpoint> {
    if items == [] then []
    else (if items[0].Cp? then [items[0].checkpoint] else []) + Emitted(items[1..])
  }

  // No step is the last thing on the path.
  predicate EndsWithCheckpoint(path: Path) {
    match path
    case End => true
    case Then(item, rest) => (item.Do? ==> PathCheckpoints(rest) != []) && EndsWithCheckpoint(rest)
  }

  lemma {:induction false} EmittedIsPrefix(path: Path, plan: Plan)
    requires EndsWithCheckpoint(path)
    ensures Emitted(Done(path, plan)) <= PathCheckpoints(path)
    ensures Emitted(Done(path, plan)) == PathCheckpoints(path) <==> Outcome(path, plan).Ok?
  {
    match path
    case End =>
    case Then(item, rest) =>
      EmittedIsPrefix(rest, plan);
      if item.Do? && StepResult(plan, item.step).Err? {
        assert [item][1..] == [];
      } else {
        assert ([item] + Done(rest, plan))[1..] == Done(rest, plan);
        FailureMeansError(rest, plan);
      }
  }

  lemma ColdPathEndsWithCheckpoint(pending: bool)
    ensures EndsWithCheckpoint(ColdPath(pending))
  {
    assert EndsWithCheckpoint(FirmwarePath());
    assert EndsWithCheckpoint(TransferPath(FirmwarePath())) by {
      assert EndsWithCheckpoint(TransferPath(FirmwarePath()).rest.rest.rest);
    }
    assert EndsWithCheckpoint(OwnershipPath(pending, FirmwarePath())) by {
      assert EndsWithCheckpoint(OwnershipPath(pending, FirmwarePath()).rest.rest.rest);
    }
    assert EndsWithCheckpoint(CaliptraPath(pending)) by {
      assert EndsWithCheckpoint(CaliptraPath(pending).rest.rest.rest.rest.rest.rest);
      assert EndsWithCheckpoint(CaliptraPath(pending).rest.rest.rest);
    }
    assert EndsWithCheckpoint(ColdPath(pending).rest.rest.rest.rest.rest.rest);
    assert EndsWithCheckpoint(ColdPath(pending).rest.rest.rest);
  }

  // A cold boot emits a prefix of the checkpoints of the path its ownership
  // state chooses, all of them exactly when it succeeds.
  lemma ColdBootEmitsPrefix(plan: Plan)
    ensures var path := ColdPath(Pending(plan));
            && Emitted(Done(path, plan)) <= PathCheckpoints(path)
            && (Emitted(Done(path, plan)) == PathCheckpoints(path) <==> Outcome(path, plan).Ok?)
  {
    ColdPathEndsWithCheckpoint(Pending(plan));
    EmittedIsPrefix(ColdPath(Pending(plan)), plan);
  }

  // ---------------------------------------------------------------------------
  // Milestones across resets
  // ---------------------------------------------------------------------------

  // The four milestones of a cold boot, as set or not.
  datatype Marks = Marks(rom: bool, bootGo: bool, fuses: bool, complete: bool)

  function MarksOf(h: bv16): Marks {
    Marks(h & ROM_STARTED != 0, h & CPTRA_BOOT_GO_ASSERTED != 0, h & CPTRA_FUSES_WRITTEN != 0, h & COLD_BOOT_FLOW_COMPLETE != 0)
  }

  // Cold boot complete implies fuses written implies boot go implies ROM started.
  predicate Ordered(m: Marks) {
    (m.complete ==> m.fuses) && (m.fuses ==> m.bootGo) && (m.bootGo ==> m.rom)
  }

  function Mark(m: Marks, milestone: bv16): Marks {
    Marks(m.rom || milestone == ROM_STARTED,
          m.bootGo || milestone == CPTRA_BOOT_GO_ASSERTED,
          m.fuses || milestone == CPTRA_FUSES_WRITTEN,
          m.complete || milestone == COLD_BOOT_FLOW_COMPLETE)
  }

  predicate OfAFlow(milestone: bv16) {
    milestone in {ROM_STARTED, CPTRA_BOOT_GO_ASSERTED, CPTRA_FUSES_WRITTEN, COLD_BOOT_FLOW_COMPLETE,
                  WARM_RESET_FLOW_COMPLETE, FIRMWARE_BOOT_FLOW_COMPLETE}
  }

  lemma MarksOfOr(h: bv16, milestone: bv16, h': bv16)
    requires OfAFlow(milestone) && h' == h | milestone
    ensures MarksOf(h') == Mark(MarksOf(h), milestone)
  {
    if milestone == ROM_STARTED { } else if milestone == CPTRA_BOOT_GO_ASSERTED { }
    else if milestone == CPTRA_FUSES_WRITTEN { } else if milestone == COLD_BOOT_FLOW_COMPLETE { }
    else if milestone == WARM_RESET_FLOW_COMPLETE { } else { }
  }

  function MarksAfter(m: Marks, items: seq<Item<Step>>): Marks
    decreases |items|
  {
    if items == [] then m
    else MarksAfter(if items[0].Ms? then Mark(m, items[0].milestone) else m, items[1..])
  }

  lemma {:induction false} StatusAfterFirst(status: bv32, first: Item<Step>, items: seq<Item<Step>>)
    ensures StatusAfter(status, [first] + items) == StatusAfter(StatusWith(status, first), items)
  {
    if items == [] {
      assert [first] + items == [] + [first];
      StatusUnfolds(status, [], first);
    } else {
      var n := |items| - 1;
      StatusAfterFirst(status, first, items[..n]);
      assert ([first] + items) == ([first] + items[..n]) + [items[n]];
      StatusUnfolds(status, [first] + items[..n], items[n]);
    }
  }

  lemma MarksWith(status: bv32, item: Item<Step>)
    requires item.Ms? ==> OfAFlow(item.milestone)
    ensures MarksOf(Milestones(StatusWith(status, item))) ==
            if item.Ms? then Mark(MarksOf(Milestones(status)), item.milestone) else MarksOf(Milestones(status))
  {
    HalvesWith(status, item);
    if item.Ms? {
      MarksOfOr(Milestones(status), item.milestone, Milestones(StatusWith(status, item)));
    }
  }

  lemma {:induction false} RegisterMarks(status: bv32, items: seq<Item<Step>>)
    requires forall i :: 0 <= i < |items| && items[i].Ms? ==> OfAFlow(items[i].milestone)
    ensures MarksOf(Milestones(StatusAfter(status, items))) == MarksAfter(MarksOf(Milestones(status)), items)
    decreases |items|
  {
    if items != [] {
      MarksWith(status, items[0]);
      RegisterMarks(StatusWith(status, items[0]), items[1..]);
      StatusAfterFirst(status, items[0], items[1..]);
      assert items == [items[0]] + items[1..];
    }
  }

  lemma {:induction false} MarksIff(m: Marks, items: seq<Item<Step>>)
    ensures MarksAfter(m, items) ==
            Marks(m.rom || Ms(0x0001) in items, m.bootGo || Ms(0x0002) in items,
                  m.fuses || Ms(0x0004) in items, m.complete || Ms(0x0020) in items)
    decreases |items|
  {
    if items != [] {
      MarksIff(if items[0].Ms? then Mark(m, items[0].milestone) else m, items[1..]);
      assert items == [items[0]] + items[1..];
    }
  }

  lemma ColdBootMarks(status: bv32, plan: Plan, items: seq<Item<Step>>)
    requires items == Done(ColdPath(Pending(plan)), plan)
    ensures MarksOf(Milestones(StatusAfter(status, items))) == MarksAfter(MarksOf(Milestones(status)), items)
  {
    forall i | 0 <= i < |items| && items[i].Ms?
      ensures OfAFlow(items[i].milestone)
    {
      ColdBootReachesIff(plan, items[i]);
    }
    RegisterMarks(status, items);
  }

  // The milestones in the register after a cold boot: boot go if the steps up to the
  // configuration of Caliptra succeeded, fuses written if those up to their population
  // did, complete if all that is asked for was granted; and those set before.
  lemma ColdBootSetsMilestones(status: bv32, plan: Plan)
    ensures var before, after := Milestones(status), Milestones(StatusAfter(status, Done(ColdPath(Pending(plan)), plan)));
            && after & 0x0001 != 0
            && (after & 0x0002 != 0 <==> before & 0x0002 != 0 || AllOk(plan, ColdSteps(Pending(plan)), 4))
            && (after & 0x0004 != 0 <==> before & 0x0004 != 0 || AllOk(plan, ColdSteps(Pending(plan)), 5))
            && (after & 0x0020 != 0 <==> before & 0x0020 != 0 || ColdBootSucceeds(plan))
  {
    var items := Done(ColdPath(Pending(plan)), plan);
    ColdBootMarks(status, plan, items);
    MarksIff(MarksOf(Milestones(status)), items);
    ColdBootReachesIff(plan, Ms(0x0001));
    ColdBootReachesIff(plan, Ms(0x0002));
    ColdBootReachesIff(plan, Ms(0x0004));
    ColdBootOkIff(plan);
  }

  // The path sets only milestones of the flows, and in order, if `known` are set
  // before it.
  predicate KeepsOrder(path: Path, known: Marks) {
    match path
    case End => true
    case Then(item, rest) =>
      if item.Ms? then
        && OfAFlow(item.milestone)
        && (Ordered(known) ==> Ordered(Mark(known, item.milestone)))
        && KeepsOrder(rest, Mark(known, item.milestone))
      else KeepsOrder(rest, known)
  }

  predicate Within(known: Marks, m: Marks) {
    (known.rom ==> m.rom) && (known.bootGo ==> m.bootGo) && (known.fuses ==> m.fuses) && (known.complete ==> m.complete)
  }

  lemma {:induction false} RunKeepsOrder(path: Path, plan: Plan, known: Marks, m: Marks)
    requires Ordered(known) && Ordered(m) && Within(known, m) && KeepsOrder(path, known)
    ensures Ordered(MarksAfter(m, Done(path, plan)))
    ensures forall i :: 0 <= i < |Done(path, plan)| && Done(path, plan)[i].Ms? ==> OfAFlow(Done(path, plan)[i].milestone)
    decreases path
  {
    match path
    case End =>
    case Then(item, rest) =>
      if item.Do? && StepResult(plan, item.step).Err? {
        assert [item][1..] == [];
      } else {
        var known' := if item.Ms? then Mark(known, item.milestone) else known;
        var m' := if item.Ms? then Mark(m, item.milestone) else m;
        RunKeepsOrder(rest, plan, known', m');
        assert ([item] + Done(rest, plan))[1..] == Done(rest, plan);
      }
  }

  lemma ColdPathKeepsOrder(pending: bool)
    ensures KeepsOrder(ColdPath(pending), Marks(true, false, false, false))
  {
    var all := Marks(true, true, true, false);
    assert KeepsOrder(FirmwarePath(), all);
    assert KeepsOrder(TransferPath(FirmwarePath()), all) by {
      assert KeepsOrder(TransferPath(FirmwarePath()).rest.rest.rest, all);
    }
    assert KeepsOrder(OwnershipPath(pending, FirmwarePath()), all) by {
      assert KeepsOrder(OwnershipPath(pending, FirmwarePath()).rest.rest.rest, all);
    }
    var c := CaliptraPath(pending);
    assert KeepsOrder(c.rest.rest.rest.rest.rest, all);
    assert KeepsOrder(c.rest.rest, Marks(true, true, false, false));
    assert KeepsOrder(c, Marks(true, false, false, false));
    assert KeepsOrder(ColdPath(pending).rest.rest.rest.rest.rest, Marks(true, false, false, false));
    assert KeepsOrder(ColdPath(pending).rest.rest, Marks(true, false, false, false));
  }

  lemma BootPathKeepsOrder(resetReason: bv32, pending: bool)
    ensures KeepsOrder(BootPath(resetReason, pending), Marks(false, false, false, false))
  {
    ColdPathKeepsOrder(pending);
    assert KeepsOrder(WarmPath(), Marks(true, false, false, false)) by {
      assert KeepsOrder(WarmPath().rest.rest.rest, Marks(true, false, false, false));
    }
    assert KeepsOrder(FirmwareBootPath(), Marks(true, false, false, false)) by {
      assert KeepsOrder(FirmwareBootPath().rest.rest.rest, Marks(true, false, false, false));
    }
    assert KeepsOrder(HitlessPath(), Marks(true, false, false, false)) by {
      assert KeepsOrder(HitlessPath().rest.rest.rest, Marks(true, false, false, false));
    }
  }

  // One reset: its reason and how its flow goes.
  datatype Boot = Boot(resetReason: bv32, plan: Plan)

  function BootItems(boot: Boot): seq<Item<Step>> {
    Done(BootPath(boot.resetReason, Pending(boot.plan)), boot.plan)
  }

  function AfterBoots(status: bv32, boots: seq<Boot>): bv32 {
    if boots == [] then status
    else StatusAfter(AfterBoots(status, boots[..|boots| - 1]), BootItems(boots[|boots| - 1]))
  }

  // Over every sequence of resets of any kind and outcome the milestones stay in order.
  lemma {:induction false} MilestonesStayOrdered(status: bv32, boots: seq<Boot>)
    requires Ordered(MarksOf(Milestones(status)))
    ensures Ordered(MarksOf(Milestones(AfterBoots(status, boots))))
  {
    if boots != [] {
      var before, boot := AfterBoots(status, boots[..|boots| - 1]), boots[|boots| - 1];
      MilestonesStayOrdered(status, boots[..|boots| - 1]);
      BootPathKeepsOrder(boot.resetReason, Pending(boot.plan));
      RunKeepsOrder(BootPath(boot.resetReason, Pending(boot.plan)), boot.plan, Marks(false, false, false, false), MarksOf(Milestones(before)));
      RegisterMarks(before, BootItems(boot));
    }
  }

  lemma MilestonesOrderedFromZero(boots: seq<Boot>)
    ensures Ordered(MarksOf(Milestones(AfterBoots(0, boots))))
  {
    assert Milestones(0) == 0;
    assert MarksOf(0) == Marks(false, false, false, false);
    MilestonesStayOrdered(0, boots);
  }

  lemma OrIncludes(a: bv16, b: bv16)
    ensures (a | b) & a == a
  {
  }

  // No checkpoint, milestone or step ever clears a milestone.
  lemma MilestonesAreSticky(status: bv32, items: seq<Item<Step>>)
    ensures Milestones(StatusAfter(status, items)) & Milestones(status) == Milestones(status)
  {
    StatusPacking(status, items);
    OrIncludes(Milestones(status), AllMilestones(items));
  }
}
