// The firmware flow status register: sticky milestones in the high half, the
// last checkpoint in the low half.
module BootStatus {

  const ROM_STARTED: bv16 := 0x0001
  const CPTRA_BOOT_GO_ASSERTED: bv16 := 0x0002
  const CPTRA_FUSES_WRITTEN: bv16 := 0x0004
  const COLD_BOOT_FLOW_COMPLETE: bv16 := 0x0020
  const WARM_RESET_FLOW_COMPLETE: bv16 := 0x0040
  const FIRMWARE_BOOT_FLOW_COMPLETE: bv16 := 0x0080

  datatype Checkpoint =
    | McuMemoryMapInitialized
    | StrapsLoaded
    | McuRegistersInitialized
    | CaliptraBootGoAsserted
    | FusesPopulatedToCaliptra
    | CaliptraReadyForMailbox
    | OwnershipFlashRead
    | OwnershipTransferStarted
    | OwnershipDeriveStableKey
    | OwnershipBurnFuses
    | OwnershipDetermineOwner
    | OwnershipTransferComplete
    | FirmwareValidationComplete
    | ColdBootFlowStarted
    | ColdBootFlowComplete
    | WarmResetFlowStarted
    | WarmResetFlowComplete
    | FirmwareBootFlowStarted
    | FirmwareBootFlowComplete
    | HitlessUpdateFlowStarted
    | HitlessUpdateFlowComplete

  function Code(c: Checkpoint): bv16 {
    match c
    case McuMemoryMapInitialized => 2
    case StrapsLoaded => 3
    case McuRegistersInitialized => 4
    case CaliptraBootGoAsserted => 193
    case FusesPopulatedToCaliptra => 197
    case CaliptraReadyForMailbox => 204
    case OwnershipFlashRead => 205
    case OwnershipTransferStarted => 206
    case OwnershipDeriveStableKey => 207
    case OwnershipBurnFuses => 208
    case OwnershipDetermineOwner => 209
    case OwnershipTransferComplete => 210
    case FirmwareValidationComplete => 262
    case ColdBootFlowStarted => 385
    case ColdBootFlowComplete => 386
    case WarmResetFlowStarted => 387
    case WarmResetFlowComplete => 388
    case FirmwareBootFlowStarted => 389
    case FirmwareBootFlowComplete => 390
    case HitlessUpdateFlowStarted => 391
    case HitlessUpdateFlowComplete => 392
  }

  lemma CodesAreDistinct(c: Checkpoint, d: Checkpoint)
    requires Code(c) == Code(d)
    ensures c == d
  {
  }

  function Milestones(status: bv32): bv16 {
    ((status >> 16) & 0xFFFF) as bv16
  }

  function LastCheckpoint(status: bv32): bv16 {
    (status & 0xFFFF) as bv16
  }

  lemma RegisterHalves(milestones: bv16, checkpoint: bv16)
    ensures var status := ((milestones as bv32) << 16) | (checkpoint as bv32);
            Milestones(status) == milestones && LastCheckpoint(status) == checkpoint
  {
  }

  // set_flow_checkpoint and set_flow_milestone, on the register's value.
  function WithCheckpoint(status: bv32, checkpoint: bv16): bv32 {
    ((Milestones(status) as bv32) << 16) | (checkpoint as bv32)
  }

  function WithMilestone(status: bv32, milestone: bv16): bv32 {
    ((milestone as bv32) << 16) | status
  }

  lemma CheckpointHalves(status: bv32, checkpoint: bv16)
    ensures Milestones(WithCheckpoint(status, checkpoint)) == Milestones(status)
    ensures LastCheckpoint(WithCheckpoint(status, checkpoint)) == checkpoint
  {
  }

  lemma MilestoneHalves(status: bv32, milestone: bv16)
    ensures Milestones(WithMilestone(status, milestone)) == Milestones(status) | milestone
    ensures LastCheckpoint(WithMilestone(status, milestone)) == LastCheckpoint(status)
  {
  }

  // What a boot flow does, one item at a time; Do marks a step that was tried.
  datatype Item<Step> = Cp(checkpoint: Checkpoint) | Ms(milestone: bv16) | Do(step: Step)

  function StatusWith<Step>(status: bv32, item: Item<Step>): bv32 {
    match item
    case Cp(c) => WithCheckpoint(status, Code(c))
    case Ms(m) => WithMilestone(status, m)
    case Do(_) => status
  }

  function StatusAfter<Step>(status: bv32, items: seq<Item<Step>>): bv32 {
    if items == [] then status else StatusWith(StatusAfter(status, items[..|items| - 1]), items[|items| - 1])
  }

  function AllMilestones<Step>(items: seq<Item<Step>>): bv16 {
    if items == [] then 0
    else if items[|items| - 1].Ms? then AllMilestones(items[..|items| - 1]) | items[|items| - 1].milestone
    else AllMilestones(items[..|items| - 1])
  }

  function CheckpointOf<Step>(before: bv16, items: seq<Item<Step>>): bv16 {
    if items == [] then before
    else if items[|items| - 1].Cp? then Code(items[|items| - 1].checkpoint)
    else CheckpointOf(before, items[..|items| - 1])
  }

  lemma HalvesWith<Step>(status: bv32, item: Item<Step>)
    ensures Milestones(StatusWith(status, item)) ==
            if item.Ms? then Milestones(status) | item.milestone else Milestones(status)
    ensures LastCheckpoint(StatusWith(status, item)) ==
            if item.Cp? then Code(item.checkpoint) else LastCheckpoint(status)
  {
    match item
    case Cp(c) => CheckpointHalves(status, Code(c));
    case Ms(m) => MilestoneHalves(status, m);
    case Do(_) =>
  }

  // The milestones set one after the other, starting from h.
  function Raised<Step>(h: bv16, items: seq<Item<Step>>): bv16 {
    if items == [] then h
    else if items[|items| - 1].Ms? then Raised(h, items[..|items| - 1]) | items[|items| - 1].milestone
    else Raised(h, items[..|items| - 1])
  }

  lemma OrFacts(a: bv16, b: bv16, c: bv16)
    ensures a | 0 == a && (a | b) | c == a | (b | c)
  {
  }

  lemma {:induction false} RaisedIsOr<Step>(h: bv16, items: seq<Item<Step>>)
    ensures Raised(h, items) == h | AllMilestones(items)
  {
    if items == [] {
      OrFacts(h, 0, 0);
    } else {
      var before, item := items[..|items| - 1], items[|items| - 1];
      RaisedIsOr(h, before);
      if item.Ms? {
        OrFacts(h, AllMilestones(before), item.milestone);
      }
    }
  }

  lemma {:induction false} HighHalf<Step>(status: bv32, items: seq<Item<Step>>)
    ensures Milestones(StatusAfter(status, items)) == Raised(Milestones(status), items)
  {
    if items != [] {
      HighHalf(status, items[..|items| - 1]);
      HalvesWith(StatusAfter(status, items[..|items| - 1]), items[|items| - 1]);
    }
  }

  lemma {:induction false} LowHalf<Step>(status: bv32, items: seq<Item<Step>>)
    ensures LastCheckpoint(StatusAfter(status, items)) == CheckpointOf(LastCheckpoint(status), items)
  {
    if items != [] {
      LowHalf(status, items[..|items| - 1]);
      HalvesWith(StatusAfter(status, items[..|items| - 1]), items[|items| - 1]);
    }
  }

  // After any sequence of calls the high half is everything ever set, the low
  // half the last checkpoint.
  lemma StatusPacking<Step>(status: bv32, items: seq<Item<Step>>)
    ensures Milestones(StatusAfter(status, items)) == Milestones(status) | AllMilestones(items)
    ensures LastCheckpoint(StatusAfter(status, items)) == CheckpointOf(LastCheckpoint(status), items)
  {
    HighHalf(status, items);
    RaisedIsOr(Milestones(status), items);
    LowHalf(status, items);
  }
}
