// The MCU mailbox AXI users: configuring them, locking them, and checking the
// configuration afterwards, over a register file with lock bits.
module AxiUsers {
  import opened Common

  const MCU_MBOX_USERS: nat := 5
  const MBOX_AXI_USER_COUNT: nat := 8

  const MBOX0_VALID_AXI_USER_BASE: nat := 0x80
  const MBOX0_AXI_USER_LOCK_BASE: nat := 0xA0
  const MBOX1_VALID_AXI_USER_BASE: nat := 0xC0
  const MBOX1_AXI_USER_LOCK_BASE: nat := 0xE0
  const REGISTER_SPACE: nat := 0x108

  // Which mailbox, by its two register banks.
  datatype Mbox = Mbox0 | Mbox1

  function Other(mbox: Mbox): Mbox { if mbox.Mbox0? then Mbox1 else Mbox0 }

  function UserReg(mbox: Mbox, i: nat): nat {
    (if mbox.Mbox0? then MBOX0_VALID_AXI_USER_BASE else MBOX1_VALID_AXI_USER_BASE) + 4 * i
  }

  function LockReg(mbox: Mbox, i: nat): nat {
    (if mbox.Mbox0? then MBOX0_AXI_USER_LOCK_BASE else MBOX1_AXI_USER_LOCK_BASE) + 4 * i
  }

  predicate LockBit(v: u32) { v % 2 == 1 }

  // The user register a set lock bit freezes, if the offset is one.
  predicate Frozen(regs: seq<u32>, offset: nat)
    requires |regs| == REGISTER_SPACE
  {
    || (MBOX0_VALID_AXI_USER_BASE <= offset < MBOX0_VALID_AXI_USER_BASE + 4 * MBOX_AXI_USER_COUNT && LockBit(regs[offset + 0x20]))
    || (MBOX1_VALID_AXI_USER_BASE <= offset < MBOX1_VALID_AXI_USER_BASE + 4 * MBOX_AXI_USER_COUNT && LockBit(regs[offset + 0x20]))
  }

  // Users and lock bits of both mailboxes, slot by slot.
  function User(regs: seq<u32>, mbox: Mbox, i: nat): u32
    requires |regs| == REGISTER_SPACE && i < MBOX_AXI_USER_COUNT
  {
    regs[UserReg(mbox, i)]
  }

  predicate IsLocked(regs: seq<u32>, mbox: Mbox, i: nat)
    requires |regs| == REGISTER_SPACE && i < MBOX_AXI_USER_COUNT
  {
    LockBit(regs[LockReg(mbox, i)])
  }

  // The two MCI calls that a configured slot makes, on the register file.
  function Stored(regs: seq<u32>, offset: nat, v: u32): (r: seq<u32>)
    requires |regs| == REGISTER_SPACE && offset < REGISTER_SPACE
    ensures |r| == REGISTER_SPACE
  {
    if Frozen(regs, offset) then regs else regs[offset := v]
  }

  function SlotConfigured(regs: seq<u32>, mbox: Mbox, i: nat, user: u32): (r: seq<u32>)
    requires |regs| == REGISTER_SPACE && i < MBOX_AXI_USER_COUNT
    ensures |r| == REGISTER_SPACE
  {
    if user == 0 then regs else Stored(Stored(regs, UserReg(mbox, i), user), LockReg(mbox, i), 1)
  }

  // A slot keeps a frozen user, takes the new one otherwise, and ends up locked;
  // every other slot of both mailboxes is untouched.
  lemma SlotEffect(regs: seq<u32>, mbox: Mbox, i: nat, user: u32)
    requires |regs| == REGISTER_SPACE && i < MBOX_AXI_USER_COUNT && user != 0
    ensures var r := SlotConfigured(regs, mbox, i, user);
            && IsLocked(r, mbox, i)
            && User(r, mbox, i) == (if IsLocked(regs, mbox, i) then User(regs, mbox, i) else user)
            && forall m, j :: 0 <= j < MBOX_AXI_USER_COUNT && (m != mbox || j != i) ==>
                 User(r, m, j) == User(regs, m, j) && (IsLocked(r, m, j) <==> IsLocked(regs, m, j))
  {
    var s := Stored(regs, UserReg(mbox, i), user);
    var r := Stored(s, LockReg(mbox, i), 1);
    assert r == s[LockReg(mbox, i) := 1];
    forall m, j | 0 <= j < MBOX_AXI_USER_COUNT && (m != mbox || j != i)
      ensures User(r, m, j) == User(regs, m, j) && (IsLocked(r, m, j) <==> IsLocked(regs, m, j))
    {
    }
  }

  // What verification expects to find.
  datatype SlotConfig = SlotConfig(user: Option<u32>, locked: bool)

  function Expected(user: u32): SlotConfig {
    if user == 0 then SlotConfig(None, false) else SlotConfig(Some(user), true)
  }

  predicate SlotMatches(regs: seq<u32>, mbox: Mbox, i: nat, expected: SlotConfig)
    requires |regs| == REGISTER_SPACE && i < MBOX_AXI_USER_COUNT
  {
    && (expected.user.Some? ==> expected.user.value == User(regs, mbox, i))
    && expected.locked == IsLocked(regs, mbox, i)
  }

  class Mci {
    var regs: array<u32>

    constructor (regs: array<u32>)
      requires regs.Length == REGISTER_SPACE
      ensures this.regs == regs
    {
      this.regs := regs;
    }

    predicate Valid()
      reads this
    {
      regs.Length == REGISTER_SPACE
    }

    method WriteReg(offset: nat, value: u32)
      requires Valid() && offset < REGISTER_SPACE
      modifies regs
      ensures regs[..] == Stored(old(regs[..]), offset, value)
    {
      var frozen := false;
      if MBOX0_VALID_AXI_USER_BASE <= offset < MBOX0_VALID_AXI_USER_BASE + 4 * MBOX_AXI_USER_COUNT {
        frozen := regs[offset + 0x20] % 2 == 1;
      } else if MBOX1_VALID_AXI_USER_BASE <= offset < MBOX1_VALID_AXI_USER_BASE + 4 * MBOX_AXI_USER_COUNT {
        frozen := regs[offset + 0x20] % 2 == 1;
      }
      if !frozen {
        regs[offset] := value;
      }
    }

    method ReadValidAxiUser(mbox: Mbox, i: nat) returns (v: Option<u32>)
      requires Valid()
      ensures v == if i < MBOX_AXI_USER_COUNT then Some(User(regs[..], mbox, i)) else None
    {
      if i >= MBOX_AXI_USER_COUNT {
        return None;
      }
      return Some(regs[UserReg(mbox, i)]);
    }

    method ReadAxiUserLock(mbox: Mbox, i: nat) returns (v: Option<bool>)
      requires Valid()
      ensures v == if i < MBOX_AXI_USER_COUNT then Some(IsLocked(regs[..], mbox, i)) else None
    {
      if i >= MBOX_AXI_USER_COUNT {
        return None;
      }
      return Some(regs[LockReg(mbox, i)] % 2 == 1);
    }

    method WriteValidAxiUser(mbox: Mbox, i: nat, value: u32) returns (ok: bool)
      requires Valid()
      modifies regs
      ensures ok == (i < MBOX_AXI_USER_COUNT)
      ensures regs[..] == if ok then Stored(old(regs[..]), UserReg(mbox, i), value) else old(regs[..])
    {
      if i >= MBOX_AXI_USER_COUNT {
        return false;
      }
      WriteReg(UserReg(mbox, i), value);
      return true;
    }

    method LockAxiUser(mbox: Mbox, i: nat) returns (ok: bool)
      requires Valid()
      modifies regs
      ensures ok == (i < MBOX_AXI_USER_COUNT)
      ensures regs[..] == if ok then Stored(old(regs[..]), LockReg(mbox, i), 1) else old(regs[..])
    {
      if i >= MBOX_AXI_USER_COUNT {
        return false;
      }
      WriteReg(LockReg(mbox, i), 1);
      return true;
    }
  }

  // What the slots below n of one mailbox became, out of the registers before.
  ghost predicate ConfiguredBelow(before: seq<u32>, after: seq<u32>, mbox: Mbox, users: seq<u32>, n: nat)
    requires |before| == |after| == REGISTER_SPACE && |users| == MCU_MBOX_USERS && n <= MBOX_AXI_USER_COUNT
  {
    forall i :: 0 <= i < n ==>
      if i < MCU_MBOX_USERS && users[i] != 0 then
        && IsLocked(after, mbox, i)
        && User(after, mbox, i) == (if IsLocked(before, mbox, i) then User(before, mbox, i) else users[i])
      else
        User(after, mbox, i) == User(before, mbox, i) && (IsLocked(after, mbox, i) <==> IsLocked(before, mbox, i))
  }

  ghost predicate SameSlots(before: seq<u32>, after: seq<u32>, mbox: Mbox, from: nat)
    requires |before| == |after| == REGISTER_SPACE
  {
    forall i :: from <= i < MBOX_AXI_USER_COUNT ==>
      User(after, mbox, i) == User(before, mbox, i) && (IsLocked(after, mbox, i) <==> IsLocked(before, mbox, i))
  }

  // One of the two loops of configure_mcu_mbox_axi_users.
  method ConfigureMbox(mci: Mci, mbox: Mbox, users: seq<u32>) returns (config: seq<SlotConfig>)
    requires mci.Valid() && |users| == MCU_MBOX_USERS
    modifies mci.regs
    ensures |config| == MCU_MBOX_USERS && forall i :: 0 <= i < MCU_MBOX_USERS ==> config[i] == Expected(users[i])
    ensures ConfiguredBelow(old(mci.regs[..]), mci.regs[..], mbox, users, MCU_MBOX_USERS)
    ensures SameSlots(old(mci.regs[..]), mci.regs[..], mbox, MCU_MBOX_USERS)
    ensures SameSlots(old(mci.regs[..]), mci.regs[..], Other(mbox), 0)
  {
    config := seq(MCU_MBOX_USERS, _ => SlotConfig(None, false));
    ghost var before := mci.regs[..];
    for i := 0 to MCU_MBOX_USERS
      invariant |config| == MCU_MBOX_USERS
      invariant forall k :: 0 <= k < MCU_MBOX_USERS ==> config[k] == if k < i then Expected(users[k]) else SlotConfig(None, false)
      invariant ConfiguredBelow(before, mci.regs[..], mbox, users, i)
      invariant SameSlots(before, mci.regs[..], mbox, i)
      invariant SameSlots(before, mci.regs[..], Other(mbox), 0)
    {
      if users[i] != 0 {
        ghost var regs := mci.regs[..];
        config := config[i := SlotConfig(Some(users[i]), true)];
        var written := mci.WriteValidAxiUser(mbox, i, users[i]);
        var locked := mci.LockAxiUser(mbox, i);
        assert mci.regs[..] == SlotConfigured(regs, mbox, i, users[i]);
        SlotEffect(regs, mbox, i, users[i]);
        assert SameSlots(regs, mci.regs[..], Other(mbox), 0);
      }
    }
  }

  // Configuring one mailbox before or after the other makes no difference to it.
  lemma SlotsCompose(before: seq<u32>, middle: seq<u32>, after: seq<u32>, mbox: Mbox, users: seq<u32>)
    requires |before| == |middle| == |after| == REGISTER_SPACE && |users| == MCU_MBOX_USERS
    requires ConfiguredBelow(before, middle, mbox, users, MCU_MBOX_USERS) && SameSlots(before, middle, mbox, MCU_MBOX_USERS)
    requires SameSlots(middle, after, mbox, 0)
    ensures ConfiguredBelow(before, after, mbox, users, MCU_MBOX_USERS) && SameSlots(before, after, mbox, MCU_MBOX_USERS)
  {
    forall i | 0 <= i < MBOX_AXI_USER_COUNT
      ensures User(after, mbox, i) == User(middle, mbox, i) && (IsLocked(after, mbox, i) <==> IsLocked(middle, mbox, i))
    {
    }
  }

  lemma SlotsCompose'(before: seq<u32>, middle: seq<u32>, after: seq<u32>, mbox: Mbox, users: seq<u32>)
    requires |before| == |middle| == |after| == REGISTER_SPACE && |users| == MCU_MBOX_USERS
    requires SameSlots(before, middle, mbox, 0)
    requires ConfiguredBelow(middle, after, mbox, users, MCU_MBOX_USERS) && SameSlots(middle, after, mbox, MCU_MBOX_USERS)
    ensures ConfiguredBelow(before, after, mbox, users, MCU_MBOX_USERS) && SameSlots(before, after, mbox, MCU_MBOX_USERS)
  {
    forall i | 0 <= i < MBOX_AXI_USER_COUNT
      ensures User(before, mbox, i) == User(middle, mbox, i) && (IsLocked(before, mbox, i) <==> IsLocked(middle, mbox, i))
    {
    }
  }

  method ConfigureMcuMboxAxiUsers(mci: Mci, users0: seq<u32>, users1: seq<u32>)
    returns (config0: seq<SlotConfig>, config1: seq<SlotConfig>)
    requires mci.Valid() && |users0| == |users1| == MCU_MBOX_USERS
    modifies mci.regs
    ensures |config0| == |config1| == MCU_MBOX_USERS
    ensures forall i :: 0 <= i < MCU_MBOX_USERS ==> config0[i] == Expected(users0[i]) && config1[i] == Expected(users1[i])
    ensures ConfiguredBelow(old(mci.regs[..]), mci.regs[..], Mbox0, users0, MCU_MBOX_USERS)
    ensures ConfiguredBelow(old(mci.regs[..]), mci.regs[..], Mbox1, users1, MCU_MBOX_USERS)
    ensures SameSlots(old(mci.regs[..]), mci.regs[..], Mbox0, MCU_MBOX_USERS)
    ensures SameSlots(old(mci.regs[..]), mci.regs[..], Mbox1, MCU_MBOX_USERS)
  {
    ghost var before := mci.regs[..];
    config0 := ConfigureMbox(mci, Mbox0, users0);
    ghost var middle := mci.regs[..];
    config1 := ConfigureMbox(mci, Mbox1, users1);
    SlotsCompose(before, middle, mci.regs[..], Mbox0, users0);
    SlotsCompose'(before, middle, mci.regs[..], Mbox1, users1);
  }

  // One of the two loops of verify_mcu_mbox_axi_users.
  method VerifyMbox(mci: Mci, mbox: Mbox, expected: seq<SlotConfig>) returns (r: Result<()>)
    requires mci.Valid() && |expected| == MCU_MBOX_USERS
    ensures r.Ok? <==> forall i :: 0 <= i < MCU_MBOX_USERS ==> SlotMatches(mci.regs[..], mbox, i, expected[i])
    ensures r.Err? ==> r.error == MboxInvalidResponse
  {
    for i := 0 to MCU_MBOX_USERS
      invariant forall k :: 0 <= k < i ==> SlotMatches(mci.regs[..], mbox, k, expected[k])
    {
      if expected[i].user.Some? {
        var actual := mci.ReadValidAxiUser(mbox, i);
        var actualVal := if actual.Some? then actual.value else 0;
        if expected[i].user.value != actualVal {
          assert !SlotMatches(mci.regs[..], mbox, i, expected[i]);
          return Err(MboxInvalidResponse);
        }
      }
      var lock := mci.ReadAxiUserLock(mbox, i);
      var actualLocked := if lock.Some? then lock.value else false;
      if expected[i].locked != actualLocked {
        assert !SlotMatches(mci.regs[..], mbox, i, expected[i]);
        return Err(MboxInvalidResponse);
      }
    }
    return Ok(());
  }

  method VerifyMcuMboxAxiUsers(mci: Mci, expected0: seq<SlotConfig>, expected1: seq<SlotConfig>) returns (r: Result<()>)
    requires mci.Valid() && |expected0| == |expected1| == MCU_MBOX_USERS
    ensures r.Ok? <==> forall i :: 0 <= i < MCU_MBOX_USERS ==>
              SlotMatches(mci.regs[..], Mbox0, i, expected0[i]) && SlotMatches(mci.regs[..], Mbox1, i, expected1[i])
    ensures r.Err? ==> r.error == MboxInvalidResponse
  {
    r := VerifyMbox(mci, Mbox0, expected0);
    if r.Ok? {
      r := VerifyMbox(mci, Mbox1, expected1);
    }
  }

  // Whether a slot of the registers found at boot lets the configuration through:
  // it is unlocked, or it is configured and locked on the wanted user already.
  predicate SlotAdmits(regs: seq<u32>, mbox: Mbox, i: nat, user: u32)
    requires |regs| == REGISTER_SPACE && i < MBOX_AXI_USER_COUNT
  {
    !IsLocked(regs, mbox, i) || (user != 0 && User(regs, mbox, i) == user)
  }

  lemma MatchesIffAdmits(before: seq<u32>, after: seq<u32>, mbox: Mbox, users: seq<u32>, i: nat)
    requires |before| == |after| == REGISTER_SPACE && |users| == MCU_MBOX_USERS && i < MCU_MBOX_USERS
    requires ConfiguredBelow(before, after, mbox, users, MCU_MBOX_USERS)
    ensures SlotMatches(after, mbox, i, Expected(users[i])) <==> SlotAdmits(before, mbox, i, users[i])
  {
    assert users[i] != 0 ==> IsLocked(after, mbox, i);
  }

  // The same by register offset: users at 0x80 and 0xC0, locks 0x20 above them.
  lemma AdmitsByOffset(regs: seq<u32>, i: nat, user: u32)
    requires |regs| == REGISTER_SPACE && i < 5
    ensures SlotAdmits(regs, Mbox0, i, user)
            <==> regs[0xA0 + 4 * i] % 2 == 0 || (user != 0 && regs[0x80 + 4 * i] == user)
    ensures SlotAdmits(regs, Mbox1, i, user)
            <==> regs[0xE0 + 4 * i] % 2 == 0 || (user != 0 && regs[0xC0 + 4 * i] == user)
  {
  }

  // Verification after configuration succeeds exactly when the registers found
  // at boot admit the wanted users.
  method ConfigureThenVerify(mci: Mci, users0: seq<u32>, users1: seq<u32>) returns (r: Result<()>)
    requires mci.Valid() && |users0| == |users1| == 5
    modifies mci.regs
    ensures r.Ok? <==> forall i :: 0 <= i < 5 ==>
              && (old(mci.regs[0xA0 + 4 * i]) % 2 == 0 || (users0[i] != 0 && old(mci.regs[0x80 + 4 * i]) == users0[i]))
              && (old(mci.regs[0xE0 + 4 * i]) % 2 == 0 || (users1[i] != 0 && old(mci.regs[0xC0 + 4 * i]) == users1[i]))
    ensures r.Err? ==> r.error == MboxInvalidResponse
  {
    ghost var before := mci.regs[..];
    var config0, config1 := ConfigureMcuMboxAxiUsers(mci, users0, users1);
    r := VerifyMcuMboxAxiUsers(mci, config0, config1);
    forall i | 0 <= i < MCU_MBOX_USERS
      ensures SlotMatches(mci.regs[..], Mbox0, i, config0[i]) <==> SlotAdmits(before, Mbox0, i, users0[i])
      ensures SlotMatches(mci.regs[..], Mbox1, i, config1[i]) <==> SlotAdmits(before, Mbox1, i, users1[i])
    {
      MatchesIffAdmits(before, mci.regs[..], Mbox0, users0, i);
      MatchesIffAdmits(before, mci.regs[..], Mbox1, users1, i);
    }
    forall i | 0 <= i < 5
      ensures SlotAdmits(before, Mbox0, i, users0[i])
              <==> before[0xA0 + 4 * i] % 2 == 0 || (users0[i] != 0 && before[0x80 + 4 * i] == users0[i])
      ensures SlotAdmits(before, Mbox1, i, users1[i])
              <==> before[0xE0 + 4 * i] % 2 == 0 || (users1[i] != 0 && before[0xC0 + 4 * i] == users1[i])
    {
      AdmitsByOffset(before, i, users0[i]);
      AdmitsByOffset(before, i, users1[i]);
    }
  }
}
