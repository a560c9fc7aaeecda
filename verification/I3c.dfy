// The I3C byte transfers, against a bus that drains and fills the FIFOs at
// arbitrary times. The waits of the driver spin without a bound; here they are
// given a number of level reads, so that every point of a transfer that still
// spins is covered, and one that ends does so within some such number.
module I3c {
  import opened Common

  const TX_LIMIT: nat := 16

  datatype TransferResult = TransferResult(bytesTransferred: nat, success: bool, errorCode: u8)

  // What is left of a FIFO of len bytes when the bus takes up to n.
  function Drained(len: nat, n: nat): nat { if n <= len then len - n else 0 }

  // The controller's FIFOs. Just before level read number n the bus takes up to
  // takes(n) bytes out of TX and puts brings(n) into RX.
  class Controller {
    const takes: nat -> nat
    const brings: nat -> seq<u8>
    var levelReads: nat
    var tx: seq<u8>
    var rx: seq<u8>
    var sent: seq<u8>

    constructor (takes: nat -> nat, brings: nat -> seq<u8>, tx: seq<u8>, rx: seq<u8>)
      ensures this.takes == takes && this.brings == brings && this.tx == tx && this.rx == rx
      ensures levelReads == 0 && sent == []
    {
      this.takes, this.brings, this.tx, this.rx := takes, brings, tx, rx;
      levelReads, sent := 0, [];
    }

    // Everything that ever went through TX.
    ghost function Outgoing(): seq<u8>
      reads this
    {
      sent + tx
    }

    // REG_TX_FIFO_STATUS & 0x1F
    method TxFifoLevel() returns (level: nat)
      modifies `levelReads, `tx, `sent
      ensures levelReads == old(levelReads) + 1 && level == |tx| % 32
      ensures Outgoing() == old(Outgoing())
      ensures |tx| == Drained(|old(tx)|, takes(old(levelReads)))
    {
      var k := if takes(levelReads) <= |tx| then takes(levelReads) else |tx|;
      sent, tx := sent + tx[..k], tx[k..];
      levelReads := levelReads + 1;
      level := |tx| % 32;
    }

    // REG_RX_FIFO_STATUS & 0x1F
    method RxFifoLevel() returns (level: nat)
      modifies `levelReads, `rx
      ensures levelReads == old(levelReads) + 1 && level == |rx| % 32
      ensures rx == old(rx) + brings(old(levelReads))
    {
      rx := rx + brings(levelReads);
      levelReads := levelReads + 1;
      level := |rx| % 32;
    }

    // REG_TX_FIFO
    method Push(b: u8)
      modifies `tx
      ensures tx == old(tx) + [b] && Outgoing() == old(Outgoing()) + [b]
    {
      tx := tx + [b];
      assert Outgoing() == old(Outgoing()) + [b];
    }

    // REG_RX_FIFO & 0xFF
    method Pop() returns (b: u8)
      requires rx != []
      modifies `rx
      ensures b == old(rx)[0] && rx == old(rx)[1..]
    {
      b, rx := rx[0], rx[1..];
    }
  }

  ghost predicate DrainsWithin(takes: nat -> nat, n: nat, d: nat) {
    exists m: nat :: n <= m < n + d && takes(m) > 0
  }

  // Out of every d level reads in a row, before at least one the bus takes a byte.
  ghost predicate KeepsDraining(takes: nat -> nat, d: nat) {
    forall n: nat :: DrainsWithin(takes, n, d)
  }

  // A byte is pushed after a level read that shows room: 1 or 0.
  function Pushes(len: nat): nat { if len % 32 < TX_LIMIT then 1 else 0 }

  // The length of the FIFO, and the number of bytes pushed, when a writer that pushes after
  // every such read has made the level reads numbered `from` up to `to`.
  ghost function Level(takes: nat -> nat, len: nat, from: nat, to: nat): nat {
    if to <= from then len
    else
      var l := Drained(Level(takes, len, from, to - 1), takes(to - 1));
      l + Pushes(l)
  }

  ghost function Pushed(takes: nat -> nat, len: nat, from: nat, to: nat): nat {
    if to <= from then 0
    else Pushed(takes, len, from, to - 1) + Pushes(Drained(Level(takes, len, from, to - 1), takes(to - 1)))
  }

  // Writing on from what the reads up to `mid` left.
  lemma {:induction false} PushedSplits(takes: nat -> nat, len: nat, from: nat, mid: nat, to: nat)
    requires from <= mid <= to
    ensures var l := Level(takes, len, from, mid);
            && Level(takes, len, from, to) == Level(takes, l, mid, to)
            && Pushed(takes, len, from, to) == Pushed(takes, len, from, mid) + Pushed(takes, l, mid, to)
  {
    if mid < to {
      PushedSplits(takes, len, from, mid, to - 1);
    }
  }

  // A FIFO that is within the limit stays so, and no byte is pushed into one exactly as long
  // as it is full and nothing is taken.
  lemma {:induction false} PushesIff(takes: nat -> nat, len: nat, from: nat, to: nat)
    requires from < to && len <= 16
    ensures Level(takes, len, from, to) <= 16
    ensures Pushed(takes, len, from, to) == 0 <==> len == 16 && forall n: nat :: from <= n < to ==> takes(n) == 0
    ensures Pushed(takes, len, from, to) == 0 ==> Level(takes, len, from, to) == len
  {
    if from < to - 1 {
      PushesIff(takes, len, from, to - 1);
    }
  }

  // Below 32 bytes the level that is read is the level there is, and only what was over the
  // limit before is over it.
  lemma {:induction false} LevelIsBounded(takes: nat -> nat, len: nat, from: nat, to: nat)
    ensures len < 32 ==> Level(takes, len, from, to) <= if len <= 16 then 16 else len
  {
    if from < to {
      LevelIsBounded(takes, len, from, to - 1);
    }
  }

  lemma OneMore(len: nat, k: nat)
    requires len % 32 + k < 32
    ensures (len + k) % 32 == len % 32 + k
  {
  }

  // When the bus takes nothing, as many bytes are pushed as there seems to be room for: out
  // of every 32 bytes that are there, none seems to be.
  lemma {:induction false} NothingTaken(takes: nat -> nat, len: nat, from: nat, to: nat)
    requires from <= to && forall n: nat :: from <= n < to ==> takes(n) == 0
    ensures var room := if len % 32 < 16 then 16 - len % 32 else 0;
            Pushed(takes, len, from, to) == if to - from <= room then to - from else room
    ensures Level(takes, len, from, to) == len + Pushed(takes, len, from, to)
  {
    if from < to {
      NothingTaken(takes, len, from, to - 1);
      assert takes(to - 1) == 0;
      OneMore(len, Pushed(takes, len, from, to - 1));
    }
  }

  lemma OneMoreTaken(takes: nat -> nat, d: nat, len: nat, from: nat)
    requires KeepsDraining(takes, d) && len <= 16
    ensures Pushed(takes, len, from, from + d) > 0 && Level(takes, len, from, from + d) <= 16
  {
    assert DrainsWithin(takes, from, d);
    PushesIff(takes, len, from, from + d);
  }

  lemma MorePushes(takes: nat -> nat, len: nat, from: nat, mid: nat, to: nat)
    requires from <= mid <= to
    ensures Pushed(takes, len, from, mid) <= Pushed(takes, len, from, to)
  {
    PushedSplits(takes, len, from, mid, to);
  }

  lemma OneMoreInTime(takes: nat -> nat, d: nat, len: nat, from: nat, mid: nat, n: nat)
    requires KeepsDraining(takes, d) && from <= mid
    requires Pushed(takes, len, from, mid) >= n && Level(takes, len, from, mid) <= 16
    ensures Pushed(takes, len, from, mid + d) >= n + 1 && Level(takes, len, from, mid + d) <= 16
  {
    PushedSplits(takes, len, from, mid, mid + d);
    OneMoreTaken(takes, d, Level(takes, len, from, mid), mid);
  }

  // n times a, by addition.
  function Times(a: nat, n: nat): nat {
    if n == 0 then 0 else Times(a, n - 1) + a
  }

  lemma {:induction false} EachTakenInTime(takes: nat -> nat, d: nat, len: nat, from: nat, n: nat)
    requires KeepsDraining(takes, d) && len <= 16
    ensures Pushed(takes, len, from, from + Times(d, n)) >= n
    ensures Level(takes, len, from, from + Times(d, n)) <= 16
    decreases n
  {
    if n > 0 {
      EachTakenInTime(takes, d, len, from, n - 1);
      OneMoreInTime(takes, d, len, from, from + Times(d, n - 1), n - 1);
    }
  }

  lemma TimesNext(d: nat, i: nat)
    ensures d * (i + 1) == d * i + d
  {
  }

  lemma {:induction false} TimesIsProduct(a: nat, n: nat)
    ensures Times(a, n) == a * n
  {
    if n > 0 {
      TimesIsProduct(a, n - 1);
      TimesNext(a, n - 1);
    }
  }

  // So n bytes are written in any d * n level reads.
  lemma AllTakenInTime(takes: nat -> nat, d: nat, len: nat, from: nat, n: nat, patience: nat)
    requires KeepsDraining(takes, d) && len <= 16 && d * n <= patience
    ensures Pushed(takes, len, from, from + patience) >= n
  {
    TimesIsProduct(d, n);
    EachTakenInTime(takes, d, len, from, n);
    MorePushes(takes, len, from, from + Times(d, n), from + patience);
  }

  // A wait for room that found some, or not, in a FIFO of len bytes.
  ghost predicate Waiting(takes: nat -> nat, len: nat, from: nat, to: nat, len': nat, room: bool) {
    && Pushed(takes, len, from, to) == (if room then 1 else 0)
    && (room ==> from < to && Pushed(takes, len, from, to - 1) == 0)
    && Level(takes, len, from, to) == len' + if room then 1 else 0
  }

  // Such a wait goes on by one level read.
  lemma WaitGoesOn(takes: nat -> nat, len: nat, from: nat, now: nat, l: nat, l': nat)
    requires from <= now && Waiting(takes, len, from, now, l, false) && l' == Drained(l, takes(now))
    ensures Waiting(takes, len, from, now + 1, l', l' % 32 < TX_LIMIT)
  {
  }

  // How many bytes `patience` level reads would allow a writer without end.
  ghost function Allowance(takes: nat -> nat, len: nat, from: nat, patience: nat): nat {
    Pushed(takes, len, from, from + patience)
  }

  // It finds room within `patience` level reads exactly if a byte would be pushed in these.
  lemma WaitEnds(takes: nat -> nat, len: nat, from: nat, now: nat, patience: nat, l: nat, room: bool)
    requires from <= now <= from + patience && Waiting(takes, len, from, now, l, room)
    requires !room ==> now == from + patience
    ensures room <==> Allowance(takes, len, from, patience) > 0
  {
    MorePushes(takes, len, from, now, from + patience);
  }

  // The last of the level reads, if there were any, was followed by a push.
  ghost predicate JustPushed(takes: nat -> nat, len: nat, from: nat, to: nat) {
    from < to ==> Pushed(takes, len, from, to - 1) < Pushed(takes, len, from, to)
  }

  // Where a write stands after i bytes, with len' bytes in the FIFO: at a level read that
  // was followed by a push, and no further than `patience` level reads would get it.
  ghost predicate Writing(takes: nat -> nat, len: nat, from: nat, now: nat, patience: nat, i: nat, len': nat) {
    && from <= now <= from + patience && Level(takes, len, from, now) == len'
    && Pushed(takes, len, from, now) == i <= Allowance(takes, len, from, patience)
    && JustPushed(takes, len, from, now)
  }

  lemma JustPushedSplits(takes: nat -> nat, len: nat, from: nat, mid: nat, to: nat, l: nat)
    requires from <= mid < to && Level(takes, len, from, mid) == l
    ensures Level(takes, len, from, to) == Level(takes, l, mid, to)
    ensures Pushed(takes, len, from, to) == Pushed(takes, len, from, mid) + Pushed(takes, l, mid, to)
    ensures JustPushed(takes, len, from, to) <==> JustPushed(takes, l, mid, to)
  {
    assert Pushed(takes, len, from, to - 1) == Pushed(takes, len, from, mid) + Pushed(takes, l, mid, to - 1) by {
      PushedSplits(takes, len, from, mid, to - 1);
    }
    assert Pushed(takes, len, from, to) == Pushed(takes, len, from, mid) + Pushed(takes, l, mid, to)
        && Level(takes, len, from, to) == Level(takes, l, mid, to) by {
      PushedSplits(takes, len, from, mid, to);
    }
  }

  // In the middle of a write such a wait ends with room for one more byte,
  lemma WaitMakesRoom(takes: nat -> nat, len: nat, from: nat, before: nat, now: nat, patience: nat, i: nat, l: nat, l': nat)
    requires Writing(takes, len, from, before, patience, i, l) && Waiting(takes, l, before, now, l', true)
    requires before <= now <= from + patience
    ensures Writing(takes, len, from, now, patience, i + 1, l' + 1)
  {
    JustPushedSplits(takes, len, from, before, now, l);
    MorePushes(takes, len, from, now, from + patience);
  }

  // or with none and all patience gone.
  lemma NoRoomMade(takes: nat -> nat, len: nat, from: nat, before: nat, now: nat, patience: nat, i: nat, l: nat, l': nat)
    requires Writing(takes, len, from, before, patience, i, l) && Waiting(takes, l, before, now, l', false)
    requires before <= now == from + patience
    ensures Allowance(takes, len, from, patience) == i && Level(takes, len, from, now) == l'
  {
    PushedSplits(takes, len, from, before, now);
  }

  // What came in before the level reads numbered `from` up to `to`.
  ghost function Arrived(brings: nat -> seq<u8>, from: nat, to: nat): seq<u8> {
    if to <= from then [] else Arrived(brings, from, to - 1) + brings(to - 1)
  }

  // A byte is popped after a level read that shows something: after len bytes, 1 or 0.
  function Pops(len: nat): (n: nat)
    ensures n <= len
  {
    if len % 32 == 0 then 0 else 1
  }

  // How many bytes a reader that pops after every such read takes out of a FIFO of
  // len bytes, in the level reads numbered `from` up to `to`.
  ghost function Popped(brings: nat -> seq<u8>, len: nat, from: nat, to: nat): (n: nat)
    ensures n <= len + |Arrived(brings, from, to)|
  {
    if to <= from then 0
    else
      var n := Popped(brings, len, from, to - 1);
      n + Pops(len + |Arrived(brings, from, to)| - n)
  }

  // The last of the level reads, if there were any, was followed by a pop.
  ghost predicate JustPopped(brings: nat -> seq<u8>, len: nat, from: nat, to: nat) {
    from < to ==> Popped(brings, len, from, to - 1) < Popped(brings, len, from, to)
  }

  lemma {:induction false} ArrivedSplits(brings: nat -> seq<u8>, from: nat, mid: nat, to: nat)
    requires from <= mid <= to
    ensures Arrived(brings, from, to) == Arrived(brings, from, mid) + Arrived(brings, mid, to)
  {
    if mid < to {
      ArrivedSplits(brings, from, mid, to - 1);
    }
  }

  // Reading on from l bytes, which is what the reads up to `mid` left over.
  lemma {:induction false} PoppedSplits(brings: nat -> seq<u8>, len: nat, from: nat, mid: nat, to: nat, l: nat)
    requires from <= mid <= to && Popped(brings, len, from, mid) + l == len + |Arrived(brings, from, mid)|
    ensures Popped(brings, len, from, to) == Popped(brings, len, from, mid) + Popped(brings, l, mid, to)
  {
    if mid < to {
      PoppedSplits(brings, len, from, mid, to - 1, l);
      ArrivedSplits(brings, from, mid, to);
    }
  }

  lemma JustPoppedSplits(brings: nat -> seq<u8>, len: nat, from: nat, mid: nat, to: nat, l: nat)
    requires from <= mid < to && Popped(brings, len, from, mid) + l == len + |Arrived(brings, from, mid)|
    ensures Popped(brings, len, from, to) == Popped(brings, len, from, mid) + Popped(brings, l, mid, to)
    ensures JustPopped(brings, len, from, to) <==> JustPopped(brings, l, mid, to)
  {
    assert Popped(brings, len, from, to - 1) == Popped(brings, len, from, mid) + Popped(brings, l, mid, to - 1) by {
      PoppedSplits(brings, len, from, mid, to - 1, l);
    }
    assert Popped(brings, len, from, to) == Popped(brings, len, from, mid) + Popped(brings, l, mid, to) by {
      PoppedSplits(brings, len, from, mid, to, l);
    }
  }

  // Some level read finds bytes there whose number is not a multiple of 32.
  ghost predicate ShowsData(brings: nat -> seq<u8>, len: nat, from: nat, to: nat) {
    exists k: nat :: from < k <= to && Pops(len + |Arrived(brings, from, k)|) > 0
  }

  // A byte is popped exactly when that is so.
  lemma {:induction false} PopsIff(brings: nat -> seq<u8>, len: nat, from: nat, to: nat)
    ensures Popped(brings, len, from, to) > 0 <==> ShowsData(brings, len, from, to)
  {
    if from < to {
      PopsIff(brings, len, from, to - 1);
    }
  }

  lemma MorePops(brings: nat -> seq<u8>, len: nat, from: nat, mid: nat, to: nat)
    requires from <= mid <= to
    ensures Popped(brings, len, from, mid) <= Popped(brings, len, from, to)
  {
    PoppedSplits(brings, len, from, mid, to, len + |Arrived(brings, from, mid)| - Popped(brings, len, from, mid));
  }

  // What `patience` level reads would yield to a reader without end.
  ghost function Yield(brings: nat -> seq<u8>, len: nat, from: nat, patience: nat): nat {
    Popped(brings, len, from, from + patience)
  }

  // Where a read stands after i bytes: at a level read that was followed by a pop,
  // and no further than `patience` level reads would get it.
  ghost predicate Reading(brings: nat -> seq<u8>, len: nat, from: nat, now: nat, patience: nat, i: nat) {
    && from <= now <= from + patience
    && Popped(brings, len, from, now) == i <= Yield(brings, len, from, patience)
    && JustPopped(brings, len, from, now)
  }

  // The bytes moved so far and those in the FIFO are those of before and what arrived.
  ghost predicate InOrder(brings: nat -> seq<u8>, moved: seq<u8>, rx: seq<u8>, rx0: seq<u8>, from: nat, now: nat) {
    moved + rx == rx0 + Arrived(brings, from, now)
  }

  // A wait that saw bytes, or not, out of a FIFO of len bytes.
  ghost predicate Waited(brings: nat -> seq<u8>, len: nat, from: nat, to: nat, some: bool) {
    && Popped(brings, len, from, to) == (if some then 1 else 0)
    && (some ==> from < to && JustPopped(brings, len, from, to))
  }

  // In the middle of a read such a wait ends with one more byte,
  lemma WaitYields(brings: nat -> seq<u8>, moved: seq<u8>, rx: seq<u8>, rx0: seq<u8>, from: nat, before: nat,
      now: nat, patience: nat)
    requires Reading(brings, |rx0|, from, before, patience, |moved|) && InOrder(brings, moved, rx, rx0, from, before)
    requires before <= now <= from + patience && Waited(brings, |rx|, before, now, true)
    ensures Reading(brings, |rx0|, from, now, patience, |moved| + 1)
  {
    assert |moved + rx| == |rx0 + Arrived(brings, from, before)|;
    JustPoppedSplits(brings, |rx0|, from, before, now, |rx|);
    MorePops(brings, |rx0|, from, now, from + patience);
  }

  // or with no more bytes and all patience gone.
  lemma WaitIsInVain(brings: nat -> seq<u8>, moved: seq<u8>, rx: seq<u8>, rx0: seq<u8>, from: nat, before: nat,
      now: nat, patience: nat)
    requires Reading(brings, |rx0|, from, before, patience, |moved|) && InOrder(brings, moved, rx, rx0, from, before)
    requires now == from + patience && Waited(brings, |rx|, before, now, false)
    ensures Yield(brings, |rx0|, from, patience) == |moved|
  {
    assert |moved + rx| == |rx0 + Arrived(brings, from, before)|;
    PoppedSplits(brings, |rx0|, from, before, now, |rx|);
  }

  lemma StaysInOrder(brings: nat -> seq<u8>, moved: seq<u8>, rx: seq<u8>, rx': seq<u8>, rx0: seq<u8>,
      from: nat, before: nat, now: nat)
    requires from <= before <= now && InOrder(brings, moved, rx, rx0, from, before) && InOrder(brings, [], rx', rx, before, now)
    ensures InOrder(brings, moved, rx', rx0, from, now)
  {
    ArrivedSplits(brings, from, before, now);
    assert [] + rx' == rx';
    assert moved + (rx + Arrived(brings, before, now)) == (moved + rx) + Arrived(brings, before, now);
  }

  lemma FirstMoves(brings: nat -> seq<u8>, moved: seq<u8>, rx: seq<u8>, rx0: seq<u8>, from: nat, now: nat)
    requires rx != [] && InOrder(brings, moved, rx, rx0, from, now)
    ensures InOrder(brings, moved + [rx[0]], rx[1..], rx0, from, now)
  {
    assert (moved + [rx[0]]) + rx[1..] == moved + rx;
  }

  lemma OneFewer(len: nat, k: nat)
    ensures k <= len % 32 ==> k <= len && (len - k) % 32 == len % 32 - k
  {
  }

  // With nothing arriving a reader gets the FIFO's length modulo 32 and no more: out
  // of 32 bytes, or any multiple, none at all.
  lemma {:induction false} NothingArrives(brings: nat -> seq<u8>, len: nat, from: nat, to: nat)
    requires from <= to && forall n: nat :: from <= n < to ==> brings(n) == []
    ensures Arrived(brings, from, to) == []
    ensures Popped(brings, len, from, to) == if to - from <= len % 32 then to - from else len % 32
  {
    if from < to {
      NothingArrives(brings, len, from, to - 1);
      assert brings(to - 1) == [];
      OneFewer(len, to - 1 - from);
    }
  }

  ghost predicate ArrivesWithin(brings: nat -> seq<u8>, n: nat, d: nat) {
    exists m: nat :: n <= m < n + d && |brings(m)| % 32 != 0
  }

  // Out of every d level reads in a row, at least one finds that something arrived,
  // and not a multiple of 32 bytes.
  ghost predicate KeepsArriving(brings: nat -> seq<u8>, d: nat) {
    forall n: nat :: ArrivesWithin(brings, n, d)
  }

  lemma OneOfTwo(before: nat, more: nat)
    requires more % 32 != 0
    ensures before % 32 != 0 || (before + more) % 32 != 0
  {
  }

  // Then d + 1 level reads are enough for a byte, however many bytes wait already.
  lemma ArrivedInTime(brings: nat -> seq<u8>, d: nat, len: nat, from: nat)
    requires KeepsArriving(brings, d)
    ensures Popped(brings, len, from, from + d + 1) > 0
  {
    assert ArrivesWithin(brings, from + 1, d);
    var m: nat :| from + 1 <= m < from + 1 + d && |brings(m)| % 32 != 0;
    var before, after := len + |Arrived(brings, from, m)|, len + |Arrived(brings, from, m + 1)|;
    assert after == before + |brings(m)|;
    OneOfTwo(before, |brings(m)|);
    assert Pops(before) > 0 || Pops(after) > 0;
    PopsIff(brings, len, from, from + d + 1);
  }

  lemma OneMoreArrives(brings: nat -> seq<u8>, d: nat, len: nat, from: nat, mid: nat, to: nat)
    requires KeepsArriving(brings, d) && from <= mid && mid + d + 1 <= to
    ensures Popped(brings, len, from, to) > Popped(brings, len, from, mid)
  {
    var l := len + |Arrived(brings, from, mid)| - Popped(brings, len, from, mid);
    PoppedSplits(brings, len, from, mid, to, l);
    MorePops(brings, l, mid, mid + d + 1, to);
    ArrivedInTime(brings, d, l, mid);
  }

  lemma {:induction false} EachArrivesInTime(brings: nat -> seq<u8>, d: nat, len: nat, from: nat, n: nat)
    requires KeepsArriving(brings, d)
    ensures Popped(brings, len, from, from + Times(d + 1, n)) >= n
    decreases n
  {
    if n > 0 {
      var mid := from + Times(d + 1, n - 1);
      EachArrivesInTime(brings, d, len, from, n - 1);
      OneMoreArrives(brings, d, len, from, mid, mid + d + 1);
    }
  }

  // So n bytes are read in any (d + 1) * n level reads.
  lemma AllArriveInTime(brings: nat -> seq<u8>, d: nat, len: nat, from: nat, n: nat, patience: nat)
    requires KeepsArriving(brings, d) && (d + 1) * n <= patience
    ensures Popped(brings, len, from, from + patience) >= n
  {
    TimesIsProduct(d + 1, n);
    EachArrivesInTime(brings, d, len, from, n);
    MorePops(brings, len, from, from + Times(d + 1, n), from + patience);
  }

  lemma SentNext(before: seq<u8>, data: seq<u8>, i: nat)
    requires i < |data|
    ensures before + data[..i + 1] == before + data[..i] + [data[i]]
  {
  }

  class Driver {
    const dev: Controller

    constructor (dev: Controller)
      ensures this.dev == dev
    {
      this.dev := dev;
    }

    // Wait for TX space, for at most `patience` level reads.
    method WaitForSpace(patience: nat) returns (space: bool)
      modifies dev`levelReads, dev`tx, dev`sent
      ensures dev.Outgoing() == old(dev.Outgoing())
      ensures old(dev.levelReads) <= dev.levelReads <= old(dev.levelReads) + patience
      ensures !space ==> dev.levelReads == old(dev.levelReads) + patience
      ensures Waiting(dev.takes, |old(dev.tx)|, old(dev.levelReads), dev.levelReads, |dev.tx|, space)
      ensures space <==> Allowance(dev.takes, |old(dev.tx)|, old(dev.levelReads), patience) > 0
    {
      ghost var takes, start, len := dev.takes, dev.levelReads, |dev.tx|;
      var left := patience;
      while left > 0
        invariant start <= dev.levelReads && 0 <= left <= patience && dev.levelReads + left == start + patience
        invariant dev.Outgoing() == old(dev.Outgoing())
        invariant Waiting(takes, len, start, dev.levelReads, |dev.tx|, false)
      {
        ghost var now, l := dev.levelReads, |dev.tx|;
        var level := dev.TxFifoLevel();
        WaitGoesOn(takes, len, start, now, l, |dev.tx|);
        if level < TX_LIMIT {
          WaitEnds(takes, len, start, dev.levelReads, patience, |dev.tx|, true);
          return true;
        }
        left := left - 1;
      }
      WaitEnds(takes, len, start, dev.levelReads, patience, |dev.tx|, false);
      return false;
    }

    // Write all of data, or as much as `patience` level reads allow: the number of bytes,
    // whether that is all, and after which level read, are those of a writer that pushes
    // whenever the masked level is below the limit.
    method Write(data: seq<u8>, patience: nat) returns (result: TransferResult, finished: bool)
      modifies dev`levelReads, dev`tx, dev`sent
      ensures result.success && result.errorCode == 0 && result.bytesTransferred <= |data|
      ensures dev.Outgoing() == old(dev.Outgoing()) + data[..result.bytesTransferred]
      ensures finished <==> result.bytesTransferred == |data|
      ensures finished <==> |data| <= Allowance(dev.takes, |old(dev.tx)|, old(dev.levelReads), patience)
      ensures finished ==>
        Writing(dev.takes, |old(dev.tx)|, old(dev.levelReads), dev.levelReads, patience, |data|, |dev.tx|)
      ensures !finished ==> dev.levelReads == old(dev.levelReads) + patience
      ensures !finished ==>
        result.bytesTransferred == Allowance(dev.takes, |old(dev.tx)|, old(dev.levelReads), patience)
      ensures |dev.tx| == Level(dev.takes, |old(dev.tx)|, old(dev.levelReads), dev.levelReads)
      ensures |old(dev.tx)| < 32 ==> |dev.tx| <= if |old(dev.tx)| <= 16 then 16 else |old(dev.tx)|
    {
      ghost var takes, start, len := dev.takes, dev.levelReads, |dev.tx|;
      var left := patience;
      var i := 0;
      while i < |data|
        invariant i <= |data| && dev.levelReads + left == start + patience
        invariant dev.Outgoing() == old(dev.Outgoing()) + data[..i]
        invariant Writing(takes, len, start, dev.levelReads, patience, i, |dev.tx|)
      {
        ghost var l := |dev.tx|;
        var before := dev.levelReads;
        var space := WaitForSpace(left);
        left := left - (dev.levelReads - before);
        if !space {
          NoRoomMade(takes, len, start, before, dev.levelReads, patience, i, l, |dev.tx|);
          LevelIsBounded(takes, len, start, dev.levelReads);
          return TransferResult(i, true, 0), false;
        }
        WaitMakesRoom(takes, len, start, before, dev.levelReads, patience, i, l, |dev.tx|);
        dev.Push(data[i]);
        SentNext(old(dev.Outgoing()), data, i);
        i := i + 1;
      }
      assert data[..|data|] == data;
      LevelIsBounded(takes, len, start, dev.levelReads);
      return TransferResult(|data|, true, 0), true;
    }

    // Wait for RX data, for at most `patience` level reads. The level is masked to
    // five bits, so a waiting multiple of 32 bytes looks like none.
    method WaitForData(patience: nat) returns (some: bool)
      modifies dev`levelReads, dev`rx
      ensures some <==> ShowsData(dev.brings, |old(dev.rx)|, old(dev.levelReads), old(dev.levelReads) + patience)
      ensures dev.levelReads <= old(dev.levelReads) + patience && (!some ==> dev.levelReads == old(dev.levelReads) + patience)
      ensures InOrder(dev.brings, [], dev.rx, old(dev.rx), old(dev.levelReads), dev.levelReads)
      ensures Waited(dev.brings, |old(dev.rx)|, old(dev.levelReads), dev.levelReads, some) && (some ==> dev.rx != [])
    {
      ghost var brings, start, rx0 := dev.brings, dev.levelReads, dev.rx;
      var left := patience;
      while left > 0
        invariant start <= dev.levelReads && 0 <= left <= patience && dev.levelReads + left == start + patience
        invariant dev.rx == rx0 + Arrived(brings, start, dev.levelReads)
        invariant Popped(brings, |rx0|, start, dev.levelReads) == 0
      {
        var level := dev.RxFifoLevel();
        if level != 0 {
          assert Pops(|rx0| + |Arrived(brings, start, dev.levelReads)|) > 0;
          return true;
        }
        left := left - 1;
      }
      PopsIff(brings, |rx0|, start, dev.levelReads);
      return false;
    }

    // Fill the buffer, or as much of it as `patience` level reads allow: the number
    // of bytes moved, whether that is all, and after which level read, are those of
    // a reader that pops whenever the masked level is not 0.
    method Read(buffer: array<u8>, patience: nat) returns (result: TransferResult, finished: bool)
      modifies dev`levelReads, dev`rx, buffer
      ensures result.success && result.errorCode == 0 && result.bytesTransferred <= buffer.Length
      ensures finished <==> result.bytesTransferred == buffer.Length
      ensures finished ==> Reading(dev.brings, |old(dev.rx)|, old(dev.levelReads), dev.levelReads, patience, buffer.Length)
      ensures !finished ==> dev.levelReads == old(dev.levelReads) + patience
      ensures !finished ==> result.bytesTransferred == Yield(dev.brings, |old(dev.rx)|, old(dev.levelReads), patience)
      ensures InOrder(dev.brings, buffer[..result.bytesTransferred], dev.rx, old(dev.rx), old(dev.levelReads), dev.levelReads)
      ensures forall k :: result.bytesTransferred <= k < buffer.Length ==> buffer[k] == old(buffer[k])
    {
      ghost var brings, start, rx0 := dev.brings, dev.levelReads, dev.rx;
      var left := patience;
      var i := 0;
      ghost var moved: seq<u8>, now := [], start;
      while i < buffer.Length
        invariant i <= buffer.Length && |moved| == i
        invariant now == dev.levelReads && now + left == start + patience
        invariant Reading(brings, |rx0|, start, now, patience, i)
        invariant InOrder(brings, moved, dev.rx, rx0, start, now)
        invariant forall k :: 0 <= k < i ==> buffer[k] == moved[k]
        invariant forall k :: i <= k < buffer.Length ==> buffer[k] == old(buffer[k])
      {
        ghost var rx1 := dev.rx;
        var before := dev.levelReads;
        var some := WaitForData(left);
        left := left - (dev.levelReads - before);
        now := dev.levelReads;
        StaysInOrder(brings, moved, rx1, dev.rx, rx0, start, before, now);
        if !some {
          WaitIsInVain(brings, moved, rx1, rx0, start, before, now, patience);
          assert buffer[..i] == moved;
          return TransferResult(i, true, 0), false;
        }
        WaitYields(brings, moved, rx1, rx0, start, before, now, patience);
        FirstMoves(brings, moved, dev.rx, rx0, start, now);
        var b := dev.Pop();
        buffer[i] := b;
        moved := moved + [b];
        i := i + 1;
      }
      assert buffer[..i] == moved;
      return TransferResult(buffer.Length, true, 0), true;
    }
  }
}
