// Who releases the mailbox: every sequence of constructions, moves and
// destructions of responses, on their own or inside McuResult carriers.
module Ownership {
  import opened Common

  // A duty to release the mailbox once, numbered by creation; the responses that
  // were constructed, likewise; and the objects of the program.
  type Token = nat
  type Resp = nat
  type Id = nat

  // ---------------------------------------------------------------------------
  // A ledger of duties
  // ---------------------------------------------------------------------------

  // held[c] is the duty that cell c carries; None stands for released_ == true.
  datatype Ledger = Ledger(held: map<Id, Option<Token>>, constructed: nat, released: seq<Token>, lost: set<Token>)

  predicate Owns(l: Ledger, c: Id, t: Token) {
    c in l.held && l.held[c] == Some(t)
  }

  function AddEmpty(l: Ledger, c: Id): Ledger {
    l.(held := l.held[c := None])
  }

  function AddNew(l: Ledger, c: Id): Ledger {
    l.(held := l.held[c := Some(l.constructed)], constructed := l.constructed + 1)
  }

  // A move: the duty goes from cell `from` to the empty cell `to`.
  function Shift(l: Ledger, to: Id, from: Id): Ledger
    requires from in l.held
  {
    l.(held := l.held[to := l.held[from]][from := None])
  }

  // A destructor or an assignment: EXECUTE is written if the cell carries a duty.
  function Release(l: Ledger, c: Id): Ledger
    requires c in l.held
  {
    if l.held[c] == None then l
    else l.(held := l.held[c := None], released := l.released + [l.held[c].value])
  }

  // Bytes are reused or go away without their destructor.
  function Lose(l: Ledger, c: Id): Ledger
    requires c in l.held
  {
    if l.held[c] == None then l
    else l.(held := l.held[c := None], lost := l.lost + {l.held[c].value})
  }

  function Remove(l: Ledger, c: Id): Ledger {
    l.(held := l.held - {c})
  }

  // Every duty is in one place: released once, lost, or carried by one cell.
  ghost predicate Balanced(l: Ledger) {
    && (forall c: Id, t: Token :: Owns(l, c, t) ==> t < l.constructed && t !in l.released && t !in l.lost)
    && (forall c: Id, d: Id, t: Token :: Owns(l, c, t) && Owns(l, d, t) ==> c == d)
    && (forall t: Token :: t < l.constructed ==> t in l.released || t in l.lost || exists c: Id :: Owns(l, c, t))
    && (forall i, j :: 0 <= i < j < |l.released| ==> l.released[i] != l.released[j])
    && (forall i :: 0 <= i < |l.released| ==> l.released[i] < l.constructed && l.released[i] !in l.lost)
    && (forall t: Token :: t in l.lost ==> t < l.constructed)
  }

  lemma AddEmptyKeeps(l: Ledger, c: Id)
    requires Balanced(l) && c !in l.held
    ensures Balanced(AddEmpty(l, c))
  {
    var m := AddEmpty(l, c);
    assert forall d: Id, t: Token :: Owns(m, d, t) <==> Owns(l, d, t);
  }

  lemma AddNewKeeps(l: Ledger, c: Id)
    requires Balanced(l) && c !in l.held
    ensures Balanced(AddNew(l, c))
  {
    var m := AddNew(l, c);
    assert forall d: Id, t: Token :: Owns(m, d, t) <==> Owns(l, d, t) || (d == c && t == l.constructed);
    assert Owns(m, c, l.constructed);
  }

  lemma ShiftKeeps(l: Ledger, to: Id, from: Id)
    requires Balanced(l) && to in l.held && l.held[to] == None && from in l.held && to != from
    ensures Balanced(Shift(l, to, from))
  {
    var m := Shift(l, to, from);
    assert forall d: Id, t: Token :: Owns(m, d, t) <==> (d == to && Owns(l, from, t)) || (d != from && Owns(l, d, t));
    forall t: Token | t < m.constructed && t !in m.released && t !in m.lost
      ensures exists c: Id :: Owns(m, c, t)
    {
      var c: Id :| Owns(l, c, t);
      assert Owns(m, if c == from then to else c, t);
    }
  }

  lemma ReleaseKeeps(l: Ledger, c: Id)
    requires Balanced(l) && c in l.held
    ensures Balanced(Release(l, c))
  {
    if l.held[c] != None {
      var m, u := Release(l, c), l.held[c].value;
      assert Owns(l, c, u);
      assert forall d: Id, t: Token :: Owns(m, d, t) <==> d != c && Owns(l, d, t);
      forall t: Token | t < m.constructed && t !in m.released && t !in m.lost
        ensures exists d: Id :: Owns(m, d, t)
      {
        assert t !in l.released by { assert forall x :: x in l.released ==> x in m.released; }
        assert m.released[|l.released|] == u;
        var d: Id :| Owns(l, d, t);
        assert Owns(m, d, t);
      }
    }
  }

  lemma LoseKeeps(l: Ledger, c: Id)
    requires Balanced(l) && c in l.held
    ensures Balanced(Lose(l, c))
  {
    if l.held[c] != None {
      var m, u := Lose(l, c), l.held[c].value;
      assert Owns(l, c, u);
      assert forall d: Id, t: Token :: Owns(m, d, t) <==> d != c && Owns(l, d, t);
      forall t: Token | t < m.constructed && t !in m.released && t !in m.lost
        ensures exists d: Id :: Owns(m, d, t)
      {
        var d: Id :| Owns(l, d, t);
        assert Owns(m, d, t);
      }
    }
  }

  lemma RemoveKeeps(l: Ledger, c: Id)
    requires Balanced(l) && (c in l.held ==> l.held[c] == None)
    ensures Balanced(Remove(l, c))
  {
    var m := Remove(l, c);
    assert forall d: Id, t: Token :: Owns(m, d, t) <==> Owns(l, d, t);
  }

  // ---------------------------------------------------------------------------
  // The objects of the program
  // ---------------------------------------------------------------------------

  // What the bytes of a McuResult hold: nothing yet, a value that was built there,
  // or one whose destructor has run and whose bytes were kept and still say that it has a
  // release to make, that of response `of`.
  datatype Bytes = Raw | Built | Dead(of: Resp)

  // A live object: a response (or an optional of one), or a McuResult carrier
  // with its has_value_ flag.
  datatype Kind = Response | Carrier(hasValue: bool, bytes: Bytes)

  // origin[t] is the response for which duty t is to release.
  datatype World = World(ledger: Ledger, kinds: map<Id, Kind>, origin: seq<Resp>, responses: nat)

  datatype Op =
    | Construct(x: Id)                        // Response x(...)
    | MoveConstruct(x: Id, y: Id)             // Response x(std::move(y))
    | MoveAssign(x: Id, y: Id)                // x = std::move(y)
    | Destroy(x: Id)                          // x.~Response()
    | WrapOk(r: Id, y: Id)                    // McuResult r = Ok(std::move(y))
    | WrapErr(r: Id)                          // McuResult r = Err(e)
    | MoveCarrier(r: Id, q: Id)               // McuResult r(std::move(q))
    | AssignCarrier(r: Id, q: Id, kept: bool) // r = std::move(q), a destroyed value's flags being kept or not
    | DestroyCarrier(r: Id)                   // r.~McuResult()
    | TakeValue(x: Id, q: Id)                 // Response x = std::move(q).value()
    | DropValue(q: Id)                        // std::move(q).value();
    | Unwrap(x: Id, q: Id)                    // Response x = std::move(q).unwrap()
    | UnwrapOr(x: Id, q: Id, d: Id)           // Response x = std::move(q).unwrap_or(d), d the parameter

  predicate IsResponse(w: World, x: Id) { x in w.kinds && w.kinds[x] == Response }
  predicate IsCarrier(w: World, r: Id) { r in w.kinds && w.kinds[r].Carrier? }

  // Whether the program can take the operation: new names are fresh, the others
  // live, value() finds bytes some value was built in, and unwrap() a value.
  predicate Allowed(w: World, op: Op) {
    match op
    case Construct(x) => x !in w.kinds
    case MoveConstruct(x, y) => x !in w.kinds && IsResponse(w, y)
    case MoveAssign(x, y) => IsResponse(w, x) && IsResponse(w, y)
    case Destroy(x) => IsResponse(w, x)
    case WrapOk(r, y) => r !in w.kinds && IsResponse(w, y)
    case WrapErr(r) => r !in w.kinds
    case MoveCarrier(r, q) => r !in w.kinds && IsCarrier(w, q)
    case AssignCarrier(r, q, _) => IsCarrier(w, r) && IsCarrier(w, q)
    case DestroyCarrier(r) => IsCarrier(w, r)
    case TakeValue(x, q) => x !in w.kinds && IsCarrier(w, q) && !w.kinds[q].bytes.Raw?
    case DropValue(q) => IsCarrier(w, q) && !w.kinds[q].bytes.Raw?
    case Unwrap(x, q) => x !in w.kinds && IsCarrier(w, q) && w.kinds[q].hasValue
    case UnwrapOr(x, q, d) => x !in w.kinds && IsCarrier(w, q) && IsResponse(w, d)
  }

  // The cells of the ledger are the live objects, a carrier that says it has a
  // value has one, and bytes that hold none carry no duty.
  predicate Tidy(w: World) {
    && w.ledger.held.Keys == w.kinds.Keys
    && |w.origin| == w.ledger.constructed
    && forall r :: r in w.kinds && w.kinds[r].Carrier? ==>
         && (w.kinds[r].hasValue ==> w.kinds[r].bytes.Built?)
         && (!w.kinds[r].bytes.Built? ==> w.ledger.held[r] == None)
  }

  // Duties are for responses that were constructed.
  ghost predicate Sourced(w: World) {
    && (forall t: Token :: t < |w.origin| ==> w.origin[t] < w.responses)
    && forall r :: r in w.kinds && w.kinds[r].Carrier? && w.kinds[r].bytes.Dead? ==> w.kinds[r].bytes.of < w.responses
  }

  // A new object moved from cell `from`.
  function MovedTo(l: Ledger, to: Id, from: Id): Ledger
    requires from in l.held && to != from
  {
    Shift(AddEmpty(l, to), to, from)
  }

  // What is left of a value that is destroyed with its carrier.
  function EndOfCarrier(l: Ledger, r: Id, hasValue: bool): Ledger
    requires r in l.held
  {
    if hasValue then Release(l, r) else Lose(l, r)
  }

  function Reassigned(l: Ledger, r: Id, q: Id, rHas: bool, qHas: bool): Ledger
    requires r in l.held && q in l.held && r != q
  {
    var l1 := if rHas then Release(l, r) else l;
    if qHas then Shift(Lose(l1, r), r, q) else l1
  }

  function OriginOf(w: World, t: Token): Resp { if t < |w.origin| then w.origin[t] else 0 }

  function BytesAfter(w: World, r: Id, qHas: bool, kept: bool): Bytes
    requires Tidy(w) && IsCarrier(w, r)
  {
    if qHas then Built
    else if w.kinds[r].hasValue && !kept then Raw
    else if w.kinds[r].hasValue && w.ledger.held[r] != None then Dead(OriginOf(w, w.ledger.held[r].value))
    else w.kinds[r].bytes
  }

  // ---------------------------------------------------------------------------
  // The operations
  // ---------------------------------------------------------------------------

  function Constructed(w: World, x: Id): World {
    World(AddNew(w.ledger, x), w.kinds[x := Response], w.origin + [w.responses], w.responses + 1)
  }

  function MoveConstructed(w: World, x: Id, y: Id): World
    requires Tidy(w) && x !in w.kinds && IsResponse(w, y)
  {
    w.(ledger := MovedTo(w.ledger, x, y), kinds := w.kinds[x := Response])
  }

  function MoveAssigned(w: World, x: Id, y: Id): World
    requires Tidy(w) && IsResponse(w, x) && IsResponse(w, y)
  {
    if x == y then w else w.(ledger := Shift(Release(w.ledger, x), x, y))
  }

  function Destroyed(w: World, x: Id): World
    requires Tidy(w) && IsResponse(w, x)
  {
    w.(ledger := Remove(Release(w.ledger, x), x), kinds := w.kinds - {x})
  }

  function WrappedOk(w: World, r: Id, y: Id): World
    requires Tidy(w) && r !in w.kinds && IsResponse(w, y)
  {
    w.(ledger := MovedTo(w.ledger, r, y), kinds := w.kinds[r := Carrier(true, Built)])
  }

  function WrappedErr(w: World, r: Id): World {
    w.(ledger := AddEmpty(w.ledger, r), kinds := w.kinds[r := Carrier(false, Raw)])
  }

  function CarrierMoved(w: World, r: Id, q: Id): World
    requires Tidy(w) && r !in w.kinds && IsCarrier(w, q)
  {
    if w.kinds[q].hasValue then
      w.(ledger := MovedTo(w.ledger, r, q), kinds := w.kinds[r := Carrier(true, Built)][q := Carrier(false, Built)])
    else WrappedErr(w, r)
  }

  // McuResult::operator=: the old value is destroyed, and a new one is built over
  // the storage if there is one to move. If there is none, the destroyed value's
  // bytes stay, with the optional's flag and released_ as they were if these are kept;
  // else there is nothing in the storage any more.
  function CarrierAssigned(w: World, r: Id, q: Id, kept: bool): World
    requires Tidy(w) && IsCarrier(w, r) && IsCarrier(w, q)
  {
    var l, k := w.ledger, w.kinds;
    if r == q then w
    else
      w.(ledger := Reassigned(l, r, q, k[r].hasValue, k[q].hasValue),
         kinds := k[r := Carrier(k[q].hasValue, BytesAfter(w, r, k[q].hasValue, kept))][q := Carrier(false, k[q].bytes)])
  }

  function CarrierDestroyed(w: World, r: Id): World
    requires Tidy(w) && IsCarrier(w, r)
  {
    w.(ledger := Remove(EndOfCarrier(w.ledger, r, w.kinds[r].hasValue), r), kinds := w.kinds - {r})
  }

  // Taking what a value left behind makes a new owner: its release is made again.
  function ValueTaken(w: World, x: Id, q: Id): World
    requires Tidy(w) && x !in w.kinds && IsCarrier(w, q)
  {
    var k := w.kinds[x := Response][q := Carrier(false, Built)];
    if w.kinds[q].bytes.Dead? then
      w.(ledger := AddNew(w.ledger, x), kinds := k, origin := w.origin + [w.kinds[q].bytes.of])
    else w.(ledger := MovedTo(w.ledger, x, q), kinds := k)
  }

  function ValueDropped(w: World, q: Id): World
    requires IsCarrier(w, q)
  {
    w.(kinds := w.kinds[q := Carrier(false, w.kinds[q].bytes)])
  }

  function Unwrapped(w: World, x: Id, q: Id): World
    requires Tidy(w) && x !in w.kinds && IsCarrier(w, q)
  {
    w.(ledger := MovedTo(w.ledger, x, q), kinds := w.kinds[x := Response][q := Carrier(false, Built)])
  }

  function UnwrappedOr(w: World, x: Id, q: Id, d: Id): World
    requires Tidy(w) && x !in w.kinds && IsCarrier(w, q) && IsResponse(w, d)
  {
    var from := if w.kinds[q].hasValue then q else d;
    w.(ledger := Remove(Release(MovedTo(w.ledger, x, from), d), d),
       kinds := (w.kinds[x := Response][q := if from == q then Carrier(false, Built) else w.kinds[q]]) - {d})
  }

  function Apply(w: World, op: Op): World
    requires Tidy(w) && Allowed(w, op)
  {
    match op
    case Construct(x) => Constructed(w, x)
    case MoveConstruct(x, y) => MoveConstructed(w, x, y)
    case MoveAssign(x, y) => MoveAssigned(w, x, y)
    case Destroy(x) => Destroyed(w, x)
    case WrapOk(r, y) => WrappedOk(w, r, y)
    case WrapErr(r) => WrappedErr(w, r)
    case MoveCarrier(r, q) => CarrierMoved(w, r, q)
    case AssignCarrier(r, q, kept) => CarrierAssigned(w, r, q, kept)
    case DestroyCarrier(r) => CarrierDestroyed(w, r)
    case TakeValue(x, q) => ValueTaken(w, x, q)
    case DropValue(q) => ValueDropped(w, q)
    case Unwrap(x, q) => Unwrapped(w, x, q)
    case UnwrapOr(x, q, d) => UnwrappedOr(w, x, q, d)
  }

  lemma MovedToKeeps(l: Ledger, to: Id, from: Id)
    requires Balanced(l) && to !in l.held && from in l.held
    ensures Balanced(MovedTo(l, to, from))
  {
    AddEmptyKeeps(l, to);
    ShiftKeeps(AddEmpty(l, to), to, from);
  }

  lemma ReassignedKeeps(l: Ledger, r: Id, q: Id, rHas: bool, qHas: bool)
    requires Balanced(l) && r in l.held && q in l.held && r != q
    ensures Balanced(Reassigned(l, r, q, rHas, qHas))
  {
    ReleaseKeeps(l, r);
    var l1 := if rHas then Release(l, r) else l;
    LoseKeeps(l1, r);
    if qHas {
      ShiftKeeps(Lose(l1, r), r, q);
    }
  }

  lemma DestroyedKeeps(l: Ledger, c: Id)
    requires Balanced(l) && c in l.held
    ensures Balanced(Remove(Release(l, c), c)) && Balanced(Remove(Lose(l, c), c))
  {
    ReleaseKeeps(l, c);
    RemoveKeeps(Release(l, c), c);
    LoseKeeps(l, c);
    RemoveKeeps(Lose(l, c), c);
  }

  lemma ApplyKeepsBalance(w: World, op: Op)
    requires Tidy(w) && Balanced(w.ledger) && Allowed(w, op)
    ensures Balanced(Apply(w, op).ledger)
  {
    var l := w.ledger;
    match op
    case Construct(x) => AddNewKeeps(l, x);
    case MoveConstruct(x, y) => MovedToKeeps(l, x, y);
    case MoveAssign(x, y) =>
      if x != y {
        ReleaseKeeps(l, x);
        ShiftKeeps(Release(l, x), x, y);
      }
    case Destroy(x) => DestroyedKeeps(l, x);
    case WrapOk(r, y) => MovedToKeeps(l, r, y);
    case WrapErr(r) => AddEmptyKeeps(l, r);
    case MoveCarrier(r, q) =>
      MovedToKeeps(l, r, q);
      AddEmptyKeeps(l, r);
    case AssignCarrier(r, q, _) =>
      if r != q {
        ReassignedKeeps(l, r, q, w.kinds[r].hasValue, w.kinds[q].hasValue);
      }
    case DestroyCarrier(r) => DestroyedKeeps(l, r);
    case TakeValue(x, q) =>
      AddNewKeeps(l, x);
      MovedToKeeps(l, x, q);
    case DropValue(q) =>
    case Unwrap(x, q) => MovedToKeeps(l, x, q);
    case UnwrapOr(x, q, d) =>
      var from := if w.kinds[q].hasValue then q else d;
      MovedToKeeps(l, x, from);
      DestroyedKeeps(MovedTo(l, x, from), d);
  }

  lemma CarrierMoveStaysTidy(w: World, op: Op)
    requires Tidy(w) && Allowed(w, op) && (op.MoveCarrier? || op.AssignCarrier?)
    ensures Tidy(Apply(w, op))
  {
  }

  lemma CarrierUseStaysTidy(w: World, op: Op)
    requires Tidy(w) && Allowed(w, op) && (op.TakeValue? || op.DropValue? || op.Unwrap? || op.UnwrapOr?)
    ensures Tidy(Apply(w, op))
  {
  }

  lemma ApplyStaysTidy(w: World, op: Op)
    requires Tidy(w) && Allowed(w, op)
    ensures Tidy(Apply(w, op))
  {
    if op.MoveCarrier? || op.AssignCarrier? {
      CarrierMoveStaysTidy(w, op);
    } else if op.TakeValue? || op.DropValue? || op.Unwrap? || op.UnwrapOr? {
      CarrierUseStaysTidy(w, op);
    }
  }

  // ---------------------------------------------------------------------------
  // Every program
  // ---------------------------------------------------------------------------

  function Empty(): World {
    World(Ledger(map[], 0, [], {}), map[], [], 0)
  }

  // The world after a sequence of operations, or None if one was not possible.
  function Perform(ops: seq<Op>): (r: Option<World>)
    ensures r.Some? ==> Tidy(r.value)
  {
    if ops == [] then Some(Empty())
    else
      match Perform(ops[..|ops| - 1])
      case None => None
      case Some(w) =>
        if Allowed(w, ops[|ops| - 1]) then
          ApplyStaysTidy(w, ops[|ops| - 1]);
          Some(Apply(w, ops[|ops| - 1]))
        else None
  }

  lemma SourcedStep(w: World, op: Op)
    requires Tidy(w) && Balanced(w.ledger) && Sourced(w) && Allowed(w, op)
    ensures Sourced(Apply(w, op))
  {
    if op.AssignCarrier? && w.ledger.held[op.r] != None {
      assert Owns(w.ledger, op.r, w.ledger.held[op.r].value);
    }
  }

  lemma {:induction false} PerformIsBalanced(ops: seq<Op>)
    requires Perform(ops).Some?
    ensures Balanced(Perform(ops).value.ledger) && Sourced(Perform(ops).value)
  {
    if ops != [] {
      var w := Perform(ops[..|ops| - 1]).value;
      PerformIsBalanced(ops[..|ops| - 1]);
      ApplyKeepsBalance(w, ops[|ops| - 1]);
      SourcedStep(w, ops[|ops| - 1]);
    }
  }

  lemma {:induction false} PrefixRuns(ops: seq<Op>, k: nat)
    requires Perform(ops).Some? && k <= |ops|
    ensures Perform(ops[..k]).Some?
  {
    if k < |ops| {
      PrefixRuns(ops[..|ops| - 1], k);
      assert ops[..|ops| - 1][..k] == ops[..k];
    } else {
      assert ops[..k] == ops;
    }
  }

  // The world before operation number k of a program.
  function At(ops: seq<Op>, k: nat): (w: World)
    requires Perform(ops).Some? && k <= |ops|
    ensures Tidy(w)
  {
    PrefixRuns(ops, k);
    Perform(ops[..k]).value
  }

  lemma LastStep(ops: seq<Op>, before: seq<Op>)
    requires ops != [] && before == ops[..|ops| - 1] && Perform(ops).Some?
    ensures Perform(before).Some? && Allowed(Perform(before).value, ops[|ops| - 1])
    ensures Perform(ops).value == Apply(Perform(before).value, ops[|ops| - 1])
  {
  }

  lemma AtNext(ops: seq<Op>, k: nat)
    requires Perform(ops).Some? && k < |ops|
    ensures Allowed(At(ops, k), ops[k]) && At(ops, k + 1) == Apply(At(ops, k), ops[k])
  {
    var before, after := ops[..k], ops[..k + 1];
    PrefixRuns(ops, k + 1);
    assert after[..k] == before && after[k] == ops[k];
    LastStep(after, before);
  }

  lemma AtEnd(ops: seq<Op>)
    requires Perform(ops).Some?
    ensures At(ops, |ops|) == Perform(ops).value && At(ops, 0) == Empty()
  {
    assert ops[..|ops|] == ops && ops[..0] == [];
  }

  // ---------------------------------------------------------------------------
  // When a release is lost
  // ---------------------------------------------------------------------------

  // A carrier without a value whose storage still has a duty in it.
  predicate Stranded(w: World, r: Id) {
    IsCarrier(w, r) && !w.kinds[r].hasValue && r in w.ledger.held && w.ledger.held[r] != None
  }

  // A carrier in whose storage a destroyed value still has a release to make.
  predicate Undead(w: World, r: Id) {
    IsCarrier(w, r) && w.kinds[r].bytes.Dead?
  }

  // Destroying q or building a value over its storage; either of these, or taking
  // what is there, makes an end of what the storage held.
  predicate Overwrites(w: World, op: Op, q: Id) {
    || (op.DestroyCarrier? && op.r == q)
    || (op.AssignCarrier? && op.r == q && op.q != q && IsCarrier(w, op.q) && w.kinds[op.q].hasValue)
  }

  predicate Clears(w: World, op: Op, q: Id) {
    Overwrites(w, op, q) || (op.TakeValue? && op.q == q)
  }

  // value() of a result with a duty, and assigning an error to one whose flags are kept.
  predicate Drops(w: World, op: Op, q: Id) {
    op == DropValue(q) && q in w.ledger.held && w.ledger.held[q] != None
  }

  predicate Kills(w: World, op: Op, q: Id) {
    && op.AssignCarrier? && op.kept && op.r == q && op.q != q
    && IsCarrier(w, q) && w.kinds[q].hasValue && q in w.ledger.held && w.ledger.held[q] != None
    && IsCarrier(w, op.q) && !w.kinds[op.q].hasValue
  }

  lemma StrandedAssign(w: World, op: Op, w': World, q: Id)
    requires Tidy(w) && Allowed(w, op) && w' == Apply(w, op) && op.AssignCarrier?
    ensures Stranded(w', q) <==> Stranded(w, q) && !Clears(w, op, q)
  {
  }

  lemma StrandedMove(w: World, op: Op, w': World, q: Id)
    requires Tidy(w) && Allowed(w, op) && w' == Apply(w, op) && (op.UnwrapOr? || op.MoveCarrier?)
    ensures Stranded(w', q) <==> Stranded(w, q)
  {
  }

  // One operation changes neither in any other way.
  lemma StrandedStep(w: World, op: Op, w': World, q: Id)
    requires Tidy(w) && Allowed(w, op) && w' == Apply(w, op)
    ensures Stranded(w', q) <==> Drops(w, op, q) || (Stranded(w, q) && !Clears(w, op, q))
  {
    if op.AssignCarrier? {
      StrandedAssign(w, op, w', q);
    } else if op.UnwrapOr? || op.MoveCarrier? {
      StrandedMove(w, op, w', q);
    }
  }

  lemma UndeadStep(w: World, op: Op, w': World, q: Id)
    requires Tidy(w) && Allowed(w, op) && w' == Apply(w, op)
    ensures Undead(w', q) <==> Kills(w, op, q) || (Undead(w, q) && !Clears(w, op, q))
  {
  }

  ghost predicate NoneBetween(ends: seq<bool>, i: nat, k: nat)
    requires k <= |ends|
  {
    forall j :: i < j < k ==> !ends[j]
  }

  // Something started before step k, and nothing has ended it since.
  ghost predicate Pending(starts: seq<bool>, ends: seq<bool>, k: nat)
    requires k <= |starts| == |ends|
  {
    exists i :: 0 <= i < k && starts[i] && NoneBetween(ends, i, k)
  }

  lemma PendingNext(starts: seq<bool>, ends: seq<bool>, k: nat)
    requires k < |starts| == |ends|
    ensures Pending(starts, ends, k + 1) <==> starts[k] || (Pending(starts, ends, k) && !ends[k])
  {
    assert NoneBetween(ends, k, k + 1);
    forall i: nat | i < k
      ensures NoneBetween(ends, i, k + 1) <==> NoneBetween(ends, i, k) && !ends[k]
    {
      if NoneBetween(ends, i, k + 1) {
        assert forall j :: i < j < k ==> !ends[j];
      }
    }
  }

  // For each operation of a program, whether it drops what q holds, kills it, or
  // makes an end of it.
  function DropsOf(ops: seq<Op>, q: Id): (s: seq<bool>)
    requires Perform(ops).Some?
    ensures |s| == |ops|
  {
    seq(|ops|, k requires 0 <= k < |ops| => Drops(At(ops, k), ops[k], q))
  }

  function KillsOf(ops: seq<Op>, q: Id): (s: seq<bool>)
    requires Perform(ops).Some?
    ensures |s| == |ops|
  {
    seq(|ops|, k requires 0 <= k < |ops| => Kills(At(ops, k), ops[k], q))
  }

  function ClearsOf(ops: seq<Op>, q: Id): (s: seq<bool>)
    requires Perform(ops).Some?
    ensures |s| == |ops|
  {
    seq(|ops|, k requires 0 <= k < |ops| => Clears(At(ops, k), ops[k], q))
  }

  ghost predicate DroppedBefore(ops: seq<Op>, k: nat, q: Id)
    requires Perform(ops).Some? && k <= |ops|
  {
    Pending(DropsOf(ops, q), ClearsOf(ops, q), k)
  }

  ghost predicate KilledBefore(ops: seq<Op>, k: nat, q: Id)
    requires Perform(ops).Some? && k <= |ops|
  {
    Pending(KillsOf(ops, q), ClearsOf(ops, q), k)
  }

  lemma StrandedAfter(ops: seq<Op>, k: nat, q: Id)
    requires Perform(ops).Some? && k < |ops| && (Stranded(At(ops, k), q) <==> DroppedBefore(ops, k, q))
    ensures Stranded(At(ops, k + 1), q) <==> DroppedBefore(ops, k + 1, q)
  {
    AtNext(ops, k);
    StrandedStep(At(ops, k), ops[k], At(ops, k + 1), q);
    PendingNext(DropsOf(ops, q), ClearsOf(ops, q), k);
  }

  lemma UndeadAfter(ops: seq<Op>, k: nat, q: Id)
    requires Perform(ops).Some? && k < |ops| && (Undead(At(ops, k), q) <==> KilledBefore(ops, k, q))
    ensures Undead(At(ops, k + 1), q) <==> KilledBefore(ops, k + 1, q)
  {
    AtNext(ops, k);
    UndeadStep(At(ops, k), ops[k], At(ops, k + 1), q);
    PendingNext(KillsOf(ops, q), ClearsOf(ops, q), k);
  }

  // A result is stranded exactly when its last drop was not followed by anything
  // that makes an end of it,
  lemma {:induction false} StrandedIff(ops: seq<Op>, k: nat, q: Id)
    requires Perform(ops).Some? && k <= |ops|
    ensures Stranded(At(ops, k), q) <==> DroppedBefore(ops, k, q)
    decreases k
  {
    if k == 0 {
      AtEnd(ops);
    } else {
      StrandedIff(ops, k - 1, q);
      StrandedAfter(ops, k - 1, q);
    }
  }

  // and undead exactly when its last kill was not.
  lemma {:induction false} UndeadIff(ops: seq<Op>, k: nat, q: Id)
    requires Perform(ops).Some? && k <= |ops|
    ensures Undead(At(ops, k), q) <==> KilledBefore(ops, k, q)
    decreases k
  {
    if k == 0 {
      AtEnd(ops);
    } else {
      UndeadIff(ops, k - 1, q);
      UndeadAfter(ops, k - 1, q);
    }
  }

  ghost predicate SomeBefore(steps: iset<nat>, n: nat) {
    n > 0 && (SomeBefore(steps, n - 1) || n - 1 in steps)
  }

  lemma {:induction false} SomeBeforeIff(steps: iset<nat>, n: nat)
    ensures SomeBefore(steps, n) <==> exists k: nat :: k < n && k in steps
  {
    if n > 0 {
      SomeBeforeIff(steps, n - 1);
    }
  }

  lemma SomeStepIff(steps: iset<nat>, n: nat)
    requires forall k: nat :: k in steps ==> k < n
    ensures SomeBefore(steps, n) <==> steps != iset{}
  {
    SomeBeforeIff(steps, n);
    if steps != iset{} {
      var k :| k in steps;
    }
  }

  ghost predicate Loses(w: World, op: Op) {
    exists q: Id :: Overwrites(w, op, q) && Stranded(w, q)
  }

  // One operation loses a release exactly when it overwrites a stranded carrier.
  lemma LostIff(w: World, op: Op)
    requires Tidy(w) && Balanced(w.ledger) && Allowed(w, op)
    ensures w.ledger.lost <= Apply(w, op).ledger.lost
    ensures Apply(w, op).ledger.lost != w.ledger.lost <==> Loses(w, op)
  {
    if q: Id :| Overwrites(w, op, q) && Stranded(w, q) {
      var t := w.ledger.held[q].value;
      assert Owns(w.ledger, q, t);
      assert t in Apply(w, op).ledger.lost;
    }
    if op.DestroyCarrier? || op.AssignCarrier? {
      assert Overwrites(w, op, op.r) || !Overwrites(w, op, op.r);
    }
  }

  lemma SomeLostIff(w: World, op: Op, w': World)
    requires Tidy(w) && Balanced(w.ledger) && Allowed(w, op) && w' == Apply(w, op)
    ensures w'.ledger.lost != {} <==> w.ledger.lost != {} || Loses(w, op)
  {
    LostIff(w, op);
  }

  ghost predicate LosesAt(ops: seq<Op>, k: nat)
    requires Perform(ops).Some? && k < |ops|
  {
    exists q: Id :: Overwrites(At(ops, k), ops[k], q) && DroppedBefore(ops, k, q)
  }

  ghost predicate HasLost(ops: seq<Op>, k: nat)
    requires Perform(ops).Some? && k <= |ops|
  {
    At(ops, k).ledger.lost != {}
  }

  lemma LosesAtIff(ops: seq<Op>, k: nat)
    requires Perform(ops).Some? && k < |ops|
    ensures LosesAt(ops, k) <==> Loses(At(ops, k), ops[k])
  {
    forall q: Id
      ensures Stranded(At(ops, k), q) <==> DroppedBefore(ops, k, q)
    {
      StrandedIff(ops, k, q);
    }
  }

  lemma LostAfter(ops: seq<Op>, k: nat)
    requires Perform(ops).Some? && k < |ops|
    ensures HasLost(ops, k + 1) <==> HasLost(ops, k) || Loses(At(ops, k), ops[k])
  {
    var w, w' := At(ops, k), At(ops, k + 1);
    assert Allowed(w, ops[k]) && w' == Apply(w, ops[k]) by {
      AtNext(ops, k);
    }
    assert Balanced(w.ledger) by {
      PrefixRuns(ops, k);
      PerformIsBalanced(ops[..k]);
    }
    SomeLostIff(w, ops[k], w');
  }

  lemma LostNext(ops: seq<Op>, k: nat)
    requires Perform(ops).Some? && k < |ops|
    ensures HasLost(ops, k + 1) <==> HasLost(ops, k) || LosesAt(ops, k)
  {
    LosesAtIff(ops, k);
    LostAfter(ops, k);
  }

  lemma LostAtEnd(ops: seq<Op>)
    requires Perform(ops).Some?
    ensures HasLost(ops, |ops|) <==> Perform(ops).value.ledger.lost != {}
    ensures !HasLost(ops, 0)
  {
    AtEnd(ops);
  }

  // The operations that lose a release.
  ghost function Losing(ops: seq<Op>): iset<nat>
    requires Perform(ops).Some?
  {
    iset k: nat | k < |ops| && LosesAt(ops, k)
  }

  lemma {:induction false} HasLostIff(ops: seq<Op>, n: nat)
    requires Perform(ops).Some? && n <= |ops|
    ensures HasLost(ops, n) <==> SomeBefore(Losing(ops), n)
    decreases n
  {
    if n == 0 {
      LostAtEnd(ops);
    } else {
      HasLostIff(ops, n - 1);
      LostNext(ops, n - 1);
    }
  }

  // A program loses a release exactly when somewhere value() was called on a result
  // with a duty, nothing was taken from it since, and it is destroyed or built over.
  lemma LostByIff(ops: seq<Op>)
    requires Perform(ops).Some?
    ensures Perform(ops).value.ledger.lost != {} <==> Losing(ops) != iset{}
  {
    LostAtEnd(ops);
    HasLostIff(ops, |ops|);
    SomeStepIff(Losing(ops), |ops|);
  }

  // In particular nothing is stranded or lost unless value() && is called for nothing.
  lemma NothingIsLost(ops: seq<Op>)
    requires Perform(ops).Some?
    requires forall i :: 0 <= i < |ops| ==> !ops[i].DropValue?
    ensures Perform(ops).value.ledger.lost == {}
    ensures forall r: Id :: !Stranded(Perform(ops).value, r)
  {
    LostByIff(ops);
    AtEnd(ops);
    forall r: Id
      ensures !Stranded(Perform(ops).value, r)
    {
      StrandedIff(ops, |ops|, r);
    }
  }

  // ---------------------------------------------------------------------------
  // When a release is made again
  // ---------------------------------------------------------------------------

  // The response that value() brings back, if the value it takes was destroyed.
  function Revives(w: World, op: Op): seq<Resp> {
    if op.TakeValue? && Undead(w, op.q) then [w.kinds[op.q].bytes.of] else []
  }

  // All of them, in order.
  function Revivals(ops: seq<Op>): seq<Resp>
    requires Perform(ops).Some?
  {
    if ops == [] then []
    else Revivals(ops[..|ops| - 1]) + Revives(Perform(ops[..|ops| - 1]).value, ops[|ops| - 1])
  }

  ghost predicate RevivesAt(ops: seq<Op>, k: nat)
    requires Perform(ops).Some? && k < |ops|
  {
    ops[k].TakeValue? && KilledBefore(ops, k, ops[k].q)
  }

  // Whether the first k operations brought any back.
  ghost predicate HasRevived(ops: seq<Op>, k: nat)
    requires Perform(ops).Some? && k <= |ops|
  {
    PrefixRuns(ops, k);
    Revivals(ops[..k]) != []
  }

  lemma RevivedNext(ops: seq<Op>, k: nat)
    requires Perform(ops).Some? && k < |ops|
    ensures HasRevived(ops, k + 1) <==> HasRevived(ops, k) || RevivesAt(ops, k)
  {
    AtNext(ops, k);
    assert ops[..k + 1][..k] == ops[..k];
    if ops[k].TakeValue? {
      UndeadIff(ops, k, ops[k].q);
    }
  }

  lemma RevivedAtEnd(ops: seq<Op>)
    requires Perform(ops).Some?
    ensures HasRevived(ops, |ops|) <==> Revivals(ops) != []
    ensures !HasRevived(ops, 0)
  {
    assert ops[..|ops|] == ops && ops[..0] == [];
  }

  // The operations that bring one back.
  ghost function Reviving(ops: seq<Op>): iset<nat>
    requires Perform(ops).Some?
  {
    iset k: nat | k < |ops| && RevivesAt(ops, k)
  }

  lemma {:induction false} HasRevivedIff(ops: seq<Op>, n: nat)
    requires Perform(ops).Some? && n <= |ops|
    ensures HasRevived(ops, n) <==> SomeBefore(Reviving(ops), n)
    decreases n
  {
    if n == 0 {
      RevivedAtEnd(ops);
    } else {
      HasRevivedIff(ops, n - 1);
      RevivedNext(ops, n - 1);
    }
  }

  // That is exactly when an error was assigned to a result with a duty, the flags of the
  // destroyed value were kept, nothing made an end of its bytes since, and value() takes
  // what is there.
  lemma RevivedIff(ops: seq<Op>)
    requires Perform(ops).Some?
    ensures Revivals(ops) != [] <==> Reviving(ops) != iset{}
  {
    RevivedAtEnd(ops);
    HasRevivedIff(ops, |ops|);
    SomeStepIff(Reviving(ops), |ops|);
  }

  // On a platform where destroying a value clears its flag, none ever is.
  lemma NothingIsRevived(ops: seq<Op>)
    requires Perform(ops).Some?
    requires forall i :: 0 <= i < |ops| && ops[i].AssignCarrier? ==> !ops[i].kept
    ensures Revivals(ops) == []
  {
    RevivedIff(ops);
  }

  // ---------------------------------------------------------------------------
  // Counting
  // ---------------------------------------------------------------------------

  // The cells that carry a duty, and the duties they carry.
  function Carrying(l: Ledger): set<Id> {
    set c | c in l.held && l.held[c] != None
  }

  function Carried(l: Ledger, cells: set<Id>): set<Token> {
    set c | c in cells && c in l.held && l.held[c] != None :: l.held[c].value
  }

  lemma {:induction false} OneDutyPerCell(l: Ledger, cells: set<Id>)
    requires Balanced(l) && cells <= Carrying(l)
    ensures |Carried(l, cells)| == |cells|
    decreases |cells|
  {
    if cells != {} {
      var c :| c in cells;
      var t := l.held[c].value;
      OneDutyPerCell(l, cells - {c});
      assert t !in Carried(l, cells - {c}) by {
        assert Owns(l, c, t);
        assert forall d :: d in cells - {c} ==> Owns(l, d, l.held[d].value);
      }
      assert Carried(l, cells) == Carried(l, cells - {c}) + {t};
    }
  }

  function Range(n: nat): (s: set<Token>)
    ensures forall t: Token :: t in s <==> t < n
    ensures |s| == n
  {
    if n == 0 then {} else Range(n - 1) + {n - 1}
  }

  function Elements(s: seq<Token>): (e: set<Token>)
    ensures forall t: Token :: t in e <==> t in s
    ensures (forall i, j :: 0 <= i < j < |s| ==> s[i] != s[j]) ==> |e| == |s|
  {
    if s == [] then {} else Elements(s[..|s| - 1]) + {s[|s| - 1]}
  }

  lemma CarriedAreOwned(l: Ledger)
    ensures forall t: Token :: t in Carried(l, Carrying(l)) <==> exists c: Id :: Owns(l, c, t)
  {
    forall t: Token | t in Carried(l, Carrying(l))
      ensures exists c: Id :: Owns(l, c, t)
    {
      var c :| c in l.held && l.held[c] != None && l.held[c].value == t;
      assert Owns(l, c, t);
    }
    forall c: Id, t: Token | Owns(l, c, t)
      ensures t in Carried(l, Carrying(l))
    {
      assert c in Carrying(l);
    }
  }

  lemma DutiesArePartitioned(l: Ledger, released: set<Token>, carried: set<Token>)
    requires Balanced(l)
    requires forall t: Token :: t in released <==> t in l.released
    requires forall t: Token :: t in carried <==> exists c: Id :: Owns(l, c, t)
    ensures released + carried + l.lost == Range(l.constructed)
    ensures released !! carried && (released + carried) !! l.lost
  {
    forall t: Token
      ensures t in released + carried + l.lost <==> t < l.constructed
      ensures !(t in released && t in carried) && !(t in released + carried && t in l.lost)
    {
    }
  }

  lemma SizeOfPartition(a: set<Token>, b: set<Token>, c: set<Token>)
    requires a !! b && (a + b) !! c
    ensures |a + b + c| == |a| + |b| + |c|
  {
  }

  lemma BalanceInNumbers(l: Ledger)
    requires Balanced(l)
    ensures |l.released| + |Carrying(l)| + |l.lost| == l.constructed
  {
    var released, carried := Elements(l.released), Carried(l, Carrying(l));
    OneDutyPerCell(l, Carrying(l));
    CarriedAreOwned(l);
    DutiesArePartitioned(l, released, carried);
    SizeOfPartition(released, carried, l.lost);
  }

  // The duties among `duties` that are for response p.
  function For(p: Resp, duties: set<Token>, origin: seq<Resp>): set<Token> {
    set t | t in duties && t < |origin| && origin[t] == p
  }

  lemma ForOneMore(p: Resp, duties: set<Token>, t: Token, origin: seq<Resp>)
    requires t !in duties && t < |origin|
    ensures |For(p, duties + {t}, origin)| == |For(p, duties, origin)| + if origin[t] == p then 1 else 0
  {
    if origin[t] == p {
      assert For(p, duties + {t}, origin) == For(p, duties, origin) + {t};
    } else {
      assert For(p, duties + {t}, origin) == For(p, duties, origin);
    }
  }

  // The responses that were released, in the order of the EXECUTE writes.
  function Releases(released: seq<Token>, origin: seq<Resp>): seq<Resp> {
    seq(|released|, i requires 0 <= i < |released| => if released[i] < |origin| then origin[released[i]] else 0)
  }

  lemma OneMoreRelease(before: seq<Token>, t: Token, origin: seq<Resp>)
    requires t < |origin|
    ensures Releases(before + [t], origin) == Releases(before, origin) + [origin[t]]
    ensures Elements(before + [t]) == Elements(before) + {t}
  {
    assert (before + [t])[..|before|] == before;
  }

  lemma MultisetOneMore(s: seq<Resp>, o: Resp, p: Resp)
    ensures multiset(s + [o])[p] == multiset(s)[p] + if o == p then 1 else 0
  {
  }

  lemma {:induction false} CountReleases(released: seq<Token>, origin: seq<Resp>, p: Resp)
    requires forall i :: 0 <= i < |released| ==> released[i] < |origin|
    requires forall i, j :: 0 <= i < j < |released| ==> released[i] != released[j]
    ensures multiset(Releases(released, origin))[p] == |For(p, Elements(released), origin)|
  {
    if released == [] {
      assert For(p, Elements(released), origin) == {};
    } else {
      var before, t := released[..|released| - 1], released[|released| - 1];
      assert released == before + [t] && t !in before;
      CountReleases(before, origin, p);
      OneMoreRelease(before, t, origin);
      MultisetOneMore(Releases(before, origin), origin[t], p);
      ForOneMore(p, Elements(before), t, origin);
    }
  }

  lemma PrefixOneMore(n: nat, origin: seq<Resp>, p: Resp)
    requires n < |origin|
    ensures multiset(origin[..n + 1])[p] == multiset(origin[..n])[p] + if origin[n] == p then 1 else 0
  {
    assert origin[..n + 1] == origin[..n] + [origin[n]];
    MultisetOneMore(origin[..n], origin[n], p);
  }

  lemma RangeOneMore(p: Resp, n: nat, origin: seq<Resp>)
    requires n < |origin|
    ensures |For(p, Range(n + 1), origin)| == |For(p, Range(n), origin)| + if origin[n] == p then 1 else 0
  {
    ForOneMore(p, Range(n), n, origin);
  }

  lemma {:induction false} CountDuties(n: nat, origin: seq<Resp>, p: Resp)
    requires n <= |origin|
    ensures |For(p, Range(n), origin)| == multiset(origin[..n])[p]
  {
    if n == 0 {
      assert For(p, Range(n), origin) == {};
    } else {
      CountDuties(n - 1, origin, p);
      RangeOneMore(p, n - 1, origin);
      PrefixOneMore(n - 1, origin, p);
    }
  }

  lemma OriginStep(w: World, op: Op, w': World)
    requires Tidy(w) && Allowed(w, op) && w' == Apply(w, op)
    ensures w'.origin == w.origin + if op.Construct? then [w.responses] else Revives(w, op)
    ensures w'.responses == w.responses + if op.Construct? then 1 else 0
  {
  }

  lemma DutiesStep(w: World, op: Op, w': World, revivals: seq<Resp>, p: Resp)
    requires Tidy(w) && Allowed(w, op) && w' == Apply(w, op)
    requires multiset(w.origin)[p] == (if p < w.responses then 1 else 0) + multiset(revivals)[p]
    ensures multiset(w'.origin)[p] == (if p < w'.responses then 1 else 0) + multiset(revivals + Revives(w, op))[p]
  {
    OriginStep(w, op, w');
    if op.Construct? {
      MultisetOneMore(w.origin, w.responses, p);
      assert revivals + [] == revivals;
    } else if Revives(w, op) != [] {
      MultisetOneMore(w.origin, w.kinds[op.q].bytes.of, p);
      MultisetOneMore(revivals, w.kinds[op.q].bytes.of, p);
    } else {
      assert revivals + [] == revivals && w.origin + [] == w.origin;
    }
  }

  // Each response has one duty, and one more for every time it was brought back.
  lemma {:induction false} DutiesOfResponse(ops: seq<Op>, p: Resp)
    requires Perform(ops).Some?
    ensures var w := Perform(ops).value;
            multiset(w.origin)[p] == (if p < w.responses then 1 else 0) + multiset(Revivals(ops))[p]
  {
    if ops != [] {
      DutiesOfResponse(ops[..|ops| - 1], p);
      DutiesStep(Perform(ops[..|ops| - 1]).value, ops[|ops| - 1], Perform(ops).value, Revivals(ops[..|ops| - 1]), p);
    }
  }

  lemma ForIsPartitioned(p: Resp, origin: seq<Resp>, a: set<Token>, b: set<Token>, c: set<Token>, all: set<Token>)
    requires a + b + c == all && a !! b && (a + b) !! c
    ensures |For(p, a, origin)| + |For(p, b, origin)| + |For(p, c, origin)| == |For(p, all, origin)|
  {
    assert For(p, a, origin) + For(p, b, origin) + For(p, c, origin) == For(p, all, origin);
    SizeOfPartition(For(p, a, origin), For(p, b, origin), For(p, c, origin));
  }

  // How often response p was released, and how many of its duties are carried by
  // live objects or lost.
  function ReleasesOf(w: World, p: Resp): nat { multiset(Releases(w.ledger.released, w.origin))[p] }
  function CarriedFor(w: World, p: Resp): nat { |For(p, Carried(w.ledger, Carrying(w.ledger)), w.origin)| }
  function LostFor(w: World, p: Resp): nat { |For(p, w.ledger.lost, w.origin)| }

  lemma ReleasesAreDuties(w: World, p: Resp)
    requires Tidy(w) && Balanced(w.ledger)
    ensures ReleasesOf(w, p) == |For(p, Elements(w.ledger.released), w.origin)|
  {
    CountReleases(w.ledger.released, w.origin, p);
  }

  lemma DutiesInPlaces(w: World, p: Resp)
    requires Tidy(w) && Balanced(w.ledger)
    ensures ReleasesOf(w, p) + CarriedFor(w, p) + LostFor(w, p) == multiset(w.origin)[p]
  {
    var released, carried := Elements(w.ledger.released), Carried(w.ledger, Carrying(w.ledger));
    CarriedAreOwned(w.ledger);
    DutiesArePartitioned(w.ledger, released, carried);
    ForIsPartitioned(p, w.origin, released, carried, w.ledger.lost, Range(|w.origin|));
    ReleasesAreDuties(w, p);
    CountDuties(|w.origin|, w.origin, p);
    assert w.origin[..|w.origin|] == w.origin;
  }

  // Release writes, plus live responses that still have to release, plus what was
  // lost, make up the responses ever constructed and those brought back.
  lemma ReleasesAndOwners(ops: seq<Op>, p: Resp)
    requires Perform(ops).Some? && p < Perform(ops).value.responses
    ensures var w := Perform(ops).value;
            ReleasesOf(w, p) + CarriedFor(w, p) + LostFor(w, p) == 1 + multiset(Revivals(ops))[p]
  {
    PerformIsBalanced(ops);
    DutiesInPlaces(Perform(ops).value, p);
    DutiesOfResponse(ops, p);
  }

  lemma {:induction false} DutiesInNumbers(ops: seq<Op>)
    requires Perform(ops).Some?
    ensures var w := Perform(ops).value; |w.origin| == w.responses + |Revivals(ops)|
  {
    if ops != [] {
      var before := ops[..|ops| - 1];
      DutiesInNumbers(before);
      LastStep(ops, before);
      OriginStep(Perform(before).value, ops[|ops| - 1], Perform(ops).value);
    }
  }

  // The same for all responses together, a live object carrying one duty at most.
  lemma ReleasesInNumbers(ops: seq<Op>)
    requires Perform(ops).Some?
    ensures var w := Perform(ops).value;
            |w.ledger.released| + |Carrying(w.ledger)| + |w.ledger.lost| == w.responses + |Revivals(ops)|
  {
    PerformIsBalanced(ops);
    BalanceInNumbers(Perform(ops).value.ledger);
    DutiesInNumbers(ops);
  }

  lemma NothingCarried(w: World, p: Resp)
    requires Tidy(w) && w.kinds == map[]
    ensures CarriedFor(w, p) == 0
  {
    assert w.ledger.held == map[];
    assert Carrying(w.ledger) == {} && Carried(w.ledger, {}) == {};
    assert For(p, {}, w.origin) == {};
  }

  // When every object is gone, a response was released exactly once exactly when
  // it was brought back as often as it was lost.
  lemma ReleasedOnceIff(ops: seq<Op>, p: Resp)
    requires Perform(ops).Some? && Perform(ops).value.kinds == map[] && p < Perform(ops).value.responses
    ensures var w := Perform(ops).value;
            ReleasesOf(w, p) == 1 <==> LostFor(w, p) == multiset(Revivals(ops))[p]
  {
    ReleasesAndOwners(ops, p);
    NothingCarried(Perform(ops).value, p);
  }

  lemma LostForSome(w: World, t: Token)
    requires t in w.ledger.lost && t < |w.origin|
    ensures LostFor(w, w.origin[t]) > 0
  {
    assert t in For(w.origin[t], w.ledger.lost, w.origin);
  }

  lemma LostForNone(w: World, p: Resp)
    requires w.ledger.lost == {}
    ensures LostFor(w, p) == 0
  {
    assert For(p, w.ledger.lost, w.origin) == {};
  }

  ghost predicate AllReleasedOnce(w: World) {
    forall p: Resp :: p < w.responses ==> ReleasesOf(w, p) == 1
  }

  predicate HasValueAt(ops: seq<Op>, k: nat, q: Id)
    requires Perform(ops).Some? && k <= |ops|
  {
    IsCarrier(At(ops, k), q) && At(ops, k).kinds[q].hasValue
  }

  // So if no destroyed value was brought back, each response was released exactly
  // once exactly when nothing was lost,
  lemma ReleasedExactlyOnce(ops: seq<Op>)
    requires Perform(ops).Some? && Perform(ops).value.kinds == map[] && Revivals(ops) == []
    ensures AllReleasedOnce(Perform(ops).value) <==> Perform(ops).value.ledger.lost == {}
  {
    var w := Perform(ops).value;
    PerformIsBalanced(ops);
    if w.ledger.lost == {} {
      forall p: Resp | p < w.responses ensures ReleasesOf(w, p) == 1 {
        ReleasedOnceIff(ops, p);
        LostForNone(w, p);
      }
    } else {
      var t :| t in w.ledger.lost;
      LostForSome(w, t);
      ReleasedOnceIff(ops, w.origin[t]);
    }
  }

  lemma RevivesSourced(w: World, op: Op, w': World, p: Resp)
    requires Tidy(w) && Sourced(w) && Allowed(w, op) && w' == Apply(w, op) && p in Revives(w, op)
    ensures p < w'.responses
  {
    OriginStep(w, op, w');
  }

  lemma {:induction false} RevivedResponse(ops: seq<Op>, p: Resp)
    requires Perform(ops).Some? && p in Revivals(ops)
    ensures p < Perform(ops).value.responses
  {
    var before := ops[..|ops| - 1];
    LastStep(ops, before);
    if p in Revivals(before) {
      RevivedResponse(before, p);
      OriginStep(Perform(before).value, ops[|ops| - 1], Perform(ops).value);
    } else {
      PerformIsBalanced(before);
      RevivesSourced(Perform(before).value, ops[|ops| - 1], Perform(ops).value, p);
    }
  }

  // and if nothing was lost, exactly when no destroyed value was brought back.
  lemma ReleasedOnceUnlessRevived(ops: seq<Op>)
    requires Perform(ops).Some? && Perform(ops).value.kinds == map[] && Perform(ops).value.ledger.lost == {}
    ensures AllReleasedOnce(Perform(ops).value) <==> Revivals(ops) == []
  {
    var w := Perform(ops).value;
    if Revivals(ops) == [] {
      ReleasedExactlyOnce(ops);
    } else {
      var p := Revivals(ops)[0];
      RevivedResponse(ops, p);
      assert p in multiset(Revivals(ops));
      LostForNone(w, p);
      ReleasedOnceIff(ops, p);
    }
  }

  // A program that drops no value and calls value() only on results that have one
  // releases each response exactly once.
  lemma CheckedProgram(ops: seq<Op>)
    requires Perform(ops).Some? && Perform(ops).value.kinds == map[]
    requires forall k: nat :: k < |ops| ==> !ops[k].DropValue? && (ops[k].TakeValue? ==> HasValueAt(ops, k, ops[k].q))
    ensures AllReleasedOnce(Perform(ops).value)
  {
    NothingIsLost(ops);
    RevivedIff(ops);
    forall k: nat | k < |ops|
      ensures k !in Reviving(ops)
    {
      if ops[k].TakeValue? {
        UndeadIff(ops, k, ops[k].q);
        assert HasValueAt(ops, k, ops[k].q);
      }
    }
    ReleasedExactlyOnce(ops);
  }

  // At no time was a response released twice unless it was brought back.
  lemma ReleasedTwiceOnlyIfRevived(ops: seq<Op>, p: Resp)
    requires Perform(ops).Some? && p < Perform(ops).value.responses && ReleasesOf(Perform(ops).value, p) > 1
    ensures p in Revivals(ops)
  {
    ReleasesAndOwners(ops, p);
    assert p in multiset(Revivals(ops));
  }

  // ---------------------------------------------------------------------------
  // Both happen
  // ---------------------------------------------------------------------------

  lemma PerformOneMore(ops: seq<Op>, op: Op)
    requires Perform(ops).Some? && Allowed(Perform(ops).value, op)
    ensures Perform(ops + [op]) == Some(Apply(Perform(ops).value, op))
  {
    assert (ops + [op])[..|ops|] == ops;
  }

  // A response that is only in a result.
  function OnlyWrapped(x: Id, r: Id): seq<Op> { [Construct(x)] + [WrapOk(r, x)] + [Destroy(x)] }

  lemma RunWrapped(x: Id, r: Id) returns (w: World)
    requires x != r
    ensures Perform(OnlyWrapped(x, r)) == Some(w) && Tidy(w)
    ensures w.kinds == map[r := Carrier(true, Built)] && w.ledger.held == map[r := Some(0)]
    ensures w.ledger.released == [] && w.ledger.lost == {} && w.origin == [0]
  {
    assert Perform([]) == Some(Empty());
    PerformOneMore([], Construct(x));
    assert [] + [Construct(x)] == [Construct(x)];
    var w1 := Apply(Empty(), Construct(x));
    PerformOneMore([Construct(x)], WrapOk(r, x));
    var w2 := Apply(w1, WrapOk(r, x));
    PerformOneMore([Construct(x)] + [WrapOk(r, x)], Destroy(x));
    w := Apply(w2, Destroy(x));
  }

  // A duty is lost when the value is asked for, never taken, and the result goes.
  lemma DroppedValueIsLost(x: Id, r: Id)
    requires x != r
    ensures var w := Perform(OnlyWrapped(x, r) + [DropValue(r)] + [DestroyCarrier(r)]);
            w.Some? && w.value.kinds == map[] && w.value.ledger.released == [] && w.value.ledger.lost == {0}
  {
    var w := RunWrapped(x, r);
    PerformOneMore(OnlyWrapped(x, r), DropValue(r));
    PerformOneMore(OnlyWrapped(x, r) + [DropValue(r)], DestroyCarrier(r));
  }

  lemma RunKilled(x: Id, r: Id, e: Id) returns (w: World)
    requires x != r && x != e && r != e
    ensures Perform(OnlyWrapped(x, r) + [WrapErr(e)] + [AssignCarrier(r, e, true)]) == Some(w) && Tidy(w)
    ensures w.kinds == map[r := Carrier(false, Dead(0)), e := Carrier(false, Raw)]
    ensures w.ledger.held == map[r := None, e := None]
    ensures w.ledger.released == [0] && w.ledger.constructed == 1 && w.origin == [0]
  {
    var w0 := RunWrapped(x, r);
    PerformOneMore(OnlyWrapped(x, r), WrapErr(e));
    PerformOneMore(OnlyWrapped(x, r) + [WrapErr(e)], AssignCarrier(r, e, true));
    w := Apply(Apply(w0, WrapErr(e)), AssignCarrier(r, e, true));
  }

  // A response is released twice when an error is assigned to its result, the flags of
  // the destroyed value are kept, and it is taken out after that.
  lemma RevivedValueIsReleasedTwice(x: Id, r: Id, e: Id)
    requires x != r && x != e && r != e
    ensures var w := Perform(OnlyWrapped(x, r) + [WrapErr(e)] + [AssignCarrier(r, e, true)] + [TakeValue(x, r)] + [Destroy(x)]);
            w.Some? && Releases(w.value.ledger.released, w.value.origin) == [0, 0]
  {
    var w := RunKilled(x, r, e);
    var ops := OnlyWrapped(x, r) + [WrapErr(e)] + [AssignCarrier(r, e, true)];
    PerformOneMore(ops, TakeValue(x, r));
    PerformOneMore(ops + [TakeValue(x, r)], Destroy(x));
  }
}
