// The ledger of Ownership, carried out on real objects: every operation writes 0
// to the response's EXECUTE exactly when the ledger records a release.
module Objects {
  import opened Common
  import opened Mailbox
  import opened Response
  import opened Ownership

  // What an object of the program looks like: a response that will release when it
  // is destroyed or not; a result with its has_value_ flag, storage that is raw, or
  // a response in it that would.
  datatype View = Nothing | Alone(owes: bool) | InResult(hasValue: bool, raw: bool, owes: bool)
  {
    predicate Owes() { !Nothing? && owes }
  }

  function Seen(v: map<Id, View>, c: Id): View {
    if c in v then v[c] else Nothing
  }

  predicate HasValue(v: map<Id, View>, q: Id) {
    Seen(v, q).InResult? && Seen(v, q).hasValue
  }

  // Whether the objects an operation names are there, and have what it takes.
  predicate Possible(v: map<Id, View>, op: Op) {
    match op
    case Construct(x) => Seen(v, x).Nothing?
    case MoveConstruct(x, y) => Seen(v, x).Nothing? && Seen(v, y).Alone?
    case MoveAssign(x, y) => Seen(v, x).Alone? && Seen(v, y).Alone?
    case Destroy(x) => Seen(v, x).Alone?
    case WrapOk(r, y) => Seen(v, r).Nothing? && Seen(v, y).Alone?
    case WrapErr(r) => Seen(v, r).Nothing?
    case MoveCarrier(r, q) => Seen(v, r).Nothing? && Seen(v, q).InResult?
    case AssignCarrier(r, q, _) => Seen(v, r).InResult? && Seen(v, q).InResult?
    case DestroyCarrier(r) => Seen(v, r).InResult?
    case TakeValue(x, q) => Seen(v, x).Nothing? && Seen(v, q).InResult? && !Seen(v, q).raw
    case DropValue(q) => Seen(v, q).InResult? && !Seen(v, q).raw
    case Unwrap(x, q) => Seen(v, x).Nothing? && HasValue(v, q)
    case UnwrapOr(x, q, d) => Seen(v, x).Nothing? && Seen(v, q).InResult? && Seen(v, d).Alone?
  }

  const EMPTIED := InResult(false, false, false)

  function Moved(v: map<Id, View>, to: Id, there: View, from: Id, behind: View): map<Id, View> {
    v[to := there][from := behind]
  }

  function Flagless(view: View): View {
    if view.InResult? then view.(hasValue := false) else view
  }

  // A result that another was assigned to.
  function Assigned(r: View, q: View, kept: bool): View {
    if q.InResult? && q.hasValue then InResult(true, false, q.owes)
    else if r.InResult? && r.hasValue && !kept then InResult(false, true, false)
    else Flagless(r)
  }

  // What each operation does to the objects it names,
  function After(v: map<Id, View>, op: Op): map<Id, View> {
    match op
    case Construct(x) => v[x := Alone(true)]
    case MoveConstruct(x, y) => Moved(v, x, Alone(Seen(v, y).Owes()), y, Alone(false))
    case MoveAssign(x, y) => if x == y then v else Moved(v, x, Alone(Seen(v, y).Owes()), y, Alone(false))
    case Destroy(x) => v - {x}
    case WrapOk(r, y) => Moved(v, r, InResult(true, false, Seen(v, y).Owes()), y, Alone(false))
    case WrapErr(r) => v[r := InResult(false, true, false)]
    case MoveCarrier(r, q) =>
      if HasValue(v, q) then Moved(v, r, InResult(true, false, Seen(v, q).Owes()), q, EMPTIED)
      else v[r := InResult(false, true, false)]
    case AssignCarrier(r, q, kept) =>
      if r == q then v
      else Moved(v, r, Assigned(Seen(v, r), Seen(v, q), kept), q, if HasValue(v, q) then EMPTIED else Seen(v, q))
    case DestroyCarrier(r) => v - {r}
    case TakeValue(x, q) => Moved(v, x, Alone(Seen(v, q).Owes()), q, EMPTIED)
    case DropValue(q) => v[q := Flagless(Seen(v, q))]
    case Unwrap(x, q) => Moved(v, x, Alone(Seen(v, q).Owes()), q, EMPTIED)
    case UnwrapOr(x, q, d) =>
      if HasValue(v, q) then Moved(v, x, Alone(Seen(v, q).Owes()), q, EMPTIED) - {d}
      else v[x := Alone(Seen(v, d).Owes())] - {d}
  }

  // and the EXECUTE it writes.
  predicate Writes(v: map<Id, View>, op: Op) {
    match op
    case MoveAssign(x, y) => x != y && Seen(v, x).Owes()
    case Destroy(x) => Seen(v, x).Owes()
    case AssignCarrier(r, q, _) => r != q && HasValue(v, r) && Seen(v, r).Owes()
    case DestroyCarrier(r) => HasValue(v, r) && Seen(v, r).Owes()
    case UnwrapOr(x, q, d) => HasValue(v, q) && Seen(v, d).Owes()
    case _ => false
  }

  function Zeros(n: nat): (t: seq<Access>) {
    seq(n, _ => ResponseExecute(0))
  }

  function WritesOf(v: map<Id, View>, op: Op): seq<Access> {
    Zeros(if Writes(v, op) then 1 else 0)
  }

  // ---------------------------------------------------------------------------
  // The ledger says the same
  // ---------------------------------------------------------------------------

  function ViewOf(kind: Kind, held: Option<Token>): View {
    match kind
    case Response => Alone(held != None)
    case Carrier(hasValue, bytes) => InResult(hasValue, bytes.Raw?, held != None || bytes.Dead?)
  }

  function ViewsOf(w: World): map<Id, View>
    requires Tidy(w)
  {
    map c | c in w.kinds :: ViewOf(w.kinds[c], w.ledger.held[c])
  }

  lemma MoveAgrees(w: World, r: Id, q: Id)
    requires Tidy(w) && r !in w.kinds && IsCarrier(w, q) && Tidy(CarrierMoved(w, r, q))
    ensures ViewsOf(CarrierMoved(w, r, q)) == After(ViewsOf(w), Op.MoveCarrier(r, q))
  {
  }

  lemma AssignValueAgrees(w: World, r: Id, q: Id, kept: bool)
    requires Tidy(w) && IsCarrier(w, r) && IsCarrier(w, q) && Tidy(CarrierAssigned(w, r, q, kept))
    requires r != q && w.kinds[q].hasValue
    ensures ViewsOf(CarrierAssigned(w, r, q, kept)) == After(ViewsOf(w), Op.AssignCarrier(r, q, kept))
  {
  }

  lemma AssignErrorAgrees(w: World, r: Id, q: Id, kept: bool)
    requires Tidy(w) && IsCarrier(w, r) && IsCarrier(w, q) && Tidy(CarrierAssigned(w, r, q, kept))
    requires r != q && !w.kinds[q].hasValue
    ensures ViewsOf(CarrierAssigned(w, r, q, kept)) == After(ViewsOf(w), Op.AssignCarrier(r, q, kept))
  {
  }

  lemma TakeAgrees(w: World, x: Id, q: Id)
    requires Tidy(w) && x !in w.kinds && IsCarrier(w, q) && Tidy(ValueTaken(w, x, q))
    ensures ViewsOf(ValueTaken(w, x, q)) == After(ViewsOf(w), Op.TakeValue(x, q))
  {
  }

  lemma UnwrapOrAgrees(w: World, x: Id, q: Id, d: Id)
    requires Tidy(w) && x !in w.kinds && IsCarrier(w, q) && IsResponse(w, d) && Tidy(UnwrappedOr(w, x, q, d))
    ensures ViewsOf(UnwrappedOr(w, x, q, d)) == After(ViewsOf(w), Op.UnwrapOr(x, q, d))
  {
  }

  lemma ResponseAgrees(w: World, op: Op)
    requires Tidy(w) && Allowed(w, op) && Tidy(Apply(w, op))
    requires op.Construct? || op.MoveConstruct? || op.MoveAssign? || op.Destroy?
    ensures ViewsOf(Apply(w, op)) == After(ViewsOf(w), op)
  {
  }

  lemma CarrierAgrees(w: World, op: Op)
    requires Tidy(w) && Allowed(w, op) && Tidy(Apply(w, op))
    requires op.WrapOk? || op.WrapErr? || op.DestroyCarrier? || op.DropValue? || op.Unwrap?
    ensures ViewsOf(Apply(w, op)) == After(ViewsOf(w), op)
  {
  }

  lemma LedgerReleases(w: World, op: Op)
    requires Tidy(w) && Allowed(w, op)
    ensures |Apply(w, op).ledger.released| == |w.ledger.released| + if Writes(ViewsOf(w), op) then 1 else 0
  {
  }

  lemma PossibleIfAllowed(w: World, op: Op)
    requires Tidy(w) && Allowed(w, op)
    ensures Possible(ViewsOf(w), op)
  {
  }

  // An operation the program can take is one its objects can, and leads to the same.
  lemma LedgerAgrees(w: World, op: Op, w': World)
    requires Tidy(w) && Allowed(w, op) && w' == Apply(w, op) && Tidy(w')
    ensures Possible(ViewsOf(w), op) && ViewsOf(w') == After(ViewsOf(w), op)
    ensures Zeros(|w'.ledger.released|) == Zeros(|w.ledger.released|) + WritesOf(ViewsOf(w), op)
  {
    PossibleIfAllowed(w, op);
    LedgerReleases(w, op);
    match op
    case MoveCarrier(r, q) => MoveAgrees(w, r, q);
    case AssignCarrier(r, q, kept) =>
      if r != q {
        if w.kinds[q].hasValue { AssignValueAgrees(w, r, q, kept); } else { AssignErrorAgrees(w, r, q, kept); }
      }
    case TakeValue(x, q) => TakeAgrees(w, x, q);
    case UnwrapOr(x, q, d) => UnwrapOrAgrees(w, x, q, d);
    case Construct(_) => ResponseAgrees(w, op);
    case MoveConstruct(_, _) => ResponseAgrees(w, op);
    case MoveAssign(_, _) => ResponseAgrees(w, op);
    case Destroy(_) => ResponseAgrees(w, op);
    case _ => CarrierAgrees(w, op);
  }

  // ---------------------------------------------------------------------------
  // The objects of a name
  // ---------------------------------------------------------------------------

  // The fields of a result and of a response that matter here.
  datatype ResultFields = ResultFields(hasValue: bool, error: Option<McuError>, storage: Storage)
  datatype CellFields = CellFields(cell: CaliptraMailboxResponse, regs: Registers, released: bool)

  ghost function OfResult(o: ResponseResult): ResultFields
    reads o
  {
    ResultFields(o.hasValue, o.error, o.storage)
  }

  ghost function OfCell(o: CaliptraMailboxResponse): CellFields
    reads o
  {
    CellFields(o, o.regs, o.released)
  }

  // What the objects of a name look like, if they belong together: the result it
  // names and the response it names or the result has.
  ghost function Look(regs: Registers, result: Option<ResultFields>, cell: Option<CellFields>): Option<View> {
    if cell.Some? && cell.value.regs != regs then None
    else if result.None? then Some(if cell.None? then Nothing else Alone(!cell.value.released))
    else if result.value.hasValue && (cell.None? || result.value.error != None) then None
    else if result.value.storage != (if cell.None? then Storage.Raw else Holds(cell.value.cell)) then None
    else Some(InResult(result.value.hasValue, cell.None?, cell.Some? && !cell.value.released))
  }

  // ---------------------------------------------------------------------------
  // A program
  // ---------------------------------------------------------------------------

  // The responses and results of a program that all belong to one mailbox. cells
  // has the response object of every name that has one, on its own or in a result.
  datatype Table = Table(results: map<Id, ResponseResult>, cells: map<Id, CaliptraMailboxResponse>)
  {
    ghost function LookAt(regs: Registers, c: Id): Option<View>
      reads *
    {
      Look(regs, if c in results then Some(OfResult(results[c])) else None,
        if c in cells then Some(OfCell(cells[c])) else None)
    }

    // No object has two names.
    ghost predicate Separate(regs: Registers, names: map<object, Id>) {
      && regs !in names
      && (forall c: Id :: c in results ==> results[c] in names && names[results[c]] == c)
      && (forall c: Id :: c in cells ==> cells[c] in names && names[cells[c]] == c)
    }

    ghost predicate Matches(regs: Registers, names: map<object, Id>, v: map<Id, View>)
      reads *
    {
      Separate(regs, names) && forall c: Id :: LookAt(regs, c) == Some(Seen(v, c))
    }
  }

  method Construct(regs: Registers, t: Table, x: Id, dlen: u32, first: u32,
      ghost names: map<object, Id>, ghost v: map<Id, View>)
    returns (t': Table, ghost names': map<object, Id>)
    requires t.Matches(regs, names, v) && Seen(v, x).Nothing?
    modifies regs, names.Keys
    ensures t'.Matches(regs, names', After(v, Op.Construct(x))) && fresh(names'.Keys - names.Keys)
    ensures regs.trace == old(regs.trace) + WritesOf(v, Op.Construct(x))
  {
    ghost var v' := After(v, Op.Construct(x));
    assert t.LookAt(regs, x) == Some(Seen(v, x));
    var o := new CaliptraMailboxResponse(regs, dlen, first);
    t', names' := Table(t.results, t.cells[x := o]), names[o := x];
    forall c: Id ensures t'.LookAt(regs, c) == Some(Seen(v', c)) {
      if c != x {
        assert Seen(v', c) == Seen(v, c) && old(t.LookAt(regs, c) == Some(Seen(v, c)));
      }
    }
  }

  method MoveConstruct(regs: Registers, t: Table, x: Id, y: Id, ghost names: map<object, Id>, ghost v: map<Id, View>)
    returns (t': Table, ghost names': map<object, Id>)
    requires t.Matches(regs, names, v) && Seen(v, x).Nothing? && Seen(v, y).Alone?
    modifies regs, names.Keys
    ensures t'.Matches(regs, names', After(v, Op.MoveConstruct(x, y))) && fresh(names'.Keys - names.Keys)
    ensures regs.trace == old(regs.trace) + WritesOf(v, Op.MoveConstruct(x, y))
  {
    ghost var v' := After(v, Op.MoveConstruct(x, y));
    assert t.LookAt(regs, x) == Some(Seen(v, x)) && t.LookAt(regs, y) == Some(Seen(v, y));
    var o := new CaliptraMailboxResponse.Move(t.cells[y]);
    t', names' := Table(t.results, t.cells[x := o]), names[o := x];
    forall c: Id ensures t'.LookAt(regs, c) == Some(Seen(v', c)) {
      if c != x && c != y {
        assert Seen(v', c) == Seen(v, c) && old(t.LookAt(regs, c) == Some(Seen(v, c)));
      }
    }
  }

  method MoveAssign(regs: Registers, t: Table, x: Id, y: Id, ghost names: map<object, Id>, ghost v: map<Id, View>)
    returns (t': Table, ghost names': map<object, Id>)
    requires t.Matches(regs, names, v) && Seen(v, x).Alone? && Seen(v, y).Alone?
    modifies regs, names.Keys
    ensures t'.Matches(regs, names', After(v, Op.MoveAssign(x, y))) && fresh(names'.Keys - names.Keys)
    ensures regs.trace == old(regs.trace) + WritesOf(v, Op.MoveAssign(x, y))
  {
    ghost var v' := After(v, Op.MoveAssign(x, y));
    assert t.LookAt(regs, x) == Some(Seen(v, x)) && t.LookAt(regs, y) == Some(Seen(v, y));
    t.cells[x].MoveAssign(t.cells[y]);
    t', names' := t, names;
    forall c: Id ensures t'.LookAt(regs, c) == Some(Seen(v', c)) {
      if c != x && c != y {
        assert Seen(v', c) == Seen(v, c) && old(t.LookAt(regs, c) == Some(Seen(v, c)));
      }
    }
  }

  method Destroy(regs: Registers, t: Table, x: Id, ghost names: map<object, Id>, ghost v: map<Id, View>)
    returns (t': Table, ghost names': map<object, Id>)
    requires t.Matches(regs, names, v) && Seen(v, x).Alone?
    modifies regs, names.Keys
    ensures t'.Matches(regs, names', After(v, Op.Destroy(x))) && fresh(names'.Keys - names.Keys)
    ensures regs.trace == old(regs.trace) + WritesOf(v, Op.Destroy(x))
  {
    ghost var v' := After(v, Op.Destroy(x));
    assert t.LookAt(regs, x) == Some(Seen(v, x));
    t.cells[x].Destroy();
    t', names' := Table(t.results, t.cells - {x}), names;
    forall c: Id ensures t'.LookAt(regs, c) == Some(Seen(v', c)) {
      if c != x {
        assert Seen(v', c) == Seen(v, c) && old(t.LookAt(regs, c) == Some(Seen(v, c)));
      }
    }
  }

  method WrapOk(regs: Registers, t: Table, r: Id, y: Id, ghost names: map<object, Id>, ghost v: map<Id, View>)
    returns (t': Table, ghost names': map<object, Id>)
    requires t.Matches(regs, names, v) && Seen(v, r).Nothing? && Seen(v, y).Alone?
    modifies regs, names.Keys
    ensures t'.Matches(regs, names', After(v, Op.WrapOk(r, y))) && fresh(names'.Keys - names.Keys)
    ensures regs.trace == old(regs.trace) + WritesOf(v, Op.WrapOk(r, y))
  {
    ghost var v' := After(v, Op.WrapOk(r, y));
    assert t.LookAt(regs, r) == Some(Seen(v, r)) && t.LookAt(regs, y) == Some(Seen(v, y));
    var o := new ResponseResult.OkValue(t.cells[y]);
    t', names' := Table(t.results[r := o], t.cells[r := o.storage.response]), names[o := r][o.storage.response := r];
    forall c: Id ensures t'.LookAt(regs, c) == Some(Seen(v', c)) {
      if c != r && c != y {
        assert Seen(v', c) == Seen(v, c) && old(t.LookAt(regs, c) == Some(Seen(v, c)));
      }
    }
  }

  method WrapErr(regs: Registers, t: Table, r: Id, e: McuError, ghost names: map<object, Id>, ghost v: map<Id, View>)
    returns (t': Table, ghost names': map<object, Id>)
    requires t.Matches(regs, names, v) && Seen(v, r).Nothing?
    modifies regs, names.Keys
    ensures t'.Matches(regs, names', After(v, Op.WrapErr(r))) && fresh(names'.Keys - names.Keys)
    ensures regs.trace == old(regs.trace) + WritesOf(v, Op.WrapErr(r))
  {
    ghost var v' := After(v, Op.WrapErr(r));
    assert t.LookAt(regs, r) == Some(Seen(v, r));
    var o := new ResponseResult.Fail(e);
    t', names' := Table(t.results[r := o], t.cells), names[o := r];
    forall c: Id ensures t'.LookAt(regs, c) == Some(Seen(v', c)) {
      if c != r {
        assert Seen(v', c) == Seen(v, c) && old(t.LookAt(regs, c) == Some(Seen(v, c)));
      }
    }
  }

  method MoveValue(regs: Registers, t: Table, r: Id, q: Id, ghost names: map<object, Id>, ghost v: map<Id, View>)
    returns (t': Table, ghost names': map<object, Id>)
    requires t.Matches(regs, names, v) && Seen(v, r).Nothing? && Seen(v, q).InResult? && Seen(v, q).hasValue
    modifies regs, names.Keys
    ensures t'.Matches(regs, names', After(v, Op.MoveCarrier(r, q))) && fresh(names'.Keys - names.Keys)
    ensures regs.trace == old(regs.trace) + WritesOf(v, Op.MoveCarrier(r, q))
  {
    ghost var v' := After(v, Op.MoveCarrier(r, q));
    assert t.LookAt(regs, r) == Some(Seen(v, r)) && t.LookAt(regs, q) == Some(Seen(v, q));
    var o := new ResponseResult.Move(t.results[q]);
    t', names' := Table(t.results[r := o], t.cells[r := o.storage.response]), names[o := r][o.storage.response := r];
    forall c: Id ensures t'.LookAt(regs, c) == Some(Seen(v', c)) {
      if c != r && c != q {
        assert Seen(v', c) == Seen(v, c) && old(t.LookAt(regs, c) == Some(Seen(v, c)));
      }
    }
  }

  method MoveError(regs: Registers, t: Table, r: Id, q: Id, ghost names: map<object, Id>, ghost v: map<Id, View>)
    returns (t': Table, ghost names': map<object, Id>)
    requires t.Matches(regs, names, v) && Seen(v, r).Nothing? && Seen(v, q).InResult? && !Seen(v, q).hasValue
    modifies regs, names.Keys
    ensures t'.Matches(regs, names', After(v, Op.MoveCarrier(r, q))) && fresh(names'.Keys - names.Keys)
    ensures regs.trace == old(regs.trace) + WritesOf(v, Op.MoveCarrier(r, q))
  {
    ghost var v' := After(v, Op.MoveCarrier(r, q));
    assert t.LookAt(regs, r) == Some(Seen(v, r)) && t.LookAt(regs, q) == Some(Seen(v, q));
    var o := new ResponseResult.Move(t.results[q]);
    t', names' := Table(t.results[r := o], t.cells), names[o := r];
    forall c: Id ensures t'.LookAt(regs, c) == Some(Seen(v', c)) {
      if c != r && c != q {
        assert Seen(v', c) == Seen(v, c) && old(t.LookAt(regs, c) == Some(Seen(v, c)));
      }
    }
  }

  method MoveCarrier(regs: Registers, t: Table, r: Id, q: Id, ghost names: map<object, Id>, ghost v: map<Id, View>)
    returns (t': Table, ghost names': map<object, Id>)
    requires t.Matches(regs, names, v) && Seen(v, r).Nothing? && Seen(v, q).InResult?
    modifies regs, names.Keys
    ensures t'.Matches(regs, names', After(v, Op.MoveCarrier(r, q))) && fresh(names'.Keys - names.Keys)
    ensures regs.trace == old(regs.trace) + WritesOf(v, Op.MoveCarrier(r, q))
  {
    assert t.LookAt(regs, q) == Some(Seen(v, q));
    if t.results[q].hasValue {
      t', names' := MoveValue(regs, t, r, q, names, v);
    } else {
      t', names' := MoveError(regs, t, r, q, names, v);
    }
  }

  method AssignValue(regs: Registers, t: Table, r: Id, q: Id, kept: bool,
      ghost names: map<object, Id>, ghost v: map<Id, View>)
    returns (t': Table, ghost names': map<object, Id>)
    requires t.Matches(regs, names, v) && Seen(v, r).InResult? && Seen(v, q).InResult? && Seen(v, q).hasValue && r != q
    modifies regs, names.Keys
    ensures t'.Matches(regs, names', After(v, Op.AssignCarrier(r, q, kept))) && fresh(names'.Keys - names.Keys)
    ensures regs.trace == old(regs.trace) + WritesOf(v, Op.AssignCarrier(r, q, kept))
  {
    ghost var v' := After(v, Op.AssignCarrier(r, q, kept));
    assert t.LookAt(regs, r) == Some(Seen(v, r)) && t.LookAt(regs, q) == Some(Seen(v, q));
    t.results[r].MoveAssign(t.results[q], kept);
    var cell := t.results[r].storage.response;
    t', names' := Table(t.results, t.cells[r := cell]), names[cell := r];
    forall c: Id ensures t'.LookAt(regs, c) == Some(Seen(v', c)) {
      if c != r && c != q {
        assert Seen(v', c) == Seen(v, c) && old(t.LookAt(regs, c) == Some(Seen(v, c)));
      }
    }
  }

  method AssignError(regs: Registers, t: Table, r: Id, q: Id, kept: bool,
      ghost names: map<object, Id>, ghost v: map<Id, View>)
    returns (t': Table, ghost names': map<object, Id>)
    requires t.Matches(regs, names, v) && Seen(v, r).InResult?
    requires Seen(v, q).InResult? && !Seen(v, q).hasValue && Seen(v, r).hasValue && r != q
    modifies regs, names.Keys
    ensures t'.Matches(regs, names', After(v, Op.AssignCarrier(r, q, kept))) && fresh(names'.Keys - names.Keys)
    ensures regs.trace == old(regs.trace) + WritesOf(v, Op.AssignCarrier(r, q, kept))
  {
    ghost var v' := After(v, Op.AssignCarrier(r, q, kept));
    assert t.LookAt(regs, r) == Some(Seen(v, r)) && t.LookAt(regs, q) == Some(Seen(v, q));
    t.results[r].MoveAssign(t.results[q], kept);
    t', names' := Table(t.results, if kept then t.cells else t.cells - {r}), names;
    forall c: Id ensures t'.LookAt(regs, c) == Some(Seen(v', c)) {
      if c != r && c != q {
        assert Seen(v', c) == Seen(v, c) && old(t.LookAt(regs, c) == Some(Seen(v, c)));
      }
    }
  }

  method AssignNothing(regs: Registers, t: Table, r: Id, q: Id, kept: bool,
      ghost names: map<object, Id>, ghost v: map<Id, View>)
    returns (t': Table, ghost names': map<object, Id>)
    requires t.Matches(regs, names, v) && Seen(v, r).InResult?
    requires Seen(v, q).InResult? && !Seen(v, q).hasValue && !Seen(v, r).hasValue && r != q
    modifies regs, names.Keys
    ensures t'.Matches(regs, names', After(v, Op.AssignCarrier(r, q, kept))) && fresh(names'.Keys - names.Keys)
    ensures regs.trace == old(regs.trace) + WritesOf(v, Op.AssignCarrier(r, q, kept))
  {
    ghost var v' := After(v, Op.AssignCarrier(r, q, kept));
    assert t.LookAt(regs, r) == Some(Seen(v, r)) && t.LookAt(regs, q) == Some(Seen(v, q));
    t.results[r].MoveAssign(t.results[q], kept);
    t', names' := t, names;
    forall c: Id ensures t'.LookAt(regs, c) == Some(Seen(v', c)) {
      if c != r && c != q {
        assert Seen(v', c) == Seen(v, c) && old(t.LookAt(regs, c) == Some(Seen(v, c)));
      }
    }
  }

  method AssignSelf(regs: Registers, t: Table, r: Id, kept: bool, ghost names: map<object, Id>, ghost v: map<Id, View>)
    returns (t': Table, ghost names': map<object, Id>)
    requires t.Matches(regs, names, v) && Seen(v, r).InResult?
    modifies regs, names.Keys
    ensures t'.Matches(regs, names', After(v, Op.AssignCarrier(r, r, kept))) && fresh(names'.Keys - names.Keys)
    ensures regs.trace == old(regs.trace) + WritesOf(v, Op.AssignCarrier(r, r, kept))
  {
    ghost var v' := After(v, Op.AssignCarrier(r, r, kept));
    assert t.LookAt(regs, r) == Some(Seen(v, r));
    t.results[r].MoveAssign(t.results[r], kept);
    t', names' := t, names;
    forall c: Id ensures t'.LookAt(regs, c) == Some(Seen(v', c)) {
      if c != r {
        assert Seen(v', c) == Seen(v, c) && old(t.LookAt(regs, c) == Some(Seen(v, c)));
      }
    }
  }

  method AssignCarrier(regs: Registers, t: Table, r: Id, q: Id, kept: bool,
      ghost names: map<object, Id>, ghost v: map<Id, View>)
    returns (t': Table, ghost names': map<object, Id>)
    requires t.Matches(regs, names, v) && Seen(v, r).InResult? && Seen(v, q).InResult?
    modifies regs, names.Keys
    ensures t'.Matches(regs, names', After(v, Op.AssignCarrier(r, q, kept))) && fresh(names'.Keys - names.Keys)
    ensures regs.trace == old(regs.trace) + WritesOf(v, Op.AssignCarrier(r, q, kept))
  {
    assert t.LookAt(regs, r) == Some(Seen(v, r)) && t.LookAt(regs, q) == Some(Seen(v, q));
    if r == q {
      t', names' := AssignSelf(regs, t, r, kept, names, v);
    } else if t.results[q].hasValue {
      t', names' := AssignValue(regs, t, r, q, kept, names, v);
    } else if t.results[r].hasValue {
      t', names' := AssignError(regs, t, r, q, kept, names, v);
    } else {
      t', names' := AssignNothing(regs, t, r, q, kept, names, v);
    }
  }

  method DestroyCarrier(regs: Registers, t: Table, r: Id, ghost names: map<object, Id>, ghost v: map<Id, View>)
    returns (t': Table, ghost names': map<object, Id>)
    requires t.Matches(regs, names, v) && Seen(v, r).InResult?
    modifies regs, names.Keys
    ensures t'.Matches(regs, names', After(v, Op.DestroyCarrier(r))) && fresh(names'.Keys - names.Keys)
    ensures regs.trace == old(regs.trace) + WritesOf(v, Op.DestroyCarrier(r))
  {
    ghost var v' := After(v, Op.DestroyCarrier(r));
    assert t.LookAt(regs, r) == Some(Seen(v, r));
    t.results[r].Destroy();
    t', names' := Table(t.results - {r}, t.cells - {r}), names;
    forall c: Id ensures t'.LookAt(regs, c) == Some(Seen(v', c)) {
      if c != r {
        assert Seen(v', c) == Seen(v, c) && old(t.LookAt(regs, c) == Some(Seen(v, c)));
      }
    }
  }

  method TakeValue(regs: Registers, t: Table, x: Id, q: Id, ghost names: map<object, Id>, ghost v: map<Id, View>)
    returns (t': Table, ghost names': map<object, Id>)
    requires t.Matches(regs, names, v) && Seen(v, x).Nothing? && Seen(v, q).InResult? && !Seen(v, q).raw
    modifies regs, names.Keys
    ensures t'.Matches(regs, names', After(v, Op.TakeValue(x, q))) && fresh(names'.Keys - names.Keys)
    ensures regs.trace == old(regs.trace) + WritesOf(v, Op.TakeValue(x, q))
  {
    ghost var v' := After(v, Op.TakeValue(x, q));
    assert t.LookAt(regs, x) == Some(Seen(v, x)) && t.LookAt(regs, q) == Some(Seen(v, q));
    var value := t.results[q].TakeValue();
    t', names' := Table(t.results, t.cells[x := value.value]), names[value.value := x];
    forall c: Id ensures t'.LookAt(regs, c) == Some(Seen(v', c)) {
      if c != x && c != q {
        assert Seen(v', c) == Seen(v, c) && old(t.LookAt(regs, c) == Some(Seen(v, c)));
      }
    }
  }

  method DropValue(regs: Registers, t: Table, q: Id, ghost names: map<object, Id>, ghost v: map<Id, View>)
    returns (t': Table, ghost names': map<object, Id>)
    requires t.Matches(regs, names, v) && Seen(v, q).InResult? && !Seen(v, q).raw
    modifies regs, names.Keys
    ensures t'.Matches(regs, names', After(v, Op.DropValue(q))) && fresh(names'.Keys - names.Keys)
    ensures regs.trace == old(regs.trace) + WritesOf(v, Op.DropValue(q))
  {
    ghost var v' := After(v, Op.DropValue(q));
    assert t.LookAt(regs, q) == Some(Seen(v, q));
    t.results[q].Value();
    t', names' := t, names;
    forall c: Id ensures t'.LookAt(regs, c) == Some(Seen(v', c)) {
      if c != q {
        assert Seen(v', c) == Seen(v, c) && old(t.LookAt(regs, c) == Some(Seen(v, c)));
      }
    }
  }

  method Unwrap(regs: Registers, t: Table, x: Id, q: Id, ghost names: map<object, Id>, ghost v: map<Id, View>)
    returns (t': Table, ghost names': map<object, Id>)
    requires t.Matches(regs, names, v) && Seen(v, x).Nothing? && Seen(v, q).InResult? && Seen(v, q).hasValue
    modifies regs, names.Keys
    ensures t'.Matches(regs, names', After(v, Op.Unwrap(x, q))) && fresh(names'.Keys - names.Keys)
    ensures regs.trace == old(regs.trace) + WritesOf(v, Op.Unwrap(x, q))
  {
    ghost var v' := After(v, Op.Unwrap(x, q));
    assert t.LookAt(regs, x) == Some(Seen(v, x)) && t.LookAt(regs, q) == Some(Seen(v, q));
    var value := t.results[q].Unwrap();
    t', names' := Table(t.results, t.cells[x := value.value]), names[value.value := x];
    forall c: Id ensures t'.LookAt(regs, c) == Some(Seen(v', c)) {
      if c != x && c != q {
        assert Seen(v', c) == Seen(v, c) && old(t.LookAt(regs, c) == Some(Seen(v, c)));
      }
    }
  }

  method UnwrapOrValue(regs: Registers, t: Table, x: Id, q: Id, d: Id,
      ghost names: map<object, Id>, ghost v: map<Id, View>)
    returns (t': Table, ghost names': map<object, Id>)
    requires t.Matches(regs, names, v) && Seen(v, x).Nothing?
    requires Seen(v, q).InResult? && Seen(v, d).Alone? && Seen(v, q).hasValue
    modifies regs, names.Keys
    ensures t'.Matches(regs, names', After(v, Op.UnwrapOr(x, q, d))) && fresh(names'.Keys - names.Keys)
    ensures regs.trace == old(regs.trace) + WritesOf(v, Op.UnwrapOr(x, q, d))
  {
    ghost var v' := After(v, Op.UnwrapOr(x, q, d));
    assert t.LookAt(regs, x) == Some(Seen(v, x)) && t.LookAt(regs, q) == Some(Seen(v, q))
        && t.LookAt(regs, d) == Some(Seen(v, d));
    var value := t.results[q].UnwrapOr(t.cells[d]);
    t', names' := Table(t.results, t.cells[x := value.value] - {d}), names[value.value := x];
    forall c: Id ensures t'.LookAt(regs, c) == Some(Seen(v', c)) {
      if c != x && c != q && c != d {
        assert Seen(v', c) == Seen(v, c) && old(t.LookAt(regs, c) == Some(Seen(v, c)));
      }
    }
  }

  method UnwrapOrFallback(regs: Registers, t: Table, x: Id, q: Id, d: Id,
      ghost names: map<object, Id>, ghost v: map<Id, View>)
    returns (t': Table, ghost names': map<object, Id>)
    requires t.Matches(regs, names, v) && Seen(v, x).Nothing?
    requires Seen(v, q).InResult? && Seen(v, d).Alone? && !Seen(v, q).hasValue
    modifies regs, names.Keys
    ensures t'.Matches(regs, names', After(v, Op.UnwrapOr(x, q, d))) && fresh(names'.Keys - names.Keys)
    ensures regs.trace == old(regs.trace) + WritesOf(v, Op.UnwrapOr(x, q, d))
  {
    ghost var v' := After(v, Op.UnwrapOr(x, q, d));
    assert t.LookAt(regs, x) == Some(Seen(v, x)) && t.LookAt(regs, q) == Some(Seen(v, q))
        && t.LookAt(regs, d) == Some(Seen(v, d));
    var value := t.results[q].UnwrapOr(t.cells[d]);
    t', names' := Table(t.results, t.cells[x := value.value] - {d}), names[value.value := x];
    forall c: Id ensures t'.LookAt(regs, c) == Some(Seen(v', c)) {
      if c != x && c != q && c != d {
        assert Seen(v', c) == Seen(v, c) && old(t.LookAt(regs, c) == Some(Seen(v, c)));
      }
    }
  }

  method UnwrapOr(regs: Registers, t: Table, x: Id, q: Id, d: Id, ghost names: map<object, Id>, ghost v: map<Id, View>)
    returns (t': Table, ghost names': map<object, Id>)
    requires t.Matches(regs, names, v) && Seen(v, x).Nothing? && Seen(v, q).InResult? && Seen(v, d).Alone?
    modifies regs, names.Keys
    ensures t'.Matches(regs, names', After(v, Op.UnwrapOr(x, q, d))) && fresh(names'.Keys - names.Keys)
    ensures regs.trace == old(regs.trace) + WritesOf(v, Op.UnwrapOr(x, q, d))
  {
    assert t.LookAt(regs, q) == Some(Seen(v, q));
    if t.results[q].hasValue {
      t', names' := UnwrapOrValue(regs, t, x, q, d, names, v);
    } else {
      t', names' := UnwrapOrFallback(regs, t, x, q, d, names, v);
    }
  }

  // One operation, as a method call. A new response gets its length and first word,
  // and a new error its code.
  method Call(regs: Registers, t: Table, op: Op, dlen: u32, first: u32, e: McuError, ghost names: map<object, Id>,
      ghost v: map<Id, View>) returns (t': Table, ghost names': map<object, Id>)
    requires Possible(v, op) && t.Matches(regs, names, v)
    modifies regs, names.Keys
    ensures t'.Matches(regs, names', After(v, op)) && fresh(names'.Keys - names.Keys)
    ensures regs.trace == old(regs.trace) + WritesOf(v, op)
  {
    match op
    case Construct(x) => t', names' := Construct(regs, t, x, dlen, first, names, v);
    case MoveConstruct(x, y) => t', names' := MoveConstruct(regs, t, x, y, names, v);
    case MoveAssign(x, y) => t', names' := MoveAssign(regs, t, x, y, names, v);
    case Destroy(x) => t', names' := Destroy(regs, t, x, names, v);
    case WrapOk(r, y) => t', names' := WrapOk(regs, t, r, y, names, v);
    case WrapErr(r) => t', names' := WrapErr(regs, t, r, e, names, v);
    case MoveCarrier(r, q) => t', names' := MoveCarrier(regs, t, r, q, names, v);
    case AssignCarrier(r, q, kept) => t', names' := AssignCarrier(regs, t, r, q, kept, names, v);
    case DestroyCarrier(r) => t', names' := DestroyCarrier(regs, t, r, names, v);
    case TakeValue(x, q) => t', names' := TakeValue(regs, t, x, q, names, v);
    case DropValue(q) => t', names' := DropValue(regs, t, q, names, v);
    case Unwrap(x, q) => t', names' := Unwrap(regs, t, x, q, names, v);
    case UnwrapOr(x, q, d) => t', names' := UnwrapOr(regs, t, x, q, d, names, v);
  }

  // The objects are as the ledger has them, and EXECUTE was written once for every
  // release it records, after `before`.
  ghost predicate Mirrors(regs: Registers, t: Table, names: map<object, Id>, w: World, before: seq<Access>)
    reads *
  {
    Tidy(w) && t.Matches(regs, names, ViewsOf(w)) && regs.trace == before + Zeros(|w.ledger.released|)
  }

  method Do(regs: Registers, t: Table, op: Op, dlen: u32, first: u32, e: McuError, ghost names: map<object, Id>,
      ghost w: World, ghost before: seq<Access>) returns (t': Table, ghost names': map<object, Id>, ghost w': World)
    requires Mirrors(regs, t, names, w, before) && Allowed(w, op)
    modifies regs, names.Keys
    ensures w' == Apply(w, op) && Mirrors(regs, t', names', w', before)
    ensures fresh(names'.Keys - names.Keys)
  {
    w' := Apply(w, op);
    ApplyStaysTidy(w, op);
    LedgerAgrees(w, op, w');
    t', names' := Call(regs, t, op, dlen, first, e, names, ViewsOf(w));
  }

  // A whole program.
  method Run(regs: Registers, ops: seq<Op>, dlen: nat -> u32, first: nat -> u32, e: McuError)
    returns (t: Table, ghost names: map<object, Id>)
    requires Perform(ops).Some?
    modifies regs
    ensures Mirrors(regs, t, names, Perform(ops).value, old(regs.trace))
  {
    ghost var before, w := regs.trace, Empty();
    t, names := Table(map[], map[]), map[];
    AtEnd(ops);
    for i := 0 to |ops|
      invariant w == At(ops, i) && Mirrors(regs, t, names, w, before)
      invariant fresh(names.Keys)
    {
      AtNext(ops, i);
      t, names, w := Do(regs, t, ops[i], dlen(i), first(i), e, names, w, before);
    }
  }
}
