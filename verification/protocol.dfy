/**
 * The handlers as programs of atomic store calls over one shared store.
 *
 * A `Call` is the frame of one HTTP request: its arguments, its loop index and its local copies of
 * documents. `Act` performs the next store call of a frame together with the local computation up to the
 * call after it. A schedule is any sequence of labels: requests arriving, and in-flight calls advancing by
 * one store call, which the store may also answer with an error.
 */
module Protocol {
  import opened Models
  import opened Patches
  import opened Store

  datatype Outcome =
    | OrderCreated(id: string) | RecordCreated(id: string)
    | OrderCancelled | RecordRestocked | RecordUpdated | RecordArchived
    | Invalid | Unauthenticated | BadRequest
    | RecordNotFound | ArchivedConflict | InsufficientStock
    | OrderNotFound | AccessDenied | NotPending
    | StoreError

  datatype Call =
    | CreateOrder(userId: string, lines: seq<Line>, address: Address, items: seq<OrderItem>, seen: Option<Record>)
    | CancelOrder(userId: string, admin: bool, orderId: string, order: Option<Order>, next: nat, copy: Option<Record>)
    | RestockRecord(id: string, quantity: int, read: Option<Record>)
    | UpdateRecord(id: string, patch: Patch, read: Option<Record>)
    | ArchiveRecord(id: string, read: Option<Record>)
    | CreateRecord(params: RecordParams)
    | Ended(last: Call, outcome: Outcome)

  datatype System = System(db: Db, calls: map<nat, Call>)

  datatype Label = Arrive(cid: nat, call: Call) | Advance(cid: nat, fails: bool, mint: Mint)

  /** A frame before its first store call. */
  predicate Initial(c: Call) {
    match c
    case CreateOrder(_, _, _, items, seen) => items == [] && seen.None?
    case CancelOrder(_, _, _, order, next, copy) => order.None? && next == 0 && copy.None?
    case RestockRecord(_, _, read) => read.None?
    case UpdateRecord(_, _, read) => read.None?
    case ArchiveRecord(_, read) => read.None?
    case CreateRecord(_) => true
    case Ended(_, _) => false
  }

  /** What a handler decides before it touches the store. */
  function Admit(c: Call): Call {
    match c
    case CreateOrder(userId, lines, _, _, _) =>
      if !ValidLines(lines) then Ended(c, Invalid)
      else if userId == "" then Ended(c, Unauthenticated)
      else c
    case CancelOrder(_, _, orderId, _, _, _) => if orderId == "" then Ended(c, BadRequest) else c
    case RestockRecord(id, _, _) => if id == "" then Ended(c, BadRequest) else c
    case UpdateRecord(id, _, _) => if id == "" then Ended(c, BadRequest) else c
    case ArchiveRecord(id, _) => if id == "" then Ended(c, BadRequest) else c
    case CreateRecord(params) => if !ValidParams(params) then Ended(c, Invalid) else c
    case Ended(_, _) => c
  }

  // ---- one store call of each handler ----

  function ActCreateOrder(db: Db, c: Call, mint: Mint): (Db, Call)
    requires c.CreateOrder?
  {
    if |c.items| >= |c.lines| then
      (SaveOrder(db, OrderOf(mint, c.userId, c.items, c.address)), Ended(c, OrderCreated(mint.id)))
    else
      var line := c.lines[|c.items|];
      match c.seen
      case None =>
        (match Find(db.records, line.recordId)
         case None => (db, Ended(c, RecordNotFound))
         case Some(rec) => (db, if rec.archived then Ended(c, ArchivedConflict) else c.(seen := Some(rec))))
      case Some(rec) =>
        if CanDecrement(db, line.recordId, line.quantity) then
          (Decrement(db, line.recordId, line.quantity),
           c.(items := c.items + [ItemOf(rec, line.quantity)], seen := None))
        else (db, Ended(c, InsufficientStock))
  }

  function ActCancelOrder(db: Db, c: Call): (Db, Call)
    requires c.CancelOrder?
  {
    match c.order
    case None =>
      (match Find(db.orders, c.orderId)
       case None => (db, Ended(c, OrderNotFound))
       case Some(order) =>
         if !c.admin && order.userId != c.userId then (db, Ended(c, AccessDenied))
         else if !order.status.Pending? then (db, Ended(c, NotPending))
         else (db, c.(order := Some(order))))
    case Some(order) =>
      if c.next >= |order.items| then
        (SaveOrder(db, order.(status := Cancelled)), Ended(c, OrderCancelled))
      else
        var item := order.items[c.next];
        match c.copy
        case None =>
          (match Find(db.records, item.recordId)
           case None => (db, c.(next := c.next + 1))
           case Some(rec) => (db, c.(copy := Some(rec))))
        case Some(rec) =>
          (SaveRecord(db, rec.(stock := rec.stock + item.quantity)), c.(next := c.next + 1, copy := None))
  }

  function ActRestockRecord(db: Db, c: Call): (Db, Call)
    requires c.RestockRecord?
  {
    match c.read
    case None =>
      (match Find(db.records, c.id)
       case None => (db, Ended(c, RecordNotFound))
       case Some(rec) =>
         (db, if rec.archived then Ended(c, ArchivedConflict)
              else if c.quantity < 1 then Ended(c, Invalid)
              else RestockRecord(c.id, c.quantity, Some(rec))))
    case Some(rec) => (SaveRecord(db, rec.(stock := rec.stock + c.quantity)), Ended(c, RecordRestocked))
  }

  function ActUpdateRecord(db: Db, c: Call): (Db, Call)
    requires c.UpdateRecord?
  {
    match c.read
    case None =>
      (match Find(db.records, c.id)
       case None => (db, Ended(c, RecordNotFound))
       case Some(rec) =>
         (db, if !ValidPatch(c.patch) then Ended(c, Invalid) else UpdateRecord(c.id, c.patch, Some(rec))))
    case Some(rec) => (SaveRecord(db, Apply(c.patch, rec)), Ended(c, RecordUpdated))
  }

  function ActArchiveRecord(db: Db, c: Call): (Db, Call)
    requires c.ArchiveRecord?
  {
    match c.read
    case None =>
      (match Find(db.records, c.id)
       case None => (db, Ended(c, RecordNotFound))
       case Some(rec) => (db, if rec.archived then Ended(c, ArchivedConflict) else ArchiveRecord(c.id, Some(rec))))
    case Some(rec) => (SaveRecord(db, rec.(archived := true)), Ended(c, RecordArchived))
  }

  function Act(db: Db, c: Call, mint: Mint): (Db, Call) {
    match c
    case CreateOrder(_, _, _, _, _) => ActCreateOrder(db, c, mint)
    case CancelOrder(_, _, _, _, _, _) => ActCancelOrder(db, c)
    case RestockRecord(_, _, _) => ActRestockRecord(db, c)
    case UpdateRecord(_, _, _) => ActUpdateRecord(db, c)
    case ArchiveRecord(_, _) => ActArchiveRecord(db, c)
    case CreateRecord(params) => (SaveRecord(db, NewRecord(mint, params)), Ended(c, RecordCreated(mint.id)))
    case Ended(_, _) => (db, c)
  }

  // ---- schedules ----

  /** The next store call inserts a new document but the id is taken: generated ids never repeat. */
  predicate IdTaken(db: Db, c: Call, mint: Mint) {
    || (c.CreateOrder? && |c.items| >= |c.lines| && mint.id in db.orders)
    || (c.CreateRecord? && mint.id in db.records)
  }

  /** The label makes its call perform a store call (which fails if `fails` is set). */
  predicate Moves(s: System, l: Label) {
    l.Advance? && l.cid in s.calls && !s.calls[l.cid].Ended? && !IdTaken(s.db, s.calls[l.cid], l.mint)
  }

  predicate Acts(s: System, l: Label) {
    Moves(s, l) && !l.fails
  }

  /** A label that does not apply leaves the system as it is. */
  function Next(s: System, l: Label): System {
    if l.Arrive? then
      if l.cid in s.calls || !Initial(l.call) then s
      else s.(calls := s.calls[l.cid := Admit(l.call)])
    else if !Moves(s, l) then s
    else if l.fails then s.(calls := s.calls[l.cid := Ended(s.calls[l.cid], StoreError)])
    else var (db, c) := Act(s.db, s.calls[l.cid], l.mint); System(db, s.calls[l.cid := c])
  }

  function Exec(s: System, ls: seq<Label>): System
    decreases |ls|
  {
    if ls == [] then s else Exec(Next(s, ls[0]), ls[1..])
  }

  lemma {:induction false} ExecConcat(s: System, a: seq<Label>, b: seq<Label>)
    ensures Exec(s, a + b) == Exec(Exec(s, a), b)
    decreases |a|
  {
    if a == [] {
      assert a + b == b;
    } else {
      assert (a + b)[1..] == a[1..] + b;
      ExecConcat(Next(s, a[0]), a[1..], b);
    }
  }

  /** An order that arrives on an unused call id: refused, or let in as it is. */
  lemma OrderArrives(s: System, cid: nat, userId: string, lines: seq<Line>, address: Address)
    requires cid !in s.calls
    ensures var c := CreateOrder(userId, lines, address, [], None);
            Next(s, Arrive(cid, c)) == System(s.db, s.calls[cid :=
              if lines == [] || exists i :: 0 <= i < |lines| && (lines[i].recordId == "" || lines[i].quantity < 1) then
                Ended(c, Invalid)
              else if userId == "" then Ended(c, Unauthenticated)
              else c])
  {
  }

  /** Every other request likewise: only an empty id, or a record that is not valid, is refused at once. */
  lemma RequestsArrive(
    s: System, cid: nat, userId: string, admin: bool, id: string, quantity: int, patch: Patch, params: RecordParams)
    requires cid !in s.calls
    ensures var c := CancelOrder(userId, admin, id, None, 0, None);
            Next(s, Arrive(cid, c)) == System(s.db, s.calls[cid := if id == "" then Ended(c, BadRequest) else c])
    ensures var c := RestockRecord(id, quantity, None);
            Next(s, Arrive(cid, c)) == System(s.db, s.calls[cid := if id == "" then Ended(c, BadRequest) else c])
    ensures var c := UpdateRecord(id, patch, None);
            Next(s, Arrive(cid, c)) == System(s.db, s.calls[cid := if id == "" then Ended(c, BadRequest) else c])
    ensures var c := ArchiveRecord(id, None);
            Next(s, Arrive(cid, c)) == System(s.db, s.calls[cid := if id == "" then Ended(c, BadRequest) else c])
    ensures var c := CreateRecord(params);
            Next(s, Arrive(cid, c))
            == System(s.db, s.calls[cid := if ValidParams(params) then c else Ended(c, Invalid)])
  {
  }

  /** The system before the k-th label. */
  function Before(s: System, ls: seq<Label>, k: nat): System
    requires k <= |ls|
  {
    Exec(s, ls[..k])
  }

  lemma BeforeNext(s: System, ls: seq<Label>, k: nat)
    requires k < |ls|
    ensures Before(s, ls, k + 1) == Next(Before(s, ls, k), ls[k])
  {
    assert ls[..k + 1] == ls[..k] + [ls[k]];
    ExecConcat(s, ls[..k], [ls[k]]);
  }
}
