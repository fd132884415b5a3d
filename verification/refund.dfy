/** What a whole CancelOrder does, and that it undoes a CreateOrder exactly. */
module Refund {
  import opened Models
  import opened Store
  import opened Protocol
  import opened Invariant
  import opened Ledger
  import opened Cancellation
  import opened Serial
  import opened Ordering

  /** The store after the first `k` items of an order have been put back. */
  function Back(db: Db, order: Order, k: nat): Db
    requires k <= |order.items|
  {
    db.(records := Raise(db.records, LinesOf(order.items)[..k]))
  }

  /** Why a cancellation is refused before it changes anything, if it is. */
  function Refusal(db: Db, userId: string, admin: bool, orderId: string): Option<Outcome> {
    if orderId !in db.orders then Some(OrderNotFound)
    else if !admin && db.orders[orderId].userId != userId then Some(AccessDenied)
    else if !db.orders[orderId].status.Pending? then Some(NotPending)
    else None
  }

  /** The store and the answer of a cancellation that is not refused. */
  predicate Restores(db: Db, order: Order, r: (Db, Call), served: bool) {
    && r.1.Ended? && r.1.last.CancelOrder?
    && r.1.last.next <= |order.items|
    && r.0.records == Back(db, order, r.1.last.next).records
    && (if r.1.outcome.OrderCancelled? then
          r.1.last.next == |order.items| && r.0.orders == db.orders[order.id := order.(status := Cancelled)]
        else
          r.1.outcome.StoreError? && r.0.orders == db.orders)
    && (served ==> r.1.outcome.OrderCancelled?)
  }

  predicate CancelAnswer(db: Db, userId: string, admin: bool, orderId: string, r: (Db, Call), served: bool) {
    match Refusal(db, userId, admin, orderId)
    case Some(refusal) => r.0 == db && r.1.Ended? && (r.1.outcome == refusal || (!served && r.1.outcome.StoreError?))
    case None => Restores(db, db.orders[orderId], r, served)
  }

  function CancelFrame(userId: string, admin: bool, order: Order, k: nat, copy: Option<Record>): Call {
    CancelOrder(userId, admin, order.id, Some(order), k, copy)
  }

  lemma BackNext(db: Db, order: Order, k: nat)
    requires Keyed(db) && k < |order.items|
    ensures var item := order.items[k];
            var before := Back(db, order, k);
            Back(db, order, k + 1) ==
              if item.recordId in db.records then
                var rec := before.records[item.recordId];
                SaveRecord(before, rec.(stock := rec.stock + item.quantity))
              else before
  {
    var lines := LinesOf(order.items);
    var item := order.items[k];
    assert lines[..k + 1] == lines[..k] + [lines[k]];
    forall r
      ensures Demand(lines[..k + 1], r) == Demand(lines[..k], r) + if item.recordId == r then item.quantity else 0
    {
      DemandSnoc(lines[..k], lines[k], r);
    }
  }

  /** `served`: the store answers to the end. */
  lemma {:induction false} PlayFromItem(
    db: Db, userId: string, admin: bool, order: Order, mint: Mint, fuel: nat, k: nat, served: bool)
    requires Keyed(db) && k <= |order.items|
    requires served ==> fuel > 2 * (|order.items| - k)
    ensures Restores(db, order,
              Play(Back(db, order, k), CancelFrame(userId, admin, order, k, None), mint, fuel), served)
    decreases fuel
  {
    if fuel == 0 || k == |order.items| {
      PlayLast(db, userId, admin, order, mint, fuel, k, served);
    } else {
      ReadItem(db, userId, admin, order, mint, k, fuel);
      if order.items[k].recordId in db.records {
        PlayFromCopy(db, userId, admin, order, mint, fuel - 1, k, served);
      } else {
        PlayFromItem(db, userId, admin, order, mint, fuel - 1, k + 1, served);
      }
    }
  }

  lemma PlayLast(db: Db, userId: string, admin: bool, order: Order, mint: Mint, fuel: nat, k: nat, served: bool)
    requires Keyed(db) && k <= |order.items| && (fuel == 0 || k == |order.items|) && (served ==> fuel > 0)
    ensures Restores(db, order,
              Play(Back(db, order, k), CancelFrame(userId, admin, order, k, None), mint, fuel), served)
  {
  }

  lemma ReadItem(db: Db, userId: string, admin: bool, order: Order, mint: Mint, k: nat, fuel: nat)
    requires Keyed(db) && k < |order.items| && fuel > 0
    ensures var before := Back(db, order, k); var id := order.items[k].recordId;
            Play(before, CancelFrame(userId, admin, order, k, None), mint, fuel)
            == if id in db.records then
                 Play(before, CancelFrame(userId, admin, order, k, Some(before.records[id])), mint, fuel - 1)
               else Play(Back(db, order, k + 1), CancelFrame(userId, admin, order, k + 1, None), mint, fuel - 1)
  {
    BackNext(db, order, k);
  }

  lemma {:induction false} PlayFromCopy(
    db: Db, userId: string, admin: bool, order: Order, mint: Mint, fuel: nat, k: nat, served: bool)
    requires Keyed(db) && k < |order.items| && order.items[k].recordId in db.records
    requires served ==> fuel >= 2 * (|order.items| - k)
    ensures var before := Back(db, order, k);
            var c := CancelFrame(userId, admin, order, k, Some(before.records[order.items[k].recordId]));
            Restores(db, order, Play(before, c, mint, fuel), served)
    decreases fuel
  {
    if fuel == 0 {
      PlayUnserved(db, userId, admin, order, mint, k);
    } else {
      SaveItem(db, userId, admin, order, mint, k, fuel);
      PlayFromItem(db, userId, admin, order, mint, fuel - 1, k + 1, served);
    }
  }

  /** The store fails when item `k` is about to be saved. */
  lemma PlayUnserved(db: Db, userId: string, admin: bool, order: Order, mint: Mint, k: nat)
    requires k < |order.items| && order.items[k].recordId in db.records
    ensures var before := Back(db, order, k);
            var c := CancelFrame(userId, admin, order, k, Some(before.records[order.items[k].recordId]));
            Restores(db, order, Play(before, c, mint, 0), false)
  {
  }

  lemma SaveItem(db: Db, userId: string, admin: bool, order: Order, mint: Mint, k: nat, fuel: nat)
    requires Keyed(db) && k < |order.items| && order.items[k].recordId in db.records && fuel > 0
    ensures var before := Back(db, order, k);
            var c := CancelFrame(userId, admin, order, k, Some(before.records[order.items[k].recordId]));
            Play(before, c, mint, fuel)
            == Play(Back(db, order, k + 1), CancelFrame(userId, admin, order, k + 1, None), mint, fuel - 1)
  {
    BackNext(db, order, k);
  }

  /**
   * A whole CancelOrder: refused for the reported reason without any change, or every item's units are put
   * back on their records and the order is marked cancelled. A store error on the way leaves the first k
   * items put back and the order as it was.
   */
  lemma CancelOrderDoes(db: Db, userId: string, admin: bool, orderId: string, mint: Mint, fuel: nat)
    requires Keyed(db)
    ensures var r := Play(db, CancelOrder(userId, admin, orderId, None, 0, None), mint, fuel);
            CancelAnswer(db, userId, admin, orderId, r,
                         fuel > if orderId in db.orders then 2 * |db.orders[orderId].items| + 1 else 0)
            && (orderId != "" ==> Serve(db, CancelOrder(userId, admin, orderId, None, 0, None), mint, fuel) == r)
  {
    if orderId in db.orders {
      var order := db.orders[orderId];
      assert LinesOf(order.items)[..0] == [];
      assert Back(db, order, 0) == db;
      if Refusal(db, userId, admin, orderId).None? && fuel > 0 {
        PlayFromItem(db, userId, admin, order, mint, fuel - 1, 0, fuel > 2 * |order.items| + 1);
      }
    }
  }

  // ---- the whole request ----

  /** The refusals, one by one, and success exactly for the order's owner or an administrator while it is pending. */
  lemma CancellationIsAnswered(db: Db, userId: string, admin: bool, orderId: string, mint: Mint, fuel: nat)
    requires Keyed(db)
    ensures var outcome := Serve(db, CancelOrder(userId, admin, orderId, None, 0, None), mint, fuel).1.outcome;
      var known := orderId != "" && orderId in db.orders;
      && (outcome.BadRequest? <==> orderId == "")
      && (outcome.OrderNotFound? <==> orderId != "" && orderId !in db.orders && fuel > 0)
      && (outcome.AccessDenied? <==> known && !admin && db.orders[orderId].userId != userId && fuel > 0)
      && (outcome.NotPending? <==>
            known && (admin || db.orders[orderId].userId == userId) && !db.orders[orderId].status.Pending? && fuel > 0)
      && (outcome.OrderCancelled? ==>
            known && (admin || db.orders[orderId].userId == userId) && db.orders[orderId].status.Pending?)
      && (known && (admin || db.orders[orderId].userId == userId) && db.orders[orderId].status.Pending? ==>
            fuel > 2 * |db.orders[orderId].items| + 1 ==> outcome.OrderCancelled?)
  {
    if orderId != "" { CancelOrderDoes(db, userId, admin, orderId, mint, fuel); }
    if orderId in db.orders && fuel > 0 { RefusalIsReported(db, userId, admin, orderId, mint, fuel); }
  }

  lemma RefusalIsReported(db: Db, userId: string, admin: bool, orderId: string, mint: Mint, fuel: nat)
    requires orderId in db.orders && fuel > 0
    ensures var refusal := Refusal(db, userId, admin, orderId);
      refusal.Some? ==>
        Play(db, CancelOrder(userId, admin, orderId, None, 0, None), mint, fuel).1.outcome == refusal.value
  {
  }

  /** On success every record rises by the order's units, and of the orders only this one's status changes. */
  lemma CancellationRestores(db: Db, userId: string, admin: bool, orderId: string, mint: Mint, fuel: nat)
    requires Keyed(db)
    ensures var (db', e) := Serve(db, CancelOrder(userId, admin, orderId, None, 0, None), mint, fuel);
      if e.outcome.OrderCancelled? then
        && orderId in db.orders
        && db'.orders == db.orders[orderId := db.orders[orderId].(status := Cancelled)]
        && (forall id :: id in db'.records <==> id in db.records)
        && (forall id :: id in db.records ==>
              db'.records[id]
              == db.records[id].(stock := db.records[id].stock + Units(db.orders[orderId].items, id)))
      else
        && db'.orders == db.orders
        && (e.outcome.StoreError? || db' == db)
        && (e.outcome.StoreError? && orderId in db.orders ==>
              exists k: nat ::
                && k <= |db.orders[orderId].items|
                && db'.records == Raise(db.records, LinesOf(db.orders[orderId].items)[..k]))
  {
    if orderId != "" {
      CancelOrderDoes(db, userId, admin, orderId, mint, fuel);
      CancellationIsAnswered(db, userId, admin, orderId, mint, fuel);
      if orderId in db.orders {
        var lines := LinesOf(db.orders[orderId].items);
        assert lines[..|lines|] == lines;
        assert Raise(db.records, lines[..0]) == db.records;
      }
    }
  }

  // ---- round trip ----

  lemma RaiseUndoesLower(shelf: Shelf, lines: seq<Line>)
    ensures Raise(Lower(shelf, lines), lines) == shelf
  {
  }

  lemma LinesOfItems(shelf: Shelf, lines: seq<Line>)
    requires forall i :: 0 <= i < |lines| ==>
              lines[i].recordId in shelf && shelf[lines[i].recordId].id == lines[i].recordId
    ensures LinesOf(ItemsAt(shelf, lines)) == lines
  {
  }

  /** A successful order followed by its owner's cancellation leaves every record exactly as it was. */
  lemma CreateThenCancel(
    db: Db, userId: string, lines: seq<Line>, address: Address, mint: Mint, fuel: nat, mint': Mint, fuel': nat)
    requires Keyed(db) && Positive(lines) && Feasible(db.records, lines)
    requires fuel > 2 * |lines| && fuel' > 2 * |lines| + 1
    ensures var db1 := Play(db, CreateOrder(userId, lines, address, [], None), mint, fuel).0;
            var db2 := Play(db1, CancelOrder(userId, false, mint.id, None, 0, None), mint', fuel').0;
            && db2.records == db.records
            && db2.orders ==
               db.orders[mint.id := OrderOf(mint, userId, ItemsAt(db.records, lines), address).(status := Cancelled)]
  {
    var (db1, e) := Play(db, CreateOrder(userId, lines, address, [], None), mint, fuel);
    CreateOrderDoes(db, userId, lines, address, mint, fuel);
    assert e.outcome.OrderCreated? by { CreateOrderSucceedsExactlyWhen(db, userId, lines, address, mint, fuel); }
    assert lines[..|lines|] == lines;
    LinesOfItems(db.records, lines);
    CancelOrderDoes(db1, userId, false, mint.id, mint', fuel');
    assert LinesOf(db1.orders[mint.id].items)[..|lines|] == lines;
    RaiseUndoesLower(db.records, lines);
  }

  // ---- archived records in serial histories ----

  /** Restocking, archiving and creating never save a copy of an archived record. */
  lemma {:induction false} ArchivedIsSkipped(db: Db, c: Call, mint: Mint, fuel: nat, id: string)
    requires Keyed(db) && id in db.records && db.records[id].archived && mint.id != id
    requires c.RestockRecord? || c.ArchiveRecord? || c.CreateRecord? || c.Ended?
    requires Copy(c).Some? ==> Copy(c).value.id != id
    ensures var db' := Play(db, c, mint, fuel).0;
            Find(db'.records, id) == Find(db.records, id) && db'.orders == db.orders
    decreases fuel
  {
    if fuel > 0 && !c.Ended? {
      var (db', c') := Act(db, c, mint);
      ArchivedIsSkipped(db', c', mint, fuel - 1, id);
    }
  }

  /** A whole call that neither cancels nor updates leaves an archived record alone, and sells none of it. */
  lemma ArchivedIsFrozen(db: Db, c: Call, mint: Mint, fuel: nat, id: string)
    requires DbOk(db) && Initial(c) && !c.CancelOrder? && !c.UpdateRecord?
    requires FreshMint(db, mint) && id in db.records && db.records[id].archived
    ensures var db' := Play(db, Admit(c), mint, fuel).0;
      && Find(db'.records, id) == Some(db.records[id])
      && (forall oid :: oid in db'.orders && oid !in db.orders ==> Units(db'.orders[oid].items, id) == 0)
  {
    if c.CreateOrder? && !Admit(c).Ended? {
      var (db', e) := Play(db, Admit(c), mint, fuel);
      CreateOrderDoes(db, c.userId, c.lines, c.address, mint, fuel);
      var taken := c.lines[..|e.last.items|];
      DemandNonNegative(taken, id);
      LinesOfItems(db.records, taken);
    } else {
      ArchivedIsSkipped(db, Admit(c), mint, fuel, id);
    }
  }

  lemma ArchivedIsNotTaken(db: Db, c: Call, mint: Mint, fuel: nat, id: string)
    requires DbOk(db) && Initial(c) && id in db.records && db.records[id].archived
    ensures Taken(Play(db, Admit(c), mint, fuel).1, id) == 0
  {
    if c.CreateOrder? && !Admit(c).Ended? {
      var (db', e) := Play(db, Admit(c), mint, fuel);
      CreateOrderDoes(db, c.userId, c.lines, c.address, mint, fuel);
      var taken := c.lines[..|e.last.items|];
      DemandNonNegative(taken, id);
      LinesOfItems(db.records, taken);
    }
  }

  /** Over every serial history, no order takes a unit of a record once it is archived, and it stays archived. */
  lemma {:induction false} ArchivedIsNeverSold(s: System, ops: seq<Op>, id: string)
    requires Inv(s) && id in s.db.records && s.db.records[id].archived
    ensures var t := RunAll(s, ops);
      && id in t.db.records && t.db.records[id].archived
      && All(t.calls, Taken, id) == All(s.calls, Taken, id)
    decreases |ops|
  {
    if ops != [] {
      var op := ops[0];
      OpIsARun(s, op);
      AlwaysOk(s, OpLabels(s, op));
      ArchivedStays(s, OpLabels(s, op), id);
      if CanRun(s, op) {
        var c := Play(s.db, Admit(op.call), op.mint, op.fuel).1;
        ArchivedIsNotTaken(s.db, op.call, op.mint, op.fuel, id);
        AllSet(s.calls, op.cid, c, Taken, id);
      }
      ArchivedIsNeverSold(RunOp(s, op), ops[1..], id);
    }
  }
}
