/** What every interleaving of every handler keeps, stale saves and store errors included. */
module Invariant {
  import opened Models
  import opened Patches
  import opened Store
  import opened Protocol

  // ---- the invariant ----

  predicate RecordOk(id: string, rec: Record) {
    rec.id == id && ValidRecord(rec)
  }

  /** Every item is for at least one unit of a stored record. */
  predicate ItemsOk(db: Db, items: seq<OrderItem>) {
    forall i :: 0 <= i < |items| ==> items[i].quantity >= 1 && items[i].recordId in db.records
  }

  predicate OrderOk(db: Db, id: string, order: Order) {
    order.id == id && order.items != [] && ItemsOk(db, order.items) && order.total == Total(order.items)
  }

  predicate DbOk(db: Db) {
    && (forall id :: id in db.records ==> RecordOk(id, db.records[id]))
    && (forall id :: id in db.orders ==> OrderOk(db, id, db.orders[id]))
  }

  /** A local copy of a record: the right document, valid, of a record that is still stored. */
  predicate CopyOk(db: Db, id: string, copy: Record) {
    RecordOk(id, copy) && id in db.records && copy.createdAt == db.records[id].createdAt
  }

  /** The only change an order ever sees: pending to cancelled. */
  predicate Evolved(before: Order, after: Order) {
    && after == before.(status := after.status)
    && (after.status == before.status || (before.status.Pending? && after.status.Cancelled?))
  }

  predicate CreateOk(db: Db, c: Call)
    requires c.CreateOrder?
  {
    && ValidLines(c.lines)
    && c.userId != ""
    && |c.items| <= |c.lines|
    && LinesOf(c.items) == c.lines[..|c.items|]
    && ItemsOk(db, c.items)
    && (c.seen.Some? ==> |c.items| < |c.lines| && CopyOk(db, c.lines[|c.items|].recordId, c.seen.value))
  }

  predicate CancelOk(db: Db, c: Call)
    requires c.CancelOrder?
  {
    match c.order
    case None => c.next == 0 && c.copy.None?
    case Some(order) =>
      && c.orderId in db.orders
      && order.status.Pending?
      && Evolved(order, db.orders[c.orderId])
      && (c.admin || order.userId == c.userId)
      && c.next <= |order.items|
      && (c.copy.Some? ==> c.next < |order.items| && CopyOk(db, order.items[c.next].recordId, c.copy.value))
  }

  predicate FrameOk(db: Db, c: Call)
    requires !c.Ended?
  {
    match c
    case CreateOrder(_, _, _, _, _) => CreateOk(db, c)
    case CancelOrder(_, _, _, _, _, _) => CancelOk(db, c)
    case RestockRecord(id, quantity, read) => read.Some? ==> quantity >= 1 && CopyOk(db, id, read.value)
    case UpdateRecord(id, patch, read) => read.Some? ==> ValidPatch(patch) && CopyOk(db, id, read.value)
    case ArchiveRecord(id, read) => read.Some? ==> CopyOk(db, id, read.value)
    case CreateRecord(params) => ValidParams(params)
  }

  /** What a reported success promises about the stored documents, for ever after. */
  predicate ReportOk(db: Db, last: Call, outcome: Outcome) {
    match outcome
    case OrderCreated(id) =>
      && last.CreateOrder?
      && id in db.orders
      && |last.items| == |last.lines|
      && db.orders[id].items == last.items
      && db.orders[id].userId == last.userId
      && db.orders[id].address == last.address
    case OrderCancelled =>
      && last.CancelOrder?
      && last.orderId in db.orders
      && last.order.Some?
      && last.next == |last.order.value.items|
      && db.orders[last.orderId] == last.order.value.(status := Cancelled)
    case RecordCreated(id) => last.CreateRecord? && id in db.records
    case RecordRestocked => last.RestockRecord? && last.read.Some?
    case RecordUpdated => last.UpdateRecord? && last.read.Some?
    case RecordArchived => last.ArchiveRecord? && last.read.Some?
    case StoreError => true
    case _ => last.CancelOrder? ==> last.order.None?
  }

  predicate CallOk(db: Db, c: Call) {
    if c.Ended? then
      !c.last.Ended? && (Initial(c.last) || FrameOk(db, c.last)) && ReportOk(db, c.last, c.outcome)
    else FrameOk(db, c)
  }

  predicate Inv(s: System) {
    DbOk(s.db) && forall cid :: cid in s.calls ==> CallOk(s.db, s.calls[cid])
  }

  // ---- how the collections may change ----

  /** Nothing is deleted, creation times stay, and orders only go from pending to cancelled. */
  predicate Grows(before: Db, after: Db) {
    && (forall id :: id in before.records ==>
          id in after.records && after.records[id].createdAt == before.records[id].createdAt)
    && (forall id :: id in before.orders ==>
          id in after.orders && Evolved(before.orders[id], after.orders[id]))
  }

  lemma GrowsTransitive(a: Db, b: Db, c: Db)
    requires Grows(a, b) && Grows(b, c)
    ensures Grows(a, c)
  {
  }

  lemma FrameStays(before: Db, after: Db, c: Call)
    requires Grows(before, after) && !c.Ended? && FrameOk(before, c)
    ensures FrameOk(after, c)
  {
    if c.CreateOrder? {
      assert ItemsOk(after, c.items);
    }
  }

  /** A call's own invariant survives whatever the other calls write. */
  lemma CallStays(before: Db, after: Db, c: Call)
    requires Grows(before, after) && CallOk(before, c)
    ensures CallOk(after, c)
  {
    if !c.Ended? {
      FrameStays(before, after, c);
    } else if !Initial(c.last) {
      FrameStays(before, after, c.last);
    }
  }

  lemma OrdersStay(before: Db, after: Db, id: string)
    requires Grows(before, after) && id in before.orders && OrderOk(before, id, before.orders[id])
    ensures OrderOk(after, id, after.orders[id])
  {
  }

  lemma SaveRecordOk(db: Db, rec: Record)
    requires DbOk(db) && ValidRecord(rec)
    requires rec.id in db.records ==> rec.createdAt == db.records[rec.id].createdAt
    ensures Grows(db, SaveRecord(db, rec)) && DbOk(SaveRecord(db, rec))
  {
    var after := SaveRecord(db, rec);
    forall id | id in after.orders ensures OrderOk(after, id, after.orders[id]) {
      OrdersStay(db, after, id);
    }
  }

  /** Saving a copy with more stock. */
  lemma RaiseOk(db: Db, id: string, copy: Record, quantity: int)
    requires DbOk(db) && CopyOk(db, id, copy) && quantity >= 1
    ensures var after := SaveRecord(db, copy.(stock := copy.stock + quantity)); Grows(db, after) && DbOk(after)
  {
    SaveRecordOk(db, copy.(stock := copy.stock + quantity));
  }

  lemma DecrementOk(db: Db, id: string, quantity: int)
    requires DbOk(db) && CanDecrement(db, id, quantity)
    ensures Grows(db, Decrement(db, id, quantity)) && DbOk(Decrement(db, id, quantity))
  {
    var rec := db.records[id];
    assert Decrement(db, id, quantity) == SaveRecord(db, rec.(stock := rec.stock - quantity));
    SaveRecordOk(db, rec.(stock := rec.stock - quantity));
  }

  lemma SaveOrderOk(db: Db, order: Order)
    requires DbOk(db) && OrderOk(db, order.id, order)
    requires order.id in db.orders ==> Evolved(db.orders[order.id], order)
    ensures Grows(db, SaveOrder(db, order)) && DbOk(SaveOrder(db, order))
  {
    var after := SaveOrder(db, order);
    forall id | id in after.orders ensures OrderOk(after, id, after.orders[id]) {
      assert OrderOk(db, id, after.orders[id]);
    }
  }

  lemma ActCreateOrderOk(db: Db, c: Call, mint: Mint)
    requires DbOk(db) && c.CreateOrder? && CreateOk(db, c) && !IdTaken(db, c, mint)
    ensures var (db', c') := ActCreateOrder(db, c, mint); Grows(db, db') && DbOk(db') && CallOk(db', c')
  {
    var n := |c.items|;
    if n == |c.lines| {
      assert LinesOf(c.items)[0] == c.lines[0];
      SaveOrderOk(db, OrderOf(mint, c.userId, c.items, c.address));
      FrameStays(db, ActCreateOrder(db, c, mint).0, c);
    } else if c.seen.Some? {
      TakeLineOk(db, c, mint);
    }
  }

  lemma TakeLineOk(db: Db, c: Call, mint: Mint)
    requires DbOk(db) && c.CreateOrder? && CreateOk(db, c) && |c.items| < |c.lines| && c.seen.Some?
    ensures var (db', c') := ActCreateOrder(db, c, mint); Grows(db, db') && DbOk(db') && CallOk(db', c')
  {
    var n := |c.items|;
    var line := c.lines[n];
    if CanDecrement(db, line.recordId, line.quantity) {
      DecrementOk(db, line.recordId, line.quantity);
      var (db', c') := ActCreateOrder(db, c, mint);
      FrameStays(db, db', c);
      assert LinesOf(c'.items) == LinesOf(c.items) + [line];
      assert c.lines[..n + 1] == c.lines[..n] + [line];
    }
  }

  lemma ActCancelOrderOk(db: Db, c: Call)
    requires DbOk(db) && c.CancelOrder? && CancelOk(db, c)
    ensures var (db', c') := ActCancelOrder(db, c); Grows(db, db') && DbOk(db') && CallOk(db', c')
  {
    if c.order.None? {
      ReadOrderOk(db, c);
    } else {
      assert OrderOk(db, c.orderId, db.orders[c.orderId]);
      if c.next == |c.order.value.items| {
        FinishCancelOk(db, c);
      } else if c.copy.Some? {
        RestoreLineOk(db, c);
      } else {
        ReadLineOk(db, c);
      }
    }
  }

  lemma ReadOrderOk(db: Db, c: Call)
    requires DbOk(db) && c.CancelOrder? && CancelOk(db, c) && c.order.None?
    ensures var (db', c') := ActCancelOrder(db, c); db' == db && CallOk(db', c')
  {
    assert c.orderId in db.orders ==> OrderOk(db, c.orderId, db.orders[c.orderId]);
  }

  lemma ReadLineOk(db: Db, c: Call)
    requires DbOk(db) && c.CancelOrder? && CancelOk(db, c)
    requires c.order.Some? && c.next < |c.order.value.items| && c.copy.None?
    ensures var (db', c') := ActCancelOrder(db, c); db' == db && CallOk(db', c')
  {
  }

  lemma FinishCancelOk(db: Db, c: Call)
    requires DbOk(db) && c.CancelOrder? && CancelOk(db, c)
    requires c.order.Some? && c.next == |c.order.value.items|
    requires OrderOk(db, c.orderId, db.orders[c.orderId])
    ensures var (db', c') := ActCancelOrder(db, c); Grows(db, db') && DbOk(db') && CallOk(db', c')
  {
    SaveOrderOk(db, c.order.value.(status := Cancelled));
    FrameStays(db, ActCancelOrder(db, c).0, c);
  }

  lemma PassItemOk(before: Db, after: Db, c: Call)
    requires Grows(before, after) && c.CancelOrder? && CancelOk(before, c)
             && c.order.Some? && c.next < |c.order.value.items|
    ensures CallOk(after, c.(next := c.next + 1, copy := None))
  {
    FrameStays(before, after, c);
  }

  lemma PutBackOk(db: Db, c: Call, after: Db)
    requires DbOk(db) && c.CancelOrder? && CancelOk(db, c)
    requires c.order.Some? && c.next < |c.order.value.items| && c.copy.Some?
    requires ItemsOk(db, c.order.value.items) && after == ActCancelOrder(db, c).0
    ensures Grows(db, after) && DbOk(after)
  {
    var item := c.order.value.items[c.next];
    RaiseOk(db, item.recordId, c.copy.value, item.quantity);
  }

  lemma RestoreLineOk(db: Db, c: Call)
    requires DbOk(db) && c.CancelOrder? && CancelOk(db, c)
    requires c.order.Some? && c.next < |c.order.value.items| && c.copy.Some?
    requires ItemsOk(db, c.order.value.items)
    ensures var (db', c') := ActCancelOrder(db, c); Grows(db, db') && DbOk(db') && CallOk(db', c')
  {
    var after := ActCancelOrder(db, c).0;
    PutBackOk(db, c, after);
    PassItemOk(db, after, c);
  }

  lemma ReadRestockOk(db: Db, c: Call)
    requires DbOk(db) && c.RestockRecord? && c.read.None?
    ensures var (db', c') := ActRestockRecord(db, c); db' == db && CallOk(db, c')
  {
    assert c.id in db.records ==> RecordOk(c.id, db.records[c.id]);
  }

  lemma RestockEndsOk(before: Db, after: Db, c: Call)
    requires Grows(before, after) && c.RestockRecord? && FrameOk(before, c) && c.read.Some?
    ensures CallOk(after, Ended(c, RecordRestocked))
  {
    FrameStays(before, after, c);
  }

  lemma SaveRestockOk(db: Db, c: Call)
    requires DbOk(db) && c.RestockRecord? && FrameOk(db, c) && c.read.Some?
    ensures var (db', c') := ActRestockRecord(db, c); Grows(db, db') && DbOk(db') && CallOk(db', c')
  {
    RaiseOk(db, c.id, c.read.value, c.quantity);
    RestockEndsOk(db, ActRestockRecord(db, c).0, c);
  }

  lemma ActRestockRecordOk(db: Db, c: Call)
    requires DbOk(db) && c.RestockRecord? && FrameOk(db, c)
    ensures var (db', c') := ActRestockRecord(db, c); Grows(db, db') && DbOk(db') && CallOk(db', c')
  {
    if c.read.Some? {
      SaveRestockOk(db, c);
    } else {
      ReadRestockOk(db, c);
    }
  }

  lemma ActUpdateRecordOk(db: Db, c: Call)
    requires DbOk(db) && c.UpdateRecord? && FrameOk(db, c)
    ensures var (db', c') := ActUpdateRecord(db, c); Grows(db, db') && DbOk(db') && CallOk(db', c')
  {
    if c.read.Some? {
      var rec := Apply(c.patch, c.read.value);
      SaveRecordOk(db, rec);
      FrameStays(db, SaveRecord(db, rec), c);
    }
  }

  lemma ActArchiveRecordOk(db: Db, c: Call)
    requires DbOk(db) && c.ArchiveRecord? && FrameOk(db, c)
    ensures var (db', c') := ActArchiveRecord(db, c); Grows(db, db') && DbOk(db') && CallOk(db', c')
  {
    if c.read.Some? {
      var rec := c.read.value.(archived := true);
      SaveRecordOk(db, rec);
      FrameStays(db, SaveRecord(db, rec), c);
    }
  }

  lemma ActOk(db: Db, c: Call, mint: Mint)
    requires DbOk(db) && CallOk(db, c) && !IdTaken(db, c, mint)
    ensures var (db', c') := Act(db, c, mint); Grows(db, db') && DbOk(db') && CallOk(db', c')
  {
    if c.CreateOrder? {
      ActCreateOrderOk(db, c, mint);
    } else if c.CancelOrder? {
      ActCancelOrderOk(db, c);
    } else if c.CreateRecord? {
      SaveRecordOk(db, NewRecord(mint, c.params));
    } else if c.RestockRecord? {
      ActRestockRecordOk(db, c);
    } else if c.UpdateRecord? {
      ActUpdateRecordOk(db, c);
    } else if c.ArchiveRecord? {
      ActArchiveRecordOk(db, c);
    }
  }

  /** One call moves on while the others keep their frames. */
  lemma OneMoves(s: System, db: Db, cid: nat, c: Call)
    requires Inv(s) && Grows(s.db, db) && DbOk(db) && CallOk(db, c)
    ensures Inv(System(db, s.calls[cid := c]))
  {
    var t := System(db, s.calls[cid := c]);
    forall k | k in t.calls ensures CallOk(t.db, t.calls[k]) {
      if k != cid { CallStays(s.db, db, s.calls[k]); }
    }
  }

  lemma AdmitOk(db: Db, c: Call)
    requires Initial(c)
    ensures CallOk(db, Admit(c))
  {
  }

  lemma NextOk(s: System, l: Label)
    requires Inv(s)
    ensures Inv(Next(s, l)) && Grows(s.db, Next(s, l).db)
  {
    if l.Arrive? {
      if l.cid !in s.calls && Initial(l.call) {
        AdmitOk(s.db, l.call);
        OneMoves(s, s.db, l.cid, Admit(l.call));
      }
    } else if Moves(s, l) {
      var (db, c) := if l.fails then (s.db, Ended(s.calls[l.cid], StoreError)) else Act(s.db, s.calls[l.cid], l.mint);
      ActOk(s.db, s.calls[l.cid], l.mint);
      OneMoves(s, db, l.cid, c);
    }
  }

  /**
   * Every interleaving of all handlers keeps every stored record valid (stock never negative), every
   * order priced by its own items over stored records, every in-flight copy valid and every reported
   * success true; no document disappears, creation times stay, and an order's contents never change
   * while its status only goes from pending to cancelled.
   */
  lemma {:induction false} AlwaysOk(s: System, ls: seq<Label>)
    requires Inv(s)
    ensures Inv(Exec(s, ls)) && Grows(s.db, Exec(s, ls).db)
    decreases |ls|
  {
    if ls != [] {
      NextOk(s, ls[0]);
      AlwaysOk(Next(s, ls[0]), ls[1..]);
      GrowsTransitive(s.db, Next(s, ls[0]).db, Exec(s, ls).db);
    }
  }
}
