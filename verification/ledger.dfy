/**
 * The books of the store: where every unit of every record went, over every interleaving.
 *
 * Each call is charged with the units it took, restored, restocked or edited in, as read off its own
 * frame. The stock and the saved orders then follow from the calls alone, up to two losses that are
 * computed step by step: the stock overwritten by saves of outdated copies, and the units of orders
 * that were cancelled a second time.
 */
module Ledger {
  import opened Models
  import opened Sums
  import opened Patches
  import opened Store
  import opened Protocol
  import opened Invariant

  // ---- what one call did ----

  function Frame(c: Call): Call {
    if c.Ended? then c.last else c
  }

  /** Units of `r` that an order call has decremented so far. */
  function Taken(c: Call, r: string): int {
    if Frame(c).CreateOrder? then Units(Frame(c).items, r) else 0
  }

  /** Units of `r` that a cancellation has put back so far. */
  function Restored(c: Call, r: string): int {
    var f := Frame(c);
    if f.CancelOrder? && f.order.Some? && f.next <= |f.order.value.items| then Units(f.order.value.items[..f.next], r)
    else 0
  }

  function Restocked(c: Call, r: string): int {
    if c.Ended? && c.outcome.RecordRestocked? && c.last.RestockRecord? && c.last.id == r then c.last.quantity else 0
  }

  /** Units by which an update moved the stock it had read, or with which a record was created. */
  function Edited(c: Call, r: string): int {
    if c.Ended? && c.outcome.RecordUpdated? && c.last.UpdateRecord? && c.last.read.Some? && c.last.id == r then
      Apply(c.last.patch, c.last.read.value).stock - c.last.read.value.stock
    else if c.Ended? && c.outcome.RecordCreated? && c.outcome.id == r && c.last.CreateRecord? then
      c.last.params.stock
    else 0
  }

  function Net(c: Call, r: string): int {
    Restored(c, r) + Restocked(c, r) + Edited(c, r) - Taken(c, r)
  }

  /** Units of the order that a finished call saved. */
  function Placed(c: Call, r: string): int {
    if c.Ended? && c.outcome.OrderCreated? then Taken(c, r) else 0
  }

  /** Units of the order that a finished call cancelled. */
  function Undone(c: Call, r: string): int {
    if c.Ended? && c.outcome.OrderCancelled? then Restored(c, r) else 0
  }

  /** Units decremented by an order call that is still running. */
  function Held(c: Call, r: string): int {
    if c.Ended? then 0 else Taken(c, r)
  }

  /** Units decremented by an order call that ended without saving its order. */
  function Dropped(c: Call, r: string): int {
    if c.Ended? && !c.outcome.OrderCreated? then Taken(c, r) else 0
  }

  /** Units of an order that is not cancelled. */
  function SoldBy(order: Order, r: string): int {
    if order.status.Cancelled? then 0 else Units(order.items, r)
  }

  // ---- the books ----

  type Weight = (Call, string) -> int

  ghost function Weigh(weight: Weight, r: string): Call -> int {
    (c: Call) => weight(c, r)
  }

  /** The sum of a weight over all calls, running and ended. */
  ghost function All(calls: map<nat, Call>, weight: Weight, r: string): int {
    Sum(calls, Weigh(weight, r))
  }

  ghost function SoldWeight(r: string): Order -> int {
    (order: Order) => SoldBy(order, r)
  }

  ghost function Sold(db: Db, r: string): int {
    Sum(db.orders, SoldWeight(r))
  }

  lemma AllSet(calls: map<nat, Call>, cid: nat, c: Call, weight: Weight, r: string)
    ensures All(calls[cid := c], weight, r)
         == All(calls, weight, r) - (if cid in calls then weight(calls[cid], r) else 0) + weight(c, r)
  {
    SumSet(calls, cid, c, Weigh(weight, r));
  }

  lemma AllSplit(calls: map<nat, Call>, f: Weight, g: Weight, h: Weight, r: string)
    requires forall cid :: cid in calls ==> f(calls[cid], r) == g(calls[cid], r) + h(calls[cid], r)
    ensures All(calls, f, r) == All(calls, g, r) + All(calls, h, r)
  {
    SumSplit(calls, Weigh(f, r), Weigh(g, r), Weigh(h, r));
  }

  // ---- the two losses ----

  /** The copy of a record that the next store call of a frame saves back. */
  function Copy(c: Call): Option<Record> {
    match c
    case CancelOrder(_, _, _, order, next, copy) =>
      if order.Some? && next < |order.value.items| then copy else None
    case RestockRecord(_, _, read) => read
    case UpdateRecord(_, _, read) => read
    case ArchiveRecord(_, read) => read
    case _ => None
  }

  /** The next store call of the frame marks its order cancelled. */
  predicate MarksCancelled(c: Call) {
    c.CancelOrder? && c.order.Some? && c.next >= |c.order.value.items|
  }

  /** Stock written over by saving an outdated copy: what the copy says minus what is stored. */
  function Stale(db: Db, c: Call, r: string): int {
    match Copy(c)
    case None => 0
    case Some(rec) => if rec.id == r then rec.stock - Stock(db, r) else 0
  }

  /** Units of an order that is marked cancelled although it already is. */
  function Recancelled(db: Db, c: Call, r: string): int {
    if MarksCancelled(c) && c.orderId in db.orders && db.orders[c.orderId].status.Cancelled? then
      Units(c.order.value.items, r)
    else 0
  }

  function StaleSum(s: System, ls: seq<Label>, r: string): int
    decreases |ls|
  {
    if ls == [] then 0
    else (if Acts(s, ls[0]) then Stale(s.db, s.calls[ls[0].cid], r) else 0) + StaleSum(Next(s, ls[0]), ls[1..], r)
  }

  function RecancelledSum(s: System, ls: seq<Label>, r: string): int
    decreases |ls|
  {
    if ls == [] then 0
    else
      (if Acts(s, ls[0]) then Recancelled(s.db, s.calls[ls[0].cid], r) else 0)
      + RecancelledSum(Next(s, ls[0]), ls[1..], r)
  }

  // ---- one store call ----

  lemma TakeLineStock(db: Db, c: Call, mint: Mint, r: string)
    requires DbOk(db) && c.CreateOrder? && CreateOk(db, c)
    ensures var (db', c') := ActCreateOrder(db, c, mint);
            Stock(db', r) == Stock(db, r) + Net(c', r) - Net(c, r)
  {
    if c.seen.Some? {
      UnitsSnoc(c.items, ItemOf(c.seen.value, c.lines[|c.items|].quantity), r);
    }
  }

  lemma RestoreLineStock(db: Db, c: Call, r: string)
    requires DbOk(db) && c.CancelOrder? && CancelOk(db, c)
    requires c.order.Some? && c.next < |c.order.value.items|
    ensures var (db', c') := ActCancelOrder(db, c);
            Stock(db', r) == Stock(db, r) + Net(c', r) - Net(c, r) + Stale(db, c, r)
  {
    assert OrderOk(db, c.orderId, db.orders[c.orderId]);
    assert c.order.value.items == db.orders[c.orderId].items;
    UnitsNext(c.order.value.items, c.next, r);
  }

  lemma RestockStock(db: Db, c: Call, r: string)
    requires c.RestockRecord? && FrameOk(db, c)
    ensures var (db', c') := ActRestockRecord(db, c);
            Stock(db', r) == Stock(db, r) + Net(c', r) - Net(c, r) + Stale(db, c, r)
  {
  }

  lemma UpdateStock(db: Db, c: Call, r: string)
    requires c.UpdateRecord? && FrameOk(db, c)
    ensures var (db', c') := ActUpdateRecord(db, c);
            Stock(db', r) == Stock(db, r) + Net(c', r) - Net(c, r) + Stale(db, c, r)
  {
  }

  lemma ActStock(db: Db, c: Call, mint: Mint, r: string)
    requires DbOk(db) && CallOk(db, c) && !IdTaken(db, c, mint)
    ensures var (db', c') := Act(db, c, mint);
            Stock(db', r) == Stock(db, r) + Net(c', r) - Net(c, r) + Stale(db, c, r)
  {
    if c.CreateOrder? {
      TakeLineStock(db, c, mint, r);
    } else if c.RestockRecord? {
      RestockStock(db, c, r);
    } else if c.UpdateRecord? {
      UpdateStock(db, c, r);
    } else if c.CancelOrder? && c.order.Some? && c.next < |c.order.value.items| {
      RestoreLineStock(db, c, r);
    }
  }

  lemma MarkCancelledSold(db: Db, c: Call, r: string)
    requires DbOk(db) && CallOk(db, c) && MarksCancelled(c)
    ensures var (db', c') := ActCancelOrder(db, c);
            Sold(db', r) == Sold(db, r) - Undone(c', r) + Recancelled(db, c, r)
  {
    var order := c.order.value;
    assert OrderOk(db, c.orderId, db.orders[c.orderId]);
    SumSet(db.orders, order.id, order.(status := Cancelled), SoldWeight(r));
    assert order.items[..c.next] == order.items;
  }

  lemma SaveOrderSold(db: Db, c: Call, mint: Mint, r: string)
    requires c.CreateOrder? && |c.items| >= |c.lines| && mint.id !in db.orders
    ensures var (db', c') := ActCreateOrder(db, c, mint); Sold(db', r) == Sold(db, r) + Placed(c', r)
  {
    SumSet(db.orders, mint.id, OrderOf(mint, c.userId, c.items, c.address), SoldWeight(r));
  }

  lemma OtherCallSellsNothing(db: Db, c: Call, mint: Mint, r: string)
    requires !c.Ended? && !(c.CreateOrder? && |c.items| >= |c.lines|) && !MarksCancelled(c)
    ensures var (db', c') := Act(db, c, mint);
            db'.orders == db.orders && Placed(c', r) == 0 && Undone(c', r) == 0 && Recancelled(db, c, r) == 0
  {
  }

  lemma ActSold(db: Db, c: Call, mint: Mint, r: string)
    requires DbOk(db) && CallOk(db, c) && !IdTaken(db, c, mint) && !c.Ended?
    ensures var (db', c') := Act(db, c, mint);
            Sold(db', r) == Sold(db, r) + Placed(c', r) - Undone(c', r) + Recancelled(db, c, r)
  {
    if c.CreateOrder? && |c.items| >= |c.lines| {
      SaveOrderSold(db, c, mint, r);
    } else if MarksCancelled(c) {
      MarkCancelledSold(db, c, r);
    } else {
      OtherCallSellsNothing(db, c, mint, r);
    }
  }

  // ---- whole runs ----

  lemma NextStock(s: System, l: Label, r: string)
    requires Inv(s)
    ensures var t := Next(s, l);
            Stock(t.db, r) == Stock(s.db, r) + All(t.calls, Net, r) - All(s.calls, Net, r)
                              + if Acts(s, l) then Stale(s.db, s.calls[l.cid], r) else 0
  {
    var t := Next(s, l);
    if t != s {
      AllSet(s.calls, l.cid, t.calls[l.cid], Net, r);
      if Acts(s, l) { ActStock(s.db, s.calls[l.cid], l.mint, r); }
    }
  }

  lemma NextSold(s: System, l: Label, r: string)
    requires Inv(s)
    ensures var t := Next(s, l);
            Sold(t.db, r) == Sold(s.db, r) + All(t.calls, Placed, r) - All(s.calls, Placed, r)
                             - All(t.calls, Undone, r) + All(s.calls, Undone, r)
                             + if Acts(s, l) then Recancelled(s.db, s.calls[l.cid], r) else 0
  {
    var t := Next(s, l);
    if t != s {
      AllSet(s.calls, l.cid, t.calls[l.cid], Placed, r);
      AllSet(s.calls, l.cid, t.calls[l.cid], Undone, r);
      if Acts(s, l) { ActSold(s.db, s.calls[l.cid], l.mint, r); }
    }
  }

  /**
   * Every interleaving of all handlers, store errors included: the stock of every record moves by exactly
   * what the calls restored, restocked and edited minus what they took, plus the stock that saves of
   * outdated copies wrote over.
   */
  lemma {:induction false} StockLedger(s: System, ls: seq<Label>, r: string)
    requires Inv(s)
    ensures var t := Exec(s, ls);
            Stock(t.db, r) == Stock(s.db, r) + All(t.calls, Net, r) - All(s.calls, Net, r) + StaleSum(s, ls, r)
    decreases |ls|
  {
    if ls != [] {
      NextOk(s, ls[0]);
      NextStock(s, ls[0], r);
      StockLedger(Next(s, ls[0]), ls[1..], r);
    }
  }

  /** Likewise the units in orders that are not cancelled: placed minus undone, plus cancelled again. */
  lemma {:induction false} OrderLedger(s: System, ls: seq<Label>, r: string)
    requires Inv(s)
    ensures var t := Exec(s, ls);
            Sold(t.db, r) == Sold(s.db, r) + All(t.calls, Placed, r) - All(s.calls, Placed, r)
                             - All(t.calls, Undone, r) + All(s.calls, Undone, r) + RecancelledSum(s, ls, r)
    decreases |ls|
  {
    if ls != [] {
      NextOk(s, ls[0]);
      NextSold(s, ls[0], r);
      OrderLedger(Next(s, ls[0]), ls[1..], r);
    }
  }
}
