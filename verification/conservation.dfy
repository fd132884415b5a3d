/** What the books say about stock: conservation over every interleaving, and exactly when units get lost. */
module Conservation {
  import opened Models
  import opened Sums
  import opened Store
  import opened Protocol
  import opened Invariant
  import opened Ledger

  // ---- conservation ----

  /** Units put back by a cancellation that is still running or ended with a store error. */
  function Returning(c: Call, r: string): int {
    Restored(c, r) - Undone(c, r)
  }

  function Unsold(c: Call, r: string): int {
    Held(c, r) + Dropped(c, r)
  }

  function Supplied(c: Call, r: string): int {
    Restocked(c, r) + Edited(c, r)
  }

  function Inflow(c: Call, r: string): int {
    Restored(c, r) + Supplied(c, r)
  }

  /** Units of `r` on the shelf, in live orders and in unfinished or abandoned orders, less what was brought in. */
  ghost function Balance(s: System, r: string): int {
    Stock(s.db, r) + Sold(s.db, r) + All(s.calls, Held, r) + All(s.calls, Dropped, r)
    - All(s.calls, Returning, r) - All(s.calls, Restocked, r) - All(s.calls, Edited, r)
  }

  /** Regrouping the books of the calls. */
  lemma BalanceByNet(s: System, r: string)
    ensures Balance(s, r) == Stock(s.db, r) - All(s.calls, Net, r)
                             + Sold(s.db, r) - All(s.calls, Placed, r) + All(s.calls, Undone, r)
  {
    AllSplit(s.calls, Inflow, Net, Taken, r);
    AllSplit(s.calls, Inflow, Restored, Supplied, r);
    AllSplit(s.calls, Supplied, Restocked, Edited, r);
    AllSplit(s.calls, Taken, Unsold, Placed, r);
    AllSplit(s.calls, Unsold, Held, Dropped, r);
    AllSplit(s.calls, Restored, Returning, Undone, r);
  }

  /** Every interleaving of every handler: the balance moves by the two losses and by nothing else. */
  lemma Conserved(s: System, ls: seq<Label>, r: string)
    requires Inv(s)
    ensures Balance(Exec(s, ls), r) == Balance(s, r) + StaleSum(s, ls, r) + RecancelledSum(s, ls, r)
  {
    StockLedger(s, ls, r);
    OrderLedger(s, ls, r);
    BalanceByNet(s, r);
    BalanceByNet(Exec(s, ls), r);
  }

  /** The store call finds the stock it is about to write over as it was read, and the order not yet cancelled. */
  predicate StepIsExact(db: Db, c: Call) {
    && (Copy(c).Some? ==> Copy(c).value.stock == Stock(db, Copy(c).value.id))
    && (MarksCancelled(c) && c.orderId in db.orders ==> !db.orders[c.orderId].status.Cancelled?)
  }

  /** One store call keeps every record's balance if and only if `StepIsExact` holds before it. */
  lemma ConservesExactlyWhen(s: System, l: Label)
    requires Inv(s) && Acts(s, l)
    ensures (forall r :: Balance(Next(s, l), r) == Balance(s, r)) <==> StepIsExact(s.db, s.calls[l.cid])
  {
    var c := s.calls[l.cid];
    forall r ensures Balance(Next(s, l), r) == Balance(s, r) + Stale(s.db, c, r) + Recancelled(s.db, c, r) {
      NextStock(s, l, r);
      NextSold(s, l, r);
      BalanceByNet(s, r);
      BalanceByNet(Next(s, l), r);
    }
    if MarksCancelled(c) {
      var items := c.order.value.items;
      assert OrderOk(s.db, c.orderId, s.db.orders[c.orderId]);
      assert items == s.db.orders[c.orderId].items;
      var r := items[0].recordId;
      assert LinesOf(items)[0].recordId == r;
      DemandNonNegative(LinesOf(items), r);
      assert Recancelled(s.db, c, r) != 0 || !s.db.orders[c.orderId].status.Cancelled?;
      if !StepIsExact(s.db, c) { assert Balance(Next(s, l), r) != Balance(s, r); }
    } else if Copy(c).Some? {
      var r := Copy(c).value.id;
      if !StepIsExact(s.db, c) { assert Balance(Next(s, l), r) != Balance(s, r); }
    }
  }

  // ---- runs in which every save finds the document as it was read ----

  predicate FreshSave(db: Db, c: Call) {
    && (Copy(c).Some? ==> Find(db.records, Copy(c).value.id) == Copy(c))
    && (MarksCancelled(c) ==> Find(db.orders, c.orderId) == c.order)
  }

  predicate FreshRun(s: System, ls: seq<Label>)
    decreases |ls|
  {
    ls == [] || ((Acts(s, ls[0]) ==> FreshSave(s.db, s.calls[ls[0].cid])) && FreshRun(Next(s, ls[0]), ls[1..]))
  }

  /** A run is its first step and the rest. */
  lemma RunCons(s: System, l: Label, rest: seq<Label>)
    requires FreshRun(Next(s, l), rest) && (Acts(s, l) ==> FreshSave(s.db, s.calls[l.cid]))
    ensures Exec(s, [l] + rest) == Exec(Next(s, l), rest) && FreshRun(s, [l] + rest)
  {
    assert ([l] + rest)[1..] == rest;
  }

  lemma {:induction false} FreshConcat(s: System, a: seq<Label>, b: seq<Label>)
    requires FreshRun(s, a) && FreshRun(Exec(s, a), b)
    ensures FreshRun(s, a + b)
    decreases |a|
  {
    if a == [] {
      assert a + b == b;
    } else {
      assert (a + b)[1..] == a[1..] + b;
      FreshConcat(Next(s, a[0]), a[1..], b);
    }
  }

  /** A list of systems, each the next of the one before. */
  lemma {:induction false} Traces(ss: seq<System>, ls: seq<Label>)
    requires |ss| == |ls| + 1
    requires forall i :: 0 <= i < |ls| ==> Next(ss[i], ls[i]) == ss[i + 1]
    ensures Exec(ss[0], ls) == ss[|ls|]
    ensures FreshRun(ss[0], ls) <==>
              forall i :: 0 <= i < |ls| && Acts(ss[i], ls[i]) ==> FreshSave(ss[i].db, ss[i].calls[ls[i].cid])
    decreases |ls|
  {
    if ls != [] {
      Traces(ss[1..], ls[1..]);
      assert forall i :: 0 <= i < |ls| - 1 ==> ss[1..][i] == ss[i + 1] && ls[1..][i] == ls[i + 1];
      assert forall i :: 1 <= i < |ls| ==> ss[i] == ss[1..][i - 1] && ls[i] == ls[1..][i - 1];
    }
  }

  lemma FreshSaveIsExact(db: Db, c: Call, r: string)
    requires CallOk(db, c) && FreshSave(db, c) && !c.Ended?
    ensures Stale(db, c, r) == 0 && Recancelled(db, c, r) == 0
  {
  }

  lemma {:induction false} FreshLosesNothing(s: System, ls: seq<Label>, r: string)
    requires Inv(s) && FreshRun(s, ls)
    ensures StaleSum(s, ls, r) == 0 && RecancelledSum(s, ls, r) == 0
    decreases |ls|
  {
    if ls != [] {
      NextOk(s, ls[0]);
      if Acts(s, ls[0]) { FreshSaveIsExact(s.db, s.calls[ls[0].cid], r); }
      FreshLosesNothing(Next(s, ls[0]), ls[1..], r);
    }
  }

  lemma NetByParts(calls: map<nat, Call>, r: string)
    ensures All(calls, Net, r) == All(calls, Restocked, r) + All(calls, Edited, r)
                                  + All(calls, Restored, r) - All(calls, Taken, r)
  {
    AllSplit(calls, Inflow, Net, Taken, r);
    AllSplit(calls, Inflow, Restored, Supplied, r);
    AllSplit(calls, Supplied, Restocked, Edited, r);
  }

  /** What the calls so far account for: restocked + edited + restored - taken. */
  ghost function Accounted(calls: map<nat, Call>, r: string): int {
    All(calls, Restocked, r) + All(calls, Edited, r) + All(calls, Restored, r) - All(calls, Taken, r)
  }

  /** If no save overwrites a change it has not read, the calls account for the stock exactly, at every moment. */
  lemma FreshStockIsExact(s: System, ls: seq<Label>, r: string)
    requires Inv(s) && FreshRun(s, ls)
    ensures var t := Exec(s, ls);
            Stock(t.db, r) - Stock(s.db, r) == Accounted(t.calls, r) - Accounted(s.calls, r)
  {
    FreshLosesNothing(s, ls, r);
    StockLedger(s, ls, r);
    NetByParts(s.calls, r);
    NetByParts(Exec(s, ls).calls, r);
  }

  /** Every call has ended, and none of them with a store error. */
  predicate Settled(s: System) {
    forall cid :: cid in s.calls ==> s.calls[cid].Ended? && !s.calls[cid].outcome.StoreError?
  }

  lemma AllZero(calls: map<nat, Call>, weight: Weight, r: string)
    requires forall cid :: cid in calls ==> weight(calls[cid], r) == 0
    ensures All(calls, weight, r) == 0
  {
    AllSplit(calls, weight, weight, weight, r);
  }

  lemma SettledCall(db: Db, c: Call, r: string)
    requires DbOk(db) && CallOk(db, c) && c.Ended? && !c.outcome.StoreError?
    ensures Held(c, r) == 0 && Returning(c, r) == 0
  {
  }

  /** Shelf, live orders and the units of abandoned orders, less what was restocked and edited in. */
  ghost function SettledBalance(s: System, r: string): int {
    Stock(s.db, r) + Sold(s.db, r) + All(s.calls, Dropped, r) - All(s.calls, Restocked, r) - All(s.calls, Edited, r)
  }

  lemma SettledIsBalance(s: System, r: string)
    requires Inv(s) && Settled(s)
    ensures Balance(s, r) == SettledBalance(s, r)
  {
    forall cid | cid in s.calls ensures Held(s.calls[cid], r) == 0 && Returning(s.calls[cid], r) == 0 {
      SettledCall(s.db, s.calls[cid], r);
    }
    AllZero(s.calls, Held, r);
    AllZero(s.calls, Returning, r);
  }

  /** From one settled state to another, such a run keeps the settled balance of every record. */
  lemma SettledConserves(s: System, ls: seq<Label>, r: string)
    requires Inv(s) && Settled(s) && FreshRun(s, ls) && Settled(Exec(s, ls))
    ensures SettledBalance(Exec(s, ls), r) == SettledBalance(s, r)
  {
    FreshLosesNothing(s, ls, r);
    Conserved(s, ls, r);
    AlwaysOk(s, ls);
    SettledIsBalance(s, r);
    SettledIsBalance(Exec(s, ls), r);
  }

  // ---- order calls only ----

  /** Only order calls run. */
  predicate OrdersOnly(s: System, ls: seq<Label>) {
    && (forall cid :: cid in s.calls ==> Frame(s.calls[cid]).CreateOrder?)
    && (forall i :: 0 <= i < |ls| && ls[i].Arrive? ==> ls[i].call.CreateOrder?)
  }

  lemma OrdersOnlyNext(s: System, ls: seq<Label>)
    requires Inv(s) && OrdersOnly(s, ls) && ls != []
    ensures OrdersOnly(Next(s, ls[0]), ls[1..])
  {
  }

  lemma {:induction false} OrdersOnlyIsFresh(s: System, ls: seq<Label>)
    requires Inv(s) && OrdersOnly(s, ls)
    ensures FreshRun(s, ls) && OrdersOnly(Exec(s, ls), [])
    decreases |ls|
  {
    if ls != [] {
      NextOk(s, ls[0]);
      OrdersOnlyNext(s, ls);
      OrdersOnlyIsFresh(Next(s, ls[0]), ls[1..]);
    }
  }

  /** All that an order call weighs is units taken. */
  lemma OrderCallWeighs(db: Db, c: Call, r: string)
    requires CallOk(db, c) && Frame(c).CreateOrder?
    ensures Returning(c, r) == 0 && Restocked(c, r) == 0 && Edited(c, r) == 0 && Undone(c, r) == 0
    ensures Held(c, r) >= 0 && Dropped(c, r) >= 0 && Placed(c, r) >= 0
  {
    DemandNonNegative(LinesOf(Frame(c).items), r);
  }

  lemma OrderCallsWeigh(t: System, r: string)
    requires Inv(t) && OrdersOnly(t, [])
    ensures All(t.calls, Returning, r) == 0 && All(t.calls, Restocked, r) == 0 && All(t.calls, Edited, r) == 0
    ensures All(t.calls, Undone, r) == 0
    ensures All(t.calls, Held, r) >= 0 && All(t.calls, Dropped, r) >= 0 && All(t.calls, Placed, r) >= 0
  {
    forall cid | cid in t.calls
      ensures Returning(t.calls[cid], r) == 0 && Restocked(t.calls[cid], r) == 0 && Edited(t.calls[cid], r) == 0
      ensures Undone(t.calls[cid], r) == 0
      ensures Held(t.calls[cid], r) >= 0 && Dropped(t.calls[cid], r) >= 0 && Placed(t.calls[cid], r) >= 0
    {
      OrderCallWeighs(t.db, t.calls[cid], r);
    }
    OrderSums(t.calls, r);
  }

  lemma OrderSums(calls: map<nat, Call>, r: string)
    requires forall cid :: cid in calls ==>
      && Returning(calls[cid], r) == 0 && Restocked(calls[cid], r) == 0 && Edited(calls[cid], r) == 0
      && Undone(calls[cid], r) == 0
      && Held(calls[cid], r) >= 0 && Dropped(calls[cid], r) >= 0 && Placed(calls[cid], r) >= 0
    ensures All(calls, Returning, r) == 0 && All(calls, Restocked, r) == 0 && All(calls, Edited, r) == 0
    ensures All(calls, Undone, r) == 0
    ensures All(calls, Held, r) >= 0 && All(calls, Dropped, r) >= 0 && All(calls, Placed, r) >= 0
  {
    AllZero(calls, Returning, r);
    AllZero(calls, Restocked, r);
    AllZero(calls, Edited, r);
    AllZero(calls, Undone, r);
    SumNonNegative(calls, Weigh(Held, r));
    SumNonNegative(calls, Weigh(Dropped, r));
    SumNonNegative(calls, Weigh(Placed, r));
  }

  /** Shelf, live orders, and the units held by running order calls and dropped by failed ones. */
  ghost function OrdersBalance(s: System, r: string): int {
    Stock(s.db, r) + Sold(s.db, r) + All(s.calls, Held, r) + All(s.calls, Dropped, r)
  }

  /** Any number of concurrent orders, under every schedule and with any store errors, keep that balance. */
  lemma OrdersConserve(s: System, ls: seq<Label>, r: string)
    requires Inv(s) && OrdersOnly(s, ls)
    ensures OrdersBalance(Exec(s, ls), r) == OrdersBalance(s, r)
  {
    OrdersOnlyIsFresh(s, ls);
    FreshLosesNothing(s, ls, r);
    Conserved(s, ls, r);
    AlwaysOk(s, ls);
    OrderCallsWeigh(s, r);
    OrderCallsWeigh(Exec(s, ls), r);
  }

  /** So never more units are sold, held or dropped than were on the shelf. */
  lemma NoOversell(s: System, ls: seq<Label>, r: string)
    requires Inv(s) && s.calls == map[] && OrdersOnly(s, ls)
    ensures var t := Exec(s, ls);
      && 0 <= Sold(t.db, r) - Sold(s.db, r) <= Stock(s.db, r)
      && Sold(t.db, r) - Sold(s.db, r) + All(t.calls, Held, r) + All(t.calls, Dropped, r) <= Stock(s.db, r)
  {
    var t := Exec(s, ls);
    OrdersConserve(s, ls, r);
    OrdersOnlyIsFresh(s, ls);
    FreshLosesNothing(s, ls, r);
    OrderLedger(s, ls, r);
    AlwaysOk(s, ls);
    OrderCallsWeigh(t, r);
  }
}
