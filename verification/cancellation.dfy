/** Cancelling: how often an order's units can come back, and what creating and cancelling do together. */
module Cancellation {
  import opened Sums
  import opened Models
  import opened Store
  import opened Protocol
  import opened Invariant
  import opened Ledger
  import opened Conservation

  /** 1 for a call that reported order `oid` cancelled. */
  function Reported(c: Call, oid: string): int {
    if c.Ended? && c.outcome.OrderCancelled? && c.last.CancelOrder? && c.last.orderId == oid then 1 else 0
  }

  function IsCancelled(db: Db, oid: string): int {
    if oid in db.orders && db.orders[oid].status.Cancelled? then 1 else 0
  }

  /** The store call marks order `oid` cancelled although it already is. */
  predicate MarksAgain(db: Db, c: Call, oid: string) {
    MarksCancelled(c) && c.orderId == oid && IsCancelled(db, oid) == 1
  }

  /** How many steps of a run mark order `oid` cancelled although it already is. */
  function AgainSum(s: System, ls: seq<Label>, oid: string): nat
    decreases |ls|
  {
    if ls == [] then 0
    else
      (if Acts(s, ls[0]) && MarksAgain(s.db, s.calls[ls[0].cid], oid) then 1 else 0)
      + AgainSum(Next(s, ls[0]), ls[1..], oid)
  }

  /** At no step does a call mark order `oid` cancelled that already is. */
  predicate MarkedOnce(s: System, ls: seq<Label>, oid: string) {
    forall k: nat :: k < |ls| && Acts(Before(s, ls, k), ls[k]) ==>
      !MarksAgain(Before(s, ls, k).db, Before(s, ls, k).calls[ls[k].cid], oid)
  }

  lemma {:induction false} AgainSumIsZero(s: System, ls: seq<Label>, oid: string)
    ensures AgainSum(s, ls, oid) == 0 <==> MarkedOnce(s, ls, oid)
    decreases |ls|
  {
    if ls != [] {
      var t, rest := Next(s, ls[0]), ls[1..];
      AgainSumIsZero(t, rest, oid);
      assert Before(s, ls, 0) == s;
      forall k: nat | k < |rest| ensures Before(t, rest, k) == Before(s, ls, k + 1) && rest[k] == ls[k + 1] {
        assert ls[..k + 1][0] == ls[0] && ls[..k + 1][1..] == rest[..k];
      }
      if MarkedOnce(s, ls, oid) {
        assert MarkedOnce(t, rest, oid);
      } else {
        var k: nat :| k < |ls| && Acts(Before(s, ls, k), ls[k])
                      && MarksAgain(Before(s, ls, k).db, Before(s, ls, k).calls[ls[k].cid], oid);
        if k > 0 { assert Before(t, rest, k - 1) == Before(s, ls, k) && rest[k - 1] == ls[k]; }
      }
    }
  }

  lemma MarkReports(db: Db, c: Call, oid: string)
    requires DbOk(db) && CallOk(db, c) && MarksCancelled(c)
    ensures var (db', c') := ActCancelOrder(db, c);
            IsCancelled(db', oid) + (if MarksAgain(db, c, oid) then 1 else 0)
            == IsCancelled(db, oid) + Reported(c', oid)
  {
    assert OrderOk(db, c.orderId, db.orders[c.orderId]);
  }

  lemma ActReports(db: Db, c: Call, mint: Mint, oid: string)
    requires DbOk(db) && CallOk(db, c) && !IdTaken(db, c, mint) && !c.Ended?
    ensures var (db', c') := Act(db, c, mint);
            IsCancelled(db', oid) + (if MarksAgain(db, c, oid) then 1 else 0)
            == IsCancelled(db, oid) + Reported(c', oid)
  {
    if MarksCancelled(c) { MarkReports(db, c, oid); }
  }

  lemma NextReports(s: System, l: Label, oid: string)
    requires Inv(s)
    ensures var t := Next(s, l);
            All(t.calls, Reported, oid) - All(s.calls, Reported, oid)
            == IsCancelled(t.db, oid) - IsCancelled(s.db, oid)
               + if Acts(s, l) && MarksAgain(s.db, s.calls[l.cid], oid) then 1 else 0
  {
    var t := Next(s, l);
    if t != s {
      AllSet(s.calls, l.cid, t.calls[l.cid], Reported, oid);
      if Acts(s, l) { ActReports(s.db, s.calls[l.cid], l.mint, oid); }
    }
  }

  /**
   * In every interleaving, stale saves and store errors included, the successful cancellations of an order
   * are its change of status and the times it was marked cancelled again.
   */
  lemma {:induction false} ReportsCount(s: System, ls: seq<Label>, oid: string)
    requires Inv(s)
    ensures var t := Exec(s, ls);
            All(t.calls, Reported, oid) - All(s.calls, Reported, oid)
            == IsCancelled(t.db, oid) - IsCancelled(s.db, oid) + AgainSum(s, ls, oid)
    decreases |ls|
  {
    if ls != [] {
      NextOk(s, ls[0]);
      NextReports(s, ls[0], oid);
      ReportsCount(Next(s, ls[0]), ls[1..], oid);
    }
  }

  /** Successful cancellations count the status change if and only if no step marks the order cancelled again. */
  lemma ReportsCountExactlyWhen(s: System, ls: seq<Label>, oid: string)
    requires Inv(s)
    ensures var t := Exec(s, ls);
            All(t.calls, Reported, oid) - All(s.calls, Reported, oid) == IsCancelled(t.db, oid) - IsCancelled(s.db, oid)
            <==> MarkedOnce(s, ls, oid)
  {
    ReportsCount(s, ls, oid);
    AgainSumIsZero(s, ls, oid);
  }

  /** An order save that finds its order as it was read does not mark it again. */
  lemma {:induction false} FreshMarksOnce(s: System, ls: seq<Label>, oid: string)
    requires Inv(s) && FreshRun(s, ls)
    ensures AgainSum(s, ls, oid) == 0
    decreases |ls|
  {
    if ls != [] {
      NextOk(s, ls[0]);
      if Acts(s, ls[0]) { assert CallOk(s.db, s.calls[ls[0].cid]); }
      FreshMarksOnce(Next(s, ls[0]), ls[1..], oid);
    }
  }

  /** If no save overwrites a change it has not read, successful cancellations of an order count its status change. */
  lemma ReportsCountCancellations(s: System, ls: seq<Label>, oid: string)
    requires Inv(s) && FreshRun(s, ls)
    ensures var t := Exec(s, ls);
            All(t.calls, Reported, oid) - All(s.calls, Reported, oid) == IsCancelled(t.db, oid) - IsCancelled(s.db, oid)
  {
    ReportsCount(s, ls, oid);
    FreshMarksOnce(s, ls, oid);
  }

  /** What a call put back on behalf of order `oid`. */
  function PutBack(c: Call, oid: string, r: string): int {
    if Frame(c).CancelOrder? && Frame(c).orderId == oid then Restored(c, r) else 0
  }

  function RestoredFor(oid: string): Weight {
    (c: Call, r: string) => PutBack(c, oid, r)
  }

  /** What it put back if it reported the order cancelled. */
  function ReportedFor(oid: string): Weight {
    (c: Call, r: string) => if Reported(c, oid) == 1 then PutBack(c, oid, r) else 0
  }

  /** What it put back although it has not reported the order cancelled: it is still running or the store failed. */
  function Unreported(oid: string): Weight {
    (c: Call, r: string) => if Reported(c, oid) == 1 then 0 else PutBack(c, oid, r)
  }

  lemma ReportedRestores(db: Db, c: Call, oid: string, r: string)
    requires CallOk(db, c) && oid in db.orders
    ensures ReportedFor(oid)(c, r) == Units(db.orders[oid].items, r) * Reported(c, oid)
  {
    if Reported(c, oid) == 1 {
      var order := c.last.order.value;
      assert order.items[..c.last.next] == order.items == db.orders[oid].items;
      assert ReportedFor(oid)(c, r) == Units(db.orders[oid].items, r);
    } else {
      assert ReportedFor(oid)(c, r) == 0;
    }
  }

  lemma CallsRestore(s: System, oid: string, r: string)
    requires Inv(s) && oid in s.db.orders
    ensures All(s.calls, RestoredFor(oid), r)
         == Units(s.db.orders[oid].items, r) * All(s.calls, Reported, oid) + All(s.calls, Unreported(oid), r)
  {
    var units := Units(s.db.orders[oid].items, r);
    forall cid | cid in s.calls
      ensures Weigh(ReportedFor(oid), r)(s.calls[cid]) == units * Weigh(Reported, oid)(s.calls[cid])
    {
      ReportedRestores(s.db, s.calls[cid], oid, r);
    }
    SumScale(s.calls, Weigh(ReportedFor(oid), r), units, Weigh(Reported, oid));
    AllSplit(s.calls, RestoredFor(oid), ReportedFor(oid), Unreported(oid), r);
  }

  /** How much more the calls of one state put back for an order than those of another, over the same documents. */
  lemma RestoredByReports(s: System, t: System, oid: string, reports: int, r: string)
    requires Inv(s) && Inv(t) && s.db == t.db && oid in t.db.orders
    requires reports == All(t.calls, Reported, oid) - All(s.calls, Reported, oid)
    ensures All(t.calls, RestoredFor(oid), r) - All(s.calls, RestoredFor(oid), r)
         == Units(t.db.orders[oid].items, r) * reports
            + All(t.calls, Unreported(oid), r) - All(s.calls, Unreported(oid), r)
  {
    CallsRestore(s, oid, r);
    CallsRestore(t, oid, r);
    TimesDifference(Units(t.db.orders[oid].items, r), All(t.calls, Reported, oid), All(s.calls, Reported, oid));
  }

  /** The calls of a state keep their invariant over the documents of a later state. */
  lemma CallsStay(s: System, ls: seq<Label>)
    requires Inv(s)
    ensures Inv(Exec(s, ls)) && Inv(System(Exec(s, ls).db, s.calls))
  {
    AlwaysOk(s, ls);
    forall cid | cid in s.calls ensures CallOk(Exec(s, ls).db, s.calls[cid]) {
      CallStays(s.db, Exec(s, ls).db, s.calls[cid]);
    }
  }

  lemma RestoredPerReport(s: System, ls: seq<Label>, oid: string, reports: int, r: string)
    requires Inv(s) && oid in Exec(s, ls).db.orders
    requires reports == All(Exec(s, ls).calls, Reported, oid) - All(s.calls, Reported, oid)
    ensures var t := Exec(s, ls);
            All(t.calls, RestoredFor(oid), r) - All(s.calls, RestoredFor(oid), r)
            == Units(t.db.orders[oid].items, r) * reports
               + All(t.calls, Unreported(oid), r) - All(s.calls, Unreported(oid), r)
  {
    CallsStay(s, ls);
    RestoredByReports(System(Exec(s, ls).db, s.calls), Exec(s, ls), oid, reports, r);
  }

  /**
   * In every interleaving, stale saves and store errors included, an order's units come back once for its
   * change of status, once more for every time it is marked cancelled again, and as far as cancellations got
   * that have not reported it cancelled.
   */
  lemma RestoredCount(s: System, ls: seq<Label>, oid: string, r: string)
    requires Inv(s) && oid in Exec(s, ls).db.orders
    ensures var t := Exec(s, ls);
            All(t.calls, RestoredFor(oid), r) - All(s.calls, RestoredFor(oid), r)
            == Units(t.db.orders[oid].items, r)
               * (IsCancelled(t.db, oid) - IsCancelled(s.db, oid) + AgainSum(s, ls, oid))
               + All(t.calls, Unreported(oid), r) - All(s.calls, Unreported(oid), r)
  {
    ReportsCount(s, ls, oid);
    RestoredPerReport(s, ls, oid, IsCancelled(Exec(s, ls).db, oid) - IsCancelled(s.db, oid) + AgainSum(s, ls, oid), r);
  }

  // ---- cancellations that stop halfway ----

  /** A cancellation that has put back an item of order `oid` and has not reported the order cancelled. */
  predicate LeftHalfway(c: Call, oid: string) {
    Frame(c).CancelOrder? && Frame(c).orderId == oid && Frame(c).next > 0 && Reported(c, oid) == 0
  }

  predicate NoneHalfway(calls: map<nat, Call>, oid: string) {
    forall cid :: cid in calls ==> !LeftHalfway(calls[cid], oid)
  }

  lemma HalfwayRestores(db: Db, c: Call, oid: string, r: string)
    requires DbOk(db) && CallOk(db, c) && oid in db.orders
    ensures Unreported(oid)(c, r) >= 0
    ensures !LeftHalfway(c, oid) ==> Unreported(oid)(c, r) == 0
    ensures LeftHalfway(c, oid) && r == db.orders[oid].items[0].recordId ==> Unreported(oid)(c, r) > 0
  {
    var f := Frame(c);
    var items := db.orders[oid].items;
    assert OrderOk(db, oid, db.orders[oid]);
    if f.CancelOrder? && f.orderId == oid {
      assert Initial(f) || CancelOk(db, f);
      if f.order.Some? {
        assert f.order.value.items == items && f.next <= |items|;
        RestoredSoFar(items, f.next, r);
        assert PutBack(c, oid, r) == Units(items[..f.next], r);
      } else {
        assert f.next == 0 && PutBack(c, oid, r) == 0;
      }
    }
  }

  lemma RestoredSoFar(items: seq<OrderItem>, n: nat, r: string)
    requires n <= |items| && forall i :: 0 <= i < |items| ==> items[i].quantity >= 1
    ensures Units(items[..n], r) >= 0 && (n == 0 ==> Units(items[..n], r) == 0)
    ensures n > 0 && r == items[0].recordId ==> Units(items[..n], r) > 0
  {
    var lines := LinesOf(items[..n]);
    DemandNonNegative(lines, r);
    if n > 0 { assert lines[0].recordId == items[0].recordId; }
  }

  lemma HalfwaySums(s: System, oid: string, r: string)
    requires Inv(s) && oid in s.db.orders
    ensures All(s.calls, Unreported(oid), r) >= 0
    ensures NoneHalfway(s.calls, oid) ==> All(s.calls, Unreported(oid), r) == 0
  {
    forall cid | cid in s.calls
      ensures Weigh(Unreported(oid), r)(s.calls[cid]) >= 0
      ensures !LeftHalfway(s.calls[cid], oid) ==> Unreported(oid)(s.calls[cid], r) == 0
    {
      HalfwayRestores(s.db, s.calls[cid], oid, r);
    }
    SumNonNegative(s.calls, Weigh(Unreported(oid), r));
    if NoneHalfway(s.calls, oid) { AllZero(s.calls, Unreported(oid), r); }
  }

  lemma SomeoneHalfway(s: System, oid: string)
    requires Inv(s) && oid in s.db.orders && s.db.orders[oid].items != [] && !NoneHalfway(s.calls, oid)
    ensures All(s.calls, Unreported(oid), s.db.orders[oid].items[0].recordId) > 0
  {
    var r := s.db.orders[oid].items[0].recordId;
    var cid :| cid in s.calls && LeftHalfway(s.calls[cid], oid);
    HalfwayRestores(s.db, s.calls[cid], oid, r);
    SumRemove(s.calls, cid, Weigh(Unreported(oid), r));
    HalfwaySums(System(s.db, s.calls - {cid}), oid, r);
  }

  /** What came back for an order is its units times its change of status. */
  ghost predicate RestoredOnce(s: System, t: System, oid: string, r: string)
    requires oid in t.db.orders
  {
    All(t.calls, RestoredFor(oid), r) - All(s.calls, RestoredFor(oid), r)
    == Units(t.db.orders[oid].items, r) * (IsCancelled(t.db, oid) - IsCancelled(s.db, oid))
  }

  /** The two ways in which more comes back. */
  lemma RestoredMore(s: System, ls: seq<Label>, oid: string, r: string)
    requires Inv(s) && NoneHalfway(s.calls, oid) && oid in Exec(s, ls).db.orders
    ensures var t := Exec(s, ls);
            RestoredOnce(s, t, oid, r)
            <==> Units(t.db.orders[oid].items, r) * AgainSum(s, ls, oid) + All(t.calls, Unreported(oid), r) == 0
  {
    var t := Exec(s, ls);
    CallsStay(s, ls);
    HalfwaySums(System(t.db, s.calls), oid, r);
    RestoredCount(s, ls, oid, r);
    Surplus(Units(t.db.orders[oid].items, r), IsCancelled(t.db, oid) - IsCancelled(s.db, oid), AgainSum(s, ls, oid),
            All(t.calls, Unreported(oid), r), All(t.calls, RestoredFor(oid), r) - All(s.calls, RestoredFor(oid), r));
  }

  /**
   * From any state in which no cancellation of an order is halfway, in every interleaving, stale saves and
   * store errors included: an order's units come back exactly once if it was cancelled, and not at all
   * otherwise, if and only if no step marks it cancelled again and no cancellation of it is left halfway.
   */
  lemma RestoredOnceExactlyWhen(s: System, ls: seq<Label>, oid: string)
    requires Inv(s) && NoneHalfway(s.calls, oid) && oid in Exec(s, ls).db.orders
    ensures (forall r :: RestoredOnce(s, Exec(s, ls), oid, r))
       <==> MarkedOnce(s, ls, oid) && NoneHalfway(Exec(s, ls).calls, oid)
  {
    AlwaysOk(s, ls);
    AgainSumIsZero(s, ls, oid);
    if MarkedOnce(s, ls, oid) && NoneHalfway(Exec(s, ls).calls, oid) {
      forall r ensures RestoredOnce(s, Exec(s, ls), oid, r) {
        RestoredMore(s, ls, oid, r);
        HalfwaySums(Exec(s, ls), oid, r);
      }
    } else {
      var r := NotRestoredOnce(s, ls, oid);
      assert !RestoredOnce(s, Exec(s, ls), oid, r);
    }
  }

  lemma NotRestoredOnce(s: System, ls: seq<Label>, oid: string) returns (r: string)
    requires Inv(s) && NoneHalfway(s.calls, oid) && Inv(Exec(s, ls)) && oid in Exec(s, ls).db.orders
    requires AgainSum(s, ls, oid) > 0 || !NoneHalfway(Exec(s, ls).calls, oid)
    ensures !RestoredOnce(s, Exec(s, ls), oid, r)
  {
    var t := Exec(s, ls);
    var order := t.db.orders[oid];
    assert OrderOk(t.db, oid, order);
    r := order.items[0].recordId;
    RestoredMore(s, ls, oid, r);
    HalfwaySums(t, oid, r);
    RestoredSoFar(order.items, |order.items|, r);
    assert order.items[..|order.items|] == order.items;
    if !NoneHalfway(t.calls, oid) { SomeoneHalfway(t, oid); }
    TimesPositive(Units(order.items, r), AgainSum(s, ls, oid));
  }

  /** Calls that have all ended without store errors leave no order halfway. */
  lemma SettledIsNotHalfway(s: System, oid: string)
    requires Inv(s) && Settled(s)
    ensures NoneHalfway(s.calls, oid)
  {
    forall cid | cid in s.calls ensures !LeftHalfway(s.calls[cid], oid) {
      assert CallOk(s.db, s.calls[cid]);
    }
  }

  /** So between settled states the units come back once if and only if no step marks the order again. */
  lemma SettledRestoredOnce(s: System, ls: seq<Label>, oid: string)
    requires Inv(s) && Settled(s) && Settled(Exec(s, ls)) && oid in Exec(s, ls).db.orders
    ensures (forall r :: RestoredOnce(s, Exec(s, ls), oid, r)) <==> MarkedOnce(s, ls, oid)
  {
    AlwaysOk(s, ls);
    SettledIsNotHalfway(s, oid);
    SettledIsNotHalfway(Exec(s, ls), oid);
    RestoredOnceExactlyWhen(s, ls, oid);
  }

  /** And their number there is that of the marks. */
  lemma SettledRestoredCount(s: System, ls: seq<Label>, oid: string, r: string)
    requires Inv(s) && Settled(s) && Settled(Exec(s, ls)) && oid in Exec(s, ls).db.orders
    ensures var t := Exec(s, ls);
            All(t.calls, RestoredFor(oid), r) - All(s.calls, RestoredFor(oid), r)
            == Units(t.db.orders[oid].items, r)
               * (IsCancelled(t.db, oid) - IsCancelled(s.db, oid) + AgainSum(s, ls, oid))
  {
    CallsStay(s, ls);
    SettledIsNotHalfway(s, oid);
    SettledIsNotHalfway(Exec(s, ls), oid);
    HalfwaySums(System(Exec(s, ls).db, s.calls), oid, r);
    HalfwaySums(Exec(s, ls), oid, r);
    RestoredCount(s, ls, oid, r);
  }

  /** The status changes at most once: a cancelled order stays cancelled. */
  lemma StatusChangesOnce(s: System, ls: seq<Label>, oid: string)
    requires Inv(s)
    ensures 0 <= IsCancelled(Exec(s, ls).db, oid) - IsCancelled(s.db, oid) <= 1
  {
    AlwaysOk(s, ls);
  }

  /** In a fresh run that leaves no cancellation of it halfway, an order's units come back at most once. */
  lemma RestoredAtMostOnce(s: System, ls: seq<Label>, oid: string, r: string)
    requires Inv(s) && FreshRun(s, ls) && oid in Exec(s, ls).db.orders
    requires NoneHalfway(s.calls, oid) && NoneHalfway(Exec(s, ls).calls, oid)
    ensures RestoredOnce(s, Exec(s, ls), oid, r)
    ensures 0 <= IsCancelled(Exec(s, ls).db, oid) - IsCancelled(s.db, oid) <= 1
  {
    FreshMarksOnce(s, ls, oid);
    AgainSumIsZero(s, ls, oid);
    RestoredOnceExactlyWhen(s, ls, oid);
    StatusChangesOnce(s, ls, oid);
  }

  /**
   * In every reachable state an order call has taken exactly the demand of the lines it has passed, and one
   * that ended without success has dropped exactly that.
   */
  lemma TakenIsDemandSoFar(s: System, ls: seq<Label>, cid: nat, r: string)
    requires Inv(s) && cid in Exec(s, ls).calls && Frame(Exec(s, ls).calls[cid]).CreateOrder?
    ensures var c := Exec(s, ls).calls[cid]; var f := Frame(c);
      && |f.items| <= |f.lines|
      && Taken(c, r) == Demand(f.lines[..|f.items|], r)
      && (c.Ended? && !c.outcome.OrderCreated? ==> Dropped(c, r) == Demand(f.lines[..|f.items|], r))
  {
    AlwaysOk(s, ls);
    var c := Exec(s, ls).calls[cid];
    assert CallOk(Exec(s, ls).db, c);
    assert LinesOf(Frame(c).items) == Frame(c).lines[..|Frame(c).items|];
  }

  /** Creating an order and cancelling it weigh nothing together, whatever happened in between. */
  lemma CreateThenCancelIsNothing(t: System, a: nat, b: nat, r: string)
    requires Inv(t) && a in t.calls && b in t.calls
    requires t.calls[a].Ended? && t.calls[a].outcome.OrderCreated?
    requires t.calls[b].Ended? && t.calls[b].outcome.OrderCancelled?
    requires t.calls[b].last.CancelOrder? && t.calls[b].last.orderId == t.calls[a].outcome.id
    ensures Net(t.calls[a], r) + Net(t.calls[b], r) == 0
  {
    var create, cancel := t.calls[a], t.calls[b];
    assert CallOk(t.db, create) && CallOk(t.db, cancel);
    assert t.db.orders[cancel.last.orderId].items == create.last.items;
    assert cancel.last.order.value.items[..cancel.last.next] == create.last.items;
  }

  lemma WithoutTwo(calls: map<nat, Call>, a: nat, b: nat, weight: Weight, r: string)
    requires a in calls && b in calls && a != b
    ensures All(calls, weight, r) == weight(calls[a], r) + weight(calls[b], r) + All(calls - {a, b}, weight, r)
  {
    SumRemove(calls, a, Weigh(weight, r));
    SumRemove(calls - {a}, b, Weigh(weight, r));
    assert calls - {a} - {b} == calls - {a, b};
  }

  /** So after a fresh run the stock is what the other calls alone account for. */
  lemma RoundTripLeavesTheRest(s: System, ls: seq<Label>, a: nat, b: nat, r: string)
    requires Inv(s) && FreshRun(s, ls)
    requires var t := Exec(s, ls);
      && a in t.calls && t.calls[a].Ended? && t.calls[a].outcome.OrderCreated?
      && b in t.calls && t.calls[b].Ended? && t.calls[b].outcome.OrderCancelled?
      && t.calls[b].last.CancelOrder? && t.calls[b].last.orderId == t.calls[a].outcome.id
    ensures var t := Exec(s, ls);
            Stock(t.db, r) == Stock(s.db, r) + All(t.calls - {a, b}, Net, r) - All(s.calls, Net, r)
  {
    var t := Exec(s, ls);
    AlwaysOk(s, ls);
    FreshLosesNothing(s, ls, r);
    StockLedger(s, ls, r);
    CreateThenCancelIsNothing(t, a, b, r);
    assert CallOk(t.db, t.calls[a]);
    WithoutTwo(t.calls, a, b, Net, r);
  }

  // ---- the archived flag ----

  lemma ActArchived(db: Db, c: Call, mint: Mint, id: string)
    requires DbOk(db) && CallOk(db, c) && !IdTaken(db, c, mint) && FreshSave(db, c)
    requires id in db.records && db.records[id].archived
    ensures id in Act(db, c, mint).0.records && Act(db, c, mint).0.records[id].archived
  {
  }

  /** The next store call saves a copy of `id` that was read before the record was archived. */
  predicate SavesUnarchived(c: Call, id: string) {
    Copy(c).Some? && Copy(c).value.id == id && !Copy(c).value.archived && !c.ArchiveRecord?
  }

  /** One store call keeps an archived record archived if and only if it does not save such a copy. */
  lemma ArchivedExactlyWhen(s: System, l: Label, id: string)
    requires Inv(s) && Acts(s, l) && id in s.db.records && s.db.records[id].archived
    ensures id in Next(s, l).db.records
    ensures Next(s, l).db.records[id].archived <==> !SavesUnarchived(s.calls[l.cid], id)
  {
    assert CallOk(s.db, s.calls[l.cid]);
    if s.calls[l.cid].CancelOrder? && s.calls[l.cid].order.Some? {
      assert OrderOk(s.db, s.calls[l.cid].orderId, s.db.orders[s.calls[l.cid].orderId]);
    }
  }

  /** If no save overwrites a change it has not read, archiving is one-way. */
  lemma {:induction false} ArchivedStays(s: System, ls: seq<Label>, id: string)
    requires Inv(s) && FreshRun(s, ls) && id in s.db.records && s.db.records[id].archived
    ensures id in Exec(s, ls).db.records && Exec(s, ls).db.records[id].archived
    decreases |ls|
  {
    if ls != [] {
      NextOk(s, ls[0]);
      if Acts(s, ls[0]) { ActArchived(s.db, s.calls[ls[0].cid], ls[0].mint, id); }
      ArchivedStays(Next(s, ls[0]), ls[1..], id);
    }
  }
}
