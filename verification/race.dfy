/** Many single-line orders racing for one record. */
module Race {
  import opened Sums
  import opened Models
  import opened Store
  import opened Protocol
  import opened Invariant
  import opened Ledger
  import opened Conservation

  predicate Racer(c: Call, id: string, q: int) {
    Frame(c).CreateOrder? && Frame(c).lines == [Line(id, q)] && Frame(c).userId != ""
  }

  /** Only orders for `q` units of record `id` arrive, and the store does not fail. */
  predicate RaceRun(ls: seq<Label>, id: string, q: int) {
    forall i :: 0 <= i < |ls| ==>
      if ls[i].Arrive? then ls[i].call.CreateOrder? && Racer(ls[i].call, id, q) else !ls[i].fails
  }

  /** A racer has lost only once fewer than `q` units were left. */
  predicate RacerOk(db: Db, c: Call, id: string, q: int) {
    && Racer(c, id, q)
    && (c.Ended? ==>
          c.outcome.OrderCreated? || (c.outcome.InsufficientStock? && c.last.items == [] && Stock(db, id) < q))
  }

  predicate RaceOk(s: System, id: string, q: int) {
    && id in s.db.records && !s.db.records[id].archived
    && forall cid :: cid in s.calls ==> RacerOk(s.db, s.calls[cid], id, q)
  }

  lemma ActRaces(db: Db, c: Call, mint: Mint, id: string, q: int)
    requires DbOk(db) && CallOk(db, c) && RacerOk(db, c, id, q) && !c.Ended?
    requires id in db.records && !db.records[id].archived && q >= 1
    ensures var (db', c') := Act(db, c, mint);
      && id in db'.records && !db'.records[id].archived && Stock(db', id) <= Stock(db, id)
      && RacerOk(db', c', id, q)
  {
  }

  lemma {:induction false} RaceStaysOk(s: System, ls: seq<Label>, id: string, q: int)
    requires Inv(s) && RaceOk(s, id, q) && RaceRun(ls, id, q) && q >= 1 && id != ""
    ensures RaceOk(Exec(s, ls), id, q)
    decreases |ls|
  {
    if ls != [] {
      NextOk(s, ls[0]);
      if Acts(s, ls[0]) {
        ActRaces(s.db, s.calls[ls[0].cid], ls[0].mint, id, q);
      }
      assert RaceOk(Next(s, ls[0]), id, q);
      RaceStaysOk(Next(s, ls[0]), ls[1..], id, q);
    }
  }

  // ---- counting winners ----

  function Won(c: Call, id: string): int {
    if c.Ended? && c.outcome.OrderCreated? then 1 else 0
  }

  function Lost(c: Call, id: string): int {
    1 - Won(c, id)
  }

  function One(c: Call, id: string): int {
    1
  }

  lemma AllOne(calls: map<nat, Call>, id: string)
    ensures All(calls, One, id) == |calls|
  {
    forall cid | cid in calls ensures Weigh(One, id)(calls[cid]) == 1 {
      assert One(calls[cid], id) == 1;
    }
    SumOnes(calls, Weigh(One, id));
  }

  lemma EndedRacerTook(db: Db, c: Call, id: string, q: int)
    requires CallOk(db, c) && RacerOk(db, c, id, q) && c.Ended?
    ensures Taken(c, id) == q * Won(c, id)
  {
    if c.outcome.OrderCreated? {
      assert LinesOf(c.last.items) == [Line(id, q)];
      DemandSnoc([], Line(id, q), id);
      assert [] + [Line(id, q)] == [Line(id, q)];
    }
  }

  /** `won` full lots fit into the stock. */
  lemma LotsFit(stock: int, q: int, won: int)
    requires q >= 1 && q * won <= stock
    ensures won <= stock / q
  {
    if stock / q < won {
      TimesMonotone(stock / q + 1, won, q);
    }
  }

  lemma Quotient(stock: int, q: int, won: int, n: int)
    requires q >= 1 && q * won <= stock && won <= n && (won < n ==> stock < q * won + q)
    ensures won == if n <= stock / q then n else stock / q
  {
    LotsFit(stock, q, won);
    if won < n && won < stock / q {
      TimesMonotone(won + 1, stock / q, q);
    }
  }

  /**
   * N concurrent orders of `q` units of one record with stock s, under every schedule: once all have ended,
   * exactly min(N, s / q) have succeeded and the stock is s - q * successes.
   */
  lemma RaceIsFair(s: System, ls: seq<Label>, id: string, q: int)
    requires Inv(s) && s.calls == map[] && id != "" && q >= 1
    requires id in s.db.records && !s.db.records[id].archived
    requires RaceRun(ls, id, q) && Settled(Exec(s, ls))
    ensures var t := Exec(s, ls); var n := |t.calls|; var stock := Stock(s.db, id);
      && All(t.calls, Won, id) == (if n <= stock / q then n else stock / q)
      && Stock(t.db, id) == stock - q * All(t.calls, Won, id)
  {
    var t := Exec(s, ls);
    var won := All(t.calls, Won, id);
    RaceStaysOk(s, ls, id, q);
    AlwaysOk(s, ls);
    RaceStock(s, ls, id, q);
    AllOne(t.calls, id);
    AllSplit(t.calls, One, Won, Lost, id);
    SumNonNegative(t.calls, Weigh(Won, id));
    SumNonNegative(t.calls, Weigh(Lost, id));
    if won < |t.calls| {
      SomeoneLost(t, id, q);
    }
    assert DbOk(t.db);
    Quotient(Stock(s.db, id), q, won, |t.calls|);
  }

  lemma RaceStock(s: System, ls: seq<Label>, id: string, q: int)
    requires Inv(s) && s.calls == map[] && RaceRun(ls, id, q)
    requires Settled(Exec(s, ls)) && Inv(Exec(s, ls)) && RaceOk(Exec(s, ls), id, q)
    ensures var t := Exec(s, ls); Stock(t.db, id) == Stock(s.db, id) - q * All(t.calls, Won, id)
  {
    var t := Exec(s, ls);
    OrdersOnlyIsFresh(s, ls);
    FreshStockIsExact(s, ls, id);
    OrderCallsWeigh(t, id);
    AllSplit(t.calls, Restored, Returning, Undone, id);
    forall cid | cid in t.calls ensures Weigh(Taken, id)(t.calls[cid]) == q * Weigh(Won, id)(t.calls[cid]) {
      EndedRacerTook(t.db, t.calls[cid], id, q);
    }
    SumScale(t.calls, Weigh(Taken, id), q, Weigh(Won, id));
  }

  lemma SomeoneLost(t: System, id: string, q: int)
    requires RaceOk(t, id, q) && Settled(t) && All(t.calls, Won, id) < |t.calls|
    ensures Stock(t.db, id) < q
  {
    if forall cid :: cid in t.calls ==> t.calls[cid].outcome.OrderCreated? {
      forall cid | cid in t.calls ensures Lost(t.calls[cid], id) == 0 {}
      AllZero(t.calls, Lost, id);
      AllOne(t.calls, id);
      AllSplit(t.calls, One, Won, Lost, id);
    }
  }
}
