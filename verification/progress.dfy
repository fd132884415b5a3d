/** Calls end: how many store calls each can make, whatever the other calls do in between. */
module Progress {
  import opened Models
  import opened Store
  import opened Protocol
  import opened Invariant

  /** The most store calls that a frame can still make, over the orders of `db`. */
  function MovesLeft(db: Db, c: Call): (n: nat)
    ensures n == 0 <==> c.Ended?
  {
    match c
    case CreateOrder(_, lines, _, items, seen) =>
      if |items| >= |lines| then 1 else 2 * (|lines| - |items|) + if seen.None? then 1 else 0
    case CancelOrder(_, _, orderId, None, _, _) =>
      if orderId in db.orders then 2 * |db.orders[orderId].items| + 2 else 1
    case CancelOrder(_, _, _, Some(order), next, copy) =>
      if next >= |order.items| then 1 else 2 * (|order.items| - next) + if copy.None? then 1 else 0
    case RestockRecord(_, _, read) => if read.None? then 2 else 1
    case UpdateRecord(_, _, read) => if read.None? then 2 else 1
    case ArchiveRecord(_, read) => if read.None? then 2 else 1
    case CreateRecord(_) => 1
    case Ended(_, _) => 0
  }

  /** How many store calls a call makes in a run; the store may answer the last one with an error. */
  function MovesOf(s: System, ls: seq<Label>, cid: nat): nat
    decreases |ls|
  {
    if ls == [] then 0
    else (if Moves(s, ls[0]) && ls[0].cid == cid then 1 else 0) + MovesOf(Next(s, ls[0]), ls[1..], cid)
  }

  predicate Fulfilled(c: Call) {
    c.Ended? && (c.outcome.OrderCreated? || c.outcome.OrderCancelled?)
  }

  /** An order or a cancellation that goes on, or has just succeeded, has not skipped a store call. */
  predicate OnTrack(c: Call) {
    c.CreateOrder? || c.CancelOrder? || Fulfilled(c)
  }

  // ---- one store call ----

  /** One store call less, and exactly one less in an order or cancellation that goes on or succeeds. */
  predicate Counts(last: Db, c: Call, c': Call) {
    && MovesLeft(last, c') < MovesLeft(last, c)
    && (OnTrack(c) && OnTrack(c') ==> MovesLeft(last, c') == MovesLeft(last, c) - 1)
    && (OnTrack(c') ==> OnTrack(c))
  }

  lemma CreateCounts(db: Db, last: Db, c: Call, mint: Mint)
    requires c.CreateOrder?
    ensures Counts(last, c, ActCreateOrder(db, c, mint).1)
  {
  }

  lemma CancelCounts(db: Db, last: Db, c: Call)
    requires DbOk(db) && c.CancelOrder? && CancelOk(db, c) && Grows(db, last)
    ensures Counts(last, c, ActCancelOrder(db, c).1)
  {
    if c.order.Some? { assert OrderOk(db, c.orderId, db.orders[c.orderId]); }
  }

  lemma ActCounts(db: Db, last: Db, c: Call, mint: Mint)
    requires DbOk(db) && CallOk(db, c) && Grows(db, last) && !c.Ended?
    ensures Counts(last, c, Act(db, c, mint).1)
  {
    if c.CreateOrder? {
      CreateCounts(db, last, c, mint);
    } else if c.CancelOrder? {
      CancelCounts(db, last, c);
    }
  }

  lemma NextCounts(s: System, l: Label, cid: nat, last: Db)
    requires Inv(s) && cid in s.calls && Grows(s.db, last)
    ensures cid in Next(s, l).calls
    ensures var c, c' := s.calls[cid], Next(s, l).calls[cid]; var n := if Moves(s, l) && l.cid == cid then 1 else 0;
      && MovesLeft(last, c') + n <= MovesLeft(last, c)
      && (OnTrack(c') ==> OnTrack(c) && MovesLeft(last, c') + n == MovesLeft(last, c))
  {
    if Acts(s, l) && l.cid == cid { ActCounts(s.db, last, s.calls[cid], l.mint); }
  }

  // ---- whole runs ----

  lemma {:induction false} MovesCount(s: System, ls: seq<Label>, cid: nat, last: Db)
    requires Inv(s) && cid in s.calls && Grows(Exec(s, ls).db, last)
    ensures cid in Exec(s, ls).calls
    ensures var c, c' := s.calls[cid], Exec(s, ls).calls[cid];
      && MovesLeft(last, c') + MovesOf(s, ls, cid) <= MovesLeft(last, c)
      && (OnTrack(c') ==> OnTrack(c) && MovesLeft(last, c') + MovesOf(s, ls, cid) == MovesLeft(last, c))
    decreases |ls|
  {
    if ls != [] {
      AlwaysOk(s, ls);
      GrowsTransitive(s.db, Exec(s, ls).db, last);
      NextOk(s, ls[0]);
      NextCounts(s, ls[0], cid, last);
      MovesCount(Next(s, ls[0]), ls[1..], cid, last);
    }
  }

  /**
   * In every interleaving: no call makes more store calls than its frame allows at most, and a call that has
   * made so many has ended.
   */
  lemma CallsEnd(s: System, ls: seq<Label>, cid: nat)
    requires Inv(s) && cid in s.calls
    ensures cid in Exec(s, ls).calls
    ensures MovesOf(s, ls, cid) <= MovesLeft(Exec(s, ls).db, s.calls[cid])
    ensures MovesOf(s, ls, cid) == MovesLeft(Exec(s, ls).db, s.calls[cid]) ==> Exec(s, ls).calls[cid].Ended?
  {
    GrowsItself(Exec(s, ls).db);
    MovesCount(s, ls, cid, Exec(s, ls).db);
  }

  lemma GrowsItself(db: Db)
    ensures Grows(db, db)
  {
  }

  /**
   * An order call ends after at most 2 * lines + 1 of its own store calls, whatever the others do, and makes
   * exactly so many if it succeeds.
   */
  lemma OrderCallEnds(s: System, ls: seq<Label>, cid: nat)
    requires Inv(s) && cid in s.calls && s.calls[cid].CreateOrder? && Initial(s.calls[cid])
    ensures cid in Exec(s, ls).calls
    ensures var c := Exec(s, ls).calls[cid]; var most := 2 * |s.calls[cid].lines| + 1;
      && MovesOf(s, ls, cid) <= most
      && (MovesOf(s, ls, cid) == most ==> c.Ended?)
      && (Fulfilled(c) ==> MovesOf(s, ls, cid) == most)
  {
    GrowsItself(Exec(s, ls).db);
    MovesCount(s, ls, cid, Exec(s, ls).db);
  }

  /** Likewise a cancellation after at most 2 * items + 2, with the items of the order that it names. */
  lemma CancellationEnds(s: System, ls: seq<Label>, cid: nat)
    requires Inv(s) && cid in s.calls && s.calls[cid].CancelOrder? && Initial(s.calls[cid])
    ensures cid in Exec(s, ls).calls
    ensures var t := Exec(s, ls); var c := t.calls[cid]; var oid := s.calls[cid].orderId;
            var most := if oid in t.db.orders then 2 * |t.db.orders[oid].items| + 2 else 1;
      && MovesOf(s, ls, cid) <= most
      && (MovesOf(s, ls, cid) == most ==> c.Ended?)
      && (Fulfilled(c) ==> MovesOf(s, ls, cid) == most)
  {
    GrowsItself(Exec(s, ls).db);
    MovesCount(s, ls, cid, Exec(s, ls).db);
  }

  // ---- nothing blocks ----

  lemma {:induction false} UnusedId(ids: set<string>) returns (id: string)
    ensures forall other :: other in ids ==> |other| < |id|
    decreases |ids|
  {
    id := "x";
    if ids != {} {
      var other :| other in ids;
      var longer := UnusedId(ids - {other});
      id := if |other| < |longer| then longer else other + "x";
      assert forall k :: k in ids ==> k == other || k in ids - {other};
    }
  }

  /** A call that has not ended can always make its next store call. */
  lemma CanMove(s: System, cid: nat) returns (mint: Mint)
    requires cid in s.calls && !s.calls[cid].Ended?
    ensures Moves(s, Advance(cid, false, mint)) && Moves(s, Advance(cid, true, mint))
  {
    var id := UnusedId(s.db.orders.Keys + s.db.records.Keys);
    assert id !in s.db.orders && id !in s.db.records;
    mint := Mint(id, 0);
  }

  /** The calls that are still running. */
  function Running(s: System): set<nat> {
    set cid | cid in s.calls && !s.calls[cid].Ended?
  }

  /** From every reachable state the store can answer so that all calls end. */
  lemma {:induction false} AllCanEnd(s: System) returns (ls: seq<Label>)
    requires Inv(s)
    ensures Running(Exec(s, ls)) == {}
    ensures forall i :: 0 <= i < |ls| ==> ls[i].Advance? && !ls[i].fails
    decreases |Running(s)|, 0
  {
    ls := [];
    if Running(s) != {} {
      var cid :| cid in Running(s);
      ls := EndOne(s, cid);
    }
  }

  lemma {:induction false} EndOne(s: System, cid: nat) returns (ls: seq<Label>)
    requires Inv(s) && cid in Running(s)
    ensures Running(Exec(s, ls)) == {}
    ensures forall i :: 0 <= i < |ls| ==> ls[i].Advance? && !ls[i].fails
    decreases |Running(s)|, 0, MovesLeft(s.db, s.calls[cid])
  {
    var mint := CanMove(s, cid);
    var l := Advance(cid, false, mint);
    var t := Next(s, l);
    NextOk(s, l);
    var rest: seq<Label>;
    if t.calls[cid].Ended? {
      assert Running(t) == Running(s) - {cid};
      rest := AllCanEnd(t);
    } else {
      assert Running(t) == Running(s);
      ActCounts(s.db, t.db, s.calls[cid], mint);
      rest := EndOne(t, cid);
    }
    ls := [l] + rest;
    assert ls[1..] == rest;
  }
}
