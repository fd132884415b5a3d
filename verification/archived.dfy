/**
 * What orders can still take of an archived record. The archived check and the decrement of an order line are
 * two store calls, so a call that has passed the check goes on to take its line; no other call does.
 */
module Archived {
  import opened Sums
  import opened Models
  import opened Patches
  import opened Store
  import opened Protocol
  import opened Invariant
  import opened Ledger
  import opened Conservation
  import opened Cancellation

  predicate ArchivedIn(db: Db, id: string) {
    id in db.records && db.records[id].archived
  }

  /** An order call that has checked record `id` for its current line and is about to take it. */
  predicate PastCheck(c: Call, id: string) {
    c.CreateOrder? && |c.items| < |c.lines| && c.seen.Some? && c.lines[|c.items|].recordId == id
  }

  /** Units of `id` that such a call asks for on its current line. */
  function Pending(c: Call, id: string): int {
    if PastCheck(c, id) then c.lines[|c.items|].quantity else 0
  }

  /** The store call takes units of `id`: its call is past the check, and there is enough stock. */
  predicate Takes(s: System, l: Label, id: string) {
    Acts(s, l) && PastCheck(s.calls[l.cid], id) && CanDecrement(s.db, id, Pending(s.calls[l.cid], id))
  }

  // ---- one store call ----

  lemma PendingNonNegative(db: Db, c: Call, id: string)
    requires CallOk(db, c)
    ensures Pending(c, id) >= 0 && (PastCheck(c, id) ==> Pending(c, id) >= 1 && id != "")
  {
  }

  lemma ActTakes(db: Db, c: Call, mint: Mint, id: string)
    requires DbOk(db) && CallOk(db, c)
    ensures var (db', c') := Act(db, c, mint);
            Taken(c', id) == Taken(c, id)
                             + if PastCheck(c, id) && CanDecrement(db, id, Pending(c, id)) then Pending(c, id) else 0
  {
    if c.CreateOrder? && |c.items| < |c.lines| && c.seen.Some? {
      UnitsSnoc(c.items, ItemOf(c.seen.value, c.lines[|c.items|].quantity), id);
    }
  }

  /** The check stops every call that has not passed it yet; a call that has, moves on or ends. */
  lemma ActPasses(db: Db, c: Call, mint: Mint, id: string)
    requires DbOk(db) && CallOk(db, c) && ArchivedIn(db, id) && !c.Ended?
    ensures !PastCheck(Act(db, c, mint).1, id)
  {
  }

  /** Every step: what is taken of a record in total rises by the current line of a call that takes it. */
  lemma NextTakes(s: System, l: Label, id: string)
    requires Inv(s)
    ensures All(Next(s, l).calls, Taken, id)
         == All(s.calls, Taken, id) + if Takes(s, l, id) then Pending(s.calls[l.cid], id) else 0
  {
    var t := Next(s, l);
    if t != s {
      AllSet(s.calls, l.cid, t.calls[l.cid], Taken, id);
      if Acts(s, l) { ActTakes(s.db, s.calls[l.cid], l.mint, id); }
    }
  }

  /**
   * A store call takes units of an archived record if and only if its call is past the archived check of
   * that record and the current line fits the stock.
   */
  lemma TakenExactlyWhen(s: System, l: Label, id: string)
    requires Inv(s) && Acts(s, l) && ArchivedIn(s.db, id)
    ensures var c := s.calls[l.cid];
            All(Next(s, l).calls, Taken, id) != All(s.calls, Taken, id)
            <==> PastCheck(c, id) && c.lines[|c.items|].quantity <= s.db.records[id].stock
  {
    NextTakes(s, l, id);
    PendingNonNegative(s.db, s.calls[l.cid], id);
  }

  /** The calls that are past the check can only become fewer. */
  lemma NextPending(s: System, l: Label, id: string)
    requires Inv(s) && ArchivedIn(s.db, id)
    ensures var t := Next(s, l); var left := if Moves(s, l) then Pending(s.calls[l.cid], id) else 0;
      && All(t.calls, Pending, id) == All(s.calls, Pending, id) - left
      && forall cid :: cid in t.calls && PastCheck(t.calls[cid], id) ==> cid in s.calls && t.calls[cid] == s.calls[cid]
  {
    var t := Next(s, l);
    if t != s {
      AllSet(s.calls, l.cid, t.calls[l.cid], Pending, id);
      if Acts(s, l) { ActPasses(s.db, s.calls[l.cid], l.mint, id); }
    }
  }

  // ---- whole runs ----

  /** The record is archived at every moment of the run. */
  predicate StaysArchived(s: System, ls: seq<Label>, id: string)
    decreases |ls|
  {
    ArchivedIn(s.db, id) && (ls == [] || StaysArchived(Next(s, ls[0]), ls[1..], id))
  }

  lemma {:induction false} FreshStaysArchived(s: System, ls: seq<Label>, id: string)
    requires Inv(s) && FreshRun(s, ls) && ArchivedIn(s.db, id)
    ensures StaysArchived(s, ls, id)
    decreases |ls|
  {
    if ls != [] {
      NextOk(s, ls[0]);
      if Acts(s, ls[0]) { ActArchived(s.db, s.calls[ls[0].cid], ls[0].mint, id); }
      FreshStaysArchived(Next(s, ls[0]), ls[1..], id);
    }
  }

  lemma AllPendingNonNegative(s: System, id: string)
    requires Inv(s)
    ensures All(s.calls, Pending, id) >= 0
  {
    forall cid | cid in s.calls ensures Weigh(Pending, id)(s.calls[cid]) >= 0 {
      PendingNonNegative(s.db, s.calls[cid], id);
    }
    SumNonNegative(s.calls, Weigh(Pending, id));
  }

  /**
   * While a record stays archived, everything that is still taken of it was pending in calls past the check:
   * taken and pending units together never grow.
   */
  lemma {:induction false} TakenAtMostPending(s: System, ls: seq<Label>, id: string)
    requires Inv(s) && StaysArchived(s, ls, id)
    ensures var t := Exec(s, ls);
      && All(t.calls, Taken, id) + All(t.calls, Pending, id) <= All(s.calls, Taken, id) + All(s.calls, Pending, id)
      && All(t.calls, Taken, id) >= All(s.calls, Taken, id)
    decreases |ls|
  {
    if ls != [] {
      var t := Next(s, ls[0]);
      NextOk(s, ls[0]);
      NextTakes(s, ls[0], id);
      NextPending(s, ls[0], id);
      if Moves(s, ls[0]) { PendingNonNegative(s.db, s.calls[ls[0].cid], id); }
      TakenAtMostPending(t, ls[1..], id);
    }
  }

  /** No call is past the check, neither now nor at the end of any run during which the record stays archived. */
  lemma {:induction false} NoneIsTaken(s: System, ls: seq<Label>, id: string)
    requires Inv(s) && StaysArchived(s, ls, id)
    requires forall cid :: cid in s.calls ==> !PastCheck(s.calls[cid], id)
    ensures var t := Exec(s, ls);
      && All(t.calls, Taken, id) == All(s.calls, Taken, id)
      && forall cid :: cid in t.calls ==> !PastCheck(t.calls[cid], id)
    decreases |ls|
  {
    if ls != [] {
      NextOk(s, ls[0]);
      NextTakes(s, ls[0], id);
      NextPending(s, ls[0], id);
      NoneIsTaken(Next(s, ls[0]), ls[1..], id);
    }
  }

  // ---- the bound is reached ----

  /** With enough stock, a call past the check takes its line when it moves. */
  lemma DrainOne(s: System, cid: nat, id: string)
    requires Inv(s) && ArchivedIn(s.db, id) && All(s.calls, Pending, id) <= Stock(s.db, id)
    requires cid in s.calls && PastCheck(s.calls[cid], id)
    ensures var l := Advance(cid, false, Mint("", 0)); var t := Next(s, l); var q := Pending(s.calls[cid], id);
      && q >= 1 && Inv(t) && ArchivedIn(t.db, id) && FreshRun(s, [l])
      && All(t.calls, Taken, id) == All(s.calls, Taken, id) + q
      && 0 <= All(t.calls, Pending, id) == All(s.calls, Pending, id) - q
      && Stock(t.db, id) == Stock(s.db, id) - q
  {
    var l := Advance(cid, false, Mint("", 0));
    NextOk(s, l);
    PendingNonNegative(s.db, s.calls[cid], id);
    NextPending(s, l, id);
    AllPendingNonNegative(Next(s, l), id);
    NextTakes(s, l, id);
    assert [l][1..] == [];
  }

  /** Letting every call past the check move once then takes all that is pending. */
  lemma {:induction false} Drain(s: System, id: string) returns (ls: seq<Label>)
    requires Inv(s) && ArchivedIn(s.db, id) && All(s.calls, Pending, id) <= Stock(s.db, id)
    ensures FreshRun(s, ls)
    ensures All(Exec(s, ls).calls, Taken, id) == All(s.calls, Taken, id) + All(s.calls, Pending, id)
    decreases All(s.calls, Pending, id)
  {
    if forall cid :: cid in s.calls ==> !PastCheck(s.calls[cid], id) {
      AllZero(s.calls, Pending, id);
      ls := [];
    } else {
      var cid :| cid in s.calls && PastCheck(s.calls[cid], id);
      var l := Advance(cid, false, Mint("", 0));
      DrainOne(s, cid, id);
      var rest := Drain(Next(s, l), id);
      ls := [l] + rest;
      RunCons(s, l, rest);
    }
  }

  lemma {:induction false} UnusedCid(cids: set<nat>) returns (cid: nat)
    ensures forall k :: k in cids ==> k < cid
    decreases |cids|
  {
    cid := 0;
    if cids != {} {
      var k :| k in cids;
      var n := UnusedCid(cids - {k});
      cid := if k < n then n else k + 1;
      assert forall j :: j in cids ==> j == k || j in cids - {k};
    }
  }

  function Edit(id: string, stock: nat, read: Option<Record>): Call {
    UpdateRecord(id, NO_PATCH.(hasBody := true, stock := stock), read)
  }

  lemma EditSets(id: string, stock: nat, rec: Record)
    ensures var patch := Edit(id, stock, None).patch; ValidPatch(patch) && Apply(patch, rec) == rec.(stock := stock)
  {
  }

  lemma EditReads(db: Db, others: map<nat, Call>, cid: nat, id: string, stock: nat, mint: Mint)
    requires id in db.records
    ensures Next(System(db, others[cid := Edit(id, stock, None)]), Advance(cid, false, mint))
         == System(db, others[cid := Edit(id, stock, Some(db.records[id]))])
  {
    var start, read := Edit(id, stock, None), Edit(id, stock, Some(db.records[id]));
    EditSets(id, stock, db.records[id]);
    assert others[cid := start][cid := read] == others[cid := read];
  }

  lemma EditSaves(db: Db, others: map<nat, Call>, cid: nat, id: string, stock: nat, mint: Mint)
    requires id in db.records
    ensures var rec := db.records[id]; var read := Edit(id, stock, Some(rec));
            Next(System(db, others[cid := read]), Advance(cid, false, mint))
            == System(SaveRecord(db, rec.(stock := stock)), others[cid := Ended(read, RecordUpdated)])
  {
    var read := Edit(id, stock, Some(db.records[id]));
    EditSets(id, stock, db.records[id]);
    assert others[cid := read][cid := Ended(read, RecordUpdated)] == others[cid := Ended(read, RecordUpdated)];
  }

  /** The three labels of an update by itself, on a call id that is not in use. */
  lemma EditRuns(s: System, cid: nat, id: string, stock: nat)
    requires Inv(s) && cid !in s.calls && id in s.db.records && id != ""
    ensures var step := Advance(cid, false, Mint("", 0)); var ls := [Arrive(cid, Edit(id, stock, None)), step, step];
            var rec := s.db.records[id];
      && FreshRun(s, ls)
      && Exec(s, ls) == System(SaveRecord(s.db, rec.(stock := stock)),
                               s.calls[cid := Ended(Edit(id, stock, Some(rec)), RecordUpdated)])
  {
    var step := Advance(cid, false, Mint("", 0));
    var rec := s.db.records[id];
    assert RecordOk(id, rec);
    var start, read := Edit(id, stock, None), Edit(id, stock, Some(rec));
    var after := SaveRecord(s.db, rec.(stock := stock));
    EditReads(s.db, s.calls, cid, id, stock, Mint("", 0));
    EditSaves(s.db, s.calls, cid, id, stock, Mint("", 0));
    Traces([s, System(s.db, s.calls[cid := start]), System(s.db, s.calls[cid := read]),
            System(after, s.calls[cid := Ended(read, RecordUpdated)])],
           [Arrive(cid, start), step, step]);
  }

  /** The stock of an archived record can still be edited, whatever else is in flight. */
  lemma Refill(s: System, id: string, stock: nat) returns (ls: seq<Label>)
    requires Inv(s) && ArchivedIn(s.db, id) && id != ""
    ensures FreshRun(s, ls)
    ensures var t := Exec(s, ls);
      && Inv(t) && ArchivedIn(t.db, id) && Stock(t.db, id) == stock
      && All(t.calls, Taken, id) == All(s.calls, Taken, id)
      && All(t.calls, Pending, id) == All(s.calls, Pending, id)
  {
    var cid := UnusedCid(s.calls.Keys);
    var step := Advance(cid, false, Mint("", 0));
    ls := [Arrive(cid, Edit(id, stock, None)), step, step];
    EditRuns(s, cid, id, stock);
    AlwaysOk(s, ls);
    assert RecordOk(id, s.db.records[id]);
    AllSet(s.calls, cid, Exec(s, ls).calls[cid], Taken, id);
    AllSet(s.calls, cid, Exec(s, ls).calls[cid], Pending, id);
  }

  /** Some fresh run takes everything that calls past the check ask for. */
  lemma PendingIsTaken(s: System, id: string) returns (ls: seq<Label>)
    requires Inv(s) && ArchivedIn(s.db, id)
    ensures FreshRun(s, ls)
    ensures All(Exec(s, ls).calls, Taken, id) == All(s.calls, Taken, id) + All(s.calls, Pending, id)
  {
    AllPendingNonNegative(s, id);
    if All(s.calls, Pending, id) == 0 {
      ls := [];
    } else {
      if id == "" { NothingPending(s, id); }
      var first := Refill(s, id, All(s.calls, Pending, id));
      var rest := Drain(Exec(s, first), id);
      ls := first + rest;
      FreshConcat(s, first, rest);
      ExecConcat(s, first, rest);
    }
  }

  /** An order line always names a record. */
  lemma NothingPending(s: System, id: string)
    requires Inv(s) && (id == "" || forall cid :: cid in s.calls ==> !PastCheck(s.calls[cid], id))
    ensures All(s.calls, Pending, id) == 0
  {
    forall cid | cid in s.calls ensures Pending(s.calls[cid], id) == 0 {
      PendingNonNegative(s.db, s.calls[cid], id);
    }
    AllZero(s.calls, Pending, id);
  }

  /**
   * From any reachable state with an archived record: fresh runs take at most the current lines of the calls
   * past the check, and one of them takes exactly those.
   */
  lemma MostThatIsTaken(s: System, id: string)
    requires Inv(s) && ArchivedIn(s.db, id)
    ensures forall ls :: FreshRun(s, ls) ==>
              All(Exec(s, ls).calls, Taken, id) <= All(s.calls, Taken, id) + All(s.calls, Pending, id)
    ensures exists ls :: FreshRun(s, ls) &&
              All(Exec(s, ls).calls, Taken, id) == All(s.calls, Taken, id) + All(s.calls, Pending, id)
  {
    forall ls | FreshRun(s, ls)
      ensures All(Exec(s, ls).calls, Taken, id) <= All(s.calls, Taken, id) + All(s.calls, Pending, id)
    {
      FreshStaysArchived(s, ls, id);
      TakenAtMostPending(s, ls, id);
      AlwaysOk(s, ls);
      AllPendingNonNegative(Exec(s, ls), id);
    }
    var ls := PendingIsTaken(s, id);
  }

  /**
   * An archived record is never sold again, in any fresh run, if and only if no order call is past the
   * archived check of it.
   */
  lemma NeverSoldExactlyWhen(s: System, id: string)
    requires Inv(s) && ArchivedIn(s.db, id)
    ensures (forall ls :: FreshRun(s, ls) ==> All(Exec(s, ls).calls, Taken, id) == All(s.calls, Taken, id))
       <==> (forall cid :: cid in s.calls ==> !PastCheck(s.calls[cid], id))
  {
    if forall cid :: cid in s.calls ==> !PastCheck(s.calls[cid], id) {
      forall ls | FreshRun(s, ls) ensures All(Exec(s, ls).calls, Taken, id) == All(s.calls, Taken, id) {
        FreshStaysArchived(s, ls, id);
        NoneIsTaken(s, ls, id);
      }
    } else {
      var cid :| cid in s.calls && PastCheck(s.calls[cid], id);
      SomethingPending(s, cid, id);
      var ls := PendingIsTaken(s, id);
      assert FreshRun(s, ls) && All(Exec(s, ls).calls, Taken, id) != All(s.calls, Taken, id);
    }
  }

  lemma SomethingPending(s: System, cid: nat, id: string)
    requires Inv(s) && cid in s.calls && PastCheck(s.calls[cid], id)
    ensures All(s.calls, Pending, id) > 0
  {
    var rest := System(s.db, s.calls - {cid});
    PendingNonNegative(s.db, s.calls[cid], id);
    SumRemove(s.calls, cid, Weigh(Pending, id));
    AllPendingNonNegative(rest, id);
  }

  /** The k-th step takes no unit of the record. */
  ghost predicate TakesNoneAt(s: System, ls: seq<Label>, k: nat, id: string)
    requires k < |ls|
  {
    All(Before(s, ls, k + 1).calls, Taken, id) == All(Before(s, ls, k).calls, Taken, id)
  }

  lemma TakesNoneAtExactlyWhen(s: System, ls: seq<Label>, k: nat, id: string)
    requires Inv(s) && k < |ls|
    ensures TakesNoneAt(s, ls, k, id) <==> !Takes(Before(s, ls, k), ls[k], id)
  {
    var before := Before(s, ls, k);
    AlwaysOk(s, ls[..k]);
    BeforeNext(s, ls, k);
    NextTakes(before, ls[k], id);
    if Takes(before, ls[k], id) { PendingNonNegative(before.db, before.calls[ls[k].cid], id); }
  }

  /**
   * In any interleaving, stale saves included: no unit of the record is taken while it is archived if and only
   * if no call past the check of it moves in that time with enough stock.
   */
  lemma NeverSoldInRunExactlyWhen(s: System, ls: seq<Label>, id: string)
    requires Inv(s)
    ensures (forall k: nat :: k < |ls| && ArchivedIn(Before(s, ls, k).db, id) ==> TakesNoneAt(s, ls, k, id))
       <==> (forall k: nat :: k < |ls| && ArchivedIn(Before(s, ls, k).db, id) ==> !Takes(Before(s, ls, k), ls[k], id))
  {
    forall k: nat | k < |ls| ensures TakesNoneAt(s, ls, k, id) <==> !Takes(Before(s, ls, k), ls[k], id) {
      TakesNoneAtExactlyWhen(s, ls, k, id);
    }
  }
}
