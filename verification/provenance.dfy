/** Where the items of saved orders come from: what the records said, unarchived, when the call read them. */
module Provenance {
  import opened Models
  import opened Store
  import opened Protocol
  import opened Invariant
  import opened Ledger

  /** At some moment of the run the store held exactly this record, on sale. */
  ghost predicate WasOnSale(s: System, ls: seq<Label>, rec: Record) {
    exists k: nat :: k <= |ls| && OnSaleIn(Before(s, ls, k).db, rec)
  }

  predicate OnSaleIn(db: Db, rec: Record) {
    rec.id in db.records && db.records[rec.id] == rec && !rec.archived
  }

  /** The item carries the id, title, artist and price that a record had while it was on sale. */
  ghost predicate FromShelf(s: System, ls: seq<Label>, item: OrderItem) {
    exists rec :: WasOnSale(s, ls, rec) && item == ItemOf(rec, item.quantity)
  }

  ghost predicate AllFromShelf(s: System, ls: seq<Label>, items: seq<OrderItem>) {
    forall i :: 0 <= i < |items| ==> FromShelf(s, ls, items[i])
  }

  ghost predicate CallFromShelf(s: System, ls: seq<Label>, c: Call) {
    var f := Frame(c);
    f.CreateOrder? ==> AllFromShelf(s, ls, f.items) && (f.seen.Some? ==> WasOnSale(s, ls, f.seen.value))
  }

  // ---- one more step of the run ----

  lemma BeforeExtended(s: System, ls: seq<Label>, l: Label, k: nat)
    requires k <= |ls|
    ensures Before(s, ls + [l], k) == Before(s, ls, k)
  {
    assert (ls + [l])[..k] == ls[..k];
  }

  lemma WasOnSaleStays(s: System, ls: seq<Label>, l: Label, rec: Record)
    requires WasOnSale(s, ls, rec)
    ensures WasOnSale(s, ls + [l], rec)
  {
    var k: nat :| k <= |ls| && OnSaleIn(Before(s, ls, k).db, rec);
    BeforeExtended(s, ls, l, k);
    assert OnSaleIn(Before(s, ls + [l], k).db, rec);
  }

  lemma ItemsStay(s: System, ls: seq<Label>, l: Label, items: seq<OrderItem>)
    requires AllFromShelf(s, ls, items)
    ensures AllFromShelf(s, ls + [l], items)
  {
    forall i | 0 <= i < |items| ensures FromShelf(s, ls + [l], items[i]) {
      assert FromShelf(s, ls, items[i]);
      var rec :| WasOnSale(s, ls, rec) && items[i] == ItemOf(rec, items[i].quantity);
      WasOnSaleStays(s, ls, l, rec);
    }
  }

  lemma CallStaysFromShelf(s: System, ls: seq<Label>, l: Label, c: Call)
    requires CallFromShelf(s, ls, c)
    ensures CallFromShelf(s, ls + [l], c)
  {
    var f := Frame(c);
    if f.CreateOrder? {
      ItemsStay(s, ls, l, f.items);
      if f.seen.Some? { WasOnSaleStays(s, ls, l, f.seen.value); }
    }
  }

  /** What an order call reads is on sale at that moment, and what it adds is what it has read. */
  lemma ActFromShelf(s: System, ls: seq<Label>, c: Call, mint: Mint)
    requires Inv(Exec(s, ls)) && CallOk(Exec(s, ls).db, c) && c.CreateOrder? && CallFromShelf(s, ls, c)
    ensures CallFromShelf(s, ls, ActCreateOrder(Exec(s, ls).db, c, mint).1)
  {
    var db := Exec(s, ls).db;
    if |c.items| < |c.lines| {
      var line := c.lines[|c.items|];
      if c.seen.None? {
        if line.recordId in db.records { ReadFromShelf(s, ls, db.records[line.recordId]); }
      } else {
        AddFromShelf(s, ls, c.items, c.seen.value, line.quantity);
      }
    }
  }

  lemma ReadFromShelf(s: System, ls: seq<Label>, rec: Record)
    requires rec.id in Exec(s, ls).db.records && Exec(s, ls).db.records[rec.id] == rec
    ensures !rec.archived ==> WasOnSale(s, ls, rec)
  {
    assert ls[..|ls|] == ls;
    assert !rec.archived ==> OnSaleIn(Before(s, ls, |ls|).db, rec);
  }

  lemma AddFromShelf(s: System, ls: seq<Label>, items: seq<OrderItem>, rec: Record, quantity: int)
    requires AllFromShelf(s, ls, items) && WasOnSale(s, ls, rec)
    ensures AllFromShelf(s, ls, items + [ItemOf(rec, quantity)])
  {
    assert FromShelf(s, ls, ItemOf(rec, quantity));
  }

  lemma OtherCallsStayOther(db: Db, c: Call, mint: Mint)
    requires !Frame(c).CreateOrder?
    ensures !Frame(Act(db, c, mint).1).CreateOrder?
  {
  }

  lemma StepFromShelf(s: System, ls: seq<Label>, c: Call, mint: Mint)
    requires Inv(Exec(s, ls)) && CallOk(Exec(s, ls).db, c) && CallFromShelf(s, ls, c) && !c.Ended?
    ensures CallFromShelf(s, ls, Act(Exec(s, ls).db, c, mint).1)
  {
    if c.CreateOrder? {
      ActFromShelf(s, ls, c, mint);
    } else {
      OtherCallsStayOther(Exec(s, ls).db, c, mint);
    }
  }

  /** A store call leaves the items of the saved orders alone; a new order is saved with its call's items. */
  lemma ActSavesItems(db: Db, c: Call, mint: Mint, id: string)
    requires DbOk(db) && CallOk(db, c) && !IdTaken(db, c, mint) && id in Act(db, c, mint).0.orders
    ensures var items := Act(db, c, mint).0.orders[id].items;
            if id in db.orders then items == db.orders[id].items else c.CreateOrder? && items == c.items
  {
    if c.CancelOrder? && c.order.Some? { assert OrderOk(db, c.orderId, db.orders[c.orderId]); }
  }

  // ---- whole runs ----

  /** All calls, and all orders that the run has saved. */
  ghost predicate RunFromShelf(s: System, ls: seq<Label>) {
    var t := Exec(s, ls);
    && (forall cid :: cid in t.calls ==> CallFromShelf(s, ls, t.calls[cid]))
    && (forall id :: id in t.db.orders && id !in s.db.orders ==> AllFromShelf(s, ls, t.db.orders[id].items))
  }

  /** What a step makes of one frame. */
  lemma NextFrame(t: System, l: Label, cid: nat)
    requires cid in Next(t, l).calls
    ensures var c' := Next(t, l).calls[cid];
      if cid !in t.calls then Initial(Frame(c'))
      else if Acts(t, l) && l.cid == cid then c' == Act(t.db, t.calls[cid], l.mint).1
      else Frame(c') == Frame(t.calls[cid])
  {
  }

  lemma NextCallFromShelf(s: System, ls: seq<Label>, t: System, l: Label, cid: nat)
    requires t == Exec(s, ls) && Inv(t) && cid in Next(t, l).calls
    requires cid in t.calls ==> CallFromShelf(s, ls, t.calls[cid])
    ensures CallFromShelf(s, ls, Next(t, l).calls[cid])
  {
    NextFrame(t, l, cid);
    if Acts(t, l) && l.cid == cid {
      assert CallOk(t.db, t.calls[cid]);
      StepFromShelf(s, ls, t.calls[cid], l.mint);
    }
  }

  /** The items of a saved order are those it had, or those of the call that has just saved it. */
  lemma NextOrderItems(t: System, l: Label, id: string)
    requires Inv(t) && id in Next(t, l).db.orders
    ensures var items := Next(t, l).db.orders[id].items;
      if id in t.db.orders then items == t.db.orders[id].items
      else Acts(t, l) && t.calls[l.cid].CreateOrder? && items == t.calls[l.cid].items
  {
    if Acts(t, l) {
      assert CallOk(t.db, t.calls[l.cid]);
      ActSavesItems(t.db, t.calls[l.cid], l.mint, id);
    }
  }

  lemma NextOrderFromShelf(s: System, ls: seq<Label>, t: System, l: Label, id: string)
    requires t == Exec(s, ls) && Inv(t) && RunFromShelf(s, ls)
    requires id in Next(t, l).db.orders && id !in s.db.orders
    ensures AllFromShelf(s, ls, Next(t, l).db.orders[id].items)
  {
    NextOrderItems(t, l, id);
    if id !in t.db.orders { assert CallFromShelf(s, ls, t.calls[l.cid]); }
  }

  /**
   * In every interleaving from no calls, each item of an order that is being built or was saved carries the id,
   * title, artist and price that a record had, unarchived, at an earlier moment of the run.
   */
  lemma {:induction false} ItemsAreFromShelf(s: System, ls: seq<Label>)
    requires Inv(s) && s.calls == map[]
    ensures RunFromShelf(s, ls)
    decreases |ls|
  {
    if ls != [] {
      var n := |ls| - 1;
      var before, l := ls[..n], ls[n];
      ItemsAreFromShelf(s, before);
      AlwaysOk(s, before);
      assert ls == before + [l];
      ExecConcat(s, before, [l]);
      assert Exec(s, ls) == Next(Exec(s, before), l);
      forall cid | cid in Exec(s, ls).calls ensures CallFromShelf(s, ls, Exec(s, ls).calls[cid]) {
        NextCallFromShelf(s, before, Exec(s, before), l, cid);
        CallStaysFromShelf(s, before, l, Exec(s, ls).calls[cid]);
      }
      forall id | id in Exec(s, ls).db.orders && id !in s.db.orders
        ensures AllFromShelf(s, ls, Exec(s, ls).db.orders[id].items)
      {
        NextOrderFromShelf(s, before, Exec(s, before), l, id);
        ItemsStay(s, before, l, Exec(s, ls).db.orders[id].items);
      }
    }
  }
}
