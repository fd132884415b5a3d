/** Runs in which no write to a document lands between a call's read of it and that call's save of it. */
module Overlap {
  import opened Models
  import opened Store
  import opened Protocol
  import opened Invariant
  import opened Ledger
  import opened Conservation

  predicate WritesRecord(s: System, l: Label, id: string) {
    Acts(s, l) &&
    var c := s.calls[l.cid];
    || (c.CreateOrder? && |c.items| < |c.lines| && c.seen.Some? && c.lines[|c.items|].recordId == id
        && CanDecrement(s.db, id, c.lines[|c.items|].quantity))
    || (Copy(c).Some? && Copy(c).value.id == id)
    || (c.CreateRecord? && l.mint.id == id)
  }

  predicate WritesOrder(s: System, l: Label, id: string) {
    Acts(s, l) &&
    var c := s.calls[l.cid];
    || (c.CreateOrder? && |c.items| >= |c.lines| && l.mint.id == id)
    || (MarksCancelled(c) && c.orderId == id)
  }

  /** Label `j` is the read of the record copy that label `k` saves. */
  predicate ReadsCopy(s: System, ls: seq<Label>, j: nat, k: nat)
    requires j < k < |ls| && Acts(Before(s, ls, k), ls[k])
  {
    var cid := ls[k].cid;
    && Acts(Before(s, ls, j), ls[j]) && ls[j].cid == cid
    && Copy(Before(s, ls, j).calls[cid]).None?
    && cid in Before(s, ls, j + 1).calls
    && Copy(Before(s, ls, j + 1).calls[cid]) == Copy(Before(s, ls, k).calls[cid])
  }

  /** Label `j` is the read of the order that label `k` marks cancelled. */
  predicate ReadsOrder(s: System, ls: seq<Label>, j: nat, k: nat)
    requires j < k < |ls| && Acts(Before(s, ls, k), ls[k]) && Before(s, ls, k).calls[ls[k].cid].CancelOrder?
  {
    var cid := ls[k].cid;
    && Acts(Before(s, ls, j), ls[j]) && ls[j].cid == cid
    && Before(s, ls, j).calls[cid].CancelOrder? && Before(s, ls, j).calls[cid].order.None?
    && cid in Before(s, ls, j + 1).calls
    && Before(s, ls, j + 1).calls[cid].CancelOrder?
    && Before(s, ls, j + 1).calls[cid].orderId == Before(s, ls, k).calls[cid].orderId
    && Before(s, ls, j + 1).calls[cid].order == Before(s, ls, k).calls[cid].order
  }

  ghost predicate NoOverlapAt(s: System, ls: seq<Label>, k: nat)
    requires k < |ls| && Acts(Before(s, ls, k), ls[k])
  {
    var c := Before(s, ls, k).calls[ls[k].cid];
    && (Copy(c).Some? ==>
          exists j: nat :: j < k && ReadsCopy(s, ls, j, k) &&
            forall m: nat :: j < m < k ==> !WritesRecord(Before(s, ls, m), ls[m], Copy(c).value.id))
    && (MarksCancelled(c) ==>
          exists j: nat :: j < k && ReadsOrder(s, ls, j, k) &&
            forall m: nat :: j < m < k ==> !WritesOrder(Before(s, ls, m), ls[m], c.orderId))
  }

  /** Between a call's read of a document and its save of that document nobody writes it. */
  ghost predicate NoOverlap(s: System, ls: seq<Label>) {
    forall k: nat :: k < |ls| && Acts(Before(s, ls, k), ls[k]) ==> NoOverlapAt(s, ls, k)
  }

  // ---- one step ----

  lemma UnwrittenRecordStays(s: System, l: Label, id: string)
    requires Inv(s) && !WritesRecord(s, l, id)
    ensures Find(Next(s, l).db.records, id) == Find(s.db.records, id)
  {
    if Acts(s, l) { assert CallOk(s.db, s.calls[l.cid]); }
  }

  lemma UnwrittenOrderStays(s: System, l: Label, id: string)
    requires Inv(s) && !WritesOrder(s, l, id)
    ensures Find(Next(s, l).db.orders, id) == Find(s.db.orders, id)
  {
    if Acts(s, l) && MarksCancelled(s.calls[l.cid]) {
      var c := s.calls[l.cid];
      assert OrderOk(s.db, c.orderId, s.db.orders[c.orderId]);
    }
  }

  lemma ActTakesCopy(db: Db, c: Call, mint: Mint)
    requires DbOk(db) && CallOk(db, c) && Copy(c).None? && Copy(Act(db, c, mint).1).Some?
    ensures var (db', c') := Act(db, c, mint); Find(db'.records, Copy(c').value.id) == Copy(c')
  {
  }

  /** A record copy is taken from the store, and taking it changes nothing. */
  lemma CopyIsTaken(s: System, l: Label)
    requires Inv(s) && Acts(s, l) && Copy(s.calls[l.cid]).None? && Copy(Next(s, l).calls[l.cid]).Some?
    ensures var copy := Copy(Next(s, l).calls[l.cid]);
            Find(Next(s, l).db.records, copy.value.id) == copy
  {
    ActTakesCopy(s.db, s.calls[l.cid], l.mint);
  }

  lemma OrderIsTaken(s: System, l: Label)
    requires Inv(s) && Acts(s, l) && s.calls[l.cid].CancelOrder? && s.calls[l.cid].order.None?
    requires Next(s, l).calls[l.cid].CancelOrder? && Next(s, l).calls[l.cid].order.Some?
    ensures var c := Next(s, l).calls[l.cid]; Find(Next(s, l).db.orders, c.orderId) == c.order
  {
  }

  // ---- segments and runs ----

  lemma {:induction false} RecordStays(s: System, ls: seq<Label>, j: nat, k: nat, id: string)
    requires Inv(s) && j <= k <= |ls|
    requires forall m: nat :: j <= m < k ==> !WritesRecord(Before(s, ls, m), ls[m], id)
    ensures Find(Before(s, ls, k).db.records, id) == Find(Before(s, ls, j).db.records, id)
    decreases k
  {
    if j < k {
      RecordStays(s, ls, j, k - 1, id);
      AlwaysOk(s, ls[..k - 1]);
      BeforeNext(s, ls, k - 1);
      UnwrittenRecordStays(Before(s, ls, k - 1), ls[k - 1], id);
    }
  }

  lemma {:induction false} OrderStays(s: System, ls: seq<Label>, j: nat, k: nat, id: string)
    requires Inv(s) && j <= k <= |ls|
    requires forall m: nat :: j <= m < k ==> !WritesOrder(Before(s, ls, m), ls[m], id)
    ensures Find(Before(s, ls, k).db.orders, id) == Find(Before(s, ls, j).db.orders, id)
    decreases k
  {
    if j < k {
      OrderStays(s, ls, j, k - 1, id);
      AlwaysOk(s, ls[..k - 1]);
      BeforeNext(s, ls, k - 1);
      UnwrittenOrderStays(Before(s, ls, k - 1), ls[k - 1], id);
    }
  }

  lemma RecordIsFresh(s: System, ls: seq<Label>, j: nat, k: nat)
    requires Inv(s) && j < k < |ls| && Acts(Before(s, ls, k), ls[k]) && ReadsCopy(s, ls, j, k)
    requires Copy(Before(s, ls, k).calls[ls[k].cid]).Some?
    requires var id := Copy(Before(s, ls, k).calls[ls[k].cid]).value.id;
             forall m: nat :: j < m < k ==> !WritesRecord(Before(s, ls, m), ls[m], id)
    ensures var copy := Copy(Before(s, ls, k).calls[ls[k].cid]);
            Find(Before(s, ls, k).db.records, copy.value.id) == copy
  {
    AlwaysOk(s, ls[..j]);
    BeforeNext(s, ls, j);
    CopyIsTaken(Before(s, ls, j), ls[j]);
    RecordStays(s, ls, j + 1, k, Copy(Before(s, ls, k).calls[ls[k].cid]).value.id);
  }

  lemma OrderIsFresh(s: System, ls: seq<Label>, j: nat, k: nat)
    requires Inv(s) && j < k < |ls| && Acts(Before(s, ls, k), ls[k])
             && MarksCancelled(Before(s, ls, k).calls[ls[k].cid])
    requires ReadsOrder(s, ls, j, k)
    requires var id := Before(s, ls, k).calls[ls[k].cid].orderId;
             forall m: nat :: j < m < k ==> !WritesOrder(Before(s, ls, m), ls[m], id)
    ensures var c := Before(s, ls, k).calls[ls[k].cid]; Find(Before(s, ls, k).db.orders, c.orderId) == c.order
  {
    AlwaysOk(s, ls[..j]);
    BeforeNext(s, ls, j);
    OrderIsTaken(Before(s, ls, j), ls[j]);
    OrderStays(s, ls, j + 1, k, Before(s, ls, k).calls[ls[k].cid].orderId);
  }

  lemma FreshAt(s: System, ls: seq<Label>, k: nat)
    requires Inv(s) && k < |ls| && Acts(Before(s, ls, k), ls[k]) && NoOverlapAt(s, ls, k)
    ensures FreshSave(Before(s, ls, k).db, Before(s, ls, k).calls[ls[k].cid])
  {
    var c := Before(s, ls, k).calls[ls[k].cid];
    if Copy(c).Some? {
      var j: nat :| j < k && ReadsCopy(s, ls, j, k) &&
        forall m: nat :: j < m < k ==> !WritesRecord(Before(s, ls, m), ls[m], Copy(c).value.id);
      RecordIsFresh(s, ls, j, k);
    }
    if MarksCancelled(c) {
      var j: nat :| j < k && ReadsOrder(s, ls, j, k) &&
        forall m: nat :: j < m < k ==> !WritesOrder(Before(s, ls, m), ls[m], c.orderId);
      OrderIsFresh(s, ls, j, k);
    }
  }

  lemma {:induction false} FreshEverywhere(s: System, ls: seq<Label>)
    requires forall k: nat :: k < |ls| && Acts(Before(s, ls, k), ls[k]) ==>
               FreshSave(Before(s, ls, k).db, Before(s, ls, k).calls[ls[k].cid])
    ensures FreshRun(s, ls)
    decreases |ls|
  {
    if ls != [] {
      assert Before(s, ls, 0) == s;
      var t, rest := Next(s, ls[0]), ls[1..];
      forall k: nat | k < |rest| ensures Before(t, rest, k) == Before(s, ls, k + 1) {
        assert ls[..k + 1][0] == ls[0] && ls[..k + 1][1..] == rest[..k];
      }
      FreshEverywhere(t, rest);
    }
  }

  /** Without overlapping writes every save finds its document as it was read, so the books are exact. */
  lemma NoOverlapIsFresh(s: System, ls: seq<Label>)
    requires Inv(s) && NoOverlap(s, ls)
    ensures FreshRun(s, ls)
  {
    forall k: nat | k < |ls| && Acts(Before(s, ls, k), ls[k])
      ensures FreshSave(Before(s, ls, k).db, Before(s, ls, k).calls[ls[k].cid])
    {
      FreshAt(s, ls, k);
    }
    FreshEverywhere(s, ls);
  }
}
