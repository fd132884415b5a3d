/** The handlers as they are written, over a store object whose calls may fail. */
module Handlers {
  import opened Models
  import opened Patches
  import opened Store
  import opened Protocol
  import opened Serial
  import opened Ordering
  import opened Refund
  import opened Catalog

  /** store.MongoStore. `served` counts the store calls that will still be answered before one fails. */
  class MongoStore {
    var records: map<string, Record>
    var orders: map<string, Order>
    var served: nat

    function Contents(): Db
      reads this
    {
      Db(records, orders)
    }

    method GetRecord(id: string) returns (rec: Option<Record>, err: bool)
      modifies this`served
      ensures err == (old(served) == 0)
      ensures !err ==> rec == (if id in records then Some(records[id]) else None) && served == old(served) - 1
    {
      rec, err := None, served == 0;
      if err { return; }
      served := served - 1;
      if id in records { rec := Some(records[id]); }
    }

    method GetOrder(id: string) returns (order: Option<Order>, err: bool)
      modifies this`served
      ensures err == (old(served) == 0)
      ensures !err ==> order == (if id in orders then Some(orders[id]) else None) && served == old(served) - 1
    {
      order, err := None, served == 0;
      if err { return; }
      served := served - 1;
      if id in orders { order := Some(orders[id]); }
    }

    method SaveRecord(rec: Record) returns (err: bool)
      modifies this`served, this`records
      ensures err == (old(served) == 0)
      ensures err ==> Contents() == old(Contents())
      ensures !err ==> Contents() == Store.SaveRecord(old(Contents()), rec) && served == old(served) - 1
      ensures !err ==> records == old(records)[rec.id := rec]
    {
      err := served == 0;
      if err { return; }
      served := served - 1;
      records := records[rec.id := rec];
    }

    method SaveOrder(order: Order) returns (err: bool)
      modifies this`served, this`orders
      ensures err == (old(served) == 0)
      ensures err ==> Contents() == old(Contents())
      ensures !err ==> Contents() == Store.SaveOrder(old(Contents()), order) && served == old(served) - 1
      ensures !err ==> orders == old(orders)[order.id := order]
    {
      err := served == 0;
      if err { return; }
      served := served - 1;
      orders := orders[order.id := order];
    }

    /** One atomic find-and-update: the stock goes down only if it is at least `quantity`. */
    method DecrementStock(id: string, quantity: int) returns (success: bool, err: bool)
      modifies this`served, this`records
      ensures err == (old(served) == 0)
      ensures err || !success ==> Contents() == old(Contents())
      ensures !err ==> served == old(served) - 1 && success == CanDecrement(old(Contents()), id, quantity)
      ensures !err && success ==> Contents() == Decrement(old(Contents()), id, quantity)
      ensures !err ==> (success <==> id in old(records) && old(records)[id].stock >= quantity)
      ensures !err && success ==>
        records == old(records)[id := old(records)[id].(stock := old(records)[id].stock - quantity)]
    {
      success, err := false, served == 0;
      if err { return; }
      served := served - 1;
      if id in records && records[id].stock >= quantity {
        records := records[id := records[id].(stock := records[id].stock - quantity)];
        success := true;
      }
    }
  }

  /** Playing an order call that has read the record of its current line: the line is taken, if the store answers. */
  lemma PlayTakesLine(
    db: Db, userId: string, lines: seq<Line>, address: Address, items: seq<OrderItem>, rec: Record,
    mint: Mint, fuel: nat)
    requires |items| < |lines|
    ensures var c := Call.CreateOrder(userId, lines, address, items, Some(rec)); var line := lines[|items|];
      Play(db, c, mint, fuel) ==
        if fuel == 0 then (db, Ended(c, StoreError))
        else if !CanDecrement(db, line.recordId, line.quantity) then (db, Ended(c, InsufficientStock))
        else Play(Decrement(db, line.recordId, line.quantity),
                  Call.CreateOrder(userId, lines, address, items + [ItemOf(rec, line.quantity)], None), mint, fuel - 1)
  {
  }

  /** Playing a cancellation that has read the record of item `i`: its units are put back, if the store answers. */
  lemma PlayPutsBack(
    db: Db, userId: string, admin: bool, id: string, order: Order, i: nat, rec: Record, mint: Mint, fuel: nat)
    requires i < |order.items|
    ensures var c := Call.CancelOrder(userId, admin, id, Some(order), i, Some(rec));
      Play(db, c, mint, fuel) ==
        if fuel == 0 then (db, Ended(c, StoreError))
        else Play(Store.SaveRecord(db, rec.(stock := rec.stock + order.items[i].quantity)),
                  Call.CancelOrder(userId, admin, id, Some(order), i + 1, None), mint, fuel - 1)
  {
  }

  class Handler {
    const store: MongoStore

    constructor (store: MongoStore)
      ensures this.store == store
    {
      this.store := store;
    }

    /** An order that has passed its checks (handlers/order.go:88-137). */
    method PlaceOrder(userId: string, lines: seq<Line>, address: Address, mint: Mint) returns (outcome: Outcome)
      modifies store
      ensures var (db, call) := Play(old(store.Contents()), Call.CreateOrder(userId, lines, address, [], None),
                                     mint, old(store.served));
              store.Contents() == db && outcome == call.outcome
      ensures !outcome.Invalid? && !outcome.Unauthenticated?
    {
      ghost var run := Play(store.Contents(), Call.CreateOrder(userId, lines, address, [], None), mint, store.served);
      var items: seq<OrderItem> := [];
      for i := 0 to |lines|
        invariant |items| == i
        invariant run ==
          Play(store.Contents(), Call.CreateOrder(userId, lines, address, items, None), mint, store.served)
      {
        var line := lines[i];
        var rec, err := store.GetRecord(line.recordId);
        if err { return StoreError; }
        if rec.None? { return RecordNotFound; }
        if rec.value.archived { return ArchivedConflict; }
        assert run == Play(store.Contents(), Call.CreateOrder(userId, lines, address, items, rec), mint, store.served);
        PlayTakesLine(store.Contents(), userId, lines, address, items, rec.value, mint, store.served);
        var success: bool;
        success, err := store.DecrementStock(line.recordId, line.quantity);
        if err { return StoreError; }
        if !success { return InsufficientStock; }
        items := items + [OrderItem(rec.value.id, rec.value.title, rec.value.artist, rec.value.price, line.quantity)];
      }
      var order := NewOrder(mint, userId, items, address);
      var err := store.SaveOrder(order);
      if err { return StoreError; }
      return OrderCreated(order.id);
    }

    /**
     * The contract says first that the call is the one of the step system, and then what the client gets. `served`
     * is the number of store calls that are answered; documents are stored under their own ids.
     */
    method CreateOrder(userId: string, lines: seq<Line>, address: Address, mint: Mint) returns (outcome: Outcome)
      modifies store
      ensures var (db, call) := Play(old(store.Contents()), Admit(Call.CreateOrder(userId, lines, address, [], None)),
                                     mint, old(store.served));
              store.Contents() == db && outcome == call.outcome
      ensures outcome.Invalid? <==>
        !(lines != [] && forall i :: 0 <= i < |lines| ==> lines[i].recordId != "" && lines[i].quantity >= 1)
      ensures outcome.Unauthenticated? <==>
        && lines != [] && (forall i :: 0 <= i < |lines| ==> lines[i].recordId != "" && lines[i].quantity >= 1)
        && userId == ""
      ensures Keyed(old(store.Contents())) && old(store.served) > 2 * |lines| ==>
        (outcome.OrderCreated? <==>
          && lines != [] && (forall i :: 0 <= i < |lines| ==> lines[i].recordId != "" && lines[i].quantity >= 1)
          && userId != "" && Feasible(old(store.records), lines))
      ensures Keyed(old(store.Contents())) && outcome.OrderCreated? ==>
        && Feasible(old(store.records), lines)
        && (forall id :: id in store.records <==> id in old(store.records))
        && (forall id :: id in store.records ==>
              var rec := old(store.records)[id]; store.records[id] == rec.(stock := rec.stock - Demand(lines, id)))
      ensures Keyed(old(store.Contents())) && outcome.OrderCreated? ==>
        && outcome.id == mint.id && mint.id in store.orders
        && store.orders == old(store.orders)[mint.id := store.orders[mint.id]]
        && var order := store.orders[mint.id];
        && order.id == mint.id && order.createdAt == mint.now && order.userId == userId && order.address == address
        && order.status.Pending? && order.total == Total(order.items) && |order.items| == |lines|
        && (forall i :: 0 <= i < |lines| ==>
              && lines[i].recordId in old(store.records)
              && order.items[i].recordId == lines[i].recordId && order.items[i].quantity == lines[i].quantity
              && var rec := old(store.records)[lines[i].recordId];
              && order.items[i].title == rec.title && order.items[i].artist == rec.artist
              && order.items[i].price == rec.price)
      ensures Keyed(old(store.Contents())) && !outcome.OrderCreated? ==> store.orders == old(store.orders)
      ensures (outcome.RecordNotFound? || outcome.ArchivedConflict? || outcome.InsufficientStock?) ==>
        Keyed(old(store.Contents())) ==> exists k: nat ::
          && k < |lines|
          && var id := lines[k].recordId; var shelf := old(store.records);
          && Feasible(shelf, lines[..k]) && store.records == Lower(shelf, lines[..k])
          && (outcome.RecordNotFound? <==> id !in shelf)
          && (outcome.ArchivedConflict? <==> id in shelf && shelf[id].archived)
          && (outcome.InsufficientStock? ==> shelf[id].stock < Demand(lines[..k], id) + lines[k].quantity)
      ensures Keyed(old(store.Contents())) && outcome.StoreError? ==>
        && old(store.served) <= 2 * |lines|
        && exists k: nat ::
          && k <= |lines| && Feasible(old(store.records), lines[..k])
          && store.records == Lower(old(store.records), lines[..k])
    {
      ghost var before, fuel := store.Contents(), store.served;
      if !ValidLines(lines) { return Invalid; }
      if userId == "" { return Unauthenticated; }
      outcome := PlaceOrder(userId, lines, address, mint);
      if Keyed(before) {
        OrderIsAnswered(before, userId, lines, address, mint, fuel);
        if outcome.OrderCreated? {
          OrderIsSaved(before, userId, lines, address, mint, fuel);
        } else {
          OrderIsRefused(before, userId, lines, address, mint, fuel);
        }
      }
    }

    /** A cancellation of a named order (handlers/order.go:246-291). */
    method RefundOrder(userId: string, admin: bool, id: string, mint: Mint) returns (outcome: Outcome)
      modifies store
      ensures var (db, call) := Play(old(store.Contents()), Call.CancelOrder(userId, admin, id, None, 0, None),
                                     mint, old(store.served));
              store.Contents() == db && outcome == call.outcome
    {
      ghost var run := Play(store.Contents(), Call.CancelOrder(userId, admin, id, None, 0, None), mint, store.served);
      var found, err := store.GetOrder(id);
      if err { return StoreError; }
      if found.None? { return OrderNotFound; }
      var order := found.value;
      if !admin && order.userId != userId { return AccessDenied; }
      if order.status != Pending { return NotPending; }
      for i := 0 to |order.items|
        invariant run == Play(store.Contents(), Call.CancelOrder(userId, admin, id, found, i, None), mint, store.served)
      {
        var item := order.items[i];
        var rec;
        rec, err := store.GetRecord(item.recordId);
        if err { return StoreError; }
        if rec.Some? {
          assert run == Play(store.Contents(), Call.CancelOrder(userId, admin, id, found, i, rec), mint, store.served);
          PlayPutsBack(store.Contents(), userId, admin, id, order, i, rec.value, mint, store.served);
          err := store.SaveRecord(rec.value.(stock := rec.value.stock + item.quantity));
          if err { return StoreError; }
        }
      }
      err := store.SaveOrder(order.(status := Cancelled));
      if err { return StoreError; }
      return OrderCancelled;
    }

    method CancelOrder(userId: string, admin: bool, id: string, mint: Mint) returns (outcome: Outcome)
      modifies store
      ensures var (db, call) := Play(old(store.Contents()), Admit(Call.CancelOrder(userId, admin, id, None, 0, None)),
                                     mint, old(store.served));
              store.Contents() == db && outcome == call.outcome
      ensures Keyed(old(store.Contents())) ==>
        var orders, answers := old(store.orders), old(store.served) > 0;
        && (outcome.BadRequest? <==> id == "")
        && (outcome.OrderNotFound? <==> id != "" && id !in orders && answers)
        && (outcome.AccessDenied? <==> id != "" && id in orders && !admin && orders[id].userId != userId && answers)
        && (outcome.NotPending? <==>
              && id != "" && id in orders && (admin || orders[id].userId == userId)
              && !orders[id].status.Pending? && answers)
      ensures Keyed(old(store.Contents())) ==>
        var orders := old(store.orders);
        id in orders && old(store.served) > 2 * |orders[id].items| + 1 ==>
          (outcome.OrderCancelled? <==>
            id != "" && (admin || orders[id].userId == userId) && orders[id].status.Pending?)
      ensures Keyed(old(store.Contents())) && outcome.OrderCancelled? ==>
        && id in old(store.orders)
        && store.orders == old(store.orders)[id := old(store.orders)[id].(status := Cancelled)]
        && (forall r :: r in store.records <==> r in old(store.records))
        && (forall r :: r in store.records ==>
              var rec := old(store.records)[r];
              store.records[r] == rec.(stock := rec.stock + Units(old(store.orders)[id].items, r)))
      ensures Keyed(old(store.Contents())) && !outcome.OrderCancelled? ==>
        && store.orders == old(store.orders)
        && (!outcome.StoreError? ==> store.records == old(store.records))
      ensures Keyed(old(store.Contents())) && outcome.StoreError? && id in old(store.orders) ==>
        exists k: nat ::
          && k <= |old(store.orders)[id].items|
          && store.records == Raise(old(store.records), LinesOf(old(store.orders)[id].items)[..k])
    {
      ghost var before, fuel := store.Contents(), store.served;
      if id == "" {
        outcome := BadRequest;
      } else {
        outcome := RefundOrder(userId, admin, id, mint);
      }
      if Keyed(before) {
        CancellationIsAnswered(before, userId, admin, id, mint, fuel);
        CancellationRestores(before, userId, admin, id, mint, fuel);
      }
    }

    /** A restock of a named record (handlers/inventory.go:122-154). */
    method RestockStored(id: string, quantity: int, mint: Mint) returns (outcome: Outcome)
      modifies store
      ensures var (db, call) := Play(old(store.Contents()), Call.RestockRecord(id, quantity, None),
                                     mint, old(store.served));
              store.Contents() == db && outcome == call.outcome
    {
      ghost var run := Play(store.Contents(), Call.RestockRecord(id, quantity, None), mint, store.served);
      var rec, err := store.GetRecord(id);
      if err { return StoreError; }
      if rec.None? { return RecordNotFound; }
      if rec.value.archived { return ArchivedConflict; }
      if quantity < 1 { return Invalid; }
      assert run == Play(store.Contents(), Call.RestockRecord(id, quantity, rec), mint, store.served);
      err := store.SaveRecord(rec.value.(stock := rec.value.stock + quantity));
      if err { return StoreError; }
      return RecordRestocked;
    }

    method RestockRecord(id: string, quantity: int, mint: Mint) returns (outcome: Outcome)
      modifies store
      ensures var (db, call) := Play(old(store.Contents()), Admit(Call.RestockRecord(id, quantity, None)),
                                     mint, old(store.served));
              store.Contents() == db && outcome == call.outcome
      ensures Keyed(old(store.Contents())) ==>
        var records, known := old(store.records), id != "" && id in old(store.records);
        && (outcome.BadRequest? <==> id == "")
        && (outcome.RecordNotFound? <==> id != "" && id !in records && old(store.served) > 0)
        && (outcome.ArchivedConflict? <==> known && records[id].archived && old(store.served) > 0)
        && (outcome.Invalid? <==> known && !records[id].archived && quantity < 1 && old(store.served) > 0)
        && (outcome.RecordRestocked? <==>
              known && !records[id].archived && quantity >= 1 && old(store.served) > 1)
        && store.records == (if outcome.RecordRestocked? then
                               records[id := records[id].(stock := records[id].stock + quantity)] else records)
        && store.orders == old(store.orders)
    {
      ghost var before, fuel := store.Contents(), store.served;
      if id == "" {
        outcome := BadRequest;
      } else {
        outcome := RestockStored(id, quantity, mint);
      }
      if Keyed(before) { RestockDoes(before, id, quantity, mint, fuel); }
    }

    /** An update of a named record (handlers/record.go:209-262). */
    method UpdateStored(id: string, patch: Patch, mint: Mint) returns (outcome: Outcome)
      modifies store
      ensures var (db, call) := Play(old(store.Contents()), Call.UpdateRecord(id, patch, None),
                                     mint, old(store.served));
              store.Contents() == db && outcome == call.outcome
    {
      ghost var run := Play(store.Contents(), Call.UpdateRecord(id, patch, None), mint, store.served);
      var rec, err := store.GetRecord(id);
      if err { return StoreError; }
      if rec.None? { return RecordNotFound; }
      if !ValidPatch(patch) { return Invalid; }
      assert run == Play(store.Contents(), Call.UpdateRecord(id, patch, rec), mint, store.served);
      var merged := Merge(patch, rec.value);
      err := store.SaveRecord(merged);
      if err { return StoreError; }
      return RecordUpdated;
    }

    method UpdateRecord(id: string, patch: Patch, mint: Mint) returns (outcome: Outcome)
      modifies store
      ensures var (db, call) := Play(old(store.Contents()), Admit(Call.UpdateRecord(id, patch, None)),
                                     mint, old(store.served));
              store.Contents() == db && outcome == call.outcome
      ensures var known := id != "" && id in old(store.records);
        var valid :=
          && |patch.title| <= 200 && |patch.artist| <= 100 && (patch.year == 0 || 1900 <= patch.year <= 2100)
          && patch.format in {"", "lp", "7in", "10in", "12in"}
          && patch.genre in {"", "jazz", "rock", "electronic", "hip-hop", "classical", "soul", "funk", "blues"}
          && patch.condition in {"", "mint", "nm-", "nm", "vg+", "vg", "g+"}
          && patch.price >= 0.0 && patch.stock >= 0;
        && (outcome.BadRequest? <==> id == "")
        && (outcome.RecordNotFound? <==> id != "" && id !in old(store.records) && old(store.served) > 0)
        && (outcome.Invalid? <==> known && !valid && old(store.served) > 0)
        && (outcome.RecordUpdated? <==> known && valid && old(store.served) > 1)
      ensures Keyed(old(store.Contents())) && outcome.RecordUpdated? ==>
        && id in old(store.records)
        && var rec := old(store.records)[id];
        store.records == old(store.records)[id := Record(
          rec.id, rec.createdAt,
          if patch.title != "" then patch.title else rec.title,
          if patch.artist != "" then patch.artist else rec.artist,
          if patch.year != 0 then patch.year else rec.year,
          if patch.labelName != "" then patch.labelName else rec.labelName,
          if patch.catalogNumber != "" then patch.catalogNumber else rec.catalogNumber,
          if patch.format != "" then patch.format else rec.format,
          if patch.genre != "" then patch.genre else rec.genre,
          if patch.condition != "" then patch.condition else rec.condition,
          if patch.price != 0.0 then patch.price else rec.price,
          if patch.hasBody || patch.stock != 0 then patch.stock else rec.stock,
          if patch.description != "" then patch.description else rec.description,
          rec.archived)]
      ensures Keyed(old(store.Contents())) ==>
        store.orders == old(store.orders) && (!outcome.RecordUpdated? ==> store.records == old(store.records))
    {
      ghost var before, fuel := store.Contents(), store.served;
      if id == "" {
        outcome := BadRequest;
      } else {
        outcome := UpdateStored(id, patch, mint);
      }
      UpdateAnswers(before, id, patch, mint, fuel);
      if Keyed(before) { UpdateDoes(before, id, patch, mint, fuel); }
    }

    /** An archiving of a named record (handlers/record.go:274-294). */
    method ArchiveStored(id: string, mint: Mint) returns (outcome: Outcome)
      modifies store
      ensures var (db, call) := Play(old(store.Contents()), Call.ArchiveRecord(id, None), mint, old(store.served));
              store.Contents() == db && outcome == call.outcome
    {
      ghost var run := Play(store.Contents(), Call.ArchiveRecord(id, None), mint, store.served);
      var rec, err := store.GetRecord(id);
      if err { return StoreError; }
      if rec.None? { return RecordNotFound; }
      if rec.value.archived { return ArchivedConflict; }
      assert run == Play(store.Contents(), Call.ArchiveRecord(id, rec), mint, store.served);
      err := store.SaveRecord(rec.value.(archived := true));
      if err { return StoreError; }
      return RecordArchived;
    }

    method ArchiveRecord(id: string, mint: Mint) returns (outcome: Outcome)
      modifies store
      ensures var (db, call) := Play(old(store.Contents()), Admit(Call.ArchiveRecord(id, None)),
                                     mint, old(store.served));
              store.Contents() == db && outcome == call.outcome
      ensures Keyed(old(store.Contents())) ==>
        var records, known := old(store.records), id != "" && id in old(store.records);
        && (outcome.BadRequest? <==> id == "")
        && (outcome.RecordNotFound? <==> id != "" && id !in records && old(store.served) > 0)
        && (outcome.ArchivedConflict? <==> known && records[id].archived && old(store.served) > 0)
        && (outcome.RecordArchived? <==> known && !records[id].archived && old(store.served) > 1)
        && store.records == (if outcome.RecordArchived? then
                               records[id := records[id].(archived := true)] else records)
        && store.orders == old(store.orders)
    {
      ghost var before, fuel := store.Contents(), store.served;
      if id == "" {
        outcome := BadRequest;
      } else {
        outcome := ArchiveStored(id, mint);
      }
      if Keyed(before) { ArchiveDoes(before, id, mint, fuel); }
    }

    method CreateRecord(params: RecordParams, mint: Mint) returns (outcome: Outcome)
      modifies store
      ensures var (db, call) := Play(old(store.Contents()), Admit(Call.CreateRecord(params)), mint, old(store.served));
              store.Contents() == db && outcome == call.outcome
      ensures var valid :=
          && 1 <= |params.title| <= 200 && 1 <= |params.artist| <= 100 && 1900 <= params.year <= 2100
          && params.format in {"lp", "7in", "10in", "12in"}
          && params.genre in {"jazz", "rock", "electronic", "hip-hop", "classical", "soul", "funk", "blues"}
          && params.condition in {"mint", "nm-", "nm", "vg+", "vg", "g+"}
          && params.price >= 0.0 && params.stock >= 0;
        && (outcome.Invalid? <==> !valid)
        && (outcome.RecordCreated? <==> valid && old(store.served) > 0)
      ensures store.records == (
        if outcome.RecordCreated? then
          old(store.records)[mint.id :=
            Record(mint.id, mint.now, params.title, params.artist, params.year, params.labelName,
                   params.catalogNumber, params.format, params.genre, params.condition, params.price,
                   params.stock, params.description, false)]
        else old(store.records))
      ensures store.orders == old(store.orders) && (outcome.RecordCreated? ==> outcome.id == mint.id)
    {
      Catalog.CreateRecordDoes(store.Contents(), params, mint, store.served);
      if !ValidParams(params) { return Invalid; }
      var err := store.SaveRecord(NewRecord(mint, params));
      if err { return StoreError; }
      return Outcome.RecordCreated(mint.id);
    }
  }
}
