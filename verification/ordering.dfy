/** What a whole CreateOrder does to the store, against the aggregate demand of its lines. */
module Ordering {
  import opened Models
  import opened Store
  import opened Protocol
  import opened Serial

  // ---- demand against a shelf ----

  type Shelf = map<string, Record>

  /** Every line names a record on sale, and no record is asked for more than its stock over all lines. */
  predicate Feasible(shelf: Shelf, lines: seq<Line>) {
    && (forall i :: 0 <= i < |lines| ==> lines[i].recordId in shelf && !shelf[lines[i].recordId].archived)
    && (forall i :: 0 <= i < |lines| ==> Demand(lines, lines[i].recordId) <= shelf[lines[i].recordId].stock)
  }

  function Lower(shelf: Shelf, lines: seq<Line>): Shelf {
    map id | id in shelf :: shelf[id].(stock := shelf[id].stock - Demand(lines, id))
  }

  function Raise(shelf: Shelf, lines: seq<Line>): Shelf {
    map id | id in shelf :: shelf[id].(stock := shelf[id].stock + Demand(lines, id))
  }

  /** The order items for lines on known records. */
  function ItemsAt(shelf: Shelf, lines: seq<Line>): (items: seq<OrderItem>)
    requires forall i :: 0 <= i < |lines| ==> lines[i].recordId in shelf
    ensures |items| == |lines|
  {
    seq(|lines|, i requires 0 <= i < |lines| => ItemOf(shelf[lines[i].recordId], lines[i].quantity))
  }

  predicate Positive(lines: seq<Line>) {
    forall i :: 0 <= i < |lines| ==> lines[i].quantity >= 1
  }

  /** One more line: it must be on sale, and the demand so far must leave room for it. */
  lemma FeasibleSnoc(shelf: Shelf, lines: seq<Line>, line: Line)
    requires Positive(lines) && line.quantity >= 1
    ensures Feasible(shelf, lines + [line]) <==>
      && Feasible(shelf, lines) && line.recordId in shelf && !shelf[line.recordId].archived
      && Demand(lines, line.recordId) + line.quantity <= shelf[line.recordId].stock
  {
    var all := lines + [line];
    assert forall i :: 0 <= i < |lines| ==> all[i] == lines[i];
    assert all[|lines|] == line;
    forall r ensures Demand(all, r) == Demand(lines, r) + if line.recordId == r then line.quantity else 0 {
      DemandSnoc(lines, line, r);
    }
  }

  lemma {:induction false} FeasiblePrefix(shelf: Shelf, lines: seq<Line>, k: nat)
    requires Positive(lines) && k <= |lines| && Feasible(shelf, lines)
    ensures Feasible(shelf, lines[..k])
    decreases |lines| - k
  {
    if k < |lines| {
      FeasiblePrefix(shelf, lines, k + 1);
      assert lines[..k + 1] == lines[..k] + [lines[k]];
      FeasibleSnoc(shelf, lines[..k], lines[k]);
    } else {
      assert lines[..k] == lines;
    }
  }

  // ---- CreateOrder ----

  predicate Keyed(db: Db) {
    && (forall id :: id in db.records ==> db.records[id].id == id)
    && (forall id :: id in db.orders ==> db.orders[id].id == id)
  }

  /** The frame of an order call after `k` lines. */
  function CreateFrame(
    shelf: Shelf, userId: string, lines: seq<Line>, address: Address, k: nat, seen: Option<Record>): Call
    requires k <= |lines| && Feasible(shelf, lines[..k])
  {
    CreateOrder(userId, lines, address, ItemsAt(shelf, lines[..k]), seen)
  }

  /** What is left of the shelf after `k` lines. */
  function After(db: Db, lines: seq<Line>, k: nat): Db
    requires k <= |lines|
  {
    db.(records := Lower(db.records, lines[..k]))
  }

  /** Why line `k` cannot be taken. */
  predicate LineFails(shelf: Shelf, lines: seq<Line>, k: nat, outcome: Outcome) {
    k < |lines| &&
    var id := lines[k].recordId;
    match outcome
    case RecordNotFound => id !in shelf
    case ArchivedConflict => id in shelf && shelf[id].archived
    case InsufficientStock =>
      id in shelf && !shelf[id].archived && shelf[id].stock < Demand(lines[..k], id) + lines[k].quantity
    case _ => false
  }

  /** The store and the answer of a CreateOrder that took `k` lines. */
  predicate CreateResult(
    db: Db, userId: string, lines: seq<Line>, address: Address, mint: Mint, k: nat, db': Db, outcome: Outcome)
  {
    && k <= |lines|
    && Feasible(db.records, lines[..k])
    && db'.records == Lower(db.records, lines[..k])
    && (outcome == OrderCreated(mint.id) || outcome.StoreError? || LineFails(db.records, lines, k, outcome))
    && (outcome.OrderCreated? ==> k == |lines|)
    && db'.orders ==
       if outcome.OrderCreated? then
         db.orders[mint.id := OrderOf(mint, userId, ItemsAt(db.records, lines[..k]), address)]
       else db.orders
  }

  /** The answer of an order call, and no store error if it was `served`. */
  predicate CreateAnswer(
    db: Db, userId: string, lines: seq<Line>, address: Address, mint: Mint, r: (Db, Call), served: bool)
  {
    && r.1.Ended? && r.1.last.CreateOrder?
    && CreateResult(db, userId, lines, address, mint, |r.1.last.items|, r.0, r.1.outcome)
    && r.1.last.items == ItemsAt(db.records, lines[..|r.1.last.items|])
    && (served ==> !r.1.outcome.StoreError?)
  }

  /** `served`: the store answers to the end. */
  lemma {:induction false} PlayFromLine(
    db: Db, userId: string, lines: seq<Line>, address: Address, mint: Mint, fuel: nat, k: nat, served: bool)
    requires Keyed(db) && Positive(lines) && k <= |lines| && Feasible(db.records, lines[..k])
    requires served ==> fuel > 2 * (|lines| - k)
    ensures CreateAnswer(db, userId, lines, address, mint,
              Play(After(db, lines, k), CreateFrame(db.records, userId, lines, address, k, None), mint, fuel), served)
    decreases fuel
  {
    if fuel > 0 {
      if k == |lines| {
        PlaySave(db, userId, lines, address, mint, fuel, served);
      } else {
        ReadLine(db, userId, lines, address, mint, k, fuel, served);
        if lines[k].recordId in db.records && !db.records[lines[k].recordId].archived {
          PlayFromSeen(db, userId, lines, address, mint, fuel - 1, k, served);
        }
      }
    }
  }

  lemma {:induction false} PlayFromSeen(
    db: Db, userId: string, lines: seq<Line>, address: Address, mint: Mint, fuel: nat, k: nat, served: bool)
    requires Keyed(db) && Positive(lines) && k < |lines| && Feasible(db.records, lines[..k])
    requires lines[k].recordId in db.records && !db.records[lines[k].recordId].archived
    requires served ==> fuel >= 2 * (|lines| - k)
    ensures var before := After(db, lines, k);
            var c := CreateFrame(db.records, userId, lines, address, k, Some(before.records[lines[k].recordId]));
            CreateAnswer(db, userId, lines, address, mint, Play(before, c, mint, fuel), served)
    decreases fuel
  {
    if fuel == 0 {
      PlayUnserved(db, userId, lines, address, mint, k);
    } else {
      PlayLine(db, userId, lines, address, mint, k, fuel, served);
      if Feasible(db.records, lines[..k + 1]) {
        PlayFromLine(db, userId, lines, address, mint, fuel - 1, k + 1, served);
      }
    }
  }

  /** The store fails when line `k` is about to be taken. */
  lemma PlayUnserved(db: Db, userId: string, lines: seq<Line>, address: Address, mint: Mint, k: nat)
    requires k < |lines| && Feasible(db.records, lines[..k]) && lines[k].recordId in db.records
    ensures var before := After(db, lines, k);
            var c := CreateFrame(db.records, userId, lines, address, k, Some(before.records[lines[k].recordId]));
            CreateAnswer(db, userId, lines, address, mint, Play(before, c, mint, 0), false)
  {
  }

  /** Reading line `k`: the call ends unless the record is on sale. */
  lemma ReadLine(
    db: Db, userId: string, lines: seq<Line>, address: Address, mint: Mint, k: nat, fuel: nat, served: bool)
    requires k < |lines| && Feasible(db.records, lines[..k]) && fuel > 0
    ensures var before := After(db, lines, k); var id := lines[k].recordId;
      var c := CreateFrame(db.records, userId, lines, address, k, None);
      if id in db.records && !db.records[id].archived then
        Play(before, c, mint, fuel)
        == Play(before, CreateFrame(db.records, userId, lines, address, k, Some(before.records[id])), mint, fuel - 1)
      else
        CreateAnswer(db, userId, lines, address, mint, Play(before, c, mint, fuel), served)
  {
  }

  /** Taking line `k`: the call goes on with the next line, or ends for want of stock. */
  lemma PlayLine(
    db: Db, userId: string, lines: seq<Line>, address: Address, mint: Mint, k: nat, fuel: nat, served: bool)
    requires Keyed(db) && Positive(lines) && k < |lines| && Feasible(db.records, lines[..k]) && fuel > 0
    requires lines[k].recordId in db.records && !db.records[lines[k].recordId].archived
    ensures var before := After(db, lines, k);
      var c := CreateFrame(db.records, userId, lines, address, k, Some(before.records[lines[k].recordId]));
      if Feasible(db.records, lines[..k + 1]) then
        Play(before, c, mint, fuel)
        == Play(After(db, lines, k + 1), CreateFrame(db.records, userId, lines, address, k + 1, None), mint, fuel - 1)
      else
        CreateAnswer(db, userId, lines, address, mint, Play(before, c, mint, fuel), served)
  {
    TakeLine(db, userId, lines, address, mint, k);
    assert lines[..k + 1] == lines[..k] + [lines[k]];
    FeasibleSnoc(db.records, lines[..k], lines[k]);
  }

  lemma PlaySave(
    db: Db, userId: string, lines: seq<Line>, address: Address, mint: Mint, fuel: nat, served: bool)
    requires Keyed(db) && fuel > 0 && Feasible(db.records, lines[..|lines|])
    ensures CreateAnswer(db, userId, lines, address, mint,
              Play(After(db, lines, |lines|),
                   CreateFrame(db.records, userId, lines, address, |lines|, None), mint, fuel), served)
  {
  }

  /** The guarded decrement of line `k` succeeds exactly if the lines up to and including it are feasible. */
  lemma TakeLine(db: Db, userId: string, lines: seq<Line>, address: Address, mint: Mint, k: nat)
    requires Keyed(db) && Positive(lines) && k < |lines| && Feasible(db.records, lines[..k])
    requires lines[k].recordId in db.records && !db.records[lines[k].recordId].archived
    ensures var seen := Some(After(db, lines, k).records[lines[k].recordId]);
      var c := CreateFrame(db.records, userId, lines, address, k, seen);
      Act(After(db, lines, k), c, mint) ==
        if Feasible(db.records, lines[..k + 1]) then
          (After(db, lines, k + 1), CreateFrame(db.records, userId, lines, address, k + 1, None))
        else (After(db, lines, k), Ended(c, InsufficientStock))
  {
    var line := lines[k];
    assert lines[..k + 1] == lines[..k] + [line];
    FeasibleSnoc(db.records, lines[..k], line);
    forall r
      ensures Demand(lines[..k + 1], r) == Demand(lines[..k], r) + if line.recordId == r then line.quantity else 0
    {
      DemandSnoc(lines[..k], line, r);
    }
    if Feasible(db.records, lines[..k + 1]) {
      assert Decrement(After(db, lines, k), line.recordId, line.quantity) == After(db, lines, k + 1);
      assert ItemsAt(db.records, lines[..k + 1])
          == ItemsAt(db.records, lines[..k]) + [ItemOf(db.records[line.recordId], line.quantity)];
    }
  }

  lemma LowerByNothing(db: Db, lines: seq<Line>)
    ensures After(db, lines, 0) == db
  {
    forall id | id in db.records ensures Lower(db.records, lines[..0])[id] == db.records[id] {}
  }

  /**
   * A whole CreateOrder on valid lines: some number k of lines is taken, every record goes down by exactly
   * its demand over those k lines, and an order is saved, priced at the records' prices, exactly on success;
   * otherwise line k is refused for the reason that is reported.
   */
  lemma CreateOrderDoes(db: Db, userId: string, lines: seq<Line>, address: Address, mint: Mint, fuel: nat)
    requires Keyed(db) && Positive(lines)
    ensures CreateAnswer(db, userId, lines, address, mint,
              Play(db, CreateOrder(userId, lines, address, [], None), mint, fuel), fuel > 2 * |lines|)
  {
    LowerByNothing(db, lines);
    assert lines[..0] == [];
    PlayFromLine(db, userId, lines, address, mint, fuel, 0, fuel > 2 * |lines|);
  }

  /** Line by line, the loop decides aggregate feasibility, and it takes the longest feasible prefix. */
  lemma CreateOrderSucceedsExactlyWhen(
    db: Db, userId: string, lines: seq<Line>, address: Address, mint: Mint, fuel: nat)
    requires Keyed(db) && Positive(lines) && fuel > 2 * |lines|
    ensures var (db', e) := Play(db, CreateOrder(userId, lines, address, [], None), mint, fuel);
      && (e.outcome.OrderCreated? <==> Feasible(db.records, lines))
      && (forall n :: |e.last.items| < n <= |lines| ==> !Feasible(db.records, lines[..n]))
      && (lines != [] && (forall i :: 0 <= i < |lines| ==> lines[i].recordId != "") && userId != "" ==>
            Serve(db, CreateOrder(userId, lines, address, [], None), mint, fuel) == (db', e))
  {
    CreateOrderDoes(db, userId, lines, address, mint, fuel);
    var e := Play(db, CreateOrder(userId, lines, address, [], None), mint, fuel).1;
    var k := |e.last.items|;
    if k == |lines| {
      assert lines[..k] == lines;
    } else {
      assert lines[..k + 1] == lines[..k] + [lines[k]];
      FeasibleSnoc(db.records, lines[..k], lines[k]);
      forall n | k < n <= |lines| ensures !Feasible(db.records, lines[..n]) {
        assert lines[..n][..k + 1] == lines[..k + 1];
        if Feasible(db.records, lines[..n]) {
          FeasiblePrefix(db.records, lines[..n], k + 1);
        }
      }
      assert lines[..|lines|] == lines;
    }
  }

  // ---- the whole request ----

  /** The checks before the first store call, and success exactly on lines that the store can serve together. */
  lemma OrderIsAnswered(db: Db, userId: string, lines: seq<Line>, address: Address, mint: Mint, fuel: nat)
    requires Keyed(db)
    ensures var outcome := Serve(db, CreateOrder(userId, lines, address, [], None), mint, fuel).1.outcome;
      var valid := lines != [] && forall i :: 0 <= i < |lines| ==> lines[i].recordId != "" && lines[i].quantity >= 1;
      && (outcome.Invalid? <==> !valid)
      && (outcome.Unauthenticated? <==> valid && userId == "")
      && (outcome.OrderCreated? ==> outcome.id == mint.id && valid && userId != "" && Feasible(db.records, lines))
      && (fuel > 2 * |lines| && valid && userId != "" && Feasible(db.records, lines) ==> outcome.OrderCreated?)
  {
    if ValidLines(lines) && userId != "" {
      CreateOrderDoes(db, userId, lines, address, mint, fuel);
      assert lines[..|lines|] == lines;
      if fuel > 2 * |lines| { CreateOrderSucceedsExactlyWhen(db, userId, lines, address, mint, fuel); }
    }
  }

  /** On success every record goes down by all its lines, and one order is saved with an item for each line. */
  lemma OrderIsSaved(db: Db, userId: string, lines: seq<Line>, address: Address, mint: Mint, fuel: nat)
    requires Keyed(db) && Serve(db, CreateOrder(userId, lines, address, [], None), mint, fuel).1.outcome.OrderCreated?
    ensures var db' := Serve(db, CreateOrder(userId, lines, address, [], None), mint, fuel).0;
      && (forall id :: id in db'.records <==> id in db.records)
      && (forall id :: id in db.records ==>
            db'.records[id] == db.records[id].(stock := db.records[id].stock - Demand(lines, id)))
      && mint.id in db'.orders && db'.orders == db.orders[mint.id := db'.orders[mint.id]]
      && var order := db'.orders[mint.id];
      && order.id == mint.id && order.createdAt == mint.now && order.userId == userId && order.address == address
      && order.status.Pending? && order.total == Total(order.items) && |order.items| == |lines|
      && (forall i :: 0 <= i < |lines| ==>
            var item := order.items[i];
            && lines[i].recordId in db.records
            && item.recordId == lines[i].recordId && item.quantity == lines[i].quantity
            && item.title == db.records[lines[i].recordId].title
            && item.artist == db.records[lines[i].recordId].artist
            && item.price == db.records[lines[i].recordId].price)
  {
    OrderIsAnswered(db, userId, lines, address, mint, fuel);
    CreateOrderDoes(db, userId, lines, address, mint, fuel);
    assert lines[..|lines|] == lines;
  }

  /**
   * Otherwise no order is saved, the first k lines have been taken, and the reported reason is that of line k;
   * there is a store error only if the store stops answering.
   */
  lemma OrderIsRefused(db: Db, userId: string, lines: seq<Line>, address: Address, mint: Mint, fuel: nat)
    requires Keyed(db) && !Serve(db, CreateOrder(userId, lines, address, [], None), mint, fuel).1.outcome.OrderCreated?
    ensures var (db', e) := Serve(db, CreateOrder(userId, lines, address, [], None), mint, fuel);
      var outcome := e.outcome;
      && db'.orders == db.orders
      && (outcome.Invalid? || outcome.Unauthenticated? ==> db' == db)
      && (outcome.RecordNotFound? || outcome.ArchivedConflict? || outcome.InsufficientStock? || outcome.StoreError?
          || outcome.Invalid? || outcome.Unauthenticated?)
      && (outcome.StoreError? ==> fuel <= 2 * |lines|)
      && (outcome.Invalid? || outcome.Unauthenticated? ||
          exists k: nat ::
            && k <= |lines| && Feasible(db.records, lines[..k]) && db'.records == Lower(db.records, lines[..k])
            && (outcome.StoreError? ||
                (k < |lines| &&
                 var id := lines[k].recordId;
                 && (outcome.RecordNotFound? <==> id !in db.records)
                 && (outcome.ArchivedConflict? <==> id in db.records && db.records[id].archived)
                 && (outcome.InsufficientStock? <==>
                       && id in db.records && !db.records[id].archived
                       && db.records[id].stock < Demand(lines[..k], id) + lines[k].quantity))))
  {
    if ValidLines(lines) && userId != "" {
      CreateOrderDoes(db, userId, lines, address, mint, fuel);
      var e := Serve(db, CreateOrder(userId, lines, address, [], None), mint, fuel).1;
      var k := |e.last.items|;
      assert k <= |lines| && Feasible(db.records, lines[..k]);
    }
  }

  // ---- refused orders ----

  /** A refused order leaves the store as it was if and only if already its first line is refused. */
  lemma RefusedUnchangedExactlyWhen(db: Db, userId: string, lines: seq<Line>, address: Address, mint: Mint, fuel: nat)
    requires Keyed(db) && Positive(lines) && fuel > 2 * |lines| && !Feasible(db.records, lines)
    ensures Play(db, CreateOrder(userId, lines, address, [], None), mint, fuel).0 == db
       <==> !Feasible(db.records, lines[..1])
  {
    var (db', e) := Play(db, CreateOrder(userId, lines, address, [], None), mint, fuel);
    var k := |e.last.items|;
    CreateOrderDoes(db, userId, lines, address, mint, fuel);
    CreateOrderSucceedsExactlyWhen(db, userId, lines, address, mint, fuel);
    if k == 0 {
      LowerByNothing(db, lines);
    } else {
      FeasiblePrefix(db.records, lines[..k], 1);
      assert lines[..k][..1] == lines[..1];
      LoweredByFirst(db.records, lines[..k]);
    }
  }

  lemma LoweredByFirst(shelf: Shelf, lines: seq<Line>)
    requires Positive(lines) && lines != [] && lines[0].recordId in shelf
    ensures Lower(shelf, lines) != shelf
  {
    var id := lines[0].recordId;
    DemandNonNegative(lines, id);
    assert Lower(shelf, lines)[id].stock < shelf[id].stock;
  }

  /** A refused order for a single line changes nothing. */
  lemma RefusedSingleLine(db: Db, userId: string, line: Line, address: Address, mint: Mint, fuel: nat)
    requires Keyed(db) && line.quantity >= 1 && fuel > 2 && !Feasible(db.records, [line])
    ensures var (db', e) := Play(db, CreateOrder(userId, [line], address, [], None), mint, fuel);
            db' == db && LineFails(db.records, [line], 0, e.outcome)
  {
    CreateOrderDoes(db, userId, [line], address, mint, fuel);
    CreateOrderSucceedsExactlyWhen(db, userId, [line], address, mint, fuel);
    assert [line][..1] == [line];
    LowerByNothing(db, [line]);
  }

  // ---- the order of the lines ----

  lemma {:induction false} DemandInsert(a: seq<Line>, i: nat, r: string)
    requires i < |a|
    ensures Demand(a, r) == Demand(a[..i] + a[i + 1..], r) + if a[i].recordId == r then a[i].quantity else 0
  {
    assert a == a[..i] + [a[i]] + a[i + 1..];
    DemandConcat(a[..i] + [a[i]], a[i + 1..], r);
    DemandSnoc(a[..i], a[i], r);
    DemandConcat(a[..i], a[i + 1..], r);
  }

  /** What the lines cost at the shelf's prices. */
  function Cost(shelf: Shelf, lines: seq<Line>): real
    requires forall i :: 0 <= i < |lines| ==> lines[i].recordId in shelf
  {
    Total(ItemsAt(shelf, lines))
  }

  lemma CostSnoc(shelf: Shelf, lines: seq<Line>, line: Line)
    requires line.recordId in shelf && forall i :: 0 <= i < |lines| ==> lines[i].recordId in shelf
    ensures Cost(shelf, lines + [line]) == Cost(shelf, lines) + shelf[line.recordId].price * line.quantity as real
  {
    var items := ItemsAt(shelf, lines + [line]);
    assert items[..|lines|] == ItemsAt(shelf, lines);
    assert items[|lines|] == ItemOf(shelf[line.recordId], line.quantity);
  }

  lemma {:induction false} CostConcat(shelf: Shelf, a: seq<Line>, b: seq<Line>)
    requires forall i :: 0 <= i < |a| ==> a[i].recordId in shelf
    requires forall i :: 0 <= i < |b| ==> b[i].recordId in shelf
    ensures Cost(shelf, a + b) == Cost(shelf, a) + Cost(shelf, b)
    decreases |b|
  {
    if b == [] {
      assert a + b == a;
    } else {
      var n := |b| - 1;
      CostConcat(shelf, a, b[..n]);
      CostSnoc(shelf, a + b[..n], b[n]);
      CostSnoc(shelf, b[..n], b[n]);
      assert a + b == (a + b[..n]) + [b[n]] && b == b[..n] + [b[n]];
    }
  }

  lemma CostInsert(shelf: Shelf, a: seq<Line>, i: nat)
    requires i < |a| && forall j :: 0 <= j < |a| ==> a[j].recordId in shelf
    ensures Cost(shelf, a) == Cost(shelf, a[..i] + a[i + 1..]) + Cost(shelf, [a[i]])
  {
    assert a == a[..i] + ([a[i]] + a[i + 1..]);
    CostConcat(shelf, a[..i], [a[i]] + a[i + 1..]);
    CostConcat(shelf, [a[i]], a[i + 1..]);
    CostConcat(shelf, a[..i], a[i + 1..]);
  }

  lemma Without(a: seq<Line>, i: nat)
    requires i < |a|
    ensures multiset(a[..i] + a[i + 1..]) == multiset(a) - multiset{a[i]}
  {
    assert a == a[..i] + ([a[i]] + a[i + 1..]);
  }

  /** The first line of `a` somewhere in its permutation `b`. */
  lemma FirstLineIn(a: seq<Line>, b: seq<Line>) returns (j: nat)
    requires multiset(a) == multiset(b) && a != []
    ensures j < |b| && b[j] == a[0] && multiset(a[1..]) == multiset(b[..j] + b[j + 1..])
  {
    var first := a[0];
    assert first in multiset(a);
    assert first in b by { assert first in multiset(b); }
    j :| 0 <= j < |b| && b[j] == first;
    assert multiset(a[1..]) == multiset(a) - multiset{first} by {
      Without(a, 0);
      assert a[..0] + a[1..] == a[1..];
    }
    Without(b, j);
  }

  /** Two lists that share a line demand the same if their rests do. */
  lemma DemandStep(a: seq<Line>, b: seq<Line>, j: nat, r: string)
    requires a != [] && j < |b| && b[j] == a[0] && Demand(a[1..], r) == Demand(b[..j] + b[j + 1..], r)
    ensures Demand(a, r) == Demand(b, r)
  {
    DemandInsert(a, 0, r);
    assert a[..0] + a[1..] == a[1..];
    DemandInsert(b, j, r);
  }

  lemma {:induction false} DemandPermutes(a: seq<Line>, b: seq<Line>, r: string)
    requires multiset(a) == multiset(b)
    ensures Demand(a, r) == Demand(b, r)
    decreases |a|
  {
    if a == [] {
      assert |multiset(b)| == 0;
    } else {
      var j := FirstLineIn(a, b);
      DemandPermutes(a[1..], b[..j] + b[j + 1..], r);
      DemandStep(a, b, j, r);
    }
  }

  lemma {:induction false} CostPermutes(shelf: Shelf, a: seq<Line>, b: seq<Line>)
    requires multiset(a) == multiset(b)
    requires forall i :: 0 <= i < |a| ==> a[i].recordId in shelf
    requires forall i :: 0 <= i < |b| ==> b[i].recordId in shelf
    ensures Cost(shelf, a) == Cost(shelf, b)
    decreases |a|
  {
    if a == [] {
      assert |multiset(b)| == 0;
    } else {
      var j := FirstLineIn(a, b);
      CostInsert(shelf, a, 0);
      assert a[..0] + a[1..] == a[1..];
      CostInsert(shelf, b, j);
      CostPermutes(shelf, a[1..], b[..j] + b[j + 1..]);
    }
  }

  lemma FeasiblePermutes(shelf: Shelf, a: seq<Line>, b: seq<Line>)
    requires multiset(a) == multiset(b)
    ensures Feasible(shelf, a) ==> Feasible(shelf, b)
  {
    forall r ensures Demand(a, r) == Demand(b, r) {
      DemandPermutes(a, b, r);
    }
    forall i | 0 <= i < |b| ensures exists j :: 0 <= j < |a| && a[j] == b[i] {
      assert b[i] in multiset(a);
      assert b[i] in a;
    }
  }

  lemma LowerPermutes(shelf: Shelf, a: seq<Line>, b: seq<Line>)
    requires multiset(a) == multiset(b)
    ensures Lower(shelf, a) == Lower(shelf, b)
  {
    forall r ensures Demand(a, r) == Demand(b, r) {
      DemandPermutes(a, b, r);
    }
  }

  /** Reordering the lines of an order changes neither its success, nor the stocks after success, nor its total. */
  lemma LineOrderDoesNotMatter(
    db: Db, userId: string, a: seq<Line>, b: seq<Line>, address: Address, mint: Mint, fuel: nat)
    requires Keyed(db) && Positive(a) && Positive(b) && multiset(a) == multiset(b) && fuel > 2 * |a| && fuel > 2 * |b|
    ensures var (dbA, eA) := Play(db, CreateOrder(userId, a, address, [], None), mint, fuel);
      var (dbB, eB) := Play(db, CreateOrder(userId, b, address, [], None), mint, fuel);
      && (eA.outcome.OrderCreated? <==> eB.outcome.OrderCreated?)
      && (eA.outcome.OrderCreated? ==>
            && dbA.records == dbB.records
            && mint.id in dbA.orders && mint.id in dbB.orders
            && dbA.orders[mint.id].total == dbB.orders[mint.id].total)
  {
    CreateOrderSucceedsExactlyWhen(db, userId, a, address, mint, fuel);
    CreateOrderSucceedsExactlyWhen(db, userId, b, address, mint, fuel);
    FeasiblePermutes(db.records, a, b);
    FeasiblePermutes(db.records, b, a);
    if Feasible(db.records, a) {
      CreateOrderDoes(db, userId, a, address, mint, fuel);
      CreateOrderDoes(db, userId, b, address, mint, fuel);
      assert a[..|a|] == a && b[..|b|] == b;
      CostPermutes(db.records, a, b);
      LowerPermutes(db.records, a, b);
    }
  }
}
